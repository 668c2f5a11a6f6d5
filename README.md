# Tweet extraction service, modelled in Dafny

This project models the core of a small tweet-scraping service. It has two parts.

- **`tweet_extractor.py`** drives a headless browser:
  - it validates a tweet URL and derives the author handle from it;
  - it visits the page up to three times, with exponential backoff and browser cleanup after every attempt;
  - it reads the author name, text, engagement counts and image URLs;
  - it returns one dict describing the tweet, or an error.
- **`railway_app.py`** is a Flask service with two endpoints:
  - `/extract` validates its request and mirrors the dict's status;
  - `/extract-batch` extracts a list of URLs and summarises how many succeeded.

The browser is not modelled. It becomes data:

- A loaded page is a `Page.Page`: for every CSS selector the extractor queries, the elements `find_elements` returns.
- One attempt is an `Extraction.AttemptOutcome`: browser setup raised, or it started and the load failed, or it left a page.
- `extract_tweet` is given one outcome per attempt index.
- The clock reading for `extracted_at` is a string parameter.
- Sleeps and cleanups are recorded in an event trace (`Extraction.Event`).
- For the service, one call of `extract_tweet_data` is a function from the JSON `url` value to the dict or the text of the exception it raises (`Service.Extractor`).
- `Service.RunsExtractTweet` ties that function to the extraction model.

Modules, one per file:

| file | module | models |
|---|---|---|
| `text.dfy` | `Text` | the `str` operations used: `strip`, `in`, `replace(c, '')`, `\d`, `str(int)` |
| `json.dfy` | `Json` | JSON values, dicts as maps, Python truthiness, `dict.get`, the sparse-dict filter |
| `url.dfy` | `TweetUrl` | `_is_valid_twitter_url` and the `re.search` that yields the author handle |
| `count.dfy` | `CountNormalizer` | `_normalize_count` |
| `page.dfy` | `Page` | the page as the extractor queries it; the selectors |
| `extractors.dfy` | `Extractors` | `_extract_author_name`, `_extract_tweet_text` |
| `metrics.dfy` | `Metrics` | `_extract_metrics` |
| `images.dfy` | `Images` | `_extract_images`, including `re.sub(r'\?.*$', '', src)` |
| `tweet_data.dfy` | `TweetData` | `_extract_tweet_data` |
| `extract_tweet.dfy` | `Extraction` | `extract_tweet`: validation, handle, retry loop, backoff, cleanup, merge |
| `facade.dfy` | `Service` | the `/extract` and `/extract-batch` handlers |

Where the code keeps state in a loop, the model keeps it in a method:

- `_extract_metrics`, `_extract_images`, the selector loops, the retry loop and the batch loop are each a `method`.
- Each such method is proved equal to a specification function.
- The properties are proved about those functions.

## Model

| member | source | states |
|---|---|---|
| `TweetUrl.ParseStatusUrl` | tweet_extractor.py:178-179 | a URL it accepts starts with an instance of `https?://(www\.)?(twitter\|x)\.com/<handle>/status/<digits>` whose handle has no '/' and whose id is all digits |
| `TweetUrl.PatternImpliesParse` | tweet_extractor.py:178-179 | every URL that starts with such an instance is accepted, and the parse recovers its scheme, subdomain, host, handle and the leading status digits |
| `TweetUrl.IsValidTwitterUrl` | tweet_extractor.py:176-179 | the validator accepts a URL exactly when some instance of the pattern is a prefix of it (`re.match`, trailing text allowed) |
| `TweetUrl.ParseComplete` | tweet_extractor.py:178-179 | the parser succeeds on every URL that starts with an instance of the pattern |
| `TweetUrl.AcceptsStatusUrl` | tweet_extractor.py:178-179 | `https://x.com/nasa/status/123` is valid |
| `TweetUrl.AcceptsTrailingText` | tweet_extractor.py:178-179 | `http://www.twitter.com/a/status/9?s` is valid: the pattern need only match a prefix |
| `TweetUrl.RejectsProfileUrl` | tweet_extractor.py:178-179 | `https://x.com/nasa` is invalid |
| `TweetUrl.RejectsSchemelessUrl` | tweet_extractor.py:178-179 | `x.com/nasa/status/123` is invalid: the scheme is mandatory |
| `TweetUrl.SearchHandleFrom` | tweet_extractor.py:116 | a captured handle is non-empty and contains no '/' |
| `TweetUrl.SearchSkips` | tweet_extractor.py:116 | `re.search` passes over offsets where the pattern does not match |
| `TweetUrl.SearchNoneIff` | tweet_extractor.py:116 | the search finds nothing exactly when the pattern matches at no offset |
| `TweetUrl.SearchLeftmost` | tweet_extractor.py:116 | what the search finds is the group of the match at the leftmost offset where one starts |
| `TweetUrl.AuthorHandle` | tweet_extractor.py:116-118 | no handle exactly when `(?:twitter\|x)\.com/([^/]+)` matches nowhere in the URL; otherwise the non-empty, slash-free group of the leftmost match |
| `TweetUrl.SearchFindsHandle` | tweet_extractor.py:116-118 | when the URL starts with an instance of the validator's pattern, the search captures that instance's handle |
| `TweetUrl.AuthorHandleOfValidUrl` | tweet_extractor.py:116-118 | for a valid URL the search captures exactly the path segment after `twitter.com/` or `x.com/` |
| `CountNormalizer.ParseDecimal` | tweet_extractor.py:398 | what `float()` reads is a well-formed decimal (sign, digits, optional point and fraction, at least one digit) |
| `CountNormalizer.ParseDecimalText` | tweet_extractor.py:398 | `float()` reads the canonical text of any decimal back as that decimal |
| `CountNormalizer.Scale` | tweet_extractor.py:397-399 | scaling fails with `NotAFloat(t)` exactly when `float(t)` cannot read `t`; a result contains no ',', 'K', 'M' or 'B' |
| `CountNormalizer.ScaleValue` | tweet_extractor.py:397-399 | whatever text `float()` reads as `d` (sign, stray whitespace, a bare point included), scaling it gives `str(int(d * factor))`: the exact product truncated toward zero, printed |
| `CountNormalizer.ScaleIsTruncatedProduct` | tweet_extractor.py:398-399 | the integer computation equals `int(float(t) * factor)`: the exact product truncated toward zero |
| `CountNormalizer.NormalizeCount` | tweet_extractor.py:380-413 | `''` and `'0'` give `'0'`; every result contains no ',', 'K', 'M' or 'B'; only a count that still holds K, M or B once stripped and rid of commas can raise; a count other than `''` and `'0'` that holds none of them comes back stripped and rid of commas, unchanged otherwise |
| `CountNormalizer.SuffixOf` | tweet_extractor.py:396-411 | the suffix acted on is one the text holds, and 'M' only when there is no 'K', 'B' only when there is neither |
| `CountNormalizer.SuffixTaken` | tweet_extractor.py:380-411 | a count holding K, M or B once stripped and rid of commas is scaled by its first suffix's factor after every occurrence of that suffix is removed |
| `CountNormalizer.SuffixValue` | tweet_extractor.py:380-411 | any such count whose remaining text `float()` reads as `d` (for example `"+1.5K"`, `"1.K"`, `"1.5 K"`, `"1.5KK"`, `"K1.5"`) normalises to `str(int(d * factor))` for its first suffix's factor |
| `CountNormalizer.SuffixUnreadable` | tweet_extractor.py:380-411 | any such count whose remaining text `float()` cannot read raises `NotAFloat` carrying that text |
| `CountNormalizer.SuffixScales` | tweet_extractor.py:393-411 | a count that reads as a decimal followed by K, M or B once stripped and rid of commas (so also `"1,500K"` or `" 2M "`) normalises to the decimal's value times 10^3, 10^6 or 10^9, truncated toward zero |
| `CountNormalizer.SuffixPrecedence` | tweet_extractor.py:396-411 | the suffixes are tried in the order K, M, B and only the first found is removed, so a count holding two different suffixes raises `float()`'s error |
| `CountNormalizer.ParseDecimalRejects` | tweet_extractor.py:398 | `float()` fails on a text holding any character other than whitespace, digits, the point and a sign |
| `CountNormalizer.NormalizePlainDigits` | tweet_extractor.py:393-413 | a digit string is returned unchanged |
| `CountNormalizer.NormalizeIntegerText` | tweet_extractor.py:399-413 | the text `str(int(...))` prints, sign included, is returned unchanged |
| `CountNormalizer.NormalizeIdempotent` | tweet_extractor.py:390-413 | normalising again changes nothing whenever the first result is non-empty and has no surrounding whitespace |
| `CountNormalizer.SuffixResultIsStable` | tweet_extractor.py:390-411 | the results for `''`, `'0'` and every suffixed count meet that condition, so for them normalising is idempotent |
| `CountNormalizer.NotIdempotentExample` | tweet_extractor.py:393-413 | without a suffix it is not idempotent in general: `"5 ,"` gives `"5 "`, which gives `"5"` |
| `CountNormalizer.NormalizeRejectsNonNumber` | tweet_extractor.py:396-399 | a count whose text before the 'K' does not start like a number raises `float()`'s error, carrying that text |
| `CountNormalizer.NormalizeZeroExamples` | tweet_extractor.py:390-391 | `''` and `'0'` give `'0'` |
| `CountNormalizer.NormalizeThousandsExample` | tweet_extractor.py:396-399 | `"1.5K"` gives `"1500"` |
| `CountNormalizer.NormalizeMillionsExample` | tweet_extractor.py:402-405 | `"2M"` gives `"2000000"` |
| `CountNormalizer.NormalizeCommaExample` | tweet_extractor.py:393-413 | `"1,234"` gives `"1234"` |
| `CountNormalizer.NormalizeGroupedThousandsExample` | tweet_extractor.py:393-399 | `"1,500K"` gives `"1500000"`: the comma goes before the suffix is read |
| `Extractors.FirstMatchingFrom` | tweet_extractor.py:289-292 | the index found is the first selector whose match list is non-empty; none is found only when every list is empty |
| `Extractors.ExtractFirstMatch` | tweet_extractor.py:289-294 | the selector loop returns the stripped text of the first element of the first non-empty match list, or `""` |
| `Extractors.ExtractAuthorName` | tweet_extractor.py:271-297 | the author name comes from the three author selectors in order; a non-empty result has no surrounding whitespace |
| `Extractors.ExtractTweetText` | tweet_extractor.py:299-324 | the text comes from the two text selectors in order; a non-empty result has no surrounding whitespace |
| `Metrics.RawMetrics` | tweet_extractor.py:336-369 | the dict read from the page always has exactly the four keys likes, retweets, replies and views |
| `Metrics.ReadButtonCount` | tweet_extractor.py:346-350 | a count is overwritten only when its button and the button's following span both exist |
| `Metrics.ReadMetrics` | tweet_extractor.py:336-369 | the defaults are overwritten in the order replies, retweets, likes, views |
| `Metrics.NormalizeFrom` | tweet_extractor.py:372-373 | normalisation keeps the dict's keys |
| `Metrics.NormalizeMetrics` | tweet_extractor.py:371-378 | the key loop with its swallowed exception computes the normalisation function |
| `Metrics.ExtractMetrics` | tweet_extractor.py:326-378 | `_extract_metrics` returns the normalised page counts |
| `Metrics.FirstFailure` | tweet_extractor.py:372-373 | the counts before the index found all normalise, and the count at it does not |
| `Metrics.NormalizeFromStopsAtFailure` | tweet_extractor.py:372-378 | from any point of the loop, the keys before the first unreadable count end normalised and the rest stay raw |
| `Metrics.MetricsPartlyNormalized` | tweet_extractor.py:371-378 | the returned counts before the first unreadable one are normalised; that one and the later ones are as the page showed them |
| `Metrics.AllReadableAllPlain` | tweet_extractor.py:371-375 | when every count is readable, no returned count contains ',', 'K', 'M' or 'B' |
| `Metrics.MissingCountIsZero` | tweet_extractor.py:336-369 | a count whose button, span or link is missing is reported as `'0'` |
| `Images.StripQuery` | tweet_extractor.py:433 | `re.sub(r'\?.*$', '', src)`: the text itself when the pattern matches nowhere, else the text with the leftmost, longest match cut out |
| `Images.QueryStartIsLeftmostLongest` | tweet_extractor.py:433 | the part removed is the leftmost match of `\?.*$`, and the longest one at that start (`.` stops at a newline; `$` also matches before a final newline) |
| `Images.StripQuerySingleLine` | tweet_extractor.py:433 | on a one-line URL the result is the prefix before the first '?' |
| `Images.StripQueryOfQuery` | tweet_extractor.py:433 | `url + "?" + query` becomes `url` when `url` has no '?' |
| `Images.ExtractImages` | tweet_extractor.py:415-440 | the loop returns the deduplicated stripped sources of the kept image elements |
| `Images.Dedupe` | tweet_extractor.py:434-435 | deduplication keeps exactly the values of its input, none of them twice, and is never longer than its input |
| `Images.DedupeIsFirstOccurrences` | tweet_extractor.py:434-435 | deduplication keeps each value once, at its first occurrence, in input order |
| `Images.DistinctUnchanged` | tweet_extractor.py:434-435 | a list without repeats is left as it is |
| `Images.DedupeIdempotent` | tweet_extractor.py:434-435 | deduplicating twice changes nothing |
| `Images.CandidatesFromKeptSources` | tweet_extractor.py:429-433 | a candidate is the URL of some kept element, and every kept element yields one |
| `Images.ImagesFromKeptSources` | tweet_extractor.py:428-437 | a URL is returned exactly when it is the stripped `src` of an image whose `src` is non-empty, has `pbs.twimg.com` and has no `profile`; none is returned twice |
| `Images.SizesCollapseExample` | tweet_extractor.py:433-435 | a `?name=small` query is removed; the same image twice is reported once |
| `TweetData.MetricOr` | tweet_extractor.py:236-239 | `metrics.get(key, '0')`: the value under the key, else `'0'` |
| `TweetData.ExtractTweetData` | tweet_extractor.py:181-249 | one visit returns the dict the page determines: the failure flag on a failed load, a missing article or no name and no text |
| `TweetData.SuccessRecordFields` | tweet_extractor.py:232-242 | an assembled result passes the loop's success test and holds exactly the values it was built from |
| `TweetData.SucceedsIffEssentialData` | tweet_extractor.py:205-249 | a visit succeeds iff the page loaded, the article appeared and the author name or the text is non-empty; otherwise the dict is `{'success': False}` |
| `TweetData.SuccessReportsPage` | tweet_extractor.py:213-242 | a successful visit reports the page's author name, text, four counts, images and date |
| `TweetData.MetricKeysKept` | tweet_extractor.py:236-239 | the metrics dict always has the four keys, so the `'0'` defaults of `.get` never apply |
| `TweetData.SuccessIsAssembled` | tweet_extractor.py:228-242 | when the essential data is there, the dict is assembled from exactly what the extractors return |
| `Extraction.ExtractTweet` | tweet_extractor.py:94-166 | the returned dict and the steps taken are those of the specification of `extract_tweet` |
| `Extraction.RetryLoop` | tweet_extractor.py:121-166 | the loop returns the dict and trace of the attempt specification |
| `Extraction.TryAttempt` | tweet_extractor.py:123-162 | one pass: success iff the attempt passes; then the sparse merged dict, and cleanup before the return; otherwise the dict is unchanged, cleanup follows, and a backoff sleep follows unless it was the last attempt |
| `Extraction.AttemptStep` | tweet_extractor.py:122-162 | a passing attempt ends the loop with the merged dict; a failing one adds its steps and defers to the next attempt |
| `Extraction.FirstSuccess` | tweet_extractor.py:122-132 | the attempt found is the first that passes, or 3 when none does |
| `Extraction.AttemptsEnd` | tweet_extractor.py:122-148 | at least one and at most three attempts are made |
| `Extraction.AttemptsMadeInOrder` | tweet_extractor.py:122 | the attempts are numbered 0, 1, … in order, up to the one that passes or the last |
| `Extraction.BackoffBetweenAttempts` | tweet_extractor.py:159-162 | the sleep durations, in order, are `RETRY_DELAY * 2^attempt` for every attempt but the last, and no sleep follows the last attempt |
| `Extraction.SleepsPlaced` | tweet_extractor.py:121-162 | the run from an attempt starts with that attempt, and every sleep in it stands right after an attempt's cleanup and right before the next attempt, lasting that attempt's backoff |
| `Extraction.FailedAttemptSteps` | tweet_extractor.py:153-162 | a failed attempt contributes one attempt and a sleep only when it was not the last |
| `Extraction.CleanupAfterEachAttempt` | tweet_extractor.py:153-156 | every attempt is followed at once by its cleanup, which quits a browser exactly when setup had started one |
| `Extraction.CleanupsInOrder` | tweet_extractor.py:148-156 | the trace holds exactly one cleanup per attempt made, in attempt order, and no other |
| `Extraction.EndsWithCleanup` | tweet_extractor.py:148-156 | the last step of the loop is the cleanup of the last attempt, also when it returns on success |
| `Extraction.LoopRecord` | tweet_extractor.py:132-166 | the loop returns the sparse merge for the first passing attempt, else the start dict with the exhaustion message |
| `Extraction.LoopSchedule` | tweet_extractor.py:37-162 | the trace follows the schedule: attempts 0..n-1 with n in 1..3, sleeps [1, 2] cut to n-1, each attempt followed at once by its own cleanup, exactly one cleanup per attempt (quitting a browser iff setup started one) and no other, every sleep right after attempt i's cleanup and right before attempt i + 1, lasting `RETRY_DELAY * 2^i`, the last cleanup at the end |
| `Extraction.AttemptSchedule` | tweet_extractor.py:37-162 | for a valid URL the run follows that schedule, with as many attempts as it took to reach the first success |
| `Extraction.InvalidUrlAnsweredAtOnce` | tweet_extractor.py:104-113 | an invalid URL makes no attempt and returns exactly url, error status, `extracted_at` and `Invalid tweet URL` (no `author`) |
| `Extraction.ValidUrlRetries` | tweet_extractor.py:111-122 | a valid URL enters the retry loop with the handle-annotated dict |
| `Extraction.StartingRecord` | tweet_extractor.py:104-118 | for a valid URL the loop starts from url, error status, `extracted_at` and `author` = "@" + the handle in the URL, without a message |
| `Extraction.AuthorEntry` | tweet_extractor.py:116-118 | whenever the search captures a handle, `author` is "@" + that handle |
| `Extraction.ExhaustedAttempts` | tweet_extractor.py:159-166 | when no attempt passes: the start dict plus the exhaustion message, attempts [0, 1, 2] and sleeps [1, 2] |
| `Extraction.NoSuccessFound` | tweet_extractor.py:122-132 | with no passing attempt, all three attempts are made |
| `Extraction.ExhaustedTrace` | tweet_extractor.py:122-162 | all three attempts made means attempts [0, 1, 2] and sleeps [1, 2] |
| `Extraction.UpdateOf` | tweet_extractor.py:134-144 | the update writes exactly the nine keys status … created_at |
| `Extraction.UpdateValues` | tweet_extractor.py:134-144 | the update writes `success` as status and the extracted values under their keys |
| `Extraction.UntouchedKeys` | tweet_extractor.py:134-144 | the update does not write `message`, `url` or `author` |
| `Extraction.FieldsOfSuccess` | tweet_extractor.py:134-144 | reading an assembled success dict with `.get` defaults gives back exactly the assembled values |
| `Extraction.MergedStatus` | tweet_extractor.py:134-147 | after update and sparse filter: status `success`, no message, no empty value, untouched non-empty keys kept |
| `Extraction.MergedContent` | tweet_extractor.py:134-147 | author name, text and images are present exactly when non-empty, with the extracted values |
| `Extraction.MergedMetrics` | tweet_extractor.py:138-147 | a reported count is the value of the metrics dict |
| `Extraction.MetricReported` | tweet_extractor.py:138-147 | a count is reported exactly when it is non-empty, so a `'0'` count is kept |
| `Extraction.UrlAndAuthorKept` | tweet_extractor.py:134-147 | the update keeps `url` and `author` |
| `Extraction.RecordOfSuccess` | tweet_extractor.py:134-148 | the success dict: success status, no message or empty value, url and author kept, name or text present, every field as extracted |
| `Extraction.SuccessAt` | tweet_extractor.py:130-148 | the loop's dict when a given attempt is the first to pass on a page |
| `Extraction.SuccessfulRun` | tweet_extractor.py:94-148 | a valid URL whose first passing attempt loads a page returns the success dict built from that page |
| `Extraction.FirstSuccessIs` | tweet_extractor.py:122-132 | the first passing attempt is the one all earlier attempts fail before |
| `Extraction.FirstPassingAttempt` | tweet_extractor.py:122-132 | when some attempt passes, the first one that does |
| `Extraction.ValidUrlNotEmpty` | tweet_extractor.py:178-179 | a valid URL is non-empty, so `url` survives the sparse filter |
| `Extraction.InvalidUrlReportsError` | tweet_extractor.py:111-113 | an invalid URL reports status `error` |
| `Extraction.ExhaustedReportsError` | tweet_extractor.py:164-166 | a valid URL with no passing attempt reports status `error` |
| `Extraction.SuccessReportsSuccess` | tweet_extractor.py:132-148 | a valid URL whose first passing attempt is f reports a status other than `error` |
| `Extraction.SomeSuccessReportsSuccess` | tweet_extractor.py:122-148 | a valid URL with some passing attempt reports a status other than `error` |
| `Extraction.ReportsSuccessIff` | tweet_extractor.py:94-166 | the status is anything but `error` iff the URL is valid and one of the three attempts loads a page with an author name or text |
| `Json.Sparse` | tweet_extractor.py:147 | the filter keeps exactly the keys whose value is not `None`, `''` or `[]`, with their values |
| `Json.SparseMergeAt` | tweet_extractor.py:134-147 | after `update` and the filter, a key holds the update's value if written and non-empty, else the old value if non-empty |
| `Json.StringArray` | tweet_extractor.py:142 | the image list as a JSON array, element by element |
| `Service.BodyGet` | railway_app.py:31-72 | `data.get` works exactly on a JSON object, reading the key or the default; on any other value it raises an AttributeError |
| `Service.ExtractRejects` | railway_app.py:25-38 | `/extract` answers 400 iff the body is not JSON or is an object whose `url` is falsy, with `Request must be JSON` or `URL is required` |
| `Service.ExtractMirrorsStatus` | railway_app.py:41-53 | with a usable `url`: 200 with `data` = the dict and status `success` iff the dict's status is not `error`; an exception gives 500 with its text |
| `Service.NonObjectBodyIsServerError` | railway_app.py:31-53 | a JSON body that is not an object makes both handlers answer 500 |
| `Service.ResultsArray` | railway_app.py:106-110 | the `results` array holds the results in order |
| `Service.ResultFor` | railway_app.py:83-91 | an exception becomes an error entry with the URL and the exception's text; otherwise the dict itself |
| `Service.Results` | railway_app.py:81-91 | one result per URL, in input order, each from that URL alone |
| `Service.CollectResults` | railway_app.py:81-91 | the loop builds exactly those results, and an exception does not stop it |
| `Service.SuccessCount` | railway_app.py:94 | the count is at most the number of results |
| `Service.SuccessCountCounts` | railway_app.py:94 | the count is the number of results whose status is not `error` |
| `Service.NoSuccessIff` | railway_app.py:94-96 | the count is 0 iff every result has status `error` |
| `Service.AllSuccessIff` | railway_app.py:94-104 | the count equals the number of results iff no result has status `error` |
| `Service.HandleExtract` | railway_app.py:15-53 | 400 exactly when the body is not JSON or is a JSON object without a truthy `url`; 200 exactly when the body is an object with a truthy `url` and the extractor returns, with its dict as `data` and `status` `'success'` iff the dict's status is not `'error'`; 500 otherwise (undecodable or non-object body, extractor exception); every non-200 answer has status `'error'` |
| `Service.HandleExtractBatch` | railway_app.py:55-116 | the batch handler answers what the batch specification says |
| `Service.BatchRejects` | railway_app.py:65-78 | `/extract-batch` answers 400 iff the body is not JSON or is an object whose `urls` is falsy or not a list, with `Request must be JSON` or `URLs array is required` |
| `Service.BatchResultsAligned` | railway_app.py:81-110 | a valid batch answers 200 with status, message and one result per URL, in order |
| `Service.BatchStatusIff` | railway_app.py:94-104 | status `error` iff every result is an error; `success` iff none is; `partial_success` iff some are and some are not |
| `Service.Summarize` | railway_app.py:96-104 | status `error` iff the count is 0, `partial_success` iff it is strictly between 0 and the URL count, `success` otherwise; each with its message, the counts printed in decimal |
| `Service.BatchMessage` | railway_app.py:96-104 | the message for a count of 0, of strictly between 0 and the URL count, and of the URL count |
| `Service.PairCount` | railway_app.py:94 | with two results, the count adds one per non-error result |
| `Service.PartialBatchExample` | railway_app.py:94-104 | one success and one exception give `partial_success` and "Successfully extracted data from 1 of 2 tweets" |
| `Service.BatchCountsFoundTweets` | railway_app.py:84-94 | a batch entry counts as a success iff its URL is a valid tweet URL and one of its three attempts found the essential data |

## Left out

- **The browser.** Selenium, ChromeDriver, `WebDriverWait` and `get_attribute` are not modelled.
  - A page is a `Page.Page` value and each attempt an `AttemptOutcome` value.
  - `driver.get` failing and the wait timing out are both modelled as an attempt that fails.
  - Exceptions raised by the browser inside the extractors are not modelled. On such an exception the author, text and date extractors return `""` (tweet_extractor.py:295-297, 322-324, 463-465), `_extract_metrics` returns its dict as far as it had got (376-378), and `_extract_images` returns the URLs collected so far (438-440).
  - The one exception inside an extractor that the model does capture is `float()` failing on an unreadable count, which stops `_extract_metrics` part-way (`Metrics.MetricsPartlyNormalized`).
- **Selectors.** They are an enumerated `Page.Selector`. `Page.Css` keeps each selector's CSS text. CSS matching itself is not modelled.
- **`_setup_driver` and the `Options` built in `__init__`** are not modelled. Browser setup is an attempt outcome (`SetupFails`).
  - As written, `_setup_driver` is indented inside `__init__` (tweet_extractor.py:64-66), so the module would not import.
  - The model assumes the evidently intended method.
- **`_cleanup`** is recorded as a `Cleanup` event. It marks whether a browser was quit, that is whether setup had started one. An exception from `quit()` is logged and swallowed, so it changes nothing.
- **`_handle_dialogs`** is not modelled. It never fails an attempt: it clicks a dialog's close button away and then sleeps 1 s (tweet_extractor.py:259-268).
- **Dialog sleep.** The 1 s sleep after closing a dialog happens inside an attempt and is not recorded, so the trace's `Sleep` events are only the backoff sleeps between attempts (`Extraction.BackoffBetweenAttempts`, `Extraction.SleepsPlaced`, `Extraction.LoopSchedule`).
- **`_extract_date`** depends on `datetime` parsing and formatting, which is not modelled. The page carries its already formatted date (`Page.createdAt`).
- **`datetime.now()`** becomes the string parameter `now`.
- **`time.sleep` and logging.** A backoff sleep between attempts is recorded as a `Sleep` event with its duration; the dialog sleep is not (see above). Log lines are not modelled.
- **Floating point.** `float()` is modelled as exact decimal reading: sign, digits, optional point and fraction, surrounding whitespace.
  - The product is exact before `int()` truncates it.
  - IEEE rounding is not modelled. Neither are exponents, `inf`, `nan` or underscores.
- **Unicode.** `str.strip()` removes the characters of Python's `str.isspace()`, Unicode ones included (`Text.IsSpace`). Case folding and normalisation play no part.
  - `\d` is modelled on the ASCII digits `0`-`9`. Python's `\d` also matches other Unicode decimal digits, so a status id written in such digits is rejected by the model but accepted by the source.
  - `float()` is modelled on ASCII digits only. Python's `float()` also reads other Unicode decimal digits (for example `"١٥K"`), which the model reports as unreadable.
- **Flask.** Routing, `jsonify` and key order are not modelled. Neither are the `/health` and `/` routes nor `app.run`.
  - The decoding error Flask raises for a malformed JSON body is the parameter `Undecodable(error)`.
  - JSON numbers are integers.
- **Exception texts.** The service receives an exception raised by `extract_tweet_data` (for example the `TypeError` for a URL that is not a string) as a text parameter.
- Service.BatchCountsFoundTweets: a batch that repeats a URL uses the same browser outcomes for both occurrences. Two real runs could differ.
- **`Service.HandleExtract`** has no method of its own. It is straight-line validation, modelled as a function whose contract states its behaviour.
- **Choices the code makes that the model follows**:
  - the scheme is mandatory;
  - only the upper-case suffixes K, M and B are recognised, and the first one present wins;
  - each metric comes from the first matching element, with no reconciliation across strategies;
  - an unreadable count raises and stops the normalisation part-way, rather than counting as 0;
  - the timeouts are 20 s and 10 s;
  - `_normalize_count` returns text, not an integer.
