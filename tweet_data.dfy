/**
 * `_extract_tweet_data`: one visit to the tweet page and the dict it yields.
 *
 * The page is loaded, the extractor waits for the tweet article, reads the author name, the
 * text, the metrics, the images and the date, and reports success only when the author name
 * or the text is non-empty.  A failed load and a missing article (the wait times out) are
 * both caught and reported as `{'success': False}`.
 */
module TweetData {
  import opened Text
  import opened Json
  import opened Page
  import opened Extractors
  import opened Metrics
  import opened Images

  /** The dict returned when the visit failed. */
  const FAILURE: Record := map["success" := JBool(false)]

  /** `metrics.get(key, '0')` */
  function MetricOr(m: Metrics, key: string): (v: string)
    ensures key in m ==> v == m[key]
    ensures key !in m ==> v == "0"
  {
    if key in m then m[key] else "0"
  }

  /** The dict returned when the essential data was found. */
  function SuccessRecord(authorName: string, text: string, metrics: Metrics, images: seq<string>, createdAt: string): Record {
    map[
      "success" := JBool(true),
      "author_name" := JStr(authorName),
      "text" := JStr(text),
      "likes" := JStr(MetricOr(metrics, "likes")),
      "retweets" := JStr(MetricOr(metrics, "retweets")),
      "replies" := JStr(MetricOr(metrics, "replies")),
      "views" := JStr(MetricOr(metrics, "views")),
      "images" := StringArray(images),
      "created_at" := JStr(createdAt)
    ]
  }

  /** `result and result.get('success')`: the test the retry loop applies to the dict. */
  predicate Succeeded(result: Record) {
    result != map[] && !Falsy(Get(result, "success"))
  }

  /** What `_extract_tweet_data` returns after `driver.get(url)` left `load`. */
  function TweetDataOf(load: PageLoad): Record {
    match load
    case LoadFails => FAILURE
    case Loaded(page) =>
      if FindElements(page, TWEET_SELECTOR) == [] then FAILURE
      else
        var authorName := FirstMatchText(page, AUTHOR_SELECTORS);
        var text := FirstMatchText(page, TEXT_SELECTORS);
        if authorName == [] && text == [] then FAILURE
        else SuccessRecord(authorName, text, MetricsOf(page), ImagesOf(page), page.createdAt)
  }

  /** `_extract_tweet_data` */
  method ExtractTweetData(load: PageLoad) returns (result: Record)
    ensures result == TweetDataOf(load)
  {
    if load.LoadFails? {
      return FAILURE;
    }
    var page := load.page;
    if FindElements(page, TWEET_SELECTOR) == [] {
      return FAILURE;
    }
    var authorName := ExtractAuthorName(page);
    var text := ExtractTweetText(page);
    var metrics := ExtractMetrics(page);
    var images := ExtractImages(page);
    var createdAt := page.createdAt;
    if !(authorName != [] || text != []) {
      return FAILURE;
    }
    result := SuccessRecord(authorName, text, metrics, images, createdAt);
  }

  /** The dict a successful visit assembles passes the success test and holds its inputs. */
  lemma SuccessRecordFields(authorName: string, text: string, metrics: Metrics, images: seq<string>, createdAt: string)
    ensures var r := SuccessRecord(authorName, text, metrics, images, createdAt);
            Succeeded(r)
            && r["author_name"] == JStr(authorName) && r["text"] == JStr(text)
            && r["likes"] == JStr(MetricOr(metrics, "likes")) && r["retweets"] == JStr(MetricOr(metrics, "retweets"))
            && r["replies"] == JStr(MetricOr(metrics, "replies")) && r["views"] == JStr(MetricOr(metrics, "views"))
            && r["images"] == StringArray(images) && r["created_at"] == JStr(createdAt)
  {
  }

  /** The page loaded, the tweet article is there, and an author name or a text was found. */
  predicate EssentialDataFound(load: PageLoad) {
    load.Loaded? && FindElements(load.page, TWEET_SELECTOR) != []
    && (FirstMatchText(load.page, AUTHOR_SELECTORS) != [] || FirstMatchText(load.page, TEXT_SELECTORS) != [])
  }

  /** The essential-data check: a visit succeeds exactly when the page loaded, the tweet
      article is there, and an author name or a text was found; otherwise the dict is the
      bare failure flag. */
  lemma SucceedsIffEssentialData(load: PageLoad)
    ensures Succeeded(TweetDataOf(load)) <==> EssentialDataFound(load)
    ensures !Succeeded(TweetDataOf(load)) ==> TweetDataOf(load) == FAILURE
  {
    assert !Succeeded(FAILURE) by {
      assert Get(FAILURE, "success") == JBool(false);
    }
    if load.Loaded? && FindElements(load.page, TWEET_SELECTOR) != [] {
      var page := load.page;
      var authorName := FirstMatchText(page, AUTHOR_SELECTORS);
      var text := FirstMatchText(page, TEXT_SELECTORS);
      if authorName != [] || text != [] {
        SuccessRecordFields(authorName, text, MetricsOf(page), ImagesOf(page), page.createdAt);
      }
    }
  }

  /** A successful visit reports what the page shows: the extracted name and text, the four
      metrics as `_extract_metrics` left them, the images and the date. */
  lemma SuccessReportsPage(load: PageLoad)
    requires Succeeded(TweetDataOf(load))
    ensures load.Loaded?
    ensures var r := TweetDataOf(load);
            var page := load.page;
            r["author_name"] == JStr(FirstMatchText(page, AUTHOR_SELECTORS))
            && r["text"] == JStr(FirstMatchText(page, TEXT_SELECTORS))
            && r["likes"] == JStr(MetricsOf(page)["likes"])
            && r["retweets"] == JStr(MetricsOf(page)["retweets"])
            && r["replies"] == JStr(MetricsOf(page)["replies"])
            && r["views"] == JStr(MetricsOf(page)["views"])
            && r["images"] == StringArray(ImagesOf(page))
            && r["created_at"] == JStr(page.createdAt)
  {
    SucceedsIffEssentialData(load);
    var page := load.page;
    var m := MetricsOf(page);
    SuccessRecordFields(FirstMatchText(page, AUTHOR_SELECTORS), FirstMatchText(page, TEXT_SELECTORS), m, ImagesOf(page), page.createdAt);
    MetricKeysKept(page);
  }

  /** `_extract_metrics` always returns all four keys, so `metrics.get(key, '0')` never falls
      back to its default. */
  lemma MetricKeysKept(page: Page)
    ensures "likes" in MetricsOf(page) && "retweets" in MetricsOf(page)
    ensures "replies" in MetricsOf(page) && "views" in MetricsOf(page)
  {
    assert MetricsOf(page).Keys == RawMetrics(page).Keys;
    assert METRIC_KEYS[0] == "likes" && METRIC_KEYS[1] == "retweets" && METRIC_KEYS[2] == "replies" && METRIC_KEYS[3] == "views";
  }

  /** When the essential data is found, the visit's dict is the assembled success dict. */
  lemma SuccessIsAssembled(load: PageLoad)
    requires EssentialDataFound(load)
    ensures var page := load.page;
            TweetDataOf(load) == SuccessRecord(FirstMatchText(page, AUTHOR_SELECTORS), FirstMatchText(page, TEXT_SELECTORS),
                                               MetricsOf(page), ImagesOf(page), page.createdAt)
  {
  }
}
