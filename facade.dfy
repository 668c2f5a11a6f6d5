/**
 * The HTTP service in front of the extractor: the `/extract` and `/extract-batch` handlers.
 *
 * Both answer 400 to a body not sent as JSON and to a body without the URL(s) they need, and
 * 500 with the exception's text when something raises outside the per-URL loop.  `/extract`
 * wraps the extractor's dict with a top-level status that mirrors the dict's own; the batch
 * handler extracts every URL in turn, turns an exception for one URL into an error entry,
 * counts the entries that are not errors and reports error, partial success or success.
 */
module Service {
  import opened Text
  import opened Json
  import opened TweetUrl
  import opened Extraction

  /** What a handler finds in the request: a body not declared as JSON, a JSON body that does
      not decode (with the text of the error decoding raises), or the decoded value. */
  datatype Request = NotJson | Undecodable(error: string) | JsonBody(data: Json)

  /** The HTTP status code and the JSON object sent back. */
  datatype Response = Response(code: nat, body: Record)

  /** One call of `extract_tweet_data(url)`: the dict it returns, or the text of the exception
      it raises. */
  type Extractor = Json -> Result<Record, string>

  const NOT_JSON_MESSAGE := "Request must be JSON"
  const URL_REQUIRED_MESSAGE := "URL is required"
  const URLS_REQUIRED_MESSAGE := "URLs array is required"
  const NONE_EXTRACTED_MESSAGE := "Failed to extract data from any tweets"

  /** `jsonify({"status": "error", "message": message}), code` */
  function ErrorResponse(code: nat, message: string): Response {
    Response(code, map["status" := JStr("error"), "message" := JStr(message)])
  }

  /** `data.get(key, default)` on the decoded body: only a JSON object has `get`; on anything
      else the call raises an AttributeError. */
  function BodyGet(data: Json, key: string, default: Json): (r: Result<Json, string>)
    ensures data.JObj? <==> r.Ok?
    ensures data.JObj? ==> r.value == GetOr(data.fields, key, default)
  {
    if data.JObj? then Ok(GetOr(data.fields, key, default))
    else Err("'" + TypeName(data) + "' object has no attribute 'get'")
  }

  // ---------------------------------------------------------------------------
  // /extract

  /** The `/extract` handler: 400 unless the body is JSON with a truthy `url`, 500 for a body
      that cannot be decoded or is not an object and for an extractor that raises, and otherwise
      200 with the extractor's dict and its status mirrored. */
  function HandleExtract(request: Request, extract: Extractor): (response: Response)
    ensures response.code == 400 <==>
              request.NotJson? || (request.JsonBody? && request.data.JObj? && Falsy(UrlOf(request.data.fields)))
    ensures response.code == 200 <==>
              request.JsonBody? && request.data.JObj? && !Falsy(UrlOf(request.data.fields))
              && extract(UrlOf(request.data.fields)).Ok?
    ensures response.code in {200, 400, 500}
    ensures response.code == 200 ==>
              var tweetData := extract(UrlOf(request.data.fields)).value;
              "data" in response.body && response.body["data"] == JObj(tweetData)
              && "status" in response.body
              && (response.body["status"] == JStr("success") <==> NotError(tweetData))
    ensures response.code != 200 ==> "status" in response.body && response.body["status"] == JStr("error")
  {
    match request
    case NotJson => ErrorResponse(400, NOT_JSON_MESSAGE)
    case Undecodable(error) => ErrorResponse(500, error)
    case JsonBody(data) =>
      match BodyGet(data, "url", JNull)
      case Err(error) => ErrorResponse(500, error)
      case Ok(url) =>
        if Falsy(url) then ErrorResponse(400, URL_REQUIRED_MESSAGE)
        else
          match extract(url)
          case Err(error) => ErrorResponse(500, error)
          case Ok(tweetData) =>
            Response(200, map["status" := JStr(if NotError(tweetData) then "success" else "error"),
                              "data" := JObj(tweetData)])
  }

  /** The `url` a JSON object body carries, as `data.get('url')` reads it. */
  function UrlOf(fields: map<string, Json>): Json {
    GetOr(fields, "url", JNull)
  }

  /** `/extract` answers 400 exactly when the body is not JSON or is an object without a usable
      `url`, with the message that names which. */
  lemma ExtractRejects(request: Request, extract: Extractor)
    ensures var response := HandleExtract(request, extract);
            response.code == 400 <==> request.NotJson? || (request.JsonBody? && request.data.JObj? && Falsy(UrlOf(request.data.fields)))
    ensures var response := HandleExtract(request, extract);
            response.code == 400 ==>
              response.body == map["status" := JStr("error"),
                                   "message" := JStr(if request.NotJson? then NOT_JSON_MESSAGE else URL_REQUIRED_MESSAGE)]
  {
  }

  /** For an object body with a usable `url`, `/extract` passes that value to the extractor;
      a dict comes back as `data` under a status that is "success" exactly when the dict's
      own status is not "error", and an exception comes back as a 500 with its text. */
  lemma ExtractMirrorsStatus(fields: map<string, Json>, extract: Extractor)
    requires !Falsy(UrlOf(fields))
    ensures var response := HandleExtract(JsonBody(JObj(fields)), extract);
            match extract(UrlOf(fields))
            case Ok(tweetData) =>
              response.code == 200 && response.body.Keys == {"status", "data"}
              && response.body["data"] == JObj(tweetData)
              && (response.body["status"] == JStr("success") <==> NotError(tweetData))
              && (response.body["status"] == JStr("error") <==> !NotError(tweetData))
            case Err(error) =>
              response == ErrorResponse(500, error)
  {
  }

  /** A body that is JSON but not an object makes `data.get` raise: a 500, never a 400. */
  lemma NonObjectBodyIsServerError(data: Json, extract: Extractor)
    requires !data.JObj?
    ensures HandleExtract(JsonBody(data), extract).code == 500
    ensures HandleBatchSpec(JsonBody(data), extract).code == 500
  {
  }

  // ---------------------------------------------------------------------------
  // /extract-batch

  /** What one URL adds to `results`: the extractor's dict, or the error entry for the
      exception it raised. */
  function ResultFor(url: Json, outcome: Result<Record, string>): (r: Record)
    ensures outcome.Err? ==> !NotError(r) && Get(r, "url") == url && Get(r, "message") == JStr(outcome.error)
    ensures outcome.Ok? ==> r == outcome.value
  {
    match outcome
    case Ok(tweetData) => tweetData
    case Err(error) => map["url" := url, "status" := JStr("error"), "message" := JStr(error)]
  }

  /** The `results` list for `urls`, one entry per URL in input order. */
  function Results(urls: seq<Json>, extract: Extractor): (rs: seq<Record>)
    ensures |rs| == |urls|
    ensures forall i :: 0 <= i < |urls| ==> rs[i] == ResultFor(urls[i], extract(urls[i]))
  {
    if urls == [] then []
    else
      var init := urls[..|urls| - 1];
      var rs := Results(init, extract) + [ResultFor(urls[|urls| - 1], extract(urls[|urls| - 1]))];
      assert forall i :: 0 <= i < |init| ==> urls[i] == init[i];
      rs
  }

  /** `sum(1 for r in results if r.get("status") != "error")` */
  function SuccessCount(results: seq<Record>): (n: nat)
    ensures n <= |results|
  {
    if results == [] then 0
    else SuccessCount(results[..|results| - 1]) + (if NotError(results[|results| - 1]) then 1 else 0)
  }

  /** The overall status and message of a batch. */
  datatype Summary = Summary(status: string, message: string)

  /** The status chosen from the number of non-error results among `total`. */
  function Summarize(successCount: nat, total: nat): (r: Summary)
    ensures r.status == "error" <==> successCount == 0
    ensures r.status == "partial_success" <==> 0 < successCount < total
    ensures r.status == "success" <==> 0 < successCount && total <= successCount
    ensures r.status == "error" ==> r.message == NONE_EXTRACTED_MESSAGE
    ensures r.status == "partial_success" ==>
              r.message == "Successfully extracted data from " + NatToString(successCount) + " of " + NatToString(total) + " tweets"
    ensures r.status == "success" ==> r.message == "Successfully extracted data from all " + NatToString(total) + " tweets"
  {
    if successCount == 0 then Summary("error", NONE_EXTRACTED_MESSAGE)
    else if successCount < total then
      Summary("partial_success",
              "Successfully extracted data from " + NatToString(successCount) + " of " + NatToString(total) + " tweets")
    else Summary("success", "Successfully extracted data from all " + NatToString(total) + " tweets")
  }

  /** The results as the JSON array sent back. */
  function ResultsArray(results: seq<Record>): (v: Json)
    ensures v.JArr? && |v.items| == |results|
    ensures forall i :: 0 <= i < |results| ==> v.items[i] == JObj(results[i])
  {
    JArr(seq(|results|, i requires 0 <= i < |results| => JObj(results[i])))
  }

  /** `urls` is usable: `not urls or not isinstance(urls, list)` is false. */
  predicate UsableUrls(urls: Json) {
    !Falsy(urls) && urls.JArr?
  }

  /** The `urls` an object body carries, as `data.get('urls', [])` reads it. */
  function UrlsOf(fields: map<string, Json>): Json {
    GetOr(fields, "urls", JArr([]))
  }

  /** The response to a batch whose URL list passed validation. */
  function BatchAnswer(urls: seq<Json>, results: seq<Record>): Response {
    var summary := Summarize(SuccessCount(results), |urls|);
    Response(200, map["status" := JStr(summary.status), "message" := JStr(summary.message),
                      "results" := ResultsArray(results)])
  }

  /** What the `/extract-batch` handler answers. */
  function HandleBatchSpec(request: Request, extract: Extractor): Response {
    match request
    case NotJson => ErrorResponse(400, NOT_JSON_MESSAGE)
    case Undecodable(error) => ErrorResponse(500, error)
    case JsonBody(data) =>
      match BodyGet(data, "urls", JArr([]))
      case Err(error) => ErrorResponse(500, error)
      case Ok(urls) =>
        if !UsableUrls(urls) then ErrorResponse(400, URLS_REQUIRED_MESSAGE)
        else BatchAnswer(urls.items, Results(urls.items, extract))
  }

  /** The `/extract-batch` handler, with its loop over the URLs. */
  method HandleExtractBatch(request: Request, extract: Extractor) returns (response: Response)
    ensures response == HandleBatchSpec(request, extract)
  {
    if request.NotJson? {
      return ErrorResponse(400, NOT_JSON_MESSAGE);
    }
    if request.Undecodable? {
      return ErrorResponse(500, request.error);
    }
    var data := request.data;
    if !data.JObj? {
      return ErrorResponse(500, "'" + TypeName(data) + "' object has no attribute 'get'");
    }
    var urls := GetOr(data.fields, "urls", JArr([]));
    if Falsy(urls) || !urls.JArr? {
      return ErrorResponse(400, URLS_REQUIRED_MESSAGE);
    }
    var results := CollectResults(urls.items, extract);
    response := BatchAnswer(urls.items, results);
  }

  /** The per-URL loop: every URL is extracted, and an exception becomes an error entry
      without stopping the loop. */
  method CollectResults(urls: seq<Json>, extract: Extractor) returns (results: seq<Record>)
    ensures results == Results(urls, extract)
  {
    results := [];
    for k := 0 to |urls|
      invariant results == Results(urls[..k], extract)
    {
      var url := urls[k];
      var outcome := extract(url);
      assert urls[..k + 1][..k] == urls[..k];
      match outcome {
        case Ok(tweetData) =>
          results := results + [tweetData];
        case Err(error) =>
          results := results + [map["url" := url, "status" := JStr("error"), "message" := JStr(error)]];
      }
    }
    assert urls[..|urls|] == urls;
  }

  // ---------------------------------------------------------------------------
  // Properties of the batch handler

  /** The indices of the results whose status is not "error". */
  function SuccessIndices(results: seq<Record>): set<int> {
    set i | 0 <= i < |results| && NotError(results[i])
  }

  /** The count is the number of results whose status is not "error". */
  lemma {:induction false} SuccessCountCounts(results: seq<Record>)
    ensures SuccessCount(results) == |SuccessIndices(results)|
  {
    if results != [] {
      var n := |results| - 1;
      var init := results[..n];
      SuccessCountCounts(init);
      assert forall i :: 0 <= i < n ==> results[i] == init[i];
      if NotError(results[n]) {
        assert SuccessIndices(results) == SuccessIndices(init) + {n};
      } else {
        assert SuccessIndices(results) == SuccessIndices(init);
      }
    }
  }

  /** The count is zero exactly when every result is an error. */
  lemma {:induction false} NoSuccessIff(results: seq<Record>)
    ensures SuccessCount(results) == 0 <==> forall i :: 0 <= i < |results| ==> !NotError(results[i])
  {
    if results != [] {
      var init := results[..|results| - 1];
      NoSuccessIff(init);
      assert forall i :: 0 <= i < |init| ==> results[i] == init[i];
    }
  }

  /** The count is the number of results exactly when no result is an error. */
  lemma {:induction false} AllSuccessIff(results: seq<Record>)
    ensures SuccessCount(results) == |results| <==> forall i :: 0 <= i < |results| ==> NotError(results[i])
  {
    if results != [] {
      var init := results[..|results| - 1];
      AllSuccessIff(init);
      assert forall i :: 0 <= i < |init| ==> results[i] == init[i];
    }
  }

  /** `/extract-batch` answers 400 exactly when the body is not JSON or is an object whose
      `urls` is missing, empty or not a list, with the message that names which. */
  lemma BatchRejects(request: Request, extract: Extractor)
    ensures var response := HandleBatchSpec(request, extract);
            response.code == 400 <==> request.NotJson? || (request.JsonBody? && request.data.JObj? && !UsableUrls(UrlsOf(request.data.fields)))
    ensures var response := HandleBatchSpec(request, extract);
            response.code == 400 ==>
              response.body == map["status" := JStr("error"),
                                   "message" := JStr(if request.NotJson? then NOT_JSON_MESSAGE else URLS_REQUIRED_MESSAGE)]
  {
  }

  /** A usable batch is answered with 200 and one result per URL, in input order: the
      extractor's dict, or the error entry carrying the URL and the exception's text. */
  lemma BatchResultsAligned(fields: map<string, Json>, extract: Extractor)
    requires UsableUrls(UrlsOf(fields))
    ensures var response := HandleBatchSpec(JsonBody(JObj(fields)), extract);
            var urls := UrlsOf(fields).items;
            response.code == 200 && response.body.Keys == {"status", "message", "results"}
            && response.body["results"].JArr? && |response.body["results"].items| == |urls|
            && forall i :: 0 <= i < |urls| ==>
                 response.body["results"].items[i] == JObj(ResultFor(urls[i], extract(urls[i])))
  {
    var urls := UrlsOf(fields).items;
    var results := Results(urls, extract);
    assert HandleBatchSpec(JsonBody(JObj(fields)), extract) == BatchAnswer(urls, results);
  }

  /** The status of a usable batch: "error" when no result is free of an error status,
      "partial_success" when some but not all are, "success" when all are. */
  lemma BatchStatusIff(fields: map<string, Json>, extract: Extractor)
    requires UsableUrls(UrlsOf(fields))
    ensures var urls := UrlsOf(fields).items;
            var results := Results(urls, extract);
            var status := HandleBatchSpec(JsonBody(JObj(fields)), extract).body["status"];
            (status == JStr("error") <==> forall i :: 0 <= i < |results| ==> !NotError(results[i]))
            && (status == JStr("success") <==> forall i :: 0 <= i < |results| ==> NotError(results[i]))
            && (status == JStr("partial_success") <==>
                  (exists i :: 0 <= i < |results| && NotError(results[i]))
                  && (exists i :: 0 <= i < |results| && !NotError(results[i])))
  {
    var urls := UrlsOf(fields).items;
    var results := Results(urls, extract);
    assert HandleBatchSpec(JsonBody(JObj(fields)), extract) == BatchAnswer(urls, results);
    NoSuccessIff(results);
    AllSuccessIff(results);
  }

  /** The message of a usable batch states the count of non-error results and the number of
      URLs. */
  lemma BatchMessage(fields: map<string, Json>, extract: Extractor)
    requires UsableUrls(UrlsOf(fields))
    ensures var urls := UrlsOf(fields).items;
            var n := SuccessCount(Results(urls, extract));
            var message := HandleBatchSpec(JsonBody(JObj(fields)), extract).body["message"];
            0 <= n <= |urls|
            && (n == 0 ==> message == JStr(NONE_EXTRACTED_MESSAGE))
            && (0 < n < |urls| ==> message == JStr("Successfully extracted data from " + NatToString(n) + " of " + NatToString(|urls|) + " tweets"))
            && (n == |urls| ==> message == JStr("Successfully extracted data from all " + NatToString(|urls|) + " tweets"))
  {
    var urls := UrlsOf(fields).items;
    assert HandleBatchSpec(JsonBody(JObj(fields)), extract) == BatchAnswer(urls, Results(urls, extract));
  }

  /** Two URLs, one extracted and one that raised: a partial success, "1 of 2". */
  lemma PartialBatchExample(tweetData: Record, error: string, extract: Extractor)
    requires NotError(tweetData)
    requires extract(JStr("a")) == Ok(tweetData) && extract(JStr("b")) == Err(error)
    ensures var response := HandleBatchSpec(JsonBody(JObj(map["urls" := JArr([JStr("a"), JStr("b")])])), extract);
            response.body["status"] == JStr("partial_success")
            && response.body["message"] == JStr("Successfully extracted data from " + "1" + " of " + "2" + " tweets")
  {
    var urls := [JStr("a"), JStr("b")];
    var fields := map["urls" := JArr(urls)];
    assert UrlsOf(fields) == JArr(urls);
    var results := Results(urls, extract);
    assert NotError(results[0]) && !NotError(results[1]);
    PairCount(results);
    BatchMessage(fields, extract);
    BatchStatusIff(fields, extract);
    assert NatToString(1) == "1" && NatToString(2) == "2";
  }

  /** The count over two results. */
  lemma PairCount(results: seq<Record>)
    requires |results| == 2
    ensures SuccessCount(results) == (if NotError(results[0]) then 1 else 0) + (if NotError(results[1]) then 1 else 0)
  {
    assert results[..1][..0] == [];
  }

  // ---------------------------------------------------------------------------
  // The service over the modelled extractor

  /** `extract` is `extract_tweet_data`: a string URL is handled by `extract_tweet` with a
      clock reading and a browser of its own, and any other value makes the URL check raise
      (`re.match` needs a string). */
  ghost predicate RunsExtractTweet(extract: Extractor, now: string -> string, browser: string -> nat -> AttemptOutcome) {
    (forall url: string :: extract(JStr(url)) == Ok(ExtractTweetSpec(url, now(url), browser(url)).record))
    && (forall v: Json :: !v.JStr? ==> extract(v).Err?)
  }

  /** In a batch run against the modelled extractor, a result counts as extracted exactly when
      its URL is a string, a valid tweet URL, and one of its three attempts found the tweet. */
  lemma BatchCountsFoundTweets(urls: seq<Json>, extract: Extractor, now: string -> string,
                               browser: string -> nat -> AttemptOutcome, i: nat)
    requires RunsExtractTweet(extract, now, browser)
    requires i < |urls|
    ensures NotError(Results(urls, extract)[i])
            <==> urls[i].JStr? && IsValidTwitterUrl(urls[i].s)
                 && exists k :: 0 <= k <= MAX_RETRIES && AttemptSucceeds(browser(urls[i].s)(k))
  {
    var url := urls[i];
    if url.JStr? {
      assert extract(JStr(url.s)) == Ok(ExtractTweetSpec(url.s, now(url.s), browser(url.s)).record);
      ReportsSuccessIff(url.s, now(url.s), browser(url.s));
    } else {
      assert extract(url).Err?;
    }
  }
}
