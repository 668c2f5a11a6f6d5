/**
 * `_extract_metrics`: the four engagement counts of a tweet.
 *
 * Every count starts at '0'.  Replies, retweets and likes are overwritten by the stripped text
 * of the first span following the first matching button; views by the stripped text of the
 * first matching link.  Then every count is normalised, key by key in the dict's order; a
 * count the normaliser cannot read raises, the exception is swallowed, and the dict is
 * returned as it stands, the keys before the failing one normalised and the rest raw.
 */
module Metrics {
  import opened Text
  import opened Json
  import opened Page
  import opened CountNormalizer

  /** The metrics dict: metric name to count text. */
  type Metrics = map<string, string>

  /** The keys in the dict's insertion order, which is the order they are normalised in. */
  const METRIC_KEYS := ["likes", "retweets", "replies", "views"]

  /** The dict `_extract_metrics` starts from. */
  const DEFAULT_METRICS: Metrics := map["likes" := "0", "retweets" := "0", "replies" := "0", "views" := "0"]

  predicate HasMetricKeys(m: Metrics) {
    forall k :: 0 <= k < |METRIC_KEYS| ==> METRIC_KEYS[k] in m
  }

  /** The stripped text of the first span after the first element `selector` matches, if both exist. */
  function ButtonCount(page: Page, selector: Selector): Option<string> {
    var buttons := FindElements(page, selector);
    if buttons != [] && buttons[0].followingSpans != [] then Some(Strip(buttons[0].followingSpans[0]))
    else None
  }

  /** The stripped text of the first views link, if there is one. */
  function ViewCount(page: Page): Option<string> {
    var links := FindElements(page, VIEW_SELECTOR);
    if links != [] then Some(Strip(links[0].text)) else None
  }

  /** `m[key] = v` when a value was found; `m` otherwise. */
  function SetFound(m: Metrics, key: string, found: Option<string>): (r: Metrics)
    ensures r.Keys == m.Keys + {key} || (found.None? && r == m)
  {
    match found
    case None => m
    case Some(v) => m[key := v]
  }

  /** The counts read from the page, before normalisation. */
  function RawMetrics(page: Page): (m: Metrics)
    ensures HasMetricKeys(m) && m.Keys == DEFAULT_METRICS.Keys
  {
    var m := SetFound(DEFAULT_METRICS, "replies", ButtonCount(page, REPLY_SELECTOR));
    var m := SetFound(m, "retweets", ButtonCount(page, RETWEET_SELECTOR));
    var m := SetFound(m, "likes", ButtonCount(page, LIKE_SELECTOR));
    SetFound(m, "views", ViewCount(page))
  }

  /** The normalisation loop from key index `k` on: stops at the first count that does not parse. */
  function NormalizeFrom(m: Metrics, k: nat): (r: Metrics)
    requires k <= |METRIC_KEYS| && HasMetricKeys(m)
    ensures r.Keys == m.Keys
    decreases |METRIC_KEYS| - k
  {
    if k == |METRIC_KEYS| then m
    else
      var key := METRIC_KEYS[k];
      match NormalizeCount(m[key])
      case Err(_) => m
      case Ok(v) => NormalizeFrom(m[key := v], k + 1)
  }

  /** What `_extract_metrics` returns for a page. */
  function MetricsOf(page: Page): Metrics {
    NormalizeFrom(RawMetrics(page), 0)
  }

  /** `_extract_metrics` */
  method ExtractMetrics(page: Page) returns (metrics: Metrics)
    ensures metrics == MetricsOf(page)
  {
    metrics := ReadMetrics(page);
    metrics := NormalizeMetrics(metrics);
  }

  /** The first half of `_extract_metrics`: the defaults, overwritten by what the page shows. */
  method ReadMetrics(page: Page) returns (metrics: Metrics)
    ensures metrics == RawMetrics(page)
  {
    metrics := map["likes" := "0", "retweets" := "0", "replies" := "0", "views" := "0"];
    metrics := ReadButtonCount(page, REPLY_SELECTOR, metrics, "replies");
    metrics := ReadButtonCount(page, RETWEET_SELECTOR, metrics, "retweets");
    metrics := ReadButtonCount(page, LIKE_SELECTOR, metrics, "likes");
    var viewLinks := FindElements(page, VIEW_SELECTOR);
    if viewLinks != [] {
      metrics := metrics["views" := Strip(viewLinks[0].text)];
    }
  }

  /** One of the three button blocks: the first button's first following span, stripped,
      under `key`, when both exist. */
  method ReadButtonCount(page: Page, selector: Selector, metrics: Metrics, key: string) returns (updated: Metrics)
    ensures updated == SetFound(metrics, key, ButtonCount(page, selector))
  {
    updated := metrics;
    var buttons := FindElements(page, selector);
    if buttons != [] {
      var spans := buttons[0].followingSpans;
      if spans != [] {
        updated := metrics[key := Strip(spans[0])];
      }
    }
  }

  /** The second half of `_extract_metrics`: the normalisation loop and its swallowed exception. */
  method NormalizeMetrics(raw: Metrics) returns (metrics: Metrics)
    requires HasMetricKeys(raw)
    ensures metrics == NormalizeFrom(raw, 0)
  {
    metrics := raw;
    var k := 0;
    while k < |METRIC_KEYS|
      invariant k <= |METRIC_KEYS| && HasMetricKeys(metrics)
      invariant NormalizeFrom(metrics, k) == NormalizeFrom(raw, 0)
    {
      var key := METRIC_KEYS[k];
      var normalized := NormalizeCount(metrics[key]);
      if normalized.Err? {
        return;
      }
      metrics := metrics[key := normalized.value];
      k := k + 1;
    }
  }

  // ---------------------------------------------------------------------------
  // Properties

  /** The index of the first count, in normalisation order, that the normaliser rejects;
      4 when it accepts them all. */
  function FirstFailure(raw: Metrics, from: nat): (f: nat)
    requires from <= |METRIC_KEYS| && HasMetricKeys(raw)
    ensures from <= f <= |METRIC_KEYS|
    ensures forall k :: from <= k < f ==> NormalizeCount(raw[METRIC_KEYS[k]]).Ok?
    ensures f < |METRIC_KEYS| ==> NormalizeCount(raw[METRIC_KEYS[f]]).Err?
    decreases |METRIC_KEYS| - from
  {
    if from == |METRIC_KEYS| || NormalizeCount(raw[METRIC_KEYS[from]]).Err? then from
    else FirstFailure(raw, from + 1)
  }

  /** What the loop has done after `j` keys: those normalised, the rest still raw. */
  predicate NormalizedBefore(raw: Metrics, m: Metrics, j: nat)
    requires j <= |METRIC_KEYS| && HasMetricKeys(raw) && HasMetricKeys(m)
  {
    m.Keys == raw.Keys
    && (forall k :: 0 <= k < j ==> NormalizeCount(raw[METRIC_KEYS[k]]) == Ok(m[METRIC_KEYS[k]]))
    && (forall k :: j <= k < |METRIC_KEYS| ==> m[METRIC_KEYS[k]] == raw[METRIC_KEYS[k]])
  }

  /** The loop from key `j` on ends with the keys before the first failure normalised and the
      others raw. */
  lemma {:induction false} NormalizeFromStopsAtFailure(raw: Metrics, m: Metrics, j: nat)
    requires j <= |METRIC_KEYS| && HasMetricKeys(raw) && HasMetricKeys(m)
    requires NormalizedBefore(raw, m, j) && FirstFailure(raw, 0) >= j
    ensures NormalizedBefore(raw, NormalizeFrom(m, j), FirstFailure(raw, 0))
    decreases |METRIC_KEYS| - j
  {
    var f := FirstFailure(raw, 0);
    if j < |METRIC_KEYS| {
      var key := METRIC_KEYS[j];
      if j < f {
        var v := NormalizeCount(m[key]).value;
        var m' := m[key := v];
        assert NormalizedBefore(raw, m', j + 1);
        NormalizeFromStopsAtFailure(raw, m', j + 1);
      }
    }
  }

  /** `_extract_metrics` returns every count before the first unreadable one normalised and
      every count from it on exactly as the page showed it. */
  lemma MetricsPartlyNormalized(page: Page)
    ensures var raw := RawMetrics(page);
            NormalizedBefore(raw, MetricsOf(page), FirstFailure(raw, 0))
  {
    var raw := RawMetrics(page);
    NormalizeFromStopsAtFailure(raw, raw, 0);
  }

  /** When every count is readable, every returned count is free of ',', 'K', 'M' and 'B'. */
  lemma AllReadableAllPlain(page: Page)
    requires FirstFailure(RawMetrics(page), 0) == |METRIC_KEYS|
    ensures forall k :: 0 <= k < |METRIC_KEYS| ==> Plain(MetricsOf(page)[METRIC_KEYS[k]])
  {
    MetricsPartlyNormalized(page);
  }

  /** A count whose button (or link) is missing is reported as "0", whether or not the
      normalisation loop got that far. */
  lemma MissingCountIsZero(page: Page)
    ensures ButtonCount(page, LIKE_SELECTOR).None? ==> MetricsOf(page)["likes"] == "0"
    ensures ButtonCount(page, RETWEET_SELECTOR).None? ==> MetricsOf(page)["retweets"] == "0"
    ensures ButtonCount(page, REPLY_SELECTOR).None? ==> MetricsOf(page)["replies"] == "0"
    ensures ViewCount(page).None? ==> MetricsOf(page)["views"] == "0"
  {
    MetricsPartlyNormalized(page);
    var raw := RawMetrics(page);
    assert forall k :: 0 <= k < |METRIC_KEYS| && raw[METRIC_KEYS[k]] == "0" ==> MetricsOf(page)[METRIC_KEYS[k]] == "0";
  }
}
