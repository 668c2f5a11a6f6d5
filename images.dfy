/**
 * `_extract_images`: the tweet's image URLs.
 *
 * Every image element whose `src` is non-empty, mentions `pbs.twimg.com` and does not mention
 * `profile` contributes its `src` with the query string cut off by
 * `re.sub(r'\?.*$', '', src)`; a URL already collected is not added again.
 */
module Images {
  import opened Text
  import opened Json
  import opened Page

  // ---------------------------------------------------------------------------
  // re.sub(r'\?.*$', '', s)

  /** `s` without one final newline: the text `.*` can run through before `$` matches. */
  function Body(s: string): (b: string)
    ensures b == s || (s == b + "\n")
  {
    if s != [] && s[|s| - 1] == '\n' then s[..|s| - 1] else s
  }

  /** Where the last line of `b` starts: just after its last newline, or 0. */
  function LastLineStart(b: string): (n: nat)
    ensures n <= |b|
    ensures forall j :: n <= j < |b| ==> b[j] != '\n'
    ensures n > 0 ==> b[n - 1] == '\n'
  {
    if b == [] || b[|b| - 1] == '\n' then |b| else LastLineStart(b[..|b| - 1])
  }

  /** The first index at or after `from` that holds `c`. */
  function IndexFrom(s: string, c: char, from: nat): (r: Option<nat>)
    requires from <= |s|
    ensures r.Some? ==> from <= r.value < |s| && s[r.value] == c
    ensures forall j :: from <= j < |s| && (r.None? || j < r.value) ==> s[j] != c
    decreases |s| - from
  {
    if from == |s| then None
    else if s[from] == c then Some(from)
    else IndexFrom(s, c, from + 1)
  }

  /** Where the pattern's one match starts, if it matches at all: the first '?' on the last line. */
  function QueryStart(s: string): Option<nat> {
    var b := Body(s);
    IndexFrom(b, '?', LastLineStart(b))
  }

  /** `re.sub(r'\?.*$', '', s)`: `s` itself when the pattern matches nowhere, and otherwise `s`
      with the leftmost, longest match cut out. */
  function StripQuery(s: string): (r: string)
    ensures (forall i, e :: !QueryMatch(s, i, e)) ==> r == s
    ensures forall i, e :: LeftmostLongest(s, i, e) ==> r == s[..i] + s[e..]
  {
    QueryStartIsLeftmostLongest(s);
    match QueryStart(s)
    case None => s
    case Some(q) => s[..q] + s[|Body(s)|..]
  }

  /** `s[i..e]` is the match `re.sub` removes: no match starts earlier, none at `i` is longer. */
  ghost predicate LeftmostLongest(s: string, i: int, e: int) {
    QueryMatch(s, i, e) && forall i', e' :: QueryMatch(s, i', e') ==> i <= i' && (i' == i ==> e' <= e)
  }

  /** The pattern `\?.*$` matches `s[i..e]`: a '?', then no newline, then the end of the text
      or a final newline. */
  predicate QueryMatch(s: string, i: int, e: int) {
    0 <= i < e <= |s| && s[i] == '?'
    && (forall j :: i < j < e ==> s[j] != '\n')
    && (e == |s| || (e == |s| - 1 && s[e] == '\n'))
  }

  /** `QueryStart` finds the match `re.sub` removes: the leftmost one, and at that start the
      longest one (`.*` is greedy). */
  lemma QueryStartIsLeftmostLongest(s: string)
    ensures QueryStart(s).Some? ==> QueryMatch(s, QueryStart(s).value, |Body(s)|)
    ensures forall i, e :: QueryMatch(s, i, e) ==>
              QueryStart(s).Some? && QueryStart(s).value <= i && (QueryStart(s).value == i ==> e <= |Body(s)|)
  {
    var b := Body(s);
    var n := LastLineStart(b);
    forall i, e | QueryMatch(s, i, e)
      ensures QueryStart(s).Some? && QueryStart(s).value <= i && (QueryStart(s).value == i ==> e <= |b|)
    {
      assert i < |b|;
    }
  }

  /** For a URL without line breaks, the result is the text before the first '?'. */
  lemma StripQuerySingleLine(s: string)
    requires forall j :: 0 <= j < |s| ==> s[j] != '\n'
    ensures var r := StripQuery(s);
            r <= s && (forall j :: 0 <= j < |r| ==> r[j] != '?') && (|r| < |s| ==> s[|r|] == '?')
  {
    assert Body(s) == s;
  }

  // ---------------------------------------------------------------------------
  // Collecting the URLs

  /** The filter: `src and 'profile' not in src and 'pbs.twimg.com' in src`. */
  predicate KeepsSource(src: Option<string>) {
    src.Some? && src.value != [] && !Contains(src.value, "profile") && Contains(src.value, "pbs.twimg.com")
  }

  /** The URL an image element contributes, if its `src` passes the filter. */
  function SourceUrl(e: Element): Option<string> {
    if KeepsSource(e.src) then Some(StripQuery(e.src.value)) else None
  }

  /** The URLs of the kept elements, in document order, duplicates included. */
  function Candidates(elements: seq<Element>): (r: seq<string>)
    ensures |r| <= |elements|
  {
    if elements == [] then []
    else
      var last := elements[|elements| - 1];
      Candidates(elements[..|elements| - 1]) + (if SourceUrl(last).Some? then [SourceUrl(last).value] else [])
  }

  /** `if x not in images: images.append(x)` over `xs`. */
  function Dedupe(xs: seq<string>): (r: seq<string>)
    ensures |r| <= |xs|
    ensures forall x :: x in r <==> x in xs
    ensures Distinct(r)
  {
    if xs == [] then []
    else
      var d := Dedupe(xs[..|xs| - 1]);
      var x := xs[|xs| - 1];
      if x in d then d else d + [x]
  }

  /** What `_extract_images` returns for a page. */
  function ImagesOf(page: Page): seq<string> {
    Dedupe(Candidates(FindElements(page, IMAGE_SELECTOR)))
  }

  /** `_extract_images` */
  method ExtractImages(page: Page) returns (images: seq<string>)
    ensures images == ImagesOf(page)
  {
    images := [];
    var imageElements := FindElements(page, IMAGE_SELECTOR);
    for k := 0 to |imageElements|
      invariant images == Dedupe(Candidates(imageElements[..k]))
    {
      var src := imageElements[k].src;
      CandidatesSnoc(imageElements, k);
      assert SourceUrl(imageElements[k]) == if KeepsSource(src) then Some(StripQuery(src.value)) else None;
      if KeepsSource(src) {
        var baseUrl := StripQuery(src.value);
        DedupeSnoc(Candidates(imageElements[..k]), baseUrl);
        if baseUrl !in images {
          images := images + [baseUrl];
        }
      } else {
        assert Candidates(imageElements[..k + 1]) == Candidates(imageElements[..k]);
      }
    }
    assert imageElements[..|imageElements|] == imageElements;
  }

  /** One more element: its URL, if it has one, follows the earlier candidates. */
  lemma CandidatesSnoc(elements: seq<Element>, k: nat)
    requires k < |elements|
    ensures Candidates(elements[..k + 1])
            == Candidates(elements[..k]) + (if SourceUrl(elements[k]).Some? then [SourceUrl(elements[k]).value] else [])
  {
    assert elements[..k + 1][..k] == elements[..k];
  }

  // ---------------------------------------------------------------------------
  // Properties of the deduplication

  /** Reference reading: the entries of `xs` that do not occur earlier in `xs`, in order. */
  function FirstOccurrences(xs: seq<string>): seq<string> {
    if xs == [] then []
    else
      var init := xs[..|xs| - 1];
      FirstOccurrences(init) + (if xs[|xs| - 1] in init then [] else [xs[|xs| - 1]])
  }

  /** One more value: appended when it is new, dropped otherwise. */
  lemma DedupeSnoc(xs: seq<string>, x: string)
    ensures Dedupe(xs + [x]) == if x in Dedupe(xs) then Dedupe(xs) else Dedupe(xs) + [x]
  {
    assert (xs + [x])[..|xs|] == xs;
  }

  /** The output keeps each value once, at its first occurrence, in input order. */
  lemma {:induction false} DedupeIsFirstOccurrences(xs: seq<string>)
    ensures Dedupe(xs) == FirstOccurrences(xs)
  {
    if xs != [] {
      var init := xs[..|xs| - 1];
      DedupeIsFirstOccurrences(init);
    }
  }

  /** No value occurs twice in `xs`. */
  predicate Distinct(xs: seq<string>) {
    forall i, j :: 0 <= i < j < |xs| ==> xs[i] != xs[j]
  }

  /** Deduplicating twice changes nothing. */
  lemma {:induction false} DedupeIdempotent(xs: seq<string>)
    ensures Dedupe(Dedupe(xs)) == Dedupe(xs)
  {
    DistinctUnchanged(Dedupe(xs));
  }

  /** A list without duplicates is its own deduplication. */
  lemma {:induction false} DistinctUnchanged(xs: seq<string>)
    requires Distinct(xs)
    ensures Dedupe(xs) == xs
  {
    if xs != [] {
      var init := xs[..|xs| - 1];
      DistinctUnchanged(init);
      assert xs[|xs| - 1] !in init;
    }
  }

  // ---------------------------------------------------------------------------
  // Where the URLs come from

  /** A candidate is the URL of a kept element, and every kept element gives one. */
  lemma {:induction false} CandidatesFromKeptSources(elements: seq<Element>)
    ensures forall x :: x in Candidates(elements) <==>
              exists i :: 0 <= i < |elements| && SourceUrl(elements[i]) == Some(x)
  {
    if elements != [] {
      var init := elements[..|elements| - 1];
      var last := elements[|elements| - 1];
      CandidatesFromKeptSources(init);
      assert forall i :: 0 <= i < |init| ==> elements[i] == init[i];
      assert elements == init + [last];
    }
  }

  /** Every URL returned is the stripped `src` of a kept image, every kept image's stripped
      `src` is returned, and none is returned twice. */
  lemma ImagesFromKeptSources(page: Page)
    ensures var elements := FindElements(page, IMAGE_SELECTOR);
            forall x :: x in ImagesOf(page) <==>
              exists i :: 0 <= i < |elements| && KeepsSource(elements[i].src) && x == StripQuery(elements[i].src.value)
    ensures Distinct(ImagesOf(page))
  {
    var elements := FindElements(page, IMAGE_SELECTOR);
    CandidatesFromKeptSources(elements);
  }

  /** A one-line URL with a query string loses everything from its first '?' on. */
  lemma StripQueryOfQuery(url: string, query: string)
    requires forall j :: 0 <= j < |url| ==> url[j] != '\n' && url[j] != '?'
    requires forall j :: 0 <= j < |query| ==> query[j] != '\n'
    ensures StripQuery(url + "?" + query) == url
  {
    var s := url + "?" + query;
    assert forall j :: 0 <= j < |s| ==> s[j] != '\n' by {
      forall j | 0 <= j < |s| ensures s[j] != '\n' {
        if j < |url| { assert s[j] == url[j]; } else if j > |url| { assert s[j] == query[j - |url| - 1]; }
      }
    }
    StripQuerySingleLine(s);
    assert s[..|url|] == url && s[|url|] == '?';
  }

  /** A media URL loses its format parameters; the same image at two sizes is reported once. */
  lemma SizesCollapseExample()
    ensures StripQuery("https://pbs.twimg.com/m.jpg?name=small") == "https://pbs.twimg.com/m.jpg"
    ensures Dedupe(["https://pbs.twimg.com/m.jpg", "https://pbs.twimg.com/m.jpg"]) == ["https://pbs.twimg.com/m.jpg"]
  {
    QueryRemoved("https://pbs.twimg.com/m.jpg", "name=small", "https://pbs.twimg.com/m.jpg?name=small");
    RepeatCollapses("https://pbs.twimg.com/m.jpg");
  }

  lemma QueryRemoved(url: string, query: string, src: string)
    requires url == "https://pbs.twimg.com/m.jpg" && query == "name=small"
    requires src == "https://pbs.twimg.com/m.jpg?name=small"
    ensures StripQuery(src) == url
  {
    StripQueryOfQuery(url, query);
    assert url + "?" + query == src;
  }

  lemma RepeatCollapses(url: string)
    ensures Dedupe([url, url]) == [url]
  {
    assert [url][..0] == [] && Dedupe([url]) == [url];
    assert [url, url][..1] == [url];
  }
}
