/**
 * Tweet URL validation and the `@handle` derived from a URL.
 *
 * The validator is `re.match(r'https?://(www\.)?(twitter|x)\.com/[^/]+/status/\d+', url)`:
 * anchored at the start only, so anything may follow the status id.  The handle is the
 * group of `re.search(r'(?:twitter|x)\.com/([^/]+)', url)`, which is not anchored at all.
 */
module TweetUrl {
  import opened Text
  import opened Json

  datatype Host = Twitter | X

  function HostName(h: Host): string {
    match h
    case Twitter => "twitter"
    case X => "x"
  }

  /** `twitter.com/` or `x.com/` */
  function HostPrefix(h: Host): string {
    HostName(h) + ".com/"
  }

  function Scheme(secure: bool): string {
    if secure then "https://" else "http://"
  }

  function Subdomain(www: bool): string {
    if www then "www." else ""
  }

  /** The choices one match of the validator's pattern makes. */
  datatype UrlParts = UrlParts(secure: bool, www: bool, host: Host, handle: string, statusId: string)

  /** `[^/]+` for the handle, `\d+` for the status id. */
  predicate WellFormed(p: UrlParts) {
    p.handle != [] && '/' !in p.handle && p.statusId != [] && AllDigits(p.statusId)
  }

  /** The text the path part of a match consumes: `<handle>/status/<id>`. */
  function PathText(p: UrlParts): string {
    p.handle + ("/status/" + p.statusId)
  }

  /** From the host on. */
  function HostText(p: UrlParts): string {
    HostPrefix(p.host) + PathText(p)
  }

  /** From the subdomain on. */
  function SiteText(p: UrlParts): string {
    Subdomain(p.www) + HostText(p)
  }

  /** The text a match with these choices consumes. */
  function Render(p: UrlParts): string {
    Scheme(p.secure) + SiteText(p)
  }

  /** Reference reading of the validator's pattern: some instance of it is a prefix of `url`. */
  ghost predicate MatchesStatusPattern(url: string) {
    exists p :: WellFormed(p) && Render(p) <= url
  }

  /** Length of the longest slash-free prefix of `s`: what the greedy `[^/]+` consumes. */
  function SegmentLength(s: string): (n: nat)
    ensures n <= |s|
    ensures forall i :: 0 <= i < n ==> s[i] != '/'
    ensures n < |s| ==> s[n] == '/'
  {
    if s == [] || s[0] == '/' then 0 else 1 + SegmentLength(s[1..])
  }

  lemma SegmentLengthUnique(s: string, n: nat)
    requires n < |s| && s[n] == '/'
    requires forall i :: 0 <= i < n ==> s[i] != '/'
    ensures SegmentLength(s) == n
  {
  }

  /** `x + y` begins `s` exactly when `x` does and `y` begins what follows it. */
  lemma PrefixConcat(x: string, y: string, s: string)
    ensures x + y <= s <==> x <= s && y <= s[|x|..]
  {
    if x <= s && y <= s[|x|..] {
      assert (x + y) == s[..|x| + |y|] by {
        assert s[..|x| + |y|] == s[..|x|] + s[|x|..][..|y|];
      }
    }
    if x + y <= s {
      assert s[..|x|] == (x + y)[..|x|];
      assert s[|x|..][..|y|] == (x + y)[|x|..];
    }
  }

  /** `[^/]+/status/\d+` at the start of `s`, completing the choices already made. */
  function ParsePath(secure: bool, www: bool, host: Host, s: string): (r: Option<UrlParts>)
    ensures r.Some? ==> r.value.secure == secure && r.value.www == www && r.value.host == host
    ensures r.Some? ==> WellFormed(r.value) && PathText(r.value) <= s
  {
    var n := SegmentLength(s);
    if n == 0 || !("/status/" <= s[n..]) then None
    else
      var atId := s[n + 8..];
      var m := DigitRunLength(atId);
      if m == 0 then None
      else
        var p := UrlParts(secure, www, host, s[..n], atId[..m]);
        assert '/' !in p.handle by {
          assert forall i :: 0 <= i < n ==> p.handle[i] == s[i];
        }
        PrefixConcat("/status/", p.statusId, s[n..]);
        PrefixConcat(p.handle, "/status/" + p.statusId, s);
        Some(p)
  }

  /** `(twitter|x)\.com/` and the path, at the start of `s`. */
  function ParseHost(secure: bool, www: bool, s: string): (r: Option<UrlParts>)
    ensures r.Some? ==> r.value.secure == secure && r.value.www == www
    ensures r.Some? ==> WellFormed(r.value) && HostText(r.value) <= s
  {
    var host := if HostPrefix(Twitter) <= s then Some(Twitter)
                else if HostPrefix(X) <= s then Some(X)
                else None;
    if host.None? then None
    else
      var r := ParsePath(secure, www, host.value, s[|HostPrefix(host.value)|..]);
      if r.Some? then PrefixConcat(HostPrefix(host.value), PathText(r.value), s); r else r
  }

  /** `(www\.)?`, the host and the path, at the start of `s`. */
  function ParseSite(secure: bool, s: string): (r: Option<UrlParts>)
    ensures r.Some? ==> r.value.secure == secure
    ensures r.Some? ==> WellFormed(r.value) && SiteText(r.value) <= s
  {
    var www := Subdomain(true) <= s;
    var r := ParseHost(secure, www, s[|Subdomain(www)|..]);
    if r.Some? then PrefixConcat(Subdomain(www), HostText(r.value), s); r else r
  }

  /** Runs the validator's pattern from the start of `url`: the choices it makes, if it matches. */
  function ParseStatusUrl(url: string): (r: Option<UrlParts>)
    ensures r.Some? ==> WellFormed(r.value) && Render(r.value) <= url
  {
    var secure := Scheme(true) <= url;
    if !secure && !(Scheme(false) <= url) then None
    else
      var r := ParseSite(secure, url[|Scheme(secure)|..]);
      if r.Some? then PrefixConcat(Scheme(secure), SiteText(r.value), url); r else r
  }

  /** `_is_valid_twitter_url`: true exactly when some instance of the pattern is a prefix of
      `url`. */
  function IsValidTwitterUrl(url: string): (valid: bool)
    ensures valid <==> MatchesStatusPattern(url)
  {
    ParseComplete(url);
    ParseStatusUrl(url).Some?
  }

  /** Two parses agree on every choice, except that the greedy `\d+` may take more digits. */
  predicate Agrees(q: UrlParts, p: UrlParts) {
    q.secure == p.secure && q.www == p.www && q.host == p.host && q.handle == p.handle
    && p.statusId <= q.statusId
  }

  lemma PathComplete(p: UrlParts, s: string)
    requires WellFormed(p) && PathText(p) <= s
    ensures ParsePath(p.secure, p.www, p.host, s).Some?
    ensures Agrees(ParsePath(p.secure, p.www, p.host, s).value, p)
  {
    var n := |p.handle|;
    PrefixConcat(p.handle, "/status/" + p.statusId, s);
    PrefixConcat("/status/", p.statusId, s[n..]);
    assert forall i :: 0 <= i < n ==> s[i] == p.handle[i];
    assert s[n] == '/';
    SegmentLengthUnique(s, n);
    var atId := s[n + 8..];
    assert forall i :: 0 <= i < |p.statusId| ==> atId[i] == p.statusId[i];
    var m := DigitRunLength(atId);
    assert m >= |p.statusId|;
    assert atId[..m][..|p.statusId|] == p.statusId;
  }

  lemma HostComplete(p: UrlParts, s: string)
    requires WellFormed(p) && HostText(p) <= s
    ensures ParseHost(p.secure, p.www, s).Some?
    ensures Agrees(ParseHost(p.secure, p.www, s).value, p)
  {
    var H := HostPrefix(p.host);
    PrefixConcat(H, PathText(p), s);
    assert s[0] == H[0];
    assert (HostPrefix(Twitter) <= s) == (p.host == Twitter);
    PathComplete(p, s[|H|..]);
  }

  lemma SiteComplete(p: UrlParts, s: string)
    requires WellFormed(p) && SiteText(p) <= s
    ensures ParseSite(p.secure, s).Some?
    ensures Agrees(ParseSite(p.secure, s).value, p)
  {
    var W := Subdomain(p.www);
    PrefixConcat(W, HostText(p), s);
    PrefixConcat(HostPrefix(p.host), PathText(p), s[|W|..]);
    // a host starts with 't' or 'x', never with the 'w' of "www."
    assert s[|W|..][0] == HostPrefix(p.host)[0];
    assert (Subdomain(true) <= s) == p.www;
    HostComplete(p, s[|W|..]);
  }

  /** Any instance of the pattern at the start of `url` makes the parser succeed with the same choices. */
  lemma PatternImpliesParse(url: string, p: UrlParts)
    requires WellFormed(p) && Render(p) <= url
    ensures ParseStatusUrl(url).Some?
    ensures Agrees(ParseStatusUrl(url).value, p)
  {
    var S := Scheme(p.secure);
    PrefixConcat(S, SiteText(p), url);
    // "http://" has ':' where "https://" has 's'
    assert url[4] == S[4];
    assert (Scheme(true) <= url) == p.secure;
    SiteComplete(p, url[|S|..]);
  }

  /** The parser misses no URL that begins with an instance of the pattern. */
  lemma ParseComplete(url: string)
    ensures MatchesStatusPattern(url) ==> ParseStatusUrl(url).Some?
  {
    if MatchesStatusPattern(url) {
      var p :| WellFormed(p) && Render(p) <= url;
      PatternImpliesParse(url, p);
    }
  }

  /** A tweet URL is accepted. */
  lemma AcceptsStatusUrl()
    ensures IsValidTwitterUrl("https://x.com/nasa/status/123")
  {
    var p := UrlParts(true, false, X, "nasa", "123");
    assert Render(p) == "https://x.com/nasa/status/123";
    PatternImpliesParse("https://x.com/nasa/status/123", p);
  }

  /** Trailing text after the status id does not matter. */
  lemma AcceptsTrailingText()
    ensures IsValidTwitterUrl("http://www.twitter.com/a/status/9?s")
  {
    var p := UrlParts(false, true, Twitter, "a", "9");
    var u := "http://www.twitter.com/a/status/9?s";
    assert Render(p) == "http://www.twitter.com/a/status/9";
    assert u == Render(p) + "?s";
    PatternImpliesParse(u, p);
  }

  /** A profile URL is rejected: nothing follows the handle. */
  lemma RejectsProfileUrl()
    ensures !IsValidTwitterUrl("https://x.com/nasa")
  {
    var u := "https://x.com/nasa";
    assert u[8..] == "x.com/nasa";
    assert "x.com/nasa"[6..] == "nasa";
    assert SegmentLength("nasa") == 4;
  }

  /** A URL without a scheme is rejected. */
  lemma RejectsSchemelessUrl()
    ensures !IsValidTwitterUrl("x.com/nasa/status/123")
  {
    assert "x.com/nasa/status/123"[0] == 'x';
  }

  // ---------------------------------------------------------------------------
  // The handle: re.search(r'(?:twitter|x)\.com/([^/]+)', url).group(1)

  /** The group captured by a match at the start of `s` that takes host `h`. */
  function CaptureWith(s: string, h: Host): (r: Option<string>)
    ensures r.Some? ==> r.value != [] && '/' !in r.value
  {
    if HostPrefix(h) <= s then
      var rest := s[|HostPrefix(h)|..];
      var n := SegmentLength(rest);
      if n > 0 then
        assert forall i :: 0 <= i < n ==> rest[..n][i] == rest[i];
        Some(rest[..n])
      else None
    else None
  }

  /** The group captured by a match at the start of `s` (alternatives tried in order). */
  function MatchHere(s: string): Option<string> {
    match CaptureWith(s, Twitter)
    case Some(g) => Some(g)
    case None => CaptureWith(s, X)
  }

  /** The group of the leftmost match at or after offset `i`. */
  function SearchHandleFrom(url: string, i: nat): (r: Option<string>)
    requires i <= |url|
    ensures r.Some? ==> r.value != [] && '/' !in r.value
    decreases |url| - i
  {
    match MatchHere(url[i..])
    case Some(g) => Some(g)
    case None => if i == |url| then None else SearchHandleFrom(url, i + 1)
  }

  /** The handle `extract_tweet` puts after the `@` of the `author` field, if the search matches. */
  function AuthorHandle(url: string): (r: Option<string>)
    ensures r.None? <==> forall k :: 0 <= k <= |url| ==> MatchHere(url[k..]).None?
    ensures r.Some? ==> r.value != [] && '/' !in r.value
                        && exists k :: 0 <= k <= |url| && MatchHere(url[k..]) == r
                                       && forall j :: 0 <= j < k ==> MatchHere(url[j..]).None?
  {
    SearchNoneIff(url, 0);
    if SearchHandleFrom(url, 0).Some? then SearchLeftmost(url, 0); SearchHandleFrom(url, 0)
    else SearchHandleFrom(url, 0)
  }

  /** The search finds nothing exactly when no offset from `i` on starts a match. */
  lemma {:induction false} SearchNoneIff(url: string, i: nat)
    requires i <= |url|
    ensures SearchHandleFrom(url, i).None? <==> forall k :: i <= k <= |url| ==> MatchHere(url[k..]).None?
    decreases |url| - i
  {
    if MatchHere(url[i..]).None? && i < |url| {
      SearchNoneIff(url, i + 1);
    }
  }

  /** What the search finds is the group of the match at the leftmost offset where one starts. */
  lemma {:induction false} SearchLeftmost(url: string, i: nat)
    requires i <= |url| && SearchHandleFrom(url, i).Some?
    ensures exists k :: i <= k <= |url| && MatchHere(url[k..]) == SearchHandleFrom(url, i)
                        && forall j :: i <= j < k ==> MatchHere(url[j..]).None?
    decreases |url| - i
  {
    if MatchHere(url[i..]).Some? {
      assert MatchHere(url[i..]) == SearchHandleFrom(url, i);
    } else if i == |url| {
      assert false;
    } else {
      assert SearchHandleFrom(url, i) == SearchHandleFrom(url, i + 1);
      SearchLeftmost(url, i + 1);
      var k :| i + 1 <= k <= |url| && MatchHere(url[k..]) == SearchHandleFrom(url, i + 1)
               && forall j :: i + 1 <= j < k ==> MatchHere(url[j..]).None?;
      assert forall j :: i <= j < k ==> MatchHere(url[j..]).None?;
    }
  }

  /** Offsets where no match starts are skipped by the search. */
  lemma {:induction false} SearchSkips(url: string, i: nat, j: nat)
    requires i <= j <= |url|
    requires forall k :: i <= k < j ==> MatchHere(url[k..]).None?
    ensures SearchHandleFrom(url, i) == SearchHandleFrom(url, j)
    decreases j - i
  {
    if i < j {
      SearchSkips(url, i + 1, j);
    }
  }

  /** No offset of `P` holds an 'x', or a 't' followed by 'w': neither host can start there. */
  predicate NoHostStart(P: string) {
    forall j :: 0 <= j < |P| ==> P[j] != 'x' && (P[j] == 't' ==> j + 1 < |P| && P[j + 1] != 'w')
  }

  /** Schemes and subdomains hold no 'x', and their 't's are never followed by 'w'. */
  lemma SchemeHasNoHostStart(secure: bool, www: bool)
    ensures NoHostStart(Scheme(secure) + Subdomain(www))
  {
    var P := Scheme(secure) + Subdomain(www);
    forall j | 0 <= j < |P|
      ensures P[j] != 'x' && (P[j] == 't' ==> j + 1 < |P| && P[j + 1] != 'w')
    {
      if secure {
        assert P[..8] == "https://";
      } else {
        assert P[..7] == "http://";
      }
    }
  }

  /** No match of the handle search starts inside such a prefix of `url`. */
  lemma NoMatchInPrefix(url: string, P: string, k: nat)
    requires P <= url && k < |P| && NoHostStart(P)
    ensures MatchHere(url[k..]).None?
  {
    var s := url[k..];
    assert |s| >= |P| - k;
    assert P[k] != 'x' && (P[k] == 't' ==> k + 1 < |P| && P[k + 1] != 'w');
    assert s[0] == P[k];
    assert HostPrefix(Twitter)[1] == 'w';
    if P[k] == 't' {
      assert s[1] == P[k + 1];
    }
  }

  /** A match at the start of a URL's host captures the handle. */
  lemma MatchAtHost(s: string, p: UrlParts)
    requires WellFormed(p) && HostText(p) <= s
    ensures MatchHere(s) == Some(p.handle)
  {
    var H := HostPrefix(p.host);
    PrefixConcat(H, PathText(p), s);
    var rest := s[|H|..];
    PrefixConcat(p.handle, "/status/" + p.statusId, rest);
    var n := |p.handle|;
    assert forall i :: 0 <= i < n ==> rest[i] == p.handle[i];
    assert rest[n] == '/';
    SegmentLengthUnique(rest, n);
    assert rest[..n] == p.handle;
    assert s[0] == H[0];
    assert (HostPrefix(Twitter) <= s) == (p.host == Twitter);
  }

  /** For a valid URL, `author` is "@" followed by the path segment right after the host. */
  lemma AuthorHandleOfValidUrl(url: string)
    requires IsValidTwitterUrl(url)
    ensures AuthorHandle(url) == Some(ParseStatusUrl(url).value.handle)
  {
    SearchFindsHandle(url, ParseStatusUrl(url).value);
  }

  /** The search finds the handle of any instance of the pattern that starts the URL. */
  lemma SearchFindsHandle(url: string, p: UrlParts)
    requires WellFormed(p) && Render(p) <= url
    ensures SearchHandleFrom(url, 0) == Some(p.handle)
  {
    var P := Scheme(p.secure) + Subdomain(p.www);
    HostFollowsPrefix(url, p);
    SchemeHasNoHostStart(p.secure, p.www);
    forall k | 0 <= k < |P|
      ensures MatchHere(url[k..]).None?
    {
      NoMatchInPrefix(url, P, k);
    }
    SearchSkips(url, 0, |P|);
    MatchAtHost(url[|P|..], p);
  }

  /** A match of the validator's pattern is the scheme and subdomain, then the host text. */
  lemma HostFollowsPrefix(url: string, p: UrlParts)
    requires Render(p) <= url
    ensures var P := Scheme(p.secure) + Subdomain(p.www);
            P <= url && HostText(p) <= url[|P|..]
  {
    var S, W := Scheme(p.secure), Subdomain(p.www);
    PrefixConcat(S, SiteText(p), url);
    PrefixConcat(W, HostText(p), url[|S|..]);
    PrefixConcat(S, W, url);
    assert url[|S|..][|W|..] == url[|S| + |W|..];
  }
}
