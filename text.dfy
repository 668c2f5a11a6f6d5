/** Python `str` operations the extractor relies on, over `string == seq<char>`. */
module Text {

  /** The characters for which Python's `str.isspace()` holds; `str.strip()` removes these. */
  predicate IsSpace(c: char) {
    c == ' ' || ('\t' <= c <= '\r') || ('\U{1C}' <= c <= '\U{1F}')
    || c == '\U{85}' || c == '\U{A0}' || c == '\U{1680}'
    || ('\U{2000}' <= c <= '\U{200A}') || c == '\U{2028}' || c == '\U{2029}'
    || c == '\U{202F}' || c == '\U{205F}' || c == '\U{3000}'
  }

  predicate AllSpace(s: string) {
    forall i :: 0 <= i < |s| ==> IsSpace(s[i])
  }

  /** `s.lstrip()` */
  function TrimStart(s: string): (r: string)
    ensures |r| <= |s|
    ensures r == [] || !IsSpace(r[0])
  {
    if s != [] && IsSpace(s[0]) then TrimStart(s[1..]) else s
  }

  /** `s.rstrip()` */
  function TrimEnd(s: string): (r: string)
    ensures |r| <= |s|
    ensures r == [] || (r[0] == s[0] && !IsSpace(r[|r| - 1]))
  {
    if s != [] && IsSpace(s[|s| - 1]) then TrimEnd(s[..|s| - 1]) else s
  }

  /** `s.strip()`: what is left once the leading and trailing whitespace is gone. */
  function Strip(s: string): (r: string)
    ensures |r| <= |s|
    ensures r == [] || (!IsSpace(r[0]) && !IsSpace(r[|r| - 1]))
  {
    TrimEnd(TrimStart(s))
  }

  /** `lstrip` removes a whitespace-only head and keeps the rest. */
  lemma {:induction false} TrimStartDropsSpace(s: string)
    ensures var r := TrimStart(s);
            r == s[|s| - |r|..] && AllSpace(s[..|s| - |r|])
    decreases |s|
  {
    if s != [] && IsSpace(s[0]) {
      TrimStartDropsSpace(s[1..]);
      var r := TrimStart(s);
      assert s[1..][|s| - 1 - |r|..] == s[|s| - |r|..];
      assert forall i :: 1 <= i < |s| - |r| ==> s[i] == s[1..][i - 1];
    }
  }

  /** `rstrip` removes a whitespace-only tail and keeps the rest. */
  lemma {:induction false} TrimEndDropsSpace(s: string)
    ensures var r := TrimEnd(s);
            r == s[..|r|] && AllSpace(s[|r|..])
    decreases |s|
  {
    if s != [] && IsSpace(s[|s| - 1]) {
      var s' := s[..|s| - 1];
      TrimEndDropsSpace(s');
      var r := TrimEnd(s);
      assert s'[..|r|] == s[..|r|];
      assert forall i :: |r| <= i < |s| - 1 ==> s[i] == s'[i];
    }
  }

  /** `Strip(s)` is the slice of `s` between a whitespace-only head and a whitespace-only tail. */
  lemma StripIsSlice(s: string)
    ensures exists lo :: 0 <= lo <= |s| - |Strip(s)| && Strip(s) == s[lo..lo + |Strip(s)|]
                         && AllSpace(s[..lo]) && AllSpace(s[lo + |Strip(s)|..])
  {
    var t := TrimStart(s);
    var r := TrimEnd(t);
    TrimStartDropsSpace(s);
    TrimEndDropsSpace(t);
    assert r == Strip(s);
    var lo := |s| - |t|;
    assert r == s[lo..lo + |r|];
    assert s[lo + |r|..] == t[|r|..];
    assert AllSpace(s[..lo]) && AllSpace(s[lo + |r|..]);
  }

  /** `lstrip` and `rstrip` keep every character that is not whitespace. */
  lemma {:induction false} TrimKeeps(s: string, x: char)
    requires x in s && !IsSpace(x)
    ensures x in TrimStart(s) && x in TrimEnd(s)
    decreases |s|
  {
    var i :| 0 <= i < |s| && s[i] == x;
    if IsSpace(s[0]) {
      assert s[1..][i - 1] == x;
      TrimKeeps(s[1..], x);
    }
    if IsSpace(s[|s| - 1]) {
      assert s[..|s| - 1][i] == x;
      TrimKeeps(s[..|s| - 1], x);
    }
  }

  /** Stripping keeps every character that is not whitespace. */
  lemma StripKeeps(s: string, x: char)
    requires x in s && !IsSpace(x)
    ensures x in Strip(s)
  {
    TrimKeeps(s, x);
    TrimKeeps(TrimStart(s), x);
  }

  /** Stripping changes nothing when neither end is whitespace. */
  lemma {:induction false} StripUnchanged(s: string)
    requires s == [] || (!IsSpace(s[0]) && !IsSpace(s[|s| - 1]))
    ensures Strip(s) == s
  {
    assert TrimStart(s) == s;
    assert TrimEnd(s) == s;
  }

  /** Python's `sub in s` for strings. */
  predicate Contains(s: string, sub: string)
    decreases |s|
  {
    sub <= s || (s != [] && Contains(s[1..], sub))
  }

  /** `sub` occurs in `s` starting at offset `i`. */
  predicate OccursAt(s: string, sub: string, i: nat) {
    i + |sub| <= |s| && s[i..i + |sub|] == sub
  }

  /** `Contains` is the textbook "occurs at some offset". */
  lemma {:induction false} ContainsIffOccurs(s: string, sub: string)
    ensures Contains(s, sub) <==> exists i: nat :: OccursAt(s, sub, i)
    decreases |s|
  {
    if sub <= s {
      assert OccursAt(s, sub, 0);
    } else if s != [] {
      ContainsIffOccurs(s[1..], sub);
      if exists i: nat :: OccursAt(s, sub, i) {
        var i: nat :| OccursAt(s, sub, i);
        assert i != 0;
        assert OccursAt(s[1..], sub, i - 1) by {
          assert s[1..][i - 1..i - 1 + |sub|] == s[i..i + |sub|];
        }
      }
      if Contains(s[1..], sub) {
        var j: nat :| OccursAt(s[1..], sub, j);
        assert OccursAt(s, sub, j + 1) by {
          assert s[1..][j..j + |sub|] == s[j + 1..j + 1 + |sub|];
        }
      }
    }
  }

  /** `s.replace(c, '')` for a one-character `c`: every occurrence removed, the rest kept in order. */
  function RemoveChar(s: string, c: char): (r: string)
    ensures c !in r && |r| <= |s|

    ensures c !in s ==> r == s
  {
    if s == [] then []
    else if s[0] == c then RemoveChar(s[1..], c)
    else [s[0]] + RemoveChar(s[1..], c)
  }

  /** Removing one character keeps every other character. */
  lemma {:induction false} RemoveCharKeeps(s: string, c: char, x: char)
    requires x in s && x != c
    ensures x in RemoveChar(s, c)
  {
    if s[0] != x {
      var i :| 0 <= i < |s| && s[i] == x;
      assert s[1..][i - 1] == x;
      RemoveCharKeeps(s[1..], c, x);
    }
  }

  predicate IsDigit(c: char) {
    '0' <= c <= '9'
  }

  predicate AllDigits(s: string) {
    forall i :: 0 <= i < |s| ==> IsDigit(s[i])
  }

  /** Length of the longest all-digit prefix of `s`. */
  function DigitRunLength(s: string): (n: nat)
    ensures n <= |s| && AllDigits(s[..n])
    ensures n < |s| ==> !IsDigit(s[n])
  {
    if s == [] || !IsDigit(s[0]) then 0 else 1 + DigitRunLength(s[1..])
  }

  /** The number an all-digit string denotes in base ten (`""` denotes 0). */
  function DigitsValue(s: string): nat
    requires AllDigits(s)
  {
    if s == [] then 0 else 10 * DigitsValue(s[..|s| - 1]) + (s[|s| - 1] - '0') as nat
  }

  function DigitChar(d: nat): (c: char)
    requires d < 10
    ensures IsDigit(c) && (c - '0') as nat == d
  {
    '0' + d as char
  }

  /** `str(n)` for `n >= 0`: canonical decimal digits, no leading zero, denoting `n`. */
  function NatToString(n: nat): (s: string)
    ensures s != [] && AllDigits(s)
    ensures |s| > 1 ==> s[0] != '0'
    ensures DigitsValue(s) == n
  {
    if n < 10 then [DigitChar(n)]
    else
      var s := NatToString(n / 10) + [DigitChar(n % 10)];
      assert s[..|s| - 1] == NatToString(n / 10);
      s
  }

  /** `str(i)` for a Python `int`. */
  function IntToString(i: int): (s: string)
    ensures s != [] && !IsSpace(s[0]) && !IsSpace(s[|s| - 1])
    ensures forall k :: 0 <= k < |s| ==> s[k] == '-' || IsDigit(s[k])
    ensures i >= 0 ==> AllDigits(s) && DigitsValue(s) == i
    ensures i < 0 ==> s[0] == '-' && AllDigits(s[1..]) && DigitsValue(s[1..]) == -i
  {
    if i < 0 then
      var s := "-" + NatToString(-i);
      assert s[1..] == NatToString(-i);
      s
    else NatToString(i)
  }

  /** A canonical digit string is what `str` prints for its value. */
  lemma {:induction false} NatToStringOfValue(s: string)
    requires s != [] && AllDigits(s) && (|s| > 1 ==> s[0] != '0')
    ensures NatToString(DigitsValue(s)) == s
    decreases |s|
  {
    if |s| > 1 {
      var init := s[..|s| - 1];
      assert init[0] == s[0];
      NatToStringOfValue(init);
      PositiveLeadDigit(init);
      var v := DigitsValue(s);
      assert v / 10 == DigitsValue(init) && v % 10 == (s[|s| - 1] - '0') as nat;
      assert s == init + [s[|s| - 1]];
    }
  }

  /** A digit string whose first digit is not zero denotes a positive number. */
  lemma {:induction false} PositiveLeadDigit(s: string)
    requires s != [] && AllDigits(s) && s[0] != '0'
    ensures DigitsValue(s) > 0
    decreases |s|
  {
    if |s| > 1 {
      PositiveLeadDigit(s[..|s| - 1]);
    }
  }
}
