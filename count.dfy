/**
 * `_normalize_count`: turns a displayed count such as "1.5K" or "1,234" into a decimal string.
 *
 * Commas are removed; then the first of the upper-case suffixes 'K', 'M', 'B' present is
 * deleted (every occurrence of it) and what is left is read by `float()`, multiplied by the
 * suffix's factor and truncated by `int()`.  A string with none of the three suffixes is
 * returned as it stands after stripping and comma removal.  A string `float()` cannot read
 * raises, which this model returns as an error.
 */
module CountNormalizer {
  import opened Text
  import opened Json

  /** A decimal literal as `float()` reads it: an optional sign, digits, an optional point
      and fraction digits, with at least one digit in all. */
  datatype Decimal = Decimal(negative: bool, whole: string, fraction: string)

  predicate ValidDecimal(d: Decimal) {
    AllDigits(d.whole) && AllDigits(d.fraction) && (d.whole != [] || d.fraction != [])
  }

  /** The `ValueError` raised by `float()`, with the text it could not read. */
  datatype CountError = NotAFloat(text: string)

  function Pow10(k: nat): (p: nat)
    ensures p >= 1
  {
    if k == 0 then 1 else 10 * Pow10(k - 1)
  }

  /** An unsigned literal `digits[.digits]`, split into its whole and fraction digits. */
  function ParseUnsigned(body: string): (r: Option<(string, string)>)
    ensures r.Some? ==> AllDigits(r.value.0) && AllDigits(r.value.1)
                        && (r.value.0 != [] || r.value.1 != [])
  {
    var w := DigitRunLength(body);
    if w == |body| then
      if w == 0 then None else Some((body, ""))
    else if body[w] != '.' then None
    else
      var fraction := body[w + 1..];
      if AllDigits(fraction) && (w > 0 || fraction != []) then Some((body[..w], fraction))
      else None
  }

  /** The digits-and-point forms of `float(s)`, surrounding whitespace allowed. */
  function ParseDecimal(s: string): (r: Option<Decimal>)
    ensures r.Some? ==> ValidDecimal(r.value)
  {
    var t := Strip(s);
    var signed := t != [] && (t[0] == '-' || t[0] == '+');
    match ParseUnsigned(if signed then t[1..] else t)
    case None => None
    case Some((whole, fraction)) => Some(Decimal(signed && t[0] == '-', whole, fraction))
  }

  /** The canonical text of an unsigned decimal: a point only before a fraction. */
  function UnsignedText(whole: string, fraction: string): string {
    whole + (if fraction == [] then "" else "." + fraction)
  }

  /** The canonical text of a decimal: a minus sign when negative. */
  function DecimalText(d: Decimal): string {
    (if d.negative then "-" else "") + UnsignedText(d.whole, d.fraction)
  }

  /** The exact value of a decimal: all its digits over the weight of the fraction digits. */
  function DecimalValue(d: Decimal): real
    requires ValidDecimal(d)
  {
    var m := DigitsValue(d.whole + d.fraction) as real / Pow10(|d.fraction|) as real;
    if d.negative then -m else m
  }

  /** `int(x)`: truncation toward zero. */
  function Truncate(x: real): int {
    if x >= 0.0 then x.Floor else -((-x).Floor)
  }

  /** `int(float(text) * factor)` in integer arithmetic: all the digits times the factor,
      divided by the weight of the fraction digits. */
  function ScaleTruncated(d: Decimal, factor: nat): int
    requires ValidDecimal(d)
  {
    var q := DigitsValue(d.whole + d.fraction) * factor / Pow10(|d.fraction|);
    if d.negative then -q else q
  }

  /** A text with none of the characters the normaliser rewrites. */
  predicate Plain(s: string) {
    ',' !in s && 'K' !in s && 'M' !in s && 'B' !in s
  }

  /** `str(int(float(t) * factor))`, or the error `float(t)` raises. */
  function Scale(t: string, factor: nat): (r: Result<string, CountError>)
    ensures ParseDecimal(t).None? <==> r == Err(NotAFloat(t))
    ensures r.Ok? ==> Plain(r.value)
  {
    match ParseDecimal(t)
    case None => Err(NotAFloat(t))
    case Some(d) => Ok(IntToString(ScaleTruncated(d, factor)))
  }

  /** `_normalize_count(count_str)` */
  function NormalizeCount(countStr: string): (r: Result<string, CountError>)
    ensures countStr == "" || countStr == "0" ==> r == Ok("0")
    ensures r.Ok? ==> Plain(r.value)
    ensures r.Err? ==> var s := RemoveChar(Strip(countStr), ','); 'K' in s || 'M' in s || 'B' in s
    ensures countStr != "" && countStr != "0" ==>
              var s := RemoveChar(Strip(countStr), ',');
              !('K' in s || 'M' in s || 'B' in s) ==> r == Ok(s)
  {
    if countStr == "" || countStr == "0" then Ok("0")
    else
      var s := RemoveChar(Strip(countStr), ',');
      if 'K' in s then Scale(RemoveChar(s, 'K'), 1000)
      else if 'M' in s then Scale(RemoveChar(s, 'M'), 1000000)
      else if 'B' in s then Scale(RemoveChar(s, 'B'), 1000000000)
      else Ok(s)
  }

  // ---------------------------------------------------------------------------
  // Reading back what is printed

  /** A run of digits followed by a non-digit (or nothing) is exactly as long as the digits. */
  lemma {:induction false} DigitRunOfDigits(digits: string, rest: string)
    requires AllDigits(digits) && (rest == [] || !IsDigit(rest[0]))
    ensures DigitRunLength(digits + rest) == |digits|
    decreases |digits|
  {
    if digits == [] {
      assert digits + rest == rest;
    } else {
      assert (digits + rest)[1..] == digits[1..] + rest;
      DigitRunOfDigits(digits[1..], rest);
    }
  }

  /** Reading the canonical text of an unsigned decimal gives its digits back. */
  lemma ParseUnsignedText(whole: string, fraction: string)
    requires AllDigits(whole) && AllDigits(fraction) && (whole != [] || fraction != [])
    ensures ParseUnsigned(UnsignedText(whole, fraction)) == Some((whole, fraction))
  {
    var body := UnsignedText(whole, fraction);
    if fraction == [] {
      assert body == whole + [] == whole;
      DigitRunOfDigits(whole, []);
    } else {
      var point := "." + fraction;
      assert body == whole + point;
      DigitRunOfDigits(whole, point);
      assert body[|whole|] == '.';
      assert body[|whole| + 1..] == fraction;
      assert body[..|whole|] == whole;
    }
  }

  /** The canonical text of a decimal starts with a sign or a digit or a point, and ends with a digit. */
  lemma DecimalTextEnds(d: Decimal)
    requires ValidDecimal(d)
    ensures var t := DecimalText(d);
            t != [] && (t[0] == '-' || t[0] == '.' || IsDigit(t[0])) && IsDigit(t[|t| - 1])
  {
    var u := UnsignedText(d.whole, d.fraction);
    assert u[0] == '.' || IsDigit(u[0]);
    assert IsDigit(u[|u| - 1]);
  }

  /** Reading the canonical text of a decimal gives the decimal back. */
  lemma ParseDecimalText(d: Decimal)
    requires ValidDecimal(d)
    ensures ParseDecimal(DecimalText(d)) == Some(d)
  {
    var t := DecimalText(d);
    var u := UnsignedText(d.whole, d.fraction);
    DecimalTextEnds(d);
    StripUnchanged(t);
    var signed := t[0] == '-' || t[0] == '+';
    assert u != [] && (u[0] == '.' || IsDigit(u[0]));
    assert signed == d.negative && (t[0] == '-' <==> d.negative);
    assert u == if signed then t[1..] else t;
    ParseUnsignedText(d.whole, d.fraction);
  }

  // ---------------------------------------------------------------------------
  // The integer computation is the exact product, truncated

  /** The digits of `a + b` denote `a`'s value shifted past `b`'s digits, plus `b`'s value. */
  lemma {:induction false} DigitsValueConcat(a: string, b: string)
    requires AllDigits(a) && AllDigits(b)
    ensures DigitsValue(a + b) == DigitsValue(a) * Pow10(|b|) + DigitsValue(b)
    decreases |b|
  {
    if b != [] {
      var b' := b[..|b| - 1];
      var ab := a + b;
      assert ab[..|ab| - 1] == a + b';
      assert ab[|ab| - 1] == b[|b| - 1];
      DigitsValueConcat(a, b');
      var x, p', y, d := DigitsValue(a), Pow10(|b'|), DigitsValue(b'), (b[|b| - 1] - '0') as nat;
      assert DigitsValue(ab) == 10 * DigitsValue(a + b') + d;
      assert DigitsValue(b) == 10 * y + d;
      ShiftDigit(x, p', Pow10(|b|), y, d);
    } else {
      assert a + b == a;
    }
  }

  /** Appending one digit multiplies what precedes it by ten. */
  lemma ShiftDigit(x: int, p: int, q: int, y: int, d: int)
    requires q == 10 * p
    ensures 10 * (x * p + y) + d == x * q + (10 * y + d)
  {
  }

  /** For natural numbers, the floor of the real quotient is the integer quotient. */
  lemma FloorOfQuotient(a: nat, b: nat)
    requires b > 0
    ensures (a as real / b as real).Floor == a / b
  {
    var q, r := a / b, a % b;
    var x := a as real / b as real;
    assert a == q * b + r && 0 <= r < b;
    assert x * b as real == a as real;
    assert (q as real) * (b as real) <= a as real;
    assert a as real < (q + 1) as real * (b as real);
    assert q as real <= x;
    assert x < (q + 1) as real;
  }

  lemma FractionSum(w: nat, f: nat, p: nat)
    requires p > 0
    ensures w as real + f as real / p as real == (w * p + f) as real / p as real
  {
  }

  lemma ScaledQuotient(n: nat, p: nat, k: nat)
    requires p > 0
    ensures (n as real / p as real) * k as real == (n * k) as real / p as real
  {
  }

  lemma NegatedProduct(x: real, y: real)
    ensures (-x) * y == -(x * y)
  {
  }

  /** The value of a decimal is its whole part plus its fraction digits over their weight. */
  lemma DecimalValueSplits(d: Decimal)
    requires ValidDecimal(d)
    ensures var m := DigitsValue(d.whole) as real + DigitsValue(d.fraction) as real / Pow10(|d.fraction|) as real;
            DecimalValue(d) == if d.negative then -m else m
  {
    var p := Pow10(|d.fraction|);
    var w, f := DigitsValue(d.whole), DigitsValue(d.fraction);
    DigitsValueConcat(d.whole, d.fraction);
    FractionSum(w, f, p);
  }

  /** The integer computation is `int(float(t) * factor)` on exact values: the value of
      the decimal times the factor, truncated toward zero. */
  lemma ScaleIsTruncatedProduct(d: Decimal, factor: nat)
    requires ValidDecimal(d)
    ensures ScaleTruncated(d, factor) == Truncate(DecimalValue(d) * factor as real)
  {
    var n := DigitsValue(d.whole + d.fraction);
    var p := Pow10(|d.fraction|);
    var v := DecimalValue(d);
    var s := ScaleTruncated(d, factor);
    assert v == if d.negative then -(n as real / p as real) else n as real / p as real;
    assert s == if d.negative then -(n * factor / p) else n * factor / p;
    TruncatedScale(s, v, n, p, factor, d.negative);
  }

  /** `TruncatedQuotient` with the integer side named, so that the caller only matches terms. */
  lemma TruncatedScale(s: int, v: real, n: nat, p: nat, factor: nat, negative: bool)
    requires p > 0
    requires var x := n as real / p as real;
             v == if negative then -x else x
    requires var q := n * factor / p;
             s == if negative then -q else q
    ensures s == Truncate(v * factor as real)
  {
    TruncatedQuotient(n, p, factor, negative, v);
  }

  /** The exact arithmetic behind `ScaleIsTruncatedProduct`, on plain numbers: a signed
      quotient times a factor truncates to the integer quotient of the product. */
  lemma TruncatedQuotient(n: nat, p: nat, factor: nat, negative: bool, v: real)
    requires p > 0
    requires var x := n as real / p as real;
             v == if negative then -x else x
    ensures var q := n * factor / p;
            Truncate(v * factor as real) == if negative then -q else q
  {
    var nf: nat := n * factor;
    ScaledQuotient(n, p, factor);
    FloorOfQuotient(nf, p);
    var x := n as real / p as real;
    var m := nf as real / p as real;
    assert x * factor as real == m;
    if negative {
      NegatedProduct(x, factor as real);
    }
  }

  // ---------------------------------------------------------------------------
  // What the normaliser does with each kind of input

  /** The factor each suffix letter stands for. */
  function Factor(c: char): nat {
    if c == 'K' then 1000 else if c == 'M' then 1000000 else 1000000000
  }

  /** Removing a character that occurs only at the end leaves the rest. */
  lemma {:induction false} RemoveTrailing(t: string, c: char)
    requires c !in t
    ensures RemoveChar(t + [c], c) == t
    decreases |t|
  {
    if t == [] {
      assert t + [c] == [c];
    } else {
      assert (t + [c])[1..] == t[1..] + [c];
      RemoveTrailing(t[1..], c);
    }
  }

  /** The canonical text of a decimal holds only a sign, digits and a point. */
  lemma DecimalTextIsPlain(d: Decimal)
    requires ValidDecimal(d)
    ensures Plain(DecimalText(d))
  {
    var t := DecimalText(d);
    assert forall k :: 0 <= k < |t| ==> t[k] == '-' || t[k] == '.' || IsDigit(t[k]);
  }

  /** What the normaliser reads once commas are gone from a suffixed decimal: the decimal
      with the suffix. */
  lemma SuffixedText(d: Decimal, c: char)
    requires ValidDecimal(d) && (c == 'K' || c == 'M' || c == 'B')
    ensures var x := DecimalText(d) + [c];
            x != "" && x != "0" && RemoveChar(Strip(x), ',') == x
  {
    var t := DecimalText(d);
    var x := t + [c];
    DecimalTextEnds(d);
    DecimalTextIsPlain(d);
    assert x[0] == t[0] && x[|x| - 1] == c;
    StripUnchanged(x);
    assert ',' !in x;
  }

  /** A count that reads as a decimal followed by 'K', 'M' or 'B' once it is stripped and its
      commas are gone ("1,500K", " 2M ") normalises to the decimal's value times the suffix's
      factor, truncated toward zero. */
  lemma SuffixScales(countStr: string, d: Decimal, c: char)
    requires ValidDecimal(d) && (c == 'K' || c == 'M' || c == 'B')
    requires RemoveChar(Strip(countStr), ',') == DecimalText(d) + [c]
    ensures NormalizeCount(countStr) == Ok(IntToString(Truncate(DecimalValue(d) * Factor(c) as real)))
  {
    SuffixBranch(countStr, d, c);
    SuffixScaled(countStr, d, c);
  }

  /** Once the suffix branch is taken, the result is the scaled value of the decimal. */
  lemma SuffixScaled(countStr: string, d: Decimal, c: char)
    requires ValidDecimal(d) && (c == 'K' || c == 'M' || c == 'B')
    requires NormalizeCount(countStr) == Scale(DecimalText(d), Factor(c))
    ensures NormalizeCount(countStr) == Ok(IntToString(Truncate(DecimalValue(d) * Factor(c) as real)))
  {
    ScaleDecimalText(d, Factor(c));
  }

  /** The suffix the normaliser acts on: the first of 'K', 'M' and 'B', in that order, that
      the count holds. */
  function SuffixOf(s: string): (c: char)
    requires 'K' in s || 'M' in s || 'B' in s
    ensures c in s && (c == 'K' || c == 'M' || c == 'B')
    ensures c == 'M' ==> 'K' !in s
    ensures c == 'B' ==> 'K' !in s && 'M' !in s
  {
    if 'K' in s then 'K' else if 'M' in s then 'M' else 'B'
  }

  /** Any count that holds a suffix once stripped and rid of commas ("+1.5K", "1.K", "1.5 K",
      "1.5KK", "K1.5"): with `c` its first suffix and `rest` that text without every `c`, when
      `float(rest)` reads `d` the count normalises to `str(int(d * factor))`. */
  lemma SuffixValue(countStr: string, c: char, rest: string, d: Decimal)
    requires var s := RemoveChar(Strip(countStr), ','); ('K' in s || 'M' in s || 'B' in s) && c == SuffixOf(s)
    requires rest == RemoveChar(RemoveChar(Strip(countStr), ','), c)
    requires ParseDecimal(rest) == Some(d)
    ensures NormalizeCount(countStr) == Ok(IntToString(Truncate(DecimalValue(d) * Factor(c) as real)))
  {
    assert NormalizeCount(countStr) == Scale(rest, Factor(c)) by {
      SuffixTaken(countStr);
    }
    ScaledBranch(countStr, rest, d, c);
  }

  /** A count whose branch scales a text `float()` reads as `d` prints `d` times the factor. */
  lemma ScaledBranch(countStr: string, t: string, d: Decimal, c: char)
    requires c == 'K' || c == 'M' || c == 'B'
    requires ParseDecimal(t) == Some(d)
    requires NormalizeCount(countStr) == Scale(t, Factor(c))
    ensures NormalizeCount(countStr) == Ok(IntToString(Truncate(DecimalValue(d) * Factor(c) as real)))
  {
    ScaleValue(t, d, Factor(c));
  }

  /** A count that holds a suffix, and whose text without it `float()` cannot read, raises
      that error. */
  lemma SuffixUnreadable(countStr: string)
    requires var s := RemoveChar(Strip(countStr), ','); 'K' in s || 'M' in s || 'B' in s
    requires var s := RemoveChar(Strip(countStr), ','); ParseDecimal(RemoveChar(s, SuffixOf(s))).None?
    ensures var s := RemoveChar(Strip(countStr), ',');
            NormalizeCount(countStr) == Err(NotAFloat(RemoveChar(s, SuffixOf(s))))
  {
    SuffixTaken(countStr);
  }

  /** A count that holds a suffix takes the branch of its first suffix. */
  lemma SuffixTaken(countStr: string)
    requires var s := RemoveChar(Strip(countStr), ','); 'K' in s || 'M' in s || 'B' in s
    ensures var s := RemoveChar(Strip(countStr), ',');
            NormalizeCount(countStr) == Scale(RemoveChar(s, SuffixOf(s)), Factor(SuffixOf(s)))
  {
    StripUnchanged("0");
    assert RemoveChar(Strip(""), ',') == "" && RemoveChar(Strip("0"), ',') == "0";
  }

  /** A count that reads as a suffixed decimal takes the branch of its suffix, with the suffix
      removed. */
  lemma SuffixBranch(countStr: string, d: Decimal, c: char)
    requires ValidDecimal(d) && (c == 'K' || c == 'M' || c == 'B')
    requires RemoveChar(Strip(countStr), ',') == DecimalText(d) + [c]
    ensures NormalizeCount(countStr) == Scale(DecimalText(d), Factor(c))
  {
    var t := DecimalText(d);
    var x := t + [c];
    StripUnchanged("0");
    assert RemoveChar(Strip(""), ',') == "" && RemoveChar(Strip("0"), ',') == "0";
    assert x[|x| - 1] == c;
    assert countStr != "" && countStr != "0";
    DecimalTextIsPlain(d);
    assert c in x && ('K' in x <==> c == 'K') && ('M' in x <==> c == 'M');
    RemoveTrailing(t, c);
  }

  /** `float()` reads digits, one point, a sign and surrounding whitespace only: the unsigned
      part it accepts holds nothing but digits and the point. */
  lemma ParseUnsignedChars(body: string)
    ensures ParseUnsigned(body).Some? ==> forall j :: 0 <= j < |body| ==> IsDigit(body[j]) || body[j] == '.'
  {
    var w := DigitRunLength(body);
    if ParseUnsigned(body).Some? {
      forall j | 0 <= j < |body|
        ensures IsDigit(body[j]) || body[j] == '.'
      {
        if j < w {
          assert body[..w][j] == body[j];
        } else if j > w {
          assert body[w + 1..][j - w - 1] == body[j];
        }
      }
    }
  }

  /** A letter anywhere in the text (a suffix letter, say) makes `float()` fail. */
  lemma ParseDecimalRejects(s: string, x: char)
    requires x in s && !IsSpace(x) && !IsDigit(x) && x != '.' && x != '+' && x != '-'
    ensures ParseDecimal(s).None?
  {
    StripKeeps(s, x);
    var t := Strip(s);
    var signed := t != [] && (t[0] == '-' || t[0] == '+');
    var i :| 0 <= i < |t| && t[i] == x;
    if signed {
      assert t[1..][i - 1] == x;
      ParseUnsignedChars(t[1..]);
    } else {
      ParseUnsignedChars(t);
    }
  }

  /** The suffixes are tried in the order 'K', 'M', 'B' and only the first one found is removed,
      so a count holding two different suffixes is an error: `float()` meets the other letter. */
  lemma SuffixPrecedence(countStr: string)
    requires var s := RemoveChar(Strip(countStr), ',');
             ('K' in s && 'M' in s) || ('K' in s && 'B' in s) || ('M' in s && 'B' in s)
    ensures NormalizeCount(countStr).Err?
  {
    var s := RemoveChar(Strip(countStr), ',');
    StripUnchanged("0");
    assert RemoveChar(Strip(""), ',') == "" && RemoveChar(Strip("0"), ',') == "0";
    assert countStr != "" && countStr != "0";
    if 'K' in s {
      var y := if 'M' in s then 'M' else 'B';
      RemoveCharKeeps(s, 'K', y);
      ParseDecimalRejects(RemoveChar(s, 'K'), y);
    } else {
      RemoveCharKeeps(s, 'M', 'B');
      ParseDecimalRejects(RemoveChar(s, 'M'), 'B');
    }
  }

  /** Whatever text `float()` reads, scaling it prints its value times the factor, truncated
      toward zero. */
  lemma ScaleValue(t: string, d: Decimal, factor: nat)
    requires ParseDecimal(t) == Some(d)
    ensures Scale(t, factor) == Ok(IntToString(Truncate(DecimalValue(d) * factor as real)))
  {
    ScaleIsTruncatedProduct(d, factor);
  }

  /** Scaling the canonical text of a decimal prints its value times the factor, truncated. */
  lemma ScaleDecimalText(d: Decimal, factor: nat)
    requires ValidDecimal(d)
    ensures Scale(DecimalText(d), factor) == Ok(IntToString(Truncate(DecimalValue(d) * factor as real)))
  {
    ParseDecimalText(d);
    ScaleIsTruncatedProduct(d, factor);
  }

  /** `str(i)` is neither stripped nor rewritten by the normaliser. */
  lemma IntegerTextUntouched(i: int)
    ensures Strip(IntToString(i)) == IntToString(i)
    ensures Plain(IntToString(i))
  {
    StripUnchanged(IntToString(i));
  }

  /** A plain digit string is returned unchanged. */
  lemma NormalizePlainDigits(s: string)
    requires s != [] && AllDigits(s)
    ensures NormalizeCount(s) == Ok(s)
  {
    StripUnchanged(s);
    assert Plain(s);
  }

  /** What the suffix branch prints is a fixed point: normalising it again changes nothing. */
  lemma NormalizeIntegerText(i: int)
    ensures NormalizeCount(IntToString(i)) == Ok(IntToString(i))
  {
    IntegerTextUntouched(i);
    var s := IntToString(i);
    assert RemoveChar(s, ',') == s;
  }

  /** Normalising twice is normalising once whenever the first result is non-empty and has no
      surrounding whitespace.  That covers "" and "0", every suffixed count that `float()`
      reads, and every count without a suffix whose text neither is blank nor has whitespace
      left over once its commas are removed. */
  lemma NormalizeIdempotent(countStr: string)
    requires NormalizeCount(countStr).Ok?
    requires NormalizeCount(countStr).value != "" && Strip(NormalizeCount(countStr).value) == NormalizeCount(countStr).value
    ensures NormalizeCount(NormalizeCount(countStr).value) == NormalizeCount(countStr)
  {
    var r := NormalizeCount(countStr).value;
    if r == "0" {
      NormalizePlainDigits("0");
    } else {
      assert RemoveChar(r, ',') == r;
    }
  }

  /** What makes every suffixed count pass `NormalizeIdempotent`: its result is `str(i)`. */
  lemma SuffixResultIsStable(countStr: string)
    requires NormalizeCount(countStr).Ok?
    requires var s := RemoveChar(Strip(countStr), ',');
             countStr == "" || countStr == "0" || 'K' in s || 'M' in s || 'B' in s
    ensures NormalizeCount(countStr).value != "" && Strip(NormalizeCount(countStr).value) == NormalizeCount(countStr).value
  {
    if countStr == "" || countStr == "0" {
      StripUnchanged("0");
    } else {
      var s := RemoveChar(Strip(countStr), ',');
      var t := if 'K' in s then RemoveChar(s, 'K') else if 'M' in s then RemoveChar(s, 'M') else RemoveChar(s, 'B');
      var f := if 'K' in s then 1000 else if 'M' in s then 1000000 else 1000000000;
      assert NormalizeCount(countStr) == Scale(t, f);
      IntegerTextUntouched(ScaleTruncated(ParseDecimal(t).value, f));
    }
  }

  /** Without a suffix, whitespace before a comma survives the first pass and is stripped by
      the second, so normalising is not idempotent in general: "5 ," gives "5 ", which gives
      "5". */
  lemma NotIdempotentExample()
    ensures NormalizeCount("5 ,") == Ok("5 ")
    ensures NormalizeCount("5 ") == Ok("5")
  {
    StripUnchanged("5 ,");
    assert RemoveChar("5 ,", ',') == "5 ";
    assert Plain("5 ");
    assert Strip("5 ") == "5" by {
      assert TrimStart("5 ") == "5 ";
      assert "5 "[..1] == "5";
    }
    assert Plain("5");
  }

  /** A count whose text, once its 'K' is removed, does not start like a number (a sign, a
      digit or a point) is an error carrying that text. */
  lemma NormalizeRejectsNonNumber(t: string)
    requires t != [] && Plain(t)
    requires !IsSpace(t[0]) && !IsSpace(t[|t| - 1])
    requires !IsDigit(t[0]) && t[0] != '+' && t[0] != '-' && t[0] != '.'
    ensures NormalizeCount(t + "K") == Err(NotAFloat(t))
  {
    var x := t + "K";
    assert x[0] == t[0] && x[|x| - 1] == 'K';
    StripUnchanged(x);
    assert ',' !in x && 'K' in x;
    RemoveTrailing(t, 'K');
    StripUnchanged(t);
    assert DigitRunLength(t) == 0;
  }

  /** The empty count and "0" are "0". */
  lemma NormalizeZeroExamples()
    ensures NormalizeCount("") == Ok("0") && NormalizeCount("0") == Ok("0")
  {
  }

  /** `SuffixScales` at a given count, decimal, suffix and printed result. */
  lemma SuffixExample(countStr: string, d: Decimal, c: char, n: int, printed: string)
    requires ValidDecimal(d) && (c == 'K' || c == 'M' || c == 'B')
    requires RemoveChar(Strip(countStr), ',') == DecimalText(d) + [c]
    requires Truncate(DecimalValue(d) * Factor(c) as real) == n && IntToString(n) == printed
    ensures NormalizeCount(countStr) == Ok(printed)
  {
    SuffixScales(countStr, d, c);
  }

  /** `SuffixExample` for a count written exactly as the suffixed decimal. */
  lemma SuffixedDecimalExample(countStr: string, d: Decimal, c: char, n: int, printed: string)
    requires ValidDecimal(d) && (c == 'K' || c == 'M' || c == 'B')
    requires countStr == DecimalText(d) + [c]
    requires Truncate(DecimalValue(d) * Factor(c) as real) == n && IntToString(n) == printed
    ensures NormalizeCount(countStr) == Ok(printed)
  {
    SuffixedText(d, c);
    SuffixExample(countStr, d, c, n, printed);
  }

  /** "1.5K" is 1.5 thousand. */
  lemma NormalizeThousandsExample()
    ensures NormalizeCount("1.5K") == Ok("1500")
  {
    var d := Decimal(false, "1", "5");
    PrintsAs1500();
    assert DecimalValue(d) == 1.5 by {
      assert "1" + "5" == "15" && "15"[..1] == "1";
    }
    assert Factor('K') as real == 1000.0;
    assert DecimalValue(d) * Factor('K') as real == 1500.0;
    assert Truncate(1500.0) == 1500;
    assert DecimalText(d) + ['K'] == "1.5K";
    SuffixedDecimalExample("1.5K", d, 'K', 1500, "1500");
  }

  lemma PrintsAs1500()
    ensures IntToString(1500) == "1500"
  {
    assert NatToString(1) == "1";
    assert NatToString(15) == "15";
    assert NatToString(150) == "150";
  }

  /** "2M" is two million. */
  lemma NormalizeMillionsExample()
    ensures NormalizeCount("2M") == Ok("2000000")
  {
    var d := Decimal(false, "2", "");
    PrintsAs2000000();
    assert DecimalValue(d) == 2.0 by {
      assert "2" + "" == "2" && "2"[..0] == "";
    }
    assert Factor('M') as real == 1000000.0;
    assert DecimalValue(d) * Factor('M') as real == 2000000.0;
    assert Truncate(2000000.0) == 2000000;
    assert DecimalText(d) + ['M'] == "2M";
    SuffixedDecimalExample("2M", d, 'M', 2000000, "2000000");
  }

  lemma PrintsAs2000000()
    ensures IntToString(2000000) == "2000000"
  {
    assert NatToString(2) == "2";
    assert NatToString(20) == "20";
    assert NatToString(200) == "200";
    assert NatToString(2000) == "2000";
    assert NatToString(20000) == "20000";
    assert NatToString(200000) == "200000";
  }

  /** "1,500K" loses its comma before the suffix is read: 1500 thousand. */
  lemma NormalizeGroupedThousandsExample(countStr: string)
    requires countStr == "1,500K"
    ensures NormalizeCount(countStr) == Ok("1500000")
  {
    var d := Decimal(false, "1500", "");
    GroupedThousandsText(countStr, d);
    GroupedThousandsValue(d);
    PrintsAs1500000();
    SuffixExample(countStr, d, 'K', 1500000, "1500000");
  }

  lemma GroupedThousandsText(countStr: string, d: Decimal)
    requires countStr == "1,500K" && d == Decimal(false, "1500", "")
    ensures ValidDecimal(d) && RemoveChar(Strip(countStr), ',') == DecimalText(d) + ['K']
  {
    StripUnchanged(countStr);
    assert RemoveChar("0K", ',') == "0K";
    assert RemoveChar("00K", ',') == "00K";
    assert RemoveChar("500K", ',') == "500K";
    assert RemoveChar(",500K", ',') == "500K";
    assert RemoveChar(countStr, ',') == "1500K";
    assert DecimalText(d) + ['K'] == "1500K";
  }

  lemma GroupedThousandsValue(d: Decimal)
    requires d == Decimal(false, "1500", "")
    ensures ValidDecimal(d) && Truncate(DecimalValue(d) * Factor('K') as real) == 1500000
  {
    assert DecimalValue(d) == 1500.0 by {
      assert "1500" + "" == "1500" && "1500"[..3] == "150" && "150"[..2] == "15" && "15"[..1] == "1";
      assert DigitsValue("15") == 15;
      assert DigitsValue("150") == 150;
    }
    assert DecimalValue(d) * Factor('K') as real == 1500000.0;
  }

  lemma PrintsAs1500000()
    ensures IntToString(1500000) == "1500000"
  {
    PrintsAs1500();
    assert NatToString(15000) == "15000";
    assert NatToString(150000) == "150000";
  }

  /** "1,234" loses its comma. */
  lemma NormalizeCommaExample()
    ensures NormalizeCount("1,234") == Ok("1234")
  {
    StripUnchanged("1,234");
    assert RemoveChar("1,234", ',') == "1234";
    assert Plain("1234");
  }
}
