/**
 * JavaScript's conversions from text to numbers, as the spreadsheet code uses them:
 * `Number(text)` (the StringToNumber grammar of ECMAScript: trimmed decimal literals
 * with optional sign, fraction and exponent, `Infinity`, and `0x`/`0o`/`0b` integers;
 * empty text is 0; anything else is NaN) and `parseInt(text)` with no radix.
 * Values are exact reals: rounding to the nearest double is not modelled.
 */
module JsNumber {
  import opened JsString
  import opened Options

  datatype Num = NaN | Finite(value: real) | Infinite(negative: bool)

  function Pow10(e: int): (r: real)
    ensures r > 0.0
    decreases if e < 0 then -e else e
  {
    if e == 0 then 1.0
    else if e > 0 then 10.0 * Pow10(e - 1)
    else Pow10(e + 1) / 10.0
  }

  /** The digit value of `c` in base `radix`, if it is a digit of that base. */
  function RadixDigit(c: char, radix: nat): (d: int)
    requires 2 <= radix <= 36
    ensures -1 <= d < radix
  {
    var v :=
      if '0' <= c <= '9' then c as int - '0' as int
      else if 'a' <= c <= 'z' then c as int - 'a' as int + 10
      else if 'A' <= c <= 'Z' then c as int - 'A' as int + 10
      else -1;
    if v < radix then v else -1
  }

  predicate AllRadixDigits(s: string, radix: nat)
    requires 2 <= radix <= 36
  {
    forall k :: 0 <= k < |s| ==> RadixDigit(s[k], radix) >= 0
  }

  function RadixValue(s: string, radix: nat): nat
    requires 2 <= radix <= 36 && AllRadixDigits(s, radix)
  {
    if |s| == 0 then 0
    else
      var front, last := s[..|s| - 1], s[|s| - 1];
      RadixDigitsSplit(s, radix);
      radix * RadixValue(front, radix) + RadixDigit(last, radix)
  }

  lemma RadixDigitsSplit(s: string, radix: nat)
    requires 2 <= radix <= 36 && AllRadixDigits(s, radix) && |s| > 0
    ensures AllRadixDigits(s[..|s| - 1], radix) && RadixDigit(s[|s| - 1], radix) >= 0
  {
    var front := s[..|s| - 1];
    forall k | 0 <= k < |front|
      ensures RadixDigit(front[k], radix) >= 0
    {
      assert front[k] == s[k];
    }
  }

  /** Unsigned decimal literal: `Infinity`, or digits with optional `.` fraction and exponent. */
  function UnsignedDecimal(b: string): Num
  {
    if b == "Infinity" then Infinite(false)
    else
      var i := DigitEnd(b, 0);
      var hasDot := i < |b| && b[i] == '.';
      var f0 := if hasDot then i + 1 else i;
      var f := DigitEnd(b, f0);
      if i + (f - f0) == 0 then NaN
      else
        var mantissa := DigitsValue(b[..i]) as real + DigitsValue(b[f0..f]) as real / Pow10(f - f0);
        if f == |b| then Finite(mantissa)
        else if b[f] != 'e' && b[f] != 'E' then NaN
        else
          var e0 := if f + 1 < |b| && (b[f + 1] == '+' || b[f + 1] == '-') then f + 2 else f + 1;
          var e := DigitEnd(b, e0);
          if e == e0 || e != |b| then NaN
          else
            var ev := DigitsValue(b[e0..e]);
            Finite(mantissa * Pow10(if b[f + 1] == '-' then -(ev as int) else ev))
  }

  /** `Number(s)` for a string `s`. */
  function ToNumber(s: string): Num
  {
    var t := Trim(s);
    if |t| == 0 then Finite(0.0)
    else if |t| >= 2 && t[0] == '0' && (t[1] == 'x' || t[1] == 'X' || t[1] == 'o' || t[1] == 'O' || t[1] == 'b' || t[1] == 'B') then
      var radix := if t[1] == 'x' || t[1] == 'X' then 16 else if t[1] == 'o' || t[1] == 'O' then 8 else 2;
      if |t| > 2 && AllRadixDigits(t[2..], radix) then Finite(RadixValue(t[2..], radix) as real) else NaN
    else if t[0] == '-' then
      match UnsignedDecimal(t[1..])
      case Finite(v) => Finite(-v)
      case Infinite(_) => Infinite(true)
      case NaN => NaN
    else if t[0] == '+' then UnsignedDecimal(t[1..])
    else UnsignedDecimal(t)
  }

  /** `isNaN(Number(s))`. */
  predicate IsNaNText(s: string) { ToNumber(s).NaN? }

  /** End of the run of base-`radix` digits that starts at `i`. */
  function RadixRunEnd(s: string, i: nat, radix: nat): (j: nat)
    requires i <= |s| && 2 <= radix <= 36
    ensures i <= j <= |s| && AllRadixDigits(s[i..j], radix)
    decreases |s| - i
  {
    if i < |s| && RadixDigit(s[i], radix) >= 0 then
      var j := RadixRunEnd(s, i + 1, radix);
      assert forall k :: 0 < k < j - i ==> s[i..j][k] == s[i + 1..j][k - 1];
      j
    else i
  }

  /** `parseInt(s)` with no radix: None stands for NaN. */
  function ParseInt(s: string): Option<int>
  {
    var t := TrimStart(s);
    var negative := |t| > 0 && t[0] == '-';
    var u := if |t| > 0 && (t[0] == '-' || t[0] == '+') then t[1..] else t;
    var hex := |u| >= 2 && u[0] == '0' && (u[1] == 'x' || u[1] == 'X');
    var radix := if hex then 16 else 10;
    var start := if hex then 2 else 0;
    var end := RadixRunEnd(u, start, radix);
    if end == start then None
    else
      var v := RadixValue(u[start..end], radix);
      Some(if negative then -(v as int) else v)
  }

  /** Every decimal numeral printed by `String(n)` reads back as `n`. */
  lemma NumberOfNat(n: nat)
    ensures ToNumber(NatToString(n)) == Finite(n as real)
  {
    var s := NatToString(n);
    TrimOfDigits(s);
    assert !(|s| >= 2 && s[0] == '0');
    assert s[0] != '-' && s[0] != '+';
    UnsignedOfDigits(s);
    DigitsValueOfNat(n);
  }

  lemma UnsignedOfDigits(b: string)
    requires |b| > 0 && AllDigits(b)
    ensures UnsignedDecimal(b) == Finite(DigitsValue(b) as real)
  {
    assert b != "Infinity" by { assert !IsDigit("Infinity"[0]); }
    DigitRunAll(b, 0);
    var i := DigitEnd(b, 0);
    assert i == |b|;
    assert DigitEnd(b, i) == i;
    assert b[..i] == b;
    assert b[i..i] == [];
    assert DigitsValue(b[i..i]) == 0;
  }

  lemma DigitRunAll(s: string, i: nat)
    requires i <= |s| && AllDigits(s)
    ensures DigitEnd(s, i) == |s|
    decreases |s| - i
  {
    if i < |s| { DigitRunAll(s, i + 1); }
  }

  lemma TrimOfDigits(s: string)
    requires |s| > 0 && AllDigits(s)
    ensures Trim(s) == s
  {
    assert !IsWhitespace(s[0]);
    assert LeadingSpace(s) == 0;
    assert !IsWhitespace(s[|s| - 1]);
    assert TrailingSpace(s) == 0;
  }

  /** Trimming keeps every character that is not whitespace. */
  lemma TrimKeeps(s: string, k: nat)
    requires k < |s| && !IsWhitespace(s[k])
    ensures s[k] in Trim(s)
  {
    var ls := LeadingSpace(s);
    assert ls <= k;
    var t := TrimStart(s);
    assert t[k - ls] == s[k];
    var ts := TrailingSpace(t);
    assert k - ls < |t| - ts;
    assert Trim(s) == t[..|t| - ts];
    assert Trim(s)[k - ls] == s[k];
  }

  /** Text with a double quote in it is never a number. */
  lemma QuotedIsNaN(s: string)
    requires '"' in s
    ensures IsNaNText(s)
  {
    var k :| 0 <= k < |s| && s[k] == '"';
    TrimKeeps(s, k);
    var t := Trim(s);
    if |t| >= 2 && t[0] == '0' && (t[1] == 'x' || t[1] == 'X' || t[1] == 'o' || t[1] == 'O' || t[1] == 'b' || t[1] == 'B') {
    } else if t[0] == '-' || t[0] == '+' {
      var j :| 0 <= j < |t| && t[j] == '"';
      UnsignedNoQuote(t[1..], j - 1);
    } else {
      var j :| 0 <= j < |t| && t[j] == '"';
      UnsignedNoQuote(t, j);
    }
  }

  lemma UnsignedNoQuote(b: string, k: nat)
    requires k < |b| && b[k] == '"'
    ensures UnsignedDecimal(b).NaN?
  {
    if b == "Infinity" {
      assert b[k] in "Infinity";
    }
    var i := DigitEnd(b, 0);
    var hasDot := i < |b| && b[i] == '.';
    var f0 := if hasDot then i + 1 else i;
    var f := DigitEnd(b, f0);
    assert !IsDigit(b[k]);
    assert i <= k;
    assert f <= k;
    if f < |b| && (b[f] == 'e' || b[f] == 'E') {
      var e0 := if f + 1 < |b| && (b[f + 1] == '+' || b[f + 1] == '-') then f + 2 else f + 1;
      assert e0 <= k;
      var e := DigitEnd(b, e0);
      assert e <= k;
      assert e != |b|;
    } else {
      assert f < |b|;
    }
  }
}
