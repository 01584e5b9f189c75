/**
 * The token grammar of the formula rewriter (src/constants.js): the two error
 * texts, and the five regular expressions the rewriter's passes replace with.
 *
 * Each regular expression is given as `MatchAt(p, s, i)`: the end of the match
 * that starts at position `i` of `s`, if there is one. All five are deterministic
 * at a given start (every greedy run is followed by a character its own class
 * excludes, so backtracking never finds a second match), which is what lets a
 * function stand for them. `Scan` is the left-to-right search of a global
 * `String.prototype.replace`: it cuts `s` into matched tokens and the
 * characters between them.
 */
module Constants {
  import opened JsString
  import opened Options

  const REF_ERROR: string := "#REF!"
  const GENERAL_ERROR: string := "#ERROR"

  datatype Pattern =
    | DynamicVariablePattern(trigger: char)  // new RegExp(`\\${trigger}\\S*`, "g")
    | SheetRefPattern                        // SHEET_TO_CELL_REF_REGEX
    | RangePattern                           // CELL_RANGE_REGEX
    | CellRefPattern                         // CELL_REF_REGEX
    | SpacePattern                           // SPACE_REMOVAL_REGEX

  /** End of the run of ASCII letters starting at `i`. */
  function LetterRunEnd(s: string, i: nat): (j: nat)
    requires i <= |s|
    ensures i <= j <= |s|
    ensures forall k :: i <= k < j ==> IsAsciiLetter(s[k])
    ensures j < |s| ==> !IsAsciiLetter(s[j])
    decreases |s| - i
  {
    if i < |s| && IsAsciiLetter(s[i]) then LetterRunEnd(s, i + 1) else i
  }

  /** End of the run of characters that are not `\s`, starting at `i`. */
  function NonSpaceEnd(s: string, i: nat): (j: nat)
    requires i <= |s|
    ensures i <= j <= |s|
    ensures forall k :: i <= k < j ==> !IsWhitespace(s[k])
    ensures j < |s| ==> IsWhitespace(s[j])
    decreases |s| - i
  {
    if i < |s| && !IsWhitespace(s[i]) then NonSpaceEnd(s, i + 1) else i
  }

  /** End of the run of `\s` characters starting at `i`. */
  function SpaceEnd(s: string, i: nat): (j: nat)
    requires i <= |s|
    ensures i <= j <= |s|
    ensures forall k :: i <= k < j ==> IsWhitespace(s[k])
    ensures j < |s| ==> !IsWhitespace(s[j])
    decreases |s| - i
  {
    if i < |s| && IsWhitespace(s[i]) then SpaceEnd(s, i + 1) else i
  }

  /** End of the run of `[A-Za-z0-9]` starting at `i`. */
  function AlnumEnd(s: string, i: nat): (j: nat)
    requires i <= |s|
    ensures i <= j <= |s|
    ensures forall k :: i <= k < j ==> IsAlnum(s[k])
    ensures j < |s| ==> !IsAlnum(s[j])
    decreases |s| - i
  {
    if i < |s| && IsAlnum(s[i]) then AlnumEnd(s, i + 1) else i
  }

  /** First position at or after `i` holding a single quote. */
  function QuoteFrom(s: string, i: nat): (j: nat)
    requires i <= |s|
    ensures i <= j <= |s|
    ensures forall k :: i <= k < j ==> s[k] != '\''
    ensures j < |s| ==> s[j] == '\''
    decreases |s| - i
  {
    if i < |s| && s[i] != '\'' then QuoteFrom(s, i + 1) else i
  }

  /** `\b` at position `i`: exactly one of the characters around it is a word character. */
  predicate Boundary(s: string, i: nat)
    requires i <= |s|
  {
    (i > 0 && IsWordChar(s[i - 1])) != (i < |s| && IsWordChar(s[i]))
  }

  /** The number of single quotes in `s`. */
  function Quotes(s: string): nat { CountChar(s, '\'') }

  /**
   * `\$?[A-Za-z]+\$?[1-9][0-9]*` (or, when `dollars` is false, `[A-Za-z]+[1-9][0-9]*`)
   * at `i`, with the digit run taken as far as it goes.
   */
  function RefEnd(s: string, i: nat, dollars: bool): (r: Option<nat>)
    requires i <= |s|
    ensures r.Some? ==> i < r.value <= |s|
  {
    var a := if dollars && i < |s| && s[i] == '$' then i + 1 else i;
    var b := LetterRunEnd(s, a);
    var c := if dollars && b < |s| && s[b] == '$' then b + 1 else b;
    if b > a && c < |s| && '1' <= s[c] <= '9' then Some(DigitEnd(s, c + 1)) else None
  }

  /** `\T\S*` for the trigger character `t`: the trigger and the non-space run after it. */
  function DynamicVariableMatch(s: string, i: nat, t: char): (r: Option<nat>)
    requires i <= |s|
    ensures r.Some? ==> i < r.value <= |s|
  {
    if i < |s| && s[i] == t then Some(NonSpaceEnd(s, i + 1)) else None
  }

  /** `\s+(?=(?:[^']*'[^']*')*[^']*$)`: a whitespace run followed by an even number of quotes. */
  function SpaceMatch(s: string, i: nat): (r: Option<nat>)
    requires i <= |s|
    ensures r.Some? ==> i < r.value <= |s|
  {
    var j := SpaceEnd(s, i);
    if j > i && Quotes(s[j..]) % 2 == 0 then Some(j) else None
  }

  /** `\b[A-Za-z]+[1-9][0-9]*\b`. */
  function CellRefMatch(s: string, i: nat): (r: Option<nat>)
    requires i <= |s|
    ensures r.Some? ==> i < r.value <= |s|
  {
    var e := RefEnd(s, i, false);
    if e.Some? && Boundary(s, i) && Boundary(s, e.value) then e else None
  }

  /** `\$?[A-Za-z]+\$?[1-9][0-9]*:\$?[A-Za-z]+\$?[1-9][0-9]*`. */
  function RangeMatch(s: string, i: nat): (r: Option<nat>)
    requires i <= |s|
    ensures r.Some? ==> i < r.value <= |s|
  {
    var j := RefEnd(s, i, true);
    if j.Some? && j.value < |s| && s[j.value] == ':' then RefEnd(s, j.value + 1, true) else None
  }

  /** Where the qualifier `'[^']*'` or `\b[A-Za-z0-9]+` that starts at `i` ends (`i` if there is none). */
  function QualifierEnd(s: string, i: nat): (j: nat)
    requires i <= |s|
    ensures i <= j <= |s|
  {
    if i < |s| && s[i] == '\'' then
      var q := QuoteFrom(s, i + 1);
      if q < |s| then q + 1 else i
    else if Boundary(s, i) then AlnumEnd(s, i)
    else i
  }

  /** `(?:'([^']*)'|\b[A-Za-z0-9]+)\![A-Za-z]+[1-9][0-9]*`. */
  function SheetRefMatch(s: string, i: nat): (r: Option<nat>)
    requires i <= |s|
    ensures r.Some? ==> i < r.value <= |s|
  {
    var j := QualifierEnd(s, i);
    if j > i && j < |s| && s[j] == '!' then RefEnd(s, j + 1, false) else None
  }

  /** The end of the match of pattern `p` that starts at position `i` of `s`, if any. */
  function MatchAt(p: Pattern, s: string, i: nat): (r: Option<nat>)
    requires i <= |s|
    ensures r.Some? ==> i < r.value <= |s|
  {
    match p
    case DynamicVariablePattern(t) => DynamicVariableMatch(s, i, t)
    case SpacePattern => SpaceMatch(s, i)
    case CellRefPattern => CellRefMatch(s, i)
    case RangePattern => RangeMatch(s, i)
    case SheetRefPattern => SheetRefMatch(s, i)
  }

  /** A piece of scanned text: a matched token, or one character between matches. */
  datatype Piece = Text(text: string) | Token(text: string)

  function Concat(pieces: seq<Piece>): string
  {
    if |pieces| == 0 then "" else pieces[0].text + Concat(pieces[1..])
  }

  /** `ends[k]` is where a match starting at position `k` of `s` ends, if one does. */
  predicate MatchEnds(ends: seq<Option<nat>>, s: string)
  {
    |ends| == |s| + 1 && forall k :: 0 <= k <= |s| && ends[k].Some? ==> k < ends[k].value <= |s|
  }

  /** The match of pattern `p` at every position of `s`. */
  function EndsOf(p: Pattern, s: string): (ends: seq<Option<nat>>)
    ensures MatchEnds(ends, s)
    ensures forall k :: 0 <= k <= |s| ==> ends[k] == MatchAt(p, s, k)
  {
    seq(|s| + 1, k => if 0 <= k <= |s| then MatchAt(p, s, k) else None)
  }

  /** The global search of `replace`: try at `i`; on a match take it whole, otherwise move one character on. */
  function ScanWith(ends: seq<Option<nat>>, s: string, i: nat): seq<Piece>
    requires MatchEnds(ends, s) && i <= |s|
    decreases |s| - i
  {
    if i == |s| then []
    else
      match ends[i]
      case Some(e) => [Token(s[i..e])] + ScanWith(ends, s, e)
      case None => [Text([s[i]])] + ScanWith(ends, s, i + 1)
  }

  /** The scan of `s` from position `i` for pattern `p`. */
  function ScanFrom(p: Pattern, s: string, i: nat): seq<Piece>
    requires i <= |s|
  {
    ScanWith(EndsOf(p, s), s, i)
  }

  function Scan(p: Pattern, s: string): seq<Piece> { ScanFrom(p, s, 0) }

  /** A text that is one whole match scans as that single token. */
  lemma ScanWhole(p: Pattern, s: string)
    requires |s| > 0 && MatchAt(p, s, 0) == Some(|s|)
    ensures Scan(p, s) == [Token(s)]
  {
    var ends := EndsOf(p, s);
    assert ends[0] == Some(|s|);
    assert s[0..|s|] == s;
    assert ScanWith(ends, s, |s|) == [];
  }

  lemma {:induction false} ScanWithConcat(ends: seq<Option<nat>>, s: string, i: nat)
    requires MatchEnds(ends, s) && i <= |s|
    ensures Concat(ScanWith(ends, s, i)) == s[i..]
    decreases |s| - i
  {
    if i < |s| {
      var next := if ends[i].Some? then ends[i].value else i + 1;
      var piece := if ends[i].Some? then Token(s[i..next]) else Text([s[i]]);
      var rest := ScanWith(ends, s, next);
      assert ScanWith(ends, s, i) == [piece] + rest;
      ScanWithConcat(ends, s, next);
      ConcatCons(piece, rest);
      assert piece.text == s[i..next];
      assert s[i..] == s[i..next] + s[next..];
    }
  }

  /** Scanning loses and invents nothing: the pieces put back together are the text. */
  lemma ScanFromConcat(p: Pattern, s: string, i: nat)
    requires i <= |s|
    ensures Concat(ScanFrom(p, s, i)) == s[i..]
  {
    ScanWithConcat(EndsOf(p, s), s, i);
  }

  lemma ConcatCons(piece: Piece, rest: seq<Piece>)
    ensures Concat([piece] + rest) == piece.text + Concat(rest)
  {
    assert ([piece] + rest)[1..] == rest;
  }

  lemma ScanConcat(p: Pattern, s: string)
    ensures Concat(Scan(p, s)) == s
  {
    ScanFromConcat(p, s, 0);
  }

  /** Where the `k`-th piece of a scan starting at `i` begins. */
  function PieceStart(pieces: seq<Piece>, i: nat, k: nat): nat
    requires k <= |pieces|
  {
    i + |Concat(pieces[..k])|
  }

  lemma ConcatAppend(a: seq<Piece>, b: seq<Piece>)
    ensures Concat(a + b) == Concat(a) + Concat(b)
  {
    if |a| > 0 {
      assert (a + b)[1..] == a[1..] + b;
      ConcatAppend(a[1..], b);
    } else {
      assert a + b == b;
    }
  }

  lemma {:induction false} ScanWithMatches(ends: seq<Option<nat>>, s: string, i: nat, k: nat)
    requires MatchEnds(ends, s) && i <= |s|
    requires k < |ScanWith(ends, s, i)|
    ensures var pieces := ScanWith(ends, s, i);
            var start := PieceStart(pieces, i, k);
            && start + |pieces[k].text| <= |s|
            && s[start..start + |pieces[k].text|] == pieces[k].text
            && (pieces[k].Token? ==> ends[start] == Some(start + |pieces[k].text|))
            && (pieces[k].Text? ==> |pieces[k].text| == 1 && ends[start] == None)
    decreases |s| - i
  {
    var pieces := ScanWith(ends, s, i);
    var next := match ends[i] case Some(e) => e case None => i + 1;
    assert pieces == [pieces[0]] + ScanWith(ends, s, next);
    assert |pieces[0].text| == next - i;
    if k > 0 {
      var rest := ScanWith(ends, s, next);
      ScanWithMatches(ends, s, next, k - 1);
      assert pieces[..k] == [pieces[0]] + rest[..k - 1];
      assert pieces[k] == rest[k - 1];
      ConcatAppend([pieces[0]], rest[..k - 1]);
      assert Concat([pieces[0]]) == pieces[0].text;
    }
  }

  lemma EndsAt(p: Pattern, s: string, k: nat)
    requires k <= |s|
    ensures EndsOf(p, s)[k] == MatchAt(p, s, k)
  {
  }

  // ---------------------------------------------------------------------------
  // The grammar each pattern accepts, stated on the matched text.

  predicate AllLetters(t: string) { forall k :: 0 <= k < |t| ==> IsAsciiLetter(t[k]) }

  /** A row number: decimal digits without a leading zero. */
  predicate RowNumber(t: string) { |t| > 0 && '1' <= t[0] <= '9' && AllDigits(t[1..]) }

  /** `[A-Za-z]+[1-9][0-9]*`: letters, then a row number. */
  predicate IsCellRefText(t: string)
  {
    exists k :: 0 < k < |t| && AllLetters(t[..k]) && RowNumber(t[k..])
  }

  /** `\$?[A-Za-z]+\$?[1-9][0-9]*`: a cell reference with optional `$` before its column and its row. */
  predicate IsAbsRefText(t: string)
  {
    var u := AfterDollar(t, true);
    exists k :: 0 < k < |u| && AllLetters(u[..k])
      && (RowNumber(u[k..]) || (u[k] == '$' && RowNumber(u[k + 1..])))
  }

  /** `'[^']*'`: a sheet name in single quotes, with no quote inside. */
  predicate IsQuotedName(t: string)
  {
    |t| >= 2 && t[0] == '\'' && t[|t| - 1] == '\'' && forall k :: 0 < k < |t| - 1 ==> t[k] != '\''
  }

  predicate IsAlnumWord(t: string) { |t| > 0 && forall k :: 0 <= k < |t| ==> IsAlnum(t[k]) }

  /** The digit run of a match is taken as far as it goes. */
  predicate EndsRow(s: string, e: nat)
    requires e <= |s|
  {
    e == |s| || !IsDigit(s[e])
  }

  lemma LetterRunEndAt(s: string, a: nat, k: nat)
    requires a <= k <= |s|
    requires forall m :: a <= m < k ==> IsAsciiLetter(s[m])
    requires k == |s| || !IsAsciiLetter(s[k])
    ensures LetterRunEnd(s, a) == k
  {
  }

  lemma DigitEndAt(s: string, a: nat, k: nat)
    requires a <= k <= |s|
    requires forall m :: a <= m < k ==> IsDigit(s[m])
    requires k == |s| || !IsDigit(s[k])
    ensures DigitEnd(s, a) == k
  {
  }

  /** The part of a reference after its optional leading `$`. */
  function AfterDollar(t: string, dollars: bool): string
  {
    if dollars && |t| > 0 && t[0] == '$' then t[1..] else t
  }

  /** The reference grammar, with (`dollars`) or without the `$` markers. */
  predicate IsRefText(t: string, dollars: bool)
  {
    if dollars then IsAbsRefText(t) else IsCellRefText(t)
  }

  lemma RefEndSound(s: string, i: nat, e: nat, dollars: bool)
    requires i < e <= |s| && RefEnd(s, i, dollars) == Some(e)
    ensures dollars ==> IsAbsRefText(s[i..e])
    ensures !dollars ==> IsCellRefText(s[i..e])
    ensures EndsRow(s, e)
  {
    var t := s[i..e];
    var a := if dollars && i < |s| && s[i] == '$' then i + 1 else i;
    var b := LetterRunEnd(s, a);
    var c := if dollars && b < |s| && s[b] == '$' then b + 1 else b;
    var u := AfterDollar(t, dollars);
    assert u == s[a..e];
    var k := b - a;
    assert AllLetters(u[..k]) by {
      forall m | 0 <= m < k ensures IsAsciiLetter(u[..k][m]) { assert u[..k][m] == s[a + m]; }
    }
    assert RowNumber(s[c..e]) by {
      assert s[c..e][0] == s[c];
      forall m | 0 <= m < |s[c..e][1..]| ensures IsDigit(s[c..e][1..][m]) {
        assert s[c..e][1..][m] == s[c + 1 + m];
      }
    }
    if c == b {
      assert u[k..] == s[c..e];
    } else {
      assert u[k] == '$' && u[k + 1..] == s[c..e];
    }
  }

  lemma RowNumberAt(s: string, c: nat, e: nat)
    requires c < e <= |s| && RowNumber(s[c..e]) && EndsRow(s, e)
    ensures '1' <= s[c] <= '9' && DigitEnd(s, c + 1) == e
  {
    assert s[c] == s[c..e][0];
    forall m | c + 1 <= m < e ensures IsDigit(s[m]) { assert s[m] == s[c..e][1..][m - c - 1]; }
    DigitEndAt(s, c + 1, e);
  }

  lemma LettersAt(s: string, a: nat, e: nat, k: nat)
    requires a + k <= e <= |s| && AllLetters(s[a..e][..k])
    ensures forall m :: a <= m < a + k ==> IsAsciiLetter(s[m])
  {
    forall m | a <= m < a + k ensures IsAsciiLetter(s[m]) { assert s[m] == s[a..e][..k][m - a]; }
  }

  /** The positional form of a reference: `$`? at `i`, letters `[a, b)`, `$`? at `b`, row number `[c, e)`. */
  lemma RefEndAt(s: string, i: nat, a: nat, b: nat, c: nat, e: nat, dollars: bool)
    requires i <= a < b < c + 1 && c < e <= |s|
    requires a == (if dollars && s[i] == '$' then i + 1 else i)
    requires forall m :: a <= m < b ==> IsAsciiLetter(s[m])
    requires c == b || (dollars && c == b + 1 && s[b] == '$')
    requires '1' <= s[c] <= '9' && DigitEnd(s, c + 1) == e
    ensures RefEnd(s, i, dollars) == Some(e)
  {
    LetterRunEndAt(s, a, b);
  }

  lemma RefEndComplete(s: string, i: nat, e: nat, dollars: bool, k: nat)
    requires i < e <= |s|
    requires var u := AfterDollar(s[i..e], dollars);
             0 < k < |u| && AllLetters(u[..k])
             && (RowNumber(u[k..]) || (dollars && u[k] == '$' && RowNumber(u[k + 1..])))
    requires EndsRow(s, e)
    ensures RefEnd(s, i, dollars) == Some(e)
  {
    var u := AfterDollar(s[i..e], dollars);
    var a := if dollars && s[i] == '$' then i + 1 else i;
    assert u == s[a..e] by {
      assert s[i..e][0] == s[i];
    }
    var b := a + k;
    assert s[b] == u[k];
    LettersAt(s, a, e, k);
    if RowNumber(u[k..]) {
      assert s[b..e] == u[k..];
      RowNumberAt(s, b, e);
      RefEndAt(s, i, a, b, b, e, dollars);
    } else {
      assert s[b + 1..e] == u[k + 1..];
      RowNumberAt(s, b + 1, e);
      RefEndAt(s, i, a, b, b + 1, e, dollars);
    }
  }

  lemma RefEndFromText(s: string, i: nat, e: nat, dollars: bool)
    requires i < e <= |s| && IsRefText(s[i..e], dollars) && EndsRow(s, e)
    ensures RefEnd(s, i, dollars) == Some(e)
  {
    var u := AfterDollar(s[i..e], dollars);
    if dollars {
      var k :| 0 < k < |u| && AllLetters(u[..k])
        && (RowNumber(u[k..]) || (u[k] == '$' && RowNumber(u[k + 1..])));
      RefEndComplete(s, i, e, dollars, k);
    } else {
      var k :| 0 < k < |u| && AllLetters(u[..k]) && RowNumber(u[k..]);
      RefEndComplete(s, i, e, dollars, k);
    }
  }

  /** `RefEnd` finds exactly the references its grammar describes, with the longest row number. */
  lemma RefEndIff(s: string, i: nat, e: nat, dollars: bool)
    requires i < e <= |s|
    ensures RefEnd(s, i, dollars) == Some(e) <==> IsRefText(s[i..e], dollars) && EndsRow(s, e)
  {
    if RefEnd(s, i, dollars) == Some(e) {
      RefEndSound(s, i, e, dollars);
    } else if IsRefText(s[i..e], dollars) && EndsRow(s, e) {
      RefEndFromText(s, i, e, dollars);
    }
  }

  /**
   * `CELL_REF_REGEX` matches at `i` exactly the text that is letters followed by a
   * row number with no leading zero, with a word boundary on both sides.
   */
  lemma CellRefMatchIff(s: string, i: nat, e: nat)
    requires i < e <= |s|
    ensures CellRefMatch(s, i) == Some(e) <==>
              IsCellRefText(s[i..e]) && Boundary(s, i) && Boundary(s, e)
  {
    RefEndIff(s, i, e, false);
    if IsCellRefText(s[i..e]) && Boundary(s, e) {
      var k :| 0 < k < |s[i..e]| && AllLetters(s[i..e][..k]) && RowNumber(s[i..e][k..]);
      assert IsDigit(s[e - 1]) by { assert s[e - 1] == s[i..e][k..][e - 1 - i - k]; }
      assert EndsRow(s, e);
    }
  }

  /** `s[i..e]` is two references with optional `$` markers joined by the `:` at `j`. */
  predicate IsRangeAt(s: string, i: nat, j: nat, e: nat)
  {
    && i < j < e <= |s| && s[j] == ':'
    && IsAbsRefText(s[i..j]) && EndsRow(s, j)
    && IsAbsRefText(s[j + 1..e]) && EndsRow(s, e)
  }

  /**
   * `CELL_RANGE_REGEX` matches at `i` exactly two references with optional `$`
   * markers joined by `:`, the second with its longest row number.
   */
  lemma RangeMatchIff(s: string, i: nat, e: nat)
    requires i < e <= |s|
    ensures RangeMatch(s, i) == Some(e) <==> exists j :: IsRangeAt(s, i, j, e)
  {
    if RangeMatch(s, i) == Some(e) {
      RangeMatchSound(s, i, e);
    }
    if exists j :: IsRangeAt(s, i, j, e) {
      var j: nat :| IsRangeAt(s, i, j, e);
      RangeMatchComplete(s, i, j, e);
    }
  }

  lemma RangeMatchSound(s: string, i: nat, e: nat)
    requires i < e <= |s| && RangeMatch(s, i) == Some(e)
    ensures IsRangeAt(s, i, RefEnd(s, i, true).value, e)
  {
    RangeMatchEnds(s, i, e);
    RangeAtOfEnds(s, i, RefEnd(s, i, true).value, e);
  }

  /** A range match is a reference, the `:` right after it, and a reference ending at the match's end. */
  lemma RangeMatchEnds(s: string, i: nat, e: nat)
    requires i <= |s| && RangeMatch(s, i) == Some(e)
    ensures var r := RefEnd(s, i, true);
      r.Some? && r.value < |s| && s[r.value] == ':' && RefEnd(s, r.value + 1, true) == Some(e)
  {
  }

  lemma RangeAtOfEnds(s: string, i: nat, j: nat, e: nat)
    requires i <= j < |s| && s[j] == ':'
    requires RefEnd(s, i, true) == Some(j) && RefEnd(s, j + 1, true) == Some(e)
    ensures IsRangeAt(s, i, j, e)
  {
    assert IsAbsRefText(s[j + 1..e]) && EndsRow(s, e) by { RefEndSound(s, j + 1, e, true); }
    assert IsAbsRefText(s[i..j]) && EndsRow(s, j) by { RefEndSound(s, i, j, true); }
  }

  lemma RangeMatchComplete(s: string, i: nat, j: nat, e: nat)
    requires IsRangeAt(s, i, j, e)
    ensures RangeMatch(s, i) == Some(e)
  {
    assert RefEnd(s, i, true) == Some(j) by { RefEndFromText(s, i, j, true); }
    assert RefEnd(s, j + 1, true) == Some(e) by { RefEndFromText(s, j + 1, e, true); }
    RangeMatchOfEnds(s, i, j, e);
  }

  lemma RangeMatchOfEnds(s: string, i: nat, j: nat, e: nat)
    requires i <= j < |s| && s[j] == ':'
    requires RefEnd(s, i, true) == Some(j) && RefEnd(s, j + 1, true) == Some(e)
    ensures RangeMatch(s, i) == Some(e)
  {
  }

  /** `s[i..j]` is a sheet qualifier: a quoted name, or an alphanumeric word starting at a word boundary. */
  predicate IsQualifierAt(s: string, i: nat, j: nat)
    requires i <= j <= |s|
  {
    IsQuotedName(s[i..j]) || (IsAlnumWord(s[i..j]) && Boundary(s, i))
  }

  /** `s[i..e]` is a sheet qualifier, the `!` at `j`, and a cell reference with its longest row number. */
  predicate IsSheetRefAt(s: string, i: nat, j: nat, e: nat)
  {
    && i < j < e <= |s| && s[j] == '!'
    && IsQualifierAt(s, i, j)
    && IsCellRefText(s[j + 1..e]) && EndsRow(s, e)
  }

  lemma QualifierEndSound(s: string, i: nat)
    requires i <= |s| && QualifierEnd(s, i) > i
    ensures IsQualifierAt(s, i, QualifierEnd(s, i))
  {
    var j := QualifierEnd(s, i);
    if s[i] != '\'' {
      assert IsAlnumWord(s[i..j]) by {
        forall m | 0 <= m < j - i ensures IsAlnum(s[i..j][m]) { assert s[i..j][m] == s[i + m]; }
      }
    } else {
      assert IsQuotedName(s[i..j]) by {
        forall m | 0 < m < j - i - 1 ensures s[i..j][m] != '\'' { assert s[i..j][m] == s[i + m]; }
      }
    }
  }

  lemma QualifierEndComplete(s: string, i: nat, j: nat)
    requires i < j < |s| && s[j] == '!' && IsQualifierAt(s, i, j)
    ensures QualifierEnd(s, i) == j
  {
    if IsQuotedName(s[i..j]) {
      assert s[i] == s[i..j][0];
      forall m | i + 1 <= m < j - 1 ensures s[m] != '\'' { assert s[m] == s[i..j][m - i]; }
      assert s[j - 1] == s[i..j][j - 1 - i];
    } else {
      assert s[i] == s[i..j][0];
      forall m | i <= m < j ensures IsAlnum(s[m]) { assert s[m] == s[i..j][m - i]; }
    }
  }

  /**
   * `SHEET_TO_CELL_REF_REGEX` matches at `i` exactly a qualifier (a quoted name, or an
   * alphanumeric word starting at a word boundary), `!`, and a cell reference with
   * its longest row number.
   */
  lemma SheetRefMatchIff(s: string, i: nat, e: nat)
    requires i < e <= |s|
    ensures SheetRefMatch(s, i) == Some(e) <==> exists j :: IsSheetRefAt(s, i, j, e)
  {
    if SheetRefMatch(s, i) == Some(e) {
      SheetRefMatchSound(s, i, e);
    }
    if exists j :: IsSheetRefAt(s, i, j, e) {
      var j: nat :| IsSheetRefAt(s, i, j, e);
      SheetRefMatchComplete(s, i, j, e);
    }
  }

  lemma SheetRefMatchComplete(s: string, i: nat, j: nat, e: nat)
    requires IsSheetRefAt(s, i, j, e)
    ensures SheetRefMatch(s, i) == Some(e)
  {
    assert QualifierEnd(s, i) == j by { QualifierEndComplete(s, i, j); }
    assert RefEnd(s, j + 1, false) == Some(e) by { RefEndFromText(s, j + 1, e, false); }
  }

  lemma SheetRefMatchSound(s: string, i: nat, e: nat)
    requires i < e <= |s| && SheetRefMatch(s, i) == Some(e)
    ensures IsSheetRefAt(s, i, QualifierEnd(s, i), e)
  {
    var j := QualifierEnd(s, i);
    assert j > i && j < |s| && s[j] == '!' && RefEnd(s, j + 1, false) == Some(e);
    assert IsQualifierAt(s, i, j) by { QualifierEndSound(s, i); }
    assert IsCellRefText(s[j + 1..e]) && EndsRow(s, e) by { RefEndSound(s, j + 1, e, false); }
  }

  // ---------------------------------------------------------------------------
  // Whitespace removal outside quoted sheet names.

  /** A character the space-removal pass deletes: whitespace with an even number of quotes after it. */
  predicate Removed(s: string, k: nat)
    requires k < |s|
  {
    IsWhitespace(s[k]) && Quotes(s[k..]) % 2 == 0
  }

  /** The characters of `s` from `i` on that the pass keeps, in order. */
  function KeptFrom(s: string, i: nat): string
    requires i <= |s|
    decreases |s| - i
  {
    if i == |s| then "" else (if Removed(s, i) then "" else [s[i]]) + KeptFrom(s, i + 1)
  }

  /** The text between the tokens of a scan, which is what replacing every token by "" leaves. */
  function Between(pieces: seq<Piece>): string
  {
    if |pieces| == 0 then "" else (if pieces[0].Text? then pieces[0].text else "") + Between(pieces[1..])
  }

  lemma QuotesOfSpaces(s: string, k: nat, j: nat)
    requires k <= j <= |s|
    requires forall m :: k <= m < j ==> IsWhitespace(s[m])
    ensures Quotes(s[k..]) == Quotes(s[j..])
  {
    assert s[k..] == s[k..j] + s[j..];
    CountCharAppend(s[k..j], s[j..], '\'');
    assert '\'' !in s[k..j] by {
      forall m | 0 <= m < j - k ensures s[k..j][m] != '\'' { assert IsWhitespace(s[k + m]); }
    }
    CountCharAbsent(s[k..j], '\'');
  }

  /** A whitespace run that the look-ahead accepts is removed character by character. */
  lemma {:induction false} KeptSkipsRun(s: string, k: nat, j: nat)
    requires k <= j <= |s|
    requires forall m :: k <= m < j ==> IsWhitespace(s[m])
    requires Quotes(s[j..]) % 2 == 0
    ensures KeptFrom(s, k) == KeptFrom(s, j)
    decreases j - k
  {
    if k < j {
      QuotesOfSpaces(s, k, j);
      KeptSkipsRun(s, k + 1, j);
    }
  }

  lemma {:induction false} SpaceScanKeeps(s: string, i: nat)
    requires i <= |s|
    ensures Between(ScanFrom(SpacePattern, s, i)) == KeptFrom(s, i)
    decreases |s| - i
  {
    if i < |s| {
      var pieces := ScanFrom(SpacePattern, s, i);
      var j := SpaceEnd(s, i);
      match SpaceMatch(s, i)
      case Some(e) =>
        assert pieces == [Token(s[i..e])] + ScanFrom(SpacePattern, s, e);
        assert pieces[1..] == ScanFrom(SpacePattern, s, e);
        SpaceScanKeeps(s, e);
        KeptSkipsRun(s, i, e);
      case None =>
        assert pieces == [Text([s[i]])] + ScanFrom(SpacePattern, s, i + 1);
        assert pieces[1..] == ScanFrom(SpacePattern, s, i + 1);
        SpaceScanKeeps(s, i + 1);
        if IsWhitespace(s[i]) {
          QuotesOfSpaces(s, i, j);
        }
    }
  }

  /**
   * `s.replace(SPACE_REMOVAL_REGEX, "")` deletes exactly the whitespace characters
   * followed by an even number of single quotes, that is, those outside a quoted
   * sheet name, and keeps every other character in order.
   */
  lemma SpaceRemovalKeeps(s: string)
    ensures Between(Scan(SpacePattern, s)) == KeptFrom(s, 0)
  {
    SpaceScanKeeps(s, 0);
  }

  // ---------------------------------------------------------------------------
  // Texts a pattern does not match at all.

  /** The pieces of a scan that finds nothing: one `Text` per character. */
  function Chars(t: string): (pieces: seq<Piece>)
    ensures |pieces| == |t|
  {
    if |t| == 0 then [] else [Text([t[0]])] + Chars(t[1..])
  }

  lemma {:induction false} ScanWithNoMatch(ends: seq<Option<nat>>, s: string, i: nat)
    requires MatchEnds(ends, s) && i <= |s|
    requires forall k :: i <= k < |s| ==> ends[k].None?
    ensures ScanWith(ends, s, i) == Chars(s[i..])
    decreases |s| - i
  {
    if i < |s| {
      ScanWithNoMatch(ends, s, i + 1);
      assert s[i..][1..] == s[i + 1..];
    }
  }

  /** Where the pattern matches at no position, the scan is the text's characters, one by one. */
  lemma ScanFromNoMatch(p: Pattern, s: string, i: nat)
    requires i <= |s|
    requires forall k :: i <= k < |s| ==> MatchAt(p, s, k).None?
    ensures ScanFrom(p, s, i) == Chars(s[i..])
  {
    ScanWithNoMatch(EndsOf(p, s), s, i);
  }

  /** A text without whitespace loses nothing to the space-removal pass. */
  lemma {:induction false} KeptAll(s: string, i: nat)
    requires i <= |s|
    requires forall k :: 0 <= k < |s| ==> !IsWhitespace(s[k])
    ensures KeptFrom(s, i) == s[i..]
    decreases |s| - i
  {
    if i < |s| {
      KeptAll(s, i + 1);
      assert s[i..] == [s[i]] + s[i + 1..];
    }
  }
}

/** The scan's tokens and the pattern's matches. */
module ScanFacts {
  import opened Options
  import opened Constants

  /**
   * The scan finds the leftmost matches, one after the other: every token is a
   * match of the pattern where it stands, and every other character is one where
   * no match starts.
   */
  lemma ScanMatches(p: Pattern, s: string, k: nat)
    requires k < |Scan(p, s)|
    ensures var pieces := Scan(p, s);
            var start := PieceStart(pieces, 0, k);
            && start + |pieces[k].text| <= |s|
            && (pieces[k].Token? ==> MatchAt(p, s, start) == Some(start + |pieces[k].text|))
            && (pieces[k].Text? ==> MatchAt(p, s, start) == None)
  {
    var ends := EndsOf(p, s);
    assert Scan(p, s) == ScanWith(ends, s, 0);
    EndsMatches(p, s, ends, k);
  }

  lemma EndsMatches(p: Pattern, s: string, ends: seq<Option<nat>>, k: nat)
    requires ends == EndsOf(p, s) && k < |ScanWith(ends, s, 0)|
    ensures var pieces := ScanWith(ends, s, 0);
            var start := PieceStart(pieces, 0, k);
            && start + |pieces[k].text| <= |s|
            && (pieces[k].Token? ==> MatchAt(p, s, start) == Some(start + |pieces[k].text|))
            && (pieces[k].Text? ==> MatchAt(p, s, start) == None)
  {
    var pieces := ScanWith(ends, s, 0);
    var start, len := PieceStart(pieces, 0, k), |pieces[k].text|;
    assert start + len <= |s|
        && (pieces[k].Token? ==> ends[start] == Some(start + len))
        && (pieces[k].Text? ==> ends[start] == None) by {
      ScanWithMatches(ends, s, 0, k);
    }
    assert ends[start] == MatchAt(p, s, start) by { EndsAt(p, s, start); }
  }
}
