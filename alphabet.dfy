/**
 * The address codec `expr2xy` / `xy2expr` the rewriter imports from `./alphabet`.
 * That module is not part of this model; the codec is defined here on top of
 * `getColumnName`: a cell `(x, y)` (column, row, from 0) is written as the column
 * name followed by the 1-based row number, and the parser accepts exactly the
 * reference grammar `\$?[A-Za-z]+\$?[1-9][0-9]*`, ignoring `$` and letter case.
 * Text of any other shape is refused (`None`), standing for `expr2xy` throwing.
 */
module Alphabet {
  import opened JsString
  import opened Options
  import opened Constants
  import opened CellInjection

  /** `xy2expr(x, y)`. */
  function Xy2Expr(x: nat, y: nat): string
  {
    CellName(y, x)
  }

  /** The three cut points of a reference: letters `[a, b)`, row number `[c, |t|)`. */
  function RefCuts(t: string): (r: (nat, nat, nat))
    ensures r.0 <= r.1 <= r.2 <= |t|
  {
    var a := if |t| > 0 && t[0] == '$' then 1 else 0;
    var b := LetterRunEnd(t, a);
    var c := if b < |t| && t[b] == '$' then b + 1 else b;
    (a, b, c)
  }

  /** `expr2xy(t)`: the column and row a reference names, or `None` when `t` is not a reference. */
  function Expr2Xy(t: string): (r: Option<(nat, nat)>)
    ensures r.Some? <==> RefEnd(t, 0, true) == Some(|t|)
  {
    if RefEnd(t, 0, true) != Some(|t|) then None
    else
      var (a, b, c) := RefCuts(t);
      var letters := Upper(t[a..b]);
      var digits := t[c..];
      assert AllDigits(digits) && digits[0] != '0' by {
        forall m | 0 <= m < |digits| ensures IsDigit(digits[m]) { assert digits[m] == t[c + m]; }
      }
      DigitsValuePositive(digits);
      ColumnIndexOfNonEmpty(letters);
      Some((ColumnIndexOf(letters), DigitsValue(digits) - 1))
  }

  lemma ColumnIndexOfNonEmpty(name: string)
    requires |name| > 0 && forall k :: 0 <= k < |name| ==> IsUpperLetter(name[k])
    ensures ColumnIndexOf(name) >= 0
  {
  }

  /** The column letters of a reference, upper-cased. */
  function ColumnPart(t: string): (name: string)
    ensures forall k :: 0 <= k < |name| ==> IsUpperLetter(name[k])
  {
    var (a, b, c) := RefCuts(t);
    assert forall k :: 0 <= k < b - a ==> IsAsciiLetter(t[a..b][k]) by {
      forall k | 0 <= k < b - a ensures IsAsciiLetter(t[a..b][k]) { assert t[a..b][k] == t[a + k]; }
    }
    Upper(t[a..b])
  }

  /** The row digits of a reference. */
  function RowPart(t: string): string
  {
    var (a, b, c) := RefCuts(t);
    t[c..]
  }

  lemma Expr2XyValue(t: string)
    requires Expr2Xy(t).Some?
    ensures AllDigits(RowPart(t)) && Expr2Xy(t).value == (ColumnIndexOf(ColumnPart(t)), DigitsValue(RowPart(t)) - 1)
  {
  }

  /** The text `xy2expr` writes is a reference whose parts are the column name and the row number. */
  lemma Xy2ExprParts(x: nat, y: nat)
    ensures var t := Xy2Expr(x, y);
      RefEnd(t, 0, true) == Some(|t|) && ColumnPart(t) == ColumnNameOf(x) && RowPart(t) == NatToString(y + 1)
  {
    Xy2ExprSplit(x, y);
    RefOfParts(ColumnNameOf(x), NatToString(y + 1), true);
  }

  lemma Xy2ExprSplit(x: nat, y: nat)
    ensures Xy2Expr(x, y) == ColumnNameOf(x) + NatToString(y + 1)
    ensures |ColumnNameOf(x)| > 0 && NatToString(y + 1)[0] != '0'
  {
  }

  /** Upper-case letters followed by a row number form a whole reference, cut between the two. */
  lemma RefOfParts(col: string, row: string, dollars: bool)
    requires |col| > 0 && forall k :: 0 <= k < |col| ==> IsUpperLetter(col[k])
    requires |row| > 0 && row[0] != '0' && forall k :: 0 <= k < |row| ==> IsDigit(row[k])
    ensures var t := col + row;
      && RefEnd(t, 0, dollars) == Some(|t|) && RefCuts(t) == (0, |col|, |col|)
      && ColumnPart(t) == col && RowPart(t) == row
  {
    var t, n := col + row, |col|;
    forall m | 0 <= m < n ensures IsAsciiLetter(t[m]) { assert t[m] == col[m]; }
    assert t[n] == row[0];
    LetterRunEndAt(t, 0, n);
    assert t[n..|t|] == row;
    assert RowNumber(row) by { assert forall k :: 0 <= k < |row| - 1 ==> row[1..][k] == row[k + 1]; }
    RowNumberAt(t, n, |t|);
    RefEndAt(t, 0, 0, n, n, |t|, dollars);
    assert t[0..n] == col;
    UpperOfUpper(col);
  }

  lemma UpperOfUpper(s: string)
    requires forall m :: 0 <= m < |s| ==> IsUpperLetter(s[m])
    ensures Upper(s) == s
  {
  }

  /** Writing a cell then reading it back gives the cell. */
  lemma Expr2XyOfXy2Expr(x: nat, y: nat)
    ensures Expr2Xy(Xy2Expr(x, y)) == Some((x, y))
  {
    var t := Xy2Expr(x, y);
    Xy2ExprParts(x, y);
    Expr2XyValue(t);
    ColumnIndexOfName(x);
    DigitsValueOfNat(y + 1);
  }

  /** Every spelling of column `name`: each letter in its own case or in lower case. */
  function CaseVariants(name: string): (r: set<string>)
    ensures name in r
  {
    if |name| == 0 then {""}
    else
      var last := name[|name| - 1];
      var front := CaseVariants(name[..|name| - 1]);
      assert name == name[..|name| - 1] + [last];
      set v, l | v in front && l in {last, LowerChar(last)} :: v + [l]
  }

  /** Every text naming cell `(x, y)`: optional `$` markers and any letter case. */
  function RefVariants(x: nat, y: nat): set<string>
  {
    Spellings(CaseVariants(ColumnNameOf(x)), NatToString(y + 1))
  }

  /** A column spelling from `names` and the row number `row`, each optionally led by `$`. */
  function Spellings(names: set<string>, row: string): set<string>
  {
    (set v | v in names :: v + row) + (set v | v in names :: "$" + v + row)
    + (set v | v in names :: v + "$" + row) + (set v | v in names :: "$" + v + "$" + row)
  }

  lemma {:induction false} InCaseVariants(t: string, name: string)
    requires Upper(t) == name && forall k :: 0 <= k < |name| ==> IsUpperLetter(name[k])
    ensures t in CaseVariants(name)
    decreases |t|
  {
    if |t| > 0 {
      var p := t[..|t| - 1];
      assert Upper(p) == name[..|name| - 1];
      InCaseVariants(p, name[..|name| - 1]);
      var l := t[|t| - 1];
      assert UpperChar(l) == name[|name| - 1];
      assert l == name[|name| - 1] || l == LowerChar(name[|name| - 1]);
      assert t == p + [l];
    }
  }

  /** A reference is its optional `$`, its letters, its optional `$` and its row number. */
  lemma RefSpelled(t: string)
    requires Expr2Xy(t).Some?
    ensures var (a, b, c) := RefCuts(t);
      t == (if a == 1 then "$" else "") + t[a..b] + (if c == b then "" else "$") + t[c..]
  {
    var (a, b, c) := RefCuts(t);
    assert a == 1 ==> t[..a] == "$";
    assert c == b + 1 ==> t[b..c] == "$";
    assert t == t[..a] + t[a..b] + t[b..c] + t[c..];
  }

  /** A spelling of the column name, with or without each `$`, followed by the row number is one of the spellings. */
  lemma InSpellings(t: string, v: string, names: set<string>, row: string, lead: bool, mid: bool)
    requires v in names
    requires t == (if lead then "$" else "") + v + (if mid then "$" else "") + row
    ensures t in Spellings(names, row)
  {
    if !lead && !mid {
      assert t == v + row;
      assert t in (set w | w in names :: w + row);
    } else if !lead {
      assert t == v + "$" + row;
      assert t in (set w | w in names :: w + "$" + row);
    } else if !mid {
      assert t == "$" + v + row;
      assert t in (set w | w in names :: "$" + w + row);
    } else {
      assert t == "$" + v + "$" + row;
      assert t in (set w | w in names :: "$" + w + "$" + row);
    }
  }

  /** Every text the parser reads as `(x, y)` is one of the finitely many spellings of `(x, y)`. */
  lemma Expr2XyVariant(t: string)
    requires Expr2Xy(t).Some?
    ensures t in RefVariants(Expr2Xy(t).value.0, Expr2Xy(t).value.1)
  {
    var (x, y) := Expr2Xy(t).value;
    var (a, b, c) := RefCuts(t);
    var names, row := CaseVariants(ColumnNameOf(x)), NatToString(y + 1);
    assert t[a..b] in names by {
      Expr2XyValue(t);
      ColumnNameOfIndex(ColumnPart(t));
      InCaseVariants(t[a..b], ColumnNameOf(x));
    }
    assert row == t[c..] by {
      Expr2XyValue(t);
      var digits := RowPart(t);
      assert digits[0] != '0' && |digits| > 0 by { assert digits[0] == t[c]; }
      NatToStringOfDigits(digits);
      DigitsValuePositive(digits);
    }
    assert t == (if a == 1 then "$" else "") + t[a..b] + (if c == b then "" else "$") + row by { RefSpelled(t); }
    InSpellings(t, t[a..b], names, row, a == 1, c != b);
  }

  /** A cell name is letters then digits. */
  lemma Xy2ExprAlnum(x: nat, y: nat)
    ensures forall k :: 0 <= k < |Xy2Expr(x, y)| ==> IsAlnum(Xy2Expr(x, y)[k])
  {
    Xy2ExprSplit(x, y);
    var col, row := ColumnNameOf(x), NatToString(y + 1);
    forall k | 0 <= k < |col + row| ensures IsAlnum((col + row)[k]) {
      if k < |col| { assert (col + row)[k] == col[k]; } else { assert (col + row)[k] == row[k - |col|]; }
    }
  }

  /** The text `xy2expr` writes is, on its own, one whole `CELL_REF_REGEX` match. */
  lemma Xy2ExprIsCellRef(x: nat, y: nat)
    ensures CellRefMatch(Xy2Expr(x, y), 0) == Some(|Xy2Expr(x, y)|)
  {
    Xy2ExprSplit(x, y);
    CellRefOfParts(ColumnNameOf(x), NatToString(y + 1));
  }

  lemma CellRefOfParts(col: string, row: string)
    requires |col| > 0 && forall k :: 0 <= k < |col| ==> IsUpperLetter(col[k])
    requires |row| > 0 && row[0] != '0' && forall k :: 0 <= k < |row| ==> IsDigit(row[k])
    ensures CellRefMatch(col + row, 0) == Some(|col + row|)
  {
    var t := col + row;
    RefOfParts(col, row, false);
    assert Boundary(t, 0) by { assert t[0] == col[0]; }
    assert Boundary(t, |t|) by { assert t[|t| - 1] == row[|row| - 1]; }
  }
}
