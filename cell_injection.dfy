/**
 * Column names, cell names and the splicing of a clicked cell or range into the
 * formula being typed (src/algorithm/cellInjection.js).
 */
module CellInjection {
  import opened JsString

  /**
   * The name of column `c`: bijective base 26, "A".."Z", "AA".."ZZ", "AAA"...
   * Each step takes the letter of `c % 26` and continues with `floor(c / 26) - 1`;
   * a negative index has the empty name.
   */
  function ColumnNameOf(c: int): (name: string)
    ensures |name| > 0 <==> c >= 0
    ensures forall k :: 0 <= k < |name| ==> IsUpperLetter(name[k])
    decreases c
  {
    if c < 0 then "" else ColumnNameOf(c / 26 - 1) + [('A' as int + c % 26) as char]
  }

  /** `getColumnName`: the while loop that prepends one letter per step. */
  method GetColumnName(columnIndex: int) returns (columnName: string)
    ensures columnName == ColumnNameOf(columnIndex)
  {
    columnName := "";
    var index := columnIndex;
    while index >= 0
      invariant ColumnNameOf(index) + columnName == ColumnNameOf(columnIndex)
      decreases index
    {
      columnName := [('A' as int + index % 26) as char] + columnName;
      index := index / 26 - 1;
    }
  }

  /** The column index a name of upper-case letters stands for; -1 for the empty name. */
  function ColumnIndexOf(name: string): (c: int)
    requires forall k :: 0 <= k < |name| ==> IsUpperLetter(name[k])
    ensures c >= -1
  {
    if |name| == 0 then -1
    else
      var q := ColumnIndexOf(name[..|name| - 1]) + 1;
      assert IsUpperLetter(name[|name| - 1]);
      q * 26 + (name[|name| - 1] as int - 'A' as int)
  }

  /** Naming a column then reading the name back gives the column. */
  lemma {:induction false} ColumnIndexOfName(c: int)
    requires c >= -1
    ensures ColumnIndexOf(ColumnNameOf(c)) == c
    decreases c + 1
  {
    if c >= 0 {
      var name := ColumnNameOf(c);
      ColumnIndexOfName(c / 26 - 1);
      assert name[..|name| - 1] == ColumnNameOf(c / 26 - 1);
    }
  }

  /** Every string of upper-case letters is the name of exactly one column. */
  lemma {:induction false} ColumnNameOfIndex(name: string)
    requires forall k :: 0 <= k < |name| ==> IsUpperLetter(name[k])
    ensures ColumnNameOf(ColumnIndexOf(name)) == name
    decreases |name|
  {
    if |name| > 0 {
      var p := name[..|name| - 1];
      ColumnNameOfIndex(p);
      var c := ColumnIndexOf(name);
      ColumnIndexOfLast(name);
      ColumnNameOfLast(c);
      assert name == p + [name[|name| - 1]];
    }
  }

  /** The quotient and remainder of a name's index give back its prefix's index and its last letter. */
  lemma ColumnIndexOfLast(name: string)
    requires |name| > 0 && forall k :: 0 <= k < |name| ==> IsUpperLetter(name[k])
    ensures var c := ColumnIndexOf(name);
            && c >= 0
            && c / 26 - 1 == ColumnIndexOf(name[..|name| - 1])
            && ('A' as int + c % 26) as char == name[|name| - 1]
  {
    var d := name[|name| - 1] as int - 'A' as int;
    assert IsUpperLetter(name[|name| - 1]);
    DivMod26(ColumnIndexOf(name[..|name| - 1]) + 1, d);
  }

  /** A column's name is the name of the column its quotient stands for, then one letter. */
  lemma ColumnNameOfLast(c: int)
    requires c >= 0
    ensures ColumnNameOf(c) == ColumnNameOf(c / 26 - 1) + [('A' as int + c % 26) as char]
  {
  }

  lemma DivMod26(q: int, d: int)
    requires 0 <= d < 26
    ensures (q * 26 + d) / 26 == q && (q * 26 + d) % 26 == d
  {
  }

  /** Different columns have different names. */
  lemma ColumnNameInjective(c: int, d: int)
    requires c >= -1 && d >= -1 && ColumnNameOf(c) == ColumnNameOf(d)
    ensures c == d
  {
    ColumnIndexOfName(c);
    ColumnIndexOfName(d);
  }

  lemma ColumnNameExamples()
    ensures ColumnNameOf(0) == "A" && ColumnNameOf(25) == "Z"
    ensures ColumnNameOf(26) == "AA" && ColumnNameOf(701) == "ZZ" && ColumnNameOf(702) == "AAA"
  {
  }

  /** `getCellName(rowIndex, columnIndex)`: the column's letters, then the 1-based row number. */
  function CellName(rowIndex: int, columnIndex: int): string
  {
    ColumnNameOf(columnIndex) + IntToString(rowIndex + 1)
  }

  /** A cell name reads back as its column letters and its 1-based row digits. */
  lemma CellNameParts(rowIndex: nat, columnIndex: nat)
    ensures var name := CellName(rowIndex, columnIndex);
            var n := |ColumnNameOf(columnIndex)|;
            && 0 < n < |name|
            && name[..n] == ColumnNameOf(columnIndex)
            && ColumnIndexOf(name[..n]) == columnIndex
            && AllDigits(name[n..]) && name[n] != '0'
            && DigitsValue(name[n..]) == rowIndex + 1
  {
    var name := CellName(rowIndex, columnIndex);
    var n := |ColumnNameOf(columnIndex)|;
    assert name[..n] == ColumnNameOf(columnIndex);
    assert name[n..] == NatToString(rowIndex + 1);
    ColumnIndexOfName(columnIndex);
    DigitsValueOfNat(rowIndex + 1);
  }

  /** The operators `constructFormula` looks for, in the order it looks for them. */
  const Operators: string := "+-*/=,("

  /** The fold `maxIndex = Math.max(maxIndex, string.lastIndexOf(operator))` over `ops`. */
  function MaxLastIndex(s: string, ops: string): (r: int)
    ensures -1 <= r < |s|
  {
    if |ops| == 0 then -1
    else
      var r := MaxLastIndex(s, ops[1..]);
      var l := LastIndexOfChar(s, ops[0]);
      if l > r then l else r
  }

  /** `r` is the position of the last character of `s` that is one of `ops`, or -1 if there is none. */
  predicate IsLastOf(s: string, ops: string, r: int)
  {
    && -1 <= r < |s|
    && (r == -1 <==> forall k :: 0 <= k < |s| ==> s[k] !in ops)
    && (r != -1 ==> s[r] in ops && forall k :: r < k < |s| ==> s[k] !in ops)
  }

  /** The fold finds the last operator of the text. */
  lemma {:induction false} MaxLastIndexIsLast(s: string, ops: string)
    ensures IsLastOf(s, ops, MaxLastIndex(s, ops))
  {
    if |ops| > 0 {
      MaxLastIndexIsLast(s, ops[1..]);
      var l := LastIndexOfChar(s, ops[0]);
      if l != -1 {
        forall k | l < k < |s| ensures s[k] != ops[0] {
          assert s[k] == s[l + 1..][k - l - 1];
        }
      }
    }
  }

  /** The last position of `s` holding one of `ops`, found scanning backwards; -1 if none. */
  function LastIndexIn(s: string, ops: string): (r: int)
    ensures -1 <= r < |s|
  {
    if |s| == 0 then -1
    else if s[|s| - 1] in ops then |s| - 1
    else LastIndexIn(s[..|s| - 1], ops)
  }

  lemma {:induction false} LastIndexInIsLast(s: string, ops: string)
    ensures IsLastOf(s, ops, LastIndexIn(s, ops))
  {
    if |s| > 0 && s[|s| - 1] !in ops {
      var p := s[..|s| - 1];
      LastIndexInIsLast(p, ops);
      forall k | 0 <= k < |p| ensures s[k] == p[k] { }
    }
  }

  /** The `lastIndexOf` fold of `constructFormula` and the backward scan find the same position. */
  lemma MaxLastIndexIsLastIndexIn(s: string, ops: string)
    ensures MaxLastIndex(s, ops) == LastIndexIn(s, ops)
  {
    MaxLastIndexIsLast(s, ops);
    LastIndexInIsLast(s, ops);
    IsLastOfUnique(s, ops, MaxLastIndex(s, ops), LastIndexIn(s, ops));
  }

  /** At most one position is the last operator. */
  lemma IsLastOfUnique(s: string, ops: string, r1: int, r2: int)
    requires IsLastOf(s, ops, r1) && IsLastOf(s, ops, r2)
    ensures r1 == r2
  {
  }

  /** `s.endsWith(c)` for a one-character suffix. */
  predicate EndsWithChar(s: string, c: char) { |s| > 0 && s[|s| - 1] == c }

  predicate NoOperator(cell: string) { forall k :: 0 <= k < |cell| ==> cell[k] !in Operators }

  /** The last operator of `s`, or 0 when it has none: the cut `constructFormula` makes for a range. */
  function LastOperatorCut(s: string): nat
  {
    var m := LastIndexIn(s, Operators);
    if m < 0 then 0 else m
  }

  /** The text a dragged range is put after: `s` without its closing `)`-group or `(`. */
  function RangeBase(s: string): string
  {
    if EndsWithChar(s, ')') then s[..LastOperatorCut(s)]
    else if EndsWithChar(s, '(') then s[..|s| - 1]
    else s
  }

  /**
   * `constructFormula(string, cell, isRange, append)`: splices the reference `cell`
   * (a clicked cell or a dragged range) into the formula text `s` being typed.
   */
  function ConstructFormula(s: string, cell: string, isRange: bool, append: bool): (r: string)
    ensures s == "" ==> r == s
    ensures EndsWithChar(s, ')') && !isRange ==> r == s
  {
    if |s| == 0 then s
    else
      var lastChar := s[|s| - 1];
      // the `lastIndexOf` fold over the operators; see MaxLastIndexIsLastIndexIn
      var maxIndex := LastIndexIn(s, Operators);
      if EndsWithChar(s, ')') && isRange then
        s[..if maxIndex < 0 then 0 else maxIndex] + "(" + cell + ")"
      else if EndsWithChar(s, ')') then s
      else if append then s + (if lastChar in Operators then "" else ",") + cell
      else if isRange then
        if EndsWithChar(s, '(') then s + cell + ")" else s + "(" + cell + ")"
      else if |s| - 1 == maxIndex then s + cell
      else if maxIndex >= 0 then s[..maxIndex + 1] + cell
      else s
  }

  /**
   * A dragged range always ends up parenthesised, right after the text before the
   * last operator, whatever the formula ended with.
   */
  lemma RangeIsParenthesised(s: string, range: string)
    requires |s| > 0
    ensures ConstructFormula(s, range, true, false) == RangeBase(s) + "(" + range + ")"
  {
    if !EndsWithChar(s, ')') && EndsWithChar(s, '(') {
      assert s == s[..|s| - 1] + "(";
    }
  }

  /**
   * A clicked cell either leaves the formula alone (it is empty, ends in `)` or has no
   * operator) or replaces everything after the last operator; the text up to and
   * including that operator is kept.
   */
  lemma ClickReplacesAfterLastOperator(s: string, cell: string)
    ensures var r := ConstructFormula(s, cell, false, false);
            var m := LastIndexIn(s, Operators);
            if |s| == 0 || EndsWithChar(s, ')') || m < 0 then r == s
            else r == s[..m + 1] + cell
  {
    var m := LastIndexIn(s, Operators);
    var r := ConstructFormula(s, cell, false, false);
    if |s| > 0 && !EndsWithChar(s, ')') {
      ClickCuts(s, cell, m);
    }
  }

  /** A click on a formula not ending in `)`: everything after the last operator is replaced. */
  lemma ClickCuts(s: string, cell: string, m: int)
    requires |s| > 0 && !EndsWithChar(s, ')') && m == LastIndexIn(s, Operators)
    ensures m >= 0 ==> ConstructFormula(s, cell, false, false) == s[..m + 1] + cell
    ensures m < 0 ==> ConstructFormula(s, cell, false, false) == s
  {
    if m == |s| - 1 {
      assert s[..m + 1] == s;
    }
  }

  /** Appending always joins the new reference to the formula, with a comma unless an operator ends it. */
  lemma AppendKeepsFormula(s: string, cell: string)
    requires |s| > 0 && !EndsWithChar(s, ')')
    ensures var r := ConstructFormula(s, cell, false, true);
            StartsWith(r, s) && EndsWith(r, cell)
            && (|r| == |s| + |cell| <==> s[|s| - 1] in Operators)
  {
  }

  /** Cutting the text just after its last operator keeps that operator last. */
  lemma LastIndexInPrefix(s: string, m: int)
    requires 0 <= m && m == LastIndexIn(s, Operators)
    ensures LastIndexIn(s[..m + 1], Operators) == m
  {
    var p := s[..m + 1];
    LastIndexInIsLast(s, Operators);
    LastIndexInIsLast(p, Operators);
    assert p[m] == s[m];
    assert IsLastOf(p, Operators, m);
    IsLastOfUnique(p, Operators, m, LastIndexIn(p, Operators));
  }

  /** Appending text without operators does not move the last operator. */
  lemma LastIndexInAppend(p: string, c: string)
    requires NoOperator(c)
    ensures LastIndexIn(p + c, Operators) == LastIndexIn(p, Operators)
  {
    var q := p + c;
    var b := LastIndexIn(p, Operators);
    LastIndexInIsLast(p, Operators);
    LastIndexInIsLast(q, Operators);
    forall k | b < k < |q| ensures q[k] !in Operators {
      if k < |p| { assert q[k] == p[k]; } else { assert q[k] == c[k - |p|]; }
    }
    if b != -1 { assert q[b] == p[b]; }
    assert IsLastOf(q, Operators, b);
    IsLastOfUnique(q, Operators, b, LastIndexIn(q, Operators));
  }

  /** An opening parenthesis at the end is the last operator. */
  lemma LastIndexInOpenParen(p: string)
    ensures LastIndexIn(p + "(", Operators) == |p|
  {
    var q := p + "(";
    LastIndexInIsLast(q, Operators);
    assert q[|p|] == Operators[6];
    assert IsLastOf(q, Operators, |p|);
    IsLastOfUnique(q, Operators, |p|, LastIndexIn(q, Operators));
  }

  /**
   * Clicking one cell and then another leaves the formula as if only the second had
   * been clicked: the second click replaces the reference the first one inserted.
   */
  lemma SecondClickReplacesFirst(s: string, c1: string, c2: string)
    requires |c1| > 0 && NoOperator(c1) && !EndsWithChar(c1, ')')
    ensures ConstructFormula(ConstructFormula(s, c1, false, false), c2, false, false)
         == ConstructFormula(s, c2, false, false)
  {
    var t := ConstructFormula(s, c1, false, false);
    ClickReplacesAfterLastOperator(s, c1);
    ClickReplacesAfterLastOperator(s, c2);
    var m := LastIndexIn(s, Operators);
    if |s| > 0 && !EndsWithChar(s, ')') && m >= 0 {
      var p := s[..m + 1];
      LastIndexInPrefix(s, m);
      LastIndexInAppend(p, c1);
      ClickReplacesAfterLastOperator(t, c2);
      assert t[|t| - 1] == c1[|c1| - 1];
      assert t[..m + 1] == p;
    }
  }

  /**
   * Dragging one range and then another leaves the formula as if only the second
   * range had been dragged: the second replaces the parenthesised first one.
   */
  lemma SecondRangeReplacesFirst(s: string, r1: string, r2: string)
    requires NoOperator(r1)
    ensures ConstructFormula(ConstructFormula(s, r1, true, false), r2, true, false)
         == ConstructFormula(s, r2, true, false)
  {
    if |s| > 0 {
      var p := RangeBase(s);
      RangeIsParenthesised(s, r1);
      RangeIsParenthesised(s, r2);
      var q := p + "(";
      var t := q + (r1 + ")");
      assert ConstructFormula(s, r1, true, false) == t;
      assert NoOperator(r1 + ")") by {
        forall k | 0 <= k < |r1 + ")"| ensures (r1 + ")")[k] !in Operators {
          if k < |r1| { assert (r1 + ")")[k] == r1[k]; }
        }
      }
      LastIndexInAppend(q, r1 + ")");
      LastIndexInOpenParen(p);
      RangeIsParenthesised(t, r2);
      assert t[..|p|] == p;
    }
  }
}
