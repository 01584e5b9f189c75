/**
 * The parts of `DataProxy` (src/core/data_proxy.js) that keep a sheet's tables:
 * style interning, clipboard text splitting, the extent of the data, the
 * autofilter row maps, the column settings moved by column insertion and
 * deletion, and the substitution of dynamic variables in a cell's text.
 */
module DataProxy {
  import opened Options
  import opened JsString
  import opened Constants
  import opened Variables

  // ---------------------------------------------------------------------------
  // resolveDynamicVariable

  /** What `resolveDynamicVariable` returns: the text and the two flags. */
  datatype Resolution = Resolution(text: string, resolved: bool, resolving: bool)

  /**
   * The entry of variable token `m`: under its own name, else under its lower-cased
   * name (the token holds no whitespace, so replacing spaces by `_` changes nothing).
   */
  function LookupVariable(variables: map<string, Entry>, m: string): (r: Option<Entry>)
    ensures r.Some? <==> m in variables || Lower(m) in variables
    ensures m in variables ==> r == Some(variables[m])
  {
    if m in variables then Some(variables[m])
    else if Lower(m) in variables then Some(variables[Lower(m)])
    else None
  }

  /**
   * The flags the callback sets for token `m`: a known variable's own `resolved`
   * and not resolving; with trigger `#`, an unknown token naming an Excel error
   * counts as resolved; any other unknown token as resolving.
   */
  function TokenFlags(trigger: char, variables: map<string, Entry>, excelErrors: set<string>, m: string): (bool, bool)
  {
    match LookupVariable(variables, m)
    case Some(e) => (e.resolved, false)
    case None =>
      if trigger == '#' && |m| > 0 && m[1..] in excelErrors then (true, false) else (false, true)
  }

  /** What the callback returns for token `m`: the variable's value, or the token itself. */
  function TokenText(variables: map<string, Entry>, m: string): string
  {
    match LookupVariable(variables, m)
    case Some(e) => e.value
    case None => m
  }

  /** The replace pass over the scanned pieces, the flags carried from token to token. */
  function ResolvePieces(trigger: char, variables: map<string, Entry>, excelErrors: set<string>,
                         pieces: seq<Piece>, acc: Resolution): Resolution
  {
    if |pieces| == 0 then acc
    else
      var next :=
        if pieces[0].Text? then acc.(text := acc.text + pieces[0].text)
        else
          var (resolved, resolving) := TokenFlags(trigger, variables, excelErrors, pieces[0].text);
          Resolution(acc.text + TokenText(variables, pieces[0].text), resolved, resolving);
      ResolvePieces(trigger, variables, excelErrors, pieces[1..], next)
  }

  /**
   * `resolveDynamicVariable(text)` with the sheet's trigger, variable table and
   * the list of Excel error names as parameters: without a trigger, or when the
   * text does not contain it, the text comes back with `resolved` false and
   * `resolving` true.
   */
  function ResolveDynamicVariable(trigger: Option<char>, variables: map<string, Entry>, excelErrors: set<string>,
                                  text: string): (r: Resolution)
    ensures trigger.Some? && trigger.value in text ==>
      r.text == Glue(Replaced(variables, Scan(DynamicVariablePattern(trigger.value), text)))
    ensures trigger.None? || trigger.value !in text ==> r.text == text && !r.resolved && r.resolving
  {
    if trigger.Some? && trigger.value in text then
      var pieces := Scan(DynamicVariablePattern(trigger.value), text);
      ResolvePiecesText(trigger.value, variables, excelErrors, pieces, Resolution("", false, true));
      ResolvePieces(trigger.value, variables, excelErrors, pieces, Resolution("", false, true))
    else Resolution(text, false, true)
  }

  /** The strings glued together, in order. */
  function Glue(parts: seq<string>): string
  {
    if |parts| == 0 then "" else parts[0] + Glue(parts[1..])
  }

  /**
   * What each scanned piece becomes: plain text and unknown tokens are kept as they
   * are, a known token becomes its variable's value.
   */
  function Replaced(variables: map<string, Entry>, pieces: seq<Piece>): (parts: seq<string>)
    ensures |parts| == |pieces|
    ensures forall k :: 0 <= k < |pieces| && pieces[k].Text? ==> parts[k] == pieces[k].text
    ensures forall k :: 0 <= k < |pieces| && pieces[k].Token? ==>
      match LookupVariable(variables, pieces[k].text)
      case None => parts[k] == pieces[k].text
      case Some(e) => parts[k] == e.value
  {
    seq(|pieces|, k requires 0 <= k < |pieces| => if pieces[k].Token? then TokenText(variables, pieces[k].text) else pieces[k].text)
  }

  lemma ReplacedCons(variables: map<string, Entry>, pieces: seq<Piece>)
    requires |pieces| > 0
    ensures Replaced(variables, pieces)[0] == if pieces[0].Token? then TokenText(variables, pieces[0].text) else pieces[0].text
    ensures Replaced(variables, pieces[1..]) == Replaced(variables, pieces)[1..]
  {
  }

  /** The replace pass appends, piece by piece, what each piece becomes. */
  lemma {:induction false} ResolvePiecesText(trigger: char, variables: map<string, Entry>, excelErrors: set<string>,
                                             pieces: seq<Piece>, acc: Resolution)
    ensures ResolvePieces(trigger, variables, excelErrors, pieces, acc).text == acc.text + Glue(Replaced(variables, pieces))
    decreases |pieces|
  {
    if |pieces| > 0 {
      var next :=
        if pieces[0].Text? then acc.(text := acc.text + pieces[0].text)
        else
          var (resolved, resolving) := TokenFlags(trigger, variables, excelErrors, pieces[0].text);
          Resolution(acc.text + TokenText(variables, pieces[0].text), resolved, resolving);
      var parts := Replaced(variables, pieces);
      ReplacedCons(variables, pieces);
      assert next.text == acc.text + parts[0];
      ResolvePiecesText(trigger, variables, excelErrors, pieces[1..], next);
      assert acc.text + parts[0] + Glue(parts[1..]) == acc.text + (parts[0] + Glue(parts[1..]));
    }
  }

  /** The last token of a scan, if any. */
  function LastToken(pieces: seq<Piece>): (r: Option<string>)
    ensures r.Some? <==> exists k :: 0 <= k < |pieces| && pieces[k].Token?
  {
    if |pieces| == 0 then None
    else if pieces[|pieces| - 1].Token? then Some(pieces[|pieces| - 1].text)
    else
      var r := LastToken(pieces[..|pieces| - 1]);
      assert forall k :: 0 <= k < |pieces| - 1 ==> pieces[..|pieces| - 1][k] == pieces[k];
      r
  }

  /** The flags are those of the last token, or the starting ones when there is no token. */
  lemma {:induction false} ResolvePiecesFlags(trigger: char, variables: map<string, Entry>, excelErrors: set<string>,
                                              pieces: seq<Piece>, acc: Resolution)
    ensures var r := ResolvePieces(trigger, variables, excelErrors, pieces, acc);
      (r.resolved, r.resolving) ==
        match LastToken(pieces)
        case None => (acc.resolved, acc.resolving)
        case Some(m) => TokenFlags(trigger, variables, excelErrors, m)
    decreases |pieces|
  {
    if |pieces| > 0 {
      var next :=
        if pieces[0].Text? then acc.(text := acc.text + pieces[0].text)
        else
          var (resolved, resolving) := TokenFlags(trigger, variables, excelErrors, pieces[0].text);
          Resolution(acc.text + TokenText(variables, pieces[0].text), resolved, resolving);
      ResolvePiecesFlags(trigger, variables, excelErrors, pieces[1..], next);
      LastTokenCons(pieces);
    }
  }

  lemma LastTokenCons(pieces: seq<Piece>)
    requires |pieces| > 0
    ensures LastToken(pieces) ==
      if LastToken(pieces[1..]).Some? then LastToken(pieces[1..])
      else if pieces[0].Token? then Some(pieces[0].text) else None
  {
    var rest := pieces[1..];
    if LastToken(rest).None? {
      assert forall k :: 1 <= k < |pieces| ==> !pieces[k].Token? by {
        forall k | 1 <= k < |pieces| ensures !pieces[k].Token? { assert pieces[k] == rest[k - 1]; }
      }
      if pieces[0].Text? {
        assert forall k :: 0 <= k < |pieces| ==> !pieces[k].Token?;
      } else if |pieces| > 1 {
        LastTokenCons(pieces[..|pieces| - 1]);
        assert pieces[..|pieces| - 1][1..] == rest[..|rest| - 1];
      }
    } else if |rest| > 0 && !rest[|rest| - 1].Token? {
      LastTokenCons(pieces[..|pieces| - 1]);
      assert pieces[..|pieces| - 1][1..] == rest[..|rest| - 1];
    }
  }

  /** Unknown tokens are kept as they are: with no known variable, the text after the pass is the text before it. */
  lemma {:induction false} ResolvePiecesKeepsUnknown(trigger: char, variables: map<string, Entry>, excelErrors: set<string>,
                                                     pieces: seq<Piece>, acc: Resolution)
    requires forall k :: 0 <= k < |pieces| && pieces[k].Token? ==> LookupVariable(variables, pieces[k].text).None?
    ensures ResolvePieces(trigger, variables, excelErrors, pieces, acc).text == acc.text + Concat(pieces)
    decreases |pieces|
  {
    if |pieces| > 0 {
      var next :=
        if pieces[0].Text? then acc.(text := acc.text + pieces[0].text)
        else
          var (resolved, resolving) := TokenFlags(trigger, variables, excelErrors, pieces[0].text);
          Resolution(acc.text + TokenText(variables, pieces[0].text), resolved, resolving);
      assert next.text == acc.text + pieces[0].text;
      ResolvePiecesKeepsUnknown(trigger, variables, excelErrors, pieces[1..], next);
      assert acc.text + pieces[0].text + Concat(pieces[1..]) == acc.text + (pieces[0].text + Concat(pieces[1..]));
    }
  }

  /** A text none of whose tokens names a known variable comes back unchanged. */
  lemma ResolveKeepsUnknown(trigger: Option<char>, variables: map<string, Entry>, excelErrors: set<string>, text: string)
    requires trigger.Some? ==>
      var pieces := Scan(DynamicVariablePattern(trigger.value), text);
      forall k :: 0 <= k < |pieces| && pieces[k].Token? ==> LookupVariable(variables, pieces[k].text).None?
    ensures ResolveDynamicVariable(trigger, variables, excelErrors, text).text == text
  {
    if trigger.Some? && trigger.value in text {
      var pieces := Scan(DynamicVariablePattern(trigger.value), text);
      ResolvePiecesKeepsUnknown(trigger.value, variables, excelErrors, pieces, Resolution("", false, true));
      ScanConcat(DynamicVariablePattern(trigger.value), text);
    }
  }

  /** The flags of `resolveDynamicVariable` are those of the last trigger token of the text. */
  lemma ResolveFlags(trigger: Option<char>, variables: map<string, Entry>, excelErrors: set<string>, text: string)
    ensures var r := ResolveDynamicVariable(trigger, variables, excelErrors, text);
      (r.resolved, r.resolving) ==
        if trigger.None? || trigger.value !in text then (false, true)
        else match LastToken(Scan(DynamicVariablePattern(trigger.value), text))
          case None => (false, true)
          case Some(m) => TokenFlags(trigger.value, variables, excelErrors, m)
  {
    if trigger.Some? && trigger.value in text {
      ResolvePiecesFlags(trigger.value, variables, excelErrors, Scan(DynamicVariablePattern(trigger.value), text),
                         Resolution("", false, true));
    }
  }

  /**
   * A text that is one variable token (the trigger and no whitespace) becomes the
   * variable's value when the name, or its lower-cased form, is in the table.
   */
  lemma ResolveSingleToken(c: char, variables: map<string, Entry>, excelErrors: set<string>, name: string)
    requires |name| > 0 && name[0] == c
    requires forall k :: 0 <= k < |name| ==> !IsWhitespace(name[k])
    requires LookupVariable(variables, name).Some?
    ensures var e := LookupVariable(variables, name).value;
      ResolveDynamicVariable(Some(c), variables, excelErrors, name) == Resolution(e.value, e.resolved, false)
  {
    assert NonSpaceEnd(name, 1) == |name|;
    assert MatchAt(DynamicVariablePattern(c), name, 0) == Some(|name|);
    assert name[0..|name|] == name;
    assert ScanFrom(DynamicVariablePattern(c), name, |name|) == [];
    assert Scan(DynamicVariablePattern(c), name) == [Token(name)];
    assert c in name by { assert name[0] == c; }
    var e := LookupVariable(variables, name).value;
    assert [Token(name)][1..] == [];
    assert ResolvePieces(c, variables, excelErrors, [Token(name)], Resolution("", false, true))
      == ResolvePieces(c, variables, excelErrors, [], Resolution(e.value, e.resolved, false));
  }

  // ---------------------------------------------------------------------------
  // addStyle

  /** The index of the first occurrence of `s`. */
  function FirstIndex<T(==)>(xs: seq<T>, s: T): (i: nat)
    requires s in xs
    ensures i < |xs| && xs[i] == s && s !in xs[..i]
  {
    if xs[0] == s then 0
    else
      var i := FirstIndex(xs[1..], s);
      assert xs[..i + 1] == [xs[0]] + xs[1..][..i];
      i + 1
  }

  /** No element occurs twice. */
  predicate Distinct<T(==)>(xs: seq<T>)
  {
    forall i, j :: 0 <= i < j < |xs| ==> xs[i] != xs[j]
  }

  /** The style table after interning `s`, and the index `s` is found at. */
  function Interned<Style(==)>(styles: seq<Style>, s: Style): (r: (seq<Style>, nat))
    ensures r.1 < |r.0| && r.0[r.1] == s
    ensures s in styles ==> r.0 == styles && s !in styles[..r.1]
    ensures s !in styles ==> r.0 == styles + [s] && r.1 == |styles|
  {
    if s in styles then (styles, FirstIndex(styles, s)) else (styles + [s], |styles|)
  }

  /** Interning keeps a table free of duplicates. */
  lemma InternedDistinct<Style>(styles: seq<Style>, s: Style)
    requires Distinct(styles)
    ensures Distinct(Interned(styles, s).0)
  {
    var r := Interned(styles, s).0;
    if s !in styles {
      forall i, j | 0 <= i < j < |r| ensures r[i] != r[j] {
        if j == |styles| { assert r[i] == styles[i]; }
      }
    }
  }

  /** Interning the same style again finds it where it was put, and changes nothing. */
  lemma InternedTwice<Style>(styles: seq<Style>, s: Style)
    ensures var (after, i) := Interned(styles, s); Interned(after, s) == (after, i)
  {
    var (after, i) := Interned(styles, s);
    if s !in styles {
      assert s !in after[..i] by { assert after[..i] == styles; }
    }
  }

  // ---------------------------------------------------------------------------
  // parseClipboardContent

  /** The table of a clipboard text: one row per line, each line cut at its tabs. */
  function ClipboardRows(content: string): (rows: seq<seq<string>>)
    ensures |rows| == |Split(content, '\n')|
  {
    var lines := Split(content, '\n');
    seq(|lines|, i requires 0 <= i < |lines| => Split(lines[i], '\t'))
  }

  /** The rows joined with tabs and the lines joined with newlines give back the clipboard text. */
  lemma ClipboardRoundTrip(content: string)
    ensures var rows := ClipboardRows(content);
      Join(seq(|rows|, i requires 0 <= i < |rows| => Join(rows[i], '\t')), '\n') == content
  {
    var rows := ClipboardRows(content);
    var lines := Split(content, '\n');
    forall i | 0 <= i < |rows| ensures Join(rows[i], '\t') == lines[i] { JoinSplit(lines[i], '\t'); }
    assert seq(|rows|, i requires 0 <= i < |rows| => Join(rows[i], '\t')) == lines;
    JoinSplit(content, '\n');
  }

  /** There is one more row than there are newlines, and no cell holds a tab or a newline. */
  lemma ClipboardShape(content: string)
    ensures var rows := ClipboardRows(content);
      && |rows| == CountChar(content, '\n') + 1
      && forall i, j :: 0 <= i < |rows| && 0 <= j < |rows[i]| ==> '\t' !in rows[i][j] && '\n' !in rows[i][j]
  {
    SplitLength(content, '\n');
    var lines := Split(content, '\n');
    forall i, j | 0 <= i < |lines| && 0 <= j < |Split(lines[i], '\t')|
      ensures '\n' !in Split(lines[i], '\t')[j]
    {
      SplitPartsWithin(lines[i], '\t', j);
    }
  }

  /** Every part of a split is a piece of the text. */
  lemma {:induction false} SplitPartsWithin(s: string, c: char, j: nat)
    requires j < |Split(s, c)|
    ensures forall d :: d in Split(s, c)[j] ==> d in s
    decreases |s|
  {
    var i := IndexOfChar(s, c);
    if i != -1 && j > 0 {
      SplitPartsWithin(s[i + 1..], c, j - 1);
    }
  }

  // ---------------------------------------------------------------------------
  // The sheet's tables.

  /** Autofilter sort order: none, `asc`, `desc`, or another word, which sorts nothing. */
  datatype SortOrder = Unsorted | Asc | Desc | OtherOrder

  /**
   * The fields of `DataProxy` this model covers. `Style` is a cell style,
   * compared as `helper.equals` does; `Column` is what `cols._` holds for a column.
   */
  class Sheet<Style(==), Column> {
    /** `styles`. */
    var styles: seq<Style>
    /** `rows._`, by row index: the column indexes of the cells the row holds. */
    var rows: map<nat, set<nat>>
    /** `cols._`, by column index. */
    var columns: map<nat, Column>
    /** `cols.len`. */
    var columnCount: int
    /** `includeRowSet`, `exceptRowSet`, `sortedRowMap`, `unsortedRowMap`. */
    var includeRowSet: set<int>
    var exceptRowSet: set<int>
    var sortedRowMap: map<int, int>
    var unsortedRowMap: map<int, int>

    /** `addStyle(nstyle)`: the index of the first equal style, the table growing only when there is none. */
    method AddStyle(nstyle: Style) returns (index: nat)
      modifies this`styles
      ensures (styles, index) == Interned(old(styles), nstyle)
    {
      var i := 0;
      while i < |styles|
        invariant 0 <= i <= |styles|
        invariant nstyle !in styles[..i]
      {
        if styles[i] == nstyle {
          return i;
        }
        assert styles[..i + 1] == styles[..i] + [styles[i]];
        i := i + 1;
      }
      assert styles[..i] == styles;
      styles := styles + [nstyle];
      index := |styles| - 1;
    }

    /** `parseClipboardContent(text)`. */
    method ParseClipboardContent(clipboardContent: string) returns (parsedData: seq<seq<string>>)
      ensures parsedData == ClipboardRows(clipboardContent)
    {
      var rowTexts := Split(clipboardContent, '\n');
      parsedData := [];
      var i := 0;
      while i < |rowTexts|
        invariant 0 <= i <= |rowTexts|
        invariant parsedData == ClipboardRows(clipboardContent)[..i]
      {
        parsedData := parsedData + [Split(rowTexts[i], '\t')];
        i := i + 1;
      }
    }

    /**
     * `getMaximumAvailableIndexes()`: the highest row holding a cell and the
     * highest column index of any cell, each 0 when there is none.
     */
    method GetMaximumAvailableIndexes() returns (maxRow: nat, maxCol: nat)
      ensures maxRow == 0 || (maxRow in rows && rows[maxRow] != {})
      ensures forall r :: r in rows && rows[r] != {} ==> r <= maxRow
      ensures maxCol == 0 || exists r :: r in rows && maxCol in rows[r]
      ensures forall r, c :: r in rows && c in rows[r] ==> c <= maxCol
    {
      maxRow, maxCol := 0, 0;
      var pending := rows.Keys;
      while pending != {}
        invariant pending <= rows.Keys
        invariant maxRow == 0 || (maxRow in rows && rows[maxRow] != {})
        invariant forall r :: r in rows && r !in pending && rows[r] != {} ==> r <= maxRow
        invariant maxCol == 0 || exists r :: r in rows && maxCol in rows[r]
        invariant forall r, c :: r in rows && r !in pending && c in rows[r] ==> c <= maxCol
        decreases pending
      {
        var rowKey :| rowKey in pending;
        var cells := rows[rowKey];
        if maxRow <= rowKey && cells != {} {
          maxRow := rowKey;
        }
        var cellKeys := cells;
        while cellKeys != {}
          invariant cellKeys <= cells
          invariant maxCol == 0 || exists r :: r in rows && maxCol in rows[r]
          invariant forall r, c :: r in rows && r !in pending && c in rows[r] ==> c <= maxCol
          invariant forall c :: c in cells && c !in cellKeys ==> c <= maxCol
          decreases cellKeys
        {
          var cellKey :| cellKey in cellKeys;
          if maxCol <= cellKey {
            maxCol := cellKey;
          }
          cellKeys := cellKeys - {cellKey};
        }
        pending := pending - {rowKey};
      }
    }

    /**
     * The column branch of `insert("column")` for the selected columns `sci..eci`:
     * `cols.len` grows by their count `n`, and the settings are walked from the
     * highest column down, each at `sci` or beyond moving up by `n`.
     */
    method InsertColumns(sci: nat, eci: nat)
      requires sci <= eci
      modifies this`columns, this`columnCount
      ensures columnCount == old(columnCount) + (eci - sci + 1)
      ensures ShiftedUp(old(columns), columns, sci, eci - sci + 1)
    {
      var n := eci - sci + 1;
      columnCount := columnCount + n;
      ghost var original := columns;
      var pending := columns.Keys;
      while pending != {}
        invariant pending <= original.Keys
        invariant PendingBelow(pending, original)
        invariant columnCount == old(columnCount) + n
        invariant InsertWalk(original, columns, sci, n, pending)
        decreases pending
      {
        HighestExists(pending);
        var col :| col in pending && forall j :: j in pending ==> j <= col;
        HighestStep(pending, original, col);
        InsertStep(original, columns, sci, n, pending, col);
        if col >= sci {
          columns := columns[col + n := columns[col]] - {col};
        }
        pending := pending - {col};
      }
      InsertWalkDone(original, columns, sci, n);
    }

    /**
     * The column branch of `delete("column")` for the selected columns `sci..eci`:
     * `cols.len` shrinks by their count, and the settings are walked from the
     * lowest column up, those in `sci..eci` dropped and those beyond moved down.
     */
    method DeleteColumns(sci: nat, eci: nat)
      requires sci <= eci
      modifies this`columns, this`columnCount
      ensures columnCount == old(columnCount) - (eci - sci + 1)
      ensures ShiftedDown(old(columns), columns, sci, eci)
    {
      var size := eci - sci + 1;
      columnCount := columnCount - size;
      ghost var original := columns;
      var pending := columns.Keys;
      while pending != {}
        invariant pending <= original.Keys
        invariant PendingAbove(pending, original)
        invariant columnCount == old(columnCount) - size
        invariant DeleteWalk(original, columns, sci, eci, pending)
        decreases pending
      {
        LowestExists(pending);
        var col :| col in pending && forall j :: j in pending ==> col <= j;
        DeleteIteration(original, columns, sci, eci, pending, col);
        ghost var prev := columns;
        if col > eci {
          var to: nat := col - size;
          columns := columns[to := columns[col]] - {col};
          DeleteSteppedMoves(prev, sci, eci, col, to, columns);
        } else if col >= sci {
          columns := columns - {col};
        }
        pending := pending - {col};
      }
      DeleteWalkDone(original, columns, sci, eci);
    }

    /**
     * `resetAutoFilter()` given whether the filter is active, the filtered rows
     * (in their set's order), the rows filtered out, and the sort order: the rows
     * are sorted numerically and each filtered row is mapped to the row shown in
     * its place, and back.
     */
    method ResetAutoFilter(active: bool, fset: seq<int>, rset: set<int>, order: SortOrder)
      requires Distinct(fset)
      modifies this`includeRowSet, this`exceptRowSet, this`sortedRowMap, this`unsortedRowMap
      ensures !active ==> includeRowSet == old(includeRowSet) && exceptRowSet == old(exceptRowSet)
                          && sortedRowMap == old(sortedRowMap) && unsortedRowMap == old(unsortedRowMap)
      ensures active ==> includeRowSet == (set r | r in fset) && exceptRowSet == rset
                         && sortedRowMap == ZipMap(fset, Arranged(fset, order))
                         && unsortedRowMap == ZipMap(Arranged(fset, order), fset)
    {
      if !active {
        return;
      }
      var fary := Arranged(fset, order);
      var oldAry := fset;
      ArrangedIsPermutation(fset, order);
      includeRowSet := set r | r in fset;
      exceptRowSet := rset;
      sortedRowMap := map[];
      unsortedRowMap := map[];
      var index := 0;
      while index < |fary|
        invariant 0 <= index <= |fary|
        invariant includeRowSet == (set r | r in fset) && exceptRowSet == rset
        invariant sortedRowMap == ZipMap(oldAry[..index], fary[..index])
        invariant unsortedRowMap == ZipMap(fary[..index], oldAry[..index])
      {
        ZipMapSnoc(oldAry, fary, index);
        ZipMapSnoc(fary, oldAry, index);
        sortedRowMap := sortedRowMap[oldAry[index] := fary[index]];
        unsortedRowMap := unsortedRowMap[fary[index] := oldAry[index]];
        index := index + 1;
      }
      assert oldAry[..index] == oldAry && fary[..index] == fary;
    }
  }

  // ---------------------------------------------------------------------------
  // Column settings moved by column insertion and deletion.

  /**
   * `after` is `cols._` after inserting `n` columns at `at`: a setting before
   * `at` stays, one at `at` or beyond moves up by `n`, and there is no other.
   */
  ghost predicate ShiftedUp<V>(before: map<nat, V>, after: map<nat, V>, at: nat, n: nat)
  {
    && (forall j :: j in before && j < at ==> j in after && after[j] == before[j])
    && (forall j :: j in before && j >= at ==> j + n in after && after[j + n] == before[j])
    && (forall k :: k in after ==> (k < at && k in before) || k >= at + n)
    && (forall k :: k in after && k >= at + n ==> k - n in before)
  }

  /**
   * `after` is `cols._` after deleting columns `sci..eci`: a setting before
   * `sci` stays, one after `eci` moves down by their count, and there is no other.
   */
  ghost predicate ShiftedDown<V>(before: map<nat, V>, after: map<nat, V>, sci: nat, eci: nat)
    requires sci <= eci
  {
    && (forall j :: j in before && j < sci ==> j in after && after[j] == before[j])
    && (forall j :: j in before && j > eci ==> j - (eci - sci + 1) in after && after[j - (eci - sci + 1)] == before[j])
    && (forall k :: k in after ==> (k < sci && k in before) || k >= sci)
    && (forall k :: k in after && k >= sci ==> k + (eci - sci + 1) in before)
  }

  /** The settings part-way through the insertion walk, the columns still `pending` not yet moved. */
  ghost predicate InsertWalk<V>(before: map<nat, V>, now: map<nat, V>, at: nat, n: nat, pending: set<nat>)
  {
    InsertKept(before, now, at, n, pending) && InsertBounded(before, now, at, n, pending)
  }

  /** Every original setting is at its old index (pending or below the point) or moved up by `n`. */
  ghost predicate InsertKept<V>(before: map<nat, V>, now: map<nat, V>, at: nat, n: nat, pending: set<nat>)
  {
    && (forall j :: j in before && (j in pending || j < at) ==> j in now && now[j] == before[j])
    && (forall j :: j in before && j !in pending && j >= at ==> j + n in now && now[j + n] == before[j])
  }

  /** Every current index comes from one of the two cases of `InsertKept`. */
  ghost predicate InsertBounded<V>(before: map<nat, V>, now: map<nat, V>, at: nat, n: nat, pending: set<nat>)
  {
    && (forall k :: k in now ==> (k in before && (k in pending || k < at)) || k >= at + n)
    && (forall k :: k in now && k >= at + n && !(k in before && k in pending) ==> k - n in before && k - n !in pending)
  }

  /** The settings part-way through the deletion walk. */
  ghost predicate DeleteWalk<V>(before: map<nat, V>, now: map<nat, V>, sci: nat, eci: nat, pending: set<nat>)
    requires sci <= eci
  {
    && (forall j :: j in before && (j in pending || j < sci) ==> j in now && now[j] == before[j])
    && (forall j :: j in before && j !in pending && j > eci ==> j - (eci - sci + 1) in now && now[j - (eci - sci + 1)] == before[j])
    && (forall k :: k in now ==> (k in before && (k in pending || k < sci)) || k >= sci)
    && (forall k :: k in now && k >= sci && !(k in before && k in pending)
                   ==> k + (eci - sci + 1) in before && k + (eci - sci + 1) !in pending)
  }

  /** Every column still pending lies below every column already handled. */
  ghost predicate PendingBelow<V>(pending: set<nat>, before: map<nat, V>)
  {
    forall j, k :: j in pending && k in before && k !in pending ==> j < k
  }

  /** Every column still pending lies above every column already handled. */
  ghost predicate PendingAbove<V>(pending: set<nat>, before: map<nat, V>)
  {
    forall j, k :: j in pending && k in before && k !in pending ==> k < j
  }

  /** Handling the highest pending column keeps the pending ones below the handled ones. */
  lemma HighestStep<V>(pending: set<nat>, before: map<nat, V>, col: nat)
    requires PendingBelow(pending, before) && col in pending && forall j :: j in pending ==> j <= col
    ensures forall k :: k in before && k !in pending ==> col < k
    ensures PendingBelow(pending - {col}, before)
  {
  }

  /** Handling the lowest pending column keeps the pending ones above the handled ones. */
  lemma LowestStep<V>(pending: set<nat>, before: map<nat, V>, col: nat)
    requires PendingAbove(pending, before) && col in pending && forall j :: j in pending ==> col <= j
    ensures forall k :: k in before && k !in pending ==> k < col
    ensures PendingAbove(pending - {col}, before)
  {
  }

  /** The highest element of a non-empty set. */
  ghost function Highest(s: set<nat>): (k: nat)
    requires s != {}
    ensures k in s && forall j :: j in s ==> j <= k
    decreases |s|
  {
    var x :| x in s;
    if s == {x} then x
    else
      var k := Highest(s - {x});
      assert forall j :: j in s ==> j == x || j in s - {x};
      if x > k then x else k
  }

  /** The lowest element of a non-empty set. */
  ghost function Lowest(s: set<nat>): (k: nat)
    requires s != {}
    ensures k in s && forall j :: j in s ==> k <= j
    decreases |s|
  {
    var x :| x in s;
    if s == {x} then x
    else
      var k := Lowest(s - {x});
      assert forall j :: j in s ==> j == x || j in s - {x};
      if x < k then x else k
  }

  lemma HighestExists(s: set<nat>)
    requires s != {}
    ensures exists k :: k in s && forall j :: j in s ==> j <= k
  {
    var k := Highest(s);
    assert k in s && forall j :: j in s ==> j <= k;
  }

  lemma LowestExists(s: set<nat>)
    requires s != {}
    ensures exists k :: k in s && forall j :: j in s ==> k <= j
  {
    var k := Lowest(s);
    assert k in s && forall j :: j in s ==> k <= j;
  }

  /** Once nothing is pending, the insertion walk has shifted every setting. */
  lemma InsertWalkDone<V>(before: map<nat, V>, now: map<nat, V>, at: nat, n: nat)
    requires InsertWalk(before, now, at, n, {})
    ensures ShiftedUp(before, now, at, n)
  {
  }

  /** Once nothing is pending, the deletion walk has shifted every setting. */
  lemma DeleteWalkDone<V>(before: map<nat, V>, now: map<nat, V>, sci: nat, eci: nat)
    requires sci <= eci && DeleteWalk(before, now, sci, eci, {})
    ensures ShiftedDown(before, now, sci, eci)
  {
  }

  /** Moving the highest pending column overwrites nothing still needed. */
  lemma InsertStep<V>(before: map<nat, V>, now: map<nat, V>, at: nat, n: nat, pending: set<nat>, col: nat)
    requires n > 0 && col in pending && pending <= before.Keys
    requires forall j :: j in pending ==> j <= col
    requires forall k :: k in before && k !in pending ==> col < k
    requires InsertWalk(before, now, at, n, pending)
    ensures col in now
    ensures InsertWalk(before, if col >= at then now[col + n := now[col]] - {col} else now, at, n, pending - {col})
  {
    if col >= at {
      InsertStepMoves(before, now, at, n, pending, col, now[col + n := now[col]] - {col});
    }
  }

  /** The highest pending column at or past the insertion point moves up by `n`. */
  lemma InsertStepMoves<V>(before: map<nat, V>, now: map<nat, V>, at: nat, n: nat, pending: set<nat>, col: nat,
                           next: map<nat, V>)
    requires n > 0 && col in pending && pending <= before.Keys && col >= at
    requires forall j :: j in pending ==> j <= col
    requires forall k :: k in before && k !in pending ==> col < k
    requires InsertWalk(before, now, at, n, pending)
    requires col in now && next == now[col + n := now[col]] - {col}
    ensures InsertWalk(before, next, at, n, pending - {col})
  {
    MovedEntry(now, col, col + n, next);
    InsertStepKeeps(before, now, at, n, pending, col, next);
    InsertStepBounds(before, now, at, n, pending, col, next);
  }

  /** The map with the entry at `from` moved to `to`, point by point. */
  lemma MovedEntry<V>(now: map<nat, V>, from: nat, to: nat, next: map<nat, V>)
    requires from in now && from != to && next == now[to := now[from]] - {from}
    ensures to in next && next[to] == now[from] && from !in next
    ensures forall k :: k != to && k != from ==> (k in next <==> k in now)
    ensures forall k :: k != to && k != from && k in now ==> next[k] == now[k]
  {
  }

  /** After the move, every setting is where the walk says it is. */
  lemma InsertStepKeeps<V>(before: map<nat, V>, now: map<nat, V>, at: nat, n: nat, pending: set<nat>, col: nat,
                           next: map<nat, V>)
    requires n > 0 && col in pending && pending <= before.Keys && col >= at
    requires forall j :: j in pending ==> j <= col
    requires forall k :: k in before && k !in pending ==> col < k
    requires InsertWalk(before, now, at, n, pending)
    requires col + n in next && next[col + n] == now[col] && col !in next
    requires forall k :: k != col + n && k != col ==> (k in next <==> k in now)
    requires forall k :: k != col + n && k != col && k in now ==> next[k] == now[k]
    ensures InsertKept(before, next, at, n, pending - {col})
  {
    var rest := pending - {col};
    forall j | j in before && (j in rest || j < at) ensures j in next && next[j] == before[j] {
      assert j < col;
    }
    forall j | j in before && j !in rest && j >= at ensures j + n in next && next[j + n] == before[j] {
      if j != col {
        assert col < j;
      }
    }
  }

  /** After the move, every key of the settings is accounted for. */
  lemma InsertStepBounds<V>(before: map<nat, V>, now: map<nat, V>, at: nat, n: nat, pending: set<nat>, col: nat,
                            next: map<nat, V>)
    requires n > 0 && col in pending && pending <= before.Keys && col >= at
    requires forall j :: j in pending ==> j <= col
    requires forall k :: k in before && k !in pending ==> col < k
    requires InsertWalk(before, now, at, n, pending)
    requires col + n in next && next[col + n] == now[col] && col !in next
    requires forall k :: k != col + n && k != col ==> (k in next <==> k in now)
    requires forall k :: k != col + n && k != col && k in now ==> next[k] == now[k]
    ensures InsertBounded(before, next, at, n, pending - {col})
  {
    var rest := pending - {col};
    forall k | k in next
      ensures (k in before && (k in rest || k < at)) || (k >= at + n && k - n in before && k - n !in rest)
    {
      if k != col + n {
        assert k in now && k != col;
      }
    }
  }

  /** One turn of the deletion loop on its lowest pending column keeps the loop's invariants. */
  lemma DeleteIteration<V>(before: map<nat, V>, now: map<nat, V>, sci: nat, eci: nat, pending: set<nat>, col: nat)
    requires sci <= eci && col in pending && pending <= before.Keys
    requires forall j :: j in pending ==> col <= j
    requires PendingAbove(pending, before) && DeleteWalk(before, now, sci, eci, pending)
    ensures col in now && PendingAbove(pending - {col}, before)
    ensures DeleteWalk(before, DeleteStepped(now, sci, eci, col), sci, eci, pending - {col})
  {
    LowestStep(pending, before, col);
    DeleteStep(before, now, sci, eci, pending, col);
  }

  /** Handling the lowest pending column: where it moves to has already been handled. */
  lemma DeleteStep<V>(before: map<nat, V>, now: map<nat, V>, sci: nat, eci: nat, pending: set<nat>, col: nat)
    requires sci <= eci && col in pending && pending <= before.Keys
    requires forall j :: j in pending ==> col <= j
    requires forall k :: k in before && k !in pending ==> k < col
    requires DeleteWalk(before, now, sci, eci, pending)
    ensures col in now
    ensures DeleteWalk(before, DeleteStepped(now, sci, eci, col), sci, eci, pending - {col})
  {
    if col > eci {
      DeleteStepMoves(before, now, sci, eci, pending, col);
    } else if col >= sci {
      DeleteStepDrops(before, now, sci, eci, pending, col);
    }
  }

  /** A pending column after the deleted ones moves down onto a free place. */
  lemma DeleteStepMoves<V>(before: map<nat, V>, now: map<nat, V>, sci: nat, eci: nat, pending: set<nat>, col: nat)
    requires sci <= eci < col && col in pending && pending <= before.Keys
    requires forall j :: j in pending ==> col <= j
    requires forall k :: k in before && k !in pending ==> k < col
    requires DeleteWalk(before, now, sci, eci, pending)
    ensures col in now
    ensures DeleteWalk(before, now[col - (eci - sci + 1) := now[col]] - {col}, sci, eci, pending - {col})
  {
    MovesKeep(before, now, sci, eci, pending, col);
    MovesShift(before, now, sci, eci, pending, col);
    MovesAccounted(before, now, sci, eci, pending, col);
  }

  lemma MovesKeep<V>(before: map<nat, V>, now: map<nat, V>, sci: nat, eci: nat, pending: set<nat>, col: nat)
    requires sci <= eci < col && col in pending && pending <= before.Keys
    requires forall j :: j in pending ==> col <= j
    requires forall k :: k in before && k !in pending ==> k < col
    requires DeleteWalk(before, now, sci, eci, pending)
    ensures var next := now[col - (eci - sci + 1) := now[col]] - {col};
      forall j :: j in before && (j in pending - {col} || j < sci) ==> j in next && next[j] == before[j]
  {
    var next := now[col - (eci - sci + 1) := now[col]] - {col};
    forall j | j in before && (j in pending - {col} || j < sci) ensures j in next && next[j] == before[j] {
      assert j != col && j != col - (eci - sci + 1);
    }
  }

  lemma MovesShift<V>(before: map<nat, V>, now: map<nat, V>, sci: nat, eci: nat, pending: set<nat>, col: nat)
    requires sci <= eci < col && col in pending && pending <= before.Keys
    requires forall j :: j in pending ==> col <= j
    requires forall k :: k in before && k !in pending ==> k < col
    requires DeleteWalk(before, now, sci, eci, pending)
    ensures var next := now[col - (eci - sci + 1) := now[col]] - {col};
      forall j :: j in before && j !in pending - {col} && j > eci ==> j - (eci - sci + 1) in next && next[j - (eci - sci + 1)] == before[j]
  {
    var size := eci - sci + 1;
    var next := now[col - size := now[col]] - {col};
    forall j | j in before && j !in pending - {col} && j > eci ensures j - size in next && next[j - size] == before[j] {
      if j != col {
        assert j < col;
      }
    }
  }

  lemma MovesAccounted<V>(before: map<nat, V>, now: map<nat, V>, sci: nat, eci: nat, pending: set<nat>, col: nat)
    requires sci <= eci < col && col in pending && pending <= before.Keys
    requires forall j :: j in pending ==> col <= j
    requires forall k :: k in before && k !in pending ==> k < col
    requires DeleteWalk(before, now, sci, eci, pending)
    ensures var next := now[col - (eci - sci + 1) := now[col]] - {col};
      && (forall k :: k in next ==> (k in before && (k in pending - {col} || k < sci)) || k >= sci)
      && (forall k :: k in next && k >= sci && !(k in before && k in pending - {col})
                     ==> k + (eci - sci + 1) in before && k + (eci - sci + 1) !in pending - {col})
  {
    var size := eci - sci + 1;
    var rest := pending - {col};
    var next := now[col - size := now[col]] - {col};
    forall k | k in next ensures (k in before && (k in rest || k < sci)) || k >= sci {
      assert k != col;
    }
    forall k | k in next && k >= sci && !(k in before && k in rest) ensures k + size in before && k + size !in rest {
      if k != col - size {
        assert k in now && k != col;
      }
    }
  }

  /** A pending column among the deleted ones is dropped. */
  lemma DeleteStepDrops<V>(before: map<nat, V>, now: map<nat, V>, sci: nat, eci: nat, pending: set<nat>, col: nat)
    requires sci <= col <= eci && col in pending && pending <= before.Keys
    requires forall j :: j in pending ==> col <= j
    requires forall k :: k in before && k !in pending ==> k < col
    requires DeleteWalk(before, now, sci, eci, pending)
    ensures col in now
    ensures DeleteWalk(before, now - {col}, sci, eci, pending - {col})
  {
  }

  /** The settings after handling column `col` of a deletion of `sci..eci`. */
  function DeleteStepped<V>(now: map<nat, V>, sci: nat, eci: nat, col: nat): map<nat, V>
    requires sci <= eci && col in now
  {
    if col < sci then now
    else if col > eci then now[col - (eci - sci + 1) := now[col]] - {col}
    else now - {col}
  }

  /** Moving the setting of a column past the deleted ones down by their count is one step of the walk. */
  lemma DeleteSteppedMoves<V>(now: map<nat, V>, sci: nat, eci: nat, col: nat, to: nat, after: map<nat, V>)
    requires sci <= eci && col in now && col > eci && to == col - (eci - sci + 1)
    requires after == now[to := now[col]] - {col}
    ensures after == DeleteStepped(now, sci, eci, col)
  {
  }

  /** Deleting the columns just inserted gives back the settings. */
  lemma DeleteUndoesInsert<V>(m: map<nat, V>, inserted: map<nat, V>, restored: map<nat, V>, at: nat, n: nat)
    requires n > 0
    requires ShiftedUp(m, inserted, at, n) && ShiftedDown(inserted, restored, at, at + n - 1)
    ensures restored == m
  {
    forall k | k in m ensures k in restored && restored[k] == m[k] {
      if k >= at {
        assert k + n in inserted;
      }
    }
    forall k | k in restored ensures k in m {
      if k >= at {
        assert k + n in inserted;
      }
    }
  }

  // ---------------------------------------------------------------------------
  // Autofilter row maps.

  /** `a` comes no later than `b` in the order the comparator gives. */
  predicate Before(a: int, b: int, desc: bool) { if desc then a >= b else a <= b }

  predicate Ordered(xs: seq<int>, desc: bool)
  {
    forall i, j :: 0 <= i < j < |xs| ==> Before(xs[i], xs[j], desc)
  }

  function InsertRow(x: int, xs: seq<int>, desc: bool): (r: seq<int>)
    ensures |r| == |xs| + 1
    ensures multiset(r) == multiset(xs) + multiset{x}
  {
    if |xs| == 0 then [x]
    else if Before(x, xs[0], desc) then [x] + xs
    else
      var rest := InsertRow(x, xs[1..], desc);
      assert xs == [xs[0]] + xs[1..];
      [xs[0]] + rest
  }

  lemma {:induction false} InsertRowOrdered(x: int, xs: seq<int>, desc: bool)
    requires Ordered(xs, desc)
    ensures Ordered(InsertRow(x, xs, desc), desc)
    ensures |InsertRow(x, xs, desc)| > 0
    ensures InsertRow(x, xs, desc)[0] == x || (|xs| > 0 && InsertRow(x, xs, desc)[0] == xs[0])
    decreases |xs|
  {
    if |xs| > 0 && !Before(x, xs[0], desc) {
      InsertRowOrdered(x, xs[1..], desc);
      var r := InsertRow(x, xs, desc);
      var rest := InsertRow(x, xs[1..], desc);
      forall i, j | 0 <= i < j < |r| ensures Before(r[i], r[j], desc) {
        if i == 0 {
          assert r[j] == rest[j - 1];
          assert rest[j - 1] in multiset(rest);
          assert rest[j - 1] == x || rest[j - 1] in multiset(xs[1..]);
          if rest[j - 1] != x {
            var k :| 1 <= k < |xs| && xs[k] == rest[j - 1] by {
              assert rest[j - 1] in xs[1..];
            }
          }
        }
      }
    }
  }

  /** JS `sort` with the numeric comparator: a stable insertion sort gives the same order. */
  function SortRows(xs: seq<int>, desc: bool): (r: seq<int>)
    ensures |r| == |xs|
    ensures multiset(r) == multiset(xs)
  {
    if |xs| == 0 then []
    else
      assert xs == [xs[0]] + xs[1..];
      InsertRow(xs[0], SortRows(xs[1..], desc), desc)
  }

  lemma {:induction false} SortRowsOrdered(xs: seq<int>, desc: bool)
    ensures Ordered(SortRows(xs, desc), desc)
    decreases |xs|
  {
    if |xs| > 0 {
      SortRowsOrdered(xs[1..], desc);
      InsertRowOrdered(xs[0], SortRows(xs[1..], desc), desc);
    }
  }

  /** The rows in the order the autofilter shows them. */
  function Arranged(rows: seq<int>, order: SortOrder): (r: seq<int>)
    ensures |r| == |rows|
  {
    match order
    case Asc => SortRows(rows, false)
    case Desc => SortRows(rows, true)
    case _ => rows
  }

  lemma ArrangedIsPermutation(rows: seq<int>, order: SortOrder)
    requires Distinct(rows)
    ensures multiset(Arranged(rows, order)) == multiset(rows)
    ensures |Arranged(rows, order)| == |rows| && Distinct(Arranged(rows, order))
    ensures order == Asc ==> Ordered(Arranged(rows, order), false)
    ensures order == Desc ==> Ordered(Arranged(rows, order), true)
  {
    var r := Arranged(rows, order);
    assert |r| == |multiset(r)| == |multiset(rows)| == |rows|;
    DistinctOfPermutation(rows, r);
    if order == Asc { SortRowsOrdered(rows, false); }
    if order == Desc { SortRowsOrdered(rows, true); }
  }

  lemma DistinctMultiplicity(xs: seq<int>, x: int)
    requires Distinct(xs)
    ensures multiset(xs)[x] <= 1
    decreases |xs|
  {
    if |xs| > 0 {
      assert xs == [xs[0]] + xs[1..];
      DistinctMultiplicity(xs[1..], x);
      if xs[0] == x {
        assert x !in xs[1..];
      }
    }
  }

  lemma DistinctOfPermutation(xs: seq<int>, ys: seq<int>)
    requires Distinct(xs) && multiset(xs) == multiset(ys)
    ensures Distinct(ys)
  {
    forall i, j | 0 <= i < j < |ys| ensures ys[i] != ys[j] {
      DistinctMultiplicity(xs, ys[i]);
      assert ys == ys[..i] + [ys[i]] + ys[i + 1..j] + [ys[j]] + ys[j + 1..];
    }
  }

  /** `keys[i]` mapped to `values[i]`, entered in order. */
  function ZipMap(keys: seq<int>, values: seq<int>): map<int, int>
    requires |keys| == |values|
  {
    if |keys| == 0 then map[]
    else ZipMap(keys[..|keys| - 1], values[..|values| - 1])[keys[|keys| - 1] := values[|values| - 1]]
  }

  /** Entering one more pair of the two sequences. */
  lemma ZipMapSnoc(keys: seq<int>, values: seq<int>, i: nat)
    requires i < |keys| == |values|
    ensures ZipMap(keys[..i + 1], values[..i + 1]) == ZipMap(keys[..i], values[..i])[keys[i] := values[i]]
  {
    assert keys[..i + 1][..i] == keys[..i];
    assert values[..i + 1][..i] == values[..i];
  }

  lemma {:induction false} ZipMapAt(keys: seq<int>, values: seq<int>)
    requires |keys| == |values| && Distinct(keys)
    ensures ZipMap(keys, values).Keys == set k | k in keys
    ensures forall i :: 0 <= i < |keys| ==> ZipMap(keys, values)[keys[i]] == values[i]
    decreases |keys|
  {
    if |keys| > 0 {
      var n := |keys| - 1;
      ZipMapAt(keys[..n], values[..n]);
      forall i | 0 <= i < n ensures keys[..n][i] == keys[i] && values[..n][i] == values[i] {}
      assert keys == keys[..n] + [keys[n]];
    }
  }

  /** Two orderings of the same distinct rows hold the same rows. */
  lemma SameRows(xs: seq<int>, ys: seq<int>)
    requires multiset(xs) == multiset(ys)
    ensures (set r | r in xs) == (set r | r in ys)
  {
    forall r ensures r in xs <==> r in ys {
      assert r in xs <==> r in multiset(xs);
      assert r in ys <==> r in multiset(ys);
    }
  }

  /** Maps built from two orderings of the same distinct rows send each row there and back. */
  lemma ZipMapsInverse(xs: seq<int>, ys: seq<int>)
    requires |xs| == |ys| && Distinct(xs) && Distinct(ys)
    ensures forall r :: r in ZipMap(xs, ys) ==> ZipMap(xs, ys)[r] in ZipMap(ys, xs) && ZipMap(ys, xs)[ZipMap(xs, ys)[r]] == r
  {
    ZipMapAt(xs, ys);
    ZipMapAt(ys, xs);
    forall r | r in ZipMap(xs, ys) ensures ZipMap(xs, ys)[r] in ZipMap(ys, xs) && ZipMap(ys, xs)[ZipMap(xs, ys)[r]] == r {
      var i :| 0 <= i < |xs| && xs[i] == r;
      assert ZipMap(xs, ys)[r] == ys[i];
    }
  }

  /**
   * The two autofilter maps are inverse bijections of the filtered rows: each
   * filtered row maps to a filtered row, and mapping there and back gives the row.
   */
  lemma AutoFilterMapsInverse(fset: seq<int>, order: SortOrder)
    requires Distinct(fset)
    ensures var fary := Arranged(fset, order);
      var sorted := ZipMap(fset, fary);
      var unsorted := ZipMap(fary, fset);
      && sorted.Keys == (set r | r in fset) && unsorted.Keys == (set r | r in fset)
      && (forall r :: r in sorted ==> sorted[r] in unsorted && unsorted[sorted[r]] == r)
      && (forall r :: r in unsorted ==> unsorted[r] in sorted && sorted[unsorted[r]] == r)
  {
    var fary := Arranged(fset, order);
    ArrangedIsPermutation(fset, order);
    ZipMapAt(fset, fary);
    ZipMapAt(fary, fset);
    SameRows(fset, fary);
    ZipMapsInverse(fset, fary);
    ZipMapsInverse(fary, fset);
  }
}
