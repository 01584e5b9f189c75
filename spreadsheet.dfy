/**
 * The workbook object of src/index.js: its list of sheets (`datas`), the counter
 * that names new sheets (`sheetIndex`), and the rewriting of sheet-qualified
 * references when a sheet is renamed. A sheet is reduced to its name and the
 * text of its cells; the bottom bar, the events and the canvas are not modelled.
 */
module Spreadsheets {
  import opened Options
  import opened JsString
  import opened Constants

  // ---------------------------------------------------------------------------
  // Reference rewriting.

  /** `s.replace(p, r)` with a string pattern: the first occurrence of `p`, if any, becomes `r`. */
  function ReplaceFirst(s: string, p: string, r: string): string
  {
    var i := IndexOf(s, p);
    if i == -1 then s else s[..i] + r + s[i + |p|..]
  }

  /** Replacing a text by itself changes nothing. */
  lemma ReplaceFirstSame(s: string, p: string)
    ensures ReplaceFirst(s, p, p) == s
  {
    var i := IndexOf(s, p);
    if i != -1 {
      assert s == s[..i] + s[i..i + |p|] + s[i + |p|..];
    }
  }

  /** `match.replaceAll("'", "").split("!")[0]`: the sheet name as the rename callback reads it. */
  function ReadSheetName(m: string): string
  {
    Split(RemoveChar(m, '\''), '!')[0]
  }

  /** The rename callback as written: a match whose read name is the old name has that name replaced once. */
  function RenameMatchAsWritten(m: string, oldName: string, newName: string): string
  {
    if ReadSheetName(m) == oldName then ReplaceFirst(m, oldName, newName) else m
  }

  /**
   * The qualifier of a sheet reference ends at its last `!` (the cell part has
   * none); the name is the qualifier without its quotes when it is quoted.
   */
  function QualifierName(m: string): string
  {
    var bang := LastIndexOfChar(m, '!');
    var q := if bang == -1 then m else m[..bang];
    if |q| >= 2 && q[0] == '\'' && q[|q| - 1] == '\'' then q[1..|q| - 1] else q
  }

  /** The rename callback comparing the name the reference actually holds. */
  function RenameMatch(m: string, oldName: string, newName: string): string
  {
    if QualifierName(m) == oldName then ReplaceFirst(m, oldName, newName) else m
  }

  /** The text with each token replaced through `rename`, the rest kept. */
  function RenamePieces(pieces: seq<Piece>, oldName: string, newName: string, asWritten: bool): string
  {
    if |pieces| == 0 then ""
    else
      var first := match pieces[0]
        case Text(t) => t
        case Token(m) => if asWritten then RenameMatchAsWritten(m, oldName, newName) else RenameMatch(m, oldName, newName);
      first + RenamePieces(pieces[1..], oldName, newName, asWritten)
  }

  /**
   * The `text.replace(sheetToCellRefRegex, ...)` of `updateSheetRef`: with the
   * callback as written when `asWritten` holds, otherwise with the name
   * comparison corrected. Text holding no reference to the old sheet, and any
   * text renamed to the same name, is left as it is.
   */
  function RenameInText(text: string, oldName: string, newName: string, asWritten: bool): (r: string)
    ensures NoReferenceTo(Scan(SheetRefPattern, text), oldName, asWritten) ==> r == text
    ensures oldName == newName ==> r == text
  {
    var pieces := Scan(SheetRefPattern, text);
    if NoReferenceTo(pieces, oldName, asWritten) || oldName == newName then
      RenamePiecesUntouched(pieces, oldName, newName, asWritten);
      ScanConcat(SheetRefPattern, text);
      RenamePieces(pieces, oldName, newName, asWritten)
    else RenamePieces(pieces, oldName, newName, asWritten)
  }

  /** The name a callback compares with the old name: the name as written reads it, or the qualifier's name. */
  function NameRead(m: string, asWritten: bool): string
  {
    if asWritten then ReadSheetName(m) else QualifierName(m)
  }

  /** No reference names the old sheet, as the callback reads names. */
  predicate NoReferenceTo(pieces: seq<Piece>, oldName: string, asWritten: bool)
  {
    forall k :: 0 <= k < |pieces| && pieces[k].Token? ==> NameRead(pieces[k].text, asWritten) != oldName
  }

  lemma {:induction false} RenamePiecesUntouched(pieces: seq<Piece>, oldName: string, newName: string, asWritten: bool)
    requires NoReferenceTo(pieces, oldName, asWritten) || oldName == newName
    ensures RenamePieces(pieces, oldName, newName, asWritten) == Concat(pieces)
    decreases |pieces|
  {
    if |pieces| > 0 {
      assert NoReferenceTo(pieces, oldName, asWritten) ==> NoReferenceTo(pieces[1..], oldName, asWritten) by {
        if NoReferenceTo(pieces, oldName, asWritten) {
          forall k | 0 <= k < |pieces[1..]| && pieces[1..][k].Token?
            ensures NameRead(pieces[1..][k].text, asWritten) != oldName
          {
            assert pieces[1..][k] == pieces[k + 1];
          }
        }
      }
      RenamePiecesUntouched(pieces[1..], oldName, newName, asWritten);
      if pieces[0].Token? {
        ReplaceFirstSame(pieces[0].text, oldName);
      }
    }
  }

  /** A sheet reference with the name in its qualifier replaced. */
  function Requalified(m: string, newName: string): string
    requires LastIndexOfChar(m, '!') >= 0
  {
    var bang := LastIndexOfChar(m, '!');
    if m[0] == '\'' then "'" + newName + "'" + m[bang..] else newName + m[bang..]
  }

  /** In a cell reference there is no `!`. */
  lemma NoBangInCellRef(t: string)
    requires IsCellRefText(t)
    ensures '!' !in t
  {
    var k :| 0 < k < |t| && AllLetters(t[..k]) && RowNumber(t[k..]);
    forall m | 0 <= m < |t| ensures t[m] != '!' {
      if m < k {
        assert t[m] == t[..k][m];
      } else if m == k {
        assert t[m] == t[k..][0];
      } else {
        assert t[m] == t[k..][1..][m - k - 1];
      }
    }
  }

  /** The last occurrence of `c` is the one with none after it. */
  lemma LastIndexOfCharAt(s: string, c: char, j: nat)
    requires j < |s| && s[j] == c && c !in s[j + 1..]
    ensures LastIndexOfChar(s, c) == j
  {
    var r := LastIndexOfChar(s, c);
    assert c in s by { assert s[j] == c; }
  }

  /** In a whole sheet reference the last `!` is the one after the qualifier. */
  lemma SheetRefLastBang(m: string)
    requires SheetRefMatch(m, 0) == Some(|m|)
    ensures 0 < QualifierEnd(m, 0) < |m|
    ensures LastIndexOfChar(m, '!') == QualifierEnd(m, 0)
    ensures IsQualifierAt(m, 0, QualifierEnd(m, 0))
  {
    var j := QualifierEnd(m, 0);
    assert IsSheetRefAt(m, 0, j, |m|) by { SheetRefMatchSound(m, 0, |m|); }
    LastBangAfterQualifier(m, j);
  }

  lemma LastBangAfterQualifier(m: string, j: nat)
    requires IsSheetRefAt(m, 0, j, |m|)
    ensures LastIndexOfChar(m, '!') == j
  {
    assert m[j + 1..|m|] == m[j + 1..];
    NoBangInCellRef(m[j + 1..]);
    LastIndexOfCharAt(m, '!', j);
  }

  /** A quoted qualifier holding the name: the name is found right after the opening quote. */
  lemma QuotedRequalifies(m: string, j: nat, oldName: string, newName: string)
    requires 2 <= j < |m| && IsQuotedName(m[..j]) && oldName == m[1..j - 1] && |oldName| > 0
    ensures ReplaceFirst(m, oldName, newName) == "'" + newName + "'" + m[j..]
  {
    assert m[0] == m[..j][0] && m[1] == m[..j][1];
    assert OccursAt(m, oldName, 1);
    assert !OccursAt(m, oldName, 0) by {
      assert oldName[0] == m[1];
    }
    assert IndexOf(m, oldName) == 1;
    assert m[j - 1] == m[..j][j - 1];
    assert m[..1] == "'";
    assert m[1 + |oldName|..] == "'" + m[j..];
  }

  /** An unquoted qualifier is the name itself, found at the start. */
  lemma PlainRequalifies(m: string, j: nat, oldName: string, newName: string)
    requires 0 < j <= |m| && oldName == m[..j]
    ensures ReplaceFirst(m, oldName, newName) == newName + m[j..]
  {
    assert OccursAt(m, oldName, 0);
  }

  /**
   * A whole sheet reference naming the old sheet (whose name is not empty) has
   * exactly the name in its qualifier replaced: the quotes, the `!` and the cell
   * part stay.
   */
  lemma RenameMatchRequalifies(m: string, oldName: string, newName: string)
    requires SheetRefMatch(m, 0) == Some(|m|)
    requires QualifierName(m) == oldName && |oldName| > 0
    ensures LastIndexOfChar(m, '!') >= 0
    ensures RenameMatch(m, oldName, newName) == Requalified(m, newName)
  {
    var j := QualifierEnd(m, 0);
    SheetRefLastBang(m);
    assert RenameMatch(m, oldName, newName) == ReplaceFirst(m, oldName, newName);
    if m[0] == '\'' {
      QuotedQualifier(m, j);
      QuotedRequalifies(m, j, oldName, newName);
    } else {
      PlainQualifier(m, j);
      PlainRequalifies(m, j, oldName, newName);
    }
  }

  lemma QuotedQualifier(m: string, j: nat)
    requires 0 < j < |m| && m[0] == '\'' && IsQualifierAt(m, 0, j) && LastIndexOfChar(m, '!') == j
    ensures 2 <= j && IsQuotedName(m[..j]) && QualifierName(m) == m[1..j - 1]
  {
    var t := m[..j];
    assert m[0..j] == t;
    assert !IsAlnumWord(t) by { assert t[0] == '\'' && !IsAlnum(t[0]); }
    assert IsQuotedName(t);
    assert m[j - 1] == t[|t| - 1];
    QuotedQualifierName(m, j);
  }

  lemma QuotedQualifierName(m: string, j: nat)
    requires 2 <= j <= |m| && LastIndexOfChar(m, '!') == j
    requires m[0] == '\'' && m[j - 1] == '\''
    ensures QualifierName(m) == m[1..j - 1]
  {
    var q := m[..j];
    assert q[0] == '\'' && q[|q| - 1] == '\'';
    assert QualifierName(m) == q[1..|q| - 1];
    assert q[1..|q| - 1] == m[1..j - 1];
  }

  lemma PlainQualifier(m: string, j: nat)
    requires 0 < j < |m| && m[0] != '\'' && LastIndexOfChar(m, '!') == j
    ensures QualifierName(m) == m[..j]
  {
    assert m[..j][0] == m[0];
  }

  /** A reference to sheet `a!b`: the quoted qualifier holds a `!`. */
  const QuotedBangRef: string := "'a!b'!A1"

  lemma QuotedBangRefMatches()
    ensures SheetRefMatch(QuotedBangRef, 0) == Some(|QuotedBangRef|)
  {
    var m := QuotedBangRef;
    assert QuoteFrom(m, 4) == 4;
    assert QuoteFrom(m, 1) == 4;
    assert QualifierEnd(m, 0) == 5;
    assert LetterRunEnd(m, 7) == 7;
    assert LetterRunEnd(m, 6) == 7;
    assert DigitEnd(m, 8) == 8;
    assert RefEnd(m, 6, false) == Some(8);
  }

  lemma QuotedBangRefQualifier()
    ensures QualifierName(QuotedBangRef) == "a!b"
  {
    var m := QuotedBangRef;
    assert LastIndexOfChar(m[..7], '!') == 5 by {
      assert m[..7][..6] == m[..6];
    }
    assert LastIndexOfChar(m, '!') == 5;
    assert m[..5] == "'a!b'";
  }

  lemma QuotedBangRefReadName()
    ensures ReadSheetName(QuotedBangRef) == "a"
  {
    assert QuotedBangRef == "'" + "a" + "!" + "b" + "'" + "!" + "A1";
    QuotedReadName("a", "b", "A1");
  }

  /** Reading the sheet name of `'a!b'!r` as written stops at the `!` inside the quotes. */
  lemma QuotedReadName(a: string, b: string, r: string)
    requires '\'' !in a && '\'' !in b && '\'' !in r && '!' !in a
    ensures ReadSheetName("'" + a + "!" + b + "'" + "!" + r) == a
  {
    QuotedUnquoted(a, b, r);
    var rest := b + "!" + r;
    assert a + "!" + b + "!" + r == a + ['!'] + rest;
    SplitAfter(a, '!', rest);
  }

  lemma QuotedUnquoted(a: string, b: string, r: string)
    requires '\'' !in a && '\'' !in b && '\'' !in r
    ensures RemoveChar("'" + a + "!" + b + "'" + "!" + r, '\'') == a + "!" + b + "!" + r
  {
    var q, bang := "'", "!";
    assert RemoveChar(q, '\'') == "" && RemoveChar(bang, '\'') == bang;
    var s1 := q + a;
    assert RemoveChar(s1, '\'') == a by { RemoveCharAppend(q, a, '\''); RemoveCharAbsent(a, '\''); }
    var s2 := s1 + bang;
    assert RemoveChar(s2, '\'') == a + bang by { RemoveCharAppend(s1, bang, '\''); }
    var s3 := s2 + b;
    assert RemoveChar(s3, '\'') == a + bang + b by { RemoveCharAppend(s2, b, '\''); RemoveCharAbsent(b, '\''); }
    var s4 := s3 + q;
    assert RemoveChar(s4, '\'') == a + bang + b by { RemoveCharAppend(s3, q, '\''); }
    var s5 := s4 + bang;
    assert RemoveChar(s5, '\'') == a + bang + b + bang by { RemoveCharAppend(s4, bang, '\''); }
    RemoveCharAppend(s5, r, '\'');
    RemoveCharAbsent(r, '\'');
  }

  lemma QuotedBangRefReplace()
    ensures ReplaceFirst(QuotedBangRef, "a", "c") == "'c!b'!A1"
  {
    var m := QuotedBangRef;
    assert OccursAt(m, "a", 1);
    assert !OccursAt(m, "a", 0) by { assert m[0..1] == "'"; }
    assert IndexOf(m, "a") == 1;
    assert m[..1] + "c" + m[2..] == "'c!b'!A1";
  }

  /**
   * As written, renaming sheet `a` to `c` rewrites `'a!b'!A1`, a reference to the
   * other sheet `a!b`, into `'c!b'!A1`: the name is read only up to the first `!`.
   * With the comparison corrected the reference is left alone.
   */
  lemma RenameAsWrittenHitsOtherSheet()
    ensures SheetRefMatch(QuotedBangRef, 0) == Some(|QuotedBangRef|)
    ensures QualifierName(QuotedBangRef) == "a!b"
    ensures ReadSheetName(QuotedBangRef) == "a"
    ensures RenameMatchAsWritten(QuotedBangRef, "a", "c") == "'c!b'!A1"
    ensures RenameMatch(QuotedBangRef, "a", "c") == QuotedBangRef
  {
    var m := QuotedBangRef;
    QuotedBangRefMatches();
    QuotedBangRefQualifier();
    QuotedBangRefReadName();
    QuotedBangRefReplace();
  }

  /**
   * The cell text `'a!b'!A1` while sheet `a` is renamed to `c`: the rewrite as
   * written turns it into `'c!b'!A1`, the corrected one keeps it.
   */
  lemma RenameInTextHitsOtherSheet()
    ensures RenameInText(QuotedBangRef, "a", "c", true) == "'c!b'!A1"
    ensures RenameInText(QuotedBangRef, "a", "c", false) == QuotedBangRef
  {
    var m := QuotedBangRef;
    RenameAsWrittenHitsOtherSheet();
    ScanWhole(SheetRefPattern, m);
    assert Scan(SheetRefPattern, m) == [Token(m)];
    assert RenamePieces([Token(m)], "a", "c", true) == RenameMatchAsWritten(m, "a", "c") + RenamePieces([], "a", "c", true);
    assert RenamePieces([Token(m)], "a", "c", false) == RenameMatch(m, "a", "c") + RenamePieces([], "a", "c", false);
  }

  // ---------------------------------------------------------------------------
  // The workbook.

  /** A sheet as far as this model goes: its name and the text of its cells by (row, column). */
  datatype SheetData = SheetData(name: string, cells: map<(nat, nat), string>)

  /** Each cell's text rewritten. */
  function RenamedCells(cells: map<(nat, nat), string>, oldName: string, newName: string, asWritten: bool): map<(nat, nat), string>
  {
    map c | c in cells :: RenameInText(cells[c], oldName, newName, asWritten)
  }

  /** Every sheet's cells rewritten; the names stay. */
  function RenamedSheets(datas: seq<SheetData>, oldName: string, newName: string, asWritten: bool): (r: seq<SheetData>)
    ensures |r| == |datas|
    ensures forall i :: 0 <= i < |datas| ==> r[i].name == datas[i].name && r[i].cells.Keys == datas[i].cells.Keys
  {
    seq(|datas|, i requires 0 <= i < |datas| => datas[i].(cells := RenamedCells(datas[i].cells, oldName, newName, asWritten)))
  }

  /** The cells of sheet `i` among `keys` whose text the rewrite changes, as (sheet, row, column). */
  function ChangedIn(i: nat, cells: map<(nat, nat), string>, keys: set<(nat, nat)>, oldName: string, newName: string, asWritten: bool): set<(nat, nat, nat)>
  {
    set rc | rc in keys && rc in cells && RenameInText(cells[rc], oldName, newName, asWritten) != cells[rc] :: (i, rc.0, rc.1)
  }

  lemma ChangedInIff(i: nat, cells: map<(nat, nat), string>, keys: set<(nat, nat)>, oldName: string, newName: string, x: (nat, nat, nat), asWritten: bool)
    ensures x in ChangedIn(i, cells, keys, oldName, newName, asWritten)
        <==> x.0 == i && (x.1, x.2) in keys && (x.1, x.2) in cells && RenameInText(cells[(x.1, x.2)], oldName, newName, asWritten) != cells[(x.1, x.2)]
  {
    if x.0 == i && (x.1, x.2) in keys && (x.1, x.2) in cells && RenameInText(cells[(x.1, x.2)], oldName, newName, asWritten) != cells[(x.1, x.2)] {
      var rc := (x.1, x.2);
      assert x == (i, rc.0, rc.1);
    }
  }

  /** One more key looked at. */
  lemma ChangedInStep(i: nat, cells: map<(nat, nat), string>, keys: set<(nat, nat)>, c: (nat, nat), oldName: string, newName: string, asWritten: bool)
    requires c in cells
    ensures ChangedIn(i, cells, keys + {c}, oldName, newName, asWritten)
         == ChangedIn(i, cells, keys, oldName, newName, asWritten)
            + (if RenameInText(cells[c], oldName, newName, asWritten) != cells[c] then {(i, c.0, c.1)} else {})
  {
    var lhs := ChangedIn(i, cells, keys + {c}, oldName, newName, asWritten);
    var rhs := ChangedIn(i, cells, keys, oldName, newName, asWritten)
               + (if RenameInText(cells[c], oldName, newName, asWritten) != cells[c] then {(i, c.0, c.1)} else {});
    forall x ensures x in lhs <==> x in rhs {
      ChangedInIff(i, cells, keys + {c}, oldName, newName, x, asWritten);
      ChangedInIff(i, cells, keys, oldName, newName, x, asWritten);
    }
  }

  /** The cells, as (sheet, row, column), whose text the rewrite changes, sheet by sheet. */
  function ChangedCells(datas: seq<SheetData>, oldName: string, newName: string, asWritten: bool): set<(nat, nat, nat)>
    decreases |datas|
  {
    if |datas| == 0 then {}
    else
      var last := |datas| - 1;
      ChangedCells(datas[..last], oldName, newName, asWritten) + ChangedIn(last, datas[last].cells, datas[last].cells.Keys, oldName, newName, asWritten)
  }

  /** A cell is among the changed ones exactly when it exists and the rewrite alters its text. */
  lemma {:induction false} ChangedCellsIff(datas: seq<SheetData>, oldName: string, newName: string, x: (nat, nat, nat), asWritten: bool)
    ensures x in ChangedCells(datas, oldName, newName, asWritten)
        <==> x.0 < |datas| && (x.1, x.2) in datas[x.0].cells
             && RenameInText(datas[x.0].cells[(x.1, x.2)], oldName, newName, asWritten) != datas[x.0].cells[(x.1, x.2)]
    decreases |datas|
  {
    if |datas| > 0 {
      var last := |datas| - 1;
      var front := datas[..last];
      assert ChangedCells(datas, oldName, newName, asWritten)
          == ChangedCells(front, oldName, newName, asWritten) + ChangedIn(last, datas[last].cells, datas[last].cells.Keys, oldName, newName, asWritten);
      ChangedCellsIff(front, oldName, newName, x, asWritten);
      ChangedInIff(last, datas[last].cells, datas[last].cells.Keys, oldName, newName, x, asWritten);
      if x.0 < last {
        assert front[x.0] == datas[x.0];
      }
    }
  }

  /** `addSheet`'s name: the given one when it is not empty, otherwise `sheet` and the counter. */
  function NewSheetName(name: Option<string>, sheetIndex: nat): string
  {
    if name.Some? && name.value != "" then name.value else "sheet" + NatToString(sheetIndex)
  }

  /** Default names made from different counter values differ. */
  lemma DefaultNamesDiffer(i: nat, j: nat)
    requires i != j
    ensures NewSheetName(None, i) != NewSheetName(None, j)
  {
    if NewSheetName(None, i) == NewSheetName(None, j) {
      assert NatToString(i) == NewSheetName(None, i)[5..];
      assert NatToString(j) == NewSheetName(None, j)[5..];
      NatToStringInjective(i, j);
    }
  }

  /** Renaming to the same name leaves every sheet as it is. */
  lemma RenamedSheetsSameName(datas: seq<SheetData>, name: string, asWritten: bool)
    ensures RenamedSheets(datas, name, name, asWritten) == datas
  {
    forall i | 0 <= i < |datas| ensures RenamedCells(datas[i].cells, name, name, asWritten) == datas[i].cells {
    }
  }

  lemma ChangedCellsSnoc(datas: seq<SheetData>, i: nat, oldName: string, newName: string, asWritten: bool)
    requires i < |datas|
    ensures ChangedCells(datas[..i + 1], oldName, newName, asWritten)
         == ChangedCells(datas[..i], oldName, newName, asWritten) + ChangedIn(i, datas[i].cells, datas[i].cells.Keys, oldName, newName, asWritten)
  {
    assert datas[..i + 1][..i] == datas[..i];
  }

  lemma RenamedSheetsPush(original: seq<SheetData>, sheets: seq<SheetData>, i: nat, updated: map<(nat, nat), string>, oldName: string, newName: string, asWritten: bool)
    requires i < |original| && sheets == RenamedSheets(original, oldName, newName, asWritten)[..i]
    requires updated == RenamedCells(original[i].cells, oldName, newName, asWritten)
    ensures sheets + [original[i].(cells := updated)] == RenamedSheets(original, oldName, newName, asWritten)[..i + 1]
    ensures i + 1 == |original| ==> sheets + [original[i].(cells := updated)] == RenamedSheets(original, oldName, newName, asWritten)
  {
  }

  /**
   * The walk over one sheet's cells in `updateSheetRef`: each text is rewritten
   * with the callback as written, and the cells whose text changed are the ones
   * written back.
   */
  method RenameInCells(i: nat, cells: map<(nat, nat), string>, oldName: string, newName: string)
    returns (updated: map<(nat, nat), string>, changed: set<(nat, nat, nat)>)
    ensures updated == RenamedCells(cells, oldName, newName, true)
    ensures changed == ChangedIn(i, cells, cells.Keys, oldName, newName, true)
  {
    updated := cells;
    changed := {};
    var pending := cells.Keys;
    while pending != {}
      invariant pending <= cells.Keys && updated.Keys == cells.Keys
      invariant forall c :: c in pending ==> updated[c] == cells[c]
      invariant forall c :: c in cells && c !in pending ==> updated[c] == RenameInText(cells[c], oldName, newName, true)
      invariant changed == ChangedIn(i, cells, cells.Keys - pending, oldName, newName, true)
      decreases pending
    {
      var c :| c in pending;
      var text := cells[c];
      var updatedText := RenameInText(text, oldName, newName, true);
      ChangedInStep(i, cells, cells.Keys - pending, c, oldName, newName, true);
      assert cells.Keys - (pending - {c}) == (cells.Keys - pending) + {c};
      if updatedText != text {
        updated := updated[c := updatedText];
        changed := changed + {(i, c.0, c.1)};
      }
      pending := pending - {c};
    }
    assert cells.Keys - pending == cells.Keys;
  }

  class Spreadsheet {
    /** `sheetIndex`: the number the next default sheet name takes. */
    var sheetIndex: nat
    /** `datas`: the sheets, in tab order. */
    var datas: seq<SheetData>

    /** The constructor starts the counter at 1 and adds the first sheet, `sheet1`. */
    constructor()
      ensures sheetIndex == 2 && datas == [SheetData("sheet1", map[])]
    {
      sheetIndex := 1;
      datas := [];
      new;
      var first := AddSheet(None);
      assert NatToString(1) == "1";
      assert first == "sheet1";
    }

    /** `addSheet(name)`: a new empty sheet goes last, and the counter moves on by one. */
    method AddSheet(name: Option<string>) returns (n: string)
      modifies this
      ensures n == NewSheetName(name, old(sheetIndex))
      ensures datas == old(datas) + [SheetData(n, map[])]
      ensures sheetIndex == old(sheetIndex) + 1
    {
      n := if name.Some? && name.value != "" then name.value else "sheet" + NatToString(sheetIndex);
      datas := datas + [SheetData(n, map[])];
      sheetIndex := sheetIndex + 1;
    }

    /** `reset()`: the counter goes back to 1. */
    method Reset()
      modifies this`sheetIndex
      ensures sheetIndex == 1
    {
      sheetIndex := 1;
    }

    /**
     * `updateSheetRef(oldSheetName, newSheetName)`: every cell of every sheet is
     * rewritten, and `written` lists the cells written back, exactly those whose
     * text changed.
     */
    method UpdateSheetRef(oldName: string, newName: string) returns (written: set<(nat, nat, nat)>)
      modifies this`datas
      ensures datas == RenamedSheets(old(datas), oldName, newName, true)
      ensures written == ChangedCells(old(datas), oldName, newName, true)
    {
      var original := datas;
      var sheets := [];
      written := {};
      var i := 0;
      while i < |original|
        invariant 0 <= i <= |original|
        invariant sheets == RenamedSheets(original, oldName, newName, true)[..i]
        invariant written == ChangedCells(original[..i], oldName, newName, true)
      {
        var updated, changed := RenameInCells(i, original[i].cells, oldName, newName);
        written := written + changed;
        ChangedCellsSnoc(original, i, oldName, newName, true);
        RenamedSheetsPush(original, sheets, i, updated, oldName, newName, true);
        sheets := sheets + [original[i].(cells := updated)];
        i := i + 1;
      }
      assert original[..i] == original;
      datas := sheets;
    }

    /** `renameSheet(index, newSheetName)`: references are rewritten, then the sheet takes the new name. */
    method RenameSheet(index: nat, newName: string) returns (written: set<(nat, nat, nat)>)
      requires index < |datas|
      modifies this`datas
      ensures datas == RenamedSheets(old(datas), old(datas)[index].name, newName, true)[index := old(datas)[index].(name := newName, cells := RenamedCells(old(datas)[index].cells, old(datas)[index].name, newName, true))]
      ensures written == ChangedCells(old(datas), old(datas)[index].name, newName, true)
    {
      var oldName := datas[index].name;
      written := UpdateSheetRef(oldName, newName);
      datas := datas[index := datas[index].(name := newName)];
    }
  }
}
