# x-spreadsheet formula core, modelled in Dafny

This project models the core of x-spreadsheet, a canvas spreadsheet written in
JavaScript, and proves properties of that model. The modelled parts are:

- **Formula resolution engine** (`src/core/cell.js`).
  - `cellRender` decides what a cell's raw text shows: plain text, a whole-cell
    dynamic variable, or a formula.
  - For a formula, `parserFormulaString` rewrites it in fixed whole-string
    passes: dynamic variables, whitespace removal outside quotes, sheet-qualified
    references, range expansion, then bare cell references.
  - A referenced formula cell is rendered recursively, guarded by the per-sheet
    call stack `formulaCallStack`.
  - The rewritten text is checked for error sentinels, then handed to an
    external evaluator.
- **Token grammar** (`src/constants.js`). The regular expressions for cell
  references, ranges, sheet-qualified references and quote-aware whitespace
  removal, each as an exact matcher at a position, with a left-to-right scanner
  that plays the part of `String.prototype.replace` with a global regex.
- **Address and formula-text helpers** (`src/algorithm/cellInjection.js`):
  - `getColumnName`, the bijective base-26 column name;
  - `getCellName`;
  - `constructFormula`, which splices a clicked cell or range into the formula
    being typed.
- **Sheet data operations** (`src/core/data_proxy.js`, `src/core/variable.js`):
  - style interning;
  - clipboard splitting;
  - maximum occupied indexes;
  - the auto-filter row maps;
  - shifting column settings on column insert and delete;
  - render-time dynamic-variable substitution and its variable table.
- **Sheet renaming and naming** (`src/index.js`): `updateSheetRef`,
  `renameSheet`, `addSheet` and `reset`.
- **CSS-to-style parsing** (`src/utils.js`): `parseCssToXDataStyles` and
  `parseBorderProperties`.
- **Editor text splicing** (`src/component/editor.js`):
  - the caret word;
  - mention insertion;
  - function insertion from the suggestion list;
  - text insertion at the caret;
  - date formatting.

Each source file is one module; `ScanFacts` holds the facts about what a scan finds:

| module | file | source |
|---|---|---|
| `Cell` | `cell.dfy` | `src/core/cell.js` |
| `Constants` | `constants.dfy` | `src/constants.js` |
| `ScanFacts` | `constants.dfy` | what the global `replace` over the patterns of `src/constants.js` finds |
| `CellInjection` | `cell_injection.dfy` | `src/algorithm/cellInjection.js` |
| `Alphabet` | `alphabet.dfy` | `expr2xy` / `xy2expr` as `cell.js` uses them |
| `DataProxy` | `data_proxy.dfy` | `src/core/data_proxy.js` |
| `Variables` | `variable.dfy` | `src/core/variable.js` |
| `Spreadsheets` | `spreadsheet.dfy` | `src/index.js` |
| `Utils` | `utils.dfy` | `src/utils.js` |
| `Editors` | `editor.dfy` | `src/component/editor.js` |

Three modules model the JavaScript built-ins the source relies on:

- `JsString`: `indexOf`, `lastIndexOf`, `split`, `join`, `trim`, `toUpperCase`,
  the `\s` class and `String(n)`.
- `JsNumber`: `Number(text)` and `isNaN`.
- `Options`.

### How the source's form is kept

- **Pure code as functions.** The engine's passes are pure rewrites, so the
  rewriter and `cellRender` are mutually recursive functions. The call-stack
  object, which every nested call shares and updates in place, is threaded
  through them as a value: each call takes the map as its caller left it and
  returns it as it leaves it.
- **Collaborators as parameters.** What the engine calls without defining is a
  field of the `Env` record:
  - `getCellText`;
  - `getDynamicVariable`;
  - the evaluator;
  - the trigger;
  - the three sentinels the constants file does not define.
- **Termination.** Recursion happens only into cells in the finite set of
  formula sites, and only for a (sheet, reference) pair not yet on the stack. So
  the measure is the number of such pairs still missing from the stack.
- **Code that updates objects in place becomes classes with `modifies`
  clauses:**
  - `DataProxy.Sheet`;
  - `Variables.Variable`;
  - `Spreadsheets.Spreadsheet`;
  - `Editors.Editor`.
- **Loops become methods with invariants.** Each is proved equal to a
  specification function whose properties are proved as lemmas. This covers:
  - `getColumnName`;
  - `rangeToCellConversion`;
  - the caret-word scans;
  - `addStyle`;
  - the clipboard split;
  - the maximum-index walk;
  - the column-key shifting;
  - the auto-filter maps;
  - the CSS declaration walks;
  - `updateSheetRef`.

### Where the model follows the code rather than the description

- **Bare references.** The bare-reference pass asks `getCellText` for a cell
  without a sheet, even while resolving another sheet's formula (`cell.js:319`).
  `Cell.BareRef` does the same.
- **Empty referenced cells.** An empty referenced cell reached through a sheet
  qualifier is substituted as the empty string. `Number("")` is 0, so it is not
  quoted (`cell.js:306`). An empty bare reference becomes `0` (`cell.js:342`).
- **Reversed ranges.** A range whose corners are reversed (`B2:A1`) expands to
  the empty string. The replace callback then returns `undefined`, so the text
  `undefined` is substituted (`cell.js:311-316`).
- **Dynamic-variable flags.** They come from the last token the callback sees:
  a later token overwrites an earlier one (`data_proxy.js:1341-1358`).

## Model

| member | source | states |
|---|---|---|
| Cell.Render | src/core/cell.js:355-412 | `cellRender`: the call stack it returns extends the one it was given; no entry is removed |
| Cell.RenderPlainText | src/core/cell.js:363-411 | text that starts with neither `=` nor the trigger is returned unchanged, with the stack untouched |
| Cell.RenderVariableCell | src/core/cell.js:403-410 | a cell starting with the trigger renders as the resolving sentinel while resolving; when resolved, as the variable's text, or the source when there is none; otherwise as the variable error |
| Cell.VerdictOrder | src/core/cell.js:377-388 | the rewritten formula is checked for REF_ERROR, then circular, then resolving, then variable error, and the first found is the result; only a clean text reaches the evaluator, whose throw gives GENERAL_ERROR and whose value is shown |
| Cell.Verdict | src/core/cell.js:377-388 | the shown text is one of the four sentinels or GENERAL_ERROR, or else what the evaluator gives: its value, or its error code with the first `#` removed (one character shorter, or the code itself when it holds no `#`) |
| Cell.DropHash | src/core/cell.js:385 | an evaluator error code loses exactly its first `#`, and putting that `#` back gives the code |
| Cell.SentinelsPropagate | src/core/cell.js:345-383 | a rewrite that returns a sentinel renders as that sentinel, given the sentinels do not contain one another |
| Cell.Rewrite | src/core/cell.js:248-353 | `parserFormulaString`: the call stack only grows during a rewrite |
| Cell.VariablePassFlags | src/core/cell.js:264-275 | after the dynamic-variable pass, the resolving flag is set iff some token is resolving, and the error flag iff some token is neither resolving nor resolved |
| Cell.RewriteWaitsForVariables | src/core/cell.js:264-276 | if any trigger token is resolving, the rewrite returns the resolving sentinel before any cell is looked up, and the stack is unchanged |
| Cell.RewriteUnresolvedVariable | src/core/cell.js:264-277 | if no token is resolving but some token is unresolved, the rewrite returns the variable-error sentinel and the stack is unchanged |
| Cell.SheetPassThrows | src/core/cell.js:280-350 | the sheet-reference pass throws iff some matched token does not split into a sheet and a parsable reference |
| Cell.SheetPassRefError | src/core/cell.js:305 | the sheet-reference pass raises the REF_ERROR flag iff some referenced cell's text is REF_ERROR |
| Cell.RewriteRefError | src/core/cell.js:305-310 | a sheet-qualified reference to a cell whose text is REF_ERROR makes the rewrite return REF_ERROR, before range expansion |
| Cell.RewriteKeepsInputOnThrow | src/core/cell.js:348-350 | when the rewriter throws, it returns its input unchanged |
| Cell.LiteralKeepsNumbers | src/core/cell.js:306-339 | a referenced plain text that reads as a number is substituted as itself; any other text is quoted and so stays non-numeric |
| Cell.PlainReference | src/core/cell.js:317-344 | a formula that is one bare reference to a non-formula cell rewrites to `0` when the cell is empty, otherwise to the cell's text, quoted unless numeric, and the stack is unchanged |
| Cell.RewriteSingleRef | src/core/cell.js:317-347 | a formula that is one bare reference rewrites to what the bare-reference callback makes of it, or to the circular sentinel when that callback reports a cycle |
| Cell.SelfReferenceIsCircular | src/core/cell.js:317-347 | a cell whose formula refers to itself renders as the circular-dependency sentinel, starting from an empty stack |
| Cell.CircularFormulaRef | src/core/cell.js:294-329 | once the circular flag is set, a formula reference is substituted by `0` and the flag stays set |
| Cell.CircularBarePass | src/core/cell.js:317-344 | once the circular flag is set, the rest of the bare pass substitutes every formula reference by `0` without recursing, and the flag stays set |
| Cell.CircularSheetPass | src/core/cell.js:280-308 | the same for the sheet-reference pass |
| Cell.OnStackFormulaRef | src/core/cell.js:320-334 | a formula reference already in the call-stack list of its sheet key is substituted by `0` and sets the circular flag; nothing is pushed and nothing is rendered |
| Cell.BarePassMeetsStack | src/core/cell.js:317-344 | a bare pass that meets a formula reference already on the call stack, at any position, ends with the circular flag set unless a callback throws |
| Cell.SheetPassMeetsStack | src/core/cell.js:280-308 | the same for the sheet-qualified pass, looking in the list of the sheet the token names |
| Cell.RewriteMeetsStack | src/core/cell.js:280-350 | a formula whose rewrite meets, in either pass, a reference to a formula cell already on the call stack rewrites to the circular sentinel, whatever else it holds; the only other outcomes are the input (a callback threw; which callback, and when, is stated pass by pass in `Cell.RewriteStages`) and REF_ERROR (a sheet-qualified reference names a cell holding it) |
| Cell.RenderMeetsStack | src/core/cell.js:363-388 | such a formula cell shows the circular sentinel, or REF_ERROR, or what the evaluator makes of the formula as written after a throw |
| Cell.SingleRefEnters | src/core/cell.js:317-336 | a formula that is one bare reference to a formula cell not yet on the stack pushes the reference and rewrites to what that cell renders |
| Cell.SingleRefOnStack | src/core/cell.js:320-347 | a formula that is one bare reference to a formula cell already on the stack rewrites to the circular sentinel |
| Cell.TwoCellCycle | src/core/cell.js:317-347 | two cells holding `=B` and `=A` for each other: the first renders as the circular sentinel from an empty stack |
| Cell.RewriteStages | src/core/cell.js:280-353 | once the variables are settled: a throw in the sheet pass gives the input back, then REF_ERROR wins, a throw in the range pass gives the input back, and otherwise the bare pass decides between the input (throw), the circular sentinel and its output |
| Cell.CircularRewriteShows | src/core/cell.js:363-380 | a formula cell whose rewrite is the circular sentinel shows that sentinel |
| Cell.GrowsPending | src/core/cell.js:290-326 | a grown stack leaves no more (sheet, reference) pairs to recurse into |
| Cell.PushPending | src/core/cell.js:287-292 | pushing a new reference strictly decreases the pairs left to recurse into |
| Cell.RangeToCellConversion | src/core/cell.js:229-246 | `rangeToCellConversion` with its two nested loops equals the column-major listing function; an unparsable corner gives `None`, which stands for the throw |
| Cell.RectangleNames | src/core/cell.js:236-241 | the nested loops push exactly the names of the rectangle, column by column |
| Cell.PushColumn | src/core/cell.js:238-240 | the inner loop appends the names of column x, rows sy to ey top to bottom, and keeps what was already there |
| Cell.BlockCellsAt | src/core/cell.js:237-241 | the list has (ex-sx+1)·(ey-sy+1) names, and the name at column i, row j sits at position i·height + j |
| Cell.RangeCellsLists | src/core/cell.js:232-242 | for a well-ordered range, splitting the result on `,` gives back exactly the listed names |
| Cell.RangeCellsNotTwo | src/core/cell.js:233-245 | a range that does not split into exactly two corners gives the empty string |
| Cell.RangeCellsReversed | src/core/cell.js:237-242 | a range with reversed corners gives the empty string |
| Constants.CellRefMatchIff | src/constants.js:4 | a cell reference matches at i, ending at e, iff the text is letters followed by a row number with no leading zero, with a word boundary at both ends |
| Constants.RangeMatchIff | src/constants.js:5-6 | a range matches iff two references, each with an optional `$` before column and row, are joined by `:` |
| Constants.SheetRefMatchIff | src/constants.js:8-9 | a sheet reference matches iff a quoted name without quotes, or an alphanumeric word at a word boundary, is followed by `!` and a cell reference |
| Constants.SpaceRemovalKeeps | src/constants.js:7 | the whitespace-removal pass deletes exactly the whitespace followed by an even number of `'` |
| Constants.ScanConcat | src/constants.js:4-9 | scanning a text with any pattern and joining the pieces gives the text back |
| ScanFacts.ScanMatches | src/constants.js:4-9 | each token of a scan is a match of the pattern at its position, and each single character left between tokens starts no match |
| CellInjection.GetColumnName | src/algorithm/cellInjection.js:33-40 | `getColumnName` and its loop compute the bijective base-26 name |
| CellInjection.ColumnNameOf | src/algorithm/cellInjection.js:33-40 | the column name is upper-case letters only, and is non-empty iff the index is non-negative |
| CellInjection.ColumnIndexOfName | src/algorithm/cellInjection.js:35-38 | reading a column name back gives its index |
| CellInjection.ColumnNameOfIndex | src/algorithm/cellInjection.js:35-38 | every upper-case word is the name of the index it reads as |
| CellInjection.ColumnNameInjective | src/algorithm/cellInjection.js:33-40 | distinct indexes have distinct names |
| CellInjection.ColumnNameExamples | src/algorithm/cellInjection.js:33-40 | 0 is `A`, 25 is `Z`, 26 is `AA`, 701 is `ZZ` and 702 is `AAA` |
| CellInjection.CellNameParts | src/algorithm/cellInjection.js:42-46 | `getCellName(r, c)` is the name of column c followed by the decimal r+1, and both parts read back |
| CellInjection.MaxLastIndexIsLastIndexIn | src/algorithm/cellInjection.js:4-11 | the maximum of the per-operator `lastIndexOf` is the last position holding any operator |
| CellInjection.ConstructFormula | src/algorithm/cellInjection.js:1-31 | an empty formula, or one ending in `)` when no range is inserted, is returned unchanged |
| CellInjection.RangeIsParenthesised | src/algorithm/cellInjection.js:12-20 | inserting a range gives the base formula followed by the range in parentheses |
| CellInjection.ClickReplacesAfterLastOperator | src/algorithm/cellInjection.js:21-27 | a clicked cell replaces the text after the last operator; with no operator the formula is unchanged |
| CellInjection.AppendKeepsFormula | src/algorithm/cellInjection.js:17-18 | append mode keeps the formula as a prefix and ends with the cell, adding exactly one `,` unless the formula ends in an operator |
| CellInjection.SecondClickReplacesFirst | src/algorithm/cellInjection.js:21-24 | clicking a second cell replaces the first one |
| CellInjection.SecondRangeReplacesFirst | src/algorithm/cellInjection.js:12-20 | selecting a second range replaces the first one |
| Alphabet.Expr2Xy | src/core/cell.js:234-235 | a reference parses iff it is an optional `$`, letters, an optional `$` and a row number |
| Alphabet.Expr2XyValue | src/core/cell.js:234-235 | a parsed reference gives the column index of its letters, case-folded, and its row number minus one |
| Alphabet.Expr2XyOfXy2Expr | src/core/cell.js:234-239 | parsing the name of a cell gives back its coordinates |
| Alphabet.Xy2ExprIsCellRef | src/core/cell.js:239 | the name of a cell is itself a whole cell-reference match |
| DataProxy.Sheet.AddStyle | src/core/data_proxy.js:1653-1662 | `addStyle` returns the index of the first equal style and leaves the table alone, or appends and returns the new last index |
| DataProxy.Interned | src/core/data_proxy.js:1653-1662 | the returned index holds the style, is its first occurrence, and the table grows only when the style is new |
| DataProxy.InternedDistinct | src/core/data_proxy.js:1653-1662 | a table of distinct styles stays distinct |
| DataProxy.InternedTwice | src/core/data_proxy.js:1653-1662 | adding the same style twice changes nothing the second time and returns the same index |
| DataProxy.Sheet.ParseClipboardContent | src/core/data_proxy.js:648-661 | the loop builds one row per `\n` line, each split on tabs |
| DataProxy.ClipboardRoundTrip | src/core/data_proxy.js:648-661 | joining the cells with tabs and the rows with newlines gives the clipboard text back |
| DataProxy.ClipboardShape | src/core/data_proxy.js:652-657 | there is one row more than there are newlines, and no cell holds a tab or a newline |
| DataProxy.Sheet.GetMaximumAvailableIndexes | src/core/data_proxy.js:711-733 | maxRow is the largest row holding a cell and maxCol the largest column of any cell; both are 0 when there is none |
| DataProxy.Sheet.InsertColumns | src/core/data_proxy.js:1174-1184 | column settings at or after the insertion point move up by n, those before stay, and the count grows by n |
| DataProxy.Sheet.DeleteColumns | src/core/data_proxy.js:1224-1231 | settings in the deleted span are dropped, those after it move down by its width, those before stay, and the count shrinks by the width |
| DataProxy.DeleteUndoesInsert | src/core/data_proxy.js:1174-1231 | deleting the columns just inserted restores the column settings |
| DataProxy.Sheet.ResetAutoFilter | src/core/data_proxy.js:1116-1140 | an inactive filter changes nothing; an active one stores the row sets and the two maps between original and arranged rows |
| DataProxy.ArrangedIsPermutation | src/core/data_proxy.js:1123-1131 | the arranged rows are a permutation of the filtered rows, ascending or descending as the sort order says |
| DataProxy.SortRowsOrdered | src/core/data_proxy.js:1126-1130 | the row sort is ordered |
| DataProxy.AutoFilterMapsInverse | src/core/data_proxy.js:1132-1139 | `sortedRowMap` and `unsortedRowMap` are mutually inverse bijections on the filtered rows |
| DataProxy.LookupVariable | src/core/data_proxy.js:1339-1342 | a token is found iff it is in the table under its own name or its lower-cased name, and its own name wins |
| DataProxy.ResolveFlags | src/core/data_proxy.js:1331-1363 | with no trigger, or a text without it, the flags are (unresolved, resolving); otherwise they are those of the last token scanned |
| DataProxy.ResolvePiecesFlags | src/core/data_proxy.js:1338-1361 | the flags after the replace are set by the last token, known or not |
| DataProxy.ResolveKeepsUnknown | src/core/data_proxy.js:1346-1359 | when no token is in the table, the text comes back unchanged |
| DataProxy.ResolveDynamicVariable | src/core/data_proxy.js:1331-1363 | with a trigger that occurs in the text, the result text is the scanned pieces glued back with each one replaced as `Replaced` says; without one, the text comes back as it is, not resolved and resolving |
| DataProxy.Replaced | src/core/data_proxy.js:1338-1359 | piece by piece: plain text and a token not in the table (under its name or lower-cased name) are kept verbatim, a known token becomes its variable's value |
| DataProxy.ResolvePiecesText | src/core/data_proxy.js:1338-1361 | the replace pass appends to the text so far exactly the glued replacements of the pieces, in order |
| DataProxy.ResolveSingleToken | src/core/data_proxy.js:1340-1345 | a text that is one known token becomes the entry's value, with its resolved flag, and resolving cleared |
| Variables.Variable.constructor | src/core/variable.js:2-5 | a new table is empty |
| Variables.Variable.SetVariableMap | src/core/variable.js:7-10 | the whole table is replaced |
| Variables.Variable.GetVariableMap | src/core/variable.js:12-14 | the current table is returned |
| Variables.Variable.StoreVariable | src/core/variable.js:16-18 | the name now maps to the value; every other name keeps its entry or its absence |
| Variables.Variable.RemoveVariable | src/core/variable.js:20-22 | exactly that name is gone; every other name keeps its entry |
| Variables.StoreThenRemove | src/core/variable.js:16-22 | storing a new name and removing it gives back the table |
| Spreadsheets.Spreadsheet.UpdateSheetRef | src/index.js:112-129 | every cell of every sheet is rewritten by the callback as written (the name is the text before the first `!` once quotes are removed), and the cells written back are exactly those whose text changed |
| Spreadsheets.RenameInCells | src/index.js:116-127 | the walk over one sheet's cells rewrites each text with the callback as written, and collects exactly the cells whose text changed |
| Spreadsheets.ChangedCellsIff | src/index.js:126 | for the callback as written and for the corrected one alike, a cell is written back iff it exists and its rewritten text differs from its text |
| Spreadsheets.RenameInText | src/index.js:118-125 | text in which no sheet reference's name, as the callback reads it (as written or corrected), is the old name is left unchanged; renaming a sheet to its own name changes no text, with either callback |
| Spreadsheets.RenamedSheetsSameName | src/index.js:115-129 | renaming a sheet to its own name changes no sheet, with either callback |
| Spreadsheets.RenameMatchRequalifies | src/index.js:119-123 | a whole sheet reference whose qualifier names the old sheet gets the new name as its qualifier, keeping its quotes and its cell reference |
| Spreadsheets.QuotedReadName | src/index.js:120 | for any quoted qualifier `'a!b'` whose first part has no `!`, the name read as written is `a`, not the sheet the reference names |
| Spreadsheets.RenameAsWrittenHitsOtherSheet | src/index.js:120-122 | `'a!b'!A1` refers to sheet `a!b`, but the source reads its name as `a`, so renaming `a` to `c` rewrites it to `'c!b'!A1`; the corrected rename leaves it alone |
| Spreadsheets.RenameInTextHitsOtherSheet | src/index.js:118-125 | the cell text `'a!b'!A1` becomes `'c!b'!A1` under the rewrite as written when `a` is renamed to `c`, and stays as it is under the corrected one |
| Spreadsheets.ReplaceFirstSame | src/index.js:122 | replacing the first occurrence of a text by itself changes nothing |
| Spreadsheets.Spreadsheet.RenameSheet | src/index.js:101-104 | references are rewritten in every sheet by the callback as written, then the sheet at the index takes its new name |
| Spreadsheets.Spreadsheet.AddSheet | src/index.js:49-67 | the name defaults to `sheet` followed by the current index; the sheet is appended, and the index grows by one |
| Spreadsheets.Spreadsheet.constructor | src/index.js:14-37 | a new spreadsheet holds one sheet, `sheet1`, and its next index is 2 |
| Spreadsheets.DefaultNamesDiffer | src/index.js:50 | default names at distinct indexes differ |
| Spreadsheets.Spreadsheet.Reset | src/index.js:189-192 | `reset` sets the sheet index back to 1 |
| Utils.ParseDeclarations | src/utils.js:18-23 | the declaration walk computes the trimmed property map |
| Utils.Declaration | src/utils.js:21-22 | a declaration is kept iff it holds a `:` with non-empty text on both sides |
| Utils.DeclarationsLast | src/utils.js:20-23 | the value stored for a property is the one from its last kept declaration |
| Utils.PutGet | src/utils.js:22 | storing a property makes it read back and leaves every other property as it was |
| Utils.SpreadGet | src/utils.js:176 | in `{ ...a, ...b }`, a key of b takes b's value and any other key keeps a's |
| Utils.ParseBorderProperties | src/utils.js:102-177 | the walk over the declarations computes the border map followed by the other declarations |
| Utils.ClassifyAll | src/utils.js:111-163 | the classified border longhands and other declarations have unique keys, and the border sides hold only `style`, `width` and `color` |
| Utils.BoxRule | src/utils.js:129-158 | 1 to 4 values of a border longhand are spread as the CSS box shorthand does: all; top/bottom then left/right; top, left/right, bottom; top, right, bottom, left |
| Utils.BoxSteps | src/utils.js:139-157 | the four assignments of a branch set exactly that longhand of the four sides |
| Utils.SynthesizeGet | src/utils.js:165-174 | a side shorthand is synthesised from its longhands, `none` for width `0px` |
| Utils.SynthesizedOnlyWhenComplete | src/utils.js:167 | a side shorthand appears iff width, style and colour are all known |
| Utils.BorderPropertiesGet | src/utils.js:176 | an explicit declaration overrides the synthesised shorthand |
| Utils.ParseCssToXDataStyles | src/utils.js:12-100 | the method computes the parsed style |
| Utils.ParseCss | src/utils.js:12-13 | empty or missing input gives `{}`; otherwise a `font` entry is always present, and `border` only when some side is set |
| Utils.ApplyAllColors | src/utils.js:28-44 | `background` or `background-color` give `bgcolor`, and colour and alignments are copied, the last declaration winning |
| Utils.ApplyAllDecorations | src/utils.js:35-38 | `text-decoration: underline` sets `underline` and `line-through` sets `strike` |
| Utils.ApplyAllBold | src/utils.js:45-48 | `font-weight` gives bold iff its integer prefix exceeds 400 or it is `bold` |
| Utils.ApplyAllSize | src/utils.js:49-51 | the font size is the text before the first `px` |
| Utils.ApplyAllFace | src/utils.js:52-57 | `font-style: italic` sets italic, and `font-family` gives the name |
| Utils.ApplyAllBorders | src/utils.js:58-92 | a side holds a value iff `border` or its own `border-<side>` was declared, and then the last such declaration's values |
| Utils.BorderValues | src/utils.js:63-80 | the values are empty iff the declaration has at most two tokens, and two long otherwise |
| Utils.BorderValuesOfWords | src/utils.js:66-79 | `solid` becomes a weight from the width, and `black` or `initial` become `#000000` |
| Utils.LineWeight | src/utils.js:68-74 | a width of at most 1 is `thin`, at most 2 `medium`, and otherwise `thick` |
| Utils.TokensOfWords | src/utils.js:63-64 | the token regex splits space-joined words back into those words |
| Editors.CaretWord | src/component/editor.js:61-73 | the two caret loops find the start and end of the maximal non-whitespace run around the caret |
| Editors.CaretWordExactly | src/component/editor.js:207-219 | a pair of positions is the caret word iff it is the pair the scans compute |
| Editors.WordStartMaximal | src/component/editor.js:62-66 | every character from the start to the caret is non-whitespace, and the one before the start is whitespace or absent |
| Editors.WordEndMaximal | src/component/editor.js:68-71 | every character from the caret to the end is non-whitespace, and the one at the end is whitespace or absent |
| Editors.Editor.MentionMenuSearch | src/component/editor.js:59-79 | the menu searches exactly when the caret word starts with the trigger, and it searches for that word |
| Editors.MentionQuery | src/component/editor.js:73-78 | a query is made iff the caret word starts with the trigger, and it is that word |
| Editors.Editor.MentionInput | src/component/editor.js:203-240 | the caret word is replaced by the mention text, and the caret goes after the inserted word |
| Editors.MentionWordKeepsPath | src/component/editor.js:224-231 | with a `.`, the word keeps everything through its last `.` and ends with the value |
| Editors.MentionText | src/component/editor.js:234 | the inserted text has no spaces and the word's length |
| Editors.MentionKeepsOutside | src/component/editor.js:233-237 | text before and after the caret word is unchanged, and the inserted part has no spaces |
| Editors.MentionWithoutTriggerRemovesWord | src/component/editor.js:221-234 | a caret word without the trigger is deleted |
| Editors.Editor.SuggestItemClick | src/component/editor.js:168-189 | with a list validator the text becomes the item, caret at its end; otherwise the text through the last `=`, the key, `()` and the rest from the next `)`, caret after `(` |
| Editors.SuggestCaretBetweenParens | src/component/editor.js:175-186 | the caret sits between the inserted `(` and `)`, the text before the `=` is kept, and the key precedes the `(` |
| Editors.SuggestKeepsTail | src/component/editor.js:177-186 | what follows `()` is a suffix of the old text |
| Editors.ClosingTail | src/component/editor.js:177-182 | the kept tail is empty or starts at the first `)` after the `=` |
| Editors.Editor.InsertText | src/component/editor.js:36-45 | the text is spliced in at the caret, the caret moves one place, clamped to the text, and the input text follows the value |
| Editors.InsertTextUndone | src/component/editor.js:38 | removing the inserted text gives back the old value |
| Editors.Editor.SetText | src/component/editor.js:377-381 | the text becomes both the input text and the value, caret at its end |
| Editors.Editor.Clear | src/component/editor.js:292-306 | a non-empty input text is handed on as finished, nothing otherwise; the input text and the value are emptied, caret at 0 |
| Editors.Editor.SetDate | src/component/editor.js:257-261 | picking a date hands the formatted date on as finished and leaves the editor empty |
| Editors.DateFormatReadsBack | src/component/editor.js:195-201 | the date text is the year, `-`, the month as two digits and `-`, then the day as two digits, and each part reads back |
| Editors.DateFormat | src/component/editor.js:195-201 | the date text is six characters longer than the year: `-`, two digits, `-`, two digits |
| Editors.DateFormatInjective | src/component/editor.js:195-201 | distinct dates format differently |
| Editors.TwoDigits | src/component/editor.js:198-199 | the padded number has two digits and reads back as itself |

## Left out

- The external formula evaluator (`hot-formula-parser`) is a parameter of the model, and so are `getCellText` and `getDynamicVariable`. Their behaviour is not modelled.
- `infixExprToSuffixExpr` and `evalSuffixExpr` are left out. `cellRender` no longer calls them.
- The three sentinels `CIRCULAR_DEPENDENCY_ERROR`, `DYNAMIC_VARIABLE_ERROR` and `DYNAMIC_VARIABLE_RESOLVING` are imported from a file that is not part of this model. They are parameters.
  - Cell.SentinelsPropagate: assumes the sentinels do not contain one another, since their texts are unknown.
- `alphabet.js` is not part of this model. `expr2xy` and `xy2expr` are defined from `getColumnName`:
  - a reference is parsed case-insensitively, with optional `$`;
  - a text that does not parse is a throw.
- Cell.Env: the trigger is one character, or `None` for none. The lemmas about cell names further require that it is not a letter or digit (`TriggerApart`). The source takes any string and builds ``new RegExp(`\\${trigger}\\S*`)`` from it (`cell.js:265`, `data_proxy.js:1336`). That escape turns a letter trigger such as `d` into the class `\d`, and a trigger of several characters never equals `src[0]` (`cell.js:403`); neither is modelled. `None` stands for both an undefined and an empty trigger. The source differs between these only for an empty cell: it shows the cell as a dynamic variable when the trigger is undefined, and as itself when the trigger is `""`. The editor keeps its trigger as a string (`Editors.Editor`).
- Cell values other than strings (numbers, booleans) are represented by their `String()` form.
- DOM, canvas, events, history and the `change` callbacks are left out:
  - `setVariableMap`'s table redraw;
  - the bottom bar and `sheet-change` events in `addSheet` and `renameSheet`;
  - `deleteSheet` in `reset`;
  - `setCellText`'s side effects beyond the new text.
- Spreadsheets.Spreadsheet.Reset: does not model the `deleteSheet` call that follows, only the index reset.
- The editor's caret is an input. The caret update deferred through `setTimeout` is modelled as an immediate assignment.
  - The selection is assumed collapsed: `selectionStart` equals `selectionEnd`.
  - A caret beyond the text is excluded: JavaScript would read `undefined` characters there.
- Editors.Editor.MentionInput: requires the caret within the input text, which the source does not check.
- `Date` objects are reduced to their year, month index and day, which is all `dateFormat` reads.
- `String.prototype.replace` with a string replacement treats `$` sequences specially. A new sheet name holding `$&` or `$1` is not modelled: the name is inserted literally.
- `updateOtherSheetsFormula` and the other sheet-name plumbing are left out, as are `loadData` and the rest of `DataProxy`.
- JavaScript object key order is modelled as insertion order in the CSS parsing (`Entries`). Integer-like keys, which JavaScript enumerates first, are not singled out; CSS property names are never integer-like.
- DataProxy.Sheet.GetMaximumAvailableIndexes: rows and cells are sets of indexes, so `Number(key)` of a non-numeric key is not modelled.
- DataProxy.Sheet.ResetAutoFilter: the filtered and excepted row sets are inputs. `autoFilter.filteredRows` is not part of this model.
- Utils.LineWeight: `Number` of the width is an exact real. Rounding to the nearest double is not modelled, so a width such as `1.00000000000000001px` compares as more than 1 here, while JavaScript rounds it to 1.
- Unicode case mapping is restricted to ASCII letters. `toUpperCase` and `toLowerCase` are modelled on A-Z only.
- Variables.Variable.SetVariableMap: the table is a value (a `map` field), so the model copies what it is given. The source keeps a reference to the caller's object, and a later change the caller makes to that object shows in the sheet's table; that sharing is not modelled.
- Strings are sequences of Unicode scalar values. JavaScript indexes strings by UTF-16 code units, so a character outside the Basic Multilingual Plane counts twice there and once here. Caret and index arithmetic therefore differ for such characters. This covers `selectionStart`, `caret + 1`, `slice` and `s[s.length - 1]` in Editors.Editor.InsertText and Editors.Editor.MentionInput. It also covers `slice(-1)`, `lastIndexOf` and `substring` in CellInjection.ConstructFormula, and `src[0] === trigger` in `cellRender` (`cell.js:403`).
- Integers are unbounded. Row, column and sheet indexes never reach JavaScript's 2^53 in practice.

## Findings

| source | as written | input that shows it | evidently intended | confidence | as-written member | corrected member |
|---|---|---|---|---|---|---|
| src/index.js:120-122 | the sheet name of a reference is read as the text before the first `!` once all quotes are removed, and the rename replaces the first occurrence of the old name anywhere in the match | the cell text `'a!b'!A1` (sheet `a!b`, a valid quoted name) while renaming sheet `a` to `c`: it is rewritten to `'c!b'!A1` | only references whose qualifier names the renamed sheet change, and they get the new name as their qualifier | not executed | Spreadsheets.RenameAsWrittenHitsOtherSheet | Spreadsheets.RenameMatchRequalifies |

The rewrite is `Spreadsheets.RenameInText`. Its flag chooses the callback: as written (`true`) or with the name comparison corrected (`false`). The `Spreadsheet` class runs the callback as written, as the source does. The contract of the rewrite and every lemma about it (`ChangedCellsIff`, `RenamedSheetsSameName`) hold for both callbacks. `RenameInTextHitsOtherSheet` shows the two callbacks disagreeing on a whole cell text.
