/**
 * The formula resolution engine of src/core/cell.js: `cellRender`, the rewriter
 * `parserFormulaString` it calls on a formula, and `rangeToCellConversion`.
 *
 * The collaborators the engine calls but does not define are fields of `Env`:
 * `getCellText`, `getDynamicVariable`, the external evaluator, the trigger
 * character, and the three sentinel texts the engine imports without the
 * constants file defining them. `sites` is the finite set of cells holding a
 * formula: the rewriter only recurses into such cells, which is what makes it
 * terminate.
 *
 * The call-stack map `formulaCallStack` is a single object shared by every
 * nested call of one top-level render, updated in place. Here it is a value
 * threaded through the calls: each call receives the map as its callers left it
 * and hands back the map as it leaves it.
 */
module Cell {
  import opened JsString
  import opened JsNumber
  import opened Options
  import opened Constants
  import opened Alphabet

  /** What `getDynamicVariable(name)` answers; a `None` text stands for `undefined`. */
  datatype Lookup = Lookup(text: Option<string>, resolved: bool, resolving: bool)

  /** What the external evaluator makes of a rewritten formula: it throws, reports an error code, or yields a value. */
  datatype Outcome = Threw | Failed(code: string) | Value(shown: string)

  datatype Env = Env(
    cellText: (nat, nat, Option<string>) -> string,  // getCellText(x, y, sheet)
    variable: string -> Lookup,                      // getDynamicVariable
    evaluate: string -> Outcome,                     // the formula evaluator
    trigger: Option<char>,
    sites: set<(Option<string>, nat, nat)>,
    circularError: string,                           // CIRCULAR_DEPENDENCY_ERROR
    variableError: string,                           // DYNAMIC_VARIABLE_ERROR
    variableResolving: string)                       // DYNAMIC_VARIABLE_RESOLVING

  /** Every cell whose text is a formula is one of the finitely many `sites`. */
  ghost predicate Valid(env: Env)
  {
    forall sheet, x: nat, y: nat :: StartsWith(env.cellText(x, y, sheet), "=") ==> (sheet, x, y) in env.sites
  }

  /** `formulaCallStack`: for each sheet key, the reference texts entered so far. */
  type CallStack = map<string, seq<string>>

  /** The property name a sheet name becomes when it indexes the call-stack object. */
  function Key(sheet: Option<string>): string
  {
    if sheet.Some? then sheet.value else "undefined"
  }

  /** `formulaCallStack?.[key]?.includes(ref)`. */
  predicate OnStack(stack: CallStack, key: string, ref: string)
  {
    key in stack && ref in stack[key]
  }

  /** `(formulaCallStack[key] = formulaCallStack[key] || []).push(ref)`. */
  function Push(stack: CallStack, key: string, ref: string): CallStack
  {
    stack[key := (if key in stack then stack[key] else []) + [ref]]
  }

  /** `b` is `a` with entries appended: no key is dropped and no list loses or reorders an entry. */
  ghost predicate Grows(a: CallStack, b: CallStack)
  {
    forall key :: key in a ==> key in b && a[key] <= b[key]
  }

  lemma GrowsTransitive(a: CallStack, b: CallStack, c: CallStack)
    requires Grows(a, b) && Grows(b, c)
    ensures Grows(a, c)
  {
  }

  // ---------------------------------------------------------------------------
  // Termination: the (sheet key, reference text) pairs that may still be entered.

  /** The keys a render rooted at `sheet` can push under. */
  ghost function SiteKeys(env: Env, sheet: Option<string>): set<string>
  {
    (set site | site in env.sites :: Key(site.0)) + {Key(sheet)}
  }

  /** Every spelling of every formula cell's address. */
  ghost function SiteRefs(env: Env): set<string>
  {
    set site, ref | site in env.sites && ref in RefVariants(site.1, site.2) :: ref
  }

  ghost function Universe(env: Env, sheet: Option<string>): set<(string, string)>
  {
    set key, ref | key in SiteKeys(env, sheet) && ref in SiteRefs(env) :: (key, ref)
  }

  ghost function Pairs(stack: CallStack): set<(string, string)>
  {
    set key, ref | key in stack && ref in stack[key] :: (key, ref)
  }

  /** The number of pairs of the universe not yet on the stack. */
  ghost function Pending(env: Env, sheet: Option<string>, stack: CallStack): nat
  {
    |Universe(env, sheet) - Pairs(stack)|
  }

  lemma SubsetSize<T>(a: set<T>, b: set<T>)
    requires a <= b
    ensures |a| <= |b|
    decreases a
  {
    if a != {} {
      var x :| x in a;
      SubsetSize(a - {x}, b - {x});
    }
  }

  lemma GrowsPending(env: Env, sheet: Option<string>, a: CallStack, b: CallStack)
    requires Grows(a, b)
    ensures Pending(env, sheet, b) <= Pending(env, sheet, a)
  {
    assert Pairs(a) <= Pairs(b) by {
      forall pair | pair in Pairs(a) ensures pair in Pairs(b) {
        var (key, ref) := pair;
        assert key in a && ref in a[key];
        assert a[key] <= b[key];
        var k :| 0 <= k < |a[key]| && a[key][k] == ref;
        assert b[key][k] == ref;
      }
    }
    SubsetSize(Universe(env, sheet) - Pairs(b), Universe(env, sheet) - Pairs(a));
  }

  lemma PairsOfPush(stack: CallStack, key: string, ref: string)
    ensures Pairs(Push(stack, key, ref)) == Pairs(stack) + {(key, ref)}
  {
    var pushed := Push(stack, key, ref);
    forall p | p in Pairs(pushed) ensures p in Pairs(stack) + {(key, ref)} {
      var (k, r) := p;
      if k != key || r != ref {
        var i :| 0 <= i < |pushed[k]| && pushed[k][i] == r;
        assert k in stack && stack[k][i] == r;
      }
    }
    forall p | p in Pairs(stack) ensures p in Pairs(pushed) {
      var (k, r) := p;
      var i :| 0 <= i < |stack[k]| && stack[k][i] == r;
      assert pushed[k][i] == r;
    }
    assert ref == pushed[key][|pushed[key]| - 1];
  }

  lemma UniverseWithin(env: Env, sheet: Option<string>, target: Option<string>)
    requires SiteKeys(env, target) <= SiteKeys(env, sheet)
    ensures Universe(env, target) <= Universe(env, sheet)
  {
  }

  /** Entering a new pair of the universe leaves strictly fewer pending pairs. */
  lemma PushPending(env: Env, sheet: Option<string>, target: Option<string>, stack: CallStack, ref: string)
    requires !OnStack(stack, Key(target), ref)
    requires ref in SiteRefs(env)
    requires Key(target) in SiteKeys(env, sheet) && SiteKeys(env, target) <= SiteKeys(env, sheet)
    ensures Pending(env, target, Push(stack, Key(target), ref)) < Pending(env, sheet, stack)
  {
    var pair := (Key(target), ref);
    var before := Universe(env, sheet) - Pairs(stack);
    var after := Universe(env, target) - Pairs(Push(stack, Key(target), ref));
    assert pair in before by { assert pair !in Pairs(stack); }
    PendingShrinks(Universe(env, sheet), Universe(env, target), Pairs(stack), Pairs(Push(stack, Key(target), ref)), pair)
      by { PairsOfPush(stack, Key(target), ref); UniverseWithin(env, sheet, target); }
    SubsetSize(after, before - {pair});
  }

  lemma PendingShrinks<T>(u: set<T>, v: set<T>, done: set<T>, done': set<T>, pair: T)
    requires v <= u && done' == done + {pair}
    ensures v - done' <= (u - done) - {pair}
  {
  }

  /** A formula cell's address is among the spellings of the sites. */
  lemma SiteRef(env: Env, site: (Option<string>, nat, nat), ref: string)
    requires site in env.sites && Expr2Xy(ref) == Some((site.1, site.2))
    ensures ref in SiteRefs(env)
  {
    Expr2XyVariant(ref);
  }

  /** A formula cell of sheet `link` roots renders within the keys of any render. */
  lemma SiteSheet(env: Env, sheet: Option<string>, link: string, x: nat, y: nat)
    requires (Some(link), x, y) in env.sites
    ensures link in SiteKeys(env, sheet) && SiteKeys(env, Some(link)) <= SiteKeys(env, sheet)
  {
    assert Key((Some(link), x, y).0) == link;
  }

  // ---------------------------------------------------------------------------
  // rangeToCellConversion

  /** The cells of column `x` from row `sy` up to, not including, row `yEnd`, top to bottom. */
  function ColumnCells(x: nat, sy: nat, yEnd: nat): (cells: seq<string>)
    ensures |cells| == if yEnd >= sy then yEnd - sy else 0
  {
    if yEnd <= sy then [] else ColumnCells(x, sy, yEnd - 1) + [Xy2Expr(x, yEnd - 1)]
  }

  /** The cells of columns `sx` up to, not including, `xEnd`, each column from row `sy` up to `yEnd`: column-major. */
  function BlockCells(sx: nat, xEnd: nat, sy: nat, yEnd: nat): seq<string>
  {
    if xEnd <= sx then [] else BlockCells(sx, xEnd - 1, sy, yEnd) + ColumnCells(xEnd - 1, sy, yEnd)
  }

  /** `rangeToCellConversion(range)`; `None` when `expr2xy` refuses an endpoint. */
  function RangeCells(range: string): Option<string>
  {
    if |range| == 0 then Some("") else ExpandCorners(Split(Upper(range), ':'))
  }

  /** The expansion of the `:`-separated parts of an upper-cased range. */
  function ExpandCorners(parts: seq<string>): Option<string>
  {
    if |parts| != 2 then Some("")
    else if Expr2Xy(parts[1]).None? || Expr2Xy(parts[0]).None? then None
    else
      var (ex, ey) := Expr2Xy(parts[1]).value;
      var (sx, sy) := Expr2Xy(parts[0]).value;
      Some(Join(BlockCells(sx, ex + 1, sy, ey + 1), ','))
  }

  // ---------------------------------------------------------------------------
  // The substitutions the rewriter's replace callbacks make.

  /** A referenced plain text: itself when it reads as a number, otherwise in double quotes. */
  function Literal(text: string): string
  {
    if IsNaNText(text) then "\"" + text + "\"" else text
  }

  /** The value of a cell that is wholly a dynamic variable. */
  function VariableValue(env: Env, src: string): string
  {
    var v := env.variable(src);
    if v.resolving then env.variableResolving
    else if v.resolved then (if v.text.Some? then v.text.value else src)
    else env.variableError
  }

  /** `src[0] === trigger`, where an empty text has first character `undefined`. */
  predicate IsVariableCell(env: Env, src: string)
  {
    if |src| == 0 then env.trigger.None? else env.trigger == Some(src[0])
  }

  predicate IsFormula(src: string) { |src| > 0 && src[0] == '=' }

  /** `code.replace("#", "")`: the first `#` removed. */
  function DropHash(code: string): (r: string)
    ensures '#' !in code ==> r == code
    ensures '#' in code ==>
      && |r| == |code| - 1
      && code == r[..IndexOfChar(code, '#')] + "#" + r[IndexOfChar(code, '#')..]
      && '#' !in r[..IndexOfChar(code, '#')]
  {
    var i := IndexOfChar(code, '#');
    if i == -1 then code else code[..i] + code[i + 1..]
  }

  /** What `cellRender` makes of a rewritten formula: sentinels by substring, in a fixed order, then the evaluator. */
  function Verdict(env: Env, parsed: string): (r: string)
    ensures || r in {REF_ERROR, env.circularError, env.variableResolving, env.variableError, GENERAL_ERROR}
            || env.evaluate(parsed) == Value(r)
            || (env.evaluate(parsed).Failed? && '#' !in env.evaluate(parsed).code && r == env.evaluate(parsed).code)
            || (env.evaluate(parsed).Failed? && |r| + 1 == |env.evaluate(parsed).code|)
  {
    if Contains(parsed, REF_ERROR) then REF_ERROR
    else if Contains(parsed, env.circularError) then env.circularError
    else if Contains(parsed, env.variableResolving) then env.variableResolving
    else if Contains(parsed, env.variableError) then env.variableError
    else
      match env.evaluate(parsed)
      case Threw => GENERAL_ERROR
      case Failed(code) => DropHash(code)
      case Value(shown) => shown
  }

  /**
   * The order in which `cellRender` looks for sentinels in the rewritten formula:
   * the first one found wins, and the evaluator is consulted only when none is
   * there; an evaluator that throws gives GENERAL_ERROR.
   */
  lemma VerdictOrder(env: Env, parsed: string)
    ensures Contains(parsed, REF_ERROR) ==> Verdict(env, parsed) == REF_ERROR
    ensures (!Contains(parsed, REF_ERROR) && Contains(parsed, env.circularError)) ==>
      Verdict(env, parsed) == env.circularError
    ensures (!Contains(parsed, REF_ERROR) && !Contains(parsed, env.circularError) &&
             Contains(parsed, env.variableResolving)) ==>
      Verdict(env, parsed) == env.variableResolving
    ensures (!Contains(parsed, REF_ERROR) && !Contains(parsed, env.circularError) &&
             !Contains(parsed, env.variableResolving) && Contains(parsed, env.variableError)) ==>
      Verdict(env, parsed) == env.variableError
    ensures var clean := !Contains(parsed, REF_ERROR) && !Contains(parsed, env.circularError) &&
                         !Contains(parsed, env.variableResolving) && !Contains(parsed, env.variableError);
      && (clean && env.evaluate(parsed).Threw? ==> Verdict(env, parsed) == GENERAL_ERROR)
      && (clean && env.evaluate(parsed).Value? ==> Verdict(env, parsed) == env.evaluate(parsed).shown)
      && (clean && env.evaluate(parsed).Failed? && '#' !in env.evaluate(parsed).code ==>
            Verdict(env, parsed) == env.evaluate(parsed).code)
  {
  }

  // ---------------------------------------------------------------------------
  // The dynamic-variable pass.

  /** The text after the dynamic-variable pass and the two flags its callback sets. */
  datatype Substitution = Substitution(out: string, resolving: bool, failed: bool)

  /** What the callback of the dynamic-variable pass returns for token `m` (`undefined` unless resolved). */
  function VariableText(env: Env, m: string): string
  {
    var v := env.variable(m);
    if !v.resolving && v.resolved && v.text.Some? then v.text.value else "undefined"
  }

  function VariablePass(env: Env, pieces: seq<Piece>): Substitution
  {
    if |pieces| == 0 then Substitution("", false, false)
    else
      var rest := VariablePass(env, pieces[1..]);
      if pieces[0].Text? then rest.(out := pieces[0].text + rest.out)
      else
        var v := env.variable(pieces[0].text);
        Substitution(VariableText(env, pieces[0].text) + rest.out,
                     rest.resolving || v.resolving, rest.failed || (!v.resolving && !v.resolved))
  }

  /** The formula after the dynamic-variable pass, which only runs when there is a trigger. */
  function VariableStage(env: Env, formula: string): Substitution
  {
    if env.trigger.Some? then VariablePass(env, Scan(DynamicVariablePattern(env.trigger.value), formula))
    else Substitution(formula, false, false)
  }

  // ---------------------------------------------------------------------------
  // The range pass: no state, but `expr2xy` may throw.

  function RangeText(m: string): Option<string>
  {
    match RangeCells(m)
    case None => None
    case Some(cells) => Some(if |cells| > 0 then cells else "undefined")
  }

  function RangePass(pieces: seq<Piece>): Option<string>
  {
    if |pieces| == 0 then Some("")
    else
      var head := if pieces[0].Text? then Some(pieces[0].text) else RangeText(pieces[0].text);
      var rest := RangePass(pieces[1..]);
      if head.Some? && rest.Some? then Some(head.value + rest.value) else None
  }

  // ---------------------------------------------------------------------------
  // The two reference passes, which recurse into referenced formulas.

  /**
   * The state of a reference pass: the text so far, the call stack, the flags
   * `isCircularDependency` and `isFormulaResolved`, and whether a callback threw.
   */
  datatype Progress = Progress(out: string, stack: CallStack, circular: bool, refError: bool, threw: bool)

  /** The quote-stripped sheet name and reference of a sheet-qualified token. */
  function SheetParts(m: string): seq<string>
  {
    Split(RemoveChar(m, '\''), '!')
  }

  /**
   * A reference to formula `text` under key `Key(target)`: seen before (or a cycle
   * already found) gives `0` and sets the flag; otherwise the reference is pushed
   * and, unless the flag is set, the formula is rendered.
   */
  function FormulaRef(env: Env, sheet: Option<string>, target: Option<string>, ref: string, text: string, p: Progress): (q: Progress)
    requires Valid(env)
    requires ref in SiteRefs(env)
    requires Key(target) in SiteKeys(env, sheet) && SiteKeys(env, target) <= SiteKeys(env, sheet)
    ensures Grows(p.stack, q.stack)
    ensures q.threw == p.threw && q.refError == p.refError
    decreases Pending(env, sheet, p.stack), 0
  {
    var key := Key(target);
    if OnStack(p.stack, key, ref) then p.(out := p.out + "0", circular := true)
    else
      var stack := Push(p.stack, key, ref);
      PushGrows(p.stack, key, ref);
      if p.circular then p.(out := p.out + "0", stack := stack)
      else
        PushPending(env, sheet, target, p.stack, ref);
        var (v, after) := Render(env, text, stack, target);
        GrowsTransitive(p.stack, stack, after);
        p.(out := p.out + v, stack := after)
  }

  lemma PushGrows(stack: CallStack, key: string, ref: string)
    ensures Grows(stack, Push(stack, key, ref))
  {
  }

  /** The callback of the sheet-qualified pass, for token `m`. */
  function SheetRef(env: Env, sheet: Option<string>, m: string, p: Progress): (q: Progress)
    requires Valid(env)
    ensures Grows(p.stack, q.stack)
    decreases Pending(env, sheet, p.stack), 1, 0
  {
    var parts := SheetParts(m);
    if |parts| < 2 || Expr2Xy(parts[1]).None? then p.(threw := true)
    else
      var link := parts[0];
      var (x, y) := Expr2Xy(parts[1]).value;
      var text := env.cellText(x, y, Some(link));
      if StartsWith(text, "=") then
        SiteRef(env, (Some(link), x, y), parts[1]);
        SiteSheet(env, sheet, link, x, y);
        FormulaRef(env, sheet, Some(link), parts[1], text, p)
      else p.(out := p.out + Literal(text), refError := p.refError || text == REF_ERROR)
  }

  function SheetPass(env: Env, sheet: Option<string>, pieces: seq<Piece>, p: Progress): (q: Progress)
    requires Valid(env)
    ensures Grows(p.stack, q.stack)
    decreases Pending(env, sheet, p.stack), 1, |pieces|
  {
    if |pieces| == 0 || p.threw then p
    else
      var q := if pieces[0].Text? then p.(out := p.out + pieces[0].text) else SheetRef(env, sheet, pieces[0].text, p);
      GrowsPending(env, sheet, p.stack, q.stack);
      var r := SheetPass(env, sheet, pieces[1..], q);
      GrowsTransitive(p.stack, q.stack, r.stack);
      r
  }

  /** The callback of the bare-reference pass, for token `m`: it reads the cell with no sheet. */
  function BareRef(env: Env, sheet: Option<string>, m: string, p: Progress): (q: Progress)
    requires Valid(env)
    ensures Grows(p.stack, q.stack)
    decreases Pending(env, sheet, p.stack), 1, 0
  {
    match Expr2Xy(m)
    case None => p.(threw := true)
    case Some((x, y)) =>
      var text := env.cellText(x, y, None);
      if text == "" then p.(out := p.out + "0")
      else if StartsWith(text, "=") then
        SiteRef(env, (None, x, y), m);
        FormulaRef(env, sheet, sheet, m, text, p)
      else p.(out := p.out + Literal(text))
  }

  function BarePass(env: Env, sheet: Option<string>, pieces: seq<Piece>, p: Progress): (q: Progress)
    requires Valid(env)
    ensures Grows(p.stack, q.stack)
    decreases Pending(env, sheet, p.stack), 1, |pieces|
  {
    if |pieces| == 0 || p.threw then p
    else
      var q := if pieces[0].Text? then p.(out := p.out + pieces[0].text) else BareRef(env, sheet, pieces[0].text, p);
      GrowsPending(env, sheet, p.stack, q.stack);
      var r := BarePass(env, sheet, pieces[1..], q);
      GrowsTransitive(p.stack, q.stack, r.stack);
      r
  }

  // ---------------------------------------------------------------------------
  // parserFormulaString and cellRender

  /** The formula after the dynamic-variable and space-removal passes. */
  function Spaced(text: string): string
  {
    Between(Scan(SpacePattern, text))
  }

  /**
   * `parserFormulaString(formula, ..., stack, sheet)`: the rewritten formula and the
   * call stack as the rewrite leaves it.
   */
  function Rewrite(env: Env, formula: string, stack: CallStack, sheet: Option<string>): (r: (string, CallStack))
    requires Valid(env)
    ensures Grows(stack, r.1)
    decreases Pending(env, sheet, stack), 2
  {
    if |formula| == 0 then ("", stack)
    else
      var dv := VariableStage(env, formula);
      if dv.resolving then (env.variableResolving, stack)
      else if dv.failed then (env.variableError, stack)
      else
        var p := SheetPass(env, sheet, Scan(SheetRefPattern, Spaced(dv.out)), Progress("", stack, false, false, false));
        if p.threw then (formula, p.stack)
        else if p.refError then (REF_ERROR, p.stack)
        else
          match RangePass(Scan(RangePattern, p.out))
          case None => (formula, p.stack)
          case Some(ranged) =>
            GrowsPending(env, sheet, stack, p.stack);
            var q := BarePass(env, sheet, Scan(CellRefPattern, ranged), Progress("", p.stack, p.circular, false, false));
            GrowsTransitive(stack, p.stack, q.stack);
            if q.threw then (formula, q.stack)
            else (if q.circular then env.circularError else q.out, q.stack)
  }

  /** `cellRender(src, ..., stack, sheet)`: what the cell shows, and the call stack afterwards. */
  function Render(env: Env, src: string, stack: CallStack, sheet: Option<string>): (r: (string, CallStack))
    requires Valid(env)
    ensures Grows(stack, r.1)
    decreases Pending(env, sheet, stack), 3
  {
    if IsFormula(src) then
      var (parsed, after) := Rewrite(env, src[1..], stack, sheet);
      (Verdict(env, parsed), after)
    else if IsVariableCell(env, src) then (VariableValue(env, src), stack)
    else (src, stack)
  }

  /** A top-level `cellRender` call, which starts from an empty call stack. */
  function CellRender(env: Env, src: string, sheet: Option<string>): string
    requires Valid(env)
  {
    Render(env, src, map[], sheet).0
  }

  // ---------------------------------------------------------------------------
  // rangeToCellConversion as the source writes it, and what its result lists.

  /** `rangeToCellConversion(range)`. */
  method RangeToCellConversion(range: string) returns (cells: Option<string>)
    ensures cells == RangeCells(range)
  {
    if |range| == 0 {
      return Some("");
    }
    var cellInfo := Split(Upper(range), ':');
    RangeCellsCorners(range);
    if |cellInfo| != 2 {
      return Some("");
    }
    var end := Expr2Xy(cellInfo[1]);
    var start := Expr2Xy(cellInfo[0]);
    if end.None? || start.None? {
      return None;
    }
    var (ex, ey) := end.value;
    var (sx, sy) := start.value;
    ExpandCornersBlock(cellInfo, sx, sy, ex, ey);
    var cellArray := RectangleNames(sx, sy, ex, ey);
    return Some(Join(cellArray, ','));
  }

  /** The two nested loops of `rangeToCellConversion`, which fill `cellArray` column by column. */
  method RectangleNames(sx: nat, sy: nat, ex: nat, ey: nat) returns (cellArray: seq<string>)
    ensures cellArray == BlockCells(sx, ex + 1, sy, ey + 1)
  {
    cellArray := [];
    var x := sx;
    while x <= ex
      invariant sx <= x && (x <= ex + 1 || x == sx)
      invariant cellArray == BlockCells(sx, x, sy, ey + 1)
      decreases ex as int + 1 - x
    {
      cellArray := PushColumn(cellArray, x, sy, ey);
      BlockCellsStep(sx, x, sy, ey + 1);
      x := x + 1;
    }
  }

  /** The inner loop of `rangeToCellConversion`: pushes the names of column `x`, rows `sy` to `ey`. */
  method PushColumn(cells: seq<string>, x: nat, sy: nat, ey: nat) returns (cellArray: seq<string>)
    ensures cellArray == cells + ColumnCells(x, sy, ey + 1)
  {
    cellArray := cells;
    var y := sy;
    while y <= ey
      invariant sy <= y && (y <= ey + 1 || y == sy)
      invariant cellArray == cells + ColumnCells(x, sy, y)
      decreases ey as int + 1 - y
    {
      ColumnCellsStep(x, sy, y);
      cellArray := cellArray + [Xy2Expr(x, y)];
      y := y + 1;
    }
    assert ColumnCells(x, sy, y) == ColumnCells(x, sy, ey + 1) by {
      if sy <= ey { assert y == ey + 1; } else { assert y == sy; }
    }
  }

  lemma ColumnCellsStep(x: nat, sy: nat, y: nat)
    requires sy <= y
    ensures ColumnCells(x, sy, y + 1) == ColumnCells(x, sy, y) + [Xy2Expr(x, y)]
  {
  }

  lemma BlockCellsStep(sx: nat, x: nat, sy: nat, yEnd: nat)
    requires sx <= x
    ensures BlockCells(sx, x + 1, sy, yEnd) == BlockCells(sx, x, sy, yEnd) + ColumnCells(x, sy, yEnd)
  {
  }

  lemma {:induction false} ColumnCellsAt(x: nat, sy: nat, yEnd: nat, j: nat)
    requires sy + j < yEnd
    ensures ColumnCells(x, sy, yEnd)[j] == Xy2Expr(x, sy + j)
    decreases yEnd
  {
    if sy + j < yEnd - 1 {
      ColumnCellsAt(x, sy, yEnd - 1, j);
    }
  }

  /** Position `j` of column `i` in a column-major list of columns of height `h`. */
  function Slot(i: nat, j: nat, sy: nat, yEnd: nat): nat
    requires sy <= yEnd
  {
    i * (yEnd - sy) + j
  }

  lemma SlotBelow(i: nat, j: nat, h: nat, w: nat)
    requires i < w && j < h
    ensures i * h + j < w * h
  {
    assert i * h + j < (i + 1) * h;
    assert (i + 1) * h <= w * h;
  }

  lemma {:induction false} BlockCellsSize(sx: nat, xEnd: nat, sy: nat, yEnd: nat)
    requires sx <= xEnd && sy <= yEnd
    ensures |BlockCells(sx, xEnd, sy, yEnd)| == (xEnd - sx) * (yEnd - sy)
    decreases xEnd
  {
    if xEnd > sx {
      BlockCellsSize(sx, xEnd - 1, sy, yEnd);
      assert (xEnd - sx) * (yEnd - sy) == (xEnd - 1 - sx) * (yEnd - sy) + (yEnd - sy);
    }
  }

  /**
   * The block lists `(xEnd - sx) * (yEnd - sy)` names, column-major: at slot
   * `(i, j)` is the name of column `sx + i`, row `sy + j`.
   */
  lemma {:induction false} BlockCellsAt(sx: nat, xEnd: nat, sy: nat, yEnd: nat)
    requires sx <= xEnd && sy <= yEnd
    ensures |BlockCells(sx, xEnd, sy, yEnd)| == (xEnd - sx) * (yEnd - sy)
    ensures forall i, j :: 0 <= i < xEnd - sx && 0 <= j < yEnd - sy ==>
      Slot(i, j, sy, yEnd) < |BlockCells(sx, xEnd, sy, yEnd)| &&
      BlockCells(sx, xEnd, sy, yEnd)[Slot(i, j, sy, yEnd)] == Xy2Expr(sx + i, sy + j)
    decreases xEnd
  {
    var h := yEnd - sy;
    if xEnd > sx {
      var w := xEnd - 1 - sx;
      var front := BlockCells(sx, xEnd - 1, sy, yEnd);
      var column := ColumnCells(xEnd - 1, sy, yEnd);
      var block := BlockCells(sx, xEnd, sy, yEnd);
      BlockCellsAt(sx, xEnd - 1, sy, yEnd);
      assert block == front + column;
      ConcatColumns(front, column, w, h);
      forall i, j | 0 <= i < xEnd - sx && 0 <= j < h
        ensures Slot(i, j, sy, yEnd) < |block| && block[Slot(i, j, sy, yEnd)] == Xy2Expr(sx + i, sy + j)
      {
        ColumnSlot(front, column, w, h, i, j);
        if i == w {
          ColumnCellsAt(xEnd - 1, sy, yEnd, j);
        }
      }
    }
  }

  lemma ConcatColumns(front: seq<string>, column: seq<string>, w: nat, h: nat)
    requires |front| == w * h && |column| == h
    ensures |front + column| == (w + 1) * h
  {
    assert (w + 1) * h == w * h + h;
  }

  /** Slot `(i, j)` of `w` columns of height `h` followed by one more column. */
  lemma ColumnSlot(front: seq<string>, column: seq<string>, w: nat, h: nat, i: nat, j: nat)
    requires |front| == w * h && |column| == h && i <= w && j < h
    ensures i * h + j < |front + column|
    ensures i < w ==> i * h + j < |front| && (front + column)[i * h + j] == front[i * h + j]
    ensures i == w ==> (front + column)[i * h + j] == column[j]
  {
    SlotBelow(i, j, h, w + 1);
    ConcatColumns(front, column, w, h);
    if i < w {
      SlotBelow(i, j, h, w);
    }
  }

  lemma RangeCellsCorners(range: string)
    requires |range| > 0
    ensures RangeCells(range) == ExpandCorners(Split(Upper(range), ':'))
  {
  }

  lemma ExpandCornersBlock(parts: seq<string>, sx: nat, sy: nat, ex: nat, ey: nat)
    requires |parts| == 2 && Expr2Xy(parts[0]) == Some((sx, sy)) && Expr2Xy(parts[1]) == Some((ex, ey))
    ensures ExpandCorners(parts) == Some(Join(BlockCells(sx, ex + 1, sy, ey + 1), ','))
  {
  }

  /**
   * A range `A:B` (its two parts after upper-casing and splitting on `:`) whose
   * corner `A` is above and left of `B` expands to the comma-joined names of the
   * rectangle's cells, column by column as `BlockCellsAt` lays them out.
   */
  lemma RangeCellsLists(parts: seq<string>, sx: nat, sy: nat, ex: nat, ey: nat)
    requires |parts| == 2 && Expr2Xy(parts[0]) == Some((sx, sy)) && Expr2Xy(parts[1]) == Some((ex, ey))
    requires sx <= ex && sy <= ey
    ensures ExpandCorners(parts).Some?
    ensures Split(ExpandCorners(parts).value, ',') == BlockCells(sx, ex + 1, sy, ey + 1)
  {
    ExpandCornersBlock(parts, sx, sy, ex, ey);
    BlockSplits(sx, sy, ex, ey);
  }

  /** Joining a non-empty block with commas and splitting it again gives the block back. */
  lemma BlockSplits(sx: nat, sy: nat, ex: nat, ey: nat)
    requires sx <= ex && sy <= ey
    ensures Split(Join(BlockCells(sx, ex + 1, sy, ey + 1), ','), ',') == BlockCells(sx, ex + 1, sy, ey + 1)
  {
    var block := BlockCells(sx, ex + 1, sy, ey + 1);
    BlockCellsSize(sx, ex + 1, sy, ey + 1);
    assert |block| >= 1 by { NonZeroProduct(ex + 1 - sx, ey + 1 - sy); }
    BlockNoComma(sx, ex + 1, sy, ey + 1);
    SplitJoin(block, ',');
  }

  lemma NonZeroProduct(a: nat, b: nat)
    requires a >= 1 && b >= 1
    ensures a * b >= 1
  {
  }

  lemma {:induction false} BlockNoComma(sx: nat, xEnd: nat, sy: nat, yEnd: nat)
    ensures forall k :: 0 <= k < |BlockCells(sx, xEnd, sy, yEnd)| ==> ',' !in BlockCells(sx, xEnd, sy, yEnd)[k]
    decreases xEnd
  {
    if xEnd > sx {
      BlockNoComma(sx, xEnd - 1, sy, yEnd);
      ColumnNoComma(xEnd - 1, sy, yEnd);
    }
  }

  lemma {:induction false} ColumnNoComma(x: nat, sy: nat, yEnd: nat)
    ensures forall k :: 0 <= k < |ColumnCells(x, sy, yEnd)| ==> ',' !in ColumnCells(x, sy, yEnd)[k]
    decreases yEnd
  {
    if yEnd > sy {
      ColumnNoComma(x, sy, yEnd - 1);
      Xy2ExprAlnum(x, yEnd - 1);
    }
  }

  /** Anything but exactly two endpoints expands to nothing. */
  lemma RangeCellsNotTwo(parts: seq<string>)
    requires |parts| != 2
    ensures ExpandCorners(parts) == Some("")
  {
  }

  /** A reversed rectangle, right of or below its end corner, expands to nothing. */
  lemma RangeCellsReversed(parts: seq<string>, sx: nat, sy: nat, ex: nat, ey: nat)
    requires |parts| == 2 && Expr2Xy(parts[0]) == Some((sx, sy)) && Expr2Xy(parts[1]) == Some((ex, ey))
    requires sx > ex || sy > ey
    ensures ExpandCorners(parts) == Some("")
  {
    ExpandCornersBlock(parts, sx, sy, ex, ey);
    BlockEmpty(sx, ex + 1, sy, ey + 1);
  }

  lemma {:induction false} BlockEmpty(sx: nat, xEnd: nat, sy: nat, yEnd: nat)
    requires xEnd <= sx || yEnd <= sy
    ensures BlockCells(sx, xEnd, sy, yEnd) == []
    decreases xEnd
  {
    if xEnd > sx {
      BlockEmpty(sx, xEnd - 1, sy, yEnd);
    }
  }

  // ---------------------------------------------------------------------------
  // What the rewriter promises.

  /** A referenced text reads as a number after substitution exactly when it did before. */
  lemma LiteralKeepsNumbers(text: string)
    ensures IsNaNText(Literal(text)) == IsNaNText(text)
    ensures !IsNaNText(text) ==> Literal(text) == text
  {
    if IsNaNText(text) {
      var quoted := "\"" + text + "\"";
      assert quoted[0] == '"';
      QuotedIsNaN(quoted);
    }
  }

  predicate Resolving(env: Env, m: string) { env.variable(m).resolving }

  predicate Unresolved(env: Env, m: string) { !env.variable(m).resolving && !env.variable(m).resolved }

  /** The dynamic-variable pass flags "resolving" exactly when some token is still resolving, and fails exactly when some token is neither resolving nor resolved. */
  lemma {:induction false} VariablePassFlags(env: Env, pieces: seq<Piece>)
    ensures VariablePass(env, pieces).resolving <==>
      exists i :: 0 <= i < |pieces| && pieces[i].Token? && Resolving(env, pieces[i].text)
    ensures VariablePass(env, pieces).failed <==>
      exists i :: 0 <= i < |pieces| && pieces[i].Token? && Unresolved(env, pieces[i].text)
    decreases |pieces|
  {
    if |pieces| > 0 {
      var rest := pieces[1..];
      VariablePassFlags(env, rest);
      assert forall i :: 1 <= i < |pieces| ==> pieces[i] == rest[i - 1];
      assert forall i :: 0 <= i < |rest| ==> rest[i] == pieces[i + 1];
    }
  }

  /**
   * While any dynamic-variable token is still resolving, the rewrite gives
   * DYNAMIC_VARIABLE_RESOLVING and looks at no cell: the call stack is unchanged.
   */
  lemma RewriteWaitsForVariables(env: Env, formula: string, stack: CallStack, sheet: Option<string>)
    requires Valid(env) && |formula| > 0 && env.trigger.Some?
    requires var pieces := Scan(DynamicVariablePattern(env.trigger.value), formula);
      exists i :: 0 <= i < |pieces| && pieces[i].Token? && Resolving(env, pieces[i].text)
    ensures Rewrite(env, formula, stack, sheet) == (env.variableResolving, stack)
  {
    VariablePassFlags(env, Scan(DynamicVariablePattern(env.trigger.value), formula));
  }

  /** With no token resolving, one unresolved token makes the rewrite DYNAMIC_VARIABLE_ERROR, again before any cell lookup. */
  lemma RewriteUnresolvedVariable(env: Env, formula: string, stack: CallStack, sheet: Option<string>)
    requires Valid(env) && |formula| > 0 && env.trigger.Some?
    requires var pieces := Scan(DynamicVariablePattern(env.trigger.value), formula);
      && (forall i :: 0 <= i < |pieces| && pieces[i].Token? ==> !Resolving(env, pieces[i].text))
      && (exists i :: 0 <= i < |pieces| && pieces[i].Token? && Unresolved(env, pieces[i].text))
    ensures Rewrite(env, formula, stack, sheet) == (env.variableError, stack)
  {
    VariablePassFlags(env, Scan(DynamicVariablePattern(env.trigger.value), formula));
  }

  /** `expr2xy` accepts the reference part of a sheet-qualified token. */
  predicate SheetRefParses(m: string)
  {
    var parts := SheetParts(m);
    |parts| >= 2 && Expr2Xy(parts[1]).Some?
  }

  /** The text of the cell a sheet-qualified token names. */
  function SheetTarget(env: Env, m: string): string
    requires SheetRefParses(m)
  {
    var parts := SheetParts(m);
    var (x, y) := Expr2Xy(parts[1]).value;
    env.cellText(x, y, Some(parts[0]))
  }

  lemma SheetRefFlags(env: Env, sheet: Option<string>, m: string, p: Progress)
    requires Valid(env)
    ensures SheetRef(env, sheet, m, p).threw == (p.threw || !SheetRefParses(m))
    ensures SheetRefParses(m) ==>
      SheetRef(env, sheet, m, p).refError == (p.refError || SheetTarget(env, m) == REF_ERROR)
  {
    if SheetRefParses(m) && StartsWith(SheetTarget(env, m), "=") {
      assert SheetTarget(env, m) != REF_ERROR by { assert REF_ERROR[0] != '='; }
    }
  }

  /** The sheet-qualified pass throws exactly when one of its tokens has a reference `expr2xy` refuses. */
  lemma {:induction false} SheetPassThrows(env: Env, sheet: Option<string>, pieces: seq<Piece>, p: Progress)
    requires Valid(env)
    ensures SheetPass(env, sheet, pieces, p).threw <==>
      p.threw || exists i :: 0 <= i < |pieces| && pieces[i].Token? && !SheetRefParses(pieces[i].text)
    decreases |pieces|
  {
    if |pieces| > 0 && !p.threw {
      var rest := pieces[1..];
      var q := if pieces[0].Text? then p.(out := p.out + pieces[0].text) else SheetRef(env, sheet, pieces[0].text, p);
      if pieces[0].Token? {
        SheetRefFlags(env, sheet, pieces[0].text, p);
      }
      SheetPassThrows(env, sheet, rest, q);
      assert forall i :: 1 <= i < |pieces| ==> pieces[i] == rest[i - 1];
      assert forall i :: 0 <= i < |rest| ==> rest[i] == pieces[i + 1];
    }
  }

  /**
   * When no token throws, the pass sets the REF_ERROR flag exactly when some
   * sheet-qualified token names a cell whose text is REF_ERROR.
   */
  lemma {:induction false} SheetPassRefError(env: Env, sheet: Option<string>, pieces: seq<Piece>, p: Progress)
    requires Valid(env) && !p.threw
    requires forall i :: 0 <= i < |pieces| && pieces[i].Token? ==> SheetRefParses(pieces[i].text)
    ensures SheetPass(env, sheet, pieces, p).refError <==>
      p.refError || exists i :: 0 <= i < |pieces| && pieces[i].Token? && SheetTarget(env, pieces[i].text) == REF_ERROR
    decreases |pieces|
  {
    if |pieces| > 0 {
      var rest := pieces[1..];
      var q := if pieces[0].Text? then p.(out := p.out + pieces[0].text) else SheetRef(env, sheet, pieces[0].text, p);
      if pieces[0].Token? {
        SheetRefFlags(env, sheet, pieces[0].text, p);
      }
      assert forall i :: 1 <= i < |pieces| ==> pieces[i] == rest[i - 1];
      assert forall i :: 0 <= i < |rest| ==> rest[i] == pieces[i + 1];
      SheetPassRefError(env, sheet, rest, q);
    }
  }

  /** The tokens the sheet-qualified pass sees: the formula after the variable and space passes. */
  function SheetTokens(env: Env, formula: string): seq<Piece>
  {
    Scan(SheetRefPattern, Spaced(VariableStage(env, formula).out))
  }

  /** The variable pass neither waits nor fails. */
  predicate VariablesSettled(env: Env, formula: string)
  {
    !VariableStage(env, formula).resolving && !VariableStage(env, formula).failed
  }

  /** A sheet-qualified reference to a cell holding REF_ERROR makes the rewrite REF_ERROR, before any range is expanded. */
  lemma RewriteRefError(env: Env, formula: string, stack: CallStack, sheet: Option<string>)
    requires Valid(env) && |formula| > 0 && VariablesSettled(env, formula)
    requires var pieces := SheetTokens(env, formula);
      && (forall i :: 0 <= i < |pieces| && pieces[i].Token? ==> SheetRefParses(pieces[i].text))
      && (exists i :: 0 <= i < |pieces| && pieces[i].Token? && SheetTarget(env, pieces[i].text) == REF_ERROR)
    ensures Rewrite(env, formula, stack, sheet).0 == REF_ERROR
  {
    var start := Progress("", stack, false, false, false);
    SheetPassThrows(env, sheet, SheetTokens(env, formula), start);
    SheetPassRefError(env, sheet, SheetTokens(env, formula), start);
  }

  /** A sheet-qualified token whose reference `expr2xy` refuses makes the rewrite give back its input unchanged. */
  lemma RewriteKeepsInputOnThrow(env: Env, formula: string, stack: CallStack, sheet: Option<string>)
    requires Valid(env) && |formula| > 0 && VariablesSettled(env, formula)
    requires var pieces := SheetTokens(env, formula);
      exists i :: 0 <= i < |pieces| && pieces[i].Token? && !SheetRefParses(pieces[i].text)
    ensures Rewrite(env, formula, stack, sheet).0 == formula
  {
    SheetPassThrows(env, sheet, SheetTokens(env, formula), Progress("", stack, false, false, false));
  }

  /** A text contains itself. */
  lemma ContainsSelf(s: string)
    ensures Contains(s, s)
  {
    assert s[0..|s|] == s;
    ContainsAt(s, s, 0);
  }

  /**
   * A sentinel a nested render returns survives the enclosing render: placed in
   * the outer formula and checked again, it gives back the same sentinel, as
   * long as it does not contain a sentinel that is checked before it.
   */
  lemma SentinelsPropagate(env: Env)
    ensures !Contains(env.circularError, REF_ERROR) ==>
      Verdict(env, env.circularError) == env.circularError
    ensures !Contains(env.variableResolving, REF_ERROR) && !Contains(env.variableResolving, env.circularError) ==>
      Verdict(env, env.variableResolving) == env.variableResolving
    ensures (!Contains(env.variableError, REF_ERROR) && !Contains(env.variableError, env.circularError) &&
             !Contains(env.variableError, env.variableResolving)) ==>
      Verdict(env, env.variableError) == env.variableError
    ensures Verdict(env, REF_ERROR) == REF_ERROR
  {
    ContainsSelf(env.circularError);
    ContainsSelf(env.variableResolving);
    ContainsSelf(env.variableError);
    ContainsSelf(REF_ERROR);
  }

  // ---------------------------------------------------------------------------
  // A formula that is a single bare reference.

  lemma {:induction false} VariablePassChars(env: Env, t: string)
    ensures VariablePass(env, Chars(t)) == Substitution(t, false, false)
    decreases |t|
  {
    if |t| > 0 {
      VariablePassChars(env, t[1..]);
      assert [t[0]] + t[1..] == t;
    }
  }

  lemma {:induction false} SheetPassChars(env: Env, sheet: Option<string>, t: string, p: Progress)
    requires Valid(env) && !p.threw
    ensures SheetPass(env, sheet, Chars(t), p) == p.(out := p.out + t)
    decreases |t|
  {
    if |t| > 0 {
      SheetPassChars(env, sheet, t[1..], p.(out := p.out + [t[0]]));
      assert p.out + [t[0]] + t[1..] == p.out + t;
    }
  }

  lemma {:induction false} RangePassChars(t: string)
    ensures RangePass(Chars(t)) == Some(t)
    decreases |t|
  {
    if |t| > 0 {
      RangePassChars(t[1..]);
      assert [t[0]] + t[1..] == t;
    }
  }

  /** The trigger can never be taken for part of a cell name. */
  predicate TriggerApart(env: Env)
  {
    env.trigger.Some? ==> !IsAlnum(env.trigger.value)
  }

  /** A cell name has no trigger character in it, so the variable pass leaves it alone. */
  lemma NameVariableStage(env: Env, x: nat, y: nat)
    requires TriggerApart(env)
    ensures VariableStage(env, Xy2Expr(x, y)) == Substitution(Xy2Expr(x, y), false, false)
  {
    var t := Xy2Expr(x, y);
    if env.trigger.Some? {
      var c := env.trigger.value;
      Xy2ExprAlnum(x, y);
      assert forall k :: 0 <= k < |t| ==> MatchAt(DynamicVariablePattern(c), t, k).None?;
      ScanFromNoMatch(DynamicVariablePattern(c), t, 0);
      assert t[0..] == t;
      VariablePassChars(env, t);
    }
  }

  /** A cell name has no whitespace, so the space-removal pass leaves it alone. */
  lemma NameSpaced(x: nat, y: nat)
    ensures Spaced(Xy2Expr(x, y)) == Xy2Expr(x, y)
  {
    var t := Xy2Expr(x, y);
    Xy2ExprAlnum(x, y);
    KeptAll(t, 0);
    SpaceRemovalKeeps(t);
    assert t[0..] == t;
  }

  /** A cell name has no `!`, so the sheet pass copies it. */
  lemma NameSheetPass(env: Env, sheet: Option<string>, x: nat, y: nat, stack: CallStack)
    requires Valid(env)
    ensures SheetPass(env, sheet, Scan(SheetRefPattern, Xy2Expr(x, y)), Progress("", stack, false, false, false))
      == Progress(Xy2Expr(x, y), stack, false, false, false)
  {
    var t := Xy2Expr(x, y);
    Xy2ExprAlnum(x, y);
    forall k | 0 <= k < |t| ensures MatchAt(SheetRefPattern, t, k).None? {
      var j := QualifierEnd(t, k);
      assert j < |t| ==> IsAlnum(t[j]);
    }
    ScanFromNoMatch(SheetRefPattern, t, 0);
    assert t[0..] == t;
    SheetPassChars(env, sheet, t, Progress("", stack, false, false, false));
  }

  /** A cell name has no `:`, so the range pass copies it. */
  lemma NameRangePass(x: nat, y: nat)
    ensures RangePass(Scan(RangePattern, Xy2Expr(x, y))) == Some(Xy2Expr(x, y))
  {
    var t := Xy2Expr(x, y);
    Xy2ExprAlnum(x, y);
    assert forall k :: 0 <= k < |t| ==> MatchAt(RangePattern, t, k).None?;
    ScanFromNoMatch(RangePattern, t, 0);
    assert t[0..] == t;
    RangePassChars(t);
  }

  /** A cell name is one whole bare-reference token. */
  lemma NameCellRefScan(x: nat, y: nat)
    ensures Scan(CellRefPattern, Xy2Expr(x, y)) == [Token(Xy2Expr(x, y))]
  {
    Xy2ExprIsCellRef(x, y);
    ScanWhole(CellRefPattern, Xy2Expr(x, y));
  }

  /** A formula that is one bare reference is rewritten by that reference's callback alone. */
  lemma RewriteSingleRef(env: Env, sheet: Option<string>, x: nat, y: nat, stack: CallStack)
    requires Valid(env) && TriggerApart(env)
    ensures var t := Xy2Expr(x, y);
      var q := BareRef(env, sheet, t, Progress("", stack, false, false, false));
      !q.threw && Rewrite(env, t, stack, sheet) == (if q.circular then env.circularError else q.out, q.stack)
  {
    var t := Xy2Expr(x, y);
    var start := Progress("", stack, false, false, false);
    NameStages(env, sheet, x, y, stack);
    NameBarePass(env, sheet, x, y, start);
    RewriteThroughStages(env, sheet, t, stack, BareRef(env, sheet, t, start));
  }

  /** The passes before the bare-reference pass leave a cell name as it is. */
  lemma NameStages(env: Env, sheet: Option<string>, x: nat, y: nat, stack: CallStack)
    requires Valid(env) && TriggerApart(env)
    ensures var t := Xy2Expr(x, y);
      && |t| > 0
      && VariableStage(env, t) == Substitution(t, false, false)
      && Spaced(t) == t
      && SheetPass(env, sheet, Scan(SheetRefPattern, t), Progress("", stack, false, false, false))
         == Progress(t, stack, false, false, false)
      && RangePass(Scan(RangePattern, t)) == Some(t)
  {
    Xy2ExprIsCellRef(x, y);
    NameVariableStage(env, x, y);
    NameSpaced(x, y);
    NameSheetPass(env, sheet, x, y, stack);
    NameRangePass(x, y);
  }

  /** The bare-reference pass over a cell name is one call of its callback, which does not throw. */
  lemma NameBarePass(env: Env, sheet: Option<string>, x: nat, y: nat, p: Progress)
    requires Valid(env) && !p.threw
    ensures var t := Xy2Expr(x, y);
      BarePass(env, sheet, Scan(CellRefPattern, t), p) == BareRef(env, sheet, t, p) && !BareRef(env, sheet, t, p).threw
  {
    var t := Xy2Expr(x, y);
    Expr2XyOfXy2Expr(x, y);
    NameCellRefScan(x, y);
    BarePassSingle(env, sheet, t, p);
    BareRefParsed(env, sheet, t, p);
  }

  /** The callback on a token that parses as a cell name does not throw. */
  lemma BareRefParsed(env: Env, sheet: Option<string>, m: string, p: Progress)
    requires Valid(env) && !p.threw && Expr2Xy(m).Some?
    ensures !BareRef(env, sheet, m, p).threw
  {
  }

  /** A bare pass over a single token is that token's callback. */
  lemma BarePassSingle(env: Env, sheet: Option<string>, m: string, p: Progress)
    requires Valid(env) && !p.threw
    ensures BarePass(env, sheet, [Token(m)], p) == BareRef(env, sheet, m, p)
  {
    assert [Token(m)][1..] == [];
  }

  /** A formula that every pass before the bare-reference pass leaves alone is rewritten by that pass alone. */
  lemma RewriteThroughStages(env: Env, sheet: Option<string>, t: string, stack: CallStack, q: Progress)
    requires Valid(env) && |t| > 0
    requires VariableStage(env, t) == Substitution(t, false, false)
    requires Spaced(t) == t
    requires SheetPass(env, sheet, Scan(SheetRefPattern, t), Progress("", stack, false, false, false))
          == Progress(t, stack, false, false, false)
    requires RangePass(Scan(RangePattern, t)) == Some(t)
    requires BarePass(env, sheet, Scan(CellRefPattern, t), Progress("", stack, false, false, false)) == q && !q.threw
    ensures Rewrite(env, t, stack, sheet) == (if q.circular then env.circularError else q.out, q.stack)
  {
  }

  /**
   * A bare reference to a cell that holds no formula is replaced by the cell's
   * text (quoted unless it reads as a number), or by `0` when the cell is
   * empty; the cell is read with no sheet whatever sheet is being rendered, and
   * the call stack is left as it was.
   */
  lemma PlainReference(env: Env, sheet: Option<string>, x: nat, y: nat, stack: CallStack)
    requires Valid(env) && TriggerApart(env)
    requires !StartsWith(env.cellText(x, y, None), "=")
    ensures var text := env.cellText(x, y, None);
      Rewrite(env, Xy2Expr(x, y), stack, sheet) == (if text == "" then "0" else Literal(text), stack)
  {
    var text := env.cellText(x, y, None);
    var shown := if text == "" then "0" else Literal(text);
    var start := Progress("", stack, false, false, false);
    var q := BareRef(env, sheet, Xy2Expr(x, y), start);
    PlainBareRef(env, sheet, x, y, start);
    assert "" + shown == shown;
    assert q == Progress(shown, stack, false, false, false);
    RewriteSingleRef(env, sheet, x, y, stack);
  }

  lemma PlainBareRef(env: Env, sheet: Option<string>, x: nat, y: nat, p: Progress)
    requires Valid(env) && !StartsWith(env.cellText(x, y, None), "=")
    ensures var text := env.cellText(x, y, None);
      BareRef(env, sheet, Xy2Expr(x, y), p) == p.(out := p.out + if text == "" then "0" else Literal(text))
  {
    Expr2XyOfXy2Expr(x, y);
  }

  /**
   * A cell whose formula refers to the cell itself renders as
   * CIRCULAR_DEPENDENCY_ERROR: the first visit enters the reference in the call
   * stack, the nested visit finds it there and stops with `0`.
   */
  lemma SelfReferenceIsCircular(env: Env, x: nat, y: nat)
    requires Valid(env) && TriggerApart(env)
    requires env.cellText(x, y, None) == "=" + Xy2Expr(x, y)
    requires !Contains(env.circularError, REF_ERROR)
    ensures CellRender(env, "=" + Xy2Expr(x, y), None) == env.circularError
  {
    var t := Xy2Expr(x, y);
    assert StartsWith("=" + t, "=");
    var inner := Push(map[], "undefined", t);
    SingleRefOnStack(env, None, x, y, inner);
    CircularRewriteShows(env, t, inner, None);
    SingleRefEnters(env, None, x, y, map[]);
    CircularRewriteShows(env, t, map[], None);
  }

  // ---------------------------------------------------------------------------
  // Once a cycle is found, no further formula is rendered.

  /** The text a reference pass produces once the circular flag is set: tokens become `sub(token)`; `None` for a throw. */
  function Frozen(pieces: seq<Piece>, sub: string -> Option<string>): Option<string>
  {
    if |pieces| == 0 then Some("")
    else
      var head := if pieces[0].Text? then Some(pieces[0].text) else sub(pieces[0].text);
      var rest := Frozen(pieces[1..], sub);
      if head.Some? && rest.Some? then Some(head.value + rest.value) else None
  }

  /** A bare reference after a cycle: `0` for an empty or formula cell, otherwise the literal. */
  function FrozenBareRef(env: Env): string -> Option<string>
  {
    m =>
      match Expr2Xy(m)
      case None => None
      case Some((x, y)) =>
        var text := env.cellText(x, y, None);
        Some(if text == "" || StartsWith(text, "=") then "0" else Literal(text))
  }

  /** A sheet-qualified reference after a cycle: `0` for a formula cell, otherwise the literal. */
  function FrozenSheetRef(env: Env): string -> Option<string>
  {
    m =>
      var parts := SheetParts(m);
      if |parts| < 2 || Expr2Xy(parts[1]).None? then None
      else
        var (x, y) := Expr2Xy(parts[1]).value;
        var text := env.cellText(x, y, Some(parts[0]));
        Some(if StartsWith(text, "=") then "0" else Literal(text))
  }

  /** `q` continues `p` by `more`, or by a throw when `more` is `None`, and the flag stays set. */
  predicate FrozenStep(p: Progress, q: Progress, more: Option<string>)
  {
    && q.circular && q.threw == more.None?
    && (more.Some? ==> q.out == p.out + more.value)
  }

  lemma CircularFormulaRef(env: Env, sheet: Option<string>, target: Option<string>, ref: string, text: string, p: Progress)
    requires Valid(env) && p.circular
    requires ref in SiteRefs(env)
    requires Key(target) in SiteKeys(env, sheet) && SiteKeys(env, target) <= SiteKeys(env, sheet)
    ensures var q := FormulaRef(env, sheet, target, ref, text, p);
      q.out == p.out + "0" && q.circular && q.threw == p.threw && q.refError == p.refError
  {
  }

  lemma CircularBareRef(env: Env, sheet: Option<string>, m: string, p: Progress)
    requires Valid(env) && p.circular && !p.threw
    ensures FrozenStep(p, BareRef(env, sheet, m, p), FrozenBareRef(env)(m))
  {
    match Expr2Xy(m)
    case None =>
    case Some((x, y)) =>
      var text := env.cellText(x, y, None);
      if text != "" && StartsWith(text, "=") {
        SiteRef(env, (None, x, y), m);
        CircularFormulaRef(env, sheet, sheet, m, text, p);
      }
  }

  lemma CircularSheetRef(env: Env, sheet: Option<string>, m: string, p: Progress)
    requires Valid(env) && p.circular && !p.threw
    ensures FrozenStep(p, SheetRef(env, sheet, m, p), FrozenSheetRef(env)(m))
  {
    var parts := SheetParts(m);
    if |parts| >= 2 && Expr2Xy(parts[1]).Some? {
      var (x, y) := Expr2Xy(parts[1]).value;
      var text := env.cellText(x, y, Some(parts[0]));
      if StartsWith(text, "=") {
        SiteRef(env, (Some(parts[0]), x, y), parts[1]);
        SiteSheet(env, sheet, parts[0], x, y);
        CircularFormulaRef(env, sheet, Some(parts[0]), parts[1], text, p);
      }
    }
  }

  /** A step that continues by `head` followed by a frozen remainder continues by their concatenation. */
  lemma FrozenSteps(p: Progress, q: Progress, r: Progress, head: Option<string>, rest: Option<string>)
    requires FrozenStep(p, q, head) && (head.Some? ==> FrozenStep(q, r, rest))
    requires head.None? ==> r == q
    ensures FrozenStep(p, r, if head.Some? && rest.Some? then Some(head.value + rest.value) else None)
  {
    if head.Some? && rest.Some? {
      assert p.out + head.value + rest.value == p.out + (head.value + rest.value);
    }
  }

  /**
   * Once the bare-reference pass has found a cycle, every later formula
   * reference gives `0` and nothing more is rendered.
   */
  lemma {:induction false} CircularBarePass(env: Env, sheet: Option<string>, pieces: seq<Piece>, p: Progress)
    requires Valid(env) && p.circular && !p.threw
    ensures FrozenStep(p, BarePass(env, sheet, pieces, p), Frozen(pieces, FrozenBareRef(env)))
    decreases |pieces|
  {
    if |pieces| > 0 {
      var q := if pieces[0].Text? then p.(out := p.out + pieces[0].text) else BareRef(env, sheet, pieces[0].text, p);
      var head := if pieces[0].Text? then Some(pieces[0].text) else FrozenBareRef(env)(pieces[0].text);
      if pieces[0].Token? {
        CircularBareRef(env, sheet, pieces[0].text, p);
      }
      var r := BarePass(env, sheet, pieces[1..], q);
      assert BarePass(env, sheet, pieces, p) == r;
      if head.Some? {
        CircularBarePass(env, sheet, pieces[1..], q);
      }
      FrozenSteps(p, q, r, head, Frozen(pieces[1..], FrozenBareRef(env)));
    }
  }

  /** A bare pass that has not thrown handles its first piece, then the rest. */
  lemma BarePassStep(env: Env, sheet: Option<string>, pieces: seq<Piece>, p: Progress)
    requires Valid(env) && !p.threw && |pieces| > 0
    ensures BarePass(env, sheet, pieces, p)
         == BarePass(env, sheet, pieces[1..],
                     if pieces[0].Text? then p.(out := p.out + pieces[0].text) else BareRef(env, sheet, pieces[0].text, p))
  {
  }

  /** The same for the sheet-qualified pass. */
  lemma {:induction false} CircularSheetPass(env: Env, sheet: Option<string>, pieces: seq<Piece>, p: Progress)
    requires Valid(env) && p.circular && !p.threw
    ensures FrozenStep(p, SheetPass(env, sheet, pieces, p), Frozen(pieces, FrozenSheetRef(env)))
    decreases |pieces|
  {
    if |pieces| > 0 {
      var q := if pieces[0].Text? then p.(out := p.out + pieces[0].text) else SheetRef(env, sheet, pieces[0].text, p);
      var head := if pieces[0].Text? then Some(pieces[0].text) else FrozenSheetRef(env)(pieces[0].text);
      if pieces[0].Token? {
        CircularSheetRef(env, sheet, pieces[0].text, p);
      }
      var r := SheetPass(env, sheet, pieces[1..], q);
      assert SheetPass(env, sheet, pieces, p) == r;
      if head.Some? {
        CircularSheetPass(env, sheet, pieces[1..], q);
      }
      FrozenSteps(p, q, r, head, Frozen(pieces[1..], FrozenSheetRef(env)));
    }
  }

  // ---------------------------------------------------------------------------
  // A reference already on the call stack closes a cycle.

  lemma OnStackGrows(a: CallStack, b: CallStack, key: string, ref: string)
    requires Grows(a, b) && OnStack(a, key, ref)
    ensures OnStack(b, key, ref)
  {
    var k :| 0 <= k < |a[key]| && a[key][k] == ref;
    assert b[key][k] == ref;
  }

  /** A formula reference found on the call stack becomes `0` and sets the circular flag; nothing is pushed or rendered. */
  lemma OnStackFormulaRef(env: Env, sheet: Option<string>, target: Option<string>, ref: string, text: string, p: Progress)
    requires Valid(env)
    requires ref in SiteRefs(env)
    requires Key(target) in SiteKeys(env, sheet) && SiteKeys(env, target) <= SiteKeys(env, sheet)
    requires OnStack(p.stack, Key(target), ref)
    ensures FormulaRef(env, sheet, target, ref, text, p) == p.(out := p.out + "0", circular := true)
  {
  }

  /** Bare token `m` names a formula cell whose reference is on `stack` under the key of the sheet being rendered. */
  predicate StackedBareRef(env: Env, sheet: Option<string>, stack: CallStack, m: string)
  {
    && Expr2Xy(m).Some?
    && StartsWith(env.cellText(Expr2Xy(m).value.0, Expr2Xy(m).value.1, None), "=")
    && OnStack(stack, Key(sheet), m)
  }

  /** Sheet-qualified token `m` names a formula cell whose reference is on `stack` under the sheet it names. */
  predicate StackedSheetRef(env: Env, stack: CallStack, m: string)
  {
    && SheetRefParses(m)
    && StartsWith(SheetTarget(env, m), "=")
    && OnStack(stack, SheetParts(m)[0], SheetParts(m)[1])
  }

  lemma StackedBareRefCircular(env: Env, sheet: Option<string>, m: string, p: Progress)
    requires Valid(env) && !p.threw && StackedBareRef(env, sheet, p.stack, m)
    ensures BareRef(env, sheet, m, p).circular && !BareRef(env, sheet, m, p).threw
  {
    var (x, y) := Expr2Xy(m).value;
    SiteRef(env, (None, x, y), m);
    OnStackFormulaRef(env, sheet, sheet, m, env.cellText(x, y, None), p);
  }

  lemma StackedSheetRefCircular(env: Env, sheet: Option<string>, m: string, p: Progress)
    requires Valid(env) && !p.threw && StackedSheetRef(env, p.stack, m)
    ensures SheetRef(env, sheet, m, p).circular && !SheetRef(env, sheet, m, p).threw
  {
    var parts := SheetParts(m);
    var (x, y) := Expr2Xy(parts[1]).value;
    SiteRef(env, (Some(parts[0]), x, y), parts[1]);
    SiteSheet(env, sheet, parts[0], x, y);
    OnStackFormulaRef(env, sheet, Some(parts[0]), parts[1], env.cellText(x, y, Some(parts[0])), p);
  }

  /**
   * A bare pass that meets a formula reference already on the call stack ends
   * with the circular flag set, unless a callback throws first.
   */
  lemma {:induction false} BarePassMeetsStack(env: Env, sheet: Option<string>, pieces: seq<Piece>, p: Progress, i: nat)
    requires Valid(env) && !p.threw
    requires i < |pieces| && pieces[i].Token? && StackedBareRef(env, sheet, p.stack, pieces[i].text)
    ensures BarePass(env, sheet, pieces, p).threw || BarePass(env, sheet, pieces, p).circular
    decreases |pieces|
  {
    if p.circular {
      CircularBarePass(env, sheet, pieces, p);
    } else {
      var q := if pieces[0].Text? then p.(out := p.out + pieces[0].text) else BareRef(env, sheet, pieces[0].text, p);
      BarePassStep(env, sheet, pieces, p);
      if i == 0 {
        StackedBareRefCircular(env, sheet, pieces[0].text, p);
        CircularBarePass(env, sheet, pieces[1..], q);
      } else if !q.threw {
        assert pieces[1..][i - 1] == pieces[i];
        OnStackGrows(p.stack, q.stack, Key(sheet), pieces[i].text);
        assert StackedBareRef(env, sheet, q.stack, pieces[1..][i - 1].text);
        BarePassMeetsStack(env, sheet, pieces[1..], q, i - 1);
      }
    }
  }

  /** The same for the sheet-qualified pass. */
  lemma {:induction false} SheetPassMeetsStack(env: Env, sheet: Option<string>, pieces: seq<Piece>, p: Progress, i: nat)
    requires Valid(env) && !p.threw
    requires i < |pieces| && pieces[i].Token? && StackedSheetRef(env, p.stack, pieces[i].text)
    ensures SheetPass(env, sheet, pieces, p).threw || SheetPass(env, sheet, pieces, p).circular
    decreases |pieces|
  {
    if p.circular {
      CircularSheetPass(env, sheet, pieces, p);
    } else {
      var q := if pieces[0].Text? then p.(out := p.out + pieces[0].text) else SheetRef(env, sheet, pieces[0].text, p);
      assert SheetPass(env, sheet, pieces, p) == SheetPass(env, sheet, pieces[1..], q);
      if i == 0 {
        StackedSheetRefCircular(env, sheet, pieces[0].text, p);
        CircularSheetPass(env, sheet, pieces[1..], q);
      } else if !q.threw {
        assert pieces[1..][i - 1] == pieces[i];
        var m := pieces[i].text;
        OnStackGrows(p.stack, q.stack, SheetParts(m)[0], SheetParts(m)[1]);
        assert StackedSheetRef(env, q.stack, pieces[1..][i - 1].text);
        SheetPassMeetsStack(env, sheet, pieces[1..], q, i - 1);
      }
    }
  }

  /** Where the sheet-qualified pass leaves the rewrite of `formula`. */
  function SheetStage(env: Env, formula: string, stack: CallStack, sheet: Option<string>): Progress
    requires Valid(env)
  {
    SheetPass(env, sheet, SheetTokens(env, formula), Progress("", stack, false, false, false))
  }

  /** The tokens the bare-reference pass sees; `None` when the range pass throws. */
  function BareTokens(env: Env, formula: string, stack: CallStack, sheet: Option<string>): Option<seq<Piece>>
    requires Valid(env)
  {
    match RangePass(Scan(RangePattern, SheetStage(env, formula, stack, sheet).out))
    case None => None
    case Some(ranged) => Some(Scan(CellRefPattern, ranged))
  }

  /**
   * The rewrite of `formula` meets, in its sheet-qualified or its bare pass, a
   * reference to a formula cell already on the call stack it starts from.
   */
  predicate MeetsStack(env: Env, formula: string, stack: CallStack, sheet: Option<string>)
    requires Valid(env)
  {
    || (var pieces := SheetTokens(env, formula);
        exists i :: 0 <= i < |pieces| && pieces[i].Token? && StackedSheetRef(env, stack, pieces[i].text))
    || (&& BareTokens(env, formula, stack, sheet).Some?
        && var pieces := BareTokens(env, formula, stack, sheet).value;
           exists i :: 0 <= i < |pieces| && pieces[i].Token? && StackedBareRef(env, sheet, stack, pieces[i].text))
  }

  /**
   * A rewrite that meets a reference already on the call stack gives
   * CIRCULAR_DEPENDENCY_ERROR, however many other tokens the formula holds;
   * the exceptions are a callback that throws, which gives the formula back,
   * and a sheet-qualified reference to a cell holding REF_ERROR.
   */
  lemma RewriteMeetsStack(env: Env, formula: string, stack: CallStack, sheet: Option<string>)
    requires Valid(env) && |formula| > 0 && VariablesSettled(env, formula)
    requires MeetsStack(env, formula, stack, sheet)
    ensures var r := Rewrite(env, formula, stack, sheet).0;
      r == env.circularError || r == formula || (r == REF_ERROR && SheetStage(env, formula, stack, sheet).refError)
  {
    var p := SheetStage(env, formula, stack, sheet);
    var sheetPieces := SheetTokens(env, formula);
    if exists i :: 0 <= i < |sheetPieces| && sheetPieces[i].Token? && StackedSheetRef(env, stack, sheetPieces[i].text) {
      var i :| 0 <= i < |sheetPieces| && sheetPieces[i].Token? && StackedSheetRef(env, stack, sheetPieces[i].text);
      SheetPassMeetsStack(env, sheet, sheetPieces, Progress("", stack, false, false, false), i);
    }
    if !p.threw && !p.refError && BareTokens(env, formula, stack, sheet).Some? {
      var pieces := BareTokens(env, formula, stack, sheet).value;
      var bare := Progress("", p.stack, p.circular, false, false);
      if p.circular {
        CircularBarePass(env, sheet, pieces, bare);
      } else {
        var i :| 0 <= i < |pieces| && pieces[i].Token? && StackedBareRef(env, sheet, stack, pieces[i].text);
        OnStackGrows(stack, p.stack, Key(sheet), pieces[i].text);
        BarePassMeetsStack(env, sheet, pieces, bare, i);
      }
    }
    RewriteStages(env, formula, stack, sheet);
  }

  /** The rewrite of a formula whose variables are settled, told pass by pass. */
  lemma RewriteStages(env: Env, formula: string, stack: CallStack, sheet: Option<string>)
    requires Valid(env) && |formula| > 0 && VariablesSettled(env, formula)
    ensures var p := SheetStage(env, formula, stack, sheet);
      var r := Rewrite(env, formula, stack, sheet).0;
      && (p.threw ==> r == formula)
      && (!p.threw && p.refError ==> r == REF_ERROR)
      && (!p.threw && !p.refError && BareTokens(env, formula, stack, sheet).None? ==> r == formula)
      && (!p.threw && !p.refError && BareTokens(env, formula, stack, sheet).Some? ==>
            var q := BarePass(env, sheet, BareTokens(env, formula, stack, sheet).value, Progress("", p.stack, p.circular, false, false));
            r == if q.threw then formula else if q.circular then env.circularError else q.out)
  {
  }

  /**
   * So a formula cell whose rewrite meets a reference already on the call stack
   * shows CIRCULAR_DEPENDENCY_ERROR, unless a callback throws (the evaluator then
   * sees the formula as written) or REF_ERROR, checked first, is met.
   */
  lemma RenderMeetsStack(env: Env, src: string, stack: CallStack, sheet: Option<string>)
    requires Valid(env) && IsFormula(src) && |src| > 1 && VariablesSettled(env, src[1..])
    requires MeetsStack(env, src[1..], stack, sheet)
    requires !Contains(env.circularError, REF_ERROR)
    ensures var shown := Render(env, src, stack, sheet).0;
      shown == env.circularError || shown == Verdict(env, src[1..]) || shown == REF_ERROR
  {
    RewriteMeetsStack(env, src[1..], stack, sheet);
    SentinelsPropagate(env);
  }

  /** A formula that is one bare reference to a formula cell not yet on the stack shows what that cell renders to, with the reference pushed. */
  lemma SingleRefEnters(env: Env, sheet: Option<string>, x: nat, y: nat, stack: CallStack)
    requires Valid(env) && TriggerApart(env)
    requires StartsWith(env.cellText(x, y, None), "=") && !OnStack(stack, Key(sheet), Xy2Expr(x, y))
    ensures Rewrite(env, Xy2Expr(x, y), stack, sheet).0 ==
      Render(env, env.cellText(x, y, None), Push(stack, Key(sheet), Xy2Expr(x, y)), sheet).0
  {
    Expr2XyOfXy2Expr(x, y);
    SiteRef(env, (None, x, y), Xy2Expr(x, y));
    RewriteSingleRef(env, sheet, x, y, stack);
  }

  /** A formula that is one bare reference to a formula cell already on the stack is circular. */
  lemma SingleRefOnStack(env: Env, sheet: Option<string>, x: nat, y: nat, stack: CallStack)
    requires Valid(env) && TriggerApart(env)
    requires StartsWith(env.cellText(x, y, None), "=") && OnStack(stack, Key(sheet), Xy2Expr(x, y))
    ensures Rewrite(env, Xy2Expr(x, y), stack, sheet).0 == env.circularError
  {
    Expr2XyOfXy2Expr(x, y);
    SiteRef(env, (None, x, y), Xy2Expr(x, y));
    RewriteSingleRef(env, sheet, x, y, stack);
  }

  /**
   * Two cells that refer to each other (`A` holds `=B`, `B` holds `=A`): `A`
   * renders as CIRCULAR_DEPENDENCY_ERROR. `B` is entered, then `A`, and the
   * second visit to `B` finds it on the stack.
   */
  lemma TwoCellCycle(env: Env, x1: nat, y1: nat, x2: nat, y2: nat)
    requires Valid(env) && TriggerApart(env) && !Contains(env.circularError, REF_ERROR)
    requires env.cellText(x1, y1, None) == "=" + Xy2Expr(x2, y2)
    requires env.cellText(x2, y2, None) == "=" + Xy2Expr(x1, y1)
    ensures CellRender(env, env.cellText(x1, y1, None), None) == env.circularError
  {
    var a, b := Xy2Expr(x1, y1), Xy2Expr(x2, y2);
    assert StartsWith("=" + a, "=") && StartsWith("=" + b, "=");
    var entered := Push(map[], "undefined", b);
    if a == b {
      SingleRefOnStack(env, None, x1, y1, entered);
    } else {
      var both := Push(entered, "undefined", a);
      assert OnStack(both, "undefined", b) by { assert both["undefined"] == [b, a]; }
      SingleRefOnStack(env, None, x2, y2, both);
      CircularRewriteShows(env, b, both, None);
      SingleRefEnters(env, None, x1, y1, entered);
    }
    CircularRewriteShows(env, a, entered, None);
    SingleRefEnters(env, None, x2, y2, map[]);
    CircularRewriteShows(env, b, map[], None);
  }

  /** A formula whose rewrite is the circular sentinel shows it. */
  lemma CircularRewriteShows(env: Env, t: string, stack: CallStack, sheet: Option<string>)
    requires Valid(env) && !Contains(env.circularError, REF_ERROR)
    requires Rewrite(env, t, stack, sheet).0 == env.circularError
    ensures Render(env, "=" + t, stack, sheet).0 == env.circularError
  {
    assert ("=" + t)[1..] == t;
    SentinelsPropagate(env);
  }

  /** Text that is neither a formula nor a dynamic variable is shown as it is, and the call stack is untouched. */
  lemma RenderPlainText(env: Env, src: string, stack: CallStack, sheet: Option<string>)
    requires Valid(env) && !StartsWith(src, "=") && !IsVariableCell(env, src)
    ensures Render(env, src, stack, sheet) == (src, stack)
  {
  }

  /**
   * A cell whose first character is the trigger (and not `=`) shows the resolving
   * sentinel while its variable resolves, then the variable's text (or itself when
   * there is none), and the error sentinel when it is unresolved; no formula is
   * rewritten, so the call stack is untouched.
   */
  lemma RenderVariableCell(env: Env, src: string, stack: CallStack, sheet: Option<string>)
    requires Valid(env) && !StartsWith(src, "=") && IsVariableCell(env, src)
    ensures var v := env.variable(src);
            var r := Render(env, src, stack, sheet);
            && r.1 == stack
            && (v.resolving ==> r.0 == env.variableResolving)
            && (!v.resolving && v.resolved ==> r.0 == if v.text.Some? then v.text.value else src)
            && (!v.resolving && !v.resolved ==> r.0 == env.variableError)
  {
  }
}
