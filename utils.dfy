/**
 * `parseCssToXDataStyles` and `parseBorderProperties` (src/utils.js): turning the
 * inline CSS of a pasted HTML cell into the sheet's own style object.
 *
 * The plain JavaScript objects these functions fill are ordered dictionaries:
 * `Entries` keeps their key/value pairs in insertion order, a write to an existing
 * key replaces its value in place and a write to a new key appends it.
 */
module Utils {
  import opened Options
  import opened JsString
  import opened JsNumber

  // ---------------------------------------------------------------------------
  // Ordered dictionaries.

  type Entries<V> = seq<(string, V)>

  function Keys<V>(o: Entries<V>): (ks: seq<string>)
    ensures |ks| == |o| && forall i :: 0 <= i < |o| ==> ks[i] == o[i].0
  {
    seq(|o|, i requires 0 <= i < |o| => o[i].0)
  }

  /** No key occurs twice. */
  predicate Unique<V>(o: Entries<V>)
  {
    forall i, j :: 0 <= i < j < |o| ==> o[i].0 != o[j].0
  }

  /** `o[k]`: the value of the last pair with key `k` (the only one when keys are unique). */
  function Get<V>(o: Entries<V>, k: string): (r: Option<V>)
    ensures r.None? <==> k !in Keys(o)
  {
    if |o| == 0 then None
    else if o[|o| - 1].0 == k then Some(o[|o| - 1].1)
    else
      var r := Get(o[..|o| - 1], k);
      assert Keys(o) == Keys(o[..|o| - 1]) + [o[|o| - 1].0];
      r
  }

  /** Position of key `k`, or -1. */
  function KeyIndex<V>(o: Entries<V>, k: string): (i: int)
    ensures -1 <= i < |o|
    ensures i == -1 <==> k !in Keys(o)
    ensures i != -1 ==> o[i].0 == k
  {
    if |o| == 0 then -1
    else if o[|o| - 1].0 == k then |o| - 1
    else
      var i := KeyIndex(o[..|o| - 1], k);
      assert Keys(o) == Keys(o[..|o| - 1]) + [o[|o| - 1].0];
      i
  }

  /** With unique keys, the pair at position `i` is what its key looks up. */
  lemma {:induction false} GetAt<V>(o: Entries<V>, i: nat)
    requires Unique(o) && i < |o|
    ensures Get(o, o[i].0) == Some(o[i].1)
    decreases |o|
  {
    if i < |o| - 1 {
      GetAt(o[..|o| - 1], i);
    }
  }

  /** `o[k] = v`: an existing key keeps its place and takes the new value; a new key goes last. */
  function Put<V>(o: Entries<V>, k: string, v: V): (r: Entries<V>)
    ensures Keys(r) == if k in Keys(o) then Keys(o) else Keys(o) + [k]
    ensures Unique(o) ==> Unique(r)
  {
    var i := KeyIndex(o, k);
    if i == -1 then o + [(k, v)] else o[i := (k, v)]
  }

  /** After `o[k] = v`, `k` holds `v` and every other key what it held. */
  lemma PutGet<V>(o: Entries<V>, k: string, v: V)
    requires Unique(o)
    ensures Get(Put(o, k, v), k) == Some(v)
    ensures forall j :: j != k ==> Get(Put(o, k, v), j) == Get(o, j)
  {
    var r := Put(o, k, v);
    var i := KeyIndex(o, k);
    if i == -1 {
      assert r[..|r| - 1] == o;
    } else {
      GetAt(r, i);
      forall j | j != k ensures Get(r, j) == Get(o, j) {
        var m := KeyIndex(o, j);
        if m != -1 {
          GetAt(o, m);
          GetAt(r, m);
        } else {
          assert Keys(r) == Keys(o);
        }
      }
    }
  }

  /** `{...o, ...p}`: the pairs of `p` written into `o` in order. */
  function Spread<V>(o: Entries<V>, p: Entries<V>): (r: Entries<V>)
    ensures Unique(o) ==> Unique(r)
  {
    if |p| == 0 then o else Put(Spread(o, p[..|p| - 1]), p[|p| - 1].0, p[|p| - 1].1)
  }

  /** A key of `p` takes its value from `p`; any other key keeps its value from `o`. */
  lemma {:induction false} SpreadGet<V>(o: Entries<V>, p: Entries<V>, k: string)
    requires Unique(o)
    ensures Get(Spread(o, p), k) == if Get(p, k).Some? then Get(p, k) else Get(o, k)
    decreases |p|
  {
    if |p| > 0 {
      SpreadGet(o, p[..|p| - 1], k);
      PutGet(Spread(o, p[..|p| - 1]), p[|p| - 1].0, p[|p| - 1].1);
    }
  }

  /** The keys of `{...o, ...p}` are those of `o` in their order, then the new keys of `p`. */
  lemma {:induction false} SpreadKeepsOrder<V>(o: Entries<V>, p: Entries<V>)
    ensures |Spread(o, p)| >= |o|
    ensures Keys(Spread(o, p))[..|o|] == Keys(o)
    decreases |p|
  {
    if |p| > 0 {
      SpreadKeepsOrder(o, p[..|p| - 1]);
    }
  }

  // ---------------------------------------------------------------------------
  // Declarations.

  /**
   * One `;`-separated piece of a style string: kept as (property, value), both
   * trimmed, when the text before the first `:` and the text between the first and
   * second `:` are both non-empty before trimming.
   */
  function Declaration(style: string): (d: Option<(string, string)>)
    ensures d.Some? <==> ':' in style && Split(style, ':')[0] != "" && Split(style, ':')[1] != ""
  {
    var parts := Split(style, ':');
    SplitLength(style, ':');
    CountCharPositive(style, ':');
    if parts[0] != "" && |parts| > 1 && parts[1] != "" then Some((Trim(parts[0]), Trim(parts[1]))) else None
  }

  lemma CountCharPositive(s: string, c: char)
    ensures c in s <==> CountChar(s, c) > 0
  {
    if c !in s {
      CountCharAbsent(s, c);
    } else {
      var i :| 0 <= i < |s| && s[i] == c;
      assert s == s[..i] + s[i..];
      CountCharAppend(s[..i], s[i..], c);
      assert s[i..] == [c] + s[i + 1..];
      CountCharAppend([c], s[i + 1..], c);
    }
  }

  /** The `styles.forEach` fold over the first pieces. */
  function Declarations(styles: seq<string>): (o: Entries<string>)
    ensures Unique(o)
  {
    if |styles| == 0 then []
    else
      var o := Declarations(styles[..|styles| - 1]);
      match Declaration(styles[|styles| - 1])
      case None => o
      case Some((p, v)) => Put(o, p, v)
  }

  /** `stylesObject`. */
  function StylesObject(styleString: string): Entries<string>
  {
    Declarations(Split(styleString, ';'))
  }

  /** The value the last kept declaration of `property` gives, reading the pieces in order. */
  function LastDeclared(styles: seq<string>, property: string): Option<string>
  {
    if |styles| == 0 then None
    else
      match Declaration(styles[|styles| - 1])
      case Some((p, v)) => if p == property then Some(v) else LastDeclared(styles[..|styles| - 1], property)
      case None => LastDeclared(styles[..|styles| - 1], property)
  }

  /** A property of `stylesObject` holds the value of its last declaration; an undeclared one is absent. */
  lemma {:induction false} DeclarationsLast(styles: seq<string>, property: string)
    ensures Get(Declarations(styles), property) == LastDeclared(styles, property)
    decreases |styles|
  {
    if |styles| > 0 {
      var front := styles[..|styles| - 1];
      DeclarationsLast(front, property);
      match Declaration(styles[|styles| - 1])
      case None =>
      case Some((p, v)) => PutGet(Declarations(front), p, v);
    }
  }

  /** The `styles.forEach` loop of `parseCssToXDataStyles`. */
  method ParseDeclarations(styleString: string) returns (stylesObject: Entries<string>)
    ensures stylesObject == StylesObject(styleString)
  {
    var styles := Split(styleString, ';');
    stylesObject := [];
    var i := 0;
    while i < |styles|
      invariant 0 <= i <= |styles|
      invariant stylesObject == Declarations(styles[..i])
    {
      assert styles[..i + 1][..i] == styles[..i];
      var parts := Split(styles[i], ':');
      if parts[0] != "" && |parts| > 1 && parts[1] != "" {
        stylesObject := Put(stylesObject, Trim(parts[0]), Trim(parts[1]));
      }
      i := i + 1;
    }
    assert styles[..i] == styles;
  }

  // ---------------------------------------------------------------------------
  // Border longhands and shorthands (`parseBorderProperties`).

  /** `["style", "width", "color"].includes(x)`. */
  predicate IsLonghand(x: string) { x == "style" || x == "width" || x == "color" }

  /** The four sides, in the order the `border` object is created with. */
  const SideNames: seq<string> := ["border-top", "border-right", "border-bottom", "border-left"]

  /** `border` as first created: each side with no longhand yet. */
  const InitialBorder: Entries<map<string, string>> :=
    [("border-top", map[]), ("border-right", map[]), ("border-bottom", map[]), ("border-left", map[])]

  /** Every side object holds only `style`, `width` and `color`. */
  predicate LonghandsOnly(border: Entries<map<string, string>>)
  {
    forall i, x :: 0 <= i < |border| && x in border[i].1 ==> IsLonghand(x)
  }

  /** `border[name][longhand] = value`, creating the side object when it is missing. */
  function SetLonghand(border: Entries<map<string, string>>, name: string, longhand: string, value: string)
    : (r: Entries<map<string, string>>)
    requires IsLonghand(longhand)
    ensures Unique(border) ==> Unique(r)
    ensures LonghandsOnly(border) ==> LonghandsOnly(r)
  {
    var side := match Get(border, name) case Some(s) => s case None => map[];
    var r := Put(border, name, side[longhand := value]);
    assert LonghandsOnly(border) ==> LonghandsOnly(r) by {
      if LonghandsOnly(border) {
        var i := KeyIndex(border, name);
        if i != -1 {
          GetAt2(border, i);
        }
      }
    }
    r
  }

  /** The side object `Get` returns is the one at the last position of its key. */
  lemma GetAt2(o: Entries<map<string, string>>, i: nat)
    requires i < |o| && LonghandsOnly(o)
    ensures Get(o, o[i].0).Some?
    ensures forall x :: x in Get(o, o[i].0).value ==> IsLonghand(x)
  {
    GetIn(o, o[i].0);
  }

  lemma {:induction false} GetIn<V>(o: Entries<V>, k: string)
    requires Get(o, k).Some?
    ensures exists i :: 0 <= i < |o| && o[i] == (k, Get(o, k).value)
    decreases |o|
  {
    if o[|o| - 1].0 != k {
      GetIn(o[..|o| - 1], k);
      var i :| 0 <= i < |o| - 1 && o[..|o| - 1][i] == (k, Get(o, k).value);
      assert o[i] == (k, Get(o, k).value);
    }
  }

  /**
   * The values of a two-part `border-<longhand>` declaration: colours containing
   * `rgb` lose their spaces and are cut after each `)`; anything else is split on spaces.
   */
  function ShorthandValues(longhand: string, value: string): seq<string>
  {
    if longhand == "color" && Contains(value, "rgb") then
      var parts := Split(RemoveChar(value, ' '), ')');
      var kept := parts[..|parts| - 1];
      seq(|kept|, i requires 0 <= i < |kept| => kept[i] + ")")
    else Split(value, ' ')
  }

  /** The order in which the branch for `n` values writes the four sides. */
  function BoxOrder(n: nat): (names: seq<string>)
    ensures |names| == 4
  {
    if n <= 2 then ["border-top", "border-bottom", "border-left", "border-right"]
    else if n == 3 then ["border-top", "border-right", "border-left", "border-bottom"]
    else ["border-top", "border-right", "border-bottom", "border-left"]
  }

  /** The values the branch for `|values|` values writes, in `BoxOrder` order. */
  function BoxValues(values: seq<string>): (vs: seq<string>)
    requires 1 <= |values| <= 4
    ensures |vs| == 4
  {
    if |values| == 1 then [values[0], values[0], values[0], values[0]]
    else if |values| == 2 then [values[0], values[0], values[1], values[1]]
    else if |values| == 3 then [values[0], values[1], values[1], values[2]]
    else [values[0], values[1], values[2], values[3]]
  }

  /** The 1-to-4-value branches of `parseBorderProperties`; other counts set nothing. */
  function SpreadBox(border: Entries<map<string, string>>, longhand: string, values: seq<string>)
    : (r: Entries<map<string, string>>)
    requires IsLonghand(longhand)
    ensures Unique(border) ==> Unique(r)
    ensures LonghandsOnly(border) ==> LonghandsOnly(r)
  {
    if 1 <= |values| <= 4 then SetFour(border, longhand, BoxOrder(|values|), BoxValues(values))
    else border
  }

  /**
   * The box rule of section 3 of CSS Backgrounds and Borders Module Level 3 for
   * 1 to 4 values: top is the first; right the second, else the first; bottom the
   * third, else the first; left the fourth, else the right one.
   */
  function BoxSide(values: seq<string>, name: string): string
    requires 1 <= |values| <= 4
  {
    var right := if |values| >= 2 then values[1] else values[0];
    if name == "border-top" then values[0]
    else if name == "border-right" then right
    else if name == "border-bottom" then (if |values| >= 3 then values[2] else values[0])
    else if |values| == 4 then values[3]
    else right
  }

  /** The longhand one side holds, if any. */
  function SideLonghand(border: Entries<map<string, string>>, name: string, longhand: string): Option<string>
  {
    match Get(border, name)
    case None => None
    case Some(side) => if longhand in side then Some(side[longhand]) else None
  }

  /** One side's longhand after `border[name][longhand] = value`. */
  lemma SetLonghandGet(border: Entries<map<string, string>>, name: string, longhand: string, value: string,
                       other: string, x: string)
    requires Unique(border) && IsLonghand(longhand)
    ensures SideLonghand(SetLonghand(border, name, longhand, value), other, x)
         == if other == name && x == longhand then Some(value) else SideLonghand(border, other, x)
    ensures Get(SetLonghand(border, name, longhand, value), other).Some? <==> other == name || Get(border, other).Some?
  {
    var side := match Get(border, name) case Some(s) => s case None => map[];
    PutGet(border, name, side[longhand := value]);
  }

  /**
   * A two-part `border-<longhand>` declaration with 1 to 4 values sets that
   * longhand of each side by the box rule, and changes nothing else.
   */
  lemma BoxRule(border: Entries<map<string, string>>, longhand: string, values: seq<string>, name: string, x: string)
    requires Unique(border) && IsLonghand(longhand) && 1 <= |values| <= 4
    requires name in SideNames
    ensures SideLonghand(SpreadBox(border, longhand, values), name, x)
         == if x == longhand then Some(BoxSide(values, name)) else SideLonghand(border, name, x)
  {
    var names, vs := BoxOrder(|values|), BoxValues(values);
    BoxOrderSides(|values|);
    BoxSteps(border, longhand, names, vs, name, x);
    BoxValuesAgree(values);
    if x == longhand {
      assert name in names;
      var k :| 0 <= k < 4 && names[k] == name;
      assert vs[k] == BoxSide(values, name);
    }
  }

  /** Each branch writes the four sides once each. */
  lemma BoxOrderSides(n: nat)
    ensures var names := BoxOrder(n);
      && (forall i, j :: 0 <= i < j < 4 ==> names[i] != names[j])
      && (forall name :: name in SideNames ==> name in names)
  {
    var names := BoxOrder(n);
    assert |"border-top"| == 10 && |"border-left"| == 11 && |"border-right"| == 12 && |"border-bottom"| == 13;
    assert forall i :: 0 <= i < 4 ==> names[i] in SideNames;
  }

  /** The value each branch writes to a side is the one the box rule gives it. */
  lemma BoxValuesAgree(values: seq<string>)
    requires 1 <= |values| <= 4
    ensures forall k :: 0 <= k < 4 ==> BoxValues(values)[k] == BoxSide(values, BoxOrder(|values|)[k])
  {
    assert |"border-top"| == 10 && |"border-left"| == 11 && |"border-right"| == 12 && |"border-bottom"| == 13;
  }

  /** Four `SetLonghand` writes in a row. */
  function SetFour(border: Entries<map<string, string>>, longhand: string, names: seq<string>, vs: seq<string>)
    : (r: Entries<map<string, string>>)
    requires IsLonghand(longhand) && |names| == 4 && |vs| == 4
    ensures Unique(border) ==> Unique(r)
    ensures LonghandsOnly(border) ==> LonghandsOnly(r)
  {
    var b := SetLonghand(border, names[0], longhand, vs[0]);
    var b := SetLonghand(b, names[1], longhand, vs[1]);
    var b := SetLonghand(b, names[2], longhand, vs[2]);
    SetLonghand(b, names[3], longhand, vs[3])
  }

  /** Four writes to four different sides: each side ends with its own value. */
  lemma BoxSteps(border: Entries<map<string, string>>, longhand: string, names: seq<string>, vs: seq<string>,
                 name: string, x: string)
    requires Unique(border) && IsLonghand(longhand) && |names| == 4 && |vs| == 4
    requires forall i, j :: 0 <= i < j < 4 ==> names[i] != names[j]
    ensures var r := SideLonghand(SetFour(border, longhand, names, vs), name, x);
      && (x == longhand && name == names[0] ==> r == Some(vs[0]))
      && (x == longhand && name == names[1] ==> r == Some(vs[1]))
      && (x == longhand && name == names[2] ==> r == Some(vs[2]))
      && (x == longhand && name == names[3] ==> r == Some(vs[3]))
      && (x != longhand || name !in names ==> r == SideLonghand(border, name, x))
  {
    var b1 := SetLonghand(border, names[0], longhand, vs[0]);
    var b2 := SetLonghand(b1, names[1], longhand, vs[1]);
    var b3 := SetLonghand(b2, names[2], longhand, vs[2]);
    SetLonghandGet(border, names[0], longhand, vs[0], name, x);
    SetLonghandGet(b1, names[1], longhand, vs[1], name, x);
    SetLonghandGet(b2, names[2], longhand, vs[2], name, x);
    SetLonghandGet(b3, names[3], longhand, vs[3], name, x);
  }

  /** Where the declarations of `styles` go: side longhands into `border`, the rest into `others`. */
  datatype Classified = Classified(border: Entries<map<string, string>>, others: Entries<string>)

  /** One step of the `for (const key in styles)` loop. */
  function Classify(acc: Classified, key: string, value: string): (r: Classified)
    ensures Unique(acc.border) && Unique(acc.others) ==> Unique(r.border) && Unique(r.others)
    ensures LonghandsOnly(acc.border) ==> LonghandsOnly(r.border)
  {
    var parts := Split(key, '-');
    if |parts| == 3 && parts[0] == "border" && IsLonghand(parts[2]) then
      acc.(border := SetLonghand(acc.border, "border-" + parts[1], parts[2], value))
    else if |parts| == 2 && parts[0] == "border" && IsLonghand(parts[1]) then
      acc.(border := SpreadBox(acc.border, parts[1], ShorthandValues(parts[1], value)))
    else
      acc.(others := Put(acc.others, key, value))
  }

  /** The whole `for ... in` loop over the first declarations. */
  function ClassifyAll(styles: Entries<string>): (r: Classified)
    ensures Unique(r.border) && Unique(r.others) && LonghandsOnly(r.border)
  {
    if |styles| == 0 then Classified(InitialBorder, [])
    else
      var e := styles[|styles| - 1];
      Classify(ClassifyAll(styles[..|styles| - 1]), e.0, e.1)
  }

  /** `value[x]` in a template string: the text, or `undefined` when absent. */
  function Field(side: map<string, string>, x: string): string
  {
    if x in side then side[x] else "undefined"
  }

  /** The shorthand synthesised for one side: only when it holds three longhands. */
  function SideShorthand(side: map<string, string>): Option<string>
  {
    if |side| == 3 then
      Some(if Field(side, "width") == "0px" then "none"
           else Field(side, "width") + " " + Field(side, "style") + " " + Field(side, "color"))
    else None
  }

  /** A side holding only longhands holds three of them exactly when it holds all three. */
  lemma ThreeLonghands(side: map<string, string>)
    requires forall x :: x in side ==> IsLonghand(x)
    ensures |side| == 3 <==> "width" in side && "style" in side && "color" in side
  {
    assert side.Keys <= {"width", "style", "color"};
    assert "width"[0] == 'w' && "style"[0] == 's' && "color"[0] == 'c';
    ThreeOfThree(side.Keys, "width", "style", "color");
  }

  /** A subset of three distinct values has three elements exactly when it holds all three. */
  lemma ThreeOfThree<T>(keys: set<T>, a: T, b: T, c: T)
    requires a != b && b != c && a != c && keys <= {a, b, c}
    ensures |keys| == 3 <==> a in keys && b in keys && c in keys
  {
    var all := {a, b, c};
    if a in keys && b in keys && c in keys {
      assert keys == all;
    } else {
      var missing :| missing in all && missing !in keys;
      assert keys <= all - {missing};
      assert |all - {missing}| == 2;
      SubsetCard(keys, all - {missing});
    }
  }

  lemma SubsetCard<T>(a: set<T>, b: set<T>)
    requires a <= b
    ensures |a| <= |b|
  {
    assert b == a + (b - a);
  }

  /** The `Object.keys(border).forEach` fold building `parsedBorders`. */
  function Synthesize(border: Entries<map<string, string>>): (r: Entries<string>)
    ensures Unique(r)
  {
    if |border| == 0 then []
    else
      var e := border[|border| - 1];
      var r := Synthesize(border[..|border| - 1]);
      match SideShorthand(e.1)
      case None => r
      case Some(text) => Put(r, e.0, text)
  }

  /** `parsedBorders[side]` is the shorthand of that side, present exactly when it holds all three longhands. */
  lemma {:induction false} SynthesizeGet(border: Entries<map<string, string>>, name: string)
    requires Unique(border)
    ensures Get(Synthesize(border), name) == match Get(border, name) case None => None case Some(side) => SideShorthand(side)
    decreases |border|
  {
    if |border| > 0 {
      var front := border[..|border| - 1];
      var e := border[|border| - 1];
      SynthesizeGet(front, name);
      match SideShorthand(e.1)
      case None =>
      case Some(text) =>
        PutGet(Synthesize(front), e.0, text);
    }
  }

  /** `parseBorderProperties(styles)`: `{...parsedBorders, ...others}`. */
  function BorderProperties(styles: Entries<string>): Entries<string>
  {
    var c := ClassifyAll(styles);
    Spread(Synthesize(c.border), c.others)
  }

  /**
   * In the result of `parseBorderProperties`, a declaration that is not a border
   * longhand keeps its value, overriding a synthesised side shorthand of the same
   * name; any other key is a side shorthand built from all three longhands.
   */
  lemma BorderPropertiesGet(styles: Entries<string>, name: string)
    ensures var c := ClassifyAll(styles);
      Get(BorderProperties(styles), name)
      == if Get(c.others, name).Some? then Get(c.others, name)
         else match Get(c.border, name) case None => None case Some(side) => SideShorthand(side)
  {
    var c := ClassifyAll(styles);
    SpreadGet(Synthesize(c.border), c.others, name);
    SynthesizeGet(c.border, name);
  }

  /** A side gets a synthesised shorthand exactly when its width, style and colour are all known. */
  lemma SynthesizedOnlyWhenComplete(styles: Entries<string>, name: string)
    requires Get(ClassifyAll(styles).others, name).None?
    requires Get(ClassifyAll(styles).border, name).Some?
    ensures var side := Get(ClassifyAll(styles).border, name).value;
      Get(BorderProperties(styles), name).Some? <==> "width" in side && "style" in side && "color" in side
  {
    var c := ClassifyAll(styles);
    BorderPropertiesGet(styles, name);
    GetIn(c.border, name);
    var i :| 0 <= i < |c.border| && c.border[i] == (name, Get(c.border, name).value);
    ThreeLonghands(Get(c.border, name).value);
  }

  lemma ClassifyAllStep(styles: Entries<string>, i: nat)
    requires i < |styles|
    ensures ClassifyAll(styles[..i + 1]) == Classify(ClassifyAll(styles[..i]), styles[i].0, styles[i].1)
  {
    assert styles[..i + 1][..i] == styles[..i];
  }

  lemma SynthesizeStep(border: Entries<map<string, string>>, j: nat)
    requires j < |border|
    ensures Synthesize(border[..j + 1])
         == match SideShorthand(border[j].1) case None => Synthesize(border[..j]) case Some(text) => Put(Synthesize(border[..j]), border[j].0, text)
  {
    assert border[..j + 1][..j] == border[..j];
  }

  /** The `parseBorderProperties` function: its two loops, then the spread. */
  method ParseBorderProperties(styles: Entries<string>) returns (result: Entries<string>)
    ensures result == BorderProperties(styles)
  {
    var acc := Classified(InitialBorder, []);
    var i := 0;
    while i < |styles|
      invariant 0 <= i <= |styles|
      invariant acc == ClassifyAll(styles[..i])
    {
      ClassifyAllStep(styles, i);
      acc := Classify(acc, styles[i].0, styles[i].1);
      i := i + 1;
    }
    assert styles[..i] == styles;
    var parsedBorders: Entries<string> := [];
    var j := 0;
    while j < |acc.border|
      invariant 0 <= j <= |acc.border|
      invariant parsedBorders == Synthesize(acc.border[..j])
    {
      SynthesizeStep(acc.border, j);
      var side := acc.border[j].1;
      if |side| == 3 {
        var text := if Field(side, "width") == "0px" then "none"
                    else Field(side, "width") + " " + Field(side, "style") + " " + Field(side, "color");
        parsedBorders := Put(parsedBorders, acc.border[j].0, text);
      }
      j := j + 1;
    }
    assert acc.border[..j] == acc.border;
    result := Spread(parsedBorders, acc.others);
  }

  // ---------------------------------------------------------------------------
  // Border values of `border` and `border-<side>` declarations.

  /** End of the run of characters that are neither whitespace nor `(`, from `i`. */
  function RunEnd(s: string, i: nat): (j: nat)
    requires i <= |s|
    ensures i <= j <= |s|
    ensures forall k :: i <= k < j ==> !IsWhitespace(s[k]) && s[k] != '('
    ensures j < |s| ==> IsWhitespace(s[j]) || s[j] == '('
    decreases |s| - i
  {
    if i < |s| && !IsWhitespace(s[i]) && s[i] != '(' then RunEnd(s, i + 1) else i
  }

  /** End of the line that `.` can match from `i`: the first line terminator at or after `i`. */
  function LineEnd(s: string, i: nat): (j: nat)
    requires i <= |s|
    ensures i <= j <= |s|
    ensures forall k :: i <= k < j ==> !IsLineTerminator(s[k])
    decreases |s| - i
  {
    if i < |s| && !IsLineTerminator(s[i]) then LineEnd(s, i + 1) else i
  }

  /** The last `)` in `s[lo..hi]`, if any. */
  function LastClose(s: string, lo: nat, hi: nat): (q: Option<nat>)
    requires lo <= hi <= |s|
    ensures q.Some? ==> lo <= q.value < hi && s[q.value] == ')'
    ensures q.None? ==> forall k :: lo <= k < hi ==> s[k] != ')'
    decreases hi - lo
  {
    if hi == lo then None
    else if s[hi - 1] == ')' then Some(hi - 1)
    else LastClose(s, lo, hi - 1)
  }

  /**
   * End of the match of `[^\s\(]+(\(.+\))?` at the start of `s`: the run, then,
   * when a `(` follows, through the last `)` on the same line with at least one
   * character between.
   */
  function TokenEnd(s: string): (e: nat)
    requires |s| > 0 && !IsWhitespace(s[0]) && s[0] != '('
    ensures 0 < e <= |s|
  {
    var j := RunEnd(s, 0);
    if j < |s| && s[j] == '(' then
      var le := LineEnd(s, j + 1);
      if le < j + 2 then j
      else
        match LastClose(s, j + 2, le)
        case Some(q) => q + 1
        case None => j
    else j
  }

  /** `String(value).match(/[^\s\(]+(\(.+\))?/g) ?? []`: the matches, left to right. */
  function Tokens(s: string): (ts: seq<string>)
    ensures forall t :: t in ts ==> |t| > 0
    decreases |s|
  {
    if |s| == 0 then []
    else if IsWhitespace(s[0]) || s[0] == '(' then Tokens(s[1..])
    else
      var e := TokenEnd(s);
      [s[..e]] + Tokens(s[e..])
  }

  /** A word: non-empty, no whitespace and no `(`. */
  predicate Word(w: string)
  {
    |w| > 0 && forall k :: 0 <= k < |w| ==> !IsWhitespace(w[k]) && w[k] != '('
  }

  /** Words joined by single spaces are matched back as those words. */
  lemma {:induction false} TokensOfWords(words: seq<string>)
    requires forall w :: w in words ==> Word(w)
    ensures Tokens(Join(words, ' ')) == words
    decreases |words|
  {
    if |words| == 1 {
      var w := words[0];
      RunEndAll(w, 0);
      assert w[..|w|] == w && w[|w|..] == [];
    } else if |words| > 1 {
      var w := words[0];
      var rest := Join(words[1..], ' ');
      var s := w + [' '] + rest;
      assert s == Join(words, ' ');
      RunEndPrefix(s, w, 0);
      assert s[..|w|] == w;
      assert s[|w|..][1..] == rest;
      TokensOfWords(words[1..]);
    }
  }

  lemma {:induction false} RunEndAll(w: string, i: nat)
    requires Word(w) && i <= |w|
    ensures RunEnd(w, i) == |w|
    decreases |w| - i
  {
    if i < |w| {
      RunEndAll(w, i + 1);
    }
  }

  lemma {:induction false} RunEndPrefix(s: string, w: string, i: nat)
    requires Word(w) && |w| < |s| && s[..|w|] == w && s[|w|] == ' ' && i <= |w|
    ensures RunEnd(s, i) == |w|
    decreases |w| - i
  {
    if i < |w| {
      assert s[i] == w[i];
      RunEndPrefix(s, w, i + 1);
    }
  }

  /** Whether `Number(...) <= k` holds for a JavaScript number: never for NaN. */
  predicate AtMost(n: Num, k: real)
  {
    match n
    case NaN => false
    case Finite(v) => v <= k
    case Infinite(negative) => negative
  }

  /** The line weight a `solid` border of the given width maps to. */
  function LineWeight(width: Num): (w: string)
    ensures w == "thin" <==> AtMost(width, 1.0)
    ensures w == "medium" <==> !AtMost(width, 1.0) && AtMost(width, 2.0)
    ensures w == "thick" <==> !AtMost(width, 2.0)
  {
    if AtMost(width, 1.0) then "thin" else if AtMost(width, 2.0) then "medium" else "thick"
  }

  /**
   * `parsedValues` of a `border`/`border-<side>` value: with at least three
   * tokens, the line style (`solid` graded by width) and the colour (`black` and
   * `initial` as `#000000`); otherwise nothing.
   */
  function BorderValues(value: string): (r: seq<string>)
    ensures |Tokens(value)| <= 2 <==> r == []
    ensures |Tokens(value)| > 2 ==> |r| == 2
  {
    var values := Tokens(value);
    if |values| > 2 then
      var lineStyle := if values[1] == "solid" then LineWeight(ToNumber(BeforeFirst(values[0], "px"))) else values[1];
      var color := if values[2] == "black" || values[2] == "initial" then "#000000" else values[2];
      [lineStyle, color]
    else []
  }

  /** For `width style colour`, the line style and colour the sheet stores. */
  lemma BorderValuesOfWords(width: string, style: string, color: string)
    requires Word(width) && Word(style) && Word(color)
    ensures BorderValues(width + " " + style + " " + color)
         == [if style == "solid" then LineWeight(ToNumber(BeforeFirst(width, "px"))) else style,
             if color == "black" || color == "initial" then "#000000" else color]
  {
    var words := [width, style, color];
    assert Join(words, ' ') == width + " " + style + " " + color by {
      assert Join(words[2..], ' ') == color;
      assert Join(words[1..], ' ') == style + " " + color;
    }
    TokensOfWords(words);
  }

  // ---------------------------------------------------------------------------
  // The sheet style object.

  datatype Font = Font(bold: Option<bool>, size: Option<string>, italic: Option<bool>, name: Option<string>)

  /** The style object `parseCssToXDataStyles` returns; `None` is a key it did not set. */
  datatype XStyle = XStyle(
    bgcolor: Option<string>, color: Option<string>, underline: Option<bool>, strike: Option<bool>,
    align: Option<string>, valign: Option<string>, font: Option<Font>, border: Option<map<string, seq<string>>>)

  /** `parsedStyles`, `fontStyles` and `borderStyles` while the declarations are read. */
  datatype Acc = Acc(
    bgcolor: Option<string>, color: Option<string>, underline: Option<bool>, strike: Option<bool>,
    align: Option<string>, valign: Option<string>, font: Font, borders: map<string, seq<string>>)

  const Start: Acc := Acc(None, None, None, None, None, None, Font(None, None, None, None), map[])

  /** `fontStyles.bold`: `parseInt` above 400, or the word `bold`. */
  predicate IsBold(value: string)
  {
    (match ParseInt(value) case Some(n) => n > 400 case None => false) || value == "bold"
  }

  /** The four side keys of `borderStyles`. */
  const BorderSides: set<string> := {"top", "bottom", "left", "right"}

  /** One case of the `switch (property)`. */
  function Apply(acc: Acc, property: string, value: string): (r: Acc)
    ensures r.borders.Keys <= acc.borders.Keys + BorderSides
  {
    if property == "background" || property == "background-color" then acc.(bgcolor := Some(value))
    else if property == "color" then acc.(color := Some(value))
    else if property == "text-decoration" then
      if value == "underline" then acc.(underline := Some(true))
      else if value == "line-through" then acc.(strike := Some(true))
      else acc
    else if property == "text-align" then acc.(align := Some(value))
    else if property == "vertical-align" then acc.(valign := Some(value))
    else if property == "font-weight" then acc.(font := acc.font.(bold := Some(IsBold(value))))
    else if property == "font-size" then acc.(font := acc.font.(size := Some(BeforeFirst(value, "px"))))
    else if property == "font-style" then acc.(font := acc.font.(italic := Some(value == "italic")))
    else if property == "font-family" then acc.(font := acc.font.(name := Some(value)))
    else if property in BorderKeys then acc.(borders := SetBorders(acc.borders, property, BorderValues(value)))
    else acc
  }

  /** The five border declarations. */
  const BorderKeys: set<string> := {"border", "border-top", "border-bottom", "border-left", "border-right"}

  /**
   * `border` sets all four sides to `v`; `border-<side>` sets the side after the
   * `-`, which is what `property.split("-")[1]` picks out of these keys.
   */
  function SetBorders(borders: map<string, seq<string>>, property: string, v: seq<string>): (r: map<string, seq<string>>)
    ensures property in BorderKeys ==> r.Keys <= borders.Keys + BorderSides
  {
    if property == "border" then map["top" := v, "bottom" := v, "left" := v, "right" := v]
    else if |property| > 7 then borders[property[7..] := v]
    else borders
  }

  /** The `Object.entries(...).forEach` fold. */
  function ApplyAll(entries: Entries<string>): (r: Acc)
    ensures r.borders.Keys <= BorderSides
  {
    if |entries| == 0 then Start
    else
      var e := entries[|entries| - 1];
      Apply(ApplyAll(entries[..|entries| - 1]), e.0, e.1)
  }

  /** `parseCssToXDataStyles(styleString)`, `None` standing for `undefined`. */
  function ParseCss(styleString: Option<string>): (r: XStyle)
    ensures r.font.None? <==> styleString.None? || styleString == Some("")
    ensures r.border.Some? ==> |r.border.value| > 0
  {
    match styleString
    case None => XStyle(None, None, None, None, None, None, None, None)
    case Some(s) =>
      if s == "" then XStyle(None, None, None, None, None, None, None, None)
      else
        var a := ApplyAll(BorderProperties(StylesObject(s)));
        XStyle(a.bgcolor, a.color, a.underline, a.strike, a.align, a.valign, Some(a.font),
               if |a.borders| > 0 then Some(a.borders) else None)
  }

  /** The value of the last entry whose key is one of `keys`. */
  function LastOf(entries: Entries<string>, keys: set<string>): Option<string>
  {
    if |entries| == 0 then None
    else if entries[|entries| - 1].0 in keys then Some(entries[|entries| - 1].1)
    else LastOf(entries[..|entries| - 1], keys)
  }

  function MapBold(v: Option<string>): Option<bool>
  {
    match v case None => None case Some(s) => Some(IsBold(s))
  }

  /** What one declaration does to the plain-valued fields. */
  lemma ApplyPlain(acc: Acc, property: string, value: string)
    ensures var r := Apply(acc, property, value);
      && r.bgcolor == (if property in {"background", "background-color"} then Some(value) else acc.bgcolor)
      && r.color == (if property in {"color"} then Some(value) else acc.color)
      && r.align == (if property in {"text-align"} then Some(value) else acc.align)
      && r.valign == (if property in {"vertical-align"} then Some(value) else acc.valign)
  {
  }

  /** What one declaration does to `underline` and `strike`. */
  lemma ApplyDecoration(acc: Acc, property: string, value: string)
    ensures var r := Apply(acc, property, value);
      && r.underline == (if (property, value) == ("text-decoration", "underline") then Some(true) else acc.underline)
      && r.strike == (if (property, value) == ("text-decoration", "line-through") then Some(true) else acc.strike)
  {
  }

  /** What one declaration does to `italic` and the font name. */
  lemma ApplyFace(acc: Acc, property: string, value: string)
    ensures var r := Apply(acc, property, value);
      && r.font.italic == (if property in {"font-style"} then Some(value == "italic") else acc.font.italic)
      && r.font.name == (if property in {"font-family"} then Some(value) else acc.font.name)
  {
  }

  /** What one declaration does to one side of the borders. */
  lemma ApplyBorder(acc: Acc, property: string, value: string, side: string)
    requires side in BorderSides
    ensures var r := Apply(acc, property, value);
      if property in {"border", SideKey(side)} then side in r.borders && r.borders[side] == BorderValues(value)
      else (side in r.borders <==> side in acc.borders) && (side in r.borders ==> r.borders[side] == acc.borders[side])
  {
    ApplyBorderKeys(acc, property, value);
    SetBordersSide(acc.borders, property, BorderValues(value), side);
  }

  lemma ApplyBorderKeys(acc: Acc, property: string, value: string)
    ensures Apply(acc, property, value).borders
         == if property in BorderKeys then SetBorders(acc.borders, property, BorderValues(value)) else acc.borders
  {
    if property in BorderKeys {
      assert |property| >= 6 && property[..6] == "border";
    }
  }

  lemma SetBordersSide(borders: map<string, seq<string>>, property: string, v: seq<string>, side: string)
    requires side in BorderSides
    ensures var r := if property in BorderKeys then SetBorders(borders, property, v) else borders;
      if property in {"border", SideKey(side)} then side in r && r[side] == v
      else (side in r <==> side in borders) && (side in r ==> r[side] == borders[side])
  {
    if property in BorderKeys && property != "border" {
      assert property[7..] in BorderSides;
      assert property == SideKey(property[7..]);
    }
  }

  /** What one declaration does to `bold` and `size`. */
  lemma ApplyWeight(acc: Acc, property: string, value: string)
    ensures var r := Apply(acc, property, value);
      && r.font.bold == (if property in {"font-weight"} then Some(IsBold(value)) else acc.font.bold)
      && r.font.size == (if property in {"font-size"} then Some(BeforeFirst(value, "px")) else acc.font.size)
  {
  }

  /** The plain-valued fields: each set by the last entry with its key, `background` and `background-color` sharing one. */
  lemma {:induction false} ApplyAllColors(entries: Entries<string>)
    ensures var r := ApplyAll(entries);
      && r.bgcolor == LastOf(entries, {"background", "background-color"})
      && r.color == LastOf(entries, {"color"})
      && r.align == LastOf(entries, {"text-align"})
      && r.valign == LastOf(entries, {"vertical-align"})
    decreases |entries|
  {
    if |entries| > 0 {
      var e := entries[|entries| - 1];
      ApplyAllColors(entries[..|entries| - 1]);
      ApplyPlain(ApplyAll(entries[..|entries| - 1]), e.0, e.1);
    }
  }

  /** `underline` and `strike` are set, to `true`, once their `text-decoration` value is seen. */
  lemma {:induction false} ApplyAllDecorations(entries: Entries<string>)
    ensures var r := ApplyAll(entries);
      && r.underline == (if ("text-decoration", "underline") in entries then Some(true) else None)
      && r.strike == (if ("text-decoration", "line-through") in entries then Some(true) else None)
    decreases |entries|
  {
    if |entries| > 0 {
      var front := entries[..|entries| - 1];
      var e := entries[|entries| - 1];
      ApplyAllDecorations(front);
      ApplyDecoration(ApplyAll(front), e.0, e.1);
      assert entries == front + [e];
    }
  }

  /** `bold` from the last `font-weight` entry. */
  lemma {:induction false} ApplyAllBold(entries: Entries<string>)
    ensures ApplyAll(entries).font.bold == MapBold(LastOf(entries, {"font-weight"}))
    decreases |entries|
  {
    if |entries| > 0 {
      var front := entries[..|entries| - 1];
      var e := entries[|entries| - 1];
      ApplyAllBold(front);
      ApplyWeight(ApplyAll(front), e.0, e.1);
    }
  }

  /** `size` from the last `font-size` entry: the text before `px`. */
  lemma {:induction false} ApplyAllSize(entries: Entries<string>)
    ensures ApplyAll(entries).font.size
         == match LastOf(entries, {"font-size"}) case None => None case Some(v) => Some(BeforeFirst(v, "px"))
    decreases |entries|
  {
    if |entries| > 0 {
      var front := entries[..|entries| - 1];
      var e := entries[|entries| - 1];
      ApplyAllSize(front);
      ApplyWeight(ApplyAll(front), e.0, e.1);
    }
  }

  /** `italic` and `name`, each from the last entry with its key. */
  lemma {:induction false} ApplyAllFace(entries: Entries<string>)
    ensures var r := ApplyAll(entries);
      && r.font.italic == (match LastOf(entries, {"font-style"}) case None => None case Some(v) => Some(v == "italic"))
      && r.font.name == LastOf(entries, {"font-family"})
    decreases |entries|
  {
    if |entries| > 0 {
      var e := entries[|entries| - 1];
      ApplyAllFace(entries[..|entries| - 1]);
      ApplyFace(ApplyAll(entries[..|entries| - 1]), e.0, e.1);
    }
  }

  /** The declaration naming one side: `border-top` for `top`, and so on. */
  function SideKey(side: string): string
  {
    if side == "top" then "border-top"
    else if side == "bottom" then "border-bottom"
    else if side == "left" then "border-left"
    else "border-right"
  }

  /** A side of `borderStyles` holds the values of the last `border` or `border-<side>` entry, and only then is set. */
  lemma {:induction false} ApplyAllBorders(entries: Entries<string>, side: string)
    requires side in BorderSides
    ensures var r := ApplyAll(entries);
      var last := LastOf(entries, {"border", SideKey(side)});
      (side in r.borders <==> last.Some?) && (side in r.borders ==> r.borders[side] == BorderValues(last.value))
    decreases |entries|
  {
    if |entries| > 0 {
      var e := entries[|entries| - 1];
      ApplyAllBorders(entries[..|entries| - 1], side);
      ApplyBorder(ApplyAll(entries[..|entries| - 1]), e.0, e.1, side);
    }
  }

  lemma ApplyAllStep(entries: Entries<string>, i: nat)
    requires i < |entries|
    ensures ApplyAll(entries[..i + 1]) == Apply(ApplyAll(entries[..i]), entries[i].0, entries[i].1)
  {
    assert entries[..i + 1][..i] == entries[..i];
  }

  /** The `parseCssToXDataStyles` function: the declarations, the border pass, then the property switch. */
  method ParseCssToXDataStyles(styleString: Option<string>) returns (r: XStyle)
    ensures r == ParseCss(styleString)
  {
    if styleString.None? || styleString.value == "" {
      return XStyle(None, None, None, None, None, None, None, None);
    }
    var stylesObject := ParseDeclarations(styleString.value);
    var entries := ParseBorderProperties(stylesObject);
    var acc := Start;
    var i := 0;
    while i < |entries|
      invariant 0 <= i <= |entries|
      invariant acc == ApplyAll(entries[..i])
    {
      ApplyAllStep(entries, i);
      acc := Apply(acc, entries[i].0, entries[i].1);
      i := i + 1;
    }
    assert entries[..i] == entries;
    r := XStyle(acc.bgcolor, acc.color, acc.underline, acc.strike, acc.align, acc.valign, Some(acc.font),
                if |acc.borders| > 0 then Some(acc.borders) else None);
  }
}
