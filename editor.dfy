/**
 * The cell editor of src/component/editor.js: the text being typed
 * (`inputText`), the textarea's value and caret, and the edits the editor makes
 * to them: inserting a line break, completing a formula name from the suggest
 * list, replacing the word under the caret by a mention, and writing a date
 * picked in the date picker.
 */
module Editors {
  import opened Options
  import opened JsString

  // ---------------------------------------------------------------------------
  // The word under the caret.

  /** Where the run of non-whitespace characters ending at `k` starts. */
  function WordStart(text: string, k: nat): (s: nat)
    requires k <= |text|
    ensures s <= k
  {
    if k > 0 && !IsWhitespace(text[k - 1]) then WordStart(text, k - 1) else k
  }

  /** Where the run of non-whitespace characters starting at `k` ends. */
  function WordEnd(text: string, k: nat): (e: nat)
    requires k <= |text|
    ensures k <= e <= |text|
    decreases |text| - k
  {
    if k < |text| && !IsWhitespace(text[k]) then WordEnd(text, k + 1) else k
  }

  /** `text[s..e]` is a maximal run of non-whitespace characters holding the caret. */
  predicate IsCaretWord(text: string, caret: nat, s: nat, e: nat)
  {
    && s <= caret <= e <= |text|
    && (forall k :: s <= k < e ==> !IsWhitespace(text[k]))
    && (s == 0 || IsWhitespace(text[s - 1]))
    && (e == |text| || IsWhitespace(text[e]))
  }

  lemma {:induction false} WordStartMaximal(text: string, k: nat)
    requires k <= |text|
    ensures forall j :: WordStart(text, k) <= j < k ==> !IsWhitespace(text[j])
    ensures WordStart(text, k) == 0 || IsWhitespace(text[WordStart(text, k) - 1])
    decreases k
  {
    if k > 0 && !IsWhitespace(text[k - 1]) {
      WordStartMaximal(text, k - 1);
    }
  }

  lemma {:induction false} WordEndMaximal(text: string, k: nat)
    requires k <= |text|
    ensures forall j :: k <= j < WordEnd(text, k) ==> !IsWhitespace(text[j])
    ensures WordEnd(text, k) == |text| || IsWhitespace(text[WordEnd(text, k)])
    decreases |text| - k
  {
    if k < |text| && !IsWhitespace(text[k]) {
      WordEndMaximal(text, k + 1);
    }
  }

  /** The bounds around the caret are a maximal non-whitespace run, and the only one. */
  lemma CaretWordExactly(text: string, caret: nat, s: nat, e: nat)
    requires caret <= |text|
    ensures IsCaretWord(text, caret, s, e) <==> s == WordStart(text, caret) && e == WordEnd(text, caret)
  {
    var s0, e0 := WordStart(text, caret), WordEnd(text, caret);
    WordStartMaximal(text, caret);
    WordEndMaximal(text, caret);
    assert IsCaretWord(text, caret, s0, e0);
  }

  /** The caret word as `text.slice(start, end)`. */
  function CurrentWord(text: string, caret: nat): (w: string)
    requires caret <= |text|
    ensures forall k :: 0 <= k < |w| ==> !IsWhitespace(w[k])
  {
    WordEndMaximal(text, caret);
    WordStartMaximal(text, caret);
    var w := text[WordStart(text, caret)..WordEnd(text, caret)];
    assert forall k :: 0 <= k < |w| ==> w[k] == text[WordStart(text, caret) + k];
    w
  }

  /**
   * The two scans of `mentionMenuSearch` and `mentionInputHandler`: `start` walks
   * left from the caret and `end` walks right, each over non-whitespace characters.
   */
  method CaretWord(text: string, caret: nat) returns (start: nat, end: nat)
    requires caret <= |text|
    ensures start == WordStart(text, caret) && end == WordEnd(text, caret)
    ensures IsCaretWord(text, caret, start, end)
  {
    var s: int := caret - 1;
    while s >= 0 && !IsWhitespace(text[s])
      invariant -1 <= s < caret
      invariant WordStart(text, s + 1) == WordStart(text, caret)
    {
      s := s - 1;
    }
    start := s + 1;
    end := caret;
    while end < |text| && !IsWhitespace(text[end])
      invariant caret <= end <= |text|
      invariant WordEnd(text, end) == WordEnd(text, caret)
    {
      end := end + 1;
    }
    CaretWordExactly(text, caret, start, end);
  }

  // ---------------------------------------------------------------------------
  // Mentions.

  /**
   * The word a chosen mention puts in place of the caret word: `#` and the value
   * when the caret word holds the trigger and no `.`; the caret word through its
   * last `.` and the value when it holds both; nothing otherwise.
   */
  function MentionWord(currentWord: string, trigger: string, value: string): string
  {
    if Contains(currentWord, trigger) && '.' !in currentWord then "#" + value
    else if Contains(currentWord, trigger) && '.' in currentWord then KeepPath(currentWord, value)
    else ""
  }

  /** `currentWord.substring(0, lastIndexOf('.') + 1)` followed by the value. */
  function KeepPath(currentWord: string, value: string): string
    requires '.' in currentWord
  {
    currentWord[..LastIndexOfChar(currentWord, '.') + 1] + value
  }

  /** A dotted mention keeps the path up to its last `.` and replaces only the last segment. */
  lemma MentionWordKeepsPath(currentWord: string, trigger: string, value: string)
    requires Contains(currentWord, trigger) && '.' in currentWord
    ensures var w := MentionWord(currentWord, trigger, value);
            var dot := LastIndexOfChar(currentWord, '.');
            && 0 <= dot < |currentWord|
            && w[..dot + 1] == currentWord[..dot + 1]
            && w[dot + 1..] == value
            && w[dot] == '.'
  {
    assert MentionWord(currentWord, trigger, value) == KeepPath(currentWord, value);
    KeepPathParts(currentWord, value);
  }

  lemma KeepPathParts(currentWord: string, value: string)
    requires '.' in currentWord
    ensures var w, dot := KeepPath(currentWord, value), LastIndexOfChar(currentWord, '.');
            && 0 <= dot < |currentWord|
            && w[..dot + 1] == currentWord[..dot + 1]
            && w[dot + 1..] == value
            && w[dot] == '.'
  {
    var dot := LastIndexOfChar(currentWord, '.');
    assert 0 <= dot < |currentWord| && currentWord[dot] == '.';
    JoinAfterDot(currentWord, dot, value);
  }

  lemma JoinAfterDot(word: string, dot: nat, value: string)
    requires dot < |word| && word[dot] == '.'
    ensures var w := word[..dot + 1] + value;
            && w[..dot + 1] == word[..dot + 1]
            && w[dot + 1..] == value
            && w[dot] == '.'
  {
  }

  /** The inserted text: the mention word with its spaces turned into `_`. */
  function MentionText(currentWord: string, trigger: string, value: string): (r: string)
    ensures ' ' !in r
    ensures |r| == |MentionWord(currentWord, trigger, value)|
  {
    ReplaceChar(MentionWord(currentWord, trigger, value), ' ', '_')
  }

  /** `currentWord.startsWith(trigger)` decides between searching the mention menu and hiding it. */
  function MentionQuery(text: string, caret: nat, trigger: string): (r: Option<string>)
    requires caret <= |text|
    ensures r.Some? <==> StartsWith(CurrentWord(text, caret), trigger)
    ensures r.Some? ==> r.value == CurrentWord(text, caret) && ' ' !in r.value
  {
    var w := CurrentWord(text, caret);
    if StartsWith(w, trigger) then Some(w) else None
  }

  // ---------------------------------------------------------------------------
  // Suggestions and dates.

  /** The remainder kept after a completed formula name: from the first `)` on, or nothing. */
  function ClosingTail(rest: string): (t: string)
    ensures t == "" || (t[0] == ')' && EndsWith(rest, t))
    ensures ')' !in rest ==> t == ""
    ensures ')' in rest ==> ')' !in rest[..|rest| - |t|]
  {
    var k := IndexOfChar(rest, ')');
    if k == -1 then "" else rest[k..]
  }

  /** Month and day as two digits, zero-padded. */
  function TwoDigits(n: nat): (r: string)
    requires n < 100
    ensures |r| == 2 && AllDigits(r) && DigitsValue(r) == n
  {
    DigitsValueOfNat(n);
    var r := if n < 10 then "0" + NatToString(n) else NatToString(n);
    assert n < 10 ==> r[..1] == "0";
    assert n >= 10 ==> NatToString(n)[..1] == NatToString(n / 10);
    r
  }

  /**
   * `dateFormat(d)`: `YYYY-MM-DD` from the year, the month counted from 0 (as
   * `getMonth` gives it) and the day of the month.
   */
  function DateFormat(year: int, monthIndex: nat, date: nat): (r: string)
    requires monthIndex < 12 && 1 <= date <= 31
    ensures |r| == |IntToString(year)| + 6
    ensures r[|r| - 6] == '-' && r[|r| - 3] == '-'
    ensures AllDigits(r[|r| - 5..|r| - 3]) && AllDigits(r[|r| - 2..])
  {
    var m, d := TwoDigits(monthIndex + 1), TwoDigits(date);
    var r := IntToString(year) + "-" + m + "-" + d;
    assert r[|r| - 5..|r| - 3] == m;
    assert r[|r| - 2..] == d;
    r
  }

  /** The formatted date reads back: the year before the fixed-width `-MM-DD` tail, then month and day. */
  lemma DateFormatReadsBack(year: int, monthIndex: nat, date: nat)
    requires monthIndex < 12 && 1 <= date <= 31
    ensures var r := DateFormat(year, monthIndex, date);
            && |r| >= 7
            && r[|r| - 6] == '-' && r[|r| - 3] == '-'
            && r[..|r| - 6] == IntToString(year)
            && AllDigits(r[|r| - 5..|r| - 3]) && DigitsValue(r[|r| - 5..|r| - 3]) == monthIndex + 1
            && AllDigits(r[|r| - 2..]) && DigitsValue(r[|r| - 2..]) == date
  {
    var y, m, d := IntToString(year), TwoDigits(monthIndex + 1), TwoDigits(date);
    var r := DateFormat(year, monthIndex, date);
    assert r == y + "-" + m + "-" + d;
    assert r[|r| - 5..|r| - 3] == m;
    assert r[|r| - 2..] == d;
    assert r[..|r| - 6] == y;
  }

  /** Different dates format differently. */
  lemma DateFormatInjective(y1: int, m1: nat, d1: nat, y2: int, m2: nat, d2: nat)
    requires m1 < 12 && 1 <= d1 <= 31 && m2 < 12 && 1 <= d2 <= 31
    requires DateFormat(y1, m1, d1) == DateFormat(y2, m2, d2)
    ensures y1 == y2 && m1 == m2 && d1 == d2
  {
    DateFormatReadsBack(y1, m1, d1);
    DateFormatReadsBack(y2, m2, d2);
    IntToStringInjective(y1, y2);
  }

  // ---------------------------------------------------------------------------
  // The editor.

  /** The insertion point `setSelectionRange(n, n)` gives: `n`, or the end of the value if `n` is past it. */
  function Clamp(n: nat, length: nat): (r: nat)
    ensures r <= length && (n <= length ==> r == n)
  {
    if n <= length then n else length
  }

  class Editor {
    /** `inputText`: the text being edited. */
    var inputText: string
    /** The textarea's value. */
    var value: string
    /** The textarea's caret (a collapsed selection). */
    var caret: nat
    /** `trigger`: the character sequence that opens the mention menu. */
    var trigger: string
    /** `validator.type`, when the cell has a validator. */
    var validatorType: Option<string>

    /** The caret lies within the textarea's value. */
    predicate Valid()
      reads this
    {
      caret <= |value|
    }

    constructor(trigger: string)
      ensures Valid()
      ensures inputText == "" && value == "" && caret == 0
      ensures this.trigger == trigger && validatorType == None
    {
      inputText := "";
      value := "";
      caret := 0;
      this.trigger := trigger;
      validatorType := None;
    }

    /**
     * `insertText(evt, itxt)`: `itxt` goes in at the caret; the caret moves one
     * place on; the edited text becomes the new value.
     */
    method InsertText(itxt: string)
      requires Valid()
      modifies this`value, this`inputText, this`caret
      ensures Valid()
      ensures value == old(value)[..old(caret)] + itxt + old(value)[old(caret)..]
      ensures caret == Clamp(old(caret) + 1, |value|)
      ensures inputText == value
    {
      var ntxt := value[..caret] + itxt + value[caret..];
      value := ntxt;
      caret := Clamp(caret + 1, |ntxt|);
      inputText := ntxt;
    }

    /**
     * `mentionMenuSearch(text)`: the word under the caret is searched in the
     * mention menu when it starts with the trigger (`Some`), and the menu is
     * hidden otherwise (`None`).
     */
    method MentionMenuSearch(text: string) returns (query: Option<string>)
      requires caret <= |text|
      ensures query == MentionQuery(text, caret, trigger)
    {
      var start, end := CaretWord(text, caret);
      var currentWord := text[start..end];
      if StartsWith(currentWord, trigger) {
        query := Some(currentWord);
      } else {
        query := None;
      }
    }

    /**
     * `mentionInputHandler(item)`: the word under the caret is replaced by the
     * mention word for `item.value` (spaces turned into `_`); the caret goes to
     * the end of the inserted word.
     */
    method MentionInput(item: string)
      requires caret <= |inputText|
      modifies this`value, this`inputText, this`caret
      ensures Valid()
      ensures var s, e := WordStart(old(inputText), old(caret)), WordEnd(old(inputText), old(caret));
              && inputText == old(inputText)[..s] + MentionText(CurrentWord(old(inputText), old(caret)), trigger, item) + old(inputText)[e..]
              && caret == s + |MentionWord(CurrentWord(old(inputText), old(caret)), trigger, item)|
      ensures value == inputText
    {
      var text := inputText;
      var start, end := CaretWord(text, caret);
      var currentWord := text[start..end];
      var word := "";
      if Contains(currentWord, trigger) && '.' !in currentWord {
        word := "#" + item;
      } else if Contains(currentWord, trigger) && '.' in currentWord {
        var index := LastIndexOfChar(currentWord, '.');
        word := currentWord[..index + 1] + item;
      }
      assert currentWord == CurrentWord(text, caret);
      assert word == MentionWord(currentWord, trigger, item);
      var mention := ReplaceChar(word, ' ', '_');
      assert mention == MentionText(currentWord, trigger, item) && |mention| == |word|;
      var newText := text[..start] + mention + text[end..];
      assert start + |word| <= |newText|;
      inputText := newText;
      value := newText;
      caret := start + |word|;
    }

    /**
     * `suggestItemClick(it)`: with a list validator the text becomes the item and
     * the caret goes to its end. Otherwise `it` is the chosen formula name: the
     * text keeps everything through its last `=`, then the name and `()`, then
     * whatever followed from the first `)` after that `=`; the caret goes between
     * the parentheses.
     */
    method SuggestItemClick(it: string)
      modifies this`value, this`inputText, this`caret
      ensures Valid()
      ensures validatorType == Some("list") ==> inputText == it && caret == |it|
      ensures validatorType != Some("list") ==>
                var start := LastIndexOfChar(old(inputText), '=');
                && inputText == old(inputText)[..start + 1] + it + "()" + ClosingTail(old(inputText)[start + 1..])
                && caret == start + 1 + |it| + 1
      ensures value == inputText
    {
      var text, position := inputText, 0;
      if validatorType == Some("list") {
        text := it;
        position := |text|;
      } else {
        var start := LastIndexOfChar(text, '=');
        var sit := text[..start + 1];
        var eit := text[start + 1..];
        if IndexOfChar(eit, ')') != -1 {
          eit := eit[IndexOfChar(eit, ')')..];
        } else {
          eit := "";
        }
        assert eit == ClosingTail(text[start + 1..]);
        text := sit + it + "(";
        position := |text|;
        ParensJoin(sit, it, eit);
        text := text + ")" + eit;
      }
      inputText := text;
      value := text;
      caret := position;
    }

    /** `setText(text)`: the text becomes the input text and the value, caret at its end. */
    method SetText(text: string)
      modifies this`value, this`inputText, this`caret
      ensures Valid()
      ensures inputText == value == text && caret == |text|
    {
      inputText := text;
      value := text;
      caret := |text|;
    }

    /**
     * `clear()`: a non-empty input text is handed to the change callback as
     * finished (`finished`, `None` when nothing is handed on); then the input
     * text and the textarea are emptied.
     */
    method Clear() returns (finished: Option<string>)
      modifies this`value, this`inputText, this`caret
      ensures Valid()
      ensures finished == if old(inputText) == "" then None else Some(old(inputText))
      ensures inputText == "" && value == "" && caret == 0
    {
      finished := if inputText == "" then None else Some(inputText);
      inputText := "";
      value := "";
      caret := 0;
    }

    /**
     * The date picker's handler: the formatted date is set as the text and the
     * editor is cleared at once, so the date is what it hands on as finished
     * and the editor is left empty.
     */
    method SetDate(year: int, monthIndex: nat, date: nat) returns (finished: Option<string>)
      requires monthIndex < 12 && 1 <= date <= 31
      modifies this`value, this`inputText, this`caret
      ensures Valid()
      ensures finished == Some(DateFormat(year, monthIndex, date))
      ensures inputText == "" && value == "" && caret == 0
    {
      SetText(DateFormat(year, monthIndex, date));
      finished := Clear();
    }
  }

  // ---------------------------------------------------------------------------
  // Properties of the edits.

  /** A line break inserted at the caret: removing it gives the old value back, and the caret sits right after it. */
  lemma InsertTextUndone(old_value: string, caret: nat, itxt: string)
    requires caret <= |old_value| && |itxt| > 0
    ensures var v := old_value[..caret] + itxt + old_value[caret..];
            && v[..caret] + v[caret + |itxt|..] == old_value
            && v[Clamp(caret + 1, |v|) - 1] == itxt[0]
  {
    var v := old_value[..caret] + itxt + old_value[caret..];
    assert v[caret] == itxt[0];
    assert v[caret + |itxt|..] == old_value[caret..];
  }

  lemma ParensJoin(head: string, name: string, tail: string)
    ensures head + name + "(" + ")" + tail == head + name + "()" + tail
  {
  }

  /** The mention edit leaves the text before and after the caret word as it was, and the caret after the inserted word. */
  lemma MentionKeepsOutside(text: string, caret: nat, trigger: string, item: string)
    requires caret <= |text|
    ensures var s, e := WordStart(text, caret), WordEnd(text, caret);
            var t := MentionText(CurrentWord(text, caret), trigger, item);
            var n := text[..s] + t + text[e..];
            var c := s + |MentionWord(CurrentWord(text, caret), trigger, item)|;
            && c <= |n|
            && n[..s] == text[..s]
            && n[c..] == text[e..]
            && ' ' !in n[s..c]
  {
    var s, e := WordStart(text, caret), WordEnd(text, caret);
    var t := MentionText(CurrentWord(text, caret), trigger, item);
    var n := text[..s] + t + text[e..];
    assert n[s..s + |t|] == t;
    assert n[s + |t|..] == text[e..];
  }

  /** A caret word without the trigger is removed outright. */
  lemma MentionWithoutTriggerRemovesWord(text: string, caret: nat, trigger: string, item: string)
    requires caret <= |text| && !Contains(CurrentWord(text, caret), trigger)
    ensures text[..WordStart(text, caret)] + MentionText(CurrentWord(text, caret), trigger, item) + text[WordEnd(text, caret)..]
         == text[..WordStart(text, caret)] + text[WordEnd(text, caret)..]
  {
  }

  /**
   * After a formula name is completed, the caret sits between `(` and `)`, after
   * the kept head of the text and the name; `start` is where the last `=` is, or -1.
   */
  lemma SuggestCaretBetweenParens(text: string, start: int, key: string)
    requires -1 <= start < |text|
    ensures var n := text[..start + 1] + key + "()" + ClosingTail(text[start + 1..]);
            var c := start + 1 + |key| + 1;
            && 0 < c < |n|
            && n[c - 1] == '(' && n[c] == ')'
            && n[..start + 1] == text[..start + 1]
            && n[c - 1 - |key|..c - 1] == key
  {
    SpliceParens(text[..start + 1], key, ClosingTail(text[start + 1..]));
  }

  lemma SpliceParens(head: string, key: string, tail: string)
    ensures var n := head + key + "()" + tail;
            var c := |head| + |key| + 1;
            && 0 < c < |n|
            && n[c - 1] == '(' && n[c] == ')'
            && n[..|head|] == head
            && n[c - 1 - |key|..c - 1] == key
  {
    var n := head + key + "()" + tail;
    var c := |head| + |key| + 1;
    assert n == head + (key + ("()" + tail));
    assert n[c - 1] == "()"[0] && n[c] == "()"[1];
    assert n[|head|..c - 1] == key;
  }

  /** What follows the `)` of a completed formula name is a suffix of the text before the click. */
  lemma SuggestKeepsTail(text: string, start: int, key: string)
    requires -1 <= start < |text|
    ensures var n := text[..start + 1] + key + "()" + ClosingTail(text[start + 1..]);
            EndsWith(text, n[start + 1 + |key| + 2..])
  {
    var rest := text[start + 1..];
    var tail := ClosingTail(rest);
    var n := text[..start + 1] + key + "()" + tail;
    assert n[start + 1 + |key| + 2..] == tail;
    assert rest[|rest| - |tail|..] == tail;
    assert text[|text| - |tail|..] == rest[|rest| - |tail|..];
  }
}
