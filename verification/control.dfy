/**
 The teacher's control panel of renderer/control.js: it turns the NG-word
 text box into a list, sends the teacher's own comments, and keeps a
 history of every comment the hub relays, newest first.
 */
module Control {
  import opened Wrappers
  import opened JsValue
  import opened JsString
  import Hub

  /** The colour selected before any colour block is clicked. */
  const InitialColor: string := "#ffffff"

  // ------------------------------------------------------- NG-word parsing

  /** A trimmed, non-empty word. */
  predicate IsTrimmedWord(w: string) {
    w != "" && !IsTrimmable(w[0]) && !IsTrimmable(w[|w| - 1])
  }

  /** `.map(w => w.trim()).filter(w => w)`: the trimmed pieces that are not
      empty, in their original order. */
  function TrimmedNonEmpty(parts: seq<string>): (r: seq<string>)
    ensures |r| <= |parts|
    ensures forall k :: 0 <= k < |r| ==> IsTrimmedWord(r[k])
    decreases |parts|
  {
    if |parts| == 0 then []
    else
      var rest := TrimmedNonEmpty(parts[1..]);
      var t := Trim(parts[0]);
      if t == "" then rest else [t] + rest
  }

  /** The NG-word box as sent on "update": `value.split(',').map(trim).filter(w => w)`.
      Every word is non-empty and carries no surrounding whitespace. */
  function ParseNgWords(input: string): (words: seq<string>)
    ensures forall k :: 0 <= k < |words| ==> IsTrimmedWord(words[k])
  {
    TrimmedNonEmpty(Split(input, ','))
  }

  /** A word the parser can produce: non-empty, no whitespace at either end, no comma. */
  predicate CleanWord(w: string) {
    IsTrimmedWord(w) && ',' !in w
  }

  /** Trimming only removes characters: one absent before is absent after. */
  lemma TrimKeepsMissingChar(s: string, c: char)
    requires c !in s
    ensures c !in Trim(s)
  {
    TrimIsFramed(s);
    var i, j :| 0 <= i <= j <= |s| && Trim(s) == s[i..j] && Blank(s[..i]) && Blank(s[j..]);
    assert forall x :: x in s[i..j] ==> x in s;
  }

  lemma {:induction false} TrimmedNonEmptyAvoids(parts: seq<string>, c: char)
    requires forall k :: 0 <= k < |parts| ==> c !in parts[k]
    ensures forall k :: 0 <= k < |TrimmedNonEmpty(parts)| ==> c !in TrimmedNonEmpty(parts)[k]
    decreases |parts|
  {
    if |parts| > 0 {
      TrimKeepsMissingChar(parts[0], c);
      TrimmedNonEmptyAvoids(parts[1..], c);
    }
  }

  /** Every parsed word satisfies `CleanWord`: besides being trimmed and
      non-empty, none contains a comma. */
  lemma ParsedWordsAreClean(input: string)
    ensures forall k :: 0 <= k < |ParseNgWords(input)| ==> CleanWord(ParseNgWords(input)[k])
  {
    TrimmedNonEmptyAvoids(Split(input, ','), ',');
  }

  lemma {:induction false} TrimmedNonEmptyAppend(a: seq<string>, b: seq<string>)
    ensures TrimmedNonEmpty(a + b) == TrimmedNonEmpty(a) + TrimmedNonEmpty(b)
    decreases |a|
  {
    if |a| > 0 {
      assert (a + b)[0] == a[0];
      assert (a + b)[1..] == a[1..] + b;
      TrimmedNonEmptyAppend(a[1..], b);
    } else {
      assert a + b == b;
    }
  }

  /** Parsing treats a comma as a hard boundary: the words of `a,b` are the
      words of `a` followed by the words of `b`. */
  lemma ParseAroundComma(a: string, b: string)
    ensures ParseNgWords(a + [','] + b) == ParseNgWords(a) + ParseNgWords(b)
  {
    SplitAround(a, ',', b);
    TrimmedNonEmptyAppend(Split(a, ','), Split(b, ','));
  }

  /** A single comma-free segment yields its trimmed self, unless it is blank. */
  lemma ParseSegment(s: string)
    requires ',' !in s
    ensures !Blank(s) ==> ParseNgWords(s) == [Trim(s)]
    ensures Blank(s) ==> ParseNgWords(s) == []
  {
    SplitWithoutSeparator(s, ',');
    TrimEmptyIffBlank(s);
    assert [s][1..] == [];
  }

  /** Text made only of commas and whitespace (possibly empty). */
  predicate CommasAndBlanks(s: string) {
    forall k :: 0 <= k < |s| ==> s[k] == ',' || IsTrimmable(s[k])
  }

  /** Input made only of commas and whitespace, the empty input included,
      yields no words at all. */
  lemma {:induction false} ParseBlankInput(s: string)
    requires CommasAndBlanks(s)
    ensures ParseNgWords(s) == []
    decreases |s|
  {
    if ',' !in s {
      assert Blank(s);
      ParseSegment(s);
    } else {
      var k :| 0 <= k < |s| && s[k] == ',';
      CommasAndBlanksAround(s, k);
      ParseBlankInput(s[..k]);
      ParseBlankInput(s[k + 1..]);
      ParseAroundComma(s[..k], s[k + 1..]);
    }
  }

  /** Cutting such text at a comma leaves such text on both sides. */
  lemma CommasAndBlanksAround(s: string, k: nat)
    requires CommasAndBlanks(s)
    requires k < |s| && s[k] == ','
    ensures CommasAndBlanks(s[..k]) && CommasAndBlanks(s[k + 1..])
    ensures s == s[..k] + [','] + s[k + 1..]
  {
    var a, b := s[..k], s[k + 1..];
    assert forall i :: 0 <= i < |a| ==> a[i] == s[i];
    assert forall i :: 0 <= i < |b| ==> b[i] == s[k + 1 + i];
    forall i | 0 <= i < |s| ensures s[i] == (s[..k] + [','] + s[k + 1..])[i] {
      if i < k { } else if i == k { } else { }
    }
  }

  lemma CleanWordParsesToItself(w: string)
    requires CleanWord(w)
    ensures ParseNgWords(w) == [w]
  {
    assert !Blank(w) by { assert !IsTrimmable(w[0]); }
    assert TrimStart(w) == w;
    assert TrimEnd(w) == w;
    ParseSegment(w);
  }

  /** Parsing then re-parsing the words joined by commas is stable: the
      parser's own output is a fixed point. */
  lemma {:induction false} ParseJoinedWords(words: seq<string>)
    requires |words| >= 1
    requires forall k :: 0 <= k < |words| ==> CleanWord(words[k])
    ensures ParseNgWords(Join(words, ',')) == words
    decreases |words|
  {
    var w := words[0];
    assert CleanWord(w);
    CleanWordParsesToItself(w);
    if |words| > 1 {
      var rest := words[1..];
      assert forall k :: 0 <= k < |rest| ==> CleanWord(rest[k]) by {
        assert forall k :: 0 <= k < |rest| ==> rest[k] == words[k + 1];
      }
      ParseJoinedWords(rest);
      assert Join(words, ',') == w + [','] + Join(rest, ',');
      ParseAroundComma(w, Join(rest, ','));
    }
  }

  /** The NG "update" button: the parsed list is emitted as it is. */
  function UpdateNgWordsClick(ngInput: string): (e: Hub.Inbound)
    ensures e.UpdateNgWords? && e.arg.StringArray?
    ensures "" !in e.arg.words
  {
    Hub.UpdateNgWords(Hub.StringArray(ParseNgWords(ngInput)))
  }

  // --------------------------------------------------------- sendComment

  /** The controls `sendComment` reads: the text box, the selected colour,
      the "fixed" checkbox and the position slider. */
  datatype Panel = Panel(input: string, selectedColor: string, fixedChecked: bool, slider: string)

  /** `sendComment()`: nothing for an empty box; otherwise the untrimmed text
      with the panel's colour, fixed flag and slider position, after which
      the box is emptied. */
  function SendTeacherComment(p: Panel): (r: (Panel, Option<Hub.Inbound>))
    ensures p.input == "" <==> r.1.None?
    ensures p.input == "" ==> r.0 == p
    ensures p.input != "" ==> r.0 == p.(input := "")
    ensures r.1.Some? ==> (
      && r.1.value.SendComment? && r.1.value.data.Some?
      && r.1.value.data.value.text == Str(p.input)
      && r.1.value.data.value.color == Str(p.selectedColor)
      && r.1.value.data.value.isFixed == Bool(p.fixedChecked)
      && r.1.value.data.value.position == Str(p.slider))
  {
    if p.input == "" then (p, None)
    else
      var data := Hub.Payload(Str(p.input), Str(p.selectedColor), Bool(p.fixedChecked), Str(p.slider));
      (p.(input := ""), Some(Hub.SendComment(Some(data))))
  }

  /** The guard only refuses the empty string: whitespace-only text is sent as typed. */
  lemma WhitespaceIsSent(p: Panel)
    requires p.input != "" && Blank(p.input)
    ensures SendTeacherComment(p).1.Some?
    ensures SendTeacherComment(p).1.value.data.value.text == Str(p.input)
  {
  }

  /** A colour block's click handler: the block's colour becomes the one
      the next `sendComment` reads; nothing else on the panel changes. */
  function SelectColor(p: Panel, color: string): (r: Panel)
    ensures r.selectedColor == color
    ensures r.(selectedColor := p.selectedColor) == p
  {
    p.(selectedColor := color)
  }

  /** Several colour-block clicks in order. */
  function SelectColors(p: Panel, colors: seq<string>): Panel
    decreases |colors|
  {
    if |colors| == 0 then p else SelectColors(SelectColor(p, colors[0]), colors[1..])
  }

  /** The panel as loaded, before any colour block is clicked: an empty text
      box and the default colour. */
  function LoadedPanel(fixedChecked: bool, slider: string): (p: Panel)
    ensures p.input == ""
    ensures p.selectedColor == InitialColor
  {
    Panel("", InitialColor, fixedChecked, slider)
  }

  /** A comment carries the colour of the last block clicked, or the default
      `#ffffff` when none was; the clicks leave the rest of the panel alone. */
  lemma {:induction false} SentColorIsLastClicked(p: Panel, colors: seq<string>)
    ensures SelectColors(p, colors).(selectedColor := p.selectedColor) == p
    ensures SelectColors(p, colors).selectedColor ==
            if |colors| == 0 then p.selectedColor else colors[|colors| - 1]
    ensures p.input != "" ==>
            SendTeacherComment(SelectColors(p, colors)).1.value.data.value.color ==
            Str(if |colors| == 0 then p.selectedColor else colors[|colors| - 1])
    decreases |colors|
  {
    if |colors| > 0 {
      SentColorIsLastClicked(SelectColor(p, colors[0]), colors[1..]);
      if |colors| > 1 {
        assert colors[1..][|colors[1..]| - 1] == colors[|colors| - 1];
      }
    }
  }

  /** Typing and sending before any colour block is clicked gives a white comment. */
  lemma DefaultColorIsWhite(fixedChecked: bool, slider: string, text: string)
    requires text != ""
    ensures SendTeacherComment(LoadedPanel(fixedChecked, slider).(input := text)).1.value.data.value.color
            == Str("#ffffff")
  {
  }

  /** The "clear fixed" button. */
  function ClearFixedClick(): (e: Hub.Inbound)
    ensures e.ClearFixedComment?
  {
    Hub.ClearFixedComment
  }

  // ------------------------------------------------------------- history

  /** One history line: the "[fixed]" tag, the colour swatch and the text
      (the local time stamp is left out). */
  datatype HistoryItem = HistoryItem(fixedTag: bool, swatch: Value, text: Value)

  /** The line shown for a relayed comment; the swatch falls back to black. */
  function HistoryEntry(data: Hub.Payload): (item: HistoryItem)
    ensures item.fixedTag <==> Truthy(data.isFixed)
    ensures Truthy(data.color) ==> item.swatch == data.color
    ensures !Truthy(data.color) ==> item.swatch == Str("black")
    ensures item.text == data.text
  {
    HistoryItem(Truthy(data.isFixed), OrElse(data.color, Str("black")), data.text)
  }

  /** The `new_comment` handler: the new line is prepended. */
  function OnNewComment(history: seq<HistoryItem>, data: Hub.Payload): (r: seq<HistoryItem>)
    ensures |r| == |history| + 1
    ensures r[0] == HistoryEntry(data)
    ensures r[1..] == history
  {
    [HistoryEntry(data)] + history
  }

  function ReceiveAll(history: seq<HistoryItem>, ds: seq<Hub.Payload>): seq<HistoryItem>
    decreases |ds|
  {
    if |ds| == 0 then history else ReceiveAll(OnNewComment(history, ds[0]), ds[1..])
  }

  /** The history reads newest first: after receiving `ds` in order, line `k`
      shows the `k`-th most recent comment, followed by the older history. */
  lemma {:induction false} HistoryIsNewestFirst(history: seq<HistoryItem>, ds: seq<Hub.Payload>)
    ensures |ReceiveAll(history, ds)| == |ds| + |history|
    ensures forall k :: 0 <= k < |ds| ==> ReceiveAll(history, ds)[k] == HistoryEntry(ds[|ds| - 1 - k])
    ensures forall k :: 0 <= k < |history| ==> ReceiveAll(history, ds)[|ds| + k] == history[k]
    decreases |ds|
  {
    if |ds| > 0 {
      var h1 := OnNewComment(history, ds[0]);
      HistoryIsNewestFirst(h1, ds[1..]);
      var r := ReceiveAll(history, ds);
      assert r == ReceiveAll(h1, ds[1..]);
      forall k | 0 <= k < |ds| ensures r[k] == HistoryEntry(ds[|ds| - 1 - k]) {
        if k < |ds| - 1 {
          assert ds[1..][|ds[1..]| - 1 - k] == ds[|ds| - 1 - k];
        } else {
          assert r[|ds[1..]| + 0] == h1[0];
        }
      }
      forall k | 0 <= k < |history| ensures r[|ds| + k] == history[k] {
        assert r[|ds[1..]| + (k + 1)] == h1[k + 1];
      }
    }
  }
}
