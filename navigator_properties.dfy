/**
 * What the tab navigator promises, proved about its specification
 * (`Overlay.Frame`, `Overlay.Loop`, `Overlay.Navigate`); `Overlay.TabNavigator`
 * is proved to end in the state `Navigate` describes, so each of these
 * holds of the loop as well.
 */
module NavigatorProperties {
  import opened Termwiz
  import opened Overlay

  // ---------------------------------------------------------------------
  // Reading a frame back
  // ---------------------------------------------------------------------

  /** The texts of the `Text` changes in `cs`, in order. */
  function Texts(cs: seq<Change>): (ts: seq<string>)
  {
    if cs == [] then [] else (if cs[0].Text? then [cs[0].text] else []) + Texts(cs[1..])
  }

  /** How many `Reverse(true)` changes `cs` holds. */
  function ReverseOns(cs: seq<Change>): (n: nat)
  {
    if cs == [] then 0 else (if cs[0] == Attribute(Reverse(true)) then 1 else 0) + ReverseOns(cs[1..])
  }

  /**
   * Scans a list body for the first text immediately preceded by
   * `Reverse(true)` and gives its line number; `line` numbers the next text.
   */
  function Marked(body: seq<Change>, line: nat): (m: Option<nat>)
  {
    if body == [] then None
    else if body[0] == Attribute(Reverse(true)) && |body| > 1 && body[1].Text? then Some(line)
    else Marked(body[1..], if body[0].Text? then line + 1 else line)
  }

  /** The line a rendered frame shows in reverse video, counted from 0 after the header. */
  function HighlightedLine(frame: seq<Change>): (line: Option<nat>)
  {
    if |frame| < 4 then None else Marked(frame[4..], 0)
  }

  /** Reads the decimal number back from its digits. */
  function ParseDecimal(s: string): (n: nat)
    requires forall k :: 0 <= k < |s| ==> '0' <= s[k] <= '9'
    decreases |s|
  {
    if s == [] then 0 else ParseDecimal(s[..|s| - 1]) * 10 + (s[|s| - 1] as int - '0' as int)
  }

  lemma {:induction false} DecimalRoundTrip(n: nat)
    ensures ParseDecimal(DecimalString(n)) == n
    decreases n
  {
    var s := DecimalString(n);
    if n >= 10 {
      DecimalRoundTrip(n / 10);
      assert s[..|s| - 1] == DecimalString(n / 10);
    }
  }

  lemma {:induction false} TextsAppend(a: seq<Change>, b: seq<Change>)
    ensures Texts(a + b) == Texts(a) + Texts(b)
    decreases |a|
  {
    if a != [] {
      var head := if a[0].Text? then [a[0].text] else [];
      assert (a + b)[0] == a[0];
      assert (a + b)[1..] == a[1..] + b;
      TextsAppend(a[1..], b);
      assert Texts(a + b) == head + Texts(a[1..] + b);
      assert Texts(a) == head + Texts(a[1..]);
    } else {
      assert a + b == b;
    }
  }

  lemma {:induction false} ReverseOnsAppend(a: seq<Change>, b: seq<Change>)
    ensures ReverseOns(a + b) == ReverseOns(a) + ReverseOns(b)
    decreases |a|
  {
    if a != [] {
      assert (a + b)[0] == a[0];
      assert (a + b)[1..] == a[1..] + b;
      ReverseOnsAppend(a[1..], b);
    } else {
      assert a + b == b;
    }
  }

  lemma LineLayout(idx: nat, text: string, active: nat)
    ensures Texts(Line(idx, text, active)) == [text]
    ensures ReverseOns(Line(idx, text, active)) == if idx == active then 1 else 0
  {
    var line := Line(idx, text, active);
    var off := Attribute(Reverse(false));
    assert Texts([off]) == [] && ReverseOns([off]) == 0;
    assert Texts([Text(text)]) == [text] && ReverseOns([Text(text)]) == 0;
    if idx == active {
      assert line[1..] == [Text(text), off];
      assert line[1..][1..] == [off];
    }
  }

  /** The texts of the list are its labels, in order and nothing else. */
  lemma {:induction false} LinesTexts(labels: seq<string>, active: nat, first: nat)
    ensures Texts(Lines(labels, active, first)) == labels
    decreases |labels|
  {
    if labels != [] {
      var line := Line(first, labels[0], active);
      var tail := Lines(labels[1..], active, first + 1);
      LinesTexts(labels[1..], active, first + 1);
      TextsAppend(line, tail);
      LineLayout(first, labels[0], active);
      assert labels == [labels[0]] + labels[1..];
    }
  }

  lemma {:induction false} LinesReverseOns(labels: seq<string>, active: nat, first: nat)
    ensures ReverseOns(Lines(labels, active, first)) == if first <= active < first + |labels| then 1 else 0
    decreases |labels|
  {
    if labels != [] {
      var line := Line(first, labels[0], active);
      var tail := Lines(labels[1..], active, first + 1);
      LinesReverseOns(labels[1..], active, first + 1);
      ReverseOnsAppend(line, tail);
      LineLayout(first, labels[0], active);
    }
  }

  /**
   * The shape of a rendered frame: the header, then one label per entry in
   * list order, with reverse video switched on exactly once when the
   * selection is in range and never otherwise.
   */
  lemma FrameLayout(active: nat, tabList: seq<Entry>)
    ensures var f := Frame(active, tabList);
      |f| >= 4 && f[..4] == [ClearScreen(Default), CursorPosition(Absolute(0), Absolute(0)), Text(Instructions), AllAttributes(DefaultAttributes)]
    ensures var t := Texts(Frame(active, tabList));
      |t| == |tabList| + 1 && t[0] == Instructions &&
      forall i :: 0 <= i < |tabList| ==> t[i + 1] == Label(i + 1, tabList[i].title)
    ensures ReverseOns(Frame(active, tabList)) == if active < |tabList| then 1 else 0
    ensures |Frame(active, tabList)| == 4 + |tabList| + if active < |tabList| then 2 else 0
  {
    var f := Frame(active, tabList);
    assert f[..4] == Header();
    FrameTexts(active, tabList);
    LinesReverseOns(Labels(tabList), active, 0);
    ReverseOnsAppend(Header(), Lines(Labels(tabList), active, 0));
    assert ReverseOns(Header()) == 0;
  }

  /** The texts of a frame are the instruction line and then the labels. */
  lemma FrameTexts(active: nat, tabList: seq<Entry>)
    ensures Texts(Frame(active, tabList)) == [Instructions] + Labels(tabList)
  {
    LinesTexts(Labels(tabList), active, 0);
    TextsAppend(Header(), Lines(Labels(tabList), active, 0));
    assert Texts(Header()) == [Instructions];
  }

  /** Lines that do not hold the selection are their labels alone, in order. */
  lemma {:induction false} PlainLines(labels: seq<string>, active: nat, first: nat)
    requires !(first <= active < first + |labels|)
    ensures var ls := Lines(labels, active, first);
      |ls| == |labels| && forall i :: 0 <= i < |labels| ==> ls[i] == Text(labels[i])
    decreases |labels|
  {
    if labels != [] {
      var tail := Lines(labels[1..], active, first + 1);
      PlainLines(labels[1..], active, first + 1);
      var ls := Lines(labels, active, first);
      assert ls == [Text(labels[0])] + tail;
      forall i | 0 < i < |labels|
        ensures ls[i] == Text(labels[i])
      {
        assert ls[i] == tail[i - 1];
        assert labels[1..][i - 1] == labels[i];
      }
    }
  }

  /** The changes before the selected line are the labels before it. */
  lemma {:induction false} LinesBeforeSelection(labels: seq<string>, active: nat, first: nat)
    requires first <= active
    ensures var ls := Lines(labels, active, first);
      |ls| >= |labels| && forall i :: 0 <= i < |labels| && first + i < active ==> ls[i] == Text(labels[i])
    decreases |labels|
  {
    LinesLength(labels, active, first);
    if labels != [] && first < active {
      var tail := Lines(labels[1..], active, first + 1);
      LinesBeforeSelection(labels[1..], active, first + 1);
      var ls := Lines(labels, active, first);
      assert ls == [Text(labels[0])] + tail;
      forall i | 0 < i < |labels| && first + i < active
        ensures ls[i] == Text(labels[i])
      {
        assert ls[i] == tail[i - 1];
        assert labels[1..][i - 1] == labels[i];
      }
    }
  }

  /** The selected label sits between `Reverse(true)` and `Reverse(false)`. */
  lemma {:induction false} LinesAtSelection(labels: seq<string>, active: nat, first: nat)
    requires first <= active < first + |labels|
    ensures var ls, k := Lines(labels, active, first), active - first;
      && |ls| > k + 2
      && ls[k] == Attribute(Reverse(true))
      && ls[k + 1] == Text(labels[k])
      && ls[k + 2] == Attribute(Reverse(false))
    decreases |labels|
  {
    var tail := Lines(labels[1..], active, first + 1);
    if first < active {
      LinesAtSelection(labels[1..], active, first + 1);
      var ls := Lines(labels, active, first);
      assert ls == [Text(labels[0])] + tail;
      assert labels[1..][active - first - 1] == labels[active - first];
    }
  }

  /** The changes after the selected line are the labels after it. */
  lemma {:induction false} LinesAfterSelection(labels: seq<string>, active: nat, first: nat)
    requires first <= active < first + |labels|
    ensures var ls := Lines(labels, active, first);
      forall i :: active - first < i < |labels| ==> |ls| == |labels| + 2 && ls[i + 2] == Text(labels[i])
    decreases |labels|
  {
    var tail := Lines(labels[1..], active, first + 1);
    var ls := Lines(labels, active, first);
    LinesLength(labels, active, first);
    if first == active {
      PlainLines(labels[1..], active, first + 1);
      assert ls == Line(first, labels[0], active) + tail;
      forall i | 0 < i < |labels|
        ensures ls[i + 2] == Text(labels[i])
      {
        assert ls[i + 2] == tail[i - 1];
        assert labels[1..][i - 1] == labels[i];
      }
    } else {
      LinesAfterSelection(labels[1..], active, first + 1);
      assert ls == [Text(labels[0])] + tail;
      forall i | active - first < i < |labels|
        ensures ls[i + 2] == Text(labels[i])
      {
        assert ls[i + 2] == tail[i + 1];
        assert labels[1..][i - 1] == labels[i];
      }
    }
  }

  /** The list with the selection in range: plain labels around the bracketed selected one. */
  lemma SelectedLines(active: nat, labels: seq<string>)
    requires active < |labels|
    ensures var ls := Lines(labels, active, 0);
      && |ls| == |labels| + 2
      && ls[active] == Attribute(Reverse(true))
      && ls[active + 1] == Text(labels[active])
      && ls[active + 2] == Attribute(Reverse(false))
      && (forall i :: 0 <= i < active ==> ls[i] == Text(labels[i]))
      && (forall i :: active < i < |labels| ==> ls[i + 2] == Text(labels[i]))
  {
    LinesLength(labels, active, 0);
    LinesBeforeSelection(labels, active, 0);
    LinesAtSelection(labels, active, 0);
    LinesAfterSelection(labels, active, 0);
  }

  /**
   * Where each change of a frame's list sits: every entry's label in list
   * order; the selected label, and no other, immediately preceded by
   * `Reverse(true)` and followed by `Reverse(false)`; every other change of
   * the list a plain label.
   */
  lemma FrameLines(active: nat, tabList: seq<Entry>)
    ensures var f := Frame(active, tabList);
      active >= |tabList| ==> forall i :: 0 <= i < |tabList| ==> f[4 + i] == Text(Label(i + 1, tabList[i].title))
    ensures var f := Frame(active, tabList);
      active < |tabList| ==>
        && f[4 + active] == Attribute(Reverse(true))
        && f[5 + active] == Text(Label(active + 1, tabList[active].title))
        && f[6 + active] == Attribute(Reverse(false))
        && (forall i :: 0 <= i < active ==> f[4 + i] == Text(Label(i + 1, tabList[i].title)))
        && (forall i :: active < i < |tabList| ==> f[6 + i] == Text(Label(i + 1, tabList[i].title)))
  {
    if active >= |tabList| {
      FramePlainLines(active, tabList);
    } else {
      FrameSelectedLines(active, tabList);
    }
  }

  /** `FrameLines` with the selection out of range. */
  lemma FramePlainLines(active: nat, tabList: seq<Entry>)
    requires active >= |tabList|
    ensures var f := Frame(active, tabList);
      forall i :: 0 <= i < |tabList| ==> f[4 + i] == Text(Label(i + 1, tabList[i].title))
  {
    forall i | 0 <= i < |tabList|
      ensures Frame(active, tabList)[4 + i] == Text(Label(i + 1, tabList[i].title))
    {
      FrameLinePlain(active, tabList, i);
    }
  }

  /** With the selection out of range, every entry is its plain label at its own list position. */
  lemma FrameLinePlain(active: nat, tabList: seq<Entry>, i: nat)
    requires i < |tabList| <= active
    ensures |Frame(active, tabList)| > 4 + i && Frame(active, tabList)[4 + i] == Text(Labels(tabList)[i])
  {
    var labels := Labels(tabList);
    FrameListAt(active, tabList);
    PlainLines(labels, active, 0);
    assert Lines(labels, active, 0)[i] == Text(labels[i]);
  }

  /** `FrameLines` with the selection in range. */
  lemma FrameSelectedLines(active: nat, tabList: seq<Entry>)
    requires active < |tabList|
    ensures var f := Frame(active, tabList);
      && f[4 + active] == Attribute(Reverse(true))
      && f[5 + active] == Text(Label(active + 1, tabList[active].title))
      && f[6 + active] == Attribute(Reverse(false))
      && (forall i :: 0 <= i < active ==> f[4 + i] == Text(Label(i + 1, tabList[i].title)))
      && (forall i :: active < i < |tabList| ==> f[6 + i] == Text(Label(i + 1, tabList[i].title)))
  {
    var labels := Labels(tabList);
    FrameListAt(active, tabList);
    SelectedLines(active, labels);
    assert labels[active] == Label(active + 1, tabList[active].title);
    FrameLinesBefore(active, tabList);
    FrameLinesAfter(active, tabList);
  }

  /** The plain labels before the selected one, in a frame whose selection is in range. */
  lemma FrameLinesBefore(active: nat, tabList: seq<Entry>)
    requires active < |tabList|
    ensures var f := Frame(active, tabList);
      forall i :: 0 <= i < active ==> f[4 + i] == Text(Label(i + 1, tabList[i].title))
  {
    forall i | 0 <= i < active
      ensures Frame(active, tabList)[4 + i] == Text(Label(i + 1, tabList[i].title))
    {
      FrameLineBefore(active, tabList, i);
    }
  }

  /** The plain labels after the selected one, in a frame whose selection is in range. */
  lemma FrameLinesAfter(active: nat, tabList: seq<Entry>)
    requires active < |tabList|
    ensures var f := Frame(active, tabList);
      forall i :: active < i < |tabList| ==> f[6 + i] == Text(Label(i + 1, tabList[i].title))
  {
    forall i | active < i < |tabList|
      ensures Frame(active, tabList)[6 + i] == Text(Label(i + 1, tabList[i].title))
    {
      FrameLineAfter(active, tabList, i);
    }
  }

  /** An entry before the selected one is its plain label, at its own list position. */
  lemma FrameLineBefore(active: nat, tabList: seq<Entry>, i: nat)
    requires i < active < |tabList|
    ensures |Frame(active, tabList)| > 4 + i && Frame(active, tabList)[4 + i] == Text(Labels(tabList)[i])
  {
    var labels := Labels(tabList);
    FrameListAt(active, tabList);
    LinesBeforeSelection(labels, active, 0);
    assert Lines(labels, active, 0)[i] == Text(labels[i]);
  }

  /** An entry after the selected one is its plain label, two list positions further on. */
  lemma FrameLineAfter(active: nat, tabList: seq<Entry>, i: nat)
    requires active < i < |tabList|
    ensures |Frame(active, tabList)| > 6 + i && Frame(active, tabList)[6 + i] == Text(Labels(tabList)[i])
  {
    var labels := Labels(tabList);
    FrameListAt(active, tabList);
    LinesAfterSelection(labels, active, 0);
    assert Lines(labels, active, 0)[i + 2] == Text(labels[i]);
  }

  /** The list of a frame starts right after the four header changes. */
  lemma FrameListAt(active: nat, tabList: seq<Entry>)
    ensures var f, ls := Frame(active, tabList), Lines(Labels(tabList), active, 0);
      |f| == 4 + |ls| && forall k :: 0 <= k < |ls| ==> f[4 + k] == ls[k]
  {
  }

  lemma {:induction false} MarkedLines(labels: seq<string>, active: nat, first: nat)
    ensures Marked(Lines(labels, active, first), first) ==
            if first <= active < first + |labels| then Some(active) else None
    decreases |labels|
  {
    if labels != [] {
      var tail := Lines(labels[1..], active, first + 1);
      MarkedLines(labels[1..], active, first + 1);
      var text := Text(labels[0]);
      if first == active {
        assert Lines(labels, active, first) == [Attribute(Reverse(true)), text, Attribute(Reverse(false))] + tail;
      } else {
        assert Lines(labels, active, first) == [text] + tail;
        assert ([text] + tail)[1..] == tail;
      }
    }
  }

  /**
   * Round trip: reading the reverse-video line back from the rendered frame
   * gives the selection, for every selection in range; out of range,
   * no line is highlighted.
   */
  lemma FrameHighlightRoundTrip(active: nat, tabList: seq<Entry>)
    ensures HighlightedLine(Frame(active, tabList)) == if active < |tabList| then Some(active) else None
  {
    var f := Frame(active, tabList);
    assert f[4..] == Lines(Labels(tabList), active, 0);
    MarkedLines(Labels(tabList), active, 0);
  }

  /** The label of each line reads back as its 1-based number. */
  lemma LabelNumber(number: nat, title: string)
    ensures var d := DecimalString(number);
      Label(number, title)[..|d|] == d && ParseDecimal(d) == number
  {
    LabelLayout(number, title);
    DecimalRoundTrip(number);
  }

  // ---------------------------------------------------------------------
  // The polling loop
  // ---------------------------------------------------------------------

  /** A poll result after which the loop polls again (if it can render). */
  predicate Continues(p: Poll)
  {
    p.Event? && (Classify(p.event) == MoveUp || Classify(p.event) == MoveDown || Classify(p.event) == Ignore)
  }

  predicate IsMove(p: Poll)
  {
    p.Event? && (Classify(p.event) == MoveUp || Classify(p.event) == MoveDown)
  }

  function MoveCount(ps: seq<Poll>): (n: nat)
  {
    if ps == [] then 0 else (if IsMove(ps[0]) then 1 else 0) + MoveCount(ps[1..])
  }

  /** The loop leaves a suffix of the input unread. */
  lemma {:induction false} LoopLeavesSuffix(tabList: seq<Entry>, window: WindowId, limit: Option<nat>, idx: nat, log: seq<Batch>, input: seq<Poll>)
    ensures var o := Loop(tabList, window, limit, idx, log, input);
      |o.rest| <= |input| && input[|input| - |o.rest|..] == o.rest
    decreases |input|, 1
  {
    if input == [] {
    } else if !Proceeds(tabList, limit, log, input[0]) {
      StopConsumes(tabList, window, limit, idx, log, input);
    } else {
      LoopProceeds(tabList, window, limit, idx, log, input);
      SuffixAfterProceeding(tabList, window, limit, idx, log, input);
    }
  }

  /** `LoopLeavesSuffix` for a run whose first poll result lets the loop go on, stated for the iteration after it. */
  lemma {:induction false} SuffixAfterProceeding(tabList: seq<Entry>, window: WindowId, limit: Option<nat>, idx: nat, log: seq<Batch>, input: seq<Poll>)
    requires input != [] && Proceeds(tabList, limit, log, input[0])
    ensures var o := Loop(tabList, window, limit, NextIndex(|tabList|, idx, input[0]), NextLog(tabList, idx, log, input[0]), input[1..]);
      |o.rest| <= |input| && input[|input| - |o.rest|..] == o.rest
    decreases |input|, 0
  {
    var o := Loop(tabList, window, limit, NextIndex(|tabList|, idx, input[0]), NextLog(tabList, idx, log, input[0]), input[1..]);
    var p, rest := input[0], input[1..];
    var next, log' := NextIndex(|tabList|, idx, p), NextLog(tabList, idx, log, p);
    LoopLeavesSuffix(tabList, window, limit, next, log', rest);
    ConsumedCons(input, o.rest);
  }

  /** Every poll result consumed before the last one is a move or an ignored event; all are when the input simply ran out. */
  predicate ContinuedBefore(input: seq<Poll>, o: Outcome)
    requires |o.rest| <= |input|
  {
    var c := input[..|input| - |o.rest|];
    && (forall k :: 0 <= k < |c| - 1 ==> Continues(c[k]))
    && (o.exit == InputEnded ==> (o.rest == [] && forall k :: 0 <= k < |c| ==> Continues(c[k])) || (c != [] && !c[|c| - 1].Event?))
  }

  /** Every consumed poll result but the last is a move or an ignored event; all are when the input simply ran out. */
  lemma {:induction false} LoopConsumesContinuing(tabList: seq<Entry>, window: WindowId, limit: Option<nat>, idx: nat, log: seq<Batch>, input: seq<Poll>)
    ensures var o := Loop(tabList, window, limit, idx, log, input);
      ContinuedBefore(input, o)
    decreases |input|, 1
  {
    if input == [] {
    } else if !Proceeds(tabList, limit, log, input[0]) {
      StopConsumes(tabList, window, limit, idx, log, input);
    } else {
      LoopProceeds(tabList, window, limit, idx, log, input);
      ContinuingAfterProceeding(tabList, window, limit, idx, log, input);
    }
  }

  /** `LoopConsumesContinuing` for a run whose first poll result lets the loop go on, stated for the iteration after it. */
  lemma {:induction false} ContinuingAfterProceeding(tabList: seq<Entry>, window: WindowId, limit: Option<nat>, idx: nat, log: seq<Batch>, input: seq<Poll>)
    requires input != [] && Proceeds(tabList, limit, log, input[0])
    ensures var o := Loop(tabList, window, limit, NextIndex(|tabList|, idx, input[0]), NextLog(tabList, idx, log, input[0]), input[1..]);
      ContinuedBefore(input, o)
    decreases |input|, 0
  {
    var p, rest := input[0], input[1..];
    var next, log' := NextIndex(|tabList|, idx, p), NextLog(tabList, idx, log, p);
    var o' := Loop(tabList, window, limit, next, log', rest);
    LoopConsumesContinuing(tabList, window, limit, next, log', rest);
    LoopLeavesSuffix(tabList, window, limit, next, log', rest);
    ContinuingStep(input, o');
  }

  /** Whether `p`, consumed last, explains how the run that produced `o` ended (other than by the input ending). */
  predicate EndsRun(tabList: seq<Entry>, limit: Option<nat>, o: Outcome, p: Poll)
  {
    match o.exit
    case Cancelled => p.Event? && Classify(p.event) == Cancel
    case Confirmed => p.Event? && Classify(p.event) == Confirm
    case RenderFailed => IsMove(p) && !Accepts(limit, o.log)
    case Underflow => p.Event? && Classify(p.event) == MoveDown && |tabList| == 0
    case InputEnded => !p.Event?
  }

  /** The last consumed poll result explains an exit other than the end of the input. */
  lemma {:induction false} LoopConsumesTerminator(tabList: seq<Entry>, window: WindowId, limit: Option<nat>, idx: nat, log: seq<Batch>, input: seq<Poll>)
    ensures var o := Loop(tabList, window, limit, idx, log, input);
      var c := input[..|input| - |o.rest|];
      o.exit != InputEnded ==> c != [] && EndsRun(tabList, limit, o, c[|c| - 1])
    decreases |input|, 1
  {
    if input == [] {
    } else if !Proceeds(tabList, limit, log, input[0]) {
      StopConsumes(tabList, window, limit, idx, log, input);
    } else {
      LoopProceeds(tabList, window, limit, idx, log, input);
      TerminatorAfterProceeding(tabList, window, limit, idx, log, input);
    }
  }

  /** `LoopConsumesTerminator` for a run whose first poll result lets the loop go on, stated for the iteration after it. */
  lemma {:induction false} TerminatorAfterProceeding(tabList: seq<Entry>, window: WindowId, limit: Option<nat>, idx: nat, log: seq<Batch>, input: seq<Poll>)
    requires input != [] && Proceeds(tabList, limit, log, input[0])
    ensures var o := Loop(tabList, window, limit, NextIndex(|tabList|, idx, input[0]), NextLog(tabList, idx, log, input[0]), input[1..]);
      var c := input[..|input| - |o.rest|];
      o.exit != InputEnded ==> c != [] && EndsRun(tabList, limit, o, c[|c| - 1])
    decreases |input|, 0
  {
    var p, rest := input[0], input[1..];
    var next, log' := NextIndex(|tabList|, idx, p), NextLog(tabList, idx, log, p);
    var o' := Loop(tabList, window, limit, next, log', rest);
    LoopConsumesTerminator(tabList, window, limit, next, log', rest);
    LoopLeavesSuffix(tabList, window, limit, next, log', rest);
    TerminatorStep(tabList, limit, input, o');
  }

  /**
   * The loop consumes a prefix of the input and nothing after the poll
   * result that ends it: every consumed result but the last is a move or
   * an ignored event, and the last one explains the exit.
   */
  lemma LoopConsumesPrefix(tabList: seq<Entry>, window: WindowId, limit: Option<nat>, idx: nat, log: seq<Batch>, input: seq<Poll>)
    ensures var o := Loop(tabList, window, limit, idx, log, input);
      |o.rest| <= |input| && input[|input| - |o.rest|..] == o.rest
    ensures var o := Loop(tabList, window, limit, idx, log, input);
      var c := input[..|input| - |o.rest|];
      && (forall k :: 0 <= k < |c| - 1 ==> Continues(c[k]))
      && (o.exit == Cancelled ==> c != [] && c[|c| - 1].Event? && Classify(c[|c| - 1].event) == Cancel)
      && (o.exit == Confirmed ==> c != [] && c[|c| - 1].Event? && Classify(c[|c| - 1].event) == Confirm)
      && (o.exit == InputEnded ==> (o.rest == [] && forall k :: 0 <= k < |c| ==> Continues(c[k])) || (c != [] && !c[|c| - 1].Event?))
      && (o.exit == RenderFailed ==> c != [] && IsMove(c[|c| - 1]) && !Accepts(limit, o.log))
      && (o.exit == Underflow ==> c != [] && c[|c| - 1].Event? && Classify(c[|c| - 1].event) == MoveDown && |tabList| == 0)
  {
    LoopLeavesSuffix(tabList, window, limit, idx, log, input);
    LoopConsumesContinuing(tabList, window, limit, idx, log, input);
    LoopConsumesTerminator(tabList, window, limit, idx, log, input);
  }

  /** The step after which the loop stops consumes exactly one poll result, which explains the exit. */
  lemma StopConsumes(tabList: seq<Entry>, window: WindowId, limit: Option<nat>, idx: nat, log: seq<Batch>, input: seq<Poll>)
    requires input != [] && !Proceeds(tabList, limit, log, input[0])
    ensures var o := Loop(tabList, window, limit, idx, log, input);
      && o.rest == input[1..] && o.log == log
      && input[..|input| - |o.rest|] == [input[0]] && input[|input| - |o.rest|..] == o.rest
      && EndsRun(tabList, limit, o, input[0])
  {
  }

  /** Consuming the head of `input` before a run that leaves `tail` unread. */
  lemma ConsumedCons(input: seq<Poll>, tail: seq<Poll>)
    requires input != [] && |tail| <= |input| - 1 && input[1..][|input| - 1 - |tail|..] == tail
    ensures input[|input| - |tail|..] == tail
    ensures input[..|input| - |tail|] == [input[0]] + input[1..][..|input| - 1 - |tail|]
  {
  }

  /**
   * Consuming a poll result after which the loop goes on, before a run that
   * leaves `tail` unread: the consumed prefix grows by that result in front.
   */
  lemma ConsumedContinue(input: seq<Poll>, tail: seq<Poll>)
    requires input != [] && Continues(input[0])
    requires |tail| <= |input[1..]| && input[1..][|input[1..]| - |tail|..] == tail
    ensures var c, c' := input[..|input| - |tail|], input[1..][..|input[1..]| - |tail|];
      && ((forall k :: 0 <= k < |c'| - 1 ==> Continues(c'[k])) ==> forall k :: 0 <= k < |c| - 1 ==> Continues(c[k]))
      && ((forall k :: 0 <= k < |c'| ==> Continues(c'[k])) ==> forall k :: 0 <= k < |c| ==> Continues(c[k]))
      && (c' != [] ==> c != [] && c[|c| - 1] == c'[|c'| - 1])
  {
    var c, c' := input[..|input| - |tail|], input[1..][..|input[1..]| - |tail|];
    assert |c| == |c'| + 1 && c[0] == input[0];
    forall k | 0 < k < |c|
      ensures c[k] == c'[k - 1]
    {
    }
  }

  /** `LoopConsumesContinuing` carried over one more poll result after which the loop goes on. */
  lemma ContinuingStep(input: seq<Poll>, o: Outcome)
    requires input != [] && Continues(input[0])
    requires |o.rest| <= |input[1..]| && input[1..][|input[1..]| - |o.rest|..] == o.rest
    requires ContinuedBefore(input[1..], o)
    ensures ContinuedBefore(input, o)
  {
    ConsumedContinue(input, o.rest);
  }

  /** `LoopConsumesTerminator` carried over one more poll result after which the loop goes on. */
  lemma TerminatorStep(tabList: seq<Entry>, limit: Option<nat>, input: seq<Poll>, o: Outcome)
    requires input != [] && Continues(input[0])
    requires |o.rest| <= |input[1..]| && input[1..][|input[1..]| - |o.rest|..] == o.rest
    requires var c := input[1..][..|input[1..]| - |o.rest|];
      o.exit != InputEnded ==> c != [] && EndsRun(tabList, limit, o, c[|c| - 1])
    ensures var c := input[..|input| - |o.rest|];
      o.exit != InputEnded ==> c != [] && EndsRun(tabList, limit, o, c[|c| - 1])
  {
    ConsumedContinue(input, o.rest);
  }

  /**
   * The first Escape or Enter decides the run unless a render failed or the
   * list underflowed before it: the loop stops right after it.
   */
  lemma {:induction false} TerminatorDecides(tabList: seq<Entry>, window: WindowId, limit: Option<nat>, idx: nat, log: seq<Batch>,
                                             pre: seq<Poll>, p: Poll, post: seq<Poll>)
    requires forall k :: 0 <= k < |pre| ==> Continues(pre[k])
    requires p.Event? && (Classify(p.event) == Cancel || Classify(p.event) == Confirm)
    ensures var o := Loop(tabList, window, limit, idx, log, pre + [p] + post);
      && (o.exit == RenderFailed || o.exit == Underflow || o.exit == (if Classify(p.event) == Cancel then Cancelled else Confirmed))
      && (o.exit == Cancelled || o.exit == Confirmed ==> o.rest == post)
    decreases |pre|
  {
    var input := pre + [p] + post;
    if pre == [] {
      assert input[0] == p && input[1..] == post;
    } else {
      assert input[0] == pre[0];
      assert input[1..] == pre[1..] + [p] + post;
      var cmd := Classify(pre[0].event);
      if cmd == Ignore {
        TerminatorDecides(tabList, window, limit, idx, log, pre[1..], p, post);
      } else if cmd == MoveUp {
        var next := SaturatingDec(idx);
        TerminatorDecides(tabList, window, limit, next, log + [Frame(next, tabList)], pre[1..], p, post);
      } else if |tabList| > 0 {
        var next := ClampedInc(idx, |tabList|).value;
        TerminatorDecides(tabList, window, limit, next, log + [Frame(next, tabList)], pre[1..], p, post);
      }
    }
  }

  /**
   * An activation is requested exactly when the run ends on Enter, and it
   * names the window and the selection at that moment.
   */
  lemma {:induction false} RequestOnlyOnConfirm(tabList: seq<Entry>, window: WindowId, limit: Option<nat>, idx: nat, log: seq<Batch>, input: seq<Poll>)
    ensures var o := Loop(tabList, window, limit, idx, log, input);
      (o.request.Some? <==> o.exit == Confirmed) &&
      (o.request.Some? ==> o.request.value == Activation(window, o.index))
    decreases |input|
  {
    if input != [] && input[0].Event? {
      var cmd := Classify(input[0].event);
      if cmd == MoveUp {
        var next := SaturatingDec(idx);
        RequestOnlyOnConfirm(tabList, window, limit, next, log + [Frame(next, tabList)], input[1..]);
      } else if cmd == MoveDown && |tabList| > 0 {
        var next := ClampedInc(idx, |tabList|).value;
        RequestOnlyOnConfirm(tabList, window, limit, next, log + [Frame(next, tabList)], input[1..]);
      } else if cmd == Ignore {
        RequestOnlyOnConfirm(tabList, window, limit, idx, log, input[1..]);
      }
    }
  }

  /**
   * On a non-empty list a selection that starts in range stays in range
   * through any input, and Down never underflows.
   */
  lemma {:induction false} SelectionStaysInRange(tabList: seq<Entry>, window: WindowId, limit: Option<nat>, idx: nat, log: seq<Batch>, input: seq<Poll>)
    requires idx < |tabList|
    ensures var o := Loop(tabList, window, limit, idx, log, input);
      o.index < |tabList| && o.exit != Underflow
    decreases |input|
  {
    if input != [] && input[0].Event? {
      var cmd := Classify(input[0].event);
      if cmd == MoveUp {
        var next := SaturatingDec(idx);
        SelectionStaysInRange(tabList, window, limit, next, log + [Frame(next, tabList)], input[1..]);
      } else if cmd == MoveDown {
        var next := ClampedInc(idx, |tabList|).value;
        SelectionStaysInRange(tabList, window, limit, next, log + [Frame(next, tabList)], input[1..]);
      } else if cmd == Ignore {
        SelectionStaysInRange(tabList, window, limit, idx, log, input[1..]);
      }
    }
  }

  /** A sink without a limit never makes the loop fail. */
  lemma {:induction false} UnlimitedNeverFails(tabList: seq<Entry>, window: WindowId, idx: nat, log: seq<Batch>, input: seq<Poll>)
    ensures Loop(tabList, window, None, idx, log, input).exit != RenderFailed
    decreases |input|
  {
    if input != [] && input[0].Event? {
      var cmd := Classify(input[0].event);
      if cmd == MoveUp {
        var next := SaturatingDec(idx);
        UnlimitedNeverFails(tabList, window, next, log + [Frame(next, tabList)], input[1..]);
      } else if cmd == MoveDown && |tabList| > 0 {
        var next := ClampedInc(idx, |tabList|).value;
        UnlimitedNeverFails(tabList, window, next, log + [Frame(next, tabList)], input[1..]);
      } else if cmd == Ignore {
        UnlimitedNeverFails(tabList, window, idx, log, input[1..]);
      }
    }
  }

  /** The selection after the move `p` from `idx` on a list of `len` entries. */
  function After(len: nat, idx: nat, p: Poll): (next: nat)
    requires IsMove(p)
  {
    if Classify(p.event) == MoveUp then SaturatingDec(idx)
    else match ClampedInc(idx, len)
      case Some(next) => next
      case None => idx
  }

  /**
   * Whether consuming `p` renders a frame, the terminal permitting: every
   * move does, except Down on an empty list, which panics first.
   */
  predicate Draws(len: nat, p: Poll)
  {
    IsMove(p) && !(Classify(p.event) == MoveDown && len == 0)
  }

  /** The frames the moves in `ps` render from `idx`: one per move, each at the selection it leads to. */
  function Renders(tabList: seq<Entry>, idx: nat, ps: seq<Poll>): (frames: seq<Batch>)
    decreases |ps|
  {
    if ps == [] then []
    else if Draws(|tabList|, ps[0]) then
      var next := After(|tabList|, idx, ps[0]);
      [Frame(next, tabList)] + Renders(tabList, next, ps[1..])
    else Renders(tabList, idx, ps[1..])
  }

  lemma RendersCons(tabList: seq<Entry>, idx: nat, p: Poll, ps: seq<Poll>)
    ensures Renders(tabList, idx, [p] + ps) ==
            if Draws(|tabList|, p) then [Frame(After(|tabList|, idx, p), tabList)] + Renders(tabList, After(|tabList|, idx, p), ps)
            else Renders(tabList, idx, ps)
  {
    assert ([p] + ps)[0] == p && ([p] + ps)[1..] == ps;
  }

  /** On a non-empty list every move renders exactly one frame. */
  lemma {:induction false} RendersOnePerMove(tabList: seq<Entry>, idx: nat, ps: seq<Poll>)
    requires |tabList| > 0
    ensures |Renders(tabList, idx, ps)| == MoveCount(ps)
    decreases |ps|
  {
    if ps != [] {
      if Draws(|tabList|, ps[0]) {
        RendersOnePerMove(tabList, After(|tabList|, idx, ps[0]), ps[1..]);
      } else {
        RendersOnePerMove(tabList, idx, ps[1..]);
      }
    }
  }

  /** Whether the loop goes on polling after consuming `p`. */
  predicate Proceeds(tabList: seq<Entry>, limit: Option<nat>, log: seq<Batch>, p: Poll)
  {
    p.Event? && (Classify(p.event) == Ignore || (Draws(|tabList|, p) && Accepts(limit, log)))
  }

  /** The selection after consuming `p`, when the loop goes on. */
  function NextIndex(len: nat, idx: nat, p: Poll): (next: nat)
  {
    if Draws(len, p) then After(len, idx, p) else idx
  }

  /** The log after consuming `p`, when the loop goes on: one more frame for a move. */
  function NextLog(tabList: seq<Entry>, idx: nat, log: seq<Batch>, p: Poll): (log': seq<Batch>)
  {
    if Draws(|tabList|, p) then log + [Frame(NextIndex(|tabList|, idx, p), tabList)] else log
  }

  /** A step after which the loop goes on hands the rest of the input to the next iteration. */
  lemma LoopProceeds(tabList: seq<Entry>, window: WindowId, limit: Option<nat>, idx: nat, log: seq<Batch>, input: seq<Poll>)
    requires input != [] && Proceeds(tabList, limit, log, input[0])
    ensures Loop(tabList, window, limit, idx, log, input) ==
            Loop(tabList, window, limit, NextIndex(|tabList|, idx, input[0]), NextLog(tabList, idx, log, input[0]), input[1..])
  {
  }

  /** The step after which the loop stops consumes one poll result and renders nothing. */
  lemma StopRenders(tabList: seq<Entry>, window: WindowId, limit: Option<nat>, idx: nat, log: seq<Batch>, input: seq<Poll>)
    requires input != [] && !Proceeds(tabList, limit, log, input[0])
    ensures var o := Loop(tabList, window, limit, idx, log, input);
      var c := input[..|input| - |o.rest|];
      c == [input[0]] && o.log == log &&
      (o.exit != RenderFailed ==> Renders(tabList, idx, c) == []) &&
      (o.exit == RenderFailed ==> c[..|c| - 1] == [])
  {
    StopConsumes(tabList, window, limit, idx, log, input);
    RendersCons(tabList, idx, input[0], []);
  }

  /** Consuming one more poll result before the rest of a run prepends its frame, if any. */
  lemma ProceedRenders(tabList: seq<Entry>, idx: nat, log: seq<Batch>, p: Poll, done: seq<Poll>)
    requires p.Event? && (Classify(p.event) == Ignore || Draws(|tabList|, p))
    ensures NextLog(tabList, idx, log, p) + Renders(tabList, NextIndex(|tabList|, idx, p), done) == log + Renders(tabList, idx, [p] + done)
  {
    RendersCons(tabList, idx, p, done);
    var next := NextIndex(|tabList|, idx, p);
    if Draws(|tabList|, p) {
      var frame, tail := Frame(next, tabList), Renders(tabList, next, done);
      assert log + [frame] + tail == log + ([frame] + tail);
    }
  }

  /** A run that no rejected render ended appended to `log` the frames of the moves it consumed from `input`. */
  predicate AppendedFrames(tabList: seq<Entry>, idx: nat, log: seq<Batch>, input: seq<Poll>, o: Outcome)
    requires |o.rest| <= |input|
  {
    o.exit != RenderFailed ==> o.log == log + Renders(tabList, idx, input[..|input| - |o.rest|])
  }

  /** A run that a rejected render ended appended to `log` the frames of the moves it consumed before the rejected one. */
  predicate AppendedFramesBeforeFailure(tabList: seq<Entry>, idx: nat, log: seq<Batch>, input: seq<Poll>, o: Outcome)
    requires |o.rest| <= |input|
  {
    var c := input[..|input| - |o.rest|];
    o.exit == RenderFailed ==> c != [] && o.log == log + Renders(tabList, idx, c[..|c| - 1])
  }

  /** A run that no rejected render ended appended the frames of all the moves it consumed. */
  lemma {:induction false} RendersUntilStop(tabList: seq<Entry>, window: WindowId, limit: Option<nat>, idx: nat, log: seq<Batch>, input: seq<Poll>)
    ensures var o := Loop(tabList, window, limit, idx, log, input);
      AppendedFrames(tabList, idx, log, input, o)
    decreases |input|, 1
  {
    if input == [] {
    } else if !Proceeds(tabList, limit, log, input[0]) {
      StopRenders(tabList, window, limit, idx, log, input);
    } else {
      LoopProceeds(tabList, window, limit, idx, log, input);
      RendersAfterProceeding(tabList, window, limit, idx, log, input);
    }
  }

  /** `RendersUntilStop` for a run whose first poll result lets the loop go on, stated for the iteration after it. */
  lemma {:induction false} RendersAfterProceeding(tabList: seq<Entry>, window: WindowId, limit: Option<nat>, idx: nat, log: seq<Batch>, input: seq<Poll>)
    requires input != [] && Proceeds(tabList, limit, log, input[0])
    ensures var o := Loop(tabList, window, limit, NextIndex(|tabList|, idx, input[0]), NextLog(tabList, idx, log, input[0]), input[1..]);
      AppendedFrames(tabList, idx, log, input, o)
    decreases |input|, 0
  {
    var p, rest := input[0], input[1..];
    var next, log' := NextIndex(|tabList|, idx, p), NextLog(tabList, idx, log, p);
    RendersUntilStop(tabList, window, limit, next, log', rest);
    LoopLeavesSuffix(tabList, window, limit, next, log', rest);
    RendersStep(tabList, limit, idx, log, input, Loop(tabList, window, limit, next, log', rest));
  }

  /** `RendersUntilStop` carried over one more poll result after which the loop goes on. */
  lemma RendersStep(tabList: seq<Entry>, limit: Option<nat>, idx: nat, log: seq<Batch>, input: seq<Poll>, o: Outcome)
    requires input != [] && Proceeds(tabList, limit, log, input[0])
    requires |o.rest| <= |input[1..]| && input[1..][|input[1..]| - |o.rest|..] == o.rest
    requires AppendedFrames(tabList, NextIndex(|tabList|, idx, input[0]), NextLog(tabList, idx, log, input[0]), input[1..], o)
    ensures AppendedFrames(tabList, idx, log, input, o)
  {
    ConsumedCons(input, o.rest);
    ProceedRenders(tabList, idx, log, input[0], input[1..][..|input[1..]| - |o.rest|]);
  }

  /** A run that a rejected render ended appended the frames of the moves before the rejected one. */
  lemma {:induction false} RendersUntilFailure(tabList: seq<Entry>, window: WindowId, limit: Option<nat>, idx: nat, log: seq<Batch>, input: seq<Poll>)
    ensures var o := Loop(tabList, window, limit, idx, log, input);
      AppendedFramesBeforeFailure(tabList, idx, log, input, o)
    decreases |input|, 1
  {
    if input == [] {
    } else if !Proceeds(tabList, limit, log, input[0]) {
      StopRenders(tabList, window, limit, idx, log, input);
    } else {
      LoopProceeds(tabList, window, limit, idx, log, input);
      FailureAfterProceeding(tabList, window, limit, idx, log, input);
    }
  }

  /** `RendersUntilFailure` for a run whose first poll result lets the loop go on, stated for the iteration after it. */
  lemma {:induction false} FailureAfterProceeding(tabList: seq<Entry>, window: WindowId, limit: Option<nat>, idx: nat, log: seq<Batch>, input: seq<Poll>)
    requires input != [] && Proceeds(tabList, limit, log, input[0])
    ensures var o := Loop(tabList, window, limit, NextIndex(|tabList|, idx, input[0]), NextLog(tabList, idx, log, input[0]), input[1..]);
      AppendedFramesBeforeFailure(tabList, idx, log, input, o)
    decreases |input|, 0
  {
    var p, rest := input[0], input[1..];
    var next, log' := NextIndex(|tabList|, idx, p), NextLog(tabList, idx, log, p);
    RendersUntilFailure(tabList, window, limit, next, log', rest);
    LoopLeavesSuffix(tabList, window, limit, next, log', rest);
    FailureStep(tabList, limit, idx, log, input, Loop(tabList, window, limit, next, log', rest));
  }

  /** `RendersUntilFailure` carried over one more poll result after which the loop goes on. */
  lemma FailureStep(tabList: seq<Entry>, limit: Option<nat>, idx: nat, log: seq<Batch>, input: seq<Poll>, o: Outcome)
    requires input != [] && Proceeds(tabList, limit, log, input[0])
    requires |o.rest| <= |input[1..]| && input[1..][|input[1..]| - |o.rest|..] == o.rest
    requires AppendedFramesBeforeFailure(tabList, NextIndex(|tabList|, idx, input[0]), NextLog(tabList, idx, log, input[0]), input[1..], o)
    ensures AppendedFramesBeforeFailure(tabList, idx, log, input, o)
  {
    ConsumedCons(input, o.rest);
    var c, c' := input[..|input| - |o.rest|], input[1..][..|input[1..]| - |o.rest|];
    if o.exit == RenderFailed {
      assert c[..|c| - 1] == [input[0]] + c'[..|c'| - 1];
      ProceedRenders(tabList, idx, log, input[0], c'[..|c'| - 1]);
    }
  }

  /**
   * The loop only appends to the log, and what it appends are the frames of
   * the selection after each move it consumed, in order (the move whose
   * render is rejected adds none); other poll results add nothing.
   */
  lemma OneRenderPerMove(tabList: seq<Entry>, window: WindowId, limit: Option<nat>, idx: nat, log: seq<Batch>, input: seq<Poll>)
    ensures var o := Loop(tabList, window, limit, idx, log, input);
      var c := input[..|input| - |o.rest|];
      && (o.exit != RenderFailed ==> o.log == log + Renders(tabList, idx, c))
      && (o.exit == RenderFailed ==> c != [] && o.log == log + Renders(tabList, idx, c[..|c| - 1]))
  {
    RendersUntilStop(tabList, window, limit, idx, log, input);
    RendersUntilFailure(tabList, window, limit, idx, log, input);
  }

  /**
   * The screen keeps showing the selection: if the last batch showed the
   * selection when the loop started, the last batch shows the final
   * selection when it ends, unless the last render was rejected.
   */
  lemma {:induction false} ScreenShowsSelection(tabList: seq<Entry>, window: WindowId, limit: Option<nat>, idx: nat, log: seq<Batch>, input: seq<Poll>)
    requires log != [] && log[|log| - 1] == Frame(idx, tabList)
    ensures var o := Loop(tabList, window, limit, idx, log, input);
      o.exit != RenderFailed ==> o.log != [] && o.log[|o.log| - 1] == Frame(o.index, tabList)
    decreases |input|
  {
    if input == [] {
    } else if !Proceeds(tabList, limit, log, input[0]) {
      StopKeepsSelection(tabList, window, limit, idx, log, input);
    } else {
      var p := input[0];
      var next, log' := NextIndex(|tabList|, idx, p), NextLog(tabList, idx, log, p);
      LoopProceeds(tabList, window, limit, idx, log, input);
      ScreenShowsSelection(tabList, window, limit, next, log', input[1..]);
    }
  }

  /** The step after which the loop stops leaves the log alone and keeps the selection, unless its render was rejected. */
  lemma StopKeepsSelection(tabList: seq<Entry>, window: WindowId, limit: Option<nat>, idx: nat, log: seq<Batch>, input: seq<Poll>)
    requires input != [] && !Proceeds(tabList, limit, log, input[0])
    ensures var o := Loop(tabList, window, limit, idx, log, input);
      o.log == log && (o.exit != RenderFailed ==> o.index == idx)
  {
  }

  /**
   * Events the navigator does not act on (other keys, mouse, resize, paste,
   * wake) are skipped: the selection, the log and the outcome are as if
   * they had never been polled.
   */
  lemma {:induction false} IgnoredEventsChangeNothing(tabList: seq<Entry>, window: WindowId, limit: Option<nat>, idx: nat, log: seq<Batch>,
                                                      ignored: seq<Poll>, rest: seq<Poll>)
    requires forall k :: 0 <= k < |ignored| ==> ignored[k].Event? && Classify(ignored[k].event) == Ignore
    ensures Loop(tabList, window, limit, idx, log, ignored + rest) == Loop(tabList, window, limit, idx, log, rest)
    decreases |ignored|
  {
    if ignored != [] {
      assert (ignored + rest)[0] == ignored[0];
      assert (ignored + rest)[1..] == ignored[1..] + rest;
      IgnoredEventsChangeNothing(tabList, window, limit, idx, log, ignored[1..], rest);
    } else {
      assert ignored + rest == rest;
    }
  }

  /** A run of the same event, `n` times. */
  function Repeat(p: Poll, n: nat): (r: seq<Poll>)
    ensures |r| == n && forall k :: 0 <= k < n ==> r[k] == p
  {
    if n == 0 then [] else [p] + Repeat(p, n - 1)
  }

  /** `n` presses of k/Up from `idx` land on `max(idx - n, 0)`, one render each. */
  lemma {:induction false} UpPresses(tabList: seq<Entry>, window: WindowId, idx: nat, log: seq<Batch>, p: Poll, n: nat)
    requires p.Event? && Classify(p.event) == MoveUp
    ensures var o := Loop(tabList, window, None, idx, log, Repeat(p, n));
      o.exit == InputEnded && o.request == None &&
      o.index == (if idx >= n then idx - n else 0) && |o.log| == |log| + n
    decreases n
  {
    if n > 0 {
      assert Repeat(p, n)[1..] == Repeat(p, n - 1);
      var next := SaturatingDec(idx);
      UpPresses(tabList, window, next, log + [Frame(next, tabList)], p, n - 1);
    }
  }

  /** On a non-empty list, `n` presses of j/Down from `idx` land on `min(idx + n, len - 1)`, one render each. */
  lemma {:induction false} DownPresses(tabList: seq<Entry>, window: WindowId, idx: nat, log: seq<Batch>, p: Poll, n: nat)
    requires |tabList| > 0
    requires p.Event? && Classify(p.event) == MoveDown
    ensures var o := Loop(tabList, window, None, idx, log, Repeat(p, n));
      o.exit == InputEnded && o.request == None &&
      o.index == (if n == 0 then idx else if idx + n <= |tabList| - 1 then idx + n else |tabList| - 1) &&
      |o.log| == |log| + n
    decreases n
  {
    if n > 0 {
      assert Repeat(p, n)[1..] == Repeat(p, n - 1);
      var next := ClampedInc(idx, |tabList|).value;
      DownPresses(tabList, window, next, log + [Frame(next, tabList)], p, n - 1);
    }
  }

  /**
   * On an empty list the first Down that is reached panics: the Up presses
   * and ignored events before it keep the selection at 0 (when the terminal
   * accepts every frame), and nothing after it is consumed.
   */
  lemma {:induction false} EmptyListDownUnderflows(window: WindowId, log: seq<Batch>, pre: seq<Poll>, p: Poll, rest: seq<Poll>)
    requires forall k :: 0 <= k < |pre| ==> pre[k].Event? && (Classify(pre[k].event) == MoveUp || Classify(pre[k].event) == Ignore)
    requires p.Event? && Classify(p.event) == MoveDown
    ensures var o := Loop([], window, None, 0, log, pre + [p] + rest);
      o.exit == Underflow && o.rest == rest && o.request == None && o.index == 0
    decreases |pre|
  {
    if pre == [] {
      assert pre + [p] + rest == [p] + rest;
      assert ([p] + rest)[1..] == rest;
    } else {
      assert (pre + [p] + rest)[0] == pre[0];
      assert (pre + [p] + rest)[1..] == pre[1..] + [p] + rest;
      var log' := if Classify(pre[0].event) == MoveUp then log + [Frame(0, [])] else log;
      EmptyListDownUnderflows(window, log', pre[1..], p, rest);
    }
  }

  // ---------------------------------------------------------------------
  // Whole runs
  // ---------------------------------------------------------------------

  /**
   * A run whose first two batches are accepted starts with the title batch
   * and a full frame at the initial selection, after whatever the terminal
   * already showed.
   */
  lemma NavigatorStarts(tabId: TabId, tabList: seq<Entry>, window: WindowId, limit: Option<nat>, log: seq<Batch>, input: seq<Poll>)
    requires Accepts(limit, log) && Accepts(limit, log + [[Title(NavigatorTitle)]])
    ensures var o := Navigate(tabId, tabList, window, limit, log, input);
      |o.log| >= |log| + 2 && o.log[..|log|] == log &&
      o.log[|log|] == [Title(NavigatorTitle)] &&
      o.log[|log| + 1] == Frame(InitialIndex(tabList, tabId), tabList)
  {
    var idx := InitialIndex(tabList, tabId);
    var start := log + [[Title(NavigatorTitle)]] + [Frame(idx, tabList)];
    OneRenderPerMove(tabList, window, limit, idx, start, input);
    var o := Navigate(tabId, tabList, window, limit, log, input);
    assert o.log[..|start|] == start;
    assert o.log[|log|] == start[|log|];
    assert o.log[|log| + 1] == start[|log| + 1];
    assert o.log[..|log|] == start[..|log|];
  }

  /**
   * On a non-empty list a whole run keeps the selection in range, never
   * panics, requests an activation exactly when it ends on Enter, and that
   * activation names a listed tab.
   */
  lemma NavigatorSelection(tabId: TabId, tabList: seq<Entry>, window: WindowId, limit: Option<nat>, log: seq<Batch>, input: seq<Poll>)
    requires |tabList| > 0
    ensures var o := Navigate(tabId, tabList, window, limit, log, input);
      o.index < |tabList| && o.exit != Underflow &&
      (o.exit.ReturnsOk() <==> o.exit != RenderFailed) &&
      (o.request.Some? <==> o.exit == Confirmed) &&
      (o.request.Some? ==> o.request.value.window == window && o.request.value.index < |tabList|)
  {
    var idx := InitialIndex(tabList, tabId);
    var start := log + [[Title(NavigatorTitle)]] + [Frame(idx, tabList)];
    SelectionStaysInRange(tabList, window, limit, idx, start, input);
    RequestOnlyOnConfirm(tabList, window, limit, idx, start, input);
  }

  /**
   * After a run that did not fail to render, the screen highlights the final
   * selection.
   */
  lemma NavigatorShowsSelection(tabId: TabId, tabList: seq<Entry>, window: WindowId, limit: Option<nat>, log: seq<Batch>, input: seq<Poll>)
    requires |tabList| > 0
    ensures var o := Navigate(tabId, tabList, window, limit, log, input);
      o.exit != RenderFailed ==> o.log != [] && HighlightedLine(o.log[|o.log| - 1]) == Some(o.index)
  {
    var idx := InitialIndex(tabList, tabId);
    var o := Navigate(tabId, tabList, window, limit, log, input);
    if Accepts(limit, log) && Accepts(limit, log + [[Title(NavigatorTitle)]]) {
      var start := log + [[Title(NavigatorTitle)]] + [Frame(idx, tabList)];
      ScreenShowsSelection(tabList, window, limit, idx, start, input);
      SelectionStaysInRange(tabList, window, limit, idx, start, input);
      if o.exit != RenderFailed {
        FrameHighlightRoundTrip(o.index, tabList);
      }
    }
  }
}
