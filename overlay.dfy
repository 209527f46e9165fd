/**
 * The tab navigator overlay: a selection cursor over an immutable list of
 * `(title, tab id)` entries, driven by key events polled from a terminal
 * handle, re-rendering the full list after every move, and ending on Escape
 * (no effect), on Enter (one request to activate the selected tab) or when
 * the input stream ends.
 *
 * `Loop` and `Navigate` are the specification of the polling loop, one event
 * at a time; `TabNavigator` is the loop itself, over a `Termwiz.Terminal`,
 * and is proved to end in exactly the state `Navigate` describes.
 */
module Overlay {
  import opened Termwiz

  type TabId = nat
  type WindowId = nat

  /** One row of the navigator: a tab's display title and its id. */
  datatype Entry = Entry(title: string, id: TabId)

  /**
   * The closure the navigator hands to the UI thread on Enter: set the
   * active tab of window `window` to position `index`.
   */
  datatype Activation = Activation(window: WindowId, index: nat)

  /** How a navigator run ends. */
  datatype Exit =
    | Cancelled     // Escape
    | Confirmed     // Enter, after the activation was requested
    | InputEnded    // poll_input gave Ok(None) or Err(_), or the input ran out
    | RenderFailed  // the terminal rejected a batch
    | Underflow     // `len() - 1` on an empty list: an arithmetic overflow panic
  {
    /** The run returns `Ok(())`; `RenderFailed` returns the render error and `Underflow` panics. */
    predicate ReturnsOk() { Cancelled? || Confirmed? || InputEnded? }
  }

  /**
   * The observable end state of a run: every batch rendered (including those
   * before the run), the poll results never consumed, the activation
   * requested, the final selection and the way the run ended.
   */
  datatype Outcome = Outcome(log: seq<Batch>, rest: seq<Poll>, request: Option<Activation>, index: nat, exit: Exit)

  /** What an input event means to the navigator; key modifiers are ignored. */
  datatype Command = MoveUp | MoveDown | Cancel | Confirm | Ignore

  const NavigatorTitle := "Tab Navigator"
  const Instructions := "Select a tab and press Enter to activate it.  Press Escape to cancel\r\n"

  // ---------------------------------------------------------------------
  // Initial selection
  // ---------------------------------------------------------------------

  /** `iter().position(|(_title, id)| *id == tab_id)`. */
  function FindTab(tabList: seq<Entry>, tabId: TabId): (r: Option<nat>)
    ensures r.Some? ==> r.value < |tabList| && tabList[r.value].id == tabId
    ensures r.Some? ==> forall j :: 0 <= j < r.value ==> tabList[j].id != tabId
    ensures r.None? ==> forall j :: 0 <= j < |tabList| ==> tabList[j].id != tabId
  {
    if tabList == [] then None
    else if tabList[0].id == tabId then Some(0)
    else
      var tail := FindTab(tabList[1..], tabId);
      assert forall j :: 1 <= j < |tabList| ==> tabList[j] == tabList[1..][j - 1];
      match tail
      case None => None
      case Some(k) => Some(k + 1)
  }

  /** The starting selection: the position of the current tab, or 0 when it is not listed. */
  function InitialIndex(tabList: seq<Entry>, tabId: TabId): (r: nat)
    ensures (exists j :: 0 <= j < |tabList| && tabList[j].id == tabId) ==>
              r < |tabList| && tabList[r].id == tabId && forall j :: 0 <= j < r ==> tabList[j].id != tabId
    ensures (forall j :: 0 <= j < |tabList| ==> tabList[j].id != tabId) ==> r == 0
    ensures |tabList| > 0 ==> r < |tabList|
  {
    match FindTab(tabList, tabId)
    case Some(k) => k
    case None => 0
  }

  // ---------------------------------------------------------------------
  // Moves
  // ---------------------------------------------------------------------

  /**
   * Maps a key event to the navigator's command: k/Up, j/Down, Escape, Enter,
   * anything else. The key's modifiers play no part.
   */
  function Classify(e: InputEvent): (c: Command)
    ensures c == MoveUp <==> e.Key? && (e.key == Char('k') || e.key == UpArrow)
    ensures c == MoveDown <==> e.Key? && (e.key == Char('j') || e.key == DownArrow)
    ensures c == Cancel <==> e.Key? && e.key == Escape
    ensures c == Confirm <==> e.Key? && e.key == Enter
  {
    if !e.Key? then Ignore
    else if e.key == Char('k') || e.key == UpArrow then MoveUp
    else if e.key == Char('j') || e.key == DownArrow then MoveDown
    else if e.key == Escape then Cancel
    else if e.key == Enter then Confirm
    else Ignore
  }

  /** `usize::saturating_sub(1)`. */
  function SaturatingDec(i: nat): (r: nat)
    ensures r <= i
    ensures i > 0 ==> r + 1 == i
    ensures i == 0 ==> r == 0
  {
    if i == 0 then 0 else i - 1
  }

  /**
   * `(i + 1).min(len - 1)` on `usize`; None when `len - 1` underflows, which
   * Rust reports as an arithmetic-overflow panic.
   */
  function ClampedInc(i: nat, len: nat): (r: Option<nat>)
    ensures r.None? <==> len == 0
    ensures r.Some? ==> r.value <= i + 1 && r.value <= len - 1
    ensures r.Some? ==> r.value == i + 1 || r.value == len - 1
  {
    if len == 0 then None
    else if i + 1 <= len - 1 then Some(i + 1) else Some(len - 1)
  }

  // ---------------------------------------------------------------------
  // Rendering
  // ---------------------------------------------------------------------

  /** Decimal digits of `n`, as `format!("{}", n)` writes them. */
  function DecimalString(n: nat): (s: string)
    ensures |s| > 0
    ensures forall k :: 0 <= k < |s| ==> '0' <= s[k] <= '9'
    ensures s[0] == '0' ==> n == 0
    decreases n
  {
    if n < 10 then [Digit(n)] else DecimalString(n / 10) + [Digit(n % 10)]
  }

  function Digit(d: nat): (c: char)
    requires d < 10
  {
    (d + '0' as int) as char
  }

  /** The text of one list line: `format!("{}. {}\r\n", idx + 1, title)`. */
  function Label(number: nat, title: string): (s: string)
    ensures |s| == |DecimalString(number)| + |title| + 4
  {
    DecimalString(number) + ". " + title + "\r\n"
  }

  /** A label reads: the number in decimal, a dot and a space, the title, CR LF. */
  lemma LabelLayout(number: nat, title: string)
    ensures var s, d := Label(number, title), DecimalString(number);
      s[..|d|] == d && s[|d|..|d| + 2] == ". " && s[|d| + 2..|s| - 2] == title && s[|s| - 2..] == "\r\n"
  {
  }
  /** The labels of `tabList` in order: entry `i` is listed as number `i + 1`. */
  function Labels(tabList: seq<Entry>): (ls: seq<string>)
    ensures |ls| == |tabList|
  {
    seq(|tabList|, i requires 0 <= i < |tabList| => Label(i + 1, tabList[i].title))
  }

  /** The changes for list line number `idx`: its label `text`, bracketed by reverse video when selected. */
  function Line(idx: nat, text: string, active: nat): (r: seq<Change>)
    ensures |r| == if idx == active then 3 else 1
    ensures r[if idx == active then 1 else 0] == Text(text)
    ensures idx == active ==> r[0] == Attribute(Reverse(true)) && r[2] == Attribute(Reverse(false))
  {
    if idx == active then [Attribute(Reverse(true)), Text(text), Attribute(Reverse(false))] else [Text(text)]
  }

  /** The lines for `labels`, the first of them being line number `first`. */
  function Lines(labels: seq<string>, active: nat, first: nat): (ls: seq<Change>)
    decreases |labels|
  {
    if labels == [] then [] else Line(first, labels[0], active) + Lines(labels[1..], active, first + 1)
  }

  /** Clear, cursor home, the instruction line, plain attributes. */
  function Header(): (h: seq<Change>)
  {
    [ClearScreen(Default), CursorPosition(Absolute(0), Absolute(0)), Text(Instructions), AllAttributes(DefaultAttributes)]
  }

  /** The full batch `render(active, tab_list, term)` hands to the terminal. */
  function Frame(active: nat, tabList: seq<Entry>): (r: seq<Change>)
    ensures |r| == 4 + |tabList| + if active < |tabList| then 2 else 0
    ensures r[0] == ClearScreen(Default) && r[1] == CursorPosition(Absolute(0), Absolute(0)) && r[2] == Text(Instructions) && r[3] == AllAttributes(DefaultAttributes)
  {
    LinesLength(Labels(tabList), active, 0);
    Header() + Lines(Labels(tabList), active, 0)
  }

  /** Every line takes one change, and the selected one two more. */
  lemma {:induction false} LinesLength(labels: seq<string>, active: nat, first: nat)
    ensures |Lines(labels, active, first)| == |labels| + if first <= active < first + |labels| then 2 else 0
    decreases |labels|
  {
    if labels != [] {
      LinesLength(labels[1..], active, first + 1);
    }
  }

  /** One more label at the end adds its line at the end. */
  lemma {:induction false} LinesSnoc(x: seq<string>, text: string, active: nat, first: nat)
    ensures Lines(x + [text], active, first) == Lines(x, active, first) + Line(first + |x|, text, active)
    decreases |x|
  {
    if x == [] {
      assert x + [text] == [text];
      assert [text][1..] == [];
    } else {
      assert (x + [text])[0] == x[0] && (x + [text])[1..] == x[1..] + [text];
      LinesSnoc(x[1..], text, active, first + 1);
    }
  }

  /** One more label extends the lines by that label's line. */
  lemma LinesPush(labels: seq<string>, idx: nat, active: nat)
    requires idx < |labels|
    ensures Lines(labels[..idx + 1], active, 0) == Lines(labels[..idx], active, 0) + Line(idx, labels[idx], active)
  {
    assert labels[..idx + 1] == labels[..idx] + [labels[idx]];
    LinesSnoc(labels[..idx], labels[idx], active, 0);
  }

  /** Builds the change list of `render` by pushing inside the loop over the entries. */
  method RenderChanges(active: nat, tabList: seq<Entry>) returns (changes: seq<Change>)
    ensures changes == Frame(active, tabList)
  {
    ghost var labels := Labels(tabList);
    changes := Header();
    for idx := 0 to |tabList|
      invariant changes == Header() + Lines(labels[..idx], active, 0)
    {
      ghost var before := changes;
      if idx == active {
        changes := changes + [Attribute(Reverse(true))];
      }
      changes := changes + [Text(Label(idx + 1, tabList[idx].title))];
      if idx == active {
        changes := changes + [Attribute(Reverse(false))];
      }
      assert labels[idx] == Label(idx + 1, tabList[idx].title);
      assert changes == before + Line(idx, labels[idx], active);
      LinesPush(labels, idx, active);
    }
    assert labels[..|tabList|] == labels;
  }

  /** The nested `render`: build the frame and hand it to the terminal. */
  method Render(active: nat, tabList: seq<Entry>, term: Terminal) returns (ok: bool)
    modifies term
    ensures ok == Accepts(term.renderLimit, old(term.rendered))
    ensures term.rendered == if ok then old(term.rendered) + [Frame(active, tabList)] else old(term.rendered)
    ensures term.pending == old(term.pending)
  {
    var changes := RenderChanges(active, tabList);
    ok := term.Render(changes);
  }

  // ---------------------------------------------------------------------
  // The polling loop
  // ---------------------------------------------------------------------

  /**
   * The polling loop from selection `idx`, after `log` has been rendered, on
   * the poll results `input`: one iteration per poll result, as the source
   * matches it.
   */
  function Loop(tabList: seq<Entry>, window: WindowId, limit: Option<nat>, idx: nat, log: seq<Batch>, input: seq<Poll>): (o: Outcome)
    ensures |o.rest| <= |input|
    ensures |log| <= |o.log| && o.log[..|log|] == log
    decreases |input|
  {
    if input == [] then Outcome(log, [], None, idx, InputEnded)
    else if !input[0].Event? then Outcome(log, input[1..], None, idx, InputEnded)
    else
      var rest := input[1..];
      match Classify(input[0].event)
      case MoveUp =>
        var next := SaturatingDec(idx);
        if Accepts(limit, log) then Loop(tabList, window, limit, next, log + [Frame(next, tabList)], rest)
        else Outcome(log, rest, None, next, RenderFailed)
      case MoveDown =>
        (match ClampedInc(idx, |tabList|)
         case None => Outcome(log, rest, None, idx, Underflow)
         case Some(next) =>
           if Accepts(limit, log) then Loop(tabList, window, limit, next, log + [Frame(next, tabList)], rest)
           else Outcome(log, rest, None, next, RenderFailed))
      case Cancel => Outcome(log, rest, None, idx, Cancelled)
      case Confirm => Outcome(log, rest, Some(Activation(window, idx)), idx, Confirmed)
      case Ignore => Loop(tabList, window, limit, idx, log, rest)
  }

  /**
   * A whole run of `tab_navigator`: the title batch, a first full render at
   * the initial selection, then the polling loop.
   */
  function Navigate(tabId: TabId, tabList: seq<Entry>, window: WindowId, limit: Option<nat>, log: seq<Batch>, input: seq<Poll>): (o: Outcome)
    ensures |o.rest| <= |input|
    ensures |log| <= |o.log| && o.log[..|log|] == log
  {
    var idx := InitialIndex(tabList, tabId);
    if !Accepts(limit, log) then Outcome(log, input, None, idx, RenderFailed)
    else
      var titled := log + [[Title(NavigatorTitle)]];
      if !Accepts(limit, titled) then Outcome(titled, input, None, idx, RenderFailed)
      else Loop(tabList, window, limit, idx, titled + [Frame(idx, tabList)], input)
  }

  /**
   * `tab_navigator`: runs on the worker thread that owns `term`; the
   * activation it returns stands for the closure it spawns onto the main
   * thread on Enter.
   */
  method TabNavigator(tabId: TabId, term: Terminal, tabList: seq<Entry>, window: WindowId)
    returns (exit: Exit, request: Option<Activation>)
    modifies term
    ensures var o := Navigate(tabId, tabList, window, term.renderLimit, old(term.rendered), old(term.pending));
            term.rendered == o.log && term.pending == o.rest && request == o.request && exit == o.exit
  {
    ghost var goal := Navigate(tabId, tabList, window, term.renderLimit, term.rendered, term.pending);
    var idx := InitialIndex(tabList, tabId);
    var ok := term.Render([Title(NavigatorTitle)]);
    if !ok {
      return RenderFailed, None;
    }
    ok := Render(idx, tabList, term);
    if !ok {
      return RenderFailed, None;
    }
    while true
      invariant Loop(tabList, window, term.renderLimit, idx, term.rendered, term.pending) == goal
      decreases |term.pending|
    {
      var polled := term.PollInput();
      if !polled.Event? {
        return InputEnded, None;
      }
      match Classify(polled.event)
      case MoveUp =>
        idx := SaturatingDec(idx);
        ok := Render(idx, tabList, term);
        if !ok {
          return RenderFailed, None;
        }
      case MoveDown =>
        var next := ClampedInc(idx, |tabList|);
        if next.None? {
          return Underflow, None;
        }
        idx := next.value;
        ok := Render(idx, tabList, term);
        if !ok {
          return RenderFailed, None;
        }
      case Cancel =>
        return Cancelled, None;
      case Confirm =>
        return Confirmed, Some(Activation(window, idx));
      case Ignore =>
    }
  }
}
