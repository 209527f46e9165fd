/**
 * The part of the termwiz terminal interface that the tab navigator programs
 * against: the declarative changes it renders, the input events it polls,
 * and a stand-in for the in-memory terminal handle (`TermWizTerminal`).
 *
 * The handle is abstract: it records every batch of changes it is asked to
 * render and hands out the results of `poll_input` from a given sequence.
 * A display sink that has been torn down rejects further batches; this is
 * modelled by an optional limit on the number of batches it accepts.
 */
module Termwiz {

  datatype Option<+T> = None | Some(value: T)

  /** `termwiz::color::ColorAttribute`. */
  datatype ColorAttribute = Default | PaletteIndex(index: nat)

  /** `termwiz::surface::Position`, one coordinate of a cursor move. */
  datatype Position = NoChange | Relative(delta: int) | Absolute(n: nat) | EndRelative(n: nat)

  /** `termwiz::cell::CellAttributes`, reduced to the one attribute the navigator toggles. */
  datatype CellAttributes = CellAttributes(reverse: bool)

  /** `CellAttributes::default()`: plain video. */
  const DefaultAttributes := CellAttributes(false)

  /** `termwiz::cell::AttributeChange`, reduced to reverse video. */
  datatype AttributeChange = Reverse(on: bool)

  /** `termwiz::surface::Change`: the change vocabulary of a render batch. */
  datatype Change =
    | Title(title: string)
    | ClearScreen(color: ColorAttribute)
    | CursorPosition(x: Position, y: Position)
    | Text(text: string)
    | AllAttributes(attributes: CellAttributes)
    | Attribute(change: AttributeChange)

  /** One call to `render`: the changes passed to it, in order. */
  type Batch = seq<Change>

  /** `termwiz::input::KeyCode`, the keys the navigator distinguishes and a few others. */
  datatype KeyCode =
    | Char(c: char)
    | UpArrow | DownArrow | LeftArrow | RightArrow
    | Escape | Enter | Tab | Backspace
    | Function(n: nat)

  datatype Modifiers = Modifiers(shift: bool, ctrl: bool, alt: bool)

  /** `termwiz::input::InputEvent`. */
  datatype InputEvent =
    | Key(key: KeyCode, modifiers: Modifiers)
    | Mouse(x: nat, y: nat)
    | Resized(cols: nat, rows: nat)
    | Paste(text: string)
    | Wake

  /**
   * One result of `poll_input(None)`: `Ok(Some(event))`, `Ok(None)` (the
   * stream has ended) or `Err(_)`.
   */
  datatype Poll = Event(event: InputEvent) | Closed | Failed

  /** Whether a sink that accepts at most `limit` batches takes one more after `rendered`. */
  predicate Accepts(limit: Option<nat>, rendered: seq<Batch>)
  {
    limit.None? || |rendered| < limit.value
  }

  /** The terminal handle a navigator owns exclusively while it runs. */
  class Terminal {
    /** Every batch rendered so far, oldest first. */
    var rendered: seq<Batch>
    /** The poll results not yet handed out. */
    var pending: seq<Poll>
    /** How many batches the sink accepts before it rejects; None: all of them. */
    const renderLimit: Option<nat>

    constructor (input: seq<Poll>, renderLimit: Option<nat>)
      ensures rendered == [] && pending == input && this.renderLimit == renderLimit
    {
      rendered := [];
      pending := input;
      this.renderLimit := renderLimit;
    }

    /** `Terminal::render`: appends the batch, or fails and leaves the log as it was. */
    method Render(changes: Batch) returns (ok: bool)
      modifies this
      ensures ok == Accepts(renderLimit, old(rendered))
      ensures rendered == if ok then old(rendered) + [changes] else old(rendered)
      ensures pending == old(pending)
    {
      ok := Accepts(renderLimit, rendered);
      if ok {
        rendered := rendered + [changes];
      }
    }

    /** `Terminal::poll_input(None)`: the next poll result; `Closed` once the input is exhausted. */
    method PollInput() returns (p: Poll)
      modifies this
      ensures old(pending) == [] ==> p == Closed && pending == []
      ensures old(pending) != [] ==> p == old(pending)[0] && pending == old(pending)[1..]
      ensures rendered == old(rendered)
    {
      if pending == [] {
        p := Closed;
      } else {
        p := pending[0];
        pending := pending[1..];
      }
    }
  }
}
