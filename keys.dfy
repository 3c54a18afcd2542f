/** The key dispatch of the edit loop. Key codes arrive one at a time from
    a finite input; reading past its end yields EOF, as `getch` does. A key
    press is decoded from one, two or three codes (the arrow keys arrive as
    ESC '[' 'D' and ESC '[' 'C'), and each decoded press selects one edit.
    `FeedAll` gives the same dispatch fed one code at a time, and
    `RunIsFeedAll` proves it equal to `Run`. */
module Keys {
  import opened ListSpec
  import Editing

  /** What `getch` answers once the input is exhausted. */
  const EOF: int := -1
  const LF: int := 10
  const CR: int := 13
  const ESC: int := 27
  /** `'['`, the second code of an arrow key. */
  const BRACKET: int := 91
  /** `'C'` and `'D'`, the third code of the right and left arrow keys. */
  const ARROW_RIGHT: int := 67
  const ARROW_LEFT: int := 68
  /** DEL and BS both erase in front of the cursor. */
  const DEL: int := 127
  const BS: int := 8
  /** Ctrl-D erases behind the cursor. */
  const CTRL_D: int := 4

  /** `isprint` in the C locale: the printable ASCII codes. */
  predicate IsPrint(k: int) {
    32 <= k <= 126
  }

  /** Every character is one `isprint` accepts. */
  predicate AllPrintable(s: seq<char>) {
    forall i :: 0 <= i < |s| ==> IsPrint(s[i] as int)
  }

  /** The code `getch` returns at position `i` of the input. */
  function Key(keys: seq<int>, i: int): int {
    if 0 <= i < |keys| then keys[i] else EOF
  }

  /** A decoded key press. */
  datatype KeyPress = Enter | ArrowLeft | ArrowRight | Backspace | CtrlD | Printable(ch: char) | Other

  /** A key press and the number of codes it was read from. */
  datatype Decoded = Decoded(press: KeyPress, width: int)

  /** One turn of the dispatch in `TextBox_editLoop`: read a code, and after
      ESC read one more, and after ESC '[' one more again. */
  function DecodeAt(keys: seq<int>, pos: int): (r: Decoded)
    ensures 1 <= r.width <= 3
    ensures r.width > 1 <==> Key(keys, pos) == ESC
    ensures r.press == Enter <==> Key(keys, pos) == CR || Key(keys, pos) == LF
    ensures r.press.Printable? ==> IsPrint(r.press.ch as int) && r.width == 1
  {
    var ch := Key(keys, pos);
    if ch == CR || ch == LF then Decoded(Enter, 1)
    else if ch == ESC then
      if Key(keys, pos + 1) == BRACKET then
        var arrow := Key(keys, pos + 2);
        Decoded(if arrow == ARROW_LEFT then ArrowLeft else if arrow == ARROW_RIGHT then ArrowRight else Other, 3)
      else
        Decoded(Other, 2)
    else if ch == DEL || ch == BS then Decoded(Backspace, 1)
    else if ch == CTRL_D then Decoded(CtrlD, 1)
    else if IsPrint(ch) then Decoded(Printable(ch as char), 1)
    else Decoded(Other, 1)
  }

  /** The edit a key press selects. */
  function Apply(e: Editing.Editor, p: KeyPress): (r: Editing.Editor)
    ensures p == Enter || p == Other ==> r == e
    ensures p == ArrowLeft || p == ArrowRight ==> r.text == e.text
    ensures Editing.Inv(e) ==>
      (|r.text| == |e.text| +
        (if p.Printable? then 1
         else if (p == Backspace && e.cursor > 0) || (p == CtrlD && e.cursor < |e.text|) then -1
         else 0))
  {
    match p
    case Enter => e
    case ArrowLeft => Editing.MoveLeft(e)
    case ArrowRight => Editing.MoveRight(e)
    case Backspace => Editing.DeleteBefore(e)
    case CtrlD => Editing.DeleteAfter(e)
    case Printable(ch) => Editing.Insert(e, ch)
    case Other => e
  }

  /** Where editing stopped, and whether it stopped on Enter (rather than
      at the end of the input). */
  datatype Outcome = Outcome(final: Editing.Editor, finished: bool)

  /** The edit loop from position `pos` on: decode and apply key presses
      until Enter or the end of the input. */
  function Run(e: Editing.Editor, keys: seq<int>, pos: int): (r: Outcome)
    ensures r.finished ==> exists i :: 0 <= i < |keys| && pos <= i && (keys[i] == CR || keys[i] == LF)
    decreases |keys| - pos
  {
    if pos >= |keys| then Outcome(e, false)
    else
      var d := DecodeAt(keys, pos);
      if d.press == Enter then Outcome(e, true)
      else Run(Apply(e, d.press), keys, pos + d.width)
  }

  /** A whole session: the first code answers "Press any key to start
      editing" and editing begins with the empty text box. */
  function Session(keys: seq<int>): (r: Outcome)
    ensures r.finished ==> exists i :: 1 <= i < |keys| && (keys[i] == CR || keys[i] == LF)
    ensures |keys| <= 1 ==> r == Outcome(Editing.Initial, false)
  {
    Run(Editing.Initial, keys, 1)
  }

  /** Once the input is exhausted nothing more can change: every further
      read is EOF, which the dispatch ignores. So stopping there loses
      nothing. */
  lemma EofChangesNothing(e: Editing.Editor, keys: seq<int>, pos: int)
    requires pos >= |keys|
    ensures DecodeAt(keys, pos) == Decoded(Other, 1)
    ensures Apply(e, DecodeAt(keys, pos).press) == e
  {
  }

  /** Every edit keeps the cursor within the text. */
  lemma ApplyKeepsInv(e: Editing.Editor, p: KeyPress)
    requires Editing.Inv(e)
    ensures Editing.Inv(Apply(e, p))
  {
  }

  /** Every edit keeps the text printable: only `isprint` codes are inserted. */
  lemma ApplyKeepsPrintable(e: Editing.Editor, p: KeyPress)
    requires Editing.Inv(e) && AllPrintable(e.text)
    requires p.Printable? ==> IsPrint(p.ch as int)
    ensures AllPrintable(Apply(e, p).text)
  {
    match p
    case Backspace =>
      if e.cursor > 0 && |e.text| > 0 {
        var t := Apply(e, p).text;
        forall i | 0 <= i < |t| ensures IsPrint(t[i] as int) {
          assert t[i] == (if i < e.cursor - 1 then e.text[i] else e.text[i + 1]);
        }
      }
    case CtrlD =>
      if e.cursor < |e.text| {
        var t := Apply(e, p).text;
        forall i | 0 <= i < |t| ensures IsPrint(t[i] as int) {
          assert t[i] == (if i < e.cursor then e.text[i] else e.text[i + 1]);
        }
      }
    case Printable(ch) =>
      var t := Apply(e, p).text;
      forall i | 0 <= i < |t| ensures IsPrint(t[i] as int) {
        assert t[i] == (if i < e.cursor then e.text[i] else if i == e.cursor then ch else e.text[i - 1]);
      }
    case _ =>
  }

  /** The cursor stays within the text for the whole edit loop. */
  lemma {:induction false} RunKeepsInv(e: Editing.Editor, keys: seq<int>, pos: int)
    requires Editing.Inv(e)
    ensures Editing.Inv(Run(e, keys, pos).final)
    decreases |keys| - pos
  {
    if pos < |keys| {
      var d := DecodeAt(keys, pos);
      if d.press != Enter {
        ApplyKeepsInv(e, d.press);
        RunKeepsInv(Apply(e, d.press), keys, pos + d.width);
      }
    }
  }

  /** The text holds only printable characters for the whole edit loop. */
  lemma {:induction false} RunKeepsPrintable(e: Editing.Editor, keys: seq<int>, pos: int)
    requires Editing.Inv(e) && AllPrintable(e.text)
    ensures AllPrintable(Run(e, keys, pos).final.text)
    decreases |keys| - pos
  {
    if pos < |keys| {
      var d := DecodeAt(keys, pos);
      if d.press != Enter {
        ApplyKeepsInv(e, d.press);
        ApplyKeepsPrintable(e, d.press);
        RunKeepsPrintable(Apply(e, d.press), keys, pos + d.width);
      }
    }
  }

  /** After any session the cursor lies within the text and the text is
      printable (in particular it holds no NUL). */
  lemma SessionWellFormed(keys: seq<int>)
    ensures Editing.Inv(Session(keys).final)
    ensures AllPrintable(Session(keys).final.text)
  {
    RunKeepsInv(Editing.Initial, keys, 1);
    RunKeepsPrintable(Editing.Initial, keys, 1);
  }

  /** ESC followed by anything but '[' takes exactly two codes and changes
      nothing; ESC '[' followed by anything but 'D' or 'C' takes exactly
      three. The codes taken are not dispatched again. */
  lemma EscapeDiscards(e: Editing.Editor, keys: seq<int>, pos: int)
    requires 0 <= pos < |keys| && keys[pos] == ESC
    ensures Key(keys, pos + 1) != BRACKET ==> Run(e, keys, pos) == Run(e, keys, pos + 2)
    ensures Key(keys, pos + 1) == BRACKET && Key(keys, pos + 2) != ARROW_LEFT && Key(keys, pos + 2) != ARROW_RIGHT ==>
      Run(e, keys, pos) == Run(e, keys, pos + 3)
  {
  }

  /** In particular Enter right after ESC is swallowed as the code after
      ESC: it does not finish editing. */
  lemma EnterAfterEscIsSwallowed(e: Editing.Editor, keys: seq<int>, pos: int)
    requires 0 <= pos && pos + 1 < |keys|
    requires keys[pos] == ESC && (keys[pos + 1] == CR || keys[pos + 1] == LF)
    ensures Run(e, keys, pos) == Run(e, keys, pos + 2)
  {
    EscapeDiscards(e, keys, pos);
  }

  // The same dispatch fed one code at a time (`FeedAll`); `RunIsFeedAll`
  // proves it equal to `Run`.

  /** How far into an escape sequence the reader is. */
  datatype Mode = Normal | SawEsc | SawBracket

  /** Where the reader is after one more code: the mode, the text box, and
      whether Enter ended editing. */
  datatype Step = Step(mode: Mode, e: Editing.Editor, done: bool)

  /** Feed one code to the reader. */
  function Feed(m: Mode, e: Editing.Editor, k: int): Step {
    match m
    case Normal =>
      if k == CR || k == LF then Step(Normal, e, true)
      else if k == ESC then Step(SawEsc, e, false)
      else if k == DEL || k == BS then Step(Normal, Editing.DeleteBefore(e), false)
      else if k == CTRL_D then Step(Normal, Editing.DeleteAfter(e), false)
      else if IsPrint(k) then Step(Normal, Editing.Insert(e, k as char), false)
      else Step(Normal, e, false)
    case SawEsc =>
      if k == BRACKET then Step(SawBracket, e, false) else Step(Normal, e, false)
    case SawBracket =>
      if k == ARROW_LEFT then Step(Normal, Editing.MoveLeft(e), false)
      else if k == ARROW_RIGHT then Step(Normal, Editing.MoveRight(e), false)
      else Step(Normal, e, false)
  }

  /** Feed the codes from `pos` on, until Enter or the end of the input. */
  function FeedAll(m: Mode, e: Editing.Editor, keys: seq<int>, pos: int): Outcome
    decreases |keys| - pos
  {
    if pos >= |keys| then Outcome(e, false)
    else
      var s := Feed(m, e, Key(keys, pos));
      if s.done then Outcome(s.e, true) else FeedAll(s.mode, s.e, keys, pos + 1)
  }

  /** The decoder that reads a whole key press per turn agrees with the
      reader fed one code at a time, on every input. */
  lemma {:induction false} RunIsFeedAll(e: Editing.Editor, keys: seq<int>, pos: int)
    ensures Run(e, keys, pos) == FeedAll(Normal, e, keys, pos)
    decreases |keys| - pos
  {
    if pos < |keys| {
      var d := DecodeAt(keys, pos);
      if d.press != Enter {
        RunIsFeedAll(Apply(e, d.press), keys, pos + d.width);
        if Key(keys, pos) == ESC {
          assert FeedAll(Normal, e, keys, pos) == FeedAll(SawEsc, e, keys, pos + 1);
          if Key(keys, pos + 1) == BRACKET {
            assert FeedAll(SawEsc, e, keys, pos + 1) == FeedAll(SawBracket, e, keys, pos + 2);
            assert FeedAll(SawBracket, e, keys, pos + 2) == FeedAll(Normal, Apply(e, d.press), keys, pos + 3);
          } else {
            assert FeedAll(SawEsc, e, keys, pos + 1) == FeedAll(Normal, e, keys, pos + 2);
          }
        }
      }
    }
  }

  /** A printable code inserts its character and moves on by one. */
  lemma TypeStep(e: Editing.Editor, keys: seq<int>, pos: int)
    requires 0 <= pos < |keys| && IsPrint(keys[pos])
    ensures Run(e, keys, pos) == Run(Editing.Insert(e, keys[pos] as char), keys, pos + 1)
  {
  }

  /** ESC '[' 'D' moves the cursor left and moves on by three. */
  lemma LeftStep(e: Editing.Editor, keys: seq<int>, pos: int)
    requires 0 <= pos && pos + 2 < |keys|
    requires keys[pos] == ESC && keys[pos + 1] == BRACKET && keys[pos + 2] == ARROW_LEFT
    ensures Run(e, keys, pos) == Run(Editing.MoveLeft(e), keys, pos + 3)
  {
  }

  /** ESC '[' 'C' moves the cursor right and moves on by three. */
  lemma RightStep(e: Editing.Editor, keys: seq<int>, pos: int)
    requires 0 <= pos && pos + 2 < |keys|
    requires keys[pos] == ESC && keys[pos + 1] == BRACKET && keys[pos + 2] == ARROW_RIGHT
    ensures Run(e, keys, pos) == Run(Editing.MoveRight(e), keys, pos + 3)
  {
  }

  /** DEL (127) and backspace (8) erase before the cursor and move on by one. */
  lemma EraseStep(e: Editing.Editor, keys: seq<int>, pos: int)
    requires 0 <= pos < |keys| && (keys[pos] == DEL || keys[pos] == BS)
    ensures Run(e, keys, pos) == Run(Editing.DeleteBefore(e), keys, pos + 1)
  {
  }

  /** Ctrl-D (4) erases at the cursor and moves on by one. */
  lemma CtrlDStep(e: Editing.Editor, keys: seq<int>, pos: int)
    requires 0 <= pos < |keys| && keys[pos] == CTRL_D
    ensures Run(e, keys, pos) == Run(Editing.DeleteAfter(e), keys, pos + 1)
  {
  }

  /** Any other code that is neither Enter, ESC nor printable is skipped. */
  lemma IgnoredStep(e: Editing.Editor, keys: seq<int>, pos: int)
    requires 0 <= pos < |keys|
    requires keys[pos] !in {CR, LF, ESC, DEL, BS, CTRL_D} && !IsPrint(keys[pos])
    ensures Run(e, keys, pos) == Run(e, keys, pos + 1)
  {
  }

  /** The start key and typing "ABC" in the worked session below. */
  lemma ExampleTyping(keys: seq<int>)
    requires |keys| == 14 && keys[1] == 65 && keys[2] == 66 && keys[3] == 67
    ensures Session(keys) == Run(Editing.Editor("ABC", 3), keys, 4)
  {
    TypeStep(Editing.Editor("", 0), keys, 1);
    assert Editing.Insert(Editing.Editor("", 0), 'A') == Editing.Editor("A", 1);
    TypeStep(Editing.Editor("A", 1), keys, 2);
    assert Editing.Insert(Editing.Editor("A", 1), 'B') == Editing.Editor("AB", 2);
    TypeStep(Editing.Editor("AB", 2), keys, 3);
    assert Editing.Insert(Editing.Editor("AB", 2), 'C') == Editing.Editor("ABC", 3);
  }

  /** The two left arrows and the "X" in the worked session below. */
  lemma ExampleArrows(keys: seq<int>)
    requires |keys| == 14
    requires keys[4] == 27 && keys[5] == 91 && keys[6] == 68
    requires keys[7] == 27 && keys[8] == 91 && keys[9] == 68 && keys[10] == 88
    ensures Run(Editing.Editor("ABC", 3), keys, 4) == Run(Editing.Editor("AXBC", 2), keys, 11)
  {
    LeftStep(Editing.Editor("ABC", 3), keys, 4);
    LeftStep(Editing.Editor("ABC", 2), keys, 7);
    TypeStep(Editing.Editor("ABC", 1), keys, 10);
    assert Editing.Insert(Editing.Editor("ABC", 1), 'X') == Editing.Editor("AXBC", 2);
  }

  /** Ctrl-D, Backspace and Enter at the end of the worked session below. */
  lemma ExampleEnding(keys: seq<int>)
    requires |keys| == 14 && keys[11] == 4 && keys[12] == 127 && keys[13] == 13
    ensures Run(Editing.Editor("AXBC", 2), keys, 11) == Outcome(Editing.Editor("AC", 1), true)
  {
    calc {
      Run(Editing.Editor("AXBC", 2), keys, 11);
      { assert DecodeAt(keys, 11) == Decoded(CtrlD, 1); }
      Run(Editing.DeleteAfter(Editing.Editor("AXBC", 2)), keys, 12);
      { assert Editing.DeleteAfter(Editing.Editor("AXBC", 2)) == Editing.Editor("AXC", 2); }
      Run(Editing.Editor("AXC", 2), keys, 12);
      { assert DecodeAt(keys, 12) == Decoded(Backspace, 1); }
      Run(Editing.DeleteBefore(Editing.Editor("AXC", 2)), keys, 13);
      { assert Editing.DeleteBefore(Editing.Editor("AXC", 2)) == Editing.Editor("AC", 1); }
      Run(Editing.Editor("AC", 1), keys, 13);
    }
  }

  /** The codes of the worked session below, one position at a time. */
  lemma SampleCodes(keys: seq<int>)
    requires |keys| == 14 && keys[1..] == [65, 66, 67, 27, 91, 68, 27, 91, 68, 88, 4, 127, 13]
    ensures keys[1] == 65 && keys[2] == 66 && keys[3] == 67
    ensures keys[4] == 27 && keys[5] == 91 && keys[6] == 68
    ensures keys[7] == 27 && keys[8] == 91 && keys[9] == 68 && keys[10] == 88
    ensures keys[11] == 4 && keys[12] == 127 && keys[13] == 13
  {
  }

  /** A worked session: after any start key, type "ABC", press the left
      arrow twice, type "X", press Ctrl-D, Backspace and Enter. Ctrl-D
      removes the "B" behind the cursor, Backspace the "X" in front of it. */
  lemma ExampleSession(keys: seq<int>)
    requires |keys| == 14 && keys[1..] == [65, 66, 67, 27, 91, 68, 27, 91, 68, 88, 4, 127, 13]
    ensures Session(keys) == Outcome(Editing.Editor("AC", 1), true)
  {
    SampleCodes(keys);
    ExampleTyping(keys);
    ExampleArrows(keys);
    ExampleEnding(keys);
  }
}
