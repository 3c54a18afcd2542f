/** The text box object: a character list and a cursor index, edited in
    place by the key dispatch, drawn as a bubble after every key, and
    summed up in a banner when editing ends. Each method is proved to act
    on the object as the matching value-level operation acts on its
    `State()`. */
module TextBoxes {
  import opened ListSpec
  import opened LinkedList
  import Editing
  import Keys
  import Render

  /** `line` followed by `n` copies of `c`, written one at a time as the
      drawing loops do. */
  method Emit(line: seq<char>, c: char, n: int) returns (r: seq<char>)
    ensures r == line + Render.Repeat(c, n)
  {
    r := line;
    var i := 0;
    while i < n
      invariant 0 <= i <= (if n < 0 then 0 else n)
      invariant r == line + Render.Repeat(c, i)
    {
      r := r + [c];
      i := i + 1;
    }
  }

  /** The middle line of the bubble once the positions before `i` have been
      drawn: the first `i` characters, with the cursor mark in front of the
      character at `cursor` when that position has been reached. */
  ghost function DrawnUpTo(s: seq<char>, cursor: int, i: int): seq<char>
    requires 0 <= i <= |s| + 1
  {
    var shown := if i <= |s| then s[..i] else s;
    if 0 <= cursor < i then shown[..cursor] + [Render.Cursor] + shown[cursor..] else shown
  }

  /** Drawing position `i` appends the cursor mark when the cursor is
      there, then the character at `i` when there is one. */
  lemma DrawnStep(s: seq<char>, cursor: int, i: int)
    requires 0 <= i <= |s|
    ensures DrawnUpTo(s, cursor, i + 1) ==
      DrawnUpTo(s, cursor, i) + (if i == cursor then [Render.Cursor] else []) + (if i < |s| then [s[i]] else [])
  {
    if i < |s| {
      assert s[..i + 1] == s[..i] + [s[i]];
    }
  }

  /** Once every position is drawn, the line is the bubble's middle line
      without its borders. */
  lemma DrawnAll(s: seq<char>, cursor: int)
    ensures [Render.LightSide] + DrawnUpTo(s, cursor, |s| + 1) + [Render.LightSide] == Render.BubbleMiddle(s, cursor)
  {
  }

  class TextBox {
    const text: CharList
    var cursor: int

    ghost var Repr: set<object>

    /** The text box owns its list, and the list is well formed. */
    ghost predicate Valid()
      reads this, Repr
    {
      && this in Repr
      && text in Repr
      && text.Repr <= Repr
      && this !in text.Repr
      && text.Valid()
    }

    /** The text and the cursor as a value. */
    ghost function State(): Editing.Editor
      reads this, text
    {
      Editing.Editor(text.Contents, cursor)
    }

    /** `TextBox_init`: an empty list and the cursor at 0. */
    constructor ()
      ensures Valid() && fresh(Repr)
      ensures State() == Editing.Initial && Editing.Inv(State())
    {
      text := new CharList();
      cursor := 0;
      new;
      Repr := {this} + text.Repr;
    }

    /** `TextBox_moveLeft`. */
    method MoveLeft()
      requires Valid()
      modifies this
      ensures Valid() && Repr == old(Repr)
      ensures State() == Editing.MoveLeft(old(State()))
    {
      if cursor > 0 {
        cursor := cursor - 1;
      }
    }

    /** `TextBox_moveRight`. */
    method MoveRight()
      requires Valid()
      modifies this
      ensures Valid() && Repr == old(Repr)
      ensures State() == Editing.MoveRight(old(State()))
    {
      if cursor < text.size {
        cursor := cursor + 1;
      }
    }

    /** `TextBox_insert`: insert at the cursor, then advance it. */
    method Insert(ch: char)
      requires Valid()
      modifies Repr
      ensures Valid() && fresh(Repr - old(Repr))
      ensures State() == Editing.Insert(old(State()), ch)
    {
      var _ := text.Insert(cursor, ch);
      cursor := cursor + 1;
      Repr := Repr + text.Repr;
    }

    /** `TextBox_deleteAfter`: delete the character at the cursor, if any. */
    method DeleteAfter()
      requires Valid()
      modifies Repr
      ensures Valid() && fresh(Repr - old(Repr))
      ensures State() == Editing.DeleteAfter(old(State()))
    {
      if cursor < text.size {
        var _ := text.DeleteByIndex(cursor);
        var size := text.size;
        cursor := if cursor > size then size else cursor;
        Repr := Repr + text.Repr;
      }
    }

    /** `TextBox_deleteBefore`: delete the character in front of the cursor,
        if any, and step back. */
    method DeleteBefore()
      requires Valid()
      modifies Repr
      ensures Valid() && fresh(Repr - old(Repr))
      ensures State() == Editing.DeleteBefore(old(State()))
    {
      if cursor > 0 && text.size > 0 {
        var _ := text.DeleteByIndex(cursor - 1);
        cursor := cursor - 1;
        Repr := Repr + text.Repr;
      }
    }

    /** `TextBox_printBubble`: the top border, the line with the text and
        the cursor mark, and the bottom border. */
    method PrintBubble() returns (lines: seq<seq<char>>)
      requires Valid()
      ensures lines == Render.Bubble(text.Contents, cursor)
    {
      var len := text.size;
      var top := Emit([Render.ArcTopLeft], Render.Light, len + 1);
      top := top + [Render.ArcTopRight];
      var middle := PrintContent();
      var bottom := Emit([Render.ArcBottomLeft], Render.Light, len + 1);
      bottom := bottom + [Render.ArcBottomRight];
      lines := [top, middle, bottom];
    }

    /** The middle line of `TextBox_printBubble`: for each position up to the
        length, the cursor mark when the cursor is there, then the character
        read from the list at that position. */
    method PrintContent() returns (middle: seq<char>)
      requires Valid()
      ensures middle == Render.BubbleMiddle(text.Contents, cursor)
    {
      ghost var s := text.Contents;
      var len := text.size;
      middle := [Render.LightSide];
      var i := 0;
      while i <= len
        invariant 0 <= i <= len + 1
        invariant middle == [Render.LightSide] + DrawnUpTo(s, cursor, i)
      {
        DrawnStep(s, cursor, i);
        if i == cursor {
          middle := middle + [Render.Cursor];
        }
        if i < len {
          var ch := text.ReadByIndex(i);
          middle := middle + [ch];
        }
        i := i + 1;
      }
      DrawnAll(s, cursor);
      middle := middle + [Render.LightSide];
    }

    /** The message buffer of the summary: the characters read from the list
        one by one, and a NUL after them. */
    method MessageBuffer() returns (buffer: array<char>)
      requires Valid()
      ensures fresh(buffer)
      ensures buffer[..] == text.Contents + [NUL]
    {
      var len := text.size;
      buffer := new char[len + 1];
      var i := 0;
      while i < len
        invariant 0 <= i <= len
        invariant buffer[..i] == text.Contents[..i]
        modifies buffer
      {
        buffer[i] := text.ReadByIndex(i);
        i := i + 1;
      }
      buffer[len] := NUL;
      assert buffer[..] == buffer[..len] + [buffer[len]];
    }

    /** The banner of the summary around the message buffer, padded by
        `strlen` of the buffer. */
    method PrintBanner() returns (lines: seq<seq<char>>)
      requires Valid()
      ensures lines == Render.Banner(text.Contents)
    {
      var len := text.size;
      var buffer := MessageBuffer();
      var bar := len + 2;
      if bar < 20 {
        bar := 20;
      }
      var top := Emit([Render.DoubleTopLeft], Render.Double, bar);
      top := top + [Render.DoubleTopRight];
      var shown := Render.CString(buffer[..]);
      Render.CStringOfTerminated(text.Contents);
      var pad := bar - |shown| - 1;
      var middle := Emit([Render.DoubleSide, ' '] + shown, ' ', pad);
      middle := middle + [Render.DoubleSide];
      var bottom := Emit([Render.DoubleBottomLeft], Render.Double, bar);
      bottom := bottom + [Render.DoubleBottomRight];
      lines := [top, middle, bottom];
    }

    /** One turn of `TextBox_editLoop` at position `pos`: read a code (and
        after ESC one more, and after ESC '[' one more again) and carry out
        the edit it selects. Enter ends editing and changes nothing. */
    method HandleKey(keys: seq<int>, pos: int) returns (finished: bool, next: int)
      requires Valid() && 0 <= pos < |keys|
      modifies Repr
      ensures Valid() && fresh(Repr - old(Repr))
      ensures var d := Keys.DecodeAt(keys, pos);
        && (finished <==> d.press == Keys.Enter)
        && State() == Keys.Apply(old(State()), d.press)
        && next == pos + d.width
    {
      var ch := keys[pos];
      next := pos + 1;
      finished := false;
      if ch == Keys.CR || ch == Keys.LF {
        finished := true;
      } else if ch == Keys.ESC {
        var next1 := Keys.Key(keys, next);
        next := next + 1;
        if next1 == Keys.BRACKET {
          var arrow := Keys.Key(keys, next);
          next := next + 1;
          if arrow == Keys.ARROW_LEFT {
            MoveLeft();
          } else if arrow == Keys.ARROW_RIGHT {
            MoveRight();
          }
        }
      } else if ch == Keys.DEL || ch == Keys.BS {
        DeleteBefore();
      } else if ch == Keys.CTRL_D {
        DeleteAfter();
      } else if Keys.IsPrint(ch) {
        Insert(ch as char);
      }
    }

    /** `TextBox_editLoop`: after the start key, decode key presses and apply
        the edits until Enter or the end of the input. Only Enter ends the
        loop, and only then are the bubble and the banner drawn one last
        time; input that runs out before Enter draws nothing more. The loop
        keeps the cursor within the text. */
    method EditLoop(keys: seq<int>) returns (finished: bool, bubble: seq<seq<char>>, banner: seq<seq<char>>)
      requires Valid()
      modifies Repr
      ensures Valid() && fresh(Repr - old(Repr))
      ensures Keys.Run(old(State()), keys, 1) == Keys.Outcome(State(), finished)
      ensures Editing.Inv(old(State())) ==> Editing.Inv(State())
      ensures finished ==> bubble == Render.Bubble(text.Contents, cursor) && banner == Render.Banner(text.Contents)
      ensures !finished ==> bubble == [] && banner == []
    {
      var pos := 1;
      finished := false;
      while !finished && pos < |keys|
        invariant Valid() && fresh(Repr - old(Repr))
        invariant 1 <= pos
        invariant finished ==> Keys.Run(old(State()), keys, 1) == Keys.Outcome(State(), true)
        invariant !finished ==> Keys.Run(old(State()), keys, 1) == Keys.Run(State(), keys, pos)
        decreases |keys| - pos, if finished then 0 else 1
      {
        finished, pos := HandleKey(keys, pos);
      }
      if Editing.Inv(old(State())) {
        Keys.RunKeepsInv(old(State()), keys, 1);
      }
      if finished {
        bubble := PrintBubble();
        banner := PrintBanner();
      } else {
        bubble, banner := [], [];
      }
    }
  }

  /** `runTextEditorDemo`: a new text box, one editing session over `keys`,
      and the list freed afterwards. The session ends as the key dispatch
      prescribes; when it ends on Enter the final drawings show its text,
      otherwise there are none. */
  method RunEditor(keys: seq<int>) returns (finished: bool, bubble: seq<seq<char>>, banner: seq<seq<char>>)
    ensures finished == Keys.Session(keys).finished
    ensures finished ==> bubble == Render.Bubble(Keys.Session(keys).final.text, Keys.Session(keys).final.cursor)
    ensures finished ==> banner == Render.Banner(Keys.Session(keys).final.text)
    ensures !finished ==> bubble == [] && banner == []
  {
    var box := new TextBox();
    finished, bubble, banner := box.EditLoop(keys);
    box.text.Free();
  }

  /** The banner over the text any session leaves (the one `RunEditor`
      draws when the session ends on Enter) shows the whole text, followed
      by at least one space before its right border. */
  lemma SessionBannerShowsText(keys: seq<int>)
    ensures var text := Keys.Session(keys).final.text;
      Render.Banner(text)[1] == [Render.DoubleSide, ' '] + text + Render.Repeat(' ', Render.Pad(text)) + [Render.DoubleSide]
      && Render.Pad(text) >= 1
  {
    var text := Keys.Session(keys).final.text;
    Keys.SessionWellFormed(keys);
    Render.BannerShowsMessage(text);
  }
}
