/** What the program draws, as the characters written to the terminal: the
    speech bubble around the text with the cursor shown as `|`, and the
    double-lined banner around the final message. Every box-drawing
    character is one terminal column wide, so a line's length is its
    width on screen. */
module Render {
  import opened ListSpec

  const ArcTopLeft: char := '╭'
  const ArcTopRight: char := '╮'
  const ArcBottomLeft: char := '╰'
  const ArcBottomRight: char := '╯'
  const Light: char := '─'
  const LightSide: char := '│'
  const Double: char := '═'
  const DoubleSide: char := '║'
  const DoubleTopLeft: char := '╔'
  const DoubleTopRight: char := '╗'
  const DoubleBottomLeft: char := '╚'
  const DoubleBottomRight: char := '╝'
  /** The cursor mark inside the bubble. */
  const Cursor: char := '|'

  /** `n` copies of `c`; none when `n` is not positive, as a `for` loop
      over `i < n` prints none. */
  function Repeat(c: char, n: int): (r: seq<char>)
    ensures |r| == (if n < 0 then 0 else n)
    ensures forall i :: 0 <= i < |r| ==> r[i] == c
    decreases n
  {
    if n <= 0 then [] else Repeat(c, n - 1) + [c]
  }

  /** The bubble's top line for a text of `len` characters: one column per
      character plus one for the cursor. */
  function BubbleTop(len: int): (r: seq<char>)
    ensures |r| >= 2 && r[0] == ArcTopLeft && r[|r| - 1] == ArcTopRight
    ensures len >= 0 ==> |r| == len + 3 && forall i :: 0 < i < |r| - 1 ==> r[i] == Light
  {
    [ArcTopLeft] + Repeat(Light, len + 1) + [ArcTopRight]
  }

  /** The bubble's bottom line. */
  function BubbleBottom(len: int): (r: seq<char>)
    ensures |r| >= 2 && r[0] == ArcBottomLeft && r[|r| - 1] == ArcBottomRight
    ensures len >= 0 ==> |r| == len + 3 && forall i :: 0 < i < |r| - 1 ==> r[i] == Light
  {
    [ArcBottomLeft] + Repeat(Light, len + 1) + [ArcBottomRight]
  }

  /** The bubble's middle line: the text with the cursor mark standing in the
      gap at `cursor`. A cursor outside the text is not drawn. */
  function BubbleMiddle(s: seq<char>, cursor: int): (r: seq<char>)
    ensures |r| >= 2 && r[0] == LightSide && r[|r| - 1] == LightSide
    ensures 0 <= cursor <= |s| ==> |r| == |s| + 3 && r[cursor + 1] == Cursor
    ensures 0 <= cursor <= |s| ==> r[1..cursor + 1] == s[..cursor] && r[cursor + 2..|r| - 1] == s[cursor..]
    ensures !(0 <= cursor <= |s|) ==> r[1..|r| - 1] == s
  {
    if 0 <= cursor <= |s| then [LightSide] + s[..cursor] + [Cursor] + s[cursor..] + [LightSide]
    else [LightSide] + s + [LightSide]
  }

  /** The three lines `TextBox_printBubble` draws. */
  function Bubble(s: seq<char>, cursor: int): (r: seq<seq<char>>)
    ensures |r| == 3 && |r[0]| >= 2 && |r[1]| >= 2 && |r[2]| >= 2
    ensures r[0][0] == ArcTopLeft && r[1][0] == LightSide && r[2][0] == ArcBottomLeft
  {
    [BubbleTop(|s|), BubbleMiddle(s, cursor), BubbleBottom(|s|)]
  }

  /** With the cursor within the text, the three lines of the bubble have the
      same width, so its right border is straight. */
  lemma BubbleAligned(s: seq<char>, cursor: int)
    requires 0 <= cursor <= |s|
    ensures forall k :: 0 <= k < 3 ==> |Bubble(s, cursor)[k]| == |s| + 3
  {
  }

  /** With the cursor within the text, the middle line shows one cursor mark,
      right after the `cursor` characters in front of it, and taking that
      mark out leaves the text between two borders. */
  lemma BubbleShowsTextAndCursor(s: seq<char>, cursor: int)
    requires 0 <= cursor <= |s|
    ensures BubbleMiddle(s, cursor)[cursor + 1] == Cursor
    ensures var m := BubbleMiddle(s, cursor); m[..cursor + 1] + m[cursor + 2..] == [LightSide] + s + [LightSide]
  {
    var m := BubbleMiddle(s, cursor);
    assert m[..cursor + 1] == [LightSide] + s[..cursor];
    assert m[cursor + 2..] == s[cursor..] + [LightSide];
    assert s[..cursor] + s[cursor..] == s;
  }

  /** The middle line holds one more cursor mark than the text itself does
      (a typed `|` looks the same) when the cursor is within the text, and
      none more otherwise. */
  lemma BubbleCursorCount(s: seq<char>, cursor: int)
    ensures multiset(BubbleMiddle(s, cursor))[Cursor] ==
      multiset(s)[Cursor] + (if 0 <= cursor <= |s| then 1 else 0)
  {
    if 0 <= cursor <= |s| {
      assert s == s[..cursor] + s[cursor..];
    }
  }

  /** What `%s` and `strlen` see of a character buffer: everything in front
      of the first NUL. */
  function CString(buf: seq<char>): (r: seq<char>)
    ensures |r| <= |buf| && r == buf[..|r|]
    ensures NUL !in r
    ensures |r| < |buf| ==> buf[|r|] == NUL
  {
    if buf == [] || buf[0] == NUL then [] else [buf[0]] + CString(buf[1..])
  }

  /** Without a NUL the whole buffer is the string. */
  lemma CStringWithoutNul(buf: seq<char>)
    requires NUL !in buf
    ensures CString(buf) == buf
  {
  }

  /** The terminator written after the characters does not change the
      string they spell. */
  lemma {:induction false} CStringOfTerminated(s: seq<char>)
    ensures CString(s + [NUL]) == CString(s)
  {
    if s != [] && s[0] != NUL {
      assert (s + [NUL])[1..] == s[1..] + [NUL];
      CStringOfTerminated(s[1..]);
    }
  }

  /** The number of `═` between the banner's corners for a message of `len`
      characters: two more than the message, and never fewer than 20. */
  function BarWidth(len: int): (r: int)
    ensures r >= 20 && r >= len + 2
    ensures r == 20 || r == len + 2
  {
    if len + 2 < 20 then 20 else len + 2
  }

  /** The spaces printed after the message so the right border lines up. */
  function Pad(buf: seq<char>): (r: int)
    ensures r >= 1
    ensures 2 + |CString(buf)| + r == BarWidth(|buf|) + 1
  {
    BarWidth(|buf|) - |CString(buf)| - 1
  }

  /** The three lines of the final banner around the message buffer `buf`
      (whose length is the text's `size`). */
  function Banner(buf: seq<char>): (r: seq<seq<char>>)
    ensures |r| == 3 && |r[0]| >= 2 && |r[1]| >= 3 + |CString(buf)| && |r[2]| >= 2
    ensures r[0][0] == DoubleTopLeft && r[0][|r[0]| - 1] == DoubleTopRight
    ensures forall i :: 0 < i < |r[0]| - 1 ==> r[0][i] == Double
    ensures r[1][..2] == [DoubleSide, ' '] && r[1][|r[1]| - 1] == DoubleSide
    ensures r[1][2..2 + |CString(buf)|] == CString(buf)
    ensures r[2][0] == DoubleBottomLeft && r[2][|r[2]| - 1] == DoubleBottomRight
    ensures forall i :: 0 < i < |r[2]| - 1 ==> r[2][i] == Double
  {
    var bar := BarWidth(|buf|);
    var shown := CString(buf);
    var middle := [DoubleSide, ' '] + shown + Repeat(' ', Pad(buf)) + [DoubleSide];
    assert middle[2..2 + |shown|] == shown;
    [ [DoubleTopLeft] + Repeat(Double, bar) + [DoubleTopRight],
      middle,
      [DoubleBottomLeft] + Repeat(Double, bar) + [DoubleBottomRight] ]
  }

  /** The banner's lines all have the same width, two more than the bar,
      for every buffer. */
  lemma BannerAligned(buf: seq<char>)
    ensures forall k :: 0 <= k < 3 ==> |Banner(buf)[k]| == BarWidth(|buf|) + 2
  {
  }

  /** A message without NUL is shown in full, followed by at least one space
      before the right border. */
  lemma BannerShowsMessage(buf: seq<char>)
    requires NUL !in buf
    ensures Pad(buf) == BarWidth(|buf|) - |buf| - 1 >= 1
    ensures Banner(buf)[1] == [DoubleSide, ' '] + buf + Repeat(' ', Pad(buf)) + [DoubleSide]
  {
    CStringWithoutNul(buf);
  }
}
