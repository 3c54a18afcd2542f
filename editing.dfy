/** The text box as a value: its contents and its cursor, and the five
    cursor edits as guarded transitions on that pair. Each transition is
    also described through the split of the contents at the cursor
    (`Left`, `Right`), a second description of each edit, and the ensures
    prove the two agree. */
module Editing {
  import opened ListSpec

  /** `TextBox` after `TextBox_init` and every edit: `text` is the list's
      contents and `cursor` is `cursor_index`. */
  datatype Editor = Editor(text: seq<char>, cursor: int)

  /** `TextBox_init`: empty text, cursor at 0. */
  const Initial: Editor := Editor([], 0)

  /** The cursor is a position between characters: `0 <= cursor_index <= size`. */
  predicate Inv(e: Editor) {
    0 <= e.cursor <= |e.text|
  }

  /** The characters before the cursor. */
  function Left(e: Editor): seq<char>
    requires Inv(e)
  {
    e.text[..e.cursor]
  }

  /** The characters after the cursor. */
  function Right(e: Editor): seq<char>
    requires Inv(e)
  {
    e.text[e.cursor..]
  }

  /** An editor is determined by the two sides of its cursor. */
  lemma SidesDetermineEditor(e: Editor, f: Editor)
    requires Inv(e) && Inv(f)
    requires Left(e) == Left(f) && Right(e) == Right(f)
    ensures e == f
  {
    assert e.text == Left(e) + Right(e);
    assert f.text == Left(f) + Right(f);
  }

  /** `TextBox_moveLeft`. */
  function MoveLeft(e: Editor): (r: Editor)
    ensures e.cursor == 0 ==> r == e
    ensures Inv(e) ==> Inv(r)
    ensures Inv(e) && e.cursor > 0 ==>
      Left(r) == Left(e)[..e.cursor - 1] && Right(r) == [e.text[e.cursor - 1]] + Right(e)
  {
    if e.cursor > 0 then e.(cursor := e.cursor - 1) else e
  }

  /** `TextBox_moveRight`. */
  function MoveRight(e: Editor): (r: Editor)
    ensures e.cursor == |e.text| ==> r == e
    ensures Inv(e) ==> Inv(r)
    ensures Inv(e) && e.cursor < |e.text| ==>
      Left(r) == Left(e) + [e.text[e.cursor]] && Right(r) == Right(e)[1..]
  {
    if e.cursor < |e.text| then e.(cursor := e.cursor + 1) else e
  }

  /** `TextBox_insert`: insert at the cursor, then advance the cursor. The
      cursor advances even if the list refused the index, as in the source;
      under `Inv` the index is never refused. */
  function Insert(e: Editor, ch: char): (r: Editor)
    ensures Inv(e) ==> Inv(r)
    ensures Inv(e) ==> Left(r) == Left(e) + [ch] && Right(r) == Right(e)
  {
    Editor(InsertAt(e.text, e.cursor, ch), e.cursor + 1)
  }

  /** `TextBox_deleteAfter`: delete the character at the cursor when there is
      one, then clamp the cursor to the new length. */
  function DeleteAfter(e: Editor): (r: Editor)
    ensures e.cursor >= |e.text| ==> r == e
    ensures Inv(e) ==> Inv(r)
    ensures Inv(e) && e.cursor < |e.text| ==>
      r.cursor == e.cursor && Left(r) == Left(e) && Right(r) == Right(e)[1..]
  {
    if e.cursor < |e.text| then
      var t := DeleteAt(e.text, e.cursor);
      Editor(t, if e.cursor > |t| then |t| else e.cursor)
    else
      e
  }

  /** `TextBox_deleteBefore`: delete the character in front of the cursor and
      step the cursor back, unless the cursor is at 0 or the text is empty. */
  function DeleteBefore(e: Editor): (r: Editor)
    ensures e.cursor <= 0 || |e.text| == 0 ==> r == e
    ensures Inv(e) ==> Inv(r)
    ensures Inv(e) && e.cursor > 0 ==>
      Left(r) == Left(e)[..e.cursor - 1] && Right(r) == Right(e)
  {
    if e.cursor > 0 && |e.text| > 0 then
      Editor(DeleteAt(e.text, e.cursor - 1), e.cursor - 1)
    else
      e
  }

  /** The clamp in `TextBox_deleteAfter` never fires from a state that
      satisfies the cursor invariant. */
  lemma DeleteAfterClampUnreachable(e: Editor)
    requires Inv(e) && e.cursor < |e.text|
    ensures !(e.cursor > |DeleteAt(e.text, e.cursor)|)
  {
  }

  /** Deleting the character typed just before the cursor undoes the typing. */
  lemma DeleteBeforeUndoesInsert(e: Editor, ch: char)
    requires Inv(e)
    ensures DeleteBefore(Insert(e, ch)) == e
  {
    SidesDetermineEditor(DeleteBefore(Insert(e, ch)), e);
  }

  /** Moving right undoes moving left, away from the left edge. */
  lemma MoveRightUndoesMoveLeft(e: Editor)
    requires Inv(e) && e.cursor > 0
    ensures MoveRight(MoveLeft(e)) == e
  {
  }
}
