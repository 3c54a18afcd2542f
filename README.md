# BubbleText: a line editor over a singly linked list, in Dafny

BubbleText is a small terminal line editor written in C. It keeps the
typed text in a singly linked list of characters (`List`). A `TextBox`
holds that list and a cursor index. An edit loop reads key codes, decodes
the arrow keys, Backspace, Ctrl-D, Enter and the printable keys, and
applies the matching cursor edit. After every key it draws the text in a
speech bubble, with `|` marking the cursor. When Enter ends editing, it
copies the text into a NUL-terminated buffer and prints it inside a
double-lined banner.

This project models those three layers and proves what they promise.

- **The list** (`list_spec.dfy`, `linked_list.dfy`).
  - `CharList` is a class over heap `Node`s linked through `next`.
  - A ghost spine `Nodes` names the chain in order, and `Valid()` ties it
    together: `size` is the length of the chain reachable from `head`,
    the chain ends in null, has no repeated node, and spells the ghost
    `Contents`.
  - Append, insert, delete, read and free are proved against the sequence
    operations `InsertAt`, `DeleteAt` and `ReadAt` of module `ListSpec`.
    Out-of-range indices leave every object unchanged.
- **The editor** (`editing.dfy`, `text_box.dfy`).
  - `Editing` models the pair (text, cursor) as a value. The five cursor
    edits are guarded transitions on it.
  - Each transition is specified through the split of the text at the
    cursor (`Left`, `Right`). Each one is proved to keep
    `0 <= cursor <= size`.
  - Class `TextBox` holds a `CharList` and a cursor. Each of its methods
    is proved to change `State()` exactly as the matching transition does.
- **Keys and drawing** (`keys.dfy`, `render.dfy`, `text_box.dfy`).
  - `Keys.Run` is the edit loop over a finite sequence of key codes. It
    reads one, two or three codes per key press.
  - `Run` is proved equal to a code-at-a-time automaton on every input,
    and proved to keep the cursor invariant and a printable text.
  - `Render` gives the bubble and banner lines as the characters written.
    Lemmas state alignment, where the cursor mark sits, and the banner
    width and padding.
  - `TextBox.EditLoop` is the imperative loop. It is proved to reach the
    state `Run` prescribes and, when it ends on Enter, to draw what
    `Render` prescribes.

Input and output are values:

- The keys are a `seq<int>` parameter. A read past its end yields EOF
  (-1), as `getch` does at end of input.
- The first code answers "Press any key to start editing", so a session
  decodes from index 1.
- `isprint` is taken in the C locale, so codes 32 to 126 are printable.
- The drawings are returned as sequences of lines. Each line is a
  `seq<char>` holding the box-drawing characters themselves.

## Model

All of the modelled code is in `bubbleTextBoxbyLinkedList/bubbleTextBoxbyLinkedList.cpp`.

| member | source | states |
|---|---|---|
| ListSpec.InsertAt | bubbleTextBoxbyLinkedList/bubbleTextBoxbyLinkedList.cpp:202-224 | for an index in `0..size`: one longer; characters before the index unchanged; the new character at the index; the rest shifted up by one. Out of range: contents unchanged |
| ListSpec.DeleteAt | bubbleTextBoxbyLinkedList/bubbleTextBoxbyLinkedList.cpp:244-265 | for an index in `0..size-1`: one shorter; characters before the index unchanged; the rest shifted down by one (order kept). Out of range: contents unchanged |
| ListSpec.ReadAt | bubbleTextBoxbyLinkedList/bubbleTextBoxbyLinkedList.cpp:307-316 | `List_readByIndex`'s answer: the character at an index in `0..size-1`, NUL out of range; so NUL comes back exactly when the index is out of range or a NUL is stored there, and any other answer is a character of the list |
| ListSpec.AppendIsInsertAtEnd | bubbleTextBoxbyLinkedList/bubbleTextBoxbyLinkedList.cpp:167-182 | appending is inserting at index `size` |
| ListSpec.ReadAfterInsert | bubbleTextBoxbyLinkedList/bubbleTextBoxbyLinkedList.cpp:202-224 | after an in-range insert, reading the same index yields the inserted character, and the length grew by one |
| ListSpec.DeleteAfterInsert | bubbleTextBoxbyLinkedList/bubbleTextBoxbyLinkedList.cpp:202-265 | inserting and then deleting at the same in-range index restores the contents |
| ListSpec.DeleteKeepsOthers | bubbleTextBoxbyLinkedList/bubbleTextBoxbyLinkedList.cpp:244-265 | a delete loses exactly the deleted character: the multiset of the rest is unchanged |
| LinkedList.LinkedAfterInsert | bubbleTextBoxbyLinkedList/bubbleTextBoxbyLinkedList.cpp:210-222 | redirecting `head` or the node before the index to the new node, with the new node linked to the old node at the index, leaves a chain that visits the spliced spine in order |
| LinkedList.LinkedAfterDelete | bubbleTextBoxbyLinkedList/bubbleTextBoxbyLinkedList.cpp:250-263 | redirecting `head` or the node before the index past the deleted node leaves a chain that visits the spine without it, in order |
| LinkedList.DistinctAfterInsert | bubbleTextBoxbyLinkedList/bubbleTextBoxbyLinkedList.cpp:207-222 | splicing a node that is not yet in the chain keeps the chain free of repeated nodes |
| LinkedList.DistinctAfterDelete | bubbleTextBoxbyLinkedList/bubbleTextBoxbyLinkedList.cpp:250-263 | dropping a node from the chain keeps it free of repeated nodes |
| LinkedList.SpellsAfterInsert | bubbleTextBoxbyLinkedList/bubbleTextBoxbyLinkedList.cpp:207-222 | the spine with the new node spliced in at the index spells `InsertAt` of the old contents with its character |
| LinkedList.SpellsAfterDelete | bubbleTextBoxbyLinkedList/bubbleTextBoxbyLinkedList.cpp:250-263 | the spine without the node at the index spells `DeleteAt` of the old contents |
| LinkedList.SetNext | bubbleTextBoxbyLinkedList/bubbleTextBoxbyLinkedList.cpp:220-221 | one `next` write (also the writes at lines 212 and 261): the node now points at the target, and every other node of the chain keeps its link to its successor |
| LinkedList.CharList.Walk | bubbleTextBoxbyLinkedList/bubbleTextBoxbyLinkedList.cpp:217-219 | following `next` from `head` `steps` times reaches the node at position `steps` of the chain |
| LinkedList.CharList.constructor | bubbleTextBoxbyLinkedList/bubbleTextBoxbyLinkedList.cpp:356-358 | `head` null, `size` 0, empty contents, a valid list |
| LinkedList.CharList.LinkFirst | bubbleTextBoxbyLinkedList/bubbleTextBoxbyLinkedList.cpp:210-213 | the new node becomes `head` and links to the old first node: the spine gains it at the front, the contents gain its character at index 0, `size` grows by one, and the list stays valid |
| LinkedList.CharList.LinkAfter | bubbleTextBoxbyLinkedList/bubbleTextBoxbyLinkedList.cpp:217-221 | the new node is linked between the node at position `k` and its successor: the spine gains it at `k + 1`, the contents gain its character there, `size` grows by one, and the list stays valid |
| LinkedList.CharList.UnlinkFirst | bubbleTextBoxbyLinkedList/bubbleTextBoxbyLinkedList.cpp:250-253 | `head` moves to the second node: the spine and the contents lose their first element, `size` drops by one, and the list stays valid |
| LinkedList.CharList.UnlinkAfter | bubbleTextBoxbyLinkedList/bubbleTextBoxbyLinkedList.cpp:256-262 | the node at position `k` links past its successor: the spine and the contents lose the element at `k + 1`, `size` drops by one, and the list stays valid |
| LinkedList.CharList.Append | bubbleTextBoxbyLinkedList/bubbleTextBoxbyLinkedList.cpp:167-182 | contents become old contents plus the character at the end; `size` grows by exactly one; the list stays valid, so `size` still counts the reachable nodes |
| LinkedList.CharList.Insert | bubbleTextBoxbyLinkedList/bubbleTextBoxbyLinkedList.cpp:202-224 | refused exactly when the index is outside `0..size`, and then no object changes; otherwise contents become `InsertAt(old, index, c)` and `size` grows by one |
| LinkedList.CharList.DeleteByIndex | bubbleTextBoxbyLinkedList/bubbleTextBoxbyLinkedList.cpp:244-265 | refused exactly when the index is outside `0..size-1`, and then no object changes; otherwise contents become `DeleteAt(old, index)` and `size` drops by one |
| LinkedList.CharList.ReadByIndex | bubbleTextBoxbyLinkedList/bubbleTextBoxbyLinkedList.cpp:307-316 | the character at the index, or NUL out of range; changes nothing |
| LinkedList.CharList.ReadAll | bubbleTextBoxbyLinkedList/bubbleTextBoxbyLinkedList.cpp:651-655 | reading every index from 0 to `size - 1` in turn yields exactly the contents |
| LinkedList.CharList.Free | bubbleTextBoxbyLinkedList/bubbleTextBoxbyLinkedList.cpp:334-343 | `head` null, `size` 0, empty contents, a valid list |
| LinkedList.DemoEdits | bubbleTextBoxbyLinkedList/bubbleTextBoxbyLinkedList.cpp:632-649 | appending A, B, C to a new list, inserting X at 1 and deleting index 2 leave a valid list holding "AXC" |
| LinkedList.Demo | bubbleTextBoxbyLinkedList/bubbleTextBoxbyLinkedList.cpp:630-658 | after those edits, reading every index yields "AXC" |
| Editing.MoveLeft | bubbleTextBoxbyLinkedList/bubbleTextBoxbyLinkedList.cpp:439-443 | no change at cursor 0; otherwise the character before the cursor moves to the right side; keeps `0 <= cursor <= size` |
| Editing.MoveRight | bubbleTextBoxbyLinkedList/bubbleTextBoxbyLinkedList.cpp:446-450 | no change at cursor == size; otherwise the character after the cursor moves to the left side; keeps the cursor invariant |
| Editing.Insert | bubbleTextBoxbyLinkedList/bubbleTextBoxbyLinkedList.cpp:453-456 | the left side gains the character at its end and the right side is unchanged; keeps the cursor invariant |
| Editing.DeleteAfter | bubbleTextBoxbyLinkedList/bubbleTextBoxbyLinkedList.cpp:459-466 | no change at cursor == size; otherwise the first character of the right side is removed and the cursor stays; keeps the cursor invariant |
| Editing.DeleteBefore | bubbleTextBoxbyLinkedList/bubbleTextBoxbyLinkedList.cpp:469-474 | no change at cursor 0 or on an empty text; otherwise the last character of the left side is removed and the cursor steps back; keeps the cursor invariant |
| Editing.DeleteAfterClampUnreachable | bubbleTextBoxbyLinkedList/bubbleTextBoxbyLinkedList.cpp:462-464 | the clamp of the cursor after a delete-after never fires when the cursor invariant holds |
| Editing.DeleteBeforeUndoesInsert | bubbleTextBoxbyLinkedList/bubbleTextBoxbyLinkedList.cpp:453-474 | Backspace right after typing a character restores text and cursor |
| Editing.MoveRightUndoesMoveLeft | bubbleTextBoxbyLinkedList/bubbleTextBoxbyLinkedList.cpp:439-450 | away from the left edge, left then right restores the cursor |
| Keys.DecodeAt | bubbleTextBoxbyLinkedList/bubbleTextBoxbyLinkedList.cpp:491-509 | a key press takes 1 to 3 codes, and more than one exactly when it starts with ESC; it is Enter exactly when the code is CR or LF; an inserted character is printable and takes one code |
| Keys.Apply | bubbleTextBoxbyLinkedList/bubbleTextBoxbyLinkedList.cpp:492-509 | the edit one decoded key press makes: Enter and ignored keys leave the editor unchanged, arrows keep the text, and with the cursor in the text typing adds one character, an effective Backspace or Ctrl-D removes one, and nothing else changes the length |
| Keys.Run | bubbleTextBoxbyLinkedList/bubbleTextBoxbyLinkedList.cpp:489-510 | the loop from a given code index: when it reports Enter it has met a CR or LF code at or after that index |
| Keys.Session | bubbleTextBoxbyLinkedList/bubbleTextBoxbyLinkedList.cpp:488-510 | the whole session after the start key: it finishes only if a CR or LF code follows the start key, and with no codes after the start key it leaves the empty editor unfinished |
| Keys.EofChangesNothing | bubbleTextBoxbyLinkedList/bubbleTextBoxbyLinkedList.cpp:491-509 | past the end of the input every read is EOF, which the dispatch ignores, so stopping there loses no edit |
| Keys.ApplyKeepsInv | bubbleTextBoxbyLinkedList/bubbleTextBoxbyLinkedList.cpp:439-474 | every edit a key press selects keeps `0 <= cursor <= size` |
| Keys.ApplyKeepsPrintable | bubbleTextBoxbyLinkedList/bubbleTextBoxbyLinkedList.cpp:501-509 | every edit keeps the text printable: only codes `isprint` accepts are inserted |
| Keys.RunKeepsInv | bubbleTextBoxbyLinkedList/bubbleTextBoxbyLinkedList.cpp:489-510 | the edit loop keeps the cursor within the text from any valid start |
| Keys.RunKeepsPrintable | bubbleTextBoxbyLinkedList/bubbleTextBoxbyLinkedList.cpp:489-510 | the edit loop keeps the text printable from any printable start |
| Keys.SessionWellFormed | bubbleTextBoxbyLinkedList/bubbleTextBoxbyLinkedList.cpp:488-510 | after any session started from the empty text box, the cursor is within the text and the text is printable |
| Keys.EscapeDiscards | bubbleTextBoxbyLinkedList/bubbleTextBoxbyLinkedList.cpp:493-500 | ESC then anything but `[` takes exactly two codes and has no effect; ESC `[` then anything but `D`/`C` takes exactly three; the codes taken are not dispatched again |
| Keys.EnterAfterEscIsSwallowed | bubbleTextBoxbyLinkedList/bubbleTextBoxbyLinkedList.cpp:492-495 | CR or LF right after ESC does not end editing |
| Keys.RunIsFeedAll | bubbleTextBoxbyLinkedList/bubbleTextBoxbyLinkedList.cpp:489-510 | the loop that reads a whole key press per turn agrees, on every input, with a three-state reader fed one code at a time |
| Keys.TypeStep | bubbleTextBoxbyLinkedList/bubbleTextBoxbyLinkedList.cpp:507-508 | a printable code inserts its character at the cursor and the loop goes on with the next code |
| Keys.LeftStep | bubbleTextBoxbyLinkedList/bubbleTextBoxbyLinkedList.cpp:493-497 | ESC `[` `D` moves the cursor left and the loop goes on three codes later |
| Keys.RightStep | bubbleTextBoxbyLinkedList/bubbleTextBoxbyLinkedList.cpp:493-498 | ESC `[` `C` moves the cursor right and the loop goes on three codes later |
| Keys.EraseStep | bubbleTextBoxbyLinkedList/bubbleTextBoxbyLinkedList.cpp:501-503 | code 127 or 8 erases the character before the cursor and the loop goes on with the next code |
| Keys.CtrlDStep | bubbleTextBoxbyLinkedList/bubbleTextBoxbyLinkedList.cpp:504-506 | code 4 erases the character at the cursor and the loop goes on with the next code |
| Keys.IgnoredStep | bubbleTextBoxbyLinkedList/bubbleTextBoxbyLinkedList.cpp:491-509 | any other code that is not Enter, ESC, 127, 8, 4 or printable is skipped without an edit |
| Keys.ExampleTyping | bubbleTextBoxbyLinkedList/bubbleTextBoxbyLinkedList.cpp:488-509 | the start key and "ABC" leave "ABC" with the cursor at 3 |
| Keys.ExampleArrows | bubbleTextBoxbyLinkedList/bubbleTextBoxbyLinkedList.cpp:493-509 | two left arrows and "X" turn "ABC" into "AXBC" with the cursor at 2 |
| Keys.ExampleEnding | bubbleTextBoxbyLinkedList/bubbleTextBoxbyLinkedList.cpp:492-505 | Ctrl-D, Backspace and Enter turn "AXBC" with the cursor at 2 into "AC" with the cursor at 1 and end editing |
| Keys.ExampleSession | bubbleTextBoxbyLinkedList/bubbleTextBoxbyLinkedList.cpp:488-510 | after any start key, a full session of typing, arrows, Ctrl-D, Backspace and Enter ends on Enter with "AC" and the cursor at 1 |
| Render.Repeat | bubbleTextBoxbyLinkedList/bubbleTextBoxbyLinkedList.cpp:408-410 | exactly `n` copies of the character, none when `n` is not positive |
| Render.BubbleTop | bubbleTextBoxbyLinkedList/bubbleTextBoxbyLinkedList.cpp:407-411 | the top line: `╭`, then `len + 1` dashes, then `╮` |
| Render.BubbleMiddle | bubbleTextBoxbyLinkedList/bubbleTextBoxbyLinkedList.cpp:415-427 | the middle line between two `│`: with the cursor in the text, the characters before it, the cursor mark `|`, then the rest, `len + 3` wide; a cursor outside the text shows the text alone |
| Render.BubbleBottom | bubbleTextBoxbyLinkedList/bubbleTextBoxbyLinkedList.cpp:430-434 | the bottom line: `╰`, then `len + 1` dashes, then `╯` |
| Render.Bubble | bubbleTextBoxbyLinkedList/bubbleTextBoxbyLinkedList.cpp:402-436 | `TextBox_printBubble` draws three lines, starting with `╭`, `│` and `╰` |
| Render.BubbleAligned | bubbleTextBoxbyLinkedList/bubbleTextBoxbyLinkedList.cpp:402-436 | with the cursor in the text, the three bubble lines have the same width, `len + 3`; the borders hold `len + 1` dashes |
| Render.BubbleShowsTextAndCursor | bubbleTextBoxbyLinkedList/bubbleTextBoxbyLinkedList.cpp:415-427 | with the cursor in the text, the mark stands right after the `cursor` characters in front of it, and removing it leaves the text, in order, between the borders |
| Render.BubbleCursorCount | bubbleTextBoxbyLinkedList/bubbleTextBoxbyLinkedList.cpp:415-427 | the content line shows exactly one mark more than the text holds `|` characters when the cursor is in the text, and none more otherwise |
| Render.CString | bubbleTextBoxbyLinkedList/bubbleTextBoxbyLinkedList.cpp:564-566 | what `%s` and `strlen` see: the longest NUL-free prefix, followed by NUL or by the end of the buffer |
| Render.CStringWithoutNul | bubbleTextBoxbyLinkedList/bubbleTextBoxbyLinkedList.cpp:564-566 | a buffer without NUL is seen whole |
| Render.CStringOfTerminated | bubbleTextBoxbyLinkedList/bubbleTextBoxbyLinkedList.cpp:553-556 | the terminator after the copied characters does not change the string they spell |
| Render.BarWidth | bubbleTextBoxbyLinkedList/bubbleTextBoxbyLinkedList.cpp:561 | the bar is `max(20, len + 2)` |
| Render.Pad | bubbleTextBoxbyLinkedList/bubbleTextBoxbyLinkedList.cpp:566-567 | the padding after the message is at least one space and brings the middle line to the width of the bars plus the two corners |
| Render.Banner | bubbleTextBoxbyLinkedList/bubbleTextBoxbyLinkedList.cpp:560-571 | three lines: `╔`, copies of `═`, `╗` on top; `╚`, copies of `═`, `╝` at the bottom; in between a line that starts with `║ `, shows the buffer up to its first NUL, and ends with `║` |
| Render.BannerAligned | bubbleTextBoxbyLinkedList/bubbleTextBoxbyLinkedList.cpp:560-571 | the three banner lines all have width `bar + 2`, for every buffer |
| Render.BannerShowsMessage | bubbleTextBoxbyLinkedList/bubbleTextBoxbyLinkedList.cpp:564-567 | a NUL-free message is shown whole, padded with `bar - len - 1` spaces, at least one |
| TextBoxes.Emit | bubbleTextBoxbyLinkedList/bubbleTextBoxbyLinkedList.cpp:562 | the drawing loops append exactly `Repeat(c, n)` |
| TextBoxes.TextBox.constructor | bubbleTextBoxbyLinkedList/bubbleTextBoxbyLinkedList.cpp:579-581 | an empty valid list with the cursor at 0, which lies within the text |
| TextBoxes.TextBox.MoveLeft | bubbleTextBoxbyLinkedList/bubbleTextBoxbyLinkedList.cpp:439-443 | the state changes as `Editing.MoveLeft` prescribes; nothing else changes |
| TextBoxes.TextBox.MoveRight | bubbleTextBoxbyLinkedList/bubbleTextBoxbyLinkedList.cpp:446-450 | the state changes as `Editing.MoveRight` prescribes; nothing else changes |
| TextBoxes.TextBox.Insert | bubbleTextBoxbyLinkedList/bubbleTextBoxbyLinkedList.cpp:453-456 | the list insert at the cursor and the cursor step give the state `Editing.Insert` prescribes |
| TextBoxes.TextBox.DeleteAfter | bubbleTextBoxbyLinkedList/bubbleTextBoxbyLinkedList.cpp:459-466 | the list delete at the cursor and the clamp give the state `Editing.DeleteAfter` prescribes |
| TextBoxes.TextBox.DeleteBefore | bubbleTextBoxbyLinkedList/bubbleTextBoxbyLinkedList.cpp:469-474 | the list delete before the cursor and the step back give the state `Editing.DeleteBefore` prescribes |
| TextBoxes.TextBox.PrintBubble | bubbleTextBoxbyLinkedList/bubbleTextBoxbyLinkedList.cpp:402-436 | the border loops and the content line draw exactly `Render.Bubble` of the contents and cursor |
| TextBoxes.TextBox.PrintContent | bubbleTextBoxbyLinkedList/bubbleTextBoxbyLinkedList.cpp:415-427 | the position-by-position loop that reads each character from the list draws exactly `Render.BubbleMiddle` |
| TextBoxes.TextBox.MessageBuffer | bubbleTextBoxbyLinkedList/bubbleTextBoxbyLinkedList.cpp:550-556 | a fresh array of `size + 1` characters holding the contents and a final NUL |
| TextBoxes.TextBox.PrintBanner | bubbleTextBoxbyLinkedList/bubbleTextBoxbyLinkedList.cpp:549-571 | the bar, `strlen` padding and drawing loops draw exactly `Render.Banner` of the contents |
| TextBoxes.TextBox.HandleKey | bubbleTextBoxbyLinkedList/bubbleTextBoxbyLinkedList.cpp:491-509 | one turn of the loop ends editing exactly on Enter, changes the state as `Keys.Apply` of the decoded key press prescribes, and consumes as many codes as the decoder reads |
| TextBoxes.TextBox.EditLoop | bubbleTextBoxbyLinkedList/bubbleTextBoxbyLinkedList.cpp:488-516 | the in-place loop over the key codes ends in the state, and with the finished flag, that `Keys.Run` prescribes from index 1, and keeps the cursor within the text; only when it ends on Enter does it draw the final bubble and the banner, otherwise it draws nothing more |
| TextBoxes.RunEditor | bubbleTextBoxbyLinkedList/bubbleTextBoxbyLinkedList.cpp:621-627 | a new text box edited over the keys finishes as `Keys.Session` does; when that session ends on Enter it draws the session's bubble and banner, otherwise nothing |
| TextBoxes.SessionBannerShowsText | bubbleTextBoxbyLinkedList/bubbleTextBoxbyLinkedList.cpp:549-571 | the banner over the text any session leaves (drawn when it ends on Enter) shows the whole text, followed by at least one space before its right border |

## Left out

- Terminal control is not modelled: clearing the screen, raw-mode `getch`, the welcome and "Done" texts and `fflush`. Key codes are a parameter and drawings are returned lines.
- The bubble drawn before each key inside the loop is not recorded. Only the final bubble and the banner are returned, and they are drawn by the same method.
- The list dump, the index and arrow rows of the summary, `List_print` and the title line of the banner are presentation only.
- The function-pointer fields bound by `List_init` and `TextBox_init` are not modelled. The model calls the operations directly.
- The "Index out of range!" message of `List_insert` and `List_deleteByIndex` is modelled as the `IndexOutOfRange` status that `CharList.Insert` and `CharList.DeleteByIndex` return. The same message printed by `List_readByIndex` (line 309) is not modelled; `CharList.ReadByIndex` returns only its NUL answer.
- `malloc` failure is not modelled, because allocation cannot fail in Dafny. `free` is not modelled either: `CharList.Free` resets the list, and deleted nodes are only unlinked.
- `Append` links its new node through `LinkFirst` or `LinkAfter`, which set the node's `next` to `head` or to the last node's `next`. Both are null there, the value the source writes directly.
- `CharList.Free` has no loop. Walking the chain only to release memory has no counterpart in Dafny.
- `Keys.Run` stops at the end of the input with `finished` false. The real loop keeps reading EOF and never ends. `Keys.EofChangesNothing` shows that no edit is lost by stopping there.
- TextBoxes.TextBox.EditLoop, TextBoxes.RunEditor: when the input ends before Enter they return empty drawings. The real program never gets past its loop then, so the final bubble and banner (lines 512-575) are never drawn.
- C `int` overflow of `size`, `cursor_index`, `len + 2` and the `(char)` cast is not modelled. Integers are unbounded; only codes 32 to 126 are ever cast.
- `isprint` is taken in the C locale. Other locales may accept more codes.
- The UTF-8 byte encoding of the box-drawing characters is not modelled. Each one is a single `char`, one terminal column wide.
