/** The meaning of the singly linked character list as an ordered sequence:
    what each index operation does to the contents, on the success path and
    on the out-of-range path (where the list is left exactly as it was). */
module ListSpec {

  /** `List_readByIndex` answers this character for an index out of range. */
  const NUL: char := 0 as char

  /** Insert positions run from 0 to the length inclusive. */
  predicate InsertIndexOk(s: seq<char>, i: int) {
    0 <= i <= |s|
  }

  /** Read and delete positions run from 0 to the length exclusive. */
  predicate ElementIndexOk(s: seq<char>, i: int) {
    0 <= i < |s|
  }

  /** Contents after `List_insert(list, i, c)`. */
  function InsertAt(s: seq<char>, i: int, c: char): (r: seq<char>)
    ensures InsertIndexOk(s, i) ==> |r| == |s| + 1
    ensures InsertIndexOk(s, i) ==>
      forall k :: 0 <= k < |r| ==> r[k] == (if k < i then s[k] else if k == i then c else s[k - 1])
    ensures !InsertIndexOk(s, i) ==> r == s
  {
    if InsertIndexOk(s, i) then s[..i] + [c] + s[i..] else s
  }

  /** Contents after `List_deleteByIndex(list, i)`. */
  function DeleteAt(s: seq<char>, i: int): (r: seq<char>)
    ensures ElementIndexOk(s, i) ==> |r| == |s| - 1
    ensures ElementIndexOk(s, i) ==>
      forall k :: 0 <= k < |r| ==> r[k] == (if k < i then s[k] else s[k + 1])
    ensures !ElementIndexOk(s, i) ==> r == s
  {
    if ElementIndexOk(s, i) then s[..i] + s[i + 1..] else s
  }

  /** Answer of `List_readByIndex(list, i)`. */
  function ReadAt(s: seq<char>, i: int): (r: char)
    ensures r == NUL <==> !ElementIndexOk(s, i) || s[i] == NUL
    ensures r != NUL ==> r in s
  {
    if ElementIndexOk(s, i) then s[i] else NUL
  }

  /** Appending is inserting at the end. */
  lemma AppendIsInsertAtEnd(s: seq<char>, c: char)
    ensures InsertAt(s, |s|, c) == s + [c]
  {
  }

  /** A character inserted at `i` is read back at `i`, and the length grows by one. */
  lemma ReadAfterInsert(s: seq<char>, i: int, c: char)
    requires InsertIndexOk(s, i)
    ensures ReadAt(InsertAt(s, i, c), i) == c
    ensures |InsertAt(s, i, c)| == |s| + 1
  {
  }

  /** Inserting and then deleting at the same index restores the contents. */
  lemma DeleteAfterInsert(s: seq<char>, i: int, c: char)
    requires InsertIndexOk(s, i)
    ensures DeleteAt(InsertAt(s, i, c), i) == s
  {
    var r := DeleteAt(InsertAt(s, i, c), i);
    assert |r| == |s|;
    forall k | 0 <= k < |s| ensures r[k] == s[k] {
    }
  }

  /** Deleting loses exactly the deleted element: no other character is
      dropped or duplicated. */
  lemma DeleteKeepsOthers(s: seq<char>, i: int)
    requires ElementIndexOk(s, i)
    ensures multiset(DeleteAt(s, i)) + multiset{s[i]} == multiset(s)
  {
    assert s == s[..i] + [s[i]] + s[i + 1..];
  }
}
