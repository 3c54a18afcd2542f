/** The singly linked character list: heap nodes `[data|next]` chained from
    `head`, and a `size` counter kept next to them. The ghost spine `Nodes`
    names the chain in order, so `Valid()` can say that `size` is the length
    of the chain reachable from `head` and that the chain spells `Contents`. */
module LinkedList {
  import opened ListSpec

  /** Whether an index operation was carried out or refused ("Index out of range!"). */
  datatype Status = Done | IndexOutOfRange

  /** A list node. Its character is written once, when the node is made;
      only the link is ever changed afterwards. */
  class Node {
    const data: char
    var next: Node?

    constructor (data: char)
      ensures this.data == data && next == null
    {
      this.data := data;
      next := null;
    }
  }

  /** No node occurs twice in `ns`. */
  ghost predicate Distinct(ns: seq<Node>) {
    forall i, j :: 0 <= i < j < |ns| ==> ns[i] != ns[j]
  }

  /** Each node of `ns` links to the next one, and the last one to null. */
  ghost predicate Linked(ns: seq<Node>)
    reads ns
  {
    forall i :: 0 <= i < |ns| ==> ns[i].next == (if i + 1 < |ns| then ns[i + 1] else null)
  }

  /** Every link of a linked chain, one index at a time. */
  lemma LinkedLinks(ns: seq<Node>)
    requires Linked(ns)
    ensures forall j :: 0 <= j < |ns| ==> ns[j].next == (if j + 1 < |ns| then ns[j + 1] else null)
  {
  }

  /** The characters held by `ns`, in order, are `s`. */
  ghost predicate Spells(ns: seq<Node>, s: seq<char>) {
    |ns| == |s| && forall i :: 0 <= i < |ns| ==> ns[i].data == s[i]
  }

  /** Splicing a new node into a chain keeps it free of repeats. */
  lemma DistinctAfterInsert(ns: seq<Node>, index: int, node: Node)
    requires Distinct(ns) && node !in ns && 0 <= index <= |ns|
    ensures Distinct(ns[..index] + [node] + ns[index..])
  {
    var r := ns[..index] + [node] + ns[index..];
    forall i, j | 0 <= i < j < |r| ensures r[i] != r[j] {
      if i != index && j != index {
        var i0 := if i < index then i else i - 1;
        var j0 := if j < index then j else j - 1;
        assert r[i] == ns[i0] && r[j] == ns[j0];
      } else if i == index {
        assert r[j] == ns[j - 1];
      } else {
        assert r[i] == ns[i];
      }
    }
  }

  /** Dropping a node from a chain keeps it free of repeats. */
  lemma DistinctAfterDelete(ns: seq<Node>, index: int)
    requires Distinct(ns) && 0 <= index < |ns|
    ensures Distinct(ns[..index] + ns[index + 1..])
  {
    var r := ns[..index] + ns[index + 1..];
    forall i, j | 0 <= i < j < |r| ensures r[i] != r[j] {
      var i0 := if i < index then i else i + 1;
      var j0 := if j < index then j else j + 1;
      assert r[i] == ns[i0] && r[j] == ns[j0];
    }
  }

  /** A node carrying `c` spliced in at `index` spells `c` spliced in there. */
  lemma SpellsAfterInsert(ns: seq<Node>, s: seq<char>, index: int, node: Node)
    requires Spells(ns, s) && 0 <= index <= |ns|
    ensures Spells(ns[..index] + [node] + ns[index..], InsertAt(s, index, node.data))
  {
    var r := ns[..index] + [node] + ns[index..];
    var t := InsertAt(s, index, node.data);
    forall k | 0 <= k < |r| ensures r[k].data == t[k] {
      if k < index {
        assert r[k] == ns[k];
      } else if k > index {
        assert r[k] == ns[k - 1];
      }
    }
  }

  /** Dropping the node at `index` drops its character. */
  lemma SpellsAfterDelete(ns: seq<Node>, s: seq<char>, index: int)
    requires Spells(ns, s) && 0 <= index < |ns|
    ensures Spells(ns[..index] + ns[index + 1..], DeleteAt(s, index))
  {
    var r := ns[..index] + ns[index + 1..];
    var t := DeleteAt(s, index);
    forall k | 0 <= k < |r| ensures r[k].data == t[k] {
      if k < index {
        assert r[k] == ns[k];
      } else {
        assert r[k] == ns[k + 1];
      }
    }
  }

  /** Links after `List_insert` has redirected the node in front of `index`
      (or `head`, when `index` is 0) to the new node. */
  lemma LinkedAfterInsert(ns: seq<Node>, index: int, node: Node)
    requires 0 <= index <= |ns|
    requires forall j :: 0 <= j < |ns| && j != index - 1 ==>
      ns[j].next == (if j + 1 < |ns| then ns[j + 1] else null)
    requires index > 0 ==> ns[index - 1].next == node
    requires node.next == (if index < |ns| then ns[index] else null)
    ensures Linked(ns[..index] + [node] + ns[index..])
  {
    var r := ns[..index] + [node] + ns[index..];
    forall k | 0 <= k < |r| ensures r[k].next == (if k + 1 < |r| then r[k + 1] else null) {
      if k < index - 1 {
        assert r[k] == ns[k] && r[k + 1] == ns[k + 1];
        assert ns[k].next == ns[k + 1];
      } else if k == index - 1 {
        assert r[k] == ns[k] && r[k + 1] == node;
      } else if k == index {
        assert r[k] == node;
        if k + 1 < |r| {
          assert r[k + 1] == ns[index];
        }
      } else {
        assert r[k] == ns[k - 1];
        assert ns[k - 1].next == (if k < |ns| then ns[k] else null);
        if k + 1 < |r| {
          assert r[k + 1] == ns[k];
        }
      }
    }
    assert Linked(r);
  }

  /** Links after `List_deleteByIndex` has redirected the node in front of
      `index` (or `head`, when `index` is 0) past the deleted node. */
  lemma LinkedAfterDelete(ns: seq<Node>, index: int)
    requires 0 <= index < |ns|
    requires forall j :: 0 <= j < |ns| && j != index - 1 && j != index ==>
      ns[j].next == (if j + 1 < |ns| then ns[j + 1] else null)
    requires index > 0 ==> ns[index - 1].next == (if index + 1 < |ns| then ns[index + 1] else null)
    ensures Linked(ns[..index] + ns[index + 1..])
  {
    var r := ns[..index] + ns[index + 1..];
    forall k | 0 <= k < |r| ensures r[k].next == (if k + 1 < |r| then r[k + 1] else null) {
      if k < index - 1 {
        assert r[k] == ns[k] && r[k + 1] == ns[k + 1];
        assert ns[k].next == ns[k + 1];
      } else if k == index - 1 {
        assert r[k] == ns[k];
        if k + 1 < |r| {
          assert r[k + 1] == ns[index + 1];
        }
      } else {
        assert r[k] == ns[k + 1];
        assert ns[k + 1].next == (if k + 2 < |ns| then ns[k + 2] else null);
        if k + 1 < |r| {
          assert r[k + 1] == ns[k + 2];
        }
      }
    }
    assert Linked(r);
  }

  /** `n->next = target`, where `n` is the node at position `k` of the
      chain `ns`, or no node of it when `k` is -1: the link out of `n` is
      `target`, and every other link of the chain is as it was. */
  method SetNext(n: Node, target: Node?, ghost ns: seq<Node>, ghost k: int)
    requires Distinct(ns) && -1 <= k < |ns|
    requires if k == -1 then n !in ns else ns[k] == n
    requires forall j :: 0 <= j < |ns| && j != k ==>
      ns[j].next == (if j + 1 < |ns| then ns[j + 1] else null)
    modifies n
    ensures n.next == target
    ensures forall j :: 0 <= j < |ns| && j != k ==>
      ns[j].next == (if j + 1 < |ns| then ns[j + 1] else null)
  {
    ghost var links := seq(|ns|, j requires 0 <= j < |ns| reads ns => ns[j].next);
    n.next := target;
    forall j | 0 <= j < |ns| && j != k
      ensures ns[j].next == (if j + 1 < |ns| then ns[j + 1] else null)
    {
      assert ns[j] != n;
      assert links[j] == old(ns[j].next);
    }
  }

  class CharList {
    var head: Node?
    var size: int

    ghost var Contents: seq<char>
    ghost var Nodes: seq<Node>
    ghost var Repr: set<object>

    /** The chain from `head` visits exactly `Nodes`, in order, once each,
        ends in null, holds `Contents`, and `size` counts it. */
    ghost predicate Valid()
      reads this, Repr
    {
      && this in Repr
      && (forall i :: 0 <= i < |Nodes| ==> Nodes[i] in Repr)
      && size == |Nodes|
      && Spells(Nodes, Contents)
      && Distinct(Nodes)
      && Linked(Nodes)
      && head == (if Nodes == [] then null else Nodes[0])
    }

    /** The link out of the node at position `k` of the chain. */
    lemma NextLink(k: int)
      requires Valid() && 0 <= k < |Nodes|
      ensures Nodes[k].next == (if k + 1 < |Nodes| then Nodes[k + 1] else null)
    {
    }

    /** The node reached from `head` after following `steps` links: the walk
        `node = node->next` shared by insert, delete and read. */
    method Walk(steps: int) returns (node: Node)
      requires Valid() && 0 <= steps < size
      ensures node == Nodes[steps]
    {
      node := head;
      var i := 0;
      while i < steps
        invariant 0 <= i <= steps && node == Nodes[i]
      {
        NextLink(i);
        node := node.next;
        i := i + 1;
      }
    }

    /** `List_init`: an empty list. */
    constructor ()
      ensures Valid() && fresh(Repr)
      ensures Contents == [] && head == null && size == 0
    {
      head := null;
      size := 0;
      Contents := [];
      Nodes := [];
      Repr := {this};
    }

    /** Make `r`, spelling `t`, the chain of the list, with `head` its first
        node, `size` its length and `rep` the objects the list owns. */
    method Commit(h: Node?, n: int, ghost r: seq<Node>, ghost t: seq<char>, ghost rep: set<object>)
      requires this in rep && forall i :: 0 <= i < |r| ==> r[i] in rep
      requires n == |r| && Spells(r, t) && Distinct(r) && Linked(r)
      requires h == (if r == [] then null else r[0])
      modifies this
      ensures Valid()
      ensures head == h && size == n && Nodes == r && Contents == t && Repr == rep
    {
      head := h;
      size := n;
      Contents := t;
      Nodes := r;
      Repr := rep;
    }

    /** Link `node` in front of the chain: `node->next = head; head = node`,
        and count it. */
    method LinkFirst(node: Node)
      requires Valid() && node !in Repr
      modifies this, node
      ensures Valid() && Repr == old(Repr) + {node}
      ensures Nodes == [node] + old(Nodes)
      ensures Contents == InsertAt(old(Contents), 0, node.data)
      ensures size == old(size) + 1
    {
      ghost var ns := Nodes;
      LinkedLinks(ns);
      SetNext(node, head, ns, -1);
      LinkedAfterInsert(ns, 0, node);
      DistinctAfterInsert(ns, 0, node);
      SpellsAfterInsert(ns, Contents, 0, node);
      Commit(node, size + 1, ns[..0] + [node] + ns[0..], InsertAt(Contents, 0, node.data), Repr + {node});
    }

    /** Link `node` right after `prev`, the node at position `k`:
        `node->next = prev->next; prev->next = node`, and count it. */
    method LinkAfter(prev: Node, ghost k: int, node: Node)
      requires Valid() && 0 <= k < |Nodes| && prev == Nodes[k] && node !in Repr
      modifies this, prev, node
      ensures Valid() && Repr == old(Repr) + {node}
      ensures Nodes == old(Nodes)[..k + 1] + [node] + old(Nodes)[k + 1..]
      ensures Contents == InsertAt(old(Contents), k + 1, node.data)
      ensures size == old(size) + 1
    {
      ghost var ns := Nodes;
      LinkedLinks(ns);
      NextLink(k);
      assert node != prev;
      SetNext(node, prev.next, ns, -1);
      SetNext(prev, node, ns, k);
      LinkedAfterInsert(ns, k + 1, node);
      DistinctAfterInsert(ns, k + 1, node);
      SpellsAfterInsert(ns, Contents, k + 1, node);
      Commit(head, size + 1, ns[..k + 1] + [node] + ns[k + 1..], InsertAt(Contents, k + 1, node.data), Repr + {node});
    }

    /** Unlink the first node: `head = head->next`, and uncount it. */
    method UnlinkFirst()
      requires Valid() && 0 < size
      modifies this
      ensures Valid() && Repr == old(Repr)
      ensures Nodes == old(Nodes)[1..]
      ensures Contents == DeleteAt(old(Contents), 0)
      ensures size == old(size) - 1
    {
      ghost var ns := Nodes;
      NextLink(0);
      LinkedLinks(ns);
      LinkedAfterDelete(ns, 0);
      DistinctAfterDelete(ns, 0);
      SpellsAfterDelete(ns, Contents, 0);
      Commit(head.next, size - 1, ns[..0] + ns[1..], DeleteAt(Contents, 0), Repr);
    }

    /** Unlink the node after `prev`, the node at position `k`:
        `prev->next = prev->next->next`, and uncount it. */
    method UnlinkAfter(prev: Node, ghost k: int)
      requires Valid() && 0 <= k && k + 1 < |Nodes| && prev == Nodes[k]
      modifies this, prev
      ensures Valid() && Repr == old(Repr)
      ensures Nodes == old(Nodes)[..k + 1] + old(Nodes)[k + 2..]
      ensures Contents == DeleteAt(old(Contents), k + 1)
      ensures size == old(size) - 1
    {
      ghost var ns := Nodes;
      LinkedLinks(ns);
      NextLink(k);
      NextLink(k + 1);
      SetNext(prev, prev.next.next, ns, k);
      LinkedAfterDelete(ns, k + 1);
      DistinctAfterDelete(ns, k + 1);
      SpellsAfterDelete(ns, Contents, k + 1);
      Commit(head, size - 1, ns[..k + 1] + ns[k + 2..], DeleteAt(Contents, k + 1), Repr);
    }

    /** `List_append`: on an empty list the new node becomes `head`;
        otherwise walk to the last node and link the new one after it. */
    method Append(data: char)
      requires Valid()
      modifies Repr
      ensures Valid() && fresh(Repr - old(Repr))
      ensures Contents == old(Contents) + [data]
      ensures size == old(size) + 1
    {
      var node := new Node(data);
      if head == null {
        LinkFirst(node);
      } else {
        var last := head;
        ghost var k := 0;
        while last.next != null
          invariant 0 <= k < |Nodes| && last == Nodes[k]
          modifies {}
          decreases |Nodes| - k
        {
          NextLink(k);
          last := last.next;
          k := k + 1;
        }
        NextLink(k);
        LinkAfter(last, k, node);
      }
      AppendIsInsertAtEnd(old(Contents), data);
    }

    /** `List_insert`: refuse an index outside `0..size`; otherwise link a
        new node in front of position `index`. */
    method Insert(index: int, data: char) returns (status: Status)
      requires Valid()
      modifies Repr
      ensures Valid() && fresh(Repr - old(Repr))
      ensures status == (if 0 <= index <= old(size) then Done else IndexOutOfRange)
      ensures Contents == InsertAt(old(Contents), index, data)
      ensures status == Done ==> size == old(size) + 1
      ensures status == IndexOutOfRange ==> unchanged(old(Repr)) && Repr == old(Repr)
    {
      if index < 0 || index > size {
        return IndexOutOfRange;
      }
      var node := new Node(data);
      if index == 0 {
        LinkFirst(node);
      } else {
        var prev := Walk(index - 1);
        LinkAfter(prev, index - 1, node);
      }
      status := Done;
    }

    /** `List_deleteByIndex`: refuse an index outside `0..size-1`; otherwise
        unlink the node at position `index`. */
    method DeleteByIndex(index: int) returns (status: Status)
      requires Valid()
      modifies Repr
      ensures Valid() && fresh(Repr - old(Repr))
      ensures status == (if 0 <= index < old(size) then Done else IndexOutOfRange)
      ensures Contents == DeleteAt(old(Contents), index)
      ensures status == Done ==> size == old(size) - 1
      ensures status == IndexOutOfRange ==> unchanged(old(Repr)) && Repr == old(Repr)
    {
      if index < 0 || index >= size {
        return IndexOutOfRange;
      }
      if index == 0 {
        UnlinkFirst();
      } else {
        var prev := Walk(index - 1);
        UnlinkAfter(prev, index - 1);
      }
      status := Done;
    }

    /** `List_readByIndex`: the character at `index`, or NUL out of range. */
    method ReadByIndex(index: int) returns (c: char)
      requires Valid()
      ensures c == ReadAt(Contents, index)
    {
      if index < 0 || index >= size {
        return NUL;
      }
      var node := Walk(index);
      c := node.data;
    }

    /** Read every index in turn, as the walk-through does after its edits. */
    method ReadAll() returns (read: seq<char>)
      requires Valid()
      ensures read == Contents
    {
      read := [];
      var i := 0;
      while i < size
        invariant 0 <= i <= size
        invariant read == Contents[..i]
      {
        var ch := ReadByIndex(i);
        read := read + [ch];
        i := i + 1;
      }
    }

    /** `List_free`: drop every node; the list is empty again. */
    method Free()
      requires Valid()
      modifies this
      ensures Valid() && fresh(Repr - old(Repr))
      ensures Contents == [] && head == null && size == 0
    {
      head := null;
      size := 0;
      Contents := [];
      Nodes := [];
      Repr := {this};
    }
  }

  /** The edits of the list walk-through of `runLinkedListDemo`: append A,
      B and C to a new list, insert X at index 1, delete index 2. */
  method DemoEdits() returns (list: CharList)
    ensures fresh(list) && list.Valid()
    ensures list.Contents == "AXC"
  {
    list := new CharList();
    list.Append('A');
    list.Append('B');
    list.Append('C');
    assert list.Contents == "ABC";
    var _ := list.Insert(1, 'X');
    assert list.Contents == "AXBC";
    var _ := list.DeleteByIndex(2);
  }

  /** The list walk-through of `runLinkedListDemo`: the edits, then a read
      of every index, then the list freed. */
  method Demo() returns (read: seq<char>)
    ensures read == "AXC"
  {
    var list := DemoEdits();
    read := list.ReadAll();
    list.Free();
  }
}
