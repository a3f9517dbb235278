/** The kernel's doubly linked lists, with the element count kept beside the links. */
module List {
  import opened Common
  import opened Arith

  class Node<T> {
    var next: Node?<T>
    var prev: Node?<T>
    var data: T

    constructor (data: T)
      ensures this.data == data && next == null && prev == null
    {
      this.data := data;
      next, prev := null, null;
    }
  }

  function At<T>(ns: seq<Node<T>>, i: int): Node?<T> {
    if 0 <= i < |ns| then ns[i] else null
  }

  /** Both links of node `i` lead to its neighbours. */
  ghost predicate LinkedAt<T>(ns: seq<Node<T>>, i: nat)
    requires i < |ns|
    reads ns
  {
    ns[i].next == At(ns, i + 1) && ns[i].prev == At(ns, i - 1)
  }

  /** The elements, first to last. */
  ghost function Data<T>(ns: seq<Node<T>>): (r: seq<T>)
    reads ns
    ensures |r| == |ns| && forall i :: 0 <= i < |ns| ==> r[i] == ns[i].data
  {
    seq(|ns|, i requires 0 <= i < |ns| reads ns => ns[i].data)
  }

  /** The nodes without node `i`. */
  ghost function Cut<T>(ns: seq<T>, i: nat): (r: seq<T>)
    requires i < |ns|
    ensures |r| == |ns| - 1 && forall k :: 0 <= k < |r| ==> r[k] == ns[if k < i then k else k + 1]
  {
    ns[..i] + ns[i + 1..]
  }

  lemma CutNoDup<T>(ns: seq<Node<T>>, i: nat)
    requires i < |ns| && NoDup(ns)
    ensures NoDup(Cut(ns, i))
  {}

  class List<T> {
    var head: Node?<T>
    var tail: Node?<T>
    var size: nat
    ghost var nodes: seq<Node<T>>

    ghost predicate Valid()
      reads this, nodes
    {
      && head == At(nodes, 0) && tail == At(nodes, |nodes| - 1) && NoDup(nodes)
      && forall i :: 0 <= i < |nodes| ==> LinkedAt(nodes, i)
    }

    ghost function Contents(): seq<T>
      reads this, nodes
    {
      Data(nodes)
    }

    constructor ()
      ensures Valid() && Contents() == [] && nodes == [] && size == 0
    {
      head, tail, size, nodes := null, null, 0, [];
    }

    /** `list_enqueue`. */
    method Enqueue(d: T)
      requires Valid()
      modifies this, nodes
      ensures Valid() && Contents() == old(Contents()) + [d] && size == old(size) + 1
      ensures |nodes| == |old(nodes)| + 1 && nodes[..|nodes| - 1] == old(nodes) && fresh(nodes[|nodes| - 1])
    {
      var node := new Node(d);
      node.prev := tail;
      if tail != null {
        assert LinkedAt(nodes, |nodes| - 1);
        tail.next := node;
      } else {
        head := node;
      }
      tail := node;
      size := size + 1;
      nodes := nodes + [node];
      forall i | 0 <= i < |nodes| ensures LinkedAt(nodes, i) {
        assert i < |nodes| - 1 ==> old(LinkedAt(nodes, i));
      }
    }

    /** `list_dequeue`; nothing happens to an empty list. */
    method Dequeue() returns (r: Option<T>)
      requires Valid()
      modifies this, nodes
      ensures Valid()
      ensures if old(nodes) == [] then r == None && unchanged(this)
        else
          && r == Some(old(Contents())[0]) && Contents() == old(Contents())[1..] && size == Decremented(old(size))
          && nodes == old(nodes)[1..]
    {
      if head == null { return None; }
      assert LinkedAt(nodes, 0);
      var first := head;
      head := head.next;
      if head != null {
        head.prev := null;
      } else {
        tail := null;
      }
      size := Decremented(size);
      nodes := nodes[1..];
      forall i | 0 <= i < |nodes| ensures LinkedAt(nodes, i) {
        assert old(LinkedAt(nodes, i + 1));
      }
      return Some(first.data);
    }

    /** `list_pop_back`; nothing happens to an empty list. */
    method PopBack() returns (r: Option<T>)
      requires Valid()
      modifies this, nodes
      ensures Valid()
      ensures if old(nodes) == [] then r == None && unchanged(this)
        else var n := |old(nodes)| - 1;
          && r == Some(old(Contents())[n]) && Contents() == old(Contents())[..n] && size == Decremented(old(size))
          && nodes == old(nodes)[..n]
    {
      if tail == null { return None; }
      assert LinkedAt(nodes, |nodes| - 1);
      var last := tail;
      tail := tail.prev;
      if tail != null {
        tail.next := null;
      } else {
        head := null;
      }
      size := Decremented(size);
      nodes := nodes[..|nodes| - 1];
      forall i | 0 <= i < |nodes| ensures LinkedAt(nodes, i) {
        assert old(LinkedAt(nodes, i));
      }
      return Some(last.data);
    }

    /** The walk of `list_get` and its kin. */
    method GetNode(i: nat) returns (node: Node<T>)
      requires Valid() && i < |nodes|
      ensures node == nodes[i]
    {
      node := head;
      var k := 0;
      while k < i
        invariant 0 <= k <= i && node == nodes[k]
      {
        assert LinkedAt(nodes, k);
        node := node.next;
        k := k + 1;
      }
    }

    /** `list_remove`: the element is unlinked, but not taken off `size`. */
    method Remove(i: nat) returns (r: T)
      requires Valid() && i < |nodes|
      modifies this, nodes
      ensures Valid() && r == old(Contents())[i] && Contents() == Cut(old(Contents()), i)
      ensures size == old(size) && nodes == Cut(old(nodes), i)
    {
      var node := GetNode(i);
      r := node.data;
      Unlink(node, i);
    }

    /** The neighbours of a node are linked to each other. */
    method Unlink(node: Node<T>, ghost i: nat)
      requires Valid() && i < |nodes| && node == nodes[i]
      modifies this, nodes
      ensures Valid() && nodes == Cut(old(nodes), i) && size == old(size)
      ensures forall n :: n in old(nodes) ==> n.data == old(n.data)
    {
      ghost var ns := nodes;
      assert LinkedAt(ns, i) && (i > 0 ==> LinkedAt(ns, i - 1)) && (i + 1 < |ns| ==> LinkedAt(ns, i + 1));
      if node.next != null {
        node.next.prev := node.prev;
      } else {
        tail := node.prev;
      }
      if node.prev != null {
        node.prev.next := node.next;
      } else {
        head := node.next;
      }
      CutNoDup(ns, i);
      nodes := Cut(ns, i);
      forall k | 0 <= k < |nodes| ensures LinkedAt(nodes, k) {
        assert nodes[k] == ns[if k < i then k else k + 1];
        assert old(LinkedAt(nodes, if k < i then k else k + 1));
      }
    }

    /** `list_clear`, which counts: it ends exactly when the count is not above the number of elements. */
    method Clear()
      requires Valid() && size <= |nodes|
      modifies this, nodes
      ensures Valid() && size == 0 && Contents() == old(Contents())[old(size)..]
    {
      ghost var n := 0;
      while size != 0
        invariant Valid() && 0 <= n <= old(size) && size == old(size) - n && |nodes| == |old(nodes)| - n
        invariant nodes == old(nodes)[n..] && Contents() == old(Contents())[n..]
        decreases size
      {
        var _ := Dequeue();
        n := n + 1;
      }
    }

    /** At most `n` rounds of `list_clear`, whatever the count: as many elements go as there are rounds, elements and
        counted elements.  The count comes down to 0 exactly when it is not above the number of elements and there are
        rounds enough. */
    method ClearFor(n: nat)
      requires Valid()
      modifies this, nodes
      ensures Valid()
      ensures var r := Min(n, Min(old(size), |old(nodes)|)); size == old(size) - r && |nodes| == |old(nodes)| - r
      ensures size == 0 <==> old(size) <= |old(nodes)| && old(size) <= n
    {
      if n > 0 && size != 0 {
        var _ := Dequeue();
        ClearFor(n - 1);
      }
    }
  }

  /** A list from which an element was removed while its count was right: no number of rounds clears it. */
  method RemoveThenClear<T>(l: List<T>, i: nat, n: nat)
    requires l.Valid() && l.size == |l.nodes| && i < |l.nodes|
    modifies l, l.nodes
    ensures l.Valid() && l.size > 0
  {
    var _ := l.Remove(i);
    l.ClearFor(n);
  }
}
