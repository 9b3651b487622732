/** The single-linked list of util.c with its tail pointer. */
module LinkedList {

  class Node<T> {
    var data: T
    var next: Node?<T>

    constructor (data: T, next: Node?<T>)
      ensures this.data == data && this.next == next
    {
      this.data, this.next := data, next;
    }
  }

  /** The nodes are a chain: each is linked to the one behind it, the last to nothing. */
  ghost predicate Chained<T>(nodes: seq<Node<T>>)
    reads nodes
  {
    && (forall i, j :: 0 <= i < j < |nodes| ==> nodes[i] != nodes[j])
    && (forall i :: 0 <= i < |nodes| - 1 ==> nodes[i].next == nodes[i + 1])
    && (nodes != [] ==> nodes[|nodes| - 1].next == null)
  }

  ghost predicate Holds<T>(nodes: seq<Node<T>>, data: seq<T>)
    reads nodes
  {
    |data| == |nodes| && forall i :: 0 <= i < |nodes| ==> nodes[i].data == data[i]
  }

  /** `s` without its first occurrence of `x`. */
  function WithoutFirst<T(==)>(s: seq<T>, x: T): seq<T> {
    if s == [] then [] else if s[0] == x then s[1..] else [s[0]] + WithoutFirst(s[1..], x)
  }

  lemma {:induction false} WithoutFirstAt<T>(s: seq<T>, x: T, k: nat)
    requires k < |s| && s[k] == x && x !in s[..k]
    ensures WithoutFirst(s, x) == s[..k] + s[k + 1..]
  {
    if k != 0 {
      assert s[0] == s[..k][0];
      assert s[1..][..k - 1] == s[..k][1..];
      WithoutFirstAt(s[1..], x, k - 1);
    }
  }

  lemma {:induction false} WithoutAbsent<T>(s: seq<T>, x: T)
    requires x !in s
    ensures WithoutFirst(s, x) == s
  {
    if s != [] {
      WithoutAbsent(s[1..], x);
    }
  }

  class List<T(==)> {
    var head: Node?<T>
    var tail: Node?<T>
    var size: nat
    ghost var nodes: seq<Node<T>>
    ghost var contents: seq<T>

    ghost predicate Valid()
      reads this, nodes
    {
      && Chained(nodes) && Holds(nodes, contents)
      && size == |nodes|
      && head == (if nodes == [] then null else nodes[0])
      && tail == (if nodes == [] then null else nodes[|nodes| - 1])
    }

    /** list_create */
    constructor ()
      ensures Valid() && contents == [] && nodes == []
    {
      head, tail, size := null, null, 0;
      nodes, contents := [], [];
    }

    /** list_add_first */
    method AddFirst(x: T)
      requires Valid()
      modifies this
      ensures Valid() && contents == [x] + old(contents)
      ensures |nodes| > 0 && fresh(nodes[0]) && nodes[1..] == old(nodes)
    {
      var node := new Node(x, head);
      nodes, contents := [node] + nodes, [x] + contents;
      head := node;
      if size == 0 {
        tail := node;
      }
      size := size + 1;
      assert nodes[1..] == old(nodes);
    }

    /** list_add_last */
    method AddLast(x: T)
      requires Valid()
      modifies this, nodes
      ensures Valid() && contents == old(contents) + [x]
      ensures |nodes| == |old(nodes)| + 1 && nodes[..|old(nodes)|] == old(nodes) && fresh(nodes[|old(nodes)|])
    {
      var node := new Node(x, null);
      nodes, contents := nodes + [node], contents + [x];
      if size == 0 {
        head := node;
      } else {
        tail.next := node;
      }
      tail := node;
      size := size + 1;
    }

    /** list_remove_first */
    method RemoveFirst() returns (removed: bool)
      requires Valid()
      modifies this
      ensures Valid() && removed == (old(contents) != [])
      ensures contents == if removed then old(contents)[1..] else old(contents)
      ensures nodes == if removed then old(nodes)[1..] else old(nodes)
    {
      if size <= 0 {
        return false;
      }
      head := head.next;
      nodes, contents := nodes[1..], contents[1..];
      size := size - 1;
      if size == 0 {
        tail := null;
      }
      return true;
    }

    /** list_remove_find: it takes out exactly the first occurrence and keeps the order. */
    method RemoveFind(x: T) returns (removed: bool)
      requires Valid()
      modifies this, nodes
      ensures Valid() && removed == (x in old(contents))
      ensures contents == WithoutFirst(old(contents), x)
      ensures forall n :: n in nodes ==> n in old(nodes)
    {
      ghost var was := contents;
      if size <= 0 {
        return false;
      }
      if head.data == x {
        removed := RemoveFirst();
        return;
      }
      var front := head;
      var node := front.next;
      ghost var k := 1;
      while node != null
        invariant 1 <= k <= |nodes| && Valid() && nodes == old(nodes) && contents == was
        invariant front == nodes[k - 1] && node == (if k < |nodes| then nodes[k] else null)
        invariant x !in was[..k]
        decreases |nodes| - k
      {
        if node.data == x {
          WithoutFirstAt(was, x, k);
          Unlink(front, node, k);
          return true;
        }
        assert was[..k + 1] == was[..k] + [was[k]];
        front := node;
        node := node.next;
        k := k + 1;
      }
      assert was[..k] == was;
      WithoutAbsent(was, x);
      return false;
    }

    /** The relinking in list_remove_find. */
    method Unlink(front: Node<T>, node: Node<T>, ghost k: nat)
      requires Valid() && 1 <= k < |nodes| && front == nodes[k - 1] && node == nodes[k]
      modifies this, front
      ensures Valid() && nodes == old(nodes)[..k] + old(nodes)[k + 1..]
      ensures contents == old(contents)[..k] + old(contents)[k + 1..]
    {
      front.next := node.next;
      if node == tail {
        tail := front;
      }
      nodes, contents := nodes[..k] + nodes[k + 1..], contents[..k] + contents[k + 1..];
      size := size - 1;
    }

    /** list_visit: every element once, in order. */
    method Visit() returns (trace: seq<T>)
      requires Valid()
      ensures trace == contents
    {
      trace := [];
      var node := head;
      ghost var k := 0;
      while node != null
        invariant 0 <= k <= |nodes| && node == (if k < |nodes| then nodes[k] else null)
        invariant trace == contents[..k]
        decreases |nodes| - k
      {
        trace := trace + [node.data];
        node := node.next;
        k := k + 1;
      }
    }
  }
}
