/** The two rings of util.c, ring_buffer_t over bytes and array_queue_t over pointers: the same
    structure with the same slot arithmetic, here over any element type. */
module Rings {

  /** ring_get and array_queue_get: the slot of element i. */
  function Slot(head: nat, length: nat, i: nat): (k: nat)
    requires length > 0
    ensures k < length
  {
    (head + i) % length
  }

  lemma SlotPlain(head: nat, length: nat, i: nat)
    requires head < length && i <= length
    ensures Slot(head, length, i) == if head + i < length then head + i else head + i - length
  {
    if head + i >= length {
      assert (head + i - length) % length == head + i - length;
    }
  }

  /** The next slot is not in use if and only if the ring is not full; in a full ring it is the
      slot of the oldest element. */
  lemma NextSlotIsFreeIff(head: nat, length: nat, size: nat)
    requires head < length && size <= length
    ensures (forall i :: 0 <= i < size ==> Slot(head, length, i) != Slot(head, length, size)) <==> size < length
    ensures size == length ==> Slot(head, length, size) == head
  {
    SlotPlain(head, length, size);
    forall i | 0 <= i < size
      ensures Slot(head, length, i) == if head + i < length then head + i else head + i - length
    {
      SlotPlain(head, length, i);
    }
    if size == length {
      assert Slot(head, length, 0) == head;
    }
  }

  /** The elements from slot `head` on, `size` of them, oldest first. */
  function Elements<T>(slots: seq<T>, head: nat, size: nat): (s: seq<T>)
    requires 0 < |slots| && head < |slots| && size <= |slots|
    ensures |s| == size
    ensures forall i :: 0 <= i < size ==> s[i] == slots[Slot(head, |slots|, i)]
  {
    seq(size, i requires 0 <= i < size => slots[Slot(head, |slots|, i)])
  }

  lemma PutAppends<T>(slots: seq<T>, head: nat, size: nat, x: T)
    requires head < |slots| && size < |slots|
    ensures Elements(slots[Slot(head, |slots|, size) := x], head, size + 1) == Elements(slots, head, size) + [x]
  {
    NextSlotIsFreeIff(head, |slots|, size);
  }

  lemma RemoveDrops<T>(slots: seq<T>, head: nat, size: nat, n: nat)
    requires head < |slots| && n <= size <= |slots|
    ensures Elements(slots, Slot(head, |slots|, n), size - n) == Elements(slots, head, size)[n..]
  {
    forall i | 0 <= i < size - n
      ensures Slot(Slot(head, |slots|, n), |slots|, i) == Slot(head, |slots|, n + i)
    {
      SlotPlain(head, |slots|, n);
      SlotPlain(Slot(head, |slots|, n), |slots|, i);
      SlotPlain(head, |slots|, n + i);
    }
  }

  /** `put` and `removed` record the whole life of the ring since it was cleared. */
  class Ring<T(0)> {
    const buffer: array<T>
    var head: nat
    var size: nat
    ghost var put: seq<T>
    ghost var removed: seq<T>

    /** First in, first out: what has been removed and then what is there is what was put. */
    ghost predicate Valid()
      reads this, buffer
    {
      && head < buffer.Length && size <= buffer.Length
      && put == removed + View()
    }

    ghost function View(): (s: seq<T>)
      requires head < buffer.Length && size <= buffer.Length
      reads this, buffer
      ensures |s| == size
    {
      Elements(buffer[..], head, size)
    }

    /** ring_create, array_queue_create */
    constructor (length: nat)
      requires length > 0
      ensures Valid() && View() == [] && put == [] && removed == [] && buffer.Length == length && fresh(buffer)
    {
      buffer := new T[length];
      head, size := 0, 0;
      put, removed := [], [];
    }

    /** ring_clear, array_queue_clear */
    method Clear()
      requires Valid()
      modifies this
      ensures Valid() && View() == [] && put == [] && removed == []
    {
      head, size := 0, 0;
      put, removed := [], [];
    }

    /** ring_put, array_queue_put: there must be room, see NextSlotIsFreeIff. */
    method Put(x: T)
      requires Valid() && size < buffer.Length
      modifies this, buffer
      ensures Valid() && View() == old(View()) + [x]
      ensures put == old(put) + [x] && removed == old(removed)
    {
      PutAppends(buffer[..], head, size, x);
      ghost var slots := buffer[..];
      buffer[Slot(head, buffer.Length, size)] := x;
      assert buffer[..] == slots[Slot(head, buffer.Length, size) := x];
      size := size + 1;
      put := put + [x];
    }

    /** ring_remove, and array_queue_remove for n == 1 */
    method Remove(n: nat)
      requires Valid() && n <= size
      modifies this
      ensures Valid() && View() == old(View())[n..] && buffer[..] == old(buffer[..])
      ensures put == old(put) && removed == old(removed) + old(View())[..n]
    {
      RemoveDrops(buffer[..], head, size, n);
      removed := removed + View()[..n];
      head := Slot(head, buffer.Length, n);
      size := size - n;
    }

    /** ring_poll */
    method Poll() returns (x: T)
      requires Valid() && size > 0
      modifies this
      ensures Valid() && x == old(View())[0] && View() == old(View())[1..]
      ensures put == old(put) && removed == old(removed) + [x]
    {
      assert Slot(head, buffer.Length, 0) == head;
      x := buffer[head];
      Remove(1);
    }

    /** array_queue_poll: it returns the address of the slot. The element is still in it, but
        only until the slot comes round again. */
    method PollSlot() returns (slot: nat)
      requires Valid() && size > 0
      modifies this
      ensures Valid() && View() == old(View())[1..] && put == old(put) && removed == old(removed) + [old(View())[0]]
      ensures slot < buffer.Length && buffer[slot] == old(View())[0]
    {
      assert Slot(head, buffer.Length, 0) == head;
      slot := head;
      Remove(1);
    }

    /** array_queue_visit: every element once, oldest first. */
    method Visit() returns (trace: seq<T>)
      requires Valid()
      ensures trace == View()
    {
      trace := [];
      var i := 0;
      while i < size
        invariant 0 <= i <= size && trace == View()[..i]
      {
        trace := trace + [buffer[Slot(head, buffer.Length, i)]];
        i := i + 1;
      }
    }
  }

  /** ring_equals_array decides whether a part of the ring equals an array. */
  method EqualsArray(ring: Ring<int>, start: nat, data: seq<int>) returns (equal: bool)
    requires ring.Valid() && start + |data| <= ring.size
    ensures equal <==> ring.View()[start..start + |data|] == data
  {
    ghost var view := ring.View();
    var i := 0;
    while i < |data|
      invariant 0 <= i <= |data|
      invariant forall j :: 0 <= j < i ==> view[start + j] == data[j]
    {
      var x := ring.buffer[Slot(ring.head, ring.buffer.Length, start + i)];
      assert x == view[start + i];
      if x != data[i] {
        assert view[start..start + |data|][i] != data[i];
        return false;
      }
      i := i + 1;
    }
    return true;
  }
}
