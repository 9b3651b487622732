/** The buffer of times of signal.c: how times of one, two or four bytes lie in it, and what a store of
    one more changes. */
module TimeBuffers {
  import opened Bytes
  import opened Captures

  /** The number in `width` bytes of memory, as the processor reads it. */
  function Narrow(memory: seq<byte>, at: nat, width: nat): (v: nat)
    requires at + width <= |memory|
    decreases width
  {
    if width == 0 then 0 else memory[at] + 0x100 * Narrow(memory, at + 1, width - 1)
  }

  lemma {:induction false} NarrowBounded(memory: seq<byte>, at: nat, width: nat)
    requires at + width <= |memory|
    ensures Narrow(memory, at, width) < Power256(width)
    decreases width
  {
    if width != 0 {
      NarrowBounded(memory, at + 1, width - 1);
    }
  }

  predicate Width(w: nat) {
    w == 1 || w == 2 || w == 4
  }

  /** Where time k begins. */
  function Offset(width: nat, k: nat): (at: nat)
    requires Width(width)
  {
    if width == 1 then k else if width == 2 then 2 * k else 4 * k
  }

  /** The times in a buffer, one behind the other. */
  function TimesIn(memory: seq<byte>, width: nat, count: nat): (t: seq<nat>)
    requires Width(width) && Offset(width, count) <= |memory|
    ensures |t| == count
  {
    if count == 0 then [] else
    TimesIn(memory, width, count - 1) + [Narrow(memory, Offset(width, count - 1), width)]
  }

  lemma {:induction false} TimesInAt(memory: seq<byte>, width: nat, count: nat, k: nat)
    requires Width(width) && Offset(width, count) <= |memory| && k < count
    ensures TimesIn(memory, width, count)[k] == Narrow(memory, Offset(width, k), width)
  {
    if k < count - 1 {
      TimesInAt(memory, width, count - 1, k);
    }
  }

  lemma ShortTime(memory: seq<byte>, width: nat, count: nat, k: nat)
    requires Width(width) && width <= 2 && Offset(width, count) <= |memory| && k < count
    ensures TimesIn(memory, width, count)[k] < TWO_TO_THE_16
  {
    TimesInAt(memory, width, count, k);
    NarrowBounded(memory, Offset(width, k), width);
    assert Power256(1) == 0x100 * Power256(0) && Power256(2) == 0x100 * Power256(1);
  }

  lemma {:induction false} SameNarrow(a: seq<byte>, b: seq<byte>, at: nat, width: nat)
    requires at + width <= |a| == |b| && a[at..at + width] == b[at..at + width]
    ensures Narrow(a, at, width) == Narrow(b, at, width)
    decreases width
  {
    if width != 0 {
      assert a[at] == a[at..at + width][0] == b[at];
      assert a[at + 1..at + width] == a[at..at + width][1..] == b[at + 1..at + width];
      SameNarrow(a, b, at + 1, width - 1);
    }
  }

  /** Times are read from their own bytes only. */
  lemma {:induction false} SameTimesIn(a: seq<byte>, b: seq<byte>, width: nat, count: nat)
    requires Width(width) && Offset(width, count) <= |a| == |b|
    requires a[..Offset(width, count)] == b[..Offset(width, count)]
    ensures TimesIn(a, width, count) == TimesIn(b, width, count)
  {
    if count != 0 {
      var at := Offset(width, count - 1);
      assert Offset(width, count) == at + width;
      assert a[..at] == a[..at + width][..at] == b[..at];
      SameTimesIn(a, b, width, count - 1);
      assert a[at..at + width] == a[..at + width][at..] == b[at..at + width];
      SameNarrow(a, b, at, width);
    }
  }

  lemma OneTimeMore(was: seq<byte>, m: seq<byte>, width: nat, p: nat, capacity: nat)
    requires Width(width) && Offset(width, p + 1) <= capacity <= |m| == |was|
    requires forall i :: 0 <= i < |m| && !(Offset(width, p) <= i < Offset(width, p + 1)) ==> m[i] == was[i]
    ensures TimesIn(m, width, p + 1) == TimesIn(was, width, p) + [Narrow(m, Offset(width, p), width)]
  {
    assert m[..Offset(width, p)] == was[..Offset(width, p)];
    SameTimesIn(m, was, width, p);
  }

  lemma LittleEndianOne(m: seq<byte>, at: nat)
    requires at + 1 <= |m|
    ensures Narrow(m, at, 1) == m[at] && Power256(1) == 0x100
  {
    assert Narrow(m, at + 1, 0) == 0 && Power256(0) == 1;
  }

  lemma LittleEndianTwo(m: seq<byte>, at: nat)
    requires at + 2 <= |m|
    ensures Narrow(m, at, 2) == m[at] + 0x100 * m[at + 1] as int && Power256(2) == TWO_TO_THE_16
  {
    LittleEndianOne(m, at + 1);
  }

  lemma LittleEndianFour(m: seq<byte>, at: nat)
    requires at + 4 <= |m|
    ensures Narrow(m, at, 4)
         == m[at] + 0x100 * m[at + 1] as int + 0x10000 * m[at + 2] as int + 0x1000000 * m[at + 3] as int
    ensures Power256(4) == TWO_TO_THE_32
  {
    LittleEndianTwo(m, at + 2);
    assert Narrow(m, at, 4) == m[at] + 0x100 * Narrow(m, at + 1, 3);
    assert Narrow(m, at + 1, 3) == m[at + 1] + 0x100 * Narrow(m, at + 2, 2);
    assert Power256(4) == 0x100 * Power256(3) == 0x10000 * Power256(2);
  }

  lemma FourBytes(time: nat)
    ensures time % 0x100 + 0x100 * (time / 0x100 % 0x100) + 0x10000 * (time / 0x10000 % 0x100)
            + 0x1000000 * (time / 0x1000000 % 0x100) == time % TWO_TO_THE_32
  {
    assert time / 0x10000 == time / 0x100 / 0x100;
    assert time / 0x1000000 == time / 0x10000 / 0x100;
  }

  /** A buffer of `capacity` bytes at the beginning of some memory, with `count` times in it. */
  predicate Laid(size: nat, capacity: nat, width: nat, count: nat, cursor: nat) {
    && capacity <= size && Width(width)
    && count <= capacity / width && cursor == Offset(width, count)
  }

  /** Times that are within the capacity fit. */
  lemma CapacityFits(capacity: nat, width: nat, count: nat)
    requires Width(width) && count <= capacity / width
    ensures Offset(width, count) <= capacity
  {
  }
}
