/** Machine integers and the byte order of the wire and of memory. */
module Bytes {

  type byte = x: int | 0 <= x < 0x100
  type uint16 = x: int | 0 <= x < 0x1_0000
  type uint32 = x: int | 0 <= x < 0x1_0000_0000

  const TWO_TO_THE_16 := 0x1_0000
  const TWO_TO_THE_32 := 0x1_0000_0000

  function Min(a: int, b: int): int {
    if a < b then a else b
  }

  function Reverse(s: seq<byte>): (r: seq<byte>)
    ensures |r| == |s|
    ensures forall k :: 0 <= k < |s| ==> r[k] == s[|s| - 1 - k]
  {
    seq(|s|, k requires 0 <= k < |s| => s[|s| - 1 - k])
  }

  // ----- big-endian numbers: the order of the wire -----

  function Word(t: seq<byte>, i: nat): uint16
    requires i + 2 <= |t|
  {
    (t[i] as int) * 0x100 + t[i + 1]
  }

  function LongWord(t: seq<byte>, i: nat): uint32
    requires i + 4 <= |t|
  {
    (Word(t, i) as int) * TWO_TO_THE_16 + Word(t, i + 2)
  }

  function WordBytes(v: uint16): (s: seq<byte>)
    ensures |s| == 2
  {
    [v / 0x100, v % 0x100]
  }

  function LongWordBytes(v: uint32): (s: seq<byte>)
    ensures |s| == 4
  {
    WordBytes(v / TWO_TO_THE_16) + WordBytes(v % TWO_TO_THE_16)
  }

  lemma WordOfBytes(t: seq<byte>, i: nat, v: uint16)
    requires i + 2 <= |t|
    ensures Word(t, i) == v <==> t[i..i + 2] == WordBytes(v)
  {
    assert t[i..i + 2] == [t[i], t[i + 1]];
  }

  lemma LongWordOfBytes(t: seq<byte>, i: nat, v: uint32)
    requires i + 4 <= |t|
    ensures LongWord(t, i) == v <==> t[i..i + 4] == LongWordBytes(v)
  {
    var s, h, l := t[i..i + 4], v / TWO_TO_THE_16, v % TWO_TO_THE_16;
    WordOfBytes(t, i, h);
    WordOfBytes(t, i + 2, l);
    assert s[..2] == t[i..i + 2] && s[2..] == t[i + 2..i + 4];
    assert LongWordBytes(v)[..2] == WordBytes(h) && LongWordBytes(v)[2..] == WordBytes(l);
    assert s == s[..2] + s[2..];
  }

  /** The value the processor, which is little-endian, reads from two bytes of its memory. */
  function Stored(lo: byte, hi: byte): uint16 {
    (hi as int) * 0x100 + lo
  }

  /** The value the processor reads from four bytes of its memory. */
  function StoredLong(f: seq<byte>, i: nat): uint32
    requires i + 4 <= |f|
  {
    Stored(f[i], f[i + 1]) as int + Stored(f[i + 2], f[i + 3]) * TWO_TO_THE_16
  }

  /** A 16-bit number as it lies in the processor's memory. */
  function InMemory(v: uint16): (s: seq<byte>)
    ensures |s| == 2 && Reverse(s) == WordBytes(v) && Stored(s[0], s[1]) == v
  {
    [v % 0x100, v / 0x100]
  }

  function LongInMemory(v: uint32): (s: seq<byte>)
    ensures |s| == 4 && StoredLong(s, 0) == v
  {
    InMemory(v % TWO_TO_THE_16) + InMemory(v / TWO_TO_THE_16)
  }
}
