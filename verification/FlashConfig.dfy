/** The flash configuration of config.c: three texts and a head, saved to and loaded from one
    sector of a flash memory that can only be erased as a whole and written by clearing bits. */
module FlashConfig {
  import opened Bytes

  const MAGIC := 0x414E4449
  const VERSION := 1
  const SECTOR := 0x1000
  const HEAD_SIZE := 36
  const MARK_SIZE := 5
  const NAME_WIDTH := 32
  const SSID_WIDTH := 32
  const PASSWORD_WIDTH := 64
  const ERASED: byte := 0xFF

  // ----- flash -----

  /** Bitwise and of the lowest n bits. */
  function And(a: nat, b: nat, n: nat): nat {
    if n == 0 then 0 else (if a % 2 == 1 && b % 2 == 1 then 1 else 0) + 2 * And(a / 2, b / 2, n - 1)
  }

  function Power2(n: nat): (p: nat)
    ensures p > 0
  {
    if n == 0 then 1 else 2 * Power2(n - 1)
  }

  lemma {:induction false} AndOnes(b: nat, n: nat)
    requires b < Power2(n)
    ensures And(Power2(n) - 1, b, n) == b
  {
    if n != 0 {
      AndOnes(b / 2, n - 1);
      assert (Power2(n) - 1) / 2 == Power2(n - 1) - 1;
    }
  }

  lemma {:induction false} AndIsBounded(a: nat, b: nat, n: nat)
    ensures And(a, b, n) < Power2(n)
  {
    if n != 0 {
      AndIsBounded(a / 2, b / 2, n - 1);
    }
  }

  lemma Power2Of8()
    ensures Power2(8) == 0x100
  {
    assert Power2(8) == 2 * Power2(7) == 4 * Power2(6) == 8 * Power2(5) == 16 * Power2(4);
    assert Power2(4) == 2 * Power2(3) == 4 * Power2(2) == 8 * Power2(1) == 16 * Power2(0);
  }

  /** A byte of flash after a write: bits can only be cleared. */
  function Cleared(old_: byte, data: byte): (r: byte)
    ensures old_ == ERASED ==> r == data
  {
    Power2Of8();
    AndIsBounded(old_, data, 8);
    AndOnes(data, 8);
    And(old_, data, 8)
  }

  /** The flash after the first n bytes of `data` have been written from offset `at` on. */
  function BurnFirst(flash: seq<byte>, at: nat, data: seq<byte>, n: nat): (r: seq<byte>)
    requires n <= |data| && at + |data| <= |flash|
    ensures |r| == |flash|
  {
    if n == 0 then flash
    else BurnFirst(flash, at, data, n - 1)[at + n - 1 := Cleared(flash[at + n - 1], data[n - 1])]
  }

  lemma {:induction false} BurnFirstAt(flash: seq<byte>, at: nat, data: seq<byte>, n: nat, i: nat)
    requires n <= |data| && at + |data| <= |flash| && i < |flash|
    ensures BurnFirst(flash, at, data, n)[i] == if at <= i < at + n then Cleared(flash[i], data[i - at]) else flash[i]
  {
    if n != 0 {
      BurnFirstAt(flash, at, data, n - 1, i);
    }
  }

  /** The flash after a write; nothing is written where there is no flash. */
  function Burn(flash: seq<byte>, at: nat, data: seq<byte>): (r: seq<byte>)
    ensures |r| == |flash|
  {
    if at + |data| > |flash| then flash else BurnFirst(flash, at, data, |data|)
  }

  lemma BurnAt(flash: seq<byte>, at: nat, data: seq<byte>, i: nat)
    requires at + |data| <= |flash| && i < |flash|
    ensures Burn(flash, at, data)[i] == if at <= i < at + |data| then Cleared(flash[i], data[i - at]) else flash[i]
  {
    BurnFirstAt(flash, at, data, |data|, i);
  }

  /** The flash after the first n bytes of a sector have been erased. */
  function EraseFirst(flash: seq<byte>, at: nat, n: nat): (r: seq<byte>)
    requires at + n <= |flash|
    ensures |r| == |flash|
  {
    if n == 0 then flash else EraseFirst(flash, at, n - 1)[at + n - 1 := ERASED]
  }

  lemma {:induction false} EraseFirstAt(flash: seq<byte>, at: nat, n: nat, i: nat)
    requires at + n <= |flash| && i < |flash|
    ensures EraseFirst(flash, at, n)[i] == if at <= i < at + n then ERASED else flash[i]
  {
    if n != 0 {
      EraseFirstAt(flash, at, n - 1, i);
    }
  }

  /** The flash after a sector has been erased, if it has that sector. */
  function Erase(flash: seq<byte>, sector: nat): (r: seq<byte>)
    ensures |r| == |flash|
  {
    if (sector + 1) * SECTOR > |flash| then flash else EraseFirst(flash, sector * SECTOR, SECTOR)
  }

  /** The bytes at an offset. */
  predicate ReadsBack(flash: seq<byte>, at: nat, data: seq<byte>) {
    at + |data| <= |flash| && flash[at..at + |data|] == data
  }

  /** Erased flash, as far as it is needed for n bytes. */
  function Blank(n: nat): (s: seq<byte>)
    ensures |s| == n
  {
    seq(n, _ => ERASED)
  }

  /** Two regions have no byte in common. */
  predicate Apart(at: nat, n: nat, other: nat, m: nat) {
    at + n <= other || other + m <= at || n == 0 || m == 0
  }

  /** Erased flash takes any data. */
  lemma BlankTakes(flash: seq<byte>, at: nat, data: seq<byte>)
    requires ReadsBack(flash, at, Blank(|data|))
    ensures ReadsBack(Burn(flash, at, data), at, data)
  {
    var f := Burn(flash, at, data);
    forall i | 0 <= i < |data|
      ensures f[at..at + |data|][i] == data[i]
    {
      assert flash[at..at + |data|][i] == Blank(|data|)[i] == ERASED;
      BurnAt(flash, at, data, at + i);
    }
  }

  /** A write elsewhere changes nothing here. */
  lemma KeptBehind(flash: seq<byte>, at: nat, data: seq<byte>, other: nat, text: seq<byte>)
    requires Apart(at, |data|, other, |text|)
    ensures ReadsBack(Burn(flash, at, data), other, text) <==> ReadsBack(flash, other, text)
  {
    var f := Burn(flash, at, data);
    if other + |text| <= |flash| && at + |data| <= |flash| {
      forall i | other <= i < other + |text|
        ensures f[i] == flash[i]
      {
        BurnAt(flash, at, data, i);
      }
      assert f[other..other + |text|] == flash[other..other + |text|];
    }
  }

  lemma ErasedIsBlank(flash: seq<byte>, sector: nat, at: nat, n: nat)
    requires (sector + 1) * SECTOR <= |flash|
    requires sector * SECTOR <= at && at + n <= (sector + 1) * SECTOR
    ensures ReadsBack(Erase(flash, sector), at, Blank(n))
  {
    var f := Erase(flash, sector);
    forall i | 0 <= i < n
      ensures f[at..at + n][i] == Blank(n)[i]
    {
      EraseFirstAt(flash, sector * SECTOR, SECTOR, at + i);
    }
  }

  // ----- the head -----

  /** string_t as it is stored: the pointer field holds an offset plus one. */
  datatype Ref = Ref(buffer: uint32, length: uint16)

  datatype Head = Head(magic: uint32, version: byte, name: Ref, ssid: Ref, password: Ref, dataLength: uint16)

  function RefByte(r: Ref, i: nat): byte
    requires i < 8
  {
    if i < 4 then LongInMemory(r.buffer)[i] else if i < 6 then InMemory(r.length)[i - 4] else 0
  }

  function RefBytes(r: Ref): (s: seq<byte>)
    ensures |s| == 8
  {
    seq(8, i requires 0 <= i < 8 => RefByte(r, i))
  }

  function RefAt(s: seq<byte>, i: nat): Ref
    requires i + 8 <= |s|
  {
    Ref(StoredLong(s, i), Stored(s[i + 4], s[i + 5]))
  }

  function HeadByte(h: Head, i: nat): byte
    requires i < HEAD_SIZE
  {
    if i < 4 then LongInMemory(h.magic)[i]
    else if i == 4 then h.version
    else if 8 <= i < 16 then RefBytes(h.name)[i - 8]
    else if 16 <= i < 24 then RefBytes(h.ssid)[i - 16]
    else if 24 <= i < 32 then RefBytes(h.password)[i - 24]
    else if 32 <= i < 34 then InMemory(h.dataLength)[i - 32]
    else 0
  }

  function HeadBytes(h: Head): (s: seq<byte>)
    ensures |s| == HEAD_SIZE
  {
    seq(HEAD_SIZE, i requires 0 <= i < HEAD_SIZE => HeadByte(h, i))
  }

  function HeadAt(s: seq<byte>): Head
    requires |s| == HEAD_SIZE
  {
    Head(StoredLong(s, 0), s[4], RefAt(s, 8), RefAt(s, 16), RefAt(s, 24), Stored(s[32], s[33]))
  }

  lemma StoredLongIn(s: seq<byte>, i: nat, v: uint32)
    requires i + 4 <= |s| && s[i..i + 4] == LongInMemory(v)
    ensures StoredLong(s, i) == v
  {
    var t := s[i..i + 4];
    assert t[0] == s[i] && t[1] == s[i + 1] && t[2] == s[i + 2] && t[3] == s[i + 3];
    assert StoredLong(t, 0) == StoredLong(s, i);
  }

  lemma RefIn(s: seq<byte>, i: nat, r: Ref)
    requires i + 8 <= |s| && s[i..i + 8] == RefBytes(r)
    ensures RefAt(s, i) == r
  {
    var b, n := RefBytes(r), InMemory(r.length);
    assert b[..4] == LongInMemory(r.buffer) && b[4] == n[0] && b[5] == n[1];
    assert s[i..i + 4] == s[i..i + 8][..4];
    assert s[i + 4] == s[i..i + 8][4] && s[i + 5] == s[i..i + 8][5];
    StoredLongIn(s, i, r.buffer);
  }

  /** The references in the head. */
  lemma HeadRefs(h: Head)
    ensures HeadBytes(h)[8..16] == RefBytes(h.name)
    ensures HeadBytes(h)[16..24] == RefBytes(h.ssid)
    ensures HeadBytes(h)[24..32] == RefBytes(h.password)
  {
  }

  lemma HeadRoundTrip(h: Head)
    ensures HeadAt(HeadBytes(h)) == h
  {
    var s := HeadBytes(h);
    assert s[0..4] == LongInMemory(h.magic);
    StoredLongIn(s, 0, h.magic);
    HeadRefs(h);
    RefIn(s, 8, h.name);
    RefIn(s, 16, h.ssid);
    RefIn(s, 24, h.password);
  }

  // ----- where the texts go -----

  /** Where the data area of the configuration at `address` has its byte q, in 32-bit arithmetic. */
  function At(address: uint32, q: nat): uint32 {
    (address + HEAD_SIZE + q) % TWO_TO_THE_32
  }

  /** How far the data byte p is from the next word of four bytes. */
  function Pad(address: uint32, p: nat): (d: nat)
    ensures d < 4 && (address + HEAD_SIZE + p + d) % 4 == 0
  {
    (4 - (address + p) % 4) % 4
  }

  function Start(address: uint32, p: nat): nat {
    p + Pad(address, p)
  }

  /** The 16-bit position behind n more bytes. Padding is not counted. */
  function Next(p: uint16, n: nat): uint16 {
    (p + n) % TWO_TO_THE_16
  }

  /** The places of the three texts and the position behind them. */
  datatype Layout = Layout(name: nat, ssid: nat, password: nat, end: uint16)

  function LayoutOf(address: uint32, p: uint16, name: nat, ssid: nat, password: nat): Layout {
    var q := Next(p, name);
    var r := Next(q, ssid);
    Layout(Start(address, p), Start(address, q), Start(address, r), Next(r, password))
  }

  /** No text overlaps another one. */
  predicate Disjoint(l: Layout, name: nat, ssid: nat, password: nat) {
    && Apart(l.name, name, l.ssid, ssid)
    && Apart(l.name, name, l.password, password)
    && Apart(l.ssid, ssid, l.password, password)
  }

  /** A text reaches into the next one exactly when the next padding is smaller than its own. */
  lemma NeighboursDisjointIff(address: uint32, p: nat, length: nat)
    ensures Start(address, p) + length <= Start(address, p + length) <==> Pad(address, p) <= Pad(address, p + length)
  {
  }

  lemma StartIsMonotone(address: uint32, p: nat, q: nat)
    requires p <= q
    ensures Start(address, p) <= Start(address, q)
  {
  }

  /** Three regions one behind the other, each starting no earlier than the one before it. */
  lemma InOrder(n: nat, a: nat, s: nat, b: nat, w: nat, c: nat)
    requires n <= s <= w && (b == 0 ==> s == w)
    ensures Apart(n, a, s, b) && Apart(n, a, w, c) && Apart(s, b, w, c)
       <==> (a > 0 && (b > 0 || c > 0) ==> n + a <= s) && (b > 0 && c > 0 ==> s + b <= w)
  {
  }

  /** Where the position does not wrap. */
  lemma Straight(address: uint32, p: uint16, name: nat, ssid: nat, password: nat)
    requires p + name + ssid + password < TWO_TO_THE_16
    ensures LayoutOf(address, p, name, ssid, password)
         == Layout(Start(address, p), Start(address, p + name), Start(address, p + name + ssid),
                   p + name + ssid + password)
  {
    assert Next(p, name) == p + name && Next(p + name, ssid) == p + name + ssid;
    assert Next(p + name + ssid, password) == p + name + ssid + password;
  }

  /** The texts are disjoint exactly when the padding does not shrink from one to the next, as far
      as there is a text and another one behind it. */
  lemma PaddingDecides(address: uint32, p: uint16, name: nat, ssid: nat, password: nat)
    requires p + name + ssid + password < TWO_TO_THE_16
    ensures Disjoint(LayoutOf(address, p, name, ssid, password), name, ssid, password)
       <==> ((name > 0 && (ssid > 0 || password > 0) ==> Pad(address, p) <= Pad(address, p + name))
             && (ssid > 0 && password > 0 ==> Pad(address, p + name) <= Pad(address, p + name + ssid)))
  {
    Straight(address, p, name, ssid, password);
    NeighboursDisjointIff(address, p, name);
    NeighboursDisjointIff(address, p + name, ssid);
    StartIsMonotone(address, p, p + name);
    StartIsMonotone(address, p + name, p + name + ssid);
    InOrder(Start(address, p), name, Start(address, p + name), ssid, Start(address, p + name + ssid), password);
  }

  /** The end of the sector that is erased. */
  function SectorEnd(address: uint32): nat {
    (address / SECTOR + 1) * SECTOR
  }

  /** The head lies in that sector. */
  predicate HeadFits(address: uint32) {
    address + HEAD_SIZE <= SectorEnd(address)
  }

  /** At least its magic number and its version do, and the flash has room for all of it. */
  predicate HeadStarts(size: nat, address: uint32) {
    address + MARK_SIZE <= SectorEnd(address) && address + HEAD_SIZE <= size
  }

  /** A text of n bytes at data byte q, if there is anything of it, lies in that sector. */
  predicate Inside(address: uint32, q: nat, n: nat) {
    n == 0 || address + HEAD_SIZE + q + n <= SectorEnd(address)
  }

  /** The flash has that sector, and the texts lie in it. */
  predicate Fits(size: nat, address: uint32, l: Layout, name: nat, ssid: nat, password: nat) {
    && SectorEnd(address) <= size
    && Inside(address, l.name, name) && Inside(address, l.ssid, ssid) && Inside(address, l.password, password)
  }

  // ----- text fields -----

  /** strlen from an index on, but no further than the field reaches. */
  function TextEnd(field: seq<byte>, i: nat): (n: nat)
    requires i <= |field|
    ensures i <= n <= |field| && (forall j :: i <= j < n ==> field[j] != 0) && (n < |field| ==> field[n] == 0)
    decreases |field| - i
  {
    if i == |field| || field[i] == 0 then i else TextEnd(field, i + 1)
  }

  function Text(field: seq<byte>): seq<byte> {
    field[..TextEnd(field, 0)]
  }

  /** A zero-filled field gives its text back, if there was no zero in it. */
  lemma TextOfZeroFilled(text: seq<byte>, width: nat)
    requires |text| <= width && forall i :: 0 <= i < |text| ==> text[i] != 0
    ensures Text(ZeroFilled(text, width)) == text
  {
    var f := ZeroFilled(text, width);
    assert forall i :: 0 <= i < |text| ==> f[i] == text[i] != 0;
    assert |text| < width ==> f[|text|] == 0;
    assert TextEnd(f, 0) == |text|;
  }

  function Fill(n: nat, v: byte): (s: seq<byte>)
    ensures |s| == n && forall i :: 0 <= i < n ==> s[i] == v
  {
    seq(n, _ => v)
  }

  // ----- what saving does to the flash -----

  /** The three texts written to flash. */
  function Written(flash: seq<byte>, address: uint32, l: Layout,
                   name: seq<byte>, ssid: seq<byte>, password: seq<byte>): (f: seq<byte>)
    ensures |f| == |flash|
  {
    Burn(Burn(Burn(flash, At(address, l.name), name), At(address, l.ssid), ssid), At(address, l.password), password)
  }

  /** A 16-bit position and at most three bytes of padding. */
  predicate Starts(l: Layout) {
    l.name < TWO_TO_THE_16 + 3 && l.ssid < TWO_TO_THE_16 + 3 && l.password < TWO_TO_THE_16 + 3
  }

  function HeadFor(l: Layout, name: uint16, ssid: uint16, password: uint16): Head
    requires Starts(l)
  {
    Head(MAGIC, VERSION, Ref(l.name + 1, name), Ref(l.ssid + 1, ssid), Ref(l.password + 1, password), l.end)
  }

  type Field = s: seq<byte> | |s| < TWO_TO_THE_16

  /** The head that config_save writes. */
  function SavedHead(address: uint32, p: uint16, name: Field, ssid: Field, password: Field): Head {
    HeadFor(LayoutOf(address, p, |name|, |ssid|, |password|), |name|, |ssid|, |password|)
  }

  /** The flash after config_save. */
  function Saved(flash: seq<byte>, address: uint32, p: uint16, name: Field, ssid: Field, password: Field)
    : (f: seq<byte>)
    ensures |f| == |flash|
  {
    if SectorEnd(address) > |flash| then flash
    else
      var l := LayoutOf(address, p, |name|, |ssid|, |password|);
      Burn(Written(Erase(flash, address / SECTOR), address, l, name, ssid, password),
           address, HeadBytes(SavedHead(address, p, name, ssid, password)))
  }

  // ----- reading it again -----

  /** What data_read leaves in a buffer that held `old_`. */
  function Fetched(flash: seq<byte>, address: uint32, r: Ref, old_: seq<byte>): (s: seq<byte>)
    requires r.length <= |old_|
    ensures |s| == r.length
  {
    if r.buffer == 0 || At(address, r.buffer - 1) + r.length > |flash| then old_[..r.length]
    else flash[At(address, r.buffer - 1)..At(address, r.buffer - 1) + r.length]
  }

  /** A field of `width` bytes that holds a text and zeros behind it. */
  function ZeroFilled(text: seq<byte>, width: nat): (f: seq<byte>)
    requires |text| <= width
    ensures |f| == width
  {
    text + seq(width - |text|, _ => 0)
  }

  predicate HeadThere(flash: seq<byte>, address: uint32) {
    address + HEAD_SIZE <= |flash|
  }

  function StoredHead(flash: seq<byte>, address: uint32): Head
    requires HeadThere(flash, address)
  {
    HeadAt(flash[address..address + HEAD_SIZE])
  }

  predicate Acceptable(h: Head, room: nat) {
    && h.magic == MAGIC && h.version == VERSION
    && h.name.length <= room && h.ssid.length <= SSID_WIDTH && h.password.length <= PASSWORD_WIDTH
  }

  /** A flash is accepted exactly if it holds the four bytes of the magic number, in memory order, the version
      behind them, and at their offsets three lengths for which there is room. */
  lemma AcceptedIff(flash: seq<byte>, address: uint32, room: nat)
    requires HeadThere(flash, address)
    ensures Acceptable(StoredHead(flash, address), room)
       <==> && ReadsBack(flash, address, [0x49, 0x44, 0x4E, 0x41, 1])
            && Stored(flash[address + 12], flash[address + 13]) <= room
            && Stored(flash[address + 20], flash[address + 21]) <= SSID_WIDTH
            && Stored(flash[address + 28], flash[address + 29]) <= PASSWORD_WIDTH
  {
    var h, mark := flash[address..address + HEAD_SIZE], flash[address..address + MARK_SIZE];
    assert forall i :: 0 <= i < HEAD_SIZE ==> h[i] == flash[address + i];
    assert mark == [h[0], h[1], h[2], h[3], h[4]];
    MagicBytes(h[0], h[1], h[2], h[3]);
  }

  lemma MagicBytes(a: byte, b: byte, c: byte, d: byte)
    ensures a as int + 0x100 * b as int + 0x10000 * c as int + 0x1000000 * d as int == MAGIC
       <==> a == 0x49 && b == 0x44 && c == 0x4E && d == 0x41
  {
  }

  /** config_load accepts the flash and finds these three texts, whatever the buffers held. */
  predicate Restores(flash: seq<byte>, address: uint32, room: nat,
                     name: seq<byte>, ssid: seq<byte>, password: seq<byte>)
  {
    HeadThere(flash, address) && HeadRestores(flash, address, StoredHead(flash, address), room, name, ssid, password)
  }

  predicate HeadRestores(flash: seq<byte>, address: uint32, h: Head, room: nat,
                         name: seq<byte>, ssid: seq<byte>, password: seq<byte>)
  {
    && Acceptable(h, room)
    && Finds(flash, address, h.name, name)
    && Finds(flash, address, h.ssid, ssid)
    && Finds(flash, address, h.password, password)
  }

  /** The reference leads to the text. */
  predicate Finds(flash: seq<byte>, address: uint32, r: Ref, text: seq<byte>) {
    r.length == |text| && (text == [] || (r.buffer != 0 && ReadsBack(flash, At(address, r.buffer - 1), text)))
  }

  /** That is to say, data_read yields the text whatever the buffer held before. */
  lemma FindsIff(flash: seq<byte>, address: uint32, r: Ref, text: seq<byte>)
    requires r.length == |text|
    ensures Finds(flash, address, r, text)
       <==> (forall old_: seq<byte> {:trigger Fetched(flash, address, r, old_)} | |text| <= |old_| ::
              Fetched(flash, address, r, old_) == text)
  {
    if !Finds(flash, address, r, text) {
      var other: seq<byte> := Fill(|text|, if text[0] == 0 then 1 else 0);
      assert other[0] != text[0] && other[..|text|] == other;
      assert Fetched(flash, address, r, other) != text;
    }
  }

  // ----- the round trip -----

  /** A text, if there is anything of it, is there. */
  predicate Holds(flash: seq<byte>, at: nat, text: seq<byte>) {
    text == [] || ReadsBack(flash, at, text)
  }

  /** The first, the second and the third text that is written stays. */
  lemma FirstStays(flash: seq<byte>, n: nat, a: seq<byte>, s: nat, b: seq<byte>, w: nat, c: seq<byte>)
    requires Holds(flash, n, Blank(|a|)) && Apart(n, |a|, s, |b|) && Apart(n, |a|, w, |c|)
    ensures Holds(Burn(Burn(Burn(flash, n, a), s, b), w, c), n, a)
  {
    if a != [] {
      BlankTakes(flash, n, a);
      KeptBehind(Burn(flash, n, a), s, b, n, a);
      KeptBehind(Burn(Burn(flash, n, a), s, b), w, c, n, a);
    }
  }

  lemma SecondStays(flash: seq<byte>, n: nat, a: seq<byte>, s: nat, b: seq<byte>, w: nat, c: seq<byte>)
    requires Holds(flash, s, Blank(|b|)) && Apart(n, |a|, s, |b|) && Apart(s, |b|, w, |c|)
    ensures Holds(Burn(Burn(Burn(flash, n, a), s, b), w, c), s, b)
  {
    if b != [] {
      KeptBehind(flash, n, a, s, Blank(|b|));
      BlankTakes(Burn(flash, n, a), s, b);
      KeptBehind(Burn(Burn(flash, n, a), s, b), w, c, s, b);
    }
  }

  lemma ThirdStays(flash: seq<byte>, n: nat, a: seq<byte>, s: nat, b: seq<byte>, w: nat, c: seq<byte>)
    requires Holds(flash, w, Blank(|c|)) && Apart(n, |a|, w, |c|) && Apart(s, |b|, w, |c|)
    ensures Holds(Burn(Burn(Burn(flash, n, a), s, b), w, c), w, c)
  {
    if c != [] {
      KeptBehind(flash, n, a, w, Blank(|c|));
      KeptBehind(Burn(flash, n, a), s, b, w, Blank(|c|));
      BlankTakes(Burn(Burn(flash, n, a), s, b), w, c);
    }
  }

  lemma DisjointStay(flash: seq<byte>, n: nat, a: seq<byte>, s: nat, b: seq<byte>, w: nat, c: seq<byte>)
    requires Holds(flash, n, Blank(|a|)) && Holds(flash, s, Blank(|b|)) && Holds(flash, w, Blank(|c|))
    requires Apart(n, |a|, s, |b|) && Apart(n, |a|, w, |c|) && Apart(s, |b|, w, |c|)
    ensures var f := Burn(Burn(Burn(flash, n, a), s, b), w, c);
            Holds(f, n, a) && Holds(f, s, b) && Holds(f, w, c)
  {
    var f := Burn(Burn(Burn(flash, n, a), s, b), w, c);
    assert Holds(f, n, a) by { FirstStays(flash, n, a, s, b, w, c); }
    assert Holds(f, s, b) by { SecondStays(flash, n, a, s, b, w, c); }
    assert Holds(f, w, c) by { ThirdStays(flash, n, a, s, b, w, c); }
  }

  /** Something apart from the three texts is not touched by writing them. */
  lemma OthersStay(flash: seq<byte>, n: nat, a: seq<byte>, s: nat, b: seq<byte>, w: nat, c: seq<byte>,
                   at: nat, data: seq<byte>)
    requires Apart(n, |a|, at, |data|) && Apart(s, |b|, at, |data|) && Apart(w, |c|, at, |data|)
    ensures ReadsBack(Burn(Burn(Burn(flash, n, a), s, b), w, c), at, data) <==> ReadsBack(flash, at, data)
  {
    KeptBehind(flash, n, a, at, data);
    KeptBehind(Burn(flash, n, a), s, b, at, data);
    KeptBehind(Burn(Burn(flash, n, a), s, b), w, c, at, data);
  }

  lemma HeadComesBack(flash: seq<byte>, address: uint32, h: Head)
    requires ReadsBack(flash, address, Blank(HEAD_SIZE))
    ensures var f := Burn(flash, address, HeadBytes(h));
            HeadThere(f, address) && StoredHead(f, address) == h
  {
    BlankTakes(flash, address, HeadBytes(h));
    HeadRoundTrip(h);
  }

  /** A text never lies where the head is, even if its address wraps. */
  lemma HeadApart(address: uint32, q: nat, n: nat)
    requires q < TWO_TO_THE_16 + 3 && n < TWO_TO_THE_16
    ensures Apart(At(address, q), n, address, HEAD_SIZE) && Apart(address, HEAD_SIZE, At(address, q), n)
  {
  }

  /** The three texts, as far as there is anything of them, are where the layout puts them. */
  predicate AllThere(flash: seq<byte>, address: uint32, l: Layout, a: seq<byte>, b: seq<byte>, c: seq<byte>) {
    && Holds(flash, At(address, l.name), a)
    && Holds(flash, At(address, l.ssid), b)
    && Holds(flash, At(address, l.password), c)
  }

  /** The head a save leaves. */
  lemma SavedHeadComesBack(flash: seq<byte>, address: uint32, p: uint16, a: Field, b: Field, c: Field)
    requires HeadFits(address) && SectorEnd(address) <= |flash|
    ensures var f := Saved(flash, address, p, a, b, c);
            HeadThere(f, address) && StoredHead(f, address) == SavedHead(address, p, a, b, c)
  {
    var l := LayoutOf(address, p, |a|, |b|, |c|);
    var e, h := Erase(flash, address / SECTOR), SavedHead(address, p, a, b, c);
    var n, s, w := At(address, l.name), At(address, l.ssid), At(address, l.password);
    HeadApart(address, l.name, |a|);
    HeadApart(address, l.ssid, |b|);
    HeadApart(address, l.password, |c|);
    ErasedIsBlank(flash, address / SECTOR, address, HEAD_SIZE);
    OthersStay(e, n, a, s, b, w, c, address, Blank(HEAD_SIZE));
    HeadComesBack(Written(e, address, l, a, b, c), address, h);
  }

  /** Writing the head does not touch the texts. */
  lemma TextsBesideHead(flash: seq<byte>, address: uint32, l: Layout, h: Head, a: Field, b: Field, c: Field)
    requires Starts(l)
    ensures AllThere(Burn(flash, address, HeadBytes(h)), address, l, a, b, c) <==> AllThere(flash, address, l, a, b, c)
  {
    HeadApart(address, l.name, |a|);
    HeadApart(address, l.ssid, |b|);
    HeadApart(address, l.password, |c|);
    KeptBehind(flash, address, HeadBytes(h), At(address, l.name), a);
    KeptBehind(flash, address, HeadBytes(h), At(address, l.ssid), b);
    KeptBehind(flash, address, HeadBytes(h), At(address, l.password), c);
  }

  /** A saved head leads to the texts exactly when they are where it says. */
  lemma HeadRestoresIff(f: seq<byte>, address: uint32, l: Layout, a: Field, b: Field, c: Field)
    requires Starts(l) && |a| <= NAME_WIDTH && |b| <= SSID_WIDTH && |c| <= PASSWORD_WIDTH
    ensures HeadRestores(f, address, HeadFor(l, |a|, |b|, |c|), NAME_WIDTH, a, b, c)
       <==> AllThere(f, address, l, a, b, c)
  {
  }

  /** What the next load finds is decided by what writing the texts left. */
  lemma RestoresIff(flash: seq<byte>, address: uint32, p: uint16, a: Field, b: Field, c: Field)
    requires HeadFits(address) && SectorEnd(address) <= |flash|
    requires |a| <= NAME_WIDTH && |b| <= SSID_WIDTH && |c| <= PASSWORD_WIDTH
    ensures var l := LayoutOf(address, p, |a|, |b|, |c|);
            (Restores(Saved(flash, address, p, a, b, c), address, NAME_WIDTH, a, b, c)
             <==> AllThere(Written(Erase(flash, address / SECTOR), address, l, a, b, c), address, l, a, b, c))
  {
    var l := LayoutOf(address, p, |a|, |b|, |c|);
    SavedHeadComesBack(flash, address, p, a, b, c);
    TextsBesideHead(Written(Erase(flash, address / SECTOR), address, l, a, b, c), address, l,
                    SavedHead(address, p, a, b, c), a, b, c);
    HeadRestoresIff(Saved(flash, address, p, a, b, c), address, l, a, b, c);
  }

  /** A text inside the sector. */
  lemma InsideIsErased(flash: seq<byte>, address: uint32, q: nat, n: nat)
    requires SectorEnd(address) <= |flash| < TWO_TO_THE_32 && Inside(address, q, n)
    ensures Holds(Erase(flash, address / SECTOR), At(address, q), Blank(n))
    ensures n > 0 ==> At(address, q) == address + HEAD_SIZE + q
  {
    if n > 0 {
      ErasedIsBlank(flash, address / SECTOR, At(address, q), n);
    }
  }

  lemma TextsThere(flash: seq<byte>, address: uint32, l: Layout, a: Field, b: Field, c: Field)
    requires |flash| < TWO_TO_THE_32
    requires Fits(|flash|, address, l, |a|, |b|, |c|) && Disjoint(l, |a|, |b|, |c|)
    ensures AllThere(Written(Erase(flash, address / SECTOR), address, l, a, b, c), address, l, a, b, c)
  {
    var n, s, w := At(address, l.name), At(address, l.ssid), At(address, l.password);
    InsideIsErased(flash, address, l.name, |a|);
    InsideIsErased(flash, address, l.ssid, |b|);
    InsideIsErased(flash, address, l.password, |c|);
    DisjointStay(Erase(flash, address / SECTOR), n, a, s, b, w, c);
  }

  /** A byte of the head on flash that was erased, that was zero, or anything. */
  lemma HeadByteLands(w: seq<byte>, address: uint32, h: Head, i: nat)
    requires HeadThere(w, address) && i < HEAD_SIZE
    ensures var f, d := Burn(w, address, HeadBytes(h)), HeadBytes(h);
            && HeadThere(f, address) && f[address..address + HEAD_SIZE][i] == f[address + i]
            && (w[address + i] == ERASED ==> f[address + i] == d[i])
            && (w[address + i] == 0 || d[i] == 0 ==> f[address + i] == 0)
  {
    BurnAt(w, address, HeadBytes(h), address + i);
    AndZero(HeadBytes(h)[i], 8);
    AndWithZero(w[address + i], 8);
  }

  /** A cleared bit can only be set by erasing. */
  lemma {:induction false} AndZero(b: nat, n: nat)
    ensures And(0, b, n) == 0
  {
    if n != 0 {
      AndZero(b / 2, n - 1);
    }
  }

  lemma {:induction false} AndWithZero(a: nat, n: nat)
    ensures And(a, 0, n) == 0
  {
    if n != 0 {
      AndWithZero(a / 2, n - 1);
    }
  }

  /** The bytes where the head will be are still erased when the texts have been written. */
  lemma HeadByteErased(flash: seq<byte>, address: uint32, l: Layout, a: Field, b: Field, c: Field, i: nat)
    requires SectorEnd(address) <= |flash| && Starts(l) && i < HEAD_SIZE && address + i < SectorEnd(address)
    ensures Written(Erase(flash, address / SECTOR), address, l, a, b, c)[address + i] == ERASED
  {
    var e, n, s, w := Erase(flash, address / SECTOR), At(address, l.name), At(address, l.ssid), At(address, l.password);
    HeadApart(address, l.name, |a|);
    HeadApart(address, l.ssid, |b|);
    HeadApart(address, l.password, |c|);
    ErasedByte(flash, address / SECTOR, address + i);
    ByteKept(e, n, a, address + i);
    ByteKept(Burn(e, n, a), s, b, address + i);
    ByteKept(Burn(Burn(e, n, a), s, b), w, c, address + i);
  }

  lemma ByteKept(flash: seq<byte>, at: nat, data: seq<byte>, i: nat)
    requires i < |flash| && !(at <= i < at + |data|)
    ensures Burn(flash, at, data)[i] == flash[i]
  {
    if at + |data| <= |flash| {
      BurnAt(flash, at, data, i);
    }
  }

  lemma ErasedByte(flash: seq<byte>, sector: nat, i: nat)
    requires sector * SECTOR <= i < (sector + 1) * SECTOR <= |flash|
    ensures Erase(flash, sector)[i] == ERASED
  {
    EraseFirstAt(flash, sector * SECTOR, SECTOR, i);
  }

  /** The head that a load reads after a save, byte by byte: right in the sector, zero where it is zero. */
  lemma SavedHeadByte(flash: seq<byte>, address: uint32, p: uint16, a: Field, b: Field, c: Field, i: nat)
    requires SectorEnd(address) <= |flash| && HeadThere(flash, address) && i < HEAD_SIZE
    ensures var s := Saved(flash, address, p, a, b, c)[address..address + HEAD_SIZE];
            var d := HeadBytes(SavedHead(address, p, a, b, c));
            && (address + i < SectorEnd(address) ==> s[i] == d[i])
            && (d[i] == 0 ==> s[i] == 0)
  {
    var l := LayoutOf(address, p, |a|, |b|, |c|);
    var w := Written(Erase(flash, address / SECTOR), address, l, a, b, c);
    HeadByteLands(w, address, SavedHead(address, p, a, b, c), i);
    if address + i < SectorEnd(address) {
      HeadByteErased(flash, address, l, a, b, c, i);
    }
  }

  /** Three empty texts only need the mark of the head. */
  lemma NothingIsRestored(flash: seq<byte>, address: uint32, p: uint16)
    requires SectorEnd(address) <= |flash| && HeadStarts(|flash|, address)
    ensures Restores(Saved(flash, address, p, [], [], []), address, NAME_WIDTH, [], [], [])
  {
    var h := SavedHead(address, p, [], [], []);
    var s, d := Saved(flash, address, p, [], [], [])[address..address + HEAD_SIZE], HeadBytes(h);
    forall i: nat | i < MARK_SIZE
      ensures s[i] == d[i]
    {
      SavedHeadByte(flash, address, p, [], [], [], i);
    }
    NoLengths(h);
    SavedHeadByte(flash, address, p, [], [], [], 12);
    SavedHeadByte(flash, address, p, [], [], [], 13);
    SavedHeadByte(flash, address, p, [], [], [], 20);
    SavedHeadByte(flash, address, p, [], [], [], 21);
    SavedHeadByte(flash, address, p, [], [], [], 28);
    SavedHeadByte(flash, address, p, [], [], [], 29);
    MarkAndLengths(s, h);
  }

  lemma NoLengths(h: Head)
    requires h.name.length == h.ssid.length == h.password.length == 0
    ensures var d := HeadBytes(h); d[12] == d[13] == d[20] == d[21] == d[28] == d[29] == 0
  {
    HeadRefs(h);
    NoLength(HeadBytes(h), 8, h.name);
    NoLength(HeadBytes(h), 16, h.ssid);
    NoLength(HeadBytes(h), 24, h.password);
  }

  lemma NoLength(d: seq<byte>, o: nat, r: Ref)
    requires o + 8 <= |d| && d[o..o + 8] == RefBytes(r) && r.length == 0
    ensures d[o + 4] == d[o + 5] == 0
  {
    assert d[o + 4] == d[o..o + 8][4] && d[o + 5] == d[o..o + 8][5];
  }

  lemma MarkAndLengths(s: seq<byte>, h: Head)
    requires |s| == HEAD_SIZE && forall i :: 0 <= i < MARK_SIZE ==> s[i] == HeadBytes(h)[i]
    requires s[12] == s[13] == s[20] == s[21] == s[28] == s[29] == 0
    ensures HeadAt(s).magic == h.magic && HeadAt(s).version == h.version
    ensures HeadAt(s).name.length == HeadAt(s).ssid.length == HeadAt(s).password.length == 0
  {
    HeadRoundTrip(h);
    assert StoredLong(s, 0) == StoredLong(HeadBytes(h), 0);
  }

  /** The round trip: whatever the flash held and wherever the position stood, three texts in
      disjoint regions of the sector are restored by the next load. */
  lemma SaveThenLoad(flash: seq<byte>, address: uint32, p: uint16, a: Field, b: Field, c: Field)
    requires HeadStarts(|flash|, address) && |flash| < TWO_TO_THE_32
    requires Fits(|flash|, address, LayoutOf(address, p, |a|, |b|, |c|), |a|, |b|, |c|)
    requires Disjoint(LayoutOf(address, p, |a|, |b|, |c|), |a|, |b|, |c|)
    requires |a| <= NAME_WIDTH && |b| <= SSID_WIDTH && |c| <= PASSWORD_WIDTH
    ensures Restores(Saved(flash, address, p, a, b, c), address, NAME_WIDTH, a, b, c)
  {
    if a == b == c == [] {
      NothingIsRestored(flash, address, p);
    } else {
      TextsThere(flash, address, LayoutOf(address, p, |a|, |b|, |c|), a, b, c);
      RestoresIff(flash, address, p, a, b, c);
    }
  }

  // ----- where texts are lost -----

  lemma BitsApart()
    ensures Cleared(1, 2) == Cleared(1, 4) == Cleared(2, 4) == Cleared(0, 2) == Cleared(0, 4) == 0
  {
    assert And(0, 0, 5) == And(0, 0, 4) == 0;
    assert And(0, 1, 6) == And(0, 0, 5) == 0;
    assert And(0, 1, 7) == And(0, 0, 6) == And(0, 0, 5) && And(0, 2, 7) == And(0, 1, 6) && And(1, 2, 7) == And(0, 1, 6);
  }

  lemma WrongByte(flash: seq<byte>, at: nat, data: seq<byte>, i: nat)
    requires at <= i < at + |data| && (i < |flash| ==> flash[i] != data[i - at])
    ensures !Holds(flash, at, data)
  {
    if at + |data| <= |flash| {
      assert flash[at..at + |data|][i - at] == flash[i];
    }
  }

  /** A byte that two of three texts share cannot be right for the later one. */
  lemma OverlapLoses(e: seq<byte>, n: nat, a: nat, s: nat, b: nat, w: nat, c: nat, i: nat)
    requires (a > 0 ==> n + a <= |e|) && (b > 0 ==> s + b <= |e|) && (c > 0 ==> w + c <= |e|)
    requires i < |e| && e[i] == ERASED
    requires || (n <= i < n + a && s <= i < s + b)
             || (n <= i < n + a && w <= i < w + c)
             || (s <= i < s + b && w <= i < w + c)
    ensures var f := Burn(Burn(Burn(e, n, Fill(a, 1)), s, Fill(b, 2)), w, Fill(c, 4));
            !Holds(f, s, Fill(b, 2)) || !Holds(f, w, Fill(c, 4))
  {
    var f := Burn(e, n, Fill(a, 1));
    var g := Burn(f, s, Fill(b, 2));
    var h := Burn(g, w, Fill(c, 4));
    BurntByte(e, n, Fill(a, 1), i);
    BurntByte(f, s, Fill(b, 2), i);
    BurntByte(g, w, Fill(c, 4), i);
    BitsApart();
    assert h[i] == 0;
    if w <= i < w + c {
      WrongByte(h, w, Fill(c, 4), i);
    } else {
      WrongByte(h, s, Fill(b, 2), i);
    }
  }

  lemma BurntByte(flash: seq<byte>, at: nat, data: seq<byte>, i: nat)
    requires (data != [] ==> at + |data| <= |flash|) && i < |flash|
    ensures Burn(flash, at, data)[i] == if at <= i < at + |data| then Cleared(flash[i], data[i - at]) else flash[i]
  {
    if data != [] {
      BurnAt(flash, at, data, i);
    }
  }

  /** A byte in both regions. */
  function Shared(at: nat, n: nat, other: nat, m: nat): (i: nat)
    requires !Apart(at, n, other, m)
    ensures at <= i < at + n && other <= i < other + m
  {
    if at < other then other else at
  }

  /** Texts whose regions overlap. */
  lemma OverlapIsLost(flash: seq<byte>, address: uint32, l: Layout, name: uint16, ssid: uint16, password: uint16)
    requires |flash| < TWO_TO_THE_32 && Fits(|flash|, address, l, name, ssid, password)
    requires !Disjoint(l, name, ssid, password)
    ensures var a, b, c := Fill(name, 1), Fill(ssid, 2), Fill(password, 4);
            !AllThere(Written(Erase(flash, address / SECTOR), address, l, a, b, c), address, l, a, b, c)
  {
    InsideIsErased(flash, address, l.name, name);
    InsideIsErased(flash, address, l.ssid, ssid);
    InsideIsErased(flash, address, l.password, password);
    var e, n, s, w := Erase(flash, address / SECTOR), At(address, l.name), At(address, l.ssid), At(address, l.password);
    var i := if !Apart(n, name, s, ssid) then Shared(n, name, s, ssid)
             else if !Apart(n, name, w, password) then Shared(n, name, w, password)
             else Shared(s, ssid, w, password);
    ErasedByte(flash, address / SECTOR, i);
    OverlapLoses(e, n, name, s, ssid, w, password, i);
  }

  lemma ZeroStays(flash: seq<byte>, at: nat, data: seq<byte>, i: nat)
    requires i < |flash| && flash[i] == 0
    ensures Burn(flash, at, data)[i] == 0
  {
    if at + |data| <= |flash| {
      BurnAt(flash, at, data, i);
      if at <= i < at + |data| {
        AndZero(data[i - at], 8);
      }
    }
  }

  lemma ZeroStaysThrough(e: seq<byte>, address: uint32, l: Layout, a: Field, b: Field, c: Field, i: nat)
    requires i < |e| && e[i] == 0
    ensures Written(e, address, l, a, b, c)[i] == 0
  {
    ZeroStays(e, At(address, l.name), a, i);
    ZeroStays(Burn(e, At(address, l.name), a), At(address, l.ssid), b, i);
    ZeroStays(Burn(Burn(e, At(address, l.name), a), At(address, l.ssid), b), At(address, l.password), c, i);
  }

  /** A text that reaches out of the sector has its last byte there, or no flash at all for it. */
  lemma LastByteOutside(size: nat, address: uint32, q: nat, n: nat)
    requires SectorEnd(address) <= size < TWO_TO_THE_32 && q < TWO_TO_THE_16 + 3 && n < TWO_TO_THE_16
    requires !Inside(address, q, n) && At(address, q) + n <= size
    ensures var i := At(address, q) + n - 1; i < address / SECTOR * SECTOR || SectorEnd(address) <= i
  {
  }

  /** So it is lost on a flash that was all zeros before the save. */
  lemma OutsideIsLost(size: nat, address: uint32, l: Layout, a: Field, b: Field, c: Field, q: nat, text: Field)
    requires SectorEnd(address) <= size < TWO_TO_THE_32 && q < TWO_TO_THE_16 + 3
    requires !Inside(address, q, |text|) && text[|text| - 1] != 0
    ensures !Holds(Written(Erase(Fill(size, 0), address / SECTOR), address, l, a, b, c), At(address, q), text)
  {
    var e, i := Erase(Fill(size, 0), address / SECTOR), At(address, q) + |text| - 1;
    if i < size {
      LastByteOutside(size, address, q, |text|);
      EraseFirstAt(Fill(size, 0), address / SECTOR * SECTOR, SECTOR, i);
      ZeroStaysThrough(e, address, l, a, b, c, i);
    }
    WrongByte(Written(e, address, l, a, b, c), At(address, q), text, i);
  }

  /** Without the sector nothing is saved, and zeros are no head. */
  lemma NoSectorNoHead(size: nat, address: uint32, p: uint16, a: Field, b: Field, c: Field)
    requires size < SectorEnd(address)
    ensures !Restores(Saved(Fill(size, 0), address, p, a, b, c), address, NAME_WIDTH, a, b, c)
  {
    if HeadThere(Fill(size, 0), address) {
      var s := Fill(size, 0)[address..address + HEAD_SIZE];
      assert s[0] == s[1] == s[2] == s[3] == 0;
      assert HeadAt(s).magic == 0;
    }
  }

  /** On a flash of zeros, neither does byte i of the head come back if it is not in the sector. */
  lemma HeadByteOutside(size: nat, address: uint32, p: uint16, a: Field, b: Field, c: Field, i: nat)
    requires SectorEnd(address) <= size && HeadThere(Fill(size, 0), address)
    requires i < HEAD_SIZE && SectorEnd(address) <= address + i
    ensures Saved(Fill(size, 0), address, p, a, b, c)[address..address + HEAD_SIZE][i] == 0
  {
    var l, e := LayoutOf(address, p, |a|, |b|, |c|), Erase(Fill(size, 0), address / SECTOR);
    EraseFirstAt(Fill(size, 0), address / SECTOR * SECTOR, SECTOR, address + i);
    ZeroStaysThrough(e, address, l, a, b, c, address + i);
    HeadByteLands(Written(e, address, l, a, b, c), address, SavedHead(address, p, a, b, c), i);
  }

  /** Nor does the mark, if it is not all in the sector. */
  lemma MarkOutside(size: nat, address: uint32, p: uint16, a: Field, b: Field, c: Field)
    requires SectorEnd(address) <= size && !HeadStarts(size, address)
    ensures !Restores(Saved(Fill(size, 0), address, p, a, b, c), address, NAME_WIDTH, a, b, c)
  {
    if HeadThere(Fill(size, 0), address) {
      HeadByteOutside(size, address, p, a, b, c, 4);
      assert StoredHead(Saved(Fill(size, 0), address, p, a, b, c), address).version == 0;
    }
  }

  /** A reference does not lead to a text if it has no length, or if the text is not where it leads. */
  lemma LeadsNowhere(f: seq<byte>, address: uint32, r: Ref, q: nat, text: Field)
    requires text != [] && q < TWO_TO_THE_16 + 3
    requires r.length == 0 || (r == Ref(q + 1, |text|) && !ReadsBack(f, At(address, q), text))
    ensures !Finds(f, address, r, text)
  {
  }

  /** The head that a load reads after a save on a flash of zeros. */
  function HeadOnZeros(size: nat, address: uint32, p: uint16, a: Field, b: Field, c: Field): (s: seq<byte>)
    requires HeadThere(Fill(size, 0), address)
    ensures |s| == HEAD_SIZE
  {
    Saved(Fill(size, 0), address, p, a, b, c)[address..address + HEAD_SIZE]
  }

  /** A reference of which the length is not in the sector is lost. */
  lemma LengthOutside(size: nat, address: uint32, p: uint16, a: Field, b: Field, c: Field, o: nat)
    requires SectorEnd(address) <= size && HeadThere(Fill(size, 0), address)
    requires o + 8 <= HEAD_SIZE && SectorEnd(address) <= address + o + 4
    ensures RefAt(HeadOnZeros(size, address, p, a, b, c), o).length == 0
  {
    HeadByteOutside(size, address, p, a, b, c, o + 4);
    HeadByteOutside(size, address, p, a, b, c, o + 5);
  }

  /** So a reference to a text that reaches out of the sector is lost, or it leads to something else. */
  lemma RefLost(size: nat, address: uint32, p: uint16, a: Field, b: Field, c: Field, o: nat, q: nat, text: Field)
    requires SectorEnd(address) <= size < TWO_TO_THE_32 && HeadThere(Fill(size, 0), address)
    requires o + 8 <= HEAD_SIZE && q < TWO_TO_THE_16 + 3
    requires HeadBytes(SavedHead(address, p, a, b, c))[o..o + 8] == RefBytes(Ref(q + 1, |text|))
    requires 0 < |text| < 0x100 && !Inside(address, q, |text|) && text[|text| - 1] != 0
    ensures !Finds(Saved(Fill(size, 0), address, p, a, b, c), address,
                   RefAt(HeadOnZeros(size, address, p, a, b, c), o), text)
  {
    if SectorEnd(address) <= address + o + 4 {
      LengthOutside(size, address, p, a, b, c, o);
    } else {
      RefComesBack(Fill(size, 0), address, p, a, b, c, o, Ref(q + 1, |text|));
      SavedTextLost(size, address, p, a, b, c, q, text);
    }
    LeadsNowhere(Saved(Fill(size, 0), address, p, a, b, c), address,
                 RefAt(HeadOnZeros(size, address, p, a, b, c), o), q, text);
  }

  /** A text that reaches out of the sector, and ends in something else than a zero. */
  predicate ReachesOut(address: uint32, q: nat, text: Field) {
    !Inside(address, q, |text|) && |text| < 0x100 && text[|text| - 1] != 0
  }

  lemma SavedRefs(address: uint32, p: uint16, a: Field, b: Field, c: Field)
    ensures var l, d := LayoutOf(address, p, |a|, |b|, |c|), HeadBytes(SavedHead(address, p, a, b, c));
            && Starts(l) && d[8..16] == RefBytes(Ref(l.name + 1, |a|))
            && d[16..24] == RefBytes(Ref(l.ssid + 1, |b|)) && d[24..32] == RefBytes(Ref(l.password + 1, |c|))
  {
    HeadRefs(SavedHead(address, p, a, b, c));
  }

  /** One lost text is enough. */
  lemma LoadNeedsAll(f: seq<byte>, address: uint32, a: Field, b: Field, c: Field)
    requires HeadThere(f, address)
    requires var s := f[address..address + HEAD_SIZE];
             || !Finds(f, address, RefAt(s, 8), a)
             || !Finds(f, address, RefAt(s, 16), b)
             || !Finds(f, address, RefAt(s, 24), c)
    ensures !Restores(f, address, NAME_WIDTH, a, b, c)
  {
  }

  lemma NameOutside(size: nat, address: uint32, p: uint16, a: Field, b: Field, c: Field)
    requires SectorEnd(address) <= size < TWO_TO_THE_32 && HeadThere(Fill(size, 0), address)
    requires ReachesOut(address, LayoutOf(address, p, |a|, |b|, |c|).name, a)
    ensures !Restores(Saved(Fill(size, 0), address, p, a, b, c), address, NAME_WIDTH, a, b, c)
  {
    var q := LayoutOf(address, p, |a|, |b|, |c|).name;
    assert !Finds(Saved(Fill(size, 0), address, p, a, b, c), address,
                  RefAt(HeadOnZeros(size, address, p, a, b, c), 8), a)
    by {
      SavedRefs(address, p, a, b, c);
      RefLost(size, address, p, a, b, c, 8, q, a);
    }
    LoadNeedsAll(Saved(Fill(size, 0), address, p, a, b, c), address, a, b, c);
  }

  lemma SsidOutside(size: nat, address: uint32, p: uint16, a: Field, b: Field, c: Field)
    requires SectorEnd(address) <= size < TWO_TO_THE_32 && HeadThere(Fill(size, 0), address)
    requires ReachesOut(address, LayoutOf(address, p, |a|, |b|, |c|).ssid, b)
    ensures !Restores(Saved(Fill(size, 0), address, p, a, b, c), address, NAME_WIDTH, a, b, c)
  {
    var q := LayoutOf(address, p, |a|, |b|, |c|).ssid;
    assert !Finds(Saved(Fill(size, 0), address, p, a, b, c), address,
                  RefAt(HeadOnZeros(size, address, p, a, b, c), 16), b)
    by {
      SavedRefs(address, p, a, b, c);
      RefLost(size, address, p, a, b, c, 16, q, b);
    }
    LoadNeedsAll(Saved(Fill(size, 0), address, p, a, b, c), address, a, b, c);
  }

  lemma PasswordOutside(size: nat, address: uint32, p: uint16, a: Field, b: Field, c: Field)
    requires SectorEnd(address) <= size < TWO_TO_THE_32 && HeadThere(Fill(size, 0), address)
    requires ReachesOut(address, LayoutOf(address, p, |a|, |b|, |c|).password, c)
    ensures !Restores(Saved(Fill(size, 0), address, p, a, b, c), address, NAME_WIDTH, a, b, c)
  {
    var q := LayoutOf(address, p, |a|, |b|, |c|).password;
    assert !Finds(Saved(Fill(size, 0), address, p, a, b, c), address,
                  RefAt(HeadOnZeros(size, address, p, a, b, c), 24), c)
    by {
      SavedRefs(address, p, a, b, c);
      RefLost(size, address, p, a, b, c, 24, q, c);
    }
    LoadNeedsAll(Saved(Fill(size, 0), address, p, a, b, c), address, a, b, c);
  }

  /** The text itself. */
  lemma SavedTextLost(size: nat, address: uint32, p: uint16, a: Field, b: Field, c: Field, q: nat, text: Field)
    requires SectorEnd(address) <= size < TWO_TO_THE_32 && q < TWO_TO_THE_16 + 3
    requires !Inside(address, q, |text|) && text[|text| - 1] != 0
    ensures !ReadsBack(Saved(Fill(size, 0), address, p, a, b, c), At(address, q), text)
  {
    var l := LayoutOf(address, p, |a|, |b|, |c|);
    var w := Written(Erase(Fill(size, 0), address / SECTOR), address, l, a, b, c);
    OutsideIsLost(size, address, l, a, b, c, q, text);
    HeadApart(address, q, |text|);
    KeptBehind(w, address, HeadBytes(SavedHead(address, p, a, b, c)), At(address, q), text);
  }

  /** A reference of which all but the high byte of the length, which is zero, is in the sector. */
  lemma RefComesBack(flash: seq<byte>, address: uint32, p: uint16, a: Field, b: Field, c: Field, o: nat, r: Ref)
    requires SectorEnd(address) <= |flash| && HeadThere(flash, address)
    requires o + 8 <= HEAD_SIZE && address + o + 4 < SectorEnd(address) && r.length < 0x100
    requires HeadBytes(SavedHead(address, p, a, b, c))[o..o + 8] == RefBytes(r)
    ensures RefAt(Saved(flash, address, p, a, b, c)[address..address + HEAD_SIZE], o) == r
  {
    var s := Saved(flash, address, p, a, b, c)[address..address + HEAD_SIZE];
    var d := HeadBytes(SavedHead(address, p, a, b, c));
    forall i: nat | o <= i < o + 5
      ensures s[i] == d[i]
    {
      SavedHeadByte(flash, address, p, a, b, c, i);
    }
    assert d[o + 5] == d[o..o + 8][5];
    SavedHeadByte(flash, address, p, a, b, c, o + 5);
    SameRef(s, d, o, r);
  }

  lemma SameRef(s: seq<byte>, d: seq<byte>, o: nat, r: Ref)
    requires |s| == |d| == HEAD_SIZE && o + 8 <= HEAD_SIZE && d[o..o + 8] == RefBytes(r)
    requires s[o + 5] == d[o + 5] && forall i :: o <= i < o + 5 ==> s[i] == d[i]
    ensures RefAt(s, o) == r
  {
    RefIn(d, o, r);
    assert StoredLong(s, o) == StoredLong(d, o);
  }

  /** Texts of given lengths, and a flash to lose them on. */
  lemma SomethingIsLost(size: nat, address: uint32, p: uint16, name: uint16, ssid: uint16, password: uint16)
    requires size < TWO_TO_THE_32
    requires name <= NAME_WIDTH && ssid <= SSID_WIDTH && password <= PASSWORD_WIDTH
    requires var l := LayoutOf(address, p, name, ssid, password);
             !(&& HeadStarts(size, address)
               && Fits(size, address, l, name, ssid, password) && Disjoint(l, name, ssid, password))
    ensures var a, b, c := Fill(name, 1), Fill(ssid, 2), Fill(password, 4);
            !Restores(Saved(Fill(size, 0), address, p, a, b, c), address, NAME_WIDTH, a, b, c)
  {
    var a: Field, b: Field, c: Field := Fill(name, 1), Fill(ssid, 2), Fill(password, 4);
    var l := LayoutOf(address, p, name, ssid, password);
    if size < SectorEnd(address) {
      NoSectorNoHead(size, address, p, a, b, c);
    } else if !HeadStarts(size, address) {
      MarkOutside(size, address, p, a, b, c);
    } else if !Inside(address, l.name, name) {
      NameOutside(size, address, p, a, b, c);
    } else if !Inside(address, l.ssid, ssid) {
      SsidOutside(size, address, p, a, b, c);
    } else if !Inside(address, l.password, password) {
      PasswordOutside(size, address, p, a, b, c);
    } else {
      OverlapIsLost(Fill(size, 0), address, l, name, ssid, password);
      RestoresIff(Fill(size, 0), address, p, a, b, c);
    }
  }

  /** Every save of texts of these lengths at this position is followed by a load that restores them. */
  ghost predicate AlwaysRestored(size: nat, address: uint32, p: uint16, name: nat, ssid: nat, password: nat) {
    forall flash: seq<byte>, a: Field, b: Field, c: Field {:trigger Saved(flash, address, p, a, b, c)} ::
      |flash| == size && |a| == name && |b| == ssid && |c| == password ==>
        Restores(Saved(flash, address, p, a, b, c), address, NAME_WIDTH, a, b, c)
  }

  /** Texts of given lengths survive a save and a load, whatever they are and whatever the flash held,
      if and only if they lie in the erased sector, where the head must at least begin, and their
      regions are disjoint. */
  lemma RestoredIff(size: nat, address: uint32, p: uint16, name: uint16, ssid: uint16, password: uint16)
    requires size < TWO_TO_THE_32
    requires name <= NAME_WIDTH && ssid <= SSID_WIDTH && password <= PASSWORD_WIDTH
    ensures var l := LayoutOf(address, p, name, ssid, password);
            (AlwaysRestored(size, address, p, name, ssid, password)
             <==> && HeadStarts(size, address)
                  && Fits(size, address, l, name, ssid, password) && Disjoint(l, name, ssid, password))
  {
    var l := LayoutOf(address, p, name, ssid, password);
    if HeadStarts(size, address) && Fits(size, address, l, name, ssid, password) && Disjoint(l, name, ssid, password) {
      forall flash: seq<byte>, a: Field, b: Field, c: Field |
        |flash| == size && |a| == name && |b| == ssid && |c| == password
        ensures Restores(Saved(flash, address, p, a, b, c), address, NAME_WIDTH, a, b, c)
      {
        SaveThenLoad(flash, address, p, a, b, c);
      }
    } else {
      SomethingIsLost(size, address, p, name, ssid, password);
      var a: Field, b: Field, c: Field := Fill(name, 1), Fill(ssid, 2), Fill(password, 4);
      assert !Restores(Saved(Fill(size, 0), address, p, a, b, c), address, NAME_WIDTH, a, b, c);
    }
  }

  lemma StartBehindWord(address: uint32, p: nat, d: nat)
    requires address % 4 == 0 && p % 4 == 0 && d <= 4
    ensures Start(address, p + d) == if d == 0 then p else p + 4
  {
    assert (address + (p + d)) % 4 == d % 4;
  }

  /** A name of three bytes and an ssid of one put the password where the ssid is, if all begins at a
      word of four bytes, as it does in the very first save. */
  lemma LayoutAtWord(address: uint32, p: uint16, password: uint16)
    requires address % 4 == 0 && p % 4 == 0 && p + 4 + password < TWO_TO_THE_16
    ensures LayoutOf(address, p, 3, 1, password) == Layout(p, p + 4, p + 4, p + 4 + password)
  {
    Straight(address, p, 3, 1, password);
    StartBehindWord(address, p, 0);
    StartBehindWord(address, p, 3);
    StartBehindWord(address, p, 4);
  }

  /** Then they are lost, on every flash. */
  lemma PaddingFails(flash: seq<byte>, address: uint32, p: uint16, password: uint16)
    requires SectorEnd(address) <= |flash| < TWO_TO_THE_32
    requires address % 4 == 0 && p % 4 == 0 && address + HEAD_SIZE + p + 4 + password <= SectorEnd(address)
    requires 0 < password <= PASSWORD_WIDTH
    ensures var a, b, c := Fill(3, 1), Fill(1, 2), Fill(password, 4);
            !Restores(Saved(flash, address, p, a, b, c), address, NAME_WIDTH, a, b, c)
  {
    LayoutAtWord(address, p, password);
    OverlapIsLost(flash, address, Layout(p, p + 4, p + 4, p + 4 + password), 3, 1, password);
    RestoresIff(flash, address, p, Fill(3, 1), Fill(1, 2), Fill(password, 4));
  }

  // ----- saving again and again -----

  /** The position after k saves of texts of the same total length; nothing sets it back. */
  function PositionAfter(p: uint16, length: nat, k: nat): uint16 {
    if k == 0 then p else Next(PositionAfter(p, length, k - 1), length)
  }

  lemma {:induction false} PositionGrows(p: uint16, length: nat, k: nat)
    requires p + k * length < TWO_TO_THE_16
    ensures PositionAfter(p, length, k) == p + k * length
  {
    if k != 0 {
      assert p + (k - 1) * length + length == p + k * length;
      PositionGrows(p, length, k - 1);
    }
  }

  lemma BehindTheSector(size: nat, address: uint32, q: uint16, name: uint16, ssid: uint16, password: uint16)
    requires q >= SECTOR && name + ssid as int + password > 0
    ensures !Fits(size, address, LayoutOf(address, q, name, ssid, password), name, ssid, password)
  {
    var l := LayoutOf(address, q, name, ssid, password);
    if name > 0 {
      assert !Inside(address, l.name, name);
    } else if ssid > 0 {
      assert !Inside(address, l.ssid, ssid);
    } else {
      assert !Inside(address, l.password, password);
    }
  }

  /** So after enough saves the next one is not restored, for some texts on some flash. */
  lemma SavesLeaveTheSector(size: nat, address: uint32, p: uint16, name: uint16, ssid: uint16, password: uint16, k: nat)
    requires size < TWO_TO_THE_32 && name <= NAME_WIDTH && ssid <= SSID_WIDTH && password <= PASSWORD_WIDTH
    requires var length := name + ssid as int + password;
             length > 0 && SECTOR <= p + k * length < TWO_TO_THE_16
    ensures !AlwaysRestored(size, address, PositionAfter(p, name + ssid as int + password, k), name, ssid, password)
  {
    var length := name + ssid as int + password;
    var q := PositionAfter(p, length, k);
    assert q >= SECTOR by { PositionGrows(p, length, k); }
    BehindTheSector(size, address, q, name, ssid, password);
    RestoredIff(size, address, q, name, ssid, password);
  }

  /** The address arithmetic of data_write_auto finds the next word of four bytes. */
  lemma AutoStart(address: uint32, p: uint16)
    ensures var rest := (address + HEAD_SIZE + p) % TWO_TO_THE_32 % 4;
            Start(address, p) == if rest != 0 then p + 4 - rest else p
  {
    assert (address + HEAD_SIZE + p) % TWO_TO_THE_32 % 4 == (address + HEAD_SIZE + p) % 4 == (address + p) % 4;
  }

  // ----- config.c -----

  class Config {
    const flash: array<byte>
    const address: uint32
    var position: uint16
    var head: Head
    /** The server's name and how much of it is used. */
    const name: array<byte>
    var nameSize: uint16
    /** The station configuration of the network. */
    const ssid: array<byte>
    const password: array<byte>

    ghost predicate Valid()
      reads this
    {
      && name.Length < TWO_TO_THE_16 && nameSize <= name.Length
      && ssid.Length == SSID_WIDTH && password.Length == PASSWORD_WIDTH
      && flash != name && flash != ssid && flash != password
      && name != ssid && name != password && ssid != password
    }

    constructor (flash: array<byte>, address: uint32, name: array<byte>, ssid: array<byte>, password: array<byte>)
      requires name.Length < TWO_TO_THE_16 && ssid.Length == SSID_WIDTH && password.Length == PASSWORD_WIDTH
      requires flash != name && flash != ssid && flash != password
      requires name != ssid && name != password && ssid != password
      ensures Valid() && position == 0 && nameSize == 0
      ensures this.flash == flash && this.address == address
      ensures this.name == name && this.ssid == ssid && this.password == password
    {
      this.flash, this.address, this.name, this.ssid, this.password := flash, address, name, ssid, password;
      position, nameSize := 0, 0;
      head := Head(0, 0, Ref(0, 0), Ref(0, 0), Ref(0, 0), 0);
    }

    /** spi_flash_erase_sector */
    method FlashErase(sector: nat) returns (ok: bool)
      modifies flash
      ensures ok <==> (sector + 1) * SECTOR <= flash.Length
      ensures flash[..] == Erase(old(flash[..]), sector)
    {
      ok := (sector + 1) * SECTOR <= flash.Length;
      if ok {
        for i := 0 to SECTOR
          invariant flash[..] == EraseFirst(old(flash[..]), sector * SECTOR, i)
        {
          ghost var before := flash[..];
          flash[sector * SECTOR + i] := ERASED;
          assert flash[..] == before[sector * SECTOR + i := ERASED];
        }
      }
    }

    /** spi_flash_write */
    method FlashWrite(at: nat, data: seq<byte>) returns (ok: bool)
      modifies flash
      ensures ok <==> at + |data| <= flash.Length
      ensures flash[..] == Burn(old(flash[..]), at, data)
    {
      ok := at + |data| <= flash.Length;
      if ok {
        for i := 0 to |data|
          invariant flash[..] == BurnFirst(old(flash[..]), at, data, i)
        {
          BurnFirstAt(old(flash[..]), at, data, i, at + i);
          ghost var before := flash[..];
          flash[at + i] := Cleared(flash[at + i], data[i]);
          assert flash[..] == before[at + i := Cleared(before[at + i], data[i])];
        }
      }
    }

    /** data_read, and spi_flash_read in it: the rest of the buffer, and all of it if nothing can
        be read, stays. */
    method DataRead(r: Ref, start: array<byte>) returns (ok: bool)
      requires r.length <= start.Length && start != flash
      modifies start
      ensures ok <==> r.buffer != 0 && At(address, r.buffer - 1) + r.length <= flash.Length
      ensures start[..] == Fetched(flash[..], address, r, old(start[..])) + old(start[..])[r.length..]
    {
      ok := false;
      if r.buffer == 0 {
        return;
      }
      var flashAddress := (address + HEAD_SIZE + r.buffer - 1) % TWO_TO_THE_32;
      ok := flashAddress + r.length <= flash.Length;
      if ok {
        for i := 0 to r.length
          invariant start[..i] == flash[flashAddress..flashAddress + i]
          invariant start[i..] == old(start[..])[i..]
        {
          start[i] := flash[flashAddress + i];
          assert start[..i + 1] == start[..i] + [flash[flashAddress + i]];
        }
      }
    }

    /** data_write */
    method DataWrite(buffer: uint32, data: seq<byte>) returns (ok: bool)
      modifies flash
      ensures ok <==> buffer != 0 && At(address, buffer - 1) + |data| <= flash.Length
      ensures flash[..] == if buffer == 0 then old(flash[..]) else Burn(old(flash[..]), At(address, buffer - 1), data)
    {
      ok := false;
      if buffer == 0 {
        return;
      }
      var flashAddress := (address + HEAD_SIZE + buffer - 1) % TWO_TO_THE_32;
      ok := FlashWrite(flashAddress, data);
    }

    /** data_write_auto */
    method DataWriteAuto(data: Field) returns (buffer: uint32)
      modifies flash, this`position
      ensures buffer == Start(address, old(position)) + 1
      ensures position == Next(old(position), |data|)
      ensures flash[..] == Burn(old(flash[..]), At(address, Start(address, old(position))), data)
    {
      AutoStart(address, position);
      buffer := 1 + position;
      var offset := (address + HEAD_SIZE + position) % TWO_TO_THE_32;
      if offset % 4 != 0 {
        buffer := buffer + 4 - offset % 4;
      }
      var _ := DataWrite(buffer, data);
      position := (position + |data|) % TWO_TO_THE_16;
    }

    /** strlen and MIN in config_save */
    method FieldLength(field: array<byte>) returns (n: nat)
      ensures n == TextEnd(field[..], 0)
    {
      n := 0;
      while n < field.Length && field[n] != 0
        invariant n <= field.Length && TextEnd(field[..], n) == TextEnd(field[..], 0)
      {
        n := n + 1;
      }
    }

    /** config_save: the texts and where they went */
    method SaveTexts()
      requires Valid()
      modifies flash, this`position, this`head
      ensures Valid()
      ensures var l := LayoutOf(address, old(position), nameSize, |Text(ssid[..])|, |Text(password[..])|);
              && flash[..] == Written(old(flash[..]), address, l, name[..nameSize], Text(ssid[..]), Text(password[..]))
              && position == l.end
              && head == old(head).(name := Ref(l.name + 1, nameSize), ssid := Ref(l.ssid + 1, |Text(ssid[..])|),
                                    password := Ref(l.password + 1, |Text(password[..])|))
    {
      var n := DataWriteAuto(name[..nameSize]);
      head := head.(name := Ref(n, nameSize));

      var length := FieldLength(ssid);
      assert ssid[..length] == Text(ssid[..]);
      var s := DataWriteAuto(ssid[..length]);
      head := head.(ssid := Ref(s, length));

      length := FieldLength(password);
      assert password[..length] == Text(password[..]);
      var w := DataWriteAuto(password[..length]);
      head := head.(password := Ref(w, length));
    }

    /** config_save */
    method Save() returns (ok: bool)
      requires Valid()
      modifies flash, this`position, this`head
      ensures Valid()
      ensures ok <==> SectorEnd(address) <= flash.Length && address + HEAD_SIZE <= flash.Length
      ensures flash[..]
           == Saved(old(flash[..]), address, old(position), name[..nameSize], Text(ssid[..]), Text(password[..]))
      ensures ok ==> head == SavedHead(address, old(position), name[..nameSize], Text(ssid[..]), Text(password[..]))
      ensures ok ==> position == LayoutOf(address, old(position), nameSize, |Text(ssid[..])|, |Text(password[..])|).end
      ensures ok ==> head.dataLength == position
      ensures SectorEnd(address) > flash.Length ==> head == old(head) && position == old(position)
    {
      ok := FlashErase(address / SECTOR);
      if !ok {
        return;
      }
      SaveTexts();
      head := head.(magic := MAGIC, version := VERSION, dataLength := position);
      assert head == SavedHead(address, old(position), name[..nameSize], Text(ssid[..]), Text(password[..]));
      ok := FlashWrite(address, HeadBytes(head));
    }

    /** m_memset of the rest of a field */
    method ClearFrom(field: array<byte>, n: nat)
      requires n <= field.Length
      modifies field
      ensures field[..] == ZeroFilled(old(field[..n]), field.Length)
    {
      for i := n to field.Length
        invariant field[..n] == old(field[..n])
        invariant forall j :: n <= j < i ==> field[j] == 0
      {
        field[i] := 0;
      }
      assert field[..] == field[..n] + field[n..];
    }

    /** config_load */
    method Load() returns (ok: bool)
      requires Valid()
      modifies this`head, this`nameSize, name, ssid, password
      ensures Valid()
      ensures head == if HeadThere(flash[..], address) then StoredHead(flash[..], address) else old(head)
      ensures ok <==> HeadThere(flash[..], address) && Acceptable(head, name.Length - old(nameSize))
      ensures !ok ==> nameSize == old(nameSize) && name[..] == old(name[..])
      ensures !ok ==> ssid[..] == old(ssid[..]) && password[..] == old(password[..])
      ensures ok ==> nameSize == old(nameSize) + head.name.length
      ensures ok ==>
                name[..] == Fetched(flash[..], address, head.name, old(name[..])) + old(name[..])[head.name.length..]
      ensures ok ==> ssid[..] == ZeroFilled(Fetched(flash[..], address, head.ssid, old(ssid[..])), SSID_WIDTH)
      ensures ok ==>
              password[..] == ZeroFilled(Fetched(flash[..], address, head.password, old(password[..])), PASSWORD_WIDTH)
    {
      ok := address + HEAD_SIZE <= flash.Length;
      if !ok {
        return;
      }
      assert flash[..][address..address + HEAD_SIZE] == flash[address..address + HEAD_SIZE];
      head := HeadAt(flash[address..address + HEAD_SIZE]);
      ok := Acceptable(head, name.Length - nameSize);
      if !ok {
        return;
      }
      var _ := DataRead(head.name, name);
      nameSize := nameSize + head.name.length;
      var _ := DataRead(head.ssid, ssid);
      ClearFrom(ssid, head.ssid.length);
      var _ := DataRead(head.password, password);
      ClearFrom(password, head.password.length);
    }

    /** A load that meets what a save left: the name, the ssid and the password are back. */
    method LoadRestores(ghost a: Field, ghost b: Field, ghost c: Field) returns (ok: bool)
      requires Valid() && nameSize == 0 && name.Length == NAME_WIDTH
      requires Restores(flash[..], address, NAME_WIDTH, a, b, c)
      modifies this`head, this`nameSize, name, ssid, password
      ensures Valid() && ok && name[..nameSize] == a
      ensures ssid[..] == ZeroFilled(b, SSID_WIDTH) && password[..] == ZeroFilled(c, PASSWORD_WIDTH)
    {
      FindsIff(flash[..], address, StoredHead(flash[..], address).name, a);
      FindsIff(flash[..], address, StoredHead(flash[..], address).ssid, b);
      FindsIff(flash[..], address, StoredHead(flash[..], address).password, c);
      ok := Load();
    }
  }

  /** Saved before a restart and loaded after it, on the same flash: the name is back, and ssid and
      password are back as texts. */
  method PowerCycle(before: Config, after: Config)
    requires before.Valid() && after.Valid() && after.nameSize == 0
    requires before.flash == after.flash && before.address == after.address
    requires after.name.Length == NAME_WIDTH && before.nameSize <= NAME_WIDTH
    requires before.name != after.name && before.name != after.ssid && before.name != after.password
    requires before.ssid != after.name && before.ssid != after.ssid && before.ssid != after.password
    requires before.password != after.name && before.password != after.ssid && before.password != after.password
    requires var s, w := |Text(before.ssid[..])|, |Text(before.password[..])|;
             var l := LayoutOf(before.address, before.position, before.nameSize, s, w);
             Fits(before.flash.Length, before.address, l, before.nameSize, s, w) && Disjoint(l, before.nameSize, s, w)
    requires HeadStarts(before.flash.Length, before.address) && before.flash.Length < TWO_TO_THE_32
    modifies before.flash, before`position, before`head
    modifies after`head, after`nameSize, after.name, after.ssid, after.password
    ensures after.Valid() && after.name[..after.nameSize] == old(before.name[..before.nameSize])
    ensures after.ssid[..] == ZeroFilled(Text(old(before.ssid[..])), SSID_WIDTH)
    ensures after.password[..] == ZeroFilled(Text(old(before.password[..])), PASSWORD_WIDTH)
  {
    ghost var a, b, c := before.name[..before.nameSize], Text(before.ssid[..]), Text(before.password[..]);
    SaveThenLoad(before.flash[..], before.address, before.position, a, b, c);
    var saved := before.Save();
    var loaded := after.LoadRestores(a, b, c);
  }
}
