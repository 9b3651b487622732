/** The request format of the server and its one-shot decoder: what the resumable parser of
    server.c should conclude from the bytes it has been given, however they were cut up. */
module Requests {
  import opened Bytes
  import opened Streams

  const SEND_REQUEST := 0
  const SEND_RESPONSE := 1
  const RECEIVE_REQUEST := 2
  const RECEIVE_RESPONSE := 3
  const CONFIG_REQUEST := 4
  const CONFIG_RESPONSE := 5

  const TIME_LENGTH := 2
  const TIMES_MAX := 128
  const BUFFER_LENGTH := TIMES_MAX * TIME_LENGTH
  const NAME_LENGTH_MAX := 32
  const HEAD_LENGTH := 3

  datatype Request =
    | Send(frequency: uint32, times: seq<uint16>)
    | Receive
    | Config(name: seq<byte>, ssid: seq<byte>, password: seq<byte>)

  /** The bounds the server checks. `times` is compared with the capacity in bytes. */
  ghost predicate WellFormed(r: Request) {
    match r
    case Send(_, times) => |times| <= BUFFER_LENGTH
    case Receive => true
    case Config(name, ssid, password) =>
      |name| <= NAME_LENGTH_MAX && |ssid| < 0x100 && |password| < 0x100 && |ssid| + |password| <= BUFFER_LENGTH
  }

  // ----- the printer a client uses -----

  function EncodeTimes(times: seq<uint16>): (s: seq<byte>)
    ensures |s| == 2 * |times|
  {
    if times == [] then [] else EncodeTimes(times[..|times| - 1]) + WordBytes(times[|times| - 1])
  }

  function TypeByte(r: Request): byte {
    match r
    case Send(_, _) => SEND_REQUEST
    case Receive => RECEIVE_REQUEST
    case Config(_, _, _) => CONFIG_REQUEST
  }

  function EncodePayload(r: Request): seq<byte>
    requires WellFormed(r)
  {
    match r
    case Send(frequency, times) => LongWordBytes(frequency) + WordBytes(|times|) + EncodeTimes(times)
    case Receive => []
    case Config(name, ssid, password) => [|name|] + name + [|ssid|] + ssid + [|password|] + password
  }

  function Encode(r: Request): seq<byte>
    requires WellFormed(r)
  {
    [TypeByte(r)] + WordBytes(|EncodePayload(r)|) + EncodePayload(r)
  }

  // ----- the one-shot decoder -----

  /** How a payload scan ends: not enough bytes yet, a bound exceeded, or all there; `end` counts
      from the start of the request. */
  datatype Scan = Incomplete | Overflow(end: nat) | Complete(end: nat)

  predicate LegalType(t: byte) {
    t == SEND_REQUEST || t == RECEIVE_REQUEST || t == CONFIG_REQUEST
  }

  function Words(t: seq<byte>, from: nat, count: nat): (w: seq<uint16>)
    requires from + 2 * count <= |t|
    ensures |w| == count
    ensures forall i :: 0 <= i < count ==> w[i] == Word(t, from + 2 * i)
  {
    if count == 0 then [] else Words(t, from, count - 1) + [Word(t, from + 2 * (count - 1))]
  }

  function ScanSend(t: seq<byte>): Scan {
    if |t| < 9 then Incomplete else
    var count := Word(t, 7);
    if count > BUFFER_LENGTH then Overflow(9)
    else if |t| < 9 + 2 * count then Incomplete else Complete(9 + 2 * count)
  }

  /** Index of the length byte of the ssid, and of the password. */
  function SsidAt(t: seq<byte>): nat
    requires |t| > 3
  {
    t[3] as int + 4
  }

  function PasswordAt(t: seq<byte>): nat
    requires |t| > 3 && |t| > SsidAt(t)
  {
    SsidAt(t) + 1 + t[SsidAt(t)]
  }

  function ScanConfig(t: seq<byte>): Scan {
    if |t| <= 3 then Incomplete
    else if t[3] > NAME_LENGTH_MAX then Overflow(4)
    else if |t| <= SsidAt(t) || |t| <= PasswordAt(t) then Incomplete
    else
      var p := PasswordAt(t);
      if t[SsidAt(t)] + t[p] > BUFFER_LENGTH then Overflow(p + 1)
      else if |t| < p + 1 + t[p] then Incomplete else Complete(p + 1 + t[p])
  }

  function ScanPayload(t: seq<byte>): Scan
    requires |t| >= 3 && LegalType(t[0])
  {
    if t[0] == SEND_REQUEST then ScanSend(t)
    else if t[0] == CONFIG_REQUEST then ScanConfig(t)
    else Complete(3)
  }

  function RequestAt(t: seq<byte>): Request
    requires |t| >= 3 && LegalType(t[0]) && ScanPayload(t).Complete?
  {
    if t[0] == SEND_REQUEST then
      var count := Word(t, 7);
      Send(LongWord(t, 3), Words(t, 9, count))
    else if t[0] == CONFIG_REQUEST then
      var s, p := SsidAt(t), PasswordAt(t);
      Config(t[4..s], t[s + 1..p], t[p + 1..p + 1 + t[p]])
    else Receive
  }

  /** What the server makes of the bytes it has been given since its last reset: wait for more,
      give the request up, or accept it; `end` is how many bytes it has read by then. */
  datatype Verdict = More | Stop(end: nat) | Accept(end: nat, request: Request)

  function Judge(t: seq<byte>): Verdict {
    if Undecided(t) then More
    else if !LegalType(t[0]) then Stop(3)
    else match ScanPayload(t)
      case Overflow(end) => Stop(end)
      case Complete(end) => if end - 3 == Word(t, 1) then Accept(end, RequestAt(t)) else Stop(end)
      case Incomplete => Stop(|t|)
  }

  /** No verdict yet: the payload is incomplete, and not as long as the length field says. */
  predicate Undecided(t: seq<byte>) {
    || |t| < 3
    || (LegalType(t[0]) && ScanPayload(t).Incomplete? && |t| - 3 != Word(t, 1))
  }

  // ----- decoder and printer -----

  /** A scan of a longer stream agrees with the scan of its prefixes. */
  lemma ScanPrefix(q: seq<byte>, t: seq<byte>)
    requires 3 <= |q| && q <= t && LegalType(t[0])
    ensures ScanPayload(t).Incomplete? ==> ScanPayload(q).Incomplete?
    ensures !ScanPayload(t).Incomplete? ==>
              3 <= ScanPayload(t).end <= |t| &&
              ScanPayload(q) == if ScanPayload(t).end <= |q| then ScanPayload(t) else Incomplete
  {
    assert forall i :: 0 <= i < |q| ==> q[i] == t[i];
  }

  lemma SamePart(q: seq<byte>, t: seq<byte>, i: nat, j: nat)
    requires q <= t && i <= j <= |q|
    ensures q[i..j] == t[i..j]
  {
    assert q == t[..|q|];
  }

  lemma {:induction false} SameWords(q: seq<byte>, t: seq<byte>, from: nat, count: nat)
    requires q <= t && from + 2 * count <= |q|
    ensures Words(q, from, count) == Words(t, from, count)
  {
    if count != 0 {
      SameWords(q, t, from, count - 1);
    }
  }

  lemma ConfigPrefix(q: seq<byte>, t: seq<byte>)
    requires 3 <= |q| && q <= t && t[0] == CONFIG_REQUEST && ScanConfig(q).Complete?
    ensures RequestAt(q) == RequestAt(t)
  {
    var s, p := SsidAt(t), PasswordAt(t);
    assert q[3] == t[3] && q[s] == t[s] && q[p] == t[p];
    SamePart(q, t, 4, s);
    SamePart(q, t, s + 1, p);
    SamePart(q, t, p + 1, p + 1 + t[p]);
  }

  /** The same for the request that is read off, which looks at nothing behind its end. */
  lemma RequestPrefix(q: seq<byte>, t: seq<byte>)
    requires 3 <= |q| && q <= t && LegalType(t[0])
    requires ScanPayload(q).Complete?
    ensures ScanPayload(t) == ScanPayload(q) && RequestAt(t) == RequestAt(q)
  {
    ScanPrefix(q, t);
    if t[0] == SEND_REQUEST {
      SameWords(q, t, 9, Word(t, 7));
    } else if t[0] == CONFIG_REQUEST {
      ConfigPrefix(q, t);
    }
  }

  lemma {:induction false} TimesOfEncoded(t: seq<byte>, from: nat, times: seq<uint16>)
    requires from + 2 * |times| <= |t| && t[from..from + 2 * |times|] == EncodeTimes(times)
    ensures Words(t, from, |times|) == times
  {
    if times != [] {
      var n, k, whole := |times| - 1, from + 2 * (|times| - 1), t[from..from + 2 * |times|];
      assert t[from..k] == whole[..2 * n] == EncodeTimes(times[..n]);
      assert t[k..k + 2] == whole[2 * n..] == WordBytes(times[n]);
      TimesOfEncoded(t, from, times[..n]);
      WordOfBytes(t, k, times[n]);
    }
  }

  lemma PartsOfThree(a: seq<byte>, b: seq<byte>, c: seq<byte>)
    ensures var u := a + b + c; u[..|a|] == a && u[|a|..|a| + |b|] == b && u[|a| + |b|..] == c
  {
  }

  lemma PartOfRest(t: seq<byte>, k: nat, i: nat, j: nat)
    requires k <= |t| && i <= j <= |t| - k
    ensures t[k + i..k + j] == t[k..][i..j]
  {
  }

  lemma EncodedSendParts(frequency: uint32, times: seq<uint16>, t: seq<byte>)
    requires |times| <= BUFFER_LENGTH
    requires |t| == 9 + 2 * |times|
    requires t[3..] == LongWordBytes(frequency) + WordBytes(|times|) + EncodeTimes(times)
    ensures LongWord(t, 3) == frequency && Word(t, 7) == |times| && Words(t, 9, |times|) == times
  {
    PartsOfThree(LongWordBytes(frequency), WordBytes(|times|), EncodeTimes(times));
    PartOfRest(t, 3, 0, 4);
    PartOfRest(t, 3, 4, 6);
    PartOfRest(t, 3, 6, 6 + 2 * |times|);
    LongWordOfBytes(t, 3, frequency);
    WordOfBytes(t, 7, |times|);
    TimesOfEncoded(t, 9, times);
  }

  lemma EncodedConfigParts(name: seq<byte>, ssid: seq<byte>, password: seq<byte>)
    requires WellFormed(Config(name, ssid, password))
    ensures var t := EncodePayload(Config(name, ssid, password));
            var s, p := 1 + |name|, 2 + |name| + |ssid|;
            && |t| == p + 1 + |password|
            && t[0] == |name| && t[1..s] == name
            && t[s] == |ssid| && t[s + 1..p] == ssid
            && t[p] == |password| && t[p + 1..] == password
  {
    var t := EncodePayload(Config(name, ssid, password));
    assert t == [|name|] + (name + ([|ssid|] + (ssid + ([|password|] + password))));
  }

  lemma EncodedConfig(name: seq<byte>, ssid: seq<byte>, password: seq<byte>, t: seq<byte>)
    requires WellFormed(Config(name, ssid, password))
    requires |t| >= 3 && t[0] == CONFIG_REQUEST && t[3..] == EncodePayload(Config(name, ssid, password))
    ensures ScanConfig(t) == Complete(|t|) && RequestAt(t) == Config(name, ssid, password)
  {
    EncodedConfigParts(name, ssid, password);
    var u, s, p := t[3..], 1 + |name|, 2 + |name| + |ssid|;
    assert t[3] == u[0] && t[3 + s] == u[s] && t[3 + p] == u[p];
    assert SsidAt(t) == 3 + s && PasswordAt(t) == 3 + p && |t| == 3 + |u|;
    PartOfRest(t, 3, 1, s);
    PartOfRest(t, 3, s + 1, p);
    PartOfRest(t, 3, p + 1, |u|);
    assert u[p + 1..|u|] == password;
  }

  lemma EncodedHead(r: Request)
    requires WellFormed(r)
    ensures var t := Encode(r);
            && |t| == 3 + |EncodePayload(r)| && t[0] == TypeByte(r)
            && Word(t, 1) == |EncodePayload(r)| && t[3..] == EncodePayload(r)
  {
    PartsOfThree([TypeByte(r)], WordBytes(|EncodePayload(r)|), EncodePayload(r));
    WordOfBytes(Encode(r), 1, |EncodePayload(r)|);
  }

  lemma EncodedScans(r: Request, t: seq<byte>)
    requires WellFormed(r)
    requires |t| >= 3 && t[0] == TypeByte(r) && t[3..] == EncodePayload(r)
    ensures ScanPayload(t) == Complete(|t|) && RequestAt(t) == r
  {
    match r {
      case Send(frequency, times) => EncodedSendParts(frequency, times, t);
      case Receive =>
      case Config(name, ssid, password) => EncodedConfig(name, ssid, password, t);
    }
  }

  /** Every well-formed request, followed by anything, is accepted at its last byte and decoded
      to itself. */
  lemma EncodedIsAccepted(r: Request, surplus: seq<byte>)
    requires WellFormed(r)
    ensures Judge(Encode(r) + surplus) == Accept(|Encode(r)|, r)
  {
    var q := Encode(r);
    EncodedHead(r);
    EncodedScans(r, q);
    assert q <= q + surplus && (q + surplus)[0] == q[0] && Word(q + surplus, 1) == Word(q, 1);
    RequestPrefix(q, q + surplus);
  }

  lemma {:induction false} EncodedOfWords(t: seq<byte>, from: nat, count: nat)
    requires from + 2 * count <= |t|
    ensures EncodeTimes(Words(t, from, count)) == t[from..from + 2 * count]
  {
    if count != 0 {
      var k, w, v := from + 2 * (count - 1), Words(t, from, count), Words(t, from, count - 1);
      EncodedOfWords(t, from, count - 1);
      assert w == v + [Word(t, k)];
      assert w[..count - 1] == v && w[count - 1] == Word(t, k);
      WordOfBytes(t, k, Word(t, k));
      assert t[from..k] + t[k..k + 2] == t[from..k + 2];
    }
  }

  lemma ScannedSend(t: seq<byte>)
    requires |t| >= 3 && t[0] == SEND_REQUEST && ScanSend(t).Complete?
    ensures WellFormed(RequestAt(t)) && EncodePayload(RequestAt(t)) == t[3..ScanSend(t).end]
  {
    var end, count := ScanSend(t).end, Word(t, 7);
    LongWordOfBytes(t, 3, LongWord(t, 3));
    WordOfBytes(t, 7, Word(t, 7));
    EncodedOfWords(t, 9, count);
    assert t[3..7] + t[7..9] + t[9..end] == t[3..end];
  }

  lemma ScannedConfig(t: seq<byte>)
    requires |t| >= 3 && t[0] == CONFIG_REQUEST && ScanConfig(t).Complete?
    ensures WellFormed(RequestAt(t)) && EncodePayload(RequestAt(t)) == t[3..ScanConfig(t).end]
  {
    var s, p, end := SsidAt(t), PasswordAt(t), ScanConfig(t).end;
    var name, ssid, password := t[4..s], t[s + 1..p], t[p + 1..end];
    assert |name| == t[3] && |ssid| == t[s] && |password| == t[p];
    assert t[3..s] == [t[3]] + name;
    assert t[s..p] == [t[s]] + ssid;
    assert t[p..end] == [t[p]] + password;
    assert t[3..end] == t[3..s] + t[s..p] + t[p..end];
    assert [t[3]] + name + [t[s]] + ssid + [t[p]] + password == t[3..s] + t[s..p] + t[p..end];
  }

  lemma EncodedFromParts(r: Request, t: seq<byte>, end: nat)
    requires WellFormed(r) && 3 <= end <= |t|
    requires t[0] == TypeByte(r) && Word(t, 1) == end - 3 && EncodePayload(r) == t[3..end]
    ensures Encode(r) == t[..end]
  {
    WordOfBytes(t, 1, end - 3);
    assert t[..end] == [t[0]] + t[1..3] + t[3..end];
  }

  /** Whatever is accepted is the encoding of a well-formed request: a legal type, a length field
      that counts the payload, and a payload within its bounds. */
  lemma AcceptedIsEncoded(t: seq<byte>)
    requires Judge(t).Accept?
    ensures var v := Judge(t); WellFormed(v.request) && v.end <= |t| && Encode(v.request) == t[..v.end]
  {
    var r, end := RequestAt(t), Judge(t).end;
    if t[0] == SEND_REQUEST {
      ScannedSend(t);
    } else if t[0] == CONFIG_REQUEST {
      ScannedConfig(t);
    } else {
      assert t[3..3] == [];
    }
    EncodedFromParts(r, t, end);
  }

  // ----- fragments -----

  /** The verdict of each call of read_request while the stream comes in as `fragments`, up to
      the first that is not More; `consumed` are the bytes read before. */
  function Verdicts(consumed: seq<byte>, fragments: seq<seq<byte>>): seq<Verdict>
    decreases |fragments|
  {
    if fragments == [] then [] else
    var v := Judge(consumed + fragments[0]);
    [v] + if v.More? then Verdicts(consumed + fragments[0], fragments[1..]) else []
  }

  function LastVerdict(consumed: seq<byte>, fragments: seq<seq<byte>>): Verdict {
    var vs := Verdicts(consumed, fragments);
    if vs == [] then More else vs[|vs| - 1]
  }

  /** Before the end of an acceptable request the server waits, from there on it accepts. */
  lemma JudgePrefix(q: seq<byte>, t: seq<byte>)
    requires q <= t && Judge(t).Accept?
    ensures Judge(q) == if |q| < Judge(t).end then More else Judge(t)
  {
    if |q| >= 3 {
      ScanPrefix(q, t);
      if ScanPayload(q).Complete? {
        RequestPrefix(q, t);
      }
    }
  }

  /** The calls on `fragments` all wait, but for the last, which reads the byte where `v` accepts. */
  ghost predicate AcceptedAtEnd(consumed: seq<byte>, fragments: seq<seq<byte>>, v: Verdict) {
    var vs, n := Verdicts(consumed, fragments), |Verdicts(consumed, fragments)|;
    && v.Accept?
    && 0 < n <= |fragments|
    && vs[n - 1] == v
    && (forall j :: 0 <= j < n - 1 ==> vs[j].More?)
    && |consumed| + |Concat(fragments[..n - 1])| < v.end <= |consumed| + |Concat(fragments[..n])|
  }

  lemma VerdictsStep(consumed: seq<byte>, fragments: seq<seq<byte>>)
    requires fragments != []
    ensures var c := consumed + fragments[0];
            Verdicts(consumed, fragments) == [Judge(c)] + if Judge(c).More? then Verdicts(c, fragments[1..]) else []
  {
  }

  lemma {:induction false} AcceptedAtItsEnd(t: seq<byte>, consumed: seq<byte>, fragments: seq<seq<byte>>)
    requires t == consumed + Concat(fragments) && Judge(t).Accept? && |consumed| < Judge(t).end <= |t|
    ensures AcceptedAtEnd(consumed, fragments, Judge(t))
    decreases |fragments|
  {
    var c, end := consumed + fragments[0], Judge(t).end;
    assert c + Concat(fragments[1..]) == t;
    JudgePrefix(c, t);
    VerdictsStep(consumed, fragments);
    if |c| < end {
      AcceptedAtItsEnd(t, c, fragments[1..]);
      var n := |Verdicts(c, fragments[1..])|;
      ConcatTake(fragments, n);
      ConcatTake(fragments, n + 1);
      assert |Verdicts(consumed, fragments)| == n + 1;
    } else {
      ConcatTake(fragments, 1);
      assert fragments[..0] == [];
    }
  }

  lemma BeginsEncoded(r: Request, t: seq<byte>)
    requires WellFormed(r) && Encode(r) <= t
    ensures Judge(t) == Accept(|Encode(r)|, r)
  {
    PrefixAndRest(Encode(r), t);
    EncodedIsAccepted(r, t[|Encode(r)|..]);
  }

  lemma PrefixAndRest(q: seq<byte>, t: seq<byte>)
    requires q <= t
    ensures t == q + t[|q|..]
  {
  }

  /** Fragmentation does not matter: for every way of cutting up a stream that begins with a
      well-formed request, empty fragments included, the server waits on every fragment before
      the one that holds the last byte, and on that one accepts exactly this request, leaving
      the bytes behind it alone. */
  lemma FragmentationIndependence(r: Request, fragments: seq<seq<byte>>)
    requires WellFormed(r) && Encode(r) <= Concat(fragments)
    ensures AcceptedAtEnd([], fragments, Accept(|Encode(r)|, r))
  {
    BeginsEncoded(r, Concat(fragments));
    assert [] + Concat(fragments) == Concat(fragments);
    AcceptedAtItsEnd(Concat(fragments), [], fragments);
  }

  lemma {:induction false} LastVerdictIsOfAPrefix(consumed: seq<byte>, fragments: seq<seq<byte>>) returns (k: nat)
    requires !LastVerdict(consumed, fragments).More?
    ensures k == |Verdicts(consumed, fragments)|
    ensures 0 < k <= |fragments| && LastVerdict(consumed, fragments) == Judge(consumed + Concat(fragments[..k]))
    decreases |fragments|
  {
    var c := consumed + fragments[0];
    ConcatTake(fragments, 1);
    assert c == consumed + Concat(fragments[..1]);
    k := 1;
    if Judge(c).More? {
      var j := LastVerdictIsOfAPrefix(c, fragments[1..]);
      k := j + 1;
      ConcatTake(fragments, k);
      assert consumed + Concat(fragments[..k]) == c + Concat(fragments[1..][..j]);
    }
  }

  lemma {:induction false} ConcatSplit(fragments: seq<seq<byte>>, k: nat)
    requires k <= |fragments|
    ensures Concat(fragments) == Concat(fragments[..k]) + Concat(fragments[k..])
  {
    if k == 0 {
      assert fragments[..0] == [] && fragments[0..] == fragments;
    } else {
      ConcatSplit(fragments[1..], k - 1);
      ConcatTake(fragments, k);
      assert fragments[1..][k - 1..] == fragments[k..];
    }
  }

  /** The parser decides one thing only, and the same under every fragmentation: a request is
      accepted exactly when the stream begins with its encoding and it is well formed. */
  lemma AcceptedIffEncoded(fragments: seq<seq<byte>>, r: Request)
    ensures (LastVerdict([], fragments).Accept? && LastVerdict([], fragments).request == r)
       <==> (WellFormed(r) && Encode(r) <= Concat(fragments))
  {
    var v := LastVerdict([], fragments);
    if v.Accept? && v.request == r {
      var k := LastVerdictIsOfAPrefix([], fragments);
      assert [] + Concat(fragments[..k]) == Concat(fragments[..k]);
      AcceptedIsEncoded(Concat(fragments[..k]));
      ConcatSplit(fragments, k);
    }
    if WellFormed(r) && Encode(r) <= Concat(fragments) {
      FragmentationIndependence(r, fragments);
    }
  }

  // ----- rejection -----

  /** Enough has come to decide the request whatever follows. */
  predicate Conclusive(t: seq<byte>) {
    |t| >= 3 && (LegalType(t[0]) ==> !ScanPayload(t).Incomplete?)
  }

  lemma {:induction false} WaitingAllAlong(consumed: seq<byte>, fragments: seq<seq<byte>>, k: nat)
    requires LastVerdict(consumed, fragments).More? && 0 < k <= |fragments|
    ensures Judge(consumed + Concat(fragments[..k])).More?
    decreases |fragments|
  {
    var c := consumed + fragments[0];
    ConcatTake(fragments, k);
    assert consumed + Concat(fragments[..k]) == c + Concat(fragments[1..][..k - 1]);
    if k == 1 {
      assert c + Concat(fragments[1..][..0]) == c;
    } else {
      WaitingAllAlong(c, fragments[1..], k - 1);
    }
  }

  lemma AcceptedStaysAccepted(fragments: seq<seq<byte>>)
    requires LastVerdict([], fragments).Accept?
    ensures Judge(Concat(fragments)) == LastVerdict([], fragments)
  {
    AcceptedIffEncoded(fragments, LastVerdict([], fragments).request);
    BeginsEncoded(LastVerdict([], fragments).request, Concat(fragments));
    var k := LastVerdictIsOfAPrefix([], fragments);
    assert [] + Concat(fragments[..k]) == Concat(fragments[..k]);
    AcceptedIsEncoded(Concat(fragments[..k]));
  }

  /** Once the stream is conclusive, accepting and rejecting depend on the stream alone: a wrong
      length field, an illegal type or an exceeded bound is rejected under every fragmentation. */
  lemma ConclusiveStreamsAreDecidedAlike(fragments: seq<seq<byte>>)
    requires Conclusive(Concat(fragments))
    ensures LastVerdict([], fragments).Stop? <==> Judge(Concat(fragments)).Stop?
    ensures LastVerdict([], fragments).Accept? <==> Judge(Concat(fragments)).Accept?
  {
    var t, v := Concat(fragments), LastVerdict([], fragments);
    assert [] + t == t && fragments[..|fragments|] == fragments;
    if v.More? {
      WaitingAllAlong([], fragments, |fragments|);
    } else if v.Accept? {
      AcceptedStaysAccepted(fragments);
    } else if Judge(t).Accept? {
      AcceptedIsEncoded(t);
      AcceptedIffEncoded(fragments, Judge(t).request);
    }
  }

  /** While it is not, a request is given up exactly when some fragment ends where the length
      field says the request should. */
  lemma InconclusiveStreamIsRejectedIff(fragments: seq<seq<byte>>)
    requires var t := Concat(fragments); |t| >= 3 && !Conclusive(t)
    ensures LastVerdict([], fragments).Stop?
       <==> exists k :: 0 <= k <= |fragments| && |Concat(fragments[..k])| == HEAD_LENGTH + Word(Concat(fragments), 1)
  {
    var t, v := Concat(fragments), LastVerdict([], fragments);
    if v.Stop? {
      var k := LastVerdictIsOfAPrefix([], fragments);
      InconclusivePrefix(fragments, k);
      assert |Concat(fragments[..k])| == HEAD_LENGTH + Word(t, 1);
    }
    if k :| 0 <= k <= |fragments| && |Concat(fragments[..k])| == HEAD_LENGTH + Word(t, 1) {
      InconclusivePrefix(fragments, k);
      assert fragments[..0] == [];
      if v.More? {
        WaitingAllAlong([], fragments, k);
      } else if v.Accept? {
        AcceptedStaysAccepted(fragments);
      }
    }
  }

  lemma InconclusivePrefix(fragments: seq<seq<byte>>, k: nat)
    requires var t := Concat(fragments); |t| >= 3 && !Conclusive(t)
    requires k <= |fragments|
    ensures var t, q := Concat(fragments), Concat(fragments[..k]);
            && [] + q == q
            && Judge(q) == if |q| >= 3 && |q| == HEAD_LENGTH + Word(t, 1) then Stop(|q|) else More
  {
    ConcatSplit(fragments, k);
    var t, q := Concat(fragments), Concat(fragments[..k]);
    assert q <= t;
    if |q| >= 3 {
      ScanPrefix(q, t);
    }
  }

  /** So rejection, unlike acceptance, does depend on the fragmentation: here the length field
      says 2, and only a fragment that ends there makes the server notice. */
  lemma RejectionDependsOnFragments()
    ensures var t: seq<byte> := [SEND_REQUEST, 0, 2, 0, 0, 0];
            LastVerdict([], [t]).More? && LastVerdict([], [t[..5], t[5..]]).Stop?
  {
    var t: seq<byte> := [SEND_REQUEST, 0, 2, 0, 0, 0];
    assert [] + t == t && [] + t[..5] == t[..5] && t[..5] + t[5..] == t;
    assert [t][1..] == [] && [t[..5], t[5..]][1..] == [t[5..]];
    assert Word(t, 1) == 2 && Judge(t).More? && Judge(t[..5]) == Stop(5);
    assert Verdicts([], [t]) == [More] + Verdicts(t, []);
  }
}
