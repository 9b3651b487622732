/** The worker and the station of signal.c together: how long an emission lasts, and what a client gets
    to see of the samples that a capture has taken. */
module WorkerSignals {
  import opened Bytes
  import Streams
  import opened Requests
  import opened RequestStates
  import opened Responses
  import opened Captures
  import opened TimeBuffers
  import opened WorkerMachine
  import opened WorkerRuns
  import Infrared = Signal

  const SIGNAL_TIMEOUT := 100000
  const PULSE_TIMEOUT := 10000

  /** The station and the response writer see the same times in the buffer. */
  lemma {:induction false} SameTimes(buffer: seq<byte>, count: nat)
    requires 2 * count <= |buffer|
    ensures TimesIn(buffer, TIME_LENGTH, count) == TimesOf(buffer, count)
  {
    if count != 0 {
      SameTimes(buffer, count - 1);
      LittleEndianTwo(buffer, 2 * count - 2);
    }
  }

  /** What TimesOf reads is what StoredTimes stores. */
  lemma {:induction false} StoredAgain(buffer: seq<byte>, count: nat)
    requires 2 * count <= |buffer|
    ensures StoredTimes(TimesOf(buffer, count)) == buffer[..2 * count]
  {
    if count != 0 {
      var times, k := TimesOf(buffer, count - 1), 2 * count - 2;
      StoredAgain(buffer, count - 1);
      StoredMore(times, buffer[k], buffer[k + 1]);
      TwoMore(buffer, k);
    }
  }

  lemma TwoMore(buffer: seq<byte>, k: nat)
    requires k + 2 <= |buffer|
    ensures buffer[..k + 2] == buffer[..k] + [buffer[k], buffer[k + 1]]
  {
  }

  lemma StoredMore(times: seq<uint16>, lo: byte, hi: byte)
    ensures StoredTimes(times + [Stored(lo, hi)]) == StoredTimes(times) + [lo, hi]
  {
    StoredParts(lo, hi);
    StoredLast(times, Stored(lo, hi));
  }

  lemma StoredParts(lo: byte, hi: byte)
    ensures InMemory(Stored(lo, hi)) == [lo, hi]
  {
    assert Stored(lo, hi) % 0x100 == lo && Stored(lo, hi) / 0x100 == hi;
  }

  lemma StoredLast(times: seq<uint16>, v: uint16)
    ensures StoredTimes(times + [v]) == StoredTimes(times) + InMemory(v)
  {
    assert (times + [v])[..|times|] == times;
  }

  /** A buffer whose end a capture has left alone is the old one with the captured times in front. */
  lemma CaptureInBuffer(was: seq<byte>, now: seq<byte>, count: nat)
    requires 2 * count <= |was| == |now| && forall i :: 2 * count <= i < |was| ==> now[i] == was[i]
    ensures now == WithCapture(was, TimesOf(now, count))
  {
    StoredAgain(now, count);
    OverwrittenBefore(was, now, now[..2 * count]);
  }

  lemma OverwrittenBefore(was: seq<byte>, now: seq<byte>, front: seq<byte>)
    requires front <= now && |was| == |now| && forall i :: |front| <= i < |was| ==> now[i] == was[i]
    ensures now == Streams.Overwritten(was, 0, front)
  {
  }

  // ----- emission -----

  /** Every emission that keeps to the rules, and so by RunsFollowTheRules every emission of a worker,
      lasts as long as the 128 times in its slots say, but for less than half a period for each mark. */
  lemma EmissionLasts(d: Duty, frequency: uint32, slots: seq<uint16>)
    requires !Next(d, Emitted(frequency, slots)).Broken?
    ensures |slots| == TIMES_MAX && Infrared.HalfPeriod(frequency) > 0
    ensures var half := Infrared.HalfPeriod(frequency);
            var delay := Infrared.TotalDelay(Infrared.Emission(half, slots, TIMES_MAX));
            Infrared.Total(slots, TIMES_MAX) - TIMES_MAX / 2 * half < delay <= Infrared.Total(slots, TIMES_MAX)
  {
    var half := Infrared.HalfPeriod(frequency);
    Infrared.HalfPeriodIff(frequency);
    AllSlotsCountable(half, slots, |slots|);
    Infrared.EmissionError(half, slots);
  }

  lemma AllSlotsCountable(half: nat, slots: seq<uint16>, n: nat)
    requires half > 0 && n <= |slots|
    ensures Infrared.AllCountable(half, slots, n)
  {
    forall k | 0 <= k < n
      ensures Infrared.Countable(half, slots[k])
    {
      Infrared.QuotientIsNoMore(half, slots[k]);
    }
  }

  // ----- capture -----

  /** The samples before n have been captured into the buffer of the worker, and sample n ended the capture. */
  ghost predicate CapturedFrom(levels: nat -> bool, clock: nat -> nat, n: nat, times: seq<uint16>) {
    && n > 0 && |times| <= TIMES_MAX
    && Recorded(levels, clock, n, times, TIMES_MAX, TIME_LENGTH, SIGNAL_TIMEOUT, PULSE_TIMEOUT)
    && Ends(levels, clock, n, TIMES_MAX, SIGNAL_TIMEOUT, PULSE_TIMEOUT)
  }

  /** So the times are the first durations between edges, as they were; and if all have found room they add
      up to the time between the start and the last edge. */
  lemma CapturedDurations(levels: nat -> bool, clock: nat -> nat, n: nat, times: seq<uint16>)
    requires CapturedFrom(levels, clock, n, times) && Regular(clock, TWO_TO_THE_32 - SIGNAL_TIMEOUT)
    ensures var d := Durations(levels, clock, n);
            && times == d[..Min(|d|, TIMES_MAX)]
            && (|d| <= TIMES_MAX ==> Sum(times) == LastEdge(levels, clock, n) - clock(0) < SIGNAL_TIMEOUT)
  {
    var d := Durations(levels, clock, n);
    LittleEndianTwo([0, 0], 0);
    CutIsLossless(d, |times|, TIME_LENGTH, PULSE_TIMEOUT);
    CaptureConserves(levels, clock, n, TIME_LENGTH, SIGNAL_TIMEOUT, PULSE_TIMEOUT);
  }

  /** From the pin to the client: what a client decodes from the response to a receive request is the
      durations between the edges that the samples show, the first 128 of them; and they add up to the time
      between the start and the last edge if there are no more. */
  lemma ClientSeesTheDurations(v: View, levels: nat -> bool, clock: nat -> nat, n: nat, times: seq<uint16>)
    requires WF(v) && v.phase.Processing? && v.interruptArmed && !v.sendLock && v.socket
    requires CapturedFrom(levels, clock, n, times) && Regular(clock, TWO_TO_THE_32 - SIGNAL_TIMEOUT)
    ensures var entries, d := Step(v, Signal(times)).entries, Durations(levels, clock, n);
            && |entries| == 2 && entries[0].Responded?
            && var seen := DecodeCapture(entries[0].bytes);
               && seen.Capture? && seen.times == d[..Min(|d|, TIMES_MAX)]
               && (|d| <= TIMES_MAX ==> Sum(seen.times) == LastEdge(levels, clock, n) - clock(0) < SIGNAL_TIMEOUT)
  {
    CapturedDurations(levels, clock, n, times);
    CaptureReachesTheClient(v, times);
  }

  /** A change and the one before it, or the start. */
  ghost predicate Neighbours(levels: nat -> bool, j: nat, k: nat) {
    j < k && Begins(levels, j) && Begins(levels, k) && forall i: nat :: j < i < k ==> !Begins(levels, i)
  }

  /** The times of the changes up to sample m, as many as there is room for: each is the time between a change,
      at sample k, and the one before it, at sample j, or the start. */
  ghost predicate ShowsChanges(levels: nat -> bool, clock: nat -> nat, m: nat, times: seq<int>) {
    && |times| == Min(Changes(levels, m + 1), TIMES_MAX)
    && forall j: nat, k: nat :: Neighbours(levels, j, k) && k <= m && Changes(levels, k) < |times| ==>
         times[Changes(levels, k)] == clock(k) - clock(j)
  }

  lemma {:induction false} NoMoreChanges(levels: nat -> bool, m: nat, n: nat)
    requires 0 < m <= n && forall k: nat :: m <= k < n ==> !Begins(levels, k)
    ensures Changes(levels, n) == Changes(levels, m)
    decreases n
  {
    if m < n {
      assert !Begins(levels, n - 1);
      NoMoreChanges(levels, m, n - 1);
    }
  }

  lemma DurationsShowChanges(levels: nat -> bool, clock: nat -> nat, n: nat, m: nat)
    requires m < n && forall k: nat :: m < k ==> !Begins(levels, k)
    ensures var d := Durations(levels, clock, n); ShowsChanges(levels, clock, m, d[..Min(|d|, TIMES_MAX)])
  {
    var d := Durations(levels, clock, n);
    ChangesCounted(levels, clock, n);
    NoMoreChanges(levels, m + 1, n);
    var t := d[..Min(|d|, TIMES_MAX)];
    forall j: nat, k: nat | Neighbours(levels, j, k) && k <= m && Changes(levels, k) < |t|
      ensures t[Changes(levels, k)] == clock(k) - clock(j)
    {
      DurationBetween(levels, clock, n, j, k);
    }
  }

  /** A whole signal: it goes on up to its last change, at sample m, and is shorter than the signal timeout. The
      client sees as many durations as there are changes, up to 128, and each is the time between neighbours. */
  lemma ClientSeesTheSignal(v: View, levels: nat -> bool, clock: nat -> nat, n: nat, times: seq<uint16>, m: nat)
    requires WF(v) && v.phase.Processing? && v.interruptArmed && !v.sendLock && v.socket
    requires CapturedFrom(levels, clock, n, times) && Regular(clock, TWO_TO_THE_32 - SIGNAL_TIMEOUT)
    requires GoesOn(levels, clock, m, PULSE_TIMEOUT) && clock(m) - clock(0) < SIGNAL_TIMEOUT
    requires forall k: nat :: m < k ==> !Begins(levels, k)
    ensures var entries := Step(v, Signal(times)).entries;
            && |entries| == 2 && entries[0].Responded?
            && var seen := DecodeCapture(entries[0].bytes);
               seen.Capture? && ShowsChanges(levels, clock, m, seen.times)
  {
    ClientSeesTheDurations(v, levels, clock, n, times);
    WholeSignalIsSampled(levels, clock, n, m, TIMES_MAX, SIGNAL_TIMEOUT, PULSE_TIMEOUT, TWO_TO_THE_32 - SIGNAL_TIMEOUT);
    DurationsShowChanges(levels, clock, n, m);
  }

  // ----- the station at work -----

  lemma FirstAction(a: Infrared.Action)
    ensures [] + [a] == [a]
  {
  }

  /** signal_send on a buffer of times. */
  method Play(memory: array<byte>, frequency: uint32) returns (ok: bool, station: Infrared.Station)
    requires memory.Length >= BUFFER_LENGTH
    ensures ok == Sendable(frequency) && fresh(station)
    ensures ok ==> && Infrared.HalfPeriod(frequency) > 0
                   && station.actions == [Infrared.Pin(0)]
                      + Infrared.Emission(Infrared.HalfPeriod(frequency), TimesOf(memory[..], TIMES_MAX), TIMES_MAX)
  {
    station := new Infrared.Station(memory, BUFFER_LENGTH, TIME_LENGTH, frequency);
    Infrared.HalfPeriodIff(frequency);
    ghost var slots := TimesOf(memory[..], TIMES_MAX);
    assert station.Times() == slots by {
      SameTimes(memory[..], TIMES_MAX);
    }
    ok := station.Send();
    FirstAction(Infrared.Pin(0));
  }

  lemma LaidInBuffer(size: nat, count: nat, cursor: nat)
    requires Laid(size, BUFFER_LENGTH, TIME_LENGTH, count, cursor)
    ensures cursor == 2 * count && cursor / TIME_LENGTH == count && count <= TIMES_MAX && 2 * count <= size
  {
  }

  lemma IsCaptured(levels: nat -> bool, clock: nat -> nat, n: nat, written: seq<nat>, times: seq<uint16>)
    requires n > 0 && written == times && |times| <= TIMES_MAX
    requires Recorded(levels, clock, n, written, TIMES_MAX, TIME_LENGTH, SIGNAL_TIMEOUT, PULSE_TIMEOUT)
    requires Ends(levels, clock, n, TIMES_MAX, SIGNAL_TIMEOUT, PULSE_TIMEOUT)
    ensures CapturedFrom(levels, clock, n, times)
  {
  }

  /** signal_receive on a buffer of times, with the timeouts of the server; `cursor` is where the buffer
      stands. */
  method Listen(memory: array<byte>, cursor: nat, levels: nat -> bool, clock: nat -> nat, ghost bound: nat)
    returns (size: uint16, ghost n: nat, ghost times: seq<uint16>)
    requires memory.Length >= BUFFER_LENGTH && cursor == 0
    requires Regular(clock, TWO_TO_THE_32 - SIGNAL_TIMEOUT)
    requires bound > 0 && clock(bound) - clock(0) >= SIGNAL_TIMEOUT
    modifies memory
    ensures CapturedFrom(levels, clock, n, times) && size == |times|
    ensures memory[..] == WithCapture(old(memory[..]), times)
  {
    var station := new Infrared.Station(memory, BUFFER_LENGTH, TIME_LENGTH, 0);
    station.cursor := cursor;
    var last := station.Receive(levels, clock, bound);
    LaidInBuffer(memory.Length, station.position, station.cursor);
    size, n := station.cursor / TIME_LENGTH, last;
    times := TimesOf(memory[..], size);
    SameTimes(memory[..], size);
    IsCaptured(levels, clock, n, station.Written(), times);
    CaptureInBuffer(old(memory[..]), memory[..], size);
  }
}
