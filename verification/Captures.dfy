/** The capture of signals in signal.c, as far as it is about the samples alone: which durations they
    show, and what they add up to. */
module Captures {
  import opened Bytes

  /** Sample k sees the pin change. */
  predicate Edge(levels: nat -> bool, k: nat) {
    k > 0 && levels(k) != levels(k - 1)
  }

  /** The clock at the last edge among the samples before n, or at the start. */
  function LastEdge(levels: nat -> bool, clock: nat -> nat, n: nat): nat {
    if n <= 1 then clock(0) else if Edge(levels, n - 1) then clock(n - 1) else LastEdge(levels, clock, n - 1)
  }

  /** The durations between the edges among the samples before n. */
  function Durations(levels: nat -> bool, clock: nat -> nat, n: nat): seq<int> {
    if n <= 1 then [] else
    var d := Durations(levels, clock, n - 1);
    if Edge(levels, n - 1) then d + [clock(n - 1) - LastEdge(levels, clock, n - 1)] else d
  }

  // ----- which durations these are, in terms of the levels alone -----

  /** A stretch of one level begins with sample k: it is the first, or sees another level than the one before. */
  predicate Begins(levels: nat -> bool, k: nat) {
    k == 0 || levels(k) != levels(k - 1)
  }

  /** How many samples before n see another level than the one before them. */
  function Changes(levels: nat -> bool, n: nat): nat {
    if n <= 1 then 0 else Changes(levels, n - 1) + if levels(n - 1) != levels(n - 2) then 1 else 0
  }

  lemma {:induction false} ChangesCounted(levels: nat -> bool, clock: nat -> nat, n: nat)
    ensures |Durations(levels, clock, n)| == Changes(levels, n)
  {
    if n > 1 {
      ChangesCounted(levels, clock, n - 1);
    }
  }

  lemma {:induction false} DurationsStay(levels: nat -> bool, clock: nat -> nat, m: nat, n: nat)
    requires m <= n
    ensures Durations(levels, clock, m) <= Durations(levels, clock, n)
    decreases n
  {
    if m < n {
      DurationsStay(levels, clock, m, n - 1);
    }
  }

  lemma {:induction false} LastEdgeStays(levels: nat -> bool, clock: nat -> nat, j: nat, k: nat)
    requires j < k && Begins(levels, j)
    requires forall m: nat :: j < m < k ==> !Begins(levels, m)
    ensures LastEdge(levels, clock, k) == clock(j)
    decreases k
  {
    if j + 1 < k {
      assert !Begins(levels, k - 1);
      LastEdgeStays(levels, clock, j, k - 1);
    }
  }

  /** Up to the change at sample k the durations add up to the time since the start. */
  lemma DurationsUpTo(levels: nat -> bool, clock: nat -> nat, n: nat, k: nat)
    requires 0 < k < n && Begins(levels, k)
    ensures Changes(levels, k + 1) <= |Durations(levels, clock, n)|
    ensures Sum(Durations(levels, clock, n)[..Changes(levels, k + 1)]) == clock(k) - clock(0)
  {
    var d, all := Durations(levels, clock, k + 1), Durations(levels, clock, n);
    DurationsStay(levels, clock, k + 1, n);
    ChangesCounted(levels, clock, k + 1);
    TakePrefix(d, all);
    DurationsTelescope(levels, clock, k + 1);
    assert LastEdge(levels, clock, k + 1) == clock(k);
  }

  lemma TakePrefix(d: seq<int>, all: seq<int>)
    requires d <= all
    ensures all[..|d|] == d
  {
  }

  /** Each duration is the time between a change, at sample k, and the one before it, at sample j, or the
      start: the first durations are those of the changes before k. */
  lemma DurationBetween(levels: nat -> bool, clock: nat -> nat, n: nat, j: nat, k: nat)
    requires j < k < n && Begins(levels, j) && Begins(levels, k)
    requires forall m: nat :: j < m < k ==> !Begins(levels, m)
    ensures Changes(levels, k) < |Durations(levels, clock, n)|
    ensures Durations(levels, clock, n)[Changes(levels, k)] == clock(k) - clock(j)
  {
    LastEdgeStays(levels, clock, j, k);
    DurationsStay(levels, clock, k + 1, n);
    ChangesCounted(levels, clock, k);
    assert Durations(levels, clock, k + 1) == Durations(levels, clock, k) + [clock(k) - clock(j)];
  }

  function Sum(s: seq<int>): int {
    if s == [] then 0 else Sum(s[..|s| - 1]) + s[|s| - 1]
  }

  /** Conservation: the durations add up to the time between the start and the last edge. */
  lemma {:induction false} DurationsTelescope(levels: nat -> bool, clock: nat -> nat, n: nat)
    ensures Sum(Durations(levels, clock, n)) == LastEdge(levels, clock, n) - clock(0)
  {
    if n > 1 {
      DurationsTelescope(levels, clock, n - 1);
      var d := Durations(levels, clock, n - 1);
      if Edge(levels, n - 1) {
        assert (d + [clock(n - 1) - LastEdge(levels, clock, n - 1)])[..|d|] == d;
      }
    }
  }

  /** From sample k to the next the clock does not go back, and moves by less than `gap`. Two
      samples may well see the same microsecond. */
  predicate Ticks(clock: nat -> nat, gap: int, k: nat) {
    clock(k) <= clock(k + 1) < clock(k) + gap
  }

  ghost predicate Regular(clock: nat -> nat, gap: int) {
    forall k: nat {:trigger Ticks(clock, gap, k)} :: Ticks(clock, gap, k)
  }

  lemma {:induction false} LastEdgeBetween(levels: nat -> bool, clock: nat -> nat, n: nat, gap: int)
    requires n > 0 && Regular(clock, gap)
    ensures clock(0) <= LastEdge(levels, clock, n) <= clock(n - 1)
  {
    if n > 1 {
      LastEdgeBetween(levels, clock, n - 1, gap);
      assert Ticks(clock, gap, n - 2);
    }
  }

  /** The difference of two readings of the clock, both taken modulo 2^32. */
  function Since(later: nat, earlier: nat): uint32 {
    (later % TWO_TO_THE_32 - earlier % TWO_TO_THE_32) % TWO_TO_THE_32
  }

  lemma SinceIsExact(later: nat, earlier: nat)
    requires earlier <= later < earlier + TWO_TO_THE_32
    ensures Since(later, earlier) == later - earlier
  {
  }

  /** All durations are below the pulse timeout. */
  ghost predicate Pulses(d: seq<int>, pulseTimeout: int) {
    forall i :: 0 <= i < |d| ==> 0 <= d[i] < pulseTimeout
  }

  function Power256(width: nat): (p: nat)
    ensures p > 0
  {
    if width == 0 then 1 else 0x100 * Power256(width - 1)
  }

  /** A duration cut down to the width of the stored times. */
  function Cut(d: int, width: nat): nat {
    d % Power256(width)
  }

  /** The first m durations, cut down. */
  function CutFirst(d: seq<int>, m: nat, width: nat): (t: seq<nat>)
    requires m <= |d|
    ensures |t| == m
  {
    if m == 0 then [] else CutFirst(d, m - 1, width) + [Cut(d[m - 1], width)]
  }

  lemma {:induction false} CutOfMore(d: seq<int>, x: int, m: nat, width: nat)
    requires m <= |d|
    ensures CutFirst(d + [x], m, width) == CutFirst(d, m, width)
  {
    if m != 0 {
      CutOfMore(d, x, m - 1, width);
    }
  }

  /** Conservation of a capture that fits: what is stored adds up to the time from the start to
      the last edge, which is before the signal timeout. */
  lemma CaptureConserves(levels: nat -> bool, clock: nat -> nat, n: nat, width: nat,
                         signalTimeout: nat, pulseTimeout: nat)
    requires n > 0 && Regular(clock, TWO_TO_THE_32 - signalTimeout)
    requires Pulses(Durations(levels, clock, n), pulseTimeout) && pulseTimeout <= Power256(width)
    requires n > 1 ==> clock(n - 1) - clock(0) < signalTimeout
    ensures var d := Durations(levels, clock, n);
            && CutFirst(d, |d|, width) == d
            && Sum(d) == LastEdge(levels, clock, n) - clock(0)
            && (n > 1 ==> Sum(d) < signalTimeout)
  {
    var d := Durations(levels, clock, n);
    CutIsLossless(d, |d|, width, pulseTimeout);
    assert d[..|d|] == d;
    DurationsTelescope(levels, clock, n);
    LastEdgeBetween(levels, clock, n, TWO_TO_THE_32 - signalTimeout);
  }

  /** Nothing is lost when every duration fits. */
  lemma {:induction false} CutIsLossless(d: seq<int>, m: nat, width: nat, pulseTimeout: nat)
    requires pulseTimeout <= Power256(width) && Pulses(d, pulseTimeout) && m <= |d|
    ensures CutFirst(d, m, width) == d[..m]
  {
    if m != 0 {
      CutIsLossless(d, m - 1, width, pulseTimeout);
      SmallRemainder(d[m - 1], Power256(width));
    }
  }

  lemma SmallRemainder(x: nat, m: nat)
    requires x < m
    ensures x % m == x
  {
  }

  /** The samples before n have been recorded: of the durations between their edges the first
      min(edges, capacity) are in `times`, all are below the pulse timeout, and the signal has not
      timed out. */
  ghost predicate Recorded(levels: nat -> bool, clock: nat -> nat, n: nat, times: seq<nat>, capacity: nat, width: nat,
                           signalTimeout: nat, pulseTimeout: nat)
  {
    var d := Durations(levels, clock, n);
    && |times| == Min(|d|, capacity) && times == CutFirst(d, |times|, width)
    && Pulses(d, pulseTimeout)
    && (n > 1 ==> clock(n - 1) - clock(0) < signalTimeout)
  }

  /** The variables of the sampling loop before sample n. */
  ghost predicate Tracks(levels: nat -> bool, clock: nat -> nat, n: nat, last: uint32, current: bool) {
    n > 0 && current == levels(n - 1) && last == LastEdge(levels, clock, n) % TWO_TO_THE_32
  }

  lemma TracksOn(levels: nat -> bool, clock: nat -> nat, n: nat, last: uint32, current: bool)
    requires Tracks(levels, clock, n, last, current)
    ensures levels(n) == current ==> Tracks(levels, clock, n + 1, last, current)
    ensures levels(n) != current ==> Tracks(levels, clock, n + 1, clock(n) % TWO_TO_THE_32, levels(n))
    ensures levels(n) == current <==> !Edge(levels, n)
  {
  }

  /** So the differences of the 32-bit readings at the next sample are the times that have passed. */
  lemma Elapsed(levels: nat -> bool, clock: nat -> nat, n: nat, signalTimeout: nat)
    requires n > 0 && Regular(clock, TWO_TO_THE_32 - signalTimeout)
    requires n > 1 ==> clock(n - 1) - clock(0) < signalTimeout
    ensures clock(0) <= LastEdge(levels, clock, n) <= clock(n)
    ensures Since(clock(n), clock(0)) == clock(n) - clock(0)
    ensures Since(clock(n), LastEdge(levels, clock, n)) == clock(n) - LastEdge(levels, clock, n)
  {
    assert Ticks(clock, TWO_TO_THE_32 - signalTimeout, n - 1);
    LastEdgeBetween(levels, clock, n, TWO_TO_THE_32 - signalTimeout);
    SinceIsExact(clock(n), clock(0));
    SinceIsExact(clock(n), LastEdge(levels, clock, n));
  }

  /** Why signal_receive stops: a signal timeout, a pulse timeout, or an edge without a buffer (the
      count of edges that is compared with the length of the buffer never advances). */
  predicate Ends(levels: nat -> bool, clock: nat -> nat, n: nat, capacity: nat, signalTimeout: nat, pulseTimeout: nat) {
    || clock(n) - clock(0) >= signalTimeout
    || clock(n) - LastEdge(levels, clock, n) >= pulseTimeout
    || (capacity == 0 && Edge(levels, n))
  }

  lemma {:induction false} LastEdgeIsLater(levels: nat -> bool, clock: nat -> nat, j: nat, k: nat, gap: int)
    requires j < k && Begins(levels, j) && Regular(clock, gap)
    ensures clock(j) <= LastEdge(levels, clock, k)
    decreases k
  {
    if j + 1 < k {
      LastEdgeIsLater(levels, clock, j, k - 1, gap);
      LastEdgeBetween(levels, clock, k - 1, gap);
      assert Ticks(clock, gap, k - 2);
    } else {
      LastEdgeBetween(levels, clock, k, gap);
    }
  }

  /** Up to sample m the signal goes on: at each sample, the last change or the start is less than the pulse
      timeout ago. */
  ghost predicate GoesOn(levels: nat -> bool, clock: nat -> nat, m: nat, pulseTimeout: nat) {
    forall k: nat :: 0 < k <= m ==> ChangedSince(levels, clock, k, pulseTimeout)
  }

  ghost predicate ChangedSince(levels: nat -> bool, clock: nat -> nat, k: nat, pulseTimeout: nat) {
    exists j: nat :: j < k && Begins(levels, j) && clock(k) < clock(j) + pulseTimeout
  }

  lemma {:induction false} ClockGrows(clock: nat -> nat, j: nat, k: nat, gap: int)
    requires j <= k && Regular(clock, gap)
    ensures clock(j) <= clock(k)
    decreases k
  {
    if j < k {
      ClockGrows(clock, j, k - 1, gap);
      assert Ticks(clock, gap, k - 1);
    }
  }

  /** A capture does not stop too early: it samples the whole of a signal that goes on and is shorter than the
      signal timeout. */
  lemma WholeSignalIsSampled(levels: nat -> bool, clock: nat -> nat, n: nat, m: nat, capacity: nat,
                             signalTimeout: nat, pulseTimeout: nat, gap: int)
    requires n > 0 && capacity > 0 && Regular(clock, gap)
    requires Ends(levels, clock, n, capacity, signalTimeout, pulseTimeout)
    requires GoesOn(levels, clock, m, pulseTimeout) && clock(m) - clock(0) < signalTimeout
    ensures n > m
  {
    if n <= m {
      ClockGrows(clock, n, m, gap);
      EndsNotYet(levels, clock, n, signalTimeout, pulseTimeout, gap);
    }
  }

  lemma EndsNotYet(levels: nat -> bool, clock: nat -> nat, n: nat, signalTimeout: nat, pulseTimeout: nat, gap: int)
    requires n > 0 && Regular(clock, gap)
    requires ChangedSince(levels, clock, n, pulseTimeout) && clock(n) - clock(0) < signalTimeout
    ensures clock(n) - LastEdge(levels, clock, n) < pulseTimeout && clock(n) - clock(0) < signalTimeout
  {
    var j: nat :| j < n && Begins(levels, j) && clock(n) < clock(j) + pulseTimeout;
    LastEdgeIsLater(levels, clock, j, n, gap);
  }
}
