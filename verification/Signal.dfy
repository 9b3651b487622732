/** Capture and emission of infrared signals in signal.c. */
module Signal {
  import opened Bytes
  import opened Captures
  import opened TimeBuffers

  // ----- emission: what goes to the pin -----

  datatype Action = Pin(bit: nat) | Delay(us: nat)

  /** periodic_time_half as init computes it, in a 16-bit field. */
  function HalfPeriod(frequency: uint32): uint16 {
    if frequency > 0 then 1000000 / frequency / 2 % TWO_TO_THE_16 else 0
  }

  lemma Monotone(x: nat, y: nat, d: nat)
    requires x <= y
    ensures x * d <= y * d
  {
    assert (y - x) * d >= 0;
  }

  lemma DivisionBounds(a: nat, d: nat, lo: nat, hi: nat)
    requires d > 0 && lo * d <= a < (hi + 1) * d
    ensures lo <= a / d <= hi
  {
    var q := a / d;
    var next := q + 1;
    assert q * d <= a < next * d;
    if q < lo {
      Monotone(next, lo, d);
    } else if q > hi {
      Monotone(hi + 1, q, d);
    }
  }

  /** Half the period is there and fits its field exactly for these frequencies. */
  lemma HalfPeriodIsExactIff(frequency: uint32)
    requires frequency > 0
    ensures (HalfPeriod(frequency) > 0 && HalfPeriod(frequency) == 1000000 / frequency / 2)
       <==> 8 <= frequency <= 500000
  {
    if frequency < 8 {
      DivisionBounds(1000000, frequency, 142857, 1000000);
    } else if frequency > 500000 {
      DivisionBounds(1000000, frequency, 0, 1);
    } else {
      DivisionBounds(1000000, frequency, 2, 125000);
    }
  }

  /** There is a half period at all, exact or not, for all frequencies but 0 and those above 500000. */
  lemma HalfPeriodIff(frequency: uint32)
    ensures HalfPeriod(frequency) > 0 <==> 1 <= frequency <= 500000
  {
    if frequency > 500000 {
      DivisionBounds(1000000, frequency, 0, 1);
    } else if frequency >= 8 {
      DivisionBounds(1000000, frequency, 2, 125000);
    }
  }

  /** Two half periods are as long as a period of this frequency allows, in whole microseconds. */
  lemma HalfPeriodFits(frequency: uint32)
    requires 8 <= frequency <= 500000
    ensures var half: nat := HalfPeriod(frequency); 2 * half * frequency <= 1000000 < (2 * half + 2) * frequency
  {
    HalfPeriodIsExactIff(frequency);
    HalvedQuotient(1000000, frequency);
  }

  lemma HalvedQuotient(a: nat, d: nat)
    requires d > 0
    ensures 2 * (a / d / 2) * d <= a < (2 * (a / d / 2) + 2) * d
  {
    var q: nat := a / d;
    var next: nat := q + 1;
    assert q * d <= a < next * d;
    Monotone(2 * (q / 2), q, d);
    Monotone(next, 2 * (q / 2) + 2, d);
  }

  /** The carrier: the pin toggles 1, 0, 1, ... with half a period between. */
  function Toggles(half: nat, n: nat): (a: seq<Action>)
    ensures |a| == 2 * n
  {
    if n == 0 then [] else Toggles(half, n - 1) + [Pin(n % 2), Delay(half)]
  }

  /** The count of half periods is kept in 16 bits. */
  function Mark(half: nat, time: nat): seq<Action>
    requires half > 0
  {
    Toggles(half, time / half % TWO_TO_THE_16) + [Pin(0)]
  }

  /** The count of half periods of a mark fits. */
  predicate Countable(half: nat, time: nat)
    requires half > 0
  {
    time / half < TWO_TO_THE_16
  }

  function Space(time: nat): seq<Action> {
    [Pin(0), Delay(time)]
  }

  function Turn(half: nat, k: nat, time: nat): seq<Action>
    requires half > 0
  {
    if k % 2 == 0 then Mark(half, time) else Space(time)
  }

  /** The first n times, marks and spaces in turn, a mark first. */
  function Emission(half: nat, times: seq<nat>, n: nat): seq<Action>
    requires half > 0 && n <= |times|
  {
    if n == 0 then [] else Emission(half, times, n - 1) + Turn(half, n - 1, times[n - 1])
  }

  function DelayOf(a: Action): nat {
    if a.Delay? then a.us else 0
  }

  /** How long the first n actions take. */
  function DelayOfFirst(a: seq<Action>, n: nat): nat
    requires n <= |a|
  {
    if n == 0 then 0 else DelayOfFirst(a, n - 1) + DelayOf(a[n - 1])
  }

  function TotalDelay(a: seq<Action>): nat {
    DelayOfFirst(a, |a|)
  }

  function Total(times: seq<nat>, n: nat): nat
    requires n <= |times|
  {
    if n == 0 then 0 else Total(times, n - 1) + times[n - 1]
  }

  /** How many of the first n times are marks. */
  function Marks(n: nat): nat {
    (n + 1) / 2
  }

  lemma {:induction false} DelayOfPrefix(a: seq<Action>, b: seq<Action>, n: nat)
    requires n <= |a|
    ensures DelayOfFirst(a + b, n) == DelayOfFirst(a, n)
  {
    if n != 0 {
      DelayOfPrefix(a, b, n - 1);
    }
  }

  lemma {:induction false} DelayOfSuffix(a: seq<Action>, b: seq<Action>, n: nat)
    requires n <= |b|
    ensures DelayOfFirst(a + b, |a| + n) == TotalDelay(a) + DelayOfFirst(b, n)
  {
    if n == 0 {
      DelayOfPrefix(a, b, |a|);
    } else {
      DelayOfSuffix(a, b, n - 1);
    }
  }

  lemma DelayOfTwo(a: seq<Action>, b: seq<Action>)
    ensures TotalDelay(a + b) == TotalDelay(a) + TotalDelay(b)
  {
    DelayOfSuffix(a, b, |b|);
  }

  lemma DelayOfPin(bit: nat)
    ensures TotalDelay([Pin(bit)]) == 0
  {
    assert DelayOfFirst([Pin(bit)], 0) == 0;
  }

  lemma DelayOfPair(p: Action, us: nat)
    requires p.Pin?
    ensures TotalDelay([p, Delay(us)]) == us
  {
    assert DelayOfFirst([p, Delay(us)], 1) == DelayOfFirst([p, Delay(us)], 0) + DelayOf(p);
  }

  lemma {:induction false} DelayOfToggles(half: nat, n: nat)
    ensures TotalDelay(Toggles(half, n)) == n * half
  {
    if n != 0 {
      var tail := [Pin(n % 2), Delay(half)];
      DelayOfToggles(half, n - 1);
      DelayOfTwo(Toggles(half, n - 1), tail);
      DelayOfPair(Pin(n % 2), half);
      assert n * half == (n - 1) * half + half;
    }
  }

  lemma DelayOfCount(half: nat, time: nat)
    requires half > 0
    ensures TotalDelay(Mark(half, time)) == time / half % TWO_TO_THE_16 * half
  {
    var n := time / half % TWO_TO_THE_16;
    DelayOfToggles(half, n);
    DelayOfTwo(Toggles(half, n), [Pin(0)]);
    DelayOfPin(0);
  }

  lemma WholePeriods(half: nat, time: nat)
    requires half > 0
    ensures time / half * half == time - time % half
  {
    assert time == half * (time / half) + time % half;
    assert half * (time / half) == time / half * half;
  }

  /** What a wrap of the count costs. */
  lemma WrappedPeriods(half: nat, q: nat)
    requires q >= TWO_TO_THE_16
    ensures q % TWO_TO_THE_16 * half + TWO_TO_THE_16 * half <= q * half
  {
    Monotone(q % TWO_TO_THE_16 + TWO_TO_THE_16, q, half);
    assert (q % TWO_TO_THE_16 + TWO_TO_THE_16) * half == q % TWO_TO_THE_16 * half + TWO_TO_THE_16 * half;
  }

  /** A mark lasts as many whole half periods as fit its time if and only if their count fits 16
      bits; otherwise it is too short by 2^16 of them or more. */
  lemma DelayOfMark(half: nat, time: nat)
    requires half > 0
    ensures TotalDelay(Mark(half, time)) <= time
    ensures TotalDelay(Mark(half, time)) == time - time % half <==> Countable(half, time)
    ensures time - half < TotalDelay(Mark(half, time)) <==> Countable(half, time)
    ensures !Countable(half, time) ==> TotalDelay(Mark(half, time)) + TWO_TO_THE_16 * half <= time
  {
    if Countable(half, time) {
      WholeMark(half, time);
    } else {
      WrappedMark(half, time);
      Monotone(1, TWO_TO_THE_16, half);
    }
  }

  lemma WholeMark(half: nat, time: nat)
    requires half > 0 && Countable(half, time)
    ensures TotalDelay(Mark(half, time)) == time - time % half
  {
    DelayOfCount(half, time);
    SmallRemainder(time / half, TWO_TO_THE_16);
    WholePeriods(half, time);
  }

  lemma WrappedMark(half: nat, time: nat)
    requires half > 0 && !Countable(half, time)
    ensures TotalDelay(Mark(half, time)) + TWO_TO_THE_16 * half <= time
  {
    DelayOfCount(half, time);
    WrappedPeriods(half, time / half);
    WholePeriods(half, time);
  }

  lemma DelayOfTurn(half: nat, k: nat, time: nat)
    requires half > 0
    ensures var d := TotalDelay(Turn(half, k, time));
            && d <= time
            && (k % 2 != 0 ==> d == time)
            && (k % 2 == 0 && Countable(half, time) ==> time - half < d)
            && (k % 2 == 0 && !Countable(half, time) ==> d + TWO_TO_THE_16 * half <= time)
  {
    if k % 2 == 0 {
      DelayOfMark(half, time);
    } else {
      DelayOfPair(Pin(0), time);
    }
  }

  /** How long the first n turns take. */
  function DelayOfTurns(half: nat, times: seq<nat>, n: nat): nat
    requires half > 0 && n <= |times|
  {
    if n == 0 then 0 else DelayOfTurns(half, times, n - 1) + TotalDelay(Turn(half, n - 1, times[n - 1]))
  }

  lemma {:induction false} EmissionDelay(half: nat, times: seq<nat>, n: nat)
    requires half > 0 && n <= |times|
    ensures TotalDelay(Emission(half, times, n)) == DelayOfTurns(half, times, n)
  {
    if n != 0 {
      EmissionDelay(half, times, n - 1);
      DelayOfTwo(Emission(half, times, n - 1), Turn(half, n - 1, times[n - 1]));
    }
  }

  /** All marks among the first n times have a count that fits. */
  predicate AllCountable(half: nat, times: seq<nat>, n: nat)
    requires half > 0 && n <= |times|
  {
    forall k :: 0 <= k < n && k % 2 == 0 ==> Countable(half, times[k])
  }

  lemma {:induction false} TurnsError(half: nat, times: seq<nat>, n: nat)
    requires half > 0 && n <= |times|
    ensures DelayOfTurns(half, times, n) <= Total(times, n)
    ensures n > 0 && AllCountable(half, times, n) ==>
              Total(times, n) - Marks(n) * half < DelayOfTurns(half, times, n)
    ensures !AllCountable(half, times, n) ==> DelayOfTurns(half, times, n) + TWO_TO_THE_16 * half <= Total(times, n)
  {
    if n != 0 {
      TurnsError(half, times, n - 1);
      DelayOfTurn(half, n - 1, times[n - 1]);
      OneMore(Marks(n - 1), half);
      assert Marks(n) == Marks(n - 1) + if (n - 1) % 2 == 0 then 1 else 0;
    }
  }

  lemma OneMore(n: nat, half: nat)
    ensures (n + 1) * half == n * half + half
  {
  }

  /** The error bound: an emission never lasts longer than its times say, and it falls short by less
      than half a period for each mark if and only if the counts of all marks fit 16 bits. */
  lemma EmissionError(half: nat, times: seq<nat>)
    requires half > 0 && 0 < |times| < TWO_TO_THE_16
    ensures TotalDelay(Emission(half, times, |times|)) <= Total(times, |times|)
    ensures Total(times, |times|) - Marks(|times|) * half < TotalDelay(Emission(half, times, |times|))
       <==> AllCountable(half, times, |times|)
  {
    EmissionDelay(half, times, |times|);
    TurnsError(half, times, |times|);
    Monotone(Marks(|times|), TWO_TO_THE_16, half);
  }

  /** Toggle k of a mark sets the pin to 1 for even k and 0 for odd k, and after the mark it is low. */
  lemma {:induction false} TogglesAlternate(half: nat, n: nat, k: nat)
    requires k < n
    ensures Toggles(half, n)[2 * k] == Pin(1 - k % 2) && Toggles(half, n)[2 * k + 1] == Delay(half)
  {
    if k < n - 1 {
      TogglesAlternate(half, n - 1, k);
    } else {
      assert n % 2 == 1 - k % 2;
    }
  }

  // ----- emission: what the pin shows -----

  /** The level of the pin before action n: what it was last told, or 0. */
  function LevelBefore(a: seq<Action>, n: nat): nat
    requires n <= |a|
  {
    if n == 0 then 0 else if a[n - 1].Pin? then a[n - 1].bit else LevelBefore(a, n - 1)
  }

  /** In the actions from `from` on, a space: one delay, with the pin low. */
  predicate ShowsSpace(a: seq<Action>, from: nat, to: nat, time: nat) {
    to == from + 2 <= |a| && a[from].Pin? && a[from + 1] == Delay(time) && LevelBefore(a, from + 1) == 0
  }

  /** And a mark: `count` delays of half a period, with the pin high and low in turn. */
  predicate ShowsMark(a: seq<Action>, from: nat, to: nat, half: nat, count: nat) {
    && to == from + 2 * count + 1 <= |a| && a[to - 1].Pin?
    && forall j :: 0 <= j < count ==> ShowsHalf(a, from + 2 * j, half, 1 - j % 2)
  }

  predicate ShowsHalf(a: seq<Action>, i: nat, half: nat, level: int) {
    i + 2 <= |a| && a[i].Pin? && a[i + 1] == Delay(half) && LevelBefore(a, i + 1) == level
  }

  /** The turns behind the first k. */
  lemma {:induction false} EmissionInTwo(half: nat, times: seq<nat>, k: nat, n: nat) returns (rest: seq<Action>)
    requires half > 0 && k <= n <= |times|
    ensures Emission(half, times, n) == Emission(half, times, k) + rest
    decreases n
  {
    if k == n {
      rest := [];
      ActionsInThree(Emission(half, times, k), [], []);
    } else {
      var turn := Turn(half, n - 1, times[n - 1]);
      rest := EmissionInTwo(half, times, k, n - 1);
      ActionsInThree(Emission(half, times, k), rest, turn);
      rest := rest + turn;
    }
  }

  lemma ActionsInThree(a: seq<Action>, b: seq<Action>, c: seq<Action>)
    ensures (a + b) + c == a + (b + c)
    ensures b == [] ==> a + b == a
  {
  }

  /** Turn k lies in an emission at its place. */
  lemma TurnInEmission(half: nat, times: seq<nat>, n: nat, k: nat)
    requires half > 0 && k < n <= |times|
    ensures var a, from, to := Emission(half, times, n), |Emission(half, times, k)|, |Emission(half, times, k + 1)|;
            from <= to <= |a| && a[from..to] == Turn(half, k, times[k])
  {
    var rest := EmissionInTwo(half, times, k + 1, n);
    MiddlePart(Emission(half, times, k), Turn(half, k, times[k]), rest);
  }

  lemma MiddlePart(front: seq<Action>, turn: seq<Action>, rest: seq<Action>)
    ensures (front + turn + rest)[|front|..|front + turn|] == turn
  {
  }

  lemma MarkShown(a: seq<Action>, from: nat, to: nat, half: nat, count: nat)
    requires from <= to <= |a| && a[from..to] == Toggles(half, count) + [Pin(0)]
    ensures ShowsMark(a, from, to, half, count) && LevelBefore(a, to) == 0
  {
    var s := a[from..to];
    assert s[2 * count] == Pin(0) == a[to - 1];
    forall j | 0 <= j < count
      ensures ShowsHalf(a, from + 2 * j, half, 1 - j % 2)
    {
      TogglesAlternate(half, count, j);
      assert s[2 * j] == a[from + 2 * j] && s[2 * j + 1] == a[from + 2 * j + 1];
    }
  }

  lemma SpaceShown(a: seq<Action>, from: nat, to: nat, time: nat)
    requires from <= to <= |a| && a[from..to] == Space(time)
    ensures ShowsSpace(a, from, to, time) && LevelBefore(a, to) == 0
  {
    var s := a[from..to];
    assert s[0] == a[from] && s[1] == a[from + 1];
  }

  /** What an emission shows, time after time: during time k the pin is low for as long as it says, if k is
      odd; it is high and low in turn, for half a period each and as often as that fits the time, counted in
      16 bits, if k is even; and it is low after every time. */
  lemma EmissionShows(half: nat, times: seq<nat>, n: nat, k: nat)
    requires half > 0 && k < n <= |times|
    ensures var a, from, to := Emission(half, times, n), |Emission(half, times, k)|, |Emission(half, times, k + 1)|;
            && (k % 2 == 1 ==> ShowsSpace(a, from, to, times[k]))
            && (k % 2 == 0 ==> ShowsMark(a, from, to, half, times[k] / half % TWO_TO_THE_16))
            && to <= |a| && LevelBefore(a, to) == 0
  {
    var a, from, to := Emission(half, times, n), |Emission(half, times, k)|, |Emission(half, times, k + 1)|;
    TurnInEmission(half, times, n, k);
    if k % 2 == 1 {
      SpaceShown(a, from, to, times[k]);
    } else {
      MarkShown(a, from, to, half, times[k] / half % TWO_TO_THE_16);
    }
  }

  lemma QuotientIsNoMore(half: nat, time: nat)
    requires half > 0
    ensures time / half <= time
  {
    WholePeriods(half, time);
    Monotone(1, half, time / half);
  }

  /** The counts of marks of one or two bytes always fit. */
  lemma ShortTimesAreCountable(half: nat, memory: seq<byte>, width: nat, count: nat)
    requires half > 0 && Width(width) && width <= 2 && Offset(width, count) <= |memory|
    ensures AllCountable(half, TimesIn(memory, width, count), count)
  {
    forall k | 0 <= k < count
      ensures Countable(half, TimesIn(memory, width, count)[k])
    {
      ShortTime(memory, width, count, k);
      QuotientIsNoMore(half, TimesIn(memory, width, count)[k]);
    }
  }

  // ----- the station -----

  /** signal_station_t. `memory` is times.start, of which `capacity` bytes are the buffer, and
      `cursor` is times.position - times.start; `actions` is what the pin has been told. */
  class Station {
    const memory: array<byte>
    var capacity: uint16
    var cursor: nat
    var timeLength: nat
    var frequency: uint32
    var signalTimeout: uint32
    var pulseTimeout: uint32
    var position: uint16
    var half: uint16
    ghost var actions: seq<Action>

    constructor (memory: array<byte>, capacity: uint16, timeLength: nat, frequency: uint32)
      requires capacity <= memory.Length && Width(timeLength)
      ensures Valid() && cursor == 0 && this.memory == memory && this.capacity == capacity
      ensures this.timeLength == timeLength && this.frequency == frequency && actions == []
      ensures signalTimeout == 100000 && pulseTimeout == 10000
    {
      this.memory, this.capacity, this.timeLength, this.frequency := memory, capacity, timeLength, frequency;
      signalTimeout, pulseTimeout, cursor, position, half, actions := 100000, 10000, 0, 0, 0, [];
    }

    ghost predicate Valid()
      reads this
    {
      && capacity <= memory.Length
      && Width(timeLength)
    }

    /** signal_station_length */
    function Length(): uint16
      requires timeLength > 0
      reads this
    {
      capacity / timeLength
    }

    /** init */
    method Init()
      modifies this`position, this`half
      ensures position == 0 && half == HalfPeriod(frequency)
    {
      position := 0;
      if frequency > 0 {
        half := 1000000 / frequency / 2 % TWO_TO_THE_16;
      } else {
        half := 0;
      }
    }

    ghost method Act(a: Action)
      modifies this`actions
      ensures actions == old(actions) + [a]
    {
      actions := actions + [a];
    }

    /** space */
    method EmitSpace(time: nat)
      modifies this`actions
      ensures actions == old(actions) + Space(time)
    {
      Act(Pin(0));
      Act(Delay(time));
    }

    /** mark, which divides by the half period: without one the processor gets no further. */
    method EmitMark(time: nat) returns (ok: bool)
      modifies this`actions
      ensures ok == (half > 0)
      ensures actions == if half > 0 then old(actions) + Mark(half, time) else old(actions)
    {
      if half == 0 {
        return false;
      }
      var n: uint16 := time / half % TWO_TO_THE_16;
      var i: uint16 := 0;
      while i < n
        modifies this`actions
        invariant i <= n && actions == old(actions) + Toggles(half, i)
      {
        i := i + 1;
        Act(Pin(i % 2));
        Act(Delay(half));
      }
      Act(Pin(0));
      ok := true;
    }

    /** time_read */
    method TimeRead() returns (ok: bool, time: nat)
      requires Valid()
      modifies this`position
      ensures ok == (old(position) < Length())
      ensures position == if ok then old(position) + 1 else old(position)
      ensures ok ==> Offset(timeLength, old(position) + 1) <= memory.Length
      ensures ok ==> time == Narrow(memory[..], Offset(timeLength, old(position)), timeLength)
    {
      if position >= Length() {
        return false, 0;
      }
      Fits(position + 1);
      time := Narrow(memory[..], Offset(timeLength, position), timeLength);
      position := position + 1;
      ok := true;
    }

    /** The times in the buffer, all that it has room for. */
    ghost function Times(): (t: seq<nat>)
      requires Valid()
      reads this, memory
      ensures |t| == Length()
    {
      Fits(Length());
      TimesIn(memory[..], timeLength, Length())
    }

    lemma TimeAt(k: nat)
      requires Valid() && k < Length()
      ensures Offset(timeLength, k + 1) <= memory.Length
      ensures Times()[k] == Narrow(memory[..], Offset(timeLength, k), timeLength)
    {
      Fits(k + 1);
      Fits(Length());
      TimesInAt(memory[..], timeLength, Length(), k);
    }

    lemma Fits(n: nat)
      requires Valid() && n <= Length()
      ensures Offset(timeLength, n) <= capacity
    {
    }

    /** signal_send: the whole buffer, marks and spaces in turn; or, if there is a time but no half
        period, nothing, since the first mark divides by zero. */
    method Send() returns (ok: bool)
      requires Valid()
      modifies this`position, this`half, this`actions
      ensures half == HalfPeriod(frequency) && ok == (half > 0 || Length() == 0)
      ensures actions == if half > 0 then old(actions) + [Pin(0)] + Emission(half, Times(), Length())
                         else old(actions) + [Pin(0)]
    {
      Init();
      Act(Pin(0));
      if half > 0 {
        SendAll(Times());
        return true;
      }
      var more, time := TimeRead();
      ok := !more;
      if more {
        ok := EmitMark(time);
      }
    }

    /** The loop of signal_send. */
    method SendAll(ghost times: seq<nat>)
      requires Valid() && half > 0 && position == 0 && times == Times()
      modifies this`position, this`actions
      ensures Valid() && actions == old(actions) + Emission(half, times, Length())
    {
      var ok := true;
      assert actions + [] == actions;
      while ok
        modifies this`position, this`actions
        invariant position <= Length() && actions == old(actions) + Emission(half, times, position)
        invariant if ok then position % 2 == 0 else position == Length()
        decreases Length() - position, ok
      {
        ok := SendTime(times, old(actions));
        if ok {
          ok := SendTime(times, old(actions));
        }
      }
    }

    method EmitTurn(time: nat, k: nat)
      requires half > 0
      modifies this`actions
      ensures actions == old(actions) + Turn(half, k, time)
    {
      if k % 2 == 0 {
        var ok := EmitMark(time);
      } else {
        EmitSpace(time);
      }
    }

    /** time_read, which goes through the times in the buffer. */
    method ReadNext(ghost times: seq<nat>) returns (ok: bool, time: nat)
      requires Valid() && position <= Length() && times == Times()
      modifies this`position
      ensures ok == (old(position) < Length()) && position == (if ok then old(position) + 1 else old(position))
      ensures ok ==> time == times[old(position)]
    {
      if position < Length() {
        TimeAt(position);
      }
      ok, time := TimeRead();
    }

    /** A time is read and, if there was one, emitted in its turn. */
    method SendTime(ghost times: seq<nat>, ghost before: seq<Action>) returns (ok: bool)
      requires Valid() && half > 0 && position <= Length() && times == Times()
      requires actions == before + Emission(half, times, position)
      modifies this`position, this`actions
      ensures ok == (old(position) < Length()) && position == (if ok then old(position) + 1 else old(position))
      ensures position <= Length() && actions == before + Emission(half, times, position)
    {
      var time;
      ok, time := ReadNext(times);
      if ok {
        EmitTurn(time, position - 1);
        EmissionMore(before, half, times, position - 1);
      }
    }

    /** The store of time_write: the low bytes of the time, in the processor's order. */
    method Store(time: nat)
      requires Valid() && cursor + timeLength <= memory.Length
      modifies memory
      ensures Narrow(memory[..], cursor, timeLength) == Cut(time, timeLength)
      ensures forall i :: 0 <= i < memory.Length && !(cursor <= i < cursor + timeLength) ==> memory[i] == old(memory[i])
    {
      if timeLength == 1 {
        memory[cursor] := time % 0x100;
        LittleEndianOne(memory[..], cursor);
      } else if timeLength == 2 {
        memory[cursor] := time % 0x100;
        memory[cursor + 1] := time / 0x100 % 0x100;
        LittleEndianTwo(memory[..], cursor);
      } else {
        memory[cursor] := time % 0x100;
        memory[cursor + 1] := time / 0x100 % 0x100;
        memory[cursor + 2] := time / 0x10000 % 0x100;
        memory[cursor + 3] := time / 0x1000000 % 0x100;
        LittleEndianFour(memory[..], cursor);
        FourBytes(time);
      }
    }

    /** The cursor is behind the times that have been written. */
    ghost predicate Aligned()
      reads this
    {
      Laid(memory.Length, capacity, timeLength, position, cursor)
    }

    ghost function Written(): (t: seq<nat>)
      requires Aligned()
      reads this, memory
      ensures |t| == position
    {
      Fits(position);
      TimesIn(memory[..], timeLength, position)
    }

    /** The store at the cursor adds a time to those that are there. */
    method StoreNext(time: nat)
      requires Aligned() && position < Length()
      modifies memory
      ensures cursor + timeLength == Offset(timeLength, position + 1) <= capacity
      ensures TimesIn(memory[..], timeLength, position + 1)
           == TimesIn(old(memory[..]), timeLength, position) + [Cut(time, timeLength)]
      ensures forall i :: cursor + timeLength <= i < memory.Length ==> memory[i] == old(memory[i])
    {
      Fits(position + 1);
      ghost var was := memory[..];
      Store(time);
      OneTimeMore(was, memory[..], timeLength, position, capacity);
    }

    /** time_write: nothing is written, and nothing lost before, when the buffer is full. */
    method TimeWrite(time: nat) returns (ok: bool)
      requires Aligned()
      modifies this`position, this`cursor, memory
      ensures Aligned() && ok == (old(position) < Length())
      ensures Written() == old(Written()) + if ok then [Cut(time, timeLength)] else []
      ensures old(cursor) <= cursor && forall i :: cursor <= i < memory.Length ==> memory[i] == old(memory[i])
    {
      if position >= Length() {
        return false;
      }
      StoreNext(time);
      cursor := cursor + timeLength;
      position := position + 1;
      ok := true;
    }

    /** signal_receive, over the samples (levels, clock) that it takes; `n` is the sample at which
        it stops. The clock is read modulo 2^32, and it gets past the signal timeout some time, at
        the latest at sample `bound`. */
    method Receive(levels: nat -> bool, clock: nat -> nat, ghost bound: nat) returns (n: nat)
      requires Valid() && cursor == 0 && Regular(clock, TWO_TO_THE_32 - signalTimeout)
      requires bound > 0 && clock(bound) - clock(0) >= signalTimeout
      modifies this`position, this`cursor, this`half, memory
      ensures n > 0 && Sampled(levels, clock, n)
      ensures old(cursor) <= cursor && forall i :: cursor <= i < memory.Length ==> memory[i] == old(memory[i])
      ensures Stops(levels, clock, n) && Conserves(levels, clock, n)
    {
      Init();
      SampledAtStart(levels, clock);
      n := SampleAll(levels, clock, bound);
      Conserved(levels, clock, n);
    }

    /** When all edges fit the buffer, the times that are stored add up to the time from the start
        to the last edge. */
    ghost predicate Conserves(levels: nat -> bool, clock: nat -> nat, n: nat)
      requires Aligned()
      reads this, memory
    {
      |Durations(levels, clock, n)| <= Length() && pulseTimeout <= Power256(timeLength) ==>
        && Sum(Written()) == LastEdge(levels, clock, n) - clock(0)
        && (Written() == [] || Sum(Written()) < signalTimeout)
    }

    lemma Conserved(levels: nat -> bool, clock: nat -> nat, n: nat)
      requires n > 0 && Sampled(levels, clock, n) && Regular(clock, TWO_TO_THE_32 - signalTimeout)
      ensures Conserves(levels, clock, n)
    {
      if |Durations(levels, clock, n)| <= Length() && pulseTimeout <= Power256(timeLength) {
        CaptureConserves(levels, clock, n, timeLength, signalTimeout, pulseTimeout);
      }
    }

    /** The loop of signal_receive. */
    method SampleAll(levels: nat -> bool, clock: nat -> nat, ghost bound: nat) returns (n: nat)
      requires Sampled(levels, clock, 1) && Regular(clock, TWO_TO_THE_32 - signalTimeout)
      requires bound > 0 && clock(bound) - clock(0) >= signalTimeout
      modifies this`position, this`cursor, memory
      ensures n > 0 && Sampled(levels, clock, n) && Stops(levels, clock, n)
      ensures old(cursor) <= cursor && forall i :: cursor <= i < memory.Length ==> memory[i] == old(memory[i])
    {
      var start: uint32 := clock(0) % TWO_TO_THE_32;
      var last, current := start, levels(0);
      n := 1;
      while true
        modifies this`position, this`cursor, memory
        invariant n <= bound && Sampled(levels, clock, n) && Tracks(levels, clock, n, last, current)
        invariant old(cursor) <= cursor
        invariant forall j :: cursor <= j < memory.Length ==> memory[j] == old(memory[j])
        decreases bound - n
      {
        var stop;
        stop, last, current := Sample(levels, clock, n, start, last, current);
        if stop { break; }
        n := n + 1;
      }
    }

    ghost predicate Stops(levels: nat -> bool, clock: nat -> nat, n: nat)
      requires timeLength > 0
      reads this
    {
      Ends(levels, clock, n, Length(), signalTimeout, pulseTimeout)
    }

    /** The body of the loop of signal_receive. */
    method Sample(levels: nat -> bool, clock: nat -> nat, n: nat, start: uint32, last: uint32, current: bool)
      returns (stop: bool, last': uint32, current': bool)
      requires Sampled(levels, clock, n) && Regular(clock, TWO_TO_THE_32 - signalTimeout)
      requires Tracks(levels, clock, n, last, current) && start == clock(0) % TWO_TO_THE_32
      modifies this`position, this`cursor, memory
      ensures !stop ==> clock(n) - clock(0) < signalTimeout
      ensures stop ==> Sampled(levels, clock, n) && Stops(levels, clock, n)
      ensures !stop ==> Sampled(levels, clock, n + 1) && Tracks(levels, clock, n + 1, last', current')
      ensures old(cursor) <= cursor && forall i :: cursor <= i < memory.Length ==> memory[i] == old(memory[i])
    {
      var read := levels(n);
      var now: uint32 := clock(n) % TWO_TO_THE_32;
      var time: uint32 := (now - last) % TWO_TO_THE_32;
      last', current' := last, current;
      Elapsed(levels, clock, n, signalTimeout);
      TracksOn(levels, clock, n, last, current);
      if (now - start) % TWO_TO_THE_32 >= signalTimeout || time >= pulseTimeout {
        return true, last, current;
      }
      if read == current {
        Quiet(levels, clock, n);
        return false, last, current;
      }
      if 0 >= Length() {
        return true, last, current;
      }
      Record(levels, clock, n, time);
      return false, now, read;
    }

    /** The samples before n have been dealt with: the first min(edges, capacity) durations are
        stored, all durations are pulses, and the signal has not timed out. */
    ghost predicate Sampled(levels: nat -> bool, clock: nat -> nat, n: nat)
      reads this, memory
    {
      && Aligned()
      && Recorded(levels, clock, n, Written(), Length(), timeLength, signalTimeout, pulseTimeout)
    }

    lemma SampledAtStart(levels: nat -> bool, clock: nat -> nat)
      requires Valid() && cursor == 0 && position == 0
      ensures Sampled(levels, clock, 1)
    {
      assert Offset(timeLength, 0) == 0;
    }

    /** The pin has not changed at sample n. */
    lemma Quiet(levels: nat -> bool, clock: nat -> nat, n: nat)
      requires n > 0 && Sampled(levels, clock, n) && !Edge(levels, n) && clock(n) - clock(0) < signalTimeout
      ensures Sampled(levels, clock, n + 1)
    {
      assert Durations(levels, clock, n + 1) == Durations(levels, clock, n);
    }

    /** The pin has changed at sample n. */
    method Record(levels: nat -> bool, clock: nat -> nat, n: nat, time: uint32)
      requires n > 0 && Sampled(levels, clock, n) && Edge(levels, n)
      requires time == clock(n) - LastEdge(levels, clock, n) && 0 <= time < pulseTimeout
      requires clock(n) - clock(0) < signalTimeout
      modifies this`position, this`cursor, memory
      ensures Sampled(levels, clock, n + 1)
      ensures old(cursor) <= cursor && forall i :: cursor <= i < memory.Length ==> memory[i] == old(memory[i])
    {
      ghost var d := Durations(levels, clock, n);
      CutOfMore(d, time, position, timeLength);
      assert Durations(levels, clock, n + 1) == d + [time];
      var ok := TimeWrite(time);
    }
  }

  lemma EmissionMore(before: seq<Action>, half: nat, times: seq<nat>, k: nat)
    requires half > 0 && k < |times|
    ensures before + Emission(half, times, k) + Turn(half, k, times[k]) == before + Emission(half, times, k + 1)
  {
  }
}
