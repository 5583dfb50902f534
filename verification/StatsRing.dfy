/** The traffic counters of a connection (c-cpp/onethread/sockbuf.c): a ring of five one-second buckets.

    The ring is compared with a log of everything that happened, and when. Only a report looks at the clock, so the
    code credits bytes to the second of the last report before them; what it reports is compared with the bytes
    that moved. The abstract state indexes buckets by age, and forgets where in the ring they lie.
 */
module StatsRing {

  datatype Way = In | Out

  /** Bytes that moved at a time, and a look at the clock. */
  datatype Event = Moved(way: Way, n: nat, at: int) | Tick(now: int)

  type Log = seq<Event>

  // ----- the reference: what the log says -----

  /** The clock reading of the last tick. A connection's counters start zeroed. */
  function Clock(log: Log): int {
    if log == [] then 0
    else match log[|log| - 1]
      case Tick(now) => now
      case Moved(_, _, _) => Clock(log[..|log| - 1])
  }

  /** Seconds counted so far: a clock that goes backwards counts nothing. */
  function Elapsed(log: Log): nat {
    if log == [] then 0
    else
      var before := log[..|log| - 1];
      match log[|log| - 1]
      case Tick(now) => Elapsed(before) + Forward(Clock(before), now)
      case Moved(_, _, _) => Elapsed(before)
  }

  function Forward(last: int, now: int): nat { if now > last then now - last else 0 }

  /** The bytes that moved in the seconds `lo` up to `hi`. */
  function Traffic(log: Log, way: Way, lo: int, hi: int): nat {
    if log == [] then 0
    else
      var e := log[|log| - 1];
      Traffic(log[..|log| - 1], way, lo, hi) + if e.Moved? && e.way == way && lo <= e.at < hi then e.n else 0
  }

  /** The bytes credited to those seconds: by the last tick before them. */
  function Credited(log: Log, way: Way, lo: int, hi: int): nat {
    if log == [] then 0
    else
      var before := log[..|log| - 1];
      var e := log[|log| - 1];
      Credited(before, way, lo, hi) + if e.Moved? && e.way == way && lo <= Elapsed(before) < hi then e.n else 0
  }

  function Total(log: Log, way: Way): nat {
    if log == [] then 0
    else
      var e := log[|log| - 1];
      Total(log[..|log| - 1], way) + if e.Moved? && e.way == way then e.n else 0
  }

  /** Bytes that moved in those seconds but are credited to others, and the other way round. */
  function Lost(log: Log, way: Way, lo: int, hi: int): nat {
    if log == [] then 0
    else
      var before := log[..|log| - 1];
      var e := log[|log| - 1];
      Lost(before, way, lo, hi)
      + if e.Moved? && e.way == way && lo <= e.at < hi && !(lo <= Elapsed(before) < hi) then e.n else 0
  }

  function Extra(log: Log, way: Way, lo: int, hi: int): nat {
    if log == [] then 0
    else
      var before := log[..|log| - 1];
      var e := log[|log| - 1];
      Extra(before, way, lo, hi)
      + if e.Moved? && e.way == way && !(lo <= e.at < hi) && lo <= Elapsed(before) < hi then e.n else 0
  }

  function Time(e: Event): int { match e case Tick(now) => now case Moved(_, _, at) => at }

  function Latest(log: Log): int { if log == [] then 0 else Time(log[|log| - 1]) }

  /** Everything is logged in the order in which it happened. */
  ghost predicate Chronological(log: Log) {
    log == [] || (Chronological(log[..|log| - 1]) && Time(log[|log| - 1]) >= Latest(log[..|log| - 1]))
  }

  ghost predicate NonDecreasing(log: Log) {
    log == []
    || (NonDecreasing(log[..|log| - 1])
        && (log[|log| - 1].Tick? ==> log[|log| - 1].now >= Clock(log[..|log| - 1])))
  }

  /** Counted seconds are the clock's own exactly when no tick went backwards. */
  lemma {:induction false} ElapsedIsClock(log: Log)
    ensures Elapsed(log) >= Clock(log)
    ensures Elapsed(log) == Clock(log) <==> NonDecreasing(log)
  {
    if log != [] {
      ElapsedIsClock(log[..|log| - 1]);
    }
  }

  lemma {:induction false} CreditedSplits(log: Log, way: Way, lo: int, mid: int, hi: int)
    requires lo <= mid <= hi
    ensures Credited(log, way, lo, hi) == Credited(log, way, lo, mid) + Credited(log, way, mid, hi)
  {
    if log != [] {
      CreditedSplits(log[..|log| - 1], way, lo, mid, hi);
    }
  }

  lemma {:induction false} Accounting(log: Log, way: Way, lo: int, hi: int)
    ensures Credited(log, way, lo, hi) + Lost(log, way, lo, hi) == Traffic(log, way, lo, hi) + Extra(log, way, lo, hi)
  {
    if log != [] {
      Accounting(log[..|log| - 1], way, lo, hi);
    }
  }

  lemma {:induction false} ClockInOrder(log: Log)
    requires Chronological(log)
    ensures NonDecreasing(log) && Elapsed(log) == Clock(log) <= Latest(log)
  {
    if log != [] {
      ClockInOrder(log[..|log| - 1]);
    }
  }

  /** Every byte that moved in the window had a look at the clock before it, in the window. */
  ghost predicate Ticked(log: Log, way: Way, lo: int, hi: int) {
    forall i :: 0 <= i < |log| && log[i].Moved? && log[i].way == way && log[i].n > 0 && lo <= log[i].at < hi ==>
      Clock(log[..i]) >= lo
  }

  /** And so it was, in the same way, for bytes that moved after the window. */
  ghost predicate TickedSince(log: Log, way: Way, hi: int) {
    forall i :: 0 <= i < |log| && log[i].Moved? && log[i].way == way && log[i].n > 0 && log[i].at >= hi ==>
      Clock(log[..i]) >= hi
  }

  /** With nothing credited to the window from after it, the bytes credited to it are those that moved in it exactly if
      the clock was looked at, within the window, before each of them. */
  lemma RightIffTicked(log: Log, way: Way, lo: int, hi: int)
    requires Chronological(log) && TickedSince(log, way, hi)
    ensures Credited(log, way, lo, hi) == Traffic(log, way, lo, hi) <==> Ticked(log, way, lo, hi)
  {
    Accounting(log, way, lo, hi);
    NoneExtra(log, way, lo, hi);
    NoneLost(log, way, lo, hi);
  }

  /** The `i`th event is the last of its prefix. */
  lemma Prefixes(log: Log)
    requires log != []
    ensures var before := log[..|log| - 1];
      forall i :: 0 <= i < |before| ==> log[i] == before[i] && log[..i] == before[..i]
  {
  }

  lemma {:induction false} NoneExtra(log: Log, way: Way, lo: int, hi: int)
    requires Chronological(log) && TickedSince(log, way, hi)
    ensures Extra(log, way, lo, hi) == 0
  {
    if log != [] {
      Prefixes(log);
      ClockInOrder(log[..|log| - 1]);
      NoneExtra(log[..|log| - 1], way, lo, hi);
    }
  }

  lemma {:induction false} NoneLost(log: Log, way: Way, lo: int, hi: int)
    requires Chronological(log)
    ensures Lost(log, way, lo, hi) == 0 <==> Ticked(log, way, lo, hi)
  {
    if log != [] {
      var before, e := log[..|log| - 1], log[|log| - 1];
      Prefixes(log);
      ClockInOrder(before);
      NoneLost(before, way, lo, hi);
      if Ticked(before, way, lo, hi) && !Ticked(log, way, lo, hi) {
        var i :| 0 <= i < |log| && log[i].Moved? && log[i].way == way && log[i].n > 0 && lo <= log[i].at < hi
          && Clock(log[..i]) < lo;
        assert i == |log| - 1;
      }
    }
  }

  lemma {:induction false} InOrder(log: Log, i: nat)
    requires Chronological(log) && i < |log|
    ensures Time(log[i]) <= Latest(log) && Clock(log[..i]) <= Time(log[i])
  {
    if i < |log| - 1 {
      Prefixes(log);
      InOrder(log[..|log| - 1], i);
    } else {
      ClockInOrder(log[..i]);
    }
  }

  /** Each of the last four seconds in which bytes moved saw a look at the clock before them. */
  ghost predicate LatelyTicked(log: Log, way: Way) {
    forall i :: 0 <= i < |log| && log[i].Moved? && log[i].way == way && log[i].n > 0 && log[i].at >= Latest(log) - 3 ==>
      Clock(log[..i]) == log[i].at
  }

  /** The bytes credited to the last four seconds are those that moved in them. */
  predicate RightAt(log: Log, way: Way, now: int) {
    Credited(log, way, now - 4, now) == Traffic(log, way, now - 4, now)
  }

  /** Exactly then every later report will be right. */
  lemma RightFromNowOn(log: Log, way: Way)
    requires Chronological(log)
    ensures (forall now :: now > Latest(log) ==> RightAt(log, way, now)) <==> LatelyTicked(log, way)
  {
    forall i | 0 <= i < |log| ensures Time(log[i]) <= Latest(log) && Clock(log[..i]) <= Time(log[i]) {
      InOrder(log, i);
    }
    forall now | now > Latest(log)
      ensures RightAt(log, way, now) <==> Ticked(log, way, now - 4, now)
    {
      RightIffTicked(log, way, now - 4, now);
    }
    if !LatelyTicked(log, way) {
      var i :| 0 <= i < |log| && log[i].Moved? && log[i].way == way && log[i].n > 0 && log[i].at >= Latest(log) - 3
        && Clock(log[..i]) != log[i].at;
      var now := log[i].at + 4;
      assert !Ticked(log, way, now - 4, now);
      assert !RightAt(log, way, now);
    }
  }

  /** Nothing is logged in a second not yet reached. */
  lemma {:induction false} NothingAhead(log: Log, way: Way, lo: int, hi: int)
    requires lo > Elapsed(log)
    ensures Credited(log, way, lo, hi) == 0
  {
    if log != [] {
      NothingAhead(log[..|log| - 1], way, lo, hi);
    }
  }

  // ----- buckets by age -----

  const SIZE: nat := 5

  type Ages = s: seq<nat> | |s| == SIZE witness [0, 0, 0, 0, 0]

  const EMPTY: Ages := [0, 0, 0, 0, 0]

  datatype View = View(ins: Ages, outs: Ages, last: int, rawIn: nat, rawOut: nat)

  const START := View(EMPTY, EMPTY, 0, 0, 0)

  /** Everything grows older by `n` seconds; nothing bounds `n`. */
  function Older(ages: Ages, n: nat): Ages
    decreases n
  {
    if n == 0 then ages else Older([0] + ages[..SIZE - 1], n - 1)
  }

  function Credit(ages: Ages, n: nat): Ages { ages[0 := ages[0] + n] }

  function Step(v: View, e: Event): View {
    match e
    case Moved(In, n, _) => v.(ins := Credit(v.ins, n), rawIn := v.rawIn + n)
    case Moved(Out, n, _) => v.(outs := Credit(v.outs, n), rawOut := v.rawOut + n)
    case Tick(now) =>
      var n := Forward(v.last, now);
      v.(ins := Older(v.ins, n), outs := Older(v.outs, n), last := now)
  }

  function Run(log: Log): View {
    if log == [] then START else Step(Run(log[..|log| - 1]), log[|log| - 1])
  }

  lemma {:induction false} OlderAt(ages: Ages, n: nat, a: nat)
    requires a < SIZE
    ensures Older(ages, n)[a] == if a < n then 0 else ages[a - n]
    decreases n
  {
    if n > 0 {
      OlderAt([0] + ages[..SIZE - 1], n - 1, a);
    }
  }

  /** The cap: five seconds leave nothing, and neither does any longer time. */
  lemma OlderCapped(ages: Ages, n: nat)
    ensures Older(ages, n) == Older(ages, if n > SIZE then SIZE else n)
  {
    forall a | 0 <= a < SIZE
      ensures Older(ages, n)[a] == Older(ages, if n > SIZE then SIZE else n)[a]
    {
      OlderAt(ages, n, a);
      OlderAt(ages, if n > SIZE then SIZE else n, a);
    }
  }

  lemma {:induction false} OlderTwice(ages: Ages, m: nat, n: nat)
    ensures Older(Older(ages, m), n) == Older(ages, m + n)
    decreases m
  {
    if m > 0 {
      OlderTwice([0] + ages[..SIZE - 1], m - 1, n);
    }
  }

  /** A tick with no traffic before the next one leaves no trace when the clock runs forward. Two ticks age the
      buckets like the second alone exactly when the clock ran one way throughout. */
  lemma IdleTick(v: View, t1: int, t2: int)
    ensures v.last <= t1 <= t2 ==> Step(Step(v, Tick(t1)), Tick(t2)) == Step(v, Tick(t2))
    ensures Forward(v.last, t1) + Forward(t1, t2) == Forward(v.last, t2)
      <==> v.last <= t1 <= t2 || t2 <= t1 <= v.last || t1 == t2
    ensures Step(Step(v, Tick(t1)), Tick(t2)).ins == Older(v.ins, Forward(v.last, t1) + Forward(t1, t2))
  {
    OlderTwice(v.ins, Forward(v.last, t1), Forward(t1, t2));
    OlderTwice(v.outs, Forward(v.last, t1), Forward(t1, t2));
  }

  function AgesOf(v: View, way: Way): Ages { if way.In? then v.ins else v.outs }

  /** Over any run, the bucket of age `a` holds the traffic of the second `a` seconds ago. */
  lemma {:induction false} AgesAreCredited(log: Log, way: Way, a: nat)
    requires a < SIZE
    ensures AgesOf(Run(log), way)[a] == Credited(log, way, Elapsed(log) - a, Elapsed(log) - a + 1)
    ensures Run(log).last == Clock(log)
    decreases |log|
  {
    if log != [] {
      var before, e := log[..|log| - 1], log[|log| - 1];
      AgesAreCredited(before, way, a);
      if e.Tick? {
        var n := Forward(Clock(before), e.now);
        OlderAt(AgesOf(Run(before), way), n, a);
        if a < n {
          NothingAhead(before, way, Elapsed(log) - a, Elapsed(log) - a + 1);
        } else {
          AgesAreCredited(before, way, a - n);
        }
      }
    } else {
      assert AgesOf(START, way) == EMPTY;
    }
  }

  lemma {:induction false} RawIsTotal(log: Log)
    ensures Run(log).rawIn == Total(log, In) && Run(log).rawOut == Total(log, Out)
  {
    if log != [] {
      RawIsTotal(log[..|log| - 1]);
    }
  }

  /** What a report adds up: ages 1 to 4, the current second left out. */
  function Recent(ages: Ages): nat { ages[1] + ages[2] + ages[3] + ages[4] }

  lemma RecentIsCredited(log: Log, way: Way)
    ensures Recent(AgesOf(Run(log), way)) == Credited(log, way, Elapsed(log) - 4, Elapsed(log))
  {
    hide Run, Credited, Elapsed;
    var now: int := Elapsed(log);
    AgesAreCredited(log, way, 1);
    AgesAreCredited(log, way, 2);
    AgesAreCredited(log, way, 3);
    AgesAreCredited(log, way, 4);
    CreditedSplits(log, way, now - 4, now - 3, now);
    CreditedSplits(log, way, now - 3, now - 2, now);
    CreditedSplits(log, way, now - 2, now - 1, now);
  }

  // ----- the ring -----

  /** Where the bucket of age `a` lies. */
  function At(counter: nat, a: nat): (i: nat)
    requires counter < SIZE && a < SIZE
    ensures i < SIZE
  {
    if a <= counter then counter - a else counter + SIZE - a
  }

  function ByAge(ring: seq<nat>, counter: nat): Ages
    requires |ring| == SIZE && counter < SIZE
  {
    [ring[counter], ring[At(counter, 1)], ring[At(counter, 2)], ring[At(counter, 3)], ring[At(counter, 4)]]
  }

  function NextSlot(counter: nat): nat { if counter + 1 >= SIZE then 0 else counter + 1 }

  /** Clearing the next bucket makes all others one second older. */
  lemma TurnIsOlder(ring: seq<nat>, counter: nat)
    requires |ring| == SIZE && counter < SIZE
    ensures var next := NextSlot(counter);
      next < SIZE && ByAge(ring[next := 0], next) == [0] + ByAge(ring, counter)[..SIZE - 1]
  {
  }

  class Stats {
    var rawIn: nat
    var rawOut: nat
    const snapshotIn: array<nat>
    const snapshotOut: array<nat>
    var counter: nat
    var last: int

    ghost predicate Valid()
      reads this
    {
      snapshotIn.Length == snapshotOut.Length == SIZE && snapshotIn != snapshotOut && counter < SIZE
    }

    function Abs(): View
      requires Valid()
      reads this, snapshotIn, snapshotOut
    {
      View(ByAge(snapshotIn[..], counter), ByAge(snapshotOut[..], counter), last, rawIn, rawOut)
    }

    /** calloc. */
    constructor ()
      ensures Valid() && fresh(snapshotIn) && fresh(snapshotOut) && Abs() == START
    {
      rawIn, rawOut, counter, last := 0, 0, 0, 0;
      snapshotIn := new nat[SIZE](_ => 0);
      snapshotOut := new nat[SIZE](_ => 0);
    }

    method StatsOut(n: nat, ghost at: int)
      requires Valid()
      modifies this, snapshotOut
      ensures Valid() && Abs() == Step(old(Abs()), Moved(Out, n, at))
    {
      rawOut := rawOut + n;
      snapshotOut[counter] := snapshotOut[counter] + n;
    }

    method StatsIn(n: nat, ghost at: int)
      requires Valid()
      modifies this, snapshotIn
      ensures Valid() && Abs() == Step(old(Abs()), Moved(In, n, at))
    {
      rawIn := rawIn + n;
      snapshotIn[counter] := snapshotIn[counter] + n;
    }

    /** At most five turns, and none when the clock went backwards. */
    method SkipStats(now: int)
      requires Valid()
      modifies this, snapshotIn, snapshotOut
      ensures Valid() && Abs() == Step(old(Abs()), Tick(now))
    {
      ghost var v := Abs();
      var diff := now - last;
      last := now;
      if diff > 5 {
        diff := 5;
      }
      OlderCapped(v.ins, Forward(v.last, now));
      OlderCapped(v.outs, Forward(v.last, now));
      var i := 0;
      while i < diff
        invariant Valid() && 0 <= i && (i <= diff || i == 0)
        invariant Abs() == v.(ins := Older(v.ins, i), outs := Older(v.outs, i), last := now)
      {
        Turn();
        OlderTwice(v.ins, i, 1);
        OlderTwice(v.outs, i, 1);
        i := i + 1;
      }
    }

    method Turn()
      requires Valid()
      modifies this`counter, snapshotIn, snapshotOut
      ensures Valid()
      ensures var v := old(Abs()); Abs() == v.(ins := Older(v.ins, 1), outs := Older(v.outs, 1))
    {
      TurnIsOlder(snapshotIn[..], counter);
      TurnIsOlder(snapshotOut[..], counter);
      ghost var ins, outs := snapshotIn[..], snapshotOut[..];
      counter := counter + 1;
      if counter >= 5 {
        counter := 0;
      }
      snapshotOut[counter] := 0;
      snapshotIn[counter] := 0;
      assert snapshotIn[..] == ins[counter := 0] && snapshotOut[..] == outs[counter := 0];
    }

    /** The part of `update_stats` that does not divide. */
    method UpdateStats(now: int) returns (snapIn: nat, snapOut: nat)
      requires Valid()
      modifies this, snapshotIn, snapshotOut
      ensures Valid() && Abs() == Step(old(Abs()), Tick(now))
      ensures snapIn == Recent(Abs().ins) && snapOut == Recent(Abs().outs)
    {
      SkipStats(now);
      snapIn, snapOut := 0, 0;
      for i := 0 to 5
        invariant snapIn == SumBut(snapshotIn[..], counter, i)
        invariant snapOut == SumBut(snapshotOut[..], counter, i)
      {
        if i != counter {
          snapIn := snapIn + snapshotIn[i];
          snapOut := snapOut + snapshotOut[i];
        }
      }
      SumIsRecent(snapshotIn[..], counter);
      SumIsRecent(snapshotOut[..], counter);
    }
  }

  function SumBut(ring: seq<nat>, counter: nat, n: nat): nat
    requires n <= |ring|
  {
    if n == 0 then 0 else SumBut(ring, counter, n - 1) + if n - 1 != counter then ring[n - 1] else 0
  }

  lemma SumIsRecent(ring: seq<nat>, counter: nat)
    requires |ring| == SIZE && counter < SIZE
    ensures SumBut(ring, counter, SIZE) == Recent(ByAge(ring, counter))
  {
    assert SumBut(ring, counter, 1) == if counter != 0 then ring[0] else 0;
    assert SumBut(ring, counter, 3) == SumBut(ring, counter, 1)
      + (if counter != 1 then ring[1] else 0) + if counter != 2 then ring[2] else 0;
  }

  // ----- whole runs -----

  lemma ReportIs(log: Log, now: int)
    ensures var all := log + [Tick(now)];
      var v := Step(Run(log), Tick(now));
      Recent(v.ins) == Credited(all, In, Elapsed(all) - 4, Elapsed(all))
      && Recent(v.outs) == Credited(all, Out, Elapsed(all) - 4, Elapsed(all))
    ensures NonDecreasing(log + [Tick(now)]) ==>
      var v := Step(Run(log), Tick(now));
      Recent(v.ins) == Credited(log, In, now - 4, now) && Recent(v.outs) == Credited(log, Out, now - 4, now)
    ensures Run(log).rawIn == Total(log, In) && Run(log).rawOut == Total(log, Out)
  {
    var all := log + [Tick(now)];
    assert all[..|log|] == log;
    RecentIsCredited(all, In);
    RecentIsCredited(all, Out);
    RawIsTotal(log);
    ElapsedIsClock(all);
  }

  /** A report and the bytes that moved in the four seconds before it. */
  lemma ReportAgainstTraffic(log: Log, way: Way, now: int)
    requires Chronological(log + [Tick(now)])
    ensures var reported := Recent(AgesOf(Step(Run(log), Tick(now)), way));
      && reported + Lost(log, way, now - 4, now) == Traffic(log, way, now - 4, now) + Extra(log, way, now - 4, now)
      && (TickedSince(log, way, now) ==>
           (reported == Traffic(log, way, now - 4, now) <==> Ticked(log, way, now - 4, now)))
  {
    assert (log + [Tick(now)])[..|log|] == log;
    ReportIs(log, now);
    ClockInOrder(log + [Tick(now)]);
    Accounting(log, way, now - 4, now);
    if TickedSince(log, way, now) {
      RightIffTicked(log, way, now - 4, now);
    }
  }

  /** The failing case: five bytes arrive in second 104, the first report is made in second 105, and says nothing moved
      in the seconds from 101 to 104. */
  lemma LateReport()
    ensures var log := [Moved(In, 5, 104)];
      && Chronological(log + [Tick(105)])
      && Traffic(log, In, 101, 105) == 5 && Recent(Step(Run(log), Tick(105)).ins) == 0
  {
    var log := [Moved(In, 5, 104)];
    assert log[..0] == [] && (log + [Tick(105)])[..1] == log;
    assert Chronological(log);
    OlderAt(Run(log).ins, 105, 1);
    OlderAt(Run(log).ins, 105, 2);
    OlderAt(Run(log).ins, 105, 3);
    OlderAt(Run(log).ins, 105, 4);
  }

  /** A connection's life up to a report at `now`: the bytes credited to the last four seconds counted. With events
      logged in order, they are the bytes that moved in the four seconds before `now` exactly if the clock was looked
      at, in those seconds, before each of them; provided it was looked at before all bytes of second `now` itself. */
  method Report(log: Log, now: int) returns (snapIn: nat, snapOut: nat, rawIn: nat, rawOut: nat)
    ensures var all := log + [Tick(now)];
      snapIn == Credited(all, In, Elapsed(all) - 4, Elapsed(all))
      && snapOut == Credited(all, Out, Elapsed(all) - 4, Elapsed(all))
    ensures Chronological(log + [Tick(now)]) && TickedSince(log, In, now) ==>
      (snapIn == Traffic(log, In, now - 4, now) <==> Ticked(log, In, now - 4, now))
    ensures Chronological(log + [Tick(now)]) && TickedSince(log, Out, now) ==>
      (snapOut == Traffic(log, Out, now - 4, now) <==> Ticked(log, Out, now - 4, now))
    ensures rawIn == Total(log, In) && rawOut == Total(log, Out)
  {
    hide Recent, Credited, Traffic, Total, Elapsed, Chronological, Older, Credit, ByAge;
    var stats := new Stats();
    var i := 0;
    while i < |log|
      invariant 0 <= i <= |log| && stats.Valid() && stats.Abs() == Run(log[..i])
      invariant fresh(stats) && fresh(stats.snapshotIn) && fresh(stats.snapshotOut)
    {
      match log[i] {
        case Moved(In, n, at) => stats.StatsIn(n, at);
        case Moved(Out, n, at) => stats.StatsOut(n, at);
        case Tick(t) => stats.SkipStats(t);
      }
      assert log[..i + 1][..i] == log[..i];
      i := i + 1;
    }
    assert log[..i] == log;
    snapIn, snapOut := stats.UpdateStats(now);
    rawIn, rawOut := stats.rawIn, stats.rawOut;
    ReportIs(log, now);
    if Chronological(log + [Tick(now)]) {
      ReportAgainstTraffic(log, In, now);
      ReportAgainstTraffic(log, Out, now);
    }
  }
}
