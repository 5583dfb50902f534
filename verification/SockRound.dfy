/** One call of sockbuf_update_all: what its poll said, and which entries its loop then looks at. The states
    the turns of the loop begin in, and the one the last of them ends in, are its trace.
 */
module SockRound {
  import opened Options
  import opened Filters
  import opened Sequences
  import opened SockState

  // ----- what an entry's events are worth -----

  /** The revents of entry `i` are what the `round`-th poll or a later one reported, for this slot, the connection in it
      and the descriptor of that. */
  ghost predicate Genuine(s: State, i: nat, round: nat)
    requires i < |s.idxArray| <= |s.pollfds| && |s.hist| == |s.slots| && s.idxArray[i] < |s.slots|
  {
    var x := s.idxArray[i];
    && x in s.past && s.past[x].report.Some?
    && var r := s.past[x].report.value;
       r.round >= round && r == Report(r.round, s.hist[x].gen, s.pollfds[i].fd, s.pollfds[i].revents)
  }

  lemma EntryAt(s: State, i: nat)
    requires Inv(s) && i < |s.idxArray|
    ensures |s.idxArray| <= |s.pollfds| && |s.hist| == |s.slots| && s.idxArray[i] < |s.slots| && s.idxArray[i] in s.past
    ensures var e := s.past[s.idxArray[i]];
      && PastOk(e, s.pollfds[i], s.hist[s.idxArray[i]].gen, s.made, s.polled, s.rounds)
      && s.pollfds[i].fd == s.slots[s.idxArray[i]].sock && s.polled <= s.made
  {
    EntryFacts(s, i);
    assert ReportAt(s, i) && EntryOk(s.pollfds[i], s.slots[s.idxArray[i]], s.hist[s.idxArray[i]]);
  }

  /** They are exactly if that poll succeeded, the entry is older than the last one, and the slot has the descriptor
      that was polled. */
  lemma GenuineIff(s: State, i: nat, round: nat)
    requires Inv(s) && i < |s.idxArray|
    ensures |s.idxArray| <= |s.pollfds| && |s.hist| == |s.slots| && s.idxArray[i] < |s.slots| && s.idxArray[i] in s.past
    ensures var x := s.idxArray[i];
      var e := s.past[x];
      && (e.serial < s.polled <==> e.report.Some?)
      && (Genuine(s, i, round) <==>
           round <= s.rounds && e.serial < s.polled && e.report.value.fd == s.slots[x].sock)
  {
    hide Inv;
    EntryAt(s, i);
  }

  /** sockbuf_set_sock on a slot without an entry: whatever the fresh entry's revents field holds, it is not genuine,
      and the loop would act on it exactly if it is not zero. */
  lemma NewEntryIsStale(s: State, x: nat, sock: int, f: Flags, stale: Events, round: nat)
    requires Inv(s) && x < |s.slots| && s.slots[x].Live() && s.slots[x].sock == -1 && ConnFlags(f) && sock != -1
    ensures |s.hist| == |s.slots| && |s.pollfds| >= |s.idxArray|
    ensures var t, i := SocketSet(s, x, sock, f, stale), |s.idxArray|;
      && Inv(t) && |t.idxArray| == i + 1 && t.idxArray[i] == x
      && |t.idxArray| <= |t.pollfds| && |t.hist| == |t.slots| && x < |t.slots|
      && !Genuine(t, i, round) && (Shows(t, i) <==> stale != NO_EVENTS)
  {
    SlotFacts(s, x);
    SocketSetKeeps(s, x, sock, f, stale);
    var t, i := SocketSet(s, x, sock, f, stale), |s.idxArray|;
    hide Inv, SlotOk, Evolves;
    EntryAt(t, i);
    assert t.pollfds[i].revents == stale && t.past[x].report == None;
  }

  /** Entry `i` shows events to the loop. */
  predicate Shows(s: State, i: nat) { i < |s.pollfds| && s.pollfds[i].revents != NO_EVENTS }

  // ----- the trace of the loop -----

  /** Acting on the events of slot `x`: writing, then reading, then the end of the connection. */
  ghost predicate Acted(s: State, a: State, b: State, t: State, x: nat, revents: Events)
    requires x < |s.slots|
  {
    && PolloutStep(s, a, x, revents.pout, s.slots[x].flags.connecting)
    && PollinStep(a, b, x, revents.pin, s.slots[x].flags.server)
    && if revents.err then Ended(b, t, x) else t == b
  }

  /** The `i`-th turn of the loop looks at entry `i`. */
  ghost predicate Turn(s: State, t: State, i: nat) {
    && Inv(s) && Inv(t) && Evolves(s, t)
    && i < |s.idxArray| && s.idxArray[i] < |s.slots| && i < |s.pollfds|
    && if Shows(s, i) then exists a, b :: Acted(s, a, b, t, s.idxArray[i], s.pollfds[i].revents) else t == s
  }

  ghost predicate TurnAt(ts: seq<State>, k: nat)
    requires k + 1 < |ts|
  {
    Turn(ts[k], ts[k + 1], k)
  }

  ghost predicate Turns(ts: seq<State>) {
    ts != [] && Inv(ts[0]) && forall k :: 0 <= k < |ts| - 1 ==> TurnAt(ts, k)
  }

  function Final(ts: seq<State>): State
    requires ts != []
  {
    ts[|ts| - 1]
  }

  /** How many turns acted on something. */
  function Acts(ts: seq<State>): nat {
    if |ts| <= 1 then 0 else Acts(ts[..|ts| - 1]) + if Shows(ts[|ts| - 2], |ts| - 2) then 1 else 0
  }

  /** What poll's answer makes of the tables: new revents for every entry, or nothing if it failed. */
  ghost predicate Answered(s: State, t: State, answer: int) {
    && |s.idxArray| <= |s.pollfds| && (forall i :: 0 <= i < |s.idxArray| ==> s.idxArray[i] < |s.hist|)
    && if answer < 0 then t == s
       else exists evs :: |evs| == |s.idxArray| && answer == CountActive(evs) && t == Polled(s, evs)
  }

  /** How many entries the loop is to act on: after a failed poll, as many as there are. */
  function Budget(s: State, answer: int): nat { if answer < 0 then |s.idxArray| else answer }

  /** The trace of a whole loop: it ends when the budget is used up or no entry is left to look at. */
  ghost predicate Served(s: State, answer: int, ts: seq<State>) {
    && Inv(s) && Turns(ts) && Answered(s, ts[0], answer)
    && Acts(ts) <= Budget(s, answer)
    && (|ts| > 1 ==> Acts(ts[..|ts| - 1]) < Budget(s, answer))
    && (Acts(ts) == Budget(s, answer) || |ts| - 1 >= |Final(ts).idxArray|)
  }

  lemma PollFailed(s: State, answer: int)
    requires Inv(s) && answer < 0
    ensures Answered(s, s, answer)
  {
    HistLength(s);
    hide Inv;
    forall i | 0 <= i < |s.idxArray| ensures s.idxArray[i] < |s.hist| {
      EntryFacts(s, i);
    }
  }

  lemma PollAnswered(s: State, evs: seq<Events>)
    requires Inv(s) && |evs| == |s.idxArray|
    ensures |s.idxArray| <= |s.pollfds| && forall i :: 0 <= i < |s.idxArray| ==> s.idxArray[i] < |s.hist|
    ensures Answered(s, Polled(s, evs), CountActive(evs))
  {
    hide Inv, Polled, CountActive;
    PollFailed(s, -1);
  }

  lemma TurnsStart(s: State)
    requires Inv(s)
    ensures Turns([s]) && Acts([s]) == 0
  {
  }

  /** One more turn. */
  lemma TurnsGrow(ts: seq<State>, t: State)
    requires Turns(ts) && Turn(Final(ts), t, |ts| - 1)
    ensures var us := ts + [t];
      && Turns(us) && us[0] == ts[0] && Final(us) == t && us[..|ts|] == ts
      && Acts(us) == Acts(ts) + if Shows(Final(ts), |ts| - 1) then 1 else 0
  {
    hide Turn, Inv, Acts, Shows;
    var us := ts + [t];
    assert us[..|ts|] == ts;
    ActsGrow(ts, t);
    forall k | 0 <= k < |us| - 1 ensures TurnAt(us, k) {
      if k < |ts| - 1 {
        assert TurnAt(ts, k);
      }
    }
  }

  lemma ActsGrow(ts: seq<State>, t: State)
    requires ts != []
    ensures Acts(ts + [t]) == Acts(ts) + if Shows(Final(ts), |ts| - 1) then 1 else 0
  {
    hide Shows;
    assert (ts + [t])[..|ts|] == ts;
  }

  lemma {:induction false} TurnsEvolve(ts: seq<State>, j: nat, k: nat)
    requires Turns(ts) && j <= k < |ts|
    ensures Inv(ts[j]) && Inv(ts[k]) && Evolves(ts[j], ts[k])
    ensures k < |ts| - 1 ==> k < |ts[k].idxArray|
    decreases k - j, k
  {
    hide Inv, Evolves;
    if k < |ts| - 1 {
      assert TurnAt(ts, k);
    }
    if j < k {
      TurnsEvolve(ts, j, k - 1);
      assert TurnAt(ts, k - 1);
      EvolvesTrans(ts[j], ts[k - 1], ts[k]);
    } else {
      if k > 0 {
        assert TurnAt(ts, k - 1);
      }
      HistLength(ts[k]);
      EvolvesSelf(ts[k]);
    }
  }

  lemma ServedEvolves(s: State, answer: int, ts: seq<State>)
    requires Served(s, answer, ts)
    ensures Inv(Final(ts)) && Evolves(s, Final(ts))
  {
    var last := Final(ts);
    hide Inv, Evolves, Polled, CountActive, Turns;
    HistLength(s);
    EvolvesSelf(s);
    TurnsEvolve(ts, 0, |ts| - 1);
    if answer >= 0 {
      var evs :| |evs| == |s.idxArray| && answer == CountActive(evs) && ts[0] == Polled(s, evs);
      PolledKeeps(s, evs);
      EvolvesTrans(s, ts[0], Final(ts));
    }
  }

  // ----- whether what is acted on is genuine -----

  /** The entry of turn `k` is genuine exactly if a poll has succeeded since the call began, the entry is older than the
      last such poll, and the slot has the descriptor it was polled with. */
  lemma TurnGenuineIff(s: State, answer: int, ts: seq<State>, k: nat)
    requires Served(s, answer, ts) && k < |ts| - 1
    ensures var t := ts[k];
      && k < |t.idxArray| <= |t.pollfds| && |t.hist| == |t.slots|
      && t.idxArray[k] < |t.slots| && t.idxArray[k] in t.past
      && var e := t.past[t.idxArray[k]];
      && (e.serial < t.polled <==> e.report.Some?)
      && (Genuine(t, k, s.rounds + 1) <==>
           s.rounds < t.rounds && e.serial < t.polled && e.report.value.fd == t.slots[t.idxArray[k]].sock)
  {
    hide Inv, Evolves;
    TurnsEvolve(ts, k, k);
    GenuineIff(ts[k], k, s.rounds + 1);
  }

  /** The slot has the entry it had in `s`, with the descriptor it had. */
  ghost predicate KeptEntry(s: State, t: State, x: nat) {
    && x in s.past && x in t.past && t.past[x].serial == s.past[x].serial
    && x < |s.slots| && x < |t.slots| && t.slots[x].sock == s.slots[x].sock
  }

  /** Unless a callback polls again, what a turn acts on is genuine exactly if the call's own poll succeeded and the
      slot has kept its entry, and the descriptor in it, from then on. */
  lemma GenuineIfKept(s: State, answer: int, ts: seq<State>, k: nat)
    requires Served(s, answer, ts) && k < |ts| - 1 && ts[k].rounds == ts[0].rounds
    ensures var t := ts[k];
      && k < |t.idxArray| <= |t.pollfds| && |t.hist| == |t.slots| && t.idxArray[k] < |t.slots|
      && (Genuine(t, k, s.rounds + 1) <==> answer >= 0 && KeptEntry(ts[0], t, t.idxArray[k]))
  {
    hide Inv, Evolves, PastOk, Turns;
    TurnGenuineIff(s, answer, ts, k);
    TurnsEvolve(ts, 0, k);
    EvolvesDescends(ts[0], ts[k]);
    if answer >= 0 {
      PolledPast(s, ts[0], answer);
    }
  }

  lemma EvolvesDescends(s: State, t: State)
    requires Evolves(s, t)
    ensures Descends(s, t) && |s.slots| <= |t.slots|
  {
  }

  /** Right after a poll everything on record is its report. */
  lemma PolledPast(s: State, t: State, answer: int)
    requires Inv(s) && Inv(t) && Answered(s, t, answer) && answer >= 0
    ensures t.rounds == s.rounds + 1 && t.polled == t.made == s.made && t.slots == s.slots && t.hist == s.hist
    ensures forall x :: x in t.past ==>
      && x < |t.slots| && t.past[x].serial < t.polled && t.past[x].report.Some?
      && t.past[x].report.value.fd == t.slots[x].sock
  {
    hide Inv, PastOk, Polled, CountActive;
    var evs :| |evs| == |s.idxArray| && answer == CountActive(evs) && t == Polled(s, evs);
    InvParts(s);
    InvParts(t);
    PolledEntries(s, evs);
    forall x | x in t.past
      ensures x < |t.slots| && t.past[x].serial < t.polled && t.past[x].report.Some?
        && t.past[x].report.value.fd == t.slots[x].sock
    {
      var i :| 0 <= i < |s.idxArray| && s.idxArray[i] == x;
      PolledReport(s, evs, i);
      EntryAt(s, i);
      PastSerial(s, i);
    }
  }

  lemma InvParts(s: State)
    requires Inv(s)
    ensures Table(s) && Reports(s) && |s.hist| == |s.slots|
  {
  }

  lemma PastSerial(s: State, i: nat)
    requires Inv(s) && i < |s.idxArray|
    ensures s.idxArray[i] in s.past && s.past[s.idxArray[i]].serial < s.made
  {
    assert ReportAt(s, i);
  }

  // ----- which entries have a turn -----

  function SerialAt(s: State, i: nat): nat {
    if i < |s.idxArray| && s.idxArray[i] in s.past then s.past[s.idxArray[i]].serial else 0
  }

  lemma OrderAt(s: State, i: nat, j: nat)
    requires Inv(s) && i < |s.idxArray| && j < |s.idxArray|
    ensures i < j <==> SerialAt(s, i) < SerialAt(s, j)
    ensures SerialAt(s, i) < s.made
  {
    assert ReportAt(s, i) && ReportAt(s, j);
  }

  lemma EntryOfPast(s: State, x: nat) returns (i: nat)
    requires Inv(s) && x in s.past
    ensures i < |s.idxArray| && s.idxArray[i] == x && SerialAt(s, i) == s.past[x].serial
  {
    i :| i < |s.idxArray| && s.idxArray[i] == x;
  }

  /** An entry never moves back: it only moves up, past entries that go. */
  lemma {:induction false} Falls(s: State, t: State, i: nat) returns (j: nat)
    requires Inv(s) && Inv(t) && Descends(s, t) && i < |t.idxArray| && SerialAt(t, i) < s.made
    ensures i <= j < |s.idxArray| && s.idxArray[j] == t.idxArray[i] && SerialAt(s, j) == SerialAt(t, i)
  {
    hide Inv;
    PastSerial(t, i);
    j := EntryOfPast(s, t.idxArray[i]);
    if i > 0 {
      OrderAt(t, i - 1, i);
      var k := Falls(s, t, i - 1);
      OrderAt(s, k, j);
    }
  }

  /** Each turn looks at an entry made after that of the turn before: no entry has two turns in one call. */
  lemma TurnsApart(ts: seq<State>, j: nat, k: nat)
    requires Turns(ts) && j < k < |ts| - 1
    ensures j < |ts[j].idxArray| && k < |ts[k].idxArray|
    ensures SerialAt(ts[j], j) < SerialAt(ts[k], k)
  {
    hide Inv, Evolves, SerialAt, Turns;
    TurnsEvolve(ts, j, j);
    TurnsEvolve(ts, j, k);
    EvolvesDescends(ts[j], ts[k]);
    if SerialAt(ts[k], k) < ts[j].made {
      var i := Falls(ts[j], ts[k], k);
      OrderAt(ts[j], j, i);
    } else {
      OrderAt(ts[j], j, j);
    }
  }

  /** The entries that had a turn, those among the first `n` of a state, and all of its. */
  ghost function Seen(ts: seq<State>): set<nat> { set k | 0 <= k < |ts| - 1 :: SerialAt(ts[k], k) }

  ghost function Front(s: State, n: nat): set<nat> { set i | 0 <= i < n && i < |s.idxArray| :: SerialAt(s, i) }

  ghost function Standing(s: State): set<nat> { Front(s, |s.idxArray|) }

  /** Entries the loop has passed without a turn, and entries that had one and are gone. */
  ghost function Missed(ts: seq<State>): set<nat>
    requires ts != []
  {
    Front(Final(ts), |ts| - 1) - Seen(ts)
  }

  ghost function Gone(ts: seq<State>): set<nat>
    requires ts != []
  {
    Seen(ts) - Standing(Final(ts))
  }

  lemma {:induction false} SeenSize(ts: seq<State>, n: nat)
    requires Turns(ts) && n < |ts|
    ensures |set k | 0 <= k < n :: SerialAt(ts[k], k)| == n
  {
    hide SerialAt, Turns;
    if n > 0 {
      SeenSize(ts, n - 1);
      var r := set k | 0 <= k < n - 1 :: SerialAt(ts[k], k);
      forall k | 0 <= k < n - 1 ensures SerialAt(ts[k], k) < SerialAt(ts[n - 1], n - 1) {
        TurnsApart(ts, k, n - 1);
      }
      assert (set k | 0 <= k < n :: SerialAt(ts[k], k)) == r + {SerialAt(ts[n - 1], n - 1)};
    }
  }

  lemma {:induction false} FrontSize(s: State, n: nat)
    requires Inv(s)
    ensures |Front(s, n)| == if n < |s.idxArray| then n else |s.idxArray|
  {
    hide SerialAt, Inv;
    if n > 0 {
      FrontSize(s, n - 1);
      if n <= |s.idxArray| {
        forall i | 0 <= i < n - 1 ensures SerialAt(s, i) < SerialAt(s, n - 1) {
          OrderAt(s, i, n - 1);
        }
        assert Front(s, n) == Front(s, n - 1) + {SerialAt(s, n - 1)};
      } else {
        assert Front(s, n) == Front(s, n - 1);
      }
    }
  }

  /** An entry that had a turn and still stands is among those the loop has passed. */
  lemma SeenStandsInFront(ts: seq<State>, k: nat, i: nat)
    requires Turns(ts) && k < |ts| - 1 && i < |Final(ts).idxArray| && SerialAt(Final(ts), i) == SerialAt(ts[k], k)
    ensures i <= k
  {
    hide Inv, Evolves, SerialAt, Turns;
    TurnsEvolve(ts, k, k);
    TurnsEvolve(ts, k, |ts| - 1);
    EvolvesDescends(ts[k], Final(ts));
    OrderAt(ts[k], k, k);
    var j := Falls(ts[k], Final(ts), i);
    OrderAt(ts[k], k, j);
    OrderAt(ts[k], j, k);
  }

  lemma SeenStanding(ts: seq<State>)
    requires Turns(ts) && |ts| > 0
    ensures Seen(ts) * Standing(Final(ts)) == Seen(ts) * Front(Final(ts), |ts| - 1)
  {
    var w, m := Final(ts), |ts| - 1;
    hide SerialAt, Turns;
    forall q | q in Seen(ts) && q in Standing(w) ensures q in Front(w, m) {
      var k :| 0 <= k < m && SerialAt(ts[k], k) == q;
      var i :| 0 <= i < |w.idxArray| && SerialAt(w, i) == q;
      SeenStandsInFront(ts, k, i);
    }
  }

  /** The loop misses as many entries as have gone after their turn, and otherwise none. */
  lemma MissedForGone(ts: seq<State>)
    requires Turns(ts)
    ensures var turns, left := |ts| - 1, |Final(ts).idxArray|;
      |Missed(ts)| == |Gone(ts)| - if turns <= left then 0 else turns - left
  {
    var w, m := Final(ts), |ts| - 1;
    hide Inv, SerialAt, Turns;
    TurnsEvolve(ts, m, m);
    SeenSize(ts, m);
    FrontSize(w, m);
    var seen, front := Seen(ts), Front(w, m);
    SeenStanding(ts);
    Differences(seen, Standing(w), front);
  }

  lemma Differences(a: set<nat>, b: set<nat>, c: set<nat>)
    requires a * b == a * c
    ensures |c - a| + |a| == |a - b| + |c|
  {
    assert |a - b| == |a| - |a * b|;
    assert |c - a| == |c| - |a * c|;
  }

  // ----- which entries are missed -----

  predicate StandsAt(s: State, q: nat, i: nat) { i < |s.idxArray| && SerialAt(s, i) == q }

  ghost predicate Before(s: State, q: nat, n: nat) { exists i: nat :: i < n && StandsAt(s, q, i) }

  ghost predicate Behind(s: State, q: nat, n: nat) { exists i: nat :: i > n && StandsAt(s, q, i) }

  /** In turn `k` the entry moved from behind the turn's place to a place the loop has passed. */
  ghost predicate PassedAt(ts: seq<State>, k: nat, q: nat) {
    k + 1 < |ts| && Behind(ts[k], q, k) && Before(ts[k + 1], q, k + 1)
  }

  lemma {:induction false} FirstPassing(ts: seq<State>, n: nat, q: nat, i: nat)
    requires Turns(ts) && i < n < |ts| && StandsAt(ts[n], q, i) && q < ts[0].made
    requires forall j :: 0 <= j < n ==> SerialAt(ts[j], j) != q
    ensures exists k :: PassedAt(ts, k, q)
  {
    hide Inv, Evolves, SerialAt, Turns;
    TurnsEvolve(ts, 0, n - 1);
    TurnsEvolve(ts, n - 1, n);
    EvolvesDescends(ts[0], ts[n - 1]);
    EvolvesDescends(ts[n - 1], ts[n]);
    var j := Falls(ts[n - 1], ts[n], i);
    if j < n - 1 {
      FirstPassing(ts, n - 1, q, j);
    } else {
      assert StandsAt(ts[n - 1], q, j) && j != n - 1;
      assert PassedAt(ts, n - 1, q);
    }
  }

  /** From one state of the trace to a later one an entry only moves up. */
  lemma MovesUp(ts: seq<State>, j: nat, k: nat, q: nat, i: nat, l: nat)
    requires Turns(ts) && j <= k < |ts| && StandsAt(ts[j], q, i) && StandsAt(ts[k], q, l)
    ensures l <= i
  {
    hide Inv, Evolves, SerialAt, Turns;
    TurnsEvolve(ts, j, k);
    EvolvesDescends(ts[j], ts[k]);
    OrderAt(ts[j], i, i);
    var h := Falls(ts[j], ts[k], l);
    OrderAt(ts[j], i, h);
    OrderAt(ts[j], h, i);
  }

  /** An entry that was there at the start and still stands at place `p` is missed exactly if it moved past the loop in
      some turn. */
  lemma MissedIffPassed(ts: seq<State>, q: nat, p: nat)
    requires Turns(ts) && |ts| > 0 && StandsAt(Final(ts), q, p) && q < ts[0].made
    ensures q in Missed(ts) <==> exists k :: PassedAt(ts, k, q)
  {
    var m := |ts| - 1;
    hide Inv, Evolves, SerialAt, Turns;
    if q in Missed(ts) {
      var i :| 0 <= i < m && i < |Final(ts).idxArray| && SerialAt(Final(ts), i) == q;
      FirstPassing(ts, m, q, i);
    }
    if k :| PassedAt(ts, k, q) {
      PassedIsMissed(ts, k, q, p);
    }
  }

  lemma PassedIsMissed(ts: seq<State>, k: nat, q: nat, p: nat)
    requires Turns(ts) && |ts| > 0 && StandsAt(Final(ts), q, p) && PassedAt(ts, k, q)
    ensures q in Missed(ts)
  {
    var m := |ts| - 1;
    hide Inv, Evolves, SerialAt, Turns;
    var i: nat :| k < i && StandsAt(ts[k], q, i);
    var l: nat :| l < k + 1 && StandsAt(ts[k + 1], q, l);
    MovesUp(ts, k + 1, m, q, l, p);
    forall j | 0 <= j < m ensures SerialAt(ts[j], j) != q {
      if SerialAt(ts[j], j) == q {
        TurnsEvolve(ts, j, j);
        if j <= k {
          MovesUp(ts, j, k, q, j, i);
        } else {
          MovesUp(ts, k + 1, j, q, l, j);
        }
      }
    }
    assert q in Front(Final(ts), m);
  }

  /** And that happens in no turn but one in which an entry at or before the turn's place went. */
  lemma PassedForRemoval(ts: seq<State>, k: nat, q: nat)
    requires Turns(ts) && PassedAt(ts, k, q)
    ensures Front(ts[k], k + 1) - Standing(ts[k + 1]) != {}
  {
    hide Inv, Evolves, SerialAt, Turns;
    var s, t := ts[k], ts[k + 1];
    TurnsEvolve(ts, k, k + 1);
    var i: nat :| k < i && StandsAt(s, q, i);
    var l: nat :| l < k + 1 && StandsAt(t, q, l);
    FrontSize(s, k + 1);
    FrontSize(t, l);
    var gone := Front(s, k + 1) - Standing(t);
    if gone == {} {
      forall r | r in Front(s, k + 1) ensures r in Front(t, l) {
        assert r !in gone;
        var a :| 0 <= a < k + 1 && a < |s.idxArray| && SerialAt(s, a) == r;
        var b :| 0 <= b < |t.idxArray| && SerialAt(t, b) == r;
        OrderAt(s, a, i);
        OrderAt(t, b, l);
      }
      SubsetSize(Front(s, k + 1), Front(t, l));
    }
  }

  lemma SubsetSize(a: set<nat>, b: set<nat>)
    requires a <= b
    ensures |a| <= |b|
  {
    assert |b - a| == |b| - |a * b| && a * b == a;
  }

  // ----- which reported events are acted on -----

  /** Serials of the entries that show events, and of those acted on in the first `n` turns. */
  ghost function Showing(s: State, n: nat): set<nat> { set i | 0 <= i < n && Shows(s, i) :: SerialAt(s, i) }

  ghost function Acting(ts: seq<State>, n: nat): set<nat>
    requires n <= |ts|
  {
    set k | 0 <= k < n && Shows(ts[k], k) :: SerialAt(ts[k], k)
  }

  lemma {:induction false} ActingSize(ts: seq<State>, n: nat)
    requires Turns(ts) && n < |ts|
    ensures |Acting(ts, n)| == Acts(ts[..n + 1])
  {
    hide SerialAt, Turns, Shows;
    if n > 0 {
      ActingSize(ts, n - 1);
      assert ts[..n + 1][..n] == ts[..n];
      forall k | 0 <= k < n - 1 ensures SerialAt(ts[k], k) < SerialAt(ts[n - 1], n - 1) {
        TurnsApart(ts, k, n - 1);
      }
      assert Acting(ts, n) ==
        Acting(ts, n - 1) + if Shows(ts[n - 1], n - 1) then {SerialAt(ts[n - 1], n - 1)} else {};
    }
  }

  lemma {:induction false} ShowingSize(s: State, evs: seq<Events>, n: nat)
    requires Inv(s) && n <= |evs| == |s.idxArray| && |s.idxArray| <= |s.pollfds|
    requires forall i :: 0 <= i < |evs| ==> s.pollfds[i].revents == evs[i]
    ensures |Showing(s, n)| == CountActive(evs[..n])
  {
    hide Inv, SerialAt, Shows;
    if n > 0 {
      ShowingSize(s, evs, n - 1);
      assert evs[..n][..n - 1] == evs[..n - 1];
      ShowingStep(s, n);
      ShowsEvents(s, n - 1);
    }
  }

  lemma ShowingStep(s: State, n: nat)
    requires Inv(s) && 0 < n <= |s.idxArray|
    ensures |Showing(s, n)| == |Showing(s, n - 1)| + if Shows(s, n - 1) then 1 else 0
  {
    hide Inv, SerialAt, Shows;
    forall i | 0 <= i < n - 1 ensures SerialAt(s, i) < SerialAt(s, n - 1) {
      OrderAt(s, i, n - 1);
    }
    assert Showing(s, n) == Showing(s, n - 1) + if Shows(s, n - 1) then {SerialAt(s, n - 1)} else {};
  }

  lemma ShowsEvents(s: State, i: nat)
    requires i < |s.pollfds|
    ensures Shows(s, i) <==> s.pollfds[i].revents != NO_EVENTS
  {
  }

  /** As many entries show events after poll as it says. */
  lemma AnswerCounts(s: State, t: State, answer: int)
    requires Inv(s) && Inv(t) && Answered(s, t, answer) && answer >= 0
    ensures |Showing(t, |t.idxArray|)| == answer
  {
    hide Inv, Polled;
    var evs :| |evs| == |s.idxArray| && answer == CountActive(evs) && t == Polled(s, evs);
    InvParts(s);
    PolledEntries(s, evs);
    ShowingSize(t, evs, |evs|);
    assert evs[..|evs|] == evs;
  }

  /** While no later poll succeeds, an entry that was polled shows what that reported. */
  lemma StillShows(s: State, t: State, i: nat)
    requires Inv(s) && Inv(t) && Descends(s, t) && t.rounds == s.rounds
    requires i < |t.idxArray| && SerialAt(t, i) < t.polled
    ensures var x := t.idxArray[i];
      && x in s.past && x in t.past && t.past[x] == s.past[x] && t.past[x].report.Some?
      && i < |t.pollfds| && t.pollfds[i].revents == t.past[x].report.value.events
  {
    hide Inv;
    EntryAt(t, i);
  }

  /** Acting on events does not clear them: while no later poll succeeds the entry shows them again, as genuine as
      before. So what a nested call has acted on, the outer one acts on once more if it still has to look there. */
  lemma ShowsAgain(s: State, t: State, i: nat, j: nat, round: nat)
    requires Inv(s) && Inv(t) && Descends(s, t) && t.rounds == s.rounds
    requires i < |s.idxArray| && j < |t.idxArray| && SerialAt(s, i) == SerialAt(t, j) < t.polled
    ensures |s.idxArray| <= |s.pollfds| && |t.idxArray| <= |t.pollfds| && t.idxArray[j] == s.idxArray[i]
    ensures t.pollfds[j].revents == s.pollfds[i].revents
    ensures && |s.hist| == |s.slots| && s.idxArray[i] < |s.slots| && |t.hist| == |t.slots| && t.idxArray[j] < |t.slots|
      && (t.slots[t.idxArray[j]].sock == s.slots[s.idxArray[i]].sock ==>
           (Genuine(t, j, round) <==> Genuine(s, i, round)))
  {
    hide Inv, SerialAt, PastOk;
    OrderAt(s, i, i);
    var k := Falls(s, t, j);
    OrderAt(s, i, k);
    OrderAt(s, k, i);
    DescendsSame(s, s);
    StillShows(s, t, j);
    StillShows(s, s, i);
    GenuineIff(s, i, round);
    GenuineIff(t, j, round);
  }

  lemma SameRound(ts: seq<State>, k: nat)
    requires Turns(ts) && k < |ts| && Final(ts).rounds == ts[0].rounds
    ensures Inv(ts[0]) && Inv(ts[k]) && Inv(Final(ts))
    ensures Descends(ts[0], ts[k]) && Descends(ts[k], Final(ts))
    ensures ts[k].rounds == ts[0].rounds && ts[k].polled == ts[0].polled == Final(ts).polled
  {
    hide Inv, Evolves, Turns;
    TurnsEvolve(ts, 0, k);
    TurnsEvolve(ts, k, |ts| - 1);
    EvolvesDescends(ts[0], ts[k]);
    EvolvesDescends(ts[k], Final(ts));
  }

  /** Before an entry that was polled and that the loop never reached, only entries that were polled had a turn, and
      those acted on showed events from the start. */
  lemma ActedShowed(ts: seq<State>, p: nat, k: nat)
    requires Turns(ts) && Final(ts).rounds == ts[0].rounds && k < |ts| - 1 <= p < |Final(ts).idxArray|
    requires SerialAt(Final(ts), p) < Final(ts).polled && Shows(ts[k], k)
    ensures SerialAt(ts[k], k) in Showing(ts[0], |ts[0].idxArray|)
  {
    var q := SerialAt(ts[k], k);
    hide Inv, SerialAt, Turns, PastOk;
    SameRound(ts, k);
    TurnsEvolve(ts, k, k);
    AllMade(Final(ts), ts[k]);
    var j := Falls(ts[k], Final(ts), p);
    OrderAt(ts[k], k, j);
    StillShows(ts[0], ts[k], k);
    var i := EntryOfPast(ts[0], ts[k].idxArray[k]);
    SerialIs(ts[k], k);
    StillShows(ts[0], ts[0], i);
    assert Shows(ts[0], i) && SerialAt(ts[0], i) == q;
  }

  lemma AllMade(w: State, t: State)
    requires Inv(t) && w.polled == t.polled
    ensures w.polled <= t.made
  {
  }

  lemma SerialIs(s: State, i: nat)
    requires Inv(s) && i < |s.idxArray|
    ensures s.idxArray[i] in s.past && SerialAt(s, i) == s.past[s.idxArray[i]].serial
  {
  }

  /** When the loop ends before an entry that was polled, the budget is used up, and nothing was reported for that. */
  lemma RestIsQuiet(s: State, answer: int, ts: seq<State>, p: nat)
    requires Served(s, answer, ts) && answer >= 0 && Final(ts).rounds == ts[0].rounds
    requires |ts| - 1 <= p < |Final(ts).idxArray| && SerialAt(Final(ts), p) < Final(ts).polled
    ensures SerialAt(Final(ts), p) !in Showing(ts[0], |ts[0].idxArray|)
  {
    hide Inv, SerialAt, Turns, Answered, Shows, Served;
    BudgetUsed(s, answer, ts);
    var m, q := |ts| - 1, SerialAt(Final(ts), p);
    var acting, showing := Acting(ts, m), Showing(ts[0], |ts[0].idxArray|);
    forall r | r in acting ensures r in showing && r != q {
      var k :| 0 <= k < m && Shows(ts[k], k) && SerialAt(ts[k], k) == r;
      ActedShowed(ts, p, k);
      NotYetSeen(ts, p, k);
    }
    SameSet(acting, showing);
  }

  /** When the loop stops short of an entry, as many were acted on as poll had counted. */
  lemma BudgetUsed(s: State, answer: int, ts: seq<State>)
    requires Served(s, answer, ts) && answer >= 0
    ensures Turns(ts) && |ts| > 0
    ensures |ts| - 1 < |Final(ts).idxArray| ==>
      |Acting(ts, |ts| - 1)| == |Showing(ts[0], |ts[0].idxArray|)|
  {
    hide Inv, SerialAt, Answered, Shows, Acting, Showing;
    AnswerCounts(s, ts[0], answer);
    ActingSize(ts, |ts| - 1);
    assert ts[..|ts|] == ts;
  }

  lemma NotYetSeen(ts: seq<State>, p: nat, k: nat)
    requires Turns(ts) && k < |ts| - 1 <= p < |Final(ts).idxArray|
    ensures SerialAt(ts[k], k) != SerialAt(Final(ts), p)
  {
    if SerialAt(ts[k], k) == SerialAt(Final(ts), p) {
      SeenStandsInFront(ts, k, p);
    }
  }

  lemma SameSet(a: set<nat>, b: set<nat>)
    requires a <= b && |a| == |b|
    ensures a == b
  {
    assert |b - a| == |b| - |a * b| && a * b == a;
  }

  /** Turn `k` acts on what was reported for the entry that slot `x` had right after the poll. */
  ghost predicate ServedAt(ts: seq<State>, k: nat, x: nat) {
    && k < |ts| - 1 && k < |ts[k].idxArray| && k < |ts[k].pollfds| && ts[k].idxArray[k] == x
    && x in ts[0].past && ts[0].past[x].report.Some? && SerialAt(ts[k], k) == ts[0].past[x].serial
    && ts[k].pollfds[k].revents == ts[0].past[x].report.value.events
  }

  /** An entry that still stands and had turn `k` had it with what was reported for it. */
  lemma SeenServed(ts: seq<State>, k: nat, p: nat)
    requires Turns(ts) && Final(ts).rounds == ts[0].rounds && k < |ts| - 1 && p < |Final(ts).idxArray|
    requires SerialAt(Final(ts), p) < Final(ts).polled && SerialAt(ts[k], k) == SerialAt(Final(ts), p)
    ensures ServedAt(ts, k, Final(ts).idxArray[p])
  {
    hide Inv, SerialAt, Turns, PastOk;
    SameRound(ts, k);
    TurnsEvolve(ts, k, k);
    AllMade(Final(ts), ts[k]);
    var j := Falls(ts[k], Final(ts), p);
    OrderAt(ts[k], k, j);
    OrderAt(ts[k], j, k);
    StillShows(ts[0], ts[k], k);
    SerialIs(ts[k], k);
  }

  /** After a poll that succeeded, and unless a callback polls again: an entry that the poll reported events for and
      that still stands in the end has had a turn with just these events, or else it was missed. */
  lemma EventsServed(s: State, answer: int, ts: seq<State>, x: nat)
    requires Served(s, answer, ts) && answer >= 0 && Final(ts).rounds == ts[0].rounds
    requires x in ts[0].past && x in Final(ts).past && Final(ts).past[x].serial == ts[0].past[x].serial
    requires ts[0].past[x].report.Some? && ts[0].past[x].report.value.events != NO_EVENTS
    ensures (exists k :: ServedAt(ts, k, x)) <==> ts[0].past[x].serial !in Missed(ts)
  {
    var w, m, q := Final(ts), |ts| - 1, ts[0].past[x].serial;
    hide Inv, SerialAt, Turns, Answered, PastOk;
    SameRound(ts, m);
    PolledPast(s, ts[0], answer);
    var p := EntryOfPast(w, x);
    if k :| ServedAt(ts, k, x) {
      assert q in Seen(ts);
    }
    if q !in Missed(ts) {
      ShownAtFirst(ts[0], x);
      if p >= m {
        RestIsQuiet(s, answer, ts, p);
      }
      TurnOf(ts, q, p);
      var k :| 0 <= k < m && SerialAt(ts[k], k) == q;
      SeenServed(ts, k, p);
    }
  }

  lemma ShownAtFirst(s: State, x: nat)
    requires Inv(s) && x in s.past && s.past[x].serial < s.polled
    ensures s.past[x].report.Some?
    ensures s.past[x].report.value.events != NO_EVENTS ==> s.past[x].serial in Showing(s, |s.idxArray|)
  {
    hide Inv, SerialAt;
    var i := EntryOfPast(s, x);
    DescendsSame(s, s);
    StillShows(s, s, i);
  }

  lemma TurnOf(ts: seq<State>, q: nat, p: nat)
    requires ts != [] && q !in Missed(ts) && p < |ts| - 1 && StandsAt(Final(ts), q, p)
    ensures exists k :: 0 <= k < |ts| - 1 && SerialAt(ts[k], k) == q
  {
    hide SerialAt;
    assert q in Front(Final(ts), |ts| - 1);
  }

  /** So nothing that was reported for an entry still standing is left undone, if no entry goes after its turn. */
  lemma AllServed(s: State, answer: int, ts: seq<State>, x: nat)
    requires Served(s, answer, ts) && answer >= 0 && Final(ts).rounds == ts[0].rounds && Gone(ts) == {}
    requires x in ts[0].past && x in Final(ts).past && Final(ts).past[x].serial == ts[0].past[x].serial
    requires ts[0].past[x].report.Some? && ts[0].past[x].report.value.events != NO_EVENTS
    ensures exists k :: ServedAt(ts, k, x)
  {
    hide Inv, Turns, Answered;
    MissedForGone(ts);
    EventsServed(s, answer, ts, x);
  }
}
