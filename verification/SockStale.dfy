/** A round of sockbuf_update_all in which an event reaches a connection it was not reported for, and another one
    reaches nobody.
 */
module SockStale {
  import opened Options
  import opened Filters
  import opened Sequences
  import opened SockState
  import opened SockRound

  const READABLE := Events(true, false, false)

  const CONNECTION := OPENED.(flags := NO_FLAGS)
  const SERVER := OPENED.(flags := NO_FLAGS.(server := true))
  const FRESH := Hist(1, [], [], NO_FLAGS, false)

  /** Connections 0 and 1 and server 2, inside update_all and before its poll. */
  function Three(): State {
    INITIAL.(
      slots := [CONNECTION.(sock := 4), CONNECTION.(sock := 5), SERVER.(sock := 6), UNUSED, UNUSED],
      hist := [FRESH, FRESH, FRESH.(asked := NO_FLAGS.(server := true)), NO_HIST, NO_HIST], depth := 1,
      idxArray := [0, 1, 2],
      pollfds := [PollFd(4, READABLE, NO_EVENTS), PollFd(5, READABLE, NO_EVENTS), PollFd(6, READABLE, NO_EVENTS)],
      past := map i: nat | i < 3 :: Past(i, None), made := 3)
  }

  lemma ThreeSlots()
    ensures Slots(Three())
  {
    var s := Three();
    forall x | 0 <= x < |s.slots| ensures SlotOk(s.slots[x], s.hist[x], x in s.pending) {
      assert x == 0 || x == 1 || x == 2 || x == 3 || x == 4;
    }
  }

  lemma ThreeReports()
    ensures Reports(Three())
  {
    var s := Three();
    forall x | x in s.past ensures x in s.idxArray {
      assert s.idxArray[x] == x;
    }
    forall i | 0 <= i < |s.idxArray| ensures s.idxArray[i] == i && s.idxArray[i] in s.past && ReportAt(s, i) {
      assert i == 0 || i == 1 || i == 2;
    }
  }

  lemma ThreeTable()
    ensures Table(Three()) && Tail(Three())
  {
    var s := Three();
    forall i | 0 <= i < |s.idxArray| ensures EntryOk(s.pollfds[i], s.slots[s.idxArray[i]], s.hist[s.idxArray[i]]) {
      assert i == 0 || i == 1 || i == 2;
    }
    forall x | 0 <= x < |s.slots| && s.slots[x].sock != -1 ensures x in s.idxArray {
      assert s.idxArray[x] == x;
    }
  }

  lemma ThreeInv()
    ensures Inv(Three())
  {
    hide CountDeleted, Slots, Table, Tail, Reports;
    ThreeSlots();
    ThreeTable();
    ThreeReports();
    CountNone(Three().slots);
  }

  lemma ThreeIs()
    ensures var s := Three();
      && s.idxArray == [0, 1, 2] && |s.slots| == 5 && s.nlisteners == 0 && s.rounds == 0
      && s.slots[0] == CONNECTION.(sock := 4) && s.slots[1] == CONNECTION.(sock := 5)
      && s.slots[2] == SERVER.(sock := 6) && s.slots[3] == UNUSED && |s.pollfds| == 3
  {
  }

  lemma ClosedEntry(s: State, x: nat)
    requires Inv(s) && x < |s.slots| && s.slots[x].Live() && s.slots[x].sock >= 0
    ensures |s.hist| == |s.slots| && |s.pollfds| >= |s.idxArray| && x in s.idxArray
    ensures var t, i := Closed(s, x), Pos(s.idxArray, x);
      && Inv(t) && Evolves(s, t) && t.slots == s.slots[x := SocketSlot(s.slots[x], -1, NO_FLAGS)]
      && t.idxArray == RemoveAt(s.idxArray, i) && t.pollfds == RemoveAt(s.pollfds, i) && t.past == s.past - {x}
      && t.nlisteners == s.nlisteners && t.rounds == s.rounds
  {
    hide Inv, Evolves, SlotOk;
    SlotFacts(s, x);
    SocketSetKeeps(s, x, -1, NO_FLAGS, NO_EVENTS);
  }

  lemma AcceptedEntry(s: State, sock: nat, stale: Events)
    requires Inv(s) && FirstAvail(s.slots) < |s.slots| && s.nlisteners == 0
    ensures |s.hist| == |s.slots| && |s.pollfds| == |s.idxArray|
    ensures var t, x := Accepted(s, sock, stale), FirstAvail(s.slots);
      && Inv(t) && Evolves(s, t)
      && t.slots == s.slots[x := CONNECTION.(sock := sock, flags := NO_FLAGS.(inbound := true))]
      && t.idxArray == s.idxArray + [x] && t.pollfds == s.pollfds + [PollFd(sock, READABLE, stale)]
      && t.nlisteners == 0 && t.rounds == s.rounds && t.past == s.past[x := Past(s.made, None)]
  {
    hide Inv, Evolves, SlotOk;
    HistLength(s);
    OpenedKeeps(s);
    var x, o := FirstAvail(s.slots), Opened(s);
    SlotFacts(s, x);
    SocketSetKeeps(o, x, sock, NO_FLAGS.(inbound := true), stale);
    EvolvesTrans(s, o, Accepted(s, sock, stale));
  }

  predicate Plain(b: Slot) { b.Live() && b.sock >= 0 && b.filters == [] && b.filterData == [] && b.handler == IDLE }

  lemma NobodyTold(s: State, x: nat, tested: EventKind, kind: EventKind)
    requires Inv(s) && x < |s.slots| && s.slots[x].filters == [] && s.slots[x].filterData == []
    requires s.slots[x].handler == IDLE && kind != Read
    ensures Announced(s, s, x, tested, kind, LEVEL_INTERNAL, 0)
  {
    hide Inv, Evolves;
    HistLength(s);
    EvolvesSelf(s);
  }

  /** A connection nobody listens to may turn out to have ended, or to have nothing to read, which is the same. */
  lemma ReadTurn(s: State, i: nat)
    requires Inv(s) && i < |s.idxArray| && i < |s.pollfds| && s.pollfds[i].revents == READABLE
    requires s.idxArray[i] < |s.slots| == |s.hist| && |s.pollfds| >= |s.idxArray|
    requires Plain(s.slots[s.idxArray[i]]) && !s.slots[s.idxArray[i]].flags.server
    ensures Turn(s, Closed(s, s.idxArray[i]), i) && Shows(s, i)
  {
    hide Inv, Evolves, Announced, Closed;
    var x := s.idxArray[i];
    var t := Closed(s, x);
    ClosedEntry(s, x);
    NobodyTold(t, x, Eof, Eof);
    assert ReadableStep(s, s, t, x, 0);
    assert Acted(s, s, t, t, x, READABLE);
  }

  lemma AcceptTurn(s: State, i: nat, sock: nat, stale: Events)
    requires Inv(s) && i < |s.idxArray| && i < |s.pollfds| && s.pollfds[i].revents == READABLE
    requires s.idxArray[i] < |s.slots| == |s.hist| && |s.pollfds| >= |s.idxArray| && s.nlisteners == 0
    requires Plain(s.slots[s.idxArray[i]]) && s.slots[s.idxArray[i]].flags.server && FirstAvail(s.slots) < |s.slots|
    ensures Turn(s, Accepted(s, sock, stale), i) && Shows(s, i)
  {
    hide Inv, Evolves, Announced, Accepted;
    var x := s.idxArray[i];
    var t := Accepted(s, sock, stale);
    AcceptedEntry(s, sock, stale);
    NobodyTold(t, x, Connect, NewClient);
    assert ServerStep(s, t, t, x, sock, stale);
    assert Acted(s, s, t, t, x, READABLE);
  }

  lemma ThreePolled() returns (t: State)
    ensures Inv(t) && Answered(Three(), t, 3) && t.rounds == 1 && t.nlisteners == 0 && t.idxArray == [0, 1, 2]
    ensures t.slots == Three().slots && |t.hist| == |t.slots| && |t.pollfds| == 3 && 3 !in t.past
    ensures forall i :: 0 <= i < 3 ==> t.pollfds[i].revents == READABLE
    ensures 1 in t.past && t.past[1].report.Some? && t.past[1].report.value.events == READABLE
  {
    hide Inv, Three, Polled, CountActive, Answered, Table, Reports, Pos;
    var s, evs := Three(), [READABLE, READABLE, READABLE];
    ThreeInv();
    ThreeIs();
    InvParts(s);
    HistLength(s);
    PolledKeeps(s, evs);
    PolledEntries(s, evs);
    PolledReport(s, evs, 1);
    PollAnswered(s, evs);
    ThreeActive();
    t := Polled(s, evs);
    NotInPast(t, 3);
  }

  lemma NotInPast(s: State, x: nat)
    requires Inv(s) && x !in s.idxArray
    ensures x !in s.past
  {
  }

  lemma ThreeActive()
    ensures CountActive([READABLE, READABLE, READABLE]) == 3
  {
    var evs := [READABLE, READABLE, READABLE];
    assert evs[..2] == [READABLE, READABLE];
    assert [READABLE, READABLE][..1] == [READABLE];
    assert CountActive([READABLE]) == 1;
    assert CountActive([READABLE, READABLE]) == 2;
  }

  /** The turns: connection 0 has ended; the server, moved up, accepts; there is nothing to read from connection 3. */
  lemma StaleTurns() returns (t0: State, t1: State, t2: State, t3: State)
    ensures Inv(t0) && Answered(Three(), t0, 3) && t0.rounds == t1.rounds == t2.rounds == t3.rounds == 1
    ensures Turn(t0, t1, 0) && Turn(t1, t2, 1) && Turn(t2, t3, 2) && Shows(t0, 0) && Shows(t1, 1) && Shows(t2, 2)
    ensures t0.idxArray == [0, 1, 2] && t1.idxArray == [1, 2] && t2.idxArray == [1, 2, 3] && t3.idxArray == [1, 2]
    ensures |t2.hist| == |t2.slots| == 5 && |t2.pollfds| == 3 && t2.slots[3].sock == 9
    ensures |t3.slots| == 5 && t3.slots[3].Live() && t3.slots[3].sock == -1
    ensures 3 !in t0.past && 1 in t0.past && 1 in t3.past && t3.past[1] == t0.past[1]
    ensures t0.past[1].report.Some? && t0.past[1].report.value.events == READABLE
  {
    hide Inv, Evolves, Three, Turn, Answered, Closed, Accepted, Shows, Pos, FirstAvail, Descends;
    t0 := ThreePolled();
    ThreeIs();
    PosIs([0, 1, 2], 0, 0);
    HistLength(t0);
    ClosedEntry(t0, 0);
    ReadTurn(t0, 0);
    t1 := Closed(t0, 0);
    HistLength(t1);
    FirstAvailIs(t1.slots, 3);
    AcceptedEntry(t1, 9, READABLE);
    AcceptTurn(t1, 1, 9, READABLE);
    t2 := Accepted(t1, 9, READABLE);
    HistLength(t2);
    PosIs([1, 2, 3], 3, 2);
    ClosedEntry(t2, 3);
    ReadTurn(t2, 2);
    t3 := Closed(t2, 3);
  }

  lemma Trace(t0: State, t1: State, t2: State, t3: State)
    requires Inv(t0) && Turn(t0, t1, 0) && Turn(t1, t2, 1) && Turn(t2, t3, 2)
    requires Shows(t0, 0) && Shows(t1, 1) && Shows(t2, 2)
    ensures var ts := [t0, t1, t2, t3]; Turns(ts) && Acts(ts[..3]) == 2 && Acts(ts) == 3
  {
    hide Inv, Turn, Turns, Acts, Shows;
    var ts := [t0, t1, t2, t3];
    assert [t0] + [t1] == [t0, t1] && [t0, t1] + [t2] == [t0, t1, t2] && [t0, t1, t2] + [t3] == ts;
    TurnsStart(t0);
    TurnsGrow([t0], t1);
    TurnsGrow([t0, t1], t2);
    TurnsGrow([t0, t1, t2], t3);
    assert ts[..3] == [t0, t1, t2];
  }

  /** All three are readable. Connection 0 has ended, so that the server moves up; it accepts connection 3, whose entry
      finds the server's revents; the loop reads from that, where there is nothing to read, and closes it. The event of
      connection 1 is missed. */
  lemma StaleRound() returns (ts: seq<State>)
    ensures Served(Three(), 3, ts) && |ts| == 4 && Final(ts).rounds == ts[0].rounds
    ensures |ts[2].idxArray| == 3 && ts[2].idxArray[2] == 3 && |ts[2].pollfds| == 3
    ensures |ts[2].hist| == |ts[2].slots| == 5
    ensures Shows(ts[2], 2) && !Genuine(ts[2], 2, 1)
    ensures ts[2].slots[3].sock == 9 && |ts[3].slots| == 5 && ts[3].slots[3].Live() && ts[3].slots[3].sock == -1
    ensures 1 in ts[0].past && ts[0].past[1].report.Some? && ts[0].past[1].report.value.events == READABLE
    ensures 1 in Final(ts).past && Final(ts).past[1] == ts[0].past[1] && ts[0].past[1].serial in Missed(ts)
  {
    hide Inv, Evolves, Three, Turn, Turns, Answered, Shows, Genuine, Missed, Acts, SerialAt;
    var t0, t1, t2, t3 := StaleTurns();
    Trace(t0, t1, t2, t3);
    ThreeInv();
    ThreeIs();
    ts := [t0, t1, t2, t3];
    GenuineIfKept(Three(), 3, ts, 2);
    EventsServed(Three(), 3, ts, 1);
    assert forall k: nat :: k < 3 ==> !ServedAt(ts, k, 1);
  }
}
