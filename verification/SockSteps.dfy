/** What the steps of c-cpp/onethread/sockbuf.c leave in a slot, field by field; flag words as the header numbers
    them. */
module SockSteps {
  import opened Options
  import opened Filters
  import opened Sequences
  import opened SockState
  import opened SockFlags

  /** The words of the four states a slot starts or ends in. */
  lemma Words()
    ensures Word(NO_FLAGS) == 0 && Word(OPENED.flags) == 1 && Word(WIPED.flags) == 32 && Word(UNUSED.flags) == 128
    ensures Word(NO_FLAGS.(inbound := true)) == 16
  {
  }

  /** No socket, nothing waiting, no filters, a handler that hears nothing. */
  predicate Bare(b: Slot) {
    b.sock == -1 && b.data == [] && b.filters == [] && b.filterData == [] && b.handler.hears == {}
  }

  predicate NothingCounted(b: Slot) { b.rawIn == b.rawOut == b.bytesIn == b.bytesOut == 0 }

  /** sockbuf_new: the first AVAIL slot becomes bare and blocked, and is the next connection; without one the array
      is five longer, and the other four new slots are AVAIL. No other slot changes. */
  lemma OpenedIs(s: State)
    requires Inv(s)
    ensures |s.hist| == |s.slots|
    ensures var i, t := FirstAvail(s.slots), Opened(s);
      && |t.hist| == |t.slots| == (if i == |s.slots| then |s.slots| + 5 else |s.slots|) > i
      && Bare(t.slots[i]) && NothingCounted(t.slots[i]) && Word(t.slots[i].flags) == 1
      && t.hist[i].gen == (if i < |s.slots| then s.hist[i].gen + 1 else 1)
      && (forall j :: 0 <= j < |s.slots| && j != i ==> t.slots[j] == s.slots[j] && t.hist[j] == s.hist[j])
      && (forall j :: |s.slots| <= j < |t.slots| && j != i ==> Bare(t.slots[j]) && Word(t.slots[j].flags) == 128)
  {
    hide Inv;
    HistLength(s);
    Words();
  }

  /** An accepted connection: the next free slot, marked inbound, watched for POLLIN only; no other slot changes. */
  lemma AcceptedIs(s: State, sock: nat, stale: Events)
    requires Inv(s)
    ensures |s.slots| == |s.hist| && |s.pollfds| >= |s.idxArray|
    ensures var x, t := FirstAvail(s.slots), Accepted(s, sock, stale);
      && x < |t.slots| && t.slots[x].sock == sock && t.slots[x].data == [] && Word(t.slots[x].flags) == 16
      && |t.pollfds| >= |t.idxArray| && HasEntry(t, x)
      && Entry(t, x).fd == sock && Entry(t, x).events == Events(true, false, false)
      && |s.slots| <= |t.slots| && forall j :: 0 <= j < |s.slots| && j != x ==> t.slots[j] == s.slots[j]
  {
    hide Inv, Evolves, Opened, SocketSet, Word;
    HistLength(s);
    OpenedIs(s);
    OpenedKeeps(s);
    var x, o := FirstAvail(s.slots), Opened(s);
    HistLength(o);
    Words();
    SocketSetFrame(o, x, sock, NO_FLAGS.(inbound := true), stale);
    WatchedAt(o, x, sock, NO_FLAGS.(inbound := true), stale);
  }

  /** Closing: a valid slot with a socket loses it and its entry, and keeps what waits; otherwise nothing happens. */
  lemma ClosedIs(s: State, x: nat)
    requires Inv(s) && x < |s.slots|
    ensures |s.slots| == |s.hist| && |s.pollfds| >= |s.idxArray|
    ensures var t := Closed(s, x);
      if s.slots[x].Live() && s.slots[x].sock >= 0 then
        && |t.slots| == |s.slots| && t.slots[x].sock == -1 && t.slots[x].data == s.slots[x].data
        && x !in t.idxArray && forall j :: 0 <= j < |s.slots| && j != x ==> t.slots[j] == s.slots[j]
      else t == s
  {
    hide Inv, Evolves, SlotOk, SocketSet;
    SlotFacts(s, x);
    if s.slots[x].Live() && s.slots[x].sock >= 0 {
      SocketSetKeeps(s, x, -1, NO_FLAGS, NO_EVENTS);
      SocketSetFrame(s, x, -1, NO_FLAGS, NO_EVENTS);
      SlotFacts(Closed(s, x), x);
    }
  }

  /** Closed, and out of the poll table, when its end is announced. */
  ghost predicate ClosedThenTold(m: State, t: State, x: nat) {
    x < |m.slots| && m.slots[x].sock == -1 && x !in m.idxArray && Announced(m, t, x, Eof, Eof, LEVEL_INTERNAL, 0)
  }

  /** The end of a connection: on a read that gives nothing, on a write that fails, and on an error. */
  lemma EndedIs(s: State, t: State, x: nat)
    requires Inv(s) && x < |s.slots| && s.slots[x].Live() && s.slots[x].sock >= 0 && Ended(s, t, x)
    ensures exists m :: ClosedThenTold(m, t, x)
  {
    hide Inv, Announced;
    ClosedIs(s, x);
    assert ClosedThenTold(Closed(s, x), t, x);
  }

  /** Which is when poll's events end it. */
  lemma EndsWhen(s: State, m: State, t: State, x: nat, n: int)
    requires Inv(s) && x < |s.slots| && s.slots[x].Live() && s.slots[x].sock >= 0
    ensures ReadableStep(s, m, t, x, n) && n <= 0 ==> exists e :: ClosedThenTold(e, t, x)
    ensures WritableStep(s, m, t, x, n) && n < 0 ==> exists e :: ClosedThenTold(e, t, x)
    ensures ClientStep(s, m, t, x, true) ==> exists e :: ClosedThenTold(e, t, x)
  {
    hide Inv, ClosedThenTold, Announced, Ended;
    if Ended(s, t, x) {
      EndedIs(s, t, x);
    }
  }

  /** A deletion carried out: the slot is bare and marked, has no entry, and is counted. */
  lemma DeletedIs(s: State, x: nat)
    requires Inv(s) && x in s.pending
    ensures x < |s.slots| == |s.hist| && |s.pollfds| >= |s.idxArray|
    ensures var t := DeleteDone(s, x);
      && |t.slots| == |s.slots| && Bare(t.slots[x]) && Word(t.slots[x].flags) == 32 && x !in t.idxArray
      && t.ndeleted == s.ndeleted + 1 && forall j :: 0 <= j < |s.slots| && j != x ==> t.slots[j] == s.slots[j]
  {
    hide Inv, SlotOk, DeleteDone;
    DeleteDoneKeeps(s, x);
    HistLength(s);
    DeleteDoneFrame(s, x);
    SlotFacts(DeleteDone(s, x), x);
    Words();
  }

  /** Counters: what was read, what the user got of it, and what the user wrote; nothing else changes. */
  lemma CountersAre(s: State, x: nat, n: nat)
    requires x < |s.slots| == |s.hist|
    ensures Received(s, x, n) == s.(slots := s.slots[x := s.slots[x].(rawIn := s.slots[x].rawIn + n)])
    ensures Given(s, x, n) == s.(slots := s.slots[x := s.slots[x].(bytesOut := s.slots[x].bytesOut + n)])
    ensures forall tested, kind, level ::
      Handed(s, x, tested, kind, level, n) ==
        if kind == Read && (forall i :: 0 <= i < |s.slots[x].filters| ==>
             !(tested in s.slots[x].filters[i].hears && s.slots[x].filters[i].level > level))
        then s.(slots := s.slots[x := s.slots[x].(bytesIn := s.slots[x].bytesIn + n)])
        else s
  {
    assert s.hist[x := s.hist[x]] == s.hist;
    forall tested, kind, level
      ensures Handed(s, x, tested, kind, level, n) ==
        if kind == Read && (forall i :: 0 <= i < |s.slots[x].filters| ==>
             !(tested in s.slots[x].filters[i].hears && s.slots[x].filters[i].level > level))
        then s.(slots := s.slots[x := s.slots[x].(bytesIn := s.slots[x].bytesIn + n)])
        else s
    {
      NobodyBeyond(s.slots[x].filters, tested, level);
    }
  }

  lemma NobodyBeyond(fs: seq<Filter>, tested: EventKind, level: int)
    ensures NextUp(fs, tested, level) == |fs| <==>
      forall i :: 0 <= i < |fs| ==> !(tested in fs[i].hears && fs[i].level > level)
  {
  }

  /** Filter `i` is the first beyond the level that has the tested callback. */
  predicate FirstBeyond(fs: seq<Filter>, tested: EventKind, level: int, i: nat) {
    && i < |fs| && tested in fs[i].hears && fs[i].level > level
    && forall j :: 0 <= j < i ==> !(tested in fs[j].hears && fs[j].level > level)
  }

  /** Who hears of an event: that filter, with its own client data; if there is none, the user, with theirs, if they
      have the callback; and else nobody. */
  lemma RecipientIs(b: Slot, tested: EventKind, kind: EventKind, level: int)
    requires |b.filters| == |b.filterData|
    ensures forall i: nat :: FirstBeyond(b.filters, tested, level, i) ==>
      RecipientOf(b, tested, kind, level) == Some(FilterCallback(b.filters[i], b.filterData[i]))
    ensures (forall i: nat :: !FirstBeyond(b.filters, tested, level, i)) ==>
      RecipientOf(b, tested, kind, level) ==
        if kind in b.handler.hears then Some(UserCallback(b.handler, b.userData)) else None
  {
    var k := NextUp(b.filters, tested, level);
    forall i: nat | FirstBeyond(b.filters, tested, level, i) ensures i == k {
      NextUpIs(b.filters, tested, level, i);
    }
    assert k < |b.filters| ==> FirstBeyond(b.filters, tested, level, k);
  }

  /** Events of the socket start below all filters, and writes of the user above them: the levels of the header lie
      between 1000 and 6000. */
  lemma FromOutside(fs: seq<Filter>, tested: EventKind)
    requires forall i :: 0 <= i < |fs| ==> 0 <= fs[i].level <= 6000
    ensures NextUp(fs, tested, LEVEL_INTERNAL) == |fs| <==> forall i :: 0 <= i < |fs| ==> tested !in fs[i].hears
    ensures NextDown(fs, LEVEL_WRITE_INTERNAL) == 0 <==> forall i :: 0 <= i < |fs| ==> Write !in fs[i].hears
  {
  }

  /** POLLIN switched on or off for one entry, and nothing else. */
  lemma ReadingIs(s: State, x: nat, on: bool)
    requires |s.pollfds| >= |s.idxArray| && HasEntry(s, x)
    ensures var t := Reading(s, x, on);
      && t == s.(pollfds := t.pollfds) && |t.pollfds| == |s.pollfds|
      && Entry(t, x) == Entry(s, x).(events := Events(on, Entry(s, x).events.pout, Entry(s, x).events.err))
      && forall i :: 0 <= i < |s.pollfds| && i != Pos(s.idxArray, x) ==> t.pollfds[i] == s.pollfds[i]
  {
  }
}
