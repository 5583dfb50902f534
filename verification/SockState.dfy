/** The tables of c-cpp/onethread/sockbuf.c as a value: slots, the two parallel poll arrays with the
    listener tail, the counters, and the history the properties speak about. Module Sockbuf holds the
    functions that update these tables in place.
 */
module SockState {
  import opened Bytes
  import opened Filters
  import opened Sequences
  import opened Options

  datatype Flags = Flags(block: bool, server: bool, client: bool, connecting: bool,
                         inbound: bool, deleted: bool, noread: bool, avail: bool)

  const NO_FLAGS := Flags(false, false, false, false, false, false, false, false)

  datatype Handler = Handler(id: nat, hears: set<EventKind>)

  const IDLE := Handler(0, {})

  datatype Slot = Slot(sock: int, flags: Flags, data: seq<Byte>,
                       rawIn: nat, rawOut: nat, bytesIn: nat, bytesOut: nat,
                       filters: seq<Filter>, filterData: seq<nat>, handler: Handler, userData: nat)
  {
    predicate Live() { !flags.avail && !flags.deleted }
  }

  const UNUSED := Slot(-1, NO_FLAGS.(avail := true), [], 0, 0, 0, 0, [], [], IDLE, 0)
  const OPENED := UNUSED.(flags := NO_FLAGS.(block := true))
  const WIPED := UNUSED.(flags := NO_FLAGS.(deleted := true))

  /** POLLIN, POLLOUT, and any of POLLHUP, POLLNVAL, POLLERR. */
  datatype Events = Events(pin: bool, pout: bool, err: bool)

  const NO_EVENTS := Events(false, false, false)

  datatype PollFd = PollFd(fd: int, events: Events, revents: Events)

  /** History of the connection in a slot. `gen` counts how often the slot was handed out; `submitted` is
      what its writer handed over, `sent` what the kernel took; `asked` are the flags a socket was last set with;
      `misused` records that this was done while bytes were waiting, without the BLOCK flag. */
  datatype Hist = Hist(gen: nat, submitted: seq<Byte>, sent: seq<Byte>, asked: Flags, misused: bool)

  /** What a poll reported: the how-manieth it was, for which connection and descriptor, and which events. */
  datatype Report = Report(round: nat, gen: nat, fd: int, events: Events)

  /** History of a slot's poll entry: how many were made before it, and what the last poll reported for it. */
  datatype Past = Past(serial: nat, report: Option<Report>)

  datatype Recipient = FilterCallback(filter: Filter, data: nat) | UserCallback(handler: Handler, user: nat)

  /** A callback made on behalf of slot `idx`. */
  datatype Call = Call(idx: nat, gen: nat, who: Recipient, kind: EventKind)

  /** `past` is the history of the entries, of which `made` were made in all and `polled` before the last poll that
      succeeded, the `rounds`-th. */
  datatype State = State(
    slots: seq<Slot>, idxArray: seq<nat>, pollfds: seq<PollFd>, nlisteners: nat, ndeleted: nat, depth: nat,
    hist: seq<Hist>, listeners: seq<int>, pending: set<nat>, past: map<nat, Past>, made: nat,
    polled: nat, rounds: nat, calls: seq<Call>)

  const INITIAL: State := State([], [], [], 0, 0, 0, [], [], {}, map[], 0, 0, 0, [])

  // ----- the invariant -----

  ghost predicate SlotOk(b: Slot, h: Hist, pending: bool) {
    && |b.filters| == |b.filterData| && Sorted(b.filters)
    && (pending ==> b.flags.deleted)
    && (b.flags.avail ==> b.sock == -1 && !b.flags.deleted)
    && (b.flags.deleted && !pending ==> b == WIPED)
    && (b.Live() || pending ==> Delivery(b, h) && Role(b, h))
  }

  /** Server or client, and reading or not, as the socket was last set. */
  predicate Role(b: Slot, h: Hist) {
    && b.flags.server == h.asked.server && b.flags.client == h.asked.client && b.flags.noread == h.asked.noread
    && (b.flags.connecting ==> h.asked.connecting)
  }

  /** Every byte submitted was sent or is waiting, in order; waiting bytes on an open socket mean BLOCK. */
  ghost predicate Delivery(b: Slot, h: Hist) {
    && b.rawOut == |h.sent|
    && b.rawOut + |b.data| == |h.submitted|
    && (!h.misused ==> h.submitted == h.sent + b.data)
    && (!h.misused && b.sock != -1 && b.data != [] ==> b.flags.block)
  }

  ghost predicate Slots(s: State) {
    && |s.hist| == |s.slots|
    && (forall x :: x in s.pending ==> x < |s.slots|)
    && forall x :: 0 <= x < |s.slots| ==> SlotOk(s.slots[x], s.hist[x], x in s.pending)
  }

  /** An entry of the poll table matches its slot: same descriptor, and POLLOUT when and only when wanted. */
  ghost predicate EntryOk(p: PollFd, b: Slot, h: Hist) {
    && p.fd == b.sock && b.sock != -1
    && (b.flags.block || b.flags.connecting ==> p.events.pout)
    && (!h.misused && p.events.pout ==> b.flags.block || b.flags.connecting)
  }

  ghost predicate Table(s: State) {
    && |s.pollfds| == |s.idxArray| + s.nlisteners && |s.hist| == |s.slots|
    && (forall i, j :: 0 <= i < j < |s.idxArray| ==> s.idxArray[i] != s.idxArray[j])
    && (forall i :: 0 <= i < |s.idxArray| ==>
         && s.idxArray[i] < |s.slots|
         && EntryOk(s.pollfds[i], s.slots[s.idxArray[i]], s.hist[s.idxArray[i]]))
    && (forall x :: 0 <= x < |s.slots| && s.slots[x].sock != -1 ==> x in s.idxArray)
  }

  function ListenerFd(fd: int): PollFd { PollFd(fd, Events(true, false, false), NO_EVENTS) }

  /** The tail of `pollfds` is the attached listeners, in order. */
  ghost predicate Tail(s: State) {
    && |s.pollfds| == |s.idxArray| + s.nlisteners && |s.listeners| == s.nlisteners
    && forall j :: 0 <= j < s.nlisteners ==> s.pollfds[|s.idxArray| + j] == ListenerFd(s.listeners[j])
  }

  /** An entry made before the last poll holds what that reported for its connection; nothing was for the others. */
  ghost predicate PastOk(e: Past, p: PollFd, gen: nat, made: nat, polled: nat, rounds: nat) {
    && e.serial < made
    && (e.report.Some? <==> e.serial < polled)
    && (e.report.Some? ==> e.report.value == Report(rounds, gen, e.report.value.fd, p.revents))
  }

  /** Entries stand in the order in which they were made. */
  ghost predicate Ordered(idxArray: seq<nat>, past: map<nat, Past>) {
    forall i, j :: 0 <= i < j < |idxArray| ==>
      && idxArray[i] in past && idxArray[j] in past
      && past[idxArray[i]].serial < past[idxArray[j]].serial
  }

  ghost predicate Reports(s: State) {
    && |s.pollfds| >= |s.idxArray| && |s.hist| == |s.slots| && s.polled <= s.made
    && (forall x :: x in s.past ==> x in s.idxArray)
    && (forall i :: 0 <= i < |s.idxArray| ==> s.idxArray[i] in s.past && ReportAt(s, i))
    && Ordered(s.idxArray, s.past)
  }

  ghost predicate ReportAt(s: State, i: nat)
    requires i < |s.idxArray| <= |s.pollfds| && |s.hist| == |s.slots|
  {
    var x := s.idxArray[i];
    x < |s.slots| && x in s.past && PastOk(s.past[x], s.pollfds[i], s.hist[x].gen, s.made, s.polled, s.rounds)
  }

  function CountDeleted(slots: seq<Slot>): nat {
    if slots == [] then 0 else (if slots[0].flags.deleted then 1 else 0) + CountDeleted(slots[1..])
  }

  ghost predicate Counts(s: State) {
    CountDeleted(s.slots) == s.ndeleted + |s.pending|
  }

  ghost predicate Inv(s: State) {
    Slots(s) && Table(s) && Tail(s) && Reports(s) && Counts(s)
  }

  // ----- what every step keeps -----

  ghost predicate HistGrows(h: Hist, k: Hist) {
    && h.gen <= k.gen
    && (h.gen == k.gen ==> h.submitted <= k.submitted && h.sent <= k.sent && (h.misused ==> k.misused))
  }

  /** The slot still belongs to the same connection, and a deleted one is still deleted, with the same callbacks. */
  ghost predicate Held(s: State, t: State, x: nat)
    requires x < |s.slots| <= |t.slots| && |s.hist| == |s.slots| && |t.hist| == |t.slots|
  {
    && !t.slots[x].flags.avail && t.hist[x].gen == s.hist[x].gen
    && (s.slots[x].flags.deleted ==>
         t.slots[x].flags.deleted && t.slots[x].filters == s.slots[x].filters
         && t.slots[x].handler == s.slots[x].handler)
  }

  /** Histories only grow, and while update_all runs (or the slot's own deletion does) no slot in use is reissued. */
  ghost predicate Evolves(s: State, t: State) {
    && |s.hist| == |s.slots| <= |t.slots| == |t.hist|
    && t.depth == s.depth && t.pending == s.pending && s.calls <= t.calls
    && (forall x :: 0 <= x < |s.slots| ==> HistGrows(s.hist[x], t.hist[x]))
    && (forall x :: 0 <= x < |s.slots| && !s.slots[x].flags.avail && (s.depth > 0 || x in s.pending) ==> Held(s, t, x))
    && Descends(s, t)
  }

  /** An entry that is not newer than `s` stands there too, and what it holds from the last poll it held there. */
  ghost predicate Descends(s: State, t: State) {
    && s.made <= t.made && s.rounds <= t.rounds
    && (forall x :: x in t.past && t.past[x].serial < s.made ==> x in s.past && s.past[x].serial == t.past[x].serial)
    && (t.rounds == s.rounds ==> t.polled == s.polled)
    && (t.rounds == s.rounds ==>
         forall x :: x in t.past && t.past[x].report.Some? ==> x in s.past && s.past[x] == t.past[x])
  }

  lemma EvolvesTrans(s: State, t: State, u: State)
    requires Evolves(s, t) && Evolves(t, u)
    ensures Evolves(s, u)
  {
    forall x | 0 <= x < |s.slots| ensures HistGrows(s.hist[x], u.hist[x]) {
      assert HistGrows(s.hist[x], t.hist[x]) && HistGrows(t.hist[x], u.hist[x]);
    }
    forall x | 0 <= x < |s.slots| && !s.slots[x].flags.avail && (s.depth > 0 || x in s.pending)
      ensures Held(s, u, x)
    {
      assert Held(s, t, x) && Held(t, u, x);
    }
    DescendsTrans(s, t, u);
  }

  lemma DescendsSame(s: State, t: State)
    requires t.past == s.past && t.made == s.made && t.polled == s.polled && t.rounds == s.rounds
    ensures Descends(s, t)
  {
  }

  lemma DescendsTrans(s: State, t: State, u: State)
    requires Descends(s, t) && Descends(t, u)
    ensures Descends(s, u)
  {
  }

  // ----- the poll table -----

  predicate HasEntry(s: State, x: nat) { Pos(s.idxArray, x) < |s.idxArray| }

  function Entry(s: State, x: nat): PollFd
    requires |s.pollfds| >= |s.idxArray| && HasEntry(s, x)
  {
    s.pollfds[Pos(s.idxArray, x)]
  }

  function WithEntry(s: State, x: nat, p: PollFd): State
    requires |s.pollfds| >= |s.idxArray| && HasEntry(s, x)
  {
    s.(pollfds := s.pollfds[Pos(s.idxArray, x) := p])
  }

  /** Slot `x` and its history replaced; the poll table as it was. */
  function Put(s: State, x: nat, b: Slot, h: Hist): State
    requires x < |s.slots| == |s.hist|
  {
    s.(slots := s.slots[x := b], hist := s.hist[x := h])
  }

  /** The state with slot `x`'s entry, if it has one, watched for POLLOUT or not. */
  function WithPollout(s: State, x: nat, on: bool): State
    requires |s.pollfds| >= |s.idxArray|
  {
    if HasEntry(s, x) then WithEntry(s, x, Entry(s, x).(events := Entry(s, x).events.(pout := on))) else s
  }

  /** sockbuf_block and sockbuf_unblock. */
  function Blocked(s: State, x: nat, on: bool): State
    requires x < |s.slots| == |s.hist| && |s.pollfds| >= |s.idxArray|
  {
    WithPollout(Put(s, x, s.slots[x].(flags := s.slots[x].flags.(block := on)), s.hist[x]), x, on)
  }

  /** The entry shifted out of both arrays. */
  function WithoutEntry(s: State, x: nat): State
    requires |s.pollfds| >= |s.idxArray|
  {
    if HasEntry(s, x)
    then s.(idxArray := RemoveAt(s.idxArray, Pos(s.idxArray, x)), pollfds := RemoveAt(s.pollfds, Pos(s.idxArray, x)),
            past := s.past - {x})
    else s
  }

  /** A new entry after the others, the listeners shifted up to make room; no poll has reported anything for it. */
  function WithNewEntry(s: State, x: nat, p: PollFd): State
    requires |s.pollfds| >= |s.idxArray|
  {
    s.(idxArray := s.idxArray + [x], pollfds := InsertAt(s.pollfds, |s.idxArray|, p),
       past := s.past[x := Past(s.made, None)], made := s.made + 1)
  }

  // ----- lemmas: steps on one slot -----

  lemma {:induction false} CountPut(slots: seq<Slot>, x: nat, b: Slot)
    requires x < |slots|
    ensures CountDeleted(slots[x := b]) ==
      CountDeleted(slots) - (if slots[x].flags.deleted then 1 else 0) + (if b.flags.deleted then 1 else 0)
  {
    if x > 0 {
      assert slots[x := b][1..] == slots[1..][x - 1 := b];
      CountPut(slots[1..], x - 1, b);
    } else {
      assert slots[x := b][1..] == slots[1..];
    }
  }

  lemma PutKeepsSlots(s: State, x: nat, b: Slot, h: Hist)
    requires Slots(s) && x < |s.slots| && SlotOk(b, h, x in s.pending)
    ensures Slots(Put(s, x, b, h))
  {
    var t := Put(s, x, b, h);
    forall y | 0 <= y < |t.slots| ensures SlotOk(t.slots[y], t.hist[y], y in t.pending) {
      assert SlotOk(s.slots[y], s.hist[y], y in s.pending);
    }
  }

  lemma PutEvolves(s: State, x: nat, b: Slot, h: Hist)
    requires x < |s.slots| == |s.hist|
    requires b.flags.deleted == s.slots[x].flags.deleted && b.flags.avail == s.slots[x].flags.avail
    requires b.flags.deleted ==> b.filters == s.slots[x].filters && b.handler == s.slots[x].handler
    requires h.gen == s.hist[x].gen && HistGrows(s.hist[x], h)
    ensures Evolves(s, Put(s, x, b, h))
  {
  }

  /** Steps on the slots that leave the poll arrays alone. */
  lemma TableKept(s: State, t: State)
    requires Table(s) && Tail(s) && Reports(s)
    requires t.idxArray == s.idxArray && t.pollfds == s.pollfds
    requires t.past == s.past && t.made == s.made && t.polled == s.polled && t.rounds == s.rounds
    requires t.nlisteners == s.nlisteners && t.listeners == s.listeners
    requires |t.hist| == |t.slots| >= |s.slots|
    requires forall x :: 0 <= x < |t.slots| && t.slots[x].sock != -1 ==> x < |s.slots| && s.slots[x].sock != -1
    requires forall i :: 0 <= i < |t.idxArray| ==>
      && EntryOk(t.pollfds[i], t.slots[t.idxArray[i]], t.hist[t.idxArray[i]])
      && t.hist[t.idxArray[i]].gen == s.hist[t.idxArray[i]].gen
    ensures Table(t) && Tail(t) && Reports(t)
  {
    hide EntryOk, PastOk;
    forall i | 0 <= i < |t.idxArray| ensures t.idxArray[i] in t.past && ReportAt(t, i) {
      assert ReportAt(s, i);
    }
  }

  /** Slot `x` rewritten along with its own poll entry, if it has one. */
  function Touched(s: State, x: nat, b: Slot, h: Hist, p: PollFd): State
    requires x < |s.slots| == |s.hist| && |s.pollfds| >= |s.idxArray|
  {
    if HasEntry(s, x) then WithEntry(Put(s, x, b, h), x, p) else Put(s, x, b, h)
  }

  /** A step that rewrites slot `x` and at most its own poll entry, in a way that suits both. */
  lemma TouchKeeps(s: State, x: nat, b: Slot, h: Hist, p: PollFd)
    requires Inv(s) && x < |s.slots| && SlotOk(b, h, x in s.pending)
    requires b.flags.deleted == s.slots[x].flags.deleted && b.flags.avail == s.slots[x].flags.avail
    requires b.flags.deleted ==> b.filters == s.slots[x].filters && b.handler == s.slots[x].handler
    requires h.gen == s.hist[x].gen && HistGrows(s.hist[x], h)
    requires HasEntry(s, x) ==> EntryOk(p, b, h) && p.revents == Entry(s, x).revents
    requires !HasEntry(s, x) ==> b.sock == -1
    ensures var u := Touched(s, x, b, h, p); Inv(u) && Evolves(s, u)
  {
    hide SlotOk, HistGrows, EntryOk, Slots, Table, Tail, Reports, Evolves;
    HistLength(s);
    var t, u := Put(s, x, b, h), Touched(s, x, b, h, p);
    PutKeepsSlots(s, x, b, h);
    assert Slots(u) by { SlotsFrame(t, u); }
    assert Counts(u) by { CountPut(s.slots, x, b); }
    TouchEvolves(s, x, b, h, p);
    TouchKeepsTable(s, x, b, h, p);
    TouchKeepsReports(s, x, b, h, p);
  }

  lemma TouchEvolves(s: State, x: nat, b: Slot, h: Hist, p: PollFd)
    requires x < |s.slots| == |s.hist| && |s.pollfds| >= |s.idxArray|
    requires b.flags.deleted == s.slots[x].flags.deleted && b.flags.avail == s.slots[x].flags.avail
    requires b.flags.deleted ==> b.filters == s.slots[x].filters && b.handler == s.slots[x].handler
    requires h.gen == s.hist[x].gen && HistGrows(s.hist[x], h)
    ensures Evolves(s, Touched(s, x, b, h, p))
  {
    hide HistGrows, Evolves, Descends;
    var t, u := Put(s, x, b, h), Touched(s, x, b, h, p);
    PutEvolves(s, x, b, h);
    DescendsSame(s, u);
    EvolvesFrame(s, t, u);
  }

  lemma TouchKeepsTable(s: State, x: nat, b: Slot, h: Hist, p: PollFd)
    requires Table(s) && Tail(s) && x < |s.slots|
    requires HasEntry(s, x) ==> EntryOk(p, b, h)
    requires !HasEntry(s, x) ==> b.sock == -1
    ensures var u := Touched(s, x, b, h, p); Table(u) && Tail(u)
  {
    hide EntryOk;
    var u := Touched(s, x, b, h, p);
    assert |u.pollfds| == |s.pollfds| && u.idxArray == s.idxArray;
    forall i | 0 <= i < |s.idxArray| ensures s.idxArray[i] == x <==> i == Pos(s.idxArray, x) {
    }
    assert Tail(u) by {
      TouchKeepsTail(s, x, b, h, p);
    }
    forall i | 0 <= i < |u.idxArray|
      ensures u.idxArray[i] < |u.slots| && EntryOk(u.pollfds[i], u.slots[u.idxArray[i]], u.hist[u.idxArray[i]])
    {
      assert EntryOk(s.pollfds[i], s.slots[s.idxArray[i]], s.hist[s.idxArray[i]]);
    }
  }

  lemma TouchKeepsReports(s: State, x: nat, b: Slot, h: Hist, p: PollFd)
    requires Reports(s) && x < |s.slots| && h.gen == s.hist[x].gen
    requires HasEntry(s, x) ==> p.revents == Entry(s, x).revents
    ensures Reports(Touched(s, x, b, h, p))
  {
    var u := Touched(s, x, b, h, p);
    forall i | 0 <= i < |u.idxArray|
      ensures ReportAt(u, i)
    {
      assert ReportAt(s, i);
    }
  }

  lemma TouchKeepsTail(s: State, x: nat, b: Slot, h: Hist, p: PollFd)
    requires Tail(s) && x < |s.slots| == |s.hist|
    ensures Tail(Touched(s, x, b, h, p))
  {
  }

  lemma SlotsFrame(t: State, u: State)
    requires Slots(t) && t.slots == u.slots && t.hist == u.hist && t.pending == u.pending
    ensures Slots(u)
  {
  }

  lemma EvolvesFrame(s: State, t: State, u: State)
    requires Evolves(s, t) && t.slots == u.slots && t.hist == u.hist
    requires t.depth == u.depth && t.pending == u.pending && t.calls == u.calls && Descends(s, u)
    ensures Evolves(s, u)
  {
    forall x | 0 <= x < |s.slots| ensures HistGrows(s.hist[x], u.hist[x]) {
      assert HistGrows(s.hist[x], t.hist[x]);
    }
    forall x | 0 <= x < |s.slots| && !s.slots[x].flags.avail && (s.depth > 0 || x in s.pending)
      ensures Held(s, u, x)
    {
      assert Held(s, t, x);
    }
  }

  /** Positions in the arrays before and after one entry is shifted out. */
  lemma ShiftedOut(s: State, x: nat)
    requires |s.pollfds| == |s.idxArray| + s.nlisteners && HasEntry(s, x)
    requires forall i, j :: 0 <= i < j < |s.idxArray| ==> s.idxArray[i] != s.idxArray[j]
    ensures var k, u := Pos(s.idxArray, x), WithoutEntry(s, x);
      && |u.idxArray| == |s.idxArray| - 1 && |u.pollfds| == |s.pollfds| - 1
      && (forall i :: 0 <= i < |u.idxArray| ==> u.idxArray[i] == s.idxArray[if i < k then i else i + 1])
      && (forall i :: 0 <= i < |u.pollfds| ==> u.pollfds[i] == s.pollfds[if i < k then i else i + 1])
      && (forall y :: y in u.idxArray <==> y in s.idxArray && y != x)
  {
    var k, u := Pos(s.idxArray, x), WithoutEntry(s, x);
    forall y ensures y in u.idxArray <==> y in s.idxArray && y != x {
      if y in s.idxArray && y != x {
        var j :| 0 <= j < |s.idxArray| && s.idxArray[j] == y;
        assert u.idxArray[if j < k then j else j - 1] == y;
      }
    }
  }

  /** Taking the entry out when the slot no longer has a socket. */
  lemma RemoveKeepsTable(s: State, x: nat, b: Slot, h: Hist)
    requires Table(s) && Tail(s) && Reports(s) && x < |s.slots|
    requires b.sock == -1 && h.gen == s.hist[x].gen
    ensures var u := WithoutEntry(Put(s, x, b, h), x);
      Table(u) && Tail(u) && Reports(u)
  {
    hide EntryOk, WithoutEntry, Reports, Pos;
    var t := Put(s, x, b, h);
    var u := WithoutEntry(t, x);
    if HasEntry(s, x) {
      WithoutEntryFrame(t, x);
      ShiftedOut(t, x);
      RemoveKeepsEntries(s, x, b, h);
      RemoveKeepsTail(t, x);
      RemoveKeepsReports(s, x, b, h);
    } else {
      TouchKeepsTable(s, x, b, h, PollFd(-1, NO_EVENTS, NO_EVENTS));
      TouchKeepsReports(s, x, b, h, PollFd(-1, NO_EVENTS, NO_EVENTS));
      WithoutEntryFrame(t, x);
    }
  }

  lemma WithoutEntryFrame(s: State, x: nat)
    requires |s.pollfds| >= |s.idxArray|
    ensures var u := WithoutEntry(s, x);
      && u.slots == s.slots && u.hist == s.hist && u.nlisteners == s.nlisteners && u.listeners == s.listeners
      && (!HasEntry(s, x) ==> u == s)
      && (HasEntry(s, x) ==> u.past == s.past - {x} && u.idxArray == RemoveAt(s.idxArray, Pos(s.idxArray, x)))
      && u.made == s.made && u.polled == s.polled && u.rounds == s.rounds
      && u.pending == s.pending && u.depth == s.depth && u.calls == s.calls && u.ndeleted == s.ndeleted
  {
  }

  lemma RemoveKeepsTail(s: State, x: nat)
    requires Tail(s) && HasEntry(s, x)
    ensures Tail(WithoutEntry(s, x))
  {
    var u := WithoutEntry(s, x);
    forall j | 0 <= j < u.nlisteners ensures u.pollfds[|u.idxArray| + j] == ListenerFd(u.listeners[j]) {
      assert u.pollfds[|u.idxArray| + j] == s.pollfds[|s.idxArray| + j];
    }
  }

  lemma RemoveKeepsEntries(s: State, x: nat, b: Slot, h: Hist)
    requires Table(s) && x < |s.slots| && HasEntry(s, x) && b.sock == -1
    ensures var t := Put(s, x, b, h);
      var u := WithoutEntry(t, x);
      forall i :: 0 <= i < |u.idxArray| ==>
        && u.idxArray[i] < |s.slots| && u.idxArray[i] != x
        && |u.pollfds| >= |u.idxArray|
        && EntryOk(u.pollfds[i], t.slots[u.idxArray[i]], t.hist[u.idxArray[i]])
  {
    hide EntryOk, WithoutEntry;
    var t := Put(s, x, b, h);
    ShiftedOut(t, x);
    var k, u := Pos(s.idxArray, x), WithoutEntry(t, x);
    forall i | 0 <= i < |u.idxArray|
      ensures var j := if i < k then i else i + 1;
        && u.idxArray[i] == s.idxArray[j] && u.pollfds[i] == s.pollfds[j] && u.idxArray[i] != x
        && EntryOk(u.pollfds[i], t.slots[u.idxArray[i]], t.hist[u.idxArray[i]])
    {
      var j := if i < k then i else i + 1;
      assert EntryOk(s.pollfds[j], s.slots[s.idxArray[j]], s.hist[s.idxArray[j]]);
    }
  }

  lemma OrderedWithout(idxArray: seq<nat>, past: map<nat, Past>, k: nat)
    requires Ordered(idxArray, past) && k < |idxArray|
    ensures Ordered(RemoveAt(idxArray, k), past - {idxArray[k]})
  {
    var r := RemoveAt(idxArray, k);
    forall i, j | 0 <= i < j < |r|
      ensures r[i] in past && r[j] in past && past[r[i]].serial < past[r[j]].serial
      ensures r[i] != idxArray[k] && r[j] != idxArray[k]
    {
      OrderedApart(idxArray, past, if i < k then i else i + 1, k);
      OrderedApart(idxArray, past, if j < k then j else j + 1, k);
    }
  }

  lemma OrderedApart(idxArray: seq<nat>, past: map<nat, Past>, i: nat, j: nat)
    requires Ordered(idxArray, past) && i < |idxArray| && j < |idxArray| && i != j
    ensures idxArray[i] != idxArray[j]
  {
  }

  lemma OrderedWith(idxArray: seq<nat>, past: map<nat, Past>, x: nat, e: Past)
    requires Ordered(idxArray, past) && x !in idxArray
    requires forall i :: 0 <= i < |idxArray| ==> idxArray[i] in past && past[idxArray[i]].serial < e.serial
    ensures Ordered(idxArray + [x], past[x := e])
  {
  }

  lemma OrderedSame(idxArray: seq<nat>, past: map<nat, Past>, now: map<nat, Past>)
    requires Ordered(idxArray, past)
    requires forall i :: 0 <= i < |idxArray| ==>
      idxArray[i] in past ==> idxArray[i] in now && now[idxArray[i]].serial == past[idxArray[i]].serial
    ensures Ordered(idxArray, now)
  {
  }

  lemma RemoveKeepsReports(s: State, x: nat, b: Slot, h: Hist)
    requires Table(s) && Reports(s) && x < |s.slots| && HasEntry(s, x)
    requires h.gen == s.hist[x].gen
    ensures Reports(WithoutEntry(Put(s, x, b, h), x))
  {
    hide EntryOk, WithoutEntry, ReportAt, Ordered, Pos;
    var t := Put(s, x, b, h);
    var k, u := Pos(s.idxArray, x), WithoutEntry(t, x);
    ShiftedOut(t, x);
    WithoutEntryFrame(t, x);
    OrderedWithout(s.idxArray, s.past, k);
    forall i | 0 <= i < |u.idxArray| ensures u.idxArray[i] in u.past && ReportAt(u, i) {
      RemovedReport(s, u, x, if i < k then i else i + 1, i);
    }
  }

  lemma RemovedReport(s: State, u: State, x: nat, j: nat, i: nat)
    requires |s.pollfds| >= |s.idxArray| && |s.hist| == |s.slots| && j < |s.idxArray| && ReportAt(s, j)
    requires |u.pollfds| >= |u.idxArray| && |u.hist| == |u.slots| == |s.slots| && i < |u.idxArray|
    requires u.idxArray[i] == s.idxArray[j] != x && u.pollfds[i] == s.pollfds[j] && u.past == s.past - {x}
    requires u.hist[u.idxArray[i]].gen == s.hist[s.idxArray[j]].gen
    requires u.made == s.made && u.polled == s.polled && u.rounds == s.rounds
    ensures u.idxArray[i] in u.past && ReportAt(u, i)
  {
  }

  /** Adding an entry for a slot that had no socket. */
  lemma AddKeepsTable(s: State, x: nat, b: Slot, h: Hist, p: PollFd)
    requires Table(s) && Tail(s) && Reports(s) && x < |s.slots|
    requires !HasEntry(s, x) && EntryOk(p, b, h) && h.gen == s.hist[x].gen
    ensures var u := WithNewEntry(Put(s, x, b, h), x, p);
      Table(u) && Tail(u) && Reports(u)
  {
    hide EntryOk, Reports;
    var u := WithNewEntry(Put(s, x, b, h), x, p);
    assert Table(u) by {
      forall i | 0 <= i < |u.idxArray|
        ensures u.idxArray[i] < |u.slots| && EntryOk(u.pollfds[i], u.slots[u.idxArray[i]], u.hist[u.idxArray[i]])
      {
        if i < |s.idxArray| {
          assert EntryOk(s.pollfds[i], s.slots[s.idxArray[i]], s.hist[s.idxArray[i]]);
        }
      }
      assert u.idxArray[|s.idxArray|] == x;
    }
    AddKeepsReports(s, x, b, h, p);
    assert Tail(u) by {
      forall j | 0 <= j < u.nlisteners ensures u.pollfds[|u.idxArray| + j] == ListenerFd(u.listeners[j]) {
        assert u.pollfds[|u.idxArray| + j] == s.pollfds[|s.idxArray| + j];
      }
    }
  }

  lemma AddKeepsReports(s: State, x: nat, b: Slot, h: Hist, p: PollFd)
    requires Reports(s) && x < |s.slots| && !HasEntry(s, x)
    ensures Reports(WithNewEntry(Put(s, x, b, h), x, p))
  {
    var u := WithNewEntry(Put(s, x, b, h), x, p);
    forall i | 0 <= i < |s.idxArray| ensures s.past[s.idxArray[i]].serial < s.made {
      assert ReportAt(s, i);
    }
    OrderedWith(s.idxArray, s.past, x, Past(s.made, None));
    hide Ordered;
    forall i | 0 <= i < |u.idxArray|
      ensures u.idxArray[i] in u.past && ReportAt(u, i)
    {
      if i < |s.idxArray| {
        assert ReportAt(s, i);
      }
    }
  }

  // ----- output -----

  /** A slot and its history after the kernel took the first `n` bytes of a write: the rest waits, and the slot
      blocks. */
  function WroteSlot(b: Slot, d: seq<Byte>, n: nat): Slot
    requires n <= |d|
  {
    b.(flags := b.flags.(block := b.flags.block || n < |d|), rawOut := b.rawOut + n, data := b.data + d[n..])
  }

  function WroteHist(h: Hist, d: seq<Byte>, n: nat): Hist
    requires n <= |d|
  {
    h.(sent := h.sent + d[..n], submitted := h.submitted + d)
  }

  /** sockbuf_real_write: the slot rewritten, and POLLOUT wanted when it has just blocked. */
  function Wrote(s: State, x: nat, d: seq<Byte>, n: nat): State
    requires x < |s.slots| == |s.hist| && |s.pollfds| >= |s.idxArray| && n <= |d|
  {
    var t := Put(s, x, WroteSlot(s.slots[x], d, n), WroteHist(s.hist[x], d, n));
    if !s.slots[x].flags.block && n < |d| then WithPollout(t, x, true) else t
  }

  function Counted(s: State, x: nat, taken: seq<Byte>): State
    requires x < |s.slots| == |s.hist|
  {
    Put(s, x, s.slots[x].(rawOut := s.slots[x].rawOut + |taken|), s.hist[x].(sent := s.hist[x].sent + taken))
  }

  function Appended(s: State, x: nat, rest: seq<Byte>, whole: seq<Byte>): State
    requires x < |s.slots| == |s.hist|
  {
    Put(s, x, s.slots[x].(data := s.slots[x].data + rest), s.hist[x].(submitted := s.hist[x].submitted + whole))
  }

  /** The steps in which the code does it: count, block if something is left, buffer that. */
  lemma WroteInSteps(s: State, x: nat, d: seq<Byte>, n: nat)
    requires x < |s.slots| == |s.hist| && |s.pollfds| >= |s.idxArray| && n <= |d|
    requires s.slots[x].flags.block ==> n == 0
    ensures Wrote(s, x, d, n) ==
      if s.slots[x].flags.block then Appended(s, x, d[n..], d)
      else var c := Counted(s, x, d[..n]);
        Appended(if n < |d| then Blocked(c, x, true) else c, x, d[n..], d)
  {
    assert s.hist[x].sent + d[..0] == s.hist[x].sent;
    var t := if s.slots[x].flags.block then s
             else var c := Counted(s, x, d[..n]); if n < |d| then Blocked(c, x, true) else c;
    var u := Appended(t, x, d[n..], d);
    assert u.slots[x] == WroteSlot(s.slots[x], d, n) && u.hist[x] == WroteHist(s.hist[x], d, n);
    assert u.slots == s.slots[x := u.slots[x]] && u.hist == s.hist[x := u.hist[x]];
  }

  lemma WroteSlotOk(b: Slot, h: Hist, p: bool, d: seq<Byte>, n: nat)
    requires SlotOk(b, h, p) && n <= |d| && (b.Live() || p)
    requires b.flags.block ==> n == 0
    requires b.flags.block || b.sock != -1
    ensures SlotOk(WroteSlot(b, d, n), WroteHist(h, d, n), p)
  {
    WroteDelivery(b, h, d, n);
  }

  lemma WroteGrows(h: Hist, d: seq<Byte>, n: nat)
    requires n <= |d|
    ensures HistGrows(h, WroteHist(h, d, n))
  {
  }

  lemma WroteDelivery(b: Slot, h: Hist, d: seq<Byte>, n: nat)
    requires Delivery(b, h) && n <= |d|
    requires b.flags.block ==> n == 0
    requires b.flags.block || b.sock != -1
    ensures Delivery(WroteSlot(b, d, n), WroteHist(h, d, n))
  {
    if b.flags.block {
      assert d[..n] == [] && d[n..] == d;
      assert h.sent + [] == h.sent;
      assert h.sent + (b.data + d) == h.sent + b.data + d;
    } else if !h.misused {
      assert b.data == [];
      assert h.sent + d[..n] + d[n..] == h.sent + d;
      assert [] + d[n..] == d[n..];
    }
  }

  /** Whatever the kernel takes of a write, nothing is lost, repeated or reordered. */
  lemma WroteKeeps(s: State, x: nat, d: seq<Byte>, n: nat)
    requires Inv(s) && x < |s.slots| && n <= |d|
    requires s.slots[x].flags.block ==> n == 0
    requires s.slots[x].Live() || x in s.pending
    requires s.slots[x].flags.block || s.slots[x].sock != -1
    ensures var t := Wrote(s, x, d, n); Inv(t) && Evolves(s, t)
  {
    var b, h := s.slots[x], s.hist[x];
    var b', h' := WroteSlot(b, d, n), WroteHist(h, d, n);
    assert SlotOk(b, h, x in s.pending);
    WroteSlotOk(b, h, x in s.pending, d, n);
    WroteGrows(h, d, n);
    EntryOfSlot(s, x);
    assert |s.hist| == |s.slots| && |s.pollfds| >= |s.idxArray|;
    hide Inv, Evolves, SlotOk, WithPollout, Put, Touched;
    if HasEntry(s, x) {
      var p := Entry(s, x);
      var q := if !b.flags.block && n < |d| then p.(events := p.events.(pout := true)) else p;
      SameEntry(s, x, b', h');
      TouchKeeps(s, x, b', h', q);
    } else {
      NoEntry(s, x, b', h');
      TouchKeeps(s, x, b', h', PollFd(-1, NO_EVENTS, NO_EVENTS));
    }
  }

  lemma SameEntry(s: State, x: nat, b: Slot, h: Hist)
    requires x < |s.slots| == |s.hist| && |s.pollfds| >= |s.idxArray| && HasEntry(s, x)
    ensures Touched(s, x, b, h, Entry(s, x)) == Put(s, x, b, h)
    ensures forall on ::
      WithPollout(Put(s, x, b, h), x, on) ==
        Touched(s, x, b, h, Entry(s, x).(events := Entry(s, x).events.(pout := on)))
  {
  }

  lemma NoEntry(s: State, x: nat, b: Slot, h: Hist)
    requires x < |s.slots| == |s.hist| && |s.pollfds| >= |s.idxArray| && !HasEntry(s, x)
    ensures forall p :: Touched(s, x, b, h, p) == Put(s, x, b, h)
    ensures forall on :: WithPollout(Put(s, x, b, h), x, on) == Put(s, x, b, h)
  {
  }

  lemma EntryOfSlot(s: State, x: nat)
    requires Table(s) && x < |s.slots|
    ensures HasEntry(s, x) <==> s.slots[x].sock != -1
    ensures HasEntry(s, x) ==> EntryOk(Entry(s, x), s.slots[x], s.hist[x])
  {
  }

  /** A step that rewrites slot `x`, with POLLOUT for its entry unchanged (None) or set. */
  lemma PolloutKeeps(s: State, x: nat, b: Slot, h: Hist, change: bool, on: bool)
    requires Inv(s) && x < |s.slots| && SlotOk(b, h, x in s.pending)
    requires b.sock == s.slots[x].sock
    requires b.flags.deleted == s.slots[x].flags.deleted && b.flags.avail == s.slots[x].flags.avail
    requires b.flags.deleted ==> b.filters == s.slots[x].filters && b.handler == s.slots[x].handler
    requires h.gen == s.hist[x].gen && HistGrows(s.hist[x], h)
    requires HasEntry(s, x) ==>
      var e := Entry(s, x).events;
      EntryOk(Entry(s, x).(events := if change then e.(pout := on) else e), b, h)
    ensures var t := Put(s, x, b, h);
      var u := if change then WithPollout(t, x, on) else t;
      Inv(u) && Evolves(s, u)
  {
    EntryOfSlot(s, x);
    assert |s.hist| == |s.slots| && |s.pollfds| >= |s.idxArray|;
    hide Inv, Evolves, SlotOk, EntryOk, WithPollout, Put, Touched;
    if HasEntry(s, x) {
      var p := Entry(s, x);
      SameEntry(s, x, b, h);
      TouchKeeps(s, x, b, h, if change then p.(events := p.events.(pout := on)) else p);
    } else {
      NoEntry(s, x, b, h);
      TouchKeeps(s, x, b, h, PollFd(-1, NO_EVENTS, NO_EVENTS));
    }
  }

  /** A slot after the kernel took `n` of its waiting bytes; the block is lifted with the last of them. */
  function DrainedSlot(b: Slot, n: nat): Slot
    requires n <= |b.data|
  {
    b.(rawOut := b.rawOut + n, data := b.data[n..], flags := b.flags.(block := b.flags.block && n < |b.data|))
  }

  function DrainedHist(b: Slot, h: Hist, n: nat): Hist
    requires n <= |b.data|
  {
    h.(sent := h.sent + b.data[..n])
  }

  /** sockbuf_got_writable when the kernel took `n` bytes. */
  function Drained(s: State, x: nat, n: nat): State
    requires x < |s.slots| == |s.hist| && |s.pollfds| >= |s.idxArray| && n <= |s.slots[x].data|
  {
    var t := Put(s, x, DrainedSlot(s.slots[x], n), DrainedHist(s.slots[x], s.hist[x], n));
    if n == |s.slots[x].data| then WithPollout(t, x, false) else t
  }

  lemma DrainedDelivery(b: Slot, h: Hist, n: nat)
    requires Delivery(b, h) && n <= |b.data|
    ensures Delivery(DrainedSlot(b, n), DrainedHist(b, h, n))
    ensures HistGrows(h, DrainedHist(b, h, n))
  {
    assert b.data == b.data[..n] + b.data[n..];
    assert h.sent + b.data == h.sent + b.data[..n] + b.data[n..];
  }

  /** Draining sends the waiting bytes in order and keeps POLLOUT exactly while some wait. */
  lemma DrainedKeeps(s: State, x: nat, n: nat)
    requires Inv(s) && x < |s.slots| && 0 < n <= |s.slots[x].data|
    requires s.slots[x].Live() || x in s.pending
    requires s.slots[x].sock != -1 && !s.slots[x].flags.connecting
    ensures var t := Drained(s, x, n); Inv(t) && Evolves(s, t)
  {
    var b, h := s.slots[x], s.hist[x];
    assert SlotOk(b, h, x in s.pending);
    DrainedDelivery(b, h, n);
    EntryOfSlot(s, x);
    PolloutKeeps(s, x, DrainedSlot(b, n), DrainedHist(b, h, n), n == |b.data|, false);
  }

  /** sockbuf_got_writable_client without an error: no longer connecting, and unblocked unless bytes wait. */
  function Connected(s: State, x: nat): State
    requires x < |s.slots| == |s.hist| && |s.pollfds| >= |s.idxArray|
  {
    var t := Put(s, x, ConnectedSlot(s.slots[x]), s.hist[x]);
    if s.slots[x].data == [] then WithPollout(t, x, false) else t
  }

  function ConnectedSlot(b: Slot): Slot {
    b.(flags := b.flags.(connecting := false, block := b.flags.block && b.data != []))
  }

  lemma ConnectedIs(s: State, x: nat)
    requires x < |s.slots| == |s.hist| && |s.pollfds| >= |s.idxArray|
    ensures var t := Connected(s, x);
      && t.slots == s.slots[x := t.slots[x]] && t.hist == s.hist && |t.slots| == |s.slots|
      && var b, c := s.slots[x], t.slots[x];
      && !c.flags.connecting && (c.flags.block <==> b.flags.block && b.data != [])
      && c == b.(flags := b.flags.(connecting := c.flags.connecting, block := c.flags.block))
  {
    hide WithEntry, Entry, HasEntry;
    var t := Put(s, x, ConnectedSlot(s.slots[x]), s.hist[x]);
    PolloutFrame(t, x, false);
    assert t.hist == s.hist;
  }

  /** The steps in which the code does it: CONNECTING cleared, and then unblocked unless bytes wait. */
  lemma ConnectedInSteps(s: State, x: nat)
    requires x < |s.slots| == |s.hist| && |s.pollfds| >= |s.idxArray|
    ensures var b := s.slots[x].(flags := s.slots[x].flags.(connecting := false));
      var t := s.(slots := s.slots[x := b]);
      Connected(s, x) == if b.data == [] then Blocked(t, x, false) else t
  {
    hide WithPollout;
    var b := s.slots[x].(flags := s.slots[x].flags.(connecting := false));
    var t := s.(slots := s.slots[x := b]);
    assert s.hist[x := s.hist[x]] == s.hist;
    if b.data == [] {
      assert t.slots[x := ConnectedSlot(s.slots[x])] == s.slots[x := ConnectedSlot(s.slots[x])];
    } else {
      assert ConnectedSlot(s.slots[x]) == b;
    }
  }

  lemma PolloutFrame(s: State, x: nat, on: bool)
    requires |s.pollfds| >= |s.idxArray|
    ensures var t := WithPollout(s, x, on); t == s.(pollfds := t.pollfds)
  {
  }

  lemma ConnectedSlotOk(b: Slot, h: Hist, pending: bool)
    requires SlotOk(b, h, pending) && (b.Live() || pending)
    ensures SlotOk(ConnectedSlot(b), h, pending)
    ensures forall p :: EntryOk(p, b, h) ==>
      EntryOk(p.(events := if b.data == [] then p.events.(pout := false) else p.events), ConnectedSlot(b), h)
  {
  }

  lemma EntryOfInv(s: State, x: nat)
    requires Inv(s) && x < |s.slots|
    ensures |s.hist| == |s.slots| && |s.pollfds| >= |s.idxArray| && SlotOk(s.slots[x], s.hist[x], x in s.pending)
    ensures HasEntry(s, x) ==> EntryOk(Entry(s, x), s.slots[x], s.hist[x])
  {
    hide EntryOk;
    EntryOfSlot(s, x);
  }

  lemma ConnectedKeeps(s: State, x: nat)
    requires Inv(s) && x < |s.slots| && s.slots[x].sock != -1
    requires s.slots[x].Live() || x in s.pending
    ensures |s.hist| == |s.slots| && |s.pollfds| >= |s.idxArray|
    ensures var t := Connected(s, x); Inv(t) && Evolves(s, t)
  {
    hide Inv, Evolves, SlotOk, EntryOk;
    EntryOfInv(s, x);
    ConnectedSlotOk(s.slots[x], s.hist[x], x in s.pending);
    PolloutKeeps(s, x, ConnectedSlot(s.slots[x]), s.hist[x], s.slots[x].data == [], false);
  }

  /** Steps that leave a slot's socket, flags and output alone. */
  lemma BookkeepingKeeps(s: State, x: nat, b: Slot)
    requires Inv(s) && x < |s.slots|
    requires s.slots[x].Live() || x in s.pending
    requires var c := s.slots[x]; b.sock == c.sock && b.flags == c.flags && b.data == c.data && b.rawOut == c.rawOut
    requires |b.filters| == |b.filterData| && Sorted(b.filters)
    requires b.flags.deleted ==> b.filters == s.slots[x].filters && b.handler == s.slots[x].handler
    ensures var t := Put(s, x, b, s.hist[x]); Inv(t) && Evolves(s, t)
  {
    assert SlotOk(s.slots[x], s.hist[x], x in s.pending);
    EntryOfSlot(s, x);
    PolloutKeeps(s, x, b, s.hist[x], false, false);
  }

  // ----- sockets -----

  /** The flags a caller of sockbuf_set_sock may pass. */
  predicate ConnFlags(f: Flags) { !f.deleted && !f.avail }

  function SocketSlot(b: Slot, sock: int, f: Flags): Slot {
    b.(sock := sock,
       flags := b.flags.(connecting := f.connecting, client := f.client, server := f.server, block := f.block,
                         noread := f.noread, inbound := b.flags.inbound || f.inbound,
                         deleted := b.flags.deleted || f.deleted, avail := b.flags.avail || f.avail))
  }

  /** The case in which waiting bytes and new ones may change places: see SetSockKeepsOrder. */
  predicate Misuse(b: Slot, sock: int, f: Flags) { sock != -1 && b.data != [] && !f.block }

  function SocketHist(b: Slot, h: Hist, sock: int, f: Flags): Hist {
    h.(asked := f, misused := h.misused || Misuse(b, sock, f))
  }

  lemma AskedIs(b: Slot, h: Hist, sock: int, f: Flags)
    ensures SocketHist(b, h, sock, f).asked == f
  {
  }

  function SocketPoll(sock: int, f: Flags, revents: Events): PollFd {
    PollFd(sock, Events(!f.noread, f.block || f.connecting, false), revents)
  }

  /** sockbuf_set_sock; `stale` is what a fresh entry's revents field holds: anything, or what the first listener had,
      which stood there before. */
  function SocketSet(s: State, x: nat, sock: int, f: Flags, stale: Events): State
    requires x < |s.slots| == |s.hist| && |s.pollfds| >= |s.idxArray|
  {
    var t := Put(s, x, SocketSlot(s.slots[x], sock, f), SocketHist(s.slots[x], s.hist[x], sock, f));
    if sock == -1 then WithoutEntry(t, x)
    else if HasEntry(s, x) then WithEntry(t, x, SocketPoll(sock, f, Entry(s, x).revents))
    else WithNewEntry(t, x, SocketPoll(sock, f, stale))
  }

  lemma SocketSlotOk(b: Slot, h: Hist, sock: int, f: Flags, revents: Events)
    requires SlotOk(b, h, false) && b.Live() && ConnFlags(f)
    ensures var b', h' := SocketSlot(b, sock, f), SocketHist(b, h, sock, f);
      && SlotOk(b', h', false) && HistGrows(h, h')
      && (sock != -1 ==> EntryOk(SocketPoll(sock, f, revents), b', h'))
  {
  }

  lemma SocketSetTable(s: State, x: nat, sock: int, f: Flags, stale: Events)
    requires Inv(s) && x < |s.slots| && s.slots[x].Live() && ConnFlags(f)
    ensures var u := SocketSet(s, x, sock, f, stale); Table(u) && Tail(u) && Reports(u)
  {
    var b, h := s.slots[x], s.hist[x];
    var b', h' := SocketSlot(b, sock, f), SocketHist(b, h, sock, f);
    assert SlotOk(b, h, x in s.pending);
    SocketSlotOk(b, h, sock, f, stale);
    EntryOfSlot(s, x);
    if sock == -1 {
      RemoveKeepsTable(s, x, b', h');
    } else if HasEntry(s, x) {
      SocketSlotOk(b, h, sock, f, Entry(s, x).revents);
      var p := SocketPoll(sock, f, Entry(s, x).revents);
      TouchKeepsTable(s, x, b', h', p);
      TouchKeepsReports(s, x, b', h', p);
    } else {
      AddKeepsTable(s, x, b', h', SocketPoll(sock, f, stale));
    }
  }

  lemma SocketSetDescends(s: State, x: nat, sock: int, f: Flags, stale: Events)
    requires x < |s.slots| == |s.hist| && |s.pollfds| >= |s.idxArray|
    ensures Descends(s, SocketSet(s, x, sock, f, stale))
  {
  }

  lemma SocketSetFrame(s: State, x: nat, sock: int, f: Flags, stale: Events)
    requires x < |s.slots| == |s.hist| && |s.pollfds| >= |s.idxArray|
    ensures var t := Put(s, x, SocketSlot(s.slots[x], sock, f), SocketHist(s.slots[x], s.hist[x], sock, f));
      var u := SocketSet(s, x, sock, f, stale);
      && t.slots == u.slots && t.hist == u.hist && t.pending == u.pending && t.depth == u.depth
      && t.calls == u.calls && t.ndeleted == u.ndeleted
  {
  }

  lemma SocketSetKeeps(s: State, x: nat, sock: int, f: Flags, stale: Events)
    requires Inv(s) && x < |s.slots| && s.slots[x].Live() && ConnFlags(f)
    ensures var t := SocketSet(s, x, sock, f, stale); Inv(t) && Evolves(s, t)
  {
    var b, h := s.slots[x], s.hist[x];
    var b', h' := SocketSlot(b, sock, f), SocketHist(b, h, sock, f);
    var t, u := Put(s, x, b', h'), SocketSet(s, x, sock, f, stale);
    assert SlotOk(b, h, x in s.pending);
    SocketSlotOk(b, h, sock, f, stale);
    SocketSetTable(s, x, sock, f, stale);
    SocketSetDescends(s, x, sock, f, stale);
    hide Table, Tail, Reports, SlotOk, Held, HistGrows, SocketSet, Descends;
    PutKeepsSlots(s, x, b', h');
    PutEvolves(s, x, b', h');
    CountPut(s.slots, x, b');
    SocketSetFrame(s, x, sock, f, stale);
    SlotsFrame(t, u);
    EvolvesFrame(s, t, u);
  }

  /** DELETED and AVAIL are the layer's own: with a socket, or during update_all, the tables survive a call exactly if
      neither is among the flags. */
  lemma SetSockFlags(s: State, x: nat, sock: int, f: Flags, stale: Events)
    requires Inv(s) && x < |s.slots| && s.slots[x].Live() && (sock != -1 || s.depth > 0)
    ensures |s.hist| == |s.slots| && |s.pollfds| >= |s.idxArray|
    ensures var t := SocketSet(s, x, sock, f, stale); Inv(t) && Evolves(s, t) <==> ConnFlags(f)
  {
    SlotFacts(s, x);
    var t := SocketSet(s, x, sock, f, stale);
    SocketSetFrame(s, x, sock, f, stale);
    if ConnFlags(f) {
      SocketSetKeeps(s, x, sock, f, stale);
    } else if f.deleted {
      CountPut(s.slots, x, t.slots[x]);
      assert !Counts(t);
    } else if sock != -1 {
      assert !SlotOk(t.slots[x], t.hist[x], x in t.pending);
    } else {
      assert !Held(s, t, x);
    }
  }

  /** What was submitted on the connection is what was sent and then what is waiting. */
  predicate InOrder(b: Slot, h: Hist) { h.submitted == h.sent + b.data }

  /** Every next write stays in order, of which the kernel may take any part, or none while the slot is blocked. */
  ghost predicate WritesInOrder(s: State, x: nat)
    requires x < |s.slots| == |s.hist| && |s.pollfds| >= |s.idxArray|
  {
    forall d: seq<Byte>, n: nat :: n <= |d| && (s.slots[x].flags.block ==> n == 0) ==> WriteInOrder(s, x, d, n)
  }

  ghost predicate WriteInOrder(s: State, x: nat, d: seq<Byte>, n: nat)
    requires x < |s.slots| == |s.hist| && |s.pollfds| >= |s.idxArray| && n <= |d|
  {
    var t := Wrote(s, x, d, n);
    InOrder(t.slots[x], t.hist[x])
  }

  /** After a socket is set while bytes `w` wait, a write of which the kernel takes the first `n` bytes is in order
      exactly if it does not matter whether `w` or they come first. */
  lemma OrderAfterSetSock(b: Slot, h: Hist, sock: int, f: Flags, d: seq<Byte>, n: nat)
    requires InOrder(b, h) && n <= |d|
    ensures var w := b.data;
      InOrder(WroteSlot(SocketSlot(b, sock, f), d, n), WroteHist(SocketHist(b, h, sock, f), d, n))
      <==> w + d[..n] == d[..n] + w
  {
    var w, e, r := b.data, d[..n], d[n..];
    assert d == e + r;
    assert h.sent + w + d == (h.sent + w + e) + r;
    assert h.sent + e + (w + r) == (h.sent + e + w) + r;
    Commute(h.sent, w, e);
    CutRight(h.sent + w + e, h.sent + e + w, r);
  }

  lemma WroteAt(s: State, x: nat, d: seq<Byte>, n: nat)
    requires x < |s.slots| == |s.hist| && |s.pollfds| >= |s.idxArray| && n <= |d|
    ensures WriteInOrder(s, x, d, n) <==> InOrder(WroteSlot(s.slots[x], d, n), WroteHist(s.hist[x], d, n))
  {
  }

  /** sockbuf_set_sock clears BLOCK even when bytes wait: all further writes stay in order exactly if no bytes wait,
      or BLOCK is among the new flags. */
  lemma SetSockKeepsOrder(s: State, x: nat, sock: int, f: Flags, stale: Events)
    requires Inv(s) && x < |s.slots| && s.slots[x].Live() && !s.hist[x].misused && sock != -1
    ensures |s.hist| == |s.slots| && |s.pollfds| >= |s.idxArray|
    ensures var t := SocketSet(s, x, sock, f, stale);
      && x < |t.slots| == |t.hist| && |t.pollfds| >= |t.idxArray|
      && (WritesInOrder(t, x) <==> s.slots[x].data == [] || f.block)
  {
    hide Inv, SlotOk, SocketSet, InOrder, WriteInOrder, WroteSlot, WroteHist, SocketHist;
    SlotFacts(s, x);
    var b, h := s.slots[x], s.hist[x];
    SocketSetAt(s, x, sock, f, stale);
    var w, t := b.data, SocketSet(s, x, sock, f, stale);
    if w == [] || f.block {
      forall d: seq<Byte>, n: nat | n <= |d| && (t.slots[x].flags.block ==> n == 0)
        ensures WriteInOrder(t, x, d, n)
      {
        WroteAt(t, x, d, n);
        OrderAfterSetSock(b, h, sock, f, d, n);
        assert f.block ==> d[..n] == [];
      }
    } else {
      var other: Byte := if w[|w| - 1] == 0 then 1 else 0;
      WroteAt(t, x, [other], 1);
      OrderAfterSetSock(b, h, sock, f, [other], 1);
      assert [other][..1] == [other];
      assert (w + [other])[|w|] == other && ([other] + w)[|w|] == w[|w| - 1];
    }
  }

  lemma SocketSetAt(s: State, x: nat, sock: int, f: Flags, stale: Events)
    requires x < |s.slots| == |s.hist| && |s.pollfds| == |s.idxArray| + s.nlisteners
    requires HasEntry(s, x) <==> s.slots[x].sock != -1
    requires s.slots[x].Live() && !s.hist[x].misused && SlotOk(s.slots[x], s.hist[x], x in s.pending)
    ensures var t := SocketSet(s, x, sock, f, stale);
      && x < |t.slots| == |t.hist| && |t.pollfds| >= |t.idxArray|
      && t.slots[x] == SocketSlot(s.slots[x], sock, f) && t.hist[x] == SocketHist(s.slots[x], s.hist[x], sock, f)
    ensures InOrder(s.slots[x], s.hist[x])
  {
    SocketSetFrame(s, x, sock, f, stale);
  }

  lemma CutRight(a: seq<Byte>, b: seq<Byte>, r: seq<Byte>)
    requires |a| == |b|
    ensures a + r == b + r <==> a == b
  {
    assert (a + r)[..|a|] == a && (b + r)[..|b|] == b;
  }

  lemma Commute(a: seq<Byte>, w: seq<Byte>, d: seq<Byte>)
    ensures a + w + d == a + d + w <==> w + d == d + w
  {
    assert (a + w + d)[|a|..] == w + d && (a + d + w)[|a|..] == d + w;
    assert a + w + d == a + (w + d) && a + d + w == a + (d + w);
  }

  // ----- deletion and reuse -----

  /** Whether an entry suits its slot depends only on the socket, the two write flags and the misuse mark. */
  lemma SameEntriesOk(s: State, t: State)
    requires Table(s) && t.idxArray == s.idxArray && t.pollfds == s.pollfds && |t.hist| == |t.slots| >= |s.slots|
    requires forall k :: 0 <= k < |t.idxArray| ==>
      var b, c := s.slots[t.idxArray[k]], t.slots[t.idxArray[k]];
      && b.sock == c.sock && b.flags.block == c.flags.block && b.flags.connecting == c.flags.connecting
      && t.hist[t.idxArray[k]] == s.hist[t.idxArray[k]]
    ensures forall i :: 0 <= i < |t.idxArray| ==> EntryOk(t.pollfds[i], t.slots[t.idxArray[i]], t.hist[t.idxArray[i]])
  {
    forall i | 0 <= i < |t.idxArray|
      ensures EntryOk(t.pollfds[i], t.slots[t.idxArray[i]], t.hist[t.idxArray[i]])
    {
      assert EntryOk(s.pollfds[i], s.slots[s.idxArray[i]], s.hist[s.idxArray[i]]);
    }
  }

  /** sockbuf_delete before its callbacks: marked, but not yet counted or taken apart. */
  function DeleteBegun(s: State, x: nat): State
    requires x < |s.slots| == |s.hist|
  {
    Put(s, x, s.slots[x].(flags := s.slots[x].flags.(deleted := true)), s.hist[x]).(pending := s.pending + {x})
  }

  lemma DeleteBegunSlots(s: State, x: nat)
    requires Slots(s) && x < |s.slots| && s.slots[x].Live()
    ensures x !in s.pending && Slots(DeleteBegun(s, x))
  {
    var t := DeleteBegun(s, x);
    assert SlotOk(s.slots[x], s.hist[x], x in s.pending);
    forall y | 0 <= y < |t.slots| ensures SlotOk(t.slots[y], t.hist[y], y in t.pending) {
      assert SlotOk(s.slots[y], s.hist[y], y in s.pending);
    }
  }

  lemma DeleteBegunTable(s: State, x: nat)
    requires Table(s) && Tail(s) && Reports(s) && x < |s.slots|
    ensures var t := DeleteBegun(s, x); Table(t) && Tail(t) && Reports(t)
  {
    var t := DeleteBegun(s, x);
    SameEntriesOk(s, t);
    hide EntryOk, Table, Tail, Reports;
    TableKept(s, t);
  }

  lemma DeleteBegunKeeps(s: State, x: nat)
    requires Inv(s) && x < |s.slots| && s.slots[x].Live()
    ensures Inv(DeleteBegun(s, x))
  {
    DeleteBegunSlots(s, x);
    DeleteBegunTable(s, x);
    CountPut(s.slots, x, s.slots[x].(flags := s.slots[x].flags.(deleted := true)));
    hide SlotOk, EntryOk, Slots, Table, Tail, Reports;
  }

  lemma TableFrame(t: State, u: State)
    requires Table(t) && Tail(t) && Reports(t)
    requires t.slots == u.slots && t.hist == u.hist && t.idxArray == u.idxArray && t.pollfds == u.pollfds
    requires t.nlisteners == u.nlisteners && t.listeners == u.listeners
    requires t.past == u.past && t.made == u.made && t.polled == u.polled && t.rounds == u.rounds
    ensures Table(u) && Tail(u) && Reports(u)
  {
  }

  /** sockbuf_delete after its callbacks: the slot wiped, counted, and out of the poll table. */
  function DeleteDone(s: State, x: nat): State
    requires x < |s.slots| == |s.hist| && |s.pollfds| >= |s.idxArray|
  {
    WithoutEntry(Put(s, x, WIPED, s.hist[x]), x).(ndeleted := s.ndeleted + 1, pending := s.pending - {x})
  }

  lemma DeleteDoneSlots(s: State, x: nat)
    requires Slots(s) && x in s.pending && |s.pollfds| >= |s.idxArray|
    ensures x < |s.slots| && s.slots[x].flags.deleted && Slots(DeleteDone(s, x))
  {
    var t := DeleteDone(s, x);
    assert SlotOk(s.slots[x], s.hist[x], true);
    forall y | 0 <= y < |t.slots| ensures SlotOk(t.slots[y], t.hist[y], y in t.pending) {
      assert SlotOk(s.slots[y], s.hist[y], y in s.pending);
    }
  }

  lemma DeleteDoneKeeps(s: State, x: nat)
    requires Inv(s) && x in s.pending
    ensures x < |s.slots| && Inv(DeleteDone(s, x))
  {
    DeleteDoneSlots(s, x);
    CountPut(s.slots, x, WIPED);
    RemoveKeepsTable(s, x, WIPED, s.hist[x]);
    hide SlotOk, EntryOk, Slots;
    TableFrame(WithoutEntry(Put(s, x, WIPED, s.hist[x]), x), DeleteDone(s, x));
  }

  /** The whole of sockbuf_delete, whatever its callbacks did in between. */
  lemma DeleteEvolves(s: State, t: State, x: nat)
    requires Slots(s) && x < |s.slots| && s.slots[x].Live()
    requires Slots(t) && |t.pollfds| >= |t.idxArray|
    requires Evolves(DeleteBegun(s, x), t)
    ensures x in t.pending && Evolves(s, DeleteDone(t, x))
  {
    DeleteBegunSlots(s, x);
    DeleteDoneSlots(t, x);
    var r, u := DeleteBegun(s, x), DeleteDone(t, x);
    DeleteDoneFrame(t, x);
    hide Slots, HistGrows, DeleteDone;
    DescendsTrans(s, t, u);
    hide Descends;
    forall y | 0 <= y < |s.slots| ensures HistGrows(s.hist[y], u.hist[y]) {
      assert HistGrows(r.hist[y], t.hist[y]);
    }
    forall y | 0 <= y < |s.slots| && !s.slots[y].flags.avail && (s.depth > 0 || y in s.pending)
      ensures Held(s, u, y)
    {
      assert Held(r, t, y);
    }
  }

  lemma DeleteEvolvesInv(s: State, t: State, x: nat)
    requires Inv(s) && x < |s.slots| && s.slots[x].Live() && Inv(t)
    requires Evolves(DeleteBegun(s, x), t)
    ensures x < |t.slots| && x in t.pending && t.hist[x].gen == s.hist[x].gen
    ensures Evolves(s, DeleteDone(t, x))
  {
    EvolvesFacts(DeleteBegun(s, x), t, x);
    DeleteEvolves(s, t, x);
  }

  lemma DeleteDoneFrame(t: State, x: nat)
    requires x < |t.slots| == |t.hist| && |t.pollfds| >= |t.idxArray|
    ensures var u := DeleteDone(t, x);
      && u.slots == t.slots[x := WIPED] && u.hist == t.hist && u.pending == t.pending - {x}
      && u.depth == t.depth && u.calls == t.calls && u.ndeleted == t.ndeleted + 1 && Descends(t, u)
  {
    assert t.hist[x := t.hist[x]] == t.hist;
  }

  /** The first AVAIL slot, or the length. */
  function FirstAvail(slots: seq<Slot>): (i: nat)
    ensures i <= |slots| && (i < |slots| ==> slots[i].flags.avail)
    ensures forall j :: 0 <= j < i ==> !slots[j].flags.avail
  {
    if slots == [] || slots[0].flags.avail then 0 else 1 + FirstAvail(slots[1..])
  }

  lemma FirstAvailIs(slots: seq<Slot>, i: nat)
    requires i <= |slots| && (i < |slots| ==> slots[i].flags.avail)
    requires forall j :: 0 <= j < i ==> !slots[j].flags.avail
    ensures FirstAvail(slots) == i
  {
  }

  const NO_HIST := Hist(0, [], [], NO_FLAGS, false)

  /** The slot array five entries longer. */
  function Grown(s: State): State {
    s.(slots := s.slots + seq(5, _ => UNUSED), hist := s.hist + seq(5, _ => NO_HIST))
  }

  /** sockbuf_new, which returns FirstAvail(s.slots). */
  function Opened(s: State): State
    requires |s.hist| == |s.slots|
  {
    var i := FirstAvail(s.slots);
    var t := if i == |s.slots| then Grown(s) else s;
    Put(t, i, OPENED, Hist(t.hist[i].gen + 1, [], [], NO_FLAGS, false))
  }

  lemma {:induction false} CountAppend(a: seq<Slot>, b: seq<Slot>)
    ensures CountDeleted(a + b) == CountDeleted(a) + CountDeleted(b)
  {
    if a == [] {
      assert a + b == b;
    } else {
      assert (a + b)[1..] == a[1..] + b;
      CountAppend(a[1..], b);
    }
  }

  lemma {:induction false} CountNone(a: seq<Slot>)
    requires forall i :: 0 <= i < |a| ==> !a[i].flags.deleted
    ensures CountDeleted(a) == 0
  {
    if a != [] {
      CountNone(a[1..]);
    }
  }

  lemma GrownKeeps(s: State)
    requires Inv(s)
    ensures Inv(Grown(s)) && Evolves(s, Grown(s))
  {
    var t := Grown(s);
    CountAppend(s.slots, seq(5, _ => UNUSED));
    CountNone(seq(5, _ => UNUSED));
    GrownKeepsSlots(s);
    GrownEvolves(s);
    hide SlotOk, EntryOk, Slots, Evolves, Reports;
    TableKept(s, t);
  }

  lemma GrownEvolves(s: State)
    requires |s.hist| == |s.slots|
    ensures Evolves(s, Grown(s))
  {
  }

  lemma GrownKeepsSlots(s: State)
    requires Slots(s)
    ensures Slots(Grown(s))
  {
    var t := Grown(s);
    forall y | 0 <= y < |t.slots| ensures SlotOk(t.slots[y], t.hist[y], y in t.pending) {
      if y < |s.slots| {
        assert SlotOk(s.slots[y], s.hist[y], y in s.pending);
      }
    }
  }

  lemma OpenedFrom(s: State, t: State)
    requires |s.hist| == |s.slots|
    requires t == if FirstAvail(s.slots) == |s.slots| then Grown(s) else s
    ensures var i := FirstAvail(s.slots);
      && i < |t.slots| == |t.hist|
      && Opened(s) == Put(t, i, OPENED, Hist(t.hist[i].gen + 1, [], [], NO_FLAGS, false))
      && Opened(s).nlisteners == s.nlisteners
  {
  }

  lemma GrownLength(s: State)
    ensures var t := Grown(s); |t.slots| == |s.slots| + 5 && |t.hist| == |s.hist| + 5
  {
  }

  lemma HistLength(s: State)
    requires Inv(s)
    ensures |s.hist| == |s.slots| && |s.pollfds| == |s.idxArray| + s.nlisteners
  {
  }

  lemma OpenedKeeps(s: State)
    requires Inv(s)
    ensures var i, t := FirstAvail(s.slots), Opened(s);
      Inv(t) && Evolves(s, t) && i < |t.slots| && t.slots[i] == OPENED
  {
    hide Inv, Evolves;
    assert |s.hist| == |s.slots| by {
      HistLength(s);
    }
    var i := FirstAvail(s.slots);
    GrownKeeps(s);
    if i == |s.slots| {
      assert Grown(s).slots[i] == UNUSED;
      AvailOpens(Grown(s), i);
      EvolvesTrans(s, Grown(s), Opened(s));
    } else {
      AvailOpens(s, i);
    }
  }

  lemma AvailOpens(s: State, i: nat)
    requires Inv(s) && i < |s.slots| && s.slots[i].flags.avail
    ensures var t := Put(s, i, OPENED, Hist(s.hist[i].gen + 1, [], [], NO_FLAGS, false));
      Inv(t) && Evolves(s, t)
  {
    var h := Hist(s.hist[i].gen + 1, [], [], NO_FLAGS, false);
    assert SlotOk(s.slots[i], s.hist[i], i in s.pending);
    assert SlotOk(OPENED, h, i in s.pending) && !s.slots[i].flags.deleted;
    AvailHasNoEntry(s, i, h);
    ReissueEvolves(s, i, h);
    hide SlotOk, EntryOk, Slots, Table, Tail, Reports, Evolves;
    PutKeepsSlots(s, i, OPENED, h);
    CountPut(s.slots, i, OPENED);
  }

  lemma ReissueEvolves(s: State, i: nat, h: Hist)
    requires i < |s.slots| == |s.hist| && s.slots[i].flags.avail && h.gen > s.hist[i].gen
    ensures Evolves(s, Put(s, i, OPENED, h))
  {
  }

  lemma AvailHasNoEntry(s: State, i: nat, h: Hist)
    requires Table(s) && Tail(s) && Reports(s) && i < |s.slots| && s.slots[i].sock == -1
    ensures var t := Put(s, i, OPENED, h); Table(t) && Tail(t) && Reports(t)
  {
    var t := Put(s, i, OPENED, h);
    forall k | 0 <= k < |t.idxArray|
      ensures s.idxArray[k] < |s.slots| && s.idxArray[k] != i
      ensures t.slots[s.idxArray[k]] == s.slots[s.idxArray[k]] && t.hist[s.idxArray[k]] == s.hist[s.idxArray[k]]
    {
    }
    hide EntryOk, Table, Tail, Reports;
    SameEntriesOk(s, t);
    TableKept(s, t);
  }

  // ----- the event loop -----

  /** poll() returned: the entries' revents replaced (the listeners lie beyond the length it was given). */
  function Polled(s: State, evs: seq<Events>): State
    requires |evs| == |s.idxArray| <= |s.pollfds|
    requires forall i :: 0 <= i < |s.idxArray| ==> s.idxArray[i] < |s.hist|
  {
    s.(pollfds := seq(|s.pollfds|, i requires 0 <= i < |s.pollfds| =>
                      if i < |evs| then s.pollfds[i].(revents := evs[i]) else s.pollfds[i]),
       past := map x | x in s.past && HasEntry(s, x) ::
                 s.past[x].(report := Some(Report(s.rounds + 1, s.hist[x].gen, Entry(s, x).fd,
                                                  evs[Pos(s.idxArray, x)]))),
       polled := s.made, rounds := s.rounds + 1)
  }

  lemma PolledKeeps(s: State, evs: seq<Events>)
    requires Inv(s) && |evs| == |s.idxArray|
    ensures var t := Polled(s, evs); Inv(t) && Evolves(s, t)
  {
    hide Slots, EntryOk, Polled, Pos, Reports;
    PolledEntries(s, evs);
    PolledReports(s, evs);
    var t := Polled(s, evs);
    SlotsFrame(s, t);
    forall i | 0 <= i < |t.idxArray|
      ensures EntryOk(t.pollfds[i], t.slots[t.idxArray[i]], t.hist[t.idxArray[i]])
    {
      assert EntryOk(s.pollfds[i], s.slots[s.idxArray[i]], s.hist[s.idxArray[i]]);
      SameEntryOk(s.pollfds[i], t.pollfds[i], s.slots[s.idxArray[i]], s.hist[s.idxArray[i]]);
    }
    assert Table(t) && Tail(t);
  }

  lemma PolledEntries(s: State, evs: seq<Events>)
    requires Table(s) && |evs| == |s.idxArray|
    ensures var t := Polled(s, evs);
      && t == s.(pollfds := t.pollfds, past := t.past, polled := s.made, rounds := s.rounds + 1)
      && |t.pollfds| == |s.pollfds|
      && (forall i :: 0 <= i < |evs| ==> t.pollfds[i] == s.pollfds[i].(revents := evs[i]))
      && (forall i :: |evs| <= i < |s.pollfds| ==> t.pollfds[i] == s.pollfds[i])
  {
    hide EntryOk, Pos;
  }

  /** What poll says about an entry is on record for its slot, connection and descriptor. */
  lemma PolledReport(s: State, evs: seq<Events>, i: nat)
    requires Table(s) && Reports(s) && i < |evs| == |s.idxArray|
    ensures var x, t := s.idxArray[i], Polled(s, evs);
      && x in s.past && x in t.past && t.pollfds[i] == PollFd(s.slots[x].sock, s.pollfds[i].events, evs[i])
      && t.past[x] == s.past[x].(report := Some(Report(s.rounds + 1, s.hist[x].gen, s.slots[x].sock, evs[i])))
  {
    hide PastOk, Pos, EntryOk, Ordered;
    PosIs(s.idxArray, s.idxArray[i], i);
    EntryDescriptor(s, i);
  }

  lemma EntryDescriptor(s: State, i: nat)
    requires Table(s) && i < |s.idxArray|
    ensures s.idxArray[i] < |s.slots| && s.pollfds[i].fd == s.slots[s.idxArray[i]].sock
  {
    assert EntryOk(s.pollfds[i], s.slots[s.idxArray[i]], s.hist[s.idxArray[i]]);
  }

  lemma PolledReports(s: State, evs: seq<Events>)
    requires Table(s) && Reports(s) && |evs| == |s.idxArray|
    ensures Reports(Polled(s, evs)) && Descends(s, Polled(s, evs))
  {
    hide EntryOk, Polled, Pos;
    PolledEntries(s, evs);
    var t := Polled(s, evs);
    forall i | 0 <= i < |t.idxArray|
      ensures t.idxArray[i] in t.past && t.past[t.idxArray[i]].serial == s.past[t.idxArray[i]].serial
      ensures ReportAt(t, i)
    {
      PolledReport(s, evs, i);
      assert ReportAt(s, i);
    }
    PolledDomain(s, evs);
    OrderedSame(s.idxArray, s.past, t.past);
  }

  lemma PolledDomain(s: State, evs: seq<Events>)
    requires Table(s) && Reports(s) && |evs| == |s.idxArray|
    ensures forall x :: x in Polled(s, evs).past ==> x in s.past && x in s.idxArray
  {
    hide EntryOk, PastOk;
  }

  lemma SameEntryOk(p: PollFd, q: PollFd, b: Slot, h: Hist)
    requires EntryOk(p, b, h) && p.fd == q.fd && p.events == q.events
    ensures EntryOk(q, b, h)
  {
  }

  /** The sweep at the end of the outermost update_all: the first `k` DELETED slots become AVAIL. */
  function Sweep(slots: seq<Slot>, k: nat): seq<Slot> {
    if slots == [] || k == 0 then slots
    else if slots[0].flags.deleted then
      [slots[0].(flags := NO_FLAGS.(avail := true))] + Sweep(slots[1..], k - 1)
    else [slots[0]] + Sweep(slots[1..], k)
  }

  /** It stops early, and leaves no DELETED slot exactly when the counter was not too small. */
  lemma {:induction false} SweepCount(slots: seq<Slot>, k: nat)
    ensures var n := CountDeleted(slots);
      CountDeleted(Sweep(slots, k)) == if n <= k then 0 else n - k
    decreases slots
  {
    if slots != [] && k > 0 {
      SweepCount(slots[1..], if slots[0].flags.deleted then k - 1 else k);
      var r := Sweep(slots, k);
      assert r[1..] == Sweep(slots[1..], if slots[0].flags.deleted then k - 1 else k);
    } else if k == 0 {
      CountNonnegative(slots);
    }
  }

  /** One turn of the sweep's loop, at slot `i`. */
  lemma SweepStep(slots: seq<Slot>, i: nat, k: nat)
    requires i < |slots| && k > 0
    ensures var dead := slots[i].flags.deleted;
      var t := if dead then slots[i := slots[i].(flags := NO_FLAGS.(avail := true))] else slots;
      slots[..i] + Sweep(slots[i..], k) == t[..i + 1] + Sweep(t[i + 1..], if dead then k - 1 else k)
      && CountDeleted(slots[i..]) == (if dead then 1 else 0) + CountDeleted(t[i + 1..])
  {
    var dead := slots[i].flags.deleted;
    var t := if dead then slots[i := slots[i].(flags := NO_FLAGS.(avail := true))] else slots;
    assert slots[i..][1..] == slots[i + 1..] == t[i + 1..];
    assert t[..i + 1] == slots[..i] + [t[i]];
  }

  /** With a counter not too large, the loop ends with the counter used up. */
  lemma SweepOut(slots: seq<Slot>, k: nat)
    requires k == 0 || slots == []
    requires CountDeleted(slots) >= k
    ensures k == 0 && Sweep(slots, k) == slots
  {
  }

  lemma CountNonnegative(slots: seq<Slot>)
    ensures CountDeleted(slots) >= 0
  {
  }

  /** A DELETED slot is freed exactly when the counter lasts that far; every other slot stays. */
  lemma {:induction false} SweepAt(slots: seq<Slot>, k: nat, x: nat)
    requires x < |slots|
    ensures |Sweep(slots, k)| == |slots|
    ensures Sweep(slots, k)[x] ==
      if slots[x].flags.deleted && CountDeleted(slots[..x]) < k then slots[x].(flags := NO_FLAGS.(avail := true))
      else slots[x]
    decreases slots
  {
    if k > 0 {
      var k' := if slots[0].flags.deleted then k - 1 else k;
      if x > 0 {
        assert slots[..x][1..] == slots[1..][..x - 1];
        SweepAt(slots[1..], k', x - 1);
      } else {
        SweepLength(slots[1..], k');
      }
    }
  }

  lemma SweepLength(slots: seq<Slot>, k: nat)
    ensures |Sweep(slots, k)| == |slots|
    decreases slots
  {
  }

  lemma {:induction false} DeletedBefore(slots: seq<Slot>, x: nat)
    requires x < |slots| && slots[x].flags.deleted
    ensures CountDeleted(slots[..x]) < CountDeleted(slots)
  {
    if x > 0 {
      assert slots[..x][1..] == slots[1..][..x - 1];
      DeletedBefore(slots[1..], x - 1);
    } else {
      assert slots[..0] == [];
      CountNonnegative(slots[1..]);
    }
  }

  lemma {:induction false} NoneDeleted(slots: seq<Slot>, x: nat)
    requires CountDeleted(slots) == 0 && x < |slots|
    ensures !slots[x].flags.deleted
  {
    if x > 0 {
      NoneDeleted(slots[1..], x - 1);
    }
  }

  /** What the outermost update_all does last. */
  function Swept(s: State): State { s.(slots := Sweep(s.slots, s.ndeleted), ndeleted := 0) }

  /** Every slot whose deletion is still under way has as many DELETED slots before it as the counter counts. */
  ghost predicate SweepSafe(s: State) {
    forall x :: x in s.pending ==> x < |s.slots| && CountDeleted(s.slots[..x]) >= s.ndeleted
  }

  lemma SweptSlot(s: State, x: nat)
    requires Inv(s) && x < |s.slots|
    ensures |Swept(s).slots| == |s.slots|
    ensures Swept(s).slots[x] ==
      if s.slots[x].flags.deleted && CountDeleted(s.slots[..x]) < s.ndeleted then
        s.slots[x].(flags := NO_FLAGS.(avail := true))
      else s.slots[x]
    ensures x !in s.pending && s.slots[x].flags.deleted ==> s.slots[x] == WIPED
    ensures s.slots[x].flags.deleted && s.pending == {} ==> CountDeleted(s.slots[..x]) < s.ndeleted
  {
    SweepAt(s.slots, s.ndeleted, x);
    SlotFacts(s, x);
    if s.slots[x].flags.deleted {
      DeletedBefore(s.slots, x);
    }
  }

  /** The sweep leaves as many slots DELETED as deletions are still under way: none exactly if there are none. */
  lemma SweepLeaves(s: State)
    requires Inv(s)
    ensures CountDeleted(Swept(s).slots) == |s.pending|
    ensures CountDeleted(Swept(s).slots) == 0 <==> s.pending == {}
  {
    SweepCount(s.slots, s.ndeleted);
  }

  /** But they are the right ones, and the tables survive, exactly if the sweep stops before all deletions that are
      still under way: otherwise it frees one of them and leaves a counted slot DELETED for ever. */
  lemma SweepKeepsIff(s: State)
    requires Inv(s) && s.depth == 0
    ensures Inv(Swept(s)) <==> SweepSafe(s)
    ensures SweepSafe(s) ==> Evolves(s, Swept(s))
  {
    if SweepSafe(s) {
      SweepSafeKeeps(s);
    } else {
      var x :| x in s.pending && CountDeleted(s.slots[..x]) < s.ndeleted;
      SweptSlot(s, x);
      SlotFacts(s, x);
      assert !SlotOk(Swept(s).slots[x], Swept(s).hist[x], x in Swept(s).pending);
    }
  }

  lemma SweptAt(s: State, x: nat)
    requires Inv(s) && SweepSafe(s) && x < |s.slots|
    ensures var t := Swept(s);
      && |t.slots| == |s.slots| == |s.hist| && SlotOk(t.slots[x], s.hist[x], x in s.pending)
      && t.slots[x].sock == s.slots[x].sock
      && (t.slots[x] == s.slots[x] || (x !in s.pending && s.slots[x] == WIPED && t.slots[x] == UNUSED))
  {
    SweptSlot(s, x);
    SlotFacts(s, x);
  }

  lemma SweepSafeKeeps(s: State)
    requires Inv(s) && s.depth == 0 && SweepSafe(s)
    ensures Inv(Swept(s)) && Evolves(s, Swept(s))
  {
    hide SlotOk, EntryOk, Sweep, CountDeleted, SweepSafe;
    var t := Swept(s);
    SweepLeaves(s);
    SweepLength(s.slots, s.ndeleted);
    forall x | 0 <= x < |s.slots|
      ensures SlotOk(t.slots[x], t.hist[x], x in t.pending) && t.slots[x].sock == s.slots[x].sock
      ensures t.slots[x] == s.slots[x] || (x !in s.pending && s.slots[x] == WIPED && t.slots[x] == UNUSED)
    {
      SweptAt(s, x);
    }
    forall i | 0 <= i < |t.idxArray| ensures EntryOk(t.pollfds[i], t.slots[t.idxArray[i]], t.hist[t.idxArray[i]]) {
      EntryFacts(s, i);
      assert EntryOk(s.pollfds[i], s.slots[s.idxArray[i]], s.hist[s.idxArray[i]]);
    }
    SweptEvolves(s, t);
    hide Slots, Table, Tail, Reports;
    TableKept(s, t);
  }

  lemma SweptEvolves(s: State, t: State)
    requires Slots(s) && s.depth == 0 && t == s.(slots := t.slots, ndeleted := t.ndeleted) && |t.slots| == |s.slots|
    requires forall x :: 0 <= x < |s.slots| && x in s.pending ==> t.slots[x] == s.slots[x]
    ensures Evolves(s, t)
  {
    forall x | 0 <= x < |s.slots| && x in s.pending ensures Held(s, t, x) {
      assert SlotOk(s.slots[x], s.hist[x], true);
    }
  }

  /** With no deletion under way the sweep frees exactly the DELETED slots. */
  lemma SweepKeeps(s: State)
    requires Inv(s) && s.depth == 0 && s.pending == {}
    ensures var t := Swept(s);
      && Inv(t) && Evolves(s, t) && |t.slots| == |s.slots| && CountDeleted(t.slots) == 0
      && forall x :: 0 <= x < |s.slots| ==> t.slots[x] == if s.slots[x].flags.deleted then UNUSED else s.slots[x]
  {
    SweepSafeKeeps(s);
    SweepLeaves(s);
    SweepLength(s.slots, s.ndeleted);
    forall x | 0 <= x < |s.slots|
      ensures Swept(s).slots[x] == if s.slots[x].flags.deleted then UNUSED else s.slots[x]
    {
      SweptSlot(s, x);
    }
  }

  const NOTIFIED := Handler(1, {Delete})
  const DYING := OPENED.(flags := NO_FLAGS.(block := true, deleted := true), handler := NOTIFIED)

  /** Inside slot 0's on_delete callback, outside every update_all; slot 1 is deleted and counted. */
  function MidDeletion(): State {
    INITIAL.(slots := [DYING, WIPED, UNUSED, UNUSED, UNUSED],
             hist := [Hist(1, [], [], NO_FLAGS, false), Hist(1, [], [], NO_FLAGS, false), NO_HIST, NO_HIST, NO_HIST],
             pending := {0}, ndeleted := 1, calls := [Call(0, 1, UserCallback(NOTIFIED, 0), Delete)])
  }

  lemma CountMidDeletion()
    ensures CountDeleted(MidDeletion().slots) == 2
    ensures CountDeleted(MidDeletion().slots[..0]) == 0 && CountDeleted(MidDeletion().slots[..1]) == 1
  {
    var rest := [UNUSED, UNUSED, UNUSED];
    CountNone(rest);
    assert MidDeletion().slots[1..] == [WIPED] + rest && ([WIPED] + rest)[1..] == rest;
    assert MidDeletion().slots[..1] == [DYING] && [DYING][1..] == [] && MidDeletion().slots[..0] == [];
  }

  lemma MidDeletionInv()
    ensures Inv(MidDeletion())
  {
    hide CountDeleted;
    var s := MidDeletion();
    CountMidDeletion();
    forall x | 0 <= x < |s.slots| ensures SlotOk(s.slots[x], s.hist[x], x in s.pending) {
      assert x == 0 || x == 1 || x == 2 || x == 3 || x == 4;
    }
    assert Slots(s) && Table(s) && Tail(s) && Reports(s) && Counts(s);
  }

  /** The failing case: here the callback calls update_all. Slot 0 is freed in the middle of its deletion, and slot 1
      stays DELETED with nothing to count it. */
  lemma SweepFreesTheWrongSlot()
    ensures var s := MidDeletion(); Inv(s) && s.depth == 0 && s.pending == {0} && !SweepSafe(s)
    ensures var t := Swept(MidDeletion());
      |t.slots| == 5 && t.slots[0].flags.avail && t.slots[1] == WIPED && t.ndeleted == 0 && !Inv(t)
  {
    hide Inv, CountDeleted, Sweep;
    MidDeletionInv();
    CountMidDeletion();
    SweptSlot(MidDeletion(), 0);
    SweptSlot(MidDeletion(), 1);
    assert 0 in MidDeletion().pending;
    SweepKeepsIff(MidDeletion());
  }

  /** More generally: once another deletion was counted, the first slot is freed in the middle of its own. */
  lemma FirstSlotIsFreed(s: State)
    requires Inv(s) && s.depth == 0 && 0 in s.pending && s.ndeleted > 0
    ensures !SweepSafe(s) && |Swept(s).slots| == |s.slots| > 0 && Swept(s).slots[0].flags.avail
  {
    assert s.slots[..0] == [];
    SlotFacts(s, 0);
    SweptSlot(s, 0);
  }

  lemma SecondIsCounted(s: State)
    requires Inv(s) && s.pending == {0} && |s.slots| > 1 && s.slots[1].flags.deleted
    ensures s.ndeleted > 0
  {
    assert 0 in s.pending;
    SlotFacts(s, 0);
    assert s.slots[1..][0] == s.slots[1];
    CountNonnegative(s.slots[1..][1..]);
    assert |s.pending| == 1 && CountDeleted(s.slots) >= 2;
  }

  // ----- who is called -----

  /** The callback an event reaches: the first filter beyond `level` that has one, else the user's handler. */
  function RecipientOf(b: Slot, tested: EventKind, kind: EventKind, level: int): Option<Recipient>
    requires |b.filters| == |b.filterData|
  {
    var i := NextUp(b.filters, tested, level);
    if i < |b.filters| then Some(FilterCallback(b.filters[i], b.filterData[i]))
    else if kind in b.handler.hears then Some(UserCallback(b.handler, b.userData))
    else None
  }

  // ----- what a step comes to, callbacks included -----

  /** Bytes read that meet no filter are counted as handed to the user. */
  function Handed(s: State, x: nat, tested: EventKind, kind: EventKind, level: int, len: nat): State
    requires x < |s.slots| == |s.hist|
  {
    var b := s.slots[x];
    if kind == Read && NextUp(b.filters, tested, level) == |b.filters| then
      Put(s, x, b.(bytesIn := b.bytesIn + len), s.hist[x])
    else s
  }

  ghost predicate FirstCall(s: State, t: State, c: Call) {
    |t.calls| > |s.calls| && t.calls[|s.calls|] == c
  }

  /** From `s` on, the event was announced to its recipient, before anything else was, and `t` is what the callbacks
      made of it; without a recipient nothing more happened. */
  ghost predicate Announced(s: State, t: State, x: nat, tested: EventKind, kind: EventKind, level: int, len: nat) {
    && x < |s.slots| == |s.hist| && |s.slots[x].filters| == |s.slots[x].filterData|
    && var h := Handed(s, x, tested, kind, level, len);
    && Evolves(h, t)
    && match RecipientOf(s.slots[x], tested, kind, level)
       case Some(who) => FirstCall(s, t, Call(x, s.hist[x].gen, who, kind))
       case None => t == h
  }

  lemma AnnouncedBy(s: State, h: State, t: State, x: nat, tested: EventKind, kind: EventKind, level: int, len: nat)
    requires x < |s.slots| == |s.hist| && |s.slots[x].filters| == |s.slots[x].filterData|
    requires h == Handed(s, x, tested, kind, level, len) && Evolves(h, t)
    requires match RecipientOf(s.slots[x], tested, kind, level)
      case Some(who) => FirstCall(s, t, Call(x, s.hist[x].gen, who, kind))
      case None => t == h
    ensures Announced(s, t, x, tested, kind, level, len)
  {
  }

  /** On a wiped slot nobody is there to be told. */
  lemma WipedHearsNothing(s: State, t: State, x: nat, kind: EventKind, level: int)
    requires x < |s.slots| && s.slots[x] == WIPED && kind != Read
    ensures Announced(s, t, x, kind, kind, level, 0) ==> t == s
  {
  }

  /** Among the calls made since `from`, one told filter `f` of the end of the connection. */
  ghost predicate FilterTold(calls: seq<Call>, from: nat, x: nat, gen: nat, f: Filter) {
    exists k :: from <= k < |calls| && calls[k].idx == x && calls[k].gen == gen && calls[k].kind == Delete
      && calls[k].who.FilterCallback? && calls[k].who.filter == f
  }

  ghost predicate HandlerTold(calls: seq<Call>, from: nat, x: nat, gen: nat, h: Handler) {
    exists k :: from <= k < |calls| && calls[k].idx == x && calls[k].gen == gen && calls[k].kind == Delete
      && calls[k].who.UserCallback? && calls[k].who.handler == h
  }

  /** The first `n` filters with an on_delete callback were told, and so was the user's handler, if `user`. */
  ghost predicate AllTold(s: State, t: State, x: nat, n: nat, user: bool) {
    && x < |s.slots| == |s.hist| && n <= |s.slots[x].filters|
    && (forall j :: 0 <= j < n && Delete in s.slots[x].filters[j].hears ==>
         FilterTold(t.calls, |s.calls|, x, s.hist[x].gen, s.slots[x].filters[j]))
    && (user && Delete in s.slots[x].handler.hears ==>
         HandlerTold(t.calls, |s.calls|, x, s.hist[x].gen, s.slots[x].handler))
  }

  lemma ToldStays(s: State, t: State, u: State, x: nat, n: nat, user: bool)
    requires AllTold(s, t, x, n, user) && t.calls <= u.calls
    ensures AllTold(s, u, x, n, user)
  {
    forall j | 0 <= j < n && Delete in s.slots[x].filters[j].hears
      ensures FilterTold(u.calls, |s.calls|, x, s.hist[x].gen, s.slots[x].filters[j])
    {
      var k :| |s.calls| <= k < |t.calls| && t.calls[k].idx == x && t.calls[k].gen == s.hist[x].gen
        && t.calls[k].kind == Delete && t.calls[k].who.FilterCallback?
        && t.calls[k].who.filter == s.slots[x].filters[j];
      assert u.calls[k] == t.calls[k];
    }
    if user && Delete in s.slots[x].handler.hears {
      var k :| |s.calls| <= k < |t.calls| && t.calls[k].idx == x && t.calls[k].gen == s.hist[x].gen
        && t.calls[k].kind == Delete && t.calls[k].who.UserCallback? && t.calls[k].who.handler == s.slots[x].handler;
      assert u.calls[k] == t.calls[k];
    }
  }

  /** One more on_delete callback, the `k`-th call. */
  lemma ToldOne(s: State, t: State, u: State, x: nat, n: nat, c: Call)
    requires AllTold(s, t, x, n, false) && |s.calls| <= |t.calls| && t.calls <= u.calls
    requires FirstCall(t, u, c) && c.idx == x && c.gen == s.hist[x].gen && c.kind == Delete
    ensures n < |s.slots[x].filters| && c.who.FilterCallback? && c.who.filter == s.slots[x].filters[n] ==>
      AllTold(s, u, x, n + 1, false)
    ensures c.who.UserCallback? && c.who.handler == s.slots[x].handler ==> AllTold(s, u, x, n, true)
  {
    ToldStays(s, t, u, x, n, false);
    var k := |t.calls|;
    assert u.calls[k] == c;
    if n < |s.slots[x].filters| && c.who.FilterCallback? && c.who.filter == s.slots[x].filters[n] {
      assert FilterTold(u.calls, |s.calls|, x, s.hist[x].gen, c.who.filter);
    }
    if c.who.UserCallback? && c.who.handler == s.slots[x].handler {
      assert HandlerTold(u.calls, |s.calls|, x, s.hist[x].gen, c.who.handler);
    }
  }

  /** Who was told of a deletion is counted from its beginning to its end. */
  lemma ToldOfWiped(s: State, t: State, x: nat)
    requires x < |s.slots| == |s.hist| && x < |t.slots| == |t.hist| && |t.pollfds| >= |t.idxArray|
    requires AllTold(DeleteBegun(s, x), t, x, |s.slots[x].filters|, true)
    ensures AllTold(s, DeleteDone(t, x), x, |s.slots[x].filters|, true)
  {
    hide FilterTold, HandlerTold;
  }

  /** sockbuf_close. */
  function Closed(s: State, x: nat): State
    requires x < |s.slots| == |s.hist| && |s.pollfds| >= |s.idxArray|
  {
    if s.slots[x].Live() && s.slots[x].sock >= 0 then SocketSet(s, x, -1, NO_FLAGS, NO_EVENTS) else s
  }

  lemma ClosedFrame(s: State, x: nat)
    requires x < |s.slots| == |s.hist| && |s.pollfds| >= |s.idxArray|
    ensures var t := Closed(s, x);
      && |t.slots| == |s.slots| && t.slots[x].flags.avail == s.slots[x].flags.avail
      && (!s.slots[x].Live() ==> t == s)
  {
    SocketSetFrame(s, x, -1, NO_FLAGS, NO_EVENTS);
  }

  /** The connection ended: closed first, announced then. */
  ghost predicate Ended(s: State, t: State, x: nat) {
    && x < |s.slots| == |s.hist| && |s.pollfds| >= |s.idxArray|
    && Announced(Closed(s, x), t, x, Eof, Eof, LEVEL_INTERNAL, 0)
  }

  /** A write from `level`, with result `r`: to the next filter below, or else to the socket. */
  ghost predicate Sent(s: State, t: State, x: nat, level: int, d: seq<Byte>, r: int) {
    && x < |s.slots| == |s.hist| && |s.pollfds| >= |s.idxArray| && |s.slots[x].filters| == |s.slots[x].filterData|
    && var b := s.slots[x];
    && var i := NextDown(b.filters, level);
    && if i > 0 then
         Evolves(s, t)
         && FirstCall(s, t, Call(x, s.hist[x].gen, FilterCallback(b.filters[i - 1], b.filterData[i - 1]), Write))
       else if r >= 0 then r <= |d| && t == Wrote(s, x, d, r)
       else Ended(s, t, x)
  }

  /** POLLOUT on a connected socket, `n` being what the kernel said to the write; what happened is announced in `m`. */
  ghost predicate WritableStep(s: State, m: State, t: State, x: nat, n: int) {
    && x < |s.slots| == |s.hist| && |s.pollfds| >= |s.idxArray| && n <= |s.slots[x].data|
    && if n > 0 then m == Drained(s, x, n) && Announced(m, t, x, Written, Written, LEVEL_INTERNAL, 0)
       else if n == 0 then t == m == s
       else Ended(s, t, x)
  }

  /** POLLOUT on a connecting socket. */
  ghost predicate ClientStep(s: State, m: State, t: State, x: nat, err: bool) {
    && x < |s.slots| == |s.hist| && |s.pollfds| >= |s.idxArray|
    && if err then Ended(s, t, x)
       else m == Connected(s, x) && Announced(m, t, x, Connect, Connect, LEVEL_INTERNAL, 0)
  }

  /** POLLIN on a connection, `n` being what the kernel said to the read. */
  ghost predicate ReadableStep(s: State, m: State, t: State, x: nat, n: int) {
    && x < |s.slots| == |s.hist|
    && if n > 0 then m == Received(s, x, n) && Announced(m, t, x, Read, Read, LEVEL_INTERNAL, n)
       else Ended(s, t, x)
  }

  /** The first free slot, or the first of five new ones, with an accepted connection in it. */
  function Accepted(s: State, sock: int, stale: Events): State
    requires |s.slots| == |s.hist| && |s.pollfds| >= |s.idxArray|
  {
    SocketSet(Opened(s), FirstAvail(s.slots), sock, NO_FLAGS.(inbound := true), stale)
  }

  /** POLLIN on a server, `sock` being what accept returned. */
  ghost predicate ServerStep(s: State, m: State, t: State, x: nat, sock: int, stale: Events) {
    && x < |s.slots| == |s.hist| && |s.pollfds| >= |s.idxArray|
    && (s.nlisteners > 0 ==> stale == NO_EVENTS)
    && if sock < 0 then t == m == s
       else m == Accepted(s, sock, stale) && Announced(m, t, x, Connect, NewClient, LEVEL_INTERNAL, 0)
  }

  /** The POLLOUT branch of the event loop, for some answer of the kernel. */
  ghost predicate PolloutStep(s: State, t: State, x: nat, reported: bool, connecting: bool) {
    if !reported then t == s
    else if connecting then exists m, err :: ClientStep(s, m, t, x, err)
    else exists m, n :: WritableStep(s, m, t, x, n)
  }

  /** The POLLIN branch, likewise. */
  ghost predicate PollinStep(s: State, t: State, x: nat, reported: bool, server: bool) {
    if !reported then t == s
    else if server then exists m, sock, stale :: ServerStep(s, m, t, x, sock, stale)
    else exists m, n :: ReadableStep(s, m, t, x, n)
  }

  /** raw_bytes_in counts what was read. */
  function Received(s: State, x: nat, n: nat): State
    requires x < |s.slots| == |s.hist|
  {
    Put(s, x, s.slots[x].(rawIn := s.slots[x].rawIn + n), s.hist[x])
  }

  /** bytes_out counts what the user wrote. */
  function Given(s: State, x: nat, n: nat): State
    requires x < |s.slots| == |s.hist|
  {
    Put(s, x, s.slots[x].(bytesOut := s.slots[x].bytesOut + n), s.hist[x])
  }

  lemma InitialInv()
    ensures Inv(INITIAL)
  {
  }

  lemma CalledEvolves(s: State, c: Call)
    requires Inv(s)
    ensures Inv(s.(calls := s.calls + [c])) && Evolves(s, s.(calls := s.calls + [c]))
  {
    var t := s.(calls := s.calls + [c]);
    SlotsFrame(s, t);
    TableFrame(s, t);
  }

  lemma EvolvesSelf(s: State)
    requires |s.hist| == |s.slots|
    ensures Evolves(s, s)
  {
  }

  lemma ListenersKeep(s: State, t: State)
    requires Inv(s) && Tail(t)
    requires t == s.(pollfds := t.pollfds, nlisteners := t.nlisteners, listeners := t.listeners)
    requires forall i :: 0 <= i < |s.idxArray| ==> t.pollfds[i] == s.pollfds[i]
    ensures Inv(t) && Evolves(s, t)
  {
    SlotsFrame(s, t);
    hide Slots, EntryOk, PastOk, Ordered;
    forall i | 0 <= i < |t.idxArray|
      ensures EntryOk(t.pollfds[i], t.slots[t.idxArray[i]], t.hist[t.idxArray[i]]) && ReportAt(t, i)
    {
      assert EntryOk(s.pollfds[i], s.slots[s.idxArray[i]], s.hist[s.idxArray[i]]) && ReportAt(s, i);
    }
    assert Table(t) && Reports(t);
  }

  /** The state without its `i`-th listener. */
  function WithoutListener(s: State, i: nat): State
    requires i < s.nlisteners == |s.listeners| && |s.pollfds| == |s.idxArray| + s.nlisteners
  {
    s.(pollfds := RemoveAt(s.pollfds, |s.idxArray| + i), nlisteners := s.nlisteners - 1,
       listeners := RemoveAt(s.listeners, i))
  }

  lemma WithoutListenerKeeps(s: State, i: nat)
    requires Inv(s) && i < s.nlisteners
    ensures var t := WithoutListener(s, i); Inv(t) && Evolves(s, t)
  {
    var t := WithoutListener(s, i);
    forall j | 0 <= j < t.nlisteners ensures t.pollfds[|t.idxArray| + j] == ListenerFd(t.listeners[j]) {
      assert t.pollfds[|t.idxArray| + j] == s.pollfds[|s.idxArray| + if j < i then j else j + 1];
    }
    hide Slots, Table, Reports;
    ListenersKeep(s, t);
  }

  function CountActive(evs: seq<Events>): nat {
    if evs == [] then 0
    else CountActive(evs[..|evs| - 1]) + if evs[|evs| - 1] != NO_EVENTS then 1 else 0
  }

  /** A slot no event can reach any more: no socket, no filters, and the idle handler. */
  ghost predicate Wiped(s: State, x: nat)
    requires x < |s.slots|
  {
    s.slots[x].flags.deleted && x !in s.pending
  }

  /** What callers may rely on about a slot they hold an index to. */
  lemma SlotFacts(s: State, x: nat)
    requires Inv(s) && x < |s.slots|
    ensures |s.hist| == |s.slots| && |s.pollfds| == |s.idxArray| + s.nlisteners
    ensures SlotOk(s.slots[x], s.hist[x], x in s.pending)
    ensures HasEntry(s, x) <==> s.slots[x].sock != -1
    ensures Wiped(s, x) ==> s.slots[x] == WIPED
    ensures s.slots[x].flags.avail ==> s.slots[x].sock == -1
  {
    EntryOfSlot(s, x);
  }

  lemma FiltersPaired(s: State, x: nat)
    requires Inv(s) && x < |s.slots|
    ensures |s.slots[x].filters| == |s.slots[x].filterData|
    ensures x in s.pending ==> s.slots[x].flags.deleted && !s.slots[x].flags.avail
  {
    SlotFacts(s, x);
  }

  lemma EvolvesFacts(s: State, t: State, x: nat)
    requires Evolves(s, t) && x < |s.slots|
    ensures x < |t.slots| == |t.hist| && |s.hist| == |s.slots|
    ensures t.depth == s.depth && t.pending == s.pending && s.calls <= t.calls
    ensures !s.slots[x].flags.avail && (s.depth > 0 || x in s.pending) ==> Held(s, t, x)
  {
  }

  lemma DrainedInSteps(s: State, x: nat, n: nat)
    requires x < |s.slots| == |s.hist| && |s.pollfds| >= |s.idxArray| && n <= |s.slots[x].data|
    ensures var c := Counted(s, x, s.slots[x].data[..n]);
      var t := c.(slots := c.slots[x := c.slots[x].(data := s.slots[x].data[n..])]);
      Drained(s, x, n) == if n == |s.slots[x].data| then Blocked(t, x, false) else t
  {
    var c := Counted(s, x, s.slots[x].data[..n]);
    var t := c.(slots := c.slots[x := c.slots[x].(data := s.slots[x].data[n..])]);
    var u := if n == |s.slots[x].data| then Blocked(t, x, false) else t;
    assert u.slots == s.slots[x := u.slots[x]] && u.hist == s.hist[x := u.hist[x]];
  }

  lemma LeftByListener(s: State)
    requires Inv(s) && s.nlisteners > 0
    ensures |s.pollfds| > |s.idxArray| && s.pollfds[|s.idxArray|].revents == NO_EVENTS
  {
    assert s.pollfds[|s.idxArray| + 0] == ListenerFd(s.listeners[0]);
  }

  /** Accepting a connection does not touch the slot it was accepted for. */
  lemma AcceptLeaves(s: State, newsock: int, stale: Events, x: nat)
    requires Inv(s) && x < |s.slots| && !s.slots[x].flags.avail
    requires |s.slots| == |s.hist| && |s.pollfds| >= |s.idxArray|
    ensures var t := Accepted(s, newsock, stale); x < |t.slots| && t.slots[x] == s.slots[x]
  {
    SocketSetFrame(Opened(s), FirstAvail(s.slots), newsock, NO_FLAGS.(inbound := true), stale);
  }

  /** An entry the event loop looks at: its slot is open. */
  lemma EntryFacts(s: State, i: nat)
    requires Inv(s) && i < |s.idxArray|
    ensures i < |s.pollfds| && s.idxArray[i] < |s.slots| == |s.hist|
    ensures s.slots[s.idxArray[i]].sock != -1
  {
    assert EntryOk(s.pollfds[i], s.slots[s.idxArray[i]], s.hist[s.idxArray[i]]);
  }

  lemma DepthKeeps(s: State, d: nat)
    requires Inv(s)
    ensures Inv(s.(depth := d))
  {
    SlotsFrame(s, s.(depth := d));
    TableFrame(s, s.(depth := d));
  }

  /** Entering update_all, a run inside it, and leaving it again. */
  lemma LoopEvolves(s: State, t: State)
    requires Inv(s) && Evolves(s.(depth := s.depth + 1), t)
    ensures Evolves(s, t.(depth := s.depth))
  {
    var u, v := s.(depth := s.depth + 1), t.(depth := s.depth);
    forall x | 0 <= x < |s.slots| ensures HistGrows(s.hist[x], v.hist[x]) {
      assert HistGrows(u.hist[x], t.hist[x]);
    }
    forall x | 0 <= x < |s.slots| && !s.slots[x].flags.avail && (s.depth > 0 || x in s.pending) ensures Held(s, v, x) {
      assert Held(u, t, x);
    }
  }

  lemma EvolvesDepth(s: State, t: State)
    requires Evolves(s, t)
    ensures t.depth == s.depth && t.pending == s.pending
  {
  }

  /** With a zero counter there is nothing to sweep; and without deletions under way nothing is left. */
  lemma NoneLeft(s: State)
    requires Inv(s) && s.depth == 0
    ensures s.ndeleted == 0 ==> Swept(s) == s
    ensures s.pending == {} ==> forall x :: 0 <= x < |Swept(s).slots| ==> !Swept(s).slots[x].flags.deleted
  {
    if s.pending == {} {
      SweepKeeps(s);
    }
  }

  lemma CounterRight(s: State)
    requires Inv(s)
    ensures CountDeleted(s.slots) >= s.ndeleted
  {
  }

  /** sockbuf_read and sockbuf_noread. */
  function Reading(s: State, x: nat, on: bool): State
    requires |s.pollfds| >= |s.idxArray| && HasEntry(s, x)
  {
    WithEntry(s, x, Entry(s, x).(events := Entry(s, x).events.(pin := on)))
  }

  lemma ReadingKeeps(s: State, x: nat, on: bool)
    requires Inv(s) && x < |s.slots| && HasEntry(s, x)
    ensures var t := Reading(s, x, on); Inv(t) && Evolves(s, t)
  {
    SlotFacts(s, x);
    EntryOfSlot(s, x);
    var b, h := s.slots[x], s.hist[x];
    assert s.slots[x := b] == s.slots && s.hist[x := h] == s.hist;
    TouchKeeps(s, x, b, h, Entry(s, x).(events := Entry(s, x).events.(pin := on)));
  }

  /** The promises, spelled out for a state between two calls of the program's own. */
  lemma AtRest(s: State)
    requires Inv(s) && s.depth == 0 && s.pending == {}
    ensures |s.hist| == |s.slots| && |s.pollfds| == |s.idxArray| + |s.listeners|
    ensures forall x :: 0 <= x < |s.slots| && s.slots[x].Live() ==>
      var b, h := s.slots[x], s.hist[x];
      && b.rawOut + |b.data| == |h.submitted|
      && (!h.misused ==> h.submitted == h.sent + b.data)
      && (!h.misused && b.sock != -1 && b.data != [] ==> b.flags.block)
    ensures forall i, j :: 0 <= i < j < |s.idxArray| ==> s.idxArray[i] != s.idxArray[j]
    ensures forall x :: x in s.idxArray <==> 0 <= x < |s.slots| && s.slots[x].Live() && s.slots[x].sock != -1
    ensures forall i :: 0 <= i < |s.idxArray| ==>
      var b, h := s.slots[s.idxArray[i]], s.hist[s.idxArray[i]];
      && s.pollfds[i].fd == b.sock
      && (!h.misused ==> (s.pollfds[i].events.pout <==> b.flags.block || b.flags.connecting))
    ensures forall j :: 0 <= j < |s.listeners| ==> s.pollfds[|s.idxArray| + j] == ListenerFd(s.listeners[j])
    ensures CountDeleted(s.slots) == s.ndeleted
  {
    forall x | 0 <= x < |s.slots| ensures SlotOk(s.slots[x], s.hist[x], false) {
      assert SlotOk(s.slots[x], s.hist[x], x in s.pending);
    }
    forall i | 0 <= i < |s.idxArray| ensures s.idxArray[i] < |s.slots| && s.slots[s.idxArray[i]].sock != -1 {
      EntryFacts(s, i);
    }
  }

  /** Once deleted during update_all, a slot stays wiped and unissued until the outermost call ends, and no event
      that still reaches it finds anyone to tell. */
  lemma NoReuseWithinRound(s: State, t: State, x: nat, tested: EventKind, kind: EventKind, level: int)
    requires Inv(s) && Inv(t) && Evolves(s, t) && s.depth > 0
    requires x < |s.slots| && Wiped(s, x)
    ensures x < |t.slots| && t.slots[x] == WIPED && t.hist[x].gen == s.hist[x].gen
    ensures FirstAvail(t.slots) != x && x !in t.idxArray
    ensures RecipientOf(t.slots[x], tested, kind, level) == None
  {
    SlotFacts(s, x);
    EvolvesFacts(s, t, x);
    SlotFacts(t, x);
  }
}
