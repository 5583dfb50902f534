/** What serving POLLOUT comes to: a connection that connects and whose kernel takes bytes delivers all that waits,
    and is then left alone by poll.
 */
module SockProgress {
  import opened Bytes
  import opened Filters
  import opened Sequences
  import opened SockState

  /** An open connection whose socket was not set under waiting bytes. */
  predicate Open(s: State, x: nat) {
    x < |s.slots| == |s.hist| && s.slots[x].Live() && s.slots[x].sock != -1 && !s.hist[x].misused
  }

  /** Poll watches the slot for POLLOUT. */
  predicate Watched(s: State, x: nat) {
    |s.pollfds| >= |s.idxArray| && HasEntry(s, x) && Entry(s, x).events.pout
  }

  /** The callbacks left the slot as it was when they were called. */
  predicate LeftAlone(m: State, t: State, x: nat) {
    x < |m.slots| == |m.hist| && x < |t.slots| == |t.hist| && t.slots[x] == m.slots[x] && t.hist[x] == m.hist[x]
  }

  /** POLLOUT served, with no socket error, and with a kernel that takes something of what waits. */
  ghost predicate ServedIn(s: State, m: State, t: State, x: nat) {
    && x < |s.slots| && LeftAlone(m, t, x)
    && if s.slots[x].flags.connecting then ClientStep(s, m, t, x, false)
       else exists n :: 0 <= n && (s.slots[x].data != [] ==> n > 0) && WritableStep(s, m, t, x, n)
  }

  ghost predicate Service(s: State, t: State, x: nat) { Inv(t) && exists m :: ServedIn(s, m, t, x) }

  /** One round of poll: the slot is served if it is watched. */
  ghost predicate Tick(s: State, t: State, x: nat) { if Watched(s, x) then Service(s, t, x) else t == s }

  ghost predicate Ticks(ts: seq<State>, x: nat) {
    ts != [] && Inv(ts[0]) && forall k :: 0 <= k < |ts| - 1 ==> TickAt(ts, k, x)
  }

  ghost predicate TickAt(ts: seq<State>, k: nat, x: nat)
    requires k + 1 < |ts|
  {
    Tick(ts[k], ts[k + 1], x)
  }

  /** Connected, everything sent, and neither blocked nor watched. */
  ghost predicate Rested(s: State, x: nat) {
    && Open(s, x) && !s.slots[x].flags.connecting && !s.slots[x].flags.block && s.slots[x].data == []
    && s.hist[x].sent == s.hist[x].submitted && !Watched(s, x)
  }

  /** Blocked with nothing to wait for. */
  predicate Stuck(b: Slot) { b.flags.block && !b.flags.connecting && b.data == [] }

  function Work(b: Slot): nat { (if b.flags.connecting then 1 else 0) + |b.data| }

  lemma WatchedIff(s: State, x: nat)
    requires Inv(s) && Open(s, x)
    ensures Watched(s, x) <==> s.slots[x].flags.block || s.slots[x].flags.connecting
    ensures Delivery(s.slots[x], s.hist[x])
  {
    hide Inv;
    SlotFacts(s, x);
    EntryIs(s, x);
  }

  lemma EntryIs(s: State, x: nat)
    requires Inv(s) && x < |s.slots| && s.slots[x].sock != -1
    ensures |s.hist| == |s.slots| && |s.pollfds| >= |s.idxArray| && HasEntry(s, x)
    ensures EntryOk(Entry(s, x), s.slots[x], s.hist[x])
  {
    EntryOfSlot(s, x);
  }

  /** One service leaves less to do, or finds nothing to do and changes nothing. */
  lemma ServiceWorks(s: State, t: State, x: nat)
    requires Inv(s) && Open(s, x) && Watched(s, x) && Service(s, t, x)
    ensures Inv(t) && Open(t, x) && t.hist[x].submitted == s.hist[x].submitted
    ensures !Stuck(s.slots[x]) ==> Work(t.slots[x]) < Work(s.slots[x]) && !Stuck(t.slots[x])
    ensures |t.slots[x].data| <= |s.slots[x].data|
    ensures Stuck(s.slots[x]) ==> t == s
  {
    hide Inv, Announced;
    WatchedIff(s, x);
    SlotFacts(s, x);
    var m :| ServedIn(s, m, t, x);
    if s.slots[x].flags.connecting {
      ConnectedIs(s, x);
    } else {
      DrainedIs(s, x);
    }
  }

  lemma DrainedIs(s: State, x: nat)
    requires x < |s.slots| == |s.hist| && |s.pollfds| >= |s.idxArray|
    ensures forall n: nat :: n <= |s.slots[x].data| ==>
      var t := Drained(s, x, n);
      var b := s.slots[x];
      && |t.slots| == |s.slots| == |t.hist| && t.slots[x].flags == b.flags.(block := b.flags.block && n < |b.data|)
      && t.slots[x].data == b.data[n..] && t.slots[x].sock == b.sock
      && t.hist[x] == s.hist[x].(sent := s.hist[x].sent + b.data[..n])
  {
  }

  lemma {:induction false} TicksWork(ts: seq<State>, x: nat, k: nat)
    requires Ticks(ts, x) && k < |ts| && Open(ts[0], x) && !Stuck(ts[0].slots[x])
    ensures Inv(ts[k]) && Open(ts[k], x) && !Stuck(ts[k].slots[x])
    ensures ts[k].hist[x].submitted == ts[0].hist[x].submitted
    ensures !Watched(ts[k], x) || Work(ts[k].slots[x]) + k <= Work(ts[0].slots[x])
  {
    hide Inv, Service;
    if k > 0 {
      TicksWork(ts, x, k - 1);
      assert TickAt(ts, k - 1, x);
      if Watched(ts[k - 1], x) {
        ServiceWorks(ts[k - 1], ts[k], x);
      }
    }
  }

  lemma {:induction false} StuckStays(ts: seq<State>, x: nat, k: nat)
    requires Ticks(ts, x) && k < |ts| && Open(ts[0], x) && Stuck(ts[0].slots[x])
    ensures ts[k] == ts[0]
  {
    hide Inv, Service;
    if k > 0 {
      StuckStays(ts, x, k - 1);
      assert TickAt(ts, k - 1, x);
      if Watched(ts[0], x) {
        ServiceWorks(ts[0], ts[k], x);
      }
    }
  }

  /** With no socket error, a kernel that always takes something, and callbacks that leave the connection alone, as many
      rounds as bytes wait, and one more, connect it and send all that was submitted, and then it is no longer blocked
      or watched; unless it was blocked with nothing waiting, in which case it is watched for ever. */
  lemma PolloutDrains(ts: seq<State>, x: nat)
    requires Ticks(ts, x) && Open(ts[0], x) && |ts| > 1 + |ts[0].slots[x].data|
    ensures var t := ts[|ts| - 1];
      && (Rested(t, x) <==> !Stuck(ts[0].slots[x]))
      && (Stuck(ts[0].slots[x]) ==> t == ts[0] && Watched(t, x))
      && x < |t.hist| && t.hist[x].submitted == ts[0].hist[x].submitted
  {
    hide Inv, Service;
    var k := |ts| - 1;
    if Stuck(ts[0].slots[x]) {
      StuckStays(ts, x, k);
      WatchedIff(ts[0], x);
    } else {
      TicksWork(ts, x, k);
      WatchedIff(ts[k], x);
    }
  }

  /** A slot with an empty buffer gets there exactly by a socket set with BLOCK but without CONNECTING. */
  lemma SetSockSticks(b: Slot, sock: int, f: Flags)
    requires b.data == []
    ensures Stuck(SocketSlot(b, sock, f)) <==> f.block && !f.connecting
  {
  }
}
