/** The functions of c-cpp/onethread/sockbuf.c, updating their tables in place.

    The kernel answers as it likes within the limits of its calls. A callback may make any finite sequence
    of calls back into this layer, whose callbacks may do the same: `fuel` is how deep that nesting goes,
    and every contract holds for every `fuel`.
 */
module Sockbuf {
  import opened Bytes
  import opened Options
  import opened Filters
  import opened Sequences
  import opened SockState
  import opened SockRound
  import EggBuffer

  class Sockbufs {
    var slots: seq<Slot>
    var idxArray: seq<nat>
    var pollfds: seq<PollFd>
    var nlisteners: nat
    var ndeleted: nat
    var depth: nat

    /** Slots whose on_delete callbacks are running: in C this is known from the call stack alone. */
    var pending: set<nat>

    ghost var hist: seq<Hist>
    ghost var listeners: seq<int>
    ghost var past: map<nat, Past>
    ghost var made: nat
    ghost var polled: nat
    ghost var rounds: nat
    ghost var calls: seq<Call>

    ghost function St(): State
      reads this
    {
      State(slots, idxArray, pollfds, nlisteners, ndeleted, depth, hist, listeners, pending,
            past, made, polled, rounds, calls)
    }

    ghost predicate Valid()
      reads this
    {
      Inv(St())
    }

    constructor ()
      ensures Valid() && St() == INITIAL
    {
      slots, idxArray, pollfds, nlisteners, ndeleted, depth := [], [], [], 0, 0, 0;
      hist, listeners, pending, calls := [], [], {}, [];
      past, made, polled, rounds := map[], 0, 0, 0;
      new;
      InitialInv();
    }

    predicate IsValid(idx: int)
      reads this
    {
      0 <= idx < |slots| && slots[idx].Live()
    }

    // ----- the poll arrays -----

    method FindEntry(idx: nat) returns (i: nat)
      ensures i == Pos(idxArray, idx)
    {
      i := 0;
      while i < |idxArray| && idxArray[i] != idx
        invariant i <= |idxArray|
        invariant forall j :: 0 <= j < i ==> idxArray[j] != idx
      {
        i := i + 1;
      }
      PosIs(idxArray, idx, i);
    }

    /** Shifts the entry of `idx` out of both arrays. */
    method RemoveEntry(idx: nat) returns (found: bool)
      requires |pollfds| >= |idxArray|
      modifies this
      ensures St() == WithoutEntry(old(St()), idx)
      ensures found == old(HasEntry(St(), idx))
    {
      var i := FindEntry(idx);
      found := i < |idxArray|;
      if found {
        idxArray := idxArray[..i] + idxArray[i + 1..];
        pollfds := pollfds[..i] + pollfds[i + 1..];
        past := past - {idx};
      }
    }

    /** Appends an entry, shifting the listeners up. */
    method AddEntry(idx: nat, p: PollFd)
      requires |pollfds| >= |idxArray|
      modifies this
      ensures St() == WithNewEntry(old(St()), idx, p)
    {
      var i := |idxArray|;
      idxArray := idxArray + [idx];
      pollfds := pollfds[..i] + [p] + pollfds[i..];
      past := past[idx := Past(made, None)];
      made := made + 1;
    }

    method Block(idx: nat)
      requires idx < |slots| == |hist| && |pollfds| >= |idxArray|
      modifies this
      ensures St() == Blocked(old(St()), idx, true)
    {
      slots := slots[idx := slots[idx].(flags := slots[idx].flags.(block := true))];
      var i := FindEntry(idx);
      if i < |idxArray| {
        pollfds := pollfds[i := pollfds[i].(events := pollfds[i].events.(pout := true))];
      }
      assert hist[idx := hist[idx]] == hist;
    }

    method Unblock(idx: nat)
      requires idx < |slots| == |hist| && |pollfds| >= |idxArray|
      modifies this
      ensures St() == Blocked(old(St()), idx, false)
    {
      slots := slots[idx := slots[idx].(flags := slots[idx].flags.(block := false))];
      var i := FindEntry(idx);
      if i < |idxArray| {
        pollfds := pollfds[i := pollfds[i].(events := pollfds[i].events.(pout := false))];
      }
      assert hist[idx := hist[idx]] == hist;
    }

    /** Sets the socket of a slot; -1 takes it out of the poll table. */
    method SetSock(idx: int, sock: int, f: Flags) returns (r: int, ghost stale: Events)
      requires Valid()
      modifies this
      ensures ConnFlags(f) || !old(IsValid(idx)) ==> Valid() && Evolves(old(St()), St())
      ensures |old(hist)| == |old(slots)| && |old(pollfds)| >= |old(idxArray)|
      ensures !old(IsValid(idx)) ==> r == -1 && St() == old(St())
      ensures old(IsValid(idx)) ==> St() == SocketSet(old(St()), idx, sock, f, stale)
      ensures old(nlisteners) > 0 ==> stale == NO_EVENTS
      ensures old(IsValid(idx)) ==> idx < |hist| && hist[idx].asked == f
      ensures old(IsValid(idx)) ==>
        r == if sock != -1 then idx else if old(HasEntry(St(), idx)) then 0 else 1
    {
      hide Inv, Evolves, SocketSlot, SocketHist, SocketPoll;
      ghost var s := St();
      HistLength(s);
      stale := NO_EVENTS;
      if !IsValid(idx) {
        EvolvesSelf(s);
        return -1, stale;
      }
      var left: Events := *;
      if nlisteners > 0 {
        LeftByListener(s);
        left := pollfds[|idxArray|].revents;
      }
      stale := left;
      if ConnFlags(f) {
        SocketSetKeeps(s, idx, sock, f, stale);
      }
      AskedIs(slots[idx], hist[idx], sock, f);
      hist := hist[idx := SocketHist(slots[idx], hist[idx], sock, f)];
      slots := slots[idx := SocketSlot(slots[idx], sock, f)];
      assert HasEntry(St(), idx) == HasEntry(s, idx);
      if sock == -1 {
        var found := RemoveEntry(idx);
        return if found then 0 else 1, stale;
      }
      var i := FindEntry(idx);
      if i == |idxArray| {
        AddEntry(idx, SocketPoll(sock, f, left));
      } else {
        pollfds := pollfds[i := SocketPoll(sock, f, pollfds[i].revents)];
      }
      r := idx;
    }

    method Close(idx: int) returns (r: int)
      requires Valid()
      modifies this
      ensures Valid() && Evolves(old(St()), St())
      ensures !old(IsValid(idx)) ==> r == -1 && St() == old(St())
      ensures old(IsValid(idx)) && old(slots[idx].sock) < 0 ==> St() == old(St())
      ensures old(IsValid(idx)) && old(slots[idx].sock) >= 0 ==>
        St() == SocketSet(old(St()), idx, -1, NO_FLAGS, NO_EVENTS)
    {
      if !IsValid(idx) {
        EvolvesSelf(St());
        return -1;
      }
      r := 0;
      if slots[idx].sock >= 0 {
        var _, _ := SetSock(idx, -1, NO_FLAGS);
      } else {
        EvolvesSelf(St());
      }
    }

    method FindFree() returns (idx: nat)
      ensures idx == FirstAvail(slots)
    {
      idx := 0;
      while idx < |slots| && !slots[idx].flags.avail
        invariant idx <= |slots|
        invariant forall j :: 0 <= j < idx ==> !slots[j].flags.avail
      {
        idx := idx + 1;
      }
      FirstAvailIs(slots, idx);
    }

    method Grow()
      modifies this
      ensures St() == Grown(old(St()))
    {
      slots := slots + seq(5, _ => UNUSED);
      hist := hist + seq(5, _ => NO_HIST);
    }

    /** Hands out a slot: the first free one, or the first of five new ones. */
    method New() returns (idx: nat)
      requires Valid()
      modifies this
      ensures Valid() && Evolves(old(St()), St())
      ensures |old(hist)| == |old(slots)| && St() == Opened(old(St())) && idx == FirstAvail(old(slots))
      ensures idx < |slots| && slots[idx] == OPENED && nlisteners == old(nlisteners)
    {
      hide Inv, Evolves, Grown, Opened, FirstAvail, Put;
      ghost var s := St();
      HistLength(s);
      GrownLength(s);
      OpenedKeeps(s);
      idx := FindFree();
      if idx == |slots| {
        Grow();
      }
      OpenedFrom(s, St());
      Reset(idx);
    }

    /** The memset and the first settings of sockbuf_new. */
    method Reset(idx: nat)
      requires idx < |slots| == |hist|
      modifies this
      ensures St() == Put(old(St()), idx, OPENED, Hist(old(hist[idx].gen) + 1, [], [], NO_FLAGS, false))
    {
      slots := slots[idx := OPENED];
      hist := hist[idx := Hist(hist[idx].gen + 1, [], [], NO_FLAGS, false)];
    }

    method AttachListener(fd: int)
      requires Valid()
      modifies this
      ensures Valid() && Evolves(old(St()), St())
      ensures slots == old(slots) && idxArray == old(idxArray) && listeners == old(listeners) + [fd]
    {
      ghost var s := St();
      pollfds := pollfds + [ListenerFd(fd)];
      nlisteners := nlisteners + 1;
      listeners := listeners + [fd];
      ListenersKeep(s, St());
    }

    method FindListener(fd: int) returns (i: nat)
      requires Tail(St())
      ensures i == Pos(listeners, fd) <= nlisteners
    {
      i := 0;
      while i < nlisteners && pollfds[|idxArray| + i].fd != fd
        invariant i <= nlisteners
        invariant forall j :: 0 <= j < i ==> listeners[j] != fd
      {
        i := i + 1;
      }
      PosIs(listeners, fd, i);
    }

    /** Takes out the first listener on `fd`, if there is one. */
    method DetachListener(fd: int)
      requires Valid()
      modifies this
      ensures Valid() && Evolves(old(St()), St())
      ensures St() == if fd in old(listeners) then WithoutListener(old(St()), Pos(old(listeners), fd)) else old(St())
    {
      ghost var s := St();
      var i := FindListener(fd);
      if i < nlisteners {
        WithoutListenerKeeps(s, i);
        DropListener(i);
      } else {
        EvolvesSelf(s);
      }
    }

    method DropListener(i: nat)
      requires Tail(St()) && i < nlisteners
      modifies this
      ensures St() == WithoutListener(old(St()), i)
    {
      var n := |idxArray| + i;
      pollfds := pollfds[..n] + pollfds[n + 1..];
      nlisteners := nlisteners - 1;
      listeners := RemoveAt(listeners, i);
    }

    // ----- filters -----

    method AttachFilter(idx: int, filter: Filter, data: nat) returns (r: int)
      requires Valid()
      modifies this
      ensures Valid() && Evolves(old(St()), St())
      ensures !old(IsValid(idx)) ==> r == -1 && St() == old(St())
      ensures old(IsValid(idx)) ==>
        var b := old(slots[idx]);
        var i := AttachPos(b.filters, filter);
        && r == 0 && |b.filters| == |b.filterData|
        && St() == Put(old(St()), idx,
             b.(filters := InsertAt(b.filters, i, filter), filterData := InsertAt(b.filterData, i, data)),
             old(hist[idx]))
    {
      if !IsValid(idx) {
        EvolvesSelf(St());
        return -1;
      }
      ghost var s := St();
      var fs := slots[idx].filters;
      assert SlotOk(slots[idx], hist[idx], idx in pending);
      var i := FindLevel(fs, filter);
      AttachKeepsSorted(fs, filter);
      var b := slots[idx].(filters := fs[..i] + [filter] + fs[i..],
                           filterData := slots[idx].filterData[..i] + [data] + slots[idx].filterData[i..]);
      BookkeepingKeeps(s, idx, b);
      hide Inv, Evolves;
      Store(idx, b);
      r := 0;
    }

    method FindLevel(fs: seq<Filter>, filter: Filter) returns (i: nat)
      requires Sorted(fs)
      ensures i == AttachPos(fs, filter)
    {
      i := 0;
      while i < |fs| && !(filter.level < fs[i].level)
        invariant i <= |fs|
        invariant forall j :: 0 <= j < i ==> fs[j].level <= filter.level
      {
        i := i + 1;
      }
      AttachPosIs(fs, filter, i);
    }

    /** Takes a filter out and gives back its client data. */
    method DetachFilter(idx: int, filter: Filter) returns (r: int, data: Option<nat>)
      requires Valid()
      modifies this
      ensures Valid() && Evolves(old(St()), St())
      ensures !old(IsValid(idx)) ==> r == -1 && St() == old(St())
      ensures old(IsValid(idx)) ==>
        var b := old(slots[idx]);
        var i := Pos(b.filters, filter);
        && r == 0 && |b.filters| == |b.filterData|
        && if i == |b.filters| then St() == old(St()) && data == None
           else data == Some(b.filterData[i]) && St() == Put(old(St()), idx,
             b.(filters := RemoveAt(b.filters, i), filterData := RemoveAt(b.filterData, i)), old(hist[idx]))
    {
      data := None;
      if !IsValid(idx) {
        EvolvesSelf(St());
        return -1, data;
      }
      ghost var s := St();
      var fs := slots[idx].filters;
      assert SlotOk(slots[idx], hist[idx], idx in pending);
      var i := FindFilter(fs, filter);
      r := 0;
      if i == |fs| {
        EvolvesSelf(s);
        return;
      }
      data := Some(slots[idx].filterData[i]);
      DetachKeepsSorted(fs, i);
      var b := slots[idx].(filters := fs[..i] + fs[i + 1..],
                           filterData := slots[idx].filterData[..i] + slots[idx].filterData[i + 1..]);
      BookkeepingKeeps(s, idx, b);
      hide Inv, Evolves;
      Store(idx, b);
    }

    method FindFilter(fs: seq<Filter>, filter: Filter) returns (i: nat)
      ensures i == Pos(fs, filter)
    {
      i := 0;
      while i < |fs| && fs[i] != filter
        invariant i <= |fs|
        invariant forall j :: 0 <= j < i ==> fs[j] != filter
      {
        i := i + 1;
      }
      PosIs(fs, filter, i);
    }

    // ----- the kernel -----

    /** write(2): some of the bytes, or a failure, which on a bad descriptor is certain and not EAGAIN. */
    method KernelWrite(sock: int, len: nat) returns (n: int, again: bool)
      ensures n <= len
      ensures sock < 0 ==> n < 0 && !again
    {
      n := *;
      again := *;
      if sock < 0 {
        n, again := -1, false;
      } else if n > len {
        n := len;
      }
    }

    /** read(2) or accept(2): a count or a descriptor; nothing of use on a bad descriptor. */
    method KernelRead(sock: int) returns (n: int)
      ensures sock < 0 ==> n < 0
    {
      n := *;
      if sock < 0 {
        n := -1;
      }
    }

    /** poll(2) on the entries, without the listeners after them: how many have events, or an error. */
    method KernelPoll() returns (n: int)
      requires Valid()
      modifies this
      ensures Valid() && Evolves(old(St()), St())
      ensures slots == old(slots) && idxArray == old(idxArray) && hist == old(hist) && depth == old(depth)
      ensures Answered(old(St()), St(), n)
    {
      hide Inv, Evolves, Answered, CountActive;
      ghost var s := St();
      HistLength(s);
      n := *;
      if n < 0 {
        EvolvesSelf(s);
        PollFailed(s, n);
        return;
      }
      ghost var evs;
      n, evs := FillRevents();
      PolledKeeps(s, evs);
      PollAnswered(s, evs);
      past, polled, rounds := Polled(s, evs).past, made, rounds + 1;
      assert St() == Polled(s, evs);
    }

    method FillRevents() returns (n: nat, ghost evs: seq<Events>)
      requires |pollfds| >= |idxArray|
      modifies this
      ensures |evs| == |idxArray| && n == CountActive(evs)
      ensures St() == old(St()).(pollfds := seq(|old(pollfds)|, j requires 0 <= j < |old(pollfds)| =>
        if j < |evs| then old(pollfds)[j].(revents := evs[j]) else old(pollfds)[j]))
    {
      ghost var s, before := St(), pollfds;
      evs := [];
      var i := 0;
      n := 0;
      while i < |idxArray|
        invariant i <= |idxArray| && |evs| == i && n == CountActive(evs)
        invariant St() == s.(pollfds := pollfds) && |pollfds| == |before|
        invariant forall j :: 0 <= j < |before| ==>
          pollfds[j] == if j < i then before[j].(revents := evs[j]) else before[j]
      {
        var e: Events := *;
        pollfds := pollfds[i := pollfds[i].(revents := e)];
        assert (evs + [e])[..i] == evs;
        evs := evs + [e];
        if e != NO_EVENTS {
          n := n + 1;
        }
        i := i + 1;
      }
    }

    // ----- callbacks -----

    /** A callback is made, and does what it likes. */
    method Callback(idx: nat, ghost who: Recipient, ghost kind: EventKind, fuel: nat)
      requires Valid() && idx < |slots|
      modifies this
      ensures Valid() && Evolves(old(St()), St())
      ensures |hist| >= |old(hist)| > idx
      ensures |calls| > |old(calls)| && calls[|old(calls)|] == Call(idx, old(hist[idx].gen), who, kind)
      decreases fuel, 1
    {
      ghost var s := St();
      HistLength(s);
      ghost var c := Call(idx, hist[idx].gen, who, kind);
      CalledEvolves(s, c);
      hide Inv;
      calls := calls + [c];
      ghost var t := St();
      assert t == s.(calls := s.calls + [c]);
      Env(fuel);
      EvolvesTrans(s, t, St());
      assert t.calls <= calls;
    }

    /** Whatever a callback may do: any number of calls into this layer. */
    method Env(fuel: nat)
      requires Valid()
      modifies this
      ensures Valid() && Evolves(old(St()), St())
      decreases fuel, 0
    {
      ghost var s := St();
      HistLength(s);
      EvolvesSelf(s);
      if fuel == 0 {
        return;
      }
      var n: nat := *;
      while n > 0
        invariant Valid() && Evolves(s, St())
        decreases n
      {
        ghost var t := St();
        OneCall(fuel - 1);
        EvolvesTrans(s, t, St());
        n := n - 1;
      }
    }

    /** sockbuf_on_eof, on_connect, on_newclient, on_written and on_read: the event goes to the first filter
        beyond `level` with the tested callback, or else to the user's handler. */
    method Notify(idx: nat, tested: EventKind, kind: EventKind, level: int, len: nat, fuel: nat)
      requires Valid() && idx < |slots| && !slots[idx].flags.avail
      requires kind == Read ==> !Wiped(St(), idx)
      modifies this
      ensures Valid() && Evolves(old(St()), St())
      ensures Announced(old(St()), St(), idx, tested, kind, level, len)
      decreases fuel, 2
    {
      ghost var s := St();
      SlotFacts(s, idx);
      var i := FindHearer(slots[idx].filters, tested, level);
      hide Inv, Evolves, SlotOk, Announced;
      if i < |slots[idx].filters| {
        Callback(idx, FilterCallback(slots[idx].filters[i], slots[idx].filterData[i]), kind, fuel);
        AnnouncedBy(s, s, St(), idx, tested, kind, level, len);
      } else {
        NotifyUser(idx, tested, kind, level, len, fuel);
      }
    }

    /** No filter is concerned: the user is, who may have no handler for it. */
    method NotifyUser(idx: nat, tested: EventKind, kind: EventKind, level: int, len: nat, fuel: nat)
      requires Valid() && idx < |slots| && !slots[idx].flags.avail
      requires kind == Read ==> !Wiped(St(), idx)
      requires NextUp(slots[idx].filters, tested, level) == |slots[idx].filters|
      modifies this
      ensures Valid() && Evolves(old(St()), St())
      ensures Announced(old(St()), St(), idx, tested, kind, level, len)
      decreases fuel, 2, 0
    {
      hide Inv, Evolves, Announced, NextUp;
      ghost var s := St();
      SlotFacts(s, idx);
      EvolvesSelf(s);
      ghost var h := Handed(s, idx, tested, kind, level, len);
      if kind == Read {
        CountIn(idx, len, 0);
        EvolvesSelf(h);
      }
      assert St() == h && idx < |slots| == |hist| && calls == s.calls && hist[idx] == s.hist[idx]
        && slots[idx].handler == s.slots[idx].handler && slots[idx].userData == s.slots[idx].userData;
      hide Handed, Put, Wiped;
      if kind in slots[idx].handler.hears {
        Callback(idx, UserCallback(slots[idx].handler, slots[idx].userData), kind, fuel);
        EvolvesTrans(s, h, St());
      }
      AnnouncedBy(s, h, St(), idx, tested, kind, level, len);
    }

    method FindHearer(fs: seq<Filter>, tested: EventKind, level: int) returns (i: nat)
      ensures i == NextUp(fs, tested, level)
    {
      i := 0;
      while i < |fs| && !(tested in fs[i].hears && fs[i].level > level)
        invariant i <= |fs|
        invariant forall j :: 0 <= j < i ==> !(Hears(fs[j], tested) && fs[j].level > level)
      {
        i := i + 1;
      }
      NextUpIs(fs, tested, level, i);
    }

    /** Byte counters of the connection: handed to the user, and read from the socket. */
    method CountIn(idx: nat, toUser: nat, raw: nat)
      requires Valid() && idx < |slots| && !slots[idx].flags.avail && !Wiped(St(), idx)
      modifies this
      ensures idx < |slots| == |old(slots)| == |old(hist)|
      ensures var b := old(slots[idx]);
        St() == Put(old(St()), idx, b.(bytesIn := b.bytesIn + toUser, rawIn := b.rawIn + raw), old(hist[idx]))
      ensures Valid() && Evolves(old(St()), St())
    {
      hide Inv, Evolves;
      ghost var s := St();
      SlotFacts(s, idx);
      var b := slots[idx].(bytesIn := slots[idx].bytesIn + toUser, rawIn := slots[idx].rawIn + raw);
      BookkeepingKeeps(s, idx, b);
      hide SlotOk;
      Store(idx, b);
    }

    /** Bookkeeping on one slot; its history stays. */
    method Store(idx: nat, b: Slot)
      requires idx < |slots| == |hist|
      modifies this`slots
      ensures St() == Put(old(St()), idx, b, old(hist[idx]))
    {
      slots := slots[idx := b];
      assert hist[idx := hist[idx]] == hist;
    }

    /** Closes the slot and announces the end; on a slot already wiped there is nothing and nobody left. */
    method GotEof(idx: nat, fuel: nat)
      requires Valid() && idx < |slots| && !slots[idx].flags.avail
      modifies this
      ensures Valid() && Evolves(old(St()), St())
      ensures Ended(old(St()), St(), idx)
      ensures old(Wiped(St(), idx)) ==> St() == old(St())
      decreases fuel, 3
    {
      ghost var s := St();
      SlotFacts(s, idx);
      ClosedFrame(s, idx);
      hide Inv, Evolves, SlotOk, Announced, SocketSet;
      var _ := Close(idx);
      ghost var t := St();
      assert t == Closed(s, idx);
      Notify(idx, Eof, Eof, LEVEL_INTERNAL, 0, fuel);
      EvolvesTrans(s, t, St());
      if Wiped(s, idx) {
        WipedHearsNothing(s, St(), idx, Eof, LEVEL_INTERNAL);
      }
    }

    // ----- output -----

    /** Writes what the kernel takes and keeps the rest for POLLOUT; negative when the connection failed. */
    method RealWrite(idx: nat, data: seq<Byte>, fuel: nat) returns (r: int)
      requires Valid() && idx < |slots| && !slots[idx].flags.avail
      modifies this
      ensures Valid() && Evolves(old(St()), St())
      ensures r <= |data| && |old(hist)| == |old(slots)| && |old(pollfds)| >= |old(idxArray)|
      ensures r >= 0 ==> St() == Wrote(old(St()), idx, data, r)
      ensures r < 0 ==> Ended(old(St()), St(), idx)
      ensures old(slots[idx].flags.block) ==> r == 0
      ensures old(slots[idx].sock) < 0 && !old(slots[idx].flags.block) ==> r < 0
      ensures old(Wiped(St(), idx)) ==> r < 0 && St() == old(St())
      decreases fuel, 4
    {
      ghost var s := St();
      SlotFacts(s, idx);
      var nbytes := 0;
      if !slots[idx].flags.block {
        var again;
        nbytes, again := KernelWrite(slots[idx].sock, |data|);
        if nbytes < 0 {
          if !again {
            GotEof(idx, fuel);
            return nbytes;
          }
          nbytes := 0;
        }
      }
      WroteKeeps(s, idx, data, nbytes);
      hide Inv, Evolves, SlotOk;
      Settle(idx, data, nbytes);
      assert St() == Wrote(s, idx, data, nbytes);
      r := nbytes;
    }

    /** After the kernel took `nbytes`: count them, block if something is left, and buffer that. */
    method Settle(idx: nat, data: seq<Byte>, nbytes: nat)
      requires idx < |slots| == |hist| && |pollfds| >= |idxArray| && nbytes <= |data|
      requires slots[idx].flags.block ==> nbytes == 0
      modifies this
      ensures St() == Wrote(old(St()), idx, data, nbytes)
    {
      WroteInSteps(St(), idx, data, nbytes);
      if !slots[idx].flags.block {
        CountOut(idx, data[..nbytes]);
        if nbytes < |data| {
          Block(idx);
        }
      }
      Append(idx, data[nbytes..], data);
    }

    /** stats_out: bytes the kernel took. */
    method CountOut(idx: nat, taken: seq<Byte>)
      requires idx < |slots| == |hist|
      modifies this
      ensures St() == Counted(old(St()), idx, taken)
    {
      slots := slots[idx := slots[idx].(rawOut := slots[idx].rawOut + |taken|)];
      hist := hist[idx := hist[idx].(sent := hist[idx].sent + taken)];
    }

    /** Adds to the output buffer; the whole write is on record as submitted. */
    method Append(idx: nat, rest: seq<Byte>, ghost whole: seq<Byte>)
      requires idx < |slots| == |hist|
      modifies this
      ensures St() == Appended(old(St()), idx, rest, whole)
    {
      slots := slots[idx := slots[idx].(data := slots[idx].data + rest)];
      hist := hist[idx := hist[idx].(submitted := hist[idx].submitted + whole)];
    }

    /** To the last filter short of `level` that takes writes, or else to the socket. */
    method OnWrite(idx: nat, level: int, data: seq<Byte>, fuel: nat) returns (r: int)
      requires Valid() && idx < |slots| && !slots[idx].flags.avail
      modifies this
      ensures Valid() && Evolves(old(St()), St())
      ensures Sent(old(St()), St(), idx, level, data, r)
      decreases fuel, 5
    {
      SlotFacts(St(), idx);
      var i := FindWriter(slots[idx].filters, level);
      hide Inv, Evolves, SlotOk, Ended, Wrote;
      if i > 0 {
        Callback(idx, FilterCallback(slots[idx].filters[i - 1], slots[idx].filterData[i - 1]), Write, fuel);
        r := *;
      } else {
        r := RealWrite(idx, data, fuel);
      }
    }

    method FindWriter(fs: seq<Filter>, level: int) returns (i: nat)
      ensures i == NextDown(fs, level)
    {
      i := |fs|;
      while i > 0 && !(Write in fs[i - 1].hears && fs[i - 1].level < level)
        invariant i <= |fs|
        invariant forall j :: i <= j < |fs| ==> !(Hears(fs[j], Write) && fs[j].level < level)
      {
        i := i - 1;
      }
      NextDownIs(fs, level, i);
    }

    /** sockbuf_write: the user's way in, above all filters. A negative length stands for that of the string. */
    method WriteData(idx: int, memory: seq<Byte>, len: int, fuel: nat) returns (r: int)
      requires Valid()
      requires if len < 0 then 0 in memory else len <= |memory|
      modifies this
      ensures Valid() && Evolves(old(St()), St())
      ensures !old(IsValid(idx)) ==> r == -1 && St() == old(St())
      ensures old(IsValid(idx)) ==>
        var data := if len < 0 then EggBuffer.CString(memory) else memory[..len];
        && idx < |old(hist)|
        && Sent(Given(old(St()), idx, |data|), St(), idx, LEVEL_WRITE_INTERNAL, data, r)
      decreases fuel, 6
    {
      ghost var s := St();
      if !IsValid(idx) {
        EvolvesSelf(s);
        return -1;
      }
      var size := len;
      if len < 0 {
        size := EggBuffer.StrLen(memory);
      }
      var data := memory[..size];
      SlotFacts(s, idx);
      CountGiven(idx, |data|);
      ghost var t := St();
      hide Inv, Evolves, SlotOk, Sent, Given;
      r := OnWrite(idx, LEVEL_WRITE_INTERNAL, data, fuel);
      EvolvesTrans(s, t, St());
    }

    method CountGiven(idx: nat, n: nat)
      requires Valid() && idx < |slots| && slots[idx].Live()
      modifies this
      ensures Valid() && Evolves(old(St()), St())
      ensures idx < |slots| && !slots[idx].flags.avail && idx < |old(hist)| == |old(slots)|
      ensures St() == Given(old(St()), idx, n)
    {
      hide Inv, Evolves;
      ghost var s := St();
      SlotFacts(s, idx);
      var b := slots[idx].(bytesOut := slots[idx].bytesOut + n);
      BookkeepingKeeps(s, idx, b);
      hide SlotOk;
      Store(idx, b);
    }

    // ----- deletion -----

    /** Tells the filters and the handler, then takes the slot apart. */
    method DeleteSlot(idx: int, fuel: nat) returns (r: int)
      requires Valid()
      modifies this
      ensures Valid() && Evolves(old(St()), St())
      ensures !old(IsValid(idx)) ==> r == -1 && St() == old(St())
      ensures old(IsValid(idx)) ==> r == 0 && idx < |slots| && slots[idx] == WIPED && idx !in pending
      ensures old(IsValid(idx)) ==> idx < |old(hist)| && idx < |hist| && hist[idx].gen == old(hist[idx].gen)
      ensures old(IsValid(idx)) ==> AllTold(old(St()), St(), idx, |old(slots[idx]).filters|, true)
      decreases fuel, 3
    {
      ghost var s := St();
      if !IsValid(idx) {
        EvolvesSelf(s);
        return -1;
      }
      SlotFacts(s, idx);
      DeleteBegunKeeps(s, idx);
      DeleteBegunSlots(s, idx);
      hide Inv, SlotOk;
      MarkDeleted(idx);
      ghost var b := St();
      assert b == DeleteBegun(s, idx);
      TellDeleted(idx, fuel);
      ghost var t := St();
      SlotFacts(t, idx);
      DeleteEvolvesInv(s, t, idx);
      DeleteDoneKeeps(t, idx);
      DeleteDoneFrame(t, idx);
      hide Evolves;
      Wipe(idx);
      assert St() == DeleteDone(t, idx);
      ToldOfWiped(s, t, idx);
      r := 0;
    }

    method MarkDeleted(idx: nat)
      requires idx < |slots| == |hist|
      modifies this
      ensures St() == DeleteBegun(old(St()), idx)
    {
      slots := slots[idx := slots[idx].(flags := slots[idx].flags.(deleted := true))];
      pending := pending + {idx};
      assert hist[idx := hist[idx]] == hist;
    }

    /** The on_delete callbacks. */
    method TellDeleted(idx: nat, fuel: nat)
      requires Valid() && idx in pending && idx < |slots|
      modifies this
      ensures Valid() && Evolves(old(St()), St())
      ensures AllTold(old(St()), St(), idx, |old(slots[idx]).filters|, true)
      decreases fuel, 2
    {
      ghost var s := St();
      SlotFacts(s, idx);
      FiltersPaired(s, idx);
      EvolvesSelf(s);
      hide Inv, Evolves, SlotOk, FilterTold, HandlerTold;
      var i := 0;
      while i < |slots[idx].filters|
        invariant Valid() && Evolves(s, St()) && idx < |slots|
        invariant AllTold(s, St(), idx, i, false) && idx in pending && slots[idx].filters == s.slots[idx].filters
        decreases |s.slots[idx].filters| - i
      {
        TellFilter(idx, i, fuel, s);
        i := i + 1;
      }
      EvolvesFacts(s, St(), idx);
      if Delete in slots[idx].handler.hears {
        ghost var t := St();
        ghost var who := UserCallback(slots[idx].handler, slots[idx].userData);
        Callback(idx, UserCallback(slots[idx].handler, slots[idx].userData), Delete, fuel);
        EvolvesFacts(t, St(), idx);
        EvolvesTrans(s, t, St());
        ToldOne(s, t, St(), idx, i, Call(idx, s.hist[idx].gen, who, Delete));
      }
    }

    /** One turn of the loop over the filters; `s` is the state the loop began in. */
    method TellFilter(idx: nat, i: nat, fuel: nat, ghost s: State)
      requires Valid() && idx in pending && idx < |slots| && i < |slots[idx].filters|
      requires idx < |s.slots| == |s.hist| && !s.slots[idx].flags.avail && s.slots[idx].flags.deleted
      requires slots[idx].filters == s.slots[idx].filters && AllTold(s, St(), idx, i, false) && Evolves(s, St())
      modifies this
      ensures Valid() && Evolves(s, St()) && idx < |slots| && idx in pending
      ensures AllTold(s, St(), idx, i + 1, false) && slots[idx].filters == s.slots[idx].filters
      decreases fuel, 2, 0
    {
      ghost var t := St();
      EvolvesFacts(s, t, idx);
      FiltersPaired(t, idx);
      hide Inv, Evolves, FilterTold, HandlerTold;
      if Delete in slots[idx].filters[i].hears {
        ghost var who := FilterCallback(slots[idx].filters[i], slots[idx].filterData[i]);
        Callback(idx, FilterCallback(slots[idx].filters[i], slots[idx].filterData[i]), Delete, fuel);
        EvolvesFacts(t, St(), idx);
        EvolvesTrans(s, t, St());
        EvolvesFacts(s, St(), idx);
        ToldOne(s, t, St(), idx, i, Call(idx, s.hist[idx].gen, who, Delete));
      }
    }

    /** The rest of sockbuf_delete: the slot wiped and counted, its entry shifted out. */
    method Wipe(idx: nat)
      requires idx < |slots| == |hist| && |pollfds| >= |idxArray|
      modifies this
      ensures St() == DeleteDone(old(St()), idx)
    {
      slots := slots[idx := WIPED];
      assert hist[idx := hist[idx]] == hist;
      var _ := RemoveEntry(idx);
      ndeleted := ndeleted + 1;
      pending := pending - {idx};
    }

    // ----- events -----

    /** POLLOUT on a connected socket: sends waiting bytes; the block ends with the last of them. */
    method GotWritable(idx: nat, fuel: nat) returns (nbytes: int, ghost m: State)
      requires Valid() && idx < |slots| && !slots[idx].flags.avail && !slots[idx].flags.connecting
      modifies this
      ensures Valid() && Evolves(old(St()), St())
      ensures WritableStep(old(St()), m, St(), idx, nbytes)
      ensures old(Wiped(St(), idx)) ==> St() == old(St())
      decreases fuel, 6
    {
      ghost var s := St();
      SlotFacts(s, idx);
      EvolvesSelf(s);
      m := s;
      var again;
      nbytes, again := KernelWrite(slots[idx].sock, |slots[idx].data|);
      hide Announced, Ended;
      if nbytes > 0 {
        DrainedKeeps(s, idx, nbytes);
        hide Inv, Evolves, SlotOk;
        Drain(idx, nbytes);
        m := St();
        assert m == Drained(s, idx, nbytes);
        Notify(idx, Written, Written, LEVEL_INTERNAL, 0, fuel);
        EvolvesTrans(s, m, St());
      } else if nbytes < 0 {
        GotEof(idx, fuel);
      }
    }

    method Drain(idx: nat, nbytes: nat)
      requires idx < |slots| == |hist| && |pollfds| >= |idxArray| && nbytes <= |slots[idx].data|
      modifies this
      ensures St() == Drained(old(St()), idx, nbytes)
      ensures idx < |slots| && slots[idx].flags.avail == old(slots[idx].flags.avail)
    {
      ghost var s := St();
      DrainedInSteps(s, idx, nbytes);
      CountOut(idx, slots[idx].data[..nbytes]);
      slots := slots[idx := slots[idx].(data := slots[idx].data[nbytes..])];
      if slots[idx].data == [] {
        Unblock(idx);
      }
    }

    /** POLLOUT on a connecting socket: connected, unless the socket reports an error. It is announced in state `m`,
        with CONNECTING cleared, and blocked only if it was and bytes wait. */
    method GotWritableClient(idx: nat, fuel: nat) returns (err: bool, ghost m: State)
      requires Valid() && idx < |slots| && !slots[idx].flags.avail && slots[idx].sock != -1
      modifies this
      ensures Valid() && Evolves(old(St()), St())
      ensures ClientStep(old(St()), m, St(), idx, err)
      ensures |old(slots)| > idx && (!err ==> |m.slots| > idx)
      ensures !err ==>
        var b, c := old(slots[idx]), m.slots[idx];
        && !c.flags.connecting && (c.flags.block <==> b.flags.block && b.data != [])
        && c == b.(flags := b.flags.(connecting := c.flags.connecting, block := c.flags.block))
      decreases fuel, 6
    {
      ghost var s := St();
      SlotFacts(s, idx);
      err := *;
      m := s;
      hide Announced, Ended;
      if err {
        GotEof(idx, fuel);
        return;
      }
      ConnectedKeeps(s, idx);
      hide Inv, Evolves, SlotOk;
      BecomeConnected(idx);
      m := St();
      assert m == Connected(s, idx);
      ConnectedIs(s, idx);
      Notify(idx, Connect, Connect, LEVEL_INTERNAL, 0, fuel);
      EvolvesTrans(s, m, St());
    }

    method BecomeConnected(idx: nat)
      requires idx < |slots| == |hist| && |pollfds| >= |idxArray|
      modifies this
      ensures St() == Connected(old(St()), idx)
      ensures idx < |slots| && slots[idx].flags.avail == old(slots[idx].flags.avail)
    {
      hide Connected, Blocked;
      ghost var s := St();
      ConnectedInSteps(s, idx);
      ConnectedIs(s, idx);
      slots := slots[idx := slots[idx].(flags := slots[idx].flags.(connecting := false))];
      if slots[idx].data == [] {
        Unblock(idx);
      }
    }

    /** POLLIN on a server: accepts into a new slot. */
    method GotReadableServer(idx: nat, fuel: nat) returns (newsock: int, ghost stale: Events, ghost m: State)
      requires Valid() && idx < |slots| && !slots[idx].flags.avail
      modifies this
      ensures Valid() && Evolves(old(St()), St())
      ensures ServerStep(old(St()), m, St(), idx, newsock, stale)
      ensures old(Wiped(St(), idx)) ==> St() == old(St())
      decreases fuel, 6
    {
      ghost var s := St();
      SlotFacts(s, idx);
      EvolvesSelf(s);
      newsock := KernelRead(slots[idx].sock);
      stale, m := NO_EVENTS, s;
      if newsock < 0 {
        return;
      }
      hide Inv, Evolves, SlotOk, Announced, Accepted;
      stale := AcceptInto(newsock);
      m := St();
      AcceptLeaves(s, newsock, stale, idx);
      Notify(idx, Connect, NewClient, LEVEL_INTERNAL, 0, fuel);
      EvolvesTrans(s, m, St());
    }

    /** A slot of its own for an accepted connection. */
    method AcceptInto(newsock: int) returns (ghost stale: Events)
      requires Valid() && newsock >= 0
      modifies this
      ensures Valid() && Evolves(old(St()), St())
      ensures |old(slots)| == |old(hist)| && |old(pollfds)| >= |old(idxArray)|
      ensures St() == Accepted(old(St()), newsock, stale) && (old(nlisteners) > 0 ==> stale == NO_EVENTS)
    {
      hide Inv, Evolves, Opened, SocketSet;
      ghost var s := St();
      HistLength(s);
      var newidx := New();
      ghost var t := St();
      var _, garbage := SetSock(newidx, newsock, NO_FLAGS.(inbound := true));
      stale := garbage;
      EvolvesTrans(s, t, St());
    }

    /** POLLIN: reads once and passes the bytes up. */
    method GotReadable(idx: nat, fuel: nat) returns (nbytes: int, ghost m: State)
      requires Valid() && idx < |slots| && !slots[idx].flags.avail
      modifies this
      ensures Valid() && Evolves(old(St()), St())
      ensures ReadableStep(old(St()), m, St(), idx, nbytes)
      ensures old(Wiped(St(), idx)) ==> St() == old(St())
      decreases fuel, 6
    {
      ghost var s := St();
      SlotFacts(s, idx);
      hide Inv, Evolves, SlotOk, Announced, Ended;
      nbytes := KernelRead(slots[idx].sock);
      m := s;
      if nbytes > 0 {
        CountRaw(idx, nbytes);
        hide Received;
        m := St();
        Notify(idx, Read, Read, LEVEL_INTERNAL, nbytes, fuel);
        EvolvesTrans(s, m, St());
      } else {
        GotEof(idx, fuel);
      }
    }

    method CountRaw(idx: nat, n: nat)
      requires Valid() && idx < |slots| && !slots[idx].flags.avail && !Wiped(St(), idx)
      modifies this
      ensures Valid() && Evolves(old(St()), St()) && pending == old(pending)
      ensures idx < |old(hist)| == |old(slots)| == |slots| && slots[idx].flags == old(slots[idx].flags)
      ensures St() == Received(old(St()), idx, n)
    {
      CountIn(idx, 0, n);
    }

    /** Acts on the events of one entry; the slot keeps its connection throughout. */
    method Dispatch(idx: nat, revents: Events, fuel: nat) returns (ghost a: State, ghost b: State)
      requires Valid() && depth > 0
      requires idx < |slots| == |hist| && slots[idx].sock != -1
      modifies this
      ensures Valid() && Evolves(old(St()), St())
      ensures idx < |hist| && idx < |old(hist)| && hist[idx].gen == old(hist[idx].gen)
      ensures idx < |old(slots)| && Acted(old(St()), a, b, St(), idx, revents)
      decreases fuel, 8
    {
      hide Inv, Evolves, PolloutStep, PollinStep, Ended;
      ghost var s := St();
      SlotFacts(s, idx);
      var flags := slots[idx].flags;
      ActOut(idx, revents.pout, flags.connecting, fuel);
      a := St();
      EvolvesFacts(s, a, idx);
      ActIn(idx, revents.pin, flags.server, fuel);
      b := St();
      EvolvesTrans(s, a, b);
      EvolvesFacts(s, b, idx);
      if revents.err {
        GotEof(idx, fuel);
        EvolvesTrans(s, b, St());
        EvolvesFacts(s, St(), idx);
      }
    }

    /** The POLLOUT branch of the event loop. */
    method ActOut(idx: nat, reported: bool, connecting: bool, fuel: nat)
      requires Valid() && idx < |slots| && !slots[idx].flags.avail
      requires connecting == slots[idx].flags.connecting && slots[idx].sock != -1
      modifies this
      ensures Valid() && Evolves(old(St()), St())
      ensures PolloutStep(old(St()), St(), idx, reported, connecting)
      decreases fuel, 7
    {
      hide Inv, Evolves, WritableStep, ClientStep;
      HistLength(St());
      EvolvesSelf(St());
      if reported {
        if connecting {
          var _, _ := GotWritableClient(idx, fuel);
        } else {
          var _, _ := GotWritable(idx, fuel);
        }
      }
    }

    /** The POLLIN branch; the flags were read before the POLLOUT branch. */
    method ActIn(idx: nat, reported: bool, server: bool, fuel: nat)
      requires Valid() && idx < |slots| && !slots[idx].flags.avail
      modifies this
      ensures Valid() && Evolves(old(St()), St())
      ensures PollinStep(old(St()), St(), idx, reported, server)
      decreases fuel, 7
    {
      hide Inv, Evolves, ReadableStep, ServerStep;
      HistLength(St());
      EvolvesSelf(St());
      if reported {
        if server {
          var _, _, _ := GotReadableServer(idx, fuel);
        } else {
          var _, _ := GotReadable(idx, fuel);
        }
      }
    }

    /** Polls and acts on what was reported, which leaves `v`; the outermost call then frees slots deleted meanwhile.
        From an on_delete callback of a deletion made outside every update_all that may go wrong: see SweepKeepsIff.
        What is acted on is in the trace `ts`: see GenuineIfKept and EventsServed. */
    method UpdateAll(fuel: nat) returns (ghost v: State, ghost answer: int, ghost ts: seq<State>)
      requires Valid()
      modifies this
      ensures Inv(v) && Evolves(old(St()), v) && St() == if v.depth == 0 then Swept(v) else v
      ensures Served(old(St()).(depth := old(depth) + 1), answer, ts) && v == Final(ts).(depth := old(depth))
      ensures old(depth > 0 || pending == {}) ==> Valid() && Evolves(old(St()), St())
      ensures old(depth == 0) ==> (Valid() <==> SweepSafe(v)) && ndeleted == 0
      ensures old(depth == 0 && pending == {}) ==> forall x :: 0 <= x < |slots| ==> !slots[x].flags.deleted
      decreases fuel, 11
    {
      hide Inv, Evolves, Answered, Served, Swept, SweepSafe;
      ghost var s := St();
      ghost var u := s.(depth := s.depth + 1);
      DepthKeeps(s, s.depth + 1);
      depth := depth + 1;
      assert St() == u;
      var n := KernelPoll();
      answer := n;
      if n < 0 {
        n := |idxArray|;
      }
      ts := RunLoop(n, fuel, u, answer);
      EvolvesDepth(u, St());
      v := LeaveRound(s);
    }

    /** The loop of update_all, from the answer of its poll in `s` on. */
    method RunLoop(budget: nat, fuel: nat, ghost s: State, ghost answer: int) returns (ghost ts: seq<State>)
      requires Inv(s) && Valid() && Evolves(s, St()) && Answered(s, St(), answer) && depth > 0
      requires budget == Budget(s, answer)
      modifies this
      ensures Valid() && Evolves(s, St())
      ensures Served(s, answer, ts) && Final(ts) == St()
      decreases fuel, 10
    {
      hide Inv, Evolves, Answered, Turn, Turns, Acts;
      ts := [St()];
      TurnsStart(St());
      var n, i := budget, 0;
      while n > 0 && i < |idxArray|
        invariant Valid() && Evolves(s, St()) && depth > 0 && n >= 0
        invariant |ts| == i + 1 && Turns(ts) && Final(ts) == St() && Answered(s, ts[0], answer)
        invariant n == budget - Acts(ts)
        invariant i > 0 ==> Acts(ts[..i]) < budget
        decreases n, |idxArray| - i
      {
        ghost var t := St();
        var active := TakeTurn(i, fuel);
        EvolvesTrans(s, t, St());
        EvolvesDepth(t, St());
        TurnsGrow(ts, St());
        ts := ts + [St()];
        if active {
          n := n - 1;
        }
        i := i + 1;
      }
    }

    /** One turn of the loop. */
    method TakeTurn(i: nat, fuel: nat) returns (active: bool)
      requires Valid() && depth > 0 && i < |idxArray|
      modifies this
      ensures Valid() && Evolves(old(St()), St())
      ensures Turn(old(St()), St(), i) && active == old(Shows(St(), i))
      ensures !active ==> St() == old(St())
      decreases fuel, 9
    {
      hide Inv, Evolves, Acted;
      ghost var t := St();
      HistLength(t);
      EntryFacts(t, i);
      EvolvesSelf(t);
      var revents := pollfds[i].revents;
      active := revents != NO_EVENTS;
      if active {
        var a, b := Dispatch(idxArray[i], revents, fuel);
      }
    }

    /** The end of update_all, on the way back to the depth before; `s` is the state it was called in. */
    method LeaveRound(ghost s: State) returns (ghost v: State)
      requires Inv(s) && Valid() && Evolves(s.(depth := s.depth + 1), St()) && depth > 0
      modifies this
      ensures Inv(v) && Evolves(s, v) && St() == if v.depth == 0 then Swept(v) else v
      ensures v == old(St()).(depth := s.depth)
      ensures s.depth > 0 || s.pending == {} ==> Valid() && Evolves(s, St())
      ensures s.depth == 0 ==> (Valid() <==> SweepSafe(v)) && ndeleted == 0
      ensures s.depth == 0 && s.pending == {} ==> forall x :: 0 <= x < |slots| ==> !slots[x].flags.deleted
    {
      ghost var t := St();
      hide Inv, Evolves, Sweep;
      EvolvesDepth(s.(depth := s.depth + 1), t);
      DepthKeeps(t, s.depth);
      LoopEvolves(s, t);
      v := t.(depth := s.depth);
      HistLength(v);
      depth := depth - 1;
      assert St() == v;
      if depth == 0 {
        SweepKeepsIff(v);
        NoneLeft(v);
        CounterRight(v);
        if SweepSafe(v) {
          EvolvesTrans(s, v, Swept(v));
        }
        if ndeleted > 0 {
          SweepDeleted();
        }
        assert St() == Swept(v);
      }
    }

    /** Frees DELETED slots until the counter runs out, which it does: there are at least as many. */
    method SweepDeleted()
      requires CountDeleted(slots) >= ndeleted
      modifies this
      ensures St() == Swept(old(St()))
    {
      ghost var s := St();
      hide Sweep;
      var i := 0;
      assert slots[0..] == slots;
      while ndeleted > 0 && i < |slots|
        invariant i <= |slots| == |s.slots|
        invariant St() == s.(slots := slots, ndeleted := ndeleted)
        invariant Sweep(s.slots, s.ndeleted) == slots[..i] + Sweep(slots[i..], ndeleted)
        invariant CountDeleted(slots[i..]) >= ndeleted
      {
        SweepStep(slots, i, ndeleted);
        if slots[i].flags.deleted {
          slots := slots[i := slots[i].(flags := NO_FLAGS.(avail := true))];
          ndeleted := ndeleted - 1;
        }
        i := i + 1;
      }
      assert slots == slots[..i] + slots[i..];
      SweepOut(slots[i..], ndeleted);
      ndeleted := 0;
    }

    // ----- runs -----

    /** Any one call into the layer, with any arguments its callers may pass. */
    method OneCall(fuel: nat)
      requires Valid()
      modifies this
      ensures Valid() && Evolves(old(St()), St())
      decreases fuel, 12
    {
      ghost var s := St();
      HistLength(s);
      EvolvesSelf(s);
      hide Inv, Evolves;
      var which: nat := *;
      var idx: int := *;
      if which == 0 {
        var _ := DeleteSlot(idx, fuel);
      } else if which == 1 {
        var memory: seq<Byte>, len: int := *, *;
        if if len < 0 then 0 in memory else len <= |memory| {
          var _ := WriteData(idx, memory, len, fuel);
        }
      } else if which == 2 {
        if depth > 0 || pending == {} {
          var _, _, _ := UpdateAll(fuel);
        }
      } else if which == 3 {
        if 0 <= idx < |slots| && !slots[idx].flags.avail {
          Forward(idx, fuel);
        }
      } else {
        Manage(idx);
      }
    }

    /** A filter handing an event or a write on, from whatever level it likes. */
    method Forward(idx: nat, fuel: nat)
      requires Valid() && idx < |slots| && !slots[idx].flags.avail
      modifies this
      ensures Valid() && Evolves(old(St()), St())
      decreases fuel, 6
    {
      ghost var s := St();
      SlotFacts(s, idx);
      EvolvesSelf(s);
      var level: int := *;
      var kind: EventKind := *;
      if kind == Write {
        var data: seq<Byte> := *;
        var _ := OnWrite(idx, level, data, fuel);
      } else if kind != Read || slots[idx] != WIPED {
        var len: nat := *;
        var tested: EventKind := *;
        Notify(idx, tested, kind, level, len, fuel);
      }
    }

    /** The calls that make no callbacks. */
    method Manage(idx: int)
      requires Valid()
      modifies this
      ensures Valid() && Evolves(old(St()), St())
    {
      ghost var s := St();
      HistLength(s);
      EvolvesSelf(s);
      hide Inv, Evolves;
      var which: nat := *;
      var n: int := *;
      if which == 0 {
        var _ := New();
      } else if which == 1 {
        var f: Flags := *;
        if ConnFlags(f) {
          var _, _ := SetSock(idx, n, f);
        }
      } else if which == 2 {
        var _ := Close(idx);
      } else if which == 3 {
        var f: Filter := *;
        var d: nat := *;
        var _ := AttachFilter(idx, f, d);
      } else if which == 4 {
        var f: Filter := *;
        var _, _ := DetachFilter(idx, f);
      } else if which == 5 {
        AttachListener(n);
      } else if which == 6 {
        DetachListener(n);
      } else if which == 7 {
        var h: Handler := *;
        var d: nat := *;
        var _ := SetHandler(idx, h, d);
      } else {
        var _ := SetReading(idx, which == 8);
      }
    }

    method SetHandler(idx: int, handler: Handler, data: nat) returns (r: int)
      requires Valid()
      modifies this
      ensures Valid() && Evolves(old(St()), St())
      ensures !old(IsValid(idx)) ==> r == -1 && St() == old(St())
      ensures old(IsValid(idx)) ==>
        && r == 0 && idx < |old(hist)| == |old(slots)|
        && St() == Put(old(St()), idx, old(slots[idx]).(handler := handler, userData := data), old(hist[idx]))
    {
      ghost var s := St();
      if !IsValid(idx) {
        EvolvesSelf(s);
        return -1;
      }
      SlotFacts(s, idx);
      var b := slots[idx].(handler := handler, userData := data);
      BookkeepingKeeps(s, idx, b);
      hide Inv, Evolves, SlotOk;
      slots := slots[idx := b];
      assert hist[idx := hist[idx]] == hist;
      assert St() == Put(s, idx, b, hist[idx]);
      r := 0;
    }

    /** Turns POLLIN for a slot's entry on or off. */
    method SetReading(idx: int, on: bool) returns (r: int)
      requires Valid()
      modifies this
      ensures Valid() && Evolves(old(St()), St())
      ensures |old(pollfds)| >= |old(idxArray)|
      ensures r == if old(IsValid(idx)) && old(idx >= 0 && HasEntry(St(), idx)) then 0 else -1
      ensures r == -1 ==> St() == old(St())
      ensures r == 0 ==> St() == Reading(old(St()), idx, on)
    {
      ghost var s := St();
      HistLength(s);
      EvolvesSelf(s);
      if !IsValid(idx) {
        return -1;
      }
      var i := FindEntry(idx);
      if i == |idxArray| {
        return -1;
      }
      ReadingKeeps(s, idx, on);
      hide Inv, Evolves;
      pollfds := pollfds[i := pollfds[i].(events := pollfds[i].events.(pin := on))];
      assert St() == Reading(s, idx, on);
      r := 0;
    }
  }

  /** A whole run: any number of calls, with callbacks calling back in at any depth. Between two of them every
      live connection has delivered in order what was submitted (unless a socket was set under waiting bytes),
      the poll table lists exactly the open slots, and the count of DELETED slots is right. */
  method Session(calls: nat, fuel: nat) returns (sb: Sockbufs)
    ensures fresh(sb) && sb.Valid() && sb.depth == 0 && sb.pending == {}
    ensures |sb.hist| == |sb.slots| && |sb.pollfds| == |sb.idxArray| + |sb.listeners|
    ensures forall x :: 0 <= x < |sb.slots| && sb.slots[x].Live() && !sb.hist[x].misused ==>
      && sb.hist[x].submitted == sb.hist[x].sent + sb.slots[x].data
      && sb.slots[x].rawOut + |sb.slots[x].data| == |sb.hist[x].submitted|
    ensures forall x :: x in sb.idxArray <==>
      0 <= x < |sb.slots| && sb.slots[x].Live() && sb.slots[x].sock != -1
    ensures CountDeleted(sb.slots) == sb.ndeleted
  {
    sb := new Sockbufs();
    var n := calls;
    while n > 0
      invariant sb.Valid() && sb.depth == 0 && sb.pending == {} && fresh(sb)
    {
      ghost var s := sb.St();
      sb.OneCall(fuel);
      EvolvesDepth(s, sb.St());
      n := n - 1;
    }
    AtRest(sb.St());
  }

  /** A run in which an on_delete callback, outside every update_all, deletes another connection and then calls
      update_all: whatever the kernel answers, that frees the first slot in the middle of its deletion. */
  method UpdateInsideDelete(fuel: nat) returns (sb: Sockbufs)
    ensures fresh(sb) && sb.pending == {0} && |sb.slots| > 1 && sb.slots[0].flags.avail && sb.ndeleted == 0
    ensures !sb.Valid()
  {
    hide Inv, Evolves, Served, Swept, SweepSafe, SlotOk, Put, DeleteBegun, AllTold;
    sb := OpenTwo();
    BeginDelete(sb);
    ghost var r := sb.St();
    var _ := sb.DeleteSlot(1, fuel);
    ghost var s := sb.St();
    EvolvesDepth(r, s);
    var v, answer, ts := sb.UpdateAll(fuel);
    DeletedTogether(s, v, answer, ts);
  }

  method OpenTwo() returns (sb: Sockbufs)
    ensures fresh(sb) && sb.Valid() && sb.depth == 0 && sb.pending == {}
    ensures |sb.slots| == |sb.hist| == 5 && sb.slots[0] == OPENED && sb.slots[1] == OPENED
  {
    hide Inv, Evolves;
    sb := new Sockbufs();
    var _ := sb.New();
    FirstAvailIs(sb.slots, 1);
    var _ := sb.New();
  }

  /** sockbuf_delete on slot 0 up to its on_delete callback. */
  method BeginDelete(sb: Sockbufs)
    requires sb.Valid() && sb.depth == 0 && sb.pending == {}
    requires |sb.slots| == |sb.hist| == 5 && sb.slots[0] == OPENED && sb.slots[1] == OPENED
    modifies sb
    ensures sb.Valid() && sb.depth == 0 && sb.pending == {0} && |sb.slots| == 5
    ensures sb.slots[0] == DYING && sb.slots[1] == OPENED
    ensures sb.calls != [] && sb.calls[|sb.calls| - 1] == Call(0, sb.hist[0].gen, UserCallback(NOTIFIED, 0), Delete)
  {
    hide Inv, Evolves;
    var _ := sb.SetHandler(0, NOTIFIED, 0);
    DeleteBegunKeeps(sb.St(), 0);
    sb.MarkDeleted(0);
    ghost var c := Call(0, sb.hist[0].gen, UserCallback(NOTIFIED, 0), Delete);
    CalledEvolves(sb.St(), c);
    sb.calls := sb.calls + [c];
  }

  lemma DeletedTogether(s: State, v: State, answer: int, ts: seq<State>)
    requires Inv(s) && s.depth == 0 && s.pending == {0} && |s.slots| > 1 && s.slots[1].flags.deleted
    requires Served(s.(depth := 1), answer, ts) && v == Final(ts).(depth := 0)
    ensures |Swept(v).slots| > 1 && Swept(v).slots[0].flags.avail && !SweepSafe(v) && Swept(v).pending == {0}
  {
    var u, w := s.(depth := 1), Final(ts);
    hide Inv, Evolves, Served, SweepSafe, SlotOk;
    DepthKeeps(s, 1);
    ServedEvolves(u, answer, ts);
    EvolvesDepth(u, w);
    NoReuseWithinRound(u, w, 1, Delete, Delete, 0);
    SecondIsCounted(w);
    DepthKeeps(w, 0);
    FirstSlotIsFreed(v);
  }
}
