/** The flag word of a slot as c-cpp/onethread/sockbuf.h numbers it, and what its roles mean to the event loop. */
module SockFlags {
  import opened Bits
  import opened Filters
  import opened Sequences
  import opened SockState
  import opened SockRound

  const BLOCK: nat := 1
  const SERVER: nat := 2
  const CLIENT: nat := 4
  const CONNECTING: nat := 8
  const INBOUND: nat := 16
  const DELETED: nat := 32
  const NOREAD: nat := 64
  const AVAIL: nat := 128

  function Bit(on: bool, value: nat): nat { if on then value else 0 }

  /** The flags as one integer. */
  function Word(f: Flags): nat {
    Bit(f.block, BLOCK) + Bit(f.server, SERVER) + Bit(f.client, CLIENT) + Bit(f.connecting, CONNECTING)
    + Bit(f.inbound, INBOUND) + Bit(f.deleted, DELETED) + Bit(f.noread, NOREAD) + Bit(f.avail, AVAIL)
  }

  lemma OrStep(p: nat, x: nat, q: nat, y: nat)
    requires p <= 1 && q <= 1
    ensures Or(p + 2 * x, q + 2 * y) == (if p == 1 || q == 1 then 1 else 0) + 2 * Or(x, y)
  {
  }

  lemma AndStep(p: nat, x: nat, q: nat, y: nat)
    requires p <= 1 && q <= 1
    ensures And(p + 2 * x, q + 2 * y) == (if p == 1 && q == 1 then 1 else 0) + 2 * And(x, y)
  {
  }

  /** `(x & mask) | y`, the lowest bit first. */
  lemma MaskStep(p: bool, x: nat, k: bool, mask: nat, q: bool, y: nat)
    ensures Or(And(Bit(p, 1) + 2 * x, Bit(k, 1) + 2 * mask), Bit(q, 1) + 2 * y) ==
      Bit((p && k) || q, 1) + 2 * Or(And(x, mask), y)
  {
    hide And, Or;
    AndStep(Bit(p, 1), x, Bit(k, 1), mask);
    OrStep(Bit(p && k, 1), And(x, mask), Bit(q, 1), y);
  }

  /** The bits sockbuf_set_sock clears. */
  function Cleared(): nat { Or(Or(Or(Or(CONNECTING, CLIENT), SERVER), BLOCK), NOREAD) }

  lemma ClearedIs()
    ensures Cleared() == 79
  {
    assert Or(1, 0) == 1 && Or(2, 1) == 3;
    assert Or(8, 4) == 12;
    assert Or(12, 2) == 14;
    assert Or(14, 1) == 15;
    assert Or(15, 64) == 79;
  }

  /** The word without its lowest `n` bits. */
  function From(f: Flags, n: nat): nat
    requires n <= 8
    decreases 8 - n
  {
    if n == 8 then 0 else Bit(Nth(f, n), 1) + 2 * From(f, n + 1)
  }

  function Nth(f: Flags, n: nat): bool {
    match n
    case 0 => f.block
    case 1 => f.server
    case 2 => f.client
    case 3 => f.connecting
    case 4 => f.inbound
    case 5 => f.deleted
    case 6 => f.noread
    case _ => f.avail
  }

  lemma FromStep(f: Flags, n: nat)
    requires n < 8
    ensures From(f, n) == Bit(Nth(f, n), 1) + 2 * From(f, n + 1)
    ensures From(f, 8) == 0
  {
  }

  lemma HighBits(f: Flags)
    ensures From(f, 4) == Bit(f.inbound, 1) + Bit(f.deleted, 2) + Bit(f.noread, 4) + Bit(f.avail, 8)
  {
    hide From;
    FromStep(f, 7);
    FromStep(f, 6);
    FromStep(f, 5);
    FromStep(f, 4);
  }

  lemma WordFrom(f: Flags)
    ensures Word(f) == From(f, 0)
  {
    hide From;
    HighBits(f);
    FromStep(f, 3);
    FromStep(f, 2);
    FromStep(f, 1);
    FromStep(f, 0);
  }

  /** sockbuf_set_sock: the word with these bits cleared, or'ed with the argument. */
  lemma FlagWord(b: Slot, sock: int, f: Flags)
    ensures Cleared() <= 255
    ensures Word(SocketSlot(b, sock, f).flags) == Or(And(Word(b.flags), 255 - Cleared()), Word(f))
  {
    hide Or, And, Cleared, Word, From, SocketSlot;
    ClearedIs();
    WordFrom(b.flags);
    WordFrom(f);
    WordFrom(SocketSlot(b, sock, f).flags);
    LevelOf(b, sock, f, 7, true, 0);
    LevelOf(b, sock, f, 6, false, 1);
    LevelOf(b, sock, f, 5, true, 2);
    LevelOf(b, sock, f, 4, true, 5);
    LevelOf(b, sock, f, 3, false, 11);
    LevelOf(b, sock, f, 2, false, 22);
    LevelOf(b, sock, f, 1, false, 44);
    LevelOf(b, sock, f, 0, false, 88);
  }

  /** One bit of it: kept where the mask has it, and set where the argument has it. */
  lemma LevelOf(b: Slot, sock: int, f: Flags, n: nat, kept: bool, mask: nat)
    requires n < 8 && (kept <==> n == 4 || n == 5 || n == 7)
    requires n < 7 ==> From(SocketSlot(b, sock, f).flags, n + 1) == Or(And(From(b.flags, n + 1), mask), From(f, n + 1))
    requires n == 7 ==> mask == 0
    ensures From(SocketSlot(b, sock, f).flags, n) ==
      Or(And(From(b.flags, n), Bit(kept, 1) + 2 * mask), From(f, n))
  {
    hide Or, And, From, SocketSlot, Nth;
    FromStep(b.flags, n);
    FromStep(f, n);
    FromStep(SocketSlot(b, sock, f).flags, n);
    MaskStep(Nth(b.flags, n), From(b.flags, n + 1), kept, mask, Nth(f, n), From(f, n + 1));
    NthSet(b, sock, f, n, kept);
    NoBitsLeft();
  }

  lemma NthSet(b: Slot, sock: int, f: Flags, n: nat, kept: bool)
    requires n < 8 && (kept <==> n == 4 || n == 5 || n == 7)
    ensures Nth(SocketSlot(b, sock, f).flags, n) == ((Nth(b.flags, n) && kept) || Nth(f, n))
  {
  }

  lemma NoBitsLeft()
    ensures Or(And(0, 0), 0) == 0
  {
  }

  /** The entry of a slot whose socket was set: POLLIN unless NOREAD is in the argument, and POLLOUT if BLOCK or
      CONNECTING is. */
  lemma SetSockWatches(s: State, x: nat, sock: int, f: Flags, stale: Events)
    requires Inv(s) && x < |s.slots| && s.slots[x].Live() && ConnFlags(f) && sock != -1
    ensures |s.hist| == |s.slots| && |s.pollfds| >= |s.idxArray|
    ensures var t := SocketSet(s, x, sock, f, stale);
      && x in t.idxArray && |t.pollfds| >= |t.idxArray| && HasEntry(t, x)
      && Entry(t, x).fd == sock && Entry(t, x).events == Events(!f.noread, f.block || f.connecting, false)
      && |t.hist| > x && t.hist[x].asked == f
  {
    hide Inv, SlotOk, Evolves, SocketSet, HasEntry;
    SlotFacts(s, x);
    WatchedAt(s, x, sock, f, stale);
  }

  lemma WatchedAt(s: State, x: nat, sock: int, f: Flags, stale: Events)
    requires x < |s.slots| == |s.hist| && |s.pollfds| >= |s.idxArray| && sock != -1
    ensures var t := SocketSet(s, x, sock, f, stale);
      && x in t.idxArray && |t.pollfds| >= |t.idxArray| && HasEntry(t, x)
      && Entry(t, x).fd == sock && Entry(t, x).events == Events(!f.noread, f.block || f.connecting, false)
      && |t.hist| > x && t.hist[x].asked == f
  {
    var t := SocketSet(s, x, sock, f, stale);
    if !HasEntry(s, x) {
      PosIs(t.idxArray, x, |s.idxArray|);
    }
  }

  /** How the event loop serves a slot, in any state the program reaches. POLLOUT completes a connection that is being
      made, and sends on any other; POLLIN is served by an accept if the socket was last set with SERVER, and else by a
      read; an error ends the connection; and what is not reported does nothing. */
  lemma EventsByRole(s: State, a: State, b: State, t: State, x: nat, revents: Events)
    requires Inv(s) && x < |s.slots| && s.slots[x].Live() && Acted(s, a, b, t, x, revents)
    ensures |s.hist| > x
    ensures revents.pout && s.slots[x].flags.connecting ==> exists m, err :: ClientStep(s, m, a, x, err)
    ensures revents.pout && !s.slots[x].flags.connecting ==> exists m, n :: WritableStep(s, m, a, x, n)
    ensures revents.pin && s.hist[x].asked.server ==> exists m, sock, stale :: ServerStep(a, m, b, x, sock, stale)
    ensures revents.pin && !s.hist[x].asked.server ==> exists m, n :: ReadableStep(a, m, b, x, n)
    ensures revents.err ==> Ended(b, t, x)
    ensures (!revents.pout ==> a == s) && (!revents.pin ==> b == a) && (!revents.err ==> t == b)
  {
    hide ServerStep, ReadableStep, ClientStep, WritableStep, Ended;
    SlotFacts(s, x);
  }
}
