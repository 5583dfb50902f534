/** Filter chains of c-cpp/onethread/sockbuf.c: how attaching keeps them ordered, and which filters an
    event meets when every filter hands the event on at its own level.
 */
module Filters {
  import opened Sequences

  datatype EventKind = Connect | Eof | NewClient | Read | Write | Written | Delete

  /** `id` stands for the filter's address; `hears` are its non-NULL callbacks. */
  datatype Filter = Filter(id: nat, level: int, hears: set<EventKind>)

  const LEVEL_INTERNAL: int := -1
  const LEVEL_WRITE_INTERNAL: int := 1000000

  ghost predicate Sorted(fs: seq<Filter>) {
    forall i, j :: 0 <= i < j < |fs| ==> fs[i].level <= fs[j].level
  }

  // ----- attaching and detaching -----

  /** In front of the first filter of a higher level, so behind its equals. */
  function AttachPos(fs: seq<Filter>, f: Filter): (i: nat)
    ensures i <= |fs| && (forall j :: 0 <= j < i ==> fs[j].level <= f.level)
    ensures i < |fs| ==> f.level < fs[i].level
  {
    if fs == [] || f.level < fs[0].level then 0 else 1 + AttachPos(fs[1..], f)
  }

  lemma AttachPosIs(fs: seq<Filter>, f: Filter, i: nat)
    requires i <= |fs| && (forall j :: 0 <= j < i ==> fs[j].level <= f.level)
    requires i < |fs| ==> f.level < fs[i].level
    ensures AttachPos(fs, f) == i
  {
  }

  /** Attaching keeps the order by level, and among equals the order of arrival. */
  lemma AttachKeepsSorted(fs: seq<Filter>, f: Filter)
    requires Sorted(fs)
    ensures var i := AttachPos(fs, f);
      && Sorted(InsertAt(fs, i, f))
      && (forall j :: 0 <= j < |fs| ==> (j < i <==> fs[j].level <= f.level))
  {
    var i := AttachPos(fs, f);
    forall j | i <= j < |fs| ensures f.level < fs[j].level {
      assert fs[i].level <= fs[j].level;
    }
  }

  lemma DetachKeepsSorted(fs: seq<Filter>, i: nat)
    requires Sorted(fs) && i < |fs|
    ensures Sorted(RemoveAt(fs, i))
  {
  }

  /** Detaching a filter just attached takes out its first occurrence. That undoes the attaching, and hands back the
      client data given with it, exactly if no other comes before: from its first occurrence on, up to the new one,
      there is nothing but the same filter with the same data. */
  lemma DetachUndoesAttach(fs: seq<Filter>, data: seq<nat>, f: Filter, d: nat)
    requires |fs| == |data| && Sorted(fs)
    ensures var i := AttachPos(fs, f);
      var gs, e := InsertAt(fs, i, f), InsertAt(data, i, d);
      var k := Pos(gs, f);
      && k < |gs| == |e| && k == (if f in fs then Pos(fs, f) else i)
      && (e[k] == d && RemoveAt(gs, k) == fs && RemoveAt(e, k) == data
          <==> forall j :: Pos(fs, f) <= j < i ==> fs[j] == f && data[j] == d)
  {
    hide InsertAt, RemoveAt, AttachPos, Pos;
    var i, first := AttachPos(fs, f), Pos(fs, f);
    FirstAfterInsert(fs, i, f);
    if f in fs {
      assert first < i;
      UndoneWhenSame(fs, i, f, first);
      UndoneWhenSame(data, i, d, first);
    } else {
      InsertThenRemove(fs, i, f);
      InsertThenRemove(data, i, d);
    }
  }

  lemma InsertThenRemove<T>(a: seq<T>, i: nat, x: T)
    requires i <= |a|
    ensures RemoveAt(InsertAt(a, i, x), i) == a
  {
    hide InsertAt, RemoveAt;
    var r := RemoveAt(InsertAt(a, i, x), i);
    assert forall j :: 0 <= j < |a| ==> r[j] == a[j];
  }

  lemma FirstAfterInsert(fs: seq<Filter>, i: nat, f: Filter)
    requires i <= |fs| && (f in fs ==> Pos(fs, f) < i)
    ensures Pos(InsertAt(fs, i, f), f) == if f in fs then Pos(fs, f) else i
  {
    hide InsertAt, Pos;
    var gs, k := InsertAt(fs, i, f), if f in fs then Pos(fs, f) else i;
    forall j | 0 <= j < k ensures gs[j] != f {
      assert gs[j] == fs[j];
    }
    PosIs(gs, f, k);
  }

  /** Inserting `x` at `i` and removing position `k` before it changes nothing exactly if there is only `x` in between,
      once the removed one is `x` too. */
  lemma UndoneWhenSame<T>(a: seq<T>, i: nat, x: T, k: nat)
    requires k < i <= |a|
    ensures a[k] == x && RemoveAt(InsertAt(a, i, x), k) == a <==> forall j :: k <= j < i ==> a[j] == x
  {
    hide InsertAt, RemoveAt;
    var r := RemoveAt(InsertAt(a, i, x), k);
    assert |r| == |a|;
    assert forall j :: 0 <= j < k ==> r[j] == a[j];
    assert forall j :: i <= j < |a| ==> r[j] == a[j];
    assert forall j :: k <= j < i - 1 ==> r[j] == a[j + 1];
    assert r[i - 1] == x;
    if a[k] == x && r == a {
      AllSame(a, i, x, k);
    }
  }

  lemma {:induction false} AllSame<T>(a: seq<T>, i: nat, x: T, k: nat)
    requires k < i <= |a| && a[i - 1] == x && forall j :: k <= j < i - 1 ==> a[j] == a[j + 1]
    ensures forall j :: k <= j < i ==> a[j] == x
    decreases i
  {
    if k < i - 1 {
      AllSame(a, i - 1, x, k);
    }
  }

  // ----- who is called -----

  predicate Hears(f: Filter, kind: EventKind) { kind in f.hears }

  /** The first filter beyond `level` that hears the event, or the length. */
  function NextUp(fs: seq<Filter>, kind: EventKind, level: int): (i: nat)
    ensures i <= |fs|
    ensures i < |fs| ==> Hears(fs[i], kind) && fs[i].level > level
    ensures forall j :: 0 <= j < i ==> !(Hears(fs[j], kind) && fs[j].level > level)
  {
    if fs == [] || (Hears(fs[0], kind) && fs[0].level > level) then 0 else 1 + NextUp(fs[1..], kind, level)
  }

  lemma NextUpIs(fs: seq<Filter>, kind: EventKind, level: int, i: nat)
    requires i <= |fs| && (i < |fs| ==> Hears(fs[i], kind) && fs[i].level > level)
    requires forall j :: 0 <= j < i ==> !(Hears(fs[j], kind) && fs[j].level > level)
    ensures NextUp(fs, kind, level) == i
  {
  }

  /** One more than the last filter short of `level` that hears writes, or 0. */
  function NextDown(fs: seq<Filter>, level: int): (i: nat)
    ensures i <= |fs|
    ensures i > 0 ==> Hears(fs[i - 1], Write) && fs[i - 1].level < level
    ensures forall j :: i <= j < |fs| ==> !(Hears(fs[j], Write) && fs[j].level < level)
  {
    if fs == [] then 0
    else
      var n := |fs| - 1;
      if Hears(fs[n], Write) && fs[n].level < level then n + 1 else NextDown(fs[..n], level)
  }

  lemma NextDownIs(fs: seq<Filter>, level: int, i: nat)
    requires i <= |fs| && (i > 0 ==> Hears(fs[i - 1], Write) && fs[i - 1].level < level)
    requires forall j :: i <= j < |fs| ==> !(Hears(fs[j], Write) && fs[j].level < level)
    ensures NextDown(fs, level) == i
  {
  }

  // ----- whole runs -----

  /** How many filters lie beyond `level` on the way up, or short of it on the way down. */
  function Remaining(fs: seq<Filter>, level: int, up: bool): nat {
    if fs == [] then 0
    else (if (if up then fs[0].level > level else fs[0].level < level) then 1 else 0) + Remaining(fs[1..], level, up)
  }

  lemma {:induction false} RemainingFalls(fs: seq<Filter>, from: int, to: int, up: bool)
    requires if up then from <= to else to <= from
    ensures Remaining(fs, to, up) <= Remaining(fs, from, up)
    ensures (exists f :: f in fs && f.level == to) && from != to ==> Remaining(fs, to, up) < Remaining(fs, from, up)
  {
    if fs != [] {
      RemainingFalls(fs[1..], from, to, up);
      assert forall f :: f in fs <==> f == fs[0] || f in fs[1..];
    }
  }

  type Octets = seq<int>

  /** What a transfer leaves behind: the bytes that arrive, and which filters they went through, in order. */
  datatype Run = Run(bytes: Octets, path: seq<nat>)

  /** sockbuf_on_read from `level`, when each filter it meets transforms the bytes and calls it at its own level. */
  function ReadRun(fs: seq<Filter>, level: int, x: Octets, read: (Filter, Octets) -> Octets): Run
    decreases Remaining(fs, level, true)
  {
    var i := NextUp(fs, Read, level);
    if i == |fs| then Run(x, [])
    else
      RemainingFalls(fs, level, fs[i].level, true);
      var r := ReadRun(fs, fs[i].level, read(fs[i], x), read);
      Run(r.bytes, [i] + r.path)
  }

  /** sockbuf_on_write from `level`, likewise. */
  function WriteRun(fs: seq<Filter>, level: int, x: Octets, write: (Filter, Octets) -> Octets): Run
    decreases Remaining(fs, level, false)
  {
    var i := NextDown(fs, level);
    if i == 0 then Run(x, [])
    else
      RemainingFalls(fs, level, fs[i - 1].level, false);
      var r := WriteRun(fs, fs[i - 1].level, write(fs[i - 1], x), write);
      Run(r.bytes, [i - 1] + r.path)
  }

  /** A filter hears the event unless another of its level comes before it on the way. */
  ghost predicate Reached(fs: seq<Filter>, kind: EventKind, level: int, up: bool, i: nat) {
    && i < |fs| && Hears(fs[i], kind)
    && (if up then fs[i].level > level else fs[i].level < level)
    && forall j :: 0 <= j < |fs| && Hears(fs[j], kind) && fs[j].level == fs[i].level ==>
         if up then i <= j else j <= i
  }

  ghost predicate Increasing(p: seq<nat>) {
    forall a, b :: 0 <= a < b < |p| ==> p[a] < p[b]
  }

  ghost predicate Decreasing(p: seq<nat>) {
    forall a, b :: 0 <= a < b < |p| ==> p[a] > p[b]
  }

  lemma ReadRunStep(fs: seq<Filter>, level: int, x: Octets, read: (Filter, Octets) -> Octets)
    ensures var i := NextUp(fs, Read, level);
      ReadRun(fs, level, x, read) ==
      if i == |fs| then Run(x, [])
      else var r := ReadRun(fs, fs[i].level, read(fs[i], x), read); Run(r.bytes, [i] + r.path)
  {
  }

  lemma WriteRunStep(fs: seq<Filter>, level: int, x: Octets, write: (Filter, Octets) -> Octets)
    ensures var i := NextDown(fs, level);
      WriteRun(fs, level, x, write) ==
      if i == 0 then Run(x, [])
      else var r := WriteRun(fs, fs[i - 1].level, write(fs[i - 1], x), write); Run(r.bytes, [i - 1] + r.path)
  {
  }

  lemma ConsIncreasing(k: nat, path: seq<nat>)
    requires Increasing(path) && forall j :: j in path ==> k < j
    ensures Increasing([k] + path)
  {
    var p := [k] + path;
    forall a, b | 0 <= a < b < |p| ensures p[a] < p[b] {
      assert p[b] == path[b - 1] && path[b - 1] in path;
    }
  }

  lemma ConsDecreasing(k: nat, path: seq<nat>)
    requires Decreasing(path) && forall j :: j in path ==> j < k
    ensures Decreasing([k] + path)
  {
    var p := [k] + path;
    forall a, b | 0 <= a < b < |p| ensures p[a] > p[b] {
      assert p[b] == path[b - 1] && path[b - 1] in path;
    }
  }

  /** A read meets the reached filters, in ascending order, each once. */
  lemma {:induction false} ReadOrder(fs: seq<Filter>, level: int, x: Octets, read: (Filter, Octets) -> Octets)
    requires Sorted(fs)
    ensures var path := ReadRun(fs, level, x, read).path;
      && Increasing(path)
      && (forall i :: i in path <==> Reached(fs, Read, level, true, i))
    decreases Remaining(fs, level, true)
  {
    hide ReadRun, NextUp, Remaining, Reached, Increasing;
    ReadRunStep(fs, level, x, read);
    var i := NextUp(fs, Read, level);
    if i < |fs| {
      var next := fs[i].level;
      RemainingFalls(fs, level, next, true);
      ReadOrder(fs, next, read(fs[i], x), read);
      var rest := ReadRun(fs, next, read(fs[i], x), read).path;
      forall k ensures k in [i] + rest <==> Reached(fs, Read, level, true, k) {
        ReachedFirst(fs, level, i, k);
      }
      forall k | k in rest ensures i < k {
        ReachedAfter(fs, i, k);
      }
      ConsIncreasing(i, rest);
    } else {
      NoneReachedUp(fs, level);
    }
  }

  lemma ReachedAfter(fs: seq<Filter>, i: nat, k: nat)
    requires Sorted(fs) && i < |fs| && Reached(fs, Read, fs[i].level, true, k)
    ensures i < k
  {
  }

  lemma NoneReachedUp(fs: seq<Filter>, level: int)
    requires NextUp(fs, Read, level) == |fs|
    ensures forall k :: !Reached(fs, Read, level, true, k)
    ensures Increasing([])
  {
    hide NextUp;
  }

  lemma ReachedFirst(fs: seq<Filter>, level: int, i: nat, k: nat)
    requires Sorted(fs) && i == NextUp(fs, Read, level) < |fs|
    ensures Reached(fs, Read, level, true, k) <==> k == i || Reached(fs, Read, fs[i].level, true, k)
  {
    hide NextUp;
    if k < |fs| && k != i && Hears(fs[k], Read) && fs[k].level > level {
      assert i < k;
    }
  }

  /** A write meets the reached filters, in descending order, each once. */
  lemma {:induction false} WriteOrder(fs: seq<Filter>, level: int, x: Octets, write: (Filter, Octets) -> Octets)
    requires Sorted(fs)
    ensures var path := WriteRun(fs, level, x, write).path;
      && Decreasing(path)
      && (forall i :: i in path <==> Reached(fs, Write, level, false, i))
    decreases Remaining(fs, level, false)
  {
    hide WriteRun, NextDown, Remaining, Reached, Decreasing;
    WriteRunStep(fs, level, x, write);
    var i := NextDown(fs, level);
    if i > 0 {
      var next := fs[i - 1].level;
      RemainingFalls(fs, level, next, false);
      WriteOrder(fs, next, write(fs[i - 1], x), write);
      var rest := WriteRun(fs, next, write(fs[i - 1], x), write).path;
      forall k ensures k in [i - 1] + rest <==> Reached(fs, Write, level, false, k) {
        ReachedLast(fs, level, i, k);
      }
      forall k | k in rest ensures k < i - 1 {
        ReachedBelow(fs, i, k);
      }
      ConsDecreasing(i - 1, rest);
    } else {
      NoneReachedDown(fs, level);
    }
  }

  lemma ReachedBelow(fs: seq<Filter>, i: nat, k: nat)
    requires Sorted(fs) && 0 < i <= |fs| && Reached(fs, Write, fs[i - 1].level, false, k)
    ensures k < i - 1
  {
  }

  lemma NoneReachedDown(fs: seq<Filter>, level: int)
    requires NextDown(fs, level) == 0
    ensures forall k :: !Reached(fs, Write, level, false, k)
    ensures Decreasing([])
  {
    hide NextDown;
  }

  lemma ReachedLast(fs: seq<Filter>, level: int, i: nat, k: nat)
    requires Sorted(fs) && i == NextDown(fs, level) > 0
    ensures Reached(fs, Write, level, false, k) <==> k == i - 1 || Reached(fs, Write, fs[i - 1].level, false, k)
  {
    if k < |fs| && k != i - 1 && Hears(fs[k], Write) && fs[k].level < level {
      assert k < i - 1;
    }
  }

  ghost predicate DistinctLevels(fs: seq<Filter>, kind: EventKind) {
    forall i, j :: 0 <= i < j < |fs| && Hears(fs[i], kind) && Hears(fs[j], kind) ==> fs[i].level != fs[j].level
  }

  /** Every filter that hears reads gets them exactly when no two of them share a level. */
  lemma AllReadIffDistinct(fs: seq<Filter>, x: Octets, read: (Filter, Octets) -> Octets)
    requires Sorted(fs) && forall f :: f in fs ==> f.level > LEVEL_INTERNAL
    ensures (forall i :: 0 <= i < |fs| && Hears(fs[i], Read) ==> i in ReadRun(fs, LEVEL_INTERNAL, x, read).path)
      <==> DistinctLevels(fs, Read)
  {
    var path := ReadRun(fs, LEVEL_INTERNAL, x, read).path;
    ReadOrder(fs, LEVEL_INTERNAL, x, read);
    if DistinctLevels(fs, Read) {
      forall i | 0 <= i < |fs| && Hears(fs[i], Read) ensures i in path {
        assert fs[i] in fs && Reached(fs, Read, LEVEL_INTERNAL, true, i);
      }
    } else {
      var i, j :| 0 <= i < j < |fs| && Hears(fs[i], Read) && Hears(fs[j], Read) && fs[i].level == fs[j].level;
      assert !Reached(fs, Read, LEVEL_INTERNAL, true, j);
    }
  }

  // ----- round trip -----

  /** All the write callbacks of a chain, last filter first. */
  function Encode(fs: seq<Filter>, x: Octets, write: (Filter, Octets) -> Octets): Octets {
    if fs == [] then x
    else
      var n := |fs| - 1;
      Encode(fs[..n], if Hears(fs[n], Write) then write(fs[n], x) else x, write)
  }

  /** All the read callbacks, first filter first. */
  function Decode(fs: seq<Filter>, x: Octets, read: (Filter, Octets) -> Octets): Octets {
    if fs == [] then x
    else Decode(fs[1..], if Hears(fs[0], Read) then read(fs[0], x) else x, read)
  }

  lemma {:induction false} EncodeFirst(fs: seq<Filter>, x: Octets, write: (Filter, Octets) -> Octets)
    requires fs != []
    ensures var y := Encode(fs[1..], x, write);
      Encode(fs, x, write) == if Hears(fs[0], Write) then write(fs[0], y) else y
    decreases |fs|
  {
    var n := |fs| - 1;
    if n > 0 {
      var z := if Hears(fs[n], Write) then write(fs[n], x) else x;
      EncodeFirst(fs[..n], z, write);
      assert fs[..n][1..] == fs[1..][..n - 1];
    } else {
      assert fs[..0] == [] && fs[1..] == [];
    }
  }

  lemma {:induction false} DecodeEncode(fs: seq<Filter>, x: Octets,
                                             read: (Filter, Octets) -> Octets, write: (Filter, Octets) -> Octets)
    requires forall f :: f in fs ==> (Hears(f, Read) <==> Hears(f, Write))
    requires forall f, y :: f in fs && Hears(f, Read) ==> read(f, write(f, y)) == y
    ensures Decode(fs, Encode(fs, x, write), read) == x
  {
    if fs != [] {
      EncodeFirst(fs, x, write);
      DecodeEncode(fs[1..], x, read, write);
    }
  }

  /** With distinct levels, the run from `level` is the whole of the chain beyond it. */
  lemma {:induction false} ReadRunIsDecode(fs: seq<Filter>, k: nat, level: int, x: Octets,
                                                read: (Filter, Octets) -> Octets)
    requires Sorted(fs) && DistinctLevels(fs, Read) && k <= |fs|
    requires forall i :: 0 <= i < k && Hears(fs[i], Read) ==> fs[i].level <= level
    requires forall i :: k <= i < |fs| && Hears(fs[i], Read) ==> fs[i].level > level
    ensures ReadRun(fs, level, x, read).bytes == Decode(fs[k..], x, read)
    decreases |fs| - k
  {
    hide ReadRun, NextUp;
    ReadRunStep(fs, level, x, read);
    if k < |fs| {
      assert fs[k..][1..] == fs[k + 1..];
      if Hears(fs[k], Read) {
        NextUpIs(fs, Read, level, k);
        ReadRunIsDecode(fs, k + 1, fs[k].level, read(fs[k], x), read);
      } else {
        ReadRunIsDecode(fs, k + 1, level, x, read);
      }
    } else {
      NextUpIs(fs, Read, level, k);
    }
  }

  lemma {:induction false} WriteRunIsEncode(fs: seq<Filter>, k: nat, level: int, x: Octets,
                                                 write: (Filter, Octets) -> Octets)
    requires Sorted(fs) && DistinctLevels(fs, Write) && k <= |fs|
    requires forall i :: 0 <= i < k && Hears(fs[i], Write) ==> fs[i].level < level
    requires forall i :: k <= i < |fs| && Hears(fs[i], Write) ==> fs[i].level >= level
    ensures WriteRun(fs, level, x, write).bytes == Encode(fs[..k], x, write)
    decreases k
  {
    hide WriteRun, NextDown;
    WriteRunStep(fs, level, x, write);
    if k > 0 {
      assert fs[..k][..k - 1] == fs[..k - 1];
      if Hears(fs[k - 1], Write) {
        NextDownIs(fs, level, k);
        WriteRunIsEncode(fs, k - 1, fs[k - 1].level, write(fs[k - 1], x), write);
      } else {
        WriteRunIsEncode(fs, k - 1, level, x, write);
      }
    } else {
      NextDownIs(fs, level, 0);
    }
  }

  /** A chain of inverse pairs at distinct levels: reading what was written gives it back. */
  lemma WriteThenRead(fs: seq<Filter>, x: Octets, read: (Filter, Octets) -> Octets, write: (Filter, Octets) -> Octets)
    requires Sorted(fs) && DistinctLevels(fs, Read)
    requires forall f :: f in fs ==> LEVEL_INTERNAL < f.level < LEVEL_WRITE_INTERNAL
    requires forall f :: f in fs ==> (Hears(f, Read) <==> Hears(f, Write))
    requires forall f, y :: f in fs && Hears(f, Read) ==> read(f, write(f, y)) == y
    ensures ReadRun(fs, LEVEL_INTERNAL, WriteRun(fs, LEVEL_WRITE_INTERNAL, x, write).bytes, read).bytes == x
  {
    forall i, j | 0 <= i < j < |fs| && Hears(fs[i], Write) && Hears(fs[j], Write)
      ensures fs[i].level != fs[j].level
    {
      assert fs[i] in fs && fs[j] in fs;
      assert Hears(fs[i], Read) && Hears(fs[j], Read);
    }
    WriteRunIsEncode(fs, |fs|, LEVEL_WRITE_INTERNAL, x, write);
    assert fs[..|fs|] == fs;
    var y := Encode(fs, x, write);
    ReadRunIsDecode(fs, 0, LEVEL_INTERNAL, y, read);
    assert fs[0..] == fs;
    DecodeEncode(fs, x, read, write);
  }
}
