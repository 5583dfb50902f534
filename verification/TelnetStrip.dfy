/** telnet_filter_read of c-cpp/onethread/telnet.c as it is written: commands are answered and cut out of the chunk in
    place, by a search that can run over the end of the chunk.
 */
module TelnetStrip {
  import opened Bytes
  import opened Options
  import opened Sequences
  import opened Telnet
  import opened TelnetReader
  import opened TelnetReplies

  // ----- running over the end -----

  /** Cutting `r` bytes out of a chunk leaves its last `r - 1` bytes behind the NUL that has moved up; `behind` is what
      lay there from the old NUL on. */
  function LeftBehind(s: seq<Byte>, r: nat, behind: seq<Byte>): seq<Byte>
    requires 0 < r <= |s| + 1
  {
    [0] + s[|s| - (r - 1)..] + behind
  }

  function Take(s: seq<Byte>, n: nat): seq<Byte> { if n <= |s| then s[..n] else s }

  /** How many bytes the first step of decoding takes, how many of text it gives, and so how many are cut out. */
  function Takes(s: seq<Byte>): (n: nat)
    requires s != []
    ensures 1 <= n <= 3
  {
    FirstStep(s, false).0
  }

  function Gives(s: seq<Byte>): (n: nat)
    requires s != []
    ensures n <= 1 && n <= Takes(s)
    ensures Takes(s) == n <==> s[0] != IAC
    ensures s[0] != IAC ==> n == 1
  {
    |FirstStep(s, false).1|
  }

  function Cuts(s: seq<Byte>): (n: nat)
    requires s != []
    ensures n <= Takes(s) && (n == 0 <==> s[0] != IAC)
  {
    Takes(s) - Gives(s)
  }

  /** Whether the program runs over the end of chunk `s`. Its search starts `cmd` bytes into the text and has come to
      position `p`, where `rest` lies before the NUL, and `behind` from the NUL on. It searches as many bytes as the
      whole text has, so `cmd` of them lie behind; and a command cut off is not cut out, so it is found again, unless
      nothing is left to search. */
  predicate Overruns(s: seq<Byte>, cmd: nat, p: nat, rest: seq<Byte>, behind: seq<Byte>)
    requires |rest| <= |s|
    decreases |rest|
  {
    if rest == [] then IAC in Take(behind, cmd)
    else if Takes(rest) > |rest| then p != 1
    else if Cuts(rest) == 0 then Overruns(s, cmd, p + 1, rest[1..], behind)
    else
      var cmd' := p + Gives(rest);
      Overruns(s, cmd', cmd', rest[Takes(rest)..], LeftBehind(s, Cuts(rest), behind))
  }

  /** The same for a whole chunk with its NUL, in front of the memory `after`. */
  predicate RunsOver(s: seq<Byte>, after: seq<Byte>) { Overruns(s, 0, 0, s, [0] + after) }

  // ----- when it does -----

  /** How many bytes are cut out for each command, in order. */
  function Removed(s: seq<Byte>): seq<nat>
    decreases |s|
  {
    if s == [] || Takes(s) > |s| then []
    else (if Cuts(s) == 0 then [] else [Cuts(s)]) + Removed(s[Takes(s)..])
  }

  /** How much text the last command leaves in front of the place where the search goes on. */
  function Mark(s: seq<Byte>): nat
    decreases |s|
  {
    if s == [] || Takes(s) > |s| || Removed(s) == [] then 0 else Gives(s) + Mark(s[Takes(s)..])
  }

  ghost predicate Amounts(rs: seq<nat>, s: seq<Byte>) {
    forall i :: 0 <= i < |rs| ==> 0 < rs[i] <= |s| + 1 && rs[i] <= 3
  }

  /** What lies behind after all of them. */
  function Behind(s: seq<Byte>, rs: seq<nat>, behind: seq<Byte>): seq<Byte>
    requires Amounts(rs, s)
  {
    if rs == [] then behind else Behind(s, rs[1..], LeftBehind(s, rs[0], behind))
  }

  lemma {:induction false} RemovedAmounts(s: seq<Byte>, whole: seq<Byte>)
    requires |s| <= |whole|
    ensures Amounts(Removed(s), whole)
    decreases |s|
  {
    if s != [] && Takes(s) <= |s| {
      RemovedAmounts(s[Takes(s)..], whole);
    }
  }

  lemma DecodeStep(s: seq<Byte>, echo: bool)
    requires s != []
    ensures Takes(s) > |s| ==> Decode(s, echo).cut && Decode(s, echo).text == []
    ensures Takes(s) <= |s| ==>
      var r := Decode(s[Takes(s)..], FirstStep(s, echo).3);
      Decode(s, echo).cut == r.cut && |Decode(s, echo).text| == Gives(s) + |r.text|
  {
    DecodeFirst(s, echo);
  }

  /** In closed form: from the amounts cut out, and the text in front of the last command. */
  lemma {:induction false} OverrunsWhen(s: seq<Byte>, cmd: nat, p: nat, rest: seq<Byte>, behind: seq<Byte>, echo: bool)
    requires |rest| <= |s|
    ensures Amounts(Removed(rest), s)
    ensures var d := Decode(rest, echo);
      Overruns(s, cmd, p, rest, behind) <==>
      if d.cut then p + |d.text| != 1
      else IAC in Take(Behind(s, Removed(rest), behind), if Removed(rest) == [] then cmd else p + Mark(rest))
    decreases |rest|
  {
    hide Decode, FirstStep, Takes, Gives, Cuts, Take, LeftBehind, Removed, Mark, Behind, Overruns;
    RemovedAmounts(rest, s);
    if rest == [] {
      Nothing(s, cmd, p, behind, echo);
    } else {
      DecodeStep(rest, echo);
      OverrunsStep(s, cmd, p, rest, behind);
      if Takes(rest) <= |rest| {
        var next, echo' := rest[Takes(rest)..], FirstStep(rest, echo).3;
        NoMark(next);
        RemovedAmounts(next, s);
        if Cuts(rest) == 0 {
          OverrunsWhen(s, cmd, p + 1, next, behind, echo');
        } else {
          var cmd' := p + Gives(rest);
          OverrunsWhen(s, cmd', cmd', next, LeftBehind(s, Cuts(rest), behind), echo');
        }
      }
    }
  }

  lemma Nothing(s: seq<Byte>, cmd: nat, p: nat, behind: seq<Byte>, echo: bool)
    ensures Overruns(s, cmd, p, [], behind) <==> IAC in Take(behind, cmd)
    ensures Removed([]) == [] && Behind(s, [], behind) == behind && !Decode([], echo).cut
  {
  }

  /** One step of everything. */
  lemma OverrunsStep(s: seq<Byte>, cmd: nat, p: nat, rest: seq<Byte>, behind: seq<Byte>)
    requires rest != [] && |rest| <= |s| && Amounts(Removed(rest), s)
    ensures Takes(rest) > |rest| ==> (Overruns(s, cmd, p, rest, behind) <==> p != 1)
    ensures Takes(rest) <= |rest| ==>
      var next := rest[Takes(rest)..];
      && Amounts(Removed(next), s)
      && (Removed(rest) != [] ==> Mark(rest) == Gives(rest) + Mark(next))
      && if Cuts(rest) == 0 then
           && Removed(rest) == Removed(next)
           && (Overruns(s, cmd, p, rest, behind) <==> Overruns(s, cmd, p + 1, next, behind))
         else
           var cmd', b := p + Gives(rest), LeftBehind(s, Cuts(rest), behind);
           && Removed(rest) == [Cuts(rest)] + Removed(next)
           && Behind(s, Removed(rest), behind) == Behind(s, Removed(next), b)
           && (Overruns(s, cmd, p, rest, behind) <==> Overruns(s, cmd', cmd', next, b))
  {
    hide FirstStep, LeftBehind, Take;
    if Takes(rest) <= |rest| {
      var next := rest[Takes(rest)..];
      RemovedAmounts(next, s);
      if Cuts(rest) > 0 {
        assert Removed(rest)[1..] == Removed(next);
      }
    }
  }

  lemma NoMark(s: seq<Byte>)
    ensures Removed(s) == [] ==> Mark(s) == 0
  {
  }

  lemma {:induction false} BehindAppend(s: seq<Byte>, rs: seq<nat>, b: seq<Byte>, x: seq<Byte>)
    requires Amounts(rs, s)
    ensures Behind(s, rs, b + x) == Behind(s, rs, b) + x
    decreases rs
  {
    if rs != [] {
      Regroup([0] + s[|s| - (rs[0] - 1)..], b, x);
      BehindAppend(s, rs[1..], LeftBehind(s, rs[0], b), x);
    }
  }

  /** Whatever lies in memory after it, a chunk is safe exactly if it ends within a command after a single byte of text,
      or within none, when the search stays among the bytes left behind and finds no IAC there. */
  lemma SafeAnywhere(s: seq<Byte>, echo: bool)
    ensures Amounts(Removed(s), s)
    ensures var d, left := Decode(s, echo), Behind(s, Removed(s), [0]);
      (forall after :: !RunsOver(s, after)) <==>
      if d.cut then |d.text| == 1 else Mark(s) <= |left| && IAC !in left[..Mark(s)]
  {
    hide Decode, Behind, Mark, Removed, RunsOver, Take;
    RemovedAmounts(s, s);
    var d, left := Decode(s, echo), Behind(s, Removed(s), [0]);
    forall after: seq<Byte>
      ensures RunsOver(s, after) <==> if d.cut then |d.text| != 1 else IAC in Take(left + after, Mark(s))
    {
      RunsOverWhen(s, after, echo);
    }
    var m := Mark(s);
    if m > |left| {
      TakePast(left, [IAC], m);
      assert RunsOver(s, [IAC]) || d.cut;
    } else {
      forall after: seq<Byte> ensures Take(left + after, m) == left[..m] {
        TakePast(left, after, m);
      }
    }
    assert RunsOver(s, []) <==> if d.cut then |d.text| != 1 else IAC in Take(left + [], m);
  }

  lemma TakePast(left: seq<Byte>, after: seq<Byte>, m: nat)
    ensures m <= |left| ==> Take(left + after, m) == left[..m]
    ensures m > |left| && after == [IAC] ==> IAC in Take(left + after, m)
  {
    if m > |left| && after == [IAC] {
      assert (left + after)[|left|] == IAC && Take(left + after, m)[|left|] == IAC;
    }
  }

  lemma RunsOverWhen(s: seq<Byte>, after: seq<Byte>, echo: bool)
    ensures Amounts(Removed(s), s)
    ensures var d, left := Decode(s, echo), Behind(s, Removed(s), [0]);
      RunsOver(s, after) <==> if d.cut then |d.text| != 1 else IAC in Take(left + after, Mark(s))
  {
    hide Decode, Behind, Mark, Removed, Overruns, Take;
    OverrunsWhen(s, 0, 0, s, [0] + after, echo);
    NoMark(s);
    BehindAppend(s, Removed(s), [0], after);
  }

  /** A chunk without commands is safe. */
  lemma SafeWithoutCommands(s: seq<Byte>, after: seq<Byte>)
    requires IAC !in s
    ensures !RunsOver(s, after)
  {
    OverrunsWhen(s, 0, 0, s, [0] + after, false);
    NothingRemoved(s);
    NotCut(s);
  }

  lemma {:induction false} NothingRemoved(s: seq<Byte>)
    requires IAC !in s
    ensures Removed(s) == []
  {
    if s != [] {
      NothingRemoved(s[1..]);
    }
  }

  lemma {:induction false} NotCut(s: seq<Byte>)
    requires IAC !in s
    ensures !Decode(s, false).cut
  {
    if s != [] {
      NotCut(s[1..]);
    }
  }

  /** And so is one that ends within no command, has no IAC among its last two bytes, and none in as many bytes behind
      it as it has itself. */
  lemma SafeWhen(s: seq<Byte>, after: seq<Byte>)
    requires !Decode(s, false).cut && IAC !in Take(after, |s|)
    requires forall i :: |s| - 2 <= i < |s| && i >= 0 ==> s[i] != IAC
    ensures !RunsOver(s, after)
  {
    hide Decode, Overruns, Behind, Removed, Mark;
    OverrunsWhen(s, 0, 0, s, [0] + after, false);
    MarkInside(s);
    NoMark(s);
    ShiftedTake(after, Mark(s), |s|);
    BehindClean(s, Removed(s), [0] + after, Mark(s));
  }

  lemma ShiftedTake(after: seq<Byte>, m: nat, n: nat)
    requires m <= n && IAC !in Take(after, n)
    ensures IAC !in Take([0] + after, m)
  {
    var b := [0] + after;
    forall i | 0 <= i < m && i < |b| ensures b[i] != IAC {
      if i > 0 {
        assert b[i] == after[i - 1] == Take(after, n)[i - 1];
      }
    }
  }

  lemma {:induction false} MarkInside(s: seq<Byte>)
    ensures Mark(s) <= |s|
    decreases |s|
  {
    if s != [] && Takes(s) <= |s| {
      MarkInside(s[Takes(s)..]);
    }
  }

  lemma {:induction false} BehindClean(s: seq<Byte>, rs: seq<nat>, behind: seq<Byte>, n: nat)
    requires Amounts(rs, s) && IAC !in Take(behind, n)
    requires forall i :: |s| - 2 <= i < |s| && i >= 0 ==> s[i] != IAC
    ensures IAC !in Take(Behind(s, rs, behind), n)
    decreases rs
  {
    if rs != [] {
      var last := s[|s| - (rs[0] - 1)..];
      var b := LeftBehind(s, rs[0], behind);
      assert forall i :: 0 <= i < |last| ==> last[i] == s[|s| - (rs[0] - 1) + i];
      forall i | 0 <= i < n && i < |b| ensures b[i] != IAC {
        var j := i - 1 - |last|;
        if j >= 0 {
          assert b[i] == behind[j] && behind[j] in Take(behind, n) by {
            assert Take(behind, n)[j] == behind[j];
          }
        }
      }
      BehindClean(s, rs[1..], b, n);
    }
  }

  lemma {:induction false} DecodePlain(s: seq<Byte>, echo: bool, n: nat)
    requires n <= |s| && IAC !in s[..n]
    ensures var r := Decode(s[n..], echo); Decode(s, echo) == r.(text := s[..n] + r.text)
    decreases n
  {
    if n > 0 {
      assert s[0] in s[..n] && s[..n] == [s[0]] + s[1..][..n - 1] && s[1..][n - 1..] == s[n..];
      DecodePlain(s[1..], echo, n - 1);
      Regroup([s[0]], s[1..][..n - 1], Decode(s[n..], echo).text);
    } else {
      assert s[0..] == s;
    }
  }

  /** A chunk the program survives is stripped as the standard has it exactly if it has no "are you there" and ends
      within no command, or has one and ends within one. */
  lemma SurvivorsStripped(s: seq<Byte>, after: seq<Byte>, echo: bool)
    requires !RunsOver(s, after)
    ensures Remaining(s, echo) == Stripped(Lex(s)) <==> Inquiries(Lex(s)) == if EndsInside(Lex(s)) then 1 else 0
  {
    RunsOverWhen(s, after, echo);
    RemainingIsStripped(s, echo);
  }

  const FIVE_LETTERS: seq<Byte> := [97, 97, 97, 97, 97, IAC, 241, IAC, IAC]

  /** The search passes over text. */
  lemma {:induction false} SkipText(s: seq<Byte>, cmd: nat, n: nat, p: nat, rest: seq<Byte>, behind: seq<Byte>)
    requires n <= |rest| <= |s| && IAC !in rest[..n]
    ensures Overruns(s, cmd, p, rest, behind) <==> Overruns(s, cmd, p + n, rest[n..], behind)
    decreases n
  {
    if n > 0 {
      assert rest[0] in rest[..n] && rest[1..][n - 1..] == rest[n..];
      assert forall x :: x in rest[1..][..n - 1] ==> x in rest[..n];
      SkipText(s, cmd, n - 1, p + 1, rest[1..], behind);
    } else {
      assert rest[0..] == rest;
    }
  }

  /** Five letters, a no-operation and a quoted 255, all complete: the search comes upon the 255 left behind by the
      first move, whatever lies after the chunk. */
  lemma OverrunWitness(after: seq<Byte>)
    ensures RunsOver(FIVE_LETTERS, after) && !EndsInside(Lex(FIVE_LETTERS))
  {
    hide Decode, Lex, Overruns, Take, FirstStep, LeftBehind;
    var s := FIVE_LETTERS;
    SkipText(s, 0, 5, 0, s, [0] + after);
    LettersComplete();
    LettersSteps();
    LettersBehind(after);
    var b1 := LeftBehind(s, 2, [0] + after);
    RemovedAmounts([IAC, 241, IAC, IAC], s);
    OverrunsStep(s, 0, 5, [IAC, 241, IAC, IAC], [0] + after);
    RemovedAmounts([IAC, IAC], s);
    OverrunsStep(s, 5, 5, [IAC, IAC], b1);
    Nothing(s, 6, 6, LeftBehind(s, 1, b1), false);
  }

  lemma LettersSteps()
    ensures FIVE_LETTERS[..5] == [97, 97, 97, 97, 97] && FIVE_LETTERS[5..] == [IAC, 241, IAC, IAC]
    ensures var r := [IAC, 241, IAC, IAC]; Takes(r) == 2 && Gives(r) == 0 && Cuts(r) == 2 && r[2..] == [IAC, IAC]
    ensures var r := [IAC, IAC]; Takes(r) == 2 && Gives(r) == 1 && Cuts(r) == 1 && r[2..] == []
  {
  }

  lemma LettersBehind(after: seq<Byte>)
    ensures var b := LeftBehind(FIVE_LETTERS, 1, LeftBehind(FIVE_LETTERS, 2, [0] + after)); IAC in Take(b, 6)
  {
    var s := FIVE_LETTERS;
    var b := LeftBehind(s, 1, LeftBehind(s, 2, [0] + after));
    assert s[8..] == [IAC] && s[9..] == [];
    assert b == [0, 0, IAC, 0] + after;
    assert b[2] == IAC && (|b| >= 6 ==> Take(b, 6)[2] == b[2]);
  }

  lemma LettersComplete()
    ensures !EndsInside(Lex(FIVE_LETTERS))
  {
    var s := FIVE_LETTERS;
    DecodeLex(s, false);
    DecodePlain(s, false, 5);
    assert s[5..] == [IAC, 241, IAC, IAC] && s[5..][2..] == [IAC, IAC] && s[5..][2..][2..] == [];
    StepDecodes(s[5..], false);
    StepDecodes(s[5..][2..], false);
    assert !Decode(s[5..][2..][2..], false).cut;
  }

  // ----- in place -----

  /** memmove(a + dst, a + src, n), towards the front. */
  method Memmove(a: array<Byte>, dst: nat, src: nat, n: nat)
    requires dst <= src && src + n <= a.Length
    modifies a
    ensures var was := old(a[..]); a[..] == was[..dst] + was[src..src + n] + was[dst + n..]
  {
    ghost var was := a[..];
    for i := 0 to n
      invariant forall x :: 0 <= x < dst || dst + i <= x < a.Length ==> a[x] == was[x]
      invariant forall x :: dst <= x < dst + i ==> a[x] == was[x + src - dst]
    {
      a[dst + i] := a[src + i];
    }
  }

  /** memchr(a + from, IAC, to - from), or `to`. */
  method Memchr(a: array<Byte>, from: nat, to: nat) returns (k: nat)
    requires from <= to <= a.Length
    ensures from <= k <= to && IAC !in a[from..k] && (k < to ==> a[k] == IAC)
  {
    k := from;
    while k < to && a[k] != IAC
      invariant from <= k <= to && IAC !in a[from..k]
    {
      assert a[from..k + 1] == a[from..k] + [a[k]];
      k := k + 1;
    }
  }

  /** Cuts `remove` bytes out of an `n`-byte string with its NUL. */
  method Cut(a: array<Byte>, at: nat, remove: nat, n: nat)
    requires at + remove <= n < a.Length && a[n] == 0
    modifies a
    ensures a[..at] == old(a[..at])
    ensures a[at..n - remove] == old(a[at + remove..n]) && a[n - remove] == 0
    ensures a[n - remove + 1..] == old(a[n - remove + 1..])
  {
    ghost var was := a[..];
    var count := n - at - remove + 1;
    Memmove(a, at, at + remove, count);
    assert a[..at] == a[..][..at] == was[..at];
    assert a[at..at + count] == a[..][at..at + count] == was[at + remove..n + 1];
    assert a[at + count..] == a[..][at + count..] == was[at + count..];
    assert a[at..n - remove] == a[at..at + count][..count - 1];
    assert a[n - remove] == a[at..at + count][count - 1];
  }

  lemma SkipPlain(s: seq<Byte>, from: nat, to: nat, replies: seq<Reply>, echo: bool)
    requires from <= to <= |s| && IAC !in s[from..to]
    ensures Prefixed(s[..from], replies, Decode(s[from..], echo)) ==
      Prefixed(s[..to], replies, Decode(s[to..], echo))
  {
    var rest := s[from..];
    assert rest[..to - from] == s[from..to] && rest[to - from..] == s[to..];
    DecodePlain(rest, echo, to - from);
    var d := Decode(s[to..], echo);
    Regroup(s[..from], s[from..to], d.text);
    assert s[..from] + s[from..to] == s[..to];
  }

  /** The search has come to `k` within the string, or to its end. */
  lemma FoundDecodes(a: seq<Byte>, cmd: nat, n: nat, k: nat, replies: seq<Reply>, echo: bool)
    requires cmd <= k <= n <= |a| && IAC !in a[cmd..k]
    ensures Prefixed(a[..cmd], replies, Decode(a[cmd..n], echo)) == Prefixed(a[..k], replies, Decode(a[k..n], echo))
  {
    hide Decode, Prefixed;
    var b := a[..n];
    assert b[cmd..] == a[cmd..n] && b[k..] == a[k..n] && b[..cmd] == a[..cmd] && b[..k] == a[..k];
    assert b[cmd..k] == a[cmd..k];
    SkipPlain(b, cmd, k, replies, echo);
  }

  lemma FoundSearches(s: seq<Byte>, a: seq<Byte>, cmd: nat, n: nat, k: nat)
    requires cmd <= k <= n <= |a| && n - cmd <= |s| && IAC !in a[cmd..k]
    ensures Overruns(s, cmd, cmd, a[cmd..n], a[n..]) <==> Overruns(s, cmd, k, a[k..n], a[n..])
  {
    hide Overruns;
    var rest := a[cmd..n];
    assert rest[..k - cmd] == a[cmd..k] && rest[k - cmd..] == a[k..n];
    SkipText(s, cmd, k - cmd, cmd, rest, a[n..]);
  }

  /** The end of the search: there is no further command, and whether it has gone too far. */
  lemma SearchEnds(s: seq<Byte>, a: seq<Byte>, cmd: nat, n: nat, k: nat, replies: seq<Reply>, echo: bool)
    requires cmd <= n <= k <= cmd + n <= |a| && n - cmd <= |s|
    requires IAC !in a[cmd..k] && (k < cmd + n ==> a[k] == IAC)
    ensures Prefixed(a[..cmd], replies, Decode(a[cmd..n], echo)) == Decoded(a[..n], replies, echo, false)
    ensures Overruns(s, cmd, cmd, a[cmd..n], a[n..]) <==> k < cmd + n
  {
    hide Take;
    assert forall x :: x in a[cmd..n] ==> x in a[cmd..k] by {
      assert a[cmd..n] == a[cmd..k][..n - cmd];
    }
    FoundDecodes(a, cmd, n, n, replies, echo);
    FoundSearches(s, a, cmd, n, n);
    assert a[n..n] == [] && a[..n] + [] == a[..n] && replies + [] == replies;
    TakenBehind(a, cmd, n, k);
  }

  lemma TakenBehind(a: seq<Byte>, cmd: nat, n: nat, k: nat)
    requires cmd <= n <= k <= cmd + n <= |a| && IAC !in a[cmd..k] && (k < cmd + n ==> a[k] == IAC)
    ensures IAC in Take(a[n..], cmd) <==> k < cmd + n
  {
    assert Take(a[n..], cmd) == a[n..cmd + n];
    if k < cmd + n {
      assert a[n..cmd + n][k - n] == IAC;
    } else {
      assert a[n..k] == a[cmd..k][n - cmd..];
    }
  }

  /** What moving a string over a command leaves behind it. */
  lemma MovedBehind(s: seq<Byte>, was: seq<Byte>, a: seq<Byte>, cmd: nat, n: nat, r: nat)
    requires 0 < r && cmd + r <= n < |a| == |was| && n - cmd <= |s|
    requires was[cmd..n] == s[|s| - (n - cmd)..] && a[n - r] == 0 && a[n - r + 1..] == was[n - r + 1..]
    ensures a[n - r..] == LeftBehind(s, r, was[n..])
  {
    assert was[n - r + 1..n] == was[cmd..n][n - r + 1 - cmd..] == s[|s| - (r - 1)..];
    assert a[n - r + 1..] == was[n - r + 1..n] + was[n..];
  }

  /** The string after a command at `k` was cut out of it. */
  lemma AfterCut(s: seq<Byte>, was: seq<Byte>, a: seq<Byte>, k: nat, at: nat, n: nat, r: nat)
    requires k <= at && 0 < r && at + r <= n < |a| == |was| && n - k <= |s| && was[k..n] == s[|s| - (n - k)..]
    requires a[..at] == was[..at] && a[at..n - r] == was[at + r..n]
    requires a[n - r] == 0 && a[n - r + 1..] == was[n - r + 1..]
    ensures a[..at] == was[..k] + was[k..n][..at - k]
    ensures a[at..n - r] == was[k..n][at - k + r..] == s[|s| - (n - r - at)..]
    ensures a[n - r..] == LeftBehind(s, r, was[n..])
  {
    assert was[..at] == was[..k] + was[k..n][..at - k];
    MovedBehind(s, was, a, k, n, r);
  }

  /** The loop's state in memory `a`: the string ends at `n`, the search started at `cmd` and has come to `p`. All of
      `goal` is at hand or still to be decoded, and `over` tells whether the search will run over the end. */
  ghost predicate Reading(s: seq<Byte>, a: seq<Byte>, cmd: nat, p: nat, n: nat, goal: Decoded, had: seq<Reply>,
                          echo: bool, over: bool) {
    && cmd <= p <= n < |a| && a[n] == 0 && n - cmd <= |s| && a[p..n] == s[|s| - (n - p)..]
    && goal == Prefixed(a[..p], had, Decode(a[p..n], echo))
    && (over <==> Overruns(s, cmd, p, a[p..n], a[n..]))
  }

  lemma ReadingBegins(a: seq<Byte>, len: nat, echo: bool)
    requires len < |a| && a[len] == 0
    ensures var s := a[..len]; Reading(s, a, 0, 0, len, Decode(s, echo), [], echo, RunsOver(s, a[len + 1..]))
  {
    var s := a[..len];
    assert a[0..len] == s == s[0..];
    assert a[len..] == [0] + a[len + 1..];
    var d := Decode(s, echo);
    assert a[..0] + d.text == d.text && [] + d.replies == d.replies;
  }

  lemma ReadingFound(s: seq<Byte>, a: seq<Byte>, cmd: nat, k: nat, n: nat, goal: Decoded, had: seq<Reply>, echo: bool,
                     over: bool)
    requires Reading(s, a, cmd, cmd, n, goal, had, echo, over) && cmd <= k <= n && IAC !in a[cmd..k]
    ensures Reading(s, a, cmd, k, n, goal, had, echo, over)
  {
    hide Decode, Overruns, Prefixed;
    FoundDecodes(a, cmd, n, k, had, echo);
    FoundSearches(s, a, cmd, n, k);
    assert a[k..n] == a[cmd..n][k - cmd..] == s[|s| - (n - k)..];
  }

  lemma ReadingEnds(s: seq<Byte>, a: seq<Byte>, cmd: nat, k: nat, n: nat, goal: Decoded, had: seq<Reply>, echo: bool,
                    over: bool)
    requires Reading(s, a, cmd, cmd, n, goal, had, echo, over) && n <= k <= cmd + n <= |a|
    requires IAC !in a[cmd..k] && (k < cmd + n ==> a[k] == IAC)
    ensures goal == Decoded(a[..n], had, echo, false) && (over <==> k < cmd + n)
  {
    hide Decode, Overruns, Prefixed;
    SearchEnds(s, a, cmd, n, k, had, echo);
  }

  /** A command at `k` taken out, `at` being where the search goes on. */
  lemma ReadingNext(s: seq<Byte>, was: seq<Byte>, a: seq<Byte>, cmd: nat, k: nat, at: nat, n: nat, r: nat,
                    goal: Decoded, had: seq<Reply>, answer: seq<Reply>, echo: bool, echo': bool, over: bool)
    requires Reading(s, was, cmd, k, n, goal, had, echo, over) && k < n && was[k] == IAC
    requires k <= at && at + r <= n && |a| == |was|
    requires FirstStep(was[k..n], echo) == (at - k + r, was[k..n][..at - k], answer, echo')
    requires a[..at] == was[..at] && a[at..n - r] == was[at + r..n]
    requires a[n - r] == 0 && a[n - r + 1..] == was[n - r + 1..]
    ensures 0 < r && Reading(s, a, at, at, n - r, goal, had + answer, echo', over)
  {
    hide Decode, Overruns, Prefixed, FirstStep, LeftBehind, Takes, Gives, Cuts;
    StepSizes(was[k..n], echo);
    AfterCut(s, was, a, k, at, n, r);
    DecodesOn(was[..k], was[k..n], at - k, r, had, answer, echo, echo');
    SearchesOn(s, cmd, k, was[k..n], was[n..]);
  }

  lemma DecodesOn(text: seq<Byte>, rest: seq<Byte>, gives: nat, r: nat, had: seq<Reply>, answer: seq<Reply>, echo: bool,
                  echo': bool)
    requires rest != [] && gives + r <= |rest| && FirstStep(rest, echo) == (gives + r, rest[..gives], answer, echo')
    ensures Prefixed(text, had, Decode(rest, echo)) ==
      Prefixed(text + rest[..gives], had + answer, Decode(rest[gives + r..], echo'))
  {
    DecodeFirst(rest, echo);
    hide Decode, FirstStep;
    PrefixedTwice(text, had, rest[..gives], answer, Decode(rest[gives + r..], echo'));
  }

  lemma SearchesOn(s: seq<Byte>, cmd: nat, k: nat, rest: seq<Byte>, behind: seq<Byte>)
    requires rest != [] && rest[0] == IAC && Takes(rest) <= |rest| <= |s|
    ensures 0 < Cuts(rest) <= |s| + 1
    ensures var at := k + Gives(rest);
      Overruns(s, cmd, k, rest, behind)
      <==> Overruns(s, at, at, rest[Takes(rest)..], LeftBehind(s, Cuts(rest), behind))
  {
    hide Takes, Gives, Cuts, LeftBehind;
  }

  lemma StepSizes(rest: seq<Byte>, echo: bool)
    requires rest != []
    ensures Takes(rest) == FirstStep(rest, echo).0 && Gives(rest) == |FirstStep(rest, echo).1|
    ensures Cuts(rest) == FirstStep(rest, echo).0 - |FirstStep(rest, echo).1|
  {
  }

  /** A command at `k` that is cut off. */
  lemma ReadingCutOff(s: seq<Byte>, a: seq<Byte>, cmd: nat, k: nat, n: nat, goal: Decoded, had: seq<Reply>,
                      answer: seq<Reply>, echo: bool, echo': bool, over: bool)
    requires Reading(s, a, cmd, k, n, goal, had, echo, over) && k < n && a[k] == IAC
    requires FirstStep(a[k..n], echo).0 > n - k
    requires FirstStep(a[k..n], echo).2 == answer && FirstStep(a[k..n], echo).3 == echo'
    ensures goal == Decoded(a[..k], had + answer, echo', true) && (over <==> k != 1)
  {
    var rest := a[k..n];
    StepSizes(rest, echo);
    DecodeFirst(rest, echo);
    RemovedAmounts(rest, s);
    OverrunsStep(s, cmd, k, rest, a[n..]);
    hide Decode, Overruns, FirstStep, Removed, Behind, Mark, Amounts, Takes, Gives, Cuts;
    assert a[..k] + [] == a[..k];
  }

  /** What the switch makes of a command. */
  lemma SwitchStep(rest: seq<Byte>, echo: bool)
    requires rest != [] && rest[0] == IAC
    ensures var kind := At(rest, 1);
      && (kind == AYT ==> FirstStep(rest, echo) == (1, rest[..0], [Yes], echo))
      && (kind == IAC ==> FirstStep(rest, echo) == (2, rest[..1], [], echo))
      && (Negotiates(kind) ==>
           FirstStep(rest, echo) ==
           (3, rest[..0], Answer(kind, At(rest, 2), echo).0, Answer(kind, At(rest, 2), echo).1))
      && (kind != AYT && kind != IAC && !Negotiates(kind) ==> FirstStep(rest, echo) == (2, rest[..0], [], echo))
  {
    assert rest[..0] == [] && rest[..1] == [IAC];
  }

  /** Slices of the array and of its contents. */
  lemma Views(a: array<Byte>, i: nat, j: nat)
    requires i <= j <= a.Length
    ensures a[..][i..j] == a[i..j] && a[..][..i] == a[..i] && a[..][j..] == a[j..]
  {
  }

  /** What the echo does: nothing, one write, or never come back (see FilterWrite). */
  datatype Echoed = NoEcho | Sent(out: seq<Byte>) | Hangs

  class Session {
    /** TFLAG_ECHO and TFLAG_PASSWORD. */
    var echo: bool
    var password: bool

    constructor (echo: bool, password: bool)
      ensures this.echo == echo && this.password == password
    {
      this.echo, this.password := echo, password;
    }

    /** Strips the commands from the `len` bytes of a NUL-terminated chunk and answers them; `data` is the memory from
        the chunk on, as far as a search can reach. With `overrun` a command is found behind the string, or again when
        it was cut off: the next memmove then has a negative length, and nothing more is said. */
    method Strip(data: array<Byte>, len: nat) returns (n: nat, replies: seq<Reply>, overrun: bool)
      requires len < data.Length && 2 * len <= data.Length && data[len] == 0
      modifies this`echo, data
      ensures overrun <==> RunsOver(old(data[..len]), old(data[len + 1..]))
      ensures !overrun ==>
        var d := old(Decode(data[..len], echo));
        && replies == d.replies && echo == d.echo
        && n <= len && data[..n] == old(Remaining(data[..len], echo))
      ensures !overrun ==> (replies, echo) == Replies(Lex(old(data[..len])), old(echo))
    {
      hide Reading, Decode, RunsOver, Replies, Lex;
      RepliesOfTokens(data[..len], echo);
      ghost var s, goal, over := data[..len], Decode(data[..len], echo), RunsOver(data[..len], data[len + 1..]);
      n, replies, overrun := len, [], false;
      var cmd: nat := 0;
      ReadingBegins(data[..], len, echo);
      Views(data, len, len + 1);
      while true
        invariant cmd <= n <= len && data[n] == 0 && Reading(s, data[..], cmd, cmd, n, goal, replies, echo, over)
        invariant !overrun
        decreases n - cmd
      {
        var k := Memchr(data, cmd, cmd + n);
        Views(data, cmd, k);
        if k >= n {
          ReadingEnds(s, data[..], cmd, k, n, goal, replies, echo, over);
          Views(data, n, n);
          overrun := k < cmd + n;
          return;
        }
        ReadingFound(s, data[..], cmd, k, n, goal, replies, echo, over);
        var cmd', n', answer := Command(data, k, n, s, cmd, goal, replies, over);
        replies := replies + answer;
        if n' < cmd' {
          // the command is cut off, and still there
          overrun := n' != 0;
          n := 0;
          return;
        }
        cmd, n := cmd', n';
      }
    }

    /** One command, at `k`: answered, cut out, and skipped over if it stands for a byte. Of one that is cut off the
        memmove takes nothing away. */
    method Command(data: array<Byte>, k: nat, n: nat, ghost s: seq<Byte>, ghost cmd: nat, ghost goal: Decoded,
                   ghost had: seq<Reply>, ghost over: bool)
      returns (cmd': nat, n': int, answer: seq<Reply>)
      requires k < n < data.Length && data[k] == IAC && data[n] == 0
      requires Reading(s, data[..], cmd, k, n, goal, had, echo, over)
      modifies this`echo, data
      ensures n' < cmd' ==>
        n' == k - 1 && goal == Decoded(old(data[..k]), had + answer, echo, true) && (over <==> k != 1)
      ensures n' >= cmd' ==>
        && n' - cmd' < n - k && n' < n && data[n'] == 0
        && Reading(s, data[..], cmd', cmd', n', goal, had + answer, echo, over)
    {
      hide Reading, FirstStep, Decode;
      ghost var was, before := data[..], echo;
      Views(data, k, n);
      var remove;
      cmd', remove, answer := Switch(data, k, n);
      n' := n - remove;
      if cmd' + remove > n {
        Views(data, k, k);
        ReadingCutOff(s, was, cmd, k, n, goal, had, answer, before, echo, over);
        return;
      }
      Cut(data, cmd', remove, n);
      Views(data, cmd', n');
      Views(data, n', n' + 1);
      ReadingNext(s, was, data[..], cmd, k, cmd', n, remove, goal, had, answer, before, echo, over);
    }

    /** The switch: where the search goes on, how many bytes are to go, and the answer. */
    method Switch(data: array<Byte>, k: nat, n: nat) returns (cmd': nat, remove: nat, answer: seq<Reply>)
      requires k < n < data.Length && data[k] == IAC && data[n] == 0
      modifies this`echo
      ensures k <= cmd' <= k + 1 && 0 < remove <= 3 && cmd' + remove <= n + 1
      ensures cmd' == k + 1 ==> remove == 1 && k + 2 <= n
      ensures FirstStep(data[k..n], old(echo)) == (cmd' - k + remove, data[k..n][..cmd' - k], answer, echo)
    {
      hide FirstStep;
      ghost var rest, before := data[k..n], echo;
      SwitchStep(rest, before);
      cmd', answer := k, [];
      var kind := data[k + 1];
      assert kind == At(rest, 1);
      if kind == AYT {
        answer := [Yes];
        remove := 1;
      } else if kind == IAC {
        cmd' := k + 1;
        remove := 1;
      } else if Negotiates(kind) {
        assert data[k + 2] == At(rest, 2);
        answer := Negotiate(kind, data[k + 2]);
        remove := 3;
      } else {
        remove := 2;
      }
    }

    /** The negotiation cases of the switch. */
    method Negotiate(kind: Byte, arg: Byte) returns (answer: seq<Reply>)
      requires Negotiates(kind)
      modifies this`echo
      ensures (answer, echo) == Answer(kind, arg, old(echo))
    {
      answer := [];
      if kind == DO {
        if Echoing(arg) {
          if !echo {
            answer := [Mode(WILL, arg)];
            echo := true;
          }
        } else {
          answer := [Mode(WONT, arg)];
        }
      } else if kind == DONT && arg == ECHO && echo {
        answer := [Mode(WONT, arg)];
        echo := false;
      }
    }

    /** telnet_filter_read: what is left of a chunk goes up the chain, and back to the sender if echo is on and no
        password is being typed. */
    method FilterRead(q: Byte, before: Byte, data: array<Byte>, len: nat)
      returns (n: nat, replies: seq<Reply>, back: Echoed, overrun: bool)
      requires len < data.Length && 2 * len <= data.Length && data[len] == 0 && q >= 128
      modifies this`echo, data
      ensures overrun <==> RunsOver(old(data[..len]), old(data[len + 1..]))
      ensures !overrun ==>
        var d, text := old(Decode(data[..len], echo)), old(Remaining(data[..len], echo));
        && replies == d.replies && echo == d.echo
        && n <= len && data[..n] == text
        && back == (if text == [] || !echo || password then NoEcho
                    else if !NulsFollowCr(before, text) then Hangs
                    else if Escape(Some(q), false, before, text) == [] then NoEcho
                    else Sent(Escape(Some(q), false, before, text)))
    {
      n, replies, overrun := Strip(data, len);
      back := NoEcho;
      if !overrun && n != 0 && echo && !password {
        var out := FilterWrite(q, before, data[..n]);
        back := if out == None then Hangs else if out.value == [] then NoEcho else Sent(out.value);
      }
    }
  }
}
