/** The echo peer of the chat server (rust/chat/src/main.rs): a task polled by its executor.

    Every poll is handed the answers its reader would give, call by call, and the one its writer gives.
 */
module Chat {
  import opened Bytes

  type Text = seq<Byte>

  const LINES_PER_TICK: nat := 10
  const CRLF: Text := [13, 10]

  /** One answer of `rx.poll()`: a line, the end of the stream, nothing yet, or an error. */
  datatype Got = Line(text: Text) | End | NotYet | ReadError

  /** The answer of `tx.write(buf)`: a writer takes no more than it is given. */
  datatype Wrote = Took(n: nat) | Interrupted | WriteError

  datatype Poll = Poll(got: seq<Got>, wrote: Wrote)

  datatype Outcome = NotReady | Err

  /** A peer with everything it received and everything its writer accepted. */
  datatype Peering = Peering(received: seq<Text>, sent: Text, txBuf: Text)

  const START := Peering([], [], [])

  function Answer(got: seq<Got>, i: nat): Got { if i < |got| then got[i] else NotYet }

  /** What a peer owes for the lines it received. */
  function Echo(lines: seq<Text>): Text {
    if lines == [] then [] else lines[0] + CRLF + Echo(lines[1..])
  }

  lemma {:induction false} EchoOneMore(lines: seq<Text>, line: Text)
    ensures Echo(lines + [line]) == Echo(lines) + (line + CRLF)
  {
    if lines == [] {
      assert [line][1..] == [];
      assert [] + [line] == [line];
    } else {
      EchoOneMore(lines[1..], line);
      assert (lines + [line])[1..] == lines[1..] + [line];
      assert lines[0] + CRLF + (Echo(lines[1..]) + (line + CRLF)) == lines[0] + CRLF + Echo(lines[1..]) + (line + CRLF);
    }
  }

  // ----- one poll -----

  /** How many lines a poll takes, when `room` more may be taken. */
  function Intake(got: seq<Got>, room: nat): (n: nat)
    ensures n <= room && n <= |got|
    ensures forall k :: 0 <= k < n ==> got[k].Line?
    ensures n < room ==> !Answer(got, n).Line?
  {
    if room > 0 && got != [] && got[0].Line? then 1 + Intake(got[1..], room - 1) else 0
  }

  function Texts(got: seq<Got>, n: nat): (lines: seq<Text>)
    requires n <= |got| && forall k :: 0 <= k < n ==> got[k].Line?
    ensures |lines| == n
  {
    if n == 0 then [] else Texts(got, n - 1) + [got[n - 1].text]
  }

  /** The answer that ended the intake, when it was not the tenth line. */
  function Stop(p: Poll): Got { Answer(p.got, Intake(p.got, LINES_PER_TICK)) }

  predicate Full(p: Poll) { Intake(p.got, LINES_PER_TICK) == LINES_PER_TICK }

  function Grown(s: Peering, lines: seq<Text>): Peering {
    s.(received := s.received + lines, txBuf := s.txBuf + Echo(lines))
  }

  lemma GrowOneMore(s: Peering, lines: seq<Text>, line: Text)
    ensures var g := Grown(s, lines);
      Grown(s, lines + [line]) == g.(received := g.received + [line], txBuf := g.txBuf + line + CRLF)
  {
    EchoOneMore(lines, line);
    assert s.received + (lines + [line]) == s.received + lines + [line];
    assert s.txBuf + (Echo(lines) + (line + CRLF)) == s.txBuf + Echo(lines) + line + CRLF;
  }

  function Filled(s: Peering, p: Poll): Peering { Grown(s, Texts(p.got, Intake(p.got, LINES_PER_TICK))) }

  predicate ReadFails(p: Poll) { !Full(p) && Stop(p).ReadError? }

  predicate WriteFails(s: Peering, p: Poll) {
    Filled(s, p).txBuf != [] && (p.wrote.WriteError? || p.wrote == Took(0))
  }

  function Accepted(buf: Text, wrote: Wrote): (n: nat)
    ensures n <= |buf|
  {
    if !wrote.Took? then 0 else if wrote.n <= |buf| then wrote.n else |buf|
  }

  function After(s: Peering, p: Poll): Peering {
    var f := Filled(s, p);
    if ReadFails(p) then f
    else
      var n := Accepted(f.txBuf, p.wrote);
      f.(sent := f.sent + f.txBuf[..n], txBuf := f.txBuf[n..])
  }

  function Result(s: Peering, p: Poll): Outcome {
    if ReadFails(p) || WriteFails(s, p) then Err else NotReady
  }

  class Peer {
    var txBuf: Text
    ghost var received: seq<Text>
    ghost var sent: Text

    ghost function St(): Peering
      reads this
    {
      Peering(received, sent, txBuf)
    }

    constructor ()
      ensures St() == START
    {
      txBuf, received, sent := [], [], [];
    }

    /** `notified` tells whether the task has asked to be polled again. */
    method PollOnce(p: Poll) returns (r: Outcome, notified: bool)
      modifies this
      ensures St() == After(old(St()), p) && r == Result(old(St()), p)
      ensures r.NotReady? ==> (notified <==> Full(p) || txBuf != [])
    {
      hide Intake, Texts, Echo;
      var failed;
      failed, notified := TakeLines(p);
      if failed {
        return Err, notified;
      }
      r := NotReady;
      if txBuf != [] {
        r := Flush(p.wrote);
        if r.Err? {
          return;
        }
      }
      if txBuf != [] {
        notified := true;
      }
    }

    /** The loop over at most ten lines. */
    method TakeLines(p: Poll) returns (failed: bool, notified: bool)
      modifies this
      ensures St() == Filled(old(St()), p) && failed == ReadFails(p) && notified == Full(p)
    {
      ghost var s := St();
      ghost var total := Intake(p.got, LINES_PER_TICK);
      assert Grown(s, Texts(p.got, 0)) == s;
      hide Intake, Grown;
      failed, notified := false, false;
      var i := 0;
      while i < LINES_PER_TICK
        invariant 0 <= i <= total
        invariant St() == Grown(s, Texts(p.got, i))
        invariant notified <==> i == LINES_PER_TICK
      {
        match Answer(p.got, i) {
          case Line(text) =>
            GrowOneMore(s, Texts(p.got, i), text);
            received := received + [text];
            txBuf := txBuf + text;
            txBuf := txBuf + CRLF;
            if i + 1 == LINES_PER_TICK {
              notified := true;
            }
          case ReadError =>
            failed := true;
            return;
          case _ => return;
        }
        i := i + 1;
      }
    }

    /** One write of what is buffered. */
    method Flush(wrote: Wrote) returns (r: Outcome)
      requires txBuf != []
      modifies this
      ensures var s := old(St());
        var n := Accepted(s.txBuf, wrote);
        St() == s.(sent := s.sent + s.txBuf[..n], txBuf := s.txBuf[n..])
      ensures r.Err? <==> wrote.WriteError? || wrote == Took(0)
    {
      match wrote {
        case Took(_) =>
          var n := Accepted(txBuf, wrote);
          if n == 0 {
            return Err;
          }
          sent := sent + txBuf[..n];
          txBuf := txBuf[n..];
        case Interrupted =>
        case WriteError => return Err;
      }
      r := NotReady;
    }
  }

  // ----- runs of polls -----

  /** The executor polls again and again, until a poll fails. */
  function Run(s: Peering, polls: seq<Poll>): Peering
    decreases |polls|
  {
    if polls == [] then s
    else if Result(s, polls[0]).Err? then After(s, polls[0])
    else Run(After(s, polls[0]), polls[1..])
  }

  ghost predicate Conserved(s: Peering) { s.sent + s.txBuf == Echo(s.received) }

  lemma {:induction false} EchoAppend(a: seq<Text>, b: seq<Text>)
    ensures Echo(a + b) == Echo(a) + Echo(b)
  {
    if a == [] {
      assert a + b == b;
    } else {
      EchoAppend(a[1..], b);
      assert (a + b)[1..] == a[1..] + b;
      assert a[0] + CRLF + (Echo(a[1..]) + Echo(b)) == a[0] + CRLF + Echo(a[1..]) + Echo(b);
    }
  }

  lemma PollConserves(s: Peering, p: Poll)
    requires Conserved(s)
    ensures Conserved(After(s, p))
  {
    hide Intake, Texts, Echo;
    var lines := Texts(p.got, Intake(p.got, LINES_PER_TICK));
    EchoAppend(s.received, lines);
    var f := Filled(s, p);
    assert f.sent + f.txBuf == s.sent + s.txBuf + Echo(lines);
    if !ReadFails(p) {
      var n := Accepted(f.txBuf, p.wrote);
      assert f.sent + f.txBuf[..n] + f.txBuf[n..] == f.sent + f.txBuf;
    }
  }

  /** Whatever the reader and the writer do, and also when a poll fails: nothing is lost, repeated or reordered. */
  lemma {:induction false} RunConserves(s: Peering, polls: seq<Poll>)
    requires Conserved(s)
    ensures Conserved(Run(s, polls))
    decreases |polls|
  {
    if polls != [] {
      PollConserves(s, polls[0]);
      if !Result(s, polls[0]).Err? {
        RunConserves(After(s, polls[0]), polls[1..]);
      }
    }
  }

  /** What the client has been sent is a prefix of the echo it is owed. */
  lemma SentIsPrefix(polls: seq<Poll>)
    ensures var s := Run(START, polls); s.sent <= Echo(s.received)
  {
    hide Run;
    RunConserves(START, polls);
  }

  /** A poll that brings no line and whose writer takes something. */
  predicate Quiet(p: Poll) {
    Intake(p.got, LINES_PER_TICK) == 0 && !Stop(p).ReadError? && p.wrote.Took? && p.wrote.n > 0
  }

  /** While the writer makes any progress, a bounded number of quiet polls delivers everything owed. */
  lemma {:induction false} QuietPollsDrain(s: Peering, polls: seq<Poll>)
    requires Conserved(s)
    requires |polls| >= |s.txBuf| && forall k :: 0 <= k < |polls| ==> Quiet(polls[k])
    ensures var r := Run(s, polls); r.received == s.received && r.txBuf == [] && r.sent == Echo(s.received)
    decreases |polls|
  {
    if polls == [] {
      assert s.sent + s.txBuf == s.sent;
    } else {
      var p := polls[0];
      assert Texts(p.got, 0) == [] && Filled(s, p) == s;
      PollConserves(s, p);
      QuietPollsDrain(After(s, p), polls[1..]);
    }
  }

  // ----- the executor -----

  /** What the reader has: lines that came and were not read yet, and what follows them. */
  datatype Tail = Open | Ended | Broken

  /** The task, its reader, and who will have it polled: it is `scheduled`, or the reader is `armed` to have it
      scheduled when something comes. A `done` task has failed. */
  datatype Task = Task(peer: Peering, lines: seq<Text>, tail: Tail, armed: bool, scheduled: bool, done: bool)

  /** A task just spawned, with nothing received yet. */
  const SPAWNED := Task(START, [], Open, false, true, false)

  /** What happens to a task: a line arrives, the stream ends or breaks, or the executor polls it. */
  datatype Happening = Arrives(line: Text) | Ends | Breaks | Polled(wrote: Wrote)

  /** The answers of the reader, call by call. */
  function Answers(t: Task): seq<Got> {
    Lines(t.lines) + match t.tail case Open => [] case Ended => [End] case Broken => [ReadError]
  }

  function Lines(lines: seq<Text>): (got: seq<Got>)
    ensures |got| == |lines| && forall i :: 0 <= i < |lines| ==> got[i] == Line(lines[i])
  {
    if lines == [] then [] else [Line(lines[0])] + Lines(lines[1..])
  }

  /** Something came: an armed reader has the task scheduled. */
  function Woken(t: Task): Task { t.(armed := false, scheduled := t.scheduled || t.armed) }

  /** One poll of a scheduled task. A reader that answers that nothing is there yet is armed by that; one that has
      ended is not. */
  function AfterPoll(t: Task, wrote: Wrote): Task {
    var p := Poll(Answers(t), wrote);
    var peer := After(t.peer, p);
    if Result(t.peer, p).Err? then t.(peer := peer, done := true, scheduled := false)
    else
      t.(peer := peer, lines := t.lines[Intake(p.got, LINES_PER_TICK)..],
         armed := !Full(p) && Stop(p).NotYet?, scheduled := Full(p) || peer.txBuf != [])
  }

  /** Nothing comes after the end of the stream, and the executor polls only tasks that are scheduled. */
  predicate Possible(t: Task, h: Happening) {
    !t.done && if h.Polled? then t.scheduled else t.tail.Open?
  }

  function Happens(t: Task, h: Happening): Task
    requires Possible(t, h)
  {
    match h
    case Arrives(line) => Woken(t).(lines := t.lines + [line])
    case Ends => Woken(t).(tail := Ended)
    case Breaks => Woken(t).(tail := Broken)
    case Polled(wrote) => AfterPoll(t, wrote)
  }

  ghost predicate PossibleRun(t: Task, hs: seq<Happening>)
    decreases |hs|
  {
    hs == [] || (Possible(t, hs[0]) && PossibleRun(Happens(t, hs[0]), hs[1..]))
  }

  function Life(t: Task, hs: seq<Happening>): Task
    requires PossibleRun(t, hs)
    decreases |hs|
  {
    if hs == [] then t else Life(Happens(t, hs[0]), hs[1..])
  }

  /** A task that is not scheduled owes nothing and has read everything there is; its reader is armed unless its stream
      has ended. */
  ghost predicate Settled(t: Task) {
    && Conserved(t.peer)
    && (!t.done && !t.scheduled ==>
         t.peer.txBuf == [] && t.lines == [] && !t.tail.Broken? && (t.tail.Open? <==> t.armed))
  }

  lemma Intakes(t: Task)
    ensures var n := Intake(Answers(t), LINES_PER_TICK);
      && n <= |t.lines| && (n < |t.lines| ==> n == LINES_PER_TICK)
      && (n < LINES_PER_TICK ==>
           n == |t.lines|
           && Answer(Answers(t), n) == match t.tail case Open => NotYet case Ended => End case Broken => ReadError)
  {
    var n := Intake(Answers(t), LINES_PER_TICK);
    assert |t.lines| < |Answers(t)| ==> !Answers(t)[|t.lines|].Line?;
    if n < |t.lines| {
      assert Answers(t)[n] == Line(t.lines[n]);
    }
  }

  lemma PollSettles(t: Task, wrote: Wrote)
    requires Conserved(t.peer)
    ensures Settled(AfterPoll(t, wrote))
  {
    Intakes(t);
    PollConserves(t.peer, Poll(Answers(t), wrote));
    hide Conserved, Intake, Answers, After;
  }

  /** A poll ends the task exactly if its stream breaks within the ten lines, or there is something to send and the
      writer fails or takes nothing of it. */
  lemma DoneIff(t: Task, wrote: Wrote)
    requires !t.done
    ensures var n := if |t.lines| < 10 then |t.lines| else 10;
      AfterPoll(t, wrote).done <==>
        if |t.lines| < 10 && t.tail.Broken? then true
        else t.peer.txBuf + Echo(t.lines[..n]) != [] && (wrote.WriteError? || wrote == Took(0))
    ensures |t.lines| < 10 && t.tail.Broken? ==> AfterPoll(t, wrote).peer.sent == t.peer.sent
  {
    Intakes(t);
    TextsOfLines(t, Intake(Answers(t), LINES_PER_TICK));
    hide Answers, Echo, Intake, Texts;
  }

  lemma {:induction false} LifeSettles(t: Task, hs: seq<Happening>)
    requires Settled(t) && PossibleRun(t, hs)
    ensures Settled(Life(t, hs))
    decreases |hs|
  {
    if hs != [] {
      if hs[0].Polled? {
        PollSettles(t, hs[0].wrote);
      }
      hide AfterPoll, Conserved;
      LifeSettles(Happens(t, hs[0]), hs[1..]);
    }
  }

  /** At any time in any run, a task that has not failed and owes output, or has lines to read, is scheduled for another
      poll: one that is not has sent all it ever will. */
  lemma OwingIsScheduled(hs: seq<Happening>)
    requires PossibleRun(SPAWNED, hs)
    ensures var t := Life(SPAWNED, hs);
      && (!t.done && (t.peer.txBuf != [] || t.lines != []) ==> t.scheduled)
      && (!t.done && !t.scheduled ==> t.peer.sent == Echo(t.peer.received))
  {
    LifeSettles(SPAWNED, hs);
    var p := Life(SPAWNED, hs).peer;
    assert p.sent + [] == p.sent;
  }

  /** The task is never polled again, whatever happens. */
  ghost predicate SleepsForEver(t: Task) {
    forall hs :: PossibleRun(t, hs) ==> !Life(t, hs).scheduled
  }

  lemma NothingHappens(t: Task, more: seq<Happening>)
    requires !t.done && !t.scheduled && t.tail.Ended? && PossibleRun(t, more)
    ensures more == []
  {
  }

  /** At any time in any run, a task that has not failed sleeps for ever exactly if it is not scheduled and its stream
      has ended: the end of the stream is taken for a pause. */
  lemma SleepsIffEnded(hs: seq<Happening>)
    requires PossibleRun(SPAWNED, hs)
    ensures var t := Life(SPAWNED, hs); !t.done ==> (SleepsForEver(t) <==> !t.scheduled && t.tail.Ended?)
  {
    LifeSettles(SPAWNED, hs);
    var t := Life(SPAWNED, hs);
    if !t.done {
      assert PossibleRun(t, []) && Life(t, []) == t;
      if !t.scheduled && t.tail.Ended? {
        forall more | PossibleRun(t, more) ensures !Life(t, more).scheduled {
          NothingHappens(t, more);
        }
      } else if !t.scheduled {
        var more := [Arrives([])];
        assert more[1..] == [];
        assert PossibleRun(Happens(t, more[0]), more[1..]);
        assert Life(t, more) == Happens(t, more[0]);
      }
    }
  }

  /** What a task has still to send, or to read and send. */
  function Owed(t: Task): nat { |t.peer.txBuf| + |Echo(t.lines)| }

  predicate Progress(wrote: Wrote) { wrote.Took? && wrote.n > 0 }

  /** Polling as long as the task is scheduled. */
  function Worked(t: Task, wrotes: seq<Wrote>): Task
    decreases |wrotes|
  {
    if wrotes == [] || t.done || !t.scheduled then t else Worked(AfterPoll(t, wrotes[0]), wrotes[1..])
  }

  /** The numbers of a poll whose writer takes something. */
  lemma PollTakes(t: Task, wrote: Wrote)
    requires !t.tail.Broken? && Progress(wrote)
    ensures var n := Intake(Answers(t), LINES_PER_TICK);
      && n <= |t.lines| && (n == 0 ==> t.lines == [])
      && var filled := t.peer.txBuf + Echo(t.lines[..n]);
      && var m := Accepted(filled, wrote);
      && var u := AfterPoll(t, wrote);
      && (filled != [] ==> m > 0) && u.peer.txBuf == filled[m..] && u.lines == t.lines[n..]
      && u.peer.received == t.peer.received + t.lines[..n] && u.done == t.done && u.tail == t.tail
      && (n == |t.lines| && filled[m..] == [] && n < LINES_PER_TICK ==> !u.scheduled)
  {
    Intakes(t);
    TextsOfLines(t, Intake(Answers(t), LINES_PER_TICK));
    hide Answers, Echo, Intake, Texts;
  }

  lemma SettledPoll(t: Task, wrote: Wrote)
    requires Settled(t)
    ensures Settled(AfterPoll(t, wrote))
  {
    PollSettles(t, wrote);
  }

  lemma PollPays(t: Task, wrote: Wrote)
    requires Settled(t) && !t.done && t.scheduled && !t.tail.Broken? && Progress(wrote)
    ensures var u := AfterPoll(t, wrote);
      && Settled(u) && !u.done && u.tail == t.tail && u.peer.received + u.lines == t.peer.received + t.lines
      && (Owed(t) > 0 ==> Owed(u) < Owed(t)) && (Owed(t) == 0 ==> !u.scheduled)
  {
    hide Answers, Intake, Echo, AfterPoll, Settled, Conserved;
    SettledPoll(t, wrote);
    PollTakes(t, wrote);
    var n := Intake(Answers(t), LINES_PER_TICK);
    var a, b := t.lines[..n], t.lines[n..];
    assert t.lines == a + b;
    EchoAppend(a, b);
    assert t.peer.received + (a + b) == t.peer.received + a + b;
    NoEcho(t.lines);
    NoEcho(a);
  }

  lemma TextsOfLines(t: Task, n: nat)
    requires n <= |t.lines|
    ensures n <= |Answers(t)| && (forall k :: 0 <= k < n ==> Answers(t)[k].Line?)
    ensures Texts(Answers(t), n) == t.lines[..n]
  {
    if n > 0 {
      TextsOfLines(t, n - 1);
      assert Answers(t)[n - 1] == Line(t.lines[n - 1]);
    }
  }

  lemma NoEcho(lines: seq<Text>)
    ensures Echo(lines) == [] <==> lines == []
  {
  }

  /** With a writer that always takes something, a bounded number of polls reads all lines there are and sends the
      whole echo, and then the task is not scheduled any more. */
  lemma {:induction false} WorkedOff(t: Task, wrotes: seq<Wrote>)
    requires Settled(t) && !t.done && !t.tail.Broken?
    requires |wrotes| > Owed(t) && forall i :: 0 <= i < |wrotes| ==> Progress(wrotes[i])
    ensures var u := Worked(t, wrotes);
      && !u.done && !u.scheduled && u.lines == []
      && u.peer.received == t.peer.received + t.lines && u.peer.sent == Echo(u.peer.received)
    decreases |wrotes|
  {
    if t.scheduled {
      PollPays(t, wrotes[0]);
      var u := AfterPoll(t, wrotes[0]);
      hide AfterPoll, Echo;
      if Owed(t) == 0 {
        WorkedRests(u, wrotes[1..]);
      } else {
        WorkedOff(u, wrotes[1..]);
      }
    } else {
      WorkedRests(t, wrotes);
    }
  }

  lemma WorkedRests(t: Task, wrotes: seq<Wrote>)
    requires Settled(t) && !t.done && !t.scheduled
    ensures Worked(t, wrotes) == t && t.lines == [] && t.peer.received == t.peer.received + t.lines
    ensures t.peer.sent == Echo(t.peer.received)
  {
    assert t.peer.sent + [] == t.peer.sent;
  }
}
