/** The telnet filter of c-cpp/onethread/telnet.c: an escaping, formatting writer and an in-place command
    stripper (RFC 854, "TELNET COMMAND STRUCTURE" and "THE NVT PRINTER AND KEYBOARD").
 */
module Telnet {
  import opened Bytes
  import opened Options
  import opened EggBuffer

  const NUL: Byte := 0
  const BOLD: Byte := 2
  const BEL: Byte := 7
  const LF: Byte := 10
  const CR: Byte := 13
  const PLAIN: Byte := 15
  const REVERSE: Byte := 22
  const ESC: Byte := 27
  const UNDERLINE: Byte := 31

  /** TELNET_CMD, the byte that starts a command. */
  const IAC: Byte := 255

  /** The byte the writer doubles. Its comment says it is the command byte, but the C literal is octal. */
  const DOUBLED: Byte := 173

  // ----- the writer, one byte at a time -----

  const CRLF: seq<Byte> := [CR, LF]

  /** The terminal sequence that switches formatting `n`. */
  function Switch(n: nat): seq<Byte>
    requires n < 10
  {
    [ESC, 91, 48 + n, 109]
  }

  predicate Formats(b: Byte) { b == BOLD || b == PLAIN || b == REVERSE || b == UNDERLINE }

  function SwitchOf(b: Byte): nat
    requires Formats(b)
  {
    if b == BOLD then 1 else if b == PLAIN then 0 else if b == REVERSE then 7 else 4
  }

  /** What byte `b`, read after `prev`, becomes; `code` says that a switch was emitted on this line, and `q` is
      the byte to double, if any. */
  function Out(q: Option<Byte>, code: bool, prev: Byte, b: Byte): seq<Byte> {
    if b == NUL then if prev == CR then CRLF else []
    else if Formats(b) then Switch(SwitchOf(b))
    else if b == BEL then []
    else if b == CR then if code then Switch(0) else []
    else if b == LF then (if code then Switch(0) else []) + CRLF
    else if q == Some(b) then [b, b]
    else [b]
  }

  function CodeAfter(code: bool, b: Byte): bool {
    if Formats(b) then true else if b == CR || b == LF then false else code
  }

  function Escape(q: Option<Byte>, code: bool, prev: Byte, data: seq<Byte>): seq<Byte>
    decreases data
  {
    if data == [] then []
    else Out(q, code, prev, data[0]) + Escape(q, CodeAfter(code, data[0]), data[0], data[1..])
  }

  function Before(before: Byte, data: seq<Byte>, i: nat): Byte
    requires i <= |data|
  {
    if i == 0 then before else data[i - 1]
  }

  /** Every NUL follows a CR. */
  ghost predicate NulsFollowCr(before: Byte, data: seq<Byte>) {
    forall i :: 0 <= i < |data| && data[i] == NUL ==> Before(before, data, i) == CR
  }

  // ----- the writer as written: batches of up to 63 plain bytes -----

  /** strchr(filterchars, b), which also finds the terminating NUL. */
  predicate IsFilterChar(q: Byte, b: Byte) {
    b == LF || b == CR || b == BEL || Formats(b) || b == q || b == NUL
  }

  lemma PlainOut(q: Byte, code: bool, prev: Byte, b: Byte)
    requires !IsFilterChar(q, b)
    ensures Out(Some(q), code, prev, b) == [b] && CodeAfter(code, b) == code
  {
  }

  lemma EscapeOne(q: Option<Byte>, code: bool, before: Byte, data: seq<Byte>, p: nat)
    requires p < |data|
    ensures Escape(q, code, Before(before, data, p), data[p..]) ==
      Out(q, code, Before(before, data, p), data[p]) + Escape(q, CodeAfter(code, data[p]), data[p], data[p + 1..])
  {
    assert data[p..][1..] == data[p + 1..];
  }

  lemma {:induction false} EscapePlain(q: Byte, code: bool, before: Byte, data: seq<Byte>, p: nat, n: nat)
    requires p + n <= |data| && forall i :: p <= i < p + n ==> !IsFilterChar(q, data[i])
    ensures Escape(Some(q), code, Before(before, data, p), data[p..]) ==
      data[p..p + n] + Escape(Some(q), code, Before(before, data, p + n), data[p + n..])
    decreases n
  {
    hide Escape, Out, CodeAfter, IsFilterChar;
    if n == 0 {
      assert data[p..p] == [];
    } else {
      EscapePlain(q, code, before, data, p, n - 1);
      var k := p + n - 1;
      PlainOut(q, code, Before(before, data, k), data[k]);
      EscapeOne(Some(q), code, before, data, k);
      Regroup(data[p..k], [data[k]], Escape(Some(q), code, data[k], data[k + 1..]));
      assert data[p..k] + [data[k]] == data[p..k + 1];
    }
  }

  lemma Regroup(a: seq<Byte>, b: seq<Byte>, c: seq<Byte>)
    ensures a + (b + c) == a + b + c
  {
  }

  /** Appends a string without NULs, given with its terminator. */
  method Put(newline: Buffer, s: seq<Byte>)
    requires newline.Valid() && NUL !in s
    modifies newline, newline.dest
    ensures newline.Valid() && (newline.dest == old(newline.dest) || fresh(newline.dest))
    ensures newline.Contents() == old(newline.Contents()) + s
  {
    Terminated(s);
    newline.Append(s + [NUL]);
  }

  /** The cases of the switch that deal with one byte. */
  method FilterChar(newline: Buffer, q: Byte, code: bool, ghost prev: Byte, b: Byte) returns (code': bool)
    requires newline.Valid() && IsFilterChar(q, b) && q >= 128 && (b == NUL ==> prev == CR)
    modifies newline, newline.dest
    ensures newline.Valid() && (newline.dest == old(newline.dest) || fresh(newline.dest))
    ensures newline.Contents() == old(newline.Contents()) + Out(Some(q), code, prev, b)
    ensures code' == CodeAfter(code, b)
  {
    code' := code;
    if b == NUL {
      Put(newline, CRLF);
    } else if Formats(b) {
      Put(newline, Switch(SwitchOf(b)));
      code' := true;
    } else if b == CR || b == LF {
      if code {
        Put(newline, Switch(0));
        code' := false;
      }
      if b != CR {
        Put(newline, CRLF);
      }
    } else if b == q {
      Put(newline, [q, q]);
    }
  }

  /** The default case: collects up to 63 bytes that need no attention. */
  method Batch(q: Byte, data: seq<Byte>, p: nat) returns (temp: seq<Byte>)
    requires p < |data| && !IsFilterChar(q, data[p])
    ensures 0 < |temp| <= 63 && p + |temp| <= |data| && temp == data[p..p + |temp|]
    ensures forall i :: p <= i < p + |temp| ==> !IsFilterChar(q, data[i])
    ensures NUL !in temp
  {
    temp := [];
    while |temp| < 63 && |temp| < |data| - p && !IsFilterChar(q, data[p + |temp|])
      invariant |temp| <= 63 && p + |temp| <= |data| && temp == data[p..p + |temp|]
      invariant forall i :: p <= i < p + |temp| ==> !IsFilterChar(q, data[i])
      decreases |data| - |temp|
    {
      temp := temp + [data[p + |temp|]];
    }
  }

  /** telnet_filter_write. `before` is the byte in front of the caller's data. A NUL that follows no CR is never
      passed: the loop goes round on it for ever, and the result is None. */
  method FilterWrite(q: Byte, before: Byte, data: seq<Byte>) returns (r: Option<seq<Byte>>)
    requires q >= 128
    ensures r.Some? <==> NulsFollowCr(before, data)
    ensures r.Some? ==> r.value == Escape(Some(q), false, before, data)
  {
    hide Escape, Out, CodeAfter, IsFilterChar;
    var newline := new Buffer();
    var code := false;
    var p := 0;
    ghost var goal := Escape(Some(q), false, before, data);
    assert data[0..] == data;
    while p < |data|
      invariant p <= |data| && newline.Valid() && fresh(newline) && fresh(newline.dest)
      invariant forall i :: 0 <= i < p && data[i] == NUL ==> Before(before, data, i) == CR
      invariant goal == newline.Contents() + Escape(Some(q), code, Before(before, data, p), data[p..])
    {
      var b := data[p];
      if !IsFilterChar(q, b) {
        var temp := Batch(q, data, p);
        EscapePlain(q, code, before, data, p, |temp|);
        Regroup(newline.Contents(), temp, Escape(Some(q), code, Before(before, data, p + |temp|), data[p + |temp|..]));
        Put(newline, temp);
        p := p + |temp|;
      } else if b == NUL && (if p == 0 then before else data[p - 1]) != CR {
        return None;
      } else {
        ghost var prev := Before(before, data, p);
        EscapeOne(Some(q), code, before, data, p);
        Regroup(newline.Contents(), Out(Some(q), code, prev, b), Escape(Some(q), CodeAfter(code, b), b, data[p + 1..]));
        code := FilterChar(newline, q, code, prev, b);
        p := p + 1;
      }
    }
    EscapeNothing(q, code, Before(before, data, p));
    assert data[|data|..] == [];
    r := Some(newline.Contents());
  }

  lemma EscapeNothing(q: Byte, code: bool, prev: Byte)
    ensures Escape(Some(q), code, prev, []) == []
  {
  }

  // ----- what the writer's output looks like -----

  /** CR and LF come only as CR LF. */
  ghost predicate LinesEnded(s: seq<Byte>) {
    && (forall i :: 0 <= i < |s| && s[i] == CR ==> i + 1 < |s| && s[i + 1] == LF)
    && (forall i :: 0 <= i < |s| && s[i] == LF ==> i > 0 && s[i - 1] == CR)
  }

  /** Byte `q` comes only in pairs. */
  predicate Paired(q: Byte, s: seq<Byte>)
    decreases s
  {
    if s == [] then true
    else if s[0] != q then Paired(q, s[1..])
    else |s| >= 2 && s[1] == q && Paired(q, s[2..])
  }

  lemma LinesEndedConcat(s: seq<Byte>, t: seq<Byte>)
    requires LinesEnded(s) && LinesEnded(t)
    ensures LinesEnded(s + t)
  {
    var u := s + t;
    forall i | 0 <= i < |u| && u[i] == CR ensures i + 1 < |u| && u[i + 1] == LF {
      assert u[i] == if i < |s| then s[i] else t[i - |s|];
    }
    forall i | 0 <= i < |u| && u[i] == LF ensures i > 0 && u[i - 1] == CR {
      assert u[i] == if i < |s| then s[i] else t[i - |s|];
    }
  }

  lemma {:induction false} PairedConcat(q: Byte, s: seq<Byte>, t: seq<Byte>)
    requires Paired(q, s) && Paired(q, t)
    ensures Paired(q, s + t)
    decreases s
  {
    if s == [] {
      assert s + t == t;
    } else if s[0] != q {
      assert (s + t)[1..] == s[1..] + t;
      PairedConcat(q, s[1..], t);
    } else {
      assert (s + t)[2..] == s[2..] + t;
      PairedConcat(q, s[2..], t);
    }
  }

  lemma {:induction false} PairedWithout(q: Byte, s: seq<Byte>)
    requires q !in s
    ensures Paired(q, s)
  {
    if s != [] {
      PairedWithout(q, s[1..]);
    }
  }

  lemma OutShape(q: Byte, code: bool, prev: Byte, b: Byte)
    requires q >= 128
    ensures var o := Out(Some(q), code, prev, b);
      LinesEnded(o) && Paired(q, o) && BEL !in o && NUL !in o
  {
    var o := Out(Some(q), code, prev, b);
    if b == q {
      assert Paired(q, [q, q]) by {
        assert [q, q][2..] == [];
      }
    } else {
      PairedWithout(q, o);
    }
  }

  /** For every input: no bare CR or LF, the quoted byte only doubled, no BEL and no NUL. */
  lemma {:induction false} EscapeShape(q: Byte, code: bool, prev: Byte, data: seq<Byte>)
    requires q >= 128
    ensures var o := Escape(Some(q), code, prev, data);
      LinesEnded(o) && Paired(q, o) && BEL !in o && NUL !in o
    decreases data
  {
    if data != [] {
      OutShape(q, code, prev, data[0]);
      EscapeShape(q, CodeAfter(code, data[0]), data[0], data[1..]);
      hide Out, Paired, LinesEnded;
      var o, r := Out(Some(q), code, prev, data[0]), Escape(Some(q), CodeAfter(code, data[0]), data[0], data[1..]);
      LinesEndedConcat(o, r);
      PairedConcat(q, o, r);
    }
  }

  /** A terminal reading the output: no formatting is on where a line ends. */
  predicate ClosedAtLineEnds(on: bool, s: seq<Byte>)
    decreases s
  {
    if s == [] then true
    else if s[0] == ESC && |s| >= 4 then ClosedAtLineEnds(s[2] != 48, s[4..])
    else (s[0] == CR ==> !on) && ClosedAtLineEnds(on, s[1..])
  }

  /** What reading the output for byte `b` leaves switched on. */
  function OnAfter(on: bool, code: bool, b: Byte): bool {
    if Formats(b) then SwitchOf(b) != 0 else if (b == CR || b == LF) && code then false else on
  }

  lemma OutRead(q: Option<Byte>, code: bool, on: bool, prev: Byte, b: Byte, r: seq<Byte>)
    requires b != ESC && q != Some(ESC) && (on ==> code) && (b == NUL ==> !code)
    requires ClosedAtLineEnds(OnAfter(on, code, b), r)
    ensures ClosedAtLineEnds(on, Out(q, code, prev, b) + r)
  {
    if Formats(b) {
      SwitchRead(on, SwitchOf(b), r);
    } else if (b == CR || b == LF) && code {
      var tail := if b == CR then [] else CRLF;
      LineRead(false, tail, r);
      SwitchRead(on, 0, tail + r);
      Regroup(Switch(0), tail, r);
      assert b == CR ==> Out(q, code, prev, b) == Switch(0) + tail;
    } else {
      LineRead(on, Out(q, code, prev, b), r);
    }
  }

  lemma NulsTail(prev: Byte, data: seq<Byte>)
    requires data != [] && NulsFollowCr(prev, data)
    ensures data[0] == NUL ==> prev == CR
    ensures NulsFollowCr(data[0], data[1..])
  {
    assert Before(prev, data, 0) == prev;
    var b, rest := data[0], data[1..];
    forall i | 0 <= i < |rest| && rest[i] == NUL ensures Before(b, rest, i) == CR {
      assert data[i + 1] == NUL && Before(prev, data, i + 1) == CR;
    }
  }

  /** Formatting may be on only while `code` says so, and every line end is preceded by the switch back. */
  lemma {:induction false} FormattingClosed(q: Option<Byte>, code: bool, on: bool, prev: Byte, data: seq<Byte>)
    requires ESC !in data && q != Some(ESC)
    requires on ==> code
    requires NulsFollowCr(prev, data) && (prev == CR ==> !code)
    ensures ClosedAtLineEnds(on, Escape(q, code, prev, data))
    decreases data
  {
    if data != [] {
      NulsTail(prev, data);
      hide ClosedAtLineEnds, Out;
      var b, rest := data[0], data[1..];
      var r := Escape(q, CodeAfter(code, b), b, rest);
      FormattingClosed(q, CodeAfter(code, b), OnAfter(on, code, b), b, rest);
      OutRead(q, code, on, prev, b, r);
    } else {
      assert ClosedAtLineEnds(on, []);
    }
  }

  lemma SwitchRead(on: bool, n: nat, r: seq<Byte>)
    requires n < 10 && ClosedAtLineEnds(n != 0, r)
    ensures ClosedAtLineEnds(on, Switch(n) + r)
  {
    var s := Switch(n) + r;
    assert s[0] == ESC && s[2] == 48 + n && s[4..] == r;
  }

  lemma {:induction false} LineRead(on: bool, o: seq<Byte>, r: seq<Byte>)
    requires ESC !in o && (CR in o ==> !on) && ClosedAtLineEnds(on, r)
    ensures ClosedAtLineEnds(on, o + r)
  {
    if o == [] {
      assert o + r == r;
    } else {
      assert o[0] in o && (o + r)[0] == o[0] && (o + r)[1..] == o[1..] + r;
      LineRead(on, o[1..], r);
    }
  }
}
