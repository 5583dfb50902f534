/** What telnet_filter_read of c-cpp/onethread/telnet.c makes of a chunk, on values: its text, its answers, and how they
    compare with the standard. Module TelnetStrip does it in place.
 */
module TelnetReader {
  import opened Bytes
  import opened Options
  import opened Telnet

  const ECHO: Byte := 1
  const AYT: Byte := 246
  const WILL: Byte := 251
  const WONT: Byte := 252
  const DO: Byte := 253
  const DONT: Byte := 254

  /** What the filter sends back: an answer to a negotiation, or to "are you there". */
  datatype Reply = Mode(cmd: Byte, what: Byte) | Yes

  /** `arg & (TELNET_ECHO | TELNET_SUPRESS_GA)`, that is, one of the two lowest bits. */
  predicate Echoing(arg: Byte) { arg % 4 != 0 }

  predicate Negotiates(b: Byte) { b == DO || b == DONT || b == WILL || b == WONT }

  /** The answer to a command with an argument, if any, and the echo flag after it. */
  function Answer(kind: Byte, arg: Byte, echo: bool): (seq<Reply>, bool) {
    if kind == DO then
      if Echoing(arg) then (if echo then [] else [Mode(WILL, arg)], true)
      else ([Mode(WONT, arg)], echo)
    else if kind == DONT && arg == ECHO && echo then ([Mode(WONT, arg)], false)
    else ([], echo)
  }

  /** The text of a chunk, the replies to its commands, the echo flag after it, and whether its last command
      is cut off by the end of the chunk. */
  datatype Decoded = Decoded(text: seq<Byte>, replies: seq<Reply>, echo: bool, cut: bool)

  /** Byte `i`, or the NUL that terminates the chunk. */
  function At(s: seq<Byte>, i: nat): Byte { if i < |s| then s[i] else 0 }

  function Decode(s: seq<Byte>, echo: bool): Decoded
    decreases s
  {
    if s == [] then Decoded([], [], echo, false)
    else if s[0] != IAC then
      var r := Decode(s[1..], echo);
      r.(text := [s[0]] + r.text)
    else if At(s, 1) == AYT then
      // the command byte itself stays in the text
      var r := Decode(s[1..], echo);
      r.(replies := [Yes] + r.replies)
    else if At(s, 1) == IAC then
      var r := Decode(s[2..], echo);
      r.(text := [IAC] + r.text)
    else if Negotiates(At(s, 1)) then
      var (replies, echo') := Answer(s[1], At(s, 2), echo);
      if |s| < 3 then Decoded([], replies, echo', true)
      else
        var r := Decode(s[3..], echo');
        r.(replies := replies + r.replies)
    else if |s| < 2 then Decoded([], [], echo, true)
    else Decode(s[2..], echo)
  }

  // ----- echo negotiation -----

  function Count(rs: seq<Reply>, r: Reply -> bool): nat {
    if rs == [] then 0 else (if r(rs[0]) then 1 else 0) + Count(rs[1..], r)
  }

  const IsWill := (r: Reply) => r.Mode? && r.cmd == WILL

  /** A WONT for the echo option; the refusals of other options are not of this form. */
  const IsEchoWont := (r: Reply) => r.Mode? && r.cmd == WONT && r.what == ECHO

  lemma {:induction false} CountConcat(a: seq<Reply>, b: seq<Reply>, p: Reply -> bool)
    ensures Count(a + b, p) == Count(a, p) + Count(b, p)
  {
    if a == [] {
      assert a + b == b;
    } else {
      assert (a + b)[1..] == a[1..] + b;
      CountConcat(a[1..], b, p);
    }
  }

  lemma AnswerBalance(kind: Byte, arg: Byte, echo: bool)
    ensures var (rs, echo') := Answer(kind, arg, echo);
      Count(rs, IsWill) - Count(rs, IsEchoWont) == (if echo' then 1 else 0) - (if echo then 1 else 0)
  {
    var (rs, echo') := Answer(kind, arg, echo);
    if rs != [] {
      assert rs[1..] == [];
    }
  }

  /** On any input, WILLs minus echo WONTs make up the change of the echo flag. */
  lemma {:induction false} EchoBalance(s: seq<Byte>, echo: bool)
    ensures var d := Decode(s, echo);
      Count(d.replies, IsWill) - Count(d.replies, IsEchoWont) == (if d.echo then 1 else 0) - (if echo then 1 else 0)
    decreases s
  {
    if s == [] {
    } else if s[0] != IAC {
      EchoBalance(s[1..], echo);
    } else if At(s, 1) == AYT {
      EchoBalance(s[1..], echo);
      var r := Decode(s[1..], echo).replies;
      assert ([Yes] + r)[1..] == r;
    } else if At(s, 1) == IAC {
      EchoBalance(s[2..], echo);
    } else if Negotiates(At(s, 1)) {
      var (rs, echo') := Answer(s[1], At(s, 2), echo);
      AnswerBalance(s[1], At(s, 2), echo);
      if |s| >= 3 {
        EchoBalance(s[3..], echo');
        CountConcat(rs, Decode(s[3..], echo').replies, IsWill);
        CountConcat(rs, Decode(s[3..], echo').replies, IsEchoWont);
      }
    } else if |s| >= 2 {
      EchoBalance(s[2..], echo);
    }
  }

  // ----- chunks and streams -----

  /** Text and replies already at hand, and then what is decoded. */
  function Prefixed(text: seq<Byte>, replies: seq<Reply>, d: Decoded): Decoded {
    d.(text := text + d.text, replies := replies + d.replies)
  }

  lemma PrefixedTwice(k: seq<Byte>, e: seq<Reply>, k': seq<Byte>, e': seq<Reply>, d: Decoded)
    ensures Prefixed(k, e, Prefixed(k', e', d)) == Prefixed(k + k', e + e', d)
  {
    Regroup(k, k', d.text);
    assert e + (e' + d.replies) == e + e' + d.replies;
  }

  /** The text, the replies and the length of the command a chunk starts with, as one step of decoding. */
  lemma StepDecodes(s: seq<Byte>, echo: bool)
    requires s != [] && s[0] == IAC
    ensures var kind := At(s, 1);
      && (kind == AYT ==> Decode(s, echo) == Prefixed([], [Yes], Decode(s[1..], echo)))
      && (kind == IAC ==> Decode(s, echo) == Prefixed([IAC], [], Decode(s[2..], echo)))
      && (Negotiates(kind) ==>
           var (e, echo') := Answer(kind, At(s, 2), echo);
           Decode(s, echo) == if |s| < 3 then Decoded([], e, echo', true) else Prefixed([], e, Decode(s[3..], echo')))
      && (kind != AYT && kind != IAC && !Negotiates(kind) ==>
           Decode(s, echo) == if |s| < 2 then Decoded([], [], echo, true) else Prefixed([], [], Decode(s[2..], echo)))
  {
  }

  /** How many bytes the first step of decoding takes, its text, replies and the echo flag after it. */
  function FirstStep(s: seq<Byte>, echo: bool): (nat, seq<Byte>, seq<Reply>, bool)
    requires s != []
  {
    if s[0] != IAC then (1, [s[0]], [], echo)
    else if At(s, 1) == AYT then (1, [], [Yes], echo)
    else if At(s, 1) == IAC then (2, [IAC], [], echo)
    else if Negotiates(At(s, 1)) then (3, [], Answer(At(s, 1), At(s, 2), echo).0, Answer(At(s, 1), At(s, 2), echo).1)
    else (2, [], [], echo)
  }

  lemma DecodeFirst(s: seq<Byte>, echo: bool)
    requires s != []
    ensures var (n, text, replies, echo') := FirstStep(s, echo);
      Decode(s, echo) ==
      if n > |s| then Decoded([], replies, echo', true) else Prefixed(text, replies, Decode(s[n..], echo'))
  {
    if s[0] == IAC {
      StepDecodes(s, echo);
    } else {
      var r := Decode(s[1..], echo);
      assert [] + r.replies == r.replies;
    }
  }

  /** A stream may be read in chunks: after one that does not end within a command, the next is read as if they
      were one. */
  lemma {:induction false} DecodeStream(a: seq<Byte>, b: seq<Byte>, echo: bool)
    requires !Decode(a, echo).cut
    ensures var d := Decode(a, echo); Decode(a + b, echo) == Prefixed(d.text, d.replies, Decode(b, d.echo))
    decreases |a|
  {
    hide Decode, FirstStep;
    if a == [] {
      assert a + b == b;
      DecodeNothing(echo);
      var d := Decode(b, echo);
      assert [] + d.text == d.text && [] + d.replies == d.replies;
    } else {
      var (n, text, replies, echo') := FirstStep(a, echo);
      DecodeFirst(a, echo);
      DecodeFirst(a + b, echo);
      SameFirstStep(a, b, echo);
      assert (a + b)[n..] == a[n..] + b;
      DecodeStream(a[n..], b, echo');
      var r := Decode(a[n..], echo');
      PrefixedTwice(text, replies, r.text, r.replies, Decode(b, r.echo));
    }
  }

  lemma DecodeNothing(echo: bool)
    ensures Decode([], echo) == Decoded([], [], echo, false)
  {
  }

  lemma SameFirstStep(a: seq<Byte>, b: seq<Byte>, echo: bool)
    requires a != [] && FirstStep(a, echo).0 <= |a|
    ensures a + b != [] && FirstStep(a + b, echo) == FirstStep(a, echo)
    ensures FirstStep(a, echo).0 > 0
  {
  }

  // ----- stripping by the standard -----

  /** What a chunk is made of (RFC 854, "TELNET COMMAND STRUCTURE"): commands have two bytes, negotiations three; the
      last one may be cut off. */
  datatype Token = Char(b: Byte) | Quoted | AreYouThere | Order(cmd: Byte) | Negotiation(kind: Byte, arg: Byte)
    | Partial(bytes: seq<Byte>)

  function SpellOne(t: Token): seq<Byte> {
    match t
    case Char(b) => [b]
    case Quoted => [IAC, IAC]
    case AreYouThere => [IAC, AYT]
    case Order(cmd) => [IAC, cmd]
    case Negotiation(kind, arg) => [IAC, kind, arg]
    case Partial(bytes) => bytes
  }

  function LexOne(s: seq<Byte>): (t: Token)
    requires s != []
    ensures 0 < |SpellOne(t)| <= |s| && SpellOne(t) == s[..|SpellOne(t)|]
    ensures t.Partial? ==> SpellOne(t) == s
  {
    if s[0] != IAC then Char(s[0])
    else if |s| == 1 then Partial(s)
    else if s[1] == IAC then Quoted
    else if s[1] == AYT then AreYouThere
    else if !Negotiates(s[1]) then Order(s[1])
    else if |s| == 2 then Partial(s)
    else Negotiation(s[1], s[2])
  }

  function Lex(s: seq<Byte>): seq<Token>
    decreases s
  {
    if s == [] then []
    else
      var t := LexOne(s);
      if t.Partial? then [t] else [t] + Lex(s[|SpellOne(t)|..])
  }

  function Spell(ts: seq<Token>): seq<Byte> {
    if ts == [] then [] else SpellOne(ts[0]) + Spell(ts[1..])
  }

  /** The tokens are all of the chunk. */
  lemma {:induction false} SpellLex(s: seq<Byte>)
    ensures Spell(Lex(s)) == s
    decreases s
  {
    if s != [] {
      var t := LexOne(s);
      hide LexOne, SpellOne;
      if t.Partial? {
        assert [t][1..] == [] && s + [] == s;
      } else {
        var rest := s[|SpellOne(t)|..];
        SpellLex(rest);
        assert Lex(s)[1..] == Lex(rest);
        assert s == SpellOne(t) + rest;
      }
    }
  }

  /** The text without its commands. */
  function Stripped(ts: seq<Token>): seq<Byte> {
    if ts == [] then []
    else (match ts[0] case Char(b) => [b] case Quoted => [IAC] case _ => []) + Stripped(ts[1..])
  }

  function Inquiries(ts: seq<Token>): nat {
    if ts == [] then 0 else (if ts[0] == AreYouThere then 1 else 0) + Inquiries(ts[1..])
  }

  predicate EndsInside(ts: seq<Token>) { ts != [] && ts[|ts| - 1].Partial? }

  /** What the decoder keeps of a token. */
  function Kept(t: Token): seq<Byte> {
    match t case Char(b) => [b] case Quoted => [IAC] case AreYouThere => [AYT] case _ => []
  }

  function KeptOf(ts: seq<Token>): seq<Byte> {
    if ts == [] then [] else Kept(ts[0]) + KeptOf(ts[1..])
  }

  function EchoAfter(t: Token, echo: bool): bool {
    if t.Negotiation? then Answer(t.kind, t.arg, echo).1 else echo
  }

  lemma DecodeToken(s: seq<Byte>, echo: bool)
    requires s != []
    ensures var t, d := LexOne(s), Decode(s, echo);
      && |SpellOne(t)| <= |s|
      && (t.Partial? ==> d.cut && d.text == [])
      && (!t.Partial? ==>
           var r := Decode(s[|SpellOne(t)|..], EchoAfter(t, echo));
           d.cut == r.cut && d.text == Kept(t) + r.text)
  {
    var t := LexOne(s);
    if t == AreYouThere {
      assert s[1..][1..] == s[2..];
      assert Decode(s[1..], echo).text == [AYT] + Decode(s[2..], echo).text;
    }
  }

  /** The decoder keeps characters, one of two quoted IACs, and the command byte of "are you there", that is, one
      byte too many for each of these; and it is cut exactly by a partial command. */
  lemma {:induction false} DecodeLex(s: seq<Byte>, echo: bool)
    ensures var d, ts := Decode(s, echo), Lex(s);
      && d.cut == EndsInside(ts)
      && d.text == KeptOf(ts)
      && |d.text| == |Stripped(ts)| + Inquiries(ts)
      && (Inquiries(ts) == 0 ==> d.text == Stripped(ts))
    decreases s
  {
    hide Decode, LexOne, SpellOne, EchoAfter;
    if s == [] {
      DecodeNothing(echo);
    } else {
      var t := LexOne(s);
      DecodeToken(s, echo);
      if t.Partial? {
        assert Lex(s)[1..] == [];
      } else {
        var rest := Lex(s[|SpellOne(t)|..]);
        DecodeLex(s[|SpellOne(t)|..], EchoAfter(t, echo));
        assert Lex(s)[1..] == rest;
        assert rest != [] ==> Lex(s)[|Lex(s)| - 1] == rest[|rest| - 1];
      }
    }
  }

  /** What the program leaves of a chunk, when it does not run over its end: all of the decoded text, but nothing of a
      chunk that ends within a command. */
  function Remaining(s: seq<Byte>, echo: bool): seq<Byte> {
    var d := Decode(s, echo);
    if d.cut then [] else d.text
  }

  /** That is the text without its commands exactly if there is no "are you there" and no command is cut off; or there
      is one of either. With a command cut off the program survives only with one byte of text before it. */
  lemma RemainingIsStripped(s: seq<Byte>, echo: bool)
    requires Decode(s, echo).cut ==> |Decode(s, echo).text| == 1
    ensures Remaining(s, echo) == Stripped(Lex(s)) <==> Inquiries(Lex(s)) == if EndsInside(Lex(s)) then 1 else 0
  {
    DecodeLex(s, echo);
  }

  // ----- reading what was written -----

  lemma {:induction false} DecodePaired(s: seq<Byte>, echo: bool)
    requires Paired(IAC, s)
    ensures Decode(s, echo) == Decoded(Halved(s), [], echo, false)
    decreases s
  {
    if s == [] {
    } else if s[0] != IAC {
      DecodePaired(s[1..], echo);
    } else {
      DecodePaired(s[2..], echo);
    }
  }

  /** Every pair of IACs replaced by one. */
  function Halved(s: seq<Byte>): seq<Byte>
    requires Paired(IAC, s)
    decreases s
  {
    if s == [] then [] else if s[0] != IAC then [s[0]] + Halved(s[1..]) else [IAC] + Halved(s[2..])
  }

  lemma {:induction false} HalvedConcat(s: seq<Byte>, t: seq<Byte>)
    requires Paired(IAC, s) && Paired(IAC, t)
    ensures Paired(IAC, s + t) && Halved(s + t) == Halved(s) + Halved(t)
    decreases s
  {
    PairedConcat(IAC, s, t);
    if s == [] {
      assert s + t == t;
    } else {
      var n := if s[0] != IAC then 1 else 2;
      var u := s + t;
      assert u[0] == s[0] && u[n..] == s[n..] + t;
      HalvedConcat(s[n..], t);
      Regroup([s[0]], Halved(s[n..]), Halved(t));
      assert Halved(u) == [s[0]] + Halved(u[n..]);
    }
  }

  lemma {:induction false} HalvedWithout(s: seq<Byte>)
    requires IAC !in s
    ensures Paired(IAC, s) && Halved(s) == s
  {
    if s != [] {
      HalvedWithout(s[1..]);
    }
  }

  /** Had the writer doubled the command byte, the reader would undo exactly the doubling: nothing is answered,
      nothing is lost, and the text is what the writer would have sent without doubling. */
  lemma ReadUndoesDoubling(code: bool, prev: Byte, data: seq<Byte>, echo: bool)
    ensures Decode(Escape(Some(IAC), code, prev, data), echo) ==
      Decoded(Escape(None, code, prev, data), [], echo, false)
  {
    HalvedEscape(code, prev, data);
    DecodePaired(Escape(Some(IAC), code, prev, data), echo);
  }

  lemma {:induction false} HalvedEscape(code: bool, prev: Byte, data: seq<Byte>)
    ensures Paired(IAC, Escape(Some(IAC), code, prev, data))
    ensures Halved(Escape(Some(IAC), code, prev, data)) == Escape(None, code, prev, data)
    decreases data
  {
    if data != [] {
      var b := data[0];
      HalvedEscape(CodeAfter(code, b), b, data[1..]);
      HalvedOut(code, prev, b);
      HalvedConcat(Out(Some(IAC), code, prev, b), Escape(Some(IAC), CodeAfter(code, b), b, data[1..]));
    }
  }

  lemma HalvedOut(code: bool, prev: Byte, b: Byte)
    ensures Paired(IAC, Out(Some(IAC), code, prev, b))
    ensures Halved(Out(Some(IAC), code, prev, b)) == Out(None, code, prev, b)
  {
    OutShape(IAC, code, prev, b);
    if b == IAC {
      assert [IAC, IAC][2..] == [];
    } else {
      HalvedWithout(Out(None, code, prev, b));
    }
  }

  /** Text the writer leaves as it is, apart from doubling: no control codes of its own, and lines ended by CR LF. */
  ghost predicate Plain(prev: Byte, data: seq<Byte>) {
    && (forall i :: 0 <= i < |data| ==> !Formats(data[i]) && data[i] != BEL && data[i] != NUL)
    && (forall i :: 0 <= i < |data| && data[i] == LF ==> Before(prev, data, i) == CR)
    && (forall i :: 0 <= i < |data| && data[i] == CR ==> i + 1 < |data| && data[i + 1] == LF)
  }

  function Doubled(q: Byte, data: seq<Byte>): seq<Byte>
    decreases data
  {
    if data == [] then [] else (if data[0] == q then [q, q] else [data[0]]) + Doubled(q, data[1..])
  }

  lemma PlainTail(prev: Byte, data: seq<Byte>)
    requires data != [] && Plain(prev, data)
    ensures Plain(data[0], data[1..])
    ensures data[0] == CR ==> |data| > 1 && data[1] == LF && Plain(LF, data[2..])
    ensures data[0] == LF ==> prev == CR
  {
    var rest := data[1..];
    assert data[0] == LF ==> Before(prev, data, 0) == CR;
    forall i | 0 <= i < |rest| && rest[i] == LF ensures Before(data[0], rest, i) == CR {
      assert Before(prev, data, i + 1) == CR;
    }
    if data[0] == CR {
      var tail := data[2..];
      forall i | 0 <= i < |tail| && tail[i] == LF ensures Before(LF, tail, i) == CR {
        assert Before(prev, data, i + 2) == CR;
      }
    }
  }

  lemma {:induction false} EscapeOfPlain(q: Byte, prev: Byte, data: seq<Byte>)
    requires q >= 128 && Plain(prev, data) && prev != CR
    ensures Escape(Some(q), false, prev, data) == Doubled(q, data)
    decreases data
  {
    if data != [] {
      PlainTail(prev, data);
      hide Plain;
      if data[0] == CR {
        EscapeOfPlain(q, LF, data[2..]);
        assert data[1..][1..] == data[2..];
        EscapeTwo(q, prev, data);
        assert Doubled(q, data[1..]) == [LF] + Doubled(q, data[2..]);
        assert Doubled(q, data) == [CR] + Doubled(q, data[1..]);
      } else {
        EscapeOfPlain(q, data[0], data[1..]);
        PlainByte(q, prev, data);
      }
    }
  }

  lemma PlainByte(q: Byte, prev: Byte, data: seq<Byte>)
    requires q >= 128 && data != [] && Plain(prev, data) && data[0] != CR && prev != CR
    ensures Out(Some(q), false, prev, data[0]) == if data[0] == q then [q, q] else [data[0]]
    ensures !CodeAfter(false, data[0])
  {
    PlainTail(prev, data);
  }

  lemma EscapeTwo(q: Byte, prev: Byte, data: seq<Byte>)
    requires q >= 128 && |data| > 1 && data[0] == CR && data[1] == LF
    ensures Escape(Some(q), false, prev, data) == CRLF + Escape(Some(q), false, LF, data[2..])
  {
    assert data[1..][1..] == data[2..];
    assert Escape(Some(q), false, CR, data[1..]) == CRLF + Escape(Some(q), false, LF, data[2..]);
  }

  function Occurrences(s: seq<Byte>, b: Byte): nat {
    if s == [] then 0 else (if s[0] == b then 1 else 0) + Occurrences(s[1..], b)
  }

  lemma {:induction false} OccurrencesIn(s: seq<Byte>, b: Byte)
    ensures Occurrences(s, b) > 0 <==> b in s
  {
    if s != [] {
      OccurrencesIn(s[1..], b);
    }
  }

  /** Every IAC that survives reading has cost another one. */
  lemma {:induction false} ReadCostsIacs(s: seq<Byte>, echo: bool)
    ensures 2 * Occurrences(Decode(s, echo).text, IAC) <= Occurrences(s, IAC)
    decreases s
  {
    if s == [] {
    } else if s[0] != IAC {
      ReadCostsIacs(s[1..], echo);
    } else if At(s, 1) == AYT {
      ReadCostsIacs(s[1..], echo);
    } else if At(s, 1) == IAC {
      ReadCostsIacs(s[2..], echo);
      assert s[1..][1..] == s[2..];
    } else if Negotiates(At(s, 1)) {
      if |s| >= 3 {
        ReadCostsIacs(s[3..], Answer(s[1], At(s, 2), echo).1);
        assert s[1..][1..] == s[2..] && s[2..][1..] == s[3..];
      }
    } else if |s| >= 2 {
      ReadCostsIacs(s[2..], echo);
      assert s[1..][1..] == s[2..];
    }
  }

  lemma {:induction false} DoubledCounts(q: Byte, data: seq<Byte>)
    requires q != IAC
    ensures Occurrences(Doubled(q, data), IAC) == Occurrences(data, IAC)
    ensures |Doubled(q, data)| == |data| + Occurrences(data, q)
    decreases data
  {
    if data != [] {
      DoubledCounts(q, data[1..]);
      var d := Doubled(q, data[1..]);
      assert data[0] != q ==> ([data[0]] + d)[1..] == d;
      assert ([q, q] + d)[1..] == [q] + d && ([q] + d)[1..] == d;
    }
  }

  lemma {:induction false} DoubledWithout(q: Byte, data: seq<Byte>)
    requires q !in data
    ensures Doubled(q, data) == data
    decreases data
  {
    if data != [] {
      DoubledWithout(q, data[1..]);
    }
  }

  /** Plain text comes back unchanged exactly when the doubled byte is the command byte, or neither occurs; whatever
      byte `prev` was in front of it. */
  lemma RoundTrip(q: Byte, prev: Byte, data: seq<Byte>, echo: bool)
    requires q >= 128 && Plain(LF, data)
    ensures var d := Decode(Escape(Some(q), false, prev, data), echo);
      && (d.text == data <==> q == IAC || (q !in data && IAC !in data))
      && (d.text == data ==> d == Decoded(data, [], echo, false))
  {
    assert Escape(Some(q), false, prev, data) == Escape(Some(q), false, LF, data);
    EscapeOfPlain(q, LF, data);
    if q == IAC {
      DecodeDoubled(data, echo);
    } else {
      var d := Doubled(q, data);
      OccurrencesIn(data, IAC);
      OccurrencesIn(data, q);
      DoubledCounts(q, data);
      ReadCostsIacs(d, echo);
      if IAC !in data {
        OccurrencesIn(d, IAC);
        HalvedWithout(d);
        DecodePaired(d, echo);
        if q !in data {
          DoubledWithout(q, data);
        }
      }
    }
  }

  /** As the code has it: the texts that come back are those with neither 173 nor 255 in them. */
  lemma RoundTripAsWritten(prev: Byte, data: seq<Byte>, echo: bool)
    requires Plain(LF, data)
    ensures Decode(Escape(Some(DOUBLED), false, prev, data), echo).text == data <==> DOUBLED !in data && IAC !in data
  {
    RoundTrip(DOUBLED, prev, data, echo);
  }

  lemma {:induction false} DecodeDoubled(data: seq<Byte>, echo: bool)
    ensures Decode(Doubled(IAC, data), echo) == Decoded(data, [], echo, false)
    decreases data
  {
    if data != [] {
      DecodeDoubled(data[1..], echo);
      var d := Doubled(IAC, data[1..]);
      assert ([IAC, IAC] + d)[2..] == d && ([data[0]] + d)[1..] == d;
    }
  }
}
