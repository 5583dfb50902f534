/** What the telnet filter answers, read off the commands of a chunk: the numbers are those of RFC 854, RFC 857
    (ECHO) and RFC 858 (SUPPRESS-GO-AHEAD).
 */
module TelnetReplies {
  import opened Bytes
  import opened Bits
  import opened Telnet
  import opened TelnetReader

  /** The answer to one command, and whether the filter echoes afterwards. "Are you there" (246) is answered. A DO
      (253) of an option that shares no bit with ECHO (1) and SUPPRESS-GO-AHEAD (3) is refused (252); of any other
      it is agreed to (251), unless the filter echoes already, and then it does. A DONT (254) of ECHO is confirmed
      if it does, and then it does not. A DO whose option is cut off is taken for one of option 0. */
  function ReplyTo(t: Token, on: bool): (seq<Reply>, bool) {
    match t
    case AreYouThere => ([Yes], on)
    case Negotiation(kind, option) =>
      if kind == 253 then
        if And(option, Or(1, 3)) == 0 then ([Mode(252, option)], on)
        else (if on then [] else [Mode(251, option)], true)
      else if kind == 254 && option == 1 && on then ([Mode(252, 1)], false)
      else ([], on)
    case Partial(bytes) => (if bytes == [255, 253] then [Mode(252, 0)] else [], on)
    case _ => ([], on)
  }

  /** The answers to all of them, in order. */
  function Replies(ts: seq<Token>, on: bool): (seq<Reply>, bool) {
    if ts == [] then ([], on)
    else
      var (first, next) := ReplyTo(ts[0], on);
      var (rest, end) := Replies(ts[1..], next);
      (first + rest, end)
  }

  lemma EchoOptions(option: Byte)
    ensures And(option, Or(1, 3)) == option % 4
  {
    assert Or(1, 3) == 3;
    var half := option as nat / 2;
    assert And(half, 1) == half % 2;
    assert And(option, 3) == option % 2 + 2 * And(half, 1);
  }

  /** One token's share of what is decoded. */
  lemma TokenReplies(s: seq<Byte>, on: bool)
    requires s != []
    ensures var t, d := LexOne(s), Decode(s, on);
      var (first, next) := ReplyTo(t, on);
      && |SpellOne(t)| <= |s|
      && (t.Partial? ==> d.replies == first && d.echo == next)
      && (!t.Partial? ==>
           var r := Decode(s[|SpellOne(t)|..], next);
           d.replies == first + r.replies && d.echo == r.echo)
  {
    var t := LexOne(s);
    if t == AreYouThere {
      assert s[1..][1..] == s[2..];
    } else if t.Negotiation? {
      EchoOptions(t.arg);
    } else if t.Partial? {
      EchoOptions(0);
    }
  }

  /** The filter's replies, and what becomes of its echo flag, are those of the tokens of the chunk. */
  lemma {:induction false} RepliesOfTokens(s: seq<Byte>, on: bool)
    ensures var d, (replies, end) := Decode(s, on), Replies(Lex(s), on);
      d.replies == replies && d.echo == end
    decreases s
  {
    if s != [] {
      var t := LexOne(s);
      TokenReplies(s, on);
      hide Decode, LexOne, ReplyTo;
      if t.Partial? {
        assert Lex(s)[1..] == [] && ReplyTo(t, on).0 + [] == ReplyTo(t, on).0;
      } else {
        RepliesOfTokens(s[|SpellOne(t)|..], ReplyTo(t, on).1);
        assert Lex(s)[1..] == Lex(s[|SpellOne(t)|..]);
      }
    }
  }
}
