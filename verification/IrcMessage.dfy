/** IRC messages as c-cpp/circ/circ.c reads them (RFC 1459, section 2.3.1), on values: the parser, a printer,
    and what each undoes. Module Circ parses in place.
 */
module IrcMessage {
  import opened Options
  import opened Sequences

  /** The parameters the parser tells apart; the last takes the rest of the line. */
  const MAX_ARGS: nat := 18

  datatype Message = Message(prefixed: bool, nick: Option<string>, ident: Option<string>, host: Option<string>,
                             command: Option<string>, args: seq<string>)

  // ----- parsing -----

  /** strtok: leading delimiters skipped, then a token, and what follows its delimiter. */
  function Token(s: string, delim: char): (Option<string>, string)
    decreases |s|
  {
    if s == [] then (None, [])
    else if s[0] == delim then Token(s[1..], delim)
    else
      var k := Pos(s, delim);
      (Some(s[..k]), if k == |s| then [] else s[k + 1..])
  }

  /** The parameters of a command, `n` of them already read. */
  function Args(text: string, n: nat): seq<string>
    decreases |text|
  {
    if text == [] then []
    else if text[0] == ':' then [text[1..]]
    else
      var k := Pos(text, ' ');
      if k == |text| || n + 1 == MAX_ARGS then [text]
      else [text[..k]] + Args(text[k + 1..], n + 1)
  }

  function Body(prefixed: bool, nick: Option<string>, ident: Option<string>, host: Option<string>,
                text: string): Message
  {
    var k := Pos(text, ' ');
    Message(prefixed, nick, ident, host, Some(text[..k]), if k == |text| then [] else Args(text[k + 1..], 0))
  }

  /** The three parts of a prefix. */
  function Prefix(mask: string): (Option<string>, Option<string>, Option<string>) {
    var (nick, rest) := Token(mask, '!');
    var (ident, host) := Token(rest, '@');
    (nick, ident, if host == [] then None else Some(host))
  }

  function Parse(line: string): Message {
    if line != [] && line[0] == ':' then
      var k := Pos(line, ' ');
      if k == |line| then Message(true, None, None, None, None, [])
      else
        assert k > 0;
        var (nick, ident, host) := Prefix(line[1..k]);
        Body(true, nick, ident, host, line[k + 1..])
    else Body(false, None, None, None, line)
  }

  // ----- printing -----

  /** A last parameter that would not be read back as it is without the colon. */
  predicate NeedsColon(arg: string, n: nat) {
    arg == [] || arg[0] == ':' || (' ' in arg && n + 1 < MAX_ARGS)
  }

  function PrintArgs(args: seq<string>, n: nat): string {
    if args == [] then []
    else if |args| == 1 then (if NeedsColon(args[0], n) then " :" else " ") + args[0]
    else " " + args[0] + PrintArgs(args[1..], n + 1)
  }

  function Mark(c: char, part: Option<string>): string {
    if part.Some? then [c] + part.value else []
  }

  function PrintPrefix(nick: Option<string>, ident: Option<string>, host: Option<string>): string {
    (if nick.Some? then nick.value else []) + Mark('!', ident) + Mark('@', host)
  }

  function Print(m: Message): string {
    (if m.prefixed then ":" + PrintPrefix(m.nick, m.ident, m.host) else "")
    + (if m.command == None then ""
       else (if m.prefixed then " " else "") + m.command.value + PrintArgs(m.args, 0))
  }

  // ----- the messages there are -----

  predicate GoodPart(part: Option<string>, delim: char) {
    part.Some? ==> part.value != [] && delim !in part.value && ' ' !in part.value
  }

  /** Only the last parameter may be anything at all. */
  ghost predicate GoodArgs(args: seq<string>, n: nat) {
    && |args| + n <= MAX_ARGS
    && forall i :: 0 <= i < |args| - 1 ==> ' ' !in args[i] && (args[i] == [] || args[i][0] != ':')
  }

  ghost predicate WellFormed(m: Message) {
    && GoodPart(m.nick, '!') && GoodPart(m.ident, '@') && GoodPart(m.host, ' ')
    && (m.host.Some? ==> m.ident.Some?) && (m.ident.Some? ==> m.nick.Some?)
    && (!m.prefixed ==> m.nick == None && m.command.Some? && (m.command.value == [] || m.command.value[0] != ':'))
    && (m.command == None ==> m.nick == None && m.args == [])
    && (m.command.Some? ==> ' ' !in m.command.value)
    && GoodArgs(m.args, 0)
  }

  // ----- parsing what was printed -----

  lemma FindConcat(a: string, c: char, b: string)
    requires c !in a
    ensures Pos(a + [c] + b, c) == |a| && Pos(a, c) == |a|
    ensures (a + [c] + b)[..|a|] == a && (a + [c] + b)[|a| + 1..] == b
  {
    var s := a + [c] + b;
    assert forall j :: 0 <= j < |a| ==> s[j] == a[j] && a[j] in a;
    PosIs(s, c, |a|);
    PosIs(a, c, |a|);
  }

  lemma LastArg(a: string, n: nat)
    requires n < MAX_ARGS
    ensures Args(if NeedsColon(a, n) then [':'] + a else a, n) == [a]
  {
    if NeedsColon(a, n) {
      assert ([':'] + a)[1..] == a;
    } else if n + 1 < MAX_ARGS {
      PosIs(a, ' ', |a|);
    }
  }

  lemma MiddleArg(a: string, more: string, n: nat)
    requires ' ' !in a && (a == [] || a[0] != ':') && n + 1 < MAX_ARGS
    ensures Args(a + [' '] + more, n) == [a] + Args(more, n + 1)
  {
    var text := a + [' '] + more;
    FindConcat(a, ' ', more);
    assert text[0] == if a == [] then ' ' else a[0];
  }

  lemma {:induction false} ArgsOfPrinted(args: seq<string>, n: nat)
    requires args != [] && GoodArgs(args, n)
    ensures PrintArgs(args, n) != [] && PrintArgs(args, n)[0] == ' '
    ensures Args(PrintArgs(args, n)[1..], n) == args
    decreases |args|
  {
    hide Args, NeedsColon, PrintArgs, Pos;
    PrintedText(args, n);
    var a := args[0];
    if |args| == 1 {
      LastArg(a, n);
      assert args == [a];
    } else {
      var rest := args[1..];
      ArgsOfPrinted(rest, n + 1);
      MiddleArg(a, PrintArgs(rest, n + 1)[1..], n);
      assert args == [a] + rest;
    }
  }

  /** The printed parameters after their leading space. */
  lemma PrintedText(args: seq<string>, n: nat)
    requires args != []
    ensures var p := PrintArgs(args, n);
      && p != [] && p[0] == ' '
      && (|args| == 1 ==> p[1..] == if NeedsColon(args[0], n) then [':'] + args[0] else args[0])
      && (|args| > 1 ==>
           var more := PrintArgs(args[1..], n + 1);
           more != [] && p[1..] == args[0] + [' '] + more[1..])
  {
    hide NeedsColon, PrintArgs;
    PrintArgsStep(args, n);
    if |args| > 1 {
      var more := PrintArgs(args[1..], n + 1);
      PrintArgsStep(args[1..], n + 1);
      AfterSpace(args[0], more);
    } else {
      OneColon(args[0]);
    }
  }

  lemma PrintArgsStep(args: seq<string>, n: nat)
    requires args != []
    ensures var p := PrintArgs(args, n);
      && p != [] && p[0] == ' '
      && p == if |args| == 1 then (if NeedsColon(args[0], n) then " :" else " ") + args[0]
              else " " + args[0] + PrintArgs(args[1..], n + 1)
  {
    hide NeedsColon;
  }

  lemma AfterSpace(a: string, more: string)
    requires more != [] && more[0] == ' '
    ensures (" " + a + more)[1..] == a + [' '] + more[1..]
  {
  }

  lemma OneColon(a: string)
    ensures (" :" + a)[1..] == [':'] + a && (" " + a)[1..] == a
  {
  }

  lemma BodyOfPrinted(m: Message)
    requires WellFormed(m) && m.command.Some?
    ensures Body(m.prefixed, m.nick, m.ident, m.host, m.command.value + PrintArgs(m.args, 0)) == m
  {
    hide Args;
    var c := m.command.value;
    if m.args == [] {
      assert c + [] == c && c[..|c|] == c;
      PosIs(c, ' ', |c|);
    } else {
      ArgsOfPrinted(m.args, 0);
      hide PrintArgs;
      var p := PrintArgs(m.args, 0);
      assert c + p == c + [' '] + p[1..];
      FindConcat(c, ' ', p[1..]);
    }
  }

  lemma TokenPlain(a: string, delim: char, b: string)
    requires a != [] && delim !in a
    ensures Token(a, delim) == (Some(a), [])
    ensures Token(a + [delim] + b, delim) == (Some(a), b)
  {
    FindConcat(a, delim, b);
    assert a[0] in a && a[..|a|] == a;
    assert (a + [delim] + b)[0] == a[0];
  }

  lemma PrefixOfPrinted(m: Message)
    requires WellFormed(m)
    ensures ' ' !in PrintPrefix(m.nick, m.ident, m.host)
    ensures Prefix(PrintPrefix(m.nick, m.ident, m.host)) == (m.nick, m.ident, m.host)
  {
    hide Token, GoodArgs;
    if m.nick == None {
      NoToken('!');
      NoToken('@');
    } else if m.ident == None {
      assert PrintPrefix(m.nick, m.ident, m.host) == m.nick.value;
      TokenPlain(m.nick.value, '!', []);
      NoToken('@');
    } else {
      var tail := m.ident.value + Mark('@', m.host);
      assert PrintPrefix(m.nick, m.ident, m.host) == m.nick.value + ['!'] + tail;
      TokenPlain(m.nick.value, '!', tail);
      TailOfPrinted(m.ident.value, m.host);
    }
  }

  lemma TailOfPrinted(ident: string, host: Option<string>)
    requires ident != [] && '@' !in ident && (host.Some? ==> host.value != [])
    ensures Token(ident + Mark('@', host), '@') == (Some(ident), if host.Some? then host.value else [])
  {
    hide Token;
    TokenPlain(ident, '@', if host.Some? then host.value else []);
    assert ident + Mark('@', host) == if host.Some? then ident + ['@'] + host.value else ident;
  }

  lemma NoToken(delim: char)
    ensures Token([], delim) == (None, [])
  {
  }

  /** Printing a well-formed message and parsing it gives it back, all parts of it. */
  lemma ParseOfPrinted(m: Message)
    requires WellFormed(m)
    ensures Parse(Print(m)) == m
  {
    hide Prefix, Body, PrintPrefix, PrintArgs, GoodArgs;
    var line := Print(m);
    var body := if m.command.Some? then m.command.value + PrintArgs(m.args, 0) else [];
    if m.command.Some? {
      BodyOfPrinted(m);
    }
    if m.prefixed {
      PrefixOfPrinted(m);
      var prefix := PrintPrefix(m.nick, m.ident, m.host);
      if m.command == None {
        NothingThere();
        assert line == [':'];
        PosIs(line, ' ', 1);
      } else {
        assert line == ([':'] + prefix) + [' '] + body;
        FindConcat([':'] + prefix, ' ', body);
        assert line[1..|prefix| + 1] == prefix;
      }
    } else {
      assert line == body;
      StartOfPrinted(m);
    }
  }

  /** A message as the standard spells it, with a full prefix, one parameter in the middle and a trailing one. */
  function Spelled(nick: string, user: string, host: string, command: string, middle: string, trailing: string): string
  {
    ":" + (nick + "!" + user + "@" + host) + " " + (command + " " + (middle + " " + (":" + trailing)))
  }

  lemma ParseSpelled(nick: string, user: string, host: string, command: string, middle: string, trailing: string)
    requires nick != [] && user != [] && host != [] && '!' !in nick && '@' !in user
    requires ' ' !in nick && ' ' !in user && ' ' !in host && ' ' !in command && ' ' !in middle
    requires middle == [] || middle[0] != ':'
    ensures Parse(Spelled(nick, user, host, command, middle, trailing)) ==
      Message(true, Some(nick), Some(user), Some(host), Some(command), [middle, trailing])
  {
    var m := Message(true, Some(nick), Some(user), Some(host), Some(command), [middle, trailing]);
    hide Args, Prefix, Body, PrintPrefix, Pos, WellFormed;
    MaskSpelled(nick, user, host);
    MaskRead(nick, user, host);
    var prefix, args := nick + "!" + user + "@" + host, middle + " " + (":" + trailing);
    FindConcat(":" + prefix, ' ', command + " " + args);
    var line := Spelled(nick, user, host, command, middle, trailing);
    assert line[1..|prefix| + 1] == prefix && line[0] == ':';
    MiddleArg(middle, ":" + trailing, 0);
    TrailingArg(trailing, 1);
    BodySpelled(m, args);
  }

  lemma MaskRead(nick: string, user: string, host: string)
    requires nick != [] && user != [] && host != [] && '!' !in nick && '@' !in user
    requires ' ' !in nick && ' ' !in user && ' ' !in host
    ensures Prefix(PrintPrefix(Some(nick), Some(user), Some(host))) == (Some(nick), Some(user), Some(host))
  {
    PrefixOfPrinted(Message(true, Some(nick), Some(user), Some(host), Some([]), []));
  }

  lemma MaskSpelled(nick: string, user: string, host: string)
    ensures PrintPrefix(Some(nick), Some(user), Some(host)) == nick + "!" + user + "@" + host
    ensures ' ' !in nick && ' ' !in user && ' ' !in host ==> ' ' !in nick + "!" + user + "@" + host
  {
    assert nick + ("!" + user) == nick + "!" + user;
    assert nick + "!" + user + ("@" + host) == nick + "!" + user + "@" + host;
  }

  lemma TrailingArg(trailing: string, n: nat)
    ensures Args(":" + trailing, n) == [trailing]
  {
    assert (":" + trailing)[1..] == trailing;
  }

  lemma BodySpelled(m: Message, args: string)
    requires m.command.Some? && ' ' !in m.command.value && Args(args, 0) == m.args
    ensures Body(m.prefixed, m.nick, m.ident, m.host, m.command.value + [' '] + args) == m
  {
    hide Args;
    FindConcat(m.command.value, ' ', args);
  }

  lemma StartOfPrinted(m: Message)
    requires WellFormed(m) && !m.prefixed
    ensures var body := m.command.value + PrintArgs(m.args, 0); body == [] || body[0] != ':'
  {
    if m.command.value == [] && m.args != [] {
      ArgsOfPrinted(m.args, 0);
    }
  }

  // ----- printing what was parsed -----

  lemma {:induction false} ArgsAreGood(text: string, n: nat)
    requires n < MAX_ARGS
    ensures GoodArgs(Args(text, n), n)
    ensures |PrintArgs(Args(text, n), n)| <= 1 + |text|
    decreases |text|
  {
    hide Pos, PrintArgs, GoodArgs;
    var k := Pos(text, ' ');
    if text == [] {
      PrintedNothing(n);
    } else if text[0] != ':' && k < |text| && n + 1 < MAX_ARGS {
      ArgsAreGood(text[k + 1..], n + 1);
      MoreArgs(text[..k], Args(text[k + 1..], n + 1), n);
    } else {
      OneArg(text, n);
    }
  }

  lemma PrintedNothing(n: nat)
    requires n <= MAX_ARGS
    ensures GoodArgs([], n) && PrintArgs([], n) == []
  {
  }

  lemma OneArg(text: string, n: nat)
    requires text != [] && n < MAX_ARGS
    requires text[0] == ':' || Pos(text, ' ') == |text| || n + 1 == MAX_ARGS
    ensures GoodArgs(Args(text, n), n) && |PrintArgs(Args(text, n), n)| <= 1 + |text|
  {
    hide Pos;
  }

  lemma MoreArgs(a: string, rest: seq<string>, n: nat)
    requires GoodArgs(rest, n + 1) && ' ' !in a && (a == [] || a[0] != ':')
    ensures GoodArgs([a] + rest, n)
    ensures |PrintArgs([a] + rest, n)| <=
      if rest == [] then if a == [] then 2 else 1 + |a| else 1 + |a| + |PrintArgs(rest, n + 1)|
  {
    assert ([a] + rest)[1..] == rest;
  }

  lemma {:induction false} TokenIsGood(s: string, delim: char)
    requires ' ' !in s
    ensures var (t, rest) := Token(s, delim);
      && GoodPart(t, delim) && ' ' !in rest && (t == None ==> rest == [])
      && (t.Some? ==> |t.value| + (if rest == [] then 0 else 1 + |rest|) <= |s|)
    decreases |s|
  {
    if s != [] && s[0] == delim {
      TokenIsGood(s[1..], delim);
    } else if s != [] {
      var k := Pos(s, delim);
      assert forall x :: x in s[..k] ==> x in s;
      assert k < |s| ==> forall x :: x in s[k + 1..] ==> x in s;
    }
  }

  lemma PrefixIsGood(mask: string)
    requires ' ' !in mask
    ensures var (nick, ident, host) := Prefix(mask);
      && GoodPart(nick, '!') && GoodPart(ident, '@') && GoodPart(host, ' ')
      && (host.Some? ==> ident.Some?) && (ident.Some? ==> nick.Some?)
      && |PrintPrefix(nick, ident, host)| <= |mask|
  {
    hide Token;
    var (nick, rest) := Token(mask, '!');
    var (ident, host) := Token(rest, '@');
    TokenIsGood(mask, '!');
    TokenIsGood(rest, '@');
    if nick == None {
      NoToken('@');
    }
  }

  lemma BodyIsGood(text: string)
    ensures var k := Pos(text, ' ');
      var args := if k == |text| then [] else Args(text[k + 1..], 0);
      && ' ' !in text[..k] && GoodArgs(args, 0) && k + |PrintArgs(args, 0)| <= |text|
  {
    hide Pos, Args, GoodArgs, PrintArgs;
    var k := Pos(text, ' ');
    if k < |text| {
      ArgsAreGood(text[k + 1..], 0);
    } else {
      PrintedNothing(0);
    }
  }

  lemma WellFormedBody(prefixed: bool, nick: Option<string>, ident: Option<string>, host: Option<string>, text: string)
    requires GoodPart(nick, '!') && GoodPart(ident, '@') && GoodPart(host, ' ')
    requires (host.Some? ==> ident.Some?) && (ident.Some? ==> nick.Some?)
    requires !prefixed ==> nick == None && (text == [] || text[0] != ':')
    ensures var m := Body(prefixed, nick, ident, host, text);
      && WellFormed(m)
      && |Print(m)| <= (if prefixed then 2 + |PrintPrefix(nick, ident, host)| else 0) + |text|
  {
    hide GoodPart, GoodArgs, PrintArgs, PrintPrefix, Args, Pos;
    BodyIsGood(text);
    var k := Pos(text, ' ');
    assert k > 0 ==> text[..k][0] == text[0];
  }

  lemma PrefixedIsWellFormed(line: string, k: nat)
    requires 0 < k < |line| && line[0] == ':' && ' ' !in line[..k]
    ensures var (nick, ident, host) := Prefix(line[1..k]);
      var m := Body(true, nick, ident, host, line[k + 1..]);
      WellFormed(m) && |Print(m)| <= |line|
  {
    hide GoodPart, WellFormed, Print, PrintPrefix, Prefix, Body;
    assert forall x :: x in line[1..k] ==> x in line[..k] by {
      assert line[1..k] == line[..k][1..];
    }
    var (nick, ident, host) := Prefix(line[1..k]);
    PrefixIsGood(line[1..k]);
    WellFormedBody(true, nick, ident, host, line[k + 1..]);
  }

  lemma PrefixOnly()
    ensures var m := Message(true, None, None, None, None, []); WellFormed(m) && |Print(m)| == 1
  {
  }

  /** Every parsed line is a well-formed message, and prints no longer than the line. */
  lemma ParsedIsWellFormed(line: string)
    ensures WellFormed(Parse(line))
    ensures |Print(Parse(line))| <= |line|
  {
    hide WellFormed, Print, Prefix, Body, Pos;
    var k := Pos(line, ' ');
    if line != [] && line[0] == ':' {
      if k < |line| {
        PrefixedIsWellFormed(line, k);
      } else {
        PrefixOnly();
      }
    } else {
      NoParts();
      WellFormedBody(false, None, None, None, line);
    }
  }

  lemma NoParts()
    ensures GoodPart(None, '!') && GoodPart(None, '@') && GoodPart(None, ' ')
  {
  }

  lemma NothingThere()
    ensures PrintPrefix(None, None, None) == [] && GoodArgs([], 0)
  {
  }

  /** Parsing, printing and parsing again changes nothing, for any line. */
  lemma PrintedParsesTheSame(line: string)
    ensures Parse(Print(Parse(line))) == Parse(line)
    ensures |Print(Parse(line))| <= |line|
  {
    ParsedIsWellFormed(line);
    ParseOfPrinted(Parse(line));
  }
}
