/** The message parser of c-cpp/circ/circ.c, which cuts a copy of the line into C strings where it lies. */
module Circ {
  import opened Options
  import opened IrcMessage
  import opened Sequences

  const NUL: char := '\0'

  /** The C string at `p`. */
  ghost function CStr(b: seq<char>, p: nat): string
    decreases |b| - p
  {
    if p >= |b| || b[p] == NUL then [] else [b[p]] + CStr(b, p + 1)
  }

  /** At `p` there is the string `v` with its terminator. */
  ghost predicate Field(b: seq<char>, p: nat, v: string) {
    p + |v| < |b| && b[p..p + |v|] == v && b[p + |v|] == NUL && NUL !in v
  }

  lemma {:induction false} FieldIs(b: seq<char>, p: nat, v: string)
    requires Field(b, p, v)
    ensures CStr(b, p) == v
    decreases |v|
  {
    if v != [] {
      assert b[p] == b[p..p + |v|][0] == v[0] && v[0] in v;
      assert b[p + 1..p + |v|] == b[p..p + |v|][1..];
      FieldIs(b, p + 1, v[1..]);
    }
  }

  /** A string starts at `p` and ends within the buffer. */
  ghost predicate Ended(b: seq<char>, p: nat) { p < |b| && NUL in b[p..] }

  lemma FieldEnds(b: seq<char>, p: nat, v: string)
    requires Field(b, p, v)
    ensures Ended(b, p) && forall q :: 0 <= q <= p ==> Ended(b, q)
  {
    forall q | 0 <= q <= p ensures Ended(b, q) {
      assert b[q..][p + |v| - q] == NUL;
    }
  }

  /** Where a write leaves alone the bytes of a field and its terminator, the field stays. */
  lemma FieldKept(b: seq<char>, c: seq<char>, p: nat, v: string)
    requires Field(b, p, v) && |c| == |b|
    requires forall i :: p <= i <= p + |v| ==> c[i] == b[i]
    ensures Field(c, p, v)
  {
    assert c[p..p + |v|] == b[p..p + |v|];
  }

  /** Walking along a string: its characters, then the NUL. */
  lemma FieldChar(b: seq<char>, p: nat, v: string, i: nat)
    requires Field(b, p, v) && i <= |v|
    ensures p + i < |b| && (b[p + i] == NUL <==> i == |v|)
    ensures i < |v| ==> b[p + i] == v[i]
  {
    if i < |v| {
      assert b[p..p + |v|][i] == v[i] && v[i] in v;
    }
  }

  lemma FieldAt(b: seq<char>, p: nat, v: string, i: nat)
    requires Field(b, p, v) && i <= |v|
    ensures b[p + i] == if i < |v| then v[i] else NUL
    ensures Field(b, p + i, v[i..])
  {
    assert i < |v| ==> b[p..p + |v|][i] == v[i];
    assert b[p + i..p + |v|] == b[p..p + |v|][i..];
    assert forall x :: x in v[i..] ==> x in v;
  }

  /** Cutting a field in two with a NUL. */
  lemma FieldCut(b: seq<char>, p: nat, v: string, k: nat)
    requires Field(b, p, v) && k < |v|
    ensures var c := b[p + k := NUL]; Field(c, p, v[..k]) && Field(c, p + k + 1, v[k + 1..])
  {
    var c := b[p + k := NUL];
    FieldAt(b, p, v, k + 1);
    FieldKept(b, c, p + k + 1, v[k + 1..]);
    assert c[p..p + k] == b[p..p + |v|][..k];
    assert forall x :: x in v[..k] ==> x in v;
  }

  /** The parameters found so far, all ending before `t`. */
  ghost predicate Known(b: seq<char>, argv: seq<nat>, known: seq<string>, t: nat) {
    && |known| <= |argv|
    && forall j :: 0 <= j < |known| ==> Field(b, argv[j], known[j]) && argv[j] + |known[j]| < t
  }

  lemma KnownAt(b: seq<char>, argv: seq<nat>, known: seq<string>, t: nat, j: nat)
    requires Known(b, argv, known, t) && j < |known|
    ensures j < |argv| && Field(b, argv[j], known[j])
  {
  }

  lemma KnownKept(b: seq<char>, c: seq<char>, argv: seq<nat>, known: seq<string>, t: nat)
    requires Known(b, argv, known, t) && |c| == |b|
    requires forall i :: 0 <= i < t && i < |b| ==> c[i] == b[i]
    ensures Known(c, argv, known, t)
  {
    forall j | 0 <= j < |known| ensures Field(c, argv[j], known[j]) {
      FieldKept(b, c, argv[j], known[j]);
    }
  }

  lemma KnownMore(b: seq<char>, argv: seq<nat>, known: seq<string>, t: nat, p: nat, v: string, u: nat)
    requires Known(b, argv, known, t) && t <= u && |known| < |argv|
    requires Field(b, p, v) && p + |v| < u
    ensures Known(b, argv[|known| := p], known + [v], u)
  {
  }

  class CircMessage {
    const buffer: array<char>
    const argv: array<nat>
    var argc: nat
    var command: Option<nat>
    var hostmask: Option<nat>
    var nick: Option<nat>
    var ident: Option<nat>
    var host: Option<nat>

    constructor ()
      ensures fresh(buffer) && fresh(argv) && buffer.Length == 513 && argv.Length == 19
    {
      buffer := new char[513](_ => NUL);
      argv := new nat[19](_ => 0);
      argc, command, hostmask, nick, ident, host := 0, None, None, None, None, None;
    }

    ghost predicate Shaped()
    {
      buffer.Length == 513 && argv.Length == 19
    }

    ghost function At(p: Option<nat>): Option<string>
      reads buffer
    {
      if p.Some? then Some(CStr(buffer[..], p.value)) else None
    }

    ghost function Argv(): seq<string>
      requires argc <= argv.Length
      reads this, buffer, argv
    {
      seq(argc, j requires 0 <= j < argc <= argv.Length reads this, argv, buffer => CStr(buffer[..], argv[j]))
    }

    /** The pointer is NULL, or leads to a string in the buffer. */
    ghost predicate Inside(p: Option<nat>)
      reads buffer
    {
      p.Some? ==> Ended(buffer[..], p.value)
    }

    /** So do all pointers of the message. */
    ghost predicate AllInside()
      reads this, buffer, argv
    {
      && Inside(hostmask) && Inside(nick) && Inside(ident) && Inside(host) && Inside(command)
      && argc <= argv.Length && forall j :: 0 <= j < argc ==> Ended(buffer[..], argv[j])
    }

    /** The message as its reader sees it, through the pointers. */
    ghost function View(): Message
      requires argc <= argv.Length
      reads this, buffer, argv
    {
      Message(hostmask.Some?, At(nick), At(ident), At(host), At(command), Argv())
    }

    /** strchr from `from`. */
    method StrChr(from: nat, c: char, ghost v: string) returns (k: Option<nat>)
      requires Shaped() && Field(buffer[..], from, v) && c != NUL
      ensures var f := Pos(v, c); k == if f == |v| then None else Some(from + f)
    {
      hide Field, Pos;
      var i := from;
      FieldChar(buffer[..], from, v, 0);
      while buffer[i] != NUL && buffer[i] != c
        invariant from <= i <= from + |v| && i < 513
        invariant buffer[i] == NUL <==> i - from == |v|
        invariant i - from < |v| ==> buffer[i] == v[i - from]
        invariant forall j :: 0 <= j < i - from ==> v[j] != c
        decreases from + |v| - i
      {
        i := i + 1;
        FieldChar(buffer[..], from, v, i - from);
      }
      PosIs(v, c, i - from);
      k := if buffer[i] == NUL then None else Some(i);
    }

    /** Where a string ends. */
    method EndOf(from: nat, ghost v: string) returns (e: nat)
      requires Shaped() && Field(buffer[..], from, v)
      ensures e == from + |v|
    {
      hide Field;
      e := from;
      FieldChar(buffer[..], from, v, 0);
      while buffer[e] != NUL
        invariant from <= e <= from + |v| && e < 513
        invariant buffer[e] == NUL <==> e - from == |v|
        decreases from + |v| - e
      {
        e := e + 1;
        FieldChar(buffer[..], from, v, e - from);
      }
    }

    /** Skips delimiters. */
    method Skip(from: nat, delim: char, ghost v: string) returns (s: nat, ghost w: string)
      requires Shaped() && Field(buffer[..], from, v) && delim != NUL
      ensures from <= s && s + |w| == from + |v| && Field(buffer[..], s, w)
      ensures Token(w, delim) == Token(v, delim) && (w != [] ==> w[0] != delim)
    {
      hide Field;
      s, w := from, v;
      FieldChar(buffer[..], s, w, 0);
      while buffer[s] == delim
        invariant from <= s < 513 && s + |w| == from + |v| && Field(buffer[..], s, w)
        invariant Token(v, delim) == Token(w, delim)
        invariant buffer[s] == NUL <==> w == []
        invariant w != [] ==> buffer[s] == w[0]
        decreases |w|
      {
        FieldAt(buffer[..], s, w, 1);
        s, w := s + 1, w[1..];
        FieldChar(buffer[..], s, w, 0);
      }
    }

    /** strtok_r with one delimiter; `v` is the string at `save`. */
    method StrTok(save: nat, delim: char, ghost v: string) returns (tok: Option<nat>, next: nat)
      requires Shaped() && Field(buffer[..], save, v) && delim != NUL
      modifies buffer
      ensures var (t, rest) := Token(v, delim);
        && save <= next && next + |rest| == save + |v| && Field(buffer[..], next, rest)
        && (tok.Some? <==> t.Some?)
        && (tok.Some? ==> Field(buffer[..], tok.value, t.value) && save <= tok.value)
        && (tok.Some? ==> tok.value + |t.value| + (if rest == [] then 0 else 1) <= next)
      ensures forall i :: 0 <= i < 513 && !(save <= i < save + |v|) ==> buffer[i] == old(buffer[i])
    {
      hide Field;
      ghost var w;
      var s;
      s, w := Skip(save, delim, v);
      FieldChar(buffer[..], s, w, 0);
      if buffer[s] == NUL {
        return None, s;
      }
      var k := StrChr(s, delim, w);
      tok := Some(s);
      if k == None {
        next := EndOf(s, w);
        FieldAt(buffer[..], s, w, |w|);
        assert w[..|w|] == w && w[|w|..] == [];
      } else {
        FieldChar(buffer[..], s, w, k.value - s);
        FieldCut(buffer[..], s, w, k.value - s);
        ghost var cut := buffer[..][k.value := NUL];
        buffer[k.value] := NUL;
        assert buffer[..] == cut;
        next := k.value + 1;
      }
    }

    /** memset and strncpy: at most 512 characters, and NULs after them. */
    method Load(text: string)
      requires Shaped() && NUL !in text
      modifies buffer
      ensures Field(buffer[..], 0, Line(text))
    {
      for i := 0 to 513
        invariant forall j :: 0 <= j < i ==> buffer[j] == if j < 512 && j < |text| then text[j] else NUL
      {
        buffer[i] := if i < 512 && i < |text| then text[i] else NUL;
      }
      var line := Line(text);
      assert buffer[..][0..|line|] == line;
      assert forall x :: x in line ==> x in text;
    }

    method Store(p: nat)
      requires Shaped() && argc < 19
      modifies this`argc, argv
      ensures argc == old(argc) + 1 && argv[..] == old(argv[..])[old(argc) := p]
    {
      argv[argc] := p;
      argc := argc + 1;
    }

    /** Ends the string at `t` with a NUL at its `k`-th character. */
    method CutAt(t: nat, k: nat, ghost w: string)
      requires Shaped() && Field(buffer[..], t, w) && k < |w|
      modifies buffer
      ensures Field(buffer[..], t, w[..k]) && Field(buffer[..], t + k + 1, w[k + 1..])
      ensures forall i :: 0 <= i < 513 && i != t + k ==> buffer[i] == old(buffer[i])
    {
      FieldChar(buffer[..], t, w, k);
      FieldCut(buffer[..], t, w, k);
      hide Field;
      ghost var cut := buffer[..][t + k := NUL];
      buffer[t + k] := NUL;
      assert buffer[..] == cut;
    }

    /** One parameter that is not the last: stored, and cut off. */
    method OneArg(t: nat, k: nat, ghost w: string, ghost known: seq<string>)
      requires Shaped() && Field(buffer[..], t, w) && k < |w|
      requires argc == |known| + 1 < MAX_ARGS && Known(buffer[..], argv[..], known, t) && argv[argc - 1] == t
      modifies buffer
      ensures Field(buffer[..], t + k + 1, w[k + 1..])
      ensures Known(buffer[..], argv[..], known + [w[..k]], t + k + 1)
      ensures forall i :: 0 <= i < t && i < 513 ==> buffer[i] == old(buffer[i])
    {
      ghost var b := buffer[..];
      CutAt(t, k, w);
      hide Field;
      KnownKept(b, buffer[..], argv[..], known, t);
      KnownMore(buffer[..], argv[..], known, t, t, w[..k], t + k + 1);
      assert argv[..][|known| := t] == argv[..];
    }

    /** The loop over the parameters, and the trailing one. */
    method ReadArgs(from: nat, ghost rest: string)
      requires Shaped() && Field(buffer[..], from, rest) && argc == 0
      modifies this`argc, buffer, argv
      ensures argc <= MAX_ARGS && argc == |Args(rest, 0)| && Known(buffer[..], argv[..], Args(rest, 0), 513)
      ensures forall i :: 0 <= i < from && i < 513 ==> buffer[i] == old(buffer[i])
    {
      hide Field, Args, Pos, Known;
      ghost var goal := Args(rest, 0);
      ghost var known: seq<string> := [];
      ghost var w := rest;
      var t := from;
      FieldChar(buffer[..], t, w, 0);
      KnownNone(buffer[..], argv[..], t);
      while buffer[t] != NUL && buffer[t] != ':'
        invariant from <= t < 513 && Field(buffer[..], t, w)
        invariant buffer[t] == NUL <==> w == []
        invariant w != [] ==> buffer[t] == w[0]
        invariant argc == |known| < MAX_ARGS && Known(buffer[..], argv[..], known, t)
        invariant goal == known + Args(w, argc)
        invariant forall i :: 0 <= i < from ==> buffer[i] == old(buffer[i])
        decreases |w|
      {
        var more;
        more, t, w, known := NextArg(t, w, known);
        if !more {
          return;
        }
        FieldChar(buffer[..], t, w, 0);
      }
      Trailing(t, w, known);
    }

    /** One turn of the loop; without `more` it was the last parameter. */
    method NextArg(t: nat, ghost w: string, ghost known: seq<string>)
      returns (more: bool, t': nat, ghost w': string, ghost known': seq<string>)
      requires Shaped() && Field(buffer[..], t, w) && w != [] && w[0] != ':' && t < 513
      requires argc == |known| < MAX_ARGS && Known(buffer[..], argv[..], known, t)
      modifies this`argc, buffer, argv
      ensures !more ==>
        var args := known + Args(w, old(argc));
        argc == |args| <= MAX_ARGS && Known(buffer[..], argv[..], args, 513)
      ensures more ==>
        && t <= t' < 513 && Field(buffer[..], t', w') && |w'| < |w|
        && argc == |known'| < MAX_ARGS && Known(buffer[..], argv[..], known', t')
        && known + Args(w, old(argc)) == known' + Args(w', argc)
      ensures forall i :: 0 <= i < t ==> buffer[i] == old(buffer[i])
    {
      hide Field, Args, Pos, Known;
      var space := StrChr(t, ' ', w);
      ArgsStep(w, argc);
      FieldChar(buffer[..], t, w, |w|);
      KnownStored(buffer[..], argv[..], known, t, t, w);
      Store(t);
      more, t', w', known' := false, t, w, known;
      if space == None || MAX_ARGS == argc {
        return;
      }
      var k := space.value - t;
      OneArg(t, k, w, known);
      OneMore(known, w[..k], Args(w[k + 1..], argc));
      more, t', w', known' := true, space.value + 1, w[k + 1..], known + [w[..k]];
      FieldChar(buffer[..], t', w', 0);
    }

    /** After the loop: a parameter that starts with a colon is the rest of the line. */
    method Trailing(t: nat, ghost w: string, ghost known: seq<string>)
      requires Shaped() && Field(buffer[..], t, w) && (w == [] || w[0] == ':')
      requires argc == |known| < MAX_ARGS && Known(buffer[..], argv[..], known, t) && t <= 513
      modifies this`argc, argv
      ensures var args := known + Args(w, old(argc));
        argc == |args| <= MAX_ARGS && Known(buffer[..], argv[..], args, 513)
    {
      hide Field, Args, Known;
      FieldChar(buffer[..], t, w, 0);
      ArgsEnd(w, argc);
      if buffer[t] == ':' && 19 > argc {
        FieldAt(buffer[..], t, w, 1);
        FieldChar(buffer[..], t, w, |w|);
        KnownStored(buffer[..], argv[..], known, t, t + 1, w[1..]);
        Store(t + 1);
      } else {
        KnownLater(buffer[..], argv[..], known, t, 513);
        assert known + [] == known;
      }
    }

    /** From the command on. */
    method ParseBody(t: nat, ghost text: string)
      requires Shaped() && Field(buffer[..], t, text) && argc == 0
      modifies this`argc, this`command, buffer, argv
      ensures command == Some(t) && Field(buffer[..], t, text[..Pos(text, ' ')])
      ensures var k := Pos(text, ' ');
        var args := if k == |text| then [] else Args(text[k + 1..], 0);
        argc == |args| <= MAX_ARGS && Known(buffer[..], argv[..], args, 513)
      ensures forall i :: 0 <= i < t && i < 513 ==> buffer[i] == old(buffer[i])
    {
      hide Field, Args, Pos, Known;
      command := Some(t);
      var space := StrChr(t, ' ', text);
      if space == None {
        KnownNone(buffer[..], argv[..], 513);
        assert text[..|text|] == text;
        return;
      }
      var k := space.value - t;
      CutAt(t, k, text);
      ghost var b := buffer[..];
      FieldChar(buffer[..], t, text[..k], k);
      ReadArgs(t + k + 1, text[k + 1..]);
      FieldKept(b, buffer[..], t, text[..k]);
    }

    /** Nick, ident and host, cut out of the mask. */
    method ParsePrefix(ghost mask: string)
      requires Shaped() && Field(buffer[..], 1, mask)
      modifies this`nick, this`ident, this`host, buffer
      ensures var (n, i, h) := Prefix(mask);
        && Part(buffer[..], nick, n, |mask| + 1)
        && Part(buffer[..], ident, i, |mask| + 1)
        && Part(buffer[..], host, h, |mask| + 1)
      ensures forall i :: 0 <= i < 513 && !(1 <= i < |mask| + 1) ==> buffer[i] == old(buffer[i])
    {
      hide Field, Token;
      var brk, end;
      ghost var (n, rest) := Token(mask, '!');
      nick, brk := StrTok(1, '!', mask);
      ghost var b := buffer[..];
      ident, end := StrTok(brk, '@', rest);
      ghost var (i, last) := Token(rest, '@');
      if nick.Some? {
        PartKept(b, nick.value, n.value, brk, rest);
      }
      FieldChar(buffer[..], end, last, 0);
      host := if buffer[end] == NUL then None else Some(end);
    }

    /** circ_parse: what the pointers lead to afterwards is the parse of the line's first 512 characters. */
    method ParseLine(text: string)
      requires Shaped() && NUL !in text
      modifies this, buffer, argv
      ensures argc <= MAX_ARGS <= argv.Length && View() == Parse(Line(text)) && AllInside()
    {
      argc, command, hostmask, nick, ident, host := 0, None, None, None, None, None;
      Load(text);
      hide Field, Args, Known, Prefix, Pos, CStr;
      ghost var line := Line(text);
      FieldChar(buffer[..], 0, line, 0);
      if buffer[0] == ':' {
        hostmask := Some(1);
        var space := StrChr(0, ' ', line);
        if space == None {
          return;
        }
        ParsePrefixed(space.value, line);
      } else {
        ParseBody(0, line);
        BodySeen(0, line);
      }
    }

    /** circ_process, up to the call it makes: the entry of the session's table that is to handle the line. */
    method Process(text: string, table: seq<string>) returns (chosen: Option<nat>)
      requires Shaped() && NUL !in text
      modifies this, buffer, argv
      ensures argc <= MAX_ARGS <= argv.Length && View() == Parse(Line(text))
      ensures var c := Parse(Line(text)).command;
        && (chosen.Some? ==>
             (c.Some? && chosen.value < |table| && SameCommand(c.value, table[chosen.value])
              && forall i :: 0 <= i < chosen.value ==> !SameCommand(c.value, table[i])))
        && (chosen == None ==> c == None || forall i :: 0 <= i < |table| ==> !SameCommand(c.value, table[i]))
    {
      hide Parse, Line, CStr, SameCommand, Ended;
      ParseLine(text);
      ghost var c := Parse(Line(text)).command;
      if command == None {
        return None;
      }
      var name := ReadString(command.value);
      var i := 0;
      while i < |table|
        invariant 0 <= i <= |table| && name == c.value
        invariant forall j :: 0 <= j < i ==> !SameCommand(c.value, table[j])
      {
        if SameCommand(name, table[i]) {
          return Some(i);
        }
        i := i + 1;
      }
      chosen := None;
    }

    /** The C string at `p`. */
    method ReadString(p: nat) returns (v: string)
      ensures v == CStr(buffer[..], p)
    {
      v := [];
      var i := p;
      while i < buffer.Length && buffer[i] != NUL
        invariant CStr(buffer[..], p) == v + CStr(buffer[..], i)
        decreases buffer.Length - i
      {
        assert CStr(buffer[..], i) == [buffer[i]] + CStr(buffer[..], i + 1);
        v := v + [buffer[i]];
        i := i + 1;
      }
    }

    /** A line with a prefix that ends at `k`. */
    method ParsePrefixed(k: nat, ghost line: string)
      requires Shaped() && Field(buffer[..], 0, line) && line != [] && line[0] == ':' && k == Pos(line, ' ') < |line|
      requires argc == 0 && hostmask == Some(1)
      modifies this`argc, this`command, this`nick, this`ident, this`host, buffer, argv
      ensures argc <= MAX_ARGS && View() == Parse(line) && AllInside()
    {
      hide Field, Args, Known, Prefix, Pos, Part, CStr, Ended;
      ghost var mask := CutPrefix(k, line);
      FieldChar(buffer[..], k + 1, line[k + 1..], |line| - k - 1);
      ghost var c := buffer[..];
      ParsePrefix(mask);
      FieldKept(c, buffer[..], k + 1, line[k + 1..]);
      ghost var b := buffer[..];
      ghost var (n, i, h) := Prefix(mask);
      ParseBody(k + 1, line[k + 1..]);
      PrefixSeen(b, n, i, h, k);
      BodySeen(k + 1, line[k + 1..]);
    }

    lemma PrefixSeen(b: seq<char>, n: Option<string>, i: Option<string>, h: Option<string>, t: nat)
      requires |b| == buffer.Length && Part(b, nick, n, t) && Part(b, ident, i, t) && Part(b, host, h, t)
      requires forall j :: 0 <= j <= t && j < |b| ==> buffer[j] == b[j]
      ensures At(nick) == n && At(ident) == i && At(host) == h
      ensures Inside(nick) && Inside(ident) && Inside(host)
    {
      hide Part;
      PartStays(b, buffer[..], nick, n, t);
      PartStays(b, buffer[..], ident, i, t);
      PartStays(b, buffer[..], host, h, t);
      PartSeen(nick, n, t);
      PartSeen(ident, i, t);
      PartSeen(host, h, t);
    }

    lemma PartSeen(p: Option<nat>, v: Option<string>, t: nat)
      requires Part(buffer[..], p, v, t)
      ensures At(p) == v && Inside(p)
    {
      if p.Some? {
        FieldIs(buffer[..], p.value, v.value);
        FieldEnds(buffer[..], p.value, v.value);
      }
    }

    /** What the command and parameter pointers lead to. */
    lemma BodySeen(t: nat, text: string)
      requires Shaped() && command == Some(t) && Field(buffer[..], t, text[..Pos(text, ' ')])
      requires var k := Pos(text, ' ');
        var args := if k == |text| then [] else Args(text[k + 1..], 0);
        argc == |args| <= MAX_ARGS && Known(buffer[..], argv[..], args, 513)
      ensures var m := Body(false, None, None, None, text);
        && At(command) == m.command && Argv() == m.args
      ensures forall p :: 0 <= p <= t ==> Ended(buffer[..], p)
      ensures forall j :: 0 <= j < argc ==> Ended(buffer[..], argv[j])
    {
      hide Args, Field, Ended, Known, CStr;
      var k := Pos(text, ' ');
      FieldIs(buffer[..], t, text[..k]);
      FieldEnds(buffer[..], t, text[..k]);
      ArgsSeen(if k == |text| then [] else Args(text[k + 1..], 0));
    }

    lemma ArgsSeen(args: seq<string>)
      requires Shaped() && argc == |args| <= MAX_ARGS && Known(buffer[..], argv[..], args, 513)
      ensures Argv() == args && forall j :: 0 <= j < argc ==> Ended(buffer[..], argv[j])
    {
      hide Field, Ended, CStr;
      forall j | 0 <= j < argc ensures CStr(buffer[..], argv[j]) == args[j] && Ended(buffer[..], argv[j]) {
        KnownAt(buffer[..], argv[..], args, 513, j);
        FieldIs(buffer[..], argv[j], args[j]);
        FieldEnds(buffer[..], argv[j], args[j]);
      }
    }

    /** The first space turned into a NUL, which leaves a mask and the rest. */
    method CutPrefix(k: nat, ghost line: string) returns (ghost mask: string)
      requires Shaped() && Field(buffer[..], 0, line) && 0 < k < |line|
      modifies buffer
      ensures mask == line[1..k] && Field(buffer[..], 1, mask) && Field(buffer[..], k + 1, line[k + 1..])
    {
      CutAt(0, k, line);
      hide Field;
      FieldAt(buffer[..], 0, line[..k], 1);
      mask := line[1..k];
      assert line[..k][1..] == mask;
    }
  }

  lemma PartKept(b: seq<char>, p: nat, v: string, brk: nat, rest: string)
    requires Field(b, p, v) && p + |v| + (if rest == [] then 0 else 1) <= brk
    ensures forall c: seq<char> ::
      |c| == |b| && (forall i :: 0 <= i < |b| && !(brk <= i < brk + |rest|) ==> c[i] == b[i]) ==>
      Field(c, p, v)
  {
    forall c: seq<char> | |c| == |b| && (forall i :: 0 <= i < |b| && !(brk <= i < brk + |rest|) ==> c[i] == b[i])
      ensures Field(c, p, v)
    {
      FieldKept(b, c, p, v);
    }
  }

  /** A part of the prefix: the pointer is NULL or leads to the string, which ends at `t` or before. */
  ghost predicate Part(b: seq<char>, p: Option<nat>, v: Option<string>, t: nat) {
    (p.Some? <==> v.Some?) && (p.Some? ==> Field(b, p.value, v.value) && p.value + |v.value| <= t)
  }

  lemma PartStays(b: seq<char>, c: seq<char>, p: Option<nat>, v: Option<string>, t: nat)
    requires Part(b, p, v, t) && |c| == |b|
    requires forall i :: 0 <= i <= t && i < |b| ==> c[i] == b[i]
    ensures Part(c, p, v, t)
  {
    if p.Some? {
      FieldKept(b, c, p.value, v.value);
    }
  }

  lemma KnownNone(b: seq<char>, argv: seq<nat>, t: nat)
    ensures Known(b, argv, [], t)
  {
  }

  lemma KnownLater(b: seq<char>, argv: seq<nat>, known: seq<string>, t: nat, u: nat)
    requires Known(b, argv, known, t) && t <= u
    ensures Known(b, argv, known, u)
  {
  }

  /** Storing one more parameter that starts at `t` or later. */
  lemma KnownStored(b: seq<char>, argv: seq<nat>, known: seq<string>, t: nat, p: nat, v: string)
    requires Known(b, argv, known, t) && |known| < |argv| && t <= p && Field(b, p, v) && |b| == 513
    ensures Known(b, argv[|known| := p], known + [v], 513)
    ensures Known(b, argv[|known| := p], known, t)
  {
    KnownMore(b, argv, known, t, p, v, 513);
  }

  lemma OneMore(known: seq<string>, a: string, rest: seq<string>)
    ensures known + ([a] + rest) == known + [a] + rest
  {
  }

  lemma ArgsStep(w: string, n: nat)
    requires w != [] && w[0] != ':'
    ensures var k := Pos(w, ' ');
      Args(w, n) == if k == |w| || n + 1 == MAX_ARGS then [w] else [w[..k]] + Args(w[k + 1..], n + 1)
  {
  }

  lemma ArgsEnd(w: string, n: nat)
    requires w == [] || w[0] == ':'
    ensures Args(w, n) == if w == [] then [] else [w[1..]]
  {
  }

  /** strcasecmp's folding, in the C locale. */
  function Fold(c: char): char { if 'A' <= c <= 'Z' then c - 'A' + 'a' else c }

  predicate SameCommand(a: string, b: string) {
    |a| == |b| && forall i :: 0 <= i < |a| ==> Fold(a[i]) == Fold(b[i])
  }

  /** Two characters that are the same, or the same letter of A to Z in either case. */
  predicate SameLetter(a: char, b: char) {
    a == b || ('A' <= a <= 'Z' && b as int == a as int + 32) || ('A' <= b <= 'Z' && a as int == b as int + 32)
  }

  /** Commands are compared letter by letter, whatever their case. */
  lemma SameCommandIff(a: string, b: string)
    ensures SameCommand(a, b) <==> |a| == |b| && forall i :: 0 <= i < |a| ==> SameLetter(a[i], b[i])
  {
    forall i | 0 <= i < |a| && |a| == |b| ensures Fold(a[i]) == Fold(b[i]) <==> SameLetter(a[i], b[i]) {
      FoldSame(a[i], b[i]);
    }
  }

  lemma FoldSame(a: char, b: char)
    ensures Fold(a) == Fold(b) <==> SameLetter(a, b)
  {
  }

  /** What of a line fits the buffer. */
  function Line(text: string): string { if |text| <= 512 then text else text[..512] }
}
