/** The command tree of other/larne-tree_example.cc: a trie over tokens, searched with exact keys first, then
    the wildcards "!R" and "!S", then abbreviations. */
module CmdTree {
  import opened Options

  /** `f` is the callback, 0 for none. */
  datatype Cmd = Cmd(subs: map<string, Cmd>, f: nat, desc: string)

  const NEW_CMD := Cmd(map[], 0, "")

  // ----- std::string order -----

  predicate Leq(a: string, b: string) {
    a == [] || (b != [] && (a[0] < b[0] || (a[0] == b[0] && Leq(a[1..], b[1..]))))
  }

  lemma {:induction false} LeqTotal(a: string, b: string)
    ensures Leq(a, b) || Leq(b, a)
    ensures Leq(a, b) && Leq(b, a) ==> a == b
  {
    if a != [] && b != [] && a[0] == b[0] {
      LeqTotal(a[1..], b[1..]);
      assert a == [a[0]] + a[1..] && b == [b[0]] + b[1..];
    }
  }

  lemma {:induction false} LeqTrans(a: string, b: string, c: string)
    requires Leq(a, b) && Leq(b, c)
    ensures Leq(a, c)
  {
    if a != [] && a[0] == b[0] && b[0] == c[0] {
      LeqTrans(a[1..], b[1..], c[1..]);
    }
  }

  lemma {:induction false} PrefixLeq(t: string, k: string)
    requires t <= k
    ensures Leq(t, k)
  {
    if t != [] {
      assert t[1..] <= k[1..];
      PrefixLeq(t[1..], k[1..]);
    }
  }

  /** What lies between a token and one of its extensions extends the token too. */
  lemma {:induction false} BetweenExtends(t: string, low: string, k: string)
    requires t <= k && Leq(t, low) && Leq(low, k)
    ensures t <= low
  {
    if t != [] {
      assert t[0] == k[0] && t[1..] <= k[1..];
      BetweenExtends(t[1..], low[1..], k[1..]);
      assert t == [t[0]] + t[1..] && low == [low[0]] + low[1..];
    }
  }

  ghost predicate IsLeast(keys: set<string>, k: string) {
    k in keys && forall x :: x in keys ==> Leq(k, x)
  }

  lemma LeastUnique(keys: set<string>, a: string, b: string)
    requires IsLeast(keys, a) && IsLeast(keys, b)
    ensures a == b
  {
    LeqTotal(a, b);
  }

  /** The least of a set of keys, by looking at them all. */
  method Least(keys: set<string>) returns (r: Option<string>)
    ensures r == None <==> keys == {}
    ensures r.Some? ==> IsLeast(keys, r.value)
  {
    r := None;
    var left := keys;
    while left != {}
      invariant left <= keys
      invariant r == None ==> left == keys
      invariant r.Some? ==> r.value in keys && forall x :: x in keys && x !in left ==> Leq(r.value, x)
      decreases left
    {
      var k :| k in left;
      LeqTotal(k, k);
      if r.Some? {
        LeqTotal(k, r.value);
        forall x | x in keys && x !in left && Leq(k, r.value) ensures Leq(k, x) {
          LeqTrans(k, r.value, x);
        }
      }
      if r == None || Leq(k, r.value) {
        r := Some(k);
      }
      left := left - {k};
    }
  }

  /** std::map::lower_bound, or upper_bound when `strict`. */
  method Bound(keys: set<string>, t: string, strict: bool) returns (r: Option<string>)
    ensures var above := set k | k in keys && Leq(t, k) && (strict ==> k != t);
      && (r == None <==> above == {})
      && (r.Some? ==> IsLeast(above, r.value))
  {
    r := Least(set k | k in keys && Leq(t, k) && (strict ==> k != t));
  }

  /** The keys a token abbreviates. */
  function Extensions(keys: set<string>, t: string): set<string> {
    set k | k in keys && t <= k
  }

  /** The key at the lower bound extends the token exactly if some key does, and then it is the least that does. */
  lemma LowerBoundIsLeastExtension(keys: set<string>, t: string, low: Option<string>)
    requires var above := set k | k in keys && Leq(t, k);
      (low == None <==> above == {}) && (low.Some? ==> IsLeast(above, low.value))
    ensures (low.Some? && t <= low.value) <==> Extensions(keys, t) != {}
    ensures low.Some? && t <= low.value ==> IsLeast(Extensions(keys, t), low.value)
  {
    var above := set k | k in keys && Leq(t, k);
    forall k | k in Extensions(keys, t) ensures k in above && low.Some? && t <= low.value && Leq(low.value, k) {
      PrefixLeq(t, k);
      assert k in above && above != {};
      BetweenExtends(t, low.value, k);
    }
    if low.Some? && t <= low.value {
      assert low.value in Extensions(keys, t);
    }
  }

  // ----- adding -----

  /** cmd::add: the nodes along the path exist afterwards, the last with the callback and description. */
  function Added(c: Cmd, path: seq<string>, f: nat, desc: string): Cmd
    requires path != []
    decreases |path|
  {
    var child := if path[0] in c.subs then c.subs[path[0]] else NEW_CMD;
    c.(subs := c.subs[path[0] :=
      if |path| == 1 then child.(f := f, desc := desc) else Added(child, path[1..], f, desc)])
  }

  /** The node at the end of an exact path. */
  function NodeAt(c: Cmd, path: seq<string>): Option<Cmd>
    decreases |path|
  {
    if path == [] then Some(c)
    else if path[0] in c.subs then NodeAt(c.subs[path[0]], path[1..])
    else None
  }

  function Entry(c: Cmd, path: seq<string>): Option<(nat, string)> {
    var n := NodeAt(c, path);
    if n.Some? then Some((n.value.f, n.value.desc)) else None
  }

  /** Adding is an update of the map from paths to entries; besides, missing nodes on the way appear, empty. */
  lemma {:induction false} AddedEntry(c: Cmd, path: seq<string>, f: nat, desc: string, q: seq<string>)
    requires path != []
    ensures Entry(Added(c, path, f, desc), q) ==
      if q == path then Some((f, desc))
      else if q < path && Entry(c, q) == None then Some((0, ""))
      else Entry(c, q)
    decreases |path|
  {
    if q != [] && q[0] == path[0] {
      var child := if path[0] in c.subs then c.subs[path[0]] else NEW_CMD;
      assert q == [q[0]] + q[1..] && path == [path[0]] + path[1..];
      if |path| > 1 {
        AddedEntry(child, path[1..], f, desc, q[1..]);
        NewCmdEntry(q[1..]);
        assert q < path <==> q[1..] < path[1..];
      } else {
        SameBelow(child, f, desc, q[1..]);
        NewCmdEntry(q[1..]);
      }
    }
  }

  lemma NewCmdEntry(q: seq<string>)
    ensures Entry(NEW_CMD, q) == if q == [] then Some((0, "")) else None
  {
  }

  lemma SameBelow(c: Cmd, f: nat, desc: string, q: seq<string>)
    ensures Entry(c.(f := f, desc := desc), q) == if q == [] then Some((f, desc)) else Entry(c, q)
  {
  }

  // ----- finding -----

  /** The tokens, each followed by a space. */
  function Joined(tokens: seq<string>): string {
    if tokens == [] then [] else tokens[0] + " " + Joined(tokens[1..])
  }

  lemma {:induction false} JoinedMore(tokens: seq<string>, t: string)
    ensures Joined([]) == "" && Joined(tokens + [t]) == Joined(tokens) + t + " "
  {
    if tokens == [] {
      assert [t][1..] == [] && [] + [t] == [t];
    } else {
      JoinedMore(tokens[1..], t);
      assert (tokens + [t])[1..] == tokens[1..] + [t];
    }
  }

  /** Which child a token leads to, what it captures, and the tokens to go on with. */
  datatype Choice = Choice(key: string, captured: seq<string>, tokens: seq<string>)

  /** Exact key, "!R", "!S", or the least key the token abbreviates, in this order. */
  ghost function Choose(c: Cmd, tokens: seq<string>): (ch: Option<Choice>)
    requires tokens != []
    ensures ch.Some? ==> ch.value.key in c.subs
    ensures ch.Some? ==> |ch.value.tokens| == 1 || ch.value.tokens == tokens
  {
    var t := tokens[0];
    if t in c.subs then Some(Choice(t, [], tokens))
    else if "!R" in c.subs then Some(Choice("!R", [Joined(tokens)], [Joined(tokens)]))
    else if "!S" in c.subs then Some(Choice("!S", [t], tokens))
    else if Extensions(c.subs.Keys, t) != {} then
      LeastExists(Extensions(c.subs.Keys, t));
      var k :| IsLeast(Extensions(c.subs.Keys, t), k);
      Some(Choice(k, [], tokens))
    else None
  }

  lemma {:induction false} LeastExists(keys: set<string>)
    requires keys != {}
    ensures exists k :: IsLeast(keys, k)
  {
    var x :| x in keys;
    LeqTotal(x, x);
    if keys == {x} {
      assert IsLeast(keys, x);
    } else {
      LeastExists(keys - {x});
      var k :| IsLeast(keys - {x}, k);
      LeqTotal(x, k);
      if Leq(x, k) {
        forall y | y in keys ensures Leq(x, y) {
          if y != x {
            LeqTrans(x, k, y);
          }
        }
        assert IsLeast(keys, x);
      } else {
        assert IsLeast(keys, k);
      }
    }
  }

  /** The command found, if any, and the wildcard tokens. */
  datatype Outcome = Outcome(found: Option<Cmd>, args: seq<string>)

  /** What a search comes to: at each level the choice above, until the tokens end. */
  ghost function Resolve(c: Cmd, tokens: seq<string>, incomp: bool): Outcome
    requires tokens != []
    decreases |tokens|
  {
    var ch := Choose(c, tokens);
    if ch == None then Outcome(None, [])
    else
      var child := c.subs[ch.value.key];
      if |ch.value.tokens| != 1 then
        var r := Resolve(child, ch.value.tokens[1..], incomp);
        Outcome(r.found, ch.value.captured + r.args)
      else Outcome(if child.f == 0 && !incomp then None else Some(child), ch.value.captured)
  }

  /** cmd::find: `argret` and `cmds` are the vectors it edits. */
  method Find(c: Cmd, argret: seq<string>, cmds: seq<string>, incomp: bool)
    returns (found: Option<Cmd>, argret': seq<string>)
    requires cmds != []
    ensures var r := Resolve(c, cmds, incomp); found == r.found && argret' == argret + r.args
    decreases |cmds|
  {
    var tokens := cmds;
    argret' := argret;
    var it: Option<string> := if tokens[0] in c.subs then Some(tokens[0]) else None;
    if it == None {
      if "!R" in c.subs {
        var joined := Join(tokens);
        argret' := argret' + [joined];
        tokens := [joined];
        it := Some("!R");
      } else if "!S" in c.subs {
        argret' := argret' + [tokens[0]];
        it := Some("!S");
      } else {
        var low := Bound(c.subs.Keys, tokens[0], false);
        var high := Bound(c.subs.Keys, tokens[0], true);
        BoundsAgree(c.subs.Keys, tokens[0], low, high);
        LowerBoundIsLeastExtension(c.subs.Keys, tokens[0], low);
        if low == high && low.Some? && tokens[0] <= low.value {
          it := low;
          ChosenIsLeast(c, tokens, low.value);
        } else {
          return None, argret';
        }
      }
    }
    var child := c.subs[it.value];
    if |tokens| != 1 {
      found, argret' := Find(child, argret', tokens[1..], incomp);
      return;
    }
    if child.f == 0 && !incomp {
      return None, argret';
    }
    found := Some(child);
  }

  method Join(tokens: seq<string>) returns (s: string)
    ensures s == Joined(tokens)
  {
    s := [];
    var i: nat := |tokens|;
    while i > 0
      invariant i <= |tokens| && s == Joined(tokens[i..])
    {
      i := i - 1;
      assert tokens[i..][1..] == tokens[i + 1..];
      s := tokens[i] + " " + s;
    }
    assert tokens[0..] == tokens;
  }

  /** For a token that is no key, lower_bound and upper_bound are the same. */
  lemma BoundsAgree(keys: set<string>, t: string, low: Option<string>, high: Option<string>)
    requires t !in keys
    requires var above := set k | k in keys && Leq(t, k);
      (low == None <==> above == {}) && (low.Some? ==> IsLeast(above, low.value))
    requires var above := set k | k in keys && Leq(t, k) && k != t;
      (high == None <==> above == {}) && (high.Some? ==> IsLeast(above, high.value))
    ensures low == high
  {
    var a, b := set k | k in keys && Leq(t, k), set k | k in keys && Leq(t, k) && k != t;
    assert a == b;
    if low.Some? {
      LeastUnique(a, low.value, high.value);
    }
  }

  lemma ChosenIsLeast(c: Cmd, tokens: seq<string>, k: string)
    requires tokens != [] && tokens[0] !in c.subs && "!R" !in c.subs && "!S" !in c.subs
    requires IsLeast(Extensions(c.subs.Keys, tokens[0]), k)
    ensures Choose(c, tokens) == Some(Choice(k, [], tokens))
  {
    LeastUnique(Extensions(c.subs.Keys, tokens[0]), k, Choose(c, tokens).value.key);
  }

  // ----- finding what was added -----

  /** A path spelt out in full leads to its own node, whatever wildcards and abbreviations there are. */
  lemma {:induction false} ExactPath(c: Cmd, path: seq<string>, incomp: bool)
    requires path != [] && NodeAt(c, path).Some?
    ensures var n := NodeAt(c, path).value;
      Resolve(c, path, incomp) == Outcome(if n.f == 0 && !incomp then None else Some(n), [])
    decreases |path|
  {
    if |path| > 1 {
      ExactPath(c.subs[path[0]], path[1..], incomp);
    } else {
      assert path[1..] == [];
    }
  }

  /** After adding a command its full path finds it, and every other full path finds what it found before. */
  lemma AddThenFind(c: Cmd, path: seq<string>, f: nat, desc: string, q: seq<string>, incomp: bool)
    requires path != [] && f != 0
    ensures var r := Resolve(Added(c, path, f, desc), path, incomp);
      r.found.Some? && r.found.value.f == f && r.found.value.desc == desc && r.args == []
    ensures q != [] && q != path && NodeAt(c, q).Some? && NodeAt(c, q).value.f != 0 ==>
      var r := Resolve(Added(c, path, f, desc), q, incomp);
      r.found.Some? && r.found.value.f == NodeAt(c, q).value.f && r.found.value.desc == NodeAt(c, q).value.desc
  {
    AddedEntry(c, path, f, desc, path);
    ExactPath(Added(c, path, f, desc), path, incomp);
    if q != [] && q != path && NodeAt(c, q).Some? {
      AddedEntry(c, path, f, desc, q);
      ExactPath(Added(c, path, f, desc), q, incomp);
    }
  }

  // ----- the wildcard tokens -----

  /** The keys a search goes through. */
  ghost function Keys(c: Cmd, tokens: seq<string>): seq<string>
    requires tokens != []
    decreases |tokens|
  {
    var ch := Choose(c, tokens);
    if ch == None then []
    else [ch.value.key] + if |ch.value.tokens| != 1 then Keys(c.subs[ch.value.key], ch.value.tokens[1..]) else []
  }

  /** The tokens at the places where a wildcard stood in for them, the rest of the line for "!R". */
  function Wild(keys: seq<string>, tokens: seq<string>): seq<string>
    requires |keys| <= |tokens|
  {
    if keys == [] then []
    else if keys[0] == "!R" && tokens[0] != "!R" then [Joined(tokens)]
    else (if keys[0] == "!S" && tokens[0] != "!S" then [tokens[0]] else []) + Wild(keys[1..], tokens[1..])
  }

  /** The arguments collected are the tokens that met wildcards, in order. */
  lemma {:induction false} ArgsAreWild(c: Cmd, tokens: seq<string>, incomp: bool)
    requires tokens != []
    ensures |Keys(c, tokens)| <= |tokens|
    ensures Resolve(c, tokens, incomp).args == Wild(Keys(c, tokens), tokens)
    decreases |tokens|
  {
    var ch, keys := Choose(c, tokens), Keys(c, tokens);
    if ch.Some? {
      NoPlainWildcard(c, tokens);
      if |ch.value.tokens| != 1 {
        ArgsAreWild(c.subs[ch.value.key], tokens[1..], incomp);
        assert keys[1..] == Keys(c.subs[ch.value.key], tokens[1..]);
      } else {
        assert keys[1..] == [];
      }
    }
  }

  /** An abbreviation never stands for a wildcard. */
  lemma NoPlainWildcard(c: Cmd, tokens: seq<string>)
    requires tokens != [] && Choose(c, tokens).Some?
    ensures var ch := Choose(c, tokens).value;
      && (ch.key == "!R" && tokens[0] != "!R" <==> ch.captured == [Joined(tokens)] && ch.tokens == [Joined(tokens)])
      && (ch.key == "!S" && tokens[0] != "!S" ==> ch.captured == [tokens[0]])
  {
  }

  // ----- what a search finds -----

  /** A key a token may lead to: itself, a wildcard, or one it abbreviates. */
  predicate Meets(key: string, t: string) { key == t || key == "!R" || key == "!S" || t <= key }

  /** The key itself comes first, then "!R", then "!S", and what the token abbreviates last. */
  function Rank(key: string, t: string): nat {
    if key == t then 0 else if key == "!R" then 1 else if key == "!S" then 2 else 3
  }

  predicate Better(k: string, l: string, t: string) {
    Rank(k, t) < Rank(l, t) || (Rank(k, t) == Rank(l, t) && Leq(k, l))
  }

  /** Of the keys a token may lead to, the one that comes first, and of several it abbreviates the least. */
  ghost predicate IsBest(c: Cmd, t: string, key: string) {
    key in c.subs && Meets(key, t) && forall k :: k in c.subs && Meets(k, t) ==> Better(key, k, t)
  }

  lemma ChosenIsBest(c: Cmd, tokens: seq<string>)
    requires tokens != []
    ensures Choose(c, tokens) == None <==> forall k :: k in c.subs ==> !Meets(k, tokens[0])
    ensures Choose(c, tokens).Some? ==> IsBest(c, tokens[0], Choose(c, tokens).value.key)
  {
    var t, ch := tokens[0], Choose(c, tokens);
    forall k | k in c.subs && Meets(k, t) ensures ch.Some? && Better(ch.value.key, k, t) {
      LeqTotal(k, k);
      if t !in c.subs && "!R" !in c.subs && "!S" !in c.subs {
        assert k in Extensions(c.subs.Keys, t);
      }
    }
  }

  /** The keys account for all tokens: each for one, or the last, a "!R", for the rest of the line. */
  predicate AllMet(keys: seq<string>, tokens: seq<string>)
    requires |keys| <= |tokens|
  {
    |keys| == |tokens| || (keys != [] && keys[|keys| - 1] == "!R" && tokens[|keys| - 1] != "!R")
  }

  /** A search goes through the best keys, one a level, and finds the node they lead to, if they account for all tokens
      and it has a callback, or incomplete commands will do. */
  lemma {:induction false} FoundAlongKeys(c: Cmd, tokens: seq<string>, incomp: bool)
    requires tokens != []
    ensures var keys := Keys(c, tokens);
      && |keys| <= |tokens| && NodeAt(c, keys).Some?
      && var node := NodeAt(c, keys).value;
      && Resolve(c, tokens, incomp).found ==
         (if AllMet(keys, tokens) && (node.f != 0 || incomp) then Some(node) else None)
      && (!AllMet(keys, tokens) ==> forall k :: k in node.subs ==> !Meets(k, tokens[|keys|]))
    decreases |tokens|
  {
    var ch, keys := Choose(c, tokens), Keys(c, tokens);
    ChosenIsBest(c, tokens);
    if ch.Some? {
      var child := c.subs[ch.value.key];
      NoPlainWildcard(c, tokens);
      if |ch.value.tokens| != 1 {
        FoundAlongKeys(child, tokens[1..], incomp);
        assert keys[1..] == Keys(child, tokens[1..]);
      } else {
        assert keys[1..] == [];
      }
    }
  }

  /** Each key is the best for its token where the keys before it have led. */
  lemma {:induction false} KeysAreBest(c: Cmd, tokens: seq<string>, i: nat)
    requires tokens != [] && i < |Keys(c, tokens)| <= |tokens|
    ensures NodeAt(c, Keys(c, tokens)[..i]).Some?
    ensures IsBest(NodeAt(c, Keys(c, tokens)[..i]).value, tokens[i], Keys(c, tokens)[i])
    decreases |tokens|
  {
    var ch, keys := Choose(c, tokens), Keys(c, tokens);
    ChosenIsBest(c, tokens);
    if i > 0 {
      var child := c.subs[ch.value.key];
      assert keys[1..] == Keys(child, tokens[1..]);
      KeysAreBest(child, tokens[1..], i - 1);
      assert keys[..i][1..] == keys[1..][..i - 1];
    }
  }

  class Commands {
    var root: Cmd

    constructor ()
      ensures root == NEW_CMD
    {
      root := NEW_CMD;
    }

    /** cmd::add on the whole tree. The vector of tokens is the caller's, and is used up but for its last token. */
    method Add(args: seq<string>, f: nat, desc: string) returns (ok: bool, left: seq<string>)
      requires args != []
      modifies this
      ensures ok && root == Added(old(root), args, f, desc) && left == [args[|args| - 1]]
    {
      root, ok, left := AddTo(root, args, f, desc);
    }

    /** One node's share: `sub_cmds[token]` is made if it is missing. */
    static method AddTo(c: Cmd, args: seq<string>, f: nat, desc: string) returns (c': Cmd, ok: bool, left: seq<string>)
      requires args != []
      ensures ok && c' == Added(c, args, f, desc) && left == [args[|args| - 1]]
      decreases |args|
    {
      var subs := c.subs;
      if args[0] !in subs {
        subs := subs[args[0] := NEW_CMD];
      }
      if |args| == 1 {
        subs := subs[args[0] := subs[args[0]].(f := f)];
        subs := subs[args[0] := subs[args[0]].(desc := desc)];
        return c.(subs := subs), true, args;
      }
      var s := args[0];
      var child;
      child, ok, left := AddTo(subs[s], args[1..], f, desc);
      c' := c.(subs := subs[s := child]);
      ok := true;
    }
  }
}
