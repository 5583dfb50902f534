/** What a terminal shows of the telnet writer's output, with the attribute numbers of ANSI X3.64, against what the
    control codes of the text ask for.
 */
module TelnetScreen {
  import opened Bytes
  import opened Options
  import opened Telnet

  datatype Look = Look(bold: bool, underlined: bool, reversed: bool)

  const PLAIN_LOOK := Look(false, false, false)

  /** A byte that arrives at the terminal, and how it is shown. */
  datatype Cell = Cell(b: Byte, look: Look)

  /** What has been shown, and the look of what is to come. */
  datatype Screen = Screen(cells: seq<Cell>, look: Look)

  // ----- the terminal -----

  /** Select Graphic Rendition: 0 switches everything off, 1 bold, 4 underlined and 7 reversed on. */
  function Select(n: int, look: Look): Look {
    if n == 0 then PLAIN_LOOK
    else if n == 1 then look.(bold := true)
    else if n == 4 then look.(underlined := true)
    else if n == 7 then look.(reversed := true)
    else look
  }

  /** ESC [ digit m. */
  predicate Selects(s: seq<Byte>) { |s| >= 4 && s[0] == 27 && s[1] == 91 && 48 <= s[2] <= 57 && s[3] == 109 }

  function Show(s: seq<Byte>, look: Look): Screen
    decreases s
  {
    if s == [] then Screen([], look)
    else if Selects(s) then Show(s[4..], Select(s[2] - 48, look))
    else
      var r := Show(s[1..], look);
      r.(cells := [Cell(s[0], look)] + r.cells)
  }

  // ----- the text -----

  function Cells(s: seq<Byte>, look: Look): seq<Cell> { seq(|s|, i requires 0 <= i < |s| => Cell(s[i], look)) }

  /** The look after byte `b`: 2 is bold, 31 underlined and 22 reversed, 15 ends them all, and so does a line end. */
  function LookAfter(b: Byte, look: Look): Look {
    if b == 2 then look.(bold := true)
    else if b == 31 then look.(underlined := true)
    else if b == 22 then look.(reversed := true)
    else if b == 15 || b == 13 || b == 10 then PLAIN_LOOK
    else look
  }

  /** What is shown of it: nothing of formatting, BEL (7) and CR (13); CR LF of LF (10) and of a NUL; the byte to
      double twice; and any other byte as it is. */
  function Shown(q: Option<Byte>, b: Byte): seq<Byte> {
    if b == 2 || b == 31 || b == 22 || b == 15 || b == 7 || b == 13 then []
    else if b == 10 || b == 0 then [13, 10]
    else if q == Some(b) then [b, b]
    else [b]
  }

  function Meant(q: Option<Byte>, data: seq<Byte>, look: Look): Screen
    decreases data
  {
    if data == [] then Screen([], look)
    else
      var next := LookAfter(data[0], look);
      var r := Meant(q, data[1..], next);
      r.(cells := Cells(Shown(q, data[0]), next) + r.cells)
  }

  // ----- the writer -----

  lemma {:induction false} ShowText(o: seq<Byte>, r: seq<Byte>, look: Look)
    requires ESC !in o
    ensures Show(o + r, look) == var t := Show(r, look); t.(cells := Cells(o, look) + t.cells)
  {
    if o == [] {
      assert o + r == r;
    } else {
      assert o[0] in o && (o + r)[0] == o[0] && (o + r)[1..] == o[1..] + r;
      ShowText(o[1..], r, look);
      assert Cells(o, look) == [Cell(o[0], look)] + Cells(o[1..], look);
    }
  }

  lemma ShowSwitch(n: nat, r: seq<Byte>, look: Look)
    requires n < 10
    ensures Show(Switch(n) + r, look) == Show(r, Select(n, look))
  {
    var s := Switch(n) + r;
    assert s[0] == 27 && s[1] == 91 && s[2] == 48 + n && s[3] == 109 && s[4..] == r;
  }

  /** One byte of the text. */
  lemma ShowOut(q: Option<Byte>, code: bool, prev: Byte, b: Byte, r: seq<Byte>, look: Look)
    requires b != ESC && q != Some(ESC) && (look != PLAIN_LOOK ==> code) && (b == NUL ==> prev == CR)
    ensures Show(Out(q, code, prev, b) + r, look) ==
      var next := LookAfter(b, look);
      var t := Show(r, next);
      t.(cells := Cells(Shown(q, b), next) + t.cells)
  {
    var next := LookAfter(b, look);
    if Formats(b) {
      ShowSwitch(SwitchOf(b), r, look);
    } else if (b == CR || b == LF) && code {
      var tail := if b == CR then [] else CRLF;
      ShowText(tail, r, PLAIN_LOOK);
      ShowSwitch(0, tail + r, look);
      Regroup(Switch(0), tail, r);
      assert b == CR ==> Out(q, code, prev, b) == Switch(0) + tail;
    } else {
      ShowText(Out(q, code, prev, b), r, look);
    }
  }

  /** Whatever text without ESC is written, the terminal shows what its codes ask for, if it starts out plain, or `code`
      says that it may not. */
  lemma {:induction false} ShowsWhatIsMeant(q: Option<Byte>, code: bool, prev: Byte, data: seq<Byte>, look: Look)
    requires ESC !in data && q != Some(ESC) && NulsFollowCr(prev, data) && (look != PLAIN_LOOK ==> code)
    ensures Show(Escape(q, code, prev, data), look) == Meant(q, data, look)
    decreases data
  {
    if data != [] {
      NulsTail(prev, data);
      hide Show, Out;
      var b, rest := data[0], data[1..];
      LookNeedsCode(b, code, look);
      ShowsWhatIsMeant(q, CodeAfter(code, b), b, rest, LookAfter(b, look));
      ShowOut(q, code, prev, b, Escape(q, CodeAfter(code, b), b, rest), look);
    } else {
      assert Show([], look) == Screen([], look);
    }
  }

  lemma LookNeedsCode(b: Byte, code: bool, look: Look)
    requires look != PLAIN_LOOK ==> code
    ensures LookAfter(b, look) != PLAIN_LOOK ==> CodeAfter(code, b)
  {
  }

  /** A write of `data` shows what it asks for. */
  predicate ShowsRight(q: Option<Byte>, prev: Byte, data: seq<Byte>, look: Look) {
    Show(Escape(q, false, prev, data), look) == Meant(q, data, look)
  }

  /** A write starts with `code` false. So what an earlier one left switched on is not switched off at a line end: a
      write shows what is meant, whatever its text, exactly if the terminal is plain when it starts. */
  lemma ShowsFromPlain(q: Option<Byte>, prev: Byte, look: Look)
    requires q != Some(ESC)
    ensures look == PLAIN_LOOK <==>
      forall data :: ESC !in data && NulsFollowCr(prev, data) ==> ShowsRight(q, prev, data, look)
  {
    if look == PLAIN_LOOK {
      forall data | ESC !in data && NulsFollowCr(prev, data) ensures ShowsRight(q, prev, data, look) {
        ShowsWhatIsMeant(q, false, prev, data, look);
      }
    } else {
      LineEndLeftOn(q, prev, look);
    }
  }

  lemma LineEndLeftOn(q: Option<Byte>, prev: Byte, look: Look)
    requires look != PLAIN_LOOK && q != Some(ESC)
    ensures ESC !in [LF] && NulsFollowCr(prev, [LF]) && !ShowsRight(q, prev, [LF], look)
  {
    assert [LF][1..] == [];
    assert Escape(q, false, prev, [LF]) == CRLF + [];
    ShowText(CRLF, [], look);
    assert Show([], look).look == look;
    assert Meant(q, [], PLAIN_LOOK).look == PLAIN_LOOK;
  }
}
