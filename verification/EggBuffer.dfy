/** The growing buffers of c-cpp/onethread/memutil.c: appending (egg_append_str), and formatting by trial
    (egg_mvsprintf).
 */
module EggBuffer {
  import opened Bytes
  import opened Options

  /** The bytes of a C string: up to its first NUL. */
  function CString(s: seq<Byte>): seq<Byte>
  {
    if s == [] || s[0] == 0 then [] else [s[0]] + CString(s[1..])
  }

  lemma {:induction false} CStringIs(s: seq<Byte>, n: nat)
    requires n < |s| && s[n] == 0 && 0 !in s[..n]
    ensures CString(s) == s[..n]
  {
    if n > 0 {
      assert s[0] in s[..n];
      assert s[..n][1..] == s[1..][..n - 1];
      CStringIs(s[1..], n - 1);
    }
  }

  lemma Terminated(s: seq<Byte>)
    requires 0 !in s
    ensures CString(s + [0]) == s
  {
    assert (s + [0])[..|s|] == s;
    CStringIs(s + [0], |s|);
  }

  method StrLen(s: seq<Byte>) returns (n: nat)
    requires 0 in s
    ensures n < |s| && s[n] == 0 && CString(s) == s[..n]
  {
    n := 0;
    while s[n] != 0
      invariant n < |s| && 0 !in s[..n] && 0 in s[n..]
      decreases |s| - n
    {
      assert s[n..] == [s[n]] + s[n + 1..];
      n := n + 1;
    }
    CStringIs(s, n);
  }

  class Buffer {
    var dest: array<Byte>
    var cur: nat
    var max: nat

    ghost predicate Valid()
      reads this
    {
      dest.Length == max + 1 && cur + 10 <= max
    }

    function Contents(): seq<Byte>
      requires Valid()
      reads this, dest
    {
      dest[..cur]
    }

    constructor ()
      ensures Valid() && fresh(dest) && Contents() == []
    {
      cur, max := 0, 128;
      dest := new Byte[129];
    }

    /** Appends a NUL-terminated string, making room first; ten bytes always stay free. */
    method Append(src: seq<Byte>)
      requires Valid() && 0 in src
      modifies this, dest
      ensures Valid() && (dest == old(dest) || fresh(dest))
      ensures Contents() == old(Contents()) + CString(src)
    {
      var len := StrLen(src);
      if cur + len + 10 > max {
        max := max + len + 128;
        dest := Realloc(dest, cur, max + 1);
      }
      CopyTo(dest, cur, src, len);
      cur := cur + len;
    }

    /** memmove of `len` bytes to position `at`. */
    static method CopyTo(d: array<Byte>, at: nat, src: seq<Byte>, len: nat)
      requires len <= |src| && at + len <= d.Length
      modifies d
      ensures d[..at + len] == old(d[..at]) + src[..len]
    {
      for i := 0 to len
        invariant d[..at] == old(d[..at]) && d[at..at + i] == src[..i]
      {
        d[at + i] := src[i];
      }
      assert d[..at + len] == d[..at] + d[at..at + len];
    }
  }

  /** realloc: an array of another length with the same first `used` bytes. */
  method Realloc(a: array<Byte>, used: nat, length: nat) returns (b: array<Byte>)
    requires used <= a.Length && used <= length
    ensures fresh(b) && b.Length == length && b[..used] == a[..used]
  {
    b := new Byte[length];
    for i := 0 to used
      invariant b[..i] == a[..i]
    {
      b[i] := a[i];
    }
  }

  // ----- formatting into a buffer of unknown size -----

  /** Two kinds of C library: one always tells the length it needs, the old one only that it did not fit. */
  datatype Library = C99 | Old

  /** vsnprintf of a format that yields `text`, into at most `size` bytes of `a`. */
  method Vsnprintf(a: array<Byte>, size: nat, text: seq<Byte>, library: Library) returns (n: int)
    requires size <= a.Length
    modifies a
    ensures n == if |text| < size || library.C99? then |text| else -1
    ensures |text| < size ==> a[..|text| + 1] == text + [0]
  {
    n := if |text| < size || library.C99? then |text| else -1;
    for i := 0 to size
      invariant forall j :: 0 <= j < i && j < |text| && j + 1 < size ==> a[j] == text[j]
      invariant |text| < i ==> a[|text|] == 0
    {
      a[i] := if i < |text| && i + 1 < size then text[i] else 0;
    }
  }

  /** The size of the first attempt that holds `len` bytes and a NUL, after one of `size` bytes. */
  function Attempt(size: nat, len: nat, library: Library): (r: nat)
    requires size > 0
    ensures r > len
    decreases if size > len then 0 else len - size + 1
  {
    if len < size then size
    else if library.C99? && len > size then len + 1
    else Attempt(2 * size, len, library)
  }

  /** The caller's own memory is used when it is there and longer than ten bytes. */
  predicate Usable(given: bool, room: nat) { given && room > 10 }

  /** What the first attempt may write: ten bytes are kept back. */
  function FirstSize(given: bool, room: nat): nat {
    if Usable(given, room) then room - 10 else 502
  }

  /** The text fits the caller's own memory. */
  predicate FitsCaller(given: bool, room: nat, len: nat) { Usable(given, room) && len + 10 < room }

  /** The length that goes with the text: measured again, up to the first NUL, for multiples of 1024 if the caller
      wants to know it. */
  function Measured(text: seq<Byte>, wanted: bool): nat {
    if wanted && |text| % 1024 == 0 then |CString(text)| else |text|
  }

  /** The memory is cut back below the text: it is not the caller's, over 256 bytes seem to be unused, and the NUL
      that the length was measured to lies 20 bytes or more before the end. */
  predicate CutShort(given: bool, room: nat, text: seq<Byte>, library: Library, wanted: bool) {
    var n := Measured(text, wanted);
    && !FitsCaller(given, room, |text|)
    && Attempt(FirstSize(given, room), |text|, library) - n > 256
    && n + 20 <= |text|
  }

  /** egg_mvsprintf: tries, grows and tries again; `buf` is the caller's own memory of `room` bytes, or null, and
      `wanted` says whether `final_len` is given. Every attempt stays inside its memory, and the loop ends with either
      library, after at most two attempts with a C99 one. The whole text is returned unless it is cut short. */
  method Format(buf: array?<Byte>, room: nat, text: seq<Byte>, library: Library, wanted: bool)
    returns (output: array<Byte>, finalLen: Option<nat>, attempts: nat)
    requires buf != null ==> room <= buf.Length
    modifies buf
    ensures output == buf || fresh(output)
    ensures output == buf <==> FitsCaller(buf != null, room, |text|)
    ensures (|text| < output.Length && output[..|text| + 1] == text + [0])
      <==> !CutShort(buf != null, room, text, library, wanted)
    ensures CutShort(buf != null, room, text, library, wanted) ==>
      output.Length == Measured(text, wanted) + 20 <= |text| && output[..] == text[..output.Length]
    ensures library.C99? ==> attempts <= 2
    ensures finalLen == if wanted then Some(Measured(text, true)) else None
    ensures wanted ==> (finalLen == Some(|text|) <==> |text| % 1024 != 0 || 0 !in text)
  {
    hide Attempt;
    var size;
    output, size, attempts := Attempts(buf, room, text, library);
    var n := |text|;
    finalLen := None;
    assert output[..][..|text| + 1] == text + [0];
    MeasuredUpTo(output[..], text);
    if wanted {
      if n % 1024 == 0 {
        n := StrLen(output[..]);
      }
      finalLen := Some(n);
    }
    if output != buf && size - n > 256 {
      output := Trim(output, n, text);
    }
  }

  /** The last realloc, when more than 256 bytes seem to be unused. */
  method Trim(a: array<Byte>, n: nat, text: seq<Byte>) returns (r: array<Byte>)
    requires n <= |text| < a.Length && n + 20 <= a.Length && a[..|text| + 1] == text + [0]
    ensures fresh(r) && r.Length == n + 20
    ensures |text| < n + 20 ==> r[..|text| + 1] == text + [0]
    ensures n + 20 <= |text| ==> r[..] == text[..n + 20]
  {
    r := Realloc(a, n + 20, n + 20);
    if |text| < n + 20 {
      assert r[..|text| + 1] == a[..n + 20][..|text| + 1];
    } else {
      assert r[..] == a[..|text| + 1][..n + 20] == (text + [0])[..n + 20];
    }
  }

  /** The loop. */
  method Attempts(buf: array?<Byte>, room: nat, text: seq<Byte>, library: Library)
    returns (output: array<Byte>, size: nat, attempts: nat)
    requires buf != null ==> room <= buf.Length
    modifies buf
    ensures output == buf || fresh(output)
    ensures output == buf <==> FitsCaller(buf != null, room, |text|)
    ensures size == Attempt(FirstSize(buf != null, room), |text|, library) && |text| < size <= output.Length
    ensures output[..|text| + 1] == text + [0]
    ensures library.C99? ==> attempts <= 2
  {
    var len: int;
    if buf != null && room > 10 {
      output, len := buf, room;
    } else {
      output, len := new Byte[512], 512;
    }
    attempts := 0;
    while true
      invariant 10 < len <= output.Length && (output == buf || fresh(output))
      invariant attempts == 0 ==> len - 10 == FirstSize(buf != null, room)
      invariant attempts == 0 ==> (output == buf <==> Usable(buf != null, room))
      invariant attempts > 0 ==> output != buf && FirstSize(buf != null, room) <= |text|
      invariant library.C99? ==> attempts <= 1 && (attempts == 1 ==> len - 10 > |text|)
      invariant Attempt(len - 10, |text|, library) == Attempt(FirstSize(buf != null, room), |text|, library)
      decreases |text| + 1 - (len - 10)
    {
      len := len - 10;
      attempts := attempts + 1;
      var n := Vsnprintf(output, len, text, library);
      if n > -1 && n < len {
        size := len;
        break;
      }
      if n > len {
        len := n + 1;
      } else {
        len := len * 2;
      }
      len := len + 10;
      output := new Byte[len];
    }
  }

  /** Only a measured text of a multiple of 1024 bytes with a NUL inside is cut short; and where that NUL lies 256
      bytes or more before the end, it always is, unless it fits the caller's memory. */
  lemma CutShortWhen(given: bool, room: nat, text: seq<Byte>, library: Library, wanted: bool)
    ensures CutShort(given, room, text, library, wanted) ==> wanted && |text| % 1024 == 0 && 0 in text
    ensures |CString(text)| + 256 <= |text| ==>
      (CutShort(given, room, text, library, wanted) <==>
       wanted && |text| % 1024 == 0 && !FitsCaller(given, room, |text|))
  {
    assert (text + [0])[..|text| + 1] == text + [0];
    UpToNul(text + [0], text);
  }

  /** Any 1024 bytes that begin with a NUL, with a length wanted and no memory given: 20 bytes come back. */
  lemma CutShortWitness(text: seq<Byte>, library: Library)
    requires |text| == 1024 && text[0] == 0
    ensures Measured(text, true) == 0 && CutShort(false, 0, text, library, true)
    ensures !CutShort(false, 0, text, library, false)
  {
  }

  /** The length found in the memory is the length found in the text, where the text has a NUL of its own. */
  lemma MeasuredUpTo(s: seq<Byte>, text: seq<Byte>)
    requires |text| < |s| && s[..|text| + 1] == text + [0]
    ensures 0 in s && CString(s) == CString(text) && |CString(text)| <= |text|
    ensures |CString(text)| == |text| <==> 0 !in text
  {
    assert s[|text|] == (text + [0])[|text|] == 0;
    UpToNul(s, text);
  }

  lemma {:induction false} UpToNul(s: seq<Byte>, text: seq<Byte>)
    requires |text| < |s| && s[..|text| + 1] == text + [0]
    ensures CString(s) == CString(text) && |CString(text)| <= |text|
    ensures |CString(text)| == |text| <==> 0 !in text
  {
    assert s[0] == (text + [0])[0];
    if text != [] {
      assert s[1..][..|text|] == s[..|text| + 1][1..] == text[1..] + [0];
      UpToNul(s[1..], text[1..]);
    }
  }
}
