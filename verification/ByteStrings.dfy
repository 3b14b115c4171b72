/** Bytes and the string primitives of the Python standard library that the HTTP module calls. */
module ByteStrings {

  /** A byte, named by the Latin-1 character it decodes to: decode("latin-1") is the identity. */
  type Byte = c: char | c as int < 256

  type Bytes = seq<Byte>

  const CRLF: Bytes := ['\r', '\n']
  const BLANK: Bytes := ['\r', '\n', '\r', '\n']

  datatype Option<+T> = None | Some(value: T)

  predicate At(s: Bytes, p: Bytes, i: int) {
    0 <= i <= |s| - |p| && s[i..i + |p|] == p
  }

  /** The first occurrence of `p`, or -1: what `find` returns. */
  function Find(s: Bytes, p: Bytes): (r: int)
    ensures r == -1 || 0 <= r <= |s| - |p|
    ensures r == -1 || At(s, p, r)
    ensures forall j :: 0 <= j < (if r == -1 then |s| + 1 else r) ==> !At(s, p, j)
  {
    FindFrom(s, p, 0)
  }

  function FindFrom(s: Bytes, p: Bytes, i: nat): (r: int)
    requires i <= |s| + 1
    ensures r == -1 || (i <= r && At(s, p, r))
    ensures forall j :: i <= j < (if r == -1 then |s| + 1 else r) ==> !At(s, p, j)
    decreases |s| + 1 - i
  {
    if i == |s| + 1 then -1
    else if At(s, p, i) then i
    else FindFrom(s, p, i + 1)
  }

  /** Python's `in` on two strings. */
  predicate Contains(s: Bytes, p: Bytes) {
    Find(s, p) != -1
  }

  lemma AtAppend(s: Bytes, t: Bytes, p: Bytes, j: int)
    requires j <= |s| - |p|
    ensures At(s + t, p, j) == At(s, p, j)
  {
    if 0 <= j {
      assert (s + t)[j..j + |p|] == s[j..j + |p|];
    }
  }

  /** An occurrence that has been found stays the first one however many bytes arrive later. */
  lemma FindStable(s: Bytes, t: Bytes, p: Bytes)
    requires Find(s, p) != -1
    ensures Find(s + t, p) == Find(s, p)
  {
    var i := Find(s, p);
    forall j | 0 <= j <= i ensures At(s + t, p, j) == At(s, p, j) {
      AtAppend(s, t, p, j);
    }
  }

  /** The first CRLF after a CRLF-free line is the one that ends it. */
  lemma FindLineEnd(line: Bytes, t: Bytes)
    requires Find(line, CRLF) == -1
    ensures Find(line + CRLF + t, CRLF) == |line|
  {
    var s := line + CRLF + t;
    assert At(s, CRLF, |line|);
    forall j | 0 <= j < |line| ensures !At(s, CRLF, j) {
      if j < |line| - 1 {
        assert s == line + (CRLF + t);
        AtAppend(line, CRLF + t, CRLF, j);
      } else {
        assert s[j..j + 2][1] == s[j + 1] == '\r';
      }
    }
  }

  lemma NoLineEnd(s: Bytes)
    requires '\r' !in s
    ensures Find(s, CRLF) == -1
  {
    forall j ensures !At(s, CRLF, j) {
      if 0 <= j <= |s| - 2 {
        assert s[j..j + 2][0] == s[j];
      }
    }
  }

  /** The first `c` after a string without one. */
  lemma FindChar(s: Bytes, t: Bytes, c: Byte)
    requires c !in s
    ensures Find(s + [c] + t, [c]) == |s|
  {
    var d := s + [c] + t;
    forall j | 0 <= j <= |s| ensures At(d, [c], j) <==> j == |s| {
      assert d[j..j + 1] == [d[j]];
      assert j < |s| ==> d[j] in s;
    }
    assert At(d, [c], |s|);
  }

  /** `split` on CRLF. */
  function SplitLines(s: Bytes): (lines: seq<Bytes>)
    decreases |s|
  {
    var i := Find(s, CRLF);
    if i == -1 then [s] else [s[..i]] + SplitLines(s[i + 2..])
  }

  /** White space for `bytes.strip()`. */
  predicate AsciiSpace(c: Byte) {
    c == ' ' || 9 <= c as int <= 13
  }

  /** White space for `str.strip()`, on Latin-1 characters. */
  predicate StrSpace(c: Byte) {
    AsciiSpace(c) || 28 <= c as int <= 31 || c as int == 0x85 || c as int == 0xA0
  }

  function LStrip(s: Bytes, space: Byte -> bool): (r: Bytes) {
    if s != [] && space(s[0]) then LStrip(s[1..], space) else s
  }

  function RStrip(s: Bytes, space: Byte -> bool): (r: Bytes) {
    if s != [] && space(s[|s| - 1]) then RStrip(s[..|s| - 1], space) else s
  }

  function Strip(s: Bytes, space: Byte -> bool): (r: Bytes) {
    RStrip(LStrip(s, space), space)
  }

  /** Nothing is stripped from a string that neither starts nor ends with white space. */
  lemma StripIdentity(s: Bytes, space: Byte -> bool)
    requires s != [] ==> !space(s[0]) && !space(s[|s| - 1])
    ensures Strip(s, space) == s
  {
  }

  function LowerChar(c: Byte): Byte {
    if 'A' <= c <= 'Z' || (0xC0 <= c as int <= 0xDE && c as int != 0xD7)
    then (c as int + 32) as char
    else c
  }

  /** `lower` on Latin-1 characters. */
  function Lower(s: Bytes): (r: Bytes)
    ensures |r| == |s|
    ensures forall i :: 0 <= i < |s| ==> r[i] == LowerChar(s[i])
  {
    seq(|s|, i requires 0 <= i < |s| => LowerChar(s[i]))
  }

  /** `join` with a separator. */
  function Join(parts: seq<Bytes>, sep: Bytes): (r: Bytes) {
    if parts == [] then []
    else if |parts| == 1 then parts[0]
    else parts[0] + sep + Join(parts[1..], sep)
  }

  function Concat(parts: seq<Bytes>): (r: Bytes) {
    if parts == [] then [] else parts[0] + Concat(parts[1..])
  }

  lemma {:induction false} ConcatAppend(a: seq<Bytes>, b: seq<Bytes>)
    ensures Concat(a + b) == Concat(a) + Concat(b)
  {
    if a == [] {
      assert a + b == b;
    } else {
      assert (a + b)[1..] == a[1..] + b;
      ConcatAppend(a[1..], b);
    }
  }
}
