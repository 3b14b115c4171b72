/** Python's `int(text, base)` for the two bases the HTTP module uses, and `str(n)`. */
module PyInt {
  import opened ByteStrings

  /** The value of an ASCII digit, or 16 for every other byte. */
  function DigitValue(c: Byte): (v: nat)
    ensures v <= 16
  {
    if '0' <= c <= '9' then c as int - '0' as int
    else if 'a' <= c <= 'f' then c as int - 'a' as int + 10
    else if 'A' <= c <= 'F' then c as int - 'A' as int + 10
    else 16
  }

  predicate AllDigits(s: Bytes, base: nat) {
    s != [] && forall i :: 0 <= i < |s| ==> DigitValue(s[i]) < base
  }

  /** Positional value; underscores are separators and carry no value. */
  function Value(s: Bytes, base: nat): (n: nat) {
    if s == [] then 0
    else
      var rest := Value(s[..|s| - 1], base);
      var c := s[|s| - 1];
      if c == '_' then rest else rest * base + DigitValue(c)
  }

  /** A digit string in which single underscores may separate digits. */
  predicate Numeral(s: Bytes, base: nat) {
    && s != [] && s[0] != '_' && s[|s| - 1] != '_'
    && (forall i :: 0 <= i < |s| ==> s[i] == '_' || DigitValue(s[i]) < base)
    && (forall i :: 0 < i < |s| ==> !(s[i - 1] == '_' && s[i] == '_'))
  }

  /** `0x` prefix in base 16; one underscore may follow it. */
  function DropPrefix(s: Bytes, base: nat): Bytes {
    if base == 16 && |s| >= 2 && s[0] == '0' && (s[1] == 'x' || s[1] == 'X') then
      if |s| >= 3 && s[2] == '_' then s[3..] else s[2..]
    else s
  }

  /** `int(s, base)` on a string without surrounding white space; None where Python raises ValueError. */
  function ParseInt(s: Bytes, base: nat): (r: Option<int>) {
    var signed := s != [] && (s[0] == '+' || s[0] == '-');
    var digits := DropPrefix(if signed then s[1..] else s, base);
    if !Numeral(digits, base) then None
    else if signed && s[0] == '-' then Some(-(Value(digits, base) as int))
    else Some(Value(digits, base))
  }

  /** On plain digit strings, Python's permissive grammar and the strict one of the RFCs agree. */
  lemma ParseDigits(s: Bytes, base: nat)
    requires base == 10 || base == 16
    requires AllDigits(s, base)
    ensures ParseInt(s, base) == Some(Value(s, base))
  {
    assert DigitValue(s[0]) < base;
    if |s| >= 2 {
      assert DigitValue(s[1]) < base;
    }
    forall i | 0 <= i < |s| ensures s[i] != '_' {
      assert DigitValue(s[i]) < base;
    }
  }

  lemma PlainDigits(s: Bytes, base: nat)
    requires base == 10 || base == 16
    requires AllDigits(s, base)
    ensures Numeral(s, base) && DropPrefix(s, base) == s && s[0] != '+' && s[0] != '-'
  {
    assert DigitValue(s[0]) < base;
    if |s| >= 2 {
      assert DigitValue(s[1]) < base;
    }
    forall i | 0 <= i < |s| ensures s[i] != '_' {
      assert DigitValue(s[i]) < base;
    }
  }

  /** A sign is taken in front of the digits. */
  lemma SignedDigits(s: Bytes, base: nat)
    requires base == 10 || base == 16
    requires AllDigits(s, base)
    ensures ParseInt(['+'] + s, base) == Some(Value(s, base))
    ensures ParseInt(['-'] + s, base) == Some(-(Value(s, base) as int))
  {
    hide Numeral, DropPrefix, Value;
    PlainDigits(s, base);
    assert (['+'] + s)[1..] == s && (['-'] + s)[1..] == s;
  }

  lemma {:induction false} UnderscoreValue(a: Bytes, b: Bytes, base: nat)
    ensures Value(a + ['_'] + b, base) == Value(a + b, base)
    decreases |b|
  {
    var s := a + ['_'] + b;
    if b == [] {
      assert s[..|s| - 1] == a && a + b == a;
    } else {
      assert s[..|s| - 1] == a + ['_'] + b[..|b| - 1] && (a + b)[..|a + b| - 1] == a + b[..|b| - 1];
      UnderscoreValue(a, b[..|b| - 1], base);
    }
  }

  lemma UnderscoreNumeral(a: Bytes, b: Bytes, base: nat)
    requires base == 10 || base == 16
    requires AllDigits(a, base) && AllDigits(b, base)
    ensures var s := a + ['_'] + b;
      s[0] == a[0] && Numeral(s, base) && DropPrefix(s, base) == s
  {
    hide Value;
    PlainDigits(a, base);
    PlainDigits(b, base);
    var s := a + ['_'] + b;
    assert s[|s| - 1] == b[|b| - 1];
    assert DigitValue(a[0]) < base && DigitValue(b[|b| - 1]) < base;
  }

  /** A single underscore between digits is skipped. */
  lemma UnderscoreSkipped(a: Bytes, b: Bytes, base: nat)
    requires base == 10 || base == 16
    requires AllDigits(a, base) && AllDigits(b, base)
    ensures ParseInt(a + ['_'] + b, base) == Some(Value(a + b, base))
  {
    hide Value, Numeral, DropPrefix;
    PlainDigits(a, base);
    UnderscoreNumeral(a, b, base);
    UnderscoreValue(a, b, base);
  }

  lemma NoUnderscore(s: Bytes, base: nat)
    requires base <= 16 && AllDigits(s, base)
    ensures s != [] && s[0] != '_'
  {
    assert DigitValue(s[0]) < base;
  }

  /** In base 16 a prefix is taken, in either case. */
  lemma HexPrefix(s: Bytes)
    requires AllDigits(s, 16)
    ensures ParseInt(['0', 'x'] + s, 16) == ParseInt(['0', 'X'] + s, 16) == Some(Value(s, 16))
  {
    hide Value, Numeral, AllDigits;
    PlainDigits(s, 16);
    NoUnderscore(s, 16);
    var x, capital := ['0', 'x'] + s, ['0', 'X'] + s;
    assert x[2..] == s && capital[2..] == s;
    assert x[2] == s[0] && capital[2] == s[0];
    assert DropPrefix(x, 16) == s && DropPrefix(capital, 16) == s;
  }

  /** One underscore may follow it. */
  lemma PrefixUnderscore(s: Bytes)
    requires AllDigits(s, 16)
    ensures ParseInt(['0', 'x', '_'] + s, 16) == Some(Value(s, 16))
  {
    hide Value, Numeral, AllDigits;
    PlainDigits(s, 16);
    NoUnderscore(s, 16);
    var x := ['0', 'x', '_'] + s;
    assert x[3..] == s && DropPrefix(x, 16) == s;
  }

  /** Two underscores in a row, or one at an end, make it no number. */
  lemma UnderscoresRefused(a: Bytes, b: Bytes)
    ensures AllDigits(a, 10) ==> ParseInt(a + ['_', '_'] + b, 10) == None
    ensures ParseInt(['_'] + b, 10) == None && ParseInt(a + ['_'], 10) == None && ParseInt([], 10) == None
  {
    hide Value;
    var twice, last := a + ['_', '_'] + b, a + ['_'];
    assert twice[|a|] == '_' && twice[|a| + 1] == '_' && last[|a|] == '_';
    if AllDigits(a, 10) {
      PlainDigits(a, 10);
      assert twice[0] == a[0];
    }
    assert (['_'] + b)[0] == '_';
    if a != [] {
      assert last[0] == a[0] && last[1..][|last| - 2] == '_';
    }
  }

  /** `str(n)`. */
  function Decimal(n: nat): (s: Bytes)
    ensures AllDigits(s, 10)
  {
    var last: Byte := ('0' as int + n % 10) as char;
    if n < 10 then [last] else Decimal(n / 10) + [last]
  }

  /** Printing and reading back a number is the identity. */
  lemma {:induction false} DecimalRoundTrip(n: nat)
    ensures Value(Decimal(n), 10) == n
    ensures ParseInt(Decimal(n), 10) == Some(n)
  {
    var s := Decimal(n);
    if n >= 10 {
      DecimalRoundTrip(n / 10);
      assert s[..|s| - 1] == Decimal(n / 10);
    } else {
      assert s[..|s| - 1] == [];
    }
    ParseDigits(s, 10);
  }
}
