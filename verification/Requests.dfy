/** Request building, and an RFC 9112 request parser that reads back whatever it builds. */
module Requests {
  import opened ByteStrings
  import opened PyInt
  import opened HeaderMap
  import opened Grammar

  /** A Python dict of caller headers, in insertion order. */
  datatype Header = Header(name: string, value: string)

  datatype Request = Request(verb: string, path: string, host: string, headers: seq<Header>, body: Option<Bytes>)

  function LowerStr(s: string): (r: string)
    ensures |r| == |s|
  {
    seq(|s|, i requires 0 <= i < |s| => if s[i] as int < 256 then LowerChar(s[i]) else s[i])
  }

  predicate Supplies(headers: seq<Header>, name: string) {
    exists i :: 0 <= i < |headers| && LowerStr(headers[i].name) == name
  }

  /** The headers filled in for the caller, then the caller's own. */
  function AllHeaders(r: Request): seq<Header> {
    (if Supplies(r.headers, "host") then [] else [Header("Host", r.host)])
    + (if r.body.Some? && !Supplies(r.headers, "content-length")
       then [Header("Content-Length", Decimal(|r.body.value|))] else [])
    + r.headers
  }

  function RequestLine(r: Request): string {
    r.verb + " " + r.path + " HTTP/1.1"
  }

  function HeaderLine(h: Header): string {
    h.name + ": " + h.value
  }

  function Lines(headers: seq<Header>): (r: seq<string>)
    ensures |r| == |headers|
    ensures forall i :: 0 <= i < |r| ==> r[i] == HeaderLine(headers[i])
  {
    seq(|headers|, i requires 0 <= i < |headers| => HeaderLine(headers[i]))
  }

  function JoinStr(parts: seq<string>): string {
    if parts == [] then "" else if |parts| == 1 then parts[0] else parts[0] + "\r\n" + JoinStr(parts[1..])
  }

  predicate IsLatin1(s: string) {
    forall i :: 0 <= i < |s| ==> s[i] as int < 256
  }

  function HeadText(r: Request): string {
    JoinStr([RequestLine(r)] + Lines(AllHeaders(r))) + "\r\n" + "\r\n"
  }

  /** `s.encode("latin-1")`; None where it raises. */
  function Encode(s: string): Option<Bytes> {
    if IsLatin1(s) then Some(s) else None
  }

  function Render(r: Request): Option<Bytes> {
    match Encode(HeadText(r))
    case None => None
    case Some(head) => Some(head + if r.body.Some? then r.body.value else [])
  }

  method FillDefaults(r: Request) returns (all: seq<Header>)
    ensures all == AllHeaders(r)
  {
    hide LowerStr;
    var hasHost, hasLength := false, false;
    for i := 0 to |r.headers|
      invariant hasHost == exists j :: 0 <= j < i && LowerStr(r.headers[j].name) == "host"
      invariant hasLength == exists j :: 0 <= j < i && LowerStr(r.headers[j].name) == "content-length"
    {
      var name := LowerStr(r.headers[i].name);
      hasHost := hasHost || name == "host";
      hasLength := hasLength || name == "content-length";
    }
    var defaults: seq<Header> := [];
    if !hasHost {
      defaults := defaults + [Header("Host", r.host)];
    }
    if r.body.Some? && !hasLength {
      defaults := defaults + [Header("Content-Length", Decimal(|r.body.value|))];
    }
    all := defaults + r.headers;
  }

  method BuildRequest(r: Request) returns (raw: Option<Bytes>)
    ensures raw == Render(r)
  {
    hide JoinStr, Encode, AllHeaders, RequestLine, HeaderLine;
    var all := FillDefaults(r);
    var lines := [RequestLine(r)];
    for i := 0 to |all|
      invariant lines == [RequestLine(r)] + Lines(all)[..i]
    {
      lines := lines + [HeaderLine(all[i])];
    }
    assert Lines(all)[..|all|] == Lines(all);
    var head := Encode(JoinStr(lines) + "\r\n" + "\r\n");
    if head.None? {
      return None;
    }
    if r.body.Some? && r.body.value != [] {
      return Some(head.value + r.body.value);
    }
    assert head.value + (if r.body.Some? then r.body.value else []) == head.value;
    return head;
  }

  // What can be built.

  /** Text in Latin-1 throughout; a host that the caller's own header replaces does not matter. */
  predicate Encodable(r: Request) {
    && IsLatin1(r.verb) && IsLatin1(r.path) && (Supplies(r.headers, "host") || IsLatin1(r.host))
    && forall h :: h in r.headers ==> IsLatin1(h.name) && IsLatin1(h.value)
  }

  lemma LatinAppend(a: string, b: string)
    ensures IsLatin1(a + b) <==> IsLatin1(a) && IsLatin1(b)
  {
    assert forall i :: 0 <= i < |b| ==> b[i] == (a + b)[|a| + i];
    assert forall i :: 0 <= i < |a| ==> a[i] == (a + b)[i];
  }

  lemma {:induction false} LatinJoin(parts: seq<string>)
    ensures IsLatin1(JoinStr(parts)) <==> forall p :: p in parts ==> IsLatin1(p)
    decreases |parts|
  {
    hide IsLatin1;
    if parts == [] {
      BytesAreLatin1([]);
    } else {
      assert parts == [parts[0]] + parts[1..];
      if |parts| > 1 {
        LatinJoin(parts[1..]);
        LatinAppend(parts[0] + "\r\n", JoinStr(parts[1..]));
        LatinAppend(parts[0], "\r\n");
        BytesAreLatin1("\r\n");
      }
    }
  }

  lemma BytesAreLatin1(b: Bytes)
    ensures IsLatin1(b)
  {
  }

  lemma LatinHeader(h: Header)
    ensures IsLatin1(HeaderLine(h)) <==> IsLatin1(h.name) && IsLatin1(h.value)
  {
    LatinAppend(h.name + ": ", h.value);
    LatinAppend(h.name, ": ");
  }

  lemma LatinLines(headers: seq<Header>)
    ensures (forall p :: p in Lines(headers) ==> IsLatin1(p))
       <==> forall h :: h in headers ==> IsLatin1(h.name) && IsLatin1(h.value)
  {
    hide IsLatin1;
    forall h ensures IsLatin1(HeaderLine(h)) <==> IsLatin1(h.name) && IsLatin1(h.value) {
      LatinHeader(h);
    }
    forall h | h in headers ensures HeaderLine(h) in Lines(headers) {
      var i :| 0 <= i < |headers| && headers[i] == h;
      assert Lines(headers)[i] == HeaderLine(h);
    }
  }

  lemma LatinRequestLine(r: Request)
    ensures IsLatin1(RequestLine(r)) <==> IsLatin1(r.verb) && IsLatin1(r.path)
  {
    LatinAppend(r.verb + " " + r.path, " HTTP/1.1");
    LatinAppend(r.verb + " ", r.path);
    LatinAppend(r.verb, " ");
  }

  lemma LatinHeaders(r: Request)
    ensures (forall h :: h in AllHeaders(r) ==> IsLatin1(h.name) && IsLatin1(h.value))
       <==> (Supplies(r.headers, "host") || IsLatin1(r.host))
            && forall h :: h in r.headers ==> IsLatin1(h.name) && IsLatin1(h.value)
  {
    hide IsLatin1, Supplies, Decimal;
    BytesAreLatin1("Host");
    BytesAreLatin1("Content-Length");
    if r.body.Some? {
      BytesAreLatin1(Decimal(|r.body.value|));
    }
    var all := AllHeaders(r);
    assert forall h :: h in r.headers ==> h in all;
    assert !Supplies(r.headers, "host") ==> all[0] == Header("Host", r.host) && all[0] in all;
  }

  /** A request is built exactly when all its text is Latin-1, whatever bytes its body has. */
  lemma EncodableExactly(r: Request)
    ensures Render(r).Some? <==> Encodable(r)
  {
    hide IsLatin1, Supplies, AllHeaders, RequestLine;
    var parts := [RequestLine(r)] + Lines(AllHeaders(r));
    LatinRequestLine(r);
    LatinHeaders(r);
    LatinLines(AllHeaders(r));
    LatinJoin(parts);
    assert forall p :: p in parts <==> p == RequestLine(r) || p in Lines(AllHeaders(r));
    var text := JoinStr(parts);
    LatinAppend(text + "\r\n", "\r\n");
    LatinAppend(text, "\r\n");
    BytesAreLatin1("\r\n");
  }

  // The reader: section 3 (request line and the one Host field), section 5 (fields) and section 6.2 (Content-Length)
  // of RFC 9112. What those sections tell a server to reject, it rejects.

  datatype Message = Message(verb: Bytes, target: Bytes, fields: seq<Line>, body: Option<Bytes>)

  datatype Read<T> = Read(value: T, rest: Bytes)

  function ReadLine(d: Bytes): Option<Read<Bytes>> {
    var i := Find(d, CRLF);
    if i == -1 then None else Some(Read(d[..i], d[i + 2..]))
  }

  /** No CR, LF or NUL, which section 5.5 of RFC 9110 calls dangerous and has rejected. */
  predicate NoBreaks(s: string) {
    '\r' !in s && '\n' !in s && '\0' !in s
  }

  /** A name that is a token, right up to its colon: so no folded line, and no space before the colon. */
  function ReadField(line: Bytes): Option<Line> {
    var colon := Find(line, [':']);
    if colon == -1 || !IsToken(line[..colon]) || !NoBreaks(line) then None
    else Some(Line(line[..colon], Strip(line[colon + 1..], Blank)))
  }

  function ReadFields(d: Bytes): Option<Read<seq<Line>>>
    decreases |d|
  {
    match ReadLine(d)
    case None => None
    case Some(Read(line, rest)) =>
      if line == [] then Some(Read([], rest))
      else
        match ReadField(line)
        case None => None
        case Some(field) =>
          match ReadFields(rest)
          case None => None
          case Some(Read(fields, rest')) => Some(Read([field] + fields, rest'))
  }

  const VERSION: Bytes := "HTTP/1.1"

  function ReadRequestLine(line: Bytes): Option<(Bytes, Bytes)> {
    var a := Find(line, [' ']);
    if a == -1 || !IsToken(line[..a]) then None
    else
      var tail := line[a + 1..];
      var b := Find(tail, [' ']);
      if b == -1 || !IsTarget(tail[..b]) || tail[b + 1..] != VERSION then None else Some((line[..a], tail[..b]))
  }

  /** A body is announced by one Content-Length field; this reader does not take transfer codings. */
  function ReadBody(fields: seq<Line>, d: Bytes): Option<Read<Option<Bytes>>> {
    var lengths := Matching(fields, "content-length");
    if Matching(fields, "transfer-encoding") != [] then None
    else if lengths == [] then Some(Read(None, d))
    else if |lengths| == 1 && AllDigits(lengths[0], 10) && Value(lengths[0], 10) <= |d| then
      var n := Value(lengths[0], 10);
      Some(Read(Some(d[..n]), d[n..]))
    else None
  }

  function ReadMessage(d: Bytes): Option<Read<Message>> {
    match ReadLine(d)
    case None => None
    case Some(Read(line, rest)) =>
      match ReadRequestLine(line)
      case None => None
      case Some((verb, target)) =>
        match ReadFields(rest)
        case None => None
        case Some(Read(fields, rest')) =>
          if |Matching(fields, "host")| != 1 then None
          else
            match ReadBody(fields, rest')
            case None => None
            case Some(Read(body, rest'')) => Some(Read(Message(verb, target, fields, body), rest''))
  }

  /** A keep-alive connection's requests, one after the other. */
  function ReadAll(d: Bytes, count: nat): Option<Read<seq<Message>>>
    decreases count
  {
    if count == 0 then Some(Read([], d))
    else
      match ReadMessage(d)
      case None => None
      case Some(Read(m, rest)) =>
        match ReadAll(rest, count - 1)
        case None => None
        case Some(Read(ms, rest')) => Some(Read([m] + ms, rest'))
  }

  // What a caller must supply for the request to be a valid message at all.

  /** A method or a field name: a token. */
  predicate IsName(s: string) {
    s != "" && forall i :: 0 <= i < |s| ==> s[i] as int < 256 && TChar(s[i])
  }

  /** A request target: no white space, nothing but visible ASCII. */
  predicate IsTarget(s: string) {
    s != "" && forall i :: 0 <= i < |s| ==> '!' <= s[i] <= '~'
  }

  predicate IsFieldValue(s: string) {
    IsLatin1(s) && NoBreaks(s) && (s != "" ==> s[0] !in " \t" && s[|s| - 1] !in " \t")
  }

  predicate IsHeader(h: Header) {
    IsName(h.name) && IsFieldValue(h.value)
  }

  predicate IsField(f: Line) {
    IsToken(f.name) && IsFieldValue(f.value)
  }

  function Fields(headers: seq<Header>): (r: seq<Line>)
    requires forall h :: h in headers ==> IsHeader(h)
    ensures forall f :: f in r ==> IsField(f)
  {
    if headers == [] then [] else [Field(headers[0])] + Fields(headers[1..])
  }

  function Field(h: Header): Line
    requires IsHeader(h)
  {
    Line(h.name, h.value)
  }

  /** The values of the caller's own headers with this lower-case name. */
  function Own(r: Request, name: Bytes): seq<Bytes>
    requires forall h :: h in r.headers ==> IsHeader(h)
  {
    Matching(Fields(r.headers), name)
  }

  /** A caller's own Content-Length, if there is one, is the one right one. */
  predicate OwnLengthRight(r: Request)
    requires forall h :: h in r.headers ==> IsHeader(h)
  {
    var own := Own(r, "content-length");
    own == [] || (|own| == 1 && r.body.Some? && AllDigits(own[0], 10) && Value(own[0], 10) == |r.body.value|)
  }

  predicate WellFormed(r: Request) {
    && IsName(r.verb) && IsTarget(r.path) && IsFieldValue(r.host)
    && (forall h :: h in r.headers ==> IsHeader(h))
    && |Own(r, "host")| <= 1 && OwnLengthRight(r) && Own(r, "transfer-encoding") == []
  }

  lemma DecimalIsValue(n: nat)
    ensures IsFieldValue(Decimal(n))
  {
    var text := Decimal(n);
    forall i | 0 <= i < |text| ensures '0' <= text[i] <= '9' {
      assert DigitValue(text[i]) < 10;
    }
  }

  lemma DefaultNamesValid()
    ensures IsName("Host") && IsName("Content-Length")
  {
  }

  lemma DefaultsWellFormed(r: Request)
    requires WellFormed(r)
    ensures forall h :: h in AllHeaders(r) ==> IsHeader(h)
  {
    hide IsName, IsFieldValue, Supplies, Decimal, IsTarget, Own, OwnLengthRight;
    DefaultNamesValid();
    if r.body.Some? {
      DecimalIsValue(|r.body.value|);
    }
  }

  /**
   * The message a well-formed request means: Host first and then Content-Length, each unless the caller supplied it in
   * any case, and then the caller's headers in order.
   */
  function Meaning(r: Request): Message
    requires WellFormed(r)
  {
    var host: seq<Line> := if Own(r, "host") == [] then [Line("Host", r.host)] else [];
    var length: seq<Line> :=
      if r.body.Some? && Own(r, "content-length") == [] then [Line("Content-Length", Decimal(|r.body.value|))] else [];
    Message(r.verb, r.path, host + length + Fields(r.headers), r.body)
  }

  // Reading back.

  function RenderFields(fields: seq<Line>): Bytes {
    if fields == [] then [] else fields[0].name + ": " + fields[0].value + CRLF + RenderFields(fields[1..])
  }

  lemma LineReads(line: Bytes, rest: Bytes)
    requires '\r' !in line
    ensures ReadLine(line + CRLF + rest) == Some(Read(line, rest))
  {
    NoLineEnd(line);
    FindLineEnd(line, rest);
    var d := line + CRLF + rest;
    assert d[..|line|] == line && d[|line| + 2..] == rest;
  }

  lemma TokenBytes(name: Bytes)
    requires IsToken(name)
    ensures ':' !in name && ' ' !in name && NoBreaks(name)
  {
    forall i | 0 <= i < |name| ensures name[i] !in ": \r\n\0" {
      assert TChar(name[i]);
    }
  }

  lemma TargetBytes(target: Bytes)
    requires IsTarget(target)
    ensures ' ' !in target && NoBreaks(target)
  {
  }

  lemma ValueReads(value: Bytes)
    requires IsFieldValue(value)
    ensures Strip([' '] + value, Blank) == value
  {
    var tail := [' '] + value;
    assert tail[1..] == value;
    assert LStrip(tail, Blank) == LStrip(value, Blank);
    StripIdentity(value, Blank);
  }

  lemma FieldReads(f: Line)
    requires IsField(f)
    ensures ReadField(f.name + ": " + f.value) == Some(f)
    ensures '\r' !in f.name + ": " + f.value
  {
    hide At, Strip, IsToken;
    var line := f.name + ": " + f.value;
    TokenBytes(f.name);
    assert line == f.name + [':'] + ([' '] + f.value);
    FindChar(f.name, [' '] + f.value, ':');
    assert line[|f.name| + 1..] == [' '] + f.value;
    ValueReads(f.value);
    assert line[..|f.name|] == f.name;
    assert NoBreaks(line);
  }

  lemma {:induction false} FieldsRead(fields: seq<Line>, rest: Bytes)
    requires forall f :: f in fields ==> IsField(f)
    ensures ReadFields(RenderFields(fields) + CRLF + rest) == Some(Read(fields, rest))
    decreases |fields|
  {
    hide ReadField;
    if fields == [] {
      LineReads([], rest);
      assert RenderFields(fields) + CRLF + rest == [] + CRLF + rest;
    } else {
      var f, tail := fields[0], RenderFields(fields[1..]) + CRLF + rest;
      assert IsField(f);
      var line := f.name + ": " + f.value;
      assert RenderFields(fields) + CRLF + rest == line + CRLF + tail;
      FieldReads(f);
      LineReads(line, tail);
      FieldsRead(fields[1..], rest);
      assert [f] + fields[1..] == fields;
    }
  }

  lemma ThreeWords(a: Bytes, b: Bytes, c: Bytes)
    requires ' ' !in a && ' ' !in b
    ensures var line := a + [' '] + b + [' '] + c;
      && Find(line, [' ']) == |a| && line[..|a|] == a
      && Find(line[|a| + 1..], [' ']) == |b| && line[|a| + 1..][..|b|] == b && line[|a| + 1..][|b| + 1..] == c
  {
    var tail := b + [' '] + c;
    var line := a + [' '] + b + [' '] + c;
    assert line == a + [' '] + tail;
    FindChar(a, tail, ' ');
    FindChar(b, c, ' ');
    assert line[|a| + 1..] == tail;
  }

  lemma NotIn(a: Bytes, b: Bytes, c: Bytes, x: Byte)
    requires x !in a && x !in b && x !in c && x != ' '
    ensures x !in a + [' '] + b + [' '] + c
  {
  }

  lemma RequestLineReads(verb: Bytes, target: Bytes)
    requires IsToken(verb) && IsTarget(target)
    ensures ReadRequestLine(verb + [' '] + target + [' '] + VERSION) == Some((verb, target))
    ensures '\r' !in verb + [' '] + target + [' '] + VERSION
  {
    hide IsToken, IsTarget, At;
    assert '\r' !in VERSION;
    hide VERSION;
    TokenBytes(verb);
    TargetBytes(target);
    ThreeWords(verb, target, VERSION);
    NotIn(verb, target, VERSION, '\r');
  }

  lemma {:induction false} MatchingAppend(a: seq<Line>, b: seq<Line>, key: Bytes)
    ensures Matching(a + b, key) == Matching(a, key) + Matching(b, key)
    decreases |b|
  {
    if b == [] {
      assert a + b == a;
    } else {
      assert (a + b)[..|a + b| - 1] == a + b[..|b| - 1];
      MatchingAppend(a, b[..|b| - 1], key);
    }
  }

  lemma {:induction false} FieldsAppend(a: seq<Header>, b: seq<Header>)
    requires forall h :: h in a + b ==> IsHeader(h)
    ensures (forall h :: h in a ==> IsHeader(h)) && (forall h :: h in b ==> IsHeader(h))
    ensures Fields(a + b) == Fields(a) + Fields(b)
  {
    hide IsHeader;
    forall h | h in a || h in b ensures IsHeader(h) {
      assert h in a + b;
    }
    if a == [] {
      assert a + b == b;
    } else {
      assert (a + b)[1..] == a[1..] + b;
      FieldsAppend(a[1..], b);
    }
  }

  lemma {:induction false} NotMatching(headers: seq<Header>, key: Bytes)
    requires forall h :: h in headers ==> IsHeader(h)
    requires !Supplies(headers, key)
    ensures Matching(Fields(headers), key) == []
  {
    hide IsFieldValue;
    if headers == [] {
    } else {
      var f := Field(headers[0]);
      assert LowerStr(headers[0].name) != key;
      assert Lower(f.name) == LowerStr(headers[0].name);
      forall i | 0 <= i < |headers[1..]| ensures LowerStr(headers[1..][i].name) != key {
        assert headers[1..][i] == headers[i + 1];
      }
      NotMatching(headers[1..], key);
      MatchingAppend([f], Fields(headers[1..]), key);
      MatchingOne(f, key);
    }
  }

  lemma {:induction false} SomeMatching(headers: seq<Header>, key: Bytes)
    requires forall h :: h in headers ==> IsHeader(h)
    requires Supplies(headers, key)
    ensures Matching(Fields(headers), key) != []
  {
    hide IsHeader, LowerStr, Lower, Matching;
    var f, tail := Field(headers[0]), headers[1..];
    LowerName(headers[0]);
    MatchingAppend([f], Fields(tail), key);
    MatchingOne(f, key);
    assert forall i :: 0 <= i < |tail| ==> tail[i] == headers[i + 1];
    if LowerStr(headers[0].name) == key {
    } else {
      var i :| 0 <= i < |headers| && LowerStr(headers[i].name) == key;
      assert tail[i - 1] == headers[i];
      SomeMatching(tail, key);
    }
  }

  lemma SuppliesExactly(headers: seq<Header>, key: Bytes)
    requires forall h :: h in headers ==> IsHeader(h)
    ensures Supplies(headers, key) <==> Matching(Fields(headers), key) != []
  {
    hide IsHeader, Supplies, Matching, Fields;
    if Supplies(headers, key) {
      SomeMatching(headers, key);
    } else {
      NotMatching(headers, key);
    }
  }

  lemma LowerName(h: Header)
    requires IsHeader(h)
    ensures Field(h).name == h.name && Lower(Field(h).name) == LowerStr(h.name)
  {
    hide IsFieldValue, IsToken;
  }

  lemma MatchingOne(f: Line, key: Bytes)
    ensures Matching([f], key) == if Lower(f.name) == key then [f.value] else []
  {
    assert [f][..0] == [];
    assert Matching([], key) == [];
  }

  lemma DefaultNames()
    ensures Lower("Host") == "host" && Lower("Content-Length") == "content-length"
  {
  }

  lemma FieldsOne(h: Header)
    requires IsHeader(h)
    ensures Fields([h]) == [Line(h.name, h.value)]
  {
    hide IsHeader;
    assert [h][1..] == [];
    assert Fields([h][1..]) == [];
  }

  /** What the builder puts in the head is what the request means. */
  lemma FieldsAreMeant(r: Request)
    requires WellFormed(r)
    ensures forall h :: h in AllHeaders(r) ==> IsHeader(h)
    ensures Fields(AllHeaders(r)) == Meaning(r).fields
  {
    hide IsName, IsFieldValue, IsTarget, Supplies, LowerStr, OwnLengthRight, Decimal, Matching, IsHeader;
    DefaultsWellFormed(r);
    SuppliesExactly(r.headers, "host");
    SuppliesExactly(r.headers, "content-length");
    var host: seq<Header> := if Supplies(r.headers, "host") then [] else [Header("Host", r.host)];
    var length: seq<Header> :=
      if r.body.Some? && !Supplies(r.headers, "content-length")
      then [Header("Content-Length", Decimal(|r.body.value|))] else [];
    assert AllHeaders(r) == host + length + r.headers;
    FieldsAppend(host + length, r.headers);
    FieldsAppend(host, length);
    if host != [] {
      FieldsOne(host[0]);
    }
    if length != [] {
      FieldsOne(length[0]);
    }
  }

  lemma LengthDigits(n: nat)
    ensures AllDigits(Decimal(n), 10) && Value(Decimal(n), 10) == n
  {
    DecimalRoundTrip(n);
  }

  lemma MatchingNone(key: Bytes)
    ensures Matching([], key) == []
  {
  }

  /** The message has one Host field, no transfer coding, and one Content-Length if it has a body: that of the body. */
  lemma FramingFields(r: Request)
    requires WellFormed(r)
    ensures var fields := Meaning(r).fields; var lengths := Matching(fields, "content-length");
      && |Matching(fields, "host")| == 1 && Matching(fields, "transfer-encoding") == []
      && (r.body.None? ==> lengths == [])
      && (r.body.Some? ==> |lengths| == 1 && AllDigits(lengths[0], 10) && Value(lengths[0], 10) == |r.body.value|)
  {
    hide IsName, IsTarget, IsHeader, Lower, Matching, Fields, Decimal, AllDigits, Value;
    DefaultNames();
    var own := Fields(r.headers);
    var host: seq<Line> := if Own(r, "host") == [] then [Line("Host", r.host)] else [];
    var length: seq<Line> :=
      if r.body.Some? && Own(r, "content-length") == [] then [Line("Content-Length", Decimal(|r.body.value|))] else [];
    if r.body.Some? {
      LengthDigits(|r.body.value|);
    }
    forall key: Bytes ensures Matching(host + length + own, key)
      == (if host != [] && key == "host" then [r.host] else [])
         + (if length != [] && key == "content-length" then [length[0].value] else []) + Matching(own, key)
    {
      MatchingAppend(host + length, own, key);
      MatchingAppend(host, length, key);
      MatchingNone(key);
      if host != [] {
        MatchingOne(host[0], key);
      }
      if length != [] {
        MatchingOne(length[0], key);
      }
    }
  }

  lemma {:induction false} JoinedFields(first: string, headers: seq<Header>)
    requires forall h :: h in headers ==> IsHeader(h)
    ensures JoinStr([first] + Lines(headers)) + "\r\n" == first + "\r\n" + RenderFields(Fields(headers))
    decreases |headers|
  {
    hide IsHeader;
    var lines := [first] + Lines(headers);
    if headers == [] {
      assert lines == [first];
    } else {
      assert lines[1..] == [HeaderLine(headers[0])] + Lines(headers[1..]);
      JoinedFields(HeaderLine(headers[0]), headers[1..]);
      var f := Field(headers[0]);
      assert HeaderLine(headers[0]) == f.name + ": " + f.value;
      assert RenderFields(Fields(headers)) == HeaderLine(headers[0]) + "\r\n" + RenderFields(Fields(headers[1..]));
    }
  }

  /** A well-formed request is rendered, and the reader recovers exactly what it means and what follows it. */
  lemma RequestReadsBack(r: Request, rest: Bytes)
    requires WellFormed(r)
    ensures Render(r).Some? && ReadMessage(Render(r).value + rest) == Some(Read(Meaning(r), rest))
  {
    hide IsHeader, IsFieldValue, RenderFields, ReadFields, ReadRequestLine, AllHeaders, Supplies, Fields, Matching,
         Value, AllDigits, JoinStr, ReadLine, Own, OwnLengthRight;
    RequestLineReads(r.verb, r.path);
    FramingFields(r);
    FieldsAreMeant(r);
    var fields := Meaning(r).fields;
    var line: Bytes := r.verb + [' '] + r.path + [' '] + VERSION;
    assert line == RequestLine(r);
    JoinedFields(line, AllHeaders(r));
    var head: Bytes := line + CRLF + RenderFields(fields) + CRLF;
    assert HeadText(r) == head;
    BytesAreLatin1(head);
    var body: Bytes := if r.body.Some? then r.body.value else [];
    assert Render(r) == Some(head + body);
    var after := RenderFields(fields) + CRLF + (body + rest);
    assert head + body + rest == line + CRLF + after;
    LineReads(line, after);
    FieldsRead(fields, body + rest);
    if r.body.Some? {
      assert (body + rest)[..|body|] == body && (body + rest)[|body|..] == rest;
    } else {
      assert body + rest == rest;
    }
  }

  function RenderAll(rs: seq<Request>): Option<Bytes> {
    if rs == [] then Some([])
    else
      match (Render(rs[0]), RenderAll(rs[1..]))
      case (Some(a), Some(b)) => Some(a + b)
      case _ => None
  }

  function Meanings(rs: seq<Request>): seq<Message>
    requires forall r :: r in rs ==> WellFormed(r)
  {
    if rs == [] then [] else [Meaning(rs[0])] + Meanings(rs[1..])
  }

  /** So does a whole connection's worth of requests, in order: the framing never bleeds from one into the next. */
  lemma {:induction false} RequestsReadBack(rs: seq<Request>, rest: Bytes)
    requires forall r :: r in rs ==> WellFormed(r)
    ensures RenderAll(rs).Some?
    ensures ReadAll(RenderAll(rs).value + rest, |rs|) == Some(Read(Meanings(rs), rest))
    decreases |rs|
  {
    hide WellFormed, ReadMessage, Render, Meaning;
    if rs == [] {
      assert [] + rest == rest;
    } else {
      RequestsReadBack(rs[1..], rest);
      var tail := RenderAll(rs[1..]).value + rest;
      RequestReadsBack(rs[0], tail);
      assert RenderAll(rs).value + rest == Render(rs[0]).value + tail;
    }
  }
}
