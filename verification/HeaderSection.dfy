/** Header sections written out from their fields and continuations, and what the parser reads from them. */
module HeaderSection {
  import opened ByteStrings
  import opened PyInt
  import opened HeaderMap
  import opened ParserSpec
  import opened Grammar

  /** A field line, or an obsolete line folding (section 5.2 of RFC 9112), with its optional white space. */
  datatype Raw =
    | Field(name: Bytes, before: Bytes, value: Bytes, after: Bytes)
    | Continuation(before: Bytes, text: Bytes, after: Bytes)

  predicate Blanks(s: Bytes) {
    forall i :: 0 <= i < |s| ==> Blank(s[i])
  }

  /** A byte of a field value, section 5.5 of RFC 9110: visible, obs-text, space or tab. */
  predicate FieldByte(c: Byte) {
    c == '\t' || (c as int >= 32 && c as int != 127)
  }

  predicate Content(s: Bytes) {
    && (forall i :: 0 <= i < |s| ==> FieldByte(s[i]))
    && (s != [] ==> !Blank(s[0]) && !Blank(s[|s| - 1]))
  }

  predicate IsRaw(r: Raw) {
    match r
    case Field(name, before, value, after) => IsToken(name) && Content(value) && Blanks(before) && Blanks(after)
    case Continuation(before, text, after) => before != [] && Blanks(before) && Content(text) && Blanks(after)
  }

  /** All that the parser itself needs to take a line for a field or a continuation, whatever bytes it has. */
  predicate Shaped(r: Raw) {
    match r
    case Field(name, before, value, after) =>
      name != [] && !Blank(name[0]) && ':' !in name && Blanks(before) && Blanks(after)
    case Continuation(before, text, after) => before != [] && Blanks(before) && Blanks(after)
  }

  function Render(r: Raw): Bytes {
    match r
    case Field(name, before, value, after) => name + [':'] + (before + value + after)
    case Continuation(before, text, after) => before + text + after
  }

  function RenderAll(raws: seq<Raw>): seq<Bytes> {
    if raws == [] then [] else [Render(raws[0])] + RenderAll(raws[1..])
  }

  // What a section means: section 5.2 of RFC 9112 reads each fold, with the white space around it, as a space, and
  // section 5.1 leaves the white space at the two ends of the result out of the value.

  /** A field with the texts of the continuations that follow it. */
  datatype Folded = Folded(name: Bytes, value: Bytes, texts: seq<Bytes>)

  function AddText(f: Folded, text: Bytes): Folded {
    f.(texts := f.texts + [text])
  }

  /** Each continuation belongs to the field before it; None if there is none before it. */
  function Gather(fields: seq<Folded>, raws: seq<Raw>): Option<seq<Folded>>
    decreases |raws|
  {
    if raws == [] then Some(fields)
    else
      match raws[0]
      case Field(name, _, value, _) => Gather(fields + [Folded(name, value, [])], raws[1..])
      case Continuation(_, text, _) =>
        if fields == [] then None
        else Gather(fields[|fields| - 1 := AddText(fields[|fields| - 1], text)], raws[1..])
  }

  function Unfolded(f: Folded): Bytes {
    Join([f.value] + f.texts, " ")
  }

  function Meant(f: Folded): Line {
    Line(f.name, Strip(Unfolded(f), Blank))
  }

  function Meaning(fields: seq<Folded>): (r: seq<Line>)
    ensures |r| == |fields| && forall i :: 0 <= i < |fields| ==> r[i] == Meant(fields[i])
  {
    seq(|fields|, i requires 0 <= i < |fields| => Meant(fields[i]))
  }

  /** The parser reads the section, and as it is meant. */
  ghost predicate ReadAsMeant(raws: seq<Raw>) {
    && Gather([], raws).Some?
    && HeaderLines([], RenderAll(raws)) == Parsed(FromLines(Meaning(Gather([], raws).value)))
  }

  // What the parser would hold if each continuation went to the line before it.

  function Stored(name: Bytes, value: Bytes): Line {
    Line(Strip(name, StrSpace), Strip(value, StrSpace))
  }

  function Bare(text: Bytes): Bytes {
    Strip(text, AsciiSpace)
  }

  function FoldLine(lines: seq<Line>, text: Bytes): seq<Line>
    requires lines != []
  {
    var last := lines[|lines| - 1];
    lines[|lines| - 1 := last.(value := Fold(last.value, text))]
  }

  function Unfold(lines: seq<Line>, raws: seq<Raw>): Option<seq<Line>>
    decreases |raws|
  {
    if raws == [] then Some(lines)
    else
      match raws[0]
      case Field(name, _, value, _) => Unfold(lines + [Stored(name, value)], raws[1..])
      case Continuation(_, text, _) =>
        if lines == [] then None else Unfold(FoldLine(lines, Bare(text)), raws[1..])
  }

  // Single lines.

  lemma {:induction false} LStripBlanks(blanks: Bytes, s: Bytes, space: Byte -> bool)
    requires Blanks(blanks) && forall c :: Blank(c) ==> space(c)
    ensures LStrip(blanks + s, space) == LStrip(s, space)
  {
    if blanks == [] {
      assert blanks + s == s;
    } else {
      assert (blanks + s)[1..] == blanks[1..] + s;
      LStripBlanks(blanks[1..], s, space);
    }
  }

  lemma {:induction false} RStripBlanksAny(s: Bytes, blanks: Bytes, space: Byte -> bool)
    requires Blanks(blanks) && forall c :: Blank(c) ==> space(c)
    ensures RStrip(s + blanks, space) == RStrip(s, space)
  {
    if blanks == [] {
      assert s + blanks == s;
    } else {
      assert (s + blanks)[..|s + blanks| - 1] == s + blanks[..|blanks| - 1];
      RStripBlanksAny(s, blanks[..|blanks| - 1], space);
    }
  }

  lemma {:induction false} LStripConcat(s: Bytes, t: Bytes, space: Byte -> bool)
    ensures LStrip(s + t, space) == if LStrip(s, space) == [] then LStrip(t, space) else LStrip(s, space) + t
  {
    if s == [] {
      assert s + t == t;
    } else if space(s[0]) {
      assert (s + t)[1..] == s[1..] + t;
      LStripConcat(s[1..], t, space);
    } else {
      assert (s + t)[0] == s[0];
    }
  }

  lemma StripPadded(before: Bytes, s: Bytes, after: Bytes, space: Byte -> bool)
    requires Blanks(before) && Blanks(after) && forall c :: Blank(c) ==> space(c)
    ensures Strip(before + s + after, space) == Strip(s, space)
  {
    assert before + s + after == before + (s + after);
    LStripBlanks(before, s + after, space);
    LStripConcat(s, after, space);
    if LStrip(s, space) == [] {
      assert after + [] == after;
      LStripBlanks(after, [], space);
    } else {
      RStripBlanksAny(LStrip(s, space), after, space);
    }
  }

  lemma FieldReads(store: Store, r: Raw)
    requires Shaped(r) && r.Field?
    ensures HeaderLine(store, Render(r)) == Parsed(AddLine(store, Stored(r.name, r.value)))
  {
    hide At, Strip;
    var tail := r.before + r.value + r.after;
    var raw := r.name + [':'] + tail;
    FindChar(r.name, tail, ':');
    assert raw[0] == r.name[0];
    assert raw[..|r.name|] == r.name && raw[|r.name| + 1..] == tail;
    StripPadded(r.before, r.value, r.after, StrSpace);
  }

  lemma ContinuationReads(store: Store, r: Raw)
    requires Shaped(r) && r.Continuation?
    ensures HeaderLine(store, Render(r)) ==
      if Items(store) == [] then Rejected(ContinuationWithoutHeader)
      else Parsed(AppendToLast(store, Bare(r.text)).value)
  {
    hide Strip;
    var raw := r.before + r.text + r.after;
    assert raw[0] == r.before[0];
    StripPadded(r.before, r.text, r.after, AsciiSpace);
  }

  lemma NoItems(lines: seq<Line>)
    ensures Items(FromLines(lines)) == [] <==> lines == []
  {
    ItemsAreGrouped(lines);
    GroupedCount(lines);
  }

  // Whole sections.

  /** Every continuation in the section follows a line whose name is the newest distinct name so far. */
  predicate FoldsOnNewest(lines: seq<Line>, raws: seq<Raw>)
    decreases |raws|
  {
    raws == [] ||
    match raws[0]
    case Field(name, _, value, _) => FoldsOnNewest(lines + [Stored(name, value)], raws[1..])
    case Continuation(_, raw, _) =>
      var text := Bare(raw);
      && lines != [] && Lower(lines[|lines| - 1].name) == NewestName(lines)
      && FoldsOnNewest(FoldLine(lines, text), raws[1..])
  }

  lemma FromLinesSnoc(lines: seq<Line>, l: Line)
    ensures FromLines(lines + [l]) == AddLine(FromLines(lines), l)
  {
    assert (lines + [l])[..|lines|] == lines;
  }

  lemma ReadFirst(store: Store, raws: seq<Raw>)
    requires raws != []
    ensures HeaderLines(store, RenderAll(raws)) ==
      match HeaderLine(store, Render(raws[0]))
      case Rejected(e) => Rejected(e)
      case Parsed(store') => HeaderLines(store', RenderAll(raws[1..]))
  {
    hide HeaderLine, Render;
    assert RenderAll(raws)[1..] == RenderAll(raws[1..]);
  }

  /** If every continuation falls on the newest name, each one goes to the line before it. */
  lemma {:induction false} Unfolds(lines: seq<Line>, raws: seq<Raw>)
    requires forall r :: r in raws ==> Shaped(r)
    requires FoldsOnNewest(lines, raws)
    ensures Unfold(lines, raws).Some?
    ensures HeaderLines(FromLines(lines), RenderAll(raws)) == Parsed(FromLines(Unfold(lines, raws).value))
    decreases |raws|
  {
    hide HeaderLine, HeaderLines, FromLines, NewestName, AppendToLast, Render, Shaped, Items;
    if raws == [] {
      NothingToRead(FromLines(lines));
    } else {
      ReadFirst(FromLines(lines), raws);
      match raws[0]
      case Field(name, _, value, _) =>
        FieldReads(FromLines(lines), raws[0]);
        FromLinesSnoc(lines, Stored(name, value));
        Unfolds(lines + [Stored(name, value)], raws[1..]);
      case Continuation(_, raw, _) =>
        var text := Bare(raw);
        ContinuationReads(FromLines(lines), raws[0]);
        NoItems(lines);
        AppendToLastExactly(lines, text);
        Unfolds(FoldLine(lines, text), raws[1..]);
    }
  }

  lemma NothingToRead(store: Store)
    ensures HeaderLines(store, RenderAll([])) == Parsed(store)
  {
  }

  // Otherwise the reading is wrong, and stays wrong.

  function Size(values: seq<Bytes>): nat {
    if values == [] then 0 else Size(values[..|values| - 1]) + |values[|values| - 1]|
  }

  lemma SizeSnoc(values: seq<Bytes>, v: Bytes)
    ensures Size(values + [v]) == Size(values) + |v|
  {
    assert (values + [v])[..|values|] == values;
  }

  lemma MatchingSnoc(lines: seq<Line>, l: Line, key: Bytes)
    ensures Matching(lines + [l], key) == Matching(lines, key) + (if Lower(l.name) == key then [l.value] else [])
  {
    assert (lines + [l])[..|lines|] == lines;
  }

  lemma FoldSize(lines: seq<Line>, text: Bytes, key: Bytes)
    requires lines != []
    ensures Size(Matching(FoldLine(lines, text), key)) ==
      Size(Matching(lines, key)) + (if Lower(lines[|lines| - 1].name) == key then 1 + |text| else 0)
  {
    var prefix, last := lines[..|lines| - 1], lines[|lines| - 1];
    var folded := last.(value := Fold(last.value, text));
    assert lines == prefix + [last] && FoldLine(lines, text) == prefix + [folded];
    MatchingSnoc(prefix, last, key);
    MatchingSnoc(prefix, folded, key);
    if Lower(last.name) == key {
      SizeSnoc(Matching(prefix, key), last.value);
      SizeSnoc(Matching(prefix, key), folded.value);
    } else {
      assert Matching(prefix, key) + [] == Matching(prefix, key);
    }
  }

  /** `key` is in the mapping, is not its last key, and holds less than the lines say it should. */
  ghost predicate Short(store: Store, lines: seq<Line>, key: Bytes) {
    && store != [] && lines != [] && Distinct(Keys(store))
    && key in Keys(store) && Keys(store)[|store| - 1] != key
    && Size(Lookup(store, key)) < Size(Matching(lines, key))
  }

  lemma ShortAfterField(store: Store, lines: seq<Line>, key: Bytes, l: Line)
    requires Short(store, lines, key)
    ensures Short(AddLine(store, l), lines + [l], key)
  {
    hide Put, Lookup, Matching, Size, Lower;
    var put := Lower(l.name);
    PutLookup(store, put, l, key);
    PutKeys(store, put, l);
    MatchingSnoc(lines, l, key);
    if put == key {
      KnownAt(store, put, l);
      SizeSnoc(Lookup(store, key), l.value);
      SizeSnoc(Matching(lines, key), l.value);
    } else {
      assert Lookup(store, key) + [] == Lookup(store, key) && Matching(lines, key) + [] == Matching(lines, key);
      if put in Keys(store) {
        KnownAt(store, put, l);
      } else {
        PutNew(store, put, l);
      }
    }
  }

  lemma AppendKeys(store: Store, text: Bytes)
    requires store != []
    ensures Keys(AppendToLast(store, text).value) == Keys(store)
  {
  }

  lemma ShortAfterFold(store: Store, lines: seq<Line>, key: Bytes, text: Bytes)
    requires Short(store, lines, key)
    ensures Short(AppendToLast(store, text).value, FoldLine(lines, text), key)
  {
    AppendKeys(store, text);
    LookupLastChanged(store, FoldLast(store[|store| - 1], text), key);
    FoldSize(lines, text, key);
  }

  lemma {:induction false} ShortStays(store: Store, lines: seq<Line>, raws: seq<Raw>, key: Bytes)
    requires forall r :: r in raws ==> Shaped(r)
    requires Short(store, lines, key)
    ensures Unfold(lines, raws).Some?
    ensures HeaderLines(store, RenderAll(raws)) != Parsed(FromLines(Unfold(lines, raws).value))
    decreases |raws|
  {
    hide HeaderLine, HeaderLines, AppendToLast, Render, Shaped, AddLine, Items, FromLines, Matching, Keys, Lookup,
         Short;
    if raws == [] {
      NothingToRead(store);
      ShortDiffers(store, lines, key);
    } else {
      ReadFirst(store, raws);
      match raws[0]
      case Field(name, _, value, _) =>
        FieldReads(store, raws[0]);
        ShortAfterField(store, lines, key, Stored(name, value));
        ShortStays(AddLine(store, Stored(name, value)), lines + [Stored(name, value)], raws[1..], key);
      case Continuation(_, raw, _) =>
        var text := Bare(raw);
        ContinuationReads(store, raws[0]);
        ShortHasItems(store, lines, key, text);
        ShortAfterFold(store, lines, key, text);
        ShortStays(AppendToLast(store, text).value, FoldLine(lines, text), raws[1..], key);
    }
  }

  lemma ShortDiffers(store: Store, lines: seq<Line>, key: Bytes)
    requires Short(store, lines, key)
    ensures store != FromLines(lines)
  {
    LookupIsMatching(lines, key);
  }

  lemma ShortHasItems(store: Store, lines: seq<Line>, key: Bytes, text: Bytes)
    requires Short(store, lines, key)
    ensures lines != [] && Items(store) != [] && AppendToLast(store, text).Some?
  {
    NamedValuesCount(store[0].name, store[0].values);
  }

  /**
   * Exactly when each continuation goes to the line before it: every one must follow a line whose name is the
   * newest distinct name so far. After A, B, A it does not, and no later line repairs that.
   */
  lemma {:induction false} UnfoldsExactly(lines: seq<Line>, raws: seq<Raw>)
    requires forall r :: r in raws ==> Shaped(r)
    ensures (Unfold(lines, raws).Some?
             && HeaderLines(FromLines(lines), RenderAll(raws)) == Parsed(FromLines(Unfold(lines, raws).value)))
       <==> FoldsOnNewest(lines, raws)
    decreases |raws|
  {
    hide HeaderLine, HeaderLines, FromLines, NewestName, AppendToLast, Render, Shaped, Items, Short;
    if FoldsOnNewest(lines, raws) {
      Unfolds(lines, raws);
    } else {
      ReadFirst(FromLines(lines), raws);
      match raws[0]
      case Field(name, _, value, _) =>
        FieldReads(FromLines(lines), raws[0]);
        FromLinesSnoc(lines, Stored(name, value));
        UnfoldsExactly(lines + [Stored(name, value)], raws[1..]);
      case Continuation(_, raw, _) =>
        var text := Bare(raw);
        if lines != [] {
          ContinuationReads(FromLines(lines), raws[0]);
          NoItems(lines);
          if Lower(lines[|lines| - 1].name) == NewestName(lines) {
            AppendToLastExactly(lines, text);
            UnfoldsExactly(FoldLine(lines, text), raws[1..]);
          } else {
            Misfold(lines, text);
            ShortStays(AppendToLast(FromLines(lines), text).value, FoldLine(lines, text), raws[1..],
                       Lower(lines[|lines| - 1].name));
          }
        }
    }
  }

  lemma {:induction false} PresentKey(store: Store, key: Bytes)
    ensures Lookup(store, key) != [] ==> key in Keys(store)
  {
    if store == [] || store[0].key == key {
    } else {
      PresentKey(store[1..], key);
    }
  }

  lemma {:induction false} Misfold(lines: seq<Line>, text: Bytes)
    requires lines != [] && Lower(lines[|lines| - 1].name) != NewestName(lines)
    ensures AppendToLast(FromLines(lines), text).Some?
    ensures Short(AppendToLast(FromLines(lines), text).value, FoldLine(lines, text), Lower(lines[|lines| - 1].name))
  {
    var store, key := FromLines(lines), Lower(lines[|lines| - 1].name);
    FromLinesKeys(lines);
    AppendKeys(store, text);
    LookupIsMatching(lines, key);
    assert Matching(lines, key) != [];
    PresentKey(store, key);
    LookupLastChanged(store, FoldLast(store[|store| - 1], text), key);
    FoldSize(lines, text, key);
  }

  // Which values the parser holds as they are meant.

  /** What the parser holds for a field whose continuations have all reached it. */
  function Held(f: Folded): Line {
    Line(f.name, Join([Strip(f.value, StrSpace)] + f.texts, " "))
  }

  function HeldAll(fields: seq<Folded>): (r: seq<Line>)
    ensures |r| == |fields| && forall i :: 0 <= i < |fields| ==> r[i] == Held(fields[i])
  {
    seq(|fields|, i requires 0 <= i < |fields| => Held(fields[i]))
  }

  /**
   * The field's own value neither begins nor ends with the bytes 0x85 and 0xA0, which `str.strip` takes for white
   * space; and if the field is folded, neither that value nor its last continuation is empty.
   */
  predicate Plain(f: Folded) {
    && (f.value != [] ==> !StrSpace(f.value[0]) && !StrSpace(f.value[|f.value| - 1]))
    && (f.texts != [] ==> f.value != [] && f.texts[|f.texts| - 1] != [])
  }

  predicate IsFolded(f: Folded) {
    Content(f.value) && forall i :: 0 <= i < |f.texts| ==> Content(f.texts[i])
  }

  lemma {:induction false} JoinSnoc(parts: seq<Bytes>, text: Bytes, sep: Bytes)
    requires parts != []
    ensures Join(parts + [text], sep) == Join(parts, sep) + sep + text
  {
    if |parts| == 1 {
      assert (parts + [text])[1..] == [text];
    } else {
      assert (parts + [text])[1..] == parts[1..] + [text];
      JoinSnoc(parts[1..], text, sep);
    }
  }

  lemma HeldText(f: Folded, text: Bytes)
    ensures Held(AddText(f, text)) == Line(f.name, Fold(Held(f).value, text))
  {
    var parts := [Strip(f.value, StrSpace)] + f.texts;
    assert [Strip(f.value, StrSpace)] + (f.texts + [text]) == parts + [text];
    JoinSnoc(parts, text, " ");
  }

  lemma TokenStays(name: Bytes)
    requires IsToken(name)
    ensures name != [] && Strip(name, StrSpace) == name && ':' !in name && !Blank(name[0])
  {
    assert TChar(name[0]) && TChar(name[|name| - 1]);
    StripIdentity(name, StrSpace);
    forall i | 0 <= i < |name| ensures name[i] != ':' {
      assert TChar(name[i]);
    }
  }

  lemma RawsShaped(raws: seq<Raw>)
    requires forall r :: r in raws ==> IsRaw(r)
    ensures forall r :: r in raws ==> Shaped(r)
  {
    hide IsToken, Content;
    forall r | r in raws ensures Shaped(r) {
      if r.Field? {
        TokenStays(r.name);
      }
    }
  }

  lemma BareContent(text: Bytes)
    requires Content(text)
    ensures Bare(text) == text
  {
    StripIdentity(text, AsciiSpace);
  }

  lemma HeldField(fields: seq<Folded>, name: Bytes, value: Bytes)
    requires Strip(name, StrSpace) == name
    ensures HeldAll(fields + [Folded(name, value, [])]) == HeldAll(fields) + [Stored(name, value)]
  {
    hide Strip;
    assert [Strip(value, StrSpace)] + [] == [Strip(value, StrSpace)];
  }

  lemma HeldFold(fields: seq<Folded>, text: Bytes)
    requires fields != []
    ensures HeldAll(fields[|fields| - 1 := AddText(fields[|fields| - 1], text)]) == FoldLine(HeldAll(fields), text)
  {
    hide Held, AddText, Fold;
    HeldText(fields[|fields| - 1], text);
    HeldNames(fields[|fields| - 1]);
  }

  lemma HeldNames(f: Folded)
    ensures Held(f).name == f.name
  {
  }

  lemma {:induction false} GatherUnfolds(fields: seq<Folded>, raws: seq<Raw>)
    requires forall r :: r in raws ==> IsRaw(r)
    ensures Gather(fields, raws).Some? <==> Unfold(HeldAll(fields), raws).Some?
    ensures Gather(fields, raws).Some? ==> Unfold(HeldAll(fields), raws) == Some(HeldAll(Gather(fields, raws).value))
    decreases |raws|
  {
    hide HeldAll, Stored, FoldLine, AddText, IsToken, Content, Bare, Strip;
    if raws == [] {
    } else {
      assert IsRaw(raws[0]);
      match raws[0]
      case Field(name, _, value, _) =>
        TokenStays(name);
        HeldField(fields, name, value);
        GatherUnfolds(fields + [Folded(name, value, [])], raws[1..]);
      case Continuation(_, text, _) =>
        SameCount(fields);
        BareContent(text);
        if fields != [] {
          HeldFold(fields, text);
          GatherUnfolds(fields[|fields| - 1 := AddText(fields[|fields| - 1], text)], raws[1..]);
        }
    }
  }

  lemma SameCount(fields: seq<Folded>)
    ensures HeldAll(fields) == [] <==> fields == []
  {
  }

  lemma {:induction false} GatheredContent(fields: seq<Folded>, raws: seq<Raw>)
    requires (forall f :: f in fields ==> IsFolded(f)) && (forall r :: r in raws ==> IsRaw(r))
    ensures Gather(fields, raws).Some? ==> forall f :: f in Gather(fields, raws).value ==> IsFolded(f)
    decreases |raws|
  {
    hide Content, IsToken, Blanks;
    if raws == [] {
    } else {
      assert IsRaw(raws[0]);
      match raws[0]
      case Field(name, _, value, _) => GatheredContent(fields + [Folded(name, value, [])], raws[1..]);
      case Continuation(_, text, _) =>
        if fields != [] {
          var f := AddText(fields[|fields| - 1], text);
          assert IsFolded(fields[|fields| - 1]) && IsFolded(f);
          GatheredContent(fields[|fields| - 1 := f], raws[1..]);
        }
    }
  }

  lemma {:induction false} JoinEnds(parts: seq<Bytes>)
    requires parts != [] && parts[0] != [] && parts[|parts| - 1] != []
    ensures var s, last := Join(parts, " "), parts[|parts| - 1];
      s != [] && s[0] == parts[0][0] && s[|s| - 1] == last[|last| - 1]
  {
    if |parts| > 1 {
      var init := parts[..|parts| - 1];
      assert parts == init + [parts[|parts| - 1]];
      JoinSnoc(init, parts[|parts| - 1], " ");
      JoinStarts(parts);
    }
  }

  lemma JoinStarts(parts: seq<Bytes>)
    requires parts != [] && parts[0] != []
    ensures Join(parts, " ") != [] && Join(parts, " ")[0] == parts[0][0]
  {
  }

  /** A plain field is held as it is meant. */
  lemma PlainHeld(f: Folded)
    requires IsFolded(f) && Plain(f)
    ensures Held(f) == Meant(f)
  {
    hide Join, Strip;
    StripIdentity(f.value, StrSpace);
    var parts := [f.value] + f.texts;
    if f.texts == [] {
      assert parts == [f.value];
      JoinOne(f.value);
      StripIdentity(f.value, Blank);
    } else {
      assert Content(f.texts[|f.texts| - 1]);
      assert parts[|parts| - 1] == f.texts[|f.texts| - 1];
      JoinEnds(parts);
      StripIdentity(Join(parts, " "), Blank);
    }
  }

  lemma JoinOne(s: Bytes)
    ensures Join([s], " ") == s
  {
  }

  // Otherwise something is missing or left over: bytes of a kind, counted over the whole mapping.

  function Count(s: Bytes, kind: Byte -> bool): nat {
    if s == [] then 0 else (if kind(s[0]) then 1 else 0) + Count(s[1..], kind)
  }

  lemma {:induction false} CountConcat(a: Bytes, b: Bytes, kind: Byte -> bool)
    ensures Count(a + b, kind) == Count(a, kind) + Count(b, kind)
  {
    if a == [] {
      assert a + b == b;
    } else {
      assert (a + b)[1..] == a[1..] + b;
      CountConcat(a[1..], b, kind);
    }
  }

  function CountValues(values: seq<Bytes>, kind: Byte -> bool): nat {
    if values == [] then 0 else CountValues(values[..|values| - 1], kind) + Count(values[|values| - 1], kind)
  }

  function CountStore(store: Store, kind: Byte -> bool): nat {
    if store == [] then 0 else CountValues(store[0].values, kind) + CountStore(store[1..], kind)
  }

  function CountLines(lines: seq<Line>, kind: Byte -> bool): nat {
    if lines == [] then 0 else CountLines(lines[..|lines| - 1], kind) + Count(lines[|lines| - 1].value, kind)
  }

  lemma CountLinesSnoc(lines: seq<Line>, l: Line, kind: Byte -> bool)
    ensures CountLines(lines + [l], kind) == CountLines(lines, kind) + Count(l.value, kind)
  {
    assert (lines + [l])[..|lines|] == lines;
  }

  lemma CountFold(value: Bytes, text: Bytes, kind: Byte -> bool)
    ensures Count(Fold(value, text), kind) == Count(value, kind) + Count([' '] + text, kind)
  {
    assert Fold(value, text) == value + ([' '] + text);
    CountConcat(value, [' '] + text, kind);
  }

  lemma CountFoldLine(lines: seq<Line>, text: Bytes, kind: Byte -> bool)
    requires lines != []
    ensures CountLines(FoldLine(lines, text), kind) == CountLines(lines, kind) + Count([' '] + text, kind)
  {
    hide Count, Fold;
    var last := lines[|lines| - 1];
    assert FoldLine(lines, text)[..|lines| - 1] == lines[..|lines| - 1];
    CountFold(last.value, text, kind);
  }

  lemma CountExtend(e: Entry, value: Bytes, kind: Byte -> bool)
    ensures CountValues(Extend(e, value).values, kind) == CountValues(e.values, kind) + Count(value, kind)
  {
    assert (e.values + [value])[..|e.values|] == e.values;
  }

  lemma {:induction false} CountPut(store: Store, key: Bytes, line: Line, kind: Byte -> bool)
    ensures CountStore(Put(store, key, line), kind) == CountStore(store, kind) + Count(line.value, kind)
  {
    hide Count;
    if store == [] {
      assert [line.value][..0] == [];
      assert CountValues([line.value], kind) == CountValues([], kind) + Count(line.value, kind);
      assert Put(store, key, line)[1..] == [];
    } else if store[0].key == key {
      CountExtend(store[0], line.value, kind);
      assert Put(store, key, line)[1..] == store[1..];
    } else {
      CountPut(store[1..], key, line, kind);
      assert Put(store, key, line)[1..] == Put(store[1..], key, line);
    }
  }

  lemma CountFoldLast(e: Entry, text: Bytes, kind: Byte -> bool)
    ensures CountValues(FoldLast(e, text).values, kind) == CountValues(e.values, kind) + Count([' '] + text, kind)
  {
    hide Count, Fold;
    var n := |e.values| - 1;
    assert FoldLast(e, text).values[..n] == e.values[..n];
    CountFold(e.values[n], text, kind);
  }

  lemma {:induction false} CountAppend(store: Store, text: Bytes, kind: Byte -> bool)
    requires store != []
    ensures AppendToLast(store, text).Some?
    ensures CountStore(AppendToLast(store, text).value, kind) == CountStore(store, kind) + Count([' '] + text, kind)
  {
    hide Count, FoldLast;
    var store' := AppendToLast(store, text).value;
    if |store| == 1 {
      CountFoldLast(store[0], text, kind);
      assert store'[1..] == store[1..] == [];
    } else {
      CountAppend(store[1..], text, kind);
      assert store'[1..] == AppendToLast(store[1..], text).value;
    }
  }

  lemma {:induction false} CountFromLines(lines: seq<Line>, kind: Byte -> bool)
    ensures CountStore(FromLines(lines), kind) == CountLines(lines, kind)
  {
    if lines == [] {
    } else {
      var prefix, last := lines[..|lines| - 1], lines[|lines| - 1];
      CountFromLines(prefix, kind);
      CountPut(FromLines(prefix), Lower(last.name), last, kind);
    }
  }

  /** Wherever continuations go, the mapping holds as many bytes of each kind as if each went to the line before it. */
  lemma {:induction false} CountKept(store: Store, lines: seq<Line>, raws: seq<Raw>, kind: Byte -> bool)
    requires forall r :: r in raws ==> Shaped(r)
    requires CountStore(store, kind) == CountLines(lines, kind)
    requires Unfold(lines, raws).Some? && HeaderLines(store, RenderAll(raws)).Parsed?
    ensures CountStore(HeaderLines(store, RenderAll(raws)).store, kind) == CountLines(Unfold(lines, raws).value, kind)
    decreases |raws|
  {
    hide HeaderLine, HeaderLines, AppendToLast, Render, Shaped, Put, Items, Count, CountStore, CountLines, Stored,
         FoldLine;
    if raws == [] {
      NothingToRead(store);
    } else {
      ReadFirst(store, raws);
      match raws[0]
      case Field(name, _, value, _) =>
        var l := Stored(name, value);
        FieldReads(store, raws[0]);
        CountPut(store, Lower(l.name), l, kind);
        CountLinesSnoc(lines, l, kind);
        CountKept(AddLine(store, l), lines + [l], raws[1..], kind);
      case Continuation(_, raw, _) =>
        var text := Bare(raw);
        ContinuationReads(store, raws[0]);
        ItemsOfNothing();
        CountAppend(store, text, kind);
        CountFoldLine(lines, text, kind);
        CountKept(AppendToLast(store, text).value, FoldLine(lines, text), raws[1..], kind);
    }
  }

  lemma ItemsOfNothing()
    ensures Items([]) == []
  {
  }

  lemma {:induction false} EqualSums(xs: seq<Line>, ys: seq<Line>, kind: Byte -> bool)
    requires |xs| == |ys| && forall k :: 0 <= k < |xs| ==> Count(xs[k].value, kind) <= Count(ys[k].value, kind)
    ensures CountLines(xs, kind) <= CountLines(ys, kind)
    ensures CountLines(xs, kind) == CountLines(ys, kind) ==>
      forall k :: 0 <= k < |xs| ==> Count(xs[k].value, kind) == Count(ys[k].value, kind)
  {
    hide Count;
    if xs == [] {
    } else {
      EqualSums(xs[..|xs| - 1], ys[..|ys| - 1], kind);
    }
  }

  // Two kinds: the two bytes above ASCII that are white space to `str.strip`, and any byte at all.

  predicate HighSpace(c: Byte) {
    c as int == 0x85 || c as int == 0xA0
  }

  predicate AnyByte(c: Byte) {
    true
  }

  lemma {:induction false} CountAny(s: Bytes)
    ensures Count(s, AnyByte) == |s|
  {
    if s == [] {
    } else {
      CountAny(s[1..]);
    }
  }

  lemma {:induction false} CountLStrip(s: Bytes, space: Byte -> bool, kind: Byte -> bool)
    ensures Count(LStrip(s, space), kind) <= Count(s, kind)
    ensures (forall c :: space(c) ==> !kind(c)) ==> Count(LStrip(s, space), kind) == Count(s, kind)
  {
    if s != [] && space(s[0]) {
      CountLStrip(s[1..], space, kind);
    } else {
    }
  }

  lemma CountLast(s: Bytes, kind: Byte -> bool)
    requires s != []
    ensures Count(s, kind) == Count(s[..|s| - 1], kind) + (if kind(s[|s| - 1]) then 1 else 0)
  {
    var last := [s[|s| - 1]];
    assert s == s[..|s| - 1] + last && last[1..] == [];
    CountConcat(s[..|s| - 1], last, kind);
  }

  lemma {:induction false} CountRStrip(s: Bytes, space: Byte -> bool, kind: Byte -> bool)
    ensures Count(RStrip(s, space), kind) <= Count(s, kind)
    ensures (forall c :: space(c) ==> !kind(c)) ==> Count(RStrip(s, space), kind) == Count(s, kind)
  {
    if s != [] && space(s[|s| - 1]) {
      CountLast(s, kind);
      CountRStrip(s[..|s| - 1], space, kind);
    } else {
    }
  }

  /** Stripping loses bytes of a kind only if they are white space, and does if one of them is at an end. */
  lemma CountStrip(s: Bytes, space: Byte -> bool, kind: Byte -> bool)
    ensures Count(Strip(s, space), kind) <= Count(s, kind)
    ensures (forall c :: space(c) ==> !kind(c)) ==> Count(Strip(s, space), kind) == Count(s, kind)
    ensures s != [] && space(s[0]) && kind(s[0]) ==> Count(Strip(s, space), kind) < Count(s, kind)
    ensures s != [] && space(s[|s| - 1]) && kind(s[|s| - 1]) ==> Count(Strip(s, space), kind) < Count(s, kind)
  {
    CountLStrip(s, space, kind);
    CountRStrip(LStrip(s, space), space, kind);
    if s != [] && space(s[0]) {
      CountLStrip(s[1..], space, kind);
    }
    if s != [] && space(s[|s| - 1]) && kind(s[|s| - 1]) {
      LastStripped(s, space, kind);
    }
  }

  lemma LastStripped(s: Bytes, space: Byte -> bool, kind: Byte -> bool)
    requires s != [] && space(s[|s| - 1]) && kind(s[|s| - 1])
    ensures Count(Strip(s, space), kind) < Count(s, kind)
  {
    var init, last := s[..|s| - 1], [s[|s| - 1]];
    assert s == init + last;
    LStripConcat(init, last, space);
    assert last[1..] == [];
    CountLast(s, kind);
    var left := LStrip(s, space);
    if LStrip(init, space) != [] {
      assert left == LStrip(init, space) + last && left[..|left| - 1] == LStrip(init, space);
      CountLStrip(init, space, kind);
      CountRStrip(LStrip(init, space), space, kind);
    } else {
      assert LStrip(last, space) == LStrip([], space) == [];
    }
  }

  lemma JoinSplits(value: Bytes, texts: seq<Bytes>)
    ensures Join([value] + texts, " ") == value + (if texts == [] then [] else [' '] + Join(texts, " "))
  {
    assert ([value] + texts)[1..] == texts;
  }

  lemma HighHeld(f: Folded)
    requires IsFolded(f)
    ensures Count(Held(f).value, HighSpace) <= Count(Meant(f).value, HighSpace)
    ensures Count(Held(f).value, HighSpace) == Count(Meant(f).value, HighSpace) && f.value != [] ==>
      !StrSpace(f.value[0]) && !StrSpace(f.value[|f.value| - 1])
  {
    hide Count, Join, Strip;
    var tail := if f.texts == [] then [] else [' '] + Join(f.texts, " ");
    JoinSplits(f.value, f.texts);
    JoinSplits(Strip(f.value, StrSpace), f.texts);
    CountConcat(f.value, tail, HighSpace);
    CountConcat(Strip(f.value, StrSpace), tail, HighSpace);
    CountStrip(f.value, StrSpace, HighSpace);
    CountStrip(Unfolded(f), Blank, HighSpace);
  }

  lemma AnyHeld(f: Folded)
    requires IsFolded(f)
    requires f.value != [] ==> !StrSpace(f.value[0]) && !StrSpace(f.value[|f.value| - 1])
    ensures Count(Meant(f).value, AnyByte) <= Count(Held(f).value, AnyByte)
    ensures Count(Meant(f).value, AnyByte) == Count(Held(f).value, AnyByte) ==> Plain(f)
  {
    hide Count, Join, Strip, IsFolded;
    StripIdentity(f.value, StrSpace);
    CountStrip(Unfolded(f), Blank, AnyByte);
    if f.texts != [] {
      JoinSplits(f.value, f.texts);
      assert f.value == [] ==> Unfolded(f)[0] == ' ';
      var init := f.texts[..|f.texts| - 1];
      assert [f.value] + f.texts == ([f.value] + init) + [f.texts[|f.texts| - 1]];
      JoinSnoc([f.value] + init, f.texts[|f.texts| - 1], " ");
      assert f.texts[|f.texts| - 1] == [] ==> Unfolded(f)[|Unfolded(f)| - 1] == ' ';
    }
  }

  lemma SameCounts(raws: seq<Raw>, kind: Byte -> bool)
    requires (forall r :: r in raws ==> IsRaw(r)) && ReadAsMeant(raws)
    ensures var fields := Gather([], raws).value; CountLines(HeldAll(fields), kind) == CountLines(Meaning(fields), kind)
  {
    hide HeaderLines, FromLines, Gather, Unfold, IsRaw, Shaped;
    var fields := Gather([], raws).value;
    GatherUnfolds([], raws);
    RawsShaped(raws);
    assert HeldAll([]) == [];
    CountKept([], [], raws, kind);
    CountFromLines(Meaning(fields), kind);
  }

  lemma MeantArePlain(raws: seq<Raw>)
    requires (forall r :: r in raws ==> IsRaw(r)) && ReadAsMeant(raws)
    ensures forall f :: f in Gather([], raws).value ==> Plain(f)
  {
    hide Count, Held, Meant, IsFolded, Plain, IsRaw;
    var fields := Gather([], raws).value;
    GatheredContent([], raws);
    var held, meant := HeldAll(fields), Meaning(fields);
    SameCounts(raws, HighSpace);
    SameCounts(raws, AnyByte);
    forall k | 0 <= k < |fields| ensures Count(held[k].value, HighSpace) <= Count(meant[k].value, HighSpace) {
      HighHeld(fields[k]);
    }
    EqualSums(held, meant, HighSpace);
    forall k | 0 <= k < |fields| ensures Count(meant[k].value, AnyByte) <= Count(held[k].value, AnyByte) {
      HighHeld(fields[k]);
      AnyHeld(fields[k]);
    }
    EqualSums(meant, held, AnyByte);
    forall k | 0 <= k < |fields| ensures Plain(fields[k]) {
      HighHeld(fields[k]);
      AnyHeld(fields[k]);
    }
  }

  lemma AllPlainHeld(raws: seq<Raw>)
    requires (forall r :: r in raws ==> IsRaw(r)) && Gather([], raws).Some?
    requires forall f :: f in Gather([], raws).value ==> Plain(f)
    ensures HeldAll(Gather([], raws).value) == Meaning(Gather([], raws).value)
  {
    hide Held, Meant, IsFolded, Plain, IsRaw;
    GatheredContent([], raws);
    var fields := Gather([], raws).value;
    forall k | 0 <= k < |fields| ensures Held(fields[k]) == Meant(fields[k]) {
      PlainHeld(fields[k]);
    }
  }

  /**
   * Exactly when the parser reads a header section as RFC 9112 means it, for every section of fields and
   * continuations: every continuation follows a line whose name is the newest distinct name so far; a folded field's
   * own value and its last continuation are not empty; and no field's own value begins or ends with 0x85 or 0xA0.
   */
  lemma SectionReadsExactly(raws: seq<Raw>)
    requires forall r :: r in raws ==> IsRaw(r)
    ensures ReadAsMeant(raws) <==>
      FoldsOnNewest([], raws) && Gather([], raws).Some? && forall f :: f in Gather([], raws).value ==> Plain(f)
  {
    hide HeaderLines, Held, Meant, IsFolded, Plain, IsRaw, Shaped, FoldsOnNewest, Gather, Unfold;
    RawsShaped(raws);
    UnfoldsExactly([], raws);
    GatherUnfolds([], raws);
    assert HeldAll([]) == [] && FromLines([]) == [];
    if ReadAsMeant(raws) {
      MeantArePlain(raws);
    }
    if Gather([], raws).Some? && forall f :: f in Gather([], raws).value ==> Plain(f) {
      AllPlainHeld(raws);
    }
  }

  // The sections it gets wrong, smallest first.

  function Sole(name: Bytes, value: Bytes, text: Bytes): seq<Raw> {
    [Field(name, [], value, []), Continuation([' '], text, [])]
  }

  lemma SoleReads(name: Bytes, value: Bytes, text: Bytes)
    requires IsToken(name) && Content(value) && Content(text)
    ensures HeaderLines([], RenderAll(Sole(name, value, text)))
         == Parsed(FromLines([Line(name, Fold(Strip(value, StrSpace), text))]))
    ensures Gather([], Sole(name, value, text)) == Some([Folded(name, value, [text])])
  {
    hide HeaderLine, HeaderLines, Render, AddLine, AppendToLast, Strip, FromLines, Fold, Items;
    var raws, l := Sole(name, value, text), Stored(name, value);
    TokenStays(name);
    BareContent(text);
    assert raws[1..] == [raws[1]] && raws[1..][1..] == [];
    FromLinesNone();
    ReadFirst([], raws);
    FieldReads([], raws[0]);
    FromLinesSnoc([], l);
    assert [] + [l] == [l];
    ReadFirst(FromLines([l]), raws[1..]);
    ContinuationReads(FromLines([l]), raws[1]);
    NoItems([l]);
    NewestOfOne(l);
    AppendToLastExactly([l], text);
    assert [l][0 := Line(name, Fold(l.value, text))] == [Line(name, Fold(l.value, text))];
    NothingToRead(FromLines([Line(name, Fold(l.value, text))]));
    SoleGathers(name, value, text);
  }

  lemma FromLinesNone()
    ensures FromLines([]) == []
  {
  }

  lemma NewestOfOne(l: Line)
    ensures NewestName([l]) == Lower(l.name)
  {
    assert [l][..0] == [];
  }

  lemma SoleGathers(name: Bytes, value: Bytes, text: Bytes)
    ensures Gather([], Sole(name, value, text)) == Some([Folded(name, value, [text])])
  {
    var raws, f := Sole(name, value, text), Folded(name, value, []);
    assert raws[1..] == [raws[1]] && raws[1..][1..] == [];
    assert [] + [f] == [f];
    assert [f][0 := AddText(f, text)] == [AddText(f, text)];
    assert Gather([AddText(f, text)], []) == Some([AddText(f, text)]);
    assert Gather([f], raws[1..]) == Gather([AddText(f, text)], []);
    assert [] + [text] == [text];
  }

  lemma HeldOne(name: Bytes, value: Bytes)
    ensures FromLines([Line(name, value)]) == [Entry(Lower(name), name, [value])]
  {
    var lines := [Line(name, value)];
    assert lines[..0] == [];
    assert FromLines(lines) == Put([], Lower(name), lines[0]);
  }

  /** A value that begins on the continuation is held with a space too many, whatever the name and the value are. */
  lemma ValueBelow(name: Bytes, text: Bytes)
    requires IsToken(name) && Content(text) && text != []
    ensures var raws := Sole(name, [], text);
      && (forall r :: r in raws ==> IsRaw(r)) && FoldsOnNewest([], raws)
      && HeaderLines([], RenderAll(raws)) == Parsed([Entry(Lower(name), name, [[' '] + text])])
      && Gather([], raws).Some? && Meaning(Gather([], raws).value) == [Line(name, text)]
  {
    hide Lower, Put, HeaderLines, Render, Gather, FromLines, IsToken, Strip;
    SoleReads(name, [], text);
    StripIdentity([], StrSpace);
    assert Fold([], text) == [' '] + text;
    HeldOne(name, [' '] + text);
    SpaceThenText(text);
    assert Meaning([Folded(name, [], [text])]) == [Line(name, text)];
    SoleFolds(name, [], text);
    assert Blanks([' ']) && Content([]);
  }

  lemma SoleFolds(name: Bytes, value: Bytes, text: Bytes)
    ensures FoldsOnNewest([], Sole(name, value, text))
  {
    hide Lower, Strip;
    var raws, l := Sole(name, value, text), Stored(name, value);
    NewestOfOne(l);
    assert raws[1..] == [raws[1]] && raws[1..][1..] == [];
    assert [] + [l] == [l];
    assert FoldsOnNewest(FoldLine([l], Bare(text)), []);
    assert FoldsOnNewest([l], raws[1..]);
  }

  lemma SpaceThenText(text: Bytes)
    requires Content(text) && text != []
    ensures Strip(Join([[]] + [text], " "), Blank) == text
  {
    var s := [' '] + text;
    JoinSnoc([[]], text, " ");
    assert s[1..] == text;
    assert LStrip(s, Blank) == LStrip(text, Blank);
    StripIdentity(text, Blank);
  }

  /** For one, a `Location` header broken after its colon. */
  lemma ValueOnNextLine()
    ensures var raws := Sole("Location", [], "/x");
      && (forall r :: r in raws ==> IsRaw(r)) && FoldsOnNewest([], raws)
      && HeaderLines([], RenderAll(raws)) == Parsed([Entry(Lower("Location"), "Location", [[' '] + "/x"])])
      && Gather([], raws).Some? && Meaning(Gather([], raws).value) == [Line("Location", "/x")]
  {
    NameAndText();
    hide *;
    ValueBelow("Location", "/x");
  }

  lemma NameAndText()
    ensures IsToken("Location") && Content("/x")
  {
  }

  /** A value that is the byte 0x85 or 0xA0, both obs-text to RFC 9112, is lost even without folding. */
  lemma HighSpaceLost(name: Bytes, c: Byte)
    requires IsToken(name) && HighSpace(c)
    ensures var raws := [Field(name, [], [c], [])];
      && (forall r :: r in raws ==> IsRaw(r)) && FoldsOnNewest([], raws)
      && HeaderLines([], RenderAll(raws)) == Parsed([Entry(Lower(name), name, [[]])])
      && Gather([], raws).Some? && Meaning(Gather([], raws).value) == [Line(name, [c])]
  {
    hide Put, HeaderLine, Lower, Render, IsToken, FromLines, AddLine;
    var raws, l := [Field(name, [], [c], [])], Stored(name, [c]);
    TokenStays(name);
    assert raws[1..] == [] && [c][1..] == [];
    assert LStrip([c], StrSpace) == LStrip([], StrSpace) == [];
    assert l == Line(name, []);
    StripIdentity([c], Blank);
    FromLinesNone();
    ReadFirst([], raws);
    FieldReads([], raws[0]);
    FromLinesSnoc([], l);
    assert [] + [l] == [l];
    HeldOne(name, []);
    NothingToRead(FromLines([l]));
    var f := Folded(name, [c], []);
    assert [] + [f] == [f];
    assert Gather([f], []) == Some([f]);
    JoinOne([c]);
    assert [f.value] + [] == [[c]];
  }
}
