/** The case-insensitive header mapping: an insertion-ordered dict from lower-case name to a list of values. */
module HeaderMap {
  import opened ByteStrings

  type Values = vs: seq<Bytes> | |vs| > 0 witness [[]]

  /** One dict item: lower-case key, name in its original casing, values in order of arrival. */
  datatype Entry = Entry(key: Bytes, name: Bytes, values: Values)

  type Store = seq<Entry>

  datatype Line = Line(name: Bytes, value: Bytes)

  function Extend(e: Entry, value: Bytes): Entry {
    e.(values := e.values + [value])
  }

  function Put(store: Store, key: Bytes, line: Line): Store {
    if store == [] then [Entry(key, line.name, [line.value])]
    else if store[0].key == key then [Extend(store[0], line.value)] + store[1..]
    else [store[0]] + Put(store[1..], key, line)
  }

  function AddLine(store: Store, line: Line): Store {
    Put(store, Lower(line.name), line)
  }

  function Lookup(store: Store, key: Bytes): seq<Bytes> {
    if store == [] then []
    else if store[0].key == key then store[0].values
    else Lookup(store[1..], key)
  }

  function GetList(store: Store, name: Bytes): seq<Bytes> {
    Lookup(store, Lower(name))
  }

  function Get(store: Store, name: Bytes): Option<Bytes> {
    var values := GetList(store, name);
    if values == [] then None else Some(Join(values, ", "))
  }

  function NamedValues(name: Bytes, values: seq<Bytes>): seq<Line> {
    if values == [] then [] else NamedValues(name, values[..|values| - 1]) + [Line(name, values[|values| - 1])]
  }

  function Items(store: Store): seq<Line> {
    if store == [] then [] else NamedValues(store[0].name, store[0].values) + Items(store[1..])
  }

  function Fold(value: Bytes, text: Bytes): Bytes {
    value + " " + text
  }

  function FoldLast(e: Entry, text: Bytes): Entry {
    var n := |e.values| - 1;
    e.(values := e.values[..n] + [Fold(e.values[n], text)])
  }

  /** Folds `text` onto the last value of the newest key; None where the source raises on an empty mapping. */
  function AppendToLast(store: Store, text: Bytes): Option<Store> {
    if store == [] then None
    else
      Some(store[|store| - 1 := FoldLast(store[|store| - 1], text)])
  }

  class Headers {
    var store: Store

    constructor ()
      ensures store == []
    {
      store := [];
    }

    method Add(name: Bytes, value: Bytes)
      modifies this
      ensures store == AddLine(old(store), Line(name, value))
    {
      hide Lower, Put;
      var key := Lower(name);
      var i := 0;
      while i < |store| && store[i].key != key
        invariant 0 <= i <= |store| && store == old(store)
        invariant forall j :: 0 <= j < i ==> store[j].key != key
      {
        i := i + 1;
      }
      if i < |store| {
        PutKnown(store, key, Line(name, value), i);
        store := store[i := Extend(store[i], value)];
      } else {
        PutNew(store, key, Line(name, value));
        store := store + [Entry(key, name, [value])];
      }
    }

    method AppendLast(text: Bytes) returns (ok: bool)
      modifies this
      ensures ok == AppendToLast(old(store), text).Some?
      ensures store == if ok then AppendToLast(old(store), text).value else old(store)
    {
      if store == [] {
        return false;
      }
      store := store[|store| - 1 := FoldLast(store[|store| - 1], text)];
      ok := true;
    }

    method AllItems() returns (lines: seq<Line>)
      ensures lines == Items(store)
    {
      lines := [];
      var i := 0;
      while i < |store|
        invariant 0 <= i <= |store|
        invariant lines + Items(store[i..]) == Items(store)
      {
        ghost var before := lines;
        var values := store[i].values;
        var j := 0;
        while j < |values|
          invariant 0 <= j <= |values|
          invariant lines == before + NamedValues(store[i].name, values[..j])
        {
          assert values[..j + 1][..j] == values[..j];
          lines := lines + [Line(store[i].name, values[j])];
          j := j + 1;
        }
        assert values[..j] == values;
        assert store[i..][1..] == store[i + 1..];
        i := i + 1;
      }
    }
  }

  // The plain list of header lines that the mapping stands for.

  function FromLines(lines: seq<Line>): Store {
    if lines == [] then [] else AddLine(FromLines(lines[..|lines| - 1]), lines[|lines| - 1])
  }

  function Matching(lines: seq<Line>, key: Bytes): seq<Bytes> {
    if lines == [] then []
    else
      var rest := Matching(lines[..|lines| - 1], key);
      var last := lines[|lines| - 1];
      if Lower(last.name) == key then rest + [last.value] else rest
  }

  function Without(lines: seq<Line>, key: Bytes): (r: seq<Line>)
    ensures |r| + |Matching(lines, key)| == |lines|
  {
    if lines == [] then []
    else
      var rest := Without(lines[..|lines| - 1], key);
      var last := lines[|lines| - 1];
      if Lower(last.name) == key then rest else rest + [last]
  }

  lemma {:induction false} MatchingFirst(lines: seq<Line>)
    requires lines != []
    ensures Matching(lines, Lower(lines[0].name)) != []
  {
    if |lines| == 1 {
    } else {
      assert lines[..|lines| - 1][0] == lines[0];
      MatchingFirst(lines[..|lines| - 1]);
    }
  }

  /** Stable grouping by first appearance: the first line's group, then the other names' groups. */
  function Grouped(lines: seq<Line>): seq<Line>
    decreases |lines|
  {
    if lines == [] then []
    else
      var key := Lower(lines[0].name);
      MatchingFirst(lines);
      NamedValues(lines[0].name, Matching(lines, key)) + Grouped(Without(lines, key))
  }

  lemma {:induction false} PutLookup(store: Store, put: Bytes, line: Line, key: Bytes)
    ensures Lookup(Put(store, put, line), key) == Lookup(store, key) + (if put == key then [line.value] else [])
  {
    if store == [] || store[0].key == put {
    } else {
      PutLookup(store[1..], put, line, key);
    }
  }

  lemma {:induction false} LookupIsMatching(lines: seq<Line>, key: Bytes)
    ensures Lookup(FromLines(lines), key) == Matching(lines, key)
  {
    if lines == [] {
    } else {
      var prefix, last := lines[..|lines| - 1], lines[|lines| - 1];
      LookupIsMatching(prefix, key);
      PutLookup(FromLines(prefix), Lower(last.name), last, key);
    }
  }

  /** `get_list` is the case-insensitive, order-preserving filter of the lines added. */
  lemma GetListIsFilter(lines: seq<Line>, name: Bytes)
    ensures GetList(FromLines(lines), name) == Matching(lines, Lower(name))
  {
    LookupIsMatching(lines, Lower(name));
  }

  lemma {:induction false} FirstEntry(lines: seq<Line>)
    requires lines != []
    ensures var key := Lower(lines[0].name);
      && Matching(lines, key) != []
      && FromLines(lines) == [Entry(key, lines[0].name, Matching(lines, key))] + FromLines(Without(lines, key))
  {
    MatchingFirst(lines);
    var prefix, last := lines[..|lines| - 1], lines[|lines| - 1];
    var key := Lower(lines[0].name);
    if prefix == [] {
      assert lines == [last];
      assert Matching(lines, key) == [last.value] && Without(lines, key) == [];
      assert FromLines(prefix) == [] && FromLines(Without(lines, key)) == [];
    } else {
      FirstEntry(prefix);
      var rest := Without(prefix, key);
      if Lower(last.name) != key {
        assert (rest + [last])[..|rest|] == rest;
      }
    }
  }

  /** `items` is the stable grouping of the added lines by first appearance of their name. */
  lemma {:induction false} ItemsAreGrouped(lines: seq<Line>)
    ensures Items(FromLines(lines)) == Grouped(lines)
    decreases |lines|
  {
    if lines == [] {
    } else {
      FirstEntry(lines);
      ItemsAreGrouped(Without(lines, Lower(lines[0].name)));
    }
  }

  lemma {:induction false} NamedValuesCount(name: Bytes, values: seq<Bytes>)
    ensures |NamedValues(name, values)| == |values|
  {
    if values == [] {
    } else {
      NamedValuesCount(name, values[..|values| - 1]);
    }
  }

  /** No line is lost or invented by the grouping. */
  lemma {:induction false} GroupedCount(lines: seq<Line>)
    ensures |Grouped(lines)| == |lines|
    decreases |lines|
  {
    if lines == [] {
    } else {
      var key := Lower(lines[0].name);
      MatchingFirst(lines);
      NamedValuesCount(lines[0].name, Matching(lines, key));
      GroupedCount(Without(lines, key));
    }
  }

  // Where a folded continuation goes.

  /** The name that appeared for the first time most recently. */
  function NewestName(lines: seq<Line>): Bytes
    requires lines != []
  {
    var prefix, key := lines[..|lines| - 1], Lower(lines[|lines| - 1].name);
    if Matching(prefix, key) != [] then
      assert prefix != [];
      NewestName(prefix)
    else key
  }

  function Keys(store: Store): (keys: seq<Bytes>)
    ensures |keys| == |store|
    ensures forall i :: 0 <= i < |keys| ==> keys[i] == store[i].key
  {
    if store == [] then [] else [store[0].key] + Keys(store[1..])
  }

  predicate Distinct(keys: seq<Bytes>) {
    forall i, j :: 0 <= i < j < |keys| ==> keys[i] != keys[j]
  }

  lemma {:induction false} PutNew(store: Store, key: Bytes, line: Line)
    requires key !in Keys(store)
    ensures Put(store, key, line) == store + [Entry(key, line.name, [line.value])]
    ensures Lookup(store, key) == []
  {
    if store == [] {
    } else {
      assert Keys(store)[0] == store[0].key;
      assert Keys(store)[1..] == Keys(store[1..]);
      PutNew(store[1..], key, line);
    }
  }

  lemma {:induction false} PutKnown(store: Store, key: Bytes, line: Line, i: nat)
    requires i < |store| && store[i].key == key
    requires forall j :: 0 <= j < i ==> store[j].key != key
    ensures Put(store, key, line) == store[i := Extend(store[i], line.value)]
    ensures Lookup(store, key) == store[i].values
  {
    if i == 0 {
    } else {
      var tail := store[1..];
      PutKnown(tail, key, line, i - 1);
      assert store[i := Extend(store[i], line.value)] == [store[0]] + tail[i - 1 := Extend(store[i], line.value)];
    }
  }

  lemma {:induction false} KnownAt(store: Store, key: Bytes, line: Line)
    requires key in Keys(store)
    ensures Keys(Put(store, key, line)) == Keys(store)
    ensures Lookup(store, key) != []
  {
    if store[0].key == key {
    } else {
      assert Keys(store)[1..] == Keys(store[1..]);
      KnownAt(store[1..], key, line);
    }
  }

  lemma PutKeys(store: Store, key: Bytes, line: Line)
    requires Distinct(Keys(store))
    ensures Lookup(store, key) == [] ==> Keys(Put(store, key, line)) == Keys(store) + [key]
    ensures Lookup(store, key) != [] ==> Keys(Put(store, key, line)) == Keys(store)
    ensures Distinct(Keys(Put(store, key, line)))
  {
    if key in Keys(store) {
      KnownAt(store, key, line);
    } else {
      PutNew(store, key, line);
    }
  }

  lemma NoKeys()
    ensures Keys([]) == [] && Distinct([])
  {
  }

  /** The dict's last key is the newest distinct name of the lines it holds. */
  lemma {:induction false} FromLinesKeys(lines: seq<Line>)
    ensures var keys := Keys(FromLines(lines));
      Distinct(keys) && (lines != [] ==> keys != [] && keys[|keys| - 1] == NewestName(lines))
  {
    hide Put, Keys, Distinct, Lookup, Lower;
    if lines == [] {
      NoKeys();
    } else {
      var prefix, last := lines[..|lines| - 1], lines[|lines| - 1];
      FromLinesKeys(prefix);
      PutKeys(FromLines(prefix), Lower(last.name), last);
      LookupIsMatching(prefix, Lower(last.name));
    }
  }

  lemma FoldExtended(e: Entry, value: Bytes, text: Bytes)
    ensures FoldLast(Extend(e, value), text) == Extend(e, Fold(value, text))
  {
    assert (e.values + [value])[..|e.values|] == e.values;
  }

  lemma FoldSingle(e: Entry, text: Bytes)
    requires |e.values| == 1
    ensures FoldLast(e, text) == e.(values := [Fold(e.values[0], text)])
  {
  }

  lemma FoldOntoKnown(store: Store, key: Bytes, line: Line, line': Line, text: Bytes)
    requires store != [] && store[|store| - 1].key == key
    requires forall j :: 0 <= j < |store| - 1 ==> store[j].key != key
    requires line'.value == Fold(line.value, text)
    ensures AppendToLast(Put(store, key, line), text).Some?
    ensures AppendToLast(Put(store, key, line), text).value == Put(store, key, line')
  {
    var n := |store| - 1;
    PutKnown(store, key, line, n);
    PutKnown(store, key, line', n);
    FoldExtended(store[n], line.value, text);
  }

  lemma FoldOntoNew(store: Store, key: Bytes, line: Line, line': Line, text: Bytes)
    requires key !in Keys(store)
    requires line' == line.(value := Fold(line.value, text))
    ensures AppendToLast(Put(store, key, line), text).Some?
    ensures AppendToLast(Put(store, key, line), text).value == Put(store, key, line')
  {
    PutNew(store, key, line);
    PutNew(store, key, line');
    FoldSingle(Entry(key, line.name, [line.value]), text);
  }

  lemma OnlyLast(store: Store, key: Bytes)
    requires store != [] && Distinct(Keys(store)) && Keys(store)[|store| - 1] == key
    ensures store[|store| - 1].key == key && forall j :: 0 <= j < |store| - 1 ==> store[j].key != key
  {
    forall j | 0 <= j < |store| - 1 ensures store[j].key != key {
      assert store[j].key == Keys(store)[j];
    }
  }

  lemma {:induction false} FoldOntoNewest(store: Store, key: Bytes, line: Line, line': Line, text: Bytes)
    requires Distinct(Keys(store))
    requires Keys(Put(store, key, line)) != [] && Keys(Put(store, key, line))[|Keys(Put(store, key, line))| - 1] == key
    requires line' == line.(value := Fold(line.value, text))
    ensures AppendToLast(Put(store, key, line), text).Some?
    ensures AppendToLast(Put(store, key, line), text).value == Put(store, key, line')
  {
    hide Put, AppendToLast, Keys, Distinct;
    if key in Keys(store) {
      KnownAt(store, key, line);
      OnlyLast(store, key);
      FoldOntoKnown(store, key, line, line', text);
    } else {
      FoldOntoNew(store, key, line, line', text);
    }
  }

  lemma {:induction false} LookupLastChanged(store: Store, e: Entry, key: Bytes)
    requires store != [] && store[|store| - 1].key == e.key != key
    ensures Lookup(store[|store| - 1 := e], key) == Lookup(store, key)
  {
    if |store| == 1 {
    } else {
      LookupLastChanged(store[1..], e, key);
      assert store[|store| - 1 := e][1..] == store[1..][|store| - 2 := e];
    }
  }

  /**
   * A continuation lands on the most recently added line if and only if that line's name is the newest
   * distinct name: the dict keeps a repeated name in its old position, so after A, B, A it lands on B.
   */
  lemma AppendToLastExactly(lines: seq<Line>, text: Bytes)
    requires lines != []
    ensures var last := lines[|lines| - 1];
      AppendToLast(FromLines(lines), text)
        == Some(FromLines(lines[|lines| - 1 := last.(value := Fold(last.value, text))]))
      <==> Lower(last.name) == NewestName(lines)
  {
    var prefix, last := lines[..|lines| - 1], lines[|lines| - 1];
    var folded := last.(value := Fold(last.value, text));
    var lines' := lines[|lines| - 1 := folded];
    assert lines'[..|lines| - 1] == prefix;
    FromLinesKeys(prefix);
    FromLinesKeys(lines);
    if Lower(last.name) == NewestName(lines) {
      FoldOntoNewest(FromLines(prefix), Lower(last.name), last, folded, text);
    } else {
      var store := FromLines(lines);
      var newest := store[|store| - 1];
      LookupLastChanged(store, AppendToLast(store, text).value[|store| - 1], Lower(last.name));
      PutLookup(FromLines(prefix), Lower(last.name), last, Lower(last.name));
      PutLookup(FromLines(prefix), Lower(last.name), folded, Lower(last.name));
      var vs := Lookup(FromLines(prefix), Lower(last.name));
      assert (vs + [last.value])[|vs|] != (vs + [folded.value])[|vs|];
    }
  }

  lemma TwoNames(a: Bytes, b: Bytes, v1: Bytes, v2: Bytes, v3: Bytes)
    requires Lower(a) != Lower(b)
    ensures FromLines([Line(a, v1), Line(b, v2), Line(a, v3)])
         == [Entry(Lower(a), a, [v1, v3]), Entry(Lower(b), b, [v2])]
  {
    var l1, l2, l3 := [Line(a, v1)], [Line(a, v1), Line(b, v2)], [Line(a, v1), Line(b, v2), Line(a, v3)];
    assert l3[..2] == l2 && l2[..1] == l1 && l1[..0] == [];
    var ea, eb := Entry(Lower(a), a, [v1]), Entry(Lower(b), b, [v2]);
    assert FromLines(l1) == Put([], Lower(a), l1[0]) == [ea];
    assert FromLines(l2) == Put([ea], Lower(b), l2[1]);
    assert [ea][1..] == [];
    assert Put([], Lower(b), l2[1]) == [eb];
    assert FromLines(l3) == Put([ea, eb], Lower(a), l3[2]);
    assert [ea, eb][1..] == [eb];
    assert Extend(ea, v3) == Entry(Lower(a), a, [v1, v3]);
  }

  /** The smallest case in which a continuation changes a line other than the one it continues. */
  lemma ContinuationMisplaced(a: Bytes, b: Bytes, v1: Bytes, v2: Bytes, v3: Bytes, text: Bytes)
    requires Lower(a) != Lower(b)
    ensures AppendToLast(FromLines([Line(a, v1), Line(b, v2), Line(a, v3)]), text)
         == Some(FromLines([Line(a, v1), Line(b, Fold(v2, text)), Line(a, v3)]))
  {
    TwoNames(a, b, v1, v2, v3);
    TwoNames(a, b, v1, Fold(v2, text), v3);
    FoldSingle(Entry(Lower(b), b, [v2]), text);
    var before := [Entry(Lower(a), a, [v1, v3]), Entry(Lower(b), b, [v2])];
    assert AppendToLast(before, text).value == [before[0], Entry(Lower(b), b, [Fold(v2, text)])];
  }
}
