/** Fields sent more than once, and the words found in their joined values. */
module FieldLists {
  import opened ByteStrings
  import opened HeaderMap

  const COMMA: Bytes := [',', ' ']

  lemma ContainsExactly(s: Bytes, word: Bytes)
    ensures Contains(s, word) <==> exists j :: At(s, word, j)
  {
    var r := Find(s, word);
    if r == -1 {
      forall j ensures !At(s, word, j) {
        assert 0 <= j <= |s| || !At(s, word, j);
      }
    } else {
      assert At(s, word, r);
    }
  }

  lemma AtLeft(a: Bytes, b: Bytes, word: Bytes, j: nat)
    requires j + |word| <= |a|
    ensures At(a + b, word, j) <==> At(a, word, j)
  {
    assert (a + b)[j..j + |word|] == a[j..j + |word|];
  }

  lemma AtRight(a: Bytes, b: Bytes, word: Bytes, j: nat)
    ensures At(a + b, word, |a| + j) <==> At(b, word, j)
  {
    if j + |word| <= |b| {
      assert (a + b)[|a| + j..|a| + j + |word|] == b[j..j + |word|];
    }
  }

  /** A word without comma and space does not reach across a separator. */
  lemma NotAcross(a: Bytes, b: Bytes, word: Bytes, j: nat)
    requires word != [] && ',' !in word && ' ' !in word
    requires At(a + COMMA + b, word, j)
    ensures j + |word| <= |a| || |a| + 2 <= j
  {
    var s := a + COMMA + b;
    assert s[|a|] == ',' && s[|a| + 1] == ' ';
    forall x: nat | j <= x < j + |word| ensures s[x] == word[x - j] {
      assert s[x] == s[j..j + |word|][x - j];
    }
  }

  lemma WordInEither(a: Bytes, b: Bytes, word: Bytes)
    requires word != [] && ',' !in word && ' ' !in word
    ensures Contains(a + COMMA + b, word) <==> Contains(a, word) || Contains(b, word)
  {
    hide At, Contains;
    var s := a + COMMA + b;
    assert s == a + (COMMA + b);
    ContainsExactly(s, word);
    ContainsExactly(a, word);
    ContainsExactly(b, word);
    if j :| At(a, word, j) {
      AtBounds(a, word, j);
      AtLeft(a, COMMA + b, word, j);
    }
    if j :| At(b, word, j) {
      AtBounds(b, word, j);
      AtRight(a + COMMA, b, word, j);
    }
    if j :| At(s, word, j) {
      AtBounds(s, word, j);
      NotAcross(a, b, word, j);
      if j + |word| <= |a| {
        AtLeft(a, COMMA + b, word, j);
      } else {
        AtRight(a + COMMA, b, word, j - |a| - 2);
      }
    }
  }

  lemma AtBounds(s: Bytes, word: Bytes, j: int)
    requires At(s, word, j)
    ensures 0 <= j <= |s| - |word|
  {
  }

  /** A word is in the joined values exactly when it is in one of them. */
  lemma {:induction false} WordInJoin(values: seq<Bytes>, word: Bytes)
    requires word != [] && ',' !in word && ' ' !in word
    ensures Contains(Join(values, COMMA), word) <==> exists i :: 0 <= i < |values| && Contains(values[i], word)
  {
    hide Contains;
    if values == [] {
      WordInNothing(word);
    } else if |values| == 1 {
    } else {
      var tail := values[1..];
      WordInEither(values[0], Join(tail, COMMA), word);
      WordInJoin(tail, word);
      assert forall i :: 0 <= i < |tail| ==> tail[i] == values[i + 1];
      if i :| 0 < i < |values| && Contains(values[i], word) {
        assert Contains(tail[i - 1], word);
      }
    }
  }

  lemma WordInNothing(word: Bytes)
    requires word != []
    ensures !Contains([], word)
  {
  }

  lemma LowerConcat(a: Bytes, b: Bytes)
    ensures Lower(a + b) == Lower(a) + Lower(b)
  {
  }

  function LowerAll(values: seq<Bytes>): (r: seq<Bytes>)
    ensures |r| == |values| && forall i :: 0 <= i < |values| ==> r[i] == Lower(values[i])
  {
    seq(|values|, i requires 0 <= i < |values| => Lower(values[i]))
  }

  lemma LowerComma()
    ensures Lower(COMMA) == COMMA && Lower([]) == []
  {
  }

  lemma {:induction false} LowerJoin(values: seq<Bytes>)
    ensures Lower(Join(values, COMMA)) == Join(LowerAll(values), COMMA)
  {
    hide Lower;
    LowerComma();
    if |values| <= 1 {
    } else {
      LowerJoin(values[1..]);
      assert LowerAll(values)[1..] == LowerAll(values[1..]);
      LowerConcat(values[0] + COMMA, Join(values[1..], COMMA));
      LowerConcat(values[0], COMMA);
    }
  }

  /** `get` joins the values of the lines with that name, in order and in any case; None if there is none. */
  lemma GetJoins(lines: seq<Line>, name: Bytes)
    ensures var values := Matching(lines, Lower(name));
      Get(FromLines(lines), name) == if values == [] then None else Some(Join(values, COMMA))
  {
    hide Lower, Lookup, FromLines, Matching, Join;
    LookupIsMatching(lines, Lower(name));
  }

  /** For two of them: the first, a comma and a space, the second. */
  lemma TwoValues(name: Bytes, name': Bytes, v: Bytes, v': Bytes)
    requires Lower(name) == Lower(name')
    ensures Get(FromLines([Line(name, v), Line(name', v')]), name) == Some(v + [',', ' '] + v')
  {
    hide Lower, FromLines;
    var lines := [Line(name, v), Line(name', v')];
    GetJoins(lines, name);
    assert lines[..1] == [lines[0]] && [lines[0]][..0] == [];
    assert Matching([lines[0]], Lower(name)) == [v];
    assert Matching(lines, Lower(name)) == [v, v'];
    assert [v, v'][1..] == [v'];
    assert Join([v'], COMMA) == v';
  }

  /** One of the lines with this lower-case name has the word in its value, in any case. */
  predicate Says(lines: seq<Line>, name: Bytes, word: Bytes) {
    var values := Matching(lines, name);
    exists i :: 0 <= i < |values| && Contains(Lower(values[i]), word)
  }

  /** Searching the joined value for a word is searching the lines. */
  lemma GetSays(lines: seq<Line>, name: Bytes, word: Bytes)
    requires word != [] && ',' !in word && ' ' !in word
    ensures var joined := Get(FromLines(lines), name);
      joined.Some? && Contains(Lower(joined.value), word) <==> Says(lines, Lower(name), word)
  {
    hide Lower, Contains, Get, Join, Matching;
    var values := Matching(lines, Lower(name));
    GetJoins(lines, name);
    LowerJoin(values);
    WordInJoin(LowerAll(values), word);
    if i :| 0 <= i < |values| && Contains(Lower(values[i]), word) {
      assert Contains(LowerAll(values)[i], word);
    }
  }
}
