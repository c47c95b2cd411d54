/** Text split on a one-character separator, the way Python's `str.split(sep)` does it
    when `sep` is given explicitly: every occurrence of the separator ends a field, empty
    fields are kept, and the result always holds at least one field. */
module Text {

  /** Position of the first occurrence of `c` in `s`. */
  function IndexOf(s: string, c: char): (i: nat)
    requires c in s
    ensures i < |s| && s[i] == c
    ensures c !in s[..i]
  {
    if s[0] == c then 0
    else
      var j := IndexOf(s[1..], c);
      assert s[..1 + j] == [s[0]] + s[1..][..j];
      1 + j
  }

  /** Any position that holds `c` with no earlier `c` is the first occurrence. */
  lemma IndexOfIs(s: string, c: char, i: nat)
    requires i < |s| && s[i] == c && c !in s[..i]
    ensures IndexOf(s, c) == i
  {
  }

  /** The fields of `s` between occurrences of `c`, as `s.split(c)`. */
  function Split(s: string, c: char): (parts: seq<string>)
    ensures |parts| >= 1
    ensures forall k :: 0 <= k < |parts| ==> c !in parts[k]
    decreases |s|
  {
    if c !in s then [s]
    else
      var i := IndexOf(s, c);
      [s[..i]] + Split(s[i + 1..], c)
  }

  /** There is one more field than there are separators. */
  lemma {:induction false} SplitCount(s: string, c: char)
    ensures |Split(s, c)| == multiset(s)[c] + 1
    decreases |s|
  {
    if c !in s {
      assert multiset(s)[c] == 0;
    } else {
      var i := IndexOf(s, c);
      SplitCount(s[i + 1..], c);
      assert s == s[..i] + [s[i]] + s[i + 1..];
      assert multiset(s[..i])[c] == 0;
    }
  }

  /** Every field holds no more of any character than the whole text does. */
  lemma {:induction false} SplitPartsWithin(s: string, c: char)
    ensures forall k :: 0 <= k < |Split(s, c)| ==> multiset(Split(s, c)[k]) <= multiset(s)
    decreases |s|
  {
    if c in s {
      var i := IndexOf(s, c);
      var tail := s[i + 1..];
      SplitAtFirst(s, c);
      SplitPartsWithin(tail, c);
      Around(s, i);
      assert multiset(s) == multiset(s[..i]) + multiset([s[i]]) + multiset(tail);
    }
  }

  /** The fields joined back with `c` between them, as `c.join(parts)`. */
  function Join(parts: seq<string>, c: char): string
    requires |parts| >= 1
    decreases |parts|
  {
    if |parts| == 1 then parts[0] else parts[0] + [c] + Join(parts[1..], c)
  }

  /** A string is the text before position `i`, the character there, and the rest. */
  lemma Around(s: string, i: nat)
    requires i < |s|
    ensures s == s[..i] + [s[i]] + s[i + 1..]
  {
  }

  /** Splitting loses nothing: joining the fields gives back the text. */
  lemma {:induction false} JoinSplit(s: string, c: char)
    ensures Join(Split(s, c), c) == s
    decreases |s|
  {
    if c !in s {
      SplitFirst(s, c);
    } else {
      var i := IndexOf(s, c);
      var tail := s[i + 1..];
      var parts := Split(s, c);
      SplitAtFirst(s, c);
      assert parts[0] == s[..i] && parts[1..] == Split(tail, c);
      JoinSplit(tail, c);
      Around(s, i);
    }
  }

  /** Joining separator-free fields and splitting again gives back the fields. */
  lemma {:induction false} SplitJoin(parts: seq<string>, c: char)
    requires |parts| >= 1
    requires forall k :: 0 <= k < |parts| ==> c !in parts[k]
    ensures Split(Join(parts, c), c) == parts
    decreases |parts|
  {
    var first := parts[0];
    if |parts| == 1 {
      SplitFirst(first, c);
    } else {
      var rest := Join(parts[1..], c);
      var s := first + [c] + rest;
      assert Join(parts, c) == s;
      assert s[..|first|] == first && s[|first|] == c;
      IndexOfIs(s, c, |first|);
      SplitAtFirst(s, c);
      assert s[|first| + 1..] == rest;
      SplitJoin(parts[1..], c);
      assert parts == [first] + parts[1..];
    }
  }

  /** Splitting at the first separator. */
  lemma SplitAtFirst(s: string, c: char)
    requires c in s
    ensures Split(s, c) == [s[..IndexOf(s, c)]] + Split(s[IndexOf(s, c) + 1..], c)
  {
  }

  /** `s` opens with the field `a`, then `c`, then the field `b`, which runs up to the
      next `c` or to the end of `s`: `a` and `b` are fields 0 and 1 of `s`. */
  ghost predicate OpensWith(s: string, a: string, c: char, b: string)
  {
    && c !in a && c !in b
    && |a| + 1 + |b| <= |s|
    && s[..|a| + 1 + |b|] == a + [c] + b
    && (|a| + 1 + |b| == |s| || s[|a| + 1 + |b|] == c)
  }

  /** The first field is the text before the first separator, or all of `s`. */
  lemma SplitFirst(s: string, c: char)
    ensures c !in s ==> Split(s, c) == [s]
    ensures c in s ==> Split(s, c)[0] == s[..IndexOf(s, c)]
  {
  }

  /** When `s` holds a separator, its first two fields are the ones `OpensWith` describes. */
  lemma {:induction false} SplitFirstTwo(s: string, c: char)
    requires c in s
    ensures |Split(s, c)| >= 2
    ensures OpensWith(s, Split(s, c)[0], c, Split(s, c)[1])
  {
    var i := IndexOf(s, c);
    var tail := s[i + 1..];
    SplitAtFirst(s, c);
    var b := Split(tail, c)[0];
    SplitFirst(tail, c);
    OpensWithIntro(s, i, b);
  }

  /** The first two fields around the separator at position `i`. */
  lemma OpensWithIntro(s: string, i: nat, b: string)
    requires i < |s| && s[i] !in s[..i]
    requires s[i] !in s[i + 1..] ==> b == s[i + 1..]
    requires s[i] in s[i + 1..] ==> b == s[i + 1..][..IndexOf(s[i + 1..], s[i])]
    ensures OpensWith(s, s[..i], s[i], b)
  {
    var c := s[i];
    var tail := s[i + 1..];
    var n := i + 1 + |b|;
    if c in tail {
      var j := IndexOf(tail, c);
      assert s[..n] == s[..i] + [c] + b by {
        assert s[..n] == s[..i] + [s[i]] + s[i + 1..n];
        assert s[i + 1..n] == tail[..j];
      }
      assert s[n] == tail[j];
    } else {
      assert s[..n] == s[..i] + [c] + b by {
        assert s == s[..i] + [s[i]] + s[i + 1..];
      }
    }
  }

  /** No other pair of strings than fields 0 and 1 satisfies `OpensWith`. */
  lemma OpensWithUnique(s: string, a: string, c: char, b: string)
    requires OpensWith(s, a, c, b)
    ensures c in s
    ensures a == Split(s, c)[0] && b == Split(s, c)[1]
  {
    OpensWithFields(s, a, c, b);
    var i := IndexOf(s, c);
    assert Split(s, c) == [s[..i]] + Split(s[i + 1..], c);
  }

  /** Fields 0 and 1 are determined by `OpensWith`. */
  lemma OpensWithFields(s: string, a: string, c: char, b: string)
    requires OpensWith(s, a, c, b)
    ensures c in s
    ensures a == s[..IndexOf(s, c)]
    ensures b == Split(s[IndexOf(s, c) + 1..], c)[0]
  {
    var n := |a| + 1 + |b|;
    var front := s[..n];
    assert front[..|a|] == a && front[|a|] == c && front[|a| + 1..] == b;
    assert s[..|a|] == a && s[|a|] == c;
    IndexOfIs(s, c, |a|);
    FieldAfter(s[|a| + 1..], c, b);
  }

  /** A separator-free prefix `b` of `tail` that ends at a separator or at the end of
      `tail` is its first field. */
  lemma FieldAfter(tail: string, c: char, b: string)
    requires c !in b && |b| <= |tail| && tail[..|b|] == b
    requires |b| == |tail| || tail[|b|] == c
    ensures b == Split(tail, c)[0]
  {
    SplitFirst(tail, c);
    if |b| < |tail| {
      IndexOfIs(tail, c, |b|);
    } else {
      assert tail == b;
    }
  }
}
