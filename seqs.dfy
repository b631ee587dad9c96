/** Sequence operations the source uses through JavaScript's array methods:
    `filter`, de-duplication through a `Set`, and the subsequence relation
    that states what a filter keeps. */
module Seqs {

  /** `xs.filter(p)`: the elements of `s` that satisfy `p`, in order. */
  function Filter<T>(p: T -> bool, s: seq<T>): (r: seq<T>)
    ensures |r| <= |s|
    ensures forall i :: 0 <= i < |r| ==> p(r[i])
    ensures |r| == |s| <==> forall i :: 0 <= i < |s| ==> p(s[i])
  {
    if s == [] then []
    else if p(s[0]) then [s[0]] + Filter(p, s[1..])
    else Filter(p, s[1..])
  }

  /** `a` is obtained from `b` by deleting elements, keeping the order. */
  predicate IsSubsequence<T(==)>(a: seq<T>, b: seq<T>)
    decreases |b|
  {
    if a == [] then true
    else if b == [] then false
    else if a[0] == b[0] then IsSubsequence(a[1..], b[1..])
    else IsSubsequence(a, b[1..])
  }

  predicate Distinct<T(==)>(s: seq<T>) {
    forall i, j :: 0 <= i < j < |s| ==> s[i] != s[j]
  }

  /** A filter keeps the order of what it keeps. */
  lemma {:induction false} FilterIsSubsequence<T>(p: T -> bool, s: seq<T>)
    ensures IsSubsequence(Filter(p, s), s)
  {
    if s != [] {
      FilterIsSubsequence(p, s[1..]);
      var r := Filter(p, s[1..]);
      if !p(s[0]) && r != [] {
        assert r[0] != s[0];
      }
    }
  }

  /** A filter keeps every copy of a kept element: it drops nothing that satisfies `p`. */
  lemma {:induction false} FilterMultiplicity<T>(p: T -> bool, s: seq<T>, x: T)
    ensures multiset(Filter(p, s))[x] == if p(x) then multiset(s)[x] else 0
  {
    if s != [] {
      FilterMultiplicity(p, s[1..], x);
      assert s == [s[0]] + s[1..];
    }
  }

  /** A test every element passes keeps the whole sequence. */
  lemma {:induction false} FilterKeepsAll<T>(p: T -> bool, s: seq<T>)
    requires forall i :: 0 <= i < |s| ==> p(s[i])
    ensures Filter(p, s) == s
  {
    if s != [] {
      FilterKeepsAll(p, s[1..]);
      assert s == [s[0]] + s[1..];
    }
  }

  /** Everything a filter keeps comes from its input. */
  lemma {:induction false} FilterTakesFrom<T>(p: T -> bool, s: seq<T>)
    ensures forall i :: 0 <= i < |Filter(p, s)| ==> Filter(p, s)[i] in s
  {
    if s != [] {
      FilterTakesFrom(p, s[1..]);
      assert forall x :: x in s[1..] ==> x in s;
    }
  }

  /** Two filters in a row keep the order of what they keep. */
  lemma {:induction false} FilterTwiceIsSubsequence<T>(p: T -> bool, q: T -> bool, s: seq<T>)
    ensures IsSubsequence(Filter(q, Filter(p, s)), s)
  {
    if s != [] {
      FilterTwiceIsSubsequence(p, q, s[1..]);
      var inner := Filter(p, s[1..]);
      var r := Filter(q, inner);
      if p(s[0]) {
        assert Filter(p, s) == [s[0]] + inner;
        assert ([s[0]] + inner)[1..] == inner;
        if !q(s[0]) && r != [] {
          assert r[0] != s[0];
        }
      } else if r != [] {
        FilterTakesFrom(q, inner);
        assert r[0] in inner;
        assert r[0] != s[0];
      }
    }
  }

  /** `[...new Set(s)]`: every value of `s` once, in the order of `s`. */
  function Dedup<T(==)>(s: seq<T>): (r: seq<T>)
    ensures Distinct(r)
    ensures forall i :: 0 <= i < |r| ==> r[i] in s
    ensures forall i :: 0 <= i < |s| ==> s[i] in r
    ensures |r| <= |s|
  {
    if s == [] then []
    else
      var d := Dedup(s[..|s| - 1]);
      var last := s[|s| - 1];
      assert forall i :: 0 <= i < |s| - 1 ==> s[i] == s[..|s| - 1][i];
      if last in d then d else d + [last]
  }

  /** De-duplication keeps the input's order: the result is a subsequence of it. */
  lemma {:induction false} DedupIsSubsequence<T>(s: seq<T>)
    ensures IsSubsequence(Dedup(s), s)
  {
    if s != [] {
      var init := s[..|s| - 1];
      DedupIsSubsequence(init);
      assert s == init + [s[|s| - 1]];
      if s[|s| - 1] in Dedup(init) {
        SubsequenceAppendRight(Dedup(init), init, [s[|s| - 1]]);
      } else {
        SubsequenceAppendBoth(Dedup(init), init, s[|s| - 1]);
      }
    }
  }

  lemma {:induction false} SubsequenceAppendRight<T>(a: seq<T>, b: seq<T>, c: seq<T>)
    requires IsSubsequence(a, b)
    ensures IsSubsequence(a, b + c)
    decreases |b|
  {
    if a != [] {
      assert b != [];
      assert (b + c)[1..] == b[1..] + c;
      if a[0] == b[0] {
        SubsequenceAppendRight(a[1..], b[1..], c);
      } else {
        SubsequenceAppendRight(a, b[1..], c);
      }
    }
  }

  lemma {:induction false} SubsequenceAppendBoth<T>(a: seq<T>, b: seq<T>, x: T)
    requires IsSubsequence(a, b)
    ensures IsSubsequence(a + [x], b + [x])
    decreases |b|
  {
    if a == [] {
      SubsequenceOfSelf([x]);
      SubsequenceAppendLeft([x], [x], b);
      assert a + [x] == [x];
    } else {
      assert b != [];
      assert (a + [x])[1..] == a[1..] + [x];
      assert (b + [x])[1..] == b[1..] + [x];
      if a[0] == b[0] {
        SubsequenceAppendBoth(a[1..], b[1..], x);
      } else {
        SubsequenceAppendBoth(a, b[1..], x);
      }
    }
  }

  lemma {:induction false} SubsequenceOfSelf<T>(s: seq<T>)
    ensures IsSubsequence(s, s)
  {
    if s != [] {
      SubsequenceOfSelf(s[1..]);
    }
  }

  lemma {:induction false} SubsequenceAppendLeft<T>(a: seq<T>, b: seq<T>, c: seq<T>)
    requires IsSubsequence(a, b)
    ensures IsSubsequence(a, c + b)
    decreases |c|
  {
    if c == [] {
      assert c + b == b;
    } else {
      SubsequenceAppendLeft(a, b, c[1..]);
      SubsequenceWeaken(a, c[1..] + b, c[0]);
      assert [c[0]] + (c[1..] + b) == c + b;
    }
  }

  /** A subsequence of the tail of `s` with the same head element need not use `s[0]`. */
  lemma {:induction false} SubsequenceDropHead<T>(a: seq<T>, b: seq<T>)
    requires a != [] && IsSubsequence(a, b)
    ensures IsSubsequence(a[1..], b)
    decreases |b|, 0
  {
    assert b != [];
    if a[0] == b[0] {
      SubsequenceWeaken(a[1..], b[1..], b[0]);
    } else {
      SubsequenceDropHead(a, b[1..]);
      SubsequenceWeaken(a[1..], b[1..], b[0]);
    }
  }

  lemma {:induction false} SubsequenceWeaken<T>(a: seq<T>, b: seq<T>, x: T)
    requires IsSubsequence(a, b)
    ensures IsSubsequence(a, [x] + b)
    decreases |b|, 1
  {
    assert ([x] + b)[1..] == b;
    if a != [] && a[0] == x {
      SubsequenceDropHead(a, b);
    }
  }
}
