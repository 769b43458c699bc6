/** `Array.prototype.filter` over a sequence, and what it promises: the kept
    elements, every one of them, in their original order. */
module JsArray {

  /** `s.filter(keep)`. */
  function Filter<T(!new)>(s: seq<T>, keep: T -> bool): (r: seq<T>)
    ensures |r| <= |s|
    ensures forall x :: x in r <==> x in s && keep(x)
  {
    if s == [] then []
    else (if keep(s[0]) then [s[0]] else []) + Filter(s[1..], keep)
  }

  /** `r` is `s` with some elements left out and the others in order. */
  predicate IsSubsequence<T(==)>(r: seq<T>, s: seq<T>)
    decreases |s|
  {
    if r == [] then true
    else if s == [] then false
    else (r[0] == s[0] && IsSubsequence(r[1..], s[1..])) || IsSubsequence(r, s[1..])
  }

  /** Filtering preserves the order of the elements it keeps. */
  lemma {:induction false} FilterIsSubsequence<T(!new)>(s: seq<T>, keep: T -> bool)
    ensures IsSubsequence(Filter(s, keep), s)
  {
    if s != [] {
      var rest := Filter(s[1..], keep);
      FilterIsSubsequence(s[1..], keep);
      if keep(s[0]) {
        assert Filter(s, keep) == [s[0]] + rest;
        assert ([s[0]] + rest)[1..] == rest;
      } else {
        assert Filter(s, keep) == rest;
      }
    }
  }

  /** Filtering keeps every occurrence of a kept element and none of the
      others. */
  lemma {:induction false} FilterMultiplicity<T(!new)>(s: seq<T>, keep: T -> bool, x: T)
    ensures multiset(Filter(s, keep))[x] == if keep(x) then multiset(s)[x] else 0
  {
    if s != [] {
      FilterMultiplicity(s[1..], keep, x);
      assert s == [s[0]] + s[1..];
      assert multiset(s) == multiset([s[0]]) + multiset(s[1..]);
      var head := if keep(s[0]) then [s[0]] else [];
      assert multiset(Filter(s, keep)) == multiset(head) + multiset(Filter(s[1..], keep));
    }
  }

  /** Filtering distributes over concatenation. */
  lemma {:induction false} FilterAppend<T(!new)>(s: seq<T>, u: seq<T>, keep: T -> bool)
    ensures Filter(s + u, keep) == Filter(s, keep) + Filter(u, keep)
  {
    if s == [] {
      assert s + u == u;
    } else {
      var head := if keep(s[0]) then [s[0]] else [];
      assert (s + u)[0] == s[0];
      assert (s + u)[1..] == s[1..] + u;
      FilterAppend(s[1..], u, keep);
      calc {
        Filter(s + u, keep);
        head + Filter(s[1..] + u, keep);
        head + (Filter(s[1..], keep) + Filter(u, keep));
        (head + Filter(s[1..], keep)) + Filter(u, keep);
      }
    }
  }

  /** A sequence whose elements are all kept is its own filtering. */
  lemma {:induction false} FilterAllKept<T(!new)>(s: seq<T>, keep: T -> bool)
    requires forall x :: x in s ==> keep(x)
    ensures Filter(s, keep) == s
  {
    if s != [] {
      FilterAllKept(s[1..], keep);
      assert s == [s[0]] + s[1..];
    }
  }

  /** A sequence none of whose elements is kept filters to nothing. */
  lemma {:induction false} FilterNoneKept<T(!new)>(s: seq<T>, keep: T -> bool)
    requires forall x :: x in s ==> !keep(x)
    ensures Filter(s, keep) == []
  {
    if s != [] {
      FilterNoneKept(s[1..], keep);
    }
  }

  /** Filtering by a narrower test after a wider one is filtering by the
      narrower test alone; with `narrow == wide` this is idempotence. */
  lemma {:induction false} FilterNarrowing<T(!new)>(s: seq<T>, wide: T -> bool, narrow: T -> bool)
    requires forall x :: narrow(x) ==> wide(x)
    ensures Filter(Filter(s, wide), narrow) == Filter(s, narrow)
  {
    if s != [] {
      FilterNarrowing(s[1..], wide, narrow);
      var rest := Filter(s[1..], wide);
      var head := if narrow(s[0]) then [s[0]] else [];
      assert Filter(s, narrow) == head + Filter(s[1..], narrow);
      if wide(s[0]) {
        assert Filter(s, wide) == [s[0]] + rest;
        FilterAppend([s[0]], rest, narrow);
        assert Filter([s[0]], narrow) == head + Filter([], narrow);
      } else {
        assert Filter(s, wide) == rest;
        assert head == [];
      }
    }
  }
}
