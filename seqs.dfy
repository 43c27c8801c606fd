/** Sequence operations shared by the SQL queries and the React pages:
    JavaScript's `Array.prototype.filter`, a SQL join written as a filter-map,
    and `ORDER BY key DESC`. */
module Seqs {
  import opened Wrappers

  /** `xs.filter(keep)`: the elements that satisfy `keep`, in their original order. */
  function Filter<T(!new)>(xs: seq<T>, keep: T -> bool): (r: seq<T>)
    ensures |r| <= |xs|
    ensures forall x :: x in r <==> x in xs && keep(x)
  {
    if xs == [] then []
    else (if keep(xs[0]) then [xs[0]] else []) + Filter(xs[1..], keep)
  }

  /** Filtering keeps every kept element as often as it occurs, and drops the others. */
  lemma {:induction false} FilterMultiset<T(!new)>(xs: seq<T>, keep: T -> bool)
    ensures forall x :: multiset(Filter(xs, keep))[x] == if keep(x) then multiset(xs)[x] else 0
  {
    if xs != [] {
      FilterMultiset(xs[1..], keep);
      assert xs == [xs[0]] + xs[1..];
      var head := if keep(xs[0]) then [xs[0]] else [];
      assert Filter(xs, keep) == head + Filter(xs[1..], keep);
    }
  }

  /** `xs.map(f)`. */
  function Map<T, U>(f: T -> U, xs: seq<T>): (r: seq<U>)
    ensures |r| == |xs|
    ensures forall i :: 0 <= i < |xs| ==> r[i] == f(xs[i])
  {
    seq(|xs|, i requires 0 <= i < |xs| => f(xs[i]))
  }

  /** Mapping works part by part. */
  lemma MapAppend<T, U>(f: T -> U, xs: seq<T>, ys: seq<T>)
    ensures Map(f, xs + ys) == Map(f, xs) + Map(f, ys)
  {
    assert forall i :: 0 <= i < |ys| ==> (xs + ys)[|xs| + i] == ys[i];
  }

  /** `a` is obtained from `b` by deleting elements, without reordering. */
  ghost predicate SubsequenceOf<T>(a: seq<T>, b: seq<T>)
    decreases |b|
  {
    if a == [] then true
    else if b == [] then false
    else (a[0] == b[0] && SubsequenceOf(a[1..], b[1..])) || SubsequenceOf(a, b[1..])
  }

  lemma {:induction false} FilterIsSubsequence<T(!new)>(xs: seq<T>, keep: T -> bool)
    ensures SubsequenceOf(Filter(xs, keep), xs)
  {
    if xs != [] {
      FilterIsSubsequence(xs[1..], keep);
      var rest := Filter(xs[1..], keep);
      if keep(xs[0]) {
        assert Filter(xs, keep) == [xs[0]] + rest;
        assert ([xs[0]] + rest)[1..] == rest;
      } else {
        assert Filter(xs, keep) == rest;
        if rest != [] {
          assert SubsequenceOf(rest, xs[1..]);
        }
      }
    }
  }

  /** Filtering with a predicate that holds everywhere keeps every element. */
  lemma {:induction false} FilterKeepsAll<T(!new)>(xs: seq<T>, keep: T -> bool)
    requires forall x :: x in xs ==> keep(x)
    ensures Filter(xs, keep) == xs
  {
    if xs != [] {
      assert xs[0] in xs;
      assert forall x :: x in xs[1..] ==> x in xs;
      FilterKeepsAll(xs[1..], keep);
      assert [xs[0]] + xs[1..] == xs;
    }
  }

  /** Filtering with a predicate that holds nowhere keeps nothing. */
  lemma {:induction false} FilterKeepsNone<T(!new)>(xs: seq<T>, keep: T -> bool)
    requires forall x :: x in xs ==> !keep(x)
    ensures Filter(xs, keep) == []
  {
    if xs != [] {
      assert xs[0] in xs;
      assert forall x :: x in xs[1..] ==> x in xs;
      FilterKeepsNone(xs[1..], keep);
    }
  }

  /** A predicate and its negation split a sequence: the two filtered lengths add up. */
  lemma {:induction false} FilterPartition<T(!new)>(xs: seq<T>, keep: T -> bool, drop: T -> bool)
    requires forall x :: drop(x) == !keep(x)
    ensures |Filter(xs, keep)| + |Filter(xs, drop)| == |xs|
  {
    if xs != [] {
      FilterPartition(xs[1..], keep, drop);
    }
  }

  /** Elementwise characterisation of the filtered sequence when the predicate
      depends on one element at a time: the filter of a prefix extended by one. */
  lemma {:induction false} FilterSnoc<T(!new)>(xs: seq<T>, x: T, keep: T -> bool)
    ensures Filter(xs + [x], keep) == Filter(xs, keep) + (if keep(x) then [x] else [])
  {
    if xs == [] {
      assert [x][1..] == [];
    } else {
      assert (xs + [x])[0] == xs[0];
      assert (xs + [x])[1..] == xs[1..] + [x];
      FilterSnoc(xs[1..], x, keep);
      var head := if keep(xs[0]) then [xs[0]] else [];
      var tail := if keep(x) then [x] else [];
      var mid := Filter(xs[1..], keep);
      assert Filter(xs + [x], keep) == head + (mid + tail);
      assert head + (mid + tail) == (head + mid) + tail;
    }
  }

  /** Filtering depends only on what the predicate says about the elements present. */
  lemma {:induction false} FilterCongruent<T(!new)>(xs: seq<T>, p: T -> bool, q: T -> bool)
    requires forall x :: x in xs ==> p(x) == q(x)
    ensures Filter(xs, p) == Filter(xs, q)
  {
    if xs != [] {
      assert xs[0] in xs;
      assert forall x :: x in xs[1..] ==> x in xs;
      FilterCongruent(xs[1..], p, q);
    }
  }

  /** Filtering with the union of two predicates that never hold together keeps
      as many elements as the two filters together. */
  lemma {:induction false} FilterDisjointUnion<T(!new)>(xs: seq<T>, p: T -> bool, q: T -> bool, either: T -> bool)
    requires forall x :: either(x) == (p(x) || q(x))
    requires forall x :: !(p(x) && q(x))
    ensures |Filter(xs, either)| == |Filter(xs, p)| + |Filter(xs, q)|
  {
    if xs != [] {
      FilterDisjointUnion(xs[1..], p, q, either);
    }
  }

  /** Mapping with a function the predicate cannot tell apart from the identity
      commutes with filtering. */
  lemma {:induction false} FilterMapCommute<T(!new)>(xs: seq<T>, f: T -> T, keep: T -> bool)
    requires forall x :: keep(f(x)) == keep(x)
    ensures Filter(Map(f, xs), keep) == Map(f, Filter(xs, keep))
  {
    if xs != [] {
      var ys := Map(f, xs);
      assert ys[1..] == Map(f, xs[1..]);
      FilterMapCommute(xs[1..], f, keep);
      var head := if keep(xs[0]) then [xs[0]] else [];
      assert Filter(xs, keep) == head + Filter(xs[1..], keep);
      MapAppend(f, head, Filter(xs[1..], keep));
      assert Map(f, head) == if keep(xs[0]) then [f(xs[0])] else [];
    }
  }

  /** A SQL inner join written as a filter-map: every element is mapped to at
      most one output row, in order. */
  function FilterMap<T(!new), U(!new)>(xs: seq<T>, f: T -> Option<U>): (r: seq<U>)
    ensures |r| <= |xs|
    ensures forall y :: y in r <==> exists x :: x in xs && f(x) == Some(y)
  {
    if xs == [] then []
    else
      var rest := FilterMap(xs[1..], f);
      assert forall x :: x in xs[1..] ==> x in xs;
      assert forall x :: x in xs ==> x == xs[0] || x in xs[1..];
      match f(xs[0])
      case Some(y) => [y] + rest
      case None => rest
  }

  /** The elements that `f` maps to something. */
  function HasImage<T, U>(f: T -> Option<U>): T -> bool { (x: T) => f(x).Some? }

  /** The elements that `f` maps to `y`. */
  ghost function MapsTo<T, U>(f: T -> Option<U>, y: U): T -> bool { (x: T) => f(x) == Some(y) }

  /** A filter-map has one output per element with an image, and each output
      as often as elements map to it. */
  lemma {:induction false} FilterMapCount<T(!new), U(!new)>(xs: seq<T>, f: T -> Option<U>)
    ensures |FilterMap(xs, f)| == |Filter(xs, HasImage(f))|
    ensures forall y :: multiset(FilterMap(xs, f))[y] == |Filter(xs, MapsTo(f, y))|
  {
    if xs != [] {
      FilterMapCount(xs[1..], f);
      var r := FilterMap(xs, f);
      var rest := FilterMap(xs[1..], f);
      assert r == if f(xs[0]).Some? then [f(xs[0]).value] + rest else rest;
      forall y
        ensures multiset(r)[y] == |Filter(xs, MapsTo(f, y))|
      {
        assert |Filter(xs, MapsTo(f, y))| == (if f(xs[0]) == Some(y) then 1 else 0) + |Filter(xs[1..], MapsTo(f, y))|;
      }
    }
  }

  /** A filter-map of a sequence extended by one element. */
  lemma {:induction false} FilterMapSnoc<T(!new), U(!new)>(xs: seq<T>, x: T, f: T -> Option<U>)
    ensures FilterMap(xs + [x], f) == FilterMap(xs, f) + (if f(x).Some? then [f(x).value] else [])
  {
    if xs == [] {
      assert [x][1..] == [];
    } else {
      assert (xs + [x])[0] == xs[0];
      assert (xs + [x])[1..] == xs[1..] + [x];
      FilterMapSnoc(xs[1..], x, f);
    }
  }

  /** Every element of `xs` has a key at least that of every later element. */
  ghost predicate SortedDesc<T>(xs: seq<T>, key: T -> int) {
    forall i, j :: 0 <= i < j < |xs| ==> key(xs[i]) >= key(xs[j])
  }

  /** Inserts `x` after every leading element whose key is at least `key(x)`;
      into a sequence sorted by descending key, this keeps it sorted. */
  function InsertDesc<T(==)>(x: T, xs: seq<T>, key: T -> int): (r: seq<T>)
    ensures SortedDesc(xs, key) ==> SortedDesc(r, key)
    ensures multiset(r) == multiset(xs) + multiset{x}
    ensures |r| == |xs| + 1
    ensures r[0] == x || (xs != [] && r[0] == xs[0])
  {
    if xs == [] then [x]
    else if key(xs[0]) >= key(x) then
      var rest := InsertDesc(x, xs[1..], key);
      BehindSorted(x, xs, rest, key);
      ConsMultiset(xs, rest, x);
      [xs[0]] + rest
    else
      FrontSorted(x, xs, key);
      [x] + xs
  }

  /** Behind a head whose key is at least that of `x`, the insertion into a
      sorted tail keeps the whole sorted. */
  lemma BehindSorted<T>(x: T, xs: seq<T>, rest: seq<T>, key: T -> int)
    requires xs != [] && key(xs[0]) >= key(x) && rest != []
    requires rest[0] == x || (xs[1..] != [] && rest[0] == xs[1..][0])
    requires SortedDesc(xs[1..], key) ==> SortedDesc(rest, key)
    ensures SortedDesc(xs, key) ==> SortedDesc([xs[0]] + rest, key)
  {
    if SortedDesc(xs, key) {
      assert SortedDesc(xs[1..], key);
      ConsSorted(xs[0], rest, key);
    }
  }

  /** An element with a key above the head's keeps a sorted sequence sorted in front. */
  lemma FrontSorted<T>(x: T, xs: seq<T>, key: T -> int)
    requires xs != [] && key(xs[0]) < key(x)
    ensures SortedDesc(xs, key) ==> SortedDesc([x] + xs, key)
  {
    if SortedDesc(xs, key) {
      ConsSorted(x, xs, key);
    }
  }

  /** Putting the head back in front of the tail with `x` inserted adds `x`. */
  lemma ConsMultiset<T>(xs: seq<T>, rest: seq<T>, x: T)
    requires xs != [] && multiset(rest) == multiset(xs[1..]) + multiset{x}
    ensures multiset([xs[0]] + rest) == multiset(xs) + multiset{x}
  {
    assert xs == [xs[0]] + xs[1..];
  }

  /** An element with a key at least that of the first element keeps a sorted
      sequence sorted when put in front. */
  lemma ConsSorted<T>(h: T, xs: seq<T>, key: T -> int)
    requires SortedDesc(xs, key) && (xs == [] || key(h) >= key(xs[0]))
    ensures SortedDesc([h] + xs, key)
  {
    var r := [h] + xs;
    forall i, j | 0 <= i < j < |r|
      ensures key(r[i]) >= key(r[j])
    {
      assert r[j] == xs[j - 1];
      if i > 0 {
        assert r[i] == xs[i - 1];
      } else if j > 1 {
        assert key(xs[0]) >= key(xs[j - 1]);
      }
    }
  }

  /** `ORDER BY key DESC`: a permutation of `xs` in descending key order. */
  function SortDesc<T(==)>(xs: seq<T>, key: T -> int): (r: seq<T>)
    ensures SortedDesc(r, key)
    ensures multiset(r) == multiset(xs)
    ensures |r| == |xs|
  {
    if xs == [] then []
    else
      assert xs == [xs[0]] + xs[1..];
      InsertDesc(xs[0], SortDesc(xs[1..], key), key)
  }

  /** Inserting commutes with a key-preserving map. */
  lemma {:induction false} InsertMapCommute<T>(x: T, xs: seq<T>, f: T -> T, key: T -> int)
    requires forall y :: key(f(y)) == key(y)
    ensures InsertDesc(f(x), Map(f, xs), key) == Map(f, InsertDesc(x, xs, key))
  {
    if xs != [] {
      if key(xs[0]) >= key(x) {
        InsertMapCommute(x, xs[1..], f, key);
        InsertMapBehind(x, xs, f, key);
      } else {
        InsertMapFront(x, xs, f, key);
      }
    }
  }

  /** The inserted element goes first, before and after mapping. */
  lemma InsertMapFront<T>(x: T, xs: seq<T>, f: T -> T, key: T -> int)
    requires forall y :: key(f(y)) == key(y)
    requires xs != [] && key(xs[0]) < key(x)
    ensures InsertDesc(f(x), Map(f, xs), key) == Map(f, InsertDesc(x, xs, key))
  {
    var ys := Map(f, xs);
    assert key(ys[0]) < key(f(x));
    assert Map(f, [x] + xs) == [f(x)] + ys;
  }

  /** The inserted element goes behind the first one, before and after
      mapping, so commuting on the rest commutes on the whole. */
  lemma InsertMapBehind<T>(x: T, xs: seq<T>, f: T -> T, key: T -> int)
    requires xs != [] && key(xs[0]) >= key(x)
    requires forall y :: key(f(y)) == key(y)
    requires InsertDesc(f(x), Map(f, xs[1..]), key) == Map(f, InsertDesc(x, xs[1..], key))
    ensures InsertDesc(f(x), Map(f, xs), key) == Map(f, InsertDesc(x, xs, key))
  {
    var ys := Map(f, xs);
    var rest := InsertDesc(x, xs[1..], key);
    MapTail(f, xs);
    MapCons(f, xs[0], rest);
    assert ys[0] == f(xs[0]) && key(ys[0]) >= key(f(x));
    assert InsertDesc(x, xs, key) == [xs[0]] + rest;
    assert InsertDesc(f(x), ys, key) == [ys[0]] + InsertDesc(f(x), ys[1..], key);
  }

  lemma MapCons<T, U>(f: T -> U, x: T, xs: seq<T>)
    ensures Map(f, [x] + xs) == [f(x)] + Map(f, xs)
  {
  }

  lemma MapTail<T, U>(f: T -> U, xs: seq<T>)
    requires xs != []
    ensures Map(f, xs)[1..] == Map(f, xs[1..])
  {
  }

  /** Sorting commutes with a key-preserving map: the sort is stable enough
      that changing a field other than the key changes nothing else. */
  lemma {:induction false} SortMapCommute<T>(xs: seq<T>, f: T -> T, key: T -> int)
    requires forall y :: key(f(y)) == key(y)
    ensures SortDesc(Map(f, xs), key) == Map(f, SortDesc(xs, key))
  {
    if xs != [] {
      var ys := Map(f, xs);
      assert ys[1..] == Map(f, xs[1..]);
      SortMapCommute(xs[1..], f, key);
      InsertMapCommute(xs[0], SortDesc(xs[1..], key), f, key);
    }
  }

  /** A permutation has the same elements. */
  lemma SameElements<T>(xs: seq<T>, ys: seq<T>)
    requires multiset(xs) == multiset(ys)
    ensures forall x :: x in xs <==> x in ys
  {
    forall x ensures x in xs <==> x in ys {
      assert x in xs <==> x in multiset(xs);
      assert x in ys <==> x in multiset(ys);
    }
  }
}
