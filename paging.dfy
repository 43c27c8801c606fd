/** Client-side pagination as the React pages compute it:
    `items.slice((page - 1) * size, page * size)` for page `page` (counted from 1)
    and `Math.ceil(items.length / size)` pages. */
module Paging {

  function Min(a: int, b: int): int { if a <= b then a else b }

  lemma MulMonotone(a: int, b: int, k: nat)
    requires a <= b
    ensures a * k <= b * k
  {
    assert b * k == a * k + (b - a) * k;
  }

  /** `Math.ceil(n / size)` for a whole number of items and a positive page size:
      the fewest pages of `size` that hold `n` items. */
  function CeilDiv(n: nat, size: nat): (r: nat)
    requires size > 0
    ensures n <= r * size < n + size
  {
    var q := (n + size - 1) / size;
    assert (n + size - 1) == q * size + (n + size - 1) % size;
    q
  }

  /** `Math.max(1, Math.ceil(n / size))`: the page count of a list that always
      shows at least one, possibly empty, page. */
  function ClampedPageCount(n: nat, size: nat): (r: nat)
    requires size > 0
    ensures r >= 1 && r >= CeilDiv(n, size)
    ensures n == 0 ==> r == 1
    ensures n > 0 ==> (r - 1) * size < n <= r * size
  {
    var c := CeilDiv(n, size);
    if c < 1 then 1 else c
  }

  /** How `Array.prototype.slice` turns an index argument into a position in
      `0..len`: a negative index counts from the end, and both ends are clamped. */
  function SliceIndex(k: int, len: nat): (r: nat)
    ensures r <= len
    ensures 0 <= k <= len ==> r == k
    ensures k > len ==> r == len
  {
    if k < 0 then (if len + k < 0 then 0 else len + k)
    else if k > len then len
    else k
  }

  /** `xs.slice(start, end)`. */
  function Slice<T>(xs: seq<T>, start: int, end: int): (r: seq<T>)
    ensures 0 <= start <= end ==> r == xs[Min(start, |xs|)..Min(end, |xs|)]
  {
    var a := SliceIndex(start, |xs|);
    var b := SliceIndex(end, |xs|);
    if a < b then xs[a..b] else []
  }

  /** The items shown on page `page` when each page holds `size` items. */
  function PageOf<T>(xs: seq<T>, page: int, size: nat): (r: seq<T>)
    ensures page >= 1 ==> r == xs[Min((page - 1) * size, |xs|)..Min(page * size, |xs|)]
  {
    assert page >= 1 ==> 0 <= (page - 1) * size <= page * size;
    Slice(xs, (page - 1) * size, page * size)
  }

  /** A page never holds more than `size` items, and its `k`-th item is item
      `(page - 1) * size + k` of the whole list. */
  lemma PageContents<T>(xs: seq<T>, page: int, size: nat)
    requires page >= 1
    ensures |PageOf(xs, page, size)| <= size
    ensures forall k :: 0 <= k < |PageOf(xs, page, size)| ==>
              (page - 1) * size + k < |xs| && PageOf(xs, page, size)[k] == xs[(page - 1) * size + k]
  {
    var lo := (page - 1) * size;
    assert page * size == lo + size;
    Window(xs, lo, page * size);
  }

  /** The stretch `lo..hi` of a list, clamped to its length, holds at most
      `hi - lo` items, item `k` of it being item `lo + k` of the list. */
  lemma Window<T>(xs: seq<T>, lo: nat, hi: nat)
    requires lo <= hi
    ensures var w := xs[Min(lo, |xs|)..Min(hi, |xs|)];
            && |w| <= hi - lo
            && forall k :: 0 <= k < |w| ==> lo + k < |xs| && w[k] == xs[lo + k]
  {
  }

  /** A page past the last one is empty. */
  lemma PageBeyondLast<T>(xs: seq<T>, page: int, size: nat)
    requires size > 0 && page > CeilDiv(|xs|, size)
    ensures PageOf(xs, page, size) == []
  {
    var c := CeilDiv(|xs|, size);
    MulMonotone(c, page - 1, size);
    assert page * size == (page - 1) * size + size;
  }

  /** The concatenation of pages `1..count`. */
  function Pages<T>(xs: seq<T>, size: nat, count: nat): seq<T>
  {
    if count == 0 then [] else Pages(xs, size, count - 1) + PageOf(xs, count, size)
  }

  /** Pages `1..count` together are the first `count * size` items. */
  lemma {:induction false} PagesPrefix<T>(xs: seq<T>, size: nat, count: nat)
    ensures Pages(xs, size, count) == xs[..Min(count * size, |xs|)]
  {
    if count > 0 {
      var lo := (count - 1) * size;
      var hi := count * size;
      assert hi == lo + size;
      var a := Min(lo, |xs|);
      var b := Min(hi, |xs|);
      PagesPrefix(xs, size, count - 1);
      assert Pages(xs, size, count) == xs[..a] + xs[a..b];
      PrefixSplit(xs, a, b);
    }
  }

  lemma PrefixSplit<T>(xs: seq<T>, a: nat, b: nat)
    requires a <= b <= |xs|
    ensures xs[..a] + xs[a..b] == xs[..b]
  {
  }

  /** Pages `1..count` together are the whole list once `count` reaches the
      number of pages. */
  lemma PagesCoverAll<T>(xs: seq<T>, size: nat, count: nat)
    requires size > 0 && count >= CeilDiv(|xs|, size)
    ensures Pages(xs, size, count) == xs
  {
    PagesPrefix(xs, size, count);
    MulMonotone(CeilDiv(|xs|, size), count, size);
  }

  /** Item `i` is shown on page `i / size + 1`, which is one of the pages. */
  lemma ItemOnItsPage<T>(xs: seq<T>, size: nat, i: nat)
    requires size > 0 && i < |xs|
    ensures 1 <= i / size + 1 <= CeilDiv(|xs|, size)
    ensures i % size < |PageOf(xs, i / size + 1, size)|
    ensures PageOf(xs, i / size + 1, size)[i % size] == xs[i]
  {
    var p := i / size;
    assert i == p * size + i % size;
    var c := CeilDiv(|xs|, size);
    assert p * size <= i < |xs| <= c * size;
    assert p < c;
    PageContents(xs, p + 1, size);
    assert (p + 1) * size == p * size + size;
  }
}
