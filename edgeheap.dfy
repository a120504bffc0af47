/**
 * The complete graph of the short-tour construction: one edge per pair of
 * points i < j, keyed by their squared distance, kept in an array as a binary
 * min-heap (parent of slot c is slot (c-1)/2). Building it inserts with a
 * sift-up; the greedy loop pops the shortest edge with a sift-down.
 */
module EdgeHeap {
  import opened Ints
  import opened PointsList

  datatype Edge = Edge(src: nat, dst: nat, squareDist: u32)

  /** Absolute difference of two 16-bit coordinates. */
  function Delta(a: u16, b: u16): (r: u16)
    ensures r == 0 <==> a == b
    ensures a + r == b || b + r == a
  {
    if a < b then b - a else a - b
  }

  /** Squared distance, computed in wrapping 32-bit arithmetic as the source does. */
  function Sqd(p: Point, q: Point): (r: u32)
    ensures p == q ==> r == 0
    ensures r <= Delta(p.x, q.x) * Delta(p.x, q.x) + Delta(p.y, q.y) * Delta(p.y, q.y)
  {
    var dx: int := Delta(p.x, q.x);
    var dy: int := Delta(p.y, q.y);
    Wrap32(dx * dx + dy * dy)
  }

  /** The key is symmetric and zero from a point to itself. */
  lemma SqdSymmetric(p: Point, q: Point)
    ensures Sqd(p, q) == Sqd(q, p)
    ensures Sqd(p, p) == 0
  {
  }

  /** When both coordinate differences are at most 46340, no wrap-around occurs. */
  lemma SqdExact(p: Point, q: Point)
    requires Delta(p.x, q.x) <= 46340 && Delta(p.y, q.y) <= 46340
    ensures Sqd(p, q) == Delta(p.x, q.x) * Delta(p.x, q.x) + Delta(p.y, q.y) * Delta(p.y, q.y)
  {
    var dx: int := Delta(p.x, q.x);
    var dy: int := Delta(p.y, q.y);
    assert dx * dx <= 46340 * 46340 by { MulMono(dx, 46340); }
    assert dy * dy <= 46340 * 46340 by { MulMono(dy, 46340); }
  }

  lemma MulMono(a: nat, b: nat)
    requires a <= b
    ensures a * a <= b * b
  {
    assert a * a <= a * b;
    assert a * b <= b * b;
  }

  function Key(e: Edge): u32 { e.squareDist }

  /** Heap slot above slot `c`. */
  function Parent(c: nat): nat
    requires c > 0
  {
    (c - 1) / 2
  }

  /** Slot `c` is not below its parent. */
  ghost predicate Ordered(s: seq<Edge>, c: nat)
    requires 0 < c < |s|
  {
    Key(s[Parent(c)]) <= Key(s[c])
  }

  /** Binary min-heap order on a sequence of edges. */
  ghost predicate IsHeap(s: seq<Edge>) {
    forall c :: 0 < c < |s| ==> Ordered(s, c)
  }

  /** Heap order everywhere except between slot `h` and its parent. */
  ghost predicate HeapExcept(s: seq<Edge>, h: nat) {
    forall c :: 0 < c < |s| && c != h ==> Ordered(s, c)
  }

  /** The root of a heap holds a shortest edge. */
  lemma {:induction false} HeapRootIsMin(s: seq<Edge>, i: nat)
    requires IsHeap(s) && i < |s|
    ensures Key(s[0]) <= Key(s[i])
    decreases i
  {
    if i > 0 {
      assert Ordered(s, i);
      HeapRootIsMin(s, Parent(i));
    }
  }

  /** Swapping two slots keeps the multiset of a sequence. */
  lemma SwapMultiset(s: seq<Edge>, i: nat, j: nat, x: Edge)
    requires i < |s| && j < |s| && i != j
    ensures multiset(s[i := s[j]][j := x]) == multiset(s[i := x])
  {
    var t := s[i := x];
    assert s[i := s[j]][j := x] == t[i := s[j]][j := x];
    assert t[i := s[j]][j] == s[j];
    assert multiset(t[i := s[j]]) == multiset(t) - multiset{x} + multiset{s[j]};
  }

  /** The children of hole `h` are not below the parent of `h`. */
  ghost predicate HoleChildrenAbove(v: seq<Edge>, h: nat)
    requires 0 < h < |v|
  {
    (2 * h + 1 < |v| ==> Key(v[Parent(h)]) <= Key(v[2 * h + 1])) &&
    (2 * h + 2 < |v| ==> Key(v[Parent(h)]) <= Key(v[2 * h + 2]))
  }

  /** Sift-up state: `v` is a heap except between the hole `h` and its parent. */
  ghost predicate SiftUpState(v: seq<Edge>, h: nat) {
    h < |v| && HeapExcept(v, h) && (h > 0 ==> HoleChildrenAbove(v, h))
  }

  /** Appending an edge to a heap gives the initial sift-up state. */
  lemma SiftUpStart(a: seq<Edge>, e: Edge)
    requires IsHeap(a)
    ensures SiftUpState(a + [e], |a|)
  {
    var v := a + [e];
    forall c | 0 < c < |v| && c != |a|
      ensures Ordered(v, c)
    {
      assert Ordered(a, c);
    }
  }

  /** One sift-up step: the parent moves down into the hole, which moves up. */
  lemma SiftUpStep(v: seq<Edge>, sub: nat, e: Edge)
    requires SiftUpState(v, sub) && sub > 0 && v[sub] == e
    requires Key(v[Parent(sub)]) >= Key(e)
    ensures SiftUpState(v[sub := v[Parent(sub)]][Parent(sub) := e], Parent(sub))
  {
    var x := Parent(sub);
    var w := v[sub := v[x]][x := e];
    forall c | 0 < c < |v| && c != x
      ensures Ordered(w, c)
    {
      if c == sub {
      } else if Parent(c) == sub {
      } else {
        assert Ordered(v, c);
      }
    }
    if x > 0 {
      assert Ordered(v, x);
      if 2 * x + 1 < |v| && 2 * x + 1 != sub {
        assert Ordered(v, 2 * x + 1);
      }
      if 2 * x + 2 < |v| && 2 * x + 2 != sub {
        assert Ordered(v, 2 * x + 2);
      }
    }
  }

  /** Exchanging two slots keeps every edge within bounds. */
  lemma SwapWithin(v: seq<Edge>, i: nat, j: nat, n: nat)
    requires i < |v| && j < |v| && EdgesWithin(v, n)
    ensures EdgesWithin(v[i := v[j]][j := v[i]], n)
  {
  }

  /** A finished sift-up leaves a heap. */
  lemma SiftUpDone(v: seq<Edge>, sub: nat)
    requires SiftUpState(v, sub)
    requires sub > 0 ==> Key(v[Parent(sub)]) <= Key(v[sub])
    ensures IsHeap(v)
  {
  }

  /**
   * The array prefix `a` during a sift-up of `e` whose hole is at `h`: with `e`
   * written into the hole it holds the old heap `a0` plus `e`, heap-ordered
   * except between the hole and its parent.
   */
  ghost predicate SiftingUp(a: seq<Edge>, h: nat, e: Edge, a0: seq<Edge>, n: nat) {
    h < |a| &&
    multiset(a[h := e]) == multiset(a0) + multiset{e} &&
    EdgesWithin(a[h := e], n) &&
    SiftUpState(a[h := e], h)
  }

  lemma SiftingUpStep(a: seq<Edge>, h: nat, e: Edge, a0: seq<Edge>, n: nat)
    requires SiftingUp(a, h, e, a0, n) && h > 0
    requires Key(a[Parent(h)]) >= Key(e)
    ensures SiftingUp(a[h := a[Parent(h)]], Parent(h), e, a0, n)
  {
    var v := a[h := e];
    var x := Parent(h);
    SiftUpStep(v, h, e);
    SwapWithin(v, h, x, n);
    SwapMultiset(v, h, x, e);
    assert v[h := e] == v;
    assert a[h := a[x]][x := e] == v[h := v[x]][x := e];
  }

  lemma SiftingUpDone(a: seq<Edge>, h: nat, e: Edge, a0: seq<Edge>, n: nat)
    requires SiftingUp(a, h, e, a0, n)
    requires h > 0 ==> Key(a[Parent(h)]) < Key(e)
    ensures IsHeap(a[h := e]) && EdgesWithin(a[h := e], n)
    ensures multiset(a[h := e]) == multiset(a0) + multiset{e}
  {
    SiftUpDone(a[h := e], h);
  }

  /** No edge of a heap is shorter than its root. */
  lemma HeapMin(s: seq<Edge>)
    requires IsHeap(s) && |s| > 0
    ensures forall f :: f in multiset(s) ==> Key(s[0]) <= Key(f)
  {
    forall f | f in multiset(s)
      ensures Key(s[0]) <= Key(f)
    {
      var i :| 0 <= i < |s| && s[i] == f;
      HeapRootIsMin(s, i);
    }
  }

  /** Heap order on the first `m` slots of `v` except at the hole `h` and its children. */
  ghost predicate HeapAroundHole(v: seq<Edge>, m: nat, h: nat)
    requires m <= |v|
  {
    forall c :: 0 < c < m && c != h && Parent(c) != h ==> Ordered(v, c)
  }

  /** Heap order on the first `m` slots of `v`. */
  ghost predicate HeapUpTo(v: seq<Edge>, m: nat)
    requires m <= |v|
  {
    forall c :: 0 < c < m ==> Ordered(v, c)
  }

  lemma HeapUpToPrefix(v: seq<Edge>, m: nat)
    requires m <= |v| && HeapUpTo(v, m)
    ensures IsHeap(v[..m])
  {
    forall c | 0 < c < m
      ensures Ordered(v[..m], c)
    {
      assert Ordered(v, c);
    }
  }

  /**
   * The array contents `a` during the sift-down after a pop of `a0[0]`: the
   * heap now has `m` slots, slot `m` still holds the edge being re-inserted,
   * and the hole is at `h`.
   */
  ghost predicate SiftingDown(a: seq<Edge>, m: nat, h: nat, a0: seq<Edge>, n: nat) {
    |a| > m && |a0| == m + 1 && h < m && a[m] == a0[m] &&
    multiset(a[..m + 1][h := a0[m]]) == multiset(a0) - multiset{a0[0]} + multiset{a0[m]} &&
    EdgesWithin(a[..m + 1], n) &&
    HeapAroundHole(a, m, h) &&
    (h > 0 ==> (2 * h + 1 < m ==> Key(a[Parent(h)]) <= Key(a[2 * h + 1])) &&
               (2 * h + 2 < m ==> Key(a[Parent(h)]) <= Key(a[2 * h + 2])) &&
               Key(a[Parent(h)]) <= Key(a[m]))
  }

  lemma SiftingDownStart(a: seq<Edge>, a0: seq<Edge>, n: nat)
    requires |a0| >= 2 && |a| >= |a0| && a[..|a0|] == a0
    requires IsHeap(a0) && EdgesWithin(a0, n)
    ensures SiftingDown(a, |a0| - 1, 0, a0, n)
  {
    var m := |a0| - 1;
    assert a0[0 := a0[m]] == [a0[m]] + a0[1..];
    assert a0 == [a0[0]] + a0[1..];
    forall c | 0 < c < m && Parent(c) != 0
      ensures Ordered(a, c)
    {
      assert Ordered(a0, c);
    }
  }

  /** One sift-down step: the smaller child `c` of the hole moves up into it. */
  lemma SiftingDownStep(a: seq<Edge>, m: nat, h: nat, c: nat, a0: seq<Edge>, n: nat)
    requires SiftingDown(a, m, h, a0, n)
    requires (c == 2 * h + 1 || c == 2 * h + 2) && c < m
    requires 2 * h + 1 < m ==> Key(a[c]) <= Key(a[2 * h + 1])
    requires 2 * h + 2 < m ==> Key(a[c]) <= Key(a[2 * h + 2])
    requires Key(a[c]) < Key(a[m])
    ensures SiftingDown(a[h := a[c]], m, c, a0, n)
  {
    var b := a[h := a[c]];
    assert b[m] == a[m];
    assert b[..m + 1] == a[..m + 1][h := a[c]];
    HoleMovesDown(a[..m + 1], h, c, a0[m]);
    SiftingDownOrder(a, m, h, c);
    CopyWithin(a[..m + 1], h, c, n);
  }

  /** Moving the hole of `a` refilled with `x` from `h` down to `c` keeps its multiset. */
  lemma HoleMovesDown(a: seq<Edge>, h: nat, c: nat, x: Edge)
    requires h < |a| && c < |a| && h != c
    ensures multiset(a[h := a[c]][c := x]) == multiset(a[h := x])
  {
    SwapMultiset(a, h, c, x);
  }

  lemma SiftingDownOrder(a: seq<Edge>, m: nat, h: nat, c: nat)
    requires |a| > m && h < m
    requires HeapAroundHole(a, m, h)
    requires h > 0 ==> (2 * h + 1 < m ==> Key(a[Parent(h)]) <= Key(a[2 * h + 1])) &&
                       (2 * h + 2 < m ==> Key(a[Parent(h)]) <= Key(a[2 * h + 2])) &&
                       Key(a[Parent(h)]) <= Key(a[m])
    requires (c == 2 * h + 1 || c == 2 * h + 2) && c < m
    requires 2 * h + 1 < m ==> Key(a[c]) <= Key(a[2 * h + 1])
    requires 2 * h + 2 < m ==> Key(a[c]) <= Key(a[2 * h + 2])
    requires Key(a[c]) < Key(a[m])
    ensures HeapAroundHole(a[h := a[c]], m, c)
    ensures (2 * c + 1 < m ==> Key(a[c]) <= Key(a[2 * c + 1])) &&
            (2 * c + 2 < m ==> Key(a[c]) <= Key(a[2 * c + 2]))
  {
    var b := a[h := a[c]];
    forall d | 0 < d < m && d != c && Parent(d) != c
      ensures Ordered(b, d)
    {
      if d == h {
      } else if Parent(d) == h {
      } else {
        assert Ordered(a, d);
      }
    }
    if 2 * c + 1 < m {
      assert Ordered(a, 2 * c + 1);
    }
    if 2 * c + 2 < m {
      assert Ordered(a, 2 * c + 2);
    }
  }

  /** Copying one slot over another keeps every edge within bounds. */
  lemma CopyWithin(v: seq<Edge>, i: nat, j: nat, n: nat)
    requires i < |v| && j < |v| && EdgesWithin(v, n)
    ensures EdgesWithin(v[i := v[j]], n)
  {
  }

  /** `s` is what is left of the heap `a0` after removing its root. */
  ghost predicate Popped(s: seq<Edge>, a0: seq<Edge>, n: nat)
    requires |a0| > 0
  {
    IsHeap(s) && EdgesWithin(s, n) && multiset(s) == multiset(a0) - multiset{a0[0]}
  }

  /** A sift-down whose hole has no child shorter than the re-inserted edge ends in a heap. */
  lemma SiftingDownDone(a: seq<Edge>, m: nat, h: nat, a0: seq<Edge>, n: nat)
    requires SiftingDown(a, m, h, a0, n)
    requires 2 * h + 1 < m ==> Key(a[m]) <= Key(a[2 * h + 1])
    requires 2 * h + 2 < m ==> Key(a[m]) <= Key(a[2 * h + 2])
    ensures Popped(a[h := a[m]][..m], a0, n)
  {
    var b := a[h := a[m]];
    SiftingDownDoneOrder(a, m, h);
    HeapUpToPrefix(b, m);
    var v := a[..m + 1];
    assert b[..m + 1] == v[h := v[m]];
    CopyWithin(v, h, m, n);
    assert b[..m + 1] == b[..m] + [a0[m]];
    PrefixWithin(b[..m + 1], m, n);
    assert b[..m + 1][..m] == b[..m];
    assert IsHeap(b[..m]);
    assert EdgesWithin(b[..m], n);
    assert multiset(b[..m + 1]) == multiset(a0) - multiset{a0[0]} + multiset{a0[m]};
    assert multiset(b[..m + 1]) == multiset(b[..m]) + multiset{a0[m]};
    ghost var rest := multiset(a0) - multiset{a0[0]};
    assert multiset(b[..m]) + multiset{a0[m]} == rest + multiset{a0[m]};
    MultisetCancel(multiset(b[..m]), rest, a0[m]);
  }

  lemma MultisetCancel(p: multiset<Edge>, q: multiset<Edge>, x: Edge)
    requires p + multiset{x} == q + multiset{x}
    ensures p == q
  {
    assert p == (p + multiset{x}) - multiset{x};
    assert q == (q + multiset{x}) - multiset{x};
  }

  /** Filling the hole with the re-inserted edge restores heap order on the first `m` slots. */
  lemma SiftingDownDoneOrder(a: seq<Edge>, m: nat, h: nat)
    requires |a| > m && h < m
    requires HeapAroundHole(a, m, h)
    requires h > 0 ==> Key(a[Parent(h)]) <= Key(a[m])
    requires 2 * h + 1 < m ==> Key(a[m]) <= Key(a[2 * h + 1])
    requires 2 * h + 2 < m ==> Key(a[m]) <= Key(a[2 * h + 2])
    ensures HeapUpTo(a[h := a[m]], m)
  {
    var b := a[h := a[m]];
    forall d | 0 < d < m
      ensures Ordered(b, d)
    {
      if d == h {
      } else if Parent(d) == h {
      } else {
        assert Ordered(a, d);
      }
    }
  }

  /** A prefix of edges within bounds is within bounds. */
  lemma PrefixWithin(v: seq<Edge>, m: nat, n: nat)
    requires m <= |v| && EdgesWithin(v, n)
    ensures EdgesWithin(v[..m], n)
  {
  }

  /** Every edge joins two distinct points below `n`, the smaller one first. */
  ghost predicate EdgesWithin(s: seq<Edge>, n: nat) {
    forall k :: 0 <= k < |s| ==> s[k].src < s[k].dst < n
  }

  /** A pair of point indices, the smaller (in use) first. */
  datatype Pair = Pair(i: nat, j: nat)

  /** The pairs (i, k) for every k from `j` below `n`. */
  function RowPairs(n: nat, i: nat, j: nat): (r: seq<Pair>)
    requires j <= n
    ensures |r| == n - j
    ensures forall k :: 0 <= k < n - j ==> r[k] == Pair(i, j + k)
  {
    seq(n - j, k requires 0 <= k < n - j => Pair(i, j + k))
  }

  /** The pairs of rows 0 to i-1, in the order the nested loops of the construction visit them. */
  function PairsBefore(n: nat, i: nat): seq<Pair>
    requires i <= n
  {
    if i == 0 then [] else PairsBefore(n, i - 1) + RowPairs(n, i - 1, i)
  }

  /** Every pair i < j of points below `n`. */
  function AllPairs(n: nat): seq<Pair> {
    PairsBefore(n, n)
  }

  ghost predicate PairsWithin(p: seq<Pair>, n: nat) {
    forall k :: 0 <= k < |p| ==> p[k].i < n && p[k].j < n
  }

  /** Point `k` of `pts`; only ever asked for in range. */
  function PointAt(pts: seq<Point>, k: nat): Point {
    if k < |pts| then pts[k] else Origin
  }

  /** The edges of the pairs `p`, each with the squared distance of its two points. */
  function Keyed(pts: seq<Point>, p: seq<Pair>): (r: seq<Edge>)
    ensures |r| == |p|
  {
    if p == [] then [] else
      var q := p[|p| - 1];
      Keyed(pts, p[..|p| - 1]) + [Edge(q.i, q.j, Sqd(PointAt(pts, q.i), PointAt(pts, q.j)))]
  }

  /** The edges the construction inserts: every pair i < j, with its squared distance. */
  function CompleteEdges(pts: seq<Point>): seq<Edge> {
    Keyed(pts, AllPairs(|pts|))
  }

  lemma {:induction false} PairsBeforeLength(n: nat, i: nat)
    requires i <= n
    ensures 2 * |PairsBefore(n, i)| == i * (2 * n - i - 1)
  {
    if i > 0 {
      PairsBeforeLength(n, i - 1);
      var prev := |PairsBefore(n, i - 1)|;
      assert |PairsBefore(n, i)| == prev + (n - i);
      AddRow(i, n, prev);
    }
  }

  lemma AddRow(i: int, n: int, prev: int)
    requires 2 * prev == (i - 1) * (2 * n - i)
    ensures 2 * (prev + (n - i)) == i * (2 * n - i - 1)
  {
    assert (i - 1) * (2 * n - i) == i * (2 * n - i) - (2 * n - i);
  }

  lemma {:induction false} PairsBeforeGrows(n: nat, i: nat, k: nat)
    requires i <= k <= n
    ensures |PairsBefore(n, i)| <= |PairsBefore(n, k)|
    decreases k
  {
    if i < k {
      PairsBeforeGrows(n, i, k - 1);
      assert PairsBefore(n, k) == PairsBefore(n, k - 1) + RowPairs(n, k - 1, k);
    }
  }

  lemma RowPairsMember(n: nat, i: nat, j: nat, q: Pair)
    requires j <= n
    ensures q in RowPairs(n, i, j) <==> q.i == i && j <= q.j < n
  {
    if q.i == i && j <= q.j < n {
      assert RowPairs(n, i, j)[q.j - j] == q;
    }
  }

  lemma {:induction false} PairsBeforeMember(n: nat, i: nat, q: Pair)
    requires i <= n
    ensures q in PairsBefore(n, i) <==> q.i < i && q.i < q.j < n
  {
    if i > 0 {
      var a := PairsBefore(n, i - 1);
      var b := RowPairs(n, i - 1, i);
      assert PairsBefore(n, i) == a + b;
      assert q in a + b <==> q in a || q in b;
      PairsBeforeMember(n, i - 1, q);
      RowPairsMember(n, i - 1, i, q);
    }
  }

  lemma PairsBeforeWithin(n: nat, i: nat)
    requires i <= n
    ensures PairsWithin(PairsBefore(n, i), n)
  {
    var p := PairsBefore(n, i);
    forall k | 0 <= k < |p|
      ensures p[k].i < n && p[k].j < n
    {
      PairsBeforeMember(n, i, p[k]);
    }
  }

  /** Lexicographic order on pairs. */
  predicate PairBefore(q: Pair, r: Pair) {
    q.i < r.i || (q.i == r.i && q.j < r.j)
  }

  predicate PairsSorted(p: seq<Pair>) {
    forall k, l :: 0 <= k < l < |p| ==> PairBefore(p[k], p[l])
  }

  lemma RowPairsSorted(n: nat, i: nat, j: nat)
    requires j <= n
    ensures PairsSorted(RowPairs(n, i, j))
  {
  }

  lemma SortedConcat(p: seq<Pair>, r: seq<Pair>)
    requires PairsSorted(p) && PairsSorted(r)
    requires forall k, l :: 0 <= k < |p| && 0 <= l < |r| ==> PairBefore(p[k], r[l])
    ensures PairsSorted(p + r)
  {
    forall k, l | 0 <= k < l < |p + r|
      ensures PairBefore((p + r)[k], (p + r)[l])
    {
      if l < |p| {
      } else if k >= |p| {
        assert PairBefore(r[k - |p|], r[l - |p|]);
      } else {
        assert PairBefore(p[k], r[l - |p|]);
      }
    }
  }

  lemma {:induction false} PairsBeforeSorted(n: nat, i: nat)
    requires i <= n
    ensures PairsSorted(PairsBefore(n, i))
  {
    if i > 0 {
      var p := PairsBefore(n, i - 1);
      var r := RowPairs(n, i - 1, i);
      PairsBeforeSorted(n, i - 1);
      RowPairsSorted(n, i - 1, i);
      forall k, l | 0 <= k < |p| && 0 <= l < |r|
        ensures PairBefore(p[k], r[l])
      {
        PairsBeforeMember(n, i - 1, p[k]);
        RowPairsMember(n, i - 1, i, r[l]);
      }
      SortedConcat(p, r);
    }
  }

  /** The row of `i` up to `j + 1` is the row up to `j` followed by the pair (i, j). */
  lemma RowPairsGrow(i: nat, j: nat)
    requires i < j
    ensures RowPairs(j + 1, i, i + 1) == RowPairs(j, i, i + 1) + [Pair(i, j)]
  {
  }

  /** Appending the pair (i, j) after the first pairs of row `i` extends that row by one. */
  lemma RowPairsAppend(done: seq<Pair>, i: nat, j: nat)
    requires i < j
    ensures done + RowPairs(j, i, i + 1) + [Pair(i, j)] == done + RowPairs(j + 1, i, i + 1)
  {
    RowPairsGrow(i, j);
  }

  /** The last row is empty, so the construction may stop its outer loop one row early. */
  lemma LastRowEmpty(n: nat, i: nat)
    requires i + 1 == n
    ensures PairsBefore(n, i) == AllPairs(n)
  {
    assert RowPairs(n, i, n) == [];
  }

  /** Slot `k` of `Keyed(pts, p)` is the edge of pair `p[k]`. */
  lemma {:induction false} KeyedAt(pts: seq<Point>, p: seq<Pair>, k: nat)
    requires k < |p|
    ensures Keyed(pts, p)[k] == Edge(p[k].i, p[k].j, Sqd(PointAt(pts, p[k].i), PointAt(pts, p[k].j)))
    decreases |p|
  {
    if k < |p| - 1 {
      KeyedAt(pts, p[..|p| - 1], k);
    }
  }

  /** Keying one more pair appends its edge. */
  lemma KeyedStep(pts: seq<Point>, p: seq<Pair>, i: nat, j: nat)
    requires i < |pts| && j < |pts|
    ensures Keyed(pts, p + [Pair(i, j)]) == Keyed(pts, p) + [Edge(i, j, Sqd(pts[i], pts[j]))]
  {
    assert (p + [Pair(i, j)])[..|p|] == p;
  }

  /** Integer halving of n(n-1) is exact. */
  lemma HalfProduct(n: nat)
    requires n >= 1
    ensures 2 * (((n - 1) * n) / 2) == n * (n - 1)
  {
    var k := n / 2;
    var x: int;
    if n % 2 == 0 {
      x := (n - 1) * k;
      assert n == 2 * k;
      assert (n - 1) * n == (n - 1) * (2 * k);
    } else {
      x := k * n;
      assert n - 1 == 2 * k;
      assert (n - 1) * n == (2 * k) * n;
    }
    assert (n - 1) * n == 2 * x;
    assert (2 * x) / 2 == x;
  }

  /** The capacity the construction allocates: (n - 1) * n / 2 edges. */
  function EdgeCount(n: nat): (r: nat)
    requires n >= 1
    ensures 2 * r == n * (n - 1)
  {
    HalfProduct(n);
    ((n - 1) * n) / 2
  }

  /** There are n(n-1)/2 edges between n points, exactly the capacity allocated. */
  lemma CompleteEdgesLength(pts: seq<Point>)
    ensures 2 * |CompleteEdges(pts)| == |pts| * (|pts| - 1)
    ensures |pts| >= 1 ==> EdgeCount(|pts|) == |CompleteEdges(pts)|
  {
    PairsBeforeLength(|pts|, |pts|);
  }

  /** An edge is in the complete graph exactly when it joins i < j with their squared distance. */
  lemma CompleteEdgesMember(pts: seq<Point>, e: Edge)
    ensures e in CompleteEdges(pts) <==>
            e.src < e.dst < |pts| && e.squareDist == Sqd(pts[e.src], pts[e.dst])
  {
    var n := |pts|;
    var p := AllPairs(n);
    var s := CompleteEdges(pts);
    PairsBeforeWithin(n, n);
    if e in s {
      var k :| 0 <= k < |s| && s[k] == e;
      KeyedAt(pts, p, k);
      PairsBeforeMember(n, n, p[k]);
    }
    if e.src < e.dst < n && e.squareDist == Sqd(pts[e.src], pts[e.dst]) {
      PairsBeforeMember(n, n, Pair(e.src, e.dst));
      var k :| 0 <= k < |p| && p[k] == Pair(e.src, e.dst);
      KeyedAt(pts, p, k);
      assert s[k] == e;
    }
  }

  /** Lexicographic order on the endpoints of two edges. */
  predicate Before(e: Edge, f: Edge) {
    e.src < f.src || (e.src == f.src && e.dst < f.dst)
  }

  predicate StrictlySorted(s: seq<Edge>) {
    forall k, l :: 0 <= k < l < |s| ==> Before(s[k], s[l])
  }

  /** The edges come in strictly increasing (src, dst) order, so no pair occurs twice. */
  lemma CompleteEdgesSorted(pts: seq<Point>)
    ensures StrictlySorted(CompleteEdges(pts))
  {
    var n := |pts|;
    var p := AllPairs(n);
    var s := CompleteEdges(pts);
    PairsBeforeWithin(n, n);
    PairsBeforeSorted(n, n);
    forall k, l | 0 <= k < l < |s|
      ensures Before(s[k], s[l])
    {
      KeyedAt(pts, p, k);
      KeyedAt(pts, p, l);
      assert PairBefore(p[k], p[l]);
    }
  }

  class CompleteGraph {
    const pointsNum: nat
    const edges: array<Edge>
    var edgesNum: nat

    ghost predicate Valid()
      reads this, edges
    {
      edgesNum <= edges.Length &&
      IsHeap(edges[..edgesNum]) &&
      EdgesWithin(edges[..edgesNum], pointsNum)
    }

    /** The edges still in the heap. */
    ghost function Contents(): multiset<Edge>
      reads this, edges
      requires edgesNum <= edges.Length
    {
      multiset(edges[..edgesNum])
    }

    constructor (n: nat, capacity: nat)
      ensures pointsNum == n && edgesNum == 0
      ensures fresh(edges) && edges.Length == capacity
      ensures Valid() && Contents() == multiset{}
    {
      pointsNum := n;
      edges := new Edge[capacity](_ => Edge(0, 0, 0));
      edgesNum := 0;
    }

    /** Sift-up insertion of one edge into the heap (the inner body of the graph construction). */
    method Insert(e: Edge)
      requires Valid() && edgesNum < edges.Length && e.src < e.dst < pointsNum
      modifies this, edges
      ensures Valid()
      ensures edgesNum == old(edgesNum) + 1
      ensures Contents() == old(Contents()) + multiset{e}
    {
      ghost var cnt := edgesNum;
      ghost var a0 := edges[..cnt];
      var sub := edgesNum;
      assert edges[..cnt + 1][sub := e] == a0 + [e];
      SiftUpStart(a0, e);
      while sub > 0
        invariant 0 <= sub <= cnt && edgesNum == cnt
        invariant SiftingUp(edges[..cnt + 1], sub, e, a0, pointsNum)
      {
        var x := (sub - 1) / 2;
        if Key(edges[x]) < Key(e) {
          break;
        }
        ghost var before := edges[..cnt + 1];
        SiftingUpStep(before, sub, e, a0, pointsNum);
        edges[sub] := edges[x];
        assert edges[..cnt + 1] == before[sub := before[x]];
        sub := x;
      }
      SiftingUpDone(edges[..cnt + 1], sub, e, a0, pointsNum);
      ghost var heap := edges[..cnt + 1][sub := e];
      edges[sub] := e;
      edgesNum := edgesNum + 1;
      assert edges[..edgesNum] == heap;
    }

    /**
     * Removes a shortest edge: -1 on an empty heap; otherwise the root is
     * returned and the last edge is sifted down from the root.
     */
    method PopShortest() returns (r: int, e: Edge)
      requires Valid()
      modifies this, edges
      ensures Valid()
      ensures old(edgesNum) == 0 ==> r == -1 && edgesNum == 0
      ensures old(edgesNum) > 0 ==> r == 0 && edgesNum == old(edgesNum) - 1
      ensures old(edgesNum) > 0 ==> e == old(edges[0]) && e in old(Contents())
      ensures old(edgesNum) > 0 ==> e.src < e.dst < pointsNum
      ensures old(edgesNum) > 0 ==> forall f :: f in old(Contents()) ==> Key(e) <= Key(f)
      ensures old(edgesNum) > 0 ==> Contents() == old(Contents()) - multiset{e}
    {
      if edgesNum <= 0 {
        return -1, Edge(0, 0, 0);
      }
      ghost var a0 := edges[..edgesNum];
      HeapMin(a0);
      e := edges[0];
      edgesNum := edgesNum - 1;
      SiftDownLast(a0);
      r := 0;
    }

    /**
     * The sift-down of the pop: the edge in slot `edgesNum` (the old last one)
     * is re-inserted from the root, moving the smaller child up while it is
     * shorter.
     */
    method SiftDownLast(ghost a0: seq<Edge>)
      requires edgesNum + 1 <= edges.Length && |a0| == edgesNum + 1
      requires a0 == edges[..edgesNum + 1] && IsHeap(a0) && EdgesWithin(a0, pointsNum)
      modifies edges
      ensures Popped(edges[..edgesNum], a0, pointsNum)
    {
      ghost var m := edgesNum;
      var sqd := edges[edgesNum].squareDist;
      assert sqd == Key(a0[m]);
      if edgesNum == 0 {
        // a single edge: nothing is left to reorder
        edges[0] := edges[0];
        assert edges[..edgesNum] == [];
        return;
      }
      SiftingDownStart(edges[..], a0, pointsNum);
      var slot := 0;
      var next0 := 2 * slot + 1;
      var next1 := next0 + 1;
      while next1 < edgesNum
        invariant next0 == 2 * slot + 1 && next1 == next0 + 1
        invariant SiftingDown(edges[..], m, slot, a0, pointsNum)
        decreases edgesNum - slot
      {
        var sqd0 := edges[next0].squareDist;
        var sqd1 := edges[next1].squareDist;
        var nextmin;
        var sqmin;
        if sqd0 < sqd1 {
          nextmin := next0;
          sqmin := sqd0;
        } else {
          nextmin := next1;
          sqmin := sqd1;
        }
        if sqmin < sqd {
          MoveUp(slot, nextmin, a0);
          slot := nextmin;
        } else {
          FillHole(slot, a0);
          return;
        }
        next0 := 2 * slot + 1;
        next1 := next0 + 1;
      }
      if next0 < edgesNum {
        if edges[next0].squareDist < sqd {
          MoveUp(slot, next0, a0);
          slot := next0;
        } else {
          FillHole(slot, a0);
          return;
        }
      }
      FillHole(slot, a0);
    }

    /** One sift-down step: the edge of child `c` moves up into the hole at `slot`. */
    method MoveUp(slot: nat, c: nat, ghost a0: seq<Edge>)
      requires edges.Length > edgesNum && SiftingDown(edges[..], edgesNum, slot, a0, pointsNum)
      requires (c == 2 * slot + 1 || c == 2 * slot + 2) && c < edgesNum
      requires 2 * slot + 1 < edgesNum ==> Key(edges[c]) <= Key(edges[2 * slot + 1])
      requires 2 * slot + 2 < edgesNum ==> Key(edges[c]) <= Key(edges[2 * slot + 2])
      requires Key(edges[c]) < Key(edges[edgesNum])
      modifies edges
      ensures SiftingDown(edges[..], edgesNum, c, a0, pointsNum)
    {
      ghost var a := edges[..];
      ghost var m := edgesNum;
      assert Key(a[c]) < Key(a[m]);
      SiftingDownStep(a, m, slot, c, a0, pointsNum);
      ghost var b := a[slot := a[c]];
      edges[slot] := edges[c];
      assert edges[..] == b;
    }

    /** The end of the sift-down: the re-inserted edge is written into the hole at `slot`. */
    method FillHole(slot: nat, ghost a0: seq<Edge>)
      requires edges.Length > edgesNum && SiftingDown(edges[..], edgesNum, slot, a0, pointsNum)
      requires 2 * slot + 1 < edgesNum ==> Key(edges[edgesNum]) <= Key(edges[2 * slot + 1])
      requires 2 * slot + 2 < edgesNum ==> Key(edges[edgesNum]) <= Key(edges[2 * slot + 2])
      modifies edges
      ensures Popped(edges[..edgesNum], a0, pointsNum)
    {
      ghost var a := edges[..];
      SiftingDownDone(a, edgesNum, slot, a0, pointsNum);
      edges[slot] := edges[edgesNum];
      assert edges[..] == a[slot := a[edgesNum]];
      assert edges[..edgesNum] == a[slot := a[edgesNum]][..edgesNum];
    }
  }

  /** The heap of `cg` holds exactly the edges of the pairs `p` of points `pts`. */
  ghost predicate Holds(cg: CompleteGraph, pts: seq<Point>, p: seq<Pair>)
    reads cg, cg.edges
  {
    cg.Valid() && cg.pointsNum == |pts| && cg.edgesNum == |p| && cg.Contents() == multiset(Keyed(pts, p))
  }

  /**
   * Builds the heap of all edges of the points of `pl`: null for an absent or
   * empty list; otherwise every pair i < j is inserted, row by row.
   */
  method GetCompleteGraph(pl: PointsList?) returns (cg: CompleteGraph?)
    ensures pl == null || pl.points.Length == 0 ==> cg == null
    ensures pl != null && pl.points.Length > 0 ==>
              cg != null && fresh(cg) && fresh(cg.edges) && cg.Valid() &&
              cg.pointsNum == pl.points.Length &&
              cg.edges.Length == EdgeCount(cg.pointsNum) &&
              cg.edgesNum == cg.edges.Length &&
              cg.Contents() == multiset(CompleteEdges(pl.points[..]))
  {
    var pointsNum := PointsNum(pl);
    if pointsNum < 1 {
      return null;
    }
    ghost var pts := pl.points[..];
    var edgesNum := EdgeCount(pointsNum);
    assert |pts| == pointsNum;
    CompleteEdgesLength(pts);
    assert |AllPairs(pointsNum)| == edgesNum;
    cg := new CompleteGraph(pointsNum, edgesNum);
    var i := 0;
    while i < pointsNum - 1
      invariant i <= pointsNum - 1
      invariant fresh(cg) && fresh(cg.edges) && pl.points[..] == pts
      invariant Holds(cg, pts, PairsBefore(pointsNum, i))
    {
      InsertRow(cg, pl, i, pts);
      i := i + 1;
    }
    LastRowEmpty(pointsNum, i);
  }

  /**
   * The inner loop of the construction: inserts the edge (i, j) for every
   * j > i, after the edges of the pairs `done` already in the heap.
   */
  method InsertRow(cg: CompleteGraph, pl: PointsList, i: nat, ghost pts: seq<Point>)
    requires pl.points[..] == pts && i + 1 < |pts|
    requires Holds(cg, pts, PairsBefore(|pts|, i)) && cg.edges.Length == |AllPairs(|pts|)|
    modifies cg, cg.edges
    ensures Holds(cg, pts, PairsBefore(|pts|, i + 1)) && pl.points[..] == pts
  {
    NextRow(|pts|, i);
    InsertRowAfter(cg, pl, i, pts, PairsBefore(|pts|, i));
  }

  /** Row `i` follows the rows before it, and no row goes past the last pair. */
  lemma NextRow(n: nat, i: nat)
    requires i < n
    ensures PairsBefore(n, i + 1) == PairsBefore(n, i) + RowPairs(n, i, i + 1)
    ensures |PairsBefore(n, i + 1)| <= |AllPairs(n)|
  {
    PairsBeforeGrows(n, i + 1, n);
  }

  /** The loop over `j` for row `i`, after the pairs `done` already inserted. */
  method InsertRowAfter(cg: CompleteGraph, pl: PointsList, i: nat, ghost pts: seq<Point>,
                        ghost done: seq<Pair>)
    requires pl.points[..] == pts && i < |pts|
    requires Holds(cg, pts, done) && |done| + |RowPairs(|pts|, i, i + 1)| <= cg.edges.Length
    modifies cg, cg.edges
    ensures Holds(cg, pts, done + RowPairs(|pts|, i, i + 1)) && pl.points[..] == pts
  {
    var (_, pi) := GetPoint(pl, i, Origin);
    assert pi == pts[i];
    var pointsNum := PointsNum(pl);
    var j: nat := i + 1;
    ghost var visited := done;
    assert done + RowPairs(j, i, i + 1) == done;
    while j < pointsNum
      invariant i + 1 <= j <= pointsNum == |pts|
      invariant visited == done + RowPairs(j, i, i + 1)
      invariant Holds(cg, pts, visited) && pl.points[..] == pts
    {
      RowPairsAppend(done, i, j);
      InsertPair(cg, pl, i, j, pi, pts, visited);
      visited := visited + [Pair(i, j)];
      j := j + 1;
    }
  }

  /** The body of the inner loop: inserts the edge (i, j) keyed by the squared distance of its points. */
  method InsertPair(cg: CompleteGraph, pl: PointsList, i: nat, j: nat, pi: Point,
                    ghost pts: seq<Point>, ghost visited: seq<Pair>)
    requires pl.points[..] == pts && i < j < |pts| && pi == pts[i]
    requires Holds(cg, pts, visited) && |visited| < cg.edges.Length
    modifies cg, cg.edges
    ensures Holds(cg, pts, visited + [Pair(i, j)]) && pl.points[..] == pts
  {
    var (_, pj) := GetPoint(pl, j, Origin);
    assert pj == pts[j];
    var e := Edge(i, j, Sqd(pi, pj));
    KeyedStep(pts, visited, i, j);
    cg.Insert(e);
  }
}
