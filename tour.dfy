/**
 * The greedy loop and the final walk of the short-cycle translator: edges are
 * popped shortest first and added to the fragments until one fragment of all
 * `n` points is left (`3n - 2` steps), and that fragment's ring is then walked
 * for `2n - 2` hops, each hop skipping the step that repeats the point just
 * emitted, to give a closed doubled walk over the points.
 */
module Tour {
  import opened Ints
  import opened PointsList
  import opened EdgeHeap
  import opened Rings
  import opened Cycles

  // ---------------------------------------------------------------------
  // The greedy loop
  // ---------------------------------------------------------------------

  /** Every pair of points lying in different fragments still has its edge in the heap. */
  ghost predicate Queued(comp: seq<nat>, contents: multiset<Edge>, pts: seq<Point>) {
    |comp| == |pts| &&
    forall i, j :: 0 <= i < j < |pts| && comp[i] != comp[j] ==>
      Edge(i, j, Sqd(pts[i], pts[j])) in contents
  }

  /** `comp'` only joins fragments of `comp`: points together before stay together. */
  ghost predicate Coarser(comp: seq<nat>, comp': seq<nat>) {
    |comp'| == |comp| &&
    forall i, j :: 0 <= i < |comp| && 0 <= j < |comp| && comp[i] == comp[j] ==> comp'[i] == comp'[j]
  }

  lemma MergeCoarser(comp: seq<nat>, d: nat, s: nat)
    ensures Coarser(comp, Merge(comp, d, s))
  {
  }

  /** Before any edge is added every point is its own fragment, and the heap holds every edge. */
  lemma QueuedInitially(pts: seq<Point>)
    ensures Queued(Identity(|pts|), multiset(CompleteEdges(pts)), pts)
  {
    forall i, j | 0 <= i < j < |pts|
      ensures Edge(i, j, Sqd(pts[i], pts[j])) in multiset(CompleteEdges(pts))
    {
      CompleteEdgesMember(pts, Edge(i, j, Sqd(pts[i], pts[j])));
    }
  }

  /**
   * Popping `e` and adding it to the fragments keeps every cross-fragment
   * pair queued: the popped pair now lies within one fragment, and joining
   * fragments only removes cross pairs.
   */
  lemma {:induction false} QueuedStep(comp: seq<nat>, comp': seq<nat>, c: multiset<Edge>, e: Edge, pts: seq<Point>)
    requires Queued(comp, c, pts) && Coarser(comp, comp')
    requires e.src < |comp'| && e.dst < |comp'| && comp'[e.src] == comp'[e.dst]
    ensures Queued(comp', c - multiset{e}, pts)
  {
    forall i, j | 0 <= i < j < |pts| && comp'[i] != comp'[j]
      ensures Edge(i, j, Sqd(pts[i], pts[j])) in c - multiset{e}
    {
      var f := Edge(i, j, Sqd(pts[i], pts[j]));
      assert comp[i] != comp[j];
      assert f in c;
    }
  }

  /**
   * While the arena is not full there are two fragments, so some cross
   * pair is queued and the heap is not empty: the pop of the greedy loop
   * cannot fail, which is what makes the loop terminate.
   */
  lemma {:induction false} CrossEdgeRemains(ptref: seq<nat>, root: seq<nat>, next: seq<nat>, n: nat, sn: nat,
                                            comp: seq<nat>, depth: seq<nat>, roots: set<nat>, ring: seq<seq<nat>>,
                                            c: multiset<Edge>, pts: seq<Point>)
    requires Inv(ptref, root, next, n, sn, comp, depth, roots, ring)
    requires Queued(comp, c, pts) && sn < Cap(n)
    ensures |c| > 0
  {
    assert |roots| >= 2;
    var a :| a in roots;
    var rest := roots - {a};
    assert |rest| == |roots| - 1;
    var b :| b in rest;
    assert NodeOK(root, n, comp, depth, a) && NodeOK(root, n, comp, depth, b);
    assert comp[a] == a && comp[b] == b;
    var i, j := if a < b then a else b, if a < b then b else a;
    assert Edge(i, j, Sqd(pts[i], pts[j])) in c;
  }

  /** With the arena full there is exactly one fragment left. */
  lemma OneFragment(roots: set<nat>, n: nat, sn: nat)
    requires n >= 1 && 2 * |roots| + sn == 3 * n && sn == Cap(n)
    ensures |roots| == 1
  {
  }

  /** The arena state of `cy` together with the heap `cg` during the greedy loop. */
  ghost predicate Greedy(cg: CompleteGraph, cy: CycleArena, pts: seq<Point>)
    reads cg, cg.edges, cy, cy.ptref, cy.root, cy.next
  {
    cg.Valid() && cy.Valid() && cg.pointsNum == cy.pointsNum == |pts| &&
    Queued(cy.comp, cg.Contents(), pts)
  }

  /**
   * Builds the fragments of the points of the heap `cg`: null for no point;
   * otherwise every point starts alone, and shortest edges are popped and
   * added until the `3n - 2` steps are in use, i.e. `n - 1` merges have made
   * one fragment.
   */
  method GetCycle(cg: CompleteGraph, ghost pts: seq<Point>) returns (cy: CycleArena?)
    requires cg.Valid() && cg.pointsNum == |pts| && cg.Contents() == multiset(CompleteEdges(pts))
    modifies cg, cg.edges
    ensures cg.pointsNum == 0 ==> cy == null
    ensures cg.pointsNum >= 1 ==>
              cy != null && fresh(cy) && fresh(cy.ptref) && fresh(cy.root) && fresh(cy.next) &&
              cy.Valid() && cy.pointsNum == cg.pointsNum &&
              cy.stepsNum == Cap(cy.pointsNum) && |cy.roots| == 1
  {
    if cg.pointsNum < 1 {
      return null;
    }
    var stepsNum := Cap(cg.pointsNum);
    cy := new CycleArena(cg.pointsNum);
    cy.InitSteps();
    QueuedInitially(pts);
    while cy.stepsNum < stepsNum
      invariant fresh(cy) && fresh(cy.ptref) && fresh(cy.root) && fresh(cy.next)
      invariant Greedy(cg, cy, pts) && stepsNum == Cap(cy.pointsNum)
      decreases cg.edgesNum
    {
      GreedyStep(cg, cy, pts);
    }
    OneFragment(cy.roots, cy.pointsNum, cy.stepsNum);
  }

  /** One round of the greedy loop: pop the shortest edge (which cannot fail) and add it to the fragments. */
  method GreedyStep(cg: CompleteGraph, cy: CycleArena, ghost pts: seq<Point>)
    requires Greedy(cg, cy, pts) && cy.stepsNum < Cap(cy.pointsNum)
    modifies cg, cg.edges, cy, cy.ptref, cy.root, cy.next
    ensures Greedy(cg, cy, pts) && cg.edgesNum < old(cg.edgesNum)
  {
    CrossEdgeRemains(cy.ptref[..], cy.root[..], cy.next[..], cy.pointsNum, cy.stepsNum,
                     cy.comp, cy.depth, cy.roots, cy.ring, cg.Contents(), pts);
    ghost var c0 := cg.Contents();
    ghost var comp0 := cy.comp;
    var r, edg := cg.PopShortest();
    if r == 0 {
      cy.AddEdge(edg.src, edg.dst);
      if comp0[edg.src] != comp0[edg.dst] {
        MergeCoarser(comp0, comp0[edg.dst], comp0[edg.src]);
      }
      QueuedStep(comp0, cy.comp, c0, edg, pts);
    }
  }

  // ---------------------------------------------------------------------
  // The walk
  // ---------------------------------------------------------------------

  /** Every link of `next` stays inside the arena, and every step has a point reference. */
  ghost predicate Closed(ptref: seq<nat>, next: seq<nat>) {
    |ptref| == |next| && forall s :: 0 <= s < |next| ==> next[s] < |next|
  }

  /** Where one hop of the walk from `slot` lands: the next step, or the one after it when the next step repeats the point of `slot`. */
  function Hop(ptref: seq<nat>, next: seq<nat>, slot: nat): (r: nat)
    requires Closed(ptref, next) && slot < |next|
    ensures r < |next|
  {
    var s1 := next[slot];
    if ptref[s1] == ptref[slot] then next[s1] else s1
  }

  /** The point references the walk emits in `k` hops from `slot`, in emission order. */
  function WalkRefs(ptref: seq<nat>, next: seq<nat>, slot: nat, k: nat): (r: seq<nat>)
    requires Closed(ptref, next) && slot < |next|
    ensures |r| == k
    decreases k
  {
    if k == 0 then [] else [ptref[slot]] + WalkRefs(ptref, next, Hop(ptref, next, slot), k - 1)
  }

  /** Position `k` of the ring `g` is emitted by a walk that starts at `g[0]`: the start and every copy (step at or after `n`). */
  predicate Kept(g: seq<nat>, n: nat, k: nat)
    requires k < |g|
  {
    k == 0 || g[k] >= n
  }

  /** The point references of the kept positions `a .. b-1` of the ring `g`, in ring order. */
  function KeptRefs(ptref: seq<nat>, g: seq<nat>, n: nat, a: nat, b: nat): seq<nat>
    requires a <= b <= |g| && forall k :: 0 <= k < |g| ==> g[k] < |ptref|
    decreases b - a
  {
    if a == b then []
    else (if Kept(g, n, a) then [ptref[g[a]]] else []) + KeptRefs(ptref, g, n, a + 1, b)
  }

  /** The ring of the finished arena read from step 0: all `3n - 2` steps, each once. */
  ghost predicate FinalRing(g: seq<nat>, ptref: seq<nat>, next: seq<nat>, n: nat) {
    n >= 1 && |g| == Cap(n) && Refs(ptref, next, n, Cap(n)) && Closed(ptref, next) &&
    RingOK(g, next, Cap(n)) && g[0] == 0
  }

  /** No two originals follow each other on a ring of more than one step. */
  lemma NoTwoOriginals(g: seq<nat>, ptref: seq<nat>, next: seq<nat>, n: nat, k: nat)
    requires FinalRing(g, ptref, next, n) && n >= 2 && k + 1 < |g| && g[k] < n
    ensures g[k + 1] >= n
  {
    assert next[g[k]] == g[k + 1];
    assert StepOK(ptref, next, n, g[k]);
    assert ptref[g[k]] == g[k];
  }

  /** The last step of the ring leads back to step 0, so it is a copy of point 0. */
  lemma LastIsCopyOfZero(g: seq<nat>, ptref: seq<nat>, next: seq<nat>, n: nat)
    requires FinalRing(g, ptref, next, n) && n >= 2
    ensures g[|g| - 1] >= n && ptref[g[|g| - 1]] == 0
  {
    var last := g[|g| - 1];
    assert next[last] == 0;
    assert StepOK(ptref, next, n, last);
    assert ptref[0] == 0;
    assert last != g[0];
  }

  /**
   * From a kept position `pos` before the last, `k` hops (the number of kept
   * positions left before the last one) emit exactly the kept positions of
   * the rest of the ring: a hop moves on by one position, or by two when it
   * lands on an original, which it skips.
   */
  lemma {:induction false} WalkAlongRing(g: seq<nat>, ptref: seq<nat>, next: seq<nat>, n: nat, pos: nat, k: nat)
    requires FinalRing(g, ptref, next, n) && n >= 2
    requires pos < |g| - 1 && Kept(g, n, pos)
    requires k == |KeptRefs(ptref, g, n, pos, |g| - 1)|
    ensures WalkRefs(ptref, next, g[pos], k) == KeptRefs(ptref, g, n, pos, |g| - 1)
    decreases |g| - pos, 1
  {
    var rest := KeptRefs(ptref, g, n, pos + 1, |g| - 1);
    assert KeptRefs(ptref, g, n, pos, |g| - 1) == [ptref[g[pos]]] + rest;
    WalkStep(ptref, next, g[pos], k);
    WalkAfterHop(g, ptref, next, n, pos, k);
  }

  /**
   * After the hop from kept position `pos` the walk goes on with the rest of
   * the kept positions: the hop lands on the next position, or skips it when
   * it holds an original.
   */
  lemma {:induction false} WalkAfterHop(g: seq<nat>, ptref: seq<nat>, next: seq<nat>, n: nat, pos: nat, k: nat)
    requires FinalRing(g, ptref, next, n) && n >= 2
    requires pos < |g| - 1 && Kept(g, n, pos)
    requires k == 1 + |KeptRefs(ptref, g, n, pos + 1, |g| - 1)|
    ensures WalkRefs(ptref, next, Hop(ptref, next, g[pos]), k - 1) == KeptRefs(ptref, g, n, pos + 1, |g| - 1)
    decreases |g| - pos, 0
  {
    var L := |g|;
    var rest := KeptRefs(ptref, g, n, pos + 1, L - 1);
    assert next[g[pos]] == g[pos + 1];
    assert StepOK(ptref, next, n, g[pos]);
    LastIsCopyOfZero(g, ptref, next, n);
    if g[pos + 1] < n {
      // the hop skips the original at pos + 1
      assert pos + 1 < L - 1;
      assert Hop(ptref, next, g[pos]) == g[pos + 2] by {
        assert next[g[pos + 1]] == g[pos + 2];
      }
      assert rest == KeptRefs(ptref, g, n, pos + 2, L - 1);
      if pos + 2 < L - 1 {
        NoTwoOriginals(g, ptref, next, n, pos + 1);
        WalkAlongRing(g, ptref, next, n, pos + 2, k - 1);
      } else {
        assert rest == [];
      }
    } else {
      assert Hop(ptref, next, g[pos]) == g[pos + 1];
      if pos + 1 < L - 1 {
        WalkAlongRing(g, ptref, next, n, pos + 1, k - 1);
      } else {
        assert rest == [];
      }
    }
  }

  /** Number of entries of `s` below `n`. */
  function CountBelow(s: seq<nat>, n: nat): (r: nat)
    ensures r <= |s|
  {
    if s == [] then 0 else (if s[0] < n then 1 else 0) + CountBelow(s[1..], n)
  }

  lemma {:induction false} CountBelowAppend(a: seq<nat>, b: seq<nat>, n: nat)
    ensures CountBelow(a + b, n) == CountBelow(a, n) + CountBelow(b, n)
  {
    if a == [] {
      assert a + b == b;
    } else {
      assert (a + b)[1..] == a[1..] + b;
      CountBelowAppend(a[1..], b, n);
    }
  }

  /** The entries of `s` below `n`, as a set. */
  function BelowSet(s: seq<nat>, n: nat): set<nat> {
    set x | x in s && x < n
  }

  /** Distinct entries are counted once each: the count below `n` is the size of the set of entries below `n`. */
  lemma {:induction false} CountBelowSet(s: seq<nat>, n: nat)
    requires Distinct(s)
    ensures CountBelow(s, n) == |BelowSet(s, n)|
  {
    if s != [] {
      var t := s[1..];
      assert forall k, l :: 0 <= k < l < |t| ==> t[k] == s[k + 1] && t[l] == s[l + 1];
      CountBelowSet(t, n);
      assert s == [s[0]] + t;
      assert s[0] !in t by {
        forall k | 0 <= k < |t| ensures t[k] != s[0] {
          assert t[k] == s[k + 1];
        }
      }
      if s[0] < n {
        assert BelowSet(s, n) == BelowSet(t, n) + {s[0]};
      } else {
        assert BelowSet(s, n) == BelowSet(t, n);
      }
    }
  }

  /**
   * A sequence of distinct numbers below `m` holding every number below `m`
   * is a permutation of them: it has `m` entries, of which `min(n, m)` are
   * below `n`.
   */
  lemma PermutationCount(s: seq<nat>, m: nat, n: nat)
    requires Distinct(s) && (forall k :: 0 <= k < |s| ==> s[k] < m) && (forall x: nat :: x < m ==> x in s)
    ensures |s| == m && CountBelow(s, n) == (if n < m then n else m)
  {
    var lo := if n < m then n else m;
    assert BelowSet(s, n) == Range(lo) by {
      RangeMember(lo);
      forall x | x in s ensures x < m {
        var k :| 0 <= k < |s| && s[k] == x;
      }
    }
    RangeSize(lo);
    CountBelowSet(s, n);
    CountBelowSet(s, m);
    assert BelowSet(s, m) == Range(m) by {
      RangeMember(m);
      forall x | x in s ensures x < m {
        var k :| 0 <= k < |s| && s[k] == x;
      }
    }
    RangeSize(m);
    CountBelowAll(s, m);
  }

  /** When every entry is below `m`, all of them are counted. */
  lemma {:induction false} CountBelowAll(s: seq<nat>, m: nat)
    requires forall k :: 0 <= k < |s| ==> s[k] < m
    ensures CountBelow(s, m) == |s|
  {
    if s != [] {
      assert forall k :: 0 <= k < |s[1..]| ==> s[1..][k] == s[k + 1];
      CountBelowAll(s[1..], m);
    }
  }

  /** Past the start, the kept positions are the copies: their number is the range length less the originals in it. */
  lemma {:induction false} KeptCount(ptref: seq<nat>, g: seq<nat>, n: nat, a: nat, b: nat)
    requires 1 <= a <= b <= |g| && forall k :: 0 <= k < |g| ==> g[k] < |ptref|
    ensures |KeptRefs(ptref, g, n, a, b)| + CountBelow(g[a..b], n) == b - a
    decreases b - a
  {
    if a < b {
      KeptCount(ptref, g, n, a + 1, b);
      assert g[a..b] == [g[a]] + g[a + 1..b];
      CountBelowAppend([g[a]], g[a + 1..b], n);
    }
  }

  /** A kept position contributes its point to the kept references of any range around it. */
  lemma {:induction false} KeptMember(ptref: seq<nat>, g: seq<nat>, n: nat, a: nat, b: nat, k: nat)
    requires a <= k < b <= |g| && forall i :: 0 <= i < |g| ==> g[i] < |ptref|
    requires Kept(g, n, k)
    ensures ptref[g[k]] in KeptRefs(ptref, g, n, a, b)
    decreases b - a
  {
    if a < k {
      KeptMember(ptref, g, n, a + 1, b, k);
    }
  }

  /** The ring, apart from its last step, holds `2n - 2` kept positions. */
  lemma KeptTotal(g: seq<nat>, ptref: seq<nat>, next: seq<nat>, n: nat)
    requires FinalRing(g, ptref, next, n) && n >= 2
    requires forall x: nat :: x < Cap(n) ==> x in g
    ensures |KeptRefs(ptref, g, n, 0, |g| - 1)| == 2 * n - 2
  {
    var L := |g|;
    PermutationCount(g, L, n);
    LastIsCopyOfZero(g, ptref, next, n);
    assert g == [g[0]] + g[1..L - 1] + [g[L - 1]];
    CountBelowAppend([g[0]] + g[1..L - 1], [g[L - 1]], n);
    CountBelowAppend([g[0]], g[1..L - 1], n);
    KeptCount(ptref, g, n, 1, L - 1);
    assert KeptRefs(ptref, g, n, 0, L - 1) == [ptref[g[0]]] + KeptRefs(ptref, g, n, 1, L - 1);
  }

  /**
   * Every point is emitted by the walk: point 0 at the start, and any other
   * point `p` through the step before it on the ring, which is a copy of `p`.
   */
  lemma EveryPointKept(g: seq<nat>, ptref: seq<nat>, next: seq<nat>, n: nat, p: nat)
    requires FinalRing(g, ptref, next, n) && n >= 2 && p < n
    requires forall x: nat :: x < Cap(n) ==> x in g
    ensures p in KeptRefs(ptref, g, n, 0, |g| - 1)
  {
    var L := |g|;
    assert forall k :: 0 <= k < L ==> g[k] < |ptref|;
    if p == 0 {
      assert ptref[g[0]] == 0;
      KeptMember(ptref, g, n, 0, L - 1, 0);
    } else {
      assert p in g;
      var k :| 0 <= k < L && g[k] == p;
      assert k != 0;
      var q := g[k - 1];
      assert next[q] == p;
      assert StepOK(ptref, next, n, q);
      assert ptref[q] == p;
      assert q != p;
      assert q >= n;
      LastIsCopyOfZero(g, ptref, next, n);
      assert k - 1 < L - 1;
      KeptMember(ptref, g, n, 0, L - 1, k - 1);
      assert ptref[g[k - 1]] == p;
    }
  }

  /**
   * The walk of `2n - 2` hops from step 0 of a finished arena emits every
   * point, starting with point 0.
   */
  lemma WalkCoversAll(g: seq<nat>, ptref: seq<nat>, next: seq<nat>, n: nat)
    requires FinalRing(g, ptref, next, n) && n >= 2
    requires forall x: nat :: x < Cap(n) ==> x in g
    ensures WalkRefs(ptref, next, 0, 2 * n - 2)[0] == 0
    ensures var w := WalkRefs(ptref, next, 0, 2 * n - 2); forall p :: 0 <= p < n ==> p in w
  {
    KeptTotal(g, ptref, next, n);
    WalkAlongRing(g, ptref, next, n, 0, 2 * n - 2);
    var w := WalkRefs(ptref, next, 0, 2 * n - 2);
    forall p | 0 <= p < n
      ensures p in w
    {
      EveryPointKept(g, ptref, next, n, p);
    }
  }

  /** The finished arena's one ring, read from step 0, holds every step. */
  lemma FinishedRing(ptref: seq<nat>, root: seq<nat>, next: seq<nat>, n: nat, sn: nat,
                     comp: seq<nat>, depth: seq<nat>, roots: set<nat>, ring: seq<seq<nat>>) returns (g: seq<nat>)
    requires Inv(ptref, root, next, n, sn, comp, depth, roots, ring) && sn == Cap(n) && |roots| == 1
    ensures FinalRing(g, ptref, next, n)
    ensures forall x: nat :: x < Cap(n) ==> x in g
  {
    var r := OnlyRoot(roots);
    var s := RingAt(ring, r);
    assert RingOK(s, next, sn);
    forall x: nat | x < sn
      ensures x in s
    {
      FragIsRoot(ptref, root, next, n, sn, comp, depth, roots, ring, x);
    }
    assert 0 in s;
    var i :| 0 <= i < |s| && s[i] == 0;
    RotRing(s, next, sn, i);
    g := Rot(s, i);
    PermutationCount(g, sn, n);
  }

  /** A set of one element is that element's singleton. */
  lemma OnlyRoot(roots: set<nat>) returns (r: nat)
    requires |roots| == 1
    ensures roots == {r}
  {
    r :| r in roots;
    assert |roots - {r}| == 0;
    forall y | y in roots ensures y == r {
      assert y !in roots - {r};
    }
  }

  /** The fragment of any step in use is a root of the forest. */
  lemma FragIsRoot(ptref: seq<nat>, root: seq<nat>, next: seq<nat>, n: nat, sn: nat,
                   comp: seq<nat>, depth: seq<nat>, roots: set<nat>, ring: seq<seq<nat>>, x: nat)
    requires Inv(ptref, root, next, n, sn, comp, depth, roots, ring) && x < sn
    ensures FragOf(ptref, comp, x) in roots
  {
    assert StepOK(ptref, next, n, x);
    assert NodeOK(root, n, comp, depth, ptref[x]);
  }

  /** Point `k` of the points `pts` at the references `refs`, last reference first. */
  ghost predicate WrittenBack(out: seq<Point>, pts: seq<Point>, refs: seq<nat>, from: nat)
  {
    from + |refs| == |out| &&
    forall j :: 0 <= j < |refs| ==> refs[j] < |pts| && out[|out| - 1 - j] == pts[refs[j]]
  }

  /**
   * Emits the walk of the finished arena `cy` over the points of `pl`:
   * `2n - 2` points, the first emitted written last, and back to front.
   */
  method LinkPoints(cy: CycleArena, pl: PointsList, ghost pts: seq<Point>) returns (res: PointsList)
    requires cy.Valid() && cy.stepsNum == Cap(cy.pointsNum) && |cy.roots| == 1
    requires pl.points[..] == pts && |pts| == cy.pointsNum
    ensures fresh(res) && fresh(res.points)
    ensures Closed(cy.ptref[..], cy.next[..])
    ensures WrittenBack(res.points[..], pts, WalkRefs(cy.ptref[..], cy.next[..], 0, 2 * cy.pointsNum - 2), 0)
    ensures cy.pointsNum >= 2 ==> forall p :: 0 <= p < cy.pointsNum ==> pts[p] in res.points[..]
    ensures cy.pointsNum >= 2 ==> res.points[2 * cy.pointsNum - 3] == pts[0]
  {
    ghost var P, X, n := cy.ptref[..], cy.next[..], cy.pointsNum;
    ghost var g := FinishedRing(P, cy.root[..], X, n, cy.stepsNum, cy.comp, cy.depth, cy.roots, cy.ring);
    res := WalkBack(cy.ptref, cy.next, cy.pointsNum, pl, pts);
    if n >= 2 {
      WalkCoversAll(g, P, X, n);
      Covered(res.points[..], pts, WalkRefs(P, X, 0, 2 * n - 2), n);
    }
  }

  /**
   * The loop of the walk: `2n - 2` hops from step 0 over the steps
   * `ptref`/`next` of a finished arena, each emitted point written just
   * below the ones already written.
   */
  method WalkBack(ptref: array<nat>, next: array<nat>, n: nat, pl: PointsList, ghost pts: seq<Point>) returns (res: PointsList)
    requires n >= 1 && Closed(ptref[..], next[..]) && Refs(ptref[..], next[..], n, Cap(n))
    requires pl.points[..] == pts && |pts| == n
    ensures fresh(res) && fresh(res.points)
    ensures WrittenBack(res.points[..], pts, WalkRefs(ptref[..], next[..], 0, 2 * n - 2), 0)
  {
    ghost var P, X := ptref[..], next[..];
    var pointsNum: nat := 2 * n - 2;
    res := new PointsList(pointsNum);
    ghost var walk := WalkRefs(P, X, 0, pointsNum);
    ghost var done: seq<nat> := [];
    var slot: nat := 0;
    while pointsNum > 0
      invariant WalkLoop(P, X, n, pts, walk, done, slot, pointsNum, res.points[..])
    {
      var ref := ptref[slot];
      var (_, pt) := GetPoint(pl, ref, Origin);
      WalkLoopStep(P, X, n, pts, walk, done, slot, pointsNum, res.points[..]);
      pointsNum := pointsNum - 1;
      var _ := SetPoint(res, pointsNum, pt);
      done := done + [ref];
      slot := NextSlot(ptref, next, n, slot);
    }
  }

  /** The state of the walk loop: `done` emitted and written back at the top of `out`, `left` hops still to go from `slot`. */
  ghost predicate WalkLoop(P: seq<nat>, X: seq<nat>, n: nat, pts: seq<Point>, walk: seq<nat>,
                           done: seq<nat>, slot: nat, left: nat, out: seq<Point>)
  {
    n >= 1 && Closed(P, X) && Refs(P, X, n, Cap(n)) && |pts| == n && slot < Cap(n) &&
    walk == done + WalkRefs(P, X, slot, left) && WrittenBack(out, pts, done, left)
  }

  /** One turn of the walk loop: the point of `slot` is emitted and written just below the others. */
  lemma WalkLoopStep(P: seq<nat>, X: seq<nat>, n: nat, pts: seq<Point>, walk: seq<nat>,
                     done: seq<nat>, slot: nat, left: nat, out: seq<Point>)
    requires WalkLoop(P, X, n, pts, walk, done, slot, left, out) && left > 0
    ensures P[slot] < |pts| && Hop(P, X, slot) < Cap(n)
    ensures WalkLoop(P, X, n, pts, walk, done + [P[slot]], Hop(P, X, slot), left - 1, out[left - 1 := pts[P[slot]]])
  {
    assert StepOK(P, X, n, slot);
    assert X[slot] < Cap(n);
    assert X[X[slot]] < Cap(n);
    WalkStep(P, X, slot, left);
    assert walk == (done + [P[slot]]) + WalkRefs(P, X, Hop(P, X, slot), left - 1);
    WriteBack(out, pts, done, P[slot], left - 1);
  }

  /** One hop of the walk, on the arena's arrays: it stays among the steps in use. */
  method NextSlot(ptref: array<nat>, next: array<nat>, ghost n: nat, slot: nat) returns (r: nat)
    requires n >= 1 && Closed(ptref[..], next[..]) && Refs(ptref[..], next[..], n, Cap(n)) && slot < Cap(n)
    ensures r == Hop(ptref[..], next[..], slot) && r < Cap(n)
  {
    r := next[slot];
    if ptref[r] == ptref[slot] {
      r := next[r];
    }
  }

  /** Written back from a walk that emits every point, starting with point 0, every point appears and point 0 comes last. */
  lemma Covered(out: seq<Point>, pts: seq<Point>, walk: seq<nat>, n: nat)
    requires WrittenBack(out, pts, walk, 0) && |walk| > 0 && walk[0] == 0 && 0 < n <= |pts|
    requires forall p :: 0 <= p < n ==> p in walk
    ensures forall p :: 0 <= p < n ==> pts[p] in out
    ensures out[|out| - 1] == pts[0]
  {
    forall p | 0 <= p < n
      ensures pts[p] in out
    {
      assert p in walk;
      var k :| 0 <= k < |walk| && walk[k] == p;
      assert out[|out| - 1 - k] == pts[p];
    }
  }

  lemma WalkStep(P: seq<nat>, X: seq<nat>, slot: nat, k: nat)
    requires Closed(P, X) && slot < |X| && k > 0
    ensures WalkRefs(P, X, slot, k) == [P[slot]] + WalkRefs(P, X, Hop(P, X, slot), k - 1)
  {
  }

  /** Writing the point of reference `ref` just below the part already written extends it by that reference. */
  lemma WriteBack(out: seq<Point>, pts: seq<Point>, done: seq<nat>, ref: nat, i: nat)
    requires WrittenBack(out, pts, done, i + 1) && ref < |pts|
    ensures WrittenBack(out[i := pts[ref]], pts, done + [ref], i)
  {
    var out', done' := out[i := pts[ref]], done + [ref];
    forall j | 0 <= j < |done'|
      ensures done'[j] < |pts| && out'[|out'| - 1 - j] == pts[done'[j]]
    {
      if j == |done| {
        assert |out'| - 1 - j == i;
      } else {
        assert done'[j] == done[j];
      }
    }
  }

  // ---------------------------------------------------------------------
  // The translator
  // ---------------------------------------------------------------------

  /**
   * The short-cycle translator: no list for an absent or empty input;
   * otherwise `2n - 2` points, each an input point, every input point among
   * them once there are two or more, and point 0 in the last place.
   */
  method ShortCycle(pl: PointsList?) returns (res: PointsList?)
    ensures pl == null || pl.points.Length == 0 ==> res == null
    ensures pl != null && pl.points.Length > 0 ==>
              res != null && fresh(res) && res.points.Length == 2 * pl.points.Length - 2 &&
              forall k :: 0 <= k < res.points.Length ==> res.points[k] in pl.points[..]
    ensures pl != null && pl.points.Length >= 2 ==>
              res != null &&
              (forall p :: 0 <= p < pl.points.Length ==> pl.points[p] in res.points[..]) &&
              res.points[2 * pl.points.Length - 3] == pl.points[0]
  {
    var cg := GetCompleteGraph(pl);
    if cg == null {
      return null;
    }
    ghost var pts := pl.points[..];
    var cy := GetCycle(cg, pts);
    res := LinkPoints(cy, pl, pts);
    Emitted(res.points[..], pts, WalkRefs(cy.ptref[..], cy.next[..], 0, 2 * cy.pointsNum - 2));
  }

  /** Every point written back is one of the input points. */
  lemma Emitted(out: seq<Point>, pts: seq<Point>, refs: seq<nat>)
    requires WrittenBack(out, pts, refs, 0)
    ensures forall k :: 0 <= k < |out| ==> out[k] in pts
  {
    forall k | 0 <= k < |out|
      ensures out[k] in pts
    {
      var j := |out| - 1 - k;
      assert refs[j] < |pts| && out[|out| - 1 - j] == pts[refs[j]];
    }
  }
}
