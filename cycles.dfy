/**
 * The fragments of the tour under construction (the `cycles` arena of the
 * short-cycle translator). The arena has room for `3n - 2` steps; each step
 * refers to a point (`ptref`), has a union-find link (`root`, used for the
 * first `n` steps only) and a link to the next step of its ring (`next`).
 * Steps `0 .. n-1` stand for the points themselves; every merge of two
 * fragments appends two copies.
 *
 * The proof state kept beside the arrays:
 *  - `comp[x]`: the root of the fragment of point `x`;
 *  - `depth[x]`: the distance bound that makes root chains finite;
 *  - `roots`: the points that are their own root, one per fragment;
 *  - `ring[r]`: the steps of the fragment with root `r`, in `next` order.
 */
module Cycles {
  import opened Rings
  import opened EdgeHeap

  /** Number of steps the arena holds for `n` points: `n` originals and two per merge. */
  function Cap(n: nat): nat
    requires n >= 1
  {
    3 * n - 2
  }

  /** Step `s` refers to a point, links to a step in use, and links to a copy of its own point exactly when it links to an original. */
  ghost predicate StepOK(ptref: seq<nat>, next: seq<nat>, n: nat, s: nat)
    requires s < |ptref| && s < |next| && next[s] < |ptref|
  {
    ptref[s] < n && (ptref[next[s]] == ptref[s] <==> next[s] < n)
  }

  /** Point references and links of the first `sn` steps. */
  ghost predicate Refs(ptref: seq<nat>, next: seq<nat>, n: nat, sn: nat) {
    n <= sn <= |ptref| && sn <= |next| &&
    (forall p :: 0 <= p < n ==> ptref[p] == p) &&
    (forall s :: 0 <= s < sn ==> next[s] < sn && StepOK(ptref, next, n, s))
  }

  /** Point `x` links to a point of its own fragment, and non-root links go strictly up in depth. */
  ghost predicate NodeOK(root: seq<nat>, n: nat, comp: seq<nat>, depth: seq<nat>, x: nat)
    requires x < n <= |root| && |comp| == n && |depth| == n
  {
    root[x] < n && comp[x] < n && root[comp[x]] == comp[x] && comp[root[x]] == comp[x] &&
    (root[x] == x ==> comp[x] == x && depth[x] == 0) &&
    (root[x] != x ==> depth[root[x]] < depth[x])
  }

  /** The root links of the points form a forest whose trees are the fragments `comp`. */
  ghost predicate Forest(root: seq<nat>, n: nat, comp: seq<nat>, depth: seq<nat>) {
    n <= |root| && |comp| == n && |depth| == n &&
    forall x :: 0 <= x < n ==> NodeOK(root, n, comp, depth, x)
  }

  /** `roots` is the set of points that are their own root. */
  ghost predicate RootSet(root: seq<nat>, n: nat, roots: set<nat>) {
    n <= |root| &&
    (forall r :: r in roots ==> r < n) &&
    (forall x :: 0 <= x < n ==> (x in roots <==> root[x] == x))
  }

  /** The fragment of the point step `s` refers to. */
  ghost function FragOf(ptref: seq<nat>, comp: seq<nat>, s: nat): nat {
    if s < |ptref| && ptref[s] < |comp| then comp[ptref[s]] else 0
  }

  /** The ring recorded for root `r`. */
  ghost function RingAt(ring: seq<seq<nat>>, r: nat): seq<nat> {
    if r < |ring| then ring[r] else []
  }

  /** Every step of `s` is in use and belongs to fragment `r`. */
  ghost predicate Labeled(ptref: seq<nat>, comp: seq<nat>, sn: nat, s: seq<nat>, r: nat) {
    forall x {:trigger x in s} :: x in s ==> x < sn && FragOf(ptref, comp, x) == r
  }

  /** Each fragment is one ring holding exactly the steps whose points belong to it. */
  ghost predicate RingsOK(ptref: seq<nat>, next: seq<nat>, sn: nat, comp: seq<nat>,
                          roots: set<nat>, ring: seq<seq<nat>>) {
    (forall r {:trigger RingAt(ring, r)} :: r in roots ==>
       RingOK(RingAt(ring, r), next, sn) && Labeled(ptref, comp, sn, RingAt(ring, r), r)) &&
    (forall s :: 0 <= s < sn ==> s in RingAt(ring, FragOf(ptref, comp, s)))
  }

  /** The whole invariant of the arena: `n` points, `sn` steps in use, two fewer fragments per pair of copies. */
  ghost predicate Inv(ptref: seq<nat>, root: seq<nat>, next: seq<nat>, n: nat, sn: nat,
                      comp: seq<nat>, depth: seq<nat>, roots: set<nat>, ring: seq<seq<nat>>) {
    n >= 1 && |ptref| == Cap(n) && |root| == Cap(n) && |next| == Cap(n) && sn <= Cap(n) &&
    Refs(ptref, next, n, sn) && Forest(root, n, comp, depth) && RootSet(root, n, roots) &&
    |ring| == n && RingsOK(ptref, next, sn, comp, roots, ring) &&
    2 * |roots| + sn == 3 * n
  }

  /** The fragments after the one rooted at `d` is joined to the one rooted at `s`. */
  function Merge(comp: seq<nat>, d: nat, s: nat): (r: seq<nat>)
    ensures |r| == |comp|
    ensures forall x :: 0 <= x < |comp| ==> r[x] == (if comp[x] == d then s else comp[x])
  {
    seq(|comp|, x requires 0 <= x < |comp| => if comp[x] == d then s else comp[x])
  }

  /** Depths after the joining: the joined fragment hangs one level lower. */
  ghost function Bump(depth: seq<nat>, comp: seq<nat>, d: nat): (r: seq<nat>)
    requires |depth| == |comp|
    ensures |r| == |depth|
    ensures forall x :: 0 <= x < |depth| ==> r[x] == (if comp[x] == d then depth[x] + 1 else depth[x])
  {
    seq(|depth|, x requires 0 <= x < |depth| => if comp[x] == d then depth[x] + 1 else depth[x])
  }

  /** The arena after the steps `src` and `dst` are copied to `c` and `c + 1` (used for both `ptref` and `root`). */
  function Copied(a: seq<nat>, src: nat, dst: nat, c: nat): (r: seq<nat>)
    requires src < |a| && dst < |a| && c + 1 < |a|
    ensures |r| == |a|
  {
    a[c := a[src]][c + 1 := a[dst]]
  }

  /** The copies refer to the points of the originals, and the relinked steps keep the twin rule. */
  lemma SpliceRefs(ptref: seq<nat>, next: seq<nat>, n: nat, sn: nat, src: nat, dst: nat,
                   ptref': seq<nat>, next': seq<nat>)
    requires Refs(ptref, next, n, sn) && src < n && dst < n && src != dst
    requires sn + 2 <= |ptref| && sn + 2 <= |next|
    requires ptref' == Copied(ptref, src, dst, sn) && next' == Relinked(next, src, dst, sn)
    ensures Refs(ptref', next', n, sn + 2)
  {
    assert ptref'[sn] == src && ptref'[sn + 1] == dst;
    forall s | 0 <= s < sn + 2
      ensures next'[s] < sn + 2 && StepOK(ptref', next', n, s)
    {
      if s == sn {
        assert StepOK(ptref, next, n, src);
        assert next'[s] == next[src] && ptref'[s] == ptref[src];
      } else if s == sn + 1 {
        assert StepOK(ptref, next, n, dst);
        assert next'[s] == next[dst] && ptref'[s] == ptref[dst];
      } else {
        assert StepOK(ptref, next, n, s);
        if s != src && s != dst {
          assert next'[s] == next[s] && ptref'[s] == ptref[s];
        }
      }
    }
  }

  /** Fragment of each step after the splice: the copies and the whole fragment `dr` now belong to `sr`. */
  lemma SpliceFrag(ptref: seq<nat>, next: seq<nat>, n: nat, sn: nat, comp: seq<nat>,
                   src: nat, dst: nat, sr: nat, dr: nat)
    requires Refs(ptref, next, n, sn) && |comp| == n && sn + 2 <= |ptref|
    requires src < n && dst < n && comp[src] == sr && comp[dst] == dr
    ensures forall s :: 0 <= s < sn ==>
      FragOf(Copied(ptref, src, dst, sn), Merge(comp, dr, sr), s) ==
        (if FragOf(ptref, comp, s) == dr then sr else FragOf(ptref, comp, s))
    ensures FragOf(Copied(ptref, src, dst, sn), Merge(comp, dr, sr), sn) == sr
    ensures FragOf(Copied(ptref, src, dst, sn), Merge(comp, dr, sr), sn + 1) == sr
  {
    var ptref' := Copied(ptref, src, dst, sn);
    assert ptref'[sn] == src && ptref'[sn + 1] == dst;
    forall s | 0 <= s < sn
      ensures FragOf(ptref', Merge(comp, dr, sr), s) ==
        (if FragOf(ptref, comp, s) == dr then sr else FragOf(ptref, comp, s))
    {
      assert StepOK(ptref, next, n, s);
      assert ptref'[s] == ptref[s];
    }
  }

  /**
   * Splicing the rings of the fragments `sr` (at `src == ring[sr][i]`) and
   * `dr` (at `dst == ring[dr][j]`) leaves one ring per remaining fragment.
   */
  lemma SpliceRings(ptref: seq<nat>, next: seq<nat>, n: nat, sn: nat, comp: seq<nat>,
                    roots: set<nat>, ring: seq<seq<nat>>,
                    src: nat, dst: nat, sr: nat, dr: nat, i: nat, j: nat,
                    ptref': seq<nat>, next': seq<nat>, comp': seq<nat>, roots': set<nat>, ring': seq<seq<nat>>)
    requires Refs(ptref, next, n, sn) && |comp| == n && |ring| == n
    requires sn + 2 <= |ptref| && sn + 2 <= |next|
    requires RingsOK(ptref, next, sn, comp, roots, ring)
    requires sr in roots && dr in roots && sr != dr && sr < n && dr < n
    requires src < n && dst < n && comp[src] == sr && comp[dst] == dr
    requires i < |ring[sr]| && ring[sr][i] == src && j < |ring[dr]| && ring[dr][j] == dst
    requires ptref' == Copied(ptref, src, dst, sn) && next' == Relinked(next, src, dst, sn)
    requires comp' == Merge(comp, dr, sr) && roots' == roots - {dr}
    requires ring' == ring[sr := Spliced(ring[sr], ring[dr], i, j, sn)]
    ensures RingsOK(ptref', next', sn + 2, comp', roots', ring')
  {
    var a, b := ring[sr], ring[dr];
    var N := Spliced(a, b, i, j, sn);
    assert RingAt(ring, sr) == a && RingAt(ring, dr) == b;
    assert RingOK(a, next, sn) && Labeled(ptref, comp, sn, a, sr);
    assert RingOK(b, next, sn) && Labeled(ptref, comp, sn, b, dr);
    SpliceRing(a, b, next, sn, i, j);
    SplicedMembers(a, b, i, j, sn);
    RelinkedFrame(next, src, dst, sn);
    SpliceFrag(ptref, next, n, sn, comp, src, dst, sr, dr);
    RingAtUpdate(ring, sr, N);
    SpliceAfter(ptref, next, sn, comp, roots, ring, src, dst, sr, dr, ptref', next', comp', ring');
  }

  /** The splice step on an abstract post-state given by what it keeps and what it changes. */
  lemma SpliceAfter(ptref: seq<nat>, next: seq<nat>, sn: nat, comp: seq<nat>,
                    roots: set<nat>, ring: seq<seq<nat>>, src: nat, dst: nat, sr: nat, dr: nat,
                    ptref': seq<nat>, next': seq<nat>, comp': seq<nat>, ring': seq<seq<nat>>)
    requires RingsOK(ptref, next, sn, comp, roots, ring)
    requires sr in roots && dr in roots && sr != dr && sn <= |next| && sn + 2 <= |next'|
    requires FragOf(ptref, comp, src) == sr && FragOf(ptref, comp, dst) == dr
    requires RingOK(RingAt(ring', sr), next', sn + 2)
    requires forall x :: x in RingAt(ring', sr) <==>
      x in RingAt(ring, sr) || x in RingAt(ring, dr) || x == sn || x == sn + 1
    requires forall r :: r != sr ==> RingAt(ring', r) == RingAt(ring, r)
    requires forall x: nat :: x < sn && x != src && x != dst ==> next'[x] == next[x]
    requires forall s :: 0 <= s < sn ==>
      FragOf(ptref', comp', s) == (if FragOf(ptref, comp, s) == dr then sr else FragOf(ptref, comp, s))
    requires FragOf(ptref', comp', sn) == sr && FragOf(ptref', comp', sn + 1) == sr
    ensures RingsOK(ptref', next', sn + 2, comp', roots - {dr}, ring')
  {
    SpliceLabels(ptref, sn, comp, roots, ring, sr, dr, ptref', comp', ring');
    SpliceOthers(ptref, next, sn, comp, roots, ring, src, dst, sr, dr, next', ring');
    SpliceCover(ptref, next, sn, comp, roots, ring, sr, dr, ptref', comp', ring');
    Assemble(ptref', next', sn + 2, comp', roots - {dr}, ring', sr);
  }

  lemma RingAtUpdate(ring: seq<seq<nat>>, r: nat, s: seq<nat>)
    requires r < |ring|
    ensures RingAt(ring[r := s], r) == s
    ensures forall r' :: r' != r ==> RingAt(ring[r := s], r') == RingAt(ring, r')
  {
  }

  /** `RingsOK` from its parts, with the ring of `sr` given on its own. */
  lemma Assemble(ptref: seq<nat>, next: seq<nat>, sn: nat, comp: seq<nat>,
                 roots: set<nat>, ring: seq<seq<nat>>, sr: nat)
    requires RingOK(RingAt(ring, sr), next, sn)
    requires forall r :: r in roots && r != sr ==> RingOK(RingAt(ring, r), next, sn)
    requires forall r :: r in roots ==> Labeled(ptref, comp, sn, RingAt(ring, r), r)
    requires forall s :: 0 <= s < sn ==> s in RingAt(ring, FragOf(ptref, comp, s))
    ensures RingsOK(ptref, next, sn, comp, roots, ring)
  {
  }

  /** The rings other than the spliced one are untouched by the relinking. */
  lemma SpliceOthers(ptref: seq<nat>, next: seq<nat>, sn: nat, comp: seq<nat>,
                     roots: set<nat>, ring: seq<seq<nat>>,
                     src: nat, dst: nat, sr: nat, dr: nat, next': seq<nat>, ring': seq<seq<nat>>)
    requires RingsOK(ptref, next, sn, comp, roots, ring)
    requires sn <= |next| && sn + 2 <= |next'|
    requires FragOf(ptref, comp, src) == sr && FragOf(ptref, comp, dst) == dr
    requires forall x: nat :: x < sn && x != src && x != dst ==> next'[x] == next[x]
    requires forall r :: r != sr ==> RingAt(ring', r) == RingAt(ring, r)
    ensures forall r :: r in roots - {dr} && r != sr ==> RingOK(RingAt(ring', r), next', sn + 2)
  {
    forall r | r in roots - {dr} && r != sr
      ensures RingOK(RingAt(ring', r), next', sn + 2)
    {
      var s := RingAt(ring, r);
      assert RingOK(s, next, sn) && Labeled(ptref, comp, sn, s, r);
      RingFrame(s, next, sn, next', sn + 2);
    }
  }

  /** After the splice every remaining ring holds steps of its own fragment only. */
  lemma SpliceLabels(ptref: seq<nat>, sn: nat, comp: seq<nat>,
                     roots: set<nat>, ring: seq<seq<nat>>, sr: nat, dr: nat,
                     ptref': seq<nat>, comp': seq<nat>, ring': seq<seq<nat>>)
    requires forall r :: r in roots ==> Labeled(ptref, comp, sn, RingAt(ring, r), r)
    requires sr in roots && dr in roots && sr != dr
    requires forall r :: r != sr ==> RingAt(ring', r) == RingAt(ring, r)
    requires forall x :: x in RingAt(ring', sr) ==>
      x in RingAt(ring, sr) || x in RingAt(ring, dr) || x == sn || x == sn + 1
    requires forall s :: 0 <= s < sn ==>
      FragOf(ptref', comp', s) == (if FragOf(ptref, comp, s) == dr then sr else FragOf(ptref, comp, s))
    requires FragOf(ptref', comp', sn) == sr && FragOf(ptref', comp', sn + 1) == sr
    ensures forall r :: r in roots - {dr} ==> Labeled(ptref', comp', sn + 2, RingAt(ring', r), r)
  {
    forall r | r in roots - {dr}
      ensures Labeled(ptref', comp', sn + 2, RingAt(ring', r), r)
    {
      if r != sr {
        assert RingAt(ring', r) == RingAt(ring, r);
        assert Labeled(ptref, comp, sn, RingAt(ring, r), r);
      } else {
        assert Labeled(ptref, comp, sn, RingAt(ring, sr), sr);
        assert Labeled(ptref, comp, sn, RingAt(ring, dr), dr);
      }
    }
  }

  /** After the splice every step in use lies on the ring of its fragment. */
  lemma SpliceCover(ptref: seq<nat>, next: seq<nat>, sn: nat, comp: seq<nat>,
                    roots: set<nat>, ring: seq<seq<nat>>, sr: nat, dr: nat,
                    ptref': seq<nat>, comp': seq<nat>, ring': seq<seq<nat>>)
    requires RingsOK(ptref, next, sn, comp, roots, ring)
    requires forall r :: r != sr ==> RingAt(ring', r) == RingAt(ring, r)
    requires forall x :: x in RingAt(ring, sr) || x in RingAt(ring, dr) || x == sn || x == sn + 1 ==>
      x in RingAt(ring', sr)
    requires forall s :: 0 <= s < sn ==>
      FragOf(ptref', comp', s) == (if FragOf(ptref, comp, s) == dr then sr else FragOf(ptref, comp, s))
    requires FragOf(ptref', comp', sn) == sr && FragOf(ptref', comp', sn + 1) == sr
    ensures forall s :: 0 <= s < sn + 2 ==> s in RingAt(ring', FragOf(ptref', comp', s))
  {
    forall s | 0 <= s < sn + 2
      ensures s in RingAt(ring', FragOf(ptref', comp', s))
    {
      if s < sn {
        var f := FragOf(ptref, comp, s);
        assert s in RingAt(ring, f);
      }
    }
  }

  /** Path compression: pointing a non-root point straight at its root keeps the forest. */
  lemma Redirect(root: seq<nat>, n: nat, comp: seq<nat>, depth: seq<nat>, y: nat)
    requires Forest(root, n, comp, depth) && y < n && root[y] != y
    ensures Forest(root[y := comp[y]], n, comp, depth)
    ensures forall x :: 0 <= x < n ==> (root[y := comp[y]][x] == x <==> root[x] == x)
  {
    assert NodeOK(root, n, comp, depth, y);
    var r := comp[y];
    assert NodeOK(root, n, comp, depth, r);
    var root' := root[y := r];
    forall x | 0 <= x < n
      ensures NodeOK(root', n, comp, depth, x)
    {
      assert NodeOK(root, n, comp, depth, x);
      assert NodeOK(root, n, comp, depth, comp[x]);
    }
  }

  /** Linking root `d` under root `s` merges their fragments and keeps the forest. */
  lemma Link(root: seq<nat>, n: nat, comp: seq<nat>, depth: seq<nat>, roots: set<nat>, s: nat, d: nat)
    requires Forest(root, n, comp, depth) && RootSet(root, n, roots)
    requires s < n && d < n && root[s] == s && root[d] == d && s != d
    ensures Forest(root[d := s], n, Merge(comp, d, s), Bump(depth, comp, d))
    ensures RootSet(root[d := s], n, roots - {d})
  {
    var root' := root[d := s];
    var comp' := Merge(comp, d, s);
    var depth' := Bump(depth, comp, d);
    assert NodeOK(root, n, comp, depth, s) && NodeOK(root, n, comp, depth, d);
    forall x | 0 <= x < n
      ensures NodeOK(root', n, comp', depth', x)
    {
      assert NodeOK(root, n, comp, depth, x);
      assert NodeOK(root, n, comp, depth, comp[x]);
      assert NodeOK(root, n, comp, depth, root[x]);
    }
  }

  /** Initial arena: every point alone in its own ring. */
  lemma Initial(ptref: seq<nat>, root: seq<nat>, next: seq<nat>, n: nat, sn: nat,
                comp: seq<nat>, depth: seq<nat>, roots: set<nat>, ring: seq<seq<nat>>)
    requires n >= 1 && |ptref| == Cap(n) && |root| == Cap(n) && |next| == Cap(n)
    requires SelfLinked(ptref, root, next, n) && sn == n
    requires comp == Identity(n) && depth == Zeros(n) && roots == Range(n) && ring == Singletons(n)
    ensures Inv(ptref, root, next, n, sn, comp, depth, roots, ring)
  {
    RangeSize(n);
    RangeMember(n);
    InitialRings(ptref, next, n);
    forall x | 0 <= x < n
      ensures NodeOK(root, n, comp, depth, x)
    {
    }
  }

  lemma InitialRings(ptref: seq<nat>, next: seq<nat>, n: nat)
    requires n <= |ptref| && n <= |next|
    requires forall s :: 0 <= s < n ==> ptref[s] == s && next[s] == s
    ensures RingsOK(ptref, next, n, Identity(n), Range(n), Singletons(n))
  {
    var ring := Singletons(n);
    RangeMember(n);
    forall s | 0 <= s < n
      ensures s in RingAt(ring, FragOf(ptref, Identity(n), s))
    {
      assert FragOf(ptref, Identity(n), s) == s;
      assert RingAt(ring, s) == [s];
    }
    forall r | r in Range(n)
      ensures RingOK(RingAt(ring, r), next, n)
      ensures Labeled(ptref, Identity(n), n, RingAt(ring, r), r)
    {
      assert RingAt(ring, r) == [r];
    }
  }

  function Identity(n: nat): (r: seq<nat>)
    ensures |r| == n && forall x :: 0 <= x < n ==> r[x] == x
  {
    seq(n, x => x)
  }

  function Zeros(n: nat): (r: seq<nat>)
    ensures |r| == n && forall x :: 0 <= x < n ==> r[x] == 0
  {
    seq(n, x => 0)
  }

  ghost function Singletons(n: nat): (r: seq<seq<nat>>)
    ensures |r| == n && forall x :: 0 <= x < n ==> r[x] == [x]
  {
    seq(n, x => [x])
  }

  /** The indices below `n`. */
  function Range(n: nat): set<nat> {
    if n == 0 then {} else Range(n - 1) + {n - 1}
  }

  lemma {:induction false} RangeMember(n: nat)
    ensures forall x: nat :: x in Range(n) <==> x < n
  {
    if n > 0 {
      RangeMember(n - 1);
    }
  }

  lemma {:induction false} RangeSize(n: nat)
    ensures |Range(n)| == n
  {
    if n > 0 {
      RangeSize(n - 1);
      RangeMember(n - 1);
      assert n - 1 !in Range(n - 1);
    }
  }

  /** Root links below `n` are all the union-find state depends on. */
  lemma ForestFrame(root: seq<nat>, root': seq<nat>, n: nat, comp: seq<nat>, depth: seq<nat>, roots: set<nat>)
    requires Forest(root, n, comp, depth) && RootSet(root, n, roots)
    requires |root'| == |root| && forall x :: 0 <= x < n ==> root'[x] == root[x]
    ensures Forest(root', n, comp, depth) && RootSet(root', n, roots)
  {
    forall x | 0 <= x < n
      ensures NodeOK(root', n, comp, depth, x)
    {
      assert NodeOK(root, n, comp, depth, x);
    }
  }

  /** Where step `s` sits on the ring of its fragment. */
  lemma Locate(ptref: seq<nat>, next: seq<nat>, sn: nat, comp: seq<nat>,
               roots: set<nat>, ring: seq<seq<nat>>, s: nat) returns (i: nat)
    requires RingsOK(ptref, next, sn, comp, roots, ring) && s < sn
    requires FragOf(ptref, comp, s) < |ring|
    ensures i < |ring[FragOf(ptref, comp, s)]| && ring[FragOf(ptref, comp, s)][i] == s
  {
    var r := FragOf(ptref, comp, s);
    assert s in RingAt(ring, r);
    i :| 0 <= i < |ring[r]| && ring[r][i] == s;
  }

  /** Two distinct roots leave room for one more merge: `2 |roots| + sn == 3n` gives `sn + 2 <= 3n - 2`. */
  lemma TwoRoots(roots: set<nat>, a: nat, b: nat)
    requires a in roots && b in roots && a != b
    ensures |roots| >= 2
  {
    var rest := roots - {a};
    assert b in rest;
    assert |rest| == |roots| - 1;
  }

  /** The link `root[d] := s` of the roots of `src` and `dst`, merging their fragments when they differ. */
  lemma LinkStep(R: seq<nat>, n: nat, C: seq<nat>, D: seq<nat>, S: set<nat>,
                 src: nat, dst: nat, s: nat, d: nat,
                 R': seq<nat>, C': seq<nat>, D': seq<nat>, S': set<nat>)
    requires Forest(R, n, C, D) && RootSet(R, n, S) && src < n && dst < n
    requires s == C[src] && d == C[dst] && d < |R| && R' == R[d := s]
    requires C' == (if s != d then Merge(C, d, s) else C)
    requires D' == (if s != d then Bump(D, C, d) else D)
    requires S' == (if s != d then S - {d} else S)
    ensures Forest(R', n, C', D') && RootSet(R', n, S') && C'[dst] == s && C'[src] == s
    ensures s in S && d in S
  {
    assert NodeOK(R, n, C, D, src) && NodeOK(R, n, C, D, dst);
    assert NodeOK(R, n, C, D, s) && NodeOK(R, n, C, D, d);
    if s != d {
      Link(R, n, C, D, S, s, d);
    } else {
      assert R' == R;
    }
  }

  /** Path compression changes no root, so the root set stays. */
  lemma CompressedRoots(R0: seq<nat>, R: seq<nat>, n: nat, comp: seq<nat>, depth: seq<nat>, roots: set<nat>)
    requires Compressed(R0, R, n, comp, depth) && RootSet(R0, n, roots)
    ensures RootSet(R, n, roots)
  {
  }

  /** The arena invariant after the union-find links change and nothing else. */
  lemma RelinkRoots(ptref: seq<nat>, root: seq<nat>, next: seq<nat>, n: nat, sn: nat,
                    comp: seq<nat>, depth: seq<nat>, roots: set<nat>, ring: seq<seq<nat>>,
                    root0: seq<nat>, depth0: seq<nat>)
    requires Inv(ptref, root0, next, n, sn, comp, depth0, roots, ring)
    requires |root| == |root0| && Forest(root, n, comp, depth) && RootSet(root, n, roots)
    ensures Inv(ptref, root, next, n, sn, comp, depth, roots, ring)
  {
  }

  /** The arena invariant after a merge: the copies are appended and the rings of the two fragments spliced. */
  lemma SpliceInv(P: seq<nat>, R: seq<nat>, N: seq<nat>, n: nat, sn: nat,
                  C0: seq<nat>, S0: set<nat>, G0: seq<seq<nat>>,
                  src: nat, dst: nat, sr: nat, dr: nat, i: nat, j: nat,
                  ptref: seq<nat>, root: seq<nat>, next: seq<nat>, sn': nat,
                  comp: seq<nat>, depth: seq<nat>, roots: set<nat>, ring: seq<seq<nat>>)
    requires n >= 1 && |P| == Cap(n) && |R| == Cap(n) && |N| == Cap(n) && sn + 2 <= Cap(n)
    requires Refs(P, N, n, sn) && |C0| == n && |G0| == n && RingsOK(P, N, sn, C0, S0, G0)
    requires Forest(R, n, comp, depth) && RootSet(R, n, roots) && 2 * |S0| + sn == 3 * n
    requires sr in S0 && dr in S0 && sr != dr && sr < n && dr < n
    requires comp == Merge(C0, dr, sr) && roots == S0 - {dr}
    requires src < n && dst < n && C0[src] == sr && C0[dst] == dr
    requires i < |G0[sr]| && G0[sr][i] == src && j < |G0[dr]| && G0[dr][j] == dst
    requires ptref == Copied(P, src, dst, sn) && root == Copied(R, src, dst, sn)
    requires next == Relinked(N, src, dst, sn) && sn' == sn + 2
    requires ring == G0[sr := Spliced(G0[sr], G0[dr], i, j, sn)]
    ensures Inv(ptref, root, next, n, sn', comp, depth, roots, ring)
  {
    SpliceRefs(P, N, n, sn, src, dst, ptref, next);
    SpliceRings(P, N, n, sn, C0, S0, G0, src, dst, sr, dr, i, j, ptref, next, comp, roots, ring);
    ForestFrame(R, root, n, comp, depth, roots);
    MakeInv(ptref, root, next, n, sn', comp, depth, roots, ring);
  }

  lemma MakeInv(ptref: seq<nat>, root: seq<nat>, next: seq<nat>, n: nat, sn: nat,
                comp: seq<nat>, depth: seq<nat>, roots: set<nat>, ring: seq<seq<nat>>)
    requires n >= 1 && |ptref| == Cap(n) && |root| == Cap(n) && |next| == Cap(n) && sn <= Cap(n)
    requires Refs(ptref, next, n, sn) && Forest(root, n, comp, depth) && RootSet(root, n, roots)
    requires |ring| == n && RingsOK(ptref, next, sn, comp, roots, ring) && 2 * |roots| + sn == 3 * n
    ensures Inv(ptref, root, next, n, sn, comp, depth, roots, ring)
  {
  }

  /**
   * The `cycles` arena: `3n - 2` steps, of which the first `stepsNum` are in
   * use. The ghost fields record the fragments the arrays encode.
   */
  class CycleArena {
    const pointsNum: nat
    const ptref: array<nat>
    const root: array<nat>
    const next: array<nat>
    var stepsNum: nat
    ghost var comp: seq<nat>
    ghost var depth: seq<nat>
    ghost var roots: set<nat>
    ghost var ring: seq<seq<nat>>

    ghost predicate Valid()
      reads this, ptref, root, next
    {
      ptref != root && ptref != next && root != next &&
      Inv(ptref[..], root[..], next[..], pointsNum, stepsNum, comp, depth, roots, ring)
    }

    /** An arena of `3n - 2` steps for `n` points, none in use. */
    constructor (n: nat)
      requires n >= 1
      ensures pointsNum == n && stepsNum == 0
      ensures fresh(ptref) && fresh(root) && fresh(next)
      ensures ptref.Length == Cap(n) && root.Length == Cap(n) && next.Length == Cap(n)
      ensures ptref != root && ptref != next && root != next
    {
      pointsNum := n;
      ptref := new nat[Cap(n)](_ => 0);
      root := new nat[Cap(n)](_ => 0);
      next := new nat[Cap(n)](_ => 0);
      stepsNum := 0;
    }

    /** The first loop of the construction: every point becomes a step of its own, alone in its ring and its own root. */
    method InitSteps()
      requires pointsNum >= 1 && stepsNum == 0
      requires ptref.Length == Cap(pointsNum) && root.Length == Cap(pointsNum) && next.Length == Cap(pointsNum)
      requires ptref != root && ptref != next && root != next
      modifies this, ptref, root, next
      ensures Valid() && stepsNum == pointsNum && comp == Identity(pointsNum)
    {
      comp, depth, roots, ring := Identity(pointsNum), Zeros(pointsNum), Range(pointsNum), Singletons(pointsNum);
      SelfLink();
      Initial(ptref[..], root[..], next[..], pointsNum, stepsNum, comp, depth, roots, ring);
    }

    /** The loop of `InitSteps`. */
    method SelfLink()
      requires stepsNum == 0 && pointsNum <= ptref.Length && pointsNum <= root.Length && pointsNum <= next.Length
      modifies this`stepsNum, ptref, root, next
      ensures stepsNum == pointsNum && SelfLinked(ptref[..], root[..], next[..], pointsNum)
    {
      while stepsNum < pointsNum
        invariant stepsNum <= pointsNum
        invariant SelfLinked(ptref[..], root[..], next[..], stepsNum)
      {
        SelfLinkedStep(ptref[..], root[..], next[..], stepsNum);
        ptref[stepsNum] := stepsNum;
        root[stepsNum] := stepsNum;
        next[stepsNum] := stepsNum;
        stepsNum := stepsNum + 1;
      }
    }

    /**
     * Adds the edge (src, dst) to the forest of fragments: both roots are
     * found (with path compression), the root of `dst` is linked under the
     * root of `src`, and when they were different fragments the two rings are
     * spliced through copies of `src` and `dst` appended at `stepsNum`.
     */
    method AddEdge(src: nat, dst: nat)
      requires Valid() && src < pointsNum && dst < pointsNum
      modifies this, ptref, root, next
      ensures Valid() && comp[src] == comp[dst]
      ensures old(comp[src]) == old(comp[dst]) ==>
        stepsNum == old(stepsNum) && comp == old(comp) && roots == old(roots) && ring == old(ring) &&
        ptref[..] == old(ptref[..]) && next[..] == old(next[..])
      ensures old(comp[src]) != old(comp[dst]) ==>
        stepsNum == old(stepsNum) + 2 &&
        comp == Merge(old(comp), old(comp[dst]), old(comp[src])) &&
        roots == old(roots) - {old(comp[dst])} &&
        ptref[..] == Copied(old(ptref[..]), src, dst, old(stepsNum)) &&
        next[..] == Relinked(old(next[..]), src, dst, old(stepsNum))
    {
      ghost var R0, D0, C0, S0 := root[..], depth, comp, roots;
      var sr, dr := Unite(src, dst);
      if sr == dr {
        RelinkRoots(ptref[..], root[..], next[..], pointsNum, stepsNum, comp, depth, roots, ring, R0, D0);
        return;
      }
      Splice(src, dst, sr, dr, C0, S0, R0, D0);
    }

    /** The union-find half of `AddEdge`: finds both roots, compresses both paths and links the roots. */
    method Unite(src: nat, dst: nat) returns (sr: nat, dr: nat)
      requires Forest(root[..], pointsNum, comp, depth) && RootSet(root[..], pointsNum, roots)
      requires src < pointsNum && dst < pointsNum
      modifies this, root
      ensures sr == old(comp[src]) && dr == old(comp[dst]) && sr < pointsNum && dr < pointsNum
      ensures stepsNum == old(stepsNum) && ring == old(ring) && |root[..]| == |old(root[..])|
      ensures Forest(root[..], pointsNum, comp, depth) && RootSet(root[..], pointsNum, roots)
      ensures sr == dr ==> comp == old(comp) && roots == old(roots)
      ensures sr != dr ==>
        sr in old(roots) && dr in old(roots) && comp == Merge(old(comp), dr, sr) && roots == old(roots) - {dr}
    {
      ghost var n := pointsNum;
      var srcRoot := FindRoot(src);
      ghost var R0 := root[..];
      Compress(src, srcRoot);
      CompressedRoots(R0, root[..], n, comp, depth, roots);
      var dstRoot := FindRoot(dst);
      assert NodeOK(root[..], n, comp, depth, dst);
      var doMerge := srcRoot != dstRoot;
      ghost var R1, C1, D1, S1 := root[..], comp, depth, roots;
      comp := if doMerge then Merge(C1, dstRoot, srcRoot) else C1;
      depth := if doMerge then Bump(D1, C1, dstRoot) else D1;
      roots := if doMerge then S1 - {dstRoot} else S1;
      root[dstRoot] := srcRoot;
      LinkStep(R1, n, C1, D1, S1, src, dst, srcRoot, dstRoot, root[..], comp, depth, roots);
      ghost var R2 := root[..];
      Compress(dst, srcRoot);
      CompressedRoots(R2, root[..], n, comp, depth, roots);
      sr, dr := srcRoot, dstRoot;
    }

    /** The arena half of `AddEdge`: copies `src` and `dst` to two new steps and crosses their links. */
    method Splice(src: nat, dst: nat, sr: nat, dr: nat,
                  ghost C0: seq<nat>, ghost S0: set<nat>, ghost R0: seq<nat>, ghost D0: seq<nat>)
      requires ptref != root && ptref != next && root != next
      requires Inv(ptref[..], R0, next[..], pointsNum, stepsNum, C0, D0, S0, ring)
      requires |root[..]| == |R0| && Forest(root[..], pointsNum, comp, depth) && RootSet(root[..], pointsNum, roots)
      requires src < pointsNum && dst < pointsNum && sr == C0[src] && dr == C0[dst]
      requires sr != dr && sr in S0 && dr in S0 && comp == Merge(C0, dr, sr) && roots == S0 - {dr}
      modifies this, ptref, root, next
      ensures Valid()
      ensures stepsNum == old(stepsNum) + 2 && comp == old(comp) && roots == old(roots)
      ensures ptref[..] == Copied(old(ptref[..]), src, dst, old(stepsNum))
      ensures next[..] == Relinked(old(next[..]), src, dst, old(stepsNum))
    {
      ghost var n := pointsNum;
      ghost var P, R, N, G0 := ptref[..], root[..], next[..], ring;
      var c := stepsNum;
      TwoRoots(S0, sr, dr);
      assert P[src] == src && P[dst] == dst;
      ghost var i := Locate(P, N, c, C0, S0, G0, src);
      ghost var j := Locate(P, N, c, C0, S0, G0, dst);
      CopySteps(src, dst, c);
      stepsNum := c + 2;
      ring := G0[sr := Spliced(G0[sr], G0[dr], i, j, c)];
      SpliceInv(P, R, N, n, c, C0, S0, G0, src, dst, sr, dr, i, j,
                ptref[..], root[..], next[..], stepsNum, comp, depth, roots, ring);
    }

    /** Appends copies of the steps `src` and `dst` at `c` and `c + 1`, and links `src` to the copy of `dst` and `dst` to the copy of `src`. */
    method CopySteps(src: nat, dst: nat, c: nat)
      requires ptref != root && ptref != next && root != next
      requires src < c && dst < c && src != dst
      requires c + 1 < ptref.Length && c + 1 < root.Length && c + 1 < next.Length
      modifies ptref, root, next
      ensures ptref[..] == Copied(old(ptref[..]), src, dst, c)
      ensures root[..] == Copied(old(root[..]), src, dst, c)
      ensures next[..] == Relinked(old(next[..]), src, dst, c)
    {
      ptref[c] := ptref[src];
      root[c] := root[src];
      next[c] := next[src];
      ptref[c + 1] := ptref[dst];
      root[c + 1] := root[dst];
      next[c + 1] := next[dst];
      next[src] := c + 1;
      next[dst] := c;
    }

    /** Follows the root links from point `x` to the root of its fragment. */
    method FindRoot(x: nat) returns (r: nat)
      requires x < pointsNum && Forest(root[..], pointsNum, comp, depth)
      ensures r == comp[x]
    {
      ghost var R, C, D := root[..], comp, depth;
      r := x;
      while root[r] != r
        invariant r < pointsNum && C[r] == C[x]
        decreases D[r]
      {
        assert NodeOK(R, pointsNum, C, D, r);
        r := root[r];
      }
      assert NodeOK(R, pointsNum, C, D, r);
    }

    /** Path compression: every point on the way from `x` to its root `r` is linked straight to `r`. */
    method Compress(x: nat, r: nat)
      requires x < pointsNum && Forest(root[..], pointsNum, comp, depth) && r == comp[x]
      modifies root
      ensures Compressed(old(root[..]), root[..], pointsNum, comp, depth)
      ensures root[x] == r
    {
      ghost var R0, C, D := root[..], comp, depth;
      var aux: nat := x;
      while root[aux] != r
        invariant Compressed(R0, root[..], pointsNum, C, D)
        invariant aux < pointsNum && C[aux] == r
        invariant aux != x ==> root[x] == r
        decreases D[aux]
      {
        var tmp := root[aux];
        CompressStep(R0, root[..], pointsNum, C, D, aux);
        root[aux] := r;
        aux := tmp;
      }
    }
  }

  /** The first `s` steps refer to themselves in all three fields. */
  ghost predicate SelfLinked(ptref: seq<nat>, root: seq<nat>, next: seq<nat>, s: nat) {
    s <= |ptref| && s <= |root| && s <= |next| &&
    forall k :: 0 <= k < s ==> ptref[k] == k && root[k] == k && next[k] == k
  }

  lemma SelfLinkedStep(ptref: seq<nat>, root: seq<nat>, next: seq<nat>, s: nat)
    requires SelfLinked(ptref, root, next, s) && s < |ptref| && s < |root| && s < |next|
    ensures SelfLinked(ptref[s := s], root[s := s], next[s := s], s + 1)
  {
  }

  /** Root links after some path compression from `R0`: still a forest of the same fragments with the same roots. */
  ghost predicate Compressed(R0: seq<nat>, R: seq<nat>, n: nat, comp: seq<nat>, depth: seq<nat>) {
    |R| == |R0| && Forest(R, n, comp, depth) &&
    (forall y :: 0 <= y < n ==> (R[y] == y <==> R0[y] == y)) &&
    (forall y :: n <= y < |R| ==> R[y] == R0[y])
  }

  /** One step of path compression keeps the forest, moving to a point closer to the root. */
  lemma CompressStep(R0: seq<nat>, R: seq<nat>, n: nat, comp: seq<nat>, depth: seq<nat>, y: nat)
    requires Compressed(R0, R, n, comp, depth) && y < n && R[y] != comp[y]
    ensures R[y] < n && comp[R[y]] == comp[y] && depth[R[y]] < depth[y]
    ensures Compressed(R0, R[y := comp[y]], n, comp, depth)
  {
    assert NodeOK(R, n, comp, depth, y);
    Redirect(R, n, comp, depth, y);
  }
}
