/**
 * Rings of step slots. Each fragment of the tour under construction is a
 * cyclic chain of slots linked by their `next` fields; a ring is written down
 * as the sequence of its slots in `next` order, starting anywhere.
 */
module Rings {

  /** No slot occurs twice. */
  ghost predicate Distinct(s: seq<nat>) {
    forall k, l :: 0 <= k < l < |s| ==> s[k] != s[l]
  }

  /** Consecutive slots of `s` are linked by `next`. */
  ghost predicate Path(s: seq<nat>, next: seq<nat>) {
    (forall k :: 0 <= k < |s| ==> s[k] < |next|) &&
    forall k :: 0 <= k < |s| - 1 ==> next[s[k]] == s[k + 1]
  }

  /** `s` is a closed chain of distinct slots below `sn`: the last one links back to the first. */
  ghost predicate RingOK(s: seq<nat>, next: seq<nat>, sn: nat) {
    0 < |s| && sn <= |next| &&
    (forall k :: 0 <= k < |s| ==> s[k] < sn) &&
    Distinct(s) && Path(s, next) && next[s[|s| - 1]] == s[0]
  }

  /** The same ring read from position `i`. */
  function Rot(s: seq<nat>, i: nat): (r: seq<nat>)
    requires i <= |s|
    ensures |r| == |s|
  {
    s[i..] + s[..i]
  }

  lemma RotMembers(s: seq<nat>, i: nat)
    requires i <= |s|
    ensures forall x :: x in Rot(s, i) <==> x in s
  {
    assert s == s[..i] + s[i..];
  }

  /** Reading a ring from any of its slots gives a ring with the same slots, starting there. */
  lemma RotRing(s: seq<nat>, next: seq<nat>, sn: nat, i: nat)
    requires RingOK(s, next, sn) && i < |s|
    ensures RingOK(Rot(s, i), next, sn)
    ensures Rot(s, i)[0] == s[i]
    ensures forall x :: x in Rot(s, i) <==> x in s
  {
    var r := Rot(s, i);
    var L := |s|;
    RotMembers(s, i);
    forall k, l | 0 <= k < l < L
      ensures r[k] != r[l]
    {
      var k' := if k < L - i then i + k else k - (L - i);
      var l' := if l < L - i then i + l else l - (L - i);
      assert r[k] == s[k'] && r[l] == s[l'] && k' != l';
    }
    forall k | 0 <= k < L - 1
      ensures next[r[k]] == r[k + 1]
    {
      if k + 1 < L - i {
        assert r[k] == s[i + k] && r[k + 1] == s[i + k + 1];
      } else if k + 1 == L - i {
        assert r[k] == s[L - 1] && r[k + 1] == s[0];
      } else {
        assert r[k] == s[k - (L - i)] && r[k + 1] == s[k + 1 - (L - i)];
      }
    }
    if i > 0 {
      assert r[L - 1] == s[i - 1] && r[0] == s[i];
    }
  }

  lemma DistinctConcat(a: seq<nat>, b: seq<nat>)
    requires Distinct(a) && Distinct(b)
    requires forall x :: x in a ==> x !in b
    ensures Distinct(a + b)
  {
    var c := a + b;
    forall k, l | 0 <= k < l < |c|
      ensures c[k] != c[l]
    {
      if l < |a| {
        assert c[k] == a[k] && c[l] == a[l];
      } else if k >= |a| {
        assert c[k] == b[k - |a|] && c[l] == b[l - |a|];
      } else {
        assert c[k] == a[k] && c[l] == b[l - |a|] && a[k] in a;
      }
    }
  }

  lemma PathConcat(a: seq<nat>, b: seq<nat>, next: seq<nat>)
    requires Path(a, next) && Path(b, next)
    requires |a| > 0 && |b| > 0 ==> next[a[|a| - 1]] == b[0]
    ensures Path(a + b, next)
  {
    var c := a + b;
    forall k | 0 <= k < |c| - 1
      ensures next[c[k]] == c[k + 1]
    {
      if k + 1 < |a| {
        assert c[k] == a[k] && c[k + 1] == a[k + 1];
      } else if k + 1 == |a| {
        assert c[k] == a[|a| - 1] && c[k + 1] == b[0];
      } else {
        assert c[k] == b[k - |a|] && c[k + 1] == b[k + 1 - |a|];
      }
    }
  }

  /** A path stays a path under a `next` that agrees on all its slots but the last. */
  lemma PathFrame(s: seq<nat>, next: seq<nat>, next': seq<nat>)
    requires Path(s, next)
    requires forall k :: 0 <= k < |s| ==> s[k] < |next'|
    requires forall k :: 0 <= k < |s| - 1 ==> next'[s[k]] == next[s[k]]
    ensures Path(s, next')
  {
  }

  /** A ring stays a ring under a `next` that agrees on its slots. */
  lemma RingFrame(s: seq<nat>, next: seq<nat>, sn: nat, next': seq<nat>, sn': nat)
    requires RingOK(s, next, sn) && sn <= sn' <= |next'|
    requires forall x :: x in s ==> next'[x] == next[x]
    ensures RingOK(s, next', sn')
  {
    assert forall k :: 0 <= k < |s| ==> s[k] in s;
    PathFrame(s, next, next');
  }

  lemma PathSuffix(s: seq<nat>, next: seq<nat>, i: nat)
    requires Path(s, next) && i <= |s|
    ensures Path(s[i..], next)
  {
    forall k | 0 <= k < |s[i..]| - 1
      ensures next[s[i..][k]] == s[i..][k + 1]
    {
      assert s[i..][k] == s[i + k] && s[i..][k + 1] == s[i + k + 1];
    }
  }

  /** The slots of ring `s` after `s[i]`, up to the one that links back to it. */
  function After(s: seq<nat>, i: nat): seq<nat>
    requires i < |s|
  {
    Rot(s, i)[1..]
  }

  /** Ring `s` read from its slot `s[i]`, with that slot moved to the end and the new slot `c` in front. */
  function Side(s: seq<nat>, i: nat, c: nat): seq<nat>
    requires i < |s|
  {
    [c] + After(s, i) + [s[i]]
  }

  /**
   * The ring of two merged fragments: from the new slot `c + 1` (a copy of
   * `dst == b[j]`) around `b` to `dst`, then from the new slot `c` (a copy of
   * `src == a[i]`) around `a` to `src`, which links back to `c + 1`.
   */
  function Spliced(a: seq<nat>, b: seq<nat>, i: nat, j: nat, c: nat): seq<nat>
    requires i < |a| && j < |b|
  {
    Side(b, j, c + 1) + Side(a, i, c)
  }

  /** `next` after the two new slots copy `src` and `dst` and the two old slots are relinked to them. */
  function Relinked(next: seq<nat>, src: nat, dst: nat, c: nat): (r: seq<nat>)
    requires src < |next| && dst < |next| && c + 1 < |next|
    ensures |r| == |next|
  {
    next[c := next[src]][c + 1 := next[dst]][src := c + 1][dst := c]
  }

  /** The relinking changes no slot below `c` other than `src` and `dst`. */
  lemma RelinkedFrame(next: seq<nat>, src: nat, dst: nat, c: nat)
    requires src < |next| && dst < |next| && c + 1 < |next|
    ensures forall x: nat :: x < c && x != src && x != dst ==> Relinked(next, src, dst, c)[x] == next[x]
  {
  }


  lemma AfterOK(s: seq<nat>, next: seq<nat>, sn: nat, i: nat)
    requires RingOK(s, next, sn) && i < |s|
    ensures var t := After(s, i);
      Path(t, next) && Distinct(t) &&
      (forall x :: x in t <==> x in s && x != s[i]) &&
      (forall k :: 0 <= k < |t| ==> t[k] < sn) &&
      (|t| > 0 ==> t[0] == next[s[i]] && next[t[|t| - 1]] == s[i]) &&
      (|t| == 0 ==> next[s[i]] == s[i])
  {
    var r := Rot(s, i);
    RotRing(s, next, sn, i);
    var t := r[1..];
    assert r == [r[0]] + t;
    PathSuffix(r, next, 1);
    forall k, l | 0 <= k < l < |t|
      ensures t[k] != t[l]
    {
      assert t[k] == r[k + 1] && t[l] == r[l + 1];
    }
    forall k | 0 <= k < |t|
      ensures t[k] < sn
    {
      assert t[k] == r[k + 1];
    }
    if |t| > 0 {
      assert t[|t| - 1] == r[|r| - 1];
    }
  }

  /** A chain `t` from `next[x]` back to `x`, prefixed with a new slot `c` standing for `x`, is a path under the new links. */
  lemma SidePath(t: seq<nat>, x: nat, c: nat, o: nat, next: seq<nat>, n': seq<nat>, sn: nat)
    requires Path(t, next) && x < sn <= c < |n'| && |n'| == |next|
    requires forall k :: 0 <= k < |t| ==> t[k] < sn && t[k] != x && t[k] != o
    requires |t| > 0 ==> t[0] == next[x] && next[t[|t| - 1]] == x
    requires |t| == 0 ==> next[x] == x
    requires n'[c] == next[x]
    requires forall y: nat :: y < sn && y != x && y != o ==> n'[y] == next[y]
    ensures Path([c] + t + [x], n')
  {
    PathFrame(t, next, n');
    PathConcat([c], t, n');
    var u := [c] + t;
    if |t| > 0 {
      assert u[|u| - 1] == t[|t| - 1];
    }
    PathConcat(u, [x], n');
  }

  /** The same chain with its two ends has no repeated slot, and all its slots are at most `c`. */
  lemma SideDistinct(t: seq<nat>, x: nat, c: nat, sn: nat)
    requires Distinct(t) && x < sn <= c
    requires forall k :: 0 <= k < |t| ==> t[k] < sn && t[k] != x
    ensures Distinct([c] + t + [x])
    ensures forall k :: 0 <= k < |[c] + t + [x]| ==> ([c] + t + [x])[k] < c + 1
  {
    DistinctConcat([c], t);
    var u := [c] + t;
    assert forall y :: y in u ==> y != x;
    DistinctConcat(u, [x]);
    var v := u + [x];
    forall k | 0 <= k < |v|
      ensures v[k] < c + 1
    {
      if 0 < k < |v| - 1 {
        assert v[k] == t[k - 1];
      }
    }
  }

  /** One side of the splice is a path of distinct slots under the new links. */
  lemma SideOK(s: seq<nat>, next: seq<nat>, sn: nat, i: nat, c: nat, o: nat, n': seq<nat>)
    requires RingOK(s, next, sn) && i < |s| && sn <= c < |n'| && |n'| == |next|
    requires n'[c] == next[s[i]] && o !in s
    requires forall x: nat :: x < sn && x != s[i] && x != o ==> n'[x] == next[x]
    ensures Path(Side(s, i, c), n') && Distinct(Side(s, i, c))
    ensures forall k :: 0 <= k < |Side(s, i, c)| ==> Side(s, i, c)[k] < c + 1
    ensures Side(s, i, c)[0] == c && Side(s, i, c)[|Side(s, i, c)| - 1] == s[i]
  {
    var t := After(s, i);
    AfterOK(s, next, sn, i);
    assert forall k :: 0 <= k < |t| ==> t[k] in t;
    SidePath(t, s[i], c, o, next, n', sn);
    SideDistinct(t, s[i], c, sn);
  }

  /** Two disjoint paths, each linked to the start of the other, form one ring. */
  lemma ConcatRing(p: seq<nat>, q: seq<nat>, next: seq<nat>, sn: nat)
    requires Path(p, next) && Path(q, next) && Distinct(p) && Distinct(q)
    requires 0 < |p| && 0 < |q| && sn <= |next|
    requires forall x :: x in p ==> x !in q
    requires forall k :: 0 <= k < |p| ==> p[k] < sn
    requires forall k :: 0 <= k < |q| ==> q[k] < sn
    requires next[p[|p| - 1]] == q[0] && next[q[|q| - 1]] == p[0]
    ensures RingOK(p + q, next, sn)
  {
    PathConcat(p, q, next);
    DistinctConcat(p, q);
    var N := p + q;
    assert N[|N| - 1] == q[|q| - 1] && N[0] == p[0];
    forall k | 0 <= k < |N|
      ensures N[k] < sn
    {
      if k < |p| {
        assert N[k] == p[k];
      } else {
        assert N[k] == q[k - |p|];
      }
    }
  }

  /** The slots of ring `s` are all below `sn`. */
  lemma RingBound(s: seq<nat>, next: seq<nat>, sn: nat)
    requires RingOK(s, next, sn)
    ensures forall x :: x in s ==> x < sn
  {
    forall x | x in s
      ensures x < sn
    {
      var k :| 0 <= k < |s| && s[k] == x;
    }
  }

  /** One side of the splice holds the slots of `s` and the new slot `c`. */
  lemma SideMembers(s: seq<nat>, i: nat, c: nat)
    requires i < |s|
    ensures forall x :: x in Side(s, i, c) <==> x == c || x in s
  {
    RotMembers(s, i);
    var r := Rot(s, i);
    assert r[0] == s[i];
    assert r == [r[0]] + r[1..];
  }

  /** The merged ring holds the slots of both rings and the two new slots. */
  lemma SplicedMembers(a: seq<nat>, b: seq<nat>, i: nat, j: nat, c: nat)
    requires i < |a| && j < |b|
    ensures forall x :: x in Spliced(a, b, i, j, c) <==> x in a || x in b || x == c || x == c + 1
  {
    SideMembers(b, j, c + 1);
    SideMembers(a, i, c);
  }

  /** The two sides of a splice of disjoint rings share no slot, and each cut slot lies on its own ring only. */
  lemma SidesDisjoint(a: seq<nat>, b: seq<nat>, next: seq<nat>, sn: nat, i: nat, j: nat)
    requires RingOK(a, next, sn) && RingOK(b, next, sn)
    requires i < |a| && j < |b|
    requires forall x :: x in a ==> x !in b
    ensures forall x :: x in Side(b, j, sn + 1) ==> x !in Side(a, i, sn)
    ensures a[i] !in b && b[j] !in a
  {
    RingBound(a, next, sn);
    RingBound(b, next, sn);
    SideMembers(b, j, sn + 1);
    SideMembers(a, i, sn);
    assert a[i] in a && b[j] in b;
  }

  /** Splicing two disjoint rings at `src == a[i]` and `dst == b[j]` gives one ring of all their slots and two new ones. */
  lemma SpliceRing(a: seq<nat>, b: seq<nat>, next: seq<nat>, sn: nat, i: nat, j: nat)
    requires RingOK(a, next, sn) && RingOK(b, next, sn) && sn + 2 <= |next|
    requires i < |a| && j < |b|
    requires forall x :: x in a ==> x !in b
    ensures RingOK(Spliced(a, b, i, j, sn), Relinked(next, a[i], b[j], sn), sn + 2)
  {
    var n' := Relinked(next, a[i], b[j], sn);
    SidesDisjoint(a, b, next, sn, i, j);
    RelinkedFrame(next, a[i], b[j], sn);
    SideOK(b, next, sn, j, sn + 1, a[i], n');
    SideOK(a, next, sn, i, sn, b[j], n');
    ConcatRing(Side(b, j, sn + 1), Side(a, i, sn), n', sn + 2);
  }
}
