/**
 * The fixed-length list of doubles. Values are only stored and returned, so a
 * `real` stands for a `double`; reads out of range give 0.0 and writes out of
 * range are ignored.
 */
module DoublesList {

  /** Value read from slot `index` of contents `s`. */
  function DoubleAt(s: seq<real>, index: int): (r: real)
    ensures 0 <= index < |s| ==> r == s[index]
    ensures !(0 <= index < |s|) ==> r == 0.0
  {
    if 0 <= index < |s| then s[index] else 0.0
  }

  /** Contents after writing `v` to slot `index`. */
  function UpdateAt(s: seq<real>, index: int, v: real): (r: seq<real>)
    ensures |r| == |s|
    ensures forall j :: 0 <= j < |s| ==> r[j] == (if j == index then v else s[j])
  {
    if 0 <= index < |s| then s[index := v] else s
  }

  /** A read after a write sees the value written at that slot and the old value at any other. */
  lemma DoubleAfterUpdate(s: seq<real>, i: int, v: real, j: int)
    ensures DoubleAt(UpdateAt(s, i, v), j) ==
            (if i == j && 0 <= i < |s| then v else DoubleAt(s, j))
  {
  }

  class DoublesList {
    const doubles: array<real>

    /** A list of `n` zeros. */
    constructor (n: nat)
      ensures fresh(doubles)
      ensures doubles.Length == n
      ensures forall i :: 0 <= i < n ==> doubles[i] == 0.0
    {
      doubles := new real[n](_ => 0.0);
    }
  }

  /** The length fixed at creation; 0 for an absent list. */
  function DoublesNum(dl: DoublesList?): (r: nat)
    ensures dl == null ==> r == 0
    ensures dl != null ==> r == dl.doubles.Length
  {
    if dl == null then 0 else dl.doubles.Length
  }

  /** 0.0 for an absent list or an out-of-range index, the stored value otherwise. */
  function GetDouble(dl: DoublesList?, index: int): (r: real)
    reads if dl == null then {} else {dl.doubles}
    ensures dl == null ==> r == 0.0
    ensures dl != null ==> r == DoubleAt(dl.doubles[..], index)
  {
    if dl == null then 0.0 else DoubleAt(dl.doubles[..], index)
  }

  /** Stores `v` at `index`; an absent list or an out-of-range index is silently ignored. */
  method SetDouble(dl: DoublesList?, index: int, v: real)
    modifies if dl == null then {} else {dl.doubles}
    ensures dl != null ==> dl.doubles[..] == UpdateAt(old(dl.doubles[..]), index, v)
  {
    if dl == null {
      return;
    }
    if 0 <= index < dl.doubles.Length {
      dl.doubles[index] := v;
    }
  }
}
