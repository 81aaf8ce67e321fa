/** Finding the ends of a row of laid-out images. Each image is known by
    the left offset of its box, in document order; `traverseUntil` walks
    from one image to its neighbours until a test on the neighbour's and
    the current image's offsets holds, or there is no neighbour. */
module Layout {

  /** `traverseUntil`: walk forward (`next()`) or backward (`prev()`) from
      `start` and stop at the last image before `test(neighbour, current)`
      first holds. The result is that image's index. */
  method TraverseUntil(lefts: seq<real>, start: nat, forward: bool, test: (real, real) -> bool)
    returns (k: nat)
    requires start < |lefts|
    ensures k < |lefts|
    ensures forward ==> (start <= k
      && (forall j :: start <= j < k ==> !test(lefts[j + 1], lefts[j]))
      && (k == |lefts| - 1 || test(lefts[k + 1], lefts[k])))
    ensures !forward ==> (k <= start
      && (forall j :: k < j <= start ==> !test(lefts[j - 1], lefts[j]))
      && (k == 0 || test(lefts[k - 1], lefts[k])))
  {
    k := start;
    var ofs := lefts[k];
    while true
      invariant k < |lefts| && ofs == lefts[k]
      invariant forward ==> start <= k && forall j :: start <= j < k ==> !test(lefts[j + 1], lefts[j])
      invariant !forward ==> k <= start && forall j :: k < j <= start ==> !test(lefts[j - 1], lefts[j])
      decreases if forward then |lefts| - k else k
    {
      if forward && k + 1 == |lefts| { break; }
      if !forward && k == 0 { break; }
      var prev := if forward then k + 1 else k - 1;
      var pofs := lefts[prev];
      if test(pofs, ofs) { break; }
      k := prev;
      ofs := pofs;
    }
  }

  /** `searchRight`: the end of the row, reached by moving right while the
      next image starts strictly further right. */
  method SearchRight(lefts: seq<real>, start: nat) returns (k: nat)
    requires start < |lefts|
    ensures start <= k < |lefts|
    ensures forall j :: start <= j < k ==> lefts[j] < lefts[j + 1]
    ensures k == |lefts| - 1 || lefts[k + 1] <= lefts[k]
  {
    k := TraverseUntil(lefts, start, true, (p, o) => p <= o);
  }

  /** `searchLeft`: the start of the row, reached by moving left while the
      previous image starts strictly further left. */
  method SearchLeft(lefts: seq<real>, start: nat) returns (k: nat)
    requires start < |lefts|
    ensures k <= start
    ensures forall j :: k < j <= start ==> lefts[j - 1] < lefts[j]
    ensures k == 0 || lefts[k] <= lefts[k - 1]
  {
    k := TraverseUntil(lefts, start, false, (p, o) => p >= o);
  }

  /** What `searchRight` promises pins its result down: the row end. */
  predicate IsRowEnd(lefts: seq<real>, start: nat, k: nat)
  {
    start <= k < |lefts|
    && (forall j :: start <= j < k ==> lefts[j] < lefts[j + 1])
    && (k == |lefts| - 1 || lefts[k + 1] <= lefts[k])
  }

  predicate IsRowStart(lefts: seq<real>, start: nat, k: nat)
  {
    k <= start < |lefts|
    && (forall j :: k < j <= start ==> lefts[j - 1] < lefts[j])
    && (k == 0 || lefts[k] <= lefts[k - 1])
  }

  /** There is only one row end: the first place, at or after `start`, where
      the offsets stop increasing. */
  lemma RowEndUnique(lefts: seq<real>, start: nat, k1: nat, k2: nat)
    requires IsRowEnd(lefts, start, k1) && IsRowEnd(lefts, start, k2)
    ensures k1 == k2
  {
  }

  lemma RowStartUnique(lefts: seq<real>, start: nat, k1: nat, k2: nat)
    requires IsRowStart(lefts, start, k1) && IsRowStart(lefts, start, k2)
    ensures k1 == k2
  {
  }

  /** The row that holds `start` runs from its row start to its row end, and
      the offsets increase strictly along it. */
  lemma {:induction false} RowIncreasing(lefts: seq<real>, start: nat, s: nat, e: nat, i: nat, j: nat)
    requires IsRowStart(lefts, start, s) && IsRowEnd(lefts, start, e)
    requires s <= i < j <= e
    ensures lefts[i] < lefts[j]
    decreases j - i
  {
    assert lefts[j - 1] < lefts[j];
    if i < j - 1 {
      RowIncreasing(lefts, start, s, e, i, j - 1);
    }
  }
}
