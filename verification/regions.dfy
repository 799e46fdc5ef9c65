/**
 The fixed face-region configuration: the five parts, the landmark indices of
 the refined face mesh that outline each part, and the two fixed orders the
 pipeline uses (the table's own key order and the tie-break priority).
 */
module Regions {

  /** The five face parts (이마, 코, 왼쪽볼, 오른쪽볼, 턱). */
  datatype Region = Forehead | Nose | LeftCheek | RightCheek | Chin

  /** The region's key in the table, which is also the reported name of the dominant region. */
  function Name(r: Region): string
  {
    match r
    case Forehead => "이마"
    case Nose => "코"
    case LeftCheek => "왼쪽볼"
    case RightCheek => "오른쪽볼"
    case Chin => "턱"
  }

  /** The five keys are distinct, so a reported name identifies its region. */
  lemma NamesAreDistinct(a: Region, b: Region)
    ensures Name(a) == Name(b) ==> a == b
  {
    if a != b {
      assert Name(a)[0] != Name(b)[0] || |Name(a)| != |Name(b)|;
    }
  }

  /** The refined face mesh yields 468 mesh points plus 10 iris points. */
  const LandmarkCount: nat := 478

  /** Key order of the region table; every per-region dictionary built from it iterates in this order. */
  const TableOrder: seq<Region> := [Forehead, Nose, LeftCheek, RightCheek, Chin]

  /** Tie-break order of the dominant-region decision: earlier wins. */
  const PriorityOrder: seq<Region> := [Forehead, Chin, LeftCheek, RightCheek, Nose]

  /** Python's `list(range(lo, hi))`. */
  function Range(lo: nat, hi: nat): (s: seq<nat>)
    ensures lo <= hi ==> |s| == hi - lo
    ensures hi <= lo ==> s == []
    ensures forall k :: 0 <= k < |s| ==> s[k] == lo + k
    decreases hi - lo
  {
    if hi <= lo then [] else [lo] + Range(lo + 1, hi)
  }

  /** Explicitly listed forehead indices; `Range(65, 69)` follows them. */
  const ForeheadListed: seq<nat> :=
    [8, 9, 10, 107, 66, 105, 63, 70, 71, 109, 108, 151, 296, 334, 293, 300, 299,
     383, 368, 389, 356, 337, 276, 283, 282, 295, 285, 336]

  /** Explicitly listed right-cheek indices; `Range(380, 390)` follows them. */
  const RightCheekListed: seq<nat> :=
    [345, 346, 347, 348, 349, 350, 359, 361,
     447, 366, 436, 435, 414, 398, 397]

  /** A region's index list can be used for a min/max box over a refined face mesh. */
  predicate ValidIndexList(indices: seq<nat>)
  {
    && |indices| > 0
    && forall k :: 0 <= k < |indices| ==> indices[k] < LandmarkCount
  }

  /** An index list that is valid by construction. */
  type IndexList = s: seq<nat> | ValidIndexList(s) witness [0]

  /** A listed part followed by a range below the mesh size is a valid index list. */
  lemma ListedThenRangeIsValid(listed: seq<nat>, lo: nat, hi: nat)
    requires ValidIndexList(listed)
    requires hi <= LandmarkCount
    ensures ValidIndexList(listed + Range(lo, hi))
  {
    var tail := Range(lo, hi);
    forall k | 0 <= k < |listed + tail|
      ensures (listed + tail)[k] < LandmarkCount
    {
      if k >= |listed| {
        assert (listed + tail)[k] == tail[k - |listed|];
      }
    }
  }

  // One lemma per literal list keeps each proof obligation small.

  lemma ForeheadListedIsValid()
    ensures ValidIndexList(ForeheadListed)
  {
  }

  lemma RightCheekListedIsValid()
    ensures ValidIndexList(RightCheekListed)
  {
  }

  lemma NoseIsValid()
    ensures ValidIndexList(NoseListed)
  {
  }

  lemma LeftCheekIsValid()
    ensures ValidIndexList(LeftCheekListed)
  {
  }

  lemma ChinIsValid()
    ensures ValidIndexList(ChinListed)
  {
  }

  /** Listed nose indices; 2 and 218 occur twice. */
  const NoseListed: seq<nat> :=
    [0, 1, 2, 5, 6, 45, 275, 274, 164, 165, 97, 98, 99,
     2, 94, 240, 218, 219, 220, 237, 218, 134, 399, 398]

  /** Listed left-cheek indices. */
  const LeftCheekListed: seq<nat> :=
    [116, 117, 118, 119, 120, 121, 128, 130, 132,
     226, 113, 225, 224, 223, 222, 221, 189, 190, 137, 139, 146]

  /** Listed chin indices. */
  const ChinListed: seq<nat> :=
    [0, 17, 170, 175, 364, 335, 172, 152, 395, 396, 397, 400]

  /**
   The landmark indices listed for each region, duplicates included. Every
   region lists at least one landmark, and every listed index, the `range`
   tails included, names a landmark of the refined mesh.
   */
  function Indices(r: Region): (indices: seq<nat>)
    ensures ValidIndexList(indices)
  {
    match r
    case Forehead =>
      ForeheadListedIsValid();
      ListedThenRangeIsValid(ForeheadListed, 65, 69);
      ForeheadListed + Range(65, 69)
    case Nose =>
      NoseIsValid();
      NoseListed
    case LeftCheek =>
      LeftCheekIsValid();
      LeftCheekListed
    case RightCheek =>
      RightCheekListedIsValid();
      ListedThenRangeIsValid(RightCheekListed, 380, 390);
      RightCheekListed + Range(380, 390)
    case Chin =>
      ChinIsValid();
      ChinListed
  }

  /** Position of a region in the tie-break order. */
  function PriorityIndex(r: Region): (i: nat)
    ensures i < |PriorityOrder| && PriorityOrder[i] == r
  {
    match r
    case Forehead => 0
    case Chin => 1
    case LeftCheek => 2
    case RightCheek => 3
    case Nose => 4
  }

  /** Distinct regions have distinct priorities, so the tie-break never ties. */
  lemma PriorityIsInjective(a: Region, b: Region)
    ensures PriorityIndex(a) == PriorityIndex(b) ==> a == b
  {
  }

  /** The table's keys are distinct: the key at position i does not occur before it. */
  lemma TableKeysAreDistinct(i: nat)
    requires i < |TableOrder|
    ensures TableOrder[i] !in TableOrder[..i]
  {
  }

  /** Both fixed orders list every region. */
  lemma OrdersAreComplete()
    ensures forall r: Region :: r in TableOrder && r in PriorityOrder
  {
    forall r: Region
      ensures r in TableOrder && r in PriorityOrder
    {
      assert r.Forehead? || r.Nose? || r.LeftCheek? || r.RightCheek? || r.Chin?;
    }
  }
}
