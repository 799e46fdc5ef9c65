/**
 Per-region counts, their total, and the choice of the dominant region: the
 region with the most detections, ties broken by the fixed priority order,
 and no region at all when nothing was detected.
 */
module Aggregation {
  import opened Optional
  import opened Regions

  /** A count for every region. */
  predicate Complete(counts: map<Region, nat>)
  {
    forall r: Region :: r in counts
  }

  predicate Covers(order: seq<Region>, counts: map<Region, nat>)
  {
    forall k :: 0 <= k < |order| ==> order[k] in counts
  }

  /** Sum of the counts of the listed regions. */
  function SumOver(order: seq<Region>, counts: map<Region, nat>): (total: nat)
    requires Covers(order, counts)
    ensures total == 0 <==> forall k :: 0 <= k < |order| ==> counts[order[k]] == 0
    ensures forall k :: 0 <= k < |order| ==> counts[order[k]] <= total
  {
    if |order| == 0 then 0
    else
      var rest := SumOver(order[1..], counts);
      assert forall k :: 1 <= k < |order| ==> order[k] == order[1..][k - 1];
      counts[order[0]] + rest
  }

  /** Adding one more region to the visited list adds its count to the sum. */
  lemma {:induction false} SumOverAppend(order: seq<Region>, r: Region, counts: map<Region, nat>)
    requires Covers(order, counts) && r in counts
    ensures Covers(order + [r], counts)
    ensures SumOver(order + [r], counts) == SumOver(order, counts) + counts[r]
    decreases |order|
  {
    assert forall k :: 0 <= k < |order| ==> (order + [r])[k] == order[k];
    if |order| == 0 {
      assert order + [r] == [r];
      assert [r][1..] == [];
    } else {
      assert (order + [r])[1..] == order[1..] + [r];
      SumOverAppend(order[1..], r, counts);
    }
  }

  /** The sum only reads the counts of the listed regions. */
  lemma {:induction false} SumOverAgree(order: seq<Region>, counts: map<Region, nat>, other: map<Region, nat>)
    requires Covers(order, counts) && Covers(order, other)
    requires forall k :: 0 <= k < |order| ==> counts[order[k]] == other[order[k]]
    ensures SumOver(order, counts) == SumOver(order, other)
    decreases |order|
  {
    if |order| > 0 {
      assert forall k :: 1 <= k < |order| ==> order[1..][k - 1] == order[k];
      SumOverAgree(order[1..], counts, other);
    }
  }

  /** Recording the count of a region not yet visited, then visiting it, adds that count to the running total. */
  lemma SumOverRecord(order: seq<Region>, r: Region, counts: map<Region, nat>, c: nat)
    requires Covers(order, counts) && r !in order
    ensures Covers(order + [r], counts[r := c])
    ensures SumOver(order + [r], counts[r := c]) == SumOver(order, counts) + c
  {
    var updated := counts[r := c];
    assert forall k :: 0 <= k < |order| ==> order[k] != r && order[k] in updated;
    SumOverAgree(order, counts, updated);
    SumOverAppend(order, r, updated);
  }

  /**
   Sum of the five region counts, accumulated in the table's key order: it is
   the sum of the five counts, and it is zero exactly when every count is zero.
   */
  function Total(counts: map<Region, nat>): (total: nat)
    requires Complete(counts)
    ensures total == counts[Forehead] + counts[Nose] + counts[LeftCheek] + counts[RightCheek] + counts[Chin]
    ensures total == 0 <==> forall r: Region :: counts[r] == 0
  {
    // Unfold the sum one region at a time, from the last key back to the first.
    var o4: seq<Region> := [Chin];
    var o3: seq<Region> := [RightCheek, Chin];
    var o2: seq<Region> := [LeftCheek, RightCheek, Chin];
    var o1: seq<Region> := [Nose, LeftCheek, RightCheek, Chin];
    assert o4[1..] == [];
    assert SumOver(o4, counts) == counts[Chin];
    assert o3[1..] == o4;
    assert SumOver(o3, counts) == counts[RightCheek] + SumOver(o4, counts);
    assert o2[1..] == o3;
    assert SumOver(o2, counts) == counts[LeftCheek] + SumOver(o3, counts);
    assert o1[1..] == o2;
    assert SumOver(o1, counts) == counts[Nose] + SumOver(o2, counts);
    assert TableOrder[1..] == o1;
    var total := SumOver(TableOrder, counts);
    assert total == counts[Forehead] + SumOver(o1, counts);
    assert total == 0 <==> forall r: Region :: counts[r] == 0 by {
      forall r: Region
        ensures counts[r] <= total
      {
        assert r.Forehead? || r.Nose? || r.LeftCheek? || r.RightCheek? || r.Chin?;
      }
    }
    total
  }

  /** Largest count among the listed regions. */
  function MaxOver(order: seq<Region>, counts: map<Region, nat>): (m: nat)
    requires |order| > 0 && Covers(order, counts)
    ensures exists k :: 0 <= k < |order| && counts[order[k]] == m
    ensures forall k :: 0 <= k < |order| ==> counts[order[k]] <= m
  {
    if |order| == 1 then counts[order[0]]
    else
      var rest := MaxOver(order[1..], counts);
      assert forall k :: 1 <= k < |order| ==> order[k] == order[1..][k - 1];
      if counts[order[0]] >= rest then counts[order[0]] else rest
  }

  /** The listed regions whose count equals `m`, in list order. */
  function WithCount(order: seq<Region>, counts: map<Region, nat>, m: nat): (rs: seq<Region>)
    requires Covers(order, counts)
    ensures forall r :: r in rs <==> r in order && counts[r] == m
  {
    if |order| == 0 then []
    else
      var rest := WithCount(order[1..], counts, m);
      assert forall r :: r in order <==> r == order[0] || r in order[1..];
      (if counts[order[0]] == m then [order[0]] else []) + rest
  }

  /**
   Python's `min(candidates, key=priority_order.index)`: the candidate with the
   smallest priority index, the first one among equals.
   */
  function MinByPriority(candidates: seq<Region>): (r: Region)
    requires |candidates| > 0
    ensures r in candidates
    ensures forall q :: q in candidates ==> PriorityIndex(r) <= PriorityIndex(q)
  {
    if |candidates| == 1 then candidates[0]
    else
      var rest := MinByPriority(candidates[1..]);
      assert forall q :: q in candidates <==> q == candidates[0] || q in candidates[1..];
      if PriorityIndex(candidates[0]) <= PriorityIndex(rest) then candidates[0] else rest
  }

  /** `r` has the largest count, and no region with as many comes earlier in the priority order. */
  ghost predicate IsDominant(counts: map<Region, nat>, r: Region)
    requires Complete(counts)
  {
    && (forall q: Region :: counts[q] <= counts[r])
    && (forall q: Region :: counts[q] == counts[r] ==> PriorityIndex(r) <= PriorityIndex(q))
  }

  /** There is at most one dominant region: the decision is deterministic. */
  lemma DominantIsUnique(counts: map<Region, nat>, a: Region, b: Region)
    requires Complete(counts)
    requires IsDominant(counts, a) && IsDominant(counts, b)
    ensures a == b
  {
    assert counts[a] == counts[b];
    PriorityIsInjective(a, b);
  }

  /**
   The pick as the source writes it, for counts visited in the given order:
   the maximum count, then the highest-priority region among those that have
   it. For any order that lists every region, the pick is the dominant region.
   */
  function MaxAcnePart(order: seq<Region>, counts: map<Region, nat>): (r: Region)
    requires |order| > 0 && Covers(order, counts)
    ensures r in order
    ensures Complete(counts) && (forall q: Region :: q in order) ==> IsDominant(counts, r)
  {
    var m := MaxOver(order, counts);
    var k :| 0 <= k < |order| && counts[order[k]] == m;
    var candidates := WithCount(order, counts, m);
    assert order[k] in candidates;
    var r := MinByPriority(candidates);
    assert Complete(counts) && (forall q: Region :: q in order) ==> IsDominant(counts, r) by {
      if Complete(counts) && (forall q: Region :: q in order) {
        forall q: Region
          ensures counts[q] <= counts[r]
        {
          assert q in order;
          var j :| 0 <= j < |order| && order[j] == q;
        }
        forall q: Region | counts[q] == counts[r]
          ensures PriorityIndex(r) <= PriorityIndex(q)
        {
          assert q in candidates;
        }
      }
    }
    r
  }

  /** The pick does not depend on the order in which the counts are visited. */
  lemma OrderDoesNotMatter(order1: seq<Region>, order2: seq<Region>, counts: map<Region, nat>)
    requires Complete(counts)
    requires |order1| > 0 && forall r: Region :: r in order1
    requires |order2| > 0 && forall r: Region :: r in order2
    ensures MaxAcnePart(order1, counts) == MaxAcnePart(order2, counts)
  {
    DominantIsUnique(counts, MaxAcnePart(order1, counts), MaxAcnePart(order2, counts));
  }

  /**
   The reported dominant region: none when the total is zero, otherwise the
   pick over the counts in the table's key order. It is `None` exactly when
   nothing was detected, and otherwise the unique dominant region.
   */
  function Decide(counts: map<Region, nat>): (part: Option<Region>)
    requires Complete(counts)
    ensures part.None? <==> forall r: Region :: counts[r] == 0
    ensures part.Some? ==> IsDominant(counts, part.value)
  {
    OrdersAreComplete();
    if Total(counts) > 0 then Some(MaxAcnePart(TableOrder, counts)) else None
  }

  /** The five counts as a map. */
  function CountsOf(forehead: nat, nose: nat, leftCheek: nat, rightCheek: nat, chin: nat): (counts: map<Region, nat>)
    ensures Complete(counts)
    ensures counts[Forehead] == forehead && counts[Nose] == nose && counts[Chin] == chin
    ensures counts[LeftCheek] == leftCheek && counts[RightCheek] == rightCheek
  {
    var counts := map[Forehead := forehead, Nose := nose, LeftCheek := leftCheek,
                      RightCheek := rightCheek, Chin := chin];
    assert forall r: Region :: r in counts by {
      forall r: Region
        ensures r in counts
      {
        assert r.Forehead? || r.Nose? || r.LeftCheek? || r.RightCheek? || r.Chin?;
      }
    }
    counts
  }

  /** Forehead and chin tie at n > 0 detections each and the rest have none: the forehead wins, out of 2n. */
  lemma ForeheadChinTie(n: nat)
    requires n > 0
    ensures Total(CountsOf(n, 0, 0, 0, n)) == 2 * n
    ensures Decide(CountsOf(n, 0, 0, 0, n)) == Some(Forehead)
  {
    var counts := CountsOf(n, 0, 0, 0, n);
    var r := Decide(counts).value;
    assert counts[r] >= counts[Forehead];
    assert PriorityIndex(r) <= PriorityIndex(Forehead);
  }

  /** With no detection anywhere the total is zero and no region is chosen. */
  lemma NothingDetected()
    ensures Total(CountsOf(0, 0, 0, 0, 0)) == 0
    ensures Decide(CountsOf(0, 0, 0, 0, 0)) == None
  {
  }
}
