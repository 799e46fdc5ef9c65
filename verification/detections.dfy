/**
 The detector's raw output for one 640x640 crop and the filter that keeps the
 acne detections: class 0 with a confidence of at least the threshold, in the
 detector's order.
 */
module Detections {

  /** A box corner pair (x1, y1, x2, y2) in crop-local pixels of the 640x640 detector input. */
  datatype CropBox = CropBox(x1: real, y1: real, x2: real, y2: real)

  /** One raw detection: its box, class id and confidence score. */
  datatype RawDetection = RawDetection(box: CropBox, cls: int, score: real)

  /** The detector is built with a single class; its id is 0. */
  const AcneClass: int := 0

  /** Confidence threshold the pipeline passes to the filter. */
  const DefaultThreshold: real := 0.4

  predicate Kept(d: RawDetection, threshold: real)
  {
    d.cls == AcneClass && d.score >= threshold
  }

  /** The boxes of the detections that pass the filter, in detector order. */
  function FilterDetections(raw: seq<RawDetection>, threshold: real): (boxes: seq<CropBox>)
    ensures |boxes| <= |raw|
    decreases |raw|
  {
    if |raw| == 0 then []
    else (if Kept(raw[0], threshold) then [raw[0].box] else []) + FilterDetections(raw[1..], threshold)
  }

  /** `a` is obtained from `b` by deleting elements, keeping the order of the rest. */
  ghost predicate IsSubsequence<T>(a: seq<T>, b: seq<T>)
    decreases |b|
  {
    if |a| == 0 then true
    else if |b| == 0 then false
    else (a[0] == b[0] && IsSubsequence(a[1..], b[1..])) || IsSubsequence(a, b[1..])
  }

  /** The boxes of all raw detections, in detector order. */
  function AllBoxes(raw: seq<RawDetection>): (boxes: seq<CropBox>)
    ensures |boxes| == |raw|
    ensures forall k :: 0 <= k < |raw| ==> boxes[k] == raw[k].box
  {
    seq(|raw|, k requires 0 <= k < |raw| => raw[k].box)
  }

  /** Filtering a concatenation filters each part: the filter keeps detector order. */
  lemma {:induction false} FilterAppend(a: seq<RawDetection>, b: seq<RawDetection>, threshold: real)
    ensures FilterDetections(a + b, threshold)
         == FilterDetections(a, threshold) + FilterDetections(b, threshold)
    decreases |a|
  {
    if |a| == 0 {
      assert a + b == b;
    } else {
      var head := if Kept(a[0], threshold) then [a[0].box] else [];
      assert (a + b)[0] == a[0];
      assert (a + b)[1..] == a[1..] + b;
      assert FilterDetections(a + b, threshold) == head + FilterDetections(a[1..] + b, threshold);
      FilterAppend(a[1..], b, threshold);
      assert FilterDetections(a, threshold) == head + FilterDetections(a[1..], threshold);
      assert head + (FilterDetections(a[1..], threshold) + FilterDetections(b, threshold))
          == (head + FilterDetections(a[1..], threshold)) + FilterDetections(b, threshold);
    }
  }

  /** A box is in the result exactly when some detection passing the filter carries it. */
  lemma {:induction false} FilterMembership(raw: seq<RawDetection>, threshold: real, box: CropBox)
    ensures box in FilterDetections(raw, threshold)
        <==> exists k :: 0 <= k < |raw| && Kept(raw[k], threshold) && raw[k].box == box
    decreases |raw|
  {
    if |raw| > 0 {
      FilterMembership(raw[1..], threshold, box);
      if box in FilterDetections(raw[1..], threshold) {
        var k :| 0 <= k < |raw[1..]| && Kept(raw[1..][k], threshold) && raw[1..][k].box == box;
        assert raw[k + 1] == raw[1..][k];
      }
      if exists k :: 0 <= k < |raw| && Kept(raw[k], threshold) && raw[k].box == box {
        var k :| 0 <= k < |raw| && Kept(raw[k], threshold) && raw[k].box == box;
        if k > 0 {
          assert raw[1..][k - 1] == raw[k];
        }
      }
    }
  }

  lemma {:induction false} SubsequenceOfTail<T>(a: seq<T>, x: T, b: seq<T>)
    requires IsSubsequence(a, b)
    ensures IsSubsequence(a, [x] + b)
  {
    if |a| > 0 {
      assert ([x] + b)[1..] == b;
    }
  }

  /** The result is an order-preserving subsequence of the detector's boxes. */
  lemma {:induction false} FilterIsSubsequence(raw: seq<RawDetection>, threshold: real)
    ensures IsSubsequence(FilterDetections(raw, threshold), AllBoxes(raw))
    decreases |raw|
  {
    if |raw| > 0 {
      var rest := FilterDetections(raw[1..], threshold);
      FilterIsSubsequence(raw[1..], threshold);
      assert AllBoxes(raw) == [raw[0].box] + AllBoxes(raw[1..]);
      if Kept(raw[0], threshold) {
        assert ([raw[0].box] + rest)[1..] == rest;
      } else {
        assert FilterDetections(raw, threshold) == rest;
        SubsequenceOfTail(rest, raw[0].box, AllBoxes(raw[1..]));
      }
    }
  }

  /** Lowering the threshold never drops a box: the stricter result is a subsequence of the looser one. */
  lemma {:induction false} LowerThresholdKeepsMore(raw: seq<RawDetection>, strict: real, loose: real)
    requires loose <= strict
    ensures IsSubsequence(FilterDetections(raw, strict), FilterDetections(raw, loose))
    ensures |FilterDetections(raw, strict)| <= |FilterDetections(raw, loose)|
    decreases |raw|
  {
    if |raw| > 0 {
      var s := FilterDetections(raw[1..], strict);
      var l := FilterDetections(raw[1..], loose);
      LowerThresholdKeepsMore(raw[1..], strict, loose);
      if Kept(raw[0], strict) {
        assert ([raw[0].box] + s)[1..] == s;
        assert ([raw[0].box] + l)[1..] == l;
      } else if Kept(raw[0], loose) {
        assert FilterDetections(raw, strict) == s;
        assert FilterDetections(raw, loose) == [raw[0].box] + l;
        SubsequenceOfTail(s, raw[0].box, l);
      } else {
        assert FilterDetections(raw, strict) == s;
        assert FilterDetections(raw, loose) == l;
      }
    }
  }

  /** A detection of another class, or below the threshold, is dropped; an acne detection at or above it is kept. */
  lemma SingleDetection(d: RawDetection, threshold: real)
    ensures FilterDetections([d], threshold) == (if d.cls == 0 && d.score >= threshold then [d.box] else [])
  {
    assert [d][1..] == [];
  }
}
