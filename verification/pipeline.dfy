/**
 The whole analysis of one face photo: the no-face gate, then per region the
 bounding box, the crop geometry, the detector call, the filter and the
 remap, then the per-region counts, their total and the dominant region.

 The landmark provider's answer is the `face` parameter and the detector is
 the `detector` parameter; pixel extraction and resizing are inside the
 detector, which is handed the region box of the one fixed image.
 */
module Pipeline {
  import opened Optional
  import opened Regions
  import opened Faces
  import opened Detections
  import opened Remap
  import opened Aggregation

  /** Error text of the no-face result ("face recognition failed"). */
  const NoFaceMessage: string := "얼굴 인식 실패"

  /**
   The result dictionary: an error when no face was found, otherwise the total
   count, the count of every region and the dominant region (None when there
   are no detections).
   */
  datatype Analysis =
    | Failure(error: string)
    | Report(totalAcneCount: nat, acneCountByPart: map<Region, nat>, maxAcnePart: Option<Region>)

  /**
   One region's acne boxes in original-image coordinates: the detector's
   output for the region's crop, filtered at the fixed threshold and remapped.
   There is one box per filtered detection, in detector order, and a detection
   lying inside the 640x640 crop lands inside the region's bounding box.
   */
  function RegionAcneBoxes(landmarks: seq<Landmark>, width: nat, height: nat,
                           detector: Box -> seq<RawDetection>, part: Region): (boxes: seq<ImageBox>)
    requires ValidFace(landmarks)
    ensures |boxes| == |FilterDetections(detector(RegionBox(landmarks, width, height, part)), DefaultThreshold)|
  {
    var bbox := RegionBox(landmarks, width, height, part);
    var croppedSize := CroppedSize(bbox, width, height);
    var kept := FilterDetections(detector(bbox), DefaultThreshold);
    ResizeBoxesToOriginal(kept, croppedSize, bbox)
  }

  /** The crop's far corner (640, 640) maps exactly onto the far corner (x_max, y_max) of the region's box. */
  lemma CropCornersMapToRegionBox(landmarks: seq<Landmark>, width: nat, height: nat, part: Region)
    requires ValidFace(landmarks)
    ensures
      var bbox := RegionBox(landmarks, width, height, part);
      RemapBox(CropBox(0.0, 0.0, CropSide, CropSide), CroppedSize(bbox, width, height), bbox)
        == ImageBox(bbox.xMin as real, bbox.yMin as real, bbox.xMax as real, bbox.yMax as real)
  {
    CropCornersMapToBox(RegionBox(landmarks, width, height, part), width, height);
  }

  /** A kept detection whose corners lie inside the crop is reported inside the region's bounding box. */
  lemma DetectionsLandInRegionBox(landmarks: seq<Landmark>, width: nat, height: nat,
                                  detector: Box -> seq<RawDetection>, part: Region, k: nat)
    requires ValidFace(landmarks)
    requires
      var kept := FilterDetections(detector(RegionBox(landmarks, width, height, part)), DefaultThreshold);
      && k < |kept|
      && 0.0 <= kept[k].x1 <= CropSide && 0.0 <= kept[k].x2 <= CropSide
      && 0.0 <= kept[k].y1 <= CropSide && 0.0 <= kept[k].y2 <= CropSide
    ensures
      var bbox := RegionBox(landmarks, width, height, part);
      var b := RegionAcneBoxes(landmarks, width, height, detector, part)[k];
      && bbox.xMin as real <= b.x1 <= bbox.xMax as real && bbox.xMin as real <= b.x2 <= bbox.xMax as real
      && bbox.yMin as real <= b.y1 <= bbox.yMax as real && bbox.yMin as real <= b.y2 <= bbox.yMax as real
  {
    var bbox := RegionBox(landmarks, width, height, part);
    CropBoxLandsInBox(FilterDetections(detector(bbox), DefaultThreshold)[k], bbox, width, height);
  }

  /**
   Runs the per-region step for every region, in the table's key order, and
   keeps each region's boxes; a region without boxes keeps its initial empty
   list, so every region ends up with exactly the step's boxes.
   */
  method DetectByPart(boxesOf: Region --> seq<ImageBox>) returns (boxesByPart: map<Region, seq<ImageBox>>)
    requires forall part: Region :: boxesOf.requires(part)
    ensures forall part: Region :: part in boxesByPart
    ensures forall part: Region :: boxesByPart[part] == boxesOf(part)
  {
    boxesByPart := map[Forehead := [], Nose := [], LeftCheek := [], RightCheek := [], Chin := []];
    assert forall r: Region :: r in boxesByPart by {
      forall r: Region
        ensures r in boxesByPart
      {
        assert r.Forehead? || r.Nose? || r.LeftCheek? || r.RightCheek? || r.Chin?;
      }
    }
    var i := 0;
    while i < |TableOrder|
      invariant 0 <= i <= |TableOrder|
      invariant forall r: Region :: r in boxesByPart
      invariant forall k :: 0 <= k < i ==> boxesByPart[TableOrder[k]] == boxesOf(TableOrder[k])
      invariant forall r: Region :: r !in TableOrder[..i] ==> boxesByPart[r] == []
    {
      var part := TableOrder[i];
      var acneBoxes := boxesOf(part);
      ghost var before := boxesByPart;
      if |acneBoxes| > 0 {
        boxesByPart := boxesByPart[part := acneBoxes];
      } else if part in TableOrder[..i] {
        var k :| 0 <= k < i && TableOrder[k] == part;
      }
      assert boxesByPart[part] == acneBoxes;
      assert forall r: Region :: r != part ==> boxesByPart[r] == before[r];
      assert TableOrder[..i + 1] == TableOrder[..i] + [part];
      i := i + 1;
    }
    OrdersAreComplete();
    forall part: Region
      ensures boxesByPart[part] == boxesOf(part)
    {
      assert part in TableOrder;
      var k :| 0 <= k < |TableOrder| && TableOrder[k] == part;
    }
  }

  /**
   Counts every region's boxes and sums the counts, in the table's key order:
   each count is the length of the region's list and the total is their sum.
   */
  method CountByPart(boxesByPart: map<Region, seq<ImageBox>>) returns (total: nat, counts: map<Region, nat>)
    requires forall part: Region :: part in boxesByPart
    ensures Complete(counts)
    ensures forall part: Region :: counts[part] == |boxesByPart[part]|
    ensures total == Total(counts)
  {
    total := 0;
    counts := map[];
    var i := 0;
    while i < |TableOrder|
      invariant 0 <= i <= |TableOrder|
      invariant forall part :: part in counts ==> counts[part] == |boxesByPart[part]|
      invariant forall part :: part in TableOrder[..i] ==> part in counts
      invariant Covers(TableOrder[..i], counts)
      invariant total == SumOver(TableOrder[..i], counts)
    {
      var part := TableOrder[i];
      var acneCount := |boxesByPart[part]|;
      TableKeysAreDistinct(i);
      SumOverRecord(TableOrder[..i], part, counts, acneCount);
      counts := counts[part := acneCount];
      assert TableOrder[..i + 1] == TableOrder[..i] + [part];
      total := total + acneCount;
      i := i + 1;
    }
    assert TableOrder[..i] == TableOrder;
    OrdersAreComplete();
  }

  /**
   The counting and the decision over the per-region boxes: every region's
   count is the number of its boxes, the total is the sum of the counts, and
   the dominant region is None exactly when nothing was detected and is
   otherwise the region with the most boxes, ties going to the earlier region
   in the priority order.
   */
  method Summarize(boxesOf: Region --> seq<ImageBox>) returns (result: Analysis)
    requires forall part: Region :: boxesOf.requires(part)
    ensures result.Report?
    ensures Complete(result.acneCountByPart)
    ensures forall part: Region :: result.acneCountByPart[part] == |boxesOf(part)|
    ensures result.totalAcneCount == Total(result.acneCountByPart)
    ensures result.maxAcnePart.None? <==> result.totalAcneCount == 0
    ensures result.maxAcnePart.Some? ==> IsDominant(result.acneCountByPart, result.maxAcnePart.value)
  {
    var boxesByPart := DetectByPart(boxesOf);
    var total, counts := CountByPart(boxesByPart);
    var maxAcnePart: Option<Region>;
    if total > 0 {
      maxAcnePart := Some(MaxAcnePart(TableOrder, counts));
    } else {
      maxAcnePart := None;
    }
    assert maxAcnePart == Decide(counts);
    result := Report(total, counts, maxAcnePart);
  }

  /**
   The analysis of one photo. With no face the result is the error and nothing
   else; otherwise the summary of every region's filtered, remapped boxes.
   */
  method AnalyzeAcneByParts(face: Option<seq<Landmark>>, width: nat, height: nat,
                            detector: Box -> seq<RawDetection>) returns (result: Analysis)
    requires face.Some? ==> ValidFace(face.value)
    ensures face.None? ==> result == Failure(NoFaceMessage)
    ensures face.Some? ==>
      && result.Report?
      && Complete(result.acneCountByPart)
      && (forall part: Region :: result.acneCountByPart[part]
                                 == |RegionAcneBoxes(face.value, width, height, detector, part)|)
      && result.totalAcneCount == Total(result.acneCountByPart)
      && (result.maxAcnePart.None? <==> result.totalAcneCount == 0)
      && (result.maxAcnePart.Some? ==> IsDominant(result.acneCountByPart, result.maxAcnePart.value))
  {
    if face.None? {
      return Failure(NoFaceMessage);
    }
    var landmarks := face.value;
    result := Summarize(part requires ValidFace(landmarks) =>
                          RegionAcneBoxes(landmarks, width, height, detector, part));
  }
}
