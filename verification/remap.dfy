/**
 Mapping detector boxes from the 640x640 crop space back to original-image
 coordinates: an independent affine map per axis, scaling by the pre-resize
 crop extent over 640 and shifting by the box origin.
 */
module Remap {
  import opened Faces
  import opened Detections

  /** Side of the square detector input every crop is resized to. */
  const CropSide: real := 640.0

  /** A box corner pair (x1, y1, x2, y2) in original-image coordinates. */
  datatype ImageBox = ImageBox(x1: real, y1: real, x2: real, y2: real)

  /** One axis of the map: `origin + v * (extent / 640)`. */
  function RemapAxis(v: real, extent: int, origin: int): real
  {
    origin as real + v * (extent as real / CropSide)
  }

  /** The inverse of one axis of the map, for a crop of positive extent. */
  function UnmapAxis(u: real, extent: int, origin: int): real
    requires extent > 0
  {
    (u - origin as real) * (CropSide / extent as real)
  }

  /** Crop-local 0 maps to the origin and crop-local 640 maps to the origin plus the pre-resize extent. */
  lemma AxisEndpoints(extent: int, origin: int)
    ensures RemapAxis(0.0, extent, origin) == origin as real
    ensures RemapAxis(CropSide, extent, origin) == (origin + extent) as real
  {
  }

  /** For a non-negative extent the map is monotone. */
  lemma AxisMonotone(a: real, b: real, extent: int, origin: int)
    requires extent >= 0 && a <= b
    ensures RemapAxis(a, extent, origin) <= RemapAxis(b, extent, origin)
  {
    var s := extent as real / CropSide;
    assert s >= 0.0;
    assert (b - a) * s >= 0.0;
  }

  /** For a non-negative extent, a crop-local value in [0, 640] lands in [origin, origin + extent]. */
  lemma AxisStaysInCrop(v: real, extent: int, origin: int)
    requires extent >= 0 && 0.0 <= v <= CropSide
    ensures origin as real <= RemapAxis(v, extent, origin) <= (origin + extent) as real
  {
    AxisMonotone(0.0, v, extent, origin);
    AxisMonotone(v, CropSide, extent, origin);
    AxisEndpoints(extent, origin);
  }

  /** For a positive extent the map is invertible: unmapping a remapped value gives it back, and vice versa. */
  lemma AxisRoundTrip(v: real, u: real, extent: int, origin: int)
    requires extent > 0
    ensures UnmapAxis(RemapAxis(v, extent, origin), extent, origin) == v
    ensures RemapAxis(UnmapAxis(u, extent, origin), extent, origin) == u
  {
    var e := extent as real;
    assert (e / CropSide) * (CropSide / e) == 1.0;
  }

  /**
   One box remapped, x through the crop width and the box's x_min, y through
   the crop height and y_min. A box that is ordered in the crop (x1 <= x2,
   y1 <= y2) stays ordered in the original image.
   */
  function RemapBox(b: CropBox, croppedSize: Size, origBox: Box): (r: ImageBox)
    ensures croppedSize.w >= 0 && b.x1 <= b.x2 ==> r.x1 <= r.x2
    ensures croppedSize.h >= 0 && b.y1 <= b.y2 ==> r.y1 <= r.y2
  {
    assert croppedSize.w >= 0 && b.x1 <= b.x2 ==>
      RemapAxis(b.x1, croppedSize.w, origBox.xMin) <= RemapAxis(b.x2, croppedSize.w, origBox.xMin) by {
      if croppedSize.w >= 0 && b.x1 <= b.x2 {
        AxisMonotone(b.x1, b.x2, croppedSize.w, origBox.xMin);
      }
    }
    assert croppedSize.h >= 0 && b.y1 <= b.y2 ==>
      RemapAxis(b.y1, croppedSize.h, origBox.yMin) <= RemapAxis(b.y2, croppedSize.h, origBox.yMin) by {
      if croppedSize.h >= 0 && b.y1 <= b.y2 {
        AxisMonotone(b.y1, b.y2, croppedSize.h, origBox.yMin);
      }
    }
    ImageBox(RemapAxis(b.x1, croppedSize.w, origBox.xMin),
             RemapAxis(b.y1, croppedSize.h, origBox.yMin),
             RemapAxis(b.x2, croppedSize.w, origBox.xMin),
             RemapAxis(b.y2, croppedSize.h, origBox.yMin))
  }

  /**
   All filtered boxes remapped, built by appending one remapped box per input
   box: the number and the order of boxes is kept.
   */
  function ResizeBoxesToOriginal(boxes: seq<CropBox>, croppedSize: Size, origBox: Box): (r: seq<ImageBox>)
    ensures |r| == |boxes|
    ensures forall k :: 0 <= k < |boxes| ==> r[k] == RemapBox(boxes[k], croppedSize, origBox)
    decreases |boxes|
  {
    if |boxes| == 0 then []
    else
      var front := ResizeBoxesToOriginal(boxes[..|boxes| - 1], croppedSize, origBox);
      front + [RemapBox(boxes[|boxes| - 1], croppedSize, origBox)]
  }

  /** Only the origin of the original box is used: its x_max and y_max do not matter. */
  lemma {:induction false} IgnoresBoxFarCorner(boxes: seq<CropBox>, croppedSize: Size, origBox: Box, xMax: int, yMax: int)
    ensures ResizeBoxesToOriginal(boxes, croppedSize, origBox)
         == ResizeBoxesToOriginal(boxes, croppedSize, origBox.(xMax := xMax, yMax := yMax))
  {
    var a := ResizeBoxesToOriginal(boxes, croppedSize, origBox);
    var b := ResizeBoxesToOriginal(boxes, croppedSize, origBox.(xMax := xMax, yMax := yMax));
    assert forall k :: 0 <= k < |boxes| ==> a[k] == b[k];
  }

  /** The full crop (0, 0, 640, 640) maps onto the cropped rectangle of the original image. */
  lemma FullCropMapsToCroppedRect(croppedSize: Size, origBox: Box)
    ensures RemapBox(CropBox(0.0, 0.0, CropSide, CropSide), croppedSize, origBox)
         == ImageBox(origBox.xMin as real, origBox.yMin as real,
                     (origBox.xMin + croppedSize.w) as real, (origBox.yMin + croppedSize.h) as real)
  {
    AxisEndpoints(croppedSize.w, origBox.xMin);
    AxisEndpoints(croppedSize.h, origBox.yMin);
  }

  /** For a box inside the image, the crop's far corner (640, 640) maps exactly onto the box's far corner (x_max, y_max). */
  lemma CropCornersMapToBox(bbox: Box, width: nat, height: nat)
    requires 0 <= bbox.xMin <= bbox.xMax <= width && 0 <= bbox.yMin <= bbox.yMax <= height
    ensures RemapBox(CropBox(0.0, 0.0, CropSide, CropSide), CroppedSize(bbox, width, height), bbox)
         == ImageBox(bbox.xMin as real, bbox.yMin as real, bbox.xMax as real, bbox.yMax as real)
  {
    var size := CroppedSize(bbox, width, height);
    FullCropMapsToCroppedRect(size, bbox);
  }

  /** For a box inside the image, a crop-local box inside the 640x640 crop is mapped inside the box. */
  lemma CropBoxLandsInBox(c: CropBox, bbox: Box, width: nat, height: nat)
    requires 0 <= bbox.xMin <= bbox.xMax <= width && 0 <= bbox.yMin <= bbox.yMax <= height
    requires 0.0 <= c.x1 <= CropSide && 0.0 <= c.x2 <= CropSide
    requires 0.0 <= c.y1 <= CropSide && 0.0 <= c.y2 <= CropSide
    ensures
      var b := RemapBox(c, CroppedSize(bbox, width, height), bbox);
      && bbox.xMin as real <= b.x1 <= bbox.xMax as real && bbox.xMin as real <= b.x2 <= bbox.xMax as real
      && bbox.yMin as real <= b.y1 <= bbox.yMax as real && bbox.yMin as real <= b.y2 <= bbox.yMax as real
  {
    var size := CroppedSize(bbox, width, height);
    AxisStaysInCrop(c.x1, size.w, bbox.xMin);
    AxisStaysInCrop(c.x2, size.w, bbox.xMin);
    AxisStaysInCrop(c.y1, size.h, bbox.yMin);
    AxisStaysInCrop(c.y2, size.h, bbox.yMin);
  }

  /** A box mapped back from the original image into crop space. */
  function UnmapBox(b: ImageBox, croppedSize: Size, origBox: Box): CropBox
    requires croppedSize.w > 0 && croppedSize.h > 0
  {
    CropBox(UnmapAxis(b.x1, croppedSize.w, origBox.xMin),
            UnmapAxis(b.y1, croppedSize.h, origBox.yMin),
            UnmapAxis(b.x2, croppedSize.w, origBox.xMin),
            UnmapAxis(b.y2, croppedSize.h, origBox.yMin))
  }

  /** For a crop of positive size, remapping loses nothing: unmapping every box gives the crop-local boxes back. */
  lemma RemapRoundTrip(boxes: seq<CropBox>, croppedSize: Size, origBox: Box)
    requires croppedSize.w > 0 && croppedSize.h > 0
    ensures forall k :: 0 <= k < |boxes| ==>
      UnmapBox(ResizeBoxesToOriginal(boxes, croppedSize, origBox)[k], croppedSize, origBox) == boxes[k]
  {
    var r := ResizeBoxesToOriginal(boxes, croppedSize, origBox);
    forall k | 0 <= k < |boxes|
      ensures UnmapBox(r[k], croppedSize, origBox) == boxes[k]
    {
      var b := boxes[k];
      AxisRoundTrip(b.x1, 0.0, croppedSize.w, origBox.xMin);
      AxisRoundTrip(b.y1, 0.0, croppedSize.h, origBox.yMin);
      AxisRoundTrip(b.x2, 0.0, croppedSize.w, origBox.xMin);
      AxisRoundTrip(b.y2, 0.0, croppedSize.h, origBox.yMin);
    }
  }

  /** The worked example: origin (50, 30), crop 100 wide and 200 high. */
  lemma WorkedExample()
    ensures RemapBox(CropBox(0.0, 0.0, CropSide, CropSide), Size(200, 100), Box(50, 30, 150, 230))
         == ImageBox(50.0, 30.0, 150.0, 230.0)
  {
    FullCropMapsToCroppedRect(Size(200, 100), Box(50, 30, 150, 230));
  }
}
