/** The frame differencer of sketch.js: every pixel of the motion mask is
    opaque black where the current frame moved away from the previous one by
    more than the threshold, and opaque white elsewhere.

    The source compares p5's dist() (a Euclidean distance) with an integer
    threshold; since both sides are non-negative, the model compares the
    squared distance with the squared threshold (DistanceTestExact). */
module Differencer {
  import opened Raster

  /** The two pixels the mask is made of. */
  const Black: seq<Byte> := [0, 0, 0, 255]
  const White: seq<Byte> := [255, 255, 255, 255]

  /** Squared Euclidean distance between the red, green and blue channels of
      pixel p in two buffers; alpha takes no part. */
  function SquaredDistance(cur: seq<Byte>, prev: seq<Byte>, p: nat): (d: int)
    requires 4 * p + 2 < |cur| && 4 * p + 2 < |prev|
    ensures d >= 0
  {
    var dr := cur[4 * p] as int - prev[4 * p] as int;
    var dg := cur[4 * p + 1] as int - prev[4 * p + 1] as int;
    var db := cur[4 * p + 2] as int - prev[4 * p + 2] as int;
    dr * dr + dg * dg + db * db
  }

  /** Whether pixel p counts as motion. The previous frame is read at the
      current frame's indices; past its end JavaScript reads undefined, dist()
      yields NaN and `NaN > threshold` is false, so such a pixel is not motion.
      Motion needs a change of colour, and a pixel of unchanged colour is
      never motion. */
  predicate Moved(cur: seq<Byte>, prev: seq<Byte>, p: nat, threshold: nat): (r: bool)
    requires 4 * p + 2 < |cur|
    ensures r ==> 4 * p + 2 < |prev|
    ensures r ==> cur[4 * p] != prev[4 * p] || cur[4 * p + 1] != prev[4 * p + 1] || cur[4 * p + 2] != prev[4 * p + 2]
  {
    4 * p + 2 < |prev| && SquaredDistance(cur, prev, p) > threshold * threshold
  }

  /** Channel c (0 red .. 3 alpha) of the mask pixel for a moved or still pixel. */
  function MaskByte(moved: bool, c: int): Byte {
    if c == 3 || !moved then 255 else 0
  }

  /** The mask the pixel loop writes, byte by byte. */
  function MotionMask(cur: seq<Byte>, prev: seq<Byte>, threshold: nat): (m: seq<Byte>)
    requires |cur| % 4 == 0
    ensures |m| == |cur|
  {
    seq(|cur|, k requires 0 <= k < |cur| => MaskByte(Moved(cur, prev, k / 4, threshold), k % 4))
  }

  /** Comparing squared values decides the source's test `dist(...) > threshold`
      exactly: for any non-negative real d whose square is the squared
      distance, d exceeds the threshold just when the squared distance exceeds
      the squared threshold. */
  lemma DistanceTestExact(squared: nat, d: real, threshold: nat)
    requires d >= 0.0 && d * d == squared as real
    ensures d > threshold as real <==> squared > threshold * threshold
  {
    var t := threshold as real;
    assert t >= 0.0 && (threshold * threshold) as real == t * t;
    assert d * d - t * t == (d - t) * (d + t);
    if d > t {
      ProductSign(d - t, d + t);
      assert squared as real > (threshold * threshold) as real;
    } else {
      ProductSign(t - d, d + t);
      assert squared as real <= (threshold * threshold) as real;
    }
  }

  /** The model's motion test is the source's: for the true distance d of
      pixel p, the pixel moved exactly when d exceeds the threshold. */
  lemma MovedIsDistanceTest(cur: seq<Byte>, prev: seq<Byte>, p: nat, threshold: nat, d: real)
    requires 4 * p + 2 < |cur| && 4 * p + 2 < |prev|
    requires d >= 0.0 && d * d == SquaredDistance(cur, prev, p) as real
    ensures Moved(cur, prev, p, threshold) <==> d > threshold as real
  {
    DistanceTestExact(SquaredDistance(cur, prev, p), d, threshold);
  }

  lemma ProductSign(a: real, b: real)
    requires a >= 0.0 && b >= 0.0
    ensures a * b >= 0.0 && (a > 0.0 && b > 0.0 ==> a * b > 0.0)
  {
  }

  /** Each mask pixel is black when the pixel moved and white when it did not. */
  lemma MaskPixel(cur: seq<Byte>, prev: seq<Byte>, threshold: nat, p: nat)
    requires |cur| % 4 == 0 && p < |cur| / 4
    ensures 4 * p + 4 <= |cur|
    ensures MotionMask(cur, prev, threshold)[4 * p .. 4 * p + 4]
         == if Moved(cur, prev, p, threshold) then Black else White
  {
    var m := MotionMask(cur, prev, threshold);
    var expected := if Moved(cur, prev, p, threshold) then Black else White;
    forall c | 0 <= c < 4
      ensures m[4 * p + c] == expected[c]
    {
      assert (4 * p + c) / 4 == p && (4 * p + c) % 4 == c;
    }
  }

  /** The test is strict: a pixel exactly at the threshold distance is white. */
  lemma AtThresholdIsStill(cur: seq<Byte>, prev: seq<Byte>, threshold: nat, p: nat)
    requires |cur| % 4 == 0 && p < |cur| / 4 && 4 * p + 2 < |prev|
    requires SquaredDistance(cur, prev, p) == threshold * threshold
    ensures MotionMask(cur, prev, threshold)[4 * p .. 4 * p + 4] == White
  {
    MaskPixel(cur, prev, threshold, p);
  }

  /** The mask is binary: every pixel is opaque black or opaque white. */
  lemma MaskIsBinary(cur: seq<Byte>, prev: seq<Byte>, threshold: nat, p: nat)
    requires |cur| % 4 == 0 && p < |cur| / 4
    ensures 4 * p + 4 <= |cur|
    ensures MotionMask(cur, prev, threshold)[4 * p .. 4 * p + 4] in {Black, White}
  {
    MaskPixel(cur, prev, threshold, p);
  }

  /** Alpha is never read: frames that agree on every red, green and blue byte
      give the same mask. */
  lemma AlphaIgnored(cur: seq<Byte>, prev: seq<Byte>, cur': seq<Byte>, prev': seq<Byte>, threshold: nat)
    requires |cur| % 4 == 0 && |cur'| == |cur| && |prev'| == |prev|
    requires forall k :: 0 <= k < |cur| && k % 4 != 3 ==> cur[k] == cur'[k]
    requires forall k :: 0 <= k < |prev| && k % 4 != 3 ==> prev[k] == prev'[k]
    ensures MotionMask(cur, prev, threshold) == MotionMask(cur', prev', threshold)
  {
    forall k | 0 <= k < |cur|
      ensures Moved(cur, prev, k / 4, threshold) == Moved(cur', prev', k / 4, threshold)
    {
      var p := k / 4;
      PixelOfByte(|cur|, k);
      RgbOfPixel(p);
      assert cur[4 * p] == cur'[4 * p];
      assert cur[4 * p + 1] == cur'[4 * p + 1];
      assert cur[4 * p + 2] == cur'[4 * p + 2];
      SameRgbSameMotion(cur, prev, cur', prev', p, threshold);
    }
    var m, m' := MotionMask(cur, prev, threshold), MotionMask(cur', prev', threshold);
    assert forall k | 0 <= k < |cur| :: m[k] == m'[k];
  }

  /** Byte k of a buffer of whole pixels lies in pixel k / 4, which is whole. */
  lemma PixelOfByte(n: nat, k: nat)
    requires n % 4 == 0 && k < n
    ensures 4 * (k / 4) + 3 < n
  {
  }

  /** The first three bytes of pixel p are not alpha bytes. */
  lemma RgbOfPixel(p: nat)
    ensures (4 * p) % 4 == 0 && (4 * p + 1) % 4 == 1 && (4 * p + 2) % 4 == 2
  {
  }

  lemma SameRgbSameMotion(cur: seq<Byte>, prev: seq<Byte>, cur': seq<Byte>, prev': seq<Byte>, p: nat, threshold: nat)
    requires 4 * p + 2 < |cur| == |cur'| && |prev'| == |prev|
    requires cur[4 * p] == cur'[4 * p] && cur[4 * p + 1] == cur'[4 * p + 1] && cur[4 * p + 2] == cur'[4 * p + 2]
    requires 4 * p + 2 < |prev| ==>
      prev[4 * p] == prev'[4 * p] && prev[4 * p + 1] == prev'[4 * p + 1] && prev[4 * p + 2] == prev'[4 * p + 2]
    ensures Moved(cur, prev, p, threshold) == Moved(cur', prev', p, threshold)
  {
  }

  /** Two identical frames give an all-white mask, whatever the threshold. */
  lemma StillFrameIsWhite(frame: seq<Byte>, threshold: nat)
    requires |frame| % 4 == 0
    ensures MotionMask(frame, frame, threshold) == seq(|frame|, _ => 255)
  {
    forall k | 0 <= k < |frame|
      ensures !Moved(frame, frame, k / 4, threshold)
    {
      assert SquaredDistance(frame, frame, k / 4) == 0;
    }
  }

  /** Lines 73-83: write an opaque black pixel for motion, an opaque white one
      otherwise, at the pixel starting at byte index. */
  method SetPixel(pixels: array<Byte>, index: nat, moved: bool)
    requires index % 4 == 0 && index + 4 <= pixels.Length
    modifies pixels
    ensures forall k :: 0 <= k < pixels.Length ==>
      pixels[k] == if k / 4 == index / 4 then MaskByte(moved, k % 4) else old(pixels[k])
  {
    if moved {
      pixels[index + 0] := 0;
      pixels[index + 1] := 0;
      pixels[index + 2] := 0;
      pixels[index + 3] := 255;
    } else {
      pixels[index + 0] := 255;
      pixels[index + 1] := 255;
      pixels[index + 2] := 255;
      pixels[index + 3] := 255;
    }
  }

  /** Lines 55-73: read the colour of the pixel at byte index in both frames
      and test their distance against the threshold. */
  method PixelMoved(currImg: Image, prevImg: Image, index: nat, threshold: nat) returns (moved: bool)
    requires index % 4 == 0 && index + 4 <= currImg.pixels.Length
    ensures moved == Moved(currImg.pixels[..], prevImg.pixels[..], index / 4, threshold)
  {
    var redSource: int := currImg.pixels[index + 0];
    var greenSource: int := currImg.pixels[index + 1];
    var blueSource: int := currImg.pixels[index + 2];
    moved := false;
    if index + 2 < prevImg.pixels.Length {
      var redBack: int := prevImg.pixels[index + 0];
      var greenBack: int := prevImg.pixels[index + 1];
      var blueBack: int := prevImg.pixels[index + 2];
      var dr, dg, db := redSource - redBack, greenSource - greenBack, blueSource - blueBack;
      moved := dr * dr + dg * dg + db * db > threshold * threshold;
    }
  }

  /** The inner loop of lines 54-84 for column x: every pixel of the column
      gets its mask pixel, and no other byte changes. */
  method MarkColumn(currImg: Image, prevImg: Image, diffImg: Image, threshold: nat, x: nat)
    requires currImg.Valid() && diffImg.Valid() && prevImg.Valid()
    requires diffImg.width == currImg.width && diffImg.height == currImg.height
    requires diffImg.pixels != currImg.pixels && diffImg.pixels != prevImg.pixels
    requires x < currImg.width
    modifies diffImg.pixels
    ensures forall k :: 0 <= k < diffImg.pixels.Length ==>
      diffImg.pixels[k] ==
        if ScannedBefore(k / 4, currImg.width, x, currImg.height) && !ScannedBefore(k / 4, currImg.width, x, 0)
        then MotionMask(currImg.pixels[..], prevImg.pixels[..], threshold)[k]
        else old(diffImg.pixels[k])
  {
    var w, h := currImg.width, currImg.height;
    ghost var mask := MotionMask(currImg.pixels[..], prevImg.pixels[..], threshold);
    var y := 0;
    while y < h
      invariant 0 <= y <= h
      invariant forall k :: 0 <= k < diffImg.pixels.Length ==>
        diffImg.pixels[k] == if ScannedBefore(k / 4, w, x, y) && !ScannedBefore(k / 4, w, x, 0) then mask[k] else old(diffImg.pixels[k])
    {
      PixelNumber(w, h, x, y);
      var index := (x + y * w) * 4;
      var moved := PixelMoved(currImg, prevImg, index, threshold);
      SetPixel(diffImg.pixels, index, moved);
      ScanStepBytes(w, h, x, y);
      y := y + 1;
    }
  }

  /** The pixel loop of draw(), lines 50-86: with no previous frame the mask
      is left as it was; otherwise every pixel of the mask is set by the motion
      test, visiting the pixels column by column. */
  method MarkMotion(currImg: Image, prevImg: Image?, diffImg: Image, threshold: nat)
    requires currImg.Valid() && diffImg.Valid()
    requires prevImg != null ==> prevImg.Valid()
    requires diffImg.width == currImg.width && diffImg.height == currImg.height
    requires diffImg.pixels != currImg.pixels
    requires prevImg != null ==> diffImg.pixels != prevImg.pixels
    modifies diffImg.pixels
    ensures prevImg == null ==> unchanged(diffImg.pixels)
    ensures prevImg != null ==>
      diffImg.pixels[..] == MotionMask(currImg.pixels[..], prevImg.pixels[..], threshold)
  {
    if prevImg == null {
      return;
    }
    var w, h := currImg.width, currImg.height;
    ghost var mask := MotionMask(currImg.pixels[..], prevImg.pixels[..], threshold);
    ScanBoundsBytes(w, h);
    var x := 0;
    while x < w
      invariant 0 <= x <= w
      invariant forall k :: 0 <= k < diffImg.pixels.Length ==>
        diffImg.pixels[k] == if ScannedBefore(k / 4, w, x, 0) then mask[k] else old(diffImg.pixels[k])
    {
      MarkColumn(currImg, prevImg, diffImg, threshold, x);
      ScanNextColumnBytes(w, h, x);
      x := x + 1;
    }
    ScanBoundsBytes(w, h);
  }
}
