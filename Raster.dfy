/** Pixel buffers laid out as in a p5.Image: four bytes (red, green, blue,
    alpha) per pixel, row-major, so pixel (x, y) of a width-w image is pixel
    number x + y*w and starts at byte (x + y*w)*4.

    Both pixel loops of the sketch walk such a buffer column by column
    (x outer, y inner); the predicate ScannedBefore and the lemmas below say
    which pixels such a walk has visited. */
module Raster {

  /** One channel value of a Uint8ClampedArray. */
  type Byte = b: int | 0 <= b < 256

  /** A p5.Image as far as the sketch uses it. The sketch never resizes an
      image after filling it, so its dimensions and buffer are constants;
      only the bytes of the buffer change. */
  class Image {
    const width: nat
    const height: nat
    const pixels: array<Byte>

    ghost predicate Valid() {
      pixels.Length == 4 * (width * height)
    }

    /** createImage(w, h): a fresh image whose bytes are all 0
        (transparent black). */
    constructor Blank(w: nat, h: nat)
      ensures Valid() && width == w && height == h
      ensures fresh(pixels)
      ensures forall k :: 0 <= k < pixels.Length ==> pixels[k] == 0
    {
      width, height := w, h;
      pixels := new Byte[4 * (w * h)](_ => 0);
    }

    /** createImage(src.width, src.height) followed by copy(src, ...) over the
        whole image: a fresh image of the same size holding the same bytes. */
    constructor Copy(src: Image)
      requires src.Valid()
      ensures Valid() && width == src.width && height == src.height
      ensures fresh(pixels) && pixels[..] == src.pixels[..]
    {
      width, height := src.width, src.height;
      var s := src.pixels[..];
      pixels := new Byte[|s|](k requires 0 <= k < |s| => s[k]);
    }
  }

  /** Pixel number p of a width-w raster has been visited by a column-by-column
      walk that is about to visit (x, y): its column lies left of x, or it lies
      in column x above row y. */
  predicate ScannedBefore(p: int, w: nat, x: int, y: int) {
    w > 0 && (p % w < x || (p % w == x && p / w < y))
  }

  /** The pixel number of (x, y) is in range and gives back x and y. */
  lemma PixelNumber(w: nat, h: nat, x: int, y: int)
    requires 0 <= x < w && 0 <= y < h
    ensures 0 <= x + y * w < w * h
    ensures (x + y * w) % w == x && (x + y * w) / w == y
  {
    assert x + y * w < w + y * w == (y + 1) * w <= h * w;
    DivUnique(x + y * w, w, y, x);
  }

  /** Pixel number p of a width-w raster is pixel (p % w, p / w). */
  lemma PixelOfNumber(p: nat, w: nat)
    requires w > 0
    ensures p == p % w + (p / w) * w
  {
  }

  /** Euclidean division is determined by its defining equation. */
  lemma DivUnique(n: int, w: int, q: int, r: int)
    requires w > 0 && 0 <= r < w && n == q * w + r
    ensures n / w == q && n % w == r
  {
    var d := n / w - q;
    assert d * w == r - n % w;
    assert d >= 1 ==> d * w >= w;
    assert d <= -1 ==> d * w <= -w;
  }

  /** A pixel number below w*h lies in a row below h. */
  lemma RowInRange(w: nat, h: nat, p: int)
    requires 0 <= p < w * h
    ensures w > 0 && p / w < h
  {
    assert w == 0 ==> w * h == 0;
  }

  /** Visiting (x, y) adds exactly pixel x + y*w to the visited pixels. */
  lemma ScanStep(w: nat, h: nat, x: int, y: int, p: int)
    requires 0 <= x < w && 0 <= y < h && 0 <= p
    ensures ScannedBefore(p, w, x, y + 1) <==> ScannedBefore(p, w, x, y) || p == x + y * w
  {
    PixelNumber(w, h, x, y);
    assert p == (p / w) * w + p % w;
  }

  /** Finishing column x is the same as starting column x + 1. */
  lemma ScanNextColumn(w: nat, h: nat, x: int, p: int)
    requires 0 <= x < w && 0 <= p < w * h
    ensures ScannedBefore(p, w, x, h) <==> ScannedBefore(p, w, x + 1, 0)
  {
    RowInRange(w, h, p);
  }

  /** Before the walk starts nothing is visited; after the last column every
      pixel is. */
  lemma ScanBounds(w: nat, h: nat, p: int)
    requires 0 <= p < w * h
    ensures !ScannedBefore(p, w, 0, 0)
    ensures ScannedBefore(p, w, w, 0)
  {
    RowInRange(w, h, p);
  }

  /** ScanStep for every byte of a w x h buffer. */
  lemma ScanStepBytes(w: nat, h: nat, x: int, y: int)
    requires 0 <= x < w && 0 <= y < h
    ensures forall k :: 0 <= k < 4 * (w * h) ==>
      (ScannedBefore(k / 4, w, x, y + 1) <==> ScannedBefore(k / 4, w, x, y) || k / 4 == x + y * w)
  {
    forall k | 0 <= k < 4 * (w * h)
      ensures ScannedBefore(k / 4, w, x, y + 1) <==> ScannedBefore(k / 4, w, x, y) || k / 4 == x + y * w
    {
      ScanStep(w, h, x, y, k / 4);
    }
  }

  /** ScanNextColumn for every byte of a w x h buffer. */
  lemma ScanNextColumnBytes(w: nat, h: nat, x: int)
    requires 0 <= x < w
    ensures forall k :: 0 <= k < 4 * (w * h) ==>
      (ScannedBefore(k / 4, w, x, h) <==> ScannedBefore(k / 4, w, x + 1, 0))
  {
    forall k | 0 <= k < 4 * (w * h)
      ensures ScannedBefore(k / 4, w, x, h) <==> ScannedBefore(k / 4, w, x + 1, 0)
    {
      ScanNextColumn(w, h, x, k / 4);
    }
  }

  /** ScanBounds for every byte of a w x h buffer. */
  lemma ScanBoundsBytes(w: nat, h: nat)
    ensures forall k :: 0 <= k < 4 * (w * h) ==>
      !ScannedBefore(k / 4, w, 0, 0) && ScannedBefore(k / 4, w, w, 0)
  {
    forall k | 0 <= k < 4 * (w * h)
      ensures !ScannedBefore(k / 4, w, 0, 0) && ScannedBefore(k / 4, w, w, 0)
    {
      ScanBounds(w, h, k / 4);
    }
  }
}
