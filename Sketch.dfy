/** The sketch of sketch.js: its global state (the previous frame and the
    grid) and one pass of draw(), which differences the current frame against
    the previous one, keeps a copy of the current frame and runs the grid on
    the motion mask.

    The camera frame arrives already copied, downscaled to a quarter and
    blurred: those steps, and all drawing, happen outside the model. */
module Sketch {
  import opened Raster
  import opened Differencer
  import opened NoteGrid

  /** The grid's dimensions, fixed by setup(). */
  const GridWidth := 640
  const GridHeight := 480

  /** The threshold slider's range. */
  const SliderMin := 0
  const SliderMax := 255

  /** A 640 x 480 camera frame after the quarter downscale. */
  const FrameWidth := GridWidth / 4
  const FrameHeight := GridHeight / 4

  /** The sketch's state between frames. */
  class Piano {
    /** The previous frame; null until the first draw() has run. */
    var prevImg: Image?
    const grid: Grid

    ghost predicate Valid()
      reads this, grid, grid.notePos, grid.noteState, grid.noteToPlay
    {
      && grid.Valid() && grid.gridWidth == GridWidth && grid.gridHeight == GridHeight
      && (prevImg != null ==> prevImg.Valid())
    }

    /** setup(), lines 9-19: no previous frame yet, and a fresh silent
        640 x 480 grid. */
    constructor ()
      ensures Valid() && prevImg == null && fresh(grid)
      ensures fresh(grid.notePos) && fresh(grid.noteState) && fresh(grid.noteToPlay)
      ensures CellCount(GridWidth) == 16 && CellCount(GridHeight) == 12
      ensures grid.noteState.Length0 == 16 && grid.noteState.Length1 == 12
      ensures forall i, j :: 0 <= i < 16 && 0 <= j < 12 ==> grid.noteState[i, j] == 0
    {
      prevImg := null;
      grid := new Grid(GridWidth, GridHeight);
    }

    /** draw(), lines 21-109, from the downscaled frame on: a blank mask of
        the frame's size is filled by the pixel loop when there is a previous
        frame, the frame is kept as the next previous frame, and the grid runs
        on the mask. */
    method Draw(currImg: Image, threshold: nat) returns (diffImg: Image, plays: seq<Play>)
      requires Valid() && currImg.Valid()
      modifies this, grid.noteState
      ensures Valid() && grid.Tones() == old(grid.Tones())
      ensures fresh(diffImg) && fresh(diffImg.pixels) && diffImg.Valid()
      ensures diffImg.width == currImg.width && diffImg.height == currImg.height
      ensures old(prevImg) == null ==> diffImg.pixels[..] == seq(diffImg.pixels.Length, _ => 0)
      ensures old(prevImg) != null ==>
        diffImg.pixels[..] == MotionMask(currImg.pixels[..], old(prevImg.pixels[..]), threshold)
      ensures prevImg != null && fresh(prevImg) && fresh(prevImg.pixels)
      ensures prevImg.width == currImg.width && prevImg.height == currImg.height
      ensures prevImg.pixels[..] == currImg.pixels[..]
      ensures grid.States() == DecayAll(Retrigger(old(grid.States()),
        Hits(diffImg.pixels[..], diffImg.width, diffImg.height, GridWidth, GridHeight)))
      ensures plays == GridPlays(Retrigger(old(grid.States()),
        Hits(diffImg.pixels[..], diffImg.width, diffImg.height, GridWidth, GridHeight)), grid.Tones())
    {
      ghost var states := grid.States();
      diffImg := NewMask(currImg, prevImg, threshold);
      prevImg := new Image.Copy(currImg);
      assert grid.Valid() && grid.States() == states;
      ghost var mask := diffImg.pixels[..];
      plays := grid.Run(diffImg);
      assert diffImg.pixels[..] == mask;
    }
  }

  /** Lines 43-86: a fresh blank image of the frame's size, filled by the
      pixel loop when there is a previous frame. */
  method NewMask(currImg: Image, prevImg: Image?, threshold: nat) returns (diffImg: Image)
    requires currImg.Valid() && (prevImg != null ==> prevImg.Valid())
    ensures fresh(diffImg) && fresh(diffImg.pixels) && diffImg.Valid()
    ensures diffImg.width == currImg.width && diffImg.height == currImg.height
    ensures prevImg == null ==> diffImg.pixels[..] == seq(diffImg.pixels.Length, _ => 0)
    ensures prevImg != null ==> diffImg.pixels[..] == MotionMask(currImg.pixels[..], prevImg.pixels[..], threshold)
  {
    diffImg := new Image.Blank(currImg.width, currImg.height);
    MarkMotion(currImg, prevImg, diffImg, threshold);
  }

  /** Every slider position, even the highest, sees a pixel flip between
      black and white, and the lowest sees any change of colour. */
  lemma SliderRangeDetects(cur: seq<Byte>, prev: seq<Byte>, p: nat, threshold: nat)
    requires SliderMin <= threshold <= SliderMax
    requires 4 * p + 2 < |cur| && 4 * p + 2 < |prev|
    ensures cur[4 * p .. 4 * p + 3] == [255, 255, 255] && prev[4 * p .. 4 * p + 3] == [0, 0, 0]
      ==> Moved(cur, prev, p, threshold)
    ensures threshold == SliderMin ==>
      (Moved(cur, prev, p, threshold) <==> cur[4 * p .. 4 * p + 3] != prev[4 * p .. 4 * p + 3])
  {
    var dr := cur[4 * p] as int - prev[4 * p] as int;
    var dg := cur[4 * p + 1] as int - prev[4 * p + 1] as int;
    var db := cur[4 * p + 2] as int - prev[4 * p + 2] as int;
    assert SquaredDistance(cur, prev, p) == dr * dr + dg * dg + db * db;
    if cur[4 * p .. 4 * p + 3] == [255, 255, 255] && prev[4 * p .. 4 * p + 3] == [0, 0, 0] {
      assert cur[4 * p] == 255 && prev[4 * p] == 0;
      ScaleBound(threshold, SliderMax, threshold);
      ScaleBound(threshold, SliderMax, SliderMax);
    }
    if threshold == SliderMin {
      if cur[4 * p .. 4 * p + 3] != prev[4 * p .. 4 * p + 3] {
        assert dr != 0 || dg != 0 || db != 0;
        assert dr != 0 ==> dr * dr > 0;
        assert dg != 0 ==> dg * dg > 0;
        assert db != 0 ==> db * db > 0;
      }
    }
  }

  lemma ScaleBound(a: nat, b: nat, c: nat)
    requires a <= b
    ensures c * a <= c * b
  {
  }

  /** A scene that does not change triggers no cell: the grid only fades. */
  lemma StillSceneOnlyFades(t: seq<seq<int>>, frame: seq<Byte>, w: nat, h: nat, threshold: nat)
    requires |frame| == 4 * (w * h)
    ensures Hits(MotionMask(frame, frame, threshold), w, h, GridWidth, GridHeight) == {}
    ensures Retrigger(t, Hits(MotionMask(frame, frame, threshold), w, h, GridWidth, GridHeight)) == t
  {
    var mask := MotionMask(frame, frame, threshold);
    StillFrameIsWhite(frame, threshold);
    var r := Retrigger(t, {});
    forall i | 0 <= i < |t|
      ensures r[i] == t[i]
    {
    }
  }

  /** A pixel of the quarter-size frame that lies in cell (i, j). */
  lemma QuarterPixel(i: nat, j: nat) returns (p: nat)
    requires i < CellCount(GridWidth) && j < CellCount(GridHeight)
    ensures p < FrameWidth * FrameHeight
    ensures CellOf(p, FrameWidth, FrameHeight, GridWidth, GridHeight) == (i, j)
  {
    assert FrameWidth == 160 && FrameHeight == 120;
    assert CellCount(GridWidth) == 16 && CellCount(GridHeight) == 12;
    var x, y := 10 * i, 10 * j;
    PixelNumber(160, 120, x, y);
    p := x + y * 160;
    DivUnique(x * 640, 6400, i, 0);
    DivUnique(y * 480, 4800, j, 0);
    assert CellIndex(x, 160, 640) == i && CellIndex(y, 120, 480) == j;
  }

  /** On the first frame the pixel loop does not run and the mask keeps the
      zero bytes of a fresh image, so every pixel reads as motion: for a
      640 x 480 camera every cell of the grid is triggered. */
  lemma FirstFrameTriggersEveryCell(i: nat, j: nat)
    requires i < CellCount(GridWidth) && j < CellCount(GridHeight)
    ensures (i, j) in Hits(seq(4 * (FrameWidth * FrameHeight), _ => 0), FrameWidth, FrameHeight, GridWidth, GridHeight)
  {
    var mask: seq<Byte> := seq(4 * (FrameWidth * FrameHeight), _ => 0);
    var p := QuarterPixel(i, j);
    BlackPixelHits(mask, FrameWidth, FrameHeight, GridWidth, GridHeight, p);
  }
}
