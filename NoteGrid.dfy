/** The reactive grid of Grid.js: a table of cells, indexed [column][row],
    each with a centre, a tone fixed at construction and an activation that
    motion sets to full and every frame lowers by one step.

    Activation is counted in twentieths, so 1 is Full, one decay step of 0.05
    is DecayStep and the quiet audio window [0.3, 0.5] is WindowLow..WindowHigh. */
module NoteGrid {
  import opened Raster

  /** Side of a cell in canvas units (this.noteSize). */
  const NoteSize := 40
  /** Activation 1.0. */
  const Full := 20
  /** The 0.05 taken off every frame. */
  const DecayStep := 1
  /** Activations 0.3 and 0.5, the ends of the quiet audio window. */
  const WindowLow := 6
  const WindowHigh := 10
  /** Start offset and sustain, in seconds, of every note played. */
  const StartDelay := 0
  const Sustain := 1

  datatype Letter = A | B | Bb | C | D | E | F | G

  /** A note name such as "Bb5": a letter and an octave. */
  datatype Tone = Tone(letter: Letter, octave: int)

  /** A createVector(x, y) position on the canvas. */
  datatype Vec = Vec(x: int, y: int)

  /** One call of playAudio(col, row), which plays `note` at `volume`
      (in twentieths) on the synthesizer. */
  datatype Play = Play(col: int, row: int, note: Tone, volume: int, delay: int, sustain: int)

  /** The letters of the left half (high pitch) and of the right half (low pitch). */
  const HighPitch: set<Letter> := {D, E, F, G}
  const LowPitch: set<Letter> := {A, B, Bb, C}

  /** Number of cells along an extent: how often `for (v = 0; v < extent; v += 40)` runs. */
  function CellCount(extent: nat): (n: nat)
    ensures NoteSize * n >= extent
    ensures n > 0 ==> NoteSize * (n - 1) < extent
  {
    (extent + NoteSize - 1) / NoteSize
  }

  /** Letters available to a cell whose corner is at x: high pitch left of the middle. */
  function PitchSet(x: int, w: nat): set<Letter> {
    if 2 * x < w then HighPitch else LowPitch
  }

  /** Octave of a cell whose corner is at y: the higher octave below the middle. */
  function Octave(y: int, h: nat): int {
    if 2 * y > h then 5 else 4
  }

  /** The tone of the cell with corner (x, y) is one its quadrant allows. */
  predicate ToneFits(t: Tone, x: int, y: int, w: nat, h: nat) {
    t.letter in PitchSet(x, w) && t.octave == Octave(y, h)
  }

  /** Lines 36-49: a random letter of the quadrant's set with the quadrant's
      octave. The random choice is a nondeterministic one. */
  method PickTone(x: int, y: int, w: nat, h: nat) returns (note: Tone)
    ensures ToneFits(note, x, y, w, h)
  {
    if 2 * x < w {
      assert D in HighPitch;
      var letter :| letter in HighPitch;
      if 2 * y > h {
        note := Tone(letter, 5);
      } else {
        note := Tone(letter, 4);
      }
    } else {
      assert A in LowPitch;
      var letter :| letter in LowPitch;
      if 2 * y > h {
        note := Tone(letter, 5);
      } else {
        note := Tone(letter, 4);
      }
    }
  }

  /** Lines 142-145: the cell index of mask coordinate v, scaled linearly
      from [0, extent) to [0, gridExtent) and divided by the cell size: the
      floor of v * gridExtent / extent / 40. */
  function CellIndex(v: nat, extent: nat, gridExtent: nat): (i: nat)
    requires extent > 0
    ensures i * (extent * NoteSize) <= v * gridExtent < (i + 1) * (extent * NoteSize)
  {
    (v * gridExtent) / (extent * NoteSize)
  }

  /** A coordinate inside the mask always maps to a cell inside the grid,
      although the source never checks it. */
  lemma CellIndexInBounds(v: nat, extent: nat, gridExtent: nat)
    requires v < extent && gridExtent > 0
    ensures CellIndex(v, extent, gridExtent) < CellCount(gridExtent)
  {
    var i := CellIndex(v, extent, gridExtent);
    assert v * gridExtent < extent * gridExtent;
    assert i * NoteSize >= gridExtent ==> i * NoteSize * extent >= gridExtent * extent;
  }

  /** The cell of pixel number p of an iw x ih mask. */
  function CellOf(p: nat, iw: nat, ih: nat, gridWidth: nat, gridHeight: nat): (int, int)
    requires iw > 0 && ih > 0
  {
    (CellIndex(p % iw, iw, gridWidth), CellIndex(p / iw, ih, gridHeight))
  }

  /** The cells that some black pixel (red channel 0) of the mask maps to.
      They all lie inside the grid, although the source never checks it. */
  ghost function Hits(mask: seq<Byte>, iw: nat, ih: nat, gridWidth: nat, gridHeight: nat): (r: set<(int, int)>)
    requires |mask| == 4 * (iw * ih)
    ensures gridWidth > 0 && gridHeight > 0 ==>
      forall c :: c in r ==> 0 <= c.0 < CellCount(gridWidth) && 0 <= c.1 < CellCount(gridHeight)
  {
    if iw == 0 || ih == 0 then {}
    else
      CellsInGrid(iw, ih, gridWidth, gridHeight);
      set p: nat | p < iw * ih && mask[4 * p] == 0 :: CellOf(p, iw, ih, gridWidth, gridHeight)
  }

  /** The cells hit by the black pixels a column-by-column walk has visited
      before (x, y). */
  ghost function HitsBefore(mask: seq<Byte>, iw: nat, ih: nat, gridWidth: nat, gridHeight: nat, x: int, y: int): set<(int, int)>
    requires |mask| == 4 * (iw * ih)
  {
    if iw == 0 || ih == 0 then {}
    else set p: nat | p < iw * ih && ScannedBefore(p, iw, x, y) && mask[4 * p] == 0 :: CellOf(p, iw, ih, gridWidth, gridHeight)
  }

  /** A black pixel hits its own cell. */
  lemma BlackPixelHits(mask: seq<Byte>, iw: nat, ih: nat, gridWidth: nat, gridHeight: nat, p: nat)
    requires |mask| == 4 * (iw * ih) && p < iw * ih && mask[4 * p] == 0
    ensures iw > 0 && ih > 0
    ensures CellOf(p, iw, ih, gridWidth, gridHeight) in Hits(mask, iw, ih, gridWidth, gridHeight)
  {
    RowInRange(iw, ih, p);
  }

  /** The test of `Hits` in the loops' own coordinates: pixel (x, y) of a
      width-iw mask is black (red channel 0). */
  predicate BlackPixel(mask: seq<Byte>, iw: nat, x: nat, y: nat) {
    var index := (x + y * iw) * 4;
    index < |mask| && mask[index] == 0
  }

  /** In the loops' own coordinates: a cell is hit exactly when some pixel
      (x, y) of the mask has red channel 0 and maps to it. */
  lemma HitsByPixel(mask: seq<Byte>, iw: nat, ih: nat, gridWidth: nat, gridHeight: nat, c: (int, int))
    requires |mask| == 4 * (iw * ih)
    ensures c in Hits(mask, iw, ih, gridWidth, gridHeight) <==>
      exists x: nat, y: nat :: x < iw && y < ih && BlackPixel(mask, iw, x, y)
        && c == (CellIndex(x, iw, gridWidth), CellIndex(y, ih, gridHeight))
  {
    if c in Hits(mask, iw, ih, gridWidth, gridHeight) {
      var x, y := HitPixel(mask, iw, ih, gridWidth, gridHeight, c);
    }
    if exists x: nat, y: nat :: x < iw && y < ih && BlackPixel(mask, iw, x, y)
        && c == (CellIndex(x, iw, gridWidth), CellIndex(y, ih, gridHeight)) {
      var x: nat, y: nat :| x < iw && y < ih && BlackPixel(mask, iw, x, y)
        && c == (CellIndex(x, iw, gridWidth), CellIndex(y, ih, gridHeight));
      PixelNumber(iw, ih, x, y);
      BlackPixelHits(mask, iw, ih, gridWidth, gridHeight, x + y * iw);
    }
  }

  /** The coordinates of a black pixel behind a hit cell. */
  lemma HitPixel(mask: seq<Byte>, iw: nat, ih: nat, gridWidth: nat, gridHeight: nat, c: (int, int))
      returns (x: nat, y: nat)
    requires |mask| == 4 * (iw * ih) && c in Hits(mask, iw, ih, gridWidth, gridHeight)
    ensures x < iw && y < ih && BlackPixel(mask, iw, x, y)
    ensures c == (CellIndex(x, iw, gridWidth), CellIndex(y, ih, gridHeight))
  {
    var p: nat :| p < iw * ih && mask[4 * p] == 0 && c == CellOf(p, iw, ih, gridWidth, gridHeight);
    x, y := BlackPixelAt(mask, iw, ih, p);
  }

  /** The coordinates of a black pixel given by its number. */
  lemma BlackPixelAt(mask: seq<Byte>, iw: nat, ih: nat, p: nat) returns (x: nat, y: nat)
    requires 4 * p < |mask| && p < iw * ih && mask[4 * p] == 0
    ensures iw > 0 && x == p % iw && y == p / iw
    ensures x < iw && y < ih && BlackPixel(mask, iw, x, y)
  {
    RowInRange(iw, ih, p);
    x, y := p % iw, p / iw;
    PixelOfNumber(p, iw);
  }

  /** Every pixel of an iw x ih mask maps to a cell inside a non-empty grid. */
  lemma CellsInGrid(iw: nat, ih: nat, gridWidth: nat, gridHeight: nat)
    requires iw > 0 && ih > 0
    ensures gridWidth > 0 && gridHeight > 0 ==> forall p: nat :: p < iw * ih ==>
      0 <= CellOf(p, iw, ih, gridWidth, gridHeight).0 < CellCount(gridWidth)
      && 0 <= CellOf(p, iw, ih, gridWidth, gridHeight).1 < CellCount(gridHeight)
  {
    if gridWidth > 0 && gridHeight > 0 {
      forall p: nat | p < iw * ih
        ensures 0 <= CellOf(p, iw, ih, gridWidth, gridHeight).0 < CellCount(gridWidth)
        ensures 0 <= CellOf(p, iw, ih, gridWidth, gridHeight).1 < CellCount(gridHeight)
      {
        CellOfInGrid(p, iw, ih, gridWidth, gridHeight);
      }
    }
  }

  lemma CellOfInGrid(p: nat, iw: nat, ih: nat, gridWidth: nat, gridHeight: nat)
    requires p < iw * ih && gridWidth > 0 && gridHeight > 0
    ensures iw > 0 && ih > 0
    ensures 0 <= CellOf(p, iw, ih, gridWidth, gridHeight).0 < CellCount(gridWidth)
    ensures 0 <= CellOf(p, iw, ih, gridWidth, gridHeight).1 < CellCount(gridHeight)
  {
    RowInRange(iw, ih, p);
    CellIndexInBounds(p % iw, iw, gridWidth);
    CellIndexInBounds(p / iw, ih, gridHeight);
  }

  /** Visiting (x, y) adds the cell of that pixel when it is black, and nothing else. */
  lemma HitsStep(mask: seq<Byte>, iw: nat, ih: nat, gridWidth: nat, gridHeight: nat, x: nat, y: nat)
    requires |mask| == 4 * (iw * ih) && x < iw && y < ih
    ensures (x + y * iw) * 4 < |mask|
    ensures HitsBefore(mask, iw, ih, gridWidth, gridHeight, x, y + 1)
         == HitsBefore(mask, iw, ih, gridWidth, gridHeight, x, y)
          + (if mask[(x + y * iw) * 4] == 0
             then {(CellIndex(x, iw, gridWidth), CellIndex(y, ih, gridHeight))} else {})
  {
    PixelNumber(iw, ih, x, y);
    var p0 := x + y * iw;
    var before := HitsBefore(mask, iw, ih, gridWidth, gridHeight, x, y);
    var after := HitsBefore(mask, iw, ih, gridWidth, gridHeight, x, y + 1);
    var added: set<(int, int)> := if mask[4 * p0] == 0 then {CellOf(p0, iw, ih, gridWidth, gridHeight)} else {};
    forall c | c in after
      ensures c in before + added
    {
      var p: nat :| p < iw * ih && ScannedBefore(p, iw, x, y + 1) && mask[4 * p] == 0
                    && c == CellOf(p, iw, ih, gridWidth, gridHeight);
      ScanStep(iw, ih, x, y, p);
    }
    forall c | c in before + added
      ensures c in after
    {
      if c in before {
        var p: nat :| p < iw * ih && ScannedBefore(p, iw, x, y) && mask[4 * p] == 0
                      && c == CellOf(p, iw, ih, gridWidth, gridHeight);
        ScanStep(iw, ih, x, y, p);
      } else {
        ScanStep(iw, ih, x, y, p0);
      }
    }
  }

  /** Two scan positions that have visited the same pixels have hit the same cells. */
  lemma HitsSameScan(mask: seq<Byte>, iw: nat, ih: nat, gridWidth: nat, gridHeight: nat,
                     x1: int, y1: int, x2: int, y2: int)
    requires |mask| == 4 * (iw * ih)
    requires forall p :: 0 <= p < iw * ih ==> (ScannedBefore(p, iw, x1, y1) <==> ScannedBefore(p, iw, x2, y2))
    ensures HitsBefore(mask, iw, ih, gridWidth, gridHeight, x1, y1) == HitsBefore(mask, iw, ih, gridWidth, gridHeight, x2, y2)
  {
  }

  /** A finished walk has hit exactly the cells of all black pixels. */
  lemma HitsComplete(mask: seq<Byte>, iw: nat, ih: nat, gridWidth: nat, gridHeight: nat)
    requires |mask| == 4 * (iw * ih)
    ensures HitsBefore(mask, iw, ih, gridWidth, gridHeight, iw, 0) == Hits(mask, iw, ih, gridWidth, gridHeight)
  {
    forall p | 0 <= p < iw * ih
      ensures ScannedBefore(p, iw, iw, 0)
    {
      ScanBounds(iw, ih, p);
    }
  }

  /** p5's constrain(v, lo, hi). */
  function Constrain(v: int, lo: int, hi: int): (r: int)
    requires lo <= hi
    ensures lo <= r <= hi
    ensures lo <= v <= hi ==> r == v
  {
    var m := if v < hi then v else hi;
    if m > lo then m else lo
  }

  /** Lines 127-128: one frame's decay of an activation. */
  function Decay(k: int): (r: int)
    ensures 0 <= r <= Full
  {
    Constrain(k - DecayStep, 0, Full)
  }

  /** Whether a cell at activation k calls playAudio (lines 74 and 125): it
      is lit, and either just triggered or inside the quiet window. The test
      of line 74 never decides on its own: every activation that passes line
      125 is already positive, and none below 0.3 fires. */
  predicate Fires(k: int): (r: bool)
    ensures r ==> WindowLow <= k <= Full
  {
    k > 0 && (k == Full || (k <= WindowHigh && k >= WindowLow))
  }

  /** Every column of t has `rows` cells. */
  ghost predicate IsTable(t: seq<seq<int>>, rows: nat) {
    forall i :: 0 <= i < |t| ==> |t[i]| == rows
  }

  /** Two tables with the same columns and column lengths. */
  ghost predicate SameShape<X, Y>(t: seq<seq<X>>, u: seq<seq<Y>>) {
    |t| == |u| && forall i :: 0 <= i < |t| ==> |t[i]| == |u[i]|
  }

  /** Every activation lies in [0, 1]. */
  ghost predicate InRange(t: seq<seq<int>>) {
    forall i, j :: 0 <= i < |t| && 0 <= j < |t[i]| ==> 0 <= t[i][j] <= Full
  }

  /** The activations after findActiveNotes: every hit cell at Full. */
  function Retrigger(t: seq<seq<int>>, hits: set<(int, int)>): (r: seq<seq<int>>)
    ensures SameShape(r, t)
    ensures InRange(t) ==> InRange(r)
  {
    seq(|t|, i requires 0 <= i < |t| =>
      seq(|t[i]|, j requires 0 <= j < |t[i]| => if (i, j) in hits then Full else t[i][j]))
  }

  /** The activations after drawActiveNotes: every cell decayed once. Whatever
      the activations were, they end in [0, 1]. */
  function DecayAll(t: seq<seq<int>>): (r: seq<seq<int>>)
    ensures SameShape(r, t)
    ensures InRange(r)
  {
    seq(|t|, i requires 0 <= i < |t| => seq(|t[i]|, j requires 0 <= j < |t[i]| => Decay(t[i][j])))
  }

  /** The audio call cell (i, j) makes at activation k, if any: at most one,
      with the cell's tone at a volume equal to its activation, which is never
      below 0.3. */
  function PlayFor(i: int, j: int, k: int, note: Tone): (r: seq<Play>)
    ensures |r| <= 1
    ensures r != [] ==> r[0].note == note && r[0].volume == k && WindowLow <= k <= Full
  {
    if Fires(k) then [Play(i, j, note, k, StartDelay, Sustain)] else []
  }

  /** Play p comes before play q in the column-by-column order of the loops. */
  predicate Earlier(p: Play, q: Play) {
    p.col < q.col || (p.col == q.col && p.row < q.row)
  }

  /** A table whose every cell is the decay of the same cell of t is DecayAll(t). */
  lemma DecayedTable(t: seq<seq<int>>, u: seq<seq<int>>)
    requires SameShape(t, u)
    requires forall a, b :: 0 <= a < |t| && 0 <= b < |t[a]| ==> u[a][b] == Decay(t[a][b])
    ensures u == DecayAll(t)
  {
    forall a | 0 <= a < |t|
      ensures u[a] == DecayAll(t)[a]
    {
    }
  }

  /** The audio calls made while walking column i from the top: each comes
      from a cell of the column, in order, at most one per cell. */
  function ColumnPlays(i: int, col: seq<int>, notes: seq<Tone>): (r: seq<Play>)
    requires |notes| == |col|
    ensures forall q :: 0 <= q < |r| ==> r[q].col == i && 0 <= r[q].row < |col|
    ensures forall a, b :: 0 <= a < b < |r| ==> r[a].row < r[b].row
    decreases |col|
  {
    if col == [] then []
    else
      var n := |col| - 1;
      ColumnPlays(i, col[..n], notes[..n]) + PlayFor(i, n, col[n], notes[n])
  }

  /** The audio calls of a whole drawActiveNotes pass: column by column, in
      the loops' order, at most one per cell. */
  function GridPlays(t: seq<seq<int>>, notes: seq<seq<Tone>>): (r: seq<Play>)
    requires SameShape(t, notes)
    ensures forall q :: 0 <= q < |r| ==> 0 <= r[q].col < |t| && 0 <= r[q].row < |t[r[q].col]|
    ensures forall a, b :: 0 <= a < b < |r| ==> Earlier(r[a], r[b])
    decreases |t|
  {
    if t == [] then []
    else
      var n := |t| - 1;
      assert SameShape(t[..n], notes[..n]);
      GridPlays(t[..n], notes[..n]) + ColumnPlays(n, t[n], notes[n])
  }

  /** Walking one more column appends that column's plays. */
  lemma GridPlaysExtend(t: seq<seq<int>>, notes: seq<seq<Tone>>, i: nat)
    requires SameShape(t, notes) && i < |t|
    ensures SameShape(t[..i], notes[..i]) && SameShape(t[..i + 1], notes[..i + 1])
    ensures GridPlays(t[..i + 1], notes[..i + 1]) == GridPlays(t[..i], notes[..i]) + ColumnPlays(i, t[i], notes[i])
  {
    assert t[..i + 1][..i] == t[..i] && notes[..i + 1][..i] == notes[..i];
  }

  /** Within a column, a play is made exactly for a firing cell, with that
      cell's tone and its activation as volume. */
  lemma {:induction false} ColumnPlaysExactly(i: int, col: seq<int>, notes: seq<Tone>, pl: Play)
    requires |notes| == |col|
    ensures pl in ColumnPlays(i, col, notes) <==>
      pl.col == i && 0 <= pl.row < |col| && Fires(col[pl.row])
      && pl == Play(i, pl.row, notes[pl.row], col[pl.row], StartDelay, Sustain)
    decreases |col|
  {
    if col != [] {
      var n := |col| - 1;
      ColumnPlaysExactly(i, col[..n], notes[..n], pl);
    }
  }

  /** A drawActiveNotes pass plays a note for a cell exactly when the cell
      fires, with that cell's tone, its activation as volume, no delay and
      one second of sustain. */
  lemma {:induction false} PlaysExactly(t: seq<seq<int>>, notes: seq<seq<Tone>>, pl: Play)
    requires SameShape(t, notes)
    ensures pl in GridPlays(t, notes) <==>
      0 <= pl.col < |t| && 0 <= pl.row < |t[pl.col]| && Fires(t[pl.col][pl.row])
      && pl == Play(pl.col, pl.row, notes[pl.col][pl.row], t[pl.col][pl.row], StartDelay, Sustain)
    decreases |t|
  {
    if t != [] {
      var n := |t| - 1;
      assert SameShape(t[..n], notes[..n]);
      PlaysExactly(t[..n], notes[..n], pl);
      ColumnPlaysExactly(n, t[n], notes[n], pl);
    }
  }

  /** Triggering twice is triggering once: re-triggering does not accumulate. */
  lemma RetriggerIdempotent(t: seq<seq<int>>, hits: set<(int, int)>)
    ensures Retrigger(Retrigger(t, hits), hits) == Retrigger(t, hits)
  {
    var once := Retrigger(t, hits);
    forall i | 0 <= i < |t|
      ensures Retrigger(once, hits)[i] == once[i]
    {
    }
  }

  /** Trigger before decay: a cell hit this frame plays at full volume and
      ends the frame one step below full; a cell not hit only decays. */
  lemma HitCellPlaysFullThenDecays(t: seq<seq<int>>, notes: seq<seq<Tone>>, hits: set<(int, int)>, i: int, j: int)
    requires SameShape(t, notes) && 0 <= i < |t| && 0 <= j < |t[i]|
    ensures SameShape(Retrigger(t, hits), notes)
    ensures (i, j) in hits ==>
      Play(i, j, notes[i][j], Full, StartDelay, Sustain) in GridPlays(Retrigger(t, hits), notes)
      && DecayAll(Retrigger(t, hits))[i][j] == Full - DecayStep
    ensures (i, j) !in hits ==> DecayAll(Retrigger(t, hits))[i][j] == Decay(t[i][j])
  {
    var lit := Retrigger(t, hits);
    PlaysExactly(lit, notes, Play(i, j, notes[i][j], Full, StartDelay, Sustain));
  }

  /** The activation of a cell left alone for n frames. */
  function Faded(k: int, n: nat): int
    decreases n
  {
    if n == 0 then k else Faded(Decay(k), n - 1)
  }

  /** Left alone, an activation falls by 0.05 a frame and then stays at 0:
      from 1 it reaches 0 after exactly 20 frames. */
  lemma {:induction false} FadeIsLinear(k: int, n: nat)
    requires 0 <= k <= Full
    ensures Faded(k, n) == if n < k then k - n else 0
    decreases n
  {
    if n > 0 {
      FadeIsLinear(Decay(k), n - 1);
    }
  }

  /** The volumes at which a cell left alone at activation k sounds, frame by
      frame, until it falls silent. */
  function FadeVolumes(k: int): seq<int>
    decreases if k > 0 then k else 0
  {
    if k <= 0 then []
    else (if Fires(k) then [k] else []) + FadeVolumes(Decay(k))
  }

  /** Below the window a fading cell is silent; inside it, it sounds every
      frame. This holds in exact twentieths; in the source's doubles the frame
      meant to be 0.3 holds 0.29999999999999966 and is silent. */
  lemma {:induction false} QuietTail(k: int)
    requires 0 <= k <= WindowHigh
    ensures FadeVolumes(k) == if k < WindowLow then [] else [k] + FadeVolumes(k - 1)
    decreases k
  {
    if 0 < k < WindowLow {
      QuietTail(k - 1);
    }
  }

  /** Between the quiet window and full a fading cell is silent. */
  lemma {:induction false} SilentPlateau(k: int)
    requires WindowHigh <= k < Full
    ensures FadeVolumes(k) == FadeVolumes(WindowHigh)
    decreases k
  {
    if k > WindowHigh {
      SilentPlateau(k - 1);
    }
  }

  /** In exact twentieths one trigger sounds six times: at full volume, then
      at 0.5, 0.45, 0.4, 0.35 and 0.3 while fading. (Repeated subtraction of
      0.05 in doubles leaves the last of these just below 0.3, so the source
      sounds five times.) */
  lemma TriggerSoundsSixTimes()
    ensures FadeVolumes(Full) == [Full, 10, 9, 8, 7, 6]
  {
    SilentPlateau(Full - 1);
    QuietTail(10);
    QuietTail(9);
    QuietTail(8);
    QuietTail(7);
    QuietTail(6);
    QuietTail(5);
  }

  /** The grid: cell centres, activations and tones, indexed [column][row]. */
  class Grid {
    const gridWidth: nat
    const gridHeight: nat
    const notePos: array2<Vec>
    const noteState: array2<int>
    const noteToPlay: array2<Tone>

    ghost predicate Valid()
      reads notePos, noteState, noteToPlay
    {
      && notePos.Length0 == noteState.Length0 == noteToPlay.Length0 == CellCount(gridWidth)
      && notePos.Length1 == noteState.Length1 == noteToPlay.Length1 == CellCount(gridHeight)
      && (forall i, j :: 0 <= i < notePos.Length0 && 0 <= j < notePos.Length1 ==>
            notePos[i, j] == Vec(NoteSize * i + NoteSize / 2, NoteSize * j + NoteSize / 2))
      && (forall i, j :: 0 <= i < noteToPlay.Length0 && 0 <= j < noteToPlay.Length1 ==>
            ToneFits(noteToPlay[i, j], NoteSize * i, NoteSize * j, gridWidth, gridHeight))
      && (forall i, j :: 0 <= i < noteState.Length0 && 0 <= j < noteState.Length1 ==>
            0 <= noteState[i, j] <= Full)
    }

    /** The activations as a table of columns. */
    ghost function States(): (t: seq<seq<int>>)
      reads noteState
      ensures |t| == noteState.Length0 && IsTable(t, noteState.Length1)
      ensures forall i, j :: 0 <= i < noteState.Length0 && 0 <= j < noteState.Length1 ==> t[i][j] == noteState[i, j]
    {
      seq(noteState.Length0, i requires 0 <= i < noteState.Length0 reads noteState =>
        seq(noteState.Length1, j requires 0 <= j < noteState.Length1 reads noteState => noteState[i, j]))
    }

    /** The tones as a table of columns. */
    ghost function Tones(): (t: seq<seq<Tone>>)
      reads noteToPlay
      ensures |t| == noteToPlay.Length0
      ensures forall i :: 0 <= i < |t| ==> |t[i]| == noteToPlay.Length1
      ensures forall i, j :: 0 <= i < noteToPlay.Length0 && 0 <= j < noteToPlay.Length1 ==> t[i][j] == noteToPlay[i, j]
    {
      seq(noteToPlay.Length0, i requires 0 <= i < noteToPlay.Length0 reads noteToPlay =>
        seq(noteToPlay.Length1, j requires 0 <= j < noteToPlay.Length1 reads noteToPlay => noteToPlay[i, j]))
    }

    /** Lines 4-57: one column per 40 units of width, one row per 40 units
        of height; each cell centred in its square, silent, with a tone from
        its quadrant. */
    constructor (w: nat, h: nat)
      ensures Valid() && gridWidth == w && gridHeight == h
      ensures fresh(notePos) && fresh(noteState) && fresh(noteToPlay)
      ensures forall i, j :: 0 <= i < noteState.Length0 && 0 <= j < noteState.Length1 ==> noteState[i, j] == 0
    {
      var cols, rows := CellCount(w), CellCount(h);
      var pos := new Vec[cols, rows];
      var state := new int[cols, rows];
      var notes := new Tone[cols, rows];
      var x, i := 0, 0;
      while x < w
        invariant x == NoteSize * i && i <= cols
        invariant forall a, b :: 0 <= a < i && 0 <= b < rows ==>
          pos[a, b] == Vec(NoteSize * a + NoteSize / 2, NoteSize * b + NoteSize / 2)
        invariant forall a, b :: 0 <= a < i && 0 <= b < rows ==> state[a, b] == 0
        invariant forall a, b :: 0 <= a < i && 0 <= b < rows ==> ToneFits(notes[a, b], NoteSize * a, NoteSize * b, w, h)
      {
        var y, j := 0, 0;
        while y < h
          invariant y == NoteSize * j && j <= rows
          invariant forall a, b :: (0 <= a < i && 0 <= b < rows) || (a == i && 0 <= b < j) ==>
            pos[a, b] == Vec(NoteSize * a + NoteSize / 2, NoteSize * b + NoteSize / 2)
          invariant forall a, b :: (0 <= a < i && 0 <= b < rows) || (a == i && 0 <= b < j) ==> state[a, b] == 0
          invariant forall a, b :: (0 <= a < i && 0 <= b < rows) || (a == i && 0 <= b < j) ==>
            ToneFits(notes[a, b], NoteSize * a, NoteSize * b, w, h)
        {
          pos[i, j] := Vec(x + NoteSize / 2, y + NoteSize / 2);
          state[i, j] := 0;
          var note := PickTone(x, y, w, h);
          notes[i, j] := note;
          y, j := y + NoteSize, j + 1;
        }
        x, i := x + NoteSize, i + 1;
      }
      gridWidth, gridHeight := w, h;
      notePos, noteState, noteToPlay := pos, state, notes;
    }

    /** Lines 153-170: the call playAudio(i, j) makes: the cell's own tone at
        a volume equal to its activation, starting now, sustained one second. */
    method PlayAudio(i: int, j: int) returns (pl: Play)
      requires 0 <= i < noteToPlay.Length0 && 0 <= j < noteToPlay.Length1
      requires i < noteState.Length0 && j < noteState.Length1
      ensures pl.col == i && pl.row == j
      ensures pl.note == noteToPlay[i, j] && pl.volume == noteState[i, j]
      ensures pl.delay == 0 && pl.sustain == 1
    {
      var note := noteToPlay[i, j];
      var vol := noteState[i, j];
      pl := Play(i, j, note, vol, StartDelay, Sustain);
    }

    /** Lines 133-150: every black pixel of the mask sets the activation of the
        cell it maps to to 1; all other cells keep theirs. */
    method FindActiveNotes(img: Image)
      requires Valid() && img.Valid() && gridWidth > 0 && gridHeight > 0
      modifies noteState
      ensures Valid() && Tones() == old(Tones())
      ensures States() == Retrigger(old(States()), Hits(img.pixels[..], img.width, img.height, gridWidth, gridHeight))
    {
      ghost var before := States();
      ghost var mask := img.pixels[..];
      var iw, ih := img.width, img.height;
      var x := 0;
      while x < iw
        invariant 0 <= x <= iw
        invariant forall a, b :: 0 <= a < noteState.Length0 && 0 <= b < noteState.Length1 ==>
          noteState[a, b] == if (a, b) in HitsBefore(mask, iw, ih, gridWidth, gridHeight, x, 0) then Full else before[a][b]
      {
        var y := 0;
        while y < ih
          invariant 0 <= y <= ih
          invariant forall a, b :: 0 <= a < noteState.Length0 && 0 <= b < noteState.Length1 ==>
            noteState[a, b] == if (a, b) in HitsBefore(mask, iw, ih, gridWidth, gridHeight, x, y) then Full else before[a][b]
        {
          HitsStep(mask, iw, ih, gridWidth, gridHeight, x, y);
          var index := (x + y * iw) * 4;
          var state := img.pixels[index + 0];
          if state == 0 {
            var i := CellIndex(x, iw, gridWidth);
            var j := CellIndex(y, ih, gridHeight);
            CellIndexInBounds(x, iw, gridWidth);
            CellIndexInBounds(y, ih, gridHeight);
            noteState[i, j] := Full;
          }
          y := y + 1;
        }
        forall p | 0 <= p < iw * ih
          ensures ScannedBefore(p, iw, x, ih) <==> ScannedBefore(p, iw, x + 1, 0)
        {
          ScanNextColumn(iw, ih, x, p);
        }
        HitsSameScan(mask, iw, ih, gridWidth, gridHeight, x, ih, x + 1, 0);
        x := x + 1;
      }
      HitsComplete(mask, iw, ih, gridWidth, gridHeight);
      ghost var hits := Hits(mask, iw, ih, gridWidth, gridHeight);
      forall a | 0 <= a < noteState.Length0
        ensures States()[a] == Retrigger(before, hits)[a]
      {
      }
    }

    /** The body of the loops of lines 69-130 for cell (i, j), without the
        drawing: a lit cell just triggered or inside the quiet window calls
        playAudio; then the cell decays by one step. */
    method UpdateCell(i: int, j: int) returns (played: seq<Play>)
      requires 0 <= i < noteState.Length0 && 0 <= j < noteState.Length1
      requires i < noteToPlay.Length0 && j < noteToPlay.Length1
      modifies noteState
      ensures played == PlayFor(i, j, old(noteState[i, j]), noteToPlay[i, j])
      ensures noteState[i, j] == Decay(old(noteState[i, j]))
      ensures forall a, b :: 0 <= a < noteState.Length0 && 0 <= b < noteState.Length1 && (a != i || b != j) ==>
        noteState[a, b] == old(noteState[a, b])
    {
      played := [];
      var s := noteState[i, j];
      if noteState[i, j] > 0 {
        if s == Full || (s <= WindowHigh && s >= WindowLow) {
          var pl := PlayAudio(i, j);
          played := [pl];
        }
      }
      noteState[i, j] := Constrain(noteState[i, j] - DecayStep, 0, Full);
    }

    /** The inner loop of lines 70-129 over column i, without the drawing. */
    method UpdateColumn(i: int) returns (played: seq<Play>)
      requires 0 <= i < noteState.Length0
      requires noteToPlay.Length0 == noteState.Length0 && noteToPlay.Length1 == noteState.Length1
      requires notePos.Length1 == noteState.Length1
      modifies noteState
      ensures played == ColumnPlays(i, old(States())[i], Tones()[i])
      ensures forall a, b :: 0 <= a < noteState.Length0 && 0 <= b < noteState.Length1 ==>
        noteState[a, b] == if a == i then Decay(old(noteState[a, b])) else old(noteState[a, b])
    {
      ghost var col, colNotes := States()[i], Tones()[i];
      played := [];
      var j := 0;
      while j < notePos.Length1
        invariant 0 <= j <= noteState.Length1
        invariant forall a, b :: 0 <= a < noteState.Length0 && 0 <= b < noteState.Length1 ==>
          noteState[a, b] == if a == i && b < j then Decay(old(noteState[a, b])) else old(noteState[a, b])
        invariant played == ColumnPlays(i, col[..j], colNotes[..j])
      {
        assert noteState[i, j] == col[j] && noteToPlay[i, j] == colNotes[j];
        var cell := UpdateCell(i, j);
        assert col[..j + 1][..j] == col[..j] && colNotes[..j + 1][..j] == colNotes[..j];
        played := played + cell;
        j := j + 1;
      }
      assert col[..j] == col && colNotes[..j] == colNotes;
    }

    /** Lines 65-131 without the drawing: walking the cells column by column,
        every lit cell that is just triggered or inside the quiet window calls
        playAudio, and every cell decays by one step. */
    method DrawActiveNotes() returns (plays: seq<Play>)
      requires Valid()
      modifies noteState
      ensures Valid() && Tones() == old(Tones())
      ensures States() == DecayAll(old(States()))
      ensures plays == GridPlays(old(States()), Tones())
    {
      plays := WalkCells();
    }

    /** The loops of lines 69-130 without the drawing. */
    method WalkCells() returns (plays: seq<Play>)
      requires notePos.Length0 == noteState.Length0 == noteToPlay.Length0
      requires notePos.Length1 == noteState.Length1 == noteToPlay.Length1
      modifies noteState
      ensures States() == DecayAll(old(States()))
      ensures plays == GridPlays(old(States()), Tones())
    {
      ghost var before := States();
      ghost var notes := Tones();
      plays := [];
      var i := 0;
      while i < notePos.Length0
        invariant 0 <= i <= noteState.Length0
        invariant forall a, b :: 0 <= a < noteState.Length0 && 0 <= b < noteState.Length1 ==>
          noteState[a, b] == if a < i then Decay(before[a][b]) else before[a][b]
        invariant SameShape(before[..i], notes[..i])
        invariant plays == GridPlays(before[..i], notes[..i])
      {
        assert States()[i] == before[i];
        var column := UpdateColumn(i);
        GridPlaysExtend(before, notes, i);
        plays := plays + column;
        i := i + 1;
      }
      assert before[..i] == before && notes[..i] == notes;
      DecayedTable(before, States());
    }

    /** Lines 59-63: trigger from the mask, then play and decay. */
    method Run(img: Image) returns (plays: seq<Play>)
      requires Valid() && img.Valid() && gridWidth > 0 && gridHeight > 0
      modifies noteState
      ensures Valid() && Tones() == old(Tones())
      ensures States() == DecayAll(Retrigger(old(States()), Hits(img.pixels[..], img.width, img.height, gridWidth, gridHeight)))
      ensures plays == GridPlays(Retrigger(old(States()), Hits(img.pixels[..], img.width, img.height, gridWidth, gridHeight)), Tones())
    {
      FindActiveNotes(img);
      plays := DrawActiveNotes();
    }
  }
}
