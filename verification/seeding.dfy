/**
 The seeding loop of the recolouring pass in `process_file`: a row-major
 scan that marks every pixel whose alpha exceeds the threshold as resolved
 and pushes its four neighbours onto the frontier queue.
 */
module Seeding {
  import opened Grid
  import opened VisitedMask
  import opened NeighbourAverage
  import opened FrontierQueue
  import opened Frontier

  /** The opaque pixels of row `y` left of column `x`, left to right. */
  function OpaqueRow(data: seq<Byte>, width: nat, height: nat, threshold: int, y: int, x: nat): (cells: seq<(int, int)>)
    requires IsImage(data, width, height) && 0 <= y < height && x <= width
    ensures AllInBounds(width, height, cells)
    decreases x
  {
    if x == 0 then []
    else
      OpaqueRow(data, width, height, threshold, y, x - 1)
        + (if GetCol(data, width, height, x - 1, y).a > threshold then [(x - 1, y)] else [])
  }

  /** The opaque pixels of the rows above `y`, in row-major order. */
  function OpaqueRows(data: seq<Byte>, width: nat, height: nat, threshold: int, y: nat): (cells: seq<(int, int)>)
    requires IsImage(data, width, height) && y <= height
    ensures AllInBounds(width, height, cells)
    decreases y
  {
    if y == 0 then [] else OpaqueRows(data, width, height, threshold, y - 1) + OpaqueRow(data, width, height, threshold, y - 1, width)
  }

  /** The opaque pixels of the image, in the order the seeding loop meets them. */
  function OpaqueCells(data: seq<Byte>, width: nat, height: nat, threshold: int): (cells: seq<(int, int)>)
    requires IsImage(data, width, height)
    ensures AllInBounds(width, height, cells)
  {
    OpaqueRows(data, width, height, threshold, height)
  }

  /**
   `cells` lists, in strictly increasing scan order, exactly the in-bounds
   pixels scanned before (x, y) whose alpha exceeds the threshold.
   */
  ghost predicate EnumeratesOpaque(data: seq<Byte>, width: nat, height: nat, threshold: int, x: int, y: int, cells: seq<(int, int)>)
    requires IsImage(data, width, height)
  {
    && (forall k :: 0 <= k < |cells| ==>
          && InBounds(width, height, cells[k].0, cells[k].1)
          && Before(cells[k].0, cells[k].1, x, y)
          && GetCol(data, width, height, cells[k].0, cells[k].1).a > threshold)
    && (forall x', y' :: (InBounds(width, height, x', y') && Before(x', y', x, y)
          && GetCol(data, width, height, x', y').a > threshold) ==> (x', y') in cells)
    && (forall k, l :: 0 <= k < l < |cells| ==> Before(cells[k].0, cells[k].1, cells[l].0, cells[l].1))
  }

  lemma {:induction false} OpaqueRowsSpec(data: seq<Byte>, width: nat, height: nat, threshold: int, y: nat)
    requires IsImage(data, width, height) && y <= height
    ensures EnumeratesOpaque(data, width, height, threshold, 0, y, OpaqueRows(data, width, height, threshold, y))
    decreases y, 0, 0
  {
    if y > 0 {
      OpaqueRowSpec(data, width, height, threshold, y - 1, width);
      RowsStep(data, width, height, threshold, y);
    }
  }

  /** Finishing row `y - 1` is starting row `y`. */
  lemma RowsStep(data: seq<Byte>, width: nat, height: nat, threshold: int, y: nat)
    requires IsImage(data, width, height) && 0 < y <= height
    requires EnumeratesOpaque(data, width, height, threshold, width, y - 1,
               OpaqueRows(data, width, height, threshold, y - 1) + OpaqueRow(data, width, height, threshold, y - 1, width))
    ensures EnumeratesOpaque(data, width, height, threshold, 0, y, OpaqueRows(data, width, height, threshold, y))
  {
    var cells := OpaqueRows(data, width, height, threshold, y - 1) + OpaqueRow(data, width, height, threshold, y - 1, width);
    EnumeratesNextRow(data, width, height, threshold, y - 1, cells);
    assert OpaqueRows(data, width, height, threshold, y) == cells;
  }

  lemma {:induction false} OpaqueRowSpec(data: seq<Byte>, width: nat, height: nat, threshold: int, y: nat, x: nat)
    requires IsImage(data, width, height) && y < height && x <= width
    ensures EnumeratesOpaque(data, width, height, threshold, x, y,
              OpaqueRows(data, width, height, threshold, y) + OpaqueRow(data, width, height, threshold, y, x))
    decreases y, 2, x
  {
    if x == 0 {
      OpaqueRowStart(data, width, height, threshold, y);
    } else {
      OpaqueRowSpec(data, width, height, threshold, y, x - 1);
      OpaqueRowStep(data, width, height, threshold, y, x);
    }
  }

  lemma {:induction false} OpaqueRowStart(data: seq<Byte>, width: nat, height: nat, threshold: int, y: nat)
    requires IsImage(data, width, height) && y < height
    ensures EnumeratesOpaque(data, width, height, threshold, 0, y,
              OpaqueRows(data, width, height, threshold, y) + OpaqueRow(data, width, height, threshold, y, 0))
    decreases y, 1, 0
  {
    OpaqueRowsSpec(data, width, height, threshold, y);
    assert OpaqueRows(data, width, height, threshold, y) + OpaqueRow(data, width, height, threshold, y, 0)
        == OpaqueRows(data, width, height, threshold, y);
  }

  lemma OpaqueRowStep(data: seq<Byte>, width: nat, height: nat, threshold: int, y: nat, x: nat)
    requires IsImage(data, width, height) && y < height && 0 < x <= width
    requires EnumeratesOpaque(data, width, height, threshold, x - 1, y,
               OpaqueRows(data, width, height, threshold, y) + OpaqueRow(data, width, height, threshold, y, x - 1))
    ensures EnumeratesOpaque(data, width, height, threshold, x, y,
              OpaqueRows(data, width, height, threshold, y) + OpaqueRow(data, width, height, threshold, y, x))
  {
    var rows := OpaqueRows(data, width, height, threshold, y);
    var prev := rows + OpaqueRow(data, width, height, threshold, y, x - 1);
    var cells := rows + OpaqueRow(data, width, height, threshold, y, x);
    ScanStep(data, width, height, threshold, y, x);
    if GetCol(data, width, height, x - 1, y).a > threshold {
      assert cells == prev + [(x - 1, y)];
      EnumeratesTake(data, width, height, threshold, x, y, prev, cells);
    } else {
      assert cells == prev;
      EnumeratesSkip(data, width, height, threshold, x, y, prev);
    }
  }

  /** Scanning one more pixel of row `y` appends it exactly when it is opaque. */
  lemma ScanStep(data: seq<Byte>, width: nat, height: nat, threshold: int, y: nat, x: nat)
    requires IsImage(data, width, height) && y < height && 0 < x <= width
    ensures var rows := OpaqueRows(data, width, height, threshold, y);
      rows + OpaqueRow(data, width, height, threshold, y, x)
      == rows + OpaqueRow(data, width, height, threshold, y, x - 1)
         + (if GetCol(data, width, height, x - 1, y).a > threshold then [(x - 1, y)] else [])
  {
  }

  /** Scanning past a pixel that is not opaque, (x - 1, y), leaves the enumeration as it is. */
  lemma EnumeratesSkip(data: seq<Byte>, width: nat, height: nat, threshold: int, x: int, y: int, cells: seq<(int, int)>)
    requires IsImage(data, width, height) && InBounds(width, height, x - 1, y)
    requires EnumeratesOpaque(data, width, height, threshold, x - 1, y, cells)
    requires GetCol(data, width, height, x - 1, y).a <= threshold
    ensures EnumeratesOpaque(data, width, height, threshold, x, y, cells)
  {
    forall x', y' | InBounds(width, height, x', y') && Before(x', y', x, y) && GetCol(data, width, height, x', y').a > threshold
      ensures (x', y') in cells
    {
      assert Before(x', y', x - 1, y);
    }
  }

  /** Scanning past an opaque pixel, (x - 1, y), appends it. */
  lemma EnumeratesTake(data: seq<Byte>, width: nat, height: nat, threshold: int, x: int, y: int, cells: seq<(int, int)>, cells': seq<(int, int)>)
    requires IsImage(data, width, height) && InBounds(width, height, x - 1, y)
    requires EnumeratesOpaque(data, width, height, threshold, x - 1, y, cells)
    requires GetCol(data, width, height, x - 1, y).a > threshold
    requires cells' == cells + [(x - 1, y)]
    ensures EnumeratesOpaque(data, width, height, threshold, x, y, cells')
  {
    forall k | 0 <= k < |cells'|
      ensures && InBounds(width, height, cells'[k].0, cells'[k].1)
              && Before(cells'[k].0, cells'[k].1, x, y)
              && GetCol(data, width, height, cells'[k].0, cells'[k].1).a > threshold
    {
      if k < |cells| {
        assert cells'[k] == cells[k];
      }
    }
    forall x', y' | InBounds(width, height, x', y') && Before(x', y', x, y) && GetCol(data, width, height, x', y').a > threshold
      ensures (x', y') in cells'
    {
      if x' != x - 1 || y' != y {
        assert Before(x', y', x - 1, y);
        assert (x', y') in cells;
      } else {
        assert cells'[|cells|] == (x', y');
      }
    }
    forall k, l | 0 <= k < l < |cells'|
      ensures Before(cells'[k].0, cells'[k].1, cells'[l].0, cells'[l].1)
    {
      assert cells'[k] == cells[k];
    }
  }

  /** Scanning past the end of row `y` is starting row `y + 1`. */
  lemma EnumeratesNextRow(data: seq<Byte>, width: nat, height: nat, threshold: int, y: int, cells: seq<(int, int)>)
    requires IsImage(data, width, height)
    requires EnumeratesOpaque(data, width, height, threshold, width, y, cells)
    ensures EnumeratesOpaque(data, width, height, threshold, 0, y + 1, cells)
  {
    forall k | 0 <= k < |cells|
      ensures Before(cells[k].0, cells[k].1, 0, y + 1)
    {
      assert Before(cells[k].0, cells[k].1, width, y);
    }
    forall x', y' | InBounds(width, height, x', y') && Before(x', y', 0, y + 1) && GetCol(data, width, height, x', y').a > threshold
      ensures (x', y') in cells
    {
      assert Before(x', y', width, y);
    }
  }

  /** `OpaqueCells` lists exactly the opaque pixels, in strictly increasing row-major order. */
  lemma OpaqueCellsSpec(data: seq<Byte>, width: nat, height: nat, threshold: int)
    requires IsImage(data, width, height)
    ensures EnumeratesOpaque(data, width, height, threshold, 0, height, OpaqueCells(data, width, height, threshold))
  {
    OpaqueRowsSpec(data, width, height, threshold, height);
  }

  /** The pushes of the seeding loop: the four neighbours of each cell of `cells`, in order. */
  function Seeds(cells: seq<(int, int)>): (s: seq<(int, int)>)
    ensures |s| == 4 * |cells|
    ensures forall k :: 0 <= k < |cells| ==> SeedsAt(s, 4 * k, cells[k])
    decreases |cells|
  {
    if |cells| == 0 then []
    else
      var last := cells[|cells| - 1];
      var prev := Seeds(cells[..|cells| - 1]);
      var s := prev + Neighbours(last.0, last.1);
      assert forall k :: 0 <= k < |cells| - 1 ==> SeedsAt(prev, 4 * k, cells[k]) && 4 * k + 3 < |prev|;
      s
  }

  /** Entries i..i+3 of `s` are the four neighbours of `c`, in visiting order. */
  predicate SeedsAt(s: seq<(int, int)>, i: int, c: (int, int))
  {
    0 <= i && i + 4 <= |s| && s[i..i + 4] == Neighbours(c.0, c.1)
  }

  /** Each seed is a neighbour of a resolved pixel, so it has one itself. */
  lemma SeedsHaveMarkedNeighbour(mask: seq<bool>, width: nat, height: nat, cells: seq<(int, int)>)
    requires IsMask(mask, width, height) && AllInBounds(width, height, cells)
    requires forall k :: 0 <= k < |cells| ==> Marked(mask, width, height, cells[k].0, cells[k].1)
    ensures SeededFrom(mask, width, height, Seeds(cells))
  {
    var s := Seeds(cells);
    forall k | 0 <= k < |s| && InBounds(width, height, s[k].0, s[k].1)
      ensures HasMarkedNeighbour(mask, width, height, s[k].0, s[k].1)
    {
      var j, r := SeedEntry(cells, k);
      NeighbourOfMarked(mask, width, height, cells[j].0, cells[j].1, r);
    }
  }

  /** Seed entry `k` is neighbour `k % 4` of cell `k / 4`. */
  lemma SeedEntry(cells: seq<(int, int)>, k: int) returns (j: int, r: int)
    requires 0 <= k < |Seeds(cells)|
    ensures 0 <= j < |cells| && 0 <= r < 4
    ensures Seeds(cells)[k] == Neighbours(cells[j].0, cells[j].1)[r]
  {
    var s := Seeds(cells);
    j, r := k / 4, k % 4;
    assert SeedsAt(s, 4 * j, cells[j]);
    assert s[k] == s[4 * j..4 * j + 4][r];
  }

  /** The seeds include all four neighbours of every listed pixel. */
  lemma SeedsCoverNeighbours(mask: seq<bool>, width: nat, height: nat, cells: seq<(int, int)>)
    requires IsMask(mask, width, height) && AllInBounds(width, height, cells)
    requires forall x, y :: Marked(mask, width, height, x, y) ==> (x, y) in cells
    ensures FrontierCovers(mask, width, height, Seeds(cells))
  {
    var s := Seeds(cells);
    forall x, y
      ensures CoveredAround(mask, width, height, s, x, y)
    {
      if Marked(mask, width, height, x, y) {
        var k :| 0 <= k < |cells| && cells[k] == (x, y);
        assert SeedsAt(s, 4 * k, (x, y));
        var ns := s[4 * k..4 * k + 4];
        assert ns[0] in s && ns[1] in s && ns[2] in s && ns[3] in s;
      }
    }
  }

  /** Seeding one more pixel appends its four neighbours. */
  lemma SeedsSnoc(cells: seq<(int, int)>, c: (int, int))
    ensures Seeds(cells + [c]) == Seeds(cells) + Neighbours(c.0, c.1)
  {
    assert (cells + [c])[..|cells|] == cells;
  }

  /** The resolved pixels of `mask` are exactly the opaque pixels scanned before (x, y). */
  ghost predicate MaskScanned(data: seq<Byte>, width: nat, height: nat, threshold: int, mask: seq<bool>, x: int, y: int)
    requires IsImage(data, width, height) && IsMask(mask, width, height)
  {
    forall x', y' :: InBounds(width, height, x', y') ==>
      Marked(mask, width, height, x', y') == (Before(x', y', x, y) && GetCol(data, width, height, x', y').a > threshold)
  }

  /** The seeds after scanning one more pixel: four more exactly when it is opaque. */
  lemma SeedScanStep(data: seq<Byte>, width: nat, height: nat, threshold: int, y: nat, x: nat)
    requires IsImage(data, width, height) && y < height && x < width
    ensures var rows := OpaqueRows(data, width, height, threshold, y);
      Seeds(rows + OpaqueRow(data, width, height, threshold, y, x + 1))
      == Seeds(rows + OpaqueRow(data, width, height, threshold, y, x))
         + (if GetCol(data, width, height, x, y).a > threshold then Neighbours(x, y) else [])
  {
    var scanned := OpaqueRows(data, width, height, threshold, y) + OpaqueRow(data, width, height, threshold, y, x);
    ScanStep(data, width, height, threshold, y, x + 1);
    if GetCol(data, width, height, x, y).a > threshold {
      SeedsSnoc(scanned, (x, y));
    } else {
      assert scanned + [] == scanned;
    }
  }

  /** Pushes x+1, x-1, y+1, y-1 in that order (main.c lines 127-130). */
  method PushNeighbours(q: Queue, x: int, y: int) returns (r: Queue)
    requires Valid(q)
    ensures Valid(r) && r.offset == q.offset && r.length == q.length + 8
    ensures Contents(r) == Contents(q) + Neighbours(x, y)
  {
    r := Push(q, x + 1, y);
    r := Push(r, x - 1, y);
    r := Push(r, x, y + 1);
    r := Push(r, x, y - 1);
  }

  /** Having scanned all of row `y` is having scanned up to the start of row `y + 1`. */
  lemma MaskScannedNextRow(data: seq<Byte>, width: nat, height: nat, threshold: int, mask: seq<bool>, y: int)
    requires IsImage(data, width, height) && IsMask(mask, width, height)
    ensures MaskScanned(data, width, height, threshold, mask, 0, y + 1) <==> MaskScanned(data, width, height, threshold, mask, width, y)
  {
    assert forall x', y' :: InBounds(width, height, x', y') ==> (Before(x', y', 0, y + 1) <==> Before(x', y', width, y));
  }

  /** One row of the seeding loop (main.c lines 121-132). */
  method SeedRow(data: seq<Byte>, width: nat, height: nat, threshold: int, y: nat, mask0: seq<bool>, q0: Queue)
    returns (mask: seq<bool>, q: Queue)
    requires IsImage(data, width, height) && y < height
    requires IsMask(mask0, width, height) && Valid(q0) && q0.offset == 0
    requires MaskScanned(data, width, height, threshold, mask0, 0, y)
    requires Contents(q0) == Seeds(OpaqueRows(data, width, height, threshold, y))
    requires q0.length == 8 * CountTrue(mask0)
    ensures IsMask(mask, width, height) && Valid(q) && q.offset == 0
    ensures MaskScanned(data, width, height, threshold, mask, 0, y + 1)
    ensures Contents(q) == Seeds(OpaqueRows(data, width, height, threshold, y + 1))
    ensures q.length == 8 * CountTrue(mask)
  {
    ghost var rows := OpaqueRows(data, width, height, threshold, y);
    mask, q := mask0, q0;
    var x := 0;
    assert rows + OpaqueRow(data, width, height, threshold, y, 0) == rows;
    while x < width
      invariant 0 <= x <= width
      invariant IsMask(mask, width, height) && Valid(q) && q.offset == 0
      invariant MaskScanned(data, width, height, threshold, mask, x, y)
      invariant Contents(q) == Seeds(rows + OpaqueRow(data, width, height, threshold, y, x))
      invariant q.length == 8 * CountTrue(mask)
    {
      SeedScanStep(data, width, height, threshold, y, x);
      mask, q := SeedPixel(data, width, height, threshold, x, y, mask, q);
      x := x + 1;
    }
    MaskScannedNextRow(data, width, height, threshold, mask, y);
  }

  /**
   The body of the seeding loop (main.c lines 122-131): records whether
   (x, y) is opaque and, if so, pushes its four neighbours.
   */
  method SeedPixel(data: seq<Byte>, width: nat, height: nat, threshold: int, x: int, y: int, mask0: seq<bool>, q0: Queue)
    returns (mask: seq<bool>, q: Queue)
    requires IsImage(data, width, height) && InBounds(width, height, x, y)
    requires IsMask(mask0, width, height) && Valid(q0)
    requires MaskScanned(data, width, height, threshold, mask0, x, y)
    requires q0.length - q0.offset == 8 * CountTrue(mask0)
    ensures IsMask(mask, width, height) && Valid(q) && q.offset == q0.offset
    ensures MaskScanned(data, width, height, threshold, mask, x + 1, y)
    ensures Contents(q) == Contents(q0) + (if GetCol(data, width, height, x, y).a > threshold then Neighbours(x, y) else [])
    ensures q.length - q.offset == 8 * CountTrue(mask)
  {
    MaskScannedStep(data, width, height, threshold, mask0, x, y);
    var col := GetCol(data, width, height, x, y);
    if col.a <= threshold {
      SetFlagSame(mask0, width, height, x, y, false);
      mask := SetFlag(mask0, width, height, x, y, false);
      q := q0;
    } else {
      CountSetFlag(mask0, width, height, x, y);
      mask := SetFlag(mask0, width, height, x, y, true);
      q := PushNeighbours(q0, x, y);
    }
  }

  /** Recording pixel (x, y) of the scan extends `MaskScanned` past it. */
  lemma MaskScannedStep(data: seq<Byte>, width: nat, height: nat, threshold: int, mask: seq<bool>, x: int, y: int)
    requires IsImage(data, width, height) && IsMask(mask, width, height) && InBounds(width, height, x, y)
    requires MaskScanned(data, width, height, threshold, mask, x, y)
    ensures !Marked(mask, width, height, x, y)
    ensures MaskScanned(data, width, height, threshold,
              SetFlag(mask, width, height, x, y, GetCol(data, width, height, x, y).a > threshold), x + 1, y)
  {
  }

  /**
   The seeding loop (main.c lines 120-133): builds the initial mask and pushes
   x+1, x-1, y+1, y-1 for every opaque pixel, in row-major order, so the
   queue holds four entries per opaque pixel.
   */
  method Seed(data: seq<Byte>, width: nat, height: nat, threshold: int) returns (mask: seq<bool>, q: Queue)
    requires IsImage(data, width, height)
    ensures mask == InitialMask(data, width, height, threshold)
    ensures Valid(q) && q.offset == 0
    ensures Contents(q) == Seeds(OpaqueCells(data, width, height, threshold))
    ensures q.length == 8 * CountTrue(mask)
  {
    mask := seq(width * height, _ => false);
    CountTrueNone(mask);
    q := Init();
    var y := 0;
    while y < height
      invariant 0 <= y <= height
      invariant IsMask(mask, width, height) && Valid(q) && q.offset == 0
      invariant MaskScanned(data, width, height, threshold, mask, 0, y)
      invariant Contents(q) == Seeds(OpaqueRows(data, width, height, threshold, y))
      invariant q.length == 8 * CountTrue(mask)
    {
      mask, q := SeedRow(data, width, height, threshold, y, mask, q);
      y := y + 1;
    }
    MarkedExtensional(mask, InitialMask(data, width, height, threshold), width, height);
  }
}
