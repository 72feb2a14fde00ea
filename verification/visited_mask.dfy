/**
 The `visited` mask: one flag per pixel, set for pixels whose colour is
 resolved (opaque from the start, or already recoloured). Flags are only ever
 set, never cleared.
 */
module VisitedMask {
  import opened Grid

  predicate IsMask(mask: seq<bool>, width: nat, height: nat)
  {
    |mask| == width * height
  }

  /** (x, y) is inside the image and its flag is set. */
  predicate Marked(mask: seq<bool>, width: nat, height: nat, x: int, y: int)
    requires IsMask(mask, width, height)
  {
    InBounds(width, height, x, y) && mask[CellIndex(width, height, x, y)]
  }

  /** `visited[y * width + x] = v`: sets the flag of (x, y) and no other. */
  function SetFlag(mask: seq<bool>, width: nat, height: nat, x: int, y: int, v: bool): (m: seq<bool>)
    requires IsMask(mask, width, height) && InBounds(width, height, x, y)
    ensures IsMask(m, width, height)
    ensures Marked(m, width, height, x, y) == v
    ensures forall x', y' :: (x' != x || y' != y) ==> Marked(m, width, height, x', y') == Marked(mask, width, height, x', y')
  {
    SetFlagFrame(mask, width, height, x, y, v);
    mask[CellIndex(width, height, x, y) := v]
  }

  lemma SetFlagFrame(mask: seq<bool>, width: nat, height: nat, x: int, y: int, v: bool)
    requires IsMask(mask, width, height) && InBounds(width, height, x, y)
    ensures forall x', y' :: (x' != x || y' != y) ==>
              Marked(mask[CellIndex(width, height, x, y) := v], width, height, x', y') == Marked(mask, width, height, x', y')
  {
    forall x', y' | (x' != x || y' != y) && InBounds(width, height, x', y')
      ensures CellIndex(width, height, x', y') != CellIndex(width, height, x, y)
    {
      CellIndexInjective(width, height, x, y, x', y');
    }
  }

  /** Writing the value a flag already has changes nothing. */
  lemma SetFlagSame(mask: seq<bool>, width: nat, height: nat, x: int, y: int, v: bool)
    requires IsMask(mask, width, height) && InBounds(width, height, x, y) && Marked(mask, width, height, x, y) == v
    ensures SetFlag(mask, width, height, x, y, v) == mask
  {
  }

  /** Masks are equal when they mark the same pixels. */
  lemma MarkedExtensional(m1: seq<bool>, m2: seq<bool>, width: nat, height: nat)
    requires IsMask(m1, width, height) && IsMask(m2, width, height)
    requires forall x, y :: InBounds(width, height, x, y) ==> Marked(m1, width, height, x, y) == Marked(m2, width, height, x, y)
    ensures m1 == m2
  {
    forall i | 0 <= i < |m1|
      ensures m1[i] == m2[i]
    {
      var x, y := CellIndexOnto(width, height, i);
      assert Marked(m1, width, height, x, y) == Marked(m2, width, height, x, y);
    }
  }

  /** Every flag set in `m1` is set in `m2`. */
  predicate Submask(m1: seq<bool>, m2: seq<bool>)
  {
    |m1| == |m2| && forall i :: 0 <= i < |m1| && m1[i] ==> m2[i]
  }

  /** Setting a flag never clears another: the mask only grows. */
  lemma SetFlagGrows(mask: seq<bool>, width: nat, height: nat, x: int, y: int)
    requires IsMask(mask, width, height) && InBounds(width, height, x, y)
    ensures Submask(mask, SetFlag(mask, width, height, x, y, true))
  {
  }

  /** The mask as the seeding loop leaves it: a pixel is resolved iff its alpha exceeds the threshold. */
  function InitialMask(data: seq<Byte>, width: nat, height: nat, threshold: int): (mask: seq<bool>)
    requires IsImage(data, width, height)
    ensures IsMask(mask, width, height)
    ensures forall x, y :: InBounds(width, height, x, y) ==>
              (Marked(mask, width, height, x, y) <==> GetCol(data, width, height, x, y).a > threshold)
  {
    seq(width * height, i requires 0 <= i < width * height => data[4 * i + 3] > threshold)
  }

  /** Number of set flags. */
  function CountTrue(s: seq<bool>): (n: nat)
    ensures n <= |s|
  {
    if |s| == 0 then 0 else CountTrue(s[..|s| - 1]) + (if s[|s| - 1] then 1 else 0)
  }

  /** A mask with no flag set counts zero. */
  lemma {:induction false} CountTrueNone(s: seq<bool>)
    requires forall i :: 0 <= i < |s| ==> !s[i]
    ensures CountTrue(s) == 0
    decreases |s|
  {
    if |s| > 0 {
      CountTrueNone(s[..|s| - 1]);
    }
  }

  /** Setting the clear flag of an in-bounds pixel raises the count by exactly one. */
  lemma CountSetFlag(mask: seq<bool>, width: nat, height: nat, x: int, y: int)
    requires IsMask(mask, width, height) && InBounds(width, height, x, y) && !Marked(mask, width, height, x, y)
    ensures CountTrue(SetFlag(mask, width, height, x, y, true)) == CountTrue(mask) + 1
  {
    CountTrueSet(mask, CellIndex(width, height, x, y));
  }

  /** Setting a clear flag raises the count by exactly one. */
  lemma {:induction false} CountTrueSet(s: seq<bool>, i: nat)
    requires i < |s| && !s[i]
    ensures CountTrue(s[i := true]) == CountTrue(s) + 1
    decreases |s|
  {
    var s' := s[i := true];
    if i == |s| - 1 {
      assert s'[..|s'| - 1] == s[..|s| - 1];
    } else {
      assert s'[..|s'| - 1] == s[..|s| - 1][i := true];
      CountTrueSet(s[..|s| - 1], i);
    }
  }

  predicate AllInBounds(width: nat, height: nat, cells: seq<(int, int)>)
  {
    forall k :: 0 <= k < |cells| ==> InBounds(width, height, cells[k].0, cells[k].1)
  }

  /** `mask0` after marking each pixel of `cells` in turn. */
  function MaskAfter(mask0: seq<bool>, width: nat, height: nat, cells: seq<(int, int)>): (mask: seq<bool>)
    requires IsMask(mask0, width, height) && AllInBounds(width, height, cells)
    ensures IsMask(mask, width, height)
    decreases |cells|
  {
    if |cells| == 0 then mask0
    else
      var last := cells[|cells| - 1];
      SetFlag(MaskAfter(mask0, width, height, cells[..|cells| - 1]), width, height, last.0, last.1, true)
  }

  /** A pixel is marked after `cells` iff it was marked before or is one of `cells`. */
  lemma {:induction false} MaskAfterSpec(mask0: seq<bool>, width: nat, height: nat, cells: seq<(int, int)>, x: int, y: int)
    requires IsMask(mask0, width, height) && AllInBounds(width, height, cells)
    ensures Marked(MaskAfter(mask0, width, height, cells), width, height, x, y)
            <==> Marked(mask0, width, height, x, y) || (InBounds(width, height, x, y) && (x, y) in cells)
    decreases |cells|
  {
    if |cells| > 0 {
      var last := cells[|cells| - 1];
      var init := cells[..|cells| - 1];
      MaskAfterSpec(mask0, width, height, init, x, y);
      assert cells == init + [last];
    }
  }

  /** Marking a prefix of `cells` marks no more than marking all of them. */
  lemma MaskAfterPrefix(mask0: seq<bool>, width: nat, height: nat, cells: seq<(int, int)>, k: nat)
    requires IsMask(mask0, width, height) && AllInBounds(width, height, cells) && k <= |cells|
    ensures Submask(MaskAfter(mask0, width, height, cells[..k]), MaskAfter(mask0, width, height, cells))
  {
    var m1 := MaskAfter(mask0, width, height, cells[..k]);
    var m2 := MaskAfter(mask0, width, height, cells);
    forall i | 0 <= i < |m1| && m1[i]
      ensures m2[i]
    {
      var x, y := CellIndexOnto(width, height, i);
      MaskAfterSpec(mask0, width, height, cells[..k], x, y);
      MaskAfterSpec(mask0, width, height, cells, x, y);
    }
  }

  /** (x, y) is outside the image or marked. */
  predicate MarkedOrOutside(mask: seq<bool>, width: nat, height: nat, x: int, y: int)
    requires IsMask(mask, width, height)
  {
    !InBounds(width, height, x, y) || Marked(mask, width, height, x, y)
  }

  predicate NeighboursMarked(mask: seq<bool>, width: nat, height: nat, x: int, y: int)
    requires IsMask(mask, width, height)
  {
    && MarkedOrOutside(mask, width, height, x + 1, y)
    && MarkedOrOutside(mask, width, height, x - 1, y)
    && MarkedOrOutside(mask, width, height, x, y + 1)
    && MarkedOrOutside(mask, width, height, x, y - 1)
  }

  /** If (x, y) is marked, so are its in-bounds neighbours. */
  predicate ClosedAt(mask: seq<bool>, width: nat, height: nat, x: int, y: int)
    requires IsMask(mask, width, height)
  {
    Marked(mask, width, height, x, y) ==> NeighboursMarked(mask, width, height, x, y)
  }

  /** No marked pixel has an unmarked in-bounds neighbour. */
  ghost predicate Closed(mask: seq<bool>, width: nat, height: nat)
    requires IsMask(mask, width, height)
  {
    forall x, y :: ClosedAt(mask, width, height, x, y)
  }

  lemma {:induction false} SpreadAlongRow(mask: seq<bool>, width: nat, height: nat, x0: int, y: int, x: int)
    requires IsMask(mask, width, height) && Closed(mask, width, height)
    requires Marked(mask, width, height, x0, y) && 0 <= x < width
    ensures Marked(mask, width, height, x, y)
    decreases if x < x0 then x0 - x else x - x0
  {
    if x > x0 {
      SpreadAlongRow(mask, width, height, x0, y, x - 1);
      assert ClosedAt(mask, width, height, x - 1, y);
    } else if x < x0 {
      SpreadAlongRow(mask, width, height, x0, y, x + 1);
      assert ClosedAt(mask, width, height, x + 1, y);
    }
  }

  lemma {:induction false} SpreadAlongColumn(mask: seq<bool>, width: nat, height: nat, x: int, y0: int, y: int)
    requires IsMask(mask, width, height) && Closed(mask, width, height)
    requires Marked(mask, width, height, x, y0) && 0 <= y < height
    ensures Marked(mask, width, height, x, y)
    decreases if y < y0 then y0 - y else y - y0
  {
    if y > y0 {
      SpreadAlongColumn(mask, width, height, x, y0, y - 1);
      assert ClosedAt(mask, width, height, x, y - 1);
    } else if y < y0 {
      SpreadAlongColumn(mask, width, height, x, y0, y + 1);
      assert ClosedAt(mask, width, height, x, y + 1);
    }
  }

  /** The grid is connected: a closed mask with one marked pixel marks every pixel. */
  lemma ClosedMaskIsFull(mask: seq<bool>, width: nat, height: nat, x0: int, y0: int)
    requires IsMask(mask, width, height) && Closed(mask, width, height)
    requires Marked(mask, width, height, x0, y0)
    ensures forall x, y :: InBounds(width, height, x, y) ==> Marked(mask, width, height, x, y)
  {
    forall x, y | InBounds(width, height, x, y)
      ensures Marked(mask, width, height, x, y)
    {
      SpreadAlongRow(mask, width, height, x0, y0, x);
      SpreadAlongColumn(mask, width, height, x, y0, y);
    }
  }
}
