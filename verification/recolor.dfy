/**
 The draining loop of the recolouring pass in `process_file`: pop a
 coordinate, skip it when it is outside the image or already resolved,
 otherwise resolve it, gather its resolved neighbours through four
 `process_pixel` calls (which also push the unresolved ones) and write the
 truncated mean colour with alpha 0.
 */
module Recolor {
  import opened Grid
  import opened VisitedMask
  import opened NeighbourAverage
  import opened FrontierQueue
  import opened Frontier
  import opened Seeding

  /**
   `process_pixel` (main.c lines 86-102): ignores (x, y) outside the image,
   adds its colour to the sums when it is resolved, and pushes it otherwise.
   */
  method ProcessPixel(x: int, y: int, width: nat, height: nat, data: seq<Byte>, mask: seq<bool>, q: Queue, acc: Totals)
    returns (q': Queue, acc': Totals)
    requires IsImage(data, width, height) && IsMask(mask, width, height) && Valid(q)
    ensures Valid(q') && q'.offset == q.offset && q'.length <= q.length + 2
    ensures acc' == Plus(acc, Contribution(data, width, height, mask, x, y))
    ensures Contents(q') == Contents(q) + Pending(mask, width, height, x, y)
  {
    q', acc' := q, acc;
    if x < 0 || x >= width || y < 0 || y >= height {
      return;
    }
    if mask[CellIndex(width, height, x, y)] {
      var col := GetCol(data, width, height, x, y);
      acc' := Totals(acc.r + col.r, acc.g + col.g, acc.b + col.b, acc.n + 1);
    } else {
      q' := Push(q, x, y);
    }
  }

  lemma AppendPendingNeighbours(s: seq<(int, int)>, mask: seq<bool>, width: nat, height: nat, x: int, y: int)
    requires IsMask(mask, width, height)
    ensures s + Pending(mask, width, height, x + 1, y) + Pending(mask, width, height, x - 1, y)
              + Pending(mask, width, height, x, y + 1) + Pending(mask, width, height, x, y - 1)
            == s + PendingNeighbours(mask, width, height, x, y)
  {
  }

  /**
   One iteration of the draining loop for an unresolved in-bounds pixel
   (main.c lines 143-161): resolve it, visit x+1, x-1, y+1, y-1 and write the
   mean of the resolved ones with alpha 0. A resolved neighbour is required:
   it is what makes the divisor `num_cols` non-zero.
   */
  method Visit(x: int, y: int, width: nat, height: nat, data: seq<Byte>, mask: seq<bool>, q: Queue)
    returns (data': seq<Byte>, mask': seq<bool>, q': Queue)
    requires IsImage(data, width, height) && IsMask(mask, width, height) && Valid(q)
    requires InBounds(width, height, x, y) && !Marked(mask, width, height, x, y)
    requires HasMarkedNeighbour(mask, width, height, x, y)
    ensures mask' == SetFlag(mask, width, height, x, y, true)
    ensures data' == SetCol(data, width, height, x, y, Average(data, width, height, mask, x, y))
    ensures Valid(q') && q'.offset == q.offset && q'.length <= q.length + 8
    ensures Contents(q') == Contents(q) + PendingNeighbours(mask', width, height, x, y)
  {
    mask' := SetFlag(mask, width, height, x, y, true);
    var acc := Totals(0, 0, 0, 0);
    q' := q;
    q', acc := ProcessPixel(x + 1, y, width, height, data, mask', q', acc);
    q', acc := ProcessPixel(x - 1, y, width, height, data, mask', q', acc);
    q', acc := ProcessPixel(x, y + 1, width, height, data, mask', q', acc);
    q', acc := ProcessPixel(x, y - 1, width, height, data, mask', q', acc);
    assert acc == NeighbourTotals(data, width, height, mask', x, y);
    AppendPendingNeighbours(Contents(q), mask', width, height, x, y);
    TotalsMaskFrame(data, width, height, mask, mask', x, y);
    var col := Col(Mean(acc.r, acc.n), Mean(acc.g, acc.n), Mean(acc.b, acc.n), 0);
    data' := SetCol(data, width, height, x, y, col);
  }

  /** Pixel `order[k]` holds the mean of the neighbours that were resolved when it was popped. */
  predicate RecolouredAt(cur: seq<Byte>, width: nat, height: nat, mask0: seq<bool>, order: seq<(int, int)>, k: int)
    requires IsImage(cur, width, height) && IsMask(mask0, width, height) && AllInBounds(width, height, order)
    requires 0 <= k < |order|
  {
    Recoloured(cur, width, height, MaskAfter(mask0, width, height, order[..k]), order[k].0, order[k].1)
  }

  /**
   What the draining loop has done so far, starting from `data` with resolved
   pixels `mask0`: it processed the pixels `order`, each unresolved at the
   start and processed once, recoloured each from the neighbours resolved
   before it, and left every other pixel alone.
   */
  ghost predicate History(data: seq<Byte>, cur: seq<Byte>, width: nat, height: nat, mask0: seq<bool>, order: seq<(int, int)>)
    requires IsImage(data, width, height) && IsImage(cur, width, height)
    requires IsMask(mask0, width, height) && AllInBounds(width, height, order)
  {
    && (forall k :: 0 <= k < |order| ==> !Marked(mask0, width, height, order[k].0, order[k].1))
    && (forall j, k :: 0 <= j < k < |order| ==> order[j] != order[k])
    && (forall x, y :: InBounds(width, height, x, y) && (x, y) !in order ==>
          GetCol(cur, width, height, x, y) == GetCol(data, width, height, x, y))
    && (forall k :: 0 <= k < |order| ==> RecolouredAt(cur, width, height, mask0, order, k))
  }

  /** Writing a pixel that `mask` does not mark changes no neighbour sum over `mask`. */
  lemma WriteKeepsTotals(data: seq<Byte>, width: nat, height: nat, mask: seq<bool>, x: int, y: int, col: Col, a: int, b: int)
    requires IsImage(data, width, height) && IsMask(mask, width, height)
    requires InBounds(width, height, x, y) && !Marked(mask, width, height, x, y)
    ensures NeighbourTotals(SetCol(data, width, height, x, y, col), width, height, mask, a, b)
            == NeighbourTotals(data, width, height, mask, a, b)
  {
    var data' := SetCol(data, width, height, x, y, col);
    forall x', y' | Marked(mask, width, height, x', y')
      ensures GetCol(data, width, height, x', y') == GetCol(data', width, height, x', y')
    {
      SetColOther(data, width, height, x, y, col, x', y');
    }
    TotalsDataFrame(data, data', width, height, mask, a, b);
  }

  /** Processing a fresh pixel p keeps entry k of the history recoloured. */
  lemma RecolouredKept(cur: seq<Byte>, width: nat, height: nat, mask0: seq<bool>, order: seq<(int, int)>, p: (int, int), col: Col, k: int)
    requires IsImage(cur, width, height) && IsMask(mask0, width, height) && AllInBounds(width, height, order)
    requires InBounds(width, height, p.0, p.1) && !Marked(mask0, width, height, p.0, p.1) && p !in order
    requires 0 <= k < |order| && RecolouredAt(cur, width, height, mask0, order, k)
    ensures AllInBounds(width, height, order + [p])
    ensures RecolouredAt(SetCol(cur, width, height, p.0, p.1, col), width, height, mask0, order + [p], k)
  {
    var order' := order + [p];
    assert order'[..k] == order[..k];
    var m := MaskAfter(mask0, width, height, order[..k]);
    MaskAfterSpec(mask0, width, height, order[..k], p.0, p.1);
    assert p !in order[..k];
    WriteKeepsTotals(cur, width, height, m, p.0, p.1, col, order[k].0, order[k].1);
    SetColOther(cur, width, height, p.0, p.1, col, order[k].0, order[k].1);
  }

  /** The pixel just processed is recoloured from the mask before it. */
  lemma RecolouredNew(cur: seq<Byte>, width: nat, height: nat, mask0: seq<bool>, order: seq<(int, int)>, x: int, y: int)
    requires IsImage(cur, width, height) && IsMask(mask0, width, height) && AllInBounds(width, height, order)
    requires InBounds(width, height, x, y)
    requires !Marked(MaskAfter(mask0, width, height, order), width, height, x, y)
    requires HasMarkedNeighbour(MaskAfter(mask0, width, height, order), width, height, x, y)
    ensures AllInBounds(width, height, order + [(x, y)])
    ensures RecolouredAt(SetCol(cur, width, height, x, y, Average(cur, width, height, MaskAfter(mask0, width, height, order), x, y)),
                         width, height, mask0, order + [(x, y)], |order|)
  {
    var m := MaskAfter(mask0, width, height, order);
    var col := Average(cur, width, height, m, x, y);
    assert (order + [(x, y)])[..|order|] == order;
    WriteKeepsTotals(cur, width, height, m, x, y, col, x, y);
  }

  /** Processing the next popped pixel extends the history by it. */
  lemma HistoryExtend(data: seq<Byte>, cur: seq<Byte>, width: nat, height: nat, mask0: seq<bool>, order: seq<(int, int)>, x: int, y: int)
    requires IsImage(data, width, height) && IsImage(cur, width, height)
    requires IsMask(mask0, width, height) && AllInBounds(width, height, order)
    requires History(data, cur, width, height, mask0, order)
    requires InBounds(width, height, x, y)
    requires !Marked(MaskAfter(mask0, width, height, order), width, height, x, y)
    requires HasMarkedNeighbour(MaskAfter(mask0, width, height, order), width, height, x, y)
    ensures AllInBounds(width, height, order + [(x, y)])
    ensures History(data, SetCol(cur, width, height, x, y, Average(cur, width, height, MaskAfter(mask0, width, height, order), x, y)),
                    width, height, mask0, order + [(x, y)])
  {
    var m := MaskAfter(mask0, width, height, order);
    var col := Average(cur, width, height, m, x, y);
    var cur' := SetCol(cur, width, height, x, y, col);
    var order' := order + [(x, y)];
    MaskAfterSpec(mask0, width, height, order, x, y);
    assert !Marked(mask0, width, height, x, y) && (x, y) !in order;
    forall k | 0 <= k < |order'|
      ensures !Marked(mask0, width, height, order'[k].0, order'[k].1)
    {
      if k < |order| {
        assert order'[k] == order[k];
      }
    }
    forall j, k | 0 <= j < k < |order'|
      ensures order'[j] != order'[k]
    {
      assert order'[j] == order[j];
      if k < |order| {
        assert order'[k] == order[k];
      } else {
        assert order[j] in order;
      }
    }
    forall a, b | InBounds(width, height, a, b) && (a, b) !in order'
      ensures GetCol(cur', width, height, a, b) == GetCol(data, width, height, a, b)
    {
      assert (a, b) !in order;
      SetColOther(cur, width, height, x, y, col, a, b);
    }
    forall k | 0 <= k < |order'|
      ensures RecolouredAt(cur', width, height, mask0, order', k)
    {
      if k < |order| {
        RecolouredKept(cur, width, height, mask0, order, (x, y), col, k);
      } else {
        RecolouredNew(cur, width, height, mask0, order, x, y);
      }
    }
  }

  /**
   The pixels the draining loop resolves, in order, once it has resolved
   `order` and holds `pending` in the queue. The front entry is popped; it is
   dropped when it lies outside the image or is already resolved; otherwise
   it is resolved and its in-bounds unresolved neighbours are queued at the
   back, in the order x+1, x-1, y+1, y-1. Started from the seeds, this is the
   first-in-first-out schedule of main.c lines 134-162.
   */
  function ResolveOrder(mask0: seq<bool>, width: nat, height: nat, order: seq<(int, int)>, pending: seq<(int, int)>)
    : (final: seq<(int, int)>)
    requires IsMask(mask0, width, height) && AllInBounds(width, height, order)
    ensures AllInBounds(width, height, final)
    ensures order <= final
    decreases |mask0| - CountTrue(MaskAfter(mask0, width, height, order)), |pending|
  {
    if pending == [] then order
    else
      var p := pending[0];
      var mask := MaskAfter(mask0, width, height, order);
      if !InBounds(width, height, p.0, p.1) || Marked(mask, width, height, p.0, p.1) then
        ResolveOrder(mask0, width, height, order, pending[1..])
      else
        var mask' := SetFlag(mask, width, height, p.0, p.1, true);
        MaskAfterSnoc(mask0, width, height, order, p.0, p.1);
        CountSetFlag(mask, width, height, p.0, p.1);
        var final := ResolveOrder(mask0, width, height, order + [p],
                                  pending[1..] + PendingNeighbours(mask', width, height, p.0, p.1));
        assert order <= order + [p];
        final
  }

  /** Popping an entry that is outside the image or already resolved only drops it. */
  lemma ScheduleSkip(mask0: seq<bool>, width: nat, height: nat, order: seq<(int, int)>, p: (int, int), rest: seq<(int, int)>)
    requires IsMask(mask0, width, height) && AllInBounds(width, height, order)
    requires !InBounds(width, height, p.0, p.1) || Marked(MaskAfter(mask0, width, height, order), width, height, p.0, p.1)
    ensures ResolveOrder(mask0, width, height, order, [p] + rest) == ResolveOrder(mask0, width, height, order, rest)
  {
    assert ([p] + rest)[1..] == rest;
  }

  /** Popping an unresolved in-bounds entry resolves it and queues its unresolved neighbours behind `rest`. */
  lemma ScheduleVisit(mask0: seq<bool>, width: nat, height: nat, order: seq<(int, int)>, x: int, y: int, rest: seq<(int, int)>)
    requires IsMask(mask0, width, height) && AllInBounds(width, height, order)
    requires InBounds(width, height, x, y) && !Marked(MaskAfter(mask0, width, height, order), width, height, x, y)
    ensures AllInBounds(width, height, order + [(x, y)])
    ensures ResolveOrder(mask0, width, height, order, [(x, y)] + rest)
            == ResolveOrder(mask0, width, height, order + [(x, y)],
                            rest + PendingNeighbours(SetFlag(MaskAfter(mask0, width, height, order), width, height, x, y, true), width, height, x, y))
  {
    assert ([(x, y)] + rest)[1..] == rest;
    MaskAfterSnoc(mask0, width, height, order, x, y);
  }

  /** Every pixel of `order` has a neighbour resolved before it, so each mean has a non-zero divisor. */
  ghost predicate Replayable(mask0: seq<bool>, width: nat, height: nat, order: seq<(int, int)>)
    requires IsMask(mask0, width, height) && AllInBounds(width, height, order)
  {
    forall k :: 0 <= k < |order| ==>
      HasMarkedNeighbour(MaskAfter(mask0, width, height, order[..k]), width, height, order[k].0, order[k].1)
  }

  /**
   The image after recolouring the pixels of `order` one after another, each
   with the truncated mean of the neighbours resolved before it and alpha 0.
   */
  function Replay(data: seq<Byte>, width: nat, height: nat, mask0: seq<bool>, order: seq<(int, int)>): (out: seq<Byte>)
    requires IsImage(data, width, height) && IsMask(mask0, width, height) && AllInBounds(width, height, order)
    requires Replayable(mask0, width, height, order)
    ensures IsImage(out, width, height)
    ensures order == [] ==> out == data
    decreases |order|
  {
    if order == [] then data
    else
      var prev := order[..|order| - 1];
      var p := order[|order| - 1];
      assert forall k :: 0 <= k < |prev| ==> prev[..k] == order[..k] && prev[k] == order[k];
      assert order[..|prev|] == prev;
      var img := Replay(data, width, height, mask0, prev);
      SetCol(img, width, height, p.0, p.1, Average(img, width, height, MaskAfter(mask0, width, height, prev), p.0, p.1))
  }

  /** Recolouring one more pixel that has a resolved neighbour extends the replay by it. */
  lemma ReplayExtend(data: seq<Byte>, width: nat, height: nat, mask0: seq<bool>, order: seq<(int, int)>, x: int, y: int)
    requires IsImage(data, width, height) && IsMask(mask0, width, height) && AllInBounds(width, height, order)
    requires Replayable(mask0, width, height, order) && InBounds(width, height, x, y)
    requires HasMarkedNeighbour(MaskAfter(mask0, width, height, order), width, height, x, y)
    ensures AllInBounds(width, height, order + [(x, y)]) && Replayable(mask0, width, height, order + [(x, y)])
    ensures var img := Replay(data, width, height, mask0, order);
      Replay(data, width, height, mask0, order + [(x, y)])
      == SetCol(img, width, height, x, y, Average(img, width, height, MaskAfter(mask0, width, height, order), x, y))
  {
    var order' := order + [(x, y)];
    assert order'[..|order|] == order;
    forall k | 0 <= k < |order'|
      ensures HasMarkedNeighbour(MaskAfter(mask0, width, height, order'[..k]), width, height, order'[k].0, order'[k].1)
    {
      if k < |order| {
        assert order'[..k] == order[..k] && order'[k] == order[k];
      }
    }
  }

  /**
   The loop state follows the schedule: what remains to be resolved from here
   is what `ResolveOrder` predicts from the seeds, and the image is the replay
   of the pixels resolved so far.
   */
  ghost predicate OnSchedule(data: seq<Byte>, width: nat, height: nat, threshold: int, mask0: seq<bool>,
                             out: seq<Byte>, q: Queue, order: seq<(int, int)>)
    requires IsImage(data, width, height)
  {
    && mask0 == InitialMask(data, width, height, threshold)
    && Valid(q) && AllInBounds(width, height, order)
    && ResolveOrder(mask0, width, height, order, Contents(q))
       == ResolveOrder(mask0, width, height, [], Seeds(OpaqueCells(data, width, height, threshold)))
    && Replayable(mask0, width, height, order)
    && out == Replay(data, width, height, mask0, order)
  }

  /** Some pixel of the image is opaque, i.e. its alpha exceeds the threshold. */
  ghost predicate AnyOpaque(data: seq<Byte>, width: nat, height: nat, threshold: int)
    requires IsImage(data, width, height)
  {
    exists x, y :: InBounds(width, height, x, y) && GetCol(data, width, height, x, y).a > threshold
  }

  lemma MaskAfterSnoc(mask0: seq<bool>, width: nat, height: nat, order: seq<(int, int)>, x: int, y: int)
    requires IsMask(mask0, width, height) && AllInBounds(width, height, order) && InBounds(width, height, x, y)
    ensures AllInBounds(width, height, order + [(x, y)])
    ensures MaskAfter(mask0, width, height, order + [(x, y)])
            == SetFlag(MaskAfter(mask0, width, height, order), width, height, x, y, true)
  {
    assert (order + [(x, y)])[..|order|] == order;
  }

  /** The invariant of the draining loop. */
  ghost predicate Draining(data: seq<Byte>, width: nat, height: nat, threshold: int, mask0: seq<bool>,
                           out: seq<Byte>, mask: seq<bool>, q: Queue, order: seq<(int, int)>)
    requires IsImage(data, width, height)
  {
    && mask0 == InitialMask(data, width, height, threshold)
    && IsImage(out, width, height) && IsMask(mask, width, height) && Valid(q)
    && AllInBounds(width, height, order) && mask == MaskAfter(mask0, width, height, order)
    && History(data, out, width, height, mask0, order)
    && SeededFrom(mask, width, height, Contents(q)) && FrontierCovers(mask, width, height, Contents(q))
    && q.length <= 8 * CountTrue(mask)
    && (order == [] ==> out == data)
    && (!AnyOpaque(data, width, height, threshold) ==> Contents(q) == [] && order == [])
  }

  /** One iteration of the draining loop (main.c lines 134-162). */
  method DrainStep(data: seq<Byte>, width: nat, height: nat, threshold: int, ghost mask0: seq<bool>,
                   out: seq<Byte>, mask: seq<bool>, q: Queue, order: seq<(int, int)>)
    returns (out': seq<Byte>, mask': seq<bool>, q': Queue, order': seq<(int, int)>)
    requires IsImage(data, width, height)
    requires Draining(data, width, height, threshold, mask0, out, mask, q, order) && Nonempty(q)
    requires OnSchedule(data, width, height, threshold, mask0, out, q, order)
    ensures Draining(data, width, height, threshold, mask0, out', mask', q', order')
    ensures OnSchedule(data, width, height, threshold, mask0, out', q', order')
    ensures Submask(mask, mask') && CountTrue(mask) <= CountTrue(mask')
    ensures CountTrue(mask) == CountTrue(mask') ==> |Contents(q')| < |Contents(q)|
  {
    out', mask', order' := out, mask, order;
    ghost var waiting := Contents(q);
    var x, y;
    q', x, y := Pop(q);
    ghost var rest := Contents(q');
    if x < 0 || x >= width || y < 0 || y >= height || mask[CellIndex(width, height, x, y)] {
      FrontierSkip(mask, width, height, (x, y), rest);
      SeededSkip(mask, width, height, (x, y), rest);
      ScheduleSkip(mask0, width, height, order, (x, y), rest);
    } else {
      assert waiting[0] == (x, y);
      CountSetFlag(mask, width, height, x, y);
      SetFlagGrows(mask, width, height, x, y);
      HistoryExtend(data, out, width, height, mask0, order, x, y);
      FrontierVisit(mask, width, height, x, y, rest);
      SeededVisit(mask, width, height, x, y, rest);
      MaskAfterSnoc(mask0, width, height, order, x, y);
      ScheduleVisit(mask0, width, height, order, x, y, rest);
      ReplayExtend(data, width, height, mask0, order, x, y);
      out', mask', q' := Visit(x, y, width, height, out, mask, q');
      order' := order + [(x, y)];
    }
  }

  /**
   The recolouring pass (main.c lines 117-163): seed, then drain the queue.
   `order` lists the pixels recoloured, in the order they were popped;
   `pushes` is the number of `queue_push` calls, the queue's `length / 2`.
   */
  method RecolorTransparent(data: seq<Byte>, width: nat, height: nat, threshold: int)
    returns (out: seq<Byte>, order: seq<(int, int)>, pushes: nat)
    requires IsImage(data, width, height)
    ensures IsImage(out, width, height) && AllInBounds(width, height, order)
    ensures forall k :: 0 <= k < |order| ==> GetCol(data, width, height, order[k].0, order[k].1).a <= threshold
    ensures forall j, k :: 0 <= j < k < |order| ==> order[j] != order[k]
    ensures forall x, y :: InBounds(width, height, x, y) && (x, y) !in order ==>
              GetCol(out, width, height, x, y) == GetCol(data, width, height, x, y)
    ensures forall k :: 0 <= k < |order| ==>
              Recoloured(out, width, height, MaskAfter(InitialMask(data, width, height, threshold), width, height, order[..k]),
                         order[k].0, order[k].1)
    ensures AnyOpaque(data, width, height, threshold) ==>
              forall x, y :: InBounds(width, height, x, y) && GetCol(data, width, height, x, y).a <= threshold ==> (x, y) in order
    ensures !AnyOpaque(data, width, height, threshold) ==> order == [] && out == data
    ensures forall x, y :: InBounds(width, height, x, y) && GetCol(data, width, height, x, y).a > threshold ==>
              GetCol(out, width, height, x, y) == GetCol(data, width, height, x, y)
    ensures AnyOpaque(data, width, height, threshold) ==>
              forall x, y :: InBounds(width, height, x, y) && GetCol(data, width, height, x, y).a <= threshold ==>
                GetCol(out, width, height, x, y).a == 0
    ensures pushes <= 4 * (width * height)
    ensures order == ResolveOrder(InitialMask(data, width, height, threshold), width, height, [],
                                  Seeds(OpaqueCells(data, width, height, threshold)))
    ensures Replayable(InitialMask(data, width, height, threshold), width, height, order)
    ensures out == Replay(data, width, height, InitialMask(data, width, height, threshold), order)
  {
    var mask, q := Seed(data, width, height, threshold);
    ghost var mask0 := mask;
    SeedInvariants(data, width, height, threshold, mask0);
    out, order := data, [];
    while Nonempty(q)
      invariant Draining(data, width, height, threshold, mask0, out, mask, q, order)
      invariant OnSchedule(data, width, height, threshold, mask0, out, q, order)
      decreases |mask| - CountTrue(mask), |Contents(q)|
    {
      out, mask, q, order := DrainStep(data, width, height, threshold, mask0, out, mask, q, order);
    }
    pushes := q.length / 2;
    DrainedResult(data, width, height, threshold, mask0, out, mask, q, order);
    DrainedTransparent(data, width, height, threshold, mask0, out, mask, q, order);
  }

  /** What the drained state says about the image. */
  lemma DrainedResult(data: seq<Byte>, width: nat, height: nat, threshold: int, mask0: seq<bool>,
                      out: seq<Byte>, mask: seq<bool>, q: Queue, order: seq<(int, int)>)
    requires IsImage(data, width, height)
    requires Draining(data, width, height, threshold, mask0, out, mask, q, order) && !Nonempty(q)
    ensures IsImage(out, width, height) && AllInBounds(width, height, order)
    ensures forall k :: 0 <= k < |order| ==> GetCol(data, width, height, order[k].0, order[k].1).a <= threshold
    ensures forall j, k :: 0 <= j < k < |order| ==> order[j] != order[k]
    ensures forall x, y :: InBounds(width, height, x, y) && (x, y) !in order ==>
              GetCol(out, width, height, x, y) == GetCol(data, width, height, x, y)
    ensures forall k :: 0 <= k < |order| ==>
              Recoloured(out, width, height, MaskAfter(mask0, width, height, order[..k]), order[k].0, order[k].1)
    ensures !AnyOpaque(data, width, height, threshold) ==> order == [] && out == data
    ensures forall x, y :: InBounds(width, height, x, y) && GetCol(data, width, height, x, y).a > threshold ==>
              GetCol(out, width, height, x, y) == GetCol(data, width, height, x, y)
    ensures q.length / 2 <= 4 * (width * height)
  {
    forall k | 0 <= k < |order|
      ensures GetCol(data, width, height, order[k].0, order[k].1).a <= threshold
    {
      assert !Marked(mask0, width, height, order[k].0, order[k].1);
    }
    forall k | 0 <= k < |order|
      ensures Recoloured(out, width, height, MaskAfter(mask0, width, height, order[..k]), order[k].0, order[k].1)
    {
      assert RecolouredAt(out, width, height, mask0, order, k);
    }
    forall x, y | InBounds(width, height, x, y) && GetCol(data, width, height, x, y).a > threshold
      ensures (x, y) !in order
    {
    }
  }

  /** After draining, when some pixel is opaque, every transparent pixel has been processed and has alpha 0. */
  lemma DrainedTransparent(data: seq<Byte>, width: nat, height: nat, threshold: int, mask0: seq<bool>,
                           out: seq<Byte>, mask: seq<bool>, q: Queue, order: seq<(int, int)>)
    requires IsImage(data, width, height)
    requires Draining(data, width, height, threshold, mask0, out, mask, q, order) && !Nonempty(q)
    ensures AnyOpaque(data, width, height, threshold) ==>
              forall x, y :: InBounds(width, height, x, y) && GetCol(data, width, height, x, y).a <= threshold ==> (x, y) in order
    ensures AnyOpaque(data, width, height, threshold) ==>
              forall x, y :: InBounds(width, height, x, y) && GetCol(data, width, height, x, y).a <= threshold ==>
                GetCol(out, width, height, x, y).a == 0
  {
    if AnyOpaque(data, width, height, threshold) {
      DrainedCoversAll(data, width, height, threshold, mask0, order);
      forall x, y | InBounds(width, height, x, y) && GetCol(data, width, height, x, y).a <= threshold
        ensures GetCol(out, width, height, x, y).a == 0
      {
        var k :| 0 <= k < |order| && order[k] == (x, y);
        assert RecolouredAt(out, width, height, mask0, order, k);
      }
    }
  }

  /** The seeds satisfy the frontier invariants, and there are none when no pixel is opaque. */
  lemma SeedInvariants(data: seq<Byte>, width: nat, height: nat, threshold: int, mask0: seq<bool>)
    requires IsImage(data, width, height) && mask0 == InitialMask(data, width, height, threshold)
    ensures SeededFrom(mask0, width, height, Seeds(OpaqueCells(data, width, height, threshold)))
    ensures FrontierCovers(mask0, width, height, Seeds(OpaqueCells(data, width, height, threshold)))
    ensures !AnyOpaque(data, width, height, threshold) ==> OpaqueCells(data, width, height, threshold) == []
  {
    var sources := OpaqueCells(data, width, height, threshold);
    OpaqueCellsSpec(data, width, height, threshold);
    SeedsHaveMarkedNeighbour(mask0, width, height, sources);
    SeedsCoverNeighbours(mask0, width, height, sources);
    if |sources| > 0 {
      assert InBounds(width, height, sources[0].0, sources[0].1);
      assert GetCol(data, width, height, sources[0].0, sources[0].1).a > threshold;
    }
  }

  /** Once the queue is empty after seeding from an opaque pixel, every transparent pixel has been processed. */
  lemma DrainedCoversAll(data: seq<Byte>, width: nat, height: nat, threshold: int, mask0: seq<bool>, order: seq<(int, int)>)
    requires IsImage(data, width, height) && AllInBounds(width, height, order)
    requires mask0 == InitialMask(data, width, height, threshold)
    requires FrontierCovers(MaskAfter(mask0, width, height, order), width, height, [])
    requires AnyOpaque(data, width, height, threshold)
    ensures forall x, y :: InBounds(width, height, x, y) && GetCol(data, width, height, x, y).a <= threshold ==> (x, y) in order
  {
    var mask := MaskAfter(mask0, width, height, order);
    var x0, y0 :| InBounds(width, height, x0, y0) && GetCol(data, width, height, x0, y0).a > threshold;
    MaskAfterSpec(mask0, width, height, order, x0, y0);
    ClosedWhenDrained(mask, width, height);
    ClosedMaskIsFull(mask, width, height, x0, y0);
    forall x, y | InBounds(width, height, x, y) && GetCol(data, width, height, x, y).a <= threshold
      ensures (x, y) in order
    {
      MaskAfterSpec(mask0, width, height, order, x, y);
    }
  }
}
