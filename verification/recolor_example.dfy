/**
 A worked instance of the recolouring pass: a 4 x 1 strip, threshold 0, with
 an opaque red pixel at x = 0, an opaque blue pixel at x = 3 and two fully
 transparent pixels between them. The queue pops (1, 0) before (2, 0), so
 (1, 0) copies the red and (2, 0) averages that red with the blue. The
 schedule and the bytes are worked out one pop at a time from the general
 lemmas about `ResolveOrder` and `Replay`.
 */
module RecolorExample {
  import opened Grid
  import opened VisitedMask
  import opened NeighbourAverage
  import opened Frontier
  import opened Seeding
  import opened Recolor

  /** The input strip: (200, 0, 0, 255), two (0, 0, 0, 0), (0, 0, 100, 255). */
  function Strip(): (data: seq<Byte>)
    ensures IsImage(data, 4, 1)
  {
    [200, 0, 0, 255, 0, 0, 0, 0, 0, 0, 0, 0, 0, 0, 100, 255]
  }

  /** Seeding resolves the two end pixels. */
  lemma StripMask()
    ensures InitialMask(Strip(), 4, 1, 0) == [true, false, false, true]
  {
    var m := InitialMask(Strip(), 4, 1, 0);
    assert m[0] && !m[1] && !m[2] && m[3];
  }

  lemma StripBytes()
    ensures Strip()[3] == 255 && Strip()[7] == 0 && Strip()[11] == 0 && Strip()[15] == 255
  {
  }

  lemma StripAlphaIndex()
    ensures ByteIndex(4, 1, 0, 0, A) == 3 && ByteIndex(4, 1, 1, 0, A) == 7
    ensures ByteIndex(4, 1, 2, 0, A) == 11 && ByteIndex(4, 1, 3, 0, A) == 15
  {
  }

  lemma StripAlpha()
    ensures GetCol(Strip(), 4, 1, 0, 0).a == 255 && GetCol(Strip(), 4, 1, 1, 0).a == 0
    ensures GetCol(Strip(), 4, 1, 2, 0).a == 0 && GetCol(Strip(), 4, 1, 3, 0).a == 255
  {
    StripBytes();
    StripAlphaIndex();
  }

  /** The seeding scan meets (0, 0) and then (3, 0). */
  lemma StripCells()
    ensures OpaqueCells(Strip(), 4, 1, 0) == [(0, 0), (3, 0)]
  {
    var data := Strip();
    StripAlpha();
    assert OpaqueRow(data, 4, 1, 0, 0, 0) == [];
    assert OpaqueRow(data, 4, 1, 0, 0, 1) == [(0, 0)];
    assert OpaqueRow(data, 4, 1, 0, 0, 2) == [(0, 0)];
    assert OpaqueRow(data, 4, 1, 0, 0, 3) == [(0, 0)];
    assert OpaqueRow(data, 4, 1, 0, 0, 4) == [(0, 0), (3, 0)];
    assert OpaqueRows(data, 4, 1, 0, 0) == [];
  }

  /** Eight seed pushes, four per opaque pixel. */
  lemma StripSeeds()
    ensures Seeds([(0, 0), (3, 0)]) == [(1, 0), (-1, 0), (0, 1), (0, -1), (4, 0), (2, 0), (3, 1), (3, -1)]
  {
    assert [(0, 0), (3, 0)][..1] == [(0, 0)];
    assert [(0, 0)][..0] == [];
  }

  lemma StripMasks()
    ensures MaskAfter([true, false, false, true], 4, 1, [(1, 0)]) == [true, true, false, true]
    ensures MaskAfter([true, false, false, true], 4, 1, [(1, 0), (2, 0)]) == [true, true, true, true]
  {
    assert [(1, 0), (2, 0)][..1] == [(1, 0)];
    assert [(1, 0)][..0] == [];
  }

  lemma StripPending()
    ensures SetFlag([true, false, false, true], 4, 1, 1, 0, true) == [true, true, false, true]
    ensures SetFlag([true, true, false, true], 4, 1, 2, 0, true) == [true, true, true, true]
    ensures PendingNeighbours([true, true, false, true], 4, 1, 1, 0) == [(2, 0)]
    ensures PendingNeighbours([true, true, true, true], 4, 1, 2, 0) == []
  {
  }

  lemma StripScheduleTail()
    ensures AllInBounds(4, 1, [(1, 0), (2, 0)])
    ensures ResolveOrder([true, false, false, true], 4, 1, [(1, 0), (2, 0)], [(3, 1), (3, -1), (2, 0)]) == [(1, 0), (2, 0)]
  {
    var m0 := [true, false, false, true];
    var o2 := [(1, 0), (2, 0)];
    StripMasks();
    ScheduleSkip(m0, 4, 1, o2, (3, 1), [(3, -1), (2, 0)]);
    ScheduleSkip(m0, 4, 1, o2, (3, -1), [(2, 0)]);
    ScheduleSkip(m0, 4, 1, o2, (2, 0), []);
  }

  lemma StripStep1()
    ensures ResolveOrder([true, false, false, true], 4, 1, [(1, 0)],
                         [(-1, 0), (0, 1), (0, -1), (4, 0), (2, 0), (3, 1), (3, -1), (2, 0)])
         == ResolveOrder([true, false, false, true], 4, 1, [(1, 0)],
                         [(2, 0), (3, 1), (3, -1), (2, 0)])
  {
    var m0 := [true, false, false, true];
    var o1 := [(1, 0)];
    ScheduleSkip(m0, 4, 1, o1, (-1, 0), [(0, 1), (0, -1), (4, 0), (2, 0), (3, 1), (3, -1), (2, 0)]);
    ScheduleSkip(m0, 4, 1, o1, (0, 1), [(0, -1), (4, 0), (2, 0), (3, 1), (3, -1), (2, 0)]);
    ScheduleSkip(m0, 4, 1, o1, (0, -1), [(4, 0), (2, 0), (3, 1), (3, -1), (2, 0)]);
    ScheduleSkip(m0, 4, 1, o1, (4, 0), [(2, 0), (3, 1), (3, -1), (2, 0)]);
  }

  lemma StripStep2()
    ensures ResolveOrder([true, false, false, true], 4, 1, [(1, 0)], [(2, 0), (3, 1), (3, -1), (2, 0)])
         == ResolveOrder([true, false, false, true], 4, 1, [(1, 0), (2, 0)], [(3, 1), (3, -1), (2, 0)])
  {
    StripVisitSecond([true, false, false, true], [(1, 0)], [(3, 1), (3, -1), (2, 0)]);
    assert [(2, 0)] + [(3, 1), (3, -1), (2, 0)] == [(2, 0), (3, 1), (3, -1), (2, 0)];
    assert [(1, 0)] + [(2, 0)] == [(1, 0), (2, 0)];
  }

  lemma StripVisitSecond(m0: seq<bool>, o1: seq<(int, int)>, rest: seq<(int, int)>)
    requires m0 == [true, false, false, true] && o1 == [(1, 0)] && rest == [(3, 1), (3, -1), (2, 0)]
    ensures AllInBounds(4, 1, o1) && AllInBounds(4, 1, o1 + [(2, 0)])
    ensures ResolveOrder(m0, 4, 1, o1, [(2, 0)] + rest) == ResolveOrder(m0, 4, 1, o1 + [(2, 0)], rest)
  {
    StripMasks();
    StripPending();
    assert MaskAfter(m0, 4, 1, o1) == [true, true, false, true];
    assert PendingNeighbours(SetFlag(MaskAfter(m0, 4, 1, o1), 4, 1, 2, 0, true), 4, 1, 2, 0) == [];
    ScheduleVisit(m0, 4, 1, o1, 2, 0, rest);
    assert rest + [] == rest;
  }

  lemma StripStep0()
    ensures ResolveOrder([true, false, false, true], 4, 1, [],
                         [(1, 0), (-1, 0), (0, 1), (0, -1), (4, 0), (2, 0), (3, 1), (3, -1)])
         == ResolveOrder([true, false, false, true], 4, 1, [(1, 0)],
                         [(-1, 0), (0, 1), (0, -1), (4, 0), (2, 0), (3, 1), (3, -1), (2, 0)])
  {
    StripVisitFirst([true, false, false, true], [(-1, 0), (0, 1), (0, -1), (4, 0), (2, 0), (3, 1), (3, -1)],
                    [(1, 0), (-1, 0), (0, 1), (0, -1), (4, 0), (2, 0), (3, 1), (3, -1)],
                    [(-1, 0), (0, 1), (0, -1), (4, 0), (2, 0), (3, 1), (3, -1), (2, 0)]);
  }

  lemma StripVisitFirst(m0: seq<bool>, rest: seq<(int, int)>, seeds: seq<(int, int)>, rest': seq<(int, int)>)
    requires m0 == [true, false, false, true] && rest == [(-1, 0), (0, 1), (0, -1), (4, 0), (2, 0), (3, 1), (3, -1)]
    requires seeds == [(1, 0)] + rest && rest' == rest + [(2, 0)]
    ensures ResolveOrder(m0, 4, 1, [], seeds) == ResolveOrder(m0, 4, 1, [(1, 0)], rest')
  {
    StripPending();
    assert MaskAfter(m0, 4, 1, []) == m0;
    assert PendingNeighbours(SetFlag(MaskAfter(m0, 4, 1, []), 4, 1, 1, 0, true), 4, 1, 1, 0) == [(2, 0)];
    ScheduleVisit(m0, 4, 1, [], 1, 0, rest);
    assert [] + [(1, 0)] == [(1, 0)];
  }

  /**
   Draining the seeds: (1, 0) is resolved and queues (2, 0); four
   out-of-image pops are dropped; the seeded (2, 0) is resolved and queues
   nothing; the remaining three pops are dropped.
   */
  lemma StripSchedule()
    ensures ResolveOrder([true, false, false, true], 4, 1, [],
                         [(1, 0), (-1, 0), (0, 1), (0, -1), (4, 0), (2, 0), (3, 1), (3, -1)]) == [(1, 0), (2, 0)]
  {
    StripStep0();
    StripStep1();
    StripStep2();
    StripScheduleTail();
  }

  lemma StripMarks(m0: seq<bool>)
    requires m0 == [true, false, false, true]
    ensures Marked(m0, 4, 1, 0, 0) && !Marked(m0, 4, 1, 1, 0) && !Marked(m0, 4, 1, 2, 0) && Marked(m0, 4, 1, 3, 0)
  {
  }

  lemma StripCols(data: seq<Byte>)
    requires data == Strip()
    ensures GetCol(data, 4, 1, 0, 0) == Col(200, 0, 0, 255)
    ensures GetCol(data, 4, 1, 3, 0) == Col(0, 0, 100, 255)
  {
    StripRedCol(data);
    StripBlueCol(data);
  }

  lemma StripRedCol(data: seq<Byte>)
    requires data == Strip()
    ensures GetCol(data, 4, 1, 0, 0) == Col(200, 0, 0, 255)
  {
    StripRedBytes();
    StripRedIndex();
  }

  lemma StripBlueCol(data: seq<Byte>)
    requires data == Strip()
    ensures GetCol(data, 4, 1, 3, 0) == Col(0, 0, 100, 255)
  {
    StripBlueBytes();
    StripBlueIndex();
  }

  lemma StripRedBytes()
    ensures Strip()[0] == 200 && Strip()[1] == 0 && Strip()[2] == 0 && Strip()[3] == 255
  {
  }

  lemma StripBlueBytes()
    ensures Strip()[12] == 0 && Strip()[13] == 0 && Strip()[14] == 100 && Strip()[15] == 255
  {
  }

  lemma StripRedIndex()
    ensures ByteIndex(4, 1, 0, 0, R) == 0 && ByteIndex(4, 1, 0, 0, G) == 1
    ensures ByteIndex(4, 1, 0, 0, B) == 2 && ByteIndex(4, 1, 0, 0, A) == 3
  {
    ByteIndexIsRowMajor(4, 1, 0, 0, R);
    ByteIndexIsRowMajor(4, 1, 0, 0, G);
    ByteIndexIsRowMajor(4, 1, 0, 0, B);
    ByteIndexIsRowMajor(4, 1, 0, 0, A);
  }

  lemma StripBlueIndex()
    ensures ByteIndex(4, 1, 3, 0, R) == 12 && ByteIndex(4, 1, 3, 0, G) == 13
    ensures ByteIndex(4, 1, 3, 0, B) == 14 && ByteIndex(4, 1, 3, 0, A) == 15
  {
    ByteIndexIsRowMajor(4, 1, 3, 0, R);
    ByteIndexIsRowMajor(4, 1, 3, 0, G);
    ByteIndexIsRowMajor(4, 1, 3, 0, B);
    ByteIndexIsRowMajor(4, 1, 3, 0, A);
  }

  lemma StripFirstMean(data: seq<Byte>, m0: seq<bool>)
    requires data == Strip() && m0 == [true, false, false, true]
    ensures HasMarkedNeighbour(m0, 4, 1, 1, 0)
    ensures Average(data, 4, 1, m0, 1, 0) == Col(200, 0, 0, 0)
  {
    StripMarks(m0);
    StripCols(data);
    assert Contribution(data, 4, 1, m0, 2, 0) == Totals(0, 0, 0, 0);
    assert Contribution(data, 4, 1, m0, 0, 0) == Totals(200, 0, 0, 1);
    assert Contribution(data, 4, 1, m0, 1, 1) == Totals(0, 0, 0, 0);
    assert Contribution(data, 4, 1, m0, 1, -1) == Totals(0, 0, 0, 0);
  }

  lemma StripFirstStore(data: seq<Byte>)
    requires data == Strip()
    ensures SetCol(data, 4, 1, 1, 0, Col(200, 0, 0, 0)) == [200, 0, 0, 255, 200, 0, 0, 0, 0, 0, 0, 0, 0, 0, 100, 255]
  {
    assert ByteIndex(4, 1, 1, 0, R) == 4 && ByteIndex(4, 1, 1, 0, G) == 5;
    assert ByteIndex(4, 1, 1, 0, B) == 6 && ByteIndex(4, 1, 1, 0, A) == 7;
  }

  lemma StripSecondMean(img: seq<Byte>, m1: seq<bool>)
    requires img == [200, 0, 0, 255, 200, 0, 0, 0, 0, 0, 0, 0, 0, 0, 100, 255] && m1 == [true, true, false, true]
    ensures IsImage(img, 4, 1) && HasMarkedNeighbour(m1, 4, 1, 2, 0)
    ensures Average(img, 4, 1, m1, 2, 0) == Col(100, 0, 50, 0)
  {
    assert Marked(m1, 4, 1, 1, 0) && Marked(m1, 4, 1, 3, 0);
    assert GetCol(img, 4, 1, 1, 0) == Col(200, 0, 0, 0);
    assert GetCol(img, 4, 1, 3, 0) == Col(0, 0, 100, 255);
    assert Contribution(img, 4, 1, m1, 3, 0) == Totals(0, 0, 100, 1);
    assert Contribution(img, 4, 1, m1, 1, 0) == Totals(200, 0, 0, 1);
    assert Contribution(img, 4, 1, m1, 2, 1) == Totals(0, 0, 0, 0);
    assert Contribution(img, 4, 1, m1, 2, -1) == Totals(0, 0, 0, 0);
    assert NeighbourTotals(img, 4, 1, m1, 2, 0) == Totals(200, 0, 100, 2);
  }

  lemma StripSecondStore(img: seq<Byte>)
    requires img == [200, 0, 0, 255, 200, 0, 0, 0, 0, 0, 0, 0, 0, 0, 100, 255]
    ensures IsImage(img, 4, 1)
    ensures SetCol(img, 4, 1, 2, 0, Col(100, 0, 50, 0)) == [200, 0, 0, 255, 200, 0, 0, 0, 100, 0, 50, 0, 0, 0, 100, 255]
  {
    assert ByteIndex(4, 1, 2, 0, R) == 8 && ByteIndex(4, 1, 2, 0, G) == 9;
    assert ByteIndex(4, 1, 2, 0, B) == 10 && ByteIndex(4, 1, 2, 0, A) == 11;
  }

  lemma StripReplayFirst(data: seq<Byte>, m0: seq<bool>, o1: seq<(int, int)>, img1: seq<Byte>)
    requires data == Strip() && m0 == [true, false, false, true] && o1 == [(1, 0)]
    requires img1 == [200, 0, 0, 255, 200, 0, 0, 0, 0, 0, 0, 0, 0, 0, 100, 255]
    ensures AllInBounds(4, 1, o1) && Replayable(m0, 4, 1, o1)
    ensures Replay(data, 4, 1, m0, o1) == img1
  {
    StripFirstMean(data, m0);
    StripFirstStore(data);
    ReplayExtend(data, 4, 1, m0, [], 1, 0);
    assert [] + [(1, 0)] == o1;
  }

  lemma StripReplaySecond(data: seq<Byte>, m0: seq<bool>, img1: seq<Byte>, o1: seq<(int, int)>, o2: seq<(int, int)>, out: seq<Byte>)
    requires data == Strip() && m0 == [true, false, false, true]
    requires img1 == [200, 0, 0, 255, 200, 0, 0, 0, 0, 0, 0, 0, 0, 0, 100, 255]
    requires out == [200, 0, 0, 255, 200, 0, 0, 0, 100, 0, 50, 0, 0, 0, 100, 255]
    requires o1 == [(1, 0)] && o2 == o1 + [(2, 0)]
    requires AllInBounds(4, 1, o1) && Replayable(m0, 4, 1, o1) && Replay(data, 4, 1, m0, o1) == img1
    ensures AllInBounds(4, 1, o2) && Replayable(m0, 4, 1, o2)
    ensures Replay(data, 4, 1, m0, o2) == out
  {
    var m1 := MaskAfter(m0, 4, 1, o1);
    assert m1 == [true, true, false, true] by {
      StripMasks();
    }
    StripSecondMean(img1, m1);
    StripSecondStore(img1);
    ReplayExtend(data, 4, 1, m0, o1, 2, 0);
  }

  /** The pixels resolved, in pop order. */
  function StripOrder(): seq<(int, int)>
  {
    [(1, 0), (2, 0)]
  }

  /** The recoloured strip: (1, 0) copies the red, (2, 0) is the mean of that red and the blue. */
  function StripRepaired(): (data: seq<Byte>)
    ensures IsImage(data, 4, 1)
  {
    [200, 0, 0, 255, 200, 0, 0, 0, 100, 0, 50, 0, 0, 0, 100, 255]
  }

  /** The strip after the first recolouring write. */
  function StripHalfway(): (data: seq<Byte>)
    ensures IsImage(data, 4, 1)
  {
    [200, 0, 0, 255, 200, 0, 0, 0, 0, 0, 0, 0, 0, 0, 100, 255]
  }

  lemma StripImage(data: seq<Byte>, m0: seq<bool>, o1: seq<(int, int)>, order: seq<(int, int)>, out: seq<Byte>)
    requires data == Strip() && m0 == [true, false, false, true] && o1 == [(1, 0)] && order == o1 + [(2, 0)]
    requires out == StripRepaired()
    ensures AllInBounds(4, 1, order) && Replayable(m0, 4, 1, order) && Replay(data, 4, 1, m0, order) == out
  {
    StripReplayFirst(data, m0, o1, StripHalfway());
    StripReplaySecond(data, m0, StripHalfway(), o1, order, out);
  }

  lemma StripOutcome(m0: seq<bool>, order: seq<(int, int)>)
    requires m0 == InitialMask(Strip(), 4, 1, 0) && order == StripOrder()
    ensures AllInBounds(4, 1, order) && Replayable(m0, 4, 1, order) && Replay(Strip(), 4, 1, m0, order) == StripRepaired()
  {
    StripMask();
    assert order == [(1, 0)] + [(2, 0)];
    StripImage(Strip(), m0, [(1, 0)], order, StripRepaired());
  }

  lemma StripPops(m0: seq<bool>, seeds: seq<(int, int)>, order: seq<(int, int)>)
    requires m0 == InitialMask(Strip(), 4, 1, 0) && seeds == Seeds(OpaqueCells(Strip(), 4, 1, 0)) && order == StripOrder()
    ensures ResolveOrder(m0, 4, 1, [], seeds) == order
  {
    StripMask();
    StripCells();
    StripSeeds();
    StripSchedule();
  }

  /** On the strip, the schedule resolves (1, 0) then (2, 0), and replaying it gives `StripRepaired`. */
  lemma StripRecolour()
    ensures var m0 := InitialMask(Strip(), 4, 1, 0);
      && ResolveOrder(m0, 4, 1, [], Seeds(OpaqueCells(Strip(), 4, 1, 0))) == StripOrder()
      && AllInBounds(4, 1, StripOrder()) && Replayable(m0, 4, 1, StripOrder())
      && Replay(Strip(), 4, 1, m0, StripOrder()) == StripRepaired()
  {
    var m0 := InitialMask(Strip(), 4, 1, 0);
    StripPops(m0, Seeds(OpaqueCells(Strip(), 4, 1, 0)), StripOrder());
    StripOutcome(m0, StripOrder());
  }

  /** The recolouring pass on the strip produces exactly `StripRepaired`, resolving (1, 0) before (2, 0). */
  method RecolorStrip() returns (out: seq<Byte>, order: seq<(int, int)>)
    ensures order == [(1, 0), (2, 0)]
    ensures out == [200, 0, 0, 255, 200, 0, 0, 0, 100, 0, 50, 0, 0, 0, 100, 255]
  {
    var pushes;
    out, order, pushes := RecolorTransparent(Strip(), 4, 1, 0);
    StripRecolour();
  }
}
