/**
 The two facts about the frontier queue that the recolouring pass keeps:
 every waiting in-bounds pixel touches a resolved pixel, and every unresolved
 in-bounds neighbour of a resolved pixel is waiting.
 */
module Frontier {
  import opened Grid
  import opened VisitedMask
  import opened NeighbourAverage

  /** Every in-bounds entry of `frontier` has a resolved in-bounds neighbour. */
  ghost predicate SeededFrom(mask: seq<bool>, width: nat, height: nat, frontier: seq<(int, int)>)
    requires IsMask(mask, width, height)
  {
    forall k :: 0 <= k < |frontier| && InBounds(width, height, frontier[k].0, frontier[k].1) ==>
      HasMarkedNeighbour(mask, width, height, frontier[k].0, frontier[k].1)
  }

  /** (x, y) is outside the image, resolved, or waiting in `frontier`. */
  predicate Covered(mask: seq<bool>, width: nat, height: nat, frontier: seq<(int, int)>, x: int, y: int)
    requires IsMask(mask, width, height)
  {
    !InBounds(width, height, x, y) || Marked(mask, width, height, x, y) || (x, y) in frontier
  }

  predicate CoveredAround(mask: seq<bool>, width: nat, height: nat, frontier: seq<(int, int)>, x: int, y: int)
    requires IsMask(mask, width, height)
  {
    Marked(mask, width, height, x, y) ==>
      && Covered(mask, width, height, frontier, x + 1, y)
      && Covered(mask, width, height, frontier, x - 1, y)
      && Covered(mask, width, height, frontier, x, y + 1)
      && Covered(mask, width, height, frontier, x, y - 1)
  }

  /** Every unresolved in-bounds neighbour of a resolved pixel is waiting in `frontier`. */
  ghost predicate FrontierCovers(mask: seq<bool>, width: nat, height: nat, frontier: seq<(int, int)>)
    requires IsMask(mask, width, height)
  {
    forall x, y :: CoveredAround(mask, width, height, frontier, x, y)
  }

  /** A neighbour of a resolved pixel has a resolved neighbour: the relation is symmetric. */
  lemma NeighbourOfMarked(mask: seq<bool>, width: nat, height: nat, x: int, y: int, r: int)
    requires IsMask(mask, width, height) && Marked(mask, width, height, x, y) && 0 <= r < 4
    ensures HasMarkedNeighbour(mask, width, height, Neighbours(x, y)[r].0, Neighbours(x, y)[r].1)
  {
    var p := Neighbours(x, y)[r];
    if r == 0 {
      assert p.0 - 1 == x && p.1 == y;
    } else if r == 1 {
      assert p.0 + 1 == x && p.1 == y;
    } else if r == 2 {
      assert p.0 == x && p.1 - 1 == y;
    } else {
      assert p.0 == x && p.1 + 1 == y;
    }
  }

  /** What `process_pixel` pushes for (x, y): the pixel itself when it is in bounds and unresolved. */
  function Pending(mask: seq<bool>, width: nat, height: nat, x: int, y: int): (ps: seq<(int, int)>)
    requires IsMask(mask, width, height)
    ensures ps == [] || ps == [(x, y)]
    ensures (x, y) in ps <==> InBounds(width, height, x, y) && !Marked(mask, width, height, x, y)
  {
    if InBounds(width, height, x, y) && !Marked(mask, width, height, x, y) then [(x, y)] else []
  }

  /** What the four `process_pixel` calls for (x, y) push, in order. */
  function PendingNeighbours(mask: seq<bool>, width: nat, height: nat, x: int, y: int): (ps: seq<(int, int)>)
    requires IsMask(mask, width, height)
    ensures |ps| <= 4
    ensures forall k :: 0 <= k < |ps| ==> ps[k] in Neighbours(x, y)
    ensures forall n :: n in Neighbours(x, y) ==>
              (n in ps <==> InBounds(width, height, n.0, n.1) && !Marked(mask, width, height, n.0, n.1))
  {
    var east, west := Pending(mask, width, height, x + 1, y), Pending(mask, width, height, x - 1, y);
    var south, north := Pending(mask, width, height, x, y + 1), Pending(mask, width, height, x, y - 1);
    assert forall n :: n in east + west + south + north <==> n in east || n in west || n in south || n in north;
    east + west + south + north
  }

  /** Dropping a popped entry that is outside the image or already resolved loses no coverage. */
  lemma CoveredWithout(mask: seq<bool>, width: nat, height: nat, p: (int, int), rest: seq<(int, int)>, x: int, y: int)
    requires IsMask(mask, width, height)
    requires !InBounds(width, height, p.0, p.1) || Marked(mask, width, height, p.0, p.1)
    requires Covered(mask, width, height, [p] + rest, x, y)
    ensures Covered(mask, width, height, rest, x, y)
  {
  }

  /** Popping an entry that is outside the image or already resolved keeps the frontier covering. */
  lemma FrontierSkip(mask: seq<bool>, width: nat, height: nat, p: (int, int), rest: seq<(int, int)>)
    requires IsMask(mask, width, height)
    requires !InBounds(width, height, p.0, p.1) || Marked(mask, width, height, p.0, p.1)
    requires FrontierCovers(mask, width, height, [p] + rest)
    ensures FrontierCovers(mask, width, height, rest)
  {
    forall x, y
      ensures CoveredAround(mask, width, height, rest, x, y)
    {
      assert CoveredAround(mask, width, height, [p] + rest, x, y);
      if Marked(mask, width, height, x, y) {
        CoveredWithout(mask, width, height, p, rest, x + 1, y);
        CoveredWithout(mask, width, height, p, rest, x - 1, y);
        CoveredWithout(mask, width, height, p, rest, x, y + 1);
        CoveredWithout(mask, width, height, p, rest, x, y - 1);
      }
    }
  }

  /** Popping any entry keeps every remaining entry seeded. */
  lemma SeededSkip(mask: seq<bool>, width: nat, height: nat, p: (int, int), rest: seq<(int, int)>)
    requires IsMask(mask, width, height)
    requires SeededFrom(mask, width, height, [p] + rest)
    ensures SeededFrom(mask, width, height, rest)
  {
    forall k | 0 <= k < |rest| && InBounds(width, height, rest[k].0, rest[k].1)
      ensures HasMarkedNeighbour(mask, width, height, rest[k].0, rest[k].1)
    {
      assert rest[k] == ([p] + rest)[k + 1];
    }
  }

  /** After (x, y) is resolved and its pending neighbours pushed, a pixel covered before is covered still. */
  lemma CoveredAfterVisit(mask: seq<bool>, width: nat, height: nat, x: int, y: int, rest: seq<(int, int)>, a: int, b: int)
    requires IsMask(mask, width, height) && InBounds(width, height, x, y)
    requires Covered(mask, width, height, [(x, y)] + rest, a, b)
    ensures Covered(SetFlag(mask, width, height, x, y, true), width, height,
                    rest + PendingNeighbours(SetFlag(mask, width, height, x, y, true), width, height, x, y), a, b)
  {
    var m := SetFlag(mask, width, height, x, y, true);
    if (a, b) in rest {
      assert (a, b) in rest + PendingNeighbours(m, width, height, x, y);
    }
  }

  /** The neighbours of the pixel just resolved are outside, resolved, or just pushed. */
  lemma CoveredNeighbour(mask: seq<bool>, width: nat, height: nat, x: int, y: int, rest: seq<(int, int)>, r: int)
    requires IsMask(mask, width, height) && 0 <= r < 4
    ensures Covered(mask, width, height, rest + PendingNeighbours(mask, width, height, x, y),
                    Neighbours(x, y)[r].0, Neighbours(x, y)[r].1)
  {
    var n := Neighbours(x, y)[r];
    var ps := PendingNeighbours(mask, width, height, x, y);
    if InBounds(width, height, n.0, n.1) && !Marked(mask, width, height, n.0, n.1) {
      assert n in Neighbours(x, y);
      assert n in ps;
      assert n in rest + ps;
    }
  }

  /**
   Popping the unresolved in-bounds pixel (x, y), resolving it and pushing its
   unresolved neighbours keeps the frontier covering.
   */
  lemma FrontierVisit(mask: seq<bool>, width: nat, height: nat, x: int, y: int, rest: seq<(int, int)>)
    requires IsMask(mask, width, height) && InBounds(width, height, x, y)
    requires FrontierCovers(mask, width, height, [(x, y)] + rest)
    ensures FrontierCovers(SetFlag(mask, width, height, x, y, true), width, height,
                           rest + PendingNeighbours(SetFlag(mask, width, height, x, y, true), width, height, x, y))
  {
    var m := SetFlag(mask, width, height, x, y, true);
    var rest' := rest + PendingNeighbours(m, width, height, x, y);
    forall a, b
      ensures CoveredAround(m, width, height, rest', a, b)
    {
      if a == x && b == y {
        VisitedCoveredAround(mask, width, height, x, y, rest);
      } else {
        assert CoveredAround(mask, width, height, [(x, y)] + rest, a, b);
        OtherCoveredAround(mask, width, height, x, y, rest, a, b);
      }
    }
  }

  /** The pixel just resolved has every neighbour covered. */
  lemma VisitedCoveredAround(mask: seq<bool>, width: nat, height: nat, x: int, y: int, rest: seq<(int, int)>)
    requires IsMask(mask, width, height) && InBounds(width, height, x, y)
    ensures CoveredAround(SetFlag(mask, width, height, x, y, true), width, height,
                          rest + PendingNeighbours(SetFlag(mask, width, height, x, y, true), width, height, x, y), x, y)
  {
    var m := SetFlag(mask, width, height, x, y, true);
    CoveredNeighbour(m, width, height, x, y, rest, 0);
    CoveredNeighbour(m, width, height, x, y, rest, 1);
    CoveredNeighbour(m, width, height, x, y, rest, 2);
    CoveredNeighbour(m, width, height, x, y, rest, 3);
  }

  /** Any other pixel covered around before the visit is covered around after it. */
  lemma OtherCoveredAround(mask: seq<bool>, width: nat, height: nat, x: int, y: int, rest: seq<(int, int)>, a: int, b: int)
    requires IsMask(mask, width, height) && InBounds(width, height, x, y) && (a != x || b != y)
    requires CoveredAround(mask, width, height, [(x, y)] + rest, a, b)
    ensures CoveredAround(SetFlag(mask, width, height, x, y, true), width, height,
                          rest + PendingNeighbours(SetFlag(mask, width, height, x, y, true), width, height, x, y), a, b)
  {
    if Marked(mask, width, height, a, b) {
      CoveredAfterVisit(mask, width, height, x, y, rest, a + 1, b);
      CoveredAfterVisit(mask, width, height, x, y, rest, a - 1, b);
      CoveredAfterVisit(mask, width, height, x, y, rest, a, b + 1);
      CoveredAfterVisit(mask, width, height, x, y, rest, a, b - 1);
    }
  }

  /** Popping (x, y), resolving it and pushing its unresolved neighbours keeps every entry seeded. */
  lemma SeededVisit(mask: seq<bool>, width: nat, height: nat, x: int, y: int, rest: seq<(int, int)>)
    requires IsMask(mask, width, height) && InBounds(width, height, x, y)
    requires SeededFrom(mask, width, height, [(x, y)] + rest)
    ensures SeededFrom(SetFlag(mask, width, height, x, y, true), width, height,
                       rest + PendingNeighbours(SetFlag(mask, width, height, x, y, true), width, height, x, y))
  {
    var m := SetFlag(mask, width, height, x, y, true);
    var ps := PendingNeighbours(m, width, height, x, y);
    var rest' := rest + ps;
    forall k | 0 <= k < |rest'| && InBounds(width, height, rest'[k].0, rest'[k].1)
      ensures HasMarkedNeighbour(m, width, height, rest'[k].0, rest'[k].1)
    {
      if k < |rest| {
        assert rest'[k] == ([(x, y)] + rest)[k + 1];
        MarkingKeepsNeighbour(mask, width, height, x, y, rest'[k].0, rest'[k].1);
      } else {
        PushedHasMarkedNeighbour(m, width, height, x, y, ps[k - |rest|]);
      }
    }
  }

  /** Resolving a pixel never takes a resolved neighbour away. */
  lemma MarkingKeepsNeighbour(mask: seq<bool>, width: nat, height: nat, x: int, y: int, a: int, b: int)
    requires IsMask(mask, width, height) && InBounds(width, height, x, y)
    requires HasMarkedNeighbour(mask, width, height, a, b)
    ensures HasMarkedNeighbour(SetFlag(mask, width, height, x, y, true), width, height, a, b)
  {
  }

  /** A neighbour of the resolved pixel (x, y) has a resolved neighbour. */
  lemma PushedHasMarkedNeighbour(mask: seq<bool>, width: nat, height: nat, x: int, y: int, n: (int, int))
    requires IsMask(mask, width, height) && Marked(mask, width, height, x, y) && n in Neighbours(x, y)
    ensures HasMarkedNeighbour(mask, width, height, n.0, n.1)
  {
    var r :| 0 <= r < 4 && Neighbours(x, y)[r] == n;
    NeighbourOfMarked(mask, width, height, x, y, r);
  }

  /** With nothing left waiting, no resolved pixel has an unresolved neighbour. */
  lemma ClosedWhenDrained(mask: seq<bool>, width: nat, height: nat)
    requires IsMask(mask, width, height) && FrontierCovers(mask, width, height, [])
    ensures Closed(mask, width, height)
  {
    forall x, y
      ensures ClosedAt(mask, width, height, x, y)
    {
      assert CoveredAround(mask, width, height, [], x, y);
    }
  }
}
