/**
 The colour a transparent pixel receives: the truncated mean of the RGB of
 its resolved in-bounds neighbours, accumulated in the order `process_pixel`
 is called (x+1, x-1, y+1, y-1). The source sums in `float`; every sum here
 is at most 4 * 255 and every divisor 1..4, so the float quotient truncates
 to the same value as natural-number division.
 */
module NeighbourAverage {
  import opened Grid
  import opened VisitedMask

  /** Running channel sums and the number of neighbours that contributed (`new_col`, `num_cols`). */
  datatype Totals = Totals(r: nat, g: nat, b: nat, n: nat)

  function Plus(s: Totals, t: Totals): Totals
  {
    Totals(s.r + t.r, s.g + t.g, s.b + t.b, s.n + t.n)
  }

  /** Each channel sum is at most 255 per contributing neighbour. */
  predicate Bounded(s: Totals)
  {
    s.r <= 255 * s.n && s.g <= 255 * s.n && s.b <= 255 * s.n
  }

  /** What the neighbour (x, y) adds to the sums: its RGB and one count when it is resolved, nothing otherwise. */
  function Contribution(data: seq<Byte>, width: nat, height: nat, mask: seq<bool>, x: int, y: int): (s: Totals)
    requires IsImage(data, width, height) && IsMask(mask, width, height)
    ensures Bounded(s)
    ensures s.n == (if Marked(mask, width, height, x, y) then 1 else 0)
  {
    if Marked(mask, width, height, x, y) then
      var c := GetCol(data, width, height, x, y);
      Totals(c.r, c.g, c.b, 1)
    else Totals(0, 0, 0, 0)
  }

  predicate HasMarkedNeighbour(mask: seq<bool>, width: nat, height: nat, x: int, y: int)
    requires IsMask(mask, width, height)
  {
    || Marked(mask, width, height, x + 1, y)
    || Marked(mask, width, height, x - 1, y)
    || Marked(mask, width, height, x, y + 1)
    || Marked(mask, width, height, x, y - 1)
  }

  /** The sums over the four neighbours of (x, y). */
  function NeighbourTotals(data: seq<Byte>, width: nat, height: nat, mask: seq<bool>, x: int, y: int): (s: Totals)
    requires IsImage(data, width, height) && IsMask(mask, width, height)
    ensures s.n <= 4
    ensures s.r <= 255 * s.n && s.g <= 255 * s.n && s.b <= 255 * s.n
    ensures s.n >= 1 <==> HasMarkedNeighbour(mask, width, height, x, y)
  {
    Plus(Plus(Plus(Contribution(data, width, height, mask, x + 1, y),
                   Contribution(data, width, height, mask, x - 1, y)),
              Contribution(data, width, height, mask, x, y + 1)),
         Contribution(data, width, height, mask, x, y - 1))
  }

  /** Truncated mean of `n` byte values summing to `v`: the `float` division and the cast to `unsigned char`. */
  function Mean(v: nat, n: nat): (m: Byte)
    requires 1 <= n && v <= 255 * n
    ensures m * n <= v < (m + 1) * n
  {
    DivModOfRow(n, v % n, v / n);
    v / n
  }

  /** The recoloured value of (x, y): truncated mean RGB of its resolved neighbours, alpha 0. */
  function Average(data: seq<Byte>, width: nat, height: nat, mask: seq<bool>, x: int, y: int): (c: Col)
    requires IsImage(data, width, height) && IsMask(mask, width, height)
    requires HasMarkedNeighbour(mask, width, height, x, y)
    ensures c.a == 0
  {
    var s := NeighbourTotals(data, width, height, mask, x, y);
    Col(Mean(s.r, s.n), Mean(s.g, s.n), Mean(s.b, s.n), 0)
  }

  /** Pixel (x, y) holds the value the recolouring step computes from `mask`. */
  predicate Recoloured(data: seq<Byte>, width: nat, height: nat, mask: seq<bool>, x: int, y: int)
    requires IsImage(data, width, height) && IsMask(mask, width, height)
  {
    && InBounds(width, height, x, y)
    && HasMarkedNeighbour(mask, width, height, x, y)
    && GetCol(data, width, height, x, y) == Average(data, width, height, mask, x, y)
  }

  /** (x, y) is unresolved, or resolved with RGB (r, g, b). */
  predicate UnmarkedOrColoured(data: seq<Byte>, width: nat, height: nat, mask: seq<bool>, x: int, y: int, r: Byte, g: Byte, b: Byte)
    requires IsImage(data, width, height) && IsMask(mask, width, height)
  {
    Marked(mask, width, height, x, y) ==>
      var c := GetCol(data, width, height, x, y);
      c.r == r && c.g == g && c.b == b
  }

  /**
   When every resolved neighbour has the same RGB, the average is that RGB;
   in particular a pixel with a single resolved neighbour copies its colour.
   */
  lemma AverageOfUniform(data: seq<Byte>, width: nat, height: nat, mask: seq<bool>, x: int, y: int, r: Byte, g: Byte, b: Byte)
    requires IsImage(data, width, height) && IsMask(mask, width, height)
    requires HasMarkedNeighbour(mask, width, height, x, y)
    requires UnmarkedOrColoured(data, width, height, mask, x + 1, y, r, g, b)
    requires UnmarkedOrColoured(data, width, height, mask, x - 1, y, r, g, b)
    requires UnmarkedOrColoured(data, width, height, mask, x, y + 1, r, g, b)
    requires UnmarkedOrColoured(data, width, height, mask, x, y - 1, r, g, b)
    ensures Average(data, width, height, mask, x, y) == Col(r, g, b, 0)
  {
    var c1 := Contribution(data, width, height, mask, x + 1, y);
    var c2 := Contribution(data, width, height, mask, x - 1, y);
    var c3 := Contribution(data, width, height, mask, x, y + 1);
    var c4 := Contribution(data, width, height, mask, x, y - 1);
    assert UniformPart(c1, r, g, b) && UniformPart(c2, r, g, b) && UniformPart(c3, r, g, b) && UniformPart(c4, r, g, b);
    SumOfUniform(c1, c2, c3, c4, r, g, b);
    var s := NeighbourTotals(data, width, height, mask, x, y);
    assert AllCopies(s, r, g, b);
    MeanOfCopies(s.r, s.n, r);
    MeanOfCopies(s.g, s.n, g);
    MeanOfCopies(s.b, s.n, b);
  }

  /** One neighbour's contribution is nothing, or the colour (r, g, b) once. */
  predicate UniformPart(t: Totals, r: Byte, g: Byte, b: Byte)
  {
    t.n <= 1 && AllCopies(t, r, g, b)
  }

  /** Each channel sum of `s` is `s.n` copies of the matching channel of (r, g, b). */
  predicate AllCopies(s: Totals, r: Byte, g: Byte, b: Byte)
  {
    CopiesOf(s.r, s.n, r) && CopiesOf(s.g, s.n, g) && CopiesOf(s.b, s.n, b)
  }

  /** Four contributions of nothing or (r, g, b) sum to n copies of each channel. */
  lemma SumOfUniform(t1: Totals, t2: Totals, t3: Totals, t4: Totals, r: Byte, g: Byte, b: Byte)
    requires UniformPart(t1, r, g, b) && UniformPart(t2, r, g, b) && UniformPart(t3, r, g, b) && UniformPart(t4, r, g, b)
    ensures AllCopies(Plus(Plus(Plus(t1, t2), t3), t4), r, g, b)
  {
    AddUniform(t1, t2, r, g, b);
    AddUniform(Plus(t1, t2), t3, r, g, b);
    AddUniform(Plus(Plus(t1, t2), t3), t4, r, g, b);
  }

  /** Adding nothing or one more (r, g, b) to n copies gives n or n + 1 copies. */
  lemma AddUniform(s: Totals, t: Totals, r: Byte, g: Byte, b: Byte)
    requires s.n <= 3 && AllCopies(s, r, g, b) && UniformPart(t, r, g, b)
    ensures Plus(s, t).n <= s.n + 1 && AllCopies(Plus(s, t), r, g, b)
  {
  }

  /** A pixel with exactly one resolved neighbour takes that neighbour's RGB, with alpha 0. */
  lemma SingleNeighbourCopied(data: seq<Byte>, width: nat, height: nat, mask: seq<bool>, x: int, y: int, r: int)
    requires IsImage(data, width, height) && IsMask(mask, width, height) && 0 <= r < 4
    requires Marked(mask, width, height, Neighbours(x, y)[r].0, Neighbours(x, y)[r].1)
    requires forall s :: 0 <= s < 4 && s != r ==> !Marked(mask, width, height, Neighbours(x, y)[s].0, Neighbours(x, y)[s].1)
    ensures HasMarkedNeighbour(mask, width, height, x, y)
    ensures Average(data, width, height, mask, x, y)
            == GetCol(data, width, height, Neighbours(x, y)[r].0, Neighbours(x, y)[r].1).(a := 0)
  {
    var n := Neighbours(x, y)[r];
    var c := GetCol(data, width, height, n.0, n.1);
    assert !Marked(mask, width, height, Neighbours(x, y)[0].0, Neighbours(x, y)[0].1) || r == 0;
    assert !Marked(mask, width, height, Neighbours(x, y)[1].0, Neighbours(x, y)[1].1) || r == 1;
    assert !Marked(mask, width, height, Neighbours(x, y)[2].0, Neighbours(x, y)[2].1) || r == 2;
    assert !Marked(mask, width, height, Neighbours(x, y)[3].0, Neighbours(x, y)[3].1) || r == 3;
    AverageOfUniform(data, width, height, mask, x, y, c.r, c.g, c.b);
  }

  /** `v` is the sum of `n` copies of `c`, for the neighbour counts 0..4 that occur. */
  predicate CopiesOf(v: nat, n: nat, c: Byte)
  {
    n <= 4 && v == n * c
  }

  lemma MeanOfCopies(v: nat, n: nat, c: Byte)
    requires 1 <= n && CopiesOf(v, n, c)
    ensures v <= 255 * n && Mean(v, n) == c
  {
    if n == 1 {
    } else if n == 2 {
    } else if n == 3 {
    } else {
    }
  }

  /** Two images that agree on every pixel marked in `mask` give the same neighbour sums. */
  lemma TotalsDataFrame(d1: seq<Byte>, d2: seq<Byte>, width: nat, height: nat, mask: seq<bool>, x: int, y: int)
    requires IsImage(d1, width, height) && IsImage(d2, width, height) && IsMask(mask, width, height)
    requires forall x', y' :: Marked(mask, width, height, x', y') ==>
               GetCol(d1, width, height, x', y') == GetCol(d2, width, height, x', y')
    ensures NeighbourTotals(d1, width, height, mask, x, y) == NeighbourTotals(d2, width, height, mask, x, y)
  {
  }

  /** Two masks that agree on the four neighbours of (x, y) give the same neighbour sums. */
  lemma TotalsMaskFrame(data: seq<Byte>, width: nat, height: nat, m1: seq<bool>, m2: seq<bool>, x: int, y: int)
    requires IsImage(data, width, height) && IsMask(m1, width, height) && IsMask(m2, width, height)
    requires Marked(m1, width, height, x + 1, y) == Marked(m2, width, height, x + 1, y)
    requires Marked(m1, width, height, x - 1, y) == Marked(m2, width, height, x - 1, y)
    requires Marked(m1, width, height, x, y + 1) == Marked(m2, width, height, x, y + 1)
    requires Marked(m1, width, height, x, y - 1) == Marked(m2, width, height, x, y - 1)
    ensures NeighbourTotals(data, width, height, m1, x, y) == NeighbourTotals(data, width, height, m2, x, y)
  {
  }
}
