/**
 The make-opaque pass of `process_file`: every pixel whose alpha is at most
 the threshold gets alpha 255; every other byte is left as it was.
 */
module Opacity {
  import opened Grid

  /** One pixel after the pass: alpha raised to 255 when it is at most the threshold. */
  function Opaqued(c: Col, threshold: int): Col
  {
    if c.a <= threshold then c.(a := 255) else c
  }

  /**
   The pass stated byte by byte: byte `i` is an alpha byte exactly when
   `i % 4 == 3`, and only alpha bytes at or below the threshold change.
   */
  function NormaliseBytes(data: seq<Byte>, threshold: int): (r: seq<Byte>)
    ensures |r| == |data|
  {
    seq(|data|, i requires 0 <= i < |data| => if i % 4 == 3 && data[i] <= threshold then 255 else data[i])
  }

  /** The byte-level and the pixel-level descriptions of the pass agree. */
  lemma NormaliseBytesPixel(data: seq<Byte>, width: nat, height: nat, threshold: int, x: int, y: int)
    requires IsImage(data, width, height) && InBounds(width, height, x, y)
    ensures IsImage(NormaliseBytes(data, threshold), width, height)
    ensures GetCol(NormaliseBytes(data, threshold), width, height, x, y) == Opaqued(GetCol(data, width, height, x, y), threshold)
  {
  }

  /** Running the pass a second time changes nothing, whatever the threshold. */
  lemma {:induction false} NormaliseIdempotent(data: seq<Byte>, threshold: int)
    ensures NormaliseBytes(NormaliseBytes(data, threshold), threshold) == NormaliseBytes(data, threshold)
  {
    var once := NormaliseBytes(data, threshold);
    forall i | 0 <= i < |once|
      ensures NormaliseBytes(once, threshold)[i] == once[i]
    {
      if i % 4 == 3 && once[i] <= threshold {
        assert once[i] == 255;
      }
    }
  }

  /** After the pass the alpha of (x, y) is at most the threshold only if the threshold is at least 255. */
  lemma NormalisedAlpha(data: seq<Byte>, width: nat, height: nat, threshold: int, x: int, y: int)
    requires IsImage(data, width, height) && InBounds(width, height, x, y)
    ensures IsImage(NormaliseBytes(data, threshold), width, height)
    ensures var a := GetCol(NormaliseBytes(data, threshold), width, height, x, y).a;
      a > threshold || a == 255
  {
    NormaliseBytesPixel(data, width, height, threshold, x, y);
  }

  /** One row of the pass (main.c lines 167-172). */
  method NormaliseRow(data: seq<Byte>, width: nat, height: nat, threshold: int, y: int, cur: seq<Byte>) returns (out: seq<Byte>)
    requires IsImage(data, width, height) && IsImage(cur, width, height) && 0 <= y < height
    requires forall x', y' :: InBounds(width, height, x', y') ==>
               GetCol(cur, width, height, x', y')
               == if Before(x', y', 0, y) then Opaqued(GetCol(data, width, height, x', y'), threshold) else GetCol(data, width, height, x', y')
    ensures IsImage(out, width, height)
    ensures forall x', y' :: InBounds(width, height, x', y') ==>
              GetCol(out, width, height, x', y')
              == if Before(x', y', 0, y + 1) then Opaqued(GetCol(data, width, height, x', y'), threshold) else GetCol(data, width, height, x', y')
  {
    out := cur;
    var x := 0;
    while x < width
      invariant 0 <= x <= width && IsImage(out, width, height)
      invariant forall x', y' :: InBounds(width, height, x', y') ==>
                  GetCol(out, width, height, x', y')
                  == if Before(x', y', x, y) then Opaqued(GetCol(data, width, height, x', y'), threshold) else GetCol(data, width, height, x', y')
    {
      var col := GetCol(out, width, height, x, y);
      if col.a <= threshold {
        SetColFrame(out, width, height, x, y, col.(a := 255));
        out := SetCol(out, width, height, x, y, col.(a := 255));
      }
      x := x + 1;
    }
  }

  /**
   The make-opaque pass (main.c lines 165-174): the result is the byte-level
   normalisation, so pixel (x, y) keeps its RGB and gets alpha 255 exactly
   when its alpha was at most the threshold.
   */
  method MakeOpaque(data: seq<Byte>, width: nat, height: nat, threshold: int) returns (out: seq<Byte>)
    requires IsImage(data, width, height)
    ensures IsImage(out, width, height)
    ensures out == NormaliseBytes(data, threshold)
    ensures forall x, y :: InBounds(width, height, x, y) ==>
              var before, after := GetCol(data, width, height, x, y), GetCol(out, width, height, x, y);
              after.r == before.r && after.g == before.g && after.b == before.b
              && after.a == (if before.a <= threshold then 255 else before.a)
  {
    out := data;
    var y := 0;
    while y < height
      invariant 0 <= y <= height && IsImage(out, width, height)
      invariant forall x', y' :: InBounds(width, height, x', y') ==>
                  GetCol(out, width, height, x', y')
                  == if Before(x', y', 0, y) then Opaqued(GetCol(data, width, height, x', y'), threshold) else GetCol(data, width, height, x', y')
    {
      out := NormaliseRow(data, width, height, threshold, y, out);
      y := y + 1;
    }
    forall x, y | InBounds(width, height, x, y)
      ensures GetCol(out, width, height, x, y) == GetCol(NormaliseBytes(data, threshold), width, height, x, y)
    {
      NormaliseBytesPixel(data, width, height, threshold, x, y);
    }
    ImageExtensional(out, NormaliseBytes(data, threshold), width, height);
  }
}
