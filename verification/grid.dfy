/**
 The decoded image: a flat row-major buffer of RGBA bytes, four per pixel,
 addressed through `get_col`, plus the index arithmetic of the `visited` mask
 that has one entry per pixel.
 */
module Grid {

  /** One 8-bit channel value (`unsigned char`). */
  type Byte = b: int | 0 <= b < 256

  /** The four channels of a pixel, in buffer order. */
  datatype Channel = R | G | B | A

  function ChannelOffset(c: Channel): (k: nat)
    ensures k < 4
    ensures c == R <==> k == 0
    ensures c == A <==> k == 3
  {
    match c
    case R => 0
    case G => 1
    case B => 2
    case A => 3
  }

  /** A snapshot of the four bytes of one pixel. */
  datatype Col = Col(r: Byte, g: Byte, b: Byte, a: Byte)

  predicate InBounds(width: int, height: int, x: int, y: int)
  {
    0 <= x < width && 0 <= y < height
  }

  /** A decoded 4-channel image of the given dimensions. */
  predicate IsImage(data: seq<Byte>, width: nat, height: nat)
  {
    |data| == width * height * 4
  }

  /** Multiplication by a non-negative factor is monotone. */
  lemma MulMonotone(a: int, b: int, c: nat)
    requires a <= b
    ensures a * c <= b * c
  {
    assert b * c - a * c == (b - a) * c;
  }

  lemma RowBound(width: nat, height: nat, x: int, y: int)
    requires InBounds(width, height, x, y)
    ensures 0 <= y * width + x < width * height
  {
    MulMonotone(0, y, width);
    MulMonotone(y + 1, height, width);
    assert (y + 1) * width == y * width + width;
  }

  /**
   Position of pixel (x, y) in the per-pixel `visited` mask, `y * width + x`
   (main.c line 67). It is defined by recursion over rows rather than as the
   product so that proofs using it need no nonlinear arithmetic;
   `CellIndexIsRowMajor` proves that it is the product.
   */
  function CellIndex(width: nat, height: nat, x: int, y: int): (i: nat)
    requires InBounds(width, height, x, y)
    ensures i < width * height
    decreases y, 0
  {
    if y == 0 then
      RowBound(width, height, x, y);
      x
    else
      CellIndexIsRowMajor(width, height, x, y - 1);
      RowBound(width, height, x, y);
      assert y * width == (y - 1) * width + width;
      CellIndex(width, height, x, y - 1) + width
  }

  /** `CellIndex` is the row-major offset `y * width + x` that `get_col` and `visited` use. */
  lemma {:induction false} CellIndexIsRowMajor(width: nat, height: nat, x: int, y: int)
    requires InBounds(width, height, x, y)
    ensures CellIndex(width, height, x, y) == y * width + x
    decreases y, 1
  {
    if y > 0 {
      CellIndexIsRowMajor(width, height, x, y - 1);
      assert y * width == (y - 1) * width + width;
    }
  }

  /** The mask position of (x, y) decodes back to (x, y). */
  lemma CellIndexDecode(width: nat, height: nat, x: int, y: int)
    requires InBounds(width, height, x, y)
    ensures CellIndex(width, height, x, y) % width == x
    ensures CellIndex(width, height, x, y) / width == y
  {
    CellIndexIsRowMajor(width, height, x, y);
    DivModOfRow(width, x, y);
  }

  /** Euclidean division recovers the row and column of a row-major index. */
  lemma DivModOfRow(width: nat, x: int, y: int)
    requires 0 <= x < width && 0 <= y
    ensures (y * width + x) % width == x
    ensures (y * width + x) / width == y
  {
    var i := y * width + x;
    var q, r := i / width, i % width;
    assert (y - q) * width == r - x;
    SmallMultiple(y - q, width);
  }

  /** The only multiple of `w` strictly between `-w` and `w` is zero. */
  lemma SmallMultiple(k: int, w: nat)
    requires 0 < w + k * w && k * w < w
    ensures k == 0
  {
    if k >= 1 {
      MulMonotone(1, k, w);
    } else if k <= -1 {
      MulMonotone(k, -1, w);
    }
  }

  /** Distinct in-bounds pixels have distinct mask positions. */
  lemma CellIndexInjective(width: nat, height: nat, x: int, y: int, x': int, y': int)
    requires InBounds(width, height, x, y) && InBounds(width, height, x', y')
    ensures CellIndex(width, height, x, y) == CellIndex(width, height, x', y') <==> x == x' && y == y'
  {
    CellIndexDecode(width, height, x, y);
    CellIndexDecode(width, height, x', y');
  }

  /** Every mask position belongs to exactly one in-bounds pixel. */
  lemma CellIndexOnto(width: nat, height: nat, i: int) returns (x: int, y: int)
    requires 0 <= i < width * height
    ensures InBounds(width, height, x, y)
    ensures CellIndex(width, height, x, y) == i
  {
    assert width > 0;
    x, y := i % width, i / width;
    assert i == y * width + x;
    if y >= height {
      MulMonotone(height, y, width);
    }
    if y < 0 {
      MulMonotone(y, -1, width);
    }
    CellIndexIsRowMajor(width, height, x, y);
  }

  /**
   Byte offset of channel `c` of pixel (x, y): `get_col` returns the address
   `(y * width + x) * 4` and the channel is an offset 0..3 from it.
   */
  function ByteIndex(width: nat, height: nat, x: int, y: int, c: Channel): (i: nat)
    requires InBounds(width, height, x, y)
    ensures i < width * height * 4
  {
    CellIndex(width, height, x, y) * 4 + ChannelOffset(c)
  }

  /** `ByteIndex` is the address `get_col` computes, `(y * width + x) * 4`, plus the channel offset. */
  lemma ByteIndexIsRowMajor(width: nat, height: nat, x: int, y: int, c: Channel)
    requires InBounds(width, height, x, y)
    ensures ByteIndex(width, height, x, y, c) == (y * width + x) * 4 + ChannelOffset(c)
  {
    CellIndexIsRowMajor(width, height, x, y);
  }

  /** Reads the four channels of pixel (x, y). */
  function GetCol(data: seq<Byte>, width: nat, height: nat, x: int, y: int): Col
    requires IsImage(data, width, height) && InBounds(width, height, x, y)
  {
    Col(data[ByteIndex(width, height, x, y, R)], data[ByteIndex(width, height, x, y, G)],
        data[ByteIndex(width, height, x, y, B)], data[ByteIndex(width, height, x, y, A)])
  }

  /** Writes the four channels of pixel (x, y); no other byte changes. */
  function SetCol(data: seq<Byte>, width: nat, height: nat, x: int, y: int, col: Col): (r: seq<Byte>)
    requires IsImage(data, width, height) && InBounds(width, height, x, y)
    ensures IsImage(r, width, height)
    ensures GetCol(r, width, height, x, y) == col
    ensures forall i :: 0 <= i < |data| && i / 4 != CellIndex(width, height, x, y) ==> r[i] == data[i]
  {
    data[ByteIndex(width, height, x, y, R) := col.r]
        [ByteIndex(width, height, x, y, G) := col.g]
        [ByteIndex(width, height, x, y, B) := col.b]
        [ByteIndex(width, height, x, y, A) := col.a]
  }

  /** Writing one pixel leaves every other pixel as it was. */
  lemma SetColOther(data: seq<Byte>, width: nat, height: nat, x: int, y: int, col: Col, x': int, y': int)
    requires IsImage(data, width, height) && InBounds(width, height, x, y) && InBounds(width, height, x', y')
    requires x != x' || y != y'
    ensures GetCol(SetCol(data, width, height, x, y, col), width, height, x', y') == GetCol(data, width, height, x', y')
  {
    CellIndexInjective(width, height, x, y, x', y');
  }

  /** `SetColOther` for every other pixel at once. */
  lemma SetColFrame(data: seq<Byte>, width: nat, height: nat, x: int, y: int, col: Col)
    requires IsImage(data, width, height) && InBounds(width, height, x, y)
    ensures forall x', y' :: InBounds(width, height, x', y') && (x' != x || y' != y) ==>
              GetCol(SetCol(data, width, height, x, y, col), width, height, x', y') == GetCol(data, width, height, x', y')
  {
    forall x', y' | InBounds(width, height, x', y') && (x' != x || y' != y)
      ensures GetCol(SetCol(data, width, height, x, y, col), width, height, x', y') == GetCol(data, width, height, x', y')
    {
      SetColOther(data, width, height, x, y, col, x', y');
    }
  }

  /** (x', y') precedes (x, y) in the row-major order of the `for y` / `for x` scans. */
  predicate Before(x': int, y': int, x: int, y: int)
  {
    y' < y || (y' == y && x' < x)
  }

  /** Two images of the same dimensions are equal when every pixel reads the same. */
  lemma ImageExtensional(d1: seq<Byte>, d2: seq<Byte>, width: nat, height: nat)
    requires IsImage(d1, width, height) && IsImage(d2, width, height)
    requires forall x, y :: InBounds(width, height, x, y) ==> GetCol(d1, width, height, x, y) == GetCol(d2, width, height, x, y)
    ensures d1 == d2
  {
    forall i | 0 <= i < |d1|
      ensures d1[i] == d2[i]
    {
      var x, y := CellIndexOnto(width, height, i / 4);
      assert GetCol(d1, width, height, x, y) == GetCol(d2, width, height, x, y);
      var c := if i % 4 == 0 then R else if i % 4 == 1 then G else if i % 4 == 2 then B else A;
      assert i == ByteIndex(width, height, x, y, c);
    }
  }

  /**
   The four axis neighbours of (x, y) in the order the recolouring pass visits
   them: x+1, x-1, y+1, y-1. Some may lie outside the image.
   */
  function Neighbours(x: int, y: int): seq<(int, int)>
  {
    [(x + 1, y), (x - 1, y), (x, y + 1), (x, y - 1)]
  }
}
