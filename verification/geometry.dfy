/** Geometry of a packed, row-major 8-bit raster: the image header fields the
    frame keeps, the byte address of a pixel, and the inverse decoding of a
    byte offset into (row, column, channel). */
module Geometry {
  import opened Arith

  /** The colour types of an 8-bit PNG image. */
  datatype ColorType = Grayscale | RGB | Indexed | GrayscaleAlpha | RGBA {

    /** Samples (bytes, at bit depth 8) stored per pixel. */
    function Samples(): (n: nat)
      ensures 1 <= n <= 4
      ensures n >= 3 <==> (this == RGB || this == RGBA)
    {
      match this
      case Grayscale => 1
      case RGB => 3
      case Indexed => 1
      case GrayscaleAlpha => 2
      case RGBA => 4
    }
  }

  /** Header of a decoded image: `lineSize` is the row stride in bytes. */
  datatype Info = Info(width: nat, height: nat, lineSize: nat, color: ColorType) {

    function Samples(): nat {
      color.Samples()
    }

    /** `height * lineSize` bytes (see `Products`). */
    function BufferSize(): nat {
      Mul(height, lineSize)
    }

    /** Every pixel holds at least the three colour bytes the copy
        primitives move, and a row's pixels fit in its stride. */
    predicate Valid() {
      && Samples() >= ColorBytes
      && lineSize >= Mul(width, Samples())
    }
  }

  /** Number of bytes each copy or swap moves per pixel. */
  const ColorBytes: nat := 3

  /** Byte offset of the first sample of pixel (row, col): the row's start
      plus the pixels before it in the row, that is
      `row * lineSize + col * Samples()` (see `Products`). */
  function PixelIndex(info: Info, row: nat, col: nat): nat {
    Mul(row, info.lineSize) + Mul(col, info.Samples())
  }

  datatype Position = Position(row: nat, col: nat, channel: nat)

  /** The pixel and channel a byte offset belongs to; padding bytes at the
      end of a row decode to a column at or past `width`. */
  function Locate(info: Info, i: nat): Position {
    if info.lineSize == 0 then Position(0, 0, 0)
    else
      var offset := Mod(i, info.lineSize);
      Position(Div(i, info.lineSize), Div(offset, info.Samples()), Mod(offset, info.Samples()))
  }

  /** Byte `i` is one of the three colour bytes of a pixel of the grid. */
  predicate IsColorByte(info: Info, i: nat) {
    && i < info.BufferSize()
    && Locate(info, i).col < info.width
    && Locate(info, i).channel < ColorBytes
  }

  /** The products in a pixel address and in the header, as multiplications. */
  lemma Products(info: Info, row: nat, col: nat)
    ensures PixelIndex(info, row, col) == row * info.lineSize + col * info.Samples()
    ensures info.BufferSize() == info.lineSize * info.height
    ensures Mul(info.width, info.Samples()) == info.width * info.Samples()
  {
    MulIsProduct(row, info.lineSize);
    MulIsProduct(col, info.Samples());
    MulIsProduct(info.height, info.lineSize);
    MulIsProduct(info.width, info.Samples());
  }

  /** Byte `i` is one of the three colour bytes of pixel (row, col). */
  predicate InWindow(info: Info, row: nat, col: nat, i: nat) {
    PixelIndex(info, row, col) <= i < PixelIndex(info, row, col) + ColorBytes
  }

  /** The whole pixel at (row, col) lies inside the buffer. */
  lemma PixelIndexInBounds(info: Info, row: nat, col: nat)
    requires info.Valid()
    requires row < info.height && col < info.width
    ensures PixelIndex(info, row, col) + info.Samples() <= info.BufferSize()
    ensures PixelIndex(info, row, col) + ColorBytes <= info.BufferSize()
  {
    var s, ls := info.Samples(), info.lineSize;
    assert Mul(col + 1, s) <= Mul(info.width, s) by {
      MulIsProduct(col + 1, s);
      MulIsProduct(info.width, s);
      MulLeRight(col + 1, info.width, s);
    }
    assert Mul(row + 1, ls) <= Mul(info.height, ls) by {
      MulIsProduct(row + 1, ls);
      MulIsProduct(info.height, ls);
      MulLeRight(row + 1, info.height, ls);
    }
  }

  /** Byte `k` of pixel (row, col) decodes back to (row, col, k). */
  lemma LocatePixelIndex(info: Info, row: nat, col: nat, k: nat)
    requires info.Valid()
    requires col < info.width && k < info.Samples()
    ensures info.lineSize > 0
    ensures Locate(info, PixelIndex(info, row, col) + k) == Position(row, col, k)
  {
    var s := info.Samples();
    Products(info, row, col);
    MulLeRight(col + 1, info.width, s);
    var offset := col * s + k;
    assert offset < info.lineSize;
    DivModUnique(PixelIndex(info, row, col) + k, info.lineSize, row, offset);
    DivModUnique(offset, s, col, k);
  }

  /** Every colour byte is byte `channel` of the in-grid pixel it decodes to. */
  lemma LocateColorByte(info: Info, i: nat)
    requires info.Valid()
    requires IsColorByte(info, i)
    ensures Locate(info, i).row < info.height
    ensures i == PixelIndex(info, Locate(info, i).row, Locate(info, i).col) + Locate(info, i).channel
  {
    var s := info.Samples();
    Products(info, Div(i, info.lineSize), Div(Mod(i, info.lineSize), s));
    DivMod(i, info.lineSize);
    DivMod(Mod(i, info.lineSize), s);
    DivBelow(i, info.lineSize, info.height);
  }

  /** The three-byte window of pixel (row, col) is exactly the set of colour
      bytes that decode to (row, col). */
  lemma PixelWindow(info: Info, row: nat, col: nat, i: nat)
    requires info.Valid()
    requires row < info.height && col < info.width
    ensures InWindow(info, row, col, i) <==> IsColorByte(info, i) && Locate(info, i).row == row && Locate(info, i).col == col
  {
    var p := PixelIndex(info, row, col);
    if p <= i < p + ColorBytes {
      LocatePixelIndex(info, row, col, i - p);
      PixelIndexInBounds(info, row, col);
    }
    if IsColorByte(info, i) && Locate(info, i).row == row && Locate(info, i).col == col {
      LocateColorByte(info, i);
    }
  }

  /** Distinct pixels of the grid start at least `Samples()` bytes apart, so
      their windows never overlap. */
  lemma PixelWindowsDisjoint(info: Info, r1: nat, c1: nat, r2: nat, c2: nat)
    requires info.Valid()
    requires r1 < info.height && c1 < info.width
    requires r2 < info.height && c2 < info.width
    requires (r1, c1) != (r2, c2)
    ensures PixelIndex(info, r1, c1) + info.Samples() <= PixelIndex(info, r2, c2)
         || PixelIndex(info, r2, c2) + info.Samples() <= PixelIndex(info, r1, c1)
  {
    var p1, p2 := PixelIndex(info, r1, c1), PixelIndex(info, r2, c2);
    if p1 <= p2 < p1 + info.Samples() {
      LocatePixelIndex(info, r1, c1, p2 - p1);
      LocatePixelIndex(info, r2, c2, 0);
      assert false;
    } else if p2 <= p1 < p2 + info.Samples() {
      LocatePixelIndex(info, r2, c2, p1 - p2);
      LocatePixelIndex(info, r1, c1, 0);
      assert false;
    }
  }

  /** Byte `i` belongs to no pixel window of the grid: it is row padding or
      a sample past the third of its pixel. */
  predicate OutsideGrid(info: Info, i: nat) {
    forall r: nat, c: nat :: r < info.height && c < info.width ==> !InWindow(info, r, c, i)
  }

  /** The pixel windows of the grid cover exactly the colour bytes. */
  lemma ColorByteInGrid(info: Info, i: nat)
    requires info.Valid() && i < info.BufferSize()
    ensures IsColorByte(info, i) <==> !OutsideGrid(info, i)
  {
    if IsColorByte(info, i) {
      LocateColorByte(info, i);
      PixelWindow(info, Locate(info, i).row, Locate(info, i).col, i);
    }
    if !OutsideGrid(info, i) {
      var r: nat, c: nat :| r < info.height && c < info.width && InWindow(info, r, c, i);
      PixelWindow(info, r, c, i);
    }
  }
}
