/** The packed frame buffer and its pixel-copy and pixel-swap primitives.
    A buffer is a value: each mutating primitive takes the destination frame
    and returns it with the writes applied, in the order the loops make them. */
module Frames {
  import opened Geometry

  datatype Frame = Frame(info: Info, pixels: seq<bv8>) {

    predicate Valid() {
      info.Valid() && |pixels| == info.BufferSize()
    }
  }

  /** A zero-filled frame with the given header. */
  function NewFrame(info: Info): (f: Frame)
    ensures f.info == info
    ensures |f.pixels| == info.BufferSize()
    ensures forall i :: 0 <= i < |f.pixels| ==> f.pixels[i] == 0
    ensures info.Valid() ==> f.Valid()
  {
    Frame(info, seq(info.BufferSize(), _ => 0))
  }

  // ---------------------------------------------------------------------
  // Reference definitions, byte by byte

  /** `dst` with the colour bytes of row `row` taken from `src`. */
  function RowCopied(info: Info, dst: seq<bv8>, src: seq<bv8>, row: nat): seq<bv8>
    requires |src| == |dst|
  {
    seq(|dst|, i requires 0 <= i < |dst| =>
      if IsColorByte(info, i) && Locate(info, i).row == row then src[i] else dst[i])
  }

  /** `dst` with the colour bytes of column `col` taken from `src`. */
  function ColCopied(info: Info, dst: seq<bv8>, src: seq<bv8>, col: nat): seq<bv8>
    requires |src| == |dst|
  {
    seq(|dst|, i requires 0 <= i < |dst| =>
      if IsColorByte(info, i) && Locate(info, i).col == col then src[i] else dst[i])
  }

  /** The same channel of the vertically mirrored pixel. */
  function FlipIndex(info: Info, i: nat): (j: nat)
    requires info.Valid() && IsColorByte(info, i)
    ensures IsColorByte(info, j)
    ensures Locate(info, i).row < info.height
    ensures Locate(info, j)
         == Position(info.height - 1 - Locate(info, i).row, Locate(info, i).col, Locate(info, i).channel)
  {
    var p := Locate(info, i);
    LocateColorByte(info, i);
    var mirror := info.height - 1 - p.row;
    LocatePixelIndex(info, mirror, p.col, p.channel);
    PixelIndexInBounds(info, mirror, p.col);
    PixelIndex(info, mirror, p.col) + p.channel
  }

  /** The buffer flipped upside down; padding bytes and any alpha bytes
      stay where they are. */
  function Flip(info: Info, pixels: seq<bv8>): seq<bv8>
    requires info.Valid() && |pixels| == info.BufferSize()
  {
    seq(|pixels|, i requires 0 <= i < |pixels| =>
      if IsColorByte(info, i) then pixels[FlipIndex(info, i)] else pixels[i])
  }

  // ---------------------------------------------------------------------
  // The primitives

  /** Copies the three colour bytes of every pixel of row `row` from `src`,
      one pixel at a time. */
  method CopyRow(dst: Frame, src: Frame, row: nat) returns (r: Frame)
    requires dst.Valid() && src.Valid() && src.info == dst.info
    requires dst.info.width > 0 ==> row < dst.info.height
    ensures r.info == dst.info
    ensures r.pixels == RowCopied(dst.info, dst.pixels, src.pixels, row)
  {
    var info := dst.info;
    var pixels := dst.pixels;
    for col := 0 to info.width
      invariant |pixels| == |dst.pixels|
      invariant forall i :: 0 <= i < |pixels| ==>
        pixels[i] == if IsColorByte(info, i) && Locate(info, i).row == row && Locate(info, i).col < col
                     then src.pixels[i] else dst.pixels[i]
    {
      PixelIndexInBounds(info, row, col);
      var dstIndex := PixelIndex(info, row, col);
      var srcIndex := PixelIndex(src.info, row, col);
      pixels := pixels[dstIndex + 0 := src.pixels[srcIndex + 0]];
      pixels := pixels[dstIndex + 1 := src.pixels[srcIndex + 1]];
      pixels := pixels[dstIndex + 2 := src.pixels[srcIndex + 2]];
      forall i | 0 <= i < |pixels|
        ensures pixels[i] == if IsColorByte(info, i) && Locate(info, i).row == row && Locate(info, i).col < col + 1
                             then src.pixels[i] else dst.pixels[i]
      {
        PixelWindow(info, row, col, i);
      }
    }
    r := Frame(info, pixels);
  }

  /** Copies the three colour bytes of every pixel of column `col` from
      `src`, one pixel at a time. */
  method CopyCol(dst: Frame, src: Frame, col: nat) returns (r: Frame)
    requires dst.Valid() && src.Valid() && src.info == dst.info
    requires dst.info.height > 0 ==> col < dst.info.width
    ensures r.info == dst.info
    ensures r.pixels == ColCopied(dst.info, dst.pixels, src.pixels, col)
  {
    var info := dst.info;
    var pixels := dst.pixels;
    for row := 0 to info.height
      invariant |pixels| == |dst.pixels|
      invariant forall i :: 0 <= i < |pixels| ==>
        pixels[i] == if IsColorByte(info, i) && Locate(info, i).col == col && Locate(info, i).row < row
                     then src.pixels[i] else dst.pixels[i]
    {
      PixelIndexInBounds(info, row, col);
      var dstIndex := PixelIndex(info, row, col);
      var srcIndex := PixelIndex(src.info, row, col);
      pixels := pixels[dstIndex + 0 := src.pixels[srcIndex + 0]];
      pixels := pixels[dstIndex + 1 := src.pixels[srcIndex + 1]];
      pixels := pixels[dstIndex + 2 := src.pixels[srcIndex + 2]];
      forall i | 0 <= i < |pixels|
        ensures pixels[i] == if IsColorByte(info, i) && Locate(info, i).col == col && Locate(info, i).row < row + 1
                             then src.pixels[i] else dst.pixels[i]
      {
        PixelWindow(info, row, col, i);
      }
    }
    forall i | 0 <= i < |pixels| && IsColorByte(info, i)
      ensures Locate(info, i).row < info.height
    {
      LocateColorByte(info, i);
    }
    r := Frame(info, pixels);
  }

  /** Exchanges two bytes of a buffer. */
  function Swap(pixels: seq<bv8>, a: nat, b: nat): (r: seq<bv8>)
    requires a < |pixels| && b < |pixels|
    ensures |r| == |pixels|
  {
    pixels[a := pixels[b]][b := pixels[a]]
  }

  /** The buffer with the colour bytes at `a` and at `b` exchanged. */
  function SwapColor(pixels: seq<bv8>, a: nat, b: nat): seq<bv8>
    requires a + ColorBytes <= |pixels| && b + ColorBytes <= |pixels|
  {
    seq(|pixels|, i requires 0 <= i < |pixels| =>
      if a <= i < a + ColorBytes then pixels[b + (i - a)]
      else if b <= i < b + ColorBytes then pixels[a + (i - b)]
      else pixels[i])
  }

  /** Three byte swaps of non-overlapping windows exchange the windows. */
  lemma SwapThree(pixels: seq<bv8>, a: nat, b: nat)
    requires a + ColorBytes <= |pixels| && b + ColorBytes <= |pixels|
    requires a + ColorBytes <= b || b + ColorBytes <= a
    ensures Swap(Swap(Swap(pixels, a + 0, b + 0), a + 1, b + 1), a + 2, b + 2) == SwapColor(pixels, a, b)
  {
  }

  /** Pixel `p` has been exchanged with its mirror once the swap loops have
      reached row `row`, column `col`. */
  predicate Swapped(info: Info, p: Position, row: nat, col: nat) {
    || p.row < row
    || (p.row == row && p.col < col)
    || info.height - 1 - p.row < row
    || (info.height - 1 - p.row == row && p.col < col)
  }

  /** Byte `i` of `orig` once the pixels swapped so far have been exchanged
      with their mirrors. */
  function RotatedByte(info: Info, orig: seq<bv8>, row: nat, col: nat, i: nat): bv8
    requires info.Valid() && |orig| == info.BufferSize() && i < |orig|
  {
    if IsColorByte(info, i) && Swapped(info, Locate(info, i), row, col)
    then orig[FlipIndex(info, i)] else orig[i]
  }

  /** `pixels` is `orig` with every pixel swapped so far exchanged with its
      mirror, and nothing else changed. */
  predicate RotatedUpTo(info: Info, orig: seq<bv8>, pixels: seq<bv8>, row: nat, col: nat)
    requires info.Valid() && |orig| == info.BufferSize()
  {
    && |pixels| == |orig|
    && forall i :: 0 <= i < |pixels| ==> pixels[i] == RotatedByte(info, orig, row, col, i)
  }

  /** A byte of the upper pixel (row, col) receives the original byte of
      its mirror, which has not been touched yet. */
  lemma SwapStepUpper(info: Info, orig: seq<bv8>, pixels: seq<bv8>, row: nat, col: nat, k: nat)
    requires info.Valid() && |orig| == info.BufferSize()
    requires row < info.height / 2 && col < info.width && k < ColorBytes
    requires RotatedUpTo(info, orig, pixels, row, col)
    ensures PixelIndex(info, row, col) + k < |orig|
    ensures PixelIndex(info, info.height - row - 1, col) + k < |orig|
    ensures pixels[PixelIndex(info, info.height - row - 1, col) + k]
         == RotatedByte(info, orig, row, col + 1, PixelIndex(info, row, col) + k)
  {
    var mirror := info.height - row - 1;
    var i, j := PixelIndex(info, row, col) + k, PixelIndex(info, mirror, col) + k;
    PixelIndexInBounds(info, row, col);
    PixelIndexInBounds(info, mirror, col);
    LocatePixelIndex(info, row, col, k);
    LocatePixelIndex(info, mirror, col, k);
    assert pixels[j] == RotatedByte(info, orig, row, col, j);
  }

  /** A byte of the lower pixel (h - 1 - row, col) receives the original byte
      of its mirror, which has not been touched yet. */
  lemma SwapStepLower(info: Info, orig: seq<bv8>, pixels: seq<bv8>, row: nat, col: nat, k: nat)
    requires info.Valid() && |orig| == info.BufferSize()
    requires row < info.height / 2 && col < info.width && k < ColorBytes
    requires RotatedUpTo(info, orig, pixels, row, col)
    ensures PixelIndex(info, row, col) + k < |orig|
    ensures PixelIndex(info, info.height - row - 1, col) + k < |orig|
    ensures pixels[PixelIndex(info, row, col) + k]
         == RotatedByte(info, orig, row, col + 1, PixelIndex(info, info.height - row - 1, col) + k)
  {
    var mirror := info.height - row - 1;
    var i, j := PixelIndex(info, row, col) + k, PixelIndex(info, mirror, col) + k;
    PixelIndexInBounds(info, row, col);
    PixelIndexInBounds(info, mirror, col);
    LocatePixelIndex(info, row, col, k);
    LocatePixelIndex(info, mirror, col, k);
    assert pixels[i] == RotatedByte(info, orig, row, col, i);
  }

  /** Bytes outside the two exchanged windows keep their state. */
  lemma SwapStepOther(info: Info, orig: seq<bv8>, pixels: seq<bv8>, row: nat, col: nat, i: nat)
    requires info.Valid() && |orig| == info.BufferSize()
    requires row < info.height / 2 && col < info.width && i < |orig|
    requires !InWindow(info, row, col, i) && !InWindow(info, info.height - row - 1, col, i)
    ensures RotatedByte(info, orig, row, col, i) == RotatedByte(info, orig, row, col + 1, i)
  {
    PixelWindow(info, row, col, i);
    PixelWindow(info, info.height - row - 1, col, i);
  }

  /** One step of the inner swap loop: exchanging the colour bytes of
      (row, col) and (h - 1 - row, col) extends the swapped region by one. */
  lemma SwapPixelStep(info: Info, orig: seq<bv8>, pixels: seq<bv8>, row: nat, col: nat)
    requires info.Valid() && |orig| == info.BufferSize()
    requires row < info.height / 2 && col < info.width
    requires RotatedUpTo(info, orig, pixels, row, col)
    ensures PixelIndex(info, row, col) + ColorBytes <= |pixels|
    ensures PixelIndex(info, info.height - row - 1, col) + ColorBytes <= |pixels|
    ensures
      RotatedUpTo(info, orig, SwapColor(pixels, PixelIndex(info, row, col), PixelIndex(info, info.height - row - 1, col)), row, col + 1)
  {
    var mirror := info.height - row - 1;
    PixelIndexInBounds(info, row, col);
    PixelIndexInBounds(info, mirror, col);
    PixelWindowsDisjoint(info, row, col, mirror, col);
    var index, oindex := PixelIndex(info, row, col), PixelIndex(info, mirror, col);
    var out := SwapColor(pixels, index, oindex);
    forall i | 0 <= i < |out|
      ensures out[i] == RotatedByte(info, orig, row, col + 1, i)
    {
      if index <= i < index + ColorBytes {
        SwapStepUpper(info, orig, pixels, row, col, i - index);
      } else if oindex <= i < oindex + ColorBytes {
        SwapStepLower(info, orig, pixels, row, col, i - oindex);
      } else {
        SwapStepOther(info, orig, pixels, row, col, i);
      }
    }
    assert RotatedUpTo(info, orig, out, row, col + 1);
  }

  /** Once the top half has been swapped, the buffer is the flipped original:
      the only pixels never swapped form the middle row of an odd height,
      which is its own mirror. */
  lemma RotatedAll(info: Info, orig: seq<bv8>, pixels: seq<bv8>)
    requires info.Valid() && |orig| == info.BufferSize()
    requires RotatedUpTo(info, orig, pixels, info.height / 2, 0)
    ensures pixels == Flip(info, orig)
  {
    var flipped := Flip(info, orig);
    forall i | 0 <= i < |pixels|
      ensures pixels[i] == flipped[i]
    {
      assert pixels[i] == RotatedByte(info, orig, info.height / 2, 0, i);
      if IsColorByte(info, i) && !Swapped(info, Locate(info, i), info.height / 2, 0) {
        LocateColorByte(info, i);
        assert FlipIndex(info, i) == i;
      }
    }
  }

  /** Flips an RGB frame upside down by swapping each pixel of the top half
      with its mirror in the bottom half. */
  method Rotate(f: Frame) returns (r: Frame)
    requires f.Valid() && f.info.color == RGB
    ensures r.info == f.info
    ensures r.pixels == Flip(f.info, f.pixels)
  {
    var info := f.info;
    var w := info.width;
    var h := info.height;
    var pixels := f.pixels;
    for row := 0 to h / 2
      invariant RotatedUpTo(info, f.pixels, pixels, row, 0)
    {
      for col := 0 to w
        invariant RotatedUpTo(info, f.pixels, pixels, row, col)
      {
        SwapPixelStep(info, f.pixels, pixels, row, col);
        PixelWindowsDisjoint(info, row, col, h - row - 1, col);
        var index := PixelIndex(info, row, col);
        var oindex := PixelIndex(info, h - row - 1, col);
        SwapThree(pixels, index, oindex);
        pixels := Swap(pixels, index + 0, oindex + 0);
        pixels := Swap(pixels, index + 1, oindex + 1);
        pixels := Swap(pixels, index + 2, oindex + 2);
      }
      assert RotatedUpTo(info, f.pixels, pixels, row + 1, 0);
    }
    RotatedAll(info, f.pixels, pixels);
    r := Frame(info, pixels);
  }

  // ---------------------------------------------------------------------
  // Properties stated pixel by pixel

  /** The three colour bytes of pixel (row, col). */
  function PixelAt(info: Info, pixels: seq<bv8>, row: nat, col: nat): (rgb: seq<bv8>)
    requires info.Valid() && |pixels| == info.BufferSize()
    requires row < info.height && col < info.width
    ensures |rgb| == ColorBytes
  {
    PixelIndexInBounds(info, row, col);
    var p := PixelIndex(info, row, col);
    [pixels[p + 0], pixels[p + 1], pixels[p + 2]]
  }

  /** Byte `i` belongs to no pixel window of row `row`. */
  predicate OutsideRow(info: Info, row: nat, i: nat) {
    forall c: nat :: c < info.width ==> !InWindow(info, row, c, i)
  }

  /** Byte `i` belongs to no pixel window of column `col`. */
  predicate OutsideCol(info: Info, col: nat, i: nat) {
    forall r: nat :: r < info.height ==> !InWindow(info, r, col, i)
  }

  /** After copying row `row`, each of its pixels carries the source's colour
      bytes, and every byte outside the row's pixel windows keeps its old value. */
  lemma RowCopiedPixel(info: Info, dst: seq<bv8>, src: seq<bv8>, row: nat)
    requires info.Valid() && |dst| == info.BufferSize() && |src| == |dst|
    requires row < info.height
    ensures forall c: nat :: c < info.width ==>
      PixelAt(info, RowCopied(info, dst, src, row), row, c) == PixelAt(info, src, row, c)
    ensures forall i :: 0 <= i < |dst| && OutsideRow(info, row, i) ==> RowCopied(info, dst, src, row)[i] == dst[i]
  {
    var out := RowCopied(info, dst, src, row);
    forall c: nat | c < info.width
      ensures PixelAt(info, out, row, c) == PixelAt(info, src, row, c)
    {
      PixelIndexInBounds(info, row, c);
      var p := PixelIndex(info, row, c);
      PixelWindow(info, row, c, p + 0);
      PixelWindow(info, row, c, p + 1);
      PixelWindow(info, row, c, p + 2);
    }
    forall i | 0 <= i < |dst| && IsColorByte(info, i) && Locate(info, i).row == row
      ensures Locate(info, i).col < info.width && InWindow(info, row, Locate(info, i).col, i)
    {
      LocateColorByte(info, i);
      PixelWindow(info, row, Locate(info, i).col, i);
    }
  }

  /** After copying column `col`, each of its pixels carries the source's
      colour bytes, and every byte outside the column's pixel windows keeps its
      old value. */
  lemma ColCopiedPixel(info: Info, dst: seq<bv8>, src: seq<bv8>, col: nat)
    requires info.Valid() && |dst| == info.BufferSize() && |src| == |dst|
    requires col < info.width
    ensures forall r: nat :: r < info.height ==>
      PixelAt(info, ColCopied(info, dst, src, col), r, col) == PixelAt(info, src, r, col)
    ensures forall i :: 0 <= i < |dst| && OutsideCol(info, col, i) ==> ColCopied(info, dst, src, col)[i] == dst[i]
  {
    var out := ColCopied(info, dst, src, col);
    forall r: nat | r < info.height
      ensures PixelAt(info, out, r, col) == PixelAt(info, src, r, col)
    {
      PixelIndexInBounds(info, r, col);
      var p := PixelIndex(info, r, col);
      PixelWindow(info, r, col, p + 0);
      PixelWindow(info, r, col, p + 1);
      PixelWindow(info, r, col, p + 2);
    }
    forall i | 0 <= i < |dst| && IsColorByte(info, i) && Locate(info, i).col == col
      ensures Locate(info, i).row < info.height && InWindow(info, Locate(info, i).row, col, i)
    {
      LocateColorByte(info, i);
      PixelWindow(info, Locate(info, i).row, col, i);
    }
  }

  /** After the flip, pixel (r, c) holds the old colour bytes of pixel
      (h - 1 - r, c). */
  lemma FlipPixel(info: Info, pixels: seq<bv8>, r: nat, c: nat)
    requires info.Valid() && |pixels| == info.BufferSize()
    requires r < info.height && c < info.width
    ensures PixelAt(info, Flip(info, pixels), r, c) == PixelAt(info, pixels, info.height - 1 - r, c)
  {
    PixelIndexInBounds(info, r, c);
    var p := PixelIndex(info, r, c);
    PixelWindow(info, r, c, p + 0);
    PixelWindow(info, r, c, p + 1);
    PixelWindow(info, r, c, p + 2);
    LocatePixelIndex(info, r, c, 0);
    LocatePixelIndex(info, r, c, 1);
    LocatePixelIndex(info, r, c, 2);
  }

  /** When the height is odd the middle row is left in place. */
  lemma FlipFixesMiddleRow(info: Info, pixels: seq<bv8>, c: nat)
    requires info.Valid() && |pixels| == info.BufferSize()
    requires info.height % 2 == 1 && c < info.width
    ensures PixelAt(info, Flip(info, pixels), info.height / 2, c) == PixelAt(info, pixels, info.height / 2, c)
  {
    FlipPixel(info, pixels, info.height / 2, c);
  }

  /** Flipping twice gives back the original buffer. */
  lemma FlipInvolutive(info: Info, pixels: seq<bv8>)
    requires info.Valid() && |pixels| == info.BufferSize()
    ensures Flip(info, Flip(info, pixels)) == pixels
  {
    var once := Flip(info, pixels);
    var twice := Flip(info, once);
    forall i | 0 <= i < |pixels|
      ensures twice[i] == pixels[i]
    {
      if IsColorByte(info, i) {
        var j := FlipIndex(info, i);
        LocateColorByte(info, i);
        LocateColorByte(info, j);
        assert FlipIndex(info, j) == i;
      }
    }
  }
}
