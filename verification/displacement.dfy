/** The three displacement strategies. Each one fills an output frame that
    already exists, copying every row, column or pixel from a source frame
    chosen by its distance from the top-left corner. */
module Displacement {
  import opened Geometry
  import opened Frames

  /** Rows, columns or diagonals that share one source frame. */
  const DisplacementStep: nat := 2

  /** The frames and the output frame all have one valid geometry. Nothing
      checks this at load time: it is what the strategies rely on. */
  predicate SharedGeometry(frames: seq<Frame>, output: Frame) {
    && output.Valid()
    && forall j :: 0 <= j < |frames| ==> frames[j].Valid() && frames[j].info == output.info
  }

  // ---------------------------------------------------------------------
  // Source frame selection

  function RowSource(index: nat, row: nat): nat {
    index + row / DisplacementStep
  }

  function ColSource(index: nat, col: nat): nat {
    index + col / DisplacementStep
  }

  /** The diagonal strategy wraps around the end of the sequence. */
  function RowColSource(index: nat, row: nat, col: nat, count: nat): (j: nat)
    requires 0 < count
    ensures j < count
    ensures count == 1 ==> j == 0
  {
    (index + (row + col) / DisplacementStep) % count
  }

  // ---------------------------------------------------------------------
  // Reference definitions, byte by byte

  /** Output byte `i` of the by-row strategy once rows below `rows` have been
      handled: a colour byte of a handled row whose source frame exists comes
      from that frame, every other byte is what the output held before. */
  function RowByte(frames: seq<Frame>, index: nat, output: Frame, rows: nat, i: nat): bv8
    requires SharedGeometry(frames, output) && i < |output.pixels|
  {
    var info := output.info;
    var row := Locate(info, i).row;
    if IsColorByte(info, i) && row < rows && RowSource(index, row) < |frames|
    then frames[RowSource(index, row)].pixels[i]
    else output.pixels[i]
  }

  /** Output byte `i` of the by-column strategy once columns below `cols`
      have been handled. */
  function ColByte(frames: seq<Frame>, index: nat, output: Frame, cols: nat, i: nat): bv8
    requires SharedGeometry(frames, output) && i < |output.pixels|
  {
    var info := output.info;
    var col := Locate(info, i).col;
    if IsColorByte(info, i) && col < cols && ColSource(index, col) < |frames|
    then frames[ColSource(index, col)].pixels[i]
    else output.pixels[i]
  }

  /** Pixel `p` precedes (row, col) in row-major order. */
  predicate Before(p: Position, row: nat, col: nat) {
    p.row < row || (p.row == row && p.col < col)
  }

  /** Output byte `i` of the diagonal strategy once the pixels before
      (row, col) in row-major order have been handled. */
  function RowColByte(frames: seq<Frame>, index: nat, output: Frame, row: nat, col: nat, i: nat): bv8
    requires SharedGeometry(frames, output) && i < |output.pixels| && 0 < |frames|
  {
    var info := output.info;
    var p := Locate(info, i);
    if IsColorByte(info, i) && Before(p, row, col)
    then frames[RowColSource(index, p.row, p.col, |frames|)].pixels[i]
    else output.pixels[i]
  }

  function RowDisplaced(frames: seq<Frame>, index: nat, output: Frame): (r: Frame)
    requires SharedGeometry(frames, output)
    ensures r.info == output.info && |r.pixels| == |output.pixels|
  {
    Frame(output.info, seq(|output.pixels|, i requires 0 <= i < |output.pixels| =>
      RowByte(frames, index, output, output.info.height, i)))
  }

  function ColDisplaced(frames: seq<Frame>, index: nat, output: Frame): Frame
    requires SharedGeometry(frames, output)
  {
    Frame(output.info, seq(|output.pixels|, i requires 0 <= i < |output.pixels| =>
      ColByte(frames, index, output, output.info.width, i)))
  }

  function RowColDisplaced(frames: seq<Frame>, index: nat, output: Frame): Frame
    requires SharedGeometry(frames, output) && 0 < |frames|
  {
    Frame(output.info, seq(|output.pixels|, i requires 0 <= i < |output.pixels| =>
      RowColByte(frames, index, output, output.info.height, 0, i)))
  }

  // ---------------------------------------------------------------------
  // The strategies

  /** Copies row `row` from frame `index + row / 2`, leaving the row as it
      was when that frame does not exist. */
  method DisplaceByRow(frames: seq<Frame>, index: nat, output: Frame) returns (out: Frame)
    requires index < |frames|
    requires SharedGeometry(frames, output)
    ensures out == RowDisplaced(frames, index, output)
  {
    var h := frames[index].info.height;
    out := output;
    for row := 0 to h
      invariant out.info == output.info && |out.pixels| == |output.pixels|
      invariant forall i :: 0 <= i < |out.pixels| ==> out.pixels[i] == RowByte(frames, index, output, row, i)
    {
      var displacedIndex := index + row / DisplacementStep;
      if displacedIndex < |frames| {
        out := CopyRow(out, frames[displacedIndex], row);
      }
    }
  }

  /** Copies column `col` from frame `index + col / 2`, leaving the column
      as it was when that frame does not exist. */
  method DisplaceByCol(frames: seq<Frame>, index: nat, output: Frame) returns (out: Frame)
    requires index < |frames|
    requires SharedGeometry(frames, output)
    ensures out == ColDisplaced(frames, index, output)
  {
    var w := frames[index].info.width;
    out := output;
    for col := 0 to w
      invariant out.info == output.info && |out.pixels| == |output.pixels|
      invariant forall i :: 0 <= i < |out.pixels| ==> out.pixels[i] == ColByte(frames, index, output, col, i)
    {
      var displacedIndex := index + col / DisplacementStep;
      if displacedIndex < |frames| {
        out := CopyCol(out, frames[displacedIndex], col);
      }
    }
  }

  /** Copies every pixel (row, col) from frame
      `(frameIndex + (row + col) / 2) % |frames|`. */
  method DisplaceByRowCol(frames: seq<Frame>, frameIndex: nat, output: Frame) returns (out: Frame)
    requires frameIndex < |frames|
    requires SharedGeometry(frames, output)
    ensures out == RowColDisplaced(frames, frameIndex, output)
  {
    var info := output.info;
    var w := frames[frameIndex].info.width;
    var h := frames[frameIndex].info.height;
    var pixels := output.pixels;
    for row := 0 to h
      invariant |pixels| == |output.pixels|
      invariant forall i :: 0 <= i < |pixels| ==> pixels[i] == RowColByte(frames, frameIndex, output, row, 0, i)
    {
      for col := 0 to w
        invariant |pixels| == |output.pixels|
        invariant forall i :: 0 <= i < |pixels| ==> pixels[i] == RowColByte(frames, frameIndex, output, row, col, i)
      {
        var displacedFrameIndex := (frameIndex + (row + col) / DisplacementStep) % |frames|;
        var source := frames[displacedFrameIndex];
        PixelIndexInBounds(info, row, col);
        var dstPixelIndex := PixelIndex(info, row, col);
        var srcPixelIndex := PixelIndex(source.info, row, col);
        pixels := pixels[dstPixelIndex + 0 := source.pixels[srcPixelIndex + 0]];
        pixels := pixels[dstPixelIndex + 1 := source.pixels[srcPixelIndex + 1]];
        pixels := pixels[dstPixelIndex + 2 := source.pixels[srcPixelIndex + 2]];
        forall i | 0 <= i < |pixels|
          ensures pixels[i] == RowColByte(frames, frameIndex, output, row, col + 1, i)
        {
          PixelWindow(info, row, col, i);
        }
      }
    }
    out := Frame(info, pixels);
  }

  // ---------------------------------------------------------------------
  // Properties of the selection formulas

  /** By-row (and by-column) selection finds a frame exactly for the first
      `DisplacementStep * (|frames| - index)` rows (columns). */
  lemma RowSourceInRange(index: nat, count: nat, row: nat, col: nat)
    requires index < count
    ensures RowSource(index, row) < count <==> row < DisplacementStep * (count - index)
    ensures ColSource(index, col) < count <==> col < DisplacementStep * (count - index)
  {
  }

  /** Moving right never selects an earlier frame. */
  lemma ColSourceMonotone(index: nat, c1: nat, c2: nat)
    requires c1 <= c2
    ensures ColSource(index, c1) <= ColSource(index, c2)
  {
  }

  // ---------------------------------------------------------------------
  // Properties of the strategies, pixel by pixel

  /** By row: every pixel of a row whose source frame exists comes from that
      frame; every pixel of a later row keeps what the output held; bytes
      outside the pixel windows are never written. */
  lemma RowDisplacedPixel(frames: seq<Frame>, index: nat, output: Frame)
    requires index < |frames| && SharedGeometry(frames, output)
    ensures var info, out := output.info, RowDisplaced(frames, index, output).pixels;
      forall r: nat, c: nat :: r < info.height && c < info.width ==>
        PixelAt(info, out, r, c)
        == if RowSource(index, r) < |frames| then PixelAt(info, frames[RowSource(index, r)].pixels, r, c)
           else PixelAt(info, output.pixels, r, c)
    ensures var info, out := output.info, RowDisplaced(frames, index, output).pixels;
      forall i :: 0 <= i < |out| && OutsideGrid(info, i) ==> out[i] == output.pixels[i]
  {
    var info, out := output.info, RowDisplaced(frames, index, output).pixels;
    forall r: nat, c: nat | r < info.height && c < info.width
      ensures PixelAt(info, out, r, c)
           == if RowSource(index, r) < |frames| then PixelAt(info, frames[RowSource(index, r)].pixels, r, c)
              else PixelAt(info, output.pixels, r, c)
    {
      PixelIndexInBounds(info, r, c);
      var p := PixelIndex(info, r, c);
      PixelWindow(info, r, c, p + 0);
      PixelWindow(info, r, c, p + 1);
      PixelWindow(info, r, c, p + 2);
    }
    forall i | 0 <= i < |out| && OutsideGrid(info, i)
      ensures out[i] == output.pixels[i]
    {
      ColorByteInGrid(info, i);
    }
  }

  /** By column: the column-wise analogue of `RowDisplacedPixel`. */
  lemma ColDisplacedPixel(frames: seq<Frame>, index: nat, output: Frame)
    requires index < |frames| && SharedGeometry(frames, output)
    ensures var info, out := output.info, ColDisplaced(frames, index, output).pixels;
      forall r: nat, c: nat :: r < info.height && c < info.width ==>
        PixelAt(info, out, r, c)
        == if ColSource(index, c) < |frames| then PixelAt(info, frames[ColSource(index, c)].pixels, r, c)
           else PixelAt(info, output.pixels, r, c)
    ensures var info, out := output.info, ColDisplaced(frames, index, output).pixels;
      forall i :: 0 <= i < |out| && OutsideGrid(info, i) ==> out[i] == output.pixels[i]
  {
    var info, out := output.info, ColDisplaced(frames, index, output).pixels;
    forall r: nat, c: nat | r < info.height && c < info.width
      ensures PixelAt(info, out, r, c)
           == if ColSource(index, c) < |frames| then PixelAt(info, frames[ColSource(index, c)].pixels, r, c)
              else PixelAt(info, output.pixels, r, c)
    {
      PixelIndexInBounds(info, r, c);
      var p := PixelIndex(info, r, c);
      PixelWindow(info, r, c, p + 0);
      PixelWindow(info, r, c, p + 1);
      PixelWindow(info, r, c, p + 2);
    }
    forall i | 0 <= i < |out| && OutsideGrid(info, i)
      ensures out[i] == output.pixels[i]
    {
      ColorByteInGrid(info, i);
    }
  }

  /** By row and column: every pixel of the output is written, from the
      frame the wrapping formula selects, whatever the output held before;
      bytes outside the pixel windows are never written. */
  lemma RowColDisplacedPixel(frames: seq<Frame>, index: nat, output: Frame)
    requires index < |frames| && SharedGeometry(frames, output)
    ensures var info, out := output.info, RowColDisplaced(frames, index, output).pixels;
      forall r: nat, c: nat :: r < info.height && c < info.width ==>
        PixelAt(info, out, r, c) == PixelAt(info, frames[RowColSource(index, r, c, |frames|)].pixels, r, c)
    ensures var info, out := output.info, RowColDisplaced(frames, index, output).pixels;
      forall i :: 0 <= i < |out| && OutsideGrid(info, i) ==> out[i] == output.pixels[i]
  {
    var info, out := output.info, RowColDisplaced(frames, index, output).pixels;
    forall r: nat, c: nat | r < info.height && c < info.width
      ensures PixelAt(info, out, r, c) == PixelAt(info, frames[RowColSource(index, r, c, |frames|)].pixels, r, c)
    {
      PixelIndexInBounds(info, r, c);
      var p := PixelIndex(info, r, c);
      PixelWindow(info, r, c, p + 0);
      PixelWindow(info, r, c, p + 1);
      PixelWindow(info, r, c, p + 2);
      LocatePixelIndex(info, r, c, 0);
      LocatePixelIndex(info, r, c, 1);
      LocatePixelIndex(info, r, c, 2);
    }
    forall i | 0 <= i < |out| && OutsideGrid(info, i)
      ensures out[i] == output.pixels[i]
    {
      ColorByteInGrid(info, i);
    }
  }

  /** With a single frame, the diagonal strategy copies that frame's pixels. */
  lemma RowColSingleFrame(frames: seq<Frame>, output: Frame)
    requires |frames| == 1 && SharedGeometry(frames, output)
    ensures var info, out := output.info, RowColDisplaced(frames, 0, output).pixels;
      forall r: nat, c: nat :: r < info.height && c < info.width ==>
        PixelAt(info, out, r, c) == PixelAt(info, frames[0].pixels, r, c)
  {
    RowColDisplacedPixel(frames, 0, output);
  }

  /** Into a freshly zeroed output, the by-row strategy leaves every row
      without a source frame black. */
  lemma RowDisplacedFreshOutput(frames: seq<Frame>, index: nat, output: Frame, r: nat, c: nat)
    requires index < |frames| && SharedGeometry(frames, output)
    requires output == NewFrame(output.info)
    requires r < output.info.height && c < output.info.width
    requires DisplacementStep * (|frames| - index) <= r
    ensures PixelAt(output.info, RowDisplaced(frames, index, output).pixels, r, c) == [0, 0, 0]
  {
    RowDisplacedPixel(frames, index, output);
    RowSourceInRange(index, |frames|, r, c);
    PixelIndexInBounds(output.info, r, c);
  }

  // ---------------------------------------------------------------------
  // One output frame reused across the driver loop

  /** The output frame after the by-row strategy has run for indices
      0, 1, ..., count - 1 in turn on one buffer that starts as `start` and
      is never cleared in between, as the driver loop does. */
  function RowRuns(frames: seq<Frame>, count: nat, start: Frame): (f: Frame)
    requires count <= |frames| && SharedGeometry(frames, start)
    ensures SharedGeometry(frames, f) && f.info == start.info
    decreases count
  {
    if count == 0 then start
    else RowDisplaced(frames, count - 1, RowRuns(frames, count - 1, start))
  }

  /** With the buffer reused, a row that has no source frame for the current
      index is not left blank: it still holds the row of the LAST frame,
      written by an earlier index. Only rows that no index ever reaches (row
      at or past 2 * |frames|) keep the buffer's initial content. */
  lemma {:induction false} RowRunsPixel(frames: seq<Frame>, count: nat, start: Frame, r: nat, c: nat)
    requires 1 <= count <= |frames| && SharedGeometry(frames, start)
    requires r < start.info.height && c < start.info.width
    ensures var info, index := start.info, count - 1;
      PixelAt(info, RowRuns(frames, count, start).pixels, r, c)
      == if RowSource(index, r) < |frames| then PixelAt(info, frames[RowSource(index, r)].pixels, r, c)
         else if r < DisplacementStep * |frames| then PixelAt(info, frames[|frames| - 1].pixels, r, c)
         else PixelAt(info, start.pixels, r, c)
    decreases count
  {
    var previous := RowRuns(frames, count - 1, start);
    RowDisplacedPixel(frames, count - 1, previous);
    if 1 < count {
      RowRunsPixel(frames, count - 1, start, r, c);
    }
  }
}
