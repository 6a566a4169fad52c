/** The one-input one-output stream filter `process`
    (runtime/hipacc_vivado_filter.hpp) refines the direct semantics "for every pixel,
    apply the filter to its padded neighbourhood". */
module StreamFilter {
  import opened Borders
  import opened Streams
  import opened SlidingWindow

  /** The filtered image, one padded neighbourhood at a time. */
  ghost function Filtered<T, U>(img: seq<seq<T>>, width: nat, height: nat, kx: nat, ky: nat, padding: Padding,
                                filter: seq<seq<T>> -> U): (res: seq<seq<U>>)
    requires Supported(kx, ky, width, height, padding) && IsImage(img, width, height)
    ensures IsImage(res, width, height)
  {
    seq(height, y requires 0 <= y < height =>
      seq(width, x requires 0 <= x < width =>
        filter(PaddedWindow(img, x, y, width, height, kx, ky, padding))))
  }

  lemma FilteredPixel<T, U>(img: seq<seq<T>>, width: nat, height: nat, kx: nat, ky: nat, padding: Padding,
                            filter: seq<seq<T>> -> U, x: nat, y: nat)
    requires Supported(kx, ky, width, height, padding) && IsImage(img, width, height)
    requires x < width && y < height
    ensures Filtered(img, width, height, kx, ky, padding, filter)[y][x]
         == filter(PaddedWindow(img, x, y, width, height, kx, ky, padding))
  {
  }

  /** The template bounds that a run-time extent may stay below without a remap leaving the
      window (RemapStaysInsideIff). */
  predicate Fits(kernel: nat, maxExtent: nat, extent: nat, padding: Padding) {
    extent <= maxExtent <= extent + Slack(kernel, padding)
  }

  /** The guard of the output: half a kernel behind in both dimensions. */
  predicate Emits(row: int, col: int, kx: nat, ky: nat) {
    row >= ky / 2 && col >= kx / 2
  }

  /** The inner loop body: at most one pixel in, at most one filtered pixel out. */
  method ProcessPixel<T(0), U>(window: Window<T>, ins: Stream<T>, outs: Stream<U>, row: nat, col: nat, pixel: T,
                               width: nat, height: nat, filter: seq<seq<T>> -> U, padding: Padding,
                               ghost img: seq<seq<T>>, ghost rest: seq<T>)
    returns (inPixel: T, ghost out: seq<U>)
    requires window.Valid() && window.width == width
    requires Supported(window.kx, window.ky, width, height, padding) && IsImage(img, width, height)
    requires Remappable(window.kx, col, width, padding) && Remappable(window.ky, row, height, padding)
    requires ins as object != outs
    requires window.LineBuffTrusted(img, row, col) && window.WindowTrusted(img, row, col - 1)
    requires ins.data == Pending(img, width, row, col) + rest
    modifies ins, outs, window.lineBuff, window.winTmp, window.win
    ensures window.LineBuffTrusted(img, row, col + 1) && window.WindowTrusted(img, row, col)
    ensures ins.data == Pending(img, width, row, col + 1) + rest
    ensures outs.data == old(outs.data) + out
    ensures |out| == if Emits(row, col, window.kx, window.ky) then 1 else 0
    ensures var y, x := row - window.ky / 2, col - window.kx / 2;
      0 <= y < height && 0 <= x < width ==>
        out == [filter(PaddedWindow(img, x, y, width, height, window.kx, window.ky, padding))]
  {
    hide Pending, PaddedWindow, Window.LineBuffTrusted, Window.WindowTrusted;
    PendingStep(img, width, row, col, rest);
    inPixel, out := pixel, [];
    if col < width && row < height {
      inPixel := ins.Read();
    }
    window.Step(row, col, height, inPixel, padding, img);
    if Emits(row, col, window.kx, window.ky) {
      var snapshot := window.Snapshot();
      outs.Write(filter(snapshot));
      out := [filter(snapshot)];
    }
  }

  /** The inner loop: one row of loop positions, which emits nothing above the group delay and
      maxWidth pixels from there on. */
  method ProcessRow<T(0), U>(window: Window<T>, ins: Stream<T>, outs: Stream<U>, row: nat, pixel: T,
                             maxWidth: nat, width: nat, height: nat, filter: seq<seq<T>> -> U, padding: Padding,
                             ghost img: seq<seq<T>>, ghost res: seq<seq<U>>, ghost rest: seq<T>)
    returns (inPixel: T, ghost line: seq<U>)
    requires window.Valid() && window.width == width && Fits(window.kx, maxWidth, width, padding)
    requires Supported(window.kx, window.ky, width, height, padding) && IsImage(img, width, height)
    requires res == Filtered(img, width, height, window.kx, window.ky, padding, filter)
    requires Remappable(window.ky, row, height, padding)
    requires ins as object != outs
    requires window.LineBuffTrusted(img, row, 0)
    requires ins.data == Pending(img, width, row, 0) + rest
    modifies ins, outs, window.lineBuff, window.winTmp, window.win
    ensures window.LineBuffTrusted(img, row + 1, 0)
    ensures ins.data == Pending(img, width, row + 1, 0) + rest
    ensures outs.data == old(outs.data) + line
    ensures |line| == if row >= window.ky / 2 then maxWidth else 0
    ensures var y := row - window.ky / 2;
      0 <= y < height ==> line[..width] == res[y]
  {
    hide Filtered, Pending, PaddedWindow, Window.LineBuffTrusted, Window.WindowTrusted;
    var kx, ky := window.kx, window.ky;
    inPixel, line := pixel, [];
    window.RowStart(img, row);
    var col := 0;
    while col < maxWidth + kx / 2
      invariant 0 <= col <= maxWidth + kx / 2
      invariant window.LineBuffTrusted(img, row, col) && window.WindowTrusted(img, row, col - 1)
      invariant ins.data == Pending(img, width, row, col) + rest
      invariant outs.data == old(outs.data) + line
      invariant |line| == if row >= ky / 2 && col >= kx / 2 then col - kx / 2 else 0
      invariant ky / 2 <= row < height + ky / 2 ==>
        forall x :: 0 <= x < width && x < col - kx / 2 ==> line[x] == res[row - ky / 2][x]
    {
      var y, x := row - ky / 2, col - kx / 2;
      if 0 <= y < height && 0 <= x < width {
        FilteredPixel(img, width, height, kx, ky, padding, filter, x, y);
      }
      ghost var out;
      inPixel, out := ProcessPixel(window, ins, outs, row, col, inPixel, width, height, filter, padding, img, rest);
      line := line + out;
      col := col + 1;
    }
    window.RowEnd(img, row, col);
    PendingNextRow(img, width, row, col);
  }

  /** Consumes exactly the image and emits, in raster order, an image of the template's size that
      shows the filtered image at its top left, whatever the buffers held at the start.  At the full
      template size that is the filtered image. */
  method Process<T(0), U>(ins: Stream<T>, outs: Stream<U>, maxWidth: nat, maxHeight: nat, width: nat, height: nat,
                          kx: nat, ky: nat, filter: seq<seq<T>> -> U, padding: Padding)
    returns (ghost res: seq<seq<U>>)
    requires ins as object != outs
    requires Fits(kx, maxWidth, width, padding) && Fits(ky, maxHeight, height, padding)
    requires Supported(kx, ky, width, height, padding)
    requires width * height <= |ins.data|
    modifies ins, outs
    ensures ins.data == old(ins.data)[width * height..]
    ensures IsImage(res, maxWidth, maxHeight) && outs.data == old(outs.data) + Flatten(res)
    ensures |outs.data| == |old(outs.data)| + |OutputPositions(maxWidth, maxHeight, kx, ky)|
    ensures var filtered := Filtered(Rows(old(ins.data), width, height), width, height, kx, ky, padding, filter);
      && (forall y :: 0 <= y < height ==> res[y][..width] == filtered[y])
      && (width == maxWidth && height == maxHeight ==> outs.data == old(outs.data) + Flatten(filtered))
  {
    hide Filtered, Pending, PaddedWindow, Flatten, OutputPositions, Emits, Window.LineBuffTrusted;
    var window := new Window<T>(kx, ky, maxWidth, width);
    var inPixel: T := *;
    ghost var img := Rows(ins.data, width, height);
    ghost var rest := ins.data[width * height..];
    ghost var filtered := Filtered(img, width, height, kx, ky, padding, filter);
    FlattenRows(ins.data, width, height);
    PendingAll(img, width);
    window.ImageStart(img);
    res := [];
    FlattenEnds(res);
    var row := 0;
    while row < maxHeight + ky / 2
      invariant 0 <= row <= maxHeight + ky / 2
      invariant window.LineBuffTrusted(img, row, 0)
      invariant ins.data == Pending(img, width, row, 0) + rest
      invariant IsImage(res, maxWidth, if row >= ky / 2 then row - ky / 2 else 0)
      invariant outs.data == old(outs.data) + Flatten(res)
      invariant forall y :: 0 <= y < height && y < row - ky / 2 ==> res[y][..width] == filtered[y]
    {
      ghost var line;
      inPixel, line := ProcessRow(window, ins, outs, row, inPixel, maxWidth, width, height, filter, padding,
                                  img, filtered, rest);
      if row >= ky / 2 {
        FlattenAppend(res, line);
        res := res + [line];
      }
      row := row + 1;
    }
    PendingPast(img, width, row);
    FlattenLength(res, maxWidth, maxHeight);
    OutputCountIff(maxWidth, maxHeight, width, height, kx, ky);
    if width == maxWidth && height == maxHeight {
      SameRows(res, filtered, width, height);
    }
  }

  lemma SameRows<U>(res: seq<seq<U>>, filtered: seq<seq<U>>, width: nat, height: nat)
    requires IsImage(res, width, height) && IsImage(filtered, width, height)
    requires forall y :: 0 <= y < height ==> res[y][..width] == filtered[y]
    ensures res == filtered
  {
    assert forall y :: 0 <= y < height ==> res[y] == res[y][..width];
  }

  /** Raster positions of the result: output number y*width + x is the filter applied to
      the window whose cell [i][j] is the padded pixel at (x - kx/2 + j, y - ky/2 + i). */
  lemma OutputAt<T, U>(img: seq<seq<T>>, width: nat, height: nat, kx: nat, ky: nat, padding: Padding,
                       filter: seq<seq<T>> -> U, x: nat, y: nat)
    requires Supported(kx, ky, width, height, padding) && IsImage(img, width, height)
    requires x < width && y < height
    ensures var res := Flatten(Filtered(img, width, height, kx, ky, padding, filter));
      && |res| == width * height && y * width + x < |res|
      && res[y * width + x] == filter(PaddedWindow(img, x, y, width, height, kx, ky, padding))
      && forall window :: IsNeighbourhood(window, img, x, y, width, height, kx, ky, padding) ==>
        res[y * width + x] == filter(window)
  {
    forall window
      ensures IsNeighbourhood(window, img, x, y, width, height, kx, ky, padding) ==>
        window == PaddedWindow(img, x, y, width, height, kx, ky, padding)
    {
      NeighbourhoodIff(window, img, x, y, width, height, kx, ky, padding);
    }
    hide PaddedWindow, IsNeighbourhood;
    var res := Filtered(img, width, height, kx, ky, padding, filter);
    FlattenLength(res, width, height);
    FlattenAt(res, width, height, x, y);
  }

  /** The loop positions that emit a pixel. */
  ghost function OutputPositions(maxWidth: nat, maxHeight: nat, kx: nat, ky: nat): set<(int, int)> {
    set row, col | 0 <= row < maxHeight + ky / 2 && 0 <= col < maxWidth + kx / 2 && Emits(row, col, kx, ky) ::
      (row, col)
  }

  /** Row after row the guard passes at maxWidth positions. */
  lemma {:induction false} OutputCount(maxWidth: nat, maxHeight: nat, kx: nat, ky: nat)
    ensures |OutputPositions(maxWidth, maxHeight, kx, ky)| == maxWidth * maxHeight
    decreases maxHeight
  {
    if maxHeight == 0 {
      assert OutputPositions(maxWidth, 0, kx, ky) == {};
    } else {
      OutputCount(maxWidth, maxHeight - 1, kx, ky);
      var row := maxHeight - 1 + ky / 2;
      RowCount(row, kx / 2, maxWidth);
      assert OutputPositions(maxWidth, maxHeight, kx, ky)
        == OutputPositions(maxWidth, maxHeight - 1, kx, ky) + RowPositions(row, kx / 2, maxWidth);
      assert OutputPositions(maxWidth, maxHeight - 1, kx, ky) !! RowPositions(row, kx / 2, maxWidth);
      assert maxWidth * maxHeight == maxWidth * (maxHeight - 1) + maxWidth;
    }
  }

  ghost function RowPositions(row: int, first: int, count: nat): set<(int, int)> {
    set col | first <= col < first + count :: (row, col)
  }

  lemma {:induction false} RowCount(row: int, first: int, count: nat)
    ensures |RowPositions(row, first, count)| == count
  {
    if count == 0 {
      assert RowPositions(row, first, count) == {};
    } else {
      RowCount(row, first, count - 1);
      assert RowPositions(row, first, count) == RowPositions(row, first, count - 1) + {(row, first + count - 1)};
    }
  }

  /** The output guard passes at maxWidth*maxHeight loop positions, whatever the run-time extents:
      as many as the image has pixels only at the full template size. */
  lemma OutputCountIff(maxWidth: nat, maxHeight: nat, width: nat, height: nat, kx: nat, ky: nat)
    requires 1 <= width <= maxWidth && 1 <= height <= maxHeight
    ensures |OutputPositions(maxWidth, maxHeight, kx, ky)| == maxWidth * maxHeight
    ensures |OutputPositions(maxWidth, maxHeight, kx, ky)| == width * height
      <==> width == maxWidth && height == maxHeight
  {
    OutputCount(maxWidth, maxHeight, kx, ky);
    assert maxWidth * maxHeight == width * height + (maxWidth - width) * maxHeight + width * (maxHeight - height);
    if maxWidth > width { assert (maxWidth - width) * maxHeight >= 1; }
    if maxHeight > height { assert width * (maxHeight - height) >= 1; }
  }

  /** A 2x2 image in a template of 3x3 pixels: the remap stays inside the window, and nine pixels
      come out of four. */
  method SmallImageGrows(ins: Stream<int>, outs: Stream<int>, filter: seq<seq<int>> -> int)
    requires ins as object != outs && |ins.data| == 4 && outs.data == []
    modifies ins, outs
    ensures ins.data == [] && |outs.data| == 9
  {
    var _ := Process(ins, outs, 3, 3, 2, 2, 3, 3, filter, PadClamp);
    OutputCountIff(3, 3, 2, 2, 3, 3);
  }
}
