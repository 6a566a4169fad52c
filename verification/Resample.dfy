/** The pyramid operators `downsample` and `upsample` (runtime/hipacc_vivado_filter.hpp):
    the stream filter with a sparser output and with a sparser input. */
module Resample {
  import opened Borders
  import opened Streams
  import opened SlidingWindow
  import opened StreamFilter

  // ------------------------------------------------------------------ downsample

  /** The output guard of downsample for image coordinate i: the loop counter i + delay is
      tested against mod == delay % 2. */
  predicate Keeps(i: nat, delay: nat, factor: nat)
    requires factor >= 1
  {
    (i + delay) % factor == delay % 2
  }

  ghost function Kept<U>(s: seq<U>, delay: nat, factor: nat): seq<U>
    requires factor >= 1
  {
    if s == [] then []
    else Kept(s[..|s| - 1], delay, factor) + if Keeps(|s| - 1, delay, factor) then [s[|s| - 1]] else []
  }

  ghost function KeptRows<U>(rows: seq<seq<U>>, delay: nat, factor: nat): seq<seq<U>>
    requires factor >= 1
  {
    if rows == [] then []
    else
      var last := |rows| - 1;
      KeptRows(rows[..last], delay, factor)
      + (if Keeps(last, delay, factor) then [Kept(rows[last], delay, factor)] else [])
  }

  /** Output written when the filter is about to deliver pixel (x, y). */
  ghost function WrittenKept<U>(res: seq<seq<U>>, y: nat, x: nat, delay: nat, factor: nat): seq<U>
    requires factor >= 1 && y <= |res| && (y < |res| ==> x <= |res[y]|)
  {
    Flatten(KeptRows(res[..y], delay, factor)) +
      if y < |res| && Keeps(y, delay, factor) then Kept(res[y][..x], delay, factor) else []
  }

  ghost function EmittedKept<U>(res: seq<seq<U>>, width: nat, height: nat, delay: nat, factor: nat, row: nat,
      col: nat): seq<U>
    requires factor >= 1 && IsImage(res, width, height)
    requires row <= height + delay && col <= width + delay
    requires row == height + delay ==> col == 0
  {
    if row < delay then [] else WrittenKept(res, row - delay, if col < delay then 0 else col - delay, delay, factor)
  }

  lemma EmittedKeptStep<U>(res: seq<seq<U>>, width: nat, height: nat, delay: nat, factor: nat, row: nat, col: nat,
      prefix: seq<U>)
    requires factor >= 1 && IsImage(res, width, height) && row < height + delay && col < width + delay
    ensures prefix + EmittedKept(res, width, height, delay, factor, row, col + 1)
         == (prefix + EmittedKept(res, width, height, delay, factor, row, col)) +
            if row >= delay && col >= delay && row % factor == delay % 2 && col % factor == delay % 2
            then [res[row - delay][col - delay]] else []
  {
    hide WrittenKept;
    if row >= delay && col >= delay {
      WrittenKeptStep(res, row - delay, col - delay, delay, factor);
    }
  }

  lemma WrittenKeptStep<U>(res: seq<seq<U>>, y: nat, x: nat, delay: nat, factor: nat)
    requires factor >= 1 && y < |res| && x < |res[y]|
    ensures WrittenKept(res, y, x + 1, delay, factor) == WrittenKept(res, y, x, delay, factor) +
            if Keeps(y, delay, factor) && Keeps(x, delay, factor) then [res[y][x]] else []
  {
    hide KeptRows, Flatten;
    var line := res[y];
    assert line[..x + 1][..x] == line[..x];
  }

  lemma EmittedKeptNextRow<U>(res: seq<seq<U>>, width: nat, height: nat, delay: nat, factor: nat, row: nat)
    requires factor >= 1 && IsImage(res, width, height) && row < height + delay
    ensures EmittedKept(res, width, height, delay, factor, row, width + delay)
         == EmittedKept(res, width, height, delay, factor, row + 1, 0)
  {
    if row >= delay {
      WrittenKeptNextRow(res, row - delay, delay, factor);
      assert res[row - delay][..width] == res[row - delay];
    } else if row + 1 == delay {
      assert res[..0] == [];
    }
  }

  lemma WrittenKeptNextRow<U>(res: seq<seq<U>>, y: nat, delay: nat, factor: nat)
    requires factor >= 1 && y < |res|
    ensures WrittenKept(res, y, |res[y]|, delay, factor) == WrittenKept(res, y + 1, 0, delay, factor)
  {
    var before, after := KeptRows(res[..y], delay, factor), KeptRows(res[..y + 1], delay, factor);
    assert res[..y + 1][..y] == res[..y] && res[..y + 1][y] == res[y];
    assert res[y][..|res[y]|] == res[y];
    if Keeps(y, delay, factor) {
      FlattenAppend(before, Kept(res[y], delay, factor));
    } else {
      assert after == before;
    }
  }

  /** The inner loop body of downsample. */
  method DownsamplePixel<T(0), U>(window: Window<T>, ins: Stream<T>, outs: Stream<U>, row: nat, col: nat, pixel: T,
                                  width: nat, height: nat, factor: nat, filter: seq<seq<T>> -> U, padding: Padding,
                                  ghost img: seq<seq<T>>, ghost res: seq<seq<U>>, ghost rest: seq<T>,
                                  ghost written: seq<U>)
    returns (inPixel: T)
    requires factor >= 1
    requires window.Valid() && window.width == width && window.kx == window.ky
    requires Supported(window.kx, window.ky, width, height, padding) && IsImage(img, width, height)
    requires row < height + window.ky / 2 && col < width + window.kx / 2
    requires ins as object != outs
    requires window.LineBuffTrusted(img, row, col) && window.WindowTrusted(img, row, col - 1)
    requires IsImage(res, width, height)
    requires row >= window.ky / 2 && col >= window.kx / 2 ==>
      res[row - window.ky / 2][col - window.kx / 2] ==
        filter(PaddedWindow(img, col - window.kx / 2, row - window.ky / 2, width, height,
                            window.kx, window.ky, padding))
    requires ins.data == Pending(img, width, row, col) + rest
    requires outs.data == written + EmittedKept(res, width, height, window.kx / 2, factor, row, col)
    modifies ins, outs, window.lineBuff, window.winTmp, window.win
    ensures window.LineBuffTrusted(img, row, col + 1) && window.WindowTrusted(img, row, col)
    ensures ins.data == Pending(img, width, row, col + 1) + rest
    ensures outs.data == written + EmittedKept(res, width, height, window.kx / 2, factor, row, col + 1)
  {
    hide EmittedKept, Pending, PaddedWindow, Window.LineBuffTrusted, Window.WindowTrusted;
    var delay := window.kx / 2;
    PendingStep(img, width, row, col, rest);
    EmittedKeptStep(res, width, height, delay, factor, row, col, written);
    var mod := delay % 2;
    inPixel := pixel;
    if col < width && row < height {
      inPixel := ins.Read();
    }
    window.Step(row, col, height, inPixel, padding, img);
    if row >= delay && col >= delay {
      var snapshot := window.Snapshot();
      var outPixel := filter(snapshot);
      if row % factor == mod && col % factor == mod {
        outs.Write(outPixel);
      }
    }
  }

  method DownsampleRow<T(0), U>(window: Window<T>, ins: Stream<T>, outs: Stream<U>, row: nat, pixel: T,
                                maxWidth: nat, width: nat, height: nat, factor: nat, filter: seq<seq<T>> -> U,
                                padding: Padding,
                                ghost img: seq<seq<T>>, ghost res: seq<seq<U>>, ghost rest: seq<T>,
                                ghost written: seq<U>)
    returns (inPixel: T)
    requires factor >= 1
    requires window.Valid() && window.width == width == maxWidth && window.kx == window.ky
    requires Supported(window.kx, window.ky, width, height, padding) && IsImage(img, width, height)
    requires res == Filtered(img, width, height, window.kx, window.ky, padding, filter)
    requires row < height + window.ky / 2
    requires ins as object != outs
    requires window.LineBuffTrusted(img, row, 0)
    requires ins.data == Pending(img, width, row, 0) + rest
    requires outs.data == written + EmittedKept(res, width, height, window.kx / 2, factor, row, 0)
    modifies ins, outs, window.lineBuff, window.winTmp, window.win
    ensures window.LineBuffTrusted(img, row + 1, 0)
    ensures ins.data == Pending(img, width, row + 1, 0) + rest
    ensures outs.data == written + EmittedKept(res, width, height, window.kx / 2, factor, row + 1, 0)
  {
    hide Filtered, EmittedKept, Pending, PaddedWindow, Window.LineBuffTrusted, Window.WindowTrusted;
    var delay := window.kx / 2;
    inPixel := pixel;
    window.RowStart(img, row);
    var col := 0;
    while col < maxWidth + delay
      invariant 0 <= col <= maxWidth + delay
      invariant window.LineBuffTrusted(img, row, col) && window.WindowTrusted(img, row, col - 1)
      invariant ins.data == Pending(img, width, row, col) + rest
      invariant outs.data == written + EmittedKept(res, width, height, delay, factor, row, col)
    {
      if row >= delay && col >= delay {
        FilteredPixel(img, width, height, window.kx, window.ky, padding, filter, col - delay, row - delay);
      }
      inPixel := DownsamplePixel(window, ins, outs, row, col, inPixel, width, height, factor, filter, padding,
                                 img, res, rest, written);
      col := col + 1;
    }
    window.RowEnd(img, row, col);
    PendingNextRow(img, width, row, col);
    EmittedKeptNextRow(res, width, height, delay, factor, row);
  }

  /** Consumes the whole image and emits the kept pixels of the kept rows of the filtered
      image. */
  method Downsample<T(0), U>(ins: Stream<T>, outs: Stream<U>, maxWidth: nat, maxHeight: nat, width: nat, height: nat,
                             kernel: nat, factor: nat, filter: seq<seq<T>> -> U, padding: Padding)
    requires factor >= 1
    requires ins as object != outs
    requires width == maxWidth && height == maxHeight
    requires Supported(kernel, kernel, width, height, padding)
    requires width * height <= |ins.data|
    modifies ins, outs
    ensures ins.data == old(ins.data)[width * height..]
    ensures outs.data == old(outs.data)
      + Flatten(KeptRows(Filtered(Rows(old(ins.data), width, height), width, height, kernel, kernel, padding, filter),
                         kernel / 2, factor))
  {
    hide Filtered, PaddedWindow;
    var window := new Window<T>(kernel, kernel, maxWidth, width);
    var inPixel: T := *;
    ghost var img := Rows(ins.data, width, height);
    ghost var rest := ins.data[width * height..];
    ghost var res := Filtered(img, width, height, kernel, kernel, padding, filter);
    FlattenRows(ins.data, width, height);
    PendingAll(img, width);
    assert res[..0] == [] && res[..height] == res && Kept(res[0][..0], kernel / 2, factor) == [];
    var row := 0;
    while row < maxHeight + kernel / 2
      invariant 0 <= row <= maxHeight + kernel / 2
      invariant window.LineBuffTrusted(img, row, 0)
      invariant ins.data == Pending(img, width, row, 0) + rest
      invariant outs.data == old(outs.data) + EmittedKept(res, width, height, kernel / 2, factor, row, 0)
    {
      inPixel := DownsampleRow(window, ins, outs, row, inPixel, maxWidth, width, height, factor, filter, padding,
                               img, res, rest, old(outs.data));
      row := row + 1;
    }
  }

  /** Every second row and column, starting with the first. */
  ghost function EvenPixels<U>(res: seq<seq<U>>, width: nat, height: nat): seq<seq<U>>
    requires IsImage(res, width, height)
  {
    seq((height + 1) / 2, y requires 0 <= y < (height + 1) / 2 =>
      seq((width + 1) / 2, x requires 0 <= x < (width + 1) / 2 => res[2 * y][2 * x]))
  }

  lemma {:induction false} KeptByTwo<U>(s: seq<U>, delay: nat)
    ensures |Kept(s, delay, 2)| == (|s| + 1) / 2
    ensures forall i :: 0 <= i < (|s| + 1) / 2 ==> Kept(s, delay, 2)[i] == s[2 * i]
  {
    if s != [] {
      KeptByTwo(s[..|s| - 1], delay);
      assert Keeps(|s| - 1, delay, 2) <==> (|s| - 1) % 2 == 0;
    }
  }

  lemma {:induction false} KeptRowsByTwo<U>(rows: seq<seq<U>>, delay: nat)
    ensures |KeptRows(rows, delay, 2)| == (|rows| + 1) / 2
    ensures forall i :: 0 <= i < (|rows| + 1) / 2 ==> KeptRows(rows, delay, 2)[i] == Kept(rows[2 * i], delay, 2)
  {
    if rows != [] {
      KeptRowsByTwo(rows[..|rows| - 1], delay);
      assert Keeps(|rows| - 1, delay, 2) <==> (|rows| - 1) % 2 == 0;
    }
  }

  /** With factor 2 downsample is process followed by keeping the even coordinates:
      ceil(W/2) * ceil(H/2) pixels, for every kernel size. */
  lemma DownsampleByTwo<U>(res: seq<seq<U>>, width: nat, height: nat, delay: nat)
    requires IsImage(res, width, height)
    ensures KeptRows(res, delay, 2) == EvenPixels(res, width, height)
    ensures |Flatten(KeptRows(res, delay, 2))| == ((width + 1) / 2) * ((height + 1) / 2)
  {
    KeptRowsByTwo(res, delay);
    var kept, even := KeptRows(res, delay, 2), EvenPixels(res, width, height);
    forall y | 0 <= y < (height + 1) / 2
      ensures kept[y] == even[y]
    {
      KeptByTwo(res[2 * y], delay);
    }
    FlattenLength(even, (width + 1) / 2, (height + 1) / 2);
  }

  /** For a general factor the guard keeps the multiples of the factor, "starting with the
      first", exactly when the group delay has the same remainder modulo the factor and
      modulo 2; otherwise the kept grid is displaced and pixel 0 is dropped. */
  lemma DownsampleStartsWithFirstIff(delay: nat, factor: nat)
    requires factor >= 1
    ensures (forall i: nat :: Keeps(i, delay, factor) <==> i % factor == 0) <==> delay % factor == delay % 2
  {
    if delay % factor == delay % 2 {
      forall i: nat
        ensures Keeps(i, delay, factor) <==> i % factor == 0
      {
        SameRemainder(i, delay, factor);
      }
    } else {
      assert !Keeps(0, delay, factor);
      RemainderUnique(0, factor, 0, 0);
    }
  }

  lemma SameRemainder(i: nat, delay: nat, factor: nat)
    requires factor >= 1
    ensures (i + delay) % factor == delay % factor <==> i % factor == 0
  {
    var q, r := delay / factor, delay % factor;
    assert delay == q * factor + r;
    if i % factor == 0 {
      assert i + delay == (i / factor + q) * factor + r;
      RemainderUnique(i + delay, factor, i / factor + q, r);
    }
    if (i + delay) % factor == r {
      assert i == ((i + delay) / factor - q) * factor;
      RemainderUnique(i, factor, (i + delay) / factor - q, 0);
    }
  }

  /** A 5x5 kernel with factor 3 drops the first pixel. */
  lemma DownsampleByThreeIsDisplaced()
    ensures !Keeps(0, 5 / 2, 3) && Keeps(1, 5 / 2, 3)
  {
  }

  // -------------------------------------------------------------------- upsample

  /** Positions at which upsample reads its input. */
  predicate Demands(row: nat, col: nat, factor: nat)
    requires factor >= 1
  {
    col % factor == factor - 1 && row % factor == factor - 1
  }

  /** The zero-stuffed image: the small image's pixels at the last row and column of every
      factor x factor cell. */
  ghost function Stuffed<T>(small: seq<seq<T>>, width: nat, height: nat, factor: nat, zero: T): (img: seq<seq<T>>)
    requires factor >= 1 && IsImage(small, width / factor, height / factor)
    ensures IsImage(img, width, height)
  {
    seq(height, y requires 0 <= y < height =>
      seq(width, x requires 0 <= x < width =>
        if Demands(y, x, factor) then
          QuotientBelow(x, width, factor);
          QuotientBelow(y, height, factor);
          small[y / factor][x / factor]
        else zero))
  }

  lemma NextQuotient(n: nat, factor: nat)
    requires factor >= 1
    ensures (n + 1) / factor == n / factor + if n % factor == factor - 1 then 1 else 0
  {
    var q, r := n / factor, n % factor;
    if r == factor - 1 {
      assert n + 1 == (q + 1) * factor;
      RemainderUnique(n + 1, factor, q + 1, 0);
    } else {
      RemainderUnique(n + 1, factor, q, r + 1);
    }
  }

  lemma QuotientBelow(n: nat, bound: nat, factor: nat)
    requires factor >= 1 && n < bound && n % factor == factor - 1
    ensures 0 <= n / factor < bound / factor
  {
    var q, b := n / factor, bound / factor;
    assert n == q * factor + factor - 1;
    assert bound < b * factor + factor;
    assert (q - b) * factor == q * factor - b * factor;
    assert q - b >= 0 ==> (q - b) * factor >= 0;
  }

  /** What upsample has still to read before loop position (row, col). */
  ghost function PendingSmall<T>(small: seq<seq<T>>, width: nat, height: nat, factor: nat, row: nat, col: nat): seq<T>
    requires factor >= 1 && IsImage(small, width / factor, height / factor)
  {
    if row < height && row % factor == factor - 1
    then Pending(small, width / factor, row / factor, (if col < width then col else width) / factor)
    else Pending(small, width / factor, (if row < height then row else height) / factor, 0)
  }

  lemma PendingSmallStep<T>(small: seq<seq<T>>, width: nat, height: nat, factor: nat, row: nat, col: nat, zero: T)
    requires factor >= 1 && IsImage(small, width / factor, height / factor)
    ensures PendingSmall(small, width, height, factor, row, col) ==
      (if row < height && col < width && Demands(row, col, factor)
       then [Stuffed(small, width, height, factor, zero)[row][col]] else [])
      + PendingSmall(small, width, height, factor, row, col + 1)
  {
    if row < height && row % factor == factor - 1 && col < width {
      NextQuotient(col, factor);
      if col % factor == factor - 1 {
        QuotientBelow(col, width, factor);
        QuotientBelow(row, height, factor);
        FirstPending(small, width / factor, row / factor, col / factor);
      }
    }
  }

  lemma FirstPending<T>(small: seq<seq<T>>, width: nat, row: nat, col: nat)
    requires IsImage(small, width, |small|) && row < |small| && col < width
    ensures Pending(small, width, row, col) == [small[row][col]] + Pending(small, width, row, col + 1)
  {
    var s := Pending(small, width, row, col);
    PendingStep(small, width, row, col, []);
    assert s + [] == s && Pending(small, width, row, col + 1) + [] == Pending(small, width, row, col + 1);
    hide Pending;
    assert s == [s[0]] + s[1..];
  }

  lemma PendingSmallNextRow<T>(small: seq<seq<T>>, width: nat, height: nat, factor: nat, row: nat, col: nat)
    requires factor >= 1 && IsImage(small, width / factor, height / factor) && col >= width
    ensures PendingSmall(small, width, height, factor, row, col)
         == PendingSmall(small, width, height, factor, row + 1, 0)
  {
    hide Pending;
    if row < height {
      NextQuotient(row, factor);
      RemainderUnique(0, factor, 0, 0);
      if row % factor == factor - 1 {
        PendingNextRow(small, width / factor, row / factor, width / factor);
      }
    }
  }

  /** The pixels of the zero-stuffed image that come from the input, from loop position
      (row, col) on. */
  ghost function Demanded<T>(img: seq<seq<T>>, width: nat, factor: nat, row: nat, col: nat): seq<T>
    requires factor >= 1 && IsImage(img, width, |img|)
    decreases |img| - row, width - col
  {
    if row >= |img| then []
    else if col >= width then Demanded(img, width, factor, row + 1, 0)
    else
      (if Demands(row, col, factor) then [img[row][col]] else [])
      + Demanded(img, width, factor, row, col + 1)
  }

  lemma DemandedStep<T>(img: seq<seq<T>>, width: nat, factor: nat, row: nat, col: nat, rest: seq<T>)
    requires factor >= 1 && IsImage(img, width, |img|)
    ensures var s := Demanded(img, width, factor, row, col) + rest;
      if row < |img| && col < width && Demands(row, col, factor)
      then s != [] && s[0] == img[row][col] && s[1..] == Demanded(img, width, factor, row, col + 1) + rest
      else s == Demanded(img, width, factor, row, col + 1) + rest
  {
    var now, next := Demanded(img, width, factor, row, col), Demanded(img, width, factor, row, col + 1);
    if row < |img| && col < width && Demands(row, col, factor) {
      assert now == [img[row][col]] + next;
      assert ([img[row][col]] + next) + rest == [img[row][col]] + (next + rest);
    } else {
      assert now == next;
    }
  }

  lemma DemandedNextRow<T>(img: seq<seq<T>>, width: nat, factor: nat, row: nat, col: nat)
    requires factor >= 1 && IsImage(img, width, |img|) && col >= width
    ensures Demanded(img, width, factor, row, col) == Demanded(img, width, factor, row + 1, 0)
  {
  }

  /** They are the small image, in its own raster order. */
  lemma {:induction false} DemandedIsSmall<T>(small: seq<seq<T>>, width: nat, height: nat, factor: nat, zero: T,
      row: nat, col: nat)
    requires factor >= 1 && IsImage(small, width / factor, height / factor)
    ensures Demanded(Stuffed(small, width, height, factor, zero), width, factor, row, col)
         == PendingSmall(small, width, height, factor, row, col)
    decreases height - row, width - col
  {
    hide Stuffed;
    if row < height {
      hide PendingSmall;
      if col >= width {
        DemandedIsSmall(small, width, height, factor, zero, row + 1, 0);
        PendingSmallNextRow(small, width, height, factor, row, col);
      } else {
        DemandedIsSmall(small, width, height, factor, zero, row, col + 1);
        PendingSmallStep(small, width, height, factor, row, col, zero);
      }
    }
  }

  /** Output written before loop position (row, col): it lags half a kernel behind. */
  ghost function Emitted<U>(res: seq<seq<U>>, width: nat, height: nat, kx: nat, ky: nat, row: nat, col: nat): seq<U>
    requires IsImage(res, width, height)
    requires row <= height + ky / 2 && col <= width + kx / 2
    requires row == height + ky / 2 ==> col == 0
  {
    if row < ky / 2 then [] else Written(res, row - ky / 2, if col < kx / 2 then 0 else col - kx / 2)
  }

  lemma EmittedStep<U>(res: seq<seq<U>>, width: nat, height: nat, kx: nat, ky: nat, row: nat, col: nat, prefix: seq<U>)
    requires IsImage(res, width, height) && row < height + ky / 2 && col < width + kx / 2
    ensures prefix + Emitted(res, width, height, kx, ky, row, col + 1)
         == (prefix + Emitted(res, width, height, kx, ky, row, col)) +
            if row >= ky / 2 && col >= kx / 2 then [res[row - ky / 2][col - kx / 2]] else []
  {
    if row >= ky / 2 && col >= kx / 2 {
      WrittenStep(res, row - ky / 2, col - kx / 2, prefix);
    }
  }

  lemma EmittedEnds<U>(res: seq<seq<U>>, width: nat, height: nat, kx: nat, ky: nat)
    requires IsImage(res, width, height)
    ensures Emitted(res, width, height, kx, ky, 0, 0) == []
    ensures Emitted(res, width, height, kx, ky, height + ky / 2, 0) == Flatten(res)
  {
    WrittenAll(res);
  }

  lemma EmittedNextRow<U>(res: seq<seq<U>>, width: nat, height: nat, kx: nat, ky: nat, row: nat)
    requires IsImage(res, width, height) && row < height + ky / 2
    ensures Emitted(res, width, height, kx, ky, row, width + kx / 2) == Emitted(res, width, height, kx, ky, row + 1, 0)
  {
    if row >= ky / 2 {
      WrittenNextRow(res, row - ky / 2);
    } else {
      WrittenAll(res);
    }
  }

  /** Rows behind the image demand nothing. */
  lemma DemandedPast<T>(img: seq<seq<T>>, width: nat, factor: nat, row: nat)
    requires factor >= 1 && IsImage(img, width, |img|) && row >= |img|
    ensures Demanded(img, width, factor, row, 0) == []
  {
  }

  /** The filter of upsample also receives the raw loop counters. */
  ghost function FilteredAt<T, U>(img: seq<seq<T>>, width: nat, height: nat, kernel: nat, padding: Padding,
                                  filter: (seq<seq<T>>, nat, nat) -> U): (res: seq<seq<U>>)
    requires Supported(kernel, kernel, width, height, padding) && IsImage(img, width, height)
    ensures IsImage(res, width, height)
  {
    seq(height, y requires 0 <= y < height =>
      seq(width, x requires 0 <= x < width =>
        filter(PaddedWindow(img, x, y, width, height, kernel, kernel, padding), x + kernel / 2, y + kernel / 2)))
  }

  ghost predicate ZeroRow<T>(line: seq<T>, row: nat, factor: nat, zero: T)
    requires factor >= 1
  {
    forall x :: 0 <= x < |line| && !Demands(row, x, factor) ==> line[x] == zero
  }

  lemma StuffedRow<T>(small: seq<seq<T>>, width: nat, height: nat, factor: nat, zero: T, row: nat)
    requires factor >= 1 && IsImage(small, width / factor, height / factor) && row < height
    ensures ZeroRow(Stuffed(small, width, height, factor, zero)[row], row, factor, zero)
  {
  }

  lemma FilteredPixelAt<T, U>(img: seq<seq<T>>, width: nat, height: nat, kernel: nat, padding: Padding,
                              filter: (seq<seq<T>>, nat, nat) -> U, x: nat, y: nat)
    requires Supported(kernel, kernel, width, height, padding) && IsImage(img, width, height)
    requires x < width && y < height
    ensures FilteredAt(img, width, height, kernel, padding, filter)[y][x]
         == filter(PaddedWindow(img, x, y, width, height, kernel, kernel, padding), x + kernel / 2, y + kernel / 2)
  {
  }

  /** The inner loop body of upsample. */
  method UpsamplePixel<T(0), U>(window: Window<T>, ins: Stream<T>, outs: Stream<U>, row: nat, col: nat, pixel: T,
                                zero: T,
                                width: nat, height: nat, factor: nat, filter: (seq<seq<T>>, nat, nat) -> U,
                                padding: Padding,
                                ghost img: seq<seq<T>>, ghost res: seq<seq<U>>, ghost rest: seq<T>,
                                ghost written: seq<U>)
    returns (inPixel: T)
    requires factor >= 1
    requires window.Valid() && window.width == width && window.kx == window.ky
    requires Supported(window.kx, window.ky, width, height, padding) && IsImage(img, width, height)
    requires row < height + window.ky / 2 && col < width + window.kx / 2
    requires ins as object != outs
    requires window.LineBuffTrusted(img, row, col) && window.WindowTrusted(img, row, col - 1)
    requires row < height && col < width && !Demands(row, col, factor) ==> img[row][col] == zero
    requires IsImage(res, width, height)
    requires row >= window.kx / 2 && col >= window.kx / 2 ==>
      res[row - window.kx / 2][col - window.kx / 2] ==
        filter(PaddedWindow(img, col - window.kx / 2, row - window.kx / 2, width, height,
                            window.kx, window.kx, padding),
          col, row)
    requires ins.data == Demanded(img, width, factor, row, col) + rest
    requires outs.data == written + Emitted(res, width, height, window.kx, window.ky, row, col)
    modifies ins, outs, window.lineBuff, window.winTmp, window.win
    ensures window.LineBuffTrusted(img, row, col + 1) && window.WindowTrusted(img, row, col)
    ensures ins.data == Demanded(img, width, factor, row, col + 1) + rest
    ensures outs.data == written + Emitted(res, width, height, window.kx, window.ky, row, col + 1)
  {
    hide Emitted, Demanded, PaddedWindow, Window.LineBuffTrusted, Window.WindowTrusted;
    DemandedStep(img, width, factor, row, col, rest);
    EmittedStep(res, width, height, window.kx, window.ky, row, col, written);
    var delay := window.kx / 2;
    var mod := factor - 1;
    inPixel := pixel;
    if col < width && row < height {
      if col % factor == mod && row % factor == mod {
        assert Demands(row, col, factor);
        inPixel := ins.Read();
      } else {
        inPixel := zero;
      }
    }
    window.Step(row, col, height, inPixel, padding, img);
    if row >= delay && col >= delay {
      var snapshot := window.Snapshot();
      outs.Write(filter(snapshot, col, row));
    }
  }

  method UpsampleRow<T(0), U>(window: Window<T>, ins: Stream<T>, outs: Stream<U>, row: nat, pixel: T, zero: T,
                              maxWidth: nat, width: nat, height: nat, factor: nat,
                              filter: (seq<seq<T>>, nat, nat) -> U, padding: Padding,
                              ghost img: seq<seq<T>>, ghost res: seq<seq<U>>, ghost rest: seq<T>, ghost written: seq<U>)
    returns (inPixel: T)
    requires factor >= 1
    requires window.Valid() && window.width == width == maxWidth && window.kx == window.ky
    requires Supported(window.kx, window.ky, width, height, padding) && IsImage(img, width, height)
    requires row < height ==> ZeroRow(img[row], row, factor, zero)
    requires res == FilteredAt(img, width, height, window.kx, padding, filter)
    requires row < height + window.ky / 2
    requires ins as object != outs
    requires window.LineBuffTrusted(img, row, 0)
    requires ins.data == Demanded(img, width, factor, row, 0) + rest
    requires outs.data == written + Emitted(res, width, height, window.kx, window.ky, row, 0)
    modifies ins, outs, window.lineBuff, window.winTmp, window.win
    ensures window.LineBuffTrusted(img, row + 1, 0)
    ensures ins.data == Demanded(img, width, factor, row + 1, 0) + rest
    ensures outs.data == written + Emitted(res, width, height, window.kx, window.ky, row + 1, 0)
  {
    hide FilteredAt, Emitted, Demanded, PaddedWindow, Window.LineBuffTrusted, Window.WindowTrusted;
    var kernel := window.kx;
    inPixel := pixel;
    window.RowStart(img, row);
    var col := 0;
    while col < maxWidth + kernel / 2
      invariant 0 <= col <= maxWidth + kernel / 2
      invariant window.LineBuffTrusted(img, row, col) && window.WindowTrusted(img, row, col - 1)
      invariant ins.data == Demanded(img, width, factor, row, col) + rest
      invariant outs.data == written + Emitted(res, width, height, kernel, kernel, row, col)
    {
      if row >= kernel / 2 && col >= kernel / 2 {
        FilteredPixelAt(img, width, height, kernel, padding, filter, col - kernel / 2, row - kernel / 2);
      }
      inPixel := UpsamplePixel(window, ins, outs, row, col, inPixel, zero, width, height, factor, filter, padding,
                               img, res, rest, written);
      col := col + 1;
    }
    window.RowEnd(img, row, col);
    DemandedNextRow(img, width, factor, row, col);
    EmittedNextRow(res, width, height, kernel, kernel, row);
  }

  /** The outer loop of upsample, for the zero-stuffed image img. */
  method UpsampleImage<T(0), U>(ins: Stream<T>, outs: Stream<U>, zero: T, maxWidth: nat, maxHeight: nat,
                                width: nat, height: nat, kernel: nat, factor: nat,
                                filter: (seq<seq<T>>, nat, nat) -> U, padding: Padding,
                                ghost img: seq<seq<T>>, ghost res: seq<seq<U>>, ghost rest: seq<T>)
    requires factor >= 1
    requires ins as object != outs
    requires width == maxWidth && height == maxHeight
    requires Supported(kernel, kernel, width, height, padding) && IsImage(img, width, height)
    requires forall row :: 0 <= row < height ==> ZeroRow(img[row], row, factor, zero)
    requires res == FilteredAt(img, width, height, kernel, padding, filter)
    requires ins.data == Demanded(img, width, factor, 0, 0) + rest
    modifies ins, outs
    ensures ins.data == rest
    ensures outs.data == old(outs.data) + Flatten(res)
  {
    hide FilteredAt, Emitted, Demanded, PaddedWindow, Flatten, ZeroRow, Window.LineBuffTrusted;
    var window := new Window<T>(kernel, kernel, maxWidth, width);
    var inPixel: T := *;
    window.ImageStart(img);
    EmittedEnds(res, width, height, kernel, kernel);
    DemandedPast(img, width, factor, height + kernel / 2);
    var row := 0;
    while row < maxHeight + kernel / 2
      invariant 0 <= row <= maxHeight + kernel / 2
      invariant window.LineBuffTrusted(img, row, 0)
      invariant ins.data == Demanded(img, width, factor, row, 0) + rest
      invariant outs.data == old(outs.data) + Emitted(res, width, height, kernel, kernel, row, 0)
    {
      inPixel := UpsampleRow(window, ins, outs, row, inPixel, zero, maxWidth, width, height, factor, filter, padding,
                             img, res, rest, old(outs.data));
      row := row + 1;
    }
  }

  /** Consumes floor(W/f)*floor(H/f) pixels and emits the filtered zero-stuffed image. */
  method Upsample<T(0), U>(ins: Stream<T>, outs: Stream<U>, zero: T, maxWidth: nat, maxHeight: nat, width: nat,
                           height: nat,
                           kernel: nat, factor: nat, filter: (seq<seq<T>>, nat, nat) -> U, padding: Padding)
    requires factor >= 1
    requires ins as object != outs
    requires width == maxWidth && height == maxHeight
    requires Supported(kernel, kernel, width, height, padding)
    requires SmallSize(width, height, factor) <= |ins.data|
    modifies ins, outs
    ensures ins.data == old(ins.data)[SmallSize(width, height, factor)..]
    ensures outs.data == old(outs.data)
      + Flatten(FilteredAt(StuffedInput(old(ins.data), width, height, factor, zero), width, height, kernel,
                           padding, filter))
  {
    hide FilteredAt, StuffedInput, Demanded, PaddedWindow, Rows, SmallSize;
    ghost var img := StuffedInput(ins.data, width, height, factor, zero);
    ghost var res := FilteredAt(img, width, height, kernel, padding, filter);
    ghost var rest := ins.data[SmallSize(width, height, factor)..];
    InputOfUpsample(ins.data, width, height, factor, zero);
    UpsampleImage(ins, outs, zero, maxWidth, maxHeight, width, height, kernel, factor, filter, padding,
                  img, res, rest);
  }

  /** Pixels of the small image. */
  function SmallSize(width: nat, height: nat, factor: nat): nat
    requires factor >= 1
  {
    var w: nat, h: nat := width / factor, height / factor;
    w * h
  }

  /** The zero-stuffed image for the small image at the head of a stream. */
  ghost function StuffedInput<T>(s: seq<T>, width: nat, height: nat, factor: nat, zero: T): (img: seq<seq<T>>)
    requires factor >= 1 && SmallSize(width, height, factor) <= |s|
    ensures IsImage(img, width, height)
  {
    Stuffed(Rows(s, width / factor, height / factor), width, height, factor, zero)
  }

  lemma InputOfUpsample<T>(s: seq<T>, width: nat, height: nat, factor: nat, zero: T)
    requires factor >= 1 && SmallSize(width, height, factor) <= |s|
    ensures Demanded(StuffedInput(s, width, height, factor, zero), width, factor, 0, 0)
         == s[..SmallSize(width, height, factor)]
    ensures forall row :: 0 <= row < height ==>
      ZeroRow(StuffedInput(s, width, height, factor, zero)[row], row, factor, zero)
  {
    hide Demanded, PendingSmall;
    var w, h := width / factor, height / factor;
    FlattenRows(s, w, h);
    PendingAll(Rows(s, w, h), w);
    RemainderUnique(0, factor, 0, 0);
    DemandedIsSmall(Rows(s, w, h), width, height, factor, zero, 0, 0);
    PendingSmallAll(Rows(s, w, h), width, height, factor);
    forall row | 0 <= row < height
      ensures ZeroRow(StuffedInput(s, width, height, factor, zero)[row], row, factor, zero)
    {
      StuffedRow(Rows(s, w, h), width, height, factor, zero, row);
    }
  }

  lemma PendingSmallAll<T>(small: seq<seq<T>>, width: nat, height: nat, factor: nat)
    requires factor >= 1 && IsImage(small, width / factor, height / factor)
    ensures PendingSmall(small, width, height, factor, 0, 0) == Flatten(small)
  {
    PendingAll(small, width / factor);
    RemainderUnique(0, factor, 0, 0);
  }

  /** Pixel (j, i) of the small image stands at the last column and row of its factor x factor
      cell, and everything else is zero. */
  lemma StuffedAt<T>(small: seq<seq<T>>, width: nat, height: nat, factor: nat, zero: T, j: nat, i: nat)
    requires factor >= 1 && IsImage(small, width / factor, height / factor)
    requires j < width / factor && i < height / factor
    ensures var x, y := j * factor + (factor - 1), i * factor + (factor - 1);
      0 <= x < width && 0 <= y < height && Stuffed(small, width, height, factor, zero)[y][x] == small[i][j]
    ensures forall y, x |
        0 <= y < height && 0 <= x < width && (y % factor != factor - 1 || x % factor != factor - 1) ::
      Stuffed(small, width, height, factor, zero)[y][x] == zero
  {
    LastOfCell(j, width, factor);
    LastOfCell(i, height, factor);
  }

  lemma LastOfCell(j: nat, width: nat, factor: nat)
    requires factor >= 1 && j < width / factor
    ensures var x := j * factor + (factor - 1);
      0 <= x < width && x / factor == j && x % factor == factor - 1
  {
    var x := j * factor + (factor - 1);
    RemainderUnique(x, factor, j, factor - 1);
    CellEnds(j, width / factor, factor);
    var r := width % factor;
    assert width == (width / factor) * factor + r;
  }

  lemma {:induction false} CellEnds(j: nat, q: nat, factor: nat)
    requires factor >= 1 && j < q
    ensures 0 <= j * factor && j * factor + factor <= q * factor
  {
    assert q * factor == (q - 1) * factor + factor;
    if j < q - 1 { CellEnds(j, q - 1, factor); }
  }

  /** Output number y*width + x of upsample is the filter applied to the padded neighbourhood of
      (x, y) and the loop counters there. */
  lemma UpsampledAt<T, U>(img: seq<seq<T>>, width: nat, height: nat, kernel: nat, padding: Padding,
                          filter: (seq<seq<T>>, nat, nat) -> U, window: seq<seq<T>>, x: nat, y: nat)
    requires Supported(kernel, kernel, width, height, padding) && IsImage(img, width, height)
    requires x < width && y < height
    requires IsNeighbourhood(window, img, x, y, width, height, kernel, kernel, padding)
    ensures var res := Flatten(FilteredAt(img, width, height, kernel, padding, filter));
      && |res| == width * height && y * width + x < |res|
      && res[y * width + x] == filter(window, x + kernel / 2, y + kernel / 2)
  {
    var res := FilteredAt(img, width, height, kernel, padding, filter);
    NeighbourhoodIff(window, img, x, y, width, height, kernel, kernel, padding);
    FlattenLength(res, width, height);
    FlattenAt(res, width, height, x, y);
    hide IsNeighbourhood, PaddedWindow;
    FilteredPixelAt(img, width, height, kernel, padding, filter, x, y);
  }
}
