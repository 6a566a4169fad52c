/** The line buffer and the shifting window shared by process, downsample and upsample
    (runtime/hipacc_vivado_filter.hpp), and the padded neighbourhood they must present to
    the filter.  Buffers start with arbitrary contents and go stale at row ends and in the
    bottom apron; the trust predicates say which cells are known to be image pixels. */
module SlidingWindow {
  import opened Borders
  import opened Streams

  /** Kernel extents and padding under which the stream filters realise border padding. */
  ghost predicate Supported(kx: nat, ky: nat, width: nat, height: nat, padding: Padding) {
    && kx % 2 == 1 && ky % 2 == 1
    && width >= 1 && height >= 1
    && width >= kx - 1 && height >= ky - 1
    && (padding.PadConst? ==> kx == 1 && ky == 1)
  }

  lemma PadInRange(padding: Padding, c: int, k: nat, n: nat)
    requires k % 2 == 1 && n >= 1 && n >= k - 1
    requires -(k / 2) <= c < n + k / 2
    requires padding.PadConst? ==> k == 1
    ensures 0 <= Pad(padding, c, n) < n
  {
  }

  /** The padded window around pixel (x, y): the reference semantics. */
  ghost function PaddedWindow<T>(img: seq<seq<T>>, x: nat, y: nat, width: nat, height: nat,
                                 kx: nat, ky: nat, padding: Padding): (window: seq<seq<T>>)
    requires Supported(kx, ky, width, height, padding) && IsImage(img, width, height)
    requires x < width && y < height
    ensures |window| == ky && forall i :: 0 <= i < ky ==> |window[i]| == kx
  {
    seq(ky, i requires 0 <= i < ky =>
      seq(kx, j requires 0 <= j < kx =>
        PadInRange(padding, y - ky / 2 + i, ky, height);
        PadInRange(padding, x - kx / 2 + j, kx, width);
        img[Pad(padding, y - ky / 2 + i, height)][Pad(padding, x - kx / 2 + j, width)]))
  }

  /** Cell [i][j] is the image pixel that padding selects, half a kernel further up and left than
      output (x, y) plus i and j. */
  ghost predicate CellShows<T>(window: seq<seq<T>>, img: seq<seq<T>>, x: nat, y: nat, width: nat, height: nat,
                               kx: nat, ky: nat, padding: Padding, i: nat, j: nat)
    requires IsImage(img, width, height) && i < |window| && j < |window[i]|
  {
    var r, c := Pad(padding, y - ky / 2 + i, height), Pad(padding, x - kx / 2 + j, width);
    0 <= r < height && 0 <= c < width && window[i][j] == img[r][c]
  }

  ghost predicate IsNeighbourhood<T>(window: seq<seq<T>>, img: seq<seq<T>>, x: nat, y: nat, width: nat, height: nat,
                                     kx: nat, ky: nat, padding: Padding)
    requires Supported(kx, ky, width, height, padding) && IsImage(img, width, height)
    requires x < width && y < height
  {
    && |window| == ky && (forall i :: 0 <= i < ky ==> |window[i]| == kx)
    && forall i, j :: 0 <= i < ky && 0 <= j < kx ==>
      CellShows(window, img, x, y, width, height, kx, ky, padding, i, j)
  }

  /** That is the padded window, and no other. */
  lemma NeighbourhoodIff<T>(window: seq<seq<T>>, img: seq<seq<T>>, x: nat, y: nat, width: nat, height: nat,
                            kx: nat, ky: nat, padding: Padding)
    requires Supported(kx, ky, width, height, padding) && IsImage(img, width, height)
    requires x < width && y < height
    ensures IsNeighbourhood(window, img, x, y, width, height, kx, ky, padding)
      <==> window == PaddedWindow(img, x, y, width, height, kx, ky, padding)
  {
    var padded := PaddedWindow(img, x, y, width, height, kx, ky, padding);
    PaddedIsNeighbourhood(img, x, y, width, height, kx, ky, padding);
    if IsNeighbourhood(window, img, x, y, width, height, kx, ky, padding) {
      hide Pad, PaddedWindow;
      forall i | 0 <= i < ky
        ensures window[i] == padded[i]
      {
        forall j | 0 <= j < kx
          ensures window[i][j] == padded[i][j]
        {
          assert CellShows(window, img, x, y, width, height, kx, ky, padding, i, j);
          assert CellShows(padded, img, x, y, width, height, kx, ky, padding, i, j);
        }
      }
    }
  }

  lemma PaddedIsNeighbourhood<T>(img: seq<seq<T>>, x: nat, y: nat, width: nat, height: nat, kx: nat, ky: nat,
                                 padding: Padding)
    requires Supported(kx, ky, width, height, padding) && IsImage(img, width, height)
    requires x < width && y < height
    ensures IsNeighbourhood(PaddedWindow(img, x, y, width, height, kx, ky, padding), img, x, y, width, height,
                            kx, ky, padding)
  {
    hide Pad, PaddedWindow;
    var padded := PaddedWindow(img, x, y, width, height, kx, ky, padding);
    forall i, j | 0 <= i < ky && 0 <= j < kx
      ensures CellShows(padded, img, x, y, width, height, kx, ky, padding, i, j)
    {
      PaddedCell(img, x, y, width, height, kx, ky, padding, i, j);
    }
  }

  lemma PaddedCell<T>(img: seq<seq<T>>, x: nat, y: nat, width: nat, height: nat, kx: nat, ky: nat, padding: Padding,
                      i: nat, j: nat)
    requires Supported(kx, ky, width, height, padding) && IsImage(img, width, height)
    requires x < width && y < height && i < ky && j < kx
    ensures var r, c := Pad(padding, y - ky / 2 + i, height), Pad(padding, x - kx / 2 + j, width);
      0 <= r < height && 0 <= c < width &&
      PaddedWindow(img, x, y, width, height, kx, ky, padding)[i][j] == img[r][c]
  {
    PadInRange(padding, y - ky / 2 + i, ky, height);
    PadInRange(padding, x - kx / 2 + j, kx, width);
  }

  class Window<T(0)> {
    const kx: nat
    const ky: nat
    const width: nat
    const lineBuff: array2<T>
    const winTmp: array2<T>
    const win: array2<T>

    ghost predicate Valid() {
      && kx >= 1 && ky >= 1
      && lineBuff.Length0 == ky - 1 && width <= lineBuff.Length1
      && winTmp.Length0 == ky && winTmp.Length1 == kx
      && win.Length0 == ky && win.Length1 == kx
      && lineBuff != winTmp && lineBuff != win && winTmp != win
    }

    /** The arrays are left uninitialised. */
    constructor (kx: nat, ky: nat, maxWidth: nat, width: nat)
      requires kx >= 1 && ky >= 1 && width <= maxWidth
      ensures Valid() && this.kx == kx && this.ky == ky && this.width == width
      ensures fresh(lineBuff) && fresh(winTmp) && fresh(win)
    {
      this.kx, this.ky, this.width := kx, ky, width;
      lineBuff := new T[ky - 1, maxWidth];
      winTmp := new T[ky, kx];
      win := new T[ky, kx];
    }

    /** Before step (row, col): columns left of col already moved up by one row.  Past the bottom
        apron the line buffer stands still. */
    ghost predicate LineBuffTrusted(img: seq<seq<T>>, row: int, col: int)
      requires Valid() && IsImage(img, width, |img|)
      reads lineBuff
    {
      row < |img| + ky / 2 ==> forall i, c :: 0 <= i < ky - 1 && 0 <= c < width ==>
        var r := if c < col then row - (ky - 2) + i else row - (ky - 1) + i;
        0 <= r < |img| ==> lineBuff[i, c] == img[r][c]
    }

    /** After step (row, col): the window ends at that position, wherever the image exists.  Past the
        apron the window stands still. */
    ghost predicate WindowTrusted(img: seq<seq<T>>, row: int, col: int)
      requires Valid() && IsImage(img, width, |img|)
      reads winTmp
    {
      row < |img| + ky / 2 && col < width + kx / 2 ==> forall i, j :: 0 <= i < ky && 0 <= j < kx ==>
        var r, c := row - (ky - 1) + i, col - (kx - 1) + j;
        0 <= r < |img| && 0 <= c < width ==> winTmp[i, j] == img[r][c]
    }

    /** At the start of an image no line buffer cell is trusted yet. */
    lemma ImageStart(img: seq<seq<T>>)
      requires Valid() && IsImage(img, width, |img|)
      ensures LineBuffTrusted(img, 0, 0)
    {
    }

    /** At the start of a row no window column is trusted yet. */
    lemma RowStart(img: seq<seq<T>>, row: int)
      requires Valid() && IsImage(img, width, |img|)
      ensures WindowTrusted(img, row, -1)
    {
    }

    /** A line buffer updated over the whole width is the one the next row starts with. */
    lemma RowEnd(img: seq<seq<T>>, row: int, col: int)
      requires Valid() && IsImage(img, width, |img|)
      requires col >= width && LineBuffTrusted(img, row, col)
      ensures LineBuffTrusted(img, row + 1, 0)
    {
    }

    ghost function Contents(): (s: seq<seq<T>>)
      requires Valid()
      reads win
    {
      seq(ky, i requires 0 <= i < ky reads win =>
        seq(kx, j requires 0 <= j < kx reads win => win[i, j]))
    }

    /** A copy of the window, as the filter receives it. */
    method Snapshot() returns (s: seq<seq<T>>)
      requires Valid()
      ensures s == Contents()
      ensures |s| == ky && forall i, j :: 0 <= i < ky && 0 <= j < kx ==> |s[i]| == kx && s[i][j] == win[i, j]
    {
      s := [];
      for i := 0 to ky
        invariant |s| == i
        invariant forall p :: 0 <= p < i ==> s[p] == Contents()[p]
      {
        var line := [];
        for j := 0 to kx
          invariant |line| == j
          invariant forall q :: 0 <= q < j ==> line[q] == win[i, q]
        {
          line := line + [win[i, j]];
        }
        s := s + [line];
      }
    }

    method ShiftLeft()
      requires Valid()
      modifies winTmp
      ensures forall i, j :: 0 <= i < ky && 0 <= j < kx - 1 ==> winTmp[i, j] == old(winTmp[i, j + 1])
    {
      for i := 0 to ky
        invariant forall p, q :: 0 <= p < i && 0 <= q < kx - 1 ==> winTmp[p, q] == old(winTmp[p, q + 1])
        invariant forall p, q :: i <= p < ky && 0 <= q < kx ==> winTmp[p, q] == old(winTmp[p, q])
      {
        for j := 0 to kx - 1
          invariant forall p, q :: 0 <= p < i && 0 <= q < kx - 1 ==> winTmp[p, q] == old(winTmp[p, q + 1])
            invariant forall q :: 0 <= q < j ==> winTmp[i, q] == old(winTmp[i, q + 1])
          invariant forall q :: j <= q < kx ==> winTmp[i, q] == old(winTmp[i, q])
          invariant forall p, q :: i < p < ky && 0 <= q < kx ==> winTmp[p, q] == old(winTmp[p, q])
        {
          winTmp[i, j] := winTmp[i, j + 1];
        }
      }
    }

    /** Feeds column col of the line buffer and the new pixel into the last window column,
        and moves that line buffer column up by one row. */
    method PushColumn(col: nat, pixel: T)
      requires Valid() && col < width
      modifies lineBuff, winTmp
      ensures forall i :: 0 <= i < ky - 1 ==> winTmp[i, kx - 1] == old(lineBuff[i, col])
      ensures winTmp[ky - 1, kx - 1] == pixel
      ensures forall i, j :: 0 <= i < ky && 0 <= j < kx - 1 ==> winTmp[i, j] == old(winTmp[i, j])
      ensures forall i :: 0 <= i < ky - 1 ==>
        lineBuff[i, col] == if i == ky - 2 then pixel else old(lineBuff[i + 1, col])
      ensures forall i, c :: 0 <= i < ky - 1 && 0 <= c < width && c != col ==> lineBuff[i, c] == old(lineBuff[i, c])
    {
      for i := 0 to ky - 1
        invariant forall p :: 0 <= p < i ==> winTmp[p, kx - 1] == old(lineBuff[p, col])
        invariant forall p :: 0 <= p < i - 1 ==> lineBuff[p, col] == old(lineBuff[p + 1, col])
        invariant forall p :: 0 <= p < ky - 1 && i - 1 <= p ==> lineBuff[p, col] == old(lineBuff[p, col])
        invariant forall p, q :: 0 <= p < ky && 0 <= q < kx - 1 ==> winTmp[p, q] == old(winTmp[p, q])
        invariant forall p, c :: 0 <= p < ky - 1 && 0 <= c < width && c != col ==> lineBuff[p, c] == old(lineBuff[p, c])
      {
        if i == 0 {
          winTmp[i, kx - 1] := lineBuff[i, col];
        } else {
          var temp := lineBuff[i, col];
          winTmp[i, kx - 1] := temp;
          lineBuff[i - 1, col] := temp;
        }
      }
      if ky > 1 {
        lineBuff[ky - 2, col] := pixel;
      }
      winTmp[ky - 1, kx - 1] := pixel;
    }

    /** X direction: out of place, from winTmp to win. */
    method RemapX(col: nat, padding: Padding)
      requires Valid() && Remappable(kx, col, width, padding)
      modifies win
      ensures forall i, j :: 0 <= i < ky && 0 <= j < kx ==>
        win[i, j] == winTmp[i, Slot(j, kx, col, width, padding)]
    {
      for i := 0 to ky
        invariant forall p, q :: 0 <= p < i && 0 <= q < kx ==>
          win[p, q] == winTmp[p, Slot(q, kx, col, width, padding)]
      {
        for j := 0 to kx
          invariant forall p, q :: 0 <= p < i && 0 <= q < kx ==>
            win[p, q] == winTmp[p, Slot(q, kx, col, width, padding)]
          invariant forall q :: 0 <= q < j ==>
            win[i, q] == winTmp[i, Slot(q, kx, col, width, padding)]
        {
          win[i, j] := winTmp[i, Slot(j, kx, col, width, padding)];
        }
      }
    }

    /** Y direction: in place.  A row that a later row copies from has either not been
        overwritten yet or, being a fixed point of the remap, been copied onto itself. */
    method RemapY(row: nat, height: nat, padding: Padding)
      requires Valid() && Remappable(ky, row, height, padding)
      modifies win
      ensures forall i, j :: 0 <= i < ky && 0 <= j < kx ==>
        win[i, j] == old(win[Slot(i, ky, row, height, padding), j])
    {
      for i := 0 to ky
        invariant forall p, q :: 0 <= p < i && 0 <= q < kx ==>
          win[p, q] == old(win[Slot(p, ky, row, height, padding), q])
        invariant forall p, q :: i <= p < ky && 0 <= q < kx ==> win[p, q] == old(win[p, q])
      {
        var ix := Slot(i, ky, row, height, padding);
        for j := 0 to kx
          invariant forall p, q :: 0 <= p < i && 0 <= q < kx ==>
            win[p, q] == old(win[Slot(p, ky, row, height, padding), q])
          invariant forall q :: 0 <= q < j ==> win[i, q] == old(win[ix, q])
          invariant forall q :: j <= q < kx ==> win[i, q] == old(win[i, q])
          invariant forall p, q :: i < p < ky && 0 <= q < kx ==> win[p, q] == old(win[p, q])
        {
          RemapIsIdempotent(i, ky, row, height, padding);
          assert Slot(ix, ky, row, height, padding) == ix;
          win[i, j] := win[ix, j];
        }
      }
    }

    /** The first half of a step: shift, then take in the pixel at (row, col), if the image
        has one there.  The trust predicates are the step invariant. */
    method Absorb(row: nat, col: nat, height: nat, pixel: T, ghost img: seq<seq<T>>)
      requires Valid() && IsImage(img, width, height)
      requires row < height && col < width ==> pixel == img[row][col]
      requires LineBuffTrusted(img, row, col) && WindowTrusted(img, row, col - 1)
      modifies lineBuff, winTmp
      ensures LineBuffTrusted(img, row, col + 1) && WindowTrusted(img, row, col)
    {
      if col < width + kx / 2 && row < height + ky / 2 {
        ShiftLeft();
        forall i, j | 0 <= i < ky && 0 <= j < kx - 1 && 0 <= row - (ky - 1) + i < |img|
          && 0 <= col - (kx - 1) + j < width
          ensures winTmp[i, j] == img[row - (ky - 1) + i][col - (kx - 1) + j]
        {
          assert winTmp[i, j] == old(winTmp[i, j + 1]);
        }
      }
      if col < width && row < height + ky / 2 {
        PushColumn(col, pixel);
        ghost var last := kx - 1;
        forall i | 0 <= i < ky && 0 <= row - (ky - 1) + i < |img|
          ensures winTmp[i, last] == img[row - (ky - 1) + i][col]
        {
          if i < ky - 1 { assert winTmp[i, last] == old(lineBuff[i, col]); }
        }
      }
    }

    /** The second half of a step: from (ky/2, kx/2) on, the remapped window is the padded
        neighbourhood of the pixel half a kernel behind. */
    method Present(row: nat, col: nat, height: nat, padding: Padding, ghost img: seq<seq<T>>)
      requires Valid() && Supported(kx, ky, width, height, padding) && IsImage(img, width, height)
      requires Remappable(kx, col, width, padding) && Remappable(ky, row, height, padding)
      requires WindowTrusted(img, row, col)
      modifies win
      ensures ky / 2 <= row < height + ky / 2 && kx / 2 <= col < width + kx / 2 ==>
        Contents() == PaddedWindow(img, col - kx / 2, row - ky / 2, width, height, kx, ky, padding)
    {
      RemapX(col, padding);
      label AfterX:
      RemapY(row, height, padding);
      if ky / 2 <= row < height + ky / 2 && kx / 2 <= col < width + kx / 2 {
        ghost var x, y := col - kx / 2, row - ky / 2;
        forall i, j | 0 <= i < ky && 0 <= j < kx
          ensures Shows(img, x, y, height, padding, i, j)
        {
          var ix, jx := Slot(i, ky, row, height, padding), Slot(j, kx, col, width, padding);
          assert win[i, j] == old@AfterX(win[ix, j]);
          assert win[i, j] == winTmp[ix, jx];
          SlotsHoldPadded(img, row, col, height, padding, i, j);
        }
        ShowsEverything(img, x, y, height, padding);
      }
    }

    /** One step of a stream filter at loop position (row, col). */
    method Step(row: nat, col: nat, height: nat, pixel: T, padding: Padding, ghost img: seq<seq<T>>)
      requires Valid() && Supported(kx, ky, width, height, padding) && IsImage(img, width, height)
      requires Remappable(kx, col, width, padding) && Remappable(ky, row, height, padding)
      requires row < height && col < width ==> pixel == img[row][col]
      requires LineBuffTrusted(img, row, col) && WindowTrusted(img, row, col - 1)
      modifies lineBuff, winTmp, win
      ensures LineBuffTrusted(img, row, col + 1) && WindowTrusted(img, row, col)
      ensures ky / 2 <= row < height + ky / 2 && kx / 2 <= col < width + kx / 2 ==>
        Contents() == PaddedWindow(img, col - kx / 2, row - ky / 2, width, height, kx, ky, padding)
    {
      hide PaddedWindow, LineBuffTrusted, WindowTrusted, Contents;
      Absorb(row, col, height, pixel, img);
      Present(row, col, height, padding, img);
    }

    /** Window cell (i, j) is the pixel that padding selects there for output (x, y). */
    ghost predicate Shows(img: seq<seq<T>>, x: nat, y: nat, height: nat, padding: Padding, i: nat, j: nat)
      requires Valid() && Supported(kx, ky, width, height, padding) && IsImage(img, width, height)
      requires x < width && y < height && i < ky && j < kx
      reads win
    {
      PadInRange(padding, y - ky / 2 + i, ky, height);
      PadInRange(padding, x - kx / 2 + j, kx, width);
      win[i, j] == img[Pad(padding, y - ky / 2 + i, height)][Pad(padding, x - kx / 2 + j, width)]
    }

    lemma SlotsHoldPadded(img: seq<seq<T>>, row: nat, col: nat, height: nat, padding: Padding, i: nat, j: nat)
      requires Valid() && Supported(kx, ky, width, height, padding) && IsImage(img, width, height)
      requires ky / 2 <= row < height + ky / 2 && kx / 2 <= col < width + kx / 2
      requires WindowTrusted(img, row, col) && i < ky && j < kx
      ensures var y, x := Pad(padding, row - (ky - 1) + i, height), Pad(padding, col - (kx - 1) + j, width);
        0 <= y < height && 0 <= x < width &&
        winTmp[Slot(i, ky, row, height, padding), Slot(j, kx, col, width, padding)] == img[y][x]
    {
      hide Pad, GetNewCoords;
      RemapSelectsPadded(i, ky, row, height, padding);
      RemapSelectsPadded(j, kx, col, width, padding);
      var ix, jx := Slot(i, ky, row, height, padding), Slot(j, kx, col, width, padding);
      assert winTmp[ix, jx] == img[row - (ky - 1) + ix][col - (kx - 1) + jx];
    }

    lemma ShowsEverything(img: seq<seq<T>>, x: nat, y: nat, height: nat, padding: Padding)
      requires Valid() && Supported(kx, ky, width, height, padding) && IsImage(img, width, height)
      requires x < width && y < height
      requires forall i, j :: 0 <= i < ky && 0 <= j < kx ==> Shows(img, x, y, height, padding, i, j)
      ensures Contents() == PaddedWindow(img, x, y, width, height, kx, ky, padding)
    {
      var expected := PaddedWindow(img, x, y, width, height, kx, ky, padding);
      forall i | 0 <= i < ky
        ensures Contents()[i] == expected[i]
      {
        forall j | 0 <= j < kx
          ensures Contents()[i][j] == expected[i][j]
        {
          assert Shows(img, x, y, height, padding, i, j);
        }
      }
    }
  }
}
