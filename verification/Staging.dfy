/** Shared-memory staging (stageIterationToSharedMemory, lib/AST/MemoryAccess.cpp): the
    threads of a block copy an image tile with its halo into a cache, synchronise, and from
    then on read only the cache. */
module Staging {
  import opened Borders
  import opened Launch
  import opened Dispatch

  /** An accessor: the image area it selects, its border mode and its window extents. */
  datatype Accessor = Accessor(mode: Mode, offsetX: nat, offsetY: nat, width: nat, height: nat,
                               windowX: nat, windowY: nat)
  {
    ghost predicate Valid() { width >= 1 && height >= 1 && windowX >= 1 && windowY >= 1 }

    /** Image column that a code variant selects for column x of the accessor; no border
        handling is generated for a dimension in which the window is one pixel wide. */
    function IndexX(v: Variant, x: int): int
      requires width >= 1
    {
      if windowX <= 1 then offsetX + x
      else EmittedIndex(mode, v.right, v.left, offsetX + x, offsetX, offsetX + width)
    }

    function IndexY(v: Variant, y: int): int
      requires height >= 1
    {
      if windowY <= 1 then offsetY + y
      else EmittedIndex(mode, v.bottom, v.top, offsetY + y, offsetY, offsetY + height)
    }

    /** Columns and rows a window reaches to the right of and below its centre. */
    function Right(): int { windowX - 1 - windowX / 2 }
    function Below(): int { windowY - 1 - windowY / 2 }
  }

  /** One block's work on one accessor.  `pixel` reads the underlying memory and means
      nothing outside the image; maxWindowY is the largest window height of the kernel. */
  datatype Tile<!T> = Tile(g: Geometry, acc: Accessor, pixel: (int, int) -> T, variant: Variant,
                          bi: int, bj: int, maxWindowY: nat)
  {
    ghost predicate Valid() {
      && g.Valid() && g.TileHeight() >= 1
      && acc.Valid() && acc.windowY <= maxWindowY
    }

    // columns: one line per thread row, or three if the window is wider than a pixel
    function Stages(): nat { if acc.windowX > 1 then 3 else 1 }
    function ShiftX(): nat { if acc.windowX > 1 then g.blockX else 0 }
    function ShiftY(): nat { if acc.windowY > 1 then acc.windowY / 2 else 0 }

    // the bottom apron, in multiples of the block height
    function PAdd(): int
      requires g.blockY >= 1
    {
      CeilDiv(acc.windowY - 1, g.blockY)
    }

    function MaxPAdd(): int
      requires g.blockY >= 1
    {
      CeilDiv(2 * (if maxWindowY <= 1 then 0 else maxWindowY / 2), g.blockY)
    }

    // extents of the declared cache array
    function SmemHeight(): int
      requires g.blockY >= 1
    {
      CeilDiv(g.ppt * g.blockY + acc.windowY - 1, g.blockY) * g.blockY
    }

    function SmemWidth(): int { g.blockX * Stages() + 1 }

    /** An image read at position (x, y) of the iteration space's coordinates, with the
        border handling the variant includes. */
    function Fetch(v: Variant, x: int, y: int): T
      requires acc.width >= 1 && acc.height >= 1
    {
      pixel(acc.IndexX(v, x - g.offsetX), acc.IndexY(v, y))
    }

    /** What cell [r][c] of the cache is meant to hold. */
    function Value(r: int, c: int): T
      requires acc.width >= 1 && acc.height >= 1
    {
      Fetch(variant, Start(bi, g.blockX) + c - ShiftX(), Start(bj, g.TileHeight()) + r - ShiftY())
    }

    predicate IsStaged(r: int, c: int)
      requires g.blockY >= 1
    {
      0 <= r < (g.ppt + PAdd()) * g.blockY && 0 <= c < Stages() * g.blockX
    }

    /** The thread, and the row and column step of that thread, that stage cell [r][c]. */
    function StepOf(r: int, c: int): Step
      requires g.blockX >= 1 && g.blockY >= 1
    {
      Step(c % g.blockX, r % g.blockY, r / g.blockY, c / g.blockX)
    }

    predicate IsThread(lx: int, ly: int) { 0 <= lx < g.blockX && 0 <= ly < g.blockY }

    /** The declared array holds every staged cell. */
    lemma StagedFits()
      requires Valid()
      ensures PAdd() >= 0 && PAdd() <= MaxPAdd()
      ensures (g.ppt + PAdd()) * g.blockY == SmemHeight() && Stages() * g.blockX < SmemWidth()
    {
      var b := g.blockY;
      BelowCeil(-1, acc.windowY - 1, b);
      BelowCeil(MaxPAdd(), acc.windowY - 1, b);
      BelowCeil(MaxPAdd(), 2 * (if maxWindowY <= 1 then 0 else maxWindowY / 2), b);
      CeilShift(g.ppt, acc.windowY - 1, b);
    }

    lemma CeilShift(n: int, a: int, b: int)
      requires b > 0
      ensures CeilDiv(n * b + a, b) == n + CeilDiv(a, b)
    {
      var q, r := (a + b - 1) / b, (a + b - 1) % b;
      assert a + b - 1 == q * b + r;
      RemainderUnique(n * b + a + b - 1, b, n + q, r);
    }

    /** Where the p-th row and i-th column of thread (lx, ly) lie, and what belongs there. */
    lemma CellOfStep(lx: int, ly: int, p: int, i: int)
      requires Valid() && IsThread(lx, ly)
      requires 0 <= p < g.ppt + PAdd() && 0 <= i < Stages()
      ensures var r, c := ly + p * g.blockY, lx + i * g.blockX;
        && IsStaged(r, c) && StepOf(r, c) == Step(lx, ly, p, i)
        && 0 <= r < SmemHeight() && 0 <= c < SmemWidth()
        && Value(r, c) == Fetch(variant, Start(bi, g.blockX) + lx + i * g.blockX - ShiftX(),
                                Start(bj, g.TileHeight()) + ly + p * g.blockY - ShiftY())
    {
      StagedFits();
      MulMono(0, p, g.blockY);
      MulMono(p + 1, g.ppt + PAdd(), g.blockY);
      assert (p + 1) * g.blockY == p * g.blockY + g.blockY;
      MulMono(0, i, g.blockX);
      MulMono(i + 1, Stages(), g.blockX);
      assert (i + 1) * g.blockX == i * g.blockX + g.blockX;
      QuotientFrom(ly + p * g.blockY, p, g.blockY);
      QuotientFrom(lx + i * g.blockX, i, g.blockX);
    }

    /** A staged cell is determined by its step: no two threads, and no two steps of a
        thread, stage the same cell. */
    lemma StepOfCell(r: int, c: int)
      requires Valid() && IsStaged(r, c)
      ensures var s := StepOf(r, c);
        && IsThread(s.lx, s.ly) && 0 <= s.p < g.ppt + PAdd() && 0 <= s.i < Stages()
        && r == s.ly + s.p * g.blockY && c == s.lx + s.i * g.blockX
    {
      QuotientIn(r, (g.ppt + PAdd()) * g.blockY, g.blockY);
      QuotientIn(c, Stages() * g.blockX, g.blockX);
      CeilShift(g.ppt + PAdd(), 0, g.blockY);
      CeilShift(Stages(), 0, g.blockX);
      RemainderUnique(g.blockY - 1, g.blockY, 0, g.blockY - 1);
      RemainderUnique(g.blockX - 1, g.blockX, 0, g.blockX - 1);
    }
  }

  /** Thread (lx, ly) staging its p-th row and i-th column. */
  datatype Step = Step(lx: int, ly: int, p: int, i: int)

  /** One row of one thread: up to three pixels, a block width apart. */
  method StageRow<T>(smem: array2<T>, t: Tile<T>, lx: int, ly: int, p: int)
    requires t.Valid() && t.IsThread(lx, ly) && 0 <= p < t.g.ppt + t.PAdd()
    requires smem.Length0 == t.SmemHeight() && smem.Length1 == t.SmemWidth()
    modifies smem
    ensures forall r, c :: 0 <= r < smem.Length0 && 0 <= c < smem.Length1 ==>
      smem[r, c] == if t.IsStaged(r, c) && t.StepOf(r, c) == Step(lx, ly, p, t.StepOf(r, c).i)
                    then t.Value(r, c) else old(smem[r, c])
  {
    hide Tile.Value, Tile.Fetch, Tile.SmemHeight, Tile.SmemWidth, Tile.PAdd, Tile.StepOf, Tile.IsStaged, Start;
    var gidX := Start(t.bi, t.g.blockX) + lx;
    var gidY := Start(t.bj, t.g.TileHeight()) + ly + p * t.g.blockY;
    forall r, c | t.IsStaged(r, c)
      ensures t.StepOf(r, c).i >= 0
    {
      t.StepOfCell(r, c);
    }
    var i := 0;
    while i < t.Stages()
      invariant 0 <= i <= t.Stages()
      invariant forall r, c :: 0 <= r < smem.Length0 && 0 <= c < smem.Length1 ==>
        smem[r, c] == if t.IsStaged(r, c) && t.StepOf(r, c) == Step(lx, ly, p, t.StepOf(r, c).i) && t.StepOf(r, c).i < i
                      then t.Value(r, c) else old(smem[r, c])
    {
      t.CellOfStep(lx, ly, p, i);
      smem[ly + p * t.g.blockY, lx + i * t.g.blockX] :=
        t.Fetch(t.variant, gidX + i * t.g.blockX - t.ShiftX(), gidY - t.ShiftY());
      forall r, c | t.IsStaged(r, c) && t.StepOf(r, c) == Step(lx, ly, p, i)
        ensures r == ly + p * t.g.blockY && c == lx + i * t.g.blockX
      {
        t.StepOfCell(r, c);
      }
      i := i + 1;
    }
    forall r, c | t.IsStaged(r, c)
      ensures t.StepOf(r, c).i < i
    {
      t.StepOfCell(r, c);
    }
  }

  /** The staging code of one thread. */
  method StageThread<T>(smem: array2<T>, t: Tile<T>, lx: int, ly: int)
    requires t.Valid() && t.IsThread(lx, ly)
    requires smem.Length0 == t.SmemHeight() && smem.Length1 == t.SmemWidth()
    modifies smem
    ensures forall r, c :: 0 <= r < smem.Length0 && 0 <= c < smem.Length1 ==>
      smem[r, c] == if t.IsStaged(r, c) && t.StepOf(r, c).lx == lx && t.StepOf(r, c).ly == ly
                    then t.Value(r, c) else old(smem[r, c])
  {
    t.StagedFits();
    hide Tile.Value, Tile.Fetch, Tile.SmemHeight, Tile.SmemWidth, Tile.PAdd, Tile.MaxPAdd, Tile.StepOf, Tile.IsStaged;
    var p := 0;
    while p < t.g.ppt + t.MaxPAdd()
      invariant 0 <= p <= t.g.ppt + t.MaxPAdd()
      invariant forall r, c :: 0 <= r < smem.Length0 && 0 <= c < smem.Length1 ==>
        smem[r, c] == if t.IsStaged(r, c) && t.StepOf(r, c).lx == lx && t.StepOf(r, c).ly == ly && t.StepOf(r, c).p < p
                      then t.Value(r, c) else old(smem[r, c])
    {
      // check if the bottom apron has to be fetched
      if p >= t.g.ppt && p >= t.g.ppt + t.PAdd() {
        forall r, c | t.IsStaged(r, c)
          ensures t.StepOf(r, c).p < p
        {
          t.StepOfCell(r, c);
        }
        p := p + 1;
        continue;
      }
      StageRow(smem, t, lx, ly, p);
      p := p + 1;
    }
    forall r, c | t.IsStaged(r, c)
      ensures t.StepOf(r, c).p < p
    {
      t.StepOfCell(r, c);
    }
  }

  /** The staging phase of a block up to the barrier.  Threads run in any order: the next one
      is picked arbitrarily.  (Their cells are disjoint by StepOfCell, so finer
      interleavings write the same values.) */
  method StageTile<T(0)>(t: Tile<T>) returns (smem: array2<T>)
    requires t.Valid()
    ensures fresh(smem) && smem.Length0 == t.SmemHeight() && smem.Length1 == t.SmemWidth()
    ensures forall r, c :: t.IsStaged(r, c) ==>
      0 <= r < smem.Length0 && 0 <= c < smem.Length1 && smem[r, c] == t.Value(r, c)
  {
    t.StagedFits();
    forall r, c | t.IsStaged(r, c)
      ensures 0 <= r < t.SmemHeight() && 0 <= c < t.SmemWidth()
    {
    }
    hide Tile.Value, Tile.Fetch, Tile.SmemHeight, Tile.SmemWidth, Tile.PAdd, Tile.MaxPAdd, Tile.StepOf, Tile.IsStaged;
    MulMono(0, t.g.ppt + t.PAdd(), t.g.blockY);
    smem := new T[t.SmemHeight(), t.SmemWidth()];
    var pending := set lx, ly | 0 <= lx < t.g.blockX && 0 <= ly < t.g.blockY :: (lx, ly);
    while pending != {}
      invariant forall lx, ly :: (lx, ly) in pending ==> t.IsThread(lx, ly)
      invariant forall r, c :: 0 <= r < smem.Length0 && 0 <= c < smem.Length1 && t.IsStaged(r, c) ==>
        (t.StepOf(r, c).lx, t.StepOf(r, c).ly) in pending || smem[r, c] == t.Value(r, c)
      decreases |pending|
    {
      var next :| next in pending;
      StageThread(smem, t, next.0, next.1);
      pending := pending - {next};
    }
  }

  // ---------------------------------------------------------------- reading the cache

  /** Window offsets of an accessor: 0 .. window-1 shifted by half the window. */
  predicate InWindow(acc: Accessor, dx: int, dy: int) {
    && -(acc.windowX / 2) <= dx < acc.windowX - acc.windowX / 2
    && -(acc.windowY / 2) <= dy < acc.windowY - acc.windowY / 2
  }

  /** The cell read for offset (dx, dy) by the body of work item w: lid + offset + halo. */
  function ReadRow<T>(t: Tile<T>, w: Work, dy: int): int { w.ly + w.p * t.g.blockY + (dy + t.ShiftY()) }
  function ReadCol<T>(t: Tile<T>, w: Work, dx: int): int { w.lx + (dx + t.ShiftX()) }

  /** The tile of the block that executes w, in the variant dispatch sends it to. */
  ghost predicate TileOf<T>(t: Tile<T>, w: Work)
    requires t.Valid()
  {
    t.bi == w.bi && t.bj == w.bj && t.variant == BordersOf(t.g, Taken(t.g, w.bi, w.bj))
  }

  /** Cache reads stay inside the staged cells for every thread exactly when half the window
      is no wider than a block. */
  lemma ReadsAreStagedIff<T>(t: Tile<T>)
    requires t.Valid()
    ensures (forall w: Work, dx, dy :: t.IsThread(w.lx, w.ly) && 0 <= w.p < t.g.ppt && InWindow(t.acc, dx, dy) ==>
              t.IsStaged(ReadRow(t, w, dy), ReadCol(t, w, dx)))
      <==> t.acc.windowX / 2 <= t.g.blockX
  {
    if t.acc.windowX / 2 <= t.g.blockX {
      forall w: Work, dx, dy | t.IsThread(w.lx, w.ly) && 0 <= w.p < t.g.ppt && InWindow(t.acc, dx, dy)
        ensures t.IsStaged(ReadRow(t, w, dy), ReadCol(t, w, dx))
      {
        ReadIsStaged(t, w, dx, dy);
      }
    } else {
      var w, dx := Work(0, 0, 0, 0, 0), -(t.acc.windowX / 2);
      assert InWindow(t.acc, dx, 0);
      assert !t.IsStaged(ReadRow(t, w, 0), ReadCol(t, w, dx));
    }
  }

  lemma ReadIsStaged<T>(t: Tile<T>, w: Work, dx: int, dy: int)
    requires t.Valid() && t.IsThread(w.lx, w.ly) && 0 <= w.p < t.g.ppt && InWindow(t.acc, dx, dy)
    requires t.acc.windowX / 2 <= t.g.blockX
    ensures t.IsStaged(ReadRow(t, w, dy), ReadCol(t, w, dx))
  {
    RowInCache(w.ly, w.p, dy + t.ShiftY(), t.g.ppt, t.acc.windowY, t.g.blockY);
  }

  lemma RowInCache(ly: int, p: int, d: int, ppt: int, window: nat, b: int)
    requires 0 <= ly < b && 0 <= p < ppt && 0 <= d < window
    ensures 0 <= ly + p * b + d < (ppt + CeilDiv(window - 1, b)) * b
  {
    var halo := CeilDiv(window - 1, b);
    MulMono(0, p, b);
    MulMono(p + 1, ppt, b);
    assert (p + 1) * b == p * b + b;
    BelowCeil(halo, window - 1, b);
    hide CeilDiv;
    assert (ppt + halo) * b == ppt * b + halo * b;
  }

  /** The staged value of the cell read for (dx, dy) is the fetch at that offset. */
  lemma ReadValue<T>(t: Tile<T>, w: Work, dx: int, dy: int)
    requires t.Valid() && TileOf(t, w)
    ensures t.Value(ReadRow(t, w, dy), ReadCol(t, w, dx)) == t.Fetch(t.variant, GidX(t.g, w) + dx, GidY(t.g, w) + dy)
  {
  }

  /** Cache agreement: after staging, every window read of every evaluation of the body finds
      in the cache what the unstaged read of its code variant returns. */
  lemma CacheAgreement<T>(t: Tile<T>, smem: array2<T>, w: Work, dx: int, dy: int)
    requires t.Valid() && TileOf(t, w) && InWindow(t.acc, dx, dy) && InGrid(t.g, w)
    requires t.acc.windowX / 2 <= t.g.blockX
    requires forall r, c :: t.IsStaged(r, c) ==>
      0 <= r < smem.Length0 && 0 <= c < smem.Length1 && smem[r, c] == t.Value(r, c)
    ensures var r, c := ReadRow(t, w, dy), ReadCol(t, w, dx);
      && 0 <= r < smem.Length0 && 0 <= c < smem.Length1
      && smem[r, c] == t.Fetch(t.variant, GidX(t.g, w) + dx, GidY(t.g, w) + dy)
  {
    ReadIsStaged(t, w, dx, dy);
    ReadValue(t, w, dx, dy);
  }
}
