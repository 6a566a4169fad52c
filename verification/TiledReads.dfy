/** What tiled kernels read: the pixel a window read finds in the cache, compared with the read
    that handles every border and with the DSL's pixel_bh (dsl/image.hpp), for every window
    shape and exactly under which launches they agree. */
module TiledReads {
  import opened Borders
  import opened Launch
  import opened Dispatch
  import opened Staging

  const ALL_SIDES := Variant(true, true, true, true)

  /** A launch over a non-empty space whose radii bound the accessor's window, outside the two
      families in which dispatch itself fails. */
  ghost predicate Launches(g: Geometry, acc: Accessor) {
    && g.Valid() && g.TileHeight() >= 1 && acc.Valid() && g.isWidth >= 1 && g.isHeight >= 1
    && g.sizeX >= acc.windowX / 2 && g.sizeY >= acc.windowY / 2
    && !BottomStealsRowFilter(g) && !ColumnFilterIgnoresOffset(g)
  }

  ghost function VariantOf(g: Geometry, w: Work): Variant
    requires g.blockX >= 1 && g.blockY >= 1 && g.TileHeight() >= 1
  {
    BordersOf(g, Taken(g, w.bi, w.bj))
  }

  /** Accessor column and row of the read at offset (dx, dy). */
  function Column(g: Geometry, w: Work, dx: int): int { GidX(g, w) + dx - g.offsetX }
  function Row(g: Geometry, w: Work, dy: int): int { GidY(g, w) + dy }

  function DslX(acc: Accessor, x: int): int
    requires acc.width >= 1
  {
    DslIndex(acc.mode, acc.offsetX + x, acc.offsetX, acc.offsetX + acc.width)
  }

  function DslY(acc: Accessor, y: int): int
    requires acc.height >= 1
  {
    DslIndex(acc.mode, acc.offsetY + y, acc.offsetY, acc.offsetY + acc.height)
  }

  // ----------------------------------------------------- which blocks omit which sides

  /** The blocks whose variant does not handle the right side are those before this one.  In a
      row filter of narrow blocks only BH_L omits it, since BH_NO is not reached. */
  function LastX(g: Geometry): int
    requires g.blockX >= 1
  {
    if g.blockX >= 16 || KernelY(g) then g.StartRight() else g.StartLeft()
  }

  /** Likewise for the bottom side: in a column filter of narrow blocks that tile the width
      only BH_T omits it. */
  function LastY(g: Geometry): int
    requires g.blockX >= 1 && g.blockY >= 1 && g.TileHeight() >= 1
  {
    if g.blockX >= 16 || KernelX(g) || (g.offsetX + g.isWidth) % g.blockX != 0 then g.StartBottom() else g.StartTop()
  }

  /** Dispatch is sound, and the blocks that omit a side are the ones named above. */
  lemma SidesOfBlock(g: Geometry, acc: Accessor, w: Work)
    requires Launches(g, acc) && Runs(g, w)
    ensures InSpace(g, GidX(g, w), GidY(g, w)) && SidesCovered(g, VariantOf(g, w), GidX(g, w), GidY(g, w))
    ensures KernelX(g) && !VariantOf(g, w).right ==> !g.FallBack() && GidX(g, w) < Start(LastX(g), g.blockX)
    ensures KernelY(g) && !VariantOf(g, w).bottom ==> !g.FallBack() && GidY(g, w) < Start(LastY(g), g.TileHeight())
  {
    DispatchIsSound(g, w);
    RowInTile(g, w);
    BlockBefore(GidX(g, w), w.bi, LastX(g), g.blockX);
    BlockBefore(GidY(g, w), w.bj, LastY(g), g.TileHeight());
    hide Taken, BordersOf, PassesX, PassesY, GidX, GidY, LastX, LastY, Start, End;
    hide Geometry.FallBack, Geometry.StartLeft, Geometry.StartRight, Geometry.StartTop, Geometry.StartBottom;
    if KernelX(g) && !VariantOf(g, w).right { OmitsRight(g, acc, w); }
    if KernelY(g) && !VariantOf(g, w).bottom { OmitsBottom(g, acc, w); }
  }

  lemma BlockBefore(x: int, n: int, last: int, b: int)
    requires b >= 1
    ensures x < End(n, b) && n < last ==> x < Start(last, b)
  {
    assert (n + 1) * b == n * b + b;
    if n < last { MulMono(n + 1, last, b); }
  }

  lemma OmitsRight(g: Geometry, acc: Accessor, w: Work)
    requires Launches(g, acc) && InGrid(g, w) && KernelX(g) && !VariantOf(g, w).right
    ensures !g.FallBack() && w.bi < LastX(g)
  {
    TakenCases(g, w.bi, w.bj);
    hide Taken, Geometry.StartTop;
    if !KernelY(g) && !g.FallBack() && w.bj >= g.StartBottom() && !(g.blockY == 1 && g.ppt == 1) {
      NoPartialTile(g, w.bj);
    }
    hide Geometry.StartLeft, Geometry.StartRight, Geometry.StartBottom, Geometry.TileHeight;
  }

  lemma OmitsBottom(g: Geometry, acc: Accessor, w: Work)
    requires Launches(g, acc) && InGrid(g, w) && KernelY(g) && !VariantOf(g, w).bottom
    ensures !g.FallBack() && w.bj < LastY(g)
  {
    TakenCases(g, w.bi, w.bj);
    hide Taken, Geometry.StartTop, Geometry.StartBottom;
    if !KernelX(g) && (g.offsetX + g.isWidth) % g.blockX == 0 {
      NoPartialColumn(g.offsetX + g.isWidth, g.blockX);
    }
    hide Geometry.StartLeft, CeilDiv;
  }

  lemma NoPartialColumn(n: int, b: int)
    requires b >= 1 && n % b == 0
    ensures CeilDiv(n, b) == n / b
  {
    var q := n / b;
    assert n == q * b;
    BelowCeil(q, n, b);
    BelowCeil(q - 1, n, b);
    assert (q - 1) * b == q * b - b;
  }

  // ------------------------------------------------------------------ what is staged

  /** Of a window more than one pixel high, all rows a block stages, the apron included, cross
      only sides that its variant handles: the lower rows are why the launch keeps blocks
      within p_add block heights of the bottom out of the interior. */
  lemma StagedRowsAreHandled<T>(t: Tile<T>, w: Work, r: int, c: int)
    requires t.Valid() && TileOf(t, w) && InGrid(t.g, w) && Launches(t.g, t.acc)
    requires t.acc.windowY > 1 && t.IsStaged(r, c)
    ensures var y := Start(t.bj, t.g.TileHeight()) + r - t.ShiftY();
      (y < 0 ==> t.variant.top) && (y >= t.g.isHeight ==> t.variant.bottom)
  {
    var g := t.g;
    var tile := g.TileHeight();
    RegionBounds(g, w.bj);
    StagedRowsEnd(t);
    if g.FallBack() { FallBackHandlesAll(g, w); } else { LeftOfRight(g); }
    TakenCases(g, w.bi, w.bj);
    hide Taken, CeilDiv, Geometry.FallBack, Geometry.StartLeft, Geometry.StartRight, Geometry.StartTop,
      Geometry.StartBottom;
  }

  lemma StagedRowsEnd<T>(t: Tile<T>)
    requires t.Valid() && Launches(t.g, t.acc)
    ensures (t.g.ppt + t.PAdd()) * t.g.blockY <= t.g.TileHeight() + CeilDiv(2 * t.g.sizeY, t.g.blockY) * t.g.blockY
  {
    var g := t.g;
    var halo := CeilDiv(2 * g.sizeY, g.blockY);
    BelowCeil(halo, t.acc.windowY - 1, g.blockY);
    BelowCeil(halo, 2 * g.sizeY, g.blockY);
    assert t.PAdd() <= halo;
    MulMono(t.PAdd(), halo, g.blockY);
    assert (g.ppt + t.PAdd()) * g.blockY == g.ppt * g.blockY + t.PAdd() * g.blockY;
  }

  /** Columns are staged a whole block width to each side, whatever the window: they cross only
      handled sides exactly if the neighbouring blocks lie in the space too. */
  lemma StagedColumnsAreHandledIff<T>(t: Tile<T>)
    requires t.Valid() && t.acc.windowX > 1
    ensures (forall c :: t.IsStaged(0, c) ==>
               var x := Start(t.bi, t.g.blockX) + c - t.ShiftX() - t.g.offsetX;
               (x < 0 ==> t.variant.left) && (x >= t.g.isWidth ==> t.variant.right))
      <==> && (t.variant.left || t.g.offsetX + t.g.blockX <= Start(t.bi, t.g.blockX))
           && (t.variant.right || End(t.bi, t.g.blockX) + t.g.blockX <= t.g.offsetX + t.g.isWidth)
  {
    t.StagedFits();
    MulMono(1, t.g.ppt + t.PAdd(), t.g.blockY);
    assert t.IsStaged(0, 0) && t.IsStaged(0, 3 * t.g.blockX - 1);
  }

  // ------------------------------------------------------- evaluations that lack a side

  /** A position of the space whose block omits the right side and that lies as far right as
      any of them. */
  lemma LacksRight(g: Geometry, acc: Accessor)
    requires Launches(g, acc) && KernelX(g) && !g.FallBack()
    ensures var gx := Start(LastX(g), g.blockX) - 1;
      InSpace(g, gx, 0) && !VariantOf(g, Owner(g, gx, 0)).right
  {
    LastOmitting(g, acc);
    LastBlocks(g, acc);
    hide LastX, Taken, BordersOf, Start, Geometry.FallBack;
  }

  /** Where the last block that omits the right side ends. */
  lemma LastOmitting(g: Geometry, acc: Accessor)
    requires Launches(g, acc) && KernelX(g) && !g.FallBack()
    ensures var gx := Start(LastX(g), g.blockX) - 1;
      InSpace(g, gx, 0) && gx / g.blockX == LastX(g) - 1 && 0 / g.TileHeight() == 0
  {
    LeftOfRight(g);
    hide Geometry.FallBack, Geometry.StartLeft, Geometry.StartRight, Geometry.StartTop, Geometry.StartBottom;
    BlockBefore(Start(g.StartLeft(), g.blockX), g.StartLeft(), g.StartRight(), g.blockX);
    var bi := LastX(g) - 1;
    hide LastX;
    assert (bi + 1) * g.blockX == bi * g.blockX + g.blockX;
    MulMono(0, bi, g.blockX);
    QuotientFrom(Start(bi + 1, g.blockX) - 1, bi, g.blockX);
    QuotientFrom(0, 0, g.TileHeight());
  }

  /** The last blocks that omit a side. */
  lemma LastBlocks(g: Geometry, acc: Accessor)
    requires Launches(g, acc) && !g.FallBack()
    ensures KernelX(g) ==> !BordersOf(g, Taken(g, LastX(g) - 1, 0)).right
  {
    LeftOfRight(g);
    if BorderHandling(g) {
      TakenCases(g, LastX(g) - 1, 0);
    }
    hide Taken, Start, CeilDiv;
    hide Geometry.FallBack, Geometry.StartLeft, Geometry.StartRight, Geometry.StartTop, Geometry.StartBottom;
  }

  /** The order of the region bounds without the fall-back. */
  lemma LeftOfRight(g: Geometry)
    requires g.Valid() && g.TileHeight() >= 1 && !g.FallBack()
    ensures 0 <= g.StartLeft() && g.StartLeft() + 2 <= g.StartRight()
    ensures 0 <= g.StartTop() && g.StartTop() + 2 <= g.StartBottom()
    ensures g.sizeX > 0 ==> g.StartLeft() >= 1 && Start(g.StartLeft(), g.blockX) >= g.offsetX + g.sizeX
    ensures g.sizeY > 0 ==> g.StartTop() >= 1 && Start(g.StartTop(), g.TileHeight()) >= g.sizeY
    ensures Start(g.StartRight(), g.blockX) <= g.offsetX + g.isWidth - g.sizeX
    ensures Start(g.StartBottom(), g.TileHeight()) <= g.isHeight - g.sizeY
  {
    hide Start, CeilDiv, Geometry.StartLeft, Geometry.StartRight, Geometry.StartTop, Geometry.StartBottom;
    ColumnBounds(g);
    RowBounds(g);
  }

  lemma ColumnBounds(g: Geometry)
    requires g.Valid() && g.TileHeight() >= 1
    ensures 0 <= g.StartLeft()
    ensures g.sizeX > 0 ==> g.StartLeft() >= 1 && Start(g.StartLeft(), g.blockX) >= g.offsetX + g.sizeX
    ensures Start(g.StartRight(), g.blockX) <= g.offsetX + g.isWidth - g.sizeX
  {
    RegionBounds(g, -1);
    RegionBounds(g, 0);
    RegionBounds(g, g.StartLeft());
    RegionBounds(g, g.StartRight() - 1);
    hide CeilDiv, Geometry.StartLeft, Geometry.StartRight, Geometry.StartTop, Geometry.StartBottom, Geometry.TileHeight;
    EndIsStart(g.StartRight() - 1, g.blockX);
  }

  lemma RowBounds(g: Geometry)
    requires g.Valid() && g.TileHeight() >= 1
    ensures 0 <= g.StartTop()
    ensures g.sizeY > 0 ==> g.StartTop() >= 1 && Start(g.StartTop(), g.TileHeight()) >= g.sizeY
    ensures Start(g.StartBottom(), g.TileHeight()) <= g.isHeight - g.sizeY
  {
    RegionBounds(g, -1);
    RegionBounds(g, 0);
    RegionBounds(g, g.StartTop());
    RegionBounds(g, g.StartBottom() - 1);
    var halo := CeilDiv(2 * g.sizeY, g.blockY);
    BelowCeil(halo, 2 * g.sizeY, g.blockY);
    assert halo * g.blockY >= 2 * g.sizeY;
    hide CeilDiv, Geometry.StartLeft, Geometry.StartRight, Geometry.StartTop, Geometry.StartBottom, Geometry.TileHeight;
    EndIsStart(g.StartBottom() - 1, g.TileHeight());
  }

  lemma EndIsStart(n: int, b: int)
    ensures End(n, b) == Start(n + 1, b)
  {
    assert (n + 1) * b == n * b + b;
  }

  lemma OwnerOf(g: Geometry, gx: int, gy: int)
    requires g.Valid() && g.TileHeight() >= 1 && InSpace(g, gx, gy)
    ensures var w := Owner(g, gx, gy);
      && Runs(g, w) && GidX(g, w) == gx && GidY(g, w) == gy
      && w.bi == gx / g.blockX && w.bj == gy / g.TileHeight()
  {
    SpaceIsCovered(g, gx, gy);
  }

  /** The last column and row of the space belong to blocks on the right and bottom border. */
  lemma BorderBlocks(g: Geometry, acc: Accessor)
    requires Launches(g, acc) && !g.FallBack()
    ensures var bi := (g.offsetX + g.isWidth - 1) / g.blockX;
      KernelX(g) || (g.offsetX + g.isWidth) % g.blockX != 0 ==> bi >= g.StartRight()
    ensures var bj := (g.isHeight - 1) / g.TileHeight();
      KernelY(g) ==> bj >= g.StartBottom()
  {
    if KernelX(g) || (g.offsetX + g.isWidth) % g.blockX != 0 { LastColumn(g); }
    if KernelY(g) { LastRow(g); }
  }

  lemma LastColumn(g: Geometry)
    requires g.Valid() && g.TileHeight() >= 1
    requires KernelX(g) || (g.offsetX + g.isWidth) % g.blockX != 0
    ensures (g.offsetX + g.isWidth - 1) / g.blockX >= g.StartRight()
  {
    var n := g.offsetX + g.isWidth;
    var bi := (n - 1) / g.blockX;
    RegionBounds(g, bi);
    BelowFloor(bi, n - 1, g.blockX);
    hide Geometry.StartRight, CeilDiv;
    if bi < g.StartRight() {
      assert (bi + 1) * g.blockX == n;
      RemainderUnique(n, g.blockX, bi + 1, 0);
    }
  }

  lemma LastRow(g: Geometry)
    requires g.Valid() && g.TileHeight() >= 1 && KernelY(g)
    ensures (g.isHeight - 1) / g.TileHeight() >= g.StartBottom()
  {
    var bj := (g.isHeight - 1) / g.TileHeight();
    RegionBounds(g, bj);
    BelowFloor(bj, g.isHeight - 1, g.TileHeight());
    var halo := CeilDiv(2 * g.sizeY, g.blockY);
    BelowCeil(halo, 2 * g.sizeY, g.blockY);
    hide Geometry.StartBottom, CeilDiv, Geometry.TileHeight;
  }

  lemma LacksLeft(g: Geometry, acc: Accessor)
    requires Launches(g, acc) && KernelX(g) && !g.FallBack()
    ensures var gx := g.offsetX + g.isWidth - 1;
      InSpace(g, gx, 0) && !VariantOf(g, Owner(g, gx, 0)).left
  {
    LeftOfRight(g);
    BorderBlocks(g, acc);
    QuotientFrom(0, 0, g.TileHeight());
    TakenCases(g, (g.offsetX + g.isWidth - 1) / g.blockX, 0);
    hide Taken, Start, CeilDiv;
    hide Geometry.FallBack, Geometry.StartLeft, Geometry.StartRight, Geometry.StartTop, Geometry.StartBottom;
  }

  lemma LacksTop(g: Geometry, acc: Accessor)
    requires Launches(g, acc) && KernelY(g) && !g.FallBack()
    ensures var gy := g.isHeight - 1;
      InSpace(g, g.offsetX, gy) && !VariantOf(g, Owner(g, g.offsetX, gy)).top
  {
    LeftOfRight(g);
    BorderBlocks(g, acc);
    TakenCases(g, g.offsetX / g.blockX, (g.isHeight - 1) / g.TileHeight());
    hide Taken, Start, CeilDiv;
    hide Geometry.FallBack, Geometry.StartLeft, Geometry.StartRight, Geometry.StartTop, Geometry.StartBottom;
  }

  lemma LacksBottom(g: Geometry, acc: Accessor) returns (gx: int)
    requires Launches(g, acc) && KernelY(g) && !g.FallBack()
    ensures var gy := Start(LastY(g), g.TileHeight()) - 1;
      InSpace(g, gx, gy) && !VariantOf(g, Owner(g, gx, gy)).bottom
  {
    var border := KernelX(g) || (g.offsetX + g.isWidth) % g.blockX != 0;
    gx := if border then g.offsetX + g.isWidth - 1 else g.offsetX;
    var gy, bj := Start(LastY(g), g.TileHeight()) - 1, LastY(g) - 1;
    LeftOfRight(g);
    BorderBlocks(g, acc);
    assert (bj + 1) * g.TileHeight() == bj * g.TileHeight() + g.TileHeight();
    MulMono(0, bj, g.TileHeight());
    QuotientFrom(gy, bj, g.TileHeight());
    TakenCases(g, gx / g.blockX, bj);
    hide Taken, CeilDiv;
    hide Geometry.FallBack, Geometry.StartLeft, Geometry.StartRight, Geometry.StartTop, Geometry.StartBottom;
    BlockBefore(Start(g.StartTop(), g.TileHeight()), g.StartTop(), g.StartBottom(), g.TileHeight());
  }

  // ----------------------------------------------------- against the full border handling

  /** A window read that some evaluation of the kernel body performs. */
  ghost predicate Reads(g: Geometry, acc: Accessor, w: Work, dx: int, dy: int)
    requires g.blockX >= 1 && g.blockY >= 1 && g.TileHeight() >= 1
  {
    Runs(g, w) && InWindow(acc, dx, dy)
  }

  ghost predicate SameColumn(g: Geometry, acc: Accessor, w: Work, dx: int)
    requires g.blockX >= 1 && g.blockY >= 1 && g.TileHeight() >= 1 && acc.width >= 1
  {
    acc.IndexX(VariantOf(g, w), Column(g, w, dx)) == acc.IndexX(ALL_SIDES, Column(g, w, dx))
  }

  ghost predicate SameRow(g: Geometry, acc: Accessor, w: Work, dy: int)
    requires g.blockX >= 1 && g.blockY >= 1 && g.TileHeight() >= 1 && acc.height >= 1
  {
    acc.IndexY(VariantOf(g, w), Row(g, w, dy)) == acc.IndexY(ALL_SIDES, Row(g, w, dy))
  }

  /** The accessor is as wide as what is read without handling its right side; mirrored, also
      half as wide as all that is read. */
  predicate SidesFitX(g: Geometry, acc: Accessor)
    requires g.blockX >= 1 && g.blockY >= 1 && g.TileHeight() >= 1
  {
    acc.windowX > 1 && !g.FallBack() ==>
      && Start(LastX(g), g.blockX) - g.offsetX + acc.Right() <= acc.width
      && (acc.mode.Mirror? ==> g.isWidth + acc.Right() <= 2 * acc.width)
  }

  predicate SidesFitY(g: Geometry, acc: Accessor)
    requires g.blockX >= 1 && g.blockY >= 1 && g.TileHeight() >= 1
  {
    acc.windowY > 1 && !g.FallBack() ==>
      && Start(LastY(g), g.TileHeight()) + acc.Below() <= acc.height
      && (acc.mode.Mirror? ==> g.isHeight + acc.Below() <= 2 * acc.height)
  }

  /** The fall-back variant, and only it, handles every side the kernel filters. */
  lemma FallBackHandlesAll(g: Geometry, w: Work)
    requires g.blockX >= 1 && g.blockY >= 1 && g.TileHeight() >= 1 && g.FallBack() && BorderHandling(g)
    ensures VariantOf(g, w) == Variant(KernelY(g), KernelY(g), KernelX(g), KernelX(g))
  {
  }

  lemma ColumnIsSame(g: Geometry, acc: Accessor, w: Work, dx: int, dy: int)
    requires Launches(g, acc) && Reads(g, acc, w, dx, dy) && SidesFitX(g, acc)
    ensures SameColumn(g, acc, w, dx)
  {
    if acc.windowX > 1 {
      SidesOfBlock(g, acc, w);
      if g.FallBack() { FallBackHandlesAll(g, w); }
      hide EmittedIndex, Taken, BordersOf, Start, Runs, LastX, Geometry.FallBack;
      var v := VariantOf(g, w);
      UncrossedSideIsRedundant(acc.mode, v.right, v.left, acc.offsetX + Column(g, w, dx), acc.offsetX,
                               acc.offsetX + acc.width);
    }
  }

  lemma RowIsSame(g: Geometry, acc: Accessor, w: Work, dx: int, dy: int)
    requires Launches(g, acc) && Reads(g, acc, w, dx, dy) && SidesFitY(g, acc)
    ensures SameRow(g, acc, w, dy)
  {
    if acc.windowY > 1 {
      SidesOfBlock(g, acc, w);
      if g.FallBack() { FallBackHandlesAll(g, w); }
      hide EmittedIndex, Taken, BordersOf, Start, Runs, LastY, Geometry.FallBack;
      var v := VariantOf(g, w);
      UncrossedSideIsRedundant(acc.mode, v.bottom, v.top, acc.offsetY + Row(g, w, dy), acc.offsetY,
                               acc.offsetY + acc.height);
    }
  }

  /** Omitting sides changes no column that is read, exactly for accessors that wide. */
  lemma ColumnsAreSameIff(g: Geometry, acc: Accessor)
    requires Launches(g, acc)
    ensures (forall w: Work, dx, dy :: Reads(g, acc, w, dx, dy) ==> SameColumn(g, acc, w, dx)) <==> SidesFitX(g, acc)
  {
    if SidesFitX(g, acc) {
      forall w: Work, dx, dy | Reads(g, acc, w, dx, dy) ensures SameColumn(g, acc, w, dx) {
        ColumnIsSame(g, acc, w, dx, dy);
      }
    } else {
      var tooFar := Start(LastX(g), g.blockX) - g.offsetX + acc.Right() > acc.width;
      var gx := if tooFar then Start(LastX(g), g.blockX) - 1 else g.offsetX + g.isWidth - 1;
      if tooFar { LacksRight(g, acc); } else { LacksLeft(g, acc); }
      OwnerOf(g, gx, 0);
      var w := Owner(g, gx, 0);
      var v, dx := VariantOf(g, w), acc.Right();
      hide EmittedIndex, Taken, BordersOf, Start, Runs, LastX, Geometry.FallBack, Owner;
      UncrossedSideIsRedundant(acc.mode, v.right, v.left, acc.offsetX + Column(g, w, dx), acc.offsetX,
                               acc.offsetX + acc.width);
      assert Reads(g, acc, w, dx, 0) && !SameColumn(g, acc, w, dx);
    }
  }

  lemma RowsAreSameIff(g: Geometry, acc: Accessor)
    requires Launches(g, acc)
    ensures (forall w: Work, dx, dy :: Reads(g, acc, w, dx, dy) ==> SameRow(g, acc, w, dy)) <==> SidesFitY(g, acc)
  {
    if SidesFitY(g, acc) {
      forall w: Work, dx, dy | Reads(g, acc, w, dx, dy) ensures SameRow(g, acc, w, dy) {
        RowIsSame(g, acc, w, dx, dy);
      }
    } else {
      var tooFar := Start(LastY(g), g.TileHeight()) + acc.Below() > acc.height;
      var gy := if tooFar then Start(LastY(g), g.TileHeight()) - 1 else g.isHeight - 1;
      var gx := g.offsetX;
      if tooFar { gx := LacksBottom(g, acc); } else { LacksTop(g, acc); }
      OwnerOf(g, gx, gy);
      var w := Owner(g, gx, gy);
      var v, dy := VariantOf(g, w), acc.Below();
      hide EmittedIndex, Taken, BordersOf, Start, Runs, LastY, Geometry.FallBack, Owner;
      UncrossedSideIsRedundant(acc.mode, v.bottom, v.top, acc.offsetY + Row(g, w, dy), acc.offsetY,
                               acc.offsetY + acc.height);
      assert Reads(g, acc, w, 0, dy) && !SameRow(g, acc, w, dy);
    }
  }

  // --------------------------------------------------------------------- against the DSL

  /** The variant selects the DSL's column, and that column is one of the accessor's. */
  ghost predicate DslColumn(g: Geometry, acc: Accessor, w: Work, dx: int)
    requires g.blockX >= 1 && g.blockY >= 1 && g.TileHeight() >= 1 && acc.width >= 1
  {
    && acc.IndexX(VariantOf(g, w), Column(g, w, dx)) == DslX(acc, Column(g, w, dx))
    && acc.offsetX <= DslX(acc, Column(g, w, dx)) < acc.offsetX + acc.width
  }

  ghost predicate DslRow(g: Geometry, acc: Accessor, w: Work, dy: int)
    requires g.blockX >= 1 && g.blockY >= 1 && g.TileHeight() >= 1 && acc.height >= 1
  {
    && acc.IndexY(VariantOf(g, w), Row(g, w, dy)) == DslY(acc, Row(g, w, dy))
    && acc.offsetY <= DslY(acc, Row(g, w, dy)) < acc.offsetY + acc.height
  }

  /** One dimension of a launch, by sizes the caller knows: a window of one pixel needs an
      accessor as large as the space; a wider one reads at most one extent outside when it
      mirrors or repeats, and repeats only from the origin. */
  predicate DslFits(mode: Mode, offset: nat, extent: nat, window: nat, space: nat) {
    && (window <= 1 ==> space <= extent)
    && (window > 1 && !mode.Clamp? ==> window / 2 <= extent && space + (window - 1 - window / 2) <= 2 * extent)
    && (window > 1 && mode.Repeat? ==> offset == 0)
  }

  predicate FitsX(g: Geometry, acc: Accessor)
    requires g.blockX >= 1 && g.blockY >= 1 && g.TileHeight() >= 1
  {
    SidesFitX(g, acc) && DslFits(acc.mode, acc.offsetX, acc.width, acc.windowX, g.isWidth)
  }

  predicate FitsY(g: Geometry, acc: Accessor)
    requires g.blockX >= 1 && g.blockY >= 1 && g.TileHeight() >= 1
  {
    SidesFitY(g, acc) && DslFits(acc.mode, acc.offsetY, acc.height, acc.windowY, g.isHeight)
  }

  /** With both sides handled, exactly the indices at most one extent outside. */
  lemma HandledIsDslIff(mode: Mode, offset: nat, extent: nat, x: int)
    requires extent >= 1
    ensures var i := EmittedIndex(mode, true, true, offset + x, offset, offset + extent);
      var dsl := DslIndex(mode, offset + x, offset, offset + extent);
      && ((mode.Repeat? ==> offset == 0) ==>
            (i == dsl && offset <= dsl < offset + extent <==> mode.Clamp? || -(extent as int) <= x < 2 * extent))
      && (mode.Repeat? && offset > 0 && x == -1 ==> i != dsl)
      && (0 <= x < extent ==> dsl == offset + x)
  {
    ClampAndMirrorAgreeWithDsl(offset + x, offset, offset + extent);
    RepeatAgreesWithDsl(offset + x, offset, offset + extent);
  }

  /** One dimension of a launch that fits: every index within the window's reach. */
  lemma FitIndex(mode: Mode, offset: nat, extent: nat, window: nat, space: nat, x: int)
    requires extent >= 1 && window >= 1 && DslFits(mode, offset, extent, window, space)
    requires -((window / 2) as int) <= x < space + (window - 1 - window / 2)
    ensures
      var i := if window <= 1 then offset + x else EmittedIndex(mode, true, true, offset + x, offset, offset + extent);
      var dsl := DslIndex(mode, offset + x, offset, offset + extent);
      i == dsl && offset <= dsl < offset + extent
  {
    HandledIsDslIff(mode, offset, extent, x);
    hide EmittedIndex, DslIndex;
  }

  /** ... and that index is what the mode is named for: the nearest one, or a reflection. */
  lemma FitSelects(mode: Mode, offset: nat, extent: nat, window: nat, space: nat, x: int)
    requires extent >= 1 && window >= 1 && DslFits(mode, offset, extent, window, space)
    requires -((window / 2) as int) <= x < space + (window - 1 - window / 2)
    ensures Selects(mode, DslIndex(mode, offset + x, offset, offset + extent), offset + x, offset, offset + extent)
  {
    FitIndex(mode, offset, extent, window, space, x);
    EmittedSelectsIff(mode, offset + x, offset, offset + extent);
    ClampAndMirrorAgreeWithDsl(offset + x, offset, offset + extent);
    if window <= 1 { InsideSelects(mode, offset + x, offset, offset + extent); }
  }

  lemma InsideSelects(mode: Mode, idx: int, lower: int, upper: int)
    requires lower <= idx < upper
    ensures Selects(mode, idx, idx, lower, upper)
  {
  }

  /** A read stays within the window's reach of the space. */
  lemma WithinReach(g: Geometry, acc: Accessor, w: Work, dx: int, dy: int)
    requires Launches(g, acc) && Reads(g, acc, w, dx, dy)
    ensures -((acc.windowX / 2) as int) <= Column(g, w, dx) < g.isWidth + acc.Right()
    ensures -((acc.windowY / 2) as int) <= Row(g, w, dy) < g.isHeight + acc.Below()
  {
    DispatchIsSound(g, w);
    hide Taken, BordersOf, PassesX, PassesY, GidX, GidY;
  }

  lemma ColumnIsDsl(g: Geometry, acc: Accessor, w: Work, dx: int, dy: int)
    requires Launches(g, acc) && Reads(g, acc, w, dx, dy) && FitsX(g, acc)
    ensures DslColumn(g, acc, w, dx)
  {
    ColumnIsSame(g, acc, w, dx, dy);
    WithinReach(g, acc, w, dx, dy);
    hide EmittedIndex, DslIndex, DslFits, VariantOf, Runs, Column, SidesFitX;
    FitIndex(acc.mode, acc.offsetX, acc.width, acc.windowX, g.isWidth, Column(g, w, dx));
  }

  lemma RowIsDsl(g: Geometry, acc: Accessor, w: Work, dx: int, dy: int)
    requires Launches(g, acc) && Reads(g, acc, w, dx, dy) && FitsY(g, acc)
    ensures DslRow(g, acc, w, dy)
  {
    RowIsSame(g, acc, w, dx, dy);
    WithinReach(g, acc, w, dx, dy);
    hide EmittedIndex, DslIndex, DslFits, VariantOf, Runs, Row, SidesFitY;
    FitIndex(acc.mode, acc.offsetY, acc.height, acc.windowY, g.isHeight, Row(g, w, dy));
  }

  lemma PixelSelects(g: Geometry, acc: Accessor, w: Work, dx: int, dy: int)
    requires Launches(g, acc) && Reads(g, acc, w, dx, dy) && FitsX(g, acc) && FitsY(g, acc)
    ensures SelectsPixel(acc, DslX(acc, Column(g, w, dx)), DslY(acc, Row(g, w, dy)), Column(g, w, dx), Row(g, w, dy))
  {
    hide Launches, Reads, FitsX, FitsY, DslX, DslY, Selects, Column, Row;
    LaunchesValid(g, acc);
    ColumnSelects(g, acc, w, dx, dy);
    RowSelects(g, acc, w, dx, dy);
  }

  lemma LaunchesValid(g: Geometry, acc: Accessor)
    requires Launches(g, acc)
    ensures acc.Valid()
  {
  }

  lemma ColumnSelects(g: Geometry, acc: Accessor, w: Work, dx: int, dy: int)
    requires Launches(g, acc) && Reads(g, acc, w, dx, dy) && FitsX(g, acc)
    ensures var x := Column(g, w, dx);
      Selects(acc.mode, DslX(acc, x), acc.offsetX + x, acc.offsetX, acc.offsetX + acc.width)
  {
    hide DslIndex, DslFits, Selects, Column, Row, SidesFitX, Reads, BottomStealsRowFilter, ColumnFilterIgnoresOffset;
    WithinReach(g, acc, w, dx, dy);
    FitSelects(acc.mode, acc.offsetX, acc.width, acc.windowX, g.isWidth, Column(g, w, dx));
  }

  lemma RowSelects(g: Geometry, acc: Accessor, w: Work, dx: int, dy: int)
    requires Launches(g, acc) && Reads(g, acc, w, dx, dy) && FitsY(g, acc)
    ensures var y := Row(g, w, dy);
      Selects(acc.mode, DslY(acc, y), acc.offsetY + y, acc.offsetY, acc.offsetY + acc.height)
  {
    hide DslIndex, DslFits, Selects, Column, Row, SidesFitY, Reads, BottomStealsRowFilter, ColumnFilterIgnoresOffset;
    WithinReach(g, acc, w, dx, dy);
    FitSelects(acc.mode, acc.offsetY, acc.height, acc.windowY, g.isHeight, Row(g, w, dy));
  }

  /** Pixel (x, y) of the image is the one that the accessor's mode names for its column cx and
      row cy. */
  ghost predicate SelectsPixel(acc: Accessor, x: int, y: int, cx: int, cy: int)
    requires acc.width >= 1 && acc.height >= 1
  {
    && Selects(acc.mode, x, acc.offsetX + cx, acc.offsetX, acc.offsetX + acc.width)
    && Selects(acc.mode, y, acc.offsetY + cy, acc.offsetY, acc.offsetY + acc.height)
  }

  /** One dimension seen from outside: an index that is not the DSL's, or not inside. */
  lemma UnfitIndex(mode: Mode, offset: nat, extent: nat, x: int, upper: bool, lower: bool)
    requires extent >= 1 && (x < 0 ==> lower)
    requires || (x >= extent && !upper)
             || (!mode.Clamp? && (mode.Repeat? ==> offset == 0) && !(-(extent as int) <= x < 2 * extent))
             || (mode.Repeat? && offset > 0 && x == -1)
    ensures var i := EmittedIndex(mode, upper, lower, offset + x, offset, offset + extent);
      var dsl := DslIndex(mode, offset + x, offset, offset + extent);
      !(i == dsl && offset <= dsl < offset + extent)
  {
    HandledIsDslIff(mode, offset, extent, x);
    UncrossedSideIsRedundant(mode, upper, lower, offset + x, offset, offset + extent);
  }

  /** Every column read is the DSL's and inside the accessor, exactly for launches that fit. */
  lemma ColumnsAreDslIff(g: Geometry, acc: Accessor)
    requires Launches(g, acc)
    ensures (forall w: Work, dx, dy :: Reads(g, acc, w, dx, dy) ==> DslColumn(g, acc, w, dx)) <==> FitsX(g, acc)
  {
    if FitsX(g, acc) {
      forall w: Work, dx, dy | Reads(g, acc, w, dx, dy) ensures DslColumn(g, acc, w, dx) {
        ColumnIsDsl(g, acc, w, dx, dy);
      }
    } else {
      var w, dx := UnfitColumn(g, acc);
      assert Reads(g, acc, w, dx, 0);
    }
  }

  /** A column that is read but not the DSL's: the last one of the blocks that omit the right
      side, or the first or last one of the space. */
  lemma UnfitColumn(g: Geometry, acc: Accessor) returns (w: Work, dx: int)
    requires Launches(g, acc) && !FitsX(g, acc)
    ensures Reads(g, acc, w, dx, 0) && !DslColumn(g, acc, w, dx)
  {
    var reach := Start(LastX(g), g.blockX);
    var tooFar := acc.windowX > 1 && !g.FallBack() && reach - g.offsetX + acc.Right() > acc.width;
    var shifted := acc.windowX > 1 && acc.mode.Repeat? && acc.offsetX > 0;
    var first := shifted || (acc.windowX > 1 && !acc.mode.Clamp? && acc.windowX / 2 > acc.width);
    var gx := if tooFar then reach - 1 else if first then g.offsetX else g.offsetX + g.isWidth - 1;
    if tooFar { LacksRight(g, acc); }
    OwnerOf(g, gx, 0);
    w := Owner(g, gx, 0);
    dx := if tooFar || !first then acc.Right() else if shifted then -1 else -(acc.windowX / 2);
    hide EmittedIndex, DslIndex, VariantOf, Start, Runs, LastX, Geometry.FallBack, Owner;
    if acc.windowX > 1 { UnfitX(g, acc, w, dx); }
  }

  lemma UnfitX(g: Geometry, acc: Accessor, w: Work, dx: int)
    requires Launches(g, acc) && Reads(g, acc, w, dx, 0) && acc.windowX > 1
    requires var x := Column(g, w, dx);
      || (x >= acc.width && !VariantOf(g, w).right)
      || (!acc.mode.Clamp? && (acc.mode.Repeat? ==> acc.offsetX == 0) && !(-(acc.width as int) <= x < 2 * acc.width))
      || (acc.mode.Repeat? && acc.offsetX > 0 && x == -1)
    ensures !DslColumn(g, acc, w, dx)
  {
    SidesOfBlock(g, acc, w);
    hide EmittedIndex, DslIndex, VariantOf, Runs, GidX, GidY, LastX, LastY, Start, Geometry.FallBack;
    UnfitIndex(acc.mode, acc.offsetX, acc.width, Column(g, w, dx), VariantOf(g, w).right, VariantOf(g, w).left);
  }

  lemma RowsAreDslIff(g: Geometry, acc: Accessor)
    requires Launches(g, acc)
    ensures (forall w: Work, dx, dy :: Reads(g, acc, w, dx, dy) ==> DslRow(g, acc, w, dy)) <==> FitsY(g, acc)
  {
    if FitsY(g, acc) {
      forall w: Work, dx, dy | Reads(g, acc, w, dx, dy) ensures DslRow(g, acc, w, dy) {
        RowIsDsl(g, acc, w, dx, dy);
      }
    } else {
      var w, dy := UnfitRow(g, acc);
      assert Reads(g, acc, w, 0, dy);
    }
  }

  lemma UnfitRow(g: Geometry, acc: Accessor) returns (w: Work, dy: int)
    requires Launches(g, acc) && !FitsY(g, acc)
    ensures Reads(g, acc, w, 0, dy) && !DslRow(g, acc, w, dy)
  {
    var reach := Start(LastY(g), g.TileHeight());
    var tooFar := acc.windowY > 1 && !g.FallBack() && reach + acc.Below() > acc.height;
    var shifted := acc.windowY > 1 && acc.mode.Repeat? && acc.offsetY > 0;
    var first := shifted || (acc.windowY > 1 && !acc.mode.Clamp? && acc.windowY / 2 > acc.height);
    var gx, gy := g.offsetX, if tooFar then reach - 1 else if first then 0 else g.isHeight - 1;
    if tooFar { gx := LacksBottom(g, acc); }
    OwnerOf(g, gx, gy);
    w := Owner(g, gx, gy);
    dy := if tooFar || !first then acc.Below() else if shifted then -1 else -(acc.windowY / 2);
    hide EmittedIndex, DslIndex, VariantOf, Start, Runs, LastY, Geometry.FallBack, Geometry.TileHeight, Owner;
    if acc.windowY > 1 { UnfitY(g, acc, w, dy); }
  }

  lemma UnfitY(g: Geometry, acc: Accessor, w: Work, dy: int)
    requires Launches(g, acc) && Reads(g, acc, w, 0, dy) && acc.windowY > 1
    requires var y := Row(g, w, dy);
      || (y >= acc.height && !VariantOf(g, w).bottom)
      || (!acc.mode.Clamp? && (acc.mode.Repeat? ==> acc.offsetY == 0) && !(-(acc.height as int) <= y < 2 * acc.height))
      || (acc.mode.Repeat? && acc.offsetY > 0 && y == -1)
    ensures !DslRow(g, acc, w, dy)
  {
    SidesOfBlock(g, acc, w);
    hide EmittedIndex, DslIndex, VariantOf, Runs, GidX, GidY, LastX, LastY, Start, Geometry.FallBack;
    UnfitIndex(acc.mode, acc.offsetY, acc.height, Row(g, w, dy), VariantOf(g, w).bottom, VariantOf(g, w).top);
  }

  /** Row filters, column filters, square windows and point reads alike: every window read of
      every evaluation selects the DSL's pixel, inside the accessor, exactly for launches that
      fit in both dimensions. */
  lemma TiledReadsAreDslIff(g: Geometry, acc: Accessor)
    requires Launches(g, acc)
    ensures (forall w: Work, dx, dy :: Reads(g, acc, w, dx, dy) ==> DslColumn(g, acc, w, dx) && DslRow(g, acc, w, dy))
      <==> FitsX(g, acc) && FitsY(g, acc)
  {
    ColumnsAreDslIff(g, acc);
    RowsAreDslIff(g, acc);
    hide DslColumn, DslRow, FitsX, FitsY;
    if !FitsX(g, acc) {
      var w: Work, dx, dy :| Reads(g, acc, w, dx, dy) && !DslColumn(g, acc, w, dx);
    } else if !FitsY(g, acc) {
      var w: Work, dx, dy :| Reads(g, acc, w, dx, dy) && !DslRow(g, acc, w, dy);
    }
  }

  /** A window read through the cache: stage the block's tile, then read.  The value is that of
      the unstaged read; for accessors that fit, that of the read with full border handling;
      for launches that fit, the pixel the DSL reads. */
  method CachedRead<T(0)>(t: Tile<T>, w: Work, dx: int, dy: int) returns (value: T)
    requires t.Valid() && TileOf(t, w) && InWindow(t.acc, dx, dy) && InGrid(t.g, w)
    requires t.acc.windowX / 2 <= t.g.blockX
    ensures value == t.Fetch(t.variant, GidX(t.g, w) + dx, GidY(t.g, w) + dy)
    ensures Launches(t.g, t.acc) && Runs(t.g, w) && SidesFitX(t.g, t.acc) && SidesFitY(t.g, t.acc) ==>
      value == t.Fetch(ALL_SIDES, GidX(t.g, w) + dx, GidY(t.g, w) + dy)
    ensures Launches(t.g, t.acc) && Runs(t.g, w) && FitsX(t.g, t.acc) && FitsY(t.g, t.acc) ==>
      var x, y := DslX(t.acc, Column(t.g, w, dx)), DslY(t.acc, Row(t.g, w, dy));
      && value == t.pixel(x, y)
      && t.acc.offsetX <= x < t.acc.offsetX + t.acc.width && t.acc.offsetY <= y < t.acc.offsetY + t.acc.height
      && SelectsPixel(t.acc, x, y, GidX(t.g, w) - t.g.offsetX + dx, GidY(t.g, w) + dy)
  {
    var smem := StageTile(t);
    CacheAgreement(t, smem, w, dx, dy);
    value := smem[ReadRow(t, w, dy), ReadCol(t, w, dx)];
    if Launches(t.g, t.acc) && Runs(t.g, w) {
      FetchIsDsl(t, w, dx, dy);
      hide SelectsPixel, GidX, GidY;
      if FitsX(t.g, t.acc) && FitsY(t.g, t.acc) { PixelSelects(t.g, t.acc, w, dx, dy); }
    }
  }

  /** What the unstaged read of a variant returns. */
  lemma FetchIsDsl<T>(t: Tile<T>, w: Work, dx: int, dy: int)
    requires t.Valid() && TileOf(t, w) && Launches(t.g, t.acc) && Reads(t.g, t.acc, w, dx, dy)
    ensures SidesFitX(t.g, t.acc) && SidesFitY(t.g, t.acc) ==>
      t.Fetch(t.variant, GidX(t.g, w) + dx, GidY(t.g, w) + dy)
      == t.Fetch(ALL_SIDES, GidX(t.g, w) + dx, GidY(t.g, w) + dy)
    ensures FitsX(t.g, t.acc) && FitsY(t.g, t.acc) ==>
      var x, y := DslX(t.acc, Column(t.g, w, dx)), DslY(t.acc, Row(t.g, w, dy));
      && t.Fetch(t.variant, GidX(t.g, w) + dx, GidY(t.g, w) + dy) == t.pixel(x, y)
      && t.acc.offsetX <= x < t.acc.offsetX + t.acc.width && t.acc.offsetY <= y < t.acc.offsetY + t.acc.height
  {
    hide Accessor.IndexX, Accessor.IndexY, DslX, DslY, Launches, SidesFitX, SidesFitY, FitsX, FitsY, GidX, GidY;
    if SidesFitX(t.g, t.acc) && SidesFitY(t.g, t.acc) {
      ColumnIsSame(t.g, t.acc, w, dx, dy);
      RowIsSame(t.g, t.acc, w, dx, dy);
    }
    if FitsX(t.g, t.acc) && FitsY(t.g, t.acc) {
      ColumnIsDsl(t.g, t.acc, w, dx, dy);
      RowIsDsl(t.g, t.acc, w, dx, dy);
    }
  }

  /** A launch that does not fit: a 7x1 MIRROR filter on an image two pixels wide.  Its first
      pixel reads column 2, outside the image, where the DSL reads column 1. */
  const NARROW := Geometry(3, 0, 2, 64, 0, 1, 32, 1)
  const NARROW_MIRROR := Accessor(Mirror, 0, 0, 2, 64, 7, 1)

  lemma NarrowMirrorFails()
    ensures var w := Work(0, 0, 0, 0, 0);
      && Launches(NARROW, NARROW_MIRROR) && Reads(NARROW, NARROW_MIRROR, w, -3, 0) && Column(NARROW, w, -3) == -3
      && NARROW_MIRROR.IndexX(VariantOf(NARROW, w), -3) == 2 && DslX(NARROW_MIRROR, -3) == 1
  {
    hide Runs, VariantOf, GidX, Launches, Accessor.IndexX, DslX;
    NarrowLaunches();
    NarrowSelects();
  }

  lemma NarrowLaunches()
    ensures Launches(NARROW, NARROW_MIRROR) && NARROW.FallBack()
    ensures VariantOf(NARROW, Work(0, 0, 0, 0, 0)) == Variant(false, false, true, true)
    ensures Runs(NARROW, Work(0, 0, 0, 0, 0)) && GidX(NARROW, Work(0, 0, 0, 0, 0)) == 0
  {
    hide Geometry.FallBack, Geometry.Valid, Taken, Runs, VariantOf, GidX, GidY;
    NarrowFallsBack();
    FallBackHandlesAll(NARROW, Work(0, 0, 0, 0, 0));
    OwnerOf(NARROW, 0, 0);
  }

  lemma NarrowSelects()
    ensures NARROW_MIRROR.IndexX(Variant(false, false, true, true), -3) == 2 && DslX(NARROW_MIRROR, -3) == 1
  {
  }

  lemma NarrowFallsBack()
    ensures NARROW.Valid() && NARROW.TileHeight() == 1 && NARROW.FallBack()
  {
  }
}
