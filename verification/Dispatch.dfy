/** Region dispatch of a generated GPU kernel (ASTTranslate::Hipacc,
    lib/AST/ASTTranslate.cpp): a chain of conditional gotos sends each block to one of ten
    code variants, each with the border handling and the iteration-space checks it is
    thought to need. */
module Dispatch {
  import opened Launch

  datatype Label = BH_FB | BH_TL | BH_TR | BH_T | BH_BL | BH_BR | BH_B | BH_R | BH_L | BH_NO

  /** The border sides handled by a code variant (bh_variant). */
  datatype Variant = Variant(top: bool, bottom: bool, left: bool, right: bool) {
    predicate Any() { top || bottom || left || right }
  }

  const NO_BORDERS := Variant(false, false, false, false)

  // kernel_x, kernel_y and border_handling; the launch radius of a dimension is positive
  // exactly if some accessor with border handling is wider than one pixel there
  predicate KernelX(g: Geometry) { g.sizeX > 0 }
  predicate KernelY(g: Geometry) { g.sizeY > 0 }
  predicate BorderHandling(g: Geometry) { KernelX(g) || KernelY(g) }

  function LabelAt(i: nat): Label
    requires i < 10
  {
    if i == 0 then BH_FB else if i == 1 then BH_TL else if i == 2 then BH_TR else if i == 3 then BH_T
    else if i == 4 then BH_BL else if i == 5 then BH_BR else if i == 6 then BH_B else if i == 7 then BH_R
    else if i == 8 then BH_L else BH_NO
  }

  /** The labels for which a goto is generated. */
  predicate HasGoto(g: Geometry, l: Label) {
    match l
    case BH_FB => true
    case BH_TL => KernelX(g) && KernelY(g)
    case BH_TR => KernelX(g) && KernelY(g)
    case BH_T => KernelY(g)
    case BH_BL => KernelX(g) && KernelY(g)
    case BH_BR => KernelX(g) && KernelY(g)
    case BH_B => !(g.blockY <= 1 && g.ppt <= 1 && !KernelY(g))
    case BH_R => true
    case BH_L => KernelX(g)
    case BH_NO => true
  }

  /** The condition on the goto, for block (bi, bj). */
  predicate Guard(g: Geometry, l: Label, bi: int, bj: int)
    requires g.blockX >= 1 && g.blockY >= 1 && g.TileHeight() >= 1
  {
    match l
    case BH_FB => g.FallBack()
    case BH_TL => bi < g.StartLeft() && bj < g.StartTop()
    case BH_TR => bi >= g.StartRight() && bj < g.StartTop()
    case BH_T => bj < g.StartTop()
    case BH_BL => bj >= g.StartBottom() && bi < g.StartLeft()
    case BH_BR => bj >= g.StartBottom() && bi >= g.StartRight()
    case BH_B => bj >= g.StartBottom()
    case BH_R => bi >= g.StartRight()
    case BH_L => bi < g.StartLeft()
    case BH_NO => g.blockX >= 16
  }

  /** The sides set in bh_variant while the body of a label is generated. */
  function BordersOf(g: Geometry, l: Label): Variant {
    match l
    case BH_FB => Variant(KernelY(g), KernelY(g), KernelX(g), KernelX(g))
    case BH_TL => Variant(true, false, true, false)
    case BH_TR => Variant(true, false, false, true)
    case BH_T => Variant(true, false, false, false)
    case BH_BL => Variant(false, true, true, false)
    case BH_BR => Variant(false, true, false, true)
    case BH_B => Variant(false, true, false, false)
    case BH_R => Variant(false, false, false, true)
    case BH_L => Variant(false, false, true, false)
    case BH_NO => NO_BORDERS
  }

  /** The labels from number i on that are generated, in order. */
  ghost function Labels(g: Geometry, i: nat): seq<Label>
    requires i <= 10
    decreases 10 - i
  {
    if i == 10 then [] else (if HasGoto(g, LabelAt(i)) then [LabelAt(i)] else []) + Labels(g, i + 1)
  }

  lemma LabelsStep(g: Geometry, i: nat)
    requires i < 10
    ensures HasGoto(g, LabelAt(i)) ==> Labels(g, i) == [LabelAt(i)] + Labels(g, i + 1)
    ensures !HasGoto(g, LabelAt(i)) ==> Labels(g, i) == Labels(g, i + 1)
    ensures Labels(g, 10) == []
  {
  }

  /** First loop of the generator: one conditional goto per label. */
  method EmitGotos(g: Geometry) returns (gotos: seq<Label>)
    requires BorderHandling(g)
    ensures gotos == Labels(g, 0)
  {
    hide Labels;
    var kernelX, kernelY := KernelX(g), KernelY(g);
    gotos := [];
    var i := 0;
    while i <= 9
      invariant 0 <= i <= 10
      invariant gotos + Labels(g, i) == Labels(g, 0)
    {
      LabelsStep(g, i);
      if || ((i == 1 || i == 2 || i == 4 || i == 5) && (!kernelX || !kernelY))
         || (i == 3 && !kernelY)
         || (i == 6 && g.blockY <= 1 && g.ppt <= 1 && !kernelY)
         || (i == 8 && !kernelX)
      {
        i := i + 1;
        continue;
      }
      assert (gotos + [LabelAt(i)]) + Labels(g, i + 1) == gotos + ([LabelAt(i)] + Labels(g, i + 1));
      gotos := gotos + [LabelAt(i)];
      i := i + 1;
    }
    LabelsStep(g, 0);
  }

  /** The border sides the second loop sets for label number i, or no body at all: its own
      conditions for skipping a label. */
  method EmitVariant(g: Geometry, i: nat, start: Variant) returns (skip: bool, variant: Variant)
    requires BorderHandling(g) && i < 10 && start == NO_BORDERS
    ensures skip <==> !HasGoto(g, LabelAt(i))
    ensures !skip ==> variant == BordersOf(g, LabelAt(i))
    ensures skip ==> variant == NO_BORDERS
  {
    var kernelX, kernelY := KernelX(g), KernelY(g);
    skip, variant := false, start;
    if i == 0 {
      if kernelY { variant := variant.(top := true, bottom := true); }
      if kernelX { variant := variant.(left := true, right := true); }
    } else if i == 1 {
      if !kernelX || !kernelY { skip := true; return; }
      variant := variant.(top := true, left := true);
    } else if i == 2 {
      if !kernelX || !kernelY { skip := true; return; }
      variant := variant.(top := true, right := true);
    } else if i == 3 {
      if kernelY { variant := variant.(top := true); } else { skip := true; }
    } else if i == 4 {
      if !kernelX || !kernelY { skip := true; return; }
      variant := variant.(bottom := true, left := true);
    } else if i == 5 {
      if !kernelX || !kernelY { skip := true; return; }
      variant := variant.(bottom := true, right := true);
    } else if i == 6 {
      if g.blockY > 1 || g.ppt > 1 || kernelY { variant := variant.(bottom := true); } else { skip := true; }
    } else if i == 7 {
      variant := variant.(right := true);
    } else if i == 8 {
      if kernelX { variant := variant.(left := true); } else { skip := true; }
    }
  }

  /** Second loop of the generator: it attaches the declared labels to the bodies in order,
      which is right because it skips exactly the labels the first loop skipped. */
  method EmitBodies(g: Geometry, gotos: seq<Label>) returns (bodies: seq<(Label, Variant)>)
    requires BorderHandling(g) && gotos == Labels(g, 0)
    ensures |bodies| == |gotos|
    ensures forall k :: 0 <= k < |gotos| ==> bodies[k] == (gotos[k], BordersOf(g, gotos[k]))
  {
    hide Labels, BordersOf;
    bodies := [];
    var ldCount := 0;
    var variant := NO_BORDERS;
    var i := 0;
    while i <= 9
      invariant 0 <= i <= 10
      invariant variant == NO_BORDERS
      invariant ldCount == |bodies| && ldCount <= |gotos|
      invariant gotos[ldCount..] == Labels(g, i)
      invariant forall k :: 0 <= k < ldCount ==> bodies[k] == (gotos[k], BordersOf(g, gotos[k]))
    {
      LabelsStep(g, i);
      var skip;
      skip, variant := EmitVariant(g, i, variant);
      if !skip {
        assert gotos[ldCount] == gotos[ldCount..][0];
        assert gotos[ldCount + 1..] == gotos[ldCount..][1..];
        bodies := bodies + [(gotos[ldCount], variant)];
        ldCount := ldCount + 1;
      }
      variant := NO_BORDERS;
      i := i + 1;
    }
    LabelsStep(g, 0);
  }

  /** Running the emitted chain: the first goto whose condition holds is taken; if none is,
      control falls through into the first labelled body. */
  ghost function RunGotos(g: Geometry, gotos: seq<Label>, bi: int, bj: int): Label
    requires g.blockX >= 1 && g.blockY >= 1 && g.TileHeight() >= 1
  {
    if gotos == [] then BH_FB
    else if Guard(g, gotos[0], bi, bj) then gotos[0]
    else RunGotos(g, gotos[1..], bi, bj)
  }

  /** The variant that block (bi, bj) executes, read off the label numbers. */
  ghost function TakenFrom(g: Geometry, i: nat, bi: int, bj: int): Label
    requires g.blockX >= 1 && g.blockY >= 1 && g.TileHeight() >= 1 && i <= 10
    decreases 10 - i
  {
    if i == 10 then BH_FB
    else if HasGoto(g, LabelAt(i)) && Guard(g, LabelAt(i), bi, bj) then LabelAt(i)
    else TakenFrom(g, i + 1, bi, bj)
  }

  ghost function Taken(g: Geometry, bi: int, bj: int): Label
    requires g.blockX >= 1 && g.blockY >= 1 && g.TileHeight() >= 1
  {
    if BorderHandling(g) then TakenFrom(g, 0, bi, bj) else BH_NO
  }

  lemma {:induction false} GotosTake(g: Geometry, i: nat, bi: int, bj: int)
    requires g.blockX >= 1 && g.blockY >= 1 && g.TileHeight() >= 1 && i <= 10
    ensures RunGotos(g, Labels(g, i), bi, bj) == TakenFrom(g, i, bi, bj)
    decreases 10 - i
  {
    if i < 10 {
      GotosTake(g, i + 1, bi, bj);
      if HasGoto(g, LabelAt(i)) {
        assert Labels(g, i)[1..] == Labels(g, i + 1);
      } else {
        assert Labels(g, i) == Labels(g, i + 1);
      }
    }
  }

  // ------------------------------------------------------- iteration-space checks

  /** check_bop: the x checks that guard the body of a variant. */
  predicate PassesX(g: Geometry, l: Label, gx: int) {
    var v := BordersOf(g, l);
    if BorderHandling(g) then
      && (!(KernelX(g) && !v.left) && v.Any() ==> gx >= g.offsetX)
      && (!(KernelX(g) && !v.right) && v.Any() ==> gx < g.isWidth + g.offsetX)
    else
      g.offsetX <= gx < g.isWidth + g.offsetX
  }

  /** inner_check_bop: the y check, generated only if require_is_check. */
  predicate PassesY(g: Geometry, l: Label, gy: int) {
    var v := BordersOf(g, l);
    var required :=
      if BorderHandling(g) then
        !(KernelY(g) && !v.bottom) && v.Any() && !(g.blockY == 1 && g.ppt == 1)
      else
        !(g.blockY == 1 && g.ppt == 1);
    required ==> gy < g.isHeight
  }

  /** One evaluation of the kernel body: thread (lx, ly) of block (bi, bj), pixel p. */
  datatype Work = Work(bi: int, bj: int, lx: int, ly: int, p: int)

  predicate InGrid(g: Geometry, w: Work)
    requires g.blockX >= 1 && g.TileHeight() >= 1
  {
    && 0 <= w.bi < g.BlocksX() && 0 <= w.bj < g.BlocksY()
    && 0 <= w.lx < g.blockX && 0 <= w.ly < g.blockY && 0 <= w.p < g.ppt
  }

  function GidX(g: Geometry, w: Work): int { Start(w.bi, g.blockX) + w.lx }
  function GidY(g: Geometry, w: Work): int { Start(w.bj, g.TileHeight()) + w.ly + w.p * g.blockY }

  ghost predicate Runs(g: Geometry, w: Work)
    requires g.blockX >= 1 && g.blockY >= 1 && g.TileHeight() >= 1
  {
    InGrid(g, w) && PassesX(g, Taken(g, w.bi, w.bj), GidX(g, w)) && PassesY(g, Taken(g, w.bi, w.bj), GidY(g, w))
  }

  predicate InSpace(g: Geometry, gx: int, gy: int) {
    g.offsetX <= gx < g.offsetX + g.isWidth && 0 <= gy < g.isHeight
  }

  /** The variant handles every side, in the dimensions the kernel filters, that a window
      around (gx, gy) crosses. */
  predicate SidesCovered(g: Geometry, v: Variant, gx: int, gy: int) {
    && (KernelX(g) && gx - g.sizeX < g.offsetX ==> v.left)
    && (KernelX(g) && gx + g.sizeX >= g.offsetX + g.isWidth ==> v.right)
    && (KernelY(g) && gy - g.sizeY < 0 ==> v.top)
    && (KernelY(g) && gy + g.sizeY >= g.isHeight ==> v.bottom)
  }

  /** What dispatch has to guarantee for one evaluation of the body. */
  ghost predicate SoundAt(g: Geometry, w: Work)
    requires g.blockX >= 1 && g.blockY >= 1 && g.TileHeight() >= 1
  {
    Runs(g, w) ==>
      InSpace(g, GidX(g, w), GidY(g, w)) && SidesCovered(g, BordersOf(g, Taken(g, w.bi, w.bj)), GidX(g, w), GidY(g, w))
  }

  ghost predicate Sound(g: Geometry)
    requires g.blockX >= 1 && g.blockY >= 1 && g.TileHeight() >= 1
  {
    forall w: Work :: SoundAt(g, w)
  }

  /** The rows of one pixel index lie inside the tile of their block. */
  lemma RowInTile(g: Geometry, w: Work)
    requires g.Valid() && g.TileHeight() >= 1 && InGrid(g, w)
    ensures Start(w.bj, g.TileHeight()) <= GidY(g, w) < End(w.bj, g.TileHeight())
    ensures Start(w.bi, g.blockX) <= GidX(g, w) < End(w.bi, g.blockX)
    ensures GidX(g, w) >= 0 && GidY(g, w) >= 0
  {
    MulMono(0, w.p, g.blockY);
    MulMono(w.p + 1, g.ppt, g.blockY);
    assert (w.p + 1) * g.blockY == w.p * g.blockY + g.blockY;
    assert g.ppt * g.blockY == g.TileHeight();
    MulMono(0, w.bj, g.TileHeight());
    MulMono(0, w.bi, g.blockX);
  }

  /** Where the pixels of a block lie, given the block's position among the region bounds. */
  lemma BlockPosition(g: Geometry, w: Work)
    requires g.Valid() && g.TileHeight() >= 1 && InGrid(g, w)
    ensures GidX(g, w) >= 0 && GidY(g, w) >= 0
    ensures KernelX(g) && w.bi >= g.StartLeft() ==> GidX(g, w) - g.sizeX >= g.offsetX
    ensures w.bi < g.StartRight() ==> GidX(g, w) + g.sizeX < g.offsetX + g.isWidth
    ensures w.bj >= g.StartTop() ==> GidY(g, w) - g.sizeY >= 0
    ensures w.bj < g.StartBottom() ==> GidY(g, w) + g.sizeY < g.isHeight
    ensures g.blockY == 1 && g.ppt == 1 ==> GidY(g, w) < g.isHeight
  {
    RowInTile(g, w);
    RegionBounds(g, w.bi);
    RegionBounds(g, w.bj);
    var halo := CeilDiv(2 * g.sizeY, g.blockY);
    BelowCeil(halo, 2 * g.sizeY, g.blockY);
    assert halo * g.blockY >= 2 * g.sizeY;
    BelowCeil(w.bj, g.isHeight, g.TileHeight());
  }

  /** The variant a block takes, as a decision over its position. */
  lemma TakenCases(g: Geometry, bi: int, bj: int)
    requires g.blockX >= 1 && g.blockY >= 1 && g.TileHeight() >= 1 && BorderHandling(g)
    ensures var l := Taken(g, bi, bj);
      && (l != BH_FB ==> !g.FallBack() && Guard(g, l, bi, bj) && HasGoto(g, l))
      && (g.FallBack() ==> l == BH_FB)
      && (!g.FallBack() && KernelY(g) && !KernelX(g) ==>
            l == if bj < g.StartTop() then BH_T else if bj >= g.StartBottom() then BH_B
                 else if bi >= g.StartRight() then BH_R else if g.blockX >= 16 then BH_NO else BH_FB)
      && (!g.FallBack() && KernelX(g) && !KernelY(g) ==>
            l == if !(g.blockY <= 1 && g.ppt <= 1) && bj >= g.StartBottom() then BH_B
                 else if bi >= g.StartRight() then BH_R else if bi < g.StartLeft() then BH_L
                 else if g.blockX >= 16 then BH_NO else BH_FB)
      && (!g.FallBack() && KernelX(g) && KernelY(g) ==>
            l == if bj < g.StartTop() then
                   if bi < g.StartLeft() then BH_TL else if bi >= g.StartRight() then BH_TR else BH_T
                 else if bj >= g.StartBottom() then
                   if bi < g.StartLeft() then BH_BL else if bi >= g.StartRight() then BH_BR else BH_B
                 else if bi >= g.StartRight() then BH_R else if bi < g.StartLeft() then BH_L
                 else if g.blockX >= 16 then BH_NO else BH_FB)
  {
    hide Geometry.StartLeft, Geometry.StartRight, Geometry.StartTop, Geometry.StartBottom, Geometry.FallBack;
    assert TakenFrom(g, 9, bi, bj) == if g.blockX >= 16 then BH_NO else BH_FB;
    assert TakenFrom(g, 6, bi, bj) ==
      if HasGoto(g, BH_B) && Guard(g, BH_B, bi, bj) then BH_B
      else if Guard(g, BH_R, bi, bj) then BH_R
      else if HasGoto(g, BH_L) && Guard(g, BH_L, bi, bj) then BH_L
      else TakenFrom(g, 9, bi, bj);
  }

  /** A row filter (no window in y) whose blocks do not tile the height exactly: bottom
      blocks take BH_B, which handles no side in x. */
  predicate BottomStealsRowFilter(g: Geometry)
    requires g.blockX >= 1 && g.blockY >= 1 && g.TileHeight() >= 1
  {
    KernelX(g) && !KernelY(g) && !g.FallBack() && !(g.blockY == 1 && g.ppt == 1) && g.isHeight % g.TileHeight() != 0
  }

  /** A column filter (no window in x) on an iteration space with an x offset: the variant
      without border handling has no check against the offset. */
  predicate ColumnFilterIgnoresOffset(g: Geometry)
    requires g.blockX >= 1 && g.blockY >= 1 && g.TileHeight() >= 1
  {
    KernelY(g) && !KernelX(g) && !g.FallBack() && g.offsetX > 0 && g.blockX >= 16
  }

  /** Filters with a window in both dimensions, point operators, and row and column filters
      outside the two families above: every evaluation is inside the iteration space and
      its variant handles every side its window crosses. */
  lemma DispatchIsSound(g: Geometry, w: Work)
    requires g.Valid() && g.TileHeight() >= 1
    requires !BottomStealsRowFilter(g) && !ColumnFilterIgnoresOffset(g)
    ensures SoundAt(g, w)
  {
    if Runs(g, w) {
      BlockPosition(g, w);
      if BorderHandling(g) {
        TakenCases(g, w.bi, w.bj);
        hide Taken;
        if KernelX(g) && !KernelY(g) && !g.FallBack() && w.bj >= g.StartBottom() {
          NoPartialTile(g, w.bj);
        }
      }
    }
  }

  lemma NoPartialTile(g: Geometry, bj: int)
    requires g.Valid() && g.TileHeight() >= 1 && g.sizeY == 0
    requires g.isHeight % g.TileHeight() == 0
    ensures bj < g.BlocksY() ==> bj < g.StartBottom()
  {
    var h := g.TileHeight();
    BelowCeil(bj, g.isHeight, h);
    assert g.isHeight == (g.isHeight / h) * h;
    if bj >= g.isHeight / h { MulMono(g.isHeight / h, bj, h); }
  }

  /** The block, thread and pixel number that compute position (gx, gy). */
  function Owner(g: Geometry, gx: int, gy: int): Work
    requires g.blockX >= 1 && g.blockY >= 1 && g.TileHeight() >= 1
  {
    var inTile := gy % g.TileHeight();
    Work(gx / g.blockX, gy / g.TileHeight(), gx % g.blockX, inTile % g.blockY, inTile / g.blockY)
  }

  lemma OwnerComputes(g: Geometry, gx: int, gy: int)
    requires g.Valid() && g.TileHeight() >= 1
    requires 0 <= gx < g.offsetX + g.isWidth && 0 <= gy < g.isHeight
    ensures var w := Owner(g, gx, gy); InGrid(g, w) && GidX(g, w) == gx && GidY(g, w) == gy
  {
    var h := g.TileHeight();
    var w := Owner(g, gx, gy);
    var inTile := gy % h;
    QuotientIn(gx, g.isWidth + g.offsetX, g.blockX);
    QuotientIn(gy, g.isHeight, h);
    assert inTile == w.p * g.blockY + w.ly;
    BelowFloor(g.ppt - 1, inTile, g.blockY);
    assert End(g.ppt - 1, g.blockY) == h by { assert (g.ppt - 1) * g.blockY + g.blockY == g.ppt * g.blockY; }
    BelowFloor(-1, inTile, g.blockY);
  }

  lemma OwnerIsOnly(g: Geometry, w: Work)
    requires g.Valid() && g.TileHeight() >= 1 && InGrid(g, w)
    ensures Owner(g, GidX(g, w), GidY(g, w)) == w
  {
    RowInTile(g, w);
    QuotientFrom(GidX(g, w), w.bi, g.blockX);
    QuotientFrom(GidY(g, w), w.bj, g.TileHeight());
    var inTile := GidY(g, w) % g.TileHeight();
    assert inTile == w.p * g.blockY + w.ly;
    QuotientFrom(inTile, w.p, g.blockY);
  }

  /** In the first family a pixel of the left border is computed without border handling. */
  lemma RowFilterFails(g: Geometry)
    requires g.Valid() && g.TileHeight() >= 1 && BottomStealsRowFilter(g)
    ensures var w := Owner(g, g.offsetX, Start(g.StartBottom(), g.TileHeight()));
      !SoundAt(g, w) && Runs(g, w) && GidX(g, w) == g.offsetX
  {
    var gy := Start(g.StartBottom(), g.TileHeight());
    PartialTile(g);
    OwnerComputes(g, g.offsetX, gy);
    TakenCases(g, g.offsetX / g.blockX, g.StartBottom());
    hide Taken, CeilDiv, Start, Geometry.FallBack, Geometry.StartLeft, Geometry.StartRight, Geometry.StartTop,
      Geometry.StartBottom, Geometry.TileHeight;
  }

  /** The first row of the partial tile lies in the space. */
  lemma PartialTile(g: Geometry)
    requires g.Valid() && g.TileHeight() >= 1 && BottomStealsRowFilter(g)
    ensures var gy := Start(g.StartBottom(), g.TileHeight());
      0 <= gy < g.isHeight && gy / g.TileHeight() == g.StartBottom() >= 0 && g.isWidth >= 1
  {
    var h, q := g.TileHeight(), g.StartBottom();
    RegionBounds(g, -1);
    RegionBounds(g, g.StartRight() - 1);
    hide Geometry.TileHeight, CeilDiv;
    assert g.isHeight == q * h + g.isHeight % h;
    MulMono(0, q, h);
    QuotientFrom(q * h, q, h);
    assert (g.StartRight() - 1) * g.blockX + g.blockX <= g.offsetX + g.isWidth - g.sizeX;
  }

  /** In the second family a pixel left of the iteration space is computed. */
  lemma ColumnFilterFails(g: Geometry)
    requires g.Valid() && g.TileHeight() >= 1 && ColumnFilterIgnoresOffset(g)
    ensures var w := Work(0, g.StartTop(), 0, 0, 0);
      !SoundAt(g, w) && Runs(g, w) && GidX(g, w) < g.offsetX
  {
    var w := Work(0, g.StartTop(), 0, 0, 0);
    TakenCases(g, w.bi, w.bj);
    RegionBounds(g, 0);
    RegionBounds(g, -1);
    RegionBounds(g, w.bj);
    BelowCeil(0, g.isWidth + g.offsetX, g.blockX);
    BelowCeil(w.bj, g.isHeight, g.TileHeight());
    InteriorBlockExists(g, w);
  }

  lemma InteriorBlockExists(g: Geometry, w: Work)
    requires g.Valid() && g.TileHeight() >= 1 && w.bi >= 0 && w.bj >= 0
    requires w.bi < g.StartRight() && w.bj < g.StartBottom()
    ensures w.bi < g.BlocksX() && w.bj < g.BlocksY()
  {
    RegionBounds(g, w.bi);
    RegionBounds(g, w.bj);
    BelowCeil(w.bi, g.isWidth + g.offsetX, g.blockX);
    BelowCeil(w.bj, g.isHeight, g.TileHeight());
    BelowCeil(0, 2 * g.sizeY, g.blockY);
    MulMono(0, CeilDiv(2 * g.sizeY, g.blockY), g.blockY);
  }

  /** Every position of the iteration space is computed: the check that guards its owner
      never rejects it. */
  lemma SpaceIsCovered(g: Geometry, gx: int, gy: int)
    requires g.Valid() && g.TileHeight() >= 1 && InSpace(g, gx, gy)
    ensures var w := Owner(g, gx, gy); Runs(g, w) && GidX(g, w) == gx && GidY(g, w) == gy
  {
    OwnerComputes(g, gx, gy);
  }

  /** Exact cover: when dispatch is sound, (GidX, GidY) is a bijection from the evaluations
      that survive their variant's checks onto the iteration space, with inverse Owner. */
  lemma ExactCover(g: Geometry)
    requires g.Valid() && g.TileHeight() >= 1
    requires !BottomStealsRowFilter(g) && !ColumnFilterIgnoresOffset(g)
    ensures forall w: Work :: Runs(g, w) ==> InSpace(g, GidX(g, w), GidY(g, w)) && Owner(g, GidX(g, w), GidY(g, w)) == w
    ensures forall gx, gy :: InSpace(g, gx, gy) ==>
      Runs(g, Owner(g, gx, gy)) && GidX(g, Owner(g, gx, gy)) == gx && GidY(g, Owner(g, gx, gy)) == gy
  {
    forall w: Work | Runs(g, w)
      ensures InSpace(g, GidX(g, w), GidY(g, w)) && Owner(g, GidX(g, w), GidY(g, w)) == w
    {
      DispatchIsSound(g, w);
      OwnerIsOnly(g, w);
    }
    forall gx, gy | InSpace(g, gx, gy)
      ensures Runs(g, Owner(g, gx, gy)) && GidX(g, Owner(g, gx, gy)) == gx && GidY(g, Owner(g, gx, gy)) == gy
    {
      SpaceIsCovered(g, gx, gy);
    }
  }

  /** Exactly when dispatch is sound, for every launch geometry. */
  lemma DispatchIsSoundIff(g: Geometry)
    requires g.Valid() && g.TileHeight() >= 1
    ensures Sound(g) <==> !BottomStealsRowFilter(g) && !ColumnFilterIgnoresOffset(g)
  {
    if BottomStealsRowFilter(g) {
      RowFilterFails(g);
    } else if ColumnFilterIgnoresOffset(g) {
      ColumnFilterFails(g);
    } else {
      forall w: Work
        ensures SoundAt(g, w)
      {
        DispatchIsSound(g, w);
      }
    }
  }
}
