/** Where unrolling and the DSL part: reductions nested over one domain, and a mask read at a
    reduction that is not the innermost one (lib/AST/ASTTranslate.cpp).  Each has its exact
    condition on the domains, and a program that shows the difference. */
module NestedFolds {
  import opened Launch
  import opened Folds
  import opened Domains
  import opened Unroll

  const OUTERMOST: Nest := Context([], [], None)
  const FRESH: Names := Names(0, {})
  const NOLOCALS: map<nat, int> := map[]

  ghost function Visited(world: World, w: nat): seq<Cell> { VisitedFrom(world.window(w), 0) }

  lemma VisitedFacts(w: Window)
    ensures var cs := VisitedFrom(w, 0);
      && (forall i :: 0 <= i < |cs| ==> cs[i].0 < w.width && InRange(w, cs[i]))
      && (forall i, j :: 0 <= i < j < |cs| ==> cs[i] != cs[j])
  {
    var cells := if w.isDomain then w.cells else Ones(|w.cells|);
    DefinedExactly(cells, w.width, w.height);
    hide DefinedFrom;
  }

  // ------------------------------------------------------ two reductions over one domain

  /** The position the translator reads an accessor at, and the DSL, below two reductions. */
  ghost predicate LookupsAgree(world: World, d: nat, outer: Cell, inner: Cell) {
    var ctx: Nest := Context([d, d], [outer, inner], None);
    PositionIn(ctx, d) == At(EnvOf(ctx, NOLOCALS), d)
  }

  lemma LookupsAgreeIff(world: World, d: nat, outer: Cell, inner: Cell)
    ensures LookupsAgree(world, d, outer, inner) <==> outer == inner
  {
    assert [d, d][..1] == [d] && [outer, inner][..1] == [outer];
  }

  /** For acc(dom) below two reductions over dom, the lookups agree at every pair of visited
      positions exactly when the domain has at most one defined position. */
  lemma SameDomainLookupsIff(world: World, d: nat)
    ensures var cs := Visited(world, d);
      (forall outer, inner :: outer in cs && inner in cs ==> LookupsAgree(world, d, outer, inner)) <==> |cs| <= 1
  {
    hide VisitedFrom, LookupsAgree;
    var cs := Visited(world, d);
    VisitedFacts(world.window(d));
    forall outer, inner | outer in cs && inner in cs
      ensures LookupsAgree(world, d, outer, inner) <==> outer == inner
    {
      LookupsAgreeIff(world, d, outer, inner);
    }
    if |cs| > 1 { assert !LookupsAgree(world, d, cs[0], cs[1]); }
  }

  /** reduce(dom, SUM, reduce(dom, PROD, acc(dom))). */
  function SumOfProducts(acc: nat, d: nat): Expr { Fold(d, SUM, 1, Return(Product(acc, d))) }

  function Product(acc: nat, d: nat): Expr { Fold(d, PROD, 2, Return(PixelAt(acc, d))) }

  function PixelBelow(world: World, acc: nat, d: nat, c: Cell): int {
    world.image(acc, c.0 - world.window(d).width / 2, c.1 - world.window(d).height / 2)
  }

  /** The pixels below the visited cells. */
  ghost function Pixels(world: World, acc: nat, d: nat): (pixels: seq<int>)
    ensures |pixels| == |Visited(world, d)|
  {
    var cs := Visited(world, d);
    seq(|cs|, i requires 0 <= i < |cs| => PixelBelow(world, acc, d, cs[i]))
  }

  function Repeated(v: int, n: nat): seq<int> { seq(n, _ => v) }

  /** The product of n equal pixels, for each pixel. */
  function Powers(pixels: seq<int>, n: nat): (powers: seq<int>)
    ensures |powers| == |pixels|
  {
    seq(|pixels|, i requires 0 <= i < |pixels| => FoldFrom(PROD, 1, Repeated(pixels[i], n)))
  }

  lemma SumOfProductsAccepted(world: World, acc: nat, d: nat)
    requires world.window(d).isDomain
    ensures Accepted(world, SumOfProducts(acc, d), [], None) && Sized(world, SumOfProducts(acc, d), [])
    ensures Scoped(SumOfProducts(acc, d), {})
    ensures AcceptedFold(world, d, Return(Product(acc, d)), [], None)
    ensures AcceptedFold(world, d, Return(PixelAt(acc, d)), [d], None)
    ensures Accepted(world, PixelAt(acc, d), [d, d], None)
  {
    assert [] + [d] == [d] && [d] + [d] == [d, d];
    assert Accepted(world, PixelAt(acc, d), [d, d], None);
    assert AcceptedBlock(world, Return(PixelAt(acc, d)), [d, d], None);
    assert AcceptedFold(world, d, Return(PixelAt(acc, d)), [d], None);
    assert Accepted(world, Product(acc, d), [d], None);
    assert AcceptedBlock(world, Return(Product(acc, d)), [d], None);
    assert SizedBlock(world, Return(PixelAt(acc, d)), [d, d]) && Sized(world, Product(acc, d), [d]);
    assert ScopedBlock(Return(PixelAt(acc, d)), {}) && Scoped(Product(acc, d), {});
  }

  /** Below one position of the outer reduction, every inner position reads the outer one's pixel. */
  lemma InnerReads(world: World, acc: nat, d: nat, outer: Cell, inner: Cell)
    requires world.window(d).isDomain && AcceptedFold(world, d, Return(PixelAt(acc, d)), [d], None)
    ensures MeantAt(world, d, Return(PixelAt(acc, d)), Context([d], [outer], None), NOLOCALS)(inner.0, inner.1)
         == PixelBelow(world, acc, d, outer)
  {
    hide MeantAt, AcceptedFold;
    var ctx: Nest := Context([d], [outer], None);
    var below: Nest := Context([d, d], [outer, inner], None);
    MeantAtCell(world, d, Return(PixelAt(acc, d)), ctx, NOLOCALS, inner);
    assert Enter(world, ctx, d, inner) == below;
    assert PositionIn(below, d) == outer;
  }

  lemma EnterOutermost(world: World, d: nat, c: Cell)
    requires world.window(d).isDomain
    ensures Enter(world, OUTERMOST, d, c) == Context([d], [c], None)
  {
  }

  lemma FoldMeant(world: World, d: nat, mode: Mode, lambda: nat, body: Block, ctx: Nest)
    requires AcceptedFold(world, d, body, ctx.domains, ConvMask(ctx))
    ensures Accepted(world, Fold(d, mode, lambda, body), ctx.domains, ConvMask(ctx))
    ensures Meant(world, Fold(d, mode, lambda, body), ctx, NOLOCALS)
         == FoldFrom(mode, Seed(world, mode), Values(MeantAt(world, d, body, ctx, NOLOCALS), Visited(world, d)))
  {
  }

  lemma ProductMeans(world: World, acc: nat, d: nat, i: nat)
    requires world.window(d).isDomain && i < |Visited(world, d)|
    ensures var c := Visited(world, d)[i];
      && AcceptedFold(world, d, Return(Product(acc, d)), [], None)
      && MeantAt(world, d, Return(Product(acc, d)), OUTERMOST, NOLOCALS)(c.0, c.1)
         == Powers(Pixels(world, acc, d), |Visited(world, d)|)[i]
  {
    hide VisitedFrom, FoldFrom, Meant, MeantAt, Accepted, AcceptedFold, Visited, Enter, PixelBelow;
    SumOfProductsAccepted(world, acc, d);
    var cs := Visited(world, d);
    var ctx: Nest := Context([d], [cs[i]], None);
    EnterOutermost(world, d, cs[i]);
    MeantAtCell(world, d, Return(Product(acc, d)), OUTERMOST, NOLOCALS, cs[i]);
    FoldMeant(world, d, PROD, 2, Return(PixelAt(acc, d)), ctx);
    forall j | 0 <= j < |cs|
      ensures MeantAt(world, d, Return(PixelAt(acc, d)), ctx, NOLOCALS)(cs[j].0, cs[j].1) == Pixels(world, acc, d)[i]
    {
      InnerReads(world, acc, d, cs[i], cs[j]);
    }
    assert Values(MeantAt(world, d, Return(PixelAt(acc, d)), ctx, NOLOCALS), cs)
        == Repeated(Pixels(world, acc, d)[i], |cs|);
  }

  /** The emitted code adds up powers of single pixels. */
  lemma SumOfProductsMeant(world: World, acc: nat, d: nat)
    requires world.window(d).isDomain
    ensures Accepted(world, SumOfProducts(acc, d), [], None)
    ensures Meant(world, SumOfProducts(acc, d), OUTERMOST, NOLOCALS)
         == FoldFrom(SUM, 0, Powers(Pixels(world, acc, d), |Visited(world, d)|))
  {
    hide VisitedFrom, FoldFrom;
    SumOfProductsAccepted(world, acc, d);
    var cs, inner := Visited(world, d), Return(Product(acc, d));
    forall i | 0 <= i < |cs|
      ensures MeantAt(world, d, inner, OUTERMOST, NOLOCALS)(cs[i].0, cs[i].1) == Powers(Pixels(world, acc, d), |cs|)[i]
    {
      ProductMeans(world, acc, d, i);
    }
    assert Values(MeantAt(world, d, inner, OUTERMOST, NOLOCALS), cs) == Powers(Pixels(world, acc, d), |cs|);
  }

  lemma PixelIs(world: World, acc: nat, d: nat, env: Env, c: Cell)
    ensures Lambda(world, false, d, Return(PixelAt(acc, d)), env)(c.0, c.1) == PixelBelow(world, acc, d, c)
  {
    hide Lambda, FoldFrom, FoldMeaning, VisitedFrom, Values;
    ReturnIs(world, d, PixelAt(acc, d), env, c);
  }

  lemma ReturnIs(world: World, d: nat, e: Expr, env: Env, c: Cell)
    ensures Lambda(world, false, d, Return(e), env)(c.0, c.1)
         == Eval(world, false, e, env.Register(d, (c.0, c.1)))
  {
    hide Eval;
  }

  lemma FoldIs(world: World, d: nat, mode: Mode, lambda: nat, body: Block, env: Env)
    ensures Eval(world, false, Fold(d, mode, lambda, body), env)
         == FoldMeaning(world.window(d).height, Visited(world, d), mode, Lambda(world, false, d, body, env))
  {
  }

  /** The DSL multiplies the pixels of all inner positions, whatever the outer one. */
  lemma ProductIs(world: World, acc: nat, d: nat, env: Env)
    requires Visited(world, d) != []
    ensures Eval(world, false, Product(acc, d), env) == DslFold(PROD, Pixels(world, acc, d))
  {
    hide VisitedFrom, FoldFrom;
    var cs := Visited(world, d);
    forall i | 0 <= i < |cs|
      ensures Lambda(world, false, d, Return(PixelAt(acc, d)), env)(cs[i].0, cs[i].1) == Pixels(world, acc, d)[i]
    {
      PixelIs(world, acc, d, env, cs[i]);
    }
    hide Eval, EvalBlock, Lambda, PixelBelow;
    assert Values(Lambda(world, false, d, Return(PixelAt(acc, d)), env), cs) == Pixels(world, acc, d);
    FoldIs(world, d, PROD, 2, Return(PixelAt(acc, d)), env);
  }

  lemma SumOfProductsIs(world: World, acc: nat, d: nat)
    requires Visited(world, d) != []
    ensures Eval(world, false, SumOfProducts(acc, d), NOWHERE)
         == DslFold(SUM, Repeated(DslFold(PROD, Pixels(world, acc, d)), |Visited(world, d)|))
  {
    hide VisitedFrom, FoldFrom;
    var cs, inner := Visited(world, d), Return(Product(acc, d));
    var product := DslFold(PROD, Pixels(world, acc, d));
    forall i | 0 <= i < |cs|
      ensures Lambda(world, false, d, inner, NOWHERE)(cs[i].0, cs[i].1) == product
    {
      ReturnIs(world, d, Product(acc, d), NOWHERE, cs[i]);
      ProductIs(world, acc, d, NOWHERE.Register(d, (cs[i].0, cs[i].1)));
    }
    hide Eval, EvalBlock, Lambda, Product;
    assert Values(Lambda(world, false, d, inner, NOWHERE), cs) == Repeated(product, |cs|);
    FoldIs(world, d, SUM, 1, inner, NOWHERE);
  }

  // ------------------------------------------------------ when the two values agree

  lemma {:induction false} ProductOfOnes(n: nat)
    ensures FoldFrom(PROD, 1, Repeated(1, n)) == 1
  {
    if n > 0 {
      assert Repeated(1, n)[..n - 1] == Repeated(1, n - 1);
      ProductOfOnes(n - 1);
    }
  }

  lemma {:induction false} ProductOfZeros(n: nat)
    requires n >= 1
    ensures FoldFrom(PROD, 1, Repeated(0, n)) == 0
  {
  }

  lemma {:induction false} ProductFromZero(values: seq<int>)
    ensures FoldFrom(PROD, 0, values) == 0
  {
    if values != [] { ProductFromZero(values[..|values| - 1]); }
  }

  lemma {:induction false} SumOfRepeated(v: int, n: nat, seed: int)
    requires v == 0 || v == 1
    ensures FoldFrom(SUM, seed, Repeated(v, n)) == seed + v * n
  {
    if n > 0 {
      assert Repeated(v, n)[..n - 1] == Repeated(v, n - 1);
      SumOfRepeated(v, n - 1, seed);
    }
  }

  /** An image that is 0 below the first visited position and 1 elsewhere. */
  ghost function Dark(world: World, d: nat): (nat, int, int) -> int
    requires Visited(world, d) != []
  {
    var c := Visited(world, d)[0];
    (acc, dx, dy) =>
      if dx == c.0 - world.window(d).width / 2 && dy == c.1 - world.window(d).height / 2 then 0 else 1
  }

  lemma DarkPixels(world: World, acc: nat, d: nat)
    requires Visited(world, d) != []
    ensures Pixels(world.(image := Dark(world, d)), acc, d) == [0] + Repeated(1, |Visited(world, d)| - 1)
  {
    hide VisitedFrom;
    VisitedFacts(world.window(d));
  }

  /** On that image the emitted code counts the other positions, and the DSL's value is 0. */
  lemma DarkValues(world: World, acc: nat, d: nat)
    requires world.window(d).isDomain && Visited(world, d) != []
    ensures var w := world.(image := Dark(world, d));
      && Accepted(w, SumOfProducts(acc, d), [], None)
      && Meant(w, SumOfProducts(acc, d), OUTERMOST, NOLOCALS) == |Visited(world, d)| - 1
      && Eval(w, false, SumOfProducts(acc, d), NOWHERE) == 0
  {
    hide Visited, Accepted, Meant, Eval, Dark, Pixels, Powers, FoldFrom;
    var w := world.(image := Dark(world, d));
    VisitedOf(world, w, d);
    DarkPixels(world, acc, d);
    SumOfProductsMeant(w, acc, d);
    SumOfProductsIs(w, acc, d);
    SumOfPowers(|Visited(world, d)|);
    SumOfZeros(|Visited(world, d)|);
  }

  lemma VisitedOf(world: World, other: World, d: nat)
    requires world.window == other.window
    ensures Visited(world, d) == Visited(other, d)
  {
  }

  lemma SumOfPowers(n: nat)
    requires n >= 1
    ensures FoldFrom(SUM, 0, Powers([0] + Repeated(1, n - 1), n)) == n - 1
  {
    hide FoldFrom;
    var pixels := [0] + Repeated(1, n - 1);
    ProductOfZeros(n);
    ProductOfOnes(n);
    assert Powers(pixels, n) == pixels;
    FoldHead(SUM, 0, pixels);
    assert pixels[1..] == Repeated(1, n - 1);
    SumOfRepeated(1, n - 1, 0);
  }

  lemma SumOfZeros(n: nat)
    requires n >= 1
    ensures DslFold(SUM, Repeated(DslFold(PROD, [0] + Repeated(1, n - 1)), n)) == 0
  {
    hide FoldFrom;
    ProductFromZero(([0] + Repeated(1, n - 1))[1..]);
    assert Repeated(0, n)[1..] == Repeated(0, n - 1);
    SumOfRepeated(0, n - 1, 0);
  }

  lemma OnePosition(world: World, acc: nat, d: nat)
    requires world.window(d).isDomain && |Visited(world, d)| == 1
    ensures Accepted(world, SumOfProducts(acc, d), [], None)
    ensures Meant(world, SumOfProducts(acc, d), OUTERMOST, NOLOCALS)
         == Eval(world, false, SumOfProducts(acc, d), NOWHERE)
  {
    hide VisitedFrom, Accepted, Meant, Eval;
    SumOfProductsMeant(world, acc, d);
    SumOfProductsIs(world, acc, d);
    var v := Pixels(world, acc, d)[0];
    assert Pixels(world, acc, d) == [v] && Repeated(v, 1) == [v];
    assert FoldFrom(PROD, 1, [v]) == v && FoldFrom(SUM, 0, [v]) == v;
    assert Powers([v], 1) == [v];
  }

  /** The statements emitted for a program compute the DSL's value of it. */
  ghost predicate Faithful(world: World, e: Expr) {
    && Accepted(world, e, [], None)
    && Computes(world, Unroll.Unroll(world, e, OUTERMOST, FRESH), Eval(world, false, e, NOWHERE), 0, map[])
  }

  lemma FaithfulIff(world: World, e: Expr)
    requires Accepted(world, e, [], None) && Sized(world, e, []) && Scoped(e, {})
    ensures Faithful(world, e) <==> Meant(world, e, OUTERMOST, NOLOCALS) == Eval(world, false, e, NOWHERE)
  {
    hide Unroll.Unroll, ExecAll, ValueOf, Meant, Eval, Accepted, Sized, Scoped;
    assert NOLOCALS.Keys == {};
    UnrollRuns(world, e, OUTERMOST, FRESH, map[], NOLOCALS);
  }

  /** A sum of products nested over one domain, which is not empty: the emitted code computes the
      DSL's value on every image exactly when the domain has one defined position. */
  lemma SumOfProductsIff(world: World, acc: nat, d: nat)
    requires world.window(d).isDomain && Visited(world, d) != []
    ensures (forall image: (nat, int, int) -> int :: Faithful(world.(image := image), SumOfProducts(acc, d)))
      <==> |Visited(world, d)| == 1
  {
    hide VisitedFrom, Accepted, Meant, Eval, Dark, Faithful, Sized;
    forall image: (nat, int, int) -> int
      ensures var w, e := world.(image := image), SumOfProducts(acc, d);
        Accepted(w, e, [], None) && (Faithful(w, e) <==> Meant(w, e, OUTERMOST, NOLOCALS) == Eval(w, false, e, NOWHERE))
    {
      SumOfProductsAccepted(world.(image := image), acc, d);
      FaithfulIff(world.(image := image), SumOfProducts(acc, d));
    }
    if |Visited(world, d)| == 1 {
      forall image: (nat, int, int) -> int
        ensures Faithful(world.(image := image), SumOfProducts(acc, d))
      {
        OnePosition(world.(image := image), acc, d);
      }
    } else {
      DarkValues(world, acc, d);
      assert !Faithful(world.(image := Dark(world, d)), SumOfProducts(acc, d));
    }
  }

  /** A domain of two pixels, holding 1 and 2. */
  const TWOPIXELS: World := World(_ => WindowData(2, 1, [1, 1], [], true, true), (_, dx, _) => dx + 2, -128, 127)

  lemma TwoPixels()
    ensures Visited(TWOPIXELS, 0) == [(0, 0), (1, 0)] && Pixels(TWOPIXELS, 0, 0) == [1, 2]
  {
    var cells := [1, 1];
    assert DefinedFrom(cells, 2, 1) == [CellAt(2, 1)];
    assert CellAt(2, 0) == (0, 0) && CellAt(2, 1) == (1, 0);
  }

  /** On two pixels 1 and 2, the emitted code computes 1*1 + 2*2, the DSL 1*2 + 1*2. */
  lemma SumOfProductsFails()
    ensures Accepted(TWOPIXELS, SumOfProducts(0, 0), [], None)
    ensures Computes(TWOPIXELS, Unroll.Unroll(TWOPIXELS, SumOfProducts(0, 0), OUTERMOST, FRESH), 5, 0, map[])
    ensures Eval(TWOPIXELS, false, SumOfProducts(0, 0), NOWHERE) == 4
  {
    hide Computes, Unroll.Unroll, Accepted, Sized, Scoped, Meant, Eval, Visited, Pixels;
    assert NOLOCALS.Keys == {};
    TwoPixels();
    SumOfProductsAccepted(TWOPIXELS, 0, 0);
    SumOfProductsMeant(TWOPIXELS, 0, 0);
    SumOfProductsIs(TWOPIXELS, 0, 0);
    UnrollRuns(TWOPIXELS, SumOfProducts(0, 0), OUTERMOST, FRESH, map[], NOLOCALS);
    SmallFolds();
  }

  lemma SmallFolds()
    ensures FoldFrom(SUM, 0, Powers([1, 2], 2)) == 5
    ensures DslFold(SUM, Repeated(DslFold(PROD, [1, 2]), 2)) == 4
  {
    assert Repeated(1, 2) == [1, 1] && Repeated(2, 2) == [2, 2];
    assert FoldFrom(PROD, 1, [1]) == 1 && FoldFrom(PROD, 1, [2]) == 2;
    assert [1, 1][..1] == [1] && [2, 2][..1] == [2];
    assert Powers([1, 2], 2) == [1, 4];
    assert [1, 4][..1] == [1];
    assert FoldFrom(SUM, 0, [1]) == 1;
  }

  // ------------------------------------------------------ mask(dom) below another reduction

  /** The same kernel with other coefficients in a mask. */
  ghost function WithCoefficients(world: World, m: nat, coefficients: seq<int>): (w: World)
    requires !world.window(m).isDomain && |coefficients| == |world.window(m).cells|
    ensures forall k :: k != m ==> w.window(k) == world.window(k)
    ensures w.window(m) == world.window(m).(coefficients := coefficients)
  {
    var mask: Window := world.window(m).(coefficients := coefficients);
    world.(window := (k: nat) => if k == m then mask else world.window(k))
  }

  /** mask(dom) below a reduction over dom and, inside it, one over another domain, all of one size. */
  ghost predicate MaskBelow(world: World, m: nat, dom: nat, other: nat) {
    && dom != other && world.window(dom).isDomain && world.window(other).isDomain && !world.window(m).isDomain
    && world.window(m).width == world.window(dom).width == world.window(other).width
    && world.window(m).height == world.window(dom).height == world.window(other).height
  }

  /** The coefficient that the emitted code reads and the one the DSL reads. */
  ghost predicate ReadsSame(world: World, m: nat, dom: nat, other: nat, outer: Cell, inner: Cell) {
    var ctx: Nest := Context([dom, other], [outer, inner], None);
    && Accepted(world, CoefficientAt(m, dom), ctx.domains, None)
    && Meant(world, CoefficientAt(m, dom), ctx, NOLOCALS)
       == Eval(world, false, CoefficientAt(m, dom), EnvOf(ctx, NOLOCALS))
  }

  lemma ReadsSameIff(world: World, m: nat, dom: nat, other: nat, outer: Cell, inner: Cell)
    requires MaskBelow(world, m, dom, other)
    ensures ReadsSame(world, m, dom, other, outer, inner)
      <==> CoefficientOf(world.window(m), inner) == CoefficientOf(world.window(m), outer)
  {
    PositionsOfAt([dom, other], [outer, inner], 0);
  }

  /** There is no pair of positions, or both are the same single one. */
  predicate NoOtherPosition(a: seq<Cell>, b: seq<Cell>) { a == [] || b == [] || (a == b && |a| == 1) }

  /** The emitted code reads the DSL's coefficient at every pair of visited positions, for every
      mask, exactly when there is no such pair or both domains have the same single position. */
  lemma MaskBelowIff(world: World, m: nat, dom: nat, other: nat)
    requires MaskBelow(world, m, dom, other)
    ensures (forall coefficients: seq<int>, outer, inner ::
        |coefficients| == |world.window(m).cells| && outer in Visited(world, dom) && inner in Visited(world, other) ==>
          ReadsSame(WithCoefficients(world, m, coefficients), m, dom, other, outer, inner))
      <==> NoOtherPosition(Visited(world, dom), Visited(world, other))
  {
    hide VisitedFrom, ReadsSame, CoefficientOf;
    var a, b := Visited(world, dom), Visited(world, other);
    if NoOtherPosition(a, b) {
      forall coefficients: seq<int>, outer, inner |
        |coefficients| == |world.window(m).cells| && outer in a && inner in b
        ensures ReadsSame(WithCoefficients(world, m, coefficients), m, dom, other, outer, inner)
      {
        ReadsSameIff(WithCoefficients(world, m, coefficients), m, dom, other, outer, inner);
      }
    } else {
      VisitedFacts(world.window(dom));
      VisitedFacts(world.window(other));
      var outer, inner := DifferentCells(a, b);
      var coefficients := Marked(world.window(m), outer);
      MarkedAt(world.window(m), outer, inner);
      ReadsSameIff(WithCoefficients(world, m, coefficients), m, dom, other, outer, inner);
    }
  }

  lemma DifferentCells(a: seq<Cell>, b: seq<Cell>) returns (outer: Cell, inner: Cell)
    requires !NoOtherPosition(a, b)
    requires forall i, j :: 0 <= i < j < |a| ==> a[i] != a[j]
    requires forall i, j :: 0 <= i < j < |b| ==> b[i] != b[j]
    ensures outer in a && inner in b && outer != inner
  {
    outer, inner := a[0], b[0];
    if outer == inner {
      if |a| > 1 { outer := a[1]; } else { inner := b[1]; }
    }
  }

  /** Coefficients that are 1 at one cell and 0 elsewhere. */
  ghost function Marked(w: Window, c: Cell): seq<int> {
    seq(|w.cells|, p => if p == PositionOf(w.width, c) then 1 else 0)
  }

  lemma MarkedAt(w: Window, c: Cell, other: Cell)
    requires !w.isDomain && c != other && c.0 < w.width && other.0 < w.width && InRange(w, c) && InRange(w, other)
    ensures CoefficientOf(w.(coefficients := Marked(w, c)), c) == 1
    ensures CoefficientOf(w.(coefficients := Marked(w, c)), other) == 0
  {
    CellAtPosition(w.width, c);
    CellAtPosition(w.width, other);
  }

  /** A mask [3, 4], a domain with the first position defined and, inside, one with the second. */
  const HALVES: World := World(k =>
      if k == 0 then WindowData(2, 1, [1, 1], [3, 4], false, true)
      else if k == 1 then WindowData(2, 1, [1, 0], [], true, true)
      else WindowData(2, 1, [0, 1], [], true, true),
    (_, _, _) => 0, -128, 127)

  const READ: Expr := CoefficientAt(0, 1)
  const INNER: Expr := Fold(2, SUM, 2, Return(READ))
  const NEST: Expr := Fold(1, SUM, 1, Return(INNER))

  /** There the emitted code computes 4, the DSL 3. */
  lemma MaskBelowFails()
    ensures Accepted(HALVES, NEST, [], None)
    ensures Computes(HALVES, Unroll.Unroll(HALVES, NEST, OUTERMOST, FRESH), 4, 0, map[])
    ensures Eval(HALVES, false, NEST, NOWHERE) == 3
  {
    HalvesVisited();
    HalvesMeant();
    HalvesIs();
    hide Computes, Unroll.Unroll, Meant, Eval, Accepted, Sized, Scoped;
    assert NOLOCALS.Keys == {};
    UnrollRuns(HALVES, NEST, OUTERMOST, FRESH, map[], NOLOCALS);
  }

  lemma HalvesVisited()
    ensures Visited(HALVES, 1) == [(0, 0)] && Visited(HALVES, 2) == [(1, 0)]
  {
    var left, right := [1, 0], [0, 1];
    assert DefinedFrom(left, 2, 1) == [] && DefinedFrom(right, 2, 1) == [CellAt(2, 1)];
    assert CellAt(2, 0) == (0, 0) && CellAt(2, 1) == (1, 0);
  }

  lemma HalvesAccepted()
    ensures Accepted(HALVES, READ, [1, 2], None) && AcceptedFold(HALVES, 2, Return(READ), [1], None)
    ensures Accepted(HALVES, INNER, [1], None) && AcceptedFold(HALVES, 1, Return(INNER), [], None)
    ensures Accepted(HALVES, NEST, [], None) && Sized(HALVES, NEST, []) && Scoped(NEST, {})
  {
    assert Accepted(HALVES, READ, [1, 2], None) && Sized(HALVES, READ, [1, 2]) && [1] + [2] == [1, 2];
    assert AcceptedFold(HALVES, 2, Return(READ), [1], None);
    assert Accepted(HALVES, INNER, [1], None) && Sized(HALVES, INNER, [1]) && [] + [1] == [1];
    assert AcceptedFold(HALVES, 1, Return(INNER), [], None);
  }

  lemma HalvesRead()
    ensures Accepted(HALVES, READ, [1, 2], None)
    ensures Meant(HALVES, READ, Context([1, 2], [(0, 0), (1, 0)], None), NOLOCALS) == 4
  {
  }

  lemma HalvesEnter()
    ensures Enter(HALVES, Context([1], [(0, 0)], None), 2, (1, 0)) == Context([1, 2], [(0, 0), (1, 0)], None)
  {
  }

  lemma HalvesInner()
    ensures Accepted(HALVES, INNER, [1], None) && Meant(HALVES, INNER, Context([1], [(0, 0)], None), NOLOCALS) == 4
  {
    var outer: Nest := Context([1], [(0, 0)], None);
    HalvesVisited();
    HalvesAccepted();
    HalvesRead();
    HalvesEnter();
    hide Visited, Meant, MeantAt, Accepted, AcceptedFold, FoldFrom, Enter;
    FoldMeant(HALVES, 2, SUM, 2, Return(READ), outer);
    MeantAtCell(HALVES, 2, Return(READ), outer, NOLOCALS, (1, 0));
    assert Values(MeantAt(HALVES, 2, Return(READ), outer, NOLOCALS), [(1, 0)]) == [4];
    SumOfOne(4);
  }

  lemma HalvesMeant()
    ensures Accepted(HALVES, NEST, [], None) && Sized(HALVES, NEST, []) && Scoped(NEST, {})
    ensures Meant(HALVES, NEST, OUTERMOST, NOLOCALS) == 4
  {
    HalvesVisited();
    HalvesAccepted();
    HalvesInner();
    hide Visited, Meant, MeantAt, Accepted, AcceptedFold, FoldFrom;
    FoldMeant(HALVES, 1, SUM, 1, Return(INNER), OUTERMOST);
    MeantAtCell(HALVES, 1, Return(INNER), OUTERMOST, NOLOCALS, (0, 0));
    EnterOutermost(HALVES, 1, (0, 0));
    assert Values(MeantAt(HALVES, 1, Return(INNER), OUTERMOST, NOLOCALS), [(0, 0)]) == [4];
    SumOfOne(4);
  }

  lemma HalvesIs()
    ensures Eval(HALVES, false, NEST, NOWHERE) == 3
  {
    HalvesVisited();
    hide Visited, Lambda, Eval;
    var env := NOWHERE.Register(1, (0, 0));
    HalvesInnerIs(env);
    ReturnIs(HALVES, 1, INNER, NOWHERE, (0, 0));
    assert Values(Lambda(HALVES, false, 1, Return(INNER), NOWHERE), [(0, 0)]) == [3];
    FoldIs(HALVES, 1, SUM, 1, Return(INNER), NOWHERE);
  }

  lemma HalvesReadIs(env: Env)
    requires At(env, 1) == (0, 0)
    ensures Eval(HALVES, false, READ, env) == 3
  {
  }

  lemma HalvesInnerIs(env: Env)
    requires env == NOWHERE.Register(1, (0, 0))
    ensures Eval(HALVES, false, INNER, env) == 3
  {
    hide Visited, Lambda, Eval;
    HalvesVisited();
    HalvesReadIs(env.Register(2, (1, 0)));
    ReturnIs(HALVES, 2, READ, env, (1, 0));
    assert Values(Lambda(HALVES, false, 2, Return(READ), env), [(1, 0)]) == [3];
    FoldIs(HALVES, 2, SUM, 2, Return(READ), env);
  }

  lemma SumOfOne(v: int)
    ensures FoldFrom(SUM, 0, [v]) == v
  {
  }
}
