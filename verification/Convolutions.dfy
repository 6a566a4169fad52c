/** The textbook case: the sum over a mask of coefficient times pixel, and its difference from a
    pixel.  What the DSL means by such a kernel, and what the emitted code computes,
    is that arithmetic on the image's own pixels. */
module Convolutions {
  import opened Launch
  import opened Folds
  import opened Domains
  import opened Unroll
  import opened NestedFolds

  /** convolve(mask, SUM, mask() * acc(mask)). */
  function Convolution(m: nat, acc: nat): Expr {
    Fold(m, SUM, 1, Return(Binary(Times, Coefficient(m), PixelAt(acc, m))))
  }

  /** Coefficient times pixel at linear position p of the mask: column p % width and row p / width,
      seen from the middle. */
  function Term(world: World, m: nat, acc: nat, p: nat): int
    requires p < |world.window(m).coefficients|
  {
    var w := world.window(m);
    w.coefficients[p] * world.image(acc, p % w.width - w.width / 2, p / w.width - w.height / 2)
  }

  /** The terms from position p on. */
  function WeightedSum(world: World, m: nat, acc: nat, p: nat): int
    decreases |world.window(m).coefficients| - p
  {
    if p >= |world.window(m).coefficients| then 0 else Term(world, m, acc, p) + WeightedSum(world, m, acc, p + 1)
  }

  ghost function Weight(world: World, m: nat, acc: nat): (int, int) -> int {
    Lambda(world, false, m, Return(Binary(Times, Coefficient(m), PixelAt(acc, m))), NOWHERE)
  }

  lemma ProductHere(world: World, m: nat, acc: nat, env: Env, c: Cell)
    requires At(env, m) == (c.0, c.1)
    ensures var w := world.window(m);
      Eval(world, false, Binary(Times, Coefficient(m), PixelAt(acc, m)), env)
      == CoefficientOf(w, (c.0, c.1)) * world.image(acc, c.0 - w.width / 2, c.1 - w.height / 2)
  {
    hide CoefficientOf;
  }

  lemma CoefficientHere(w: Window, p: nat)
    requires !w.isDomain && p < |w.coefficients|
    ensures var c := CellAt(w.width, p);
      CoefficientOf(w, (c.0, c.1)) == w.coefficients[p] && c.0 == p % w.width && c.1 == p / w.width
  {
    PositionOfCellAt(w.width, p);
    CellOf(w.width, p);
    hide CellAt;
  }

  lemma WeightAt(world: World, m: nat, acc: nat, p: nat)
    requires var w := world.window(m); !w.isDomain && p < |w.coefficients|
    ensures var c := CellAt(world.window(m).width, p); Weight(world, m, acc)(c.0, c.1) == Term(world, m, acc, p)
  {
    hide Eval, Lambda, CoefficientOf, CellAt;
    var w := world.window(m);
    var c := CellAt(w.width, p);
    CoefficientHere(w, p);
    ReturnIs(world, m, Binary(Times, Coefficient(m), PixelAt(acc, m)), NOWHERE, c);
    ProductHere(world, m, acc, NOWHERE.Register(m, (c.0, c.1)), c);
  }

  lemma VisitedStep(w: Window, p: nat)
    requires !w.isDomain && p < |w.coefficients|
    ensures VisitedFrom(w, p) == [CellAt(w.width, p)] + VisitedFrom(w, p + 1)
  {
    hide CellAt;
  }

  lemma TotalStep(fun: (int, int) -> int, c: Cell, cells: seq<Cell>)
    ensures TotalOver(fun, [c] + cells) == fun(c.0, c.1) + TotalOver(fun, cells)
  {
    assert ([c] + cells)[1..] == cells;
  }

  lemma {:induction false} TotalIsWeightedSum(world: World, m: nat, acc: nat, p: nat)
    requires var w := world.window(m); !w.isDomain && p <= |w.coefficients|
    ensures TotalOver(Weight(world, m, acc), VisitedFrom(world.window(m), p)) == WeightedSum(world, m, acc, p)
    decreases |world.window(m).coefficients| - p
  {
    var w, fun := world.window(m), Weight(world, m, acc);
    if p < |w.coefficients| {
      hide Weight, CellAt, VisitedFrom, TotalOver, Term;
      WeightAt(world, m, acc, p);
      TotalIsWeightedSum(world, m, acc, p + 1);
      VisitedStep(w, p);
      TotalStep(fun, CellAt(w.width, p), VisitedFrom(w, p + 1));
    } else {
      assert VisitedFrom(w, p) == [];
    }
  }

  lemma MaskIsVisited(w: Window)
    requires !w.isDomain
    ensures VisitedFrom(w, 0) != []
  {
    MulMono(1, w.height, w.width);
  }

  /** The convolution means the weighted sum, and so does the code emitted for it. */
  lemma ConvolutionIsSum(world: World, m: nat, acc: nat)
    requires !world.window(m).isDomain
    ensures Eval(world, false, Convolution(m, acc), NOWHERE) == WeightedSum(world, m, acc, 0)
    ensures Faithful(world, Convolution(m, acc))
  {
    ConvolutionMeans(world, m, acc);
    ConvolutionChecks(world, m, acc);
    hide Eval, Accepted, Disciplined, NeutrallySeeded, Scoped;
    UnrollingPreservesMeaning(world, Convolution(m, acc), FRESH, map[]);
  }

  lemma ConvolutionMeans(world: World, m: nat, acc: nat)
    requires !world.window(m).isDomain
    ensures Eval(world, false, Convolution(m, acc), NOWHERE) == WeightedSum(world, m, acc, 0)
  {
    hide Eval, Lambda, VisitedFrom, FoldFrom, TotalOver;
    MaskIsVisited(world.window(m));
    FoldIs(world, m, SUM, 1, Return(Binary(Times, Coefficient(m), PixelAt(acc, m))), NOWHERE);
    FoldAggregates(SUM, Weight(world, m, acc), VisitedFrom(world.window(m), 0));
    TotalIsWeightedSum(world, m, acc, 0);
  }

  lemma ConvolutionChecks(world: World, m: nat, acc: nat)
    requires !world.window(m).isDomain
    ensures var e := Convolution(m, acc);
      && Accepted(world, e, [], None) && Disciplined(world, e, []) && NeutrallySeeded(world, e) && Scoped(e, {})
  {
    hide VisitedFrom;
    MaskIsVisited(world.window(m));
    WeightChecks(world, m, acc);
  }

  lemma WeightChecks(world: World, m: nat, acc: nat)
    requires !world.window(m).isDomain
    ensures var body := Return(Binary(Times, Coefficient(m), PixelAt(acc, m)));
      && AcceptedBlock(world, body, [], Some(m)) && DisciplinedBlock(world, body, [])
      && NeutrallySeededBlock(world, body) && ScopedBlock(body, {})
  {
    hide VisitedFrom;
    var l, r := Coefficient(m), PixelAt(acc, m);
    var value := Binary(Times, l, r);
    assert Accepted(world, l, [], Some(m)) && Accepted(world, r, [], Some(m));
    assert Disciplined(world, l, []) && Disciplined(world, r, []);
    assert NeutrallySeeded(world, l) && NeutrallySeeded(world, r) && Scoped(l, {}) && Scoped(r, {});
    assert Accepted(world, value, [], Some(m)) && Disciplined(world, value, []);
    assert NeutrallySeeded(world, value) && Scoped(value, {});
  }

  /** A pixel at an offset with the convolution added or taken away. */
  function Combined(op: Operator, dx: int, dy: int, m: nat, acc: nat): Expr {
    Binary(op, Pixel(acc, dx, dy), Convolution(m, acc))
  }

  lemma CombinedIsArithmetic(world: World, op: Operator, dx: int, dy: int, m: nat, acc: nat)
    requires !world.window(m).isDomain
    ensures var pixel, sum := world.image(acc, dx, dy), WeightedSum(world, m, acc, 0);
      Eval(world, false, Combined(op, dx, dy, m, acc), NOWHERE)
      == match op case Plus => pixel + sum case Minus => pixel - sum case Times => pixel * sum
    ensures Faithful(world, Combined(op, dx, dy, m, acc))
  {
    ConvolutionMeans(world, m, acc);
    ConvolutionChecks(world, m, acc);
    var e := Combined(op, dx, dy, m, acc);
    CombinedParts(world, op, dx, dy, m, acc);
    hide Eval, Accepted, Disciplined, NeutrallySeeded, Scoped;
    UnrollingPreservesMeaning(world, e, FRESH, map[]);
  }

  lemma CombinedParts(world: World, op: Operator, dx: int, dy: int, m: nat, acc: nat)
    requires !world.window(m).isDomain
    requires var e := Convolution(m, acc);
      && Accepted(world, e, [], None) && Disciplined(world, e, []) && NeutrallySeeded(world, e) && Scoped(e, {})
    ensures var e := Combined(op, dx, dy, m, acc);
      && Accepted(world, e, [], None) && Disciplined(world, e, []) && NeutrallySeeded(world, e) && Scoped(e, {})
      && Eval(world, false, e, NOWHERE)
         == Apply(op, world.image(acc, dx, dy), Eval(world, false, Convolution(m, acc), NOWHERE))
  {
    hide Convolution;
  }
}
