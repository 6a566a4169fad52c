/** Unrolling of `convolve` and `reduce` lambdas (lib/AST/Convolution.cpp): the statements emitted
    for a lambda folded over a mask or a domain compute what the DSL's own loop computes. */
module Unroll {
  import opened Launch
  import opened Folds
  import opened Domains

  // ------------------------------------------------------------- the kernel language

  /** A Mask or a Domain.  Its cells say which positions of a Domain are defined. */
  datatype WindowData = WindowData(
    width: nat, height: nat, cells: seq<nat>, coefficients: seq<int>, isDomain: bool, constant: bool)

  type Window = w: WindowData |
      w.width >= 1 && w.height >= 1 && |w.cells| == Start(w.height, w.width)
      && (w.isDomain || |w.coefficients| == |w.cells|)
    witness WindowData(1, 1, [1], [1], true, true)

  /** What kernels refer to: the windows, the pixel of an accessor at an offset from the current
      one, and the limits of the pixel type. */
  datatype World = World(window: nat -> Window, image: (nat, int, int) -> int, least: int, greatest: int)

  datatype Operator = Plus | Minus | Times

  datatype Expr =
    | Constant(value: int)
    | Pixel(accessor: nat, dx: int, dy: int)                   // acc(dx, dy)
    | PixelAt(accessor: nat, window: nat)                      // acc(mask) or acc(dom)
    | Coefficient(mask: nat)                                   // mask()
    | CoefficientAt(mask: nat, domain: nat)                    // mask(dom)
    | Local(name: nat, init: Expr)                             // a local variable, with its declaration's initialiser
    | Binary(op: Operator, left: Expr, right: Expr)
    | Fold(over: nat, mode: Mode, lambda: nat, body: Block)    // convolve or reduce; lambda names its body

  /** A lambda's body: declarations of locals, then the return statement. */
  datatype Block = Return(value: Expr) | Define(name: nat, init: Expr, rest: Block)

  function Apply(op: Operator, a: int, b: int): int {
    match op
    case Plus => a + b
    case Minus => a - b
    case Times => a * b
  }

  /** The position of the iterator registered with each window, and the values of locals. */
  datatype Env = Env(positions: map<nat, (int, int)>, locals: map<nat, int>) {
    function Register(w: nat, c: (int, int)): Env { this.(positions := positions[w := c]) }
    function Bind(name: nat, value: int): Env { this.(locals := locals[name := value]) }
  }

  const NOWHERE: Env := Env(map[], map[])

  /** Position of the iterator registered with a window (asserted to be set in the DSL). */
  function At(env: Env, w: nat): (int, int) { if w in env.positions then env.positions[w] else (0, 0) }

  function ValueIn(locals: map<nat, int>, name: nat): int { if name in locals then locals[name] else 0 }

  /** A mask's coefficient; what lies outside the array is unspecified. */
  function CoefficientOf(w: Window, c: (int, int)): int {
    var p := Start(c.1, w.width) + c.0;
    if 0 <= p < |w.coefficients| then w.coefficients[p] else 0
  }

  /** The positions a fold visits: all of a Mask, the defined ones of a Domain. */
  ghost function VisitedFrom(w: Window, p: nat): seq<Cell> {
    DefinedFrom(if w.isDomain then w.cells else Ones(|w.cells|), w.width, p)
  }

  /** Value each fold starts from in the emitted code. */
  function Seed(world: World, mode: Mode): int {
    match mode
    case SUM => 0
    case MIN => world.least
    case MAX => world.greatest
    case PROD => 1
  }

  /** The value of an expression: with `seeded` false as the DSL computes it, with `seeded`
      true with every fold starting from its seed. */
  ghost function Eval(world: World, seeded: bool, e: Expr, env: Env): int
    decreases e, 0
  {
    match e
    case Constant(v) => v
    case Pixel(acc, dx, dy) => world.image(acc, dx, dy)
    case PixelAt(acc, w) =>
      var c := At(env, w);
      world.image(acc, c.0 - world.window(w).width / 2, c.1 - world.window(w).height / 2)
    case Coefficient(m) => CoefficientOf(world.window(m), At(env, m))
    case CoefficientAt(m, d) => CoefficientOf(world.window(m), At(env, d))
    case Local(n, _) => ValueIn(env.locals, n)
    case Binary(op, l, r) => Apply(op, Eval(world, seeded, l, env), Eval(world, seeded, r, env))
    case Fold(w, mode, _, body) =>
      var fun := Lambda(world, seeded, w, body, env);
      var visited := VisitedFrom(world.window(w), 0);
      if seeded then FoldFrom(mode, Seed(world, mode), Values(fun, visited))
      else FoldMeaning(world.window(w).height, visited, mode, fun)
  }

  ghost function EvalBlock(world: World, seeded: bool, b: Block, env: Env): int
    decreases b, 0
  {
    match b
    case Return(e) => Eval(world, seeded, e, env)
    case Define(n, init, rest) => EvalBlock(world, seeded, rest, env.Bind(n, Eval(world, seeded, init, env)))
  }

  /** A lambda captured by reference, as a function of the position registered with w. */
  ghost function Lambda(world: World, seeded: bool, w: nat, body: Block, env: Env): (int, int) -> int
    decreases body, 1
  {
    (x, y) => EvalBlock(world, seeded, body, env.Register(w, (x, y)))
  }

  // ------------------------------------------------------------- the emitted language

  datatype Value =
    | Literal(value: int)
    | ReadPixel(accessor: nat, dx: int, dy: int)
    | ReadCoefficient(mask: nat, x: nat, y: nat)
    | Temporary(id: nat)
    | Variable(name: nat)
    | Operation(op: Operator, left: Value, right: Value)

  datatype Stmt =
    | Declare(tmp: nat, seed: int)
    | DeclareLocal(name: nat, init: Value)
    | Accumulate(tmp: nat, mode: Mode, value: Value)
    | Compound(body: seq<Stmt>)
    | IfDefined(domain: nat, x: nat, y: nat, inner: Stmt)

  datatype Name = Tmp(id: nat) | Named(name: nat)

  type Store = map<Name, int>

  /** None: an undeclared variable or an access outside a mask. */
  function ValueOf(world: World, v: Value, store: Store): Option<int> {
    match v
    case Literal(c) => Some(c)
    case ReadPixel(acc, dx, dy) => Some(world.image(acc, dx, dy))
    case ReadCoefficient(m, x, y) =>
      var p := Start(y, world.window(m).width) + x;
      if 0 <= p < |world.window(m).coefficients| then Some(world.window(m).coefficients[p]) else None
    case Temporary(t) => if Tmp(t) in store then Some(store[Tmp(t)]) else None
    case Variable(n) => if Named(n) in store then Some(store[Named(n)]) else None
    case Operation(op, l, r) =>
      var a, b := ValueOf(world, l, store), ValueOf(world, r, store);
      if a.None? || b.None? then None else Some(Apply(op, a.value, b.value))
  }

  /** None: an undeclared or twice declared variable, or a cell outside the domain.  What a
      compound statement declares ends with it. */
  ghost function Exec(world: World, s: Stmt, store: Store): Option<Store>
    decreases s
  {
    match s
    case Declare(t, seed) => if Tmp(t) in store then None else Some(store[Tmp(t) := seed])
    case DeclareLocal(n, init) =>
      var value := ValueOf(world, init, store);
      if Named(n) in store || value.None? then None else Some(store[Named(n) := value.value])
    case Accumulate(t, mode, v) =>
      var value := ValueOf(world, v, store);
      if Tmp(t) !in store || value.None? then None
      else Some(store[Tmp(t) := Combine(mode, store[Tmp(t)], value.value)])
    case Compound(body) =>
      var end := ExecAll(world, body, store);
      if end.None? then None else Some(map v | v in store && v in end.value :: end.value[v])
    case IfDefined(d, x, y, inner) =>
      var p := Start(y, world.window(d).width) + x;
      if !(0 <= p < |world.window(d).cells|) then None
      else if world.window(d).cells[p] > 0 then Exec(world, inner, store)
      else Some(store)
  }

  ghost function ExecAll(world: World, ss: seq<Stmt>, store: Store): Option<Store>
    decreases ss
  {
    if ss == [] then Some(store)
    else
      var next := Exec(world, ss[0], store);
      if next.None? then None else ExecAll(world, ss[1..], next.value)
  }

  lemma {:induction false} ExecConcat(world: World, a: seq<Stmt>, b: seq<Stmt>, store: Store)
    ensures ExecAll(world, a + b, store) ==
      var mid := ExecAll(world, a, store);
      if mid.None? then None else ExecAll(world, b, mid.value)
    decreases |a|
  {
    if a == [] {
      assert a + b == b;
    } else {
      assert (a + b)[0] == a[0] && (a + b)[1..] == a[1..] + b;
      var next := Exec(world, a[0], store);
      if next.Some? { ExecConcat(world, a[1..], b, next.value); }
    }
  }

  // ----------------------------------------------------------------- the translation

  /** The enclosing reductions with the unrolled position of each, outermost first, and the
      enclosing convolution. */
  datatype Context = Context(domains: seq<nat>, positions: seq<Cell>, conv: Option<(nat, Cell)>)

  type Nest = c: Context | |c.domains| == |c.positions| witness Context([], [], None)

  /** What the translator asserts about an expression below the given folds, and no reduction
      inside a convolution.  Reading a local may clone its initialiser again. */
  predicate Accepted(world: World, e: Expr, domains: seq<nat>, conv: Option<nat>)
    decreases e, 0
  {
    match e
    case Constant(_) => true
    case Pixel(_, _, _) => true
    case PixelAt(_, w) => if conv.Some? then w == conv.value else w in domains
    case Coefficient(m) => conv == Some(m) && !world.window(m).isDomain
    case CoefficientAt(m, d) =>
      && d in domains && !world.window(m).isDomain
      && world.window(m).width == world.window(d).width && world.window(m).height == world.window(d).height
    case Local(_, init) => Accepted(world, init, domains, conv)
    case Binary(_, l, r) => Accepted(world, l, domains, conv) && Accepted(world, r, domains, conv)
    case Fold(w, _, _, body) => AcceptedFold(world, w, body, domains, conv)
  }

  predicate AcceptedBlock(world: World, b: Block, domains: seq<nat>, conv: Option<nat>)
    decreases b, 0
  {
    match b
    case Return(e) => Accepted(world, e, domains, conv)
    case Define(_, init, rest) => Accepted(world, init, domains, conv) && AcceptedBlock(world, rest, domains, conv)
  }

  predicate AcceptedFold(world: World, w: nat, body: Block, domains: seq<nat>, conv: Option<nat>)
    decreases body, 1
  {
    && conv.None?
    && if world.window(w).isDomain then AcceptedBlock(world, body, domains + [w], None)
       else AcceptedBlock(world, body, domains, Some(w))
  }

  function ConvMask(ctx: Nest): Option<nat> { if ctx.conv.Some? then Some(ctx.conv.value.0) else None }

  /** The translator searches the reductions from the outermost. */
  function FirstMatch(domains: seq<nat>, positions: seq<Cell>, w: nat): (c: Cell)
    requires |domains| == |positions| && w in domains
  {
    if domains[0] == w then positions[0] else FirstMatch(domains[1..], positions[1..], w)
  }

  function PositionIn(ctx: Nest, w: nat): Cell
    requires if ctx.conv.Some? then w == ctx.conv.value.0 else w in ctx.domains
  {
    if ctx.conv.Some? then ctx.conv.value.1 else FirstMatch(ctx.domains, ctx.positions, w)
  }

  function Enter(world: World, ctx: Nest, w: nat, c: Cell): Nest {
    if world.window(w).isDomain then Context(ctx.domains + [w], ctx.positions + [c], ctx.conv)
    else ctx.(conv := Some((w, c)))
  }

  /** The next unused temporary, and the locals of lambdas that have been cloned. */
  datatype Names = Names(next: nat, known: set<nat>)

  /** Statements to run before, the value, and the names then. */
  datatype Code = Code(before: seq<Stmt>, value: Value, after: Names)

  function CoefficientCode(world: World, m: nat, c: Cell): Value {
    if world.window(m).constant then Literal(CoefficientOf(world.window(m), c)) else ReadCoefficient(m, c.0, c.1)
  }

  ghost function Unroll(world: World, e: Expr, ctx: Nest, names: Names): Code
    requires Accepted(world, e, ctx.domains, ConvMask(ctx))
    decreases e, 0
  {
    match e
    case Constant(v) => Code([], Literal(v), names)
    case Pixel(acc, dx, dy) => Code([], ReadPixel(acc, dx, dy), names)
    case PixelAt(acc, w) =>
      var c := PositionIn(ctx, w);
      Code([], ReadPixel(acc, c.0 - world.window(w).width / 2, c.1 - world.window(w).height / 2), names)
    case Coefficient(m) => Code([], CoefficientCode(world, m, ctx.conv.value.1), names)
    case CoefficientAt(m, _) => Code([], CoefficientCode(world, m, ctx.positions[|ctx.positions| - 1]), names)
    case Local(n, init) => // cloned again when it is not known: its statements run for nothing
      if n in names.known then Code([], Variable(n), names)
      else
        var again := Unroll(world, init, ctx, names);
        Code(again.before, Variable(n), Names(again.after.next, again.after.known + {n}))
    case Binary(op, l, r) => // the right operand first
      var right := Unroll(world, r, ctx, names);
      var left := Unroll(world, l, ctx, right.after);
      Code(right.before + left.before, Operation(op, left.value, right.value), left.after)
    case Fold(w, mode, _, body) =>
      var tmp := names.next;
      var loop := Iterations(world, w, tmp, mode, body, ctx, names.(next := tmp + 1), 0);
      Code([Declare(tmp, Seed(world, mode))] + loop.0, Temporary(tmp), loop.1)
  }

  /** A lambda's statements: what each has to run before it, and the statement itself. */
  ghost function UnrollBlock(world: World, b: Block, ctx: Nest, tmp: nat, mode: Mode, names: Names): (seq<Stmt>, Names)
    requires AcceptedBlock(world, b, ctx.domains, ConvMask(ctx))
    decreases b, 0
  {
    match b
    case Return(e) =>
      var code := Unroll(world, e, ctx, names);
      (code.before + [Accumulate(tmp, mode, code.value)], code.after)
    case Define(n, init, rest) =>
      var code := Unroll(world, init, ctx, names);
      var others := UnrollBlock(world, rest, ctx, tmp, mode, Names(code.after.next, code.after.known + {n}));
      (code.before + [DeclareLocal(n, code.value)] + others.0, others.1)
  }

  /** A check at run time, for a domain that is not a constant. */
  function Guarded(world: World, w: nat, c: Cell, stmt: Stmt): Stmt {
    if world.window(w).isDomain && !world.window(w).constant then IfDefined(w, c.0, c.1, stmt) else stmt
  }

  /** The lambda's body unrolled at the linear position p, if the fold visits it.  Afterwards every
      local is forgotten, those of enclosing lambdas included. */
  ghost function Iteration(world: World, w: nat, tmp: nat, mode: Mode, body: Block, ctx: Nest, names: Names, p: nat)
    : (seq<Stmt>, Names)
    requires AcceptedFold(world, w, body, ctx.domains, ConvMask(ctx))
    requires p < |world.window(w).cells|
    decreases body, 1
  {
    var window := world.window(w);
    if window.isDomain && window.constant && window.cells[p] == 0 then ([], names)
    else
      var c := CellAt(window.width, p);
      var block := UnrollBlock(world, body, Enter(world, ctx, w, c), tmp, mode, names);
      ([Guarded(world, w, c, Compound(block.0))], Names(block.1.next, {}))
  }

  ghost function Iterations(world: World, w: nat, tmp: nat, mode: Mode, body: Block, ctx: Nest, names: Names, p: nat)
    : (seq<Stmt>, Names)
    requires AcceptedFold(world, w, body, ctx.domains, ConvMask(ctx))
    decreases body, 2 + |world.window(w).cells| - p
  {
    if p >= |world.window(w).cells| then ([], names)
    else
      var one := Iteration(world, w, tmp, mode, body, ctx, names, p);
      var rest := Iterations(world, w, tmp, mode, body, ctx, one.1, p + 1);
      (one.0 + rest.0, rest.1)
  }

  /** What the emitted code stands for: every fold starts from its seed, a window is read where the
      translator looks its position up, and mask(dom) at the innermost reduction. */
  ghost function Meant(world: World, e: Expr, ctx: Nest, locals: map<nat, int>): int
    requires Accepted(world, e, ctx.domains, ConvMask(ctx))
    decreases e, 0
  {
    match e
    case Constant(v) => v
    case Pixel(acc, dx, dy) => world.image(acc, dx, dy)
    case PixelAt(acc, w) =>
      var c := PositionIn(ctx, w);
      world.image(acc, c.0 - world.window(w).width / 2, c.1 - world.window(w).height / 2)
    case Coefficient(m) => CoefficientOf(world.window(m), ctx.conv.value.1)
    case CoefficientAt(m, _) => CoefficientOf(world.window(m), ctx.positions[|ctx.positions| - 1])
    case Local(n, _) => ValueIn(locals, n)
    case Binary(op, l, r) => Apply(op, Meant(world, l, ctx, locals), Meant(world, r, ctx, locals))
    case Fold(w, mode, _, body) =>
      FoldFrom(mode, Seed(world, mode), Values(MeantAt(world, w, body, ctx, locals), VisitedFrom(world.window(w), 0)))
  }

  ghost function MeantBlock(world: World, b: Block, ctx: Nest, locals: map<nat, int>): int
    requires AcceptedBlock(world, b, ctx.domains, ConvMask(ctx))
    decreases b, 0
  {
    match b
    case Return(e) => Meant(world, e, ctx, locals)
    case Define(n, init, rest) => MeantBlock(world, rest, ctx, locals[n := Meant(world, init, ctx, locals)])
  }

  /** A lambda's body as a function of the position unrolled. */
  ghost function MeantAt(world: World, w: nat, body: Block, ctx: Nest, locals: map<nat, int>): (int, int) -> int
    requires AcceptedFold(world, w, body, ctx.domains, ConvMask(ctx))
    decreases body, 1
  {
    (x, y) => if x < 0 || y < 0 then 0 else MeantBlock(world, body, Enter(world, ctx, w, (x, y)), locals)
  }

  lemma MeantAtCell(world: World, w: nat, body: Block, ctx: Nest, locals: map<nat, int>, c: Cell)
    requires AcceptedFold(world, w, body, ctx.domains, ConvMask(ctx))
    ensures MeantAt(world, w, body, ctx, locals)(c.0, c.1)
         == MeantBlock(world, body, Enter(world, ctx, w, c), locals)
  {
  }

  // ------------------------------------------------------ the code computes what it stands for

  /** mask(dom) is read at positions of the innermost reduction: its mask has that domain's size. */
  predicate Sized(world: World, e: Expr, domains: seq<nat>)
    decreases e
  {
    match e
    case CoefficientAt(m, _) =>
      domains != [] &&
      var last := world.window(domains[|domains| - 1]);
      world.window(m).width == last.width && world.window(m).height == last.height
    case Local(_, init) => Sized(world, init, domains)
    case Binary(_, l, r) => Sized(world, l, domains) && Sized(world, r, domains)
    case Fold(w, _, _, body) => SizedBlock(world, body, if world.window(w).isDomain then domains + [w] else domains)
    case _ => true
  }

  predicate SizedBlock(world: World, b: Block, domains: seq<nat>)
    decreases b
  {
    match b
    case Return(e) => Sized(world, e, domains)
    case Define(_, init, rest) => Sized(world, init, domains) && SizedBlock(world, rest, domains)
  }

  /** Locals are read where they are visible, and no two that are visible share a name. */
  predicate Scoped(e: Expr, scope: set<nat>)
    decreases e
  {
    match e
    case Local(n, init) => n in scope && Scoped(init, scope)
    case Binary(_, l, r) => Scoped(l, scope) && Scoped(r, scope)
    case Fold(_, _, _, body) => ScopedBlock(body, scope)
    case _ => true
  }

  predicate ScopedBlock(b: Block, scope: set<nat>)
    decreases b
  {
    match b
    case Return(e) => Scoped(e, scope)
    case Define(n, init, rest) => n !in scope && Scoped(init, scope) && ScopedBlock(rest, scope + {n})
  }

  predicate InRange(w: Window, c: Cell) { PositionOf(w.width, c) < |w.cells| }

  ghost predicate WellPlaced(world: World, ctx: Nest) {
    && (forall i :: 0 <= i < |ctx.domains| ==>
          world.window(ctx.domains[i]).isDomain && InRange(world.window(ctx.domains[i]), ctx.positions[i]))
    && (ctx.conv.Some? ==>
          !world.window(ctx.conv.value.0).isDomain && InRange(world.window(ctx.conv.value.0), ctx.conv.value.1))
  }

  lemma EnterWellPlaced(world: World, ctx: Nest, w: nat, c: Cell)
    requires WellPlaced(world, ctx) && InRange(world.window(w), c)
    ensures WellPlaced(world, Enter(world, ctx, w, c))
  {
  }

  /** A store grows by temporaries numbered from lo to hi. */
  ghost predicate Grows(store: Store, end: Store, lo: nat, hi: nat) {
    && (forall v :: v in store ==> v in end && end[v] == store[v])
    && (forall v :: v in end ==> v in store || (v.Tmp? && lo <= v.id < hi))
  }

  ghost predicate Unused(store: Store, next: nat) { forall t: nat :: Tmp(t) in store ==> t < next }

  /** The store holds the locals. */
  ghost predicate Holds(store: Store, locals: map<nat, int>) {
    && (forall n :: n in locals ==> Named(n) in store && store[Named(n)] == locals[n])
    && (forall n: nat :: Named(n) in store ==> n in locals)
  }

  lemma {:induction false} ValueKept(world: World, v: Value, store: Store, end: Store, lo: nat, hi: nat)
    requires Grows(store, end, lo, hi) && ValueOf(world, v, store).Some?
    ensures ValueOf(world, v, end) == ValueOf(world, v, store)
    decreases v
  {
    match v
    case Operation(_, l, r) =>
      ValueKept(world, l, store, end, lo, hi);
      ValueKept(world, r, store, end, lo, hi);
    case _ =>
  }

  /** The statements run without error, leave the store as it was but for their own temporaries,
      and then the value is that of the expression. */
  ghost predicate Computes(world: World, code: Code, value: int, next: nat, store: Store) {
    var end := ExecAll(world, code.before, store);
    && next <= code.after.next
    && end.Some? && Grows(store, end.value, next, code.after.next)
    && ValueOf(world, code.value, end.value) == Some(value)
  }

  lemma SameSize(mask: Window, domain: Window)
    requires mask.width == domain.width && mask.height == domain.height
    ensures |mask.cells| == |domain.cells|
    ensures forall c: Cell :: InRange(domain, c) ==> InRange(mask, c)
  {
  }

  lemma CoefficientComputes(world: World, m: nat, c: Cell, store: Store)
    requires !world.window(m).isDomain && InRange(world.window(m), c)
    ensures ValueOf(world, CoefficientCode(world, m, c), store) == Some(CoefficientOf(world.window(m), c))
  {
  }

  lemma {:induction false} UnrollRuns(
      world: World, e: Expr, ctx: Nest, names: Names, store: Store, locals: map<nat, int>)
    requires Accepted(world, e, ctx.domains, ConvMask(ctx)) && Sized(world, e, ctx.domains) && Scoped(e, locals.Keys)
    requires WellPlaced(world, ctx) && Unused(store, names.next) && Holds(store, locals)
    ensures Computes(world, Unroll(world, e, ctx, names), Meant(world, e, ctx, locals), names.next, store)
    decreases e, 1
  {
    match e
    case Local(_, _) => LocalRuns(world, e, ctx, names, store, locals);
    case Binary(_, _, _) => BinaryRuns(world, e, ctx, names, store, locals);
    case Fold(_, _, _, _) => FoldRuns(world, e, ctx, names, store, locals);
    case _ => LeafRuns(world, e, ctx, names, store, locals);
  }

  /** Cloning a local's initialiser once more only adds statements whose result is not used. */
  lemma LocalRuns(world: World, e: Expr, ctx: Nest, names: Names, store: Store, locals: map<nat, int>)
    requires e.Local?
    requires Accepted(world, e, ctx.domains, ConvMask(ctx)) && Sized(world, e, ctx.domains) && Scoped(e, locals.Keys)
    requires WellPlaced(world, ctx) && Unused(store, names.next) && Holds(store, locals)
    ensures Computes(world, Unroll(world, e, ctx, names), Meant(world, e, ctx, locals), names.next, store)
    decreases e, 0
  {
    if e.name !in names.known {
      UnrollRuns(world, e.init, ctx, names, store, locals);
    }
  }

  lemma BinaryRuns(world: World, e: Expr, ctx: Nest, names: Names, store: Store, locals: map<nat, int>)
    requires e.Binary?
    requires Accepted(world, e, ctx.domains, ConvMask(ctx)) && Sized(world, e, ctx.domains) && Scoped(e, locals.Keys)
    requires WellPlaced(world, ctx) && Unused(store, names.next) && Holds(store, locals)
    ensures Computes(world, Unroll(world, e, ctx, names), Meant(world, e, ctx, locals), names.next, store)
    decreases e, 0
  {
    hide ExecAll, Computes, WellPlaced, Unused, Holds, ConvMask;
    var a, b := Meant(world, e.left, ctx, locals), Meant(world, e.right, ctx, locals);
    var right := Unroll(world, e.right, ctx, names);
    UnrollRuns(world, e.right, ctx, names, store, locals);
    var mid := ComputesUnused(world, right, b, names.next, store, locals);
    var left := Unroll(world, e.left, ctx, right.after);
    UnrollRuns(world, e.left, ctx, right.after, mid, locals);
    BinaryComputes(world, e.op, left, right, names.next, store, a, b);
  }

  lemma FoldRuns(world: World, e: Expr, ctx: Nest, names: Names, store: Store, locals: map<nat, int>)
    requires e.Fold?
    requires Accepted(world, e, ctx.domains, ConvMask(ctx)) && Sized(world, e, ctx.domains) && Scoped(e, locals.Keys)
    requires WellPlaced(world, ctx) && Unused(store, names.next) && Holds(store, locals)
    ensures Computes(world, Unroll(world, e, ctx, names), Meant(world, e, ctx, locals), names.next, store)
    decreases e, 0
  {
    hide Exec, ExecAll, Computes, WellPlaced, ConvMask, Iterations, MeantAt, VisitedFrom;
    var tmp := Tmp(names.next);
    var start := store[tmp := Seed(world, e.mode)];
    IterationsRun(world, e.over, names.next, e.mode, e.body, ctx, names.(next := names.next + 1), 0, start, locals);
    var value := Meant(world, e, ctx, locals);
    assert start[tmp := value] == store[tmp := value];
    FoldComputes(world, e, ctx, names, store, locals);
  }

  lemma LeafRuns(world: World, e: Expr, ctx: Nest, names: Names, store: Store, locals: map<nat, int>)
    requires Accepted(world, e, ctx.domains, ConvMask(ctx)) && Sized(world, e, ctx.domains)
    requires WellPlaced(world, ctx) && !e.Local? && !e.Binary? && !e.Fold?
    ensures Computes(world, Unroll(world, e, ctx, names), Meant(world, e, ctx, locals), names.next, store)
  {
    match e
    case Constant(_) =>
    case Pixel(_, _, _) =>
    case PixelAt(_, w) =>
    case Coefficient(m) =>
      CoefficientComputes(world, m, ctx.conv.value.1, store);
    case CoefficientAt(m, d) =>
      SameSize(world.window(m), world.window(ctx.domains[|ctx.domains| - 1]));
      CoefficientComputes(world, m, ctx.positions[|ctx.positions| - 1], store);
  }

  lemma ComputesUnused(world: World, code: Code, value: int, next: nat, store: Store, locals: map<nat, int>)
    returns (end: Store)
    requires Computes(world, code, value, next, store) && Unused(store, next) && Holds(store, locals)
    ensures ExecAll(world, code.before, store) == Some(end) && Unused(end, code.after.next) && Holds(end, locals)
    ensures Grows(store, end, next, code.after.next) && ValueOf(world, code.value, end) == Some(value)
    ensures next <= code.after.next
  {
    end := ExecAll(world, code.before, store).value;
  }

  lemma BinaryComputes(world: World, op: Operator, left: Code, right: Code, next: nat, store: Store, a: int, b: int)
    requires Computes(world, right, b, next, store)
    requires Computes(world, left, a, right.after.next, ExecAll(world, right.before, store).value)
    ensures Computes(world, Code(right.before + left.before, Operation(op, left.value, right.value), left.after),
      Apply(op, a, b), next, store)
  {
    var mid := ExecAll(world, right.before, store).value;
    var end := ExecAll(world, left.before, mid).value;
    ExecConcat(world, right.before, left.before, store);
    ValueKept(world, right.value, mid, end, right.after.next, left.after.next);
  }

  lemma FoldComputes(world: World, e: Expr, ctx: Nest, names: Names, store: Store, locals: map<nat, int>)
    requires e.Fold? && Accepted(world, e, ctx.domains, ConvMask(ctx)) && Unused(store, names.next)
    requires var tmp := names.next;
      var loop := Iterations(world, e.over, tmp, e.mode, e.body, ctx, names.(next := tmp + 1), 0);
      && tmp < loop.1.next
      && ExecAll(world, loop.0, store[Tmp(tmp) := Seed(world, e.mode)]) ==
        Some(store[Tmp(tmp) := Meant(world, e, ctx, locals)])
    ensures Computes(world, Unroll(world, e, ctx, names), Meant(world, e, ctx, locals), names.next, store)
  {
    hide Meant;
    var tmp := names.next;
    var loop := Iterations(world, e.over, tmp, e.mode, e.body, ctx, names.(next := tmp + 1), 0);
    var code := [Declare(tmp, Seed(world, e.mode))] + loop.0;
    var start := store[Tmp(tmp) := Seed(world, e.mode)];
    assert Exec(world, code[0], store) == Some(start) && code[1..] == loop.0;
    assert ExecAll(world, code, store) == ExecAll(world, loop.0, start);
    assert Unroll(world, e, ctx, names) == Code(code, Temporary(tmp), loop.1);
  }

  /** Of the variables of store, only one changes. */
  ghost predicate Updates(store: Store, end: Store, v: Name, value: int) {
    forall u :: u in store ==> u in end && end[u] == if u == v then value else store[u]
  }

  /** A lambda's statements, locals first, add its value to what tmp holds. */
  lemma {:induction false} BlockRuns(
      world: World, b: Block, ctx: Nest, tmp: nat, mode: Mode, names: Names, store: Store, locals: map<nat, int>)
    requires AcceptedBlock(world, b, ctx.domains, ConvMask(ctx)) && SizedBlock(world, b, ctx.domains)
    requires ScopedBlock(b, locals.Keys) && WellPlaced(world, ctx) && Unused(store, names.next)
    requires Holds(store, locals) && Tmp(tmp) in store
    ensures var block := UnrollBlock(world, b, ctx, tmp, mode, names);
      var end := ExecAll(world, block.0, store);
      && names.next <= block.1.next && end.Some?
      && Updates(store, end.value, Tmp(tmp), Combine(mode, store[Tmp(tmp)], MeantBlock(world, b, ctx, locals)))
    decreases b, 2
  {
    match b
    case Return(e) =>
      hide ExecAll, Computes, WellPlaced, ConvMask, Combine, Unused, Unroll, Meant;
      UnrollRuns(world, e, ctx, names, store, locals);
      var code, value := Unroll(world, e, ctx, names), Meant(world, e, ctx, locals);
      var mid := ComputesUnused(world, code, value, names.next, store, locals);
      var last := Accumulate(tmp, mode, code.value);
      ExecConcat(world, code.before, [last], store);
      ExecOne(world, last, mid);
    case Define(n, init, rest) =>
      hide ExecAll, Computes, WellPlaced, ConvMask, Combine, Unused, Unroll, Meant, Holds;
      UnrollRuns(world, init, ctx, names, store, locals);
      var code, value := Unroll(world, init, ctx, names), Meant(world, init, ctx, locals);
      var mid := ComputesUnused(world, code, value, names.next, store, locals);
      var next := LocalDeclared(world, n, code.value, value, mid, code.after.next, locals);
      var after := Names(code.after.next, code.after.known + {n});
      var others := UnrollBlock(world, rest, ctx, tmp, mode, after);
      BlockRuns(world, rest, ctx, tmp, mode, after, next, locals[n := value]);
      ExecThree(world, code.before, DeclareLocal(n, code.value), others.0, store, mid, next);
  }

  lemma LocalDeclared(world: World, n: nat, v: Value, value: int, store: Store, next: nat, locals: map<nat, int>)
    returns (end: Store)
    requires Holds(store, locals) && n !in locals && Unused(store, next) && ValueOf(world, v, store) == Some(value)
    ensures Exec(world, DeclareLocal(n, v), store) == Some(end) && end == store[Named(n) := value]
    ensures Unused(end, next) && Holds(end, locals[n := value]) && locals[n := value].Keys == locals.Keys + {n}
  {
    end := store[Named(n) := value];
  }

  lemma ExecThree(world: World, a: seq<Stmt>, s: Stmt, b: seq<Stmt>, store: Store, mid: Store, next: Store)
    requires ExecAll(world, a, store) == Some(mid) && Exec(world, s, mid) == Some(next)
    ensures ExecAll(world, a + [s] + b, store) == ExecAll(world, b, next)
  {
    ExecOne(world, s, mid);
    ExecConcat(world, a, [s], store);
    ExecConcat(world, a + [s], b, store);
  }

  /** One unrolled position adds the lambda's value there, if the fold visits it. */
  lemma IterationRuns(
      world: World, w: nat, tmp: nat, mode: Mode, body: Block, ctx: Nest, names: Names, p: nat, store: Store,
      locals: map<nat, int>)
    requires AcceptedFold(world, w, body, ctx.domains, ConvMask(ctx)) && SizedFold(world, w, body, ctx.domains)
    requires ScopedBlock(body, locals.Keys) && Holds(store, locals)
    requires WellPlaced(world, ctx) && Unused(store, names.next) && Tmp(tmp) in store && p < |world.window(w).cells|
    ensures var it := Iteration(world, w, tmp, mode, body, ctx, names, p);
      && names.next <= it.1.next
      && ExecAll(world, it.0, store) == Some(
          if Visits(world.window(w), p) then
            var c := CellAt(world.window(w).width, p);
            store[Tmp(tmp) := Combine(mode, store[Tmp(tmp)], MeantAt(world, w, body, ctx, locals)(c.0, c.1))]
          else store)
    decreases body, 4
  {
    hide Exec, ExecAll, UnrollBlock, Iteration, MeantBlock, MeantAt, WellPlaced, CellAt, Guarded, Enter, ConvMask,
      Unused, PositionOf, AcceptedFold, Accepted, AcceptedBlock, Sized, SizedBlock, SizedFold, Holds, ScopedBlock,
      Combine;
    var c := CellAt(world.window(w).width, p);
    PositionOfCellAt(world.window(w).width, p);
    EnterWellPlaced(world, ctx, w, c);
    IterationIs(world, w, tmp, mode, body, ctx, names, p);
    MeantAtCell(world, w, body, ctx, locals, c);
    PositionRuns(world, w, tmp, mode, body, Enter(world, ctx, w, c), names, p, store, locals);
    ExecNothing(world, store);
  }

  predicate SizedFold(world: World, w: nat, body: Block, domains: seq<nat>) {
    SizedBlock(world, body, if world.window(w).isDomain then domains + [w] else domains)
  }

  lemma IterationIs(
      world: World, w: nat, tmp: nat, mode: Mode, body: Block, ctx: Nest, names: Names, p: nat)
    requires AcceptedFold(world, w, body, ctx.domains, ConvMask(ctx)) && p < |world.window(w).cells|
    ensures var c := CellAt(world.window(w).width, p);
      var inner := Enter(world, ctx, w, c);
      && AcceptedBlock(world, body, inner.domains, ConvMask(inner))
      && (SizedFold(world, w, body, ctx.domains) ==> SizedBlock(world, body, inner.domains))
      && var block := UnrollBlock(world, body, inner, tmp, mode, names);
      Iteration(world, w, tmp, mode, body, ctx, names, p) ==
        if world.window(w).isDomain && world.window(w).constant && world.window(w).cells[p] == 0 then ([], names)
        else ([Guarded(world, w, c, Compound(block.0))], Names(block.1.next, {}))
  {
    hide UnrollBlock;
  }

  /** The statement for one position, inside the context of that position. */
  lemma PositionRuns(
      world: World, w: nat, tmp: nat, mode: Mode, body: Block, inner: Nest, names: Names, p: nat, store: Store,
      locals: map<nat, int>)
    requires AcceptedBlock(world, body, inner.domains, ConvMask(inner)) && SizedBlock(world, body, inner.domains)
    requires ScopedBlock(body, locals.Keys) && Holds(store, locals)
    requires WellPlaced(world, inner) && Unused(store, names.next) && Tmp(tmp) in store && p < |world.window(w).cells|
    ensures var block := UnrollBlock(world, body, inner, tmp, mode, names);
      && names.next <= block.1.next
      && ExecAll(world, [Guarded(world, w, CellAt(world.window(w).width, p), Compound(block.0))], store) == Some(
          if world.window(w).constant || Visits(world.window(w), p) then
            store[Tmp(tmp) := Combine(mode, store[Tmp(tmp)], MeantBlock(world, body, inner, locals))]
          else store)
    decreases body, 3
  {
    hide Exec, ExecAll, UnrollBlock, MeantBlock, WellPlaced, CellAt, Guarded, ConvMask, Unused, Holds, Combine;
    BlockRuns(world, body, inner, tmp, mode, names, store, locals);
    var block := UnrollBlock(world, body, inner, tmp, mode, names);
    CompoundRuns(world, block.0, store, Tmp(tmp),
      Combine(mode, store[Tmp(tmp)], MeantBlock(world, body, inner, locals)));
    GuardedRuns(world, w, p, Compound(block.0), store);
  }

  /** What a compound statement declares ends with it. */
  lemma CompoundRuns(world: World, body: seq<Stmt>, store: Store, v: Name, value: int)
    requires ExecAll(world, body, store).Some? && v in store
    requires Updates(store, ExecAll(world, body, store).value, v, value)
    ensures Exec(world, Compound(body), store) == Some(store[v := value])
  {
    var end := ExecAll(world, body, store).value;
    assert (map u | u in store && u in end :: end[u]) == store[v := value];
  }

  lemma GuardedRuns(world: World, w: nat, p: nat, stmt: Stmt, store: Store)
    requires p < |world.window(w).cells|
    ensures ExecAll(world, [Guarded(world, w, CellAt(world.window(w).width, p), stmt)], store) ==
      if world.window(w).constant || Visits(world.window(w), p) then Exec(world, stmt, store) else Some(store)
  {
    var c := CellAt(world.window(w).width, p);
    PositionOfCellAt(world.window(w).width, p);
    hide CellAt;
    ExecOne(world, Guarded(world, w, c, stmt), store);
  }

  predicate Visits(w: Window, p: nat)
    requires p < |w.cells|
  {
    w.isDomain ==> w.cells[p] != 0
  }

  lemma {:induction false} IterationsRun(
      world: World, w: nat, tmp: nat, mode: Mode, body: Block, ctx: Nest, names: Names, p: nat, store: Store,
      locals: map<nat, int>)
    requires AcceptedFold(world, w, body, ctx.domains, ConvMask(ctx)) && SizedFold(world, w, body, ctx.domains)
    requires ScopedBlock(body, locals.Keys) && Holds(store, locals)
    requires WellPlaced(world, ctx) && Unused(store, names.next) && Tmp(tmp) in store && p <= |world.window(w).cells|
    ensures var loop := Iterations(world, w, tmp, mode, body, ctx, names, p);
      && names.next <= loop.1.next
      && ExecAll(world, loop.0, store) == Some(store[Tmp(tmp) :=
          FoldFrom(mode, store[Tmp(tmp)],
                   Values(MeantAt(world, w, body, ctx, locals), VisitedFrom(world.window(w), p)))])
    decreases body, 5 + |world.window(w).cells| - p
  {
    hide Exec, ExecAll, WellPlaced, FoldFrom, Iteration, VisitedFrom, CellAt, Meant, MeantAt, AcceptedFold,
      ScopedBlock, SizedFold;
    var window := world.window(w);
    var fun := MeantAt(world, w, body, ctx, locals);
    if p < |window.cells| {
      var one := Iteration(world, w, tmp, mode, body, ctx, names, p);
      IterationRuns(world, w, tmp, mode, body, ctx, names, p, store, locals);
      var mid := ExecAll(world, one.0, store).value;
      IterationsRun(world, w, tmp, mode, body, ctx, one.1, p + 1, mid, locals);
      ExecConcat(world, one.0, Iterations(world, w, tmp, mode, body, ctx, one.1, p + 1).0, store);
      ValuesStep(window, p, mode, store[Tmp(tmp)], fun);
      var total := FoldFrom(mode, mid[Tmp(tmp)], Values(fun, VisitedFrom(window, p + 1)));
      assert mid[Tmp(tmp) := total] == store[Tmp(tmp) := total];
    } else {
      ValuesEnd(window, mode, store[Tmp(tmp)], fun);
      ExecNothing(world, store);
      assert store[Tmp(tmp) := store[Tmp(tmp)]] == store;
    }
  }

  lemma ValuesEnd(w: Window, mode: Mode, seed: int, fun: (int, int) -> int)
    ensures FoldFrom(mode, seed, Values(fun, VisitedFrom(w, |w.cells|))) == seed
  {
  }

  lemma ExecOne(world: World, s: Stmt, store: Store)
    ensures ExecAll(world, [s], store) == Exec(world, s, store)
  {
    assert [s][1..] == [];
  }

  lemma ExecNothing(world: World, store: Store)
    ensures ExecAll(world, [], store) == Some(store)
  {
  }

  lemma ValuesStep(w: Window, p: nat, mode: Mode, seed: int, fun: (int, int) -> int)
    requires p < |w.cells|
    ensures
      var c := CellAt(w.width, p);
      FoldFrom(mode, seed, Values(fun, VisitedFrom(w, p))) ==
      FoldFrom(mode, if Visits(w, p) then Combine(mode, seed, fun(c.0, c.1)) else seed,
        Values(fun, VisitedFrom(w, p + 1)))
  {
    if Visits(w, p) {
      var values := Values(fun, VisitedFrom(w, p));
      assert VisitedFrom(w, p) == [CellAt(w.width, p)] + VisitedFrom(w, p + 1);
      assert values[1..] == Values(fun, VisitedFrom(w, p + 1));
      FoldHead(mode, seed, values);
    } else {
      assert VisitedFrom(w, p) == VisitedFrom(w, p + 1);
    }
  }

  // ------------------------------------------------------ the translator's positions and the DSL's

  /** The positions registered at run time: a window used twice keeps the innermost one. */
  ghost function PositionsOf(domains: seq<nat>, positions: seq<Cell>): map<nat, (int, int)>
    requires |domains| == |positions|
  {
    var n := |domains| - 1;
    if domains == [] then map[] else PositionsOf(domains[..n], positions[..n])[domains[n] := positions[n]]
  }

  ghost function EnvOf(ctx: Nest, locals: map<nat, int>): Env {
    var env := Env(PositionsOf(ctx.domains, ctx.positions), locals);
    if ctx.conv.Some? then env.Register(ctx.conv.value.0, ctx.conv.value.1) else env
  }

  lemma EnvOfBind(ctx: Nest, locals: map<nat, int>, n: nat, value: int)
    ensures EnvOf(ctx, locals[n := value]) == EnvOf(ctx, locals).Bind(n, value)
  {
  }

  lemma PositionsOfAppend(domains: seq<nat>, positions: seq<Cell>, w: nat, c: Cell)
    requires |domains| == |positions|
    ensures PositionsOf(domains + [w], positions + [c]) == PositionsOf(domains, positions)[w := c]
  {
    assert (domains + [w])[..|domains|] == domains;
    assert (positions + [c])[..|domains|] == positions;
  }

  lemma EnvOfEnter(world: World, ctx: Nest, locals: map<nat, int>, w: nat, c: Cell)
    requires ctx.conv.None?
    ensures EnvOf(Enter(world, ctx, w, c), locals) == EnvOf(ctx, locals).Register(w, c)
  {
    PositionsOfAppend(ctx.domains, ctx.positions, w, c);
    hide PositionsOf;
  }

  predicate Distinct(domains: seq<nat>) { forall i, j :: 0 <= i < j < |domains| ==> domains[i] != domains[j] }

  lemma {:induction false} FirstMatchAt(domains: seq<nat>, positions: seq<Cell>, i: nat)
    requires |domains| == |positions| && Distinct(domains) && i < |domains|
    ensures FirstMatch(domains, positions, domains[i]) == positions[i]
  {
    if i > 0 { FirstMatchAt(domains[1..], positions[1..], i - 1); }
  }

  lemma {:induction false} PositionsOfAt(domains: seq<nat>, positions: seq<Cell>, i: nat)
    requires |domains| == |positions| && Distinct(domains) && i < |domains|
    ensures domains[i] in PositionsOf(domains, positions)
    ensures PositionsOf(domains, positions)[domains[i]] == positions[i]
  {
    var n := |domains| - 1;
    if i < n { PositionsOfAt(domains[..n], positions[..n], i); }
  }

  /** Reductions are over domains, a convolution over a mask. */
  ghost predicate Separate(world: World, ctx: Nest) {
    && (forall i :: 0 <= i < |ctx.domains| ==> world.window(ctx.domains[i]).isDomain)
    && (ctx.conv.Some? ==> !world.window(ctx.conv.value.0).isDomain)
  }

  /** Reductions nest over different domains, and mask(dom) names the innermost one. */
  predicate Disciplined(world: World, e: Expr, domains: seq<nat>)
    decreases e, 0
  {
    match e
    case CoefficientAt(_, d) => domains != [] && d == domains[|domains| - 1]
    case Local(_, init) => Sized(world, init, domains)
    case Binary(_, l, r) => Disciplined(world, l, domains) && Disciplined(world, r, domains)
    case Fold(w, _, _, body) => DisciplinedFold(world, w, body, domains)
    case _ => true
  }

  predicate DisciplinedFold(world: World, w: nat, body: Block, domains: seq<nat>)
    decreases body, 1
  {
    if world.window(w).isDomain then w !in domains && DisciplinedBlock(world, body, domains + [w])
    else DisciplinedBlock(world, body, domains)
  }

  predicate DisciplinedBlock(world: World, b: Block, domains: seq<nat>)
    decreases b, 0
  {
    match b
    case Return(e) => Disciplined(world, e, domains)
    case Define(_, init, rest) => Disciplined(world, init, domains) && DisciplinedBlock(world, rest, domains)
  }

  /** The translator's position of a window is the one registered at run time. */
  lemma PositionAgrees(world: World, ctx: Nest, locals: map<nat, int>, w: nat)
    requires Distinct(ctx.domains) && Separate(world, ctx)
    ensures w in ctx.domains ==> FirstMatch(ctx.domains, ctx.positions, w) == At(EnvOf(ctx, locals), w)
    ensures ctx.conv.Some? ==> ctx.conv.value.1 == At(EnvOf(ctx, locals), ctx.conv.value.0)
  {
    if w in ctx.domains {
      var i: nat :| i < |ctx.domains| && ctx.domains[i] == w;
      FirstMatchAt(ctx.domains, ctx.positions, i);
      PositionsOfAt(ctx.domains, ctx.positions, i);
    }
  }

  lemma {:induction false} DisciplinedIsSized(world: World, e: Expr, domains: seq<nat>, conv: Option<nat>)
    requires Accepted(world, e, domains, conv) && Disciplined(world, e, domains)
    ensures Sized(world, e, domains)
    decreases e
  {
    match e
    case Binary(_, l, r) =>
      DisciplinedIsSized(world, l, domains, conv);
      DisciplinedIsSized(world, r, domains, conv);
    case Fold(w, _, _, body) =>
      if world.window(w).isDomain {
        DisciplinedBlockIsSized(world, body, domains + [w], None);
      } else {
        DisciplinedBlockIsSized(world, body, domains, Some(w));
      }
    case _ =>
  }

  lemma {:induction false} DisciplinedBlockIsSized(world: World, b: Block, domains: seq<nat>, conv: Option<nat>)
    requires AcceptedBlock(world, b, domains, conv) && DisciplinedBlock(world, b, domains)
    ensures SizedBlock(world, b, domains)
    decreases b
  {
    match b
    case Return(e) => DisciplinedIsSized(world, e, domains, conv);
    case Define(_, init, rest) =>
      DisciplinedIsSized(world, init, domains, conv);
      DisciplinedBlockIsSized(world, rest, domains, conv);
  }

  /** Of a disciplined program the emitted code means the program with seeded folds. */
  lemma {:induction false} MeantIsEval(world: World, e: Expr, ctx: Nest, locals: map<nat, int>)
    requires Accepted(world, e, ctx.domains, ConvMask(ctx)) && Disciplined(world, e, ctx.domains)
    requires Distinct(ctx.domains) && Separate(world, ctx)
    ensures Meant(world, e, ctx, locals) == Eval(world, true, e, EnvOf(ctx, locals))
    decreases e, 1
  {
    match e
    case Constant(_) =>
    case Pixel(_, _, _) =>
    case PixelAt(_, w) => PositionAgrees(world, ctx, locals, w);
    case Coefficient(m) => PositionAgrees(world, ctx, locals, m);
    case CoefficientAt(m, d) =>
      PositionAgrees(world, ctx, locals, d);
      FirstMatchAt(ctx.domains, ctx.positions, |ctx.domains| - 1);
    case Local(_, _) =>
    case Binary(_, l, r) =>
      hide EnvOf;
      MeantIsEval(world, l, ctx, locals);
      MeantIsEval(world, r, ctx, locals);
    case Fold(w, _, _, body) =>
      hide EnvOf;
      MeantLambdaIsEval(world, w, body, ctx, locals, VisitedFrom(world.window(w), 0));
  }

  lemma {:induction false} MeantBlockIsEval(world: World, b: Block, ctx: Nest, locals: map<nat, int>)
    requires AcceptedBlock(world, b, ctx.domains, ConvMask(ctx)) && DisciplinedBlock(world, b, ctx.domains)
    requires Distinct(ctx.domains) && Separate(world, ctx)
    ensures MeantBlock(world, b, ctx, locals) == EvalBlock(world, true, b, EnvOf(ctx, locals))
    decreases b, 1
  {
    hide EnvOf;
    match b
    case Return(e) => MeantIsEval(world, e, ctx, locals);
    case Define(n, init, rest) =>
      var value := Meant(world, init, ctx, locals);
      MeantIsEval(world, init, ctx, locals);
      MeantBlockIsEval(world, rest, ctx, locals[n := value]);
      EnvOfBind(ctx, locals, n, value);
  }

  lemma MeantLambdaIsEval(world: World, w: nat, body: Block, ctx: Nest, locals: map<nat, int>, visited: seq<Cell>)
    requires AcceptedFold(world, w, body, ctx.domains, ConvMask(ctx))
    requires DisciplinedFold(world, w, body, ctx.domains) && Distinct(ctx.domains) && Separate(world, ctx)
    ensures Values(MeantAt(world, w, body, ctx, locals), visited)
         == Values(Lambda(world, true, w, body, EnvOf(ctx, locals)), visited)
    decreases body, 2
  {
    hide MeantBlock, MeantAt, EvalBlock, EnvOf;
    forall c: Cell | c in visited
      ensures MeantAt(world, w, body, ctx, locals)(c.0, c.1)
           == Lambda(world, true, w, body, EnvOf(ctx, locals))(c.0, c.1)
    {
      EnvOfEnter(world, ctx, locals, w, c);
      MeantAtCell(world, w, body, ctx, locals, c);
      MeantBlockIsEval(world, body, Enter(world, ctx, w, c), locals);
    }
  }

  // ------------------------------------------------------ seeded folds and the DSL's

  /** Starting from the seed gives the DSL's fold exactly when: on a visited position, the mode
      is SUM or PROD, or the seed is among the values; on none, the lambda's value past the last
      row happens to be the seed. */
  lemma SeededFoldIff(world: World, mode: Mode, height: nat, visited: seq<Cell>, fun: (int, int) -> int)
    requires forall v :: v in Values(fun, visited) ==> world.least <= v <= world.greatest
    ensures FoldFrom(mode, Seed(world, mode), Values(fun, visited)) == FoldMeaning(height, visited, mode, fun) <==>
      if visited == [] then fun(0, height) == Seed(world, mode)
      else mode.SUM? || mode.PROD? || Seed(world, mode) in Values(fun, visited)
  {
    var values := Values(fun, visited);
    if visited != [] {
      FoldHead(mode, Seed(world, mode), values);
      if mode.MIN? || mode.MAX? {
        Extreme(mode, Seed(world, mode), values);
        Extreme(mode, values[0], values[1..]);
        hide FoldFrom;
        assert values == [values[0]] + values[1..];
        assert forall v :: v in values ==> Bounds(mode, DslFold(mode, values), v);
        assert DslFold(mode, values) in values;
      }
    }
  }

  /** Every fold is a sum or a product over at least one position. */
  ghost predicate NeutrallySeeded(world: World, e: Expr)
    decreases e
  {
    match e
    case Binary(_, l, r) => NeutrallySeeded(world, l) && NeutrallySeeded(world, r)
    case Fold(w, mode, _, body) =>
      (mode.SUM? || mode.PROD?) && VisitedFrom(world.window(w), 0) != [] && NeutrallySeededBlock(world, body)
    case _ => true
  }

  ghost predicate NeutrallySeededBlock(world: World, b: Block)
    decreases b
  {
    match b
    case Return(e) => NeutrallySeeded(world, e)
    case Define(_, init, rest) => NeutrallySeeded(world, init) && NeutrallySeededBlock(world, rest)
  }

  lemma {:induction false} SeedsAreNeutral(world: World, e: Expr, env: Env)
    requires NeutrallySeeded(world, e)
    ensures Eval(world, true, e, env) == Eval(world, false, e, env)
    decreases e, 1
  {
    match e
    case Binary(_, l, r) =>
      SeedsAreNeutral(world, l, env);
      SeedsAreNeutral(world, r, env);
    case Fold(_, _, _, _) => FoldIsNeutral(world, e, env);
    case _ =>
  }

  lemma {:induction false} BlockIsNeutral(world: World, b: Block, env: Env)
    requires NeutrallySeededBlock(world, b)
    ensures EvalBlock(world, true, b, env) == EvalBlock(world, false, b, env)
    decreases b, 1
  {
    match b
    case Return(e) => SeedsAreNeutral(world, e, env);
    case Define(n, init, rest) =>
      SeedsAreNeutral(world, init, env);
      BlockIsNeutral(world, rest, env.Bind(n, Eval(world, false, init, env)));
  }

  lemma FoldIsNeutral(world: World, e: Expr, env: Env)
    requires e.Fold? && NeutrallySeeded(world, e)
    ensures Eval(world, true, e, env) == Eval(world, false, e, env)
    decreases e, 0
  {
    hide VisitedFrom, FoldFrom, Values, Lambda, FoldMeaning;
    var visited := VisitedFrom(world.window(e.over), 0);
    LambdasAgree(world, e.over, e.body, env, visited);
    var fun := Lambda(world, false, e.over, e.body, env);
    NeutralFold(world, e.mode, world.window(e.over).height, visited, fun);
  }

  lemma LambdasAgree(world: World, w: nat, body: Block, env: Env, visited: seq<Cell>)
    requires NeutrallySeededBlock(world, body)
    ensures Values(Lambda(world, true, w, body, env), visited) == Values(Lambda(world, false, w, body, env), visited)
    decreases body, 2
  {
    hide EvalBlock, NeutrallySeededBlock;
    forall c: Cell | c in visited
      ensures Lambda(world, true, w, body, env)(c.0, c.1) == Lambda(world, false, w, body, env)(c.0, c.1)
    {
      BlockIsNeutral(world, body, env.Register(w, (c.0, c.1)));
    }
  }

  lemma NeutralFold(world: World, mode: Mode, height: nat, visited: seq<Cell>, fun: (int, int) -> int)
    requires (mode.SUM? || mode.PROD?) && visited != []
    ensures FoldFrom(mode, Seed(world, mode), Values(fun, visited)) == FoldMeaning(height, visited, mode, fun)
  {
    FoldHead(mode, Seed(world, mode), Values(fun, visited));
  }

  /** Unrolling preserves meaning: the emitted statements run without error, declare each
      temporary once, touch nothing else, and leave the DSL's value in the emitted expression. */
  lemma UnrollingPreservesMeaning(world: World, e: Expr, names: Names, store: Store)
    requires Accepted(world, e, [], None) && Disciplined(world, e, []) && NeutrallySeeded(world, e) && Scoped(e, {})
    requires Unused(store, names.next) && Holds(store, map[])
    ensures Computes(world, Unroll(world, e, Context([], [], None), names), Eval(world, false, e, NOWHERE),
      names.next, store)
  {
    hide Computes, Unroll, Eval, Meant, Scoped;
    DisciplinedIsSized(world, e, [], None);
    var nothing: map<nat, int> := map[];
    assert nothing.Keys == {};
    UnrollRuns(world, e, Context([], [], None), names, store, nothing);
    MeantIsEval(world, e, Context([], [], None), nothing);
    SeedsAreNeutral(world, e, NOWHERE);
  }

  // ------------------------------------------------------ locals that are cloned again

  /** Whether code is emitted for a position: always, but for undefined ones of constant domains. */
  predicate Emits(w: Window, p: nat)
    requires p < |w.cells|
  {
    w.isDomain && w.constant ==> w.cells[p] != 0
  }

  /** A fold that emits code for any position forgets every local, those of enclosing lambdas too. */
  lemma {:induction false} LoopForgets(
      world: World, w: nat, tmp: nat, mode: Mode, body: Block, ctx: Nest, names: Names, p: nat)
    requires AcceptedFold(world, w, body, ctx.domains, ConvMask(ctx)) && p <= |world.window(w).cells|
    ensures Iterations(world, w, tmp, mode, body, ctx, names, p).1.known
         == if exists q :: p <= q < |world.window(w).cells| && Emits(world.window(w), q) then {} else names.known
    decreases |world.window(w).cells| - p
  {
    if p < |world.window(w).cells| {
      var one := Iteration(world, w, tmp, mode, body, ctx, names, p);
      assert one.1.known == if Emits(world.window(w), p) then {} else names.known;
      hide Iteration;
      LoopForgets(world, w, tmp, mode, body, ctx, one.1, p + 1);
    }
  }

  /** A local read to the left of such a fold: all statements of its initialiser are emitted once
      more, although nothing uses what they compute.  Only an initialiser that needs no statements
      is not repeated. */
  lemma LocalIsUnrolledAgain(world: World, op: Operator, n: nat, init: Expr, fold: Expr, ctx: Nest, names: Names)
    requires fold.Fold? && Accepted(world, Binary(op, Local(n, init), fold), ctx.domains, ConvMask(ctx))
    requires exists p :: 0 <= p < |world.window(fold.over).cells| && Emits(world.window(fold.over), p)
    ensures Accepted(world, fold, ctx.domains, ConvMask(ctx)) && Accepted(world, init, ctx.domains, ConvMask(ctx))
    ensures var first := Unroll(world, fold, ctx, names);
      var code := Unroll(world, Binary(op, Local(n, init), fold), ctx, names);
      && first.after.known == {}
      && code.before == first.before + Unroll(world, init, ctx, first.after).before
      && code.value == Operation(op, Variable(n), first.value)
  {
    LoopForgets(world, fold.over, names.next, fold.mode, fold.body, ctx, names.(next := names.next + 1), 0);
  }

  // ------------------------------------------------------ the shape of the code

  /** An unrolled loop is one statement for each position: of a mask or of a domain that is checked
      at run time for every cell, of a constant domain only for the defined ones; and the check is
      there exactly in the second case. */
  lemma {:induction false} LoopShape(
      world: World, w: nat, tmp: nat, mode: Mode, body: Block, ctx: Nest, names: Names, p: nat)
    requires AcceptedFold(world, w, body, ctx.domains, ConvMask(ctx)) && p <= |world.window(w).cells|
    ensures var window, stmts := world.window(w), Iterations(world, w, tmp, mode, body, ctx, names, p).0;
      && |stmts| == (if window.isDomain && window.constant then |VisitedFrom(window, p)| else |window.cells| - p)
      && forall i :: 0 <= i < |stmts| ==>
        if window.isDomain && !window.constant
        then stmts[i].IfDefined? && stmts[i].inner.Compound? && (stmts[i].x, stmts[i].y) == CellAt(window.width, p + i)
        else stmts[i].Compound?
    decreases |world.window(w).cells| - p
  {
    var window := world.window(w);
    if p < |window.cells| {
      var one := Iteration(world, w, tmp, mode, body, ctx, names, p);
      IterationIs(world, w, tmp, mode, body, ctx, names, p);
      LoopShape(world, w, tmp, mode, body, ctx, one.1, p + 1);
      hide Iteration, CellAt, UnrollBlock;
    }
  }

  /** Of two folds the right one is unrolled first: it takes the next temporary, the left one the
      first that is then unused. */
  lemma RightOperandFirst(world: World, op: Operator, left: Expr, right: Expr, ctx: Nest, names: Names)
    requires left.Fold? && right.Fold? && Accepted(world, Binary(op, left, right), ctx.domains, ConvMask(ctx))
    ensures Accepted(world, right, ctx.domains, ConvMask(ctx))
    ensures var code := Unroll(world, Binary(op, left, right), ctx, names);
      var first := Unroll(world, right, ctx, names);
      && code.value == Operation(op, Temporary(first.after.next), Temporary(names.next))
      && first.before <= code.before && code.before[0] == Declare(names.next, Seed(world, right.mode))
  {
    hide Iterations;
  }
}
