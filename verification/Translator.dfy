/** The bookkeeping behind the unrolling: stacks of reductions and a shared list of statements
    that wait for the compound statement they belong to (lib/AST/Convolution.cpp,
    lib/AST/ASTTranslate.cpp).  Working in place on those stacks, the translator emits exactly
    the code of Unroll.Unroll. */
module Translator {
  import opened Launch
  import opened Folds
  import opened Domains
  import opened Unroll

  function Repeat(id: nat, n: nat): seq<nat> { seq(n, i => id) }

  /** Statements waiting to be inserted, each with the compound statement it waits for. */
  datatype Waiting = Waiting(stmts: seq<Stmt>, owners: seq<nat>)

  ghost function Appended(q: Waiting, ss: seq<Stmt>, owner: nat): Waiting {
    Waiting(q.stmts + ss, q.owners + Repeat(owner, |ss|))
  }

  lemma AppendOne(q: Waiting, s: Stmt, owner: nat)
    ensures Appended(q, [s], owner) == Waiting(q.stmts + [s], q.owners + [owner])
  {
    assert Repeat(owner, |[s]|) == [owner];
  }

  lemma AppendTwice(q: Waiting, a: seq<Stmt>, b: seq<Stmt>, owner: nat)
    ensures Appended(Appended(q, a, owner), b, owner) == Appended(q, a + b, owner)
    ensures Appended(q, [], owner) == q
  {
    assert Repeat(owner, |a|) + Repeat(owner, |b|) == Repeat(owner, |a + b|);
  }

  ghost predicate OwnersIn(q: Waiting, enclosing: set<nat>) {
    forall i :: 0 <= i < |q.owners| ==> q.owners[i] in enclosing
  }

  lemma AppendPending(q: Waiting, ss: seq<Stmt>, owner: nat, enclosing: set<nat>)
    requires OwnersIn(q, enclosing) && owner in enclosing
    ensures OwnersIn(Appended(q, ss, owner), enclosing)
  {
  }

  /** What is appended for a compound statement is what waits for it, at the end of the list. */
  lemma OwnersSplit(q: Waiting, ss: seq<Stmt>, owner: nat, enclosing: set<nat>)
    requires OwnersIn(q, enclosing) && owner !in enclosing && |q.stmts| == |q.owners|
    ensures OwnersIn(q, enclosing + {owner})
    ensures var r := Appended(q, ss, owner);
      && |r.stmts| == |r.owners| == |q.stmts| + |ss|
      && r.stmts[|q.stmts|..] == ss && r.stmts[..|q.stmts|] == q.stmts && r.owners[..|q.stmts|] == q.owners
      && forall i :: 0 <= i < |r.owners| ==> (r.owners[i] == owner <==> |q.stmts| <= i)
  {
  }

  lemma UnrollBinary(world: World, e: Expr, ctx: Nest, names: Names, enclosing: set<nat>, scope: set<nat>)
    requires e.Binary? && Accepted(world, e, ctx.domains, ConvMask(ctx)) && Nested(e, enclosing) && Scoped(e, scope)
    ensures Accepted(world, e.left, ctx.domains, ConvMask(ctx)) && Accepted(world, e.right, ctx.domains, ConvMask(ctx))
    ensures Nested(e.left, enclosing) && Nested(e.right, enclosing) && Scoped(e.left, scope) && Scoped(e.right, scope)
    ensures var right := Unroll.Unroll(world, e.right, ctx, names);
      var left := Unroll.Unroll(world, e.left, ctx, right.after);
      Unroll.Unroll(world, e, ctx, names) ==
        Code(right.before + left.before, Operation(e.op, left.value, right.value), left.after)
  {
  }

  lemma UnrollFold(world: World, e: Expr, ctx: Nest, names: Names, enclosing: set<nat>, scope: set<nat>)
    requires e.Fold? && Accepted(world, e, ctx.domains, ConvMask(ctx)) && Nested(e, enclosing) && Scoped(e, scope)
    ensures e.lambda !in enclosing && NestedBlock(e.body, enclosing + {e.lambda}) && ScopedBlock(e.body, scope)
    ensures ctx.conv.None? && AcceptedFold(world, e.over, e.body, ctx.domains, None)
    ensures var tmp := names.next;
      var loop := Iterations(world, e.over, tmp, e.mode, e.body, ctx, names.(next := tmp + 1), 0);
      Unroll.Unroll(world, e, ctx, names) == Code([Declare(tmp, Seed(world, e.mode))] + loop.0, Temporary(tmp), loop.1)
  {
    FoldParts(world, e, ctx, enclosing, scope);
    hide Nested, NestedBlock, Scoped, ScopedBlock, AcceptedFold, Iterations, Seed;
  }

  lemma FoldParts(world: World, e: Expr, ctx: Nest, enclosing: set<nat>, scope: set<nat>)
    requires e.Fold? && Accepted(world, e, ctx.domains, ConvMask(ctx)) && Nested(e, enclosing) && Scoped(e, scope)
    ensures e.lambda !in enclosing && NestedBlock(e.body, enclosing + {e.lambda}) && ScopedBlock(e.body, scope)
    ensures ctx.conv.None? && AcceptedFold(world, e.over, e.body, ctx.domains, None)
    ensures AcceptedFold(world, e.over, e.body, ctx.domains, ConvMask(ctx))
  {
  }

  /** No lambda's body contains itself. */
  predicate Nested(e: Expr, enclosing: set<nat>)
    decreases e
  {
    match e
    case Local(_, init) => Nested(init, enclosing)
    case Binary(_, l, r) => Nested(l, enclosing) && Nested(r, enclosing)
    case Fold(_, _, id, body) => id !in enclosing && NestedBlock(body, enclosing + {id})
    case _ => true
  }

  predicate NestedBlock(b: Block, enclosing: set<nat>)
    decreases b
  {
    match b
    case Return(e) => Nested(e, enclosing)
    case Define(_, init, rest) => Nested(init, enclosing) && NestedBlock(rest, enclosing)
  }

  class Translator {
    const world: World
    // the enclosing reductions, outermost first
    var redDomains: seq<nat>
    var redModes: seq<Mode>
    var redTmps: seq<nat>
    var redIdx: seq<Cell>
    // the enclosing convolution
    var convMask: Option<nat>
    var convMode: Mode
    var convTmp: nat
    var convIdx: Cell
    // statements to insert before the current one of a compound statement, and which one
    var preStmts: seq<Stmt>
    var preCStmt: seq<nat>
    var curCStmt: nat
    var literalCount: nat
    // the clones of the locals of lambdas, with their initialisers
    var lambdaDeclMap: map<nat, Value>

    ghost predicate Balanced()
      reads this
    {
      |redDomains| == |redIdx| == |redModes| == |redTmps| && |preStmts| == |preCStmt|
    }

    ghost function Position(): Nest
      requires |redDomains| == |redIdx|
      reads this
    {
      var conv: Option<(nat, Cell)> := if convMask.Some? then Some((convMask.value, convIdx)) else None;
      Context(redDomains, redIdx, conv)
    }

    ghost function NamesNow(): Names
      reads this
    {
      Names(literalCount, lambdaDeclMap.Keys)
    }

    ghost function Queue(): Waiting
      reads this
    {
      Waiting(preStmts, preCStmt)
    }

    /** What every visit leaves as it found it. */
    ghost function Stacks(): (seq<nat>, seq<Mode>, seq<nat>, seq<Cell>, Option<(nat, Mode, nat, Cell)>)
      reads this
    {
      (redDomains, redModes, redTmps, redIdx,
       if convMask.Some? then Some((convMask.value, convMode, convTmp, convIdx)) else None)
    }

    /** Waiting statements belong to enclosing compound statements. */
    ghost predicate Pending(enclosing: set<nat>)
      reads this
    {
      OwnersIn(Queue(), enclosing)
    }

    constructor (world: World)
      ensures this.world == world && Balanced() && preStmts == [] && redDomains == [] && convMask == None
      ensures lambdaDeclMap == map[]
    {
      this.world := world;
      redDomains, redModes, redTmps, redIdx := [], [], [], [];
      convMask := None;
      preStmts, preCStmt := [], [];
      lambdaDeclMap := map[];
    }

    /** The statements waiting for the compound statement id: exactly the last ones. */
    method TakePreStmts(id: nat, ghost kept: nat) returns (body: seq<Stmt>)
      requires |preStmts| == |preCStmt| && kept <= |preStmts|
      requires forall i :: 0 <= i < |preCStmt| ==> (preCStmt[i] == id <==> kept <= i)
      modifies this`preStmts, this`preCStmt
      ensures body == old(preStmts)[kept..]
      ensures preStmts == old(preStmts)[..kept] && preCStmt == old(preCStmt)[..kept]
    {
      body := [];
      var count := 0;
      var i := 0;
      while i < |preStmts|
        invariant 0 <= i <= |preStmts|
        invariant if i <= kept then body == [] && count == 0 else body == preStmts[kept..i] && count == i - kept
      {
        if preCStmt[i] == id {
          body := body + [preStmts[i]];
          count := count + 1;
        }
        i := i + 1;
      }
      i := 0;
      while i < count
        invariant 0 <= i <= count == |old(preStmts)| - kept
        invariant preStmts == old(preStmts)[..|old(preStmts)| - i]
        invariant preCStmt == old(preCStmt)[..|old(preStmts)| - i]
      {
        preStmts := preStmts[..|preStmts| - 1];
        preCStmt := preCStmt[..|preCStmt| - 1];
        i := i + 1;
      }
    }

    /** The statements appended for id since the queue was as given are the ones taken. */
    method TakeAppended(id: nat, ghost queue: Waiting, ghost ss: seq<Stmt>, ghost enclosing: set<nat>)
      returns (body: seq<Stmt>)
      requires |queue.stmts| == |queue.owners| && OwnersIn(queue, enclosing) && id !in enclosing
      requires Queue() == Appended(queue, ss, id)
      modifies this`preStmts, this`preCStmt
      ensures body == ss && Queue() == queue
    {
      OwnersSplit(queue, ss, id, enclosing);
      hide Appended, OwnersIn;
      body := TakePreStmts(id, |queue.stmts|);
    }

    /** Position of the mask or domain an accessor is read at. */
    method PositionOfWindow(w: nat) returns (c: Cell)
      requires |redDomains| == |redIdx| && if convMask.Some? then w == convMask.value else w in redDomains
      ensures c == PositionIn(Position(), w)
    {
      c := convIdx;
      if convMask.None? {
        var i := 0;
        while i < |redDomains|
          invariant 0 <= i < |redDomains| && w in redDomains[i..]
          invariant FirstMatch(redDomains, redIdx, w) == FirstMatch(redDomains[i..], redIdx[i..], w)
        {
          if redDomains[i] == w {
            c := redIdx[i];
            break;
          }
          assert redDomains[i..][1..] == redDomains[i + 1..] && redIdx[i..][1..] == redIdx[i + 1..];
          i := i + 1;
        }
      }
    }

    /** Visiting an expression appends its statements, marked with the current compound
        statement, and restores the stacks. */
    method CloneExpr(e: Expr, ghost enclosing: set<nat>, ghost scope: set<nat>) returns (value: Value)
      requires Balanced() && Accepted(world, e, redDomains, convMask)
      requires Nested(e, enclosing) && Pending(enclosing) && curCStmt in enclosing
      requires Scoped(e, scope) && lambdaDeclMap.Keys <= scope
      modifies this
      ensures Balanced() && Stacks() == old(Stacks()) && lambdaDeclMap.Keys <= scope
      ensures var code := Unroll.Unroll(world, e, old(Position()), old(NamesNow()));
        && value == code.value && NamesNow() == code.after
        && Queue() == Appended(old(Queue()), code.before, old(curCStmt))
      decreases e, 1
    {
      AppendTwice(Queue(), [], [], curCStmt);
      match e
      case Constant(v) => value := Literal(v);
      case Pixel(acc, dx, dy) => value := ReadPixel(acc, dx, dy);
      case PixelAt(acc, w) =>
        var c := PositionOfWindow(w);
        value := ReadPixel(acc, c.0 - world.window(w).width / 2, c.1 - world.window(w).height / 2);
      case Coefficient(m) => value := CoefficientCode(world, m, convIdx);
      case CoefficientAt(m, d) => value := CoefficientCode(world, m, redIdx[|redIdx| - 1]);
      case Local(n, init) =>
        hide Unroll.Unroll, Appended;
        UnrollLocal(world, n, init, Position(), NamesNow());
        CloneVarDecl(n, init, enclosing, scope);
        value := Variable(n);
      case Binary(_, _, _) => value := CloneBinary(e, enclosing, scope);
      case Fold(_, _, _, _) => value := ConvertConvolution(e, enclosing, scope);
    }

    /** A local of a lambda is cloned with its initialiser, unless its clone is known. */
    method CloneVarDecl(n: nat, init: Expr, ghost enclosing: set<nat>, ghost scope: set<nat>)
      requires Balanced() && Accepted(world, init, redDomains, convMask)
      requires Nested(init, enclosing) && Pending(enclosing) && curCStmt in enclosing
      requires Scoped(init, scope) && lambdaDeclMap.Keys <= scope
      modifies this
      ensures Balanced() && Stacks() == old(Stacks()) && lambdaDeclMap.Keys <= scope + {n} && n in lambdaDeclMap
      ensures if n in old(lambdaDeclMap) then
          NamesNow() == old(NamesNow()) && Queue() == old(Queue())
        else
          var code := Unroll.Unroll(world, init, old(Position()), old(NamesNow()));
          && lambdaDeclMap[n] == code.value && NamesNow() == Names(code.after.next, code.after.known + {n})
          && Queue() == Appended(old(Queue()), code.before, old(curCStmt))
      decreases init, 2
    {
      if n !in lambdaDeclMap {
        hide Unroll.Unroll, Appended, Accepted, Nested, Scoped;
        var value := CloneExpr(init, enclosing, scope);
        lambdaDeclMap := lambdaDeclMap[n := value];
      }
    }

    /** Binary operators: the right operand first, both under the same compound statement. */
    method CloneBinary(e: Expr, ghost enclosing: set<nat>, ghost scope: set<nat>) returns (value: Value)
      requires e.Binary?
      requires Balanced() && Accepted(world, e, redDomains, convMask)
      requires Nested(e, enclosing) && Pending(enclosing) && curCStmt in enclosing
      requires Scoped(e, scope) && lambdaDeclMap.Keys <= scope
      modifies this
      ensures Balanced() && Stacks() == old(Stacks()) && lambdaDeclMap.Keys <= scope
      ensures var code := Unroll.Unroll(world, e, old(Position()), old(NamesNow()));
        && value == code.value && NamesNow() == code.after
        && Queue() == Appended(old(Queue()), code.before, old(curCStmt))
      decreases e, 0
    {
      ghost var ctx, names, queue := Position(), NamesNow(), Queue();
      UnrollBinary(world, e, ctx, names, enclosing, scope);
      hide Unroll.Unroll, Accepted, Nested, Scoped, ConvMask, Appended;
      var compound := curCStmt;
      var right := CloneExpr(e.right, enclosing, scope);
      ghost var rightCode := Unroll.Unroll(world, e.right, ctx, names);
      AppendPending(queue, rightCode.before, compound, enclosing);
      curCStmt := compound;
      var left := CloneExpr(e.left, enclosing, scope);
      ghost var leftCode := Unroll.Unroll(world, e.left, ctx, rightCode.after);
      AppendTwice(queue, rightCode.before, leftCode.before, compound);
      value := Operation(e.op, left, right);
    }

    /** The temporary and mode a return statement accumulates into. */
    function Target(): (nat, Mode)
      requires convMask.Some? || (redTmps != [] && |redModes| == |redTmps|)
      reads this
    {
      if convMask.Some? then (convTmp, convMode) else (redTmps[|redTmps| - 1], redModes[|redModes| - 1])
    }

    /** The return statement of a lambda becomes an accumulation. */
    method VisitReturn(e: Expr, ghost enclosing: set<nat>, ghost scope: set<nat>) returns (s: Stmt)
      requires Balanced() && Accepted(world, e, redDomains, convMask)
      requires Nested(e, enclosing) && Pending(enclosing) && curCStmt in enclosing
      requires Scoped(e, scope) && lambdaDeclMap.Keys <= scope
      requires convMask.Some? || redTmps != []
      modifies this
      ensures Balanced() && Stacks() == old(Stacks())
      ensures var code := Unroll.Unroll(world, e, old(Position()), old(NamesNow()));
        && s == Accumulate(old(Target()).0, old(Target()).1, code.value) && NamesNow() == code.after
        && Queue() == Appended(old(Queue()), code.before, old(curCStmt))
      decreases e, 2
    {
      hide Unroll.Unroll, Accepted, Nested, Scoped, Appended;
      var value := CloneExpr(e, enclosing, scope);
      if convMask.Some? {
        s := Accumulate(convTmp, convMode, value);
      } else {
        s := Accumulate(redTmps[|redTmps| - 1], redModes[|redModes| - 1], value);
      }
    }

    /** The declaration of a local, which has not been cloned yet. */
    method VisitDecl(n: nat, init: Expr, ghost enclosing: set<nat>, ghost scope: set<nat>) returns (s: Stmt)
      requires Balanced() && Accepted(world, init, redDomains, convMask)
      requires Nested(init, enclosing) && Pending(enclosing) && curCStmt in enclosing
      requires Scoped(init, scope) && lambdaDeclMap.Keys <= scope && n !in scope
      modifies this
      ensures Balanced() && Stacks() == old(Stacks()) && lambdaDeclMap.Keys <= scope + {n}
      ensures var code := Unroll.Unroll(world, init, old(Position()), old(NamesNow()));
        && s == DeclareLocal(n, code.value) && NamesNow() == Names(code.after.next, code.after.known + {n})
        && Queue() == Appended(old(Queue()), code.before, old(curCStmt))
      decreases init, 3
    {
      hide Unroll.Unroll, Accepted, Nested, Scoped, Appended;
      CloneVarDecl(n, init, enclosing, scope);
      s := DeclareLocal(n, lambdaDeclMap[n]);
    }

    /** One statement of a lambda's body. */
    method CloneStatement(b: Block, ghost enclosing: set<nat>, ghost scope: set<nat>) returns (s: Stmt)
      requires Balanced() && Accepted(world, Head(b), redDomains, convMask)
      requires Nested(Head(b), enclosing) && Pending(enclosing) && curCStmt in enclosing
      requires Scoped(Head(b), scope) && lambdaDeclMap.Keys <= scope && (b.Define? ==> b.name !in scope)
      requires convMask.Some? || redTmps != []
      modifies this
      ensures Balanced() && Stacks() == old(Stacks())
      ensures b.Define? ==> lambdaDeclMap.Keys <= scope + {b.name}
      ensures var code := Unroll.Unroll(world, Head(b), old(Position()), old(NamesNow()));
        && s == StatementOf(b, old(Target()).0, old(Target()).1, code.value) && NamesNow() == NamesAfter(b, code.after)
        && Queue() == Appended(old(Queue()), code.before, old(curCStmt))
      decreases b, 4
    {
      hide Unroll.Unroll, Accepted, Nested, Scoped, Appended, OwnersIn;
      match b
      case Return(value) => s := VisitReturn(value, enclosing, scope);
      case Define(n, init, _) => s := VisitDecl(n, init, enclosing, scope);
    }

    /** One statement, after what has to run before it. */
    method VisitStatement(id: nat, b: Block, ghost enclosing: set<nat>, ghost scope: set<nat>)
      returns (stmts: seq<Stmt>)
      requires Balanced() && AcceptedBlock(world, b, redDomains, convMask)
      requires id !in enclosing && NestedBlock(b, enclosing + {id}) && Pending(enclosing)
      requires ScopedBlock(b, scope) && lambdaDeclMap.Keys <= scope
      requires convMask.Some? || redTmps != []
      modifies this
      ensures Balanced() && Stacks() == old(Stacks())
      ensures Position() == old(Position()) && Target() == old(Target())
      ensures preStmts == old(preStmts) && preCStmt == old(preCStmt)
      ensures b.Define? ==> lambdaDeclMap.Keys <= scope + {b.name}
      ensures var whole := UnrollBlock(world, b, old(Position()), old(Target()).0, old(Target()).1, old(NamesNow()));
        if b.Return? then
          stmts == whole.0 && NamesNow() == whole.1
        else
          var others :=
            UnrollBlock(world, b.rest, old(Position()), old(Target()).0, old(Target()).1, NamesNow());
          stmts + others.0 == whole.0 && others.1 == whole.1
      decreases b, 5
    {
      ghost var queue := Queue();
      StatementParts(world, b, Position(), Target().0, Target().1, NamesNow(), enclosing + {id}, scope);
      ghost var code := Unroll.Unroll(world, Head(b), Position(), NamesNow());
      assert OwnersIn(queue, enclosing + {id}) by { OwnersSplit(queue, [], id, enclosing); }
      hide Unroll.Unroll, UnrollBlock, Accepted, AcceptedBlock, Nested, NestedBlock, Scoped, ScopedBlock, Appended,
        OwnersIn, Head, StatementOf, NamesAfter;
      curCStmt := id;
      var newS := CloneStatement(b, enclosing + {id}, scope);
      curCStmt := id;
      var taken := TakeAppended(id, queue, code.before, enclosing);
      stmts := taken + [newS];
    }

    /** A lambda's body, statement by statement: what waits for it goes before the statement that
        needs it, what waits for enclosing compound statements keeps waiting. */
    method VisitCompound(id: nat, b: Block, ghost enclosing: set<nat>, ghost scope: set<nat>) returns (s: Stmt)
      requires Balanced() && AcceptedBlock(world, b, redDomains, convMask)
      requires id !in enclosing && NestedBlock(b, enclosing + {id}) && Pending(enclosing)
      requires ScopedBlock(b, scope) && lambdaDeclMap.Keys <= scope
      requires convMask.Some? || redTmps != []
      modifies this
      ensures Balanced() && Stacks() == old(Stacks())
      ensures var block := UnrollBlock(world, b, old(Position()), old(Target()).0, old(Target()).1, old(NamesNow()));
        s == Compound(block.0) && NamesNow() == block.1
      ensures preStmts == old(preStmts) && preCStmt == old(preCStmt)
      decreases b, 6
    {
      ghost var ctx, tmp, mode, visible := Position(), Target().0, Target().1, scope;
      ghost var whole := UnrollBlock(world, b, ctx, tmp, mode, NamesNow());
      assert ctx.domains == redDomains && ConvMask(ctx) == convMask;
      hide UnrollBlock, AcceptedBlock, NestedBlock, ScopedBlock, OwnersIn, Position, Target, ConvMask;
      var body := [];
      var rest := b;
      while rest.Define?
        invariant b nonincreases to rest
        invariant Balanced() && Stacks() == old(Stacks()) && preStmts == old(preStmts) && preCStmt == old(preCStmt)
        invariant Position() == ctx && Target() == (tmp, mode)
        invariant AcceptedBlock(world, rest, ctx.domains, ConvMask(ctx)) && NestedBlock(rest, enclosing + {id})
        invariant ScopedBlock(rest, visible) && lambdaDeclMap.Keys <= visible
        invariant var others := UnrollBlock(world, rest, ctx, tmp, mode, NamesNow());
          body + others.0 == whole.0 && others.1 == whole.1
        decreases rest
      {
        OtherStatements(world, rest, ctx, enclosing + {id}, visible);
        ghost var others := UnrollBlock(world, rest, ctx, tmp, mode, NamesNow());
        var stmts := VisitStatement(id, rest, enclosing, visible);
        Associate(body, stmts, others.0, UnrollBlock(world, rest.rest, ctx, tmp, mode, NamesNow()).0);
        body := body + stmts;
        visible := visible + {rest.name};
        rest := rest.rest;
      }
      var last := VisitStatement(id, rest, enclosing, visible);
      s := Compound(body + last);
    }

    /** A kernel's statement `output() = e` inside the body id: what has to run before it, and
        the value to store.  When the expression is one that unrolling is faithful for, that
        code computes what the DSL computes. */
    method TranslateOutput(id: nat, e: Expr) returns (before: seq<Stmt>, value: Value)
      requires Balanced() && preStmts == [] && redDomains == [] && convMask == None && lambdaDeclMap == map[]
      requires Accepted(world, e, [], None) && Nested(e, {id}) && Scoped(e, {})
      modifies this
      ensures Balanced() && preStmts == [] && redDomains == [] && convMask == None
      ensures Disciplined(world, e, []) && NeutrallySeeded(world, e) ==>
        Computes(world, Code(before, value, NamesNow()), Eval(world, false, e, NOWHERE), old(literalCount), map[])
    {
      hide Unroll.Unroll, Accepted, Nested, Scoped, Disciplined, NeutrallySeeded, Computes, Eval;
      ghost var names := NamesNow();
      ghost var code := Unroll.Unroll(world, e, Context([], [], None), names);
      OwnersSplit(Queue(), code.before, id, {});
      hide Appended, OwnersIn;
      curCStmt := id;
      value := CloneExpr(e, {id}, {});
      before := TakePreStmts(id, 0);
      assert Code(before, value, NamesNow()) == code;
      if Disciplined(world, e, []) && NeutrallySeeded(world, e) {
        UnrollingPreservesMeaning(world, e, names, map[]);
      }
    }

    /** Between two positions of the loop over w that accumulates into tmp, inside ctx. */
    ghost predicate InLoop(ctx: Nest, w: nat, tmp: nat, mode: Mode, body: Block, outer: nat, enclosing: set<nat>)
      reads this
    {
      && AcceptedFold(world, w, body, ctx.domains, ConvMask(ctx))
      && |preStmts| == |preCStmt| && Pending(enclosing) && outer in enclosing
      && redIdx == ctx.positions && |redDomains| == |redModes| == |redTmps|
      && if world.window(w).isDomain then
           && convMask.None? && redDomains == ctx.domains + [w]
           && redModes[|redIdx|] == mode && redTmps[|redIdx|] == tmp
         else
           convMask == Some(w) && convMode == mode && convTmp == tmp && redDomains == ctx.domains
    }

    /** The lambda's body at one position of a reduction, inside a check unless the domain is constant. */
    method CloneAtDomain(w: nat, id: nat, body: Block, x: nat, y: nat, outer: nat,
        ghost ctx: Nest, ghost tmp: nat, ghost mode: Mode, ghost enclosing: set<nat>, ghost scope: set<nat>)
      returns (iteration: Stmt)
      requires InLoop(ctx, w, tmp, mode, body, outer, enclosing) && world.window(w).isDomain
      requires id !in enclosing && NestedBlock(body, enclosing + {id}) && ScopedBlock(body, scope)
      requires lambdaDeclMap.Keys <= scope
      modifies this
      ensures InLoop(ctx, w, tmp, mode, body, outer, enclosing) && Queue() == old(Queue())
      ensures redModes == old(redModes) && redTmps == old(redTmps)
      ensures var inner := Enter(world, ctx, w, (x, y));
        && AcceptedBlock(world, body, inner.domains, ConvMask(inner))
        && var block := UnrollBlock(world, body, inner, tmp, mode, old(NamesNow()));
        iteration == Guarded(world, w, (x, y), Compound(block.0)) && NamesNow() == block.1
      decreases body, 7
    {
      hide UnrollBlock, AcceptedBlock, NestedBlock, ScopedBlock, OwnersIn;
      redIdx := redIdx + [(x, y)];
      assert Position() == Enter(world, ctx, w, (x, y));
      iteration := VisitCompound(id, body, enclosing, scope);
      if !world.window(w).constant {
        iteration := IfDefined(w, redIdx[|redIdx| - 1].0, redIdx[|redIdx| - 1].1, iteration);
      }
      redIdx := redIdx[..|redIdx| - 1];
    }

    /** The same at one position of a convolution. */
    method CloneAtMask(w: nat, id: nat, body: Block, x: nat, y: nat, outer: nat,
        ghost ctx: Nest, ghost tmp: nat, ghost mode: Mode, ghost enclosing: set<nat>, ghost scope: set<nat>)
      returns (iteration: Stmt)
      requires InLoop(ctx, w, tmp, mode, body, outer, enclosing) && !world.window(w).isDomain
      requires id !in enclosing && NestedBlock(body, enclosing + {id}) && ScopedBlock(body, scope)
      requires lambdaDeclMap.Keys <= scope
      modifies this
      ensures InLoop(ctx, w, tmp, mode, body, outer, enclosing) && Queue() == old(Queue())
      ensures redModes == old(redModes) && redTmps == old(redTmps)
      ensures var inner := Enter(world, ctx, w, (x, y));
        && AcceptedBlock(world, body, inner.domains, ConvMask(inner))
        && var block := UnrollBlock(world, body, inner, tmp, mode, old(NamesNow()));
        iteration == Guarded(world, w, (x, y), Compound(block.0)) && NamesNow() == block.1
      decreases body, 7
    {
      hide UnrollBlock, AcceptedBlock, NestedBlock, ScopedBlock, OwnersIn;
      convIdx := (x, y);
      assert Position() == Enter(world, ctx, w, (x, y));
      iteration := VisitCompound(id, body, enclosing, scope);
    }

    /** One position of the unrolled loop, after which all locals are forgotten. */
    method UnrollAt(w: nat, id: nat, body: Block, x: nat, y: nat, outer: nat,
        ghost ctx: Nest, ghost tmp: nat, ghost mode: Mode, ghost p: nat, ghost enclosing: set<nat>,
        ghost scope: set<nat>)
      requires InLoop(ctx, w, tmp, mode, body, outer, enclosing)
      requires id !in enclosing && NestedBlock(body, enclosing + {id}) && ScopedBlock(body, scope)
      requires lambdaDeclMap.Keys <= scope
      requires p == y * world.window(w).width + x < |world.window(w).cells|
      requires (x, y) == CellAt(world.window(w).width, p)
      modifies this
      ensures InLoop(ctx, w, tmp, mode, body, outer, enclosing) && lambdaDeclMap.Keys <= scope
      ensures redModes == old(redModes) && redTmps == old(redTmps)
      ensures
        var one := Iteration(world, w, tmp, mode, body, ctx, old(NamesNow()), p);
        NamesNow() == one.1 && Queue() == Appended(old(Queue()), one.0, outer)
      decreases body, 8
    {
      var window := world.window(w);
      ghost var queue := Queue();
      AppendTwice(queue, [], [], outer);
      IterationIs(world, w, tmp, mode, body, ctx, NamesNow(), p);
      hide UnrollBlock, AcceptedBlock, AcceptedFold, NestedBlock, ScopedBlock, Appended, Iteration, CellAt, ConvMask,
        Enter, Guarded, OwnersIn;
      if !(window.isDomain && window.constant && window.cells[y * window.width + x] == 0) {
        var iteration: Stmt;
        if window.isDomain {
          iteration := CloneAtDomain(w, id, body, x, y, outer, ctx, tmp, mode, enclosing, scope);
        } else {
          iteration := CloneAtMask(w, id, body, x, y, outer, ctx, tmp, mode, enclosing, scope);
        }
        AppendOne(queue, iteration, outer);
        AppendPending(queue, [iteration], outer, enclosing);
        preStmts := preStmts + [iteration];
        preCStmt := preCStmt + [outer];
        lambdaDeclMap := map[];
      }
    }

    /** All positions, row by row. */
    method UnrollLoop(w: nat, id: nat, body: Block, outer: nat,
        ghost ctx: Nest, ghost tmp: nat, ghost mode: Mode, ghost enclosing: set<nat>, ghost scope: set<nat>,
        ghost names: Names)
      requires InLoop(ctx, w, tmp, mode, body, outer, enclosing) && NamesNow() == names
      requires id !in enclosing && NestedBlock(body, enclosing + {id}) && ScopedBlock(body, scope)
      requires lambdaDeclMap.Keys <= scope
      modifies this
      ensures InLoop(ctx, w, tmp, mode, body, outer, enclosing) && lambdaDeclMap.Keys <= scope
      ensures redModes == old(redModes) && redTmps == old(redTmps)
      ensures
        var all := Iterations(world, w, tmp, mode, body, ctx, names, 0);
        NamesNow() == all.1 && Queue() == Appended(old(Queue()), all.0, outer)
      decreases body, 9
    {
      var window := world.window(w);
      ghost var emitted: seq<Stmt>, p: nat := [], 0;
      EmittedNone(world, w, tmp, mode, body, ctx, names);
      AppendTwice(Queue(), [], [], outer);
      hide AcceptedFold, Iterations, Iteration, Emitted, CellAt, NestedBlock, ScopedBlock, ConvMask, InLoop, NamesNow,
        Start, Appended, Queue;
      var y: nat := 0;
      while y < window.height
        invariant y <= window.height && p == Start(y, window.width)
        invariant InLoop(ctx, w, tmp, mode, body, outer, enclosing) && lambdaDeclMap.Keys <= scope
        invariant redModes == old(redModes) && redTmps == old(redTmps)
        invariant Queue() == Appended(old(Queue()), emitted, outer)
        invariant Emitted(world, w, tmp, mode, body, ctx, names, emitted, NamesNow(), p)
      {
        var x: nat := 0;
        while x < window.width
          invariant x <= window.width && p == Start(y, window.width) + x
          invariant InLoop(ctx, w, tmp, mode, body, outer, enclosing) && lambdaDeclMap.Keys <= scope
          invariant redModes == old(redModes) && redTmps == old(redTmps)
          invariant Queue() == Appended(old(Queue()), emitted, outer)
          invariant Emitted(world, w, tmp, mode, body, ctx, names, emitted, NamesNow(), p)
        {
          CellOfLoop(window, x, y);
          ghost var one := Iteration(world, w, tmp, mode, body, ctx, NamesNow(), p);
          EmittedStep(world, w, tmp, mode, body, ctx, names, emitted, NamesNow(), p);
          UnrollAt(w, id, body, x, y, outer, ctx, tmp, mode, p, enclosing, scope);
          AppendTwice(old(Queue()), emitted, one.0, outer);
          emitted := emitted + one.0;
          x := x + 1;
          p := p + 1;
        }
        NextPosition(y, window.height, window.width);
        y := y + 1;
      }
      EmittedAll(world, w, tmp, mode, body, ctx, names, emitted, NamesNow(), p);
    }

    /** convolve(mask, mode, lambda) and reduce(domain, mode, lambda). */
    method ConvertConvolution(e: Expr, ghost enclosing: set<nat>, ghost scope: set<nat>) returns (value: Value)
      requires e.Fold?
      requires Balanced() && Accepted(world, e, redDomains, convMask)
      requires Nested(e, enclosing) && Pending(enclosing) && curCStmt in enclosing
      requires Scoped(e, scope) && lambdaDeclMap.Keys <= scope
      modifies this
      ensures Balanced() && Stacks() == old(Stacks()) && lambdaDeclMap.Keys <= scope
      ensures var code := Unroll.Unroll(world, e, old(Position()), old(NamesNow()));
        && value == code.value && NamesNow() == code.after
        && Queue() == Appended(old(Queue()), code.before, old(curCStmt))
      decreases e, 0
    {
      ghost var ctx, queue, names := Position(), Queue(), NamesNow();
      UnrollFold(world, e, ctx, names, enclosing, scope);
      hide Unroll.Unroll, Iterations, Accepted, AcceptedFold, Nested, NestedBlock, Scoped, ScopedBlock, Appended, Seed,
        OwnersIn;
      var Fold(w, mode, id, body) := e;
      var outer := curCStmt;
      var tmp := OpenLoop(w, mode, outer, ctx, body, enclosing);
      names := names.(next := tmp + 1);
      UnrollLoop(w, id, body, outer, ctx, tmp, mode, enclosing, scope, names);
      AppendTwice(queue, [Declare(tmp, Seed(world, mode))],
        Iterations(world, w, tmp, mode, body, ctx, names, 0).0, outer);
      CloseLoop(w);
      value := Temporary(tmp);
    }

    /** Declares the temporary that holds the result and enters the reduction or convolution. */
    method OpenLoop(w: nat, mode: Mode, outer: nat, ghost ctx: Nest, ghost body: Block, ghost enclosing: set<nat>)
      returns (tmp: nat)
      requires Balanced() && ctx == Position() && Pending(enclosing) && outer in enclosing
      requires AcceptedFold(world, w, body, ctx.domains, ConvMask(ctx))
      modifies this
      ensures tmp == old(literalCount) && literalCount == tmp + 1 && lambdaDeclMap == old(lambdaDeclMap)
      ensures InLoop(ctx, w, tmp, mode, body, outer, enclosing)
      ensures redModes == if world.window(w).isDomain then old(redModes) + [mode] else old(redModes)
      ensures redTmps == if world.window(w).isDomain then old(redTmps) + [tmp] else old(redTmps)
      ensures Queue() == Appended(old(Queue()), [Declare(tmp, Seed(world, mode))], outer)
    {
      assert ConvMask(ctx).None?;
      hide Accepted, AcceptedFold, Appended, Seed, ConvMask, OwnersIn;
      AppendOne(Queue(), Declare(literalCount, Seed(world, mode)), outer);
      AppendPending(Queue(), [Declare(literalCount, Seed(world, mode))], outer, enclosing);
      var isDomain := world.window(w).isDomain;
      if isDomain { redModes := redModes + [mode]; } else { convMode := mode; }
      tmp := literalCount;
      literalCount := literalCount + 1;
      if isDomain {
        redTmps := redTmps + [tmp];
        redDomains := redDomains + [w];
      } else {
        convTmp := tmp;
        convMask := Some(w);
      }
      preStmts := preStmts + [Declare(tmp, Seed(world, mode))];
      preCStmt := preCStmt + [outer];
    }

    /** Leaves the reduction or convolution. */
    method CloseLoop(w: nat)
      requires world.window(w).isDomain ==> redDomains != [] && |redModes| == |redTmps| == |redDomains|
      modifies this`redDomains, this`redModes, this`redTmps, this`convMask, this`convTmp, this`convIdx
      ensures if world.window(w).isDomain then
          var n := |old(redDomains)| - 1;
          && redDomains == old(redDomains)[..n] && redModes == old(redModes)[..n] && redTmps == old(redTmps)[..n]
          && convMask == old(convMask) && convTmp == old(convTmp) && convIdx == old(convIdx)
        else
          convMask == None && redDomains == old(redDomains) && redModes == old(redModes) && redTmps == old(redTmps)
    {
      if world.window(w).isDomain {
        redDomains := redDomains[..|redDomains| - 1];
        redModes := redModes[..|redModes| - 1];
        redTmps := redTmps[..|redTmps| - 1];
      } else {
        convMask := None;
        convTmp := 0;
        convIdx := (0, 0);
      }
    }
  }

  /** Of the unrolled loop, the positions below p have been emitted. */
  ghost predicate Emitted(world: World, w: nat, tmp: nat, mode: Mode, body: Block, ctx: Nest, start: Names,
      emitted: seq<Stmt>, names: Names, p: nat)
    requires AcceptedFold(world, w, body, ctx.domains, ConvMask(ctx))
  {
    var all := Iterations(world, w, tmp, mode, body, ctx, start, 0);
    var rest := Iterations(world, w, tmp, mode, body, ctx, names, p);
    all.0 == emitted + rest.0 && all.1 == rest.1
  }

  lemma CellOfLoop(window: Window, x: nat, y: nat)
    requires x < window.width && y < window.height
    ensures Start(y, window.width) == y * window.width >= 0
    ensures Start(y, window.width) + x < |window.cells| && CellAt(window.width, Start(y, window.width) + x) == (x, y)
  {
    NextPosition(y, window.height, window.width);
    CellAtPosition(window.width, (x, y));
  }

  lemma EmittedNone(world: World, w: nat, tmp: nat, mode: Mode, body: Block, ctx: Nest, start: Names)
    requires AcceptedFold(world, w, body, ctx.domains, ConvMask(ctx))
    ensures Emitted(world, w, tmp, mode, body, ctx, start, [], start, 0) && Start(0, world.window(w).width) == 0
  {
  }

  lemma EmittedStep(world: World, w: nat, tmp: nat, mode: Mode, body: Block, ctx: Nest, start: Names,
      emitted: seq<Stmt>, names: Names, p: nat)
    requires AcceptedFold(world, w, body, ctx.domains, ConvMask(ctx))
    requires p < |world.window(w).cells| && Emitted(world, w, tmp, mode, body, ctx, start, emitted, names, p)
    ensures var one := Iteration(world, w, tmp, mode, body, ctx, names, p);
      Emitted(world, w, tmp, mode, body, ctx, start, emitted + one.0, one.1, p + 1)
  {
    hide Iteration;
  }

  lemma EmittedAll(world: World, w: nat, tmp: nat, mode: Mode, body: Block, ctx: Nest, start: Names,
      emitted: seq<Stmt>, names: Names, p: nat)
    requires AcceptedFold(world, w, body, ctx.domains, ConvMask(ctx))
    requires p == |world.window(w).cells| && Emitted(world, w, tmp, mode, body, ctx, start, emitted, names, p)
    ensures Iterations(world, w, tmp, mode, body, ctx, start, 0) == (emitted, names)
  {
    assert emitted + [] == emitted;
  }

  lemma UnrollLocal(world: World, n: nat, init: Expr, ctx: Nest, names: Names)
    requires Accepted(world, init, ctx.domains, ConvMask(ctx))
    ensures Accepted(world, Local(n, init), ctx.domains, ConvMask(ctx))
    ensures var again := Unroll.Unroll(world, init, ctx, names);
      Unroll.Unroll(world, Local(n, init), ctx, names) ==
        if n in names.known then Code([], Variable(n), names)
        else Code(again.before, Variable(n), Names(again.after.next, again.after.known + {n}))
  {
  }

  lemma Associate<T>(a: seq<T>, b: seq<T>, bc: seq<T>, c: seq<T>)
    requires b + c == bc
    ensures (a + b) + c == a + bc
  {
  }

  lemma OtherStatements(world: World, b: Block, ctx: Nest, enclosing: set<nat>, scope: set<nat>)
    requires b.Define?
    requires AcceptedBlock(world, b, ctx.domains, ConvMask(ctx)) && NestedBlock(b, enclosing) && ScopedBlock(b, scope)
    ensures AcceptedBlock(world, b.rest, ctx.domains, ConvMask(ctx)) && NestedBlock(b.rest, enclosing)
    ensures ScopedBlock(b.rest, scope + {b.name})
  {
  }

  // the expression of a lambda's first statement, what it becomes, and the names then
  function Head(b: Block): Expr { if b.Return? then b.value else b.init }

  function StatementOf(b: Block, tmp: nat, mode: Mode, value: Value): Stmt {
    if b.Return? then Accumulate(tmp, mode, value) else DeclareLocal(b.name, value)
  }

  function NamesAfter(b: Block, names: Names): Names {
    if b.Return? then names else Names(names.next, names.known + {b.name})
  }

  /** The first statement of a lambda's body, and the others. */
  lemma StatementParts(world: World, b: Block, ctx: Nest, tmp: nat, mode: Mode, names: Names, enclosing: set<nat>,
      scope: set<nat>)
    requires AcceptedBlock(world, b, ctx.domains, ConvMask(ctx)) && NestedBlock(b, enclosing) && ScopedBlock(b, scope)
    ensures Accepted(world, Head(b), ctx.domains, ConvMask(ctx)) && Nested(Head(b), enclosing) && Scoped(Head(b), scope)
    ensures b.Define? ==> b.name !in scope && AcceptedBlock(world, b.rest, ctx.domains, ConvMask(ctx))
    ensures var code := Unroll.Unroll(world, Head(b), ctx, names);
      var first := code.before + [StatementOf(b, tmp, mode, code.value)];
      var whole := UnrollBlock(world, b, ctx, tmp, mode, names);
      if b.Return? then
        whole == (first, NamesAfter(b, code.after))
      else
        var others := UnrollBlock(world, b.rest, ctx, tmp, mode, NamesAfter(b, code.after));
        whole == (first + others.0, others.1)
  {
  }
}
