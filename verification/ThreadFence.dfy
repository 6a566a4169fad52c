/** The single-launch CUDA reduction (REDUCTION_CUDA_2D_THREAD_FENCE,
    runtime/hipacc_cu_red.hpp) as a state machine over the steps of its blocks.  A block
    stores its partial result, fences, draws a ticket from an atomic counter, and the block
    with the last ticket folds all partial results and resets the counter.  Stores wait in
    a per-block buffer until they drain; only the fence makes a block wait for that. */
module ThreadFence {
  import opened Folds

  /** Where a block stands: Folding carries the cells it has read so far. */
  datatype Pc = Reducing | Stored | Fenced | Folding(read: set<int>) | Done {
    predicate Ticketed() { Folding? || Done? }
  }

  /** partial: what each block computes in the current launch.  memory: the output array as
      other blocks see it.  lasts counts, per launch, how often last_block became true, and
      finished records that the launch has delivered its result; no step depends on either. */
  datatype State<T> = State(partial: seq<T>, pc: seq<Pc>, buffer: seq<Option<T>>, memory: seq<T>,
                            counter: nat, acc: Option<T>, lasts: nat, finished: bool)

  /** n blocks of bs threads; every thread of the last block reads output[tid] unguarded, so
      memory spans the larger of the two. */
  datatype Config<!T> = Config(n: nat, bs: nat, f: (T, T) -> T) {
    ghost predicate Valid() { n >= 1 && bs >= 1 }
    function Cells(): nat { if n < bs then bs else n }
  }

  datatype Action<T> =
    | Store(b: nat)
    | Drain(b: nat)
    | Fence(b: nat)
    | Skip(b: nat)
    | Ticket(b: nat)
    | Read(b: nat, i: nat)
    | Finish(b: nat)
    | Launch(partial: seq<T>)

  ghost predicate Shape<T>(c: Config<T>, s: State<T>) {
    |s.partial| == |s.pc| == |s.buffer| == c.n && |s.memory| == c.Cells()
  }

  ghost predicate Init<T>(c: Config<T>, s: State<T>) {
    && Shape(c, s)
    && (forall b :: 0 <= b < c.n ==> s.pc[b] == Reducing && s.buffer[b] == None)
    && s.counter == 0 && s.acc == None && s.lasts == 0 && !s.finished
  }

  ghost predicate Enabled<T>(c: Config<T>, s: State<T>, a: Action<T>)
    requires Shape(c, s)
  {
    match a
    case Store(b) => b < c.n && s.pc[b] == Reducing
    case Drain(b) => b < c.n && s.buffer[b].Some?
    case Fence(b) => b < c.n && c.n > 1 && s.pc[b] == Stored && s.buffer[b] == None
    case Skip(b) => b < c.n && c.n == 1 && s.pc[b] == Stored && s.buffer[b] == None
    case Ticket(b) => b < c.n && s.pc[b] == Fenced
    case Read(b, i) => b < c.n && s.pc[b].Folding? && i < c.Cells() && i !in s.pc[b].read
    case Finish(b) => b < c.n && s.pc[b] == Folding(Below(c.Cells())) && s.acc.Some?
    case Launch(partial) => |partial| == c.n && forall b :: 0 <= b < c.n ==> s.pc[b] == Done && s.buffer[b] == None
  }

  /** atomicInc: wraps to 0 once the old value has reached the limit. */
  function AtomicInc(old_: nat, limit: nat): nat { if old_ >= limit then 0 else old_ + 1 }

  ghost function Apply<T>(c: Config<T>, s: State<T>, a: Action<T>): (s': State<T>)
    requires Shape(c, s) && Enabled(c, s, a)
    ensures Shape(c, s')
  {
    match a
    case Store(b) => s.(pc := s.pc[b := Stored], buffer := s.buffer[b := Some(s.partial[b])])
    case Drain(b) => s.(buffer := s.buffer[b := None], memory := s.memory[b := s.buffer[b].value])
    case Fence(b) => s.(pc := s.pc[b := Fenced])
    case Skip(b) => s.(pc := s.pc[b := Done], finished := true)
    case Ticket(b) =>
      var ticket := s.counter;
      var lastBlock := ticket == c.n - 1;
      s.(counter := AtomicInc(ticket, c.n),
         pc := s.pc[b := if lastBlock then Folding({}) else Done],
         acc := if lastBlock then None else s.acc,
         lasts := s.lasts + (if lastBlock then 1 else 0))
    case Read(b, i) =>
      s.(pc := s.pc[b := Folding(s.pc[b].read + {i})], acc := Join(c.f, s.acc, Some(s.memory[i])))
    case Finish(b) => s.(pc := s.pc[b := Done], memory := s.memory[0 := s.acc.value], counter := 0, finished := true)
    case Launch(partial) =>
      s.(partial := partial, pc := seq(c.n, i => Reducing), acc := None, lasts := 0, finished := false)
  }

  // -------------------------------------------------------------------- invariant

  ghost function Tickets<T>(s: State<T>): set<int> {
    set b | 0 <= b < |s.pc| && s.pc[b].Ticketed()
  }

  /** The partial result of block b is where its program counter promises it. */
  ghost predicate PartialPlaced<T>(c: Config<T>, s: State<T>, b: int)
    requires Shape(c, s) && 0 <= b < c.n
  {
    match s.pc[b]
    case Reducing => s.buffer[b] == None
    case Stored => s.buffer[b] == Some(s.partial[b]) || (s.buffer[b] == None && s.memory[b] == s.partial[b])
    case _ => s.buffer[b] == None && (s.finished || s.memory[b] == s.partial[b])
  }

  ghost function Cell<T>(s: State<T>): int -> T
    requires |s.memory| > 0
  {
    (i: int) => if 0 <= i < |s.memory| then s.memory[i] else s.memory[0]
  }

  /** What the launch delivers: the fold of all partial results, and of whatever the threads
      beyond them find in memory. */
  ghost predicate Delivered<T>(c: Config<T>, s: State<T>)
    requires c.Valid() && Shape(c, s)
  {
    if c.n == 1 then s.memory[0] == s.partial[0]
    else Some(s.memory[0]) == Join(c.f, SumSeq(c.f, s.partial), Sum(c.f, Cell(s), Behind(c)))
  }

  ghost function Behind<T>(c: Config<T>): set<int> { Below(c.Cells()) - Below(c.n) }

  ghost predicate Inv<T>(c: Config<T>, s: State<T>) {
    && c.Valid() && Shape(c, s)
    && (forall b :: 0 <= b < c.n ==> PartialPlaced(c, s, b))
    && (if s.finished then
          && s.counter == 0 && s.lasts == (if c.n > 1 then 1 else 0)
          && (forall b :: 0 <= b < c.n ==> s.pc[b] == Done)
          && Delivered(c, s)
        else
          && s.counter == |Tickets(s)|
          && s.lasts == (if |Tickets(s)| == c.n then 1 else 0)
          && (c.n == 1 ==> s.pc[0].Reducing? || s.pc[0].Stored?)
          && (forall b :: 0 <= b < c.n && s.pc[b].Folding? ==> FoldingIsLast(c, s, b))
          && (|Tickets(s)| == c.n ==> exists b :: 0 <= b < c.n && s.pc[b].Folding?))
  }

  /** A folding block drew the last ticket, is alone, and has folded what it has read. */
  ghost predicate FoldingIsLast<T>(c: Config<T>, s: State<T>, b: int)
    requires c.Valid() && Shape(c, s) && 0 <= b < c.n && s.pc[b].Folding?
  {
    && |Tickets(s)| == c.n
    && (forall b' :: 0 <= b' < c.n && b' != b ==> s.pc[b'] == Done)
    && s.pc[b].read <= Below(c.Cells())
    && s.acc == Sum(c.f, Cell(s), s.pc[b].read)
  }

  lemma InitInv<T>(c: Config<T>, s: State<T>)
    requires c.Valid() && Init(c, s)
    ensures Inv(c, s)
  {
    assert Tickets(s) == {};
  }

  lemma {:induction false} BelowSize(n: nat)
    ensures |Below(n)| == n
  {
    if n > 0 {
      BelowSize(n - 1);
      assert Below(n) == Below(n - 1) + {n - 1};
    }
  }

  /** All n blocks hold a ticket exactly when n tickets are drawn. */
  lemma AllTicketed<T>(c: Config<T>, s: State<T>)
    requires Shape(c, s)
    ensures |Tickets(s)| <= c.n
    ensures |Tickets(s)| == c.n <==> forall b :: 0 <= b < c.n ==> s.pc[b].Ticketed()
  {
    BelowSize(c.n);
    assert Tickets(s) <= Below(c.n);
    Subset(Tickets(s), Below(c.n));
    if forall b :: 0 <= b < c.n ==> s.pc[b].Ticketed() {
      assert Tickets(s) == Below(c.n);
    }
    if |Tickets(s)| == c.n {
      forall b | 0 <= b < c.n
        ensures s.pc[b].Ticketed()
      {
        assert b in Below(c.n);
      }
    }
  }

  lemma {:induction false} Subset<K>(a: set<K>, b: set<K>)
    requires a <= b
    ensures |a| <= |b| && (|a| == |b| ==> a == b)
    decreases |b|
  {
    if a != {} {
      var x :| x in a;
      Subset(a - {x}, b - {x});
      if |a| == |b| { assert a == (a - {x}) + {x} && b == (b - {x}) + {x}; }
    } else if b != {} {
      var x :| x in b;
    }
  }

  lemma TicketsUnchanged<T>(s: State<T>, s': State<T>, b: nat)
    requires b < |s.pc| == |s'.pc|
    requires forall k :: 0 <= k < |s.pc| && k != b ==> s'.pc[k] == s.pc[k]
    ensures s'.pc[b].Ticketed() == s.pc[b].Ticketed() ==> Tickets(s') == Tickets(s)
    ensures s'.pc[b].Ticketed() && !s.pc[b].Ticketed() ==> |Tickets(s')| == |Tickets(s)| + 1
  {
    if s'.pc[b].Ticketed() && !s.pc[b].Ticketed() {
      assert Tickets(s') == Tickets(s) + {b};
    } else if s'.pc[b].Ticketed() == s.pc[b].Ticketed() {
      assert forall k :: k in Tickets(s') <==> k in Tickets(s);
    }
  }

  // ----------------------------------------------------------- every step keeps it

  lemma StoreKeeps<T(!new)>(c: Config<T>, s: State<T>, b: nat)
    requires Inv(c, s) && Enabled(c, s, Store(b))
    ensures Inv(c, Apply(c, s, Store(b)))
  {
    var s' := Apply(c, s, Store(b));
    TicketsUnchanged(s, s', b);
    AllTicketed(c, s);
    hide Sum, Tickets;
    forall k | 0 <= k < c.n
      ensures PartialPlaced(c, s', k)
    {
      assert PartialPlaced(c, s, k);
    }
  }

  lemma DrainKeeps<T(!new)>(c: Config<T>, s: State<T>, b: nat)
    requires Inv(c, s) && Enabled(c, s, Drain(b))
    ensures Inv(c, Apply(c, s, Drain(b)))
  {
    var s' := Apply(c, s, Drain(b));
    AllTicketed(c, s);
    assert PartialPlaced(c, s, b);
    assert s.pc[b].Stored?;
    assert Tickets(s') == Tickets(s);
    forall k | 0 <= k < c.n
      ensures PartialPlaced(c, s', k)
    {
      assert PartialPlaced(c, s, k);
    }
  }

  lemma FenceKeeps<T(!new)>(c: Config<T>, s: State<T>, b: nat)
    requires Inv(c, s) && Enabled(c, s, Fence(b))
    ensures Inv(c, Apply(c, s, Fence(b)))
  {
    var s' := Apply(c, s, Fence(b));
    TicketsUnchanged(s, s', b);
    AllTicketed(c, s);
    hide Sum, Tickets;
    forall k | 0 <= k < c.n
      ensures PartialPlaced(c, s', k)
    {
      assert PartialPlaced(c, s, k);
    }
  }

  lemma SkipKeeps<T(!new)>(c: Config<T>, s: State<T>, b: nat)
    requires Inv(c, s) && Enabled(c, s, Skip(b))
    ensures Inv(c, Apply(c, s, Skip(b)))
  {
    assert PartialPlaced(c, s, 0);
    assert Tickets(s) == {};
  }

  lemma TicketKeeps<T(!new)>(c: Config<T>, s: State<T>, b: nat)
    requires Inv(c, s) && Enabled(c, s, Ticket(b))
    ensures Inv(c, Apply(c, s, Ticket(b)))
  {
    var s' := Apply(c, s, Ticket(b));
    AllTicketed(c, s);
    AllTicketed(c, s');
    TicketsUnchanged(s, s', b);
    forall k | 0 <= k < c.n
      ensures PartialPlaced(c, s', k)
    {
      assert PartialPlaced(c, s, k);
    }
    assert PartialPlaced(c, s, b);
    SumNone(c.f, Cell(s'));
    if s.counter == c.n - 1 {
      forall k | 0 <= k < c.n && k != b
        ensures s'.pc[k] == Done
      {
        assert s'.pc[k].Ticketed();
      }
      assert FoldingIsLast(c, s', b);
    }
  }

  lemma ReadKeeps<T(!new)>(c: Config<T>, s: State<T>, b: nat, i: nat)
    requires AssociativeCommutative(c.f) && Inv(c, s) && Enabled(c, s, Read(b, i))
    ensures Inv(c, Apply(c, s, Read(b, i)))
  {
    hide AssociativeCommutative, Sum;
    var s' := Apply(c, s, Read(b, i));
    TicketsUnchanged(s, s', b);
    assert FoldingIsLast(c, s, b);
    assert Cell(s') == Cell(s);
    SumInsert(c.f, Cell(s), s.pc[b].read, i);
    assert FoldingIsLast(c, s', b);
    forall k | 0 <= k < c.n
      ensures PartialPlaced(c, s', k)
    {
      assert PartialPlaced(c, s, k);
    }
  }

  lemma FinishKeeps<T(!new)>(c: Config<T>, s: State<T>, b: nat)
    requires AssociativeCommutative(c.f) && Inv(c, s) && Enabled(c, s, Finish(b))
    ensures Inv(c, Apply(c, s, Finish(b)))
  {
    hide AssociativeCommutative, Sum;
    var s' := Apply(c, s, Finish(b));
    assert FoldingIsLast(c, s, b);
    AllTicketed(c, s);
    forall k | 0 <= k < c.n
      ensures PartialPlaced(c, s', k) && s.memory[k] == s.partial[k]
    {
      assert PartialPlaced(c, s, k);
    }
    FoldOfPartials(c, s);
    SumAgree(c.f, Cell(s), Cell(s'), Behind(c));
  }

  /** Folding every cell folds every partial result, and the cells behind them. */
  lemma FoldOfPartials<T(!new)>(c: Config<T>, s: State<T>)
    requires AssociativeCommutative(c.f) && c.Valid() && Shape(c, s)
    requires forall k :: 0 <= k < c.n ==> s.memory[k] == s.partial[k]
    ensures Sum(c.f, Cell(s), Below(c.Cells())) == Join(c.f, SumSeq(c.f, s.partial), Sum(c.f, Cell(s), Behind(c)))
  {
    hide AssociativeCommutative, Sum;
    SumSeqIndices(c.f, s.partial, Cell(s));
    SumUnion(c.f, Cell(s), Below(c.n), Behind(c));
    assert Below(c.Cells()) == Below(c.n) + Behind(c);
  }

  lemma LaunchKeeps<T(!new)>(c: Config<T>, s: State<T>, partial: seq<T>)
    requires Inv(c, s) && Enabled(c, s, Launch(partial))
    ensures Inv(c, Apply(c, s, Launch(partial)))
  {
    var s' := Apply(c, s, Launch(partial));
    assert Tickets(s') == {};
    AllTicketed(c, s);
  }

  /** Every interleaving of the steps of all blocks, over any number of launches. */
  lemma StepKeepsInv<T(!new)>(c: Config<T>, s: State<T>, a: Action<T>)
    requires AssociativeCommutative(c.f) && Inv(c, s) && Enabled(c, s, a)
    ensures Inv(c, Apply(c, s, a))
  {
    hide AssociativeCommutative, Inv, Apply, Enabled;
    match a
    case Store(b) => StoreKeeps(c, s, b);
    case Drain(b) => DrainKeeps(c, s, b);
    case Fence(b) => FenceKeeps(c, s, b);
    case Skip(b) => SkipKeeps(c, s, b);
    case Ticket(b) => TicketKeeps(c, s, b);
    case Read(b, i) => ReadKeeps(c, s, b, i);
    case Finish(b) => FinishKeeps(c, s, b);
    case Launch(partial) => LaunchKeeps(c, s, partial);
  }

  ghost predicate IsRun<T>(c: Config<T>, run: seq<State<T>>, actions: seq<Action<T>>) {
    && |run| == |actions| + 1 && Init(c, run[0])
    && (forall k :: 0 <= k < |run| ==> Shape(c, run[k]))
    && forall k :: 0 <= k < |actions| ==>
         Shape(c, run[k]) && Enabled(c, run[k], actions[k]) && run[k + 1] == Apply(c, run[k], actions[k])
  }

  lemma {:induction false} RunKeepsInv<T(!new)>(c: Config<T>, run: seq<State<T>>, actions: seq<Action<T>>, k: nat)
    requires AssociativeCommutative(c.f) && c.Valid() && IsRun(c, run, actions) && k < |run|
    ensures Inv(c, run[k])
  {
    hide AssociativeCommutative;
    if k == 0 {
      InitInv(c, run[0]);
    } else {
      RunKeepsInv(c, run, actions, k - 1);
      StepKeepsInv(c, run[k - 1], actions[k - 1]);
    }
  }

  // ------------------------------------------------------------------ main results

  /** In every run, whenever a block folds: it is the only one to become last in this
      launch, all other blocks are done, and every partial result is visible. */
  lemma LastBlockSeesAllPartials<T(!new)>(c: Config<T>, run: seq<State<T>>, actions: seq<Action<T>>, k: nat, b: nat)
    requires AssociativeCommutative(c.f) && c.Valid() && IsRun(c, run, actions) && k < |run|
    requires b < c.n && run[k].pc[b].Folding?
    ensures run[k].lasts == 1
    ensures forall b' :: 0 <= b' < c.n && b' != b ==> run[k].pc[b'] == Done
    ensures run[k].memory[..c.n] == run[k].partial
  {
    hide AssociativeCommutative;
    var s := run[k];
    RunKeepsInv(c, run, actions, k);
    assert FoldingIsLast(c, s, b);
    forall b' | 0 <= b' < c.n
      ensures s.memory[b'] == s.partial[b']
    {
      assert PartialPlaced(c, s, b');
    }
  }

  /** In every run, whenever all blocks of a launch are done and its stores have drained, the
      counter is 0 again, exactly one block was last (none if there is a single block), and
      output[0] is the reduction, given enough blocks to feed every thread of the last one. */
  lemma LaunchDelivers<T(!new)>(c: Config<T>, run: seq<State<T>>, actions: seq<Action<T>>, k: nat)
    requires AssociativeCommutative(c.f) && c.Valid() && IsRun(c, run, actions) && k < |run|
    requires forall b :: 0 <= b < c.n ==> run[k].pc[b] == Done && run[k].buffer[b] == None
    ensures run[k].counter == 0
    ensures run[k].lasts == if c.n > 1 then 1 else 0
    ensures c.n == 1 || c.n >= c.bs ==> Some(run[k].memory[0]) == SumSeq(c.f, run[k].partial)
  {
    hide AssociativeCommutative;
    var s := run[k];
    RunKeepsInv(c, run, actions, k);
    AllTicketed(c, s);
    assert s.finished;
    if c.n == 1 {
      assert s.partial == [] + [s.partial[0]];
      SumSeqAppend(c.f, [], s.partial[0]);
    } else if c.n >= c.bs {
      assert Behind(c) == {};
      SumNone(c.f, Cell(s));
    }
  }

  /** The last block folds exactly the partial results if and only if there are at least as
      many blocks as threads in a block. */
  lemma ReadsOnlyPartialsIff<T>(c: Config<T>)
    requires c.Valid()
    ensures Behind(c) == {} <==> c.n >= c.bs
  {
    if c.n < c.bs {
      assert c.n in Behind(c);
    }
  }

  /** No interleaving gets stuck: until all blocks of a launch are done and drained, some
      block can act. */
  lemma SomeBlockCanAct<T(!new)>(c: Config<T>, s: State<T>)
    requires Inv(c, s)
    requires exists b :: 0 <= b < c.n && (s.pc[b] != Done || s.buffer[b] != None)
    ensures exists a: Action<T> :: !a.Launch? && Enabled(c, s, a)
  {
    var b: nat :| b < c.n && (s.pc[b] != Done || s.buffer[b] != None);
    assert PartialPlaced(c, s, b);
    if s.buffer[b] != None {
      assert Enabled(c, s, Drain(b));
    } else {
      match s.pc[b]
      case Reducing => assert Enabled(c, s, Store(b));
      case Stored => assert Enabled(c, s, if c.n == 1 then Skip(b) else Fence(b));
      case Fenced => assert Enabled(c, s, Ticket(b));
      case Folding(read) =>
        assert FoldingIsLast(c, s, b);
        if read == Below(c.Cells()) {
          assert 0 in read;
          SumSome(c.f, Cell(s), read, 0);
          assert Enabled(c, s, Finish(b));
        } else {
          var i :| i in Below(c.Cells()) && i !in read;
          assert Enabled(c, s, Read(b, i));
        }
    }
  }

  lemma SumSome<T>(f: (T, T) -> T, g: int -> T, S: set<int>, k: int)
    requires k in S
    ensures Sum(f, g, S).Some?
  {
  }

  /** How far a block still is from being done and drained. */
  function Remaining<T>(c: Config<T>, s: State<T>, b: nat): int
    requires Shape(c, s) && b < c.n
  {
    (match s.pc[b]
     case Reducing => c.Cells() + 6
     case Stored => c.Cells() + 4
     case Fenced => c.Cells() + 3
     case Folding(read) => c.Cells() + 1 - |read|
     case Done => 0) + (if s.buffer[b] == None then 0 else 1)
  }

  lemma StepIsLocal<T(!new)>(c: Config<T>, s: State<T>, a: Action<T>)
    requires Shape(c, s) && Enabled(c, s, a) && !a.Launch?
    ensures forall b :: 0 <= b < c.n && b != a.b ==> Remaining(c, Apply(c, s, a), b) == Remaining(c, s, b)
  {
  }

  /** Every step of a launch brings its block closer and leaves the others alone, so a
      launch ends after at most n * (max(n, bs) + 6) steps, however they interleave. */
  lemma StepsDecrease<T(!new)>(c: Config<T>, s: State<T>, a: Action<T>)
    requires Inv(c, s) && Enabled(c, s, a) && !a.Launch?
    ensures 0 <= Remaining(c, Apply(c, s, a), a.b) < Remaining(c, s, a.b) <= c.Cells() + 6
    ensures forall b :: 0 <= b < c.n && b != a.b ==> Remaining(c, Apply(c, s, a), b) == Remaining(c, s, b)
  {
    BelowSize(c.Cells());
    assert PartialPlaced(c, s, a.b);
    StepIsLocal(c, s, a);
    hide Delivered, Sum, Cell, Tickets, AssociativeCommutative, AtomicInc, Join;
    if s.pc[a.b].Folding? {
      assert FoldingIsLast(c, s, a.b);
      Subset(s.pc[a.b].read, Below(c.Cells()));
      if a.Read? {
        Subset(s.pc[a.b].read + {a.i}, Below(c.Cells()));
      }
    }
  }
}
