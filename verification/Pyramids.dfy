/** Recursive traversal of image pyramids (dsl/pyramid.hpp): two global stacks, levels that move
    down and up with the recursion, and pyramids bound to at most one traversal. */
module Pyramids {

  /** What a traversal function does, as far as pyramids are concerned. */
  datatype Action =
    | Work(id: nat)
    | Traverse(loop: nat, between: seq<Action>)         // traverse(loop, between)
    | TraverseNew(pyrs: seq<nat>, body: seq<Action>)    // traverse(pyramids, body)

  type Program = seq<Action>

  /** The function on top of the stack was called, or work was done, inside the traversal of
      these pyramids, which were at these levels. */
  datatype Event = Called(pyrs: seq<nat>, levels: seq<int>) | Worked(id: nat, pyrs: seq<nat>, levels: seq<int>)

  function Size(p: Program): nat
    decreases p
  {
    if p == [] then 0 else
      1 + Size(p[1..]) +
      match p[0]
      case Work(_) => 0
      case Traverse(_, between) => Size(between)
      case TraverseNew(_, body) => Size(body)
  }

  /** The loop count is a size_t that Recursion::run takes as an int. */
  function LoopCount(loop: nat): nat {
    var low := loop % 0x1_0000_0000;
    if low < 0x8000_0000 then low else 0
  }

  /** Counts below 2^31 are kept, those above are negative as an int and run no round, and only
      the low 32 bits matter. */
  lemma LoopCountIs(loop: nat)
    ensures loop < 0x8000_0000 ==> LoopCount(loop) == loop
    ensures 0x8000_0000 <= loop < 0x1_0000_0000 ==> LoopCount(loop) == 0
    ensures LoopCount(loop + 0x1_0000_0000) == LoopCount(loop)
  {
  }

  /** Every new traversal names at least one pyramid, among n of them. */
  predicate Names(n: nat, p: Program)
    decreases p
  {
    p != [] ==>
      Names(n, p[1..]) &&
      match p[0]
      case Work(_) => true
      case Traverse(_, between) => Names(n, between)
      case TraverseNew(pyrs, body) => InList(n, pyrs) && Names(n, body)
  }

  predicate InList(n: nat, pyrs: seq<nat>) { pyrs != [] && forall i :: 0 <= i < |pyrs| ==> pyrs[i] < n }

  predicate Distinct(pyrs: seq<nat>) { forall i, j :: 0 <= i < j < |pyrs| ==> pyrs[i] != pyrs[j] }

  function Members(pyrs: seq<nat>): set<nat> { set q | q in pyrs }

  /** What adding the pyramids to a new traversal asserts. */
  predicate Bindable(depths: seq<nat>, bound: set<nat>, pyrs: seq<nat>)
    requires InList(|depths|, pyrs)
  {
    Distinct(pyrs) && forall i :: 0 <= i < |pyrs| ==> pyrs[i] !in bound && depths[pyrs[i]] == depths[pyrs[0]]
  }

  /** No pyramid is bound twice and pyramids bound together have one depth: what the assertions
      ask for, on every path. */
  predicate WellBound(depths: seq<nat>, bound: set<nat>, p: Program)
    requires Names(|depths|, p)
    decreases p
  {
    p != [] ==>
      WellBound(depths, bound, p[1..]) &&
      match p[0]
      case Work(_) => true
      case Traverse(_, between) => WellBound(depths, bound, between)
      case TraverseNew(pyrs, body) =>
        Bindable(depths, bound, pyrs) && WellBound(depths, bound + Members(pyrs), body)
  }

  predicate Positive(depths: seq<nat>) { forall i :: 0 <= i < |depths| ==> depths[i] >= 1 }

  function Uniform(n: nat, level: int): seq<int> { seq(n, i => level) }

  /** What running p shows, inside a traversal of n pyramids with this body and depth, at the
      given level. */
  ghost function Run(depths: seq<nat>, body: Program, p: Program, pyrs: seq<nat>, level: nat, depth: nat): seq<Event>
    requires level < depth && Size(p) <= Size(body)
    requires Names(|depths|, body) && Names(|depths|, p) && Positive(depths)
    decreases Size(body), depth - level, Size(p), 0
  {
    if p == [] then []
    else RunAction(depths, body, p, pyrs, level, depth) + Run(depths, body, p[1..], pyrs, level, depth)
  }

  /** The first statement of p. */
  ghost function RunAction(depths: seq<nat>, body: Program, p: Program, pyrs: seq<nat>, level: nat, depth: nat)
    : seq<Event>
    requires level < depth && Size(p) <= Size(body) && p != []
    requires Names(|depths|, body) && Names(|depths|, p) && Positive(depths)
    decreases Size(body), depth - level, Size(p) - 1, 4
  {
    match p[0]
    case Work(id) => [Worked(id, pyrs, Uniform(|pyrs|, level))]
    case Traverse(loop, between) => Descend(depths, body, loop, between, pyrs, level, depth)
    case TraverseNew(ids, inner) => CallNew(depths, ids, inner)
  }

  ghost function CallNew(depths: seq<nat>, pyrs: seq<nat>, body: Program): seq<Event>
    requires InList(|depths|, pyrs) && Names(|depths|, body) && Positive(depths)
    decreases Size(body), depths[pyrs[0]], Size(body), 2
  {
    Call(depths, body, pyrs, 0, depths[pyrs[0]])
  }

  ghost function Descend(depths: seq<nat>, body: Program, loop: nat, between: Program, pyrs: seq<nat>, level: nat,
                         depth: nat)
    : seq<Event>
    requires level < depth && Size(between) < Size(body)
    requires Names(|depths|, body) && Names(|depths|, between) && Positive(depths)
    decreases Size(body), depth - level, Size(between), 3
  {
    if level == depth - 1 then []
    else Rounds(depths, body, between, pyrs, level + 1, depth, LoopCount(loop), LoopCount(loop))
  }

  ghost function Call(depths: seq<nat>, body: Program, pyrs: seq<nat>, level: nat, depth: nat): seq<Event>
    requires level < depth && Names(|depths|, body) && Positive(depths)
    decreases Size(body), depth - level, Size(body), 1
  {
    [Called(pyrs, Uniform(|pyrs|, level))] + Run(depths, body, body, pyrs, level, depth)
  }

  /** The first k of count rounds: the body, the other function after all rounds but the last. */
  ghost function Rounds(
      depths: seq<nat>, body: Program, between: Program, pyrs: seq<nat>, level: nat, depth: nat, k: nat, count: nat)
    : seq<Event>
    requires level < depth && Size(between) <= Size(body)
    requires Names(|depths|, body) && Names(|depths|, between) && Positive(depths)
    decreases Size(body), depth - level, Size(body), 3 + k
  {
    if k == 0 then [] else
      Rounds(depths, body, between, pyrs, level, depth, k - 1, count)
      + Round(depths, body, between, pyrs, level, depth, k < count)
  }

  ghost function Round(depths: seq<nat>, body: Program, between: Program, pyrs: seq<nat>, level: nat, depth: nat,
                       more: bool)
    : seq<Event>
    requires level < depth && Size(between) <= Size(body)
    requires Names(|depths|, body) && Names(|depths|, between) && Positive(depths)
    decreases Size(body), depth - level, Size(body), 2
  {
    Call(depths, body, pyrs, level, depth) + if more then Run(depths, body, between, pyrs, level, depth) else []
  }

  lemma Associate(a: seq<Event>, b: seq<Event>, c: seq<Event>)
    ensures (a + b) + c == a + (b + c)
  {
  }

  lemma RoundsStep(
      depths: seq<nat>, body: Program, between: Program, pyrs: seq<nat>, level: nat, depth: nat, k: nat, count: nat)
    requires level < depth && Size(between) <= Size(body)
    requires Names(|depths|, body) && Names(|depths|, between) && Positive(depths)
    ensures Rounds(depths, body, between, pyrs, level, depth, 0, count) == []
    ensures Rounds(depths, body, between, pyrs, level, depth, k + 1, count) ==
      Rounds(depths, body, between, pyrs, level, depth, k, count)
      + Round(depths, body, between, pyrs, level, depth, k + 1 < count)
  {
  }

  /** n calls with something between every two of them. */
  ghost function Alternating(call: seq<Event>, between: seq<Event>, n: nat): seq<Event> {
    if n == 0 then [] else if n == 1 then call else call + between + Alternating(call, between, n - 1)
  }

  lemma {:induction false} RoundsAlternateFrom(
      depths: seq<nat>, body: Program, between: Program, pyrs: seq<nat>, level: nat, depth: nat, k: nat, count: nat)
    requires level < depth && Size(between) <= Size(body) && k < count
    requires Names(|depths|, body) && Names(|depths|, between) && Positive(depths)
    ensures var call, pause := Call(depths, body, pyrs, level, depth), Run(depths, body, between, pyrs, level, depth);
      Rounds(depths, body, between, pyrs, level, depth, k, count) + Alternating(call, pause, count - k)
      == Alternating(call, pause, count)
  {
    hide Call, Run;
    var call, pause := Call(depths, body, pyrs, level, depth), Run(depths, body, between, pyrs, level, depth);
    if k == 0 {
      assert [] + Alternating(call, pause, count) == Alternating(call, pause, count);
    } else {
      RoundsAlternateFrom(depths, body, between, pyrs, level, depth, k - 1, count);
      var sofar := Rounds(depths, body, between, pyrs, level, depth, k - 1, count);
      Associate(sofar, call + pause, Alternating(call, pause, count - k));
    }
  }

  /** The rounds of a recursion: the body every time, and the other function once between every
      two calls of it. */
  lemma RoundsAlternate(
      depths: seq<nat>, body: Program, between: Program, pyrs: seq<nat>, level: nat, depth: nat, count: nat)
    requires level < depth && Size(between) <= Size(body)
    requires Names(|depths|, body) && Names(|depths|, between) && Positive(depths)
    ensures Rounds(depths, body, between, pyrs, level, depth, count, count)
         == Alternating(Call(depths, body, pyrs, level, depth), Run(depths, body, between, pyrs, level, depth), count)
  {
    hide Call, Run;
    var call := Call(depths, body, pyrs, level, depth);
    if count > 0 {
      RoundsAlternateFrom(depths, body, between, pyrs, level, depth, count - 1, count);
      assert call + [] == call;
    }
  }

  /** traverse(loop, between): nothing at the bottom level; above it, `loop` calls one level down
      with the other function between every two, for every count an int can hold. */
  lemma DescendAlternates(
      depths: seq<nat>, body: Program, loop: nat, between: Program, pyrs: seq<nat>, level: nat, depth: nat)
    requires level < depth && Size(between) < Size(body)
    requires Names(|depths|, body) && Names(|depths|, between) && Positive(depths)
    ensures level + 1 == depth ==> Descend(depths, body, loop, between, pyrs, level, depth) == []
    ensures level + 1 < depth && loop < 0x8000_0000 ==>
      Descend(depths, body, loop, between, pyrs, level, depth)
      == Alternating(Call(depths, body, pyrs, level + 1, depth),
                     Run(depths, body, between, pyrs, level + 1, depth), loop)
    ensures 0x8000_0000 <= loop < 0x1_0000_0000 ==> Descend(depths, body, loop, between, pyrs, level, depth) == []
    ensures Descend(depths, body, loop + 0x1_0000_0000, between, pyrs, level, depth)
         == Descend(depths, body, loop, between, pyrs, level, depth)
  {
    LoopCountIs(loop);
    hide Call, Run, LoopCount, Alternating;
    if level + 1 < depth && loop < 0x8000_0000 {
      RoundsAlternate(depths, body, between, pyrs, level + 1, depth, loop);
    }
  }

  lemma {:induction false} SizeOfSuffix(p: Program, i: nat)
    requires i <= |p|
    ensures Size(p[i..]) <= Size(p) && Size(p[..i]) <= Size(p)
    decreases i
  {
    if i > 0 {
      SizeOfSuffix(p[1..], i - 1);
      assert p[1..][i - 1..] == p[i..] && p[..i][1..] == p[1..][..i - 1];
    }
  }

  lemma {:induction false} NamesOfParts(n: nat, p: Program, i: nat)
    requires i <= |p| && Names(n, p)
    ensures Names(n, p[i..]) && Names(n, p[..i])
    decreases i
  {
    hide InList;
    if i > 0 {
      var rest := p[1..];
      NamesOfParts(n, rest, i - 1);
      assert rest[i - 1..] == p[i..] && p[..i][1..] == rest[..i - 1];
      NamesOfFirst(n, p, p[..i]);
    }
  }

  lemma NamesOfFirst(n: nat, p: Program, q: Program)
    requires p != [] && q != [] && p[0] == q[0] && Names(n, p) && Names(n, q[1..])
    ensures Names(n, q)
  {
  }

  /** Statements run one after the other, each once, and work shows where it is done. */
  lemma {:induction false} RunInOrder(
      depths: seq<nat>, body: Program, p: Program, pyrs: seq<nat>, level: nat, depth: nat, i: nat)
    requires level < depth && Size(p) <= Size(body) && i <= |p|
    requires Names(|depths|, body) && Names(|depths|, p) && Positive(depths)
    ensures Size(p[..i]) <= Size(body) && Size(p[i..]) <= Size(body)
    ensures Names(|depths|, p[..i]) && Names(|depths|, p[i..])
    ensures Run(depths, body, p, pyrs, level, depth)
         == Run(depths, body, p[..i], pyrs, level, depth) + Run(depths, body, p[i..], pyrs, level, depth)
    ensures |p| == 1 && p[0].Work? ==>
      Run(depths, body, p, pyrs, level, depth) == [Worked(p[0].id, pyrs, Uniform(|pyrs|, level))]
    decreases i
  {
    SizeOfSuffix(p, i);
    NamesOfParts(|depths|, p, i);
    if i == 0 {
      assert p[0..] == p;
    } else {
      RunInOrder(depths, body, p[1..], pyrs, level, depth, i - 1);
      assert p[1..][i - 1..] == p[i..] && p[..i][1..] == p[1..][..i - 1];
      FirstStatement(depths, body, p, pyrs, level, depth, i);
      Associate(RunAction(depths, body, p, pyrs, level, depth), Run(depths, body, p[..i][1..], pyrs, level, depth),
                Run(depths, body, p[i..], pyrs, level, depth));
    }
  }

  lemma FirstStatement(
      depths: seq<nat>, body: Program, p: Program, pyrs: seq<nat>, level: nat, depth: nat, i: nat)
    requires level < depth && Size(p) <= Size(body) && 0 < i <= |p| && Size(p[..i]) <= Size(body)
    requires Names(|depths|, body) && Names(|depths|, p) && Names(|depths|, p[..i]) && Positive(depths)
    ensures RunAction(depths, body, p[..i], pyrs, level, depth) == RunAction(depths, body, p, pyrs, level, depth)
  {
    hide Descend, CallNew;
  }

  // ------------------------------------------------------- levels and bindings as values

  datatype State = State(level: int, bound: bool)

  ghost function BoundIn(ss: seq<State>): set<nat> { set i: nat | i < |ss| && ss[i].bound }

  /** A pyramid that is not bound is at level 0. */
  ghost predicate Quiet(ss: seq<State>) { forall i :: 0 <= i < |ss| ==> !ss[i].bound ==> ss[i].level == 0 }

  /** The pyramids of a traversal are bound, of one depth, and all at this level. */
  ghost predicate Together(depths: seq<nat>, ss: seq<State>, pyrs: seq<nat>, level: nat, depth: nat) {
    && |ss| == |depths| && pyrs != [] && Distinct(pyrs) && level < depth
    && forall i :: 0 <= i < |pyrs| ==>
      pyrs[i] < |ss| && depths[pyrs[i]] == depth && ss[pyrs[i]] == State(level, true)
  }

  ghost function Shift(ss: seq<State>, pyrs: set<nat>, step: int): seq<State> {
    seq(|ss|, i requires 0 <= i < |ss| => if i in pyrs then ss[i].(level := ss[i].level + step) else ss[i])
  }

  ghost function Mark(ss: seq<State>, pyrs: set<nat>, bound: bool): seq<State> {
    seq(|ss|, i requires 0 <= i < |ss| => if i in pyrs then ss[i].(bound := bound) else ss[i])
  }

  /** The two global stacks and the pyramids. */
  datatype Snapshot = Snapshot(bodies: seq<Program>, frames: seq<seq<nat>>, states: seq<State>)

  ghost predicate Consistent(depths: seq<nat>, s: Snapshot) {
    Positive(depths) && |s.bodies| == |s.frames| && |s.states| == |depths| && Quiet(s.states)
  }

  /** The innermost traversal: its pyramids, their common level and depth, and its body. */
  ghost predicate Inside(depths: seq<nat>, s: Snapshot, pyrs: seq<nat>, level: nat, depth: nat, body: Program) {
    && Consistent(depths, s) && s.frames != []
    && s.frames[|s.frames| - 1] == pyrs && s.bodies[|s.bodies| - 1] == body
    && Together(depths, s.states, pyrs, level, depth) && Names(|depths|, body)
  }

  ghost predicate Allowed(depths: seq<nat>, s: Snapshot, p: Program) {
    Names(|depths|, p) && WellBound(depths, BoundIn(s.states), p)
  }

  lemma OneLevelDown(depths: seq<nat>, s: Snapshot, pyrs: seq<nat>, level: nat, depth: nat, body: Program)
    requires Inside(depths, s, pyrs, level, depth, body) && level + 1 < depth
    ensures var down := s.(states := Shift(s.states, Members(pyrs), 1));
      && Inside(depths, down, pyrs, level + 1, depth, body) && BoundIn(down.states) == BoundIn(s.states)
      && Shift(down.states, Members(pyrs), -1) == s.states
    ensures Distinct(pyrs) && InList(|depths|, pyrs)
  {
    ShiftTogether(depths, s.states, pyrs, level, depth);
  }

  lemma ShiftTogether(depths: seq<nat>, ss: seq<State>, pyrs: seq<nat>, level: nat, depth: nat)
    requires Together(depths, ss, pyrs, level, depth) && Quiet(ss) && level + 1 < depth
    ensures var down := Shift(ss, Members(pyrs), 1);
      && Together(depths, down, pyrs, level + 1, depth) && Quiet(down) && BoundIn(down) == BoundIn(ss)
      && Shift(down, Members(pyrs), -1) == ss
  {
  }

  lemma BindFresh(depths: seq<nat>, ss: seq<State>, pyrs: seq<nat>)
    requires |ss| == |depths| && Quiet(ss) && InList(|depths|, pyrs) && depths[pyrs[0]] >= 1
    requires Bindable(depths, BoundIn(ss), pyrs)
    ensures var marked := Mark(ss, Members(pyrs), true);
      && Together(depths, marked, pyrs, 0, depths[pyrs[0]]) && Quiet(marked)
      && BoundIn(marked) == BoundIn(ss) + Members(pyrs)
      && Mark(marked, Members(pyrs), false) == ss
  {
    var marked := Mark(ss, Members(pyrs), true);
    forall i | 0 <= i < |pyrs| ensures marked[pyrs[i]] == State(0, true) { assert pyrs[i] !in BoundIn(ss); }
    forall k | 0 <= k < |ss| && k in Members(pyrs) ensures !ss[k].bound {
      var i :| 0 <= i < |pyrs| && pyrs[i] == k;
      assert pyrs[i] !in BoundIn(ss);
    }
  }

  lemma InsideParts(depths: seq<nat>, s: Snapshot, pyrs: seq<nat>, level: nat, depth: nat, body: Program)
    requires Inside(depths, s, pyrs, level, depth, body)
    ensures level < depth && Names(|depths|, body) && Positive(depths)
  {
  }

  ghost function Opened(s: Snapshot, pyrs: seq<nat>, body: Program): Snapshot {
    Snapshot(s.bodies + [body], s.frames + [pyrs], Mark(s.states, Members(pyrs), true))
  }

  /** Entering a new traversal. */
  lemma EnterTraversal(depths: seq<nat>, s: Snapshot, pyrs: seq<nat>, body: Program)
    requires Consistent(depths, s) && InList(|depths|, pyrs) && Names(|depths|, body)
    requires Bindable(depths, BoundIn(s.states), pyrs)
    ensures var inner := Opened(s, pyrs, body);
      && Inside(depths, inner, pyrs, 0, depths[pyrs[0]], body)
      && BoundIn(inner.states) == BoundIn(s.states) + Members(pyrs)
      && Mark(inner.states, Members(pyrs), false) == s.states
  {
    BindFresh(depths, s.states, pyrs);
  }

  // ------------------------------------------------------------------ the classes

  class PyramidBase {
    const depth: nat
    var level: int
    var bound: bool

    constructor (depth: nat)
      ensures this.depth == depth && level == 0 && !bound
    {
      this.depth := depth;
      level, bound := 0, false;
    }

    method Bind() returns (ok: bool)
      modifies this
      ensures ok == !old(bound) && bound && level == if ok then 0 else old(level)
    {
      ok := !bound;
      if !bound {
        bound := true;
        level := 0;
      }
    }

    predicate IsBottomLevel()
      reads this
    {
      level == depth - 1
    }
  }

  class Traversals {
    const pyramids: seq<PyramidBase>   // pointers to pyramids are indices into this list
    var gTraverse: seq<Program>
    var gPyramids: seq<seq<nat>>
    var trace: seq<Event>

    ghost function Depths(): seq<nat> {
      seq(|pyramids|, i requires 0 <= i < |pyramids| => pyramids[i].depth)
    }

    ghost function States(): seq<State>
      reads pyramids
    {
      seq(|pyramids|, i requires 0 <= i < |pyramids| reads pyramids => State(pyramids[i].level, pyramids[i].bound))
    }

    ghost function Snap(): Snapshot
      reads this`gTraverse, this`gPyramids, pyramids
    {
      Snapshot(gTraverse, gPyramids, States())
    }

    /** The pyramids are different objects. */
    ghost predicate Separate() { forall i, j :: 0 <= i < j < |pyramids| ==> pyramids[i] != pyramids[j] }

    /** The innermost traversal's pyramids and their levels. */
    method LevelsOfTop(ghost pyrs: seq<nat>, ghost level: nat, ghost depth: nat, ghost body: Program)
      returns (frame: seq<nat>, levels: seq<int>)
      requires Inside(Depths(), Snap(), pyrs, level, depth, body)
      ensures frame == pyrs && levels == Uniform(|pyrs|, level)
      ensures OneLevel(Depths(), Called(frame, levels)) && forall id :: OneLevel(Depths(), Worked(id, frame, levels))
    {
      frame := gPyramids[|gPyramids| - 1];
      levels := [];
      var i := 0;
      while i < |frame|
        invariant i <= |frame| && levels == Uniform(i, level)
      {
        assert States()[frame[i]] == State(level, true);
        levels := levels + [pyramids[frame[i]].level];
        i := i + 1;
      }
    }

    /** One call of the function on top of the stack. */
    method CallTop(ghost pyrs: seq<nat>, ghost level: nat, ghost depth: nat, ghost body: Program) returns (ok: bool)
      requires Separate() && Inside(Depths(), Snap(), pyrs, level, depth, body)
      requires OneLevels(Depths(), trace)
      modifies this, pyramids
      ensures OneLevels(Depths(), trace)
      ensures ok ==> Snap() == old(Snap()) && trace == old(trace) + Call(Depths(), body, pyrs, level, depth)
      ensures Allowed(Depths(), old(Snap()), body) ==> ok
      decreases Size(body), depth - level, Size(body), 1
    {
      var frame, levels := LevelsOfTop(pyrs, level, depth, body);
      trace := trace + [Called(frame, levels)];
      ok := RunProgram(gTraverse[|gTraverse| - 1], pyrs, level, depth, body);
    }

    /** The statements of a function, one after the other; false when an assertion stops the
        program. */
    method RunProgram(p: Program, ghost pyrs: seq<nat>, ghost level: nat, ghost depth: nat, ghost body: Program)
      returns (ok: bool)
      requires Separate() && Inside(Depths(), Snap(), pyrs, level, depth, body)
      requires Names(|Depths()|, p) && Size(p) <= Size(body)
      requires OneLevels(Depths(), trace)
      modifies this, pyramids
      ensures OneLevels(Depths(), trace)
      ensures ok ==> Snap() == old(Snap()) && trace == old(trace) + Run(Depths(), body, p, pyrs, level, depth)
      ensures Allowed(Depths(), old(Snap()), body) && Allowed(Depths(), old(Snap()), p) ==> ok
      decreases Size(body), depth - level, Size(p), 0
    {
      ok := true;
      if p != [] {
        ok := Step(p[0], p, pyrs, level, depth, body);
        if ok {
          ok := RunProgram(p[1..], pyrs, level, depth, body);
        }
      }
    }

    method Step(a: Action, ghost p: Program, ghost pyrs: seq<nat>, ghost level: nat, ghost depth: nat,
        ghost body: Program)
      returns (ok: bool)
      requires Separate() && Inside(Depths(), Snap(), pyrs, level, depth, body)
      requires Names(|Depths()|, p) && Size(p) <= Size(body) && p != [] && p[0] == a
      requires OneLevels(Depths(), trace)
      modifies this, pyramids
      ensures OneLevels(Depths(), trace)
      ensures ok ==> Snap() == old(Snap()) && trace == old(trace) + RunAction(Depths(), body, p, pyrs, level, depth)
      ensures Allowed(Depths(), old(Snap()), body) && Allowed(Depths(), old(Snap()), p) ==> ok
      decreases Size(body), depth - level, Size(p) - 1, 3
    {
      hide Snap, Run, Call, Rounds, OneLevel;
      match a {
        case Work(id) =>
          var frame, levels := LevelsOfTop(pyrs, level, depth, body);
          trace := trace + [Worked(id, frame, levels)];
          ok := true;
        case Traverse(loop, between) =>
          ok := TraverseDown(loop, between, pyrs, level, depth, body);
        case TraverseNew(ids, inner) =>
          ok := TraverseAll(ids, inner);
      }
    }

    /** traverse(loop, between): one level down, unless at the bottom. */
    method TraverseDown(loop: nat, between: Program, ghost pyrs: seq<nat>, ghost level: nat, ghost depth: nat,
        ghost body: Program)
      returns (ok: bool)
      requires Separate() && Inside(Depths(), Snap(), pyrs, level, depth, body)
      requires Names(|Depths()|, between) && Size(between) < Size(body)
      requires OneLevels(Depths(), trace)
      modifies this, pyramids
      ensures OneLevels(Depths(), trace)
      ensures ok ==> Snap() == old(Snap())
      ensures ok ==> trace == old(trace) + Descend(Depths(), body, loop, between, pyrs, level, depth)
      ensures Allowed(Depths(), old(Snap()), body) && Allowed(Depths(), old(Snap()), between) ==> ok
      decreases Size(body), depth - level, Size(between), 2
    {
      hide Snap, States, Separate, Rounds, OneLevels;
      ok := true;
      var bottom := AtBottom(pyrs, level, depth, body);
      if !bottom {
        ok := DescendInto(LoopCount(loop), between, pyrs, level, depth, body);
      }
    }

    /** The lifetime of a Recursion: one level down, the rounds, one level up. */
    method DescendInto(count: nat, between: Program, ghost pyrs: seq<nat>, ghost level: nat, ghost depth: nat,
        ghost body: Program)
      returns (ok: bool)
      requires Separate() && Inside(Depths(), Snap(), pyrs, level, depth, body) && level + 1 < depth
      requires Names(|Depths()|, between) && Size(between) <= Size(body)
      requires OneLevels(Depths(), trace)
      modifies this, pyramids
      ensures OneLevels(Depths(), trace)
      ensures ok ==>
        && Snap() == old(Snap())
        && trace == old(trace) + Rounds(Depths(), body, between, pyrs, level + 1, depth, count, count)
      ensures Allowed(Depths(), old(Snap()), body) && Allowed(Depths(), old(Snap()), between) ==> ok
      decreases Size(body), depth - level, Size(between), 1
    {
      OneLevelDown(Depths(), Snap(), pyrs, level, depth, body);
      hide States, Depths, Separate, Shift, BoundIn, Members, Quiet, Names, WellBound, Run, Call, Rounds, Size,
          Distinct, Together, OneLevels;
      ghost var before := Snap();
      ChangeLevels(1, pyrs);
      ghost var down := Snap();
      assert down == before.(states := Shift(before.states, Members(pyrs), 1));
      ok := RepeatBody(count, between, pyrs, level + 1, depth, body);
      if ok {
        assert Snap() == down;
        ChangeLevels(-1, pyrs);
      }
    }

    /** Is the first pyramid of the innermost traversal at its bottom level? */
    method AtBottom(ghost pyrs: seq<nat>, ghost level: nat, ghost depth: nat,
        ghost body: Program) returns (bottom: bool)
      requires Inside(Depths(), Snap(), pyrs, level, depth, body)
      ensures (bottom <==> level == depth - 1) && level < depth
    {
      var frame := gPyramids[|gPyramids| - 1];
      assert States()[frame[0]] == State(level, true);
      bottom := pyramids[frame[0]].IsBottomLevel();
    }

    /** The body, and the other function unless it was the last round. */
    method OneRound(more: bool, between: Program, ghost pyrs: seq<nat>, ghost level: nat, ghost depth: nat,
        ghost body: Program)
      returns (ok: bool)
      requires Separate() && Inside(Depths(), Snap(), pyrs, level, depth, body)
      requires Names(|Depths()|, between) && Size(between) <= Size(body)
      requires OneLevels(Depths(), trace)
      modifies this, pyramids
      ensures OneLevels(Depths(), trace)
      ensures ok ==> Snap() == old(Snap())
      ensures ok ==> trace == old(trace) + Round(Depths(), body, between, pyrs, level, depth, more)
      ensures Allowed(Depths(), old(Snap()), body) && Allowed(Depths(), old(Snap()), between) ==> ok
      decreases Size(body), depth - level, Size(body), 2
    {
      hide Snap, Depths, Run, Call, Names, Allowed, Size, Separate, Positive, OneLevels;
      ok := CallTop(pyrs, level, depth, body);
      if ok && more {
        ok := RunProgram(between, pyrs, level, depth, body);
      }
    }

    /** Recursion::run. */
    method RepeatBody(count: nat, between: Program, ghost pyrs: seq<nat>, ghost level: nat, ghost depth: nat,
        ghost body: Program)
      returns (ok: bool)
      requires Separate() && Inside(Depths(), Snap(), pyrs, level, depth, body)
      requires Names(|Depths()|, between) && Size(between) <= Size(body)
      requires OneLevels(Depths(), trace)
      modifies this, pyramids
      ensures OneLevels(Depths(), trace)
      ensures ok ==> Snap() == old(Snap())
      ensures ok ==> trace == old(trace) + Rounds(Depths(), body, between, pyrs, level, depth, count, count)
      ensures Allowed(Depths(), old(Snap()), body) && Allowed(Depths(), old(Snap()), between) ==> ok
      decreases Size(body), depth - level, Size(body), 3
    {
      ok := true;
      var i := 0;
      InsideParts(Depths(), Snap(), pyrs, level, depth, body);
      RoundsStep(Depths(), body, between, pyrs, level, depth, 0, count);
      ghost var snap, shown := Snap(), trace;
      hide Snap, Inside, Depths, Round, Rounds, Names, Allowed, Size, Separate, Positive, OneLevels;
      while i < count
        invariant i <= count && Snap() == snap && OneLevels(Depths(), trace)
        invariant trace == shown + Rounds(Depths(), body, between, pyrs, level, depth, i, count)
      {
        RoundsStep(Depths(), body, between, pyrs, level, depth, i, count);
        Associate(shown, Rounds(Depths(), body, between, pyrs, level, depth, i, count),
          Round(Depths(), body, between, pyrs, level, depth, i + 1 < count));
        ok := OneRound(i < count - 1, between, pyrs, level, depth, body);
        if !ok { return; }
        i := i + 1;
      }
    }

    /** Recursion's constructor (1) and destructor (-1). */
    method ChangeLevels(step: int, ghost pyrs: seq<nat>)
      requires Separate() && gPyramids != [] && gPyramids[|gPyramids| - 1] == pyrs
      requires Distinct(pyrs) && InList(|Depths()|, pyrs)
      modifies pyramids
      ensures States() == Shift(old(States()), Members(pyrs), step)
    {
      hide Members, Distinct, Shift;
      var frame := gPyramids[|gPyramids| - 1];
      ghost var before, done: set<nat> := States(), {};
      MembersMore(frame, 0);
      var i := 0;
      while i < |frame|
        invariant i <= |frame| && done == Members(frame[..i])
        invariant forall k :: 0 <= k < |pyramids| ==>
          && pyramids[k].level == old(pyramids[k].level) + (if k in done then step else 0)
          && pyramids[k].bound == old(pyramids[k].bound)
      {
        MembersMore(frame, i);
        var p := pyramids[frame[i]];
        p.level := p.level + step;
        done := done + {frame[i]};
        i := i + 1;
      }
      assert frame[..i] == frame;
      ShiftIs(before, States(), done, step);
    }

    /** traverse(pyramids, body): binds the pyramids at level 0, runs the body, unbinds them. */
    method TraverseAll(ids: seq<nat>, body: Program) returns (ok: bool)
      requires Separate() && Consistent(Depths(), Snap()) && InList(|Depths()|, ids) && Names(|Depths()|, body)
      requires OneLevels(Depths(), trace)
      modifies this, pyramids
      ensures OneLevels(Depths(), trace)
      ensures ok ==> Snap() == old(Snap()) && trace == old(trace) + CallNew(Depths(), ids, body)
      ensures ok ==> Bindable(Depths(), BoundIn(old(Snap()).states), ids)
      ensures
        (&& Bindable(Depths(), BoundIn(old(Snap()).states), ids)
         && WellBound(Depths(), BoundIn(old(Snap()).states) + Members(ids), body))
        ==> ok
      decreases Size(body), Depths()[ids[0]], Size(body), 2
    {
      ghost var depth := Depths()[ids[0]];
      hide Snap, States, Depths, Mark, Inside, Bindable, Run, Call, Names, WellBound, Size, Separate, InList,
          Consistent, OneLevels;
      ok := OpenTraversal(ids, body);
      if !ok { return; }
      ok := CallTop(ids, 0, depth, body);
      if !ok { return; }
      CloseTraversal(ids, body, old(Snap()));
    }

    /** Binds the pyramids and pushes both stacks. */
    method OpenTraversal(ids: seq<nat>, body: Program) returns (ok: bool)
      requires Separate() && Consistent(Depths(), Snap()) && InList(|Depths()|, ids) && Names(|Depths()|, body)
      modifies pyramids, this`gTraverse, this`gPyramids
      ensures ok <==> Bindable(Depths(), BoundIn(old(Snap()).states), ids)
      ensures ok ==> Snap() == Opened(old(Snap()), ids, body)
      ensures ok ==> Inside(Depths(), Snap(), ids, 0, Depths()[ids[0]], body)
      ensures ok ==> BoundIn(Snap().states) == BoundIn(old(Snap()).states) + Members(ids)
    {
      ghost var before := Snap();
      ok := BindAll(ids);
      if !ok { return; }
      EnterTraversal(Depths(), before, ids, body);
      hide States, Depths, Mark, BoundIn, Members, Inside, Bindable, Names;
      gPyramids := gPyramids + [ids];
      gTraverse := gTraverse + [body];
      assert Snap() == Opened(before, ids, body);
    }

    /** Pops both stacks and unbinds the pyramids. */
    method CloseTraversal(ids: seq<nat>, ghost body: Program, ghost before: Snapshot)
      requires Separate() && Consistent(Depths(), before) && InList(|Depths()|, ids) && Names(|Depths()|, body)
      requires Bindable(Depths(), BoundIn(before.states), ids) && Snap() == Opened(before, ids, body)
      modifies pyramids, this`gTraverse, this`gPyramids
      ensures Snap() == before
    {
      EnterTraversal(Depths(), before, ids, body);
      hide States, Depths, Mark, BoundIn, Members, Inside, Bindable, Names;
      gTraverse := gTraverse[..|gTraverse| - 1];
      gPyramids := gPyramids[..|gPyramids| - 1];
      UnbindAll(ids);
    }

    /** The depth and binding assertions, in the order the pyramids are added. */
    method BindAll(ids: seq<nat>) returns (ok: bool)
      requires Separate() && Quiet(States()) && InList(|Depths()|, ids)
      modifies pyramids
      ensures ok <==> Bindable(Depths(), old(BoundIn(States())), ids)
      ensures ok ==> States() == Mark(old(States()), Members(ids), true)
    {
      hide Members, Distinct, Bindable;
      ghost var bound, done: set<nat> := BoundIn(States()), {};
      AddNone(Depths(), bound, ids);
      assert forall k :: 0 <= k < |pyramids| ==> States()[k] == State(pyramids[k].level, pyramids[k].bound);
      var i := 0;
      while i < |ids|
        invariant i <= |ids| && done == Members(ids[..i]) && Added(Depths(), bound, ids, i)
        invariant forall k :: 0 <= k < |pyramids| ==>
          && pyramids[k].level == old(pyramids[k].level) && pyramids[k].bound == (k in bound + done)
          && (!pyramids[k].bound ==> pyramids[k].level == 0)
      {
        AddOne(Depths(), bound, ids, i);
        if i < |ids| - 1 && pyramids[ids[i]].depth != pyramids[ids[i + 1]].depth { return false; }
        ok := pyramids[ids[i]].Bind();
        if !ok { return; }
        done := done + {ids[i]};
        i := i + 1;
      }
      assert ids[..i] == ids;
      MarkIs(old(States()), States(), done, true);
      AddAll(Depths(), bound, ids);
      return true;
    }

    method UnbindAll(ids: seq<nat>)
      requires Separate() && InList(|Depths()|, ids)
      modifies pyramids
      ensures States() == Mark(old(States()), Members(ids), false)
    {
      ghost var done: set<nat> := {};
      var i := 0;
      while i < |ids|
        invariant i <= |ids| && done == Members(ids[..i])
        invariant forall k :: 0 <= k < |pyramids| ==>
          pyramids[k].level == old(pyramids[k].level) && pyramids[k].bound == (old(pyramids[k].bound) && k !in done)
      {
        MembersMore(ids, i);
        pyramids[ids[i]].bound := false;
        done := done + {ids[i]};
        i := i + 1;
      }
      assert ids[..i] == ids;
    }
  }

  lemma ShiftIs(before: seq<State>, after: seq<State>, pyrs: set<nat>, step: int)
    requires |before| == |after|
    requires forall k :: 0 <= k < |before| ==>
      after[k] == State(before[k].level + (if k in pyrs then step else 0), before[k].bound)
    ensures after == Shift(before, pyrs, step)
  {
  }

  /** The first i pyramids pass the assertions, and the next one has their depth. */
  ghost predicate Added(depths: seq<nat>, bound: set<nat>, pyrs: seq<nat>, i: nat)
    requires InList(|depths|, pyrs) && i <= |pyrs|
  {
    && (forall j :: 0 <= j < i ==> pyrs[j] !in bound && pyrs[j] !in pyrs[..j])
    && forall j :: 0 <= j <= i && j < |pyrs| ==> depths[pyrs[j]] == depths[pyrs[0]]
  }

  lemma AddNone(depths: seq<nat>, bound: set<nat>, pyrs: seq<nat>)
    requires InList(|depths|, pyrs)
    ensures Added(depths, bound, pyrs, 0) && Members(pyrs[..0]) == {}
  {
  }

  lemma AddOne(depths: seq<nat>, bound: set<nat>, pyrs: seq<nat>, i: nat)
    requires InList(|depths|, pyrs) && i < |pyrs| && Added(depths, bound, pyrs, i)
    ensures pyrs[i] < |depths| && Members(pyrs[..i + 1]) == Members(pyrs[..i]) + {pyrs[i]}
    ensures i + 1 < |pyrs| ==> pyrs[i + 1] < |depths|
    ensures i + 1 < |pyrs| && depths[pyrs[i]] != depths[pyrs[i + 1]] ==> !Bindable(depths, bound, pyrs)
    ensures pyrs[i] in bound + Members(pyrs[..i]) ==> !Bindable(depths, bound, pyrs)
    ensures pyrs[i] !in bound + Members(pyrs[..i]) && (i + 1 < |pyrs| ==> depths[pyrs[i]] == depths[pyrs[i + 1]]) ==>
      Added(depths, bound, pyrs, i + 1)
  {
    MembersMore(pyrs, i);
    assert pyrs[i] in pyrs[..i] <==> pyrs[i] in Members(pyrs[..i]);
  }

  lemma AddAll(depths: seq<nat>, bound: set<nat>, pyrs: seq<nat>)
    requires InList(|depths|, pyrs) && Added(depths, bound, pyrs, |pyrs|)
    ensures Bindable(depths, bound, pyrs)
  {
    forall i, j | 0 <= i < j < |pyrs| ensures pyrs[i] != pyrs[j] { assert pyrs[..j][i] == pyrs[i]; }
  }

  lemma MarkIs(before: seq<State>, after: seq<State>, pyrs: set<nat>, bound: bool)
    requires |before| == |after|
    requires forall k :: 0 <= k < |before| ==>
      after[k] == State(before[k].level, if k in pyrs then bound else before[k].bound)
    ensures after == Mark(before, pyrs, bound)
  {
  }

  lemma MembersMore(pyrs: seq<nat>, i: nat)
    requires i < |pyrs|
    ensures Members(pyrs[..i + 1]) == Members(pyrs[..i]) + {pyrs[i]}
    ensures Distinct(pyrs) ==> pyrs[i] !in Members(pyrs[..i])
    ensures Members(pyrs[..0]) == {}
  {
    assert pyrs[..i + 1] == pyrs[..i] + [pyrs[i]];
  }

  // ---------------------------------------------------------------- how often, and where

  /** How often the body is called with all n pyramids at level l. */
  ghost function CallsAt(trace: seq<Event>, pyrs: seq<nat>, l: nat): nat {
    if trace == [] then 0
    else
      CallsAt(trace[..|trace| - 1], pyrs, l) + if trace[|trace| - 1] == Called(pyrs, Uniform(|pyrs|, l)) then 1 else 0
  }

  lemma {:induction false} CallsOfBoth(a: seq<Event>, b: seq<Event>, pyrs: seq<nat>, l: nat)
    ensures CallsAt(a + b, pyrs, l) == CallsAt(a, pyrs, l) + CallsAt(b, pyrs, l)
    decreases |b|
  {
    if b == [] {
      assert a + b == a;
    } else {
      CallsOfBoth(a, b[..|b| - 1], pyrs, l);
      assert (a + b)[..|a + b| - 1] == a + b[..|b| - 1];
    }
  }

  predicate Flat(p: Program) { forall i :: 0 <= i < |p| ==> p[i].Work? }

  /** Only work and recursive calls, with nothing but work between rounds. */
  predicate Plain(p: Program) {
    forall i :: 0 <= i < |p| ==> p[i].Work? || (p[i].Traverse? && Flat(p[i].between))
  }

  function RoundsOf(a: Action): nat { if a.Traverse? then LoopCount(a.loop) else 0 }

  /** Recursive rounds of one call of p. */
  function Fan(p: Program): nat { if p == [] then 0 else RoundsOf(p[0]) + Fan(p[1..]) }

  function Pow(b: nat, e: nat): nat { if e == 0 then 1 else b * Pow(b, e - 1) }

  lemma {:induction false} FlatCalls(
      depths: seq<nat>, body: Program, p: Program, pyrs: seq<nat>, level: nat, depth: nat, l: nat)
    requires level < depth && Size(p) <= Size(body) && Flat(p)
    requires Names(|depths|, body) && Names(|depths|, p) && Positive(depths)
    ensures CallsAt(Run(depths, body, p, pyrs, level, depth), pyrs, l) == 0
    decreases |p|
  {
    if p != [] {
      FlatCalls(depths, body, p[1..], pyrs, level, depth, l);
      var first := RunAction(depths, body, p, pyrs, level, depth);
      assert first[..|first| - 1] == [];
      CallsOfBoth(first, Run(depths, body, p[1..], pyrs, level, depth), pyrs, l);
    }
  }

  /** One call of a body at a level makes Fan^(l - level) calls at every level l below it. */
  lemma {:induction false} CallsOfCall(depths: seq<nat>, body: Program, pyrs: seq<nat>, level: nat, depth: nat, l: nat)
    requires level < depth && l < depth && pyrs != [] && Plain(body)
    requires Names(|depths|, body) && Positive(depths)
    ensures CallsAt(Call(depths, body, pyrs, level, depth), pyrs, l)
         == if l < level then 0 else Pow(Fan(body), l - level)
    decreases Size(body), depth - level, Size(body), 1
  {
    var first := [Called(pyrs, Uniform(|pyrs|, level))];
    CallsOfBoth(first, Run(depths, body, body, pyrs, level, depth), pyrs, l);
    assert first[..0] == [];
    assert CallsAt(first, pyrs, l) == if l == level then 1 else 0 by {
      assert Uniform(|pyrs|, level)[0] == level && Uniform(|pyrs|, l)[0] == l;
    }
    CallsOfRun(depths, body, body, pyrs, level, depth, l);
  }

  lemma {:induction false} CallsOfRun(
      depths: seq<nat>, body: Program, p: Program, pyrs: seq<nat>, level: nat, depth: nat, l: nat)
    requires level < depth && l < depth && pyrs != [] && Plain(body) && Plain(p) && Size(p) <= Size(body)
    requires Names(|depths|, body) && Names(|depths|, p) && Positive(depths)
    ensures CallsAt(Run(depths, body, p, pyrs, level, depth), pyrs, l) ==
      if l <= level then 0 else Fan(p) * Pow(Fan(body), l - level - 1)
    decreases Size(body), depth - level, Size(p), 0
  {
    hide CallsAt, Pow, RunAction, Uniform;
    if p == [] {
      NoCalls(pyrs, l);
    } else {
      CallsOfRun(depths, body, p[1..], pyrs, level, depth, l);
      CallsOfAction(depths, body, p, pyrs, level, depth, l);
      CallsOfBoth(RunAction(depths, body, p, pyrs, level, depth), Run(depths, body, p[1..], pyrs, level, depth),
                  pyrs, l);
      if l > level { Distribute(RoundsOf(p[0]), Fan(p[1..]), Pow(Fan(body), l - level - 1)); }
    }
  }

  lemma NoCalls(pyrs: seq<nat>, l: nat)
    ensures CallsAt([], pyrs, l) == 0
  {
  }

  lemma CallsOfAction(depths: seq<nat>, body: Program, p: Program, pyrs: seq<nat>, level: nat, depth: nat, l: nat)
    requires level < depth && l < depth && pyrs != [] && Plain(body) && Plain(p) && p != [] && Size(p) <= Size(body)
    requires Names(|depths|, body) && Names(|depths|, p) && Positive(depths)
    ensures CallsAt(RunAction(depths, body, p, pyrs, level, depth), pyrs, l) ==
      if l <= level then 0 else RoundsOf(p[0]) * Pow(Fan(body), l - level - 1)
    decreases Size(body), depth - level, Size(p) - 1, 4
  {
    hide Run, Rounds, Pow;
    var first := RunAction(depths, body, p, pyrs, level, depth);
    if p[0].Work? {
      assert first[..|first| - 1] == [];
    } else if level + 1 < depth {
      var count := LoopCount(p[0].loop);
      CallsOfRounds(depths, body, p[0].between, pyrs, level + 1, depth, l, count, count);
    }
  }

  lemma Distribute(a: nat, b: nat, c: nat)
    ensures (a + b) * c == a * c + b * c
  {
  }

  lemma {:induction false} CallsOfRounds(
      depths: seq<nat>, body: Program, between: Program, pyrs: seq<nat>, level: nat, depth: nat, l: nat, k: nat,
      count: nat)
    requires level < depth && l < depth && pyrs != [] && Plain(body) && Flat(between) && Size(between) <= Size(body)
    requires Names(|depths|, body) && Names(|depths|, between) && Positive(depths)
    ensures CallsAt(Rounds(depths, body, between, pyrs, level, depth, k, count), pyrs, l) ==
      if l < level then 0 else k * Pow(Fan(body), l - level)
    decreases Size(body), depth - level, Size(body), 3 + k
  {
    hide CallsAt, Pow, Run, Call, Uniform;
    NoCalls(pyrs, l);
    if k > 0 {
      CallsOfRounds(depths, body, between, pyrs, level, depth, l, k - 1, count);
      CallsOfCall(depths, body, pyrs, level, depth, l);
      FlatCalls(depths, body, between, pyrs, level, depth, l);
      CallsOfBoth(Call(depths, body, pyrs, level, depth),
        if k < count then Run(depths, body, between, pyrs, level, depth) else [], pyrs, l);
      CallsOfBoth(Rounds(depths, body, between, pyrs, level, depth, k - 1, count),
        Round(depths, body, between, pyrs, level, depth, k < count), pyrs, l);
      if l >= level { Distribute(k - 1, 1, Pow(Fan(body), l - level)); }
    }
  }

  /** A traversal whose body calls traverse(loop) once, with nothing but work between rounds,
      calls the body loop^l times at level l. */
  lemma PowerOfLoop(
      depths: seq<nat>, pyrs: seq<nat>, before: Program, loop: nat, between: Program, after: Program, l: nat)
    requires Positive(depths) && InList(|depths|, pyrs) && l < depths[pyrs[0]]
    requires Flat(before) && Flat(between) && Flat(after)
    requires Names(|depths|, before + [Traverse(loop, between)] + after)
    ensures var calls := CallsAt(CallNew(depths, pyrs, before + [Traverse(loop, between)] + after), pyrs, l);
      && (loop < 0x8000_0000 ==> calls == Pow(loop, l))
      && (0x8000_0000 <= loop < 0x1_0000_0000 ==> calls == if l == 0 then 1 else 0)
  {
    LoopCountIs(loop);
    var body := before + [Traverse(loop, between)] + after;
    FanOfOne(before, loop, between, after);
    CallsOfCall(depths, body, pyrs, 0, depths[pyrs[0]], l);
  }

  lemma {:induction false} FanOfOne(before: Program, loop: nat, between: Program, after: Program)
    requires Flat(before) && Flat(after)
    ensures Fan(before + [Traverse(loop, between)] + after) == LoopCount(loop)
    decreases |before|
  {
    var p := before + [Traverse(loop, between)] + after;
    if before == [] {
      assert p[1..] == after;
      FanOfFlat(after);
    } else {
      assert p[1..] == before[1..] + [Traverse(loop, between)] + after;
      FanOfOne(before[1..], loop, between, after);
    }
  }

  lemma {:induction false} FanOfFlat(p: Program)
    requires Flat(p)
    ensures Fan(p) == 0
  {
    if p != [] { FanOfFlat(p[1..]); }
  }

  /** The pyramids of the traversal are all at one level, each within its own depth. */
  ghost predicate OneLevel(depths: seq<nat>, e: Event) {
    && |e.levels| == |e.pyrs| > 0
    && forall i :: 0 <= i < |e.pyrs| ==>
      e.pyrs[i] < |depths| && e.levels[i] == e.levels[0] && 0 <= e.levels[i] < depths[e.pyrs[i]]
  }

  ghost predicate OneLevels(depths: seq<nat>, trace: seq<Event>) { forall e :: e in trace ==> OneLevel(depths, e) }

  predicate OfDepth(depths: seq<nat>, pyrs: seq<nat>, depth: nat) {
    pyrs != [] && forall i :: 0 <= i < |pyrs| ==> pyrs[i] < |depths| && depths[pyrs[i]] == depth
  }

  /** Every new traversal names pyramids of one depth. */
  predicate EqualDepths(depths: seq<nat>, p: Program)
    requires Names(|depths|, p)
    decreases p
  {
    p != [] ==>
      EqualDepths(depths, p[1..]) &&
      match p[0]
      case Work(_) => true
      case Traverse(_, between) => EqualDepths(depths, between)
      case TraverseNew(pyrs, body) => OfDepth(depths, pyrs, depths[pyrs[0]]) && EqualDepths(depths, body)
  }

  lemma {:induction false} WellBoundDepths(depths: seq<nat>, bound: set<nat>, p: Program)
    requires Names(|depths|, p) && WellBound(depths, bound, p)
    ensures EqualDepths(depths, p)
    decreases p
  {
    if p != [] {
      WellBoundDepths(depths, bound, p[1..]);
      match p[0]
      case Work(_) =>
      case Traverse(_, between) => WellBoundDepths(depths, bound, between);
      case TraverseNew(pyrs, body) => WellBoundDepths(depths, bound + Members(pyrs), body);
    }
  }

  /** In the specified events of a program that binds equal depths, the pyramids of a traversal
      are at one level, each above its own bottom. */
  lemma {:induction false} LevelsInRun(
      depths: seq<nat>, body: Program, p: Program, pyrs: seq<nat>, level: nat, depth: nat)
    requires level < depth && OfDepth(depths, pyrs, depth) && Size(p) <= Size(body)
    requires Names(|depths|, body) && Names(|depths|, p) && Positive(depths)
    requires EqualDepths(depths, body) && EqualDepths(depths, p)
    ensures OneLevels(depths, Run(depths, body, p, pyrs, level, depth))
    decreases Size(body), depth - level, Size(p), 0
  {
    if p != [] {
      hide OneLevel, RunAction, OfDepth;
      LevelsInRun(depths, body, p[1..], pyrs, level, depth);
      LevelsInAction(depths, body, p, pyrs, level, depth);
    }
  }

  lemma LevelsInAction(depths: seq<nat>, body: Program, p: Program, pyrs: seq<nat>, level: nat, depth: nat)
    requires level < depth && OfDepth(depths, pyrs, depth) && Size(p) <= Size(body) && p != []
    requires Names(|depths|, body) && Names(|depths|, p) && Positive(depths)
    requires EqualDepths(depths, body) && EqualDepths(depths, p)
    ensures OneLevels(depths, RunAction(depths, body, p, pyrs, level, depth))
    decreases Size(body), depth - level, Size(p) - 1, 4
  {
    hide OneLevel, Run, Rounds, Call, OfDepth;
    match p[0]
    case Work(id) => LevelShown(depths, pyrs, level, depth);
    case Traverse(loop, between) =>
      if level + 1 < depth {
        LevelsInRounds(depths, body, between, pyrs, level + 1, depth, LoopCount(loop), LoopCount(loop));
      }
    case TraverseNew(ids, inner) => LevelsInCall(depths, inner, ids, 0, depths[ids[0]]);
  }

  lemma LevelShown(depths: seq<nat>, pyrs: seq<nat>, level: nat, depth: nat)
    requires level < depth && OfDepth(depths, pyrs, depth)
    ensures forall id :: OneLevel(depths, Worked(id, pyrs, Uniform(|pyrs|, level)))
    ensures OneLevel(depths, Called(pyrs, Uniform(|pyrs|, level)))
  {
  }

  lemma LevelsInCall(depths: seq<nat>, body: Program, pyrs: seq<nat>, level: nat, depth: nat)
    requires level < depth && OfDepth(depths, pyrs, depth)
    requires Names(|depths|, body) && Positive(depths) && EqualDepths(depths, body)
    ensures OneLevels(depths, Call(depths, body, pyrs, level, depth))
    decreases Size(body), depth - level, Size(body), 1
  {
    LevelsInRun(depths, body, body, pyrs, level, depth);
    LevelShown(depths, pyrs, level, depth);
  }

  lemma {:induction false} LevelsInRounds(
      depths: seq<nat>, body: Program, between: Program, pyrs: seq<nat>, level: nat, depth: nat, k: nat, count: nat)
    requires level < depth && OfDepth(depths, pyrs, depth) && Size(between) <= Size(body)
    requires Names(|depths|, body) && Names(|depths|, between) && Positive(depths)
    requires EqualDepths(depths, body) && EqualDepths(depths, between)
    ensures OneLevels(depths, Rounds(depths, body, between, pyrs, level, depth, k, count))
    decreases Size(body), depth - level, Size(body), 3 + k
  {
    if k > 0 {
      LevelsInRounds(depths, body, between, pyrs, level, depth, k - 1, count);
      LevelsInCall(depths, body, pyrs, level, depth);
      LevelsInRun(depths, body, between, pyrs, level, depth);
    }
  }
}
