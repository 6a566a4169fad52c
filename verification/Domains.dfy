/** Domains, their iterators and the fold over them: the DSL's own meaning of
    `reduce(domain, mode, lambda)` and `convolve(mask, mode, lambda)` (dsl/mask.hpp,
    dsl/iterationspace.hpp, dsl/kernel.hpp). */
module Domains {
  import opened Launch

  // ------------------------------------------------------------------ enumeration

  /** The next defined cell after linear position p, or the number of cells. */
  ghost function NextDefined(cells: seq<nat>, p: int): (q: int)
    requires -1 <= p < |cells|
    ensures p < q <= |cells|
    ensures q < |cells| ==> cells[q] != 0
    ensures forall k :: p < k < q ==> cells[k] == 0
    decreases |cells| - p
  {
    if p + 1 == |cells| || cells[p + 1] != 0 then p + 1 else NextDefined(cells, p + 1)
  }

  type Cell = (nat, nat)

  /** The defined cells from linear position p on, in row-major order, as (x, y). */
  ghost function DefinedFrom(cells: seq<nat>, width: nat, p: nat): seq<Cell>
    requires width >= 1
    decreases |cells| - p
  {
    if p >= |cells| then [] else (if cells[p] != 0 then [CellAt(width, p)] else []) + DefinedFrom(cells, width, p + 1)
  }

  function CellAt(width: nat, p: nat): Cell
    requires width >= 1
  {
    BelowFloor(-1, p, width);
    (p % width, p / width)
  }

  /** The cells still to come after the linear position q of the current one. */
  ghost function DefinedRest(cells: seq<nat>, width: nat, q: nat): seq<Cell>
    requires width >= 1
  {
    if q < |cells| then [CellAt(width, q)] + DefinedFrom(cells, width, q + 1) else []
  }

  /** Undefined cells contribute nothing, so enumeration may jump to the next defined one. */
  lemma {:induction false} DefinedSkips(cells: seq<nat>, width: nat, p: int)
    requires width >= 1 && -1 <= p < |cells|
    ensures DefinedFrom(cells, width, p + 1) == DefinedRest(cells, width, NextDefined(cells, p))
    decreases |cells| - p
  {
    hide CellAt;
    if p + 1 < |cells| && cells[p + 1] == 0 {
      DefinedSkips(cells, width, p + 1);
    }
  }

  /** Linear position of a cell. */
  function PositionOf(width: nat, c: Cell): nat {
    MulMono(0, c.1, width);
    Start(c.1, width) + c.0
  }

  lemma PositionOfCellAt(width: nat, p: nat)
    requires width >= 1
    ensures CellAt(width, p).0 < width && PositionOf(width, CellAt(width, p)) == p
  {
  }

  /** Every defined cell is visited. */
  lemma {:induction false} DefinedComplete(cells: seq<nat>, width: nat, p: nat, q: nat)
    requires width >= 1 && p <= q < |cells| && cells[q] != 0
    ensures CellAt(width, q) in DefinedFrom(cells, width, p)
    decreases |cells| - p
  {
    hide CellAt;
    if p < q {
      DefinedComplete(cells, width, p + 1, q);
    }
  }

  /** Every visited cell is defined. */
  lemma {:induction false} DefinedSound(cells: seq<nat>, width: nat, p: nat, i: nat)
    requires width >= 1 && i < |DefinedFrom(cells, width, p)|
    ensures var c := DefinedFrom(cells, width, p)[i];
      c.0 < width && p <= PositionOf(width, c) < |cells| && cells[PositionOf(width, c)] != 0
    decreases |cells| - p
  {
    PositionOfCellAt(width, p);
    hide CellAt, PositionOf;
    if cells[p] == 0 {
      DefinedSound(cells, width, p + 1, i);
    } else if i > 0 {
      assert DefinedFrom(cells, width, p)[i] == DefinedFrom(cells, width, p + 1)[i - 1];
      DefinedSound(cells, width, p + 1, i - 1);
    }
  }

  /** Cells are visited in the order of their positions. */
  lemma {:induction false} DefinedOrdered(cells: seq<nat>, width: nat, p: nat, i: nat, j: nat)
    requires width >= 1 && i < j < |DefinedFrom(cells, width, p)|
    ensures PositionOf(width, DefinedFrom(cells, width, p)[i]) < PositionOf(width, DefinedFrom(cells, width, p)[j])
    decreases |cells| - p
  {
    PositionOfCellAt(width, p);
    hide CellAt, PositionOf;
    if cells[p] == 0 {
      DefinedOrdered(cells, width, p + 1, i, j);
    } else {
      assert DefinedFrom(cells, width, p)[j] == DefinedFrom(cells, width, p + 1)[j - 1];
      DefinedSound(cells, width, p + 1, j - 1);
      if i > 0 {
        assert DefinedFrom(cells, width, p)[i] == DefinedFrom(cells, width, p + 1)[i - 1];
        DefinedOrdered(cells, width, p + 1, i - 1, j - 1);
      }
    }
  }

  predicate RowMajorBefore(a: Cell, b: Cell) { a.1 < b.1 || (a.1 == b.1 && a.0 < b.0) }

  /** On columns below the width, the order of positions is rows before columns. */
  lemma OrderOfPositions(width: nat, a: Cell, b: Cell)
    requires a.0 < width && b.0 < width
    ensures PositionOf(width, a) < PositionOf(width, b) <==> RowMajorBefore(a, b)
  {
    assert (a.1 + 1) * width == a.1 * width + width;
    assert (b.1 + 1) * width == b.1 * width + width;
    if b.1 < a.1 { MulMono(b.1 + 1, a.1, width); }
    if a.1 < b.1 { MulMono(a.1 + 1, b.1, width); }
  }

  /** The enumeration is the list of the defined cells (of an area of the given width), each
      once, rows before columns. */
  lemma DefinedExactly(cells: seq<nat>, width: nat, height: nat)
    requires width >= 1 && |cells| == Start(height, width)
    ensures var cs := DefinedFrom(cells, width, 0);
      && (forall c: Cell :: c in cs <==>
            c.0 < width && PositionOf(width, c) < |cells| && cells[PositionOf(width, c)] != 0)
      && (forall i, j :: 0 <= i < j < |cs| ==> RowMajorBefore(cs[i], cs[j]))
  {
    hide CellAt, PositionOf, RowMajorBefore, DefinedFrom;
    var cs := DefinedFrom(cells, width, 0);
    forall c: Cell
      ensures c in cs <==> c.0 < width && PositionOf(width, c) < |cells| && cells[PositionOf(width, c)] != 0
    {
      if c in cs {
        var i: nat :| i < |cs| && cs[i] == c;
        DefinedSound(cells, width, 0, i);
      } else if c.0 < width && PositionOf(width, c) < |cells| && cells[PositionOf(width, c)] != 0 {
        DefinedComplete(cells, width, 0, PositionOf(width, c));
        CellAtPosition(width, c);
      }
    }
    forall i, j | 0 <= i < j < |cs|
      ensures RowMajorBefore(cs[i], cs[j])
    {
      DefinedSound(cells, width, 0, i);
      DefinedSound(cells, width, 0, j);
      DefinedOrdered(cells, width, 0, i, j);
      OrderOfPositions(width, cs[i], cs[j]);
    }
  }

  lemma CellAtPosition(width: nat, c: Cell)
    requires c.0 < width
    ensures CellAt(width, PositionOf(width, c)) == c
  {
    QuotientFrom(PositionOf(width, c), c.1, width);
  }

  // -------------------------------------------------------------------- iterators

  /** ElementIterator of an iteration space of width x height pixels at an offset. */
  class ElementIterator {
    const minX: int
    const minY: int
    const maxX: int
    const maxY: int
    var x: int
    var y: int
    var active: bool // iteration_space != nullptr

    constructor (width: nat, height: nat, offsetX: int, offsetY: int)
      ensures minX == offsetX && minY == offsetY && maxX == offsetX + width && maxY == offsetY + height
      ensures x == offsetX && y == offsetY && active
    {
      minX, minY, maxX, maxY := offsetX, offsetY, offsetX + width, offsetY + height;
      x, y, active := offsetX, offsetY, true;
    }

    ghost predicate Valid()
      reads this
    {
      minX < maxX && minY < maxY && (active ==> minX <= x < maxX && minY <= y < maxY)
    }

    /** Linear position in row-major order. */
    ghost function Position(): int
      reads this
    {
      Start(y - minY, maxX - minX) + (x - minX)
    }

    ghost function Size(): int { Start(maxY - minY, maxX - minX) }

    method Next()
      requires Valid()
      modifies this`x, this`y, this`active
      ensures Valid()
      ensures !old(active) ==> !active && x == old(x) && y == old(y)
      ensures old(active) ==> Position() == old(Position()) + 1 && (active <==> Position() < Size())
    {
      NextPosition(y - minY, maxY - minY, maxX - minX);
      NextPosition(y - minY + 1, maxY - minY, maxX - minX);
      hide Start;
      if active {
        x := x + 1;
        if x >= maxX {
          x := minX;
          y := y + 1;
          if y >= maxY {
            active := false;
          }
        }
      }
    }
  }

  lemma Positions(row: int, width: int)
    ensures Start(row, width) == row * width
  {
  }

  /** Positions of the rows r and r+1 of an area of w columns and h rows. */
  lemma NextPosition(r: int, h: int, w: int)
    requires w >= 0
    ensures Start(r + 1, w) == Start(r, w) + w
    ensures r + 1 <= h ==> Start(r, w) + w <= Start(h, w)
    ensures r >= 0 ==> Start(r, w) >= 0
  {
    assert (r + 1) * w == r * w + w;
    if r + 1 <= h { MulMono(r + 1, h, w); }
    if r >= 0 { MulMono(0, r, w); }
  }

  /** DomainIterator: skips the cells that are zero. */
  class DomainIterator {
    const width: nat
    const height: nat
    const cells: seq<nat>
    var x: int
    var y: int
    var active: bool

    ghost predicate Valid()
      reads this
    {
      && width >= 1 && height >= 1 && |cells| == Start(height, width)
      && (active ==> (0 <= x < width && 0 <= y < height) || (x == -1 && y == 0))
    }

    ghost function Position(): int
      reads this
    {
      Start(y, width) + x
    }

    /** The iterator is at the linear position q, or past the end when there is no such cell. */
    ghost predicate StandsAt(q: int)
      reads this
    {
      && Valid() && 0 <= q
      && if q < |cells| then active && (x, y) == CellAt(width, q) && Position() == q
         else !active && x == 0 && y == height
    }

    /** Domain::begin: before the first cell, then one increment. */
    constructor (width: nat, height: nat, cells: seq<nat>)
      requires width >= 1 && height >= 1 && |cells| == Start(height, width)
      ensures this.width == width && this.height == height && this.cells == cells
      ensures StandsAt(NextDefined(cells, -1))
    {
      this.width, this.height, this.cells := width, height, cells;
      x, y, active := -1, 0, true;
      new;
      Next();
    }

    /** operator++: the next non-zero cell, or the end. */
    method Next()
      requires Valid()
      modifies this`x, this`y, this`active
      ensures Valid()
      ensures !old(active) ==> !active && x == old(x) && y == old(y)
      ensures old(active) ==> -1 <= old(Position()) < |cells| && StandsAt(NextDefined(cells, old(Position())))
    {
      hide NextDefined, CellAt, Start;
      NextPosition(y, height, width);
      ghost var start, wasActive := Position(), active;
      while true
        invariant Valid()
        invariant !wasActive ==> !active && x == old(x) && y == old(y)
        invariant wasActive ==> active && -1 <= start <= Position() < |cells|
        invariant wasActive ==> NextDefined(cells, start) == NextDefined(cells, Position())
        decreases if active then |cells| - Position() else -1
      {
        ghost var before := Position();
        NextPosition(y, height, width);
        // do { ...
        if active {
          x := x + 1;
          if x >= width {
            x := 0;
            y := y + 1;
            if y >= height {
              active := false;
            }
          }
        }
        // ... } while
        if wasActive {
          NextDefinedStep(cells, before);
          NextPosition(y, height, width);
        }
        Positions(y, width);
        if !(active && cells[y * width + x] == 0) { break; }
      }
      if active {
        QuotientFrom(Position(), y, width);
        CellOf(width, Position());
      }
    }
  }

  lemma NextDefinedStep(cells: seq<nat>, p: int)
    requires -1 <= p < |cells|
    ensures p + 1 == |cells| || cells[p + 1] != 0 ==> NextDefined(cells, p) == p + 1
    ensures p + 1 < |cells| && cells[p + 1] == 0 ==> NextDefined(cells, p) == NextDefined(cells, p + 1)
  {
  }

  lemma CellOf(width: nat, p: nat)
    requires width >= 1
    ensures CellAt(width, p) == (p % width, p / width)
  {
  }

  /** Enumerating a domain visits its defined cells, each once, in row-major order, and ends
      with a null iteration space. */
  method Enumerate(width: nat, height: nat, cells: seq<nat>) returns (visited: seq<(int, int)>, iter: DomainIterator)
    requires width >= 1 && height >= 1 && |cells| == Start(height, width)
    ensures visited == DefinedFrom(cells, width, 0) && !iter.active
  {
    iter := new DomainIterator(width, height, cells);
    visited := [];
    ghost var q := NextDefined(cells, -1);
    DefinedSkips(cells, width, -1);
    hide NextDefined, DefinedFrom, CellAt;
    while iter.active
      invariant iter.width == width && iter.height == height && iter.cells == cells
      invariant iter.StandsAt(q)
      invariant DefinedFrom(cells, width, 0) == visited + DefinedRest(cells, width, q)
      decreases |cells| - q
    {
      DefinedSkips(cells, width, q);
      visited := visited + [(iter.x, iter.y)];
      iter.Next();
      q := NextDefined(cells, q);
    }
  }

  /** The domain without holes. */
  function Ones(n: nat): seq<nat> { seq(n, i => 1) }

  /** On a domain without holes, the enumeration is every position in row-major order. */
  lemma {:induction false} OnesFrom(n: nat, width: nat, p: nat)
    requires width >= 1 && p <= n
    ensures DefinedFrom(Ones(n), width, p) == seq(n - p, i requires 0 <= i < n - p => CellAt(width, p + i))
    decreases n - p
  {
    hide CellAt;
    if p < n { OnesFrom(n, width, p + 1); }
  }

  /** Kernel::execute without the kernel call: the pixels of an iteration space, in the order of
      an enumeration without holes, moved by the offset. */
  method Execute(width: nat, height: nat, offsetX: int, offsetY: int) returns (visited: seq<(int, int)>)
    requires width >= 1 && height >= 1
    ensures |visited| == Start(height, width)
    ensures forall k :: 0 <= k < |visited| ==>
      visited[k] == (offsetX + CellAt(width, k).0, offsetY + CellAt(width, k).1)
    ensures var cells := DefinedFrom(Ones(|visited|), width, 0);
      |cells| == |visited| && forall k :: 0 <= k < |visited| ==>
        visited[k] == (offsetX + cells[k].0, offsetY + cells[k].1)
  {
    var iter := new ElementIterator(width, height, offsetX, offsetY);
    NextPosition(0, height, width);
    MulMono(1, height, width);
    visited := [];
    while iter.active
      invariant iter.Valid() && iter.minX == offsetX && iter.minY == offsetY
      invariant iter.maxX == offsetX + width && iter.maxY == offsetY + height
      invariant |visited| == iter.Position() <= iter.Size() && (iter.active <==> iter.Position() < iter.Size())
      invariant forall k :: 0 <= k < |visited| ==>
        visited[k] == (offsetX + CellAt(width, k).0, offsetY + CellAt(width, k).1)
      decreases iter.Size() - iter.Position()
    {
      CellAtPosition(width, (iter.x - offsetX, iter.y - offsetY));
      visited := visited + [(iter.x, iter.y)];
      iter.Next();
    }
    OnesFrom(|visited|, width, 0);
  }

  // ----------------------------------------------------------------------- folding

  datatype Mode = SUM | MIN | MAX | PROD

  function Combine(mode: Mode, result: int, value: int): int {
    match mode
    case SUM => result + value
    case MIN => if value < result then value else result
    case MAX => if value > result then value else result
    case PROD => result * value
  }

  /** Left fold starting from a seed. */
  function FoldFrom(mode: Mode, seed: int, values: seq<int>): int {
    if values == [] then seed
    else Combine(mode, FoldFrom(mode, seed, values[..|values| - 1]), values[|values| - 1])
  }

  /** The DSL's fold: the first value is the seed. */
  function DslFold(mode: Mode, values: seq<int>): int
    requires values != []
  {
    FoldFrom(mode, values[0], values[1..])
  }

  lemma FoldAppend(mode: Mode, seed: int, values: seq<int>, value: int)
    ensures FoldFrom(mode, seed, values + [value]) == Combine(mode, FoldFrom(mode, seed, values), value)
  {
    assert (values + [value])[..|values|] == values;
  }

  /** A seed may absorb the first value. */
  lemma {:induction false} FoldHead(mode: Mode, seed: int, values: seq<int>)
    requires values != []
    ensures FoldFrom(mode, seed, values) == FoldFrom(mode, Combine(mode, seed, values[0]), values[1..])
  {
    var n := |values|;
    if n > 1 {
      FoldHead(mode, seed, values[..n - 1]);
      assert values[..n - 1][1..] == values[1..][..n - 2];
    }
  }

  /** Folding moves with its seed, and starting from 0 or 1 a single value is itself. */
  lemma {:induction false} FoldMoves(values: seq<int>, s: int, d: int)
    ensures FoldFrom(SUM, s + d, values) == FoldFrom(SUM, s, values) + d
    ensures FoldFrom(PROD, s * d, values) == FoldFrom(PROD, s, values) * d
    ensures |values| == 1 ==> FoldFrom(SUM, 0, values) == values[0] == FoldFrom(PROD, 1, values)
  {
    if values != [] {
      var rest, last := values[..|values| - 1], values[|values| - 1];
      FoldMoves(rest, s, d);
      Exchange(FoldFrom(PROD, s, rest), d, last);
      assert |values| == 1 ==> rest == [];
    }
  }

  lemma Exchange(a: int, b: int, c: int)
    ensures (a * b) * c == (a * c) * b
  {
  }

  /** The total and the product of a lambda over a list of positions. */
  function TotalOver(fun: (int, int) -> int, cells: seq<Cell>): int {
    if cells == [] then 0 else fun(cells[0].0, cells[0].1) + TotalOver(fun, cells[1..])
  }

  function ProductOver(fun: (int, int) -> int, cells: seq<Cell>): int {
    if cells == [] then 1 else fun(cells[0].0, cells[0].1) * ProductOver(fun, cells[1..])
  }

  /** What the modes are named for. */
  ghost predicate Aggregates(mode: Mode, fun: (int, int) -> int, cells: seq<Cell>, r: int) {
    match mode
    case SUM => r == TotalOver(fun, cells)
    case PROD => r == ProductOver(fun, cells)
    case MIN =>
      (exists c: Cell :: c in cells && r == fun(c.0, c.1)) && forall c: Cell :: c in cells ==> r <= fun(c.0, c.1)
    case MAX =>
      (exists c: Cell :: c in cells && r == fun(c.0, c.1)) && forall c: Cell :: c in cells ==> r >= fun(c.0, c.1)
  }

  lemma {:induction false} FoldIsTotal(fun: (int, int) -> int, cells: seq<Cell>, s: int)
    ensures FoldFrom(SUM, s, Values(fun, cells)) == s + TotalOver(fun, cells)
    ensures FoldFrom(PROD, s, Values(fun, cells)) == s * ProductOver(fun, cells)
    decreases |cells|
  {
    if cells != [] {
      var values, first := Values(fun, cells), fun(cells[0].0, cells[0].1);
      assert values[1..] == Values(fun, cells[1..]);
      FoldHead(SUM, s, values);
      FoldHead(PROD, s, values);
      FoldIsTotal(fun, cells[1..], s + first);
      FoldIsTotal(fun, cells[1..], s * first);
      Regroup(s, first, ProductOver(fun, cells[1..]));
    }
  }

  lemma Regroup(a: int, b: int, c: int)
    ensures (a * b) * c == a * (b * c)
  {
  }

  predicate Bounds(mode: Mode, r: int, v: int) { if mode.MIN? then r <= v else r >= v }

  /** A minimum or maximum is one of the values or the seed, and bounds them all. */
  lemma {:induction false} Extreme(mode: Mode, seed: int, values: seq<int>)
    requires mode.MIN? || mode.MAX?
    ensures var r := FoldFrom(mode, seed, values);
      && (r == seed || r in values) && Bounds(mode, r, seed)
      && (forall v :: v in values ==> Bounds(mode, r, v))
    decreases |values|
  {
    if values != [] {
      var rest := values[..|values| - 1];
      Extreme(mode, seed, rest);
      assert values == rest + [values[|values| - 1]];
    }
  }

  /** The DSL's fold over at least one position is the total, the product, the least or the
      greatest of the lambda's values there. */
  lemma FoldAggregates(mode: Mode, fun: (int, int) -> int, cells: seq<Cell>)
    requires cells != []
    ensures Aggregates(mode, fun, cells, DslFold(mode, Values(fun, cells)))
  {
    var values := Values(fun, cells);
    assert values[1..] == Values(fun, cells[1..]);
    FoldIsTotal(fun, cells[1..], values[0]);
    if mode.MIN? || mode.MAX? {
      Extreme(mode, values[0], values[1..]);
      hide FoldFrom;
      var r := DslFold(mode, values);
      var i := IndexOf(values, r);
      assert r == fun(cells[i].0, cells[i].1);
      forall c: Cell | c in cells ensures Bounds(mode, r, fun(c.0, c.1)) {
        var j :| 0 <= j < |cells| && cells[j] == c;
        assert j > 0 ==> values[1..][j - 1] == values[j];
      }
    }
  }

  lemma IndexOf(values: seq<int>, r: int) returns (i: nat)
    requires values != [] && (r == values[0] || r in values[1..])
    ensures i < |values| && values[i] == r
  {
    i :| i < |values| && values[i] == r;
  }

  /** The values of a lambda at a list of positions. */
  function Values(fun: (int, int) -> int, cells: seq<Cell>): seq<int> {
    seq(|cells|, i requires 0 <= i < |cells| => fun(cells[i].0, cells[i].1))
  }

  /** What a lambda folded over the given positions means: on no position at all, the lambda is
      still evaluated once, at the position past the last row. */
  ghost function FoldMeaning(height: nat, visited: seq<Cell>, mode: Mode, fun: (int, int) -> int): int {
    if visited == [] then fun(0, height) else DslFold(mode, Values(fun, visited))
  }

  /** Kernel::reduce without break_iterate: the left fold over the defined cells. */
  method Reduce(width: nat, height: nat, cells: seq<nat>, mode: Mode, fun: (int, int) -> int) returns (result: int)
    requires width >= 1 && height >= 1 && |cells| == Start(height, width)
    ensures result == FoldMeaning(height, DefinedFrom(cells, width, 0), mode, fun)
    ensures var visited := DefinedFrom(cells, width, 0);
      if visited == [] then result == fun(0, height) else Aggregates(mode, fun, visited, result)
  {
    var iter := new DomainIterator(width, height, cells);
    ghost var q := NextDefined(cells, -1);
    DefinedSkips(cells, width, -1);
    ghost var all := DefinedFrom(cells, width, 0);
    ghost var values := Values(fun, all);
    ghost var n: nat;
    hide NextDefined, DefinedFrom, CellAt, Combine, FoldFrom, Start;
    result := fun(iter.x, iter.y);
    ghost var empty := !iter.active;
    if !empty { DefinedSkips(cells, width, q); }
    iter.Next();
    if !empty { q := NextDefined(cells, q); }
    n := 1;
    while iter.active
      invariant iter.width == width && iter.height == height && iter.cells == cells
      invariant iter.StandsAt(q)
      invariant empty ==> !iter.active && all == [] && result == fun(0, height)
      invariant !empty ==> Folded(mode, values, n, result) && |all| == |values|
      invariant !empty ==> all[n..] == DefinedRest(cells, width, q)
      decreases |cells| - q
    {
      DefinedSkips(cells, width, q);
      assert all[n] == all[n..][0] && all[n + 1..] == all[n..][1..];
      var value := fun(iter.x, iter.y);
      FoldStep(mode, values, n, result);
      result := Combine(mode, result, value);
      n := n + 1;
      iter.Next();
      q := NextDefined(cells, q);
    }
    if !empty {
      FoldEnd(mode, values, n, result);
      FoldAggregates(mode, fun, all);
    }
  }

  /** The first n of the values have been folded. */
  ghost predicate Folded(mode: Mode, values: seq<int>, n: nat, result: int) {
    1 <= n <= |values| && result == FoldFrom(mode, values[0], values[1..n])
  }

  lemma FoldStep(mode: Mode, values: seq<int>, n: nat, result: int)
    requires Folded(mode, values, n, result) && n < |values|
    ensures Folded(mode, values, n + 1, Combine(mode, result, values[n]))
  {
    FoldAppend(mode, values[0], values[1..n], values[n]);
    assert values[1..n] + [values[n]] == values[1..n + 1];
  }

  lemma FoldEnd(mode: Mode, values: seq<int>, n: nat, result: int)
    requires Folded(mode, values, n, result) && n == |values|
    ensures result == DslFold(mode, values)
  {
    assert values[1..n] == values[1..];
  }

  /** Kernel::convolve without break_iterate: the left fold over every position of the mask. */
  method Convolve(width: nat, height: nat, mode: Mode, fun: (int, int) -> int) returns (result: int)
    requires width >= 1 && height >= 1
    ensures result == FoldMeaning(height, DefinedFrom(Ones(Start(height, width)), width, 0), mode, fun)
    ensures Aggregates(mode, fun, DefinedFrom(Ones(Start(height, width)), width, 0), result)
  {
    var iter := new ElementIterator(width, height, 0, 0);
    ghost var size := Start(height, width);
    NextPosition(0, height, width);
    MulMono(1, height, width);
    OnesFrom(size, width, 0);
    ghost var values := Values(fun, DefinedFrom(Ones(size), width, 0));
    hide DefinedFrom, CellAt, Combine, FoldFrom, Start;
    result := fun(iter.x, iter.y);
    CellAtPosition(width, (0, 0));
    ghost var n := 1;
    iter.Next();
    while iter.active
      invariant iter.Valid() && iter.minX == 0 && iter.minY == 0 && iter.maxX == width && iter.maxY == height
      invariant n == iter.Position() && 1 <= n <= size && (iter.active <==> n < size)
      invariant Folded(mode, values, n, result)
      decreases size - n
    {
      CellAtPosition(width, (iter.x, iter.y));
      var value := fun(iter.x, iter.y);
      FoldStep(mode, values, n, result);
      result := Combine(mode, result, value);
      n := n + 1;
      iter.Next();
    }
    FoldEnd(mode, values, n, result);
    FoldAggregates(mode, fun, DefinedFrom(Ones(size), width, 0));
  }
}
