/** The two-stage parallel reduction (runtime/hipacc_cl_red.hpp, launched by
    hipaccApplyReduction in runtime/hipacc_cl.hpp): every work group reduces a tile of
    pixels in a barrier-stepped tree, and one more group reduces the partial results. */
module Reductions {
  import opened Launch
  import opened Folds

  predicate IsPowerOfTwo(n: nat) {
    n == 1 || (n > 0 && n % 2 == 0 && IsPowerOfTwo(n / 2))
  }

  // ------------------------------------------------------------------- tree steps

  /** The cells after n threads at once have each added the cell s further on to their own. */
  function Lockstep<T>(f: (T, T) -> T, cells: seq<T>, n: nat, s: nat): (after: seq<T>)
    requires n + s <= |cells|
    ensures |after| == |cells|
  {
    seq(|cells|, i requires 0 <= i < |cells| => if i < n then f(cells[i], cells[i + s]) else cells[i])
  }

  /** One tree step keeps the fold: cells [0, s) absorb cells [s, 2s), whatever else is written
      above them. */
  lemma TreeStepKeepsFold<T(!new)>(f: (T, T) -> T, before: seq<T>, n: nat, s: nat)
    requires AssociativeCommutative(f) && s <= n && n + s <= |before|
    ensures SumSeq(f, Lockstep(f, before, n, s)[..s]) == SumSeq(f, before[..2 * s])
  {
    hide AssociativeCommutative;
    var a, b := before[..s], before[s..2 * s];
    assert before[..2 * s] == a + b;
    SumSeqConcat(f, a, b);
    SumSeqZip(f, a, b, Lockstep(f, before, n, s)[..s]);
  }

  lemma {:induction false} NextPower(p: nat, q: nat)
    requires IsPowerOfTwo(p) && IsPowerOfTwo(q) && q > p
    ensures 2 * p <= q
  {
    if p > 1 { NextPower(p / 2, q / 2); }
  }

  /** One step of the first n threads: they all load, then they all store; each keeps a register
      copy of its own cell. */
  method TreeStep<T(!new)>(f: (T, T) -> T, sdata: array<T>, val: array<T>, n: nat, s: nat)
    requires AssociativeCommutative(f)
    requires s <= n && n + s <= sdata.Length == val.Length && val != sdata
    requires forall tid :: 0 <= tid < n ==> val[tid] == sdata[tid]
    modifies sdata, val
    ensures sdata[..] == Lockstep(f, old(sdata[..]), n, s)
    ensures forall tid :: 0 <= tid < n ==> val[tid] == sdata[tid]
    ensures SumSeq(f, sdata[..s]) == SumSeq(f, old(sdata[..2 * s]))
  {
    ghost var before := sdata[..];
    hide AssociativeCommutative, SumSeq, Lockstep;
    StepCells(f, sdata, val, n, s);
    TreeStepKeepsFold(f, before, n, s);
    assert before[..2 * s] == old(sdata[..2 * s]);
    assert sdata[..][..s] == sdata[..s];
  }

  /** The loads and the stores of one step. */
  method StepCells<T>(f: (T, T) -> T, sdata: array<T>, val: array<T>, n: nat, s: nat)
    requires n + s <= sdata.Length == val.Length && val != sdata
    requires forall tid :: 0 <= tid < n ==> val[tid] == sdata[tid]
    modifies sdata, val
    ensures sdata[..] == Lockstep(f, old(sdata[..]), n, s)
    ensures forall tid :: 0 <= tid < n ==> val[tid] == sdata[tid]
  {
    forall tid | 0 <= tid < n {
      val[tid] := f(val[tid], sdata[tid + s]);
    }
    forall tid | 0 <= tid < n {
      sdata[tid] := val[tid];
    }
    forall i | 0 <= i < sdata.Length
      ensures sdata[..][i] == Lockstep(f, old(sdata[..]), n, s)[i]
    {
    }
  }

  /** The barrier-stepped tree of the OpenCL kernels: below s, none writes a cell another reads. */
  method TreeReduce<T(!new)>(f: (T, T) -> T, sdata: array<T>, val: array<T>)
    requires AssociativeCommutative(f)
    requires IsPowerOfTwo(sdata.Length) && val.Length == sdata.Length && val != sdata
    requires forall tid :: 0 <= tid < val.Length ==> val[tid] == sdata[tid]
    modifies sdata, val
    ensures Some(sdata[0]) == SumSeq(f, old(sdata[..]))
  {
    hide AssociativeCommutative, SumSeq, Lockstep;
    var s := sdata.Length / 2;
    ghost var width := sdata.Length;
    assert sdata[..width] == sdata[..];
    while s > 0
      invariant 0 < width <= sdata.Length && IsPowerOfTwo(width) && s == width / 2
      invariant forall tid :: 0 <= tid < width ==> val[tid] == sdata[tid]
      invariant SumSeq(f, sdata[..width]) == SumSeq(f, old(sdata[..]))
    {
      assert 2 * s == width;
      TreeStep(f, sdata, val, s, s);
      width := s;
      s := s / 2;
    }
    SumSeqAppend(f, [], sdata[0]);
    assert sdata[..1] == [] + [sdata[0]];
  }

  /** The tree of the CUDA kernels: steps behind barriers as long as more than a warp takes part,
      then six steps of one warp without barriers. */
  method WarpTreeReduce<T(!new)>(f: (T, T) -> T, sdata: array<T>, val: array<T>)
    requires AssociativeCommutative(f)
    requires IsPowerOfTwo(sdata.Length) && sdata.Length >= 64 && val.Length == sdata.Length && val != sdata
    requires forall tid :: 0 <= tid < val.Length ==> val[tid] == sdata[tid]
    modifies sdata, val
    ensures Some(sdata[0]) == SumSeq(f, old(sdata[..]))
  {
    hide AssociativeCommutative, SumSeq, Lockstep;
    var s := sdata.Length / 2;
    ghost var width := sdata.Length;
    assert sdata[..width] == sdata[..];
    while s > 32
      invariant 64 <= width <= sdata.Length && IsPowerOfTwo(width) && s == width / 2
      invariant forall tid :: 0 <= tid < width ==> val[tid] == sdata[tid]
      invariant SumSeq(f, sdata[..width]) == SumSeq(f, old(sdata[..]))
    {
      PowerAbove64(width);
      TreeStep(f, sdata, val, s, s);
      width := s;
      s := s / 2;
    }
    assert width == 64;
    WarpTail(f, sdata, val);
  }

  /** The six steps of one warp: its 32 threads store in every one of them, those from s on too,
      but only the cells below s count. */
  method WarpTail<T(!new)>(f: (T, T) -> T, sdata: array<T>, val: array<T>)
    requires AssociativeCommutative(f)
    requires 64 <= sdata.Length == val.Length && val != sdata
    requires forall tid :: 0 <= tid < 32 ==> val[tid] == sdata[tid]
    modifies sdata, val
    ensures Some(sdata[0]) == SumSeq(f, old(sdata[..64]))
  {
    hide AssociativeCommutative, SumSeq, Lockstep;
    TreeStep(f, sdata, val, 32, 32);
    TreeStep(f, sdata, val, 32, 16);
    TreeStep(f, sdata, val, 32, 8);
    TreeStep(f, sdata, val, 32, 4);
    TreeStep(f, sdata, val, 32, 2);
    TreeStep(f, sdata, val, 32, 1);
    SumSeqAppend(f, [], sdata[0]);
    assert sdata[..1] == [] + [sdata[0]];
  }

  lemma PowerAbove64(width: nat)
    requires IsPowerOfTwo(width) && width > 64
    ensures width % 2 == 0 && width / 2 >= 64
  {
    assert IsPowerOfTwo(2) && IsPowerOfTwo(4) && IsPowerOfTwo(8) && IsPowerOfTwo(16) && IsPowerOfTwo(32);
    NextPower(64, width);
  }

  // ------------------------------------------------------------------ first stage

  type Pixel = (int, int)

  /** The shape of a first-stage launch over columns [from, to) of rows [0, height), with column 0
      at the first thread. */
  datatype Shape = Shape(from: nat, to: nat, height: nat, bs: nat, ppt: nat) {
    predicate Valid() { from < to && height >= 1 && bs >= 1 && ppt >= 1 }

    /** OFFSET_CHECK_X. */
    predicate In(x: int) { from <= x < to }

    /** Pixel (x, y) is read by the thread whose first pixel is (gx, gy), in its first n rows. */
    predicate Reads(gx: int, gy: int, n: int, x: int, y: int) {
      && (x == gx || x == gx + bs) && gy <= y < gy + n
      && ((In(x) && (y == gy || y < height)) || (x == gx + bs && y == gy && !In(gx)))
    }

    ghost function ThreadPixels(gx: int, gy: int, n: int): set<Pixel> {
      set x, y | gx <= x <= gx + bs && gy <= y < gy + n && Reads(gx, gy, n, x, y) :: (x, y)
    }

    /** The pixels of the first n threads of the group at (x0, y0). */
    ghost function GroupPixels(x0: int, y0: int, n: int): set<Pixel> {
      set x, y | x0 <= x < x0 + 2 * bs && y0 <= y < y0 + ppt && InGroup(x0, y0, n, x, y) :: (x, y)
    }

    predicate InGroup(x0: int, y0: int, n: int, x: int, y: int) {
      var gx := if x < x0 + bs then x else x - bs;
      gx < x0 + n && Reads(gx, y0, ppt, x, y)
    }
  }

  function One(c: bool, p: Pixel): set<Pixel> { if c then {p} else {} }

  lemma FirstRow(sh: Shape, gx: int, gy: int)
    requires sh.Valid()
    ensures sh.ThreadPixels(gx, gy, 1)
      == One(sh.In(gx), (gx, gy)) + One(!sh.In(gx) || sh.In(gx + sh.bs), (gx + sh.bs, gy))
  {
  }

  lemma NextRow(sh: Shape, gx: int, gy: int, j: int)
    requires sh.Valid() && j >= 1
    ensures var rest, y := sh.ThreadPixels(gx, gy, j), gy + j;
      && sh.ThreadPixels(gx, gy, j + 1)
           == rest + One(y < sh.height && sh.In(gx), (gx, y))
              + One(y < sh.height && sh.In(gx + sh.bs), (gx + sh.bs, y))
      && (gx, y) !in rest && (gx + sh.bs, y) !in rest
  {
  }

  /** Adding a pixel to a register under a condition. */
  lemma SumOne<T(!new)>(f: (T, T) -> T, read: Pixel -> T, S: set<Pixel>, c: bool, p: Pixel)
    requires AssociativeCommutative(f) && p !in S
    ensures Sum(f, read, S + One(c, p)) == if c then Join(f, Sum(f, read, S), Some(read(p))) else Sum(f, read, S)
  {
    if c {
      SumInsert(f, read, S, p);
    } else {
      assert S + {} == S;
    }
  }

  /** The pixels one work item reduces into its register. */
  method ThreadLoad<T(!new)>(f: (T, T) -> T, read: Pixel -> T, sh: Shape, gx: int, gy: int) returns (val: T)
    requires AssociativeCommutative(f) && sh.Valid()
    ensures Some(val) == Sum(f, read, sh.ThreadPixels(gx, gy, sh.ppt))
  {
    hide AssociativeCommutative, Sum, Shape.ThreadPixels;
    var bs := sh.bs;
    FirstRow(sh, gx, gy);
    SumNone(f, read);
    SumOne(f, read, {}, sh.In(gx), (gx, gy));
    assert {} + One(sh.In(gx), (gx, gy)) == One(sh.In(gx), (gx, gy));
    SumOne(f, read, One(sh.In(gx), (gx, gy)), !sh.In(gx) || sh.In(gx + bs), (gx + bs, gy));
    if sh.In(gx) {
      if sh.In(gx + bs) {
        val := f(read((gx, gy)), read((gx + bs, gy)));
      } else {
        val := read((gx, gy));
      }
    } else {
      val := read((gx + bs, gy));
    }
    var j := 1;
    while j < sh.ppt
      invariant 1 <= j <= sh.ppt
      invariant Some(val) == Sum(f, read, sh.ThreadPixels(gx, gy, j))
    {
      ghost var sofar, y := sh.ThreadPixels(gx, gy, j), gy + j;
      NextRow(sh, gx, gy, j);
      SumOne(f, read, sofar, y < sh.height && sh.In(gx), (gx, y));
      SumOne(f, read, sofar + One(y < sh.height && sh.In(gx), (gx, y)),
        y < sh.height && sh.In(gx + bs), (gx + bs, y));
      if j + gy < sh.height {
        if sh.In(gx) {
          val := f(val, read((gx, j + gy)));
        }
        if sh.In(gx + bs) {
          val := f(val, read((gx + bs, j + gy)));
        }
      }
      j := j + 1;
    }
  }

  /** One work group of the first stage. */
  method ReduceGroup<T(0,!new)>(f: (T, T) -> T, read: Pixel -> T, sh: Shape, x0: int, y0: int) returns (partial: T)
    requires AssociativeCommutative(f) && sh.Valid() && IsPowerOfTwo(sh.bs)
    ensures Some(partial) == Sum(f, read, sh.GroupPixels(x0, y0, sh.bs))
  {
    GroupStart(sh, x0, y0);
    hide AssociativeCommutative, Sum, SumSeq, Shape.ThreadPixels, Shape.GroupPixels, IsPowerOfTwo;
    var sdata, val := new T[sh.bs], new T[sh.bs];
    var tid := 0;
    SumNone(f, read);
    SumSeqAppend(f, [], read((x0, y0)));
    assert sdata[..0] == [];
    while tid < sh.bs
      invariant 0 <= tid <= sh.bs
      invariant forall i :: 0 <= i < tid ==> val[i] == sdata[i]
      invariant SumSeq(f, sdata[..tid]) == Sum(f, read, sh.GroupPixels(x0, y0, tid))
    {
      var v := ThreadLoad(f, read, sh, x0 + tid, y0);
      GroupGrows(sh, x0, y0, tid);
      SumUnion(f, read, sh.GroupPixels(x0, y0, tid), sh.ThreadPixels(x0 + tid, y0, sh.ppt));
      SumSeqAppend(f, sdata[..tid], v);
      sdata[tid] := v;
      val[tid] := v;
      assert sdata[..tid + 1] == sdata[..tid] + [v];
      tid := tid + 1;
    }
    // barrier
    assert sdata[..] == sdata[..sh.bs];
    TreeReduce(f, sdata, val);
    partial := sdata[0];
  }

  lemma GroupStart(sh: Shape, x0: int, y0: int)
    ensures sh.GroupPixels(x0, y0, 0) == {}
  {
  }

  lemma GroupGrows(sh: Shape, x0: int, y0: int, tid: int)
    requires sh.Valid() && 0 <= tid < sh.bs
    ensures sh.GroupPixels(x0, y0, tid + 1) == sh.GroupPixels(x0, y0, tid) + sh.ThreadPixels(x0 + tid, y0, sh.ppt)
    ensures sh.GroupPixels(x0, y0, tid) !! sh.ThreadPixels(x0 + tid, y0, sh.ppt)
  {
  }

  /** The pixels a grid reads from columns [0, x1) of rows [y0, y1). */
  ghost function Loaded(sh: Shape, x1: int, y0: int, y1: int): set<Pixel>
    requires sh.Valid()
  {
    set x, y | 0 <= x < x1 && y0 <= y < y1 && LoadedAt(sh, x, y) :: (x, y)
  }

  predicate LoadedAt(sh: Shape, x: int, y: int)
    requires sh.Valid()
  {
    sh.InGroup(Start(x / (2 * sh.bs), 2 * sh.bs), Start(y / sh.ppt, sh.ppt), sh.bs, x, y)
  }

  /** Within its row of groups, group bi adds exactly its own pixels. */
  lemma RowOfGroupsGrows(sh: Shape, bi: int, bj: int)
    requires sh.Valid() && bi >= 0 && bj >= 0
    ensures var x0, y0, y1 := Start(bi, 2 * sh.bs), Start(bj, sh.ppt), Start(bj, sh.ppt) + sh.ppt;
      && Loaded(sh, Start(bi + 1, 2 * sh.bs), y0, y1) == Loaded(sh, x0, y0, y1) + sh.GroupPixels(x0, y0, sh.bs)
      && Loaded(sh, x0, y0, y1) !! sh.GroupPixels(x0, y0, sh.bs)
  {
    var w := 2 * sh.bs;
    var x0, y0, y1 := Start(bi, w), Start(bj, sh.ppt), Start(bj, sh.ppt) + sh.ppt;
    assert Start(bi + 1, w) == x0 + w == End(bi, w);
    assert x0 >= 0 by { MulMono(0, bi, w); }
    forall x, y | x0 <= x < x0 + w && y0 <= y < y1
      ensures LoadedAt(sh, x, y) == sh.InGroup(x0, y0, sh.bs, x, y)
    {
      QuotientFrom(x, bi, w);
      QuotientFrom(y, bj, sh.ppt);
    }
    hide LoadedAt, Shape.InGroup, Start, End;
    var before, mine, after := Loaded(sh, x0, y0, y1), sh.GroupPixels(x0, y0, sh.bs), Loaded(sh, x0 + w, y0, y1);
    assert forall p :: p in after <==> p in before || p in mine;
  }

  lemma RowsGrow(sh: Shape, x1: int, bj: int)
    requires sh.Valid() && bj >= 0
    ensures var y0, y1 := Start(bj, sh.ppt), Start(bj + 1, sh.ppt);
      && y1 == y0 + sh.ppt
      && Loaded(sh, x1, 0, y1) == Loaded(sh, x1, 0, y0) + Loaded(sh, x1, y0, y1)
      && Loaded(sh, x1, 0, y0) !! Loaded(sh, x1, y0, y1)
  {
    assert Start(bj + 1, sh.ppt) == Start(bj, sh.ppt) + sh.ppt;
    MulMono(0, bj, sh.ppt);
    hide LoadedAt;
  }

  lemma NothingLoaded(sh: Shape, x1: int, y0: int, y1: int)
    requires sh.Valid() && (x1 <= 0 || y1 <= y0)
    ensures Loaded(sh, x1, y0, y1) == {}
  {
  }

  /** The first stage over a grid of groups. */
  method ReduceImage<T(0,!new)>(f: (T, T) -> T, read: Pixel -> T, sh: Shape, groupsX: nat, groupsY: nat)
    returns (output: seq<T>)
    requires AssociativeCommutative(f) && sh.Valid() && IsPowerOfTwo(sh.bs)
    ensures |output| == groupsX * groupsY
    ensures SumSeq(f, output) == Sum(f, read, Loaded(sh, Start(groupsX, 2 * sh.bs), 0, Start(groupsY, sh.ppt)))
  {
    hide AssociativeCommutative, Sum, SumSeq, Loaded, IsPowerOfTwo, Shape.GroupPixels;
    var w := 2 * sh.bs;
    output := [];
    SumNone(f, read);
    SumSeqAppend(f, [], read((0, 0)));
    NothingLoaded(sh, Start(groupsX, w), 0, Start(0, sh.ppt));
    var bj := 0;
    while bj < groupsY
      invariant 0 <= bj <= groupsY && |output| == groupsX * bj
      invariant SumSeq(f, output) == Sum(f, read, Loaded(sh, Start(groupsX, w), 0, Start(bj, sh.ppt)))
    {
      var partials := ReduceRow(f, read, sh, groupsX, bj);
      RowsGrow(sh, Start(groupsX, w), bj);
      SumUnion(f, read, Loaded(sh, Start(groupsX, w), 0, Start(bj, sh.ppt)),
               Loaded(sh, Start(groupsX, w), Start(bj, sh.ppt), Start(bj + 1, sh.ppt)));
      SumSeqConcat(f, output, partials);
      assert groupsX * (bj + 1) == groupsX * bj + groupsX;
      output := output + partials;
      bj := bj + 1;
    }
  }

  /** One row of groups. */
  method ReduceRow<T(0,!new)>(f: (T, T) -> T, read: Pixel -> T, sh: Shape, groupsX: nat, bj: nat)
    returns (partials: seq<T>)
    requires AssociativeCommutative(f) && sh.Valid() && IsPowerOfTwo(sh.bs)
    ensures |partials| == groupsX
    ensures SumSeq(f, partials)
      == Sum(f, read, Loaded(sh, Start(groupsX, 2 * sh.bs), Start(bj, sh.ppt), Start(bj, sh.ppt) + sh.ppt))
  {
    hide AssociativeCommutative, Sum, SumSeq, Loaded, IsPowerOfTwo, Shape.GroupPixels;
    var w := 2 * sh.bs;
    ghost var y0, y1 := Start(bj, sh.ppt), Start(bj, sh.ppt) + sh.ppt;
    partials := [];
    SumNone(f, read);
    SumSeqAppend(f, [], read((0, 0)));
    NothingLoaded(sh, Start(0, w), y0, y1);
    var bi := 0;
    while bi < groupsX
      invariant 0 <= bi <= groupsX && |partials| == bi
      invariant SumSeq(f, partials) == Sum(f, read, Loaded(sh, Start(bi, w), y0, y1))
    {
      var partial := ReduceGroup(f, read, sh, Start(bi, w), Start(bj, sh.ppt));
      RowOfGroupsGrows(sh, bi, bj);
      SumUnion(f, read, Loaded(sh, Start(bi, w), y0, y1), sh.GroupPixels(Start(bi, w), y0, sh.bs));
      SumSeqAppend(f, partials, partial);
      partials := partials + [partial];
      bi := bi + 1;
    }
  }

  // ----------------------------------------------------------------- second stage

  /** Cells the first t threads of the second stage fold, and cells thread t folds in its
      first j strides. */
  ghost function FirstThreads(total: int, size: nat, t: int): set<int>
    requires size >= 1
  {
    set i | 0 <= i < total && i % size < t
  }

  ghost function Strided(total: int, size: nat, t: int, j: int): set<int>
    requires size >= 1
  {
    set i | 0 <= i < total && i % size == t && i / size < j
  }

  lemma StrideGrows(total: int, n: nat, size: nat, t: int, j: int)
    requires size >= 1 && 0 <= t < size && j >= 0 && total == (if n < size then size else n)
    ensures var i := t + j * size;
      && Strided(total, size, t, j + 1) == Strided(total, size, t, j) + (if i < total then {i} else {})
      && i !in Strided(total, size, t, j) && (j >= 1 ==> (i < total <==> i < n)) && (j == 0 ==> i < total)
  {
    var i := t + j * size;
    MulMono(0, j, size);
    if j >= 1 { MulMono(1, j, size); }
    forall k | 0 <= k < total
      ensures k % size == t && k / size == j <==> k == i
    {
      StrideCell(k, t, j, size);
    }
    StrideCell(i, t, j, size);
  }

  lemma StrideCell(k: int, t: int, j: int, size: int)
    requires size >= 1 && 0 <= t < size
    ensures k % size == t && k / size == j <==> k == t + j * size
  {
    if k == t + j * size {
      QuotientFrom(k, j, size);
    }
  }

  lemma StridesEnd(total: int, n: nat, size: nat, t: int)
    requires size >= 1 && 0 <= t < size && total == (if n < size then size else n) && n >= 1
    ensures Strided(total, size, t, 0) == {}
    ensures Strided(total, size, t, CeilDiv(n, size)) == Strided(total, size, t, total)
    ensures CeilDiv(n, size) >= 1
    ensures FirstThreads(total, size, t + 1) == FirstThreads(total, size, t) + Strided(total, size, t, total)
    ensures FirstThreads(total, size, t) !! Strided(total, size, t, total)
  {
    BelowCeil(0, n, size);
    forall i | 0 <= i < total
      ensures 0 <= i / size < CeilDiv(n, size) && i / size < total
    {
      if i < n { QuotientIn(i, n, size); } else { QuotientFrom(i, 0, size); }
      BelowFloor(i, i, size);
      MulMono(1, size, i);
      BelowFloor(-1, i, size);
      QuotientSmall(i, size);
    }
  }

  lemma QuotientSmall(i: nat, size: nat)
    requires size >= 1
    ensures i / size <= i
  {
    MulMono(1, size, i);
    BelowFloor(i, i, size);
  }

  lemma AllThreads(total: int, size: nat)
    requires size >= 1
    ensures FirstThreads(total, size, size) == Below(total) && FirstThreads(total, size, 0) == {}
  {
  }

  /** One thread of the second stage. */
  method StrideLoad<T(!new)>(f: (T, T) -> T, input: int -> T, n: nat, size: nat, iterations: int,
      tid: int) returns (val: T)
    requires AssociativeCommutative(f) && n >= 1 && 0 <= tid < size && iterations == CeilDiv(n, size)
    ensures var total := if n < size then size else n;
      Some(val) == Sum(f, input, Strided(total, size, tid, total))
  {
    hide AssociativeCommutative, Sum, Strided, CeilDiv;
    ghost var total := if n < size then size else n;
    StridesEnd(total, n, size, tid);
    StrideGrows(total, n, size, tid, 0);
    SumNone(f, input);
    SumInsert(f, input, {}, tid);
    assert tid + 0 * size == tid;
    assert Strided(total, size, tid, 1) == {} + {tid};
    val := input(tid);
    var j := 1;
    while j < iterations
      invariant 1 <= j <= iterations
      invariant Some(val) == Sum(f, input, Strided(total, size, tid, j))
    {
      StrideGrows(total, n, size, tid, j);
      ghost var sofar := Strided(total, size, tid, j);
      assert sofar + {} == sofar;
      if tid + j * size < n {
        SumInsert(f, input, sofar, tid + j * size);
        val := f(val, input(tid + j * size));
      }
      j := j + 1;
    }
  }

  /** The second stage: a single group folds the n partial results, and, when it has more
      threads than there are partial results, also what lies behind them in memory. */
  method ReducePartials<T(0,!new)>(f: (T, T) -> T, input: int -> T, n: nat, size: nat) returns (result: T)
    requires AssociativeCommutative(f) && n >= 1 && IsPowerOfTwo(size)
    ensures Some(result) == Sum(f, input, Below(if n < size then size else n))
  {
    hide AssociativeCommutative, Sum, SumSeq, FirstThreads, Strided, Below, IsPowerOfTwo, CeilDiv;
    PowerPositive(size);
    ghost var total := if n < size then size else n;
    var iterations := CeilDiv(n, size);
    var sdata, val := new T[size], new T[size];
    AllThreads(total, size);
    SumNone(f, input);
    SumSeqAppend(f, [], input(0));
    assert sdata[..0] == [];
    var tid := 0;
    while tid < size
      invariant 0 <= tid <= size
      invariant forall i :: 0 <= i < tid ==> val[i] == sdata[i]
      invariant SumSeq(f, sdata[..tid]) == Sum(f, input, FirstThreads(total, size, tid))
    {
      var v := StrideLoad(f, input, n, size, iterations, tid);
      StridesEnd(total, n, size, tid);
      SumUnion(f, input, FirstThreads(total, size, tid), Strided(total, size, tid, total));
      SumSeqAppend(f, sdata[..tid], v);
      sdata[tid] := v;
      val[tid] := v;
      assert sdata[..tid + 1] == sdata[..tid] + [v];
      tid := tid + 1;
    }
    // barrier
    assert sdata[..] == sdata[..size];
    TreeReduce(f, sdata, val);
    result := sdata[0];
  }

  lemma PowerPositive(n: nat)
    requires IsPowerOfTwo(n)
    ensures n >= 1
  {
  }
}
