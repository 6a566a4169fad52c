/** hipaccApplyReduction (runtime/hipacc_cl.hpp): launch sizes of the two reduction stages,
    what their result is in general, and exactly when it is the reduction of the image. */
module ApplyReduction {
  import opened Launch
  import opened Folds
  import opened Reductions
  import opened Words

  /** Threads of the second stage. */
  function SecondStageSize(numBlocks: nat, maxThreads: nat): nat {
    if numBlocks < maxThreads then PowerAtLeast((numBlocks + 1) / 2, 32) else maxThreads
  }

  /** That is a power of two, and no more than a work group has, whose shared array they use. */
  lemma SecondStageSizeIsPower(numBlocks: nat, maxThreads: nat)
    requires IsPowerOfTwo(maxThreads) && maxThreads >= 32
    ensures IsPowerOfTwo(SecondStageSize(numBlocks, maxThreads)) && SecondStageSize(numBlocks, maxThreads) <= maxThreads
  {
    WarpSizeNumber();
    if numBlocks < maxThreads { LeastPower((numBlocks + 1) / 2, 32, maxThreads); }
  }

  /** The size on unsigned integers of 32 bits, as nextPow2 computes it. */
  method LaunchSize(numBlocks: nat, maxThreads: nat) returns (size: nat)
    requires maxThreads < 0x1_0000_0000
    ensures size == SecondStageSize(numBlocks, maxThreads)
  {
    size := maxThreads;
    if numBlocks < maxThreads {
      var half := (numBlocks + 1) / 2;
      NumberOfWord(half);
      HighNumber();
      NumberOrder(Word(half), 0x8000_0000);
      var power := NextPow2(Word(half));
      size := Number(power);
    }
  }

  // ------------------------------------------------------------------ two stages

  /** The region of an image that is to be reduced, which may be all of it. */
  datatype Region = Region(imgWidth: nat, imgHeight: nat, offsetX: nat, offsetY: nat, width: nat, height: nat) {
    ghost predicate Valid() {
      && width >= 1 && height >= 1 && offsetX + width <= imgWidth && offsetY + height <= imgHeight
      // a smaller region at the origin is launched without the arguments its kernel expects
      && (offsetX == 0 && offsetY == 0 ==> width == imgWidth && height == imgHeight)
    }

    ghost function Pixels(): set<Pixel> {
      set x, y | offsetX <= x < offsetX + width && offsetY <= y < offsetY + height && IsPixel(x, y) :: (x, y)
    }

    // idle blocks left and right of the region, and the columns that remain
    function IdleLeft(bs: nat): nat
      requires bs >= 1
    {
      BelowFloor(-1, offsetX, bs);
      offsetX / bs
    }

    function IdleRight(bs: nat): int
      requires bs >= 1
    {
      (imgWidth - (offsetX + width)) / bs
    }

    function Span(bs: nat): int
      requires bs >= 1
    {
      imgWidth - (IdleLeft(bs) + IdleRight(bs)) * bs
    }

    /** The launch, in columns right of the idle blocks. */
    function Shape(bs: nat, ppt: nat): Reductions.Shape
      requires bs >= 1
    {
      var from := offsetX % bs;
      Reductions.Shape(from, from + width, height, bs, ppt)
    }

    /** Idle blocks are whole ones: less than a block remains on either side of the region. */
    lemma Remaining(bs: nat)
      requires Valid() && bs >= 1
      ensures Start(IdleLeft(bs), bs) == offsetX - offsetX % bs
      ensures var sh := Shape(bs, 1);
        sh.from < bs && sh.to <= Span(bs) < sh.to + bs
    {
      var right := imgWidth - (offsetX + width);
      assert offsetX == IdleLeft(bs) * bs + offsetX % bs;
      assert right == IdleRight(bs) * bs + right % bs;
      assert (IdleLeft(bs) + IdleRight(bs)) * bs == IdleLeft(bs) * bs + IdleRight(bs) * bs;
    }
  }

  predicate IsPixel(x: int, y: int) { x >= 0 && y >= 0 }

  /** The pixels of a launch's region, in its columns. */
  ghost function Inside(sh: Shape): set<Pixel> {
    set x, y | sh.from <= x < sh.to && 0 <= y < sh.height && IsPixel(x, y) :: (x, y)
  }

  function GroupsX(sh: Shape, span: int): int
    requires sh.Valid()
  {
    CeilDiv(span, 2 * sh.bs)
  }

  function GroupsY(sh: Shape): int
    requires sh.Valid()
  {
    CeilDiv(sh.height, sh.ppt)
  }

  /** Everything the first stage reads, each pixel once. */
  ghost function FirstStageReads(sh: Shape, span: int): set<Pixel>
    requires sh.Valid()
  {
    Loaded(sh, Start(GroupsX(sh, span), 2 * sh.bs), 0, Start(GroupsY(sh), sh.ppt))
  }

  /** Cells behind the partial results that the second stage reads. */
  ghost function Behind(numBlocks: int, size: int): set<int> {
    set i | numBlocks <= i < size && !IsBelow(i, numBlocks)
  }

  function Move(dx: int, dy: int): Pixel -> Pixel { (p: Pixel) => (p.0 + dx, p.1 + dy) }

  function ReadFrom<T>(read: Pixel -> T, dx: int, dy: int): Pixel -> T { p => read(Move(dx, dy)(p)) }

  /** The launch as the host computes it: groups in x, groups in y, and pixels of idle blocks. */
  method LaunchGroups(acc: Region, bs: nat, ppt: nat) returns (groupsX: nat, groupsY: nat, block: nat)
    requires acc.Valid() && bs >= 1 && ppt >= 1
    ensures groupsX == GroupsX(acc.Shape(bs, ppt), acc.Span(bs)) && groupsY == GroupsY(acc.Shape(bs, ppt))
    ensures groupsX >= 1 && groupsY >= 1 && block == acc.offsetX - acc.offsetX % bs
  {
    LaunchCounts(acc, bs, ppt);
    hide CeilDiv, IsPixel, Region.Span, Region.Shape, GroupsX, GroupsY, GlobalSize;
    var globalX := GlobalSize(acc.imgWidth, bs);
    var globalY := CeilDiv(acc.height, ppt);
    block := 0;
    if (acc.offsetX != 0 || acc.offsetY != 0) && (acc.width != acc.imgWidth || acc.height != acc.imgHeight) {
      var idleLeft := acc.offsetX / bs;
      var idleRight := (acc.imgWidth - (acc.offsetX + acc.width)) / bs;
      SpanIs(acc, bs, idleLeft, idleRight);
      globalX := GlobalSize(acc.imgWidth - (idleLeft + idleRight) * bs, bs);
      block := idleLeft * bs;
    } else {
      NothingIdle(acc, bs);
    }
    groupsX, groupsY := globalX / bs, globalY;
    GroupsFrom(acc.Span(bs), bs);
  }

  lemma LaunchCounts(acc: Region, bs: nat, ppt: nat)
    requires acc.Valid() && bs >= 1 && ppt >= 1
    ensures var sh := acc.Shape(bs, ppt);
      && sh.Valid() && GroupsX(sh, acc.Span(bs)) == CeilDiv(acc.Span(bs), 2 * bs) >= 1
      && GroupsY(sh) == CeilDiv(acc.height, ppt) >= 1
  {
    acc.Remaining(bs);
    GroupCounts(acc.Shape(bs, ppt), acc.Span(bs));
  }

  /** Work items in x for a number of columns, two of which each takes. */
  function GlobalSize(columns: int, bs: nat): int
    requires bs >= 1
  {
    CeilDiv(columns, bs * 2) * bs
  }

  lemma GroupsFrom(columns: int, bs: nat)
    requires bs >= 1
    ensures GlobalSize(columns, bs) / bs == CeilDiv(columns, 2 * bs)
  {
    var count := CeilDiv(columns, 2 * bs);
    hide CeilDiv;
    QuotientFrom(count * bs, count, bs);
  }

  lemma SpanIs(acc: Region, bs: nat, idleLeft: nat, idleRight: int)
    requires acc.Valid() && bs >= 1
    requires idleLeft == acc.offsetX / bs && idleRight == (acc.imgWidth - (acc.offsetX + acc.width)) / bs
    ensures acc.Span(bs) == acc.imgWidth - (idleLeft + idleRight) * bs
    ensures idleLeft * bs == acc.offsetX - acc.offsetX % bs
  {
    acc.Remaining(bs);
  }

  lemma NothingIdle(acc: Region, bs: nat)
    requires acc.Valid() && bs >= 1 && acc.offsetX == 0 && acc.width == acc.imgWidth
    ensures acc.Span(bs) == acc.imgWidth && acc.offsetX % bs == 0
  {
    QuotientFrom(0, 0, bs);
  }

  /** The whole reduction.  `outside` is the memory behind the buffer of partial results.  In
      general the result folds everything the first stage reads and whatever lies behind the
      partial results; under the two conditions that is the region. */
  method Apply<T(0,!new)>(f: (T, T) -> T, read: Pixel -> T, outside: int -> T, acc: Region, bs: nat, ppt: nat)
    returns (result: T)
    requires AssociativeCommutative(f) && acc.Valid() && ppt >= 1 && IsPowerOfTwo(bs) && 32 <= bs < 0x1_0000_0000
    ensures var sh, span := acc.Shape(bs, ppt), acc.Span(bs);
      && GroupsX(sh, span) >= 1 && GroupsY(sh) >= 1
      && var n := GroupsX(sh, span) * GroupsY(sh);
      && n >= 1 && SecondStageSize(n, bs) <= bs
      && Some(result) ==
           Join(f, Sum(f, ReadFrom(read, acc.offsetX - acc.offsetX % bs, acc.offsetY), FirstStageReads(sh, span)),
                Sum(f, outside, Behind(n, SecondStageSize(n, bs))))
      && (ReadsInsideOnly(sh, span) && EnoughPartials(n, bs) ==> Some(result) == Sum(f, read, acc.Pixels()))
  {
    hide AssociativeCommutative, Sum, SumSeq, Below, Behind, FirstStageReads, Inside, IsPowerOfTwo, Region.Pixels,
      Region.Span, ReadFrom, ReadsInsideOnly;
    ghost var sh, span := acc.Shape(bs, ppt), acc.Span(bs);
    acc.Remaining(bs);
    var groupsX, groupsY, block := LaunchGroups(acc, bs, ppt);
    MulMono(1, groupsX, groupsY);
    var numBlocks: nat := groupsX * groupsY;
    var moved := ReadFrom(read, block, acc.offsetY);
    FirstStageReadsIs(sh, span);
    var output := ReduceImage(f, moved, acc.Shape(bs, ppt), groupsX, groupsY);
    var size := LaunchSize(numBlocks, bs);
    SecondStageSizeIsPower(numBlocks, bs);
    var memory := (i: int) => if 0 <= i < |output| then output[i] else outside(i);
    result := ReducePartials(f, memory, numBlocks, size);
    SumSeqIndices(f, output, memory);
    SplitMemory(f, memory, outside, numBlocks, size);
    if ReadsInsideOnly(sh, span) && EnoughPartials(numBlocks, bs) {
      FirstStageReadsIff(sh, span);
      NothingBehindIff(numBlocks, bs);
      SumNone(f, outside);
      RegionIsInside(f, read, acc, bs, ppt);
    }
  }

  /** Moving the region to the launch's columns does not change its fold. */
  lemma RegionIsInside<T(!new)>(f: (T, T) -> T, read: Pixel -> T, acc: Region, bs: nat, ppt: nat)
    requires AssociativeCommutative(f) && acc.Valid() && bs >= 1
    ensures Sum(f, ReadFrom(read, acc.offsetX - acc.offsetX % bs, acc.offsetY), Inside(acc.Shape(bs, ppt)))
         == Sum(f, read, acc.Pixels())
  {
    acc.Remaining(bs);
    MulMono(0, acc.IdleLeft(bs), bs);
    var dx, dy := acc.offsetX - acc.offsetX % bs, acc.offsetY;
    hide AssociativeCommutative, Sum;
    SumMoved(f, read, acc.Shape(bs, ppt), acc, dx, dy);
  }

  lemma SumMoved<T(!new)>(f: (T, T) -> T, read: Pixel -> T, sh: Shape, acc: Region, dx: int, dy: int)
    requires AssociativeCommutative(f) && dx >= 0 && sh.from + dx == acc.offsetX && dy == acc.offsetY
    requires sh.to - sh.from == acc.width && sh.height == acc.height
    ensures Sum(f, ReadFrom(read, dx, dy), Inside(sh)) == Sum(f, read, acc.Pixels())
  {
    hide AssociativeCommutative, Sum, Inside, Region.Pixels, Move;
    var inside, move := Inside(sh), Move(dx, dy);
    MovedInside(sh, acc, dx, dy);
    MoveIsOneToOne(dx, dy);
    SumReindex(f, ReadFrom(read, dx, dy), read, move, inside, acc.Pixels());
  }

  lemma MoveIsOneToOne(dx: int, dy: int)
    ensures forall a, b :: Move(dx, dy)(a) == Move(dx, dy)(b) ==> a == b
  {
  }

  lemma MovedInside(sh: Shape, acc: Region, dx: int, dy: int)
    requires dx >= 0 && sh.from + dx == acc.offsetX && dy == acc.offsetY
    requires sh.to - sh.from == acc.width && sh.height == acc.height
    ensures (set p | p in Inside(sh) :: Move(dx, dy)(p)) == acc.Pixels()
  {
    var moved := set p | p in Inside(sh) :: Move(dx, dy)(p);
    forall p: Pixel
      ensures p in moved <==> p in acc.Pixels()
    {
      if p in acc.Pixels() {
        assert (p.0 - dx, p.1 - dy) in Inside(sh) && Move(dx, dy)((p.0 - dx, p.1 - dy)) == p;
      }
    }
  }

  lemma GroupCounts(sh: Shape, span: int)
    requires sh.Valid() && span >= 1
    ensures GroupsX(sh, span) >= 1 && GroupsY(sh) >= 1
  {
    BelowCeil(0, span, 2 * sh.bs);
    BelowCeil(0, sh.height, sh.ppt);
  }

  lemma FirstStageReadsIs(sh: Shape, span: int)
    requires sh.Valid()
    ensures FirstStageReads(sh, span) == Loaded(sh, Start(GroupsX(sh, span), 2 * sh.bs), 0, Start(GroupsY(sh), sh.ppt))
  {
  }

  lemma SplitMemory<T(!new)>(f: (T, T) -> T, memory: int -> T, outside: int -> T, n: nat, size: nat)
    requires AssociativeCommutative(f) && forall i :: i >= n ==> memory(i) == outside(i)
    ensures Sum(f, memory, Below(if n < size then size else n))
         == Join(f, Sum(f, memory, Below(n)), Sum(f, outside, Behind(n, size)))
  {
    hide AssociativeCommutative, Sum;
    assert Below(if n < size then size else n) == Below(n) + Behind(n, size);
    SumUnion(f, memory, Below(n), Behind(n, size));
    SumAgree(f, memory, outside, Behind(n, size));
  }

  // ---------------------------------------------------------- when it is the region

  /** Every thread finds one of its two columns inside: only then does none take the unguarded
      else branch to a column outside. */
  predicate ReadsInsideOnly(sh: Shape, span: int)
    requires sh.Valid()
  {
    && Start(GroupsX(sh, span) - 1, 2 * sh.bs) + sh.bs <= sh.to
    && (sh.from > 0 ==> sh.to - sh.from >= sh.bs)
  }

  /** For a whole image: the last column of groups has no idle thread. */
  lemma WholeImageIff(sh: Shape)
    requires sh.Valid() && sh.from == 0
    ensures ReadsInsideOnly(sh, sh.to) <==> sh.to % (2 * sh.bs) == 0 || sh.to % (2 * sh.bs) >= sh.bs
  {
    var w := 2 * sh.bs;
    var q, r := sh.to / w, sh.to % w;
    assert sh.to == Start(q, w) + r;
    var n := GroupsX(sh, sh.to);
    BelowCeil(q, sh.to, w);
    BelowCeil(q - 1, sh.to, w);
    BelowCeil(q + 1, sh.to, w);
    assert Start(q - 1, w) + w == Start(q, w) by { assert (q - 1) * w == q * w - w; }
    assert Start(q + 1, w) == Start(q, w) + w by { assert (q + 1) * w == q * w + w; }
    assert n == if r == 0 then q else q + 1;
  }

  /** Less than a block remains beside the region. */
  predicate Fits(sh: Shape, span: int) { sh.from < sh.bs && sh.to <= span < sh.to + sh.bs }

  /** The first stage reads exactly the pixels of the region, if and only if. */
  lemma FirstStageReadsIff(sh: Shape, span: int)
    requires sh.Valid() && Fits(sh, span)
    ensures FirstStageReads(sh, span) == Inside(sh) <==> ReadsInsideOnly(sh, span)
  {
    if ReadsInsideOnly(sh, span) {
      forall x, y
        ensures (x, y) in FirstStageReads(sh, span) <==> (x, y) in Inside(sh)
      {
        if (x, y) in Inside(sh) { InsideIsRead(sh, span, x, y); }
        if (x, y) in FirstStageReads(sh, span) { ReadIsInside(sh, span, x, y); }
      }
    } else {
      var x := OutsideIsRead(sh, span);
    }
  }

  lemma InsideIsRead(sh: Shape, span: int, x: int, y: int)
    requires sh.Valid() && Fits(sh, span) && sh.In(x) && 0 <= y < sh.height
    ensures (x, y) in FirstStageReads(sh, span)
  {
    var w := 2 * sh.bs;
    QuotientIn(x, span, w);
    QuotientIn(y, sh.height, sh.ppt);
    MulMono(x / w + 1, GroupsX(sh, span), w);
    MulMono(y / sh.ppt + 1, GroupsY(sh), sh.ppt);
    assert (x / w + 1) * w == Start(x / w, w) + w;
    assert (y / sh.ppt + 1) * sh.ppt == Start(y / sh.ppt, sh.ppt) + sh.ppt;
    assert LoadedAt(sh, x, y);
  }

  lemma ReadIsInside(sh: Shape, span: int, x: int, y: int)
    requires sh.Valid() && Fits(sh, span) && ReadsInsideOnly(sh, span) && (x, y) in FirstStageReads(sh, span)
    ensures sh.In(x) && 0 <= y < sh.height
  {
    var w := 2 * sh.bs;
    var bi, bj, last := x / w, y / sh.ppt, GroupsX(sh, span) - 1;
    StartsBefore(x, last + 1, w);
    StartsBefore(y, GroupsY(sh), sh.ppt);
    BelowCeil(bj, sh.height, sh.ppt);
    MulMono(bi, last, w);
    if bi > 0 { MulMono(1, bi, w); }
    assert LoadedAt(sh, x, y);
  }

  lemma StartsBefore(n: int, q: int, b: int)
    requires b > 0 && 0 <= n < Start(q, b)
    ensures 0 <= n / b < q && Start(n / b, b) <= n < Start(n / b, b) + b
  {
    BelowFloor(-1, n, b);
    BelowFloor(q - 1, n, b);
    assert End(q - 1, b) == Start(q, b) by { assert (q - 1) * b == q * b - b; }
    assert n == (n / b) * b + n % b;
  }

  /** Otherwise the first idle thread of the last group reads a pixel right of the region, or the
      last one left of the region does. */
  lemma OutsideIsRead(sh: Shape, span: int) returns (x: int)
    requires sh.Valid() && Fits(sh, span) && !ReadsInsideOnly(sh, span)
    ensures !sh.In(x) && (x, 0) in FirstStageReads(sh, span) && (x, 0) !in Inside(sh)
  {
    var w, last := 2 * sh.bs, GroupsX(sh, span) - 1;
    GroupCounts(sh, span);
    BelowCeil(last, span, w);
    MulMono(0, last, w);
    MulMono(1, GroupsY(sh), sh.ppt);
    MulMono(1, last + 1, w);
    QuotientFrom(0, 0, sh.ppt);
    assert (last + 1) * w == Start(last, w) + w;
    if Start(last, w) + sh.bs > sh.to {
      var gx := if sh.to < Start(last, w) then Start(last, w) else sh.to;
      x := gx + sh.bs;
      QuotientFrom(x, last, w);
    } else {
      x := sh.from - 1 + sh.bs;
      QuotientFrom(x, 0, w);
    }
    assert LoadedAt(sh, x, 0);
  }

  /** Enough partial results to feed every thread of the second stage. */
  predicate EnoughPartials(numBlocks: nat, maxThreads: nat) {
    numBlocks >= 32 || numBlocks >= maxThreads
  }

  /** Nothing behind the partial results is read, if and only if. */
  lemma NothingBehindIff(numBlocks: nat, maxThreads: nat)
    ensures Behind(numBlocks, SecondStageSize(numBlocks, maxThreads)) == {} <==> EnoughPartials(numBlocks, maxThreads)
  {
    var size := SecondStageSize(numBlocks, maxThreads);
    if size > numBlocks {
      assert numBlocks in Behind(numBlocks, size);
    }
  }
}
