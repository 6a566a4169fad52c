/** The DSL's global reduction (Kernel::reduce, dsl/kernel.hpp) and the two-stage reduction that
    replaces it on a GPU. */
module KernelReduce {
  import opened Launch
  import opened Folds
  import opened Domains
  import opened Reductions
  import opened ApplyReduction

  /** The pixels of the output image in the order of the iterator. */
  ghost function Raster<T>(read: Pixel -> T, width: nat, n: nat): seq<T>
    requires width >= 1
  {
    seq(n, k requires 0 <= k < n => read(CellAt(width, k)))
  }

  /** Kernel::reduce: the first pixel of the iteration space, then the others from left to right,
      row by row. */
  method DslReduce<T>(f: (T, T) -> T, read: Pixel -> T, width: nat, height: nat, offsetX: int, offsetY: int)
    returns (result: T)
    requires width >= 1 && height >= 1
    ensures Some(result) == SumSeq(f, Raster(ReadFrom(read, offsetX, offsetY), width, Start(height, width)))
  {
    var iter := new ElementIterator(width, height, offsetX, offsetY);
    ghost var size, moved := Start(height, width), ReadFrom(read, offsetX, offsetY);
    NextPosition(0, height, width);
    MulMono(1, height, width);
    hide CellAt, Start, SumSeq, ReadFrom, Raster, ElementIterator.Position;
    FirstCell(width);
    CellIsRead(read, offsetX, offsetY, CellAt(width, 0));
    result := read((iter.x, iter.y));
    FirstOfRaster(f, moved, width);
    ghost var n := 1;
    FirstPosition(iter);
    iter.Next();
    while iter.active
      invariant iter.Valid() && iter.minX == offsetX && iter.minY == offsetY
      invariant iter.maxX == offsetX + width && iter.maxY == offsetY + height
      invariant n == iter.Position() && 1 <= n <= size && (iter.active <==> n < size)
      invariant Some(result) == SumSeq(f, Raster(moved, width, n))
      decreases size - n
    {
      PositionIsCell(iter, width);
      CellIsRead(read, offsetX, offsetY, CellAt(width, n));
      NextOfRaster(f, moved, width, n);
      result := f(result, read((iter.x, iter.y)));
      n := n + 1;
      iter.Next();
    }
  }

  lemma FirstCell(width: nat)
    requires width >= 1
    ensures CellAt(width, 0) == (0, 0)
  {
    CellAtPosition(width, (0, 0));
  }

  lemma FirstPosition(iter: ElementIterator)
    requires iter.Valid() && iter.x == iter.minX && iter.y == iter.minY
    ensures iter.Position() == 0
  {
  }

  lemma PositionIsCell(iter: ElementIterator, width: nat)
    requires iter.Valid() && iter.active && iter.maxX - iter.minX == width
    ensures iter.Position() >= 0 && CellAt(width, iter.Position()) == (iter.x - iter.minX, iter.y - iter.minY)
  {
    CellAtPosition(width, (iter.x - iter.minX, iter.y - iter.minY));
    MulMono(0, iter.y - iter.minY, width);
  }

  lemma CellIsRead<T>(read: Pixel -> T, dx: int, dy: int, c: Cell)
    ensures ReadFrom(read, dx, dy)((c.0, c.1)) == read((c.0 + dx, c.1 + dy))
  {
    assert Move(dx, dy)((c.0, c.1)) == (c.0 + dx, c.1 + dy);
  }

  lemma FirstOfRaster<T>(f: (T, T) -> T, read: Pixel -> T, width: nat)
    requires width >= 1
    ensures SumSeq(f, Raster(read, width, 1)) == Some(read(CellAt(width, 0)))
  {
    SumSeqAppend(f, [], read(CellAt(width, 0)));
    assert Raster(read, width, 1) == [] + [read(CellAt(width, 0))];
  }

  lemma NextOfRaster<T>(f: (T, T) -> T, read: Pixel -> T, width: nat, n: nat)
    requires width >= 1
    ensures SumSeq(f, Raster(read, width, n + 1)) ==
      Join(f, SumSeq(f, Raster(read, width, n)), Some(read(CellAt(width, n))))
  {
    SumSeqAppend(f, Raster(read, width, n), read(CellAt(width, n)));
    assert Raster(read, width, n + 1) == Raster(read, width, n) + [read(CellAt(width, n))];
  }

  /** The pixels at the first n positions. */
  ghost function FirstPixels(width: nat, n: nat): set<Pixel>
    requires width >= 1
  {
    set k: nat | k < n :: CellAt(width, k)
  }

  /** In whatever order, the fold of the first n pixels is the same. */
  lemma {:induction false} RasterIsSum<T(!new)>(f: (T, T) -> T, read: Pixel -> T, width: nat, n: nat)
    requires AssociativeCommutative(f) && width >= 1
    ensures SumSeq(f, Raster(read, width, n)) == Sum(f, read, FirstPixels(width, n))
  {
    hide AssociativeCommutative, CellAt, Join, Sum;
    if n == 0 {
      SumNone(f, read);
      assert Raster(read, width, 0) == [] && FirstPixels(width, 0) == {};
    } else {
      RasterIsSum(f, read, width, n - 1);
      NextOfRaster(f, read, width, n - 1);
      PixelIsNew(width, n - 1);
      hide FirstPixels, Raster, SumSeq;
      SumInsert(f, read, FirstPixels(width, n - 1), CellAt(width, n - 1));
    }
  }

  lemma PixelIsNew(width: nat, n: nat)
    requires width >= 1
    ensures CellAt(width, n) !in FirstPixels(width, n)
    ensures FirstPixels(width, n + 1) == FirstPixels(width, n) + {CellAt(width, n)}
  {
    forall k: nat | k < n ensures CellAt(width, k) != CellAt(width, n) {
      PositionOfCellAt(width, k);
      PositionOfCellAt(width, n);
    }
  }

  function Whole(width: nat, height: nat): Shape { Shape(0, width, height, 1, 1) }

  lemma FirstPixelsAreImage(width: nat, height: nat)
    requires width >= 1
    ensures FirstPixels(width, Start(height, width)) == Inside(Whole(width, height))
  {
    forall x: nat, y: nat | x < width && y < height
      ensures (x, y) in FirstPixels(width, Start(height, width))
    {
      CellAtPosition(width, (x, y));
      NextPosition(y, height, width);
      var k := PositionOf(width, (x, y));
      assert k < Start(height, width);
    }
    forall k: nat | k < Start(height, width)
      ensures CellAt(width, k) in Inside(Whole(width, height))
    {
      PositionOfCellAt(width, k);
      if CellAt(width, k).1 >= height { MulMono(height, CellAt(width, k).1, width); }
    }
  }

  /** So the DSL's reduction is the fold of all pixels of the iteration space. */
  lemma DslFoldIsSum<T(!new)>(f: (T, T) -> T, read: Pixel -> T, acc: Region)
    requires AssociativeCommutative(f) && acc.Valid()
    ensures SumSeq(f, Raster(ReadFrom(read, acc.offsetX, acc.offsetY), acc.width, Start(acc.height, acc.width)))
         == Sum(f, read, acc.Pixels())
  {
    hide AssociativeCommutative, Sum, SumSeq, Raster, FirstPixels, Inside, ReadFrom, Region.Pixels;
    var moved := ReadFrom(read, acc.offsetX, acc.offsetY);
    NextPosition(0, acc.height, acc.width);
    MulMono(0, acc.height, acc.width);
    RasterIsSum(f, moved, acc.width, Start(acc.height, acc.width));
    FirstPixelsAreImage(acc.width, acc.height);
    SumMoved(f, read, Whole(acc.width, acc.height), acc, acc.offsetX, acc.offsetY);
  }

  /** The reduction on a GPU delivers the DSL's value, when it reads only the region and its
      second stage only partial results. */
  method GpuAndDsl<T(0,!new)>(f: (T, T) -> T, read: Pixel -> T, outside: int -> T, acc: Region, bs: nat, ppt: nat)
    returns (gpu: T, dsl: T)
    requires AssociativeCommutative(f) && acc.Valid() && ppt >= 1 && IsPowerOfTwo(bs) && 32 <= bs < 0x1_0000_0000
    ensures Some(dsl)
         == SumSeq(f, Raster(ReadFrom(read, acc.offsetX, acc.offsetY), acc.width, Start(acc.height, acc.width)))
    ensures var sh, span := acc.Shape(bs, ppt), acc.Span(bs);
      && GroupsX(sh, span) >= 1 && GroupsY(sh) >= 1
      && var n := GroupsX(sh, span) * GroupsY(sh);
      && n >= 1
      && Some(gpu) ==
           Join(f, Sum(f, ReadFrom(read, acc.offsetX - acc.offsetX % bs, acc.offsetY), FirstStageReads(sh, span)),
                Sum(f, outside, Behind(n, SecondStageSize(n, bs))))
      && (ReadsInsideOnly(sh, span) && EnoughPartials(n, bs) ==> gpu == dsl)
  {
    hide AssociativeCommutative, Sum, SumSeq, Join, FirstStageReads, Behind, ReadsInsideOnly, EnoughPartials,
      GroupsX, GroupsY, IsPowerOfTwo, Raster, ReadFrom, Region.Pixels, Region.Span, Region.Shape;
    gpu := Apply(f, read, outside, acc, bs, ppt);
    dsl := DslReduce(f, read, acc.width, acc.height, acc.offsetX, acc.offsetY);
    DslFoldIsSum(f, read, acc);
  }
}
