/** Launch arithmetic of a GPU kernel (runtime/hipacc_cl.hpp): how many blocks cover the
    iteration space and which of them touch a border.  Quotients are exact, SIMD width is 1. */
module Launch {

  function CeilDiv(a: int, b: int): int
    requires b > 0
  {
    (a + b - 1) / b
  }

  /** The pixels of block n are those from Start to just before End. */
  function Start(n: int, b: int): int { n * b }
  function End(n: int, b: int): int { n * b + b }

  lemma MulMono(a: int, b: int, c: int)
    requires a <= b && c >= 0
    ensures a * c <= b * c
  {
    assert b * c == a * c + (b - a) * c;
  }

  /** Block n starts before position a. */
  lemma BelowCeil(n: int, a: int, b: int)
    requires b > 0
    ensures n < CeilDiv(a, b) <==> Start(n, b) < a
  {
    var q := CeilDiv(a, b);
    assert q * b <= a + b - 1 < q * b + b;
    if n < q {
      MulMono(n, q - 1, b);
      assert (q - 1) * b == q * b - b;
    } else {
      MulMono(q, n, b);
    }
  }

  /** Block n ends at or before position a. */
  lemma BelowFloor(n: int, a: int, b: int)
    requires b > 0
    ensures n < a / b <==> End(n, b) <= a
  {
    var q := a / b;
    assert q * b <= a < q * b + b;
    if n < q {
      MulMono(n + 1, q, b);
      assert (n + 1) * b == n * b + b;
    } else {
      MulMono(q, n, b);
    }
  }

  /** A position inside a bound lies in one of the blocks that cover the bound, ... */
  lemma QuotientIn(n: int, bound: int, b: int)
    requires b > 0 && 0 <= n < bound
    ensures 0 <= n / b < CeilDiv(bound, b) && Start(n / b, b) + n % b == n
  {
    BelowCeil(n / b, bound, b);
    BelowFloor(-1, n, b);
  }

  /** ... and in no other. */
  lemma QuotientFrom(n: int, q: int, b: int)
    requires b > 0 && Start(q, b) <= n < End(q, b)
    ensures n / b == q && n % b == n - Start(q, b)
  {
    BelowFloor(q, n, b);
    BelowFloor(q - 1, n, b);
    assert End(q - 1, b) == Start(q, b) by { assert (q - 1) * b == q * b - b; }
  }

  /** The compile-time and launch-time parameters.  sizeX and sizeY are window radii. */
  datatype Geometry = Geometry(sizeX: nat, sizeY: nat, isWidth: nat, isHeight: nat, offsetX: nat,
                               ppt: nat, blockX: nat, blockY: nat)
  {
    ghost predicate Valid() {
      && ppt >= 1 && blockX >= 1 && blockY >= 1
      // block[1] has type size_t: a smaller height makes the difference wrap around
      && (sizeY > 0 ==> isHeight >= CeilDiv(2 * sizeY, blockY) * blockY)
    }

    function TileHeight(): int { blockY * ppt }

    function StartLeft(): int
      requires blockX >= 1
    {
      if sizeX > 0 then CeilDiv(offsetX + sizeX, blockX) else 0
    }

    function StartRight(): int
      requires blockX >= 1
    {
      if sizeX > 0 then (offsetX + isWidth - sizeX) / blockX else (offsetX + isWidth) / blockX
    }

    function StartTop(): int
      requires TileHeight() >= 1
    {
      if sizeY > 0 then CeilDiv(sizeY, TileHeight()) else 0
    }

    function StartBottom(): int
      requires TileHeight() >= 1 && blockY >= 1
    {
      if sizeY > 0 then (isHeight - CeilDiv(2 * sizeY, blockY) * blockY) / TileHeight() else isHeight / TileHeight()
    }

    predicate FallBack()
      requires blockX >= 1 && TileHeight() >= 1 && blockY >= 1
    {
      !(StartRight() - StartLeft() > 1 && StartBottom() - StartTop() > 1)
    }

    function BlocksX(): int
      requires blockX >= 1
    {
      CeilDiv(isWidth + offsetX, blockX)
    }

    function BlocksY(): int
      requires TileHeight() >= 1
    {
      CeilDiv(isHeight, TileHeight())
    }

    lemma TileHeightPositive()
      requires ppt >= 1 && blockY >= 1
      ensures TileHeight() >= 1
    {
      assert blockY * ppt >= blockY * 1;
    }
  }

  /** The run-time launch record. */
  class LaunchInfo {
    const sizeX: nat
    const sizeY: nat
    const isWidth: nat
    const isHeight: nat
    const offsetX: nat
    const pixelsPerThread: nat
    var bhStartLeft: int
    var bhStartRight: int
    var bhStartTop: int
    var bhStartBottom: int
    var bhFallBack: bool

    constructor (sizeX: nat, sizeY: nat, isWidth: nat, isHeight: nat, offsetX: nat, pixelsPerThread: nat)
      ensures this.sizeX == sizeX && this.sizeY == sizeY && this.isWidth == isWidth && this.isHeight == isHeight
      ensures this.offsetX == offsetX && this.pixelsPerThread == pixelsPerThread
    {
      this.sizeX, this.sizeY, this.isWidth, this.isHeight := sizeX, sizeY, isWidth, isHeight;
      this.offsetX, this.pixelsPerThread := offsetX, pixelsPerThread;
      bhStartLeft, bhStartRight, bhStartTop, bhStartBottom, bhFallBack := 0, 0, 0, 0, false;
    }

    function At(block: (nat, nat)): Geometry {
      Geometry(sizeX, sizeY, isWidth, isHeight, offsetX, pixelsPerThread, block.0, block.1)
    }

    /** hipaccPrepareKernelLaunch.  The ensures say what the four bounds mean for a block
        number n, independently of the quotients that compute them. */
    method PrepareKernelLaunch(block: (nat, nat))
      requires At(block).Valid()
      modifies this
      ensures At(block).TileHeight() >= 1
      ensures forall n: int :: n < bhStartLeft <==> if sizeX > 0 then Start(n, block.0) < offsetX + sizeX else n < 0
      ensures forall n: int :: n < bhStartRight <==> End(n, block.0) <= offsetX + isWidth - sizeX
      ensures forall n: int :: n < bhStartTop <==> if sizeY > 0 then Start(n, At(block).TileHeight()) < sizeY else n < 0
      ensures forall n: int :: n < bhStartBottom <==>
        End(n, At(block).TileHeight()) <= isHeight - CeilDiv(2 * sizeY, block.1) * block.1
      ensures bhFallBack <==> bhStartRight <= bhStartLeft + 1 || bhStartBottom <= bhStartTop + 1
      ensures bhStartLeft == At(block).StartLeft() && bhStartRight == At(block).StartRight()
      ensures bhStartTop == At(block).StartTop() && bhStartBottom == At(block).StartBottom()
      ensures bhFallBack == At(block).FallBack()
    {
      At(block).TileHeightPositive();
      if sizeX > 0 {
        bhStartLeft := CeilDiv(offsetX + sizeX, block.0);
        bhStartRight := (offsetX + isWidth - sizeX) / block.0;
      } else {
        bhStartLeft := 0;
        bhStartRight := (offsetX + isWidth) / block.0;
      }
      if sizeY > 0 {
        var pAdd := CeilDiv(2 * sizeY, block.1);
        bhStartTop := CeilDiv(sizeY, pixelsPerThread * block.1);
        bhStartBottom := (isHeight - pAdd * block.1) / (block.1 * pixelsPerThread);
      } else {
        bhStartTop := 0;
        bhStartBottom := isHeight / (block.1 * pixelsPerThread);
      }
      if bhStartRight - bhStartLeft > 1 && bhStartBottom - bhStartTop > 1 {
        bhFallBack := false;
      } else {
        bhFallBack := true;
      }
      forall n: int { RegionBounds(At(block), n); }
    }
  }

  /** What the region bounds mean for a block number n. */
  lemma RegionBounds(g: Geometry, n: int)
    requires g.Valid()
    ensures g.TileHeight() >= 1
    ensures n < g.StartLeft() <==> if g.sizeX > 0 then Start(n, g.blockX) < g.offsetX + g.sizeX else n < 0
    ensures n < g.StartRight() <==> End(n, g.blockX) <= g.offsetX + g.isWidth - g.sizeX
    ensures n < g.StartTop() <==> if g.sizeY > 0 then Start(n, g.TileHeight()) < g.sizeY else n < 0
    ensures n < g.StartBottom() <==>
      End(n, g.TileHeight()) <= g.isHeight - CeilDiv(2 * g.sizeY, g.blockY) * g.blockY
  {
    g.TileHeightPositive();
    hide CeilDiv, Start, End, Geometry.TileHeight;
    var halo := CeilDiv(2 * g.sizeY, g.blockY) * g.blockY;
    if g.sizeY == 0 { BelowCeil(0, 0, g.blockY); BelowCeil(-1, 0, g.blockY); }
    BelowCeil(n, g.offsetX + g.sizeX, g.blockX);
    BelowFloor(n, g.offsetX + g.isWidth - g.sizeX, g.blockX);
    BelowCeil(n, g.sizeY, g.TileHeight());
    BelowFloor(n, g.isHeight - halo, g.TileHeight());
  }
}
