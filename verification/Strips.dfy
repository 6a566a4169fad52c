/** Strip parallelism of the stream filters (distributeN, collectN,
    runtime/hipacc_vivado_filter.hpp): rows are cut into n strips that overlap by an apron,
    each strip is processed on its own, and the results are put side by side again. */
module Strips {
  import opened Launch
  import opened Streams

  /** The APRON macro: the overlap in stream words of `vect` pixels. */
  function Apron(radius: nat, vect: nat): nat
    requires vect >= 1
  {
    if radius <= vect then 1
    else if radius % vect != 0 then radius / vect + 1
    else radius / vect
  }

  /** It is the least positive number of words that covers the radius. */
  lemma ApronCovers(radius: nat, vect: nat, words: nat)
    requires vect >= 1 && words >= 1
    ensures Apron(radius, vect) >= 1
    ensures words * vect >= radius <==> words >= Apron(radius, vect)
  {
    BelowCeil(words, radius, vect);
    BelowCeil(0, radius, vect);
    ApronIsCeil(radius, vect);
  }

  lemma ApronIsCeil(radius: nat, vect: nat)
    requires vect >= 1
    ensures Apron(radius, vect) == if CeilDiv(radius, vect) < 1 then 1 else CeilDiv(radius, vect)
  {
    var q, r := radius / vect, radius % vect;
    assert Start(q, vect) + r == radius;
    BelowCeil(0, radius, vect);
    BelowCeil(1, radius, vect);
    if r != 0 {
      QuotientFrom(radius + vect - 1, q + 1, vect) by { assert (q + 1) * vect == q * vect + vect; }
    } else {
      QuotientFrom(radius + vect - 1, q, vect);
    }
  }

  /** A row of `width` words cut into n strips of `part` words; the last takes the rest. */
  datatype Cut = Cut(n: nat, part: nat, apron: nat, width: nat) {
    predicate Valid() { n >= 2 && n * part <= width }

    // the columns strip k is responsible for, and those it receives
    function OwnStart(k: nat): int { k * part }
    function OwnEnd(k: nat): int { if k == n - 1 then width else k * part + part }
    function HaloStart(k: nat): int { if k == 0 then 0 else k * part - apron }
    function HaloEnd(k: nat): int { if k == n - 1 then width else k * part + part + apron }

    /** The comparison chain of distributeN from stream k on: the first and last stream that
        receive column col. */
    function Targets(col: nat, k: nat): (nat, nat)
      requires k < n
      decreases n - k
    {
      if k == n - 1 then (n - 1, n - 1)
      else if (if k == 0 then 0 else k * part + apron) <= col < k * part + part - apron then (k, k)
      else if k * part + part - apron <= col < k * part + part + apron then (k, k + 1)
      else Targets(col, k + 1)
    }

    predicate Receives(k: nat, col: nat)
      requires n >= 1
    {
      Targets(col, 0).0 <= k <= Targets(col, 0).1
    }

    /** The comparison chain of collectN. */
    function Source(col: nat, k: nat): nat
      requires k < n
      decreases n - k
    {
      if k == n - 1 then n - 1
      else if k * part <= col < k * part + part then k
      else Source(col, k + 1)
    }

    lemma Later(k: nat, k': nat)
      requires k <= k'
      ensures k * part + (k' - k) * part == k' * part && (k' - k) * part >= 0
      ensures k < k' ==> (k' - k) * part >= part
    {
      ProductOfSum(k, k' - k);
      MulMono(0, k' - k, part);
      if k < k' { MulMono(1, k' - k, part); }
    }

    lemma ProductOfSum(a: int, b: int)
      ensures a * part + b * part == (a + b) * part
    {
    }

    lemma {:induction false} TargetsAreHaloFrom(col: nat, j: nat, k: nat)
      requires Valid() && part >= 2 * apron && col < width && j < n && k < n
      requires j > 0 ==> j * part + apron <= col
      ensures Targets(col, j).0 <= k <= Targets(col, j).1 <==> HaloStart(k) <= col < HaloEnd(k)
      decreases n - j
    {
      if k < j { Later(k, j); } else { Later(j, k); }
      if j < n - 1 {
        if j + 1 < k { Later(j + 1, k); }
        assert (j + 1) * part == j * part + part;
        if col >= j * part + part + apron {
          TargetsAreHaloFrom(col, j + 1, k);
        }
      }
    }

    /** Stream k receives exactly its own columns and an apron on each inner side. */
    lemma TargetsAreHalo(col: nat, k: nat)
      requires Valid() && part >= 2 * apron && col < width && k < n
      ensures Receives(k, col) <==> HaloStart(k) <= col < HaloEnd(k)
    {
      TargetsAreHaloFrom(col, 0, k);
    }

    /** With three or more strips that is so exactly when a strip is at least two aprons
        wide; otherwise the branch for an earlier overlap shadows a later one. */
    lemma TargetsAreHaloIff()
      requires Valid() && n >= 3 && width >= 1
      ensures (forall col: nat, k: nat :: col < width && k < n ==>
          (Receives(k, col) <==> HaloStart(k) <= col < HaloEnd(k)))
        <==> part >= 2 * apron
    {
      if part >= 2 * apron {
        forall col: nat, k: nat | col < width && k < n
          ensures Receives(k, col) <==> HaloStart(k) <= col < HaloEnd(k)
        {
          TargetsAreHalo(col, k);
        }
      } else {
        var col: nat := if 2 * part >= apron then 2 * part - apron else 0;
        Later(3, n);
        assert Targets(col, 0) == (0, 1);
        assert HaloStart(2) <= col < HaloEnd(2) && !Receives(2, col);
      }
    }

    lemma {:induction false} SourceIsOwner(col: nat, j: nat)
      requires Valid() && col < width && j < n && j * part <= col
      ensures Source(col, j) < n && OwnStart(Source(col, j)) <= col < OwnEnd(Source(col, j))
      decreases n - j
    {
      if j < n - 1 && col >= j * part + part {
        assert (j + 1) * part == j * part + part;
        SourceIsOwner(col, j + 1);
      }
    }

    lemma OwnerIsUnique(col: nat, k: nat, k': nat)
      requires Valid() && k < n && k' < n
      requires OwnStart(k) <= col < OwnEnd(k) && OwnStart(k') <= col < OwnEnd(k')
      ensures k == k'
    {
      if k < k' { Later(k, k'); } else if k' < k { Later(k', k); }
    }

    lemma Bounds(k: nat)
      requires Valid() && part >= 2 * apron && k < n
      ensures 0 <= HaloStart(k) <= OwnStart(k) <= OwnEnd(k) <= HaloEnd(k) <= width
      ensures OwnStart(k) - HaloStart(k) == if k == 0 then 0 else apron
      ensures HaloEnd(k) - OwnEnd(k) == if k == n - 1 then 0 else apron
    {
      Later(0, k);
      if k > 0 { Later(0, k); }
      Later(k, n);
      if k < n - 1 { Later(k + 1, n); assert (k + 1) * part == k * part + part; }
    }

    /** What stream k receives of a row, and what it is responsible for. */
    ghost function Strip<T>(row: seq<T>, k: nat): seq<T>
      requires Valid() && part >= 2 * apron && k < n && |row| == width
    {
      Bounds(k);
      row[HaloStart(k)..HaloEnd(k)]
    }

    ghost function Own<T>(row: seq<T>, k: nat): seq<T>
      requires Valid() && part >= 2 * apron && k < n && |row| == width
    {
      Bounds(k);
      row[OwnStart(k)..OwnEnd(k)]
    }

    /** Cuts the halo off a processed strip. */
    function DropHalo<T>(s: seq<T>, k: nat): seq<T>
      requires k < n && (if k == 0 then 0 else apron) + (if k == n - 1 then 0 else apron) <= |s|
    {
      s[if k == 0 then 0 else apron..|s| - (if k == n - 1 then 0 else apron)]
    }
  }

  // --------------------------------------------------------------- row-local operators

  /** The columns up to `radius` left of x, and those from x on up to `radius` right of it. */
  function LeftOf<T>(row: seq<T>, x: nat, radius: nat): seq<T>
    requires x < |row|
  {
    row[if x < radius then 0 else x - radius..x]
  }

  function RightFrom<T>(row: seq<T>, x: nat, radius: nat): seq<T>
    requires x < |row|
  {
    row[x..if x + radius + 1 < |row| then x + radius + 1 else |row|]
  }

  /** An operator whose result at x depends on at most `radius` columns to each side. */
  function MapLocal<T, U>(op: (seq<T>, seq<T>) -> U, radius: nat, row: seq<T>): (res: seq<U>)
    ensures |res| == |row|
  {
    seq(|row|, x requires 0 <= x < |row| => op(LeftOf(row, x, radius), RightFrom(row, x, radius)))
  }

  /** What the operator sees at x: the columns from x - radius to x + radius that the row has, and
      where among them x is. */
  lemma SeesNeighbourhood<T>(row: seq<T>, x: nat, radius: nat)
    requires x < |row|
    ensures var left, right := LeftOf(row, x, radius), RightFrom(row, x, radius);
      && |left| == (if x < radius then x else radius)
      && |right| == (if x + radius < |row| then radius + 1 else |row| - x)
      && (forall k :: 0 <= k < |left| ==> left[k] == row[x - |left| + k])
      && (forall k :: 0 <= k < |right| ==> right[k] == row[x + k])
  {
  }

  /** A slice that reaches as far as the radius, or to the end of the row, shows the same
      neighbourhood. */
  lemma SliceIsEnough<T>(row: seq<T>, lo: nat, hi: nat, x: nat, radius: nat)
    requires lo <= x < hi <= |row|
    requires lo == 0 || lo + radius <= x
    requires hi == |row| || x + radius + 1 <= hi
    ensures LeftOf(row[lo..hi], x - lo, radius) == LeftOf(row, x, radius)
    ensures RightFrom(row[lo..hi], x - lo, radius) == RightFrom(row, x, radius)
  {
    var a, b := if x < radius then 0 else x - radius, if x + radius + 1 < |row| then x + radius + 1 else |row|;
    SliceOfSlice(row, lo, hi, a, x);
    SliceOfSlice(row, lo, hi, x, b);
  }

  lemma SliceOfSlice<T>(row: seq<T>, lo: nat, hi: nat, a: nat, b: nat)
    requires lo <= a <= b <= hi <= |row|
    ensures row[lo..hi][a - lo..b - lo] == row[a..b]
  {
    var outer := row[lo..hi];
    forall i | 0 <= i < b - a
      ensures outer[a - lo..b - lo][i] == row[a..b][i]
    {
      assert outer[a - lo..b - lo][i] == outer[a - lo + i] == row[a + i];
    }
  }

  /** Processing a strip with its halo and dropping the halo computes the strip's own part
      of the processed row. */
  lemma StripIsEnough<T, U>(c: Cut, op: (seq<T>, seq<T>) -> U, radius: nat, row: seq<T>, k: nat)
    requires c.Valid() && c.part >= 2 * c.apron && k < c.n && |row| == c.width && radius <= c.apron
    ensures (if k == 0 then 0 else c.apron) + (if k == c.n - 1 then 0 else c.apron) <= |c.Strip(row, k)|
    ensures c.DropHalo(MapLocal(op, radius, c.Strip(row, k)), k) == c.Own(MapLocal(op, radius, row), k)
  {
    c.Bounds(k);
    var lo, hi, start, end := c.HaloStart(k), c.HaloEnd(k), c.OwnStart(k), c.OwnEnd(k);
    assert (lo == 0 || lo + radius <= start) && (hi == |row| || end + radius <= hi);
    var strip := c.Strip(row, k);
    assert strip == row[lo..hi];
    ProcessedSlice(op, radius, row, lo, hi, start, end);
  }

  lemma ProcessedSlice<T, U>(op: (seq<T>, seq<T>) -> U, radius: nat, row: seq<T>, lo: nat, hi: nat, start: nat,
      end: nat)
    requires lo <= start <= end <= hi <= |row|
    requires lo == 0 || lo + radius <= start
    requires hi == |row| || end + radius <= hi
    ensures MapLocal(op, radius, row[lo..hi])[start - lo..end - lo] == MapLocal(op, radius, row)[start..end]
  {
    hide LeftOf, RightFrom;
    var strip := row[lo..hi];
    var mine, all := MapLocal(op, radius, strip), MapLocal(op, radius, row);
    forall i | 0 <= i < end - start
      ensures mine[start - lo..end - lo][i] == all[start..end][i]
    {
      SliceIsEnough(row, lo, hi, start + i, radius);
      assert mine[start - lo + i]
          == op(LeftOf(strip, start - lo + i, radius), RightFrom(strip, start - lo + i, radius));
      assert all[start + i] == op(LeftOf(row, start + i, radius), RightFrom(row, start + i, radius));
    }
  }

  // ------------------------------------------------------------------- distribution

  /** The columns stream k has received before column col of a row. */
  ghost function Received<T>(c: Cut, row: seq<T>, k: nat, col: nat): seq<T>
    requires c.Valid() && c.part >= 2 * c.apron && k < c.n && |row| == c.width && col <= c.width
  {
    c.Bounds(k);
    if col <= c.HaloStart(k) then []
    else row[c.HaloStart(k)..if col < c.HaloEnd(k) then col else c.HaloEnd(k)]
  }

  lemma ReceivedStep<T>(c: Cut, row: seq<T>, k: nat, col: nat)
    requires c.Valid() && c.part >= 2 * c.apron && k < c.n && |row| == c.width && col < c.width
    ensures Received(c, row, k, col + 1) == Received(c, row, k, col) + (if c.Receives(k, col) then [row[col]] else [])
  {
    c.Bounds(k);
    c.TargetsAreHalo(col, k);
  }

  lemma ReceivedAll<T>(c: Cut, row: seq<T>, k: nat)
    requires c.Valid() && c.part >= 2 * c.apron && k < c.n && |row| == c.width
    ensures Received(c, row, k, 0) == [] && Received(c, row, k, c.width) == c.Strip(row, k)
  {
    c.Bounds(k);
  }

  /** One row of distributeN; vect only lengthens the loop. */
  method DistributeRow<T>(ins: Stream<T>, outs: array<seq<T>>, c: Cut, vect: nat, row: nat,
                          ghost img: seq<seq<T>>, ghost rest: seq<T>)
    requires c.Valid() && c.part >= 2 * c.apron && outs.Length == c.n
    requires IsImage(img, c.width, |img|) && row < |img|
    requires ins.data == Pending(img, c.width, row, 0) + rest
    modifies ins, outs
    ensures ins.data == Pending(img, c.width, row + 1, 0) + rest
    ensures forall k :: 0 <= k < c.n ==> outs[k] == old(outs[k]) + c.Strip(img[row], k)
  {
    forall k | 0 <= k < c.n
      ensures Received(c, img[row], k, 0) == [] && Received(c, img[row], k, c.width) == c.Strip(img[row], k)
    {
      ReceivedAll(c, img[row], k);
    }
    hide Received, Cut.Strip, Pending, Cut.Targets;
    var col := 0;
    while col < c.width + 2 * c.apron * vect
      invariant 0 <= col
      invariant ins.data == Pending(img, c.width, row, col) + rest
      invariant forall k :: 0 <= k < c.n ==>
        outs[k] == old(outs[k]) + Received(c, img[row], k, if col < c.width then col else c.width)
      decreases c.width + 2 * c.apron * vect - col
    {
      PendingStep(img, c.width, row, col, rest);
      if col < c.width {
        var temp := ins.Read();
        forall k | 0 <= k < c.n
          ensures Received(c, img[row], k, col + 1)
               == Received(c, img[row], k, col) + (if c.Receives(k, col) then [temp] else [])
        {
          ReceivedStep(c, img[row], k, col);
        }
        Send(outs, c, col, temp);
        forall k | 0 <= k < c.n
          ensures outs[k] == old(outs[k]) + Received(c, img[row], k, col + 1)
        {
        }
      }
      col := col + 1;
    }
    PendingNextRow(img, c.width, row, col);
  }

  /** Writes a word to the one or two streams the chain selects. */
  method Send<T>(outs: array<seq<T>>, c: Cut, col: nat, temp: T)
    requires c.n >= 1 && outs.Length == c.n
    modifies outs
    ensures forall k :: 0 <= k < c.n ==> outs[k] == old(outs[k]) + (if c.Receives(k, col) then [temp] else [])
  {
    var (first, last) := c.Targets(col, 0);
    TargetsAdjacent(c, col, 0);
    outs[first] := outs[first] + [temp];
    if last != first {
      outs[last] := outs[last] + [temp];
    }
  }

  lemma {:induction false} TargetsAdjacent(c: Cut, col: nat, k: nat)
    requires k < c.n
    ensures var (first, last) := c.Targets(col, k); first <= last <= first + 1 && last < c.n
    decreases c.n - k
  {
    if k < c.n - 1 {
      TargetsAdjacent(c, col, k + 1);
    }
  }

  ghost function StripRows<T>(c: Cut, img: seq<seq<T>>, k: nat): (rows: seq<seq<T>>)
    requires c.Valid() && c.part >= 2 * c.apron && k < c.n && IsImage(img, c.width, |img|)
    ensures |rows| == |img|
  {
    seq(|img|, y requires 0 <= y < |img| => c.Strip(img[y], k))
  }

  ghost function OwnRows<T>(c: Cut, img: seq<seq<T>>, k: nat): (rows: seq<seq<T>>)
    requires c.Valid() && c.part >= 2 * c.apron && k < c.n && IsImage(img, c.width, |img|)
    ensures |rows| == |img|
  {
    seq(|img|, y requires 0 <= y < |img| => c.Own(img[y], k))
  }

  /** distributeN: stream k carries its strip of every row, in order. */
  method Distribute<T(0)>(ins: Stream<T>, c: Cut, vect: nat, height: nat) returns (outs: array<seq<T>>)
    requires c.Valid() && c.part >= 2 * c.apron && c.width * height <= |ins.data|
    modifies ins
    ensures fresh(outs) && outs.Length == c.n
    ensures ins.data == old(ins.data)[c.width * height..]
    ensures forall k :: 0 <= k < c.n ==> outs[k] == Flatten(StripRows(c, Rows(old(ins.data), c.width, height), k))
  {
    ghost var img := Rows(ins.data, c.width, height);
    ghost var rest := ins.data[c.width * height..];
    FlattenRows(ins.data, c.width, height);
    PendingAll(img, c.width);
    outs := new seq<T>[c.n](_ => []);
    hide Pending, Cut.Strip, StripRows, Rows, Flatten;
    assert forall k :: 0 <= k < c.n ==> StripsSoFar(c, img, k, 0) == [] by { StripsStart(c, img); }
    var row := 0;
    while row < height
      invariant 0 <= row <= height
      invariant ins.data == Pending(img, c.width, row, 0) + rest
      invariant forall k :: 0 <= k < c.n ==> outs[k] == StripsSoFar(c, img, k, row)
    {
      hide StripsSoFar;
      DistributeRow(ins, outs, c, vect, row, img, rest);
      forall k | 0 <= k < c.n
        ensures StripsSoFar(c, img, k, row + 1) == StripsSoFar(c, img, k, row) + c.Strip(img[row], k)
      {
        StripsGrow(c, img, k, row);
      }
      row := row + 1;
    }
    forall k | 0 <= k < c.n
      ensures outs[k] == Flatten(StripRows(c, img, k))
    {
      assert StripRows(c, img, k)[..height] == StripRows(c, img, k);
    }
  }

  ghost function StripsSoFar<T>(c: Cut, img: seq<seq<T>>, k: nat, row: nat): seq<T>
    requires c.Valid() && c.part >= 2 * c.apron && k < c.n && IsImage(img, c.width, |img|) && row <= |img|
  {
    Flatten(StripRows(c, img, k)[..row])
  }

  lemma StripsStart<T>(c: Cut, img: seq<seq<T>>)
    requires c.Valid() && c.part >= 2 * c.apron && IsImage(img, c.width, |img|)
    ensures forall k :: 0 <= k < c.n ==> StripsSoFar(c, img, k, 0) == []
  {
  }

  lemma StripsGrow<T>(c: Cut, img: seq<seq<T>>, k: nat, row: nat)
    requires c.Valid() && c.part >= 2 * c.apron && k < c.n && IsImage(img, c.width, |img|) && row < |img|
    ensures StripsSoFar(c, img, k, row + 1) == StripsSoFar(c, img, k, row) + c.Strip(img[row], k)
  {
    hide Cut.Strip;
    var rows := StripRows(c, img, k);
    FlattenAppend(rows[..row], rows[row]);
    assert rows[..row + 1] == rows[..row] + [rows[row]];
  }

  // --------------------------------------------------------------------- collection

  /** One row of collectN: the streams' own parts of the row, side by side. */
  method CollectRow<U>(ins: array<seq<U>>, c: Cut, ghost row: seq<U>, ghost rests: seq<seq<U>>) returns (out: seq<U>)
    requires c.Valid() && c.part >= 2 * c.apron && ins.Length == c.n == |rests| && |row| == c.width
    requires forall k :: 0 <= k < c.n ==> ins[k] == c.Own(row, k) + rests[k]
    modifies ins
    ensures out == row
    ensures forall k :: 0 <= k < c.n ==> ins[k] == rests[k]
  {
    out := [];
    var col := 0;
    forall k | 0 <= k < c.n
      ensures OwnFrom(c, row, k, 0) == c.Own(row, k) && OwnFrom(c, row, k, c.width) == []
    {
      OwnFromEnds(c, row, k);
    }
    hide OwnFrom, Cut.Own, Cut.Source, Cut.OwnStart, Cut.OwnEnd;
    while col < c.width
      invariant 0 <= col <= c.width && out == row[..col]
      invariant forall k :: 0 <= k < c.n ==> ins[k] == OwnFrom(c, row, k, col) + rests[k]
    {
      var k := c.Source(col, 0);
      c.SourceIsOwner(col, 0);
      forall k' | 0 <= k' < c.n
        ensures var s := OwnFrom(c, row, k', col) + rests[k'];
          if k' == k then s != [] && s[0] == row[col] && s[1..] == OwnFrom(c, row, k', col + 1) + rests[k']
          else s == OwnFrom(c, row, k', col + 1) + rests[k']
      {
        OwnFromStep(c, row, k', k, col, rests[k']);
      }
      var temp := Take(ins, k);
      out := out + [temp];
      col := col + 1;
    }
    assert row[..c.width] == row;
  }

  lemma OwnFromEnds<U>(c: Cut, row: seq<U>, k: nat)
    requires c.Valid() && c.part >= 2 * c.apron && k < c.n && |row| == c.width
    ensures OwnFrom(c, row, k, 0) == c.Own(row, k) && OwnFrom(c, row, k, c.width) == []
  {
    c.Bounds(k);
  }

  /** What stream k still holds of a row when collection is about to take column col. */
  ghost function OwnFrom<U>(c: Cut, row: seq<U>, k: nat, col: nat): seq<U>
    requires c.Valid() && c.part >= 2 * c.apron && k < c.n && |row| == c.width && col <= c.width
  {
    c.Bounds(k);
    if col >= c.OwnEnd(k) then [] else row[if col < c.OwnStart(k) then c.OwnStart(k) else col..c.OwnEnd(k)]
  }

  method Take<U>(ins: array<seq<U>>, k: nat) returns (temp: U)
    requires k < ins.Length && ins[k] != []
    modifies ins
    ensures temp == old(ins[k])[0] && ins[k] == old(ins[k])[1..]
    ensures forall k' :: 0 <= k' < ins.Length && k' != k ==> ins[k'] == old(ins[k'])
  {
    temp := ins[k][0];
    ins[k] := ins[k][1..];
  }

  lemma OwnFromStep<U>(c: Cut, row: seq<U>, k': nat, k: nat, col: nat, rest: seq<U>)
    requires c.Valid() && c.part >= 2 * c.apron && k < c.n && k' < c.n && |row| == c.width && col < c.width
    requires c.OwnStart(k) <= col < c.OwnEnd(k)
    ensures var s := OwnFrom(c, row, k', col) + rest;
      if k' == k then s != [] && s[0] == row[col] && s[1..] == OwnFrom(c, row, k', col + 1) + rest
      else s == OwnFrom(c, row, k', col + 1) + rest
  {
    c.Bounds(k');
    if k' == k {
      assert OwnFrom(c, row, k', col) == [row[col]] + OwnFrom(c, row, k', col + 1);
    } else if c.OwnStart(k') <= col < c.OwnEnd(k') {
      c.OwnerIsUnique(col, k, k');
    }
  }

  /** collectN: own parts of the rows of img, taken from n streams, give img back. */
  method Collect<U>(ins: array<seq<U>>, c: Cut, height: nat, ghost img: seq<seq<U>>) returns (out: seq<U>)
    requires c.Valid() && c.part >= 2 * c.apron && ins.Length == c.n && IsImage(img, c.width, height)
    requires forall k :: 0 <= k < c.n ==> ins[k] == Flatten(OwnRows(c, img, k))
    modifies ins
    ensures out == Flatten(img)
    ensures forall k :: 0 <= k < c.n ==> ins[k] == []
  {
    out := [];
    hide Cut.Own, Cut.OwnStart, Cut.OwnEnd;
    assert forall k :: 0 <= k < c.n ==> OwnRows(c, img, k)[0..] == OwnRows(c, img, k);
    var row := 0;
    while row < height
      invariant 0 <= row <= height && out == Flatten(img[..row])
      invariant forall k :: 0 <= k < c.n ==> ins[k] == Flatten(OwnRows(c, img, k)[row..])
    {
      ghost var rests := seq(c.n, k requires 0 <= k < c.n => Flatten(OwnRows(c, img, k)[row + 1..]));
      forall k | 0 <= k < c.n
        ensures ins[k] == c.Own(img[row], k) + rests[k]
      {
        var rows := OwnRows(c, img, k);
        assert rows[row..][0] == c.Own(img[row], k) && rows[row..][1..] == rows[row + 1..];
      }
      var line := CollectRow(ins, c, img[row], rests);
      FlattenAppend(img[..row], img[row]);
      assert img[..row + 1] == img[..row] + [img[row]];
      out := out + line;
      row := row + 1;
    }
    assert img[..height] == img;
  }

  ghost function MapRows<T, U>(op: (seq<T>, seq<T>) -> U, radius: nat, img: seq<seq<T>>): (res: seq<seq<U>>)
    ensures |res| == |img| && forall y :: 0 <= y < |img| ==> |res[y]| == |img[y]|
  {
    seq(|img|, y requires 0 <= y < |img| => MapLocal(op, radius, img[y]))
  }

  /** A strip processor: takes the rows of its strip off the stream, applies the operator to
      each and drops the halo. */
  method RunStrip<T, U>(c: Cut, op: (seq<T>, seq<T>) -> U, radius: nat, height: nat, s: seq<T>, k: nat,
                        ghost img: seq<seq<T>>) returns (out: seq<U>)
    requires c.Valid() && c.part >= 2 * c.apron && k < c.n && IsImage(img, c.width, height) && radius <= c.apron
    requires s == Flatten(StripRows(c, img, k))
    ensures out == Flatten(OwnRows(c, MapRows(op, radius, img), k))
  {
    c.Bounds(k);
    var w := c.HaloEnd(k) - c.HaloStart(k);
    out := [];
    var rest := s;
    ghost var rows, own := StripRows(c, img, k), OwnRows(c, MapRows(op, radius, img), k);
    FlattenEnds(rows);
    FlattenEnds(own);
    var y := 0;
    while y < height
      invariant 0 <= y <= height && rest == Flatten(rows[y..]) && out == Flatten(own[..y])
    {
      FlattenMove(rows, y);
      FlattenMove(own, y);
      StripIsEnough(c, op, radius, img[y], k);
      assert rows[y] == c.Strip(img[y], k) && |rows[y]| == w && own[y] == c.Own(MapLocal(op, radius, img[y]), k);
      hide Flatten, MapLocal, Cut.Own, Cut.Strip, Cut.HaloStart, Cut.HaloEnd;
      out := out + c.DropHalo(MapLocal(op, radius, rest[..w]), k);
      rest := rest[w..];
      y := y + 1;
    }
  }

  /** Distributing an image over n strips, processing the strips and collecting the results
      equals processing whole rows, for every row-local operator whose radius the apron covers
      and every width, divisible by n or not. */
  method ProcessInStrips<T(0), U>(ins: Stream<T>, c: Cut, vect: nat, height: nat,
                                  op: (seq<T>, seq<T>) -> U, radius: nat) returns (out: seq<U>)
    requires c.Valid() && c.part >= 2 * c.apron && radius <= c.apron && c.width * height <= |ins.data|
    modifies ins
    ensures ins.data == old(ins.data)[c.width * height..]
    ensures out == Flatten(MapRows(op, radius, Rows(old(ins.data), c.width, height)))
  {
    ghost var img := Rows(ins.data, c.width, height);
    var strips := Distribute(ins, c, vect, height);
    hide Flatten, Rows, StripRows, OwnRows, MapRows;
    var results := new seq<U>[c.n](_ => []);
    var k := 0;
    while k < c.n
      modifies results
      invariant 0 <= k <= c.n
      invariant forall j :: 0 <= j < k ==> results[j] == Flatten(OwnRows(c, MapRows(op, radius, img), j))
    {
      results[k] := RunStrip(c, op, radius, height, strips[k], k, img);
      k := k + 1;
    }
    out := Collect(results, c, height, MapRows(op, radius, img));
  }
}
