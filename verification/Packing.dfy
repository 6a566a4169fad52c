/** Host memory to stream words and back (hipaccWriteMemory, hipaccReadMemory and
    hipaccReverseBits, runtime/hipacc_vivado.hpp).  Words are bit sequences, least
    significant bit first. */
module Packing {
  import opened Launch
  import opened Streams

  type Bits = seq<bool>

  // ------------------------------------------------------------ bit manipulation

  function Reversed(b: Bits): (r: Bits)
    ensures |r| == |b|
  {
    seq(|b|, i requires 0 <= i < |b| => b[|b| - 1 - i])
  }

  function Zero(n: nat): Bits { seq(n, _ => false) }
  function OneShifted(n: nat, k: nat): Bits { seq(n, i => i == k) }

  function And(a: Bits, b: Bits): Bits
    requires |a| == |b|
  {
    seq(|a|, i requires 0 <= i < |a| => a[i] && b[i])
  }

  function Or(a: Bits, b: Bits): Bits
    requires |a| == |b|
  {
    seq(|a|, i requires 0 <= i < |a| => a[i] || b[i])
  }

  function ShiftLeft(a: Bits, k: nat): Bits {
    seq(|a|, i requires 0 <= i < |a| => i >= k && a[i - k])
  }

  function ShiftRight(a: Bits, k: nat): Bits {
    seq(|a|, i requires 0 <= i < |a| => i + k < |a| && a[i + k])
  }

  /** hipaccReverseBits: bit i goes to bit size-1-i, for every word size. */
  method ReverseBits(word: Bits) returns (out: Bits)
    ensures |out| == |word| && forall i :: 0 <= i < |word| ==> out[|word| - 1 - i] == word[i]
    ensures out == Reversed(word)
  {
    var size := |word|;
    out := Zero(size);
    var i := 0;
    while i < size
      invariant 0 <= i <= size && |out| == size
      invariant forall b :: 0 <= b < size ==> out[b] == (size - 1 - b < i && word[size - 1 - b])
    {
      var bit := And(word, OneShifted(size, i));
      if i < size / 2 {
        out := Or(out, ShiftLeft(bit, size - 1 - 2 * i));
      } else {
        out := Or(out, ShiftRight(bit, size - 1 - 2 * (size - 1 - i)));
      }
      i := i + 1;
    }
    assert forall i {:trigger word[i]} :: 0 <= i < size ==> size - 1 - (size - 1 - i) == i;
  }

  lemma ReversedTwice(b: Bits)
    ensures Reversed(Reversed(b)) == b
  {
  }

  // -------------------------------------------------------------------- lane packing

  /** How pixels travel: `vect` lanes of `bits` bits per word, rows of `width` pixels.  A
      lane range given with its bounds swapped reverses the bits (`flip`); the results hold
      for either reading of such a range. */
  datatype Format = Format(width: nat, vect: nat, bits: nat, flip: bool) {
    predicate Valid() { vect >= 1 && bits >= 1 }

    function WordsPerRow(): int
      requires Valid()
    {
      CeilDiv(width, vect)
    }

    function BitOfLane(i: int): int { if flip then bits - 1 - i else i }

    /** Assigning x to lane v of a word, and reading it back. */
    function SetLane(word: Bits, v: nat, x: Bits): (r: Bits)
      requires Valid() && |word| == vect * bits && |x| == bits
      ensures |r| == |word|
    {
      seq(|word|, b requires 0 <= b < |word| => if b / bits == v then x[BitOfLane(b % bits)] else word[b])
    }

    function Lane(word: Bits, v: nat): (x: Bits)
      requires Valid() && |word| == vect * bits && v < vect
      ensures |x| == bits
    {
      LaneInWord(v);
      seq(bits, i requires 0 <= i < bits => word[v * bits + BitOfLane(i)])
    }

    lemma LaneInWord(v: nat)
      requires Valid() && v < vect
      ensures 0 <= v * bits && v * bits + bits <= vect * bits
    {
      MulMono(0, v, bits);
      MulMono(v + 1, vect, bits);
      assert (v + 1) * bits == v * bits + bits;
    }

    /** Lane v of word j of a row: the pixel there, or padding. */
    function Padded(row: seq<Bits>, j: nat, v: nat): Bits
      requires |row| == width
    {
      if 0 <= j * vect + v < width then row[j * vect + v] else Zero(bits)
    }

    ghost predicate IsRow(row: seq<Bits>) {
      |row| == width && forall x :: 0 <= x < width ==> |row[x]| == bits
    }

    /** Word j of a packed row. */
    ghost function Packed(row: seq<Bits>, j: nat): (word: Bits)
      requires Valid() && IsRow(row) && j < WordsPerRow()
      ensures |word| == vect * bits
    {
      if vect == 1 then
        BelowCeil(j, width, vect);
        Reversed(row[j])
      else
        MulMono(0, vect, bits);
        seq(vect * bits, b requires 0 <= b < vect * bits =>
          assert 0 <= b / bits by { BelowFloor(-1, b, bits); }
          Padded(row, j, b / bits)[BitOfLane(b % bits)])
    }

    ghost function PackedRow(row: seq<Bits>): (words: seq<Bits>)
      requires Valid() && IsRow(row)
      ensures |words| == WordsPerRow()
    {
      BelowCeil(-1, width, vect);
      seq(WordsPerRow(), j requires 0 <= j < WordsPerRow() => Packed(row, j))
    }

    lemma PackedBit(row: seq<Bits>, j: nat, v: nat, i: nat)
      requires Valid() && IsRow(row) && j < WordsPerRow() && vect > 1 && v < vect && i < bits
      ensures 0 <= v * bits + i < vect * bits && |Padded(row, j, v)| == bits
      ensures Packed(row, j)[v * bits + i] == Padded(row, j, v)[BitOfLane(i)]
    {
      LaneInWord(v);
      QuotientFrom(v * bits + i, v, bits);
    }

    /** Reading a lane of a packed word gives the pixel, or the padding, that was put there. */
    lemma LaneOfPacked(row: seq<Bits>, j: nat, v: nat)
      requires Valid() && IsRow(row) && j < WordsPerRow() && vect > 1 && v < vect
      ensures Lane(Packed(row, j), v) == Padded(row, j, v)
    {
      PackedBit(row, j, v, 0);
      hide Packed, Padded;
      var word, pixel := Packed(row, j), Padded(row, j, v);
      forall i | 0 <= i < bits
        ensures Lane(word, v)[i] == pixel[i]
      {
        PackedBit(row, j, v, BitOfLane(i));
        LaneInWord(v);
      }
    }
  }

  /** The first v lanes of a word are filled. */
  ghost predicate FilledTo(f: Format, data: Bits, row: seq<Bits>, j: nat, v: int)
    requires f.Valid() && f.IsRow(row) && j < f.WordsPerRow()
  {
    |data| == f.vect * f.bits && forall b :: 0 <= b < |data| && b / f.bits < v ==> data[b] == f.Packed(row, j)[b]
  }

  lemma FillLane(f: Format, data: Bits, row: seq<Bits>, j: nat, v: nat)
    requires f.Valid() && f.IsRow(row) && f.vect > 1 && j < f.WordsPerRow() && v < f.vect
    requires FilledTo(f, data, row, j, v)
    ensures |f.Padded(row, j, v)| == f.bits
    ensures FilledTo(f, f.SetLane(data, v, f.Padded(row, j, v)), row, j, v + 1)
  {
    var x := f.Padded(row, j, v);
    assert |x| == f.bits;
    var data' := f.SetLane(data, v, x);
    forall b | 0 <= b < |data'| && b / f.bits < v + 1
      ensures data'[b] == f.Packed(row, j)[b]
    {
      if b / f.bits == v {
        assert data'[b] == x[f.BitOfLane(b % f.bits)];
      } else {
        assert data'[b] == data[b];
      }
    }
  }

  lemma FilledIsPacked(f: Format, data: Bits, row: seq<Bits>, j: nat)
    requires f.Valid() && f.IsRow(row) && j < f.WordsPerRow() && FilledTo(f, data, row, j, f.vect)
    ensures data == f.Packed(row, j)
  {
    assert End(f.vect - 1, f.bits) == f.vect * f.bits by { assert (f.vect - 1) * f.bits == f.vect * f.bits - f.bits; }
    hide Format.Packed, End;
    forall b | 0 <= b < |data|
      ensures data[b] == f.Packed(row, j)[b]
    {
      BelowFloor(f.vect - 1, b, f.bits);
    }
  }

  /** Filling a word lane by lane, from host memory at index i == y*width + x. */
  method PackWord(f: Format, host: seq<Bits>, i: nat, x: nat, ghost row: seq<Bits>, ghost j: nat) returns (data: Bits)
    requires f.Valid() && f.IsRow(row) && f.vect > 1 && j < f.WordsPerRow() && x == j * f.vect
    requires forall k {:trigger row[k]} :: x <= k < f.width ==> i + (k - x) < |host| && host[i + (k - x)] == row[k]
    ensures data == f.Packed(row, j)
  {
    MulMono(0, f.vect, f.bits);
    // the word starts uninitialised
    assert |Zero(f.vect * f.bits)| == f.vect * f.bits;
    data :| |data| == f.vect * f.bits;
    assert FilledTo(f, data, row, j, 0) by {
      forall b | 0 <= b < |data| ensures b / f.bits >= 0 { BelowFloor(-1, b, f.bits); }
    }
    hide FilledTo, Format.SetLane, Format.Packed;
    var v := 0;
    while v < f.vect
      invariant 0 <= v <= f.vect && |data| == f.vect * f.bits
      invariant FilledTo(f, data, row, j, v)
    {
      FillLane(f, data, row, j, v);
      if x + v >= f.width {
        // padding
        data := f.SetLane(data, v, Zero(f.bits));
      } else {
        assert host[i + (x + v - x)] == row[x + v];
        data := f.SetLane(data, v, host[i + v]);
      }
      v := v + 1;
    }
    FilledIsPacked(f, data, row, j);
  }

  ghost function PackedRows(f: Format, img: seq<seq<Bits>>): (rows: seq<seq<Bits>>)
    requires f.Valid() && forall y :: 0 <= y < |img| ==> f.IsRow(img[y])
    ensures IsImage(rows, f.WordsPerRow(), |img|)
  {
    BelowCeil(-1, f.width, f.vect);
    seq(|img|, y requires 0 <= y < |img| => f.PackedRow(img[y]))
  }

  /** One row of hipaccWriteMemory. */
  method WriteRow(f: Format, host: seq<Bits>, base: nat, s: Stream<Bits>, ghost row: seq<Bits>)
    requires f.Valid() && f.IsRow(row)
    requires base + f.width <= |host| && host[base..base + f.width] == row
    modifies s
    ensures s.data == old(s.data) + f.PackedRow(row)
  {
    hide Format.Packed;
    ghost var words := f.PackedRow(row);
    var x := 0;
    ghost var j := 0;
    BelowCeil(-1, f.width, f.vect);
    while x < f.width
      invariant x == j * f.vect && 0 <= j <= f.WordsPerRow()
      invariant s.data == old(s.data) + words[..j]
      decreases f.width - x
    {
      BelowCeil(j, f.width, f.vect);
      var i := base + x;
      if f.vect > 1 {
        forall k {:trigger row[k]} | x <= k < f.width
          ensures i + (k - x) < |host| && host[i + (k - x)] == row[k]
        {
          assert host[i + (k - x)] == host[base..base + f.width][k];
        }
        var data := PackWord(f, host, i, x, row, j);
        s.Write(data);
      } else {
        var data := host[i];
        var reversed := ReverseBits(data);
        ScalarWord(f, row, j);
        assert host[i] == host[base..base + f.width][x];
        s.Write(reversed);
      }
      assert words[..j + 1] == words[..j] + [words[j]];
      assert (j + 1) * f.vect == j * f.vect + f.vect;
      x := x + f.vect;
      j := j + 1;
    }
    BelowCeil(j, f.width, f.vect);
    assert words[..j] == words;
  }

  lemma ScalarWord(f: Format, row: seq<Bits>, j: nat)
    requires f.Valid() && f.IsRow(row) && f.vect == 1 && j < f.WordsPerRow()
    ensures j < f.width && f.Packed(row, j) == Reversed(row[j])
  {
    BelowCeil(j, f.width, f.vect);
  }

  /** hipaccWriteMemory: height * ceil(width/vect) words, row by row. */
  method WriteMemory(f: Format, height: nat, s: Stream<Bits>, host: seq<Bits>, ghost img: seq<seq<Bits>>)
    requires f.Valid() && |img| == height && forall y :: 0 <= y < height ==> f.IsRow(img[y])
    requires host == Flatten(img)
    modifies s
    ensures s.data == old(s.data) + Flatten(PackedRows(f, img))
    ensures f.vect == 1 ==> |s.data| == |old(s.data)| + |host| && forall k :: 0 <= k < |host| ==>
      Mirrors(s.data[|old(s.data)| + k], host[k])
    ensures f.vect > 1 ==> forall y, x :: 0 <= y < height && 0 <= x < f.width ==>
      SentAt(f, s.data, |old(s.data)|, y, x, img[y][x])
  {
    ghost var words := PackedRows(f, img);
    SentEnds(s.data, words);
    FlattenEnds(img);
    assert host[0..] == host;
    assert HostAt(host, 0, img, 0);
    hide Flatten, Format.PackedRow, Format.IsRow, PackedRows, HostAt, Sent;
    var y := 0;
    var base := 0;
    while y < height
      invariant 0 <= y <= height && base >= 0 && HostAt(host, base, img, y)
      invariant s.data == Sent(old(s.data), words, y)
    {
      HostStep(host, base, img, y);
      RowOf(f, img, y);
      SentStep(old(s.data), words, y);
      WriteRow(f, host, base, s, img[y]);
      base := base + f.width;
      y := y + 1;
    }
    assert s.data == old(s.data) + Flatten(words);
    if f.vect == 1 {
      ScalarsSent(f, old(s.data), img, host);
    } else {
      forall y, x | 0 <= y < height && 0 <= x < f.width
        ensures SentAt(f, s.data, |old(s.data)|, y, x, img[y][x])
      {
        LanesSent(f, old(s.data), img, y, x);
      }
    }
  }

  /** Bit b of one word is the other's bit b from the other end. */
  predicate Mirrors(word: Bits, pixel: Bits) {
    |word| == |pixel| && forall b :: 0 <= b < |pixel| ==> word[b] == pixel[|pixel| - 1 - b]
  }

  /** Bit i of lane v of a word, in one of the two orders a lane range may have, is the pixel's. */
  predicate BitInLane(f: Format, word: Bits, v: nat, pixel: Bits, i: nat) {
    var b := v * f.bits + if f.flip then f.bits - 1 - i else i;
    0 <= b < |word| && i < |pixel| && word[b] == pixel[i]
  }

  /** Among the words from first on, pixel x of row y is in lane x % vect of word x / vect of its
      row. */
  predicate SentAt(f: Format, data: seq<Bits>, first: nat, y: nat, x: nat, pixel: Bits)
    requires f.Valid()
  {
    var k := first + y * f.WordsPerRow() + x / f.vect;
    && first <= k < |data| && |pixel| == f.bits
    && forall i :: 0 <= i < f.bits ==> BitInLane(f, data[k], x % f.vect, pixel, i)
  }

  lemma ScalarsSent(f: Format, before: seq<Bits>, img: seq<seq<Bits>>, host: seq<Bits>)
    requires f.Valid() && f.vect == 1 && (forall y :: 0 <= y < |img| ==> f.IsRow(img[y])) && host == Flatten(img)
    ensures var sent := before + Flatten(PackedRows(f, img));
      && |sent| == |before| + |host|
      && forall k :: 0 <= k < |host| ==> Mirrors(sent[|before| + k], host[k])
  {
    var rows := PackedRows(f, img);
    OneWordPerPixel(f);
    FlattenLength(img, f.width, |img|);
    FlattenLength(rows, f.width, |img|);
    forall k | 0 <= k < |host|
      ensures Mirrors((before + Flatten(rows))[|before| + k], host[k])
    {
      var y, x := RowAndColumn(k, f.width, |img|);
      FlattenAt(img, f.width, |img|, x, y);
      FlattenAt(rows, f.width, |img|, x, y);
      WordOfPixel(f, img, y, x);
    }
  }

  lemma WordOfPixel(f: Format, img: seq<seq<Bits>>, y: nat, x: nat)
    requires f.Valid() && f.vect == 1 && (forall k :: 0 <= k < |img| ==> f.IsRow(img[k]))
    requires y < |img| && x < f.width
    ensures x < f.WordsPerRow() && Mirrors(PackedRows(f, img)[y][x], img[y][x])
  {
    OneWordPerPixel(f);
    ScalarWord(f, img[y], x);
  }

  lemma OneWordPerPixel(f: Format)
    requires f.Valid() && f.vect == 1
    ensures f.WordsPerRow() == f.width
  {
    BelowCeil(f.width, f.width, 1);
    BelowCeil(f.width - 1, f.width, 1);
  }

  lemma RowAndColumn(k: nat, width: nat, height: nat) returns (y: nat, x: nat)
    requires k < width * height
    ensures y < height && x < width && k == y * width + x
  {
    assert width > 0;
    BelowFloor(-1, k, width);
    y, x := k / width, k % width;
    if y >= height { MulMono(height, y, width); }
  }

  lemma LanesSent(f: Format, before: seq<Bits>, img: seq<seq<Bits>>, y: nat, x: nat)
    requires f.Valid() && f.vect > 1 && (forall k :: 0 <= k < |img| ==> f.IsRow(img[k]))
    requires y < |img| && x < f.width
    ensures SentAt(f, before + Flatten(PackedRows(f, img)), |before|, y, x, img[y][x])
  {
    var rows, n := PackedRows(f, img), f.WordsPerRow();
    var j, v := LaneOf(f, x);
    assert rows[y][j] == f.Packed(img[y], j);
    forall i: nat | i < f.bits
      ensures BitInLane(f, rows[y][j], v, img[y][x], i)
    {
      LaneBit(f, img[y], j, v, i);
    }
    hide Flatten, Format.Packed, PackedRows, Format.WordsPerRow, BitInLane;
    FlattenAt(rows, n, |img|, j, y);
    WordBehind(before, Flatten(rows), y * n + j);
  }

  lemma WordBehind(before: seq<Bits>, words: seq<Bits>, k: int)
    requires 0 <= k < |words|
    ensures |before| + k < |before + words| && (before + words)[|before| + k] == words[k]
  {
  }

  lemma LaneOf(f: Format, x: nat) returns (j: nat, v: nat)
    requires f.Valid() && x < f.width
    ensures j == x / f.vect && v == x % f.vect && v < f.vect && j < f.WordsPerRow() && x == j * f.vect + v
  {
    BelowFloor(-1, x, f.vect);
    QuotientIn(x, f.width, f.vect);
    j, v := x / f.vect, x % f.vect;
  }

  lemma LaneBit(f: Format, row: seq<Bits>, j: nat, v: nat, i: nat)
    requires f.Valid() && f.vect > 1 && f.IsRow(row) && j < f.WordsPerRow() && v < f.vect && i < f.bits
    requires 0 <= j * f.vect + v < f.width
    ensures BitInLane(f, f.Packed(row, j), v, row[j * f.vect + v], i)
  {
    hide Format.Packed;
    f.PackedBit(row, j, v, if f.flip then f.bits - 1 - i else i);
  }

  /** Words sent when y rows are written, and host memory still to be read from row y on. */
  ghost function Sent(before: seq<Bits>, words: seq<seq<Bits>>, y: nat): seq<Bits>
    requires y <= |words|
  {
    before + Flatten(words[..y])
  }

  ghost predicate HostAt(host: seq<Bits>, base: nat, img: seq<seq<Bits>>, y: nat)
    requires y <= |img|
  {
    base <= |host| && host[base..] == Flatten(img[y..])
  }

  lemma SentEnds(before: seq<Bits>, words: seq<seq<Bits>>)
    ensures Sent(before, words, 0) == before && Sent(before, words, |words|) == before + Flatten(words)
  {
    FlattenEnds(words);
  }

  lemma SentStep(before: seq<Bits>, words: seq<seq<Bits>>, y: nat)
    requires y < |words|
    ensures Sent(before, words, y + 1) == Sent(before, words, y) + words[y]
  {
    FlattenMove(words, y);
  }

  lemma HostStep(host: seq<Bits>, base: nat, img: seq<seq<Bits>>, y: nat)
    requires y < |img| && HostAt(host, base, img, y)
    ensures base + |img[y]| <= |host| && host[base..base + |img[y]|] == img[y]
    ensures HostAt(host, base + |img[y]|, img, y + 1)
  {
    FlattenMove(img, y);
    HeadAndTail(host, base, img[y], Flatten(img[y + 1..]));
  }

  lemma RowOf(f: Format, img: seq<seq<Bits>>, y: nat)
    requires f.Valid() && (forall k :: 0 <= k < |img| ==> f.IsRow(img[k])) && y < |img|
    ensures |img[y]| == f.width && PackedRows(f, img)[y] == f.PackedRow(img[y])
  {
  }

  lemma HeadAndTail<T>(s: seq<T>, base: nat, head: seq<T>, tail: seq<T>)
    requires base <= |s| && s[base..] == head + tail
    ensures base + |head| <= |s| && s[base..base + |head|] == head && s[base + |head|..] == tail
  {
    assert s[base..base + |head|] == s[base..][..|head|];
    assert s[base + |head|..] == s[base..][|head|..];
  }

  // ------------------------------------------------------------------------- reading

  /** One row of hipaccReadMemory, from words that are the packing of some row: host memory
      receives that row, and nothing else changes. */
  method ReadRow(f: Format, s: Stream<Bits>, host: array<Bits>, base: nat, ghost row: seq<Bits>, ghost rest: seq<Bits>)
    requires f.Valid() && f.IsRow(row)
    requires base + f.width <= host.Length
    requires s.data == f.PackedRow(row) + rest
    modifies s, host
    ensures s.data == rest
    ensures host[base..base + f.width] == row
    ensures forall k :: 0 <= k < host.Length && !(base <= k < base + f.width) ==> host[k] == old(host[k])
  {
    hide Format.Packed, Format.Lane;
    ghost var words := f.PackedRow(row);
    var x := 0;
    ghost var j := 0;
    BelowCeil(-1, f.width, f.vect);
    assert words[0..] == words;
    while x < f.width
      invariant x == j * f.vect && 0 <= j <= f.WordsPerRow()
      invariant s.data == words[j..] + rest
      invariant forall k :: 0 <= k < f.width && k < x ==> host[base + k] == row[k]
      invariant forall k :: 0 <= k < host.Length && !(base <= k < base + f.width) ==> host[k] == old(host[k])
      decreases f.width - x
    {
      BelowCeil(j, f.width, f.vect);
      assert words[j..][0] == words[j] == f.Packed(row, j) && words[j..][1..] == words[j + 1..];
      var data := s.Read();
      if f.vect > 1 {
        UnpackWord(f, data, host, base + x, x, row, j, base);
      } else {
        var temp := ReverseBits(data);
        ScalarWord(f, row, j);
        ReversedTwice(row[j]);
        host[base + x] := temp;
      }
      assert (j + 1) * f.vect == j * f.vect + f.vect;
      x := x + f.vect;
      j := j + 1;
    }
    BelowCeil(j, f.width, f.vect);
    assert words[j..] == [];
  }

  /** Taking a word apart lane by lane; lanes beyond the row are dropped. */
  method UnpackWord(f: Format, data: Bits, host: array<Bits>, i: nat, x: nat,
                    ghost row: seq<Bits>, ghost j: nat, ghost base: nat)
    requires f.Valid() && f.IsRow(row) && f.vect > 1 && j < f.WordsPerRow() && x == j * f.vect
    requires i == base + x && base + f.width <= host.Length
    requires data == f.Packed(row, j)
    modifies host
    ensures forall k :: x <= k < x + f.vect && k < f.width ==> host[base + k] == row[k]
    ensures forall k :: 0 <= k < host.Length && !(base + x <= k < base + x + f.vect && k < base + f.width) ==>
      host[k] == old(host[k])
  {
    hide Format.Packed, Format.Lane;
    var v := 0;
    while v < f.vect
      invariant 0 <= v <= f.vect
      invariant forall k :: x <= k < x + v && k < f.width ==> host[base + k] == row[k]
      invariant forall k :: 0 <= k < host.Length && !(base + x <= k < base + x + v && k < base + f.width) ==>
        host[k] == old(host[k])
    {
      if x + v < f.width {
        f.LaneOfPacked(row, j, v);
        host[i + v] := f.Lane(data, v);
      }
      v := v + 1;
    }
  }

  /** hipaccReadMemory: from the words of an image, host memory receives the image. */
  method ReadMemory(f: Format, height: nat, s: Stream<Bits>, host: array<Bits>,
                    ghost img: seq<seq<Bits>>, ghost rest: seq<Bits>)
    requires f.Valid() && |img| == height && forall y :: 0 <= y < height ==> f.IsRow(img[y])
    requires host.Length == |Flatten(img)|
    requires s.data == Flatten(PackedRows(f, img)) + rest
    modifies s, host
    ensures s.data == rest && host[..] == Flatten(img)
  {
    ghost var words := PackedRows(f, img);
    ToReceiveEnds(words, rest);
    FlattenEnds(img);
    assert FilledRows(host[..], 0, img, 0);
    hide Flatten, Format.PackedRow, Format.IsRow, PackedRows, ToReceive, FilledRows;
    var y := 0;
    var base := 0;
    while y < height
      invariant 0 <= y <= height && base >= 0
      invariant s.data == ToReceive(words, y, rest)
      invariant FilledRows(host[..], base, img, y)
    {
      RowOf(f, img, y);
      ToReceiveStep(words, y, rest);
      FilledRowsStep(host[..], base, img, y);
      ghost var before := host[..];
      ReadRow(f, s, host, base, img[y], ToReceive(words, y + 1, rest));
      FilledRowsNext(before, host[..], base, img, y);
      base := base + f.width;
      y := y + 1;
    }
    assert host[..] == Flatten(img) by { FilledRowsEnd(host[..], base, img); }
  }

  /** Words to come from row y on, and host memory filled with the first y rows. */
  ghost function ToReceive(words: seq<seq<Bits>>, y: nat, rest: seq<Bits>): seq<Bits>
    requires y <= |words|
  {
    Flatten(words[y..]) + rest
  }

  ghost predicate FilledRows(host: seq<Bits>, base: nat, img: seq<seq<Bits>>, y: nat)
    requires y <= |img|
  {
    && base <= |host| && host[..base] == Flatten(img[..y])
    && |Flatten(img[y..])| == |host| - base
  }

  lemma ToReceiveEnds(words: seq<seq<Bits>>, rest: seq<Bits>)
    ensures ToReceive(words, 0, rest) == Flatten(words) + rest && ToReceive(words, |words|, rest) == rest
  {
    FlattenEnds(words);
  }

  lemma ToReceiveStep(words: seq<seq<Bits>>, y: nat, rest: seq<Bits>)
    requires y < |words|
    ensures ToReceive(words, y, rest) == words[y] + ToReceive(words, y + 1, rest)
  {
    FlattenMove(words, y);
  }

  lemma FilledRowsStep(host: seq<Bits>, base: nat, img: seq<seq<Bits>>, y: nat)
    requires y < |img| && FilledRows(host, base, img, y)
    ensures base + |img[y]| <= |host|
  {
    FlattenMove(img, y);
  }

  lemma FilledRowsNext(before: seq<Bits>, after: seq<Bits>, base: nat, img: seq<seq<Bits>>, y: nat)
    requires y < |img| && FilledRows(before, base, img, y) && base + |img[y]| <= |before| == |after|
    requires after[base..base + |img[y]|] == img[y]
    requires forall k :: 0 <= k < |before| && !(base <= k < base + |img[y]|) ==> after[k] == before[k]
    ensures FilledRows(after, base + |img[y]|, img, y + 1)
  {
    FlattenMove(img, y);
    assert after[..base] == before[..base];
    assert after[..base + |img[y]|] == after[..base] + after[base..base + |img[y]|];
  }

  lemma FilledRowsEnd(host: seq<Bits>, base: nat, img: seq<seq<Bits>>)
    requires FilledRows(host, base, img, |img|)
    ensures host == Flatten(img)
  {
    FlattenEnds(img);
    assert host[..base] == host;
  }

  /** hipaccReadMemory after hipaccWriteMemory restores host memory, for every width, height,
      vector length and reading of a swapped lane range. */
  method RoundTrip(f: Format, height: nat, s: Stream<Bits>, source: seq<Bits>, target: array<Bits>)
    requires f.Valid() && |source| == f.width * height && forall i :: 0 <= i < |source| ==> |source[i]| == f.bits
    requires s.data == [] && target.Length == f.width * height
    modifies s, target
    ensures target[..] == source && s.data == []
  {
    ghost var img := Rows(source, f.width, height);
    FlattenRows(source, f.width, height);
    assert source[..f.width * height] == source;
    RowsOfHost(f, height, source);
    WriteMemory(f, height, s, source, img);
    assert s.data == Flatten(PackedRows(f, img)) + [];
    ReadMemory(f, height, s, target, img, []);
  }

  lemma RowsOfHost(f: Format, height: nat, host: seq<Bits>)
    requires f.Valid() && |host| == f.width * height && forall i :: 0 <= i < |host| ==> |host[i]| == f.bits
    ensures forall y :: 0 <= y < height ==> f.IsRow(Rows(host, f.width, height)[y])
  {
    var img := Rows(host, f.width, height);
    FlattenRows(host, f.width, height);
    forall y, x | 0 <= y < height && 0 <= x < f.width
      ensures |img[y][x]| == f.bits
    {
      FlattenAt(img, f.width, height, x, y);
    }
  }

  /** The number of words on the stream. */
  lemma WordCount(f: Format, img: seq<seq<Bits>>)
    requires f.Valid() && forall y :: 0 <= y < |img| ==> f.IsRow(img[y])
    ensures f.WordsPerRow() >= 0 && |Flatten(PackedRows(f, img))| == f.WordsPerRow() * |img|
  {
    BelowCeil(-1, f.width, f.vect);
    FlattenLength(PackedRows(f, img), f.WordsPerRow(), |img|);
  }
}
