/** The two-strip pair distribute2 and collect2 (runtime/hipacc_vivado_filter.hpp).  Unlike the
    pairs for more strips it does not share one cut: distribute2 halves the template width,
    collect2 the actual one. */
module TwoStrips {
  import opened Folds
  import opened Streams
  import opened Strips

  // the ends of a row that stream 0 and stream 1 receive
  function LeftStrip<T>(row: seq<T>, part: nat, apron: nat): seq<T> {
    row[..if part + apron < |row| then part + apron else |row|]
  }

  function RightStrip<T>(row: seq<T>, part: nat, apron: nat): seq<T> {
    if part < apron then row else if part - apron < |row| then row[part - apron..] else []
  }

  ghost function LeftStrips<T>(img: seq<seq<T>>, part: nat, apron: nat): (rows: seq<seq<T>>)
    ensures |rows| == |img| && forall y :: 0 <= y < |img| ==> rows[y] == LeftStrip(img[y], part, apron)
  {
    seq(|img|, y requires 0 <= y < |img| => LeftStrip(img[y], part, apron))
  }

  ghost function RightStrips<T>(img: seq<seq<T>>, part: nat, apron: nat): (rows: seq<seq<T>>)
    ensures |rows| == |img| && forall y :: 0 <= y < |img| ==> rows[y] == RightStrip(img[y], part, apron)
  {
    seq(|img|, y requires 0 <= y < |img| => RightStrip(img[y], part, apron))
  }

  // ------------------------------------------------------------------- distribution

  lemma StripsStart<T>(row: seq<T>, part: nat, apron: nat)
    ensures LeftStrip(row[..0], part, apron) == [] == RightStrip(row[..0], part, apron)
    ensures row[..|row|] == row
  {
  }

  lemma StripsStep<T>(row: seq<T>, part: nat, apron: nat, col: nat)
    requires col < |row|
    ensures LeftStrip(row[..col + 1], part, apron)
         == LeftStrip(row[..col], part, apron) + (if col < part + apron then [row[col]] else [])
    ensures RightStrip(row[..col + 1], part, apron)
         == RightStrip(row[..col], part, apron) + (if col >= part - apron then [row[col]] else [])
  {
    var seen, next := row[..col], row[..col + 1];
    if col < part + apron {
      assert LeftStrip(next, part, apron) == next == seen + [row[col]];
    } else {
      assert LeftStrip(next, part, apron) == row[..part + apron] == LeftStrip(seen, part, apron);
    }
    if col < part - apron {
      assert RightStrip(next, part, apron) == [];
    } else {
      var from := if part < apron then 0 else part - apron;
      assert RightStrip(next, part, apron) == row[from..col + 1] == row[from..col] + [row[col]];
    }
  }

  /** One row of distribute2; vect only lengthens the loop. */
  method DistributeTwoRow<T>(ins: Stream<T>, out0: Stream<T>, out1: Stream<T>, part: nat, apron: nat, vect: nat,
                             width: nat, row: nat, ghost img: seq<seq<T>>, ghost rest: seq<T>)
    requires ins != out0 && ins != out1 && out0 != out1
    requires IsImage(img, width, |img|) && row < |img|
    requires ins.data == Pending(img, width, row, 0) + rest
    modifies ins, out0, out1
    ensures ins.data == Pending(img, width, row + 1, 0) + rest
    ensures out0.data == old(out0.data) + LeftStrip(img[row], part, apron)
    ensures out1.data == old(out1.data) + RightStrip(img[row], part, apron)
  {
    hide Pending, LeftStrip, RightStrip;
    ghost var line := img[row];
    StripsStart(line, part, apron);
    var col := 0;
    while col < width + 2 * apron * vect
      invariant 0 <= col
      invariant ins.data == Pending(img, width, row, col) + rest
      invariant var seen := line[..if col < width then col else width];
        && out0.data == old(out0.data) + LeftStrip(seen, part, apron)
        && out1.data == old(out1.data) + RightStrip(seen, part, apron)
      decreases width + 2 * apron * vect - col
    {
      PendingStep(img, width, row, col, rest);
      if col < width {
        StripsStep(line, part, apron, col);
        var temp := ins.Read();
        if col < part - apron {
          out0.Write(temp);
        } else if part - apron <= col < part + apron {
          out0.Write(temp);
          out1.Write(temp);
        } else {
          out1.Write(temp);
        }
      }
      col := col + 1;
    }
    PendingNextRow(img, width, row, col);
  }

  /** distribute2: the first columns of every row, and the last ones, by half the template width. */
  method DistributeTwo<T>(ins: Stream<T>, out0: Stream<T>, out1: Stream<T>, maxWidth: nat, apron: nat, vect: nat,
                          width: nat, height: nat)
    requires ins != out0 && ins != out1 && out0 != out1
    requires width * height <= |ins.data| && out0.data == out1.data == []
    modifies ins, out0, out1
    ensures ins.data == old(ins.data)[width * height..]
    ensures out0.data == Flatten(LeftStrips(Rows(old(ins.data), width, height), maxWidth / 2, apron))
    ensures out1.data == Flatten(RightStrips(Rows(old(ins.data), width, height), maxWidth / 2, apron))
  {
    ghost var img := Rows(ins.data, width, height);
    ghost var rest := ins.data[width * height..];
    FlattenRows(ins.data, width, height);
    PendingAll(img, width);
    hide Pending, LeftStrip, RightStrip, LeftStrips, RightStrips, Rows, Flatten;
    var part := maxWidth / 2;
    ghost var lefts, rights := LeftStrips(img, part, apron), RightStrips(img, part, apron);
    FlattenEnds(lefts);
    FlattenEnds(rights);
    var row := 0;
    while row < height
      invariant 0 <= row <= height
      invariant ins.data == Pending(img, width, row, 0) + rest
      invariant out0.data == Flatten(lefts[..row]) && out1.data == Flatten(rights[..row])
    {
      DistributeTwoRow(ins, out0, out1, part, apron, vect, width, row, img, rest);
      FlattenMove(lefts, row);
      FlattenMove(rights, row);
      row := row + 1;
    }
  }

  // --------------------------------------------------------------------- collection

  /** What taking `part` words of every row from stream 0 and the others from stream 1 gives; None
      when a stream runs dry, where the read would wait for ever. */
  function Taken<U>(s0: seq<U>, s1: seq<U>, part: nat, width: nat, height: nat): (out: Option<seq<U>>)
    requires part <= width
    decreases height
  {
    if height == 0 then Some([])
    else if |s0| < part || |s1| < width - part then None
    else
      match Taken(s0[part..], s1[width - part..], part, width, height - 1)
      case None => None
      case Some(out) => Some(s0[..part] + s1[..width - part] + out)
  }

  /** One row of collect2. */
  method CollectTwoRow<U>(in0: Stream<U>, in1: Stream<U>, part: nat, width: nat) returns (out: Option<seq<U>>)
    requires in0 != in1 && part <= width
    modifies in0, in1
    ensures var s0, s1 := old(in0.data), old(in1.data);
      if |s0| < part || |s1| < width - part then out == None
      else
        && out == Some(s0[..part] + s1[..width - part])
        && in0.data == s0[part..] && in1.data == s1[width - part..]
  {
    ghost var s0, s1 := in0.data, in1.data;
    var line := [];
    var col := 0;
    while col < width
      invariant 0 <= col <= width
      invariant var n := if col < part then col else part;
        && n <= |s0| && col - n <= |s1|
        && in0.data == s0[n..] && in1.data == s1[col - n..]
        && line == s0[..n] + s1[..col - n]
    {
      var temp;
      if col < part {
        if in0.data == [] { return None; }
        temp := in0.Read();
        assert s0[..col + 1] == s0[..col] + [s0[col]];
      } else {
        if in1.data == [] { return None; }
        temp := in1.Read();
        assert s1[..col - part + 1] == s1[..col - part] + [s1[col - part]];
      }
      line := line + [temp];
      col := col + 1;
    }
    out := Some(line);
  }

  /** collect2 takes half the actual width of every row from stream 0. */
  method CollectTwo<U>(in0: Stream<U>, in1: Stream<U>, width: nat, height: nat) returns (out: Option<seq<U>>)
    requires in0 != in1
    modifies in0, in1
    ensures out == Taken(old(in0.data), old(in1.data), width / 2, width, height)
  {
    hide Taken, Prepend;
    var part := width / 2;
    var lines := [];
    PrependNothing(Taken(in0.data, in1.data, part, width, height));
    var row := 0;
    while row < height
      invariant 0 <= row <= height
      invariant Taken(old(in0.data), old(in1.data), part, width, height)
             == Prepend(lines, Taken(in0.data, in1.data, part, width, height - row))
    {
      TakenStep(lines, in0.data, in1.data, part, width, height - row);
      var line := CollectTwoRow(in0, in1, part, width);
      if line.None? { return None; }
      lines := lines + line.value;
      row := row + 1;
    }
    TakenNothing(lines, in0.data, in1.data, part, width);
    out := Some(lines);
  }

  ghost function Prepend<U>(s: seq<U>, rest: Option<seq<U>>): Option<seq<U>> {
    match rest
    case None => None
    case Some(out) => Some(s + out)
  }

  lemma PrependNothing<U>(rest: Option<seq<U>>)
    ensures Prepend([], rest) == rest
  {
    if rest.Some? { assert [] + rest.value == rest.value; }
  }

  lemma TakenNothing<U>(lines: seq<U>, s0: seq<U>, s1: seq<U>, part: nat, width: nat)
    requires part <= width
    ensures Prepend(lines, Taken(s0, s1, part, width, 0)) == Some(lines)
  {
    assert lines + [] == lines;
  }

  lemma TakenStep<U>(lines: seq<U>, s0: seq<U>, s1: seq<U>, part: nat, width: nat, height: nat)
    requires part <= width && height >= 1
    ensures Prepend(lines, Taken(s0, s1, part, width, height)) ==
      if |s0| < part || |s1| < width - part then None
      else Prepend(lines + (s0[..part] + s1[..width - part]),
                   Taken(s0[part..], s1[width - part..], part, width, height - 1))
  {
    if |s0| >= part && |s1| >= width - part {
      var line, rest := s0[..part] + s1[..width - part], Taken(s0[part..], s1[width - part..], part, width, height - 1);
      if rest.Some? { assert lines + (line + rest.value) == lines + line + rest.value; }
    }
  }

  // -------------------------------------------------------------- the pair with processors

  // the halo a strip's processor drops
  function DropLast<T>(s: seq<T>, n: nat): seq<T> { s[..if n < |s| then |s| - n else 0] }
  function DropFirst<T>(s: seq<T>, n: nat): seq<T> { s[if n < |s| then n else |s|..] }

  ghost function LeftParts<T, U>(op: (seq<T>, seq<T>) -> U, radius: nat, img: seq<seq<T>>, part: nat, apron: nat):
      (rows: seq<seq<U>>)
    ensures |rows| == |img|
    ensures forall y :: 0 <= y < |img| ==>
      rows[y] == DropLast(MapLocal(op, radius, LeftStrip(img[y], part, apron)), apron)
  {
    seq(|img|, y requires 0 <= y < |img| =>
      DropLast(MapLocal(op, radius, LeftStrip(img[y], part, apron)), apron))
  }

  ghost function RightParts<T, U>(op: (seq<T>, seq<T>) -> U, radius: nat, img: seq<seq<T>>, part: nat, apron: nat):
      (rows: seq<seq<U>>)
    ensures |rows| == |img|
    ensures forall y :: 0 <= y < |img| ==>
      rows[y] == DropFirst(MapLocal(op, radius, RightStrip(img[y], part, apron)), apron)
  {
    seq(|img|, y requires 0 <= y < |img| =>
      DropFirst(MapLocal(op, radius, RightStrip(img[y], part, apron)), apron))
  }

  /** What distributing over two strips, processing each and collecting gives. */
  ghost function Recombined<T, U>(op: (seq<T>, seq<T>) -> U, radius: nat, img: seq<seq<T>>, maxWidth: nat,
                                  apron: nat, width: nat): Option<seq<U>> {
    Taken(Flatten(LeftParts(op, radius, img, maxWidth / 2, apron)),
          Flatten(RightParts(op, radius, img, maxWidth / 2, apron)),
          width / 2, width, |img|)
  }

  /** Where both halves are one and hold an apron, each strip's own part is complete. */
  lemma PartsAreOwn<T, U>(op: (seq<T>, seq<T>) -> U, radius: nat, row: seq<T>, part: nat, apron: nat)
    requires radius <= apron <= part == |row| / 2
    ensures DropLast(MapLocal(op, radius, LeftStrip(row, part, apron)), apron) == MapLocal(op, radius, row)[..part]
    ensures DropFirst(MapLocal(op, radius, RightStrip(row, part, apron)), apron) == MapLocal(op, radius, row)[part..]
  {
    LeftPartIsOwn(op, radius, row, part, apron);
    RightPartIsOwn(op, radius, row, part, apron);
  }

  lemma LeftPartIsOwn<T, U>(op: (seq<T>, seq<T>) -> U, radius: nat, row: seq<T>, part: nat, apron: nat)
    requires radius <= apron && part + apron <= |row|
    ensures DropLast(MapLocal(op, radius, LeftStrip(row, part, apron)), apron) == MapLocal(op, radius, row)[..part]
  {
    hide MapLocal;
    var strip, res := row[0..part + apron], MapLocal(op, radius, row);
    assert LeftStrip(row, part, apron) == strip;
    ProcessedSlice(op, radius, row, 0, part + apron, 0, part);
    assert MapLocal(op, radius, strip)[..part] == MapLocal(op, radius, strip)[0..part];
    assert res[0..part] == res[..part];
  }

  lemma RightPartIsOwn<T, U>(op: (seq<T>, seq<T>) -> U, radius: nat, row: seq<T>, part: nat, apron: nat)
    requires radius <= apron <= part <= |row|
    ensures DropFirst(MapLocal(op, radius, RightStrip(row, part, apron)), apron) == MapLocal(op, radius, row)[part..]
  {
    hide MapLocal;
    var strip, res := row[part - apron..|row|], MapLocal(op, radius, row);
    assert RightStrip(row, part, apron) == strip;
    ProcessedSlice(op, radius, row, part - apron, |row|, part, |row|);
    var mine := MapLocal(op, radius, strip);
    assert mine[apron..] == mine[apron..|mine|];
    assert res[part..|row|] == res[part..];
  }

  lemma {:induction false} TakenRows<U>(img: seq<seq<U>>, lefts: seq<seq<U>>, rights: seq<seq<U>>, part: nat,
                                        width: nat)
    requires part <= width && IsImage(img, width, |img|) && |lefts| == |rights| == |img|
    requires forall y :: 0 <= y < |img| ==> lefts[y] == img[y][..part] && rights[y] == img[y][part..]
    ensures Taken(Flatten(lefts), Flatten(rights), part, width, |img|) == Some(Flatten(img))
    decreases |img|
  {
    if img != [] {
      TakenRows(img[1..], lefts[1..], rights[1..], part, width);
      var s0, s1 := Flatten(lefts), Flatten(rights);
      assert s0 == lefts[0] + Flatten(lefts[1..]) && s1 == rights[0] + Flatten(rights[1..]);
      assert s0[..part] == lefts[0] && s0[part..] == Flatten(lefts[1..]);
      assert s1[..width - part] == rights[0] && s1[width - part..] == Flatten(rights[1..]);
      assert lefts[0] + rights[0] == img[0];
    }
  }

  lemma TwoStripsFit<T, U>(op: (seq<T>, seq<T>) -> U, radius: nat, img: seq<seq<T>>, maxWidth: nat, apron: nat,
                           width: nat)
    requires IsImage(img, width, |img|) && radius <= apron
    requires width / 2 == maxWidth / 2 && apron <= width / 2
    ensures Recombined(op, radius, img, maxWidth, apron, width) == Some(Flatten(MapRows(op, radius, img)))
  {
    hide Taken, Flatten, MapLocal, LeftStrip, RightStrip, DropFirst, DropLast, LeftParts, RightParts;
    var part := width / 2;
    forall y | 0 <= y < |img|
      ensures LeftParts(op, radius, img, part, apron)[y] == MapRows(op, radius, img)[y][..part]
      ensures RightParts(op, radius, img, part, apron)[y] == MapRows(op, radius, img)[y][part..]
    {
      PartsAreOwn(op, radius, img[y], part, apron);
    }
    TakenRows(MapRows(op, radius, img), LeftParts(op, radius, img, part, apron),
              RightParts(op, radius, img, part, apron), part, width);
  }

  type Pixel = (nat, nat)

  /** An image whose pixels tell their positions, and the operator that leaves pixels alone. */
  function Positions(width: nat, height: nat): seq<seq<Pixel>> {
    seq(height, y requires 0 <= y < height => seq(width, x requires 0 <= x < width => (y, x)))
  }

  function Centre(left: seq<Pixel>, right: seq<Pixel>): Pixel { if right == [] then (0, 0) else right[0] }

  lemma CentreKeeps(radius: nat, row: seq<Pixel>)
    ensures MapLocal(Centre, radius, row) == row
  {
    forall x | 0 <= x < |row|
      ensures MapLocal(Centre, radius, row)[x] == row[x]
    {
      var left, right := LeftOf(row, x, radius), RightFrom(row, x, radius);
      assert MapLocal(Centre, radius, row)[x] == Centre(left, right);
      assert right[0] == row[x];
    }
  }

  // the columns that the strips have left after dropping their halos
  function LeftCount(width: nat, part: nat, apron: nat): nat {
    if part + apron <= width then part else if apron < width then width - apron else 0
  }

  function RightFirst(part: nat, apron: nat): nat { if part < apron then apron else part }

  function RightCount(width: nat, part: nat, apron: nat): nat {
    if RightFirst(part, apron) < width then width - RightFirst(part, apron) else 0
  }

  lemma LeftOfPositions(radius: nat, img: seq<seq<Pixel>>, part: nat, apron: nat, width: nat)
    requires img == Positions(width, |img|) && apron >= 1
    ensures var lefts := LeftParts(Centre, radius, img, part, apron);
      && IsImage(lefts, LeftCount(width, part, apron), |img|)
      && forall x, y :: 0 <= y < |img| && 0 <= x < LeftCount(width, part, apron) ==> lefts[y][x] == (y, x)
  {
    hide MapLocal;
    forall y | 0 <= y < |img|
      ensures LeftParts(Centre, radius, img, part, apron)[y] == img[y][..LeftCount(width, part, apron)]
    {
      CentreKeeps(radius, LeftStrip(img[y], part, apron));
    }
  }

  lemma RightOfPositions(radius: nat, img: seq<seq<Pixel>>, part: nat, apron: nat, width: nat)
    requires img == Positions(width, |img|) && apron >= 1
    ensures var rights := RightParts(Centre, radius, img, part, apron);
      && IsImage(rights, RightCount(width, part, apron), |img|)
      && forall x, y :: 0 <= y < |img| && 0 <= x < RightCount(width, part, apron) ==>
        rights[y][x] == (y, RightFirst(part, apron) + x)
  {
    hide MapLocal;
    forall y | 0 <= y < |img|
      ensures RightParts(Centre, radius, img, part, apron)[y] == img[y][width - RightCount(width, part, apron)..]
    {
      CentreKeeps(radius, RightStrip(img[y], part, apron));
    }
  }

  /** The first row that collect2 puts out. */
  lemma TakenHead<U>(s0: seq<U>, s1: seq<U>, part: nat, width: nat, height: nat)
    requires part <= width && height >= 1 && Taken(s0, s1, part, width, height).Some?
    ensures |s0| >= part && |s1| >= width - part
    ensures var out := Taken(s0, s1, part, width, height).value;
      width <= |out| && out[..width] == s0[..part] + s1[..width - part]
  {
  }

  /** Otherwise the first row already goes wrong, or a stream runs dry in it. */
  lemma TwoStripsMisfit(radius: nat, maxWidth: nat, apron: nat, width: nat, height: nat)
    requires width >= 1 && height >= 1 && apron >= 1
    requires !(width / 2 == maxWidth / 2 && apron <= width / 2)
    ensures var img := Positions(width, height);
      Recombined(Centre, radius, img, maxWidth, apron, width) != Some(Flatten(img))
  {
    var img, part, half := Positions(width, height), maxWidth / 2, width / 2;
    var lefts, rights := LeftParts(Centre, radius, img, part, apron), RightParts(Centre, radius, img, part, apron);
    var s0, s1 := Flatten(lefts), Flatten(rights);
    LeftOfPositions(radius, img, part, apron, width);
    RightOfPositions(radius, img, part, apron, width);
    if Recombined(Centre, radius, img, maxWidth, apron, width) == Some(Flatten(img)) {
      hide Flatten, Taken, LeftParts, RightParts;
      TakenHead(s0, s1, half, width, height);
      FlattenHead(img, width);
      FirstWord(rights, RightCount(width, part, apron));
      assert s1[0] == img[0][half];
      assert RightFirst(part, apron) == half;
      assert part < half == apron && LeftCount(width, part, apron) == part;
      assert s0[part] == img[0][part];
      WordBehindRow(lefts, part);
      assert false;
    }
  }

  lemma FlattenHead<T>(img: seq<seq<T>>, width: nat)
    requires img != [] && IsImage(img, width, |img|)
    ensures |Flatten(img)| >= width && Flatten(img)[..width] == img[0]
  {
  }

  lemma FirstWord<T>(rows: seq<seq<T>>, width: nat)
    requires rows != [] && IsImage(rows, width, |rows|)
    ensures if width == 0 then Flatten(rows) == [] else Flatten(rows) != [] && Flatten(rows)[0] == rows[0][0]
  {
    FlattenLength(rows, width, |rows|);
    if width > 0 { FlattenAt(rows, width, |rows|, 0, 0); }
  }

  lemma WordBehindRow<T>(rows: seq<seq<T>>, width: nat)
    requires rows != [] && IsImage(rows, width, |rows|)
    ensures |Flatten(rows)| > width ==> |rows| > 1 && width > 0 && Flatten(rows)[width] == rows[1][0]
  {
    FlattenLength(rows, width, |rows|);
    if width > 0 && |rows| > 1 { FlattenAt(rows, width, |rows|, 0, 1); }
  }

  /** distribute2 and collect2 give back the processed rows, for every operator within the apron and
      every image, exactly when half the template width is half the width and holds an apron. */
  lemma TwoStripsFitIff(radius: nat, maxWidth: nat, apron: nat, width: nat, height: nat)
    requires width >= 1 && height >= 1 && apron >= 1 && radius <= apron
    ensures (forall op: (seq<Pixel>, seq<Pixel>) -> Pixel, img: seq<seq<Pixel>> | IsImage(img, width, height) ::
        Recombined(op, radius, img, maxWidth, apron, width) == Some(Flatten(MapRows(op, radius, img))))
      <==> width / 2 == maxWidth / 2 && apron <= width / 2
  {
    hide Recombined, Flatten, MapRows, IsImage;
    if width / 2 == maxWidth / 2 && apron <= width / 2 {
      forall op: (seq<Pixel>, seq<Pixel>) -> Pixel, img: seq<seq<Pixel>> | IsImage(img, width, height)
        ensures Recombined(op, radius, img, maxWidth, apron, width) == Some(Flatten(MapRows(op, radius, img)))
      {
        ImageHeight(img, width, height);
        TwoStripsFit(op, radius, img, maxWidth, apron, width);
      }
    } else {
      var img := Positions(width, height);
      TwoStripsMisfit(radius, maxWidth, apron, width, height);
      PositionsKept(radius, width, height);
      assert Recombined(Centre, radius, img, maxWidth, apron, width) != Some(Flatten(MapRows(Centre, radius, img)));
    }
  }

  lemma ImageHeight<T>(img: seq<seq<T>>, width: nat, height: nat)
    requires IsImage(img, width, height)
    ensures IsImage(img, width, |img|)
  {
  }

  lemma PositionsKept(radius: nat, width: nat, height: nat)
    ensures var img := Positions(width, height); IsImage(img, width, height) && MapRows(Centre, radius, img) == img
  {
    var img := Positions(width, height);
    forall y | 0 <= y < height
      ensures MapRows(Centre, radius, img)[y] == img[y]
    {
      CentreKeeps(radius, img[y]);
    }
  }

  /** A strip processor: takes rows of w words off its stream, applies the operator to each and
      drops the halo at one end. */
  method RunSide<T, U>(op: (seq<T>, seq<T>) -> U, radius: nat, s: seq<T>, w: nat, height: nat, left: bool,
                       apron: nat, ghost strips: seq<seq<T>>, ghost parts: seq<seq<U>>) returns (out: seq<U>)
    requires IsImage(strips, w, height) && |parts| == height && s == Flatten(strips)
    requires forall y :: 0 <= y < height ==>
      var res := MapLocal(op, radius, strips[y]);
      parts[y] == if left then DropLast(res, apron) else DropFirst(res, apron)
    ensures out == Flatten(parts)
  {
    out := [];
    var rest := s;
    FlattenEnds(strips);
    FlattenEnds(parts);
    hide Flatten, MapLocal, DropFirst, DropLast;
    var y := 0;
    while y < height
      invariant 0 <= y <= height && rest == Flatten(strips[y..]) && out == Flatten(parts[..y])
    {
      FlattenMove(strips, y);
      FlattenMove(parts, y);
      var res := MapLocal(op, radius, rest[..w]);
      out := out + if left then DropLast(res, apron) else DropFirst(res, apron);
      rest := rest[w..];
      y := y + 1;
    }
  }

  /** Distributing over two strips, processing each and collecting, for every pair of widths: what
      comes out, which TwoStripsFitIff compares with processing whole rows. */
  method ProcessInTwoStrips<T, U>(ins: Stream<T>, maxWidth: nat, apron: nat, vect: nat, width: nat, height: nat,
                                  op: (seq<T>, seq<T>) -> U, radius: nat) returns (out: Option<seq<U>>)
    requires width * height <= |ins.data|
    modifies ins
    ensures ins.data == old(ins.data)[width * height..]
    ensures out == Recombined(op, radius, Rows(old(ins.data), width, height), maxWidth, apron, width)
  {
    ghost var img := Rows(ins.data, width, height);
    var part := maxWidth / 2;
    var s0 := new Stream<T>([]);
    var s1 := new Stream<T>([]);
    DistributeTwo(ins, s0, s1, maxWidth, apron, vect, width, height);
    var w0 := if part + apron < width then part + apron else width;
    var w1 := if part < apron then width else if part - apron < width then width - (part - apron) else 0;
    hide Flatten, MapLocal, Rows;
    var d0 := RunSide(op, radius, s0.data, w0, height, true, apron,
                      LeftStrips(img, part, apron), LeftParts(op, radius, img, part, apron));
    var d1 := RunSide(op, radius, s1.data, w1, height, false, apron,
                      RightStrips(img, part, apron), RightParts(op, radius, img, part, apron));
    var t0 := new Stream<U>(d0);
    var t1 := new Stream<U>(d1);
    out := CollectTwo(t0, t1, width, height);
  }
}
