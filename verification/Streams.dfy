/** First-in first-out pixel streams and the row-major (raster) order in which images
    travel through them. */
module Streams {

  class Stream<T> {
    var data: seq<T>

    constructor (contents: seq<T>)
      ensures data == contents
    {
      data := contents;
    }

    method Read() returns (x: T)
      requires data != []
      modifies this
      ensures x == old(data)[0] && data == old(data)[1..]
    {
      x := data[0];
      data := data[1..];
    }

    method Write(x: T)
      modifies this
      ensures data == old(data) + [x]
    {
      data := data + [x];
    }
  }

  /** The rows of an image, one after the other. */
  ghost function Flatten<T>(rows: seq<seq<T>>): seq<T> {
    if rows == [] then [] else rows[0] + Flatten(rows[1..])
  }

  /** The first h rows of w pixels at the head of a stream. */
  ghost function Rows<T>(s: seq<T>, w: nat, h: nat): (rows: seq<seq<T>>)
    requires w * h <= |s|
    ensures |rows| == h && forall y :: 0 <= y < h ==> |rows[y]| == w
    decreases h
  {
    if h == 0 then [] else
      assert w * h == w + w * (h - 1);
      [s[..w]] + Rows(s[w..], w, h - 1)
  }

  ghost predicate IsImage<T>(img: seq<seq<T>>, w: nat, h: nat) {
    |img| == h && forall y :: 0 <= y < h ==> |img[y]| == w
  }

  /** Cutting a stream into rows loses nothing and reorders nothing. */
  lemma {:induction false} FlattenRows<T>(s: seq<T>, w: nat, h: nat)
    requires w * h <= |s|
    ensures Flatten(Rows(s, w, h)) == s[..w * h]
    decreases h
  {
    if h != 0 {
      assert w * h == w + w * (h - 1);
      var rows := Rows(s, w, h);
      FlattenRows(s[w..], w, h - 1);
      assert rows[1..] == Rows(s[w..], w, h - 1);
      assert s[..w] + s[w..][..w * (h - 1)] == s[..w * h];
    }
  }

  lemma {:induction false} FlattenLength<T>(img: seq<seq<T>>, w: nat, h: nat)
    requires IsImage(img, w, h)
    ensures |Flatten(img)| == w * h
    decreases h
  {
    if h != 0 {
      FlattenLength(img[1..], w, h - 1);
      assert w * h == w + w * (h - 1);
    }
  }

  /** Pixel (x, y) of an image is item y*w + x of its stream. */
  lemma {:induction false} FlattenAt<T>(img: seq<seq<T>>, w: nat, h: nat, x: nat, y: nat)
    requires IsImage(img, w, h) && x < w && y < h
    ensures y * w + x < |Flatten(img)| && Flatten(img)[y * w + x] == img[y][x]
    decreases h
  {
    FlattenLength(img[1..], w, h - 1);
    assert w * h == w + w * (h - 1);
    if y != 0 {
      FlattenAt(img[1..], w, h - 1, x, y - 1);
      assert y * w == w + (y - 1) * w;
    }
  }

  lemma {:induction false} FlattenAppend<T>(rows: seq<seq<T>>, row: seq<T>)
    ensures Flatten(rows + [row]) == Flatten(rows) + row
  {
    if rows == [] {
      assert Flatten([row]) == row + Flatten([][..]);
      assert rows + [row] == [row];
    } else {
      FlattenAppend(rows[1..], row);
      assert (rows + [row])[1..] == rows[1..] + [row];
    }
  }

  /** Moving one row from the rows still to come to the rows already seen. */
  lemma FlattenMove<T>(rows: seq<seq<T>>, y: nat)
    requires y < |rows|
    ensures Flatten(rows[y..]) == rows[y] + Flatten(rows[y + 1..])
    ensures Flatten(rows[..y + 1]) == Flatten(rows[..y]) + rows[y]
  {
    assert rows[y..][0] == rows[y] && rows[y..][1..] == rows[y + 1..];
    FlattenAppend(rows[..y], rows[y]);
    assert rows[..y + 1] == rows[..y] + [rows[y]];
  }

  lemma FlattenEnds<T>(rows: seq<seq<T>>)
    ensures Flatten(rows[0..]) == Flatten(rows) == Flatten(rows[..|rows|])
    ensures Flatten(rows[..0]) == [] == Flatten(rows[|rows|..])
  {
    assert rows[0..] == rows && rows[..|rows|] == rows;
  }

  /** What is still to be read of img before position (row, col). */
  ghost function Unread<T>(img: seq<seq<T>>, row: nat, col: nat): seq<T>
    requires row < |img| ==> col <= |img[row]|
  {
    if row < |img| then img[row][col..] + Flatten(img[row + 1..]) else []
  }

  /** What is still to be read before loop position (row, col), whose loop runs past the
      end of the row and of the image. */
  ghost function Pending<T>(img: seq<seq<T>>, width: nat, row: nat, col: nat): seq<T>
    requires IsImage(img, width, |img|)
  {
    Unread(img, row, if col < width then col else width)
  }

  /** Reading one pixel advances the position, and a finished row leads to the next. */
  lemma PendingStep<T>(img: seq<seq<T>>, width: nat, row: nat, col: nat, rest: seq<T>)
    requires IsImage(img, width, |img|)
    ensures var s := Pending(img, width, row, col) + rest;
      if row < |img| && col < width
      then s != [] && s[0] == img[row][col] && s[1..] == Pending(img, width, row, col + 1) + rest
      else s == Pending(img, width, row, col + 1) + rest
  {
    if row < |img| && col < width {
      assert img[row][col..] == [img[row][col]] + img[row][col + 1..];
    }
  }

  lemma PendingNextRow<T>(img: seq<seq<T>>, width: nat, row: nat, col: nat)
    requires IsImage(img, width, |img|) && col >= width
    ensures Pending(img, width, row, col) == Pending(img, width, row + 1, 0)
  {
    if row + 1 < |img| {
      assert img[row + 1..][1..] == img[row + 2..];
      assert img[row + 1..][0] == img[row + 1];
    }
  }

  lemma PendingAll<T>(img: seq<seq<T>>, width: nat)
    requires IsImage(img, width, |img|)
    ensures Pending(img, width, 0, 0) == Flatten(img)
    ensures Pending(img, width, |img|, 0) == []
  {
    if img != [] {
      assert img[1..] == img[0 + 1..];
      assert img[0][0..] == img[0];
    }
  }

  /** Rows behind the image read nothing. */
  lemma PendingPast<T>(img: seq<seq<T>>, width: nat, row: nat)
    requires IsImage(img, width, |img|) && row >= |img|
    ensures Pending(img, width, row, 0) == []
  {
  }

  /** What has been written of img when output is about to continue at (row, col). */
  ghost function Written<T>(img: seq<seq<T>>, row: nat, col: nat): seq<T>
    requires row <= |img| && (row < |img| ==> col <= |img[row]|)
  {
    Flatten(img[..row]) + if row < |img| then img[row][..col] else []
  }

  lemma WrittenStep<T>(img: seq<seq<T>>, row: nat, col: nat, prefix: seq<T>)
    requires row < |img| && col < |img[row]|
    ensures prefix + Written(img, row, col + 1) == (prefix + Written(img, row, col)) + [img[row][col]]
  {
    assert img[row][..col + 1] == img[row][..col] + [img[row][col]];
  }

  lemma WrittenNextRow<T>(img: seq<seq<T>>, row: nat)
    requires row < |img|
    ensures Written(img, row, |img[row]|) == Written(img, row + 1, 0)
  {
    FlattenAppend(img[..row], img[row]);
    assert img[..row + 1] == img[..row] + [img[row]];
    assert img[row][..|img[row]|] == img[row];
  }

  lemma WrittenAll<T>(img: seq<seq<T>>)
    ensures Written(img, |img|, 0) == Flatten(img)
    ensures Written(img, 0, 0) == []
  {
    assert img[..|img|] == img;
  }
}
