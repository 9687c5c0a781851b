/** Rectangles, pixel images, and images laid out in memory as rows of a fixed stride. */
module Images {
  import opened Words
  import opened Seqs

  /** gfx::Rect: a corner and a size. */
  datatype Rect = Rect(x: int, y: int, width: int, height: int) {
    predicate IsEmpty() { width <= 0 || height <= 0 }
    function Right(): int { x + width }
    function Bottom(): int { y + height }
    predicate Contains(px: int, py: int) { x <= px < Right() && y <= py < Bottom() }

    function Intersect(r: Rect): Rect {
      var left, top := Max(x, r.x), Max(y, r.y);
      var right, bottom := Min(Right(), r.Right()), Min(Bottom(), r.Bottom());
      if IsEmpty() || r.IsEmpty() || left >= right || top >= bottom then Rect(0, 0, 0, 0)
      else Rect(left, top, right - left, bottom - top)
    }
  }

  function Max(a: int, b: int): int { if a < b then b else a }
  function Min(a: int, b: int): int { if a < b then a else b }

  lemma IntersectContains(a: Rect, b: Rect, px: int, py: int)
    ensures a.Intersect(b).Contains(px, py) <==> a.Contains(px, py) && b.Contains(px, py)
  {
  }

  /** Four bytes in memory order. */
  type Pixel = p: seq<Byte> | |p| == 4 witness [0, 0, 0, 0]

  datatype RawImage = RawImage(width: nat, height: nat, rows: seq<seq<Pixel>>) {
    predicate Ok() { |rows| == height && forall y :: 0 <= y < height ==> |rows[y]| == width }
  }

  type Image = i: RawImage | i.Ok() witness RawImage(0, 0, [])

  function PixelAt(i: Image, x: nat, y: nat): Pixel
    requires x < i.width && y < i.height
  {
    i.rows[y][x]
  }

  lemma ImagesEqual(a: Image, b: Image)
    requires a.width == b.width && a.height == b.height
    requires forall x: nat, y: nat :: x < a.width && y < a.height ==> PixelAt(a, x, y) == PixelAt(b, x, y)
    ensures a == b
  {
    forall y | 0 <= y < a.height ensures a.rows[y] == b.rows[y] {
      forall x | 0 <= x < a.width ensures a.rows[y][x] == b.rows[y][x] {
        assert PixelAt(a, x, y) == PixelAt(b, x, y);
      }
    }
  }

  // ---- memory

  /** Where row y starts in a buffer of rows of `stride` bytes. */
  function Offset(y: nat, stride: nat): nat { y * stride }

  lemma RowBounds(y: nat, height: nat, stride: nat)
    requires y < height
    ensures Offset(y, stride) + stride <= height * stride
  {
    assert (height - (y + 1)) * stride >= 0;
  }

  lemma RowsApart(y: nat, k: nat, stride: nat)
    requires y < k
    ensures Offset(y, stride) + stride <= Offset(k, stride)
  {
    RowBounds(y, k, stride);
  }

  /** Row y of a buffer of rows of `stride` bytes. */
  function Row(mem: seq, stride: nat, height: nat, y: nat): (row: seq)
    requires y < height && height * stride <= |mem|
    ensures |row| == stride
  {
    RowBounds(y, height, stride);
    mem[Offset(y, stride)..Offset(y, stride) + stride]
  }

  /** `height` rows of `stride` bytes, the last of which may end after n. */
  predicate Holds(mem: seq, stride: nat, n: nat, height: nat) {
    height > 0 ==> Offset(height - 1, stride) + n <= |mem|
  }

  /** Reading the first n bytes of every row stays inside a buffer exactly when the buffer holds these rows. */
  lemma HoldsExactly(mem: seq, stride: nat, n: nat, height: nat)
    ensures Holds(mem, stride, n, height) <==> forall y: nat :: y < height ==> Offset(y, stride) + n <= |mem|
  {
    forall y: nat | y < height ensures Offset(y, stride) <= Offset(height - 1, stride) {
      if y < height - 1 { RowsApart(y, height - 1, stride); }
    }
    hide Offset;
  }

  lemma WholeRows(mem: seq, stride: nat, n: nat, height: nat)
    requires height * stride <= |mem| && n <= stride
    ensures Holds(mem, stride, n, height)
  {
    if height > 0 { RowBounds(height - 1, height, stride); }
  }

  /** The first n bytes of row y. */
  function Line(mem: seq, stride: nat, n: nat, height: nat, y: nat): (line: seq)
    requires y < height && Holds(mem, stride, n, height)
    ensures |line| == n
  {
    HoldsExactly(mem, stride, n, height);
    mem[Offset(y, stride)..Offset(y, stride) + n]
  }

  function PixelOf(row: seq<Byte>, x: nat): Pixel
    requires 4 * x + 4 <= |row|
  {
    row[4 * x..4 * x + 4]
  }

  function PixelsOf(row: seq<Byte>, width: nat): (ps: seq<Pixel>)
    requires 4 * width <= |row|
    ensures |ps| == width && forall x: nat :: x < width ==> ps[x] == PixelOf(row, x)
  {
    seq(width, x requires 0 <= x < width => PixelOf(row, x))
  }

  /** The image a buffer holds. */
  function Picture(mem: seq<Byte>, stride: nat, width: nat, height: nat): (i: Image)
    requires Holds(mem, stride, 4 * width, height)
    ensures i.width == width && i.height == height
    ensures forall x: nat, y: nat :: x < width && y < height ==>
              PixelAt(i, x, y) == PixelOf(Line(mem, stride, 4 * width, height, y), x)
  {
    var rows := seq(height, y requires 0 <= y < height => PixelsOf(Line(mem, stride, 4 * width, height, y), width));
    assert forall y: nat :: y < height ==> rows[y] == PixelsOf(Line(mem, stride, 4 * width, height, y), width);
    RawImage(width, height, rows)
  }

  /** A pixel does not depend on how much of its row is looked at. */
  lemma PixelOfLine(mem: seq<Byte>, stride: nat, n: nat, m: nat, height: nat, y: nat, x: nat)
    requires y < height && Holds(mem, stride, n, height) && Holds(mem, stride, m, height)
    requires 4 * x + 4 <= n && 4 * x + 4 <= m
    ensures PixelOf(Line(mem, stride, n, height, y), x) == PixelOf(Line(mem, stride, m, height, y), x)
  {
    HoldsExactly(mem, stride, n, height);
    HoldsExactly(mem, stride, m, height);
    var at := Offset(y, stride);
    SliceOfSlice(mem, at, at + n, 4 * x, 4 * x + 4);
    SliceOfSlice(mem, at, at + m, 4 * x, 4 * x + 4);
  }

  lemma PixelOfRow(mem: seq<Byte>, stride: nat, n: nat, height: nat, y: nat, x: nat)
    requires y < height && height * stride <= |mem| && n <= stride && 4 * x + 4 <= n
    ensures Holds(mem, stride, n, height)
    ensures PixelOf(Row(mem, stride, height, y), x) == PixelOf(Line(mem, stride, n, height, y), x)
  {
    WholeRows(mem, stride, n, height);
    WholeRows(mem, stride, stride, height);
    PixelOfLine(mem, stride, stride, n, height, y, x);
  }

  /** What overwriting a row from byte o on with those of a line does to its pixels. */
  lemma SplicedPixel(row: seq<Byte>, line: seq<Byte>, o: nat, x: nat)
    requires o <= |line| <= |row| && 4 * x + 4 <= |row|
    ensures o <= 4 * x && 4 * x + 4 <= |line| ==> PixelOf(Spliced(row, o, line[o..]), x) == PixelOf(line, x)
    ensures 4 * x + 4 <= o || |line| <= 4 * x ==> PixelOf(Spliced(row, o, line[o..]), x) == PixelOf(row, x)
  {
  }

  /** What overwriting part of one row does to the rows of a buffer. */
  lemma RowsAfterCopy(mem: seq, stride: nat, height: nat, y: nat, o: nat, bytes: seq, k: nat)
    requires y < height && k < height && height * stride <= |mem| && o + |bytes| <= stride
    ensures Offset(y, stride) + o + |bytes| <= |mem|
    ensures var row := Row(mem, stride, height, k);
            Row(Spliced(mem, Offset(y, stride) + o, bytes), stride, height, k) ==
            if k == y then Spliced(row, o, bytes) else row
  {
    RowBounds(y, height, stride);
    RowBounds(k, height, stride);
    if k < y { RowsApart(k, y, stride); }
    if y < k { RowsApart(y, k, stride); }
    hide Offset;
  }

  /** The same for every row at once, from the buffer before to the buffer after. */
  lemma RowsCopied(mem: seq<Byte>, after: seq<Byte>, stride: nat, height: nat, y: nat, o: nat, bytes: seq<Byte>)
    requires y < height && height * stride <= |mem| && o + |bytes| <= stride
    requires var d := Offset(y, stride) + o; d + |bytes| <= |mem| && after == Spliced(mem, d, bytes)
    ensures |after| == |mem|
    ensures forall k: nat :: k < height ==>
              Row(after, stride, height, k) ==
              if k == y then Spliced(Row(mem, stride, height, k), o, bytes) else Row(mem, stride, height, k)
  {
    hide Row, Offset, Spliced;
    forall k: nat | k < height
      ensures Row(after, stride, height, k) ==
              if k == y then Spliced(Row(mem, stride, height, k), o, bytes) else Row(mem, stride, height, k)
    {
      RowsAfterCopy(mem, stride, height, y, o, bytes, k);
    }
  }
}
