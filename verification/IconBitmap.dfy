/** The boxes a scaled icon is averaged over, and the bitmap filled from them. */
module IconBitmap {
  import opened Arithmetic
  import opened Words
  import opened Images
  import opened IconFilter

  /** Where box i of `side` boxes starts along an axis of `size` pixels. */
  function Edge(i: nat, size: nat, side: nat): nat
    requires side > 0
  {
    i * size / side
  }

  /** Where it ends. */
  function End(i: nat, size: nat, side: nat): nat
    requires side > 0
  {
    Clamped(Edge(i, size, side), Edge(i + 1, size, side), size)
  }

  /** Boxes start at even distances, rounded down. */
  lemma EdgeExactly(i: nat, size: nat, side: nat)
    requires side > 0
    ensures Edge(i, size, side) * side <= i * size < Edge(i, size, side) * side + side
  {
    DivBounds(i * size, side);
  }

  lemma EdgeEnds(size: nat, side: nat)
    requires side > 0
    ensures Edge(0, size, side) == 0 && Edge(side, size, side) == size
  {
    assert 0 * size == 0;
    assert side * size == size * side;
    assert (size + 1) * side == size * side + side;
    DivAtLeast(size, side, side * size);
    DivBelow(size + 1, side, side * size);
  }

  lemma EdgeInside(i: nat, size: nat, side: nat)
    requires i < side && size > 0
    ensures Edge(i, size, side) < size
  {
    Scale(i + 1, side, size);
    assert (i + 1) * size == i * size + size && side * size == size * side;
    DivBelow(size, side, i * size);
  }

  lemma EdgeStep(i: nat, size: nat, side: nat)
    requires side > 0
    ensures Edge(i, size, side) <= Edge(i + 1, size, side)
    ensures size >= side ==> Edge(i, size, side) < Edge(i + 1, size, side)
  {
    var a := Edge(i, size, side);
    DivBounds(i * size, side);
    assert (i + 1) * size == i * size + size;
    DivAtLeast(a, side, (i + 1) * size);
    if size >= side {
      assert (a + 1) * side == a * side + side;
      DivAtLeast(a + 1, side, (i + 1) * size);
    }
  }

  lemma EdgeStepAtMost(i: nat, size: nat, side: nat, k: nat)
    requires side > 0 && size <= k * side
    ensures Edge(i + 1, size, side) <= Edge(i, size, side) + k
  {
    var a := Edge(i, size, side);
    DivBounds(i * size, side);
    assert (i + 1) * size == i * size + size;
    assert (a + k + 1) * side == a * side + k * side + side;
    DivBelow(a + k + 1, side, (i + 1) * size);
  }

  lemma {:induction false} EdgeGrows(i: nat, j: nat, size: nat, side: nat)
    requires side > 0 && i <= j
    ensures Edge(i, size, side) <= Edge(j, size, side)
  {
    if i < j {
      EdgeGrows(i, j - 1, size, side);
      EdgeStep(j - 1, size, side);
    }
  }

  /** Every box is non-empty and inside the source, and at most k pixels wide when the source is at most k * side. */
  lemma BoxSpan(i: nat, size: nat, side: nat, k: nat)
    requires i < side && size > 0 && k > 0 && size <= k * side
    ensures Edge(i, size, side) < End(i, size, side) <= size
    ensures End(i, size, side) <= Edge(i, size, side) + k
    ensures size >= side ==> End(i, size, side) == Edge(i + 1, size, side)
  {
    hide Edge;
    EdgeInside(i, size, side);
    EdgeStep(i, size, side);
    EdgeStepAtMost(i, size, side, k);
    EdgeGrows(i + 1, side, size, side);
    EdgeEnds(size, side);
  }

  /** A source of at least `side` pixels is cut into boxes: each pixel is in exactly one. */
  lemma BoxesPartition(x: nat, size: nat, side: nat) returns (i: nat)
    requires side > 0 && x < size && size >= side
    ensures i < side && Edge(i, size, side) <= x < End(i, size, side)
    ensures forall j: nat :: j < side && Edge(j, size, side) <= x < End(j, size, side) ==> j == i
  {
    hide Edge, End;
    i := 0;
    EdgeEnds(size, side);
    while Edge(i + 1, size, side) <= x
      invariant i < side && Edge(i, size, side) <= x
      decreases side - i
    {
      i := i + 1;
    }
    Scale(1, side, size);
    BoxSpan(i, size, side, size);
    forall j: nat | j < side && Edge(j, size, side) <= x < End(j, size, side) ensures j == i {
      BoxSpan(j, size, side, size);
      if j < i { EdgeGrows(j + 1, i, size, side); }
      if i < j { EdgeGrows(i + 1, j, size, side); }
    }
  }

  /** Each pixel of a source that is at least `side` both ways is in exactly one box of the grid. */
  lemma PixelInOneBox(x: nat, y: nat, width: nat, height: nat, side: nat) returns (i: nat, j: nat)
    requires x < width && y < height && 0 < side <= width && side <= height
    ensures i < side && j < side && InBox(x, y, width, height, side, i, j)
    ensures forall i': nat, j': nat :: i' < side && j' < side && InBox(x, y, width, height, side, i', j') ==>
              i' == i && j' == j
  {
    i := BoxesPartition(x, width, side);
    j := BoxesPartition(y, height, side);
    hide Edge, End;
  }

  /** The pixel is among those averaged for column i and row j of the icon. */
  predicate InBox(x: nat, y: nat, width: nat, height: nat, side: nat, i: nat, j: nat)
    requires side > 0
  {
    Edge(i, width, side) <= x < End(i, width, side) && Edge(j, height, side) <= y < End(j, height, side)
  }

  // ---- counting

  /** The number of pixels the filter counts in the first i boxes of row j of boxes. */
  function RowCount(argb: seq<Word>, width: nat, height: nat, side: nat, i: nat, j: nat): nat
    requires Raster(argb, width, height) && side > 0
  {
    if i == 0 then 0
    else RowCount(argb, width, height, side, i - 1, j) + BoxCount(argb, width, height, side, i - 1, j)
  }

  function BoxCount(argb: seq<Word>, width: nat, height: nat, side: nat, i: nat, j: nat): nat
    requires Raster(argb, width, height) && side > 0
  {
    BoxSums(argb, width, height, Edge(i, width, side), Edge(j, height, side),
            End(i, width, side), End(j, height, side)).n
  }

  function TotalCount(argb: seq<Word>, width: nat, height: nat, side: nat, j: nat): nat
    requires Raster(argb, width, height) && side > 0
  {
    if j == 0 then 0
    else TotalCount(argb, width, height, side, j - 1) + RowCount(argb, width, height, side, side, j - 1)
  }

  lemma {:induction false} RowCounts(argb: seq<Word>, width: nat, height: nat, side: nat, i: nat, j: nat)
    requires Raster(argb, width, height) && 0 < side <= width && side <= height && i <= side && j < side
    ensures RowCount(argb, width, height, side, i, j) ==
            Edge(i, width, side) * (Edge(j + 1, height, side) - Edge(j, height, side))
  {
    hide Edge, End, BoxSums, Limited;
    EdgeEnds(width, side);
    EdgeStep(j, height, side);
    var h := Edge(j + 1, height, side) - Edge(j, height, side);
    if i > 0 {
      RowCounts(argb, width, height, side, i - 1, j);
      BoxCounts(argb, width, height, side, i - 1, j);
      EdgeStep(i - 1, width, side);
      Distribute(Edge(i - 1, width, side), Edge(i, width, side) - Edge(i - 1, width, side), h);
    } else {
      assert 0 * h == 0;
    }
  }

  lemma BoxCounts(argb: seq<Word>, width: nat, height: nat, side: nat, i: nat, j: nat)
    requires Raster(argb, width, height) && 0 < side <= width && side <= height && i < side && j < side
    ensures Edge(i, width, side) <= Edge(i + 1, width, side) && Edge(j, height, side) <= Edge(j + 1, height, side)
    ensures BoxCount(argb, width, height, side, i, j) ==
            (Edge(j + 1, height, side) - Edge(j, height, side)) * (Edge(i + 1, width, side) - Edge(i, width, side))
  {
    hide Edge, End, BoxSums, Limited;
    Scale(1, side, width);
    Scale(1, side, height);
    BoxSpan(i, width, side, width);
    BoxSpan(j, height, side, height);
    BoxLimited(argb, width, height, Edge(i, width, side), Edge(j, height, side),
               End(i, width, side), End(j, height, side));
  }

  lemma Distribute(a: nat, b: nat, h: nat)
    ensures a * h + h * b == (a + b) * h
  {
  }

  /** When the source is at least `side` both ways, the boxes count every one of its pixels exactly once. */
  lemma {:induction false} CountsCover(argb: seq<Word>, width: nat, height: nat, side: nat, j: nat)
    requires Raster(argb, width, height) && 0 < side <= width && side <= height && j <= side
    ensures TotalCount(argb, width, height, side, j) == width * Edge(j, height, side)
    ensures j == side ==> TotalCount(argb, width, height, side, j) == |argb|
  {
    hide Edge, RowCount;
    EdgeEnds(height, side);
    EdgeEnds(width, side);
    assert width * height == height * width;
    if j > 0 {
      CountsCover(argb, width, height, side, j - 1);
      RowCounts(argb, width, height, side, side, j - 1);
      EdgeStep(j - 1, height, side);
      var e, d := Edge(j - 1, height, side), Edge(j, height, side);
      Distribute2(width, e, d - e);
    } else {
      assert width * 0 == 0;
    }
  }

  lemma Distribute2(w: nat, a: nat, b: nat)
    ensures w * a + w * b == w * (a + b)
  {
  }

  // ---- the bitmap

  /** One pixel of B_RGBA32, premultiplied. */
  function Bgra(p: Word): (b: seq<Byte>)
    ensures |b| == 4
  {
    var a := Alpha(p);
    [Scaled(Blue(p), a), Scaled(Green(p), a), Scaled(Red(p), a), a]
  }

  /** A premultiplied channel never exceeds its coverage, and full coverage leaves it as it is. */
  function Scaled(c: Byte, a: Byte): (r: Byte)
    ensures r <= a
    ensures a == 255 ==> r == c
  {
    ScaledFits(c, a);
    Times(c, a) / 255
  }

  lemma ScaledFits(c: nat, a: nat)
    requires c <= 255
    ensures Times(c, a) / 255 <= a && (a == 255 ==> Times(c, a) / 255 == c)
  {
    Scale(c, 255, a);
    assert a == 255 ==> Times(c, a) == 255 * c;
    var n := Times(c, a);
    hide Times;
    DivBelow(a + 1, 255, n);
    if a == 255 {
      DivAtLeast(c, 255, n);
      DivBelow(c + 1, 255, n);
    }
  }

  /** Scaling divides by 255 and rounds down. */
  lemma ScaledExactly(c: Byte, a: Byte)
    ensures 255 * Scaled(c, a) <= c * a < 255 * (Scaled(c, a) + 1)
  {
  }

  /** A pixel of the bitmap is blue, green and red, each scaled by alpha, and alpha. */
  lemma BgraExactly(p: Word)
    ensures Bgra(p) == [Scaled(Blue(p), Alpha(p)), Scaled(Green(p), Alpha(p)), Scaled(Red(p), Alpha(p)), Alpha(p)]
  {
  }

  function IconPixel(argb: seq<Word>, width: nat, height: nat, side: nat, x: nat, y: nat): Word
    requires Raster(argb, width, height) && side > 0
  {
    Average(argb, width, height, Edge(x, width, side), Edge(y, height, side),
            Edge(x + 1, width, side), Edge(y + 1, height, side))
  }

  /** The first n pixels of row y of the icon. */
  function IconRow(argb: seq<Word>, width: nat, height: nat, side: nat, y: nat, n: nat): (r: seq<Byte>)
    requires Raster(argb, width, height) && side > 0
    ensures |r| == 4 * n
  {
    if n == 0 then []
    else IconRow(argb, width, height, side, y, n - 1) + Bgra(IconPixel(argb, width, height, side, n - 1, y))
  }

  lemma {:induction false} IconRowPixel(argb: seq<Word>, width: nat, height: nat, side: nat, y: nat, n: nat, x: nat)
    requires Raster(argb, width, height) && side > 0 && x < n
    ensures PixelOf(IconRow(argb, width, height, side, y, n), x) == Bgra(IconPixel(argb, width, height, side, x, y))
  {
    hide IconPixel, Bgra;
    var before := IconRow(argb, width, height, side, y, n - 1);
    var last := Bgra(IconPixel(argb, width, height, side, n - 1, y));
    assert IconRow(argb, width, height, side, y, n) == before + last;
    if x < n - 1 {
      IconRowPixel(argb, width, height, side, y, n - 1, x);
      assert (before + last)[4 * x..4 * x + 4] == before[4 * x..4 * x + 4];
    } else {
      assert (before + last)[4 * x..4 * x + 4] == last;
    }
  }

  method FillRow(bits: array<Byte>, base: nat, argb: seq<Word>, width: nat, height: nat, side: nat, y: nat)
    requires Raster(argb, width, height) && side > 0 && base + 4 * side <= bits.Length
    modifies bits
    ensures bits[..] == old(bits[..base]) + IconRow(argb, width, height, side, y, side) + old(bits[base + 4 * side..])
  {
    hide Bgra, Raster, Average, IconRow, Edge;
    EmptyIconRow(argb, width, height, side, y);
    for x := 0 to side
      invariant bits[..] == old(bits[..base]) + IconRow(argb, width, height, side, y, x) + old(bits[base + 4 * x..])
    {
      var p := AveragePixels(argb, width, height, Edge(x, width, side), Edge(y, height, side),
                             Edge(x + 1, width, side), Edge(y + 1, height, side));
      IconRowNext(argb, width, height, side, y, x);
      GlueRow(bits[..], old(bits[..]), base, IconRow(argb, width, height, side, y, x), Bgra(p));
      PutPixel(bits, base + x * 4, p);
    }
  }

  lemma EmptyIconRow(argb: seq<Word>, width: nat, height: nat, side: nat, y: nat)
    requires Raster(argb, width, height) && side > 0
    ensures IconRow(argb, width, height, side, y, 0) == []
  {
  }

  lemma IconRowNext(argb: seq<Word>, width: nat, height: nat, side: nat, y: nat, n: nat)
    requires Raster(argb, width, height) && side > 0
    ensures IconRow(argb, width, height, side, y, n + 1) ==
            IconRow(argb, width, height, side, y, n) + Bgra(IconPixel(argb, width, height, side, n, y))
  {
  }

  lemma GlueRow(now: seq<Byte>, was: seq<Byte>, base: nat, row: seq<Byte>, next: seq<Byte>)
    requires base + |row| + |next| <= |was| && now == was[..base] + row + was[base + |row|..]
    ensures var d := base + |row|;
            now[..d] + next + now[d + |next|..] == was[..base] + (row + next) + was[d + |next|..]
  {
    var d := base + |row|;
    assert now[..d] == was[..base] + row;
    assert now[d + |next|..] == was[d + |next|..];
  }

  method PutPixel(bits: array<Byte>, at: nat, p: Word)
    requires at + 4 <= bits.Length
    modifies bits
    ensures bits[..] == old(bits[..at]) + Bgra(p) + old(bits[at + 4..])
  {
    var a := Alpha(p);
    bits[at + 0] := Scaled(Blue(p), a);
    bits[at + 1] := Scaled(Green(p), a);
    bits[at + 2] := Scaled(Red(p), a);
    bits[at + 3] := a;
    hide Scaled, Alpha, Red, Green, Blue;
  }

  /** `bits` is null when the bitmap has no memory. */
  method FillIconBitmap(bits: array?<Byte>, rowBytes: nat, argb: seq<Word>, width: nat, height: nat, side: nat)
    returns (filled: bool)
    requires Raster(argb, width, height) && side > 0
    requires bits != null ==> 4 * side <= rowBytes && bits.Length == side * rowBytes
    modifies if bits == null then {} else {bits}
    ensures filled <==> bits != null
    ensures bits != null ==> forall y: nat :: y < side ==>
              Row(bits[..], rowBytes, side, y) ==
              IconRow(argb, width, height, side, y, side) + old(Row(bits[..], rowBytes, side, y))[4 * side..]
  {
    if bits == null {
      return false;
    }
    hide IconRow, Row, Raster;
    for y := 0 to side
      invariant forall k: nat :: k < side ==>
                  Row(bits[..], rowBytes, side, k) ==
                  if k < y
                  then IconRow(argb, width, height, side, k, side) + old(Row(bits[..], rowBytes, side, k))[4 * side..]
                  else old(Row(bits[..], rowBytes, side, k))
    {
      FillRowOf(bits, rowBytes, argb, width, height, side, y);
    }
    return true;
  }

  method FillRowOf(bits: array<Byte>, rowBytes: nat, argb: seq<Word>, width: nat, height: nat, side: nat, y: nat)
    requires Raster(argb, width, height) && y < side
    requires 4 * side <= rowBytes && bits.Length == side * rowBytes
    modifies bits
    ensures forall k: nat :: k < side ==>
              Row(bits[..], rowBytes, side, k) ==
              if k == y
              then IconRow(argb, width, height, side, y, side) + old(Row(bits[..], rowBytes, side, k))[4 * side..]
              else old(Row(bits[..], rowBytes, side, k))
  {
    hide IconRow, Row, Raster;
    ghost var mem, row := bits[..], IconRow(argb, width, height, side, y, side);
    RowBounds(y, side, rowBytes);
    hide Offset;
    FillRow(bits, Offset(y, rowBytes), argb, width, height, side, y);
    RowsCopied(mem, bits[..], rowBytes, side, y, 0, row);
    assert forall k: nat :: k < side ==> Row(mem, rowBytes, side, k)[..0] + row == row;
  }

  /** The largest source of which a box of a given icon is sure not to wrap. */
  const MAX_BOX_SIDE := 257

  /** Up to 257 pixels of source for one of icon both ways, no sum wraps anywhere in the icon. */
  lemma IconNeverWraps(argb: seq<Word>, width: nat, height: nat, side: nat, x: nat, y: nat)
    requires Raster(argb, width, height) && 0 < width <= MAX_BOX_SIDE * side && 0 < height <= MAX_BOX_SIDE * side
    requires x < side && y < side
    ensures Box(width, height, Edge(x, width, side), Edge(y, height, side), End(x, width, side), End(y, height, side))
    ensures Fits(BoxSums(argb, width, height, Edge(x, width, side), Edge(y, height, side),
                         End(x, width, side), End(y, height, side)))
  {
    BoxSpan(x, width, side, MAX_BOX_SIDE);
    BoxSpan(y, height, side, MAX_BOX_SIDE);
    var w, h := End(x, width, side) - Edge(x, width, side), End(y, height, side) - Edge(y, height, side);
    Scale(h, MAX_BOX_SIDE, w);
    BoxFits(argb, width, height, Edge(x, width, side), Edge(y, height, side),
            End(x, width, side), End(y, height, side));
  }

  /** Some box is wider than k when the source is wider than k * side. */
  lemma WideBox(size: nat, side: nat, k: nat) returns (i: nat)
    requires side > 0 && size > k * side && size >= side
    ensures i < side && Edge(i, size, side) + k < End(i, size, side) <= size
  {
    hide Edge, End;
    EdgeEnds(size, side);
    i := 0;
    while Edge(i + 1, size, side) <= Edge(i, size, side) + k
      invariant i < side && Edge(i, size, side) <= k * i
      decreases side - i
    {
      assert k * (i + 1) == k * i + k;
      i := i + 1;
    }
    Scale(1, side, size);
    BoxSpan(i, size, side, size);
  }

  /** The bound on the source is exact as well: in a larger square one, all white, the sums of some box wrap. */
  lemma LargeWhiteSourceWraps(argb: seq<Word>, size: nat, side: nat) returns (i: nat)
    requires Raster(argb, size, size) && side > 0 && size > MAX_BOX_SIDE * side
    requires forall q :: q in argb ==> q == WHITE
    ensures i < side
    ensures End(i, size, side) <= size
    ensures !Fits(BoxSums(argb, size, size, Edge(i, size, side), Edge(i, size, side),
                          End(i, size, side), End(i, size, side)))
  {
    i := WideBox(size, side, MAX_BOX_SIDE);
    hide Edge, End, Raster, BoxSums, Fits, At;
    var a, b := Edge(i, size, side), End(i, size, side);
    forall x: nat, y: nat | a <= x < b && a <= y < b ensures At(argb, size, size, x, y) == WHITE {
      OnlyColour(argb, size, size, WHITE, x, y);
    }
    Scale(MAX_BOX_SIDE + 1, b - a, MAX_BOX_SIDE + 1);
    Scale(MAX_BOX_SIDE + 1, b - a, b - a);
    WhiteBoxWraps(argb, size, size, a, a, b, b);
  }

  lemma AverageOfBox(argb: seq<Word>, width: nat, height: nat, side: nat, x: nat, y: nat)
    requires Raster(argb, width, height) && width > 0 && height > 0 && x < side && y < side
    ensures IconPixel(argb, width, height, side, x, y) ==
            Average(argb, width, height, Edge(x, width, side), Edge(y, height, side),
                    End(x, width, side), End(y, height, side))
  {
    EdgeInside(x, width, side);
    EdgeInside(y, height, side);
    ClampedTwice(Edge(x, width, side), Edge(x + 1, width, side), width);
    ClampedTwice(Edge(y, height, side), Edge(y + 1, height, side), height);
    hide Edge, Clamped, BoxSums;
  }

  lemma OnlyColour(argb: seq<Word>, width: nat, height: nat, p: Word, x: nat, y: nat)
    requires Raster(argb, width, height) && x < width && y < height && forall q :: q in argb ==> q == p
    ensures At(argb, width, height, x, y) == p
  {
    hide At;
  }

  /** An opaque source of one colour gives that colour, unchanged, in every pixel of the icon. */
  lemma UniformIcon(argb: seq<Word>, width: nat, height: nat, side: nat, x: nat, y: nat, p: Word)
    requires Raster(argb, width, height) && 0 < width <= MAX_BOX_SIDE * side && 0 < height <= MAX_BOX_SIDE * side
    requires x < side && y < side && Alpha(p) == 255 && forall q :: q in argb ==> q == p
    ensures PixelOf(IconRow(argb, width, height, side, y, side), x) == [Blue(p), Green(p), Red(p), 255]
  {
    hide Edge, End, At, Average, IconPixel, BoxSums, Alpha, Red, Green, Blue, IconRow, PixelOf, Raster;
    var x0, y0, x1, y1 := Edge(x, width, side), Edge(y, height, side), End(x, width, side), End(y, height, side);
    IconNeverWraps(argb, width, height, side, x, y);
    forall i: nat, j: nat | x0 <= i < x1 && y0 <= j < y1 ensures At(argb, width, height, i, j) == p {
      OnlyColour(argb, width, height, p, i, j);
    }
    UniformAverage(argb, width, height, x0, y0, x1, y1, p);
    AverageOfBox(argb, width, height, side, x, y);
    IconRowPixel(argb, width, height, side, y, side, x);
  }

  lemma ClampedTwice(start: nat, end: nat, limit: nat)
    requires start < limit
    ensures Clamped(start, Clamped(start, end, limit), limit) == Clamped(start, end, limit)
  {
  }
}
