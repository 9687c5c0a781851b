/** The box filter that scales a page icon down, and the premultiplied bitmap it fills. */
module IconFilter {
  import opened Arithmetic
  import opened Words
  import opened Images

  /** A buffer of width x height words, row by row. */
  predicate Raster(argb: seq<Word>, width: nat, height: nat) {
    |argb| == height * width
  }

  function At(argb: seq<Word>, width: nat, height: nat, x: nat, y: nat): (p: Word)
    requires Raster(argb, width, height) && x < width && y < height
    ensures p in argb
  {
    RowBounds(y, height, width);
    argb[Offset(y, width) + x]
  }

  // ---- sums over a box

  /** Coverage, the three colours weighted by it, and the number of pixels. */
  datatype Sums = Sums(a: nat, r: nat, g: nat, b: nat, n: nat)

  const ZERO := Sums(0, 0, 0, 0, 0)

  function Times(c: nat, a: nat): nat { c * a }

  function AddPixel(s: Sums, p: Word): Sums {
    var a := Alpha(p);
    Sums(s.a + a, s.r + Times(Red(p), a), s.g + Times(Green(p), a), s.b + Times(Blue(p), a), s.n + 1)
  }

  function WrapSums(s: Sums): Sums {
    Sums(Wrap(s.a), Wrap(s.r), Wrap(s.g), Wrap(s.b), Wrap(s.n))
  }

  lemma WrapPixel(s: Sums, p: Word)
    ensures WrapSums(AddPixel(WrapSums(s), p)) == WrapSums(AddPixel(s, p))
  {
    hide Times, Wrap, Alpha, Red, Green, Blue;
    var a := Alpha(p);
    var r, g, b := Times(Red(p), a), Times(Green(p), a), Times(Blue(p), a);
    WrapAdd(s.a, a);
    WrapAdd(s.r, r);
    WrapAdd(s.g, g);
    WrapAdd(s.b, b);
    WrapAdd(s.n, 1);
  }

  /** s and the pixels of row y from x0 to x1. */
  function AddRow(argb: seq<Word>, width: nat, height: nat, s: Sums, y: nat, x0: nat, x1: nat): Sums
    requires Raster(argb, width, height) && y < height && x1 <= width
  {
    if x1 <= x0 then s
    else AddPixel(AddRow(argb, width, height, s, y, x0, x1 - 1), At(argb, width, height, x1 - 1, y))
  }

  function BoxSums(argb: seq<Word>, width: nat, height: nat, x0: nat, y0: nat, x1: nat, y1: nat): Sums
    requires Raster(argb, width, height) && x1 <= width && y1 <= height
    decreases y1
  {
    if y1 <= y0 then ZERO
    else AddRow(argb, width, height, BoxSums(argb, width, height, x0, y0, x1, y1 - 1), y1 - 1, x0, x1)
  }

  /** The result from the sums: colours are divided by the coverage they were weighted with. */
  function Averaged(s: Sums): Word {
    if s.n == 0 || s.a == 0 then 0
    else Pack(Wrap(s.a / s.n), Wrap(s.r / s.a), Wrap(s.g / s.a), Wrap(s.b / s.a))
  }

  /** A box end pushed past its start and then back inside the source. */
  function Clamped(start: nat, end: nat, limit: nat): nat {
    var e := if end <= start then start + 1 else end;
    if e > limit then limit else e
  }

  function Average(argb: seq<Word>, width: nat, height: nat, x0: nat, y0: nat, x1: nat, y1: nat): Word
    requires Raster(argb, width, height)
  {
    Averaged(WrapSums(BoxSums(argb, width, height, x0, y0, Clamped(x0, x1, width), Clamped(y0, y1, height))))
  }

  method AveragePixels(argb: seq<Word>, width: nat, height: nat, x0: nat, y0: nat, x1: nat, y1: nat)
    returns (result: Word)
    requires Raster(argb, width, height)
    ensures result == Average(argb, width, height, x0, y0, x1, y1)
  {
    var x2, y2 := x1, y1;
    if x2 <= x0 { x2 := x0 + 1; }
    if y2 <= y0 { y2 := y0 + 1; }
    if x2 > width { x2 := width; }
    if y2 > height { y2 := height; }

    hide AddPixel, WrapSums, Alpha, Red, Green, Blue, Pack;
    WrapZero();
    var s := ZERO;
    var y := y0;
    while y < y2
      invariant y0 <= y && (y0 < y2 ==> y <= y2)
      invariant s == WrapSums(BoxSums(argb, width, height, x0, y0, x2, if y0 < y2 then y else y2))
    {
      ghost var rows := BoxSums(argb, width, height, x0, y0, x2, y);
      var x := x0;
      while x < x2
        invariant x0 <= x && (x0 < x2 ==> x <= x2)
        invariant s == WrapSums(AddRow(argb, width, height, rows, y, x0, if x0 < x2 then x else x2))
      {
        ghost var row := AddRow(argb, width, height, rows, y, x0, x);
        var p := At(argb, width, height, x, y);
        WrapPixel(row, p);
        s := WrapSums(AddPixel(s, p));
        x := x + 1;
      }
      y := y + 1;
    }
    result := Averaged(s);
  }

  lemma WrapZero()
    ensures WrapSums(ZERO) == ZERO
  {
  }

  // ---- no sum wraps in a box that is not too large

  /** The largest number of pixels whose weighted sums are sure to fit in a word. */
  const MAX_PIXELS := 66051

  ghost predicate Fits(s: Sums) {
    s.a < WORD && s.r < WORD && s.g < WORD && s.b < WORD && s.n < WORD
  }

  lemma PixelBounds(p: Word)
    ensures Times(Red(p), Alpha(p)) <= 65025 && Times(Green(p), Alpha(p)) <= 65025 && Times(Blue(p), Alpha(p)) <= 65025
  {
    var a: nat := Alpha(p);
    Scale(Red(p), 255, a);
    Scale(Green(p), 255, a);
    Scale(Blue(p), 255, a);
  }

  ghost predicate Limited(s: Sums) {
    s.a <= 255 * s.n && s.r <= 65025 * s.n && s.g <= 65025 * s.n && s.b <= 65025 * s.n
  }

  lemma {:induction false} RowLimited(argb: seq<Word>, width: nat, height: nat, s: Sums, y: nat, x0: nat, x1: nat)
    requires Raster(argb, width, height) && y < height && x1 <= width && Limited(s)
    ensures var t := AddRow(argb, width, height, s, y, x0, x1);
            Limited(t) && t.n == s.n + if x0 <= x1 then x1 - x0 else 0
  {
    if x0 < x1 {
      RowLimited(argb, width, height, s, y, x0, x1 - 1);
      PixelBounds(At(argb, width, height, x1 - 1, y));
    }
  }

  lemma {:induction false} BoxLimited(argb: seq<Word>, width: nat, height: nat, x0: nat, y0: nat, x1: nat, y1: nat)
    requires Raster(argb, width, height) && x0 <= x1 <= width && y0 <= y1 <= height
    ensures var t := BoxSums(argb, width, height, x0, y0, x1, y1);
            Limited(t) && t.n == (y1 - y0) * (x1 - x0)
    decreases y1
  {
    if y0 < y1 {
      BoxLimited(argb, width, height, x0, y0, x1, y1 - 1);
      RowLimited(argb, width, height, BoxSums(argb, width, height, x0, y0, x1, y1 - 1), y1 - 1, x0, x1);
      assert (y1 - y0) * (x1 - x0) == (y1 - 1 - y0) * (x1 - x0) + (x1 - x0);
    }
  }

  lemma BoxFits(argb: seq<Word>, width: nat, height: nat, x0: nat, y0: nat, x1: nat, y1: nat)
    requires Raster(argb, width, height) && x0 <= x1 <= width && y0 <= y1 <= height
    requires (y1 - y0) * (x1 - x0) <= MAX_PIXELS
    ensures var s := BoxSums(argb, width, height, x0, y0, x1, y1); Fits(s) && WrapSums(s) == s
  {
    BoxLimited(argb, width, height, x0, y0, x1, y1);
    hide BoxSums, Limited, WrapSums, Fits;
    LimitedFits(BoxSums(argb, width, height, x0, y0, x1, y1));
  }

  lemma LimitedFits(s: Sums)
    requires Limited(s) && s.n <= MAX_PIXELS
    ensures Fits(s) && WrapSums(s) == s
  {
  }

  // ---- what an average is

  /** p's colours, unless it is fully transparent, and its coverage lie between those of lo and hi. */
  predicate Between(p: Word, lo: Word, hi: Word) {
    && Alpha(lo) <= Alpha(p) <= Alpha(hi)
    && (Alpha(p) > 0 ==>
          Red(lo) <= Red(p) <= Red(hi) && Green(lo) <= Green(p) <= Green(hi) && Blue(lo) <= Blue(p) <= Blue(hi))
  }

  ghost predicate AllBetween(argb: seq<Word>, width: nat, height: nat, x0: nat, y0: nat, x1: nat, y1: nat, lo: Word,
                             hi: Word)
    requires Raster(argb, width, height) && x1 <= width && y1 <= height
  {
    forall x: nat, y: nat :: x0 <= x < x1 && y0 <= y < y1 ==> Between(At(argb, width, height, x, y), lo, hi)
  }

  ghost predicate Weighted(total: nat, lo: nat, hi: nat, weight: nat) {
    lo * weight <= total <= hi * weight
  }

  ghost predicate SumsBetween(s: Sums, lo: Word, hi: Word) {
    && Weighted(s.a, Alpha(lo), Alpha(hi), s.n)
    && Weighted(s.r, Red(lo), Red(hi), s.a)
    && Weighted(s.g, Green(lo), Green(hi), s.a)
    && Weighted(s.b, Blue(lo), Blue(hi), s.a)
  }

  lemma WeightedAdd(total: nat, lo: nat, hi: nat, weight: nat, v: nat, w: nat)
    requires Weighted(total, lo, hi, weight) && (w > 0 ==> lo <= v <= hi)
    ensures Weighted(total + Times(v, w), lo, hi, weight + w)
  {
    assert lo * w <= v * w <= hi * w;
    assert lo * (weight + w) == lo * weight + lo * w && hi * (weight + w) == hi * weight + hi * w;
  }

  lemma PixelBetween(s: Sums, p: Word, lo: Word, hi: Word)
    requires SumsBetween(s, lo, hi) && Between(p, lo, hi)
    ensures SumsBetween(AddPixel(s, p), lo, hi)
  {
    assert Times(Alpha(p), 1) == Alpha(p);
    hide Weighted, Alpha, Red, Green, Blue, Times;
    var a := Alpha(p);
    WeightedAdd(s.a, Alpha(lo), Alpha(hi), s.n, a, 1);
    WeightedAdd(s.r, Red(lo), Red(hi), s.a, Red(p), a);
    WeightedAdd(s.g, Green(lo), Green(hi), s.a, Green(p), a);
    WeightedAdd(s.b, Blue(lo), Blue(hi), s.a, Blue(p), a);
  }

  lemma {:induction false} RowBetween(argb: seq<Word>, width: nat, height: nat, s: Sums, y: nat, x0: nat, x1: nat,
                                      lo: Word, hi: Word)
    requires Raster(argb, width, height) && y < height && x1 <= width && SumsBetween(s, lo, hi)
    requires forall x: nat :: x0 <= x < x1 ==> Between(At(argb, width, height, x, y), lo, hi)
    ensures SumsBetween(AddRow(argb, width, height, s, y, x0, x1), lo, hi)
  {
    hide SumsBetween, Between, AddPixel;
    if x0 < x1 {
      RowBetween(argb, width, height, s, y, x0, x1 - 1, lo, hi);
      PixelBetween(AddRow(argb, width, height, s, y, x0, x1 - 1), At(argb, width, height, x1 - 1, y), lo, hi);
    }
  }

  lemma {:induction false} BoxBetween(argb: seq<Word>, width: nat, height: nat, x0: nat, y0: nat, x1: nat, y1: nat,
                                      lo: Word, hi: Word)
    requires Raster(argb, width, height) && x1 <= width && y1 <= height
    requires AllBetween(argb, width, height, x0, y0, x1, y1, lo, hi)
    ensures SumsBetween(BoxSums(argb, width, height, x0, y0, x1, y1), lo, hi)
    decreases y1
  {
    hide AddRow, Between;
    if y0 < y1 {
      BoxBetween(argb, width, height, x0, y0, x1, y1 - 1, lo, hi);
      RowBetween(argb, width, height, BoxSums(argb, width, height, x0, y0, x1, y1 - 1), y1 - 1, x0, x1, lo, hi);
    }
  }

  const WHITE: Word := 0xffff_ffff

  /** The bound is exact: the sums of an opaque white box fit up to it, and wrap from one pixel more on. */
  lemma WhiteBoxWraps(argb: seq<Word>, width: nat, height: nat, x0: nat, y0: nat, x1: nat, y1: nat)
    requires Raster(argb, width, height) && x0 <= x1 <= width && y0 <= y1 <= height
    requires forall x: nat, y: nat :: x0 <= x < x1 && y0 <= y < y1 ==> At(argb, width, height, x, y) == WHITE
    ensures Fits(BoxSums(argb, width, height, x0, y0, x1, y1)) <==> (y1 - y0) * (x1 - x0) <= MAX_PIXELS
  {
    assert AllBetween(argb, width, height, x0, y0, x1, y1, WHITE, WHITE);
    hide AllBetween, BoxSums, At, Raster;
    BoxBetween(argb, width, height, x0, y0, x1, y1, WHITE, WHITE);
    BoxLimited(argb, width, height, x0, y0, x1, y1);
    WhiteSums(BoxSums(argb, width, height, x0, y0, x1, y1));
  }

  lemma WhiteSums(s: Sums)
    requires SumsBetween(s, WHITE, WHITE)
    ensures Fits(s) <==> s.n <= MAX_PIXELS
  {
    assert Alpha(WHITE) == 255 && Red(WHITE) == 255 && Green(WHITE) == 255 && Blue(WHITE) == 255;
    assert s.a == 255 * s.n && s.r == 255 * s.a && s.g == 255 * s.a && s.b == 255 * s.a;
  }

  lemma Quotient(total: nat, lo: nat, hi: nat, weight: nat)
    requires Weighted(total, lo, hi, weight) && weight > 0
    ensures lo <= total / weight <= hi
  {
    DivAtLeast(lo, weight, total);
    assert (hi + 1) * weight == hi * weight + weight;
    DivBelow(hi + 1, weight, total);
  }

  lemma AveragedBetween(s: Sums, lo: Word, hi: Word)
    requires SumsBetween(s, lo, hi) && s.n > 0 && s.a > 0
    ensures var p := Averaged(s);
            && Alpha(lo) <= Alpha(p) <= Alpha(hi) && Red(lo) <= Red(p) <= Red(hi)
            && Green(lo) <= Green(p) <= Green(hi) && Blue(lo) <= Blue(p) <= Blue(hi)
  {
    hide Weighted, Pack, Alpha, Red, Green, Blue;
    Quotient(s.a, Alpha(lo), Alpha(hi), s.n);
    Quotient(s.r, Red(lo), Red(hi), s.a);
    Quotient(s.g, Green(lo), Green(hi), s.a);
    Quotient(s.b, Blue(lo), Blue(hi), s.a);
    var a, r, g, b := s.a / s.n, s.r / s.a, s.g / s.a, s.b / s.a;
    assert Wrap(a) == a && Wrap(r) == r && Wrap(g) == g && Wrap(b) == b;
    PackUnpack(a, r, g, b);
  }

  /** A non-empty box inside the source. */
  predicate Box(width: nat, height: nat, x0: nat, y0: nat, x1: nat, y1: nat) {
    x0 < x1 <= width && y0 < y1 <= height && (y1 - y0) * (x1 - x0) <= MAX_PIXELS
  }

  /**
   In a box small enough not to wrap, every channel of the average lies between the least and the greatest value
   that channel has among the pixels that are not fully transparent.
   */
  lemma AverageBetween(argb: seq<Word>, width: nat, height: nat, x0: nat, y0: nat, x1: nat, y1: nat, lo: Word, hi: Word)
    requires Raster(argb, width, height) && Box(width, height, x0, y0, x1, y1)
    requires AllBetween(argb, width, height, x0, y0, x1, y1, lo, hi)
    ensures var p := Average(argb, width, height, x0, y0, x1, y1);
            if BoxSums(argb, width, height, x0, y0, x1, y1).a == 0 then p == 0
            else (Alpha(lo) <= Alpha(p) <= Alpha(hi) && Red(lo) <= Red(p) <= Red(hi)
                && Green(lo) <= Green(p) <= Green(hi) && Blue(lo) <= Blue(p) <= Blue(hi))
  {
    BoxFits(argb, width, height, x0, y0, x1, y1);
    BoxLimited(argb, width, height, x0, y0, x1, y1);
    BoxBetween(argb, width, height, x0, y0, x1, y1, lo, hi);
    var s := BoxSums(argb, width, height, x0, y0, x1, y1);
    assert s.n > 0;
    if s.a > 0 { AveragedBetween(s, lo, hi); }
  }

  /** A box of one colour averages to exactly that colour, unless it is fully transparent. */
  lemma UniformAverage(argb: seq<Word>, width: nat, height: nat, x0: nat, y0: nat, x1: nat, y1: nat, p: Word)
    requires Raster(argb, width, height) && Box(width, height, x0, y0, x1, y1)
    requires forall x: nat, y: nat :: x0 <= x < x1 && y0 <= y < y1 ==> At(argb, width, height, x, y) == p
    ensures Average(argb, width, height, x0, y0, x1, y1) == if Alpha(p) == 0 then 0 else p
  {
    assert AllBetween(argb, width, height, x0, y0, x1, y1, p, p);
    hide *;
    AverageBetween(argb, width, height, x0, y0, x1, y1, p, p);
    UniformCover(argb, width, height, x0, y0, x1, y1, p);
    UnpackPack(p);
    UnpackPack(Average(argb, width, height, x0, y0, x1, y1));
  }

  lemma UniformCover(argb: seq<Word>, width: nat, height: nat, x0: nat, y0: nat, x1: nat, y1: nat, p: Word)
    requires Raster(argb, width, height) && Box(width, height, x0, y0, x1, y1)
    requires AllBetween(argb, width, height, x0, y0, x1, y1, p, p)
    ensures BoxSums(argb, width, height, x0, y0, x1, y1).a == 0 <==> Alpha(p) == 0
  {
    BoxBetween(argb, width, height, x0, y0, x1, y1, p, p);
    BoxLimited(argb, width, height, x0, y0, x1, y1);
    hide BoxSums, Alpha;
  }

  // ---- what the sums are

  function Plus(s: Sums, t: Sums): Sums {
    Sums(s.a + t.a, s.r + t.r, s.g + t.g, s.b + t.b, s.n + t.n)
  }

  /** The sums of one pixel: its colours times its alpha, its alpha, and one. */
  lemma PixelSums(argb: seq<Word>, width: nat, height: nat, x: nat, y: nat)
    requires Raster(argb, width, height) && x < width && y < height
    ensures y * width + x < |argb|
    ensures var p := argb[y * width + x];
            BoxSums(argb, width, height, x, y, x + 1, y + 1) ==
            Sums(Alpha(p), Red(p) * Alpha(p), Green(p) * Alpha(p), Blue(p) * Alpha(p), 1)
  {
    RowBounds(y, height, width);
    hide Alpha, Red, Green, Blue;
    var p := At(argb, width, height, x, y);
    assert p == argb[y * width + x];
    assert AddRow(argb, width, height, ZERO, y, x, x + 1) == AddPixel(ZERO, p);
    assert BoxSums(argb, width, height, x, y, x + 1, y) == ZERO;
  }

  lemma {:induction false} RowSplits(argb: seq<Word>, width: nat, height: nat, s: Sums, t: Sums, y: nat,
                                     x0: nat, x: nat, x1: nat)
    requires Raster(argb, width, height) && y < height && x0 <= x <= x1 <= width
    ensures AddRow(argb, width, height, Plus(s, t), y, x0, x1) ==
            Plus(AddRow(argb, width, height, s, y, x0, x), AddRow(argb, width, height, t, y, x, x1))
    decreases x1 - x, x - x0
  {
    hide AddPixel, At;
    if x < x1 {
      RowSplits(argb, width, height, s, t, y, x0, x, x1 - 1);
      PlusPixel(AddRow(argb, width, height, s, y, x0, x), AddRow(argb, width, height, t, y, x, x1 - 1),
                At(argb, width, height, x1 - 1, y));
    } else if x0 < x {
      RowSplits(argb, width, height, s, t, y, x0, x - 1, x - 1);
      PlusPixel(t, AddRow(argb, width, height, s, y, x0, x - 1), At(argb, width, height, x - 1, y));
    }
  }

  lemma PlusPixel(s: Sums, t: Sums, p: Word)
    ensures AddPixel(Plus(s, t), p) == Plus(s, AddPixel(t, p)) == Plus(AddPixel(t, p), s)
  {
  }

  /** The sums of a box are those of two boxes it is cut into side by side. */
  lemma {:induction false} BoxSplits(argb: seq<Word>, width: nat, height: nat, x0: nat, x: nat, x1: nat,
                                     y0: nat, y1: nat)
    requires Raster(argb, width, height) && x0 <= x <= x1 <= width && y1 <= height
    ensures BoxSums(argb, width, height, x0, y0, x1, y1) ==
            Plus(BoxSums(argb, width, height, x0, y0, x, y1), BoxSums(argb, width, height, x, y0, x1, y1))
    decreases y1
  {
    hide *;
    if y0 < y1 {
      BoxSplits(argb, width, height, x0, x, x1, y0, y1 - 1);
      var left := BoxSums(argb, width, height, x0, y0, x, y1 - 1);
      var right := BoxSums(argb, width, height, x, y0, x1, y1 - 1);
      RowSplits(argb, width, height, left, right, y1 - 1, x0, x, x1);
      BoxRow(argb, width, height, x0, y0, x1, y1);
      BoxRow(argb, width, height, x0, y0, x, y1);
      BoxRow(argb, width, height, x, y0, x1, y1);
    } else {
      BoxEmpty(argb, width, height, x0, y0, x1, y1);
      BoxEmpty(argb, width, height, x0, y0, x, y1);
      BoxEmpty(argb, width, height, x, y0, x1, y1);
      PlusZero(ZERO);
    }
  }

  /** ... or one above the other. */
  lemma {:induction false} BoxStacks(argb: seq<Word>, width: nat, height: nat, x0: nat, x1: nat,
                                     y0: nat, y: nat, y1: nat)
    requires Raster(argb, width, height) && x0 <= x1 <= width && y0 <= y <= y1 <= height
    ensures BoxSums(argb, width, height, x0, y0, x1, y1) ==
            Plus(BoxSums(argb, width, height, x0, y0, x1, y), BoxSums(argb, width, height, x0, y, x1, y1))
    decreases y1
  {
    hide *;
    var upper := BoxSums(argb, width, height, x0, y0, x1, y);
    PlusZero(upper);
    if y < y1 {
      BoxStacks(argb, width, height, x0, x1, y0, y, y1 - 1);
      RowSplits(argb, width, height, upper, BoxSums(argb, width, height, x0, y, x1, y1 - 1), y1 - 1, x0, x0, x1);
      RowEmpty(argb, width, height, upper, y1 - 1, x0);
      BoxRow(argb, width, height, x0, y0, x1, y1);
      BoxRow(argb, width, height, x0, y, x1, y1);
    } else {
      BoxEmpty(argb, width, height, x0, y, x1, y1);
    }
  }

  lemma BoxRow(argb: seq<Word>, width: nat, height: nat, x0: nat, y0: nat, x1: nat, y1: nat)
    requires Raster(argb, width, height) && x1 <= width && y0 < y1 <= height
    ensures BoxSums(argb, width, height, x0, y0, x1, y1) ==
            AddRow(argb, width, height, BoxSums(argb, width, height, x0, y0, x1, y1 - 1), y1 - 1, x0, x1)
  {
    hide AddRow;
  }

  lemma BoxEmpty(argb: seq<Word>, width: nat, height: nat, x0: nat, y0: nat, x1: nat, y1: nat)
    requires Raster(argb, width, height) && x1 <= width && y1 <= height && y1 <= y0
    ensures BoxSums(argb, width, height, x0, y0, x1, y1) == ZERO
  {
  }

  lemma PlusZero(s: Sums)
    ensures Plus(s, ZERO) == s
  {
  }

  lemma RowEmpty(argb: seq<Word>, width: nat, height: nat, s: Sums, y: nat, x: nat)
    requires Raster(argb, width, height) && y < height && x <= width
    ensures AddRow(argb, width, height, s, y, x, x) == s
  {
  }

  /** In a box that does not wrap the average is alpha over pixels and colours over their alpha, rounded down. */
  lemma AverageExactly(argb: seq<Word>, width: nat, height: nat, x0: nat, y0: nat, x1: nat, y1: nat)
    requires Raster(argb, width, height) && Box(width, height, x0, y0, x1, y1)
    ensures var s, p := BoxSums(argb, width, height, x0, y0, x1, y1), Average(argb, width, height, x0, y0, x1, y1);
            && (s.a == 0 ==> p == 0)
            && (s.a > 0 ==> && s.n > 0 && Alpha(p) == s.a / s.n
                            && Red(p) == s.r / s.a && Green(p) == s.g / s.a && Blue(p) == s.b / s.a)
  {
    BoxFits(argb, width, height, x0, y0, x1, y1);
    BoxLimited(argb, width, height, x0, y0, x1, y1);
    AnyBetween(argb, width, height, x0, y0, x1, y1);
    BoxBetween(argb, width, height, x0, y0, x1, y1, 0, WHITE);
    var s := BoxSums(argb, width, height, x0, y0, x1, y1);
    hide BoxSums, Alpha, Red, Green, Blue, Pack, AllBetween, Raster, Limited, Fits;
    if s.a > 0 { AveragedExactly(s); }
  }

  lemma AnyBetween(argb: seq<Word>, width: nat, height: nat, x0: nat, y0: nat, x1: nat, y1: nat)
    requires Raster(argb, width, height) && x1 <= width && y1 <= height
    ensures AllBetween(argb, width, height, x0, y0, x1, y1, 0, WHITE)
  {
    assert Alpha(WHITE) == 255 && Red(WHITE) == 255 && Green(WHITE) == 255 && Blue(WHITE) == 255;
    hide At;
  }

  lemma AveragedExactly(s: Sums)
    requires SumsBetween(s, 0, WHITE) && s.n > 0 && s.a > 0
    ensures var p := Averaged(s);
            Alpha(p) == s.a / s.n && Red(p) == s.r / s.a && Green(p) == s.g / s.a && Blue(p) == s.b / s.a
  {
    assert Alpha(WHITE) == 255 && Red(WHITE) == 255 && Green(WHITE) == 255 && Blue(WHITE) == 255;
    hide Weighted, Pack, Alpha, Red, Green, Blue;
    Quotient(s.a, Alpha(0), 255, s.n);
    Quotient(s.r, Red(0), 255, s.a);
    Quotient(s.g, Green(0), 255, s.a);
    Quotient(s.b, Blue(0), 255, s.a);
    var a, r, g, b := s.a / s.n, s.r / s.a, s.g / s.a, s.b / s.a;
    assert Wrap(a) == a && Wrap(r) == r && Wrap(g) == g && Wrap(b) == b;
    PackUnpack(a, r, g, b);
  }
}
