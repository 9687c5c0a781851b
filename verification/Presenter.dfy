/** HaikuContentView::Present: the copy of a frame, or of its damaged part, into the view's bitmap. */
module Presenter {
  import opened Wrappers
  import opened Images
  import opened Words
  import opened Seqs

  /** What a present asks the window to redraw. */
  datatype Redraw = Nothing | Everything | Part(rect: Rect)

  function Clip(damage: Rect, width: int, height: int): Rect {
    damage.Intersect(Rect(0, 0, width, height))
  }

  predicate Fits(frame: Option<Image>, width: int, height: int) {
    frame.Some? && frame.value.width == width && frame.value.height == height
  }

  /** The whole frame is copied: no bitmap of its size is there yet, or the clipped damage is empty. */
  predicate CopiesAll(frame: Option<Image>, src: Image, damage: Rect) {
    !Fits(frame, src.width, src.height) || Clip(damage, src.width, src.height).IsEmpty()
  }

  /** The bitmap after src has been presented with the given damage. */
  function Presented(frame: Option<Image>, src: Image, damage: Rect): (r: Image)
    ensures r.width == src.width && r.height == src.height
    ensures forall x: nat, y: nat :: x < src.width && y < src.height ==>
              PixelAt(r, x, y) ==
              if CopiesAll(frame, src, damage) || Clip(damage, src.width, src.height).Contains(x, y)
              then PixelAt(src, x, y) else PixelAt(frame.value, x, y)
  {
    if CopiesAll(frame, src, damage) then src
    else
      var dirty := Clip(damage, src.width, src.height);
      var prior := frame.value;
      var rows := seq(src.height, y requires 0 <= y < src.height =>
        seq(src.width, x requires 0 <= x < src.width =>
          if dirty.Contains(x, y) then PixelAt(src, x, y) else PixelAt(prior, x, y)));
      RawImage(src.width, src.height, rows)
  }

  /** BBitmap in B_RGBA32: rows of at least four bytes a pixel. */
  class Bitmap {
    const width: nat
    const height: nat
    const stride: nat
    const bits: array<Byte>

    constructor (width: nat, height: nat, stride: nat)
      requires 4 * width <= stride
      ensures this.width == width && this.height == height && this.stride == stride
      ensures Ok() && fresh(bits)
    {
      this.width, this.height, this.stride := width, height, stride;
      bits := new Byte[height * stride];
    }

    predicate Ok() {
      4 * width <= stride && bits.Length == height * stride
    }

    ghost function Image(): (i: Image)
      requires Ok()
      reads bits
    {
      WholeRows(bits[..], stride, 4 * width, height);
      Picture(bits[..], stride, width, height)
    }

    /** memcpy at column offset o, up to column n, for each row from y0 to y1. */
    method CopyRows(source: seq<Byte>, rowBytes: nat, y0: nat, y1: nat, o: nat, n: nat)
      requires Ok() && y0 <= y1 <= height
      requires o <= n && n <= rowBytes && n <= stride && Holds(source, rowBytes, n, height)
      modifies bits
      ensures forall k: nat :: k < height ==>
                Row(bits[..], stride, height, k) ==
                if y0 <= k < y1
                then Spliced(old(Row(bits[..], stride, height, k)), o, Line(source, rowBytes, n, height, k)[o..])
                else old(Row(bits[..], stride, height, k))
    {
      hide Row, Line, Spliced;
      for y := y0 to y1
        invariant forall k: nat :: k < height ==>
                    Row(bits[..], stride, height, k) ==
                    if y0 <= k < y
                    then Spliced(old(Row(bits[..], stride, height, k)), o, Line(source, rowBytes, n, height, k)[o..])
                    else old(Row(bits[..], stride, height, k))
      {
        CopyRow(source, rowBytes, y, o, n);
      }
    }

    method CopyRow(source: seq<Byte>, rowBytes: nat, y: nat, o: nat, n: nat)
      requires Ok() && y < height
      requires o <= n && n <= rowBytes && n <= stride && Holds(source, rowBytes, n, height)
      modifies bits
      ensures forall k: nat :: k < height ==>
                Row(bits[..], stride, height, k) ==
                if k == y
                then Spliced(old(Row(bits[..], stride, height, k)), o, Line(source, rowBytes, n, height, k)[o..])
                else old(Row(bits[..], stride, height, k))
    {
      hide Row, Offset, Spliced;
      ghost var mem := bits[..];
      RowBounds(y, height, stride);
      HoldsExactly(source, rowBytes, n, height);
      var s := Offset(y, rowBytes);
      SliceOfSlice(source, s, s + n, o, n);
      Memcpy(Offset(y, stride) + o, source, s + o, n - o);
      RowsCopied(mem, bits[..], stride, height, y, o, Line(source, rowBytes, n, height, y)[o..]);
    }

    /** The copy of a whole frame; rows may be longer than their pixels on either side. */
    method CopyWhole(source: seq<Byte>, rowBytes: nat)
      requires Ok() && 4 * width <= rowBytes && Holds(source, rowBytes, Min(stride, rowBytes), height)
      modifies bits
      ensures Holds(source, rowBytes, 4 * width, height) && Image() == Picture(source, rowBytes, width, height)
    {
      hide Row, Line, Spliced, PixelOf, Offset;
      var n := if stride < rowBytes then stride else rowBytes;
      CopyRows(source, rowBytes, 0, height, 0, n);
      forall x: nat, y: nat | x < width && y < height
        ensures PixelAt(Image(), x, y) == PixelAt(Picture(source, rowBytes, width, height), x, y)
      {
        SplicedPixel(old(Row(bits[..], stride, height, y)), Line(source, rowBytes, n, height, y), 0, x);
        PixelOfLine(source, rowBytes, 4 * width, n, height, y, x);
        PixelOfRow(bits[..], stride, 4 * width, height, y, x);
      }
      ImagesEqual(Image(), Picture(source, rowBytes, width, height));
    }

    /** The copy of the pixels of one rectangle of a frame. */
    method CopyPart(source: seq<Byte>, rowBytes: nat, dirty: Rect)
      requires Ok() && 4 * width <= rowBytes && Holds(source, rowBytes, 4 * width, height)
      requires 0 <= dirty.x && 0 <= dirty.y && 0 <= dirty.width && 0 <= dirty.height
      requires dirty.Right() <= width && dirty.Bottom() <= height
      modifies bits
      ensures forall x: nat, y: nat :: x < width && y < height ==>
                PixelAt(Image(), x, y) ==
                if dirty.Contains(x, y) then PixelAt(Picture(source, rowBytes, width, height), x, y)
                else old(PixelAt(Image(), x, y))
    {
      hide Row, Line, Spliced, PixelOf, Offset;
      var n := 4 * (dirty.x + dirty.width);
      ghost var mem := bits[..];
      WholeRows(mem, stride, 4 * width, height);
      CopyRows(source, rowBytes, dirty.y, dirty.Bottom(), dirty.x * 4, n);
      forall x: nat, y: nat | x < width && y < height
        ensures PixelAt(Image(), x, y) ==
                if dirty.Contains(x, y) then PixelAt(Picture(source, rowBytes, width, height), x, y)
                else PixelAt(Picture(mem, stride, width, height), x, y)
      {
        SplicedPixel(Row(mem, stride, height, y), Line(source, rowBytes, n, height, y), dirty.x * 4, x);
        if dirty.Contains(x, y) { PixelOfLine(source, rowBytes, 4 * width, n, height, y, x); }
        PixelOfRow(bits[..], stride, 4 * width, height, y, x);
        PixelOfRow(mem, stride, 4 * width, height, y, x);
      }
    }

    method Memcpy(d: nat, source: seq<Byte>, s: nat, n: nat)
      requires d + n <= bits.Length && s + n <= |source|
      modifies bits
      ensures bits[..] == Spliced(old(bits[..]), d, source[s..s + n])
    {
      for i := 0 to n
        invariant bits[..] == Spliced(old(bits[..]), d, source[s..s + i])
      {
        bits[d + i] := source[s + i];
      }
    }
  }

  class ContentView {
    var frame: Bitmap?

    constructor ()
      ensures frame == null
    {
      frame := null;
    }

    ghost predicate Valid()
      reads this
    {
      frame != null ==> frame.Ok()
    }

    /** What the view would draw. */
    ghost function Frame(): (f: Option<Image>)
      requires Valid()
      reads this, if frame == null then {} else {frame.bits}
    {
      if frame == null then None else Some(frame.Image())
    }

    /** How far into each row a present reads: over the padding too when it copies whole rows. */
    ghost function Reach(width: nat, height: nat, rowBytes: nat, damage: Rect, granted: Option<nat>): nat
      reads this
    {
      var fits := frame != null && frame.width == width && frame.height == height;
      if fits then
        if Clip(damage, width, height).IsEmpty() then Min(frame.stride, rowBytes) else 4 * width
      else if granted.Some? then Min(granted.value, rowBytes)
      else 4 * width
    }

    /**
     `granted` is the stride of the bitmap the system hands out if one is asked for, None if it hands out none;
     `locked` says whether the window can be locked afterwards.
     */
    method Present(pixels: Option<seq<Byte>>, width: int, height: int, rowBytes: nat, damage: Rect,
                   granted: Option<nat>, locked: bool)
      returns (redraw: Redraw)
      requires Valid()
      requires granted.Some? ==> 4 * width <= granted.value
      requires pixels.Some? && width > 0 && height > 0 ==>
                 && 4 * width <= rowBytes
                 && Holds(pixels.value, rowBytes, Reach(width, height, rowBytes, damage, granted), height)
      modifies this, if frame == null then {} else {frame.bits}
      ensures Valid()
      ensures pixels.None? || width <= 0 || height <= 0 ==> Frame() == old(Frame()) && redraw == Nothing
      ensures pixels.Some? && width > 0 && height > 0 ==>
                if !Fits(old(Frame()), width, height) && granted.None?
                then Frame() == None && redraw == Nothing
                else
                  && Holds(pixels.value, rowBytes, 4 * width, height)
                  && var src := Picture(pixels.value, rowBytes, width, height);
                  Frame() == Some(Presented(old(Frame()), src, damage))
                  && redraw == (if !locked then Nothing
                                else if CopiesAll(old(Frame()), src, damage) then Everything
                                else Part(Clip(damage, width, height)))
    {
      if pixels.None? || width <= 0 || height <= 0 {
        return Nothing;
      }
      ghost var before := Frame();
      var source := pixels.value;
      var dirty := Clip(damage, width, height);
      var full := dirty.IsEmpty();

      if frame == null || frame.width != width || frame.height != height {
        if granted.None? {
          frame := null;
          return Nothing;
        }
        frame := new Bitmap(width, height, granted.value);
        full := true;
      }

      ghost var src := Picture(source, rowBytes, width, height);
      assert full == CopiesAll(before, src, damage);
      if full {
        frame.CopyWhole(source, rowBytes);
      } else {
        frame.CopyPart(source, rowBytes, dirty);
        ImagesEqual(frame.Image(), Presented(before, src, damage));
      }

      if locked {
        if full {
          redraw := Everything;
        } else {
          redraw := Part(dirty);
        }
      } else {
        redraw := Nothing;
      }
    }
  }
}
