/** Whole runs of presents, and the bitmap and the screen as two threads see them. */
module ScreenSync {
  import opened Wrappers
  import opened Images
  import opened Presenter

  // ---- presents in a row

  /** Present(src, damage), `granted` if a bitmap can be had for it; or a frame that never reaches the view. */
  datatype Call = Present(src: Image, damage: Rect, granted: bool) | Lost(src: Image)

  function Next(frame: Option<Image>, call: Call): Option<Image> {
    match call
    case Lost(_) => frame
    case Present(src, damage, granted) =>
      if src.width == 0 || src.height == 0 then frame
      else if !Fits(frame, src.width, src.height) && !granted then None
      else Some(Presented(frame, src, damage))
  }

  function Frames(frame: Option<Image>, calls: seq<Call>): Option<Image> {
    if calls == [] then frame else Next(Frames(frame, calls[..|calls| - 1]), calls[|calls| - 1])
  }

  /** The damage takes in every pixel in which src differs from the frame presented before it. */
  ghost predicate Covers(damage: Rect, src: Image, before: Image) {
    src.width == before.width && src.height == before.height ==>
      forall x: nat, y: nat :: x < src.width && y < src.height && PixelAt(src, x, y) != PixelAt(before, x, y) ==>
        damage.Contains(x, y)
  }

  /** Damage that tells enough: it covers every change, or is empty inside the frame and so stands for all of it. */
  ghost predicate Tells(damage: Rect, src: Image, before: Image) {
    Covers(damage, src, before) || Clip(damage, src.width, src.height).IsEmpty()
  }

  /** Sources have pixels, damage is honest, and no frame is lost while there is a bitmap. */
  ghost predicate Honest(calls: seq<Call>) {
    && (forall i :: 0 <= i < |calls| ==> calls[i].src.width > 0 && calls[i].src.height > 0)
    && (forall i :: 1 <= i < |calls| && calls[i].Present? ==> Tells(calls[i].damage, calls[i].src, calls[i - 1].src))
    && (forall i :: 0 <= i < |calls| && calls[i].Lost? ==> Frames(None, calls[..i]) == None)
  }

  /** Over the frame before, a present gives the frame if and only if its damage tells enough. */
  lemma CoveredPresent(frame: Image, src: Image, damage: Rect)
    ensures Presented(Some(frame), src, damage) == src <==> Tells(damage, src, frame)
  {
    if Presented(Some(frame), src, damage) == src && !CopiesAll(Some(frame), src, damage) {
      PartialPresentExact(frame, src, damage);
    }
    if Tells(damage, src, frame) { ToldPresent(frame, src, damage); }
  }

  lemma ToldPresent(frame: Image, src: Image, damage: Rect)
    requires Tells(damage, src, frame)
    ensures Presented(Some(frame), src, damage) == src
  {
    forall x: nat, y: nat | x < src.width && y < src.height
      ensures PixelAt(Presented(Some(frame), src, damage), x, y) == PixelAt(src, x, y)
    {
      if !CopiesAll(Some(frame), src, damage) {
        IntersectContains(damage, Rect(0, 0, src.width, src.height), x, y);
      }
    }
    ImagesEqual(Presented(Some(frame), src, damage), src);
  }

  /** Copying only the damage agrees with copying everything: any bitmap a run leaves holds the latest frame. */
  lemma {:induction false} BitmapHoldsLatest(calls: seq<Call>)
    requires Honest(calls) && calls != []
    ensures var last := calls[|calls| - 1];
            || Frames(None, calls) == Some(last.src)
            || (Frames(None, calls) == None && (last.Lost? || !last.granted))
  {
    var before, last := calls[..|calls| - 1], calls[|calls| - 1];
    if before != [] {
      forall i | 0 <= i < |before| && before[i].Lost? ensures Frames(None, before[..i]) == None {
        assert before[..i] == calls[..i] && calls[i].Lost?;
      }
      BitmapHoldsLatest(before);
      if Frames(None, before).Some? && last.Present? {
        CoveredPresent(before[|before| - 1].src, last.src, last.damage);
      }
    }
  }

  /** A partial present is right exactly when the bitmap already agrees with the frame outside the damage. */
  lemma PartialPresentExact(frame: Image, src: Image, damage: Rect)
    requires !CopiesAll(Some(frame), src, damage)
    ensures Presented(Some(frame), src, damage) == src <==>
            forall x: nat, y: nat :: x < src.width && y < src.height && !damage.Contains(x, y) ==>
              PixelAt(src, x, y) == PixelAt(frame, x, y)
  {
    var r := Presented(Some(frame), src, damage);
    forall x: nat, y: nat | x < src.width && y < src.height
      ensures PixelAt(r, x, y) == if damage.Contains(x, y) then PixelAt(src, x, y) else PixelAt(frame, x, y)
    {
      IntersectContains(damage, Rect(0, 0, src.width, src.height), x, y);
    }
    if forall x: nat, y: nat :: x < src.width && y < src.height && !damage.Contains(x, y) ==>
         PixelAt(src, x, y) == PixelAt(frame, x, y)
    {
      ImagesEqual(r, src);
    }
  }

  lemma FramesSnoc(calls: seq<Call>, call: Call)
    ensures Frames(None, calls + [call]) == Next(Frames(None, calls), call)
  {
    assert (calls + [call])[..|calls|] == calls;
  }

  /**
   One frame b lost while there is a bitmap is enough: where it changed a pixel that the next honest damage leaves
   out, the bitmap keeps the pixel of the frame before.
   */
  lemma LostFrameStaysStale(a: Image, b: Image, c: Image, damage: Rect, x: nat, y: nat)
    requires a.width == b.width == c.width && a.height == b.height == c.height && x < a.width && y < a.height
    requires Covers(damage, c, b) && !Clip(damage, c.width, c.height).IsEmpty() && !damage.Contains(x, y)
    requires PixelAt(a, x, y) != PixelAt(b, x, y)
    ensures var first := Present(a, Rect(0, 0, a.width, a.height), true);
            var shown := Frames(None, [first, Lost(b), Present(c, damage, true)]);
            shown.Some? && shown.value != c && Fits(shown, c.width, c.height)
            && PixelAt(shown.value, x, y) == PixelAt(a, x, y) != PixelAt(c, x, y)
  {
    var first, last := Present(a, Rect(0, 0, a.width, a.height), true), Present(c, damage, true);
    FramesSnoc([], first);
    FramesSnoc([first], Lost(b));
    FramesSnoc([first, Lost(b)], last);
    assert [] + [first] == [first] && [first] + [Lost(b)] == [first, Lost(b)];
    assert [first, Lost(b)] + [last] == [first, Lost(b), last];
    IntersectContains(damage, Rect(0, 0, c.width, c.height), x, y);
  }

  // ---- the UI thread and the looper

  type Point = (int, int)

  /**
   The bitmap, what the screen shows, what the window still has to redraw, and the damage the UI thread has
   copied into the bitmap but not yet reported.
   */
  datatype Display = Display(frame: Option<Image>, screen: Point -> Pixel, invalid: iset<Point>, copied: Redraw)

  /**
   Copy and Invalidate are the two halves of Present on the UI thread; Draw runs on the looper; Expose is the
   window system uncovering a region whose contents it has lost.
   */
  datatype Step =
    | Copy(src: Image, damage: Rect, granted: bool)
    | Invalidate
    | Draw(rect: Rect)
    | Expose(rect: Rect, lost: Point -> Pixel)

  predicate Asks(r: Redraw, p: Point) {
    r.Everything? || (r.Part? && r.rect.Contains(p.0, p.1))
  }

  predicate InFrame(frame: Option<Image>, p: Point) {
    frame.Some? && 0 <= p.0 < frame.value.width && 0 <= p.1 < frame.value.height
  }

  /** The UI thread runs the halves of a present in turn; the looper and the window system step whenever they like. */
  predicate Enabled(d: Display, step: Step) {
    match step
    case Copy(src, _, _) => d.copied.Nothing? && src.width > 0 && src.height > 0
    case Invalidate => !d.copied.Nothing?
    case _ => true
  }

  ghost function After(d: Display, step: Step): Display
    requires Enabled(d, step)
  {
    match step
    case Copy(src, damage, granted) =>
      if !Fits(d.frame, src.width, src.height) && !granted then d.(frame := None)
      else d.(frame := Some(Presented(d.frame, src, damage)),
              copied := if CopiesAll(d.frame, src, damage) then Everything
                        else Part(Clip(damage, src.width, src.height)))
    case Invalidate => d.(invalid := (iset p: Point | p in d.invalid || Asks(d.copied, p)), copied := Nothing)
    case Draw(rect) =>
      d.(screen := (p: Point) => if rect.Contains(p.0, p.1) && InFrame(d.frame, p)
                        then PixelAt(d.frame.value, p.0, p.1) else d.screen(p),
         invalid := iset p: Point | p in d.invalid && !Asks(Part(rect), p))
    case Expose(rect, lost) =>
      d.(screen := (p: Point) => if rect.Contains(p.0, p.1) then lost(p) else d.screen(p),
         invalid := iset p: Point | p in d.invalid || Asks(Part(rect), p))
  }

  /** A draw shows the bitmap in its rectangle, which is then not to be redrawn any more, and changes nothing else. */
  lemma DrawShows(d: Display, rect: Rect, p: Point)
    ensures var e, inside := After(d, Draw(rect)), rect.Contains(p.0, p.1);
            && e.frame == d.frame && e.copied == d.copied
            && (inside && InFrame(d.frame, p) ==> e.screen(p) == PixelAt(d.frame.value, p.0, p.1))
            && (!inside || !InFrame(d.frame, p) ==> e.screen(p) == d.screen(p))
            && (p in e.invalid <==> p in d.invalid && !inside)
  {
  }

  /** Reporting damage makes all of it, and nothing more, invalid. */
  lemma InvalidateReports(d: Display, p: Point)
    requires !d.copied.Nothing?
    ensures var e := After(d, Invalidate);
            && e.frame == d.frame && e.screen == d.screen && e.copied == Nothing
            && (p in e.invalid <==> p in d.invalid || d.copied.Everything? || d.copied.rect.Contains(p.0, p.1))
  {
  }

  /** A copy leaves the screen and what is invalid alone, and asks to redraw where the bitmap may have changed. */
  lemma CopyAsks(d: Display, src: Image, damage: Rect, granted: bool, p: Point)
    requires Enabled(d, Copy(src, damage, granted))
    ensures var e := After(d, Copy(src, damage, granted));
            && e.screen == d.screen && e.invalid == d.invalid
            && (e.frame.None? ==> e.copied == Nothing)
            && (e.frame.Some? && !CopiesAll(d.frame, src, damage) ==>
                  (Asks(e.copied, p) <==> damage.Contains(p.0, p.1) && InFrame(e.frame, p)))
            && (e.frame.Some? && CopiesAll(d.frame, src, damage) ==> e.copied == Everything)
  {
    if !CopiesAll(d.frame, src, damage) {
      IntersectContains(damage, Rect(0, 0, src.width, src.height), p.0, p.1);
    }
  }

  /** Every pixel of the bitmap is on the screen, or is still to be redrawn, or is damage about to be reported. */
  ghost predicate InSync(d: Display) {
    forall p: Point :: InFrame(d.frame, p) ==>
      || p in d.invalid
      || Asks(d.copied, p)
      || d.screen(p) == PixelAt(d.frame.value, p.0, p.1)
  }

  lemma CopyKeepsSync(d: Display, src: Image, damage: Rect, granted: bool)
    requires InSync(d) && Enabled(d, Copy(src, damage, granted))
    ensures InSync(After(d, Copy(src, damage, granted)))
  {
    var e := After(d, Copy(src, damage, granted));
    forall p: Point | InFrame(e.frame, p)
      ensures p in e.invalid || Asks(e.copied, p) || e.screen(p) == PixelAt(e.frame.value, p.0, p.1)
    {
      if !CopiesAll(d.frame, src, damage) && !Clip(damage, src.width, src.height).Contains(p.0, p.1) {
        assert InFrame(d.frame, p);
      }
    }
  }

  lemma StepKeepsSync(d: Display, step: Step)
    requires InSync(d) && Enabled(d, step)
    ensures InSync(After(d, step))
  {
    match step
    case Copy(src, damage, granted) => CopyKeepsSync(d, src, damage, granted);
    case _ =>
      var e := After(d, step);
      forall p: Point | InFrame(e.frame, p)
        ensures p in e.invalid || Asks(e.copied, p) || e.screen(p) == PixelAt(e.frame.value, p.0, p.1)
      {
        assert InFrame(d.frame, p);
      }
  }

  /** A run from d through steps, each enabled where it is taken. */
  ghost predicate Runs(d: Display, steps: seq<Step>)
    decreases |steps|
  {
    steps == [] || (Enabled(d, steps[0]) && Runs(After(d, steps[0]), steps[1..]))
  }

  ghost function AfterAll(d: Display, steps: seq<Step>): Display
    requires Runs(d, steps)
    decreases |steps|
  {
    if steps == [] then d else AfterAll(After(d, steps[0]), steps[1..])
  }

  lemma {:induction false} RunKeepsSync(d: Display, steps: seq<Step>)
    requires InSync(d) && Runs(d, steps)
    ensures InSync(AfterAll(d, steps))
    decreases |steps|
  {
    if steps != [] {
      StepKeepsSync(d, steps[0]);
      RunKeepsSync(After(d, steps[0]), steps[1..]);
    }
  }

  /** However the threads interleave, once nothing is left to report or redraw the screen shows the bitmap. */
  lemma SettledScreenShowsBitmap(screen: Point -> Pixel, steps: seq<Step>, p: Point)
    requires var start := Display(None, screen, iset{}, Nothing); Runs(start, steps)
    ensures var end := AfterAll(Display(None, screen, iset{}, Nothing), steps);
            end.copied == Nothing && end.invalid == iset{} && InFrame(end.frame, p) ==>
              end.screen(p) == PixelAt(end.frame.value, p.0, p.1)
  {
    RunKeepsSync(Display(None, screen, iset{}, Nothing), steps);
  }

  // ---- drawing what is left to draw

  /** Reporting the damage that is pending, then drawing over the whole frame. */
  function Flush(d: Display): seq<Step>
    requires d.frame.Some?
  {
    (if d.copied.Nothing? then [] else [Invalidate]) + [Draw(Rect(0, 0, d.frame.value.width, d.frame.value.height))]
  }

  lemma RunsOn(d: Display, steps: seq<Step>, more: seq<Step>)
    requires Runs(d, steps) && Runs(AfterAll(d, steps), more)
    ensures Runs(d, steps + more) && AfterAll(d, steps + more) == AfterAll(AfterAll(d, steps), more)
    decreases |steps|
  {
    if steps == [] {
      assert steps + more == more;
    } else {
      assert (steps + more)[1..] == steps[1..] + more;
      RunsOn(After(d, steps[0]), steps[1..], more);
    }
  }

  lemma FlushShows(d: Display, p: Point)
    requires d.frame.Some?
    ensures Runs(d, Flush(d))
    ensures var e := AfterAll(d, Flush(d));
            && e.frame == d.frame && e.copied == Nothing
            && (InFrame(d.frame, p) ==> p !in e.invalid && e.screen(p) == PixelAt(d.frame.value, p.0, p.1))
  {
    var draw := Draw(Rect(0, 0, d.frame.value.width, d.frame.value.height));
    var reported := if d.copied.Nothing? then d else After(d, Invalidate);
    if !d.copied.Nothing? { InvalidateReports(d, p); }
    DrawShows(reported, draw.rect, p);
    hide After, InFrame;
    assert [draw][1..] == [];
    assert Runs(reported, [draw]) && AfterAll(reported, [draw]) == After(reported, draw);
    if !d.copied.Nothing? {
      assert ([Invalidate] + [draw])[1..] == [draw];
    } else {
      assert [] + [draw] == [draw];
    }
  }

  /** From whatever a run has left, reporting what is pending and drawing over the frame shows the frame. */
  lemma FlushedScreenShowsBitmap(screen: Point -> Pixel, steps: seq<Step>, p: Point)
    requires var start := Display(None, screen, iset{}, Nothing);
             Runs(start, steps) && AfterAll(start, steps).frame.Some?
    ensures var start := Display(None, screen, iset{}, Nothing);
            var now := AfterAll(start, steps);
            && Runs(start, steps + Flush(now))
            && var end := AfterAll(start, steps + Flush(now));
               && end.frame == now.frame && end.copied == Nothing
               && (InFrame(now.frame, p) ==> p !in end.invalid && end.screen(p) == PixelAt(now.frame.value, p.0, p.1))
  {
    var start := Display(None, screen, iset{}, Nothing);
    var now := AfterAll(start, steps);
    FlushShows(now, p);
    RunsOn(start, steps, Flush(now));
  }

  // ---- the screen against the latest frame

  /** The presents of a run, in order. */
  function Copies(steps: seq<Step>): seq<Call> {
    if steps == [] then []
    else Copies(steps[..|steps| - 1]) +
         match steps[|steps| - 1]
         case Copy(src, damage, granted) => [Present(src, damage, granted)]
         case _ => []
  }

  lemma {:induction false} AfterAllSnoc(d: Display, steps: seq<Step>)
    requires steps != [] && Runs(d, steps)
    ensures var before := steps[..|steps| - 1];
            && Runs(d, before) && Enabled(AfterAll(d, before), steps[|steps| - 1])
            && AfterAll(d, steps) == After(AfterAll(d, before), steps[|steps| - 1])
    decreases |steps|
  {
    if |steps| > 1 {
      assert steps[1..][..|steps| - 2] == steps[..|steps| - 1][1..];
      AfterAllSnoc(After(d, steps[0]), steps[1..]);
    }
  }

  lemma {:induction false} RunFrame(d: Display, steps: seq<Step>)
    requires d.frame == None && Runs(d, steps)
    ensures AfterAll(d, steps).frame == Frames(None, Copies(steps))
  {
    if steps != [] {
      var before, last := steps[..|steps| - 1], steps[|steps| - 1];
      AfterAllSnoc(d, steps);
      RunFrame(d, before);
      if last.Copy? {
        assert Copies(steps) == Copies(before) + [Present(last.src, last.damage, last.granted)];
        assert Copies(steps)[..|Copies(steps)| - 1] == Copies(before);
      } else {
        assert Copies(steps) == Copies(before);
      }
    }
  }

  /** With honest damage and the last bitmap granted, a settled screen shows the latest frame, pixel for pixel. */
  lemma SettledScreenShowsLatest(screen: Point -> Pixel, steps: seq<Step>, p: Point)
    requires var start := Display(None, screen, iset{}, Nothing);
             && Runs(start, steps)
             && var end := AfterAll(start, steps); end.copied == Nothing && end.invalid == iset{}
    requires Honest(Copies(steps)) && Copies(steps) != []
    ensures var last := Copies(steps)[|Copies(steps)| - 1];
            var end := AfterAll(Display(None, screen, iset{}, Nothing), steps);
            last.Present? && last.granted && 0 <= p.0 < last.src.width && 0 <= p.1 < last.src.height ==>
              end.screen(p) == PixelAt(last.src, p.0, p.1)
  {
    var start := Display(None, screen, iset{}, Nothing);
    BitmapHoldsLatest(Copies(steps));
    RunFrame(start, steps);
    SettledScreenShowsBitmap(screen, steps, p);
  }

  /** With honest damage and the last bitmap granted, that frame is the latest. */
  lemma FlushedScreenShowsLatest(screen: Point -> Pixel, steps: seq<Step>, p: Point)
    requires Runs(Display(None, screen, iset{}, Nothing), steps)
    requires Honest(Copies(steps)) && Copies(steps) != []
    requires Copies(steps)[|Copies(steps)| - 1].Present? && Copies(steps)[|Copies(steps)| - 1].granted
    ensures var start, last := Display(None, screen, iset{}, Nothing), Copies(steps)[|Copies(steps)| - 1].src;
            var now := AfterAll(start, steps);
            && now.frame == Some(last)
            && Runs(start, steps + Flush(now))
            && (0 <= p.0 < last.width && 0 <= p.1 < last.height ==>
                  AfterAll(start, steps + Flush(now)).screen(p) == PixelAt(last, p.0, p.1))
  {
    var start := Display(None, screen, iset{}, Nothing);
    BitmapHoldsLatest(Copies(steps));
    RunFrame(start, steps);
    FlushedScreenShowsBitmap(screen, steps, p);
  }
}
