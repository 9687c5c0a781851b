/**
 HaikuWindow's bounds: the UI thread asks for content bounds and a top inset, the user resizes the window, the
 looper reports every size the content view takes, and the reports come back to the UI thread as posted bounds.
 Sizes are in pixels, one more than a BRect's width and height.
 */
module ContentBounds {
  import opened Wrappers
  import opened Images

  datatype Size = Size(width: int, height: int)

  function SizeOf(r: Rect): Size { Size(r.width, r.height) }

  /** ToBRect never makes a frame of less than one pixel. */
  function AtLeastOne(s: Size): Size { Size(Max(1, s.width), Max(1, s.height)) }

  /**
   `resized` are the FrameResized messages the looper has yet to handle, `posted` the bounds posted to the UI thread.
   */
  datatype State = State(
    bounds: Rect, topInset: int,
    left: int, top: int, window: Size,
    view: Size, viewTop: int, follows: bool,
    resized: seq<Size>, posted: seq<Rect>)

  // ---- what the window system does

  /** A view that takes a new size is sent a FrameResized. */
  function ResizeView(s: State, size: Size): State {
    if size == s.view then s else s.(view := size, resized := s.resized + [size])
  }

  /** A view that follows all sides grows and shrinks with its window. */
  function ResizeWindow(s: State, size: Size): State {
    var t := s.(window := size);
    if !s.follows then t
    else ResizeView(t, Size(s.view.width + size.width - s.window.width, s.view.height + size.height - s.window.height))
  }

  // ---- what the program does

  /** The size of the window that gives the content its size below the inset. */
  function FrameForContent(bounds: Rect, topInset: int): Size {
    var content := AtLeastOne(SizeOf(bounds));
    Size(content.width, content.height + topInset)
  }

  function SetBounds(s: State, b: Rect): State {
    ResizeWindow(s.(bounds := b, left := b.x, top := b.y), FrameForContent(b, s.topInset))
  }

  /**
   The states SetTopInset goes through: the view pinned, the window grown, the view moved and sized, the view
   following again.
   */
  function InsetSteps(s: State, inset: int, pin: bool): seq<State> {
    var s0 := s.(topInset := inset, follows := s.follows && !pin);
    var s1 := ResizeWindow(s0, FrameForContent(s.bounds, inset));
    var s2 := ResizeView(s1.(viewTop := inset), Size(s1.window.width, s1.window.height - inset));
    [s0, s1, s2, s2.(follows := true)]
  }

  function SetTopInset(s: State, requested: int): State {
    var inset := Max(0, requested);
    if s.topInset == inset then s else InsetSteps(s, inset, true)[3]
  }

  /** The looper handles one FrameResized: its size, at the place the window has by then. */
  function HandleResized(s: State): State
    requires s.resized != []
  {
    var size := s.resized[0];
    s.(resized := s.resized[1..], posted := s.posted + [Rect(s.left, s.top, size.width, size.height)])
  }

  /** The UI thread takes one posted rectangle for its bounds. */
  function TakePosted(s: State): State
    requires s.posted != []
  {
    s.(posted := s.posted[1..], bounds := s.posted[0])
  }

  datatype Action =
    | AskBounds(b: Rect)
    | AskInset(inset: int)
    | UserResize(size: Size)
    | UserMove(x: int, y: int)
    | Looper
    | Posted

  /** A user cannot make the content smaller than a pixel; messages are handled when there are some. */
  predicate Enabled(s: State, a: Action) {
    match a
    case UserResize(size) => size.width >= 1 && size.height >= s.topInset + 1
    case Looper => s.resized != []
    case Posted => s.posted != []
    case _ => true
  }

  function After(s: State, a: Action): State
    requires Enabled(s, a)
  {
    match a
    case AskBounds(b) => SetBounds(s, b)
    case AskInset(inset) => SetTopInset(s, inset)
    case UserResize(size) => ResizeWindow(s, size)
    case UserMove(x, y) => s.(left := x, top := y)
    case Looper => HandleResized(s)
    case Posted => TakePosted(s)
  }

  /** The window as its constructor leaves it: no inset, the view filling it, its first size still to be reported. */
  function Opened(b: Rect): State {
    var size := FrameForContent(b, 0);
    State(b, 0, b.x, b.y, size, size, 0, true, [size], [])
  }

  // ---- the invariant

  /** The last size on its way to the UI thread, or the size of its bounds when nothing is. */
  function LastReported(s: State): Size {
    if s.resized != [] then s.resized[|s.resized| - 1]
    else if s.posted != [] then SizeOf(s.posted[|s.posted| - 1])
    else AtLeastOne(SizeOf(s.bounds))
  }

  predicate Quiescent(s: State) {
    s.resized == [] && s.posted == []
  }

  predicate Agrees(s: State) {
    && s.follows && s.topInset >= 0 && s.viewTop == s.topInset
    && s.view.width >= 1 && s.view.height >= 1
    && s.window == Size(s.view.width, s.view.height + s.topInset)
    && LastReported(s) == s.view
  }

  lemma StepKeepsAgreement(s: State, a: Action)
    requires Agrees(s) && Enabled(s, a)
    ensures Agrees(After(s, a))
  {
    match a
    case Looper =>
      var t := HandleResized(s);
      if t.resized != [] {
        assert t.resized[|t.resized| - 1] == s.resized[|s.resized| - 1];
      }
    case _ =>
  }

  ghost predicate Runs(s: State, actions: seq<Action>)
    decreases |actions|
  {
    actions == [] || (Enabled(s, actions[0]) && Runs(After(s, actions[0]), actions[1..]))
  }

  ghost function AfterAll(s: State, actions: seq<Action>): State
    requires Runs(s, actions)
    decreases |actions|
  {
    if actions == [] then s else AfterAll(After(s, actions[0]), actions[1..])
  }

  lemma {:induction false} RunKeepsAgreement(s: State, actions: seq<Action>)
    requires Agrees(s) && Runs(s, actions)
    ensures Agrees(AfterAll(s, actions))
    decreases |actions|
  {
    if actions != [] {
      StepKeepsAgreement(s, actions[0]);
      RunKeepsAgreement(After(s, actions[0]), actions[1..]);
    }
  }

  /**
   However requests, the user and the messages interleave, the last size reported is the view's, the window is
   higher than the view by the inset, and with nothing left to deliver the bounds have the view's size.
   */
  lemma ContentKeepsItsSize(b: Rect, actions: seq<Action>)
    requires Runs(Opened(b), actions)
    ensures var s := AfterAll(Opened(b), actions);
            && LastReported(s) == s.view
            && s.window.height - s.topInset == s.view.height && s.window.width == s.view.width
            && (Quiescent(s) ==> AtLeastOne(SizeOf(s.bounds)) == s.view)
  {
    RunKeepsAgreement(Opened(b), actions);
  }

  /** Delivering what is on its way, in any order, ends after a fixed number of messages. */
  function Pending(s: State): nat {
    2 * |s.resized| + |s.posted|
  }

  lemma DeliveryProgresses(s: State, a: Action)
    requires (a.Looper? || a.Posted?) && Enabled(s, a)
    ensures Pending(After(s, a)) == Pending(s) - 1
    ensures After(s, a).view == s.view
  {
  }

  /** From any state a run can reach, delivering every message leaves bounds of the view's size. */
  lemma {:induction false} DrainedAgrees(s: State, actions: seq<Action>)
    requires Agrees(s) && Runs(s, actions)
    requires forall a :: a in actions ==> a.Looper? || a.Posted?
    requires |actions| == Pending(s)
    ensures Quiescent(AfterAll(s, actions)) && AtLeastOne(SizeOf(AfterAll(s, actions).bounds)) == s.view
    decreases |actions|
  {
    if actions != [] {
      var a := actions[0];
      assert a in actions;
      StepKeepsAgreement(s, a);
      DeliveryProgresses(s, a);
      DrainedAgrees(After(s, a), actions[1..]);
    }
  }

  /** A request takes effect at once: bounds, window place and view size are those asked for, the inset stays. */
  lemma BoundsAsked(s: State, b: Rect)
    requires Agrees(s)
    ensures var t := SetBounds(s, b);
            && t.bounds == b && t.left == b.x && t.top == b.y
            && t.view == Size(Max(1, b.width), Max(1, b.height))
            && t.topInset == s.topInset == t.viewTop && t.posted == s.posted
            && t.resized == if t.view == s.view then s.resized else s.resized + [t.view]
  {
  }

  /** A user's resize leaves the bounds alone and reports the new size of the view, if it has one. */
  lemma UserResized(s: State, size: Size)
    requires Agrees(s) && Enabled(s, UserResize(size))
    ensures var t := After(s, UserResize(size));
            && t.window == size && t.view == Size(size.width, size.height - s.topInset)
            && t.bounds == s.bounds && t.left == s.left && t.top == s.top && t.posted == s.posted
            && t.resized == if t.view == s.view then s.resized else s.resized + [t.view]
  {
  }

  // ---- the inset

  /**
   With nothing left to deliver, changing the inset never changes the view's size, not even in between, and
   reports nothing; only the window and the view's place change.
   */
  lemma InsetIsInvisible(s: State, inset: int)
    requires Agrees(s) && Quiescent(s) && inset >= 0
    ensures forall k :: 0 <= k < 4 ==> InsetSteps(s, inset, true)[k].view == s.view
    ensures Quiescent(SetTopInset(s, inset)) && SetTopInset(s, inset).bounds == s.bounds
    ensures SetTopInset(s, inset).window.height == s.window.height + inset - s.topInset
    ensures SetTopInset(s, inset).viewTop == inset
  {
  }

  /** With anything on its way, the view keeps its size exactly when the bounds the inset is applied to have it. */
  lemma InsetInvisibleExactly(s: State, inset: int)
    requires Agrees(s) && inset >= 0 && inset != s.topInset
    ensures SetTopInset(s, inset).view == s.view <==> AtLeastOne(SizeOf(s.bounds)) == s.view
    ensures SetTopInset(s, inset).view == AtLeastOne(SizeOf(s.bounds))
  {
  }

  /** So a user's resize is lost when the inset changes before its report has arrived. */
  lemma InsetUndoesResize(s: State, size: Size, inset: int)
    requires Agrees(s) && Quiescent(s) && inset >= 0 && inset != s.topInset
    requires Enabled(s, UserResize(size)) && size != s.window
    ensures After(s, UserResize(size)).view != s.view
    ensures SetTopInset(After(s, UserResize(size)), inset).view == s.view
  {
  }

  /**
   Left to follow the window, the view takes a wrong size on the way and reports two, for every change of the inset.
   */
  lemma UnpinnedInsetIsVisible(s: State, inset: int)
    requires Agrees(s) && Quiescent(s) && inset >= 0 && inset != s.topInset
    ensures var steps := InsetSteps(s, inset, false);
            && steps[1].view == Size(s.view.width, s.view.height + inset - s.topInset) != s.view
            && steps[3].view == s.view
            && steps[3].resized == [steps[1].view, s.view]
  {
  }

  /** Setting the inset back restores everything it changed. */
  lemma InsetRoundTrip(s: State, inset: int)
    requires Agrees(s) && Quiescent(s)
    ensures SetTopInset(SetTopInset(s, inset), s.topInset) == s
  {
  }

  // ---- the place of the window, which messages report only along with a size

  datatype Place = Place(x: int, y: int)

  function PlaceOf(r: Rect): Place { Place(r.x, r.y) }

  /** The last place on its way to the UI thread; a size still to be reported is reported with the window's place. */
  function LastPlace(s: State): Place {
    if s.resized != [] then Place(s.left, s.top)
    else if s.posted != [] then PlaceOf(s.posted[|s.posted| - 1])
    else PlaceOf(s.bounds)
  }

  predicate PlaceAgrees(s: State) {
    LastPlace(s) == Place(s.left, s.top)
  }

  /** The window moves and no size is left to report it with. */
  predicate Loses(s: State, a: Action) {
    s.resized == [] &&
    match a
    case AskBounds(b) => s.posted != [] && AtLeastOne(SizeOf(b)) == s.view && LastPlace(s) != PlaceOf(b)
    case UserMove(x, y) => LastPlace(s) != Place(x, y)
    case _ => false
  }

  /** A size is, or is about to be, reported with the window's place, or the window goes where it was last reported. */
  predicate Regains(s: State, a: Action) {
    match a
    case AskBounds(_) => !Loses(s, a)
    case UserMove(_, _) => !Loses(s, a)
    case AskInset(inset) => s.topInset != Max(0, inset) && AtLeastOne(SizeOf(s.bounds)) != s.view
    case UserResize(size) => size != s.window
    case Looper => true
    case Posted => false
  }

  /** What one step does to the agreement, from any state: both what breaks it and what brings it back are exact. */
  lemma StepPlace(s: State, a: Action)
    requires Agrees(s) && Enabled(s, a)
    ensures PlaceAgrees(After(s, a)) <==> Regains(s, a) || (PlaceAgrees(s) && !Loses(s, a))
  {
  }

  /** The states a run goes through. */
  ghost function States(s: State, actions: seq<Action>): (ss: seq<State>)
    requires Runs(s, actions)
    ensures |ss| == |actions| + 1 && ss[0] == s && ss[|actions|] == AfterAll(s, actions)
    ensures forall i: nat :: i < |actions| ==> Enabled(ss[i], actions[i]) && ss[i + 1] == After(ss[i], actions[i])
    decreases |actions|
  {
    if actions == [] then [s] else [s] + States(After(s, actions[0]), actions[1..])
  }

  /** Every step before n that loses the place is followed, still before n, by one that regains it. */
  ghost predicate Recovered(ss: seq<State>, actions: seq<Action>, n: nat)
    requires n <= |actions| < |ss|
  {
    forall i: nat :: i < n && Loses(ss[i], actions[i]) ==> exists j: nat :: i < j < n && Regains(ss[j], actions[j])
  }

  lemma {:induction false} PlaceAfter(s: State, actions: seq<Action>, n: nat)
    requires Agrees(s) && PlaceAgrees(s) && Runs(s, actions) && n <= |actions|
    ensures var ss := States(s, actions);
            Agrees(ss[n]) && (PlaceAgrees(ss[n]) <==> Recovered(ss, actions, n))
  {
    var ss := States(s, actions);
    if n > 0 {
      PlaceAfter(s, actions, n - 1);
      var t, a := ss[n - 1], actions[n - 1];
      assert Enabled(t, a) && ss[n] == After(t, a);
      StepKeepsAgreement(t, a);
      StepPlace(t, a);
      assert !(Loses(t, a) && Regains(t, a));
      hide Loses, Regains, PlaceAgrees, Agrees;
      RecoveredNext(ss, actions, n);
    }
  }

  lemma RecoveredNext(ss: seq<State>, actions: seq<Action>, n: nat)
    requires 0 < n <= |actions| < |ss|
    requires !(Loses(ss[n - 1], actions[n - 1]) && Regains(ss[n - 1], actions[n - 1]))
    ensures Recovered(ss, actions, n) <==>
            Regains(ss[n - 1], actions[n - 1]) || (Recovered(ss, actions, n - 1) && !Loses(ss[n - 1], actions[n - 1]))
  {
    hide Loses, Regains;
  }

  /**
   Over every interleaving from the constructor: with nothing left to deliver, the bounds have the window's place
   if and only if every step that lost it was followed by one that regained it.
   */
  lemma PlaceExactly(b: Rect, actions: seq<Action>)
    requires Runs(Opened(b), actions) && Quiescent(AfterAll(Opened(b), actions))
    ensures var s := AfterAll(Opened(b), actions);
            PlaceOf(s.bounds) == Place(s.left, s.top) <==> Recovered(States(Opened(b), actions), actions, |actions|)
  {
    PlaceAfter(Opened(b), actions, |actions|);
  }

  /** Delivering messages never loses the place, and handling one FrameResized is enough to have it again. */
  lemma ReportRestoresPlace(s: State)
    requires Agrees(s) && Enabled(s, Looper)
    ensures PlaceAgrees(After(s, Looper))
    ensures s.posted != [] ==> (PlaceAgrees(After(s, Posted)) <==> PlaceAgrees(s))
  {
  }

  /** A user's drag alone is never reported: nothing is delivered, and the bounds keep the place before it. */
  lemma DragGoesStale(b: Rect, x: int, y: int)
    requires b.width >= 1 && b.height >= 1 && (x != b.x || y != b.y)
    ensures var actions := [Looper, Posted, UserMove(x, y)];
            && Runs(Opened(b), actions)
            && var s := AfterAll(Opened(b), actions);
               Quiescent(s) && s.bounds == b && s.left == x && s.top == y
  {
    RunOfThree(Opened(b), Looper, Posted, UserMove(x, y));
  }

  lemma RunOfThree(s: State, a: Action, b: Action, c: Action)
    requires Enabled(s, a) && Enabled(After(s, a), b) && Enabled(After(After(s, a), b), c)
    ensures Runs(s, [a, b, c]) && AfterAll(s, [a, b, c]) == After(After(After(s, a), b), c)
  {
    hide Enabled, After;
    var s1 := After(s, a);
    var s2 := After(s1, b);
    var s3 := After(s2, c);
    assert Runs(s3, []) && AfterAll(s3, []) == s3;
    assert [c][1..] == [];
    assert Runs(s2, [c]) && AfterAll(s2, [c]) == s3;
    assert [b, c][1..] == [c];
    assert Runs(s1, [b, c]) && AfterAll(s1, [b, c]) == s3;
    assert [a, b, c][1..] == [b, c];
  }

  /** Bounds still on their way undo a later move that changed no size. */
  lemma OriginCanGoStale(b: Rect, x: int, y: int)
    requires b.width >= 1 && b.height >= 1 && (x != b.x || y != b.y)
    ensures var moved := Rect(x, y, b.width, b.height);
            var actions := [Looper, AskBounds(moved), Posted];
            && Runs(Opened(b), actions)
            && var s := AfterAll(Opened(b), actions);
               Quiescent(s) && s.bounds == b && s.left == x && s.top == y
  {
    RunOfThree(Opened(b), Looper, AskBounds(Rect(x, y, b.width, b.height)), Posted);
  }

  // ---- the object

  /** HaikuWindow with the native window, the content view and the two message queues it works on. */
  class HaikuWindow {
    var bounds: Rect
    var topInset: int
    var left: int
    var top: int
    var window: Size
    var view: Size
    var viewTop: int
    var follows: bool
    var resized: seq<Size>
    var posted: seq<Rect>

    function Now(): State
      reads this
    {
      State(bounds, topInset, left, top, window, view, viewTop, follows, resized, posted)
    }

    constructor (b: Rect)
      ensures Now() == Opened(b) && Agrees(Now())
    {
      bounds, topInset := b, 0;
      left, top, window := b.x, b.y, FrameForContent(b, 0);
      view, viewTop, follows := FrameForContent(b, 0), 0, true;
      resized, posted := [FrameForContent(b, 0)], [];
    }

    method ViewResizeTo(size: Size)
      modifies `view, `resized
      ensures Now() == ResizeView(old(Now()), size)
    {
      if size != view {
        view := size;
        resized := resized + [size];
      }
    }

    method WindowResizeTo(size: Size)
      modifies `window, `view, `resized
      ensures Now() == ResizeWindow(old(Now()), size)
    {
      var dw, dh := size.width - window.width, size.height - window.height;
      window := size;
      if follows {
        ViewResizeTo(Size(view.width + dw, view.height + dh));
      }
    }

    /** The result is what the delegate is told: whether the origin changed. */
    method SetBoundsInPixels(b: Rect) returns (originChanged: bool)
      requires Agrees(Now())
      modifies this
      ensures Now() == SetBounds(old(Now()), b) && Agrees(Now())
      ensures originChanged <==> old(bounds).x != b.x || old(bounds).y != b.y
    {
      StepKeepsAgreement(Now(), AskBounds(b));
      originChanged := bounds.x != b.x || bounds.y != b.y;
      bounds := b;
      left, top := b.x, b.y;
      WindowResizeTo(FrameForContent(b, topInset));
    }

    method SetInset(requested: int)
      requires Agrees(Now())
      modifies this
      ensures Now() == SetTopInset(old(Now()), requested) && Agrees(Now())
      ensures old(Quiescent(Now())) ==> view == old(view) && Quiescent(Now()) && bounds == old(bounds)
    {
      StepKeepsAgreement(Now(), AskInset(requested));
      var inset := if requested < 0 then 0 else requested;
      if Quiescent(Now()) { InsetIsInvisible(Now(), inset); }
      hide Agrees, Quiescent, ResizeWindow, ResizeView, FrameForContent;
      if topInset == inset {
        return;
      }
      topInset := inset;
      follows := false;
      WindowResizeTo(FrameForContent(bounds, topInset));
      viewTop := topInset;
      ViewResizeTo(Size(window.width, window.height - topInset));
      follows := true;
    }

    /** HaikuContentView::FrameResized, for the oldest message. */
    method FrameResized()
      requires Agrees(Now()) && resized != []
      modifies this
      ensures Now() == HandleResized(old(Now())) && Agrees(Now())
    {
      StepKeepsAgreement(Now(), Looper);
      var size := resized[0];
      resized := resized[1..];
      posted := posted + [Rect(left, top, size.width, size.height)];
    }

    /** The delegate is told nothing when the bounds are what they were. */
    method OnBoundsFromLooper() returns (originChanged: Option<bool>)
      requires Agrees(Now()) && posted != []
      modifies this
      ensures Now() == TakePosted(old(Now())) && Agrees(Now())
      ensures originChanged.None? <==> bounds == old(bounds)
      ensures originChanged.Some? ==> (originChanged.value <==> old(bounds).x != bounds.x || old(bounds).y != bounds.y)
    {
      StepKeepsAgreement(Now(), Posted);
      var b := posted[0];
      posted := posted[1..];
      if bounds == b {
        return None;
      }
      originChanged := Some(bounds.x != b.x || bounds.y != b.y);
      bounds := b;
    }
  }
}
