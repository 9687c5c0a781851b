/** Edits of one file that keep out of each other's way: their order, their verdicts and their reruns. */
module PatchOrder {
  import opened Wrappers
  import opened Seqs
  import opened Text
  import opened PatchEngine
  import opened PatchRerun

  // ---- patterns whose matches never meet

  /** An end of p is a beginning of q. */
  predicate Borders(p: string, q: string) {
    exists k: nat :: 0 < k < |p| && k < |q| && p[|p| - k..] == q[..k]
  }

  predicate NeverMeet(p: string, q: string) {
    && p != "" && q != ""
    && !Occurs(p, q) && !Occurs(q, p)
    && !Borders(p, q) && !Borders(q, p)
  }

  predicate Clear(i: nat, p: string, j: nat, q: string) {
    i + |p| <= j || j + |q| <= i
  }

  lemma MeetingBorders(s: string, p: string, i: nat, q: string, j: nat)
    requires MatchAt(s, p, i) && MatchAt(s, q, j) && i <= j < i + |p|
    ensures Occurs(q, p) || Borders(p, q) || Occurs(p, q)
  {
    if j + |q| <= i + |p| {
      SliceOfSlice(s, i, i + |p|, j - i, j - i + |q|);
      assert MatchAt(p, q, j - i);
    } else if i == j {
      SliceOfSlice(s, j, j + |q|, 0, |p|);
      assert MatchAt(q, p, 0);
    } else {
      var k := i + |p| - j;
      SliceOfSlice(s, i, i + |p|, |p| - k, |p|);
      SliceOfSlice(s, j, j + |q|, 0, k);
    }
  }

  /** Looking at the two patterns alone says exactly whether their matches can share a character in any text. */
  lemma NeverMeetExactly(p: string, q: string)
    requires p != "" && q != ""
    ensures NeverMeet(p, q) <==> forall s, i: nat, j: nat :: MatchAt(s, p, i) && MatchAt(s, q, j) ==> Clear(i, p, j, q)
  {
    if NeverMeet(p, q) {
      forall s, i: nat, j: nat | MatchAt(s, p, i) && MatchAt(s, q, j) ensures Clear(i, p, j, q) {
        MatchesApart(s, p, i, q, j);
      }
    }
    if Occurs(p, q) { InsideMeets(p, q); }
    if Occurs(q, p) { InsideMeets(q, p); }
    if Borders(p, q) { BorderMeets(p, q); }
    if Borders(q, p) { BorderMeets(q, p); }
  }

  lemma MatchesApart(s: string, p: string, i: nat, q: string, j: nat)
    requires NeverMeet(p, q) && MatchAt(s, p, i) && MatchAt(s, q, j)
    ensures Clear(i, p, j, q)
  {
    hide Occurs, Borders, MatchAt;
    if i <= j < i + |p| { MeetingBorders(s, p, i, q, j); }
    if j <= i < j + |q| { MeetingBorders(s, q, j, p, i); }
  }

  lemma InsideMeets(p: string, q: string)
    requires p != "" && Occurs(p, q)
    ensures exists i: nat, j: nat :: MatchAt(q, p, i) && MatchAt(q, q, j) && !Clear(i, p, j, q)
  {
    var i: nat :| i <= |q| && MatchAt(q, p, i);
    assert MatchAt(q, q, 0);
  }

  lemma BorderMeets(p: string, q: string)
    requires Borders(p, q)
    ensures exists s, i: nat, j: nat :: MatchAt(s, p, i) && MatchAt(s, q, j) && !Clear(i, p, j, q)
  {
    var k: nat :| 0 < k < |p| && k < |q| && p[|p| - k..] == q[..k];
    var s := p + q[k..];
    assert MatchAt(s, p, 0);
    assert s[|p| - k..] == q;
    assert MatchAt(s, q, |p| - k);
  }

  // ---- replacing one pattern in a text joined by another

  lemma MatchAround(g: string, q: string, t: string, p: string, i: nat)
    requires NeverMeet(p, q)
    ensures MatchAt(g + q + t, p, i) <==> MatchAt(g, p, i) || (i >= |g + q| && MatchAt(t, p, i - |g + q|))
  {
    var s := g + q + t;
    assert MatchAt(s, q, |g|);
    if MatchAt(s, p, i) { MatchesApart(s, p, i, q, |g|); }
    if i + |p| <= |g| { MatchInPrefix(g, s, p, i); }
    if i >= |g + q| && i + |p| <= |s| {
      assert s[|g + q|..] == t;
      SliceOfSlice(s, |g + q|, |s|, i - |g + q|, i - |g + q| + |p|);
    }
  }

  lemma FindAround(g: string, q: string, t: string, p: string)
    requires NeverMeet(p, q)
    ensures Find(g + q + t, p) ==
            if Occurs(p, g) then Find(g, p)
            else if Occurs(p, t) then Some(|g + q| + Find(t, p).value)
            else None
  {
    var s := g + q + t;
    forall i: nat ensures MatchAt(s, p, i) <==> MatchAt(g, p, i) || (i >= |g + q| && MatchAt(t, p, i - |g + q|)) {
      MatchAround(g, q, t, p, i);
    }
    if Occurs(p, g) {
      FindIs(s, p, Find(g, p).value);
    } else if Occurs(p, t) {
      assert MatchAt(t, p, |g + q| + Find(t, p).value - |g + q|);
      FindIs(s, p, |g + q| + Find(t, p).value);
    } else {
      NoMatches(g, p);
      NoMatches(t, p);
    }
  }

  lemma NoMatches(s: string, p: string)
    requires !Occurs(p, s)
    ensures forall i: nat :: !MatchAt(s, p, i)
  {
  }

  lemma ReplaceStep(s: string, p: string, r: string, every: bool)
    requires p != ""
    ensures !Occurs(p, s) ==> Replace(s, p, r, every) == s
    ensures Occurs(p, s) ==>
              var i := Find(s, p).value;
              && i + |p| <= |s|
              && Replace(s, p, r, every) ==
                 s[..i] + r + if every then Replace(s[i + |p|..], p, r, true) else s[i + |p|..]
  {
    if Occurs(p, s) {
      var i := Find(s, p).value;
      if every {
        CutsEvery(s, p);
        CutsEvery(s[i + |p|..], p);
        PiecesStep(s, p, i);
        JoinStep(s[..i], Pieces(s[i + |p|..], p), r);
      } else {
        JoinTwo(s[..i], s[i + |p|..], r);
      }
    }
  }

  lemma Glue(g: string, q: string, t: string, i: nat, j: nat)
    requires i <= j <= |g|
    ensures (g + q + t)[..i] == g[..i] && (g + q + t)[j..] == g[j..] + q + t
  {
  }

  lemma GlueAfter(g: string, q: string, t: string, i: nat, j: nat)
    requires i <= j <= |t|
    ensures (g + q + t)[..|g + q| + i] == g + q + t[..i] && (g + q + t)[|g + q| + j..] == t[j..]
  {
  }

  /** What a replacement makes of g + q + t when its pattern cannot meet q. */
  function ReplacedAround(g: string, q: string, t: string, p: string, r: string, every: bool): string {
    if every then Replace(g, p, r, true) + q + Replace(t, p, r, true)
    else if Occurs(p, g) then Replace(g, p, r, false) + q + t
    else g + q + Replace(t, p, r, false)
  }

  lemma {:induction false} ReplaceAround(g: string, q: string, t: string, p: string, r: string, every: bool)
    requires NeverMeet(p, q)
    ensures Replace(g + q + t, p, r, every) == ReplacedAround(g, q, t, p, r, every)
    decreases |g|
  {
    hide *;
    PatternsNonEmpty(p, q);
    FindAround(g, q, t, p);
    FindSome(g + q + t, p);
    FindSome(g, p);
    FindSome(t, p);
    AroundIs(g, q, t, p, r, every);
    if Occurs(p, g) {
      var h := g[Find(g, p).value + |p|..];
      if every {
        ReplaceAround(h, q, t, p, r, true);
        AroundIs(h, q, t, p, r, true);
      }
      ReplaceBefore(g, q, t, p, r, every);
    } else {
      ReplaceBehind(g, q, t, p, r, every);
    }
  }

  lemma ReplaceBefore(g: string, q: string, t: string, p: string, r: string, every: bool)
    requires p != "" && Occurs(p, g) && Find(g + q + t, p) == Find(g, p) && Occurs(p, g + q + t)
    requires Find(g, p).Some? && Find(g, p).value + |p| <= |g|
    requires var h := g[Find(g, p).value + |p|..];
             every ==> Replace(h + q + t, p, r, true) == Replace(h, p, r, true) + q + Replace(t, p, r, true)
    ensures every ==> Replace(g + q + t, p, r, every) == Replace(g, p, r, true) + q + Replace(t, p, r, true)
    ensures !every ==> Replace(g + q + t, p, r, every) == Replace(g, p, r, false) + q + t
  {
    hide *;
    var i := Find(g, p).value;
    ReplaceStep(g + q + t, p, r, every);
    ReplaceStep(g, p, r, every);
    Glue(g, q, t, i, i + |p|);
    var h := g[i + |p|..];
    if every {
      Regroup(g[..i] + r, Replace(h, p, r, true), q, Replace(t, p, r, true));
    } else {
      Regroup(g[..i] + r, h, q, t);
    }
  }

  lemma Regroup(a: string, b: string, c: string, d: string)
    ensures a + (b + c + d) == (a + b) + c + d
  {
  }

  lemma ReplaceBehind(g: string, q: string, t: string, p: string, r: string, every: bool)
    requires p != "" && !Occurs(p, g)
    requires Occurs(p, g + q + t) <==> Occurs(p, t)
    requires Occurs(p, t) ==>
               && Find(t, p).Some? && Find(t, p).value + |p| <= |t|
               && Find(g + q + t, p) == Some(|g + q| + Find(t, p).value)
    ensures every ==> Replace(g + q + t, p, r, every) == Replace(g, p, r, true) + q + Replace(t, p, r, true)
    ensures !every ==> Replace(g + q + t, p, r, every) == g + q + Replace(t, p, r, false)
  {
    hide *;
    ReplaceStep(g + q + t, p, r, every);
    ReplaceStep(g, p, r, every);
    ReplaceStep(t, p, r, every);
    if Occurs(p, t) {
      var i := Find(t, p).value;
      GlueAfter(g, q, t, i, i + |p|);
      var rest := if every then Replace(t[i + |p|..], p, r, true) else t[i + |p|..];
      RegroupAfter(g + q, t[..i], r, rest);
    }
  }

  lemma RegroupAfter(a: string, b: string, c: string, d: string)
    ensures (a + b) + c + d == a + (b + c + d)
  {
  }

  lemma PatternsNonEmpty(p: string, q: string)
    requires NeverMeet(p, q)
    ensures p != "" && q != ""
  {
  }

  lemma FindSome(s: string, p: string)
    ensures Find(s, p).Some? <==> Occurs(p, s)
    ensures Find(s, p).Some? ==> Find(s, p).value + |p| <= |s|
  {
  }

  lemma AroundIs(g: string, q: string, t: string, p: string, r: string, every: bool)
    ensures every ==> ReplacedAround(g, q, t, p, r, every) == Replace(g, p, r, true) + q + Replace(t, p, r, true)
    ensures !every && Occurs(p, g) ==> ReplacedAround(g, q, t, p, r, every) == Replace(g, p, r, false) + q + t
    ensures !every && !Occurs(p, g) ==> ReplacedAround(g, q, t, p, r, every) == g + q + Replace(t, p, r, false)
  {
    hide Replace, Occurs;
  }

  /** The pieces after a replacement that keeps clear of what joins them. */
  function Spread(cs: seq<string>, p: string, r: string, every: bool): (ds: seq<string>)
    ensures |ds| == |cs|
    ensures forall k :: 0 <= k < |cs| ==> ds[k] == cs[k] || ds[k] == Replace(cs[k], p, r, every)
  {
    if cs == [] then []
    else if every || !Occurs(p, cs[0]) then [Replace(cs[0], p, r, every)] + Spread(cs[1..], p, r, every)
    else [Replace(cs[0], p, r, every)] + cs[1..]
  }

  lemma {:induction false} ReplaceSpread(cs: seq<string>, q: string, p: string, r: string, every: bool)
    requires NeverMeet(p, q) && |cs| >= 1
    ensures Replace(Join(cs, q), p, r, every) == Join(Spread(cs, p, r, every), q)
  {
    hide Replace, NeverMeet, Occurs;
    if |cs| > 1 {
      var tail := cs[1..];
      ReplaceAround(cs[0], q, Join(tail, q), p, r, every);
      PatternsNonEmpty(p, q);
      ReplaceStep(cs[0], p, r, every);
      ReplaceSpread(tail, q, p, r, every);
      JoinStep(Replace(cs[0], p, r, every), Spread(tail, p, r, every), q);
      JoinStep(Replace(cs[0], p, r, every), tail, q);
    }
  }

  /** A pattern that cannot meet what joins the pieces is in the text exactly when it is in a piece. */
  lemma {:induction false} OccursApart(cs: seq<string>, q: string, p: string)
    requires NeverMeet(p, q) && |cs| >= 1
    ensures Occurs(p, Join(cs, q)) <==> exists k: nat :: InPiece(p, cs, k)
  {
    if |cs| == 1 {
      assert InPiece(p, cs, 0) <==> Occurs(p, Join(cs, q));
    } else {
      var tail := cs[1..];
      OccursApart(tail, q, p);
      FindAround(cs[0], q, Join(tail, q), p);
      assert InPiece(p, cs, 0) <==> Occurs(p, cs[0]);
      forall k: nat ensures InPiece(p, tail, k) <==> InPiece(p, cs, k + 1) { }
      hide Occurs, InPiece, NeverMeet;
      assert forall k: nat :: k > 0 ==> (InPiece(p, cs, k) <==> InPiece(p, tail, k - 1));
    }
  }

  // ---- edits that keep clear of each other

  /** Nothing the verdict on e looks for can meet q. */
  predicate ClearOf(script: Script, e: Edit, q: string) {
    && NeverMeet(e.anchor, q) && NeverMeet(e.text, q)
    && (script == TargetGuards && e.marker.Some? ==> NeverMeet(e.marker.value, q))
  }

  /** Neither edit looks for, or writes, anything that can meet what the other one looks for or writes. */
  predicate Independent(script: Script, e: Edit, f: Edit) {
    && ClearOf(script, e, f.anchor) && ClearOf(script, e, f.text)
    && ClearOf(script, f, e.anchor) && ClearOf(script, f, e.text)
  }

  lemma EraseIsReplace(s: string, p: string)
    requires p != ""
    ensures Erase(s, p) == Replace(s, p, "", true)
  {
    hide Pieces;
    CutsEvery(s, p);
  }

  /** Whether erasing r leaves p in a joined text depends on the pieces alone. */
  lemma OccursErased(cs: seq<string>, q: string, p: string, r: string)
    requires NeverMeet(p, q) && NeverMeet(r, q) && |cs| >= 1
    ensures r != "" && (Occurs(p, Erase(Join(cs, q), r)) <==> exists k: nat :: InPiece(p, Spread(cs, r, "", true), k))
  {
    hide *;
    PatternsNonEmpty(r, q);
    EraseIsReplace(Join(cs, q), r);
    ReplaceSpread(cs, q, r, "", true);
    OccursApart(Spread(cs, r, "", true), q, p);
  }

  lemma OccursWhicheverJoins(cs: seq<string>, q: string, q': string, p: string)
    requires NeverMeet(p, q) && NeverMeet(p, q') && |cs| >= 1
    ensures Occurs(p, Join(cs, q)) <==> Occurs(p, Join(cs, q'))
  {
    hide *;
    OccursApart(cs, q, p);
    OccursApart(cs, q', p);
  }

  /** The verdict on an edit is the same whichever of two strings it keeps clear of joins the pieces of a file. */
  lemma VerdictOfJoined(script: Script, cs: seq<string>, q: string, q': string, e: Edit)
    requires ClearOf(script, e, q) && ClearOf(script, e, q') && |cs| >= 1
    ensures Judge(script, Join(cs, q), e) == Judge(script, Join(cs, q'), e)
  {
    hide NeverMeet, Occurs, Erase, InPiece, Spread, Join;
    OccursWhicheverJoins(cs, q, q', e.anchor);
    OccursWhicheverJoins(cs, q, q', e.text);
    OccursErased(cs, q, e.anchor, e.text);
    OccursErased(cs, q', e.anchor, e.text);
    if script == TargetGuards && e.marker.Some? {
      OccursWhicheverJoins(cs, q, q', e.marker.value);
    }
  }

  /** What an edit does to a file does not change the verdict on an edit that keeps clear of it. */
  lemma VerdictKept(script: Script, s: string, e: Edit, f: Edit)
    requires Independent(script, e, f)
    ensures Judge(script, Patch(script, s, f), e) == Judge(script, s, e)
  {
    hide Judge, NeverMeet, Cuts;
    PatternsNonEmpty(e.anchor, f.anchor);
    VerdictOfJoined(script, Cuts(s, f.anchor, ReplacesEvery(script, f)), f.anchor, f.text, e);
  }

  // ---- such edits commute

  /** No match of p begins in g when a p follows it. */
  ghost predicate NoneBegins(g: string, p: string) {
    forall i: nat :: i < |g| ==> !MatchAt(g + p, p, i)
  }

  lemma NoneBeginsAround(g: string, q: string, t: string, p: string)
    requires NeverMeet(p, q)
    ensures NoneBegins(g + q + t, p) <==> !Occurs(p, g) && NoneBegins(t, p)
  {
    var n := |g + q|;
    assert g + q + t + p == g + q + (t + p);
    PatternsNonEmpty(p, q);
    forall i: nat
      ensures MatchAt(g + q + t + p, p, i) <==> MatchAt(g, p, i) || (i >= n && MatchAt(t + p, p, i - n))
    {
      MatchAround(g, q, t + p, p, i);
    }
    if NoneBegins(g + q + t, p) {
      forall i: nat | i < |t| ensures !MatchAt(t + p, p, i) {
        assert !MatchAt(g + q + t + p, p, n + i);
        assert MatchAt(t + p, p, i) <==> MatchAt(t + p, p, n + i - n);
      }
    } else {
      var i: nat :| i < |g + q + t| && MatchAt(g + q + t + p, p, i);
      assert MatchAt(g, p, i) ==> Occurs(p, g);
    }
  }

  lemma {:induction false} NoneBeginsJoined(cs: seq<string>, q: string, p: string)
    requires NeverMeet(p, q) && |cs| >= 1
    ensures NoneBegins(Join(cs, q), p) <==>
            (forall k: nat :: k < |cs| - 1 ==> !InPiece(p, cs, k)) && NoneBegins(cs[|cs| - 1], p)
  {
    if |cs| > 1 {
      var tail := cs[1..];
      NoneBeginsJoined(tail, q, p);
      NoneBeginsAround(cs[0], q, Join(tail, q), p);
      assert InPiece(p, cs, 0) <==> Occurs(p, cs[0]);
      forall k: nat ensures InPiece(p, tail, k) <==> InPiece(p, cs, k + 1) { }
      hide Occurs, InPiece, NeverMeet, NoneBegins;
      assert forall k: nat :: k > 0 ==> (InPiece(p, cs, k) <==> InPiece(p, tail, k - 1));
    }
  }

  lemma CutsJoin(s: string, p: string, every: bool)
    requires p != ""
    ensures |Cuts(s, p, every)| >= 1 && Join(Cuts(s, p, every), p) == s
  {
    hide Pieces, Find;
  }

  lemma NoneBeginsKept(g: string, q: string, p: string, r: string, every: bool)
    requires NeverMeet(q, p) && NeverMeet(q, r)
    ensures NoneBegins(g, q) ==> NoneBegins(Replace(g, p, r, every), q)
    ensures Occurs(q, Replace(g, p, r, every)) ==> Occurs(q, g)
  {
    PatternsNonEmpty(q, p);
    hide NeverMeet, NoneBegins, Occurs, Cuts;
    CutsJoin(g, p, every);
    var cs := Cuts(g, p, every);
    NoneBeginsJoined(cs, p, q);
    NoneBeginsJoined(cs, r, q);
    OccursApart(cs, p, q);
    OccursApart(cs, r, q);
  }

  /** cs is what `replace` keeps of the text it joins to. */
  ghost predicate AreCuts(cs: seq<string>, q: string, every: bool) {
    && |cs| >= 1
    && (forall k: nat :: k < |cs| - 1 ==> NoneBegins(cs[k], q))
    && (if every then !Occurs(q, cs[|cs| - 1]) else |cs| == 2)
  }

  lemma CutsAreCuts(s: string, q: string, every: bool)
    requires q != "" && Occurs(q, s)
    ensures AreCuts(Cuts(s, q, every), q, every)
  {
    var cs := Cuts(s, q, every);
    CutsExact(s, q, every);
    if !every {
      forall i: nat | i < |cs[0]| ensures !MatchAt(cs[0] + q, q, i) {
        assert cs[0] + q == s[..|cs[0]| + |q|];
        MatchInPrefix(cs[0] + q, s, q, i);
      }
    }
  }

  lemma AreCutsAreCuts(cs: seq<string>, q: string, every: bool)
    requires q != "" && AreCuts(cs, q, every)
    ensures Cuts(Join(cs, q), q, every) == cs
  {
    if every {
      LeftmostIsPieces(cs, q);
      CutsEvery(Join(cs, q), q);
    } else {
      var s := Join(cs, q);
      JoinTwo(cs[0], cs[1], q);
      assert cs == [cs[0], cs[1]];
      assert MatchAt(s, q, |cs[0]|);
      forall j: nat | j < |cs[0]| ensures !MatchAt(s, q, j) { MatchInPrefix(cs[0] + q, s, q, j); }
      FindIs(s, q, |cs[0]|);
      assert s[|cs[0]| + |q|..] == cs[1];
    }
  }

  lemma SpreadCuts(cs: seq<string>, q: string, every: bool, p: string, r: string, every': bool)
    requires NeverMeet(q, p) && NeverMeet(q, r) && AreCuts(cs, q, every)
    ensures AreCuts(Spread(cs, p, r, every'), q, every)
  {
    hide NeverMeet, NoneBegins, Occurs, Replace, Spread;
    var ds := Spread(cs, p, r, every');
    forall k: nat | k < |cs|
      ensures (NoneBegins(cs[k], q) ==> NoneBegins(ds[k], q)) && (Occurs(q, ds[k]) ==> Occurs(q, cs[k]))
    {
      NoneBeginsKept(cs[k], q, p, r, every');
    }
  }

  lemma ReplacesCommute(s: string, p: string, r: string, every: bool, q: string, u: string, every': bool)
    requires NeverMeet(p, q) && NeverMeet(p, u) && NeverMeet(q, p) && NeverMeet(q, r) && Occurs(q, s)
    ensures Replace(Replace(s, p, r, every), q, u, every') == Replace(Replace(s, q, u, every'), p, r, every)
  {
    PatternsNonEmpty(q, p);
    hide NeverMeet, Occurs, Cuts, AreCuts, Spread, Join;
    CutsJoin(s, q, every');
    CutsAreCuts(s, q, every');
    var cs := Cuts(s, q, every');
    assert |cs| >= 1;
    ReplaceSpread(cs, q, p, r, every);
    ReplaceSpread(cs, u, p, r, every);
    SpreadCuts(cs, q, every', p, r, every);
    AreCutsAreCuts(Spread(cs, p, r, every), q, every');
  }

  /** Two edits that keep clear of each other can be made in either order. */
  lemma PatchesCommute(script: Script, s: string, e: Edit, f: Edit)
    requires Independent(script, e, f)
    ensures Patch(script, Patch(script, s, e), f) == Patch(script, Patch(script, s, f), e)
  {
    VerdictKept(script, s, e, f);
    VerdictKept(script, s, f, e);
    hide Judge, NeverMeet, Replace;
    if Judge(script, s, e) == Write && Judge(script, s, f) == Write {
      WrittenHoldsAnchor(script, s, f);
      ReplacesCommute(s, e.anchor, e.text, ReplacesEvery(script, e), f.anchor, f.text, ReplacesEvery(script, f));
    }
  }

  // ---- several edits of one file

  lemma {:induction false} PastAll(script: Script, s: string, fs: seq<Edit>, e: Edit)
    requires forall f :: f in fs ==> Independent(script, e, f)
    ensures Judge(script, PatchAll(script, s, fs), e) == Judge(script, s, e)
    ensures PatchAll(script, Patch(script, s, e), fs) == Patch(script, PatchAll(script, s, fs), e)
  {
    hide Judge, Patch, Independent;
    if fs != [] {
      var before, f := fs[..|fs| - 1], fs[|fs| - 1];
      assert f in fs;
      PastAll(script, s, before, e);
      var t := PatchAll(script, s, before);
      VerdictKept(script, t, e, f);
      PatchesCommute(script, t, e, f);
    }
  }

  /** The edits of the file keep clear of each other. */
  ghost predicate AllIndependent(script: Script, es: seq<Edit>, rel: string) {
    forall j, k :: 0 <= j < k < |es| && es[j].rel == rel && es[k].rel == rel ==> Independent(script, es[j], es[k])
  }

  lemma IndependentBack(script: Script, e: Edit, f: Edit)
    requires Independent(script, e, f)
    ensures Independent(script, f, e)
  {
    hide NeverMeet;
  }

  /** The edits of one file, among edits of several: each is judged on a rerun as if it were the only one. */
  lemma {:induction false} FileRerun(script: Script, s: string, edits: seq<Edit>, rel: string, e: Edit)
    requires AllIndependent(script, edits, rel) && e in OnFile(edits, rel)
    ensures Judge(script, PatchAll(script, s, OnFile(edits, rel)), e) == Judge(script, Patch(script, s, e), e)
  {
    hide Judge, Patch, Independent, PatchAll, OnFile;
    var before, last := edits[..|edits| - 1], edits[|edits| - 1];
    assert edits == before + [last];
    PatchAllLast(script, s, before, last, rel);
    var t := PatchAll(script, s, OnFile(before, rel));
    if e in OnFile(before, rel) {
      FileRerun(script, s, before, rel, e);
      if last.rel == rel {
        assert e in before && e.rel == rel;
        var j :| 0 <= j < |before| && edits[j] == e;
        assert edits[|edits| - 1] == last;
        VerdictKept(script, t, e, last);
      }
    } else {
      assert e == last;
      forall f | f in OnFile(before, rel) ensures Independent(script, e, f) {
        assert f in before && f.rel == rel;
        var j :| 0 <= j < |before| && edits[j] == f;
        IndependentBack(script, f, e);
      }
      PastAll(script, s, OnFile(before, rel), e);
      PastAll(script, Patch(script, s, e), OnFile(before, rel), e);
    }
  }

  // ---- a whole script

  /** On its first run an edit is judged as on the untouched tree, whatever is applied before it. */
  lemma {:induction false} VerdictsAreFirst(script: Script, files: Files, edits: seq<Edit>, k: nat)
    requires k < |edits| && AllIndependent(script, edits, edits[k].rel)
    ensures Verdicts(script, files, edits)[k] == VerdictAt(script, files, edits[k])
  {
    hide Judge, Patch, Independent, PatchAll, OnFile, Run;
    var before, last := edits[..|edits| - 1], edits[|edits| - 1];
    if k < |before| {
      VerdictsAreFirst(script, files, before, k);
    } else {
      RunIsPerFile(script, files, before);
      if last.rel in files {
        forall f | f in OnFile(before, last.rel) ensures Independent(script, last, f) {
          assert f in before && f.rel == last.rel;
          var j :| 0 <= j < |before| && edits[j] == f;
          IndependentBack(script, f, last);
        }
        PastAll(script, files[last.rel], OnFile(before, last.rel), last);
      }
    }
  }

  /**
   A file is left alone by the second run of a script exactly when each of its edits alone is silent on its original
   text.
   */
  lemma FileRerunSilent(script: Script, files: Files, edits: seq<Edit>, rel: string)
    requires rel in files && AllIndependent(script, edits, rel)
    ensures var after := Run(script, files, edits);
            (forall e :: e in edits && e.rel == rel ==> VerdictAt(script, after, e) != Write) <==>
            (forall e :: e in edits && e.rel == rel ==> SilentAfterFirst(script, files[rel], e))
  {
    hide Judge, Patch, OnFile, Independent, PatchAll, AllIndependent, Run, SilentAfterFirst;
    var after := Run(script, files, edits);
    RunIsPerFile(script, files, edits);
    forall e | e in edits && e.rel == rel
      ensures VerdictAt(script, after, e) != Write <==> SilentAfterFirst(script, files[rel], e)
    {
      FileRerun(script, files[rel], edits, rel, e);
      SilentIffSecondSilent(script, files[rel], e);
    }
  }

  /**
   The second run of a whole script, whose edits of one file keep clear of each other, writes nothing if and only
   if each edit alone is silent on the original text of its file; and then the tree stays as it is.
   */
  lemma TreeRerunSilent(script: Script, files: Files, edits: seq<Edit>)
    requires forall rel :: rel in files ==> AllIndependent(script, edits, rel)
    ensures var after := Run(script, files, edits);
            && (CountWrites(Verdicts(script, after, edits)) == 0 <==>
                forall e :: e in edits && e.rel in files ==> SilentAfterFirst(script, files[e.rel], e))
            && (CountWrites(Verdicts(script, after, edits)) == 0 ==> Run(script, after, edits) == after)
  {
    hide Judge, Patch, OnFile, Independent, PatchAll, AllIndependent, Run, SilentAfterFirst;
    var after := Run(script, files, edits);
    RunIsPerFile(script, files, edits);
    forall rel | rel in files
      ensures (forall e :: e in edits && e.rel == rel ==> VerdictAt(script, after, e) != Write) <==>
              (forall e :: e in edits && e.rel == rel ==> SilentAfterFirst(script, files[rel], e))
    {
      FileRerunSilent(script, files, edits, rel);
    }
    SilentRun(script, after, edits);
    TreeFromFiles(script, files, after, edits);
  }

  lemma TreeFromFiles(script: Script, files: Files, after: Files, edits: seq<Edit>)
    requires after.Keys == files.Keys
    requires forall rel :: rel in files ==>
               ((forall e :: e in edits && e.rel == rel ==> VerdictAt(script, after, e) != Write) <==>
                (forall e :: e in edits && e.rel == rel ==> SilentAfterFirst(script, files[rel], e)))
    ensures (forall e :: e in edits ==> VerdictAt(script, after, e) != Write) <==>
            (forall e :: e in edits && e.rel in files ==> SilentAfterFirst(script, files[e.rel], e))
  {
    hide Judge, SilentAfterFirst;
    if forall e :: e in edits ==> VerdictAt(script, after, e) != Write {
      forall e | e in edits && e.rel in files ensures SilentAfterFirst(script, files[e.rel], e) {
        var rel := e.rel;
        assert forall f :: f in edits && f.rel == rel ==> VerdictAt(script, after, f) != Write;
      }
    }
    if forall e :: e in edits && e.rel in files ==> SilentAfterFirst(script, files[e.rel], e) {
      forall e | e in edits ensures VerdictAt(script, after, e) != Write {
        var rel := e.rel;
        assert rel in files ==> forall f :: f in edits && f.rel == rel ==> SilentAfterFirst(script, files[rel], f);
      }
    }
  }
}
