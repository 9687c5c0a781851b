/** What a second run of the port scripts does to a tree the first run has already been over. */
module PatchRerun {
  import opened Wrappers
  import opened Text
  import opened PatchEngine

  /** n runs of one edit over one file. */
  function RunTimes(script: Script, s: string, e: Edit, n: nat): string {
    if n == 0 then s else Patch(script, RunTimes(script, s, e, n - 1), e)
  }

  lemma {:induction false} SettledStays(script: Script, s: string, e: Edit, n: nat)
    requires Judge(script, s, e) != Write
    ensures RunTimes(script, s, e, n) == s
  {
    hide Judge, Replace;
    if n > 0 { SettledStays(script, s, e, n - 1); }
  }

  lemma {:induction false} RunsAfterFirst(script: Script, s: string, e: Edit, n: nat)
    ensures RunTimes(script, s, e, n + 1) == RunTimes(script, Patch(script, s, e), e, n)
  {
    hide Patch;
    if n > 0 { RunsAfterFirst(script, s, e, n - 1); }
  }

  // ---- what each script does with an edit

  /** The naive script writes whenever the anchor is there and the replacement is not, and nothing else. */
  lemma NaiveVerdict(s: string, e: Edit)
    ensures var v := Judge(CompileFixes, s, e);
            && (v == Write <==> Occurs(e.anchor, s) && !Occurs(e.text, s))
            && (v == Applied <==> Occurs(e.text, s))
            && (v == NotFound <==> !Occurs(e.anchor, s) && !Occurs(e.text, s))
  {
    hide Occurs;
  }

  /** Without a marker the two newer scripts write whenever an anchor is left once the replacements are taken out. */
  lemma UnmarkedVerdict(script: Script, s: string, e: Edit)
    requires LooksErased(script, e)
    ensures e.text != ""
    ensures var v, erased := Judge(script, s, e), Erase(s, e.text);
            && (v == Write <==> Occurs(e.anchor, erased) && Occurs(e.anchor, s))
            && (v == Applied <==> !Occurs(e.anchor, erased))
            && (v == NotFound <==> Occurs(e.anchor, erased) && !Occurs(e.anchor, s))
  {
    SubstitutionHasText(e);
    hide Occurs, Erase;
  }

  /** A marked edit is written into every file that has its anchor and neither its replacement nor its marker. */
  lemma MarkedVerdict(s: string, e: Edit)
    requires e.marker.Some?
    ensures var v := Judge(TargetGuards, s, e);
            && (v == Write <==> Occurs(e.anchor, s) && !Occurs(e.text, s) && !Occurs(e.marker.value, s))
            && (v == Stale <==> !Occurs(e.text, s) && Occurs(e.marker.value, s))
            && (v == Applied <==> Occurs(e.text, s) || (!Occurs(e.anchor, s) && !Occurs(e.marker.value, s)))
  {
    if Occurs(e.anchor, s) && IsRemoval(e) { OccursTransitive(e.text, e.anchor, s); }
    if !IsRemoval(e) {
      SubstitutionHasText(e);
      if !Occurs(e.text, s) { EraseAbsent(s, e.text); }
    }
    hide Occurs, Erase;
  }

  lemma EraseAbsent(s: string, p: string)
    requires p != "" && !Occurs(p, s)
    ensures Erase(s, p) == s
  {
    assert Pieces(s, p) == [s];
  }

  /** Where all anchors are replaced, each becomes the text and everything between them stays. */
  lemma EveryReplaced(script: Script, ps: seq<string>, e: Edit)
    requires script == TargetGuards || (script == HaikuPlatform && e.every)
    requires e.anchor != "" && Leftmost(ps, e.anchor) && Judge(script, Join(ps, e.anchor), e) == Write
    ensures Patch(script, Join(ps, e.anchor), e) == Join(ps, e.text)
  {
    hide Judge, Pieces, Leftmost;
    LeftmostIsPieces(ps, e.anchor);
    CutsEvery(Join(ps, e.anchor), e.anchor);
  }

  lemma CutsEvery(s: string, p: string)
    requires p != ""
    ensures Cuts(s, p, true) == Pieces(s, p)
  {
  }

  /** An empty anchor is replaced before every character and at the end. */
  lemma EmptyAnchorReplaced(script: Script, s: string, e: Edit)
    requires script == TargetGuards || (script == HaikuPlatform && e.every)
    requires e.anchor == "" && Judge(script, s, e) == Write
    ensures Patch(script, s, e) == Join([""] + Letters(s) + [""], e.text)
  {
    EmptyOccurs(s);
    hide Judge, Find, Occurs;
  }

  /** Where only the first anchor is replaced, all of the file around it stays. */
  lemma FirstReplaced(script: Script, a: string, b: string, e: Edit)
    requires script == CompileFixes || (script == HaikuPlatform && !e.every)
    requires forall j: nat :: j < |a| ==> !MatchAt(a + e.anchor + b, e.anchor, j)
    requires Judge(script, a + e.anchor + b, e) == Write
    ensures Patch(script, a + e.anchor + b, e) == a + e.text + b
  {
    var s := a + e.anchor + b;
    assert MatchAt(s, e.anchor, |a|);
    FindIs(s, e.anchor, |a|);
    assert s[..|a|] == a && s[|a| + |e.anchor|..] == b;
    hide Judge, Find;
    JoinTwo(a, b, e.text);
  }

  lemma JoinTwo(a: string, b: string, r: string)
    ensures Join([a, b], r) == a + r + b
  {
    assert Join([a, b][1..], r) == b;
  }

  // ---- erase-then-look

  /** The edit takes the erase-then-look route and is an addition or a substitution. */
  predicate LooksErased(script: Script, e: Edit) {
    script != CompileFixes && (script == TargetGuards ==> e.marker.None?) && !IsRemoval(e)
  }

  /** What erasing the replacement leaves of a file once it has been put in, read off what is kept of the original. */
  function Residue(script: Script, s: string, e: Edit): string
    requires !IsRemoval(e)
  {
    SubstitutionHasText(e);
    var cs := Cuts(s, e.anchor, ReplacesEvery(script, e));
    Remains(cs[0], cs[1..], e.text)
  }

  /** The same when it takes out just what was put in: the kept pieces, without copies of their own. */
  function CleanResidue(script: Script, s: string, e: Edit): string
    requires !IsRemoval(e)
  {
    SubstitutionHasText(e);
    Join(EraseEach(Cuts(s, e.anchor, ReplacesEvery(script, e)), e.text), "")
  }

  /** Nothing in the file reads as the start of a replacement that ends in an inserted one. */
  predicate InsertsCleanly(script: Script, s: string, e: Edit) {
    var cs := Cuts(s, e.anchor, ReplacesEvery(script, e));
    forall k: nat :: k < |cs| - 1 ==> StraddleFree(cs[k], e.text)
  }

  lemma CleanInsertion(script: Script, s: string, e: Edit)
    requires !IsRemoval(e) && InsertsCleanly(script, s, e)
    ensures Residue(script, s, e) == CleanResidue(script, s, e)
  {
    hide Occurs, Find, Pieces, Erase, Remains;
    SubstitutionHasText(e);
    var cs := Cuts(s, e.anchor, ReplacesEvery(script, e));
    RemainsOfJoined(cs[0], cs[1..], e.text);
    assert [cs[0]] + cs[1..] == cs;
    EraseJoined(cs, e.text);
  }

  lemma ResidueIsErased(script: Script, s: string, e: Edit)
    requires !IsRemoval(e) && Judge(script, s, e) == Write
    ensures e.text != "" && Residue(script, s, e) == Erase(Patch(script, s, e), e.text)
  {
    hide Judge, Find, Pieces, Erase, Remains;
    SubstitutionHasText(e);
    var cs := Cuts(s, e.anchor, ReplacesEvery(script, e));
    RemainsOfJoined(cs[0], cs[1..], e.text);
    assert [cs[0]] + cs[1..] == cs;
  }

  /** Once an edit has been written, the residue of the original file decides what the next run does. */
  lemma RerunVerdict(script: Script, s: string, e: Edit)
    requires LooksErased(script, e) && Judge(script, s, e) == Write
    ensures var after := Patch(script, s, e);
            Judge(script, after, e) ==
            if !Occurs(e.anchor, Residue(script, s, e)) then Applied
            else if !Occurs(e.anchor, after) then NotFound
            else Write
  {
    hide Occurs, Find, Pieces, Residue, Patch, Erase;
    ResidueIsErased(script, s, e);
  }

  /** No run after the first writes. */
  ghost predicate SilentAfterFirst(script: Script, s: string, e: Edit) {
    forall n: nat :: n >= 1 ==> Judge(script, RunTimes(script, s, e, n), e) != Write
  }

  lemma SilentIffSecondSilent(script: Script, s: string, e: Edit)
    ensures SilentAfterFirst(script, s, e) <==> Judge(script, Patch(script, s, e), e) != Write
  {
    hide Judge, Patch;
    var after := Patch(script, s, e);
    assert RunTimes(script, s, e, 0) == s;
    assert RunTimes(script, s, e, 1) == after;
    if Judge(script, after, e) != Write {
      forall n: nat | n >= 1 ensures Judge(script, RunTimes(script, s, e, n), e) != Write {
        RunsAfterFirst(script, s, e, n - 1);
        SettledStays(script, after, e, n - 1);
      }
    }
  }

  /** An addition leaves its anchor in the file: its reruns are silent exactly when the residue has no anchor. */
  lemma AdditionRerun(script: Script, s: string, e: Edit)
    requires LooksErased(script, e) && Judge(script, s, e) == Write
    requires Occurs(e.anchor, e.text)
    ensures SilentAfterFirst(script, s, e) <==> !Occurs(e.anchor, Residue(script, s, e))
  {
    hide Residue, Judge, SilentAfterFirst;
    var after := Patch(script, s, e);
    SilentIffSecondSilent(script, s, e);
    RerunVerdict(script, s, e);
    SeparatorInJoin(Cuts(s, e.anchor, ReplacesEvery(script, e)), e.text);
    OccursTransitive(e.anchor, e.text, after);
  }

  // ---- callers can see that an edit inserts cleanly

  lemma UnborderedInsertsCleanly(script: Script, s: string, e: Edit)
    requires Unbordered(e.text)
    ensures InsertsCleanly(script, s, e)
  {
    var cs := Cuts(s, e.anchor, ReplacesEvery(script, e));
    forall k: nat | k < |cs| - 1 ensures StraddleFree(cs[k], e.text) {
      UnborderedNeverStraddles(cs[k], e.text);
    }
  }

  lemma FreshWordInsertsCleanly(script: Script, s: string, e: Edit, x: string, w: string, y: string)
    requires e.text == x + w + y && Unbordered(w)
    requires forall g :: g in Cuts(s, e.anchor, ReplacesEvery(script, e)) ==> !Occurs(w, g + x)
    ensures InsertsCleanly(script, s, e)
  {
    var cs := Cuts(s, e.anchor, ReplacesEvery(script, e));
    forall k: nat | k < |cs| - 1 ensures StraddleFree(cs[k], e.text) {
      assert cs[k] in cs;
      FreshWordNeverStraddles(cs[k], x, w, y);
    }
  }

  lemma SymbolOccurs(c: char, s: string)
    ensures Occurs([c], s) <==> c in s
  {
    if c in s {
      var i :| 0 <= i < |s| && s[i] == c;
      assert MatchAt(s, [c], i);
    }
    if Occurs([c], s) {
      var i: nat :| i <= |s| && MatchAt(s, [c], i);
      assert s[i..i + 1][0] == s[i];
    }
  }

  lemma CutsHoldOnlyTheFile(s: string, p: string, every: bool, c: char)
    requires c !in s
    ensures forall g :: g in Cuts(s, p, every) ==> c !in g
  {
    var cs := Cuts(s, p, every);
    if p == "" {
      EmptyAnchorCuts(s, every);
    } else {
      forall g | g in cs ensures c !in g {
        hide *;
        var k :| 0 <= k < |cs| && cs[k] == g;
        SymbolOccurs(c, g);
        SymbolOccurs(c, s);
        if Occurs([c], g) { OccursInJoin(cs, p, k, [c]); }
      }
    }
  }

  lemma EmptyAnchorCuts(s: string, every: bool)
    ensures forall g :: g in Cuts(s, "", every) ==> g == "" || g == s || exists k :: 0 <= k < |s| && g == [s[k]]
  {
    EmptyOccurs(s);
    FindIs(s, "", 0);
    assert s[0..] == s;
  }

  lemma {:induction false} NothingToErase(ps: seq<string>, p: string)
    requires p != "" && |ps| >= 1 && forall g :: g in ps ==> !Occurs(p, g)
    ensures EraseEach(ps, p) == ps
  {
    if |ps| > 1 {
      NothingToErase(ps[1..], p);
    }
  }

  /** The replacement around its first c. */
  function AtSymbol(text: string, c: char): (r: (string, string))
    requires c in text
    ensures text == r.0 + [c] + r.1 && c !in r.0
  {
    if text[0] == c then ("", text[1..])
    else
      var (x, m) := AtSymbol(text[1..], c);
      ([text[0]] + x, m)
  }

  /** Some piece of the file that is kept holds the anchor, or a place where a replacement was put in does. */
  ghost predicate AnchorSurvives(script: Script, s: string, e: Edit) {
    var cs := Cuts(s, e.anchor, ReplacesEvery(script, e));
    || e.anchor == ""
    || (exists k: nat :: InPiece(e.anchor, cs, k))
    || (exists k: nat :: AtSeam(e.anchor, cs, e.text, k))
  }

  lemma SurvivesExact(script: Script, s: string, e: Edit)
    requires Judge(script, s, e) == Write
    ensures Occurs(e.anchor, Patch(script, s, e)) <==> AnchorSurvives(script, s, e)
  {
    if e.anchor == "" {
      EmptyOccurs(Patch(script, s, e));
    } else {
      OccursInPieces(Cuts(s, e.anchor, ReplacesEvery(script, e)), e.text, e.anchor);
    }
  }

  /**
   Reruns of an addition or a substitution are silent exactly when the residue of the original file has no anchor, or
   no anchor survives the replacement.
   */
  lemma SubstitutionRerun(script: Script, s: string, e: Edit)
    requires LooksErased(script, e) && Judge(script, s, e) == Write
    ensures SilentAfterFirst(script, s, e) <==>
            !Occurs(e.anchor, Residue(script, s, e)) || !AnchorSurvives(script, s, e)
  {
    hide *;
    NotARemoval(script, e);
    SurvivesExact(script, s, e);
    RerunVerdict(script, s, e);
    SilentIffSecondSilent(script, s, e);
  }

  lemma NotARemoval(script: Script, e: Edit)
    requires LooksErased(script, e)
    ensures !IsRemoval(e)
  {
  }

  lemma WrittenHoldsAnchor(script: Script, s: string, e: Edit)
    requires Judge(script, s, e) == Write
    ensures Occurs(e.anchor, s)
  {
    hide Occurs, Erase;
  }

  /**
   When the replacement brings in one symbol the file does not have, its reruns are silent exactly when
   cutting the anchors out of the original file forms no further anchor, or none survives the replacement.
   */
  lemma FreshSymbolRerun(script: Script, s: string, e: Edit, c: char)
    requires LooksErased(script, e) && Judge(script, s, e) == Write
    requires c in e.text && c !in s
    ensures SilentAfterFirst(script, s, e) <==>
            || !Occurs(e.anchor, Replace(s, e.anchor, "", ReplacesEvery(script, e)))
            || !AnchorSurvives(script, s, e)
  {
    WrittenHoldsAnchor(script, s, e);
    hide AnchorSurvives, Occurs, Find, Remains, Erase, SilentAfterFirst;
    var cs := Cuts(s, e.anchor, ReplacesEvery(script, e));
    var (x, y) := AtSymbol(e.text, c);
    CutsHoldOnlyTheFile(s, e.anchor, ReplacesEvery(script, e), c);
    forall g | g in cs ensures !Occurs([c], g + x) && !Occurs(e.text, g) {
      SymbolOccurs(c, g + x);
      SymbolsOfPart(c, e.text, g);
    }
    FreshWordInsertsCleanly(script, s, e, x, [c], y);
    SubstitutionHasText(e);
    NothingToErase(cs, e.text);
    CleanInsertion(script, s, e);
    SubstitutionRerun(script, s, e);
  }

  // ---- what erase-then-look never skips, and what the naive test always skips

  /** An anchor lying wholly between the replacements already in a file is always found and written. */
  lemma NoSilentSkip(script: Script, s: string, e: Edit, k: nat)
    requires LooksErased(script, e) && e.text != ""
    requires k < |Pieces(s, e.text)| && Occurs(e.anchor, Pieces(s, e.text)[k])
    ensures Judge(script, s, e) == Write
  {
    OccursInJoin(Pieces(s, e.text), "", k, e.anchor);
    OccursInJoin(Pieces(s, e.text), e.text, k, e.anchor);
  }

  lemma NaiveSkipsRemovals(s: string, e: Edit)
    requires IsRemoval(e)
    ensures Judge(CompileFixes, s, e) != Write
    ensures Occurs(e.anchor, s) ==> Judge(CompileFixes, s, e) == Applied
  {
    if Occurs(e.anchor, s) { OccursTransitive(e.text, e.anchor, s); }
  }

  /** The naive script never writes one edit twice, whatever the file. */
  lemma NaiveIsIdempotent(s: string, e: Edit)
    ensures SilentAfterFirst(CompileFixes, s, e)
  {
    SilentIffSecondSilent(CompileFixes, s, e);
    if Judge(CompileFixes, s, e) == Write {
      SeparatorInJoin(Cuts(s, e.anchor, false), e.text);
    }
  }

  /** ... but one copy of the replacement is enough for it to leave any number of anchors behind. */
  lemma NaiveSkipsWhatErasingSees(script: Script, s: string, e: Edit, k: nat)
    requires LooksErased(script, e) && e.text != ""
    requires |Pieces(s, e.text)| >= 2 && k < |Pieces(s, e.text)| && Occurs(e.anchor, Pieces(s, e.text)[k])
    ensures Judge(CompileFixes, s, e) == Applied && Judge(script, s, e) == Write
  {
    NoSilentSkip(script, s, e, k);
  }

  // ---- removals

  lemma {:induction false} JoinShorter(ps: seq<string>, p: string, r: string)
    requires |ps| >= 2 && |r| < |p|
    ensures |Join(ps, r)| < |Join(ps, p)|
  {
    if |ps| > 2 { JoinShorter(ps[1..], p, r); }
  }

  lemma RemovalShrinks(script: Script, s: string, e: Edit)
    requires IsRemoval(e) && e.text != e.anchor && Judge(script, s, e) == Write
    ensures |Patch(script, s, e)| < |s|
  {
    OccursLength(e.text, e.anchor);
    JoinShorter(Cuts(s, e.anchor, ReplacesEvery(script, e)), e.anchor, e.text);
  }

  /** A removal goes by erase-then-look, without a marker. */
  predicate Removes(script: Script, e: Edit) {
    script != CompileFixes && (script == TargetGuards ==> e.marker.None?) && IsRemoval(e) && e.text != e.anchor
  }

  lemma RemovalVerdict(script: Script, s: string, e: Edit)
    requires Removes(script, e)
    ensures Judge(script, s, e) == Write <==> Occurs(e.anchor, s)
  {
    hide Occurs;
  }

  /**
   Reruns of a removal are silent exactly when no place where an anchor was cut down to the replacement forms
   another and, for a first-only removal, no anchor follows the first.
   */
  lemma RemovalRerun(script: Script, s: string, e: Edit)
    requires Removes(script, e) && Judge(script, s, e) == Write
    ensures var cs := Cuts(s, e.anchor, ReplacesEvery(script, e));
            SilentAfterFirst(script, s, e) <==>
            && (forall k: nat :: !AtSeam(e.anchor, cs, e.text, k))
            && (ReplacesEvery(script, e) || !InPiece(e.anchor, cs, 1))
  {
    var cs := Cuts(s, e.anchor, ReplacesEvery(script, e));
    SilentIffSecondSilent(script, s, e);
    RemovalVerdict(script, s, e);
    RemovalVerdict(script, Patch(script, s, e), e);
    SurvivesExact(script, s, e);
    if e.anchor == "" { OccursLength(e.text, ""); }
    AnchorInCut(s, e.anchor, ReplacesEvery(script, e));
  }

  /** After a replacement no kept piece holds the anchor, except the rest behind a first-only one. */
  lemma AnchorInCut(s: string, p: string, every: bool)
    requires p != "" && Occurs(p, s)
    ensures var cs := Cuts(s, p, every); forall k: nat :: InPiece(p, cs, k) ==> !every && k == 1
  {
    var cs := Cuts(s, p, every);
    CutsExact(s, p, every);
    forall k: nat | InPiece(p, cs, k) ensures !every && k == 1 {
      if k < |cs| - 1 {
        var i: nat :| i <= |cs[k]| && MatchAt(cs[k], p, i);
        MatchInPrefix(cs[k], cs[k] + p, p, i);
        if !every { MatchInPrefix(cs[k], s, p, i); }
      }
    }
  }

  /** Cutting "ab" out of "aabb" leaves "ab": the removal is applied a second time. */
  lemma RemovalNeedsTwoRuns(e: Edit, a: char, b: char)
    requires a != b && e.anchor == [a, b] && e.text == "" && e.marker.None?
    ensures Judge(TargetGuards, [a, a, b, b], e) == Write
    ensures !SilentAfterFirst(TargetGuards, [a, a, b, b], e)
  {
    var s := [a, a, b, b];
    EmptyOccurs(e.anchor);
    ForgedCut(a, b);
    OccursInside([a], [a, b], [b]);
    assert [a] + [a, b] + [b] == s;
    hide Occurs, Pieces, Find;
    RemovalVerdict(TargetGuards, s, e);
    assert Cuts(s, e.anchor, true) == [[a], [b]];
    JoinTwo([a], [b], "");
    OccursInside("", [a, b], "");
    assert "" + [a, b] + "" == [a] + "" + [b];
    hide Cuts, Join;
    RemovalVerdict(TargetGuards, Patch(TargetGuards, s, e), e);
    SilentIffSecondSilent(TargetGuards, s, e);
  }

  /** So a removal may need several runs, but never more than the file has characters. */
  lemma {:induction false} RemovalConverges(script: Script, s: string, e: Edit, n: nat)
    requires Removes(script, e) && n >= |s|
    ensures !Occurs(e.anchor, RunTimes(script, s, e, n))
    decreases |s|
  {
    hide *;
    RemovalVerdict(script, s, e);
    if Judge(script, s, e) == Write {
      RemovesIsRemoval(script, e);
      RemovalShrinks(script, s, e);
      RunsAfterFirst(script, s, e, n - 1);
      RemovalConverges(script, Patch(script, s, e), e, n - 1);
    } else {
      SettledStays(script, s, e, n);
    }
  }

  lemma RemovesIsRemoval(script: Script, e: Edit)
    requires Removes(script, e)
    ensures IsRemoval(e) && e.text != e.anchor
  {
  }

  // ---- marked edits

  lemma MarkedIsIdempotent(s: string, e: Edit)
    requires e.marker.Some?
    ensures SilentAfterFirst(TargetGuards, s, e)
  {
    SilentIffSecondSilent(TargetGuards, s, e);
    if Judge(TargetGuards, s, e) == Write {
      SeparatorInJoin(Cuts(s, e.anchor, true), e.text);
    }
  }

  /** A marker does not combine with a removal: such an edit is skipped on every file. */
  lemma MarkedRemovalNeverWrites(s: string, e: Edit)
    requires e.marker.Some? && IsRemoval(e)
    ensures Judge(TargetGuards, s, e) != Write
  {
    if Occurs(e.anchor, s) { OccursTransitive(e.text, e.anchor, s); }
  }

  /** Successive runs of successive versions of the script, one edit each, over one file. */
  function History(s: string, es: seq<Edit>): string
    decreases |es|
  {
    if es == [] then s else History(Patch(TargetGuards, s, es[0]), es[1..])
  }

  function HistoryWrites(s: string, es: seq<Edit>): nat
    decreases |es|
  {
    if es == [] then 0
    else (if Judge(TargetGuards, s, es[0]) == Write then 1 else 0)
         + HistoryWrites(Patch(TargetGuards, s, es[0]), es[1..])
  }

  predicate SharesMarker(es: seq<Edit>, m: string) {
    forall e :: e in es ==> e.marker == Some(m) && Occurs(m, e.text)
  }

  lemma {:induction false} MarkerBlocks(s: string, es: seq<Edit>, m: string)
    requires SharesMarker(es, m) && Occurs(m, s)
    ensures History(s, es) == s && HistoryWrites(s, es) == 0
    decreases |es|
  {
    if es != [] {
      assert es[0] in es;
      MarkerBlocks(s, es[1..], m);
    }
  }

  /**
   Versions of an edit that share a marker write at most once between them, in any order over any number of runs,
   and they do write when one of them is due on the file they start from.
   */
  lemma {:induction false} MarkedVersionsWriteOnce(s: string, es: seq<Edit>, m: string)
    requires SharesMarker(es, m)
    ensures HistoryWrites(s, es) <= 1
    ensures HistoryWrites(s, es) == 1 ==> Occurs(m, History(s, es))
    ensures HistoryWrites(s, es) == 1 <==> exists e :: e in es && Judge(TargetGuards, s, e) == Write
    decreases |es|
  {
    if es != [] {
      var e := es[0];
      assert e in es;
      var after := Patch(TargetGuards, s, e);
      if Judge(TargetGuards, s, e) == Write {
        SeparatorInJoin(Cuts(s, e.anchor, true), e.text);
        OccursTransitive(m, e.text, after);
        MarkerBlocks(after, es[1..], m);
      } else {
        MarkedVersionsWriteOnce(after, es[1..], m);
      }
    }
  }

  // ---- where a rerun does write

  lemma ForgedCut(a: char, b: char)
    requires a != b
    ensures Pieces([a, a, b, b], [a, b]) == [[a], [b]]
  {
    var ps, p := [[a], [b]], [a, b];
    JoinTwo([a], [b], p);
    assert [a] + p + [b] == [a, a, b, b];
    assert ([a] + p)[0..2] == [a, a];
    LeftmostIsPieces(ps, p);
  }

  /** Cutting "ab" out of "aabb" forges another "ab", so the addition of "ab#" is applied a second time. */
  lemma ForgedAnchorRewrites(e: Edit, a: char, b: char, h: char)
    requires a != b && h != a && h != b
    requires e.anchor == [a, b] && e.text == [a, b, h] && e.marker.None?
    ensures Judge(TargetGuards, [a, a, b, b], e) == Write
    ensures !SilentAfterFirst(TargetGuards, [a, a, b, b], e)
  {
    var s := [a, a, b, b];
    SymbolsOfPart(h, e.text, e.anchor);
    SymbolsOfPart(h, e.text, s);
    ForgedCut(a, b);
    OccursInside([a], [a, b], [b]);
    assert [a] + [a, b] + [b] == s;
    JoinTwo([a], [b], e.text);
    JoinTwo([a], [b], "");
    hide Occurs, Pieces, Find;
    assert Erase(s, e.text) == s;
    assert Judge(TargetGuards, s, e) == Write;
    assert Cuts(s, e.anchor, true) == [[a], [b]];
    ForgedTwice(e, a, b, h);
  }

  lemma ForgedTwice(e: Edit, a: char, b: char, h: char)
    requires h != a && h != b && e.anchor == [a, b] && e.text == [a, b, h] && e.marker.None?
    requires Judge(TargetGuards, [a, a, b, b], e) == Write && !Occurs(e.text, e.anchor)
    requires Cuts([a, a, b, b], [a, b], true) == [[a], [b]]
    ensures !SilentAfterFirst(TargetGuards, [a, a, b, b], e)
  {
    hide *;
    var s := [a, a, b, b];
    WrittenPatch(TargetGuards, s, e);
    JoinTwo([a], [b], e.text);
    JoinTwo([a], [b], "");
    OccursInside([a], [a, b], [h, b]);
    assert [a] + [a, b] + [h, b] == [a] + [a, b, h] + [b];
    OccursInside("", [a, b], "");
    assert "" + [a, b] + "" == [a] + "" + [b];
    AdditionRoute(e);
    SurvivesExact(TargetGuards, s, e);
    FreshSymbolRerun(TargetGuards, s, e, h);
  }

  lemma StraddledCut(a: char, b: char)
    requires a != b
    ensures Pieces([a, b, b, a], [b, a]) == [[a, b], []]
    ensures Pieces([a, b, a, b, a], [a, b, a]) == [[], [b, a]]
  {
    JoinTwo([a, b], [], [b, a]);
    assert [a, b] + [b, a] + [] == [a, b, b, a];
    assert ([a, b] + [b, a])[0..2] == [a, b] && ([a, b] + [b, a])[1..3] == [b, b];
    LeftmostIsPieces([[a, b], []], [b, a]);
    JoinTwo([], [b, a], [a, b, a]);
    assert [] + [a, b, a] + [b, a] == [a, b, a, b, a];
    LeftmostIsPieces([[], [b, a]], [a, b, a]);
  }

  /**
   Where an edit does not insert cleanly the kept pieces alone do not tell: "aba" put in after "ab" is found one place
   too early when it is erased, so the addition is applied a second time although the piece "ab" has no anchor "ba".
   */
  lemma StraddlingInsertRewrites(e: Edit, a: char, b: char)
    requires a != b && e.anchor == [b, a] && e.text == [a, b, a] && e.marker.None?
    ensures var s := [a, b, b, a];
            && LooksErased(TargetGuards, e) && Judge(TargetGuards, s, e) == Write
            && !InsertsCleanly(TargetGuards, s, e) && !Occurs(e.anchor, CleanResidue(TargetGuards, s, e))
            && Judge(TargetGuards, Patch(TargetGuards, s, e), e) == Write
  {
    hide *;
    StraddledOccurs(a, b);
    AdditionRoute(e);
    StraddledWritten(e, a, b);
    StraddledRewritten(e, a, b);
    StraddledResidue(e, a, b);
    var s := [a, b, b, a];
    NotARemoval(TargetGuards, e);
    RerunVerdict(TargetGuards, s, e);
    if InsertsCleanly(TargetGuards, s, e) { CleanInsertion(TargetGuards, s, e); }
  }

  lemma StraddledWritten(e: Edit, a: char, b: char)
    requires a != b && e.anchor == [b, a] && e.text == [a, b, a] && e.marker.None?
    ensures var s := [a, b, b, a];
            && Judge(TargetGuards, s, e) == Write
            && Cuts(s, e.anchor, true) == [[a, b], []]
            && Patch(TargetGuards, s, e) == [a, b, a, b, a]
  {
    hide *;
    var s := [a, b, b, a];
    StraddledCut(a, b);
    StraddledOccurs(a, b);
    EraseAbsent(s, e.text);
    JoinTwo([a, b], [], e.text);
    AdditionRoute(e);
    ErasedAnchor(s, e);
    CutsEvery(s, e.anchor);
    WrittenPatch(TargetGuards, s, e);
    assert [a, b] + [a, b, a] + [] == [a, b, a, b, a];
  }

  lemma ErasedAnchor(s: string, e: Edit)
    requires e.text != "" && LooksErased(TargetGuards, e) && Occurs(e.anchor, Erase(s, e.text)) && Occurs(e.anchor, s)
    ensures Judge(TargetGuards, s, e) == Write
  {
    hide Occurs, Erase;
  }

  lemma StraddledRewritten(e: Edit, a: char, b: char)
    requires a != b && e.anchor == [b, a] && e.text == [a, b, a] && e.marker.None?
    ensures Judge(TargetGuards, [a, b, a, b, a], e) == Write
  {
    hide *;
    StraddledCut(a, b);
    StraddledOccurs(a, b);
    JoinTwo([], [b, a], "");
    assert [] + "" + [b, a] == [b, a];
    ErasePieces([a, b, a, b, a], e.text);
    AdditionRoute(e);
    ErasedAnchor([a, b, a, b, a], e);
  }

  lemma StraddledResidue(e: Edit, a: char, b: char)
    requires a != b && e.anchor == [b, a] && e.text == [a, b, a] && !IsRemoval(e)
    requires Cuts([a, b, b, a], e.anchor, true) == [[a, b], []]
    ensures CleanResidue(TargetGuards, [a, b, b, a], e) == [a, b]
  {
    StraddledOccurs(a, b);
    hide Occurs, Pieces, Find, Join, Cuts;
    var ps := [[a, b], []];
    forall g | g in ps ensures !Occurs(e.text, g) { }
    NothingToErase(ps, e.text);
    JoinTwo([a, b], [], "");
    assert [a, b] + "" + [] == [a, b];
  }

  lemma StraddledOccurs(a: char, b: char)
    requires a != b
    ensures Occurs([b, a], [a, b, b, a]) && Occurs([b, a], [a, b, a, b, a]) && Occurs([b, a], [b, a])
    ensures !Occurs([b, a], [a, b]) && !Occurs([a, b, a], [b, a])
    ensures !Occurs([a, b, a], [a, b, b, a]) && !Occurs([a, b, a], [a, b]) && !Occurs([a, b, a], [])
  {
    assert MatchAt([a, b, b, a], [b, a], 2) && MatchAt([a, b, a, b, a], [b, a], 1) && MatchAt([b, a], [b, a], 0);
    assert [a, b][0..2] == [a, b];
    assert [a, b, b, a][0..3] == [a, b, b] && [a, b, b, a][1..4] == [b, b, a];
  }

  lemma WrittenPatch(script: Script, s: string, e: Edit)
    requires Judge(script, s, e) == Write
    ensures Patch(script, s, e) == Join(Cuts(s, e.anchor, ReplacesEvery(script, e)), e.text)
    ensures Replace(s, e.anchor, "", ReplacesEvery(script, e)) == Join(Cuts(s, e.anchor, ReplacesEvery(script, e)), "")
    ensures script == TargetGuards ==> ReplacesEvery(script, e)
  {
    hide Judge, Cuts, Join;
  }

  lemma AdditionRoute(e: Edit)
    requires e.marker.None? && !Occurs(e.text, e.anchor)
    ensures LooksErased(TargetGuards, e)
  {
  }

  function Grown(c: char, m: char, d: char, n: nat): string {
    [c] + seq(n, _ => m) + [d, c]
  }

  /**
   A first-only addition over a file with a second bare anchor writes on every run and the file never stops growing.
   */
  lemma {:induction false} FirstOnlyNeverSettles(e: Edit, c: char, m: char, d: char, n: nat)
    requires c != m && c != d && m != d
    requires e.anchor == [c] && e.text == [c, m] && !e.every
    ensures RunTimes(HaikuPlatform, [c, d, c], e, n) == Grown(c, m, d, n)
    ensures Judge(HaikuPlatform, RunTimes(HaikuPlatform, [c, d, c], e, n), e) == Write
  {
    hide Judge, Patch;
    if n > 0 {
      FirstOnlyNeverSettles(e, c, m, d, n - 1);
      GrownGrows(e, c, m, d, n - 1);
    } else {
      assert Grown(c, m, d, 0) == [c, d, c];
    }
    GrownIsWritten(e, c, m, d, n);
  }

  lemma GrownGrows(e: Edit, c: char, m: char, d: char, n: nat)
    requires e.anchor == [c] && e.text == [c, m] && !e.every
    requires Judge(HaikuPlatform, Grown(c, m, d, n), e) == Write
    ensures Patch(HaikuPlatform, Grown(c, m, d, n), e) == Grown(c, m, d, n + 1)
  {
    hide Judge, Replace;
    ReplaceAtStart(Grown(c, m, d, n), c, [c, m]);
    assert [c, m] + Grown(c, m, d, n)[1..] == Grown(c, m, d, n + 1);
  }

  lemma ReplaceAtStart(s: string, c: char, r: string)
    requires s != "" && s[0] == c
    ensures Replace(s, [c], r, false) == r + s[1..]
  {
    assert MatchAt(s, [c], 0);
    FindIs(s, [c], 0);
    assert Cuts(s, [c], false) == ["", s[1..]];
    JoinTwo("", s[1..], r);
  }

  /** What a grown file is made of besides its one replacement. */
  function GrownPieces(c: char, m: char, d: char, n: nat): (ps: seq<string>)
    ensures |ps| >= 1
  {
    if n == 0 then [Grown(c, m, d, 0)] else ["", seq(n - 1, _ => m) + [d, c]]
  }

  lemma GrownCut(c: char, m: char, d: char, n: nat)
    requires c != m && c != d && m != d
    ensures Pieces(Grown(c, m, d, n), [c, m]) == GrownPieces(c, m, d, n)
  {
    var ps, r := GrownPieces(c, m, d, n), [c, m];
    var last := ps[|ps| - 1];
    forall i: nat ensures !MatchAt(last, r, i) {
      if i + 2 <= |last| {
        assert last[i..i + 2] == [last[i], last[i + 1]];
      }
    }
    assert Join(ps, r) == Grown(c, m, d, n) by {
      if n > 0 {
        JoinTwo("", ps[1], r);
        assert "" + r + ps[1] == Grown(c, m, d, n);
      }
    }
    LeftmostIsPieces(ps, r);
  }

  lemma GrownIsWritten(e: Edit, c: char, m: char, d: char, n: nat)
    requires c != m && c != d && m != d
    requires e.anchor == [c] && e.text == [c, m] && !e.every
    ensures Judge(HaikuPlatform, Grown(c, m, d, n), e) == Write
  {
    SymbolsOfPart(m, e.text, e.anchor);
    GrownCut(c, m, d, n);
    var ps := GrownPieces(c, m, d, n);
    SymbolOccurs(c, ps[|ps| - 1]);
    hide Occurs, Pieces;
    NoSilentSkip(HaikuPlatform, Grown(c, m, d, n), e, |ps| - 1);
  }

  // ---- whole trees

  /** The log has one entry an edit: what its test says of the file left by the edits before it, or its absence. */
  lemma {:induction false} LogExact(script: Script, files: Files, edits: seq<Edit>, k: nat)
    requires k < |edits|
    ensures var e, now := edits[k], Run(script, files, edits[..k]);
            Verdicts(script, files, edits)[k] == if e.rel in now then Judge(script, now[e.rel], e) else Missing
  {
    hide Judge;
    var before := edits[..|edits| - 1];
    if k < |before| {
      LogExact(script, files, before, k);
      assert before[..k] == edits[..k];
    }
  }

  /** The count is the number of writes in the log. */
  lemma {:induction false} CountExact(vs: seq<Verdict>)
    ensures CountWrites(vs) == multiset(vs)[Write]
  {
    if vs != [] {
      CountExact(vs[..|vs| - 1]);
      assert vs == vs[..|vs| - 1] + [vs[|vs| - 1]];
    }
  }

  function OnFile(edits: seq<Edit>, rel: string): (es: seq<Edit>)
    ensures forall e :: e in es <==> e in edits && e.rel == rel
  {
    if edits == [] then []
    else
      var last := edits[|edits| - 1];
      assert edits == edits[..|edits| - 1] + [last];
      OnFile(edits[..|edits| - 1], rel) + if last.rel == rel then [last] else []
  }

  function PatchAll(script: Script, s: string, edits: seq<Edit>): string {
    if edits == [] then s
    else Patch(script, PatchAll(script, s, edits[..|edits| - 1]), edits[|edits| - 1])
  }

  /** A run never adds or removes a file, and each file sees only its own edits, in order. */
  lemma {:induction false} RunIsPerFile(script: Script, files: Files, edits: seq<Edit>)
    ensures Run(script, files, edits).Keys == files.Keys
    ensures forall rel :: rel in files ==>
              Run(script, files, edits)[rel] == PatchAll(script, files[rel], OnFile(edits, rel))
  {
    hide Patch, PatchAll, OnFile;
    if edits == [] {
      EmptyRun(script, files);
    } else {
      var before, last := edits[..|edits| - 1], edits[|edits| - 1];
      RunIsPerFile(script, files, before);
      assert edits == before + [last];
      forall rel | rel in files
        ensures Run(script, files, edits)[rel] == PatchAll(script, files[rel], OnFile(edits, rel))
      {
        PatchAllLast(script, files[rel], before, last, rel);
      }
    }
  }

  lemma EmptyRun(script: Script, files: Files)
    ensures forall rel :: rel in files ==> files[rel] == PatchAll(script, files[rel], OnFile([], rel))
  {
  }

  lemma PatchAllLast(script: Script, s: string, before: seq<Edit>, last: Edit, rel: string)
    ensures PatchAll(script, s, OnFile(before + [last], rel)) ==
            if last.rel == rel then Patch(script, PatchAll(script, s, OnFile(before, rel)), last)
            else PatchAll(script, s, OnFile(before, rel))
  {
    var edits := before + [last];
    assert edits[..|edits| - 1] == before && edits[|edits| - 1] == last;
    if last.rel == rel {
      assert OnFile(edits, rel) == OnFile(before, rel) + [last];
      assert OnFile(edits, rel)[..|OnFile(edits, rel)| - 1] == OnFile(before, rel);
    } else {
      assert OnFile(edits, rel) == OnFile(before, rel);
    }
  }

  lemma {:induction false} SilentRun(script: Script, files: Files, edits: seq<Edit>)
    ensures CountWrites(Verdicts(script, files, edits)) == 0 <==>
            forall e :: e in edits ==> VerdictAt(script, files, e) != Write
    ensures CountWrites(Verdicts(script, files, edits)) == 0 ==> Run(script, files, edits) == files
  {
    if edits != [] {
      var before, last := edits[..|edits| - 1], edits[|edits| - 1];
      assert edits == before + [last];
      SilentRun(script, files, before);
      assert Verdicts(script, files, edits)[..|edits| - 1] == Verdicts(script, files, before);
      var quiet := CountWrites(Verdicts(script, files, before)) == 0 && VerdictAt(script, files, last) != Write;
      if quiet && last.rel in files {
        assert files[last.rel := files[last.rel]] == files;
      }
    }
  }
}
