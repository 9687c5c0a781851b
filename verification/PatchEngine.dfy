/**
 The loops at the end of the port scripts: each edit is judged against the text of its file, and the file is
 rewritten when the verdict says so. Three scripts carry three generations of the same judgement.
 */
module PatchEngine {
  import opened Wrappers
  import opened Text

  /**
   `every` is the "all" flag of port-haiku-platform.py; `marker` the optional fourth field of port-target-guards.py.
   */
  datatype Edit = Edit(rel: string, anchor: string, text: string, marker: Option<string>, every: bool)

  datatype Script = CompileFixes | HaikuPlatform | TargetGuards

  /** What a script does with one edit; all but Write leave the file alone. */
  datatype Verdict = Missing | Applied | Stale | NotFound | Write

  type Files = map<string, string>

  /** The replacement is a fragment of what it replaces. */
  predicate IsRemoval(e: Edit) {
    Occurs(e.text, e.anchor)
  }

  function Letters(s: string): (cs: seq<string>)
    ensures |cs| == |s| && forall k :: 0 <= k < |s| ==> cs[k] == [s[k]]
  {
    seq(|s|, k requires 0 <= k < |s| => [s[k]])
  }

  /** What `replace` keeps of s; an empty p matches before every character and at the end. */
  function Cuts(s: string, p: string, every: bool): (cs: seq<string>)
    ensures |cs| >= 1
    ensures |cs| == 1 <==> !Occurs(p, s)
    ensures p != "" ==> Join(cs, p) == s
  {
    match Find(s, p)
    case None => [s]
    case Some(i) =>
      if !every then
        assert s == s[..i] + p + s[i + |p|..];
        [s[..i], s[i + |p|..]]
      else if p == "" then [""] + Letters(s) + [""]
      else Pieces(s, p)
  }

  /** `s.replace(p, r)` when `every` is set, `s.replace(p, r, 1)` when it is not. */
  function Replace(s: string, p: string, r: string, every: bool): string {
    Join(Cuts(s, p, every), r)
  }

  /**
   What is kept: with every match replaced, no match begins in a kept piece; with the first alone, none begins
   before it; and of an empty pattern the pieces are the characters, with a match on either side of each.
   */
  lemma CutsExact(s: string, p: string, every: bool)
    requires Occurs(p, s)
    ensures var cs := Cuts(s, p, every);
            && Join(cs, p) == s
            && (every && p != "" ==> Leftmost(cs, p))
            && (!every ==>
                  && |cs| == 2 && cs[0] <= s && MatchAt(s, p, |cs[0]|)
                  && forall j: nat :: j < |cs[0]| ==> !MatchAt(s, p, j))
            && (every && p == "" ==>
                  && |cs| == |s| + 2 && cs[0] == cs[|s| + 1] == ""
                  && forall k :: 0 <= k < |s| ==> cs[k + 1] == [s[k]])
  {
    var i := Find(s, p).value;
    if every && p != "" {
      PiecesAreLeftmost(s, p);
    }
    if p == "" {
      if every {
        LettersJoined(s);
        JoinStep("", Letters(s) + [""], "");
        assert [""] + (Letters(s) + [""]) == [""] + Letters(s) + [""];
      } else {
        assert [s[..i], s[i..]][1..] == [s[i..]];
        assert s == s[..i] + "" + s[i..];
      }
    }
  }

  lemma {:induction false} LettersJoined(s: string)
    ensures Join(Letters(s) + [""], "") == s
    decreases |s|
  {
    if s == "" {
      assert Letters(s) + [""] == [""];
    } else {
      LettersJoined(s[1..]);
      assert Letters(s) + [""] == [[s[0]]] + (Letters(s[1..]) + [""]);
      JoinStep([s[0]], Letters(s[1..]) + [""], "");
    }
  }

  lemma SubstitutionHasText(e: Edit)
    requires !IsRemoval(e)
    ensures e.text != ""
  {
    EmptyOccurs(e.anchor);
  }

  /** The test that takes the replacement out of the text first, then looks for the anchor. */
  function EraseThenLook(s: string, e: Edit): Verdict {
    var applied :=
      if IsRemoval(e) then !Occurs(e.anchor, s)
      else (SubstitutionHasText(e); !Occurs(e.anchor, Erase(s, e.text)));
    if applied then Applied
    else if !Occurs(e.anchor, s) then NotFound
    else Write
  }

  function Judge(script: Script, s: string, e: Edit): Verdict {
    match script
    case CompileFixes =>
      if Occurs(e.text, s) then Applied
      else if !Occurs(e.anchor, s) then NotFound
      else Write
    case HaikuPlatform => EraseThenLook(s, e)
    case TargetGuards =>
      if e.marker.Some? && Occurs(e.text, s) then Applied
      else if e.marker.Some? && Occurs(e.marker.value, s) then Stale
      else EraseThenLook(s, e)
  }

  predicate ReplacesEvery(script: Script, e: Edit) {
    script == TargetGuards || (script == HaikuPlatform && e.every)
  }

  /** The text of a file after one edit. */
  function Patch(script: Script, s: string, e: Edit): string {
    if Judge(script, s, e) == Write then Replace(s, e.anchor, e.text, ReplacesEvery(script, e)) else s
  }

  // ---- one run of a script over the tree

  function VerdictAt(script: Script, files: Files, e: Edit): Verdict {
    if e.rel in files then Judge(script, files[e.rel], e) else Missing
  }

  function Apply(script: Script, files: Files, e: Edit): Files {
    if e.rel in files then files[e.rel := Patch(script, files[e.rel], e)] else files
  }

  function Run(script: Script, files: Files, edits: seq<Edit>): Files {
    if edits == [] then files
    else Apply(script, Run(script, files, edits[..|edits| - 1]), edits[|edits| - 1])
  }

  function Verdicts(script: Script, files: Files, edits: seq<Edit>): (vs: seq<Verdict>)
    ensures |vs| == |edits|
  {
    if edits == [] then []
    else
      var before := edits[..|edits| - 1];
      Verdicts(script, files, before) + [VerdictAt(script, Run(script, files, before), edits[|edits| - 1])]
  }

  function CountWrites(vs: seq<Verdict>): nat {
    if vs == [] then 0
    else CountWrites(vs[..|vs| - 1]) + if vs[|vs| - 1] == Write then 1 else 0
  }

  lemma NothingRun(script: Script, files: Files)
    ensures Run(script, files, []) == files && Verdicts(script, files, []) == [] && CountWrites([]) == 0
  {
  }

  lemma RunNext(script: Script, files: Files, edits: seq<Edit>, n: nat)
    requires n < |edits|
    ensures var now := Run(script, files, edits[..n]);
            && Run(script, files, edits[..n + 1]) == Apply(script, now, edits[n])
            && Verdicts(script, files, edits[..n + 1]) ==
               Verdicts(script, files, edits[..n]) + [VerdictAt(script, now, edits[n])]
  {
    hide Apply, VerdictAt;
    assert edits[..n + 1][..n] == edits[..n];
  }

  lemma CountNext(vs: seq<Verdict>, v: Verdict)
    ensures CountWrites(vs + [v]) == CountWrites(vs) + if v == Write then 1 else 0
  {
    assert (vs + [v])[..|vs|] == vs;
  }

  /** The source tree a script edits in place. */
  class SourceTree {
    var files: Files

    constructor (files: Files)
      ensures this.files == files
    {
      this.files := files;
    }

    /** port-compile-fixes.py. */
    method FixCompile(edits: seq<Edit>) returns (done: nat, log: seq<Verdict>)
      modifies this
      ensures files == Run(CompileFixes, old(files), edits)
      ensures log == Verdicts(CompileFixes, old(files), edits) && done == CountWrites(log)
    {
      hide Run, Verdicts, CountWrites, Occurs, Replace;
      NothingRun(CompileFixes, files);
      done, log := 0, [];
      for n := 0 to |edits|
        invariant files == Run(CompileFixes, old(files), edits[..n])
        invariant log == Verdicts(CompileFixes, old(files), edits[..n]) && done == CountWrites(log)
      {
        RunNext(CompileFixes, old(files), edits, n);
        var e := edits[n];
        var verdict;
        if e.rel !in files {
          verdict := Missing;
        } else {
          var s := files[e.rel];
          assert files[e.rel := s] == files;
          if Occurs(e.text, s) {
            verdict := Applied;
          } else if !Occurs(e.anchor, s) {
            verdict := NotFound;
          } else {
            files := files[e.rel := Replace(s, e.anchor, e.text, false)];
            done := done + 1;
            verdict := Write;
          }
        }
        CountNext(log, verdict);
        log := log + [verdict];
      }
      assert edits[..|edits|] == edits;
    }

    /** port-haiku-platform.py. */
    method PortPlatform(edits: seq<Edit>) returns (done: nat, log: seq<Verdict>)
      modifies this
      ensures files == Run(HaikuPlatform, old(files), edits)
      ensures log == Verdicts(HaikuPlatform, old(files), edits) && done == CountWrites(log)
    {
      hide Run, Verdicts, CountWrites, EraseThenLook, Replace;
      NothingRun(HaikuPlatform, files);
      done, log := 0, [];
      for n := 0 to |edits|
        invariant files == Run(HaikuPlatform, old(files), edits[..n])
        invariant log == Verdicts(HaikuPlatform, old(files), edits[..n]) && done == CountWrites(log)
      {
        RunNext(HaikuPlatform, old(files), edits, n);
        var e := edits[n];
        var verdict;
        if e.rel !in files {
          verdict := Missing;
        } else {
          var s := files[e.rel];
          assert files[e.rel := s] == files;
          verdict := EraseThenLook(s, e);
          if verdict == Write {
            files := files[e.rel := Replace(s, e.anchor, e.text, e.every)];
            done := done + 1;
          }
        }
        CountNext(log, verdict);
        log := log + [verdict];
      }
      assert edits[..|edits|] == edits;
    }

    /** port-target-guards.py. */
    method GuardTargets(edits: seq<Edit>) returns (done: nat, log: seq<Verdict>)
      modifies this
      ensures files == Run(TargetGuards, old(files), edits)
      ensures log == Verdicts(TargetGuards, old(files), edits) && done == CountWrites(log)
    {
      hide Run, Verdicts, CountWrites, EraseThenLook, Replace, Occurs;
      NothingRun(TargetGuards, files);
      done, log := 0, [];
      for n := 0 to |edits|
        invariant files == Run(TargetGuards, old(files), edits[..n])
        invariant log == Verdicts(TargetGuards, old(files), edits[..n]) && done == CountWrites(log)
      {
        RunNext(TargetGuards, old(files), edits, n);
        var e := edits[n];
        var verdict;
        if e.rel !in files {
          verdict := Missing;
        } else {
          var s := files[e.rel];
          assert files[e.rel := s] == files;
          if e.marker.Some? && Occurs(e.text, s) {
            verdict := Applied;
          } else if e.marker.Some? && Occurs(e.marker.value, s) {
            verdict := Stale;
          } else {
            verdict := EraseThenLook(s, e);
            if verdict == Write {
              files := files[e.rel := Replace(s, e.anchor, e.text, true)];
              done := done + 1;
            }
          }
        }
        CountNext(log, verdict);
        log := log + [verdict];
      }
      assert edits[..|edits|] == edits;
    }
  }
}
