/** Substring search and replacement as Python's `str` does them: leftmost matches, never overlapping. */
module Text {
  import opened Wrappers
  import opened Seqs

  predicate MatchAt(s: string, p: string, i: nat) {
    i + |p| <= |s| && s[i..i + |p|] == p
  }

  /** Python's `p in s`. */
  predicate Occurs(p: string, s: string) {
    exists i: nat :: i <= |s| && MatchAt(s, p, i)
  }

  /** Python's `s.find(p)`: the leftmost match. */
  function Find(s: string, p: string): (r: Option<nat>)
    ensures r.Some? ==> MatchAt(s, p, r.value) && forall j: nat :: j < r.value ==> !MatchAt(s, p, j)
    ensures r.None? <==> !Occurs(p, s)
  {
    FindFrom(s, p, 0)
  }

  function FindFrom(s: string, p: string, i: nat): (r: Option<nat>)
    requires i <= |s|
    ensures r.Some? ==> i <= r.value && MatchAt(s, p, r.value)
    ensures r.Some? ==> forall j: nat :: i <= j < r.value ==> !MatchAt(s, p, j)
    ensures r.None? ==> forall j: nat :: i <= j ==> !MatchAt(s, p, j)
    decreases |s| - i
  {
    if MatchAt(s, p, i) then Some(i)
    else if i < |s| then FindFrom(s, p, i + 1)
    else None
  }

  /** Python's `s.split(p)`: what lies between the leftmost, non-overlapping matches of p. */
  function Pieces(s: string, p: string): (ps: seq<string>)
    requires p != ""
    ensures |ps| >= 1
    ensures |ps| == 1 <==> !Occurs(p, s)
    ensures Join(ps, p) == s
    decreases |s|
  {
    match Find(s, p)
    case None => [s]
    case Some(i) =>
      assert s == s[..i] + p + s[i + |p|..];
      [s[..i]] + Pieces(s[i + |p|..], p)
  }

  /** Python's `sep.join(ps)`. */
  function Join(ps: seq<string>, sep: string): string
    requires |ps| >= 1
  {
    if |ps| == 1 then ps[0] else ps[0] + sep + Join(ps[1..], sep)
  }

  /** `s.replace(p, "")`. */
  function Erase(s: string, p: string): string
    requires p != ""
  {
    Join(Pieces(s, p), "")
  }

  // ---- occurrences

  lemma EmptyOccurs(s: string)
    ensures Occurs("", s)
  {
    assert MatchAt(s, "", 0);
  }

  lemma OccursInside(a: string, p: string, b: string)
    ensures Occurs(p, a + p + b)
  {
    assert MatchAt(a + p + b, p, |a|);
  }

  lemma OccursTransitive(p: string, q: string, s: string)
    requires Occurs(p, q) && Occurs(q, s)
    ensures Occurs(p, s)
  {
    var i: nat :| i <= |q| && MatchAt(q, p, i);
    var j: nat :| j <= |s| && MatchAt(s, q, j);
    SliceOfSlice(s, j, j + |q|, i, i + |p|);
    assert MatchAt(s, p, j + i);
  }

  lemma OccursWiden(a: string, s: string, b: string, p: string)
    requires Occurs(p, s)
    ensures Occurs(p, a + s + b)
  {
    OccursInside(a, s, b);
    OccursTransitive(p, s, a + s + b);
  }

  lemma OccursLength(p: string, s: string)
    requires Occurs(p, s)
    ensures |p| <= |s| && (|p| == |s| ==> p == s)
  {
  }

  lemma SymbolsOfPart(c: char, p: string, s: string)
    requires c in p
    ensures Occurs(p, s) ==> c in s
  {
    if Occurs(p, s) {
      var i: nat :| i <= |s| && MatchAt(s, p, i);
      var k :| 0 <= k < |p| && p[k] == c;
      assert s[i..i + |p|][k] == s[i + k];
    }
  }

  lemma {:induction false} OccursInJoin(ps: seq<string>, sep: string, k: nat, p: string)
    requires k < |ps| && Occurs(p, ps[k])
    ensures Occurs(p, Join(ps, sep))
  {
    if |ps| == 1 {
    } else if k == 0 {
      OccursWiden("", ps[0], sep + Join(ps[1..], sep), p);
      assert "" + ps[0] + (sep + Join(ps[1..], sep)) == Join(ps, sep);
    } else {
      OccursInJoin(ps[1..], sep, k - 1, p);
      OccursWiden(ps[0] + sep, Join(ps[1..], sep), "", p);
      assert ps[0] + sep + Join(ps[1..], sep) + "" == Join(ps, sep);
    }
  }

  lemma SeparatorInJoin(ps: seq<string>, sep: string)
    requires |ps| >= 2
    ensures Occurs(sep, Join(ps, sep))
  {
    OccursInside(ps[0], sep, Join(ps[1..], sep));
  }

  // ---- where a joined text holds a pattern

  function Last(s: string, n: nat): string {
    if n < |s| then s[|s| - n..] else s
  }

  function First(s: string, n: nat): string {
    if n < |s| then s[..n] else s
  }

  lemma OccursAtSeam(g: string, q: string, t: string, p: string)
    requires p != ""
    ensures Occurs(p, g + q + t) <==>
            Occurs(p, g) || Occurs(p, t) || Occurs(p, Last(g, |p| - 1) + q + First(t, |p| - 1))
  {
    var n := |p| - 1;
    var a, b := Last(g, n), First(t, n);
    var o := |g| - |a|;
    assert g[o..] == a && t[..|b|] == b;
    OccursFromParts(g, q, t, p, o, |b|);
    if Occurs(p, g + q + t) {
      var i: nat :| i <= |g + q + t| && MatchAt(g + q + t, p, i);
      MatchAtSeam(g, q, t, p, o, |b|, i);
    }
  }

  lemma MatchAtSeam(g: string, q: string, t: string, p: string, o: nat, n: nat, i: nat)
    requires o <= |g| && n <= |t| && MatchAt(g + q + t, p, i)
    requires o == 0 || |p| - 1 <= |g| - o
    requires n == |t| || |p| - 1 <= n
    ensures Occurs(p, g) || Occurs(p, t) || Occurs(p, g[o..] + q + t[..n])
  {
    var s := g + q + t;
    if i + |p| <= |g| {
      MatchInPrefix(g, s, p, i);
    } else if i >= |g + q| {
      assert s[|g + q|..] == t;
      SliceOfSlice(s, |g + q|, |s|, i - |g + q|, i - |g + q| + |p|);
      assert MatchAt(t, p, i - |g + q|);
    } else {
      var w := g[o..] + q + t[..n];
      assert s[o..o + |w|] == w;
      SliceOfSlice(s, o, o + |w|, i - o, i - o + |p|);
      assert MatchAt(w, p, i - o);
    }
  }

  lemma OccursFromParts(g: string, q: string, t: string, p: string, o: nat, n: nat)
    requires o <= |g| && n <= |t|
    ensures Occurs(p, g) || Occurs(p, t) || Occurs(p, g[o..] + q + t[..n]) ==> Occurs(p, g + q + t)
  {
    var s := g + q + t;
    assert "" + g + (q + t) == s && g + q + t + "" == s;
    assert g[..o] + (g[o..] + q + t[..n]) + t[n..] == s;
    if Occurs(p, g) { OccursWiden("", g, q + t, p); }
    if Occurs(p, t) { OccursWiden(g + q, t, "", p); }
    if Occurs(p, g[o..] + q + t[..n]) { OccursWiden(g[..o], g[o..] + q + t[..n], t[n..], p); }
  }

  /** The text around join k, n characters of it on either side, over further joins where pieces are short. */
  function Seam(ps: seq<string>, sep: string, k: nat, n: nat): string
    requires k + 1 < |ps|
  {
    Last(ps[k], n) + sep + First(Join(ps[k + 1..], sep), n)
  }

  predicate InPiece(p: string, ps: seq<string>, k: nat) {
    k < |ps| && Occurs(p, ps[k])
  }

  /** The pattern is found at join k, with less than its own length to either side. */
  predicate AtSeam(p: string, ps: seq<string>, sep: string, k: nat) {
    p != "" && k + 1 < |ps| && Occurs(p, Seam(ps, sep, k, |p| - 1))
  }

  /** A pattern is in a joined text exactly when it is in a piece or at a join. */
  lemma {:induction false} OccursInPieces(ps: seq<string>, sep: string, p: string)
    requires p != "" && |ps| >= 1
    ensures Occurs(p, Join(ps, sep)) <==>
            (exists k: nat :: InPiece(p, ps, k)) || (exists k: nat :: AtSeam(p, ps, sep, k))
  {
    if |ps| == 1 {
      assert InPiece(p, ps, 0) <==> Occurs(p, Join(ps, sep));
    } else {
      var tail := ps[1..];
      OccursInPieces(tail, sep, p);
      OccursAtSeam(ps[0], sep, Join(tail, sep), p);
      assert InPiece(p, ps, 0) <==> Occurs(p, ps[0]);
      assert AtSeam(p, ps, sep, 0) <==> Occurs(p, Last(ps[0], |p| - 1) + sep + First(Join(tail, sep), |p| - 1));
      forall k: nat ensures InPiece(p, tail, k) <==> InPiece(p, ps, k + 1) { }
      forall k: nat ensures AtSeam(p, tail, sep, k) <==> AtSeam(p, ps, sep, k + 1) {
        if k + 1 < |tail| { assert tail[k + 1..] == ps[k + 2..]; }
      }
      hide Occurs, InPiece, AtSeam;
      assert forall k: nat :: k > 0 ==> (InPiece(p, ps, k) <==> InPiece(p, tail, k - 1));
      assert forall k: nat :: k > 0 ==> (AtSeam(p, ps, sep, k) <==> AtSeam(p, tail, sep, k - 1));
    }
  }

  // ---- the leftmost decomposition is the only one of its kind

  /** No match of p begins inside a piece, whether it ends in the piece or runs into the separator after it. */
  ghost predicate Leftmost(ps: seq<string>, p: string) {
    && |ps| >= 1
    && !Occurs(p, ps[|ps| - 1])
    && forall k: nat, i: nat :: k < |ps| - 1 && i < |ps[k]| ==> !MatchAt(ps[k] + p, p, i)
  }

  lemma MatchInPrefix(s: string, t: string, p: string, i: nat)
    requires s <= t && i + |p| <= |s|
    ensures MatchAt(s, p, i) <==> MatchAt(t, p, i)
  {
    assert s[i..i + |p|] == t[i..i + |p|];
  }

  lemma {:induction false} PiecesAreLeftmost(s: string, p: string)
    requires p != ""
    ensures Leftmost(Pieces(s, p), p)
    decreases |s|
  {
    if Occurs(p, s) {
      var i := Find(s, p).value;
      PiecesStep(s, p, i);
      PiecesAreLeftmost(s[i + |p|..], p);
      forall j: nat | j < i ensures !MatchAt(s[..i] + p, p, j) {
        assert s[..i] + p == s[..i + |p|];
        MatchInPrefix(s[..i + |p|], s, p, j);
      }
      LeftmostCons(s[..i], Pieces(s[i + |p|..], p), p);
    }
  }

  lemma LeftmostCons(a: string, ps: seq<string>, p: string)
    requires Leftmost(ps, p) && forall j: nat :: j < |a| ==> !MatchAt(a + p, p, j)
    ensures Leftmost([a] + ps, p)
  {
    hide Occurs, MatchAt;
    var all := [a] + ps;
    forall k: nat, j: nat | k < |all| - 1 && j < |all[k]| ensures !MatchAt(all[k] + p, p, j) {
      assert k > 0 ==> all[k] == ps[k - 1];
    }
    assert all[|all| - 1] == ps[|ps| - 1];
  }

  lemma {:induction false} LeftmostIsPieces(ps: seq<string>, p: string)
    requires p != "" && Leftmost(ps, p)
    ensures Pieces(Join(ps, p), p) == ps
    decreases |ps|
  {
    var s := Join(ps, p);
    if |ps| == 1 {
    } else {
      var tail := ps[1..];
      forall k: nat, i: nat | k < |tail| - 1 && i < |tail[k]| ensures !MatchAt(tail[k] + p, p, i) {
        assert tail[k] == ps[k + 1];
      }
      LeftmostIsPieces(tail, p);
      assert MatchAt(s, p, |ps[0]|);
      forall j: nat | j < |ps[0]| ensures !MatchAt(s, p, j) {
        MatchInPrefix(ps[0] + p, s, p, j);
      }
      assert Find(s, p) == Some(|ps[0]|);
      assert s[|ps[0]| + |p|..] == Join(tail, p);
    }
  }

  // ---- erasing an insertion

  /** No match of p begins in g and ends in a copy of p placed right after g. */
  predicate StraddleFree(g: string, p: string) {
    forall i: nat :: i < |g| && |g| < i + |p| ==> !MatchAt(g + p, p, i)
  }

  lemma FindInsertion(g: string, p: string, t: string)
    requires p != "" && StraddleFree(g, p)
    ensures Find(g + p + t, p) == if Occurs(p, g) then Find(g, p) else Some(|g|)
  {
    var s := g + p + t;
    assert MatchAt(s, p, |g|);
    forall j: nat | j < |g| ensures MatchAt(s, p, j) <==> MatchAt(g, p, j) {
      if j + |p| <= |g| { MatchInPrefix(g, s, p, j); } else { MatchInPrefix(g + p, s, p, j); }
    }
    FindIs(s, p, if Occurs(p, g) then Find(g, p).value else |g|);
  }

  lemma FindIs(s: string, p: string, i: nat)
    requires MatchAt(s, p, i) && forall j: nat :: j < i ==> !MatchAt(s, p, j)
    ensures Find(s, p) == Some(i)
  {
  }

  lemma StraddleFreeSuffix(g: string, p: string, n: nat)
    requires n <= |g| && StraddleFree(g, p)
    ensures StraddleFree(g[n..], p)
  {
    forall j: nat | j < |g| - n && |g| - n < j + |p| ensures !MatchAt(g[n..] + p, p, j) {
      assert g[n..] + p == (g + p)[n..];
      assert !MatchAt(g + p, p, n + j);
      if j + |p| <= |g| - n + |p| {
        SliceOfSlice(g + p, n, |g| + |p|, j, j + |p|);
      }
    }
  }

  lemma {:induction false} EraseInsertion(g: string, p: string, t: string)
    requires p != "" && StraddleFree(g, p)
    ensures Erase(g + p + t, p) == Erase(g, p) + Erase(t, p)
    decreases |g|
  {
    FindInsertion(g, p, t);
    if Occurs(p, g) {
      var i := Find(g, p).value;
      StraddleFreeSuffix(g, p, i + |p|);
      EraseInsertion(g[i + |p|..], p, t);
      EraseBothFrom(g, p, t, i);
    } else {
      EraseStep(g + p + t, p, |g|);
      assert (g + p + t)[..|g|] == g && (g + p + t)[|g| + |p|..] == t;
    }
  }

  lemma EraseBothFrom(g: string, p: string, t: string, i: nat)
    requires p != "" && i + |p| <= |g| && Find(g, p) == Some(i) && Find(g + p + t, p) == Some(i)
    requires Erase(g[i + |p|..] + p + t, p) == Erase(g[i + |p|..], p) + Erase(t, p)
    ensures Erase(g + p + t, p) == Erase(g, p) + Erase(t, p)
  {
    hide *;
    EraseStep(g + p + t, p, i);
    EraseStep(g, p, i);
    SplitInsertion(g, p, t, i, i + |p|);
    Associative(g[..i], Erase(g[i + |p|..], p), Erase(t, p));
  }

  lemma SplitInsertion(g: string, p: string, t: string, i: nat, j: nat)
    requires i <= |g| && j <= |g|
    ensures (g + p + t)[..i] == g[..i] && (g + p + t)[j..] == g[j..] + p + t
  {
  }

  lemma EraseStep(s: string, p: string, i: nat)
    requires p != "" && Find(s, p) == Some(i)
    ensures i + |p| <= |s| && Erase(s, p) == s[..i] + Erase(s[i + |p|..], p)
  {
    hide *;
    PiecesStep(s, p, i);
    ErasePieces(s, p);
    ErasePieces(s[i + |p|..], p);
    JoinStep(s[..i], Pieces(s[i + |p|..], p), "");
    assert s[..i] + "" == s[..i];
  }

  lemma ErasePieces(s: string, p: string)
    requires p != ""
    ensures |Pieces(s, p)| >= 1 && Erase(s, p) == Join(Pieces(s, p), "")
  {
    hide Pieces, Join;
  }

  lemma PiecesStep(s: string, p: string, i: nat)
    requires p != "" && Find(s, p) == Some(i)
    ensures i + |p| <= |s| && Pieces(s, p) == [s[..i]] + Pieces(s[i + |p|..], p)
  {
    assert i + |p| <= |s|;
    hide Find, Occurs, Join, MatchAt;
  }

  lemma JoinStep(a: string, ps: seq<string>, sep: string)
    requires |ps| >= 1
    ensures Join([a] + ps, sep) == a + sep + Join(ps, sep)
  {
    assert ([a] + ps)[1..] == ps;
  }

  /** Each piece with its own copies of p erased. */
  function EraseEach(ps: seq<string>, p: string): (rs: seq<string>)
    requires p != ""
    ensures |rs| == |ps| && forall k :: 0 <= k < |ps| ==> rs[k] == Erase(ps[k], p)
  {
    if ps == [] then [] else [Erase(ps[0], p)] + EraseEach(ps[1..], p)
  }

  /** Erasing p from pieces joined by p undoes exactly the joins. */
  lemma {:induction false} EraseJoined(ps: seq<string>, p: string)
    requires p != "" && |ps| >= 1
    requires forall k: nat :: k < |ps| - 1 ==> StraddleFree(ps[k], p)
    ensures Erase(Join(ps, p), p) == Join(EraseEach(ps, p), "")
  {
    if |ps| == 1 {
    } else {
      var tail := ps[1..];
      forall k: nat | k < |tail| - 1 ensures StraddleFree(tail[k], p) { assert tail[k] == ps[k + 1]; }
      EraseJoined(tail, p);
      assert StraddleFree(ps[0], p);
      EraseInsertion(ps[0], p, Join(tail, p));
      assert EraseEach(ps, p)[1..] == EraseEach(tail, p);
    }
  }

  /**
   What erasing p leaves of g and the pieces after it, joined by p: a match of p may begin in a piece and end in the
   copy of p behind it, of which the end is then left over.
   */
  function Remains(g: string, ps: seq<string>, p: string): string
    requires p != ""
    decreases |ps|, |g|
  {
    if ps == [] then Erase(g, p)
    else
      FindInOrAfter(g, p);
      var i := Find(g + p, p).value;
      if i + |p| <= |g| then g[..i] + Remains(g[i + |p|..], ps, p)
      else g[..i] + Remains(p[i + |p| - |g|..] + ps[0], ps[1..], p)
  }

  lemma FindInOrAfter(g: string, p: string)
    ensures Find(g + p, p).Some? && Find(g + p, p).value <= |g|
  {
    assert MatchAt(g + p, p, |g|);
  }

  lemma {:induction false} RemainsOfJoined(g: string, ps: seq<string>, p: string)
    requires p != ""
    ensures Remains(g, ps, p) == Erase(Join([g] + ps, p), p)
    decreases |ps|, |g|
  {
    hide Erase, Find, MatchAt, Pieces;
    if ps == [] {
      assert [g] + ps == [g];
    } else {
      JoinStep(g, ps, p);
      var t := Join(ps, p);
      FindInOrAfter(g, p);
      var i := Find(g + p, p).value;
      FindFirstOf(g, p, t);
      EraseStep(g + p + t, p, i);
      if i + |p| <= |g| {
        RemainsOfJoined(g[i + |p|..], ps, p);
        JoinStep(g[i + |p|..], ps, p);
        SplitInsertion(g, p, t, i, i + |p|);
      } else {
        var o := i + |p| - |g|;
        RemainsOfJoined(p[o..] + ps[0], ps[1..], p);
        JoinGrown(p[o..], ps, p);
        assert (g + p + t)[i + |p|..] == p[o..] + t;
        assert (g + p + t)[..i] == g[..i];
      }
    }
  }

  lemma FindFirstOf(g: string, p: string, t: string)
    requires Find(g + p, p).Some?
    ensures Find(g + p + t, p) == Find(g + p, p)
  {
    var i := Find(g + p, p).value;
    forall j: nat | j <= i ensures MatchAt(g + p, p, j) <==> MatchAt(g + p + t, p, j) {
      if j + |p| <= |g + p| { MatchInPrefix(g + p, g + p + t, p, j); }
    }
    FindIs(g + p + t, p, i);
  }

  lemma JoinGrown(a: string, ps: seq<string>, sep: string)
    requires |ps| >= 1
    ensures Join([a + ps[0]] + ps[1..], sep) == a + Join(ps, sep)
  {
    assert ([a + ps[0]] + ps[1..])[1..] == ps[1..];
  }

  // ---- two ways a caller can see that nothing straddles

  /** Two different matches of w never overlap: no proper prefix of w is a suffix of w. */
  predicate Unbordered(w: string) {
    w != "" && forall k: nat :: 0 < k < |w| ==> w[k..] != w[..|w| - k]
  }

  lemma OverlapIsBorder(s: string, w: string, i: nat, k: nat)
    requires MatchAt(s, w, i) && MatchAt(s, w, i + k) && k <= |w|
    ensures w[k..] == w[..|w| - k]
  {
    SliceOfSlice(s, i, i + |w|, k, |w|);
    SliceOfSlice(s, i + k, i + k + |w|, 0, |w| - k);
  }

  lemma UnborderedApart(s: string, w: string, i: nat, j: nat)
    requires Unbordered(w) && MatchAt(s, w, i) && MatchAt(s, w, j) && i < j
    ensures i + |w| <= j
  {
    if j < i + |w| {
      OverlapIsBorder(s, w, i, j - i);
    }
  }

  /** A replacement x + w + y cannot straddle after g when w is unbordered and absent from g + x. */
  lemma FreshWordNeverStraddles(g: string, x: string, w: string, y: string)
    requires Unbordered(w) && !Occurs(w, g + x)
    ensures StraddleFree(g, x + w + y)
  {
    var p := x + w + y;
    forall i: nat | i < |g| && |g| < i + |p| ensures !MatchAt(g + p, p, i) {
      if MatchAt(g + p, p, i) {
        var s := g + p;
        assert s[i + |x|..i + |x| + |w|] == p[|x|..|x| + |w|] == w by {
          assert s[i..i + |p|][|x|..|x| + |w|] == s[i + |x|..i + |x| + |w|];
        }
        assert MatchAt(s, w, i + |x|);
        assert s[|g| + |x|..|g| + |x| + |w|] == w;
        assert MatchAt(s, w, |g| + |x|);
        UnborderedApart(s, w, i + |x|, |g| + |x|);
        assert g + x == s[..|g| + |x|];
        MatchInPrefix(g + x, s, w, i + |x|);
        assert false;
      }
    }
  }

  lemma UnborderedNeverStraddles(g: string, p: string)
    requires Unbordered(p)
    ensures StraddleFree(g, p)
  {
    forall i: nat | i < |g| && |g| < i + |p| ensures !MatchAt(g + p, p, i) {
      if MatchAt(g + p, p, i) {
        assert MatchAt(g + p, p, |g|);
        UnborderedApart(g + p, p, i, |g|);
        assert false;
      }
    }
  }
}
