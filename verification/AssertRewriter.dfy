/** port-os-asserts.py: the pattern it searches for, what it writes for a match, and the substitution over a text. */
module AssertRewriter {
  import opened Wrappers
  import opened Seqs
  import opened Text

  const OPEN := "assert("
  const LINUX := "is_linux"
  const HAIKU := "is_haiku"
  const SUFFIX := " || is_haiku"
  const MAX_BODY := 400

  /**
   The pattern matches at the start of u with n characters before `is_linux` and m between it and the
   closing comma or parenthesis; neither stretch holds a semicolon.
   */
  predicate Candidate(u: string, n: nat, m: nat) {
    && MatchAt(u, OPEN, 0)
    && MatchAt(u, LINUX, 7 + n)
    && 15 + n + m < |u|
    && (u[15 + n + m] == ',' || u[15 + n + m] == ')')
    && forall k :: 7 <= k < 15 + n + m ==> u[k] != ';'
  }

  /** Both stretches are lazy: the first as short as possible, then the second. */
  ghost predicate LazyMatch(u: string, n: nat, m: nat) {
    && Candidate(u, n, m)
    && forall n': nat, m': nat :: Candidate(u, n', m') ==> n < n' || (n == n' && m <= m')
  }

  lemma LazyMatchUnique(u: string, n: nat, m: nat, n': nat, m': nat)
    requires LazyMatch(u, n, m) && LazyMatch(u, n', m')
    ensures n == n' && m == m'
  {
  }

  /** The end of the run of characters other than semicolons, commas and closing parentheses that starts at i. */
  function PlainEnd(u: string, i: nat): (j: nat)
    requires i <= |u|
    ensures i <= j <= |u|
    ensures forall k :: i <= k < j ==> u[k] != ';' && u[k] != ',' && u[k] != ')'
    ensures j < |u| ==> u[j] == ';' || u[j] == ',' || u[j] == ')'
    decreases |u| - i
  {
    if i == |u| || u[i] == ';' || u[i] == ',' || u[i] == ')' then i else PlainEnd(u, i + 1)
  }

  /** The match of the pattern at the start of u, if it has one. */
  function MatchHere(u: string): (r: Option<(nat, nat)>)
    ensures r.Some? ==> LazyMatch(u, r.value.0, r.value.1)
    ensures r.None? ==> forall n: nat, m: nat :: !Candidate(u, n, m)
  {
    if !MatchAt(u, OPEN, 0) then None
    else
      match Find(u[7..], LINUX)
      case None => NoName(u); None
      case Some(n) =>
        FirstName(u, n);
        var end := PlainEnd(u, 15 + n);
        if ';' in u[7..7 + n] || end == |u| || u[end] == ';' then
          NoTail(u, n, end);
          None
        else
          FirstTail(u, n, end);
          Some((n, end - 15 - n))
  }

  lemma NoName(u: string)
    requires |u| >= 7 && !Occurs(LINUX, u[7..])
    ensures forall n: nat, m: nat :: !Candidate(u, n, m)
  {
    forall n: nat, m: nat ensures !Candidate(u, n, m) {
      if 7 + n <= |u| { MatchShift(u, 7, LINUX, n); }
      assert !MatchAt(u[7..], LINUX, n);
    }
  }

  /** n is the offset of the first `is_linux` after the opening. */
  ghost predicate FirstNameAt(u: string, n: nat) {
    MatchAt(u, LINUX, 7 + n) && forall k: nat :: 7 <= k < 7 + n ==> !MatchAt(u, LINUX, k)
  }

  lemma FirstName(u: string, n: nat)
    requires |u| >= 7 && Find(u[7..], LINUX) == Some(n)
    ensures FirstNameAt(u, n)
  {
    MatchShift(u, 7, LINUX, n);
    forall k: nat | 7 <= k < 7 + n ensures !MatchAt(u, LINUX, k) {
      assert !MatchAt(u[7..], LINUX, k - 7);
      MatchShift(u, 7, LINUX, k - 7);
    }
  }

  lemma NoTail(u: string, n: nat, end: nat)
    requires FirstNameAt(u, n) && end == PlainEnd(u, 15 + n)
    requires ';' in u[7..7 + n] || end == |u| || u[end] == ';'
    ensures forall n': nat, m': nat :: !Candidate(u, n', m')
  {
    assert ';' in u[7..7 + n] ==> exists k :: 7 <= k < 7 + n && u[k] == ';';
  }

  lemma FirstTail(u: string, n: nat, end: nat)
    requires FirstNameAt(u, n) && MatchAt(u, OPEN, 0) && end == PlainEnd(u, 15 + n)
    requires ';' !in u[7..7 + n] && end < |u| && u[end] != ';'
    ensures LazyMatch(u, n, end - 15 - n)
  {
    forall k | 7 <= k < end ensures u[k] != ';' {
      if k < 7 + n {
        assert u[k] == u[7..7 + n][k - 7];
      } else if k < 15 + n {
        assert u[k] == LINUX[k - 7 - n];
      }
    }
  }

  /** Python's `c.isspace()`. */
  predicate IsSpace(c: char) {
    || c == ' ' || '\t' <= c <= '\r' || '\U{1c}' <= c <= '\U{1f}' || c == '\U{85}' || c == '\U{a0}'
    || c == '\U{1680}' || '\U{2000}' <= c <= '\U{200a}' || c == '\U{2028}' || c == '\U{2029}'
    || c == '\U{202f}' || c == '\U{205f}' || c == '\U{3000}'
  }

  /** Python's `s.rstrip()`. */
  function Rstrip(s: string): (r: string)
    ensures r <= s
    ensures r == "" || !IsSpace(r[|r| - 1])
    ensures forall k :: |r| <= k < |s| ==> IsSpace(s[k])
  {
    if s != "" && IsSpace(s[|s| - 1]) then Rstrip(s[..|s| - 1]) else s
  }

  /** The bodies `fix` leaves alone. */
  predicate Declines(body: string) {
    Occurs(HAIKU, body) || |body| > MAX_BODY || Occurs("\n\n", body) || Occurs("==", body) || Occurs("!=", body)
  }

  /** What becomes of a body. */
  function FixedBody(body: string): string {
    if Declines(body) then body else Rstrip(body) + SUFFIX
  }

  /** `fix`: what replaces a match whose first group is `body` and whose second is `tail`. */
  function Fix(body: string, tail: char): string {
    if Declines(body)
    then OPEN + body + [tail]
    else OPEN + Rstrip(body) + SUFFIX + [tail]
  }

  /** The leftmost offset from i on at which the pattern matches. */
  function NextMatch(t: string, i: nat): (r: Option<nat>)
    requires i <= |t|
    ensures r.Some? ==> i <= r.value <= |t| && MatchHere(t[r.value..]).Some?
    decreases |t| - i
  {
    if MatchHere(t[i..]).Some? then Some(i)
    else if i < |t| then NextMatch(t, i + 1)
    else None
  }

  lemma {:induction false} NextMatchIsLeftmost(t: string, i: nat)
    requires i <= |t|
    ensures forall j :: i <= j <= |t| && (NextMatch(t, i).Some? ==> j < NextMatch(t, i).value) ==>
            MatchHere(t[j..]).None?
    decreases |t| - i
  {
    hide MatchHere;
    if MatchHere(t[i..]).None? && i < |t| { NextMatchIsLeftmost(t, i + 1); }
  }

  /** What `fix` makes of the match at the start of u. */
  function FixHere(u: string): string
    requires MatchHere(u).Some?
  {
    var (n, m) := MatchHere(u).value;
    Fix(u[7..15 + n + m], u[15 + n + m])
  }

  function EndHere(u: string): (e: nat)
    requires MatchHere(u).Some?
    ensures 0 < e <= |u|
  {
    var (n, m) := MatchHere(u).value;
    16 + n + m
  }

  /** `pattern.sub(fix, text)`. */
  function Rewrite(t: string): string
    decreases |t|
  {
    match NextMatch(t, 0)
    case None => t
    case Some(i) =>
      var u := t[i..];
      t[..i] + FixHere(u) + Rewrite(u[EndHere(u)..])
  }

  // ---- the rewriter is idempotent

  lemma CandidatePrefix(u: string, v: string, n: nat, m: nat)
    requires Candidate(u, n, m) && 16 + n + m <= |v| && u[..16 + n + m] == v[..16 + n + m]
    ensures Candidate(v, n, m)
  {
    var w := u[..16 + n + m];
    assert w[..7] == u[..7] == v[..7];
    assert w[7 + n..15 + n] == u[7 + n..15 + n] == v[7 + n..15 + n];
    assert forall k :: 7 <= k < 16 + n + m ==> u[k] == w[k] == v[k];
  }

  /** Two texts that agree as far as a match reaches have the same match. */
  lemma MatchPrefix(u: string, v: string, n: nat, m: nat)
    requires LazyMatch(u, n, m) && 16 + n + m <= |v| && u[..16 + n + m] == v[..16 + n + m]
    ensures LazyMatch(v, n, m)
  {
    CandidatePrefix(u, v, n, m);
    forall n': nat, m': nat | Candidate(v, n', m') ensures n < n' || (n == n' && m <= m') {
      if n' < n || (n' == n && m' < m) {
        var m'' := if 15 + n' + m' <= 15 + n + m then m' else n + m - n';
        assert v[15 + n + m] == u[..16 + n + m][15 + n + m];
        assert Candidate(v, n', m'');
        CandidatePrefix(v, u, n', m'');
      }
    }
  }

  lemma RstripKeepsName(u: string, n: nat, m: nat)
    requires Candidate(u, n, m)
    ensures |Rstrip(u[7..15 + n + m])| >= n + 8
  {
    var body := u[7..15 + n + m];
    assert body[n + 7] == u[7 + n..15 + n][7] == 'x';
  }

  /** v is u with the part of its body from l on traded for a stretch free of semicolons, commas and parentheses. */
  ghost predicate Relaxed(u: string, n: nat, m: nat, v: string, l: nat) {
    && n + 8 <= l <= n + 8 + m && 20 + l <= |v| && 15 + n + m < |u|
    && u[..7 + l] == v[..7 + l]
    && (forall k :: 7 + l <= k < 19 + l ==> v[k] != ';' && v[k] != ',' && v[k] != ')')
    && v[19 + l] == u[15 + n + m]
  }

  lemma RelaxedAgrees(u: string, v: string, l: nat, k: nat, p: string)
    requires l <= |u| && l <= |v| && u[..l] == v[..l] && k + |p| <= l
    ensures MatchAt(u, p, k) <==> MatchAt(v, p, k)
  {
    MatchInPrefix(u[..l], u, p, k);
    MatchInPrefix(v[..l], v, p, k);
  }

  lemma RelaxedCandidate(u: string, n: nat, m: nat, v: string, l: nat)
    requires Candidate(u, n, m) && Relaxed(u, n, m, v, l)
    ensures Candidate(v, n, l + 4 - n)
  {
    RelaxedAgrees(u, v, 7 + l, 0, OPEN);
    RelaxedAgrees(u, v, 7 + l, 7 + n, LINUX);
    forall k | 7 <= k < 19 + l ensures v[k] != ';' {
      if k < 7 + l { assert v[k] == v[..7 + l][k] == u[k]; }
    }
  }

  lemma CandidateBeforeRelaxed(u: string, n: nat, m: nat, v: string, l: nat, n': nat, m': nat)
    requires Candidate(u, n, m) && Relaxed(u, n, m, v, l)
    requires Candidate(v, n', m') && (n' < n || (n' == n && m' < l + 4 - n))
    ensures exists m'': nat :: Candidate(u, n', m'') && (n' < n || m'' < m)
  {
    RelaxedAgrees(u, v, 7 + l, 7 + n', LINUX);
    if n' < n {
      assert Candidate(u, n', n + m - n');
    } else {
      assert v[15 + n + m'] == v[..7 + l][15 + n + m'] == u[15 + n + m'];
      assert Candidate(u, n, m');
    }
  }

  lemma RelaxedMatches(u: string, n: nat, m: nat, v: string, l: nat)
    requires LazyMatch(u, n, m) && Relaxed(u, n, m, v, l)
    ensures LazyMatch(v, n, l + 4 - n)
  {
    RelaxedCandidate(u, n, m, v, l);
    forall n': nat, m': nat | Candidate(v, n', m') ensures n < n' || (n == n' && l + 4 - n <= m') {
      if n' < n || (n' == n && m' < l + 4 - n) {
        CandidateBeforeRelaxed(u, n, m, v, l, n', m');
      }
    }
  }

  lemma KeptMatchesAgain(u: string, n: nat, m: nat, r: string)
    requires LazyMatch(u, n, m)
    ensures var f := OPEN + u[7..15 + n + m] + [u[15 + n + m]]; LazyMatch(f + r, n, m)
  {
    var f := OPEN + u[7..15 + n + m] + [u[15 + n + m]];
    assert u[..7] == OPEN;
    assert u[..16 + n + m] == f == (f + r)[..16 + n + m];
    MatchPrefix(u, f + r, n, m);
  }

  lemma WidenedMatchesAgain(u: string, n: nat, m: nat, r: string)
    requires LazyMatch(u, n, m)
    ensures var b := Rstrip(u[7..15 + n + m]);
            n + 8 <= |b| && LazyMatch(OPEN + b + SUFFIX + [u[15 + n + m]] + r, n, |b| + 4 - n)
  {
    var body := u[7..15 + n + m];
    RstripKeepsName(u, n, m);
    assert u[..7] == OPEN;
    WidenedIsRelaxed(u, n, m, Rstrip(body), r);
    hide LazyMatch, Relaxed;
    RelaxedMatches(u, n, m, OPEN + Rstrip(body) + SUFFIX + [u[15 + n + m]] + r, |Rstrip(body)|);
  }

  lemma WidenedIsRelaxed(u: string, n: nat, m: nat, b: string, r: string)
    requires 15 + n + m < |u| && u[..7] == OPEN && b <= u[7..15 + n + m] && n + 8 <= |b|
    ensures Relaxed(u, n, m, OPEN + b + SUFFIX + [u[15 + n + m]] + r, |b|)
  {
    var v := OPEN + b + SUFFIX + [u[15 + n + m]] + r;
    assert u[7..7 + |b|] == b;
    assert u[..7 + |b|] == OPEN + b == v[..7 + |b|];
    forall k | 7 + |b| <= k < 19 + |b| ensures v[k] != ';' && v[k] != ',' && v[k] != ')' {
      assert v[k] == SUFFIX[k - 7 - |b|];
    }
  }

  lemma FixCases(body: string, tail: char)
    ensures Fix(body, tail) == OPEN + body + [tail] || Fix(body, tail) == OPEN + Rstrip(body) + SUFFIX + [tail]
    ensures Occurs(HAIKU, body) ==> Fix(body, tail) == OPEN + body + [tail]
  {
    hide Occurs, Rstrip;
  }

  lemma Enclosed(body: string, tail: char)
    ensures var f := OPEN + body + [tail]; OPEN <= f && |f| == |body| + 8 && f[|f| - 1] == tail && f[7..|f| - 1] == body
  {
  }

  lemma SuffixNamesHaiku(b: string)
    ensures Occurs(HAIKU, b + SUFFIX)
  {
    assert b + SUFFIX == (b + " || ") + HAIKU + "";
    OccursInside(b + " || ", HAIKU, "");
  }

  /**
   `fix` leaves a match alone exactly when it names is_haiku, is too long, spans a blank line or compares two things.
   */
  lemma FixDeclinesExactly(body: string, tail: char)
    ensures Fix(body, tail) == OPEN + body + [tail] <==>
            Occurs("is_haiku", body) || |body| > 400 || Occurs("\n\n", body) || Occurs("==", body) || Occurs("!=", body)
  {
    var b := Rstrip(body);
    var f := OPEN + b + SUFFIX + [tail];
    assert f[|b| + 8] == SUFFIX[1] == '|';
    assert |body| > |b| + 1 ==> (OPEN + body + [tail])[|b| + 8] == body[|b| + 1];
    assert |f| == |b| + 20 && |OPEN + body + [tail]| == |body| + 8;
    hide Occurs, Rstrip;
  }

  /** Any other match has ` || is_haiku` put in behind what its body says, trailing blanks gone. */
  lemma FixWrites(body: string, tail: char)
    requires !Occurs("is_haiku", body) && |body| <= 400
    requires !Occurs("\n\n", body) && !Occurs("==", body) && !Occurs("!=", body)
    ensures Fix(body, tail) == "assert(" + Rstrip(body) + " || is_haiku" + [tail]
  {
    hide Occurs, Rstrip;
  }

  /** What the pattern is made of. */
  lemma CandidateExactly(u: string, n: nat, m: nat)
    ensures Candidate(u, n, m) <==>
            && 15 + n + m < |u|
            && u[..7] == "assert(" && u[7 + n..15 + n] == "is_linux"
            && (u[15 + n + m] == ',' || u[15 + n + m] == ')')
            && ';' !in u[7..15 + n + m]
  {
    if 15 + n + m < |u| {
      assert u[0..7] == u[..7];
      var part := u[7..15 + n + m];
      assert ';' in part <==> exists k :: 0 <= k < |part| && part[k] == ';';
      assert forall k :: 0 <= k < |part| ==> part[k] == u[7 + k];
      assert forall k :: 7 <= k < 15 + n + m ==> u[k] == part[k - 7];
    }
  }

  /** Blanks, tabs and ends of line behind a body go. */
  lemma {:induction false} RstripBlanks(s: string, blanks: string)
    requires s == "" || !IsSpace(s[|s| - 1])
    requires forall k :: 0 <= k < |blanks| ==> blanks[k] in " \t\n\r"
    ensures Rstrip(s + blanks) == s
  {
    if blanks == "" {
      assert s + blanks == s;
      RstripPlain(s);
    } else {
      var n := |blanks| - 1;
      RstripBlanks(s, blanks[..n]);
      assert s + blanks == s + blanks[..n] + [blanks[n]];
      RstripOne(s + blanks[..n], blanks[n]);
    }
  }

  lemma RstripOne(s: string, c: char)
    requires c in " \t\n\r"
    ensures Rstrip(s + [c]) == Rstrip(s)
  {
    assert (s + [c])[..|s|] == s;
  }

  lemma FixTwice(body: string, tail: char)
    ensures var f := Fix(body, tail); OPEN <= f && |f| >= 8 && f[|f| - 1] == tail && Fix(f[7..|f| - 1], tail) == f
  {
    hide *;
    var b := Rstrip(body) + SUFFIX;
    FixCases(body, tail);
    Enclosed(body, tail);
    Enclosed(b, tail);
    SuffixNamesHaiku(Rstrip(body));
    FixCases(b, tail);
    assert OPEN + Rstrip(body) + SUFFIX + [tail] == OPEN + b + [tail];
  }

  /** The rewritten match is matched again, at the same place and over its whole length, and is then left alone. */
  lemma FixedMatchesAgain(u: string, n: nat, m: nat, r: string)
    requires LazyMatch(u, n, m)
    ensures 15 + n + m < |u|
    ensures var f := Fix(u[7..15 + n + m], u[15 + n + m]);
            && OPEN <= f && |f| >= 16 + n
            && LazyMatch(f + r, n, |f| - 16 - n) && Fix(f[7..|f| - 1], f[|f| - 1]) == f
  {
    assert 15 + n + m < |u|;
    hide *;
    var body, tail := u[7..15 + n + m], u[15 + n + m];
    FixTwice(body, tail);
    FixCases(body, tail);
    if Fix(body, tail) == OPEN + body + [tail] {
      KeptMatchesAgain(u, n, m, r);
      Enclosed(body, tail);
    } else {
      WidenedMatchesAgain(u, n, m, r);
      WidenedLength(Rstrip(body), tail);
    }
  }

  lemma WidenedLength(b: string, tail: char)
    ensures |OPEN + b + SUFFIX + [tail]| == |b| + 20
  {
  }

  /** A match starting before another match ends before a semicolon that comes first. */
  lemma GapStaysUnmatched(t: string, i: nat, j: nat, f: string, r: string)
    requires j < i <= |t| && OPEN <= f
    requires MatchHere(t[i..]).Some? && MatchHere(t[j..]).None?
    ensures MatchHere((t[..i] + f + r)[j..]).None?
  {
    var w := t[..i] + f + r;
    forall n: nat, m: nat ensures !Candidate(w[j..], n, m) {
      if Candidate(w[j..], n, m) {
        GapCandidate(t, i, j, w, n, m);
      }
    }
  }

  lemma OpenIsUnbordered()
    ensures Unbordered(OPEN)
  {
    assert forall k: nat :: 0 < k < 7 ==> OPEN[k..][0] != 'a';
    assert OPEN[0] == 'a';
  }

  lemma MatchShift(t: string, j: nat, p: string, k: nat)
    requires j + k <= |t|
    ensures MatchAt(t[j..], p, k) <==> MatchAt(t, p, j + k)
  {
    if j + k + |p| <= |t| { SliceOfSlice(t, j, |t|, k, k + |p|); }
  }

  lemma SharedOpening(t: string, i: nat, j: nat, w: string)
    requires j < i && i + 7 <= |w| && i <= |t| && t[..i] == w[..i] && MatchAt(w, OPEN, i) && MatchAt(w[j..], OPEN, 0)
    ensures j + 7 <= i && MatchAt(t[j..], OPEN, 0)
  {
    MatchShift(w, j, OPEN, 0);
    OpenIsUnbordered();
    UnborderedApart(w, OPEN, j, i);
    RelaxedAgrees(t, w, i, j, OPEN);
    MatchShift(t, j, OPEN, 0);
  }

  /** A match cut short by a semicolon lies in front of it. */
  lemma BeforeSemicolon(t: string, i: nat, j: nat, w: string, n: nat, m: nat, k: nat)
    requires j < i <= |t| && i <= |w| && t[..i] == w[..i]
    requires Candidate(w[j..], n, m) && j + 7 <= k < i && t[k] == ';'
    ensures Candidate(t[j..], n, m)
  {
    assert t[k] == t[..i][k] == w[..i][k] == w[k] == w[j..][k - j];
    var e := 16 + n + m;
    assert j + e <= k;
    SliceOfSlice(t, 0, i, j, j + e);
    SliceOfSlice(w, 0, i, j, j + e);
    assert t[j..][..e] == t[j..j + e] && w[j..][..e] == w[j..j + e];
    CandidatePrefix(w[j..], t[j..], n, m);
  }

  /** With no semicolon between them, an opening in front of a match reaches into it. */
  lemma ReachesNextMatch(t: string, i: nat, j: nat, n: nat, m: nat)
    requires j + 7 <= i <= |t| && MatchAt(t[j..], OPEN, 0) && Candidate(t[i..], n, m)
    requires forall k :: j + 7 <= k < i ==> t[k] != ';'
    ensures Candidate(t[j..], i - j + n, m)
  {
    var u, d := t[j..], i - j;
    assert u[d..] == t[i..];
    MatchShift(u, d, LINUX, 7 + n);
    assert 15 + (d + n) + m < |u| && u[15 + (d + n) + m] == t[i..][15 + n + m];
    forall k | 7 <= k < 15 + (d + n) + m ensures u[k] != ';' {
      if k < d {
        assert u[k] == t[j + k];
      } else if k < d + 7 {
        assert u[k] == t[i..][k - d] == t[i..][..7][k - d] == OPEN[k - d];
      } else {
        assert u[k] == t[i..][k - d];
      }
    }
  }

  lemma GapCandidate(t: string, i: nat, j: nat, w: string, n: nat, m: nat)
    requires j < i && i <= |t| && i + 7 <= |w| && t[..i] == w[..i] && MatchAt(w, OPEN, i)
    requires MatchHere(t[i..]).Some? && Candidate(w[j..], n, m)
    ensures MatchHere(t[j..]).Some?
  {
    SharedOpening(t, i, j, w);
    hide *;
    if k :| j + 7 <= k < i && t[k] == ';' {
      BeforeSemicolon(t, i, j, w, n, m, k);
    } else {
      MatchIsCandidate(t[i..]);
      var (n1, m1) := MatchHere(t[i..]).value;
      ReachesNextMatch(t, i, j, n1, m1);
    }
  }

  lemma MatchIsCandidate(u: string)
    requires MatchHere(u).Some?
    ensures Candidate(u, MatchHere(u).value.0, MatchHere(u).value.1)
  {
  }

  lemma MatchHereIs(u: string, n: nat, m: nat)
    requires LazyMatch(u, n, m)
    ensures MatchHere(u) == Some((n, m))
  {
    var r := MatchHere(u);
    assert r.Some?;
    LazyMatchUnique(u, n, m, r.value.0, r.value.1);
  }

  lemma NextMatchIs(t: string, i: nat, j: nat)
    requires i <= j <= |t| && MatchHere(t[j..]).Some?
    requires forall k :: i <= k < j ==> MatchHere(t[k..]).None?
    ensures NextMatch(t, i) == Some(j)
  {
    hide MatchHere;
    NextMatchIsLeftmost(t, i);
  }

  lemma RewriteAt(t: string, i: nat)
    requires NextMatch(t, 0) == Some(i)
    ensures Rewrite(t) == t[..i] + FixHere(t[i..]) + Rewrite(t[i..][EndHere(t[i..])..])
  {
  }

  lemma FixHereIs(u: string, n: nat, m: nat)
    requires LazyMatch(u, n, m)
    ensures 15 + n + m < |u| && MatchHere(u).Some? && EndHere(u) == 16 + n + m
    ensures FixHere(u) == Fix(u[7..15 + n + m], u[15 + n + m])
  {
    hide *;
    MatchHereIs(u, n, m);
    MatchIsLazy(u);
    FixAt(u, n, m);
  }

  lemma FixAt(u: string, n: nat, m: nat)
    requires MatchHere(u) == Some((n, m)) && 15 + n + m < |u|
    ensures EndHere(u) == 16 + n + m && FixHere(u) == Fix(u[7..15 + n + m], u[15 + n + m])
  {
    hide MatchHere, Fix, LazyMatch;
  }

  /** What a rewritten text is when its tail is already settled: settled as well. */
  lemma RewrittenOnce(t: string, i: nat, r: string)
    requires NextMatch(t, 0) == Some(i) && Rewrite(r) == r
    ensures var w := t[..i] + FixHere(t[i..]) + r; Rewrite(w) == w
  {
    hide *;
    var u := t[i..];
    MatchIsLazy(u);
    NextMatchIsLeftmost(t, 0);
    var (n, m) := MatchHere(u).value;
    var f := FixHere(u);
    var w := t[..i] + f + r;
    FixHereIs(u, n, m);
    FixedMatchesAgain(u, n, m, r);
    FixedPieces(f, n, r);
    forall j | 0 <= j < i ensures MatchHere(w[j..]).None? { GapStaysUnmatched(t, i, j, f, r); }
    Append3(t[..i], f, r);
    NextMatchIs(w, 0, i);
    RewriteAt(w, i);
  }

  lemma MatchIsLazy(u: string)
    requires MatchHere(u).Some?
    ensures var (n, m) := MatchHere(u).value; LazyMatch(u, n, m) && 15 + n + m < |u|
  {
  }

  lemma Append3(a: string, b: string, c: string)
    ensures (a + b + c)[..|a|] == a && (a + b + c)[|a|..] == b + c
  {
  }

  lemma FixedPieces(f: string, n: nat, r: string)
    requires |f| >= 16 + n && LazyMatch(f + r, n, |f| - 16 - n) && Fix(f[7..|f| - 1], f[|f| - 1]) == f
    ensures MatchHere(f + r).Some? && FixHere(f + r) == f && (f + r)[EndHere(f + r)..] == r
  {
    hide *;
    FixHereIs(f + r, n, |f| - 16 - n);
    PrefixPieces(f, r);
  }

  lemma PrefixPieces(f: string, r: string)
    requires |f| >= 8
    ensures (f + r)[7..|f| - 1] == f[7..|f| - 1] && (f + r)[|f| - 1] == f[|f| - 1] && (f + r)[|f|..] == r
  {
  }

  /** Rewriting a rewritten text changes nothing. */
  lemma {:induction false} RewriteIsIdempotent(t: string)
    ensures Rewrite(Rewrite(t)) == Rewrite(t)
    decreases |t|
  {
    if NextMatch(t, 0).Some? {
      var i := NextMatch(t, 0).value;
      var rest := t[i..][EndHere(t[i..])..];
      RewriteIsIdempotent(rest);
      hide *;
      RewriteAt(t, i);
      RewrittenOnce(t, i, Rewrite(rest));
    }
  }

  // ---- what the edit stays inside of

  /** Where a string literal whose text starts at i ends, past its closing quote. */
  function StringEnd(u: string, i: nat): (j: nat)
    requires i <= |u|
    ensures i <= j <= |u| && (i < |u| ==> i < j)
    decreases |u| - i
  {
    if i == |u| then i
    else if u[i] == '"' then i + 1
    else if u[i] == '\\' && i + 1 < |u| then StringEnd(u, i + 2)
    else StringEnd(u, i + 1)
  }

  /** Where the line that goes on at i ends. */
  function LineEnd(u: string, i: nat): (j: nat)
    requires i <= |u|
    ensures i <= j <= |u|
    decreases |u| - i
  {
    if i == |u| || u[i] == '\n' then i else LineEnd(u, i + 1)
  }

  /** The parenthesis that closes one opened `depth` levels up, from i on; those in strings and comments are text. */
  function Closing(u: string, i: nat, depth: nat): (k: Option<nat>)
    requires i <= |u| && depth > 0
    ensures k.Some? ==> i <= k.value < |u| && u[k.value] == ')'
    decreases |u| - i
  {
    if i == |u| then None
    else if u[i] == '"' then Closing(u, StringEnd(u, i + 1), depth)
    else if u[i] == '#' then Closing(u, LineEnd(u, i + 1), depth)
    else if u[i] == '(' then Closing(u, i + 1, depth + 1)
    else if u[i] == ')' then if depth == 1 then Some(i) else Closing(u, i + 1, depth - 1)
    else Closing(u, i + 1, depth)
  }

  predicate IsNameChar(c: char) {
    'a' <= c <= 'z' || 'A' <= c <= 'Z' || '0' <= c <= '9' || c == '_'
  }

  /** Reading t from j on, i is reached outside strings and comments. */
  predicate IsCode(t: string, j: nat, i: nat)
    requires j <= |t| && i <= |t|
    decreases |t| - j
  {
    if j >= i then j == i
    else if t[j] == '"' then IsCode(t, StringEnd(t, j + 1), i)
    else if t[j] == '#' then IsCode(t, LineEnd(t, j + 1), i)
    else IsCode(t, j + 1, i)
  }

  /** An assert call begins at i: outside strings and comments, and not in the middle of a longer name. */
  predicate CallAt(t: string, i: nat) {
    i <= |t| && MatchAt(t, OPEN, i) && IsCode(t, 0, i) && (i == 0 || !IsNameChar(t[i - 1]))
  }

  /** The stretch of t from a to b lies between the parentheses of the assert call that begins at o. */
  predicate InCall(t: string, o: nat, a: nat, b: nat) {
    && CallAt(t, o)
    && Closing(t[o..], 7, 1).Some?
    && o + 7 <= a <= b <= o + Closing(t[o..], 7, 1).value
  }

  /** The parentheses of the call that begins at i hold an is_linux. */
  predicate CallNamesLinux(t: string, i: nat) {
    && CallAt(t, i)
    && Closing(t[i..], 7, 1).Some?
    && Occurs(LINUX, t[i + 7..i + Closing(t[i..], 7, 1).value])
  }

  /**
   Of a match at i the is_linux it found is at i + 7 + n, and its edit ends at i + 15 + n + m. In any assert call of
   the text, wherever it begins, the edit falls between the parentheses exactly when that is_linux does.
   */
  lemma EditFollowsName(t: string, i: nat, n: nat, m: nat, o: nat)
    requires i <= |t| && MatchHere(t[i..]) == Some((n, m))
    ensures InCall(t, o, i + 7 + n, i + 15 + n + m) <==> InCall(t, o, i + 7 + n, i + 15 + n)
  {
    hide *;
    LazyName(t[i..], n, m);
    CallBounds(t, o, i + 7 + n, i + 15 + n, i + 15 + n + m);
    if InCall(t, o, i + 7 + n, i + 15 + n) {
      var k := CallEnd(t, o, i + 7 + n, i + 15 + n);
      NameBeforeClosing(t[i..], n, m, k - i, n);
    }
  }

  lemma LazyName(u: string, n: nat, m: nat)
    requires MatchHere(u) == Some((n, m))
    ensures LazyMatch(u, n, m) && MatchAt(u, LINUX, 7 + n) && 15 + n + m < |u|
  {
  }

  lemma CallBounds(t: string, o: nat, a: nat, b: nat, c: nat)
    requires a <= b <= c
    ensures InCall(t, o, a, c) ==> InCall(t, o, a, b)
    ensures InCall(t, o, a, b) && c <= o + Closing(t[o..], 7, 1).value ==> InCall(t, o, a, c)
  {
    hide Closing, CallAt;
  }

  lemma CallEnd(t: string, o: nat, a: nat, b: nat) returns (k: nat)
    requires InCall(t, o, a, b)
    ensures k < |t| && b <= k && t[k] == ')' && k == o + Closing(t[o..], 7, 1).value
  {
    k := o + Closing(t[o..], 7, 1).value;
    hide Closing, CallAt;
  }

  /**
   The edit of a match that begins at i falls between the parentheses of an assert call beginning there if and only
   if such a call does begin there and its parentheses hold an is_linux.
   */
  lemma EditStaysInCall(t: string, i: nat, n: nat, m: nat)
    requires i <= |t| && MatchHere(t[i..]) == Some((n, m))
    ensures InCall(t, i, i + 7 + n, i + 15 + n + m) <==> CallNamesLinux(t, i)
  {
    hide *;
    LazyName(t[i..], n, m);
    FirstInCall(t, i, n, m);
  }

  /** Where no assert call begins at i, the edit falls in one exactly when the is_linux found lies in one elsewhere. */
  lemma EditElsewhere(t: string, i: nat, n: nat, m: nat)
    requires i <= |t| && MatchHere(t[i..]) == Some((n, m)) && !CallNamesLinux(t, i)
    ensures var a, b, e := i + 7 + n, i + 15 + n, i + 15 + n + m;
            (exists o: nat :: InCall(t, o, a, e)) <==> (exists o: nat :: o != i && InCall(t, o, a, b))
  {
    hide *;
    EditStaysInCall(t, i, n, m);
    var a, b, e := i + 7 + n, i + 15 + n, i + 15 + n + m;
    if o: nat :| InCall(t, o, a, e) { EditFollowsName(t, i, n, m, o); }
    if o: nat :| o != i && InCall(t, o, a, b) { EditFollowsName(t, i, n, m, o); }
  }

  lemma FirstInCall(t: string, i: nat, n: nat, m: nat)
    requires i <= |t| && LazyMatch(t[i..], n, m)
    ensures InCall(t, i, i + 7 + n, i + 15 + n + m) <==> CallNamesLinux(t, i)
  {
    var u := t[i..];
    if CallAt(t, i) && Closing(u, 7, 1).Some? {
      var k := Closing(u, 7, 1).value;
      SliceOfSlice(t, i, |t|, 7, k);
      assert u[7..k] == t[i + 7..i + k];
      hide CallAt, Closing, LazyMatch, Occurs;
      NameInParentheses(u, n, m, k);
    }
  }

  /** The edit falls before a later closing parenthesis exactly when an is_linux does. */
  lemma NameInParentheses(u: string, n: nat, m: nat, k: nat)
    requires LazyMatch(u, n, m) && 7 <= k < |u| && u[k] == ')'
    ensures 15 + n + m <= k <==> Occurs(LINUX, u[7..k])
  {
    if 15 + n + m <= k {
      SliceOfSlice(u, 7, k, n, n + 8);
      assert MatchAt(u[7..k], LINUX, n);
    }
    if Occurs(LINUX, u[7..k]) {
      var n0: nat :| n0 <= k - 7 && MatchAt(u[7..k], LINUX, n0);
      SliceOfSlice(u, 7, k, n0, n0 + 8);
      assert MatchAt(u, LINUX, 7 + n0);
      NameBeforeClosing(u, n, m, k, n0);
    }
  }

  lemma NameBeforeClosing(u: string, n: nat, m: nat, k: nat, n0: nat)
    requires LazyMatch(u, n, m) && MatchAt(u, LINUX, 7 + n0) && 15 + n0 <= k < |u| && u[k] == ')'
    ensures 15 + n + m <= k
  {
    assert k < 15 + n + m ==> Candidate(u, n0, k - 15 - n0);
    assert k < 15 + n + m ==> n < n0 ==> Candidate(u, n, k - 15 - n);
  }

  // ---- where it leaves it

  /** Characters that neither make `fix` decline nor, in front of is_linux, end or begin its match early. */
  predicate Ordinary(x: string) {
    |x| <= MAX_BODY - 8 && forall c :: c in x ==> c != 's' && c != 'h' && c != ';' && c != '=' && c != '\n'
  }

  /** An opening, a stretch x, an is_linux and a closing parenthesis. */
  function Stretch(x: string): string {
    OPEN + x + LINUX + ")"
  }

  lemma StretchSymbols(x: string, k: nat)
    requires 7 <= k < 16 + |x|
    ensures |Stretch(x)| == 16 + |x|
    ensures k < 7 + |x| ==> Stretch(x)[k] in x
    ensures k >= 7 + |x| ==> Stretch(x)[k] == (LINUX + ")")[k - 7 - |x|]
  {
    if k < 7 + |x| { assert Stretch(x)[k] == x[k - 7]; }
  }

  lemma OrdinaryMatch(x: string)
    requires Ordinary(x)
    ensures LazyMatch(Stretch(x), |x|, 0)
  {
    var u := Stretch(x);
    assert u[..7] == OPEN && u[7 + |x|..15 + |x|] == LINUX;
    assert ';' !in LINUX + ")";
    forall k | 7 <= k < 15 + |x| ensures u[k] != ';' { StretchSymbols(x, k); }
    assert Candidate(u, |x|, 0);
    forall n: nat, m: nat | Candidate(u, n, m) ensures |x| <= n {
      assert u[8 + n] == u[7 + n..15 + n][1] == 's';
      if n < |x| { StretchSymbols(x, 8 + n); }
    }
  }

  lemma OrdinaryFixed(x: string)
    requires Ordinary(x)
    ensures Fix(x + LINUX, ')') == OPEN + (x + LINUX) + SUFFIX + [')']
  {
    var body := x + LINUX;
    assert 'h' !in LINUX && '\n' !in LINUX && '=' !in LINUX;
    assert 'h' !in body && '\n' !in body && '=' !in body;
    SymbolsOfPart('h', HAIKU, body);
    SymbolsOfPart('\n', "\n\n", body);
    SymbolsOfPart('=', "==", body);
    SymbolsOfPart('=', "!=", body);
    RstripPlain(body);
    hide Occurs, Rstrip;
  }

  lemma RstripPlain(s: string)
    requires s == "" || !IsSpace(s[|s| - 1])
    ensures Rstrip(s) == s
  {
  }

  lemma EmptyUnmatched()
    ensures Rewrite("") == ""
  {
  }

  lemma Unopened(u: string)
    requires !MatchAt(u, OPEN, 0)
    ensures MatchHere(u).None?
  {
  }

  lemma OpeningSymbols(t: string, j: nat)
    requires MatchAt(t, OPEN, j)
    ensures j + 7 <= |t| && t[j] == 'a' && t[j + 6] == '('
  {
    assert t[j..j + 7][0] == t[j] && t[j..j + 7][6] == t[j + 6];
  }

  lemma NothingBefore(before: string, u: string, j: nat)
    requires '(' !in before && MatchAt(u, OPEN, 0) && j < |before|
    ensures !MatchAt(before + u, OPEN, j)
  {
    var t := before + u;
    if MatchAt(t, OPEN, j) {
      assert t[|before|..|before| + 7] == u[0..7];
      OpenIsUnbordered();
      UnborderedApart(t, OPEN, j, |before|);
      OpeningSymbols(t, j);
    }
  }

  /** A text with one match: what it becomes. */
  lemma RewriteOnce(t: string, i: nat, n: nat, m: nat, f: string, r: string)
    requires i <= |t| && LazyMatch(t[i..], n, m) && forall j :: 0 <= j < i ==> MatchHere(t[j..]).None?
    requires 15 + n + m < |t[i..]| && Fix(t[i..][7..15 + n + m], t[i..][15 + n + m]) == f
    requires t[i..][16 + n + m..] == r && Rewrite(r) == r
    ensures Rewrite(t) == t[..i] + f + r
  {
    hide *;
    FixHereIs(t[i..], n, m);
    NextMatchIs(t, 0, i);
    RewriteAt(t, i);
  }

  /** What stands between an opening and the first is_linux need not be the condition of an assert. */
  lemma AnyStretchRewritten(before: string, x: string)
    requires '(' !in before && Ordinary(x)
    ensures Rewrite(before + Stretch(x)) == before + (OPEN + (x + LINUX) + SUFFIX + ")")
  {
    hide *;
    var u := Stretch(x);
    var t := before + u;
    OrdinaryMatch(x);
    OrdinaryFixed(x);
    EmptyUnmatched();
    StretchShape(before, x);
    forall j | 0 <= j < |before| ensures MatchHere(t[j..]).None? {
      NothingBefore(before, u, j);
      MatchShift(t, j, OPEN, 0);
      Unopened(t[j..]);
    }
    RewriteOnce(t, |before|, |x|, 0, OPEN + (x + LINUX) + SUFFIX + [')'], "");
    Bare(before + (OPEN + (x + LINUX) + SUFFIX + ")"));
  }

  lemma StretchShape(before: string, x: string)
    ensures var u := Stretch(x);
            && |u| == 16 + |x| && u[7..15 + |x|] == x + LINUX && u[15 + |x|] == ')' && u[16 + |x|..] == ""
            && MatchAt(u, OPEN, 0) && (before + u)[..|before|] == before && (before + u)[|before|..] == u
  {
    var u := Stretch(x);
    assert u[0..7] == OPEN;
  }

  const OVERRUN := "a)if("

  /** An assert that does not name is_linux makes the pattern run on into a condition that selects behaviour. */
  lemma EditLeavesAssert()
    ensures Rewrite(Stretch(OVERRUN)) == OPEN + (OVERRUN + LINUX) + SUFFIX + ")"
    ensures CallAt(Stretch(OVERRUN), 0) && !CallNamesLinux(Stretch(OVERRUN), 0)
  {
    assert Ordinary(OVERRUN);
    hide *;
    var r := OPEN + (OVERRUN + LINUX) + SUFFIX + ")";
    AnyStretchRewritten("", OVERRUN);
    Bare(Stretch(OVERRUN));
    Bare(r);
    OverrunCall();
  }

  lemma Bare(s: string)
    ensures "" + s == s && s + "" == s
  {
  }

  lemma OverrunCall()
    ensures CallAt(Stretch(OVERRUN), 0) && !CallNamesLinux(Stretch(OVERRUN), 0)
  {
    var u := Stretch(OVERRUN);
    StretchShape("", OVERRUN);
    OverrunClosing(u);
    assert u[0..] == u;
    hide Closing;
    EditOfOverrun(u);
  }

  lemma OverrunClosing(u: string)
    requires |u| > 8 && u[7] == 'a' && u[8] == ')'
    ensures Closing(u, 7, 1) == Some(8)
  {
    assert Closing(u, 8, 1) == Some(8);
  }

  lemma EditOfOverrun(u: string)
    requires |u| >= 8 && Closing(u[0..], 7, 1) == Some(8)
    ensures !CallNamesLinux(u, 0)
  {
    hide Closing, CallAt;
    if CallNamesLinux(u, 0) { OccursLength(LINUX, u[7..8]); }
  }

  const QUOTED := "\"if("

  /** Behind an opening quotation mark no code follows at once. */
  lemma QuotedIsText(t: string)
    requires |t| > 1 && t[0] == '"'
    ensures !IsCode(t, 0, 1)
  {
    assert StringEnd(t, 1) > 1;
    assert !IsCode(t, StringEnd(t, 1), 1);
  }

  lemma OneOpening(u: string, x: string, j: nat)
    requires u == Stretch(x) && 'a' !in x && MatchAt("\"" + u, OPEN, j)
    ensures j == 1
  {
    var t := "\"" + u;
    OpeningSymbols(t, j);
    StretchShape("\"", x);
    assert t[1..8] == u[..7] == OPEN;
    OpenIsUnbordered();
    if j > 1 {
      UnborderedApart(t, OPEN, 1, j);
      BehindOpening(x, j - 1);
    }
  }

  lemma BehindOpening(x: string, k: nat)
    requires 'a' !in x && 7 <= k < 16 + |x|
    ensures Stretch(x)[k] != 'a'
  {
    StretchSymbols(x, k);
    assert 'a' !in LINUX + ")";
  }

  /** Nor need there be an assert at all: the opening may stand in a string, and a condition that selects is changed. */
  lemma EditWithoutAssert()
    ensures var t := "\"" + Stretch(QUOTED);
            && Rewrite(t) == "\"" + (OPEN + (QUOTED + LINUX) + SUFFIX + ")")
            && forall i: nat :: !CallAt(t, i)
  {
    var u := Stretch(QUOTED);
    var t := "\"" + u;
    assert Ordinary(QUOTED) && 'a' !in QUOTED;
    hide *;
    AnyStretchRewritten("\"", QUOTED);
    QuotedIsText(t);
    forall i: nat ensures !CallAt(t, i) {
      CallIsCode(t, i);
      if CallAt(t, i) { OneOpening(u, QUOTED, i); }
    }
  }

  lemma CallIsCode(t: string, i: nat)
    ensures CallAt(t, i) ==> i <= |t| && MatchAt(t, OPEN, i) && IsCode(t, 0, i)
  {
    hide IsCode;
  }

  // ---- the walk over the tree

  predicate EndsWith(s: string, t: string) {
    |t| <= |s| && s[|s| - |t|..] == t
  }

  predicate IsGn(path: string) {
    EndsWith(path, ".gn") || EndsWith(path, ".gni")
  }

  /** The files walked over are those whose name ends in .gn or .gni. */
  lemma IsGnExactly(path: string)
    ensures IsGn(path) <==> exists stem: string :: path == stem + ".gn" || path == stem + ".gni"
  {
    if EndsWith(path, ".gn") { assert path == path[..|path| - 3] + ".gn"; }
    if EndsWith(path, ".gni") { assert path == path[..|path| - 4] + ".gni"; }
    forall stem: string | path == stem + ".gn" || path == stem + ".gni" ensures IsGn(path) {
      assert path == stem + ".gn" ==> path[|path| - 3..] == ".gn";
      assert path == stem + ".gni" ==> path[|path| - 4..] == ".gni";
    }
  }

  type Files = map<string, string>

  /** What the files become when the walk has been over `walked`. */
  ghost predicate Walked(was: Files, now: Files, walked: seq<string>) {
    && now.Keys == was.Keys
    && forall p :: p in now ==> now[p] == if p in walked && IsGn(p) then Rewrite(was[p]) else was[p]
  }

  /** `changed` lists, once each, the files that differ. */
  ghost predicate Lists(was: Files, now: Files, changed: seq<string>) {
    && (forall p :: p in changed <==> p in now && p in was && now[p] != was[p])
    && (forall i, j :: 0 <= i < j < |changed| ==> changed[i] != changed[j])
    && (changed == [] <==> now == was)
  }

  function RelaxedFile(files: Files, path: string): Files {
    if path in files && IsGn(path) then files[path := Rewrite(files[path])] else files
  }

  lemma WalkOne(was: Files, now: Files, walked: seq<string>, path: string, changed: seq<string>)
    requires Walked(was, now, walked) && Lists(was, now, changed) && path !in walked
    ensures var after := RelaxedFile(now, path);
            Walked(was, after, walked + [path]) && Lists(was, after, if after != now then changed + [path] else changed)
  {
    hide Rewrite, IsGn;
    var after := RelaxedFile(now, path);
    WalkedOne(was, now, walked, path);
    if after == now {
    } else {
      assert path in now && now[path] == was[path] != after[path] && path !in changed;
      assert forall p :: p in now && p != path ==> after[p] == now[p];
      hide Walked, RelaxedFile;
    }
  }

  lemma WalkedOne(was: Files, now: Files, walked: seq<string>, path: string)
    requires Walked(was, now, walked) && path !in walked
    ensures Walked(was, RelaxedFile(now, path), walked + [path])
  {
    hide Rewrite, IsGn;
  }

  /** The files a walk in the order of `paths` rewrites. */
  class GnTree {
    var files: Files

    constructor (files: Files)
      ensures this.files == files
    {
      this.files := files;
    }

    /** `paths` is the walk, each path once; a path whose text cannot be read is not in `files`. */
    method Relax(paths: seq<string>) returns (changed: seq<string>)
      requires forall i, j :: 0 <= i < j < |paths| ==> paths[i] != paths[j]
      modifies this
      ensures Walked(old(files), files, paths)
      ensures Lists(old(files), files, changed)
    {
      hide Rewrite, IsGn, RelaxedFile;
      changed := [];
      for n := 0 to |paths|
        invariant Walked(old(files), files, paths[..n]) && Lists(old(files), files, changed)
      {
        var path := paths[n];
        assert path !in paths[..n];
        assert paths[..n + 1] == paths[..n] + [path];
        WalkOne(old(files), files, paths[..n], path, changed);
        hide Walked, Lists;
        var hit := RelaxFile(path);
        if hit {
          changed := changed + [path];
        }
      }
      assert paths[..|paths|] == paths;
    }

    method RelaxFile(path: string) returns (hit: bool)
      modifies this
      ensures files == RelaxedFile(old(files), path) && (hit <==> files != old(files))
    {
      if !IsGn(path) || path !in files {
        return false;
      }
      hide Rewrite;
      var text := files[path];
      var rewritten := Rewrite(text);
      hit := rewritten != text;
      if hit {
        files := files[path := rewritten];
      } else {
        assert files[path := rewritten] == files;
      }
    }

    /** A second walk over the same tree finds nothing to change. */
    method RelaxTwice(paths: seq<string>) returns (first: seq<string>, second: seq<string>)
      requires forall i, j :: 0 <= i < j < |paths| ==> paths[i] != paths[j]
      modifies this
      ensures Walked(old(files), files, paths) && second == []
    {
      first := Relax(paths);
      WalkedTwice(old(files), files, paths);
      second := Relax(paths);
    }
  }

  lemma WalkedTwice(was: Files, now: Files, paths: seq<string>)
    requires Walked(was, now, paths)
    ensures forall again :: Walked(now, again, paths) ==> again == now
  {
    hide Rewrite, IsGn;
    forall again | Walked(now, again, paths) ensures again == now {
      forall p | p in now ensures again[p] == now[p] {
        RewriteIsIdempotent(was[p]);
      }
    }
  }
}
