/** What the rewriter makes of the conditions of asserts, of one and of all in a text, and of their values. */
module GateRewriting {
  import opened Wrappers
  import opened Seqs
  import opened Text
  import opened AssertRewriter
  import opened GateExpressions

  // ---- the condition of an assert

  /** u starts with an assert whose condition is c; d is the comma or parenthesis after it. */
  predicate Asserts(u: string, c: string, d: char) {
    && 8 + |c| <= |u|
    && u[..7] == OPEN
    && u[7..7 + |c|] == c
    && u[7 + |c|] == d
    && (d == ',' || d == ')')
  }

  lemma {:induction false} ClosingPast(u: string, i: nat, k: nat, depth: nat)
    requires i + k <= |u| && depth > 0
    requires forall j :: i <= j < i + k ==> u[j] != '"' && u[j] != '#' && u[j] != '(' && u[j] != ')'
    ensures Closing(u, i, depth) == Closing(u, i + k, depth)
    decreases k
  {
    if k > 0 { ClosingPast(u, i + 1, k - 1, depth); }
  }

  lemma LexToken(t: string)
    requires t != "" && !IsBlank(t[0]) && Lex(t).Some?
    ensures FirstToken(t).Some?
    ensures var (token, k) := FirstToken(t).value;
            && Lex(t[k..]).Some? && Lex(t).value == [token] + Lex(t[k..]).value
            && (token == Open ==> k == 1 && t[0] == '(') && (token == Close ==> k == 1 && t[0] == ')')
            && (token != Open && token != Close ==>
                  forall j :: 0 <= j < k ==> t[j] != '"' && t[j] != '#' && t[j] != '(' && t[j] != ')')
  {
  }

  lemma ClosingToken(u: string, i: nat, t: string, depth: nat)
    requires i + |t| <= |u| && u[i..i + |t|] == t && depth > 0
    requires t != "" && !IsBlank(t[0]) && Lex(t).Some?
    requires Opened(FirstToken(t).value.0, depth) > 0
    ensures var (token, k) := FirstToken(t).value; Closing(u, i, depth) == Closing(u, i + k, Opened(token, depth))
  {
    LexToken(t);
    hide Lex, FirstToken;
    var (token, k) := FirstToken(t).value;
    forall j | i <= j < i + k ensures u[j] == t[j - i] { }
    if token != Open && token != Close { ClosingPast(u, i, k, depth); }
  }

  lemma ClosingBlank(u: string, i: nat, t: string, depth: nat)
    requires i + |t| <= |u| && u[i..i + |t|] == t && depth > 0 && t != "" && IsBlank(t[0])
    ensures Closing(u, i, depth) == Closing(u, i + 1, depth) && Lex(t) == Lex(t[1..])
  {
    assert u[i] == t[0];
    ClosingPast(u, i, 1, depth);
  }

  lemma NothingLexed(depth: nat)
    requires depth > 0
    ensures Lex("") == Some([]) && Depth([], depth) == Some(depth)
  {
  }

  lemma DepthCons(token: Token, rest: seq<Token>, depth: nat)
    requires depth > 0 && Depth([token] + rest, depth).Some?
    ensures Opened(token, depth) > 0 && Depth([token] + rest, depth) == Depth(rest, Opened(token, depth))
  {
    assert ([token] + rest)[1..] == rest;
  }

  /** Searching for the closing parenthesis goes over a text as its tokens say. */
  lemma {:induction false} ClosingLexed(u: string, i: nat, t: string, depth: nat)
    requires i + |t| <= |u| && u[i..i + |t|] == t && depth > 0
    requires Lex(t).Some? && Depth(Lex(t).value, depth).Some?
    ensures Depth(Lex(t).value, depth).value > 0
    ensures Closing(u, i, depth) == Closing(u, i + |t|, Depth(Lex(t).value, depth).value)
    decreases |t|
  {
    hide *;
    if t == "" {
      NothingLexed(depth);
    } else if IsBlank(t[0]) {
      ClosingBlank(u, i, t, depth);
      SliceOfSlice(u, i, i + |t|, 1, |t|);
      ClosingLexed(u, i + 1, t[1..], depth);
    } else {
      LexToken(t);
      var (token, k) := FirstToken(t).value;
      DepthCons(token, Lex(t[k..]).value, depth);
      ClosingToken(u, i, t, depth);
      SliceOfSlice(u, i, i + |t|, k, |t|);
      ClosingLexed(u, i + k, t[k..], Opened(token, depth));
    }
  }

  /** The parenthesis that closes an assert whose condition is well formed, and all it has, is the one behind it. */
  lemma ClosingOfCondition(u: string, c: string, env: Environment)
    requires Asserts(u, c, ')') && Lex(c).Some? && Value(Lex(c).value, env).Some?
    ensures Closing(u, 7, 1) == Some(7 + |c|)
  {
    var ts := Lex(c).value;
    OrDepth(ts, env, 0, 1);
    assert ts[0..] == ts && ts[|ts|..] == [];
    ClosingLexed(u, 7, c, 1);
  }

  /** A condition that mentions is_linux and reads as an expression. */
  predicate LinuxGate(c: string) {
    Lex(c).Some? && Occurs(LINUX, c)
  }

  /** Where in its condition the match of an assert ends: at the first parenthesis behind the first is_linux. */
  function GateEnd(c: string): (q: nat)
    requires Occurs(LINUX, c)
    ensures q <= |c|
  {
    PlainEnd(c, Find(c, LINUX).value + 8)
  }

  /** What the rewriter makes of a condition. */
  function Traded(c: string): string
    requires Occurs(LINUX, c)
  {
    FixedBody(c[..GateEnd(c)]) + c[GateEnd(c)..]
  }

  /** u with the match at its start rewritten. */
  function Rewritten(u: string): string
    requires MatchHere(u).Some?
  {
    FixHere(u) + u[EndHere(u)..]
  }

  lemma ConditionCandidate(u: string, c: string, d: char, n: nat)
    requires Asserts(u, c, d) && n + 8 <= |c|
    requires forall k :: 0 <= k < |c| ==> c[k] != ',' && c[k] != ';'
    ensures MatchAt(u, LINUX, 7 + n) <==> MatchAt(c, LINUX, n)
    ensures MatchAt(c, LINUX, n) ==> Candidate(u, n, |c| - n - 8)
  {
    SliceOfSlice(u, 7, 7 + |c|, n, n + 8);
    forall k | 7 <= k < 7 + |c| ensures u[k] != ';' { assert u[k] == c[k - 7]; }
  }

  lemma LazyInCondition(u: string, c: string, d: char, n: nat, m: nat, n0: nat)
    requires Asserts(u, c, d) && LazyMatch(u, n, m) && MatchAt(c, LINUX, n0)
    requires forall j: nat :: j < n0 ==> !MatchAt(c, LINUX, j)
    requires forall k :: 0 <= k < |c| ==> c[k] != ',' && c[k] != ';'
    ensures n == n0 && n + 8 + m <= |c| && (n + 8 + m < |c| ==> c[n + 8 + m] == ')')
    ensures forall k :: n + 8 <= k < n + 8 + m ==> c[k] != ')'
  {
    ConditionCandidate(u, c, d, n0);
    assert n <= n0;
    ConditionCandidate(u, c, d, n);
    assert m <= |c| - n - 8;
    forall k | 0 <= k < |c| ensures u[7 + k] == c[k] { assert u[7..7 + |c|][k] == u[7 + k]; }
    forall k | n + 8 <= k < n + 8 + m ensures c[k] != ')' {
      assert c[k] == ')' ==> Candidate(u, n, k - n - 8);
    }
  }

  lemma PlainEndIs(c: string, i: nat, j: nat)
    requires i <= j <= |c| && (j < |c| ==> c[j] == ')')
    requires forall k :: i <= k < j ==> c[k] != ';' && c[k] != ',' && c[k] != ')'
    ensures PlainEnd(c, i) == j
  {
  }

  /** The match in an assert whose condition is well formed ends in the condition or on the character after it. */
  lemma MatchInCondition(u: string, c: string, d: char)
    requires Asserts(u, c, d) && LinuxGate(c)
    ensures MatchHere(u).Some?
    ensures var (n, m) := MatchHere(u).value; n + 8 + m == GateEnd(c)
    ensures GateEnd(c) < |c| ==> c[GateEnd(c)] == ')'
  {
    forall k | 0 <= k < |c| ensures c[k] != ',' && c[k] != ';' { LexCharacters(c, k); }
    var n0 := Find(c, LINUX).value;
    ConditionCandidate(u, c, d, n0);
    hide Lex, LazyMatch, Candidate, MatchHere, Find, Occurs;
    assert MatchHere(u).Some?;
    var (n, m) := MatchHere(u).value;
    LazyInCondition(u, c, d, n, m, n0);
    PlainEndIs(c, n + 8, n + 8 + m);
  }

  /** Rewriting an assert trades its condition for another one and touches nothing else. */
  lemma ConditionTraded(u: string, c: string, d: char)
    requires Asserts(u, c, d) && LinuxGate(c)
    ensures MatchHere(u).Some? && EndHere(u) == 8 + GateEnd(c) && Rewritten(u) == OPEN + Traded(c) + u[7 + |c|..]
  {
    hide *;
    ReadsAsExpression(c);
    AssertsShape(u, c, d);
    MatchInCondition(u, c, d);
    var (n, m) := MatchHere(u).value;
    var q := GateEnd(c);
    RewrittenBody(u, n, m);
    SplitCondition(u, c, q);
    TradedIs(c);
    Regroup(OPEN, FixedBody(c[..q]), c[q..], u[7 + |c|..]);
  }

  lemma TradedIs(c: string)
    requires Occurs(LINUX, c)
    ensures Traded(c) == FixedBody(c[..GateEnd(c)]) + c[GateEnd(c)..]
  {
    hide GateEnd, FixedBody, Occurs;
  }

  lemma AssertsShape(u: string, c: string, d: char)
    requires Asserts(u, c, d)
    ensures 7 + |c| <= |u| && u[7..7 + |c|] == c
  {
  }

  lemma Regroup(o: string, b: string, x: string, y: string)
    ensures o + b + (x + y) == o + (b + x) + y
  {
  }

  lemma SplitCondition(u: string, c: string, q: nat)
    requires q <= |c| && 7 + |c| <= |u| && u[7..7 + |c|] == c
    ensures u[7..7 + q] == c[..q] && u[7 + q..] == c[q..] + u[7 + |c|..] && c[..q] + c[q..] == c
  {
    SliceOfSlice(u, 7, 7 + |c|, 0, q);
    SliceOfSlice(u, 7, 7 + |c|, q, |c|);
  }

  lemma RewrittenBody(u: string, n: nat, m: nat)
    requires MatchHere(u) == Some((n, m))
    ensures 15 + n + m < |u| && EndHere(u) == 16 + n + m
    ensures Rewritten(u) == OPEN + FixedBody(u[7..15 + n + m]) + u[15 + n + m..]
  {
    hide *;
    RewrittenIs(u, n, m);
    var body, tail, after := u[7..15 + n + m], u[15 + n + m], u[16 + n + m..];
    FixText(body, tail);
    HeadTail(u, 15 + n + m);
    Associative(OPEN + FixedBody(body), [tail], after);
  }

  lemma HeadTail(u: string, k: nat)
    requires k < |u|
    ensures [u[k]] + u[k + 1..] == u[k..]
  {
  }

  lemma RewrittenIs(u: string, n: nat, m: nat)
    requires MatchHere(u) == Some((n, m))
    ensures 15 + n + m < |u| && EndHere(u) == 16 + n + m
    ensures Rewritten(u) == Fix(u[7..15 + n + m], u[15 + n + m]) + u[16 + n + m..]
  {
    MatchIsLazy(u);
    hide MatchHere, LazyMatch, Candidate, Fix, MatchAt;
    FixHereIs(u, n, m);
  }

  lemma FixText(body: string, tail: char)
    ensures Fix(body, tail) == OPEN + FixedBody(body) + [tail]
  {
    hide Declines;
    assert OPEN + Rstrip(body) + SUFFIX == OPEN + (Rstrip(body) + SUFFIX);
  }

  // ---- its value before and after

  /** Where the match ends among the tokens of the condition. */
  function EndToken(c: string): nat
    requires LinuxGate(c)
  {
    if Lex(c[..GateEnd(c)]).Some? then |Lex(c[..GateEnd(c)]).value| else 0
  }

  /** The rewriter inserts `|| is_haiku` into the condition. */
  predicate Changes(c: string)
    requires Occurs(LINUX, c)
  {
    !Declines(c[..GateEnd(c)])
  }

  lemma TradedTokens(c: string)
    requires LinuxGate(c)
    ensures Changes(c) ==> Lex(Traded(c)).Some? && Widens(Lex(c).value, Lex(Traded(c)).value, EndToken(c))
    ensures Changes(c) && ')' !in c ==> EndToken(c) == |Lex(c).value|
    ensures !Changes(c) ==> Traded(c) == c
  {
    hide *;
    ReadsAsExpression(c);
    TradedIs(c);
    BodyIs(c);
    var q := GateEnd(c);
    if Changes(c) {
      EndIsClosing(c);
      WidenedTokens(c, Traded(c), q);
      EndTokenIs(c);
      WidensAt(Lex(c).value, Lex(Traded(c)).value, EndToken(c));
      assert ')' !in c ==> q == |c|;
    } else {
      assert c[..q] + c[q..] == c;
    }
  }

  lemma BodyIs(c: string)
    requires Occurs(LINUX, c)
    ensures var body := c[..GateEnd(c)]; FixedBody(body) == if Changes(c) then Rstrip(body) + SUFFIX else body
  {
    hide GateEnd, Declines, Occurs, Rstrip;
  }

  lemma EndIsClosing(c: string)
    requires LinuxGate(c)
    ensures GateEnd(c) < |c| ==> c[GateEnd(c)] == ')'
  {
    if GateEnd(c) < |c| { LexCharacters(c, GateEnd(c)); }
  }

  lemma EndTokenIs(c: string)
    requires LinuxGate(c) && Lex(c[..GateEnd(c)]).Some?
    ensures EndToken(c) == |Lex(c[..GateEnd(c)]).value|
  {
    hide Lex, GateEnd;
  }

  /**
   The traded condition is again a condition. Its value is the old one, turned round exactly where is_haiku holds and
   the old one hangs on the place of the edit: there, and only there, an assert that passed stops the build, or one
   that stopped it passes. Without parentheses in the condition the new value is the old one or is_haiku.
   */
  lemma TradedValue(c: string, env: Environment)
    requires LinuxGate(c) && WellFormed(Lex(c).value)
    ensures Lex(Traded(c)).Some? && Value(Lex(Traded(c)).value, env).Some? && Value(Lex(c).value, env).Some?
    ensures var v, w := Value(Lex(c).value, env).value, Value(Lex(Traded(c)).value, env).value;
            && w == (v != (Changes(c) && env(HAIKU) && Hangs(Lex(c).value, env, EndToken(c))))
            && (Changes(c) && ')' !in c ==> w == (v || env(HAIKU)))
            && (Unnegated(Lex(c).value, EndToken(c)) ==> (v ==> w))
  {
    hide *;
    ReadsAsExpression(c);
    TradedTokens(c);
    WellFormedAnywhere(Lex(c).value, env);
    if Changes(c) {
      var ts, us, p := Lex(c).value, Lex(Traded(c)).value, EndToken(c);
      WidenedValue(ts, us, env, p);
      if Value(ts, env).value && Unnegated(ts, p) { UnnegatedPasses(ts, us, env, p); }
    }
  }

  /** Of an assert at the start of u the rewriter changes the condition, to that value, and nothing else. */
  lemma RewriteKeepsMeaning(u: string, c: string, d: char, env: Environment)
    requires Asserts(u, c, d) && LinuxGate(c) && WellFormed(Lex(c).value)
    ensures MatchHere(u).Some? && Rewritten(u) == OPEN + Traded(c) + u[7 + |c|..]
    ensures Value(Lex(c).value, env).Some? && Lex(Traded(c)).Some?
    ensures Value(Lex(Traded(c)).value, env) ==
            Some(Value(Lex(c).value, env).value != (Changes(c) && env(HAIKU) && Hangs(Lex(c).value, env, EndToken(c))))
  {
    hide *;
    ReadsAsExpression(c);
    ConditionTraded(u, c, d);
    TradedValue(c, env);
  }

  lemma ReadsAsExpression(c: string)
    requires LinuxGate(c)
    ensures Lex(c).Some? && Occurs(LINUX, c)
  {
  }

  lemma WidensAt(ts: seq<Token>, us: seq<Token>, p: nat)
    requires p <= |ts| && us == ts[..p] + INSERTED + ts[p..] && (p == |ts| || ts[p] == Close)
    ensures Widens(ts, us, p)
  {
  }

  lemma FirstClose(b: string)
    requires b == "" || b[0] == ')'
    ensures Breaks(b) && Breaks(SUFFIX + b)
    ensures b == "" ==> Lex(b) == Some([])
    ensures b != "" && Lex(b).Some? ==> Lex(b).value != [] && Lex(b).value[0] == Close
  {
  }

  lemma CatInserted(x: Option<seq<Token>>, y: Option<seq<Token>>)
    requires Cat(x, y).Some?
    ensures x.Some? && y.Some? && Cat(x, Cat(Some(INSERTED), y)).Some?
    ensures var ts, p := Cat(x, y).value, |x.value|;
            && p <= |ts| && Cat(x, Cat(Some(INSERTED), y)).value == ts[..p] + INSERTED + ts[p..]
            && ts[p..] == y.value
  {
    assert (x.value + y.value)[..|x.value|] == x.value;
    assert (x.value + y.value)[|x.value|..] == y.value;
    assert x.value + (INSERTED + y.value) == x.value + INSERTED + y.value;
  }

  lemma WidenedTokens(c: string, c': string, q: nat)
    requires Lex(c).Some? && q <= |c| && (q == |c| || c[q] == ')')
    requires c' == Rstrip(c[..q]) + SUFFIX + c[q..]
    ensures Lex(c').Some? && Lex(c[..q]).Some?
    ensures var ts, us, p := Lex(c).value, Lex(c').value, |Lex(c[..q]).value|;
            && p <= |ts| && us == ts[..p] + INSERTED + ts[p..]
            && (if q == |c| then p == |ts| else p < |ts| && ts[p] == Close)
  {
    hide *;
    var a, b := c[..q], c[q..];
    assert c == a + b;
    FirstClose(b);
    LexAppend(a, b);
    CatInserted(Lex(a), Lex(b));
    LexRstrip(a);
    LexSuffix();
    LexAppend(SUFFIX, b);
    assert c' == Rstrip(a) + (SUFFIX + b);
    LexAppend(Rstrip(a), SUFFIX + b);
  }

  // ---- a whole text

  /** No name is followed by a parenthesis between i and j. */
  ghost predicate NoCall(ts: seq<Token>, i: nat, j: nat) {
    forall k: nat :: i <= k && k + 1 < j && k + 1 < |ts| && ts[k].Name? ==> ts[k + 1] != Open
  }

  lemma {:induction false} UnaryNoCall(ts: seq<Token>, env: Environment, i: nat)
    requires i <= |ts| && EvalUnary(ts, env, i).Some?
    ensures NoCall(ts, i, EvalUnary(ts, env, i).value.1)
    decreases |ts| - i, 0
  {
    hide EvalUnary, EvalOr;
    NoUnary(ts, env, i);
    UnaryIs(ts, env, i);
    match ts[i]
    case Not => UnaryNoCall(ts, env, i + 1);
    case Open => OrNoCall(ts, env, i + 1);
    case _ =>
  }

  lemma {:induction false} AndTailNoCall(ts: seq<Token>, env: Environment, v: bool, i: nat)
    requires 0 < i <= |ts| && AndTail(ts, env, v, i).Some?
    ensures NoCall(ts, i - 1, AndTail(ts, env, v, i).value.1)
    decreases |ts| - i, 1
  {
    hide EvalUnary;
    if i < |ts| && ts[i] == And {
      UnaryNoCall(ts, env, i + 1);
      var (w, j) := EvalUnary(ts, env, i + 1).value;
      AndTailNoCall(ts, env, v && w, j);
    }
  }

  lemma {:induction false} AndNoCall(ts: seq<Token>, env: Environment, i: nat)
    requires i <= |ts| && EvalAnd(ts, env, i).Some?
    ensures NoCall(ts, i, EvalAnd(ts, env, i).value.1)
    decreases |ts| - i, 2
  {
    hide EvalUnary, AndTail;
    UnaryNoCall(ts, env, i);
    var (v, j) := EvalUnary(ts, env, i).value;
    AndTailNoCall(ts, env, v, j);
  }

  lemma {:induction false} OrTailNoCall(ts: seq<Token>, env: Environment, v: bool, i: nat)
    requires 0 < i <= |ts| && OrTail(ts, env, v, i).Some?
    ensures NoCall(ts, i - 1, OrTail(ts, env, v, i).value.1)
    decreases |ts| - i, 3
  {
    hide EvalAnd;
    if i < |ts| && ts[i] == Or {
      AndNoCall(ts, env, i + 1);
      var (w, j) := EvalAnd(ts, env, i + 1).value;
      OrTailNoCall(ts, env, v || w, j);
    }
  }

  lemma {:induction false} OrNoCall(ts: seq<Token>, env: Environment, i: nat)
    requires i <= |ts| && EvalOr(ts, env, i).Some?
    ensures NoCall(ts, i, EvalOr(ts, env, i).value.1)
    decreases |ts| - i, 4
  {
    hide EvalAnd, OrTail;
    AndNoCall(ts, env, i);
    var (v, j) := EvalAnd(ts, env, i).value;
    OrTailNoCall(ts, env, v, j);
  }

  lemma {:induction false} LastToken(a: string)
    requires a != "" && IsNameChar(a[|a| - 1]) && Lex(a).Some?
    ensures Lex(a).value != [] && Lex(a).value[|Lex(a).value| - 1].Name?
    decreases |a|
  {
    if IsBlank(a[0]) {
      LastToken(a[1..]);
    } else {
      var (token, k) := FirstToken(a).value;
      if k < |a| {
        LastToken(a[k..]);
      } else {
        assert a[k..] == "";
      }
    }
  }

  lemma FirstOpen(b: string)
    requires b != "" && b[0] == '('
    ensures Breaks(b)
    ensures Lex(b).Some? ==> Lex(b).value != [] && Lex(b).value[0] == Open
  {
  }

  /** A well-formed condition calls nothing. */
  lemma ConditionCallsNothing(c: string)
    requires Lex(c).Some? && WellFormed(Lex(c).value)
    ensures !Occurs(OPEN, c)
  {
    if Occurs(OPEN, c) {
      var k: nat :| k <= |c| && MatchAt(c, OPEN, k);
      assert c[k + 5] == c[k..k + 7][5] == 't' && c[k + 6] == c[k..k + 7][6] == '(';
      CallInside(c, k + 6);
    }
  }

  lemma CallInside(c: string, k: nat)
    requires 0 < k < |c| && IsNameChar(c[k - 1]) && c[k] == '(' && Lex(c).Some?
    ensures !WellFormed(Lex(c).value)
  {
    var a, b := c[..k], c[k..];
    assert c == a + b;
    FirstOpen(b);
    LexAppend(a, b);
    LastToken(a);
    hide Lex, EvalOr;
    var ts, i := Lex(c).value, |Lex(a).value| - 1;
    assert ts[i].Name? && ts[i + 1] == Open;
    if WellFormed(ts) { OrNoCall(ts, NOWHERE, 0); }
  }

  /** u starts with an assert the rewriter may change: c is its condition, d what follows it. */
  predicate IsGate(u: string, c: string, d: char) {
    Asserts(u, c, d) && LinuxGate(c) && WellFormed(Lex(c).value)
  }

  /** Every match of the pattern begins at an assert with a well-formed condition. */
  ghost predicate AllGates(t: string)
    decreases |t|
  {
    NextMatch(t, 0).Some? ==>
      var u := t[NextMatch(t, 0).value..];
      exists c, d :: IsGate(u, c, d) && AllGates(u[7 + |c|..])
  }

  datatype Gate = Gate(before: string, condition: string)

  /** A text with its gates: before each of them what it stands behind, and a rest. */
  function Assembled(gates: seq<Gate>, rest: string): string {
    if gates == [] then rest
    else gates[0].before + (OPEN + gates[0].condition) + Assembled(gates[1..], rest)
  }

  predicate Readable(gates: seq<Gate>) {
    forall g :: g in gates ==> LinuxGate(g.condition) && WellFormed(Lex(g.condition).value)
  }

  /** The gates with their conditions traded. */
  function AllTraded(gates: seq<Gate>): (r: seq<Gate>)
    requires Readable(gates)
    ensures |r| == |gates|
    ensures forall k :: 0 <= k < |r| ==> r[k] == Gate(gates[k].before, Traded(gates[k].condition))
  {
    if gates == [] then []
    else [Gate(gates[0].before, Traded(gates[0].condition))] + AllTraded(gates[1..])
  }

  /** In front of anything, a text in which no match can begin is kept. */
  lemma RewriteKeepsPrefix(x: string, y: string)
    requires forall k: nat :: k < |x| ==> !MatchAt(x + y, OPEN, k)
    ensures Rewrite(x + y) == x + Rewrite(y)
  {
    hide *;
    var t := x + y;
    forall k: nat | k < |x| ensures MatchHere(t[k..]).None? {
      MatchShift(t, k, OPEN, 0);
      Unopened(t[k..]);
    }
    NextMatchBehind(x, y);
    if NextMatch(y, 0).Some? {
      var i := NextMatch(y, 0).value;
      SplitBehind(x, y, i);
      RewriteAt(t, |x| + i);
      RewriteAt(y, i);
      PrefixOut(x, y[..i], FixHere(y[i..]), Rewrite(y[i..][EndHere(y[i..])..]));
    } else {
      NoMatch(t);
      NoMatch(y);
    }
  }

  lemma SplitBehind(x: string, y: string, k: nat)
    requires k <= |y|
    ensures (x + y)[|x| + k..] == y[k..] && (x + y)[..|x| + k] == x + y[..k]
  {
  }

  lemma NextMatchBehind(x: string, y: string)
    requires forall k: nat :: k < |x| ==> MatchHere((x + y)[k..]).None?
    ensures NextMatch(x + y, 0) == if NextMatch(y, 0).Some? then Some(|x| + NextMatch(y, 0).value) else None
    ensures NextMatch(y, 0).Some? ==> NextMatch(y, 0).value <= |y|
  {
    hide *;
    NextMatchAt(y);
    var end := if NextMatch(y, 0).Some? then NextMatch(y, 0).value else |y| + 1;
    UnmatchedBefore(x, y, end);
    if end <= |y| {
      SplitBehind(x, y, end);
      NextMatchIs(x + y, 0, |x| + end);
    } else {
      NextMatchAt(x + y);
    }
  }

  lemma UnmatchedBefore(x: string, y: string, end: nat)
    requires end <= |y| + 1
    requires forall k: nat :: k < |x| ==> MatchHere((x + y)[k..]).None?
    requires forall k: nat :: k < end ==> MatchHere(y[k..]).None?
    ensures forall k: nat :: k < |x| + end ==> MatchHere((x + y)[k..]).None?
  {
    hide *;
    forall k: nat | k < |x| + end ensures MatchHere((x + y)[k..]).None? {
      if k >= |x| { SplitBehind(x, y, k - |x|); }
    }
  }

  lemma NextMatchAt(t: string)
    ensures var r := NextMatch(t, 0);
            && (r.Some? ==> r.value <= |t| && MatchHere(t[r.value..]).Some?)
            && forall k: nat :: k <= |t| && (r.Some? ==> k < r.value) ==> MatchHere(t[k..]).None?
  {
    hide MatchHere;
    NextMatchIsLeftmost(t, 0);
  }

  lemma PrefixOut(x: string, a: string, f: string, r: string)
    ensures (x + a) + f + r == x + (a + f + r)
  {
  }

  lemma NoMatch(t: string)
    requires NextMatch(t, 0).None?
    ensures Rewrite(t) == t
  {
    hide MatchHere;
  }

  lemma SymbolOfOpening(s: string, k: nat, j: nat)
    requires MatchAt(s, OPEN, k) && k <= j < k + 7
    ensures s[j] in OPEN
  {
    assert s[k..k + 7][j - k] == s[j];
  }

  lemma NoneInside(x: string, y: string, k: nat)
    requires !Occurs(OPEN, x) && y != "" && (y[0] == ',' || y[0] == ')') && k < |x|
    ensures !MatchAt(x + y, OPEN, k)
  {
    if MatchAt(x + y, OPEN, k) {
      if k + 7 <= |x| {
        MatchInPrefix(x, x + y, OPEN, k);
      } else {
        SymbolOfOpening(x + y, k, |x|);
      }
    }
  }

  lemma PartOf(c: string, k: nat)
    requires k <= |c|
    ensures Occurs(OPEN, c[k..]) ==> Occurs(OPEN, c)
  {
    assert c[..k] + c[k..] + "" == c;
    if Occurs(OPEN, c[k..]) { OccursWiden(c[..k], c[k..], "", OPEN); }
  }

  /** The rest of a condition behind its match, and what follows the assert, are rewritten apart. */
  lemma BehindMatch(u: string, c: string, d: char)
    requires IsGate(u, c, d) && GateEnd(c) < |c|
    ensures var x := c[GateEnd(c) + 1..];
            && 8 + GateEnd(c) <= |u| && u[8 + GateEnd(c)..] == x + u[7 + |c|..]
            && Rewrite(u[8 + GateEnd(c)..]) == x + Rewrite(u[7 + |c|..])
  {
    GateParts(u, c, d);
    ConditionCallsNothing(c);
    hide *;
    var q := GateEnd(c);
    var x, y := c[q + 1..], u[7 + |c|..];
    PartOf(c, q + 1);
    SplitCondition(u, c, q + 1);
    forall k: nat | k < |x| ensures !MatchAt(x + y, OPEN, k) { NoneInside(x, y, k); }
    RewriteKeepsPrefix(x, y);
  }

  lemma GateParts(u: string, c: string, d: char)
    requires IsGate(u, c, d)
    ensures Asserts(u, c, d) && LinuxGate(c) && Lex(c).Some? && Occurs(LINUX, c) && WellFormed(Lex(c).value)
    ensures 8 + |c| <= |u| && u[..7] == OPEN && u[7..7 + |c|] == c && u[7 + |c|] == d && (d == ',' || d == ')')
    ensures u[7 + |c|..] == [d] + u[8 + |c|..]
  {
    hide Lex, Occurs, WellFormed;
  }

  lemma BehindAssert(u: string, c: string, d: char)
    requires IsGate(u, c, d)
    ensures 8 + |c| <= |u| && Rewrite(u[7 + |c|..]) == [d] + Rewrite(u[8 + |c|..])
  {
    GateParts(u, c, d);
    hide *;
    var r := u[8 + |c|..];
    forall k: nat | k < |[d]| ensures !MatchAt([d] + r, OPEN, k) {
      if MatchAt([d] + r, OPEN, k) { OpeningSymbols([d] + r, k); }
    }
    RewriteKeepsPrefix([d], r);
  }

  lemma Cancel(a: string, b: string, r: string)
    requires a + r == b + r
    ensures a == b
  {
    assert |a| == |b|;
    assert (a + r)[..|a|] == a && (b + r)[..|b|] == b;
  }

  /** The first gate of a text: its condition is traded, and the text behind it is rewritten apart. */
  lemma FirstGate(t: string, i: nat, c: string, d: char)
    requires NextMatch(t, 0) == Some(i) && IsGate(t[i..], c, d)
    ensures Occurs(LINUX, c) && 7 + |c| <= |t[i..]|
    ensures Rewrite(t) == t[..i] + (OPEN + Traded(c)) + Rewrite(t[i..][7 + |c|..])
  {
    hide *;
    var u := t[i..];
    GateParts(u, c, d);
    var y, q := u[7 + |c|..], GateEnd(c);
    ConditionTraded(u, c, d);
    RewriteAt(t, i);
    RewrittenParts(u, q);
    var f := FixHere(u);
    if q < |c| {
      BehindMatch(u, c, d);
      var x := c[q + 1..];
      Associative(f, x, y);
      Cancel(f + x, OPEN + Traded(c), y);
      Associative(t[..i] + f, x, Rewrite(y));
      Associative(t[..i], f, x);
    } else {
      BehindAssert(u, c, d);
      var r := u[8 + |c|..];
      Associative(OPEN + Traded(c), [d], r);
      Cancel(f, OPEN + Traded(c) + [d], r);
      Associative(t[..i], OPEN + Traded(c), [d]);
      Associative(t[..i] + (OPEN + Traded(c)), [d], Rewrite(r));
    }
  }

  lemma RewrittenParts(u: string, q: nat)
    requires MatchHere(u).Some? && EndHere(u) == 8 + q
    ensures 8 + q <= |u| && Rewritten(u) == FixHere(u) + u[8 + q..]
  {
    hide MatchHere, FixHere;
  }

  lemma AssembledCons(before: string, c: string, gates: seq<Gate>, rest: string)
    ensures Assembled([Gate(before, c)] + gates, rest) == before + (OPEN + c) + Assembled(gates, rest)
  {
    assert ([Gate(before, c)] + gates)[1..] == gates;
  }

  lemma AllTradedCons(before: string, c: string, gates: seq<Gate>)
    requires Readable(gates) && LinuxGate(c) && WellFormed(Lex(c).value)
    ensures Readable([Gate(before, c)] + gates)
    ensures AllTraded([Gate(before, c)] + gates) == [Gate(before, Traded(c))] + AllTraded(gates)
  {
    hide Lex, WellFormed, Occurs, Traded;
    var all := [Gate(before, c)] + gates;
    assert all[1..] == gates;
  }

  /**
   In a text whose matches all begin at asserts with well-formed conditions the rewriter trades exactly their
   conditions, each for the one whose value TradedValue gives, and leaves everything between and behind them.
   */
  lemma {:induction false} RewriteTradesConditions(t: string) returns (gates: seq<Gate>, rest: string)
    requires AllGates(t)
    ensures Readable(gates) && NextMatch(rest, 0).None?
    ensures t == Assembled(gates, rest)
    ensures Rewrite(t) == Assembled(AllTraded(gates), rest)
    decreases |t|
  {
    if NextMatch(t, 0).None? {
      gates, rest := [], t;
      NoMatch(t);
    } else {
      var i := NextMatch(t, 0).value;
      var u := t[i..];
      var c, d :| IsGate(u, c, d) && AllGates(u[7 + |c|..]);
      GateParts(u, c, d);
      hide *;
      var more;
      more, rest := RewriteTradesConditions(u[7 + |c|..]);
      gates := [Gate(t[..i], c)] + more;
      FirstGate(t, i, c, d);
      AllTradedCons(t[..i], c, more);
      AssembledCons(t[..i], c, more, rest);
      AssembledCons(t[..i], Traded(c), AllTraded(more), rest);
      OpenParts(t, i, c);
    }
  }

  lemma OpenParts(t: string, i: nat, c: string)
    requires i <= |t| && 7 + |c| <= |t[i..]| && t[i..][..7] == OPEN && t[i..][7..7 + |c|] == c
    ensures t == t[..i] + (OPEN + c) + t[i..][7 + |c|..]
  {
    var u := t[i..];
    assert u == u[..7] + u[7..7 + |c|] + u[7 + |c|..];
    assert t == t[..i] + u;
  }
}
