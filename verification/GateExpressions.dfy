/**
 Conditions built from names, `!`, `&&`, `||` and parentheses, as gn reads them, and what becomes of their value
 when `|| is_haiku` is inserted into one.
 */
module GateExpressions {
  import opened Wrappers
  import opened Seqs
  import opened Text
  import opened AssertRewriter

  datatype Token = Name(name: string) | Not | And | Or | Open | Close

  type Environment = string -> bool

  // ---- values of token sequences, by recursive descent; a result is a value and the index after it

  function EvalOr(ts: seq<Token>, env: Environment, i: nat): (r: Option<(bool, nat)>)
    requires i <= |ts|
    ensures r.Some? ==> i < r.value.1 <= |ts|
    decreases |ts| - i, 4
  {
    match EvalAnd(ts, env, i)
    case None => None
    case Some((v, j)) => OrTail(ts, env, v, j)
  }

  function OrTail(ts: seq<Token>, env: Environment, v: bool, i: nat): (r: Option<(bool, nat)>)
    requires i <= |ts|
    ensures r.Some? ==> i <= r.value.1 <= |ts|
    decreases |ts| - i, 3
  {
    if i < |ts| && ts[i] == Or then
      match EvalAnd(ts, env, i + 1)
      case None => None
      case Some((w, j)) => OrTail(ts, env, v || w, j)
    else Some((v, i))
  }

  function EvalAnd(ts: seq<Token>, env: Environment, i: nat): (r: Option<(bool, nat)>)
    requires i <= |ts|
    ensures r.Some? ==> i < r.value.1 <= |ts|
    decreases |ts| - i, 2
  {
    match EvalUnary(ts, env, i)
    case None => None
    case Some((v, j)) => AndTail(ts, env, v, j)
  }

  function AndTail(ts: seq<Token>, env: Environment, v: bool, i: nat): (r: Option<(bool, nat)>)
    requires i <= |ts|
    ensures r.Some? ==> i <= r.value.1 <= |ts|
    decreases |ts| - i, 1
  {
    if i < |ts| && ts[i] == And then
      match EvalUnary(ts, env, i + 1)
      case None => None
      case Some((w, j)) => AndTail(ts, env, v && w, j)
    else Some((v, i))
  }

  function EvalUnary(ts: seq<Token>, env: Environment, i: nat): (r: Option<(bool, nat)>)
    requires i <= |ts|
    ensures r.Some? ==> i < r.value.1 <= |ts|
    decreases |ts| - i, 0
  {
    if i == |ts| then None
    else
      match ts[i]
      case Name(s) => Some((env(s), i + 1))
      case Not =>
        (match EvalUnary(ts, env, i + 1)
         case None => None
         case Some((v, j)) => Some((!v, j)))
      case Open =>
        (match EvalOr(ts, env, i + 1)
         case None => None
         case Some((v, j)) => if j < |ts| && ts[j] == Close then Some((v, j + 1)) else None)
      case _ => None
  }

  /** The value of a whole condition; None when it is not well formed. */
  function Value(ts: seq<Token>, env: Environment): Option<bool> {
    match EvalOr(ts, env, 0)
    case Some((v, j)) => if j == |ts| then Some(v) else None
    case None => None
  }

  /** `!` binds closest, then `&&`, then `||`. */
  lemma Precedence(a: string, b: string, c: string, env: Environment)
    ensures Value([Name(a), Or, Name(b), And, Name(c)], env) == Some(env(a) || (env(b) && env(c)))
    ensures Value([Not, Name(a), And, Name(b)], env) == Some(!env(a) && env(b))
  {
    var ts := [Name(a), Or, Name(b), And, Name(c)];
    assert AndTail(ts, env, env(b) && env(c), 5) == Some((env(b) && env(c), 5));
    assert AndTail(ts, env, env(b), 3) == Some((env(b) && env(c), 5));
    assert EvalAnd(ts, env, 2) == Some((env(b) && env(c), 5));
    assert EvalAnd(ts, env, 0) == Some((env(a), 1));
    assert OrTail(ts, env, env(a), 1) == Some((env(a) || (env(b) && env(c)), 5));
    var us := [Not, Name(a), And, Name(b)];
    assert EvalUnary(us, env, 0) == Some((!env(a), 2));
    assert AndTail(us, env, !env(a) && env(b), 4) == Some((!env(a) && env(b), 4));
    assert AndTail(us, env, !env(a), 2) == Some((!env(a) && env(b), 4));
    assert EvalAnd(us, env, 0) == Some((!env(a) && env(b), 4));
    assert OrTail(us, env, !env(a) && env(b), 4) == Some((!env(a) && env(b), 4));
  }

  // ---- inserting `|| is_haiku` where a group ends

  const INSERTED := [Or, Name(HAIKU)]

  /** us is ts with `|| is_haiku` inserted at p, in front of a closing parenthesis or at the end. */
  ghost predicate Widens(ts: seq<Token>, us: seq<Token>, p: nat) {
    && p <= |ts|
    && us == ts[..p] + INSERTED + ts[p..]
    && (p == |ts| || ts[p] == Close)
  }

  /** Where an index after an operand lands: the insertion at p still lies ahead of it. */
  function Ahead(p: nat, j: nat): nat {
    if j <= p then j else j + 2
  }

  /** Where an index after a whole group lands: a group that ends at p has taken the insertion in. */
  function Past(p: nat, j: nat): nat {
    if j < p then j else j + 2
  }

  // ---- what hangs on the inserted operand: a value hangs when it is turned round once is_haiku holds

  function HangsUnary(ts: seq<Token>, env: Environment, p: nat, i: nat): bool
    requires i <= |ts|
    decreases |ts| - i, 0
  {
    if i == |ts| then false
    else if ts[i] == Not then HangsUnary(ts, env, p, i + 1)
    else if ts[i] == Open then HangsOr(ts, env, p, i + 1)
    else false
  }

  /** h says whether v, the value of the operands before i, hangs. */
  function HangsAndTail(ts: seq<Token>, env: Environment, p: nat, v: bool, h: bool, i: nat): bool
    requires i <= |ts|
    decreases |ts| - i, 1
  {
    if i < |ts| && ts[i] == And then
      match EvalUnary(ts, env, i + 1)
      case None => false
      case Some((w, j)) =>
        HangsAndTail(ts, env, p, v && w, (h && w) || (v && HangsUnary(ts, env, p, i + 1)), j)
    else h
  }

  function HangsAnd(ts: seq<Token>, env: Environment, p: nat, i: nat): bool
    requires i <= |ts|
    decreases |ts| - i, 2
  {
    match EvalUnary(ts, env, i)
    case None => false
    case Some((v, j)) => HangsAndTail(ts, env, p, v, HangsUnary(ts, env, p, i), j)
  }

  /** A disjunction that ends at p is the one the operand is added to. */
  function HangsOrTail(ts: seq<Token>, env: Environment, p: nat, v: bool, h: bool, i: nat): bool
    requires i <= |ts|
    decreases |ts| - i, 3
  {
    if i < |ts| && ts[i] == Or then
      match EvalAnd(ts, env, i + 1)
      case None => false
      case Some((w, j)) =>
        HangsOrTail(ts, env, p, v || w, (h && !w) || (!v && HangsAnd(ts, env, p, i + 1)), j)
    else if i == p then !v
    else h
  }

  function HangsOr(ts: seq<Token>, env: Environment, p: nat, i: nat): bool
    requires i <= |ts|
    decreases |ts| - i, 4
  {
    match EvalAnd(ts, env, i)
    case None => false
    case Some((v, j)) => HangsOrTail(ts, env, p, v, HangsAnd(ts, env, p, i), j)
  }

  /** The value of the whole condition hangs on an operand inserted at p. */
  function Hangs(ts: seq<Token>, env: Environment, p: nat): bool {
    HangsOr(ts, env, p, 0)
  }

  lemma WidenedToken(ts: seq<Token>, us: seq<Token>, p: nat, i: nat)
    requires Widens(ts, us, p) && i <= |ts|
    ensures p <= |ts| && |us| == |ts| + 2 && Ahead(p, i) <= |us|
    ensures i != p && i < |ts| ==> us[Ahead(p, i)] == ts[i]
    ensures us[p] == Or && us[p + 1] == Name(HAIKU)
    ensures p < |ts| ==> us[p + 2] == ts[p] == Close
  {
  }

  lemma UnaryIs(ts: seq<Token>, env: Environment, i: nat)
    requires i < |ts|
    ensures ts[i].Name? ==> EvalUnary(ts, env, i) == Some((env(ts[i].name), i + 1))
    ensures ts[i] == Not ==>
              EvalUnary(ts, env, i) ==
              match EvalUnary(ts, env, i + 1)
              case None => None
              case Some((v, j)) => Some((!v, j))
    ensures ts[i] == Open ==>
              EvalUnary(ts, env, i) ==
              match EvalOr(ts, env, i + 1)
              case None => None
              case Some((v, j)) => if j < |ts| && ts[j] == Close then Some((v, j + 1)) else None
    ensures ts[i] == And || ts[i] == Or || ts[i] == Close ==> EvalUnary(ts, env, i) == None
  {
    hide EvalOr;
  }

  lemma HangsUnaryIs(ts: seq<Token>, env: Environment, p: nat, i: nat)
    requires i < |ts|
    ensures HangsUnary(ts, env, p, i) ==
            if ts[i] == Not then HangsUnary(ts, env, p, i + 1)
            else ts[i] == Open && HangsOr(ts, env, p, i + 1)
  {
    hide HangsOr;
  }

  lemma NoUnary(ts: seq<Token>, env: Environment, i: nat)
    requires i <= |ts| && EvalUnary(ts, env, i).Some?
    ensures i < |ts|
  {
  }

  lemma {:induction false} WidenUnary(ts: seq<Token>, us: seq<Token>, env: Environment, p: nat, i: nat)
    requires Widens(ts, us, p) && i <= |ts| && EvalUnary(ts, env, i).Some?
    ensures Ahead(p, i) <= |us|
    ensures var (v, j) := EvalUnary(ts, env, i).value;
            var h := HangsUnary(ts, env, p, i);
            && EvalUnary(us, env, Ahead(p, i)) == Some((v != (env(HAIKU) && h), Ahead(p, j)))
            && (h ==> i < p < j)
    decreases |ts| - i, 0
  {
    hide Widens, EvalUnary, EvalOr, HangsUnary, HangsOr;
    NoUnary(ts, env, i);
    WidenedToken(ts, us, p, i);
    UnaryIs(ts, env, i);
    HangsUnaryIs(ts, env, p, i);
    UnaryIs(us, env, Ahead(p, i));
    match ts[i]
    case Not => WidenUnary(ts, us, env, p, i + 1);
    case Open =>
      WidenOr(ts, us, env, p, i + 1);
      WidenedToken(ts, us, p, EvalOr(ts, env, i + 1).value.1);
    case _ =>
  }

  lemma AndTailIs(ts: seq<Token>, env: Environment, v: bool, i: nat)
    requires i <= |ts|
    ensures AndTail(ts, env, v, i) ==
            if i < |ts| && ts[i] == And then
              match EvalUnary(ts, env, i + 1)
              case None => None
              case Some((w, j)) => AndTail(ts, env, v && w, j)
            else Some((v, i))
  {
    hide EvalUnary;
  }

  lemma HangsAndTailIs(ts: seq<Token>, env: Environment, p: nat, v: bool, h: bool, i: nat)
    requires i <= |ts|
    ensures HangsAndTail(ts, env, p, v, h, i) ==
            if i < |ts| && ts[i] == And then
              match EvalUnary(ts, env, i + 1)
              case None => false
              case Some((w, j)) =>
                HangsAndTail(ts, env, p, v && w, (h && w) || (v && HangsUnary(ts, env, p, i + 1)), j)
            else h
  {
    hide EvalUnary, HangsUnary;
  }

  /** Where at most one of two operands is turned round. */
  lemma AndTurned(v: bool, h: bool, w: bool, k: bool, b: bool)
    requires !(h && k)
    ensures ((v != (b && h)) && (w != (b && k))) == ((v && w) != (b && ((h && w) || (v && k))))
    ensures ((v != (b && h)) || (w != (b && k))) == ((v || w) != (b && ((h && !w) || (!v && k))))
  {
  }

  lemma {:induction false} WidenAndTail(ts: seq<Token>, us: seq<Token>, env: Environment, p: nat,
                                        v: bool, h: bool, i: nat)
    requires Widens(ts, us, p) && i <= |ts| && AndTail(ts, env, v, i).Some? && (h ==> p < i)
    ensures Ahead(p, i) <= |us|
    ensures var (w, j) := AndTail(ts, env, v, i).value;
            var k := HangsAndTail(ts, env, p, v, h, i);
            && AndTail(us, env, v != (env(HAIKU) && h), Ahead(p, i)) == Some((w != (env(HAIKU) && k), Ahead(p, j)))
            && (k ==> (h || i < p) && p < j)
    decreases |ts| - i, 1
  {
    hide Widens, EvalUnary, AndTail, HangsUnary, HangsAndTail;
    WidenedToken(ts, us, p, i);
    AndTailIs(ts, env, v, i);
    HangsAndTailIs(ts, env, p, v, h, i);
    AndTailIs(us, env, v != (env(HAIKU) && h), Ahead(p, i));
    if i < |ts| && ts[i] == And {
      WidenUnary(ts, us, env, p, i + 1);
      var (w, j) := EvalUnary(ts, env, i + 1).value;
      var k := HangsUnary(ts, env, p, i + 1);
      AndTurned(v, h, w, k, env(HAIKU));
      WidenAndTail(ts, us, env, p, v && w, (h && w) || (v && k), j);
    }
  }

  lemma {:induction false} WidenAnd(ts: seq<Token>, us: seq<Token>, env: Environment, p: nat, i: nat)
    requires Widens(ts, us, p) && i <= |ts| && EvalAnd(ts, env, i).Some?
    ensures Ahead(p, i) <= |us|
    ensures var (v, j) := EvalAnd(ts, env, i).value;
            var h := HangsAnd(ts, env, p, i);
            && EvalAnd(us, env, Ahead(p, i)) == Some((v != (env(HAIKU) && h), Ahead(p, j)))
            && (h ==> i < p < j)
    decreases |ts| - i, 2
  {
    hide EvalUnary, AndTail, HangsUnary, HangsAndTail;
    WidenUnary(ts, us, env, p, i);
    var (v, j) := EvalUnary(ts, env, i).value;
    WidenAndTail(ts, us, env, p, v, HangsUnary(ts, env, p, i), j);
  }

  lemma InsertedOperand(ts: seq<Token>, us: seq<Token>, env: Environment, p: nat, v: bool)
    requires Widens(ts, us, p)
    ensures p <= |us| && OrTail(us, env, v, p) == Some((v || env(HAIKU), p + 2))
  {
    WidenedToken(ts, us, p, p);
    assert EvalUnary(us, env, p + 1) == Some((env(HAIKU), p + 2));
    assert AndTail(us, env, env(HAIKU), p + 2) == Some((env(HAIKU), p + 2));
    assert OrTail(us, env, v || env(HAIKU), p + 2) == Some((v || env(HAIKU), p + 2));
  }

  lemma {:induction false} WidenOrTail(ts: seq<Token>, us: seq<Token>, env: Environment, p: nat,
                                       v: bool, h: bool, i: nat)
    requires Widens(ts, us, p) && i <= |ts| && OrTail(ts, env, v, i).Some? && (h ==> p < i)
    ensures Ahead(p, i) <= |us|
    ensures var (w, j) := OrTail(ts, env, v, i).value;
            var k := HangsOrTail(ts, env, p, v, h, i);
            && OrTail(us, env, v != (env(HAIKU) && h), Ahead(p, i)) == Some((w != (env(HAIKU) && k), Past(p, j)))
            && (k ==> (h || i <= p) && p <= j)
            && (j == p ==> k == !w)
    decreases |ts| - i, 3
  {
    hide Widens, EvalAnd, OrTail, HangsAnd, HangsOrTail;
    WidenedToken(ts, us, p, i);
    OrTailIs(ts, env, v, i);
    HangsOrTailIs(ts, env, p, v, h, i);
    if i == p {
      InsertedOperand(ts, us, env, p, v);
    } else {
      OrTailIs(us, env, v != (env(HAIKU) && h), Ahead(p, i));
      if i < |ts| && ts[i] == Or {
        WidenAnd(ts, us, env, p, i + 1);
        var (w, j) := EvalAnd(ts, env, i + 1).value;
        var k := HangsAnd(ts, env, p, i + 1);
        AndTurned(v, h, w, k, env(HAIKU));
        WidenOrTail(ts, us, env, p, v || w, (h && !w) || (!v && k), j);
      }
    }
  }

  lemma OrTailIs(ts: seq<Token>, env: Environment, v: bool, i: nat)
    requires i <= |ts|
    ensures OrTail(ts, env, v, i) ==
            if i < |ts| && ts[i] == Or then
              match EvalAnd(ts, env, i + 1)
              case None => None
              case Some((w, j)) => OrTail(ts, env, v || w, j)
            else Some((v, i))
  {
    hide EvalAnd;
  }

  lemma HangsOrTailIs(ts: seq<Token>, env: Environment, p: nat, v: bool, h: bool, i: nat)
    requires i <= |ts|
    ensures HangsOrTail(ts, env, p, v, h, i) ==
            if i < |ts| && ts[i] == Or then
              match EvalAnd(ts, env, i + 1)
              case None => false
              case Some((w, j)) =>
                HangsOrTail(ts, env, p, v || w, (h && !w) || (!v && HangsAnd(ts, env, p, i + 1)), j)
            else if i == p then !v
            else h
  {
    hide EvalAnd, HangsAnd;
  }

  lemma {:induction false} WidenOr(ts: seq<Token>, us: seq<Token>, env: Environment, p: nat, i: nat)
    requires Widens(ts, us, p) && i <= |ts| && EvalOr(ts, env, i).Some?
    ensures Ahead(p, i) <= |us|
    ensures var (v, j) := EvalOr(ts, env, i).value;
            var h := HangsOr(ts, env, p, i);
            && EvalOr(us, env, Ahead(p, i)) == Some((v != (env(HAIKU) && h), Past(p, j)))
            && (h ==> i <= p <= j)
            && (j == p ==> h == !v)
    decreases |ts| - i, 4
  {
    hide EvalAnd, OrTail, HangsAnd, HangsOrTail;
    WidenAnd(ts, us, env, p, i);
    var (v, j) := EvalAnd(ts, env, i).value;
    WidenOrTail(ts, us, env, p, v, HangsAnd(ts, env, p, i), j);
  }

  /**
   Inserting `|| is_haiku` in front of any closing parenthesis of a condition, or at its end, turns its value round
   exactly where is_haiku holds and the value hangs on the insertion; at the end it adds is_haiku to the value.
   */
  lemma WidenedValue(ts: seq<Token>, us: seq<Token>, env: Environment, p: nat)
    requires Widens(ts, us, p) && Value(ts, env).Some?
    ensures Value(us, env) == Some(Value(ts, env).value != (env(HAIKU) && Hangs(ts, env, p)))
    ensures p == |ts| ==> Value(us, env) == Some(Value(ts, env).value || env(HAIKU))
  {
    hide EvalOr, HangsOr;
    WidenedToken(ts, us, p, 0);
    WidenOr(ts, us, env, p, 0);
  }

  /** A condition that held no longer does exactly when is_haiku holds and the value hung on the insertion. */
  lemma StopsExactly(ts: seq<Token>, us: seq<Token>, env: Environment, p: nat)
    requires Widens(ts, us, p) && Value(ts, env).Some?
    ensures Value(us, env).Some?
    ensures (Value(ts, env).value ==> Value(us, env).value) <==>
            !(Value(ts, env).value && env(HAIKU) && Hangs(ts, env, p))
    ensures (Value(us, env).value ==> Value(ts, env).value) <==>
            !(!Value(ts, env).value && env(HAIKU) && Hangs(ts, env, p))
  {
    hide Value, Hangs, Widens;
    WidenedValue(ts, us, env, p);
  }

  // ---- a condition with no negation around the insertion

  const NOWHERE: Environment := _ => false

  /** How far an operand reaches does not depend on what its names stand for. */
  lemma {:induction false} UnaryReach(ts: seq<Token>, env: Environment, env': Environment, i: nat)
    requires i <= |ts|
    ensures EvalUnary(ts, env, i).Some? <==> EvalUnary(ts, env', i).Some?
    ensures EvalUnary(ts, env, i).Some? ==> EvalUnary(ts, env, i).value.1 == EvalUnary(ts, env', i).value.1
    decreases |ts| - i, 0
  {
    hide EvalOr, EvalAnd;
    if i < |ts| && ts[i] == Not { UnaryReach(ts, env, env', i + 1); }
    if i < |ts| && ts[i] == Open { OrReach(ts, env, env', i + 1); }
  }

  lemma {:induction false} AndTailReach(ts: seq<Token>, env: Environment, env': Environment, v: bool, v': bool, i: nat)
    requires i <= |ts|
    ensures AndTail(ts, env, v, i).Some? <==> AndTail(ts, env', v', i).Some?
    ensures AndTail(ts, env, v, i).Some? ==> AndTail(ts, env, v, i).value.1 == AndTail(ts, env', v', i).value.1
    decreases |ts| - i, 1
  {
    hide EvalUnary;
    if i < |ts| && ts[i] == And {
      UnaryReach(ts, env, env', i + 1);
      if EvalUnary(ts, env, i + 1).Some? {
        var ((w, j), (w', _)) := (EvalUnary(ts, env, i + 1).value, EvalUnary(ts, env', i + 1).value);
        AndTailReach(ts, env, env', v && w, v' && w', j);
      }
    }
  }

  lemma {:induction false} AndReach(ts: seq<Token>, env: Environment, env': Environment, i: nat)
    requires i <= |ts|
    ensures EvalAnd(ts, env, i).Some? <==> EvalAnd(ts, env', i).Some?
    ensures EvalAnd(ts, env, i).Some? ==> EvalAnd(ts, env, i).value.1 == EvalAnd(ts, env', i).value.1
    decreases |ts| - i, 2
  {
    hide EvalUnary, AndTail;
    UnaryReach(ts, env, env', i);
    if EvalUnary(ts, env, i).Some? {
      var ((v, j), (v', _)) := (EvalUnary(ts, env, i).value, EvalUnary(ts, env', i).value);
      AndTailReach(ts, env, env', v, v', j);
    }
  }

  lemma {:induction false} OrTailReach(ts: seq<Token>, env: Environment, env': Environment, v: bool, v': bool, i: nat)
    requires i <= |ts|
    ensures OrTail(ts, env, v, i).Some? <==> OrTail(ts, env', v', i).Some?
    ensures OrTail(ts, env, v, i).Some? ==> OrTail(ts, env, v, i).value.1 == OrTail(ts, env', v', i).value.1
    decreases |ts| - i, 3
  {
    hide EvalAnd;
    if i < |ts| && ts[i] == Or {
      AndReach(ts, env, env', i + 1);
      if EvalAnd(ts, env, i + 1).Some? {
        var ((w, j), (w', _)) := (EvalAnd(ts, env, i + 1).value, EvalAnd(ts, env', i + 1).value);
        OrTailReach(ts, env, env', v || w, v' || w', j);
      }
    }
  }

  lemma {:induction false} OrReach(ts: seq<Token>, env: Environment, env': Environment, i: nat)
    requires i <= |ts|
    ensures EvalOr(ts, env, i).Some? <==> EvalOr(ts, env', i).Some?
    ensures EvalOr(ts, env, i).Some? ==> EvalOr(ts, env, i).value.1 == EvalOr(ts, env', i).value.1
    decreases |ts| - i, 4
  {
    hide EvalAnd, OrTail;
    AndReach(ts, env, env', i);
    if EvalAnd(ts, env, i).Some? {
      var ((v, j), (v', _)) := (EvalAnd(ts, env, i).value, EvalAnd(ts, env', i).value);
      OrTailReach(ts, env, env', v, v', j);
    }
  }

  /** Whether tokens are a condition does not depend on what their names stand for. */
  predicate WellFormed(ts: seq<Token>) {
    Value(ts, NOWHERE).Some?
  }

  lemma WellFormedAnywhere(ts: seq<Token>, env: Environment)
    ensures WellFormed(ts) <==> Value(ts, env).Some?
  {
    hide EvalOr;
    OrReach(ts, env, NOWHERE, 0);
  }

  /** No `!` reaches over p: what each one before it negates ends before it. */
  ghost predicate Unnegated(ts: seq<Token>, p: nat) {
    forall i: nat :: i < p && i < |ts| && ts[i] == Not && EvalUnary(ts, NOWHERE, i).Some? ==>
      EvalUnary(ts, NOWHERE, i).value.1 <= p
  }

  lemma {:induction false} UnnegatedUnary(ts: seq<Token>, us: seq<Token>, env: Environment, p: nat, i: nat)
    requires Widens(ts, us, p) && Unnegated(ts, p) && i <= |ts| && EvalUnary(ts, env, i).Some?
    ensures HangsUnary(ts, env, p, i) ==> !EvalUnary(ts, env, i).value.0
    decreases |ts| - i, 0
  {
    WidenUnary(ts, us, env, p, i);
    UnaryReach(ts, env, NOWHERE, i);
    if ts[i] == Not {
      assert i < p ==> EvalUnary(ts, NOWHERE, i).value.1 <= p;
    }
    hide Widens, Unnegated, EvalOr, HangsOr;
    if ts[i] == Open { UnnegatedOr(ts, us, env, p, i + 1); }
  }

  lemma {:induction false} UnnegatedAndTail(ts: seq<Token>, us: seq<Token>, env: Environment, p: nat,
                                            v: bool, h: bool, i: nat)
    requires Widens(ts, us, p) && Unnegated(ts, p) && i <= |ts| && AndTail(ts, env, v, i).Some? && (h ==> !v)
    ensures HangsAndTail(ts, env, p, v, h, i) ==> !AndTail(ts, env, v, i).value.0
    decreases |ts| - i, 1
  {
    hide Widens, Unnegated, EvalUnary, HangsUnary;
    if i < |ts| && ts[i] == And {
      UnnegatedUnary(ts, us, env, p, i + 1);
      var (w, j) := EvalUnary(ts, env, i + 1).value;
      UnnegatedAndTail(ts, us, env, p, v && w, (h && w) || (v && HangsUnary(ts, env, p, i + 1)), j);
    }
  }

  lemma {:induction false} UnnegatedAnd(ts: seq<Token>, us: seq<Token>, env: Environment, p: nat, i: nat)
    requires Widens(ts, us, p) && Unnegated(ts, p) && i <= |ts| && EvalAnd(ts, env, i).Some?
    ensures HangsAnd(ts, env, p, i) ==> !EvalAnd(ts, env, i).value.0
    decreases |ts| - i, 2
  {
    hide Widens, Unnegated, EvalUnary, AndTail, HangsUnary, HangsAndTail;
    UnnegatedUnary(ts, us, env, p, i);
    var (v, j) := EvalUnary(ts, env, i).value;
    UnnegatedAndTail(ts, us, env, p, v, HangsUnary(ts, env, p, i), j);
  }

  lemma {:induction false} UnnegatedOrTail(ts: seq<Token>, us: seq<Token>, env: Environment, p: nat,
                                           v: bool, h: bool, i: nat)
    requires Widens(ts, us, p) && Unnegated(ts, p) && i <= |ts| && OrTail(ts, env, v, i).Some? && (h ==> !v)
    ensures HangsOrTail(ts, env, p, v, h, i) ==> !OrTail(ts, env, v, i).value.0
    decreases |ts| - i, 3
  {
    hide Widens, Unnegated, EvalAnd, HangsAnd;
    if i < |ts| && ts[i] == Or {
      UnnegatedAnd(ts, us, env, p, i + 1);
      var (w, j) := EvalAnd(ts, env, i + 1).value;
      UnnegatedOrTail(ts, us, env, p, v || w, (h && !w) || (!v && HangsAnd(ts, env, p, i + 1)), j);
    }
  }

  lemma {:induction false} UnnegatedOr(ts: seq<Token>, us: seq<Token>, env: Environment, p: nat, i: nat)
    requires Widens(ts, us, p) && Unnegated(ts, p) && i <= |ts| && EvalOr(ts, env, i).Some?
    ensures HangsOr(ts, env, p, i) ==> !EvalOr(ts, env, i).value.0
    decreases |ts| - i, 4
  {
    hide Widens, Unnegated, EvalAnd, OrTail, HangsAnd, HangsOrTail;
    UnnegatedAnd(ts, us, env, p, i);
    var (v, j) := EvalAnd(ts, env, i).value;
    UnnegatedOrTail(ts, us, env, p, v, HangsAnd(ts, env, p, i), j);
  }

  /** Under no `!` an insertion never makes a true condition false. */
  lemma UnnegatedPasses(ts: seq<Token>, us: seq<Token>, env: Environment, p: nat)
    requires Widens(ts, us, p) && Unnegated(ts, p) && Value(ts, env) == Some(true)
    ensures Value(us, env) == Some(true)
  {
    hide Widens, Unnegated, EvalOr, HangsOr;
    UnnegatedOr(ts, us, env, p, 0);
    WidenedValue(ts, us, env, p);
  }

  /** Under a `!` it does: `!(is_linux)` holds on Haiku, `!(is_linux || is_haiku)` does not. */
  lemma NegatedGateFails(env: Environment)
    requires env(HAIKU) && !env(LINUX)
    ensures var ts, us := [Not, Open, Name(LINUX), Close], [Not, Open, Name(LINUX), Or, Name(HAIKU), Close];
            && Widens(ts, us, 3) && Hangs(ts, env, 3)
            && Value(ts, env) == Some(true) && Value(us, env) == Some(false)
  {
    var ts, us := [Not, Open, Name(LINUX), Close], [Not, Open, Name(LINUX), Or, Name(HAIKU), Close];
    assert EvalAnd(ts, env, 2) == Some((false, 3));
    assert EvalOr(ts, env, 2) == Some((false, 3));
    assert EvalUnary(ts, env, 1) == Some((false, 4));
    assert EvalUnary(ts, env, 0) == Some((true, 4));
    assert EvalAnd(ts, env, 0) == Some((true, 4));
    assert EvalOr(ts, env, 0) == Some((true, 4));
    assert HangsOr(ts, env, 3, 2);
    assert HangsUnary(ts, env, 3, 0);
    assert HangsAnd(ts, env, 3, 0);
    assert EvalAnd(us, env, 2) == Some((false, 3));
    assert EvalAnd(us, env, 4) == Some((true, 5));
    assert OrTail(us, env, false, 3) == Some((true, 5));
    assert EvalOr(us, env, 2) == Some((true, 5));
    assert EvalUnary(us, env, 1) == Some((true, 6));
    assert EvalUnary(us, env, 0) == Some((false, 6));
    assert EvalAnd(us, env, 0) == Some((false, 6));
    assert EvalOr(us, env, 0) == Some((false, 6));
  }

  // ---- parentheses

  /** The open parentheses after one token; 0 ends the search. */
  function Opened(token: Token, depth: nat): nat
    requires depth > 0
  {
    if token == Open then depth + 1 else if token == Close then depth - 1 else depth
  }

  /** How many parentheses are open after ts when `depth` are open before; None when they close before the end. */
  function Depth(ts: seq<Token>, depth: nat): Option<nat>
    requires depth > 0
  {
    if ts == [] then Some(depth)
    else if Opened(ts[0], depth) == 0 then None
    else Depth(ts[1..], Opened(ts[0], depth))
  }

  lemma DepthStep(ts: seq<Token>, i: nat, depth: nat)
    requires i < |ts| && depth > 0
    ensures ts[i] == Open ==> Depth(ts[i..], depth) == Depth(ts[i + 1..], depth + 1)
    ensures ts[i] == Close && depth > 1 ==> Depth(ts[i..], depth) == Depth(ts[i + 1..], depth - 1)
    ensures ts[i] != Open && ts[i] != Close ==> Depth(ts[i..], depth) == Depth(ts[i + 1..], depth)
  {
    assert ts[i..][1..] == ts[i + 1..];
  }

  lemma {:induction false} UnaryDepth(ts: seq<Token>, env: Environment, i: nat, depth: nat)
    requires i <= |ts| && EvalUnary(ts, env, i).Some? && depth > 0
    ensures Depth(ts[i..], depth) == Depth(ts[EvalUnary(ts, env, i).value.1..], depth)
    decreases |ts| - i, 0
  {
    DepthStep(ts, i, depth);
    hide Depth, EvalOr, EvalAnd;
    match ts[i]
    case Not => UnaryDepth(ts, env, i + 1, depth);
    case Open =>
      OrDepth(ts, env, i + 1, depth + 1);
      DepthStep(ts, EvalOr(ts, env, i + 1).value.1, depth + 1);
    case _ =>
  }

  lemma {:induction false} AndTailDepth(ts: seq<Token>, env: Environment, v: bool, i: nat, depth: nat)
    requires i <= |ts| && AndTail(ts, env, v, i).Some? && depth > 0
    ensures Depth(ts[i..], depth) == Depth(ts[AndTail(ts, env, v, i).value.1..], depth)
    decreases |ts| - i, 1
  {
    hide Depth, EvalUnary;
    if i < |ts| && ts[i] == And {
      DepthStep(ts, i, depth);
      UnaryDepth(ts, env, i + 1, depth);
      var (w, j) := EvalUnary(ts, env, i + 1).value;
      AndTailDepth(ts, env, v && w, j, depth);
    }
  }

  lemma {:induction false} AndDepth(ts: seq<Token>, env: Environment, i: nat, depth: nat)
    requires i <= |ts| && EvalAnd(ts, env, i).Some? && depth > 0
    ensures Depth(ts[i..], depth) == Depth(ts[EvalAnd(ts, env, i).value.1..], depth)
    decreases |ts| - i, 2
  {
    hide Depth, EvalUnary, AndTail;
    UnaryDepth(ts, env, i, depth);
    var (v, j) := EvalUnary(ts, env, i).value;
    AndTailDepth(ts, env, v, j, depth);
  }

  lemma {:induction false} OrTailDepth(ts: seq<Token>, env: Environment, v: bool, i: nat, depth: nat)
    requires i <= |ts| && OrTail(ts, env, v, i).Some? && depth > 0
    ensures Depth(ts[i..], depth) == Depth(ts[OrTail(ts, env, v, i).value.1..], depth)
    decreases |ts| - i, 3
  {
    hide Depth, EvalAnd;
    if i < |ts| && ts[i] == Or {
      DepthStep(ts, i, depth);
      AndDepth(ts, env, i + 1, depth);
      var (w, j) := EvalAnd(ts, env, i + 1).value;
      OrTailDepth(ts, env, v || w, j, depth);
    }
  }

  lemma {:induction false} OrDepth(ts: seq<Token>, env: Environment, i: nat, depth: nat)
    requires i <= |ts| && EvalOr(ts, env, i).Some? && depth > 0
    ensures Depth(ts[i..], depth) == Depth(ts[EvalOr(ts, env, i).value.1..], depth)
    decreases |ts| - i, 4
  {
    hide Depth, EvalAnd, OrTail;
    AndDepth(ts, env, i, depth);
    var (v, j) := EvalAnd(ts, env, i).value;
    OrTailDepth(ts, env, v, j, depth);
  }

  // ---- from text to tokens

  predicate IsBlank(c: char) {
    c == ' ' || c == '\t' || c == '\n' || c == '\r'
  }

  function NameLength(t: string): (k: nat)
    ensures k <= |t| && forall i :: 0 <= i < k ==> IsNameChar(t[i])
    ensures k < |t| ==> !IsNameChar(t[k])
  {
    if t != "" && IsNameChar(t[0]) then 1 + NameLength(t[1..]) else 0
  }

  function Cat(a: Option<seq<Token>>, b: Option<seq<Token>>): Option<seq<Token>> {
    if a.Some? && b.Some? then Some(a.value + b.value) else None
  }

  /** The first token of a text that starts with one, and how many characters it takes. */
  function FirstToken(t: string): (r: Option<(Token, nat)>)
    requires t != ""
    ensures r.Some? ==> 0 < r.value.1 <= |t|
  {
    if t[0] == '(' then Some((Open, 1))
    else if t[0] == ')' then Some((Close, 1))
    else if t[0] == '!' then Some((Not, 1))
    else if t[0] == '&' && |t| > 1 && t[1] == '&' then Some((And, 2))
    else if t[0] == '|' && |t| > 1 && t[1] == '|' then Some((Or, 2))
    else if IsNameChar(t[0]) then Some((Name(t[..NameLength(t)]), NameLength(t)))
    else None
  }

  function Lex(t: string): Option<seq<Token>>
    decreases |t|
  {
    if t == "" then Some([])
    else if IsBlank(t[0]) then Lex(t[1..])
    else
      match FirstToken(t)
      case None => None
      case Some((token, k)) => Cat(Some([token]), Lex(t[k..]))
  }

  /** A text that cannot continue the token before it. */
  predicate Breaks(b: string) {
    b == "" || (!IsNameChar(b[0]) && b[0] != '&' && b[0] != '|')
  }

  lemma {:induction false} NameLengthAppend(a: string, b: string)
    requires a != "" && Breaks(b)
    ensures NameLength(a + b) == NameLength(a)
  {
    assert (a + b)[1..] == a[1..] + b;
    if |a| > 1 {
      NameLengthAppend(a[1..], b);
    } else {
      assert a[1..] + b == b;
    }
  }

  lemma FirstTokenAppend(a: string, b: string)
    requires a != "" && Breaks(b)
    ensures FirstToken(a + b) == FirstToken(a)
  {
    NameLengthAppend(a, b);
    assert (a + b)[0] == a[0];
    assert NameLength(a) <= |a|;
    assert (a + b)[..NameLength(a)] == a[..NameLength(a)];
    assert |a| > 1 ==> (a + b)[1] == a[1];
    assert |a| == 1 && b != "" ==> (a + b)[1] == b[0];
  }

  lemma CatUnit(x: Option<seq<Token>>)
    ensures Cat(Some([]), x) == x && Cat(x, Some([])) == x
  {
    if x.Some? {
      assert [] + x.value == x.value && x.value + [] == x.value;
    }
  }

  lemma {:induction false} LexAppend(a: string, b: string)
    requires Breaks(b)
    ensures Lex(a + b) == Cat(Lex(a), Lex(b))
    decreases |a|
  {
    if a == "" {
      assert a + b == b;
      CatUnit(Lex(b));
    } else if IsBlank(a[0]) {
      assert (a + b)[1..] == a[1..] + b;
      LexAppend(a[1..], b);
    } else {
      FirstTokenAppend(a, b);
      if FirstToken(a).Some? {
        var (token, k) := FirstToken(a).value;
        assert (a + b)[k..] == a[k..] + b;
        LexAppend(a[k..], b);
        if Lex(a[k..]).Some? && Lex(b).Some? {
          assert [token] + (Lex(a[k..]).value + Lex(b).value) == [token] + Lex(a[k..]).value + Lex(b).value;
        }
      }
    }
  }

  lemma {:induction false} LexSpaces(b: string)
    requires forall c :: c in b ==> IsSpace(c)
    ensures Lex(b).Some? ==> Lex(b) == Some([])
  {
    if b != "" {
      assert b[0] in b;
      if IsBlank(b[0]) { LexSpaces(b[1..]); }
    }
  }

  lemma LexRstrip(a: string)
    requires Lex(a).Some?
    ensures Lex(Rstrip(a)) == Lex(a)
  {
    var r := Rstrip(a);
    var b := a[|r|..];
    assert a == r + b;
    assert forall c :: c in b ==> exists k :: |r| <= k < |a| && a[k] == c;
    LexSpaces(b);
    LexAppend(r, b);
    CatUnit(Lex(r));
  }

  lemma LexName(w: string)
    requires w != "" && forall c :: c in w ==> IsNameChar(c)
    ensures Lex(w) == Some([Name(w)])
  {
    AllNames(w);
    assert FirstToken(w) == Some((Name(w[..|w|]), |w|));
    assert w[|w|..] == "" && w[..|w|] == w;
    CatUnit(Some([Name(w)]));
  }

  lemma LexSuffix()
    ensures Lex(SUFFIX) == Some(INSERTED)
  {
    var t, u := "|| is_haiku", " is_haiku";
    LexName(HAIKU);
    hide Lex, NameLength, Cat;
    assert SUFFIX[1..] == t && t[2..] == u && u[1..] == HAIKU;
    LexSpace(SUFFIX);
    LexSpace(u);
    LexBars(t);
    CatTwo(Or, Name(HAIKU));
  }

  lemma CatTwo(a: Token, b: Token)
    ensures Cat(Some([a]), Some([b])) == Some([a, b])
  {
    assert [a] + [b] == [a, b];
  }

  lemma LexSpace(t: string)
    requires t != "" && t[0] == ' '
    ensures Lex(t) == Lex(t[1..])
  {
  }

  lemma LexBars(t: string)
    requires |t| >= 2 && t[0] == '|' && t[1] == '|'
    ensures Lex(t) == Cat(Some([Or]), Lex(t[2..]))
  {
  }

  lemma {:induction false} AllNames(t: string)
    requires forall c :: c in t ==> IsNameChar(c)
    ensures NameLength(t) == |t|
  {
    if t != "" { AllNames(t[1..]); }
  }

  /** A condition has no comma and no semicolon in it. */
  lemma {:induction false} LexCharacters(t: string, k: nat)
    requires Lex(t).Some? && k < |t|
    ensures t[k] != ',' && t[k] != ';'
    decreases |t|
  {
    if IsBlank(t[0]) {
      if k > 0 { LexCharacters(t[1..], k - 1); }
    } else {
      var (_, n) := FirstToken(t).value;
      if k >= n { LexCharacters(t[n..], k - n); }
    }
  }
}
