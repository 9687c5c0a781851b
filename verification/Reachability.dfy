/** scan_reachable.py: the targets of a build graph that one root target depends on. */
module Reachability {
  import opened Wrappers

  type Label = string

  /** The two dependency lists of a target; a target may lack either. */
  datatype Info = Info(deps: Option<seq<Label>>, publicDeps: Option<seq<Label>>)

  type Graph = map<Label, Info>

  /** d is in the one list or in the other. */
  predicate DependsOn(info: Info, d: Label) {
    (info.deps.Some? && d in info.deps.value) || (info.publicDeps.Some? && d in info.publicDeps.value)
  }

  /** Either list of a target counts, and a list it lacks holds nothing. */
  lemma DependsExactly(info: Info, d: Label)
    ensures DependsOn(info, d) <==> d in ListOf(info.deps) + ListOf(info.publicDeps)
    ensures ListOf(None) == [] && forall s :: ListOf(Some(s)) == s
  {
  }

  function ListOf(o: Option<seq<Label>>): seq<Label> {
    match o
    case Some(s) => s
    case None => []
  }

  /** A walk over known targets, each depending on the next. */
  ghost predicate Walk(g: Graph, path: seq<Label>) {
    && path != []
    && (forall t :: t in path ==> t in g)
    && forall i :: 0 <= i < |path| - 1 ==> DependsOn(g[path[i]], path[i + 1])
  }

  ghost predicate Reaches(g: Graph, root: Label, t: Label) {
    exists path :: Walk(g, path) && path[0] == root && path[|path| - 1] == t
  }

  /** Everything known that a member depends on is a member, or still on the stack. */
  ghost predicate Closed(g: Graph, members: set<Label>, stack: seq<Label>) {
    forall t, d :: t in members && t in g && DependsOn(g[t], d) && d in g ==> d in members || d in stack
  }

  lemma ReachesSelf(g: Graph, t: Label)
    requires t in g
    ensures Reaches(g, t, t)
  {
    assert Walk(g, [t]);
  }

  lemma ReachesStep(g: Graph, root: Label, t: Label, d: Label)
    requires Reaches(g, root, t) && t in g && DependsOn(g[t], d) && d in g
    ensures Reaches(g, root, d)
  {
    hide DependsOn;
    var path :| Walk(g, path) && path[0] == root && path[|path| - 1] == t;
    var longer := path + [d];
    assert Walk(g, longer);
    assert longer[0] == root && longer[|longer| - 1] == d;
  }

  /** A closed set with the root in it holds every target on every walk from the root. */
  lemma {:induction false} WalkStaysInside(g: Graph, members: set<Label>, path: seq<Label>)
    requires Closed(g, members, []) && Walk(g, path) && path[0] in members
    ensures path[|path| - 1] in members
    decreases |path|
  {
    if |path| > 1 {
      assert DependsOn(g[path[0]], path[1]);
      assert path[1] in g by { assert path[1] in path; }
      assert path[0] in g by { assert path[0] in path; }
      forall i | 0 <= i < |path[1..]| - 1 ensures DependsOn(g[path[1..][i]], path[1..][i + 1]) {
        assert DependsOn(g[path[i + 1]], path[i + 2]);
      }
      WalkStaysInside(g, members, path[1..]);
    }
  }

  /** A target expanded: its dependencies are members or on the stack, so the rest stays closed. */
  lemma ExpandedStaysClosed(g: Graph, members: set<Label>, stack: seq<Label>, t: Label, pushed: seq<Label>)
    requires Closed(g, members, stack + [t]) && t in g
    requires forall d :: d in pushed <==> d in stack || (DependsOn(g[t], d) && d !in members + {t})
    ensures Closed(g, members + {t}, pushed)
  {
    hide DependsOn;
  }

  ghost predicate AllReached(g: Graph, root: Label, labels: seq<Label>) {
    forall t :: t in labels && t in g ==> Reaches(g, root, t)
  }

  lemma ExpandedIsReached(g: Graph, root: Label, stack: seq<Label>, t: Label, pushed: seq<Label>)
    requires AllReached(g, root, stack + [t]) && t in g
    requires forall d :: d in pushed ==> d in stack || DependsOn(g[t], d)
    ensures AllReached(g, root, pushed)
  {
    hide DependsOn, Reaches;
    assert t in stack + [t];
    forall d | d in pushed && d in g ensures Reaches(g, root, d) {
      if d in stack {
        assert d in stack + [t];
      } else {
        ReachesStep(g, root, t, d);
      }
    }
  }

  lemma ClosedHoldsReached(g: Graph, root: Label, members: set<Label>, t: Label)
    requires Closed(g, members, []) && (root in g ==> root in members) && Reaches(g, root, t)
    ensures t in members
  {
    var path :| Walk(g, path) && path[0] == root && path[|path| - 1] == t;
    assert path[0] in path;
    WalkStaysInside(g, members, path);
  }

  /** The worklist ends, on cycles, unknown labels and labels pushed twice alike, with exactly what the root reaches. */
  method Scan(targets: Graph, root: Label) returns (reachable: set<Label>)
    ensures reachable <= targets.Keys
    ensures forall t :: t in reachable <==> Reaches(targets, root, t)
  {
    if root in targets { ReachesSelf(targets, root); }
    hide Reaches, Closed, DependsOn;
    reachable := {};
    var stack := [root];
    StartsClosed(targets, stack);
    while stack != []
      invariant reachable <= targets.Keys
      invariant forall t :: t in reachable ==> Reaches(targets, root, t)
      invariant AllReached(targets, root, stack)
      invariant root in targets ==> root in reachable || root in stack
      invariant Closed(targets, reachable, stack)
      decreases targets.Keys - reachable, |stack|
    {
      var t := stack[|stack| - 1];
      ghost var full := stack;
      stack := stack[..|stack| - 1];
      assert full == stack + [t];
      assert t in full;
      if t in reachable || t !in targets {
        DroppedStaysClosed(targets, reachable, stack, t);
        continue;
      }
      ghost var before, rest := reachable, stack;
      reachable := reachable + {t};
      stack := Expand(stack, targets[t], reachable);
      ExpandedStaysClosed(targets, before, rest, t, stack);
      ExpandedIsReached(targets, root, rest, t, stack);
      assert t in targets.Keys - before && t !in targets.Keys - reachable;
    }
    forall t | Reaches(targets, root, t) ensures t in reachable {
      ClosedHoldsReached(targets, root, reachable, t);
    }
  }

  lemma StartsClosed(g: Graph, stack: seq<Label>)
    ensures Closed(g, {}, stack)
  {
  }

  lemma DroppedStaysClosed(g: Graph, members: set<Label>, stack: seq<Label>, t: Label)
    requires Closed(g, members, stack + [t]) && (t in members || t !in g)
    ensures Closed(g, members, stack)
  {
    hide DependsOn;
  }

  /** Both dependency lists of a target, pushed one after the other. */
  method Expand(stack: seq<Label>, info: Info, reachable: set<Label>) returns (pushed: seq<Label>)
    ensures forall d :: d in pushed <==> d in stack || (DependsOn(info, d) && d !in reachable)
  {
    pushed := PushAll(stack, ListOf(info.deps), reachable);
    pushed := PushAll(pushed, ListOf(info.publicDeps), reachable);
  }

  /** The inner loop: labels not yet reached go on the stack, in order. */
  method PushAll(stack: seq<Label>, labels: seq<Label>, reachable: set<Label>) returns (pushed: seq<Label>)
    ensures stack <= pushed
    ensures forall d :: d in pushed <==> d in stack || (d in labels && d !in reachable)
  {
    pushed := stack;
    for i := 0 to |labels|
      invariant stack <= pushed
      invariant forall d :: d in pushed <==> d in stack || (d in labels[..i] && d !in reachable)
    {
      assert labels[..i + 1] == labels[..i] + [labels[i]];
      if labels[i] !in reachable {
        pushed := pushed + [labels[i]];
      }
    }
    assert labels[..|labels|] == labels;
  }
}
