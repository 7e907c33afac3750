/** DepDescendentIter::reset: the cohorts below a cohort in the dependency graph, which may have loops. */
module Descendants {

  /**
   The cohorts of cohort_map by position in the text, with their dep_children and the number of the
   window they are in. Children need not be in cohort_map.
   */
  datatype Graph = Graph(children: map<nat, set<nat>>, window: map<nat, int>)

  predicate Valid(g: Graph) {
    g.window.Keys == g.children.Keys
  }

  /** The position flags of the contextual test. */
  datatype Flags = Flags(spanBoth: bool, spanLeft: bool, spanRight: bool, left: bool, right: bool, self: bool)

  /** Cohort x may be used in a walk from start: it is in the same window, or the flags span to its window. */
  predicate Allowed(g: Graph, t: Flags, start: nat, x: nat)
    requires start in g.window && x in g.window
  {
    || g.window[x] == g.window[start]
    || (g.window[x] < g.window[start] && (t.spanBoth || t.spanLeft))
    || (g.window[x] > g.window[start] && (t.spanBoth || t.spanRight))
  }

  predicate Edge(g: Graph, t: Flags, start: nat, x: nat, y: nat)
    requires Valid(g) && start in g.children
  {
    x in g.children && y in g.children[x] && y in g.children && Allowed(g, t, start, y)
  }

  /** y is n steps below start. */
  ghost predicate Below(g: Graph, t: Flags, start: nat, y: nat, n: nat)
    requires Valid(g) && start in g.children
    decreases n
  {
    if n == 0 then y == start
    else exists x :: Below(g, t, start, x, n - 1) && Edge(g, t, start, x, y)
  }

  ghost predicate IsDescendant(g: Graph, t: Flags, start: nat, y: nat)
    requires Valid(g) && start in g.children
  {
    exists n: nat :: 0 < n && Below(g, t, start, y, n)
  }

  // ---- closures ----

  /** Children of start and of members of d that lie in keys are in d. */
  ghost predicate Closed(g: Graph, start: nat, keys: set<nat>, d: set<nat>) {
    forall x, y :: (x == start || x in d) && x in g.children && y in g.children[x] && y in keys ==> y in d
  }

  /** d is what one gets to from start by steps to children that lie in keys: the least set closed under them. */
  ghost predicate IsClosure(g: Graph, start: nat, keys: set<nat>, d: set<nat>) {
    d <= keys && Closed(g, start, keys, d) && forall other :: Closed(g, start, keys, other) ==> d <= other
  }

  /** The cohorts of start's window, of it and the windows before, and of it and the windows after. */
  function SameWindow(g: Graph, start: nat): set<nat>
    requires start in g.window
  {
    set x | x in g.window && g.window[x] == g.window[start]
  }

  function UpToWindow(g: Graph, start: nat): set<nat>
    requires start in g.window
  {
    set x | x in g.window && g.window[x] <= g.window[start]
  }

  function FromWindow(g: Graph, start: nat): set<nat>
    requires start in g.window
  {
    set x | x in g.window && g.window[start] <= g.window[x]
  }

  lemma {:induction false} ClosureHasAll(g: Graph, t: Flags, start: nat, other: set<nat>, keys: set<nat>, y: nat,
                                         n: nat)
    requires Valid(g) && start in g.children && Closed(g, start, keys, other)
    requires forall x :: x in keys <==> x in g.children && Allowed(g, t, start, x)
    requires 0 < n && Below(g, t, start, y, n)
    ensures y in other
    decreases n
  {
    var x :| Below(g, t, start, x, n - 1) && Edge(g, t, start, x, y);
    if n > 1 { ClosureHasAll(g, t, start, other, keys, x, n - 1); }
  }

  /** The descendants are the closure within what is allowed. */
  lemma DescendantsAreClosure(g: Graph, t: Flags, start: nat, d: set<nat>, keys: set<nat>)
    requires Valid(g) && start in g.children && AllDescend(g, t, start, d)
    requires forall y :: IsDescendant(g, t, start, y) ==> y in d
    requires forall x :: x in keys <==> x in g.children && Allowed(g, t, start, x)
    ensures IsClosure(g, start, keys, d)
  {
    forall x, y | (x == start || x in d) && x in g.children && y in g.children[x] && y in keys ensures y in d {
      OneFurther(g, t, start, x, y);
    }
    forall y | y in d ensures y in keys {
      LastStep(g, t, start, y);
    }
    forall other | Closed(g, start, keys, other) ensures d <= other {
      forall y | y in d ensures y in other {
        var n: nat :| 0 < n && Below(g, t, start, y, n);
        ClosureHasAll(g, t, start, other, keys, y, n);
      }
    }
  }

  lemma LastStep(g: Graph, t: Flags, start: nat, y: nat)
    requires Valid(g) && start in g.children && IsDescendant(g, t, start, y)
    ensures y in g.children && Allowed(g, t, start, y)
  {
    var n: nat :| 0 < n && Below(g, t, start, y, n);
    var x :| Below(g, t, start, x, n - 1) && Edge(g, t, start, x, y);
  }

  lemma OneFurther(g: Graph, t: Flags, start: nat, x: nat, y: nat)
    requires Valid(g) && start in g.children && Edge(g, t, start, x, y)
    requires x == start || IsDescendant(g, t, start, x)
    ensures IsDescendant(g, t, start, y)
  {
    if x == start {
      assert Below(g, t, start, start, 0);
      assert Below(g, t, start, y, 1);
    } else {
      var n: nat :| 0 < n && Below(g, t, start, x, n);
      assert Below(g, t, start, y, n + 1);
    }
  }

  /** Everything expanded has its allowed children among found. */
  ghost predicate Expanded(g: Graph, t: Flags, start: nat, seen: set<nat>, found: set<nat>)
    requires Valid(g) && start in g.children
  {
    forall x, y :: x in seen && Edge(g, t, start, x, y) ==> y in found
  }

  ghost predicate AllDescend(g: Graph, t: Flags, start: nat, found: set<nat>)
    requires Valid(g) && start in g.children
  {
    forall x :: x in found ==> x in g.children && IsDescendant(g, t, start, x)
  }

  /** Once everything found is expanded, nothing is missing. */
  lemma {:induction false} NothingMissing(g: Graph, t: Flags, start: nat, found: set<nat>, y: nat, n: nat)
    requires Valid(g) && start in g.children && Expanded(g, t, start, found + {start}, found)
    requires 0 < n && Below(g, t, start, y, n)
    ensures y in found
    decreases n
  {
    var x :| Below(g, t, start, x, n - 1) && Edge(g, t, start, x, y);
    if n > 1 { NothingMissing(g, t, start, found, x, n - 1); }
  }

  /** The allowed children of x are added to found. */
  method AddChildren(g: Graph, t: Flags, start: nat, x: nat, found: set<nat>) returns (more: set<nat>, added: bool)
    requires Valid(g) && start in g.children && x in g.children && AllDescend(g, t, start, found)
    requires x == start || IsDescendant(g, t, start, x)
    ensures AllDescend(g, t, start, more) && found <= more
    ensures forall y :: Edge(g, t, start, x, y) ==> y in more
    ensures !added ==> more == found
  {
    more, added := found, false;
    var todo := g.children[x];
    while todo != {}
      invariant todo <= g.children[x] && found <= more && AllDescend(g, t, start, more)
      invariant forall y :: Edge(g, t, start, x, y) ==> y in more || y in todo
      invariant !added ==> more == found
      decreases todo
    {
      var y :| y in todo;
      todo := todo - {y};
      if y in g.children && Allowed(g, t, start, y) {
        OneFurther(g, t, start, x, y);
        more := more + {y};
        added := true;
      }
    }
  }

  /** One round: what was found and not yet seen is expanded. */
  method Round(g: Graph, t: Flags, start: nat, seen: set<nat>, found: set<nat>)
      returns (seen': set<nat>, found': set<nat>, added: bool)
    requires Valid(g) && start in g.children && AllDescend(g, t, start, found)
    requires start in seen && seen <= found + {start} && Expanded(g, t, start, seen, found)
    ensures AllDescend(g, t, start, found') && found <= found' && seen <= seen' == found + {start}
    ensures Expanded(g, t, start, seen', found')
    ensures !added ==> found' == found
    ensures added ==> seen < seen'
  {
    seen', added := seen, false;
    var toAdd: set<nat> := {};
    var todo := found - seen;
    while todo != {}
      invariant todo <= found && seen <= seen' && todo !! seen' && seen' + todo == found + {start}
      invariant AllDescend(g, t, start, toAdd) && Expanded(g, t, start, seen', found + toAdd)
      invariant !added ==> toAdd == {}
      invariant added ==> seen < seen'
      decreases todo
    {
      var x :| x in todo;
      todo := todo - {x};
      seen' := seen' + {x};
      var more, did := AddChildren(g, t, start, x, toAdd);
      toAdd := more;
      added := added || did;
    }
    found' := found + toAdd;
  }

  /**
   Terminates on every graph. all is what one gets to from start by steps to children in the windows that the span
   flags admit; of these the other flags pick those before start or from it on, and add start itself.
   */
  method Reset(g: Graph, t: Flags, start: nat) returns (descendants: set<nat>, ghost all: set<nat>)
    requires Valid(g) && start in g.children
    ensures !t.spanBoth && !t.spanLeft && !t.spanRight ==> IsClosure(g, start, SameWindow(g, start), all)
    ensures !t.spanBoth && t.spanLeft && !t.spanRight ==> IsClosure(g, start, UpToWindow(g, start), all)
    ensures !t.spanBoth && !t.spanLeft && t.spanRight ==> IsClosure(g, start, FromWindow(g, start), all)
    ensures t.spanBoth || (t.spanLeft && t.spanRight) ==> IsClosure(g, start, g.children.Keys, all)
    ensures forall y: nat :: y in descendants <==>
              (y in all && (t.left ==> y < start) && (t.right ==> start <= y)) || (t.self && y == start)
  {
    descendants := Walk(g, t, start);
    all := descendants;
    DescendantsAreClosure(g, t, start, all, set x | x in g.children && Allowed(g, t, start, x));
    AllowedWindows(g, t, start);
    if t.left {
      descendants := set y | y in descendants && y < start;
    }
    if t.right {
      descendants := set y | y in descendants && start <= y;
    }
    if t.self {
      descendants := descendants + {start};
    }
  }

  lemma AllowedWindows(g: Graph, t: Flags, start: nat)
    requires Valid(g) && start in g.children
    ensures var keys := set x | x in g.children && Allowed(g, t, start, x);
            keys == if t.spanBoth || (t.spanLeft && t.spanRight) then g.children.Keys
                    else if t.spanLeft then UpToWindow(g, start)
                    else if t.spanRight then FromWindow(g, start)
                    else SameWindow(g, start)
  {
  }

  /** The loop: round after round until one adds nothing. */
  method Walk(g: Graph, t: Flags, start: nat) returns (found: set<nat>)
    requires Valid(g) && start in g.children
    ensures AllDescend(g, t, start, found) && forall y :: IsDescendant(g, t, start, y) ==> y in found
  {
    var seen: set<nat> := {start};
    var added;
    found, added := AddChildren(g, t, start, start, {});
    added := true;
    while added
      invariant AllDescend(g, t, start, found) && found <= g.children.Keys
      invariant start in seen && seen <= found + {start} && Expanded(g, t, start, seen, found)
      invariant !added ==> seen == found + {start}
      decreases g.children.Keys - seen, added
    {
      seen, found, added := Round(g, t, start, seen, found);
    }
    forall y | IsDescendant(g, t, start, y) ensures y in found {
      var n: nat :| 0 < n && Below(g, t, start, y, n);
      NothingMissing(g, t, start, found, y, n);
    }
  }
}
