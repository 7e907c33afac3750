/** The dependency tree over cohorts: attaching with a loop check, and taking a cohort out of the tree. */
module DependencyForest {

  const NO_PARENT: nat := 0xFFFF_FFFF
  /** How many ancestors the loop check walks past. */
  const STEPS: nat := 1000

  // ---- graphs of parents ----

  /** a is n steps above x; only cohorts in f have a step up. */
  predicate Reaches(f: map<nat, nat>, x: nat, a: nat, n: nat)
    decreases n
  {
    if n == 0 then x == a else x in f && Reaches(f, f[x], a, n - 1)
  }

  ghost predicate IsAbove(f: map<nat, nat>, a: nat, x: nat) {
    exists n: nat :: Reaches(f, x, a, n)
  }

  /** No cohort is above itself. */
  ghost predicate IsForest(f: map<nat, nat>) {
    forall x: nat, n: nat :: x in f && 0 < n ==> !Reaches(f, x, x, n)
  }

  lemma {:induction false} ReachesOn(f: map<nat, nat>, x: nat, a: nat, b: nat, m: nat, n: nat)
    requires Reaches(f, x, a, m) && Reaches(f, a, b, n)
    ensures Reaches(f, x, b, m + n)
    decreases m
  {
    if m > 0 { ReachesOn(f, f[x], a, b, m - 1, n); }
  }

  /** A walk after c has been given parent p is a walk as before, or gets to c as before and goes on from p. */
  lemma {:induction false} WalkAfterAttach(f: map<nat, nat>, p: nat, c: nat, x: nat, a: nat, n: nat) returns (m: nat)
    requires Reaches(f[c := p], x, a, n)
    ensures Reaches(f, x, a, n) || (m < n && Reaches(f, x, c, m) && Reaches(f[c := p], p, a, n - m - 1))
    decreases n
  {
    m := 0;
    if n > 0 && x != c {
      m := WalkAfterAttach(f, p, c, f[x], a, n - 1);
      m := m + 1;
    }
  }

  /** What got to c still does, perhaps sooner. */
  lemma {:induction false} WalkToChild(f: map<nat, nat>, p: nat, c: nat, x: nat, n: nat) returns (m: nat)
    requires Reaches(f, x, c, n)
    ensures Reaches(f[c := p], x, c, m)
    decreases n
  {
    if x == c {
      m := 0;
    } else {
      m := WalkToChild(f, p, c, f[x], n - 1);
      m := m + 1;
    }
  }

  /** Attaching makes a loop exactly when the child is the parent or above it. */
  lemma AttachKeepsForest(f: map<nat, nat>, p: nat, c: nat)
    requires IsForest(f) && c in f
    ensures IsForest(f[c := p]) <==> !IsAbove(f, c, p)
  {
    var f' := f[c := p];
    if IsAbove(f, c, p) {
      var n: nat :| Reaches(f, p, c, n);
      var m := WalkToChild(f, p, c, p, n);
      assert Reaches(f', c, c, m + 1);
    } else {
      forall x: nat, n: nat | x in f' && 0 < n ensures !Reaches(f', x, x, n) {
        if Reaches(f', x, x, n) {
          var m := WalkAfterAttach(f, p, c, x, x, n);
          var k := WalkAfterAttach(f, p, c, p, x, n - m - 1);
          if Reaches(f, p, x, n - m - 1) { ReachesOn(f, p, x, c, n - m - 1, m); }
          assert false;
        }
      }
    }
  }

  // ---- the loop check ----

  /** The walk of wouldParentChildLoop, with i steps left. */
  predicate FindsAbove(f: map<nat, nat>, inner: nat, child: nat, i: nat)
    requires inner in f
    decreases i
  {
    0 < i && f[inner] != 0 && f[inner] != NO_PARENT && f[inner] in f &&
    (f[f[inner]] == child || FindsAbove(f, f[inner], child, i - 1))
  }

  predicate WouldLoop(f: map<nat, nat>, parent: nat, child: nat)
    requires parent in f && child in f
  {
    if parent == child then true
    else if parent == f[child] then false
    else if parent == f[parent] then false
    else f[parent] == child || FindsAbove(f, parent, child, STEPS)
  }

  /** Nothing is above the root 0, and NO_PARENT is no cohort. */
  predicate Rooted(f: map<nat, nat>) {
    NO_PARENT !in f && (0 in f ==> f[0] !in f)
  }

  /** a is at least lo and at most hi steps above x. */
  ghost predicate IsWithin(f: map<nat, nat>, x: nat, a: nat, lo: nat, hi: nat) {
    exists n: nat :: lo <= n <= hi && Reaches(f, x, a, n)
  }

  /** One step up the range shifts by one. */
  lemma WithinStep(f: map<nat, nat>, x: nat, a: nat, hi: nat)
    requires x in f && 2 <= hi
    ensures IsWithin(f, x, a, 2, hi) <==> IsWithin(f, f[x], a, 1, hi - 1)
  {
    if IsWithin(f, x, a, 2, hi) {
      var n: nat :| 2 <= n <= hi && Reaches(f, x, a, n);
      assert Reaches(f, f[x], a, n - 1);
    }
    if IsWithin(f, f[x], a, 1, hi - 1) {
      var n: nat :| 1 <= n <= hi - 1 && Reaches(f, f[x], a, n);
      assert Reaches(f, x, a, n + 1);
    }
  }

  lemma WithinSplit(f: map<nat, nat>, x: nat, a: nat, hi: nat)
    requires x in f && 1 <= hi
    ensures IsWithin(f, x, a, 1, hi) <==> f[x] == a || IsWithin(f, x, a, 2, hi)
  {
    if IsWithin(f, x, a, 1, hi) {
      var n: nat :| 1 <= n <= hi && Reaches(f, x, a, n);
      assert n == 1 ==> Reaches(f, f[x], a, 0);
    }
    if f[x] == a {
      assert Reaches(f, f[x], a, 0);
      assert Reaches(f, x, a, 1);
    }
  }

  /** With i steps left, the walk finds a cohort that is 2 to i + 1 steps above. */
  lemma {:induction false} WalkFinds(f: map<nat, nat>, inner: nat, child: nat, i: nat)
    requires inner in f && Rooted(f) && child in f
    ensures FindsAbove(f, inner, child, i) <==> IsWithin(f, inner, child, 2, i + 1)
    decreases i
  {
    if 0 < i {
      var up := f[inner];
      WithinStep(f, inner, child, i + 1);
      if up in f && up != 0 {
        assert up != NO_PARENT;
        WalkFinds(f, up, child, i - 1);
        WithinSplit(f, up, child, i);
      } else {
        forall n: nat | 1 <= n <= i ensures !Reaches(f, up, child, n) {
          if up in f { NothingAboveRoot(f, child, n); }
        }
      }
    }
  }

  lemma NothingAboveRoot(f: map<nat, nat>, a: nat, n: nat)
    requires Rooted(f) && 0 in f && a in f && 0 < n
    ensures !Reaches(f, 0, a, n)
  {
    assert Reaches(f, 0, a, n) == Reaches(f, f[0], a, n - 1);
  }

  /** In a forest the check answers yes exactly when the child is the parent or up to 1001 steps above it. */
  lemma WouldLoopFinds(f: map<nat, nat>, parent: nat, child: nat)
    requires IsForest(f) && Rooted(f) && parent in f && child in f
    ensures WouldLoop(f, parent, child) <==> IsWithin(f, parent, child, 0, 1001)
  {
    WalkFinds(f, parent, child, STEPS);
    WithinSplit(f, parent, child, STEPS + 1);
    assert Reaches(f, parent, parent, 0);
    NotBelowItself(f, parent, 0);
    if parent != child && IsWithin(f, parent, child, 0, STEPS + 1) {
      var n: nat :| 0 <= n <= STEPS + 1 && Reaches(f, parent, child, n);
      NotBelowItself(f, child, n);
      assert IsWithin(f, parent, child, 1, STEPS + 1);
    }
  }

  lemma NotBelowItself(f: map<nat, nat>, c: nat, n: nat)
    requires IsForest(f) && c in f
    ensures !Reaches(f, f[c], c, n)
  {
    assert Reaches(f, c, c, n + 1) == Reaches(f, f[c], c, n);
  }

  /**
   What the check is worth: what it refuses would make a loop, and what it lets through keeps the
   forest unless the child is more than 1001 steps above the parent.
   */
  lemma CheckedAttach(f: map<nat, nat>, parent: nat, child: nat)
    requires IsForest(f) && Rooted(f) && parent in f && child in f
    ensures WouldLoop(f, parent, child) ==> !IsForest(f[child := parent])
    ensures !WouldLoop(f, parent, child) ==>
              (IsForest(f[child := parent]) <==> !IsFarAbove(f, child, parent))
    ensures child != 0 ==> Rooted(f[child := parent])
  {
    WouldLoopFinds(f, parent, child);
    AttachKeepsForest(f, parent, child);
    NearOrFar(f, child, parent);
  }

  /** Out of reach of the check. */
  ghost predicate IsFarAbove(f: map<nat, nat>, a: nat, x: nat) {
    exists n: nat :: STEPS + 1 < n && Reaches(f, x, a, n)
  }

  lemma NearOrFar(f: map<nat, nat>, a: nat, x: nat)
    ensures IsAbove(f, a, x) <==> IsWithin(f, x, a, 0, STEPS + 1) || IsFarAbove(f, a, x)
  {
    if IsAbove(f, a, x) {
      var n: nat :| Reaches(f, x, a, n);
      assert n <= STEPS + 1 || STEPS + 1 < n;
    }
  }

  lemma {:induction false} WithoutStart(f: map<nat, nat>, x: nat, y: nat, a: nat, n: nat)
    requires Reaches(f, y, a, n) && forall m: nat :: m < n ==> !Reaches(f, y, x, m)
    ensures Reaches(f - {x}, y, a, n)
    decreases n
  {
    if n > 0 {
      assert !Reaches(f, y, x, 0);
      forall m: nat | m < n - 1 ensures !Reaches(f, f[y], x, m) {
        assert Reaches(f, y, x, m + 1) == Reaches(f, f[y], x, m);
      }
      WithoutStart(f, x, f[y], a, n - 1);
    }
  }

  lemma {:induction false} SubgraphReaches(f: map<nat, nat>, x: nat, y: nat, a: nat, n: nat)
    requires Reaches(f - {x}, y, a, n)
    ensures Reaches(f, y, a, n)
    decreases n
  {
    if n > 0 { SubgraphReaches(f, x, f[y], a, n - 1); }
  }

  /** In a forest a walk passes every cohort at most once. */
  lemma {:induction false} WalkIsShort(f: map<nat, nat>, x: nat, a: nat, n: nat)
    requires IsForest(f) && Reaches(f, x, a, n) && a in f
    ensures n < |f|
    decreases n
  {
    if n == 0 {
      assert f.Keys != {};
    } else {
      var rest := f - {x};
      forall m: nat ensures !Reaches(f, f[x], x, m) { NotBelowItself(f, x, m); }
      WithoutStart(f, x, f[x], a, n - 1);
      assert a != x;
      forall y: nat, m: nat | y in rest && 0 < m ensures !Reaches(rest, y, y, m) {
        if Reaches(rest, y, y, m) { SubgraphReaches(f, x, y, y, m); }
      }
      WalkIsShort(rest, f[x], a, n - 1);
      assert rest.Keys == f.Keys - {x};
      assert |rest| == |f| - 1;
    }
  }

  /** With up to 1002 cohorts the check is exact: attaching is refused exactly when it would make a loop. */
  lemma CheckIsExact(f: map<nat, nat>, parent: nat, child: nat)
    requires IsForest(f) && Rooted(f) && parent in f && child in f && |f| <= 1002
    ensures WouldLoop(f, parent, child) <==> !IsForest(f[child := parent])
  {
    CheckedAttach(f, parent, child);
    forall n: nat | n > STEPS + 1 ensures !Reaches(f, parent, child, n) {
      if Reaches(f, parent, child, n) { WalkIsShort(f, parent, child, n); }
    }
  }

  // ---- runs of attaches ----

  datatype Arc = Arc(parent: nat, child: nat)

  /** The arc attached, if it is let through. */
  function WithArc(g: map<nat, nat>, a: Arc, let: bool): map<nat, nat> {
    if let then g[a.child := a.parent] else g
  }

  /** Arcs between cohorts of the tree; the root gets no parent. */
  predicate AreArcs(f: map<nat, nat>, arcs: seq<Arc>) {
    forall i :: 0 <= i < |arcs| ==> arcs[i].parent in f && arcs[i].child in f && arcs[i].child != 0
  }

  /** The tree after the first n arcs have been attached, each if the check lets it through. */
  function Checked(f: map<nat, nat>, arcs: seq<Arc>, n: nat): (g: map<nat, nat>)
    requires AreArcs(f, arcs) && n <= |arcs|
    ensures g.Keys == f.Keys
  {
    if n == 0 then f
    else
      var g, a := Checked(f, arcs, n - 1), arcs[n - 1];
      WithArc(g, a, !WouldLoop(g, a.parent, a.child))
  }

  /** The same, each if it makes no loop. */
  ghost function LoopFree(f: map<nat, nat>, arcs: seq<Arc>, n: nat): (g: map<nat, nat>)
    requires AreArcs(f, arcs) && n <= |arcs|
    ensures g.Keys == f.Keys
  {
    if n == 0 then f
    else
      var g, a := LoopFree(f, arcs, n - 1), arcs[n - 1];
      WithArc(g, a, IsForest(g[a.child := a.parent]))
  }

  /** Arc number i has its child above its parent, but out of reach of the check. */
  ghost predicate SlipsThrough(f: map<nat, nat>, arcs: seq<Arc>, i: nat)
    requires AreArcs(f, arcs) && i < |arcs|
  {
    var g := Checked(f, arcs, i);
    !WouldLoop(g, arcs[i].parent, arcs[i].child) && IsFarAbove(g, arcs[i].child, arcs[i].parent)
  }

  lemma {:induction false} CheckedIsRooted(f: map<nat, nat>, arcs: seq<Arc>, n: nat)
    requires AreArcs(f, arcs) && n <= |arcs| && Rooted(f)
    ensures Rooted(Checked(f, arcs, n))
    decreases n
  {
    if n > 0 { CheckedIsRooted(f, arcs, n - 1); }
  }

  lemma CheckedStep(f: map<nat, nat>, arcs: seq<Arc>, i: nat)
    requires AreArcs(f, arcs) && i < |arcs| && Rooted(f) && IsForest(Checked(f, arcs, i))
    ensures IsForest(Checked(f, arcs, i + 1)) <==> !SlipsThrough(f, arcs, i)
  {
    CheckedIsRooted(f, arcs, i);
    CheckedAttach(Checked(f, arcs, i), arcs[i].parent, arcs[i].child);
  }

  ghost predicate ForestUpTo(f: map<nat, nat>, arcs: seq<Arc>, n: nat)
    requires AreArcs(f, arcs) && n <= |arcs|
  {
    forall i: nat :: i <= n ==> IsForest(Checked(f, arcs, i))
  }

  ghost predicate NoneSlips(f: map<nat, nat>, arcs: seq<Arc>, n: nat)
    requires AreArcs(f, arcs) && n <= |arcs|
  {
    forall i: nat :: i < n ==> !SlipsThrough(f, arcs, i)
  }

  lemma {:induction false} NoneSlipsIsEnough(f: map<nat, nat>, arcs: seq<Arc>, n: nat, i: nat)
    requires AreArcs(f, arcs) && i <= n <= |arcs| && IsForest(f) && Rooted(f) && NoneSlips(f, arcs, n)
    ensures IsForest(Checked(f, arcs, i))
    decreases i
  {
    if i > 0 {
      NoneSlipsIsEnough(f, arcs, n, i - 1);
      CheckedStep(f, arcs, i - 1);
    }
  }

  /** Over a run of attaches the tree is a forest all along if and only if no arc slips through the check. */
  lemma RunKeepsForestIff(f: map<nat, nat>, arcs: seq<Arc>, n: nat)
    requires AreArcs(f, arcs) && n <= |arcs| && IsForest(f) && Rooted(f)
    ensures ForestUpTo(f, arcs, n) <==> NoneSlips(f, arcs, n)
  {
    if NoneSlips(f, arcs, n) {
      forall i: nat | i <= n ensures IsForest(Checked(f, arcs, i)) { NoneSlipsIsEnough(f, arcs, n, i); }
    }
    if ForestUpTo(f, arcs, n) {
      forall i: nat | i < n ensures !SlipsThrough(f, arcs, i) { CheckedStep(f, arcs, i); }
    }
  }

  /** One attach, let through exactly when it makes no loop. */
  lemma ExactStep(f: map<nat, nat>, g: map<nat, nat>, a: Arc)
    requires g.Keys == f.Keys && |f| <= 1002 && IsForest(g) && Rooted(g) && a.parent in g && a.child in g
    ensures !WouldLoop(g, a.parent, a.child) <==> IsForest(g[a.child := a.parent])
    ensures IsForest(WithArc(g, a, !WouldLoop(g, a.parent, a.child)))
  {
    SameSize(f, g);
    CheckIsExact(g, a.parent, a.child);
  }

  /** With up to 1002 cohorts a run attaches exactly what makes no loop, and the tree stays a forest. */
  lemma {:induction false} RunIsExact(f: map<nat, nat>, arcs: seq<Arc>, n: nat)
    requires AreArcs(f, arcs) && n <= |arcs| && IsForest(f) && Rooted(f) && |f| <= 1002
    ensures Checked(f, arcs, n) == LoopFree(f, arcs, n) && IsForest(Checked(f, arcs, n))
    decreases n
  {
    if n > 0 {
      var a, g := arcs[n - 1], Checked(f, arcs, n - 1);
      RunIsExact(f, arcs, n - 1);
      CheckedIsRooted(f, arcs, n - 1);
      ExactStep(f, g, a);
      assert Checked(f, arcs, n) == WithArc(g, a, !WouldLoop(g, a.parent, a.child));
      assert LoopFree(f, arcs, n) == WithArc(g, a, IsForest(g[a.child := a.parent]));
    }
  }

  lemma SameSize(f: map<nat, nat>, g: map<nat, nat>)
    requires f.Keys == g.Keys
    ensures |f| == |g|
  {
    assert |f| == |f.Keys| && |g| == |g.Keys|;
  }

  // ---- taking a cohort out ----

  /** Its children get its parent. */
  function Contracted(f: map<nat, nat>, x: nat): map<nat, nat>
    requires x in f
  {
    map c | c in f && c != x :: if f[c] == x then f[x] else f[c]
  }

  lemma {:induction false} WalkAround(f: map<nat, nat>, x: nat, c: nat, a: nat, n: nat) returns (m: nat)
    requires x in f && f[x] != x && c != x && a != x && Reaches(f, c, a, n)
    ensures Reaches(Contracted(f, x), c, a, m)
    decreases n
  {
    var f' := Contracted(f, x);
    if n == 0 {
      m := 0;
    } else if f[c] == x {
      assert Reaches(f, x, a, n - 1) && n > 1;
      m := WalkAround(f, x, f[x], a, n - 2);
      m := m + 1;
    } else {
      m := WalkAround(f, x, f[c], a, n - 1);
      m := m + 1;
    }
  }

  lemma {:induction false} WalkBack(f: map<nat, nat>, x: nat, c: nat, a: nat, n: nat) returns (m: nat)
    requires x in f && f[x] != x && c != x && Reaches(Contracted(f, x), c, a, n)
    ensures Reaches(f, c, a, m) && n <= m && a != x
    decreases n
  {
    var f' := Contracted(f, x);
    if n == 0 {
      m := 0;
    } else {
      m := WalkBack(f, x, f'[c], a, n - 1);
      if f[c] == x {
        assert Reaches(f, x, a, m + 1);
        m := m + 2;
      } else {
        m := m + 1;
      }
    }
  }

  /** The rest stays a forest, and which of the remaining cohorts is above which does not change. */
  lemma ContractionKeeps(f: map<nat, nat>, x: nat)
    requires IsForest(f) && x in f
    ensures IsForest(Contracted(f, x))
    ensures forall a, c :: a != x && c != x ==> (IsAbove(Contracted(f, x), a, c) <==> IsAbove(f, a, c))
  {
    var f' := Contracted(f, x);
    NotBelowItself(f, x, 0);
    forall c: nat, n: nat | c in f' && 0 < n ensures !Reaches(f', c, c, n) {
      if Reaches(f', c, c, n) {
        var m := WalkBack(f, x, c, c, n);
        assert false;
      }
    }
    forall a, c | a != x && c != x ensures IsAbove(f', a, c) <==> IsAbove(f, a, c) {
      if IsAbove(f, a, c) {
        var n: nat :| Reaches(f, c, a, n);
        var m := WalkAround(f, x, c, a, n);
      }
      if IsAbove(f', a, c) {
        var n: nat :| Reaches(f', c, a, n);
        var m := WalkBack(f, x, c, a, n);
      }
    }
  }

  // ---- a chain too long for the check ----

  /** Cohorts 1 to n, each with the next as parent. */
  function Chain(n: nat): (f: map<nat, nat>)
    ensures |f| == n
    ensures forall c: nat :: c in f <==> 1 <= c <= n
    ensures forall c: nat :: 1 <= c <= n ==> f[c] == if c == n then NO_PARENT else c + 1
  {
    ChainFrom(n, n)
  }

  function ChainFrom(k: nat, n: nat): (f: map<nat, nat>)
    requires k <= n
    ensures |f| == k
    ensures forall c: nat :: c in f <==> 1 <= c <= k
    ensures forall c: nat :: 1 <= c <= k ==> f[c] == if c == n then NO_PARENT else c + 1
  {
    if k == 0 then map[] else ChainFrom(k - 1, n)[k := if k == n then NO_PARENT else k + 1]
  }

  lemma {:induction false} ChainReaches(n: nat, x: nat, a: nat, k: nat)
    requires 1 <= x <= n < NO_PARENT && 1 <= a <= n
    ensures Reaches(Chain(n), x, a, k) <==> a == x + k
    decreases k
  {
    if k > 0 && x < n { ChainReaches(n, x + 1, a, k - 1); }
    if k > 0 && x == n {
      assert Reaches(Chain(n), x, a, k) == Reaches(Chain(n), NO_PARENT, a, k - 1);
    }
  }

  /** From 1002 steps above, among 1003 cohorts, the loop goes unnoticed. */
  lemma LongChainLoops()
    ensures var n := 1003; var f := Chain(n);
            |f| == n && IsForest(f) && Rooted(f) && !WouldLoop(f, 1, n) && !IsForest(f[n := 1])
  {
    var n := STEPS + 3;
    var f := Chain(n);
    forall x: nat, k: nat | x in f && 0 < k ensures !Reaches(f, x, x, k) { ChainReaches(n, x, x, k); }
    WouldLoopFinds(f, 1, n);
    forall k: nat | k <= STEPS + 1 ensures !Reaches(f, 1, n, k) { ChainReaches(n, 1, n, k); }
    ChainReaches(n, 1, n, n - 1);
    assert IsAbove(f, n, 1);
    AttachKeepsForest(f, 1, n);
  }

  // ---- parents and children ----

  /** dep_parent and dep_children say the same. */
  ghost predicate AreInverse(f: map<nat, nat>, children: map<nat, set<nat>>) {
    && children.Keys == f.Keys
    && forall p, c :: p in f ==> (c in children[p] <==> c in f && f[c] == p)
  }

  /** child leaves the children of its parent, if that is a cohort here, and joins those of the new one. */
  function Moved(children: map<nat, set<nat>>, before: nat, parent: nat, child: nat): map<nat, set<nat>>
    requires parent in children
  {
    var left := if before in children then children[before := children[before] - {child}] else children;
    left[parent := left[parent] + {child}]
  }

  lemma MovedIsInverse(f: map<nat, nat>, children: map<nat, set<nat>>, before: nat, parent: nat, child: nat)
    requires AreInverse(f, children) && parent in f && child in f
    requires before == if f[child] == NO_PARENT then child else f[child]
    requires NO_PARENT !in f
    ensures AreInverse(f[child := parent], Moved(children, before, parent, child))
  {
    var f', children' := f[child := parent], Moved(children, before, parent, child);
    forall p, c | p in f' ensures c in children'[p] <==> c in f' && f'[c] == p {
      assert c in children[p] <==> c in f && f[c] == p;
    }
  }

  /** All the children of x but kids have been given its parent. */
  ghost predicate Forwarded(f: map<nat, nat>, g: map<nat, nat>, kids: set<nat>, x: nat)
    requires x in f
  {
    && g.Keys == f.Keys && g[x] == f[x]
    && (forall c :: c in kids ==> c in f && f[c] == x)
    && forall c :: c in f ==> g[c] == if f[c] == x && c !in kids then f[x] else f[c]
  }

  lemma ForwardedStep(f: map<nat, nat>, g: map<nat, nat>, kids: set<nat>, x: nat, ch: nat)
    requires x in f && f[x] != x && Forwarded(f, g, kids, x) && ch in kids
    ensures Forwarded(f, g[ch := f[x]], kids - {ch}, x) && g[ch] == x
  {
  }

  /** Moving ch from x to another parent is all; erasing it from x once more changes nothing. */
  lemma MovedAway(children: map<nat, set<nat>>, x: nat, parent: nat, ch: nat)
    requires x in children && parent in children && parent != x && ch in children[x]
    ensures var moved := Moved(children, x, parent, ch);
            && x in moved && moved[x] == children[x] - {ch} && moved[x] < children[x]
            && moved[x := moved[x] - {ch}] == moved
  {
    var moved := Moved(children, x, parent, ch);
    assert moved[x] - {ch} == moved[x];
  }

  lemma ContractedIs(f: map<nat, nat>, g: map<nat, nat>, x: nat)
    requires x in f && g.Keys == f.Keys && forall c :: c in g ==> g[c] == if f[c] == x then f[x] else f[c]
    ensures g - {x} == Contracted(f, x)
  {
  }

  function WithoutCohort(children: map<nat, set<nat>>, x: nat): map<nat, set<nat>> {
    map p | p in children && p != x :: children[p] - {x}
  }

  lemma WithoutCohortIsInverse(f: map<nat, nat>, children: map<nat, set<nat>>, x: nat)
    requires AreInverse(f, children) && x in f && children[x] == {}
    ensures AreInverse(f - {x}, WithoutCohort(children, x))
  {
    var f', children' := f - {x}, WithoutCohort(children, x);
    forall p, c | p in f' ensures c in children'[p] <==> c in f' && f'[c] == p {
      assert c in children[p] <==> c in f && f[c] == p;
    }
  }

  // ---- the window's cohorts ----

  class Dependencies {
    /** dep_parent and dep_children of the cohorts in cohort_map */
    var parentOf: map<nat, nat>
    var childrenOf: map<nat, set<nat>>
    /** The cohorts of the current window, and local_number. */
    var cohorts: seq<nat>
    var local: map<nat, nat>

    ghost predicate Inverse()
      reads this
    {
      AreInverse(parentOf, childrenOf) && NO_PARENT !in parentOf
    }

    ghost predicate Numbered()
      reads this
    {
      && (forall i :: 0 <= i < |cohorts| ==> cohorts[i] in local && local[cohorts[i]] == i)
    }

    /** wouldParentChildLoop */
    method WouldParentChildLoop(parent: nat, child: nat) returns (loops: bool)
      requires parent in parentOf && child in parentOf
      ensures loops == WouldLoop(parentOf, parent, child)
    {
      if parent == child {
        return true;
      } else if parent == parentOf[child] || parent == parentOf[parent] {
        return false;
      } else if parentOf[parent] == child {
        return true;
      }
      var inner := parent;
      for i: nat := 0 to STEPS
        invariant inner in parentOf
        invariant FindsAbove(parentOf, parent, child, STEPS) == FindsAbove(parentOf, inner, child, STEPS - i)
      {
        if parentOf[inner] == 0 || parentOf[inner] == NO_PARENT || parentOf[inner] !in parentOf {
          return false;
        }
        inner := parentOf[inner];
        if parentOf[inner] == child {
          return true;
        }
      }
      loops := false;
    }

    /** attachParentChild */
    method AttachParentChild(parent: nat, child: nat, allowLoop: bool, blockLoops: bool) returns (attached: bool)
      requires Inverse() && parent in parentOf && child in parentOf
      modifies this`parentOf, this`childrenOf
      ensures Inverse()
      ensures attached <==> allowLoop || !blockLoops || !WouldLoop(old(parentOf), parent, child)
      ensures parentOf == if attached then old(parentOf)[child := parent] else old(parentOf)
      ensures var before := if old(parentOf)[child] == NO_PARENT then child else old(parentOf)[child];
              childrenOf == if attached then Moved(old(childrenOf), before, parent, child) else old(childrenOf)
    {
      if !allowLoop && blockLoops {
        var loops := WouldParentChildLoop(parent, child);
        if loops {
          return false;
        }
      }
      Move(parent, child);
      attached := true;
    }

    method Move(parent: nat, child: nat)
      requires Inverse() && parent in parentOf && child in parentOf
      modifies this`parentOf, this`childrenOf
      ensures Inverse() && parentOf == old(parentOf)[child := parent]
      ensures var before := if old(parentOf)[child] == NO_PARENT then child else old(parentOf)[child];
              childrenOf == Moved(old(childrenOf), before, parent, child)
    {
      ghost var f, children := parentOf, childrenOf;
      if parentOf[child] == NO_PARENT {
        parentOf := parentOf[child := child];
      }
      var before := parentOf[child];
      if before in childrenOf {
        childrenOf := childrenOf[before := childrenOf[before] - {child}];
      }
      MovedIsInverse(f, children, before, parent, child);
      parentOf := parentOf[child := parent];
      childrenOf := childrenOf[parent := childrenOf[parent] + {child}];
      assert parentOf == f[child := parent];
    }

    /** A run of attaches with loops blocked. */
    method AttachAll(arcs: seq<Arc>)
      requires Inverse() && AreArcs(parentOf, arcs)
      modifies this`parentOf, this`childrenOf
      ensures Inverse() && parentOf == Checked(old(parentOf), arcs, |arcs|)
      ensures IsForest(old(parentOf)) && Rooted(old(parentOf)) ==>
                && (ForestUpTo(old(parentOf), arcs, |arcs|) <==> NoneSlips(old(parentOf), arcs, |arcs|))
                && (|old(parentOf)| <= 1002 ==>
                      IsForest(parentOf) && parentOf == LoopFree(old(parentOf), arcs, |arcs|))
    {
      ghost var f := parentOf;
      for i := 0 to |arcs|
        invariant Inverse() && AreArcs(f, arcs) && parentOf == Checked(f, arcs, i)
      {
        var attached := AttachParentChild(arcs[i].parent, arcs[i].child, false, true);
      }
      if IsForest(f) && Rooted(f) {
        RunKeepsForestIff(f, arcs, |arcs|);
        if |f| <= 1002 { RunIsExact(f, arcs, |arcs|); }
      }
    }

    /** The children of x go to its parent, one at a time. */
    method ForwardChildren(x: nat)
      requires Inverse()
      requires x in parentOf && x in childrenOf && (childrenOf[x] != {} ==> parentOf[x] in parentOf && parentOf[x] != x)
      modifies this`parentOf, this`childrenOf
      ensures Inverse() && parentOf.Keys == old(parentOf).Keys && childrenOf[x] == {}
      ensures forall c :: c in parentOf ==>
                parentOf[c] == if old(parentOf)[c] == x then old(parentOf)[x] else old(parentOf)[c]
    {
      ghost var f := parentOf;
      while childrenOf[x] != {}
        invariant Inverse() && x in childrenOf && Forwarded(f, parentOf, childrenOf[x], x)
        invariant childrenOf[x] != {} ==> f[x] in f && f[x] != x
        decreases childrenOf[x]
      {
        ForwardOne(x, f);
      }
    }

    method ForwardOne(x: nat, ghost f: map<nat, nat>)
      requires Inverse() && x in childrenOf && x in f && f[x] != x && f[x] in f
      requires Forwarded(f, parentOf, childrenOf[x], x) && childrenOf[x] != {}
      modifies this`parentOf, this`childrenOf
      ensures Inverse() && x in childrenOf && Forwarded(f, parentOf, childrenOf[x], x)
      ensures childrenOf[x] < old(childrenOf)[x]
    {
      var ch :| ch in childrenOf[x];
      ForwardedStep(f, parentOf, childrenOf[x], x, ch);
      MovedAway(childrenOf, x, parentOf[x], ch);
      var attached := AttachParentChild(parentOf[x], ch, true, true);
      childrenOf := childrenOf[x := childrenOf[x] - {ch}];
    }

    /** rem_cohort, as far as the tree and the numbering go. */
    method RemCohort(x: nat)
      requires Inverse() && Numbered()
      requires x in parentOf && x in childrenOf && x in cohorts
      requires childrenOf[x] != {} ==> parentOf[x] in parentOf && parentOf[x] != x
      modifies this
      ensures Inverse() && Numbered()
      ensures parentOf == Contracted(old(parentOf), x)
      ensures var i := old(local)[x]; 0 <= i < |old(cohorts)| && cohorts == old(cohorts)[..i] + old(cohorts)[i + 1..]
    {
      ghost var f := parentOf;
      ForwardChildren(x);
      WithoutCohortIsInverse(parentOf, childrenOf, x);
      childrenOf := WithoutCohort(childrenOf, x);
      ContractedIs(f, parentOf, x);
      parentOf := parentOf - {x};
      TakeOut(x);
    }

    method TakeOut(x: nat)
      requires Numbered() && x in cohorts
      modifies this`cohorts, this`local
      ensures Numbered()
      ensures var i := old(local)[x]; 0 <= i < |old(cohorts)| && cohorts == old(cohorts)[..i] + old(cohorts)[i + 1..]
    {
      ghost var i :| 0 <= i < |cohorts| && cohorts[i] == x;
      cohorts := cohorts[..local[x]] + cohorts[local[x] + 1..];
      Renumber();
    }

    /** local_number becomes the position. */
    method Renumber()
      requires forall i, j :: 0 <= i < j < |cohorts| ==> cohorts[i] != cohorts[j]
      modifies this`local
      ensures Numbered()
    {
      for i := 0 to |cohorts|
        invariant forall j :: 0 <= j < i ==> cohorts[j] in local && local[cohorts[j]] == j
      {
        local := local[cohorts[i] := i];
      }
    }
  }
}
