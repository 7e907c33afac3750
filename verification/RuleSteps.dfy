/**
 What one SELECT, REMOVE or IFF rule does to one cohort, and the removal of readings from a cohort's
 list by swapping them to its end.
 */
module RuleSteps {

  /** A reading is told apart by its id; plain stands for its plain tags, all that most targets look at. */
  datatype Reading = Reading(id: nat, plain: int)

  datatype Cohort = Cohort(readings: seq<Reading>, deleted: seq<Reading>, delayed: seq<Reading>)

  type Window = seq<Cohort>

  datatype Kind = Select | Remove | Iff

  /** target is a set number; special says that the target set looks at more than plain tags. */
  datatype Rule = Rule(kind: Kind, target: nat, special: bool, safe: bool, delayed: bool)

  /**
   What the rules consult: which sets match a reading, whether a rule's contextual tests hold for a
   cohort in the present state of the window, and whether a rule's wordform fits a cohort.
   */
  datatype Setting = Setting(rules: seq<Rule>, matches: (nat, Reading) -> bool,
                             context: (nat, Window, nat) -> bool, fits: (nat, nat) -> bool)

  // ---- choosing readings ----

  function Those(rs: seq<Reading>, p: Reading -> bool): seq<Reading> {
    if rs == [] then []
    else
      var n := |rs| - 1;
      Those(rs[..n], p) + if p(rs[n]) then [rs[n]] else []
  }

  function Not(p: Reading -> bool): Reading -> bool {
    x => !p(x)
  }

  lemma {:induction false} ThoseAre(rs: seq<Reading>, p: Reading -> bool)
    ensures forall x :: x in Those(rs, p) <==> x in rs && p(x)
    decreases |rs|
  {
    if rs != [] {
      var n := |rs| - 1;
      var front := rs[..n];
      ThoseAre(front, p);
      assert rs == front + [rs[n]];
    }
  }

  lemma NoneOfThose(rs: seq<Reading>, p: Reading -> bool)
    ensures Those(rs, p) == [] <==> forall x :: x in rs ==> !p(x)
    ensures Those(rs, Not(p)) == [] <==> forall x :: x in rs ==> p(x)
    ensures Those(rs, p) != [] ==> rs != []
  {
    ThoseAre(rs, p);
    ThoseAre(rs, Not(p));
    var hit, miss := Those(rs, p), Those(rs, Not(p));
    if hit != [] { assert hit[0] in hit; }
    if miss != [] { assert miss[0] in miss; }
  }

  lemma {:induction false} ThoseCount(rs: seq<Reading>, p: Reading -> bool)
    ensures |Those(rs, p)| + |Those(rs, Not(p))| == |rs|
    decreases |rs|
  {
    if rs != [] { ThoseCount(rs[..|rs| - 1], p); }
  }

  lemma {:induction false} ThoseSplit(rs: seq<Reading>, p: Reading -> bool)
    ensures multiset(Those(rs, p)) + multiset(Those(rs, Not(p))) == multiset(rs)
    decreases |rs|
  {
    if rs != [] {
      var n := |rs| - 1;
      var front, last := rs[..n], rs[n];
      ThoseSplit(front, p);
      assert rs == front + [last];
      var yes, no := Those(front, p), Those(front, Not(p));
      assert Those(rs, p) == if p(last) then yes + [last] else yes;
      assert Those(rs, Not(p)) == if p(last) then no else no + [last];
    }
  }

  predicate Distinct(rs: seq<Reading>) {
    forall i, j :: 0 <= i < j < |rs| ==> rs[i] != rs[j]
  }

  lemma {:induction false} ThoseDistinct(rs: seq<Reading>, p: Reading -> bool)
    requires Distinct(rs)
    ensures Distinct(Those(rs, p))
    decreases |rs|
  {
    if rs != [] {
      var n := |rs| - 1;
      var front := rs[..n];
      ThoseDistinct(front, p);
      ThoseAre(front, p);
      assert forall x :: x in Those(front, p) ==> x != rs[n];
    }
  }

  // ---- swapping readings out ----

  function IndexOf(rs: seq<Reading>, x: Reading): (i: nat)
    requires x in rs
    ensures i < |rs| && rs[i] == x
  {
    if rs[0] == x then 0 else 1 + IndexOf(rs[1..], x)
  }

  /** x trades places with the last reading, which is then cut off. */
  function SwapOut(rs: seq<Reading>, x: Reading): (r: seq<Reading>)
    ensures |r| == if x in rs then |rs| - 1 else |rs|
  {
    if x !in rs then rs
    else
      var n := |rs| - 1;
      rs[IndexOf(rs, x) := rs[n]][..n]
  }

  /** The readings to remove are taken from the back. */
  function SwapOutAll(rs: seq<Reading>, xs: seq<Reading>): seq<Reading>
    decreases |xs|
  {
    if xs == [] then rs
    else SwapOutAll(SwapOut(rs, xs[|xs| - 1]), xs[..|xs| - 1])
  }

  lemma SwapOutKeeps(rs: seq<Reading>, x: Reading)
    requires x in rs
    ensures multiset(SwapOut(rs, x)) + multiset{x} == multiset(rs)
  {
    var n, i := |rs| - 1, IndexOf(rs, x);
    var swapped := rs[i := rs[n]][n := x];
    assert multiset(rs[i := rs[n]]) == multiset(rs) - multiset{x} + multiset{rs[n]};
    assert swapped == SwapOut(rs, x) + [x];
    assert multiset(swapped) == multiset(rs[i := rs[n]]) - multiset{rs[n]} + multiset{x};
  }

  lemma SwapOutDistinct(rs: seq<Reading>, x: Reading)
    requires Distinct(rs) && x in rs
    ensures Distinct(SwapOut(rs, x))
    ensures forall y :: y in SwapOut(rs, x) <==> y in rs && y != x
  {
    var i, n := IndexOf(rs, x), |rs| - 1;
    var r := SwapOut(rs, x);
    assert forall k :: 0 <= k < n ==> r[k] == if k == i then rs[n] else rs[k];
    forall y | y in rs && y != x ensures y in r {
      var k :| 0 <= k < |rs| && rs[k] == y;
      assert k == n ==> r[i] == y;
      assert k < n ==> r[k] == y;
    }
  }

  /** Nothing is lost: what is swapped out and what stays make up the old list, and both stay distinct. */
  lemma {:induction false} SwapOutAllKeeps(rs: seq<Reading>, xs: seq<Reading>)
    requires Distinct(rs) && Distinct(xs) && forall x :: x in xs ==> x in rs
    ensures multiset(SwapOutAll(rs, xs)) + multiset(xs) == multiset(rs)
    ensures Distinct(SwapOutAll(rs, xs))
    ensures |SwapOutAll(rs, xs)| == |rs| - |xs|
    decreases |xs|
  {
    if xs != [] {
      var n := |xs| - 1;
      var x, front := xs[n], xs[..n];
      SwapOutDistinct(rs, x);
      SwapOutKeeps(rs, x);
      var r := SwapOut(rs, x);
      assert xs == front + [x];
      forall y | y in front ensures y in r {
        var k :| 0 <= k < n && front[k] == y;
        assert xs[k] != xs[n];
      }
      SwapOutAllKeeps(r, front);
      assert SwapOutAll(rs, xs) == SwapOutAll(r, front);
    }
  }

  /** Which reading stands where after one removal: the last one where x was, and every other where it was. */
  lemma SwapOutAt(rs: seq<Reading>, i: nat)
    requires Distinct(rs) && i < |rs|
    ensures var n, r := |rs| - 1, SwapOut(rs, rs[i]);
            |r| == n && forall k :: 0 <= k < n ==> r[k] == if k == i then rs[n] else rs[k]
  {
    assert IndexOf(rs, rs[i]) == i;
  }

  /** A reading that stays does not move, if its place is still there in the end. */
  lemma {:induction false} StaysInPlace(rs: seq<Reading>, xs: seq<Reading>, k: nat)
    requires Distinct(rs) && Distinct(xs) && forall x :: x in xs ==> x in rs
    requires k < |rs| - |xs| && rs[k] !in xs
    ensures |SwapOutAll(rs, xs)| == |rs| - |xs| && SwapOutAll(rs, xs)[k] == rs[k]
    decreases |xs|
  {
    if xs != [] {
      var n := |xs| - 1;
      var x, front := xs[n], xs[..n];
      var i := IndexOf(rs, x);
      SwapOutDistinct(rs, x);
      SwapOutAt(rs, i);
      assert xs == front + [x] && x in xs;
      forall y | y in front ensures y in SwapOut(rs, x) {
        var j :| 0 <= j < n && front[j] == y;
        assert xs[j] != xs[n] && y in xs;
      }
      StaysInPlace(SwapOut(rs, x), front, k);
    }
  }

  /** The readings to remove are taken from the back: of four readings the first two go, and the others keep order. */
  lemma LastRemovedFirst(a: Reading, b: Reading, c: Reading, d: Reading)
    requires Distinct([a, b, c, d])
    ensures SwapOutAll([a, b, c, d], [a, b]) == [c, d]
  {
    var rs := [a, b, c, d];
    assert rs[0] == a && rs[1] == b && rs[2] == c && rs[3] == d;
    SwapOutAt(rs, 1);
    assert SwapOut(rs, b) == [a, d, c];
    assert Distinct([a, d, c]);
    SwapOutAt([a, d, c], 0);
    assert SwapOut([a, d, c], a) == [c, d];
    assert [a, b][..1] == [a] && [a][..0] == [];
    assert SwapOutAll(rs, [a, b]) == SwapOutAll([a, d, c], [a]);
    assert SwapOutAll([a, d, c], [a]) == SwapOutAll([c, d], []);
  }

  /** The loop over removed: each is swapped behind the readings that stay. */
  method Partition(rs: seq<Reading>, removed: seq<Reading>) returns (left: seq<Reading>)
    requires Distinct(rs) && Distinct(removed) && forall x :: x in removed ==> x in rs
    ensures left == SwapOutAll(rs, removed)
  {
    var readings, todo := rs, removed;
    var oz: nat := |rs|;
    assert rs[..oz] == rs;
    while todo != []
      invariant oz <= |readings| && Distinct(readings[..oz]) && Distinct(todo)
      invariant forall x :: x in todo ==> x in readings[..oz]
      invariant SwapOutAll(rs, removed) == SwapOutAll(readings[..oz], todo)
      decreases |todo|
    {
      var x := todo[|todo| - 1];
      SwapOutDistinct(readings[..oz], x);
      readings, oz := SwapBehind(readings, oz, x);
      todo := todo[..|todo| - 1];
    }
    left := readings[..oz];
  }

  method SwapBehind(rs: seq<Reading>, n: nat, x: Reading) returns (readings: seq<Reading>, oz: nat)
    requires n <= |rs| && Distinct(rs[..n]) && x in rs[..n]
    ensures oz <= |readings| && readings[..oz] == SwapOut(rs[..n], x)
  {
    var front := rs[..n];
    ghost var k := IndexOf(front, x);
    assert forall i :: 0 <= i < n ==> front[i] == rs[i];
    assert forall i :: 0 <= i < n && i != k ==> rs[i] != x by {
      forall i | 0 <= i < n && i != k ensures rs[i] != x {
        assert front[k] == x && front[i] != front[k];
      }
    }
    readings, oz := rs, n;
    var i: nat := 0;
    while i < oz
      invariant 0 <= i <= n && n <= |rs| == |readings|
      invariant i <= k ==> readings == rs && oz == n
      invariant i > k ==> oz == n - 1 && readings == rs[k := rs[n - 1]][n - 1 := x]
    {
      if readings[i] == x {
        assert i == k;
        oz := oz - 1;
        readings := readings[i := readings[oz]][oz := readings[i]];
      }
      i := i + 1;
    }
    assert readings[..oz] == front[k := front[n - 1]][..n - 1];
  }

  // ---- one rule on one cohort ----

  function Hits(e: Setting, r: nat): Reading -> bool
    requires r < |e.rules|
  {
    x => e.matches(e.rules[r].target, x)
  }

  /** Moves xs out of the readings, to the deleted or the delayed ones. */
  function Discard(c: Cohort, xs: seq<Reading>, left: seq<Reading>, delayed: bool): Cohort {
    if delayed then Cohort(left, c.deleted, c.delayed + xs) else Cohort(left, c.deleted + xs, c.delayed)
  }

  /** Keeps the matched readings, if some but not all are matched. */
  function SelectIn(e: Setting, r: nat, c: Cohort): Cohort
    requires r < |e.rules|
  {
    var hit, miss := Those(c.readings, Hits(e, r)), Those(c.readings, Not(Hits(e, r)));
    if miss == [] then c else Discard(c, miss, hit, e.rules[r].delayed)
  }

  /** Removes the matched readings; a safe rule does not remove them all. */
  function RemoveIn(e: Setting, r: nat, c: Cohort): Cohort
    requires r < |e.rules|
  {
    var hit, miss := Those(c.readings, Hits(e, r)), Those(c.readings, Not(Hits(e, r)));
    if miss == [] && e.rules[r].safe then c else Discard(c, hit, SwapOutAll(c.readings, hit), e.rules[r].delayed)
  }

  /** IFF selects if the tests hold and removes if they do not. */
  function ActIn(e: Setting, r: nat, c: Cohort, good: bool): Cohort
    requires r < |e.rules|
  {
    match e.rules[r].kind
    case Select => if good then SelectIn(e, r, c) else c
    case Remove => if good then RemoveIn(e, r, c) else c
    case Iff => if good then SelectIn(e, r, c) else RemoveIn(e, r, c)
  }

  /** The rule has no business with the cohort, whatever the context. */
  ghost predicate Idle(e: Setting, r: nat, w: Window, c: nat)
    requires r < |e.rules| && c < |w|
  {
    !e.fits(r, c) || forall x :: x in w[c].readings ==> !Hits(e, r)(x)
  }

  /** Rule r on cohort c, with nothing cached and nothing indexed. */
  function Apply(e: Setting, r: nat, w: Window, c: nat): (w': Window)
    requires r < |e.rules| && c < |w|
    ensures |w'| == |w| && forall d :: 0 <= d < |w| && d != c ==> w'[d] == w[d]
  {
    if !e.fits(r, c) || Those(w[c].readings, Hits(e, r)) == [] then w
    else w[c := ActIn(e, r, w[c], e.context(r, w, c))]
  }

  function AllReadings(c: Cohort): multiset<Reading> {
    multiset(c.readings) + multiset(c.deleted) + multiset(c.delayed)
  }

  // ---- where readings go ----

  /** The readings of rs that are not in others, in their order. */
  function Without(rs: seq<Reading>, others: seq<Reading>): seq<Reading> {
    if rs == [] then []
    else (if rs[0] in others then [] else [rs[0]]) + Without(rs[1..], others)
  }

  lemma {:induction false} WithoutSnoc(rs: seq<Reading>, x: Reading, others: seq<Reading>)
    ensures Without(rs + [x], others) == Without(rs, others) + if x in others then [] else [x]
    decreases |rs|
  {
    var all := rs + [x];
    if rs == [] {
      assert all == [x] && all[1..] == [];
    } else {
      var y, rest := rs[0], rs[1..];
      assert all[0] == y && all[1..] == rest + [x];
      WithoutSnoc(rest, x, others);
      var first := if y in others then [] else [y];
      assert Without(all, others) == first + Without(rest + [x], others);
    }
  }

  lemma {:induction false} ThoseAreWithout(rs: seq<Reading>, p: Reading -> bool, others: seq<Reading>)
    requires forall x :: x in rs ==> (x in others <==> !p(x))
    ensures Those(rs, p) == Without(rs, others)
    decreases |rs|
  {
    if rs != [] {
      var n := |rs| - 1;
      assert rs == rs[..n] + [rs[n]];
      ThoseAreWithout(rs[..n], p, others);
      WithoutSnoc(rs[..n], rs[n], others);
    }
  }

  lemma {:induction false} NothingWithout(rs: seq<Reading>, others: seq<Reading>)
    requires forall i :: 0 <= i < |rs| ==> rs[i] in others
    ensures Without(rs, others) == [] && Without(rs, []) == rs
    decreases |rs|
  {
    if rs != [] {
      NothingWithout(rs[1..], others);
      assert rs == [rs[0]] + rs[1..];
    }
  }

  /**
   The readings that go are put behind the delayed ones by a delayed rule and behind the deleted ones by any other, in
   their old order; the other list stays. What a rule selects stays in its old order as well.
   */
  lemma ActMoves(e: Setting, r: nat, c: Cohort, good: bool)
    requires r < |e.rules| && Distinct(c.readings)
    ensures var rule, c' := e.rules[r], ActIn(e, r, c, good);
            var gone := Without(c.readings, c'.readings);
            && c'.deleted == (if rule.delayed then c.deleted else c.deleted + gone)
            && c'.delayed == (if rule.delayed then c.delayed + gone else c.delayed)
            && (good && rule.kind != Remove ==> c'.readings == Without(c.readings, gone))
  {
    var rs, p, c' := c.readings, Hits(e, r), ActIn(e, r, c, good);
    NothingWithout(rs, rs);
    ThoseAre(rs, p);
    ThoseAre(rs, Not(p));
    if c' != c && good && e.rules[r].kind != Remove {
      ThoseAreWithout(rs, Not(p), Those(rs, p));
      ThoseAreWithout(rs, p, Those(rs, Not(p)));
    } else if c' != c {
      var left := SwapOutAll(rs, Those(rs, p));
      OthersAreLeft(rs, p);
      forall x | x in rs ensures x in left <==> !p(x) {
        SameElements(left, Those(rs, Not(p)), x);
      }
      ThoseAreWithout(rs, p, left);
    }
  }

  /** What every rule application keeps: no reading is lost, and readings never come back. */
  ghost predicate Keeps(c: Cohort, c': Cohort) {
    && AllReadings(c') == AllReadings(c) && Distinct(c'.readings)
    && (forall x :: x in c'.readings ==> x in c.readings)
    && (c' == c || |c'.readings| < |c.readings|)
  }

  lemma DiscardKeeps(c: Cohort, xs: seq<Reading>, left: seq<Reading>, delayed: bool)
    requires Distinct(left) && xs != [] && multiset(left) + multiset(xs) == multiset(c.readings)
    ensures Keeps(c, Discard(c, xs, left, delayed))
  {
    assert multiset(c.deleted + xs) == multiset(c.deleted) + multiset(xs);
    assert multiset(c.delayed + xs) == multiset(c.delayed) + multiset(xs);
    assert |multiset(left)| + |multiset(xs)| == |multiset(c.readings)|;
    forall x | x in left ensures x in c.readings {
      assert x in multiset(left);
      assert x in multiset(c.readings);
    }
  }

  lemma SelectKeeps(e: Setting, r: nat, c: Cohort)
    requires r < |e.rules| && Distinct(c.readings) && Those(c.readings, Hits(e, r)) != []
    ensures Keeps(c, SelectIn(e, r, c)) && SelectIn(e, r, c).readings != []
  {
    var p := Hits(e, r);
    var hit, miss := Those(c.readings, p), Those(c.readings, Not(p));
    ThoseSplit(c.readings, p);
    ThoseDistinct(c.readings, p);
    if miss != [] { DiscardKeeps(c, miss, hit, e.rules[r].delayed); }
  }

  lemma RemoveKeeps(e: Setting, r: nat, c: Cohort)
    requires r < |e.rules| && Distinct(c.readings) && Those(c.readings, Hits(e, r)) != []
    ensures Keeps(c, RemoveIn(e, r, c))
    ensures e.rules[r].safe ==> RemoveIn(e, r, c).readings != []
  {
    var p := Hits(e, r);
    var hit, miss := Those(c.readings, p), Those(c.readings, Not(p));
    ThoseSplit(c.readings, p);
    ThoseDistinct(c.readings, p);
    ThoseAre(c.readings, p);
    SwapOutAllKeeps(c.readings, hit);
    DiscardKeeps(c, hit, SwapOutAll(c.readings, hit), e.rules[r].delayed);
  }

  /** A cohort's readings, deleted and delayed readings together are conserved; a safe rule leaves a reading. */
  lemma ActKeeps(e: Setting, r: nat, c: Cohort, good: bool)
    requires r < |e.rules| && Distinct(c.readings) && Those(c.readings, Hits(e, r)) != []
    ensures Keeps(c, ActIn(e, r, c, good))
    ensures e.rules[r].safe ==> ActIn(e, r, c, good).readings != []
  {
    NoneOfThose(c.readings, Hits(e, r));
    var to := ActIn(e, r, c, good);
    match e.rules[r].kind
    case Select =>
      if good { SelectKeeps(e, r, c); } else { assert to == c; }
    case Remove =>
      if good { RemoveKeeps(e, r, c); } else { assert to == c; }
    case Iff =>
      if good { SelectKeeps(e, r, c); } else { RemoveKeeps(e, r, c); }
  }

  lemma ApplyKeeps(e: Setting, r: nat, w: Window, c: nat)
    requires r < |e.rules| && c < |w| && Distinct(w[c].readings)
    ensures Keeps(w[c], Apply(e, r, w, c)[c])
    ensures e.rules[r].safe && w[c].readings != [] ==> Apply(e, r, w, c)[c].readings != []
    ensures Apply(e, r, w, c)[c] == w[c] ==> Apply(e, r, w, c) == w
  {
    var good := e.context(r, w, c);
    if e.fits(r, c) && Those(w[c].readings, Hits(e, r)) != [] {
      ActKeeps(e, r, w[c], good);
      var to := ActIn(e, r, w[c], good);
      assert Apply(e, r, w, c) == w[c := to];
      assert to == w[c] ==> w[c := to] == w;
    }
  }

  lemma SameElements(a: seq<Reading>, b: seq<Reading>, x: Reading)
    requires multiset(a) == multiset(b)
    ensures x in a <==> x in b
  {
    assert x in a <==> x in multiset(a);
  }

  lemma Cancel(a: multiset<Reading>, b: multiset<Reading>, hit: multiset<Reading>)
    requires a + hit == hit + b
    ensures a == b
  {
    assert forall x :: (a + hit)[x] == a[x] + hit[x] && (hit + b)[x] == hit[x] + b[x];
    assert forall x :: a[x] == b[x];
  }

  /** Swapping out the matched readings leaves the others, in some order. */
  lemma OthersAreLeft(rs: seq<Reading>, p: Reading -> bool)
    requires Distinct(rs)
    ensures multiset(SwapOutAll(rs, Those(rs, p))) == multiset(Those(rs, Not(p)))
  {
    ThoseAre(rs, p);
    ThoseDistinct(rs, p);
    SwapOutAllKeeps(rs, Those(rs, p));
    ThoseSplit(rs, p);
    Cancel(multiset(SwapOutAll(rs, Those(rs, p))), multiset(Those(rs, Not(p))), multiset(Those(rs, p)));
  }

  lemma RemoveChooses(e: Setting, r: nat, c: Cohort, x: Reading)
    requires r < |e.rules| && Distinct(c.readings) && x in c.readings
    ensures var all := forall y :: y in c.readings ==> Hits(e, r)(y);
            x in RemoveIn(e, r, c).readings <==> !Hits(e, r)(x) || (all && e.rules[r].safe)
  {
    var rs, p := c.readings, Hits(e, r);
    NoneOfThose(rs, p);
    ThoseAre(rs, Not(p));
    OthersAreLeft(rs, p);
    SameElements(SwapOutAll(rs, Those(rs, p)), Those(rs, Not(p)), x);
  }

  lemma SelectChooses(e: Setting, r: nat, c: Cohort, x: Reading)
    requires r < |e.rules| && x in c.readings
    ensures x in SelectIn(e, r, c).readings <==> Hits(e, r)(x)
  {
    var rs, p := c.readings, Hits(e, r);
    ThoseAre(rs, p);
    NoneOfThose(rs, p);
  }

  /** Which readings of a cohort with a matched reading stay. */
  lemma ActChooses(e: Setting, r: nat, c: Cohort, good: bool, x: Reading)
    requires r < |e.rules| && Distinct(c.readings) && x in c.readings
    ensures var kind, hit := e.rules[r].kind, Hits(e, r)(x);
            var all := forall y :: y in c.readings ==> Hits(e, r)(y);
            x in ActIn(e, r, c, good).readings <==>
              if good && kind != Remove then hit
              else if good || kind == Iff then !hit || (all && e.rules[r].safe)
              else true
  {
    SelectChooses(e, r, c, x);
    RemoveChooses(e, r, c, x);
  }
}
