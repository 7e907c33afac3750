/**
 The rule loops without index, bits or cache, and what the runner makes of them when the kind that an IFF
 rule had on one cohort is carried on to the next.
 */
module PlainRules {
  import opened RuleSteps

  // ---- the plain loops ----

  /** Rule r on the cohorts before k. Cohort 0 is the begin marker. */
  function NaiveRule(e: Setting, r: nat, w: Window, k: nat): (w': Window)
    requires r < |e.rules| && k <= |w|
    ensures |w'| == |w| && forall d :: k <= d < |w| ==> w'[d] == w[d]
  {
    if k <= 1 then w else Apply(e, r, NaiveRule(e, r, w, k - 1), k - 1)
  }

  predicate RulesExist(e: Setting, rules: seq<nat>) {
    forall i :: 0 <= i < |rules| ==> rules[i] < |e.rules|
  }

  /** The first n rules in turn on every cohort in turn. */
  function NaiveRules(e: Setting, rules: seq<nat>, w: Window, n: nat): (w': Window)
    requires RulesExist(e, rules) && n <= |rules|
    ensures |w'| == |w|
  {
    if n == 0 then w else NaiveRule(e, rules[n - 1], NaiveRules(e, rules, w, n - 1), |w|)
  }

  /** Every rule on every cohort. */
  function Naive(e: Setting, rules: seq<nat>, w: Window): Window
    requires RulesExist(e, rules)
  {
    NaiveRules(e, rules, w, |rules|)
  }

  lemma IdleApplies(e: Setting, r: nat, w: Window, c: nat)
    requires r < |e.rules| && c < |w| && Idle(e, r, w, c)
    ensures Apply(e, r, w, c) == w
  {
    NoneOfThose(w[c].readings, Hits(e, r));
  }

  // ---- readings only go ----

  /** w' has no readings that w does not have in the same cohort. */
  ghost predicate Fewer(w: Window, w': Window) {
    && |w'| == |w|
    && forall c, x :: 0 <= c < |w| && x in w'[c].readings ==> x in w[c].readings
  }

  ghost predicate AllDistinct(w: Window) {
    forall c :: 0 <= c < |w| ==> Distinct(w[c].readings)
  }

  lemma ApplyFewer(e: Setting, r: nat, w: Window, c: nat)
    requires r < |e.rules| && c < |w| && AllDistinct(w)
    ensures Fewer(w, Apply(e, r, w, c)) && AllDistinct(Apply(e, r, w, c))
  {
    ApplyKeeps(e, r, w, c);
  }

  function Total(w: Window): nat {
    if w == [] then 0 else Total(w[..|w| - 1]) + |w[|w| - 1].readings|
  }

  lemma {:induction false} TotalFalls(w: Window, w': Window, c: nat)
    requires |w'| == |w| && c < |w| && forall d :: 0 <= d < |w| && d != c ==> w'[d] == w[d]
    ensures Total(w') - Total(w) == |w'[c].readings| - |w[c].readings|
    decreases |w|
  {
    var n := |w| - 1;
    var front, front' := w[..n], w'[..n];
    if c == n {
      assert front == front';
    } else {
      TotalFalls(front, front', c);
    }
  }

  /**
   The kind an IFF rule had on an earlier cohort decides whether a lone reading is looked at. That
   matters exactly for rules that may remove a last reading, where the tests fail.
   */
  lemma LoneReadingOfIff(e: Setting, r: nat, w: Window, c: nat)
    requires r < |e.rules| && e.rules[r].kind == Iff && c < |w| && |w[c].readings| == 1
    ensures Apply(e, r, w, c) != w <==>
              !e.rules[r].safe && e.fits(r, c) && Hits(e, r)(w[c].readings[0]) && !e.context(r, w, c)
  {
    var cohort, good := w[c], e.context(r, w, c);
    var x := cohort.readings[0];
    assert x in cohort.readings && Distinct(cohort.readings) && w[c := cohort] == w;
    NoneOfThose(cohort.readings, Hits(e, r));
    ThoseCount(cohort.readings, Hits(e, r));
    if Hits(e, r)(x) && e.fits(r, c) && !good {
      ActChooses(e, r, cohort, good, x);
      assert Apply(e, r, w, c)[c] == ActIn(e, r, cohort, good);
    }
  }

  lemma SelectOne(e: Setting, r: nat, w: Window, c: nat)
    requires r < |e.rules| && e.rules[r].kind == Select && c < |w| && |w[c].readings| == 1
    ensures Apply(e, r, w, c) == w
  {
    NoneOfThose(w[c].readings, Hits(e, r));
    ThoseCount(w[c].readings, Hits(e, r));
    assert w[c := w[c]] == w;
  }

  /**
   A safe rule has nothing to do when there is only one reading, nor has any rule when there is none or none
   matches.
   */
  lemma NothingToDo(e: Setting, r: nat, w: Window, c: nat)
    requires r < |e.rules| && c < |w|
    requires (|w[c].readings| == 1 && e.rules[r].safe) || forall x :: x in w[c].readings ==> !Hits(e, r)(x)
    ensures Apply(e, r, w, c) == w
  {
    NoneOfThose(w[c].readings, Hits(e, r));
    ThoseCount(w[c].readings, Hits(e, r));
    assert w[c := w[c]] == w;
  }

  // ---- the kind that is carried on ----

  /** What a rule is taken for once it has looked at cohort c. */
  function KindAfter(e: Setting, r: nat, w: Window, c: nat): Kind
    requires r < |e.rules| && c < |w|
  {
    if e.rules[r].kind != Iff then e.rules[r].kind
    else if e.context(r, w, c) && Those(w[c].readings, Hits(e, r)) != [] then Select
    else Remove
  }

  /**
   The rule on cohort c, taken for kind. A cohort with no reading is passed over, and so is one with a lone
   reading, if the rule is safe or taken for a SELECT. through says that nothing else keeps the rule off.
   */
  function Carry(e: Setting, r: nat, w: Window, c: nat, kind: Kind, through: bool): (s: (Window, Kind))
    requires r < |e.rules| && c < |w|
    ensures |s.0| == |w| && forall d :: 0 <= d < |w| && d != c ==> s.0[d] == w[d]
  {
    if !through || w[c].readings == [] || (|w[c].readings| == 1 && (kind == Select || e.rules[r].safe)) then (w, kind)
    else (Apply(e, r, w, c), KindAfter(e, r, w, c))
  }

  /** The window, and what the rule is taken for, after the cohorts before k; through are those not kept off it. */
  function Carried(e: Setting, r: nat, w: Window, k: nat, through: set<nat>): (s: (Window, Kind))
    requires r < |e.rules| && k <= |w|
    ensures |s.0| == |w| && forall d :: k <= d < |w| ==> s.0[d] == w[d]
  {
    if k <= 1 then (w, e.rules[r].kind)
    else
      var s := Carried(e, r, w, k - 1, through);
      Carry(e, r, s.0, k - 1, s.1, k - 1 in through)
  }

  lemma CarryFalls(e: Setting, r: nat, w: Window, c: nat, kind: Kind, through: bool)
    requires r < |e.rules| && c < |w| && AllDistinct(w)
    ensures var w' := Carry(e, r, w, c, kind, through).0; w' == w || Total(w') < Total(w)
  {
    ApplyKeeps(e, r, w, c);
    TotalFalls(w, Apply(e, r, w, c), c);
  }

  lemma {:induction false} CarriedAgree(e: Setting, r: nat, w: Window, k: nat, a: set<nat>, b: set<nat>)
    requires r < |e.rules| && k <= |w| && forall c :: 0 < c < k ==> (c in a <==> c in b)
    ensures Carried(e, r, w, k, a) == Carried(e, r, w, k, b)
    decreases k
  {
    if k > 1 { CarriedAgree(e, r, w, k - 1, a, b); }
  }

  lemma {:induction false} CarriedKind(e: Setting, r: nat, w: Window, k: nat, through: set<nat>)
    requires r < |e.rules| && k <= |w| && e.rules[r].kind != Iff
    ensures Carried(e, r, w, k, through).1 == e.rules[r].kind
    decreases k
  {
    if k > 1 { CarriedKind(e, r, w, k - 1, through); }
  }

  lemma {:induction false} CarriedSkips(e: Setting, r: nat, w: Window, i: nat, k: nat, through: set<nat>)
    requires r < |e.rules| && 1 <= i <= k <= |w| && forall c :: i <= c < k ==> c !in through
    ensures Carried(e, r, w, k, through) == Carried(e, r, w, i, through)
    decreases k
  {
    if i < k { CarriedSkips(e, r, w, i, k - 1, through); }
  }

  /** Once the loops have passed cohort c they leave it alone. */
  lemma {:induction false} PassedStays(e: Setting, r: nat, w: Window, c: nat, k: nat, through: set<nat>)
    requires r < |e.rules| && c < k <= |w|
    ensures Carried(e, r, w, k, through).0[c] == Carried(e, r, w, c + 1, through).0[c]
    ensures NaiveRule(e, r, w, k)[c] == NaiveRule(e, r, w, c + 1)[c]
    decreases k
  {
    if c + 1 < k { PassedStays(e, r, w, c, k - 1, through); }
  }

  /** The rule is only kept off cohorts where it would have done nothing. */
  ghost predicate Harmless(e: Setting, r: nat, w: Window, k: nat, through: set<nat>)
    requires r < |e.rules| && k <= |w|
  {
    forall c: nat :: 0 < c < k ==> HarmlessIn(e, r, w, c, through)
  }

  ghost predicate HarmlessIn(e: Setting, r: nat, w: Window, c: nat, through: set<nat>)
    requires r < |e.rules| && c < |w|
  {
    var v := Carried(e, r, w, c, through).0;
    c !in through ==> Apply(e, r, v, c) == v
  }

  /**
   An unsafe IFF rule, taken for a SELECT because of an earlier cohort, passes over a lone reading that it
   should have removed.
   */
  ghost predicate Missed(e: Setting, r: nat, w: Window, c: nat, through: set<nat>)
    requires r < |e.rules| && c < |w|
  {
    var s := Carried(e, r, w, c, through);
    && e.rules[r].kind == Iff && !e.rules[r].safe && c in through && s.1 == Select
    && e.fits(r, c) && |s.0[c].readings| == 1 && Hits(e, r)(s.0[c].readings[0]) && !e.context(r, s.0, c)
  }

  ghost predicate NoneMissed(e: Setting, r: nat, w: Window, k: nat, through: set<nat>)
    requires r < |e.rules| && k <= |w|
  {
    forall c: nat :: 0 < c < k ==> !Missed(e, r, w, c, through)
  }

  /** One cohort: passing over it is wrong exactly when a lone reading is missed. */
  lemma CarryIsApply(e: Setting, r: nat, w: Window, c: nat, kind: Kind)
    requires r < |e.rules| && c < |w| && (e.rules[r].kind != Iff ==> kind == e.rules[r].kind)
    ensures Carry(e, r, w, c, kind, true).0 == Apply(e, r, w, c) <==>
              !(&& e.rules[r].kind == Iff && !e.rules[r].safe && kind == Select
                && e.fits(r, c) && |w[c].readings| == 1 && Hits(e, r)(w[c].readings[0]) && !e.context(r, w, c))
  {
    if w[c].readings == [] || (|w[c].readings| == 1 && e.rules[r].safe) {
      NothingToDo(e, r, w, c);
    } else if |w[c].readings| == 1 && kind == Select {
      if e.rules[r].kind == Select {
        SelectOne(e, r, w, c);
      } else {
        LoneReadingOfIff(e, r, w, c);
      }
    }
  }

  lemma {:induction false} NotMissedIsNaive(e: Setting, r: nat, w: Window, k: nat, through: set<nat>)
    requires r < |e.rules| && k <= |w| && Harmless(e, r, w, k, through) && NoneMissed(e, r, w, k, through)
    ensures Carried(e, r, w, k, through).0 == NaiveRule(e, r, w, k)
    decreases k
  {
    if k > 1 {
      var c := k - 1;
      NotMissedIsNaive(e, r, w, c, through);
      var s := Carried(e, r, w, c, through);
      if e.rules[r].kind != Iff { CarriedKind(e, r, w, c, through); }
      CarryIsApply(e, r, s.0, c, s.1);
      assert !Missed(e, r, w, c, through) && HarmlessIn(e, r, w, c, through);
    }
  }

  /** The first cohort that is missed is different for good. */
  lemma MissedDiffers(e: Setting, r: nat, w: Window, c: nat, k: nat, through: set<nat>)
    requires r < |e.rules| && 0 < c < k <= |w| && Harmless(e, r, w, k, through)
    requires NoneMissed(e, r, w, c, through) && Missed(e, r, w, c, through)
    ensures Carried(e, r, w, k, through).0[c] != NaiveRule(e, r, w, k)[c]
  {
    NotMissedIsNaive(e, r, w, c, through);
    PassedStays(e, r, w, c, k, through);
    var v := NaiveRule(e, r, w, c);
    LoneReadingOfIff(e, r, v, c);
    assert Distinct(v[c].readings);
    ApplyKeeps(e, r, v, c);
  }

  lemma {:induction false} FirstMissed(e: Setting, r: nat, w: Window, k: nat, through: set<nat>) returns (c: nat)
    requires r < |e.rules| && k <= |w| && !NoneMissed(e, r, w, k, through)
    ensures 0 < c < k && NoneMissed(e, r, w, c, through) && Missed(e, r, w, c, through)
    decreases k
  {
    if NoneMissed(e, r, w, k - 1, through) {
      c := k - 1;
    } else {
      c := FirstMissed(e, r, w, k - 1, through);
    }
  }

  /** Carrying the kind on agrees with the plain loop exactly when no lone reading is missed. */
  lemma CarriedIsNaive(e: Setting, r: nat, w: Window, k: nat, through: set<nat>)
    requires r < |e.rules| && k <= |w| && Harmless(e, r, w, k, through)
    ensures Carried(e, r, w, k, through).0 == NaiveRule(e, r, w, k) <==> NoneMissed(e, r, w, k, through)
  {
    if NoneMissed(e, r, w, k, through) {
      NotMissedIsNaive(e, r, w, k, through);
    } else {
      var c := FirstMissed(e, r, w, k, through);
      MissedDiffers(e, r, w, c, k, through);
    }
  }

  // ---- which windows can be got wrong ----

  ghost predicate SomeHit(e: Setting, r: nat, w: Window, c: nat)
    requires r < |e.rules| && c < |w|
  {
    Those(w[c].readings, Hits(e, r)) != []
  }

  /**
   An unsafe IFF rule matches a lone reading of c and a reading of an earlier cohort b, and what lies between
   would not turn it back into a REMOVE. This only looks at the window, not at any test.
   */
  ghost predicate Trap(e: Setting, r: nat, w: Window, through: set<nat>)
    requires r < |e.rules|
  {
    && e.rules[r].kind == Iff && !e.rules[r].safe
    && exists b: nat, c: nat :: 0 < b < c < |w| && TrapAt(e, r, w, b, c, through)
  }

  ghost predicate TrapAt(e: Setting, r: nat, w: Window, b: nat, c: nat, through: set<nat>)
    requires r < |e.rules| && b < c < |w|
  {
    && b in through && c in through && SomeHit(e, r, w, b)
    && e.fits(r, c) && |w[c].readings| == 1 && Hits(e, r)(w[c].readings[0])
    && forall d: nat :: b < d < c && d in through ==> |w[d].readings| <= 1 || SomeHit(e, r, w, d)
  }

  /** A rule that is taken for a SELECT has matched an earlier cohort, and has looked at none in between. */
  lemma {:induction false} SelectComesFrom(e: Setting, r: nat, w: Window, k: nat, through: set<nat>) returns (b: nat)
    requires r < |e.rules| && k <= |w| && e.rules[r].kind == Iff && Carried(e, r, w, k, through).1 == Select
    ensures 0 < b < k && b in through && SomeHit(e, r, w, b) && e.context(r, Carried(e, r, w, b, through).0, b)
    ensures forall d: nat :: b < d < k && d in through ==> |w[d].readings| <= 1
    decreases k
  {
    var c := k - 1;
    var s := Carried(e, r, w, c, through);
    if c in through && !(s.0[c].readings == [] || (|s.0[c].readings| == 1 && (s.1 == Select || e.rules[r].safe))) {
      b := c;
    } else {
      b := SelectComesFrom(e, r, w, c, through);
    }
  }

  /** Without such a pair of cohorts nothing is missed, whatever the tests. */
  lemma NoTrapNoMiss(e: Setting, r: nat, w: Window, through: set<nat>)
    requires r < |e.rules| && !Trap(e, r, w, through)
    ensures NoneMissed(e, r, w, |w|, through)
  {
    forall c: nat | 0 < c < |w| ensures !Missed(e, r, w, c, through) {
      if Missed(e, r, w, c, through) {
        var b := SelectComesFrom(e, r, w, c, through);
        assert TrapAt(e, r, w, b, c, through);
      }
    }
  }

  function WithTests(e: Setting, context: (nat, Window, nat) -> bool): Setting {
    e.(context := context)
  }

  /** Tests that hold for every cohort but c. */
  function AllBut(c: nat): (nat, Window, nat) -> bool {
    (r, w, d) => d != c
  }

  lemma {:induction false} StaysSelect(e: Setting, r: nat, w: Window, b: nat, c: nat, k: nat, through: set<nat>)
    requires r < |e.rules| && 0 < b < k <= c < |w| && TrapAt(e, r, w, b, c, through)
    requires e.rules[r].kind == Iff && !e.rules[r].safe && e.context == AllBut(c)
    ensures Carried(e, r, w, k, through).1 == Select
    decreases k
  {
    NoneOfThose(w[b].readings, Hits(e, r));
    var d := k - 1;
    if b < d { StaysSelect(e, r, w, b, c, d, through); }
  }

  /** With such a pair there are tests for which a lone reading is missed. */
  lemma TrapCanMiss(e: Setting, r: nat, w: Window, through: set<nat>) returns (context: (nat, Window, nat) -> bool)
    requires r < |e.rules| && Trap(e, r, w, through)
    ensures !NoneMissed(WithTests(e, context), r, w, |w|, through)
  {
    var b: nat, c: nat :| 0 < b < c < |w| && TrapAt(e, r, w, b, c, through);
    context := AllBut(c);
    var e' := WithTests(e, context);
    assert Hits(e', r) == Hits(e, r);
    assert TrapAt(e', r, w, b, c, through);
    StaysSelect(e', r, w, b, c, c, through);
    assert Missed(e', r, w, c, through);
  }

  /** The rule runs as the plain loop would, whatever its tests say. */
  ghost predicate AlwaysNaive(e: Setting, r: nat, w: Window, through: set<nat>)
    requires r < |e.rules|
  {
    forall context :: RunsNaively(WithTests(e, context), r, w, through)
  }

  ghost predicate RunsNaively(e: Setting, r: nat, w: Window, through: set<nat>)
    requires r < |e.rules|
  {
    Carried(e, r, w, |w|, through).0 == NaiveRule(e, r, w, |w|)
  }

  lemma IdleIsHarmless(e: Setting, r: nat, w: Window, through: set<nat>)
    requires r < |e.rules| && forall c: nat :: 0 < c < |w| && c !in through ==> Idle(e, r, w, c)
    ensures Harmless(e, r, w, |w|, through)
  {
    forall c: nat | 0 < c < |w| && c !in through
      ensures var v := Carried(e, r, w, c, through).0; Apply(e, r, v, c) == v
    {
      IdleApplies(e, r, Carried(e, r, w, c, through).0, c);
    }
  }

  /**
   With an index and bits that only keep the rule off cohorts that are none of its business, the carried kind
   never makes a difference, whatever the tests, if and only if the window has no such pair of cohorts.
   */
  lemma TrapDecides(e: Setting, r: nat, w: Window, through: set<nat>)
    requires r < |e.rules| && forall c: nat :: 0 < c < |w| && c !in through ==> Idle(e, r, w, c)
    ensures AlwaysNaive(e, r, w, through) <==> !Trap(e, r, w, through)
  {
    if Trap(e, r, w, through) {
      var context := TrapCanMiss(e, r, w, through);
      var e' := WithTests(e, context);
      SameIdle(e, e', r, w, through);
      IdleIsHarmless(e', r, w, through);
      CarriedIsNaive(e', r, w, |w|, through);
      assert !RunsNaively(e', r, w, through);
    } else {
      forall context ensures RunsNaively(WithTests(e, context), r, w, through) {
        var e' := WithTests(e, context);
        SameIdle(e, e', r, w, through);
        IdleIsHarmless(e', r, w, through);
        NoTrapNoMiss(e', r, w, through);
        NotMissedIsNaive(e', r, w, |w|, through);
      }
    }
  }

  /** Neither the pairs nor the cohorts that are none of a rule's business depend on its tests. */
  lemma SameIdle(e: Setting, e': Setting, r: nat, w: Window, through: set<nat>)
    requires r < |e.rules| && e' == WithTests(e, e'.context)
    ensures forall c: nat :: c < |w| ==> (Idle(e', r, w, c) <==> Idle(e, r, w, c))
    ensures Trap(e', r, w, through) <==> Trap(e, r, w, through)
  {
    assert Hits(e', r) == Hits(e, r);
    forall b: nat, c: nat | b < c < |w| ensures TrapAt(e', r, w, b, c, through) <==> TrapAt(e, r, w, b, c, through) {
      assert forall d: nat :: d < |w| ==> (SomeHit(e', r, w, d) <==> SomeHit(e, r, w, d));
    }
  }

  // ---- rule after rule ----

  ghost predicate IffIsSafe(e: Setting, rules: seq<nat>)
    requires RulesExist(e, rules)
  {
    forall i :: 0 <= i < |rules| && e.rules[rules[i]].kind == Iff ==> e.rules[rules[i]].safe
  }

  /** The window after the first n rules, each with the cohorts that it was let through to. */
  function CarriedRules(e: Setting, rules: seq<nat>, w: Window, through: seq<set<nat>>, n: nat): (w': Window)
    requires RulesExist(e, rules) && n <= |rules| && n <= |through|
    ensures |w'| == |w|
  {
    if n == 0 then w
    else Carried(e, rules[n - 1], CarriedRules(e, rules, w, through, n - 1), |w|, through[n - 1]).0
  }

  ghost predicate HarmlessUpTo(e: Setting, rules: seq<nat>, w: Window, through: seq<set<nat>>, n: nat)
    requires RulesExist(e, rules) && n <= |rules| && n <= |through|
  {
    forall i :: 0 <= i < n ==> HarmlessAt(e, rules, w, through, i)
  }

  ghost predicate HarmlessAt(e: Setting, rules: seq<nat>, w: Window, through: seq<set<nat>>, i: nat)
    requires RulesExist(e, rules) && i < |rules| && i < |through|
  {
    Harmless(e, rules[i], CarriedRules(e, rules, w, through, i), |w|, through[i])
  }

  /** After every rule the window is what the plain loops make of it. */
  ghost predicate StepsAreNaive(e: Setting, rules: seq<nat>, w: Window, through: seq<set<nat>>)
    requires RulesExist(e, rules) && |through| == |rules|
  {
    forall i :: 0 <= i <= |rules| ==> CarriedRules(e, rules, w, through, i) == NaiveRules(e, rules, w, i)
  }

  ghost predicate NoRuleMisses(e: Setting, rules: seq<nat>, w: Window, through: seq<set<nat>>)
    requires RulesExist(e, rules) && |through| == |rules|
  {
    forall i :: 0 <= i < |rules| ==> NoneMissed(e, rules[i], CarriedRules(e, rules, w, through, i), |w|, through[i])
  }

  lemma {:induction false} CarriedRulesAgree(e: Setting, rules: seq<nat>, w: Window, through: seq<set<nat>>,
                                             let: set<nat>, n: nat)
    requires RulesExist(e, rules) && n <= |rules| && n <= |through|
    ensures CarriedRules(e, rules, w, through + [let], n) == CarriedRules(e, rules, w, through, n)
    decreases n
  {
    if n > 0 { CarriedRulesAgree(e, rules, w, through, let, n - 1); }
  }

  /** The rules before do not depend on the cohorts that the next one is let through to. */
  lemma HarmlessStays(e: Setting, rules: seq<nat>, w: Window, through: seq<set<nat>>, let: set<nat>, i: nat)
    requires RulesExist(e, rules) && i < |through| < |rules| && HarmlessAt(e, rules, w, through, i)
    ensures HarmlessAt(e, rules, w, through + [let], i)
  {
    CarriedRulesAgree(e, rules, w, through, let, i);
    assert (through + [let])[i] == through[i];
  }

  lemma HarmlessNext(e: Setting, rules: seq<nat>, w: Window, through: seq<set<nat>>, n: nat, v: Window, let: set<nat>)
    requires RulesExist(e, rules) && n < |through| <= |rules|
    requires v == CarriedRules(e, rules, w, through, n) && let == through[n] && Harmless(e, rules[n], v, |v|, let)
    ensures HarmlessAt(e, rules, w, through, n)
  {
  }

  lemma OneMoreRule(e: Setting, rules: seq<nat>, w: Window, through: seq<set<nat>>, let: set<nat>, v: Window,
                    v': Window)
    requires RulesExist(e, rules) && |through| < |rules| && HarmlessUpTo(e, rules, w, through, |through|)
    requires var r := rules[|through|];
             && v == CarriedRules(e, rules, w, through, |through|) && Harmless(e, r, v, |v|, let)
             && v' == Carried(e, r, v, |v|, let).0
    ensures var through' := through + [let];
            HarmlessUpTo(e, rules, w, through', |through'|) && v' == CarriedRules(e, rules, w, through', |through'|)
  {
    CarriedRulesAgree(e, rules, w, through, let, |through|);
    forall i: nat | i < |through| ensures HarmlessAt(e, rules, w, through + [let], i) {
      HarmlessStays(e, rules, w, through, let, i);
    }
    HarmlessNext(e, rules, w, through + [let], |through|, v, let);
  }

  /** Rule by rule nothing differs from the plain loops exactly when no rule misses a lone reading. */
  lemma StepsAreNaiveIff(e: Setting, rules: seq<nat>, w: Window, through: seq<set<nat>>)
    requires RulesExist(e, rules) && |through| == |rules| && HarmlessUpTo(e, rules, w, through, |rules|)
    ensures StepsAreNaive(e, rules, w, through) <==> NoRuleMisses(e, rules, w, through)
  {
    if StepsAreNaive(e, rules, w, through) {
      forall i | 0 <= i < |rules|
        ensures NoneMissed(e, rules[i], CarriedRules(e, rules, w, through, i), |w|, through[i])
      {
        assert HarmlessAt(e, rules, w, through, i);
        CarriedIsNaive(e, rules[i], CarriedRules(e, rules, w, through, i), |w|, through[i]);
        assert CarriedRules(e, rules, w, through, i) == NaiveRules(e, rules, w, i);
        assert CarriedRules(e, rules, w, through, i + 1) == NaiveRules(e, rules, w, i + 1);
      }
    } else {
      var i :| 0 <= i <= |rules| && CarriedRules(e, rules, w, through, i) != NaiveRules(e, rules, w, i);
      if NoRuleMisses(e, rules, w, through) { StepsFollow(e, rules, w, through, i); }
    }
  }

  lemma {:induction false} StepsFollow(e: Setting, rules: seq<nat>, w: Window, through: seq<set<nat>>, n: nat)
    requires RulesExist(e, rules) && n <= |rules| == |through|
    requires HarmlessUpTo(e, rules, w, through, |rules|) && NoRuleMisses(e, rules, w, through)
    ensures CarriedRules(e, rules, w, through, n) == NaiveRules(e, rules, w, n)
    decreases n
  {
    if n > 0 {
      var r, v, t := rules[n - 1], CarriedRules(e, rules, w, through, n - 1), through[n - 1];
      assert HarmlessAt(e, rules, w, through, n - 1) && NoneMissed(e, r, v, |w|, t);
      NotMissedIsNaive(e, r, v, |w|, t);
      StepsFollow(e, rules, w, through, n - 1);
    }
  }

  /** Rules other than IFF, and safe ones, miss nothing. */
  lemma SafeRulesMissNothing(e: Setting, rules: seq<nat>, w: Window, through: seq<set<nat>>)
    requires RulesExist(e, rules) && |through| == |rules| && HarmlessUpTo(e, rules, w, through, |rules|)
    ensures IffIsSafe(e, rules) ==>
              NoRuleMisses(e, rules, w, through) && CarriedRules(e, rules, w, through, |rules|) == Naive(e, rules, w)
  {
    if IffIsSafe(e, rules) { StepsFollow(e, rules, w, through, |rules|); }
  }

  // ---- where a run puts readings ----

  /** Nothing is lost from the cohort, and the deleted and the delayed readings are only added to. */
  ghost predicate OnlyMoves(c: Cohort, c': Cohort) {
    && AllReadings(c') == AllReadings(c)
    && c.deleted <= c'.deleted && c.delayed <= c'.delayed
    && forall x :: x in c'.readings ==> x in c.readings
  }

  /** Every reading that has gone is among the delayed ones, and the deleted ones are as before. */
  ghost predicate GoneToDelayed(c: Cohort, c': Cohort) {
    OnlyMoves(c, c') && c'.deleted == c.deleted
    && forall x :: x in c.readings && x !in c'.readings ==> x in c'.delayed
  }

  /** Every reading that has gone is among the deleted ones, and the delayed ones are as before. */
  ghost predicate GoneToDeleted(c: Cohort, c': Cohort) {
    OnlyMoves(c, c') && c'.delayed == c.delayed
    && forall x :: x in c.readings && x !in c'.readings ==> x in c'.deleted
  }

  lemma WithoutHas(rs: seq<Reading>, others: seq<Reading>)
    ensures forall x :: x in Without(rs, others) <==> x in rs && x !in others
  {
  }

  lemma ApplyMoves(e: Setting, r: nat, w: Window, c: nat)
    requires r < |e.rules| && c < |w| && AllDistinct(w)
    ensures var w' := Apply(e, r, w, c);
            AllDistinct(w') && if e.rules[r].delayed then GoneToDelayed(w[c], w'[c]) else GoneToDeleted(w[c], w'[c])
  {
    ApplyFewer(e, r, w, c);
    ApplyKeeps(e, r, w, c);
    var good := e.context(r, w, c);
    ActMoves(e, r, w[c], good);
    WithoutHas(w[c].readings, ActIn(e, r, w[c], good).readings);
  }

  /**
   Cohort by cohort nothing is lost; if deletes, what has gone is among the deleted readings, if delays, among the
   delayed ones, and the other list is as before.
   */
  ghost predicate AllMove(w: Window, w': Window, deletes: bool, delays: bool) {
    && |w'| == |w|
    && forall d :: 0 <= d < |w| ==> Moves(w[d], w'[d], deletes, delays)
  }

  ghost predicate Moves(c: Cohort, c': Cohort, deletes: bool, delays: bool) {
    && OnlyMoves(c, c')
    && (deletes ==> GoneToDeleted(c, c'))
    && (delays ==> GoneToDelayed(c, c'))
  }

  lemma MovesOn(a: Cohort, b: Cohort, c: Cohort, deletes: bool, delays: bool)
    requires Moves(a, b, deletes, delays) && Moves(b, c, deletes, delays)
    ensures Moves(a, c, deletes, delays)
  {
    assert forall x :: x in b.deleted ==> x in c.deleted;
    assert forall x :: x in b.delayed ==> x in c.delayed;
  }

  lemma AllMoveOn(u: Window, v: Window, w: Window, deletes: bool, delays: bool)
    requires AllMove(u, v, deletes, delays) && AllMove(v, w, deletes, delays)
    ensures AllMove(u, w, deletes, delays)
  {
    forall d | 0 <= d < |u| ensures Moves(u[d], w[d], deletes, delays) {
      MovesOn(u[d], v[d], w[d], deletes, delays);
    }
  }

  lemma {:induction false} CarriedMoves(e: Setting, r: nat, w: Window, k: nat, through: set<nat>)
    requires r < |e.rules| && k <= |w| && AllDistinct(w)
    ensures var w' := Carried(e, r, w, k, through).0;
            AllDistinct(w') && AllMove(w, w', !e.rules[r].delayed, e.rules[r].delayed)
    decreases k
  {
    if k > 1 {
      var v := Carried(e, r, w, k - 1, through).0;
      CarriedMoves(e, r, w, k - 1, through);
      ApplyMoves(e, r, v, k - 1);
      AllMoveOn(w, v, Carried(e, r, w, k, through).0, !e.rules[r].delayed, e.rules[r].delayed);
    }
  }

  ghost predicate NoneDelayed(e: Setting, rules: seq<nat>)
    requires RulesExist(e, rules)
  {
    forall i :: 0 <= i < |rules| ==> !e.rules[rules[i]].delayed
  }

  ghost predicate AllDelayed(e: Setting, rules: seq<nat>)
    requires RulesExist(e, rules)
  {
    forall i :: 0 <= i < |rules| ==> e.rules[rules[i]].delayed
  }

  /** Over a run of rules: if none is delayed, all that has gone is among the deleted readings, and so on. */
  lemma {:induction false} RunMoves(e: Setting, rules: seq<nat>, w: Window, through: seq<set<nat>>, n: nat)
    requires RulesExist(e, rules) && n <= |rules| && n <= |through| && AllDistinct(w)
    ensures var w' := CarriedRules(e, rules, w, through, n);
            AllDistinct(w') && AllMove(w, w', NoneDelayed(e, rules), AllDelayed(e, rules))
    decreases n
  {
    if n > 0 {
      var r, v := rules[n - 1], CarriedRules(e, rules, w, through, n - 1);
      RunMoves(e, rules, w, through, n - 1);
      CarriedMoves(e, r, v, |w|, through[n - 1]);
      var w' := CarriedRules(e, rules, w, through, n);
      forall d | 0 <= d < |w| ensures Moves(v[d], w'[d], NoneDelayed(e, rules), AllDelayed(e, rules)) {
        assert Moves(v[d], w'[d], !e.rules[r].delayed, e.rules[r].delayed);
      }
      AllMoveOn(w, v, w', NoneDelayed(e, rules), AllDelayed(e, rules));
    }
  }
}
