/** runGrammarOnSingleWindow: sections are run one after the other, each until a run of it changes nothing. */
module SectionLoop {
  import opened RuleSteps
  import opened PlainRules
  import opened RuleRunner

  datatype Section = Section(key: int, rules: seq<nat>)

  /** After this many passes the section loop gives up. */
  const PASSES: int := 1000

  /** runsections: in key order; -3, -2 and -1 are for rules that are not run here. */
  predicate InOrder(sections: seq<Section>) {
    && (forall i, j :: 0 <= i < j < |sections| ==> sections[i].key < sections[j].key)
    && (forall i :: 0 <= i < |sections| ==> -3 <= sections[i].key)
  }

  /** Every section's rules are among those of later sections. */
  predicate Cumulative(sections: seq<Section>) {
    forall i, j, k :: 0 <= i < j < |sections| && 0 <= sections[i].key && 0 <= k < |sections[i].rules| ==>
          sections[i].rules[k] in sections[j].rules
  }

  ghost predicate Runnable(e: Setting, sections: seq<Section>) {
    forall i :: 0 <= i < |sections| ==> RulesExist(e, sections[i].rules)
  }

  // ---- how far readings can fall ----

  function Occupied(w: Window): nat {
    if w == [] then 0 else Occupied(w[..|w| - 1]) + if w[|w| - 1].readings == [] then 0 else 1
  }

  /** Readings beyond the last one of each cohort. */
  function Surplus(w: Window): int {
    Total(w) - Occupied(w)
  }

  ghost predicate StillOccupied(w: Window, w': Window) {
    |w'| == |w| && forall c :: 0 <= c < |w| && w[c].readings != [] ==> w'[c].readings != []
  }

  lemma {:induction false} OccupiedFloor(w: Window, w': Window)
    requires StillOccupied(w, w')
    ensures Occupied(w) <= Total(w')
    decreases |w|
  {
    if w != [] {
      var n := |w| - 1;
      var front, front' := w[..n], w'[..n];
      OccupiedFloor(front, front');
    }
  }

  ghost predicate AllSafe(e: Setting, rules: seq<nat>)
    requires RulesExist(e, rules)
  {
    forall i :: 0 <= i < |rules| ==> e.rules[rules[i]].safe
  }

  // ---- what runs keep ----

  /** One rule: readings stay distinct, and the total falls exactly when something changes. */
  lemma {:induction false} RuleFalls(e: Setting, r: nat, w: Window, k: nat, through: set<nat>)
    requires r < |e.rules| && k <= |w| && AllDistinct(w)
    ensures var w' := Carried(e, r, w, k, through).0;
            && AllDistinct(w')
            && (w' == w || Total(w') < Total(w))
            && (w' == w ==> forall c: nat :: c <= k ==> Carried(e, r, w, c, through).0 == w)
            && (e.rules[r].safe ==> StillOccupied(w, w'))
    decreases k
  {
    if k > 1 {
      var v := Carried(e, r, w, k - 1, through).0;
      RuleFalls(e, r, w, k - 1, through);
      ApplyFewer(e, r, v, k - 1);
      ApplyKeeps(e, r, v, k - 1);
      TotalFalls(v, Apply(e, r, v, k - 1), k - 1);
    }
  }

  /**
   The carried kind has let an unsafe IFF rule pass over the lone reading of c, because it holds for an earlier
   cohort.
   */
  ghost predicate LeftAlone(e: Setting, r: nat, w: Window, c: nat)
    requires r < |e.rules| && c < |w|
  {
    && e.rules[r].kind == Iff && !e.rules[r].safe && |w[c].readings| == 1 && !e.context(r, w, c)
    && exists b: nat :: 0 < b < c && SomeHit(e, r, w, b) && e.context(r, w, b)
  }

  /** No rule of the list has anything to do in any cohort, but for readings that are left alone. */
  ghost predicate Quiet(e: Setting, rules: seq<nat>, w: Window)
    requires RulesExist(e, rules)
  {
    forall r, c :: r in rules && 0 < c < |w| ==> RuleIsQuiet(e, r, w, c)
  }

  ghost predicate RuleIsQuiet(e: Setting, r: nat, w: Window, c: nat)
    requires r < |e.rules| && c < |w|
  {
    Apply(e, r, w, c) == w || LeftAlone(e, r, w, c)
  }

  lemma NothingChanged(e: Setting, r: nat, w: Window, through: set<nat>, c: nat)
    requires r < |e.rules| && 0 < c < |w| && Harmless(e, r, w, |w|, through)
    requires forall d: nat :: d <= |w| ==> Carried(e, r, w, d, through).0 == w
    ensures RuleIsQuiet(e, r, w, c)
  {
    var s := Carried(e, r, w, c, through);
    assert Carried(e, r, w, c + 1, through).0 == w;
    if e.rules[r].kind != Iff { CarriedKind(e, r, w, c, through); }
    CarryIsApply(e, r, w, c, s.1);
    assert HarmlessIn(e, r, w, c, through);
    if c in through && Apply(e, r, w, c) != w {
      var b := SelectComesFrom(e, r, w, c, through);
      assert Carried(e, r, w, b, through).0 == w;
    }
  }

  lemma {:induction false} RunFalls(e: Setting, rules: seq<nat>, w: Window, through: seq<set<nat>>, n: nat)
    requires RulesExist(e, rules) && AllDistinct(w) && n <= |rules| == |through|
    ensures var w' := CarriedRules(e, rules, w, through, n);
            && AllDistinct(w')
            && (w' == w || Total(w') < Total(w))
            && (w' == w ==> forall i: nat :: i <= n ==> CarriedRules(e, rules, w, through, i) == w)
            && (AllSafe(e, rules) ==> StillOccupied(w, w'))
    decreases n
  {
    if n > 0 {
      RunFalls(e, rules, w, through, n - 1);
      RuleFalls(e, rules[n - 1], CarriedRules(e, rules, w, through, n - 1), |w|, through[n - 1]);
    }
  }

  /** A run that changes nothing leaves nothing to do, but for readings that are left alone. */
  lemma UnchangedIsQuiet(e: Setting, rules: seq<nat>, w: Window, through: seq<set<nat>>)
    requires RulesExist(e, rules) && AllDistinct(w) && |rules| == |through|
    requires HarmlessUpTo(e, rules, w, through, |rules|) && CarriedRules(e, rules, w, through, |rules|) == w
    ensures Quiet(e, rules, w)
  {
    RunFalls(e, rules, w, through, |rules|);
    forall i: nat, c | i < |rules| && 0 < c < |w| ensures RuleIsQuiet(e, rules[i], w, c) {
      assert CarriedRules(e, rules, w, through, i) == w && CarriedRules(e, rules, w, through, i + 1) == w;
      RuleFalls(e, rules[i], w, |w|, through[i]);
      assert HarmlessAt(e, rules, w, through, i);
      NothingChanged(e, rules[i], w, through[i], c);
    }
  }

  // ---- the loop ----

  lemma {:induction false} KeysGrow(sections: seq<Section>, i: nat)
    requires InOrder(sections) && i < |sections|
    ensures -3 + i <= sections[i].key
    decreases i
  {
    if i > 0 {
      KeysGrow(sections, i - 1);
      assert sections[i - 1].key < sections[i].key;
    }
  }

  // ---- the loop on plain runs ----

  /** No section has an unsafe IFF rule. */
  ghost predicate NoUnsafeIff(e: Setting, sections: seq<Section>)
    requires Runnable(e, sections)
  {
    forall i :: 0 <= i < |sections| ==> IffIsSafe(e, sections[i].rules)
  }

  function Below(n: nat): (s: set<nat>)
    ensures forall c: nat :: c in s <==> c < n
  {
    if n == 0 then {} else Below(n - 1) + {n - 1}
  }

  lemma NaiveFalls(e: Setting, rules: seq<nat>, w: Window)
    requires RulesExist(e, rules) && AllDistinct(w) && IffIsSafe(e, rules)
    ensures var v := Naive(e, rules, w); AllDistinct(v) && (v == w || Total(v) < Total(w))
  {
    var through := seq(|rules|, _ => Below(|w|));
    RunFalls(e, rules, w, through, |rules|);
    SafeRulesMissNothing(e, rules, w, through);
  }

  /** Section i in pass number pass, and so on to the end: whether the loop gives up, and the window. */
  ghost function Passes(e: Setting, sections: seq<Section>, i: nat, pass: nat, w: Window): (bool, Window)
    requires Runnable(e, sections) && NoUnsafeIff(e, sections) && AllDistinct(w) && i <= |sections|
    decreases Total(w), |sections| - i
  {
    if i == |sections| then (false, w)
    else if sections[i].key < 0 then Passes(e, sections, i + 1, pass + 1, w)
    else
      NaiveFalls(e, sections[i].rules, w);
      var v := Naive(e, sections[i].rules, w);
      if v == w then Passes(e, sections, i + 1, 1, w)
      else if pass >= PASSES then (true, v)
      else Passes(e, sections, i, pass + 1, v)
  }

  /** What is left of the loop after a pass. */
  ghost predicate Continues(e: Setting, sections: seq<Section>, i: nat, pass: nat, w: Window,
                            i': nat, pass': nat, w': Window, endless: bool)
    requires Runnable(e, sections)
  {
    NoUnsafeIff(e, sections) && AllDistinct(w) && AllDistinct(w') && i <= |sections| && i' <= |sections| ==>
      Passes(e, sections, i, pass, w) == if endless then (true, w') else Passes(e, sections, i', pass', w')
  }

  ghost predicate SectionsSafe(e: Setting, sections: seq<Section>)
    requires Runnable(e, sections)
  {
    forall i :: 0 <= i < |sections| ==> AllSafe(e, sections[i].rules)
  }

  /** What all rules have in common: deletes if none is delayed, delays if all are. */
  ghost predicate AreUniform(e: Setting, sections: seq<Section>, deletes: bool, delays: bool)
    requires Runnable(e, sections)
  {
    forall i :: 0 <= i < |sections| ==>
      (deletes ==> NoneDelayed(e, sections[i].rules)) && (delays ==> AllDelayed(e, sections[i].rules))
  }

  /** What holds of a window and a later one when nothing was lost, and readings have gone where the rules send them. */
  ghost predicate Conserved(e: Setting, sections: seq<Section>, w: Window, w': Window)
    requires Runnable(e, sections)
  {
    forall deletes, delays :: AreUniform(e, sections, deletes, delays) ==> AllMove(w, w', deletes, delays)
  }

  lemma ConservedOn(e: Setting, sections: seq<Section>, u: Window, v: Window, w: Window)
    requires Runnable(e, sections) && Conserved(e, sections, u, v) && Conserved(e, sections, v, w)
    ensures Conserved(e, sections, u, w)
  {
    forall deletes, delays | AreUniform(e, sections, deletes, delays) ensures AllMove(u, w, deletes, delays) {
      AllMoveOn(u, v, w, deletes, delays);
    }
  }

  lemma SectionConserves(e: Setting, sections: seq<Section>, i: nat, v: Window, w: Window)
    requires Runnable(e, sections) && i < |sections|
    requires var rules := sections[i].rules; AllMove(v, w, NoneDelayed(e, rules), AllDelayed(e, rules))
    ensures Conserved(e, sections, v, w)
  {
    var rules := sections[i].rules;
    forall deletes, delays | AreUniform(e, sections, deletes, delays) ensures AllMove(v, w, deletes, delays) {
      forall d | 0 <= d < |v| ensures Moves(v[d], w[d], deletes, delays) {
        assert Moves(v[d], w[d], NoneDelayed(e, rules), AllDelayed(e, rules));
      }
    }
  }

  lemma UnchangedConserves(e: Setting, sections: seq<Section>, w: Window)
    requires Runnable(e, sections)
    ensures Conserved(e, sections, w, w)
  {
  }

  /** Section i. */
  method RunSection(a: Runner, sections: seq<Section>, i: nat, ghost w0: Window, ghost safe: bool)
      returns (something: bool)
    requires a.Valid() && a.Indexed() && Runnable(a.e, sections) && i < |sections|
    requires |a.w| == |w0| && (safe ==> SectionsSafe(a.e, sections) && StillOccupied(w0, a.w))
    modifies a`w, a`bits, a`no, a`index
    ensures a.Valid() && a.Indexed() && |a.w| == |w0| && (safe ==> StillOccupied(w0, a.w))
    ensures if something then Total(a.w) < Total(old(a.w)) else a.w == old(a.w) && Quiet(a.e, sections[i].rules, a.w)
    ensures IffIsSafe(a.e, sections[i].rules) ==> a.w == Naive(a.e, sections[i].rules, old(a.w))
    ensures Conserved(a.e, sections, old(a.w), a.w)
  {
    ghost var v, rules := a.w, sections[i].rules;
    ghost var through;
    something, through := a.RunRules(sections[i].rules);
    SectionConserves(a.e, sections, i, v, a.w);
    RunFalls(a.e, rules, v, through, |rules|);
    if !something { UnchangedIsQuiet(a.e, rules, v, through); }
  }

  /**
   Terminates whatever the grammar. If it does not give up, no rule of any section has anything left to
   do; and with safe rules and at most 997 surplus readings it does not give up.
   */
  method RunSections(a: Runner, sections: seq<Section>) returns (endless: bool)
    requires a.Valid() && a.Indexed() && InOrder(sections) && Cumulative(sections) && Runnable(a.e, sections)
    modifies a`w, a`bits, a`no, a`index
    ensures a.Valid() && a.Indexed()
    ensures endless || AllQuiet(a.e, sections, a.w)
    ensures Conserved(a.e, sections, old(a.w), a.w)
    ensures SectionsSafe(a.e, sections) && Surplus(old(a.w)) <= 997 ==> !endless
    ensures AllDistinct(old(a.w)) && NoUnsafeIff(a.e, sections) ==>
              (endless, a.w) == Passes(a.e, sections, 0, 0, old(a.w))
  {
    ghost var w0, safe := a.w, SectionsSafe(a.e, sections);
    endless := PassByPass(a, sections, w0, safe);
    if !endless { LastSectionDecides(a.e, sections, a.w); }
  }

  method PassByPass(a: Runner, sections: seq<Section>, ghost w0: Window, ghost safe: bool) returns (endless: bool)
    requires a.Valid() && a.Indexed() && InOrder(sections) && Runnable(a.e, sections)
    requires w0 == a.w && (safe ==> SectionsSafe(a.e, sections))
    modifies a`w, a`bits, a`no, a`index
    ensures a.Valid() && a.Indexed()
    ensures endless || Settled(a.e, sections, |sections|, a.w)
    ensures endless && safe ==> 997 < Surplus(w0)
    ensures Conserved(a.e, sections, w0, a.w)
    ensures Continues(a.e, sections, 0, 0, w0, |sections|, 0, a.w, endless)
  {
    var i: nat, pass: nat := 0, 0;
    endless := false;
    UnchangedConserves(a.e, sections, a.w);
    while i < |sections|
      invariant a.Valid() && a.Indexed() && i <= |sections| && PassesUsed(sections, i, pass, w0, a.w, safe)
      invariant Settled(a.e, sections, i, a.w) && Conserved(a.e, sections, w0, a.w)
      invariant Continues(a.e, sections, 0, 0, w0, i, pass, a.w, false)
      decreases Total(a.w), |sections| - i
    {
      ghost var v := a.w;
      i, pass, endless := NextPass(a, sections, i, pass, w0, safe);
      ConservedOn(a.e, sections, w0, v, a.w);
      if endless {
        return;
      }
    }
  }

  /** One pass of the loop: a run of section i, unless it is one of those not run here. */
  method NextPass(a: Runner, sections: seq<Section>, i: nat, pass: nat, ghost w0: Window, ghost safe: bool)
      returns (i': nat, pass': nat, endless: bool)
    requires a.Valid() && a.Indexed() && InOrder(sections) && Runnable(a.e, sections) && i < |sections|
    requires (safe ==> SectionsSafe(a.e, sections)) && PassesUsed(sections, i, pass, w0, a.w, safe)
    modifies a`w, a`bits, a`no, a`index
    ensures a.Valid() && a.Indexed()
    ensures PassesUsed(sections, i', pass', w0, a.w, safe) || endless
    ensures i' <= |sections| && if i' == i then Total(a.w) < Total(old(a.w)) else i' == i + 1 && a.w == old(a.w)
    ensures Settled(a.e, sections, i', a.w)
    ensures endless && safe ==> 997 < Surplus(w0)
    ensures Conserved(a.e, sections, old(a.w), a.w)
    ensures Continues(a.e, sections, i, pass, old(a.w), i', pass', a.w, endless)
  {
    UnchangedConserves(a.e, sections, a.w);
    i', pass', endless := i, pass, false;
    KeysGrow(sections, i);
    if sections[i].key < 0 {
      i' := i + 1;
    } else {
      var something := RunSection(a, sections, i, w0, safe);
      if !something {
        i' := i + 1;
        pass' := 0;
      }
      if pass' >= PASSES {
        if safe { OccupiedFloor(w0, a.w); }
        endless := true;
      }
    }
    pass' := pass' + 1;
    SettledNext(a.e, sections, i, i', a.w);
  }

  lemma SettledNext(e: Setting, sections: seq<Section>, i: nat, i': nat, w: Window)
    requires Runnable(e, sections) && i < |sections|
    requires i' == i || (i' == i + 1 && (0 <= sections[i].key ==> Quiet(e, sections[i].rules, w)))
    ensures Settled(e, sections, i', w)
  {
  }

  /** At most three passes go by before a section is run; every further one has cost a reading. */
  ghost predicate PassesUsed(sections: seq<Section>, i: nat, pass: nat, w0: Window, w: Window, safe: bool) {
    && |w| == |w0| && (safe ==> StillOccupied(w0, w))
    && pass <= 3 + Total(w0) - Total(w) && Total(w) <= Total(w0)
    && (i < |sections| && sections[i].key < 0 ==> pass == i)
  }

  /** No rule of any section has anything left to do. */
  ghost predicate AllQuiet(e: Setting, sections: seq<Section>, w: Window)
    requires Runnable(e, sections)
  {
    forall i :: 0 <= i < |sections| && 0 <= sections[i].key ==> Quiet(e, sections[i].rules, w)
  }

  /** Once all sections are done, the last one is quiet. */
  ghost predicate Settled(e: Setting, sections: seq<Section>, i: nat, w: Window)
    requires Runnable(e, sections)
  {
    0 < i == |sections| && 0 <= sections[i - 1].key ==> Quiet(e, sections[i - 1].rules, w)
  }

  lemma LastSectionDecides(e: Setting, sections: seq<Section>, w: Window)
    requires InOrder(sections) && Cumulative(sections) && Runnable(e, sections)
    requires Settled(e, sections, |sections|, w)
    ensures AllQuiet(e, sections, w)
  {
    var last := |sections| - 1;
    forall i | 0 <= i < |sections| && 0 <= sections[i].key ensures Quiet(e, sections[i].rules, w) {
      assert i < last ==> sections[i].key < sections[last].key;
      forall r | r in sections[i].rules ensures r in sections[last].rules {
        var k :| 0 <= k < |sections[i].rules| && sections[i].rules[k] == r;
      }
    }
  }

  // ---- one surplus reading too many ----

  /** Cohorts from c on have one reading each. */
  predicate LoneFrom(w: Window, c: nat)
    decreases |w| - c
  {
    c >= |w| || (|w[c].readings| == 1 && LoneFrom(w, c + 1))
  }

  /** One safe REMOVE rule for readings with plain tags 1, whose tests hold for the last cohort with two readings. */
  const FROM_THE_RIGHT := Setting([Rule(Remove, 0, false, true, false)], (s: nat, x: Reading) => s == 0 && x.plain == 1,
                                  (r: nat, w: Window, c: nat) => c < |w| && |w[c].readings| == 2 && LoneFrom(w, c + 1),
                                  (r: nat, c: nat) => true)

  const FOUR_SECTIONS := [Section(-3, []), Section(-2, []), Section(-1, []), Section(0, [0])]

  function Full(c: nat): Cohort {
    Cohort([Reading(2 * c, 1), Reading(2 * c + 1, 0)], [], [])
  }

  function Reduced(c: nat): Cohort {
    Cohort([Reading(2 * c + 1, 0)], [Reading(2 * c, 1)], [])
  }

  /** A begin marker and n cohorts with two readings each, the last k of which have lost one. */
  function Row(n: nat, k: nat): (w: Window)
    requires k <= n
    ensures |w| == n + 1
    ensures forall c: nat :: 0 < c <= n ==> w[c] == if c <= n - k then Full(c) else Reduced(c)
  {
    seq(n + 1, c requires 0 <= c <= n =>
      if c == 0 then Cohort([], [], []) else if c <= n - k then Full(c) else Reduced(c))
  }

  lemma {:induction false} RowIsLone(n: nat, k: nat, c: nat)
    requires k <= n && 0 < c
    ensures LoneFrom(Row(n, k), c) <==> c > n - k
    decreases n + 1 - c
  {
    if c <= n { RowIsLone(n, k, c + 1); }
  }

  lemma FullToReduced(c: nat)
    ensures RemoveIn(FROM_THE_RIGHT, 0, Full(c)) == Reduced(c)
  {
    var p, x, y := Hits(FROM_THE_RIGHT, 0), Reading(2 * c, 1), Reading(2 * c + 1, 0);
    assert p(x) && !p(y) && [x, y][..1] == [x] && [x][..0] == [];
    assert Those([x], p) == [x] && Those([x], Not(p)) == [];
    assert Those([x, y], p) == [x] && Those([x, y], Not(p)) == [y];
    assert SwapOut([x, y], x) == [y];
    assert SwapOutAll([x, y], [x]) == SwapOutAll([y], []);
  }

  /** On cohort c the rule does nothing, unless c is the last cohort with two readings. */
  lemma RowStays(n: nat, k: nat, c: nat)
    requires k <= n && 0 < c <= n && c != n - k
    ensures Apply(FROM_THE_RIGHT, 0, Row(n, k), c) == Row(n, k)
  {
    var w := Row(n, k);
    RowIsLone(n, k, c + 1);
    assert !FROM_THE_RIGHT.context(0, w, c);
    assert w[c := w[c]] == w;
  }

  /** From that cohort it takes one. */
  lemma RowLoses(n: nat, k: nat)
    requires k < n
    ensures Apply(FROM_THE_RIGHT, 0, Row(n, k), n - k) == Row(n, k + 1)
  {
    var e, w, c := FROM_THE_RIGHT, Row(n, k), n - k;
    RowIsLone(n, k, c + 1);
    FullToReduced(c);
    assert Full(c).readings[0] in w[c].readings && Hits(e, 0)(Full(c).readings[0]);
    NoneOfThose(w[c].readings, Hits(e, 0));
    assert e.context(0, w, c);
    assert w[c := Reduced(c)] == Row(n, k + 1);
  }

  lemma {:induction false} RowRun(n: nat, k: nat, c: nat)
    requires k < n && c <= n + 1
    ensures NaiveRule(FROM_THE_RIGHT, 0, Row(n, k), c) == if c <= n - k then Row(n, k) else Row(n, k + 1)
    decreases c
  {
    if c > 1 {
      RowRun(n, k, c - 1);
      var j := c - 1;
      if j < n - k {
        RowStays(n, k, j);
      } else if j == n - k {
        RowLoses(n, k);
      } else {
        RowStays(n, k + 1, j);
      }
    }
  }

  lemma RowIsDistinct(n: nat, k: nat)
    requires k <= n
    ensures AllDistinct(Row(n, k))
  {
  }

  /** Sections with the negative keys, and one with the rule. */
  ghost predicate IsRow(e: Setting, sections: seq<Section>) {
    e == FROM_THE_RIGHT && sections == FOUR_SECTIONS
  }

  lemma RowSections(e: Setting, sections: seq<Section>)
    requires IsRow(e, sections)
    ensures Runnable(e, sections) && NoUnsafeIff(e, sections) && SectionsSafe(e, sections)
    ensures InOrder(sections) && Cumulative(sections)
  {
    assert |sections| == 4 && |e.rules| == 1 && e.rules[0].kind == Remove && e.rules[0].safe;
    forall i | 0 <= i < 4
      ensures RulesExist(e, sections[i].rules) && IffIsSafe(e, sections[i].rules) && AllSafe(e, sections[i].rules)
    {
      assert forall k :: 0 <= k < |sections[i].rules| ==> sections[i].rules[k] == 0;
    }
    forall i, j | 0 <= i < j < 4 ensures sections[i].key < sections[j].key && sections[i].rules == [] {
    }
  }

  lemma NegativeKey(e: Setting, sections: seq<Section>, i: nat, pass: nat, w: Window)
    requires Runnable(e, sections) && NoUnsafeIff(e, sections) && AllDistinct(w) && i < |sections| &&
             sections[i].key < 0
    ensures Passes(e, sections, i, pass, w) == Passes(e, sections, i + 1, pass + 1, w)
  {
  }

  lemma ChangingRun(e: Setting, sections: seq<Section>, i: nat, pass: nat, w: Window, v: Window)
    requires Runnable(e, sections) && NoUnsafeIff(e, sections) && AllDistinct(w) && i < |sections| &&
             0 <= sections[i].key
    requires v == Naive(e, sections[i].rules, w) && v != w
    ensures AllDistinct(v)
    ensures Passes(e, sections, i, pass, w) == if pass >= PASSES then (true, v) else Passes(e, sections, i, pass + 1, v)
  {
    NaiveFalls(e, sections[i].rules, w);
  }

  /** A run of the rules takes one reading, as long as there is one to take. */
  ghost predicate TakesOne(e: Setting, rules: seq<nat>, n: nat)
    requires RulesExist(e, rules)
  {
    forall k :: 0 <= k < n ==> Naive(e, rules, Row(n, k)) == Row(n, k + 1)
  }

  lemma RowTakesOne(e: Setting, sections: seq<Section>, n: nat)
    requires IsRow(e, sections) && Runnable(e, sections)
    ensures TakesOne(e, sections[3].rules, n)
  {
    var rules := sections[3].rules;
    forall k | 0 <= k < n ensures Naive(e, rules, Row(n, k)) == Row(n, k + 1) {
      RowRun(n, k, n + 1);
      assert NaiveRules(e, rules, Row(n, k), 0) == Row(n, k) && rules[0] == 0;
    }
  }

  lemma {:induction false} RowPasses(e: Setting, sections: seq<Section>, n: nat, k: nat)
    requires Runnable(e, sections) && NoUnsafeIff(e, sections) && |sections| == 4 && sections[3].key == 0
    requires TakesOne(e, sections[3].rules, n) && n == PASSES - 2 && k < n
    ensures AllDistinct(Row(n, k)) && Passes(e, sections, 3, 3 + k, Row(n, k)) == (true, Row(n, n))
    decreases n - k
  {
    var w, v := Row(n, k), Row(n, k + 1);
    RowIsDistinct(n, k);
    assert Naive(e, sections[3].rules, w) == v;
    assert w[n - k] == Full(n - k) && v[n - k] == Reduced(n - k);
    ChangingRun(e, sections, 3, 3 + k, w, v);
    if k + 1 < n { RowPasses(e, sections, n, k + 1); }
  }

  lemma {:induction false} RowSurplus(n: nat)
    ensures Total(Row(n, 0)) == 2 * n && Occupied(Row(n, 0)) == n
    decreases n
  {
    var w := Row(n, 0);
    var front := w[..n];
    assert w[|w| - 1] == w[n] && w[..|w| - 1] == front;
    assert w[n].readings == if n == 0 then [] else Full(n).readings;
    if n == 0 {
      assert front == [];
    } else {
      RowSurplus(n - 1);
      assert front == Row(n - 1, 0);
    }
  }

  /** With 998 surplus readings and a safe rule the loop can give up, though every run has made progress. */
  lemma TooManyPasses(e: Setting, sections: seq<Section>, n: nat)
    requires IsRow(e, sections) && n == PASSES - 2
    ensures InOrder(sections) && Cumulative(sections) && Runnable(e, sections)
    ensures NoUnsafeIff(e, sections) && SectionsSafe(e, sections)
    ensures AllDistinct(Row(n, 0)) && Surplus(Row(n, 0)) == 998
    ensures Passes(e, sections, 0, 0, Row(n, 0)) == (true, Row(n, n))
  {
    RowSections(e, sections);
    RowIsDistinct(n, 0);
    RowSurplus(n);
    RowTakesOne(e, sections, n);
    RowPasses(e, sections, n, 0);
    NegativeKey(e, sections, 0, 0, Row(n, 0));
    NegativeKey(e, sections, 1, 1, Row(n, 0));
    NegativeKey(e, sections, 2, 2, Row(n, 0));
  }
}
