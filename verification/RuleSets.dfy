/**
 The rules over the sets of a grammar: what a rule's target matches is the meaning of a set, the bits come
 from entering the readings' tags, and together they are what the runner relies on.
 */
module RuleSets {
  import SetMatching
  import PossibleSets
  import opened RuleSteps
  import opened PlainRules
  import opened RuleRunner
  import opened SectionLoop

  /** The tags of a reading: tags_plain, and tags_list in rest. */
  type TagsOf = Reading -> SetMatching.Reading

  /** hash_plain tells plain tags apart. */
  ghost predicate PlainTells(tagsOf: TagsOf) {
    forall x: Reading, y: Reading :: x.plain == y.plain ==> tagsOf(x).plain == tagsOf(y).plain
  }

  /** What the target of rule r matches is the meaning of a set of g; special is that set's flag. */
  ghost predicate Targets(e: Setting, tt: SetMatching.TagTable, g: seq<SetMatching.SetDef>, env: SetMatching.Env,
                          tagsOf: TagsOf)
    requires SetMatching.ValidGrammar(tt, g)
  {
    && (forall r :: 0 <= r < |e.rules| ==>
          e.rules[r].target < |g| && e.rules[r].special == g[e.rules[r].target].special)
    && (forall s: nat, x :: e.matches(s, x) <==> s < |g| && SetMatching.Match(tt, g, env, tagsOf(x), s))
  }

  /** So results may be copied between readings with equal plain tags. */
  lemma TargetsAreValid(e: Setting, tt: SetMatching.TagTable, g: seq<SetMatching.SetDef>, env: SetMatching.Env,
                        tagsOf: TagsOf)
    requires PossibleSets.Indexable(tt, g) && Targets(e, tt, g, env, tagsOf) && PlainTells(tagsOf)
    ensures ValidSetting(e)
  {
    forall r, x: Reading, y: Reading | 0 <= r < |e.rules| && !e.rules[r].special && x.plain == y.plain
      ensures Hits(e, r)(x) == Hits(e, r)(y)
    {
      SetMatching.PlainSetsIgnoreEnv(tt, g, env, env, tagsOf(x), tagsOf(y), e.rules[r].target);
    }
  }

  function Tagged(rs: seq<Reading>, tagsOf: TagsOf): (ts: seq<SetMatching.Reading>)
    ensures |ts| == |rs| && forall i :: 0 <= i < |rs| ==> ts[i] == tagsOf(rs[i])
  {
    seq(|rs|, i requires 0 <= i < |rs| => tagsOf(rs[i]))
  }

  /** Bits that cover the sets in the sense of the prefilter are what the index of rules relies on. */
  lemma CoveringBits(e: Setting, tt: SetMatching.TagTable, g: seq<SetMatching.SetDef>, env: SetMatching.Env,
                     tagsOf: TagsOf, w: Window, bits: seq<set<nat>>)
    requires PossibleSets.Indexable(tt, g) && Targets(e, tt, g, env, tagsOf) && |bits| == |w|
    requires forall c :: 0 <= c < |w| ==> PossibleSets.AllCovered(tt, g, Tagged(w[c].readings, tagsOf), bits[c], false)
    ensures BitsCover(e, w, bits)
  {
    forall c, x, s: nat | 0 <= c < |w| && x in w[c].readings && e.matches(s, x) ensures s in bits[c] {
      var i :| 0 <= i < |w[c].readings| && w[c].readings[i] == x;
      var ts := Tagged(w[c].readings, tagsOf);
      assert PossibleSets.Covered(tt, g, ts[i], bits[c], false);
      assert PossibleSets.Needed(tt, g, ts[i], s);
    }
  }

  /** The tags of the readings are what adding them one by one gives. */
  ghost predicate AddedUp(tt: SetMatching.TagTable, rs: seq<Reading>, tagsOf: TagsOf) {
    forall i :: 0 <= i < |rs| ==> tagsOf(rs[i]) == PossibleSets.Rebuilt(tt, tagsOf(rs[i]).rest)
  }

  /** The bits of a cohort whose readings are entered one after the other, tag by tag. */
  method EnterReadings(tt: SetMatching.TagTable, g: seq<SetMatching.SetDef>, any: int, byTag: map<int, set<nat>>,
                       rs: seq<Reading>, tagsOf: TagsOf) returns (possible: set<nat>)
    requires PossibleSets.Indexable(tt, g) && PossibleSets.IndexIs(tt, g, any, byTag) && AddedUp(tt, rs, tagsOf)
    ensures PossibleSets.AllCovered(tt, g, Tagged(rs, tagsOf), possible, false)
  {
    var cohort := new PossibleSets.Cohort(tt, g, any, byTag);
    for i := 0 to |rs|
      invariant fresh(cohort) && cohort.Valid() && cohort.Covers(false)
      invariant cohort.readings == Tagged(rs[..i], tagsOf)
    {
      EnterReading(cohort, tagsOf(rs[i]).rest);
      assert Tagged(rs[..i + 1], tagsOf) == Tagged(rs[..i], tagsOf) + [tagsOf(rs[i])];
    }
    assert rs[..|rs|] == rs;
    possible := cohort.possible;
  }

  method EnterReading(cohort: PossibleSets.Cohort, tags: seq<int>)
    requires cohort.Valid() && cohort.Covers(false)
    modifies cohort
    ensures cohort.Valid() && cohort.Covers(false)
    ensures cohort.readings == old(cohort.readings) + [PossibleSets.Rebuilt(cohort.tt, tags)]
  {
    var before := cohort.readings;
    ghost var tt := cohort.tt;
    cohort.AppendReading();
    for k := 0 to |tags|
      invariant cohort.Valid() && cohort.Covers(false)
      invariant cohort.readings == before + [PossibleSets.Rebuilt(tt, tags[..k])]
    {
      AddOne(tt, before, tags, k);
      cohort.AddTag(|before|, tags[k]);
    }
    assert tags[..|tags|] == tags;
  }

  lemma AddOne(tt: SetMatching.TagTable, before: seq<SetMatching.Reading>, tags: seq<int>, k: nat)
    requires k < |tags|
    ensures var r, r' := PossibleSets.Rebuilt(tt, tags[..k]), PossibleSets.Rebuilt(tt, tags[..k + 1]);
            (before + [r])[|before| := PossibleSets.WithTag(tt, r, tags[k])] == before + [r']
  {
    assert tags[..k + 1][..k] == tags[..k];
  }

  /** A window whose cohorts have been entered tag by tag, ready for the rules. */
  method NewRunner(e: Setting, tt: SetMatching.TagTable, g: seq<SetMatching.SetDef>, any: int,
                   ghost env: SetMatching.Env, tagsOf: TagsOf, numbers: seq<nat>, rulesBySet: seq<seq<nat>>,
                   clears: (nat, Window, nat, nat) -> set<nat>, w: Window) returns (a: Runner)
    requires PossibleSets.Indexable(tt, g) && Targets(e, tt, g, env, tagsOf) && PlainTells(tagsOf)
    requires BySet(e, rulesBySet) && Numbered(e, numbers, w) && AllDistinct(w)
    requires forall c :: 0 <= c < |w| ==> AddedUp(tt, w[c].readings, tagsOf)
    ensures fresh(a) && a.e == e && a.w == w && a.Valid() && a.Indexed()
  {
    var index := new PossibleSets.Index(tt, g, any);
    index.IndexAll();
    var bits: seq<set<nat>> := [];
    for c := 0 to |w|
      invariant |bits| == c && PossibleSets.IndexIs(tt, g, any, index.byTag)
      invariant forall d :: 0 <= d < c ==> PossibleSets.AllCovered(tt, g, Tagged(w[d].readings, tagsOf), bits[d], false)
    {
      var possible := EnterReadings(tt, g, any, index.byTag, w[c].readings, tagsOf);
      bits := bits + [possible];
    }
    TargetsAreValid(e, tt, g, env, tagsOf);
    CoveringBits(e, tt, g, env, tagsOf, w, bits);
    a := new Runner(e, numbers, rulesBySet, clears, w, bits);
  }

  /**
   From the tags to the end of the sections, with every short cut taken: what is left is what the plain loops
   over all rules and cohorts leave, if no section has an unsafe IFF rule, and it is as good as done if the loop
   has not given up.
   */
  method RunGrammar(e: Setting, tt: SetMatching.TagTable, g: seq<SetMatching.SetDef>, any: int,
                    ghost env: SetMatching.Env, tagsOf: TagsOf, numbers: seq<nat>, rulesBySet: seq<seq<nat>>,
                    clears: (nat, Window, nat, nat) -> set<nat>, sections: seq<Section>, w: Window)
      returns (endless: bool, w': Window)
    requires PossibleSets.Indexable(tt, g) && Targets(e, tt, g, env, tagsOf) && PlainTells(tagsOf)
    requires BySet(e, rulesBySet) && Numbered(e, numbers, w) && AllDistinct(w)
    requires forall c :: 0 <= c < |w| ==> AddedUp(tt, w[c].readings, tagsOf)
    requires InOrder(sections) && Cumulative(sections) && Runnable(e, sections)
    ensures endless || AllQuiet(e, sections, w')
    ensures AllDistinct(w') && Conserved(e, sections, w, w')
    ensures NoUnsafeIff(e, sections) ==> (endless, w') == Passes(e, sections, 0, 0, w)
    ensures SectionsSafe(e, sections) && Surplus(w) <= 997 ==> !endless
  {
    var a := NewRunner(e, tt, g, any, env, tagsOf, numbers, rulesBySet, clears, w);
    endless := RunSections(a, sections);
    w' := a.w;
  }

  // ---- what is left, in terms of sets ----

  /** Set s matches reading x. */
  ghost predicate In(tt: SetMatching.TagTable, g: seq<SetMatching.SetDef>, env: SetMatching.Env, tagsOf: TagsOf,
                     x: Reading, s: nat)
    requires SetMatching.ValidGrammar(tt, g) && s < |g|
  {
    SetMatching.Match(tt, g, env, tagsOf(x), s)
  }

  ghost predicate NoneIn(tt: SetMatching.TagTable, g: seq<SetMatching.SetDef>, env: SetMatching.Env, tagsOf: TagsOf,
                         rs: seq<Reading>, s: nat)
    requires SetMatching.ValidGrammar(tt, g) && s < |g|
  {
    forall x :: x in rs ==> !In(tt, g, env, tagsOf, x, s)
  }

  ghost predicate AllIn(tt: SetMatching.TagTable, g: seq<SetMatching.SetDef>, env: SetMatching.Env, tagsOf: TagsOf,
                        rs: seq<Reading>, s: nat)
    requires SetMatching.ValidGrammar(tt, g) && s < |g|
  {
    forall x :: x in rs ==> In(tt, g, env, tagsOf, x, s)
  }

  /**
   What it is for a rule to be quiet on a cohort that it fits. No reading is in the target set; or all are, and the
   rule would select, or it would remove but is safe; or the tests fail and the rule is no IFF rule; or it is an
   unsafe IFF rule that has left a lone reading alone.
   */
  lemma QuietMeans(e: Setting, tt: SetMatching.TagTable, g: seq<SetMatching.SetDef>, env: SetMatching.Env,
                   tagsOf: TagsOf, w: Window, r: nat, c: nat)
    requires PossibleSets.Indexable(tt, g) && Targets(e, tt, g, env, tagsOf) && AllDistinct(w)
    requires r < |e.rules| && c < |w| && e.fits(r, c)
    ensures var rule, good, rs := e.rules[r], e.context(r, w, c), w[c].readings;
            RuleIsQuiet(e, r, w, c) <==>
              || NoneIn(tt, g, env, tagsOf, rs, rule.target)
              || (AllIn(tt, g, env, tagsOf, rs, rule.target) && if good && rule.kind != Remove then true else rule.safe)
              || (!good && rule.kind != Iff)
              || LeftAlone(e, r, w, c)
  {
    var rule, good, rs, p := e.rules[r], e.context(r, w, c), w[c].readings, Hits(e, r);
    NoneOfThose(rs, p);
    assert forall x :: p(x) <==> In(tt, g, env, tagsOf, x, rule.target);
    assert w[c := w[c]] == w;
    if Apply(e, r, w, c) == w && Those(rs, p) != [] {
      assert ActIn(e, r, w[c], good) == w[c];
      forall x | x in rs
        ensures good && rule.kind != Remove ==> p(x)
        ensures (if good then rule.kind == Remove else rule.kind == Iff) ==> !p(x) || (rule.safe && AllHit(rs, p))
      {
        ActChooses(e, r, w[c], good, x);
      }
    }
  }

  ghost predicate AllHit(rs: seq<Reading>, p: Reading -> bool) {
    forall x :: x in rs ==> p(x)
  }
}
