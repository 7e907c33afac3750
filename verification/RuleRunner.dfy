/**
 runRulesOnSingleWindow for SELECT, REMOVE and IFF rules. Instead of trying every rule on every cohort,
 it goes through an index of cohorts by rule, which it prunes, and skips a rule and cohort that came to
 nothing since the window last changed.
 */
module RuleRunner {
  import opened RuleSteps
  import opened RuleKeys
  import opened PlainRules

  // ---- the index, the bits and the cache ----

  ghost predicate ValidSetting(e: Setting) {
    forall r, x: Reading, y: Reading :: 0 <= r < |e.rules| && !e.rules[r].special && x.plain == y.plain ==>
          Hits(e, r)(x) == Hits(e, r)(y)
  }

  /** The window's cohorts have numbers of their own, near enough to each other and with no key that is avoided. */
  ghost predicate Numbered(e: Setting, numbers: seq<nat>, w: Window) {
    && |e.rules| <= RULES && |numbers| == |w| > 0
    && (forall c :: 0 < c < |w| ==> 1 <= numbers[c] < WIDTH)
    && (forall c, d :: 0 < c < d < |w| ==> numbers[c] != numbers[d] && -SPREAD <= numbers[c] - numbers[d] <= SPREAD)
    && (forall r: nat, c :: r < |e.rules| && 0 < c < |w| ==> !Reserved(Residue(r, numbers[c])))
  }

  lemma KeysDiffer(e: Setting, numbers: seq<nat>, w: Window, r: nat, c: nat, r': nat, c': nat)
    requires Numbered(e, numbers, w) && r < |e.rules| && r' < |e.rules| && 0 < c < |w| && 0 < c' < |w|
    ensures Key(r, numbers[c]) == Key(r', numbers[c']) <==> r == r' && c == c'
  {
    KeysIdentify(r, numbers[c], r', numbers[c']);
    ResiduesIdentify(r, numbers[c], r', numbers[c']);
  }

  /** The first cohorts of a text are numbered like that. */
  lemma FirstWindowIsNumbered(e: Setting, numbers: seq<nat>, w: Window)
    requires |e.rules| <= RULES && |numbers| == |w| > 0
    requires forall c :: 0 < c < |w| ==> 1 <= numbers[c] <= SPREAD
    requires forall c, d :: 0 < c < d < |w| ==> numbers[c] != numbers[d]
    ensures Numbered(e, numbers, w)
  {
    forall r: nat, c | r < |e.rules| && 0 < c < |w| ensures !Reserved(Residue(r, numbers[c])) {
      FirstCohorts(r, numbers[c]);
    }
  }

  /** index_ruleCohort_no: what is remembered comes to nothing in the present window. */
  ghost predicate Remembered(e: Setting, numbers: seq<nat>, w: Window, no: set<int>)
    requires |numbers| == |w|
  {
    forall r, c :: 0 <= r < |e.rules| && 0 < c < |w| && Key(r, numbers[c]) in no ==> Apply(e, r, w, c) == w
  }

  predicate Ascending(cs: seq<nat>) {
    forall i, j :: 0 <= i < j < |cs| ==> cs[i] < cs[j]
  }

  /** A cohort that is not indexed under a rule is none of its business. */
  ghost predicate Pruned(e: Setting, w: Window, index: seq<seq<nat>>) {
    && |index| == |e.rules|
    && (forall r :: 0 <= r < |index| ==>
          Ascending(index[r]) && forall i :: 0 <= i < |index[r]| ==> index[r][i] < |w| && e.fits(r, index[r][i]))
    && (forall r, c: nat :: 0 <= r < |index| && c < |w| && c !in index[r] ==> Idle(e, r, w, c))
  }

  /** possible_sets: a set that matches a reading has its bit in the cohort. */
  ghost predicate BitsCover(e: Setting, w: Window, bits: seq<set<nat>>) {
    && |bits| == |w|
    && forall c, x, s: nat :: 0 <= c < |w| && x in w[c].readings && e.matches(s, x) ==> s in bits[c]
  }

  lemma FewerKeepsIndexes(e: Setting, w: Window, w': Window, index: seq<seq<nat>>, bits: seq<set<nat>>)
    requires Fewer(w, w') && Pruned(e, w, index) && BitsCover(e, w, bits)
    ensures Pruned(e, w', index) && BitsCover(e, w', bits)
  {
    forall r, c: nat | 0 <= r < |index| && c < |w| && c !in index[r] ensures Idle(e, r, w', c) {
      assert Idle(e, r, w, c);
    }
  }

  /** Remembering that one rule and cohort come to nothing says nothing about any other. */
  lemma Remember(e: Setting, numbers: seq<nat>, w: Window, no: set<int>, r: nat, c: nat)
    requires Numbered(e, numbers, w) && Remembered(e, numbers, w, no)
    requires r < |e.rules| && 0 < c < |w| && Apply(e, r, w, c) == w
    ensures Remembered(e, numbers, w, no + {Key(r, numbers[c])})
  {
    forall r', c' | 0 <= r' < |e.rules| && 0 < c' < |w| && Key(r', numbers[c']) == Key(r, numbers[c])
      ensures r' == r && c' == c
    {
      KeysDiffer(e, numbers, w, r, c, r', c');
    }
  }

  // ---- the runner ----

  /** What one rule finds in one cohort: per reading, whether the target matches, and whether the tests hold as well. */
  datatype Findings = Findings(target: seq<bool>, tests: seq<bool>, active: nat, iff: nat, kind: Kind)

  ghost predicate FlagsRight(hits: Reading -> bool, rs: seq<Reading>, good: bool, f: Findings) {
    && |f.target| == |f.tests| == |rs|
    && forall i :: 0 <= i < |rs| ==> f.target[i] == hits(rs[i]) && f.tests[i] == (hits(rs[i]) && good)
  }

  /** hit is the matched readings. An IFF rule with a valid target is a SELECT, otherwise a REMOVE. */
  ghost predicate CountsRight(kind: Kind, hit: seq<Reading>, good: bool, f: Findings) {
    && f.active == (if good then |hit| else 0)
    && (f.iff == 0 <==> hit == [])
    && f.kind == if kind != Iff then kind else if good && hit != [] then Select else Remove
  }

  ghost predicate Found(e: Setting, r: nat, rs: seq<Reading>, good: bool, f: Findings)
    requires r < |e.rules|
  {
    && FlagsRight(Hits(e, r), rs, good, f)
    && CountsRight(e.rules[r].kind, Those(rs, Hits(e, r)), good, f)
  }

  /** What is remembered of earlier readings of the cohort, by plain tags, is what their like will give. */
  ghost predicate PlainResults(e: Setting, r: nat, rs: seq<Reading>, good: bool, plain: map<int, (bool, bool)>)
    requires r < |e.rules|
  {
    forall x: Reading :: x.plain in plain && !e.rules[r].special ==>
      && plain[x.plain] == (Hits(e, r)(x), Hits(e, r)(x) && good)
      && (Hits(e, r)(x) ==> Those(rs, Hits(e, r)) != [])
  }

  /** Notes the outcome for one more reading; only a fresh outcome can turn IFF into SELECT. */
  function Note(e: Setting, r: nat, f: Findings, target: bool, tests: bool, isNew: bool): Findings
    requires r < |e.rules|
  {
    Findings(f.target + [target], f.tests + [tests], f.active + if tests then 1 else 0,
             f.iff + if isNew && target then 1 else 0,
             if isNew && tests && e.rules[r].kind == Iff then Select else f.kind)
  }

  lemma ThoseStep(rs: seq<Reading>, i: nat, p: Reading -> bool)
    requires i < |rs|
    ensures Those(rs[..i + 1], p) == Those(rs[..i], p) + if p(rs[i]) then [rs[i]] else []
  {
    assert rs[..i + 1][..i] == rs[..i];
  }

  lemma FoundStep(e: Setting, r: nat, rs: seq<Reading>, i: nat, good: bool, f: Findings, isNew: bool)
    requires r < |e.rules| && i < |rs| && Found(e, r, rs[..i], good, f)
    requires Hits(e, r)(rs[i]) && !isNew ==> Those(rs[..i], Hits(e, r)) != []
    ensures var hit := Hits(e, r)(rs[i]); Found(e, r, rs[..i + 1], good, Note(e, r, f, hit, hit && good, isNew))
  {
    var p := Hits(e, r);
    ThoseStep(rs, i, p);
  }

  lemma PlainStep(e: Setting, r: nat, rs: seq<Reading>, i: nat, good: bool, plain: map<int, (bool, bool)>)
    requires ValidSetting(e) && r < |e.rules| && i < |rs| && PlainResults(e, r, rs[..i], good, plain)
    ensures var hit := Hits(e, r)(rs[i]);
            && PlainResults(e, r, rs[..i + 1], good, plain)
            && PlainResults(e, r, rs[..i + 1], good, plain[rs[i].plain := (hit, hit && good)])
  {
    ThoseStep(rs, i, Hits(e, r));
  }

  /** The second loop: sorts the readings into selected and removed ones. It always forgets what was remembered. */
  method SortReadings(e: Setting, r: nat, rs: seq<Reading>, f: Findings, ghost good: bool)
      returns (selected: seq<Reading>, removed: seq<Reading>, touched: bool)
    requires r < |e.rules| && Found(e, r, rs, good, f) && Those(rs, Hits(e, r)) != []
    requires e.rules[r].kind != Iff ==> good
    ensures touched
    ensures f.kind == Select ==> selected == Those(rs, Hits(e, r)) && removed == Those(rs, Not(Hits(e, r)))
    ensures f.kind == Remove ==> selected == [] && removed == Those(rs, Hits(e, r))
  {
    selected, removed, touched := [], [], false;
    ghost var p := Hits(e, r);
    for i := 0 to |rs|
      invariant f.kind == Select ==> selected == Those(rs[..i], p) && removed == Those(rs[..i], Not(p))
      invariant f.kind == Remove ==> selected == [] && removed == Those(rs[..i], p)
      invariant selected + removed != [] ==> touched
    {
      var valid := f.tests[i];
      if e.rules[r].kind == Iff && f.kind == Remove && f.target[i] {
        valid := true;
      }
      ThoseStep(rs, i, p);
      ThoseStep(rs, i, Not(p));
      if f.kind == Select {
        if valid {
          selected := selected + [rs[i]];
        } else {
          removed := removed + [rs[i]];
        }
        touched := true;
      } else if valid {
        removed := removed + [rs[i]];
        touched := true;
      }
    }
    assert rs[..|rs|] == rs;
  }

  /** Carries out what the second loop has sorted. */
  method ActOn(e: Setting, r: nat, c: Cohort, f: Findings, ghost good: bool) returns (c': Cohort, touched: bool)
    requires r < |e.rules| && Distinct(c.readings) && Found(e, r, c.readings, good, f)
    requires Those(c.readings, Hits(e, r)) != [] && (e.rules[r].kind != Iff ==> good)
    requires f.kind == Select ==> Those(c.readings, Not(Hits(e, r))) != []
    ensures c' == ActIn(e, r, c, good) && touched
  {
    var rule, rs := e.rules[r], c.readings;
    var selected, removed;
    selected, removed, touched := SortReadings(e, r, rs, f, good);
    ThoseCount(rs, Hits(e, r));
    c' := c;
    if f.kind == Remove && |removed| == |rs| && rule.safe {
      removed := [];
    }
    if removed != [] {
      RemovedReady(rs, Hits(e, r));
      var left := Partition(rs, removed);
      c' := Discard(c, removed, left, rule.delayed);
    }
    if selected != [] {
      c' := c'.(readings := selected);
    }
  }

  lemma RemovedReady(rs: seq<Reading>, p: Reading -> bool)
    requires Distinct(rs)
    ensures Distinct(Those(rs, p)) && forall x :: x in Those(rs, p) ==> x in rs
    ensures Distinct(Those(rs, Not(p))) && forall x :: x in Those(rs, Not(p)) ==> x in rs
  {
    ThoseAre(rs, p);
    ThoseAre(rs, Not(p));
    ThoseDistinct(rs, p);
    ThoseDistinct(rs, Not(p));
  }

  class Runner {
    const e: Setting
    const numbers: seq<nat>
    const rulesBySet: seq<seq<nat>>
    /** The sets that the tests of a rule on one cohort find not to match another. */
    const clears: (nat, Window, nat, nat) -> set<nat>
    var w: Window
    var bits: seq<set<nat>>
    /** rule_to_cohorts, and valid_rules: the rules that index at least one cohort to begin with. */
    var index: seq<seq<nat>>
    var valid: set<nat>
    /** index_ruleCohort_no */
    var no: set<int>

    constructor (e: Setting, numbers: seq<nat>, rulesBySet: seq<seq<nat>>, clears: (nat, Window, nat, nat) -> set<nat>,
                 w: Window, bits: seq<set<nat>>)
      requires BySet(e, rulesBySet) && ValidSetting(e) && Numbered(e, numbers, w) && AllDistinct(w) &&
               BitsCover(e, w, bits)
      ensures this.e == e && this.numbers == numbers && this.w == w && no == {}
      ensures Valid() && Indexed()
    {
      this.e, this.numbers, this.rulesBySet, this.clears, this.w, this.bits := e, numbers, rulesBySet, clears, w, bits;
      index, valid, no := [], {}, {};
      new;
      IndexWindow();
    }

    /** What the rule loops rely on. */
    ghost predicate Indexed()
      reads this
    {
      Pruned(e, w, index) && Listed(index, valid)
    }

    ghost predicate Valid()
      reads this
    {
      && ValidSetting(e) && Numbered(e, numbers, w) && AllDistinct(w)
      && BitsCover(e, w, bits) && Remembered(e, numbers, w, no)
    }

    /** runContextualTest on the tests of the rule. It does not change the window, but clears bits. */
    method RunTests(r: nat, c: nat) returns (good: bool)
      requires BitsCover(e, w, bits) && r < |e.rules| && c < |w|
      modifies this`bits
      ensures good == e.context(r, w, c) && BitsCover(e, w, bits)
    {
      var v, was := w, bits;
      good := e.context(r, v, c);
      bits := seq(|v|, d requires 0 <= d < |v| => Cleared(e, v[d], was[d], clears(r, v, c, d)));
      forall d, x, s: nat | 0 <= d < |v| && x in v[d].readings && e.matches(s, x) ensures s in bits[d] {
        assert s in Cleared(e, v[d], was[d], clears(r, v, c, d));
      }
    }

    /** The first loop over a cohort's readings: which of them are valid targets? */
    method Examine(r: nat, c: nat) returns (f: Findings)
      requires ValidSetting(e) && BitsCover(e, w, bits) && r < |e.rules| && c < |w|
      modifies this`bits
      ensures BitsCover(e, w, bits)
      ensures Found(e, r, w[c].readings, e.context(r, w, c), f)
    {
      var rule, rs := e.rules[r], w[c].readings;
      ghost var good, hits := e.context(r, w, c), Hits(e, r);
      var plain: map<int, (bool, bool)> := map[];
      var didTest, testGood := false, false;
      f := Findings([], [], 0, 0, if rule.kind == Iff then Remove else rule.kind);
      for i := 0 to |rs|
        invariant BitsCover(e, w, bits) && (didTest ==> testGood == good)
        invariant PlainResults(e, r, rs[..i], good, plain)
        invariant Found(e, r, rs[..i], good, f)
      {
        var x := rs[i];
        ghost var before := f;
        PlainStep(e, r, rs, i, good, plain);
        if !rule.special && x.plain in plain {
          var (target, tests) := plain[x.plain];
          f := Note(e, r, f, target, tests, false);
          FoundStep(e, r, rs, i, good, before, false);
        } else if e.matches(rule.target, x) {
          if !didTest {
            testGood := RunTests(r, c);
            didTest := !rule.special;
          }
          f := Note(e, r, f, true, testGood, true);
          plain := plain[x.plain := (true, testGood)];
          FoundStep(e, r, rs, i, good, before, true);
        } else {
          f := Note(e, r, f, false, false, true);
          plain := plain[x.plain := (false, false)];
          FoundStep(e, r, rs, i, good, before, true);
        }
      }
      assert rs[..|rs|] == rs;
    }

    /**
     One rule on one cohort of its index: kind0 is what the rule was last taken for, prune says that the
     cohort is to leave the index, did that the window has changed.
     */
    method TryCohort(r: nat, c: nat, kind0: Kind) returns (kind: Kind, prune: bool, did: bool, ghost through: bool)
      requires Valid() && Pruned(e, w, index) && r < |e.rules| && 0 < c < |w| && e.fits(r, c)
      modifies this`w, this`bits, this`no
      ensures Valid() && Pruned(e, w, index)
      ensures (w, kind) == Carry(e, r, old(w), c, kind0, through)
      ensures !through ==> Apply(e, r, old(w), c) == old(w)
      ensures !Idle(e, r, old(w), c) && Key(r, numbers[c]) !in old(no) ==> through
      ensures no <= old(no) + {Key(r, numbers[c])}
      ensures prune ==> Idle(e, r, w, c)
      ensures did <==> w != old(w)
    {
      var rule, rs := e.rules[r], w[c].readings;
      kind, prune, did := kind0, false, false;
      if rs == [] || rule.target !in bits[c] {
        NothingToDo(e, r, w, c);
        return kind0, false, false, false;
      }
      if |rs| == 1 && (kind == Select || rule.safe) {
        return kind0, false, false, true;
      }
      if Key(r, numbers[c]) in no {
        return kind0, false, false, false;
      }
      kind, prune, did := Attempt(r, c);
      through := true;
    }

    method Attempt(r: nat, c: nat) returns (kind: Kind, prune: bool, did: bool)
      requires Valid() && Pruned(e, w, index) && r < |e.rules| && 0 < c < |w| && e.fits(r, c)
      modifies this`w, this`bits, this`no
      ensures Valid() && Pruned(e, w, index)
      ensures w == Apply(e, r, old(w), c) && kind == KindAfter(e, r, old(w), c)
      ensures no <= old(no) + {Key(r, numbers[c])}
      ensures prune ==> Idle(e, r, w, c)
      ensures did <==> w != old(w)
    {
      var rule, rs := e.rules[r], w[c].readings;
      kind, prune, did := rule.kind, false, false;
      var key := Key(r, numbers[c]);
      no := no + {key};
      ghost var good := e.context(r, w, c);
      var f := Examine(r, c);
      kind := f.kind;
      if f.active == 0 && (f.iff == 0 || rule.kind != Iff) {
        Useless(e, numbers, w, old(no), r, c, rs, good);
        return kind, f.iff == 0, false;
      }
      if f.active == |rs| && (kind == Select || rule.safe) {
        Useless(e, numbers, w, old(no), r, c, rs, good);
        return;
      }
      NotUseless(e, r, w, c, f, good);
      did := Perform(r, c, f, good);
    }

    /** Acts on what was found, and forgets what was remembered. */
    method Perform(r: nat, c: nat, f: Findings, ghost good: bool) returns (did: bool)
      requires ValidSetting(e) && Numbered(e, numbers, w) && AllDistinct(w) && BitsCover(e, w, bits)
      requires Pruned(e, w, index) && r < |e.rules| && c < |w|
      requires good == e.context(r, w, c) && Found(e, r, w[c].readings, good, f)
      requires e.fits(r, c) && Those(w[c].readings, Hits(e, r)) != [] && (e.rules[r].kind != Iff ==> good)
      requires f.kind == Select ==> Those(w[c].readings, Not(Hits(e, r))) != []
      modifies this`w, this`no
      ensures Valid() && Pruned(e, w, index)
      ensures w == Apply(e, r, old(w), c) && no == {}
      ensures did <==> w != old(w)
    {
      var touched;
      var cohort := w[c];
      AppliedInvariants(e, w, index, bits, r, c);
      cohort, touched := ActOn(e, r, cohort, f, good);
      if touched {
        no := {};
      }
      did := |cohort.readings| != |w[c].readings|;
      w := w[c := cohort];
    }

    /** The cohort at position p of the rule's index, and the position of the next one. */
    method TryAt(r: nat, p: nat, kind0: Kind, ghost done: nat)
        returns (next: nat, kind: Kind, did: bool, ghost through: bool)
      requires Valid() && Indexed() && r < |e.rules|
      requires p < |index[r]| && 0 < index[r][p] && Between(index[r], p, done)
      modifies this`w, this`bits, this`no, this`index
      ensures Valid() && Indexed()
      ensures var c := old(index)[r][p];
              && c < |old(w)| && (w, kind) == Carry(e, r, old(w), c, kind0, through)
              && (!through ==> Apply(e, r, old(w), c) == old(w))
              && (!Idle(e, r, old(w), c) && Key(r, numbers[c]) !in old(no) ==> through)
              && no <= old(no) + {Key(r, numbers[c])}
              && next <= |index[r]| && Between(index[r], next, c + 1)
      ensures if did then Total(w) < Total(old(w)) else w == old(w)
      ensures |index[r]| - next < |old(index)[r]| - p
    {
      var c := index[r][p];
      ghost var v := w;
      var prune;
      kind, prune, did, through := TryCohort(r, c, kind0);
      CarryFalls(e, r, v, c, kind0, through);
      if prune {
        Prune(r, p);
        next := p;
      } else {
        next := p + 1;
      }
    }

    method Prune(r: nat, p: nat)
      requires Valid() && Indexed() && r < |e.rules| && p < |index[r]| && Idle(e, r, w, index[r][p])
      modifies this`index
      ensures Valid() && Indexed() && |index[r]| == |old(index)[r]| - 1 && Between(index[r], p, old(index)[r][p] + 1)
    {
      PrunePosition(e, w, index, r, p);
      index := index[r := index[r][..p] + index[r][p + 1..]];
    }

    /** The same, with what the loop below has reached. v and before are from when the loop began. */
    method TryReached(r: nat, p: nat, kind0: Kind, ghost v: Window, ghost before: set<int>, ghost done: nat,
                      ghost through: set<nat>)
        returns (next: nat, kind: Kind, did: bool, ghost through': set<nat>)
      requires Valid() && Indexed() && r < |e.rules|
      requires p < |index[r]| && 0 < index[r][p] && Between(index[r], p, done)
      requires index[r][p] < |v| == |w| && w[index[r][p]] == v[index[r][p]]
      requires Reached(e, numbers, r, v, w, kind0, before, no, index[r][p], through)
      modifies this`w, this`bits, this`no, this`index
      ensures Valid() && Indexed() && next <= |index[r]| && Between(index[r], next, old(index)[r][p] + 1)
      ensures Reached(e, numbers, r, v, w, kind, before, no, old(index)[r][p] + 1, through')
      ensures if did then Total(w) < Total(old(w)) else w == old(w)
      ensures |index[r]| - next < |old(index)[r]| - p
    {
      ghost var c, was, noWas, let := index[r][p], w, no, false;
      next, kind, did, let := TryAt(r, p, kind0, done);
      through' := if let then through + {c} else through;
      StepGrows(e, numbers, r, v, was, kind0, before, noWas, c, through, w, kind, no, let);
    }

    /** One step of the loop below. */
    method StepRule(r: nat, p: nat, kind0: Kind, ghost v: Window, ghost before: set<int>, ghost done: nat,
                    ghost through: set<nat>)
        returns (next: nat, kind: Kind, did: bool, ghost done': nat, ghost through': set<nat>)
      requires Valid() && Indexed() && r < |e.rules|
      requires p < |index[r]| && Between(index[r], p, done)
      requires Reached(e, numbers, r, v, w, kind0, before, no, done, through)
      modifies this`w, this`bits, this`no, this`index
      ensures Valid() && Indexed() && next <= |index[r]| && Between(index[r], next, done')
      ensures Reached(e, numbers, r, v, w, kind, before, no, done', through')
      ensures if did then Total(w) < Total(old(w)) else w == old(w)
      ensures |index[r]| - next < |old(index)[r]| - p
    {
      if index[r][p] == 0 {
        return p + 1, kind0, false, done, through;
      }
      NextReached(e, numbers, r, v, w, kind0, before, no, index, p, done, through);
      done' := index[r][p] + 1;
      next, kind, did, through' := TryReached(r, p, kind0, v, before, done, through);
    }

    /**
     One rule over the cohorts in its index. Whatever the rule, the window becomes what the plain loop makes
     of it if and only if no lone reading is missed; and what is neither idle nor remembered gets through.
     */
    method RunRule(r: nat) returns (did: bool, ghost through: set<nat>)
      requires Valid() && Indexed() && r < |e.rules|
      modifies this`w, this`bits, this`no, this`index
      ensures Valid() && Indexed() && |w| == |old(w)|
      ensures w == Carried(e, r, old(w), |w|, through).0 && Harmless(e, r, old(w), |w|, through)
      ensures w == NaiveRule(e, r, old(w), |w|) <==> NoneMissed(e, r, old(w), |w|, through)
      ensures !Trap(e, r, old(w), through) ==> w == NaiveRule(e, r, old(w), |w|)
      ensures AllThrough(e, r, old(w), numbers, old(no), |w|, through)
      ensures if did then Total(w) < Total(old(w)) else w == old(w)
    {
      ghost var v, before := w, no;
      var kind := e.rules[r].kind;
      did := false;
      through := {};
      var p: nat := 0;
      ghost var done: nat := 1;
      while p < |index[r]|
        invariant Valid() && Indexed() && p <= |index[r]| && Between(index[r], p, done)
        invariant Reached(e, numbers, r, v, w, kind, before, no, done, through)
        invariant if did then Total(w) < Total(v) else w == v
        decreases |index[r]| - p
      {
        var changed;
        p, kind, changed, done, through := StepRule(r, p, kind, v, before, done, through);
        did := did || changed;
      }
      ProgressReaches(e, numbers, r, v, w, kind, before, index, p, done, through);
      CarriedIsNaive(e, r, v, |w|, through);
      if !Trap(e, r, v, through) { NoTrapNoMiss(e, r, v, through); }
    }

    /**
     runRulesOnSingleWindow: the rules of a section that are valid here, in order. Rule by rule the window
     is what the plain loops make of it if and only if no rule misses a lone reading.
     */
    method RunRules(rules: seq<nat>) returns (did: bool, ghost through: seq<set<nat>>)
      requires Valid() && Indexed() && RulesExist(e, rules)
      modifies this`w, this`bits, this`no, this`index
      ensures Valid() && Indexed() && |through| == |rules|
      ensures w == CarriedRules(e, rules, old(w), through, |rules|) && HarmlessUpTo(e, rules, old(w), through, |rules|)
      ensures StepsAreNaive(e, rules, old(w), through) <==> NoRuleMisses(e, rules, old(w), through)
      ensures IffIsSafe(e, rules) ==> w == Naive(e, rules, old(w))
      ensures AllMove(old(w), w, NoneDelayed(e, rules), AllDelayed(e, rules))
      ensures if did then Total(w) < Total(old(w)) else w == old(w)
    {
      ghost var v := w;
      did, through := false, [];
      for i := 0 to |rules|
        invariant Valid() && Indexed() && |through| == i
        invariant w == CarriedRules(e, rules, v, through, i) && HarmlessUpTo(e, rules, v, through, i)
        invariant if did then Total(w) < Total(v) else w == v
      {
        ghost var let: set<nat> := {};
        ghost var was := w;
        if rules[i] in valid {
          var changed;
          changed, let := RunRule(rules[i]);
          did := did || changed;
        } else {
          assert index[rules[i]] == [];
          NotListed(e, rules[i], w, index);
        }
        OneMoreRule(e, rules, v, through, let, was, w);
        through := through + [let];
      }
      StepsAreNaiveIff(e, rules, v, through);
      SafeRulesMissNothing(e, rules, v, through);
      RunMoves(e, rules, v, through, |rules|);
    }

    /** updateRuleToCohorts */
    method UpdateRuleToCohorts(r: nat, c: nat, ghost seen: set<nat>)
      requires r < |e.rules| && IndexedUpTo(e, index, valid, bits, c, seen) && c < |bits| &&
               e.rules[r].target in bits[c]
      modifies this`index, this`valid
      ensures IndexedUpTo(e, index, valid, bits, c, seen + {r})
    {
      if !e.fits(r, c) {
        return;
      }
      var cs := index[r];
      if cs != [] { assert cs[|cs| - 1] in cs; }
      if cs == [] || cs[|cs| - 1] != c {
        assert forall i :: 0 <= i < |cs| ==> cs[i] in cs && cs[i] < c;
        index := index[r := cs + [c]];
      }
      valid := valid + {r};
    }

    /** indexSingleWindow: every cohort under the rules whose target set has its bit there. */
    method IndexWindow()
      requires ValidSetting(e) && Numbered(e, numbers, w) && BitsCover(e, w, bits) && BySet(e, rulesBySet)
      modifies this`index, this`valid
      ensures Indexed()
    {
      index, valid := seq(|e.rules|, _ => []), {};
      for c := 0 to |w|
        invariant IndexedUpTo(e, index, valid, bits, c, {})
      {
        ghost var seen: set<nat> := {};
        for s := 0 to |rulesBySet|
          invariant IndexedUpTo(e, index, valid, bits, c, seen)
          invariant forall r: nat :: r < |e.rules| && e.rules[r].target < s && e.rules[r].target in bits[c] ==>
                      r in seen
        {
          if s in bits[c] {
            for k := 0 to |rulesBySet[s]|
              invariant IndexedUpTo(e, index, valid, bits, c, seen)
              invariant forall r: nat :: r < |e.rules| && e.rules[r].target < s && e.rules[r].target in bits[c] ==>
                          r in seen
              invariant forall i :: 0 <= i < k ==> rulesBySet[s][i] in seen
            {
              var r := rulesBySet[s][k];
              UpdateRuleToCohorts(r, c, seen);
              seen := seen + {r};
            }
          }
        }
      }
      forall r: nat, c: nat | r < |index| && c < |w| && c !in index[r] ensures Idle(e, r, w, c) {
        assert !Wanted(e, bits, r, c);
      }
      forall r: nat, i: nat | r < |index| && i < |index[r]| ensures index[r][i] < |w| && e.fits(r, index[r][i]) {
        assert index[r][i] in index[r];
      }
    }
  }

  /** rules_by_set */
  ghost predicate BySet(e: Setting, rulesBySet: seq<seq<nat>>) {
    && (forall s, i :: 0 <= s < |rulesBySet| && 0 <= i < |rulesBySet[s]| ==>
          rulesBySet[s][i] < |e.rules| && e.rules[rulesBySet[s][i]].target == s)
    && (forall r: nat :: r < |e.rules| ==> e.rules[r].target < |rulesBySet| && r in rulesBySet[e.rules[r].target])
  }

  ghost predicate Listed(index: seq<seq<nat>>, valid: set<nat>) {
    forall r: nat :: r < |index| && index[r] != [] ==> r in valid
  }

  ghost predicate Wanted(e: Setting, bits: seq<set<nat>>, q: nat, d: nat)
    requires q < |e.rules|
  {
    d < |bits| && e.rules[q].target in bits[d] && e.fits(q, d)
  }

  /** Cohorts before c are indexed under all rules that want them, and c under the rules seen. */
  ghost predicate IndexedUpTo(e: Setting, index: seq<seq<nat>>, valid: set<nat>, bits: seq<set<nat>>, c: nat,
                              seen: set<nat>) {
    && |index| == |e.rules| && c <= |bits| && Listed(index, valid)
    && (forall q: nat :: q < |index| ==> Ascending(index[q]))
    && (forall q: nat, d: nat :: q < |index| ==>
          (d in index[q] <==> (d < c || (d == c && q in seen)) && Wanted(e, bits, q, d)))
  }

  /** The window w and the kind are what comes of v after the cohorts before done. */
  ghost predicate Progress(e: Setting, r: nat, v: Window, w: Window, kind: Kind, done: nat, through: set<nat>)
    requires r < |e.rules|
  {
    && 0 < done <= |v| && (w, kind) == Carried(e, r, v, done, through) && Harmless(e, r, v, done, through)
    && forall c :: c in through ==> 0 < c < done
  }

  /** What is remembered of the rule and cohorts from done on was remembered before. */
  ghost predicate Recent(r: nat, numbers: seq<nat>, before: set<int>, no: set<int>, done: nat) {
    forall c: nat :: done <= c < |numbers| && Key(r, numbers[c]) in no ==> Key(r, numbers[c]) in before
  }

  /** The rule has business with cohort c, and nothing was remembered of them. */
  ghost predicate Due(e: Setting, r: nat, v: Window, numbers: seq<nat>, before: set<int>, c: nat)
    requires r < |e.rules|
  {
    c < |v| && c < |numbers| && !Idle(e, r, v, c) && Key(r, numbers[c]) !in before
  }

  ghost predicate AllThrough(e: Setting, r: nat, v: Window, numbers: seq<nat>, before: set<int>, done: nat,
                             through: set<nat>)
    requires r < |e.rules|
  {
    forall c: nat :: 0 < c < done && Due(e, r, v, numbers, before, c) ==> c in through
  }

  lemma AllThroughSkips(e: Setting, r: nat, v: Window, w: Window, numbers: seq<nat>, before: set<int>,
                        done: nat, k: nat, through: set<nat>)
    requires r < |e.rules| && done <= k <= |w| == |v| && AllThrough(e, r, v, numbers, before, done, through)
    requires forall d :: done <= d < k ==> Idle(e, r, w, d) && w[d] == v[d]
    ensures AllThrough(e, r, v, numbers, before, k, through)
  {
    forall c: nat | done <= c < k ensures Idle(e, r, v, c) {
      assert Idle(e, r, w, c) && w[c] == v[c];
    }
  }

  /** Nothing happens on the way from done to the next indexed cohort. */
  lemma ProgressReaches(e: Setting, numbers: seq<nat>, r: nat, v: Window, w: Window, kind: Kind, before: set<int>,
                        index: seq<seq<nat>>, p: nat, done: nat, through: set<nat>)
    requires Pruned(e, w, index) && r < |e.rules| && p <= |index[r]| && Between(index[r], p, done)
    requires p < |index[r]| ==> 0 < index[r][p]
    requires |v| == |w| && Progress(e, r, v, w, kind, done, through)
    requires AllThrough(e, r, v, numbers, before, done, through)
    ensures var c := if p < |index[r]| then index[r][p] else |w|;
            && done <= c <= |w| && (c < |w| ==> w[c] == v[c]) && Progress(e, r, v, w, kind, c, through)
            && AllThrough(e, r, v, numbers, before, c, through)
  {
    var c := if p < |index[r]| then index[r][p] else |w|;
    NotIndexed(e, w, index, r, p, done);
    ProgressSkips(e, r, v, w, kind, done, c, through);
    AllThroughSkips(e, r, v, w, numbers, before, done, c, through);
  }

  lemma ProgressSkips(e: Setting, r: nat, v: Window, w: Window, kind: Kind, done: nat, k: nat, through: set<nat>)
    requires r < |e.rules| && done <= k <= |w| == |v| && Progress(e, r, v, w, kind, done, through)
    requires forall d :: done <= d < k ==> Idle(e, r, w, d)
    ensures Progress(e, r, v, w, kind, k, through) && forall d :: done <= d < |w| ==> w[d] == v[d]
  {
    CarriedSkips(e, r, v, done, k, through);
    forall c: nat | done <= c < k
      ensures Apply(e, r, Carried(e, r, v, c, through).0, c) == Carried(e, r, v, c, through).0
    {
      CarriedSkips(e, r, v, done, c, through);
      IdleApplies(e, r, w, c);
    }
  }

  lemma ProgressGrows(e: Setting, r: nat, v: Window, w: Window, kind: Kind, c: nat, through: set<nat>,
                      w': Window, kind': Kind, let: bool)
    requires r < |e.rules| && c < |v| == |w| && Progress(e, r, v, w, kind, c, through)
    requires (w', kind') == Carry(e, r, w, c, kind, let) && (!let ==> Apply(e, r, w, c) == w)
    ensures Progress(e, r, v, w', kind', c + 1, if let then through + {c} else through)
  {
    var through' := if let then through + {c} else through;
    CarriedAgree(e, r, v, c, through, through');
    forall d: nat | 0 < d < c + 1 ensures HarmlessIn(e, r, v, d, through') {
      CarriedAgree(e, r, v, d, through, through');
      assert d < c ==> HarmlessIn(e, r, v, d, through);
    }
  }

  /** The loop has dealt with the cohorts before done. */
  ghost predicate Reached(e: Setting, numbers: seq<nat>, r: nat, v: Window, w: Window, kind: Kind, before: set<int>,
                          no: set<int>, done: nat, through: set<nat>)
    requires r < |e.rules|
  {
    && |v| == |w| && Progress(e, r, v, w, kind, done, through)
    && Recent(r, numbers, before, no, done) && AllThrough(e, r, v, numbers, before, done, through)
  }

  lemma NextReached(e: Setting, numbers: seq<nat>, r: nat, v: Window, w: Window, kind: Kind, before: set<int>,
                    no: set<int>, index: seq<seq<nat>>, p: nat, done: nat, through: set<nat>)
    requires Pruned(e, w, index) && r < |e.rules| && p < |index[r]| && Between(index[r], p, done) && 0 < index[r][p]
    requires Reached(e, numbers, r, v, w, kind, before, no, done, through)
    ensures var c := index[r][p];
            done <= c < |w| && w[c] == v[c] && Reached(e, numbers, r, v, w, kind, before, no, c, through)
  {
    ProgressReaches(e, numbers, r, v, w, kind, before, index, p, done, through);
  }

  lemma RecentGrows(e: Setting, numbers: seq<nat>, w: Window, r: nat, before: set<int>, no: set<int>, no': set<int>,
                    c: nat)
    requires Numbered(e, numbers, w) && r < |e.rules| && 0 < c < |w| && Recent(r, numbers, before, no, c)
    requires no' <= no + {Key(r, numbers[c])}
    ensures Recent(r, numbers, before, no', c + 1)
  {
    forall d: nat | c < d < |numbers| ensures Key(r, numbers[d]) != Key(r, numbers[c]) {
      KeysDiffer(e, numbers, w, r, c, r, d);
    }
  }

  /** What TryAt says of cohort c carries the loop from c to c + 1. */
  lemma StepGrows(e: Setting, numbers: seq<nat>, r: nat, v: Window, w: Window, kind: Kind, before: set<int>,
                  no: set<int>, c: nat, through: set<nat>, w': Window, kind': Kind, no': set<int>, let: bool)
    requires Numbered(e, numbers, w) && r < |e.rules| && 0 < c < |w| == |v| && w[c] == v[c]
    requires Reached(e, numbers, r, v, w, kind, before, no, c, through)
    requires (w', kind') == Carry(e, r, w, c, kind, let) && (!let ==> Apply(e, r, w, c) == w)
    requires !Idle(e, r, w, c) && Key(r, numbers[c]) !in no ==> let
    requires no' <= no + {Key(r, numbers[c])}
    ensures Reached(e, numbers, r, v, w', kind', before, no', c + 1, if let then through + {c} else through)
  {
    ProgressGrows(e, r, v, w, kind, c, through, w', kind', let);
    RecentGrows(e, numbers, w, r, before, no, no', c);
    assert Idle(e, r, w, c) <==> Idle(e, r, v, c);
  }

  /** A rule that is not valid in the window has business with no cohort. */
  lemma NotListed(e: Setting, r: nat, w: Window, index: seq<seq<nat>>)
    requires Pruned(e, w, index) && r < |e.rules| && index[r] == [] && 0 < |w|
    ensures Carried(e, r, w, |w|, {}).0 == w && Harmless(e, r, w, |w|, {})
  {
    CarriedSkips(e, r, w, 1, |w|, {});
    IdleIsHarmless(e, r, w, {});
  }

  /** The positions before p are of cohorts before done; the others are not, but for the begin marker. */
  ghost predicate Between(cs: seq<nat>, p: nat, done: nat) {
    && (forall i :: 0 <= i < p && i < |cs| ==> cs[i] < done)
    && (forall i :: p <= i < |cs| ==> done <= cs[i] || cs[i] == 0)
  }

  lemma NotIndexed(e: Setting, w: Window, index: seq<seq<nat>>, r: nat, p: nat, done: nat)
    requires Pruned(e, w, index) && r < |e.rules| && p <= |index[r]| && Between(index[r], p, done) && 0 < done
    requires p < |index[r]| ==> 0 < index[r][p]
    ensures forall d :: done <= d < (if p < |index[r]| then index[r][p] else |w|) ==> Idle(e, r, w, d)
  {
    var cs := index[r];
    forall d | done <= d < (if p < |cs| then cs[p] else |w|) ensures Idle(e, r, w, d) {
      forall i | 0 <= i < |cs| ensures cs[i] != d {
        if i > p { assert cs[p] < cs[i]; }
      }
      assert d !in cs;
    }
  }

  /** An idle cohort may leave the index. */
  lemma PrunePosition(e: Setting, w: Window, index: seq<seq<nat>>, r: nat, p: nat)
    requires Pruned(e, w, index) && r < |e.rules| && p < |index[r]| && Idle(e, r, w, index[r][p])
    ensures var cs := index[r][..p] + index[r][p + 1..];
            Pruned(e, w, index[r := cs]) && Between(cs, p, index[r][p] + 1)
  {
    var was := index[r];
    var cs := was[..p] + was[p + 1..];
    assert forall i :: 0 <= i < |cs| ==> cs[i] == if i < p then was[i] else was[i + 1];
    forall c: nat | c < |w| && c !in cs ensures Idle(e, r, w, c) {
      if c != was[p] {
        forall i | 0 <= i < |was| ensures was[i] != c {
          if i < p { assert cs[i] in cs; }
          if i > p { assert cs[i - 1] in cs; }
        }
        assert c !in was;
      }
    }
  }

  lemma AppliedInvariants(e: Setting, w: Window, index: seq<seq<nat>>, bits: seq<set<nat>>, r: nat, c: nat)
    requires AllDistinct(w) && Pruned(e, w, index) && BitsCover(e, w, bits) && r < |e.rules| && c < |w|
    ensures var w' := Apply(e, r, w, c);
            && AllDistinct(w') && Pruned(e, w', index) && BitsCover(e, w', bits)
            && (w' != w <==> |w'[c].readings| != |w[c].readings|)
  {
    ApplyFewer(e, r, w, c);
    ApplyKeeps(e, r, w, c);
    FewerKeepsIndexes(e, w, Apply(e, r, w, c), index, bits);
  }

  lemma NotUseless(e: Setting, r: nat, w: Window, c: nat, f: Findings, good: bool)
    requires r < |e.rules| && c < |w| && Found(e, r, w[c].readings, good, f)
    requires !(f.active == 0 && (f.iff == 0 || e.rules[r].kind != Iff))
    requires !(f.active == |w[c].readings| && (f.kind == Select || e.rules[r].safe))
    ensures Those(w[c].readings, Hits(e, r)) != [] && (e.rules[r].kind != Iff ==> good)
    ensures f.kind == Select ==> Those(w[c].readings, Not(Hits(e, r))) != []
  {
    ThoseCount(w[c].readings, Hits(e, r));
  }

  /** When no reading is a valid target, or all are and the rule would not touch them, remembering that is right. */
  lemma Useless(e: Setting, numbers: seq<nat>, w: Window, no: set<int>, r: nat, c: nat, rs: seq<Reading>, good: bool)
    requires Numbered(e, numbers, w) && Remembered(e, numbers, w, no) && r < |e.rules| && 0 < c < |w|
    requires rs == w[c].readings && good == e.context(r, w, c)
    requires var n := |Those(rs, Hits(e, r))|;
             || n == 0 || (!good && e.rules[r].kind != Iff)
             || (n == |rs| && good && (e.rules[r].kind != Remove || e.rules[r].safe))
    ensures Apply(e, r, w, c) == w && Remembered(e, numbers, w, no + {Key(r, numbers[c])})
    ensures Those(rs, Hits(e, r)) == [] ==> Idle(e, r, w, c)
  {
    NoneOfThose(rs, Hits(e, r));
    UselessApplies(e, r, w, c);
    Remember(e, numbers, w, no, r, c);
  }

  lemma UselessApplies(e: Setting, r: nat, w: Window, c: nat)
    requires r < |e.rules| && c < |w|
    requires var n, good := |Those(w[c].readings, Hits(e, r))|, e.context(r, w, c);
             || n == 0 || (!good && e.rules[r].kind != Iff)
             || (n == |w[c].readings| && good && (e.rules[r].kind != Remove || e.rules[r].safe))
    ensures Apply(e, r, w, c) == w
  {
    ThoseCount(w[c].readings, Hits(e, r));
    assert w[c := w[c]] == w;
  }

  // ---- a lone reading that is missed ----

  const X := Reading(1, 1)
  const Y := Reading(2, 2)
  const Z := Reading(3, 1)

  /** One unsafe IFF rule for readings with plain tags 1, with tests that only hold for cohort 1. */
  const UNSAFE_IFF := Setting([Rule(Iff, 0, false, false, false)], (s: nat, x: Reading) => s == 0 && x.plain == 1,
                              (r, w, c) => c == 1, (r, c) => true)

  /** X and Y in cohort 1, Z in cohort 2. */
  const XYZ: Window := [Cohort([], [], []), Cohort([X, Y], [], []), Cohort([Z], [], [])]
  const X_AND_Z: Window := [Cohort([], [], []), Cohort([X], [Y], []), Cohort([Z], [], [])]
  const ONLY_X: Window := [Cohort([], [], []), Cohort([X], [Y], []), Cohort([], [Z], [])]

  lemma CohortOne(w: Window)
    requires |w| == 3 && w[1] == XYZ[1]
    ensures Apply(UNSAFE_IFF, 0, w, 1)[1] == X_AND_Z[1] && KindAfter(UNSAFE_IFF, 0, w, 1) == Select
  {
    var p := Hits(UNSAFE_IFF, 0);
    assert p(X) && !p(Y);
    assert [X, Y][..1] == [X] && [X][..0] == [];
    assert Those([X], p) == [X] && Those([X], Not(p)) == [];
    assert Those([X, Y], p) == [X] && Those([X, Y], Not(p)) == [Y];
  }

  lemma CohortTwo(w: Window)
    requires |w| == 3 && w[2] == XYZ[2]
    ensures Apply(UNSAFE_IFF, 0, w, 2)[2] == ONLY_X[2]
  {
    var p := Hits(UNSAFE_IFF, 0);
    assert p(Z);
    assert [Z][..0] == [];
    assert Those([Z], p) == [Z] && Those([Z], Not(p)) == [];
    assert SwapOutAll([Z], [Z]) == SwapOutAll(SwapOut([Z], Z), []);
  }

  lemma CarriedXYZ(through: set<nat>)
    requires 1 in through && 2 in through
    ensures Carried(UNSAFE_IFF, 0, XYZ, 3, through).0 == X_AND_Z && NaiveRule(UNSAFE_IFF, 0, XYZ, 3) == ONLY_X
  {
    CohortOne(XYZ);
    var v := Apply(UNSAFE_IFF, 0, XYZ, 1);
    assert v[0] == X_AND_Z[0] && v[2] == X_AND_Z[2];
    assert v == X_AND_Z;
    assert Carried(UNSAFE_IFF, 0, XYZ, 1, through) == (XYZ, Iff) && NaiveRule(UNSAFE_IFF, 0, XYZ, 1) == XYZ;
    assert Carried(UNSAFE_IFF, 0, XYZ, 2, through) == (X_AND_Z, Select) && NaiveRule(UNSAFE_IFF, 0, XYZ, 2) == X_AND_Z;
    CohortTwo(X_AND_Z);
    var u := Apply(UNSAFE_IFF, 0, X_AND_Z, 2);
    assert u[0] == ONLY_X[0] && u[1] == ONLY_X[1];
    assert u == ONLY_X;
  }

  lemma DueXYZ(numbers: seq<nat>)
    requires |numbers| == 3
    ensures Due(UNSAFE_IFF, 0, XYZ, numbers, {}, 1) && Due(UNSAFE_IFF, 0, XYZ, numbers, {}, 2)
  {
    assert X in XYZ[1].readings && Z in XYZ[2].readings && Hits(UNSAFE_IFF, 0)(X) && Hits(UNSAFE_IFF, 0)(Z);
  }

  method NewXYZ() returns (a: Runner)
    ensures fresh(a) && a.e == UNSAFE_IFF && a.w == XYZ && a.no == {} && a.Valid() && a.Indexed()
  {
    var numbers: seq<nat> := [0, 1, 2];
    FirstWindowIsNumbered(UNSAFE_IFF, numbers, XYZ);
    a := new Runner(UNSAFE_IFF, numbers, [[0]], (r, w, c, d) => {}, XYZ, [{0}, {0}, {0}]);
  }

  /**
   In cohort 1 the rule becomes a SELECT and removes Y. In cohort 2 its tests fail, so that it should remove Z,
   but it is still taken for a SELECT, which has nothing to do with a lone reading.
   */
  method MissLoneReading() returns (a: Runner)
    ensures a.e == UNSAFE_IFF && a.w == X_AND_Z && NaiveRule(a.e, 0, XYZ, |XYZ|) == ONLY_X
  {
    a := NewXYZ();
    DueXYZ(a.numbers);
    var did;
    ghost var through;
    did, through := a.RunRule(0);
    CarriedXYZ(through);
  }

  function Cleared(e: Setting, c: Cohort, bits: set<nat>, sets: set<nat>): set<nat> {
    set s | s in bits && (s in sets ==> exists x :: x in c.readings && e.matches(s, x))
  }
}
