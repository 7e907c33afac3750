/**
 The rewrites Grammar::addSet makes before it stores a set: an OR of single tag lists becomes one
 LIST, and a LIST with failfast tags becomes Positive - Negative.
 */
module SetRewrites {
  import opened TagTries
  import opened SetOperators
  import opened SetMatching
  import opened SetFlags

  const EMPTY_DEF := SetDef(false, false, [], Nil, Nil, [], [])

  /** trie[tag].terminal = true, which keeps whatever already hangs below tag. */
  function SetTerminal(t: Trie, tag: int): Trie {
    if t.Nil? || tag < t.tag then Entry(tag, true, Nil, t)
    else if tag == t.tag then t.(terminal := true)
    else t.(next := SetTerminal(t.next, tag))
  }

  /** ff_tags is a set: a tag already there is not added again. */
  function WithTag(ff: seq<int>, tag: int): seq<int> {
    if tag in ff then ff else ff + [tag]
  }

  /** addTagToSet */
  function AddTagToSet(tt: TagTable, d: SetDef, tag: int): SetDef {
    var d := if tag in tt.any then d.(any := true) else d;
    var d := if tag in tt.failfast then d.(ff := WithTag(d.ff, tag)) else d;
    if tag in tt.special then d.(special := true, trieSpecial := SetTerminal(d.trieSpecial, tag))
    else d.(trie := SetTerminal(d.trie, tag))
  }

  predicate AnySpecial(tt: TagTable, tv: seq<int>) {
    tv != [] && (tv[0] in tt.special || AnySpecial(tt, tv[1..]))
  }

  /** What addSet does with the tag list of one alternative. */
  function AddList(tt: TagTable, d: SetDef, tv: seq<int>): SetDef
    requires tv != []
  {
    if |tv| == 1 then AddTagToSet(tt, d, tv[0])
    else if AnySpecial(tt, tv) then d.(trieSpecial := Insert(d.trieSpecial, tv).0)
    else d.(trie := Insert(d.trie, tv).0)
  }

  /** getNonEmpty */
  function NonEmpty(d: SetDef): Trie {
    if d.trie.Entry? then d.trie else d.trieSpecial
  }

  /** A LIST of one tag list, as the all_tags test asks of every alternative. */
  predicate SingleList(d: SetDef) {
    d.sets == [] && !(d.trie.Entry? && d.trieSpecial.Entry?) && Singular(NonEmpty(d))
  }

  predicate Flattens(g: seq<SetDef>, d: SetDef) {
    && d.sets != []
    && (forall i :: 0 <= i < |d.ops| ==> d.ops[i] == Or)
    && (forall i :: 0 <= i < |d.sets| ==> d.sets[i] < |g| && SingleList(g[d.sets[i]]))
  }

  function AddLists(tt: TagTable, g: seq<SetDef>, d: SetDef, sets: seq<nat>): SetDef
    requires forall i :: 0 <= i < |sets| ==> sets[i] < |g| && SingleList(g[sets[i]])
  {
    if sets == [] then d
    else
      var n := |sets| - 1;
      assert SingleList(g[sets[n]]);
      AddList(tt, AddLists(tt, g, d, sets[..n]), TagList(NonEmpty(g[sets[n]])))
  }

  function Flattened(tt: TagTable, g: seq<SetDef>, d: SetDef): SetDef
    requires Flattens(g, d)
  {
    Reflag(tt, AddLists(tt, g, d, d.sets).(sets := [], ops := []))
  }

  /** Set::reindex of a LIST. */
  function Reflag(tt: TagTable, d: SetDef): SetDef {
    d.(special := HasSpecial(tt, d.trie) || HasSpecial(tt, d.trieSpecial))
  }

  predicate Splits(d: SetDef) {
    d.ff != [] && |d.ff| < Width(d.trie) + Width(d.trieSpecial)
  }

  /** Erase the entry for tag if its node is terminal, with all that is below it. */
  function EraseTerminal(t: Trie, tag: int): Trie {
    if t.Nil? then t
    else if t.tag == tag then (if t.terminal then t.next else t)
    else t.(next := EraseTerminal(t.next, tag))
  }

  function Positive(d: SetDef, ff: seq<int>): SetDef {
    if ff == [] then EMPTY_DEF.(trie := d.trie, trieSpecial := d.trieSpecial)
    else var p := Positive(d, ff[..|ff| - 1]); p.(trieSpecial := EraseTerminal(p.trieSpecial, ff[|ff| - 1]))
  }

  function Negative(tt: TagTable, ff: seq<int>): SetDef
    requires forall i :: 0 <= i < |ff| ==> ff[i] in tt.stripped
  {
    if ff == [] then EMPTY_DEF
    else AddTagToSet(tt, Negative(tt, ff[..|ff| - 1]), tt.stripped[ff[|ff| - 1]])
  }

  // ---- what the edits of a LIST mean ----

  /** The LIST part of a set, without its failfast tags. */
  predicate Holds(d: SetDef, hit: int -> bool) {
    TagTries.Matches(d.trie, hit) || TagTries.Matches(d.trieSpecial, hit)
  }

  lemma {:induction false} SetTerminalMatches(t: Trie, tag: int, hit: int -> bool)
    ensures TagTries.Matches(SetTerminal(t, tag), hit) <==> TagTries.Matches(t, hit) || hit(tag)
    decreases t
  {
    if t.Entry? && tag > t.tag { SetTerminalMatches(t.next, tag, hit); }
  }

  lemma {:induction false} SetTerminalKeeps(t: Trie, tag: int, p: int -> bool)
    requires Sorted(t)
    ensures Sorted(SetTerminal(t, tag)) && SetTerminal(t, tag).Entry?
    ensures SetTerminal(t, tag).tag == if t.Nil? || tag < t.tag then tag else t.tag
    ensures Every(t, p) && p(tag) ==> Every(SetTerminal(t, tag), p)
    decreases t
  {
    if t.Entry? && tag > t.tag { SetTerminalKeeps(t.next, tag, p); }
  }

  lemma {:induction false} EraseTerminalMatches(t: Trie, tag: int, hit: int -> bool)
    requires !hit(tag)
    ensures TagTries.Matches(EraseTerminal(t, tag), hit) <==> TagTries.Matches(t, hit)
    decreases t
  {
    if t.Entry? && t.tag != tag { EraseTerminalMatches(t.next, tag, hit); }
  }

  lemma {:induction false} EraseTerminalSorted(t: Trie, tag: int)
    requires Sorted(t)
    ensures Sorted(EraseTerminal(t, tag))
    ensures EraseTerminal(t, tag).Entry? ==> t.Entry? && t.tag <= EraseTerminal(t, tag).tag
    decreases t
  {
    if t.Entry? && t.tag != tag { EraseTerminalSorted(t.next, tag); }
  }

  /** Adding a tag list adds the readings with all its tags; a single failfast tag is also noted as such. */
  lemma AddListMeans(tt: TagTable, d: SetDef, tv: seq<int>, hit: int -> bool)
    requires tv != []
    ensures Holds(AddList(tt, d, tv), hit) <==> Holds(d, hit) || AllHit(tv, hit)
    ensures AddList(tt, d, tv).any <==> d.any || (|tv| == 1 && tv[0] in tt.any)
    ensures AddList(tt, d, tv).ff == if |tv| == 1 && tv[0] in tt.failfast then WithTag(d.ff, tv[0]) else d.ff
  {
    if |tv| == 1 {
      assert tv[1..] == [];
      SetTerminalMatches(d.trie, tv[0], hit);
      SetTerminalMatches(d.trieSpecial, tv[0], hit);
    } else {
      InsertMatches(d.trie, tv, hit);
      InsertMatches(d.trieSpecial, tv, hit);
    }
  }

  // ---- the grammar seen from a set that is added at its end ----

  lemma {:induction false} EarlierSetsUnchanged(tt: TagTable, g: seq<SetDef>, g': seq<SetDef>, env: Env, r: Reading,
                                                s: nat)
    requires ValidGrammar(tt, g) && ValidGrammar(tt, g') && s < |g| <= |g'| && g == g'[..|g|]
    ensures Match(tt, g', env, r, s) == Match(tt, g, env, r, s)
    decreases s
  {
    assert g'[s] == g[s] && ValidDef(tt, g[s], s);
    if !g[s].any && g[s].sets != [] {
      forall i | 0 <= i < |g[s].sets| ensures Values(tt, g', env, r, s)[i] == Values(tt, g, env, r, s)[i] {
        EarlierSetsUnchanged(tt, g, g', env, r, g[s].sets[i]);
      }
      assert Values(tt, g', env, r, s) == Values(tt, g, env, r, s);
    }
  }

  /** What set d means when it is added to g. */
  predicate Means(tt: TagTable, g: seq<SetDef>, d: SetDef, env: Env, r: Reading)
    requires ValidGrammar(tt, g) && ValidDef(tt, d, |g|)
  {
    Match(tt, g + [d], env, r, |g|)
  }

  lemma ExtendedGrammarIsValid(tt: TagTable, g: seq<SetDef>, d: SetDef)
    requires ValidGrammar(tt, g) && ValidDef(tt, d, |g|)
    ensures ValidGrammar(tt, g + [d])
  {
  }

  // ---- flattening ----

  /** A list without special tags goes into the one trie, any other into the other. */
  lemma AddListPlaces(tt: TagTable, d: SetDef, tv: seq<int>)
    requires tv != []
    ensures (forall i :: 0 <= i < |tv| ==> tv[i] !in tt.special) ==> AddList(tt, d, tv).trieSpecial == d.trieSpecial
    ensures (exists i :: 0 <= i < |tv| && tv[i] in tt.special) ==> AddList(tt, d, tv).trie == d.trie
  {
    AnySpecialIff(tt, tv);
  }

  lemma {:induction false} AnySpecialIff(tt: TagTable, tv: seq<int>)
    ensures AnySpecial(tt, tv) <==> exists i :: 0 <= i < |tv| && tv[i] in tt.special
    decreases |tv|
  {
    if tv != [] {
      AnySpecialIff(tt, tv[1..]);
      assert forall i :: 0 <= i < |tv| - 1 ==> tv[1..][i] == tv[i + 1];
      if i :| 1 <= i < |tv| && tv[i] in tt.special { assert tv[1..][i - 1] == tv[i]; }
    }
  }

  /** The tag list that flattening takes from alternative i. */
  function Taken(g: seq<SetDef>, sets: seq<nat>, i: nat): seq<int>
    requires i < |sets| && sets[i] < |g| && SingleList(g[sets[i]])
  {
    TagList(NonEmpty(g[sets[i]]))
  }

  predicate Takeable(g: seq<SetDef>, sets: seq<nat>) {
    forall i :: 0 <= i < |sets| ==> sets[i] < |g| && SingleList(g[sets[i]])
  }

  predicate SomeTakenHits(g: seq<SetDef>, sets: seq<nat>, hit: int -> bool)
    requires Takeable(g, sets)
  {
    exists i :: 0 <= i < |sets| && AllHit(Taken(g, sets, i), hit)
  }

  /** Alternative i is the single tag (*). */
  predicate IsAny(tt: TagTable, tv: seq<int>) {
    |tv| == 1 && tv[0] in tt.any
  }

  predicate IsFailfast(tt: TagTable, tv: seq<int>) {
    |tv| == 1 && tv[0] in tt.failfast
  }

  predicate SomeTakenIsAny(tt: TagTable, g: seq<SetDef>, sets: seq<nat>)
    requires Takeable(g, sets)
  {
    exists i :: 0 <= i < |sets| && IsAny(tt, Taken(g, sets, i))
  }

  /** Some alternative is a single failfast tag, and the reading has the tag it names. */
  predicate SomeTakenBlocks(tt: TagTable, env: Env, r: Reading, g: seq<SetDef>, sets: seq<nat>)
    requires Takeable(g, sets)
  {
    exists i :: 0 <= i < |sets| && IsFailfast(tt, Taken(g, sets, i)) && TagMatches(tt, env, r, Taken(g, sets, i)[0])
  }

  lemma {:induction false} AddListsMean(tt: TagTable, g: seq<SetDef>, d: SetDef, sets: seq<nat>, env: Env, r: Reading)
    requires Takeable(g, sets)
    ensures var f := AddLists(tt, g, d, sets);
            && (Holds(f, Hits(tt, env, r)) <==> Holds(d, Hits(tt, env, r)) || SomeTakenHits(g, sets, Hits(tt, env, r)))
            && (f.any <==> d.any || SomeTakenIsAny(tt, g, sets))
            && (SomeFailfast(tt, env, r, f.ff) <==>
                  SomeFailfast(tt, env, r, d.ff) || SomeTakenBlocks(tt, env, r, g, sets))
    decreases |sets|
  {
    if sets != [] {
      var n := |sets| - 1;
      var front := sets[..n];
      assert forall i :: 0 <= i < n ==> front[i] == sets[i];
      assert Takeable(g, front);
      AddListsMean(tt, g, d, front, env, r);
      var before := AddLists(tt, g, d, front);
      AddListMeans(tt, before, Taken(g, sets, n), Hits(tt, env, r));
      assert forall i :: 0 <= i < n ==> Taken(g, sets, i) == Taken(g, front, i);
      if IsFailfast(tt, Taken(g, sets, n)) {
        WithTagBlocks(tt, env, r, before.ff, Taken(g, sets, n)[0]);
      }
      TakenSplit(tt, env, r, g, sets);
    }
  }

  lemma WithTagBlocks(tt: TagTable, env: Env, r: Reading, ff: seq<int>, tag: int)
    ensures SomeFailfast(tt, env, r, WithTag(ff, tag)) <==> SomeFailfast(tt, env, r, ff) || TagMatches(tt, env, r, tag)
  {
    if tag in ff {
      var i :| 0 <= i < |ff| && ff[i] == tag;
      if TagMatches(tt, env, r, tag) { SomeFailfastGrows(tt, env, r, ff, i + 1); }
    } else {
      assert (ff + [tag])[..|ff|] == ff;
    }
  }

  lemma TakenSplit(tt: TagTable, env: Env, r: Reading, g: seq<SetDef>, sets: seq<nat>)
    requires Takeable(g, sets) && sets != []
    ensures var n := |sets| - 1; var front := sets[..n];
            && Takeable(g, front)
            && (SomeTakenHits(g, sets, Hits(tt, env, r)) <==>
                  SomeTakenHits(g, front, Hits(tt, env, r)) || AllHit(Taken(g, sets, n), Hits(tt, env, r)))
            && (SomeTakenIsAny(tt, g, sets) <==> SomeTakenIsAny(tt, g, front) || IsAny(tt, Taken(g, sets, n)))
            && (SomeTakenBlocks(tt, env, r, g, sets) <==>
                  || SomeTakenBlocks(tt, env, r, g, front)
                  || (IsFailfast(tt, Taken(g, sets, n)) && TagMatches(tt, env, r, Taken(g, sets, n)[0])))
  {
    var n := |sets| - 1;
    var front := sets[..n];
    assert forall i :: 0 <= i < n ==> front[i] == sets[i];
    assert forall i :: 0 <= i < n ==> Taken(g, sets, i) == Taken(g, front, i);
  }

  /** The one tag list of alternative i: the tags down to the terminal node. */
  function PathOf(g: seq<SetDef>, sets: seq<nat>, i: nat): seq<int>
    requires i < |sets| && sets[i] < |g| && SingleList(g[sets[i]])
  {
    TerminalPath(NonEmpty(g[sets[i]]))
  }

  /** A LIST of one tag list as addTagToSet and trie_insert leave it. */
  predicate AsBuilt(tt: TagTable, d: SetDef)
    requires SingleList(d)
  {
    var tv := TerminalPath(NonEmpty(d));
    (d.any <==> IsAny(tt, tv)) && d.ff == if IsFailfast(tt, tv) then [tv[0]] else []
  }

  ghost predicate SomePathHits(g: seq<SetDef>, sets: seq<nat>, hit: int -> bool)
    requires Takeable(g, sets)
  {
    exists i :: 0 <= i < |sets| && AllHit(PathOf(g, sets, i), hit)
  }

  ghost predicate SomePathIsAny(tt: TagTable, g: seq<SetDef>, sets: seq<nat>)
    requires Takeable(g, sets)
  {
    exists i :: 0 <= i < |sets| && IsAny(tt, PathOf(g, sets, i))
  }

  /** What one alternative means. */
  lemma AlternativeMeans(tt: TagTable, g: seq<SetDef>, s: nat, env: Env, r: Reading)
    requires ValidGrammar(tt, g) && s < |g| && SingleList(g[s]) && AsBuilt(tt, g[s])
    ensures Match(tt, g, env, r, s) <==> g[s].any || AllHit(TerminalPath(NonEmpty(g[s])), Hits(tt, env, r))
  {
    var d := g[s];
    var t, hit := NonEmpty(d), Hits(tt, env, r);
    SingularMatches(t, hit);
    if IsFailfast(tt, TerminalPath(t)) {
      assert !hit(TerminalPath(t)[0]);
      assert !AllHit(TerminalPath(t), hit);
    } else {
      assert !SomeFailfast(tt, env, r, []);
    }
  }

  /** What the SET means before flattening: one of its alternatives matches. */
  lemma AlternativesMean(tt: TagTable, g: seq<SetDef>, d: SetDef, env: Env, r: Reading)
    requires ValidGrammar(tt, g) && ValidDef(tt, d, |g|) && Flattens(g, d) && !d.any
    requires forall i :: 0 <= i < |d.sets| ==> AsBuilt(tt, g[d.sets[i]])
    ensures Means(tt, g, d, env, r) <==> SomePathIsAny(tt, g, d.sets) || SomePathHits(g, d.sets, Hits(tt, env, r))
  {
    ExtendedGrammarIsValid(tt, g, d);
    var g' := g + [d];
    assert g'[..|g|] == g && g'[|g|] == d;
    var vals := Values(tt, g', env, r, |g|);
    forall i | 0 <= i < |d.sets|
      ensures vals[i] <==> IsAny(tt, PathOf(g, d.sets, i)) || AllHit(PathOf(g, d.sets, i), Hits(tt, env, r))
    {
      EarlierSetsUnchanged(tt, g, g', env, r, d.sets[i]);
      AlternativeMeans(tt, g, d.sets[i], env, r);
    }
    AlternativesHold(vals, d.ops, 0);
  }

  /**
   What the LIST means after flattening: a taken tag list is (*), or one matches and no taken list is a
   failfast tag that names a tag of the reading.
   */
  ghost predicate ListOfTaken(tt: TagTable, g: seq<SetDef>, sets: seq<nat>, env: Env, r: Reading)
    requires Takeable(g, sets)
  {
    || SomeTakenIsAny(tt, g, sets)
    || (SomeTakenHits(g, sets, Hits(tt, env, r)) && !SomeTakenBlocks(tt, env, r, g, sets))
  }

  /**
   Flattening an OR of single tag lists, reading by reading: before, an alternative's tag list matches; after,
   a list taken from an alternative does, and none rules the reading out. So flattening can only lose readings,
   and loses exactly those that match and that the taken lists do not.
   */
  lemma FlattenedMeans(tt: TagTable, g: seq<SetDef>, d: SetDef, env: Env, r: Reading)
    requires ValidGrammar(tt, g) && ValidDef(tt, d, |g|) && Flattens(g, d)
    requires d.trie.Nil? && d.trieSpecial.Nil? && d.ff == [] && !d.any
    requires forall i :: 0 <= i < |d.sets| ==> AsBuilt(tt, g[d.sets[i]])
    ensures ValidDef(tt, Flattened(tt, g, d), |g|)
    ensures Means(tt, g, d, env, r) <==> SomePathIsAny(tt, g, d.sets) || SomePathHits(g, d.sets, Hits(tt, env, r))
    ensures Means(tt, g, Flattened(tt, g, d), env, r) <==> ListOfTaken(tt, g, d.sets, env, r)
    ensures Means(tt, g, Flattened(tt, g, d), env, r) ==> Means(tt, g, d, env, r)
  {
    AddListsValid(tt, g, d, d.sets);
    AddListsMean(tt, g, d, d.sets, env, r);
    AlternativesMean(tt, g, d, env, r);
    ExtendedGrammarIsValid(tt, g, Flattened(tt, g, d));
    var f := Flattened(tt, g, d);
    assert (g + [f])[|g|] == f;
    PathsAreShorter(tt, g, d.sets, Hits(tt, env, r));
  }

  /** The list taken from a LIST starts with its tag list, so that it asks for as much or more. */
  lemma {:induction false} PathFirst(t: Trie, hit: int -> bool)
    requires Singular(t)
    ensures AllHit(TagList(t), hit) ==> AllHit(TerminalPath(t), hit)
    ensures |TerminalPath(t)| <= |TagList(t)| && TagList(t)[..|TerminalPath(t)|] == TerminalPath(t) &&
            TerminalPath(t) != []
    decreases t
  {
    assert TagList(t) == [t.tag] + TagList(t.sub) && TagList(t)[1..] == TagList(t.sub);
    if t.terminal {
      assert TerminalPath(t)[1..] == [];
    } else {
      PathFirst(t.sub, hit);
      assert TerminalPath(t)[1..] == TerminalPath(t.sub);
    }
  }

  lemma PathsAreShorter(tt: TagTable, g: seq<SetDef>, sets: seq<nat>, hit: int -> bool)
    requires Takeable(g, sets)
    ensures SomeTakenHits(g, sets, hit) ==> SomePathHits(g, sets, hit)
    ensures SomeTakenIsAny(tt, g, sets) ==> SomePathIsAny(tt, g, sets)
  {
    forall i | 0 <= i < |sets|
      ensures AllHit(Taken(g, sets, i), hit) ==> AllHit(PathOf(g, sets, i), hit)
      ensures IsAny(tt, Taken(g, sets, i)) ==> IsAny(tt, PathOf(g, sets, i))
    {
      PathFirst(NonEmpty(g[sets[i]]), hit);
    }
  }

  /** No alternative has anything below the end of its tag list. */
  predicate AllLeaves(g: seq<SetDef>, sets: seq<nat>)
    requires Takeable(g, sets)
  {
    forall i :: 0 <= i < |sets| ==> TerminalsAreLeaves(NonEmpty(g[sets[i]]))
  }

  /**
   Without anything below the ends, only failfast alternatives lose readings: those that match and have a tag
   that one of them names, unless an alternative is (*).
   */
  lemma FlattenedLeavesMean(tt: TagTable, g: seq<SetDef>, d: SetDef, env: Env, r: Reading)
    requires ValidGrammar(tt, g) && ValidDef(tt, d, |g|) && Flattens(g, d)
    requires d.trie.Nil? && d.trieSpecial.Nil? && d.ff == [] && !d.any
    requires forall i :: 0 <= i < |d.sets| ==> AsBuilt(tt, g[d.sets[i]])
    requires AllLeaves(g, d.sets)
    ensures ValidDef(tt, Flattened(tt, g, d), |g|)
    ensures Means(tt, g, Flattened(tt, g, d), env, r) <==>
              Means(tt, g, d, env, r) && (SomeTakenBlocks(tt, env, r, g, d.sets) ==> SomeTakenIsAny(tt, g, d.sets))
  {
    FlattenedMeans(tt, g, d, env, r);
    forall i | 0 <= i < |d.sets| ensures Taken(g, d.sets, i) == PathOf(g, d.sets, i) {
      TagListIsPath(NonEmpty(g[d.sets[i]]));
    }
  }

  lemma AddTagValid(tt: TagTable, d: SetDef, tag: int, below: nat)
    requires ValidTable(tt) && ValidDef(tt, d, below)
    ensures ValidDef(tt, AddTagToSet(tt, d, tag), below)
  {
    SetTerminalKeeps(d.trie, tag, Ordinary(tt));
    SetTerminalKeeps(d.trieSpecial, tag, Ordinary(tt));
  }

  lemma {:induction false} InsertKeeps(t: Trie, tv: seq<int>, tt: TagTable)
    requires tv != [] && Every(t, Ordinary(tt)) && !AnySpecial(tt, tv)
    ensures Every(Insert(t, tv).0, Ordinary(tt))
    decreases |tv|, t
  {
    PathKeeps(tv, tt);
    if t.Entry? {
      if tv[0] > t.tag {
        InsertKeeps(t.next, tv, tt);
      } else if tv[0] == t.tag && !t.terminal && |tv| > 1 {
        InsertKeeps(t.sub, tv[1..], tt);
      }
    }
  }

  lemma {:induction false} PathKeeps(tv: seq<int>, tt: TagTable)
    requires tv != [] && !AnySpecial(tt, tv)
    ensures Every(Path(tv), Ordinary(tt))
    decreases |tv|
  {
    assert Ordinary(tt)(tv[0]);
    if |tv| > 1 { PathKeeps(tv[1..], tt); }
  }

  lemma AddListValid(tt: TagTable, d: SetDef, tv: seq<int>, below: nat)
    requires ValidTable(tt) && ValidDef(tt, d, below) && tv != []
    ensures ValidDef(tt, AddList(tt, d, tv), below)
    ensures AddList(tt, d, tv).sets == d.sets && AddList(tt, d, tv).ops == d.ops
  {
    if |tv| == 1 {
      AddTagValid(tt, d, tv[0], below);
    } else {
      InsertSorted(d.trieSpecial, tv);
      InsertSorted(d.trie, tv);
      if !AnySpecial(tt, tv) { InsertKeeps(d.trie, tv, tt); }
    }
  }

  lemma {:induction false} AddListsValid(tt: TagTable, g: seq<SetDef>, d: SetDef, sets: seq<nat>)
    requires ValidTable(tt) && ValidDef(tt, d, |g|) && Takeable(g, sets)
    ensures ValidDef(tt, AddLists(tt, g, d, sets), |g|)
    ensures AddLists(tt, g, d, sets).sets == d.sets && AddLists(tt, g, d, sets).ops == d.ops
    decreases |sets|
  {
    if sets != [] {
      var n := |sets| - 1;
      assert SingleList(g[sets[n]]);
      AddListsValid(tt, g, d, sets[..n]);
      AddListValid(tt, AddLists(tt, g, d, sets[..n]), TagList(NonEmpty(g[sets[n]])), |g|);
    }
  }

  // ---- splitting off failfast tags ----

  predicate Strippable(tt: TagTable, ff: seq<int>) {
    forall i :: 0 <= i < |ff| ==> ff[i] in tt.stripped
  }

  /** Plain failfast tags: without the mark, an ordinary tag with the hash that the failfast tag looks for. */
  predicate PlainFailfast(tt: TagTable, ff: seq<int>) {
    forall i :: 0 <= i < |ff| ==>
      && ff[i] in tt.failfast && ff[i] in tt.stripped
      && tt.stripped[ff[i]] == tt.failfast[ff[i]] && tt.stripped[ff[i]] !in tt.special
  }

  function Split(tt: TagTable, g: seq<SetDef>, d: SetDef): (r: seq<SetDef>)
    requires Strippable(tt, d.ff)
    ensures |r| == 3
  {
    var positive, negative := Reflag(tt, Positive(d, d.ff)), Reflag(tt, Negative(tt, d.ff));
    [positive, negative,
     d.(ff := [], trie := Nil, trieSpecial := Nil, special := positive.special || negative.special,
        sets := d.sets + [|g|, |g| + 1], ops := d.ops + [Minus])]
  }

  lemma {:induction false} PositiveMeans(tt: TagTable, d: SetDef, ff: seq<int>, hit: int -> bool, below: nat)
    requires ValidTable(tt) && ValidDef(tt, d, below)
    requires forall i :: 0 <= i < |ff| ==> !hit(ff[i])
    ensures Holds(Positive(d, ff), hit) <==> Holds(d, hit)
    ensures ValidDef(tt, Positive(d, ff), below)
    ensures var p := Positive(d, ff); p.sets == [] && p.ff == [] && !p.any
    decreases |ff|
  {
    if ff != [] {
      var n := |ff| - 1;
      PositiveMeans(tt, d, ff[..n], hit, below);
      EraseTerminalMatches(Positive(d, ff[..n]).trieSpecial, ff[n], hit);
      EraseTerminalSorted(Positive(d, ff[..n]).trieSpecial, ff[n]);
    }
  }

  /** Some failfast tag matches once its mark is taken off. */
  predicate SomeStripped(tt: TagTable, env: Env, r: Reading, ff: seq<int>)
    requires Strippable(tt, ff)
  {
    ff != [] &&
    var tag := tt.stripped[ff[|ff| - 1]];
    tag in tt.any || TagMatches(tt, env, r, tag) || SomeStripped(tt, env, r, ff[..|ff| - 1])
  }

  lemma FailfastStrips(tt: TagTable, ff: seq<int>)
    requires ValidTable(tt) && forall i :: 0 <= i < |ff| ==> ff[i] in tt.failfast
    ensures Strippable(tt, ff)
    ensures forall i :: 0 <= i < |ff| ==> tt.stripped[ff[i]] !in tt.failfast
  {
    forall i | 0 <= i < |ff| ensures ff[i] in tt.stripped && tt.stripped[ff[i]] !in tt.failfast {
      var tag := ff[i];
      assert tag in tt.failfast;
      assert tag in tt.special;
    }
  }

  lemma {:induction false} NegativeMeans(tt: TagTable, ff: seq<int>, env: Env, r: Reading, below: nat)
    requires ValidTable(tt) && forall i :: 0 <= i < |ff| ==> ff[i] in tt.failfast
    ensures Strippable(tt, ff)
    ensures var n := Negative(tt, ff);
            && (n.any || Holds(n, Hits(tt, env, r)) <==> SomeStripped(tt, env, r, ff))
            && ValidDef(tt, n, below) && n.sets == [] && n.ff == []
    decreases |ff|
  {
    FailfastStrips(tt, ff);
    if ff != [] {
      var n := |ff| - 1;
      NegativeMeans(tt, ff[..n], env, r, below);
      var tag := tt.stripped[ff[n]];
      AddTagValid(tt, Negative(tt, ff[..n]), tag, below);
      AddListMeans(tt, Negative(tt, ff[..n]), [tag], Hits(tt, env, r));
      assert [tag][1..] == [];
      assert AllHit([tag], Hits(tt, env, r)) <==> TagMatches(tt, env, r, tag);
    }
  }

  /**
   Splitting a LIST, reading by reading: before, a failfast tag rules a reading out by the plain hash it looks
   for; after, by what it matches without its mark.
   */
  lemma SplitMeans(tt: TagTable, g: seq<SetDef>, d: SetDef, env: Env, r: Reading)
    requires ValidGrammar(tt, g) && ValidDef(tt, d, |g|) && d.sets == [] && d.ops == []
    ensures Strippable(tt, d.ff) && ValidGrammar(tt, g + Split(tt, g, d))
    ensures Means(tt, g, d, env, r) <==> d.any || (Holds(d, Hits(tt, env, r)) && !SomeFailfast(tt, env, r, d.ff))
    ensures Match(tt, g + Split(tt, g, d), env, r, |g| + 2) <==>
              d.any || (Holds(d, Hits(tt, env, r)) && !SomeStripped(tt, env, r, d.ff))
  {
    var hit := Hits(tt, env, r);
    PositiveMeans(tt, d, d.ff, hit, |g|);
    NegativeMeans(tt, d.ff, env, r, |g| + 1);
    SplitIsValid(tt, g, d);
    SplitMatches(tt, g, d, env, r);
    PartsMatch(tt, g, d, env, r);
    ExtendedGrammarIsValid(tt, g, d);
    assert (g + [d])[|g|] == d;
  }

  /** The last of the three sets is the first without the second. */
  lemma SplitMatches(tt: TagTable, g: seq<SetDef>, d: SetDef, env: Env, r: Reading)
    requires d.sets == [] && d.ops == [] && Strippable(tt, d.ff) && ValidGrammar(tt, g + Split(tt, g, d))
    ensures var g' := g + Split(tt, g, d);
            Match(tt, g', env, r, |g| + 2) <==> d.any || (Match(tt, g', env, r, |g|) && !Match(tt, g', env, r, |g| + 1))
  {
    var g' := g + Split(tt, g, d);
    assert g'[|g| + 2] == Split(tt, g, d)[2];
    assert g'[|g| + 2].sets == [|g|, |g| + 1] && g'[|g| + 2].ops == [Minus];
    var vals := Values(tt, g', env, r, |g| + 2);
    assert vals == [Match(tt, g', env, r, |g|), Match(tt, g', env, r, |g| + 1)];
    DifferenceHolds(vals[0], vals[1]);
  }

  lemma PartsMatch(tt: TagTable, g: seq<SetDef>, d: SetDef, env: Env, r: Reading)
    requires Strippable(tt, d.ff) && ValidGrammar(tt, g + Split(tt, g, d))
    requires var p := Positive(d, d.ff); p.sets == [] && p.ff == [] && !p.any
    requires var n := Negative(tt, d.ff); n.sets == [] && n.ff == []
    ensures var g', hit := g + Split(tt, g, d), Hits(tt, env, r);
            && (Match(tt, g', env, r, |g|) <==> Holds(Positive(d, d.ff), hit))
            && (Match(tt, g', env, r, |g| + 1) <==> Negative(tt, d.ff).any || Holds(Negative(tt, d.ff), hit))
  {
    var g', parts := g + Split(tt, g, d), Split(tt, g, d);
    assert g'[|g|] == parts[0] && g'[|g| + 1] == parts[1];
    assert !SomeFailfast(tt, env, r, []);
  }

  /** For plain failfast tags the two are the same, and splitting changes nothing for any reading. */
  lemma {:induction false} PlainTagsSplit(tt: TagTable, env: Env, r: Reading, ff: seq<int>)
    requires ValidTable(tt) && PlainFailfast(tt, ff)
    ensures Strippable(tt, ff) && (SomeStripped(tt, env, r, ff) <==> SomeFailfast(tt, env, r, ff))
    decreases |ff|
  {
    if ff != [] {
      var n := |ff| - 1;
      PlainTagsSplit(tt, env, r, ff[..n]);
      assert ff[n] in tt.failfast && tt.stripped[ff[n]] !in tt.any;
    }
  }

  lemma SplitIsValid(tt: TagTable, g: seq<SetDef>, d: SetDef)
    requires ValidGrammar(tt, g) && ValidDef(tt, d, |g|) && d.sets == [] && d.ops == [] && Strippable(tt, d.ff)
    requires ValidDef(tt, Positive(d, d.ff), |g|) && ValidDef(tt, Negative(tt, d.ff), |g| + 1)
    ensures ValidGrammar(tt, g + Split(tt, g, d))
  {
    var g' := g + Split(tt, g, d);
    forall s | 0 <= s < |g'| ensures ValidDef(tt, g'[s], s) {
      if s < |g| { assert g'[s] == g[s]; }
    }
  }

  // ---- addSet ----

  function Prepared(tt: TagTable, g: seq<SetDef>, d: SetDef): SetDef {
    if Flattens(g, d) then Flattened(tt, g, d) else d
  }

  lemma PreparedIsValid(tt: TagTable, g: seq<SetDef>, to: SetDef)
    requires ValidGrammar(tt, g) && ValidDef(tt, to, |g|)
    ensures ValidDef(tt, Prepared(tt, g, to), |g|) && Strippable(tt, Prepared(tt, g, to).ff)
  {
    if Flattens(g, to) {
      AddListsValid(tt, g, to, to.sets);
      var d := AddLists(tt, g, to, to.sets);
      assert Prepared(tt, g, to) == Reflag(tt, d.(sets := [], ops := []));
    }
    var p := Prepared(tt, g, to);
    assert ValidDef(tt, p, |g|);
    forall i | 0 <= i < |p.ff| ensures p.ff[i] in tt.stripped {
      var tag := p.ff[i];
      assert tag in tt.failfast;
      assert tag in tt.special;
    }
  }

  /** The sets that addSet stores for to. */
  function Rewritten(tt: TagTable, g: seq<SetDef>, to: SetDef): (r: seq<SetDef>)
    requires ValidGrammar(tt, g) && ValidDef(tt, to, |g|)
    ensures r != []
  {
    PreparedIsValid(tt, g, to);
    var d := Prepared(tt, g, to);
    if Splits(d) then Split(tt, g, d) else [d]
  }

  /** The trie of a LIST of one tag list: only one of the two has entries, and it is a single path. */
  ghost predicate IsOnePath(d: SetDef, t: Trie) {
    (t == d.trie && d.trieSpecial.Nil?) || (t == d.trieSpecial && d.trie.Nil?)
  }

  /** A SET with only OR between its operands, each of them a LIST with a single path. */
  ghost predicate IsListsOnly(g: seq<SetDef>, d: SetDef) {
    && d.sets != [] && (forall i :: 0 <= i < |d.ops| ==> d.ops[i] == Or)
    && forall s :: s in d.sets ==>
         s < |g| && g[s].sets == [] && exists t: Trie :: IsOnePath(g[s], t) && Singular(t)
  }

  lemma FlattensIff(g: seq<SetDef>, d: SetDef)
    ensures Flattens(g, d) <==> IsListsOnly(g, d)
  {
    forall s: nat | s < |g| && g[s].sets == []
      ensures SingleList(g[s]) <==> exists t: Trie :: IsOnePath(g[s], t) && Singular(t)
    {
      OnePathIff(g[s]);
    }
    if Flattens(g, d) {
      forall s | s in d.sets ensures s < |g| && SingleList(g[s]) {
        var i :| 0 <= i < |d.sets| && d.sets[i] == s;
      }
    }
    if IsListsOnly(g, d) {
      forall i | 0 <= i < |d.sets| ensures d.sets[i] < |g| && SingleList(g[d.sets[i]]) {
        assert d.sets[i] in d.sets;
      }
    }
  }

  lemma OnePathIff(d: SetDef)
    requires d.sets == []
    ensures SingleList(d) <==> exists t: Trie :: IsOnePath(d, t) && Singular(t)
  {
    if SingleList(d) { assert IsOnePath(d, NonEmpty(d)); }
  }

  /**
   When addSet rewrites, and what the result looks like. A SET of lists only becomes a LIST; a set with failfast tags
   and more top entries than these is stored in three parts; any other is stored as it is.
   */
  lemma RewrittenShape(tt: TagTable, g: seq<SetDef>, to: SetDef)
    requires ValidGrammar(tt, g) && ValidDef(tt, to, |g|)
    ensures var r := Rewritten(tt, g, to);
            && (IsListsOnly(g, to) ==> |r| == 3 || (|r| == 1 && r[0].sets == [] && r[0].ops == []))
            && (!IsListsOnly(g, to) && (to.ff == [] || |to.ff| >= Width(to.trie) + Width(to.trieSpecial)) ==>
                  r == [to])
            && (!IsListsOnly(g, to) && to.ff != [] && |to.ff| < Width(to.trie) + Width(to.trieSpecial) ==>
                  |r| == 3 && r[2].sets == to.sets + [|g|, |g| + 1] && r[2].ops == to.ops + [Minus])
            && (|r| == 3 ==>
                  && r[2].trie.Nil? && r[2].trieSpecial.Nil?
                  && forall i :: 0 <= i < 3 ==> r[i].ff == [] && (i < 2 ==> r[i].sets == []))
  {
    FlattensIff(g, to);
    PreparedIsValid(tt, g, to);
    var d := Prepared(tt, g, to);
    PartsHaveNoSets(tt, d, d.ff);
    FailfastStrips(tt, d.ff);
    PartsHaveNoFailfast(tt, d, d.ff);
  }

  lemma {:induction false} PartsHaveNoFailfast(tt: TagTable, d: SetDef, ff: seq<int>)
    requires ValidTable(tt) && forall i :: 0 <= i < |ff| ==> ff[i] in tt.stripped && tt.stripped[ff[i]] !in tt.failfast
    ensures Positive(d, ff).ff == [] && Negative(tt, ff).ff == []
    decreases |ff|
  {
    if ff != [] { PartsHaveNoFailfast(tt, d, ff[..|ff| - 1]); }
  }

  class GrammarBuilder {
    const tt: TagTable
    var sets: seq<SetDef>

    constructor (tt: TagTable)
      ensures this.tt == tt && sets == []
    {
      this.tt := tt;
      sets := [];
    }

    /** The all_tags test. */
    method AllTags(d: SetDef) returns (allTags: bool)
      requires ValidGrammar(tt, sets) && ValidDef(tt, d, |sets|)
      ensures allTags == Flattens(sets, d) == IsListsOnly(sets, d)
    {
      FlattensIff(sets, d);
      allTags := d.sets != [];
      if !allTags {
        return;
      }
      for i := 0 to |d.sets|
        invariant forall k :: 0 <= k < i - 1 ==> d.ops[k] == Or
        invariant forall k :: 0 <= k < i ==> SingleList(sets[d.sets[k]])
      {
        if i > 0 && d.ops[i - 1] != Or {
          return false;
        }
        var s := sets[d.sets[i]];
        if s.sets != [] {
          return false;
        }
        if s.trie.Entry? && s.trieSpecial.Entry? {
          return false;
        }
        if Width(NonEmpty(s)) != 1 || !Singular(NonEmpty(s)) {
          SizeOfSingular(NonEmpty(s));
          return false;
        }
      }
    }

    /** The tag lists of the alternatives, put into to. */
    method FlattenInto(to: SetDef) returns (d: SetDef)
      requires Flattens(sets, to)
      ensures d == Flattened(tt, sets, to)
    {
      d := to;
      for i := 0 to |to.sets|
        invariant d == AddLists(tt, sets, to, to.sets[..i])
      {
        assert SingleList(sets[to.sets[i]]);
        var tv := TagList(NonEmpty(sets[to.sets[i]]));
        AddListsStep(tt, sets, to, i);
        d := AddList(tt, d, tv);
      }
      assert to.sets[..|to.sets|] == to.sets;
      d := Reflag(tt, d.(sets := [], ops := []));
    }

    /** Positive and Negative. */
    method SplitOff(d: SetDef) returns (positive: SetDef, negative: SetDef)
      requires Strippable(tt, d.ff)
      ensures positive == Reflag(tt, Positive(d, d.ff))
      ensures negative == Reflag(tt, Negative(tt, d.ff))
    {
      positive, negative := EMPTY_DEF.(trie := d.trie, trieSpecial := d.trieSpecial), EMPTY_DEF;
      for i := 0 to |d.ff|
        invariant positive == Positive(d, d.ff[..i])
        invariant negative == Negative(tt, d.ff[..i])
      {
        assert d.ff[..i + 1][..i] == d.ff[..i];
        positive := positive.(trieSpecial := EraseTerminal(positive.trieSpecial, d.ff[i]));
        negative := AddTagToSet(tt, negative, tt.stripped[d.ff[i]]);
      }
      assert d.ff[..|d.ff|] == d.ff;
      positive, negative := Reflag(tt, positive), Reflag(tt, negative);
    }

    /** addSet: stores to, rewritten, at the end of the list of sets. */
    method AddSet(to: SetDef)
      requires ValidGrammar(tt, sets) && ValidDef(tt, to, |sets|)
      modifies this
      ensures sets == old(sets) + Rewritten(tt, old(sets), to)
    {
      var d := to;
      PreparedIsValid(tt, sets, to);
      var allTags := AllTags(d);
      if allTags {
        d := FlattenInto(to);
      }
      if d.ff != [] && |d.ff| < Width(d.trie) + Width(d.trieSpecial) {
        var positive, negative := SplitOff(d);
        var n := |sets|;
        sets := sets + [positive, negative];
        d := d.(ff := [], trie := Nil, trieSpecial := Nil, special := positive.special || negative.special,
                sets := d.sets + [n, n + 1], ops := d.ops + [Minus]);
      }
      sets := sets + [d];
    }
  }

  lemma AddListsStep(tt: TagTable, g: seq<SetDef>, d: SetDef, i: nat)
    requires Takeable(g, d.sets) && i < |d.sets|
    ensures AddLists(tt, g, d, d.sets[..i + 1]) == AddList(tt, AddLists(tt, g, d, d.sets[..i]), Taken(g, d.sets, i))
  {
    assert d.sets[..i + 1][..i] == d.sets[..i];
  }

  lemma SizeOfSingular(t: Trie)
    ensures Singular(t) ==> Width(t) == 1
  {
  }

  /**
   addSet keeps the meaning of a set for every reading in every environment, except for the readings that
   flattening loses, and those that tell a failfast tag from the tag it is without its mark.
   */
  lemma AddSetMeans(tt: TagTable, g: seq<SetDef>, to: SetDef, env: Env, r: Reading)
    requires ValidGrammar(tt, g) && ValidDef(tt, to, |g|)
    requires to.sets != [] ==> to.trie.Nil? && to.trieSpecial.Nil? && to.ff == [] && !to.any
    requires to.sets == [] ==> to.ops == []
    requires Flattens(g, to) ==> forall i :: 0 <= i < |to.sets| ==> AsBuilt(tt, g[to.sets[i]])
    ensures ValidGrammar(tt, g + Rewritten(tt, g, to)) && Strippable(tt, Prepared(tt, g, to).ff)
    ensures var g' := g + Rewritten(tt, g, to);
            if SplitAgrees(tt, Prepared(tt, g, to), env, r) then
              Match(tt, g', env, r, |g'| - 1) <==>
                Means(tt, g, to, env, r) && (Flattens(g, to) ==> ListOfTaken(tt, g, to.sets, env, r))
            else
              Match(tt, g', env, r, |g'| - 1) <==>
                !(Means(tt, g, to, env, r) && (Flattens(g, to) ==> ListOfTaken(tt, g, to.sets, env, r)))
  {
    PreparedIsValid(tt, g, to);
    var d := Prepared(tt, g, to);
    if Flattens(g, to) {
      FlattenedMeans(tt, g, to, env, r);
    }
    if Splits(d) {
      SplitMeans(tt, g, d, env, r);
    } else {
      ExtendedGrammarIsValid(tt, g, d);
    }
  }

  /** If d is split, its failfast tags rule out r with their marks exactly if they do without, or it does not matter. */
  predicate SplitAgrees(tt: TagTable, d: SetDef, env: Env, r: Reading)
    requires Strippable(tt, d.ff)
  {
    Splits(d) && !d.any && Holds(d, Hits(tt, env, r)) ==>
          (SomeStripped(tt, env, r, d.ff) <==> SomeFailfast(tt, env, r, d.ff))
  }

  lemma ReflagIsPlain(tt: TagTable, g: seq<SetDef>, d: SetDef)
    requires d.sets == [] && !Reflag(tt, d).special
    ensures PlainDef(tt, g, Reflag(tt, d))
  {
    NoSpecialMeansOrdinary(tt, d.trie);
    NoSpecialMeansOrdinary(tt, d.trieSpecial);
  }

  lemma {:induction false} PartsHaveNoSets(tt: TagTable, d: SetDef, ff: seq<int>)
    requires Strippable(tt, ff)
    ensures Positive(d, ff).sets == [] && Negative(tt, ff).sets == []
    decreases |ff|
  {
    if ff != [] { PartsHaveNoSets(tt, d, ff[..|ff| - 1]); }
  }

  /** addSet keeps the SPECIAL flags closed upward. */
  lemma AddSetKeepsFlags(tt: TagTable, g: seq<SetDef>, to: SetDef)
    requires ValidGrammar(tt, g) && ValidDef(tt, to, |g|) && FlagsClosed(tt, g)
    requires !to.special ==> PlainDef(tt, g, to)
    requires Splits(to) ==> to.sets == []
    ensures FlagsClosed(tt, g + Rewritten(tt, g, to))
  {
    PreparedIsValid(tt, g, to);
    var d := Prepared(tt, g, to);
    var added := Rewritten(tt, g, to);
    var g' := g + added;
    if Flattens(g, to) {
      assert d == Reflag(tt, AddLists(tt, g, to, to.sets).(sets := [], ops := []));
    }
    if Splits(d) {
      PartsHaveNoSets(tt, d, d.ff);
      assert added[2].sets == d.sets + [|g|, |g| + 1];
    }
    forall s | 0 <= s < |g'| && !g'[s].special ensures PlainDef(tt, g', g'[s]) {
      if s < |g| {
        assert g'[s] == g[s] && PlainDef(tt, g, g[s]);
      } else if Splits(d) && s < |g| + 2 {
        ReflagIsPlain(tt, g', if s == |g| then Positive(d, d.ff) else Negative(tt, d.ff));
      } else if Flattens(g, to) && !Splits(d) {
        ReflagIsPlain(tt, g', AddLists(tt, g, to, to.sets).(sets := [], ops := []));
      }
    }
  }

  /**
   The exception is real. In (b) OR (^a), with b and a plain tags, a reading with both matches (b) and
   so the SET; after flattening, ^a in the same LIST rules it out.
   */
  lemma FlatteningFailfastChangesMeaning(env: Env)
    ensures var tt := TagTable({3}, {}, map[3 := 1], map[3 := 1]);
            var g := [EMPTY_DEF.(trie := Entry(2, true, Nil, Nil)),
                      EMPTY_DEF.(special := true, ff := [3], trieSpecial := Entry(3, true, Nil, Nil))];
            var d := EMPTY_DEF.(sets := [0, 1], ops := [Or]);
            var r := Reading([1, 2], []);
            && ValidGrammar(tt, g) && ValidDef(tt, d, |g|) && Flattens(g, d)
            && ValidDef(tt, Flattened(tt, g, d), |g|)
            && Means(tt, g, d, env, r) && !Means(tt, g, Flattened(tt, g, d), env, r)
  {
    var tt := TagTable({3}, {}, map[3 := 1], map[3 := 1]);
    var t2, t3 := Entry(2, true, Nil, Nil), Entry(3, true, Nil, Nil);
    var g := [EMPTY_DEF.(trie := t2), EMPTY_DEF.(special := true, ff := [3], trieSpecial := t3)];
    var d := EMPTY_DEF.(sets := [0, 1], ops := [Or]);
    var r := Reading([1, 2], []);
    FailfastLists(tt, g, d);
    assert [2][1..] == [] && [3][1..] == [];
    var hit := Hits(tt, env, r);
    assert hit(2) && !hit(3) && TagMatches(tt, env, r, 3);
    assert AllHit(PathOf(g, d.sets, 0), hit);
    assert IsFailfast(tt, Taken(g, d.sets, 1));
    assert !IsAny(tt, Taken(g, d.sets, 0)) && !IsAny(tt, Taken(g, d.sets, 1));
    FlattenedMeans(tt, g, d, env, r);
  }

  lemma FailfastLists(tt: TagTable, g: seq<SetDef>, d: SetDef)
    requires tt == TagTable({3}, {}, map[3 := 1], map[3 := 1]) && d == EMPTY_DEF.(sets := [0, 1], ops := [Or])
    requires g == [EMPTY_DEF.(trie := Entry(2, true, Nil, Nil)),
                   EMPTY_DEF.(special := true, ff := [3], trieSpecial := Entry(3, true, Nil, Nil))]
    ensures ValidGrammar(tt, g) && ValidDef(tt, d, |g|) && Flattens(g, d) && AsBuilt(tt, g[0]) && AsBuilt(tt, g[1])
    ensures Taken(g, d.sets, 0) == [2] == PathOf(g, d.sets, 0) && Taken(g, d.sets, 1) == [3] == PathOf(g, d.sets, 1)
  {
    assert TagList(Entry(2, true, Nil, Nil)) == [2];
    assert TagList(Entry(3, true, Nil, Nil)) == [3];
  }

  /**
   Without its mark a failfast tag can match what it did not look for. A LIST of a and a failfast regular
   expression matches a reading with only a; split, it does not, if the expression matches the reading.
   */
  lemma SplittingSpecialChangesMeaning()
    ensures var tt := TagTable({3, 4}, {}, map[3 := 9], map[3 := 4]);
            var one, three := Entry(1, true, Nil, Nil), Entry(3, true, Nil, Nil);
            var d := EMPTY_DEF.(special := true, ff := [3], trie := one, trieSpecial := three);
            var r := Reading([1], []);
            var env: Env := (tag, r) => true;
            && ValidGrammar(tt, []) && ValidDef(tt, d, 0) && Splits(d) && Strippable(tt, d.ff)
            && ValidGrammar(tt, Split(tt, [], d))
            && Means(tt, [], d, env, r) && !Match(tt, Split(tt, [], d), env, r, 2)
  {
    var tt := TagTable({3, 4}, {}, map[3 := 9], map[3 := 4]);
    var one, three := Entry(1, true, Nil, Nil), Entry(3, true, Nil, Nil);
    var d := EMPTY_DEF.(special := true, ff := [3], trie := one, trieSpecial := three);
    var r := Reading([1], []);
    var env: Env := (tag, r) => true;
    assert Ordinary(tt)(1);
    SplitMeans(tt, [], d, env, r);
    assert [] + Split(tt, [], d) == Split(tt, [], d);
    assert [3][..0] == [];
    assert !TagMatches(tt, env, r, 3) && TagMatches(tt, env, r, 4);
    assert !SomeFailfast(tt, env, r, [3]) && SomeStripped(tt, env, r, [3]);
    assert Hits(tt, env, r)(1);
  }

  /**
   addTagToSet can leave a terminal node with a subtrie below it, as for (a b) followed by (a). OR'ed with (c),
   the list taken from it is (a b), and a reading with only a, which matched, is lost.
   */
  lemma FlatteningSubtrieChangesMeaning(env: Env)
    ensures var tt := TagTable({}, {}, map[], map[]);
            var list := EMPTY_DEF.(trie := SetTerminal(Insert(Nil, [1, 2]).0, 1));
            var g := [list, EMPTY_DEF.(trie := SetTerminal(Nil, 3))];
            var d := EMPTY_DEF.(sets := [0, 1], ops := [Or]);
            var r := Reading([1], []);
            && ValidGrammar(tt, g) && ValidDef(tt, d, |g|) && Flattens(g, d) && AsBuilt(tt, g[0]) && AsBuilt(tt, g[1])
            && ValidDef(tt, Flattened(tt, g, d), |g|)
            && Means(tt, g, d, env, r) && !Means(tt, g, Flattened(tt, g, d), env, r)
  {
    var tt := TagTable({}, {}, map[], map[]);
    var t2, t3 := Entry(2, true, Nil, Nil), Entry(3, true, Nil, Nil);
    var t := Entry(1, true, t2, Nil);
    OneTwoThenOne();
    var g := [EMPTY_DEF.(trie := t), EMPTY_DEF.(trie := t3)];
    var d := EMPTY_DEF.(sets := [0, 1], ops := [Or]);
    var r := Reading([1], []);
    SubtrieLists(tt, g, d);
    var hit := Hits(tt, env, r);
    assert hit(1) && !hit(2) && !hit(3);
    assert [1, 2][1..] == [2] && [1][1..] == [];
    assert AllHit(PathOf(g, d.sets, 0), hit);
    assert !AllHit(Taken(g, d.sets, 0), hit) && !AllHit(Taken(g, d.sets, 1), hit);
    FlattenedMeans(tt, g, d, env, r);
  }

  lemma OneTwoThenOne()
    ensures SetTerminal(Insert(Nil, [1, 2]).0, 1) == Entry(1, true, Entry(2, true, Nil, Nil), Nil)
    ensures SetTerminal(Nil, 3) == Entry(3, true, Nil, Nil)
  {
    assert [1, 2][1..] == [2];
    assert Insert(Nil, [1, 2]).0 == Entry(1, false, Entry(2, true, Nil, Nil), Nil);
  }

  lemma SubtrieLists(tt: TagTable, g: seq<SetDef>, d: SetDef)
    requires tt == TagTable({}, {}, map[], map[]) && d == EMPTY_DEF.(sets := [0, 1], ops := [Or])
    requires g == [EMPTY_DEF.(trie := Entry(1, true, Entry(2, true, Nil, Nil), Nil)),
                   EMPTY_DEF.(trie := Entry(3, true, Nil, Nil))]
    ensures ValidGrammar(tt, g) && ValidDef(tt, d, |g|) && Flattens(g, d) && AsBuilt(tt, g[0]) && AsBuilt(tt, g[1])
    ensures Taken(g, d.sets, 0) == [1, 2] && Taken(g, d.sets, 1) == [3]
    ensures PathOf(g, d.sets, 0) == [1] && PathOf(g, d.sets, 1) == [3]
  {
    var t2, t3 := Entry(2, true, Nil, Nil), Entry(3, true, Nil, Nil);
    assert TagList(t2) == [2];
    assert TagList(t3) == [3];
    assert TagList(Entry(1, true, t2, Nil)) == [1, 2];
  }
}
