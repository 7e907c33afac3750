/**
 The possible_sets prefilter: every cohort keeps a bit per set, and a set whose bit is clear is not
 tried on the cohort. Bits are raised from an index of sets by tag when tags are added, and cleared
 when a set turns out to match none of the readings.
 */
module PossibleSets {
  import opened TagTries
  import opened SetOperators
  import opened SetMatching

  /**
   What addSet and reindex leave behind: failfast and (*) tags are special, and NOT cannot be written between sets.
   */
  predicate Indexable(tt: TagTable, g: seq<SetDef>) {
    && ValidGrammar(tt, g) && FlagsClosed(tt, g)
    && (forall s :: 0 <= s < |g| ==> Not !in g[s].ops)
    && (forall s :: 0 <= s < |g| && !g[s].special ==> !g[s].any && g[s].ff == [])
  }

  /** Set s is to be found under tag: special sets under (*), other sets under every tag in them. */
  ghost predicate Under(tt: TagTable, g: seq<SetDef>, any: int, s: nat, tag: int)
    requires ValidGrammar(tt, g) && s < |g|
    decreases s
  {
    assert ValidDef(tt, g[s], s);
    if g[s].special then tag == any
    else
      || Stores(g[s].trie, tag) || Stores(g[s].trieSpecial, tag)
      || exists i :: 0 <= i < |g[s].sets| && Under(tt, g, any, g[s].sets[i], tag)
  }

  /** A special set is found under (*) only, another one under exactly the tags in it and in the sets it uses. */
  lemma {:induction false} UnderIff(tt: TagTable, g: seq<SetDef>, any: int, s: nat, tag: int)
    requires Indexable(tt, g) && s < |g|
    ensures Under(tt, g, any, s, tag) <==>
              if g[s].special then tag == any
              else exists x: nat :: Uses(tt, g, s, x) && (Stores(g[x].trie, tag) || Stores(g[x].trieSpecial, tag))
    decreases s
  {
    var d := g[s];
    assert ValidDef(tt, d, s) && (!d.special ==> PlainDef(tt, g, d));
    if !d.special {
      forall i | 0 <= i < |d.sets| { UnderIff(tt, g, any, d.sets[i], tag); }
      if exists i :: 0 <= i < |d.sets| && Under(tt, g, any, d.sets[i], tag) {
        var i :| 0 <= i < |d.sets| && Under(tt, g, any, d.sets[i], tag);
        var x: nat :| Uses(tt, g, d.sets[i], x) && (Stores(g[x].trie, tag) || Stores(g[x].trieSpecial, tag));
        assert Uses(tt, g, s, x);
      }
      assert Uses(tt, g, s, s);
    }
  }

  predicate Bit(byTag: map<int, set<nat>>, tag: int, s: nat) {
    tag in byTag && s in byTag[tag]
  }

  ghost predicate IndexIs(tt: TagTable, g: seq<SetDef>, any: int, byTag: map<int, set<nat>>)
    requires ValidGrammar(tt, g)
  {
    forall tag, s: nat :: s < |g| ==> (Bit(byTag, tag, s) <==> Under(tt, g, any, s, tag))
  }

  // ---- sets_by_tag ----

  class Index {
    const tt: TagTable
    const g: seq<SetDef>
    const any: int
    var byTag: map<int, set<nat>>

    constructor (tt: TagTable, g: seq<SetDef>, any: int)
      ensures this.tt == tt && this.g == g && this.any == any && byTag == map[]
    {
      this.tt, this.g, this.any := tt, g, any;
      byTag := map[];
    }

    /** indexTagToSet */
    method IndexTagToSet(tag: int, r: nat)
      modifies this
      ensures forall tag', s: nat :: Bit(byTag, tag', s) <==> old(Bit(byTag, tag', s)) || (tag' == tag && s == r)
    {
      if tag !in byTag {
        byTag := byTag[tag := {}];
      }
      byTag := byTag[tag := byTag[tag] + {r}];
    }

    /** trie_indexToSet */
    method TrieIndexToSet(t: Trie, r: nat)
      modifies this
      ensures forall tag, s: nat :: Bit(byTag, tag, s) <==> old(Bit(byTag, tag, s)) || (s == r && Stores(t, tag))
      decreases t
    {
      if t.Entry? {
        IndexTagToSet(t.tag, r);
        TrieIndexToSet(t.sub, r);
        TrieIndexToSet(t.next, r);
      }
    }

    /** indexSets: enters r wherever set n is to be found. */
    method IndexSets(r: nat, n: nat)
      requires ValidGrammar(tt, g) && n < |g|
      modifies this
      ensures forall tag, s: nat :: Bit(byTag, tag, s) <==>
                old(Bit(byTag, tag, s)) || (s == r && Under(tt, g, any, n, tag))
      decreases n
    {
      var d := g[n];
      assert ValidDef(tt, d, n);
      if d.special {
        IndexTagToSet(any, r);
        return;
      }
      TrieIndexToSet(d.trie, r);
      TrieIndexToSet(d.trieSpecial, r);
      for i := 0 to |d.sets|
        invariant forall tag, s: nat :: Bit(byTag, tag, s) <==>
                    old(Bit(byTag, tag, s)) ||
                    (s == r && (|| Stores(d.trie, tag) || Stores(d.trieSpecial, tag)
                                || exists j :: 0 <= j < i && Under(tt, g, any, d.sets[j], tag)))
      {
        IndexSets(r, d.sets[i]);
      }
    }

    method IndexAll()
      requires ValidGrammar(tt, g) && byTag == map[]
      modifies this
      ensures IndexIs(tt, g, any, byTag)
    {
      for n := 0 to |g|
        invariant forall tag, s: nat :: Bit(byTag, tag, s) <==> s < n && Under(tt, g, any, s, tag)
      {
        IndexSets(n, n);
      }
    }
  }

  // ---- which tags a set depends on ----

  function Except(tt: TagTable, tag: int): int -> bool {
    x => x != tag && x !in tt.special
  }

  lemma {:induction false} NotStored(tt: TagTable, t: Trie, tag: int)
    requires !Stores(t, tag) && Every(t, Ordinary(tt))
    ensures Every(t, Except(tt, tag))
    decreases t
  {
    if t.Entry? {
      assert Ordinary(tt)(t.tag);
      NotStored(tt, t.sub, tag);
      NotStored(tt, t.next, tag);
    }
  }

  /** Readings with the same plain tags, tag aside. */
  ghost predicate DifferInTag(r: Reading, r': Reading, tag: int) {
    forall x :: x != tag ==> (x in r.plain <==> x in r'.plain)
  }

  /** A set that is not special only depends on the tags it is found under. */
  lemma {:induction false} OtherTagsDoNotMatter(tt: TagTable, g: seq<SetDef>, any: int, env: Env, r: Reading,
                                                r': Reading, tag: int, s: nat)
    requires Indexable(tt, g) && s < |g| && !g[s].special && DifferInTag(r, r', tag)
    requires !Under(tt, g, any, s, tag)
    ensures Match(tt, g, env, r, s) == Match(tt, g, env, r', s)
    decreases s
  {
    var d := g[s];
    assert ValidDef(tt, d, s) && PlainDef(tt, g, d);
    if d.sets == [] {
      NotStored(tt, d.trie, tag);
      NotStored(tt, d.trieSpecial, tag);
      var hit, hit' := Hits(tt, env, r), Hits(tt, env, r');
      assert forall x :: Except(tt, tag)(x) ==> hit(x) == hit'(x);
      MatchesAgree(d.trie, Except(tt, tag), hit, hit');
      MatchesAgree(d.trieSpecial, Except(tt, tag), hit, hit');
    } else {
      forall i | 0 <= i < |d.sets| ensures Values(tt, g, env, r, s)[i] == Values(tt, g, env, r', s)[i] {
        OtherTagsDoNotMatter(tt, g, any, env, r, r', tag, d.sets[i]);
      }
      assert Values(tt, g, env, r, s) == Values(tt, g, env, r', s);
    }
  }

  lemma {:induction false} MatchNeedsStoredTag(tt: TagTable, env: Env, r: Reading, t: Trie) returns (tag: int)
    requires Every(t, Ordinary(tt)) && TagTries.Matches(t, Hits(tt, env, r))
    ensures Stores(t, tag) && tag in r.plain
    decreases t
  {
    var hit := Hits(tt, env, r);
    assert Ordinary(tt)(t.tag);
    if hit(t.tag) {
      tag := t.tag;
    } else {
      tag := MatchNeedsStoredTag(tt, env, r, t.next);
    }
  }

  /** A set that is not special only matches a reading with a tag that the set is found under. */
  lemma {:induction false} MatchNeedsTag(tt: TagTable, g: seq<SetDef>, any: int, env: Env, r: Reading, s: nat)
      returns (tag: int)
    requires Indexable(tt, g) && s < |g| && !g[s].special && Match(tt, g, env, r, s)
    ensures Under(tt, g, any, s, tag) && tag in r.plain
    decreases s
  {
    var d := g[s];
    assert ValidDef(tt, d, s) && PlainDef(tt, g, d);
    if d.sets == [] {
      if TagTries.Matches(d.trie, Hits(tt, env, r)) {
        tag := MatchNeedsStoredTag(tt, env, r, d.trie);
      } else {
        tag := MatchNeedsStoredTag(tt, env, r, d.trieSpecial);
      }
    } else {
      var vals := Values(tt, g, env, r, s);
      if forall k :: 0 <= k < |vals| ==> !vals[k] {
        NeedsOperand(vals, d.ops, 0);
      }
      var k :| 0 <= k < |vals| && vals[k];
      tag := MatchNeedsTag(tt, g, any, env, r, d.sets[k]);
    }
  }

  // ---- sets that only gain from tags ----

  /** Only OR and + between sets, here and in the sets used. */
  predicate Gains(tt: TagTable, g: seq<SetDef>, s: nat)
    requires ValidGrammar(tt, g) && s < |g|
    decreases s
  {
    assert ValidDef(tt, g[s], s);
    && (forall k :: 0 <= k < |g[s].ops| ==> g[s].ops[k] == Or || g[s].ops[k] == Plus)
    && (forall i :: 0 <= i < |g[s].sets| ==> Gains(tt, g, g[s].sets[i]))
  }

  lemma {:induction false} MoreHitsMatch(t: Trie, p: int -> bool, hit: int -> bool, hit': int -> bool)
    requires Every(t, p) && forall tag :: p(tag) && hit(tag) ==> hit'(tag)
    ensures TagTries.Matches(t, hit) ==> TagTries.Matches(t, hit')
    decreases t
  {
    if t.Entry? {
      MoreHitsMatch(t.sub, p, hit, hit');
      MoreHitsMatch(t.next, p, hit, hit');
    }
  }

  ghost predicate Fewer(r: Reading, r': Reading) {
    forall x :: x in r.plain ==> x in r'.plain
  }

  lemma {:induction false} MoreTagsMatch(tt: TagTable, g: seq<SetDef>, env: Env, r: Reading, r': Reading, s: nat)
    requires Indexable(tt, g) && s < |g| && !g[s].special && Gains(tt, g, s) && Fewer(r, r')
    ensures Match(tt, g, env, r, s) ==> Match(tt, g, env, r', s)
    decreases s
  {
    var d := g[s];
    assert ValidDef(tt, d, s) && PlainDef(tt, g, d);
    if d.sets == [] {
      MoreHitsMatch(d.trie, Ordinary(tt), Hits(tt, env, r), Hits(tt, env, r'));
      MoreHitsMatch(d.trieSpecial, Ordinary(tt), Hits(tt, env, r), Hits(tt, env, r'));
    } else {
      var vals, vals' := Values(tt, g, env, r, s), Values(tt, g, env, r', s);
      forall i | 0 <= i < |d.sets| ensures vals[i] ==> vals'[i] {
        MoreTagsMatch(tt, g, env, r, r', d.sets[i]);
      }
      Monotone(vals, vals', d.ops, 0);
    }
  }

  /** A set that matches still matches when the reading has more tags. */
  ghost predicate OnlyGains(tt: TagTable, g: seq<SetDef>, s: nat)
    requires ValidGrammar(tt, g) && s < |g|
  {
    forall env, r, r' :: Fewer(r, r') && Match(tt, g, env, r, s) ==> Match(tt, g, env, r', s)
  }

  lemma GainsIsEnough(tt: TagTable, g: seq<SetDef>, s: nat)
    requires Indexable(tt, g) && s < |g| && !g[s].special && Gains(tt, g, s)
    ensures OnlyGains(tt, g, s)
  {
    forall env, r, r' | Fewer(r, r') && Match(tt, g, env, r, s) ensures Match(tt, g, env, r', s) {
      MoreTagsMatch(tt, g, env, r, r', s);
    }
  }

  // ---- readings ----

  /** sorted_vector::insert */
  function InsertTag(tags: seq<int>, tag: int): (r: seq<int>)
    ensures forall x :: x in r <==> x in tags || x == tag
    ensures r != [] && (r[0] == tag || (tags != [] && r[0] == tags[0]))
  {
    if tags == [] || tag < tags[0] then [tag] + tags
    else if tag == tags[0] then tags
    else [tags[0]] + InsertTag(tags[1..], tag)
  }

  lemma {:induction false} InsertTagAscending(tags: seq<int>, tag: int)
    requires Ascending(tags)
    ensures Ascending(InsertTag(tags, tag))
    decreases |tags|
  {
    if tags != [] && tag > tags[0] {
      InsertTagAscending(tags[1..], tag);
      var rest := InsertTag(tags[1..], tag);
      assert forall j :: 0 <= j < |rest| ==> tags[0] < rest[j] by {
        forall j | 0 <= j < |rest| ensures tags[0] < rest[j] { assert rest[j] in rest; }
      }
    }
  }

  /** erase */
  function Without(tags: seq<int>, tag: int): (r: seq<int>)
    ensures forall x :: x in r <==> x in tags && x != tag
  {
    if tags == [] then [] else (if tags[0] == tag then [] else [tags[0]]) + Without(tags[1..], tag)
  }

  /** addTagToReading and delTagFromReading, as far as tags_plain and tags_list (here rest) go. */
  function WithTag(tt: TagTable, r: Reading, tag: int): Reading {
    Reading(if tag in tt.special then r.plain else InsertTag(r.plain, tag), r.rest + [tag])
  }

  function WithoutTag(r: Reading, tag: int): Reading {
    Reading(Without(r.plain, tag), Without(r.rest, tag))
  }

  lemma {:induction false} WithoutAscending(tags: seq<int>, tag: int)
    requires Ascending(tags)
    ensures Ascending(Without(tags, tag))
    decreases |tags|
  {
    if tags != [] {
      WithoutAscending(tags[1..], tag);
      var rest := Without(tags[1..], tag);
      assert forall j :: 0 <= j < |rest| ==> tags[0] < rest[j] by {
        forall j | 0 <= j < |rest| ensures tags[0] < rest[j] { assert rest[j] in rest; }
      }
    }
  }

  const NO_TAGS := Reading([], [])

  /** The tags added one by one to an empty reading. */
  function Rebuilt(tt: TagTable, tags: seq<int>): (r: Reading)
    ensures r.rest == tags
    ensures forall x :: x in r.plain <==> x in tags && x !in tt.special
  {
    if tags == [] then NO_TAGS
    else
      var n := |tags| - 1;
      assert tags == tags[..n] + [tags[n]];
      WithTag(tt, Rebuilt(tt, tags[..n]), tags[n])
  }

  // ---- the over-approximation ----

  /** Set s must not be ruled out for r. */
  ghost predicate Needed(tt: TagTable, g: seq<SetDef>, r: Reading, s: nat)
    requires ValidGrammar(tt, g) && s < |g|
  {
    g[s].special || exists env :: Match(tt, g, env, r, s)
  }

  /** Deleting tags costs set s no bit. */
  ghost predicate Keeps(tt: TagTable, g: seq<SetDef>, s: nat)
    requires ValidGrammar(tt, g) && s < |g|
  {
    g[s].special || OnlyGains(tt, g, s)
  }

  /**
   Every set that matches r has its bit, and special sets have it in any case; perhaps only among the gaining sets.
   */
  ghost predicate Covered(tt: TagTable, g: seq<SetDef>, r: Reading, possible: set<nat>, gaining: bool)
    requires ValidGrammar(tt, g)
  {
    forall s: nat :: s < |g| && (gaining ==> Keeps(tt, g, s)) && Needed(tt, g, r, s) ==> s in possible
  }

  ghost predicate AllCovered(tt: TagTable, g: seq<SetDef>, rs: seq<Reading>, possible: set<nat>, gaining: bool)
    requires ValidGrammar(tt, g)
  {
    forall i :: 0 <= i < |rs| ==> Covered(tt, g, rs[i], possible, gaining)
  }

  /** The plain answer: some reading matches set s. */
  ghost predicate SomeMatches(tt: TagTable, g: seq<SetDef>, rs: seq<Reading>, env: Env, s: nat)
    requires ValidGrammar(tt, g) && s < |g|
  {
    exists i :: 0 <= i < |rs| && Match(tt, g, env, rs[i], s)
  }

  function Bits(byTag: map<int, set<nat>>, tag: int): set<nat> {
    if tag in byTag then byTag[tag] else {}
  }

  /** A new reading has no tags yet; only special sets can match it. */
  lemma EmptyCovered(tt: TagTable, g: seq<SetDef>, any: int, byTag: map<int, set<nat>>, possible: set<nat>,
                     gaining: bool)
    requires Indexable(tt, g) && IndexIs(tt, g, any, byTag) && Bits(byTag, any) <= possible
    ensures Covered(tt, g, NO_TAGS, possible, gaining)
  {
    forall s: nat | s < |g| && Needed(tt, g, NO_TAGS, s) ensures s in possible {
      if g[s].special {
        assert Under(tt, g, any, s, any) && Bit(byTag, any, s);
      } else {
        var env :| Match(tt, g, env, NO_TAGS, s);
        var tag := MatchNeedsTag(tt, g, any, env, NO_TAGS, s);
        assert false;
      }
    }
  }

  lemma AddingCovered(tt: TagTable, g: seq<SetDef>, any: int, byTag: map<int, set<nat>>, r: Reading, tag: int,
                      possible: set<nat>, gaining: bool)
    requires Indexable(tt, g) && IndexIs(tt, g, any, byTag) && Covered(tt, g, r, possible, gaining)
    ensures Covered(tt, g, WithTag(tt, r, tag), possible + Bits(byTag, tag), gaining)
  {
    var r' := WithTag(tt, r, tag);
    forall s: nat | s < |g| && (gaining ==> Keeps(tt, g, s)) && Needed(tt, g, r', s)
      ensures s in possible + Bits(byTag, tag)
    {
      if !g[s].special && !Under(tt, g, any, s, tag) {
        var env :| Match(tt, g, env, r', s);
        OtherTagsDoNotMatter(tt, g, any, env, r, r', tag, s);
      } else if !g[s].special {
        assert Bit(byTag, tag, s);
      }
      assert Needed(tt, g, r, s) || s in Bits(byTag, tag);
    }
  }

  /** Deleting a tag cannot make a set match that only gains from tags. */
  lemma DeletingCovered(tt: TagTable, g: seq<SetDef>, r: Reading, tag: int, possible: set<nat>)
    requires Indexable(tt, g) && Covered(tt, g, r, possible, true)
    ensures Covered(tt, g, WithoutTag(r, tag), possible, true)
  {
    var r' := WithoutTag(r, tag);
    forall s: nat | s < |g| && Keeps(tt, g, s) && Needed(tt, g, r', s) ensures s in possible {
      if !g[s].special {
        var env :| Match(tt, g, env, r', s);
        assert Fewer(r', r);
      }
      assert Needed(tt, g, r, s);
    }
  }

  // ---- which sets survive deletions ----

  /** Whatever the bits, if they do not rule s out for a reading, they do not once a tag is deleted from it. */
  ghost predicate SurvivesDeletion(tt: TagTable, g: seq<SetDef>, s: nat)
    requires ValidGrammar(tt, g) && s < |g|
  {
    forall r, tag, possible: set<nat> ::
      (Needed(tt, g, r, s) ==> s in possible) ==> Needed(tt, g, WithoutTag(r, tag), s) ==> s in possible
  }

  function WithoutTags(r: Reading, tags: seq<int>): Reading {
    if tags == [] then r else WithoutTag(WithoutTags(r, tags[..|tags| - 1]), tags[|tags| - 1])
  }

  lemma {:induction false} WithoutTagsAre(r: Reading, tags: seq<int>)
    ensures forall x :: x in WithoutTags(r, tags).plain <==> x in r.plain && x !in tags
    decreases |tags|
  {
    if tags != [] {
      var front := tags[..|tags| - 1];
      WithoutTagsAre(r, front);
      assert tags == front + [tags[|tags| - 1]];
    }
  }

  lemma {:induction false} DeletedMatch(tt: TagTable, g: seq<SetDef>, env: Env, r: Reading, tags: seq<int>, s: nat)
    requires Indexable(tt, g) && s < |g| && !g[s].special && SurvivesDeletion(tt, g, s)
    requires Match(tt, g, env, WithoutTags(r, tags), s)
    ensures Match(tt, g, env, r, s)
    decreases |tags|
  {
    if tags != [] {
      var front, tag := tags[..|tags| - 1], tags[|tags| - 1];
      var before := WithoutTags(r, front);
      var possible: set<nat> := if Needed(tt, g, before, s) then {s} else {};
      assert Needed(tt, g, WithoutTag(before, tag), s) ==> s in possible;
      var env' :| Match(tt, g, env', before, s);
      PlainSetsIgnoreEnv(tt, g, env, env', before, before, s);
      DeletedMatch(tt, g, env, r, front, s);
    }
  }

  /** The tags that are not among others. */
  function Missing(tags: seq<int>, others: seq<int>): (r: seq<int>)
    ensures forall x :: x in r <==> x in tags && x !in others
  {
    if tags == [] then [] else (if tags[0] in others then [] else [tags[0]]) + Missing(tags[1..], others)
  }

  /**
   The bit of a set survives every deletion if and only if the set is special or never stops matching when a
   reading gets more tags.
   */
  lemma SurvivesDeletionIff(tt: TagTable, g: seq<SetDef>, s: nat)
    requires Indexable(tt, g) && s < |g|
    ensures SurvivesDeletion(tt, g, s) <==> Keeps(tt, g, s)
  {
    if !g[s].special && SurvivesDeletion(tt, g, s) {
      forall env, r, r' | Fewer(r, r') && Match(tt, g, env, r, s) ensures Match(tt, g, env, r', s) {
        var tags := Missing(r'.plain, r.plain);
        WithoutTagsAre(r', tags);
        PlainSetsIgnoreEnv(tt, g, env, env, r, WithoutTags(r', tags), s);
        DeletedMatch(tt, g, env, r', tags, s);
      }
    }
    if Keeps(tt, g, s) {
      forall r, tag | Needed(tt, g, WithoutTag(r, tag), s) ensures Needed(tt, g, r, s) {
        if !g[s].special {
          var env :| Match(tt, g, env, WithoutTag(r, tag), s);
          assert Fewer(WithoutTag(r, tag), r);
        }
      }
    }
  }

  /** The bit of a set that is not special may be cleared when the set matches no reading now. */
  lemma ClearingCovered(tt: TagTable, g: seq<SetDef>, rs: seq<Reading>, env: Env, s: nat, possible: set<nat>,
                        gaining: bool)
    requires Indexable(tt, g) && AllCovered(tt, g, rs, possible, gaining)
    requires s < |g| && !g[s].special && forall i :: 0 <= i < |rs| ==> !Match(tt, g, env, rs[i], s)
    ensures AllCovered(tt, g, rs, possible - {s}, gaining)
  {
    forall i | 0 <= i < |rs| ensures Covered(tt, g, rs[i], possible - {s}, gaining) {
      forall env' ensures !Match(tt, g, env', rs[i], s) {
        PlainSetsIgnoreEnv(tt, g, env, env', rs[i], rs[i], s);
      }
      assert !Needed(tt, g, rs[i], s);
      assert Covered(tt, g, rs[i], possible, gaining);
    }
  }

  lemma RaisingCovered(tt: TagTable, g: seq<SetDef>, rs: seq<Reading>, possible: set<nat>, more: set<nat>,
                       gaining: bool)
    requires ValidGrammar(tt, g) && AllCovered(tt, g, rs, possible, gaining) && possible <= more
    ensures AllCovered(tt, g, rs, more, gaining)
  {
    forall i | 0 <= i < |rs| ensures Covered(tt, g, rs[i], more, gaining) {
      assert Covered(tt, g, rs[i], possible, gaining);
    }
  }

  // ---- cohorts ----

  class Cohort {
    const tt: TagTable
    const g: seq<SetDef>
    const any: int
    const byTag: map<int, set<nat>>
    var readings: seq<Reading>
    var possible: set<nat>

    ghost predicate Valid()
      reads this
    {
      && Indexable(tt, g) && IndexIs(tt, g, any, byTag)
      && forall i :: 0 <= i < |readings| ==> Ascending(readings[i].plain)
    }

    /** The over-approximation, for all sets or only for those that gain from tags. */
    ghost predicate Covers(gaining: bool)
      requires Valid()
      reads this
    {
      AllCovered(tt, g, readings, possible, gaining)
    }

    constructor (tt: TagTable, g: seq<SetDef>, any: int, byTag: map<int, set<nat>>)
      requires Indexable(tt, g) && IndexIs(tt, g, any, byTag)
      ensures this.tt == tt && this.g == g && this.any == any && this.byTag == byTag
      ensures Valid() && readings == [] && forall gaining :: Covers(gaining)
    {
      this.tt, this.g, this.any, this.byTag := tt, g, any, byTag;
      readings, possible := [], {};
    }

    /** A new reading, with sets_any raised as wherever a reading is made. */
    method AppendReading()
      requires Valid()
      modifies this
      ensures Valid() && readings == old(readings) + [NO_TAGS]
      ensures possible == old(possible) + Bits(byTag, any)
      ensures forall gaining :: old(Covers(gaining)) ==> Covers(gaining)
    {
      readings := readings + [NO_TAGS];
      possible := possible + Bits(byTag, any);
      forall gaining | old(Covers(gaining)) ensures Covers(gaining) {
        RaisingCovered(tt, g, old(readings), old(possible), possible, gaining);
        EmptyCovered(tt, g, any, byTag, possible, gaining);
      }
    }

    /** addTagToReading */
    method AddTag(i: nat, tag: int)
      requires Valid() && i < |readings|
      modifies this
      ensures Valid() && readings == old(readings)[i := WithTag(tt, old(readings[i]), tag)]
      ensures possible == old(possible) + Bits(byTag, tag)
      ensures forall gaining :: old(Covers(gaining)) ==> Covers(gaining)
    {
      var r := readings[i];
      InsertTagAscending(r.plain, tag);
      readings := readings[i := WithTag(tt, r, tag)];
      possible := possible + Bits(byTag, tag);
      forall gaining | old(Covers(gaining)) ensures Covers(gaining) {
        RaisingCovered(tt, g, old(readings), old(possible), possible, gaining);
        AddingCovered(tt, g, any, byTag, r, tag, old(possible), gaining);
      }
    }

    /** delTagFromReading touches no bit, so only the gaining sets stay covered. */
    method DelTag(i: nat, tag: int)
      requires Valid() && i < |readings|
      modifies this`readings
      ensures Valid() && readings == old(readings)[i := WithoutTag(old(readings[i]), tag)]
      ensures old(Covers(true)) ==> Covers(true)
    {
      var r := readings[i];
      WithoutAscending(r.plain, tag);
      readings := readings[i := WithoutTag(r, tag)];
      if old(Covers(true)) {
        DeletingCovered(tt, g, r, tag, possible);
      }
    }

    /** reflowReading: the tags are taken off and added again in the same order. */
    method Reflow(i: nat)
      requires Valid() && i < |readings|
      modifies this
      ensures Valid() && readings == old(readings)[i := Rebuilt(tt, old(readings[i].rest))]
      ensures old(possible) <= possible
      ensures forall gaining :: old(Covers(gaining)) ==> Covers(gaining)
    {
      var tags := readings[i].rest;
      ghost var was := readings;
      readings := readings[i := NO_TAGS];
      possible := possible + Bits(byTag, any);
      forall gaining | old(Covers(gaining)) ensures Covers(gaining) {
        RaisingCovered(tt, g, was, old(possible), possible, gaining);
        EmptyCovered(tt, g, any, byTag, possible, gaining);
      }
      for k := 0 to |tags|
        invariant Valid() && readings == was[i := Rebuilt(tt, tags[..k])] && old(possible) <= possible
        invariant forall gaining :: old(Covers(gaining)) ==> Covers(gaining)
      {
        assert tags[..k + 1][..k] == tags[..k];
        AddTag(i, tags[k]);
      }
      assert tags[..|tags|] == tags;
    }

    /**
     doesSetMatchCohortNormal: does set s match some reading? The bits are consulted, and cleared, only
     when the query comes from a contextual test.
     */
    method SetMatches(a: Applicator, s: nat, env: Env, context: bool) returns (matched: bool)
      requires Valid() && s < |g|
      requires a.tt == tt && a.g == g && a.Sound() && a.HashesIdentify()
      modifies this`possible, a
      ensures Valid() && a.Sound()
      ensures matched <==> (context ==> s in old(possible)) && SomeMatches(tt, g, readings, env, s)
      ensures possible == old(possible) - if context && !matched && !Bit(byTag, any, s) then {s} else {}
      ensures forall gaining :: old(Covers(gaining)) ==> Covers(gaining)
    {
      if context && s !in possible {
        return false;
      }
      for i := 0 to |readings|
        invariant Valid() && a.Sound() && possible == old(possible)
        invariant forall j :: 0 <= j < i ==> !Match(tt, g, env, readings[j], s)
      {
        matched := a.DoesSetMatchReading(readings[i], s, g[s].special, env);
        if matched {
          return;
        }
      }
      matched := false;
      assert g[s].special ==> Under(tt, g, any, s, any);
      if context && !Bit(byTag, any, s) {
        ghost var was := possible;
        possible := possible - {s};
        forall gaining | AllCovered(tt, g, readings, was, gaining) ensures Covers(gaining) {
          ClearingCovered(tt, g, readings, env, s, was, gaining);
        }
      }
    }
  }

  /** While the bits cover what they should, consulting them never changes an answer. */
  lemma ClearBitMeansNoMatch(tt: TagTable, g: seq<SetDef>, rs: seq<Reading>, env: Env, s: nat, possible: set<nat>,
                             gaining: bool)
    requires Indexable(tt, g) && s < |g| && AllCovered(tt, g, rs, possible, gaining) && (gaining ==> Keeps(tt, g, s))
    ensures s !in possible ==> !SomeMatches(tt, g, rs, env, s)
  {
    if s !in possible {
      forall i | 0 <= i < |rs| ensures !Match(tt, g, env, rs[i], s) {
        assert Covered(tt, g, rs[i], possible, gaining);
        assert !Needed(tt, g, rs[i], s);
      }
    }
  }

  // ---- A - B ----

  const PLAIN_TAGS := TagTable({0}, {}, map[], map[])
  const A := SetDef(false, false, [], Entry(1, true, Nil, Nil), Nil, [], [])
  const B := SetDef(false, false, [], Entry(2, true, Nil, Nil), Nil, [], [])
  const DIFFERENCE := [A, B, SetDef(false, false, [], Nil, Nil, [0, 1], [Minus])]

  lemma DifferenceMeans(env: Env, r: Reading)
    ensures Indexable(PLAIN_TAGS, DIFFERENCE)
    ensures Match(PLAIN_TAGS, DIFFERENCE, env, r, 2) <==> 1 in r.plain && 2 !in r.plain
  {
    var tt, g := PLAIN_TAGS, DIFFERENCE;
    assert Ordinary(tt)(1) && Ordinary(tt)(2);
    var hit := Hits(tt, env, r);
    assert hit(1) <==> 1 in r.plain;
    assert hit(2) <==> 2 in r.plain;
    assert !SomeFailfast(tt, env, r, []);
    var vals := Values(tt, g, env, r, 2);
    assert vals == [Match(tt, g, env, r, 0), Match(tt, g, env, r, 1)];
    DifferenceHolds(vals[0], vals[1]);
  }

  /**
   With - between sets, a deletion can undo the cover. Queried while a reading has both tags, A - B
   matches nothing and may lose its bit; after b is deleted it matches, and the bit is missing.
   */
  lemma DeletionUncovers(env: Env, possible: set<nat>)
    ensures var both := Reading([1, 2], [1, 2]);
            var left := WithoutTag(both, 2);
            && left == Reading([1], [1]) && Indexable(PLAIN_TAGS, DIFFERENCE)
            && !SomeMatches(PLAIN_TAGS, DIFFERENCE, [both], env, 2)
            && SomeMatches(PLAIN_TAGS, DIFFERENCE, [left], env, 2)
            && !AllCovered(PLAIN_TAGS, DIFFERENCE, [left], possible - {2}, false)
  {
    var both, left := Reading([1, 2], [1, 2]), Reading([1], [1]);
    assert Without([1, 2], 2) == [1] by { assert [1, 2][1..] == [2]; }
    DifferenceMeans(env, both);
    DifferenceMeans(env, left);
    var rs, s: nat := [left], 2;
    assert rs[0] == left && Needed(PLAIN_TAGS, DIFFERENCE, rs[0], s);
    assert !Covered(PLAIN_TAGS, DIFFERENCE, rs[0], possible - {s}, false);
  }
}
