/**
 Matching a reading against a set, with the per-set caches of earlier answers.

 Sets live in a list in which a set only refers to earlier ones, as addSetToList leaves it. Tags are
 identified with their hashes. What a special tag matches depends on an environment (variables, the
 current target and mark, text) that may change between calls; plain and failfast tags only look at
 the plain tags of the reading.
 */
module SetMatching {
  import opened TagTries
  import opened SetOperators

  /**
   What is known about tags: the special ones (T_SPECIAL), the (*) tags (T_ANY), and for each failfast
   tag the plain hash it looks for and the tag it is without its failfast mark.
   */
  datatype TagTable = TagTable(special: set<int>, any: set<int>, failfast: map<int, int>, stripped: map<int, int>)

  predicate ValidTable(tt: TagTable) {
    && (forall tag :: tag in tt.failfast ==>
          tag in tt.special && tag in tt.stripped && tt.stripped[tag] !in tt.failfast)
    && (forall tag :: tag in tt.any ==> tag in tt.special && tag !in tt.failfast)
  }

  /** plain is tags_plain, in hash order; rest stands for everything else a special tag can look at. */
  datatype Reading = Reading(plain: seq<int>, rest: seq<int>)

  type Env = (int, Reading) -> bool

  /** doesTagMatchReading */
  predicate TagMatches(tt: TagTable, env: Env, r: Reading, tag: int) {
    if tag !in tt.special || tag in tt.failfast then
      (if tag in tt.failfast then tt.failfast[tag] else tag) in r.plain
    else
      env(tag, r)
  }

  /** In a trie, a failfast tag never leads to a match. */
  predicate Hit(tt: TagTable, env: Env, r: Reading, tag: int) {
    TagMatches(tt, env, r, tag) && tag !in tt.failfast
  }

  function Hits(tt: TagTable, env: Env, r: Reading): int -> bool {
    tag => Hit(tt, env, r, tag)
  }

  function Ordinary(tt: TagTable): int -> bool {
    tag => tag !in tt.special
  }

  /** A LIST when sets is empty, otherwise a SET. */
  datatype SetDef = SetDef(any: bool, special: bool, ff: seq<int>, trie: Trie, trieSpecial: Trie,
                           sets: seq<nat>, ops: seq<Op>)

  predicate ValidDef(tt: TagTable, d: SetDef, below: nat) {
    && Sorted(d.trie) && Sorted(d.trieSpecial) && Every(d.trie, Ordinary(tt))
    && (forall i :: 0 <= i < |d.ff| ==> d.ff[i] in tt.failfast)
    && (forall i :: 0 <= i < |d.sets| ==> d.sets[i] < below)
    && (d.sets != [] ==> |d.ops| + 1 == |d.sets|)
  }

  predicate ValidGrammar(tt: TagTable, g: seq<SetDef>) {
    ValidTable(tt) && forall s :: 0 <= s < |g| ==> ValidDef(tt, g[s], s)
  }

  /** Some failfast tag of the list from i on matches. */
  predicate SomeFailfast(tt: TagTable, env: Env, r: Reading, ff: seq<int>) {
    ff != [] && (TagMatches(tt, env, r, ff[|ff| - 1]) || SomeFailfast(tt, env, r, ff[..|ff| - 1]))
  }

  /** A LIST: no failfast tag matches, and some stored tag list does. */
  predicate ListMatches(tt: TagTable, env: Env, r: Reading, d: SetDef) {
    && !SomeFailfast(tt, env, r, d.ff)
    && (TagTries.Matches(d.trie, Hits(tt, env, r)) || TagTries.Matches(d.trieSpecial, Hits(tt, env, r)))
  }

  /** The meaning of set s: what doesSetMatchReading computes when no cache is consulted. */
  predicate Match(tt: TagTable, g: seq<SetDef>, env: Env, r: Reading, s: nat)
    requires ValidGrammar(tt, g) && s < |g|
    decreases s, 1
  {
    if g[s].any then true
    else if g[s].sets == [] then ListMatches(tt, env, r, g[s])
    else Combine(Values(tt, g, env, r, s), g[s].ops)
  }

  function Values(tt: TagTable, g: seq<SetDef>, env: Env, r: Reading, s: nat): (v: seq<bool>)
    requires ValidGrammar(tt, g) && s < |g|
    ensures |v| == |g[s].sets|
    decreases s, 0
  {
    assert ValidDef(tt, g[s], s);
    seq(|g[s].sets|, i requires 0 <= i < |g[s].sets| => Match(tt, g, env, r, g[s].sets[i]))
  }

  // ---- what a match means ----

  /** The reading has the tag: among its plain tags, or as the environment says of a special one. */
  predicate InReading(tt: TagTable, env: Env, r: Reading, tag: int) {
    tag !in tt.failfast && if tag in tt.special then env(tag, r) else tag in r.plain
  }

  lemma HitIsInReading(tt: TagTable, env: Env, r: Reading, tag: int)
    requires ValidTable(tt)
    ensures Hits(tt, env, r)(tag) <==> InReading(tt, env, r, tag)
  {
  }

  lemma {:induction false} SomeFailfastIs(tt: TagTable, env: Env, r: Reading, ff: seq<int>)
    requires forall i :: 0 <= i < |ff| ==> ff[i] in tt.failfast
    ensures SomeFailfast(tt, env, r, ff) <==> exists i :: 0 <= i < |ff| && tt.failfast[ff[i]] in r.plain
    decreases |ff|
  {
    if ff != [] {
      var n := |ff| - 1;
      SomeFailfastIs(tt, env, r, ff[..n]);
      assert forall i :: 0 <= i < n ==> ff[..n][i] == ff[i];
    }
  }

  /**
   A LIST, by the tag lists it was made from: no failfast tag names a plain tag of the reading, and the reading has
   all tags of some list.
   */
  lemma ListMeans(tt: TagTable, g: seq<SetDef>, env: Env, r: Reading, s: nat, plain: seq<seq<int>>,
                  special: seq<seq<int>>)
    requires ValidGrammar(tt, g) && s < |g| && g[s].sets == [] && !g[s].any
    requires (forall i :: 0 <= i < |plain| ==> plain[i] != []) && forall i :: 0 <= i < |special| ==> special[i] != []
    requires g[s].trie == InsertAll(plain) && g[s].trieSpecial == InsertAll(special)
    ensures forall i :: 0 <= i < |g[s].ff| ==> g[s].ff[i] in tt.failfast
    ensures Match(tt, g, env, r, s) <==>
              && (forall i :: 0 <= i < |g[s].ff| ==> tt.failfast[g[s].ff[i]] !in r.plain)
              && ((exists i :: 0 <= i < |plain| && HasAll(tt, env, r, plain[i]))
                  || exists i :: 0 <= i < |special| && HasAll(tt, env, r, special[i]))
  {
    assert ValidDef(tt, g[s], s);
    SomeFailfastIs(tt, env, r, g[s].ff);
    TrieMeans(tt, env, r, plain);
    TrieMeans(tt, env, r, special);
  }

  lemma TrieMeans(tt: TagTable, env: Env, r: Reading, lists: seq<seq<int>>)
    requires ValidTable(tt) && forall i :: 0 <= i < |lists| ==> lists[i] != []
    ensures TagTries.Matches(InsertAll(lists), Hits(tt, env, r)) <==>
              exists i :: 0 <= i < |lists| && HasAll(tt, env, r, lists[i])
  {
    var hit := Hits(tt, env, r);
    BuiltTrieMatches(lists, hit);
    forall i | 0 <= i < |lists| ensures EachHit(lists[i], hit) <==> HasAll(tt, env, r, lists[i]) {
      forall j | 0 <= j < |lists[i]| ensures hit(lists[i][j]) <==> InReading(tt, env, r, lists[i][j]) {
        HitIsInReading(tt, env, r, lists[i][j]);
      }
    }
  }

  predicate HasAll(tt: TagTable, env: Env, r: Reading, list: seq<int>) {
    forall i :: 0 <= i < |list| ==> InReading(tt, env, r, list[i])
  }

  /** A SET, by what its operands mean: some group of them decides for it. */
  lemma SetMeans(tt: TagTable, g: seq<SetDef>, env: Env, r: Reading, s: nat, vals: seq<bool>)
    requires ValidGrammar(tt, g) && s < |g| && g[s].sets != [] && |vals| == |g[s].sets|
    requires forall i :: 0 <= i < |vals| ==> g[s].sets[i] < |g| && vals[i] == Match(tt, g, env, r, g[s].sets[i])
    ensures |g[s].ops| + 1 == |vals|
    ensures Match(tt, g, env, r, s) <==> g[s].any || exists i: nat, e, k :: Decides(vals, g[s].ops, i, e, k)
  {
    assert ValidDef(tt, g[s], s);
    assert vals == Values(tt, g, env, r, s);
    CombineIs(vals, g[s].ops);
  }

  /** Set x is set s or one that s uses, directly or not. */
  ghost predicate Uses(tt: TagTable, g: seq<SetDef>, s: nat, x: nat)
    requires ValidGrammar(tt, g) && s < |g|
    ensures Uses(tt, g, s, x) ==> x < |g|
    decreases s
  {
    assert ValidDef(tt, g[s], s);
    s == x || exists i :: 0 <= i < |g[s].sets| && Uses(tt, g, g[s].sets[i], x)
  }

  // ---- special sets ----

  /** SPECIAL is raised on every set with a special tag in a trie, and passed on to the sets using it. */
  predicate FlagsClosed(tt: TagTable, g: seq<SetDef>) {
    forall s :: 0 <= s < |g| && !g[s].special ==> PlainDef(tt, g, g[s])
  }

  predicate PlainDef(tt: TagTable, g: seq<SetDef>, d: SetDef) {
    && Every(d.trie, Ordinary(tt)) && Every(d.trieSpecial, Ordinary(tt))
    && forall i :: 0 <= i < |d.sets| ==> d.sets[i] < |g| && !g[d.sets[i]].special
  }

  /** The same plain tags. */
  ghost predicate SameTags(r: Reading, r': Reading) {
    forall x :: x in r.plain <==> x in r'.plain
  }

  lemma {:induction false} SomeFailfastIsPlain(tt: TagTable, env: Env, env': Env, r: Reading, r': Reading, ff: seq<int>)
    requires SameTags(r, r') && forall i :: 0 <= i < |ff| ==> ff[i] in tt.failfast
    ensures SomeFailfast(tt, env, r, ff) == SomeFailfast(tt, env', r', ff)
    decreases |ff|
  {
    if ff != [] { SomeFailfastIsPlain(tt, env, env', r, r', ff[..|ff| - 1]); }
  }

  /** A set that is not special gives the same answer in every environment and on equal plain tags. */
  lemma {:induction false} PlainSetsIgnoreEnv(tt: TagTable, g: seq<SetDef>, env: Env, env': Env, r: Reading,
                                              r': Reading, s: nat)
    requires ValidGrammar(tt, g) && FlagsClosed(tt, g) && s < |g| && !g[s].special && SameTags(r, r')
    ensures Match(tt, g, env, r, s) == Match(tt, g, env', r', s)
    decreases s
  {
    var d := g[s];
    assert ValidDef(tt, d, s) && PlainDef(tt, g, d);
    if !d.any {
      if d.sets == [] {
        SomeFailfastIsPlain(tt, env, env', r, r', d.ff);
        MatchesAgree(d.trie, Ordinary(tt), Hits(tt, env, r), Hits(tt, env', r'));
        MatchesAgree(d.trieSpecial, Ordinary(tt), Hits(tt, env, r), Hits(tt, env', r'));
      } else {
        forall i | 0 <= i < |d.sets|
          ensures Values(tt, g, env, r, s)[i] == Values(tt, g, env', r', s)[i]
        {
          PlainSetsIgnoreEnv(tt, g, env, env', r, r', d.sets[i]);
        }
        assert Values(tt, g, env, r, s) == Values(tt, g, env', r', s);
      }
    }
  }

  lemma {:induction false} OrdinaryTopKeys(tt: TagTable, env: Env, r: Reading, t: Trie)
    requires ValidTable(tt) && Every(t, Ordinary(tt))
    ensures TopKeysAre(t, r.plain, Hits(tt, env, r))
    decreases t
  {
    if t.Entry? {
      assert Ordinary(tt)(t.tag);
      OrdinaryTopKeys(tt, env, r, t.next);
    }
  }

  // ---- the matcher ----

  datatype Query = Query(reading: Reading, set_: nat, env: Env)

  class Applicator {
    const tt: TagTable
    const g: seq<SetDef>
    const hashOf: Reading -> int
    /** index_readingSet_yes and index_readingSet_no */
    var yes: seq<set<int>>
    var no: seq<set<int>>

    constructor (tt: TagTable, g: seq<SetDef>, hashOf: Reading -> int)
      requires ValidGrammar(tt, g) && FlagsClosed(tt, g)
      ensures this.tt == tt && this.g == g && this.hashOf == hashOf
      ensures Indexed()
      ensures Sound()
    {
      this.tt := tt;
      this.g := g;
      this.hashOf := hashOf;
      yes := seq(|g|, _ => {});
      no := seq(|g|, _ => {});
    }

    ghost predicate Indexed()
      reads this
    {
      ValidGrammar(tt, g) && FlagsClosed(tt, g) && |yes| == |g| && |no| == |g|
    }

    /** Reading hashes are taken to tell plain tags apart. */
    ghost predicate HashesIdentify() {
      forall r, r' :: hashOf(r) == hashOf(r') ==> r.plain == r'.plain
    }

    ghost predicate Truthful(s: nat, r: Reading, env: Env)
      reads this
      requires Indexed() && s < |g|
    {
      && (hashOf(r) in yes[s] ==> Match(tt, g, env, r, s))
      && (hashOf(r) in no[s] ==> !Match(tt, g, env, r, s))
    }

    /** What is cached about a set that is not special is true of every reading with that hash, in every environment. */
    ghost predicate Sound()
      reads this
    {
      Indexed() && forall s: nat, r, env :: s < |g| && !g[s].special ==> Truthful(s, r, env)
    }

    /** resetIndexes */
    method ResetIndexes()
      requires Indexed()
      modifies this
      ensures Indexed() && Sound()
    {
      yes := seq(|g|, _ => {});
      no := seq(|g|, _ => {});
    }

    /** doesSetMatchReading_tags */
    method DoesSetMatchReadingTags(r: Reading, d: SetDef, env: Env) returns (result: bool)
      requires ValidTable(tt) && ValidDef(tt, d, |g|) && Ascending(r.plain)
      ensures result == ListMatches(tt, env, r, d)
    {
      result := false;
      for i := 0 to |d.ff|
        invariant !SomeFailfast(tt, env, r, d.ff[..i])
      {
        assert d.ff[..i + 1][..i] == d.ff[..i];
        if TagMatches(tt, env, r, d.ff[i]) {
          SomeFailfastGrows(tt, env, r, d.ff, i + 1);
          return;
        }
      }
      assert d.ff[..|d.ff|] == d.ff;
      if d.trie.Entry? && r.plain != [] {
        OrdinaryTopKeys(tt, env, r, d.trie);
        result := MergeJoin(d.trie, r.plain, Hits(tt, env, r));
      } else {
        OrdinaryTopKeys(tt, env, r, d.trie);
        NothingLeft(d.trie, r.plain, Hits(tt, env, r));
      }
      if !result && d.trieSpecial.Entry? {
        result := TagTries.Matches(d.trieSpecial, Hits(tt, env, r));
      }
    }

    /**
     doesSetMatchReading: consults the caches unless told to bypass them, works out the answer
     otherwise, and always records it. Callers bypass the caches for special sets.
     */
    method DoesSetMatchReading(r: Reading, s: nat, bypass: bool, env: Env) returns (result: bool)
      requires Sound() && HashesIdentify() && s < |g| && Ascending(r.plain)
      requires g[s].special ==> bypass
      modifies this
      ensures Sound()
      ensures result == Match(tt, g, env, r, s)
      ensures if result then hashOf(r) in yes[s] else hashOf(r) in no[s]
      decreases s, 1
    {
      if !bypass {
        assert Truthful(s, r, env);
        if hashOf(r) in no[s] {
          return false;
        }
        if hashOf(r) in yes[s] {
          return true;
        }
      }
      var d := g[s];
      assert ValidDef(tt, d, s);
      if d.any {
        result := true;
      } else if d.sets == [] {
        result := DoesSetMatchReadingTags(r, d, env);
      } else {
        result := CombineSets(r, s, bypass, env);
      }
      Record(r, s, env, result);
    }

    /** The operator loop over the operands of a SET. */
    method CombineSets(r: Reading, s: nat, bypass: bool, env: Env) returns (result: bool)
      requires Sound() && HashesIdentify() && s < |g| && Ascending(r.plain) && g[s].sets != []
      requires g[s].special ==> bypass
      modifies this
      ensures Sound()
      ensures result == Combine(Values(tt, g, env, r, s), g[s].ops)
      decreases s, 0
    {
      ghost var vals, ops := Values(tt, g, env, r, s), g[s].ops;
      var size := |g[s].sets|;
      assert ValidDef(tt, g[s], s);
      var i := 0;
      result := false;
      while i < size
        invariant i <= size && Sound()
        invariant Combine(vals, ops) == CombineFrom(vals, ops, i)
      {
        ghost var start := i;
        var value, failfast;
        i, value, failfast := CombineGroup(r, s, i, bypass, env);
        GroupEndIs(ops, start, i);
        if value {
          return true;
        }
        if failfast {
          return false;
        }
        i := i + 1;
      }
    }

    /** The inner loop: one group, up to the next OR. */
    method CombineGroup(r: Reading, s: nat, start: nat, bypass: bool, env: Env)
        returns (i: nat, value: bool, failfast: bool)
      requires Sound() && HashesIdentify() && s < |g| && Ascending(r.plain) && start < |g[s].sets|
      requires g[s].special ==> bypass
      modifies this
      ensures Sound()
      ensures start <= i < |g[s].sets| && |g[s].ops| + 1 == |g[s].sets|
      ensures forall k :: start <= k < i ==> g[s].ops[k] != Or
      ensures i < |g[s].ops| ==> g[s].ops[i] == Or
      ensures Outcome(value, failfast) == Fold(Values(tt, g, env, r, s), g[s].ops, start, i)
      decreases s, 0, 1
    {
      ghost var vals, ops := Values(tt, g, env, r, s), g[s].ops;
      assert ValidDef(tt, g[s], s);
      var size := |g[s].sets|;
      i := start;
      value := MatchOperand(r, s, i, bypass, env);
      failfast := false;
      while i < size - 1 && g[s].ops[i] != Or
        invariant start <= i < size && Sound()
        invariant Outcome(value, failfast) == Fold(vals, ops, start, i)
        invariant forall k :: start <= k < i ==> ops[k] != Or
      {
        value, failfast := ApplyOperator(r, s, i, value, failfast, bypass, env);
        i := i + 1;
      }
    }

    method MatchOperand(r: Reading, s: nat, i: nat, bypass: bool, env: Env) returns (result: bool)
      requires Sound() && HashesIdentify() && s < |g| && Ascending(r.plain) && i < |g[s].sets|
      requires g[s].special ==> bypass
      modifies this
      ensures Sound()
      ensures result == Values(tt, g, env, r, s)[i]
      decreases s, 0, 0, 0
    {
      assert ValidDef(tt, g[s], s) && (!g[s].special ==> PlainDef(tt, g, g[s]));
      result := DoesSetMatchReading(r, g[s].sets[i], bypass, env);
    }

    /** One operator: the next operand is only looked at when it can make a difference. */
    method ApplyOperator(r: Reading, s: nat, i: nat, value: bool, failfast: bool, bypass: bool, env: Env)
        returns (value': bool, failfast': bool)
      requires Sound() && HashesIdentify() && s < |g| && Ascending(r.plain)
      requires i + 1 < |g[s].sets| && |g[s].ops| + 1 == |g[s].sets|
      requires g[s].special ==> bypass
      modifies this
      ensures Sound()
      ensures Outcome(value', failfast') ==
              Apply(Outcome(value, failfast), g[s].ops[i], Values(tt, g, env, r, s)[i + 1])
      decreases s, 0, 0
    {
      value', failfast' := value, failfast;
      match g[s].ops[i] {
        case Plus =>
          if value {
            value' := MatchOperand(r, s, i + 1, bypass, env);
          }
        case Failfast =>
          var operand := MatchOperand(r, s, i + 1, bypass, env);
          if operand {
            value' := false;
            failfast' := true;
          }
        case Minus =>
          if value {
            var operand := MatchOperand(r, s, i + 1, bypass, env);
            if operand {
              value' := false;
            }
          }
        case Not =>
          if !value {
            var operand := MatchOperand(r, s, i + 1, bypass, env);
            if !operand {
              value' := true;
            }
          }
        case Or =>
      }
    }

    /** Stores an answer in the yes or the no cache. */
    method Record(r: Reading, s: nat, env: Env, result: bool)
      requires Sound() && HashesIdentify() && s < |g|
      requires result == Match(tt, g, env, r, s)
      modifies this
      ensures Sound()
      ensures if result then hashOf(r) in yes[s] else hashOf(r) in no[s]
    {
      ghost var h := hashOf(r);
      if !g[s].special {
        forall r', env' | hashOf(r') == h
          ensures Match(tt, g, env', r', s) == result
        {
          PlainSetsIgnoreEnv(tt, g, env, env', r, r', s);
        }
      }
      if result {
        yes := yes[s := yes[s] + {hashOf(r)}];
      } else {
        no := no[s := no[s] + {hashOf(r)}];
      }
      forall s': nat, r', env' | s' < |g| && !g[s'].special
        ensures Truthful(s', r', env')
      {
        assert old(Truthful(s', r', env'));
      }
    }
  }

  lemma SomeFailfastGrows(tt: TagTable, env: Env, r: Reading, ff: seq<int>, i: nat)
    requires i <= |ff| && SomeFailfast(tt, env, r, ff[..i])
    ensures SomeFailfast(tt, env, r, ff)
    decreases |ff| - i
  {
    if i < |ff| {
      assert ff[..i + 1][..i] == ff[..i];
      SomeFailfastGrows(tt, env, r, ff, i + 1);
    } else {
      assert ff[..i] == ff;
    }
  }

  lemma GroupEndIs(ops: seq<Op>, i: nat, e: nat)
    requires i <= e <= |ops| && (forall k :: i <= k < e ==> ops[k] != Or) && (e < |ops| ==> ops[e] == Or)
    ensures GroupEnd(ops, i) == e
  {
  }

  /**
   Any run of queries, each about a reading in whatever state edits have left it and in whatever
   environment holds at the time, with the caches reset at any point: every answer is the meaning.
   */
  method Run(a: Applicator, queries: seq<Query>, resets: set<nat>) returns (answers: seq<bool>)
    requires a.Sound() && a.HashesIdentify()
    requires forall i :: 0 <= i < |queries| ==> queries[i].set_ < |a.g| && Ascending(queries[i].reading.plain)
    modifies a
    ensures |answers| == |queries|
    ensures forall i :: 0 <= i < |queries| ==>
              answers[i] == Match(a.tt, a.g, queries[i].env, queries[i].reading, queries[i].set_)
  {
    answers := [];
    for i := 0 to |queries|
      invariant a.Sound() && |answers| == i
      invariant forall j :: 0 <= j < i ==>
              answers[j] == Match(a.tt, a.g, queries[j].env, queries[j].reading, queries[j].set_)
    {
      if i in resets {
        a.ResetIndexes();
      }
      var q := queries[i];
      var answer := a.DoesSetMatchReading(q.reading, q.set_, a.g[q.set_].special, q.env);
      answers := answers + [answer];
    }
  }

  /** Why special sets are bypassed: the answer for one reading can change with the environment. */
  lemma SpecialAnswersDependOnEnv(r: Reading)
    ensures var tt := TagTable({7}, {}, map[], map[]);
            var g := [SetDef(false, true, [], Nil, Entry(7, true, Nil, Nil), [], [])];
            && ValidGrammar(tt, g) && FlagsClosed(tt, g)
            && Match(tt, g, (_, _) => true, r, 0) && !Match(tt, g, (_, _) => false, r, 0)
  {
    var tt := TagTable({7}, {}, map[], map[]);
    var t := Entry(7, true, Nil, Nil);
    var e0: Env, e1: Env := (_, _) => true, (_, _) => false;
    assert Hits(tt, e0, r)(7) && !Hits(tt, e1, r)(7);
    assert TagTries.Matches(t, Hits(tt, e0, r));
  }
}
