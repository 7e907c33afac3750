/**
 Tag tries: a LIST set stores its tag lists as a trie whose levels are maps sorted by tag hash.
 Tags are identified with their hashes.
 */
module TagTries {

  /** One level of a trie, in key order: a tag, its node (terminal, sub), and the entries after it. */
  datatype Trie = Nil | Entry(tag: int, terminal: bool, sub: Trie, next: Trie)

  /** size(): the number of entries on the top level. */
  function Width(t: Trie): nat {
    if t.Nil? then 0 else 1 + Width(t.next)
  }

  /** The tag is at some node. */
  predicate Stores(t: Trie, tag: int) {
    t.Entry? && (t.tag == tag || Stores(t.sub, tag) || Stores(t.next, tag))
  }

  /** Keys ascend on every level. */
  predicate Sorted(t: Trie) {
    t.Entry? ==> Sorted(t.sub) && Sorted(t.next) && (t.next.Entry? ==> t.tag < t.next.tag)
  }

  function Path(tv: seq<int>): (t: Trie)
    requires tv != []
    ensures t.Entry? && t.tag == tv[0] && t.next.Nil?
  {
    if |tv| == 1 then Entry(tv[0], true, Nil, Nil) else Entry(tv[0], false, Path(tv[1..]), Nil)
  }

  /** trie_insert: the new trie, and whether the list was new. */
  function Insert(t: Trie, tv: seq<int>): (r: (Trie, bool))
    requires tv != []
    decreases |tv|, t
  {
    if t.Nil? then (Path(tv), true)
    else if tv[0] < t.tag then (var p := Path(tv); Entry(p.tag, p.terminal, p.sub, t), true)
    else if tv[0] > t.tag then
      var (next, added) := Insert(t.next, tv);
      (t.(next := next), added)
    else if t.terminal then (t, false)
    else if |tv| == 1 then (Entry(t.tag, true, Nil, t.next), true)
    else
      var (sub, added) := Insert(t.sub, tv[1..]);
      (t.(sub := sub), added)
  }

  /** doesSetMatchReading_trie, where hit says which tags count as matched. */
  predicate Matches(t: Trie, hit: int -> bool) {
    t.Entry? && ((hit(t.tag) && (t.terminal || Matches(t.sub, hit))) || Matches(t.next, hit))
  }

  predicate AllHit(tv: seq<int>, hit: int -> bool) {
    tv == [] || (hit(tv[0]) && AllHit(tv[1..], hit))
  }

  lemma AllHitMeansEach(tv: seq<int>, hit: int -> bool)
    ensures AllHit(tv, hit) <==> forall i :: 0 <= i < |tv| ==> hit(tv[i])
  {
    if tv != [] {
      AllHitMeansEach(tv[1..], hit);
      assert forall i :: 0 < i < |tv| ==> tv[i] == tv[1..][i - 1];
    }
  }

  lemma {:induction false} PathMatches(tv: seq<int>, hit: int -> bool)
    requires tv != []
    ensures Matches(Path(tv), hit) <==> AllHit(tv, hit)
    decreases |tv|
  {
    if |tv| > 1 { PathMatches(tv[1..], hit); }
  }

  /** Inserting a list adds exactly the readings that have all its tags. */
  lemma {:induction false} InsertMatches(t: Trie, tv: seq<int>, hit: int -> bool)
    requires tv != []
    ensures Matches(Insert(t, tv).0, hit) <==> Matches(t, hit) || AllHit(tv, hit)
    decreases |tv|, t
  {
    PathMatches(tv, hit);
    if t.Entry? {
      if tv[0] > t.tag {
        InsertMatches(t.next, tv, hit);
      } else if tv[0] == t.tag && !t.terminal && |tv| > 1 {
        InsertMatches(t.sub, tv[1..], hit);
      }
    }
  }

  lemma {:induction false} PathSorted(tv: seq<int>)
    requires tv != []
    ensures Sorted(Path(tv))
    decreases |tv|
  {
    if |tv| > 1 { PathSorted(tv[1..]); }
  }

  lemma {:induction false} InsertSorted(t: Trie, tv: seq<int>)
    requires tv != [] && Sorted(t)
    ensures Sorted(Insert(t, tv).0)
    ensures Insert(t, tv).0.Entry? && Insert(t, tv).0.tag == if t.Nil? || tv[0] < t.tag then tv[0] else t.tag
    decreases |tv|, t
  {
    PathSorted(tv);
    if t.Entry? {
      if tv[0] > t.tag {
        InsertSorted(t.next, tv);
      } else if tv[0] == t.tag && !t.terminal && |tv| > 1 {
        InsertSorted(t.sub, tv[1..]);
      }
    }
  }

  function InsertAll(lists: seq<seq<int>>): Trie
    requires forall i :: 0 <= i < |lists| ==> lists[i] != []
  {
    if lists == [] then Nil else Insert(InsertAll(lists[..|lists| - 1]), lists[|lists| - 1]).0
  }

  predicate EachHit(tv: seq<int>, hit: int -> bool) {
    forall j :: 0 <= j < |tv| ==> hit(tv[j])
  }

  ghost predicate SomeListHit(lists: seq<seq<int>>, hit: int -> bool) {
    exists i :: 0 <= i < |lists| && EachHit(lists[i], hit)
  }

  /**
   A trie built by any sequence of insertions matches exactly when some inserted list has all its
   tags matched, whatever the order of the insertions and of the tags in each list.
   */
  lemma {:induction false} BuiltTrieMatches(lists: seq<seq<int>>, hit: int -> bool)
    requires forall i :: 0 <= i < |lists| ==> lists[i] != []
    ensures Matches(InsertAll(lists), hit) <==> SomeListHit(lists, hit)
    decreases |lists|
  {
    if lists != [] {
      var front, last := lists[..|lists| - 1], lists[|lists| - 1];
      BuiltTrieMatches(front, hit);
      InsertMatches(InsertAll(front), last, hit);
      AllHitMeansEach(last, hit);
      assert lists == front + [last];
      assert SomeListHit(front, hit) ==> SomeListHit(lists, hit) by {
        if SomeListHit(front, hit) {
          var i :| 0 <= i < |front| && EachHit(front[i], hit);
          assert lists[i] == front[i];
        }
      }
      assert SomeListHit(lists, hit) && !EachHit(last, hit) ==> SomeListHit(front, hit) by {
        if SomeListHit(lists, hit) && !EachHit(last, hit) {
          var i :| 0 <= i < |lists| && EachHit(lists[i], hit);
          assert lists[i] == front[i];
        }
      }
      assert EachHit(last, hit) ==> SomeListHit(lists, hit) by {
        assert lists[|lists| - 1] == last;
      }
    }
  }

  /** Some terminal node already stands on the way of tv, at its end or before. */
  predicate HasTerminalOn(t: Trie, tv: seq<int>)
    decreases |tv|, t
  {
    t.Entry? && tv != [] &&
    if t.tag == tv[0] then t.terminal || HasTerminalOn(t.sub, tv[1..]) else HasTerminalOn(t.next, tv)
  }

  /** trie_insert returns false, and changes nothing, exactly when a list already stored subsumes tv. */
  lemma {:induction false} InsertReportsNew(t: Trie, tv: seq<int>)
    requires tv != [] && Sorted(t)
    ensures Insert(t, tv).1 <==> !HasTerminalOn(t, tv)
    ensures !Insert(t, tv).1 ==> Insert(t, tv).0 == t
    ensures TerminalsAreLeaves(t) ==> TerminalsAreLeaves(Insert(t, tv).0)
    decreases |tv|, t
  {
    PathLeaves(tv);
    if t.Entry? {
      if tv[0] < t.tag {
        NotOnLaterKeys(t, tv);
      } else if tv[0] > t.tag {
        InsertReportsNew(t.next, tv);
      } else if !t.terminal && |tv| > 1 {
        InsertReportsNew(t.sub, tv[1..]);
      }
    }
  }

  lemma {:induction false} NotOnLaterKeys(t: Trie, tv: seq<int>)
    requires tv != [] && Sorted(t) && t.Entry? && tv[0] < t.tag
    ensures !HasTerminalOn(t, tv)
    decreases t
  {
    if t.next.Entry? { NotOnLaterKeys(t.next, tv); }
  }

  lemma {:induction false} PathLeaves(tv: seq<int>)
    requires tv != []
    ensures TerminalsAreLeaves(Path(tv))
    decreases |tv|
  {
    if |tv| > 1 { PathLeaves(tv[1..]); }
  }

  // ---- tags of a trie ----

  /** Every tag stored anywhere in the trie satisfies p. */
  predicate Every(t: Trie, p: int -> bool) {
    t.Entry? ==> p(t.tag) && Every(t.sub, p) && Every(t.next, p)
  }

  lemma {:induction false} MatchesAgree(t: Trie, p: int -> bool, hit: int -> bool, hit': int -> bool)
    requires Every(t, p) && forall tag :: p(tag) ==> hit(tag) == hit'(tag)
    ensures Matches(t, hit) == Matches(t, hit')
    decreases t
  {
    if t.Entry? {
      MatchesAgree(t.sub, p, hit, hit');
      MatchesAgree(t.next, p, hit, hit');
    }
  }

  /** trie_singular: the trie is one path down to a terminal node. */
  predicate Singular(t: Trie) {
    t.Entry? && t.next.Nil? && (t.terminal || (t.sub.Entry? && Singular(t.sub)))
  }

  /** trie_getTagList: every tag in key order, each level before what hangs below the next key. */
  function TagList(t: Trie): (r: seq<int>)
    ensures t.Entry? ==> r != []
  {
    if t.Nil? then [] else [t.tag] + TagList(t.sub) + TagList(t.next)
  }

  /** The tags down to the first terminal node: what a singular trie stands for. */
  function TerminalPath(t: Trie): seq<int>
    requires Singular(t)
  {
    if t.terminal then [t.tag] else [t.tag] + TerminalPath(t.sub)
  }

  /** No terminal node has anything below it. */
  predicate TerminalsAreLeaves(t: Trie) {
    t.Entry? ==> (t.terminal ==> t.sub.Nil?) && TerminalsAreLeaves(t.sub) && TerminalsAreLeaves(t.next)
  }

  lemma {:induction false} SingularMatches(t: Trie, hit: int -> bool)
    requires Singular(t)
    ensures Matches(t, hit) <==> AllHit(TerminalPath(t), hit)
    decreases t
  {
    if !t.terminal {
      SingularMatches(t.sub, hit);
      assert TerminalPath(t)[1..] == TerminalPath(t.sub);
    }
  }

  /** The tag list of a singular trie is its path exactly when the path's end has nothing below it. */
  lemma {:induction false} TagListIsPath(t: Trie)
    requires Singular(t)
    ensures TagList(t) == TerminalPath(t) <==> TerminalsAreLeaves(t)
    decreases t
  {
    assert TagList(t) == [t.tag] + TagList(t.sub);
    if t.terminal {
      assert t.sub.Entry? ==> |TagList(t.sub)| > 0;
    } else {
      TagListIsPath(t.sub);
      assert TagList(t)[1..] == TagList(t.sub) && TerminalPath(t)[1..] == TerminalPath(t.sub);
    }
  }

  // ---- the merge-join of doesSetMatchReading_tags ----

  predicate Ascending(tags: seq<int>) {
    forall i, j :: 0 <= i < j < |tags| ==> tags[i] < tags[j]
  }

  /** The keys of the top level are matched exactly when they occur among the tags. */
  predicate TopKeysAre(t: Trie, tags: seq<int>, hit: int -> bool) {
    t.Entry? ==> (hit(t.tag) <==> t.tag in tags) && TopKeysAre(t.next, tags, hit)
  }

  /** flat_map::lower_bound: the entries from the first key not below tag. */
  function LowerBound(t: Trie, tag: int): Trie {
    if t.Entry? && t.tag < tag then LowerBound(t.next, tag) else t
  }

  /** sorted_vector::lower_bound: the index of the first tag not below tag. */
  function LowerBoundIndex(tags: seq<int>, tag: int): (i: nat)
    ensures i <= |tags|
    ensures i > 0 ==> tags[i - 1] < tag
    ensures i < |tags| ==> tag <= tags[i]
  {
    if tags == [] || tag <= tags[0] then 0 else 1 + LowerBoundIndex(tags[1..], tag)
  }

  function Size(t: Trie): nat {
    if t.Nil? then 0 else 1 + Size(t.next)
  }

  /** it is a suffix of the level, and what is left of it can only match tags from o on. */
  ghost predicate Pending(t: Trie, it: Trie, tags: seq<int>, o: nat, hit: int -> bool) {
    && o <= |tags| && Sorted(it) && TopKeysAre(it, tags, hit)
    && Matches(t, hit) == Matches(it, hit)
    && (o > 0 && it.Entry? ==> tags[o - 1] < it.tag)
  }

  lemma PendingNext(t: Trie, it: Trie, tags: seq<int>, o: nat, hit: int -> bool)
    requires it.Entry? && Pending(t, it, tags, o, hit) && !(hit(it.tag) && (it.terminal || Matches(it.sub, hit)))
    ensures Pending(t, it.next, tags, o, hit)
  {
  }

  lemma {:induction false} SkipBelow(t: Trie, tags: seq<int>, hit: int -> bool)
    requires Sorted(t) && Ascending(tags) && tags != [] && TopKeysAre(t, tags, hit)
    ensures var it := LowerBound(t, tags[0]);
            && Sorted(it) && TopKeysAre(it, tags, hit) && Matches(t, hit) == Matches(it, hit)
            && (it.Entry? ==> t.Entry? && t.tag <= it.tag)
    decreases t
  {
    if t.Entry? && t.tag < tags[0] { SkipBelow(t.next, tags, hit); }
  }

  /** Once the tags are used up, nothing that is left of the level matches. */
  lemma {:induction false} NothingLeft(it: Trie, tags: seq<int>, hit: int -> bool)
    requires Sorted(it) && Ascending(tags) && TopKeysAre(it, tags, hit)
    requires it.Entry? && tags != [] ==> tags[|tags| - 1] < it.tag
    ensures !Matches(it, hit)
    decreases it
  {
    if it.Entry? { NothingLeft(it.next, tags, hit); }
  }

  /**
   The merge-join of a reading's sorted plain tags with the top level of a trie of plain tags.
   It terminates and decides Matches.
   */
  method MergeJoin(t: Trie, tags: seq<int>, hit: int -> bool) returns (found: bool)
    requires Sorted(t) && Ascending(tags) && TopKeysAre(t, tags, hit)
    ensures found == Matches(t, hit)
  {
    found := false;
    if t.Nil? {
      return;
    }
    if tags == [] {
      NothingLeft(t, tags, hit);
      return;
    }
    var it := LowerBound(t, tags[0]);
    var o: nat := LowerBoundIndex(tags, t.tag);
    SkipBelow(t, tags, hit);
    while o < |tags| && it.Entry?
      invariant o <= |tags| && Pending(t, it, tags, o, hit)
      decreases Size(it) + |tags| - o
    {
      assert Size(it) == 1 + Size(it.next);
      ghost var it0, o0, left := it, o, Size(it) + |tags| - o;
      if tags[o] == it.tag {
        assert tags[o] in tags;
        if it.terminal {
          return true;
        }
        if it.sub.Entry? && Matches(it.sub, hit) {
          return true;
        }
        PendingNext(t, it, tags, o, hit);
        it := it.next;
      }
      while o < |tags| && it.Entry? && tags[o] < it.tag
        invariant o <= |tags| && Pending(t, it, tags, o, hit)
        invariant Size(it) + |tags| - o < left || (it == it0 && o == o0 && tags[o] != it.tag)
      {
        o := o + 1;
      }
      while o < |tags| && it.Entry? && it.tag < tags[o]
        invariant o <= |tags| && Pending(t, it, tags, o, hit)
        invariant Size(it) + |tags| - o < left || (it == it0 && o == o0 && tags[o] > it.tag)
        decreases Size(it)
      {
        KeyBetween(it.tag, tags, o);
        PendingNext(t, it, tags, o, hit);
        it := it.next;
      }
    }
    if it.Entry? { NothingLeft(it, tags, hit); }
  }

  /** A key strictly between two neighbouring tags is not among the tags. */
  lemma KeyBetween(key: int, tags: seq<int>, o: nat)
    requires Ascending(tags) && o < |tags| && key < tags[o] && (o > 0 ==> tags[o - 1] < key)
    ensures key !in tags
  {
    forall i | 0 <= i < |tags| ensures tags[i] != key {
      if i > o { assert tags[o] < tags[i]; }
      if i < o - 1 { assert tags[i] < tags[o - 1]; }
    }
  }
}
