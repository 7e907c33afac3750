/** Set::reindex: the SPECIAL flag of every set, worked out from its tries and the sets it uses. */
module SetFlags {
  import opened TagTries
  import opened SetMatching

  /** trie_reindex, as far as SPECIAL goes. */
  predicate HasSpecial(tt: TagTable, t: Trie) {
    t.Entry? && (t.tag in tt.special || HasSpecial(tt, t.sub) || HasSpecial(tt, t.next))
  }

  lemma {:induction false} NoSpecialMeansOrdinary(tt: TagTable, t: Trie)
    ensures HasSpecial(tt, t) <==> !Every(t, Ordinary(tt))
    decreases t
  {
    if t.Entry? {
      assert Ordinary(tt)(t.tag) <==> t.tag !in tt.special;
      NoSpecialMeansOrdinary(tt, t.sub);
      NoSpecialMeansOrdinary(tt, t.next);
    }
  }

  /** A special tag occurs in the tries of set n or of a set it uses, directly or not. */
  ghost predicate NeedsSpecial(tt: TagTable, g: seq<SetDef>, n: nat)
    requires ValidGrammar(tt, g) && n < |g|
    decreases n
  {
    assert ValidDef(tt, g[n], n);
    || HasSpecial(tt, g[n].trie) || HasSpecial(tt, g[n].trieSpecial)
    || exists i :: 0 <= i < |g[n].sets| && NeedsSpecial(tt, g, g[n].sets[i])
  }

  lemma {:induction false} HasSpecialIff(tt: TagTable, t: Trie)
    ensures HasSpecial(tt, t) <==> exists tag :: tag in tt.special && Stores(t, tag)
    decreases t
  {
    if t.Entry? {
      HasSpecialIff(tt, t.sub);
      HasSpecialIff(tt, t.next);
      assert Stores(t, t.tag);
      forall tag | Stores(t.sub, tag) || Stores(t.next, tag) ensures Stores(t, tag) {
      }
    }
  }

  /** The flag is called for by a special tag in the set or in one that it uses. */
  lemma {:induction false} NeedsSpecialIff(tt: TagTable, g: seq<SetDef>, n: nat)
    requires ValidGrammar(tt, g) && n < |g|
    ensures NeedsSpecial(tt, g, n) <==>
              exists x: nat, tag :: Uses(tt, g, n, x) && tag in tt.special
                                    && (Stores(g[x].trie, tag) || Stores(g[x].trieSpecial, tag))
    decreases n
  {
    var d := g[n];
    assert ValidDef(tt, d, n);
    HasSpecialIff(tt, d.trie);
    HasSpecialIff(tt, d.trieSpecial);
    forall i | 0 <= i < |d.sets| { NeedsSpecialIff(tt, g, d.sets[i]); }
    assert Uses(tt, g, n, n);
    if i: int :| 0 <= i < |d.sets| && NeedsSpecial(tt, g, d.sets[i]) {
      var x: nat, tag :| Uses(tt, g, d.sets[i], x) && tag in tt.special
                         && (Stores(g[x].trie, tag) || Stores(g[x].trieSpecial, tag));
      assert Uses(tt, g, n, x);
    }
  }

  /** g' is g with some flags changed, and every changed flag is right. */
  ghost predicate Reflagged(tt: TagTable, g: seq<SetDef>, g': seq<SetDef>)
    requires ValidGrammar(tt, g)
  {
    && |g'| == |g|
    && forall m :: 0 <= m < |g| ==>
         && g'[m] == g[m].(special := g'[m].special)
         && (g'[m].special == g[m].special || g'[m].special == NeedsSpecial(tt, g, m))
  }

  class Grammar {
    const tt: TagTable
    var sets: seq<SetDef>

    constructor (tt: TagTable, sets: seq<SetDef>)
      ensures this.tt == tt && this.sets == sets
    {
      this.tt := tt;
      this.sets := sets;
    }

    method Reindex(n: nat, ghost g: seq<SetDef>)
      requires ValidGrammar(tt, g) && Reflagged(tt, g, sets) && n < |g|
      modifies this
      ensures Reflagged(tt, g, sets)
      ensures sets[n].special == NeedsSpecial(tt, g, n)
      ensures forall m :: 0 <= m < |g| && old(sets[m]).special == NeedsSpecial(tt, g, m) ==> sets[m] == old(sets[m])
      decreases n
    {
      var d := sets[n];
      assert ValidDef(tt, g[n], n);
      var special := HasSpecial(tt, d.trie) || HasSpecial(tt, d.trieSpecial);
      for i := 0 to |d.sets|
        invariant Reflagged(tt, g, sets)
        invariant special <==> || HasSpecial(tt, d.trie) || HasSpecial(tt, d.trieSpecial)
                               || exists j :: 0 <= j < i && NeedsSpecial(tt, g, d.sets[j])
        invariant forall m :: 0 <= m < |g| && old(sets[m]).special == NeedsSpecial(tt, g, m) ==> sets[m] == old(sets[m])
      {
        Reindex(d.sets[i], g);
        if sets[d.sets[i]].special {
          special := true;
        }
      }
      sets := sets[n := sets[n].(special := special)];
    }

    /** The loop of Grammar::reindex over sets_list: afterwards the flags are closed upward. */
    method ReindexAll()
      requires ValidGrammar(tt, sets)
      modifies this
      ensures ValidGrammar(tt, sets) && FlagsClosed(tt, sets)
      ensures |sets| == |old(sets)|
      ensures forall n :: 0 <= n < |sets| ==>
                sets[n] == old(sets[n]).(special := NeedsSpecial(tt, old(sets), n))
    {
      ghost var g := sets;
      for n := 0 to |sets|
        invariant |sets| == |g| && Reflagged(tt, g, sets)
        invariant forall m :: 0 <= m < n ==> sets[m].special == NeedsSpecial(tt, g, m)
      {
        Reindex(n, g);
      }
      forall n | 0 <= n < |sets|
        ensures ValidDef(tt, sets[n], n) && (!sets[n].special ==> PlainDef(tt, sets, sets[n]))
      {
        assert ValidDef(tt, g[n], n);
        NoSpecialMeansOrdinary(tt, g[n].trie);
        NoSpecialMeansOrdinary(tt, g[n].trieSpecial);
      }
    }
  }
}
