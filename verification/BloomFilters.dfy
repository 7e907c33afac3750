/**
 bloomish, the filter in front of a reading's tag sets: four words, one per kind of tag hash, each the
 OR of the hashes put in. Tags are put into the filter with the set, but never taken out.
 */
module BloomFilters {

  type Word = bv32

  /** Which of the four words a hash belongs to: by the highest of its three lowest bits. */
  function Place(v: Word): (k: int)
    ensures 0 <= k < 4
  {
    if v & 4 != 0 then 3 else if v & 2 != 0 then 2 else if v & 1 != 0 then 1 else 0
  }

  predicate Passes(value: seq<Word>, v: Word)
    requires |value| == 4
  {
    value[Place(v)] & v == v
  }

  function Entered(value: seq<Word>, v: Word): (r: seq<Word>)
    requires |value| == 4
    ensures |r| == 4
  {
    value[Place(v) := value[Place(v)] | v]
  }

  /** What has been put in passes, and what passed before still does. */
  lemma EnteredPasses(value: seq<Word>, v: Word, w: Word)
    requires |value| == 4
    ensures Passes(Entered(value, v), v)
    ensures Passes(value, w) ==> Passes(Entered(value, v), w)
  {
  }

  // ---- what the filter lets through ----

  /** The words with the hashes of vs put in, one after the other. */
  function Filled(vs: seq<Word>): (r: seq<Word>)
    ensures |r| == 4
  {
    if vs == [] then [0, 0, 0, 0] else Entered(Filled(vs[..|vs| - 1]), vs[|vs| - 1])
  }

  /** Bit 2 is the same in both, and bit 1 where that is off, and bit 0 where both are off. */
  predicate SameKind(v: Word, w: Word) {
    v & 4 == w & 4 && (v & 4 == 0 ==> v & 2 == w & 2 && (v & 2 == 0 ==> v & 1 == w & 1))
  }

  /** The bits of the hashes of v's kind. */
  function BitsOfKind(vs: seq<Word>, v: Word): Word {
    if vs == [] then 0
    else MoreBits(BitsOfKind(vs[..|vs| - 1], v), vs[|vs| - 1], SameKind(v, vs[|vs| - 1]))
  }

  function MoreBits(bits: Word, v: Word, same: bool): Word {
    if same then bits | v else bits
  }

  lemma PlaceIsKind(v: Word, w: Word)
    ensures Place(v) == Place(w) <==> SameKind(v, w)
  {
  }

  lemma EnteredAt(value: seq<Word>, v: Word, w: Word, bits: Word)
    requires |value| == 4 && value[Place(v)] == bits
    ensures Entered(value, w)[Place(v)] == MoreBits(bits, w, SameKind(v, w))
  {
    PlaceIsKind(v, w);
  }

  lemma {:induction false} FilledIs(vs: seq<Word>, v: Word)
    ensures Filled(vs)[Place(v)] == BitsOfKind(vs, v)
    decreases |vs|
  {
    if vs == [] {
      assert Filled(vs) == [0, 0, 0, 0] && BitsOfKind(vs, v) == 0;
    } else {
      var front, last := vs[..|vs| - 1], vs[|vs| - 1];
      FilledIs(front, v);
      var value, bits, k := Filled(front), BitsOfKind(front, v), Place(v);
      assert Filled(vs) == Entered(value, last);
      assert BitsOfKind(vs, v) == MoreBits(bits, last, SameKind(v, last));
      EnteredAt(value, v, last, bits);
    }
  }

  /** A hash passes if and only if all its bits occur among the hashes of its kind that were put in. */
  lemma PassesIff(vs: seq<Word>, v: Word)
    ensures Passes(Filled(vs), v) <==> BitsOfKind(vs, v) & v == v
  {
    FilledIs(vs, v);
  }

  /** tags_plain with tags_plain_bloom. */
  class TagStore {
    var tags: set<Word>
    var value: array<Word>

    ghost predicate Valid()
      reads this, value
    {
      value.Length == 4 && forall t :: t in tags ==> Passes(value[..], t)
    }

    constructor ()
      ensures Valid() && tags == {} && fresh(value)
    {
      tags := {};
      value := new Word[4](_ => 0);
    }

    method Insert(v: Word)
      requires Valid()
      modifies this`tags, value
      ensures Valid() && tags == old(tags) + {v} && value[..] == Entered(old(value[..]), v)
    {
      ghost var was := value[..];
      tags := tags + {v};
      var k := Place(v);
      value[k] := value[k] | v;
      assert value[..] == Entered(was, v);
      forall t | t in tags ensures Passes(value[..], t) { EnteredPasses(was, v, t); }
    }

    /** The filter is left as it is. */
    method Erase(v: Word)
      requires Valid()
      modifies this`tags
      ensures Valid() && tags == old(tags) - {v}
    {
      tags := tags - {v};
    }

    method Matches(v: Word) returns (passes: bool)
      requires value.Length == 4
      ensures passes == Passes(value[..], v)
    {
      var words := value[..];
      passes := Passes(words, v);
    }

    /** The plain part of doesTagMatchReading: the set is only searched for what passes the filter. */
    method HasTag(v: Word) returns (has: bool)
      requires Valid()
      ensures has == (v in tags)
    {
      has := Matches(v);
      if has {
        has := v in tags;
      }
    }
  }
}
