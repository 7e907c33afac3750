/** Tag tries as bytes: per entry the tag's number, whether it ends a list, and the entries below it. */
module TrieCodec {
  import opened TagTries

  type Byte = x: int | 0 <= x < 256

  const WIDTH: int := 0x1_0000_0000

  // ---- 32-bit numbers, high byte first ----

  function Lowest(n: int): Byte {
    n % 256
  }

  function Put32(n: nat): (r: seq<Byte>)
    requires n < WIDTH
    ensures |r| == 4
  {
    [Lowest(n / 0x100_0000), Lowest(n / 0x1_0000), Lowest(n / 256), Lowest(n)]
  }

  function Get32(s: seq<Byte>): nat
    requires |s| >= 4
  {
    var a: int, b: int, c: int, d: int := s[0], s[1], s[2], s[3];
    ((a * 256 + b) * 256 + c) * 256 + d
  }

  lemma NumberRoundTrip(n: nat, rest: seq<Byte>)
    requires n < WIDTH
    ensures Get32(Put32(n) + rest) == n
    ensures (Put32(n) + rest)[4..] == rest
  {
    var s := Put32(n) + rest;
    var a, b := n / 256, n / 0x1_0000;
    assert n == a * 256 + n % 256;
    assert b == a / 256 && n / 0x100_0000 == b / 256;
  }

  /** The number that four bytes from position i on stand for, the first one counting most. */
  function Number(s: seq<Byte>, i: nat): nat
    requires i + 4 <= |s|
  {
    var a: int, b: int, c: int, d: int := s[i], s[i + 1], s[i + 2], s[i + 3];
    a * 0x100_0000 + b * 0x1_0000 + c * 0x100 + d
  }

  /** High byte first, in writing and in reading. */
  lemma HighByteFirst(n: nat, s: seq<Byte>)
    requires n < WIDTH
    ensures Number(Put32(n), 0) == n
    ensures |s| >= 4 ==> Get32(s) == Number(s, 0)
  {
    var q3, q2, q1 := n / 0x100_0000, n / 0x1_0000, n / 256;
    assert n == q1 * 256 + n % 256;
    assert q1 / 256 == q2 && q1 == q2 * 256 + q1 % 256;
    assert q2 / 256 == q3 && q2 == q3 * 256 + q2 % 256;
    assert q3 % 256 == q3;
  }

  // ---- writing ----

  /** single_tags_list: tags by number, each once. */
  predicate ValidTags(tags: seq<int>) {
    |tags| < WIDTH && forall i, j :: 0 <= i < j < |tags| ==> tags[i] != tags[j]
  }

  function NumberOf(tags: seq<int>, tag: int): (n: nat)
    requires tag in tags
    ensures n < |tags| && tags[n] == tag
  {
    if tags[0] == tag then 0 else 1 + NumberOf(tags[1..], tag)
  }

  /** The trie's tags have numbers, and its levels can be counted in 32 bits. */
  predicate Storable(tags: seq<int>, t: Trie) {
    Width(t) < WIDTH && (t.Entry? ==> t.tag in tags && Storable(tags, t.sub) && Storable(tags, t.next))
  }

  /** trie_serialize */
  function Serialize(tags: seq<int>, t: Trie): seq<Byte>
    requires ValidTags(tags) && Storable(tags, t)
  {
    if t.Nil? then []
    else
      assert Storable(tags, t.sub) && Storable(tags, t.next);
      Put32(NumberOf(tags, t.tag)) + ([if t.terminal then 1 else 0] +
      (Put32(Width(t.sub)) + (Serialize(tags, t.sub) + Serialize(tags, t.next))))
  }

  // ---- reading ----

  datatype Parsed = Parsed(trie: Trie, rest: seq<Byte>) | Bad

  /** trie[tag] = (terminal, sub), where keys are kept in order. */
  function SetNode(t: Trie, tag: int, terminal: bool, sub: Trie): Trie {
    if t.Nil? || tag < t.tag then Entry(tag, terminal, sub, t)
    else if tag == t.tag then Entry(tag, terminal, sub, t.next)
    else t.(next := SetNode(t.next, tag, terminal, sub))
  }

  /** What is below tag, if the trie has it. */
  function SubOf(t: Trie, tag: int): Trie {
    if t.Nil? then Nil else if t.tag == tag then t.sub else SubOf(t.next, tag)
  }

  /** _trie_unserialize: n entries read into t. A number that is no tag's, or the end of the file, stops it. */
  function Unserialize(tags: seq<int>, n: nat, s: seq<Byte>, t: Trie): (r: Parsed)
    ensures r.Parsed? ==> |r.rest| <= |s|
    decreases |s|, n
  {
    if n == 0 then Parsed(t, s)
    else if |s| < 9 || Get32(s) >= |tags| then Bad
    else
      var tag, terminal, below := tags[Get32(s)], s[4] != 0, Get32(s[5..]);
      if below == 0 then Unserialize(tags, n - 1, s[9..], SetNode(t, tag, terminal, SubOf(t, tag)))
      else
        match Unserialize(tags, below, s[9..], SubOf(t, tag))
        case Bad => Bad
        case Parsed(sub, rest) => Unserialize(tags, n - 1, rest, SetNode(t, tag, terminal, sub))
  }

  // ---- the round trip ----

  /** The entries of b behind those of a. */
  function Join(a: Trie, b: Trie): Trie {
    if a.Nil? then b else a.(next := Join(a.next, b))
  }

  predicate AllBelow(t: Trie, tag: int) {
    t.Entry? ==> t.tag < tag && AllBelow(t.next, tag)
  }

  lemma {:induction false} SetNodeAtEnd(t: Trie, tag: int, terminal: bool, sub: Trie, rest: Trie)
    requires AllBelow(t, tag)
    ensures SubOf(t, tag) == Nil
    ensures Join(SetNode(t, tag, terminal, sub), rest) == Join(t, Entry(tag, terminal, sub, rest))
    ensures forall k :: k > tag ==> AllBelow(SetNode(t, tag, terminal, sub), k)
    decreases t
  {
    if t.Entry? {
      SetNodeAtEnd(t.next, tag, terminal, sub, rest);
    }
    forall k | k > tag ensures AllBelow(SetNode(t, tag, terminal, sub), k) {
    }
  }

  /** An entry's nine bytes are read as what they were written for. */
  lemma HeaderRoundTrip(number: nat, terminal: bool, below: nat, rest: seq<Byte>)
    requires number < WIDTH && below < WIDTH
    ensures var s := Put32(number) + ([if terminal then 1 else 0] + (Put32(below) + rest));
            |s| >= 9 && Get32(s) == number && (s[4] != 0) == terminal && Get32(s[5..]) == below && s[9..] == rest
  {
    var flag: Byte := if terminal then 1 else 0;
    var tail := Put32(below) + rest;
    var s := Put32(number) + ([flag] + tail);
    NumberRoundTrip(number, [flag] + tail);
    NumberRoundTrip(below, rest);
    assert s[4] == flag && s[5..] == tail && s[9..] == tail[4..];
  }

  /** A trie read from its bytes is the trie, and the rest of the stream is untouched. */
  lemma {:induction false} TrieRoundTripOnto(tags: seq<int>, t: Trie, onto: Trie, rest: seq<Byte>)
    requires ValidTags(tags) && Storable(tags, t) && Sorted(t)
    requires t.Entry? ==> AllBelow(onto, t.tag)
    ensures Unserialize(tags, Width(t), Serialize(tags, t) + rest, onto) == Parsed(Join(onto, t), rest)
    decreases t
  {
    if t.Nil? {
      assert [] + rest == rest;
      JoinNil(onto);
    } else {
      EntryHeader(tags, t, rest);
      var after := Serialize(tags, t.next) + rest;
      if t.sub.Entry? { TrieRoundTripOnto(tags, t.sub, Nil, after); }
      FirstEntry(tags, t, onto, Serialize(tags, t) + rest, Serialize(tags, t.sub) + after, after);
      SetNodeAtEnd(onto, t.tag, t.terminal, t.sub, t.next);
      TrieRoundTripOnto(tags, t.next, SetNode(onto, t.tag, t.terminal, t.sub), rest);
    }
  }

  lemma EntryHeader(tags: seq<int>, t: Trie, rest: seq<Byte>)
    requires ValidTags(tags) && Storable(tags, t) && t.Entry?
    ensures Storable(tags, t.sub) && Storable(tags, t.next)
    ensures var s, after := Serialize(tags, t) + rest, Serialize(tags, t.next) + rest;
            && |s| >= 9 && Get32(s) < |tags| && tags[Get32(s)] == t.tag && (s[4] != 0) == t.terminal
            && Get32(s[5..]) == Width(t.sub) && s[9..] == Serialize(tags, t.sub) + after
            && (t.sub.Nil? ==> s[9..] == after)
  {
    SerializeEntry(tags, t, rest);
    HeaderRoundTrip(NumberOf(tags, t.tag), t.terminal, Width(t.sub),
                    Serialize(tags, t.sub) + (Serialize(tags, t.next) + rest));
  }

  /** If what is below the first entry is read back, so is the entry. */
  lemma FirstEntry(tags: seq<int>, t: Trie, onto: Trie, s: seq<Byte>, body: seq<Byte>, after: seq<Byte>)
    requires t.Entry? && AllBelow(onto, t.tag)
    requires |s| >= 9 && Get32(s) < |tags| && tags[Get32(s)] == t.tag && (s[4] != 0) == t.terminal
    requires Get32(s[5..]) == Width(t.sub) && s[9..] == body
    requires if t.sub.Nil? then after == body else Unserialize(tags, Width(t.sub), body, Nil) == Parsed(t.sub, after)
    ensures Unserialize(tags, Width(t), s, onto) ==
            Unserialize(tags, Width(t.next), after, SetNode(onto, t.tag, t.terminal, t.sub))
  {
    SetNodeAtEnd(onto, t.tag, t.terminal, t.sub, t.next);
    EntryStep(tags, Width(t), s, onto, t.tag, t.terminal, t.sub, body, after);
  }

  lemma SerializeEntry(tags: seq<int>, t: Trie, rest: seq<Byte>)
    requires ValidTags(tags) && Storable(tags, t) && t.Entry?
    ensures Storable(tags, t.sub) && Storable(tags, t.next)
    ensures var body := Serialize(tags, t.sub) + (Serialize(tags, t.next) + rest);
            Serialize(tags, t) + rest ==
              Put32(NumberOf(tags, t.tag)) + ([if t.terminal then 1 else 0] + (Put32(Width(t.sub)) + body))
    ensures t.sub.Nil? ==> Serialize(tags, t.sub) + (Serialize(tags, t.next) + rest) == Serialize(tags, t.next) + rest
  {
    assert Storable(tags, t.sub) && Storable(tags, t.next);
    var sub, next := Serialize(tags, t.sub), Serialize(tags, t.next);
    Regroup(Put32(NumberOf(tags, t.tag)), [if t.terminal then 1 else 0], Put32(Width(t.sub)), sub, next, rest);
    if t.sub.Nil? { assert sub + (next + rest) == next + rest; }
  }

  /**
   The bytes of a trie, entry by entry: the tag's number, 1 or 0 for the end of a list, the number of entries below,
   these entries, and then the rest of the level.
   */
  lemma SerializedBytes(tags: seq<int>, t: Trie)
    requires ValidTags(tags) && Storable(tags, t)
    ensures t.Nil? ==> Serialize(tags, t) == []
    ensures t.Entry? ==>
              var s := Serialize(tags, t);
              && Storable(tags, t.sub) && Storable(tags, t.next)
              && |s| >= 9 && Number(s, 0) < |tags| && tags[Number(s, 0)] == t.tag
              && s[4] == (if t.terminal then 1 else 0) && Number(s, 5) == Width(t.sub)
              && s[9..] == Serialize(tags, t.sub) + Serialize(tags, t.next)
  {
    if t.Entry? {
      SerializeEntry(tags, t, []);
      var s, number := Serialize(tags, t), NumberOf(tags, t.tag);
      var body := Serialize(tags, t.sub) + (Serialize(tags, t.next) + []);
      assert s + [] == s && body == Serialize(tags, t.sub) + Serialize(tags, t.next);
      HeaderRoundTrip(number, t.terminal, Width(t.sub), body);
      HighByteFirst(number, s);
      HighByteFirst(number, s[5..]);
    }
  }

  lemma Regroup(a: seq<Byte>, b: seq<Byte>, c: seq<Byte>, d: seq<Byte>, e: seq<Byte>, rest: seq<Byte>)
    ensures (a + (b + (c + (d + e)))) + rest == a + (b + (c + (d + (e + rest))))
  {
  }

  /** One entry that is new to the trie: the reader sets its node and goes on behind what is below it. */
  lemma EntryStep(tags: seq<int>, n: nat, s: seq<Byte>, onto: Trie, tag: int, terminal: bool, sub: Trie,
                  body: seq<Byte>, after: seq<Byte>)
    requires 0 < n && |s| >= 9 && Get32(s) < |tags| && tags[Get32(s)] == tag && (s[4] != 0) == terminal
    requires Get32(s[5..]) == Width(sub) && s[9..] == body && SubOf(onto, tag) == Nil
    requires if sub.Nil? then after == body else Unserialize(tags, Width(sub), body, Nil) == Parsed(sub, after)
    ensures Unserialize(tags, n, s, onto) == Unserialize(tags, n - 1, after, SetNode(onto, tag, terminal, sub))
  {
  }

  /** Where an entry cannot be read whole, or its number is no tag's, reading fails. */
  lemma BadEntry(tags: seq<int>, n: nat, s: seq<Byte>, t: Trie)
    requires 0 < n && (|s| < 9 || Number(s, 0) >= |tags|)
    ensures Unserialize(tags, n, s, t) == Bad
  {
    if |s| >= 9 { HighByteFirst(0, s); }
  }

  /** A tag that occurs twice on a level gets the entries of both below it, and ends a list if the second one does. */
  lemma SameTagTwice(tags: seq<int>, number: nat, a: Trie, b: Trie, ends: bool, rest: seq<Byte>)
    requires ValidTags(tags) && number < |tags| && Storable(tags, a) && Storable(tags, b) && Sorted(a) && Sorted(b)
    requires a.Entry? && b.Entry? && AllBelow(a, b.tag)
    ensures var second := Put32(number) + ([if ends then 1 else 0] + (Put32(Width(b)) + (Serialize(tags, b) + rest)));
            var s := Put32(number) + ([if !ends then 1 else 0] + (Put32(Width(a)) + (Serialize(tags, a) + second)));
            Unserialize(tags, 2, s, Nil) == Parsed(Entry(tags[number], ends, Join(a, b), Nil), rest)
  {
    var rest' := Serialize(tags, b) + rest;
    var second := Put32(number) + ([if ends then 1 else 0] + (Put32(Width(b)) + rest'));
    var body := Serialize(tags, a) + second;
    var s := Put32(number) + ([if !ends then 1 else 0] + (Put32(Width(a)) + body));
    HeaderRoundTrip(number, !ends, Width(a), body);
    TrieRoundTripOnto(tags, a, Nil, second);
    HeaderRoundTrip(number, ends, Width(b), rest');
    TrieRoundTripOnto(tags, b, a, rest);
    TwoEntries(tags, s, number, a, Join(a, b), !ends, ends, Width(a), Width(b), body, second, rest', rest);
  }

  lemma TwoEntries(tags: seq<int>, s: seq<Byte>, number: nat, a: Trie, both: Trie, first: bool, last: bool,
                   width: nat, width': nat, body: seq<Byte>, second: seq<Byte>, body': seq<Byte>, rest: seq<Byte>)
    requires number < |tags| && 0 < width && 0 < width'
    requires |s| >= 9 && Get32(s) == number && (s[4] != 0) == first && Get32(s[5..]) == width && s[9..] == body
    requires |second| >= 9 && Get32(second) == number && (second[4] != 0) == last
    requires Get32(second[5..]) == width' && second[9..] == body'
    requires Unserialize(tags, width, body, Nil) == Parsed(a, second)
    requires Unserialize(tags, width', body', a) == Parsed(both, rest)
    ensures Unserialize(tags, 2, s, Nil) == Parsed(Entry(tags[number], last, both, Nil), rest)
  {
    var one := Entry(tags[number], first, a, Nil);
    assert SetNode(Nil, tags[number], first, a) == one && SubOf(one, tags[number]) == a;
    assert Unserialize(tags, 1, second, one) ==
           Unserialize(tags, 0, rest, SetNode(one, tags[number], last, both));
  }

  lemma {:induction false} JoinNil(t: Trie)
    ensures Join(t, Nil) == t
    decreases t
  {
    if t.Entry? { JoinNil(t.next); }
  }

  // ---- the reader at work ----

  class TrieInput {
    const tags: seq<int>
    var bytes: seq<Byte>

    constructor (tags: seq<int>, bytes: seq<Byte>)
      ensures this.tags == tags && this.bytes == bytes
    {
      this.tags, this.bytes := tags, bytes;
    }

    /** _trie_unserialize */
    method ReadTrie(n: nat, t: Trie) returns (ok: bool, trie: Trie)
      modifies this
      ensures Unserialize(tags, n, old(bytes), t) == if ok then Parsed(trie, bytes) else Bad
      decreases |bytes|
    {
      ok, trie := true, t;
      var left: nat := n;
      while left > 0
        invariant ok && |bytes| <= |old(bytes)|
        invariant Unserialize(tags, n, old(bytes), t) == Unserialize(tags, left, bytes, trie)
      {
        if |bytes| < 9 || Get32(bytes) >= |tags| {
          return false, trie;
        }
        var tag, terminal, below := tags[Get32(bytes)], bytes[4] != 0, Get32(bytes[5..]);
        var sub := SubOf(trie, tag);
        bytes := bytes[9..];
        if below != 0 {
          ok, sub := ReadTrie(below, sub);
          if !ok {
            return false, trie;
          }
        }
        trie := SetNode(trie, tag, terminal, sub);
        left := left - 1;
      }
    }
  }

  // ---- the whole trie ----

  lemma TrieRoundTrip(tags: seq<int>, t: Trie, rest: seq<Byte>)
    requires ValidTags(tags) && Storable(tags, t) && Sorted(t)
    ensures Unserialize(tags, Width(t), Serialize(tags, t) + rest, Nil) == Parsed(t, rest)
  {
    TrieRoundTripOnto(tags, t, Nil, rest);
  }
}
