/**
 Contextual tests in binary grammars. The tests refer to each other as templates, alternatives and
 linked tests; the writer emits a test after all it refers to, and the reader looks linked tests up at
 once and binds templates and alternatives at the end. Tests are identified with their hashes.
 */
module ContextGraphs {
  import opened BinaryWords

  // ---- positions ----

  type Pos = x: int | 0 <= x < 0x1_0000_0000_0000_0000

  /** POS_64BIT, bit 31: there is an upper word. */
  const POS_64BIT: int := 0x8000_0000

  predicate Has64(low: Word) {
    low >= POS_64BIT
  }

  function Low(pos: Pos): Word {
    pos % WIDTH
  }

  function High(pos: Pos): Word {
    pos / WIDTH
  }

  /** What the textual parser does to a position with any bit from POS_64BIT up. */
  function Normalised(pos: Pos): Pos {
    if pos > POS_64BIT && !Has64(Low(pos)) then pos + POS_64BIT else pos
  }

  function PutPos(pos: Pos): seq<Word> {
    if pos == 0 then [] else [Low(pos)] + if Has64(Low(pos)) then [High(pos)] else []
  }

  function GetPos(present: bool, s: seq<Word>): Read<Pos> {
    if !present then Got(0, s)
    else if s == [] then EndOfFile
    else if !Has64(s[0]) then Got(s[0], s[1..])
    else if s[1..] == [] then EndOfFile
    else Got(s[0] + s[1] * WIDTH, s[2..])
  }

  predicate Representable(pos: Pos) {
    High(pos) == 0 || Has64(Low(pos))
  }

  /** A position comes back exactly when it has no upper word, or says so in bit 31. */
  lemma PosRoundTrip(pos: Pos, rest: seq<Word>)
    ensures GetPos(pos != 0, PutPos(pos) + rest) == Got(pos, rest) <==> Representable(pos)
  {
    var s := PutPos(pos) + rest;
    assert pos == Low(pos) + High(pos) * WIDTH;
    if pos != 0 {
      if Has64(Low(pos)) {
        assert s[0] == Low(pos) && s[1] == High(pos) && s[2..] == rest;
      } else {
        assert s[0] == Low(pos) && s[1..] == rest;
      }
    } else {
      assert s == rest;
    }
  }

  /** After normalisation every position comes back, and at most bit 31 has been added to it. */
  lemma NormalisedComesBack(pos: Pos, rest: seq<Word>)
    ensures var n := Normalised(pos); GetPos(n != 0, PutPos(n) + rest) == Got(n, rest)
    ensures High(Normalised(pos)) == High(pos) && Low(Normalised(pos)) % POS_64BIT == Low(pos) % POS_64BIT
    ensures Normalised(pos) == pos <==> Representable(pos)
  {
    PosRoundTrip(Normalised(pos), rest);
  }

  // ---- one test ----

  /** tmpl and linked are 0 if there is none. */
  datatype Context = Context(pos: Pos, offset: Int32, tmpl: Word, target: Word, line: Word, relation: Word,
                             barrier: Word, cbarrier: Word, offsetSub: Int32, ors: seq<Word>, linked: Word)

  /** Fields 2 to 9. */
  function Middle(c: Context): seq<Word> {
    [ToWord(c.offset), c.tmpl, c.target, c.line, c.relation, c.barrier, c.cbarrier, ToWord(c.offsetSub)]
  }

  function Present(h: Word, c: Context): (r: seq<bool>)
    ensures |r| == 12
  {
    [h != 0, c.pos != 0] + NonZero(Middle(c)) + [c.ors != [], c.linked != 0]
  }

  predicate Writable(h: Word, c: Context) {
    h != 0 && Representable(c.pos) && |c.ors| < WIDTH
  }

  function PutOrs(ors: seq<Word>): seq<Word>
    requires |ors| < WIDTH
  {
    if ors == [] then [] else [|ors|] + ors
  }

  function GetOrs(present: bool, s: seq<Word>): Read<seq<Word>> {
    if !present then Got([], s)
    else if s == [] then EndOfFile
    else Take(s[1..], s[0])
  }

  /** The record that the writer makes of a test. */
  function Encode(h: Word, c: Context): seq<Word>
    requires Writable(h, c)
  {
    [MaskWord(Present(h, c))] + (Put([h]) + (PutPos(c.pos) + (Put(Middle(c)) + (PutOrs(c.ors) + Put([c.linked])))))
  }

  /** The reader's view of a record: the hash, and the test with its references as they stand in the file. */
  function Decode(s: seq<Word>): Read<(Word, Context)> {
    match Next(s)
    case EndOfFile => EndOfFile
    case Got(mask, s) =>
      match Get(mask, 0, 1, s)
      case EndOfFile => EndOfFile
      case Got(h, s) =>
        match GetPos(HasBit(mask, 1), s)
        case EndOfFile => EndOfFile
        case Got(pos, s) => DecodeRest(mask, h, pos, s)
  }

  function DecodeRest(mask: Word, h: seq<Word>, pos: Pos, s: seq<Word>): Read<(Word, Context)>
    requires |h| == 1
  {
    match Get(mask, 2, 8, s)
    case EndOfFile => EndOfFile
    case Got(m, s) =>
      match GetOrs(HasBit(mask, 10), s)
      case EndOfFile => EndOfFile
      case Got(ors, s) =>
        match Get(mask, 11, 1, s)
        case EndOfFile => EndOfFile
        case Got(linked, s) => Got((h[0], Assembled(pos, m, ors, linked[0])), s)
  }

  function Assembled(pos: Pos, m: seq<Word>, ors: seq<Word>, linked: Word): Context
    requires |m| == 8
  {
    Context(pos, ToInt32(m[0]), m[1], m[2], m[3], m[4], m[5], m[6], ToInt32(m[7]), ors, linked)
  }

  lemma MaskOf(h: Word, c: Context)
    ensures var mask := MaskWord(Present(h, c));
            && Masked(mask, 0, [h]) && HasBit(mask, 1) == (c.pos != 0) && Masked(mask, 2, Middle(c))
            && HasBit(mask, 10) == (c.ors != []) && Masked(mask, 11, [c.linked])
  {
    var present := Present(h, c);
    assert present[0..1] == NonZero([h]);
    MaskedBy(present, 0, [h]);
    MaskHasBits(present, 1);
    assert present[2..10] == NonZero(Middle(c));
    MaskedBy(present, 2, Middle(c));
    MaskHasBits(present, 10);
    assert present[11..12] == NonZero([c.linked]);
    MaskedBy(present, 11, [c.linked]);
  }

  lemma OrsRoundTrip(ors: seq<Word>, rest: seq<Word>)
    requires |ors| < WIDTH
    ensures GetOrs(ors != [], PutOrs(ors) + rest) == Got(ors, rest)
  {
    var s := PutOrs(ors) + rest;
    if ors == [] {
      assert s == rest;
    } else {
      assert s[0] == |ors| && s[1..] == ors + rest;
    }
  }

  lemma RestRoundTrip(h: Word, c: Context, rest: seq<Word>)
    requires Writable(h, c)
    ensures var mask := MaskWord(Present(h, c));
            DecodeRest(mask, [h], c.pos, Put(Middle(c)) + (PutOrs(c.ors) + (Put([c.linked]) + rest))) ==
                Got((h, c), rest)
  {
    var mask := MaskWord(Present(h, c));
    MaskOf(h, c);
    FieldsRoundTrip(mask, 2, Middle(c), PutOrs(c.ors) + (Put([c.linked]) + rest));
    OrsRoundTrip(c.ors, Put([c.linked]) + rest);
    FieldsRoundTrip(mask, 11, [c.linked], rest);
    SignedRoundTrip(c.offset);
    SignedRoundTrip(c.offsetSub);
  }

  /** One word, if there is something to write. */
  function If(present: bool, w: Word): seq<Word> {
    if present then [w] else []
  }

  /** The number with these four bits, the lowest one first. */
  function Bits(a: bool, b: bool, c: bool, d: bool): nat {
    (if a then 1 else 0) + (if b then 2 else 0) + (if c then 4 else 0) + (if d then 8 else 0)
  }

  /** A record begins with its mask, in which every field has its bit. */
  lemma MaskLayout(h: Word, c: Context)
    requires Writable(h, c)
    ensures var s := Encode(h, c);
            && s != []
            && s[0] == Bits(true, c.pos != 0, c.offset != 0, c.tmpl != 0)
                       + 0x10 * Bits(c.target != 0, c.line != 0, c.relation != 0, c.barrier != 0)
                       + 0x100 * Bits(c.cbarrier != 0, c.offsetSub != 0, c.ors != [], c.linked != 0)
  {
    MaskTwelve(Present(h, c));
    PresentIs(h, c);
  }

  lemma PresentIs(h: Word, c: Context)
    requires h != 0
    ensures var p := Present(h, c);
            && p[0] && p[1] == (c.pos != 0) && p[2] == (c.offset != 0) && p[3] == (c.tmpl != 0)
            && p[4] == (c.target != 0) && p[5] == (c.line != 0) && p[6] == (c.relation != 0) && p[7] == (c.barrier != 0)
            && p[8] == (c.cbarrier != 0) && p[9] == (c.offsetSub != 0)
            && p[10] == (c.ors != []) && p[11] == (c.linked != 0)
  {
    OffsetWords(c);
  }

  /** The fields follow in their order: hash, position, the eight numbers, alternatives, linked test. */
  lemma FieldLayout(h: Word, c: Context)
    requires Writable(h, c)
    ensures Encode(h, c) != []
    ensures Encode(h, c)[1..] ==
              [h] +
              (If(c.pos != 0, c.pos % WIDTH) + If(c.pos % WIDTH >= 0x8000_0000, c.pos / WIDTH) +
               (If(c.offset != 0, c.offset % WIDTH) +
                (If(c.tmpl != 0, c.tmpl) +
                 (If(c.target != 0, c.target) +
                  (If(c.line != 0, c.line) +
                   (If(c.relation != 0, c.relation) +
                    (If(c.barrier != 0, c.barrier) +
                     (If(c.cbarrier != 0, c.cbarrier) +
                      If(c.offsetSub != 0, c.offsetSub % WIDTH)))))))
                + (If(c.ors != [], |c.ors|) + c.ors + If(c.linked != 0, c.linked))))
  {
    MiddleLayout(c);
    PutOne(h);
    PutOne(c.linked);
    assert PutPos(c.pos) == If(c.pos != 0, c.pos % WIDTH) + If(c.pos % WIDTH >= 0x8000_0000, c.pos / WIDTH);
    assert PutOrs(c.ors) == If(c.ors != [], |c.ors|) + c.ors;
  }

  lemma MiddleLayout(c: Context)
    ensures Put(Middle(c)) ==
              If(c.offset != 0, c.offset % WIDTH) +
              (If(c.tmpl != 0, c.tmpl) +
               (If(c.target != 0, c.target) +
                (If(c.line != 0, c.line) +
                 (If(c.relation != 0, c.relation) +
                  (If(c.barrier != 0, c.barrier) +
                   (If(c.cbarrier != 0, c.cbarrier) +
                    If(c.offsetSub != 0, c.offsetSub % WIDTH)))))))
  {
    PutEight(Middle(c));
    OffsetWords(c);
  }

  lemma PutEight(m: seq<Word>)
    requires |m| == 8
    ensures Put(m) ==
              If(m[0] != 0, m[0]) + (If(m[1] != 0, m[1]) + (If(m[2] != 0, m[2]) + (If(m[3] != 0, m[3]) +
              (If(m[4] != 0, m[4]) + (If(m[5] != 0, m[5]) + (If(m[6] != 0, m[6]) + If(m[7] != 0, m[7])))))))
  {
    PutFour(m, 0);
    PutFour(m, 4);
    assert m[0..] == m && m[8..] == [];
    assert If(m[7] != 0, m[7]) + [] == If(m[7] != 0, m[7]);
  }

  /** Two's complement. */
  lemma OffsetWords(c: Context)
    ensures ToWord(c.offset) == c.offset % WIDTH && ToWord(c.offsetSub) == c.offsetSub % WIDTH
    ensures (ToWord(c.offset) != 0 <==> c.offset != 0) && (ToWord(c.offsetSub) != 0 <==> c.offsetSub != 0)
  {
  }

  lemma PutOne(w: Word)
    ensures Put([w]) == If(w != 0, w)
  {
    assert [w][1..] == [];
  }

  lemma PutMore(w: Word, rest: seq<Word>)
    ensures Put([w] + rest) == If(w != 0, w) + Put(rest)
  {
    assert ([w] + rest)[1..] == rest;
  }

  lemma PutFour(m: seq<Word>, i: nat)
    requires i + 4 <= |m|
    ensures Put(m[i..]) == If(m[i] != 0, m[i]) + (If(m[i + 1] != 0, m[i + 1]) +
                           (If(m[i + 2] != 0, m[i + 2]) + (If(m[i + 3] != 0, m[i + 3]) + Put(m[i + 4..]))))
  {
    forall k | i <= k < i + 4 ensures m[k..] == [m[k]] + m[k + 1..] {}
    PutMore(m[i], m[i + 1..]);
    PutMore(m[i + 1], m[i + 2..]);
    PutMore(m[i + 2], m[i + 3..]);
    PutMore(m[i + 3], m[i + 4..]);
  }

  lemma MaskMore(p: seq<bool>, k: nat)
    requires k < |p|
    ensures Mask(p[k..]) == (if p[k] then 1 else 0) + 2 * Mask(p[k + 1..])
  {
    assert p[k..][1..] == p[k + 1..];
  }

  lemma MaskFour(p: seq<bool>, k: nat)
    requires k + 4 <= |p|
    ensures Mask(p[k..]) == Bits(p[k], p[k + 1], p[k + 2], p[k + 3]) + 16 * Mask(p[k + 4..])
  {
    MaskMore(p, k);
    MaskMore(p, k + 1);
    MaskMore(p, k + 2);
    MaskMore(p, k + 3);
  }

  lemma MaskTwelve(p: seq<bool>)
    requires |p| == 12
    ensures Mask(p) == Bits(p[0], p[1], p[2], p[3]) + 0x10 * Bits(p[4], p[5], p[6], p[7])
                       + 0x100 * Bits(p[8], p[9], p[10], p[11])
  {
    assert p[0..] == p && p[12..] == [] && Mask([]) == 0;
    MaskFour(p, 0);
    MaskFour(p, 4);
    MaskFour(p, 8);
    InSixteens(Mask(p), Bits(p[0], p[1], p[2], p[3]), Mask(p[4..]), Bits(p[4], p[5], p[6], p[7]), Mask(p[8..]));
  }

  lemma InSixteens(m: nat, a: nat, m': nat, b: nat, c: nat)
    requires m == a + 16 * m' && m' == b + 16 * c
    ensures m == a + 0x10 * b + 0x100 * c
  {
  }

  lemma Regroup(a: seq<Word>, b: seq<Word>, c: seq<Word>, d: seq<Word>, e: seq<Word>, rest: seq<Word>)
    ensures (a + (b + (c + (d + e)))) + rest == a + (b + (c + (d + (e + rest))))
  {
  }

  /** Reading the record of a test gives the test, and leaves the stream at the next record. */
  lemma RecordRoundTrip(h: Word, c: Context, rest: seq<Word>)
    requires Writable(h, c)
    ensures Decode(Encode(h, c) + rest) == Got((h, c), rest)
  {
    var mask := MaskWord(Present(h, c));
    var tail := Put(Middle(c)) + (PutOrs(c.ors) + (Put([c.linked]) + rest));
    var s := Encode(h, c) + rest;
    Regroup(Put([h]), PutPos(c.pos), Put(Middle(c)), PutOrs(c.ors), Put([c.linked]), rest);
    assert s[0] == mask && s[1..] == Put([h]) + (PutPos(c.pos) + tail);
    MaskOf(h, c);
    FieldsRoundTrip(mask, 0, [h], PutPos(c.pos) + tail);
    PosRoundTrip(c.pos, tail);
    RestRoundTrip(h, c, rest);
  }
}
