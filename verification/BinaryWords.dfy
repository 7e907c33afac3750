/** The stream of 32-bit words that binary grammars are made of, and the records of optional fields in it. */
module BinaryWords {

  const WIDTH: int := 0x1_0000_0000

  type Word = x: int | 0 <= x < 0x1_0000_0000

  type Int32 = x: int | -0x8000_0000 <= x < 0x8000_0000

  /** fread_throw throws at the end of the file. */
  datatype Read<T> = Got(value: T, rest: seq<Word>) | EndOfFile

  function Next(s: seq<Word>): Read<Word> {
    if s == [] then EndOfFile else Got(s[0], s[1..])
  }

  function Take(s: seq<Word>, n: nat): Read<seq<Word>> {
    if n <= |s| then Got(s[..n], s[n..]) else EndOfFile
  }

  // ---- signed numbers ----

  function ToWord(x: Int32): Word {
    if x < 0 then x + WIDTH else x
  }

  function ToInt32(w: Word): Int32 {
    if w < 0x8000_0000 then w else w - WIDTH
  }

  lemma SignedRoundTrip(x: Int32)
    ensures ToInt32(ToWord(x)) == x && (ToWord(x) == 0 <==> x == 0)
  {
  }

  // ---- field masks ----

  predicate HasBit(mask: int, i: nat)
    decreases i, mask
  {
    if i == 0 then mask % 2 == 1 else HasBit(mask / 2, i - 1)
  }

  function Power2(n: nat): nat {
    if n == 0 then 1 else 2 * Power2(n - 1)
  }

  /** The mask with a bit per field: fields |= (1 << i) for each one present. */
  function Mask(present: seq<bool>): (m: nat)
    ensures m < Power2(|present|)
  {
    if present == [] then 0 else (if present[0] then 1 else 0) + 2 * Mask(present[1..])
  }

  lemma {:induction false} MaskHasBits(present: seq<bool>, i: nat)
    requires i < |present|
    ensures HasBit(Mask(present), i) == present[i]
    decreases i
  {
    var m := Mask(present[1..]);
    assert Mask(present) / 2 == m && (Mask(present) % 2 == 1) == present[0];
    if i > 0 { MaskHasBits(present[1..], i - 1); }
  }

  function MaskWord(present: seq<bool>): Word
    requires |present| <= 16
  {
    SmallMask(present);
    Mask(present)
  }

  lemma {:induction false} PowersGrow(m: nat, n: nat)
    requires m <= n
    ensures Power2(m) <= Power2(n)
    decreases n
  {
    if m < n { PowersGrow(m, n - 1); }
  }

  lemma SmallMask(present: seq<bool>)
    requires |present| <= 16
    ensures Mask(present) < WIDTH
  {
    PowersGrow(|present|, 16);
    assert Power2(8) == 256;
    assert Power2(16) == 65536;
  }

  // ---- optional fields ----

  /** A field is only written when it is not 0. */
  function Put(vs: seq<Word>): seq<Word> {
    if vs == [] then [] else (if vs[0] == 0 then [] else [vs[0]]) + Put(vs[1..])
  }

  /** n fields, the first of them with bit i in the mask. */
  function Get(mask: Word, i: nat, n: nat, s: seq<Word>): (r: Read<seq<Word>>)
    ensures r.Got? ==> |r.value| == n
    decreases n, |s|
  {
    if n == 0 then Got([], s)
    else if !HasBit(mask, i) then
      match Get(mask, i + 1, n - 1, s)
      case EndOfFile => EndOfFile
      case Got(vs, rest) => Got([0] + vs, rest)
    else if s == [] then EndOfFile
    else
      match Get(mask, i + 1, n - 1, s[1..])
      case EndOfFile => EndOfFile
      case Got(vs, rest) => Got([s[0]] + vs, rest)
  }

  /** The mask says of the fields vs, from bit i on, which are not 0. */
  predicate Masked(mask: Word, i: nat, vs: seq<Word>) {
    forall k :: 0 <= k < |vs| ==> (HasBit(mask, i + k) <==> vs[k] != 0)
  }

  function NonZero(vs: seq<Word>): (r: seq<bool>)
    ensures |r| == |vs| && forall k :: 0 <= k < |vs| ==> r[k] == (vs[k] != 0)
  {
    seq(|vs|, k requires 0 <= k < |vs| => vs[k] != 0)
  }

  lemma MaskedBy(present: seq<bool>, i: nat, vs: seq<Word>)
    requires |present| <= 16 && i + |vs| <= |present| && present[i..i + |vs|] == NonZero(vs)
    ensures Masked(MaskWord(present), i, vs)
  {
    forall k | 0 <= k < |vs| ensures HasBit(MaskWord(present), i + k) <==> vs[k] != 0 {
      MaskHasBits(present, i + k);
      assert present[i + k] == present[i..i + |vs|][k];
    }
  }

  lemma PutFirst(vs: seq<Word>, rest: seq<Word>)
    requires vs != []
    ensures Put(vs) + rest == (if vs[0] == 0 then [] else [vs[0]]) + (Put(vs[1..]) + rest)
  {
  }

  /** What is written with a mask is read with it, up to the end of the fields. */
  lemma {:induction false} FieldsRoundTrip(mask: Word, i: nat, vs: seq<Word>, rest: seq<Word>)
    requires Masked(mask, i, vs)
    ensures Get(mask, i, |vs|, Put(vs) + rest) == Got(vs, rest)
    decreases |vs|
  {
    if vs == [] {
      assert Put(vs) + rest == rest;
    } else {
      var v, more := vs[0], vs[1..];
      var tail := Put(more) + rest;
      FieldsRoundTrip(mask, i + 1, more, rest);
      assert Get(mask, i + 1, |more|, tail) == Got(more, rest);
      PutFirst(vs, rest);
      assert [v] + more == vs;
      if v == 0 {
        assert [] + tail == tail;
      } else {
        var s := [v] + tail;
        assert s[0] == v && s[1..] == tail;
      }
    }
  }

  // ---- the stream as it is read ----

  class Input {
    var words: seq<Word>

    constructor (words: seq<Word>)
      ensures this.words == words
    {
      this.words := words;
    }

    method ReadWord() returns (ok: bool, w: Word)
      modifies this
      ensures if ok then Next(old(words)) == Got(w, words) else Next(old(words)) == EndOfFile
    {
      if words == [] {
        return false, 0;
      }
      ok, w := true, words[0];
      words := words[1..];
    }

    method ReadWords(n: nat) returns (ok: bool, ws: seq<Word>)
      modifies this
      ensures if ok then Take(old(words), n) == Got(ws, words) else Take(old(words), n) == EndOfFile
    {
      ws := [];
      ghost var all := words;
      for i := 0 to n
        invariant i <= |all| && ws == all[..i] && words == all[i..]
      {
        var w;
        ok, w := ReadWord();
        if !ok {
          return;
        }
        ws := ws + [w];
      }
      ok := true;
    }

    method ReadFields(mask: Word, i: nat, n: nat) returns (ok: bool, vs: seq<Word>)
      modifies this
      ensures if ok then Get(mask, i, n, old(words)) == Got(vs, words) else Get(mask, i, n, old(words)) == EndOfFile
    {
      vs := [];
      ghost var all := Get(mask, i, n, words);
      assert forall more: seq<Word> :: vs + more == more;
      for k := 0 to n
        invariant all == match Get(mask, i + k, n - k, words)
                         case EndOfFile => EndOfFile
                         case Got(more, rest) => Got(vs + more, rest)
      {
        var w: Word := 0;
        if HasBit(mask, i + k) {
          ok, w := ReadWord();
          if !ok {
            return;
          }
        }
        assert forall more: seq<Word> :: vs + ([w] + more) == vs + [w] + more;
        vs := vs + [w];
      }
      ok := true;
      assert vs + [] == vs;
    }
  }
}
