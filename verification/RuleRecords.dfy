/** Parts of a rule's record in a binary grammar: the sub-reading number and the lists of contextual tests. */
module RuleRecords {
  import opened BinaryWords

  const SIGN: int := 0x8000_0000

  // ---- the sub-reading number ----

  /** std::abs in 32 bits: the lowest number is its own absolute value. */
  function AbsWord(s: Int32): Word {
    var x: int := s;
    if x < 0 then -x else x
  }

  /** Sign and magnitude: v |= (1 << 31) if the number is negative. */
  function PackSub(s: Int32): Word {
    if s < 0 && AbsWord(s) < SIGN then AbsWord(s) + SIGN else AbsWord(s)
  }

  function UnpackSub(w: Word): Int32 {
    if w >= SIGN then -(w - SIGN) else w
  }

  /** Every number but the lowest comes back; that one comes back as 0. */
  lemma SubRoundTrip(s: Int32)
    ensures UnpackSub(PackSub(s)) == s <==> s != -SIGN
    ensures UnpackSub(PackSub(-SIGN)) == 0
  {
  }

  /** Bit 31 is on for negative numbers, and the other bits are the magnitude. */
  lemma SubLayout(s: Int32)
    ensures PackSub(s) >= SIGN <==> s < 0
    ensures var x: int := s; PackSub(s) % SIGN == (if x < 0 then -x else x) % SIGN
  {
  }

  // ---- lists of tests ----

  function Reversed(s: seq<Word>): (r: seq<Word>)
    ensures |r| == |s|
  {
    if s == [] then [] else Reversed(s[1..]) + [s[0]]
  }

  lemma {:induction false} ReversedAppend(a: seq<Word>, b: seq<Word>)
    ensures Reversed(a + b) == Reversed(b) + Reversed(a)
    decreases |a|
  {
    if a == [] {
      assert a + b == b;
    } else {
      ReversedAppend(a[1..], b);
      assert (a + b)[0] == a[0] && (a + b)[1..] == a[1..] + b;
    }
  }

  lemma {:induction false} ReversedIs(s: seq<Word>, k: nat)
    requires k < |s|
    ensures Reversed(s)[k] == s[|s| - 1 - k]
    decreases |s|
  {
    if k < |s| - 1 { ReversedIs(s[1..], k); }
  }

  lemma {:induction false} ReversedTwice(s: seq<Word>)
    ensures Reversed(Reversed(s)) == s
    decreases |s|
  {
    if s != [] {
      ReversedTwice(s[1..]);
      ReversedAppend(Reversed(s[1..]), [s[0]]);
      assert Reversed([s[0]]) == [s[0]] by { assert [s[0]][1..] == []; }
      assert s == [s[0]] + s[1..];
    }
  }

  /** A list as it stands in the file: its length and its hashes. */
  function PutList(s: seq<Word>): seq<Word>
    requires |s| < WIDTH
  {
    [|s|] + s
  }

  function GetList(s: seq<Word>): Read<seq<Word>> {
    if s == [] then EndOfFile else Take(s[1..], s[0])
  }

  /** The tests of a rule, by hash. */
  class RuleTests {
    var depTests: seq<Word>
    var tests: seq<Word>

    constructor (depTests: seq<Word>, tests: seq<Word>)
      ensures this.depTests == depTests && this.tests == tests
    {
      this.depTests, this.tests := depTests, tests;
    }

    /** reverseContextualTests, then the two lists as they are. The rule keeps its lists reversed. */
    method Write() returns (out: seq<Word>)
      requires |depTests| < WIDTH && |tests| < WIDTH
      modifies this
      ensures depTests == Reversed(old(depTests)) && tests == Reversed(old(tests))
      ensures out == [|depTests|] + depTests + ([|tests|] + tests)
    {
      depTests, tests := Reversed(depTests), Reversed(tests);
      out := [|depTests|];
      for i := 0 to |depTests|
        invariant out == [|depTests|] + depTests[..i]
      {
        out := out + [depTests[i]];
      }
      assert depTests[..|depTests|] == depTests;
      out := out + [|tests|];
      for i := 0 to |tests|
        invariant out == PutList(depTests) + ([|tests|] + tests[..i])
      {
        out := out + [tests[i]];
      }
      assert tests[..|tests|] == tests;
    }

    /** The reader puts every test it reads at the front of the list. */
    method Read(input: Input) returns (ok: bool)
      modifies this, input
      ensures var first := GetList(old(input.words));
              if first.EndOfFile? then !ok else
              var second := GetList(first.rest);
              ok == second.Got? &&
              (ok ==> depTests == Reversed(first.value) + old(depTests) && tests == Reversed(second.value) + old(tests)
                      && input.words == second.rest)
    {
      var dep, own;
      ok, dep := ReadList(input);
      if !ok {
        return;
      }
      depTests := PushAll(depTests, dep);
      ok, own := ReadList(input);
      if !ok {
        return;
      }
      tests := PushAll(tests, own);
    }

    static method ReadList(input: Input) returns (ok: bool, hs: seq<Word>)
      modifies input
      ensures GetList(old(input.words)) == if ok then Got(hs, input.words) else EndOfFile
    {
      hs := [];
      var n;
      ok, n := input.ReadWord();
      if ok {
        ok, hs := input.ReadWords(n);
      }
    }

    static method PushAll(list: seq<Word>, hs: seq<Word>) returns (r: seq<Word>)
      ensures r == Reversed(hs) + list
    {
      r := list;
      for j := 0 to |hs|
        invariant r == Reversed(hs[..j]) + list
      {
        assert hs[..j + 1] == hs[..j] + [hs[j]];
        ReversedAppend(hs[..j], [hs[j]]);
        assert [hs[j]][1..] == [];
        r := [hs[j]] + r;
      }
      assert hs[..|hs|] == hs;
    }
  }

  lemma ListRoundTrip(s: seq<Word>, rest: seq<Word>)
    requires |s| < WIDTH
    ensures GetList(PutList(s) + rest) == Got(s, rest)
  {
    assert (PutList(s) + rest)[1..] == s + rest;
  }

  /** A rule read into a new object has its tests in the order in which they were before writing. */
  method WriteAndRead(rule: RuleTests, rest: seq<Word>) returns (copy: RuleTests, input: Input)
    requires |rule.depTests| < WIDTH && |rule.tests| < WIDTH
    modifies rule
    ensures copy.depTests == old(rule.depTests) && copy.tests == old(rule.tests) && input.words == rest
  {
    ghost var dep, own := rule.depTests, rule.tests;
    var out := rule.Write();
    assert out + rest == PutList(rule.depTests) + (PutList(rule.tests) + rest);
    ListRoundTrip(rule.depTests, PutList(rule.tests) + rest);
    ListRoundTrip(rule.tests, rest);
    ReversedTwice(dep);
    ReversedTwice(own);
    copy := new RuleTests([], []);
    input := new Input(out + rest);
    var ok := copy.Read(input);
  }
}
