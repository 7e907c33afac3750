/**
 The interval_vector container: a set of 32-bit numbers kept as a sorted list of
 closed intervals. The rule lists valid_rules and runsections are interval vectors.
 */
module IntervalVectors {

  const UINT32_MAX: nat := 0xFFFF_FFFF
  const UINT32_COUNT: nat := 0x1_0000_0000

  /** The 32-bit result of one addition or subtraction of 32-bit numbers. */
  function Wrap(n: int): int {
    if n > UINT32_MAX then n - UINT32_COUNT else if n < 0 then n + UINT32_COUNT else n
  }

  predicate IsUint32(n: int) {
    0 <= n <= UINT32_MAX
  }

  datatype Interval = Interval(lb: int, ub: int)

  /** t lies in one of the intervals. */
  predicate Has(s: seq<Interval>, t: int) {
    s != [] && (s[|s| - 1].lb <= t <= s[|s| - 1].ub || Has(s[..|s| - 1], t))
  }

  ghost function Members(s: seq<Interval>): set<int> {
    set t | 0 <= t < UINT32_COUNT && Has(s, t)
  }

  function Count(s: seq<Interval>): int {
    if s == [] then 0 else Count(s[..|s| - 1]) + (s[|s| - 1].ub - s[|s| - 1].lb + 1)
  }

  predicate WellFormed(x: Interval) {
    0 <= x.lb <= x.ub <= UINT32_MAX
  }

  /** a ends, and b starts, with at least one number in between. */
  predicate Apart(a: seq<Interval>, b: seq<Interval>) {
    a != [] && b != [] ==> a[|a| - 1].ub + 1 < b[0].lb
  }

  /** Non-empty intervals in order, with a gap between neighbours. */
  predicate Canonical(s: seq<Interval>) {
    s == [] || (var n := |s| - 1; WellFormed(s[n]) && Canonical(s[..n]) && Apart(s[..n], [s[n]]))
  }

  lemma {:induction false} CanonicalConcat(a: seq<Interval>, b: seq<Interval>)
    ensures Canonical(a) && Canonical(b) && Apart(a, b) <==> Canonical(a + b)
    decreases |b|
  {
    if b == [] {
      assert a + b == a;
    } else {
      var front := b[..|b| - 1];
      CanonicalConcat(a, front);
      assert (a + b)[..|a + b| - 1] == a + front;
      if front == [] { assert a + front == a; }
    }
  }

  lemma {:induction false} HasConcat(a: seq<Interval>, b: seq<Interval>, t: int)
    ensures Has(a + b, t) <==> Has(a, t) || Has(b, t)
    decreases |b|
  {
    if b == [] {
      assert a + b == a;
    } else {
      HasConcat(a, b[..|b| - 1], t);
      assert (a + b)[..|a + b| - 1] == a + b[..|b| - 1];
    }
  }

  lemma HasSingle(x: Interval, t: int)
    ensures Has([x], t) <==> x.lb <= t <= x.ub
  {
    assert [x][..0] == [];
  }

  lemma {:induction false} Bounds(s: seq<Interval>, t: int)
    requires Canonical(s) && s != []
    ensures Has(s, t) ==> s[0].lb <= t <= s[|s| - 1].ub
    ensures 0 <= s[0].lb <= s[|s| - 1].ub <= UINT32_MAX
    decreases |s|
  {
    var front := s[..|s| - 1];
    if front != [] {
      Bounds(front, t);
    } else {
      assert !Has(front, t);

    }
  }

  /** Membership seen from the middle of a canonical list a + [x] + b. */
  lemma Around(a: seq<Interval>, x: Interval, b: seq<Interval>, t: int)
    requires Canonical(a + [x] + b)
    ensures WellFormed(x) && Canonical(a) && Canonical(b) && Apart(a, [x]) && Apart([x], b)
    ensures Has(a + [x] + b, t) <==> Has(a, t) || x.lb <= t <= x.ub || Has(b, t)
    ensures Has(a, t) ==> t + 1 < x.lb
    ensures Has(b, t) ==> x.ub + 1 < t
    ensures a != [] ==> a[|a| - 1].ub + 1 < x.lb
    ensures b != [] ==> x.ub + 1 < b[0].lb
  {
    CanonicalConcat(a + [x], b);
    CanonicalConcat(a, [x]);
    HasConcat(a + [x], b, t);
    HasConcat(a, [x], t);
    HasSingle(x, t);
    if a != [] { Bounds(a, t); }
    if b != [] { Bounds(b, t); }
  }

  lemma AroundIndex(s: seq<Interval>, i: nat, t: int)
    requires Canonical(s) && i < |s|
    ensures WellFormed(s[i]) && Canonical(s[..i]) && Canonical(s[i + 1..])
    ensures Has(s, t) <==> Has(s[..i], t) || s[i].lb <= t <= s[i].ub || Has(s[i + 1..], t)
    ensures Has(s[..i], t) ==> t + 1 < s[i].lb
    ensures Has(s[i + 1..], t) ==> s[i].ub + 1 < t
    ensures i > 0 ==> s[i - 1].ub + 1 < s[i].lb
    ensures i + 1 < |s| ==> s[i].ub + 1 < s[i + 1].lb
  {
    assert s == s[..i] + [s[i]] + s[i + 1..];
    Around(s[..i], s[i], s[i + 1..], t);
  }

  ghost function Range(lb: int, ub: int): set<int> {
    set t | lb <= t < ub + 1 && Has([Interval(lb, ub)], t)
  }

  lemma RangeMembers(lb: int, ub: int)
    ensures forall t :: t in Range(lb, ub) <==> lb <= t <= ub
  {
    forall t ensures t in Range(lb, ub) <==> lb <= t <= ub {
      HasSingle(Interval(lb, ub), t);
    }
  }

  lemma RangeSize(lb: int, ub: int)
    requires lb <= ub
    ensures |Range(lb, ub)| == ub - lb + 1
    decreases ub - lb
  {
    RangeMembers(lb, ub);
    if lb == ub {
      assert Range(lb, ub) == {lb};
    } else {
      RangeSize(lb, ub - 1);
      RangeMembers(lb, ub - 1);
      assert Range(lb, ub) == Range(lb, ub - 1) + {ub};
    }
  }

  /** The stored size, the sum of the interval lengths, is the number of members. */
  lemma {:induction false} CountIsCardinality(s: seq<Interval>)
    requires Canonical(s)
    ensures Count(s) == |Members(s)|
    decreases |s|
  {
    if s == [] {
      assert Members(s) == {};
    } else {
      var front, x := s[..|s| - 1], s[|s| - 1];
      CountIsCardinality(front);
      RangeSize(x.lb, x.ub);
      RangeMembers(x.lb, x.ub);
      forall t | t in Members(front) ensures t !in Range(x.lb, x.ub) {
        Bounds(front, t);
      }
      assert Members(s) == Members(front) + Range(x.lb, x.ub);
    }
  }

  /** Two canonical lists with the same members are the same list. */
  lemma {:induction false} CanonicalFormIsUnique(a: seq<Interval>, b: seq<Interval>)
    requires Canonical(a) && Canonical(b) && forall t :: Has(a, t) <==> Has(b, t)
    ensures a == b
    decreases |a|
  {
    if a == [] || b == [] {
      if a != [] { assert Has(a, a[|a| - 1].lb); }
      if b != [] { assert Has(b, b[|b| - 1].lb); }
    } else {
      var x, y := a[|a| - 1], b[|b| - 1];
      assert Has(a, x.ub) && Has(b, y.ub) && Has(a, x.lb) && Has(b, y.lb);
      Bounds(a, y.ub);
      Bounds(b, x.ub);
      LastGap(a);
      LastGap(b);
      assert Has(a, y.lb - 1) <==> Has(b, y.lb - 1);
      assert Has(b, x.lb - 1) <==> Has(a, x.lb - 1);
      assert x == y;
      var c, d := a[..|a| - 1], b[..|b| - 1];
      forall t ensures Has(c, t) <==> Has(d, t) {
        assert Has(a, t) <==> Has(b, t);
        if c != [] { Bounds(c, t); }
        if d != [] { Bounds(d, t); }
      }
      CanonicalFormIsUnique(c, d);
      assert a == c + [x] && b == d + [y];
    }
  }

  lemma LastGap(s: seq<Interval>)
    requires Canonical(s) && s != []
    ensures !Has(s, s[|s| - 1].lb - 1)
  {
    if |s| > 1 { Bounds(s[..|s| - 1], s[|s| - 1].lb - 1); }
  }

  /** std::lower_bound under operator<(interval, T): the first interval not wholly below t. */
  function LowerBoundIndex(s: seq<Interval>, t: int): (i: nat)
    ensures i <= |s|
    ensures i > 0 ==> s[i - 1].ub < t
    ensures i < |s| ==> t <= s[i].ub
  {
    if s == [] || t <= s[0].ub then 0 else 1 + LowerBoundIndex(s[1..], t)
  }

  lemma HasAtLowerBound(s: seq<Interval>, t: int)
    requires Canonical(s)
    ensures var i := LowerBoundIndex(s, t); Has(s, t) <==> i < |s| && s[i].lb <= t
  {
    var i := LowerBoundIndex(s, t);
    if i < |s| { AroundIndex(s, i, t); }
    if i > 0 {
      AroundIndex(s, i - 1, t);
      assert s[i - 1 + 1..] == s[i..];
      if i < |s| { assert s[i..][0] == s[i]; } else { assert s[i..] == []; }
    } else {
      assert s[..0] == [];
    }
  }

  // ---- element edits, as std::vector does them ----

  function InsertAt(s: seq<Interval>, i: nat, x: Interval): seq<Interval>
    requires i <= |s|
  {
    s[..i] + [x] + s[i..]
  }

  function EraseAt(s: seq<Interval>, i: nat): seq<Interval>
    requires i < |s|
  {
    s[..i] + s[i + 1..]
  }

  /** If interval i starts right after interval i - 1 ends, fold it into that one. */
  function JoinWithPrevious(s: seq<Interval>, i: nat): seq<Interval>
    requires i <= |s|
  {
    if i != 0 && i < |s| && Wrap(s[i - 1].ub + 1) == s[i].lb then
      EraseAt(s[i - 1 := Interval(s[i - 1].lb, s[i].ub)], i)
    else
      s
  }

  /** Replacing a stretch of the list by one that fits between the same neighbours. */
  lemma Splice(a: seq<Interval>, x: seq<Interval>, y: seq<Interval>, b: seq<Interval>)
    requires Canonical(a + x + b) && Canonical(y)
    requires Apart(a, y) && Apart(y, b)
    requires y == [] ==> Apart(a, b)
    ensures Canonical(a + y + b)
  {
    CanonicalConcat(a + x, b);
    CanonicalConcat(a, x);
    CanonicalConcat(a, y);
    if y == [] { assert a + y == a; }
    CanonicalConcat(a + y, b);
  }

  lemma SplicedHas(a: seq<Interval>, y: seq<Interval>, b: seq<Interval>, t: int)
    ensures Has(a + y + b, t) <==> Has(a, t) || Has(y, t) || Has(b, t)
  {
    HasConcat(a + y, b, t);
    HasConcat(a, y, t);
  }

  lemma CanonicalSmall(x: seq<Interval>)
    requires |x| <= 1 && (x != [] ==> WellFormed(x[0]))
    ensures Canonical(x)
  {
    if x != [] { assert x[..|x| - 1] == []; }
  }

  lemma MembersAdd(s: seq<Interval>, r: seq<Interval>, t: int)
    requires IsUint32(t) && forall u :: Has(r, u) <==> Has(s, u) || u == t
    ensures Members(r) == Members(s) + {t}
  {
  }

  lemma MembersRemove(s: seq<Interval>, r: seq<Interval>, t: int)
    requires forall u :: Has(r, u) <==> Has(s, u) && u != t
    ensures Members(r) == Members(s) - {t}
  {
  }

  // ---- one lemma per way Insert and Erase edit the list ----

  lemma UpdateAsConcat(s: seq<Interval>, i: nat, q: Interval)
    requires i < |s|
    ensures s == s[..i] + [s[i]] + s[i + 1..]
    ensures s[i := q] == s[..i] + [q] + s[i + 1..]
  {
  }

  lemma Replaced(a: seq<Interval>, p: Interval, q: Interval, b: seq<Interval>, u: int)
    ensures Has(a + [p] + b, u) <==> Has(a, u) || p.lb <= u <= p.ub || Has(b, u)
    ensures Has(a + [q] + b, u) <==> Has(a, u) || q.lb <= u <= q.ub || Has(b, u)
  {
    SplicedHas(a, [p], b, u);
    SplicedHas(a, [q], b, u);
    HasSingle(p, u);
    HasSingle(q, u);
  }

  /** Extending interval i by one number that touches no neighbour. */
  lemma Grow(s: seq<Interval>, i: nat, q: Interval, t: int)
    requires Canonical(s) && i < |s| && WellFormed(q)
    requires (q.lb == s[i].lb && q.ub == s[i].ub + 1 == t) || (q.ub == s[i].ub && q.lb + 1 == s[i].lb && q.lb == t)
    requires i > 0 ==> s[i - 1].ub + 1 < q.lb
    requires i + 1 < |s| ==> q.ub + 1 < s[i + 1].lb
    ensures Canonical(s[i := q])
    ensures forall u :: Has(s[i := q], u) <==> Has(s, u) || u == t
  {
    UpdateAsConcat(s, i, q);
    AroundIndex(s, i, t);
    CanonicalSmall([q]);
    Splice(s[..i], [s[i]], [q], s[i + 1..]);
    forall u ensures Has(s[i := q], u) <==> Has(s, u) || u == t {
      Replaced(s[..i], s[i], q, s[i + 1..], u);
    }
  }

  lemma GrowUp(s: seq<Interval>, i: nat, t: int)
    requires Canonical(s) && i < |s| && s[i].ub + 1 == t <= UINT32_MAX
    requires i + 1 < |s| ==> t + 1 < s[i + 1].lb
    ensures var r := JoinWithPrevious(s[i := Interval(s[i].lb, t)], i + 1);
            Canonical(r) && forall u :: Has(r, u) <==> Has(s, u) || u == t
  {
    AroundIndex(s, i, t);
    Grow(s, i, Interval(s[i].lb, t), t);
  }

  lemma GrowDown(s: seq<Interval>, i: nat, t: int)
    requires Canonical(s) && i < |s| && 0 <= t && t + 1 == s[i].lb
    requires i > 0 ==> s[i - 1].ub + 1 < t
    ensures var r := JoinWithPrevious(s[i := Interval(t, s[i].ub)], i);
            Canonical(r) && forall u :: Has(r, u) <==> Has(s, u) || u == t
  {
    AroundIndex(s, i, t);
    Grow(s, i, Interval(t, s[i].ub), t);
  }

  lemma JoinAsConcat(s: seq<Interval>, i: nat, t: int)
    requires i + 1 < |s| && 0 <= t < UINT32_MAX && t + 1 == s[i + 1].lb
    ensures s == s[..i] + [s[i], s[i + 1]] + s[i + 2..]
    ensures JoinWithPrevious(s[i := Interval(s[i].lb, t)], i + 1)
         == s[..i] + [Interval(s[i].lb, s[i + 1].ub)] + s[i + 2..]
  {
    var q := Interval(s[i].lb, s[i + 1].ub);
    var grown := s[i := Interval(s[i].lb, t)];
    assert grown[i].ub + 1 == grown[i + 1].lb;
    var joined := grown[i := q];
    assert joined[..i + 1] == s[..i] + [q];
    assert joined[i + 2..] == s[i + 2..];
    assert JoinWithPrevious(grown, i + 1) == EraseAt(joined, i + 1);
  }

  lemma HasPair(p: Interval, n: Interval, u: int)
    ensures Has([p, n], u) <==> p.lb <= u <= p.ub || n.lb <= u <= n.ub
  {
    assert [p, n] == [p] + [n];
    HasConcat([p], [n], u);
    HasSingle(p, u);
    HasSingle(n, u);
  }

  lemma FillGap(s: seq<Interval>, i: nat, t: int)
    requires Canonical(s) && i + 1 < |s| && s[i].ub + 1 == t && t + 1 == s[i + 1].lb
    ensures var r := JoinWithPrevious(s[i := Interval(s[i].lb, t)], i + 1);
            Canonical(r) && forall u :: Has(r, u) <==> Has(s, u) || u == t
  {
    AroundIndex(s, i, t);
    AroundIndex(s, i + 1, t);
    JoinAsConcat(s, i, t);
    BridgeGap(s[..i], s[i], s[i + 1], s[i + 2..], t);
  }

  lemma BridgedHas(a: seq<Interval>, p: Interval, n: Interval, b: seq<Interval>, u: int)
    ensures Has(a + [p, n] + b, u) <==> Has(a, u) || p.lb <= u <= p.ub || n.lb <= u <= n.ub || Has(b, u)
    ensures Has(a + [Interval(p.lb, n.ub)] + b, u) <==> Has(a, u) || p.lb <= u <= n.ub || Has(b, u)
  {
    SplicedHas(a, [p, n], b, u);
    SplicedHas(a, [Interval(p.lb, n.ub)], b, u);
    HasPair(p, n, u);
    HasSingle(Interval(p.lb, n.ub), u);
  }

  lemma BridgeGap(a: seq<Interval>, p: Interval, n: Interval, b: seq<Interval>, t: int)
    requires Canonical(a + [p, n] + b) && WellFormed(p) && WellFormed(n)
    requires p.ub + 1 == t && t + 1 == n.lb
    requires a != [] ==> a[|a| - 1].ub + 1 < p.lb
    requires b != [] ==> n.ub + 1 < b[0].lb
    ensures var r := a + [Interval(p.lb, n.ub)] + b;
            Canonical(r) && forall u :: Has(r, u) <==> Has(a + [p, n] + b, u) || u == t
  {
    var q := Interval(p.lb, n.ub);
    CanonicalSmall([q]);
    Splice(a, [p, n], [q], b);
    forall u ensures Has(a + [q] + b, u) <==> Has(a + [p, n] + b, u) || u == t {
      BridgedHas(a, p, n, b, u);
    }
  }

  lemma CanonicalBetween(a: seq<Interval>, q: Interval, b: seq<Interval>)
    requires Canonical(a + b) && WellFormed(q) && Apart(a, [q]) && Apart([q], b)
    ensures Canonical(a + [q] + b)
  {
    CanonicalConcat(a, b);
    CanonicalSmall([q]);
    CanonicalConcat(a, [q]);
    CanonicalConcat(a + [q], b);
  }

  lemma InsertAlone(s: seq<Interval>, i: nat, t: int)
    requires Canonical(s) && i <= |s| && IsUint32(t)
    requires i > 0 ==> s[i - 1].ub + 1 < t
    requires i < |s| ==> t + 1 < s[i].lb
    ensures Canonical(InsertAt(s, i, Interval(t, t)))
    ensures forall u :: Has(InsertAt(s, i, Interval(t, t)), u) <==> Has(s, u) || u == t
  {
    var a, q, b := s[..i], Interval(t, t), s[i..];
    assert s == a + b;
    CanonicalBetween(a, q, b);
    forall u ensures Has(a + [q] + b, u) <==> Has(s, u) || u == t {
      HasConcat(a, b, u);
      SplicedHas(a, [q], b, u);
      HasSingle(q, u);
    }
  }

  lemma EraseInside(s: seq<Interval>, i: nat, t: int)
    requires Canonical(s) && i < |s| && s[i].lb <= t <= s[i].ub
    ensures var lo := if s[i].lb == t then [] else [Interval(s[i].lb, t - 1)];
            var hi := if s[i].ub == t then [] else [Interval(t + 1, s[i].ub)];
            var r := s[..i] + (lo + hi) + s[i + 1..];
            Canonical(r) && forall u :: Has(r, u) <==> Has(s, u) && u != t
  {
    var a, p, b := s[..i], s[i], s[i + 1..];
    var lo := if p.lb == t then [] else [Interval(p.lb, t - 1)];
    var hi := if p.ub == t then [] else [Interval(t + 1, p.ub)];
    assert s == a + [p] + b;
    AroundIndex(s, i, t);
    CanonicalSmall(lo);
    CanonicalSmall(hi);
    CanonicalConcat(lo, hi);
    Splice(a, [p], lo + hi, b);
    forall u ensures Has(a + (lo + hi) + b, u) <==> Has(s, u) && u != t {
      AroundIndex(s, i, u);
      SplicedHas(a, lo + hi, b, u);
      HasConcat(lo, hi, u);
      if lo != [] { HasSingle(lo[0], u); }
      if hi != [] { HasSingle(hi[0], u); }
    }
  }

  // ---- iterators ----

  /** An iterator position: an interval index and the current number; (|s|, 0) is end(). */
  datatype Cursor = Cursor(at: nat, t: int)

  predicate ValidCursor(s: seq<Interval>, c: Cursor) {
    (c.at == |s| && c.t == 0) || (c.at < |s| && s[c.at].lb <= c.t <= s[c.at].ub)
  }

  function Begin(s: seq<Interval>): Cursor {
    if s == [] then Cursor(0, 0) else Cursor(0, s[0].lb)
  }

  function End(s: seq<Interval>): Cursor {
    Cursor(|s|, 0)
  }

  /** operator++ */
  function Next(s: seq<Interval>, c: Cursor): Cursor
    requires c.at <= |s|
  {
    if c.at == |s| then Cursor(c.at, 0)
    else if c.t == s[c.at].ub then
      if c.at + 1 == |s| then Cursor(c.at + 1, 0) else Cursor(c.at + 1, s[c.at + 1].lb)
    else Cursor(c.at, Wrap(c.t + 1))
  }

  /** operator-- */
  function Prev(s: seq<Interval>, c: Cursor): Cursor
    requires c.at <= |s|
  {
    if c.at == |s| || c.t == s[c.at].lb then
      if c.at == 0 then Cursor(|s|, 0) else Cursor(c.at - 1, s[c.at - 1].ub)
    else Cursor(c.at, Wrap(c.t - 1))
  }

  /** c stands on the least member not below t, or on end() when there is none. */
  ghost predicate IsLeastFrom(s: seq<Interval>, t: int, c: Cursor) {
    && ValidCursor(s, c)
    && (c.at < |s| ==> t <= c.t)
    && (forall u :: Has(s, u) && t <= u ==> c.at < |s| && c.t <= u)
  }

  /** The first interval of what follows index i is where the larger members start. */
  lemma StartOfRest(s: seq<Interval>, i: nat, u: int)
    requires Canonical(s) && i <= |s|
    ensures Has(s[i..], u) ==> i < |s| && s[i].lb <= u
  {
    assert s == s[..i] + s[i..];
    CanonicalConcat(s[..i], s[i..]);
    if i < |s| { Bounds(s[i..], u); }
  }

  lemma BeginIsLeast(s: seq<Interval>)
    requires Canonical(s)
    ensures IsLeastFrom(s, 0, Begin(s))
  {
    forall u ensures Has(s, u) ==> s != [] && s[0].lb <= u {
      assert s[0..] == s;
      StartOfRest(s, 0, u);
    }
    if s != [] { AroundIndex(s, 0, 0); }
  }

  /** ++ moves to the least larger member, or to end() when there is none. */
  lemma NextIsSuccessor(s: seq<Interval>, c: Cursor)
    requires Canonical(s) && ValidCursor(s, c) && c.at < |s|
    ensures Has(s, c.t)
    ensures IsLeastFrom(s, c.t + 1, Next(s, c))
  {
    AroundIndex(s, c.at, c.t);
    NextIsValid(s, c);
    forall u | Has(s, u) && c.t + 1 <= u ensures Next(s, c).at < |s| && Next(s, c).t <= u {
      AroundIndex(s, c.at, u);
      StartOfRest(s, c.at + 1, u);
    }
  }

  /** -- undoes ++. */
  lemma NextIsValid(s: seq<Interval>, c: Cursor)
    requires Canonical(s) && ValidCursor(s, c) && c.at < |s|
    ensures ValidCursor(s, Next(s, c)) && (Next(s, c).at < |s| ==> c.t < Next(s, c).t)
    ensures Prev(s, Next(s, c)) == c
  {
    AroundIndex(s, c.at, c.t);
    if c.at + 1 < |s| { AroundIndex(s, c.at + 1, c.t); }
  }

  /** The edit Insert makes once it knows that t is not a member: grow a neighbour, or insert. */
  method InsertAbsent(s: seq<Interval>, it: nat, t: int) returns (r: seq<Interval>)
    requires Canonical(s) && IsUint32(t) && !Has(s, t) && it == LowerBoundIndex(s, t)
    ensures Canonical(r) && forall u :: Has(r, u) <==> Has(s, u) || u == t
  {
    NeighboursOf(s, it, t);
    if it != 0 && Wrap(s[it - 1].ub + 1) == t {
      if it < |s| && t + 1 == s[it].lb { FillGap(s, it - 1, t); } else { GrowUp(s, it - 1, t); }
      r := s[it - 1 := Interval(s[it - 1].lb, Wrap(s[it - 1].ub + 1))];
      r := JoinWithPrevious(r, it);
    } else if it < |s| && s[it].lb == Wrap(t + 1) {
      GrowDown(s, it, t);
      r := s[it := Interval(Wrap(s[it].lb - 1), s[it].ub)];
      r := JoinWithPrevious(r, it);
    } else {
      InsertAlone(s, it, t);
      r := InsertAt(s, it, Interval(t, t));
    }
  }

  lemma NeighboursOf(s: seq<Interval>, it: nat, t: int)
    requires Canonical(s) && IsUint32(t) && !Has(s, t) && it == LowerBoundIndex(s, t)
    ensures it > 0 ==> WellFormed(s[it - 1]) && s[it - 1].ub < t
    ensures it < |s| ==> WellFormed(s[it]) && t < s[it].lb
  {
    HasAtLowerBound(s, t);
    if it > 0 { AroundIndex(s, it - 1, t); }
    if it < |s| { AroundIndex(s, it, t); }
  }

  /** The edit Erase makes once it knows that interval it holds t. */
  method ErasePresent(s: seq<Interval>, it: nat, t: int) returns (r: seq<Interval>)
    requires Canonical(s) && it < |s| && s[it].lb <= t <= s[it].ub
    ensures Canonical(r) && forall u :: Has(r, u) <==> Has(s, u) && u != t
  {
    EraseInside(s, it, t);
    AroundIndex(s, it, t);
    ghost var lo := if s[it].lb == t then [] else [Interval(s[it].lb, t - 1)];
    ghost var hi := if s[it].ub == t then [] else [Interval(t + 1, s[it].ub)];
    if s[it].lb == t && s[it].ub == t {
      r := EraseAt(s, it);
    } else if s[it].ub == t {
      r := s[it := Interval(s[it].lb, Wrap(s[it].ub - 1))];
    } else if s[it].lb == t {
      r := s[it := Interval(Wrap(s[it].lb + 1), s[it].ub)];
    } else {
      r := InsertAt(s, it + 1, Interval(Wrap(t + 1), s[it].ub));
      r := r[it := Interval(s[it].lb, Wrap(t - 1))];
    }
    assert r == s[..it] + (lo + hi) + s[it + 1..];
  }

  class IntervalVector {
    var elements: seq<Interval>
    var size: nat

    ghost predicate Valid()
      reads this
    {
      Canonical(elements) && size == |Contents()|
    }

    ghost function Contents(): set<int>
      reads this
    {
      Members(elements)
    }

    constructor ()
      ensures Valid() && Contents() == {}
    {
      elements := [];
      size := 0;
      new;
      assert Contents() == {};
    }

    method Insert(t: int) returns (inserted: bool)
      requires Valid() && IsUint32(t)
      modifies this
      ensures Valid()
      ensures Contents() == old(Contents()) + {t}
      ensures inserted == (t !in old(Contents()))
    {
      HasAtLowerBound(elements, t);
      var it := LowerBoundIndex(elements, t);
      if it < |elements| && t >= elements[it].lb && t <= elements[it].ub {
        assert Contents() == Contents() + {t};
        return false;
      }
      elements := InsertAbsent(elements, it, t);
      MembersAdd(old(elements), elements, t);
      size := size + 1;
      return true;
    }

    method Erase(t: int) returns (erased: bool)
      requires Valid() && IsUint32(t)
      modifies this
      ensures Valid()
      ensures Contents() == old(Contents()) - {t}
      ensures erased == (t in old(Contents()))
    {
      HasAtLowerBound(elements, t);
      var it := LowerBoundIndex(elements, t);
      if it == |elements| {
        assert Contents() == Contents() - {t};
        return false;
      }
      if elements[it].ub < t || elements[it].lb > t {
        assert Contents() == Contents() - {t};
        return false;
      }
      assert t in Contents();
      elements := ErasePresent(elements, it, t);
      MembersRemove(old(elements), elements, t);
      size := size - 1;
      return true;
    }

    method Contains(t: int) returns (r: bool)
      requires Valid() && IsUint32(t)
      ensures r == (t in Contents())
    {
      HasAtLowerBound(elements, t);
      var it := LowerBoundIndex(elements, t);
      if it == |elements| {
        return false;
      }
      if elements[it].ub < t || elements[it].lb > t {
        return false;
      }
      return true;
    }

    method Find(t: int) returns (c: Cursor)
      requires Valid() && IsUint32(t)
      ensures ValidCursor(elements, c)
      ensures if t in Contents() then c.at < |elements| && c.t == t else c == End(elements)
    {
      HasAtLowerBound(elements, t);
      var it := LowerBoundIndex(elements, t);
      if it == |elements| {
        return End(elements);
      }
      if elements[it].ub < t || elements[it].lb > t {
        return End(elements);
      }
      return Cursor(it, t);
    }

    /**
     The member function lower_bound is meant to return the least member not below t. It does so
     exactly when t is a member or every member is below t: when t lies in a gap, the code goes to the
     member after the interval that holds the answer.
     */
    method LowerBound(t: int) returns (c: Cursor)
      requires Valid() && IsUint32(t)
      ensures ValidCursor(elements, c)
      ensures IsLeastFrom(elements, t, c) <==> Has(elements, t) || forall u :: Has(elements, u) ==> u < t
      ensures var i := LowerBoundIndex(elements, t);
              c == if i == |elements| then End(elements)
                   else if elements[i].lb <= t then Cursor(i, t)
                   else Next(elements, Cursor(i, elements[i].ub))
    {
      HasAtLowerBound(elements, t);
      var it := LowerBoundIndex(elements, t);
      if it == |elements| {
        forall u ensures Has(elements, u) ==> u < t { if elements != [] { Bounds(elements, u); } }
        return End(elements);
      }
      AroundIndex(elements, it, t);
      AroundIndex(elements, it, elements[it].lb);
      if elements[it].ub < t || elements[it].lb > t {
        assert Has(elements, elements[it].lb);
        if it + 1 == |elements| {
          return End(elements);
        }
        AroundIndex(elements, it + 1, t);
        return Cursor(it + 1, elements[it + 1].lb);
      }
      return Cursor(it, t);
    }

    /** A range-for over the container lists the members, each once, in ascending order. */
    method Enumerate() returns (r: seq<int>)
      requires Valid()
      ensures forall i, j :: 0 <= i < j < |r| ==> r[i] < r[j]
      ensures forall t :: t in r <==> Has(elements, t)
    {
      var c := Begin(elements);
      r := [];
      BeginIsLeast(elements);
      forall t | Has(elements, t) ensures 0 <= t { Bounds(elements, t); }
      while c != End(elements)
        invariant ValidCursor(elements, c)
        invariant forall i, j :: 0 <= i < j < |r| ==> r[i] < r[j]
        invariant forall t :: t in r ==> Has(elements, t)
        invariant forall i :: 0 <= i < |r| && c.at < |elements| ==> r[i] < c.t
        invariant forall t :: Has(elements, t) && t !in r ==> c.at < |elements| && c.t <= t
        decreases |elements| - c.at, if c.at < |elements| then elements[c.at].ub - c.t else 0
      {
        NextIsSuccessor(elements, c);
        r := r + [c.t];
        c := Next(elements, c);
      }
    }

    /**
     Two-cursor intersection. The size counter adds ub - lb + 1 in 32-bit arithmetic, so it is the
     number of members exactly when the result is not the full 32-bit range; then it is 0.
     */
    method Intersect(o: IntervalVector) returns (rv: IntervalVector)
      requires Valid() && o.Valid()
      ensures fresh(rv) && Canonical(rv.elements)
      ensures rv.Contents() == Contents() * o.Contents()
      ensures rv.size == if |Contents() * o.Contents()| == UINT32_COUNT then 0 else |Contents() * o.Contents()|
      ensures rv.Valid() <==> |Contents() * o.Contents()| < UINT32_COUNT
    {
      var out, n := IntersectLists(elements, o.elements);
      CountIsCardinality(out);
      MaximumCount(out);
      assert Members(out) == Members(elements) * Members(o.elements);
      rv := new IntervalVector();
      rv.elements := out;
      rv.size := n;
    }
  }

  // ---- the intersection loop ----

  function Max(x: int, y: int): int {
    if x >= y then x else y
  }

  function Min(x: int, y: int): int {
    if x <= y then x else y
  }

  /** Extend the last interval if the new one starts right after it, else append. */
  function Emit(out: seq<Interval>, lb: int, ub: int): seq<Interval> {
    if out != [] && Wrap(out[|out| - 1].ub + 1) == lb then
      out[|out| - 1 := Interval(out[|out| - 1].lb, ub)]
    else
      out + [Interval(lb, ub)]
  }

  /** The size counter: a single step that adds the whole 32-bit range adds 0. */
  function WrappedCount(out: seq<Interval>): int {
    if Count(out) == UINT32_COUNT then 0 else Count(out)
  }

  /** What either cursor has passed has been intersected. */
  ghost predicate Passed(x: seq<Interval>, a: nat, y: seq<Interval>, b: nat, out: seq<Interval>)
    requires a <= |x| && b <= |y|
  {
    forall t :: Has(out, t) <==> Has(x, t) && Has(y, t) && (Has(x[..a], t) || Has(y[..b], t))
  }

  /** The output lies before both cursors. */
  predicate Behind(x: seq<Interval>, a: nat, y: seq<Interval>, b: nat, out: seq<Interval>) {
    out != [] && a < |x| && b < |y| ==> out[|out| - 1].ub + 1 < Max(x[a].lb, y[b].lb)
  }

  method IntersectLists(x: seq<Interval>, y: seq<Interval>) returns (out: seq<Interval>, n: nat)
    requires Canonical(x) && Canonical(y)
    ensures Canonical(out)
    ensures forall t :: Has(out, t) <==> Has(x, t) && Has(y, t)
    ensures n == WrappedCount(out)
  {
    var a, b := 0, 0;
    out, n := [], 0;
    if x != [] && y != [] {
      while a < |x| && b < |y|
        invariant a <= |x| && b <= |y| && Canonical(out)
        invariant Passed(x, a, y, b, out) && Behind(x, a, y, b, out)
        invariant n == WrappedCount(out)
        decreases |x| - a + |y| - b
      {
        a := SkipLeftOf(x, a, y, b, out);
        b := SkipRightOf(x, a, y, b, out);
        a, b, out, n := EmitOverlaps(x, a, y, b, out, n);
      }
    }
    AllPassed(x, a, y, b, out);
  }

  /** First inner loop: pass the intervals of x that end before y[b] starts. */
  method SkipLeftOf(x: seq<Interval>, a: nat, y: seq<Interval>, b: nat, ghost out: seq<Interval>) returns (a': nat)
    requires Canonical(x) && Canonical(y) && a <= |x| && b <= |y|
    requires Passed(x, a, y, b, out) && Behind(x, a, y, b, out)
    ensures a <= a' <= |x| && Passed(x, a', y, b, out) && Behind(x, a', y, b, out)
    ensures a' < |x| && b < |y| ==> x[a'].ub >= y[b].lb
  {
    a' := a;
    while a' < |x| && b < |y| && x[a'].ub < y[b].lb
      invariant a <= a' <= |x|
      invariant Passed(x, a', y, b, out) && Behind(x, a', y, b, out)
    {
      SkipLeft(x, a', y, b, out);
      a' := a' + 1;
    }
  }

  /** Second inner loop: pass the intervals of y that end before x[a] starts. */
  method SkipRightOf(x: seq<Interval>, a: nat, y: seq<Interval>, b: nat, ghost out: seq<Interval>) returns (b': nat)
    requires Canonical(x) && Canonical(y) && a <= |x| && b <= |y|
    requires Passed(x, a, y, b, out) && Behind(x, a, y, b, out)
    ensures b <= b' <= |y| && Passed(x, a, y, b', out) && Behind(x, a, y, b', out)
    ensures a < |x| && b' < |y| ==> y[b'].ub >= x[a].lb
    ensures a < |x| && b < |y| && x[a].ub >= y[b].lb ==> b' > b || y[b].ub >= x[a].lb
  {
    b' := b;
    while a < |x| && b' < |y| && y[b'].ub < x[a].lb
      invariant b <= b' <= |y|
      invariant Passed(x, a, y, b', out) && Behind(x, a, y, b', out)
    {
      SkipRight(x, a, y, b', out);
      b' := b' + 1;
    }
  }

  /** The output is the intersection of what has been passed, n its size in 32 bits. */
  ghost predicate Emitted(x: seq<Interval>, a: nat, y: seq<Interval>, b: nat, out: seq<Interval>, n: nat) {
    && a <= |x| && b <= |y| && Canonical(out) && Passed(x, a, y, b, out) && Behind(x, a, y, b, out)
    && n == WrappedCount(out)
  }

  /** Third inner loop: emit overlaps, stepping past the interval that ends first. */
  method EmitOverlaps(x: seq<Interval>, a: nat, y: seq<Interval>, b: nat, out: seq<Interval>, n: nat)
      returns (a': nat, b': nat, out': seq<Interval>, n': nat)
    requires Canonical(x) && Canonical(y) && Emitted(x, a, y, b, out, n)
    ensures a <= a' && b <= b' && Emitted(x, a', y, b', out', n')
    ensures a < |x| && b < |y| && x[a].ub >= y[b].lb && y[b].ub >= x[a].lb ==> a < a' || b < b'
  {
    a', b', out', n' := a, b, out, n;
    while a' < |x| && b' < |y| && x[a'].ub >= y[b'].lb && y[b'].ub >= x[a'].lb
      invariant a <= a' && b <= b' && Emitted(x, a', y, b', out', n')
      decreases |x| - a' + |y| - b'
    {
      a', b', out', n' := EmitNext(x, a', y, b', out', n');
    }
  }

  method EmitNext(x: seq<Interval>, a: nat, y: seq<Interval>, b: nat, out: seq<Interval>, n: nat)
      returns (a': nat, b': nat, out': seq<Interval>, n': nat)
    requires Canonical(x) && Canonical(y) && Emitted(x, a, y, b, out, n)
    requires a < |x| && b < |y| && x[a].ub >= y[b].lb && y[b].ub >= x[a].lb
    ensures Emitted(x, a', y, b', out', n') && a <= a' && b <= b' && a + b < a' + b'
  {
    var lb, ub := Max(x[a].lb, y[b].lb), Min(x[a].ub, y[b].ub);
    EmitOverlap(x, a, y, b, out);
    a', b', out', n' := a, b, Emit(out, lb, ub), n + Wrap(ub - lb + 1);
    if x[a].ub < y[b].ub {
      a' := a + 1;
    } else {
      b' := b + 1;
    }
  }

  lemma AllPassed(x: seq<Interval>, a: nat, y: seq<Interval>, b: nat, out: seq<Interval>)
    requires a <= |x| && b <= |y| && (x == [] || y == [] || a == |x| || b == |y|)
    requires Passed(x, a, y, b, out)
    ensures forall t :: Has(out, t) <==> Has(x, t) && Has(y, t)
  {
    assert x[..|x|] == x && y[..|y|] == y;
  }

  lemma HasAdvance(x: seq<Interval>, a: nat, t: int)
    requires a < |x|
    ensures Has(x[..a + 1], t) <==> Has(x[..a], t) || x[a].lb <= t <= x[a].ub
  {
    assert x[..a + 1][..a] == x[..a];
  }

  lemma SkipLeft(x: seq<Interval>, a: nat, y: seq<Interval>, b: nat, out: seq<Interval>)
    requires Canonical(x) && Canonical(y) && a < |x| && b < |y| && x[a].ub < y[b].lb
    requires Passed(x, a, y, b, out) && Behind(x, a, y, b, out)
    ensures Passed(x, a + 1, y, b, out) && Behind(x, a + 1, y, b, out)
  {
    forall t ensures Has(out, t) <==> Has(x, t) && Has(y, t) && (Has(x[..a + 1], t) || Has(y[..b], t)) {
      HasAdvance(x, a, t);
      AroundIndex(x, a, t);
      AroundIndex(y, b, t);
    }
    AroundIndex(x, a, 0);
  }

  lemma SkipRight(x: seq<Interval>, a: nat, y: seq<Interval>, b: nat, out: seq<Interval>)
    requires Canonical(x) && Canonical(y) && a < |x| && b < |y| && y[b].ub < x[a].lb
    requires Passed(x, a, y, b, out) && Behind(x, a, y, b, out)
    ensures Passed(x, a, y, b + 1, out) && Behind(x, a, y, b + 1, out)
  {
    forall t ensures Has(out, t) <==> Has(x, t) && Has(y, t) && (Has(x[..a], t) || Has(y[..b + 1], t)) {
      HasAdvance(y, b, t);
      AroundIndex(x, a, t);
      AroundIndex(y, b, t);
    }
    AroundIndex(y, b, 0);
  }

  lemma MaximumCount(s: seq<Interval>)
    requires Canonical(s)
    ensures s != [] ==> 0 <= Count(s) <= s[|s| - 1].ub + 1
    ensures 0 <= Count(s) <= UINT32_COUNT
  {
  }

  lemma EmitAppends(out: seq<Interval>, lb: int, ub: int)
    requires Canonical(out) && 0 <= lb <= ub <= UINT32_MAX
    requires out != [] ==> out[|out| - 1].ub + 1 < lb
    ensures Emit(out, lb, ub) == out + [Interval(lb, ub)]
    ensures Canonical(Emit(out, lb, ub))
    ensures WrappedCount(Emit(out, lb, ub)) == WrappedCount(out) + Wrap(ub - lb + 1)
    ensures forall t :: Has(Emit(out, lb, ub), t) <==> Has(out, t) || lb <= t <= ub
  {
    var r := out + [Interval(lb, ub)];
    assert r[..|r| - 1] == out;
    assert Emit(out, lb, ub) == r;
    MaximumCount(out);
    MaximumCount(r);
  }

  lemma EmitOverlap(x: seq<Interval>, a: nat, y: seq<Interval>, b: nat, out: seq<Interval>)
    requires Canonical(x) && Canonical(y) && Canonical(out)
    requires a < |x| && b < |y| && x[a].ub >= y[b].lb && y[b].ub >= x[a].lb
    requires Passed(x, a, y, b, out) && Behind(x, a, y, b, out)
    ensures var lb, ub := Max(x[a].lb, y[b].lb), Min(x[a].ub, y[b].ub);
            var r := Emit(out, lb, ub);
            var a', b' := if x[a].ub < y[b].ub then a + 1 else a, if x[a].ub < y[b].ub then b else b + 1;
            && Canonical(r) && WrappedCount(r) == WrappedCount(out) + Wrap(ub - lb + 1)
            && Passed(x, a', y, b', r) && Behind(x, a', y, b', r)
  {
    var lb, ub := Max(x[a].lb, y[b].lb), Min(x[a].ub, y[b].ub);
    var a', b' := if x[a].ub < y[b].ub then a + 1 else a, if x[a].ub < y[b].ub then b else b + 1;
    AroundIndex(x, a, 0);
    AroundIndex(y, b, 0);
    EmitAppends(out, lb, ub);
    forall t ensures Has(Emit(out, lb, ub), t) <==> Has(x, t) && Has(y, t) && (Has(x[..a'], t) || Has(y[..b'], t)) {
      HasAdvance(x, a, t);
      HasAdvance(y, b, t);
      AroundIndex(x, a, t);
      AroundIndex(y, b, t);
    }
  }

  /** In {1, 5} the lower bound of 3 should be 5, but is the end. */
  method LowerBoundSkips() returns (v: IntervalVector, c: Cursor)
    ensures v.Valid() && v.Contents() == {1, 5} && c == End(v.elements) && !IsLeastFrom(v.elements, 3, c)
  {
    v := new IntervalVector();
    var one := v.Insert(1);
    var five := v.Insert(5);
    OneAndFive(v.elements);
    c := v.LowerBound(3);
    assert v.elements[LowerBoundIndex(v.elements, 3)] == Interval(5, 5);
  }

  lemma OneAndFive(s: seq<Interval>)
    requires Canonical(s) && Members(s) == {1, 5}
    ensures s == [Interval(1, 1), Interval(5, 5)] && Has(s, 5) && !Has(s, 3)
  {
    var one, five := Interval(1, 1), Interval(5, 5);
    var list := [one] + [five];
    CanonicalSmall([one]);
    CanonicalSmall([five]);
    CanonicalConcat([one], [five]);
    forall t ensures Has(s, t) <==> Has(list, t) {
      HasPair(one, five, t);
      if Has(s, t) { Bounds(s, t); }
      assert 0 <= t < UINT32_COUNT ==> (Has(s, t) <==> t in Members(s));
    }
    CanonicalFormIsUnique(s, list);
    HasPair(one, five, 3);
    HasPair(one, five, 5);
    assert s == [one, five];
  }
}
