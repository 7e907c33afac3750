/**
 Parenthesised stretches of a window are packed away into the cohort before them, rightmost first, and
 unpacked again one group per pass, leftmost first.
 */
module Enclosures {

  /** pleft and pright are the parenthesis tags of a cohort, 0 for none; group is what is packed away in it. */
  datatype Cohort = Cohort(id: int, pleft: int, pright: int, local: int, enclosed: bool, group: seq<Cohort>)

  /** A cohort by itself. */
  function Bare(c: Cohort): Cohort {
    c.(local := 0, enclosed := false, group := [])
  }

  /** The words in text order. */
  function Flatten(cs: seq<Cohort>): seq<Cohort> {
    if cs == [] then [] else [Bare(cs[0])] + Flatten(cs[0].group) + Flatten(cs[1..])
  }

  /** The number of groups packed away, at any depth. */
  function Groups(cs: seq<Cohort>): nat {
    if cs == [] then 0
    else (if cs[0].group == [] then 0 else 1) + Groups(cs[0].group) + Groups(cs[1..])
  }

  /** CT_ENCLOSED is on for the packed cohorts; top says whether it is on for cs themselves. */
  predicate Flagged(cs: seq<Cohort>, top: bool) {
    cs != [] ==> cs[0].enclosed == top && Flagged(cs[0].group, true) && Flagged(cs[1..], top)
  }

  lemma {:induction false} FlattenAppend(a: seq<Cohort>, b: seq<Cohort>)
    ensures Flatten(a + b) == Flatten(a) + Flatten(b)
    decreases |a|
  {
    if a == [] {
      assert a + b == b;
    } else {
      var c, rest := a[0], a[1..];
      FlattenAppend(rest, b);
      FlattenCons(c, rest);
      FlattenCons(c, rest + b);
      Regroup([c], rest, b);
      Regroup([Bare(c)] + Flatten(c.group), Flatten(rest), Flatten(b));
      assert a == [c] + rest;
    }
  }

  lemma Regroup(x: seq<Cohort>, y: seq<Cohort>, z: seq<Cohort>)
    ensures x + (y + z) == x + y + z
  {
  }

  lemma FlattenCons(c: Cohort, rest: seq<Cohort>)
    ensures Flatten([c] + rest) == [Bare(c)] + Flatten(c.group) + Flatten(rest)
  {
    assert ([c] + rest)[1..] == rest;
  }

  lemma {:induction false} GroupsAppend(a: seq<Cohort>, b: seq<Cohort>)
    ensures Groups(a + b) == Groups(a) + Groups(b)
    decreases |a|
  {
    if a == [] {
      assert a + b == b;
    } else {
      GroupsAppend(a[1..], b);
      assert (a + b)[0] == a[0] && (a + b)[1..] == a[1..] + b;
    }
  }

  lemma {:induction false} FlaggedAppend(a: seq<Cohort>, b: seq<Cohort>, top: bool)
    ensures Flagged(a + b, top) <==> Flagged(a, top) && Flagged(b, top)
    decreases |a|
  {
    if a == [] {
      assert a + b == b;
    } else {
      FlaggedAppend(a[1..], b, top);
      assert (a + b)[0] == a[0] && (a + b)[1..] == a[1..] + b;
    }
  }

  /** A stretch of the window is replaced by another with the same text and n more groups. */
  lemma Replace(a: seq<Cohort>, x: seq<Cohort>, y: seq<Cohort>, b: seq<Cohort>, n: int)
    requires Flatten(x) == Flatten(y) && Groups(y) == Groups(x) + n && Flagged(y, false)
    requires Flagged(a + x + b, false)
    ensures Flatten(a + y + b) == Flatten(a + x + b) && Groups(a + y + b) == Groups(a + x + b) + n
    ensures Flagged(a + y + b, false)
  {
    FlattenAppend(a + x, b);
    FlattenAppend(a + y, b);
    FlattenAppend(a, x);
    FlattenAppend(a, y);
    ReplaceFlags(a, x, y, b);
    ReplaceGroups(a, x, y, b);
  }

  lemma ReplaceFlags(a: seq<Cohort>, x: seq<Cohort>, y: seq<Cohort>, b: seq<Cohort>)
    requires Flagged(a + x + b, false) && Flagged(y, false)
    ensures Flagged(a + y + b, false)
  {
    FlaggedAppend(a + x, b, false);
    FlaggedAppend(a, x, false);
    FlaggedAppend(a + y, b, false);
    FlaggedAppend(a, y, false);
  }

  lemma ReplaceGroups(a: seq<Cohort>, x: seq<Cohort>, y: seq<Cohort>, b: seq<Cohort>)
    ensures Groups(a + y + b) - Groups(a + x + b) == Groups(y) - Groups(x)
  {
    GroupsAppend(a + x, b);
    GroupsAppend(a, x);
    GroupsAppend(a + y, b);
    GroupsAppend(a, y);
  }

  /** b is a with other local numbers. */
  predicate Renumbered(a: seq<Cohort>, b: seq<Cohort>) {
    |a| == |b| && forall i :: 0 <= i < |a| ==> b[i] == a[i].(local := b[i].local)
  }

  lemma {:induction false} RenumberedFlatten(a: seq<Cohort>, b: seq<Cohort>)
    requires Renumbered(a, b)
    ensures Flatten(a) == Flatten(b) && Groups(a) == Groups(b)
    ensures forall top :: Flagged(a, top) <==> Flagged(b, top)
    decreases |a|
  {
    if a != [] {
      var c, d := a[0], b[0];
      assert d == c.(local := d.local);
      RenumberedFlatten(a[1..], b[1..]);
    }
  }

  /** b is a with the flag set to on. */
  predicate Marked(a: seq<Cohort>, b: seq<Cohort>, on: bool) {
    |a| == |b| && forall i :: 0 <= i < |a| ==> b[i] == a[i].(local := b[i].local, enclosed := on)
  }

  lemma {:induction false} MarkedFlatten(a: seq<Cohort>, b: seq<Cohort>, was: bool, on: bool)
    requires Marked(a, b, on) && Flagged(a, was)
    ensures Flatten(a) == Flatten(b) && Groups(a) == Groups(b) && Flagged(b, on)
    decreases |a|
  {
    if a != [] {
      var c, d := a[0], b[0];
      assert d == c.(local := d.local, enclosed := on);
      MarkedFlatten(a[1..], b[1..], was, on);
    }
  }

  predicate Numbered(cs: seq<Cohort>) {
    forall i :: 0 <= i < |cs| ==> cs[i].local == i
  }

  // ---- finding a group to pack ----

  /** The left parenthesis at p has its right parenthesis at p or later. */
  ghost predicate Matchable(parens: map<int, int>, cs: seq<Cohort>, p: int)
    requires 0 <= p < |cs|
  {
    && cs[p].pleft != 0 && cs[p].pleft in parens
    && exists q :: p <= q < |cs| && cs[q].pright == parens[cs[p].pleft]
  }

  /** From position h on nothing can be packed, and before the host of the last packing nothing is. */
  ghost predicate PackedFrom(parens: map<int, int>, cs: seq<Cohort>, h: int) {
    && (forall p :: h <= p < |cs| && 0 <= p ==> !Matchable(parens, cs, p))
    && (forall p :: 0 <= p < h - 1 && p < |cs| ==> cs[p].group == [])
  }

  /** The first right parenthesis tag at q or later, or the end. */
  function RightOf(cs: seq<Cohort>, tag: int, q: int): (x: int)
    requires 0 <= q <= |cs|
    ensures q <= x <= |cs| && (x < |cs| ==> cs[x].pright == tag)
    ensures forall y :: q <= y < x ==> cs[y].pright != tag
    decreases |cs| - q
  {
    if q == |cs| || cs[q].pright == tag then q else RightOf(cs, tag, q + 1)
  }

  /** The rightmost position before p that can be packed, or -1. */
  ghost function Rightmost(parens: map<int, int>, cs: seq<Cohort>, p: int): (x: int)
    requires 0 <= p <= |cs|
    ensures -1 <= x < p && (0 <= x ==> Matchable(parens, cs, x))
    ensures forall y :: 0 <= y < p && x < y ==> !Matchable(parens, cs, y)
    decreases p
  {
    if p == 0 then -1 else if Matchable(parens, cs, p - 1) then p - 1 else Rightmost(parens, cs, p - 1)
  }

  /** Local numbers in order. */
  function InOrder(cs: seq<Cohort>): (r: seq<Cohort>)
    ensures Renumbered(cs, r) && Numbered(r)
  {
    seq(|cs|, i requires 0 <= i < |cs| => cs[i].(local := i))
  }

  /** The window with everything packed: the rightmost group goes into the cohort before it, until none is left. */
  ghost function Packing(parens: map<int, int>, cs: seq<Cohort>): seq<Cohort>
    requires cs != [] && cs[0].pleft == 0
    decreases |cs|
  {
    var p := Rightmost(parens, cs, |cs|);
    if p <= 0 then cs
    else
      var q := RightOf(cs, parens[cs[p].pleft], p);
      Packing(parens, InOrder(Packed(cs, p, q)))
  }

  /** The window after cohorts p to q have been packed into the one before them, but for local numbers. */
  function Packed(cs: seq<Cohort>, p: int, q: int): seq<Cohort>
    requires 0 < p <= q < |cs|
  {
    cs[..p - 1] + [cs[p - 1].(group := Enclosed(cs[p..q + 1]) + cs[p - 1].group)] + cs[q + 1..]
  }

  function Enclosed(cs: seq<Cohort>): (r: seq<Cohort>)
    ensures Marked(cs, r, true)
  {
    seq(|cs|, i requires 0 <= i < |cs| => cs[i].(enclosed := true))
  }

  /** Packing into a cohort with no group keeps the text. */
  lemma PackingKeeps(cs: seq<Cohort>, p: int, q: int)
    requires 0 < p <= q < |cs| && cs[p - 1].group == [] && Flagged(cs, false)
    ensures var r := Packed(cs, p, q);
            Flatten(r) == Flatten(cs) && Groups(r) == Groups(cs) + 1 && Flagged(r, false)
  {
    var host, mid := cs[p - 1], cs[p..q + 1];
    var a, b := cs[..p - 1], cs[q + 1..];
    var x, y := [host] + mid, [host.(group := Enclosed(mid))];
    PackedParts(cs, p, q);
    FlaggedAppend(a + x, b, false);
    FlaggedAppend(a, x, false);
    HostKeeps(host, mid);
    Replace(a, x, y, b, 1);
  }

  lemma PackedParts(cs: seq<Cohort>, p: int, q: int)
    requires 0 < p <= q < |cs| && cs[p - 1].group == []
    ensures cs == cs[..p - 1] + ([cs[p - 1]] + cs[p..q + 1]) + cs[q + 1..]
    ensures Packed(cs, p, q) == cs[..p - 1] + [cs[p - 1].(group := Enclosed(cs[p..q + 1]))] + cs[q + 1..]
  {
    assert Enclosed(cs[p..q + 1]) + cs[p - 1].group == Enclosed(cs[p..q + 1]);
  }

  lemma HostKeeps(host: Cohort, mid: seq<Cohort>)
    requires host.group == [] && mid != [] && Flagged([host] + mid, false)
    ensures var host' := host.(group := Enclosed(mid));
            Flatten([host']) == Flatten([host] + mid) && Groups([host']) == Groups([host] + mid) + 1 &&
                Flagged([host'], false)
  {
    var host' := host.(group := Enclosed(mid));
    FlattenAppend([host], mid);
    GroupsAppend([host], mid);
    FlaggedAppend([host], mid, false);
    MarkedFlatten(mid, Enclosed(mid), false, true);
    assert Bare(host) == Bare(host');
    assert Flatten([host]) == [Bare(host)];
  }

  /** Afterwards the host is the last place with a group, and only positions before it can be packed. */
  lemma PackingMovesLeft(parens: map<int, int>, cs: seq<Cohort>, p: int, q: int, h: int)
    requires 0 < p <= q < |cs| && p < h && PackedFrom(parens, cs, h)
    requires forall x :: p < x < |cs| ==> !Matchable(parens, cs, x)
    ensures PackedFrom(parens, Packed(cs, p, q), p)
  {
    var r := Packed(cs, p, q);
    var k := q + 1 - p;
    assert |r| == |cs| - k;
    forall x | p <= x < |r| ensures !Matchable(parens, r, x) {
      assert r[x] == cs[x + k];
      assert !Matchable(parens, cs, x + k);
      forall y | x <= y < |r| ensures r[y] == cs[y + k] {}
    }
  }

  // ---- unpacking ----

  function Freed(cs: seq<Cohort>): (r: seq<Cohort>)
    ensures Marked(cs, r, false)
  {
    seq(|cs|, i requires 0 <= i < |cs| => cs[i].(enclosed := false))
  }

  /** The window after the group in cohort i has been put back behind it. */
  function Unpacked(cs: seq<Cohort>, i: int): seq<Cohort>
    requires 0 <= i < |cs|
  {
    cs[..i] + ([cs[i].(group := [])] + Freed(cs[i].group)) + cs[i + 1..]
  }

  lemma HostFreed(host: Cohort)
    requires Flagged([host], false) && host.group != []
    ensures var y := [host.(group := [])] + Freed(host.group);
            Flatten(y) == Flatten([host]) && Groups(y) == Groups([host]) - 1 && Flagged(y, false)
  {
    var host' := host.(group := []);
    FlattenAppend([host'], Freed(host.group));
    GroupsAppend([host'], Freed(host.group));
    FlaggedAppend([host'], Freed(host.group), false);
    MarkedFlatten(host.group, Freed(host.group), true, false);
    assert Bare(host) == Bare(host');
    assert Flatten([host']) == [Bare(host)];
  }

  lemma UnpackingKeeps(cs: seq<Cohort>, i: int)
    requires 0 <= i < |cs| && cs[i].group != [] && Flagged(cs, false)
    ensures var r := Unpacked(cs, i);
            Flatten(r) == Flatten(cs) && Groups(r) == Groups(cs) - 1 && Flagged(r, false)
  {
    var a, b := cs[..i], cs[i + 1..];
    assert cs == a + [cs[i]] + b;
    FlaggedAppend(a + [cs[i]], b, false);
    FlaggedAppend(a, [cs[i]], false);
    HostFreed(cs[i]);
    Replace(a, [cs[i]], [cs[i].(group := [])] + Freed(cs[i].group), b, -1);
  }

  lemma {:induction false} NoGroups(cs: seq<Cohort>)
    ensures Groups(cs) == 0 <==> forall i :: 0 <= i < |cs| ==> cs[i].group == []
    decreases |cs|
  {
    if cs != [] { NoGroups(cs[1..]); }
  }

  /** With no groups and the flags off, the window is its text with local numbers. */
  lemma {:induction false} OnlyText(cs: seq<Cohort>)
    requires Flagged(cs, false) && forall i :: 0 <= i < |cs| ==> cs[i].group == []
    ensures |Flatten(cs)| == |cs| && forall i :: 0 <= i < |cs| ==> Flatten(cs)[i] == cs[i].(local := 0)
    decreases |cs|
  {
    if cs != [] {
      OnlyText(cs[1..]);
      assert Flatten(cs) == [Bare(cs[0])] + Flatten(cs[1..]);
      forall i | 0 < i < |cs| ensures Flatten(cs)[i] == cs[i].(local := 0) {
        assert Flatten(cs)[i] == Flatten(cs[1..])[i - 1] && cs[i] == cs[1..][i - 1];
      }
    }
  }

  lemma SameText(cs: seq<Cohort>, cs': seq<Cohort>)
    requires Flagged(cs, false) && Numbered(cs) && forall i :: 0 <= i < |cs| ==> cs[i].group == []
    requires Flagged(cs', false) && Numbered(cs') && Flatten(cs) == Flatten(cs')
    ensures cs' == cs <==> Groups(cs') == 0
  {
    NoGroups(cs);
    NoGroups(cs');
    OnlyText(cs);
    if Groups(cs') == 0 {
      OnlyText(cs');
      forall i | 0 <= i < |cs| ensures cs[i] == cs'[i] {
        assert cs[i].(local := 0) == cs'[i].(local := 0);
        assert cs[i] == cs[i].(local := 0).(local := i);
      }
    }
  }

  // ---- unpacking runs packing backwards ----

  /** One packing of a scan: the window before it, and the first and last cohort that it packs. */
  datatype Step = Step(before: seq<Cohort>, p: int, q: int)

  predicate InRange(s: Step) {
    0 < s.p <= s.q < |s.before|
  }

  function WindowAfter(s: Step): seq<Cohort>
    requires InRange(s)
  {
    InOrder(Packed(s.before, s.p, s.q))
  }

  /** p is the last left parenthesis that has its right one, q the first of these; no cohort before p has a group. */
  ghost predicate IsStep(parens: map<int, int>, s: Step) {
    && InRange(s) && Flagged(s.before, false) && Numbered(s.before)
    && Matchable(parens, s.before, s.p) && s.q == RightOf(s.before, parens[s.before[s.p].pleft], s.p)
    && (forall x :: s.p < x < |s.before| ==> !Matchable(parens, s.before, x))
    && forall x :: 0 <= x < s.p ==> s.before[x].group == []
  }

  /** The window after the first i of the steps; now is the one after all of them. */
  function WindowAt(steps: seq<Step>, now: seq<Cohort>, i: nat): seq<Cohort> {
    if i < |steps| then steps[i].before else now
  }

  /** Each step begins where the one before ends, and makes one more group from the same text. */
  ghost predicate IsScan(parens: map<int, int>, cs: seq<Cohort>, steps: seq<Step>, now: seq<Cohort>) {
    && WindowAt(steps, now, 0) == cs
    && (forall i: nat :: i < |steps| ==> IsStepAt(parens, steps, now, i))
    && (forall i: nat :: i <= |steps| ==> IsStage(cs, i, WindowAt(steps, now, i)))
  }

  ghost predicate IsStepAt(parens: map<int, int>, steps: seq<Step>, now: seq<Cohort>, i: nat)
    requires i < |steps|
  {
    IsStep(parens, steps[i]) && WindowAfter(steps[i]) == WindowAt(steps, now, i + 1)
  }

  ghost predicate IsStage(cs: seq<Cohort>, i: nat, w: seq<Cohort>) {
    && Flatten(w) == Flatten(cs) && Groups(w) == i
    && Flagged(w, false) && Numbered(w) && w != [] && w[0].pleft == 0
  }

  /** What the scan has found is a step, and what it makes of the window keeps what it should. */
  lemma FoundStep(parens: map<int, int>, cs: seq<Cohort>, h: int, p: int, q: int)
    requires 0 < p <= q < |cs| && cs[p].pleft != 0 && cs[p].pleft in parens && q == RightOf(cs, parens[cs[p].pleft], p)
    requires forall x :: p < x < |cs| ==> !Matchable(parens, cs, x)
    requires Flagged(cs, false) && Numbered(cs) && PackedFrom(parens, cs, h) && cs[0].pleft == 0
    ensures IsStep(parens, Step(cs, p, q))
    ensures var r := WindowAfter(Step(cs, p, q));
            && Flatten(r) == Flatten(cs) && Groups(r) == Groups(cs) + 1 && Flagged(r, false) && Numbered(r)
            && |r| < |cs| && p <= |r| && r[0].pleft == 0 && PackedFrom(parens, r, p)
  {
    assert Matchable(parens, cs, p);
    PackingKeeps(cs, p, q);
    PackingMovesLeft(parens, cs, p, q, h);
    var target := Packed(cs, p, q);
    RenumberedFlatten(target, InOrder(target));
    RenumberedMatch(parens, target, InOrder(target), p);
  }

  lemma OneMoreStep(parens: map<int, int>, cs: seq<Cohort>, steps: seq<Step>, s: Step, now: seq<Cohort>)
    requires IsScan(parens, cs, steps, s.before) && IsStep(parens, s) && now == WindowAfter(s)
    requires IsStage(cs, |steps| + 1, now)
    ensures IsScan(parens, cs, steps + [s], now)
  {
    var longer := steps + [s];
    forall i: nat | i <= |steps| ensures WindowAt(longer, now, i) == WindowAt(steps, s.before, i) {
    }
    forall i: nat | i <= |steps| ensures IsStage(cs, i, WindowAt(longer, now, i)) {
      assert IsStage(cs, i, WindowAt(steps, s.before, i));
    }
    forall i: nat | i < |longer| ensures IsStepAt(parens, longer, now, i) {
      if i < |steps| { assert IsStepAt(parens, steps, s.before, i) && longer[i] == steps[i]; }
    }
  }

  lemma {:induction false} NoneEnclosed(cs: seq<Cohort>, i: nat)
    requires Flagged(cs, false) && i < |cs|
    ensures !cs[i].enclosed
    decreases i
  {
    if i > 0 { NoneEnclosed(cs[1..], i - 1); }
  }

  /** Cohort i has a group and none before it has. */
  ghost predicate IsLeftmost(cs: seq<Cohort>, i: int) {
    0 <= i < |cs| && cs[i].group != [] && forall x :: 0 <= x < i ==> cs[x].group == []
  }

  /** r is cs with cohorts p to q packed, cohort by cohort. */
  ghost predicate IsPackedAt(cs: seq<Cohort>, p: int, q: int, r: seq<Cohort>) {
    var k := q + 1 - p;
    && 0 < p <= q < |cs| && |r| == |cs| - k
    && (forall x :: 0 <= x < p - 1 ==> r[x] == cs[x].(local := x))
    && r[p - 1] == cs[p - 1].(local := p - 1, group := Enclosed(cs[p..q + 1]))
    && forall x :: p <= x < |r| ==> r[x] == cs[x + k].(local := x)
  }

  /** u is r with the group of cohort i put back, cohort by cohort. */
  ghost predicate IsUnpackedAt(r: seq<Cohort>, i: int, u: seq<Cohort>) {
    && 0 <= i < |r| && |u| == |r| + |r[i].group|
    && (forall x :: 0 <= x < i ==> u[x] == r[x].(local := x))
    && u[i] == r[i].(local := i, group := [])
    && (forall x :: i < x <= i + |r[i].group| ==> u[x] == r[i].group[x - i - 1].(local := x, enclosed := false))
    && forall x :: i + |r[i].group| < x < |u| ==> u[x] == r[x - |r[i].group|].(local := x)
  }

  lemma PackedAt(cs: seq<Cohort>, p: int, q: int)
    requires 0 < p <= q < |cs| && cs[p - 1].group == []
    ensures IsPackedAt(cs, p, q, InOrder(Packed(cs, p, q)))
  {
    PackedParts(cs, p, q);
  }

  lemma UnpackedAt(r: seq<Cohort>, i: int)
    requires 0 <= i < |r|
    ensures IsUnpackedAt(r, i, InOrder(Unpacked(r, i)))
  {
  }

  lemma SameAgain(cs: seq<Cohort>, p: int, q: int, r: seq<Cohort>, u: seq<Cohort>)
    requires IsPackedAt(cs, p, q, r) && IsUnpackedAt(r, p - 1, u)
    requires Flagged(cs, false) && Numbered(cs) && cs[p - 1].group == []
    ensures u == cs
  {
    var k := q + 1 - p;
    assert |r[p - 1].group| == k;
    forall i | 0 <= i < |u| ensures u[i] == cs[i] {
      NoneEnclosed(cs, i);
      assert cs[i].local == i;
      if q < i {
        assert r[i - k] == cs[i].(local := i - k);
      } else if p <= i {
        var group := Enclosed(cs[p..q + 1]);
        assert group[i - p] == cs[p..q + 1][i - p].(local := group[i - p].local, enclosed := true);
        assert cs[p..q + 1][i - p] == cs[i];
      }
    }
  }

  lemma HostIsLeftmost(cs: seq<Cohort>, p: int, q: int, r: seq<Cohort>)
    requires IsPackedAt(cs, p, q, r) && forall x :: 0 <= x < p ==> cs[x].group == []
    ensures IsLeftmost(r, p - 1) && |r[p - 1].group| == q - p + 1
  {
    assert forall x :: 0 <= x < p - 1 ==> r[x].group == cs[x].group;
  }

  /**
   The inverse law. After a packing the leftmost group is the one it has made, and with that group put back the
   window is what it was before.
   */
  lemma UnpackingUndoesPacking(parens: map<int, int>, s: Step)
    requires IsStep(parens, s)
    ensures var w := WindowAfter(s);
            && IsLeftmost(w, s.p - 1) && |w[s.p - 1].group| == s.q - s.p + 1
            && InOrder(Unpacked(w, s.p - 1)) == s.before
  {
    var w := WindowAfter(s);
    PackedAt(s.before, s.p, s.q);
    HostIsLeftmost(s.before, s.p, s.q, w);
    UnpackedAt(w, s.p - 1);
    SameAgain(s.before, s.p, s.q, w, InOrder(Unpacked(w, s.p - 1)));
  }

  lemma OneLeftmost(cs: seq<Cohort>, i: int, j: int)
    requires IsLeftmost(cs, i) && IsLeftmost(cs, j)
    ensures i == j
  {
  }

  /** What the rules of one pass run on: the window, and the first and last position of the group unpacked last. */
  datatype View = View(cohorts: seq<Cohort>, parLeft: int, parRight: int)

  /**
   Pass k + 1 runs on the window from k packings before the end of the scan, and on the bare window once k exceeds
   their number. After an unpacking the positions are those of the stretch that was packed there.
   */
  ghost predicate IsView(steps: seq<Step>, packed: seq<Cohort>, k: nat, view: View) {
    var n := |steps|;
    && view.cohorts == WindowAt(steps, packed, if k <= n then n - k else 0)
    && (view.parLeft, view.parRight) == if 0 < k <= n then (steps[n - k].p, steps[n - k].q) else (0, 0)
  }

  ghost predicate AreViews(steps: seq<Step>, packed: seq<Cohort>, views: seq<View>) {
    forall k :: 0 <= k < |views| ==> IsView(steps, packed, k, views[k])
  }

  // ---- the window ----

  /** After this many passes over a window the unpacking gives up. */
  const PASSES: int := 1000

  class Window {
    const parens: map<int, int>
    var cohorts: seq<Cohort>
    var hasEnclosures: bool
    var didFinal: bool
    /** The first and last tag and position of the group unpacked last. */
    var parLeftTag: int
    var parRightTag: int
    var parLeft: int
    var parRight: int

    constructor (parens: map<int, int>, cohorts: seq<Cohort>)
      ensures this.parens == parens && this.cohorts == cohorts && !hasEnclosures && !didFinal
    {
      this.parens, this.cohorts := parens, cohorts;
      hasEnclosures, didFinal, parLeftTag, parRightTag, parLeft, parRight := false, false, 0, 0, 0, 0;
    }

    /** Cohort 0 is the begin marker, which is no parenthesis. */
    ghost predicate Tidy()
      reads this
    {
      Flagged(cohorts, false) && Numbered(cohorts) && cohorts != [] && cohorts[0].pleft == 0
    }

    /** The cohorts after a packed group close up, with new local numbers. */
    method CloseGap(cs: seq<Cohort>, p: int, k: int) returns (r: seq<Cohort>)
      requires 0 <= p && 0 < k && p + k <= |cs|
      ensures |r| == |cs| - k
      ensures forall j :: 0 <= j < p ==> r[j] == cs[j]
      ensures forall j :: p <= j < |r| ==> r[j] == cs[j + k].(local := j)
    {
      r := cs;
      var left, right := p, p + k;
      while right < |cs|
        invariant p <= left && right == left + k <= |cs| == |r|
        invariant forall j :: 0 <= j < p ==> r[j] == cs[j]
        invariant forall j :: p <= j < left ==> r[j] == cs[j + k].(local := j)
        invariant forall j :: left <= j < |cs| ==> r[j] == cs[j]
      {
        r := r[left := r[right].(local := left)];
        left, right := left + 1, right + 1;
      }
      r := r[..|cs| - k];
    }

    method FindRight(p: int) returns (found: bool, q: int)
      requires 0 <= p < |cohorts| && cohorts[p].pleft in parens
      ensures q == RightOf(cohorts, parens[cohorts[p].pleft], p) && (found <==> q < |cohorts|)
    {
      q := p;
      found := false;
      while q < |cohorts|
        invariant p <= q <= |cohorts|
        invariant RightOf(cohorts, parens[cohorts[p].pleft], p) == RightOf(cohorts, parens[cohorts[p].pleft], q)
      {
        if cohorts[q].pright == parens[cohorts[p].pleft] {
          return true, q;
        }
        q := q + 1;
      }
    }

    /** Cohorts p to q go into the one before them. */
    method PackAt(p: int, q: int)
      requires 0 < p <= q < |cohorts| && Numbered(cohorts)
      modifies this`cohorts, this`hasEnclosures
      ensures cohorts == InOrder(Packed(old(cohorts), p, q)) && hasEnclosures
    {
      var encs, host := cohorts[p..q + 1], cohorts[p - 1];
      cohorts := CloseGap(cohorts, p, |encs|);
      for i := 0 to |encs|
        invariant |encs| == q + 1 - p
        invariant forall j :: 0 <= j < i ==> encs[j] == old(cohorts)[p + j].(enclosed := true)
        invariant forall j :: i <= j < |encs| ==> encs[j] == old(cohorts)[p + j]
      {
        encs := encs[i := encs[i].(enclosed := true)];
      }
      assert encs == Enclosed(old(cohorts)[p..q + 1]);
      cohorts := cohorts[p - 1 := host.(group := encs + host.group)];
      hasEnclosures := true;
      OneNumbering(Packed(old(cohorts), p, q), cohorts);
    }

    /** One scan from the right, up to the first group that can be packed. */
    method ScanOnce(ghost h: int) returns (packed: bool, ghost h': int, ghost step: Step)
      requires Tidy() && 0 < h <= |cohorts| && PackedFrom(parens, cohorts, h)
      modifies this`cohorts, this`hasEnclosures
      ensures Tidy() && Flatten(cohorts) == Flatten(old(cohorts)) && 0 < h' <= |cohorts| &&
              PackedFrom(parens, cohorts, h')
      ensures Packing(parens, old(cohorts)) == if packed then Packing(parens, cohorts) else old(cohorts)
      ensures if packed then Groups(cohorts) == Groups(old(cohorts)) + 1 && |cohorts| < |old(cohorts)| && hasEnclosures
              else cohorts == old(cohorts) && hasEnclosures == old(hasEnclosures)
      ensures packed ==> IsStep(parens, step) && step.before == old(cohorts) && cohorts == WindowAfter(step)
      ensures !packed ==> forall p :: 0 <= p < |cohorts| ==> !Matchable(parens, cohorts, p)
    {
      var p := |cohorts|;
      packed, h', step := false, h, Step([], 0, 0);
      ghost var rightmost := Rightmost(parens, cohorts, |cohorts|);
      while p > 0
        invariant 0 <= p <= |cohorts| && cohorts == old(cohorts) && hasEnclosures == old(hasEnclosures)
        invariant forall x :: p <= x < |cohorts| ==> !Matchable(parens, cohorts, x)
      {
        p := p - 1;
        if cohorts[p].pleft != 0 && cohorts[p].pleft in parens {
          var found, q := FindRight(p);
          if found {
            FoundStep(parens, cohorts, h, p, q);
            PackAt(p, q);
            assert rightmost == p;
            return true, p, Step(old(cohorts), p, q);
          }
        }
      }
    }

    /** The scan is started over until there is nothing to pack. No group is ever packed into a cohort that has one. */
    method ScanParentheses() returns (ghost steps: seq<Step>)
      requires Tidy() && !hasEnclosures && forall i :: 0 <= i < |cohorts| ==> cohorts[i].group == []
      modifies this`cohorts, this`hasEnclosures
      ensures Tidy() && Flatten(cohorts) == Flatten(old(cohorts))
      ensures cohorts == Packing(parens, old(cohorts)) && IsScan(parens, old(cohorts), steps, cohorts)
      ensures forall p :: 0 <= p < |cohorts| ==> !Matchable(parens, cohorts, p)
      ensures hasEnclosures <==> Groups(cohorts) > 0
    {
      NoGroups(cohorts);
      steps := [];
      var packed := true;
      ghost var h := |cohorts|;
      while packed
        invariant Tidy() && Flatten(cohorts) == Flatten(old(cohorts))
        invariant 0 < h <= |cohorts| && PackedFrom(parens, cohorts, h)
        invariant IsScan(parens, old(cohorts), steps, cohorts) && Groups(cohorts) == |steps|
        invariant Packing(parens, old(cohorts)) == if packed then Packing(parens, cohorts) else cohorts
        invariant hasEnclosures <==> Groups(cohorts) > 0
        invariant !packed ==> forall p :: 0 <= p < |cohorts| ==> !Matchable(parens, cohorts, p)
        decreases packed, |cohorts|
      {
        ghost var step;
        packed, h, step := ScanOnce(h);
        if packed {
          OneMoreStep(parens, old(cohorts), steps, step, cohorts);
          steps := steps + [step];
        }
      }
    }

    /** The cohorts after i make room for k more, from the last one on, with new local numbers. */
    method OpenGap(cs: seq<Cohort>, i: int, k: int) returns (r: seq<Cohort>)
      requires 0 <= i < |cs| && 0 < k
      ensures |r| == |cs| + k
      ensures forall j :: 0 <= j <= i ==> r[j] == cs[j]
      ensures forall j :: i + k < j < |r| ==> r[j] == cs[j - k].(local := j)
    {
      r := cs + seq(k, _ => cs[i]);
      var j := |cs| - 1;
      while j > i
        invariant i <= j < |cs| && |r| == |cs| + k
        invariant forall x :: 0 <= x <= j ==> r[x] == cs[x]
        invariant forall x :: j + k < x < |r| ==> r[x] == cs[x - k].(local := x)
      {
        r := r[j + k := r[j].(local := j + k)];
        j := j - 1;
      }
    }

    /** The group's cohorts after i, out of their enclosure. */
    method Fill(cs: seq<Cohort>, i: int, group: seq<Cohort>) returns (r: seq<Cohort>)
      requires 0 <= i && i + |group| < |cs|
      ensures |r| == |cs|
      ensures forall x :: 0 <= x < |cs| ==>
                r[x] == if i < x <= i + |group| then group[x - i - 1].(local := x, enclosed := false) else cs[x]
    {
      r := cs;
      for j := 0 to |group|
        invariant |r| == |cs|
        invariant forall x :: 0 <= x < |cs| ==>
                    r[x] == if i < x <= i + j then group[x - i - 1].(local := x, enclosed := false) else cs[x]
      {
        r := r[i + j + 1 := group[j].(local := i + j + 1, enclosed := false)];
      }
    }

    /** The group in cohort i goes back behind it. */
    method UnpackAt(i: int)
      requires 0 <= i < |cohorts| && cohorts[i].group != [] && Numbered(cohorts)
      modifies this`cohorts, this`parLeftTag, this`parRightTag, this`parLeft, this`parRight
      ensures Renumbered(Unpacked(old(cohorts), i), cohorts) && Numbered(cohorts)
      ensures parLeft == i + 1 && parRight == i + |old(cohorts)[i].group|
      ensures parLeftTag == cohorts[parLeft].pleft && parRightTag == cohorts[parRight].pright
    {
      var group := cohorts[i].group;
      var ne := |group|;
      var r := OpenGap(cohorts, i, ne);
      r := Fill(r, i, group);
      parLeftTag, parRightTag := group[0].pleft, group[ne - 1].pright;
      parLeft, parRight := i + 1, i + ne;
      cohorts := r[i := r[i].(group := [])];
    }

    /** The leftmost group, if there is one. */
    method UnpackLeftmost() returns (unpacked: bool)
      requires Numbered(cohorts)
      modifies this`cohorts, this`parLeftTag, this`parRightTag, this`parLeft, this`parRight
      ensures unpacked ==>
                && IsLeftmost(old(cohorts), parLeft - 1) && parRight == parLeft - 1 + |old(cohorts)[parLeft - 1].group|
                && cohorts == InOrder(Unpacked(old(cohorts), parLeft - 1))
                && parLeftTag == cohorts[parLeft].pleft && parRightTag == cohorts[parRight].pright
      ensures !unpacked ==> cohorts == old(cohorts) && forall x :: 0 <= x < |cohorts| ==> cohorts[x].group == []
    {
      var n := |cohorts|;
      for i := 0 to n
        invariant cohorts == old(cohorts)
        invariant forall x :: 0 <= x < i ==> cohorts[x].group == []
      {
        if cohorts[i].group != [] {
          ghost var target := Unpacked(cohorts, i);
          UnpackAt(i);
          OneNumbering(target, cohorts);
          return true;
        }
      }
      unpacked := false;
    }

    /** What follows pass k + 1: the leftmost group is unpacked, or a final pass is called for. */
    method UnpackNext(ghost cs: seq<Cohort>, ghost steps: seq<Step>, ghost packed: seq<Cohort>, ghost k: nat)
        returns (again: bool)
      requires IsScan(parens, cs, steps, packed) && 0 < |steps| && (didFinal <==> |steps| < k)
      requires IsView(steps, packed, k, View(cohorts, parLeft, parRight))
      modifies this`cohorts, this`parLeftTag, this`parRightTag, this`parLeft, this`parRight, this`didFinal
      ensures again <==> k <= |steps|
      ensures again ==> IsView(steps, packed, k + 1, View(cohorts, parLeft, parRight)) && (didFinal <==> k == |steps|)
      ensures !again ==> cohorts == old(cohorts)
    {
      ghost var v := cohorts;
      ViewIsNumbered(parens, cs, steps, packed, k, View(cohorts, parLeft, parRight));
      var unpacked := UnpackLeftmost();
      NextView(parens, cs, steps, packed, k, v, cohorts, parLeft, parRight, unpacked);
      if !unpacked {
        if didFinal {
          return false;
        }
        parLeftTag, parRightTag, parLeft, parRight := 0, 0, 0, 0;
        didFinal := true;
      }
      again := true;
    }

    /**
     The passes of runGrammarOnWindow when no rule changes the window: after each one a group is unpacked, and a
     final one is made with everything unpacked. They run the packings of the scan backwards; views is what the
     rules of each pass run on.
     */
    method UnpackByPasses(ghost cs: seq<Cohort>, ghost steps: seq<Step>) returns (ghost views: seq<View>)
      requires IsScan(parens, cs, steps, cohorts)
      requires (hasEnclosures <==> 0 < |steps|) && !didFinal && parLeft == 0 && parRight == 0
      modifies this
      ensures cohorts == WindowAt(steps, old(cohorts), if |steps| <= PASSES then 0 else |steps| - PASSES)
      ensures AreViews(steps, old(cohorts), views)
      ensures |views| == if steps == [] then 1 else if |steps| + 2 <= PASSES then |steps| + 2 else PASSES
    {
      ghost var packed := cohorts;
      var pass := 0;
      views := [];
      while true
        invariant 0 <= pass <= PASSES && |views| == pass && AreViews(steps, packed, views)
        invariant IsView(steps, packed, pass, View(cohorts, parLeft, parRight))
        invariant (hasEnclosures <==> 0 < |steps|) && (didFinal <==> 0 < |steps| < pass)
        invariant pass <= |steps| + 1 && (steps == [] ==> pass == 0)
        decreases PASSES - pass
      {
        pass := pass + 1;
        if pass > PASSES {
          return;
        }
        ViewsGrow(steps, packed, views, View(cohorts, parLeft, parRight));
        views := views + [View(cohorts, parLeft, parRight)];
        if !hasEnclosures {
          return;
        }
        var again := UnpackNext(cs, steps, packed, pass - 1);
        if !again {
          return;
        }
      }
    }

    /** Packing and unpacking restore the window, unless there are more groups than passes. */
    method RunGrammarOnWindow() returns (ghost steps: seq<Step>, ghost packed: seq<Cohort>, ghost views: seq<View>)
      requires Tidy() && !hasEnclosures && !didFinal && forall i :: 0 <= i < |cohorts| ==> cohorts[i].group == []
      modifies this
      ensures Tidy() && Flatten(cohorts) == Flatten(old(cohorts))
      ensures cohorts == old(cohorts) <==> Groups(Packing(parens, old(cohorts))) <= PASSES
      ensures IsScan(parens, old(cohorts), steps, packed) && packed == Packing(parens, old(cohorts))
      ensures AreViews(steps, packed, views)
    {
      ghost var cs := cohorts;
      NoGroups(cs);
      steps := ScanParentheses();
      packed := cohorts;
      assert IsStage(cs, |steps|, WindowAt(steps, packed, |steps|));
      parLeftTag, parRightTag, parLeft, parRight := 0, 0, 0, 0;
      views := UnpackByPasses(cs, steps);
      ghost var left: nat := if |steps| <= PASSES then 0 else |steps| - PASSES;
      assert IsStage(cs, left, WindowAt(steps, packed, left));
    }
  }

  lemma ViewsGrow(steps: seq<Step>, packed: seq<Cohort>, views: seq<View>, view: View)
    requires AreViews(steps, packed, views) && IsView(steps, packed, |views|, view)
    ensures AreViews(steps, packed, views + [view])
  {
    forall k | 0 <= k < |views| + 1 ensures IsView(steps, packed, k, (views + [view])[k]) {
      if k < |views| { assert IsView(steps, packed, k, views[k]); }
    }
  }

  /** From one pass to the next. */
  lemma NextView(parens: map<int, int>, cs: seq<Cohort>, steps: seq<Step>, packed: seq<Cohort>, k: nat,
                 v: seq<Cohort>, w: seq<Cohort>, parLeft: int, parRight: int, unpacked: bool)
    requires IsScan(parens, cs, steps, packed)
    requires v == WindowAt(steps, packed, if k <= |steps| then |steps| - k else 0)
    requires unpacked ==> && IsLeftmost(v, parLeft - 1) && parRight == parLeft - 1 + |v[parLeft - 1].group|
                          && w == InOrder(Unpacked(v, parLeft - 1))
    requires !unpacked ==> w == v && forall x :: 0 <= x < |v| ==> v[x].group == []
    ensures unpacked <==> k < |steps|
    ensures IsView(steps, packed, k + 1, if unpacked then View(w, parLeft, parRight) else View(w, 0, 0))
  {
    var i: nat := if k <= |steps| then |steps| - k else 0;
    ScanGroups(parens, cs, steps, packed, i);
    if unpacked { ScanPutBack(parens, cs, steps, packed, i, v, w, parLeft); }
  }

  lemma ViewIsNumbered(parens: map<int, int>, cs: seq<Cohort>, steps: seq<Step>, packed: seq<Cohort>, k: nat,
                       view: View)
    requires IsScan(parens, cs, steps, packed) && IsView(steps, packed, k, view)
    ensures view.cohorts == WindowAt(steps, packed, if k <= |steps| then |steps| - k else 0)
    ensures Numbered(view.cohorts)
  {
    var i: nat := if k <= |steps| then |steps| - k else 0;
    assert IsStage(cs, i, WindowAt(steps, packed, i));
  }

  lemma ScanGroups(parens: map<int, int>, cs: seq<Cohort>, steps: seq<Step>, packed: seq<Cohort>, i: nat)
    requires IsScan(parens, cs, steps, packed) && i <= |steps|
    ensures var v := WindowAt(steps, packed, i);
            i == 0 <==> forall x :: 0 <= x < |v| ==> v[x].group == []
  {
    assert IsStage(cs, i, WindowAt(steps, packed, i));
    NoGroups(WindowAt(steps, packed, i));
  }

  lemma ScanPutBack(parens: map<int, int>, cs: seq<Cohort>, steps: seq<Step>, packed: seq<Cohort>, i: nat,
                    v: seq<Cohort>, w: seq<Cohort>, parLeft: int)
    requires IsScan(parens, cs, steps, packed) && 0 < i <= |steps| && v == WindowAt(steps, packed, i)
    requires IsLeftmost(v, parLeft - 1) && w == InOrder(Unpacked(v, parLeft - 1))
    ensures w == WindowAt(steps, packed, i - 1)
    ensures parLeft == steps[i - 1].p && parLeft - 1 + |v[parLeft - 1].group| == steps[i - 1].q
  {
    assert IsStepAt(parens, steps, packed, i - 1);
    PutBack(parens, steps[i - 1], v, w, parLeft);
  }

  lemma PutBack(parens: map<int, int>, s: Step, v: seq<Cohort>, w: seq<Cohort>, parLeft: int)
    requires IsStep(parens, s) && v == WindowAfter(s) && IsLeftmost(v, parLeft - 1)
    requires w == InOrder(Unpacked(v, parLeft - 1))
    ensures w == s.before && parLeft == s.p && parLeft - 1 + |v[parLeft - 1].group| == s.q
  {
    UnpackingUndoesPacking(parens, s);
    OneLeftmost(v, parLeft - 1, s.p - 1);
  }

  lemma OneNumbering(a: seq<Cohort>, b: seq<Cohort>)
    requires Renumbered(a, b) && Numbered(b)
    ensures b == InOrder(a)
  {
    forall i | 0 <= i < |a| ensures b[i] == InOrder(a)[i] {
      assert b[i] == a[i].(local := b[i].local);
    }
  }

  lemma RenumberedMatch(parens: map<int, int>, a: seq<Cohort>, b: seq<Cohort>, h: int)
    requires Renumbered(a, b) && PackedFrom(parens, a, h)
    ensures PackedFrom(parens, b, h)
  {
    forall p | h <= p < |b| && 0 <= p ensures !Matchable(parens, b, p) {
      assert b[p] == a[p].(local := b[p].local) && !Matchable(parens, a, p);
      forall q | p <= q < |b| ensures b[q].pright == a[q].pright {}
    }
  }

  // ---- as many groups as one likes ----

  const PARENS: map<int, int> := map[1 := 2]

  /** Every cohort but the begin marker is a left and a right parenthesis, and only the last can have a group. */
  ghost predicate IsRow(cs: seq<Cohort>) {
    && cs != [] && cs[0].pleft == 0 && Flagged(cs, false)
    && (forall i :: 0 < i < |cs| ==> cs[i].pleft == 1 && cs[i].pright == 2)
    && (forall i :: 0 <= i < |cs| - 1 ==> cs[i].group == [])
  }

  /** Each of them is packed into the one before it, the last one first. */
  lemma {:induction false} RowGroups(cs: seq<Cohort>)
    requires IsRow(cs)
    ensures Groups(Packing(PARENS, cs)) == Groups(cs) + |cs| - 1
    decreases |cs|
  {
    var p := |cs| - 1;
    if p > 0 {
      assert Matchable(PARENS, cs, p);
      assert Rightmost(PARENS, cs, |cs|) == p && RightOf(cs, 2, p) == p;
      var packed := Packed(cs, p, p);
      PackingKeeps(cs, p, p);
      RenumberedFlatten(packed, InOrder(packed));
      PackedRow(cs);
      RowGroups(InOrder(packed));
    } else {
      assert !Matchable(PARENS, cs, 0);
    }
  }

  lemma PackedRow(cs: seq<Cohort>)
    requires IsRow(cs) && 1 < |cs|
    ensures IsRow(InOrder(Packed(cs, |cs| - 1, |cs| - 1)))
  {
    var p := |cs| - 1;
    var packed := Packed(cs, p, p);
    PackingKeeps(cs, p, p);
    RenumberedFlatten(packed, InOrder(packed));
    assert |packed| == p;
    forall i | 0 <= i < p
      ensures packed[i].pleft == cs[i].pleft && packed[i].pright == cs[i].pright && (i < p - 1 ==> packed[i] == cs[i])
    {
    }
  }

  /** A begin marker and n such cohorts. */
  function Row(n: nat): (cs: seq<Cohort>)
    ensures |cs| == n + 1 && cs[0].pleft == 0 && Numbered(cs)
    ensures forall i :: 0 <= i <= n ==> cs[i].group == [] && !cs[i].enclosed
  {
    seq(n + 1, i requires 0 <= i <= n => Cohort(i, if i == 0 then 0 else 1, if i == 0 then 0 else 2, i, false, []))
  }

  lemma {:induction false} NothingEnclosed(cs: seq<Cohort>)
    requires forall i :: 0 <= i < |cs| ==> cs[i].group == [] && !cs[i].enclosed
    ensures Flagged(cs, false) && Groups(cs) == 0
    decreases |cs|
  {
    if cs != [] { NothingEnclosed(cs[1..]); }
  }

  /** With more than 1000 groups the window is not restored. */
  method RunRow(n: nat) returns (w: Window)
    ensures w.cohorts == Row(n) <==> n <= 1000
  {
    var cs := Row(n);
    NothingEnclosed(cs);
    RowGroups(cs);
    w := new Window(PARENS, cs);
    ghost var steps, packed, views := w.RunGrammarOnWindow();
  }
}
