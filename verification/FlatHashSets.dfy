/**
 flat_unordered_set: open addressing over a power-of-two table of 32-bit keys. A probe starts at the
 key's home slot and moves by 5 until it meets an empty slot or the key. Two key values are
 reserved: EMPTY marks a slot never used, DELETED one whose key was erased.
 */
module FlatHashSets {

  const UINT32_COUNT: nat := 0x1_0000_0000
  const EMPTY: int := 0xFFFF_FFFF
  const DELETED: int := 0xFFFF_FFFE
  const DEFAULT_CAP: nat := 16
  const STRIDE: nat := 5

  predicate IsKey(t: int) {
    0 <= t < DELETED
  }

  // ---- masks and strides on a power-of-two table ----

  predicate IsPow2(n: nat) {
    n == 1 || (n > 1 && n % 2 == 0 && IsPow2(n / 2))
  }

  /** Bitwise and of two natural numbers. */
  function BitAnd(x: nat, y: nat): nat {
    if x == 0 || y == 0 then 0 else (x % 2) * (y % 2) + 2 * BitAnd(x / 2, y / 2)
  }

  /** Masking with cap - 1 is reduction modulo cap. */
  lemma {:induction false} MaskIsModulo(x: nat, cap: nat)
    requires IsPow2(cap)
    ensures BitAnd(x, cap - 1) == x % cap
    decreases cap
  {
    if cap > 1 {
      var c := cap / 2;
      MaskIsModulo(x / 2, c);
      assert (cap - 1) % 2 == 1 && (cap - 1) / 2 == c - 1;
      HalveModulo(x, c);
      if c == 1 { assert BitAnd(x / 2, 0) == 0; }
    }
  }

  lemma HalveModulo(x: nat, c: nat)
    requires c > 0
    ensures x % (2 * c) == x % 2 + 2 * (x / 2 % c)
  {
    var h, q := x / 2, x / 2 / c;
    assert h == q * c + h % c;
    assert x == q * (2 * c) + (x % 2 + 2 * (h % c));
    UniqueRemainder(x, 2 * c, q, x % 2 + 2 * (h % c));
  }

  lemma MultipleBounds(m: int, c: nat)
    ensures m >= 1 ==> m * c >= c
    ensures m <= -1 ==> m * c + c <= 0
  {
    if m >= 1 { assert m * c == (m - 1) * c + c; }
    if m <= -1 { assert m * c == (m + 1) * c - c; }
  }

  lemma Distribute(p: int, q: int, c: int)
    ensures (p + q) * c == p * c + q * c && (p - q) * c == p * c - q * c
  {
  }

  lemma Quotient(x: nat, c: nat)
    requires c > 0
    ensures x % c == x - x / c * c
  {
  }

  lemma UniqueRemainder(x: int, c: nat, q: int, r: int)
    requires c > 0 && 0 <= r < c && x == q * c + r
    ensures x % c == r
  {
    var q' := x / c;
    assert x == q' * c + x % c;
    Distribute(q, q', c);
    MultipleBounds(q - q', c);
  }

  /** hash & (capacity - 1) */
  function Mask(x: nat, cap: nat): (r: nat)
    requires IsPow2(cap)
    ensures r < cap && r == x % cap
  {
    MaskIsModulo(x, cap);
    BitAnd(x, cap - 1)
  }

  /** hash_value: (t << 8) | ((t >> 8) & 0xFF) in 32 bits; the two parts share no bit. */
  function Hash(t: int): nat
    requires IsKey(t)
  {
    t * 256 % UINT32_COUNT + t / 256 % 256
  }

  /** Byte by byte: the lowest is the second one of t, and the three above it are the three lowest of t. */
  lemma HashBytes(t: int)
    requires IsKey(t)
    ensures Hash(t) < UINT32_COUNT
    ensures Hash(t) % 256 == t / 256 % 256
    ensures Hash(t) / 256 == t % 0x100_0000
  {
    var low, high := t / 256 % 256, t % 0x100_0000;
    assert t == t / 0x100_0000 * 0x100_0000 + high;
    assert t * 256 == t / 0x100_0000 * UINT32_COUNT + high * 256;
    UniqueRemainder(t * 256, UINT32_COUNT, t / 0x100_0000, high * 256);
    assert Hash(t) == high * 256 + low;
  }

  /** The slot a probe visits after k steps from slot h. */
  function Slot(cap: nat, h: nat, k: nat): (r: nat)
    requires IsPow2(cap) && h < cap
    ensures r < cap
  {
    if k == 0 then h else Mask(Slot(cap, h, k - 1) + STRIDE, cap)
  }

  lemma {:induction false} SlotForm(cap: nat, h: nat, k: nat) returns (q: int)
    requires IsPow2(cap) && h < cap
    ensures Slot(cap, h, k) == h + 5 * k - q * cap
  {
    q := 0;
    if k > 0 {
      var p := SlotForm(cap, h, k - 1);
      var x := Slot(cap, h, k - 1) + STRIDE;
      MaskIsModulo(x, cap);
      Quotient(x, cap);
      q := x / cap;
      Distribute(p, q, cap);
      q := p + q;
    }
  }

  /** 5 is invertible modulo a power of two. */
  lemma {:induction false} SolveStride(cap: nat, d: int) returns (k: nat, m: int)
    requires IsPow2(cap)
    ensures k < cap && 5 * k == d + m * cap
    decreases cap
  {
    if cap == 1 {
      k, m := 0, -d;
    } else {
      var c := cap / 2;
      var k', m' := SolveStride(c, d);
      if m' % 2 == 0 {
        k, m := k', m' / 2;
        Doubled(m', c);
      } else {
        k, m := k' + c, (m' + 5) / 2;
        Doubled(m' + 5, c);
        Distribute(m', 5, c);
      }
    }
  }

  lemma Doubled(m: int, c: int)
    requires m % 2 == 0
    ensures m * c == m / 2 * (2 * c)
  {
    var h := m / 2;
    assert m == 2 * h;
  }

  lemma {:induction false} StrideDivides(cap: nat, d: int, m: int) returns (e: int)
    requires IsPow2(cap) && 5 * d == m * cap
    ensures d == e * cap
    decreases cap
  {
    if cap == 1 {
      e := d;
    } else {
      var c := cap / 2;
      assert 5 * d == 2 * (m * c);
      e := StrideDivides(c, d / 2, m);
      assert e * cap == 2 * (e * c);
    }
  }

  lemma Difference(p: int, q: int, c: int)
    ensures (p - q) * c == p * c - q * c
  {
  }

  lemma SmallMultiple(x: int, m: int, cap: nat)
    requires cap > 0 && 0 - cap < x < cap && x == m * cap
    ensures x == 0
  {
    MultipleBounds(m, cap);
  }

  /** Within cap steps the probe visits every slot of the table. */
  lemma ProbeCoversTable(cap: nat, h: nat, s: nat) returns (k: nat)
    requires IsPow2(cap) && h < cap && s < cap
    ensures k < cap && Slot(cap, h, k) == s
  {
    var m: int;
    k, m := SolveStride(cap, s - h);
    var q := SlotForm(cap, h, k);
    Difference(m, q, cap);
    SmallMultiple(Slot(cap, h, k) - s, m - q, cap);
  }

  /** ... and it visits none twice. */
  lemma ProbeVisitsOnce(cap: nat, h: nat, j: nat, k: nat)
    requires IsPow2(cap) && h < cap && j < k < cap
    ensures Slot(cap, h, j) != Slot(cap, h, k)
  {
    if Slot(cap, h, j) == Slot(cap, h, k) {
      var p := SlotForm(cap, h, j);
      var q := SlotForm(cap, h, k);
      Difference(q, p, cap);
      var e := StrideDivides(cap, k - j, q - p);
      SmallMultiple(k - j, e, cap);
    }
  }

  // ---- the table as a sequence of slots ----

  predicate IsLive(x: int) {
    x != EMPTY && x != DELETED
  }

  function Home(s: seq<int>, t: int): (h: nat)
    requires IsPow2(|s|) && IsKey(t)
    ensures h < |s|
  {
    Mask(Hash(t), |s|)
  }

  /** The slot where the probe loop for t stops, or -1 if it has not stopped after fuel slots. */
  function Probe(s: seq<int>, spot: nat, t: int, fuel: nat): (r: int)
    requires IsPow2(|s|) && spot < |s|
    ensures -1 <= r < |s|
    ensures r >= 0 ==> s[r] == EMPTY || s[r] == t
    decreases fuel
  {
    if fuel == 0 then -1
    else if s[spot] == EMPTY || s[spot] == t then spot
    else Probe(s, Mask(spot + STRIDE, |s|), t, fuel - 1)
  }

  function Stop(s: seq<int>, t: int): int
    requires IsPow2(|s|) && IsKey(t)
  {
    Probe(s, Home(s, t), t, |s|)
  }

  lemma {:induction false} ProbeFailsOn(s: seq<int>, h: nat, t: int, j: nat, fuel: nat, k: nat)
    requires IsPow2(|s|) && h < |s| && j <= k < j + fuel
    requires Probe(s, Slot(|s|, h, j), t, fuel) == -1
    ensures s[Slot(|s|, h, k)] != EMPTY && s[Slot(|s|, h, k)] != t
    decreases fuel
  {
    if j < k {
      ProbeFailsOn(s, h, t, j + 1, fuel - 1, k);
    }
  }

  /** The probe for t stops exactly when the table has an empty slot or holds t. */
  lemma ProbeStopsIff(s: seq<int>, t: int)
    requires IsPow2(|s|) && IsKey(t)
    ensures Stop(s, t) >= 0 <==> EMPTY in s || t in s
  {
    if (EMPTY in s || t in s) && Stop(s, t) < 0 {
      var i :| 0 <= i < |s| && (s[i] == EMPTY || s[i] == t);
      var k := ProbeCoversTable(|s|, Home(s, t), i);
      ProbeFailsOn(s, Home(s, t), t, 0, |s|, k);
    }
  }

  /** The unbounded walk of the probe loop meets an empty slot or t exactly when there is one to meet. */
  lemma WalkStopsIff(s: seq<int>, t: int)
    requires IsPow2(|s|) && IsKey(t)
    ensures (exists k: nat :: StopsAt(s, t, k)) <==> EMPTY in s || t in s
  {
    if EMPTY in s || t in s {
      var i :| 0 <= i < |s| && (s[i] == EMPTY || s[i] == t);
      var k := ProbeCoversTable(|s|, Home(s, t), i);
      assert StopsAt(s, t, k);
    }
  }

  predicate StopsAt(s: seq<int>, t: int, k: nat)
    requires IsPow2(|s|) && IsKey(t)
  {
    var x := s[Slot(|s|, Home(s, t), k)];
    x == EMPTY || x == t
  }

  /** Every key in the table is where its own probe stops; so no key is stored twice. */
  ghost predicate Consistent(s: seq<int>) {
    && IsPow2(|s|)
    && forall i :: 0 <= i < |s| && IsLive(s[i]) ==> IsKey(s[i]) && Stop(s, s[i]) == i
  }

  /** A probe is not disturbed by filling a slot it did not stop at, if that slot was empty. */
  lemma {:induction false} ProbeAfterFill(s: seq<int>, spot: nat, u: int, fuel: nat, r: nat, x: int)
    requires IsPow2(|s|) && spot < |s| && r < |s| && s[r] == EMPTY
    requires Probe(s, spot, u, fuel) != r && Probe(s, spot, u, fuel) >= 0
    ensures Probe(s[r := x], spot, u, fuel) == Probe(s, spot, u, fuel)
    decreases fuel
  {
    if s[spot] != EMPTY && s[spot] != u {
      ProbeAfterFill(s, Mask(spot + STRIDE, |s|), u, fuel - 1, r, x);
    }
  }

  /** ... nor by overwriting a slot that holds another key with something that is neither empty nor u. */
  lemma {:induction false} ProbeAfterOverwrite(s: seq<int>, spot: nat, u: int, fuel: nat, r: nat, x: int)
    requires IsPow2(|s|) && spot < |s| && r < |s|
    requires s[r] != EMPTY && s[r] != u && x != EMPTY && x != u
    ensures Probe(s[r := x], spot, u, fuel) == Probe(s, spot, u, fuel)
    decreases fuel
  {
    if fuel > 0 && s[spot] != EMPTY && s[spot] != u {
      ProbeAfterOverwrite(s, Mask(spot + STRIDE, |s|), u, fuel - 1, r, x);
    }
  }

  /** Filling the slot where t's own probe stopped makes that probe stop there still. */
  lemma {:induction false} ProbeFindsFilled(s: seq<int>, spot: nat, t: int, fuel: nat, r: nat)
    requires IsPow2(|s|) && spot < |s| && r < |s|
    requires Probe(s, spot, t, fuel) == r
    ensures Probe(s[r := t], spot, t, fuel) == r
    decreases fuel
  {
    if s[spot] != EMPTY && s[spot] != t {
      ProbeFindsFilled(s, Mask(spot + STRIDE, |s|), t, fuel - 1, r);
    }
  }

  lemma FillKeepsConsistent(s: seq<int>, t: int)
    requires Consistent(s) && IsKey(t) && Stop(s, t) >= 0 && s[Stop(s, t)] == EMPTY
    ensures Consistent(s[Stop(s, t) := t])
  {
    var r := Stop(s, t);
    var s' := s[r := t];
    forall i | 0 <= i < |s'| && IsLive(s'[i]) ensures IsKey(s'[i]) && Stop(s', s'[i]) == i {
      if i == r {
        ProbeFindsFilled(s, Home(s, t), t, |s|, r);
      } else {
        ProbeAfterFill(s, Home(s, s[i]), s[i], |s|, r, t);
      }
    }
  }

  lemma DeleteKeepsConsistent(s: seq<int>, r: nat)
    requires Consistent(s) && r < |s| && IsLive(s[r])
    ensures Consistent(s[r := DELETED])
  {
    var s' := s[r := DELETED];
    forall i | 0 <= i < |s'| && IsLive(s'[i]) ensures IsKey(s'[i]) && Stop(s', s'[i]) == i {
      ProbeAfterOverwrite(s, Home(s, s[i]), s[i], |s|, r, DELETED);
    }
  }

  // ---- counting slots ----

  function Used(s: seq<int>): nat {
    if s == [] then 0 else Used(s[..|s| - 1]) + (if s[|s| - 1] != EMPTY then 1 else 0)
  }

  function Live(s: seq<int>): nat {
    if s == [] then 0 else Live(s[..|s| - 1]) + (if IsLive(s[|s| - 1]) then 1 else 0)
  }

  lemma {:induction false} CountsAfterUpdate(s: seq<int>, i: nat, x: int)
    requires i < |s|
    ensures Used(s[i := x]) == Used(s) - (if s[i] != EMPTY then 1 else 0) + (if x != EMPTY then 1 else 0)
    ensures Live(s[i := x]) == Live(s) - (if IsLive(s[i]) then 1 else 0) + (if IsLive(x) then 1 else 0)
    decreases |s|
  {
    var n := |s| - 1;
    if i < n {
      CountsAfterUpdate(s[..n], i, x);
      assert s[i := x][..n] == s[..n][i := x];
    } else {
      assert s[i := x][..n] == s[..n];
    }
  }

  lemma {:induction false} CountBounds(s: seq<int>)
    ensures Live(s) <= Used(s) <= |s|
    ensures Used(s) < |s| ==> EMPTY in s
    ensures Used(s) == |s| ==> EMPTY !in s
    ensures DELETED !in s ==> Live(s) == Used(s)
    ensures Live(s) == 0 ==> forall x :: x in s ==> !IsLive(x)
    decreases |s|
  {
    if s != [] {
      var n := |s| - 1;
      assert s == s[..n] + [s[n]];
      CountBounds(s[..n]);
    }
  }

  lemma {:induction false} CountsOfFresh(s: seq<int>)
    requires forall i :: 0 <= i < |s| ==> s[i] == EMPTY
    ensures Used(s) == Live(s) == 0
    decreases |s|
  {
    if s != [] { CountsOfFresh(s[..|s| - 1]); }
  }

  ghost function Keys(s: seq<int>): set<int> {
    set t | t in s && IsLive(t)
  }

  /** With no key stored twice, the number of live slots is the number of keys. */
  lemma {:induction false} LiveIsCardinality(s: seq<int>)
    requires forall i, j :: 0 <= i < j < |s| && IsLive(s[i]) ==> s[i] != s[j]
    ensures Live(s) == |Keys(s)|
    decreases |s|
  {
    if s == [] {
      assert Keys(s) == {};
    } else {
      var n := |s| - 1;
      LiveIsCardinality(s[..n]);
      assert s == s[..n] + [s[n]];
      if IsLive(s[n]) {
        assert Keys(s) == Keys(s[..n]) + {s[n]};
        assert s[n] !in s[..n];
      } else {
        assert Keys(s) == Keys(s[..n]);
      }
    }
  }

  lemma KeysAfterFill(s: seq<int>, r: nat, t: int)
    requires r < |s| && !IsLive(s[r]) && IsLive(t)
    ensures Keys(s[r := t]) == Keys(s) + {t}
  {
    var s' := s[r := t];
    forall x ensures x in Keys(s') <==> x in Keys(s) || x == t {
      if x in Keys(s) { var i :| 0 <= i < |s| && s[i] == x; assert s'[i] == x; }
      assert s'[r] == t;
    }
  }

  lemma KeysAfterDelete(s: seq<int>, r: nat)
    requires Consistent(s) && r < |s| && IsLive(s[r])
    ensures Keys(s[r := DELETED]) == Keys(s) - {s[r]}
  {
    var s' := s[r := DELETED];
    forall x ensures x in Keys(s') <==> x in Keys(s) && x != s[r] {
      if x in Keys(s) && x != s[r] { var i :| 0 <= i < |s| && s[i] == x; assert s'[i] == x; }
      if x in Keys(s') { var i :| 0 <= i < |s'| && s'[i] == x; assert s[i] == x; }
    }
  }

  lemma ConsistentHasNoDuplicates(s: seq<int>)
    requires Consistent(s)
    ensures Live(s) == |Keys(s)|
  {
    LiveIsCardinality(s);
  }

  lemma FreshIsConsistent(s: seq<int>)
    requires IsPow2(|s|) && forall i :: 0 <= i < |s| ==> s[i] == EMPTY
    ensures Consistent(s) && Live(s) == Used(s) == 0 && Keys(s) == {}
  {
    CountsOfFresh(s);
  }

  lemma ProbeStep(s: seq<int>, spot: nat, t: int, fuel: nat)
    requires IsPow2(|s|) && spot < |s| && s[spot] != EMPTY && s[spot] != t
    requires Probe(s, spot, t, fuel) >= 0
    ensures fuel > 0 && Probe(s, Mask(spot + STRIDE, |s|), t, fuel - 1) == Probe(s, spot, t, fuel)
  {
  }

  /** The probe loop of insert, erase, find and reserve. */
  method Seek(a: array<int>, t: int) returns (spot: nat)
    requires IsPow2(a.Length) && IsKey(t) && (EMPTY in a[..] || t in a[..])
    ensures spot < a.Length && spot == Stop(a[..], t)
  {
    ghost var s := a[..];
    ProbeStopsIff(s, t);
    spot := Mask(Hash(t), a.Length);
    ghost var goal: int, fuel: int := Stop(s, t), |s|;
    while a[spot] != EMPTY && a[spot] != t
      invariant spot < |s|
      invariant 0 <= fuel && Probe(s, spot, t, fuel) == goal
      decreases fuel
    {
      ProbeStep(s, spot, t, fuel);
      spot := Mask(spot + STRIDE, a.Length);
      fuel := fuel - 1;
    }
    assert Probe(s, spot, t, fuel) == spot || fuel == 0;
  }

  /** The live keys of a table in slot order. */
  function InSlotOrder(s: seq<int>): seq<int> {
    if s == [] then [] else InSlotOrder(s[..|s| - 1]) + if IsLive(s[|s| - 1]) then [s[|s| - 1]] else []
  }

  /** Of two live keys the one in the lower slot comes first. */
  lemma {:induction false} SlotOrder(s: seq<int>, i: nat, j: nat) returns (a: nat, b: nat)
    requires i < j < |s| && IsLive(s[i]) && IsLive(s[j])
    ensures a < b < |InSlotOrder(s)| && InSlotOrder(s)[a] == s[i] && InSlotOrder(s)[b] == s[j]
    decreases |s|
  {
    var n := |s| - 1;
    if j < n {
      a, b := SlotOrder(s[..n], i, j);
    } else {
      a := PlaceInOrder(s[..n], i);
      b := |InSlotOrder(s[..n])|;
    }
  }

  lemma {:induction false} PlaceInOrder(s: seq<int>, i: nat) returns (a: nat)
    requires i < |s| && IsLive(s[i])
    ensures a < |InSlotOrder(s)| && InSlotOrder(s)[a] == s[i]
    decreases |s|
  {
    var n := |s| - 1;
    if i < n {
      a := PlaceInOrder(s[..n], i);
    } else {
      a := |InSlotOrder(s[..n])|;
    }
  }

  method LiveKeys(a: array<int>) returns (vals: seq<int>)
    requires Consistent(a[..])
    ensures vals == InSlotOrder(a[..]) && |vals| == Live(a[..])
    ensures forall t :: t in vals <==> t in Keys(a[..])
    ensures forall i, j :: 0 <= i < j < |vals| ==> vals[i] != vals[j]
  {
    vals := [];
    ghost var s := a[..];
    for i := 0 to a.Length
      invariant vals == InSlotOrder(s[..i]) && |vals| == Live(s[..i])
      invariant forall t :: t in vals <==> t in Keys(s[..i])
      invariant forall j, k :: 0 <= j < k < |vals| ==> vals[j] != vals[k]
    {
      KeysSnoc(s, i);
      if a[i] != EMPTY && a[i] != DELETED {
        StoredOnce(s, i);
        vals := vals + [a[i]];
      }
    }
    assert s[..a.Length] == s;
  }

  lemma KeysSnoc(s: seq<int>, i: nat)
    requires i < |s|
    ensures Keys(s[..i + 1]) == if IsLive(s[i]) then Keys(s[..i]) + {s[i]} else Keys(s[..i])
    ensures Live(s[..i + 1]) == Live(s[..i]) + if IsLive(s[i]) then 1 else 0
    ensures InSlotOrder(s[..i + 1]) == InSlotOrder(s[..i]) + if IsLive(s[i]) then [s[i]] else []
  {
    assert s[..i + 1] == s[..i] + [s[i]];
  }

  lemma StoredOnce(s: seq<int>, i: nat)
    requires Consistent(s) && i < |s| && IsLive(s[i])
    ensures s[i] !in s[..i]
  {
    forall j | 0 <= j < i ensures s[..i][j] != s[i] {
      if IsLive(s[j]) { assert Stop(s, s[j]) == j; }
    }
  }

  /** The second half of reserve: the keys vals entered into a new table. */
  method Rebuild(vals: seq<int>, cap: nat) returns (a: array<int>)
    requires IsPow2(cap) && |vals| <= cap
    requires forall i :: 0 <= i < |vals| ==> IsKey(vals[i])
    requires forall i, j :: 0 <= i < j < |vals| ==> vals[i] != vals[j]
    ensures fresh(a) && a.Length == cap && Consistent(a[..]) && DELETED !in a[..]
    ensures a[..] == Filled(vals, cap)
    ensures Live(a[..]) == Used(a[..]) == |vals|
    ensures forall t :: t in Keys(a[..]) <==> t in vals
  {
    a := new int[cap](_ => EMPTY);
    FreshIsConsistent(a[..]);
    assert a[..] == Filled([], cap);
    for i := 0 to |vals|
      invariant Rebuilt(a[..], vals, i) && a[..] == Filled(vals[..i], cap)
    {
      ghost var s := a[..];
      EnterKey(s, vals, i);
      FilledNext(vals, cap, i);
      var spot := Seek(a, vals[i]);
      a[spot] := vals[i];
      assert a[..] == StoreAt(s, Stop(s, vals[i]), vals[i]);
    }
    assert vals[..|vals|] == vals;
  }

  /** t where its probe stops. */
  function Place(s: seq<int>, t: int): (r: seq<int>)
    ensures |r| == |s|
  {
    if IsPow2(|s|) && IsKey(t) then StoreAt(s, Stop(s, t), t) else s
  }

  /** A new table of that many slots with the keys placed one after the other. */
  function Filled(vals: seq<int>, cap: nat): (r: seq<int>)
    ensures |r| == cap
  {
    if vals == [] then seq(cap, _ => EMPTY) else Place(Filled(vals[..|vals| - 1], cap), vals[|vals| - 1])
  }

  lemma FilledNext(vals: seq<int>, cap: nat, i: nat)
    requires i < |vals|
    ensures Filled(vals[..i + 1], cap) == Place(Filled(vals[..i], cap), vals[i])
  {
    assert vals[..i + 1][..i] == vals[..i];
  }

  /** Of two keys with the same home slot the one placed first gets it, and the other the next slot of the probe. */
  lemma FirstComeFirstServed(t: int, u: int, cap: nat)
    requires IsPow2(cap) && 1 < cap && IsKey(t) && IsKey(u) && t != u && Mask(Hash(t), cap) == Mask(Hash(u), cap)
    ensures var h := Mask(Hash(t), cap);
            var next := (h + 5) % cap;
            next != h && Filled([t, u], cap) == seq(cap, _ => EMPTY)[h := t][next := u]
  {
    var h := Mask(Hash(t), cap);
    var next := Mask(h + STRIDE, cap);
    assert Slot(cap, h, 0) == h && Slot(cap, h, 1) == next;
    ProbeVisitsOnce(cap, h, 0, 1);
    var none := seq(cap, _ => EMPTY);
    assert [t, u][..1] == [t] && [t][..0] == [];
    assert Filled([], cap) == none;
    assert Probe(none, h, t, cap) == h;
    var one := none[h := t];
    assert Filled([t], cap) == Place(none, t) == one;
    assert Probe(one, next, u, cap - 1) == next;
    assert Probe(one, h, u, cap) == next;
    assert Filled([t, u], cap) == Place(one, u);
  }

  /** The table holds exactly the first i keys and has no erased slot. */
  ghost predicate Rebuilt(s: seq<int>, vals: seq<int>, i: nat)
    requires i <= |vals|
  {
    && Consistent(s) && DELETED !in s && Live(s) == Used(s) == i
    && forall t :: t in Keys(s) <==> t in vals[..i]
  }

  lemma EnterKey(s: seq<int>, vals: seq<int>, i: nat)
    requires i < |vals| <= |s| && Rebuilt(s, vals, i) && IsKey(vals[i]) && vals[i] !in vals[..i]
    ensures EMPTY in s && Rebuilt(StoreAt(s, Stop(s, vals[i]), vals[i]), vals, i + 1)
  {
    CountBounds(s);
    ProbeStopsIff(s, vals[i]);
    StopHoldsAbsent(s, vals[i]);
    PutKey(s, vals[i]);
    assert vals[..i + 1] == vals[..i] + [vals[i]];
  }

  function StoreAt(s: seq<int>, i: int, x: int): (r: seq<int>)
    ensures |r| == |s|
  {
    if 0 <= i < |s| then s[i := x] else s
  }

  /** Writing an absent key where its probe stopped. */
  lemma PutKey(s: seq<int>, t: int)
    requires Consistent(s) && IsKey(t) && Stop(s, t) >= 0 && s[Stop(s, t)] == EMPTY
    ensures var r := StoreAt(s, Stop(s, t), t);
            && Consistent(r) && Keys(r) == Keys(s) + {t}
            && Live(r) == Live(s) + 1 && Used(r) == Used(s) + 1
            && (DELETED !in s ==> DELETED !in r)
  {
    var i := Stop(s, t);
    FillKeepsConsistent(s, t);
    CountsAfterUpdate(s, i, t);
    KeysAfterFill(s, i, t);
    assert forall x :: x in s[i := t] ==> x == t || x in s;
  }

  // ---- what the operations make of the slots ----

  /** vector::resize */
  function Resized(s: seq<int>, n: nat): seq<int> {
    if n <= |s| then s[..n] else s + seq(n - |s|, _ => EMPTY)
  }

  function Larger(m: nat, n: nat): nat {
    if n > m then n else m
  }

  function Reserved(s: seq<int>, n: nat): seq<int> {
    if Live(s) == 0 then Resized(s, n) else Filled(InSlotOrder(s), Larger(|s|, n))
  }

  predicate Grows(s: seq<int>) {
    (Live(s) + 1) * 3 / 2 >= |s| / 2
  }

  function Inserted(s: seq<int>, t: int): seq<int>
    requires s == [] || IsPow2(|s|)
  {
    Place(if Grows(s) then Reserved(s, GrownCapacity(|s|)) else s, t)
  }

  function Erased(s: seq<int>, t: int): seq<int>
    requires IsKey(t)
  {
    if IsPow2(|s|) && Live(s) != 0 && 0 <= Stop(s, t) < |s| && s[Stop(s, t)] == t then s[Stop(s, t) := DELETED] else s
  }

  function Cleared(s: seq<int>, n: nat): seq<int> {
    seq(Larger(|s|, n), _ => EMPTY)
  }

  class FlatUnorderedSet {
    var elements: array<int>
    var size: nat

    ghost predicate Valid()
      reads this, elements
    {
      && (elements.Length == 0 || Consistent(elements[..]))
      && size == Live(elements[..])
    }

    ghost function Contents(): set<int>
      reads this, elements
    {
      Keys(elements[..])
    }

    /** The load test: the next insert will grow the table. */
    predicate MustGrow()
      reads this
    {
      (size + 1) * 3 / 2 >= elements.Length / 2
    }

    /** The load bound that insert keeps. */
    predicate LightlyLoaded()
      reads this
    {
      size == 0 || size * 3 / 2 < elements.Length / 2
    }

    /** A probe for t stops: an empty slot is left, or t is there. */
    predicate CanProbe(t: int)
      reads this, elements
    {
      EMPTY in elements[..] || t in elements[..]
    }

    constructor ()
      ensures Valid() && Contents() == {} && fresh(elements)
      ensures elements.Length == 0 && LightlyLoaded() && DELETED !in elements[..]
    {
      elements := new int[0];
      size := 0;
    }

    /** size() is the number of keys held. */
    lemma SizeIsCardinality()
      requires Valid()
      ensures size == |Contents()|
    {
      if elements.Length != 0 {
        ConsistentHasNoDuplicates(elements[..]);
      } else {
        assert Contents() == {};
      }
    }

    method Clear(n: nat)
      requires Valid() && (n == 0 || IsPow2(n))
      modifies this
      ensures Valid() && Contents() == {} && fresh(elements)
      ensures elements[..] == Cleared(old(elements[..]), n)
      ensures elements.Length == if n > old(elements.Length) then n else old(elements.Length)
      ensures size == 0 && forall i :: 0 <= i < elements.Length ==> elements[i] == EMPTY
      ensures DELETED !in elements[..]
    {
      var cap := if n > elements.Length then n else elements.Length;
      elements := new int[cap](_ => EMPTY);
      size := 0;
      CountsOfFresh(elements[..]);
    }

    /**
     With no key present this only resizes the slot vector, erased slots included. Otherwise it
     rebuilds the table, never smaller than it was, and drops the erased slots.
     */
    method Reserve(n: nat)
      requires Valid() && IsPow2(n)
      modifies this
      ensures Valid() && fresh(elements)
      ensures size == old(size) && Contents() == old(Contents())
      ensures elements[..] == Reserved(old(elements[..]), n)
      ensures elements.Length == if old(size) == 0 || n > old(elements.Length) then n else old(elements.Length)
      ensures old(size) > 0 || old(DELETED !in elements[..]) ==> DELETED !in elements[..]
      ensures n > old(elements.Length) ==> EMPTY in elements[..]
    {
      if size == 0 {
        ResizeEmpty(n);
        return;
      }
      CountBounds(elements[..]);
      var vals := LiveKeys(elements);
      forall i | 0 <= i < |vals| ensures IsKey(vals[i]) { LiveKeysAreKeys(elements[..], vals[i]); }
      elements := Rebuild(vals, if n > elements.Length then n else elements.Length);
      size := |vals|;
      CountBounds(elements[..]);
    }

    /** vector::resize on a table without live keys. */
    method ResizeEmpty(n: nat)
      requires Valid() && IsPow2(n) && size == 0
      modifies this
      ensures Valid() && fresh(elements) && elements.Length == n && elements[..] == Resized(old(elements[..]), n)
      ensures size == 0 && Contents() == old(Contents()) == {}
      ensures old(DELETED !in elements[..]) ==> DELETED !in elements[..]
      ensures n > old(elements.Length) ==> EMPTY in elements[..]
    {
      ResizedIsEmpty(elements[..], n);
      elements := Resize(elements, n);
    }

    method Insert(t: int)
      requires Valid() && IsKey(t)
      requires MustGrow() || CanProbe(t)
      modifies this, elements
      ensures Valid() && (elements == old(elements) || fresh(elements))
      ensures Contents() == old(Contents()) + {t}
      ensures size == old(size) + if t in old(Contents()) then 0 else 1
      ensures old(DELETED !in elements[..]) ==> DELETED !in elements[..]
      ensures old(LightlyLoaded()) ==> LightlyLoaded()
      ensures elements[..] == Inserted(old(elements[..]), t)
      ensures if (old(size) + 1) * 3 / 2 < old(elements.Length) / 2 then elements == old(elements)
              else elements.Length == if old(elements.Length) < 8 then 16 else 2 * old(elements.Length)
    {
      if (size + 1) * 3 / 2 >= elements.Length / 2 {
        Reserve(GrownCapacity(elements.Length));
      }
      var spot := Seek(elements, t);
      ghost var s := elements[..];
      StopHoldsAbsent(s, t);
      if elements[spot] != t {
        PutKey(s, t);
        elements[spot] := t;
        size := size + 1;
      } else {
        assert Keys(s) == Keys(s) + {t};
      }
      assert elements[..] == StoreAt(s, spot, t);
    }

    method Erase(t: int)
      requires Valid() && IsKey(t)
      requires size == 0 || CanProbe(t)
      modifies this, elements
      ensures Valid() && elements == old(elements)
      ensures Contents() == old(Contents()) - {t}
      ensures size == old(size) - if t in old(Contents()) then 1 else 0
      ensures elements[..] == Erased(old(elements[..]), t)
    {
      CountBounds(elements[..]);
      if size == 0 {
        return;
      }
      var spot := Seek(elements, t);
      ghost var s := elements[..];
      if elements[spot] == t {
        DeleteKeepsConsistent(s, spot);
        CountsAfterUpdate(s, spot, DELETED);
        KeysAfterDelete(s, spot);
        elements[spot] := DELETED;
        assert elements[..] == s[spot := DELETED];
        CountBounds(elements[..]);
        size := size - 1;
      } else {
        StopHoldsAbsent(s, t);
      }
    }

    /** find() and count(): the slot that holds t, if any. */
    method Find(t: int) returns (found: bool, spot: nat)
      requires Valid() && IsKey(t)
      requires size == 0 || CanProbe(t)
      ensures found == (t in Contents())
      ensures found ==> spot < elements.Length && elements[spot] == t
    {
      CountBounds(elements[..]);
      found, spot := false, 0;
      if size != 0 {
        spot := Seek(elements, t);
        found := elements[spot] == t;
        StopHoldsAbsent(elements[..], t);
      }
    }
  }

  lemma LiveKeysAreKeys(s: seq<int>, t: int)
    requires Consistent(s) && t in Keys(s)
    ensures IsKey(t)
  {
  }

  method Resize(a: array<int>, n: nat) returns (b: array<int>)
    ensures fresh(b) && b[..] == Resized(a[..], n)
  {
    b := new int[n](i reads a => if 0 <= i < a.Length then a[i] else EMPTY);
    ghost var s := a[..];
    assert forall i :: 0 <= i < n ==> b[i] == if i < |s| then s[i] else EMPTY;
  }

  lemma ResizedIsEmpty(s: seq<int>, n: nat)
    requires Live(s) == 0
    ensures Keys(s) == {}
    ensures var r := Resized(s, n);
            && |r| == n && Keys(r) == {} && Live(r) == 0 && (IsPow2(n) ==> Consistent(r))
            && (DELETED !in s ==> DELETED !in r) && (n > |s| ==> EMPTY in r)
  {
    CountBounds(s);
    var r := Resized(s, n);
    assert forall x :: x in r ==> x in s || x == EMPTY;
    NoLiveKeys(r);
    if n > |s| { assert r[|s|] == EMPTY; }
  }

  lemma NoLiveKeys(s: seq<int>)
    requires forall x :: x in s ==> !IsLive(x)
    ensures Keys(s) == {} && Live(s) == 0
    ensures IsPow2(|s|) ==> Consistent(s)
  {
    if s != [] {
      var n := |s| - 1;
      assert s[n] in s;
      assert forall x :: x in s[..n] ==> x in s;
      NoLiveKeys(s[..n]);
    }
  }

  /** Where the probe stops without having found t, t is nowhere in the table. */
  lemma StopHoldsAbsent(s: seq<int>, t: int)
    requires Consistent(s) && IsKey(t) && Stop(s, t) >= 0
    ensures t in Keys(s) <==> s[Stop(s, t)] == t
  {
  }

  function GrownCapacity(cap: nat): (r: nat)
    requires cap == 0 || IsPow2(cap)
    ensures IsPow2(r) && r > cap
  {
    Sixteen();
    if DEFAULT_CAP > cap * 2 then DEFAULT_CAP else cap * 2
  }

  lemma Sixteen()
    ensures IsPow2(16)
  {
    assert IsPow2(2) && IsPow2(4) && IsPow2(8);
  }

  /** Without erased slots the load bound leaves an empty slot, so the next insert can always probe. */
  lemma RoomWithoutErase(s: FlatUnorderedSet, t: int)
    requires s.Valid() && s.LightlyLoaded() && DELETED !in s.elements[..]
    ensures s.MustGrow() || s.CanProbe(t)
  {
    CountBounds(s.elements[..]);
  }

  datatype Operation = Insertion(t: int) | Erasure(t: int) | Clearing(n: nat)

  predicate ValidOperation(op: Operation) {
    match op
    case Insertion(t) => IsKey(t)
    case Erasure(t) => IsKey(t)
    case Clearing(n) => n == 0 || IsPow2(n)
  }

  predicate NoErase(ops: seq<Operation>) {
    forall i :: 0 <= i < |ops| ==> !ops[i].Erasure?
  }

  predicate ValidRun(ops: seq<Operation>) {
    forall i :: 0 <= i < |ops| ==> ValidOperation(ops[i])
  }

  ghost function Changed(keys: set<int>, op: Operation): set<int> {
    match op
    case Insertion(t) => keys + {t}
    case Erasure(t) => keys - {t}
    case Clearing(_) => {}
  }

  /** The set that is meant after n operations. */
  ghost function Meaning(ops: seq<Operation>, n: nat): set<int>
    requires n <= |ops|
  {
    if n == 0 then {} else Changed(Meaning(ops, n - 1), ops[n - 1])
  }

  /** The slots after n operations. */
  function Slots(ops: seq<Operation>, n: nat): (s: seq<int>)
    requires ValidRun(ops) && n <= |ops|
    ensures s == [] || IsPow2(|s|)
  {
    if n == 0 then [] else After(Slots(ops, n - 1), ops[n - 1])
  }

  function After(s: seq<int>, op: Operation): (r: seq<int>)
    requires ValidOperation(op) && (s == [] || IsPow2(|s|))
    ensures r == [] || IsPow2(|r|)
  {
    match op
    case Insertion(t) => Inserted(s, t)
    case Erasure(t) => Erased(s, t)
    case Clearing(n) => Cleared(s, n)
  }

  /** The operation probes, and the probe never stops. */
  ghost predicate Sticks(s: seq<int>, op: Operation)
    requires ValidOperation(op) && (s == [] || IsPow2(|s|))
  {
    match op
    case Insertion(t) => !Grows(s) && s != [] && forall k: nat :: !StopsAt(s, t, k)
    case Erasure(t) => Live(s) != 0 && s != [] && forall k: nat :: !StopsAt(s, t, k)
    case Clearing(_) => false
  }

  ghost predicate SticksAt(ops: seq<Operation>, i: nat)
    requires ValidRun(ops) && i < |ops|
  {
    Sticks(Slots(ops, i), ops[i])
  }

  ghost predicate SomeStepSticks(ops: seq<Operation>)
    requires ValidRun(ops)
  {
    exists i: nat :: i < |ops| && SticksAt(ops, i)
  }

  /** The slots and the keys are what the first n operations make of them, none of which has stuck. */
  ghost predicate Follows(ops: seq<Operation>, n: nat, slots: seq<int>, keys: set<int>)
    requires ValidRun(ops) && n <= |ops|
  {
    && slots == Slots(ops, n) && keys == Meaning(ops, n)
    && (forall i: nat :: i < n ==> !SticksAt(ops, i))
    && (NoErase(ops) ==> DELETED !in slots)
  }

  lemma FollowsNext(ops: seq<Operation>, n: nat, slots: seq<int>, keys: set<int>, slots': seq<int>, keys': set<int>)
    requires ValidRun(ops) && n < |ops| && Follows(ops, n, slots, keys) && !Sticks(slots, ops[n])
    requires slots' == After(slots, ops[n]) && keys' == Changed(keys, ops[n])
    requires !ops[n].Erasure? && DELETED !in slots ==> DELETED !in slots'
    ensures Follows(ops, n + 1, slots', keys')
  {
  }

  /**
   Any run of insert, erase and clear on a new set, up to the first step whose probe does not stop. It gets to the
   end if and only if no step sticks, which none does without erase, and as far as it gets the set is the one that
   is meant.
   */
  method Run(ops: seq<Operation>) returns (s: FlatUnorderedSet, done: nat)
    requires ValidRun(ops)
    ensures done <= |ops| && s.Valid() && s.LightlyLoaded()
    ensures s.Contents() == Meaning(ops, done) && s.elements[..] == Slots(ops, done)
    ensures done == |ops| <==> !SomeStepSticks(ops)
    ensures done < |ops| ==> SticksAt(ops, done)
    ensures NoErase(ops) ==> !SomeStepSticks(ops)
  {
    s := new FlatUnorderedSet();
    done := 0;
    while done < |ops|
      invariant fresh(s) && fresh(s.elements) && done <= |ops|
      invariant s.Valid() && s.LightlyLoaded() && Follows(ops, done, s.elements[..], s.Contents())
      decreases |ops| - done
    {
      ghost var slots, keys := s.elements[..], s.Contents();
      var stuck := Step(s, ops[done]);
      if stuck {
        StoppedAt(ops, done, slots, keys);
        return;
      }
      FollowsNext(ops, done, slots, keys, s.elements[..], s.Contents());
      done := done + 1;
    }
    CameThrough(ops, s.elements[..], s.Contents());
  }

  lemma StoppedAt(ops: seq<Operation>, n: nat, slots: seq<int>, keys: set<int>)
    requires ValidRun(ops) && n < |ops| && Follows(ops, n, slots, keys) && Sticks(slots, ops[n])
    requires ops[n].Erasure? || DELETED in slots
    ensures slots == Slots(ops, n) && keys == Meaning(ops, n)
    ensures SomeStepSticks(ops) && SticksAt(ops, n) && !NoErase(ops)
  {
    assert SticksAt(ops, n);
  }

  lemma CameThrough(ops: seq<Operation>, slots: seq<int>, keys: set<int>)
    requires ValidRun(ops) && Follows(ops, |ops|, slots, keys)
    ensures slots == Slots(ops, |ops|) && keys == Meaning(ops, |ops|) && !SomeStepSticks(ops)
  {
  }

  /** One operation, unless it would not come to an end. */
  method Step(s: FlatUnorderedSet, op: Operation) returns (stuck: bool)
    requires ValidOperation(op) && s.Valid() && s.LightlyLoaded()
    modifies s, s.elements
    ensures s.Valid() && s.LightlyLoaded() && (s.elements == old(s.elements) || fresh(s.elements))
    ensures stuck <==> Sticks(old(s.elements[..]), op)
    ensures stuck ==> s.Contents() == old(s.Contents()) && s.elements[..] == old(s.elements[..])
    ensures !stuck ==> s.elements[..] == After(old(s.elements[..]), op)
    ensures !op.Erasure? && old(DELETED !in s.elements[..]) ==> !stuck && DELETED !in s.elements[..]
    ensures !stuck ==> s.Contents() == Changed(old(s.Contents()), op)
  {
    match op {
      case Insertion(t) =>
        StuckIff(s, t);
        if DELETED !in s.elements[..] { RoomWithoutErase(s, t); }
        stuck := !s.MustGrow() && !s.CanProbe(t);
        if !stuck { s.Insert(t); }
      case Erasure(t) =>
        StuckIff(s, t);
        stuck := s.size != 0 && !s.CanProbe(t);
        if !stuck { s.Erase(t); }
      case Clearing(n) =>
        stuck := false;
        s.Clear(n);
    }
  }

  lemma StuckIff(s: FlatUnorderedSet, t: int)
    requires s.Valid() && IsKey(t)
    ensures s.elements.Length != 0 ==> (s.CanProbe(t) <==> exists k: nat :: StopsAt(s.elements[..], t, k))
    ensures s.elements.Length == 0 ==> s.MustGrow() && s.size == 0
    ensures s.MustGrow() <==> Grows(s.elements[..])
  {
    if s.elements.Length != 0 { WalkStopsIff(s.elements[..], t); }
  }

  /**
   With erase the load bound is not enough: erased slots are not counted. Sixteen keys with sixteen
   different home slots, each inserted and erased again, leave an empty set whose table of 16 slots
   has no empty slot, so the next insert of any key does not stop probing.
   */
  method Saturate() returns (s: FlatUnorderedSet)
    ensures s.Valid() && s.Contents() == {} && s.size == 0 && s.LightlyLoaded()
    ensures forall t :: IsKey(t) ==> !(s.MustGrow() || s.CanProbe(t))
  {
    s := new FlatUnorderedSet();
    Sixteen();
    s.Clear(DEFAULT_CAP);
    assert forall j :: 0 <= j < 16 ==> s.elements[j] == EMPTY;
    for i := 0 to 16
      invariant fresh(s) && fresh(s.elements)
      invariant s.Valid() && s.size == 0 && s.Contents() == {} && s.elements.Length == 16
      invariant forall j :: 0 <= j < 16 ==> s.elements[j] == if j < i then DELETED else EMPTY
    {
      HomeOfMultiple(s.elements[..], i);
      s.Insert(i * 256);
      HomeOfMultiple(s.elements[..], i);
      s.Erase(i * 256);
    }
  }

  lemma HomeOfMultiple(s: seq<int>, i: nat)
    requires |s| == 16 && i < 16 && (s[i] == EMPTY || s[i] == i * 256)
    ensures IsPow2(16) && Stop(s, i * 256) == i
  {
    Sixteen();
    var h: nat := i * 65536 + i;
    assert i * 256 / 256 == i && Hash(i * 256) == h;
    UniqueRemainder(h, 16, i * 4096, i);
    assert Home(s, i * 256) == i;
  }
}
