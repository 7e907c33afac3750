/**
 The operators of SET sets. Operands are combined group by group: OR separates groups, and within
 a group the other operators apply from left to right.
 */
module SetOperators {

  datatype Op = Or | Plus | Minus | Failfast | Not

  /** The value of a group so far, and whether a failfast operand has matched in it. */
  datatype Outcome = Outcome(value: bool, failfast: bool)

  function Apply(o: Outcome, op: Op, operand: bool): Outcome {
    match op
    case Or => o
    case Plus => Outcome(o.value && operand, o.failfast)
    case Minus => Outcome(o.value && !operand, o.failfast)
    case Failfast => if operand then Outcome(false, true) else o
    case Not => Outcome(o.value || !operand, o.failfast)
  }

  /** The group from operand i through operand j. */
  function Fold(vals: seq<bool>, ops: seq<Op>, i: nat, j: nat): Outcome
    requires i <= j < |vals| && |ops| + 1 == |vals|
  {
    if i == j then Outcome(vals[i], false) else Apply(Fold(vals, ops, i, j - 1), ops[j - 1], vals[j])
  }

  /** The last operand of the group that starts at i. */
  function GroupEnd(ops: seq<Op>, i: nat): (e: nat)
    requires i <= |ops|
    ensures i <= e <= |ops|
    ensures e < |ops| ==> ops[e] == Or
    ensures forall k :: i <= k < e ==> ops[k] != Or
    decreases |ops| - i
  {
    if i == |ops| || ops[i] == Or then i else GroupEnd(ops, i + 1)
  }

  /**
   From operand i on: the first group that holds decides for, the first group that does not hold
   and saw a failfast operand match decides against.
   */
  predicate CombineFrom(vals: seq<bool>, ops: seq<Op>, i: nat)
    requires |ops| + 1 == |vals| && i <= |vals|
    decreases |vals| - i
  {
    i < |vals| &&
    var e := GroupEnd(ops, i);
    var o := Fold(vals, ops, i, e);
    o.value || (!o.failfast && CombineFrom(vals, ops, e + 1))
  }

  predicate Combine(vals: seq<bool>, ops: seq<Op>)
    requires |ops| + 1 == |vals|
  {
    CombineFrom(vals, ops, 0)
  }

  // ---- groups by themselves ----

  /** The operator in front of operand k. */
  function Before(ops: seq<Op>, k: int): Op
    requires 0 < k <= |ops|
  {
    ops[k - 1]
  }

  /** Operands i to e are a group: there is an OR, or nothing, on either side and none between them. */
  predicate IsGroup(vals: seq<bool>, ops: seq<Op>, i: nat, e: nat)
    requires |ops| + 1 == |vals|
  {
    && i <= e < |vals| && (i == 0 || Before(ops, i) == Or) && (e == |ops| || Before(ops, e + 1) == Or)
    && forall k :: i < k <= e ==> Before(ops, k) != Or
  }

  /** Operand s speaks for the group that starts at i: it is the first and holds, or comes after NOT and does not. */
  predicate Speaks(vals: seq<bool>, ops: seq<Op>, i: nat, s: nat)
    requires |ops| + 1 == |vals| && s < |vals|
  {
    if s == i then vals[s] else i < s && Before(ops, s) == Not && !vals[s]
  }

  /** No operand after s and up to e objects: those after + hold, those after - and ^ do not. */
  predicate NoneObjects(vals: seq<bool>, ops: seq<Op>, s: nat, e: nat)
    requires |ops| + 1 == |vals| && e < |vals|
  {
    forall j :: s < j <= e ==>
      match Before(ops, j)
      case Plus => vals[j]
      case Minus => !vals[j]
      case Failfast => !vals[j]
      case _ => true
  }

  predicate FailsFast(vals: seq<bool>, ops: seq<Op>, k: nat)
    requires |ops| + 1 == |vals| && 0 < k < |vals|
  {
    Before(ops, k) == Failfast && vals[k]
  }

  /** The group i..e decides for: operand s speaks for it, none after s objects, and none before i fails fast. */
  predicate Decides(vals: seq<bool>, ops: seq<Op>, i: nat, e: nat, s: nat)
    requires |ops| + 1 == |vals|
  {
    && IsGroup(vals, ops, i, e) && i <= s <= e && Speaks(vals, ops, i, s) && NoneObjects(vals, ops, s, e)
    && forall k :: 0 < k < i ==> !FailsFast(vals, ops, k)
  }

  lemma {:induction false} FoldIs(vals: seq<bool>, ops: seq<Op>, i: nat, j: nat)
    requires |ops| + 1 == |vals| && i <= j < |vals| && forall k :: i < k <= j ==> Before(ops, k) != Or
    ensures Fold(vals, ops, i, j).value <==>
              exists s :: i <= s <= j && Speaks(vals, ops, i, s) && NoneObjects(vals, ops, s, j)
    ensures Fold(vals, ops, i, j).failfast <==> exists k :: i < k <= j && FailsFast(vals, ops, k)
    decreases j
  {
    if i == j {
      assert Speaks(vals, ops, i, i) <==> vals[i];
      assert NoneObjects(vals, ops, i, i);
    } else {
      FoldIs(vals, ops, i, j - 1);
      var o := Fold(vals, ops, i, j - 1);
      assert o.failfast ==> exists k :: i < k <= j && FailsFast(vals, ops, k);
      assert FailsFast(vals, ops, j) <==> Before(ops, j) == Failfast && vals[j];
      forall s | i <= s < j
        ensures NoneObjects(vals, ops, s, j) <==>
                  NoneObjects(vals, ops, s, j - 1) && NoneObjects(vals, ops, j - 1, j)
      {
      }
      assert NoneObjects(vals, ops, j, j);
      assert Speaks(vals, ops, i, j) <==> Before(ops, j) == Not && !vals[j];
    }
  }

  lemma {:induction false} CombineFromIs(vals: seq<bool>, ops: seq<Op>, i: nat)
    requires |ops| + 1 == |vals| && i <= |vals| && (0 < i < |vals| ==> Before(ops, i) == Or)
    requires forall k :: 0 < k < i ==> !FailsFast(vals, ops, k)
    ensures CombineFrom(vals, ops, i) <==> exists j: nat, e, s :: i <= j && Decides(vals, ops, j, e, s)
    decreases |vals| - i
  {
    if i < |vals| {
      var end := GroupEnd(ops, i);
      FoldIs(vals, ops, i, end);
      assert IsGroup(vals, ops, i, end);
      var o := Fold(vals, ops, i, end);
      if o.value {
        var s :| i <= s <= end && Speaks(vals, ops, i, s) && NoneObjects(vals, ops, s, end);
        assert Decides(vals, ops, i, end, s);
      } else {
        forall j: nat, e: nat, s: nat | i <= j && Decides(vals, ops, j, e, s) ensures end < j && !o.failfast {
          LaterGroup(vals, ops, i, end, j, e);
        }
        if !o.failfast {
          CombineFromIs(vals, ops, end + 1);
        }
      }
    }
  }

  /** A group from i on that is not the one at i starts behind it. */
  lemma LaterGroup(vals: seq<bool>, ops: seq<Op>, i: nat, end: nat, j: nat, e: nat)
    requires |ops| + 1 == |vals| && IsGroup(vals, ops, i, end) && IsGroup(vals, ops, j, e) && i <= j
    ensures j == i ==> e == end
    ensures j != i ==> end < j
  {
  }

  /**
   A combination holds if and only if some group decides for it. A failfast operand that matches keeps every later
   group from deciding, whatever comes after it in its own.
   */
  lemma CombineIs(vals: seq<bool>, ops: seq<Op>)
    requires |ops| + 1 == |vals|
    ensures Combine(vals, ops) <==> exists i: nat, e, s :: Decides(vals, ops, i, e, s)
  {
    CombineFromIs(vals, ops, 0);
  }

  lemma OnlyFirstSpeaks(vals: seq<bool>, ops: seq<Op>, i: nat, s: nat)
    requires |ops| + 1 == |vals| && s < |vals| && Not !in ops && Speaks(vals, ops, i, s)
    ensures s == i
  {
  }

  /** As it can be written, without NOT: the first operand of some group holds, and so on. */
  lemma CombineWithoutNot(vals: seq<bool>, ops: seq<Op>)
    requires |ops| + 1 == |vals| && Not !in ops
    ensures Combine(vals, ops) <==>
              exists i: nat, e :: && IsGroup(vals, ops, i, e) && vals[i] && NoneObjects(vals, ops, i, e)
                                  && forall k :: 0 < k < i ==> !FailsFast(vals, ops, k)
  {
    CombineIs(vals, ops);
    if Combine(vals, ops) {
      var i: nat, e: nat, s: nat :| Decides(vals, ops, i, e, s);
      OnlyFirstSpeaks(vals, ops, i, s);
    }
    forall i: nat, e | IsGroup(vals, ops, i, e) && i < |vals|
      ensures vals[i] && NoneObjects(vals, ops, i, e) && (forall k :: 0 < k < i ==> !FailsFast(vals, ops, k)) ==>
                Decides(vals, ops, i, e, i)
    {
    }
  }

  // ---- what the operators mean ----

  /** A set of alternatives holds if one of them does. */
  lemma {:induction false} AlternativesHold(vals: seq<bool>, ops: seq<Op>, i: nat)
    requires |ops| + 1 == |vals| && i <= |vals| && forall k :: 0 <= k < |ops| ==> ops[k] == Or
    ensures CombineFrom(vals, ops, i) <==> exists k :: i <= k < |vals| && vals[k]
    decreases |vals| - i
  {
    if i < |vals| {
      assert GroupEnd(ops, i) == i;
      AlternativesHold(vals, ops, i + 1);
    }
  }

  lemma {:induction false} FoldPlus(vals: seq<bool>, ops: seq<Op>, j: nat)
    requires |ops| + 1 == |vals| && j < |vals| && forall k :: 0 <= k < j ==> ops[k] == Plus
    ensures Fold(vals, ops, 0, j) == Outcome(forall k :: 0 <= k <= j ==> vals[k], false)
    decreases j
  {
    if j > 0 { FoldPlus(vals, ops, j - 1); }
  }

  /** A conjunction holds if all its operands do. */
  lemma ConjunctionHolds(vals: seq<bool>, ops: seq<Op>)
    requires |ops| + 1 == |vals| && forall k :: 0 <= k < |ops| ==> ops[k] == Plus
    ensures Combine(vals, ops) <==> forall k :: 0 <= k < |vals| ==> vals[k]
  {
    FoldPlus(vals, ops, |ops|);
    assert GroupEnd(ops, 0) == |ops|;
    assert !CombineFrom(vals, ops, |vals|);
  }

  lemma DifferenceHolds(a: bool, b: bool)
    ensures Combine([a, b], [Minus]) <==> a && !b
  {
    var vals, ops := [a, b], [Minus];
    assert GroupEnd(ops, 0) == 1;
    assert !CombineFrom(vals, ops, 2);
    assert Fold(vals, ops, 0, 1) == Apply(Fold(vals, ops, 0, 0), ops[0], vals[1]);
  }

  /** Minus only spoils its own group; failfast spoils the groups after it as well. */
  lemma FailfastReachesFurther(a: bool, b: bool, c: bool, d: bool)
    ensures Combine([a, b, c, d], [Or, Minus, Or]) <==> a || (b && !c) || d
    ensures Combine([a, b, c, d], [Or, Failfast, Or]) <==> a || (!c && (b || d))
  {
    var vals := [a, b, c, d];
    forall op | op == Minus || op == Failfast
      ensures var ops := [Or, op, Or];
              && GroupEnd(ops, 0) == 0 && GroupEnd(ops, 1) == 2 && GroupEnd(ops, 3) == 3
              && Fold(vals, ops, 1, 2) == Apply(Outcome(b, false), op, c)
              && (Combine(vals, ops) <==> a || CombineFrom(vals, ops, 1))
              && (CombineFrom(vals, ops, 3) <==> d)
    {
      var ops := [Or, op, Or];
      assert GroupEnd(ops, 2) == 2;
      assert Fold(vals, ops, 1, 1) == Outcome(b, false);
    }
  }

  /** Without Not, a combination only holds if one of its operands does. */
  lemma {:induction false} FoldNeedsOperand(vals: seq<bool>, ops: seq<Op>, i: nat, j: nat)
    requires |ops| + 1 == |vals| && i <= j < |vals| && Not !in ops && !vals[i]
    ensures !Fold(vals, ops, i, j).value
    decreases j
  {
    if i < j { FoldNeedsOperand(vals, ops, i, j - 1); }
  }

  lemma {:induction false} NeedsOperand(vals: seq<bool>, ops: seq<Op>, i: nat)
    requires |ops| + 1 == |vals| && i <= |vals| && Not !in ops
    requires forall k :: 0 <= k < |vals| ==> !vals[k]
    ensures !CombineFrom(vals, ops, i)
    decreases |vals| - i
  {
    if i < |vals| {
      FoldNeedsOperand(vals, ops, i, GroupEnd(ops, i));
      NeedsOperand(vals, ops, GroupEnd(ops, i) + 1);
    }
  }

  /** With Or and Plus only, more operands holding never makes the combination fail. */
  lemma {:induction false} FoldMonotone(vals: seq<bool>, vals': seq<bool>, ops: seq<Op>, i: nat, j: nat)
    requires |ops| + 1 == |vals| == |vals'| && i <= j < |vals|
    requires forall k :: 0 <= k < |ops| ==> ops[k] == Or || ops[k] == Plus
    requires forall k :: 0 <= k < |vals| ==> (vals[k] ==> vals'[k])
    ensures Fold(vals, ops, i, j).value ==> Fold(vals', ops, i, j).value
    ensures !Fold(vals, ops, i, j).failfast && !Fold(vals', ops, i, j).failfast
    decreases j
  {
    if i < j { FoldMonotone(vals, vals', ops, i, j - 1); }
  }

  lemma {:induction false} Monotone(vals: seq<bool>, vals': seq<bool>, ops: seq<Op>, i: nat)
    requires |ops| + 1 == |vals| == |vals'| && i <= |vals|
    requires forall k :: 0 <= k < |ops| ==> ops[k] == Or || ops[k] == Plus
    requires forall k :: 0 <= k < |vals| ==> (vals[k] ==> vals'[k])
    ensures CombineFrom(vals, ops, i) ==> CombineFrom(vals', ops, i)
    decreases |vals| - i
  {
    if i < |vals| {
      FoldMonotone(vals, vals', ops, i, GroupEnd(ops, i));
      Monotone(vals, vals', ops, GroupEnd(ops, i) + 1);
    }
  }
}
