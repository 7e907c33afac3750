/**
 delimitAt: the cohorts after a given one move to a new window. Windows and cohorts are named by
 numbers; links and back references are maps between them.
 */
module Delimiting {

  const NONE: int := -1

  /** The windows in order, as previous, current and next have them. */
  datatype Lists = Lists(previous: seq<int>, current: int, next: seq<int>)

  function Order(l: Lists): seq<int> {
    l.previous + (if l.current == NONE then [] else [l.current]) + l.next
  }

  /** The text: the cohorts of all windows in order. */
  function Text(order: seq<int>, cohorts: map<int, seq<int>>): seq<int>
    requires forall i :: 0 <= i < |order| ==> order[i] in cohorts
  {
    if order == [] then [] else cohorts[order[0]] + Text(order[1..], cohorts)
  }

  predicate Distinct(s: seq<int>) {
    forall i, j :: 0 <= i < j < |s| ==> s[i] != s[j]
  }

  predicate Known(order: seq<int>, cohorts: map<int, seq<int>>) {
    forall i :: 0 <= i < |order| ==> order[i] in cohorts
  }

  lemma {:induction false} TextAppend(a: seq<int>, b: seq<int>, cohorts: map<int, seq<int>>)
    requires Known(a, cohorts) && Known(b, cohorts)
    ensures Known(a + b, cohorts) && Text(a + b, cohorts) == Text(a, cohorts) + Text(b, cohorts)
    decreases |a|
  {
    if a == [] {
      assert a + b == b;
    } else {
      assert Known(a[1..], cohorts);
      TextAppend(a[1..], b, cohorts);
      assert (a + b)[0] == a[0] && (a + b)[1..] == a[1..] + b;
    }
  }

  lemma {:induction false} TextUnchanged(order: seq<int>, cohorts: map<int, seq<int>>, cohorts': map<int, seq<int>>)
    requires Known(order, cohorts) && Known(order, cohorts')
    requires forall i :: 0 <= i < |order| ==> cohorts'[order[i]] == cohorts[order[i]]
    ensures Text(order, cohorts') == Text(order, cohorts)
    decreases |order|
  {
    if order != [] {
      assert order[0] in cohorts;
      TextUnchanged(order[1..], cohorts, cohorts');
    }
  }

  // ---- where the new window comes in ----

  /** The windows after delimiting window w: the new one is put before the windows to come, or next to w. */
  function Delimited(l: Lists, w: int, n: int): Lists {
    if w == l.current then l.(next := [n] + l.next)
    else if w in l.next then var i := IndexOf(l.next, w); l.(next := l.next[..i + 1] + [n] + l.next[i + 1..])
    else if w in l.previous then
      var i := IndexOf(l.previous, w);
      l.(previous := l.previous[..i] + [n] + l.previous[i..])
    else l
  }

  function IndexOf(s: seq<int>, x: int): (i: nat)
    requires x in s
    ensures i < |s| && s[i] == x && x !in s[..i]
  {
    if s[0] == x then 0 else
      var i := 1 + IndexOf(s[1..], x);
      assert s[..i] == [s[0]] + s[1..][..i - 1];
      i
  }

  /** s' is s with n put right behind w. */
  ghost predicate PutBehind(s: seq<int>, w: int, n: int, s': seq<int>) {
    exists i :: 0 <= i < |s| && s[i] == w && s' == s[..i + 1] + [n] + s[i + 1..]
  }

  /** s' is s with n put right before w. */
  ghost predicate PutBefore(s: seq<int>, w: int, n: int, s': seq<int>) {
    exists i :: 0 <= i < |s| && s[i] == w && s' == s[..i] + [n] + s[i..]
  }

  /**
   The current window stays the current one. The new one is the first to come if that is the window delimited; it is
   right behind a window to come, and right before a window that has been passed, in the same list. The rest stays.
   */
  ghost predicate PutIn(l: Lists, w: int, n: int, l': Lists) {
    && l'.current == l.current
    && (w == l.current ==> l'.previous == l.previous && l'.next == [n] + l.next)
    && (w in l.next ==> l'.previous == l.previous && PutBehind(l.next, w, n, l'.next))
    && (w in l.previous ==> l'.next == l.next && PutBefore(l.previous, w, n, l'.previous))
  }

  lemma DelimitedPutsIn(l: Lists, w: int, n: int)
    requires Distinct(Order(l)) && w in Order(l) && w != NONE
    ensures PutIn(l, w, n, Delimited(l, w, n))
  {
    if w in l.previous {
      InPreviousOnly(l, w, IndexOf(l.previous, w));
    } else if w in l.next {
      CurrentOnly(l, IndexOf(l.next, w));
    }
  }

  lemma CurrentOnly(l: Lists, i: nat)
    requires Distinct(Order(l)) && i < |l.next| && l.next[i] != NONE
    ensures l.next[i] != l.current
  {
    var order := Order(l);
    if l.current != NONE {
      assert order[|l.previous|] == l.current;
      assert order[|l.previous| + 1 + i] == l.next[i];
    }
  }

  /** The windows around window w. */
  lemma AroundWindow(l: Lists, w: int, n: int) returns (a: seq<int>, b: seq<int>)
    requires Distinct(Order(l)) && w in Order(l) && w != NONE
    ensures Order(l) == a + [w] + b
    ensures Order(Delimited(l, w, n)) == if w in l.previous then a + [n, w] + b else a + [w, n] + b
    ensures w !in a && w !in b
  {
    if w in l.previous {
      a, b := AroundPrevious(l, w, n);
    } else if w == l.current {
      a, b := l.previous, l.next;
      assert l.previous + [w] + ([n] + l.next) == l.previous + [w, n] + l.next;
    } else {
      a, b := AroundNext(l, w, n);
    }
    OnlyOnce(a, w, b);
  }

  lemma AroundPrevious(l: Lists, w: int, n: int) returns (a: seq<int>, b: seq<int>)
    requires Distinct(Order(l)) && w in l.previous && w != NONE
    ensures Order(l) == a + [w] + b && Order(Delimited(l, w, n)) == a + [n, w] + b
  {
    InPreviousOnly(l, w, IndexOf(l.previous, w));
    a, b := PreviousShape(l, w, n);
  }

  lemma SplitAt(s: seq<int>, i: nat)
    requires i < |s|
    ensures s == s[..i] + [s[i]] + s[i + 1..] && s[i..] == [s[i]] + s[i + 1..] && s[..i + 1] == s[..i] + [s[i]]
  {
  }

  lemma PreviousShape(l: Lists, w: int, n: int) returns (a: seq<int>, b: seq<int>)
    requires w in l.previous && w != l.current && w !in l.next
    ensures Order(l) == a + [w] + b && Order(Delimited(l, w, n)) == a + [n, w] + b
  {
    var i := IndexOf(l.previous, w);
    var d := l.previous[i + 1..];
    a, b := l.previous[..i], d + Ahead(l);
    SplitAt(l.previous, i);
    SpreadBefore(a, n, w, d, Ahead(l));
    OrderSplit(l);
    OrderSplit(l.(previous := a + [n] + ([w] + d)));
  }

  /** The current window and those to come. */
  function Ahead(l: Lists): seq<int> {
    (if l.current == NONE then [] else [l.current]) + l.next
  }

  lemma OrderSplit(l: Lists)
    ensures Order(l) == l.previous + Ahead(l)
  {
  }

  lemma SpreadBefore(a: seq<int>, n: int, w: int, d: seq<int>, rest: seq<int>)
    ensures (a + [w] + d) + rest == a + [w] + (d + rest)
    ensures (a + [n] + ([w] + d)) + rest == a + [n, w] + (d + rest)
  {
  }

  lemma AroundNext(l: Lists, w: int, n: int) returns (a: seq<int>, b: seq<int>)
    requires w in l.next && w != l.current
    ensures Order(l) == a + [w] + b && Order(Delimited(l, w, n)) == a + [w, n] + b
  {
    var i := IndexOf(l.next, w);
    var before := l.previous + if l.current == NONE then [] else [l.current];
    a, b := before + l.next[..i], l.next[i + 1..];
    var c := l.next[..i];
    SplitAt(l.next, i);
    Spread(before, c, w, n, b);
  }

  lemma Spread(before: seq<int>, c: seq<int>, w: int, n: int, b: seq<int>)
    ensures before + (c + [w] + b) == before + c + [w] + b
    ensures before + (c + [w] + [n] + b) == before + c + [w, n] + b
  {
  }

  lemma InPreviousOnly(l: Lists, w: int, i: nat)
    requires Distinct(Order(l)) && i < |l.previous| && l.previous[i] == w
    ensures w != NONE ==> w != l.current
    ensures w !in l.next
  {
    var order := Order(l);
    assert order[i] == w;
    if l.current != NONE { assert order[|l.previous|] == l.current; }
    forall j | 0 <= j < |l.next| ensures l.next[j] != w {
      assert order[|order| - |l.next| + j] == l.next[j];
    }
  }

  lemma OnlyOnce(a: seq<int>, w: int, b: seq<int>)
    requires Distinct(a + [w] + b)
    ensures w !in a && w !in b
  {
    var s := a + [w] + b;
    assert s[|a|] == w;
    forall i | 0 <= i < |a| ensures a[i] != w { assert s[i] == a[i]; }
    forall i | 0 <= i < |b| ensures b[i] != w { assert s[|a| + 1 + i] == b[i]; }
  }

  /** The cohorts of the windows after window w has been cut behind position c. */
  function Cut(cohorts: map<int, seq<int>>, w: int, c: nat, n: int, begin: int): map<int, seq<int>>
    requires w in cohorts && c < |cohorts[w]|
  {
    cohorts[n := [begin] + cohorts[w][c + 1..]][w := cohorts[w][..c + 1]]
  }

  /** Window w keeps its cohorts up to c, the new window has the begin cohort and those behind. */
  ghost predicate IsCut(cohorts: map<int, seq<int>>, w: int, c: nat, n: int, begin: int, cohorts': map<int, seq<int>>)
    requires w in cohorts && c < |cohorts[w]|
  {
    && cohorts'.Keys == cohorts.Keys + {n} && w != n
    && cohorts'[w] == cohorts[w][..c + 1] && cohorts'[n] == [begin] + cohorts[w][c + 1..]
    && forall v :: v in cohorts && v != w ==> cohorts'[v] == cohorts[v]
  }

  /** The text of the windows around a window, before and after it is cut. */
  lemma AroundCut(a: seq<int>, w: int, b: seq<int>, cohorts: map<int, seq<int>>, c: nat, n: int, begin: int)
    requires Known(a + [w] + b, cohorts) && w !in a && w !in b && n !in a + [w] + b && w in cohorts && c < |cohorts[w]|
    ensures Known(a, cohorts) && Known(b, cohorts)
    ensures Text(a + [w] + b, cohorts) == Text(a, cohorts) + cohorts[w] + Text(b, cohorts)
    ensures var cut := Cut(cohorts, w, c, n, begin);
            && Known(a, cut) && Known(b, cut) && w in cut && n in cut
            && Text(a, cut) == Text(a, cohorts) && Text(b, cut) == Text(b, cohorts)
  {
    var order := a + [w] + b;
    assert forall i :: 0 <= i < |a| ==> order[i] == a[i];
    assert forall i :: 0 <= i < |b| ==> order[|a| + 1 + i] == b[i];
    TextAppend(a, [w], cohorts);
    TextAppend(a + [w], b, cohorts);
    TextOfOne(w, cohorts);
    var cut := Cut(cohorts, w, c, n, begin);
    TextUnchanged(a, cohorts, cut);
    TextUnchanged(b, cohorts, cut);
  }

  lemma TextOfPair(a: seq<int>, x: int, y: int, b: seq<int>, cohorts: map<int, seq<int>>)
    requires Known(a, cohorts) && Known(b, cohorts) && x in cohorts && y in cohorts
    ensures Known(a + [x, y] + b, cohorts)
    ensures Text(a + [x, y] + b, cohorts) == Text(a, cohorts) + (cohorts[x] + cohorts[y]) + Text(b, cohorts)
  {
    TextAppend(a, [x, y], cohorts);
    TextAppend(a + [x, y], b, cohorts);
    assert [x, y][1..] == [y];
    TextOfOne(y, cohorts);
  }

  lemma TextOfOne(w: int, cohorts: map<int, seq<int>>)
    requires w in cohorts
    ensures Text([w], cohorts) == cohorts[w]
  {
    assert [w][1..] == [];
  }

  /**
   The text after delimiting is the text with the new begin cohort behind the cohort where it was cut,
   if the window is the current one or one to come.
   */
  lemma TextAfter(l: Lists, cohorts: map<int, seq<int>>, w: int, c: nat, n: int, begin: int) returns (k: nat)
    requires Distinct(Order(l)) && Known(Order(l), cohorts) && w in Order(l) && w != NONE && w !in l.previous
    requires w in cohorts && c < |cohorts[w]| && n !in Order(l)
    ensures Known(Order(Delimited(l, w, n)), Cut(cohorts, w, c, n, begin))
    ensures var text, after := Text(Order(l), cohorts), Text(Order(Delimited(l, w, n)), Cut(cohorts, w, c, n, begin));
            k < |text| && text[k] == cohorts[w][c] && after == text[..k + 1] + [begin] + text[k + 1..]
  {
    var a, b := AroundWindow(l, w, n);
    k := CutText(a, w, b, cohorts, c, n, begin);
  }

  lemma CutText(a: seq<int>, w: int, b: seq<int>, cohorts: map<int, seq<int>>, c: nat, n: int, begin: int)
      returns (k: nat)
    requires Known(a + [w] + b, cohorts) && w !in a && w !in b && n !in a + [w] + b && w in cohorts && c < |cohorts[w]|
    ensures Known(a + [w, n] + b, Cut(cohorts, w, c, n, begin))
    ensures var text, after := Text(a + [w] + b, cohorts), Text(a + [w, n] + b, Cut(cohorts, w, c, n, begin));
            k < |text| && text[k] == cohorts[w][c] && after == text[..k + 1] + [begin] + text[k + 1..]
  {
    var cut := Cut(cohorts, w, c, n, begin);
    AroundCut(a, w, b, cohorts, c, n, begin);
    TextOfPair(a, w, n, b, cut);
    assert n != w by { assert (a + [w] + b)[|a|] == w; }
    var ta, tb := Text(a, cohorts), Text(b, cohorts);
    k := |ta| + c;
    Spliced(ta, cohorts[w], tb, c, begin);
  }

  lemma Spliced(ta: seq<int>, m: seq<int>, tb: seq<int>, c: nat, begin: int)
    requires c < |m|
    ensures var text, k := ta + m + tb, |ta| + c;
            text[k] == m[c] &&
                ta + (m[..c + 1] + ([begin] + m[c + 1..])) + tb == text[..k + 1] + [begin] + text[k + 1..]
  {
    var text, k := ta + m + tb, |ta| + c;
    assert text[..k + 1] == ta + m[..c + 1];
    assert text[k + 1..] == m[c + 1..] + tb;
  }

  /** In a window that has been passed, the new window comes before it, and so does the tail before the head. */
  lemma PreviousIsTurnedRound(l: Lists, cohorts: map<int, seq<int>>, w: int, c: nat, n: int, begin: int)
      returns (ta: seq<int>, tb: seq<int>)
    requires Distinct(Order(l)) && Known(Order(l), cohorts) && w in l.previous && w != NONE
    requires w in cohorts && c < |cohorts[w]| && n !in Order(l)
    ensures Known(Order(Delimited(l, w, n)), Cut(cohorts, w, c, n, begin))
    ensures Text(Order(l), cohorts) == ta + cohorts[w] + tb
    ensures Text(Order(Delimited(l, w, n)), Cut(cohorts, w, c, n, begin)) ==
              ta + ([begin] + cohorts[w][c + 1..] + cohorts[w][..c + 1]) + tb
  {
    assert w in Order(l);
    var a, b := AroundWindow(l, w, n);
    var cut := Cut(cohorts, w, c, n, begin);
    AroundCut(a, w, b, cohorts, c, n, begin);
    TextOfPair(a, n, w, b, cut);
    ta, tb := Text(a, cohorts), Text(b, cohorts);
  }

  /** So it is the text with a begin cohort put in exactly when the window is not one that has been passed. */
  lemma TextIsKept(l: Lists, cohorts: map<int, seq<int>>, w: int, c: nat, n: int, begin: int)
    requires Distinct(Order(l)) && Known(Order(l), cohorts) && w in Order(l) && w != NONE
    requires w in cohorts && c < |cohorts[w]| && n !in Order(l)
    requires Distinct(Text(Order(l), cohorts)) && begin !in Text(Order(l), cohorts)
    ensures Known(Order(Delimited(l, w, n)), Cut(cohorts, w, c, n, begin))
    ensures WithBeginBehind(Text(Order(l), cohorts), cohorts[w][c], begin,
                            Text(Order(Delimited(l, w, n)), Cut(cohorts, w, c, n, begin)))
            <==> w !in l.previous
  {
    var text := Text(Order(l), cohorts);
    if w !in l.previous {
      var k := TextAfter(l, cohorts, w, c, n, begin);
    } else {
      var ta, tb := PreviousIsTurnedRound(l, cohorts, w, c, n, begin);
      NotBehind(ta, cohorts[w], tb, c, begin);
    }
  }

  lemma NotBehind(ta: seq<int>, m: seq<int>, tb: seq<int>, c: nat, begin: int)
    requires c < |m| && Distinct(ta + m + tb) && begin !in ta + m + tb
    ensures !WithBeginBehind(ta + m + tb, m[c], begin, ta + ([begin] + m[c + 1..] + m[..c + 1]) + tb)
  {
    var text, after := ta + m + tb, ta + ([begin] + m[c + 1..] + m[..c + 1]) + tb;
    assert after[|ta|] == begin && text[|ta| + c] == m[c];
    forall k: nat | k < |text| && text[k] == m[c] ensures after != text[..k + 1] + [begin] + text[k + 1..] {
      var other := text[..k + 1] + [begin] + text[k + 1..];
      assert k == |ta| + c;
      assert other[|ta|] == text[|ta|];
      assert text[|ta|] in text;
    }
  }

  ghost predicate WithBeginBehind(text: seq<int>, x: int, begin: int, after: seq<int>) {
    exists k: nat :: k < |text| && text[k] == x && after == text[..k + 1] + [begin] + text[k + 1..]
  }

  // ---- links ----

  function After(s: seq<int>, i: int): int
    requires 0 <= i < |s|
  {
    if i == |s| - 1 then NONE else s[i + 1]
  }

  function Before(s: seq<int>, i: int): int
    requires 0 <= i < |s|
  {
    if i == 0 then NONE else s[i - 1]
  }

  /** Each window's next is the one after it. */
  predicate Linked(order: seq<int>, links: map<int, int>) {
    forall i :: 0 <= i < |order| ==> order[i] in links && links[order[i]] == After(order, i)
  }

  lemma LinkedInsert(order: seq<int>, links: map<int, int>, p: nat, n: int)
    requires Linked(order, links) && Distinct(order) && 0 < p <= |order| && n !in order
    ensures Linked(order[..p] + [n] + order[p..], links[order[p - 1] := n][n := if p < |order| then order[p] else NONE])
  {
    var order' := order[..p] + [n] + order[p..];
    var w, after := order[p - 1], if p < |order| then order[p] else NONE;
    var links' := links[w := n][n := after];
    assert w in order && order'[p] == n;
    forall i | 0 <= i < |order'|
      ensures order'[i] in links' && links'[order'[i]] == After(order', i)
    {
      if i < p - 1 {
        assert order'[i] == order[i] && order[i] in order && order[i] != w;
        assert order'[i + 1] == order[i + 1];
        assert links[order[i]] == order[i + 1];
      } else if i == p - 1 {
        assert order'[i] == w;
      } else if i == p {
        assert p < |order| ==> order'[p + 1] == order[p];
      } else {
        assert order'[i] == order[i - 1] && order[i - 1] in order && order[i - 1] != w;
        assert i < |order| ==> order'[i + 1] == order[i];
        assert links[order[i - 1]] == After(order, i - 1);
      }
    }
  }

  /** Each window's previous is the one before it. */
  predicate Backed(order: seq<int>, backs: map<int, int>) {
    forall i :: 0 <= i < |order| ==> order[i] in backs && backs[order[i]] == Before(order, i)
  }

  /** The first i windows are linked among themselves. */
  ghost predicate BackedTo(order: seq<int>, backs: map<int, int>, i: nat)
    requires i <= |order|
  {
    forall j :: 0 <= j < i ==> order[j] in backs && backs[order[j]] == Before(order, j)
  }

  ghost predicate LinkedTo(order: seq<int>, links: map<int, int>, i: nat)
    requires i <= |order|
  {
    forall j :: 0 <= j < i - 1 ==> order[j] in links && links[order[j]] == After(order, j)
  }

  lemma LinkStep(order: seq<int>, backs: map<int, int>, links: map<int, int>, i: nat)
    requires Distinct(order) && i < |order| && BackedTo(order, backs, i) && LinkedTo(order, links, i)
    ensures BackedTo(order, backs[order[i] := Before(order, i)], i + 1)
    ensures LinkedTo(order, if i == 0 then links else links[order[i - 1] := order[i]], i + 1)
  {
  }

  lemma LinkLast(order: seq<int>, backs: map<int, int>, links: map<int, int>)
    requires Distinct(order) && BackedTo(order, backs, |order|) && LinkedTo(order, links, |order|)
    ensures Backed(order, backs)
    ensures Linked(order, if order == [] then links else links[order[|order| - 1] := NONE])
  {
  }

  lemma BackedInsert(order: seq<int>, backs: map<int, int>, p: nat, n: int)
    requires Backed(order, backs) && Distinct(order) && 0 < p <= |order| && n !in order
    ensures Backed(order[..p] + [n] + order[p..],
                   (if p < |order| then backs[order[p] := n] else backs)[n := order[p - 1]])
  {
    var order' := order[..p] + [n] + order[p..];
    var backs' := (if p < |order| then backs[order[p] := n] else backs)[n := order[p - 1]];
    forall i | 0 <= i < |order'|
      ensures order'[i] in backs' && backs'[order'[i]] == Before(order', i)
    {
      if i < p {
        assert order'[i] == order[i] && order[i] in order && (p < |order| ==> order[i] != order[p]);
        assert 0 < i ==> order'[i - 1] == order[i - 1];
        assert backs[order[i]] == Before(order, i);
      } else if i == p {
        assert order'[i] == n && order'[i - 1] == order[p - 1];
      } else {
        assert order'[i] == order[i - 1] && order[i - 1] in order;
        assert i - 1 > p ==> order[i - 1] != order[p] && order'[i - 1] == order[i - 2];
        assert backs[order[i - 1]] == Before(order, i - 1);
      }
    }
  }

  /** The cohorts are a chain in the order of the text. */
  predicate Chained(text: seq<int>, prev: map<int, int>, next: map<int, int>) {
    forall i :: 0 <= i < |text| ==>
      text[i] in prev && prev[text[i]] == Before(text, i) && text[i] in next && next[text[i]] == After(text, i)
  }

  lemma ChainedAppend(text: seq<int>, prev: map<int, int>, next: map<int, int>, x: int)
    requires Chained(text, prev, next) && Distinct(text) && x !in text
    ensures var last := if text == [] then NONE else text[|text| - 1];
            var next' := next[x := NONE];
            Chained(text + [x], prev[x := last], if text == [] then next' else next'[last := x])
  {
    var longer := text + [x];
    var last := if text == [] then NONE else text[|text| - 1];
    var prev' := prev[x := last];
    var next' := if text == [] then next[x := NONE] else next[x := NONE][last := x];
    if text != [] { assert last in text; }
    forall i | 0 <= i < |longer|
      ensures longer[i] in prev' && prev'[longer[i]] == Before(longer, i) && longer[i] in next' &&
              next'[longer[i]] == After(longer, i)
    {
      if i < |text| - 1 {
        assert longer[i] == text[i] && text[i] in text && longer[i + 1] == text[i + 1] && text[i] != last;
        assert next[text[i]] == text[i + 1];
      } else if i == |text| - 1 {
        assert longer[i] == last && longer[i + 1] == x;
      }
      if 0 < i { assert longer[i - 1] == text[i - 1]; }
    }
  }

  /** Every cohort knows its window and its place in it. */
  predicate Placed(order: seq<int>, cohorts: map<int, seq<int>>, parent: map<int, int>, local: map<int, int>)
    requires Known(order, cohorts)
  {
    forall i :: 0 <= i < |order| ==> PlacedIn(order[i], cohorts[order[i]], parent, local)
  }

  predicate PlacedIn(w: int, cs: seq<int>, parent: map<int, int>, local: map<int, int>) {
    forall j :: 0 <= j < |cs| ==> cs[j] in parent && parent[cs[j]] == w && cs[j] in local && local[cs[j]] == j
  }

  lemma {:induction false} TextHasParents(order: seq<int>, cohorts: map<int, seq<int>>, parent: map<int, int>,
                                          local: map<int, int>)
    requires Known(order, cohorts) && Placed(order, cohorts, parent, local)
    ensures forall k :: 0 <= k < |Text(order, cohorts)| ==>
              Text(order, cohorts)[k] in parent && parent[Text(order, cohorts)[k]] in order
    decreases |order|
  {
    if order != [] {
      var w, rest := order[0], order[1..];
      assert w in cohorts && Known(rest, cohorts) && PlacedIn(w, cohorts[w], parent, local);
      assert Placed(rest, cohorts, parent, local);
      TextHasParents(rest, cohorts, parent, local);
      var cs, tail := cohorts[w], Text(rest, cohorts);
      forall k | 0 <= k < |cs| + |tail| ensures (cs + tail)[k] in parent && parent[(cs + tail)[k]] in order {
        if k >= |cs| { assert (cs + tail)[k] == tail[k - |cs|]; }
      }
    }
  }

  /** No cohort is twice in the text. */
  lemma {:induction false} TextIsDistinct(order: seq<int>, cohorts: map<int, seq<int>>, parent: map<int, int>,
                                          local: map<int, int>)
    requires Known(order, cohorts) && Placed(order, cohorts, parent, local) && Distinct(order)
    ensures Distinct(Text(order, cohorts))
    decreases |order|
  {
    if order != [] {
      var w, rest := order[0], order[1..];
      assert w in cohorts && Known(rest, cohorts) && PlacedIn(w, cohorts[w], parent, local);
      assert Placed(rest, cohorts, parent, local) && w !in rest;
      TextHasParents(rest, cohorts, parent, local);
      TextIsDistinct(rest, cohorts, parent, local);
      var cs, tail := cohorts[w], Text(rest, cohorts);
      var text := cs + tail;
      forall i, j | 0 <= i < j < |text| ensures text[i] != text[j] {
        if j < |cs| {
          assert local[cs[i]] == i && local[cs[j]] == j;
        } else if i < |cs| {
          assert parent[text[i]] == w && text[j] == tail[j - |cs|];
        } else {
          assert text[i] == tail[i - |cs|] && text[j] == tail[j - |cs|];
        }
      }
    }
  }

  // ---- the windows ----

  class Windows {
    var lists: Lists
    /** next and previous of the windows */
    var links: map<int, int>
    var backs: map<int, int>
    var cohorts: map<int, seq<int>>
    /** parent, local_number, prev and next of the cohorts */
    var parent: map<int, int>
    var local: map<int, int>
    var prev: map<int, int>
    var next: map<int, int>

    ghost predicate Valid()
      reads this`lists, this`links, this`backs, this`cohorts, this`parent, this`local
    {
      && Distinct(Order(lists)) && NONE !in Order(lists)
      && Linked(Order(lists), links) && Backed(Order(lists), backs)
      && Known(Order(lists), cohorts) && Placed(Order(lists), cohorts, parent, local)
    }

    /** One window's part of rebuildCohortLinks. */
    method LinkCohorts(cs: seq<int>, last0: int, ghost done: seq<int>) returns (last: int)
      requires Chained(done, prev, next) && Distinct(done + cs)
      requires last0 == LastOf(done)
      requires NONE !in done + cs
      modifies this`prev, this`next
      ensures Chained(done + cs, prev, next)
      ensures last == LastOf(done + cs)
    {
      last := last0;
      assert done + cs[..0] == done;
      for j := 0 to |cs|
        invariant Chained(done + cs[..j], prev, next)
        invariant last == LastOf(done + cs[..j])
      {
        NextCohort(done, cs, j);
        last := LinkOne(cs[j], last, done + cs[..j]);
        assert done + cs[..j + 1] == done + cs[..j] + [cs[j]];
      }
      assert cs[..|cs|] == cs;
    }

    method LinkOne(x: int, last0: int, ghost text: seq<int>) returns (last: int)
      requires Chained(text, prev, next) && Distinct(text) && x !in text && NONE !in text
      requires last0 == LastOf(text)
      modifies this`prev, this`next
      ensures Chained(text + [x], prev, next) && last == x
    {
      ChainedAppend(text, prev, next, x);
      prev := prev[x := last0];
      next := next[x := NONE];
      if last0 != NONE {
        next := next[last0 := x];
      }
      last := x;
    }

    /** rebuildCohortLinks: from the first window along the links between windows. */
    method RebuildCohortLinks()
      requires Valid() && NONE !in Text(Order(lists), cohorts)
      modifies this`prev, this`next
      ensures Valid() && Chained(Text(Order(lists), cohorts), prev, next)
    {
      ghost var order := Order(lists);
      TextIsDistinct(order, cohorts, parent, local);
      var window := First(lists);
      var last := NONE;
      ghost var i := 0;
      assert Text(order[..0], cohorts) == [];
      while window != NONE
        invariant 0 <= i <= |order| && window == (if i == |order| then NONE else order[i])
        invariant Valid() && Known(order[..i], cohorts) && Chained(Text(order[..i], cohorts), prev, next)
        invariant last == LastOf(Text(order[..i], cohorts))
        decreases |order| - i
      {
        last := LinkWindow(window, last, i);
        window := links[window];
        i := i + 1;
      }
      assert order[..|order|] == order;
    }

    method LinkWindow(window: int, last0: int, ghost i: int) returns (last: int)
      requires Valid() && 0 <= i < |Order(lists)| && window == Order(lists)[i]
      requires Distinct(Text(Order(lists), cohorts)) && NONE !in Text(Order(lists), cohorts)
      requires Known(Order(lists)[..i], cohorts) && Known(Order(lists)[..i + 1], cohorts)
      requires Chained(Text(Order(lists)[..i], cohorts), prev, next) &&
               last0 == LastOf(Text(Order(lists)[..i], cohorts))
      modifies this`prev, this`next
      ensures Valid() && Chained(Text(Order(lists)[..i + 1], cohorts), prev, next)
      ensures last == LastOf(Text(Order(lists)[..i + 1], cohorts))
    {
      ghost var done := Text(Order(lists)[..i], cohorts);
      TextUpTo(Order(lists), cohorts, i);
      last := LinkCohorts(cohorts[window], last0, done);
    }

    /** rebuildSingleWindowLinks */
    method RebuildSingleWindowLinks()
      requires Distinct(Order(lists))
      modifies this`links, this`backs
      ensures Linked(Order(lists), links) && Backed(Order(lists), backs)
    {
      var order, last := Order(lists), NONE;
      for i := 0 to |order|
        invariant last == if i == 0 then NONE else order[i - 1]
        invariant BackedTo(order, backs, i) && LinkedTo(order, links, i)
      {
        LinkStep(order, backs, links, i);
        backs := backs[order[i] := last];
        if i > 0 {
          links := links[last := order[i]];
        }
        last := order[i];
      }
      LinkLast(order, backs, links);
      if order != [] {
        links := links[last := NONE];
      }
    }

    /** A new window n, next to window w. Only for the current window are the links set by hand. */
    method InsertWindow(w: int, n: int)
      requires Distinct(Order(lists)) && NONE !in Order(lists)
      requires Linked(Order(lists), links) && Backed(Order(lists), backs)
      requires w in Order(lists) && n !in Order(lists) && n != NONE
      modifies this`lists, this`links, this`backs
      ensures lists == Delimited(old(lists), w, n) && PutIn(old(lists), w, n, lists)
      ensures Distinct(Order(lists)) && NONE !in Order(lists)
      ensures forall x :: x in Order(lists) <==> x in Order(old(lists)) || x == n
      ensures Linked(Order(lists), links) && Backed(Order(lists), backs)
    {
      OrderAfter(lists, w, n);
      DelimitedPutsIn(lists, w, n);
      if w == lists.current {
        PushWindow(n);
      } else {
        PlaceWindow(w, n);
        RebuildSingleWindowLinks();
      }
    }

    /** Behind w if it is to come, otherwise before w if it has been passed. */
    method PlaceWindow(w: int, n: int)
      requires w != lists.current
      modifies this`lists
      ensures lists == Delimited(old(lists), w, n)
    {
      var found, i := Search(lists.next, w);
      if found {
        lists := lists.(next := lists.next[..i + 1] + [n] + lists.next[i + 1..]);
      } else {
        found, i := Search(lists.previous, w);
        if found {
          lists := lists.(previous := lists.previous[..i] + [n] + lists.previous[i..]);
        }
      }
    }

    method Search(s: seq<int>, w: int) returns (found: bool, i: nat)
      ensures found <==> w in s
      ensures found ==> i < |s| && s[i] == w && i == IndexOf(s, w)
    {
      i := 0;
      while i < |s|
        invariant i <= |s| && w !in s[..i]
      {
        if s[i] == w {
          FirstIndex(s, w, i);
          return true, i;
        }
        i := i + 1;
      }
      found := false;
    }

    /** allocPushSingleWindow: the new window is the first of those to come. */
    method PushWindow(n: int)
      requires Distinct(Order(lists)) && Linked(Order(lists), links) && Backed(Order(lists), backs)
      requires lists.current != NONE && n !in Order(lists)
      modifies this`lists, this`links, this`backs
      ensures lists == old(lists).(next := [n] + old(lists).next)
      ensures Linked(Order(lists), links) && Backed(Order(lists), backs)
    {
      ghost var order, p := Order(lists), |lists.previous| + 1;
      LinkedInsert(order, links, p, n);
      BackedInsert(order, backs, p, n);
      assert order[p - 1] == lists.current && (p < |order| <==> lists.next != []);
      assert lists.next != [] ==> order[p] == lists.next[0];
      if lists.next != [] {
        backs := backs[lists.next[0] := n];
      }
      backs := backs[n := lists.current];
      links := links[lists.current := n];
      links := links[n := if lists.next != [] then lists.next[0] else NONE];
      lists := lists.(next := [n] + lists.next);
      assert Order(lists) == order[..p] + [n] + order[p..];
    }

    /** appendCohort, but for the links between cohorts, which are rebuilt afterwards. */
    method AppendCohort(n: int, x: int)
      requires n in cohorts
      modifies this`cohorts, this`parent, this`local
      ensures cohorts == old(cohorts)[n := old(cohorts)[n] + [x]]
      ensures parent == old(parent)[x := n] && local == old(local)[x := |old(cohorts)[n]|]
    {
      local := local[x := |cohorts[n]|];
      parent := parent[x := n];
      cohorts := cohorts[n := cohorts[n] + [x]];
    }

    /** The new window gets its begin cohort and the tail. */
    method FillWindow(n: int, begin: int, tail: seq<int>)
      requires n !in cohorts && Distinct([begin] + tail)
      modifies this`cohorts, this`parent, this`local
      ensures cohorts == old(cohorts)[n := [begin] + tail]
      ensures PlacedIn(n, [begin] + tail, parent, local)
      ensures SameBut(old(parent), parent, [begin] + tail) && SameBut(old(local), local, [begin] + tail)
    {
      var cs := [begin] + tail;
      cohorts := cohorts[n := []];
      for i := 0 to |cs|
        invariant cohorts == old(cohorts)[n := cs[..i]] && PlacedIn(n, cs[..i], parent, local)
        invariant SameBut(old(parent), parent, cs) && SameBut(old(local), local, cs)
      {
        AppendCohort(n, cs[i]);
        assert cs[..i + 1] == cs[..i] + [cs[i]];
      }
      assert cs[..|cs|] == cs;
    }

    /** The tail is taken off, one cohort at a time. */
    method DropTail(w: int, c: nat)
      requires w in cohorts && c < |cohorts[w]|
      modifies this`cohorts
      ensures cohorts == old(cohorts)[w := old(cohorts)[w][..c + 1]]
    {
      ghost var cs := cohorts[w];
      while |cohorts[w]| > c + 1
        invariant w in cohorts && c < |cohorts[w]| <= |cs| && cohorts[w] == cs[..|cohorts[w]|]
        invariant cohorts == old(cohorts)[w := cohorts[w]]
        decreases |cohorts[w]|
      {
        cohorts := cohorts[w := cohorts[w][..|cohorts[w]| - 1]];
      }
    }

    method MoveTail(w: int, c: nat, n: int, begin: int)
      requires w in cohorts && c < |cohorts[w]| && n !in cohorts && Distinct([begin] + cohorts[w][c + 1..])
      modifies this`cohorts, this`parent, this`local
      ensures cohorts == Cut(old(cohorts), w, c, n, begin)
      ensures var moved := [begin] + old(cohorts)[w][c + 1..];
              PlacedIn(n, moved, parent, local) && SameBut(old(parent), parent, moved) &&
                  SameBut(old(local), local, moved)
    {
      FillWindow(n, begin, cohorts[w][c + 1..]);
      DropTail(w, c);
    }

    /**
     delimitAt: the cohorts of window w behind position c go to the new window n, behind its begin
     cohort. Every cohort then knows its window and place, and all are chained in the order of the text.
     */
    method DelimitAt(w: int, c: nat, n: int, begin: int)
      requires Valid() && w in Order(lists) && w in cohorts && c < |cohorts[w]|
      requires n !in cohorts && n != NONE && begin !in parent && begin != NONE && NONE !in parent
      modifies this
      ensures Valid() && lists == Delimited(old(lists), w, n) && cohorts == Cut(old(cohorts), w, c, n, begin)
      ensures PutIn(old(lists), w, n, lists)
      ensures IsCut(old(cohorts), w, c, n, begin, cohorts)
      ensures Chained(Text(Order(lists), cohorts), prev, next)
    {
      ghost var order := Order(lists);
      UnknownWindow(order, cohorts, n);
      InsertWindow(w, n);
      MoveCohorts(w, c, n, begin, order);
      RebuildCohortLinks();
    }

    /** The window n is in its place, and the cohorts go there. */
    method MoveCohorts(w: int, c: nat, n: int, begin: int, ghost order: seq<int>)
      requires Distinct(Order(lists)) && NONE !in Order(lists)
      requires Linked(Order(lists), links) && Backed(Order(lists), backs)
      requires Known(order, cohorts) && Placed(order, cohorts, parent, local) && w in order
      requires forall x :: x in Order(lists) ==> x in order || x == n
      requires w in cohorts && c < |cohorts[w]|
      requires n !in cohorts && begin !in parent && begin != NONE && NONE !in parent
      modifies this`cohorts, this`parent, this`local
      ensures Valid() && NONE !in Text(Order(lists), cohorts)
      ensures cohorts == Cut(old(cohorts), w, c, n, begin) && IsCut(old(cohorts), w, c, n, begin, cohorts)
    {
      ghost var before, f, g := cohorts, parent, local;
      TailIsDistinct(w, before[w], c, parent, local, begin);
      MoveTail(w, c, n, begin);
      PlacedAfterCut(order, Order(lists), before, w, c, n, begin, f, g, parent, local);
      TextHasParents(Order(lists), cohorts, parent, local);
    }
  }

  lemma {:induction false} FirstIndex(s: seq<int>, x: int, i: nat)
    requires i < |s| && s[i] == x && x !in s[..i]
    ensures i == IndexOf(s, x)
    decreases i
  {
    if i > 0 {
      assert s[..i] == [s[0]] + s[1..][..i - 1];
      FirstIndex(s[1..], x, i - 1);
    }
  }

  lemma UnknownWindow(order: seq<int>, cohorts: map<int, seq<int>>, n: int)
    requires Known(order, cohorts) && n !in cohorts
    ensures n !in order
  {
  }

  /** f' is f but for the cohorts that have moved. */
  ghost predicate SameBut(f: map<int, int>, f': map<int, int>, moved: seq<int>) {
    && (forall y :: y in f ==> y in f')
    && (forall y :: y in f' && y !in moved ==> y in f && f'[y] == f[y])
  }

  lemma TailIsDistinct(w: int, cs: seq<int>, c: nat, parent: map<int, int>, local: map<int, int>, begin: int)
    requires PlacedIn(w, cs, parent, local) && c < |cs| && begin !in parent
    ensures Distinct([begin] + cs[c + 1..])
    ensures forall j :: 0 <= j <= c ==> cs[j] !in [begin] + cs[c + 1..]
  {
    var moved := [begin] + cs[c + 1..];
    assert forall i :: 1 <= i < |moved| ==> moved[i] == cs[c + i] && local[moved[i]] == c + i;
  }

  lemma PlacedAfterCut(order: seq<int>, order': seq<int>, cohorts: map<int, seq<int>>, w: int, c: nat, n: int,
                       begin: int, parent: map<int, int>, local: map<int, int>,
                       parent': map<int, int>, local': map<int, int>)
    requires Known(order, cohorts) && Placed(order, cohorts, parent, local) && w in order && w in cohorts &&
             c < |cohorts[w]|
    requires n !in cohorts && begin !in parent && forall x :: x in order' ==> x in order || x == n
    requires var moved := [begin] + cohorts[w][c + 1..];
             PlacedIn(n, moved, parent', local') && SameBut(parent, parent', moved) && SameBut(local, local', moved)
    ensures Known(order', Cut(cohorts, w, c, n, begin)) && Placed(order', Cut(cohorts, w, c, n, begin), parent', local')
  {
    var cut, moved := Cut(cohorts, w, c, n, begin), [begin] + cohorts[w][c + 1..];
    TailIsDistinct(w, cohorts[w], c, parent, local, begin);
    assert forall i :: 1 <= i < |moved| ==> moved[i] == cohorts[w][c + i];
    forall i | 0 <= i < |order'| ensures order'[i] in cut && PlacedIn(order'[i], cut[order'[i]], parent', local') {
      var v := order'[i];
      assert v in order';
      if v != n {
        var cs := cut[v];
        assert PlacedIn(v, cohorts[v], parent, local);
        forall j | 0 <= j < |cs| ensures cs[j] == cohorts[v][j] && cs[j] !in moved {
          assert v != w ==> parent[cohorts[v][j]] != w;
        }
      }
    }
  }

  function LastOf(text: seq<int>): int {
    if text == [] then NONE else text[|text| - 1]
  }

  function First(l: Lists): (w: int)
    ensures w == if Order(l) == [] then NONE else Order(l)[0]
  {
    if l.previous != [] then l.previous[0]
    else if l.current != NONE then l.current
    else if l.next != [] then l.next[0] else NONE
  }

  /** The text up to and including window i. */
  lemma TextUpTo(order: seq<int>, cohorts: map<int, seq<int>>, i: nat)
    requires Known(order, cohorts) && i < |order| && Distinct(Text(order, cohorts)) && NONE !in Text(order, cohorts)
    ensures Known(order[..i], cohorts) && Known(order[..i + 1], cohorts)
    ensures var done := Text(order[..i], cohorts) + cohorts[order[i]];
            Text(order[..i + 1], cohorts) == done && Distinct(done) && NONE !in done
  {
    var a, w, b := order[..i], order[i], order[i + 1..];
    assert order[..i + 1] == a + [w] && order == (a + [w]) + b;
    TextAppend(a, [w], cohorts);
    TextAppend(a + [w], b, cohorts);
    TextOfOne(w, cohorts);
    var done, text := Text(a + [w], cohorts), Text(order, cohorts);
    assert forall j :: 0 <= j < |done| ==> done[j] == text[j] && text[j] in text;
  }

  lemma OrderAfter(l: Lists, w: int, n: int)
    requires Distinct(Order(l)) && w in Order(l) && NONE !in Order(l) && n !in Order(l) && n != NONE
    ensures Distinct(Order(Delimited(l, w, n))) && NONE !in Order(Delimited(l, w, n))
    ensures forall x :: x in Order(Delimited(l, w, n)) <==> x in Order(l) || x == n
  {
    var a, b := AroundWindow(l, w, n);
    var order := a + [w] + b;
    var order' := if w in l.previous then a + [n, w] + b else a + [w, n] + b;
    var p := if w in l.previous then |a| else |a| + 1;
    Inserted(a, w, n, b);
    InsertOne(order, p, n);
  }

  lemma Inserted(a: seq<int>, w: int, n: int, b: seq<int>)
    ensures var order := a + [w] + b;
            && a + [n, w] + b == order[..|a|] + [n] + order[|a|..]
            && a + [w, n] + b == order[..|a| + 1] + [n] + order[|a| + 1..]
  {
    var order := a + [w] + b;
    assert order[..|a|] == a && order[|a|..] == [w] + b;
    assert order[..|a| + 1] == a + [w] && order[|a| + 1..] == b;
  }

  lemma InsertOne(order: seq<int>, p: nat, n: int)
    requires Distinct(order) && p <= |order| && n !in order
    ensures var order' := order[..p] + [n] + order[p..];
            Distinct(order') && forall x :: x in order' <==> x in order || x == n
  {
    var order' := order[..p] + [n] + order[p..];
    forall i, j | 0 <= i < j < |order'| ensures order'[i] != order'[j] {
      assert order'[i] == if i < p then order[i] else if i == p then n else order[i - 1];
      assert order'[j] == if j < p then order[j] else if j == p then n else order[j - 1];
    }
    forall x ensures x in order' <==> x in order || x == n {
      assert order == order[..p] + order[p..];
    }
  }

  lemma NextCohort(done: seq<int>, cs: seq<int>, j: nat)
    requires Distinct(done + cs) && j < |cs|
    ensures Distinct(done + cs[..j]) && cs[j] !in done + cs[..j]
    ensures NONE !in done + cs ==> NONE !in done + cs[..j]
  {
    var text, all := done + cs[..j], done + cs;
    assert forall i :: 0 <= i < |text| ==> text[i] == all[i] && all[i] in all;
    assert all[|done| + j] == cs[j];
  }
}
