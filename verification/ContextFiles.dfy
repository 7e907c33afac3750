/** Writing all contextual tests of a grammar, reading them back, and binding their references. */
module ContextFiles {
  import opened BinaryWords
  import opened ContextGraphs

  type Graph = map<Word, Context>

  // ---- graphs ----

  function OneIf(h: Word): seq<Word> {
    if h == 0 then [] else [h]
  }

  /** The tests that c refers to, in the order in which the writer visits them. */
  function Refs(c: Context): seq<Word> {
    OneIf(c.tmpl) + c.ors + OneIf(c.linked)
  }

  /** Every test can be written, and only refers to tests of the graph with a lower rank. */
  ghost predicate ValidGraph(g: Graph, rank: map<Word, nat>) {
    && (forall h :: h in g ==> Writable(h, g[h]) && h in rank)
    && (forall h, i :: h in g && 0 <= i < |Refs(g[h])| ==> Refs(g[h])[i] in g && rank[Refs(g[h])[i]] < rank[h])
  }

  ghost predicate Acyclic(g: Graph) {
    exists rank: map<Word, nat> :: ValidGraph(g, rank)
  }

  predicate NoRepeats(order: seq<Word>) {
    forall i, j :: 0 <= i < j < |order| ==> order[i] != order[j]
  }

  ghost predicate RefsIn(c: Context, order: seq<Word>) {
    forall i :: 0 <= i < |Refs(c)| ==> Refs(c)[i] in order
  }

  /** Tests of the graph, each once and after all it refers to. */
  ghost predicate Ordered(g: Graph, order: seq<Word>) {
    && NoRepeats(order)
    && Encodable(g, order)
    && (forall i {:trigger RefsIn(g[order[i]], order[..i])} :: 0 <= i < |order| ==> RefsIn(g[order[i]], order[..i]))
  }

  predicate Encodable(g: Graph, order: seq<Word>) {
    forall i :: 0 <= i < |order| ==> order[i] in g && Writable(order[i], g[order[i]])
  }

  /** The records of the tests from position k on. */
  function EncodeFrom(g: Graph, order: seq<Word>, k: nat): seq<Word>
    requires Encodable(g, order) && k <= |order|
    decreases |order| - k
  {
    if k == |order| then [] else Encode(order[k], g[order[k]]) + EncodeFrom(g, order, k + 1)
  }

  lemma {:induction false} EncodeOneMore(g: Graph, order: seq<Word>, h: Word, k: nat)
    requires Encodable(g, order) && h in g && Writable(h, g[h]) && k <= |order|
    ensures EncodeFrom(g, order + [h], k) == EncodeFrom(g, order, k) + Encode(h, g[h])
    decreases |order| - k
  {
    var longer := order + [h];
    if k < |order| {
      EncodeOneMore(g, order, h, k + 1);
      assert longer[k] == order[k];
      var record := Encode(order[k], g[order[k]]);
      assert record + (EncodeFrom(g, order, k + 1) + Encode(h, g[h])) ==
          record + EncodeFrom(g, order, k + 1) + Encode(h, g[h]);
    } else {
      assert EncodeFrom(g, longer, k + 1) == [];
    }
  }

  lemma OrderedOneMore(g: Graph, order: seq<Word>, h: Word)
    requires Ordered(g, order) && h !in order && h in g && Writable(h, g[h]) && RefsIn(g[h], order)
    ensures Ordered(g, order + [h])
  {
    var longer := order + [h];
    forall i | 0 <= i < |longer| ensures RefsIn(g[longer[i]], longer[..i]) {
      assert longer[..i] == order[..i];
      if i == |order| {
        assert order[..i] == order;
      } else {
        assert RefsIn(g[order[i]], order[..i]);
      }
    }
  }

  // ---- the order of writing ----

  /** What has been written after the test h: what it refers to first, in that order, and then h, unless it is there. */
  ghost function Written(g: Graph, rank: map<Word, nat>, h: Word, done: seq<Word>): seq<Word>
    requires ValidGraph(g, rank) && h in g
    decreases rank[h], 1, 0
  {
    if h in done then done else WrittenRefs(g, rank, h, |Refs(g[h])|, done) + [h]
  }

  /** ... after the first n tests that h refers to. */
  ghost function WrittenRefs(g: Graph, rank: map<Word, nat>, h: Word, n: nat, done: seq<Word>): seq<Word>
    requires ValidGraph(g, rank) && h in g && n <= |Refs(g[h])|
    decreases rank[h], 0, n
  {
    if n == 0 then done else Written(g, rank, Refs(g[h])[n - 1], WrittenRefs(g, rank, h, n - 1, done))
  }

  /** ... after the first n of the grammar's tests. */
  ghost function WrittenAll(g: Graph, rank: map<Word, nat>, keys: seq<Word>, n: nat): seq<Word>
    requires ValidGraph(g, rank) && n <= |keys| && forall i :: 0 <= i < |keys| ==> keys[i] in g
    decreases n
  {
    if n == 0 then [] else Written(g, rank, keys[n - 1], WrittenAll(g, rank, keys, n - 1))
  }

  /** It has what was there before, and the test. */
  lemma {:induction false} WrittenHas(g: Graph, rank: map<Word, nat>, h: Word, done: seq<Word>)
    requires ValidGraph(g, rank) && h in g
    ensures done <= Written(g, rank, h, done) && h in Written(g, rank, h, done)
    decreases rank[h], 1, 0
  {
    if h !in done {
      WrittenRefsHave(g, rank, h, |Refs(g[h])|, done);
    }
  }

  lemma {:induction false} WrittenRefsHave(g: Graph, rank: map<Word, nat>, h: Word, n: nat, done: seq<Word>)
    requires ValidGraph(g, rank) && h in g && n <= |Refs(g[h])|
    ensures done <= WrittenRefs(g, rank, h, n, done)
    ensures forall j :: 0 <= j < n ==> Refs(g[h])[j] in WrittenRefs(g, rank, h, n, done)
    decreases rank[h], 0, n
  {
    if n > 0 {
      WrittenRefsHave(g, rank, h, n - 1, done);
      WrittenHas(g, rank, Refs(g[h])[n - 1], WrittenRefs(g, rank, h, n - 1, done));
    }
  }

  lemma {:induction false} WrittenAllHas(g: Graph, rank: map<Word, nat>, keys: seq<Word>, n: nat)
    requires ValidGraph(g, rank) && n <= |keys| && forall i :: 0 <= i < |keys| ==> keys[i] in g
    ensures forall j :: 0 <= j < n ==> keys[j] in WrittenAll(g, rank, keys, n)
    decreases n
  {
    if n > 0 {
      WrittenAllHas(g, rank, keys, n - 1);
      WrittenHas(g, rank, keys[n - 1], WrittenAll(g, rank, keys, n - 1));
    }
  }

  /** x is reference number n of the test. */
  predicate RefIs(c: Context, n: nat, x: Word) {
    n < |Refs(c)| && Refs(c)[n] == x
  }

  lemma RefsAre(c: Context)
    ensures var first := |OneIf(c.tmpl)|;
            && (if c.tmpl == 0 then first == 0 else first == 1 && RefIs(c, 0, c.tmpl))
            && (forall i :: 0 <= i < |c.ors| ==> RefIs(c, first + i, c.ors[i]))
            && (if c.linked == 0 then |Refs(c)| == first + |c.ors|
                else |Refs(c)| == first + |c.ors| + 1 && RefIs(c, first + |c.ors|, c.linked))
  {
  }

  lemma OrIsRef(c: Context, i: nat)
    requires i < |c.ors|
    ensures RefIs(c, |OneIf(c.tmpl)| + i, c.ors[i])
  {
    RefsAre(c);
  }

  /** A test that refers to nothing. */
  ghost predicate IsLeaf(g: Graph, h: Word) {
    h in g && g[h].tmpl == 0 && g[h].ors == [] && g[h].linked == 0
  }

  /** A test of all kinds of references, to tests that have none: the template, the alternatives and the linked test. */
  lemma OneOfEach(g: Graph, rank: map<Word, nat>, h: Word, t: Word, a: Word, b: Word, l: Word)
    requires ValidGraph(g, rank) && h in g && g[h].tmpl == t && g[h].ors == [a, b] && g[h].linked == l
    requires IsLeaf(g, t) && IsLeaf(g, a) && IsLeaf(g, b) && IsLeaf(g, l) && NoRepeats([t, a, b, l, h])
    ensures Written(g, rank, h, []) == [t, a, b, l, h]
  {
    var all := [t, a, b, l, h];
    assert all[0] == t && all[1] == a && all[2] == b && all[3] == l && all[4] == h;
    assert Refs(g[h]) == [t, a, b, l];
    Leaf(g, rank, t, []);
    Leaf(g, rank, a, [t]);
    Leaf(g, rank, b, [t, a]);
    Leaf(g, rank, l, [t, a, b]);
    assert WrittenRefs(g, rank, h, 1, []) == [t];
    assert WrittenRefs(g, rank, h, 2, []) == [t, a];
    assert WrittenRefs(g, rank, h, 3, []) == [t, a, b];
    assert WrittenRefs(g, rank, h, 4, []) == [t, a, b, l];
  }

  lemma Leaf(g: Graph, rank: map<Word, nat>, h: Word, done: seq<Word>)
    requires ValidGraph(g, rank) && IsLeaf(g, h) && h !in done
    ensures Written(g, rank, h, done) == done + [h]
  {
    assert Refs(g[h]) == [];
  }

  // ---- the writer ----

  ghost predicate SeenIs(seen: set<Word>, emitted: seq<Word>, visiting: set<Word>) {
    && (forall h :: h in seen <==> h in emitted || h in visiting)
    && (forall h :: h in visiting ==> h !in emitted)
  }

  lemma SeenOneMore(seen: set<Word>, emitted: seq<Word>, visiting: set<Word>, h: Word)
    requires SeenIs(seen, emitted, visiting + {h}) && h !in visiting
    ensures SeenIs(seen, emitted + [h], visiting)
    ensures h !in emitted
  {
    assert h in visiting + {h};
    assert forall k :: k in emitted + [h] <==> k in emitted || k == h;
  }

  lemma EmitKeeps(g: Graph, emitted: seq<Word>, start: seq<Word>, seen: set<Word>, visiting: set<Word>, h: Word)
    requires h in g && Writable(h, g[h]) && h !in visiting
    requires Ordered(g, emitted) && RefsIn(g[h], emitted) && SeenIs(seen, emitted, visiting + {h})
    ensures Ordered(g, emitted + [h]) && SeenIs(seen, emitted + [h], visiting)
    ensures start + EncodeFrom(g, emitted, 0) + Encode(h, g[h]) == start + EncodeFrom(g, emitted + [h], 0)
  {
    SeenOneMore(seen, emitted, visiting, h);
    OrderedOneMore(g, emitted, h);
    EncodeOneMore(g, emitted, h, 0);
    var records, record := EncodeFrom(g, emitted, 0), Encode(h, g[h]);
    assert start + records + record == start + (records + record);
  }

  class GraphWriter {
    const g: Graph
    /** seen_uint32 */
    var seen: set<Word>
    var output: seq<Word>
    ghost var emitted: seq<Word>

    constructor (g: Graph)
      ensures this.g == g && seen == {} && output == [] && emitted == []
    {
      this.g := g;
      seen, output, emitted := {}, [], [];
    }

    /** What has been written is an ordered list of records; what is seen but not written is being visited. */
    ghost predicate Writing(start: seq<Word>, visiting: set<Word>)
      reads this
    {
      Ordered(g, emitted) && output == start + EncodeFrom(g, emitted, 0) && SeenIs(seen, emitted, visiting)
    }

    /** writeContextualTest */
    method WriteContextualTest(h: Word, ghost rank: map<Word, nat>, ghost start: seq<Word>, ghost visiting: set<Word>)
      requires ValidGraph(g, rank) && h in g && Writing(start, visiting)
      requires forall v :: v in visiting ==> v in rank && rank[h] < rank[v]
      modifies this
      ensures Writing(start, visiting) && emitted == Written(g, rank, h, old(emitted))
      decreases rank[h], 1
    {
      if h in seen {
        return;
      }
      seen := seen + {h};
      WriteRefs(h, rank, start, visiting + {h});
      WrittenRefsHave(g, rank, h, |Refs(g[h])|, old(emitted));
      Emit(h, start, visiting);
    }

    method Emit(h: Word, ghost start: seq<Word>, ghost visiting: set<Word>)
      requires h in g && Writable(h, g[h]) && Writing(start, visiting + {h}) && h !in visiting && RefsIn(g[h], emitted)
      modifies this`output, this`emitted
      ensures Writing(start, visiting) && emitted == old(emitted) + [h]
    {
      EmitKeeps(g, emitted, start, seen, visiting, h);
      output := output + Encode(h, g[h]);
      emitted := emitted + [h];
    }

    /** The template, the alternatives and the linked test of h, in this order. */
    method WriteRefs(h: Word, ghost rank: map<Word, nat>, ghost start: seq<Word>, ghost visiting: set<Word>)
      requires ValidGraph(g, rank) && h in g && Writing(start, visiting)
      requires h in visiting
      requires forall v :: v in visiting ==> v in rank && rank[h] <= rank[v]
      modifies this
      ensures RefsWritten(h, |Refs(g[h])|, old(emitted), rank, start, visiting)
      decreases rank[h], 0, 2
    {
      var c := g[h];
      ghost var done := emitted;
      ghost var first := |OneIf(c.tmpl)|;
      RefsAre(c);
      if c.tmpl != 0 {
        WriteRef(h, c.tmpl, 0, done, rank, start, visiting);
      }
      WriteOrs(h, done, rank, start, visiting);
      if c.linked != 0 {
        WriteRef(h, c.linked, first + |c.ors|, done, rank, start, visiting);
      }
    }

    /** The first n references of h have been written. */
    ghost predicate RefsWritten(h: Word, n: nat, done: seq<Word>, rank: map<Word, nat>, start: seq<Word>,
                                visiting: set<Word>)
      requires ValidGraph(g, rank) && h in g
      reads this
    {
      n <= |Refs(g[h])| && Writing(start, visiting) && emitted == WrittenRefs(g, rank, h, n, done)
    }

    method WriteOrs(h: Word, ghost done: seq<Word>, ghost rank: map<Word, nat>, ghost start: seq<Word>,
                    ghost visiting: set<Word>)
      requires ValidGraph(g, rank) && h in g
      requires RefsWritten(h, |OneIf(g[h].tmpl)|, done, rank, start, visiting)
      requires forall v :: v in visiting ==> v in rank && rank[h] <= rank[v]
      modifies this
      ensures RefsWritten(h, |OneIf(g[h].tmpl)| + |g[h].ors|, done, rank, start, visiting)
      decreases rank[h], 0, 1
    {
      var ors := g[h].ors;
      ghost var first := |OneIf(g[h].tmpl)|;
      for i := 0 to |ors|
        invariant RefsWritten(h, first + i, done, rank, start, visiting)
      {
        OrIsRef(g[h], i);
        WriteRef(h, ors[i], first + i, done, rank, start, visiting);
      }
    }

    method WriteRef(h: Word, x: Word, ghost n: nat, ghost done: seq<Word>, ghost rank: map<Word, nat>,
                    ghost start: seq<Word>, ghost visiting: set<Word>)
      requires ValidGraph(g, rank) && h in g && RefsWritten(h, n, done, rank, start, visiting)
      requires RefIs(g[h], n, x)
      requires forall v :: v in visiting ==> v in rank && rank[h] <= rank[v]
      modifies this
      ensures RefsWritten(h, n + 1, done, rank, start, visiting)
      decreases rank[h], 0, 0
    {
      WriteContextualTest(x, rank, start, visiting);
    }

    /** The loop over all tests, keys being the order in which the grammar's map has them. */
    method WriteContexts(keys: seq<Word>, ghost rank: map<Word, nat>)
      requires ValidGraph(g, rank) && |g| < WIDTH && Lists(keys, g)
      requires seen == {} && output == [] && emitted == []
      modifies this
      ensures Ordered(g, emitted) && Lists(emitted, g) && emitted == WrittenAll(g, rank, keys, |keys|)
      ensures output == (if |g| == 0 then [] else [|g|]) + EncodeFrom(g, emitted, 0)
    {
      if |g| != 0 {
        output := output + [|g|];
      }
      WriteAll(keys, rank, output);
      AllListed(g, rank, keys, emitted);
    }

    method WriteAll(keys: seq<Word>, ghost rank: map<Word, nat>, ghost start: seq<Word>)
      requires ValidGraph(g, rank) && Writing(start, {}) && forall j :: 0 <= j < |keys| ==> keys[j] in g
      requires emitted == []
      modifies this
      ensures KeysWritten(keys, |keys|, rank, start)
    {
      for i := 0 to |keys|
        invariant KeysWritten(keys, i, rank, start)
      {
        WriteKey(keys, i, rank, start);
      }
    }

    /** The first n keys have been written. */
    ghost predicate KeysWritten(keys: seq<Word>, n: nat, rank: map<Word, nat>, start: seq<Word>)
      requires ValidGraph(g, rank) && forall j :: 0 <= j < |keys| ==> keys[j] in g
      reads this
    {
      n <= |keys| && Writing(start, {}) && emitted == WrittenAll(g, rank, keys, n)
    }

    method WriteKey(keys: seq<Word>, i: nat, ghost rank: map<Word, nat>, ghost start: seq<Word>)
      requires ValidGraph(g, rank) && forall j :: 0 <= j < |keys| ==> keys[j] in g
      requires i < |keys| && KeysWritten(keys, i, rank, start)
      modifies this
      ensures KeysWritten(keys, i + 1, rank, start)
    {
      WriteContextualTest(keys[i], rank, start, {});
    }
  }

  lemma AllListed(g: Graph, rank: map<Word, nat>, keys: seq<Word>, order: seq<Word>)
    requires ValidGraph(g, rank) && Lists(keys, g) && Ordered(g, order) && order == WrittenAll(g, rank, keys, |keys|)
    ensures Lists(order, g)
  {
    WrittenAllHas(g, rank, keys, |keys|);
    forall h | h in g ensures h in order {
      var i :| 0 <= i < |keys| && keys[i] == h;
    }
  }

  /** order lists the tests of the graph, each once. */
  ghost predicate Lists(order: seq<Word>, g: Graph) {
    NoRepeats(order) && (forall h :: h in g ==> h in order) && (forall i :: 0 <= i < |order| ==> order[i] in g)
  }

  lemma {:induction false} ListedSize(order: seq<Word>, g: Graph)
    requires Lists(order, g)
    ensures |order| == |g|
    decreases |order|
  {
    if order == [] {
      assert g.Keys == {};
    } else {
      var h, rest := order[0], g - {order[0]};
      forall k | k in rest ensures k in order[1..] {
        var i :| 0 <= i < |order| && order[i] == k;
        assert order[1..][i - 1] == k;
      }
      ListedSize(order[1..], rest);
      assert rest.Keys == g.Keys - {h};
    }
  }

  // ---- the reader ----

  /** The tests read so far, with templates and alternatives still to be bound. */
  datatype Loader = Loader(contexts: Graph, tmpls: map<Word, Word>, ors: map<Word, seq<Word>>)

  /** A linked test is looked up at once, and is lost if it is not there yet. */
  function Unbound(c: Context, contexts: Graph): Context {
    c.(tmpl := 0, ors := [], linked := if c.linked in contexts then c.linked else 0)
  }

  function Store(l: Loader, h: Word, c: Context): Loader {
    Loader(l.contexts[h := Unbound(c, l.contexts)],
           if c.tmpl != 0 then l.tmpls[h := c.tmpl] else l.tmpls - {h},
           if c.ors != [] then l.ors[h := c.ors] else l.ors - {h})
  }

  type Decoder = seq<Word> -> Read<(Word, Context)>

  const DECODE: Decoder := s => Decode(s)

  /** n records are read and stored. */
  function LoadAll(decode: Decoder, n: nat, s: seq<Word>, l: Loader): Read<Loader>
    decreases n
  {
    if n == 0 then Got(l, s)
    else
      match decode(s)
      case EndOfFile => EndOfFile
      case Got((h, c), rest) => LoadAll(decode, n - 1, rest, Store(l, h, c))
  }

  /** The templates and alternatives that are referred to exist. */
  predicate Bindable(l: Loader) {
    && (forall h :: h in l.tmpls ==> h in l.contexts && l.tmpls[h] in l.contexts)
    && (forall h, i :: h in l.ors && 0 <= i < |l.ors[h]| ==> h in l.contexts && l.ors[h][i] in l.contexts)
  }

  function Bound(l: Loader): Graph {
    map h | h in l.contexts ::
      l.contexts[h].(tmpl := if h in l.tmpls then l.tmpls[h] else 0, ors := if h in l.ors then l.ors[h] else [])
  }

  /** Loaded with the tests in done. */
  ghost predicate LoadedIs(g: Graph, done: set<Word>, l: Loader) {
    && done <= g.Keys && l.contexts.Keys == done
    && (forall h :: h in done ==> l.contexts[h] == g[h].(tmpl := 0, ors := []))
    && (forall h :: h in l.tmpls <==> h in done && g[h].tmpl != 0)
    && (forall h :: h in l.tmpls ==> l.tmpls[h] == g[h].tmpl)
    && (forall h :: h in l.ors <==> h in done && g[h].ors != [])
    && (forall h :: h in l.ors ==> l.ors[h] == g[h].ors)
  }

  lemma StoreStep(g: Graph, done: set<Word>, h: Word, l: Loader)
    requires LoadedIs(g, done, l) && h in g && h !in done && 0 !in g
    requires g[h].linked != 0 ==> g[h].linked in done
    ensures LoadedIs(g, done + {h}, Store(l, h, g[h]))
  {
  }

  lemma LinkedIsThere(c: Context, order: seq<Word>)
    requires RefsIn(c, order)
    ensures c.tmpl != 0 ==> c.tmpl in order
    ensures c.linked != 0 ==> c.linked in order
    ensures forall i :: 0 <= i < |c.ors| ==> c.ors[i] in order
  {
    var refs := Refs(c);
    var n := |OneIf(c.tmpl)|;
    if c.tmpl != 0 { assert refs[0] == c.tmpl; }
    if c.linked != 0 { assert refs[n + |c.ors|] == c.linked; }
    forall i | 0 <= i < |c.ors| ensures c.ors[i] in order { assert refs[n + i] == c.ors[i]; }
  }

  /** decode reads back any record. */
  ghost predicate ReadsBack(decode: Decoder) {
    forall h, c, rest :: Writable(h, c) ==> decode(Encode(h, c) + rest) == Got((h, c), rest)
  }

  lemma DecodeReadsBack()
    ensures ReadsBack(DECODE)
  {
    forall h, c, rest | Writable(h, c) ensures Decode(Encode(h, c) + rest) == Got((h, c), rest) {
      RecordRoundTrip(h, c, rest);
    }
  }

  /** A linked test is found if it comes earlier in the file, and lost if it comes later. */
  lemma LinksAreLookedUp(h: Word, c: Context, k: Word, d: Context, rest: seq<Word>, l: Loader)
    requires Writable(h, c) && Writable(k, d) && h != k && c.linked == k && k !in l.contexts
    ensures var late := LoadAll(DECODE, 2, Encode(h, c) + (Encode(k, d) + rest), l);
            late.Got? && late.rest == rest && h in late.value.contexts && late.value.contexts[h].linked == 0
    ensures var early := LoadAll(DECODE, 2, Encode(k, d) + (Encode(h, c) + rest), l);
            early.Got? && early.rest == rest && h in early.value.contexts && early.value.contexts[h].linked == k
  {
    TwoRecords(h, c, k, d, rest, l);
    TwoRecords(k, d, h, c, rest, l);
  }

  lemma TwoRecords(h: Word, c: Context, k: Word, d: Context, rest: seq<Word>, l: Loader)
    requires Writable(h, c) && Writable(k, d)
    ensures LoadAll(DECODE, 2, Encode(h, c) + (Encode(k, d) + rest), l) == Got(Store(Store(l, h, c), k, d), rest)
  {
    DecodeReadsBack();
    var more := Encode(k, d) + rest;
    assert DECODE(Encode(h, c) + more) == Got((h, c), more) && DECODE(more) == Got((k, d), rest);
    assert LoadAll(DECODE, 1, more, Store(l, h, c)) == LoadAll(DECODE, 0, rest, Store(Store(l, h, c), k, d));
  }

  /** The reader's state after the first k tests. */
  function State(g: Graph, order: seq<Word>, k: nat): Loader
    requires Encodable(g, order) && k <= |order|
  {
    if k == 0 then NOTHING else Store(State(g, order, k - 1), order[k - 1], g[order[k - 1]])
  }

  /** The first k tests. */
  function Done(order: seq<Word>, k: nat): set<Word>
    requires k <= |order|
  {
    if k == 0 then {} else Done(order, k - 1) + {order[k - 1]}
  }

  lemma {:induction false} DoneAre(order: seq<Word>, k: nat, h: Word)
    requires k <= |order|
    ensures h in Done(order, k) <==> h in order[..k]
    decreases k
  {
    if k > 0 {
      DoneAre(order, k - 1, h);
      assert order[..k] == order[..k - 1] + [order[k - 1]];
    }
  }

  lemma NextIsNew(g: Graph, order: seq<Word>, k: nat)
    requires Ordered(g, order) && k < |order|
    ensures var h := order[k];
            && h in g && h !in Done(order, k)
            && (g[h].linked != 0 ==> g[h].linked in Done(order, k))
  {
    var h := order[k];
    assert RefsIn(g[h], order[..k]);
    LinkedIsThere(g[h], order[..k]);
    DoneAre(order, k, h);
    DoneAre(order, k, g[h].linked);
  }

  lemma {:induction false} StateIs(g: Graph, order: seq<Word>, k: nat)
    requires Ordered(g, order) && 0 !in g && k <= |order|
    ensures LoadedIs(g, Done(order, k), State(g, order, k))
    decreases k
  {
    if k > 0 {
      StateIs(g, order, k - 1);
      NextIsNew(g, order, k - 1);
      StoreStep(g, Done(order, k - 1), order[k - 1], State(g, order, k - 1));
    }
  }

  /** Loading what is left of the file, with n tests to go. */
  lemma {:induction false} LoadAllIs(decode: Decoder, g: Graph, order: seq<Word>, k: nat, n: nat, rest: seq<Word>)
    requires ReadsBack(decode) && Encodable(g, order) && k + n == |order|
    ensures LoadAll(decode, n, EncodeFrom(g, order, k) + rest, State(g, order, k)) ==
            Got(State(g, order, |order|), rest)
    decreases n
  {
    var s := EncodeFrom(g, order, k) + rest;
    if n == 0 {
      assert s == rest;
    } else {
      var h, more := order[k], EncodeFrom(g, order, k + 1) + rest;
      assert s == Encode(h, g[h]) + more;
      LoadAllIs(decode, g, order, k + 1, n - 1, rest);
    }
  }

  lemma BoundIs(g: Graph, l: Loader)
    requires LoadedIs(g, g.Keys, l)
    requires forall h :: h in g ==> RefsExist(g, h)
    ensures Bindable(l) && Bound(l) == g
  {
    forall h | h in g ensures h in Bound(l) && Bound(l)[h] == g[h] {
      assert RefsExist(g, h);
    }
    forall h, i | h in l.ors && 0 <= i < |l.ors[h]| ensures h in l.contexts && l.ors[h][i] in l.contexts {
      assert RefsExist(g, h);
    }
  }

  ghost predicate RefsExist(g: Graph, h: Word)
    requires h in g
  {
    && (g[h].tmpl != 0 ==> g[h].tmpl in g)
    && (forall i :: 0 <= i < |g[h].ors| ==> g[h].ors[i] in g)
  }

  lemma AllRefsExist(g: Graph, order: seq<Word>, h: Word)
    requires Ordered(g, order) && Lists(order, g) && h in g
    ensures RefsExist(g, h)
  {
    var i :| 0 <= i < |order| && order[i] == h;
    assert RefsIn(g[order[i]], order[..i]);
    LinkedIsThere(g[h], order[..i]);
    assert forall k :: k in order[..i] ==> k in order;
  }

  lemma AllDone(g: Graph, order: seq<Word>)
    requires Lists(order, g)
    ensures Done(order, |order|) == g.Keys
  {
    assert order[..|order|] == order;
    forall h ensures h in Done(order, |order|) <==> h in g {
      DoneAre(order, |order|, h);
    }
  }

  const NOTHING := Loader(map[], map[], map[])

  /**
   The graph comes back from the file, whatever the order in which the grammar's map had the tests:
   all linked tests are there when they are looked up, and everything that is deferred can be bound.
   */
  lemma GraphRoundTrip(g: Graph, order: seq<Word>, rest: seq<Word>)
    requires Ordered(g, order) && Lists(order, g) && 0 !in g
    ensures var r := LoadAll(DECODE, |g|, EncodeFrom(g, order, 0) + rest, NOTHING);
            r.Got? && r.rest == rest && Bindable(r.value) && Bound(r.value) == g
  {
    ListedSize(order, g);
    DecodeReadsBack();
    LoadAllIs(DECODE, g, order, 0, |order|, rest);
    StateIs(g, order, |order|);
    AllDone(g, order);
    forall h | h in g ensures RefsExist(g, h) { AllRefsExist(g, order, h); }
    BoundIs(g, State(g, order, |order|));
  }

  // ---- the reader at work ----

  class GraphReader {
    const input: Input
    var contexts: Graph
    /** deferred_tmpls and deferred_ors */
    var tmpls: map<Word, Word>
    var ors: map<Word, seq<Word>>

    constructor (input: Input)
      ensures this.input == input && Loaded() == NOTHING
    {
      this.input := input;
      contexts, tmpls, ors := map[], map[], map[];
    }

    function Loaded(): Loader
      reads this
    {
      Loader(contexts, tmpls, ors)
    }

    method ReadPos(present: bool) returns (ok: bool, pos: Pos)
      modifies input
      ensures GetPos(present, old(input.words)) == if ok then Got(pos, input.words) else EndOfFile
    {
      if !present {
        return true, 0;
      }
      var low, high;
      ok, low := input.ReadWord();
      pos := low;
      if ok && Has64(low) {
        ok, high := input.ReadWord();
        pos := low + high * WIDTH;
      }
    }

    method ReadOrs(present: bool) returns (ok: bool, ors: seq<Word>)
      modifies input
      ensures GetOrs(present, old(input.words)) == if ok then Got(ors, input.words) else EndOfFile
    {
      if !present {
        return true, [];
      }
      var n;
      ok, n := input.ReadWord();
      if !ok {
        return false, [];
      }
      ok, ors := input.ReadWords(n);
    }

    method ReadRecord() returns (ok: bool, h: Word, c: Context)
      modifies input
      ensures Decode(old(input.words)) == if ok then Got((h, c), input.words) else EndOfFile
    {
      h, c := 0, Context(0, 0, 0, 0, 0, 0, 0, 0, 0, [], 0);
      var mask, first, pos, m, alternatives, linked;
      ok, mask := input.ReadWord();
      if !ok {
        return;
      }
      ok, first := input.ReadFields(mask, 0, 1);
      if !ok {
        return;
      }
      ok, pos := ReadPos(HasBit(mask, 1));
      if !ok {
        return;
      }
      ok, m := input.ReadFields(mask, 2, 8);
      if !ok {
        return;
      }
      ok, alternatives := ReadOrs(HasBit(mask, 10));
      if !ok {
        return;
      }
      ok, linked := input.ReadFields(mask, 11, 1);
      if !ok {
        return;
      }
      h, c := first[0], Assembled(pos, m, alternatives, linked[0]);
    }

    /** readContextualTest, and the test's entry in the grammar. */
    method ReadContextualTest() returns (ok: bool)
      modifies this, input
      ensures LoadAll(DECODE, 1, old(input.words), old(Loaded())) ==
              if ok then Got(Loaded(), input.words) else EndOfFile
    {
      var h, c;
      ok, h, c := ReadRecord();
      if !ok {
        return;
      }
      if c.tmpl != 0 {
        tmpls := tmpls[h := c.tmpl];
      } else {
        tmpls := tmpls - {h};
      }
      if c.ors != [] {
        ors := ors[h := c.ors];
      } else {
        ors := ors - {h};
      }
      contexts := contexts[h := Unbound(c, contexts)];
    }

    method ReadContexts(n: nat) returns (ok: bool)
      modifies this, input
      ensures LoadAll(DECODE, n, old(input.words), old(Loaded())) ==
              if ok then Got(Loaded(), input.words) else EndOfFile
    {
      ok := true;
      ghost var all := LoadAll(DECODE, n, input.words, Loaded());
      var left := n;
      while left > 0
        invariant all == LoadAll(DECODE, left, input.words, Loaded())
      {
        ok := ReadNext(left, all);
        if !ok {
          return;
        }
        left := left - 1;
      }
    }

    method ReadNext(ghost n: nat, ghost all: Read<Loader>) returns (ok: bool)
      requires 0 < n && all == LoadAll(DECODE, n, input.words, Loaded())
      modifies this, input
      ensures all == if ok then LoadAll(DECODE, n - 1, input.words, Loaded()) else EndOfFile
    {
      ok := ReadContextualTest();
    }
  }

  /** Nothing is bound yet, and only tests that are there wait for it. */
  predicate Waiting(l: Loader) {
    && (forall h :: h in l.contexts ==> l.contexts[h].tmpl == 0 && l.contexts[h].ors == [])
    && l.tmpls.Keys <= l.contexts.Keys && l.ors.Keys <= l.contexts.Keys
  }

  lemma {:induction false} LoadedWaits(decode: Decoder, n: nat, s: seq<Word>, l: Loader)
    requires Waiting(l)
    ensures var r := LoadAll(decode, n, s, l); r.Got? ==> Waiting(r.value)
    decreases n
  {
    if n > 0 && decode(s).Got? {
      var (h, c) := decode(s).value;
      LoadedWaits(decode, n - 1, decode(s).rest, Store(l, h, c));
    }
  }

  /** The templates but for todo are bound. */
  ghost predicate TmplsBound(l: Loader, todo: set<Word>, contexts: Graph) {
    && contexts.Keys == l.contexts.Keys
    && forall h :: h in contexts ==>
         contexts[h] == l.contexts[h].(tmpl := if h in l.tmpls && h !in todo then l.tmpls[h] else l.contexts[h].tmpl)
  }

  lemma TmplsStep(l: Loader, todo: set<Word>, contexts: Graph, h: Word)
    requires TmplsBound(l, todo, contexts) && h in todo && h in l.tmpls && h in contexts
    ensures TmplsBound(l, todo - {h}, contexts[h := contexts[h].(tmpl := l.tmpls[h])])
  {
  }

  /** The loop that binds templates. */
  method BindTmpls(l: Loader) returns (ok: bool, contexts: Graph)
    requires l.tmpls.Keys <= l.contexts.Keys
    ensures ok <==> forall h :: h in l.tmpls ==> l.tmpls[h] in l.contexts
    ensures ok ==> TmplsBound(l, {}, contexts)
  {
    contexts := l.contexts;
    var todo := l.tmpls.Keys;
    while todo != {}
      invariant todo <= l.tmpls.Keys && TmplsBound(l, todo, contexts)
      invariant forall h :: h in l.tmpls && h !in todo ==> l.tmpls[h] in l.contexts
      decreases todo
    {
      var h :| h in todo;
      if l.tmpls[h] !in contexts {
        return false, contexts;
      }
      TmplsStep(l, todo, contexts, h);
      contexts := contexts[h := contexts[h].(tmpl := l.tmpls[h])];
      todo := todo - {h};
    }
    ok := true;
  }

  /** The alternatives but for todo are bound. */
  ghost predicate OrsBound(l: Loader, todo: set<Word>, contexts: Graph) {
    && contexts.Keys == l.contexts.Keys
    && forall h :: h in contexts ==>
         contexts[h] == l.contexts[h].(ors := if h in l.ors && h !in todo then l.ors[h] else l.contexts[h].ors)
  }

  predicate AllIn(hs: seq<Word>, contexts: Graph) {
    forall i :: 0 <= i < |hs| ==> hs[i] in contexts
  }

  /** The loop that binds alternatives, in their order. */
  method BindOrs(l: Loader) returns (ok: bool, contexts: Graph)
    requires l.ors.Keys <= l.contexts.Keys
    ensures ok <==> forall h :: h in l.ors ==> AllIn(l.ors[h], l.contexts)
    ensures ok ==> OrsBound(l, {}, contexts)
  {
    contexts := l.contexts;
    var todo := l.ors.Keys;
    while todo != {}
      invariant todo <= l.ors.Keys && OrsBound(l, todo, contexts)
      invariant forall h :: h in l.ors && h !in todo ==> AllIn(l.ors[h], l.contexts)
      decreases todo
    {
      var h :| h in todo;
      var found, bound := FindAll(l.ors[h], contexts);
      if !found {
        return false, contexts;
      }
      contexts := contexts[h := contexts[h].(ors := bound)];
      todo := todo - {h};
    }
    ok := true;
  }

  method FindAll(hs: seq<Word>, contexts: Graph) returns (ok: bool, found: seq<Word>)
    ensures ok <==> AllIn(hs, contexts)
    ensures ok ==> found == hs
  {
    found := [];
    for i := 0 to |hs|
      invariant found == hs[..i] && forall j :: 0 <= j < i ==> hs[j] in contexts
    {
      if hs[i] !in contexts {
        return false, found;
      }
      found := found + [hs[i]];
    }
    ok := true;
  }

  /** Templates first, then alternatives. The reader has no answer to a reference to nothing. */
  method Bind(l: Loader) returns (ok: bool, contexts: Graph)
    requires Waiting(l)
    ensures ok <==> && (forall h :: h in l.tmpls ==> l.tmpls[h] in l.contexts)
                    && forall h, i :: h in l.ors && 0 <= i < |l.ors[h]| ==> l.ors[h][i] in l.contexts
    ensures ok <==> Bindable(l)
    ensures ok ==> contexts == Bound(l)
  {
    ok, contexts := BindTmpls(l);
    if ok {
      var next := l.(contexts := contexts);
      ok, contexts := BindOrs(next);
      if ok { BoundInTurn(l, next, contexts); }
      assert forall h :: h in l.ors ==> (AllIn(l.ors[h], next.contexts) <==> AllIn(l.ors[h], l.contexts));
    }
  }

  lemma BoundInTurn(l: Loader, next: Loader, contexts: Graph)
    requires Waiting(l) && TmplsBound(l, {}, next.contexts) && next.ors == l.ors && OrsBound(next, {}, contexts)
    ensures contexts == Bound(l)
  {
    assert contexts.Keys == Bound(l).Keys;
    forall h | h in contexts ensures contexts[h] == Bound(l)[h] {
      assert l.contexts[h].tmpl == 0 && l.contexts[h].ors == [];
    }
  }

  lemma KeysAreNotZero(g: Graph)
    requires Acyclic(g)
    ensures 0 !in g
  {
    var rank: map<Word, nat> :| ValidGraph(g, rank);
    forall h | h in g ensures h != 0 {
      assert Writable(h, g[h]);
    }
  }

  /** Writing an acyclic graph and reading the file gives the graph, whatever order its map has the tests in. */
  method WriteAndRead(g: Graph, keys: seq<Word>) returns (copy: Graph)
    requires Acyclic(g) && |g| < WIDTH && Lists(keys, g)
    ensures copy == g
  {
    ghost var rank: map<Word, nat> :| ValidGraph(g, rank);
    var writer := new GraphWriter(g);
    writer.WriteContexts(keys, rank);
    KeysAreNotZero(g);
    var input := new Input(writer.output);
    var reader := new GraphReader(input);
    var count: nat := 0;
    if |g| != 0 {
      var there, n := input.ReadWord();
      count := n;
    }
    ghost var records := EncodeFrom(g, writer.emitted, 0);
    assert records + [] == records;
    GraphRoundTrip(g, writer.emitted, []);
    LoadedWaits(DECODE, count, input.words, NOTHING);
    var ok := reader.ReadContexts(count);
    ok, copy := Bind(reader.Loaded());
  }
}
