/** smtquery/storage/smt/plugins.py: the structural probe `ProbeSMTFiles`, which counts regular
    expression constraints, higher-order string functions, word equations and length
    constraints over a parsed script, and flattens the counts into one database row.  Parsing,
    the database table and the insert are not part of this model. */
module Plugins {
  import opened Smt2Expr
  import opened Lists

  /** One value of a tally: a counter, or a dictionary of counters.  The merge below works on
      dictionaries with keys of any type; the probe's own tallies have string keys. */
  datatype Entry<K> = Count(n: int) | Nested(m: map<K, int>)

  /** A tally: the probe's dictionary from names to counters or dictionaries of counters. */
  type Tally = map<string, Entry<string>>

  /** `ProbeSMTFiles.hofunc`: the operators counted one by one under "hof". */
  const ProbeFunctions: seq<string> := ["At", "str.substr", "PrefixOf", "SuffixOf", "Contains", "IndexOf", "Replace", "IntToStr", "StrToInt"]

  const HofNames: set<string> := set f | f in ProbeFunctions

  /** The keys of a tally that hold plain counters. */
  const CounterKeys: set<string> := {"weq", "length", "regex"}

  /** The keys of every tally `traverseAst` builds. */
  const TallyKeys: set<string> := {"variables", "weq", "length", "regex", "hof"}

  /** The columns of a row of `probed_data`. */
  const RowKeys: set<string> := {"instance_id"} + CounterKeys + HofNames

  // ---------------------------------------------------------------------------------------
  // Merging (_mergeData)
  // ---------------------------------------------------------------------------------------

  predicate SameShape<K(==)>(a: Entry<K>, b: Entry<K>)
  {
    a.Count? == b.Count?
  }

  /** `_mergeData` adds an integer to an integer and merges a dictionary into a dictionary; a
      key holding an integer on one side and a dictionary on the other makes it fail. */
  predicate Compatible<K(==)>(d1: map<K, Entry<K>>, d2: map<K, Entry<K>>)
  {
    forall k :: k in d1 && k in d2 ==> SameShape(d1[k], d2[k])
  }

  /** A counter of `d`, 0 when it has none under `k`. */
  function CountOf<K(==)>(d: map<K, Entry<K>>, k: K): int
  {
    if k in d && d[k].Count? then d[k].n else 0
  }

  /** A counter inside the dictionary `d[k]`, 0 when there is none. */
  function SubCountOf<K(==)>(d: map<K, Entry<K>>, k: K, kk: K): int
  {
    if k in d && d[k].Nested? && kk in d[k].m then d[k].m[kk] else 0
  }

  /** `_mergeData` on dictionaries of counters (the recursive call). */
  function MergedCounts<K(==)>(m1: map<K, int>, m2: map<K, int>): (r: map<K, int>)
    ensures r.Keys == m1.Keys + m2.Keys
    ensures forall k :: k in r ==> r[k] == (if k in m1 then m1[k] else 0) + (if k in m2 then m2[k] else 0)
  {
    map k | k in m1.Keys + m2.Keys :: if k in m1 && k in m2 then m1[k] + m2[k] else if k in m1 then m1[k] else m2[k]
  }

  function MergedEntry<K(==)>(a: Entry<K>, b: Entry<K>): Entry<K>
    requires SameShape(a, b)
  {
    match a
    case Count(n) => Count(n + b.n)
    case Nested(m) => Nested(MergedCounts(m, b.m))
  }

  /** `_mergeData(d1, d2)`: keys of both are merged, keys of `d2` alone are copied, keys of
      `d1` alone are kept. */
  function MergedData<K(==)>(d1: map<K, Entry<K>>, d2: map<K, Entry<K>>): (r: map<K, Entry<K>>)
    requires Compatible(d1, d2)
    ensures r.Keys == d1.Keys + d2.Keys
    ensures forall k :: k in d1 ==> SameShape(r[k], d1[k])
    ensures forall k :: k in d2 ==> SameShape(r[k], d2[k])
  {
    map k | k in d1.Keys + d2.Keys ::
      if k in d1 && k in d2 then MergedEntry(d1[k], d2[k]) else if k in d1 then d1[k] else d2[k]
  }

  /** The merged entry under one key. */
  lemma MergedAt<K>(d1: map<K, Entry<K>>, d2: map<K, Entry<K>>, k: K)
    requires Compatible(d1, d2) && (k in d1 || k in d2)
    ensures k in MergedData(d1, d2)
    ensures MergedData(d1, d2)[k] ==
              if k in d1 && k in d2 then MergedEntry(d1[k], d2[k]) else if k in d1 then d1[k] else d2[k]
  {
  }

  /** Merging adds: every counter, at either level, is the sum of the two counters (a missing
      one reading as 0); the keys are the union, and every entry keeps its shape. */
  lemma MergeAdds<K>(d1: map<K, Entry<K>>, d2: map<K, Entry<K>>)
    requires Compatible(d1, d2)
    ensures MergedData(d1, d2).Keys == d1.Keys + d2.Keys
    ensures forall k :: CountOf(MergedData(d1, d2), k) == CountOf(d1, k) + CountOf(d2, k)
    ensures forall k, kk :: SubCountOf(MergedData(d1, d2), k, kk) == SubCountOf(d1, k, kk) + SubCountOf(d2, k, kk)
    ensures forall k :: k in d1 ==> SameShape(MergedData(d1, d2)[k], d1[k])
    ensures forall k :: k in d2 ==> SameShape(MergedData(d1, d2)[k], d2[k])
    ensures forall k :: k in d1 && k in d2 && d1[k].Nested? ==>
              MergedData(d1, d2)[k].m.Keys == d1[k].m.Keys + d2[k].m.Keys
  {
    var r := MergedData(d1, d2);
    forall k, kk
      ensures SubCountOf(r, k, kk) == SubCountOf(d1, k, kk) + SubCountOf(d2, k, kk)
    {
      if k in d1 && k in d2 && d1[k].Nested? {
        assert r[k].m == MergedCounts(d1[k].m, d2[k].m);
      }
    }
  }

  /** The merged counter under one key. */
  lemma MergedCountsAt<K>(m1: map<K, int>, m2: map<K, int>, k: K)
    requires k in m1 || k in m2
    ensures k in MergedCounts(m1, m2)
    ensures MergedCounts(m1, m2)[k] == if k in m1 && k in m2 then m1[k] + m2[k] else if k in m1 then m1[k] else m2[k]
  {
  }

  /** `_mergeData` on dictionaries of counters, one key of the union at a time. */
  method MergeCounts<K(==)>(m1: map<K, int>, m2: map<K, int>) returns (r: map<K, int>)
    ensures r == MergedCounts(m1, m2)
  {
    r := m1;
    var todo := m1.Keys + m2.Keys;
    while todo != {}
      invariant todo <= m1.Keys + m2.Keys
      invariant forall k :: k in r <==> k in m1 || (k in m2 && k !in todo)
      invariant forall k :: k in r ==> r[k] == if k in todo then m1[k] else MergedCounts(m1, m2)[k]
      decreases todo
    {
      var k :| k in todo;
      MergedCountsAt(m1, m2, k);
      if k in r && k in m2 {
        r := r[k := r[k] + m2[k]];
      } else if k in m2 {
        r := r[k := m2[k]];
      }
      todo := todo - {k};
    }
    SameMap(r, MergedCounts(m1, m2));
  }

  /** `_mergeData`: `d1` updated key by key with `d2`. */
  method MergeData<K(==)>(d1: map<K, Entry<K>>, d2: map<K, Entry<K>>) returns (r: map<K, Entry<K>>)
    requires Compatible(d1, d2)
    ensures r == MergedData(d1, d2)
  {
    ghost var target := MergedData(d1, d2);
    r := d1;
    var todo := d1.Keys + d2.Keys;
    while todo != {}
      invariant todo <= d1.Keys + d2.Keys
      invariant forall k :: k in r <==> k in d1 || (k in d2 && k !in todo)
      invariant forall k :: k in todo && k in d1 ==> r[k] == d1[k]
      invariant forall k :: k in r && k !in todo ==> k in target && r[k] == target[k]
      decreases todo
    {
      var k :| k in todo;
      MergedAt(d1, d2, k);
      r := MergeKey(r, d2, k);
      todo := todo - {k};
    }
    SameMap(r, target);
  }

  /** One key of `_mergeData`: added to or merged into `r` when `d2` has it. */
  method MergeKey<K(==)>(r: map<K, Entry<K>>, d2: map<K, Entry<K>>, k: K) returns (r': map<K, Entry<K>>)
    requires k in r && k in d2 ==> SameShape(r[k], d2[k])
    ensures r' == if k in r && k in d2 then r[k := MergedEntry(r[k], d2[k])] else if k in d2 then r[k := d2[k]] else r
  {
    r' := r;
    if k in r && k in d2 {
      match r[k] {
        case Count(n) =>
          r' := r[k := Count(n + d2[k].n)];
        case Nested(m) =>
          var inner := MergeCounts(m, d2[k].m);
          r' := r[k := Nested(inner)];
      }
    } else if k in d2 {
      r' := r[k := d2[k]];
    }
  }

  // ---------------------------------------------------------------------------------------
  // Tallies (traverseAst)
  // ---------------------------------------------------------------------------------------

  /** The shape of every tally `traverseAst` returns: counters under "weq", "length" and
      "regex", an empty dictionary under "variables" and one counter per operator of
      `hofunc` under "hof". */
  predicate Shaped(d: Tally)
  {
    d.Keys == TallyKeys &&
    (forall k :: k in d ==> (d[k].Count? <==> k in CounterKeys)) &&
    d["variables"].m == map[] && d["hof"].m.Keys == HofNames
  }

  /** What `traverseAst` counts. */
  datatype Counter = Regex | Weq | Length | Hof(f: string)

  /** The column of a counter in the row. */
  function Column(c: Counter): string
  {
    match c
    case Regex => "regex"
    case Weq => "weq"
    case Length => "length"
    case Hof(f) => f
  }

  /** The value of a counter in a tally. */
  function Read(d: Tally, c: Counter): int
  {
    match c
    case Hof(f) => SubCountOf(d, "hof", f)
    case _ => CountOf(d, Column(c))
  }

  /** The keys of a tally are distinct names. */
  lemma KeysDistinct()
    ensures "variables" != "weq" && "variables" != "length" && "variables" != "regex" && "variables" != "hof"
    ensures "weq" != "length" && "weq" != "regex" && "weq" != "hof"
    ensures "length" != "regex" && "length" != "hof" && "regex" != "hof"
  {
  }

  /** The tally `traverseAst` starts from: everything at 0. */
  function Initial(): (r: Tally)
    ensures Shaped(r) && forall c :: Read(r, c) == 0
  {
    map["variables" := Nested(map[]), "weq" := Count(0), "length" := Count(0), "regex" := Count(0),
        "hof" := Nested(map f | f in HofNames :: 0)]
  }

  /** Two tallies of that shape can be merged, and their merge has it too. */
  lemma MergeShaped(d1: Tally, d2: Tally)
    requires Shaped(d1) && Shaped(d2)
    ensures Compatible(d1, d2) && Shaped(MergedData(d1, d2))
  {
    MergeAdds(d1, d2);
    var r := MergedData(d1, d2);
    assert r["variables"].m == MergedCounts(map[], map[]);
  }

  /** The node tests of `traverseAst`, each counted on its own: the operator is `InRe`; the
      operator is the higher-order function `f`; the node is a Boolean over two strings; the
      node is a Boolean over two integers. */
  predicate Hit(t: Term, c: Counter)
  {
    match c
    case Regex => t.name == "InRe"
    case Hof(f) => t.name == f && f in HofNames
    case Weq => BinaryOver(t, "String")
    case Length => BinaryOver(t, "Int")
  }

  /** The first increment `traverseAst` makes for a node with children, on the initial
      tally: by the node's operator. */
  function OperatorStage(t: Term): (r: Tally)
    ensures Shaped(r)
  {
    var d := Initial();
    if t.name == "InRe" then d["regex" := Count(d["regex"].n + 1)]
    else if t.name in ProbeFunctions then d["hof" := Nested(d["hof"].m[t.name := d["hof"].m[t.name] + 1])]
    else d
  }

  /** All the increments `traverseAst` makes for a node with children: by its operator, then
      by the sorts of its two children. */
  function Own(t: Term): (r: Tally)
    ensures Shaped(r)
  {
    var d := OperatorStage(t);
    if BinaryOver(t, "String") then d["weq" := Count(d["weq"].n + 1)]
    else if BinaryOver(t, "Int") then d["length" := Count(d["length"].n + 1)]
    else d
  }

  /** A node with children counts 1 for each test it passes and 0 for the others: the `InRe`
      and `hofunc` tests exclude each other, and so do the string and integer tests, but a
      node can pass one of each. */
  lemma OwnCounts(t: Term, c: Counter)
    ensures Read(Own(t), c) == if Hit(t, c) then 1 else 0
  {
    assert "InRe" !in HofNames;
  }

  /** `traverseAst` on a term: all zeros for a leaf; otherwise the node's own increments
      merged with the tallies of its children, in order. */
  function TallyOf(t: Term): (r: Tally)
    ensures Shaped(r)
    decreases t, 1
  {
    if |t.children| == 0 then Initial() else MergeEach(Own(t), t.children)
  }

  /** `acc` merged with the tallies of `ts`, in order. */
  function MergeEach(acc: Tally, ts: seq<Term>): (r: Tally)
    requires Shaped(acc)
    ensures Shaped(r)
    decreases ts, 0
  {
    if ts == [] then acc
    else
      var init := MergeEach(acc, ts[..|ts| - 1]);
      var last := TallyOf(ts[|ts| - 1]);
      MergeShaped(init, last);
      MergedData(init, last)
  }

  /** `traverseAst` on what the parser returns: the merge of the tallies of the assertions of
      a vector, or the tally of a single term. */
  function TallyOfParsed(p: Parsed): (r: Tally)
    ensures Shaped(r)
  {
    match p
    case AstVector(ts) => MergeEach(Initial(), ts)
    case Single(t) => TallyOf(t)
  }

  /** The nodes with children in `t` that pass the test `c`. */
  function Occurrences(t: Term, c: Counter): nat
    decreases t, 1
  {
    if |t.children| == 0 then 0 else (if Hit(t, c) then 1 else 0) + OccurrencesSeq(t.children, c)
  }

  function OccurrencesSeq(ts: seq<Term>, c: Counter): nat
    decreases ts, 0
  {
    if ts == [] then 0 else OccurrencesSeq(ts[..|ts| - 1], c) + Occurrences(ts[|ts| - 1], c)
  }

  function OccurrencesParsed(p: Parsed, c: Counter): nat
  {
    match p
    case AstVector(ts) => OccurrencesSeq(ts, c)
    case Single(t) => Occurrences(t, c)
  }

  /** The nodes with children in `t`. */
  function Inner(t: Term): nat
    decreases t, 1
  {
    if |t.children| == 0 then 0 else 1 + InnerSeq(t.children)
  }

  function InnerSeq(ts: seq<Term>): nat
    decreases ts, 0
  {
    if ts == [] then 0 else InnerSeq(ts[..|ts| - 1]) + Inner(ts[|ts| - 1])
  }

  /** Every counter of the tally of a term is the number of its nodes with children that pass
      the counter's test; a leaf counts nothing. */
  lemma {:induction false} TallyCounts(t: Term, c: Counter)
    ensures Read(TallyOf(t), c) == Occurrences(t, c)
    decreases t, 1
  {
    if |t.children| != 0 {
      OwnCounts(t, c);
      MergeEachCounts(Own(t), t.children, c);
    }
  }

  lemma {:induction false} MergeEachCounts(acc: Tally, ts: seq<Term>, c: Counter)
    requires Shaped(acc)
    ensures Read(MergeEach(acc, ts), c) == Read(acc, c) + OccurrencesSeq(ts, c)
    decreases ts, 0
  {
    if ts != [] {
      var init := ts[..|ts| - 1];
      MergeEachCounts(acc, init, c);
      TallyCounts(ts[|ts| - 1], c);
      ReadMerged(MergeEach(acc, init), TallyOf(ts[|ts| - 1]), c);
    }
  }

  /** Every counter of a merge of two tallies is the sum of theirs. */
  lemma ReadMerged(d1: Tally, d2: Tally, c: Counter)
    requires Shaped(d1) && Shaped(d2)
    ensures Read(MergedData(d1, d2), c) == Read(d1, c) + Read(d2, c)
  {
    MergeShaped(d1, d2);
    MergeAdds(d1, d2);
  }

  /** The same for what the parser returns: a vector counts the nodes of all its assertions. */
  lemma ParsedCounts(p: Parsed, c: Counter)
    ensures Read(TallyOfParsed(p), c) == OccurrencesParsed(p, c)
  {
    match p
    case AstVector(ts) => MergeEachCounts(Initial(), ts, c);
    case Single(t) => TallyCounts(t, c);
  }

  /** No test passes at more nodes than there are nodes with children. */
  lemma {:induction false} OccurrencesBound(t: Term, c: Counter)
    ensures Occurrences(t, c) <= Inner(t)
    decreases t, 1
  {
    if |t.children| != 0 {
      OccurrencesSeqBound(t.children, c);
    }
  }

  lemma {:induction false} OccurrencesSeqBound(ts: seq<Term>, c: Counter)
    ensures OccurrencesSeq(ts, c) <= InnerSeq(ts)
    decreases ts, 0
  {
    if ts != [] {
      OccurrencesSeqBound(ts[..|ts| - 1], c);
      OccurrencesBound(ts[|ts| - 1], c);
    }
  }

  /** Every counter of a term's tally lies between 0 and the number of its nodes with
      children. */
  lemma CounterBound(t: Term, c: Counter)
    ensures 0 <= Read(TallyOf(t), c) <= Inner(t)
  {
    TallyCounts(t, c);
    OccurrencesBound(t, c);
  }

  /** The two tallies are independent: a `Contains` over two strings is counted both as a
      higher-order function and as a word equation. */
  lemma ContainsCountsTwice(t: Term)
    requires t.name == "Contains" && t.termClass == BoolRef && |t.children| == 2
    requires t.children[0].sortName == "String" && t.children[1].sortName == "String"
    ensures Read(TallyOf(t), Hof("Contains")) >= 1 && Read(TallyOf(t), Weq) >= 1
  {
    TallyCounts(t, Hof("Contains"));
    TallyCounts(t, Weq);
  }

  /** One more child merged into a tally. */
  lemma MergeEachStep(acc: Tally, ts: seq<Term>, i: nat)
    requires Shaped(acc) && i < |ts|
    ensures MergeEach(acc, ts[..i + 1]) == MergedData(MergeEach(acc, ts[..i]), TallyOf(ts[i]))
  {
    assert ts[..i + 1] == ts[..i] + [ts[i]];
    MergeEachSnoc(acc, ts[..i], ts[i]);
  }

  lemma MergeEachSnoc(acc: Tally, xs: seq<Term>, t: Term)
    requires Shaped(acc)
    ensures MergeEach(acc, xs + [t]) == MergedData(MergeEach(acc, xs), TallyOf(t))
  {
    var s := xs + [t];
    assert s != [] && s[..|s| - 1] == xs && s[|s| - 1] == t;
    var init := MergeEach(acc, xs);
    assert MergeEach(acc, s) == MergedData(init, TallyOf(t));
  }

  /** The increments `traverseAst` makes for a node with children. */
  method CountNode(t: Term) returns (data: Tally)
    ensures data == Own(t)
  {
    KeysDistinct();
    data := Initial();
    if t.name == "InRe" {
      data := data["regex" := Count(data["regex"].n + 1)];
    } else if t.name in ProbeFunctions {
      var hof := data["hof"].m;
      data := data["hof" := Nested(hof[t.name := hof[t.name] + 1])];
    }
    assert data == OperatorStage(t);
    if BinaryOver(t, "String") {
      data := data["weq" := Count(data["weq"].n + 1)];
    } else if BinaryOver(t, "Int") {
      data := data["length" := Count(data["length"].n + 1)];
    }
  }

  /** `traverseAst` on a term: the increments of the node, then one merge per child. */
  method TraverseTerm(t: Term) returns (data: Tally)
    ensures data == TallyOf(t)
    decreases t
  {
    if |t.children| == 0 {
      return Initial();
    }
    data := CountNode(t);
    var i := 0;
    while i < |t.children|
      invariant 0 <= i <= |t.children|
      invariant data == MergeEach(Own(t), t.children[..i])
    {
      var sub := TraverseTerm(t.children[i]);
      MergeEachStep(Own(t), t.children, i);
      MergeShaped(data, sub);
      data := MergeData(data, sub);
      i := i + 1;
    }
    WholeList(t.children);
  }

  /** `traverseAst` on what the parser returns. */
  method TraverseAst(p: Parsed) returns (data: Tally)
    ensures data == TallyOfParsed(p)
  {
    match p {
      case Single(t) =>
        data := TraverseTerm(t);
      case AstVector(ts) =>
        data := Initial();
        var i := 0;
        while i < |ts|
          invariant 0 <= i <= |ts|
          invariant data == MergeEach(Initial(), ts[..i])
        {
          var sub := TraverseTerm(ts[i]);
          MergeEachStep(Initial(), ts, i);
          MergeShaped(data, sub);
          data := MergeData(data, sub);
          i := i + 1;
        }
        WholeList(ts);
    }
  }

  // ---------------------------------------------------------------------------------------
  // The row (processInstance)
  // ---------------------------------------------------------------------------------------

  /** The row `processInstance` stores for a tally: the instance id, the three plain counters
      and the counter of every operator of `hofunc`. */
  function Row(id: int, d: Tally): (r: map<string, int>)
    requires Shaped(d)
    ensures r.Keys == RowKeys && r["instance_id"] == id
    ensures forall c: Counter :: (c.Hof? ==> c.f in HofNames) ==> Column(c) in r && r[Column(c)] == Read(d, c)
  {
    ColumnsDistinct();
    map key | key in RowKeys ::
      if key == "instance_id" then id else if key in CounterKeys then d[key].n else d["hof"].m[key]
  }

  /** The columns of the row are distinct names. */
  lemma ColumnsDistinct()
    ensures "instance_id" !in CounterKeys && "instance_id" !in HofNames
    ensures forall f :: f in HofNames ==> f !in CounterKeys
  {
  }

  /** The row of a script holds its id and, in the column of each counter, the number of
      nodes passing that counter's test. */
  lemma RowCounts(id: int, p: Parsed)
    ensures Row(id, TallyOfParsed(p)).Keys == RowKeys
    ensures Row(id, TallyOfParsed(p))["instance_id"] == id
    ensures forall c: Counter :: (c.Hof? ==> c.f in HofNames) ==>
              Column(c) in RowKeys && Row(id, TallyOfParsed(p))[Column(c)] == OccurrencesParsed(p, c)
  {
    ColumnsDistinct();
    forall c: Counter | c.Hof? ==> c.f in HofNames
      ensures Column(c) in RowKeys && Row(id, TallyOfParsed(p))[Column(c)] == OccurrencesParsed(p, c)
    {
      ParsedCounts(p, c);
    }
  }

  /** The inner loop of `processInstance`: the entries of a nested dictionary copied into the
      row, one key at a time. */
  method Lift<K(==)>(row: map<K, int>, m: map<K, int>) returns (r: map<K, int>)
    ensures forall key :: key in r <==> key in row || key in m
    ensures forall key :: key in r ==> r[key] == if key in m then m[key] else row[key]
  {
    r := row;
    var rest := m.Keys;
    while rest != {}
      invariant rest <= m.Keys
      invariant forall key :: key in r <==> key in row || (key in m && key !in rest)
      invariant forall key :: key in r ==> r[key] == if key in m && key !in rest then m[key] else row[key]
      decreases |rest|
    {
      var kk :| kk in rest;
      r := r[kk := m[kk]];
      rest := rest - {kk};
    }
  }

  /** The keys an entry of `data` puts into a row: its own key for an integer, the keys of a
      nested dictionary. */
  predicate Supplies<K>(data: map<K, Entry<K>>, k: K, key: K)
  {
    k in data && (if data[k].Count? then key == k else key in data[k].m)
  }

  /** The value the entry of `data` under `k` puts into a row under `key`. */
  function Supplied<K>(data: map<K, Entry<K>>, k: K, key: K): int
    requires Supplies(data, k, key)
  {
    if data[k].Count? then data[k].n else data[k].m[key]
  }

  /** No two entries of `data` put the same key into a row, and none puts one that `row0`
      already has: the flattening does not depend on the order of the keys. */
  ghost predicate Separated<K(!new)>(row0: map<K, int>, data: map<K, Entry<K>>)
  {
    (forall k, key :: Supplies(data, k, key) ==> key !in row0) &&
    (forall k1, k2, key :: Supplies(data, k1, key) && Supplies(data, k2, key) ==> k1 == k2)
  }

  /** The loop of `processInstance`: every entry of `data` flattened into `row0`. */
  method Flatten<K(==, !new)>(row0: map<K, int>, data: map<K, Entry<K>>) returns (row: map<K, int>)
    requires Separated(row0, data)
    ensures forall key :: key in row <==> key in row0 || exists k :: Supplies(data, k, key)
    ensures forall key :: key in row0 ==> row[key] == row0[key]
    ensures forall k, key :: Supplies(data, k, key) ==> row[key] == Supplied(data, k, key)
  {
    row := row0;
    var todo := data.Keys;
    while todo != {}
      invariant todo <= data.Keys
      invariant forall key :: key in row <==> key in row0 || exists k :: k !in todo && Supplies(data, k, key)
      invariant forall key :: key in row0 ==> row[key] == row0[key]
      invariant forall k, key :: k !in todo && Supplies(data, k, key) ==> row[key] == Supplied(data, k, key)
      decreases todo
    {
      var k :| k in todo;
      match data[k] {
        case Count(n) =>
          assert Supplies(data, k, k);
          row := row[k := n];
        case Nested(m) =>
          assert forall key :: key in m ==> Supplies(data, k, key);
          row := Lift(row, m);
      }
      todo := todo - {k};
    }
  }

  /** The probe's tallies can be flattened below the instance id. */
  lemma ShapedSeparated(id: int, d: Tally)
    requires Shaped(d)
    ensures Separated(map["instance_id" := id], d)
  {
    ColumnsDistinct();
  }

  /** Flattening a tally of the probe's shape below the instance id gives its row. */
  lemma FlattenedRow(id: int, d: Tally, row: map<string, int>)
    requires Shaped(d)
    requires forall key :: key in row <==> key == "instance_id" || exists k :: Supplies(d, k, key)
    requires "instance_id" in row && row["instance_id"] == id
    requires forall k, key :: Supplies(d, k, key) ==> row[key] == Supplied(d, k, key)
    ensures row == Row(id, d)
  {
    ColumnsDistinct();
    var r := Row(id, d);
    forall key | key in RowKeys
      ensures key in row && row[key] == r[key]
    {
      if key in CounterKeys {
        assert Supplies(d, key, key);
      } else if key in HofNames {
        assert Supplies(d, "hof", key);
      }
    }
    forall key | key in row
      ensures key in RowKeys
    {
      if key != "instance_id" {
        var k :| Supplies(d, k, key);
        assert k in TallyKeys;
      }
    }
    SameMap(row, r);
  }

  /** `processInstance` without the parser and the insert: the tally of the script flattened
      into a row, integer entries under their own key and the entries of nested dictionaries
      lifted to the top. */
  method ProcessInstance(id: int, p: Parsed) returns (row: map<string, int>)
    ensures row == Row(id, TallyOfParsed(p))
  {
    var data := TraverseAst(p);
    ShapedSeparated(id, data);
    row := Flatten(map["instance_id" := id], data);
    FlattenedRow(id, data, row);
  }
}
