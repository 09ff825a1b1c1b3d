/** The objects of smtquery/smtcon/expr.py: `ExprRef`, a node whose structure is fixed at
    construction and whose attribute map (`intel`) is updated in place, and `ASTRef`, the
    mutable list of root assertions with its own aggregate attribute map.

    Each node and each assertion set owns its attribute map.  In the Python classes the
    `nodes` list and `intel` dict of `ASTRef` are class attributes, and the default `intel`
    argument of `ExprRef` is one dict shared by every node built without one, so writes
    through one object can be seen through another; that sharing is not modelled. */
module SmtAst {
  import opened Wrappers
  import opened Strings
  import opened SmtExpr
  import opened Lists

  /** The nodes reachable from `cs`, each child's footprint in turn. */
  ghost function ReprOf<V>(cs: seq<ExprRef<V>>): set<ExprRef<V>>
  {
    if cs == [] then {} else ReprOf(cs[..|cs| - 1]) + cs[|cs| - 1].Repr
  }

  /** The trees the nodes `cs` stand for, in order. */
  function ValuesOf<V>(cs: seq<ExprRef<V>>): (r: seq<Expr>)
    ensures |r| == |cs|
  {
    if cs == [] then [] else ValuesOf(cs[..|cs| - 1]) + [cs[|cs| - 1].Value()]
  }

  /** The greatest height among `cs`, 0 for none. */
  function MaxHeight<V>(cs: seq<ExprRef<V>>): (r: nat)
    ensures forall i :: 0 <= i < |cs| ==> cs[i].height <= r
  {
    if cs == [] then 0
    else
      var h := MaxHeight(cs[..|cs| - 1]);
      if cs[|cs| - 1].height > h then cs[|cs| - 1].height else h
  }

  /** `ExprRef`: an expression node.  Children, parameters, declaration name, kind and sort
      never change after construction; the attribute map does.  A well-formed node may share
      subtrees (the structure is a DAG), but no node is its own descendant: every child is
      lower than its parent.  The nodes the translator builds share nothing (`Owned`). */
  class ExprRef<V> {
    const children: seq<ExprRef<V>>
    const params: seq<string>
    const decl: string
    const kind: Kind
    const sort: Option<Sort>
    var intel: map<string, V>

    /** One more than the height of the highest child. */
    const height: nat

    /** This node and all its descendants. */
    ghost const Repr: set<ExprRef<V>>

    ghost predicate Valid()
      decreases height
    {
      Repr == {this} + ReprOf(children) && this !in ReprOf(children) &&
      forall i :: 0 <= i < |children| ==>
        children[i].height < height && children[i].Repr <= ReprOf(children) && children[i].Valid()
    }

    /** The tree this node stands for.  A child that is not lower than its parent cannot occur
        in a well-formed node; it would be shown as an empty leaf. */
    function Value(): Expr
      decreases height, 1
    {
      Expr(ChildValues(|children|), params, decl, kind, sort)
    }

    /** The trees of the first `k` children. */
    function ChildValues(k: nat): (r: seq<Expr>)
      requires k <= |children|
      ensures |r| == k
      decreases height, 0, k
    {
      if k == 0 then []
      else
        var c := children[k - 1];
        ChildValues(k - 1) + [if c.height < height then c.Value() else Expr([], [], "", Other, None)]
    }

    /** In a well-formed node, the children of the tree are the trees of the children. */
    lemma {:induction false} ChildValuesExact(k: nat)
      requires Valid() && k <= |children|
      ensures ChildValues(k) == ValuesOf(children[..k])
      decreases k
    {
      if k > 0 {
        ChildValuesExact(k - 1);
        assert children[..k][..k - 1] == children[..k - 1];
      }
    }

    constructor (children: seq<ExprRef<V>>, params: seq<string>, decl: string, kind: Kind,
                 sort: Option<Sort>, intel: map<string, V>)
      requires forall i :: 0 <= i < |children| ==> children[i].Valid()
      ensures Valid() && Repr == {this} + ReprOf(children) && this.children == children
      ensures Value() == Expr(ValuesOf(children), params, decl, kind, sort)
      ensures this.intel == intel
    {
      this.children := children;
      this.params := params;
      this.decl := decl;
      this.kind := kind;
      this.sort := sort;
      this.intel := intel;
      height := 1 + MaxHeight(children);
      Repr := {this} + ReprOf(children);
      ReprOfAllocated(children);
      new;
      ReprOfCovers(children);
      ChildValuesExact(|children|);
      assert children[..|children|] == children;
    }

    /** `is_variable`. */
    predicate IsVariable()
    {
      kind == Variable
    }

    /** `is_const`. */
    predicate IsConst()
    {
      !IsVariable() && |children| == 0
    }

    /** No node is reached twice below this one: the footprints of the children are pairwise
        disjoint, and so, recursively, are those of every descendant's children.  A node built
        with a fresh object for each occurrence of a term has this shape. */
    ghost predicate Owned()
      decreases height
    {
      Valid() &&
      (forall i, j :: 0 <= i < j < |children| ==> children[i].Repr !! children[j].Repr) &&
      forall i :: 0 <= i < |children| ==> children[i].height < height && children[i].Owned()
    }

    /** An owned node is a tree: it has exactly one object per node of the expression it
        stands for. */
    lemma {:induction false} TreeSize()
      requires Owned()
      ensures |Repr| == Size(Value())
      decreases height, 2
    {
      ChildValuesExact(|children|);
      assert children[..|children|] == children;
      ReprOfSize(children, height);
    }

    /** The node's tests agree with those of the tree it stands for. */
    lemma ClassesAgree()
      ensures IsVariable() <==> Value().IsVariable()
      ensures IsConst() <==> Value().IsConst()
    {
    }

    /** `add_intel_with_function(f, m, neutral, key)`: every node of the tree gets, under
        `key`, the fold of its subtree, and nothing else of any attribute map changes. */
    method AddIntelWithFunction(f: (Expr, V) -> V, m: (V, V) -> V, neutral: V, key: string)
      requires Valid()
      modifies Repr
      ensures forall n {:trigger n.intel} :: n in Repr ==> n.intel == old(n.intel)[key := Fold(n.Value(), f, m, neutral)]
      decreases height, 2
    {
      var value := FoldChildren(f, m, neutral, key);
      FoldLast(f, m, neutral);
      intel := intel[key := f(Value(), value)];
    }

    /** The fold of a well-formed node applies `f` to the node and the merged folds of its
        children. */
    lemma FoldLast(f: (Expr, V) -> V, m: (V, V) -> V, neutral: V)
      requires Valid()
      ensures Fold(Value(), f, m, neutral) == f(Value(), FoldSeq(ValuesOf(children), f, m, neutral))
    {
      ChildValuesExact(|children|);
      WholeList(children);
    }

    /** The loop of `add_intel_with_function`: each child's subtree is folded in turn and
        the children's values are merged left to right, starting from `neutral`. */
    method FoldChildren(f: (Expr, V) -> V, m: (V, V) -> V, neutral: V, key: string) returns (value: V)
      requires Valid()
      modifies ReprOf(children)
      ensures value == FoldSeq(ValuesOf(children), f, m, neutral)
      ensures forall n {:trigger n.intel} :: n in ReprOf(children) ==> n.intel == old(n.intel)[key := Fold(n.Value(), f, m, neutral)]
      decreases height, 1
    {
      ghost var R := ReprOf(children);
      ghost var before := map n | n in R :: n.intel;
      ReprOfCovers(children);
      value := neutral;
      var i := 0;
      ghost var done: set<ExprRef<V>> := {};
      while i < |children|
        invariant 0 <= i <= |children|
        invariant done == ReprOf(children[..i]) && done <= R
        invariant value == FoldSeq(ValuesOf(children[..i]), f, m, neutral)
        invariant Folded(before, R, done, f, m, neutral, key)
      {
        var c := children[i];
        var v := FoldNode(c, before, R, done, f, m, neutral, key);
        FoldStep(children, i, f, m, neutral);
        value := m(value, v);
        done := done + c.Repr;
        i := i + 1;
      }
      WholeList(children);
    }

    /** `apply_function(f)`, with the effect of `f` on a node made explicit as a state
        transformer: the state after visiting the tree in post order. */
    method ApplyFunction<S>(f: (S, Expr) -> S, s: S) returns (r: S)
      requires Valid()
      ensures r == Run(f, s, PostOrder(Value()))
      decreases height, 1
    {
      r := VisitChildren(f, s);
      VisitLast(f, s);
      r := f(r, Value());
    }

    /** The loop of `apply_function`: each child's tree in turn, in post order. */
    method VisitChildren<S>(f: (S, Expr) -> S, s: S) returns (r: S)
      requires Valid()
      ensures r == Run(f, s, PostOrderSeq(ValuesOf(children[..|children|])))
      decreases height, 0
    {
      r := s;
      var i := 0;
      while i < |children|
        invariant 0 <= i <= |children|
        invariant r == Run(f, s, PostOrderSeq(ValuesOf(children[..i])))
      {
        var c := children[i];
        r := c.ApplyFunction(f, r);
        ApplyStep(children, i, f, s);
        i := i + 1;
      }
    }

    /** The post-order visit of a well-formed node ends with the node itself. */
    lemma VisitLast<S>(f: (S, Expr) -> S, s: S)
      requires Valid()
      ensures Run(f, s, PostOrder(Value())) == f(Run(f, s, PostOrderSeq(ValuesOf(children[..|children|]))), Value())
    {
      WholeList(children);
      ChildValuesExact(|children|);
      RunAppend(f, s, PostOrderSeq(ValuesOf(children)), [Value()]);
    }
  }

  /** `ASTRef`: the assertions of a script, in order, and the script's own attribute map,
      which holds the variable inventory under "variables". */
  class ASTRef {
    var nodes: seq<ExprRef<VarMap>>
    var intel: map<string, VarMap>

    /** The nodes of all assertion trees. */
    ghost var Repr: set<ExprRef<VarMap>>

    ghost predicate Valid()
      reads this
    {
      "variables" in intel && Wellformed(nodes, Repr)
    }

    /** An empty script with an empty variable inventory. */
    constructor ()
      ensures Valid() && nodes == [] && intel == map["variables" := map[]]
    {
      nodes := [];
      intel := map["variables" := map[]];
      Repr := {};
    }

    /** `add_node(expr)`: every node of `expr` gets its variable inventory, the script's
        inventory gains the variables of `expr`, and `expr` becomes the last assertion. */
    method AddNode(expr: ExprRef<VarMap>)
      requires Valid() && expr.Valid()
      modifies this, expr.Repr
      ensures Valid() && Repr == old(Repr) + expr.Repr
      ensures nodes == old(nodes) + [expr]
      ensures intel == old(intel)["variables" := MergeVariables(old(intel["variables"]), VariableInventory(expr.Value()))]
      ensures forall n {:trigger n.intel} :: n in expr.Repr ==> n.intel == old(n.intel)["variables" := VariableInventory(n.Value())]
    {
      WellformedAppend(nodes, Repr, expr);
      GatherInventory(expr);
      assert expr in expr.Repr;
      intel := intel["variables" := MergeVariables(intel["variables"], expr.intel["variables"])];
      nodes := nodes + [expr];
      Repr := Repr + expr.Repr;
    }

    /** `add_intel_with_function(f, m, neutral, key)`: every node of every assertion gets the
        fold of its subtree under `key`, and the script gets, under `key`, the assertions'
        values merged left to right starting from `neutral`. */
    method AddIntelWithFunction(f: (Expr, VarMap) -> VarMap, m: (VarMap, VarMap) -> VarMap, neutral: VarMap, key: string)
      requires Valid()
      modifies this, Repr
      ensures Valid() && nodes == old(nodes) && Repr == old(Repr)
      ensures intel == old(intel)[key := FoldSeq(ValuesOf(nodes), f, m, neutral)]
      ensures forall n {:trigger n.intel} :: n in Repr ==> n.intel == old(n.intel)[key := Fold(n.Value(), f, m, neutral)]
    {
      var ns := nodes;
      ghost var R := Repr;
      ghost var before := map n | n in R :: n.intel;
      var value := neutral;
      var i := 0;
      ghost var done: set<ExprRef<VarMap>> := {};
      while i < |ns|
        modifies R
        invariant 0 <= i <= |ns|
        invariant done == ReprOf(ns[..i]) && done <= R
        invariant value == FoldSeq(ValuesOf(ns[..i]), f, m, neutral)
        invariant Folded(before, R, done, f, m, neutral, key)
      {
        var e := ns[i];
        var v := FoldNode(e, before, R, done, f, m, neutral, key);
        FoldStep(ns, i, f, m, neutral);
        value := m(value, v);
        done := done + e.Repr;
        i := i + 1;
      }
      WholeList(ns);
      intel := intel[key := value];
    }

    /** `apply_function(f)`: the state after visiting every assertion's tree in post order,
        the assertions in order. */
    method ApplyFunction<S>(f: (S, Expr) -> S, s: S) returns (r: S)
      requires Valid()
      ensures r == Run(f, s, PostOrderSeq(ValuesOf(nodes)))
    {
      r := s;
      var i := 0;
      while i < |nodes|
        invariant 0 <= i <= |nodes|
        invariant r == Run(f, s, PostOrderSeq(ValuesOf(nodes[..i])))
      {
        r := nodes[i].ApplyFunction(f, r);
        ApplyStep(nodes, i, f, s);
        i := i + 1;
      }
      WholeList(nodes);
    }

    /** `_getPPVariables`, the sorts taken in the order `order` in which the inventory
        yields them: one declaration per variable, names sorted within each sort. */
    method PPVariables(order: seq<Option<Sort>>) returns (text: string)
      requires "variables" in intel && IsKeyOrder(order, intel["variables"])
      ensures text == DeclsText(intel["variables"], order)
    {
      text := DeclareSorts(intel["variables"], order);
    }

    /** `_getPPAsserts`: one `assert` line per assertion, in order. */
    method PPAsserts() returns (text: string)
      ensures text == AssertsText(ValuesOf(nodes))
    {
      text := "";
      var i := 0;
      while i < |nodes|
        invariant 0 <= i <= |nodes|
        invariant text == AssertsText(ValuesOf(nodes[..i]))
      {
        PrefixStep(nodes, i);
        PrefixOfAppend(ValuesOf(nodes[..i]), nodes[i].Value());
        text := text + "(assert " + Render(nodes[i].Value()) + ")\n";
        i := i + 1;
      }
      WholeList(nodes);
    }

    /** `__repr__`: the whole script, the inventory's sorts taken in the order `order`. */
    method Text(order: seq<Option<Sort>>) returns (text: string)
      requires "variables" in intel && IsKeyOrder(order, intel["variables"])
      ensures text == ScriptText(intel["variables"], order, ValuesOf(nodes))
    {
      var decls := PPVariables(order);
      var asserts := PPAsserts();
      text := Header + "\n" + decls + "\n" + asserts + "\n" + Footer;
    }

    /** `__len__`. */
    function Length(): (r: nat)
      reads this
      ensures r == |nodes|
    {
      |nodes|
    }

    /** `__getitem__(ii)` for an integer subscript; `None` is an `IndexError`. */
    function GetItem(ii: int): (r: Option<ExprRef<VarMap>>)
      reads this
      ensures r.Some? <==> 0 <= ii + |nodes| && ii < |nodes|
      ensures r.Some? ==> r.value == nodes[Index(|nodes|, ii).value]
    {
      match Index(|nodes|, ii)
      case Some(k) => Some(nodes[k])
      case None => None
    }

    /** `__setitem__(ii, val)`; `ok` is false for an `IndexError`, which changes nothing. */
    method SetItem(ii: int, val: ExprRef<VarMap>) returns (ok: bool)
      requires Valid() && val.Valid()
      modifies this
      ensures Valid() && intel == old(intel)
      ensures ok <==> Index(|old(nodes)|, ii).Some?
      ensures nodes == if ok then old(nodes)[Index(|old(nodes)|, ii).value := val] else old(nodes)
    {
      match Index(|nodes|, ii)
      case Some(k) =>
        WellformedOf(nodes[k := val]);
        nodes := nodes[k := val];
        Repr := ReprOf(nodes);
        ok := true;
      case None =>
        ok := false;
    }

    /** `__delitem__(ii)`; `ok` is false for an `IndexError`, which changes nothing. */
    method DelItem(ii: int) returns (ok: bool)
      requires Valid()
      modifies this
      ensures Valid() && intel == old(intel)
      ensures ok <==> Index(|old(nodes)|, ii).Some?
      ensures nodes == if ok then RemoveAt(old(nodes), Index(|old(nodes)|, ii).value) else old(nodes)
    {
      match Index(|nodes|, ii)
      case Some(k) =>
        WellformedOf(RemoveAt(nodes, k));
        nodes := RemoveAt(nodes, k);
        Repr := ReprOf(nodes);
        ok := true;
      case None =>
        ok := false;
    }

    /** `insert(ii, val)`: `val` goes before the position `ii` denotes, clamped to the ends. */
    method Insert(ii: int, val: ExprRef<VarMap>)
      requires Valid() && val.Valid()
      modifies this
      ensures Valid() && intel == old(intel)
      ensures nodes == InsertAt(old(nodes), InsertPosition(|old(nodes)|, ii), val)
    {
      var p := InsertPosition(|nodes|, ii);
      WellformedOf(InsertAt(nodes, p, val));
      nodes := InsertAt(nodes, p, val);
      Repr := ReprOf(nodes);
    }

    /** `append(val)`, which is `insert(len, val)`: `val` becomes the last assertion. */
    method Append(val: ExprRef<VarMap>)
      requires Valid() && val.Valid()
      modifies this
      ensures Valid() && intel == old(intel)
      ensures nodes == old(nodes) + [val]
    {
      AppendAtEnd(nodes, val);
      Insert(|nodes|, val);
    }
  }

  /** What `add_node` does to the script's inventory: it then holds the (sort, name) pairs it
      held before and those of every variable of the new assertion, and lists no sort without
      a name if it did not before. */
  lemma AddNodeInventory(d: VarMap, e: Expr)
    ensures Pairs(MergeVariables(d, VariableInventory(e))) == Pairs(d) + Vars(e)
    ensures NoEmptySets(d) ==> NoEmptySets(MergeVariables(d, VariableInventory(e)))
  {
    VariableInventoryExact(e);
    MergePairs(d, VariableInventory(e));
  }

  /** The first step of `add_node`: the variable inventory of every subtree of `expr`. */
  method GatherInventory(expr: ExprRef<VarMap>)
    requires expr.Valid()
    modifies expr.Repr
    ensures forall n {:trigger n.intel} :: n in expr.Repr ==> n.intel == old(n.intel)["variables" := VariableInventory(n.Value())]
  {
    expr.AddIntelWithFunction(GatherVariables, MergeVariables, map[], "variables");
  }

  /** `ns` are well-formed trees and `R` is the set of all their nodes. */
  ghost predicate Wellformed<V>(ns: seq<ExprRef<V>>, R: set<ExprRef<V>>)
  {
    R == ReprOf(ns) && forall i :: 0 <= i < |ns| ==> ns[i].Valid() && ns[i].Repr <= R
  }

  lemma WellformedAppend<V>(ns: seq<ExprRef<V>>, R: set<ExprRef<V>>, e: ExprRef<V>)
    requires Wellformed(ns, R) && e.Valid()
    ensures Wellformed(ns + [e], R + e.Repr)
  {
    PrefixOfAppend(ns, e);
    assert ReprOf(ns + [e]) == R + e.Repr;
    forall i | 0 <= i < |ns + [e]|
      ensures (ns + [e])[i].Valid() && (ns + [e])[i].Repr <= R + e.Repr
    {
      if i < |ns| {
        assert (ns + [e])[i] == ns[i];
      }
    }
  }

  lemma WellformedOf<V>(ns: seq<ExprRef<V>>)
    requires forall i :: 0 <= i < |ns| ==> ns[i].Valid()
    ensures Wellformed(ns, ReprOf(ns))
  {
    ReprOfCovers(ns);
  }

  /** `_intel_gatherVariables_merge` as the source runs it, one key of the union at a time,
      updating the first map. */
  method MergeInto(d1: VarMap, d2: VarMap) returns (r: VarMap)
    ensures r == MergeVariables(d1, d2)
  {
    r := d1;
    var todo := d1.Keys + d2.Keys;
    while todo != {}
      invariant todo <= d1.Keys + d2.Keys
      invariant forall k :: k in r <==> k in d1 || (k in d2 && k !in todo)
      invariant forall k :: k in r ==> r[k] == if k in todo then d1[k] else Names(d1, k) + Names(d2, k)
      decreases todo
    {
      var k :| k in todo;
      if k in d1 && k in d2 {
        r := r[k := r[k] + d2[k]];
      } else if k in d2 {
        r := r[k := d2[k]];
      }
      todo := todo - {k};
    }
    SameMap(r, MergeVariables(d1, d2));
  }

  /** The loop of `_getPPVariables`: the declarations of each sort of `order` in turn. */
  method DeclareSorts(d: VarMap, order: seq<Option<Sort>>) returns (text: string)
    requires forall q :: 0 <= q < |order| ==> order[q] in d
    ensures text == DeclsText(d, order)
  {
    text := "";
    var i := 0;
    while i < |order|
      invariant 0 <= i <= |order|
      invariant text == LinesOf(DeclPairs(d, order[..i]))
    {
      text := DeclareSort(text, DeclPairs(d, order[..i]), order[i], d[order[i]]);
      SortStep(d, order, i);
      i := i + 1;
    }
    WholeList(order);
  }

  /** The inner loop of `_getPPVariables`: the declarations of the names of sort `t`, in
      sorted order, appended to the declarations `text` of the pairs `ps`. */
  method DeclareSort(text: string, ghost ps: seq<(Option<Sort>, string)>, t: Option<Sort>, vars: set<string>)
      returns (r: string)
    requires text == LinesOf(ps)
    ensures r == LinesOf(ps + Group(t, SortedNames(vars)))
  {
    r := text;
    var names := SortedNames(vars);
    var j := 0;
    assert ps + Group(t, names[..0]) == ps;
    while j < |names|
      invariant 0 <= j <= |names|
      invariant r == LinesOf(ps + Group(t, names[..j]))
    {
      LineStep(ps, t, names, j);
      r := r + DeclLine(t, names[j]);
      j := j + 1;
    }
    assert names[..j] == names;
  }

  /** One more name in the declaration loop. */
  lemma LineStep(ps: seq<(Option<Sort>, string)>, t: Option<Sort>, names: seq<string>, j: nat)
    requires j < |names|
    ensures LinesOf(ps + Group(t, names[..j + 1])) == LinesOf(ps + Group(t, names[..j])) + DeclLine(t, names[j])
  {
    assert names[..j + 1][..j] == names[..j];
    assert ps + Group(t, names[..j + 1]) == (ps + Group(t, names[..j])) + [(t, names[j])];
  }

  /** One more sort in the declaration loop. */
  lemma SortStep(d: VarMap, order: seq<Option<Sort>>, i: nat)
    requires i < |order| && forall q :: 0 <= q < |order| ==> order[q] in d
    ensures DeclPairs(d, order[..i + 1]) == DeclPairs(d, order[..i]) + Group(order[i], SortedNames(d[order[i]]))
  {
    assert order[..i + 1][..i] == order[..i];
  }

  /** One more node in an `apply_function` loop: its tree is visited after the earlier ones. */
  lemma ApplyStep<V, S>(cs: seq<ExprRef<V>>, i: nat, f: (S, Expr) -> S, s: S)
    requires i < |cs|
    ensures Run(f, s, PostOrderSeq(ValuesOf(cs[..i + 1]))) == Run(f, Run(f, s, PostOrderSeq(ValuesOf(cs[..i]))), PostOrder(cs[i].Value()))
  {
    PrefixStep(cs, i);
    PostOrderSeqSnoc(ValuesOf(cs[..i]), cs[i].Value());
    RunAppend(f, s, PostOrderSeq(ValuesOf(cs[..i])), PostOrder(cs[i].Value()));
  }

  /** One more child: its tree and its footprint are added at the end. */
  lemma PrefixStep<V>(cs: seq<ExprRef<V>>, i: nat)
    requires i < |cs|
    ensures ValuesOf(cs[..i + 1]) == ValuesOf(cs[..i]) + [cs[i].Value()]
    ensures ReprOf(cs[..i + 1]) == ReprOf(cs[..i]) + cs[i].Repr
  {
    assert cs[..i + 1][..i] == cs[..i];
  }

  /** The attribute maps of the nodes `R`, once `before`, after the nodes `done` got the
      fold of their subtrees under `key` and before any other node did. */
  ghost predicate Folded<V>(before: map<ExprRef<V>, map<string, V>>, R: set<ExprRef<V>>, done: set<ExprRef<V>>,
                            f: (Expr, V) -> V, m: (V, V) -> V, neutral: V, key: string)
    reads R
  {
    R <= before.Keys && done <= R &&
    (forall n {:trigger n.intel} :: n in done ==> n.intel == before[n][key := Fold(n.Value(), f, m, neutral)]) &&
    (forall n {:trigger n.intel} :: n in R && n !in done ==> n.intel == before[n])
  }

  /** One iteration of an `add_intel_with_function` loop: the subtree of `c` is folded, which
      may meet nodes an earlier subtree already folded (a shared subtree gets the same value
      again). */
  method FoldNode<V>(c: ExprRef<V>, ghost before: map<ExprRef<V>, map<string, V>>, ghost R: set<ExprRef<V>>,
                     ghost done: set<ExprRef<V>>, f: (Expr, V) -> V, m: (V, V) -> V, neutral: V, key: string)
      returns (v: V)
    requires c.Valid() && c.Repr <= R && Folded(before, R, done, f, m, neutral, key)
    modifies c.Repr
    ensures v == Fold(c.Value(), f, m, neutral)
    ensures Folded(before, R, done + c.Repr, f, m, neutral, key)
    decreases c.height, 3
  {
    c.AddIntelWithFunction(f, m, neutral, key);
    forall n | n in done && n in c.Repr
      ensures n.intel == before[n][key := Fold(n.Value(), f, m, neutral)]
    {
      UpdateTwice(before[n], key, Fold(n.Value(), f, m, neutral));
    }
    assert c in c.Repr;
    v := c.intel[key];
  }

  /** One more child in the loop of `add_intel_with_function`. */
  lemma FoldStep<V>(cs: seq<ExprRef<V>>, i: nat, f: (Expr, V) -> V, m: (V, V) -> V, neutral: V)
    requires i < |cs| && cs[i].Valid()
    ensures cs[i] in cs[i].Repr
    ensures ReprOf(cs[..i + 1]) == ReprOf(cs[..i]) + cs[i].Repr
    ensures FoldSeq(ValuesOf(cs[..i + 1]), f, m, neutral) == m(FoldSeq(ValuesOf(cs[..i]), f, m, neutral), Fold(cs[i].Value(), f, m, neutral))
  {
    PrefixStep(cs, i);
    FoldSeqSnoc(ValuesOf(cs[..i]), cs[i].Value(), f, m, neutral);
  }

  lemma FoldSeqSnoc<V>(xs: seq<Expr>, x: Expr, f: (Expr, V) -> V, m: (V, V) -> V, neutral: V)
    ensures FoldSeq(xs + [x], f, m, neutral) == m(FoldSeq(xs, f, m, neutral), Fold(x, f, m, neutral))
  {
    assert (xs + [x])[..|xs|] == xs;
  }

  lemma PostOrderSeqSnoc(xs: seq<Expr>, x: Expr)
    ensures PostOrderSeq(xs + [x]) == PostOrderSeq(xs) + PostOrder(x)
  {
    assert (xs + [x])[..|xs|] == xs;
  }

  lemma ReprOfAllocated<V>(cs: seq<ExprRef<V>>)
    ensures forall n :: n in ReprOf(cs) ==> allocated(n)
    decreases |cs|
  {
    if cs != [] {
      ReprOfAllocated(cs[..|cs| - 1]);
    }
  }

  lemma UpdateTwice<K, V>(d: map<K, V>, k: K, v: V)
    ensures d[k := v][k := v] == d[k := v]
  {
  }

  lemma ReprOfCovers<V>(cs: seq<ExprRef<V>>)
    ensures forall i :: 0 <= i < |cs| ==> cs[i].Repr <= ReprOf(cs)
    decreases |cs|
  {
    if cs != [] {
      ReprOfCovers(cs[..|cs| - 1]);
    }
  }

  /** The footprints of pairwise disjoint owned trees hold one object per node of the trees. */
  lemma {:induction false} ReprOfSize<V>(cs: seq<ExprRef<V>>, h: nat)
    requires forall i :: 0 <= i < |cs| ==> cs[i].height < h && cs[i].Owned()
    requires forall i, j :: 0 <= i < j < |cs| ==> cs[i].Repr !! cs[j].Repr
    ensures |ReprOf(cs)| == SizeSeq(ValuesOf(cs))
    decreases h, 1, |cs|
  {
    if cs != [] {
      var init, last := cs[..|cs| - 1], cs[|cs| - 1];
      ReprOfSize(init, h);
      last.TreeSize();
      forall n | n in ReprOf(init) ensures n !in last.Repr {
        var j := ReprOfMember(init, n);
        assert cs[j].Repr !! cs[|cs| - 1].Repr;
      }
      assert ReprOf(init) * last.Repr == {};
      PrefixOfAppend(ValuesOf(init), last.Value());
    }
  }

  /** Every node reachable from `cs` belongs to the footprint of one of them. */
  lemma {:induction false} ReprOfMember<V>(cs: seq<ExprRef<V>>, n: ExprRef<V>) returns (j: nat)
    requires n in ReprOf(cs)
    ensures j < |cs| && n in cs[j].Repr
    decreases |cs|
  {
    if n in cs[|cs| - 1].Repr {
      j := |cs| - 1;
    } else {
      j := ReprOfMember(cs[..|cs| - 1], n);
    }
  }

  /** Owned trees with pairwise disjoint footprints: no node is shared between or within them. */
  ghost predicate Forest<V>(cs: seq<ExprRef<V>>)
  {
    (forall i :: 0 <= i < |cs| ==> cs[i].Owned()) &&
    forall i, j :: 0 <= i < j < |cs| ==> cs[i].Repr !! cs[j].Repr
  }

  /** A tree that shares no node with a forest extends it. */
  lemma ForestSnoc<V>(cs: seq<ExprRef<V>>, c: ExprRef<V>)
    requires Forest(cs) && c.Owned() && ReprOf(cs) !! c.Repr
    ensures Forest(cs + [c])
    ensures ValuesOf(cs + [c]) == ValuesOf(cs) + [c.Value()] && ReprOf(cs + [c]) == ReprOf(cs) + c.Repr
  {
    PrefixOfAppend(cs, c);
    ReprOfCovers(cs);
    assert forall i :: 0 <= i < |cs| ==> cs[i].Repr !! c.Repr;
  }
}
