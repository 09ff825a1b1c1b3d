/** The value side of smtquery/smtcon/expr.py: sorts, kinds, the immutable part of an
    expression node, the bottom-up attribute fold, the variable inventory, the S-expression
    rendering and the post-order visit.  The mutable objects (ExprRef and ASTRef with their
    attribute maps) are in module SmtAst and are specified through these functions. */
module SmtExpr {
  import opened Wrappers
  import opened Strings

  datatype Sort = String | Bool | Int | RegEx

  datatype Kind = Variable | Constant | Weq | RegexConstraint | LengthConstraint | HolFunction | Other

  /** An expression node without its attribute map: children, parameters, declaration name,
      kind and sort (`None` for a node of the untyped fallback class). */
  datatype Expr = Expr(children: seq<Expr>, params: seq<string>, decl: string, kind: Kind, sort: Option<Sort>)
  {
    predicate IsVariable() { kind == Variable }

    predicate IsConst() { !IsVariable() && |children| == 0 }
  }

  /** A leaf is either a variable or a constant, never both; an inner node is neither. */
  lemma NodeClasses(e: Expr)
    ensures !(e.IsConst() && e.IsVariable())
    ensures |e.children| == 0 <==> e.IsConst() || (e.IsVariable() && |e.children| == 0)
    ensures e.IsConst() ==> |e.children| == 0
  {
  }

  /** Number of nodes of the tree. */
  function Size(e: Expr): nat
    decreases e, 1
  {
    1 + SizeSeq(e.children)
  }

  function SizeSeq(cs: seq<Expr>): nat
    decreases cs, 0
  {
    if cs == [] then 0 else SizeSeq(cs[..|cs| - 1]) + Size(cs[|cs| - 1])
  }

  // ---------------------------------------------------------------------------------------
  // The attribute fold (ExprRef.add_intel_with_function, ASTRef.add_intel_with_function)
  // ---------------------------------------------------------------------------------------

  /** The value the fold stores at node `e`: `f` applied to the node and to the merge of its
      children's values. */
  function Fold<V>(e: Expr, f: (Expr, V) -> V, m: (V, V) -> V, neutral: V): V
    decreases e, 1
  {
    f(e, FoldSeq(e.children, f, m, neutral))
  }

  /** `m(...m(m(neutral, Fold(cs[0])), Fold(cs[1]))..., Fold(cs[n-1]))`: the left fold of `m`
      over the values of `cs`, in order, from `neutral`. */
  function FoldSeq<V>(cs: seq<Expr>, f: (Expr, V) -> V, m: (V, V) -> V, neutral: V): V
    decreases cs, 0
  {
    if cs == [] then neutral
    else m(FoldSeq(cs[..|cs| - 1], f, m, neutral), Fold(cs[|cs| - 1], f, m, neutral))
  }

  // ---------------------------------------------------------------------------------------
  // The variable inventory (ASTRef._intel_gatherVariables and its merge)
  // ---------------------------------------------------------------------------------------

  /** The "variables" attribute: for each sort, the declaration names of the variables of
      that sort. */
  type VarMap = map<Option<Sort>, set<string>>

  /** The (sort, name) pairs a variable map stands for. */
  ghost function Pairs(d: VarMap): set<(Option<Sort>, string)>
  {
    set k, x | k in d && x in d[k] :: (k, x)
  }

  ghost predicate NoEmptySets(d: VarMap)
  {
    forall k :: k in d ==> d[k] != {}
  }

  /** The (sort, name) pair a variable node contributes; nothing for any other node. */
  function OwnVar(e: Expr): set<(Option<Sort>, string)>
  {
    if e.IsVariable() then {(e.sort, e.decl)} else {}
  }

  /** Reference definition: every (sort, name) of a variable node anywhere in the tree. */
  function Vars(e: Expr): set<(Option<Sort>, string)>
    decreases e, 1
  {
    OwnVar(e) + VarsSeq(e.children)
  }

  function VarsSeq(cs: seq<Expr>): set<(Option<Sort>, string)>
    decreases cs, 0
  {
    if cs == [] then {} else VarsSeq(cs[..|cs| - 1]) + Vars(cs[|cs| - 1])
  }

  /** The names of sort `k` in `d`: empty when `d` has no such key. */
  function Names(d: VarMap, k: Option<Sort>): set<string>
  {
    if k in d then d[k] else {}
  }

  /** `_intel_gatherVariables`: the local function of the inventory fold. */
  function GatherVariables(e: Expr, d: VarMap): (r: VarMap)
    ensures Pairs(r) == Pairs(d) + OwnVar(e)
    ensures !e.IsVariable() ==> r == d
    ensures e.IsVariable() ==> r.Keys == d.Keys + {e.sort}
    ensures NoEmptySets(d) ==> NoEmptySets(r)
  {
    if e.IsVariable() then
      var names := if e.sort in d then d[e.sort] else {};
      var r := d[e.sort := names + {e.decl}];
      assert Pairs(r) == Pairs(d) + OwnVar(e) by {
        forall p | p in Pairs(r) ensures p in Pairs(d) + OwnVar(e) {
          var (k, x) := p;
          if k != e.sort { assert p in Pairs(d); }
          else if x != e.decl { assert k in d && x in d[k]; }
        }
        forall p | p in Pairs(d) + OwnVar(e) ensures p in Pairs(r) {
          var (k, x) := p;
          assert k in r && x in r[k];
        }
      }
      r
    else d
  }

  /** Adding a variable already present changes nothing. */
  lemma GatherIdempotent(e: Expr, d: VarMap)
    ensures GatherVariables(e, GatherVariables(e, d)) == GatherVariables(e, d)
  {
    if e.IsVariable() {
      var once := GatherVariables(e, d);
      assert once[e.sort] + {e.decl} == once[e.sort];
    }
  }

  /** `_intel_gatherVariables_merge`: the key sets are united and each key gets the union of its
      two name sets. */
  function MergeVariables(d1: VarMap, d2: VarMap): (r: VarMap)
    ensures r.Keys == d1.Keys + d2.Keys
    ensures forall k :: k in r ==> r[k] == Names(d1, k) + Names(d2, k)
  {
    // The source's three branches (key in both: union; only in d2: d2's set; only in d1:
    // d1's set) are each the union of the two (possibly empty) name sets.
    map k | k in d1.Keys + d2.Keys :: Names(d1, k) + Names(d2, k)
  }

  /** The merge stands for the union of what its two arguments stand for. */
  lemma MergePairs(d1: VarMap, d2: VarMap)
    ensures Pairs(MergeVariables(d1, d2)) == Pairs(d1) + Pairs(d2)
    ensures NoEmptySets(d1) && NoEmptySets(d2) ==> NoEmptySets(MergeVariables(d1, d2))
  {
    var r := MergeVariables(d1, d2);
    forall p | p in Pairs(r) ensures p in Pairs(d1) + Pairs(d2) {
      var (k, x) := p;
      if k in d1 && x in d1[k] { assert p in Pairs(d1); } else { assert p in Pairs(d2); }
    }
    forall p | p in Pairs(d1) + Pairs(d2) ensures p in Pairs(r) {
      var (k, x) := p;
      assert k in r && x in r[k];
    }
  }

  /** A variable map without empty name sets is determined by its pairs. */
  lemma PairsDetermine(d1: VarMap, d2: VarMap)
    requires NoEmptySets(d1) && NoEmptySets(d2) && Pairs(d1) == Pairs(d2)
    ensures d1 == d2
  {
    forall k | k in d1 ensures k in d2 && d1[k] == d2[k] {
      var x :| x in d1[k];
      assert (k, x) in Pairs(d1);
      forall y | y in d1[k] ensures y in d2[k] { assert (k, y) in Pairs(d1); }
      forall y | y in d2[k] ensures y in d1[k] { assert (k, y) in Pairs(d2); }
    }
    forall k | k in d2 ensures k in d1 {
      var x :| x in d2[k];
      assert (k, x) in Pairs(d2);
    }
  }

  /** The "variables" value of a tree. */
  function VariableInventory(e: Expr): VarMap
  {
    Fold(e, GatherVariables, MergeVariables, map[])
  }

  /** The inventory fold gathers exactly the (sort, name) of every variable node of the tree,
      and lists no sort without a name. */
  lemma {:induction false} VariableInventoryExact(e: Expr)
    ensures Pairs(VariableInventory(e)) == Vars(e)
    ensures NoEmptySets(VariableInventory(e))
    decreases e, 1
  {
    VariableInventorySeq(e.children);
  }

  lemma {:induction false} VariableInventorySeq(cs: seq<Expr>)
    ensures Pairs(FoldSeq(cs, GatherVariables, MergeVariables, map[])) == VarsSeq(cs)
    ensures NoEmptySets(FoldSeq(cs, GatherVariables, MergeVariables, map[]))
    decreases cs, 0
  {
    if cs == [] {
      assert Pairs(map[]) == {};
    } else {
      VariableInventorySeq(cs[..|cs| - 1]);
      VariableInventoryExact(cs[|cs| - 1]);
      MergePairs(FoldSeq(cs[..|cs| - 1], GatherVariables, MergeVariables, map[]), VariableInventory(cs[|cs| - 1]));
    }
  }

  // ---------------------------------------------------------------------------------------
  // Rendering (ExprRef.__repr__)
  // ---------------------------------------------------------------------------------------

  /** `''.join(f" {p}" for p in params)`. */
  function ParamsText(ps: seq<string>): string
  {
    if ps == [] then "" else " " + ps[0] + ParamsText(ps[1..])
  }

  /** The S-expression of a node: a constant is its literal text, any other leaf its
      declaration name, an indexed operator `((_ decl p1 .. pk) c1 .. cn)`, any other
      application `(decl c1 .. cn)`. */
  function Render(e: Expr): (r: string)
    ensures |e.children| != 0 ==> |r| >= 2 && r[0] == '(' && r[|r| - 1] == ')'
    decreases e, 1
  {
    if e.IsConst() then Concat(e.params)
    else if |e.children| == 0 then e.decl
    else if |e.params| > 0 then "(" + IndexedHead(e.decl, e.params) + " " + Join(RenderSeq(e.children), " ") + ")"
    else "(" + e.decl + " " + Join(RenderSeq(e.children), " ") + ")"
  }

  /** `(_ decl p1 .. pk)`, the head of an indexed operator. */
  function IndexedHead(decl: string, ps: seq<string>): string
  {
    "(_ " + decl + ParamsText(ps) + ")"
  }

  function RenderSeq(cs: seq<Expr>): (r: seq<string>)
    ensures |r| == |cs|
    decreases cs, 0
  {
    if cs == [] then [] else [Render(cs[0])] + RenderSeq(cs[1..])
  }

  /** Number of opening minus closing parentheses. */
  function Net(s: string): int
  {
    if s == [] then 0
    else (if s[0] == '(' then 1 else if s[0] == ')' then -1 else 0) + Net(s[1..])
  }

  /** Every prefix opens at least as many parentheses as it closes, and the whole closes all. */
  ghost predicate Balanced(s: string)
  {
    Net(s) == 0 && forall k :: 0 <= k <= |s| ==> Net(s[..k]) >= 0
  }

  predicate ParenFree(s: string)
  {
    '(' !in s && ')' !in s
  }

  /** No declaration name of the tree contains a parenthesis, and every parameter is itself
      balanced: a plain index, a literal, or a negative numeral such as `(- 1)`. */
  ghost predicate AtomsWellFormed(e: Expr)
    decreases e, 1
  {
    ParenFree(e.decl) && (forall i :: 0 <= i < |e.params| ==> Balanced(e.params[i])) &&
    AtomsWellFormedSeq(e.children)
  }

  ghost predicate AtomsWellFormedSeq(cs: seq<Expr>)
    decreases cs, 0
  {
    cs == [] || (AtomsWellFormed(cs[0]) && AtomsWellFormedSeq(cs[1..]))
  }

  lemma {:induction false} NetAppend(a: string, b: string)
    ensures Net(a + b) == Net(a) + Net(b)
  {
    if a != [] {
      assert (a + b)[1..] == a[1..] + b;
      NetAppend(a[1..], b);
    } else {
      assert a + b == b;
    }
  }

  lemma {:induction false} NetParenFree(s: string)
    requires ParenFree(s)
    ensures Net(s) == 0
  {
    if s != [] { NetParenFree(s[1..]); }
  }

  lemma ParenFreeBalanced(s: string)
    requires ParenFree(s)
    ensures Balanced(s)
  {
    NetParenFree(s);
    forall k | 0 <= k <= |s| ensures Net(s[..k]) >= 0 {
      assert ParenFree(s[..k]) by {
        assert forall c :: c in s[..k] ==> c in s;
      }
      NetParenFree(s[..k]);
    }
  }

  lemma BalancedAppend(a: string, b: string)
    requires Balanced(a) && Balanced(b)
    ensures Balanced(a + b)
  {
    NetAppend(a, b);
    forall k | 0 <= k <= |a + b| ensures Net((a + b)[..k]) >= 0 {
      if k <= |a| {
        assert (a + b)[..k] == a[..k];
      } else {
        assert (a + b)[..k] == a + b[..k - |a|];
        NetAppend(a, b[..k - |a|]);
      }
    }
  }

  lemma BalancedWrap(s: string)
    requires Balanced(s)
    ensures Balanced("(" + s + ")")
  {
    var w := "(" + s + ")";
    NetAppend("(", s);
    NetAppend("(" + s, ")");
    forall k | 0 <= k <= |w| ensures Net(w[..k]) >= 0 {
      if k == 0 {
      } else if k <= |s| + 1 {
        assert w[..k] == "(" + s[..k - 1];
        NetAppend("(", s[..k - 1]);
      } else {
        assert w[..k] == w;
      }
    }
  }

  lemma {:induction false} ConcatBalanced(ps: seq<string>)
    requires forall i :: 0 <= i < |ps| ==> Balanced(ps[i])
    ensures Balanced(Concat(ps))
  {
    if ps == [] {
      assert Net("") == 0;
    } else {
      ConcatBalanced(ps[1..]);
      BalancedAppend(ps[0], Concat(ps[1..]));
    }
  }

  lemma {:induction false} ParamsTextBalanced(ps: seq<string>)
    requires forall i :: 0 <= i < |ps| ==> Balanced(ps[i])
    ensures Balanced(ParamsText(ps))
  {
    if ps == [] {
      assert Net("") == 0;
    } else {
      ParamsTextBalanced(ps[1..]);
      ParenFreeBalanced(" ");
      BalancedAppend(" ", ps[0]);
      BalancedAppend(" " + ps[0], ParamsText(ps[1..]));
    }
  }

  lemma {:induction false} JoinBalanced(parts: seq<string>)
    requires forall i :: 0 <= i < |parts| ==> Balanced(parts[i])
    ensures Balanced(Join(parts, " "))
  {
    if |parts| > 1 {
      JoinBalanced(parts[1..]);
      ParenFreeBalanced(" ");
      BalancedAppend(parts[0], " ");
      BalancedAppend(parts[0] + " ", Join(parts[1..], " "));
    } else if parts == [] {
      assert Net("") == 0;
    }
  }

  /** An application `(head body)` of balanced parts is balanced. */
  lemma ApplicationBalanced(head: string, body: string)
    requires Balanced(head) && Balanced(body)
    ensures Balanced("(" + head + " " + body + ")")
  {
    ParenFreeBalanced(" ");
    BalancedAppend(head, " ");
    BalancedAppend(head + " ", body);
    BalancedWrap(head + " " + body);
    assert "(" + head + " " + body + ")" == "(" + (head + " " + body) + ")";
  }

  lemma ParenFreeAppend(a: string, b: string)
    requires ParenFree(a) && ParenFree(b)
    ensures ParenFree(a + b)
  {
    assert forall c :: c in a + b ==> c in a || c in b;
  }

  /** The indexed operator head `(_ decl p1 .. pk)` of a paren-free name and balanced
      parameters is balanced. */
  lemma IndexedHeadBalanced(decl: string, ps: seq<string>)
    requires ParenFree(decl) && forall i :: 0 <= i < |ps| ==> Balanced(ps[i])
    ensures Balanced(IndexedHead(decl, ps))
  {
    ParamsTextBalanced(ps);
    ParenFreeAppend("_ ", decl);
    ParenFreeBalanced("_ " + decl);
    BalancedAppend("_ " + decl, ParamsText(ps));
    var inner := "_ " + decl + ParamsText(ps);
    BalancedWrap(inner);
    assert IndexedHead(decl, ps) == "(" + inner + ")";
  }

  /** When no declaration name contains a parenthesis and every parameter is balanced, the
      rendering of a node is a balanced S-expression. */
  lemma {:induction false} RenderBalanced(e: Expr)
    requires AtomsWellFormed(e)
    ensures Balanced(Render(e))
    decreases e, 1
  {
    if e.IsConst() {
      ConcatBalanced(e.params);
    } else if |e.children| == 0 {
      ParenFreeBalanced(e.decl);
    } else {
      RenderSeqBalanced(e.children);
      var body := Join(RenderSeq(e.children), " ");
      JoinBalanced(RenderSeq(e.children));
      if |e.params| > 0 {
        IndexedHeadBalanced(e.decl, e.params);
        ApplicationBalanced(IndexedHead(e.decl, e.params), body);
      } else {
        ParenFreeBalanced(e.decl);
        ApplicationBalanced(e.decl, body);
      }
    }
  }

  lemma {:induction false} RenderSeqBalanced(cs: seq<Expr>)
    requires AtomsWellFormedSeq(cs)
    ensures forall i :: 0 <= i < |cs| ==> Balanced(RenderSeq(cs)[i])
    decreases cs, 0
  {
    if cs != [] {
      RenderBalanced(cs[0]);
      RenderSeqBalanced(cs[1..]);
    }
  }

  // ---------------------------------------------------------------------------------------
  // The post-order visit (ExprRef.apply_function)
  // ---------------------------------------------------------------------------------------

  /** The nodes in the order apply_function reaches them: each child's subtree, left to right,
      then the node itself. */
  function PostOrder(e: Expr): seq<Expr>
    decreases e, 1
  {
    PostOrderSeq(e.children) + [e]
  }

  function PostOrderSeq(cs: seq<Expr>): seq<Expr>
    decreases cs, 0
  {
    if cs == [] then [] else PostOrderSeq(cs[..|cs| - 1]) + PostOrder(cs[|cs| - 1])
  }

  /** Reference enumeration of the nodes: the node, then each child's subtree. */
  function PreOrder(e: Expr): seq<Expr>
    decreases e, 1
  {
    [e] + PreOrderSeq(e.children)
  }

  function PreOrderSeq(cs: seq<Expr>): seq<Expr>
    decreases cs, 0
  {
    if cs == [] then [] else PreOrderSeq(cs[..|cs| - 1]) + PreOrder(cs[|cs| - 1])
  }

  /** The post-order visit reaches every node of the tree exactly as often as it occurs, and
      the root last. */
  lemma {:induction false} PostOrderVisitsAll(e: Expr)
    ensures multiset(PostOrder(e)) == multiset(PreOrder(e))
    ensures |PostOrder(e)| == Size(e)
    ensures PostOrder(e)[|PostOrder(e)| - 1] == e
    decreases e, 1
  {
    PostOrderVisitsAllSeq(e.children);
  }

  lemma {:induction false} PostOrderVisitsAllSeq(cs: seq<Expr>)
    ensures multiset(PostOrderSeq(cs)) == multiset(PreOrderSeq(cs))
    ensures |PostOrderSeq(cs)| == SizeSeq(cs)
    decreases cs, 0
  {
    if cs != [] {
      PostOrderVisitsAllSeq(cs[..|cs| - 1]);
      PostOrderVisitsAll(cs[|cs| - 1]);
    }
  }

  /** The visits of the first `i` children come first, in order. */
  lemma {:induction false} PostOrderSeqPrefix(cs: seq<Expr>, i: nat)
    requires i <= |cs|
    ensures PostOrderSeq(cs[..i]) <= PostOrderSeq(cs)
    decreases |cs|
  {
    if i < |cs| {
      PostOrderSeqPrefix(cs[..|cs| - 1], i);
      assert cs[..|cs| - 1][..i] == cs[..i];
    } else {
      assert cs[..i] == cs;
    }
  }

  /** Child `i`'s subtree is visited as one contiguous block, after the blocks of the children
      before it, and wholly before its parent. */
  lemma ChildVisitedBeforeParent(e: Expr, i: nat)
    requires i < |e.children|
    ensures var o := |PostOrderSeq(e.children[..i])|;
            var block := PostOrder(e.children[i]);
            o + |block| < |PostOrder(e)| && PostOrder(e)[o..o + |block|] == block
  {
    var cs := e.children;
    PostOrderSeqPrefix(cs, i + 1);
    assert cs[..i + 1][..i] == cs[..i];
    assert PostOrderSeq(cs[..i + 1]) == PostOrderSeq(cs[..i]) + PostOrder(cs[i]);
  }

  /** The state after applying the transformer `f` to each node of `xs`, left to right. */
  function Run<S>(f: (S, Expr) -> S, s: S, xs: seq<Expr>): S
  {
    if xs == [] then s else f(Run(f, s, xs[..|xs| - 1]), xs[|xs| - 1])
  }

  lemma {:induction false} RunAppend<S>(f: (S, Expr) -> S, s: S, xs: seq<Expr>, ys: seq<Expr>)
    ensures Run(f, s, xs + ys) == Run(f, Run(f, s, xs), ys)
    decreases |ys|
  {
    if ys == [] {
      assert xs + ys == xs;
    } else {
      assert (xs + ys)[..|xs + ys| - 1] == xs + ys[..|ys| - 1];
      RunAppend(f, s, xs, ys[..|ys| - 1]);
    }
  }

  // ---------------------------------------------------------------------------------------
  // The script text (ASTRef.__repr__ and its parts)
  // ---------------------------------------------------------------------------------------

  const Header: string := "(set-logic QF_SLIA)"
  const Footer: string := "(check-sat)"

  /** `str(t)[5:]` for a sort key: the member name, or the empty string for `None`. */
  function SortName(t: Option<Sort>): (r: string)
    ensures ' ' !in r
    ensures r == "" <==> t.None?
  {
    match t
    case Some(String) => "String"
    case Some(Bool) => "Bool"
    case Some(Int) => "Int"
    case Some(RegEx) => "RegEx"
    case None => ""
  }

  function DeclLine(t: Option<Sort>, x: string): string
  {
    "(declare-fun" + " " + x + " " + "()" + " " + SortName(t) + ")\n"
  }

  /** Different sort keys print as different sort names. */
  lemma SortNamesDistinct(a: Option<Sort>, b: Option<Sort>)
    requires SortName(a) == SortName(b)
    ensures a == b
  {
  }

  /** A declaration line of a space-free name splits into four fields: the command, the
      name, the empty argument list and the sort name with the closing parenthesis. */
  lemma DeclLineFields(t: Option<Sort>, x: string)
    requires ' ' !in x
    ensures Split(DeclLine(t, x)) == ["(declare-fun", x, "()", SortName(t) + ")\n"]
  {
    var last := SortName(t) + ")\n";
    assert ' ' !in last;
    FourFields("(declare-fun", x, "()", last);
    assert DeclLine(t, x) == "(declare-fun" + " " + x + " " + "()" + " " + last;
  }

  lemma FourFields(a: string, b: string, c: string, d: string)
    requires ' ' !in a && ' ' !in b && ' ' !in c && ' ' !in d
    ensures Split(a + " " + b + " " + c + " " + d) == [a, b, c, d]
  {
    var cd := c + " " + d;
    var bcd := b + " " + cd;
    SplitLeadingField(d, "");
    SplitLeadingField(c, d);
    assert Split(cd) == [c, d];
    SplitLeadingField(b, cd);
    assert Split(bcd) == [b, c, d];
    SplitLeadingField(a, bcd);
    SpacedRight(a, b, c, d);
  }

  lemma SpacedRight(a: string, b: string, c: string, d: string)
    ensures a + " " + b + " " + c + " " + d == a + " " + (b + " " + (c + " " + d))
  {
  }

  /** `order` lists the keys of `d`, each once: the order in which the dictionary yields them. */
  predicate IsKeyOrder(order: seq<Option<Sort>>, d: VarMap)
  {
    (forall i :: 0 <= i < |order| ==> order[i] in d) &&
    (forall k :: k in d ==> k in order) &&
    (forall i, j :: 0 <= i < j < |order| ==> order[i] != order[j])
  }

  /** The declarations of one sort: its names, in the given order, each paired with the sort. */
  function Group(t: Option<Sort>, names: seq<string>): (r: seq<(Option<Sort>, string)>)
    ensures |r| == |names|
    ensures forall j :: 0 <= j < |r| ==> r[j] == (t, names[j])
  {
    if names == [] then [] else Group(t, names[..|names| - 1]) + [(t, names[|names| - 1])]
  }

  /** The (sort, name) pairs in the order their declarations are emitted: sort by sort along
      `order`, names sorted within each sort. */
  function DeclPairs(d: VarMap, order: seq<Option<Sort>>): seq<(Option<Sort>, string)>
    requires forall i :: 0 <= i < |order| ==> order[i] in d
  {
    if order == [] then []
    else
      var t := order[|order| - 1];
      DeclPairs(d, order[..|order| - 1]) + Group(t, SortedNames(d[t]))
  }

  /** One `declare-fun` line per pair, in order. */
  function LinesOf(ps: seq<(Option<Sort>, string)>): string
  {
    if ps == [] then "" else LinesOf(ps[..|ps| - 1]) + DeclLine(ps[|ps| - 1].0, ps[|ps| - 1].1)
  }

  /** The declaration block of the script. */
  function DeclsText(d: VarMap, order: seq<Option<Sort>>): string
    requires forall i :: 0 <= i < |order| ==> order[i] in d
  {
    LinesOf(DeclPairs(d, order))
  }

  /** Two pairs of the same sort appear in strictly increasing name order. */
  predicate NamesSortedPerSort(ps: seq<(Option<Sort>, string)>)
  {
    forall i, j :: 0 <= i < j < |ps| && ps[i].0 == ps[j].0 ==> Less(ps[i].1, ps[j].1)
  }

  /** One declaration per (sort, name) pair of the inventory: the emitted pairs are exactly its
      pairs, and two pairs of the same sort appear in strictly increasing name order, so no pair
      is emitted twice. */
  lemma {:induction false} DeclarationsExact(d: VarMap, order: seq<Option<Sort>>)
    requires IsKeyOrder(order, d)
    ensures forall p :: p in DeclPairs(d, order) <==> p in Pairs(d)
    ensures NamesSortedPerSort(DeclPairs(d, order))
  {
    DeclPairsCover(d, order);
    DeclPairsSorted(d, order);
  }

  lemma {:induction false} DeclPairsCover(d: VarMap, order: seq<Option<Sort>>)
    requires forall i :: 0 <= i < |order| ==> order[i] in d
    ensures forall p :: p in DeclPairs(d, order) <==> p.0 in order && p in Pairs(d)
  {
    if order != [] {
      var t := order[|order| - 1];
      var init := order[..|order| - 1];
      DeclPairsCover(d, init);
      GroupCover(t, SortedNames(d[t]));
      assert order == init + [t];
    }
  }

  /** A sort's group holds exactly the pairs of that sort with a name from `names`. */
  lemma GroupCover(t: Option<Sort>, names: seq<string>)
    ensures forall p :: p in Group(t, names) <==> p.0 == t && p.1 in names
  {
    var g := Group(t, names);
    forall p: (Option<Sort>, string) | p.0 == t && p.1 in names ensures p in g {
      var j :| 0 <= j < |names| && names[j] == p.1;
      assert g[j] == p;
    }
  }

  lemma {:induction false} DeclPairsSorted(d: VarMap, order: seq<Option<Sort>>)
    requires forall i :: 0 <= i < |order| ==> order[i] in d
    requires forall i, j :: 0 <= i < j < |order| ==> order[i] != order[j]
    ensures NamesSortedPerSort(DeclPairs(d, order))
  {
    if order != [] {
      var t := order[|order| - 1];
      var names := SortedNames(d[t]);
      var init := order[..|order| - 1];
      DeclPairsSorted(d, init);
      DeclPairsCover(d, init);
      GroupCover(t, names);
      assert t !in init by {
        forall q | 0 <= q < |init| ensures init[q] != t { assert init[q] == order[q]; }
      }
      GroupSorted(t, names);
      SortedAppend(DeclPairs(d, init), Group(t, names));
    }
  }

  lemma GroupSorted(t: Option<Sort>, names: seq<string>)
    requires StrictlySorted(names)
    ensures NamesSortedPerSort(Group(t, names))
  {
  }

  /** Two runs of pairs over disjoint sorts stay sorted per sort when put one after the other. */
  lemma SortedAppend(a: seq<(Option<Sort>, string)>, b: seq<(Option<Sort>, string)>)
    requires NamesSortedPerSort(a) && NamesSortedPerSort(b)
    requires forall p, q :: p in a && q in b ==> p.0 != q.0
    ensures NamesSortedPerSort(a + b)
  {
    var ab := a + b;
    forall i, j | 0 <= i < j < |ab| && ab[i].0 == ab[j].0 ensures Less(ab[i].1, ab[j].1) {
      if j < |a| {
        assert ab[i] == a[i] && ab[j] == a[j];
      } else if i < |a| {
        assert false;
      } else {
        assert ab[i] == b[i - |a|] && ab[j] == b[j - |a|];
      }
    }
  }

  function AssertsText(es: seq<Expr>): string
  {
    if es == [] then "" else AssertsText(es[..|es| - 1]) + "(assert " + Render(es[|es| - 1]) + ")\n"
  }

  /** The whole script: header, declarations, assertions and footer, separated by newlines. */
  function ScriptText(d: VarMap, order: seq<Option<Sort>>, es: seq<Expr>): string
    requires forall i :: 0 <= i < |order| ==> order[i] in d
  {
    Header + "\n" + DeclsText(d, order) + "\n" + AssertsText(es) + "\n" + Footer
  }
}
