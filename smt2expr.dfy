/** smtquery/smtcon/smt2expr.py: the translation of a parsed SMT-LIB term into the expression
    tree of smtquery/smtcon/expr.py, and of a parsed script into an `ASTRef`.  The parser
    (`z3.parse_smt2_file`) is not part of this model: its result is the `Parsed` value below. */
module Smt2Expr {
  import opened Wrappers
  import opened Strings
  import opened SmtExpr
  import opened SmtAst
  import opened Lists

  /** The Python class of a parsed term. */
  datatype TermClass = SeqRef | BoolRef | ReRef | ArithRef | IntNumRef | OtherRef

  /** A parsed term: the printed name of its declaration (`str(decl())`), whether that
      declaration is an uninterpreted symbol, the printed name of its sort (`str(sort())`),
      its class, its children, its declaration's parameters as printed, the S-expression of
      its declaration (`decl().sexpr()`) and its own S-expression (`sexpr()`). */
  datatype Term = Term(name: string, uninterpreted: bool, sortName: string, termClass: TermClass,
                       children: seq<Term>, params: seq<string>, declText: string, text: string)

  /** What the parser returns for a script: a vector of assertions, or a single term. */
  datatype Parsed = AstVector(terms: seq<Term>) | Single(term: Term)

  /** The operators counted as higher-order string functions. */
  const HOFUNC: seq<string> := ["At", "str.substr", "PrefixOf", "SuffixOf", "Contains", "IndexOf", "Replace", "IntToStr", "StrToInt"]

  // ---------------------------------------------------------------------------------------
  // Sorts
  // ---------------------------------------------------------------------------------------

  /** The printed name of each sort. */
  function SortText(s: Sort): string
  {
    match s
    case String => "String"
    case Bool => "Bool"
    case Int => "Int"
    case RegEx => "ReSort(String)"
  }

  /** `getSort` as written: "String" is mapped to Bool. */
  function GetSort(sortName: string): (r: Option<Sort>)
    ensures r.Some? <==> sortName in {"Bool", "String", "Int", "ReSort(String)"}
  {
    if sortName == "Bool" then Some(Bool)
    else if sortName == "String" then Some(Bool)
    else if sortName == "Int" then Some(Int)
    else if sortName == "ReSort(String)" then Some(RegEx)
    else None
  }

  /** As written, no sort name is read as String, and the String sort is read back as Bool. */
  lemma GetSortLosesString(sortName: string)
    ensures GetSort(sortName) != Some(String)
    ensures GetSort(SortText(String)) == GetSort(SortText(Bool))
  {
  }

  /** `getSort` with its evidently intended second branch: "String" is String. */
  function GetSortIntended(sortName: string): (r: Option<Sort>)
    ensures r.Some? <==> sortName in {"Bool", "String", "Int", "ReSort(String)"}
  {
    if sortName == "Bool" then Some(Bool)
    else if sortName == "String" then Some(String)
    else if sortName == "Int" then Some(Int)
    else if sortName == "ReSort(String)" then Some(RegEx)
    else None
  }

  /** The intended reading gives every sort back from its printed name. */
  lemma GetSortIntendedRoundTrip(s: Sort)
    ensures GetSortIntended(SortText(s)) == Some(s)
  {
  }

  /** The sort of the node built for a term of class `c`; `None` for the untyped fallback. */
  function SortOfClass(c: TermClass): (r: Option<Sort>)
    ensures r.None? <==> c == OtherRef
    ensures c == SeqRef ==> r == Some(String)
    ensures c == BoolRef ==> r == Some(Bool)
    ensures c == ReRef ==> r == Some(RegEx)
    ensures c == ArithRef || c == IntNumRef ==> r == Some(Int)
  {
    match c
    case SeqRef => Some(String)
    case BoolRef => Some(Bool)
    case ReRef => Some(RegEx)
    case ArithRef => Some(Int)
    case IntNumRef => Some(Int)
    case OtherRef => None
  }

  // ---------------------------------------------------------------------------------------
  // Classification (_determineKind)
  // ---------------------------------------------------------------------------------------

  /** `is_variable` of `translateExpr`: a nullary uninterpreted symbol. */
  predicate IsVariableTerm(t: Term)
  {
    |t.children| == 0 && t.uninterpreted
  }

  /** `is_const` of `translateExpr`: a leaf that is not a variable. */
  predicate IsConstTerm(t: Term)
  {
    !IsVariableTerm(t) && |t.children| == 0
  }

  /** A Boolean term with two children of the same sort, the first printed as `sortName`: the
      shape of a word equation ("String") or of a length constraint ("Int"). */
  predicate BinaryOver(t: Term, sortName: string)
  {
    t.termClass == BoolRef && |t.children| == 2 &&
    t.children[0].sortName == sortName && t.children[0].sortName == t.children[1].sortName
  }

  /** `_determineKind`: the first of these tests that holds decides. */
  function DetermineKind(t: Term, isVariable: bool, isConst: bool): (r: Kind)
    ensures r == Variable <==> isVariable
    ensures r == Constant <==> !isVariable && isConst
    ensures r == HolFunction <==> !isVariable && !isConst && t.name in HOFUNC
    ensures r == RegexConstraint <==> !isVariable && !isConst && t.name !in HOFUNC && t.name == "InRe"
    ensures r == Weq <==> !isVariable && !isConst && t.name !in HOFUNC && t.name != "InRe" && BinaryOver(t, "String")
    ensures r == LengthConstraint <==>
              !isVariable && !isConst && t.name !in HOFUNC && t.name != "InRe" && !BinaryOver(t, "String") && BinaryOver(t, "Int")
    ensures r == Other <==>
              !isVariable && !isConst && t.name !in HOFUNC && t.name != "InRe" && !BinaryOver(t, "String") && !BinaryOver(t, "Int")
  {
    if isVariable then Variable
    else if isConst then Constant
    else if t.name in HOFUNC then HolFunction
    else if t.name == "InRe" then RegexConstraint
    else if BinaryOver(t, "String") then Weq
    else if BinaryOver(t, "Int") then LengthConstraint
    else Other
  }

  /** A nullary uninterpreted symbol is a variable even when its name is one of the
      higher-order functions, and a term named "InRe" is a regular-expression constraint
      only if it is not a variable or a constant. */
  lemma VariableBeforeFunction(t: Term)
    requires IsVariableTerm(t) && t.name in HOFUNC
    ensures DetermineKind(t, IsVariableTerm(t), IsConstTerm(t)) == Variable
    ensures DetermineKind(t, false, false) == HolFunction
  {
  }

  /** A word equation and a length constraint exclude each other. */
  lemma WeqOrLength(t: Term)
    ensures !(BinaryOver(t, "String") && BinaryOver(t, "Int"))
  {
  }

  // ---------------------------------------------------------------------------------------
  // Translation (translateExpr, getAST)
  // ---------------------------------------------------------------------------------------

  /** `_extractOpName`: the second space-separated field of the declaration's S-expression;
      `None` is the `IndexError` raised when there is no second field. */
  function ExtractOpName(declText: string): (r: Option<string>)
    ensures r.Some? ==> ' ' !in r.value
  {
    var fields := Split(declText);
    if |fields| >= 2 then Some(fields[1]) else None
  }

  /** For a declaration printed as `(declare-fun name ...)`, the name is extracted. */
  lemma ExtractOpNameOfDeclaration(head: string, name: string, rest: string)
    requires ' ' !in head && ' ' !in name
    ensures ExtractOpName(head + " " + name + " " + rest) == Some(name)
    ensures ExtractOpName(head + " " + name) == Some(name)
  {
    SplitLeadingField(head, name + " " + rest);
    SplitLeadingField(name, rest);
    assert head + " " + name + " " + rest == head + " " + (name + " " + rest);
    SplitLeadingField(head, name);
  }

  /** Number of term occurrences in `t`. */
  function TermSize(t: Term): nat
    decreases t, 1
  {
    1 + TermSizeSeq(t.children)
  }

  function TermSizeSeq(ts: seq<Term>): nat
    decreases ts, 0
  {
    if ts == [] then 0 else TermSizeSeq(ts[..|ts| - 1]) + TermSize(ts[|ts| - 1])
  }

  /** Every declaration in `t` has a name to extract. */
  predicate Translatable(t: Term)
    decreases t, 1
  {
    ExtractOpName(t.declText).Some? && TranslatableSeq(t.children)
  }

  predicate TranslatableSeq(ts: seq<Term>)
    decreases ts, 0
  {
    ts == [] || (TranslatableSeq(ts[..|ts| - 1]) && Translatable(ts[|ts| - 1]))
  }

  /** `translateExpr`: the node for `t` over the nodes for its children; `None` when some
      declaration has no name to extract.  Constants get their own S-expression as their only
      parameter; a term of no known class gets the untyped node with no parameters. */
  function Translate(t: Term): (r: Option<Expr>)
    ensures r.Some? <==> Translatable(t)
    decreases t, 1
  {
    match TranslateSeq(t.children)
    case None => None
    case Some(cs) =>
      match ExtractOpName(t.declText)
      case None => None
      case Some(op) => Some(Node(t, cs, op))
  }

  /** The node `translateExpr` builds for `t` over the children `cs`, with the name `op`. */
  function Node(t: Term, cs: seq<Expr>, op: string): (r: Expr)
    ensures r.children == cs && r.decl == op && r.sort == SortOfClass(t.termClass)
    ensures r.IsVariable() <==> IsVariableTerm(t)
    ensures r.IsConst() <==> !IsVariableTerm(t) && cs == []
    ensures r.sort.Some? && r.IsConst() ==> r.params == [t.text]
    ensures r.sort.Some? && !r.IsConst() ==> r.params == t.params
    ensures r.sort.None? ==> r.params == []
  {
    var isVariable := IsVariableTerm(t);
    var isConst := !isVariable && |cs| == 0;
    var kind := DetermineKind(t, isVariable, isConst);
    var params := if isConst then [t.text] else t.params;
    match SortOfClass(t.termClass)
    case Some(s) => Expr(cs, params, op, kind, Some(s))
    case None => Expr(cs, [], op, kind, None)
  }

  /** The nodes for `ts`, in order; `None` when one of them has none. */
  function TranslateSeq(ts: seq<Term>): (r: Option<seq<Expr>>)
    ensures r.Some? <==> TranslatableSeq(ts)
    ensures r.Some? ==> |r.value| == |ts|
    decreases ts, 0
  {
    if ts == [] then Some([])
    else
      match TranslateSeq(ts[..|ts| - 1])
      case None => None
      case Some(init) =>
        match Translate(ts[|ts| - 1])
        case None => None
        case Some(e) => Some(init + [e])
  }

  /** One node per term occurrence. */
  lemma {:induction false} TranslateSize(t: Term)
    requires Translatable(t)
    ensures Size(Translate(t).value) == TermSize(t)
    decreases t, 1
  {
    TranslateSizeSeq(t.children);
  }

  lemma {:induction false} TranslateSizeSeq(ts: seq<Term>)
    requires TranslatableSeq(ts)
    ensures SizeSeq(TranslateSeq(ts).value) == TermSizeSeq(ts)
    decreases ts, 0
  {
    if ts != [] {
      TranslateSizeSeq(ts[..|ts| - 1]);
      TranslateSize(ts[|ts| - 1]);
      var init := TranslateSeq(ts[..|ts| - 1]).value;
      var e := Translate(ts[|ts| - 1]).value;
      assert (init + [e])[..|init|] == init;
    }
  }

  /** The node's own tests agree with the ones `translateExpr` computed, its sort is the one
      of the term's class, and the untyped fallback has no parameters. */
  lemma {:induction false} TranslateNode(t: Term)
    requires Translatable(t)
    ensures var e := Translate(t).value;
      |e.children| == |t.children| &&
      (e.IsVariable() <==> IsVariableTerm(t)) &&
      (e.IsConst() <==> IsConstTerm(t)) &&
      e.kind == DetermineKind(t, IsVariableTerm(t), IsConstTerm(t)) &&
      e.sort == SortOfClass(t.termClass) &&
      e.decl == ExtractOpName(t.declText).value &&
      (t.termClass == OtherRef ==> e.params == []) &&
      (t.termClass != OtherRef ==> e.params == if IsConstTerm(t) then [t.text] else t.params)
  {
  }

  /** The `i`-th child of the node is the node of the `i`-th child of the term. */
  lemma {:induction false} TranslateSeqIndex(ts: seq<Term>, i: nat)
    requires TranslatableSeq(ts) && i < |ts|
    ensures Translatable(ts[i]) && TranslateSeq(ts).value[i] == Translate(ts[i]).value
    decreases |ts|
  {
    if i < |ts| - 1 {
      TranslateSeqIndex(ts[..|ts| - 1], i);
    }
  }

  /** One more term of a sequence being translated. */
  lemma TranslateSeqStep(ts: seq<Term>, i: nat)
    requires i < |ts|
    ensures TranslatableSeq(ts[..i + 1]) <==> TranslatableSeq(ts[..i]) && Translatable(ts[i])
    ensures TranslatableSeq(ts[..i + 1]) ==>
              TranslateSeq(ts[..i + 1]).value == TranslateSeq(ts[..i]).value + [Translate(ts[i]).value]
  {
    assert ts[..i + 1][..i] == ts[..i];
  }

  /** A prefix that cannot be translated makes the whole sequence untranslatable. */
  lemma {:induction false} TranslateSeqPrefix(ts: seq<Term>, i: nat)
    requires i <= |ts| && !TranslatableSeq(ts[..i])
    ensures !TranslatableSeq(ts)
    decreases |ts| - i
  {
    if i < |ts| {
      assert ts[..i + 1][..i] == ts[..i];
      TranslateSeqPrefix(ts, i + 1);
    } else {
      assert ts[..i] == ts;
    }
  }

  /** `translateExpr` on objects: a fresh node for every term occurrence, each with its own
      empty attribute map. */
  method TranslateExpr(t: Term) returns (r: Option<ExprRef<VarMap>>)
    ensures r.Some? <==> Translatable(t)
    ensures r.Some? ==> r.value.Valid() && fresh(r.value.Repr)
    ensures r.Some? ==> r.value.Value() == Translate(t).value
    ensures r.Some? ==> r.value.Owned() && |r.value.Repr| == TermSize(t)
    decreases t, 1
  {
    var children := TranslateChildren(t.children);
    if children.None? {
      return None;
    }
    var op := ExtractOpName(t.declText);
    if op.None? {
      return None;
    }
    var node := NewNode(t, children.value, op.value);
    r := Some(node);
    TranslatedTreeSize(t, node);
  }

  /** A tree of nodes for a term has one object per occurrence of a term in it. */
  lemma TranslatedTreeSize(t: Term, node: ExprRef<VarMap>)
    requires Translatable(t) && node.Owned() && node.Value() == Translate(t).value
    ensures |node.Repr| == TermSize(t)
  {
    node.TreeSize();
    TranslateSize(t);
  }

  /** The node `translateExpr` builds for `t` over the already translated `children`. */
  method NewNode(t: Term, children: seq<ExprRef<VarMap>>, op: string) returns (node: ExprRef<VarMap>)
    requires Forest(children)
    ensures fresh(node) && node.Owned() && node.Repr == {node} + ReprOf(children)
    ensures node.Value() == Node(t, ValuesOf(children), op)
  {
    var isVariable := IsVariableTerm(t);
    var isConst := !isVariable && |children| == 0;
    var kind := DetermineKind(t, isVariable, isConst);
    var params := if isConst then [t.text] else t.params;
    // The typed classes keep the parameters; the untyped fallback drops them.
    var sort := SortOfClass(t.termClass);
    node := new ExprRef(children, if sort.Some? then params else [], op, kind, sort, map[]);
  }

  /** The list comprehension of `translateExpr`: a fresh node for each term, in order. */
  method TranslateChildren(ts: seq<Term>) returns (r: Option<seq<ExprRef<VarMap>>>)
    ensures r.Some? <==> TranslatableSeq(ts)
    ensures r.Some? ==> ValuesOf(r.value) == TranslateSeq(ts).value && fresh(ReprOf(r.value))
    ensures r.Some? ==> Forest(r.value)
    decreases ts, 0
  {
    var cs: seq<ExprRef<VarMap>> := [];
    var i := 0;
    while i < |ts|
      invariant 0 <= i <= |ts| && |cs| == i
      invariant TranslatableSeq(ts[..i]) && TranslateSeq(ts[..i]).value == ValuesOf(cs)
      invariant Forest(cs) && fresh(ReprOf(cs))
    {
      var c := TranslateNext(cs, ts[i]);
      TranslateSeqStep(ts, i);
      if c.None? {
        TranslateSeqPrefix(ts, i + 1);
        return None;
      }
      cs := cs + [c.value];
      i := i + 1;
    }
    WholeList(ts);
    r := Some(cs);
  }

  /** One step of the comprehension: the node for `t`, which shares no object with the nodes
      `cs` built before it. */
  method TranslateNext(cs: seq<ExprRef<VarMap>>, t: Term) returns (r: Option<ExprRef<VarMap>>)
    requires Forest(cs)
    ensures r.Some? <==> Translatable(t)
    ensures r.Some? ==> fresh(r.value.Repr) && r.value.Value() == Translate(t).value
    ensures r.Some? ==> Forest(cs + [r.value]) && ReprOf(cs + [r.value]) == ReprOf(cs) + r.value.Repr
    ensures r.Some? ==> ValuesOf(cs + [r.value]) == ValuesOf(cs) + [r.value.Value()]
    decreases t, 2
  {
    ReprOfAllocated(cs);
    r := TranslateExpr(t);
    if r.Some? {
      assert ReprOf(cs) !! r.value.Repr;
      ForestSnoc(cs, r.value);
    }
  }

  /** `getAST`: a script with one assertion per element of the vector, in order, and their
      variable inventory; an empty script when the parser gave no vector; `None` when some
      element cannot be translated. */
  method GetAST(z3ast: Parsed) returns (r: Option<ASTRef>)
    ensures r.None? <==> z3ast.AstVector? && !TranslatableSeq(z3ast.terms)
    ensures r.Some? ==> fresh(r.value) && r.value.Valid() && Forest(r.value.nodes)
    ensures r.Some? ==> ValuesOf(r.value.nodes) == if z3ast.AstVector? then TranslateSeq(z3ast.terms).value else []
    ensures r.Some? ==> r.value.intel.Keys == {"variables"}
    ensures r.Some? ==> r.value.intel["variables"] == FoldSeq(ValuesOf(r.value.nodes), GatherVariables, MergeVariables, map[])
  {
    var ast := new ASTRef();
    if z3ast.Single? {
      return Some(ast);
    }
    var es := TranslateChildren(z3ast.terms);
    if es.None? {
      return None;
    }
    AddAll(ast, es.value);
    WholeList(es.value);
    r := Some(ast);
  }

  /** The `add_node` calls of `getAST`, one per translated assertion, in order; each keeps the
      inventory equal to the merge of the inventories of the assertions so far. */
  method AddAll(ast: ASTRef, es: seq<ExprRef<VarMap>>)
    requires ast.Valid() && forall j :: 0 <= j < |es| ==> es[j].Valid()
    requires ast.intel["variables"] == FoldSeq(ValuesOf(ast.nodes), GatherVariables, MergeVariables, map[])
    modifies ast, ReprOf(es)
    ensures ast.Valid() && ast.nodes == old(ast.nodes) + es && ast.intel.Keys == old(ast.intel.Keys)
    ensures ast.intel["variables"] == FoldSeq(ValuesOf(ast.nodes), GatherVariables, MergeVariables, map[])
  {
    ReprOfCovers(es);
    var i := 0;
    while i < |es|
      invariant 0 <= i <= |es|
      invariant ast.Valid() && ast.nodes == old(ast.nodes) + es[..i] && ast.intel.Keys == old(ast.intel.Keys)
      invariant ast.intel["variables"] == FoldSeq(ValuesOf(ast.nodes), GatherVariables, MergeVariables, map[])
    {
      GetASTStep(ast.nodes, es[i]);
      AppendNext(old(ast.nodes), es, i);
      ast.AddNode(es[i]);
      i := i + 1;
    }
    WholeList(es);
  }

  /** One more assertion in `getAST`. */
  lemma GetASTStep(ns: seq<ExprRef<VarMap>>, e: ExprRef<VarMap>)
    ensures ValuesOf(ns + [e]) == ValuesOf(ns) + [e.Value()]
    ensures ReprOf(ns + [e]) == ReprOf(ns) + e.Repr
    ensures FoldSeq(ValuesOf(ns + [e]), GatherVariables, MergeVariables, map[]) ==
            MergeVariables(FoldSeq(ValuesOf(ns), GatherVariables, MergeVariables, map[]), VariableInventory(e.Value()))
  {
    assert (ns + [e])[..|ns|] == ns;
    FoldSeqSnoc(ValuesOf(ns), e.Value(), GatherVariables, MergeVariables, map[]);
  }

  /** The script's inventory holds exactly the (sort, name) pairs of the variables of its
      assertions. */
  lemma ScriptInventory(es: seq<Expr>)
    ensures Pairs(FoldSeq(es, GatherVariables, MergeVariables, map[])) == VarsSeq(es)
  {
    VariableInventorySeq(es);
  }
}
