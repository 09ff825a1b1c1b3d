# smtquery expression core, modelled in Dafny

This project models three parts of smtquery, a tool that catalogues SMT-LIB benchmark instances:

- **The expression tree** (`smtquery/smtcon/expr.py`). `ExprRef` is a node. Its children, parameters,
  declaration name, kind and sort are fixed when it is built; its attribute map `intel` is updated in
  place. `ASTRef` is the ordered list of a script's assertions, with its own attribute map. The
  generic bottom-up fold `add_intel_with_function` stores, at every node, `f` applied to the node
  and to the merge (`m`, starting from `neutral`) of its children's values. The post-order visit
  `apply_function` walks the tree. The variable inventory maps each sort to the names of its
  variables. The S-expression printer renders a node, and the script printer renders a whole script.
- **The translator** (`smtquery/smtcon/smt2expr.py`). It turns a term from the SMT solver's parser
  into an `ExprRef` tree: it classifies each node (`_determineKind`), extracts the operator name
  from the declaration's S-expression, and picks the node's sort from the term's class. `getAST`
  builds the `ASTRef` of a whole script.
- **The probe** (`smtquery/storage/smt/plugins.py`, class `ProbeSMTFiles`). `traverseAst` counts
  regular-expression constraints, word equations, length constraints and each higher-order string
  function over a parsed script. It merges the tallies with `_mergeData`, and `processInstance`
  flattens them into one database row.

Modules:

| module | file | content |
|---|---|---|
| `Wrappers` | `wrappers.dfy` | `Option` |
| `Strings` | `strings.dfy` | `str.split(" ")`, `join`, Python's order on `str` and `sorted` of a set |
| `Lists` | `lists.dfy` | Python list subscripts, `insert`, `del`, and small sequence and map facts |
| `SmtExpr` | `expr.dfy` | the value view of a node (`Expr`) and the specification functions: the fold, the inventory, rendering, the post-order visit, the script text |
| `SmtAst` | `ast.dfy` | the classes `ExprRef` and `ASTRef`, proved against `SmtExpr` |
| `Smt2Expr` | `smt2expr.dfy` | the parsed term (`Term`, `Parsed`) and the translation |
| `Plugins` | `plugins.dfy` | tallies, `_mergeData`, `traverseAst`, and the row of `processInstance` |

Each class is proved against a function on values:

- An `ExprRef` stands for the `Expr` tree returned by `Value()`.
- `add_intel_with_function` leaves `Fold(n.Value(), f, m, neutral)` under `key` at every node `n`.
- `apply_function` with a state transformer `f` yields `Run(f, s, PostOrder(...))`.
- The two `_mergeData` loops yield the map comprehensions `MergedCounts` and `MergedData`.
- `traverseAst` yields `TallyOf`.

Each of those functions is then related to an independent reference definition:

- The inventory holds exactly the pairs in `Vars`.
- Each counter of `TallyOf` equals `Occurrences`, the number of nodes passing that counter's test.
- The post-order visit is a permutation of `PreOrder` that ends with the root.
- The declarations are exactly the inventory's pairs.
- A rendering is balanced.

## Model

| member | source | states |
|---|---|---|
| Strings.Split | smtquery/smtcon/smt2expr.py:37 | `split(" ")` never gives an empty list, and no field contains a space |
| Strings.JoinSplit | smtquery/smtcon/smt2expr.py:37 | joining the fields of `split(" ")` with spaces gives the string back |
| Strings.SplitLeadingField | smtquery/smtcon/smt2expr.py:37 | a space-free string is one field; a space-free field followed by a space is the first field of the split |
| Strings.LessIrreflexive | smtquery/smtcon/expr.py:86 | no name sorts before itself |
| Strings.LessAsymmetric | smtquery/smtcon/expr.py:86 | two names are never each before the other |
| Strings.LessTransitive | smtquery/smtcon/expr.py:86 | the order on names is transitive |
| Strings.LessTotal | smtquery/smtcon/expr.py:86 | any two distinct names are ordered one way or the other |
| Strings.SortedNames | smtquery/smtcon/expr.py:86 | `sorted` of a name set is strictly increasing, has the same elements and has one entry per name |
| Lists.Index | smtquery/smtcon/expr.py:102-109 | a subscript is valid exactly when `-n <= ii < n`; a negative one counts from the end |
| Lists.InsertPosition | smtquery/smtcon/expr.py:111-112 | `insert` clamps its position to `0 .. n`: past the end appends, before the start prepends |
| Lists.InsertKeepsOrder | smtquery/smtcon/expr.py:111-112 | inserting keeps every other element in order: removing the new one gives the list back |
| Lists.InsertAtSubscript | smtquery/smtcon/expr.py:111-112 | inserting under a valid subscript puts the element where the subscript pointed |
| Lists.AppendAtEnd | smtquery/smtcon/expr.py:114-115 | `insert(len, v)` is appending `v` |
| Lists.DeleteThenInsert | smtquery/smtcon/expr.py:105-112 | deleting the element under a non-negative subscript and inserting it back under the same subscript restores the list |
| SmtExpr.NodeClasses | smtquery/smtcon/expr.py:150-154 | a node is never both a constant and a variable; every constant is a leaf |
| SmtExpr.GatherVariables | smtquery/smtcon/expr.py:55-63 | a variable node adds exactly its (sort, name) pair and its sort key; any other node changes nothing; no empty name set appears |
| SmtExpr.GatherIdempotent | smtquery/smtcon/expr.py:59-62 | gathering the same variable twice changes nothing the second time |
| SmtExpr.MergeVariables | smtquery/smtcon/expr.py:65-73 | the merge has the union of the keys, and each key holds the union of the two name sets (an absent key counts as empty) |
| SmtExpr.MergePairs | smtquery/smtcon/expr.py:65-73 | the merge stands for the union of the pairs of its two arguments, and creates no empty name set |
| SmtExpr.PairsDetermine | smtquery/smtcon/expr.py:55-73 | an inventory without empty name sets is determined by its pairs |
| SmtExpr.VariableInventoryExact | smtquery/smtcon/expr.py:31-33 | the inventory fold of a tree holds exactly the (sort, name) of each of its variable nodes, with no empty name set |
| SmtExpr.VariableInventorySeq | smtquery/smtcon/expr.py:37-42 | the inventories of a list of trees merged left to right hold exactly the variables of all of them |
| SmtExpr.Render | smtquery/smtcon/expr.py:173-185 | the text of a node with children is parenthesised: it starts with `(` and ends with `)` |
| SmtExpr.RenderBalanced | smtquery/smtcon/expr.py:173-185 | when no declaration name contains a parenthesis and every parameter is balanced (an index, a literal, or a negative numeral such as `(- 1)`), the rendering of a node is a balanced S-expression |
| SmtExpr.RenderSeqBalanced | smtquery/smtcon/expr.py:183 | every child's rendering is balanced |
| SmtExpr.IndexedHeadBalanced | smtquery/smtcon/expr.py:180 | the head `(_ decl p1 .. pk)` of an indexed operator with a paren-free name and balanced parameters is balanced |
| SmtExpr.ApplicationBalanced | smtquery/smtcon/expr.py:182-184 | an application `(head children)` of balanced parts is balanced |
| SmtExpr.JoinBalanced | smtquery/smtcon/expr.py:183 | children joined with single spaces stay balanced |
| SmtExpr.ConcatBalanced | smtquery/smtcon/expr.py:175 | the text of a constant, its balanced parameters concatenated, is balanced |
| SmtExpr.ParamsTextBalanced | smtquery/smtcon/expr.py:180 | balanced parameters, each preceded by a space, stay balanced |
| SmtExpr.PostOrderVisitsAll | smtquery/smtcon/expr.py:165-168 | the post-order visit reaches every node as often as it occurs in the tree, once per node occurrence, and ends with the root |
| SmtExpr.PostOrderSeqPrefix | smtquery/smtcon/expr.py:166-167 | the visits of the first `i` children come first, in order |
| SmtExpr.ChildVisitedBeforeParent | smtquery/smtcon/expr.py:165-168 | each child's subtree is visited as one block, after the earlier children's blocks and before the parent |
| SmtExpr.RunAppend | smtquery/smtcon/expr.py:165-168 | visiting two node sequences one after the other is visiting their concatenation |
| SmtExpr.Group | smtquery/smtcon/expr.py:86-87 | the declarations of one sort pair each of its names, in order, with that sort |
| SmtExpr.GroupCover | smtquery/smtcon/expr.py:86-87 | a sort's declarations are exactly the pairs of that sort with one of its names |
| SmtExpr.GroupSorted | smtquery/smtcon/expr.py:86 | names sorted by `sorted` give declarations sorted by name |
| SmtExpr.DeclPairsCover | smtquery/smtcon/expr.py:85-87 | the emitted declarations are exactly the inventory pairs whose sort is in the key order |
| SmtExpr.DeclPairsSorted | smtquery/smtcon/expr.py:85-87 | with each sort visited once, the declarations of each sort appear in increasing name order |
| SmtExpr.DeclarationsExact | smtquery/smtcon/expr.py:82-88 | the declarations of `_getPPVariables` are one per (sort, name) pair of the inventory, names increasing within each sort |
| SmtExpr.SortName | smtquery/smtcon/expr.py:87 | the printed sort name has no space, and it is empty exactly for the missing sort |
| SmtExpr.SortNamesDistinct | smtquery/smtcon/expr.py:87 | different sort keys print as different sort names |
| SmtExpr.DeclLineFields | smtquery/smtcon/expr.py:83 | the declaration line of a space-free name splits into four fields: `(declare-fun`, the name, `()`, and the sort name closed by `)` and the newline |
| SmtAst.ExprRef.constructor | smtquery/smtcon/expr.py:128-133 | a node over well-formed children is well formed, keeps those children, stands for the tree of its children's trees, and holds the given attribute map |
| SmtAst.ExprRef.ChildValuesExact | smtquery/smtcon/expr.py:135-136 | the children of a node's tree are the trees of its children, in order |
| SmtAst.ExprRef.ClassesAgree | smtquery/smtcon/expr.py:150-154 | `is_variable` and `is_const` of the object agree with those of the tree it stands for |
| SmtAst.ExprRef.TreeSize | smtquery/smtcon/expr.py:128-136 | a node whose descendants never share an object is a tree: it holds exactly one object per node of the expression it stands for |
| SmtAst.ReprOfSize | smtquery/smtcon/expr.py:128-136 | such trees with pairwise disjoint footprints hold, together, one object per node of their expressions |
| SmtAst.ForestSnoc | smtquery/smtcon/smt2expr.py:62 | a tree that shares no object with a list of disjoint trees extends the list |
| SmtAst.ExprRef.AddIntelWithFunction | smtquery/smtcon/expr.py:157-163 | every node of the subtree gets, under `key`, the fold of its own subtree; nothing else in any attribute map changes |
| SmtAst.ExprRef.FoldChildren | smtquery/smtcon/expr.py:158-162 | the loop folds each child's subtree and returns the children's values merged left to right from `neutral` |
| SmtAst.ExprRef.FoldLast | smtquery/smtcon/expr.py:163 | the value stored at a node is `f` of the node and its children's merged values |
| SmtAst.FoldNode | smtquery/smtcon/expr.py:160-162 | one iteration folds a child's subtree; nodes folded by an earlier, shared subtree keep the same value |
| SmtAst.ExprRef.ApplyFunction | smtquery/smtcon/expr.py:165-168 | the state after `apply_function` is the state transformer run over the tree's nodes in post order |
| SmtAst.ExprRef.VisitChildren | smtquery/smtcon/expr.py:166-167 | the loop visits the children's subtrees in order, each in post order |
| SmtAst.ExprRef.VisitLast | smtquery/smtcon/expr.py:168 | the post-order visit of a node ends with the node itself |
| SmtAst.ASTRef.constructor | smtquery/smtcon/expr.py:28-29 | a new script has no assertions and an empty inventory under "variables" |
| SmtAst.ASTRef.AddNode | smtquery/smtcon/expr.py:31-34 | every node of the new assertion gets its inventory; the script's inventory is merged with the assertion's; the assertion is appended |
| SmtAst.AddNodeInventory | smtquery/smtcon/expr.py:31-33 | after `add_node`, the script's inventory holds its earlier pairs plus every variable of the new assertion |
| SmtAst.GatherInventory | smtquery/smtcon/expr.py:32 | the first step of `add_node` leaves each node's variable inventory under "variables" |
| SmtAst.ASTRef.AddIntelWithFunction | smtquery/smtcon/expr.py:37-42 | every node of every assertion gets its fold; the script gets the assertions' values merged left to right from `neutral`; the assertions do not change |
| SmtAst.ASTRef.ApplyFunction | smtquery/smtcon/expr.py:44-46 | the state after `apply_function` is the transformer run over each assertion's post order, the assertions in order |
| SmtAst.MergeInto | smtquery/smtcon/expr.py:65-73 | the key-by-key loop of `_intel_gatherVariables_merge` computes the merge |
| SmtAst.ASTRef.PPVariables | smtquery/smtcon/expr.py:82-88 | the declaration block is one `declare-fun` line per inventory pair, sort by sort in key order, names sorted |
| SmtAst.DeclareSorts | smtquery/smtcon/expr.py:85-87 | the outer loop emits each sort's declarations in turn |
| SmtAst.DeclareSort | smtquery/smtcon/expr.py:86-87 | the inner loop emits one line per name of one sort, in sorted order |
| SmtAst.ASTRef.PPAsserts | smtquery/smtcon/expr.py:90-94 | the assertion block is one `(assert …)` line per assertion, in order |
| SmtAst.ASTRef.Text | smtquery/smtcon/expr.py:96-97 | the script is the header, the declarations, the assertions and the footer, separated by newlines |
| SmtAst.ASTRef.Length | smtquery/smtcon/expr.py:99-100 | `len` is the number of assertions |
| SmtAst.ASTRef.GetItem | smtquery/smtcon/expr.py:102-103 | a subscript yields the assertion it denotes, or an `IndexError` exactly when out of range |
| SmtAst.ASTRef.DelItem | smtquery/smtcon/expr.py:105-106 | `del` removes exactly the denoted assertion, or fails without change when out of range |
| SmtAst.ASTRef.SetItem | smtquery/smtcon/expr.py:108-109 | assignment replaces exactly the denoted assertion, or fails without change when out of range |
| SmtAst.ASTRef.Insert | smtquery/smtcon/expr.py:111-112 | `insert` puts the assertion before the clamped position and keeps the inventory |
| SmtAst.ASTRef.Append | smtquery/smtcon/expr.py:114-115 | `append` makes the assertion the last one |
| Smt2Expr.GetSort | smtquery/smtcon/smt2expr.py:14-23 | the four printed sort names are recognised, and any other name gives `None` |
| Smt2Expr.GetSortLosesString | smtquery/smtcon/smt2expr.py:17-18 | as written, no name is read as String, and "String" reads the same as "Bool" |
| Smt2Expr.GetSortIntended | smtquery/smtcon/smt2expr.py:14-23 | the intended reading recognises the same names |
| Smt2Expr.GetSortIntendedRoundTrip | smtquery/smtcon/smt2expr.py:14-23 | the intended reading gives every sort back from its printed name |
| Smt2Expr.SortOfClass | smtquery/smtcon/smt2expr.py:73-86 | only the fallback class has no sort; strings, Booleans, regular expressions and both integer classes get their sort |
| Smt2Expr.DetermineKind | smtquery/smtcon/smt2expr.py:41-57 | each kind holds exactly when its test passes and every earlier test fails |
| Smt2Expr.VariableBeforeFunction | smtquery/smtcon/smt2expr.py:42-49 | a variable named like a higher-order function is still a variable; the same name on an inner node is a function |
| Smt2Expr.WeqOrLength | smtquery/smtcon/smt2expr.py:52-55 | no node is both a word equation and a length constraint |
| Smt2Expr.ExtractOpName | smtquery/smtcon/smt2expr.py:36-37 | the operator name is a space-free field, or the `IndexError` when there is no second field |
| Smt2Expr.ExtractOpNameOfDeclaration | smtquery/smtcon/smt2expr.py:36-37 | for `(head name rest)` the extracted name is `name` |
| Smt2Expr.Translate | smtquery/smtcon/smt2expr.py:60-86 | a term translates exactly when every declaration in it has a name to extract |
| Smt2Expr.TranslateSeq | smtquery/smtcon/smt2expr.py:62 | a list translates exactly when each of its terms does, keeping the length |
| Smt2Expr.TranslateSize | smtquery/smtcon/smt2expr.py:60-86 | the tree has one node per term occurrence |
| Smt2Expr.TranslateSizeSeq | smtquery/smtcon/smt2expr.py:62 | a list of trees has one node per term occurrence |
| Smt2Expr.TranslateNode | smtquery/smtcon/smt2expr.py:60-86 | the node keeps the child count; its own tests agree with the translator's; its kind, sort, name and parameters are the ones the translator picks |
| Smt2Expr.Node | smtquery/smtcon/smt2expr.py:63-86 | the node has the given children and name and the sort of the term's class; it is a variable exactly when the term is one, and a constant exactly when it is a childless non-variable; a typed node keeps the term's parameters (a constant its literal text), the untyped fallback none |
| Smt2Expr.TranslateSeqIndex | smtquery/smtcon/smt2expr.py:62 | the `i`-th child node is the translation of the `i`-th child term |
| Smt2Expr.TranslateExpr | smtquery/smtcon/smt2expr.py:60-86 | the object translation fails exactly when the value translation does; otherwise it gives fresh objects standing for it that form a tree: no object is reached twice, and there is exactly one object per term occurrence |
| Smt2Expr.NewNode | smtquery/smtcon/smt2expr.py:63-86 | over trees that share no object, the built node is fresh, is itself such a tree, and stands for the translator's node over the children's trees |
| Smt2Expr.TranslateChildren | smtquery/smtcon/smt2expr.py:62 | a fresh tree per child term, in order, sharing no object with the others, standing for the translated list |
| Smt2Expr.TranslateNext | smtquery/smtcon/smt2expr.py:62 | one step of the comprehension: the new child's objects are fresh, form a tree and share none with the earlier children |
| Smt2Expr.TranslatedTreeSize | smtquery/smtcon/smt2expr.py:60-86 | a tree of objects standing for a term's translation has exactly one object per term occurrence |
| Smt2Expr.GetAST | smtquery/smtcon/smt2expr.py:28-34 | a vector gives one assertion per element, in order, each a tree sharing no object with the others, with the merged inventory; any other parse gives an empty script; it fails exactly when an element cannot be translated |
| Smt2Expr.AddAll | smtquery/smtcon/smt2expr.py:32-33 | each `add_node` keeps the inventory equal to the merge of the assertions' inventories |
| Smt2Expr.GetASTStep | smtquery/smtcon/smt2expr.py:33 | one more assertion merges its inventory into the script's |
| Smt2Expr.ScriptInventory | smtquery/smtcon/smt2expr.py:28-34 | a script's inventory holds exactly the (sort, name) pairs of the variables of its assertions |
| Plugins.MergedCounts | smtquery/storage/smt/plugins.py:38-47 | merging two dictionaries of counters gives the union of the keys, each holding the sum of the two counters, a missing one reading 0 |
| Plugins.MergedData | smtquery/storage/smt/plugins.py:38-47 | merging two compatible tallies gives the union of the keys, each entry keeping the shape it has on either side |
| Plugins.MergedAt | smtquery/storage/smt/plugins.py:38-47 | the merged entry under a key of both sides is merged, and under a key of one side it is copied |
| Plugins.MergedCountsAt | smtquery/storage/smt/plugins.py:38-47 | the same for a dictionary of counters |
| Plugins.MergeAdds | smtquery/storage/smt/plugins.py:38-47 | merging adds every counter at both levels (a missing one reads 0), unites the keys and keeps each entry's shape |
| Plugins.MergeCounts | smtquery/storage/smt/plugins.py:38-47 | the key-by-key loop on dictionaries of counters computes their merge |
| Plugins.MergeData | smtquery/storage/smt/plugins.py:38-47 | the key-by-key loop computes the merge of two tallies |
| Plugins.MergeKey | smtquery/storage/smt/plugins.py:40-46 | one key: added or recursively merged when both sides have it, copied when only `d2` has it |
| Plugins.ReadMerged | smtquery/storage/smt/plugins.py:38-47 | every counter of a merged tally is the sum of the two tallies' counters |
| Plugins.Initial | smtquery/storage/smt/plugins.py:50 | the starting tally has the probe's shape and every counter at 0 |
| Plugins.MergeShaped | smtquery/storage/smt/plugins.py:51-53 | two tallies of that shape can be merged, and the merge has that shape |
| Plugins.OperatorStage | smtquery/storage/smt/plugins.py:64-68 | the operator increments keep the tally's shape |
| Plugins.Own | smtquery/storage/smt/plugins.py:64-72 | all of a node's increments keep the tally's shape |
| Plugins.OwnCounts | smtquery/storage/smt/plugins.py:64-72 | an inner node counts 1 for each test it passes and 0 for the others |
| Plugins.ContainsCountsTwice | smtquery/storage/smt/plugins.py:65-72 | the operator and sort tests are independent: a `Contains` over two strings counts as a higher-order function and as a word equation |
| Plugins.TallyOf | smtquery/storage/smt/plugins.py:54-76 | the tally of a term has the probe's shape |
| Plugins.MergeEach | smtquery/storage/smt/plugins.py:74-75 | merging child tallies in turn keeps the shape |
| Plugins.TallyOfParsed | smtquery/storage/smt/plugins.py:49-53 | the tally of a parse has the probe's shape |
| Plugins.TallyCounts | smtquery/storage/smt/plugins.py:49-76 | each counter of a term's tally is the number of its inner nodes passing that counter's test |
| Plugins.MergeEachCounts | smtquery/storage/smt/plugins.py:74-75 | merging the children's tallies adds their occurrence counts |
| Plugins.ParsedCounts | smtquery/storage/smt/plugins.py:49-76 | each counter of a parse's tally is the number of its inner nodes passing the test, over all assertions |
| Plugins.OccurrencesBound | smtquery/storage/smt/plugins.py:55-76 | no test passes at more nodes than the term has inner nodes |
| Plugins.OccurrencesSeqBound | smtquery/storage/smt/plugins.py:74-75 | the same for a list of terms |
| Plugins.CounterBound | smtquery/storage/smt/plugins.py:49-76 | every counter lies between 0 and the number of inner nodes |
| Plugins.MergeEachStep | smtquery/storage/smt/plugins.py:74-75 | one more child tally is merged last |
| Plugins.CountNode | smtquery/storage/smt/plugins.py:64-72 | the in-place increments give exactly the node's own tally |
| Plugins.TraverseTerm | smtquery/storage/smt/plugins.py:54-76 | the traversal of a term computes its tally |
| Plugins.TraverseAst | smtquery/storage/smt/plugins.py:49-76 | the traversal of a parse computes its tally |
| Plugins.ColumnsDistinct | smtquery/storage/smt/plugins.py:81-93 | the id column, the three counter columns and the function columns are distinct |
| Plugins.Row | smtquery/storage/smt/plugins.py:108-117 | the row has exactly the table's columns: the id under `instance_id`, and in each counter's column that counter's value in the tally |
| Plugins.RowCounts | smtquery/storage/smt/plugins.py:108-117 | the row has exactly the table's columns: the id, and in each counter's column the number of nodes passing its test |
| Plugins.Lift | smtquery/storage/smt/plugins.py:116-117 | the inner loop copies every entry of the nested dictionary into the row and keeps the rest |
| Plugins.Flatten | smtquery/storage/smt/plugins.py:111-117 | the row holds the initial entries plus each counter, or each nested counter lifted to the top |
| Plugins.ShapedSeparated | smtquery/storage/smt/plugins.py:111-117 | no column of a probe tally is supplied twice or collides with the id |
| Plugins.FlattenedRow | smtquery/storage/smt/plugins.py:111-117 | flattening a probe tally below the id gives its row |
| Plugins.ProcessInstance | smtquery/storage/smt/plugins.py:108-117 | the stored row is the flattened tally of the parsed script |

## Left out

- Parsing (`z3.parse_smt2_file`) is not modelled. Its result is the `Parsed` value: a vector of `Term`s or a single term, each with its printed declaration, sort, class and S-expressions.
- The database table, the connection and the insert of `processInstance` are not modelled, nor its `print`; the method returns the row. Paths to instance files are not modelled either.
- Aliasing is not modelled:
  - `ASTRef.nodes` and `ASTRef.intel` are class attributes, so every `ASTRef` shares one list and one dict.
  - The default `intel` of `ExprRef` is one dict shared by every node built without one, which includes every node `translateExpr` builds.
  - In the model, each object owns its attribute map.
- `_intel_gatherVariables_merge` and `_mergeData` update their first argument in place and may alias nested values of the second. The model computes values; only the returned dictionary is modelled.
- `_condCopy` is not modelled: with values there is nothing to copy.
- SmtAst.ASTRef.AddIntelWithFunction: `ASTRef` is specialised to attribute values of the inventory type, because the one attribute map of a script holds the inventory.
- SmtAst.ExprRef.ApplyFunction: `f` is a state transformer `(S, Expr) -> S`; the model does not capture a side effect on objects other than that state.
- Sorts are compared by printed name (`str(sort())`); z3's structural sort equality is not modelled.
- Python slice subscripts of `ASTRef` are not modelled, only integer subscripts.
- The iteration order of a dict's keys is a parameter (`order`) of the script printer; the Python insertion order is not tracked.
- Plugins.MergeData: requires both tallies to agree on which keys hold integers and which hold dictionaries. With a mismatch, the Python code raises `TypeError` or `AttributeError`.
- Tallies nest two levels deep (counters, or dictionaries of counters), as every tally of the probe does; deeper nesting is not modelled.
- Plugins.Flatten: requires that no two entries supply the same column. Otherwise the Python row depends on dict key order; every probe tally meets this (Plugins.ShapedSeparated).
- The "variables" entry of a probe tally is always an empty dictionary, because the leaf-counting code of `traverseAst` is commented out.
- `ExprRef.__eq__` is not modelled. The accessors `children`, `decl`, `params`, `sort`, `kind`, `get_intel` and `asserts` are fields of the model.
- Associativity of the two merges is not proved; no property of the core depends on it.
- `getSort`'s result is computed but never used by `translateExpr`; the sort of a node comes from the class of the term.

## Findings

| source | as written | input that shows it | evidently intended | confidence | as-written member | corrected member |
|---|---|---|---|---|---|---|
| smtquery/smtcon/smt2expr.py:17-18 | the sort printed "String" is read as `Sort.Bool` | a term of sort `String`: `getSort` returns `Sort.Bool`, the same as for a Boolean term | "String" read as `Sort.String`, so each sort is recovered from its printed name | not executed | Smt2Expr.GetSortLosesString | Smt2Expr.GetSortIntendedRoundTrip |
