/** The loader-key extractor of `config.ts` files. The TypeScript syntax tree is given
    as data (`Node`); `TraverseTree` is the explicit stack walk both passes use, the first
    pass (`FindLoaderVariables`) collects the names bound to `createLoader(...)`, and the
    second (`ExtractConfiguruKeys`) keeps the first key of every loader call. */
module ConfigTsParser {
  import opened Wrappers

  // ---------------------------------------------------------------------------------
  // Syntax tree

  datatype BinaryOperator = EqualsToken | OtherOperator(text: string)

  /** The node kinds the extractor distinguishes; every other kind is `Other` with its
      children. A string literal carries the span `[getStart, getEnd)` of its token. */
  datatype Node =
    | Identifier(text: string)
    | PropertyAccess(expression: Node, name: string)
    | Call(expression: Node, arguments: seq<Node>)
    | StringLiteral(text: string, start: nat, end: nat)
    | VariableDeclaration(declaredName: Node, initializer: Option<Node>)
    | BinaryExpression(left: Node, operatorToken: BinaryOperator, right: Node)
    | OperatorToken(operator: BinaryOperator)
    | Other(children: seq<Node>)

  /** The children `ts.forEachChild` reports, in order: the name of a property access is
      an identifier node, the operator of a binary expression a token node. */
  function Children(n: Node): seq<Node> {
    match n
    case Identifier(_) => []
    case PropertyAccess(e, name) => [e, Identifier(name)]
    case Call(e, args) => [e] + args
    case StringLiteral(_, _, _) => []
    case VariableDeclaration(name, init) => [name] + (if init.Some? then [init.value] else [])
    case BinaryExpression(l, op, r) => [l, OperatorToken(op), r]
    case OperatorToken(_) => []
    case Other(cs) => cs
  }

  /** The number of nodes of the tree rooted at `n`. */
  function Size(n: Node): (r: nat)
    ensures r >= 1
    decreases n
  {
    match n
    case Identifier(_) => 1
    case PropertyAccess(e, _) => 2 + Size(e)
    case Call(e, args) => 1 + Size(e) + SizeList(args)
    case StringLiteral(_, _, _) => 1
    case VariableDeclaration(name, init) =>
      1 + Size(name) + (if init.Some? then Size(init.value) else 0)
    case BinaryExpression(l, _, r) => 2 + Size(l) + Size(r)
    case OperatorToken(_) => 1
    case Other(cs) => 1 + SizeList(cs)
  }

  function SizeList(ns: seq<Node>): (r: nat)
    ensures ns != [] ==> r >= 1
    decreases ns
  {
    if ns == [] then 0 else SizeList(ns[..|ns| - 1]) + Size(ns[|ns| - 1])
  }

  lemma {:induction false} SizeListAppend(a: seq<Node>, b: seq<Node>)
    ensures SizeList(a + b) == SizeList(a) + SizeList(b)
    decreases |b|
  {
    if b == [] {
      assert a + b == a;
    } else {
      assert (a + b)[..|a + b| - 1] == a + b[..|b| - 1];
      SizeListAppend(a, b[..|b| - 1]);
    }
  }

  lemma ChildrenSize(n: Node)
    ensures SizeList(Children(n)) == Size(n) - 1
  {
    match n
    case PropertyAccess(e, name) =>
      SizeListAppend([e], [Identifier(name)]);
      assert [e] + [Identifier(name)] == Children(n);
    case Call(e, args) =>
      SizeListAppend([e], args);
    case VariableDeclaration(name, init) =>
      if init.Some? {
        SizeListAppend([name], [init.value]);
        assert [name] + [init.value] == Children(n);
      }
    case BinaryExpression(l, op, r) =>
      SizeListAppend([l, OperatorToken(op)], [r]);
      assert [l, OperatorToken(op)] + [r] == Children(n);
    case _ =>
  }

  // ---------------------------------------------------------------------------------
  // traverseTree

  /** The order in which the stack walk visits the tree rooted at `n`: the node, then the
      trees of its children, the LAST child first (children are pushed in order and the
      walk pops from the end). */
  function Preorder(n: Node): (r: seq<Node>)
    ensures r != [] && r[0] == n
    decreases Size(n), 0
  {
    ChildrenSize(n);
    [n] + PendingOrder(Children(n))
  }

  /** The order in which the walk visits what remains when `stack` is its stack. */
  function PendingOrder(stack: seq<Node>): seq<Node>
    decreases SizeList(stack), 1
  {
    if stack == [] then []
    else Preorder(stack[|stack| - 1]) + PendingOrder(stack[..|stack| - 1])
  }

  lemma {:induction false} PendingOrderAppend(a: seq<Node>, b: seq<Node>)
    ensures PendingOrder(a + b) == PendingOrder(b) + PendingOrder(a)
    decreases |b|
  {
    if b == [] {
      assert a + b == a;
    } else {
      assert (a + b)[..|a + b| - 1] == a + b[..|b| - 1];
      PendingOrderAppend(a, b[..|b| - 1]);
    }
  }

  /** `traverseTree(root, eachFn)`: the nodes in the order `eachFn` is called on them. */
  method TraverseTree(root: Node) returns (visited: seq<Node>)
    ensures visited == Preorder(root)
  {
    var stack := [root];
    visited := [];
    assert PendingOrder(stack) == Preorder(root) + PendingOrder([]);
    while |stack| > 0
      invariant visited + PendingOrder(stack) == Preorder(root)
      decreases SizeList(stack)
    {
      var node := stack[|stack| - 1];
      var rest := stack[..|stack| - 1];
      VisitStep(rest, node);
      assert stack == rest + [node];
      visited := visited + [node];
      stack := PushChildren(rest, node);
    }
  }

  /** `ts.forEachChild(node, child => stack.push(child))`. */
  method PushChildren(stack: seq<Node>, node: Node) returns (r: seq<Node>)
    ensures r == stack + Children(node)
  {
    var children := Children(node);
    r := stack;
    var i := 0;
    while i < |children|
      invariant 0 <= i <= |children|
      invariant r == stack + children[..i]
    {
      r := r + [children[i]];
      i := i + 1;
    }
    assert children[..i] == children;
  }

  /** Popping `node` and pushing its children keeps the remaining visit order, and
      shrinks the stack's measure. */
  lemma VisitStep(rest: seq<Node>, node: Node)
    ensures PendingOrder(rest + [node]) == [node] + PendingOrder(rest + Children(node))
    ensures SizeList(rest + Children(node)) < SizeList(rest + [node])
  {
    PendingOrderPop(rest, node);
    PendingOrderAppend(rest, Children(node));
    SizeListAppend(rest, Children(node));
    ChildrenSize(node);
  }

  /** Popping `node` off the stack: its tree comes first, then what the rest gives. */
  lemma PendingOrderPop(rest: seq<Node>, node: Node)
    ensures PendingOrder(rest + [node]) == [node] + (PendingOrder(Children(node)) + PendingOrder(rest))
    ensures SizeList(rest + [node]) == SizeList(rest) + Size(node)
  {
    var stack := rest + [node];
    assert stack[|stack| - 1] == node && stack[..|stack| - 1] == rest;
    assert PendingOrder(stack) == Preorder(node) + PendingOrder(rest);
    assert Preorder(node) == [node] + PendingOrder(Children(node));
  }

  // ---------------------------------------------------------------------------------
  // Positions of nodes: the walk visits every node exactly once, root first, parents
  // before their children.

  /** A path names a node by the child indices that lead to it from the root; `Subtree`
      is the node it names, or None when the path leads nowhere. */
  ghost function Subtree(n: Node, p: seq<nat>): Option<Node>
    decreases |p|
  {
    if p == [] then Some(n)
    else if p[0] < |Children(n)| then Subtree(Children(n)[p[0]], p[1..])
    else None
  }

  function Prefixed(c: nat, ps: seq<seq<nat>>): (r: seq<seq<nat>>)
    ensures |r| == |ps| && forall i :: 0 <= i < |ps| ==> r[i] == [c] + ps[i]
  {
    if ps == [] then [] else [[c] + ps[0]] + Prefixed(c, ps[1..])
  }

  /** The paths of the nodes of `n` in the order the walk visits them. */
  function PathOrder(n: Node): (r: seq<seq<nat>>)
    decreases Size(n), 0
  {
    ChildrenSize(n);
    [[]] + PendingPaths(Children(n))
  }

  /** The same for a stack `cs`, relative to the node whose children `cs` are: index `c`
      of a path is the position in `cs`. */
  function PendingPaths(cs: seq<Node>): seq<seq<nat>>
    decreases SizeList(cs), 1
  {
    if cs == [] then []
    else Prefixed(|cs| - 1, PathOrder(cs[|cs| - 1])) + PendingPaths(cs[..|cs| - 1])
  }

  ghost predicate IsProperPrefix(p: seq<nat>, q: seq<nat>) {
    |p| < |q| && q[..|p|] == p
  }

  /** Position `i` of the visit order is the node at path `PathOrder(n)[i]`. */
  lemma {:induction false} PathOrderSound(n: Node)
    ensures |PathOrder(n)| == |Preorder(n)|
    ensures forall i :: 0 <= i < |PathOrder(n)| ==> Subtree(n, PathOrder(n)[i]) == Some(Preorder(n)[i])
    decreases Size(n), 0
  {
    ChildrenSize(n);
    var cs := Children(n);
    PendingPathsSound(cs);
    forall i | 0 <= i < |PathOrder(n)|
      ensures Subtree(n, PathOrder(n)[i]) == Some(Preorder(n)[i])
    {
      if i > 0 {
        assert PathOrder(n)[i] == PendingPaths(cs)[i - 1];
        assert Preorder(n)[i] == PendingOrder(cs)[i - 1];
      }
    }
  }

  /** The node at path `p` relative to a stack `cs`. */
  ghost function SubtreeIn(cs: seq<Node>, p: seq<nat>): Option<Node> {
    if p != [] && p[0] < |cs| then Subtree(cs[p[0]], p[1..]) else None
  }

  lemma {:induction false} PendingPathsSound(cs: seq<Node>)
    ensures |PendingPaths(cs)| == |PendingOrder(cs)|
    ensures forall i :: 0 <= i < |PendingPaths(cs)| ==> SubtreeIn(cs, PendingPaths(cs)[i]) == Some(PendingOrder(cs)[i])
    decreases SizeList(cs), 1
  {
    if cs != [] {
      var c := |cs| - 1;
      var init := cs[..c];
      var block := Prefixed(c, PathOrder(cs[c]));
      PathOrderSound(cs[c]);
      PendingPathsSound(init);
      forall i | 0 <= i < |PendingPaths(cs)|
        ensures SubtreeIn(cs, PendingPaths(cs)[i]) == Some(PendingOrder(cs)[i])
      {
        var p := PendingPaths(cs)[i];
        if i < |block| {
          assert p == [c] + PathOrder(cs[c])[i];
          assert p[1..] == PathOrder(cs[c])[i];
          assert PendingOrder(cs)[i] == Preorder(cs[c])[i];
        } else {
          var j := i - |block|;
          assert p == PendingPaths(init)[j];
          assert PendingOrder(cs)[i] == PendingOrder(init)[j];
          assert cs[p[0]] == init[p[0]];
        }
      }
    }
  }

  /** Every path in the visit order starts below its stack's length. */
  lemma {:induction false} PendingPathsStart(cs: seq<Node>)
    ensures forall i :: 0 <= i < |PendingPaths(cs)| ==> PendingPaths(cs)[i] != [] && PendingPaths(cs)[i][0] < |cs|
  {
    PendingPathsSound(cs);
  }

  /** Every node of the tree is visited: each valid path occurs in the visit order. */
  lemma {:induction false} PathOrderComplete(n: Node, p: seq<nat>) returns (k: nat)
    requires Subtree(n, p).Some?
    ensures k < |PathOrder(n)| && PathOrder(n)[k] == p
    decreases Size(n), 0
  {
    ChildrenSize(n);
    if p == [] {
      k := 0;
    } else {
      var k' := PendingPathsComplete(Children(n), p);
      k := k' + 1;
    }
  }

  lemma {:induction false} PendingPathsComplete(cs: seq<Node>, p: seq<nat>) returns (k: nat)
    requires SubtreeIn(cs, p).Some?
    ensures k < |PendingPaths(cs)| && PendingPaths(cs)[k] == p
    decreases SizeList(cs), 1
  {
    var c := |cs| - 1;
    var block := Prefixed(c, PathOrder(cs[c]));
    assert PendingPaths(cs) == block + PendingPaths(cs[..c]);
    if p[0] == c {
      k := PathOrderComplete(cs[c], p[1..]);
      assert block[k] == [c] + p[1..] == p;
    } else {
      assert cs[..c][p[0]] == cs[p[0]];
      var k' := PendingPathsComplete(cs[..c], p);
      k := |block| + k';
    }
  }

  ghost predicate Distinct(ps: seq<seq<nat>>) {
    forall i, j :: 0 <= i < j < |ps| ==> ps[i] != ps[j]
  }

  /** A path comes after every path that is a proper prefix of it. */
  ghost predicate ParentsFirst(ps: seq<seq<nat>>) {
    forall i, j :: (0 <= i < |ps| && 0 <= j < |ps| && IsProperPrefix(ps[i], ps[j])) ==> i < j
  }

  /** No node is visited twice: the paths of the visit order are pairwise distinct. The
      walk reaches the root first, and a node before every node below it. */
  lemma {:induction false} PathOrderDistinct(n: Node)
    ensures PathOrder(n)[0] == []
    ensures Distinct(PathOrder(n)) && ParentsFirst(PathOrder(n))
    decreases Size(n), 0
  {
    ChildrenSize(n);
    var cs := Children(n);
    PendingPathsDistinct(cs);
    PendingPathsStart(cs);
    RootFirst(PendingPaths(cs));
  }

  lemma {:induction false} PendingPathsDistinct(cs: seq<Node>)
    ensures Distinct(PendingPaths(cs)) && ParentsFirst(PendingPaths(cs))
    decreases SizeList(cs), 1
  {
    if cs != [] {
      var c := |cs| - 1;
      var init := cs[..c];
      var inner := PathOrder(cs[c]);
      PathOrderDistinct(cs[c]);
      PendingPathsDistinct(init);
      PendingPathsStart(init);
      BlocksJoin(c, inner, PendingPaths(init));
    }
  }

  lemma RootFirst(rest: seq<seq<nat>>)
    requires forall i :: 0 <= i < |rest| ==> rest[i] != []
    requires Distinct(rest) && ParentsFirst(rest)
    ensures Distinct([[]] + rest) && ParentsFirst([[]] + rest)
  {
    var ps := [[]] + rest;
    forall i, j | 0 <= i < |ps| && 0 <= j < |ps| && IsProperPrefix(ps[i], ps[j])
      ensures i < j
    {
      if i > 0 && j > 0 {
        assert ps[i] == rest[i - 1] && ps[j] == rest[j - 1];
      }
    }
  }

  /** The paths of the subtree of child `c`, prefixed by `c`, followed by paths that all
      start below `c`. */
  lemma BlocksJoin(c: nat, inner: seq<seq<nat>>, rest: seq<seq<nat>>)
    requires Distinct(inner) && ParentsFirst(inner)
    requires forall i :: 0 <= i < |rest| ==> rest[i] != [] && rest[i][0] < c
    requires Distinct(rest) && ParentsFirst(rest)
    ensures Distinct(Prefixed(c, inner) + rest) && ParentsFirst(Prefixed(c, inner) + rest)
  {
    var block := Prefixed(c, inner);
    var ps := block + rest;
    forall i | 0 <= i < |block| ensures ps[i] == [c] + inner[i] && ps[i][1..] == inner[i] {
    }
    forall i | |block| <= i < |ps| ensures ps[i] == rest[i - |block|] {
    }
    forall i, j | 0 <= i < j < |ps| ensures ps[i] != ps[j] {
      if j < |block| {
        assert ps[i][1..] == inner[i] && ps[j][1..] == inner[j];
      } else if i < |block| {
        assert ps[i][0] == c;
      }
    }
    forall i, j | 0 <= i < |ps| && 0 <= j < |ps| && IsProperPrefix(ps[i], ps[j])
      ensures i < j
    {
      if i < |block| && j < |block| {
        PrefixedProperPrefix(c, inner[i], inner[j]);
      }
    }
  }

  lemma PrefixedProperPrefix(c: nat, p: seq<nat>, q: seq<nat>)
    requires IsProperPrefix([c] + p, [c] + q)
    ensures IsProperPrefix(p, q)
  {
    assert q[..|p|] == ([c] + q)[1..|p| + 1];
  }

  // ---------------------------------------------------------------------------------
  // First pass: names bound to createLoader(...)

  /** A call whose callee is the bare identifier `createLoader`. */
  predicate IsCreateLoaderCall(n: Node) {
    n.Call? && n.expression.Identifier? && n.expression.text == "createLoader"
  }

  /** `const name = createLoader(...)`: the declared identifier. */
  function ExtractVariableName(n: Node): Option<string>
    requires n.VariableDeclaration?
  {
    if n.initializer.None? || !IsCreateLoaderCall(n.initializer.value) then None
    else if !n.declaredName.Identifier? then None
    else Some(n.declaredName.text)
  }

  /** `name = createLoader(...)`: the assigned identifier. */
  function ExtractAssignmentName(n: Node): Option<string>
    requires n.BinaryExpression?
  {
    if n.operatorToken != EqualsToken then None
    else if !IsCreateLoaderCall(n.right) then None
    else if !n.left.Identifier? then None
    else Some(n.left.text)
  }

  /** The shapes that bind `x` in the first pass: `x = createLoader(...)` as a
      declaration with an initializer, or as a plain `=` assignment to the identifier. */
  predicate BindsLoader(n: Node, x: string) {
    || (n.VariableDeclaration? && n.declaredName == Identifier(x) &&
        n.initializer.Some? && IsCreateLoaderCall(n.initializer.value))
    || (n.BinaryExpression? && n.left == Identifier(x) &&
        n.operatorToken == EqualsToken && IsCreateLoaderCall(n.right))
  }

  /** The name the first pass adds for node `n`; `if (name)` skips the empty string. */
  function BindingOf(n: Node): (r: Option<string>)
    ensures forall x :: r == Some(x) <==> x != "" && BindsLoader(n, x)
  {
    var name :=
      if n.VariableDeclaration? then ExtractVariableName(n)
      else if n.BinaryExpression? then ExtractAssignmentName(n)
      else None;
    if name.Some? && name.value != "" then name else None
  }

  /** The names the nodes `nodes` bind. */
  function BoundNames(nodes: seq<Node>): set<string> {
    if nodes == [] then {}
    else
      var last := nodes[|nodes| - 1];
      BoundNames(nodes[..|nodes| - 1]) + (if BindingOf(last).Some? then {BindingOf(last).value} else {})
  }

  /** The loader set of the tree rooted at `root`. */
  function LoaderNames(root: Node): set<string> {
    BoundNames(Preorder(root))
  }

  /** `findLoaderVariables(sourceFile)`. */
  method FindLoaderVariables(root: Node) returns (loaderVariables: set<string>)
    ensures loaderVariables == LoaderNames(root)
  {
    var nodes := TraverseTree(root);
    loaderVariables := {};
    var i := 0;
    while i < |nodes|
      invariant 0 <= i <= |nodes|
      invariant loaderVariables == BoundNames(nodes[..i])
    {
      var node := nodes[i];
      assert nodes[..i + 1][..i] == nodes[..i];
      if node.VariableDeclaration? {
        var name := ExtractVariableName(node);
        if name.Some? && name.value != "" {
          loaderVariables := loaderVariables + {name.value};
        }
      }
      if node.BinaryExpression? {
        var name := ExtractAssignmentName(node);
        if name.Some? && name.value != "" {
          loaderVariables := loaderVariables + {name.value};
        }
      }
      i := i + 1;
    }
    assert nodes[..i] == nodes;
  }

  lemma {:induction false} BoundNamesIff(nodes: seq<Node>, x: string)
    ensures x in BoundNames(nodes) <==> exists i :: 0 <= i < |nodes| && BindingOf(nodes[i]) == Some(x)
    decreases |nodes|
  {
    if nodes != [] {
      var init := nodes[..|nodes| - 1];
      BoundNamesIff(init, x);
      if exists i :: 0 <= i < |nodes| && BindingOf(nodes[i]) == Some(x) {
        var i :| 0 <= i < |nodes| && BindingOf(nodes[i]) == Some(x);
        if i < |init| {
          assert init[i] == nodes[i];
        }
      }
      if exists i :: 0 <= i < |init| && BindingOf(init[i]) == Some(x) {
        var i :| 0 <= i < |init| && BindingOf(init[i]) == Some(x);
        assert nodes[i] == init[i];
      }
    }
  }

  lemma {:induction false} BoundNamesAppend(a: seq<Node>, b: seq<Node>)
    ensures BoundNames(a + b) == BoundNames(a) + BoundNames(b)
    decreases |b|
  {
    if b == [] {
      assert a + b == a;
    } else {
      assert (a + b)[..|a + b| - 1] == a + b[..|b| - 1];
      BoundNamesAppend(a, b[..|b| - 1]);
    }
  }

  /** A name is in the loader set iff some node of the tree, wherever it is, binds it:
      a declaration `x = createLoader(...)` or a plain `=` assignment of such a call to
      the identifier `x`. */
  lemma LoaderNamesIff(root: Node, x: string)
    ensures x in LoaderNames(root) <==>
              exists p :: Subtree(root, p).Some? && BindingOf(Subtree(root, p).value) == Some(x)
  {
    BoundNamesIff(Preorder(root), x);
    PathOrderSound(root);
    if x in LoaderNames(root) {
      var i :| 0 <= i < |Preorder(root)| && BindingOf(Preorder(root)[i]) == Some(x);
      assert Subtree(root, PathOrder(root)[i]) == Some(Preorder(root)[i]);
    }
    if exists p :: Subtree(root, p).Some? && BindingOf(Subtree(root, p).value) == Some(x) {
      var p :| Subtree(root, p).Some? && BindingOf(Subtree(root, p).value) == Some(x);
      var k := PathOrderComplete(root, p);
      assert Preorder(root)[k] == Subtree(root, p).value;
    }
  }

  /** The loader sets of the trees `cs`, together. */
  function LoaderNamesOfTrees(cs: seq<Node>): set<string> {
    if cs == [] then {} else LoaderNamesOfTrees(cs[..|cs| - 1]) + LoaderNames(cs[|cs| - 1])
  }

  lemma {:induction false} LoaderNamesOfTreesAppend(a: seq<Node>, b: seq<Node>)
    ensures LoaderNamesOfTrees(a + b) == LoaderNamesOfTrees(a) + LoaderNamesOfTrees(b)
    decreases |b|
  {
    if b == [] {
      assert a + b == a;
    } else {
      assert (a + b)[..|a + b| - 1] == a + b[..|b| - 1];
      LoaderNamesOfTreesAppend(a, b[..|b| - 1]);
    }
  }

  lemma {:induction false} PendingBoundNames(cs: seq<Node>)
    ensures BoundNames(PendingOrder(cs)) == LoaderNamesOfTrees(cs)
    decreases |cs|
  {
    if cs != [] {
      var init := cs[..|cs| - 1];
      PendingBoundNames(init);
      BoundNamesAppend(Preorder(cs[|cs| - 1]), PendingOrder(init));
    }
  }

  /** The loader set is flow-insensitive: the statements of a file contribute their
      bindings independently of their order, so a binding after a call counts for it. */
  lemma LoaderNamesOfOther(cs: seq<Node>)
    ensures LoaderNames(Other(cs)) == LoaderNamesOfTrees(cs)
  {
    assert Preorder(Other(cs)) == [Other(cs)] + PendingOrder(cs);
    BoundNamesAppend([Other(cs)], PendingOrder(cs));
    assert BindingOf(Other(cs)).None?;
    assert [Other(cs)][..0] == [];
    assert BoundNames([Other(cs)]) == {};
    PendingBoundNames(cs);
  }

  /** The loader set is flow-insensitive: the statements of a file contribute their
      bindings independently of their order, so a binding after a call counts for it. */
  lemma LoaderNamesReorder(a: seq<Node>, b: seq<Node>)
    ensures LoaderNames(Other(a + b)) == LoaderNames(Other(b + a))
    ensures LoaderNames(Other(a + b)) == LoaderNamesOfTrees(a) + LoaderNamesOfTrees(b)
  {
    LoaderNamesOfOther(a + b);
    LoaderNamesOfOther(b + a);
    LoaderNamesOfTreesAppend(a, b);
    LoaderNamesOfTreesAppend(b, a);
  }

  // ---------------------------------------------------------------------------------
  // Second pass: analysis of one call

  datatype KeyType = StringType | NumberType | BoolType | JsonType | CustomType

  /** The value-type vocabulary of a loader. */
  function KeyTypeNamed(name: string): Option<KeyType> {
    if name == "string" then Some(StringType)
    else if name == "number" then Some(NumberType)
    else if name == "bool" then Some(BoolType)
    else if name == "json" then Some(JsonType)
    else if name == "custom" then Some(CustomType)
    else None
  }

  /** `isLoaderIdentifier(expr, ids)`. */
  predicate IsLoaderIdentifier(e: Node, ids: set<string>) {
    match e
    case Identifier(t) => t in ids
    case PropertyAccess(inner, _) => IsLoaderIdentifier(inner, ids)
    case _ => false
  }

  /** What remains of `e` after stripping its property accesses. */
  function BaseOf(e: Node): (r: Node)
    ensures !r.PropertyAccess?
  {
    if e.PropertyAccess? then BaseOf(e.expression) else e
  }

  /** An expression is a loader identifier iff stripping its property accesses ends at an
      identifier of the set; a call in the chain (as in `f().x`) makes it false. */
  lemma {:induction false} IsLoaderIdentifierIff(e: Node, ids: set<string>)
    ensures IsLoaderIdentifier(e, ids) <==> BaseOf(e).Identifier? && BaseOf(e).text in ids
  {
    if e.PropertyAccess? {
      IsLoaderIdentifierIff(e.expression, ids);
    }
  }

  /** `collectPropertyNames`: the property names along the chain, the outermost first. */
  function CollectPropertyNames(e: Node): seq<string> {
    match e
    case PropertyAccess(inner, name) => [name] + CollectPropertyNames(inner)
    case Call(callee, _) => if callee.PropertyAccess? then CollectPropertyNames(callee) else []
    case _ => []
  }

  /** The type a chain of property names (outermost first) declares: the vocabulary name
      closest to the loader root, that is the one at the highest index. */
  function LoaderType(names: seq<string>): (r: Option<KeyType>)
    ensures r.Some? ==> exists j :: 0 <= j < |names| && KeyTypeNamed(names[j]) == r &&
                          forall j' :: j < j' < |names| ==> KeyTypeNamed(names[j']).None?
    ensures r.None? <==> forall j :: 0 <= j < |names| ==> KeyTypeNamed(names[j]).None?
  {
    if names == [] then None
    else if KeyTypeNamed(names[|names| - 1]).Some? then KeyTypeNamed(names[|names| - 1])
    else
      var r := LoaderType(names[..|names| - 1]);
      assert forall j :: 0 <= j < |names| - 1 ==> names[..|names| - 1][j] == names[j];
      r
  }

  datatype TypeAndFlags = TypeAndFlags(keyType: Option<KeyType>, isHidden: bool, isNullable: bool)

  /** The type and flags `getLoaderTypeAndFlags(e)` returns. */
  function LoaderTypeAndFlags(e: Node): TypeAndFlags {
    var names := CollectPropertyNames(e);
    TypeAndFlags(LoaderType(names), "hidden" in names, "nullable" in names)
  }

  function Reverse<T>(s: seq<T>): (r: seq<T>)
    ensures |r| == |s| && forall i :: 0 <= i < |s| ==> r[i] == s[|s| - 1 - i]
  {
    if s == [] then [] else Reverse(s[1..]) + [s[0]]
  }

  /** `getLoaderTypeAndFlags(expr)`: the reversed scan stops at the first vocabulary
      name, which is the LAST one in collection order. */
  method GetLoaderTypeAndFlags(expr: Node) returns (r: TypeAndFlags)
    ensures r == LoaderTypeAndFlags(expr)
  {
    var propertyNames := CollectPropertyNames(expr);
    var reversed := Reverse(propertyNames);
    var keyType: Option<KeyType> := None;
    var k := 0;
    while k < |reversed|
      invariant 0 <= k <= |reversed|
      invariant keyType.None?
      invariant forall j :: 0 <= j < k ==> KeyTypeNamed(reversed[j]).None?
    {
      var t := KeyTypeNamed(reversed[k]);
      if t.Some? {
        keyType := t;
        break;
      }
      k := k + 1;
    }
    var n := |propertyNames|;
    if keyType.Some? {
      var at := n - 1 - k;
      assert KeyTypeNamed(propertyNames[at]) == keyType;
      assert forall j' :: at < j' < n ==> KeyTypeNamed(propertyNames[j']).None? by {
        forall j' | at < j' < n ensures KeyTypeNamed(propertyNames[j']).None? {
          assert reversed[n - 1 - j'] == propertyNames[j'];
        }
      }
      LoaderTypeUnique(propertyNames, at);
    } else {
      forall j | 0 <= j < n ensures KeyTypeNamed(propertyNames[j]).None? {
        assert reversed[n - 1 - j] == propertyNames[j];
      }
    }
    var isHidden := "hidden" in propertyNames;
    var isNullable := "nullable" in propertyNames;
    r := TypeAndFlags(keyType, isHidden, isNullable);
  }

  lemma LoaderTypeUnique(names: seq<string>, at: nat)
    requires at < |names| && KeyTypeNamed(names[at]).Some?
    requires forall j' :: at < j' < |names| ==> KeyTypeNamed(names[j']).None?
    ensures LoaderType(names) == KeyTypeNamed(names[at])
  {
    var r := LoaderType(names);
    assert r.Some?;
    var j :| 0 <= j < |names| && KeyTypeNamed(names[j]) == r &&
             forall j' :: j < j' < |names| ==> KeyTypeNamed(names[j']).None?;
    if j != at {
      assert false;
    }
  }

  datatype Position = Position(start: nat, end: nat)

  /** A key of a loader file: the text and span of the literal, and the declared type and
      flags. */
  datatype ConfigTsKey = ConfigTsKey(key: string, position: Position, keyType: KeyType, isNullable: bool, isHidden: bool)

  /** `extractKeyFromCallExpression`: the first argument, when it is a string literal. */
  function ExtractKeyFromCallExpression(call: Node, keyType: KeyType, isHidden: bool, isNullable: bool): (r: Option<ConfigTsKey>)
    requires call.Call?
    ensures r.Some? <==> |call.arguments| > 0 && call.arguments[0].StringLiteral?
    ensures r.Some? ==>
              var arg := call.arguments[0];
              r.value == ConfigTsKey(arg.text, Position(arg.start, arg.end), keyType, isNullable, isHidden)
  {
    if |call.arguments| == 0 then None
    else
      var firstArg := call.arguments[0];
      if !firstArg.StringLiteral? then None
      else Some(ConfigTsKey(firstArg.text, Position(firstArg.start, firstArg.end), keyType, isHidden := isHidden, isNullable := isNullable))
  }

  /** `extractFromSimpleCall`: `loader.a.b('K')`, type and flags from the callee chain. */
  function ExtractFromSimpleCall(call: Node, ids: set<string>): Option<ConfigTsKey>
    requires call.Call?
  {
    if !call.expression.PropertyAccess? then None
    else if !IsLoaderIdentifier(call.expression.expression, ids) then None
    else
      var flags := LoaderTypeAndFlags(call.expression);
      if flags.keyType.None? then None
      else ExtractKeyFromCallExpression(call, flags.keyType.value, flags.isHidden, flags.isNullable)
  }

  /** `extractFromChainedCall`: `loader.custom(fn)('K')`, type and flags from the property
      access of the inner call. */
  function ExtractFromChainedCall(call: Node, ids: set<string>): Option<ConfigTsKey>
    requires call.Call?
  {
    if !call.expression.Call? then None
    else if !call.expression.expression.PropertyAccess? then None
    else
      var propAccess := call.expression.expression;
      var isChained := propAccess.expression.PropertyAccess?;
      var loaderExpr := if isChained then propAccess.expression.expression else propAccess.expression;
      if !IsLoaderIdentifier(loaderExpr, ids) then None
      else
        var flags := LoaderTypeAndFlags(propAccess);
        if flags.keyType.None? then None
        else ExtractKeyFromCallExpression(call, flags.keyType.value, flags.isHidden, flags.isNullable)
  }

  /** `tryExtractKey`: the simple form first, then the chained form. */
  function TryExtractKey(call: Node, ids: set<string>): (r: Option<ConfigTsKey>)
    requires call.Call?
    ensures r.Some? ==> |call.arguments| > 0 && call.arguments[0].StringLiteral?
  {
    var simpleKey := ExtractFromSimpleCall(call, ids);
    if simpleKey.Some? then simpleKey else ExtractFromChainedCall(call, ids)
  }

  /** A property access rooted at a loader identifier whose chain names a type. */
  predicate TypedLoaderChain(source: Node, ids: set<string>) {
    source.PropertyAccess? && IsLoaderIdentifier(source, ids) && LoaderTypeAndFlags(source).keyType.Some?
  }

  /** The key a string literal gives with the type and flags of a chain. */
  function KeyOfLiteral(arg: Node, flags: TypeAndFlags): ConfigTsKey
    requires arg.StringLiteral? && flags.keyType.Some?
  {
    ConfigTsKey(arg.text, Position(arg.start, arg.end), flags.keyType.value, flags.isNullable, flags.isHidden)
  }

  /** A call yields a key iff its first argument is a string literal and it is a typed
      loader chain applied to that argument (simple form, `loader.a.b('K')`) or applied to
      the result of such a chain's call (chained form, `loader.custom(fn)('K')`). The key
      is the literal with the type and flags of that chain. */
  lemma TryExtractKeyIff(call: Node, ids: set<string>)
    requires call.Call?
    ensures TryExtractKey(call, ids).Some? <==>
              && |call.arguments| > 0 && call.arguments[0].StringLiteral?
              && (TypedLoaderChain(call.expression, ids) ||
                  (call.expression.Call? && TypedLoaderChain(call.expression.expression, ids)))
    ensures |call.arguments| > 0 && call.arguments[0].StringLiteral? && TypedLoaderChain(call.expression, ids) ==>
              TryExtractKey(call, ids) == Some(KeyOfLiteral(call.arguments[0], LoaderTypeAndFlags(call.expression)))
    ensures |call.arguments| > 0 && call.arguments[0].StringLiteral? &&
            call.expression.Call? && TypedLoaderChain(call.expression.expression, ids) ==>
              TryExtractKey(call, ids) == Some(KeyOfLiteral(call.arguments[0], LoaderTypeAndFlags(call.expression.expression)))
  {
    if call.expression.Call? && call.expression.expression.PropertyAccess? {
      var propAccess := call.expression.expression;
      if propAccess.expression.PropertyAccess? {
        assert IsLoaderIdentifier(propAccess, ids) == IsLoaderIdentifier(propAccess.expression.expression, ids);
      }
    }
  }

  /** The property chain a key's type and flags are read from: the callee of the call
      (simple form) or the callee of the inner call (chained form). */
  ghost predicate KeyFrom(call: Node, ids: set<string>, k: ConfigTsKey, source: Node) {
    && IsLoaderIdentifier(source, ids)
    && source.PropertyAccess?
    && LoaderTypeAndFlags(source) == TypeAndFlags(Some(k.keyType), k.isHidden, k.isNullable)
  }

  /** A key found on a call is the text and span of its first argument, a string
      literal, and the call is rooted at a loader identifier through a property chain
      that names its type: either `call.expression` or, for the chained form,
      `call.expression.expression`. */
  lemma TryExtractKeyShape(call: Node, ids: set<string>)
    requires call.Call? && TryExtractKey(call, ids).Some?
    ensures var k := TryExtractKey(call, ids).value;
            && |call.arguments| > 0
            && call.arguments[0] == StringLiteral(k.key, k.position.start, k.position.end)
            && (KeyFrom(call, ids, k, call.expression) ||
                (call.expression.Call? && KeyFrom(call, ids, k, call.expression.expression)))
  {
    if ExtractFromSimpleCall(call, ids).None? {
      var propAccess := call.expression.expression;
      if propAccess.expression.PropertyAccess? {
        assert IsLoaderIdentifier(propAccess.expression, ids);
      }
    }
  }

  // ---------------------------------------------------------------------------------
  // Second pass: the keys of a file

  /** The keys `tryExtractKey` finds on the call nodes among `nodes`, in order. */
  function Candidates(nodes: seq<Node>, ids: set<string>): seq<ConfigTsKey> {
    if nodes == [] then []
    else
      var last := nodes[|nodes| - 1];
      Candidates(nodes[..|nodes| - 1], ids) +
        (if last.Call? && TryExtractKey(last, ids).Some? then [TryExtractKey(last, ids).value] else [])
  }

  function KeySet(ks: seq<ConfigTsKey>): (r: set<string>)
    ensures forall x :: x in r <==> exists i :: 0 <= i < |ks| && ks[i].key == x
  {
    if ks == [] then {}
    else
      var r := KeySet(ks[..|ks| - 1]) + {ks[|ks| - 1].key};
      assert forall i :: 0 <= i < |ks| - 1 ==> ks[..|ks| - 1][i] == ks[i];
      r
  }

  /** Keeps the first of the keys with the same name. */
  function Dedup(ks: seq<ConfigTsKey>): seq<ConfigTsKey> {
    if ks == [] then []
    else
      var d := Dedup(ks[..|ks| - 1]);
      var last := ks[|ks| - 1];
      if last.key in KeySet(d) then d else d + [last]
  }

  /** The keys `extractConfiguruKeys` returns for the tree rooted at `root`. */
  function ExtractedKeys(root: Node): seq<ConfigTsKey> {
    Dedup(Candidates(Preorder(root), LoaderNames(root)))
  }

  /** What node `nodes[i]` adds to the candidates. */
  function CandidateOf(node: Node, ids: set<string>): seq<ConfigTsKey> {
    if node.Call? && TryExtractKey(node, ids).Some? then [TryExtractKey(node, ids).value] else []
  }

  lemma CandidatesStep(nodes: seq<Node>, i: nat, ids: set<string>)
    requires i < |nodes|
    ensures CandidateOf(nodes[i], ids) == [] ==> Candidates(nodes[..i + 1], ids) == Candidates(nodes[..i], ids)
    ensures CandidateOf(nodes[i], ids) != [] ==>
              Candidates(nodes[..i + 1], ids) == Candidates(nodes[..i], ids) + [TryExtractKey(nodes[i], ids).value]
  {
    assert nodes[..i + 1][..i] == nodes[..i];
    assert Candidates(nodes[..i], ids) + [] == Candidates(nodes[..i], ids);
  }

  lemma DedupAppend(ks: seq<ConfigTsKey>, k: ConfigTsKey)
    ensures Dedup(ks + [k]) == if k.key in KeySet(Dedup(ks)) then Dedup(ks) else Dedup(ks) + [k]
  {
    assert (ks + [k])[..|ks|] == ks;
  }

  lemma KeySetAppend(ks: seq<ConfigTsKey>, k: ConfigTsKey)
    ensures KeySet(ks + [k]) == KeySet(ks) + {k.key}
  {
    assert (ks + [k])[..|ks|] == ks;
  }

  /** What the second pass keeps after `node`: `keys` extended by the node's key when it
      yields one whose name is not yet among them. */
  function Kept(keys: seq<ConfigTsKey>, node: Node, ids: set<string>): seq<ConfigTsKey> {
    if node.Call? && TryExtractKey(node, ids).Some? && TryExtractKey(node, ids).value.key !in KeySet(keys)
    then keys + [TryExtractKey(node, ids).value]
    else keys
  }

  /** Keeping node by node is deduplicating the candidates in visit order. */
  lemma ExtractStep(nodes: seq<Node>, i: nat, ids: set<string>, keys: seq<ConfigTsKey>)
    requires i < |nodes| && keys == Dedup(Candidates(nodes[..i], ids))
    ensures Dedup(Candidates(nodes[..i + 1], ids)) == Kept(keys, nodes[i], ids)
  {
    CandidatesStep(nodes, i, ids);
    var node := nodes[i];
    if node.Call? && TryExtractKey(node, ids).Some? {
      DedupAppend(Candidates(nodes[..i], ids), TryExtractKey(node, ids).value);
    }
  }

  /** The callback `extractConfiguruKeys` hands to `traverseTree`: `seenKeys` mirrors the
      names of `keys`, before and after. */
  method VisitNode(node: Node, ids: set<string>, keys: seq<ConfigTsKey>, seenKeys: set<string>)
    returns (keys': seq<ConfigTsKey>, seenKeys': set<string>)
    requires seenKeys == KeySet(keys)
    ensures keys' == Kept(keys, node, ids) && seenKeys' == KeySet(keys')
  {
    keys', seenKeys' := keys, seenKeys;
    if node.Call? {
      var keyData := TryExtractKey(node, ids);
      if keyData.Some? && keyData.value.key !in seenKeys {
        KeySetAppend(keys, keyData.value);
        keys' := keys + [keyData.value];
        seenKeys' := seenKeys + {keyData.value.key};
      }
    }
  }

  /** `extractConfiguruKeys(sourceText)`, given the parsed tree of `sourceText`. */
  method ExtractConfiguruKeys(root: Node) returns (keys: seq<ConfigTsKey>)
    ensures keys == ExtractedKeys(root)
  {
    var loaderIdentifiers := FindLoaderVariables(root);
    var nodes := TraverseTree(root);
    keys := [];
    var seenKeys: set<string> := {};
    var i := 0;
    while i < |nodes|
      invariant 0 <= i <= |nodes|
      invariant keys == Dedup(Candidates(nodes[..i], loaderIdentifiers))
      invariant seenKeys == KeySet(keys)
    {
      ExtractStep(nodes, i, loaderIdentifiers, keys);
      keys, seenKeys := VisitNode(nodes[i], loaderIdentifiers, keys, seenKeys);
      i := i + 1;
    }
    assert nodes[..i] == nodes;
  }

  ghost predicate DistinctKeys(ks: seq<ConfigTsKey>) {
    forall i, j :: 0 <= i < j < |ks| ==> ks[i].key != ks[j].key
  }

  lemma {:induction false} DedupKeySet(ks: seq<ConfigTsKey>)
    ensures KeySet(Dedup(ks)) == KeySet(ks)
    decreases |ks|
  {
    if ks != [] {
      var init := ks[..|ks| - 1];
      DedupKeySet(init);
      KeySetAppend(init, ks[|ks| - 1]);
      KeySetAppend(Dedup(init), ks[|ks| - 1]);
      assert init + [ks[|ks| - 1]] == ks;
    }
  }

  lemma {:induction false} DedupSubset(ks: seq<ConfigTsKey>)
    ensures forall k :: k in Dedup(ks) ==> k in ks
    decreases |ks|
  {
    if ks != [] {
      var init := ks[..|ks| - 1];
      DedupSubset(init);
      forall k | k in Dedup(init) ensures k in ks {
        assert k in init;
      }
    }
  }

  lemma {:induction false} DedupDistinct(ks: seq<ConfigTsKey>)
    ensures DistinctKeys(Dedup(ks))
    decreases |ks|
  {
    if ks != [] {
      var init := ks[..|ks| - 1];
      DedupDistinct(init);
      var d := Dedup(init);
      var last := ks[|ks| - 1];
      if last.key !in KeySet(d) {
        forall i, j | 0 <= i < j < |d| + 1 ensures (d + [last])[i].key != (d + [last])[j].key {
          if j == |d| {
            assert d[i].key in KeySet(d);
          }
        }
      }
    }
  }

  /** Deduplication keeps one entry per key name, each taken from the input. */
  lemma DedupSpec(ks: seq<ConfigTsKey>)
    ensures DistinctKeys(Dedup(ks))
    ensures KeySet(Dedup(ks)) == KeySet(ks)
    ensures forall k :: k in Dedup(ks) ==> k in ks
  {
    DedupDistinct(ks);
    DedupKeySet(ks);
    DedupSubset(ks);
  }

  /** The first entry with a given name is the one kept. */
  lemma {:induction false} DedupKeepsFirst(ks: seq<ConfigTsKey>, i: nat)
    requires i < |ks|
    requires forall j :: 0 <= j < i ==> ks[j].key != ks[i].key
    ensures ks[i] in Dedup(ks)
    decreases |ks|
  {
    var init := ks[..|ks| - 1];
    if i == |ks| - 1 {
      DedupSpec(init);
      assert ks[i].key !in KeySet(init);
    } else {
      DedupKeepsFirst(init, i);
    }
  }

  lemma {:induction false} CandidatesSound(nodes: seq<Node>, ids: set<string>, k: ConfigTsKey) returns (i: nat)
    requires k in Candidates(nodes, ids)
    ensures i < |nodes| && nodes[i].Call? && TryExtractKey(nodes[i], ids) == Some(k)
    decreases |nodes|
  {
    var init := nodes[..|nodes| - 1];
    if k in Candidates(init, ids) {
      i := CandidatesSound(init, ids, k);
    } else {
      i := |nodes| - 1;
    }
  }

  lemma {:induction false} CandidatesComplete(nodes: seq<Node>, ids: set<string>, i: nat) returns (c: nat)
    requires i < |nodes| && nodes[i].Call? && TryExtractKey(nodes[i], ids).Some?
    ensures c < |Candidates(nodes, ids)| && Candidates(nodes, ids)[c] == TryExtractKey(nodes[i], ids).value
    ensures forall d :: 0 <= d < c ==> Candidates(nodes, ids)[d] in Candidates(nodes[..i], ids)
    decreases |nodes|
  {
    var init := nodes[..|nodes| - 1];
    if i < |nodes| - 1 {
      assert init[i] == nodes[i];
      c := CandidatesComplete(init, ids, i);
      assert init[..i] == nodes[..i];
    } else {
      c := |Candidates(init, ids)|;
      assert init == nodes[..i];
    }
  }

  /** The keys of a file have distinct names. */
  lemma ExtractedKeysDistinct(root: Node)
    ensures DistinctKeys(ExtractedKeys(root))
  {
    DedupSpec(Candidates(Preorder(root), LoaderNames(root)));
  }

  /** Every key reported comes from a call node of the tree, read with the file's loader
      set. */
  lemma ExtractedKeySound(root: Node, k: ConfigTsKey) returns (p: seq<nat>)
    requires k in ExtractedKeys(root)
    ensures Subtree(root, p).Some? && Subtree(root, p).value.Call?
    ensures TryExtractKey(Subtree(root, p).value, LoaderNames(root)) == Some(k)
  {
    var ks := Candidates(Preorder(root), LoaderNames(root));
    DedupSpec(ks);
    var i := CandidatesSound(Preorder(root), LoaderNames(root), k);
    PathOrderSound(root);
    p := PathOrder(root)[i];
  }

  /** Every call node of the tree that yields a key gives a key of that name. */
  lemma ExtractedKeyComplete(root: Node, p: seq<nat>)
    requires Subtree(root, p).Some? && Subtree(root, p).value.Call?
    requires TryExtractKey(Subtree(root, p).value, LoaderNames(root)).Some?
    ensures TryExtractKey(Subtree(root, p).value, LoaderNames(root)).value.key in KeySet(ExtractedKeys(root))
  {
    var ids := LoaderNames(root);
    var k := PathOrderComplete(root, p);
    PathOrderSound(root);
    var c := CandidatesComplete(Preorder(root), ids, k);
    DedupSpec(Candidates(Preorder(root), ids));
  }

  /** Every call of the file whose first argument is a string literal, applied to a typed
      loader chain in the simple or the chained form, has its literal among the extracted
      key names. */
  lemma ExtractedKeyOfLoaderCall(root: Node, p: seq<nat>)
    requires Subtree(root, p).Some? && Subtree(root, p).value.Call?
    requires var call := Subtree(root, p).value;
             && |call.arguments| > 0 && call.arguments[0].StringLiteral?
             && (TypedLoaderChain(call.expression, LoaderNames(root)) ||
                 (call.expression.Call? && TypedLoaderChain(call.expression.expression, LoaderNames(root))))
    ensures Subtree(root, p).value.arguments[0].text in KeySet(ExtractedKeys(root))
  {
    var call := Subtree(root, p).value;
    TryExtractKeyIff(call, LoaderNames(root));
    ExtractedKeyComplete(root, p);
  }

  /** Of several calls with the same key name, the first one in visit order is reported. */
  lemma ExtractedKeyFirstWins(root: Node, i: nat)
    requires i < |Preorder(root)| && Preorder(root)[i].Call?
    requires TryExtractKey(Preorder(root)[i], LoaderNames(root)).Some?
    requires forall j :: 0 <= j < i && Preorder(root)[j].Call? && TryExtractKey(Preorder(root)[j], LoaderNames(root)).Some? ==>
               TryExtractKey(Preorder(root)[j], LoaderNames(root)).value.key != TryExtractKey(Preorder(root)[i], LoaderNames(root)).value.key
    ensures TryExtractKey(Preorder(root)[i], LoaderNames(root)).value in ExtractedKeys(root)
  {
    var nodes := Preorder(root);
    var ids := LoaderNames(root);
    var ks := Candidates(nodes, ids);
    var c := CandidatesComplete(nodes, ids, i);
    forall d | 0 <= d < c ensures ks[d].key != ks[c].key {
      var j := CandidatesSound(nodes[..i], ids, ks[d]);
      assert nodes[..i][j] == nodes[j];
    }
    DedupKeepsFirst(ks, c);
  }

  /** `loader.string.nullable.hidden('DB_URL')` is a hidden, nullable string key, and in
      `loader.string.number('PORT')` the name next to the loader decides the type. */
  lemma SimpleCallExamples()
    ensures var call := Call(PropertyAccess(PropertyAccess(PropertyAccess(Identifier("loader"), "string"), "nullable"), "hidden"),
                             [StringLiteral("DB_URL", 30, 38)]);
            TryExtractKey(call, {"loader"}) == Some(ConfigTsKey("DB_URL", Position(30, 38), StringType, true, true))
    ensures var call := Call(PropertyAccess(PropertyAccess(Identifier("loader"), "string"), "number"), [StringLiteral("PORT", 3, 9)]);
            TryExtractKey(call, {"loader"}) == Some(ConfigTsKey("PORT", Position(3, 9), StringType, false, false))
    ensures var call := Call(PropertyAccess(PropertyAccess(Identifier("other"), "string"), "hidden"), [StringLiteral("A", 0, 3)]);
            TryExtractKey(call, {"loader"}) == None
  {
    var c1 := Call(PropertyAccess(PropertyAccess(PropertyAccess(Identifier("loader"), "string"), "nullable"), "hidden"),
                   [StringLiteral("DB_URL", 30, 38)]);
    assert CollectPropertyNames(c1.expression) == ["hidden", "nullable", "string"];
    LoaderTypeUnique(["hidden", "nullable", "string"], 2);
    var c2 := Call(PropertyAccess(PropertyAccess(Identifier("loader"), "string"), "number"), [StringLiteral("PORT", 3, 9)]);
    assert CollectPropertyNames(c2.expression) == ["number", "string"];
    LoaderTypeUnique(["number", "string"], 1);
  }

  /** `loader.custom(validate)('FOO').nullable()`: the key comes from the middle call
      with the flags of `loader.custom` alone, so it is not nullable; the outer call has
      no argument and yields nothing. */
  lemma ChainedCallExample()
    ensures var inner := Call(Call(PropertyAccess(Identifier("loader"), "custom"), [Identifier("validate")]),
                              [StringLiteral("FOO", 20, 25)]);
            var outer := Call(PropertyAccess(inner, "nullable"), []);
            && TryExtractKey(inner, {"loader"}) == Some(ConfigTsKey("FOO", Position(20, 25), CustomType, false, false))
            && TryExtractKey(outer, {"loader"}) == None
  {
    assert CollectPropertyNames(PropertyAccess(Identifier("loader"), "custom")) == ["custom"];
    LoaderTypeUnique(["custom"], 0);
  }
}
