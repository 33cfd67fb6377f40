/** The JavaScript engine (extension/autofix-ast.js): one pre-order walk over
    the syntax tree that flags three call shapes, renames the constructor of
    `new AbortController(...)` in place, and collects the flagged ids as an
    insertion-ordered set. Parsing and code generation are not modelled: the
    engine is given the tree and returns the tree. */
module AutofixAst {
  import opened Wrappers
  import opened InsertionSet
  import FeatureMap
  import Text

  /** The node shapes the walk distinguishes (`obj` is ESTree's `object`); every other ESTree node type is
      an `OtherNode` with its children in visiting order. */
  datatype Node =
    | Identifier(name: string)
    | PrivateIdentifier(name: string)
    | CallExpression(callee: Node, arguments: seq<Node>)
    | NewExpression(callee: Node, arguments: seq<Node>)
    | MemberExpression(obj: Node, property: Node, computed: bool)
    | OtherNode(kind: string, children: seq<Node>)

  /** `node.name`: defined for identifiers and for private names, where
      `#x` has the name `x`. */
  function NameOf(n: Node): Option<string>
  {
    if n.Identifier? || n.PrivateIdentifier? then Some(n.name) else None
  }

  const StructuredCloneId := "javascript-structuredclone"
  const AbortControllerId := "api-abortcontroller"
  const PromiseAnyId := "javascript-promise-any"
  const ManualName := "ManualAbortController"

  /** A call whose callee is the bare identifier `structuredClone`. */
  predicate IsStructuredCloneCall(n: Node)
  {
    n.CallExpression? && NameOf(n.callee) == Some("structuredClone")
  }

  /** A construction whose callee is the identifier `AbortController`. */
  predicate IsAbortControllerNew(n: Node)
  {
    n.NewExpression? && NameOf(n.callee) == Some("AbortController")
  }

  /** A call whose callee is a member access with object identifier `Promise`
      and property name `any`; the `computed` flag is not looked at. */
  predicate IsPromiseAnyCall(n: Node)
  {
    n.CallExpression? && n.callee.MemberExpression?
    && NameOf(n.callee.property) == Some("any") && NameOf(n.callee.obj) == Some("Promise")
  }

  predicate IsFlagged(n: Node)
  {
    IsStructuredCloneCall(n) || IsAbortControllerNew(n) || IsPromiseAnyCall(n)
  }

  /** The ids the three independent checks of the visitor add at one node, in
      the order of the checks. */
  function NodeIssues(n: Node): seq<string>
  {
    (if IsStructuredCloneCall(n) then [StructuredCloneId] else [])
    + (if IsAbortControllerNew(n) then [AbortControllerId] else [])
    + (if IsPromiseAnyCall(n) then [PromiseAnyId] else [])
  }

  /** The children the walk enters, in ESTree visitor-key order. */
  function Children(n: Node): seq<Node>
  {
    match n
    case Identifier(_) | PrivateIdentifier(_) => []
    case CallExpression(c, args) => [c] + args
    case NewExpression(c, args) => [c] + args
    case MemberExpression(o, p, _) => [o, p]
    case OtherNode(_, kids) => kids
  }

  function WithChildren(n: Node, kids: seq<Node>): Node
    requires |kids| == |Children(n)|
  {
    match n
    case Identifier(_) | PrivateIdentifier(_) => n
    case CallExpression(_, _) => CallExpression(kids[0], kids[1..])
    case NewExpression(_, _) => NewExpression(kids[0], kids[1..])
    case MemberExpression(_, _, computed) => MemberExpression(kids[0], kids[1], computed)
    case OtherNode(k, _) => OtherNode(k, kids)
  }

  function Size(n: Node): (r: nat)
    ensures r >= 1
  {
    match n
    case Identifier(_) | PrivateIdentifier(_) => 1
    case CallExpression(c, args) => 1 + Size(c) + SizeAll(args)
    case NewExpression(c, args) => 1 + Size(c) + SizeAll(args)
    case MemberExpression(o, p, _) => 1 + Size(o) + Size(p)
    case OtherNode(_, kids) => 1 + SizeAll(kids)
  }

  function SizeAll(ns: seq<Node>): nat
  {
    if ns == [] then 0 else Size(ns[0]) + SizeAll(ns[1..])
  }

  // ---------------------------------------------------------------------
  // The specification: what the walk computes, by structural recursion.
  // ---------------------------------------------------------------------

  /** The ids in the order the walk meets them, duplicates kept. */
  function Triggers(n: Node): seq<string>
  {
    NodeIssues(n) +
    match n
    case Identifier(_) | PrivateIdentifier(_) => []
    case CallExpression(c, args) => Triggers(c) + TriggersAll(args)
    case NewExpression(c, args) => Triggers(c) + TriggersAll(args)
    case MemberExpression(o, p, _) => Triggers(o) + Triggers(p)
    case OtherNode(_, kids) => TriggersAll(kids)
  }

  function TriggersAll(ns: seq<Node>): seq<string>
  {
    if ns == [] then [] else Triggers(ns[0]) + TriggersAll(ns[1..])
  }

  /** The tree after the walk. The visitor renames the callee before the walk
      enters it, and the walk leaves an identifier as it is. */
  function Fixed(n: Node): Node
  {
    match n
    case Identifier(_) | PrivateIdentifier(_) => n
    case CallExpression(c, args) => CallExpression(Fixed(c), FixedAll(args))
    case NewExpression(c, args) =>
      NewExpression(if IsAbortControllerNew(n) then c.(name := ManualName) else Fixed(c), FixedAll(args))
    case MemberExpression(o, p, computed) => MemberExpression(Fixed(o), Fixed(p), computed)
    case OtherNode(k, kids) => OtherNode(k, FixedAll(kids))
  }

  function FixedAll(ns: seq<Node>): (r: seq<Node>)
    ensures |r| == |ns|
  {
    if ns == [] then [] else [Fixed(ns[0])] + FixedAll(ns[1..])
  }

  // ---------------------------------------------------------------------
  // The walk itself, as the visitor runs it: enter the node (checks and the
  // in-place rename), then walk the children of the possibly renamed node.
  // ---------------------------------------------------------------------

  /** The node after the visitor's `enter` hook: the callee of
      `new AbortController(...)` renamed in place, every other node as it was. */
  function Visit(n: Node): (v: Node)
    ensures |Children(v)| == |Children(n)|
  {
    if IsAbortControllerNew(n) then NewExpression(n.callee.(name := ManualName), n.arguments) else n
  }

  /** The `enter` hook: the three independent checks, in order, and the rename. */
  method Enter(n: Node, acc: seq<string>) returns (node: Node, issues: seq<string>)
    ensures node == Visit(n)
    ensures issues == AddAll(acc, NodeIssues(n))
  {
    node := n;
    issues := acc;
    if node.CallExpression? && NameOf(node.callee) == Some("structuredClone") {
      issues := Add(issues, "javascript-structuredclone");
    }
    if node.NewExpression? && NameOf(node.callee) == Some("AbortController") {
      issues := Add(issues, "api-abortcontroller");
      node := NewExpression(node.callee.(name := "ManualAbortController"), node.arguments);
    }
    if node.CallExpression? && node.callee.MemberExpression? && NameOf(node.callee.property) == Some("any") {
      if NameOf(node.callee.obj) == Some("Promise") {
        issues := Add(issues, "javascript-promise-any");
      }
    }
    EnterIssues(n, acc);
  }

  /** Walks `n`, adding what it flags to the insertion-ordered set `acc`. */
  method Walk(n: Node, acc: seq<string>) returns (m: Node, acc': seq<string>)
    ensures m == Fixed(n)
    ensures acc' == AddAll(acc, Triggers(n))
    decreases Size(n)
  {
    var node, issues := Enter(n, acc);
    ghost var entered := issues;
    var kids := Children(node);
    var out: seq<Node> := [];
    for i := 0 to |kids|
      invariant out == FixedAll(kids[..i])
      invariant issues == AddAll(entered, TriggersAll(kids[..i]))
    {
      ChildSmaller(n, i);
      var k;
      k, issues := Walk(kids[i], issues);
      WalkStep(entered, kids, i);
      out := out + [k];
    }
    WalkDone(n, acc, kids, out, issues);
    m := WithChildren(node, out);
    acc' := issues;
  }

  lemma WalkDone(n: Node, acc: seq<string>, kids: seq<Node>, out: seq<Node>, issues: seq<string>)
    requires kids == Children(Visit(n))
    requires out == FixedAll(kids[..|kids|])
    requires issues == AddAll(AddAll(acc, NodeIssues(n)), TriggersAll(kids[..|kids|]))
    ensures |out| == |Children(Visit(n))|
    ensures WithChildren(Visit(n), out) == Fixed(n)
    ensures issues == AddAll(acc, Triggers(n))
  {
    assert kids[..|kids|] == kids;
    VisitedChildren(n, out);
    AddAllAppend(acc, NodeIssues(n), TriggersAll(kids));
  }

  lemma WalkStep(entered: seq<string>, kids: seq<Node>, i: nat)
    requires i < |kids|
    ensures AddAll(entered, TriggersAll(kids[..i + 1]))
            == AddAll(AddAll(entered, TriggersAll(kids[..i])), Triggers(kids[i]))
    ensures FixedAll(kids[..i + 1]) == FixedAll(kids[..i]) + [Fixed(kids[i])]
  {
    FixedAllSnoc(kids[..i], kids[i]);
    TriggersAllSnoc(kids[..i], kids[i]);
    assert kids[..i + 1] == kids[..i] + [kids[i]];
    AddAllAppend(entered, TriggersAll(kids[..i]), Triggers(kids[i]));
  }

  /** `applyJSAutofix` on a parsed tree: the rewritten tree and
      `Array.from(issuesFound)`. */
  method ApplyJSAutofix(ast: Node) returns (fixed: Node, issuesFound: seq<string>)
    ensures fixed == Fixed(ast)
    ensures issuesFound == FromSeq(Triggers(ast))
    ensures Distinct(issuesFound)
    ensures forall id :: id in issuesFound <==> id in Triggers(ast)
  {
    fixed, issuesFound := Walk(ast, []);
    FromSeqSpec(Triggers(ast));
  }

  // ---------------------------------------------------------------------
  // Lemmas connecting the walk to its specification.
  // ---------------------------------------------------------------------

  lemma EnterIssues(n: Node, acc: seq<string>)
    ensures AddAll(acc, NodeIssues(n))
            == (var a1 := if IsStructuredCloneCall(n) then Add(acc, StructuredCloneId) else acc;
                var a2 := if IsAbortControllerNew(n) then Add(a1, AbortControllerId) else a1;
                if IsPromiseAnyCall(n) then Add(a2, PromiseAnyId) else a2)
  {
    var s1: seq<string> := if IsStructuredCloneCall(n) then [StructuredCloneId] else [];
    var s2: seq<string> := if IsAbortControllerNew(n) then [AbortControllerId] else [];
    var s3: seq<string> := if IsPromiseAnyCall(n) then [PromiseAnyId] else [];
    AddAllAppend(acc, s1 + s2, s3);
    AddAllAppend(acc, s1, s2);
  }

  /** The children of the entered node trigger and rewrite as the children of
      the original node do; the renamed callee is a leaf. */
  lemma VisitedChildren(n: Node, out: seq<Node>)
    requires out == FixedAll(Children(Visit(n)))
    ensures NodeIssues(n) + TriggersAll(Children(Visit(n))) == Triggers(n)
    ensures WithChildren(Visit(n), out) == Fixed(n)
  {
    VisitedTriggers(n);
    VisitedFixed(n, out);
  }

  lemma VisitedTriggers(n: Node)
    ensures NodeIssues(n) + TriggersAll(Children(Visit(n))) == Triggers(n)
  {
    match n
    case Identifier(_) | PrivateIdentifier(_) =>
    case CallExpression(c, args) =>
      CallTriggers(c, args);
    case NewExpression(c, args) =>
      NewTriggers(c, args);
    case MemberExpression(o, p, computed) =>
      MemberTriggers(o, p, computed);
    case OtherNode(_, _) =>
  }

  lemma CallTriggers(c: Node, args: seq<Node>)
    ensures NodeIssues(CallExpression(c, args)) + TriggersAll([c] + args) == Triggers(CallExpression(c, args))
  {
    TriggersAllCons(c, args);
  }

  lemma NewTriggers(c: Node, args: seq<Node>)
    ensures var n := NewExpression(c, args);
            NodeIssues(n) + TriggersAll(Children(Visit(n))) == Triggers(n)
  {
    var n := NewExpression(c, args);
    var c' := Visit(n).callee;
    assert Children(Visit(n)) == [c'] + args;
    TriggersAllCons(c', args);
    if IsAbortControllerNew(n) {
      assert Triggers(c') == [] == Triggers(c);
    }
  }

  lemma MemberTriggers(o: Node, p: Node, computed: bool)
    ensures var n := MemberExpression(o, p, computed);
            NodeIssues(n) + TriggersAll([o, p]) == Triggers(n)
  {
    TriggersPair(o, p);
  }

  lemma TriggersPair(o: Node, p: Node)
    ensures TriggersAll([o, p]) == Triggers(o) + Triggers(p)
  {
    var ps := [o, p];
    assert ps[0] == o && ps[1..] == [p];
    assert [p][1..] == [];
    assert TriggersAll([p]) == Triggers(p) + [];
  }

  lemma VisitedFixed(n: Node, out: seq<Node>)
    requires out == FixedAll(Children(Visit(n)))
    ensures WithChildren(Visit(n), out) == Fixed(n)
  {
    match n
    case Identifier(_) | PrivateIdentifier(_) =>
    case CallExpression(c, args) =>
      FixedAllCons(c, args);
    case NewExpression(c, args) =>
      FixedAllCons(Visit(n).callee, args);
    case MemberExpression(o, p, _) =>
      FixedAllCons(o, [p]);
      FixedAllCons(p, []);
    case OtherNode(_, _) =>
  }

  lemma TriggersAllCons(c: Node, rest: seq<Node>)
    ensures TriggersAll([c] + rest) == Triggers(c) + TriggersAll(rest)
  {
    assert ([c] + rest)[0] == c && ([c] + rest)[1..] == rest;
  }

  lemma FixedAllCons(c: Node, rest: seq<Node>)
    ensures FixedAll([c] + rest) == [Fixed(c)] + FixedAll(rest)
  {
    assert ([c] + rest)[0] == c && ([c] + rest)[1..] == rest;
  }

  lemma SizeAllElement(ns: seq<Node>, i: nat)
    requires i < |ns|
    ensures Size(ns[i]) <= SizeAll(ns)
  {
    if i > 0 {
      SizeAllElement(ns[1..], i - 1);
    }
  }

  lemma ChildSmaller(n: Node, i: nat)
    requires i < |Children(Visit(n))|
    ensures Size(Children(Visit(n))[i]) < Size(n)
  {
    match n
    case Identifier(_) | PrivateIdentifier(_) =>
    case CallExpression(c, args) =>
      if i > 0 { SizeAllElement(args, i - 1); }
    case NewExpression(c, args) =>
      if i > 0 { SizeAllElement(args, i - 1); }
    case MemberExpression(o, p, _) =>
    case OtherNode(_, kids) =>
      SizeAllElement(kids, i);
  }

  lemma {:induction false} TriggersAllSnoc(ns: seq<Node>, n: Node)
    ensures TriggersAll(ns + [n]) == TriggersAll(ns) + Triggers(n)
    decreases |ns|
  {
    if ns == [] {
      assert [] + [n] == [n];
      assert TriggersAll([n]) == Triggers(n) + TriggersAll([]);
    } else {
      var m := ns + [n];
      assert m[0] == ns[0] && m[1..] == ns[1..] + [n];
      TriggersAllSnoc(ns[1..], n);
      assert TriggersAll(m) == Triggers(ns[0]) + (TriggersAll(ns[1..]) + Triggers(n));
      Text.AppendAssoc(Triggers(ns[0]), TriggersAll(ns[1..]), Triggers(n));
    }
  }

  lemma {:induction false} FixedAllSnoc(ns: seq<Node>, n: Node)
    ensures FixedAll(ns + [n]) == FixedAll(ns) + [Fixed(n)]
    decreases |ns|
  {
    if ns == [] {
      assert [] + [n] == [n];
    } else {
      assert (ns + [n])[0] == ns[0] && (ns + [n])[1..] == ns[1..] + [n];
      FixedAllSnoc(ns[1..], n);
    }
  }

  // ---------------------------------------------------------------------
  // Properties of the specification.
  // ---------------------------------------------------------------------

  /** Some node of the tree satisfies `p`. */
  predicate Occurs(n: Node, p: Node -> bool)
  {
    p(n) ||
    match n
    case Identifier(_) | PrivateIdentifier(_) => false
    case CallExpression(c, args) => Occurs(c, p) || OccursAll(args, p)
    case NewExpression(c, args) => Occurs(c, p) || OccursAll(args, p)
    case MemberExpression(o, q, _) => Occurs(o, p) || Occurs(q, p)
    case OtherNode(_, kids) => OccursAll(kids, p)
  }

  predicate OccursAll(ns: seq<Node>, p: Node -> bool)
  {
    ns != [] && (Occurs(ns[0], p) || OccursAll(ns[1..], p))
  }

  /** An id is reported exactly when some node has the shape that adds it. */
  lemma {:induction false} TriggersIff(n: Node, id: string, p: Node -> bool)
    requires forall m :: id in NodeIssues(m) <==> p(m)
    ensures id in Triggers(n) <==> Occurs(n, p)
  {
    match n
    case Identifier(_) | PrivateIdentifier(_) =>
    case CallExpression(c, args) =>
      TriggersIff(c, id, p);
      TriggersAllIff(args, id, p);
    case NewExpression(c, args) =>
      TriggersIff(c, id, p);
      TriggersAllIff(args, id, p);
    case MemberExpression(o, q, _) =>
      TriggersIff(o, id, p);
      TriggersIff(q, id, p);
    case OtherNode(_, kids) =>
      TriggersAllIff(kids, id, p);
  }

  lemma {:induction false} TriggersAllIff(ns: seq<Node>, id: string, p: Node -> bool)
    requires forall m :: id in NodeIssues(m) <==> p(m)
    ensures id in TriggersAll(ns) <==> OccursAll(ns, p)
    decreases ns
  {
    if ns != [] {
      TriggersIff(ns[0], id, p);
      TriggersAllIff(ns[1..], id, p);
    }
  }

  /** Detection is complete and sound, id by id: `structuredClone` is reported
      exactly for a call of the bare identifier, `api-abortcontroller` exactly
      for `new AbortController(...)`, `javascript-promise-any` exactly for a
      call of the member `Promise.any`. */
  lemma DetectsExactly(ast: Node)
    ensures StructuredCloneId in Triggers(ast) <==> Occurs(ast, IsStructuredCloneCall)
    ensures AbortControllerId in Triggers(ast) <==> Occurs(ast, IsAbortControllerNew)
    ensures PromiseAnyId in Triggers(ast) <==> Occurs(ast, IsPromiseAnyCall)
  {
    TriggersIff(ast, StructuredCloneId, IsStructuredCloneCall);
    TriggersIff(ast, AbortControllerId, IsAbortControllerNew);
    TriggersIff(ast, PromiseAnyId, IsPromiseAnyCall);
  }

  /** Only the three JavaScript ids are ever reported. */
  lemma {:induction false} TriggersAreJsIds(n: Node)
    ensures forall id :: id in Triggers(n) ==> id in [StructuredCloneId, AbortControllerId, PromiseAnyId]
  {
    match n
    case Identifier(_) | PrivateIdentifier(_) =>
    case CallExpression(c, args) =>
      TriggersAreJsIds(c);
      TriggersAllAreJsIds(args);
    case NewExpression(c, args) =>
      TriggersAreJsIds(c);
      TriggersAllAreJsIds(args);
    case MemberExpression(o, q, _) =>
      TriggersAreJsIds(o);
      TriggersAreJsIds(q);
    case OtherNode(_, kids) =>
      TriggersAllAreJsIds(kids);
  }

  lemma {:induction false} TriggersAllAreJsIds(ns: seq<Node>)
    ensures forall id :: id in TriggersAll(ns) ==> id in [StructuredCloneId, AbortControllerId, PromiseAnyId]
    decreases ns
  {
    if ns != [] {
      TriggersAreJsIds(ns[0]);
      TriggersAllAreJsIds(ns[1..]);
    }
  }

  /** Every id the engine reports is a key of the feature registry whose
      language is JS. */
  lemma ReportedIdsAreRegistered(ast: Node)
    ensures forall id :: id in FromSeq(Triggers(ast)) ==>
              FeatureMap.Lookup(id).Some? && FeatureMap.Lookup(id).value.language == FeatureMap.JS
  {
    FromSeqSpec(Triggers(ast));
    TriggersAreJsIds(ast);
    forall id | id in FromSeq(Triggers(ast))
      ensures FeatureMap.Lookup(id).Some? && FeatureMap.Lookup(id).value.language == FeatureMap.JS
    {
      JsIdRegistered(id);
    }
  }

  lemma JsIdRegistered(id: string)
    requires id in [StructuredCloneId, AbortControllerId, PromiseAnyId]
    ensures FeatureMap.Lookup(id).Some? && FeatureMap.Lookup(id).value.language == FeatureMap.JS
  {
    if id == StructuredCloneId {
      FeatureMap.RegistryLookup(5);
    } else if id == AbortControllerId {
      FeatureMap.RegistryLookup(6);
    } else {
      FeatureMap.RegistryLookup(7);
    }
  }

  /** A tree without any of the three shapes reports nothing, and a tree
      without `new AbortController(...)` comes back unchanged; both ways. */
  lemma {:induction false} Untouched(n: Node)
    ensures Triggers(n) == [] <==> !Occurs(n, IsFlagged)
    ensures Fixed(n) == n <==> !Occurs(n, IsAbortControllerNew)
  {
    DetectsExactly(n);
    TriggersIff(n, StructuredCloneId, IsStructuredCloneCall);
    if Triggers(n) == [] {
      NotOccursAny(n);
    } else {
      TriggersAreJsIds(n);
      var id := Triggers(n)[0];
      assert id in Triggers(n);
      if id == StructuredCloneId { OccursWeaken(n, IsStructuredCloneCall, IsFlagged); }
      else if id == AbortControllerId { OccursWeaken(n, IsAbortControllerNew, IsFlagged); }
      else { OccursWeaken(n, IsPromiseAnyCall, IsFlagged); }
    }
    FixedUnchanged(n);
    NoConstructionAfterFix(n);
    if Occurs(n, IsAbortControllerNew) {
      assert Fixed(n) != n;
    }
  }

  lemma NotOccursAny(n: Node)
    requires Triggers(n) == []
    ensures !Occurs(n, IsFlagged)
  {
    DetectsExactly(n);
    if Occurs(n, IsFlagged) {
      OccursSplit(n);
      assert false;
    }
  }

  lemma {:induction false} OccursWeaken(n: Node, p: Node -> bool, q: Node -> bool)
    requires forall m :: p(m) ==> q(m)
    requires Occurs(n, p)
    ensures Occurs(n, q)
  {
    if !p(n) {
      match n
      case Identifier(_) | PrivateIdentifier(_) =>
      case CallExpression(c, args) =>
        if Occurs(c, p) { OccursWeaken(c, p, q); } else { OccursAllWeaken(args, p, q); }
      case NewExpression(c, args) =>
        if Occurs(c, p) { OccursWeaken(c, p, q); } else { OccursAllWeaken(args, p, q); }
      case MemberExpression(o, r, _) =>
        if Occurs(o, p) { OccursWeaken(o, p, q); } else { OccursWeaken(r, p, q); }
      case OtherNode(_, kids) =>
        OccursAllWeaken(kids, p, q);
    }
  }

  lemma {:induction false} OccursAllWeaken(ns: seq<Node>, p: Node -> bool, q: Node -> bool)
    requires forall m :: p(m) ==> q(m)
    requires OccursAll(ns, p)
    ensures OccursAll(ns, q)
    decreases ns
  {
    if Occurs(ns[0], p) { OccursWeaken(ns[0], p, q); } else { OccursAllWeaken(ns[1..], p, q); }
  }

  /** A flagged node is one of the three shapes. */
  lemma {:induction false} OccursSplit(n: Node)
    requires Occurs(n, IsFlagged)
    ensures Occurs(n, IsStructuredCloneCall) || Occurs(n, IsAbortControllerNew) || Occurs(n, IsPromiseAnyCall)
  {
    if !IsFlagged(n) {
      match n
      case Identifier(_) | PrivateIdentifier(_) =>
      case CallExpression(c, args) =>
        if Occurs(c, IsFlagged) { OccursSplit(c); } else { OccursAllSplit(args); }
      case NewExpression(c, args) =>
        if Occurs(c, IsFlagged) { OccursSplit(c); } else { OccursAllSplit(args); }
      case MemberExpression(o, r, _) =>
        if Occurs(o, IsFlagged) { OccursSplit(o); } else { OccursSplit(r); }
      case OtherNode(_, kids) =>
        OccursAllSplit(kids);
    }
  }

  lemma {:induction false} OccursAllSplit(ns: seq<Node>)
    requires OccursAll(ns, IsFlagged)
    ensures OccursAll(ns, IsStructuredCloneCall) || OccursAll(ns, IsAbortControllerNew) || OccursAll(ns, IsPromiseAnyCall)
    decreases ns
  {
    if Occurs(ns[0], IsFlagged) { OccursSplit(ns[0]); } else { OccursAllSplit(ns[1..]); }
  }

  /** Without `new AbortController(...)` the walk changes nothing. */
  lemma {:induction false} FixedUnchanged(n: Node)
    ensures !Occurs(n, IsAbortControllerNew) ==> Fixed(n) == n
  {
    match n
    case Identifier(_) | PrivateIdentifier(_) =>
    case CallExpression(c, args) =>
      FixedUnchanged(c);
      FixedAllUnchanged(args);
    case NewExpression(c, args) =>
      FixedUnchanged(c);
      FixedAllUnchanged(args);
    case MemberExpression(o, q, _) =>
      FixedUnchanged(o);
      FixedUnchanged(q);
    case OtherNode(_, kids) =>
      FixedAllUnchanged(kids);
  }

  lemma {:induction false} FixedAllUnchanged(ns: seq<Node>)
    ensures !OccursAll(ns, IsAbortControllerNew) ==> FixedAll(ns) == ns
    decreases ns
  {
    if ns != [] {
      FixedUnchanged(ns[0]);
      FixedAllUnchanged(ns[1..]);
      assert ns == [ns[0]] + ns[1..];
    }
  }

  /** The walk maps identifiers to themselves and everything else to a node
      of the same kind. */
  lemma FixedKeepsKind(n: Node)
    ensures NameOf(Fixed(n)) == NameOf(n)
    ensures Fixed(n).CallExpression? == n.CallExpression?
    ensures Fixed(n).MemberExpression? == n.MemberExpression?
  {
  }

  /** After the walk no `new AbortController(...)` is left. */
  lemma {:induction false} NoConstructionAfterFix(n: Node)
    ensures !Occurs(Fixed(n), IsAbortControllerNew)
  {
    match n
    case Identifier(_) | PrivateIdentifier(_) =>
    case CallExpression(c, args) =>
      NoConstructionAfterFix(c);
      NoConstructionAfterFixAll(args);
    case NewExpression(c, args) =>
      FixedKeepsKind(c);
      NoConstructionAfterFix(c);
      NoConstructionAfterFixAll(args);
    case MemberExpression(o, q, _) =>
      NoConstructionAfterFix(o);
      NoConstructionAfterFix(q);
    case OtherNode(_, kids) =>
      NoConstructionAfterFixAll(kids);
  }

  lemma {:induction false} NoConstructionAfterFixAll(ns: seq<Node>)
    ensures !OccursAll(FixedAll(ns), IsAbortControllerNew)
    decreases ns
  {
    if ns != [] {
      NoConstructionAfterFix(ns[0]);
      NoConstructionAfterFixAll(ns[1..]);
      assert FixedAll(ns)[0] == Fixed(ns[0]) && FixedAll(ns)[1..] == FixedAll(ns[1..]);
    }
  }

  /** `b` is `a` except that the callee of some constructions has been
      changed from `AbortController` to `ManualAbortController`. */
  predicate RenamedOnly(a: Node, b: Node)
  {
    match a
    case Identifier(_) | PrivateIdentifier(_) => b == a
    case CallExpression(c, args) =>
      b.CallExpression? && RenamedOnly(c, b.callee) && RenamedOnlyAll(args, b.arguments)
    case NewExpression(c, args) =>
      b.NewExpression? && RenamedOnlyAll(args, b.arguments)
      && (RenamedOnly(c, b.callee)
          || (NameOf(c) == Some("AbortController") && b.callee == c.(name := "ManualAbortController")))
    case MemberExpression(o, p, computed) =>
      b.MemberExpression? && b.computed == computed && RenamedOnly(o, b.obj) && RenamedOnly(p, b.property)
    case OtherNode(k, kids) =>
      b.OtherNode? && b.kind == k && RenamedOnlyAll(kids, b.children)
  }

  predicate RenamedOnlyAll(ns: seq<Node>, bs: seq<Node>)
  {
    |ns| == |bs| && (ns != [] ==> RenamedOnly(ns[0], bs[0]) && RenamedOnlyAll(ns[1..], bs[1..]))
  }

  /** The rewritten tree is the unique tree that differs from the input only
      by such renames and has no `new AbortController(...)` left: the
      walk renames every such callee and modifies no other node. */
  lemma {:induction false} FixedCharacterized(n: Node, b: Node)
    ensures RenamedOnly(n, Fixed(n))
    ensures RenamedOnly(n, b) && !Occurs(b, IsAbortControllerNew) ==> b == Fixed(n)
  {
    match n
    case Identifier(_) | PrivateIdentifier(_) =>
    case CallExpression(c, args) =>
      FixedCharacterized(c, if b.CallExpression? then b.callee else c);
      FixedAllCharacterized(args, if b.CallExpression? then b.arguments else args);
    case NewExpression(c, args) =>
      FixedCharacterized(c, if b.NewExpression? then b.callee else c);
      FixedAllCharacterized(args, if b.NewExpression? then b.arguments else args);
    case MemberExpression(o, p, _) =>
      FixedCharacterized(o, if b.MemberExpression? then b.obj else o);
      FixedCharacterized(p, if b.MemberExpression? then b.property else p);
    case OtherNode(_, kids) =>
      FixedAllCharacterized(kids, if b.OtherNode? then b.children else kids);
  }

  lemma {:induction false} FixedAllCharacterized(ns: seq<Node>, bs: seq<Node>)
    ensures RenamedOnlyAll(ns, FixedAll(ns))
    ensures RenamedOnlyAll(ns, bs) && !OccursAll(bs, IsAbortControllerNew) ==> bs == FixedAll(ns)
    decreases ns
  {
    if ns != [] {
      var b0 := if bs != [] then bs[0] else ns[0];
      var bt := if bs != [] then bs[1..] else ns[1..];
      FixedCharacterized(ns[0], b0);
      FixedAllCharacterized(ns[1..], bt);
      assert FixedAll(ns)[0] == Fixed(ns[0]) && FixedAll(ns)[1..] == FixedAll(ns[1..]);
      if bs != [] {
        assert bs == [bs[0]] + bs[1..];
      }
    }
  }

  /** A second run changes nothing more. */
  lemma FixedIdempotent(n: Node)
    ensures Fixed(Fixed(n)) == Fixed(n)
  {
    NoConstructionAfterFix(n);
    FixedUnchanged(Fixed(n));
  }

  /** At one node, the rewrite removes the `new AbortController` trigger and
      keeps the other two. */
  lemma NodeIssuesAfterFix(n: Node)
    ensures NodeIssues(Fixed(n)) == Without(NodeIssues(n), AbortControllerId)
  {
    match n
    case Identifier(_) | PrivateIdentifier(_) =>
    case CallExpression(c, args) =>
      FixedKeepsKind(c);
      if c.MemberExpression? {
        FixedKeepsKind(c.obj);
        FixedKeepsKind(c.property);
      }
    case NewExpression(c, args) =>
      FixedKeepsKind(c);
    case MemberExpression(o, q, _) =>
    case OtherNode(_, kids) =>
  }

  /** On the rewritten tree the walk meets exactly the ids it met before,
      except `api-abortcontroller`: the rename removes that trigger, the two
      flag-only checks still fire. */
  lemma {:induction false} SecondPassTriggers(n: Node)
    ensures Triggers(Fixed(n)) == Without(Triggers(n), AbortControllerId)
  {
    NodeIssuesAfterFix(n);
    var w := AbortControllerId;
    match n
    case Identifier(_) | PrivateIdentifier(_) =>
    case CallExpression(c, args) =>
      SecondPassTriggers(c);
      SecondPassTriggersAll(args);
      WithoutAppend(Triggers(c), TriggersAll(args), w);
      WithoutAppend(NodeIssues(n), Triggers(c) + TriggersAll(args), w);
      assert Triggers(Fixed(n)) == NodeIssues(Fixed(n)) + (Triggers(Fixed(c)) + TriggersAll(FixedAll(args)));
    case NewExpression(c, args) =>
      var c' := Fixed(n).callee;
      if IsAbortControllerNew(n) {
        assert Triggers(c') == [] && Triggers(c) == [];
      } else {
        SecondPassTriggers(c);
      }
      assert Triggers(c') == Without(Triggers(c), w);
      SecondPassTriggersAll(args);
      WithoutAppend(Triggers(c), TriggersAll(args), w);
      WithoutAppend(NodeIssues(n), Triggers(c) + TriggersAll(args), w);
      assert Triggers(Fixed(n)) == NodeIssues(Fixed(n)) + (Triggers(c') + TriggersAll(FixedAll(args)));
    case MemberExpression(o, q, _) =>
      SecondPassTriggers(o);
      SecondPassTriggers(q);
      WithoutAppend(Triggers(o), Triggers(q), w);
      WithoutAppend(NodeIssues(n), Triggers(o) + Triggers(q), w);
      assert Triggers(Fixed(n)) == NodeIssues(Fixed(n)) + (Triggers(Fixed(o)) + Triggers(Fixed(q)));
    case OtherNode(_, kids) =>
      SecondPassTriggersAll(kids);
      WithoutAppend(NodeIssues(n), TriggersAll(kids), w);
      assert Triggers(Fixed(n)) == NodeIssues(Fixed(n)) + TriggersAll(FixedAll(kids));
  }

  lemma {:induction false} SecondPassTriggersAll(ns: seq<Node>)
    ensures TriggersAll(FixedAll(ns)) == Without(TriggersAll(ns), AbortControllerId)
    decreases ns
  {
    if ns != [] {
      SecondPassTriggers(ns[0]);
      SecondPassTriggersAll(ns[1..]);
      assert FixedAll(ns)[0] == Fixed(ns[0]) && FixedAll(ns)[1..] == FixedAll(ns[1..]);
      WithoutAppend(Triggers(ns[0]), TriggersAll(ns[1..]), AbortControllerId);
    }
  }

  /** Running the engine on its own output: the tree is a fixpoint, and the
      ids reported are the first run's minus `api-abortcontroller`, in the
      same order. */
  lemma RunTwice(ast: Node)
    ensures Fixed(Fixed(ast)) == Fixed(ast)
    ensures FromSeq(Triggers(Fixed(ast))) == Without(FromSeq(Triggers(ast)), AbortControllerId)
    ensures AbortControllerId !in FromSeq(Triggers(Fixed(ast)))
  {
    FixedIdempotent(ast);
    SecondPassTriggers(ast);
    FromSeqWithout(Triggers(ast), AbortControllerId);
  }

  // A program that uses all three features, in the shape of
  // test-originals/comprehensive-unsafe.js (lines 5, 12 and 23).
  const Controller := NewExpression(Identifier("AbortController"), [])
  const Race := CallExpression(MemberExpression(Identifier("Promise"), Identifier("any"), false),
                               [OtherNode("ArrayExpression", [])])
  const Clone := CallExpression(Identifier("structuredClone"), [Identifier("originalData")])
  const Comprehensive := OtherNode("Program", [Controller, Race, Clone])

  /** Each of the three ids is reported once, in the order of first use. */
  lemma ComprehensiveReportsEachOnce()
    ensures FromSeq(Triggers(Comprehensive)) == [AbortControllerId, PromiseAnyId, StructuredCloneId]
  {
    var ids := [AbortControllerId, PromiseAnyId, StructuredCloneId];
    ComprehensiveTriggers();
    assert |AbortControllerId| == 19 && |PromiseAnyId| == 22 && |StructuredCloneId| == 26;
    AddAllFresh([], ids);
    assert [] + ids == ids;
  }

  lemma ComprehensiveTriggers()
    ensures Triggers(Comprehensive) == [AbortControllerId, PromiseAnyId, StructuredCloneId]
  {
    ExampleTriggers();
    TriggersTriple(Controller, Race, Clone);
    assert NodeIssues(Comprehensive) == [];
  }

  lemma TriggersTriple(a: Node, b: Node, c: Node)
    ensures TriggersAll([a, b, c]) == Triggers(a) + Triggers(b) + Triggers(c)
  {
    var ns := [a, b, c];
    assert ns[0] == a && ns[1..] == [b, c];
    TriggersPair(b, c);
  }

  /** `Promise.#any()` inside a class with a private method `#any`: the
      property is a private name whose `name` is `any`, so the call is flagged
      and no other check fires. */
  lemma PrivateAnyFlagged(args: seq<Node>)
    ensures NodeIssues(CallExpression(MemberExpression(Identifier("Promise"), PrivateIdentifier("any"), false), args))
            == [PromiseAnyId]
  {
    var call := CallExpression(MemberExpression(Identifier("Promise"), PrivateIdentifier("any"), false), args);
    assert IsPromiseAnyCall(call);
    assert !IsStructuredCloneCall(call) && !IsAbortControllerNew(call);
  }

  /** Each statement of the example reports its own feature alone. */
  lemma ExampleTriggers()
    ensures Triggers(Controller) == [AbortControllerId]
    ensures Triggers(Race) == [PromiseAnyId]
    ensures Triggers(Clone) == [StructuredCloneId]
  {
    ControllerTriggers();
    RaceTriggers();
    CloneTriggers();
  }

  lemma ControllerTriggers()
    ensures Triggers(Controller) == [AbortControllerId]
  {
    assert NodeIssues(Controller) == [AbortControllerId];
  }

  lemma RaceTriggers()
    ensures Triggers(Race) == [PromiseAnyId]
  {
    var callee, args := Race.callee, Race.arguments;
    assert Triggers(callee.obj) == [] && Triggers(callee.property) == [];
    assert Triggers(callee) == NodeIssues(callee) + (Triggers(callee.obj) + Triggers(callee.property)) == [];
    assert args[1..] == [] && Triggers(args[0]) == [];
    assert TriggersAll(args) == Triggers(args[0]) + TriggersAll(args[1..]) == [];
    assert NodeIssues(Race) == [PromiseAnyId];
    assert Triggers(Race) == NodeIssues(Race) + (Triggers(callee) + TriggersAll(args));
  }

  lemma CloneTriggers()
    ensures Triggers(Clone) == [StructuredCloneId]
  {
    assert NodeIssues(Clone) == [StructuredCloneId];
  }


  /** Only the constructor is renamed. */
  lemma ComprehensiveRewrite()
    ensures Fixed(Comprehensive) == OtherNode("Program", [NewExpression(Identifier(ManualName), []), Race, Clone])
  {
    var kids := [Controller, Race, Clone];
    assert kids[1..] == [Race, Clone] && kids[1..][1..] == [Clone] && [Clone][1..] == [];
    assert Fixed(Race) == Race by { assert FixedAll(Race.arguments) == Race.arguments; }
    assert Fixed(Clone) == Clone by { assert FixedAll(Clone.arguments) == Clone.arguments; }
    assert Fixed(Controller) == NewExpression(Identifier(ManualName), []);
    assert FixedAll([Clone]) == [Fixed(Clone)] + FixedAll([]);
    assert FixedAll([Race, Clone]) == [Fixed(Race)] + FixedAll([Clone]);
    assert FixedAll(kids) == [Fixed(Controller)] + FixedAll([Race, Clone]);
  }
}
