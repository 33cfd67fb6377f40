/** The CSS/SCSS engine (extension/autofix-css.js): postcss visitors over
    at-rules, rules and declarations that flag five features and rewrite four
    of them. The stylesheet is given as a tree; parsing and printing are not
    modelled. Each visitor runs once per node, in document order, a node
    before its children. */
module AutofixCss {
  import opened Text
  import opened Wrappers
  import opened InsertionSet
  import FeatureMap

  datatype CssNode =
    | AtRule(name: string, params: string, nodes: seq<CssNode>)
    | Rule(selector: string, nodes: seq<CssNode>)
    | Declaration(prop: string, value: string)
    | Comment(text: string)

  /** What the plugin can throw: indexing the `null` that `match` returns for
      `@container` parameters without a digit. */
  datatype CssError = TypeError(message: string)

  datatype CssResult = CssResult(fixed: seq<CssNode>, issuesFound: seq<string>)

  const HasId := "css-has"
  const ContainerId := "css-container-queries"
  const FocusVisibleId := "css-focus-visible"
  const AspectRatioId := "css-aspect-ratio"
  const StickyId := "css-position-sticky"

  // ---------------------------------------------------------------------
  // Visitor keys. postcss lower-cases both the at-rule name or declaration
  // property and the plugin's key before comparing them. The model lower-cases
  // ASCII letters only; for the keys used here (`container`, `aspect-ratio`,
  // `position`) no other character lower-cases to a single letter of the key.
  // ---------------------------------------------------------------------

  function LowerChar(c: char): char
  {
    if 'A' <= c <= 'Z' then (c as int + 32) as char else c
  }

  function Lower(s: string): (r: string)
    ensures |r| == |s|
  {
    if s == [] then [] else [LowerChar(s[0])] + Lower(s[1..])
  }

  // ---------------------------------------------------------------------
  // `:has(X)` -> `.has-X`, the global replace of `:has\(([^)]+)\)`.
  // ---------------------------------------------------------------------

  /** The callback's `inner.replace(/[.#]/g, '')`. */
  function Strip(inner: string): (r: string)
    ensures '.' !in r && '#' !in r
    ensures forall c :: c in r ==> c in inner
    ensures '.' !in inner && '#' !in inner ==> r == inner
  {
    if inner == [] then [] else Kept(inner[0]) + Strip(inner[1..])
  }

  /** What `Strip` keeps of one character. */
  function Kept(c: char): string
  {
    if c == '.' || c == '#' then [] else [c]
  }

  /** The first `)` at or after `j`, or the end of `s`. */
  function CloseParen(s: string, j: nat): (k: nat)
    requires j <= |s|
    ensures j <= k <= |s|
    decreases |s| - j
  {
    if j == |s| || s[j] == ')' then j else CloseParen(s, j + 1)
  }

  /** `CloseParen` finds the first `)`: none before it, and one at it unless
      the end was reached. */
  lemma {:induction false} CloseParenSpec(s: string, j: nat)
    requires j <= |s|
    ensures CloseParen(s, j) < |s| ==> s[CloseParen(s, j)] == ')'
    ensures forall m :: j <= m < CloseParen(s, j) ==> s[m] != ')'
    decreases |s| - j
  {
    if j < |s| && s[j] != ')' {
      CloseParenSpec(s, j + 1);
    }
  }

  /** The index of the closing `)` when a match starts at the beginning of `s`:
      `[^)]+` takes the longest run of characters other than `)`, which must be
      non-empty and be followed by `)`. */
  function HasMatch(s: string): Option<nat>
  {
    if StartsWith(s, ":has(") then
      var k := CloseParen(s, 5);
      if k < |s| && k > 5 then Some(k) else None
    else None
  }

  /** Left to right: a match is replaced and the search resumes after its `)`;
      otherwise one character is kept. */
  function HasRewrite(s: string): string
    decreases |s|
  {
    if s == [] then []
    else match HasMatch(s)
      case Some(k) => ".has-" + Strip(s[5..k]) + HasRewrite(s[k + 1..])
      case None => [s[0]] + HasRewrite(s[1..])
  }

  // ---------------------------------------------------------------------
  // `:focus-visible` -> `:focus`, the global replace of a literal.
  // ---------------------------------------------------------------------

  function FocusRewrite(s: string): string
    decreases |s|
  {
    if s == [] then []
    else if StartsWith(s, ":focus-visible") then ":focus" + FocusRewrite(s[14..])
    else [s[0]] + FocusRewrite(s[1..])
  }

  // ---------------------------------------------------------------------
  // `@container` parameters: the first match of `\d+`.
  // ---------------------------------------------------------------------

  predicate IsDigit(c: char)
  {
    '0' <= c <= '9'
  }

  /** Index of the first digit at or after `j`, or the end of `s`. */
  function FirstDigit(s: string, j: nat): (k: nat)
    requires j <= |s|
    ensures j <= k <= |s|
    decreases |s| - j
  {
    if j == |s| || IsDigit(s[j]) then j else FirstDigit(s, j + 1)
  }

  /** End of the digit run that starts at `j`. */
  function DigitRunEnd(s: string, j: nat): (k: nat)
    requires j <= |s|
    ensures j <= k <= |s|
    decreases |s| - j
  {
    if j < |s| && IsDigit(s[j]) then DigitRunEnd(s, j + 1) else j
  }

  lemma {:induction false} FirstDigitSpec(s: string, j: nat)
    requires j <= |s|
    ensures FirstDigit(s, j) < |s| ==> IsDigit(s[FirstDigit(s, j)])
    ensures forall m :: j <= m < FirstDigit(s, j) ==> !IsDigit(s[m])
    decreases |s| - j
  {
    if j < |s| && !IsDigit(s[j]) {
      FirstDigitSpec(s, j + 1);
    }
  }

  lemma {:induction false} DigitRunEndSpec(s: string, j: nat)
    requires j <= |s|
    ensures DigitRunEnd(s, j) < |s| ==> !IsDigit(s[DigitRunEnd(s, j)])
    ensures forall m :: j <= m < DigitRunEnd(s, j) ==> IsDigit(s[m])
    decreases |s| - j
  {
    if j < |s| && IsDigit(s[j]) {
      DigitRunEndSpec(s, j + 1);
    }
  }

  /** `params.match(/\d+/)`, or `None` for `null`. */
  function FirstDigitRun(params: string): Option<string>
  {
    var k := FirstDigit(params, 0);
    if k == |params| then None else Some(params[k..DigitRunEnd(params, k)])
  }

  /** The new parameters of a `@container` at-rule. Without a digit `match`
      gives `null` and indexing it throws before `|| '800'` is evaluated; with
      one, the match is a non-empty string, so the default is never used. */
  function ContainerParams(params: string): Result<string, CssError>
  {
    match FirstDigitRun(params)
    case None => Err(TypeError("Cannot read properties of null (reading '0')"))
    case Some(d) => Ok("(min-width: " + d + "px)")
  }

  // ---------------------------------------------------------------------
  // The visitors, as a specification over the tree.
  // ---------------------------------------------------------------------

  /** The selector after the `:has` step of the `Rule` visitor. */
  function AfterHas(selector: string): string
  {
    if Contains(selector, ":has(") then HasRewrite(selector) else selector
  }

  /** The selector after both steps of the `Rule` visitor. */
  function AfterFocus(selector: string): string
  {
    var s := AfterHas(selector);
    if Contains(s, ":focus-visible") then FocusRewrite(s) else s
  }

  const AspectRatioFallback: seq<CssNode> := [
    Declaration("padding-top", "56.25%"),
    Declaration("height", "0"),
    Declaration("position", "relative")
  ]

  predicate IsContainerAtRule(n: CssNode)
  {
    n.AtRule? && Lower(n.name) == "container"
  }

  predicate IsHasRule(n: CssNode)
  {
    n.Rule? && Contains(n.selector, ":has(")
  }

  predicate IsFocusRule(n: CssNode)
  {
    n.Rule? && Contains(AfterHas(n.selector), ":focus-visible")
  }

  predicate IsAspectRatioDecl(n: CssNode)
  {
    n.Declaration? && Lower(n.prop) == "aspect-ratio"
  }

  predicate IsStickyDecl(n: CssNode)
  {
    n.Declaration? && Lower(n.prop) == "position" && n.value == "sticky"
  }

  /** The ids the visitors add at one node, in the order they add them. */
  function NodeIssues(n: CssNode): seq<string>
  {
    (if IsContainerAtRule(n) then [ContainerId] else [])
    + (if IsHasRule(n) then [HasId] else [])
    + (if IsFocusRule(n) then [FocusVisibleId] else [])
    + (if IsAspectRatioDecl(n) then [AspectRatioId] else [])
    + (if IsStickyDecl(n) then [StickyId] else [])
  }

  function Size(n: CssNode): (r: nat)
    ensures r >= 1
  {
    match n
    case AtRule(_, _, kids) => 1 + SizeAll(kids)
    case Rule(_, kids) => 1 + SizeAll(kids)
    case Declaration(_, _) => 1
    case Comment(_) => 1
  }

  function SizeAll(ns: seq<CssNode>): nat
  {
    if ns == [] then 0 else Size(ns[0]) + SizeAll(ns[1..])
  }

  /** Ids in visiting order, duplicates kept. */
  function Triggers(n: CssNode): seq<string>
  {
    NodeIssues(n) +
    match n
    case AtRule(_, _, kids) => TriggersAll(kids)
    case Rule(_, kids) => TriggersAll(kids)
    case Declaration(_, _) => []
    case Comment(_) => []
  }

  function TriggersAll(ns: seq<CssNode>): seq<string>
  {
    if ns == [] then [] else Triggers(ns[0]) + TriggersAll(ns[1..])
  }

  /** Joins the results of two consecutive stretches of a node list. */
  function Then(a: Result<seq<CssNode>, CssError>, b: Result<seq<CssNode>, CssError>): Result<seq<CssNode>, CssError>
  {
    match a
    case Err(e) => Err(e)
    case Ok(x) =>
      match b
      case Err(e) => Err(e)
      case Ok(y) => Ok(x + y)
  }

  /** `n` with the children `kids`, when `kids` could be computed. */
  function WithKids(n: CssNode, kids: Result<seq<CssNode>, CssError>): Result<seq<CssNode>, CssError>
  {
    match kids
    case Err(e) => Err(e)
    case Ok(ks) =>
      match n
      case AtRule(name, params, _) => Ok([AtRule(name, params, ks)])
      case Rule(sel, _) => Ok([Rule(sel, ks)])
      case Declaration(_, _) => Ok([n])
      case Comment(_) => Ok([n])
  }

  /** What one node becomes in its parent's list: the comment `before` inserts
      and the node itself, or the three declarations `replaceWith` puts in. */
  function FixNode(n: CssNode): Result<seq<CssNode>, CssError>
  {
    match n
    case AtRule(name, params, kids) =>
      if IsContainerAtRule(n) then
        match ContainerParams(params)
        case Err(e) => Err(e)
        case Ok(p) => Then(Ok([Comment("fallback for @container")]), WithKids(AtRule("media", p, []), FixAll(kids)))
      else WithKids(n, FixAll(kids))
    case Rule(sel, kids) =>
      Then(Ok(if IsHasRule(n) then [Comment("fallback for :has()")] else []),
           WithKids(Rule(AfterFocus(sel), []), FixAll(kids)))
    case Declaration(_, _) => if IsAspectRatioDecl(n) then Ok(AspectRatioFallback) else Ok([n])
    case Comment(_) => Ok([n])
  }

  function FixAll(ns: seq<CssNode>): Result<seq<CssNode>, CssError>
  {
    if ns == [] then Ok([]) else Then(FixNode(ns[0]), FixAll(ns[1..]))
  }

  /** The rewritten sheet and `Array.from(issuesFound)`, or what is thrown. */
  function Autofix(sheet: seq<CssNode>): Result<CssResult, CssError>
  {
    match FixAll(sheet)
    case Err(e) => Err(e)
    case Ok(out) => Ok(CssResult(out, FromSeq(TriggersAll(sheet))))
  }

  // ---------------------------------------------------------------------
  // The walk, as postcss runs the plugin: each node's visitor, then its
  // children in order, with one `Set` shared by all visitors.
  // ---------------------------------------------------------------------

  /** Runs the visitor of `n`, then walks its children; `r` is what `n` turns
      into in its parent's list. */
  method VisitNode(n: CssNode, acc: seq<string>) returns (r: Result<seq<CssNode>, CssError>, issues: seq<string>)
    ensures r == FixNode(n)
    ensures r.Ok? ==> issues == AddAll(acc, Triggers(n))
    decreases Size(n), 0
  {
    issues := acc;
    match n
    case AtRule(name, params, kids) =>
      var head: seq<CssNode> := [];
      var node := n;
      if Lower(name) == "container" {
        issues := Add(issues, ContainerId);
        var p := ContainerParams(params);
        if p.Err? {
          return Err(p.error), issues;
        }
        node := AtRule("media", p.value, kids);
        head := [Comment("fallback for @container")];
      }
      var ks;
      ks, issues := VisitAll(kids, issues);
      if ks.Err? {
        return Err(ks.error), issues;
      }
      r := Ok(head + [AtRule(node.name, node.params, ks.value)]);
      assert !IsContainerAtRule(n) ==> head + [AtRule(name, params, ks.value)] == [AtRule(name, params, ks.value)];
      VisitedIssues(n, acc);
    case Rule(sel, kids) =>
      var s := sel;
      var head: seq<CssNode> := [];
      if Contains(s, ":has(") {
        issues := Add(issues, HasId);
        s := HasRewrite(s);
        head := [Comment("fallback for :has()")];
      }
      if Contains(s, ":focus-visible") {
        issues := Add(issues, FocusVisibleId);
        s := FocusRewrite(s);
      }
      var ks;
      ks, issues := VisitAll(kids, issues);
      if ks.Err? {
        return Err(ks.error), issues;
      }
      r := Ok(head + [Rule(s, ks.value)]);
      VisitedIssues(n, acc);
    case Declaration(prop, value) =>
      if Lower(prop) == "aspect-ratio" {
        issues := Add(issues, AspectRatioId);
        r := Ok(AspectRatioFallback);
      } else {
        if Lower(prop) == "position" && value == "sticky" {
          issues := Add(issues, StickyId);
        }
        r := Ok([n]);
      }
      VisitedIssues(n, acc);
    case Comment(_) =>
      r := Ok([n]);
      VisitedIssues(n, acc);
  }

  /** Walks the list `ns` of siblings; the first throw ends the walk. */
  method VisitAll(ns: seq<CssNode>, acc: seq<string>) returns (r: Result<seq<CssNode>, CssError>, issues: seq<string>)
    ensures r == FixAll(ns)
    ensures r.Ok? ==> issues == AddAll(acc, TriggersAll(ns))
    decreases SizeAll(ns), 1
  {
    var out: seq<CssNode> := [];
    issues := acc;
    for i := 0 to |ns|
      invariant FixAll(ns[..i]) == Ok(out)
      invariant issues == AddAll(acc, TriggersAll(ns[..i]))
    {
      SizeAllElement(ns, i);
      var x;
      ghost var before := issues;
      x, issues := VisitNode(ns[i], issues);
      VisitStep(ns, i, out);
      if x.Err? {
        VisitAbort(ns, i);
        return Err(x.error), issues;
      }
      AddAllAppend(acc, TriggersAll(ns[..i]), Triggers(ns[i]));
      out := out + x.value;
    }
    assert ns[..|ns|] == ns;
    r := Ok(out);
  }

  /** `applyCSSAutofix` on a parsed sheet. */
  method ApplyCSSAutofix(sheet: seq<CssNode>) returns (r: Result<CssResult, CssError>)
    ensures r == Autofix(sheet)
    ensures r.Ok? ==> Distinct(r.value.issuesFound)
    ensures r.Ok? ==> forall id :: id in r.value.issuesFound <==> id in TriggersAll(sheet)
  {
    var fixed, issues := VisitAll(sheet, []);
    if fixed.Err? {
      return Err(fixed.error);
    }
    FromSeqSpec(TriggersAll(sheet));
    r := Ok(CssResult(fixed.value, issues));
  }

  // ---------------------------------------------------------------------
  // Lemmas connecting the walk to its specification.
  // ---------------------------------------------------------------------

  /** The `add` calls of one visitor, then the ones of the children. */
  lemma VisitedIssues(n: CssNode, acc: seq<string>)
    ensures AddAll(acc, Triggers(n)) == AddAll(AddAll(acc, NodeIssues(n)), Triggers(n)[|NodeIssues(n)|..])
    ensures AddAll(acc, NodeIssues(n)) ==
      if IsContainerAtRule(n) then Add(acc, ContainerId)
      else if IsAspectRatioDecl(n) then Add(acc, AspectRatioId)
      else if IsStickyDecl(n) then Add(acc, StickyId)
      else
        var a := if IsHasRule(n) then Add(acc, HasId) else acc;
        if IsFocusRule(n) then Add(a, FocusVisibleId) else a
  {
    var t := Triggers(n);
    assert t == NodeIssues(n) + t[|NodeIssues(n)|..];
    AddAllAppend(acc, NodeIssues(n), t[|NodeIssues(n)|..]);
    if n.Rule? {
      var h := if IsHasRule(n) then [HasId] else [];
      var f := if IsFocusRule(n) then [FocusVisibleId] else [];
      assert NodeIssues(n) == h + f;
      AddAllAppend(acc, h, f);
    }
  }

  lemma SizeAllElement(ns: seq<CssNode>, i: nat)
    requires i < |ns|
    ensures Size(ns[i]) <= SizeAll(ns)
  {
    if i > 0 {
      SizeAllElement(ns[1..], i - 1);
    }
  }

  lemma ThenAssoc(a: Result<seq<CssNode>, CssError>, b: Result<seq<CssNode>, CssError>, c: Result<seq<CssNode>, CssError>)
    ensures Then(Then(a, b), c) == Then(a, Then(b, c))
  {
    if a.Ok? && b.Ok? && c.Ok? {
      assert a.value + b.value + c.value == a.value + (b.value + c.value);
    }
  }

  lemma {:induction false} FixAllAppend(a: seq<CssNode>, b: seq<CssNode>)
    ensures FixAll(a + b) == Then(FixAll(a), FixAll(b))
    decreases |a|
  {
    if a == [] {
      assert a + b == b;
      if FixAll(b).Ok? {
        assert [] + FixAll(b).value == FixAll(b).value;
      }
    } else {
      assert (a + b)[0] == a[0] && (a + b)[1..] == a[1..] + b;
      FixAllAppend(a[1..], b);
      ThenAssoc(FixNode(a[0]), FixAll(a[1..]), FixAll(b));
    }
  }

  lemma {:induction false} TriggersAllAppend(a: seq<CssNode>, b: seq<CssNode>)
    ensures TriggersAll(a + b) == TriggersAll(a) + TriggersAll(b)
    decreases |a|
  {
    if a == [] {
      assert a + b == b;
    } else {
      assert (a + b)[0] == a[0] && (a + b)[1..] == a[1..] + b;
      TriggersAllAppend(a[1..], b);
      assert TriggersAll(a + b) == Triggers(a[0]) + (TriggersAll(a[1..]) + TriggersAll(b));
      AppendAssoc(Triggers(a[0]), TriggersAll(a[1..]), TriggersAll(b));
    }
  }

  lemma VisitStep(ns: seq<CssNode>, i: nat, out: seq<CssNode>)
    requires i < |ns|
    requires FixAll(ns[..i]) == Ok(out)
    ensures FixAll(ns[..i + 1]) == Then(Ok(out), FixNode(ns[i]))
    ensures TriggersAll(ns[..i + 1]) == TriggersAll(ns[..i]) + Triggers(ns[i])
  {
    assert ns[..i + 1] == ns[..i] + [ns[i]];
    FixAllAppend(ns[..i], [ns[i]]);
    TriggersAllAppend(ns[..i], [ns[i]]);
    assert [ns[i]][1..] == [];
    if FixNode(ns[i]).Ok? {
      assert FixNode(ns[i]).value + [] == FixNode(ns[i]).value;
    }
  }

  lemma VisitAbort(ns: seq<CssNode>, i: nat)
    requires i < |ns|
    requires FixAll(ns[..i + 1]).Err?
    ensures FixAll(ns) == FixAll(ns[..i + 1])
  {
    assert ns == ns[..i + 1] + ns[i + 1..];
    FixAllAppend(ns[..i + 1], ns[i + 1..]);
  }

  // ---------------------------------------------------------------------
  // The selector and parameter rewrites.
  // ---------------------------------------------------------------------

  /** A selector without `:has(` is left as it is. */
  lemma {:induction false} HasRewriteUnchanged(s: string)
    requires !Contains(s, ":has(")
    ensures HasRewrite(s) == s
    decreases |s|
  {
    if s != [] {
      HasRewriteUnchanged(s[1..]);
      assert s == [s[0]] + s[1..];
    }
  }

  /** A match that starts at the beginning of `s` closes at the first `)`. */
  lemma HasMatchFound(x: string, post: string)
    requires |x| > 0 && ')' !in x
    ensures var s := ":has(" + x + ")" + post;
      HasMatch(s) == Some(5 + |x|) && s[5..5 + |x|] == x && s[6 + |x|..] == post
  {
    var s := ":has(" + x + ")" + post;
    assert s[..5] == ":has(";
    assert s[5 + |x|] == ')';
    assert forall m :: 5 <= m < 5 + |x| ==> s[m] == x[m - 5];
    assert forall m :: 5 <= m < 5 + |x| ==> s[m] != ')';
    var k := CloseParen(s, 5);
    CloseParenSpec(s, 5);
    assert k == 5 + |x|;
    assert s[5..k] == x;
    assert s[k + 1..] == post;
  }

  lemma HasRewriteAtMatch(x: string, post: string)
    requires |x| > 0 && ')' !in x
    ensures HasRewrite(":has(" + x + ")" + post) == ".has-" + Strip(x) + HasRewrite(post)
  {
    HasMatchFound(x, post);
  }

  /** Only a `:` can start a match. */
  lemma HasMatchNeedsColon(s: string)
    requires |s| > 0 && s[0] != ':'
    ensures HasMatch(s).None?
  {
    assert !StartsWith(s, ":has(") by {
      if |s| >= 5 { assert s[..5][0] == s[0]; }
    }
  }

  /** A character other than `:` cannot start a match and is kept. */
  lemma HasRewriteKeeps(s: string)
    requires |s| > 0 && s[0] != ':'
    ensures HasRewrite(s) == [s[0]] + HasRewrite(s[1..])
  {
    HasMatchNeedsColon(s);
  }

  /** No match starts at an index of `s` below `n`. */
  predicate NoHasMatchBefore(s: string, n: nat)
    requires n <= |s|
  {
    forall i :: 0 <= i < n ==> HasMatch(s[i..]).None?
  }

  /** In particular when the first `n` characters hold no colon. */
  lemma ColonFreeNoHasMatch(a: string, b: string)
    requires ':' !in a
    ensures NoHasMatchBefore(a + b, |a|)
  {
    forall i | 0 <= i < |a|
      ensures HasMatch((a + b)[i..]).None?
    {
      assert (a + b)[i..][0] == a[i];
      HasMatchNeedsColon((a + b)[i..]);
    }
  }

  /** Text in which no match starts is kept as it is. */
  lemma {:induction false} HasRewritePrefix(a: string, b: string)
    requires NoHasMatchBefore(a + b, |a|)
    ensures HasRewrite(a + b) == a + HasRewrite(b)
    decreases |a|
  {
    if a == [] {
      assert a + b == b;
    } else {
      var s := a + b;
      assert s[0..] == s;
      assert HasMatch(s).None?;
      TailAppend(a, b);
      forall i | 0 <= i < |a| - 1
        ensures HasMatch((a[1..] + b)[i..]).None?
      {
        assert (a[1..] + b)[i..] == s[i + 1..];
      }
      HasRewritePrefix(a[1..], b);
      ConsAppend(a, HasRewrite(b));
    }
  }

  lemma ConsAppend(a: string, h: string)
    requires a != []
    ensures a + h == [a[0]] + (a[1..] + h)
  {
    assert a == [a[0]] + a[1..];
  }

  /** The leftmost match: text before it, in which no match starts, is kept,
      the match `:has(X)` becomes `.has-` and X without `.` and `#`, and the
      search resumes after its `)`. */
  lemma HasRewriteSplit(pre: string, x: string, post: string)
    requires |x| > 0 && ')' !in x
    requires NoHasMatchBefore(pre + ":has(" + x + ")" + post, |pre|)
    ensures HasRewrite(pre + ":has(" + x + ")" + post) == pre + ".has-" + Strip(x) + HasRewrite(post)
  {
    var m := ":has(" + x + ")" + post;
    assert pre + ":has(" + x + ")" + post == pre + m;
    HasRewritePrefix(pre, m);
    HasRewriteAtMatch(x, post);
  }

  /** In particular when the text before the match holds no colon. */
  lemma ColonFreeHasSplit(pre: string, x: string, post: string)
    requires ':' !in pre && |x| > 0 && ')' !in x
    ensures HasRewrite(pre + ":has(" + x + ")" + post) == pre + ".has-" + Strip(x) + HasRewrite(post)
  {
    var m := ":has(" + x + ")" + post;
    ColonFreeNoHasMatch(pre, m);
    assert pre + m == pre + ":has(" + x + ")" + post;
    HasRewriteSplit(pre, x, post);
  }

  /** A pseudo-class before the match, as `:hover` in `a:hover:has(.b)`,
      starts no match and is kept. */
  lemma PseudoClassBeforeHas(a: string, c: string, x: string, post: string)
    requires ':' !in a && ':' !in c && |c| > 1 && (c[0] != 'h' || c[1] != 'a')
    requires |x| > 0 && ')' !in x
    ensures HasRewrite(a + ":" + c + ":has(" + x + ")" + post)
         == a + ":" + c + ".has-" + Strip(x) + HasRewrite(post)
  {
    var pre := a + ":" + c;
    var m := ":has(" + x + ")" + post;
    var s := pre + m;
    forall i | 0 <= i < |pre|
      ensures HasMatch(s[i..]).None?
    {
      if i == |a| {
        assert s[i..][1] == c[0] && s[i..][2] == c[1];
        assert !StartsWith(s[i..], ":has(") by {
          if |s[i..]| >= 5 {
            assert s[i..][..5][1] == s[i..][1] && s[i..][..5][2] == s[i..][2];
          }
        }
      } else {
        assert s[i..][0] == pre[i];
        HasMatchNeedsColon(s[i..]);
      }
    }
    assert s == pre + ":has(" + x + ")" + post;
    HasRewriteSplit(pre, x, post);
  }

  /** `:has()` and an unclosed `:has(` are not matches of the regex. */
  lemma HasRewriteNeedsArgument()
    ensures HasRewrite(":has()") == ":has()"
    ensures HasRewrite(":has(a") == ":has(a"
  {
    var e := ":has()";
    assert e[..5] == ":has(" && e[5] == ')';
    assert CloseParen(e, 5) == 5;
    ContainsFirstChar(e[1..], ":has(");
    HasRewriteUnchanged(e[1..]);
    assert e == [e[0]] + e[1..];
    var u := ":has(a";
    assert u[..5] == ":has(" && u[5] == 'a';
    assert CloseParen(u, 6) == 6;
    assert CloseParen(u, 5) == 6;
    ContainsFirstChar(u[1..], ":has(");
    HasRewriteUnchanged(u[1..]);
    assert u == [u[0]] + u[1..];
  }

  /** A selector without `:focus-visible` is left as it is. */
  lemma {:induction false} FocusRewriteUnchanged(s: string)
    requires !Contains(s, ":focus-visible")
    ensures FocusRewrite(s) == s
    decreases |s|
  {
    if s != [] {
      FocusRewriteUnchanged(s[1..]);
      assert s == [s[0]] + s[1..];
    }
  }

  /** A character other than `:` cannot start a match and is kept. */
  lemma FocusRewriteKeeps(s: string)
    requires |s| > 0 && s[0] != ':'
    ensures FocusRewrite(s) == [s[0]] + FocusRewrite(s[1..])
  {
    assert !StartsWith(s, ":focus-visible") by {
      if |s| >= 14 { assert s[..14][0] == s[0]; }
    }
  }

  lemma FocusRewriteAtMatch(post: string)
    ensures FocusRewrite(":focus-visible" + post) == ":focus" + FocusRewrite(post)
  {
    var s := ":focus-visible" + post;
    assert s[..14] == ":focus-visible" && s[14..] == post;
  }

  /** No `:focus-visible` starts at an index of `s` below `n`. */
  predicate NoFocusMatchBefore(s: string, n: nat)
    requires n <= |s|
  {
    forall i :: 0 <= i < n ==> !StartsWith(s[i..], ":focus-visible")
  }

  /** In particular when the first `n` characters hold no colon. */
  lemma ColonFreeNoFocusMatch(a: string, b: string)
    requires ':' !in a
    ensures NoFocusMatchBefore(a + b, |a|)
  {
    forall i | 0 <= i < |a|
      ensures !StartsWith((a + b)[i..], ":focus-visible")
    {
      var t := (a + b)[i..];
      assert t[0] == a[i];
      if |t| >= 14 { assert t[..14][0] == t[0]; }
    }
  }

  /** Text before the leftmost `:focus-visible` is kept and the match becomes
      `:focus`; the search resumes right after it. */
  lemma {:induction false} FocusRewriteSplit(pre: string, post: string)
    requires NoFocusMatchBefore(pre + ":focus-visible" + post, |pre|)
    ensures FocusRewrite(pre + ":focus-visible" + post) == pre + ":focus" + FocusRewrite(post)
    decreases |pre|
  {
    var m := ":focus-visible" + post;
    var s := pre + m;
    assert pre + ":focus-visible" + post == s;
    if pre == [] {
      assert s == m;
      FocusRewriteAtMatch(post);
    } else {
      assert s[0..] == s;
      assert !StartsWith(s, ":focus-visible");
      TailAppend(pre, m);
      forall i | 0 <= i < |pre| - 1
        ensures !StartsWith((pre[1..] + ":focus-visible" + post)[i..], ":focus-visible")
      {
        assert pre[1..] + ":focus-visible" + post == pre[1..] + m;
        assert (pre[1..] + m)[i..] == s[i + 1..];
      }
      FocusRewriteSplit(pre[1..], post);
      assert pre[1..] + ":focus-visible" + post == pre[1..] + m;
      ConsAppend(pre, ":focus" + FocusRewrite(post));
    }
  }

  /** A pseudo-class before the match, as `:not(.x)` in
      `button:not(.x):focus-visible`, is kept. */
  lemma PseudoClassBeforeFocus(a: string, c: string, post: string)
    requires ':' !in a && ':' !in c && |c| > 1 && (c[0] != 'f' || c[1] != 'o')
    ensures FocusRewrite(a + ":" + c + ":focus-visible" + post)
         == a + ":" + c + ":focus" + FocusRewrite(post)
  {
    var pre := a + ":" + c;
    var s := pre + ":focus-visible" + post;
    forall i | 0 <= i < |pre|
      ensures !StartsWith(s[i..], ":focus-visible")
    {
      var t := s[i..];
      assert t[0] == pre[i];
      if i == |a| {
        assert t[1] == c[0] && t[2] == c[1];
        if |t| >= 14 { assert t[..14][1] == t[1] && t[..14][2] == t[2]; }
      } else {
        if |t| >= 14 { assert t[..14][0] == t[0]; }
      }
    }
    FocusRewriteSplit(pre, post);
  }

  predicate HasDigit(s: string)
  {
    exists i :: 0 <= i < |s| && IsDigit(s[i])
  }

  /** `s[i..j]` is the leftmost maximal run of digits of `s`. */
  predicate LeftmostDigitRun(s: string, i: nat, j: nat)
  {
    i < j <= |s|
    && (forall m :: 0 <= m < i ==> !IsDigit(s[m]))
    && (forall m :: i <= m < j ==> IsDigit(s[m]))
    && (j < |s| ==> !IsDigit(s[j]))
  }

  /** The `@container` parameters throw exactly when they hold no digit, and
      otherwise become `(min-width: Npx)` for the leftmost run N of digits. */
  lemma ContainerParamsSpec(params: string)
    ensures ContainerParams(params).Err? <==> !HasDigit(params)
    ensures ContainerParams(params).Ok? ==>
              exists i: nat, j: nat :: LeftmostDigitRun(params, i, j)
                && ContainerParams(params).value == "(min-width: " + params[i..j] + "px)"
  {
    var k := FirstDigit(params, 0);
    FirstDigitSpec(params, 0);
    if k < |params| {
      DigitRunEndSpec(params, k);
      assert LeftmostDigitRun(params, k, DigitRunEnd(params, k));
    }
  }

  lemma FirstDigitRunAt(s: string, i: nat, j: nat)
    requires LeftmostDigitRun(s, i, j)
    ensures FirstDigitRun(s) == Some(s[i..j])
  {
    var k := FirstDigit(s, 0);
    FirstDigitSpec(s, 0);
    DigitRunEndSpec(s, i);
    assert IsDigit(s[i]);
    assert !(k < i);
    assert k == i;
    var e := DigitRunEnd(s, i);
    assert !(e < j);
    assert e == j;
  }

  predicate NoDigits(s: string)
  {
    s == [] || (!IsDigit(s[0]) && NoDigits(s[1..]))
  }

  predicate AllDigits(s: string)
  {
    s == [] || (IsDigit(s[0]) && AllDigits(s[1..]))
  }

  lemma {:induction false} NoDigitsAt(s: string)
    requires NoDigits(s)
    ensures forall m :: 0 <= m < |s| ==> !IsDigit(s[m])
  {
    if s != [] {
      NoDigitsAt(s[1..]);
      assert forall m :: 1 <= m < |s| ==> s[m] == s[1..][m - 1];
    }
  }

  lemma {:induction false} AllDigitsAt(s: string)
    requires AllDigits(s)
    ensures forall m :: 0 <= m < |s| ==> IsDigit(s[m])
  {
    if s != [] {
      AllDigitsAt(s[1..]);
      assert forall m :: 1 <= m < |s| ==> s[m] == s[1..][m - 1];
    }
  }

  /** Parameters that read as some text without digits, the number `d`, and a
      rest that does not go on with a digit, keep `d` alone. */
  lemma ContainerParamsOf(pre: string, d: string, post: string)
    requires NoDigits(pre) && |d| > 0 && AllDigits(d) && (post == [] || !IsDigit(post[0]))
    ensures ContainerParams(pre + d + post) == Ok("(min-width: " + d + "px)")
  {
    var s := pre + d + post;
    DigitRunOfParts(pre, d, post);
    FirstDigitRunAt(s, |pre|, |pre| + |d|);
    assert s[|pre|..|pre| + |d|] == d;
  }

  lemma NoDigitsBefore(pre: string, rest: string)
    requires NoDigits(pre)
    ensures forall m :: 0 <= m < |pre| ==> !IsDigit((pre + rest)[m])
  {
    NoDigitsAt(pre);
  }

  lemma DigitsWithin(pre: string, d: string, post: string)
    requires AllDigits(d)
    ensures forall m :: |pre| <= m < |pre| + |d| ==> IsDigit((pre + d + post)[m])
  {
    AllDigitsAt(d);
    forall m | |pre| <= m < |pre| + |d| ensures IsDigit((pre + d + post)[m]) {
      assert (pre + d + post)[m] == d[m - |pre|];
    }
  }

  lemma DigitRunOfParts(pre: string, d: string, post: string)
    requires NoDigits(pre) && |d| > 0 && AllDigits(d) && (post == [] || !IsDigit(post[0]))
    ensures LeftmostDigitRun(pre + d + post, |pre|, |pre| + |d|)
  {
    var s := pre + d + post;
    NoDigitsBefore(pre, d + post);
    AppendAssoc(pre, d, post);
    DigitsWithin(pre, d, post);
    if |pre| + |d| < |s| {
      assert s[|pre| + |d|] == post[0];
    }
  }

  /** A width query keeps its number and loses its unit and everything before
      it: `card (width > 30em)` becomes `(min-width: 30px)`. */
  lemma ContainerDropsUnit(pre: string, n: string, unit: string)
    requires NoDigits(pre) && |n| > 0 && AllDigits(n) && NoDigits(unit)
    ensures ContainerParams(pre + n + unit + ")") == Ok("(min-width: " + n + "px)")
  {
    var post := unit + ")";
    assert post[0] == if unit == [] then ')' else unit[0];
    ContainerParamsOf(pre, n, post);
    assert pre + n + unit + ")" == pre + n + post;
  }

  /** A named container query without a number throws. */
  lemma ContainerParamsNamed()
    ensures ContainerParams("card").Err?
  {
    ContainerParamsSpec("card");
  }

  // ---------------------------------------------------------------------
  // Properties of the visitors over whole sheets.
  // ---------------------------------------------------------------------

  /** Some node of the tree satisfies `p`. */
  predicate Occurs(n: CssNode, p: CssNode -> bool)
  {
    p(n) ||
    match n
    case AtRule(_, _, kids) => OccursAll(kids, p)
    case Rule(_, kids) => OccursAll(kids, p)
    case Declaration(_, _) => false
    case Comment(_) => false
  }

  predicate OccursAll(ns: seq<CssNode>, p: CssNode -> bool)
  {
    ns != [] && (Occurs(ns[0], p) || OccursAll(ns[1..], p))
  }

  lemma {:induction false} OccursAllAppend(a: seq<CssNode>, b: seq<CssNode>, p: CssNode -> bool)
    ensures OccursAll(a + b, p) <==> OccursAll(a, p) || OccursAll(b, p)
    decreases |a|
  {
    if a == [] {
      assert a + b == b;
    } else {
      assert (a + b)[0] == a[0] && (a + b)[1..] == a[1..] + b;
      OccursAllAppend(a[1..], b, p);
    }
  }

  /** Each of the five ids is added by exactly one node shape. */
  lemma NodeIssuesIds(n: CssNode)
    ensures ContainerId in NodeIssues(n) <==> IsContainerAtRule(n)
    ensures HasId in NodeIssues(n) <==> IsHasRule(n)
    ensures FocusVisibleId in NodeIssues(n) <==> IsFocusRule(n)
    ensures AspectRatioId in NodeIssues(n) <==> IsAspectRatioDecl(n)
    ensures StickyId in NodeIssues(n) <==> IsStickyDecl(n)
    ensures forall id :: id in NodeIssues(n) ==>
              id in [ContainerId, HasId, FocusVisibleId, AspectRatioId, StickyId]
  {
    assert |ContainerId| == 21 && |HasId| == 7 && |FocusVisibleId| == 17;
    assert |AspectRatioId| == 16 && |StickyId| == 19;
  }

  lemma {:induction false} TriggersIff(n: CssNode, id: string, p: CssNode -> bool)
    requires forall m :: id in NodeIssues(m) <==> p(m)
    ensures id in Triggers(n) <==> Occurs(n, p)
  {
    match n
    case AtRule(_, _, kids) => TriggersAllIff(kids, id, p);
    case Rule(_, kids) => TriggersAllIff(kids, id, p);
    case Declaration(_, _) =>
    case Comment(_) =>
  }

  lemma {:induction false} TriggersAllIff(ns: seq<CssNode>, id: string, p: CssNode -> bool)
    requires forall m :: id in NodeIssues(m) <==> p(m)
    ensures id in TriggersAll(ns) <==> OccursAll(ns, p)
    decreases ns
  {
    if ns != [] {
      TriggersIff(ns[0], id, p);
      TriggersAllIff(ns[1..], id, p);
    }
  }

  /** Detection is complete and sound, id by id, at any depth of nesting:
      `css-has` for a rule whose selector includes `:has(`, even where nothing
      is replaced; `css-focus-visible` for a rule whose selector includes
      `:focus-visible` after the `:has` rewrite; `css-container-queries` for an
      `@container` at-rule; `css-aspect-ratio` for any `aspect-ratio`
      declaration; `css-position-sticky` for `position` with value exactly
      `sticky`. */
  lemma DetectsExactly(sheet: seq<CssNode>)
    ensures ContainerId in TriggersAll(sheet) <==> OccursAll(sheet, IsContainerAtRule)
    ensures HasId in TriggersAll(sheet) <==> OccursAll(sheet, IsHasRule)
    ensures FocusVisibleId in TriggersAll(sheet) <==> OccursAll(sheet, IsFocusRule)
    ensures AspectRatioId in TriggersAll(sheet) <==> OccursAll(sheet, IsAspectRatioDecl)
    ensures StickyId in TriggersAll(sheet) <==> OccursAll(sheet, IsStickyDecl)
  {
    forall m ensures ContainerId in NodeIssues(m) <==> IsContainerAtRule(m) { NodeIssuesIds(m); }
    TriggersAllIff(sheet, ContainerId, IsContainerAtRule);
    forall m ensures HasId in NodeIssues(m) <==> IsHasRule(m) { NodeIssuesIds(m); }
    TriggersAllIff(sheet, HasId, IsHasRule);
    forall m ensures FocusVisibleId in NodeIssues(m) <==> IsFocusRule(m) { NodeIssuesIds(m); }
    TriggersAllIff(sheet, FocusVisibleId, IsFocusRule);
    forall m ensures AspectRatioId in NodeIssues(m) <==> IsAspectRatioDecl(m) { NodeIssuesIds(m); }
    TriggersAllIff(sheet, AspectRatioId, IsAspectRatioDecl);
    forall m ensures StickyId in NodeIssues(m) <==> IsStickyDecl(m) { NodeIssuesIds(m); }
    TriggersAllIff(sheet, StickyId, IsStickyDecl);
  }

  /** Only the five CSS ids are ever added. */
  lemma {:induction false} TriggersAreCssIds(n: CssNode)
    ensures forall id :: id in Triggers(n) ==>
              id in [ContainerId, HasId, FocusVisibleId, AspectRatioId, StickyId]
  {
    NodeIssuesIds(n);
    match n
    case AtRule(_, _, kids) => TriggersAllAreCssIds(kids);
    case Rule(_, kids) => TriggersAllAreCssIds(kids);
    case Declaration(_, _) =>
    case Comment(_) =>
  }

  lemma {:induction false} TriggersAllAreCssIds(ns: seq<CssNode>)
    ensures forall id :: id in TriggersAll(ns) ==>
              id in [ContainerId, HasId, FocusVisibleId, AspectRatioId, StickyId]
    decreases ns
  {
    if ns != [] {
      TriggersAreCssIds(ns[0]);
      TriggersAllAreCssIds(ns[1..]);
    }
  }

  /** Every reported id is a registry key whose language is CSS, and each is
      reported once. */
  lemma ReportedIdsAreRegistered(sheet: seq<CssNode>)
    requires Autofix(sheet).Ok?
    ensures Distinct(Autofix(sheet).value.issuesFound)
    ensures forall id :: id in Autofix(sheet).value.issuesFound ==>
              FeatureMap.Lookup(id).Some? && FeatureMap.Lookup(id).value.language == FeatureMap.CSS
  {
    FromSeqSpec(TriggersAll(sheet));
    TriggersAllAreCssIds(sheet);
    forall id | id in Autofix(sheet).value.issuesFound
      ensures FeatureMap.Lookup(id).Some? && FeatureMap.Lookup(id).value.language == FeatureMap.CSS
    {
      CssIdRegistered(id);
    }
  }

  lemma CssIdRegistered(id: string)
    requires id in [ContainerId, HasId, FocusVisibleId, AspectRatioId, StickyId]
    ensures FeatureMap.Lookup(id).Some? && FeatureMap.Lookup(id).value.language == FeatureMap.CSS
  {
    if id == HasId {
      FeatureMap.RegistryLookup(0);
    } else if id == ContainerId {
      FeatureMap.RegistryLookup(1);
    } else if id == FocusVisibleId {
      FeatureMap.RegistryLookup(2);
    } else if id == AspectRatioId {
      FeatureMap.RegistryLookup(3);
    } else {
      FeatureMap.RegistryLookup(4);
    }
  }

  predicate IsDigitlessContainer(n: CssNode)
  {
    IsContainerAtRule(n) && !HasDigit(n.params)
  }

  lemma {:induction false} FailsIff(n: CssNode)
    ensures FixNode(n).Err? <==> Occurs(n, IsDigitlessContainer)
  {
    match n
    case AtRule(_, params, kids) =>
      ContainerParamsSpec(params);
      FixAllFailsIff(kids);
    case Rule(_, kids) => FixAllFailsIff(kids);
    case Declaration(_, _) =>
    case Comment(_) =>
  }

  lemma {:induction false} FixAllFailsIff(ns: seq<CssNode>)
    ensures FixAll(ns).Err? <==> OccursAll(ns, IsDigitlessContainer)
    decreases ns
  {
    if ns != [] {
      FailsIff(ns[0]);
      FixAllFailsIff(ns[1..]);
    }
  }

  /** The plugin throws exactly when some `@container` at-rule, at any depth,
      has parameters without a digit. */
  lemma ThrowsIff(sheet: seq<CssNode>)
    ensures Autofix(sheet).Err? <==> OccursAll(sheet, IsDigitlessContainer)
  {
    FixAllFailsIff(sheet);
  }

  /** The comment and node a visited at-rule or rule turns into. */
  lemma HeadAndNode(head: seq<CssNode>, m: CssNode, out: seq<CssNode>)
    requires out == head + [m]
    requires forall k :: 0 <= k < |head| ==> head[k].Comment?
    ensures OccursAll(out, IsContainerAtRule) <==> Occurs(m, IsContainerAtRule)
    ensures OccursAll(out, IsAspectRatioDecl) <==> Occurs(m, IsAspectRatioDecl)
    ensures OccursAll(out, IsStickyDecl) <==> Occurs(m, IsStickyDecl)
  {
    NoneInComments(head, IsContainerAtRule);
    NoneInComments(head, IsAspectRatioDecl);
    NoneInComments(head, IsStickyDecl);
    OccursAllAppend(head, [m], IsContainerAtRule);
    OccursAllAppend(head, [m], IsAspectRatioDecl);
    OccursAllAppend(head, [m], IsStickyDecl);
    assert [m][1..] == [];
  }

  lemma {:induction false} NoneInComments(cs: seq<CssNode>, p: CssNode -> bool)
    requires forall k :: 0 <= k < |cs| ==> cs[k].Comment?
    requires forall m: CssNode :: m.Comment? ==> !p(m)
    ensures !OccursAll(cs, p)
    decreases |cs|
  {
    if cs != [] {
      NoneInComments(cs[1..], p);
    }
  }

  /** The three replacement declarations trigger no visitor. */
  lemma FallbackShape()
    ensures !OccursAll(AspectRatioFallback, IsContainerAtRule)
    ensures !OccursAll(AspectRatioFallback, IsAspectRatioDecl)
    ensures !OccursAll(AspectRatioFallback, IsStickyDecl)
  {
    var p := Declaration("padding-top", "56.25%");
    var h := Declaration("height", "0");
    var r := Declaration("position", "relative");
    assert |Lower(p.prop)| == 11 && |Lower(h.prop)| == 6 && |Lower(r.prop)| == 8;
    assert r.value != "sticky" by { assert r.value[0] == 'r'; }
    NoneOfThree(p, h, r, IsContainerAtRule);
    NoneOfThree(p, h, r, IsAspectRatioDecl);
    NoneOfThree(p, h, r, IsStickyDecl);
  }

  lemma NoneOfThree(a: CssNode, b: CssNode, c: CssNode, p: CssNode -> bool)
    requires a.Declaration? && b.Declaration? && c.Declaration?
    requires !p(a) && !p(b) && !p(c)
    ensures !OccursAll([a, b, c], p)
  {
    assert [c][1..] == [];
    assert !OccursAll([c], p);
    assert [b, c][1..] == [c];
    assert !OccursAll([b, c], p);
    assert [a, b, c][1..] == [b, c];
  }

  /** What comes out holds no `@container` at-rule and no `aspect-ratio`
      declaration, and holds a sticky `position` declaration exactly when the
      input did. */
  lemma {:induction false} FixNodeShape(n: CssNode, out: seq<CssNode>)
    requires FixNode(n) == Ok(out)
    ensures !OccursAll(out, IsContainerAtRule) && !OccursAll(out, IsAspectRatioDecl)
    ensures OccursAll(out, IsStickyDecl) <==> Occurs(n, IsStickyDecl)
  {
    match n
    case AtRule(name, params, kids) =>
      var ks := FixAll(kids).value;
      FixAllShape(kids, ks);
      if IsContainerAtRule(n) {
        assert |Lower("media")| == 5;
        HeadAndNode([Comment("fallback for @container")], AtRule("media", ContainerParams(params).value, ks), out);
      } else {
        HeadAndNode([], AtRule(name, params, ks), out);
      }
    case Rule(sel, kids) =>
      var ks := FixAll(kids).value;
      FixAllShape(kids, ks);
      var head: seq<CssNode> := if IsHasRule(n) then [Comment("fallback for :has()")] else [];
      HeadAndNode(head, Rule(AfterFocus(sel), ks), out);
    case Declaration(prop, value) =>
      if IsAspectRatioDecl(n) {
        FallbackShape();
      } else {
        assert out == [n] && out[1..] == [];
      }
    case Comment(_) =>
      assert out == [n] && out[1..] == [];
  }

  lemma {:induction false} FixAllShape(ns: seq<CssNode>, out: seq<CssNode>)
    requires FixAll(ns) == Ok(out)
    ensures !OccursAll(out, IsContainerAtRule) && !OccursAll(out, IsAspectRatioDecl)
    ensures OccursAll(out, IsStickyDecl) <==> OccursAll(ns, IsStickyDecl)
    decreases ns
  {
    if ns != [] {
      var a := FixNode(ns[0]).value;
      var b := FixAll(ns[1..]).value;
      FixNodeShape(ns[0], a);
      FixAllShape(ns[1..], b);
      assert out == a + b;
      OccursAllAppend(a, b, IsContainerAtRule);
      OccursAllAppend(a, b, IsAspectRatioDecl);
      OccursAllAppend(a, b, IsStickyDecl);
    }
  }

  /** A rule whose selector the `Rule` visitor would still change. */
  predicate IsPendingRule(n: CssNode)
  {
    n.Rule? && (Contains(n.selector, ":has(") || Contains(n.selector, ":focus-visible"))
  }

  /** A node at which some visitor other than the sticky check acts. */
  predicate IsActive(n: CssNode)
  {
    IsContainerAtRule(n) || IsAspectRatioDecl(n) || IsPendingRule(n)
  }

  lemma {:induction false} NotOccursActive(n: CssNode)
    requires !Occurs(n, IsContainerAtRule) && !Occurs(n, IsAspectRatioDecl) && !Occurs(n, IsPendingRule)
    ensures !Occurs(n, IsActive)
  {
    match n
    case AtRule(_, _, kids) => NotOccursAllActive(kids);
    case Rule(_, kids) => NotOccursAllActive(kids);
    case Declaration(_, _) =>
    case Comment(_) =>
  }

  lemma {:induction false} NotOccursAllActive(ns: seq<CssNode>)
    requires !OccursAll(ns, IsContainerAtRule) && !OccursAll(ns, IsAspectRatioDecl) && !OccursAll(ns, IsPendingRule)
    ensures !OccursAll(ns, IsActive)
    decreases ns
  {
    if ns != [] {
      NotOccursActive(ns[0]);
      NotOccursAllActive(ns[1..]);
    }
  }

  /** A tree where no visitor acts comes back as it is, and at most
      `css-position-sticky` is reported for it. */
  lemma {:induction false} QuietUnchanged(n: CssNode)
    requires !Occurs(n, IsActive)
    ensures FixNode(n) == Ok([n])
    ensures forall id :: id in Triggers(n) ==> id == StickyId
    ensures !Occurs(n, IsStickyDecl) ==> Triggers(n) == []
  {
    NodeIssuesIds(n);
    match n
    case AtRule(name, params, kids) =>
      QuietAllUnchanged(kids);
    case Rule(sel, kids) =>
      QuietAllUnchanged(kids);
      HasRewriteUnchanged(sel);
      assert AfterFocus(sel) == sel;
      assert [] + [Rule(sel, kids)] == [n];
    case Declaration(_, _) =>
    case Comment(_) =>
  }

  lemma {:induction false} QuietAllUnchanged(ns: seq<CssNode>)
    requires !OccursAll(ns, IsActive)
    ensures FixAll(ns) == Ok(ns)
    ensures forall id :: id in TriggersAll(ns) ==> id == StickyId
    ensures !OccursAll(ns, IsStickyDecl) ==> TriggersAll(ns) == []
    decreases ns
  {
    if ns != [] {
      QuietUnchanged(ns[0]);
      QuietAllUnchanged(ns[1..]);
      assert [ns[0]] + ns[1..] == ns;
    }
  }

  /** A sheet with none of the five shapes comes back unchanged with nothing
      reported. */
  lemma NoFeatureNoChange(sheet: seq<CssNode>)
    requires !OccursAll(sheet, IsActive) && !OccursAll(sheet, IsStickyDecl)
    ensures Autofix(sheet) == Ok(CssResult(sheet, []))
  {
    QuietAllUnchanged(sheet);
  }

  /** Running the plugin on its own output leaves it as it is and reports at
      most `css-position-sticky` (exactly when the first run did), as long as no
      rewritten selector still holds `:has(` or `:focus-visible`. */
  lemma SecondPass(sheet: seq<CssNode>, out: seq<CssNode>)
    requires FixAll(sheet) == Ok(out)
    requires !OccursAll(out, IsPendingRule)
    ensures FixAll(out) == Ok(out)
    ensures forall id :: id in TriggersAll(out) ==> id == StickyId
    ensures StickyId in TriggersAll(out) <==> StickyId in TriggersAll(sheet)
  {
    FixAllShape(sheet, out);
    NotOccursAllActive(out);
    QuietAllUnchanged(out);
    DetectsExactly(out);
    DetectsExactly(sheet);
  }

  // ---------------------------------------------------------------------
  // Examples.
  // ---------------------------------------------------------------------

  /** A declaration no visitor rewrites stays as it is and adds nothing. */
  lemma PlainDeclaration(prop: string, value: string)
    requires !IsAspectRatioDecl(Declaration(prop, value)) && !IsStickyDecl(Declaration(prop, value))
    ensures FixAll([Declaration(prop, value)]) == Ok([Declaration(prop, value)])
    ensures TriggersAll([Declaration(prop, value)]) == []
  {
    var d := Declaration(prop, value);
    assert !IsAspectRatioDecl(d) && !IsStickyDecl(d);
    assert NodeIssues(d) == [];
    assert [d][1..] == [];
    assert FixNode(d) == Ok([d]);
    assert [d] + [] == [d];
  }

  /** A sheet of one rule. */
  lemma SingleRule(sel: string, kids: seq<CssNode>, kids': seq<CssNode>)
    requires FixAll(kids) == Ok(kids')
    ensures FixAll([Rule(sel, kids)]) ==
              Ok((if Contains(sel, ":has(") then [Comment("fallback for :has()")] else []) + [Rule(AfterFocus(sel), kids')])
    ensures TriggersAll([Rule(sel, kids)]) == NodeIssues(Rule(sel, kids)) + TriggersAll(kids)
  {
    var n := Rule(sel, kids);
    assert [n][1..] == [];
    var r := FixNode(n).value;
    assert r + [] == r;
  }

  lemma {:induction false} StripAppend(a: string, b: string)
    ensures Strip(a + b) == Strip(a) + Strip(b)
    decreases |a|
  {
    if a != [] {
      TailAppend(a, b);
      StripAppend(a[1..], b);
      AppendAssoc(Kept(a[0]), Strip(a[1..]), Strip(b));
    } else {
      assert a + b == b;
    }
  }

  /** `.A:has(.B)`, for class names A and B, becomes `.A.has-B`:
      `.card:has(.badge)` becomes `.card.has-badge`. */
  lemma HasClassSelector(a: string, b: string)
    requires ':' !in a && |b| > 0 && ':' !in b && ')' !in b && '.' !in b && '#' !in b
    ensures Contains("." + a + ":has(." + b + ")", ":has(")
    ensures AfterHas("." + a + ":has(." + b + ")") == "." + a + ".has-" + b
    ensures !Contains("." + a + ".has-" + b, ":focus-visible")
    ensures AfterFocus("." + a + ":has(." + b + ")") == "." + a + ".has-" + b
  {
    var sel := "." + a + ":has(." + b + ")";
    var out := "." + a + ".has-" + b;
    HasClassFound(a, b);
    HasClassRewrite(a, b);
    assert AfterHas(sel) == out;
    assert ':' !in out;
    ContainsFirstChar(out, ":focus-visible");
  }

  lemma HasClassFound(a: string, b: string)
    ensures Contains("." + a + ":has(." + b + ")", ":has(")
  {
    var sel := "." + a + ":has(." + b + ")";
    var pre := "." + a;
    assert sel == pre + (":has(" + ("." + b + ")"));
    assert sel[|pre|..|pre| + 5] == ":has(";
    ContainsWitness(sel, ":has(", |pre|);
  }

  lemma HasClassRewrite(a: string, b: string)
    requires ':' !in a && |b| > 0 && ')' !in b && '.' !in b && '#' !in b
    ensures HasRewrite("." + a + ":has(." + b + ")") == "." + a + ".has-" + b
  {
    var pre := "." + a;
    var x := "." + b;
    assert "." + a + ":has(." + b + ")" == pre + ":has(" + x + ")" + "";
    ColonFreeHasSplit(pre, x, "");
    StripDot(b);
    HasRewriteEmpty();
    assert pre + ".has-" + b + "" == "." + a + ".has-" + b;
  }

  lemma StripDot(b: string)
    requires '.' !in b && '#' !in b
    ensures Strip("." + b) == b
  {
    StripAppend(".", b);
    assert Strip(".") == [];
  }

  lemma HasRewriteEmpty()
    ensures HasRewrite("") == ""
  {
  }

  /** The rule `.A:has(.B) { ... }` gets a comment before it, and `css-has` is
      reported before whatever its children report. */
  lemma HasClassRule(a: string, b: string, kids: seq<CssNode>, kids': seq<CssNode>)
    requires ':' !in a && |b| > 0 && ':' !in b && ')' !in b && '.' !in b && '#' !in b
    requires FixAll(kids) == Ok(kids')
    ensures FixAll([Rule("." + a + ":has(." + b + ")", kids)])
            == Ok([Comment("fallback for :has()"), Rule("." + a + ".has-" + b, kids')])
    ensures TriggersAll([Rule("." + a + ":has(." + b + ")", kids)]) == [HasId] + TriggersAll(kids)
  {
    var sel := "." + a + ":has(." + b + ")";
    HasClassSelector(a, b);
    SingleRule(sel, kids, kids');
    var c := Comment("fallback for :has()");
    assert [c] + [Rule("." + a + ".has-" + b, kids')] == [c, Rule("." + a + ".has-" + b, kids')];
    assert NodeIssues(Rule(sel, kids)) == [HasId];
  }

  lemma EmptyHasSelector()
    ensures Contains(":has()", ":has(")
    ensures AfterHas(":has()") == ":has()" && !Contains(":has()", ":focus-visible")
    ensures AfterFocus(":has()") == ":has()"
  {
    var e := ":has()";
    assert e[..5] == ":has(";
    ContainsWitness(e, ":has(", 0);
    HasRewriteNeedsArgument();
    ContainsTooLong(e, ":focus-visible");
  }

  lemma CommentOnly(c: CssNode)
    requires c.Comment?
    ensures FixAll([c]) == Ok([c])
    ensures TriggersAll([c]) == []
  {
    assert [c][1..] == [];
    assert NodeIssues(c) == [];
    assert FixNode(c) == Ok([c]);
    assert [c] + [] == [c];
  }

  /** A rule whose selector has a `:has(` and no `:focus-visible` after the
      first step reports `css-has` alone. */
  lemma HasOnlyIssues(sel: string, kids: seq<CssNode>)
    requires Contains(sel, ":has(") && !Contains(AfterHas(sel), ":focus-visible")
    ensures NodeIssues(Rule(sel, kids)) == [HasId]
  {
    assert IsHasRule(Rule(sel, kids)) && !IsFocusRule(Rule(sel, kids));
  }

  /** `:has()` is reported and gets its comment but keeps its selector. */
  lemma EmptyHasRule(kids: seq<CssNode>, kids': seq<CssNode>)
    requires FixAll(kids) == Ok(kids')
    ensures FixAll([Rule(":has()", kids)]) == Ok([Comment("fallback for :has()"), Rule(":has()", kids')])
    ensures TriggersAll([Rule(":has()", kids)]) == [HasId] + TriggersAll(kids)
  {
    var e := ":has()";
    var c := Comment("fallback for :has()");
    EmptyHasSelector();
    SingleRule(e, kids, kids');
    assert FixAll([Rule(e, kids)]) == Ok([c] + [Rule(e, kids')]);
    assert [c] + [Rule(e, kids')] == [c, Rule(e, kids')];
    HasOnlyIssues(e, kids);
    assert TriggersAll([Rule(e, kids)]) == [HasId] + TriggersAll(kids);
  }

  /** So a second run over the output adds a second comment. */
  lemma EmptyHasCommentedEachRun(kids: seq<CssNode>)
    requires FixAll(kids) == Ok(kids)
    ensures FixAll([Comment("fallback for :has()"), Rule(":has()", kids)])
            == Ok([Comment("fallback for :has()"), Comment("fallback for :has()"), Rule(":has()", kids)])
  {
    var r := Rule(":has()", kids);
    var c := Comment("fallback for :has()");
    EmptyHasRule(kids, kids);
    CommentOnly(c);
    assert [c, r] == [c] + [r];
    FixAllAppend([c], [r]);
    assert [c] + [c, r] == [c, c, r];
  }

  lemma HasRewriteCloseParen()
    ensures HasRewrite(")") == ")"
  {
    ContainsFirstChar(")", ":has(");
    HasRewriteUnchanged(")");
  }

  /** One visit of `:has(:has(X))` stops the match at the first `)` and so
      leaves a `:has(` in the selector... */
  lemma NestedHasOnce(pre: string, x: string)
    requires ':' !in pre && |x| > 0 && ')' !in x && '.' !in x && '#' !in x
    ensures HasRewrite(pre + ":has(" + (":has(" + x) + ")" + ")") == pre + ".has-" + (":has(" + x) + ")"
  {
    var inner := ":has(" + x;
    ColonFreeHasSplit(pre, inner, ")");
    assert '.' !in inner && '#' !in inner;
    HasRewriteCloseParen();
  }

  /** ... which a second visit rewrites again. */
  lemma NestedHasNeedsTwoVisits(pre: string, x: string)
    requires ':' !in pre && |x| > 0 && ')' !in x && '.' !in x && '#' !in x
    ensures Contains(pre + ".has-" + (":has(" + x) + ")", ":has(")
    ensures HasRewrite(pre + ".has-" + (":has(" + x) + ")") == pre + ".has-" + ".has-" + x
  {
    var p := pre + ".has-";
    var once := pre + ".has-" + (":has(" + x) + ")";
    assert once == p + ":has(" + x + ")" + "";
    assert once[|p|..|p| + 5] == ":has(";
    ContainsWitness(once, ":has(", |p|);
    assert ':' !in p;
    ColonFreeHasSplit(p, x, "");
    HasRewriteEmpty();
  }

  /** `:focus-visible-visible` becomes `:focus-visible`... */
  lemma FocusVisibleVisible(pre: string)
    requires ':' !in pre
    ensures FocusRewrite(pre + ":focus-visible" + "-visible") == pre + ":focus-visible"
  {
    var v := "-visible";
    ColonFreeNoFocusMatch(pre, ":focus-visible" + v);
    assert pre + (":focus-visible" + v) == pre + ":focus-visible" + v;
    FocusRewriteSplit(pre, v);
    ContainsTooLong(v, ":focus-visible");
    FocusRewriteUnchanged(v);
    FocusPlusVisible();
    AppendAssoc(pre, ":focus", v);
  }

  lemma FocusPlusVisible()
    ensures ":focus" + "-visible" == ":focus-visible"
  {
  }

  /** ... which a second visit turns into `:focus`. */
  lemma FocusNeedsTwoVisits(pre: string)
    requires ':' !in pre
    ensures FocusRewrite(FocusRewrite(pre + ":focus-visible" + "-visible")) == pre + ":focus"
  {
    FocusVisibleVisible(pre);
    ColonFreeNoFocusMatch(pre, ":focus-visible" + "");
    assert pre + (":focus-visible" + "") == pre + ":focus-visible" + "";
    FocusRewriteSplit(pre, "");
    assert pre + ":focus-visible" + "" == pre + ":focus-visible";
    assert FocusRewrite("") == "";
    assert pre + ":focus" + "" == pre + ":focus";
  }
}
