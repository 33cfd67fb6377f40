/** The editor side (extension/extension.js): the rule list built from the
    web-features dataset, the line scanner that turns pattern matches into
    diagnostics, the quick-fix provider and the hover provider. The VS Code
    objects are reduced to the values they carry. */
module Extension {
  import opened Wrappers
  import opened Text
  import opened FeatureMap

  // ---------------------------------------------------------------------
  // The rule list.
  // ---------------------------------------------------------------------

  /** `status.baseline` of a web-features record: `false`, `"low"` or `"high"`. */
  datatype Baseline = NotBaseline | Low | High

  /** A web-features record; `status` is absent for some records. */
  datatype WebFeature = WebFeature(id: string, name: string, description: string, spec: string,
                                   status: Option<Baseline>)

  datatype BaselineRule = BaselineRule(id: string, name: string, description: string, spec: string,
                                       detect: Pattern, language: Language)

  /** The filter: `status.baseline === false` and the id has a registry entry. */
  predicate Selected(f: WebFeature)
  {
    f.status == Some(NotBaseline) && Lookup(f.id).Some?
  }

  /** The map: the record's texts with the registry's pattern and language. */
  function RuleOf(f: WebFeature): BaselineRule
    requires Lookup(f.id).Some?
  {
    var e := Lookup(f.id).value;
    BaselineRule(f.id, f.name, f.description, f.spec, e.detect, e.language)
  }

  /** `nonBaselineRules`, from the dataset's records in their order. */
  function NonBaselineRules(features: seq<WebFeature>): (rules: seq<BaselineRule>)
    ensures |rules| <= |features|
  {
    if features == [] then []
    else (if Selected(features[0]) then [RuleOf(features[0])] else []) + NonBaselineRules(features[1..])
  }

  /** The rules are exactly the selected records, each carrying its registry entry. */
  lemma {:induction false} NonBaselineRulesSpec(features: seq<WebFeature>)
    ensures forall r :: r in NonBaselineRules(features) <==>
              exists f :: f in features && Selected(f) && r == RuleOf(f)
    ensures forall r :: r in NonBaselineRules(features) ==>
              Lookup(r.id) == Some(Entry(r.language, r.detect))
    decreases |features|
  {
    if features != [] {
      NonBaselineRulesSpec(features[1..]);
      var head := if Selected(features[0]) then [RuleOf(features[0])] else [];
      assert NonBaselineRules(features) == head + NonBaselineRules(features[1..]);
      forall r ensures r in NonBaselineRules(features) <==>
                 exists f :: f in features && Selected(f) && r == RuleOf(f) {
        if r in NonBaselineRules(features) {
          if r in head {
            assert features[0] in features;
          } else {
            var f :| f in features[1..] && Selected(f) && r == RuleOf(f);
            assert f in features;
          }
        }
        if exists f :: f in features && Selected(f) && r == RuleOf(f) {
          var f :| f in features && Selected(f) && r == RuleOf(f);
          if f != features[0] {
            assert f in features[1..];
          }
        }
      }
    }
  }

  /** Every rule the scanner and the hover provider use has a well-formed pattern. */
  predicate ValidRules(rules: seq<BaselineRule>)
  {
    forall k :: 0 <= k < |rules| ==> Anchored(rules[k].detect)
  }

  lemma NonBaselineRulesValid(features: seq<WebFeature>)
    ensures ValidRules(NonBaselineRules(features))
  {
    var rules := NonBaselineRules(features);
    NonBaselineRulesSpec(features);
    PatternsStartWithLiteral();
    forall k | 0 <= k < |rules| ensures Anchored(rules[k].detect) {
      assert rules[k] in rules;
      var e := Lookup(rules[k].id).value;
      var j :| 0 <= j < |Registry| && Registry[j] == (rules[k].id, e);
      assert WellFormed(Registry[j].1.detect);
    }
  }

  // ---------------------------------------------------------------------
  // `regex.exec` with the `g` flag.
  // ---------------------------------------------------------------------

  /** A match: its index in the line and its length (`match[0].length`). */
  datatype Match = Match(index: nat, length: nat)

  /** A regex as the scanner sees it on one line: the length of the match
      that starts at each index, if one does. */
  type Matcher = nat -> Option<nat>

  /** A registry pattern on `line`. */
  function MatcherOf(p: Pattern, line: string): Matcher
  {
    (i: nat) => MatchAt(p, line, i)
  }

  /** Matches are non-empty and end inside a line of length `n`. */
  ghost predicate Proper(m: Matcher, n: nat)
  {
    forall i: nat :: m(i).Some? ==> 0 < m(i).value && i + m(i).value <= n
  }

  lemma MatcherProper(p: Pattern, line: string)
    requires Anchored(p)
    ensures Proper(MatcherOf(p, line), |line|)
  {
    forall i: nat | MatcherOf(p, line)(i).Some?
      ensures 0 < MatcherOf(p, line)(i).value && i + MatcherOf(p, line)(i).value <= |line|
    {
      MatchPositive(p, line, i);
    }
  }

  /** `regex.exec` with `lastIndex == from`: the leftmost match that starts
      at or after `from`. */
  function ExecIn(m: Matcher, n: nat, from: nat): (r: Option<Match>)
    ensures r.Some? ==> from <= r.value.index && m(r.value.index) == Some(r.value.length)
    decreases n - from
  {
    match m(from)
    case Some(len) => Some(Match(from, len))
    case None => if from >= n then None else ExecIn(m, n, from + 1)
  }

  function Exec(p: Pattern, line: string, from: nat): Option<Match>
  {
    ExecIn(MatcherOf(p, line), |line|, from)
  }

  /** The matches the `while (regex.exec(...))` loop visits from `lastIndex == from`. */
  function MatchesIn(m: Matcher, n: nat, from: nat): seq<Match>
    requires Proper(m, n)
    decreases n + 1 - from
  {
    match ExecIn(m, n, from)
    case None => []
    case Some(x) => [x] + MatchesIn(m, n, x.index + x.length)
  }

  function MatchesFrom(p: Pattern, line: string, from: nat): seq<Match>
    requires Anchored(p)
  {
    MatcherProper(p, line);
    MatchesIn(MatcherOf(p, line), |line|, from)
  }

  /** `exec` finds the leftmost match, and finds nothing only when there is none. */
  lemma {:induction false} ExecInSpec(m: Matcher, n: nat, from: nat)
    requires Proper(m, n)
    ensures ExecIn(m, n, from).Some? ==>
              forall k :: from <= k < ExecIn(m, n, from).value.index ==> m(k).None?
    ensures ExecIn(m, n, from).None? ==> forall k :: from <= k ==> m(k).None?
    decreases n - from
  {
    if m(from).None? {
      if from >= n {
        assert forall k: nat :: from <= k ==> m(k).None?;
      } else {
        ExecInSpec(m, n, from + 1);
      }
    }
  }

  /** Matches seen from `from` are the first one and those seen after it. */
  lemma MatchesInStep(m: Matcher, n: nat, from: nat)
    requires Proper(m, n) && ExecIn(m, n, from).Some?
    ensures ExecIn(m, n, from).value.index + ExecIn(m, n, from).value.length <= n
    ensures from < ExecIn(m, n, from).value.index + ExecIn(m, n, from).value.length
    ensures MatchesIn(m, n, from)
            == [ExecIn(m, n, from).value]
               + MatchesIn(m, n, ExecIn(m, n, from).value.index + ExecIn(m, n, from).value.length)
  {
    var x := ExecIn(m, n, from).value;
    assert m(x.index) == Some(x.length);
  }

  /** A visited match is a real, non-empty match inside the line. */
  predicate InLine(m: Matcher, n: nat, from: nat, x: Match)
  {
    from <= x.index && 0 < x.length && x.index + x.length <= n && m(x.index) == Some(x.length)
  }

  lemma {:induction false} MatchInSoundAt(m: Matcher, n: nat, from: nat, k: nat)
    requires Proper(m, n) && k < |MatchesIn(m, n, from)|
    ensures InLine(m, n, from, MatchesIn(m, n, from)[k])
    ensures k + 1 < |MatchesIn(m, n, from)| ==>
              MatchesIn(m, n, from)[k].index + MatchesIn(m, n, from)[k].length
              <= MatchesIn(m, n, from)[k + 1].index
    decreases n + 1 - from
  {
    MatchesInStep(m, n, from);
    var x := ExecIn(m, n, from).value;
    var next := x.index + x.length;
    var rest := MatchesIn(m, n, next);
    assert MatchesIn(m, n, from) == [x] + rest;
    if k == 0 {
      if 0 < |rest| {
        MatchInSoundAt(m, n, next, 0);
      }
    } else {
      MatchInSoundAt(m, n, next, k - 1);
    }
  }

  /** Every visited match is a real, non-empty match inside the line, and the
      matches come in increasing order without overlapping. */
  lemma MatchesSound(p: Pattern, line: string, from: nat)
    requires Anchored(p)
    ensures forall k :: 0 <= k < |MatchesFrom(p, line, from)| ==>
              InLine(MatcherOf(p, line), |line|, from, MatchesFrom(p, line, from)[k])
    ensures forall k :: 0 <= k < |MatchesFrom(p, line, from)| - 1 ==>
              MatchesFrom(p, line, from)[k].index + MatchesFrom(p, line, from)[k].length
              <= MatchesFrom(p, line, from)[k + 1].index
  {
    MatcherProper(p, line);
    forall k | 0 <= k < |MatchesFrom(p, line, from)|
      ensures InLine(MatcherOf(p, line), |line|, from, MatchesFrom(p, line, from)[k])
      ensures k + 1 < |MatchesFrom(p, line, from)| ==>
                MatchesFrom(p, line, from)[k].index + MatchesFrom(p, line, from)[k].length
                <= MatchesFrom(p, line, from)[k + 1].index
    {
      MatchInSoundAt(MatcherOf(p, line), |line|, from, k);
    }
  }

  /** Every place where the pattern matches lies inside some visited match. */
  lemma {:induction false} MatchesInComplete(m: Matcher, n: nat, from: nat, k: nat)
    requires Proper(m, n)
    requires from <= k && m(k).Some?
    ensures exists j :: 0 <= j < |MatchesIn(m, n, from)|
              && MatchesIn(m, n, from)[j].index <= k
              < MatchesIn(m, n, from)[j].index + MatchesIn(m, n, from)[j].length
    decreases n + 1 - from
  {
    ExecInSpec(m, n, from);
    MatchesInStep(m, n, from);
    var ms := MatchesIn(m, n, from);
    var x := ExecIn(m, n, from).value;
    var next := x.index + x.length;
    var rest := MatchesIn(m, n, next);
    assert ms == [x] + rest;
    if k < next {
      assert ms[0] == x;
    } else {
      MatchesInComplete(m, n, next, k);
      var j :| 0 <= j < |rest| && rest[j].index <= k < rest[j].index + rest[j].length;
      assert ms[j + 1] == rest[j];
    }
  }

  lemma MatchesComplete(p: Pattern, line: string, k: nat)
    requires Anchored(p) && MatchAt(p, line, k).Some?
    ensures exists j :: 0 <= j < |MatchesFrom(p, line, 0)|
              && MatchesFrom(p, line, 0)[j].index <= k
              < MatchesFrom(p, line, 0)[j].index + MatchesFrom(p, line, 0)[j].length
  {
    MatcherProper(p, line);
    var m := MatcherOf(p, line);
    assert m(k) == MatchAt(p, line, k);
    MatchesInComplete(m, |line|, 0, k);
    assert MatchesFrom(p, line, 0) == MatchesIn(m, |line|, 0);
  }

  /** The loop step: the match found heads the visited matches, and the loop
      goes on after it. */
  lemma StepOf(m: Matcher, n: nat, from: nat, x: Match)
    requires Proper(m, n) && ExecIn(m, n, from) == Some(x)
    ensures from < x.index + x.length <= n
    ensures MatchesIn(m, n, from) == [x] + MatchesIn(m, n, x.index + x.length)
  {
    MatchesInStep(m, n, from);
  }

  // ---------------------------------------------------------------------
  // Diagnostics.
  // ---------------------------------------------------------------------

  datatype Severity = Warning

  /** A range on one line, from `start` to `end`. */
  datatype Span = Span(line: nat, start: nat, end: nat)
  {
    /** `Range.contains(position)`: both ends are included. */
    predicate Contains(pos: Position)
    {
      pos.line == line && start <= pos.character <= end
    }
  }

  datatype Position = Position(line: nat, character: nat)

  /** `new vscode.Range(line, a, line, b)`: the two ends are put in order. */
  function MakeRange(line: nat, a: nat, b: nat): (r: Span)
    ensures r.line == line && r.start <= r.end
    ensures a <= b ==> r == Span(line, a, b)
  {
    if a <= b then Span(line, a, b) else Span(line, b, a)
  }

  datatype Diagnostic = Diagnostic(range: Span, message: Message, severity: Severity,
                                   code: string, source: string)

  const Source := "Baseline Autopilot"

  /** The notice both providers show for a feature: its name, set in bold
      when it goes into a hover's Markdown, then " is not a Baseline feature.".
      It is kept as a value; `Render` spells it out. */
  datatype Message = NotBaselineNotice(name: string, markdown: bool)

  function Render(m: Message): (s: string)
    ensures EndsWith(s, " is not a Baseline feature.")
  {
    (if m.markdown then "**" + m.name + "**" else m.name) + " is not a Baseline feature."
  }

  /** The rendered notice determines the feature name, so two rules with
      different names never show the same text. */
  lemma RenderInjective(m: Message, n: Message)
    requires m.markdown == n.markdown && Render(m) == Render(n)
    ensures m == n
  {
    var tail := " is not a Baseline feature.";
    var s := Render(m);
    if m.markdown {
      assert s == "**" + m.name + "**" + tail;
      assert s == "**" + n.name + "**" + tail;
      assert m.name == s[2..|s| - |tail| - 2];
      assert n.name == s[2..|s| - |tail| - 2];
    } else {
      assert m.name == s[..|s| - |tail|];
      assert n.name == s[..|s| - |tail|];
    }
  }

  /** `${rule.name} is not a Baseline feature.` */
  function DiagnosticMessage(rule: BaselineRule): Message
  {
    NotBaselineNotice(rule.name, false)
  }

  function DiagnosticOf(i: nat, rule: BaselineRule, m: Match): Diagnostic
  {
    Diagnostic(MakeRange(i, m.index, m.index + m.length), DiagnosticMessage(rule),
               Warning, rule.id, Source)
  }

  function DiagnosticsOf(i: nat, rule: BaselineRule, ms: seq<Match>): (ds: seq<Diagnostic>)
    ensures |ds| == |ms|
  {
    if ms == [] then [] else [DiagnosticOf(i, rule, ms[0])] + DiagnosticsOf(i, rule, ms[1..])
  }

  lemma {:induction false} DiagnosticsOfAt(i: nat, rule: BaselineRule, ms: seq<Match>, k: nat)
    requires k < |ms|
    ensures DiagnosticsOf(i, rule, ms)[k] == DiagnosticOf(i, rule, ms[k])
    decreases k
  {
    if k > 0 {
      DiagnosticsOfAt(i, rule, ms[1..], k - 1);
    }
  }

  lemma {:induction false} DiagnosticsOfSnoc(i: nat, rule: BaselineRule, ms: seq<Match>, m: Match)
    ensures DiagnosticsOf(i, rule, ms + [m]) == DiagnosticsOf(i, rule, ms) + [DiagnosticOf(i, rule, m)]
    decreases |ms|
  {
    if ms == [] {
      assert ms + [m] == [m];
      assert [m][1..] == [];
    } else {
      assert (ms + [m])[0] == ms[0] && (ms + [m])[1..] == ms[1..] + [m];
      DiagnosticsOfSnoc(i, rule, ms[1..], m);
    }
  }

  /** What the `while` loop pushes for one rule on line `i`. */
  function RuleDiagnostics(i: nat, text: string, rule: BaselineRule): seq<Diagnostic>
    requires Anchored(rule.detect)
  {
    DiagnosticsOf(i, rule, MatchesFrom(rule.detect, text, 0))
  }

  /** What the loop over the first `j` rules pushes for line `i`. */
  function LineDiagnostics(i: nat, text: string, rules: seq<BaselineRule>, docType: Language, j: nat)
    : seq<Diagnostic>
    requires ValidRules(rules) && j <= |rules|
  {
    if j == 0 then []
    else LineDiagnostics(i, text, rules, docType, j - 1)
         + (if rules[j - 1].language == docType then RuleDiagnostics(i, text, rules[j - 1]) else [])
  }

  /** What the loop over the first `n` lines pushes. */
  function DocumentDiagnostics(lines: seq<string>, rules: seq<BaselineRule>, docType: Language, n: nat)
    : seq<Diagnostic>
    requires ValidRules(rules) && n <= |lines|
  {
    if n == 0 then []
    else DocumentDiagnostics(lines, rules, docType, n - 1)
         + LineDiagnostics(n - 1, lines[n - 1], rules, docType, |rules|)
  }

  /** The `while` loop for one rule on one line. */
  method ScanRule(i: nat, text: string, rule: BaselineRule) returns (ds: seq<Diagnostic>)
    requires Anchored(rule.detect)
    ensures ds == RuleDiagnostics(i, text, rule)
  {
    MatcherProper(rule.detect, text);
    ds := ScanMatches(i, rule, MatcherOf(rule.detect, text), |text|);
  }

  /** The same loop over the matches of any regex on a line of length `n`. */
  method ScanMatches(i: nat, rule: BaselineRule, m: Matcher, n: nat) returns (ds: seq<Diagnostic>)
    requires Proper(m, n)
    ensures ds == DiagnosticsOf(i, rule, MatchesIn(m, n, 0))
  {
    ds := [];
    ghost var all := MatchesIn(m, n, 0);
    ghost var found: seq<Match> := [];
    ghost var rest := all;
    var lastIndex := 0;
    var match_ := ExecIn(m, n, lastIndex);
    while match_.Some?
      invariant rest == MatchesIn(m, n, lastIndex)
      invariant found + rest == all
      invariant match_ == ExecIn(m, n, lastIndex)
      invariant lastIndex <= n
      invariant ds == DiagnosticsOf(i, rule, found)
      decreases n - lastIndex
    {
      var x := match_.value;
      StepOf(m, n, lastIndex, x);
      ShiftOne(found, rest);
      DiagnosticsOfSnoc(i, rule, found, x);
      ds := ds + [DiagnosticOf(i, rule, x)];
      found := found + [x];
      rest := rest[1..];
      lastIndex := x.index + x.length;
      match_ := ExecIn(m, n, lastIndex);
    }
    assert found == all;
  }

  lemma ShiftOne<T>(done: seq<T>, rest: seq<T>)
    requires rest != []
    ensures done + [rest[0]] + rest[1..] == done + rest
  {
    assert rest == [rest[0]] + rest[1..];
  }

  /** The two `for` loops of `updateDiagnostics`. */
  method ScanDocument(lines: seq<string>, rules: seq<BaselineRule>, docType: Language)
      returns (diagnostics: seq<Diagnostic>)
    requires ValidRules(rules)
    ensures diagnostics == DocumentDiagnostics(lines, rules, docType, |lines|)
  {
    diagnostics := [];
    for i := 0 to |lines|
      invariant diagnostics == DocumentDiagnostics(lines, rules, docType, i)
    {
      ghost var before := diagnostics;
      for j := 0 to |rules|
        invariant diagnostics == before + LineDiagnostics(i, lines[i], rules, docType, j)
      {
        var rule := rules[j];
        ghost var upTo := LineDiagnostics(i, lines[i], rules, docType, j);
        if rule.language == docType {
          var ds := ScanRule(i, lines[i], rule);
          AppendAssoc(before, upTo, ds);
          diagnostics := diagnostics + ds;
        } else {
          assert upTo + [] == upTo;
        }
      }
    }
  }

  /** A diagnostic as the scanner produces it: a match of a rule of the
      document's type on an existing line, labelled with that rule. */
  predicate IsScannedDiagnostic(lines: seq<string>, rules: seq<BaselineRule>, docType: Language, d: Diagnostic)
  {
    d.range.line < |lines| && d.range.start < d.range.end <= |lines[d.range.line]|
    && d.severity == Warning && d.source == Source
    && exists k :: 0 <= k < |rules| && rules[k].language == docType
         && d.code == rules[k].id && d.message == DiagnosticMessage(rules[k])
         && MatchAt(rules[k].detect, lines[d.range.line], d.range.start) == Some(d.range.end - d.range.start)
  }

  lemma RuleDiagnosticSoundAt(lines: seq<string>, rules: seq<BaselineRule>, docType: Language,
                              i: nat, k: nat, t: nat, d: Diagnostic)
    requires ValidRules(rules) && i < |lines| && k < |rules| && rules[k].language == docType
    requires t < |RuleDiagnostics(i, lines[i], rules[k])| && RuleDiagnostics(i, lines[i], rules[k])[t] == d
    ensures d.range.line == i && IsScannedDiagnostic(lines, rules, docType, d)
  {
    var ms := MatchesFrom(rules[k].detect, lines[i], 0);
    MatchFoundAt(rules[k].detect, lines[i], t);
    DiagnosticsOfAt(i, rules[k], ms, t);
    assert d == DiagnosticOf(i, rules[k], ms[t]);
    ScannedDiagnosticBy(lines, rules, docType, d, k);
  }

  /** The `t`-th visited match is a non-empty match of `p` inside the line. */
  lemma MatchFoundAt(p: Pattern, line: string, t: nat)
    requires Anchored(p) && t < |MatchesFrom(p, line, 0)|
    ensures 0 < MatchesFrom(p, line, 0)[t].length
    ensures MatchesFrom(p, line, 0)[t].index + MatchesFrom(p, line, 0)[t].length <= |line|
    ensures MatchAt(p, line, MatchesFrom(p, line, 0)[t].index) == Some(MatchesFrom(p, line, 0)[t].length)
  {
    var mp := MatcherOf(p, line);
    MatcherProper(p, line);
    assert MatchesFrom(p, line, 0) == MatchesIn(mp, |line|, 0);
    MatchInSoundAt(mp, |line|, 0, t);
    var m := MatchesIn(mp, |line|, 0)[t];
    assert mp(m.index) == MatchAt(p, line, m.index);
  }

  lemma ScannedDiagnosticBy(lines: seq<string>, rules: seq<BaselineRule>, docType: Language, d: Diagnostic, k: nat)
    requires d.range.line < |lines| && d.range.start < d.range.end <= |lines[d.range.line]|
    requires d.severity == Warning && d.source == Source
    requires k < |rules| && rules[k].language == docType
    requires d.code == rules[k].id && d.message == DiagnosticMessage(rules[k])
    requires MatchAt(rules[k].detect, lines[d.range.line], d.range.start) == Some(d.range.end - d.range.start)
    ensures IsScannedDiagnostic(lines, rules, docType, d)
  {
  }

  lemma RuleDiagnosticsSound(lines: seq<string>, rules: seq<BaselineRule>, docType: Language,
                             i: nat, k: nat)
    requires ValidRules(rules) && i < |lines| && k < |rules| && rules[k].language == docType
    ensures forall d :: d in RuleDiagnostics(i, lines[i], rules[k]) ==>
              d.range.line == i && IsScannedDiagnostic(lines, rules, docType, d)
  {
    var ds := RuleDiagnostics(i, lines[i], rules[k]);
    forall d | d in ds
      ensures d.range.line == i && IsScannedDiagnostic(lines, rules, docType, d)
    {
      var t :| 0 <= t < |ds| && ds[t] == d;
      RuleDiagnosticSoundAt(lines, rules, docType, i, k, t, d);
    }
  }

  lemma {:induction false} LineDiagnosticsSound(lines: seq<string>, rules: seq<BaselineRule>,
                                                docType: Language, i: nat, j: nat)
    requires ValidRules(rules) && i < |lines| && j <= |rules|
    ensures forall d :: d in LineDiagnostics(i, lines[i], rules, docType, j) ==>
              d.range.line == i && IsScannedDiagnostic(lines, rules, docType, d)
  {
    if j > 0 {
      LineDiagnosticsSound(lines, rules, docType, i, j - 1);
      if rules[j - 1].language == docType {
        RuleDiagnosticsSound(lines, rules, docType, i, j - 1);
      }
    }
  }

  lemma {:induction false} DocumentDiagnosticsOnLines(lines: seq<string>, rules: seq<BaselineRule>,
                                                       docType: Language, n: nat)
    requires ValidRules(rules) && n <= |lines|
    ensures forall d :: d in DocumentDiagnostics(lines, rules, docType, n) ==>
              d.range.line < n && IsScannedDiagnostic(lines, rules, docType, d)
  {
    if n > 0 {
      DocumentDiagnosticsOnLines(lines, rules, docType, n - 1);
      LineDiagnosticsSound(lines, rules, docType, n - 1, |rules|);
      var prev := DocumentDiagnostics(lines, rules, docType, n - 1);
      var last := LineDiagnostics(n - 1, lines[n - 1], rules, docType, |rules|);
      assert DocumentDiagnostics(lines, rules, docType, n) == prev + last;
      forall d: Diagnostic | d in prev + last
        ensures d.range.line < n && IsScannedDiagnostic(lines, rules, docType, d)
      {
        if d !in prev {
          assert d in last;
        }
      }
    }
  }

  lemma LineDiagnosticsOnLine(lines: seq<string>, rules: seq<BaselineRule>, docType: Language, i: nat)
    requires ValidRules(rules) && i < |lines|
    ensures OnLine(LineDiagnostics(i, lines[i], rules, docType, |rules|), i)
  {
    LineDiagnosticsSound(lines, rules, docType, i, |rules|);
  }

  lemma DocumentDiagnosticsBelow(lines: seq<string>, rules: seq<BaselineRule>, docType: Language, n: nat)
    requires ValidRules(rules) && n <= |lines|
    ensures Before(DocumentDiagnostics(lines, rules, docType, n), n)
  {
    DocumentDiagnosticsOnLines(lines, rules, docType, n);
  }

  /** Diagnostics on lines before `i`. */
  predicate Before(ds: seq<Diagnostic>, i: nat)
  {
    forall d :: d in ds ==> d.range.line < i
  }

  /** Diagnostics on line `i`. */
  predicate OnLine(ds: seq<Diagnostic>, i: nat)
  {
    forall d :: d in ds ==> d.range.line == i
  }

  /** Diagnostics ordered by line. */
  predicate ByLine(ds: seq<Diagnostic>)
  {
    forall a, b :: 0 <= a < b < |ds| ==> ds[a].range.line <= ds[b].range.line
  }

  /** Diagnostics of lines before `i` followed by those of line `i` stay ordered by line. */
  lemma ByLineAppend(prev: seq<Diagnostic>, last: seq<Diagnostic>, i: nat)
    requires ByLine(prev)
    requires Before(prev, i) && OnLine(last, i)
    ensures ByLine(prev + last)
  {
    var all := prev + last;
    forall a, b | 0 <= a < b < |all| ensures all[a].range.line <= all[b].range.line {
      if b >= |prev| {
        assert all[b] == last[b - |prev|] && all[b] in last;
        if a < |prev| {
          assert all[a] in prev;
        } else {
          assert all[a] == last[a - |prev|] && all[a] in last;
        }
      }
    }
  }

  lemma {:induction false} DocumentDiagnosticsOrdered(lines: seq<string>, rules: seq<BaselineRule>,
                                                      docType: Language, n: nat)
    requires ValidRules(rules) && n <= |lines|
    ensures ByLine(DocumentDiagnostics(lines, rules, docType, n))
  {
    if n > 0 {
      var prev := DocumentDiagnostics(lines, rules, docType, n - 1);
      var last := LineDiagnostics(n - 1, lines[n - 1], rules, docType, |rules|);
      assert ByLine(prev + last) by {
        DocumentDiagnosticsOrdered(lines, rules, docType, n - 1);
        DocumentDiagnosticsBelow(lines, rules, docType, n - 1);
        LineDiagnosticsOnLine(lines, rules, docType, n - 1);
        ByLineAppend(prev, last, n - 1);
      }
      assert DocumentDiagnostics(lines, rules, docType, n) == prev + last;
    }
  }

  /** Every diagnostic is a match of a rule of the document's type, with a
      non-empty span inside its line, and they are ordered by line. */
  lemma DocumentDiagnosticsSound(lines: seq<string>, rules: seq<BaselineRule>, docType: Language, n: nat)
    requires ValidRules(rules) && n <= |lines|
    ensures forall d :: d in DocumentDiagnostics(lines, rules, docType, n) ==>
              d.range.line < n && IsScannedDiagnostic(lines, rules, docType, d)
    ensures forall a, b :: 0 <= a < b < |DocumentDiagnostics(lines, rules, docType, n)| ==>
              DocumentDiagnostics(lines, rules, docType, n)[a].range.line
              <= DocumentDiagnostics(lines, rules, docType, n)[b].range.line
  {
    DocumentDiagnosticsOnLines(lines, rules, docType, n);
    DocumentDiagnosticsOrdered(lines, rules, docType, n);
  }

  /** Each match of a rule of the document's type has a diagnostic that covers it. */
  lemma {:induction false} DocumentDiagnosticsComplete(lines: seq<string>, rules: seq<BaselineRule>,
                                                        docType: Language, i: nat, k: nat, c: nat)
    requires ValidRules(rules) && i < |lines| && k < |rules| && rules[k].language == docType
    requires MatchAt(rules[k].detect, lines[i], c).Some?
    ensures exists d :: d in DocumentDiagnostics(lines, rules, docType, |lines|)
              && d.code == rules[k].id && d.range.line == i && d.range.start <= c < d.range.end
  {
    var ms := MatchesFrom(rules[k].detect, lines[i], 0);
    MatchesComplete(rules[k].detect, lines[i], c);
    var t :| 0 <= t < |ms| && ms[t].index <= c < ms[t].index + ms[t].length;
    var d := DiagnosticOf(i, rules[k], ms[t]);
    DiagnosticsOfAt(i, rules[k], ms, t);
    assert d in RuleDiagnostics(i, lines[i], rules[k]);
    LineContains(i, lines[i], rules, docType, k, |rules|, d);
    DocumentContains(lines, rules, docType, i, |lines|, d);
  }

  lemma {:induction false} LineContains(i: nat, text: string, rules: seq<BaselineRule>, docType: Language,
                                        k: nat, j: nat, d: Diagnostic)
    requires ValidRules(rules) && k < j <= |rules| && rules[k].language == docType
    requires d in RuleDiagnostics(i, text, rules[k])
    ensures d in LineDiagnostics(i, text, rules, docType, j)
  {
    if k < j - 1 {
      LineContains(i, text, rules, docType, k, j - 1, d);
    }
  }

  lemma {:induction false} DocumentContains(lines: seq<string>, rules: seq<BaselineRule>, docType: Language,
                                            i: nat, n: nat, d: Diagnostic)
    requires ValidRules(rules) && i < n <= |lines|
    requires d in LineDiagnostics(i, lines[i], rules, docType, |rules|)
    ensures d in DocumentDiagnostics(lines, rules, docType, n)
  {
    var prev := DocumentDiagnostics(lines, rules, docType, n - 1);
    var last := LineDiagnostics(n - 1, lines[n - 1], rules, docType, |rules|);
    assert DocumentDiagnostics(lines, rules, docType, n) == prev + last;
    if i < n - 1 {
      DocumentContains(lines, rules, docType, i, n - 1, d);
      assert d in prev;
    } else {
      assert d in last;
    }
  }

  // ---------------------------------------------------------------------
  // The diagnostic collection and `updateDiagnostics`.
  // ---------------------------------------------------------------------

  datatype Document = Document(uri: string, languageId: string, lines: seq<string>)

  /** The document type for the two supported languages. */
  function DocType(languageId: string): (r: Option<Language>)
    ensures r.Some? <==> languageId == "javascript" || languageId == "css"
    ensures r == Some(JS) <==> languageId == "javascript"
  {
    if languageId == "javascript" then Some(JS)
    else if languageId == "css" then Some(CSS)
    else None
  }

  /** The diagnostics the editor shows, by document uri. */
  class DiagnosticCollection {
    var entries: map<string, seq<Diagnostic>>

    constructor ()
      ensures entries == map[]
    {
      entries := map[];
    }

    /** `collection.set(uri, diagnostics)` */
    method Set(uri: string, diagnostics: seq<Diagnostic>)
      modifies this
      ensures entries == old(entries)[uri := diagnostics]
    {
      entries := entries[uri := diagnostics];
    }
  }

  /** `updateDiagnostics`: documents of other languages leave the collection
      as it is; otherwise the document's entry is replaced by its scan. */
  method UpdateDiagnostics(document: Document, rules: seq<BaselineRule>, collection: DiagnosticCollection)
    requires ValidRules(rules)
    modifies collection
    ensures DocType(document.languageId).None? ==> collection.entries == old(collection.entries)
    ensures DocType(document.languageId).Some? ==>
              collection.entries == old(collection.entries)[document.uri :=
                DocumentDiagnostics(document.lines, rules, DocType(document.languageId).value, |document.lines|)]
  {
    if !(document.languageId == "javascript" || document.languageId == "css") {
      return;
    }
    var docType := if document.languageId == "javascript" then JS else CSS;
    var diagnostics := ScanDocument(document.lines, rules, docType);
    collection.Set(document.uri, diagnostics);
  }

  // ---------------------------------------------------------------------
  // Quick fixes.
  // ---------------------------------------------------------------------

  datatype ActionKind = QuickFix

  datatype Command = Command(command: string, title: string, arguments: seq<Document>)

  datatype CodeAction = CodeAction(title: string, kind: ActionKind, diagnostics: seq<Diagnostic>,
                                   isPreferred: bool, command: Command)

  function QuickFixFor(document: Document, d: Diagnostic): CodeAction
  {
    CodeAction("Apply Baseline Autofix", QuickFix, [d], true,
               Command("baselineAutopilot.autofix", "Apply Autofix", [document]))
  }

  /** `provideCodeActions`: one action per diagnostic of this extension. */
  function ProvideCodeActions(document: Document, diagnostics: seq<Diagnostic>): seq<CodeAction>
  {
    if diagnostics == [] then []
    else (if diagnostics[0].source == Source then [QuickFixFor(document, diagnostics[0])] else [])
         + ProvideCodeActions(document, diagnostics[1..])
  }

  function CountOwn(diagnostics: seq<Diagnostic>): nat
  {
    if diagnostics == [] then 0
    else (if diagnostics[0].source == Source then 1 else 0) + CountOwn(diagnostics[1..])
  }

  /** Each action is the quick fix for exactly one of this extension's
      diagnostics, and each of those diagnostics has its action. */
  lemma {:induction false} ProvideCodeActionsSpec(document: Document, diagnostics: seq<Diagnostic>)
    ensures |ProvideCodeActions(document, diagnostics)| == CountOwn(diagnostics)
    ensures forall a :: a in ProvideCodeActions(document, diagnostics) ==>
              |a.diagnostics| == 1 && a.diagnostics[0] in diagnostics && a.diagnostics[0].source == Source
              && a == QuickFixFor(document, a.diagnostics[0])
    ensures forall d :: d in diagnostics && d.source == Source ==>
              QuickFixFor(document, d) in ProvideCodeActions(document, diagnostics)
    decreases |diagnostics|
  {
    if diagnostics != [] {
      ProvideCodeActionsSpec(document, diagnostics[1..]);
      forall d | d in diagnostics && d.source == Source
        ensures QuickFixFor(document, d) in ProvideCodeActions(document, diagnostics)
      {
        if d != diagnostics[0] {
          assert d in diagnostics[1..];
        }
      }
    }
  }

  // ---------------------------------------------------------------------
  // Hover.
  // ---------------------------------------------------------------------

  datatype Hover = Hover(contents: Message, range: Span)

  /** `**${rule.name}** is not a Baseline feature.`, as Markdown. */
  function HoverMessage(rule: BaselineRule): Message
  {
    NotBaselineNotice(rule.name, true)
  }

  /** The range of a match on line `line`, from its index to its end. */
  function MatchRange(line: nat, m: Match): Span
  {
    MakeRange(line, m.index, m.index + m.length)
  }

  /** The range as the hover provider builds it: it ends at column
      `match[0].length` rather than `index + length`. */
  function WrittenRange(line: nat, m: Match): Span
  {
    MakeRange(line, m.index, m.length)
  }

  /** Where a hover range ends: at the match's end, or at column
      `match[0].length` as the hover provider writes it. */
  datatype RangeEnd = MatchEnd | LengthEnd

  function RangeOf(rangeEnd: RangeEnd, line: nat, m: Match): Span
  {
    match rangeEnd
    case MatchEnd => MatchRange(line, m)
    case LengthEnd => WrittenRange(line, m)
  }

  /** The first of `ms` whose range contains `pos`. */
  function FirstHover(rule: BaselineRule, ms: seq<Match>, pos: Position, rangeEnd: RangeEnd)
    : Option<Hover>
  {
    if ms == [] then None
    else if RangeOf(rangeEnd, pos.line, ms[0]).Contains(pos) then Some(Hover(HoverMessage(rule), RangeOf(rangeEnd, pos.line, ms[0])))
    else FirstHover(rule, ms[1..], pos, rangeEnd)
  }

  /** The hover for `pos` on the line `text`: rules of both languages in
      order, and for each rule its matches in order. */
  function HoverSearch(rules: seq<BaselineRule>, text: string, pos: Position, rangeEnd: RangeEnd)
    : Option<Hover>
    requires ValidRules(rules)
  {
    if rules == [] then None
    else match FirstHover(rules[0], MatchesFrom(rules[0].detect, text, 0), pos, rangeEnd)
      case Some(h) => Some(h)
      case None => HoverSearch(rules[1..], text, pos, rangeEnd)
  }

  /** `provideHover`. `rangeEnd` picks each match's range: `LengthEnd` builds
      it as the source does, ending at column `match[0].length`; `MatchEnd`
      ends it at the match's end, as intended (see WrittenHoverMisses). */
  method ProvideHover(document: Document, position: Position, rules: seq<BaselineRule>, rangeEnd: RangeEnd)
    returns (h: Option<Hover>)
    requires ValidRules(rules) && position.line < |document.lines|
    ensures h == HoverSearch(rules, document.lines[position.line], position, rangeEnd)
  {
    var line := document.lines[position.line];
    for j := 0 to |rules|
      invariant HoverSearch(rules, line, position, rangeEnd) == HoverSearch(rules[j..], line, position, rangeEnd)
    {
      HoverSearchCons(rules[j..], line, position, rangeEnd);
      assert rules[j..][0] == rules[j] && rules[j..][1..] == rules[j + 1..];
      h := HoverInRule(rules[j], line, position, rangeEnd);
      if h.Some? {
        return;
      }
    }
    return None;
  }

  /** The inner `while` loop of `provideHover` for one rule. */
  method HoverInRule(rule: BaselineRule, line: string, position: Position, rangeEnd: RangeEnd) returns (h: Option<Hover>)
    requires Anchored(rule.detect)
    ensures h == FirstHover(rule, MatchesFrom(rule.detect, line, 0), position, rangeEnd)
  {
    MatcherProper(rule.detect, line);
    h := HoverInMatches(rule, MatcherOf(rule.detect, line), |line|, position, rangeEnd);
  }

  /** The same loop over the matches of any regex on a line of length `n`. */
  method HoverInMatches(rule: BaselineRule, m: Matcher, n: nat, position: Position, rangeEnd: RangeEnd)
    returns (h: Option<Hover>)
    requires Proper(m, n)
    ensures h == FirstHover(rule, MatchesIn(m, n, 0), position, rangeEnd)
  {
    ghost var goal := FirstHover(rule, MatchesIn(m, n, 0), position, rangeEnd);
    var lastIndex := 0;
    var match_ := ExecIn(m, n, lastIndex);
    while match_.Some?
      invariant lastIndex <= n && match_ == ExecIn(m, n, lastIndex)
      invariant goal == FirstHover(rule, MatchesIn(m, n, lastIndex), position, rangeEnd)
      decreases n - lastIndex
    {
      var hit, next := HoverAt(rule, m, n, lastIndex, match_.value, position, rangeEnd);
      if hit.Some? {
        return hit;
      }
      lastIndex := next;
      match_ := ExecIn(m, n, lastIndex);
    }
    HoverDone(rule, m, n, lastIndex, position, rangeEnd);
    return None;
  }

  /** One turn of the hover loop: the range of the visited match `x`, the
      hover when it contains the position, and otherwise where the search
      resumes (`lastIndex` is past the match whichever end the range has). */
  method HoverAt(rule: BaselineRule, m: Matcher, n: nat, from: nat, x: Match, position: Position, rangeEnd: RangeEnd)
    returns (hit: Option<Hover>, next: nat)
    requires Proper(m, n) && ExecIn(m, n, from) == Some(x)
    ensures hit.Some? ==> hit == FirstHover(rule, MatchesIn(m, n, from), position, rangeEnd)
    ensures hit.None? ==> from < next <= n
                          && FirstHover(rule, MatchesIn(m, n, from), position, rangeEnd)
                             == FirstHover(rule, MatchesIn(m, n, next), position, rangeEnd)
  {
    var matchRange := RangeOf(rangeEnd, position.line, x);
    if matchRange.Contains(position) {
      HoverHit(rule, m, n, from, x, position, rangeEnd, matchRange);
      return Some(Hover(HoverMessage(rule), matchRange)), from;
    }
    next := x.index + x.length;
    HoverAdvance(rule, m, n, from, x, position, rangeEnd, matchRange, next);
    hit := None;
  }

  /** The hover loop stops at a visited match whose range contains the
      position, and that match is the first hover of the remaining ones. */
  lemma HoverHit(rule: BaselineRule, m: Matcher, n: nat, from: nat, x: Match, pos: Position,
                 rangeEnd: RangeEnd, r: Span)
    requires Proper(m, n) && ExecIn(m, n, from) == Some(x)
    requires r == RangeOf(rangeEnd, pos.line, x) && r.Contains(pos)
    ensures FirstHover(rule, MatchesIn(m, n, from), pos, rangeEnd) == Some(Hover(HoverMessage(rule), r))
  {
    StepOf(m, n, from, x);
    FirstHoverStep(rule, x, MatchesIn(m, n, from), pos, rangeEnd, r);
  }

  /** A visited match whose range misses the position: the search goes on
      after it. */
  lemma HoverAdvance(rule: BaselineRule, m: Matcher, n: nat, from: nat, x: Match, pos: Position,
                     rangeEnd: RangeEnd, r: Span, next: nat)
    requires Proper(m, n) && ExecIn(m, n, from) == Some(x) && next == x.index + x.length
    requires r == RangeOf(rangeEnd, pos.line, x) && !r.Contains(pos)
    ensures from < next <= n
    ensures FirstHover(rule, MatchesIn(m, n, from), pos, rangeEnd) == FirstHover(rule, MatchesIn(m, n, next), pos, rangeEnd)
  {
    StepOf(m, n, from, x);
    FirstHoverStep(rule, x, MatchesIn(m, n, from), pos, rangeEnd, r);
    assert MatchesIn(m, n, from)[1..] == MatchesIn(m, n, next);
  }

  /** No match is left: the remaining search finds nothing. */
  lemma HoverDone(rule: BaselineRule, m: Matcher, n: nat, from: nat, pos: Position, rangeEnd: RangeEnd)
    requires Proper(m, n) && ExecIn(m, n, from) == None
    ensures FirstHover(rule, MatchesIn(m, n, from), pos, rangeEnd) == None
  {
    assert MatchesIn(m, n, from) == [];
  }

  /** One step of the search for the first match that contains the position. */
  lemma FirstHoverStep(rule: BaselineRule, x: Match, ms: seq<Match>, pos: Position, rangeEnd: RangeEnd, r: Span)
    requires ms != [] && ms[0] == x && r == RangeOf(rangeEnd, pos.line, x)
    ensures FirstHover(rule, ms, pos, rangeEnd)
            == if r.Contains(pos) then Some(Hover(HoverMessage(rule), r)) else FirstHover(rule, ms[1..], pos, rangeEnd)
  {
  }

  lemma FirstHoverCons(rule: BaselineRule, x: Match, rest: seq<Match>, pos: Position,
                       rangeEnd: RangeEnd)
    ensures FirstHover(rule, [x] + rest, pos, rangeEnd)
            == if RangeOf(rangeEnd, pos.line, x).Contains(pos) then Some(Hover(HoverMessage(rule), RangeOf(rangeEnd, pos.line, x)))
               else FirstHover(rule, rest, pos, rangeEnd)
  {
    assert ([x] + rest)[0] == x && ([x] + rest)[1..] == rest;
  }

  lemma HoverSearchCons(rules: seq<BaselineRule>, text: string, pos: Position, rangeEnd: RangeEnd)
    requires ValidRules(rules) && rules != []
    ensures ValidRules(rules[1..])
    ensures HoverSearch(rules, text, pos, rangeEnd)
            == match FirstHover(rules[0], MatchesFrom(rules[0].detect, text, 0), pos, rangeEnd)
               case Some(h) => Some(h)
               case None => HoverSearch(rules[1..], text, pos, rangeEnd)
  {
    assert forall k :: 0 <= k < |rules| - 1 ==> rules[1..][k] == rules[k + 1];
  }

  lemma {:induction false} FirstHoverSpec(rule: BaselineRule, ms: seq<Match>, pos: Position,
                                          rangeEnd: RangeEnd)
    ensures FirstHover(rule, ms, pos, rangeEnd).Some? <==>
              exists t :: 0 <= t < |ms| && RangeOf(rangeEnd, pos.line, ms[t]).Contains(pos)
    ensures FirstHover(rule, ms, pos, rangeEnd).Some? ==>
              exists t :: 0 <= t < |ms| && RangeOf(rangeEnd, pos.line, ms[t]).Contains(pos)
                && FirstHover(rule, ms, pos, rangeEnd) == Some(Hover(HoverMessage(rule), RangeOf(rangeEnd, pos.line, ms[t])))
    decreases |ms|
  {
    if ms != [] && !RangeOf(rangeEnd, pos.line, ms[0]).Contains(pos) {
      FirstHoverSpec(rule, ms[1..], pos, rangeEnd);
      if exists t :: 0 <= t < |ms| && RangeOf(rangeEnd, pos.line, ms[t]).Contains(pos) {
        var t :| 0 <= t < |ms| && RangeOf(rangeEnd, pos.line, ms[t]).Contains(pos);
        assert ms[1..][t - 1] == ms[t];
      }
      if FirstHover(rule, ms, pos, rangeEnd).Some? {
        var t :| 0 <= t < |ms[1..]| && RangeOf(rangeEnd, pos.line, ms[1..][t]).Contains(pos)
                 && FirstHover(rule, ms[1..], pos, rangeEnd)
                    == Some(Hover(HoverMessage(rule), RangeOf(rangeEnd, pos.line, ms[1..][t])));
        assert ms[1..][t] == ms[t + 1];
      }
    } else if ms != [] {
      assert RangeOf(rangeEnd, pos.line, ms[0]).Contains(pos);
    }
  }

  /** Some visited match of `rule` has a range that contains `pos`. */
  predicate RuleRangeContains(rule: BaselineRule, text: string, pos: Position, rangeEnd: RangeEnd)
    requires Anchored(rule.detect)
  {
    exists t :: 0 <= t < |MatchesFrom(rule.detect, text, 0)|
      && RangeOf(rangeEnd, pos.line, MatchesFrom(rule.detect, text, 0)[t]).Contains(pos)
  }

  /** Some match of some rule has a range that contains `pos`. */
  predicate SomeRangeContains(rules: seq<BaselineRule>, text: string, pos: Position, rangeEnd: RangeEnd)
    requires ValidRules(rules)
  {
    exists k :: 0 <= k < |rules| && RuleRangeContains(rules[k], text, pos, rangeEnd)
  }

  lemma SomeRangeContainsCons(rules: seq<BaselineRule>, text: string, pos: Position, rangeEnd: RangeEnd)
    requires ValidRules(rules) && rules != []
    ensures ValidRules(rules[1..])
    ensures SomeRangeContains(rules, text, pos, rangeEnd)
            <==> RuleRangeContains(rules[0], text, pos, rangeEnd) || SomeRangeContains(rules[1..], text, pos, rangeEnd)
  {
    var tail := rules[1..];
    assert forall k :: 0 <= k < |tail| ==> tail[k] == rules[k + 1];
    if SomeRangeContains(rules, text, pos, rangeEnd) {
      var k :| 0 <= k < |rules| && RuleRangeContains(rules[k], text, pos, rangeEnd);
      if k > 0 {
        assert RuleRangeContains(tail[k - 1], text, pos, rangeEnd);
      }
    }
  }

  /** A hover is found exactly when some match's range contains the position;
      it names a rule and carries that match's range. */
  lemma {:induction false} HoverSearchSpec(rules: seq<BaselineRule>, text: string, pos: Position,
                                           rangeEnd: RangeEnd)
    requires ValidRules(rules)
    ensures HoverSearch(rules, text, pos, rangeEnd).Some? <==> SomeRangeContains(rules, text, pos, rangeEnd)
    ensures HoverSearch(rules, text, pos, rangeEnd).Some? ==>
              HoverSearch(rules, text, pos, rangeEnd).value.range.Contains(pos)
              && (exists k :: 0 <= k < |rules|
                    && HoverSearch(rules, text, pos, rangeEnd).value.contents == HoverMessage(rules[k]))
    decreases |rules|
  {
    if rules != [] {
      var ms := MatchesFrom(rules[0].detect, text, 0);
      var tail := rules[1..];
      FirstHoverSpec(rules[0], ms, pos, rangeEnd);
      HoverSearchCons(rules, text, pos, rangeEnd);
      SomeRangeContainsCons(rules, text, pos, rangeEnd);
      HoverSearchSpec(tail, text, pos, rangeEnd);
      var h := HoverSearch(rules, text, pos, rangeEnd);
      if FirstHover(rules[0], ms, pos, rangeEnd).Some? {
        assert h.value.contents == HoverMessage(rules[0]);
      } else if h.Some? {
        var k :| 0 <= k < |tail| && h.value.contents == HoverMessage(tail[k]);
        assert tail[k] == rules[k + 1];
      }
    }
  }

  /** The intended range of a match contains exactly the columns from its
      index to its end, both included. */
  lemma MatchRangeContains(pos: Position, m: Match)
    ensures MatchRange(pos.line, m).Contains(pos) <==> m.index <= pos.character <= m.index + m.length
  {
  }

  /** Match `m` covers column `c`, its end included. */
  predicate Covers(m: Match, c: nat)
  {
    m.index <= c <= m.index + m.length
  }

  /** Some visited match of `rule` covers column `c`. */
  predicate RuleCovers(rule: BaselineRule, text: string, c: nat)
    requires Anchored(rule.detect)
  {
    exists t :: 0 <= t < |MatchesFrom(rule.detect, text, 0)| && Covers(MatchesFrom(rule.detect, text, 0)[t], c)
  }

  /** Some visited match of some rule covers column `c`. */
  predicate SomeMatchCovers(rules: seq<BaselineRule>, text: string, c: nat)
    requires ValidRules(rules)
  {
    exists k :: 0 <= k < |rules| && RuleCovers(rules[k], text, c)
  }

  /** For one rule, the intended ranges contain `pos` exactly when a match
      covers its column. */
  lemma RuleHoverCovers(rule: BaselineRule, text: string, pos: Position)
    requires Anchored(rule.detect)
    ensures RuleRangeContains(rule, text, pos, MatchEnd) <==> RuleCovers(rule, text, pos.character)
  {
    var ms := MatchesFrom(rule.detect, text, 0);
    if RuleRangeContains(rule, text, pos, MatchEnd) {
      var t :| 0 <= t < |ms| && MatchRange(pos.line, ms[t]).Contains(pos);
      MatchRangeContains(pos, ms[t]);
    }
    if RuleCovers(rule, text, pos.character) {
      var t :| 0 <= t < |ms| && Covers(ms[t], pos.character);
      MatchRangeContains(pos, ms[t]);
    }
  }

  /** With the intended range, a hover is shown exactly when the position lies
      within a match (its end column included, as `Range.contains` does). */
  lemma HoverFindsMatches(rules: seq<BaselineRule>, text: string, pos: Position)
    requires ValidRules(rules)
    ensures HoverSearch(rules, text, pos, MatchEnd).Some? <==> SomeMatchCovers(rules, text, pos.character)
  {
    HoverSearchSpec(rules, text, pos, MatchEnd);
    if SomeRangeContains(rules, text, pos, MatchEnd) {
      var k :| 0 <= k < |rules| && RuleRangeContains(rules[k], text, pos, MatchEnd);
      RuleHoverCovers(rules[k], text, pos);
    }
    if SomeMatchCovers(rules, text, pos.character) {
      var k :| 0 <= k < |rules| && RuleCovers(rules[k], text, pos.character);
      RuleHoverCovers(rules[k], text, pos);
    }
  }

  /** The written range misses a match that starts past column `length`: on
      the line `pre + t`, where `pre` holds at least `|t|` characters and not
      `t[0]`, hovering one column after the start of the match finds nothing,
      while the intended range finds the rule. */
  lemma WrittenHoverMisses(rule: BaselineRule, pre: string)
    requires rule.detect.Literal? && |rule.detect.text| > 0
    requires rule.detect.text[0] !in pre && |pre| >= |rule.detect.text|
    ensures HoverSearch([rule], pre + rule.detect.text, Position(0, |pre| + 1), LengthEnd) == None
    ensures HoverSearch([rule], pre + rule.detect.text, Position(0, |pre| + 1), MatchEnd)
            == Some(Hover(HoverMessage(rule), Span(0, |pre|, |pre| + |rule.detect.text|)))
  {
    WrittenLiteralMiss(rule, pre);
    IntendedLiteralHit(rule, pre);
  }

  lemma WrittenLiteralMiss(rule: BaselineRule, pre: string)
    requires rule.detect.Literal? && |rule.detect.text| > 0
    requires rule.detect.text[0] !in pre && |pre| >= |rule.detect.text|
    ensures HoverSearch([rule], pre + rule.detect.text, Position(0, |pre| + 1), LengthEnd) == None
  {
    OnlyLiteralMatch(rule, pre);
    RangesPastLength(|pre|, |rule.detect.text|);
    SingleMatchMiss(rule, pre + rule.detect.text, Match(|pre|, |rule.detect.text|), Position(0, |pre| + 1), LengthEnd);
  }

  lemma IntendedLiteralHit(rule: BaselineRule, pre: string)
    requires rule.detect.Literal? && |rule.detect.text| > 0 && rule.detect.text[0] !in pre
    ensures HoverSearch([rule], pre + rule.detect.text, Position(0, |pre| + 1), MatchEnd)
            == Some(Hover(HoverMessage(rule), Span(0, |pre|, |pre| + |rule.detect.text|)))
  {
    OnlyLiteralMatch(rule, pre);
    SingleMatchHit(rule, pre + rule.detect.text, Match(|pre|, |rule.detect.text|), Position(0, |pre| + 1));
    // The helper's range, with its destructors still applied, is the literal span.
    assert HoverSearch([rule], pre + rule.detect.text, Position(0, |pre| + 1), MatchEnd)
        == Some(Hover(HoverMessage(rule), Span(Position(0, |pre| + 1).line, Match(|pre|, |rule.detect.text|).index,
                                              Match(|pre|, |rule.detect.text|).index + Match(|pre|, |rule.detect.text|).length)));
    assert Span(Position(0, |pre| + 1).line, Match(|pre|, |rule.detect.text|).index,
                Match(|pre|, |rule.detect.text|).index + Match(|pre|, |rule.detect.text|).length)
        == Span(0, |pre|, |pre| + |rule.detect.text|);
  }

  lemma SingleMatchMiss(rule: BaselineRule, text: string, x: Match, pos: Position, rangeEnd: RangeEnd)
    requires Anchored(rule.detect) && MatchesFrom(rule.detect, text, 0) == [x]
    requires !RangeOf(rangeEnd, pos.line, x).Contains(pos)
    ensures HoverSearch([rule], text, pos, rangeEnd) == None
  {
    SingleMatchHover(rule, text, x, pos, rangeEnd);
  }

  lemma SingleMatchHit(rule: BaselineRule, text: string, x: Match, pos: Position)
    requires Anchored(rule.detect) && MatchesFrom(rule.detect, text, 0) == [x]
    requires Span(pos.line, x.index, x.index + x.length).Contains(pos)
    ensures HoverSearch([rule], text, pos, MatchEnd) == Some(Hover(HoverMessage(rule), Span(pos.line, x.index, x.index + x.length)))
  {
    assert RangeOf(MatchEnd, pos.line, x) == Span(pos.line, x.index, x.index + x.length);
    SingleMatchHover(rule, text, x, pos, MatchEnd);
  }

  lemma OnlyLiteralMatch(rule: BaselineRule, pre: string)
    requires rule.detect.Literal? && |rule.detect.text| > 0 && rule.detect.text[0] !in pre
    ensures Anchored(rule.detect)
    ensures MatchesFrom(rule.detect, pre + rule.detect.text, 0) == [Match(|pre|, |rule.detect.text|)]
  {
    OnlyMatchAfter(rule.detect.text, pre);
    assert rule.detect == Literal(rule.detect.text);
  }

  /** With a single rule that matches once, the hover is that match's, if its
      range contains the position. */
  lemma SingleMatchHover(rule: BaselineRule, text: string, x: Match, pos: Position,
                         rangeEnd: RangeEnd)
    requires Anchored(rule.detect) && MatchesFrom(rule.detect, text, 0) == [x]
    ensures ValidRules([rule])
    ensures HoverSearch([rule], text, pos, rangeEnd)
            == if RangeOf(rangeEnd, pos.line, x).Contains(pos) then Some(Hover(HoverMessage(rule), RangeOf(rangeEnd, pos.line, x)))
               else None
  {
    HoverSearchOne(rule, text, pos, rangeEnd);
    FirstHoverOne(rule, x, pos, rangeEnd);
  }

  /** A match whose index is at least its length: one column after its start
      lies outside the written range but inside the intended one. */
  lemma RangesPastLength(index: nat, length: nat)
    requires 0 < length <= index
    ensures !WrittenRange(0, Match(index, length)).Contains(Position(0, index + 1))
    ensures MatchRange(0, Match(index, length)) == Span(0, index, index + length)
    ensures MatchRange(0, Match(index, length)).Contains(Position(0, index + 1))
  {
  }

  lemma FirstHoverOne(rule: BaselineRule, x: Match, pos: Position, rangeEnd: RangeEnd)
    ensures FirstHover(rule, [x], pos, rangeEnd)
            == if RangeOf(rangeEnd, pos.line, x).Contains(pos) then Some(Hover(HoverMessage(rule), RangeOf(rangeEnd, pos.line, x)))
               else None
  {
    assert [x][0] == x && [x][1..] == [];
  }

  lemma HoverSearchOne(rule: BaselineRule, text: string, pos: Position, rangeEnd: RangeEnd)
    requires Anchored(rule.detect)
    ensures ValidRules([rule])
    ensures HoverSearch([rule], text, pos, rangeEnd) == FirstHover(rule, MatchesFrom(rule.detect, text, 0), pos, rangeEnd)
  {
    assert [rule][0] == rule && [rule][1..] == [];
  }

  /** On the line `pre + t`, where `pre` does not hold `t[0]`, the literal `t`
      is found once, right after `pre`. */
  lemma OnlyMatchAfter(t: string, pre: string)
    requires |t| > 0 && t[0] !in pre
    ensures MatchesFrom(Literal(t), pre + t, 0) == [Match(|pre|, |t|)]
  {
    var line := pre + t;
    var m := MatcherOf(Literal(t), line);
    MatcherProper(Literal(t), line);
    forall k: nat | k < |pre| ensures m(k).None? {
      assert line[k + 0] == pre[k];
    }
    assert LiteralAt(line, t, |pre|) by {
      forall j | 0 <= j < |t| ensures line[|pre| + j] == t[j] { }
    }
    assert m(|pre|) == Some(|t|);
    ExecInFirst(m, |line|, 0, |pre|);
    assert m(|line|).None?;
    assert ExecIn(m, |line|, |line|) == None;
    MatchesInStep(m, |line|, 0);
    assert MatchesFrom(Literal(t), line, 0) == MatchesIn(m, |line|, 0);
  }

  /** `exec` from `from` returns the first index at which the regex matches. */
  lemma {:induction false} ExecInFirst(m: Matcher, n: nat, from: nat, i: nat)
    requires Proper(m, n) && from <= i && m(i).Some?
    requires forall k: nat :: from <= k < i ==> m(k).None?
    ensures ExecIn(m, n, from) == Some(Match(i, m(i).value))
    decreases i - from
  {
    if from < i {
      assert m(from).None?;
      assert i + m(i).value <= n;
      ExecInFirst(m, n, from + 1, i);
    }
  }
}
