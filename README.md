# Baseline Autopilot, modelled in Dafny

Baseline Autopilot flags web-platform features that are not yet "Baseline"
and rewrites some of them into older equivalents. This project models its core
and proves properties of the model.

- **Registry,** module `FeatureMap` (`extension/feature-map.js`): the eight registry entries and their detection regexes.
- **JavaScript engine,** module `AutofixAst` (`extension/autofix-ast.js`): a pre-order walk over the syntax tree. It reports `structuredClone(...)`, `new AbortController(...)` and `Promise.any(...)`, and renames the constructor in place.
- **CSS/SCSS engine,** module `AutofixCss` (`extension/autofix-css.js`): postcss visitors that report five features and rewrite four of them:
  - `@container` becomes `@media (min-width: Npx)`;
  - `:has(X)` becomes `.has-X`;
  - `:focus-visible` becomes `:focus`;
  - `aspect-ratio` becomes a padding fallback.
- **Ordered id set,** module `InsertionSet`: the `Set` plus `Array.from` that both engines use to collect ids in first-encounter order.
- **Editor extension,** module `Extension` (`extension/extension.js`):
  - the rule list built from the web-features records;
  - the line scanner that turns regex matches into diagnostics;
  - the quick-fix provider;
  - the hover provider.
- **Command-line scanner,** module `Scanner` (`src/scanner.js`):
  - `scanFile`, `scanFolder` and `runScanner`, over a modelled file system (class `Workspace`);
  - the report lines and the Markdown report.
- **Demo generator,** module `GenerateDemo` (`generate-demo.cjs`):
  - `escapeHTML`;
  - `createSideBySideDiff`, whose loops build the two panes;
  - the insights aggregation over the sample files.
- **String helpers,** module `Text`: the JavaScript string operations the others share.

State the source changes in place is imperative Dafny:
- the walks, with their loops;
- the diagnostic collection;
- the files and the report of the scanner;
- the demo's panes and its insights record.

Each such method is proved against a pure specification function. The properties are lemmas about those functions.

The parser and printer (acorn/escodegen, postcss), the VS Code API, the web-features dataset, the file system and the line-diff library are not part of this model. Their inputs and outputs are parameters: trees, records, `Env`, diff parts.

## Model

| member | source | states |
|---|---|---|
| FeatureMap.LookupIn | extension/feature-map.js:2-35 | `featureMap[id]` is defined exactly when some entry has that id, and then it is that entry |
| FeatureMap.RegistryShape | extension/feature-map.js:2-35 | eight entries with distinct ids; five are CSS, three are JS |
| FeatureMap.RegistryLookup | extension/feature-map.js:2-35 | looking up each entry's id gives that entry |
| FeatureMap.LookupInDistinct | extension/feature-map.js:2-35 | in a table with distinct ids, every row's id finds its own row |
| FeatureMap.SkipSpacesSpec | extension/feature-map.js:21 | `\s*` consumes a run of JavaScript whitespace and stops at the first non-space |
| FeatureMap.PatternsStartWithLiteral | extension/feature-map.js:3-34 | every detection regex begins with a non-empty literal whose first character is not whitespace, and so does the text after `\s*` |
| FeatureMap.MatchPositive | extension/feature-map.js:3-34 | a match of an anchored pattern is non-empty and lies inside the line |
| FeatureMap.StickyAcceptsAnySpaces | extension/feature-map.js:21 | `position:\s*sticky` matches with any whitespace run between the colon and `sticky`, including none |
| FeatureMap.AspectRatioNeedsColon | extension/feature-map.js:17 | `aspect-ratio:` does not match `aspect-ratio : 1` and does match `aspect-ratio: 1` |
| FeatureMap.AbortControllerSpacing | extension/feature-map.js:29 | two spaces after `new` defeat the pattern; a space before `(` does not |
| InsertionSet.Add | extension/autofix-ast.js:13 | `set.add` keeps the elements distinct and always holds `x` afterwards: the sequence is unchanged when `x` was present, and `x` is appended when it is new |
| InsertionSet.AddAllProperties | extension/autofix-ast.js:8-28 | adding keeps the earlier elements as a prefix, adds exactly the new ones, and adds no duplicate |
| InsertionSet.AddAllOrder | extension/autofix-ast.js:28 | new elements come out in the order of their first occurrence |
| InsertionSet.FromSeqSpec | extension/autofix-ast.js:28 | `Array.from(new Set(xs))` holds each element of `xs` once, in first-encounter order |
| InsertionSet.FromSeqWithout | extension/autofix-ast.js:28 | removing an element before or after collecting gives the same sequence |
| AutofixAst.Visit | extension/autofix-ast.js:15-18 | the in-place rename leaves the node's number of children as it was |
| AutofixAst.Enter | extension/autofix-ast.js:11-24 | the enter hook gives the renamed node, and adds the node's ids to the set in the order of the three checks |
| AutofixAst.EnterIssues | extension/autofix-ast.js:12-23 | the three independent `add` calls of one node equal adding its ids in check order |
| AutofixAst.VisitedChildren | extension/autofix-ast.js:15-18 | walking the children of the renamed node reports and rewrites what the original children specify |
| AutofixAst.Walk | extension/autofix-ast.js:10-25 | the recursive walk with its loop over children returns the rewritten tree and the set grown by the ids in visiting order |
| AutofixAst.ApplyJSAutofix | extension/autofix-ast.js:6-29 | the tree comes back rewritten; `issuesFound` holds each reported id exactly once, in first-encounter order |
| AutofixAst.TriggersIff | extension/autofix-ast.js:10-25 | an id is reported iff some node at any depth has the shape that adds it |
| AutofixAst.TriggersAllIff | extension/autofix-ast.js:10-25 | the same over a list of sibling nodes |
| AutofixAst.DetectsExactly | extension/autofix-ast.js:12-23 | each of the three ids is reported exactly for its call or construction shape, in both directions |
| AutofixAst.TriggersAreJsIds | extension/autofix-ast.js:13-21 | only the three JavaScript ids are ever reported |
| AutofixAst.ReportedIdsAreRegistered | extension/autofix-ast.js:13-21 | every reported id is a registry key whose language is JS |
| AutofixAst.JsIdRegistered | extension/autofix-ast.js:13-21 | each of the three JavaScript ids is a JS registry key |
| AutofixAst.Untouched | extension/autofix-ast.js:10-25 | nothing is reported iff no node has a flagged shape; the tree is unchanged iff it has no `new AbortController(...)` |
| AutofixAst.FixedUnchanged | extension/autofix-ast.js:15-18 | without `new AbortController(...)` the walk changes nothing |
| AutofixAst.FixedKeepsKind | extension/autofix-ast.js:17 | the rewrite maps identifiers to themselves and keeps calls and member accesses what they are |
| AutofixAst.NoConstructionAfterFix | extension/autofix-ast.js:15-18 | no `new AbortController(...)` is left after the walk |
| AutofixAst.FixedCharacterized | extension/autofix-ast.js:15-18 | the result is the unique tree that differs from the input only by such renames and has no construction left |
| AutofixAst.FixedIdempotent | extension/autofix-ast.js:15-18 | a second rewrite changes nothing |
| AutofixAst.NodeIssuesAfterFix | extension/autofix-ast.js:12-23 | at one node, renaming removes the `api-abortcontroller` check and keeps the other two |
| AutofixAst.SecondPassTriggers | extension/autofix-ast.js:10-25 | on the rewritten tree the walk meets the same ids except `api-abortcontroller` |
| AutofixAst.RunTwice | extension/autofix-ast.js:6-29 | the engine on its own output: the tree is a fixpoint, and the ids are the first run's minus `api-abortcontroller`, in order |
| AutofixAst.PrivateAnyFlagged | extension/autofix-ast.js:19-20 | `Promise.#any()`, whose property is a private name with `name` `any`, is flagged as `javascript-promise-any` and by no other check |
| AutofixAst.ExampleTriggers | test-originals/comprehensive-unsafe.js:5-23 | each statement of the sample reports its own feature alone |
| AutofixAst.ComprehensiveTriggers | test-originals/comprehensive-unsafe.js:5-23 | the sample's three flagged expressions, in source order, meet `api-abortcontroller`, `javascript-promise-any`, `javascript-structuredclone` in that order |
| AutofixAst.ComprehensiveReportsEachOnce | test-originals/comprehensive-unsafe.js:5-23 | the sample's three flagged expressions, in source order, report each of the three ids once, in that order |
| AutofixAst.ComprehensiveRewrite | extension/autofix-ast.js:17 | only the constructor of the sample is renamed |
| AutofixCss.Strip | extension/autofix-css.js:23 | `inner.replace(/[.#]/g, '')` has no `.` or `#`, keeps only characters of the input, and is the identity on text without them |
| AutofixCss.CloseParenSpec | extension/autofix-css.js:23 | `[^)]+` stops at the first `)` |
| AutofixCss.FirstDigitSpec | extension/autofix-css.js:16 | the search for `\d+` starts at the first digit |
| AutofixCss.DigitRunEndSpec | extension/autofix-css.js:16 | `\d+` ends at the first non-digit |
| AutofixCss.VisitNode | extension/autofix-css.js:12-45 | one node's visitor, then its children, gives what the specification says the node becomes; on success, the set grows by the node's ids in visiting order |
| AutofixCss.VisitAll | extension/autofix-css.js:51 | the loop over siblings gives the specified list, or stops at the first throw |
| AutofixCss.ApplyCSSAutofix | extension/autofix-css.js:5-54 | result or error as specified; on success `issuesFound` is distinct and holds exactly the reported ids |
| AutofixCss.VisitedIssues | extension/autofix-css.js:12-45 | the `add` calls of one node come from its single visitor, in the visitor's order, before its children's |
| AutofixCss.HasRewriteUnchanged | extension/autofix-css.js:23 | a selector without `:has(` is left as it is |
| AutofixCss.HasMatchFound | extension/autofix-css.js:23 | `:has(X)` with non-empty X without `)` is a match that closes at that `)` |
| AutofixCss.HasRewriteAtMatch | extension/autofix-css.js:23 | a match at the start becomes `.has-` plus X stripped, and replacing goes on after it |
| AutofixCss.HasRewriteKeeps | extension/autofix-css.js:23 | a character other than `:` is kept |
| AutofixCss.HasRewritePrefix | extension/autofix-css.js:23 | text in which no match starts is kept as it is |
| AutofixCss.HasRewriteSplit | extension/autofix-css.js:23 | the leftmost match is replaced; the text before it, in which no match starts (it may hold other colons and pseudo-classes), is kept and the search resumes after its `)` |
| AutofixCss.PseudoClassBeforeHas | extension/autofix-css.js:23 | a pseudo-class before the match, as in `a:hover:has(.b)`, is kept and the match after it is rewritten |
| AutofixCss.HasRewriteNeedsArgument | extension/autofix-css.js:23 | `:has()` and an unclosed `:has(` are not matches |
| AutofixCss.FocusRewriteUnchanged | extension/autofix-css.js:28 | a selector without `:focus-visible` is left as it is |
| AutofixCss.FocusRewriteKeeps | extension/autofix-css.js:28 | a character other than `:` is kept |
| AutofixCss.FocusRewriteAtMatch | extension/autofix-css.js:28 | a match at the start becomes `:focus` |
| AutofixCss.FocusRewriteSplit | extension/autofix-css.js:28 | text before the leftmost match, in which no `:focus-visible` starts, is kept, the match becomes `:focus`, and the search resumes after it |
| AutofixCss.PseudoClassBeforeFocus | extension/autofix-css.js:28 | a pseudo-class before the match, as in `button:not(.x):focus-visible`, is kept and the match after it becomes `:focus` |
| AutofixCss.ContainerParamsSpec | extension/autofix-css.js:16 | the new parameters throw iff the old ones hold no digit; otherwise they are `(min-width: Npx)` for the leftmost maximal digit run N |
| AutofixCss.FirstDigitRunAt | extension/autofix-css.js:16 | `match(/\d+/)` finds the leftmost maximal digit run |
| AutofixCss.ContainerParamsOf | extension/autofix-css.js:16 | digit-free text, number d, and a rest not starting with a digit give `(min-width: dpx)` |
| AutofixCss.ContainerDropsUnit | extension/autofix-css.js:16 | `card (width > 30em)` keeps 30 and loses the unit and the other text |
| AutofixCss.ContainerParamsNamed | extension/autofix-css.js:16 | a container query without a number throws |
| AutofixCss.NodeIssuesIds | extension/autofix-css.js:12-45 | each of the five ids is added by exactly one node shape, and nothing else is added |
| AutofixCss.TriggersIff | extension/autofix-css.js:12-45 | an id is reported iff some node of its shape occurs at any depth |
| AutofixCss.TriggersAllIff | extension/autofix-css.js:12-45 | the same over a list of sibling nodes |
| AutofixCss.DetectsExactly | extension/autofix-css.js:12-45 | each of the five ids is reported exactly for its at-rule, rule or declaration shape |
| AutofixCss.TriggersAreCssIds | extension/autofix-css.js:14-42 | only the five CSS ids are ever added |
| AutofixCss.ReportedIdsAreRegistered | extension/autofix-css.js:53 | the reported ids are distinct registry keys whose language is CSS |
| AutofixCss.CssIdRegistered | extension/autofix-css.js:14-42 | each of the five CSS ids is a CSS registry key |
| AutofixCss.FailsIff | extension/autofix-css.js:16 | a node fails iff it holds, at any depth, an `@container` without a digit |
| AutofixCss.FixAllFailsIff | extension/autofix-css.js:16 | the same over a node list |
| AutofixCss.ThrowsIff | extension/autofix-css.js:16 | the plugin throws iff some `@container` at any depth has no digit in its parameters |
| AutofixCss.FallbackShape | extension/autofix-css.js:34-38 | the three replacement declarations trigger no visitor |
| AutofixCss.FixNodeShape | extension/autofix-css.js:12-45 | a rewritten node holds no `@container` and no `aspect-ratio`, and holds a sticky `position` iff the input did |
| AutofixCss.FixAllShape | extension/autofix-css.js:12-45 | the same over a node list |
| AutofixCss.QuietUnchanged | extension/autofix-css.js:12-45 | a node where no rewriting visitor acts comes back as it is, reporting at most `css-position-sticky` |
| AutofixCss.QuietAllUnchanged | extension/autofix-css.js:12-45 | the same over a node list |
| AutofixCss.NoFeatureNoChange | extension/autofix-css.js:5-54 | a sheet with none of the five shapes comes back unchanged with nothing reported |
| AutofixCss.SecondPass | extension/autofix-css.js:5-54 | when no rewritten selector still holds `:has(` or `:focus-visible`, a second run changes nothing and reports at most `css-position-sticky` (iff the first run did) |
| AutofixCss.PlainDeclaration | extension/autofix-css.js:31-45 | a declaration no visitor handles stays and adds nothing |
| AutofixCss.SingleRule | extension/autofix-css.js:20-30 | a rule gets the `:has` comment iff its selector has `:has(`, and its selector goes through both steps |
| AutofixCss.StripAppend | extension/autofix-css.js:23 | stripping distributes over concatenation |
| AutofixCss.HasClassSelector | extension/autofix-css.js:23 | `.A:has(.B)` becomes `.A.has-B` |
| AutofixCss.StripDot | extension/autofix-css.js:23 | `.B` stripped is `B` |
| AutofixCss.HasClassRule | extension/autofix-css.js:21-25 | the rule `.A:has(.B)` gets its comment, its new selector, and reports `css-has` before its children |
| AutofixCss.EmptyHasSelector | extension/autofix-css.js:21-25 | `:has()` counts as including `:has(`, yet both steps leave the selector as it is |
| AutofixCss.HasOnlyIssues | extension/autofix-css.js:20-30 | a rule with `:has(` and no `:focus-visible` after the first step reports `css-has` alone |
| AutofixCss.EmptyHasRule | extension/autofix-css.js:21-25 | `:has()` is reported and gets its comment, but keeps its selector |
| AutofixCss.EmptyHasCommentedEachRun | extension/autofix-css.js:24 | so a second run adds a second comment |
| AutofixCss.NestedHasOnce | extension/autofix-css.js:23 | one pass on `:has(:has(X))` leaves a `:has(` |
| AutofixCss.NestedHasNeedsTwoVisits | extension/autofix-css.js:23 | which a second pass rewrites again |
| AutofixCss.FocusVisibleVisible | extension/autofix-css.js:28 | `:focus-visible-visible` becomes `:focus-visible` |
| AutofixCss.FocusNeedsTwoVisits | extension/autofix-css.js:28 | which a second pass turns into `:focus` |
| Extension.NonBaselineRules | extension/extension.js:11-20 | at most one rule per record |
| Extension.NonBaselineRulesSpec | extension/extension.js:11-20 | the rules are exactly the records with `baseline === false` and a registry entry, each carrying that entry's pattern and type |
| Extension.NonBaselineRulesValid | extension/extension.js:11-20 | every rule's pattern is well formed |
| Extension.MatcherProper | extension/extension.js:30-32 | matches of a registry pattern are non-empty and end inside the line |
| Extension.ExecIn | extension/extension.js:32 | `exec` returns a real match at or after `lastIndex` |
| Extension.ExecInSpec | extension/extension.js:32 | `exec` finds the leftmost match, and finds nothing only when none is left |
| Extension.ExecInFirst | extension/extension.js:32 | `exec` returns the first index where the regex matches |
| Extension.MatchesSound | extension/extension.js:30-38 | the loop visits real, non-empty matches inside the line, in increasing order, without overlap |
| Extension.MatchesInComplete | extension/extension.js:30-38 | every place where the matcher matches lies inside a visited match |
| Extension.MatchesComplete | extension/extension.js:30-38 | every place where the pattern matches lies inside a visited match |
| Extension.MakeRange | extension/extension.js:33 | a range lies on its line with its start before its end, and keeps ends already in order |
| Extension.Render | extension/extension.js:34 | the notice ends with ` is not a Baseline feature.` |
| Extension.RenderInjective | extension/extension.js:34 | two notices with the same markdown flag read the same only for the same feature |
| Extension.ScanRule | extension/extension.js:30-38 | the `while (exec)` loop pushes one diagnostic per visited match |
| Extension.ScanMatches | extension/extension.js:31-38 | the same loop over any matcher pushes the diagnostics of the matches visited from index 0, in order |
| Extension.ScanDocument | extension/extension.js:26-41 | the two `for` loops push the diagnostics of every line and every rule of the document's type |
| Extension.RuleDiagnosticsSound | extension/extension.js:28-39 | each pushed diagnostic is a non-empty match of its rule on that line, with rule id, source and message |
| Extension.LineDiagnosticsSound | extension/extension.js:28-40 | the same for all rules on a line |
| Extension.DocumentDiagnosticsSound | extension/extension.js:26-41 | every diagnostic is a match of a rule of the document's type, and they come ordered by line |
| Extension.DocumentDiagnosticsComplete | extension/extension.js:26-41 | every match of such a rule is covered by a diagnostic with that rule's id |
| Extension.DocType | extension/extension.js:23-25 | only `javascript` and `css` are scanned, as JS and CSS |
| Extension.DiagnosticCollection.Set | extension/extension.js:42 | `collection.set` replaces the document's entry only |
| Extension.UpdateDiagnostics | extension/extension.js:22-43 | other languages leave the collection as it is; otherwise the document's entry becomes its scan |
| Extension.ProvideCodeActionsSpec | extension/extension.js:46-54 | one quick fix per diagnostic of this extension; each carries that diagnostic alone and the autofix command, and none is made for other diagnostics |
| Extension.ProvideHover | extension/extension.js:58-75 | the hover is the search over rules and matches of the hovered line, for either range end: `LengthEnd` is the range the source builds (ending at column `match[0].length`), `MatchEnd` the intended one (see Findings) |
| Extension.HoverInRule | extension/extension.js:63-72 | the inner loop returns the first visited match whose range, built with the chosen range end, contains the position |
| Extension.HoverInMatches | extension/extension.js:64-72 | the same loop over any matcher and either range end: it returns the first hover of the matches visited from index 0 |
| Extension.HoverAt | extension/extension.js:66-71 | one visited match: its hover when its range (for the chosen range end) contains the position, else the search resumes after the match with the same first hover |
| Extension.RuleHoverCovers | extension/extension.js:65-67 | for one rule, some intended range contains the position iff some visited match covers its column |
| Extension.FirstHoverSpec | extension/extension.js:65-71 | a hover is found iff some match's range contains the position, and it carries that range |
| Extension.HoverSearchSpec | extension/extension.js:62-74 | a hover is found iff some match of some rule contains the position; it names a rule and its range contains the position |
| Extension.MatchRangeContains | extension/extension.js:66-67 | the intended range contains exactly the columns from the match's index to its end, both included |
| Extension.HoverFindsMatches | extension/extension.js:58-75 | with the intended range, a hover is shown iff the position lies within a match |
| Extension.WrittenHoverMisses | extension/extension.js:66 | a literal match after a prefix at least as long as it, hovered one column past its start, shows no hover with the written range and the right hover with the intended one |
| Extension.RangesPastLength | extension/extension.js:66 | one column after such a match's start lies outside the written range and inside the intended one |
| Scanner.BaseOfJoin | src/scanner.js:44 | the base name of `path.join(folder, name)` is `name` |
| Scanner.ExtNameOfJoin | src/scanner.js:44-47 | joining keeps the entry's extension |
| Scanner.ExtNameIs | src/scanner.js:8 | `path.extname` is `.js` (or `.css`) iff the name is longer than that and ends with it |
| Scanner.Label | src/scanner.js:14-54 | each report line's label is one line of text |
| Scanner.Render | src/scanner.js:14-54 | every report line ends with its path |
| Scanner.ScannedNames | src/scanner.js:47 | the walk scans names ending `.js` or `.css` after at least one more character |
| Scanner.ReadFailure | src/scanner.js:11-16 | an unreadable file gets exactly one "Error reading file" line and nothing changes |
| Scanner.FileLines | src/scanner.js:7-38 | `scanFile` throws iff the file was read and its transform threw; otherwise it reports exactly one line about that path |
| Scanner.WrittenOnlyWhenChanged | src/scanner.js:28-37 | only that path can change; a change means the text differs and the line is "autofix applied"; "No changes" and "Error writing" leave the files as they were |
| Scanner.RecordedWrites | src/scanner.js:28-37 | the same, given the transform's outcome |
| Scanner.Dispatch | src/scanner.js:20-26 | `.js` goes to the JS transform and `.css` to the CSS one, each written and reported as applied; other extensions report "No changes" |
| Scanner.ItemFacts | src/scanner.js:43-51 | an entry changes only the files it scans, and reports only about them or folders below |
| Scanner.ItemsFacts | src/scanner.js:43-51 | the same for a listing's entries |
| Scanner.FolderFacts | src/scanner.js:40-56 | the same for a folder |
| Scanner.OnlyScannedFilesChange | src/scanner.js:45-50 | every path the walk does not scan is left as it was |
| Scanner.OnlyScannedFilesReport | src/scanner.js:45-50 | every line is a folder line or about a scanned file |
| Scanner.ThrowReportedOnce | src/scanner.js:52-55 | a folder gets one "Could not scan folder" line iff it cannot be listed or a direct file's transform threw, and otherwise none |
| Scanner.ItemLineCount | src/scanner.js:40-56 | when no transform throws, an entry adds one line per scanned file and unlistable folder |
| Scanner.ItemsLineCount | src/scanner.js:40-56 | the same over a listing |
| Scanner.FolderLineCount | src/scanner.js:40-56 | the same for a folder |
| Scanner.FirstFolderSpec | src/scanner.js:60 | no folder iff every argument starts with `--`; otherwise the folder is the first argument that does not |
| Scanner.Bullets | src/scanner.js:74 | one `- ` item per report line, in order |
| Scanner.RenderNoNewline | src/scanner.js:74 | a rendered line has a newline only where its path does |
| Scanner.MarkdownLines | src/scanner.js:74 | the Markdown report splits back at newlines into its items, when no path has a newline |
| Scanner.MarkdownEmpty | src/scanner.js:74 | an empty report gives an empty file |
| Scanner.Workspace.ScanFile | src/scanner.js:7-38 | `scanFile`'s new files, added lines and throw are those its specification gives |
| Scanner.Workspace.ScanItem | src/scanner.js:43-51 | one entry of the listing: a folder is walked, a `.js`/`.css` file scanned, anything else skipped |
| Scanner.Workspace.ScanFolder | src/scanner.js:40-56 | the walk's new files and report are those its specification gives |
| Scanner.Workspace.RunScanner | src/scanner.js:58-84 | without a folder nothing changes; otherwise the folder is walked and, with `--report`, the Markdown report is written when it can be |
| Text.ContainsAt | extension/autofix-css.js:21 | `includes` holds iff the text occurs at some index |
| Text.NatToString | generate-demo.cjs:36 | a number renders as a non-empty run of digits |
| Text.NatToStringValue | generate-demo.cjs:36 | the rendered digits read back, by Horner's rule, as the number, and a positive number has no leading zero |
| Text.NatToStringInjective | generate-demo.cjs:36 | two numbers with the same decimal rendering are equal |
| Text.Split | generate-demo.cjs:38 | splitting always gives at least one piece |
| Text.JoinSplit | generate-demo.cjs:38 | joining the pieces of a split gives back the text |
| Text.SplitPieces | generate-demo.cjs:38 | no piece holds the separator |
| Text.SplitJoin | src/scanner.js:74 | splitting a join of separator-free pieces gives back the pieces |
| GenerateDemo.ReplaceAll | generate-demo.cjs:27 | after a global replace, every character comes from the replacement or is an unreplaced one of the input |
| GenerateDemo.EntityOfOne | generate-demo.cjs:27 | the three passes turn one character into its entity without escaping an inserted `&` again |
| GenerateDemo.EscapeIsPerCharacter | generate-demo.cjs:27 | the three whole-string passes escape each character on its own |
| GenerateDemo.NoAngleBrackets | generate-demo.cjs:27 | escaped text holds no `<` or `>` |
| GenerateDemo.UnescapeEscape | generate-demo.cjs:27 | a browser reading the escaped text gets the original text back |
| GenerateDemo.EscapeAmpersand | generate-demo.cjs:27 | `&` is written `&amp;`, and the later passes leave that entity alone |
| GenerateDemo.EscapeLess | generate-demo.cjs:27 | `<` is written `&lt;`: the `&` it gains comes after the `&` pass |
| GenerateDemo.EscapeGreater | generate-demo.cjs:27 | `>` is written `&gt;` |
| GenerateDemo.AmpersandGoesFirst | generate-demo.cjs:27 | with `<` replaced before `&`, `<` would come out as `&amp;lt;` |
| GenerateDemo.PartLinesJoin | generate-demo.cjs:38 | a part's lines hold no newline, and joined they give its value less one final newline |
| GenerateDemo.Numbered | generate-demo.cjs:34-36 | the nth row of a pane carries the number n |
| GenerateDemo.PaneHtmlNumbered | generate-demo.cjs:34-47 | a pane's HTML is its rows built in order, numbered 1, 2, 3, ... |
| GenerateDemo.PaneOfKind | generate-demo.cjs:39-48 | each pane holds exactly the lines of the kinds it shows, in order: the before pane has no added line, the after pane no removed line |
| GenerateDemo.UnchangedAlike | generate-demo.cjs:43-47 | both panes show the same unchanged lines in the same order |
| GenerateDemo.PaneSizes | generate-demo.cjs:34-48 | the before pane has one row per unchanged or removed line, the after pane one per unchanged or added line |
| GenerateDemo.AddLine | generate-demo.cjs:40-46 | `pane += buildLine(lineNum++, line, type)` appends the next numbered row |
| GenerateDemo.AddLines | generate-demo.cjs:40-42 | an added or removed part grows one pane by its lines |
| GenerateDemo.AddLinesBoth | generate-demo.cjs:44-47 | an unchanged part grows both panes by its lines |
| GenerateDemo.AddPart | generate-demo.cjs:38-48 | a part grows each pane by the lines the pane shows, with counters one past the pane's length |
| GenerateDemo.CreateSideBySideDiff | generate-demo.cjs:30-51 | the two panes are the numbered, escaped rows of the lines each shows |
| GenerateDemo.DataFor | generate-demo.cjs:75 | an id absent from the dataset gets a stand-in named by the id with an MDN search link for it |
| GenerateDemo.CountIssue | generate-demo.cjs:72-77 | counting one more id keeps the tally exact: keys, counts, data and total |
| GenerateDemo.CountIssues | generate-demo.cjs:71-78 | the same over one file's ids |
| GenerateDemo.GatherInsights | generate-demo.cjs:56-78 | the run succeeds iff no autofix throws; then `totalFiles` counts the files; `totalIssues` counts the ids; `featureCounts` has exactly the ids found, each with its number of occurrences and its data |
| GenerateDemo.IssuesNoneStays | generate-demo.cjs:62-70 | once an autofix has thrown the run stays failed |
| GenerateDemo.IssuesFail | generate-demo.cjs:62-70 | the run fails iff some file's autofix throws |
| GenerateDemo.IssuesAppend | generate-demo.cjs:61 | the CSS files' ids come before the JavaScript files' ids |
| GenerateDemo.CssFileGetsCssFix | generate-demo.cjs:64-70 | a file named `.css` goes through the CSS autofix |
| GenerateDemo.TalliesUnique | generate-demo.cjs:56-78 | the insights are determined by the ids found |
| GenerateDemo.FeatureCountBound | generate-demo.cjs:71-78 | each tallied feature was found at least once, so there are never more features than issues |

## Left out

- Parsing and printing go through acorn, escodegen, postcss and postcss-scss. They are not modelled: each engine takes a tree and returns a tree. In the scanner and the demo, the two autofixes are functions given as inputs (`Env.js`, `Env.css`, `jsFix`, `cssFix`), and a throw is an explicit outcome.
- postcss revisits: after a change, postcss may run visitors again on changed nodes, and it marks every ancestor of a changed node dirty, so the visitors of the enclosing rule run again in the same run. For example, `.a:has() { aspect-ratio: 1 }` gets two `fallback for :has()` comments in one postcss run (the declaration's rewrite dirties the rule, whose selector still includes `:has(`); the model gives one. The model runs each visitor once per node, in document order. The lemmas `NestedHasNeedsTwoVisits` and `FocusNeedsTwoVisits` show what a revisit would change.
- AutofixAst.Walk: `estraverse.traverse` is called without a `fallback`, so it throws `Unknown node type` on a node type missing from its visitor keys (which types those are depends on the estraverse version, which is not part of this model; newer syntax such as a class `static {}` block is a candidate). The model's walk enters every `OtherNode`'s children and never throws.
- AutofixCss.VisitNode: postcss lower-cases visitor keys with full Unicode case mapping. The model lower-cases ASCII letters only.
- The VS Code API is not modelled: documents, ranges, diagnostics, code actions and hovers are plain values, and the diagnostic collection is a class over a map from document URI to diagnostics, of which only `set` is modelled. `activate`, command registration and the autofix command's whole-document edit (extension.js:77-103) are left out. They are glue around the modelled functions.
- Extension columns: the model counts in string positions (`char`s). VS Code counts in UTF-16 code units; the two differ for characters outside the Basic Multilingual Plane.
- The web-features dataset is an input: `WebFeature` records, plus the dataset map of the demo. Browser support data is not kept.
- The hover provider's `console.log` is not modelled.
- Scanner.Workspace.ScanFolder: `Promise.all` runs the sibling scans concurrently, so lines may interleave in another order. The model walks entries one after the other, depth first, and each scan settles before the next starts. When no transform throws, every scan settles before `Promise.all` does, so the properties about lines (membership and counts) hold whatever the order.
- Scanner.Workspace.RunScanner: after a throw, the written report may lack lines of scans that settle after the rejection. `Promise.all` (src/scanner.js:52) rejects at the first throw without waiting for the other entries, the folder's catch settles, and `runScanner` writes the report as it stands then; sibling scans still pending push their lines (and write their files) later. The model's promise that the report holds every line of the walk is for the schedule in which the throwing scan settles last, and for every schedule of a walk where nothing throws.
- Scanner.Workspace.RunScanner: the console messages and the report-write failure message are not modelled. An unwritable report path simply leaves the files unchanged.
- Scanner paths: `path.join` normalisation (`..`, duplicate or trailing slashes) is not modelled. A joined path is `folder + "/" + name`.
- GenerateDemo.CreateSideBySideDiff: the diff parts are an input. `Diff.diffLines` is not modelled, so the model does not prove that the before pane is the original text.
- The page template and output file of `generateDemo` are left out, as are `getTestFiles` and the per-feature browser icons (generate-demo.cjs:79-168). The CSS and JavaScript file lists are inputs.
- GenerateDemo.GatherInsights: `featureCounts` is a plain object in the source; the model uses a map. An id that names an `Object.prototype` member (for example `constructor`) would misbehave there, and the model does not capture that. None of the eight registry ids is such a name.
- AutofixCss: the CSS transform is not idempotent; a second run can change its own output. `NestedHasOnce`, `FocusVisibleVisible` and `EmptyHasCommentedEachRun` give such inputs.

## Findings

| source | as written | input that shows it | evidently intended | confidence | as-written member | corrected member |
|---|---|---|---|---|---|---|
| extension/extension.js:66 | the hover range ends at column `match[0].length` | the line `.card:has(` hovered at column 6, inside the `:has(` match that starts at column 5, shows no hover | the range ends at `match.index + match[0].length`, like the diagnostic range at line 33 | high; not executed | Extension.WrittenHoverMisses | Extension.HoverFindsMatches |
