/** The feature registry (extension/feature-map.js): eight non-Baseline feature
    ids, each with the language whose engine reports it and the regular
    expression the line scanner searches for. */
module FeatureMap {
  import opened Text
  import opened Wrappers

  datatype Language = JS | CSS

  /** The detection regexes of the registry are of two forms only: a literal
      text, or a literal, a whitespace run `\s*`, and another literal. */
  datatype Pattern =
    | Literal(text: string)
    | Spaced(before: string, after: string)
  {
    /** The literal a match has to start with. */
    function Head(): string
    {
      match this
      case Literal(t) => t
      case Spaced(b, _) => b
    }
  }

  datatype Entry = Entry(language: Language, detect: Pattern)

  /** The table, in declaration order. */
  const Registry: seq<(string, Entry)> := [
    ("css-has", Entry(CSS, Literal(":has("))),
    ("css-container-queries", Entry(CSS, Literal("@container"))),
    ("css-focus-visible", Entry(CSS, Literal(":focus-visible"))),
    ("css-aspect-ratio", Entry(CSS, Literal("aspect-ratio:"))),
    ("css-position-sticky", Entry(CSS, Spaced("position:", "sticky"))),
    ("javascript-structuredclone", Entry(JS, Spaced("structuredClone", "("))),
    ("api-abortcontroller", Entry(JS, Spaced("new AbortController", "("))),
    ("javascript-promise-any", Entry(JS, Spaced("Promise.any", "(")))
  ]

  /** `featureMap[id]`: the entry of the first row with that id, if any. */
  function LookupIn(rows: seq<(string, Entry)>, id: string): (r: Option<Entry>)
    ensures r.Some? <==> exists k :: 0 <= k < |rows| && rows[k].0 == id
    ensures r.Some? ==> exists k :: 0 <= k < |rows| && rows[k] == (id, r.value)
  {
    if rows == [] then None
    else if rows[0].0 == id then Some(rows[0].1)
    else
      var r := LookupIn(rows[1..], id);
      assert forall k :: 0 < k < |rows| ==> rows[k] == rows[1..][k - 1];
      r
  }

  function Lookup(id: string): Option<Entry>
  {
    LookupIn(Registry, id)
  }

  /** Number of rows whose language is `lang`. */
  function CountLanguage(rows: seq<(string, Entry)>, lang: Language): nat
  {
    if rows == [] then 0
    else (if rows[0].1.language == lang then 1 else 0) + CountLanguage(rows[1..], lang)
  }

  /** There are eight rows with distinct ids: five CSS and three JS features. */
  lemma RegistryShape()
    ensures |Registry| == 8
    ensures forall i, j :: 0 <= i < j < |Registry| ==> Registry[i].0 != Registry[j].0
    ensures CountLanguage(Registry, CSS) == 5 && CountLanguage(Registry, JS) == 3
  {
  }

  /** With distinct ids, each row's id finds that row. */
  lemma {:induction false} LookupInDistinct(rows: seq<(string, Entry)>, j: nat)
    requires j < |rows|
    requires forall a, b :: 0 <= a < b < |rows| ==> rows[a].0 != rows[b].0
    ensures LookupIn(rows, rows[j].0) == Some(rows[j].1)
    decreases j
  {
    if j > 0 {
      var tail := rows[1..];
      assert rows[0].0 != rows[j].0;
      assert tail[j - 1] == rows[j];
      assert forall a, b :: 0 <= a < b < |tail| ==> tail[a].0 == rows[a + 1].0 && tail[b].0 == rows[b + 1].0;
      LookupInDistinct(tail, j - 1);
    }
  }

  lemma RegistryLookup(j: nat)
    requires j < |Registry|
    ensures Lookup(Registry[j].0) == Some(Registry[j].1)
  {
    RegistryShape();
    LookupInDistinct(Registry, j);
  }

  /** JavaScript's `\s`: the ECMAScript WhiteSpace and LineTerminator code points. */
  predicate IsSpace(c: char)
  {
    c == '\t' || c == '\n' || c == '\U{000B}' || c == '\U{000C}' || c == '\r' || c == ' '
    || c == '\U{00A0}' || c == '\U{1680}' || ('\U{2000}' <= c <= '\U{200A}')
    || c == '\U{2028}' || c == '\U{2029}' || c == '\U{202F}' || c == '\U{205F}'
    || c == '\U{3000}' || c == '\U{FEFF}'
  }

  /** The end of the whitespace run that starts at `j`. */
  function SkipSpaces(line: string, j: nat): (k: nat)
    requires j <= |line|
    ensures j <= k <= |line|
    decreases |line| - j
  {
    if j < |line| && IsSpace(line[j]) then SkipSpaces(line, j + 1) else j
  }

  /** The run skipped is all whitespace and stops at a character that is not. */
  lemma {:induction false} SkipSpacesSpec(line: string, j: nat)
    requires j <= |line|
    ensures forall m :: j <= m < SkipSpaces(line, j) ==> IsSpace(line[m])
    ensures SkipSpaces(line, j) < |line| ==> !IsSpace(line[SkipSpaces(line, j)])
    decreases |line| - j
  {
    if j < |line| && IsSpace(line[j]) {
      SkipSpacesSpec(line, j + 1);
    }
  }

  /** Length of the match of `p` that starts at index `i` of `line`, if any.
      `\s*` is greedy; since every `after` starts with a character that is not
      whitespace (see PatternsStartWithLiteral), backtracking into the run
      never yields another match, so the greedy end is the only candidate. */
  function MatchAt(p: Pattern, line: string, i: nat): Option<nat>
  {
    match p
    case Literal(t) => if LiteralAt(line, t, i) then Some(|t|) else None
    case Spaced(b, a) =>
      if LiteralAt(line, b, i) then
        var j := SkipSpaces(line, i + |b|);
        if LiteralAt(line, a, j) then Some(j + |a| - i) else None
      else None
  }

  /** The characters of `line` from `i` on are those of `t`. */
  predicate LiteralAt(line: string, t: string, i: nat)
  {
    i + |t| <= |line| && forall k :: 0 <= k < |t| ==> line[i + k] == t[k]
  }

  /** `LiteralAt` is `OccursAt`, compared character by character. */
  lemma LiteralAtOccurs(line: string, t: string, i: nat)
    ensures LiteralAt(line, t, i) <==> OccursAt(line, t, i)
  {
    if OccursAt(line, t, i) {
      forall k | 0 <= k < |t| ensures line[i + k] == t[k] {
        assert line[i..i + |t|][k] == line[i + k];
      }
    }
    if LiteralAt(line, t, i) {
      assert line[i..i + |t|] == t;
    }
  }

  /** Every pattern is anchored by a non-empty literal that starts with a
      character other than whitespace, and so is the text after a whitespace run. */
  predicate WellFormed(p: Pattern)
  {
    |p.Head()| > 0 && !IsSpace(p.Head()[0])
    && (p.Spaced? ==> |p.after| > 0 && !IsSpace(p.after[0]))
  }

  lemma PatternsStartWithLiteral()
    ensures forall k :: 0 <= k < |Registry| ==> WellFormed(Registry[k].1.detect)
  {
  }

  /** The part of `WellFormed` the line scanner relies on. */
  predicate Anchored(p: Pattern)
  {
    |p.Head()| > 0
  }

  /** A match of an anchored pattern is non-empty and lies inside the line. */
  lemma MatchPositive(p: Pattern, line: string, i: nat)
    requires Anchored(p)
    requires MatchAt(p, line, i).Some?
    ensures 0 < |p.Head()| <= MatchAt(p, line, i).value
    ensures i + MatchAt(p, line, i).value <= |line|
  {
  }

  predicate AllSpaces(w: string)
  {
    forall m :: 0 <= m < |w| ==> IsSpace(w[m])
  }

  /** `position:\s*sticky` accepts any whitespace run, including none,
      between the colon and `sticky`. */
  lemma {:induction false} StickyAcceptsAnySpaces(w: string)
    requires AllSpaces(w)
    ensures MatchAt(Spaced("position:", "sticky"), "position:" + w + "sticky", 0)
            == Some(|w| + 15)
  {
    var line := "position:" + w + "sticky";
    assert line[..9] == "position:";
    SkipSpacesOver(line, 9, |w|);
    assert line[9 + |w|..9 + |w| + 6] == "sticky";
  }

  /** A run of `n` whitespace characters from `j`, followed by the end or a
      non-space, is skipped exactly. */
  lemma {:induction false} SkipSpacesOver(line: string, j: nat, n: nat)
    requires j + n <= |line|
    requires forall m :: j <= m < j + n ==> IsSpace(line[m])
    requires j + n < |line| ==> !IsSpace(line[j + n])
    ensures SkipSpaces(line, j) == j + n
    decreases n
  {
    if n > 0 {
      SkipSpacesOver(line, j + 1, n - 1);
    }
  }

  /** `aspect-ratio:` needs the colon right after the property name. */
  lemma AspectRatioNeedsColon()
    ensures MatchAt(Literal("aspect-ratio:"), "aspect-ratio : 1", 0) == None
    ensures MatchAt(Literal("aspect-ratio:"), "aspect-ratio: 1", 0) == Some(13)
  {
    assert "aspect-ratio : 1"[0..13] != "aspect-ratio:" by {
      assert "aspect-ratio : 1"[12] == ' ';
    }
    assert "aspect-ratio: 1"[0..13] == "aspect-ratio:";
  }

  /** `new AbortController\s*\(` needs exactly one space after `new`, and
      allows whitespace before the parenthesis. */
  lemma AbortControllerSpacing()
    ensures MatchAt(Spaced("new AbortController", "("), "new  AbortController()", 0) == None
    ensures MatchAt(Spaced("new AbortController", "("), "new AbortController ()", 0) == Some(21)
  {
    var bad := "new  AbortController()";
    assert bad[4] != "new AbortController"[4];
    AbortControllerSpaced();
  }

  lemma AbortControllerSpaced()
    ensures MatchAt(Spaced("new AbortController", "("), "new AbortController ()", 0) == Some(21)
  {
    var line := "new AbortController ()";
    assert line[0..19] == "new AbortController";
    LiteralAtOccurs(line, "new AbortController", 0);
    SkipSpacesOver(line, 19, 1);
    assert line[20..21] == "(";
    LiteralAtOccurs(line, "(", 20);
  }
}
