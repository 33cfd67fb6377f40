/** The demo page generator (generate-demo.cjs): HTML escaping, the
    side-by-side diff panes, and the insights it gathers over the sample
    files. */
module GenerateDemo {
  import opened Wrappers
  import opened Text

  // ------------------------------------------------------------ escapeHTML

  /** `s.replace(/c/g, r)`: every `c` becomes `r`. */
  function ReplaceAll(s: string, c: char, r: string): (t: string)
    ensures forall d :: d in t ==> (d in s && d != c) || d in r
  {
    if s == [] then []
    else
      var rest := ReplaceAll(s[1..], c, r);
      assert forall d :: d in s[1..] ==> d in s;
      (if s[0] == c then r else [s[0]]) + rest
  }

  lemma {:induction false} ReplaceAllAppend(a: string, b: string, c: char, r: string)
    ensures ReplaceAll(a + b, c, r) == ReplaceAll(a, c, r) + ReplaceAll(b, c, r)
    decreases |a|
  {
    if a != [] {
      TailAppend(a, b);
      ReplaceAllAppend(a[1..], b, c, r);
      var h := if a[0] == c then r else [a[0]];
      assert ReplaceAll(a + b, c, r) == h + ReplaceAll(a[1..] + b, c, r);
      assert ReplaceAll(a, c, r) == h + ReplaceAll(a[1..], c, r);
      AppendAssoc(h, ReplaceAll(a[1..], c, r), ReplaceAll(b, c, r));
    } else {
      assert a + b == b;
    }
  }

  function EscapeHTML(s: string): string
  {
    ReplaceAll(ReplaceAll(ReplaceAll(s, '&', "&amp;"), '<', "&lt;"), '>', "&gt;")
  }

  /** How one character is written in HTML text. */
  function Entity(c: char): string
  {
    if c == '&' then "&amp;" else if c == '<' then "&lt;" else if c == '>' then "&gt;" else [c]
  }

  function EscapeEach(s: string): string
  {
    if s == [] then [] else Entity(s[0]) + EscapeEach(s[1..])
  }

  /** The three passes on one character give its entity: the `&` of an entity
      inserted by the second or third pass is not escaped again, because `&`
      goes first. */
  lemma EntityOfOne(c: char)
    ensures EscapeHTML([c]) == Entity(c)
  {
    if c == '&' {
      EscapeAmpersand();
    } else if c == '<' {
      EscapeLess();
    } else if c == '>' {
      EscapeGreater();
    } else {
      EscapePlain(c);
    }
  }

  lemma EscapeAmpersand()
    ensures EscapeHTML("&") == "&amp;"
  {
    var amp := "&amp;";
    assert '<' !in amp && '>' !in amp;
    ReplaceSingle('&', '&', amp);
    var once := ReplaceAll("&", '&', amp);
    ReplaceAbsent(once, '<', "&lt;");
    ReplaceAbsent(ReplaceAll(once, '<', "&lt;"), '>', "&gt;");
  }

  lemma EscapeLess()
    ensures EscapeHTML("<") == "&lt;"
  {
    var lt := "&lt;";
    assert '>' !in lt;
    ReplaceSingle('<', '&', "&amp;");
    ReplaceSingle('<', '<', lt);
    ReplaceAbsent(ReplaceAll("<", '<', lt), '>', "&gt;");
  }

  lemma EscapeGreater()
    ensures EscapeHTML(">") == "&gt;"
  {
    ReplaceSingle('>', '&', "&amp;");
    ReplaceSingle('>', '<', "&lt;");
    ReplaceSingle('>', '>', "&gt;");
  }

  lemma EscapePlain(c: char)
    requires c != '&' && c != '<' && c != '>'
    ensures EscapeHTML([c]) == [c]
  {
    ReplaceSingle(c, '&', "&amp;");
    ReplaceSingle(c, '<', "&lt;");
    ReplaceSingle(c, '>', "&gt;");
  }

  lemma ReplaceSingle(d: char, c: char, r: string)
    ensures ReplaceAll([d], c, r) == if d == c then r else [d]
  {
    assert [d][1..] == [];
  }

  lemma {:induction false} ReplaceAbsent(s: string, c: char, r: string)
    requires c !in s
    ensures ReplaceAll(s, c, r) == s
    decreases |s|
  {
    if s != [] {
      ReplaceAbsent(s[1..], c, r);
      assert s == [s[0]] + s[1..];
    }
  }

  /** The three whole-string passes escape each character on its own. */
  lemma {:induction false} EscapeIsPerCharacter(s: string)
    ensures EscapeHTML(s) == EscapeEach(s)
    decreases |s|
  {
    if s != [] {
      var amp, lt, gt := "&amp;", "&lt;", "&gt;";
      assert s == [s[0]] + s[1..];
      ReplaceAllAppend([s[0]], s[1..], '&', amp);
      var a1, b1 := ReplaceAll([s[0]], '&', amp), ReplaceAll(s[1..], '&', amp);
      ReplaceAllAppend(a1, b1, '<', lt);
      var a2, b2 := ReplaceAll(a1, '<', lt), ReplaceAll(b1, '<', lt);
      ReplaceAllAppend(a2, b2, '>', gt);
      EntityOfOne(s[0]);
      EscapeIsPerCharacter(s[1..]);
    }
  }

  /** Escaped text holds no angle bracket. */
  lemma NoAngleBrackets(s: string)
    ensures '<' !in EscapeHTML(s) && '>' !in EscapeHTML(s)
  {
    var amp, lt, gt := "&amp;", "&lt;", "&gt;";
    assert '<' !in gt && '>' !in gt && '>' !in lt;
  }

  /** How a browser reads the three entities back; any other text stands for
      itself. */
  function Unescape(t: string): string
  {
    if t == [] then []
    else if StartsWith(t, "&amp;") then "&" + Unescape(t[5..])
    else if StartsWith(t, "&lt;") then "<" + Unescape(t[4..])
    else if StartsWith(t, "&gt;") then ">" + Unescape(t[4..])
    else [t[0]] + Unescape(t[1..])
  }

  /** A text that starts with `p` and its rest after `p`. */
  lemma StartsWithPrefix(p: string, rest: string)
    ensures StartsWith(p + rest, p) && (p + rest)[|p|..] == rest
  {
    assert (p + rest)[..|p|] == p;
  }

  /** A text that differs from `p` at index `i` does not start with `p`. */
  lemma DiffersAt(t: string, p: string, i: nat)
    requires i < |p| && i < |t| && t[i] != p[i]
    ensures !StartsWith(t, p)
  {
    if |p| <= |t| {
      assert t[..|p|][i] == t[i];
    }
  }

  lemma UnescapeEntity(c: char, rest: string)
    ensures Unescape(Entity(c) + rest) == [c] + Unescape(rest)
  {
    var amp, lt, gt := "&amp;", "&lt;", "&gt;";
    var t := Entity(c) + rest;
    if c == '&' {
      StartsWithPrefix(amp, rest);
    } else if c == '<' {
      DiffersAt(t, amp, 1);
      StartsWithPrefix(lt, rest);
    } else if c == '>' {
      DiffersAt(t, amp, 1);
      DiffersAt(t, lt, 1);
      StartsWithPrefix(gt, rest);
    } else {
      DiffersAt(t, amp, 0);
      DiffersAt(t, lt, 0);
      DiffersAt(t, gt, 0);
      TailAppend([c], rest);
    }
  }

  /** Unescaping escaped text gives back the text. */
  lemma {:induction false} UnescapeEscape(s: string)
    ensures Unescape(EscapeHTML(s)) == s
  {
    EscapeIsPerCharacter(s);
    UnescapeEach(s);
  }

  lemma {:induction false} UnescapeEach(s: string)
    ensures Unescape(EscapeEach(s)) == s
    decreases |s|
  {
    if s != [] {
      UnescapeEntity(s[0], EscapeEach(s[1..]));
      UnescapeEach(s[1..]);
    }
  }

  /** Replacing `<` before `&` would escape the inserted entity a second
      time. */
  lemma AmpersandGoesFirst()
    ensures ReplaceAll(ReplaceAll("<", '<', "&lt;"), '&', "&amp;") == "&amp;lt;"
  {
    var amp, rest := "&amp;", "lt;";
    ReplaceSingle('<', '<', "&lt;");
    assert "&lt;" == ['&'] + rest;
    ReplaceAllAppend(['&'], rest, '&', amp);
    ReplaceSingle('&', '&', amp);
    ReplaceAbsent(rest, '&', amp);
    assert amp + rest == "&amp;lt;";
  }

  // -------------------------------------------------- createSideBySideDiff

  /** One part of `Diff.diffLines(original, fixed)`. */
  datatype Part = Part(value: string, added: bool, removed: bool)

  /** `value.replace(/\n$/, '')`: `$` without the multiline flag is the end of
      the text, so only one final newline goes. */
  function StripNewline(v: string): string
  {
    if |v| > 0 && v[|v| - 1] == '\n' then v[..|v| - 1] else v
  }

  /** `part.value.replace(/\n$/, '').split('\n')` */
  function PartLines(p: Part): seq<string>
  {
    Split(StripNewline(p.value), '\n')
  }

  /** A part's lines hold no newline, and joined by newlines they give the
      part's value less its final newline, if it has one. */
  lemma PartLinesJoin(p: Part)
    ensures var ending := if |p.value| > 0 && p.value[|p.value| - 1] == '\n' then "\n" else "";
            Text.Join(PartLines(p), '\n') + ending == p.value
    ensures forall k :: 0 <= k < |PartLines(p)| ==> '\n' !in PartLines(p)[k]
  {
    JoinSplit(StripNewline(p.value), '\n');
    SplitPieces(StripNewline(p.value), '\n');
    if |p.value| > 0 && p.value[|p.value| - 1] == '\n' {
      assert p.value[..|p.value| - 1] + "\n" == p.value;
    }
  }

  /** The flags of a part; `added` is tested first. */
  datatype Kind = Unchanged | Added | Removed

  function KindOf(p: Part): Kind
  {
    if p.added then Added else if p.removed then Removed else Unchanged
  }

  datatype Side = Before | After

  /** A pane shows the unchanged lines and its own kind of change. */
  predicate Shows(side: Side, k: Kind)
  {
    k == Unchanged || (side == Before && k == Removed) || (side == After && k == Added)
  }

  /** A line of a pane before it is numbered. */
  datatype Entry = Entry(content: string, kind: Kind)

  function Tagged(lines: seq<string>, k: Kind): (r: seq<Entry>)
    ensures |r| == |lines| && forall i :: 0 <= i < |r| ==> r[i] == Entry(lines[i], k)
  {
    if lines == [] then [] else Tagged(lines[..|lines| - 1], k) + [Entry(lines[|lines| - 1], k)]
  }

  /** The lines a pane shows, part after part. */
  function PaneEntries(parts: seq<Part>, side: Side): seq<Entry>
  {
    if parts == [] then []
    else
      var last := parts[|parts| - 1];
      PaneEntries(parts[..|parts| - 1], side) + Shown(side, last)
  }

  /** A numbered line of a pane. */
  datatype Row = Row(num: nat, content: string, kind: Kind)

  /** A pane's rows carry the numbers 1, 2, 3, ... in order. */
  function Numbered(es: seq<Entry>): (r: seq<Row>)
    ensures |r| == |es|
    ensures forall i :: 0 <= i < |r| ==> r[i] == Row(i + 1, es[i].content, es[i].kind)
  {
    if es == [] then [] else Numbered(es[..|es| - 1]) + [Row(|es|, es[|es| - 1].content, es[|es| - 1].kind)]
  }

  function TypeName(k: Kind): string
  {
    match k
    case Unchanged => ""
    case Added => "line-added"
    case Removed => "line-removed"
  }

  /** `buildLine(num, content, type)`: a `div` of class `line <type>` holding
      the line number and the escaped line. */
  function BuildLine(r: Row): string
  {
    LineOpen() + TypeName(r.kind) + NumberOpen() + NatToString(r.num) + CodeOpen()
    + EscapeHTML(r.content) + LineClose()
  }

  function LineOpen(): string { "<div class=\"line " }
  function NumberOpen(): string { "\"><span class=\"line-num\">" }
  function CodeOpen(): string { "</span><pre><code>" }
  function LineClose(): string { "</code></pre></div>" }

  /** The rows of a pane, each built in turn. */
  function Html(rows: seq<Row>): string
  {
    if rows == [] then [] else Html(rows[..|rows| - 1]) + BuildLine(rows[|rows| - 1])
  }

  /** A pane's HTML: its lines built one after the other, the `n`th numbered
      `n`. */
  function PaneHtml(es: seq<Entry>): string
  {
    if es == [] then []
    else PaneHtml(es[..|es| - 1]) + BuildLine(Row(|es|, es[|es| - 1].content, es[|es| - 1].kind))
  }

  /** The pane is the HTML of its numbered rows: line numbers run 1, 2, 3, ... */
  lemma {:induction false} PaneHtmlNumbered(es: seq<Entry>)
    ensures PaneHtml(es) == Html(Numbered(es))
    decreases |es|
  {
    if es != [] {
      var rows := Numbered(es);
      assert rows[..|rows| - 1] == Numbered(es[..|es| - 1]);
      PaneHtmlNumbered(es[..|es| - 1]);
    }
  }

  /** Adding a line to a pane appends its row, numbered one past the last. */
  lemma PaneGrows(es: seq<Entry>, e: Entry)
    ensures PaneHtml(es + [e]) == PaneHtml(es) + BuildLine(Row(|es| + 1, e.content, e.kind))
  {
    assert (es + [e])[..|es|] == es;
  }

  lemma TaggedGrows(lines: seq<string>, j: nat, k: Kind)
    requires j < |lines|
    ensures Tagged(lines[..j + 1], k) == Tagged(lines[..j], k) + [Entry(lines[j], k)]
  {
    assert lines[..j + 1][..j] == lines[..j];
  }

  /** Tagging one more line of `lines` after the pane's `shown` entries. */
  lemma TaggedStep(shown: seq<Entry>, lines: seq<string>, j: nat, k: Kind)
    requires j < |lines|
    ensures |shown + Tagged(lines[..j], k)| == |shown| + j
    ensures shown + Tagged(lines[..j + 1], k) == (shown + Tagged(lines[..j], k)) + [Entry(lines[j], k)]
  {
    TaggedGrows(lines, j, k);
    AppendAssoc(shown, Tagged(lines[..j], k), [Entry(lines[j], k)]);
  }

  /** No line tagged yet leaves the pane as it was. */
  lemma TaggedNone(shown: seq<Entry>, lines: seq<string>, k: Kind)
    ensures shown + Tagged(lines[..0], k) == shown
  {
    assert lines[..0] == [];
  }

  lemma TaggedAll(lines: seq<string>, k: Kind)
    ensures Tagged(lines[..|lines|], k) == Tagged(lines, k)
  {
    assert lines[..|lines|] == lines;
  }

  lemma PaneStep(parts: seq<Part>, i: nat, side: Side)
    requires i < |parts|
    ensures PaneEntries(parts[..i + 1], side) == PaneEntries(parts[..i], side) + Shown(side, parts[i])
  {
    assert parts[..i + 1][..i] == parts[..i];
  }

  /** What a pane shows of one part. */
  function Shown(side: Side, p: Part): seq<Entry>
  {
    if Shows(side, KindOf(p)) then Tagged(PartLines(p), KindOf(p)) else []
  }

  /** The lines of a pane that have kind `k`, in order. */
  function OfKind(es: seq<Entry>, k: Kind): seq<string>
  {
    if es == [] then []
    else OfKind(es[..|es| - 1], k) + (if es[|es| - 1].kind == k then [es[|es| - 1].content] else [])
  }

  /** The lines of all the parts of kind `k`, part after part. */
  function LinesOf(parts: seq<Part>, k: Kind): seq<string>
  {
    if parts == [] then []
    else
      var last := parts[|parts| - 1];
      LinesOf(parts[..|parts| - 1], k) + (if KindOf(last) == k then PartLines(last) else [])
  }

  lemma {:induction false} OfKindAppend(a: seq<Entry>, b: seq<Entry>, k: Kind)
    ensures OfKind(a + b, k) == OfKind(a, k) + OfKind(b, k)
    decreases |b|
  {
    if b == [] {
      assert a + b == a;
    } else {
      var b0 := b[..|b| - 1];
      assert (a + b)[..|a + b| - 1] == a + b0;
      OfKindAppend(a, b0, k);
    }
  }

  lemma {:induction false} OfKindTagged(lines: seq<string>, k: Kind, k': Kind)
    ensures OfKind(Tagged(lines, k), k') == if k == k' then lines else []
    decreases |lines|
  {
    if lines != [] {
      var init, last := lines[..|lines| - 1], lines[|lines| - 1];
      var t := Tagged(lines, k);
      assert t == Tagged(init, k) + [Entry(last, k)];
      assert t[..|t| - 1] == Tagged(init, k);
      OfKindTagged(init, k, k');
      if k == k' {
        assert init + [last] == lines;
      }
    }
  }

  /** Each pane holds, in order, exactly the lines of the parts of each kind it
      shows, and none of the kind it does not: the before pane has no added
      line and the after pane no removed line. */
  lemma {:induction false} PaneOfKind(parts: seq<Part>, side: Side, k: Kind)
    ensures OfKind(PaneEntries(parts, side), k) == if Shows(side, k) then LinesOf(parts, k) else []
    decreases |parts|
  {
    if parts != [] {
      var init, last := parts[..|parts| - 1], parts[|parts| - 1];
      PaneOfKind(init, side, k);
      OfKindAppend(PaneEntries(init, side), Shown(side, last), k);
      OfKindTagged(PartLines(last), KindOf(last), k);
    }
  }

  /** Both panes show the same unchanged lines in the same order. */
  lemma UnchangedAlike(parts: seq<Part>)
    ensures OfKind(PaneEntries(parts, Before), Unchanged) == OfKind(PaneEntries(parts, After), Unchanged)
    ensures OfKind(PaneEntries(parts, Before), Unchanged) == LinesOf(parts, Unchanged)
  {
    PaneOfKind(parts, Before, Unchanged);
    PaneOfKind(parts, After, Unchanged);
  }

  /** Every entry is counted under exactly one kind. */
  lemma {:induction false} KindsCover(es: seq<Entry>)
    ensures |es| == |OfKind(es, Unchanged)| + |OfKind(es, Added)| + |OfKind(es, Removed)|
    decreases |es|
  {
    if es != [] {
      KindsCover(es[..|es| - 1]);
    }
  }

  /** The before pane has one line per unchanged or removed line and the after
      pane one per unchanged or added line, so the last number in each is that
      count. */
  lemma PaneSizes(parts: seq<Part>)
    ensures |PaneEntries(parts, Before)| == |LinesOf(parts, Unchanged)| + |LinesOf(parts, Removed)|
    ensures |PaneEntries(parts, After)| == |LinesOf(parts, Unchanged)| + |LinesOf(parts, Added)|
  {
    KindsCover(PaneEntries(parts, Before));
    KindsCover(PaneEntries(parts, After));
    PaneOfKind(parts, Before, Unchanged);
    PaneOfKind(parts, Before, Added);
    PaneOfKind(parts, Before, Removed);
    PaneOfKind(parts, After, Unchanged);
    PaneOfKind(parts, After, Added);
    PaneOfKind(parts, After, Removed);
  }

  /** One `pane += buildLine(lineNum++, line, type)`: a pane showing `es`
      gets `line` built with the next number. */
  method AddLine(html: string, ghost es: seq<Entry>, line: string, num: nat, k: Kind)
    returns (html': string, num': nat)
    requires html == PaneHtml(es) && num == |es| + 1
    ensures html' == PaneHtml(es + [Entry(line, k)]) && num' == num + 1
  {
    PaneGrows(es, Entry(line, k));
    html' := html + BuildLine(Row(num, line, k));
    num' := num + 1;
  }

  /** `lines.forEach(line => pane += buildLine(lineNum++, line, type))` for
      an added or a removed part: one pane grows by the part's lines. */
  method AddLines(html: string, num: nat, ghost shown: seq<Entry>, lines: seq<string>, k: Kind)
    returns (html': string, num': nat)
    requires html == PaneHtml(shown) && num == |shown| + 1
    ensures html' == PaneHtml(shown + Tagged(lines, k)) && num' == num + |lines|
  {
    html', num' := html, num;
    TaggedNone(shown, lines, k);
    for j := 0 to |lines|
      invariant html' == PaneHtml(shown + Tagged(lines[..j], k)) && num' == num + j
    {
      TaggedStep(shown, lines, j, k);
      html', num' := AddLine(html', shown + Tagged(lines[..j], k), lines[j], num', k);
    }
    TaggedAll(lines, k);
  }

  /** The same for an unchanged part: each line goes to both panes in turn. */
  method AddLinesBoth(before: string, after: string, numBefore: nat, numAfter: nat,
                      ghost shownBefore: seq<Entry>, ghost shownAfter: seq<Entry>, lines: seq<string>)
    returns (before': string, after': string, numBefore': nat, numAfter': nat)
    requires before == PaneHtml(shownBefore) && numBefore == |shownBefore| + 1
    requires after == PaneHtml(shownAfter) && numAfter == |shownAfter| + 1
    ensures before' == PaneHtml(shownBefore + Tagged(lines, Unchanged)) && numBefore' == numBefore + |lines|
    ensures after' == PaneHtml(shownAfter + Tagged(lines, Unchanged)) && numAfter' == numAfter + |lines|
  {
    before', after', numBefore', numAfter' := before, after, numBefore, numAfter;
    TaggedNone(shownBefore, lines, Unchanged);
    TaggedNone(shownAfter, lines, Unchanged);
    for j := 0 to |lines|
      invariant before' == PaneHtml(shownBefore + Tagged(lines[..j], Unchanged)) && numBefore' == numBefore + j
      invariant after' == PaneHtml(shownAfter + Tagged(lines[..j], Unchanged)) && numAfter' == numAfter + j
    {
      TaggedStep(shownBefore, lines, j, Unchanged);
      TaggedStep(shownAfter, lines, j, Unchanged);
      before', numBefore' := AddLine(before', shownBefore + Tagged(lines[..j], Unchanged), lines[j], numBefore', Unchanged);
      after', numAfter' := AddLine(after', shownAfter + Tagged(lines[..j], Unchanged), lines[j], numAfter', Unchanged);
    }
    TaggedAll(lines, Unchanged);
  }

  /** The body of `diff.forEach(part => ...)`: the part's lines are added to
      the panes that show them, numbered on from each pane's counter. */
  method AddPart(part: Part, before: string, after: string, lineNumBefore: nat, lineNumAfter: nat,
                 ghost shownBefore: seq<Entry>, ghost shownAfter: seq<Entry>)
    returns (before': string, after': string, lineNumBefore': nat, lineNumAfter': nat)
    requires before == PaneHtml(shownBefore) && lineNumBefore == |shownBefore| + 1
    requires after == PaneHtml(shownAfter) && lineNumAfter == |shownAfter| + 1
    ensures before' == PaneHtml(shownBefore + Shown(Before, part))
    ensures lineNumBefore' == |shownBefore + Shown(Before, part)| + 1
    ensures after' == PaneHtml(shownAfter + Shown(After, part))
    ensures lineNumAfter' == |shownAfter + Shown(After, part)| + 1
  {
    var lines := Split(StripNewline(part.value), '\n');
    assert lines == PartLines(part);
    if part.added {
      assert Shown(Before, part) == [] && Shown(After, part) == Tagged(lines, Added);
      assert shownBefore + [] == shownBefore;
      before', lineNumBefore' := before, lineNumBefore;
      after', lineNumAfter' := AddLines(after, lineNumAfter, shownAfter, lines, Added);
    } else if part.removed {
      assert Shown(Before, part) == Tagged(lines, Removed) && Shown(After, part) == [];
      assert shownAfter + [] == shownAfter;
      before', lineNumBefore' := AddLines(before, lineNumBefore, shownBefore, lines, Removed);
      after', lineNumAfter' := after, lineNumAfter;
    } else {
      assert Shown(Before, part) == Tagged(lines, Unchanged) && Shown(After, part) == Tagged(lines, Unchanged);
      before', after', lineNumBefore', lineNumAfter' :=
        AddLinesBoth(before, after, lineNumBefore, lineNumAfter, shownBefore, shownAfter, lines);
    }
  }

  /** `createSideBySideDiff`: the two panes' HTML over the parts of a diff. */
  method CreateSideBySideDiff(parts: seq<Part>) returns (before: string, after: string)
    ensures before == PaneHtml(PaneEntries(parts, Before))
    ensures after == PaneHtml(PaneEntries(parts, After))
  {
    before, after := "", "";
    var lineNumBefore, lineNumAfter := 1, 1;
    for i := 0 to |parts|
      invariant before == PaneHtml(PaneEntries(parts[..i], Before))
      invariant lineNumBefore == |PaneEntries(parts[..i], Before)| + 1
      invariant after == PaneHtml(PaneEntries(parts[..i], After))
      invariant lineNumAfter == |PaneEntries(parts[..i], After)| + 1
    {
      PaneStep(parts, i, Before);
      PaneStep(parts, i, After);
      before, after, lineNumBefore, lineNumAfter :=
        AddPart(parts[i], before, after, lineNumBefore, lineNumAfter,
                PaneEntries(parts[..i], Before), PaneEntries(parts[..i], After));
    }
    assert parts[..|parts|] == parts;
  }

  // --------------------------------------------------------------- insights

  /** A sample file read from the test folder. */
  datatype SourceFile = SourceFile(name: string, content: string)

  /** What an autofix returns: the rewritten code and the ids it found. */
  datatype FixResult = FixResult(fixedCode: string, issuesFound: seq<string>)

  /** The part of a web-features entry the insights keep. */
  datatype Feature = Feature(name: string, spec: string)

  datatype FeatureCount = FeatureCount(count: nat, data: Feature)

  datatype Insights = Insights(totalFiles: nat, totalIssues: nat, featureCounts: map<string, FeatureCount>)

  /** The autofix a file goes through: the JavaScript one when its name ends in
      `.js`, the CSS one otherwise; `None` when the autofix throws. */
  function FixOf(f: SourceFile, jsFix: string -> Option<FixResult>, cssFix: string -> Option<FixResult>)
    : Option<FixResult>
  {
    if EndsWith(f.name, ".js") then jsFix(f.content) else cssFix(f.content)
  }

  /** The ids found in the files, file after file; `None` once an autofix
      throws, since nothing catches it. */
  function IssuesOf(files: seq<SourceFile>, jsFix: string -> Option<FixResult>,
                    cssFix: string -> Option<FixResult>): Option<seq<string>>
  {
    if files == [] then Some([])
    else
      match IssuesOf(files[..|files| - 1], jsFix, cssFix)
      case None => None
      case Some(ids) =>
        match FixOf(files[|files| - 1], jsFix, cssFix)
        case None => None
        case Some(result) => Some(ids + result.issuesFound)
  }

  function SearchUrl(): string { "https://developer.mozilla.org/en-US/search?q=" }

  /** The web-features entry for an id, or a stand-in named by the id that
      links to an MDN search for it. */
  function DataFor(webFeatures: map<string, Feature>, id: string): (d: Feature)
    ensures id !in webFeatures ==> d.name == id && StartsWith(d.spec, SearchUrl()) && EndsWith(d.spec, id)
  {
    if id in webFeatures then webFeatures[id] else Feature(id, SearchUrl() + id)
  }

  /** `featureCounts` holds an entry for exactly the ids found, counting each
      id's occurrences and carrying its data, and `totalIssues` counts them
      all. */
  ghost predicate Tallies(ins: Insights, ids: seq<string>, webFeatures: map<string, Feature>)
  {
    && ins.totalIssues == |ids|
    && (forall id :: id in ins.featureCounts <==> id in ids)
    && forall id :: id in ins.featureCounts ==>
         ins.featureCounts[id].count == multiset(ids)[id] && ins.featureCounts[id].data == DataFor(webFeatures, id)
  }

  /** One turn of `for (const issueId of result.issuesFound)`. */
  method CountIssue(ins: Insights, ghost seen: seq<string>, id: string, webFeatures: map<string, Feature>)
    returns (ins': Insights)
    requires Tallies(ins, seen, webFeatures)
    ensures Tallies(ins', seen + [id], webFeatures) && ins'.totalFiles == ins.totalFiles
  {
    ins' := ins.(totalIssues := ins.totalIssues + 1);
    if id !in ins'.featureCounts {
      ins' := ins'.(featureCounts := ins'.featureCounts[id := FeatureCount(0, DataFor(webFeatures, id))]);
    }
    var entry := ins'.featureCounts[id];
    ins' := ins'.(featureCounts := ins'.featureCounts[id := entry.(count := entry.count + 1)]);
    assert multiset(seen + [id]) == multiset(seen) + multiset{id};
  }

  /** The loop over one file's ids. */
  method CountIssues(ins: Insights, ghost seen: seq<string>, found: seq<string>, webFeatures: map<string, Feature>)
    returns (ins': Insights)
    requires Tallies(ins, seen, webFeatures)
    ensures Tallies(ins', seen + found, webFeatures) && ins'.totalFiles == ins.totalFiles
  {
    ins' := ins;
    assert seen + found[..0] == seen;
    for j := 0 to |found|
      invariant Tallies(ins', seen + found[..j], webFeatures) && ins'.totalFiles == ins.totalFiles
    {
      ins' := CountIssue(ins', seen + found[..j], found[j], webFeatures);
      assert seen + found[..j] + [found[j]] == seen + found[..j + 1];
    }
    assert found[..|found|] == found;
  }

  /** The insights of `generateDemo`: every CSS file, then every JavaScript
      file, goes through its autofix and each id found is counted; an autofix
      that throws ends the run. */
  method GatherInsights(css: seq<SourceFile>, js: seq<SourceFile>, jsFix: string -> Option<FixResult>,
                        cssFix: string -> Option<FixResult>, webFeatures: map<string, Feature>)
    returns (r: Option<Insights>)
    ensures r.Some? <==> IssuesOf(css + js, jsFix, cssFix).Some?
    ensures r.Some? ==> r.value.totalFiles == |css| + |js|
    ensures r.Some? ==> Tallies(r.value, IssuesOf(css + js, jsFix, cssFix).value, webFeatures)
  {
    var insights := Insights(|css| + |js|, 0, map[]);
    var allFiles := css + js;
    ghost var ids: seq<string> := [];
    for i := 0 to |allFiles|
      invariant IssuesOf(allFiles[..i], jsFix, cssFix) == Some(ids)
      invariant insights.totalFiles == |css| + |js| && Tallies(insights, ids, webFeatures)
    {
      var f := allFiles[i];
      var isJs := EndsWith(f.name, ".js");
      var result := if isJs then jsFix(f.content) else cssFix(f.content);
      IssuesStep(allFiles, i, ids, jsFix, cssFix);
      assert result == FixOf(allFiles[i], jsFix, cssFix);
      if result.None? {
        IssuesNoneStays(allFiles, i + 1, jsFix, cssFix);
        return None;
      }
      insights := CountIssues(insights, ids, result.value.issuesFound, webFeatures);
      ids := ids + result.value.issuesFound;
    }
    assert allFiles[..|allFiles|] == allFiles;
    r := Some(insights);
  }

  /** One more file: its ids follow those found so far, unless its autofix throws. */
  lemma IssuesStep(files: seq<SourceFile>, i: nat, ids: seq<string>, jsFix: string -> Option<FixResult>,
                   cssFix: string -> Option<FixResult>)
    requires i < |files| && IssuesOf(files[..i], jsFix, cssFix) == Some(ids)
    ensures IssuesOf(files[..i + 1], jsFix, cssFix)
            == if FixOf(files[i], jsFix, cssFix).None? then None
               else Some(ids + FixOf(files[i], jsFix, cssFix).value.issuesFound)
  {
    var next := files[..i + 1];
    assert next[..|next| - 1] == files[..i] && next[|next| - 1] == files[i];
  }

  /** Once an autofix has thrown, the run stays failed whatever follows. */
  lemma {:induction false} IssuesNoneStays(files: seq<SourceFile>, n: nat, jsFix: string -> Option<FixResult>,
                                           cssFix: string -> Option<FixResult>)
    requires n <= |files| && IssuesOf(files[..n], jsFix, cssFix).None?
    ensures IssuesOf(files, jsFix, cssFix).None?
    decreases |files| - n
  {
    if n < |files| {
      assert files[..n + 1][..n] == files[..n];
      IssuesNoneStays(files, n + 1, jsFix, cssFix);
    } else {
      assert files[..n] == files;
    }
  }

  /** The run fails exactly when some file's autofix throws. */
  lemma {:induction false} IssuesFail(files: seq<SourceFile>, jsFix: string -> Option<FixResult>,
                                      cssFix: string -> Option<FixResult>)
    ensures IssuesOf(files, jsFix, cssFix).None? <==>
            exists i :: 0 <= i < |files| && FixOf(files[i], jsFix, cssFix).None?
    decreases |files|
  {
    if files != [] {
      var init := files[..|files| - 1];
      IssuesFail(init, jsFix, cssFix);
      if exists i :: 0 <= i < |init| && FixOf(init[i], jsFix, cssFix).None? {
        var i :| 0 <= i < |init| && FixOf(init[i], jsFix, cssFix).None?;
        assert files[i] == init[i];
      }
      if exists i :: 0 <= i < |files| && FixOf(files[i], jsFix, cssFix).None? {
        var i :| 0 <= i < |files| && FixOf(files[i], jsFix, cssFix).None?;
        if i < |init| {
          assert init[i] == files[i];
        }
      }
    }
  }

  /** The ids of two runs back to back: the CSS files' ids come before the
      JavaScript files' ids. */
  lemma {:induction false} IssuesAppend(a: seq<SourceFile>, b: seq<SourceFile>, jsFix: string -> Option<FixResult>,
                                        cssFix: string -> Option<FixResult>)
    requires IssuesOf(a, jsFix, cssFix).Some? && IssuesOf(b, jsFix, cssFix).Some?
    ensures IssuesOf(a + b, jsFix, cssFix) == Some(IssuesOf(a, jsFix, cssFix).value + IssuesOf(b, jsFix, cssFix).value)
    decreases |b|
  {
    if b == [] {
      assert a + b == a;
      assert IssuesOf(a, jsFix, cssFix).value + [] == IssuesOf(a, jsFix, cssFix).value;
    } else {
      var b0 := b[..|b| - 1];
      assert (a + b)[..|a + b| - 1] == a + b0;
      assert (a + b)[|a + b| - 1] == b[|b| - 1];
      IssuesAppend(a, b0, jsFix, cssFix);
      var x, y := IssuesOf(a, jsFix, cssFix).value, IssuesOf(b0, jsFix, cssFix).value;
      var last := FixOf(b[|b| - 1], jsFix, cssFix).value.issuesFound;
      assert x + y + last == x + (y + last);
    }
  }

  /** A file listed as CSS never goes through the JavaScript autofix. */
  lemma CssFileGetsCssFix(f: SourceFile, jsFix: string -> Option<FixResult>, cssFix: string -> Option<FixResult>)
    requires EndsWith(f.name, ".css")
    ensures FixOf(f, jsFix, cssFix) == cssFix(f.content)
  {
    assert f.name[|f.name| - 3] == 'c';
  }

  /** The tallied insights are fixed by the ids found: no two different
      tallies of the same ids. */
  lemma TalliesUnique(a: Insights, b: Insights, ids: seq<string>, webFeatures: map<string, Feature>)
    requires a.totalFiles == b.totalFiles
    requires Tallies(a, ids, webFeatures) && Tallies(b, ids, webFeatures)
    ensures a == b
  {
    assert a.featureCounts.Keys == b.featureCounts.Keys;
    assert forall id :: id in a.featureCounts ==> a.featureCounts[id] == b.featureCounts[id];
  }

  lemma {:induction false} DistinctAtMost(ids: seq<string>)
    ensures |set id | id in ids| <= |ids|
    decreases |ids|
  {
    if ids != [] {
      var init := ids[..|ids| - 1];
      DistinctAtMost(init);
      assert (set id | id in ids) == (set id | id in init) + {ids[|ids| - 1]};
    }
  }

  /** Every tallied feature was found at least once, so there are never more
      features than issues. */
  lemma FeatureCountBound(ins: Insights, ids: seq<string>, webFeatures: map<string, Feature>)
    requires Tallies(ins, ids, webFeatures)
    ensures forall id :: id in ins.featureCounts ==> ins.featureCounts[id].count >= 1
    ensures |ins.featureCounts| <= ins.totalIssues
  {
    assert ins.featureCounts.Keys == set id | id in ids;
    DistinctAtMost(ids);
  }
}
