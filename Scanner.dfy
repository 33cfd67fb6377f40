/** The batch scanner (src/scanner.js): walks a folder tree, runs the JS
    transform on `.js` files and the CSS transform on `.css` files, writes back
    the files whose text changed, collects one report line per file, and can
    write the report as a Markdown list.

    The disk is a map from paths to file texts plus the parts a run does not
    change (`Env`): which paths cannot be read or written, the directory
    listings, and the two transforms as functions from text to their outcome.
    The scanner walks the tree one entry at a time. */
module Scanner {
  import opened Wrappers
  import opened Text

  // ---------------------------------------------------------------- paths

  /** The index of the last `c` in `s`, if any. */
  function LastIndex(s: string, c: char): (r: Option<nat>)
    ensures r.None? ==> forall j :: 0 <= j < |s| ==> s[j] != c
    ensures r.Some? ==> r.value < |s| && s[r.value] == c
                        && forall j :: r.value < j < |s| ==> s[j] != c
  {
    if s == [] then None
    else if s[|s| - 1] == c then Some(|s| - 1)
    else LastIndex(s[..|s| - 1], c)
  }

  /** The last segment of a path. */
  function Base(path: string): string
  {
    match LastIndex(path, '/')
    case None => path
    case Some(i) => path[i + 1..]
  }

  /** `path.extname` of one path segment: from the last dot on, unless that dot
      starts the segment or the segment is `..`. */
  function SegmentExt(name: string): string
  {
    match LastIndex(name, '.')
    case None => []
    case Some(d) => if d == 0 || name == ".." then [] else name[d..]
  }

  /** `path.extname` */
  function ExtName(path: string): string
  {
    SegmentExt(Base(path))
  }

  /** `path.join(folder, name)` for an entry name of a listing. */
  function PathJoin(folder: string, name: string): string
  {
    folder + "/" + name
  }

  /** The last segment of a joined path is the entry name. */
  lemma BaseOfJoin(folder: string, name: string)
    requires '/' !in name
    ensures Base(PathJoin(folder, name)) == name
  {
    var p := PathJoin(folder, name);
    assert p[|folder|] == '/';
    match LastIndex(p, '/')
    case Some(i) =>
      assert i >= |folder|;
      assert p[|folder| + 1..] == name;
  }

  /** A joined path has the extension of its entry name, the test the folder
      walk uses to choose the files it scans. */
  lemma ExtNameOfJoin(folder: string, name: string)
    requires '/' !in name
    ensures ExtName(PathJoin(folder, name)) == ExtName(name)
  {
    BaseOfJoin(folder, name);
    assert LastIndex(name, '/').None?;
  }

  /** For an extension such as `.js` or `.css`, an entry name has it exactly
      when the name ends with it and has something before it: `.js` alone is a
      dot-file without extension. */
  lemma ExtNameIs(name: string, e: string)
    requires '/' !in name
    requires |e| > 1 && e[0] == '.' && '.' !in e[1..]
    ensures ExtName(name) == e <==> |name| > |e| && EndsWith(name, e)
  {
    assert LastIndex(name, '/').None?;
    assert ExtName(name) == SegmentExt(name);
    if |name| > |e| && EndsWith(name, e) {
      var d := |name| - |e|;
      assert name[d..] == e;
      assert name[d] == '.';
      forall j | d < j < |name| ensures name[j] != '.' {
        assert name[j] == e[j - d] == e[1..][j - d - 1];
      }
      match LastIndex(name, '.')
      case Some(i) =>
        assert i == d;
    }
    if ExtName(name) == e {
      match LastIndex(name, '.')
      case Some(d) =>
        assert name[d..] == e;
    }
  }

  // ----------------------------------------------------------- the disk

  /** What a transform does with a file's text: the fixed code, or an
      exception (a parse error, or the CSS transform's missing container
      width). */
  datatype Outcome = Fixed(code: string) | Threw

  /** A directory entry as `readdir` reports it with its file type. */
  datatype Item =
    | FileItem(name: string)
    | DirItem(name: string, listing: Listing)
    | OtherItem(name: string)

  /** A folder's entries, or a folder that cannot be listed. */
  datatype Listing = Listed(items: seq<Item>) | Unlistable

  /** What a run reads but does not change. A folder's listing has two
      representations on purpose: `dirs` lists the folders a command-line
      argument can name, since the folder is only known once `argv` is read;
      below that folder, each `DirItem` carries its own `listing`, so that the
      walk recurses on a smaller value and terminates. The walk never looks a
      nested folder up in `dirs`, so a nested entry of `dirs` is not read. */
  datatype Env = Env(
    unreadable: set<string>,
    unwritable: set<string>,
    dirs: map<string, Listing>,
    js: string -> Outcome,
    css: string -> Outcome)

  /** `fs.readdir(folder)` */
  function ListingOf(env: Env, folder: string): Listing
  {
    if folder in env.dirs then env.dirs[folder] else Unlistable
  }

  // ------------------------------------------------------- report lines

  datatype Kind = JSFix | CSSFix

  /** A report line, kept as a value; `Render` gives its text. */
  datatype Line =
    | ReadError(path: string)
    | Applied(kind: Kind, path: string)
    | WriteError(path: string)
    | NoChanges(path: string)
    | FolderError(path: string)

  function KindName(k: Kind): string
  {
    match k
    case JSFix => "JS"
    case CSSFix => "CSS"
  }

  /** No newline in the text. */
  predicate OneLine(s: string)
  {
    forall i :: 0 <= i < |s| ==> s[i] != '\n'
  }

  /** The text of a line before its path. */
  function Label(l: Line): (r: string)
    ensures OneLine(r)
  {
    match l
    case ReadError(_) => var s := "\U{274C} Error reading file: "; assert OneLine(s); s
    case Applied(k, _) => var s := "\U{2705} " + KindName(k) + " autofix applied: "; assert OneLine(s); s
    case WriteError(_) => var s := "\U{274C} Error writing file: "; assert OneLine(s); s
    case NoChanges(_) => var s := "\U{2139}\U{FE0F} No changes needed: "; assert OneLine(s); s
    case FolderError(_) => var s := "\U{274C} Could not scan folder: "; assert OneLine(s); s
  }

  function Render(l: Line): (r: string)
    ensures EndsWith(r, l.path)
  {
    Label(l) + l.path
  }

  // ------------------------------------------------ what a scan does

  /** The files after a step, the lines it reports, and whether it threw. */
  datatype Effect = Effect(files: map<string, string>, lines: seq<Line>, threw: bool)

  /** The transform `scanFile` picks for an extension, and its report kind. */
  function TransformFor(env: Env, ext: string): Option<(Kind, string -> Outcome)>
  {
    if ext == ".js" then Some((JSFix, env.js))
    else if ext == ".css" then Some((CSSFix, env.css))
    else None
  }

  /** `scanFile(path)` */
  function FileEffect(env: Env, files: map<string, string>, path: string): Effect
  {
    if path !in files || path in env.unreadable then Effect(files, [ReadError(path)], false)
    else
      var text := files[path];
      match TransformFor(env, ExtName(path))
      case None => Effect(files, [NoChanges(path)], false)
      case Some((kind, transform)) => Recorded(env, files, path, kind, transform(text))
  }

  /** What `scanFile` does once the transform of a file that was read has
      returned or thrown. */
  function Recorded(env: Env, files: map<string, string>, path: string, kind: Kind, outcome: Outcome): Effect
    requires path in files
  {
    match outcome
    case Threw => Effect(files, [], true)
    case Fixed(code) =>
      if code == files[path] then Effect(files, [NoChanges(path)], false)
      else if path in env.unwritable then Effect(files, [WriteError(path)], false)
      else Effect(files[path := code], [Applied(kind, path)], false)
  }

  /** The files the walk hands to `scanFile`. */
  predicate Scans(name: string)
  {
    ExtName(name) == ".js" || ExtName(name) == ".css"
  }

  /** One entry of a listing: a folder is walked (and never throws), a file
      with a scanned extension is scanned, anything else is skipped. */
  function ItemEffect(env: Env, files: map<string, string>, folder: string, item: Item): Effect
    decreases item
  {
    match item
    case DirItem(name, sub) =>
      var r := FolderEffect(env, files, PathJoin(folder, name), sub);
      Effect(r.files, r.lines, false)
    case FileItem(name) =>
      if Scans(name) then FileEffect(env, files, PathJoin(folder, name)) else Effect(files, [], false)
    case OtherItem(_) => Effect(files, [], false)
  }

  /** The entries of a listing in order; `threw` when some entry threw. */
  function ItemsEffect(env: Env, files: map<string, string>, folder: string, items: seq<Item>): Effect
    decreases items
  {
    if items == [] then Effect(files, [], false)
    else
      var a := ItemEffect(env, files, folder, items[0]);
      var b := ItemsEffect(env, a.files, folder, items[1..]);
      Effect(b.files, a.lines + b.lines, a.threw || b.threw)
  }

  /** `scanFolder(folder)`: a folder that cannot be listed, or whose entries
      threw, adds one "Could not scan folder" line. */
  function FolderEffect(env: Env, files: map<string, string>, folder: string, listing: Listing): Effect
    decreases listing
  {
    match listing
    case Unlistable => Effect(files, [FolderError(folder)], false)
    case Listed(items) =>
      var r := ItemsEffect(env, files, folder, items);
      Effect(r.files, r.lines + (if r.threw then [FolderError(folder)] else []), false)
  }

  /** The folder a run scans: the first argument not starting with `--`. */
  function FirstFolder(args: seq<string>): Option<string>
  {
    if args == [] then None
    else if !StartsWith(args[0], "--") then Some(args[0])
    else FirstFolder(args[1..])
  }

  /** `if (!folder)` rejects an empty argument as well as a missing one. */
  predicate HasFolder(args: seq<string>)
  {
    FirstFolder(args).Some? && FirstFolder(args).value != ""
  }

  /** The report as a Markdown list: each line after `- `, joined by newlines. */
  function Bullets(lines: seq<Line>): (r: seq<string>)
    ensures |r| == |lines|
    ensures forall k :: 0 <= k < |r| ==> r[k] == "- " + Render(lines[k])
  {
    if lines == [] then [] else ["- " + Render(lines[0])] + Bullets(lines[1..])
  }

  function Markdown(lines: seq<Line>): string
  {
    Text.Join(Bullets(lines), '\n')
  }

  const ReportPath: string := "scan-report.md"

  /** The names the walk scans are those ending `.js` or `.css` after at least
      one more character. */
  lemma ScannedNames(name: string)
    requires '/' !in name
    ensures Scans(name) <==> (|name| > 3 && EndsWith(name, ".js")) || (|name| > 4 && EndsWith(name, ".css"))
  {
    var js, css := ".js", ".css";
    ExtNameIs(name, js);
    ExtNameIs(name, css);
  }

  // ------------------------------------------------ one file

  /** A file that cannot be read gets exactly one "Error reading file" line;
      no transform runs and nothing is written. */
  lemma ReadFailure(env: Env, files: map<string, string>, path: string)
    requires path !in files || path in env.unreadable
    ensures FileEffect(env, files, path) == Effect(files, [ReadError(path)], false)
  {
  }

  /** `scanFile` throws exactly when the file was read and its transform threw;
      otherwise it reports exactly one line, about that file. */
  lemma FileLines(env: Env, files: map<string, string>, path: string)
    ensures var r := FileEffect(env, files, path);
            r.threw <==> path in files && path !in env.unreadable
                         && TransformFor(env, ExtName(path)).Some?
                         && TransformFor(env, ExtName(path)).value.1(files[path]).Threw?
    ensures var r := FileEffect(env, files, path);
            |r.lines| == (if r.threw then 0 else 1)
            && forall k :: 0 <= k < |r.lines| ==> r.lines[k].path == path
  {
  }

  /** Whether a path is present, and its text, agree in `f` and `g`. */
  predicate Same(f: map<string, string>, g: map<string, string>, p: string)
  {
    (p in f <==> p in g) && (p in f ==> f[p] == g[p])
  }

  /** A file is written only when the transform's text differs from what was
      read, and then the line says so; with no change the line is "No changes
      needed" and the disk is as it was. No other path is touched. */
  lemma WrittenOnlyWhenChanged(env: Env, files: map<string, string>, path: string)
    ensures var r := FileEffect(env, files, path);
            forall p :: p != path ==> Same(files, r.files, p)
    ensures var r := FileEffect(env, files, path);
            r.files != files ==>
              path in files && path in r.files && r.files[path] != files[path]
              && |r.lines| == 1 && r.lines[0].Applied?
    ensures var r := FileEffect(env, files, path);
            r.lines == [NoChanges(path)] || r.lines == [WriteError(path)] ==> r.files == files
  {
    if path in files && path !in env.unreadable {
      var t := TransformFor(env, ExtName(path));
      if t.Some? {
        RecordedWrites(env, files, path, t.value.0, t.value.1(files[path]));
      }
    }
  }

  lemma RecordedWrites(env: Env, files: map<string, string>, path: string, kind: Kind, outcome: Outcome)
    requires path in files
    ensures var r := Recorded(env, files, path, kind, outcome);
            forall p :: p != path ==> Same(files, r.files, p)
    ensures var r := Recorded(env, files, path, kind, outcome);
            r.files != files ==>
              path in r.files && r.files[path] != files[path] && r.lines == [Applied(kind, path)]
    ensures var r := Recorded(env, files, path, kind, outcome);
            r.lines == [NoChanges(path)] || r.lines == [WriteError(path)] ==> r.files == files
  {
  }

  /** `.js` files go to the JS transform and `.css` files to the CSS
      transform; any other file is reported unchanged. */
  lemma Dispatch(env: Env, files: map<string, string>, path: string)
    requires path in files && path !in env.unreadable
    ensures var r := FileEffect(env, files, path);
            ExtName(path) == ".js" && env.js(files[path]).Fixed? && path !in env.unwritable
            && env.js(files[path]).code != files[path]
            ==> r.files == files[path := env.js(files[path]).code] && r.lines == [Applied(JSFix, path)]
    ensures var r := FileEffect(env, files, path);
            ExtName(path) == ".css" && env.css(files[path]).Fixed? && path !in env.unwritable
            && env.css(files[path]).code != files[path]
            ==> r.files == files[path := env.css(files[path]).code] && r.lines == [Applied(CSSFix, path)]
    ensures ExtName(path) != ".js" && ExtName(path) != ".css"
            ==> FileEffect(env, files, path) == Effect(files, [NoChanges(path)], false)
  {
  }

  // ------------------------------------------------ the folder walk

  /** The paths of the files the walk scans. */
  function ItemPaths(folder: string, item: Item): set<string>
    decreases item
  {
    match item
    case DirItem(name, sub) => ListingPaths(PathJoin(folder, name), sub)
    case FileItem(name) => if Scans(name) then {PathJoin(folder, name)} else {}
    case OtherItem(_) => {}
  }

  function ItemsPaths(folder: string, items: seq<Item>): set<string>
    decreases items
  {
    if items == [] then {} else ItemPaths(folder, items[0]) + ItemsPaths(folder, items[1..])
  }

  function ListingPaths(folder: string, listing: Listing): set<string>
    decreases listing
  {
    match listing
    case Unlistable => {}
    case Listed(items) => ItemsPaths(folder, items)
  }

  /** A joined path is longer than its folder. */
  lemma JoinLonger(folder: string, name: string)
    ensures |PathJoin(folder, name)| > |folder|
  {
  }

  /** Every line is a folder line or about a path in `paths`, and every line's
      path has at least `n` characters. */
  predicate Within(lines: seq<Line>, paths: set<string>, n: nat)
  {
    forall k :: 0 <= k < |lines| ==>
      (lines[k].FolderError? || lines[k].path in paths) && |lines[k].path| >= n
  }

  lemma WithinAppend(a: seq<Line>, b: seq<Line>, p: set<string>, q: set<string>, n: nat)
    requires Within(a, p, n) && Within(b, q, n)
    ensures Within(a + b, p + q, n)
  {
    forall k | 0 <= k < |a + b|
      ensures ((a + b)[k].FolderError? || (a + b)[k].path in p + q) && |(a + b)[k].path| >= n
    {
      if k < |a| {
        assert (a + b)[k] == a[k];
      } else {
        assert (a + b)[k] == b[k - |a|];
      }
    }
  }

  lemma WithinWeaken(a: seq<Line>, p: set<string>, q: set<string>, n: nat, m: nat)
    requires Within(a, p, n) && p <= q && m <= n
    ensures Within(a, q, m)
  {
  }

  /** What an entry does: files change only at the paths it scans, and every
      line is a folder line or about a scanned path, below the folder. */
  lemma {:induction false} ItemFacts(env: Env, files: map<string, string>, folder: string, item: Item)
    ensures var r := ItemEffect(env, files, folder, item);
            forall p :: p !in ItemPaths(folder, item) ==> Same(files, r.files, p)
    ensures Within(ItemEffect(env, files, folder, item).lines, ItemPaths(folder, item), |folder| + 1)
    decreases item
  {
    match item
    case DirItem(name, sub) =>
      var sf := PathJoin(folder, name);
      JoinLonger(folder, name);
      FolderFacts(env, files, sf, sub);
      WithinWeaken(FolderEffect(env, files, sf, sub).lines, ListingPaths(sf, sub), ListingPaths(sf, sub), |sf|, |folder| + 1);
    case FileItem(name) =>
      if Scans(name) {
        JoinLonger(folder, name);
        WrittenOnlyWhenChanged(env, files, PathJoin(folder, name));
        FileLines(env, files, PathJoin(folder, name));
      }
    case OtherItem(_) =>
  }

  lemma {:induction false} ItemsFacts(env: Env, files: map<string, string>, folder: string, items: seq<Item>)
    ensures var r := ItemsEffect(env, files, folder, items);
            forall p :: p !in ItemsPaths(folder, items) ==> Same(files, r.files, p)
    ensures Within(ItemsEffect(env, files, folder, items).lines, ItemsPaths(folder, items), |folder| + 1)
    decreases items
  {
    if items != [] {
      var a := ItemEffect(env, files, folder, items[0]);
      var b := ItemsEffect(env, a.files, folder, items[1..]);
      ItemFacts(env, files, folder, items[0]);
      ItemsFacts(env, a.files, folder, items[1..]);
      WithinAppend(a.lines, b.lines, ItemPaths(folder, items[0]), ItemsPaths(folder, items[1..]), |folder| + 1);
    }
  }

  lemma {:induction false} FolderFacts(env: Env, files: map<string, string>, folder: string, listing: Listing)
    ensures var r := FolderEffect(env, files, folder, listing);
            forall p :: p !in ListingPaths(folder, listing) ==> Same(files, r.files, p)
    ensures Within(FolderEffect(env, files, folder, listing).lines, ListingPaths(folder, listing), |folder|)
    decreases listing
  {
    if listing.Listed? {
      var r := ItemsEffect(env, files, folder, listing.items);
      var tail := if r.threw then [FolderError(folder)] else [];
      ItemsFacts(env, files, folder, listing.items);
      WithinWeaken(r.lines, ItemsPaths(folder, listing.items), ItemsPaths(folder, listing.items), |folder| + 1, |folder|);
      assert Within(tail, {}, |folder|);
      WithinAppend(r.lines, tail, ItemsPaths(folder, listing.items), {}, |folder|);
      assert ItemsPaths(folder, listing.items) + {} == ListingPaths(folder, listing);
    }
  }

  /** Only scanned files can change: a walk leaves every other path as it
      was. */
  lemma OnlyScannedFilesChange(env: Env, files: map<string, string>, folder: string, listing: Listing)
    ensures forall p :: p !in ListingPaths(folder, listing) ==>
              Same(files, FolderEffect(env, files, folder, listing).files, p)
  {
    FolderFacts(env, files, folder, listing);
  }

  /** Entries other than scanned files and folders add no line: every line of
      a walk is a folder line or about a scanned file. */
  lemma OnlyScannedFilesReport(env: Env, files: map<string, string>, folder: string, listing: Listing)
    ensures var r := FolderEffect(env, files, folder, listing);
            forall k :: 0 <= k < |r.lines| ==>
              r.lines[k].FolderError? || r.lines[k].path in ListingPaths(folder, listing)
  {
    FolderFacts(env, files, folder, listing);
  }

  /** The folder gets exactly one "Could not scan folder" line when it cannot
      be listed or one of its own files threw, and none otherwise; a throw in a
      subfolder is reported for that subfolder only. */
  lemma ThrowReportedOnce(env: Env, files: map<string, string>, folder: string, listing: Listing)
    ensures multiset(FolderEffect(env, files, folder, listing).lines)[FolderError(folder)]
            == if listing.Unlistable? || ItemsEffect(env, files, folder, listing.items).threw then 1 else 0
  {
    if listing.Listed? {
      var r := ItemsEffect(env, files, folder, listing.items);
      ItemsFacts(env, files, folder, listing.items);
      assert FolderError(folder) !in r.lines;
      assert multiset(r.lines)[FolderError(folder)] == 0;
    }
  }

  /** Neither transform ever throws. */
  ghost predicate NeverThrows(env: Env)
  {
    forall s :: env.js(s).Fixed? && env.css(s).Fixed?
  }

  /** Scanned files plus folders that cannot be listed. */
  function ItemCount(item: Item): nat
    decreases item
  {
    match item
    case DirItem(_, sub) => ListingCount(sub)
    case FileItem(name) => if Scans(name) then 1 else 0
    case OtherItem(_) => 0
  }

  function ItemsCount(items: seq<Item>): nat
    decreases items
  {
    if items == [] then 0 else ItemCount(items[0]) + ItemsCount(items[1..])
  }

  function ListingCount(listing: Listing): nat
    decreases listing
  {
    match listing
    case Unlistable => 1
    case Listed(items) => ItemsCount(items)
  }

  /** When no transform throws, a walk reports exactly one line per scanned
      file, plus one per folder that cannot be listed. */
  lemma {:induction false} ItemLineCount(env: Env, files: map<string, string>, folder: string, item: Item)
    requires NeverThrows(env)
    ensures var r := ItemEffect(env, files, folder, item);
            |r.lines| == ItemCount(item) && !r.threw
    decreases item
  {
    match item
    case DirItem(name, sub) => FolderLineCount(env, files, PathJoin(folder, name), sub);
    case FileItem(name) => FileLines(env, files, PathJoin(folder, name));
    case OtherItem(_) =>
  }

  lemma {:induction false} ItemsLineCount(env: Env, files: map<string, string>, folder: string, items: seq<Item>)
    requires NeverThrows(env)
    ensures var r := ItemsEffect(env, files, folder, items);
            |r.lines| == ItemsCount(items) && !r.threw
    decreases items
  {
    if items != [] {
      var a := ItemEffect(env, files, folder, items[0]);
      ItemLineCount(env, files, folder, items[0]);
      ItemsLineCount(env, a.files, folder, items[1..]);
    }
  }

  lemma {:induction false} FolderLineCount(env: Env, files: map<string, string>, folder: string, listing: Listing)
    requires NeverThrows(env)
    ensures |FolderEffect(env, files, folder, listing).lines| == ListingCount(listing)
    decreases listing
  {
    if listing.Listed? {
      ItemsLineCount(env, files, folder, listing.items);
    }
  }

  // ------------------------------------------------ the command line

  /** The chosen folder is the first argument not starting with `--`; there is
      none exactly when every argument is a flag. */
  lemma {:induction false} FirstFolderSpec(args: seq<string>)
    ensures FirstFolder(args).None? <==> forall k :: 0 <= k < |args| ==> StartsWith(args[k], "--")
    ensures FirstFolder(args).Some? ==>
              exists k :: 0 <= k < |args| && args[k] == FirstFolder(args).value
                          && !StartsWith(args[k], "--")
                          && forall j :: 0 <= j < k ==> StartsWith(args[j], "--")
  {
    if args != [] && StartsWith(args[0], "--") {
      var rest := args[1..];
      FirstFolderSpec(rest);
      assert forall k :: 0 < k < |args| ==> args[k] == rest[k - 1];
      if FirstFolder(rest).Some? {
        var k :| 0 <= k < |rest| && rest[k] == FirstFolder(rest).value
                 && !StartsWith(rest[k], "--")
                 && forall j :: 0 <= j < k ==> StartsWith(rest[j], "--");
        assert args[k + 1] == rest[k];
      }
    } else if args != [] {
      assert args[0] == FirstFolder(args).value;
    }
  }

  /** A rendered line holds a newline only where its path does. */
  lemma RenderNoNewline(l: Line)
    requires '\n' !in l.path
    ensures '\n' !in Render(l)
  {
    var r := Render(l);
    assert OneLine(Label(l));
    forall i | 0 <= i < |r| ensures r[i] != '\n' {
      if i >= |Label(l)| {
        assert r[i] == l.path[i - |Label(l)|];
      }
    }
  }

  /** The Markdown report splits back, at newlines, into one `- ` item per
      report line, when no path holds a newline. */
  lemma MarkdownLines(lines: seq<Line>)
    requires lines != []
    requires forall k :: 0 <= k < |lines| ==> '\n' !in lines[k].path
    ensures Split(Markdown(lines), '\n') == Bullets(lines)
  {
    forall k | 0 <= k < |lines| ensures '\n' !in Bullets(lines)[k] {
      RenderNoNewline(lines[k]);
    }
    SplitJoin(Bullets(lines), '\n');
  }

  lemma MarkdownEmpty()
    ensures Markdown([]) == []
  {
  }

  /** One step of the walk over a listing's entries. */
  lemma ItemsStep(env: Env, files: map<string, string>, folder: string, items: seq<Item>, i: nat)
    requires i < |items|
    ensures var step := ItemEffect(env, files, folder, items[i]);
            var rest := ItemsEffect(env, step.files, folder, items[i + 1..]);
            ItemsEffect(env, files, folder, items[i..])
            == Effect(rest.files, step.lines + rest.lines, step.threw || rest.threw)
  {
    assert items[i..][0] == items[i] && items[i..][1..] == items[i + 1..];
  }

  // ------------------------------------------------ the scanner

  class Workspace {
    /** The text of every file on the disk, by path. */
    var files: map<string, string>
    /** The report lines so far, in order. */
    var report: seq<Line>
    const env: Env

    constructor (env: Env, files: map<string, string>)
      ensures this.env == env && this.files == files && report == []
    {
      this.env := env;
      this.files := files;
      report := [];
    }

    /** `scanFile(path, report)`; `threw` when the transform threw, which the
        source leaves to its caller. */
    method ScanFile(path: string) returns (threw: bool)
      modifies this
      ensures var r := FileEffect(env, old(files), path);
              files == r.files && report == old(report) + r.lines && threw == r.threw
    {
      if path !in files || path in env.unreadable {
        report := report + [ReadError(path)];
        return false;
      }
      var original := files[path];
      var picked := TransformFor(env, ExtName(path));
      if picked.None? {
        report := report + [NoChanges(path)];
        return false;
      }
      var (kind, transform) := picked.value;
      var outcome := transform(original);
      assert FileEffect(env, files, path) == Recorded(env, files, path, kind, outcome);
      match outcome {
        case Threw =>
          return true;
        case Fixed(code) =>
          if code == original {
            report := report + [NoChanges(path)];
          } else if path in env.unwritable {
            report := report + [WriteError(path)];
          } else {
            files := files[path := code];
            report := report + [Applied(kind, path)];
          }
          return false;
      }
    }

    /** What the walk does with one entry; `threw` when a scanned file's
        transform threw. */
    method ScanItem(folder: string, item: Item) returns (threw: bool)
      modifies this
      ensures var r := ItemEffect(env, old(files), folder, item);
              files == r.files && report == old(report) + r.lines && threw == r.threw
      decreases item, 1
    {
      threw := false;
      match item {
        case DirItem(name, sub) =>
          ScanFolder(PathJoin(folder, name), sub);
        case FileItem(name) =>
          if Scans(name) {
            threw := ScanFile(PathJoin(folder, name));
          }
        case OtherItem(_) =>
      }
    }

    /** `scanFolder(folder, report)` over the folder's listing. */
    method ScanFolder(folder: string, listing: Listing)
      modifies this
      ensures var r := FolderEffect(env, old(files), folder, listing);
              files == r.files && report == old(report) + r.lines
      decreases listing, 0
    {
      if listing.Unlistable? {
        report := report + [FolderError(folder)];
        return;
      }
      var items := listing.items;
      var threw := false;
      ghost var done: seq<Line> := [];
      var i := 0;
      while i < |items|
        invariant 0 <= i <= |items|
        invariant report == old(report) + done
        invariant var total := ItemsEffect(env, old(files), folder, items);
                  var rest := ItemsEffect(env, files, folder, items[i..]);
                  total.files == rest.files && total.lines == done + rest.lines
                  && total.threw == (threw || rest.threw)
      {
        ghost var step := ItemEffect(env, files, folder, items[i]);
        ghost var rest := ItemsEffect(env, step.files, folder, items[i + 1..]);
        ItemsStep(env, files, folder, items, i);
        var t := ScanItem(folder, items[i]);
        assert files == step.files && report == old(report) + done + step.lines;
        threw := threw || t;
        AppendAssoc(done, step.lines, rest.lines);
        AppendAssoc(old(report), done, step.lines);
        done := done + step.lines;
        i := i + 1;
      }
      if threw {
        report := report + [FolderError(folder)];
      }
    }

    /** `runScanner(args)`: scans the chosen folder and, with `--report`,
        writes the Markdown report. */
    method RunScanner(args: seq<string>)
      modifies this
      ensures !HasFolder(args) ==> files == old(files) && report == []
      ensures HasFolder(args) ==>
                var folder := FirstFolder(args).value;
                var r := FolderEffect(env, old(files), folder, ListingOf(env, folder));
                report == r.lines
                && files == if "--report" in args && ReportPath !in env.unwritable
                            then r.files[ReportPath := Markdown(r.lines)] else r.files
    {
      var folder := FirstFolder(args);
      var reportFlag := "--report" in args;
      report := [];
      if folder.None? || folder.value == "" {
        return;
      }
      ScanFolder(folder.value, ListingOf(env, folder.value));
      if reportFlag {
        var md := Markdown(report);
        if ReportPath !in env.unwritable {
          files := files[ReportPath := md];
        }
      }
    }
  }
}
