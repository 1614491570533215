/** The repository tree printer: which names it skips, the icon it shows for
    a file extension, the lines it prints for a directory tree, and the
    file and directory counts it reports. The directory is given as a value;
    a line is printed without its terminating newline. */
module ProjectTree {
  import opened Base
  import Sorting

  /** A directory entry as listed by `readdirSync` and classified by `statSync`. */
  datatype Entry = File(name: string) | Dir(name: string, children: seq<Entry>)

  // ---------------------------------------------------------------------------
  // Ignored names

  /** An ignore pattern: a literal name, or `*.<tail>`, which becomes the
      regular expression `.*.<tail>` (the `*` turned into `.*`). */
  datatype Pattern = Exact(text: string) | StarDot(tail: string)

  /** `IGNORE_PATTERNS`, in order. */
  const IgnorePatterns: seq<Pattern> := [
    Exact("node_modules"), Exact(".next"), Exact(".turbo"), Exact("dist"), Exact("build"),
    Exact(".git"), Exact(".DS_Store"), StarDot("log"), Exact(".env"), Exact(".env.local"),
    Exact("coverage"), Exact(".cache"), Exact("pnpm-lock.yaml"), Exact("package-lock.json"),
    Exact("yarn.lock")]

  /** The characters the regular-expression `.` does not match. */
  predicate IsLineTerminator(c: char) {
    c == '\n' || c == '\r' || c == '\U{2028}' || c == '\U{2029}'
  }

  /** The unanchored `.*.<tail>` finds `tail` after at least one character
      that is not a line terminator (`.*` may match nothing). */
  predicate StarDotMatches(tail: string, name: string) {
    exists j :: 1 <= j <= |name| && TailAt(tail, name, j)
  }

  /** `tail` occurs at position `j`, after a character `.` matches. */
  predicate TailAt(tail: string, name: string, j: int) {
    1 <= j && j + |tail| <= |name| && name[j..j + |tail|] == tail && !IsLineTerminator(name[j - 1])
  }

  predicate PatternMatches(p: Pattern, name: string) {
    match p
    case Exact(text) => name == text
    case StarDot(tail) => StarDotMatches(tail, name)
  }

  predicate IsHidden(name: string) {
    |name| > 0 && name[0] == '.'
  }

  /** `shouldIgnore`: hidden names except `.gitignore` and `.env.example`,
      and the names some ignore pattern matches. */
  function ShouldIgnore(name: string): (b: bool)
    ensures IsHidden(name) && name != ".gitignore" && name != ".env.example" ==> b
    ensures b <==> (IsHidden(name) && name != ".gitignore" && name != ".env.example")
                   || (exists k :: 0 <= k < |IgnorePatterns| && PatternMatches(IgnorePatterns[k], name))
  {
    if IsHidden(name) && name != ".gitignore" && name != ".env.example" then true
    else exists k :: 0 <= k < |IgnorePatterns| && PatternMatches(IgnorePatterns[k], name)
  }

  /** `*.log` matches any name with `log` after its first character. */
  lemma LogPatternIsUnanchored()
    ensures ShouldIgnore("catalog") && ShouldIgnore("app.log")
  {
    assert "catalog"[4..7] == "log";
    assert TailAt("log", "catalog", 4);
    assert "app.log"[4..7] == "log";
    assert TailAt("log", "app.log", 4);
    assert IgnorePatterns[7] == StarDot("log");
  }

  /** A literal pattern needs the whole name: `node_modules` is skipped,
      `node_modules2` is not. */
  lemma LiteralPatternIsExact()
    ensures ShouldIgnore("node_modules")
    ensures !ShouldIgnore("node_modules2")
  {
    assert IgnorePatterns[0] == Exact("node_modules");
    var n := "node_modules2";
    forall k | 0 <= k < |IgnorePatterns|
      ensures !PatternMatches(IgnorePatterns[k], n)
    {
      if k == 7 {
        NoLogIn(n);
      } else {
        ExactPatternsAreNotThirteenLong(k);
      }
    }
  }

  lemma ExactPatternsAreNotThirteenLong(k: int)
    requires 0 <= k < |IgnorePatterns| && k != 7
    ensures IgnorePatterns[k].Exact? && |IgnorePatterns[k].text| != 13
  {
  }

  lemma NoLogIn(n: string)
    requires n == "node_modules2"
    ensures !StarDotMatches("log", n)
  {
    forall j | 1 <= j && j + 3 <= |n|
      ensures !TailAt("log", n, j)
    {
      assert n[j..j + 3][0] == n[j];
      assert n[j..j + 3][1] == n[j + 1];
      assert n[j] != 'l' || n[j + 1] != 'o';
    }
  }

  /** Hidden names are skipped, except `.gitignore` and `.env.example`. */
  lemma HiddenNames()
    ensures ShouldIgnore(".vscode")
  {
  }

  lemma GitignoreIsListed()
    ensures !ShouldIgnore(".gitignore")
  {
    var g := ".gitignore";
    assert !StarDotMatches("log", g) by {
      forall j | 1 <= j && j + 3 <= |g|
        ensures !TailAt("log", g, j)
      {
        assert g[j..j + 3][0] == g[j];
        assert g[j] != 'l';
      }
    }
  }

  lemma EnvExampleIsListed()
    ensures !ShouldIgnore(".env.example")
  {
    var x := ".env.example";
    assert !StarDotMatches("log", x) by {
      forall j | 1 <= j && j + 3 <= |x|
        ensures !TailAt("log", x, j)
      {
        assert x[j..j + 3][0] == x[j];
        assert x[j] != 'l';
      }
    }
  }

  // ---------------------------------------------------------------------------
  // Icons

  /** The last dot of `name`, if any. */
  function LastDot(name: string): (r: Option<nat>)
    ensures r.Some? ==> r.value < |name| && name[r.value] == '.'
                        && forall i :: r.value < i < |name| ==> name[i] != '.'
    ensures r.None? ==> forall i :: 0 <= i < |name| ==> name[i] != '.'
    decreases |name|
  {
    if |name| == 0 then None
    else if name[|name| - 1] == '.' then Some(|name| - 1)
    else LastDot(name[..|name| - 1])
  }

  /** A dot with no dot after it is the last one. */
  lemma LastDotAt(name: string, d: nat)
    requires d < |name| && name[d] == '.'
    requires forall i :: d < i < |name| ==> name[i] != '.'
    ensures LastDot(name) == Some(d)
  {
  }

  /** `path.extname` of a bare name: from the last dot to the end, except
      that a name without a dot, a name whose only leading dot is its last
      one, and `..` have none. */
  function ExtName(name: string): (ext: string)
    ensures ext == "" <==> (forall i :: 0 < i < |name| ==> name[i] != '.') || name == ".."
    ensures ext != "" ==> |ext| < |name| && ext == name[|name| - |ext|..]
    ensures ext != "" ==> ext[0] == '.' && '.' !in ext[1..]
  {
    match LastDot(name)
    case None => ""
    case Some(d) =>
      if d == 0 || name == ".." then ""
      else
        var ext := name[d..];
        assert name[d] == '.';
        assert forall j :: 0 <= j < |ext| - 1 ==> ext[1..][j] == name[d + 1 + j];
        ext
  }

  const FolderIcon := "\U{1F4C1}"
  const DefaultIcon := "\U{1F4C4}"

  /** The icon table of `getFileIcon`. */
  const Icons: map<string, string> := map[
    ".ts" := "\U{1F537}", ".tsx" := "\U{269B}\U{FE0F}", ".js" := "\U{1F4DC}", ".jsx" := "\U{269B}\U{FE0F}",
    ".json" := "\U{1F4CB}", ".md" := "\U{1F4DD}", ".css" := "\U{1F3A8}", ".scss" := "\U{1F3A8}",
    ".html" := "\U{1F310}", ".yml" := "\U{2699}\U{FE0F}", ".yaml" := "\U{2699}\U{FE0F}",
    ".env" := "\U{1F510}", ".svg" := "\U{1F5BC}\U{FE0F}", ".png" := "\U{1F5BC}\U{FE0F}",
    ".jpg" := "\U{1F5BC}\U{FE0F}", ".jpeg" := "\U{1F5BC}\U{FE0F}", ".gif" := "\U{1F5BC}\U{FE0F}",
    ".ico" := "\U{1F5BC}\U{FE0F}"]

  /** `getFileIcon`: the table's icon, or the page icon for any other extension. */
  function GetFileIcon(ext: string): (icon: string)
    ensures ext !in Icons ==> icon == DefaultIcon
    ensures ext in Icons ==> icon == Icons[ext]
    ensures icon != ""
  {
    if ext in Icons then Icons[ext] else DefaultIcon
  }

  /** Files with a dotted name get the icon of their last extension. */
  lemma IconExamples()
    ensures GetFileIcon(ExtName("route.ts")) == "\U{1F537}"
    ensures GetFileIcon(ExtName("README")) == DefaultIcon
    ensures GetFileIcon(ExtName("archive.tar.gz")) == DefaultIcon
    ensures GetFileIcon(ExtName(".gitignore")) == DefaultIcon
  {
    LastDotAt("route.ts", 5);
    assert "route.ts"[5..] == ".ts";
    LastDotAt("archive.tar.gz", 11);
    assert "archive.tar.gz"[11..] == ".gz";
    assert forall i :: 1 <= i < 10 ==> ".gitignore"[i] != '.';
    assert LastDot("README") == None;
  }

  // ---------------------------------------------------------------------------
  // Printed lines

  function Connector(isLast: bool): string {
    if isLast then "\U{2514}\U{2500}\U{2500} " else "\U{251C}\U{2500}\U{2500} "
  }

  /** What follows the connector: the folder icon and `name/`, or the file's icon and name. */
  function Label(e: Entry): string {
    if e.Dir? then FolderIcon + " " + e.name + "/" else GetFileIcon(ExtName(e.name)) + " " + e.name
  }

  /** The line printed for an entry: prefix, connector, icon and name. */
  function Line(prefix: string, isLast: bool, e: Entry): (line: string)
    ensures StartsWith(line, prefix)
    ensures |line| >= |prefix| + 4
    ensures line[|prefix|..|prefix| + 4] == (if isLast then "\U{2514}\U{2500}\U{2500} " else "\U{251C}\U{2500}\U{2500} ")
    ensures e.Dir? ==> line[|prefix| + 4..] == FolderIcon + " " + e.name + "/"
    ensures e.File? ==> line[|prefix| + 4..] == GetFileIcon(ExtName(e.name)) + " " + e.name
  {
    var line := prefix + Connector(isLast) + Label(e);
    assert line[..|prefix|] == prefix;
    assert line[|prefix|..|prefix| + 4] == Connector(isLast);
    assert line[|prefix| + 4..] == Label(e);
    line
  }

  /** The prefix handed to the children of an entry: the parent's, then a
      blank column under a closing connector or a bar under any other. */
  function ChildPrefix(prefix: string, isLast: bool): (r: string)
    ensures |r| == |prefix| + 4 && r[..|prefix|] == prefix
    ensures r[|prefix|..] == (if isLast then "    " else "\U{2502}   ")
  {
    prefix + (if isLast then "    " else "\U{2502}   ")
  }

  /** A shown directory with two listed children prints its own line, then
      the first child's lines with the open connector and the second's with
      the closing one. */
  lemma TwoListedLines(e: Entry, prefix: string, isLast: bool, depth: nat, maxDepth: int,
                       le: (string, string) -> bool)
    requires e.Dir? && depth <= maxDepth && !ShouldIgnore(e.name)
    requires |Listing(e.children, le)| == 2
    ensures var items, cp := Listing(e.children, le), ChildPrefix(prefix, isLast);
            GenerateTree(e, prefix, isLast, depth, maxDepth, le)
              == [Line(prefix, isLast, e)] + GenerateTree(items[0], cp, false, depth + 1, maxDepth, le)
                 + GenerateTree(items[1], cp, true, depth + 1, maxDepth, le)
  {
    var items, cp := Listing(e.children, le), ChildPrefix(prefix, isLast);
    assert GenerateItems(e, items, 2, cp, depth + 1, maxDepth, le) == [];
    assert GenerateItems(e, items, 0, cp, depth + 1, maxDepth, le)
        == GenerateTree(items[0], cp, false, depth + 1, maxDepth, le)
           + (GenerateTree(items[1], cp, true, depth + 1, maxDepth, le) + []);
  }

  /** Directories before files; otherwise the name order `le` (`localeCompare`). */
  predicate Before(le: (string, string) -> bool, a: Entry, b: Entry) {
    if a.Dir? && !b.Dir? then true
    else if !a.Dir? && b.Dir? then false
    else le(a.name, b.name)
  }

  function BeforeBy(le: (string, string) -> bool): (Entry, Entry) -> bool {
    (a: Entry, b: Entry) => Before(le, a, b)
  }

  predicate Visible(e: Entry) {
    !ShouldIgnore(e.name)
  }

  /** The entries not ignored, in listing order. */
  function VisibleOf(cs: seq<Entry>): (r: seq<Entry>)
    ensures forall c :: c in r <==> c in cs && Visible(c)
    ensures forall i :: 0 <= i < |r| ==> Visible(r[i])
  {
    Filter(cs, Visible)
  }

  /** The children a directory's listing prints, in printing order. */
  function Listing(children: seq<Entry>, le: (string, string) -> bool): (r: seq<Entry>)
    ensures forall c :: c in r ==> c in children && Visible(c)
    ensures multiset(r) == multiset(VisibleOf(children))
  {
    var visible := VisibleOf(children);
    var r := Sorting.SortBy(visible, BeforeBy(le));
    assert forall c :: c in r ==> c in multiset(visible);
    r
  }

  /** `generateTree`: nothing past the depth limit or for an ignored entry;
      otherwise the entry's own line, then, for a directory, the lines of its
      listed children, the last of which is drawn with the closing connector. */
  function GenerateTree(e: Entry, prefix: string, isLast: bool, depth: nat, maxDepth: int,
                        le: (string, string) -> bool): (lines: seq<string>)
    ensures depth > maxDepth || ShouldIgnore(e.name) ==> lines == []
    ensures depth <= maxDepth && !ShouldIgnore(e.name) ==>
              |lines| >= 1 && lines[0] == Line(prefix, isLast, e)
    ensures e.File? && depth <= maxDepth && !ShouldIgnore(e.name) ==> |lines| == 1
    decreases e, 1
  {
    if depth > maxDepth then []
    else if ShouldIgnore(e.name) then []
    else
      var line := Line(prefix, isLast, e);
      if e.File? then [line]
      else [line] + GenerateItems(e, Listing(e.children, le), 0, ChildPrefix(prefix, isLast), depth + 1, maxDepth, le)
  }

  /** The lines of `items[i..]`, all printed with the children's prefix. */
  function GenerateItems(parent: Entry, items: seq<Entry>, i: nat, prefix: string, depth: nat, maxDepth: int,
                         le: (string, string) -> bool): seq<string>
    requires parent.Dir? && forall c :: c in items ==> c in parent.children
    requires i <= |items|
    decreases parent, 0, |items| - i
  {
    if i == |items| then []
    else
      assert items[i] in items;
      GenerateTree(items[i], prefix, i == |items| - 1, depth, maxDepth, le)
         + GenerateItems(parent, items, i + 1, prefix, depth, maxDepth, le)
  }

  predicate StartsWith(s: string, p: string) {
    |p| <= |s| && s[..|p|] == p
  }

  lemma FileKeepsPrefix(e: Entry, prefix: string, isLast: bool, depth: nat, maxDepth: int,
                        le: (string, string) -> bool)
    requires e.File?
    ensures AllStartWith(GenerateTree(e, prefix, isLast, depth, maxDepth, le), prefix)
  {
    var lines := GenerateTree(e, prefix, isLast, depth, maxDepth, le);
    if |lines| > 0 {
      assert lines == [Line(prefix, isLast, e)];
    }
  }

  predicate AllStartWith(lines: seq<string>, p: string) {
    forall k :: 0 <= k < |lines| ==> StartsWith(lines[k], p)
  }

  lemma AllStartWithShorter(lines: seq<string>, longer: string, p: string)
    requires AllStartWith(lines, longer) && StartsWith(longer, p)
    ensures AllStartWith(lines, p)
  {
    forall k | 0 <= k < |lines|
      ensures StartsWith(lines[k], p)
    {
      assert lines[k][..|p|] == longer[..|p|];
    }
  }

  lemma AllStartWithConcat(a: seq<string>, b: seq<string>, p: string)
    requires AllStartWith(a, p) && AllStartWith(b, p)
    ensures AllStartWith(a + b, p)
  {
    forall k | 0 <= k < |a + b|
      ensures StartsWith((a + b)[k], p)
    {
      if k >= |a| {
        assert (a + b)[k] == b[k - |a|];
      }
    }
  }

  /** Every printed line starts with the prefix the entry was given. */
  lemma {:induction false} LinesKeepPrefix(e: Entry, prefix: string, isLast: bool, depth: nat, maxDepth: int,
                                           le: (string, string) -> bool)
    ensures AllStartWith(GenerateTree(e, prefix, isLast, depth, maxDepth, le), prefix)
    decreases e, 1
  {
    if depth <= maxDepth && !ShouldIgnore(e.name) {
      var line := Line(prefix, isLast, e);
      if e.Dir? {
        var cp := ChildPrefix(prefix, isLast);
        var items := Listing(e.children, le);
        var rest := GenerateItems(e, items, 0, cp, depth + 1, maxDepth, le);
        ItemsKeepPrefix(e, items, 0, cp, depth + 1, maxDepth, le);
        AllStartWithShorter(rest, cp, prefix);
        AllStartWithConcat([line], rest, prefix);
        assert GenerateTree(e, prefix, isLast, depth, maxDepth, le) == [line] + rest;
      } else {
        FileKeepsPrefix(e, prefix, isLast, depth, maxDepth, le);
      }
    }
  }

  lemma {:induction false} ItemsKeepPrefix(parent: Entry, items: seq<Entry>, i: nat, prefix: string, depth: nat,
                                           maxDepth: int, le: (string, string) -> bool)
    requires parent.Dir? && forall c :: c in items ==> c in parent.children
    requires i <= |items|
    ensures AllStartWith(GenerateItems(parent, items, i, prefix, depth, maxDepth, le), prefix)
    decreases parent, 0, |items| - i
  {
    if i < |items| {
      assert items[i] in items;
      var here := GenerateTree(items[i], prefix, i == |items| - 1, depth, maxDepth, le);
      var rest := GenerateItems(parent, items, i + 1, prefix, depth, maxDepth, le);
      LinesKeepPrefix(items[i], prefix, i == |items| - 1, depth, maxDepth, le);
      ItemsKeepPrefix(parent, items, i + 1, prefix, depth, maxDepth, le);
      AllStartWithConcat(here, rest, prefix);
    }
  }

  /** Under a total order on names, every listed directory precedes every
      listed file. */
  lemma DirectoriesFirst(children: seq<Entry>, le: (string, string) -> bool)
    requires Sorting.Total(le) && Sorting.Transitive(le)
    ensures var r := Listing(children, le);
            forall i, j :: 0 <= i < j < |r| && r[j].Dir? ==> r[i].Dir?
    ensures var r := Listing(children, le);
            forall i, j :: 0 <= i < j < |r| && r[i].Dir? == r[j].Dir? ==> le(r[i].name, r[j].name)
  {
    var lt := BeforeBy(le);
    assert Sorting.Total(lt);
    assert Sorting.Transitive(lt) by {
      forall a: Entry, b: Entry, c: Entry | lt(a, b) && lt(b, c)
        ensures lt(a, c)
      {
      }
    }
    Sorting.SortBySorted(VisibleOf(children), lt);
  }

  // ---------------------------------------------------------------------------
  // Counts

  datatype Stats = Stats(files: nat, dirs: nat)

  /** `countItems` over a directory's entries: every entry that is not
      ignored, at any depth. */
  function CountItems(items: seq<Entry>): (s: Stats)
    decreases items
  {
    if |items| == 0 then Stats(0, 0)
    else
      var rest := CountItems(items[1..]);
      var e := items[0];
      if ShouldIgnore(e.name) then rest
      else if e.Dir? then
        var inner := CountItems(e.children);
        Stats(rest.files + inner.files, rest.dirs + 1 + inner.dirs)
      else Stats(rest.files + 1, rest.dirs)
  }

  /** The files in a visible entry's subtree, the entry included: a
      definition independent of `countItems`, over the listed children. */
  function TreeFiles(e: Entry): nat
    decreases e, 1
  {
    if e.File? then 1 else FilesAmong(e, VisibleOf(e.children))
  }

  function FilesAmong(parent: Entry, items: seq<Entry>): nat
    requires parent.Dir? && forall c :: c in items ==> c in parent.children
    decreases parent, 0, |items|
  {
    if |items| == 0 then 0
    else
      assert items[0] in items;
      TreeFiles(items[0]) + FilesAmong(parent, items[1..])
  }

  /** The directories in a visible entry's subtree, the entry included. */
  function TreeDirs(e: Entry): nat
    decreases e, 1
  {
    if e.File? then 0 else 1 + DirsAmong(e, VisibleOf(e.children))
  }

  function DirsAmong(parent: Entry, items: seq<Entry>): nat
    requires parent.Dir? && forall c :: c in items ==> c in parent.children
    decreases parent, 0, |items|
  {
    if |items| == 0 then 0
    else
      assert items[0] in items;
      TreeDirs(items[0]) + DirsAmong(parent, items[1..])
  }

  /** `countItems(dir)` reports, separately, the files and the directories
      of the visible tree below `dir`, at any depth, `dir` itself excluded. */
  lemma CountItemsOfDir(e: Entry)
    requires e.Dir?
    ensures CountItems(e.children).files == TreeFiles(e)
    ensures CountItems(e.children).dirs + 1 == TreeDirs(e)
  {
    CountSplits(e, e.children);
  }

  lemma {:induction false} CountSplits(parent: Entry, items: seq<Entry>)
    requires parent.Dir? && forall c :: c in items ==> c in parent.children
    ensures CountItems(items) == Stats(FilesAmong(parent, VisibleOf(items)), DirsAmong(parent, VisibleOf(items)))
    decreases parent, |items|
  {
    if |items| > 0 {
      var x := items[0];
      var v := VisibleOf(items[1..]);
      CountSplits(parent, items[1..]);
      if Visible(x) {
        assert VisibleOf(items) == [x] + v;
        assert ([x] + v)[1..] == v;
        if x.Dir? {
          assert x in items;
          CountSplits(x, x.children);
        }
      } else {
        assert VisibleOf(items) == v;
      }
    }
  }

  /** How many lines a visible entry prints when no depth limit cuts it. */
  function Weight(e: Entry): nat {
    if e.Dir? then 1 + CountItems(e.children).files + CountItems(e.children).dirs else 1
  }

  function SumWeights(items: seq<Entry>): nat
    decreases |items|
  {
    if |items| == 0 then 0 else Weight(items[0]) + SumWeights(items[1..])
  }

  lemma {:induction false} CountIsVisibleWeight(items: seq<Entry>)
    ensures CountItems(items).files + CountItems(items).dirs == SumWeights(VisibleOf(items))
    decreases |items|
  {
    if |items| > 0 {
      CountIsVisibleWeight(items[1..]);
      var v := VisibleOf(items[1..]);
      if Visible(items[0]) {
        assert VisibleOf(items) == [items[0]] + v;
        assert ([items[0]] + v)[1..] == v;
      } else {
        assert VisibleOf(items) == v;
      }
    }
  }

  lemma {:induction false} InsertKeepsWeight(x: Entry, t: seq<Entry>, lt: (Entry, Entry) -> bool)
    ensures SumWeights(Sorting.Insert(x, t, lt)) == Weight(x) + SumWeights(t)
    decreases |t|
  {
    if |t| == 0 || lt(x, t[0]) {
      assert ([x] + t)[1..] == t;
    } else {
      InsertKeepsWeight(x, t[1..], lt);
      var r := Sorting.Insert(x, t[1..], lt);
      assert ([t[0]] + r)[1..] == r;
    }
  }

  lemma {:induction false} SortKeepsWeight(s: seq<Entry>, lt: (Entry, Entry) -> bool)
    ensures SumWeights(Sorting.SortBy(s, lt)) == SumWeights(s)
    decreases |s|
  {
    if |s| > 0 {
      SortKeepsWeight(s[1..], lt);
      InsertKeepsWeight(s[0], Sorting.SortBy(s[1..], lt), lt);
    }
  }

  /** Height of a tree: files are leaves. */
  function Height(e: Entry): nat
    decreases e
  {
    if e.File? then 0
    else 1 + Max(seq(|e.children|, i requires 0 <= i < |e.children| => Height(e.children[i])))
  }

  function Max(hs: seq<nat>): (m: nat)
    ensures forall i :: 0 <= i < |hs| ==> hs[i] <= m
    decreases |hs|
  {
    if |hs| == 0 then 0 else var rest := Max(hs[1..]); if hs[0] < rest then rest else hs[0]
  }

  lemma ChildIsLower(parent: Entry, c: Entry)
    requires parent.Dir? && c in parent.children
    ensures Height(c) < Height(parent)
  {
    var k :| 0 <= k < |parent.children| && parent.children[k] == c;
    var hs := seq(|parent.children|, i requires 0 <= i < |parent.children| => Height(parent.children[i]));
    assert hs[k] == Height(c);
  }

  /** When the depth limit is never reached, a visible entry prints one line
      per entry `countItems` counts below it, plus its own line. */
  lemma {:induction false} LinesMatchCount(e: Entry, prefix: string, isLast: bool, depth: nat, maxDepth: int,
                                           le: (string, string) -> bool)
    requires !ShouldIgnore(e.name) && depth + Height(e) <= maxDepth
    ensures |GenerateTree(e, prefix, isLast, depth, maxDepth, le)| == Weight(e)
    decreases e, 1
  {
    if e.Dir? {
      var items := Listing(e.children, le);
      var cp := ChildPrefix(prefix, isLast);
      ItemLinesMatchCount(e, items, 0, cp, depth + 1, maxDepth, le);
      SortKeepsWeight(VisibleOf(e.children), BeforeBy(le));
      CountIsVisibleWeight(e.children);
      assert items[0..] == items;
    }
  }

  lemma {:induction false} ItemLinesMatchCount(parent: Entry, items: seq<Entry>, i: nat, prefix: string, depth: nat,
                                               maxDepth: int, le: (string, string) -> bool)
    requires parent.Dir? && forall c :: c in items ==> c in parent.children && Visible(c)
    requires i <= |items|
    requires depth + Height(parent) <= maxDepth + 1
    ensures |GenerateItems(parent, items, i, prefix, depth, maxDepth, le)| == SumWeights(items[i..])
    decreases parent, 0, |items| - i
  {
    if i < |items| {
      var c := items[i];
      assert c in items;
      ChildIsLower(parent, c);
      LinesMatchCount(c, prefix, i == |items| - 1, depth, maxDepth, le);
      ItemLinesMatchCount(parent, items, i + 1, prefix, depth, maxDepth, le);
      assert GenerateItems(parent, items, i, prefix, depth, maxDepth, le)
          == GenerateTree(c, prefix, i == |items| - 1, depth, maxDepth, le)
             + GenerateItems(parent, items, i + 1, prefix, depth, maxDepth, le);
      assert items[i..][0] == c && items[i..][1..] == items[i + 1..];
    }
  }
}
