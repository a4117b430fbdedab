/**
 * The listing itself (`display.rs`): one line per entry in the short or the
 * long format, the `total` line, and the tree view with its connectors. The
 * file system is an input: a `Node` carries what the source reads from it for
 * one path.
 */
module Listing {
  import opened Wrappers
  import opened Text
  import opened Paths
  import opened FileInfo
  import opened Styling
  import opened Configuration
  import opened Git
  import opened Icons
  import opened Entries
  import opened Formatting

  /** `DisplayOptions` (its `tree_view` flag is not read by the listing). */
  datatype Options = Options(
    showAll: bool,
    longFormat: bool,
    showIcons: bool,
    humanReadable: bool,
    showGit: bool)

  /** One path and everything the listing reads about it. */
  datatype Node = Node(
    name: Option<string>,                // `file_name()` as UTF-8; None when absent or not valid UTF-8
    key: Path,                           // `canonicalize()`, or the path itself when that fails
    lstat: Option<Metadata>,             // `symlink_metadata()`, None when it fails
    stat: Option<Metadata>,              // `metadata()`, following symlinks
    note: Option<string>,                // what `get_note` finds for the path
    owner: string,                       // the `users` name of the owner, or the uid digits
    group: string,                       // the `users` name of the group, or the gid digits
    modified: string,                    // the modification time rendered as `%b %e %H:%M`
    linkTarget: Option<string>,          // `read_link()` displayed, None when it fails
    statuses: StatusMap,                 // `get_git_statuses` of this path as a directory
    contents: Contents)                  // `read_dir()`

  /** What `read_dir()` yields: an error, or the entries, each of which may fail to read. */
  datatype Contents = Unreadable | Entries(entries: seq<Option<Node>>)

  /** What a listing reads from outside the tree: the configuration, the options, the float rendering. */
  datatype Env = Env(config: Config, opts: Options, oneDecimal: (nat, nat) -> string)

  function NameOf(n: Node): Option<string> {
    n.name
  }

  /** `get_sorted_entries` of a directory node. */
  function Children(env: Env, d: Node): seq<Node> {
    match d.contents
    case Unreadable => SortedEntries(None, NameOf, env.opts.showAll)
    case Entries(es) => SortedEntries(Some(es), NameOf, env.opts.showAll)
  }

  /** Every entry listed is one that `read_dir` yielded. */
  lemma ChildRead(env: Env, d: Node, i: nat)
    requires i < |Children(env, d)|
    ensures d.contents.Entries? && Some(Children(env, d)[i]) in d.contents.entries
  {
    EntriesShown(d.contents.entries, NameOf, env.opts.showAll);
    assert Children(env, d)[i] in Children(env, d);
  }

  // ---------------------------------------------------------------------------
  // Entry lines (`print_entry`, `print_short_format`, `print_long_format`)
  // ---------------------------------------------------------------------------

  /** The status shown for `key`: only with `show_git`, and only when the map has the path. */
  function StatusOf(env: Env, statuses: StatusMap, key: Path): (r: Option<GitStatus>)
    ensures r.Some? <==> env.opts.showGit && key in statuses
    ensures r.Some? ==> r.value == statuses[key]
  {
    if env.opts.showGit && key in statuses then Some(statuses[key]) else None
  }

  function GitColumn(env: Env, s: Option<GitStatus>): Line {
    if env.opts.showGit then [FormatGitStatus(env.config, s), Plain(" ")] else []
  }

  function IconColumn(env: Env, name: string, m: Metadata): Line {
    if env.opts.showIcons then [Plain(GetIcon(env.config.icons, name, m) + " ")] else []
  }

  /** Two blanks, then `# note` in bright black. */
  function NoteColumn(note: Option<string>): Line {
    match note
    case None => []
    case Some(n) => [Plain("  "), Segment("# " + n, Colored(BrightBlack, false))]
  }

  /** The name printed for an entry; `?` when it has none that is valid UTF-8. */
  function EntryName(n: Node): string {
    n.name.GetOr("?")
  }

  /** `print_short_format`: git column, icon, coloured name, note. */
  function ShortLine(env: Env, n: Node, m: Metadata, s: Option<GitStatus>): Line {
    GitColumn(env, s) + IconColumn(env, EntryName(n), m)
    + [ColorizeName(env.config.colors, EntryName(n), m, s)] + NoteColumn(n.note)
  }

  function SizeColumn(env: Env, m: Metadata): string {
    if env.opts.humanReadable then PadLeft(FormatSize(m.size, env.oneDecimal), 6)
    else PadLeft(NatToString(m.size), 8)
  }

  /** ` -> target` after a symlink whose target can be read. */
  function LinkColumn(n: Node, m: Metadata): Line {
    if IsSymlink(m) && n.linkTarget.Some? then [Plain(" -> " + n.linkTarget.value)] else []
  }

  /** Link count, owner, group, size and time, each followed by a blank. */
  function StatColumns(env: Env, n: Node, m: Metadata): string {
    PadLeft(NatToString(m.nlink), 2) + " " + PadRight(n.owner, 8) + " "
    + PadRight(n.group, 8) + " " + SizeColumn(env, m) + " " + n.modified + " "
  }

  /** The columns before the git column in the long format. */
  function LongColumns(env: Env, n: Node, m: Metadata): string {
    FormatPermissions(m) + " " + StatColumns(env, n, m)
  }

  /** The cells of a long line after its fixed columns: git, icon, name, link target, note. */
  function LongTail(env: Env, n: Node, m: Metadata, s: Option<GitStatus>): Line {
    GitColumn(env, s) + IconColumn(env, EntryName(n), m)
    + [ColorizeName(env.config.colors, EntryName(n), m, s)] + LinkColumn(n, m) + NoteColumn(n.note)
  }

  /** `print_long_format`. */
  function LongLine(env: Env, n: Node, m: Metadata, s: Option<GitStatus>): Line {
    [Plain(LongColumns(env, n, m))] + LongTail(env, n, m, s)
  }

  /** `print_entry`: nothing when the entry's own metadata cannot be read, else its one line. */
  function EntryLines(env: Env, n: Node, statuses: StatusMap): (r: seq<Line>)
    ensures |r| == if n.lstat.Some? then 1 else 0
  {
    match n.lstat
    case None => []
    case Some(m) =>
      var s := StatusOf(env, statuses, n.key);
      [if env.opts.longFormat then LongLine(env, n, m, s) else ShortLine(env, n, m, s)]
  }

  /** Ten letters, a blank, then anything: the first ten are the letters. */
  lemma TenThenBlank(p: string, u: string)
    requires |p| == 10
    ensures |p + " " + u| > 10 && (p + " " + u)[..10] == p && (p + " " + u)[10] == ' '
  {
  }

  /** The long format starts with the ten-letter permission string of the entry. */
  lemma LongLineStartsWithMode(env: Env, n: Node, statuses: StatusMap)
    requires env.opts.longFormat && n.lstat.Some?
    ensures var line := EntryLines(env, n, statuses)[0];
            |line[0].text| > 10 && line[0].text[..10] == FormatPermissions(n.lstat.value)
            && line[0].text[10] == ' '
  {
    var m := n.lstat.value;
    var s := StatusOf(env, statuses, n.key);
    assert EntryLines(env, n, statuses)[0] == LongLine(env, n, m, s);
    TenThenBlank(FormatPermissions(m), StatColumns(env, n, m));
  }

  // ---------------------------------------------------------------------------
  // The flat listing (`list_directory`)
  // ---------------------------------------------------------------------------

  /** The lines printed and the lines written to standard error. */
  datatype Output = Output(out: seq<Line>, err: seq<string>)

  /** `Path::is_file`, following symlinks. */
  predicate IsFileStat(stat: Option<Metadata>) {
    stat.Some? && stat.value.fileType == RegularFile
  }

  /** `Path::is_dir`, following symlinks. */
  predicate IsDirStat(stat: Option<Metadata>) {
    stat.Some? && IsDir(stat.value)
  }

  /** The `blocks()` of every entry whose followed metadata can be read, added up. */
  function TotalBlocks(items: seq<Node>): nat {
    if |items| == 0 then 0
    else TotalBlocks(items[..|items| - 1])
         + (if items[|items| - 1].stat.Some? then items[|items| - 1].stat.value.blocks else 0)
  }

  /** The entry lines of `items`, in order. */
  function EntriesLines(env: Env, items: seq<Node>, statuses: StatusMap): seq<Line> {
    if |items| == 0 then []
    else EntriesLines(env, items[..|items| - 1], statuses) + EntryLines(env, items[|items| - 1], statuses)
  }

  /** The entries that have a line of their own: those whose own metadata can be read. */
  function Readable(items: seq<Node>): nat {
    if |items| == 0 then 0
    else Readable(items[..|items| - 1]) + (if items[|items| - 1].lstat.Some? then 1 else 0)
  }

  const ReadError := "Error reading directory: "

  /** `total N`, in 1K blocks: the 512-byte block count halved, rounded down. */
  function TotalLine(items: seq<Node>): Line {
    [Plain("total " + NatToString(TotalBlocks(items) / 2))]
  }

  /**
   * `list_directory`. A file is listed alone, with the statuses of its parent
   * directory; a directory with nothing to list that is not a directory at all
   * is an error; otherwise the entries follow the `total` line of the long format.
   */
  function ListDirectory(env: Env, arg: Node, display: string, parentStatuses: StatusMap): (r: Output)
    ensures IsFileStat(arg.stat) ==> r == Output(EntryLines(env, arg, parentStatuses), [])
    ensures r.err != [] <==> !IsFileStat(arg.stat) && !IsDirStat(arg.stat) && |Children(env, arg)| == 0
    ensures r.err != [] ==> r == Output([], [ReadError + display])
    ensures !IsFileStat(arg.stat) && r.err == [] ==>
              r.out == (if env.opts.longFormat then [TotalLine(Children(env, arg))] else [])
                       + EntriesLines(env, Children(env, arg), arg.statuses)
  {
    if IsFileStat(arg.stat) then Output(EntryLines(env, arg, parentStatuses), [])
    else
      var items := Children(env, arg);
      if |items| == 0 && !IsDirStat(arg.stat) then Output([], [ReadError + display])
      else Output((if env.opts.longFormat then [TotalLine(items)] else []) + EntriesLines(env, items, arg.statuses), [])
  }

  /** Each entry contributes one line when its metadata reads, none otherwise. */
  lemma {:induction false} EntriesLinesCount(env: Env, items: seq<Node>, statuses: StatusMap)
    ensures |EntriesLines(env, items, statuses)| == Readable(items)
  {
    if |items| > 0 {
      EntriesLinesCount(env, items[..|items| - 1], statuses);
    }
  }

  /** A directory listing prints one line per readable entry, after the `total` line in the long format. */
  lemma ListingLineCount(env: Env, arg: Node, display: string, parentStatuses: StatusMap)
    requires !IsFileStat(arg.stat) && (IsDirStat(arg.stat) || |Children(env, arg)| > 0)
    ensures |ListDirectory(env, arg, display, parentStatuses).out| ==
              (if env.opts.longFormat then 1 else 0) + Readable(Children(env, arg))
  {
    EntriesLinesCount(env, Children(env, arg), arg.statuses);
  }

  /**
   * A file argument is shown with its parent's statuses: its own directory
   * statuses play no part, and its git column, first in the short format and
   * right after the fixed columns in the long one, is the parent's status for it.
   */
  lemma FileUsesParentStatuses(env: Env, arg: Node, display: string, parentStatuses: StatusMap, other: StatusMap)
    requires IsFileStat(arg.stat)
    ensures ListDirectory(env, arg, display, parentStatuses) ==
            ListDirectory(env, arg.(statuses := other), display, parentStatuses)
    ensures env.opts.showGit && !env.opts.longFormat && arg.lstat.Some? ==>
              ListDirectory(env, arg, display, parentStatuses).out[0][0] ==
              FormatGitStatus(env.config, if arg.key in parentStatuses then Some(parentStatuses[arg.key]) else None)
    ensures env.opts.showGit && env.opts.longFormat && arg.lstat.Some? ==>
              |ListDirectory(env, arg, display, parentStatuses).out[0]| > 1 &&
              ListDirectory(env, arg, display, parentStatuses).out[0][1] ==
              FormatGitStatus(env.config, if arg.key in parentStatuses then Some(parentStatuses[arg.key]) else None)
  {
  }

  /** The directory whose statuses a file argument is shown with: its parent, or `.` when it has none. */
  function StatusDirectory(display: string): string {
    ParentText(display).GetOr(".")
  }

  /**
   * The statuses `list_directory` computes for a file argument, `probe` being
   * what git answers in its status directory. Without `show_git` there are
   * none. In the empty directory of a bare name there are none either:
   * `canonicalize("")` fails, git is started in `""`, the start fails, and
   * `get_git_statuses` returns its empty map.
   */
  function FileStatuses(env: Env, display: string, probe: GitProbe): (r: Result<StatusMap>)
    ensures r.Ok? && (!env.opts.showGit || StatusDirectory(display) == "") ==> r.value == map[]
    ensures env.opts.showGit && StatusDirectory(display) != "" ==> r == GitStatuses(probe)
  {
    if !env.opts.showGit || StatusDirectory(display) == "" then Ok(map[]) else GitStatuses(probe)
  }

  /**
   * A file named without a directory (`README.md`) has the empty path as its
   * parent, so git is never asked and its status column is blank, whatever git
   * would report for the current directory.
   */
  lemma BareFileNameShowsNoStatus(env: Env, arg: Node, name: string, probe: GitProbe)
    requires IsComponent(name) && IsFileStat(arg.stat)
    ensures FileStatuses(env, name, probe) == Ok(map[])
    ensures env.opts.showGit && !env.opts.longFormat && arg.lstat.Some? ==>
              ListDirectory(env, arg, name, map[]).out[0][0] == FormatGitStatus(env.config, None)
  {
    ParentOfBareName(name);
    FileUsesParentStatuses(env, arg, name, map[], arg.statuses);
  }

  /** The same file named as `./README.md` takes its statuses from git in `.`. */
  lemma DotSlashFileUsesGit(env: Env, name: string, probe: GitProbe)
    requires IsComponent(name) && env.opts.showGit
    ensures StatusDirectory("./" + name) == "."
    ensures FileStatuses(env, "./" + name, probe) == GitStatuses(probe)
  {
    ParentOfJoined(".", name);
    assert "." + "/" + name == "./" + name;
  }

  lemma {:induction false} TotalBlocksAppend(a: seq<Node>, b: seq<Node>)
    ensures TotalBlocks(a + b) == TotalBlocks(a) + TotalBlocks(b)
    decreases |b|
  {
    if |b| == 0 {
      assert a + b == a;
    } else {
      assert (a + b)[..|a + b| - 1] == a + b[..|b| - 1];
      TotalBlocksAppend(a, b[..|b| - 1]);
    }
  }

  lemma TotalBlocksOne(x: Node)
    ensures TotalBlocks([x]) == if x.stat.Some? then x.stat.value.blocks else 0
  {
    assert [x][..0] == [];
  }

  /** Taking one element off both sides of a permutation leaves a permutation. */
  lemma RemoveOne<T>(a: seq<T>, b: seq<T>, j: nat)
    requires multiset(a) == multiset(b) && |a| > 0 && j < |b| && b[j] == a[0]
    ensures multiset(a[1..]) == multiset(b[..j] + b[j + 1..])
  {
    var x := a[0];
    assert a == [x] + a[1..];
    assert b == b[..j] + [x] + b[j + 1..];
    var ra, rb := multiset(a[1..]), multiset(b[..j] + b[j + 1..]);
    assert multiset(b) == rb + multiset{x};
    assert multiset(a) == ra + multiset{x};
    forall y
      ensures ra[y] == rb[y]
    {
      assert multiset(a)[y] == ra[y] + multiset{x}[y];
      assert multiset(b)[y] == rb[y] + multiset{x}[y];
    }
  }

  /** The block total does not depend on the order of the entries. */
  lemma {:induction false} TotalIgnoresOrder(a: seq<Node>, b: seq<Node>)
    requires multiset(a) == multiset(b)
    ensures TotalBlocks(a) == TotalBlocks(b)
    decreases |a|
  {
    if |a| > 0 {
      var x := a[0];
      assert x in multiset(b);
      var j :| 0 <= j < |b| && b[j] == x;
      var rest := b[..j] + b[j + 1..];
      assert a == [x] + a[1..];
      assert b == b[..j] + [x] + b[j + 1..];
      RemoveOne(a, b, j);
      TotalIgnoresOrder(a[1..], rest);
      TotalBlocksAppend([x], a[1..]);
      TotalBlocksAppend(b[..j] + [x], b[j + 1..]);
      TotalBlocksAppend(b[..j], [x]);
      TotalBlocksAppend(b[..j], b[j + 1..]);
      TotalBlocksOne(x);
    } else {
      assert b == [];
    }
  }

  /** The `total` of a listing counts the visible entries as read, whatever the sort did. */
  lemma TotalOfVisibleEntries(env: Env, d: Node)
    requires d.contents.Entries?
    ensures TotalBlocks(Children(env, d)) == TotalBlocks(Visible(Present(d.contents.entries), NameOf, env.opts.showAll))
  {
    TotalIgnoresOrder(Children(env, d), Visible(Present(d.contents.entries), NameOf, env.opts.showAll));
  }

  // ---------------------------------------------------------------------------
  // The tree view (`print_tree`)
  // ---------------------------------------------------------------------------

  const Tee := "├── "
  const Corner := "└── "
  const Bar := "│   "
  const Blank := "    "

  /** The connector before an entry: the corner for the last one. */
  function Connector(last: bool): string {
    if last then Corner else Tee
  }

  /** What an entry's children add to the prefix: blank under the last entry, a bar elsewhere. */
  function Indent(last: bool): string {
    if last then Blank else Bar
  }

  /** The top line: the directory's name in bold directory colour, after its icon. */
  function Header(env: Env, d: Node): Line {
    var name := Segment(d.name.GetOr("."), Colored(ParseColor(env.config.colors.directory), true));
    if env.opts.showIcons then [Plain(env.config.icons.directory + " "), name] else [name]
  }

  /** `print_tree(d, prefix)`: the header at the top level only, then the entries. */
  function TreeLines(env: Env, d: Node, prefix: string): seq<Line>
    decreases d, 1, 0, 0
  {
    (if prefix == "" then [Header(env, d)] else []) + Blocks(env, d, prefix, |Children(env, d)|)
  }

  /** The lines of the first `k` entries of `d`. */
  function Blocks(env: Env, d: Node, prefix: string, k: nat): seq<Line>
    requires k <= |Children(env, d)|
    decreases d, 0, k, 2
  {
    if k == 0 then [] else Blocks(env, d, prefix, k - 1) + ChildBlock(env, d, prefix, k - 1)
  }

  /** Whether entry `i` is the last one read, readable or not. */
  predicate IsLast(env: Env, d: Node, i: nat) {
    i == |Children(env, d)| - 1
  }

  /** The line of entry `i`: the prefix and its connector before its short-format line. */
  function TreeEntry(env: Env, d: Node, prefix: string, i: nat): (r: Line)
    requires i < |Children(env, d)| && Children(env, d)[i].lstat.Some?
    ensures |r| > 0 && r[0] == Plain(prefix + Connector(IsLast(env, d, i)))
  {
    var c := Children(env, d)[i];
    [Plain(prefix + Connector(IsLast(env, d, i)))] + ShortLine(env, c, c.lstat.value, StatusOf(env, d.statuses, c.key))
  }

  /** The tree of entry `i` one level down, for a directory that is not a symlink; else nothing. */
  function Subtree(env: Env, d: Node, prefix: string, i: nat): seq<Line>
    requires i < |Children(env, d)|
    decreases d, 0, i, 0
  {
    var c := Children(env, d)[i];
    if c.lstat.Some? && IsDir(c.lstat.value) then
      ChildRead(env, d, i);
      TreeLines(env, c, prefix + Indent(IsLast(env, d, i)))
    else []
  }

  /**
   * The lines of entry `i`: none when its metadata fails (it still counts
   * when deciding which entry is last), else its line and its subtree.
   */
  function ChildBlock(env: Env, d: Node, prefix: string, i: nat): seq<Line>
    requires i < |Children(env, d)|
    decreases d, 0, i, 1
  {
    if Children(env, d)[i].lstat.None? then [] else [TreeEntry(env, d, prefix, i)] + Subtree(env, d, prefix, i)
  }

  /** The text after a prefix on a tree line: bars and blanks, then one connector. */
  predicate IsGutter(g: string)
    decreases |g|
  {
    |g| >= 4 &&
    if |g| == 4 then g == Tee || g == Corner
    else (g[..4] == Bar || g[..4] == Blank) && IsGutter(g[4..])
  }

  /** A tree line below `prefix`: its first run is unstyled and is `prefix` and a gutter. */
  predicate GutterLine(prefix: string, line: Line) {
    && |line| > 0 && line[0].style == Unstyled
    && |prefix| <= |line[0].text| && line[0].text[..|prefix|] == prefix
    && IsGutter(line[0].text[|prefix|..])
  }

  /** The character right after the prefix on a gutter line: where its connector or indent begins. */
  function GutterChar(prefix: string, line: Line): char
    requires GutterLine(prefix, line)
  {
    line[0].text[|prefix|]
  }

  /** A gutter line one level down is a gutter line here, starting with the indent. */
  lemma GutterExtend(prefix: string, indent: string, line: Line)
    requires indent == Bar || indent == Blank
    requires GutterLine(prefix + indent, line)
    ensures GutterLine(prefix, line) && GutterChar(prefix, line) == indent[0]
  {
    var t := line[0].text;
    var n := |prefix|;
    assert t[..n + 4] == prefix + indent;
    assert t[..n] == (prefix + indent)[..n] == prefix;
    var g := t[n..];
    assert g[4..] == t[n + 4..];
    assert g[..4] == t[n..n + 4] == indent;
    assert t[n] == (prefix + indent)[n];
  }

  /** An entry line is a gutter line whose gutter is its connector. */
  lemma EntryGutter(prefix: string, last: bool, line: Line)
    requires |line| > 0 && line[0] == Plain(prefix + Connector(last))
    ensures GutterLine(prefix, line) && GutterChar(prefix, line) == Connector(last)[0]
  {
    var t := line[0].text;
    assert t[..|prefix|] == prefix;
    assert t[|prefix|..] == Connector(last);
  }

  /** A readable directory entry's lines: its entry line, then its own entries one level down. */
  lemma DirectoryBlock(env: Env, d: Node, prefix: string, i: nat)
    requires i < |Children(env, d)|
    requires var c := Children(env, d)[i]; c.lstat.Some? && IsDir(c.lstat.value)
    ensures var c := Children(env, d)[i];
            ChildBlock(env, d, prefix, i) ==
              [TreeEntry(env, d, prefix, i)] + Blocks(env, c, prefix + Indent(IsLast(env, d, i)), |Children(env, c)|)
  {
    var c := Children(env, d)[i];
    var p := prefix + Indent(IsLast(env, d, i));
    assert Subtree(env, d, prefix, i) == TreeLines(env, c, p);
    NestedTree(env, c, p);
  }

  /** Below the top level a tree has no header: it is its entries' lines. */
  lemma NestedTree(env: Env, d: Node, prefix: string)
    requires prefix != ""
    ensures TreeLines(env, d, prefix) == Blocks(env, d, prefix, |Children(env, d)|)
  {
    assert TreeLines(env, d, prefix) == [] + Blocks(env, d, prefix, |Children(env, d)|);
  }

  /** Any other readable entry, a symlink to a directory included, has its entry line alone. */
  lemma LeafBlock(env: Env, d: Node, prefix: string, i: nat)
    requires i < |Children(env, d)|
    requires var c := Children(env, d)[i]; c.lstat.Some? && !IsDir(c.lstat.value)
    ensures ChildBlock(env, d, prefix, i) == [TreeEntry(env, d, prefix, i)]
  {
    assert Subtree(env, d, prefix, i) == [];
  }

  /** Every entry line of `d` under `prefix`, and every line below them, is a gutter line. */
  lemma {:induction false} TreeGutters(env: Env, d: Node, prefix: string)
    ensures forall line :: line in Blocks(env, d, prefix, |Children(env, d)|) ==> GutterLine(prefix, line)
    decreases d, 1, 0, 0
  {
    BlocksGutters(env, d, prefix, |Children(env, d)|);
  }

  lemma {:induction false} BlocksGutters(env: Env, d: Node, prefix: string, k: nat)
    requires k <= |Children(env, d)|
    ensures forall line :: line in Blocks(env, d, prefix, k) ==> GutterLine(prefix, line)
    decreases d, 0, k, 2
  {
    if k > 0 {
      BlocksGutters(env, d, prefix, k - 1);
      ChildBlockGutters(env, d, prefix, k - 1);
    }
  }

  /** The lines under entry `i` are gutter lines one level down. */
  lemma {:induction false} SubtreeGutters(env: Env, d: Node, prefix: string, i: nat)
    requires i < |Children(env, d)|
    ensures forall line :: line in Subtree(env, d, prefix, i) ==> GutterLine(prefix + Indent(IsLast(env, d, i)), line)
    decreases d, 0, i, 0
  {
    var c := Children(env, d)[i];
    if c.lstat.Some? && IsDir(c.lstat.value) {
      var p := prefix + Indent(IsLast(env, d, i));
      ChildRead(env, d, i);
      TreeGutters(env, c, p);
      assert p != "";
      assert Subtree(env, d, prefix, i) == [] + Blocks(env, c, p, |Children(env, c)|);
    }
  }

  lemma {:induction false} ChildBlockGutters(env: Env, d: Node, prefix: string, i: nat)
    requires i < |Children(env, d)|
    ensures forall line :: line in ChildBlock(env, d, prefix, i) ==> GutterLine(prefix, line)
    decreases d, 0, i, 1
  {
    if Children(env, d)[i].lstat.Some? {
      var e := TreeEntry(env, d, prefix, i);
      EntryGutter(prefix, IsLast(env, d, i), e);
      SubtreeGutters(env, d, prefix, i);
      forall line | line in Subtree(env, d, prefix, i)
        ensures GutterLine(prefix, line)
      {
        GutterExtend(prefix, Indent(IsLast(env, d, i)), line);
      }
    }
  }

  /**
   * The header is printed exactly at the top: a call with the empty prefix
   * starts with it and every later line is a gutter line, a nested call has
   * gutter lines only.
   */
  lemma HeaderOnlyAtTop(env: Env, d: Node, prefix: string)
    ensures var t := TreeLines(env, d, prefix);
            && (prefix == "" ==> |t| >= 1 && t[0] == Header(env, d) && forall line :: line in t[1..] ==> GutterLine("", line))
            && (prefix != "" ==> forall line :: line in t ==> GutterLine(prefix, line))
  {
    TreeGutters(env, d, prefix);
    var t := TreeLines(env, d, prefix);
    var b := Blocks(env, d, prefix, |Children(env, d)|);
    if prefix == "" {
      assert t == [Header(env, d)] + b;
      assert t[1..] == b;
    } else {
      assert t == [] + b;
    }
  }

  /** Gutter lines under `prefix` none of which shows the corner right after it. */
  predicate AvoidsCorner(prefix: string, lines: seq<Line>) {
    forall line :: line in lines ==> GutterLine(prefix, line) && GutterChar(prefix, line) != Corner[0]
  }

  /** The lines of an entry that is not last never show the corner at this level. */
  lemma NotLastAvoidsCorner(env: Env, d: Node, prefix: string, i: nat)
    requires i < |Children(env, d)| - 1
    ensures AvoidsCorner(prefix, ChildBlock(env, d, prefix, i))
  {
    if Children(env, d)[i].lstat.Some? {
      var e := TreeEntry(env, d, prefix, i);
      EntryGutter(prefix, false, e);
      SubtreeGutters(env, d, prefix, i);
      forall line | line in Subtree(env, d, prefix, i)
        ensures GutterLine(prefix, line) && GutterChar(prefix, line) != Corner[0]
      {
        GutterExtend(prefix, Bar, line);
      }
    }
  }

  lemma {:induction false} BlocksAvoidCorner(env: Env, d: Node, prefix: string, k: nat)
    requires k < |Children(env, d)|
    ensures AvoidsCorner(prefix, Blocks(env, d, prefix, k))
  {
    if k > 0 {
      BlocksAvoidCorner(env, d, prefix, k - 1);
      NotLastAvoidsCorner(env, d, prefix, k - 1);
      AvoidsCornerAppend(prefix, Blocks(env, d, prefix, k - 1), ChildBlock(env, d, prefix, k - 1));
    }
  }

  lemma AvoidsCornerAppend(prefix: string, a: seq<Line>, b: seq<Line>)
    requires AvoidsCorner(prefix, a) && AvoidsCorner(prefix, b)
    ensures AvoidsCorner(prefix, a + b)
  {
  }

  /** An entry whose metadata fails adds no lines. */
  lemma UnreadableAddsNothing(env: Env, d: Node, prefix: string)
    requires |Children(env, d)| > 0 && Children(env, d)[|Children(env, d)| - 1].lstat.None?
    ensures Blocks(env, d, prefix, |Children(env, d)|) == Blocks(env, d, prefix, |Children(env, d)| - 1)
  {
    assert ChildBlock(env, d, prefix, |Children(env, d)| - 1) == [];
  }

  /**
   * When the last entry's metadata cannot be read, it prints nothing but still
   * takes the corner from the others: no line of the directory shows the corner
   * at its level.
   */
  lemma UnreadableLastLeavesNoCorner(env: Env, d: Node, prefix: string)
    requires |Children(env, d)| > 0 && Children(env, d)[|Children(env, d)| - 1].lstat.None?
    ensures AvoidsCorner(prefix, Blocks(env, d, prefix, |Children(env, d)|))
  {
    BlocksAvoidCorner(env, d, prefix, |Children(env, d)| - 1);
    UnreadableAddsNothing(env, d, prefix);
  }

  /**
   * When the last entry can be read, its line shows the corner, and no line
   * of the entries before it does.
   */
  lemma ReadableLastTakesCorner(env: Env, d: Node, prefix: string)
    requires |Children(env, d)| > 0 && Children(env, d)[|Children(env, d)| - 1].lstat.Some?
    ensures TreeEntry(env, d, prefix, |Children(env, d)| - 1)[0] == Plain(prefix + Corner)
    ensures AvoidsCorner(prefix, Blocks(env, d, prefix, |Children(env, d)| - 1))
  {
    assert IsLast(env, d, |Children(env, d)| - 1);
    BlocksAvoidCorner(env, d, prefix, |Children(env, d)| - 1);
  }

  /** Without the colours, a tree line reads as the prefix, the connector and the short-format line. */
  lemma TreeLineText(env: Env, d: Node, prefix: string, i: nat)
    requires i < |Children(env, d)| && Children(env, d)[i].lstat.Some?
    ensures var c := Children(env, d)[i];
            LineText(TreeEntry(env, d, prefix, i)) ==
              prefix + Connector(IsLast(env, d, i)) + LineText(ShortLine(env, c, c.lstat.value, StatusOf(env, d.statuses, c.key)))
  {
    var c := Children(env, d)[i];
    var short := ShortLine(env, c, c.lstat.value, StatusOf(env, d.statuses, c.key));
    var head := [Plain(prefix + Connector(IsLast(env, d, i)))];
    LineTextAppend(head, short);
    assert LineText(head) == prefix + Connector(IsLast(env, d, i)) + LineText([]);
  }
}
