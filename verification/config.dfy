/**
 * The configuration of `config.rs`: icon, colour and git-glyph settings, their
 * built-in defaults, the line-oriented `key = value` file format that overrides
 * them, the text of the generated default file, and the colour-name table.
 * The process-wide `OnceLock` is replaced by an explicit `Config` value.
 */
module Configuration {
  import opened Wrappers
  import opened Text
  import opened Styling
  import opened ConfigTables

  datatype IconsConfig = IconsConfig(
    directory: string,
    symlink: string,
    file: string,
    executable: string,
    extensions: map<string, string>,
    filenames: map<string, string>)

  /** Colour names, resolved with `ParseColor` where they are used. */
  datatype ColorsConfig = ColorsConfig(
    directory: string,
    symlink: string,
    executable: string,
    file: string,
    gitModified: string,
    gitStaged: string,
    gitUntracked: string)

  /** The glyphs shown for the git statuses. */
  datatype GitConfig = GitConfig(modified: string, staged: string, untracked: string, ignored: string)

  datatype Config = Config(icons: IconsConfig, colors: ColorsConfig, git: GitConfig)

  // ---------------------------------------------------------------------------
  // Defaults (`impl Default`)
  // ---------------------------------------------------------------------------

  function DefaultIcons(): IconsConfig {
    IconsConfig("📁", "🔗", "📄", "📄", DefaultExtensions(), DefaultFilenames())
  }

  function DefaultColors(): ColorsConfig {
    ColorsConfig("blue", "cyan", "green", "white", "red", "green", "yellow")
  }

  function DefaultGit(): GitConfig {
    GitConfig("●", "◐", "?", "◌")
  }

  function DefaultConfig(): Config {
    Config(DefaultIcons(), DefaultColors(), DefaultGit())
  }

  // ---------------------------------------------------------------------------
  // Settings and keys
  // ---------------------------------------------------------------------------

  /** One setting a configuration line can assign. */
  datatype Setting =
    | IconDirectory | IconSymlink | IconFile | IconExecutable
    | ColorDirectory | ColorSymlink | ColorExecutable | ColorFile
    | ColorGitModified | ColorGitStaged | ColorGitUntracked
    | GitModified | GitStaged | GitUntracked | GitIgnored
    | ExtensionIcon(ext: string)
    | FilenameIcon(name: string)

  /**
   * The setting an exact key of `Config::set` names; `None` for any other key.
   * Every exact key differs from `icon.ext.` in one of the letters 0, 5, 6, 7
   * and from `icon.name.` in letter 0 or 5, so neither prefix starts one.
   */
  function ExactSetting(key: string): (r: Option<Setting>)
    ensures r.Some? ==> 8 <= |key| && (key[0] != 'i' || key[5] != 'e' || key[6] != 'x' || key[7] != 't')
    ensures r.Some? ==> key[0] != 'i' || key[5] != 'n'
    ensures r.Some? ==> !r.value.ExtensionIcon? && !r.value.FilenameIcon?
  {
    if key == "icon.directory" then Some(IconDirectory)
    else if key == "icon.symlink" then Some(IconSymlink)
    else if key == "icon.file" then Some(IconFile)
    else if key == "icon.executable" then Some(IconExecutable)
    else if key == "color.directory" then Some(ColorDirectory)
    else if key == "color.symlink" then Some(ColorSymlink)
    else if key == "color.executable" then Some(ColorExecutable)
    else if key == "color.file" then Some(ColorFile)
    else if key == "color.git_modified" then Some(ColorGitModified)
    else if key == "color.git_staged" then Some(ColorGitStaged)
    else if key == "color.git_untracked" then Some(ColorGitUntracked)
    else if key == "git.modified" then Some(GitModified)
    else if key == "git.staged" then Some(GitStaged)
    else if key == "git.untracked" then Some(GitUntracked)
    else if key == "git.ignored" then Some(GitIgnored)
    else None
  }

  /**
   * The setting a key names, tested in the order of `Config::set`: the exact
   * keys first, then `icon.ext.<e>` for the extension `e` as written and
   * `icon.name.<n>` for the lower-cased file name `n`; `None` for any other key.
   */
  function SettingOf(key: string): (r: Option<Setting>)
    ensures r.Some? && r.value.ExtensionIcon? ==> StartsWith(key, "icon.ext.") && r.value.ext == key[9..]
    ensures r.Some? && r.value.FilenameIcon? ==>
              StartsWith(key, "icon.name.") && r.value.name == ToLower(key[10..])
    ensures r.None? ==> !StartsWith(key, "icon.ext.") && !StartsWith(key, "icon.name.")
  {
    match ExactSetting(key)
    case Some(setting) => Some(setting)
    case None =>
      if StartsWith(key, "icon.ext.") then Some(ExtensionIcon(key[9..]))
      else if StartsWith(key, "icon.name.") then Some(FilenameIcon(ToLower(key[10..])))
      else None
  }

  /**
   * Every `icon.ext.` key reaches the extension table under the text after the
   * prefix, and every `icon.name.` key the file-name table under that text
   * lower-cased: no exact key shadows either prefix.
   */
  lemma IconKeysReachTables(key: string)
    ensures StartsWith(key, "icon.ext.") ==> SettingOf(key) == Some(ExtensionIcon(key[9..]))
    ensures StartsWith(key, "icon.name.") ==> SettingOf(key) == Some(FilenameIcon(ToLower(key[10..])))
  {
    if StartsWith(key, "icon.ext.") {
      assert key[..9] == "icon.ext.";
      assert key[0] == 'i' && key[5] == 'e' && key[6] == 'x' && key[7] == 't';
    }
    if StartsWith(key, "icon.name.") {
      assert key[..10] == "icon.name.";
      assert key[0] == 'i' && key[5] == 'n';
    }
  }

  /** The value a setting currently holds; `None` for an icon the tables do not have. */
  function Read(c: Config, s: Setting): Option<string> {
    match s
    case IconDirectory => Some(c.icons.directory)
    case IconSymlink => Some(c.icons.symlink)
    case IconFile => Some(c.icons.file)
    case IconExecutable => Some(c.icons.executable)
    case ColorDirectory => Some(c.colors.directory)
    case ColorSymlink => Some(c.colors.symlink)
    case ColorExecutable => Some(c.colors.executable)
    case ColorFile => Some(c.colors.file)
    case ColorGitModified => Some(c.colors.gitModified)
    case ColorGitStaged => Some(c.colors.gitStaged)
    case ColorGitUntracked => Some(c.colors.gitUntracked)
    case GitModified => Some(c.git.modified)
    case GitStaged => Some(c.git.staged)
    case GitUntracked => Some(c.git.untracked)
    case GitIgnored => Some(c.git.ignored)
    case ExtensionIcon(e) => if e in c.icons.extensions then Some(c.icons.extensions[e]) else None
    case FilenameIcon(n) => if n in c.icons.filenames then Some(c.icons.filenames[n]) else None
  }

  /** `c` with setting `s` holding `v` and every other setting as it was. */
  function Write(c: Config, s: Setting, v: string): (r: Config)
    ensures Read(r, s) == Some(v)
    ensures forall t :: t != s ==> Read(r, t) == Read(c, t)
  {
    match s
    case IconDirectory => c.(icons := c.icons.(directory := v))
    case IconSymlink => c.(icons := c.icons.(symlink := v))
    case IconFile => c.(icons := c.icons.(file := v))
    case IconExecutable => c.(icons := c.icons.(executable := v))
    case ColorDirectory => c.(colors := c.colors.(directory := v))
    case ColorSymlink => c.(colors := c.colors.(symlink := v))
    case ColorExecutable => c.(colors := c.colors.(executable := v))
    case ColorFile => c.(colors := c.colors.(file := v))
    case ColorGitModified => c.(colors := c.colors.(gitModified := v))
    case ColorGitStaged => c.(colors := c.colors.(gitStaged := v))
    case ColorGitUntracked => c.(colors := c.colors.(gitUntracked := v))
    case GitModified => c.(git := c.git.(modified := v))
    case GitStaged => c.(git := c.git.(staged := v))
    case GitUntracked => c.(git := c.git.(untracked := v))
    case GitIgnored => c.(git := c.git.(ignored := v))
    case ExtensionIcon(e) => c.(icons := c.icons.(extensions := c.icons.extensions[e := v]))
    case FilenameIcon(n) => c.(icons := c.icons.(filenames := c.icons.filenames[n := v]))
  }

  /** Writing the value a setting already holds changes nothing. */
  lemma WriteCurrent(c: Config, s: Setting, v: string)
    requires Read(c, s) == Some(v)
    ensures Write(c, s, v) == c
  {
    match s
    case ExtensionIcon(e) =>
      assert c.icons.extensions[e := v] == c.icons.extensions;
    case FilenameIcon(n) =>
      assert c.icons.filenames[n := v] == c.icons.filenames;
    case _ =>
  }

  /**
   * `Config::set`: the setting the key names takes the value; any other key is
   * ignored.
   */
  function Set(c: Config, key: string, value: string): Config {
    match SettingOf(key)
    case None => c
    case Some(s) => Write(c, s, value)
  }

  /** Assigning the same key twice keeps only the second value. */
  lemma SetTwice(c: Config, key: string, v1: string, v2: string)
    ensures Set(Set(c, key, v1), key, v2) == Set(c, key, v2)
  {
    match SettingOf(key)
    case None =>
    case Some(s) =>
      var a, b := Write(Write(c, s, v1), s, v2), Write(c, s, v2);
      match s
      case ExtensionIcon(e) =>
        assert a.icons.extensions == b.icons.extensions;
      case FilenameIcon(n) =>
        assert a.icons.filenames == b.icons.filenames;
      case _ =>
  }

  // ---------------------------------------------------------------------------
  // The file format (`Config::load`)
  // ---------------------------------------------------------------------------

  /**
   * The assignment one line of the file makes: after trimming, a blank line or
   * one starting with `#` makes none, nor does one without `=`; otherwise key and
   * value are the trimmed text before and after the first `=`.
   */
  function Assignment(line: string): (r: Option<(string, string)>)
    ensures r.None? <==> var t := Trim(line); |t| == 0 || StartsWith(t, "#") || '=' !in t
    ensures r.Some? ==> IsTrimmed(r.value.0) && IsTrimmed(r.value.1)
  {
    var t := Trim(line);
    SplitOnceChar(t, '=');
    if |t| == 0 || StartsWith(t, "#") then None
    else
      match SplitOnce(t, "=")
      case None => None
      case Some((k, v)) => Some((Trim(k), Trim(v)))
  }

  /** The effect of one parsed line: an assignment is passed to `Set`, anything else changes nothing. */
  function ApplyAssignment(c: Config, a: Option<(string, string)>): Config {
    match a
    case None => c
    case Some((key, value)) => Set(c, key, value)
  }

  /** The parsed lines of a file. */
  function Parsed(lines: seq<string>): (r: seq<Option<(string, string)>>)
    ensures |r| == |lines| && forall i :: 0 <= i < |lines| ==> r[i] == Assignment(lines[i])
  {
    seq(|lines|, i requires 0 <= i < |lines| => Assignment(lines[i]))
  }

  /** The loop of `Config::load`: the parsed lines applied in order, starting from `c`. */
  function ApplyAll(c: Config, xs: seq<Option<(string, string)>>): Config
    decreases |xs|
  {
    if |xs| == 0 then c else ApplyAssignment(ApplyAll(c, xs[..|xs| - 1]), xs[|xs| - 1])
  }

  /** Every line of a file applied in order to `c`. */
  function ApplyLines(c: Config, lines: seq<string>): Config {
    ApplyAll(c, Parsed(lines))
  }

  /** The parsed line `a` assigns setting `s`. */
  predicate AssignsTo(a: Option<(string, string)>, s: Setting) {
    a.Some? && SettingOf(a.value.0) == Some(s)
  }

  /** After `Set`, the setting the key names holds the value and every other setting is as it was. */
  lemma ReadAfterSet(c: Config, key: string, value: string, s: Setting)
    ensures Read(Set(c, key, value), s) == if SettingOf(key) == Some(s) then Some(value) else Read(c, s)
  {
  }

  /** After one parsed line, a setting holds the line's value if the line assigns it, and what it held before otherwise. */
  lemma ReadAfterAssignment(c: Config, a: Option<(string, string)>, s: Setting)
    ensures Read(ApplyAssignment(c, a), s) == if AssignsTo(a, s) then Some(a.value.1) else Read(c, s)
  {
    if a.Some? {
      ReadAfterSet(c, a.value.0, a.value.1, s);
    }
  }

  /**
   * Later lines override earlier ones: the setting assigned at position `i`
   * holds that line's value when no later line assigns the same setting,
   * whatever the lines in between assign, comment or leave unknown.
   */
  lemma {:induction false} LastAssignmentWins(c: Config, xs: seq<Option<(string, string)>>, i: nat, s: Setting)
    requires i < |xs| && AssignsTo(xs[i], s)
    requires forall j :: i < j < |xs| ==> !AssignsTo(xs[j], s)
    ensures Read(ApplyAll(c, xs), s) == Some(xs[i].value.1)
    decreases |xs|
  {
    var n := |xs|;
    var init := xs[..n - 1];
    if i < n - 1 {
      assert init[i] == xs[i];
      forall j | i < j < |init|
        ensures !AssignsTo(init[j], s)
      {
        assert init[j] == xs[j];
      }
      LastAssignmentWins(c, init, i, s);
    }
    ReadAfterAssignment(ApplyAll(c, init), xs[n - 1], s);
  }

  /** A setting no line assigns keeps the value it had in `c`. */
  lemma {:induction false} UnassignedSettingKept(c: Config, xs: seq<Option<(string, string)>>, s: Setting)
    requires forall j :: 0 <= j < |xs| ==> !AssignsTo(xs[j], s)
    ensures Read(ApplyAll(c, xs), s) == Read(c, s)
    decreases |xs|
  {
    var n := |xs|;
    if n > 0 {
      var init := xs[..n - 1];
      forall j | 0 <= j < |init|
        ensures !AssignsTo(init[j], s)
      {
        assert init[j] == xs[j];
      }
      UnassignedSettingKept(c, init, s);
      ReadAfterAssignment(ApplyAll(c, init), xs[n - 1], s);
    }
  }

  /** Applying two runs of lines one after the other is applying their concatenation. */
  lemma {:induction false} ApplyAllAppend(c: Config, xs: seq<Option<(string, string)>>, ys: seq<Option<(string, string)>>)
    ensures ApplyAll(c, xs + ys) == ApplyAll(ApplyAll(c, xs), ys)
    decreases |ys|
  {
    if |ys| == 0 {
      assert xs + ys == xs;
    } else {
      var n := |ys|;
      assert (xs + ys)[..|xs + ys| - 1] == xs + ys[..n - 1];
      ApplyAllAppend(c, xs, ys[..n - 1]);
    }
  }

  /** Lines none of which changes `c` leave it unchanged together. */
  lemma {:induction false} ApplyAllNeutral(c: Config, xs: seq<Option<(string, string)>>)
    requires forall i :: 0 <= i < |xs| ==> ApplyAssignment(c, xs[i]) == c
    ensures ApplyAll(c, xs) == c
    decreases |xs|
  {
    if |xs| > 0 {
      var n := |xs|;
      var init := xs[..n - 1];
      forall i | 0 <= i < |init|
        ensures ApplyAssignment(c, init[i]) == c
      {
        assert init[i] == xs[i];
      }
      ApplyAllNeutral(c, init);
    }
  }

  /** Where the configuration file stands when it is loaded. */
  datatype ConfigFile =
    | NoDataDir(reason: string)   // the data directory could not be determined or created
    | Missing                     // no file at the configuration path
    | Unreadable(reason: string)  // the file exists but reading it failed
    | Contents(text: string)

  /**
   * `Config::load`: the defaults when there is no file, the defaults overridden
   * line by line by the file's contents, or the error that stopped it.
   */
  function Load(f: ConfigFile): (r: Result<Config>)
    ensures f.Missing? ==> r == Ok(DefaultConfig())
    ensures f.NoDataDir? ==> r == Err(f.reason)
    ensures f.Unreadable? ==> r == Err("Failed to read config: " + f.reason)
    ensures f.Contents? ==> r == Ok(ApplyLines(DefaultConfig(), Lines(f.text)))
  {
    match f
    case NoDataDir(e) => Err(e)
    case Missing => Ok(DefaultConfig())
    case Unreadable(e) => Err("Failed to read config: " + e)
    case Contents(text) => Ok(ApplyLines(DefaultConfig(), Lines(text)))
  }

  /** `get_config`: the loaded configuration, or the defaults when loading failed. */
  function GetConfig(f: ConfigFile): (r: Config)
    ensures Load(f).Err? ==> r == DefaultConfig()
    ensures Load(f).Ok? ==> r == Load(f).value
  {
    Load(f).GetOr(DefaultConfig())
  }

  // ---------------------------------------------------------------------------
  // The generated default file (`Config::generate_default`)
  // ---------------------------------------------------------------------------

  /** A line `key = value` of the generated file. */
  function EntryLine(key: string, value: string): string {
    key + " = " + value
  }

  function EntryLines(es: seq<(string, string)>): (r: seq<string>)
    ensures |r| == |es| && forall i :: 0 <= i < |es| ==> r[i] == EntryLine(es[i].0, es[i].1)
  {
    seq(|es|, i requires 0 <= i < |es| => EntryLine(es[i].0, es[i].1))
  }

  function IconEntries(): seq<(string, string)> {
    [("icon.directory", "📁"), ("icon.symlink", "🔗"), ("icon.file", "📄"), ("icon.executable", "📄")]
  }

  function ColorEntries(): seq<(string, string)> {
    [
      ("color.directory", "blue"),
      ("color.symlink", "cyan"),
      ("color.executable", "green"),
      ("color.file", "white"),
      ("color.git_modified", "red"),
      ("color.git_staged", "green"),
      ("color.git_untracked", "yellow")
    ]
  }

  function GitEntries(): seq<(string, string)> {
    [("git.modified", "●"), ("git.staged", "◐"), ("git.untracked", "?"), ("git.ignored", "◌")]
  }

  // The comment and blank lines around the entries. Literals longer than about
  // forty characters are written as two halves so that the verifier can read
  // their characters.

  function Preamble(): seq<string> {
    [
      "# lsn configuration file",
      "# Lines starting with # " + "are comments",
      "# Format: key = value",
      "",
      "# Icons for file types"
    ]
  }

  function ColorHeading(): seq<string> {
    [
      "",
      "# Colors (black, red, green, yellow, " + "blue, magenta, cyan, white)",
      "# Also: bright_black, bright_red, " + "bright_green, etc."
    ]
  }

  function GitHeading(): seq<string> {
    ["", "# Git status symbols"]
  }

  function ExtensionHints(): seq<string> {
    [
      "",
      "# Extension icons " + "(icon.ext.<extension> = <icon>)",
      "# icon.ext.rs = 🦀",
      "# icon.ext.py = 🐍",
      "# icon.ext.js = 🟨",
      "# icon.ext.ts = 🔷",
      "# icon.ext.go = 🐹"
    ]
  }

  function FilenameHints(): seq<string> {
    [
      "",
      "# Filename icons " + "(icon.name.<filename> = <icon>)",
      "# icon.name.Dockerfile = 🐳",
      "# icon.name.Makefile = 🔨",
      "# icon.name.README.md = 📖"
    ]
  }

  /** The lines of the generated default file, in the order `generate_default` lists them. */
  function DefaultFileLines(): seq<string> {
    Preamble() + EntryLines(IconEntries())
    + ColorHeading() + EntryLines(ColorEntries())
    + GitHeading() + EntryLines(GitEntries())
    + ExtensionHints() + FilenameHints()
  }

  /** `Config::generate_default`: the default file's lines joined by newlines, with no final newline. */
  function GenerateDefault(): string {
    Join(DefaultFileLines(), "\n")
  }

  /** A trimmed line `key = value` assigns `value` to `key`. */
  lemma SpacedAssignment(key: string, value: string)
    requires |key| > 0 && |value| > 0 && IsTrimmed(key) && IsTrimmed(value)
    requires '=' !in key && key[0] != '#'
    ensures Assignment(key + " = " + value) == Some((key, value))
  {
    var line := key + " = " + value;
    assert line[0] == key[0] && line[|line| - 1] == value[|value| - 1];
    TrimOfTrimmed(line);
    assert !StartsWith(line, "#");
    assert line == (key + " ") + "=" + (" " + value);
    assert '=' !in key + " ";
    CharNotInPrefix(key + " ", '=', " " + value);
    SplitOnceAt(key + " ", "=", " " + value);
    TrimPadded("", key, " ");
    assert "" + key + " " == key + " ";
    TrimPadded(" ", value, "");
    assert " " + value + "" == " " + value;
  }

  /** A line starting with `#` assigns nothing. */
  lemma CommentAssignsNothing(line: string)
    requires |line| > 0 && line[0] == '#'
    ensures Assignment(line) == None
  {
    TrimKeepsFirst(line);
  }

  /** `line` is one line of text, and loading it over `c` changes nothing. */
  predicate Restates(c: Config, line: string) {
    '\n' !in line && !EndsWithCr(line) && ApplyAssignment(c, Assignment(line)) == c
  }

  predicate AllRestate(c: Config, ls: seq<string>) {
    forall i :: 0 <= i < |ls| ==> Restates(c, ls[i])
  }

  lemma AllRestateAppend(c: Config, a: seq<string>, b: seq<string>)
    requires AllRestate(c, a) && AllRestate(c, b)
    ensures AllRestate(c, a + b)
  {
    forall i | 0 <= i < |a + b|
      ensures Restates(c, (a + b)[i])
    {
      if i < |a| {
        assert (a + b)[i] == a[i];
      } else {
        assert (a + b)[i] == b[i - |a|];
      }
    }
  }

  /** A blank or comment line: one line of text, empty or starting with `#`. */
  predicate IsRemark(line: string) {
    '\n' !in line && !EndsWithCr(line) && (line == "" || line[0] == '#')
  }

  lemma RemarksRestate(c: Config, ls: seq<string>)
    requires forall i :: 0 <= i < |ls| ==> IsRemark(ls[i])
    ensures AllRestate(c, ls)
  {
    forall i | 0 <= i < |ls|
      ensures Restates(c, ls[i])
    {
      if ls[i] != "" {
        CommentAssignsNothing(ls[i]);
      }
    }
  }

  /** The entry `key = value` repeats what `c` holds for the setting `key` names. */
  predicate RepeatsSetting(c: Config, e: (string, string)) {
    var (key, value) := e;
    |key| > 0 && |value| > 0 && IsTrimmed(key) && IsTrimmed(value)
    && '\n' !in key && '\n' !in value && value[|value| - 1] != '\r' && '=' !in key && key[0] != '#'
    && SettingOf(key).Some? && Read(c, SettingOf(key).value) == Some(value)
  }

  lemma EntryLineSingle(key: string, value: string)
    requires '\n' !in key && '\n' !in value && |value| > 0 && value[|value| - 1] != '\r'
    ensures '\n' !in EntryLine(key, value) && !EndsWithCr(EntryLine(key, value))
  {
    var line := key + (" = " + value);
    assert EntryLine(key, value) == line;
    assert line[|line| - 1] == value[|value| - 1];
  }

  lemma EntryApplies(c: Config, key: string, value: string)
    requires Assignment(EntryLine(key, value)) == Some((key, value))
    requires SettingOf(key).Some? && Read(c, SettingOf(key).value) == Some(value)
    ensures ApplyAssignment(c, Assignment(EntryLine(key, value))) == c
  {
    WriteCurrent(c, SettingOf(key).value, value);
  }

  lemma EntryRestates(c: Config, key: string, value: string)
    requires RepeatsSetting(c, (key, value))
    ensures Restates(c, EntryLine(key, value))
  {
    EntryLineSingle(key, value);
    SpacedAssignment(key, value);
    EntryApplies(c, key, value);
  }

  lemma EntriesRestate(c: Config, es: seq<(string, string)>)
    requires forall i :: 0 <= i < |es| ==> RepeatsSetting(c, es[i])
    ensures AllRestate(c, EntryLines(es))
  {
    forall i | 0 <= i < |es|
      ensures Restates(c, EntryLines(es)[i])
    {
      EntryRestates(c, es[i].0, es[i].1);
    }
  }

  lemma IconEntriesRepeatFrom0()
    ensures forall i :: 0 <= i < 2 ==> RepeatsSetting(DefaultConfig(), IconEntries()[i])
  {
  }

  lemma IconEntriesRepeatFrom2()
    ensures forall i :: 2 <= i < 4 ==> RepeatsSetting(DefaultConfig(), IconEntries()[i])
  {
  }

  lemma ColorEntryRepeats0()
    ensures RepeatsSetting(DefaultConfig(), ColorEntries()[0])
  {
  }

  lemma ColorEntryRepeats1()
    ensures RepeatsSetting(DefaultConfig(), ColorEntries()[1])
  {
  }

  lemma ColorEntryRepeats2()
    ensures RepeatsSetting(DefaultConfig(), ColorEntries()[2])
  {
  }

  lemma ColorEntryRepeats3()
    ensures RepeatsSetting(DefaultConfig(), ColorEntries()[3])
  {
  }

  lemma ColorEntryRepeats4()
    ensures RepeatsSetting(DefaultConfig(), ColorEntries()[4])
  {
  }

  lemma ColorEntryRepeats5()
    ensures RepeatsSetting(DefaultConfig(), ColorEntries()[5])
  {
  }

  lemma ColorEntryRepeats6()
    ensures RepeatsSetting(DefaultConfig(), ColorEntries()[6])
  {
  }

  lemma GitEntryRepeats0()
    ensures RepeatsSetting(DefaultConfig(), GitEntries()[0])
  {
  }

  lemma GitEntryRepeats1()
    ensures RepeatsSetting(DefaultConfig(), GitEntries()[1])
  {
  }

  lemma GitEntryRepeats2()
    ensures RepeatsSetting(DefaultConfig(), GitEntries()[2])
  {
  }

  lemma GitEntryRepeats3()
    ensures RepeatsSetting(DefaultConfig(), GitEntries()[3])
  {
  }

  lemma PreambleIsRemarks()
    ensures forall i :: 0 <= i < |Preamble()| ==> IsRemark(Preamble()[i])
  {
  }

  lemma ColorHeadingIsRemarks()
    ensures forall i :: 0 <= i < |ColorHeading()| ==> IsRemark(ColorHeading()[i])
  {
    ColorHeadingNames();
    ColorHeadingAlso();
    assert IsRemark(ColorHeading()[0]);
  }

  lemma ColorHeadingNames()
    ensures IsRemark(ColorHeading()[1])
  {
  }

  lemma ColorHeadingAlso()
    ensures IsRemark(ColorHeading()[2])
  {
  }

  lemma GitHeadingIsRemarks()
    ensures forall i :: 0 <= i < |GitHeading()| ==> IsRemark(GitHeading()[i])
  {
  }

  lemma ExtensionHintsAreRemarks()
    ensures forall i :: 0 <= i < |ExtensionHints()| ==> IsRemark(ExtensionHints()[i])
  {
  }

  lemma FilenameHintsAreRemarks()
    ensures forall i :: 0 <= i < |FilenameHints()| ==> IsRemark(FilenameHints()[i])
  {
  }

  /** The icon entries of the default file restate the defaults. */
  lemma IconEntriesRestate()
    ensures AllRestate(DefaultConfig(), EntryLines(IconEntries()))
  {
    var es := IconEntries();
    IconEntriesRepeatFrom0();
    IconEntriesRepeatFrom2();
    forall i | 0 <= i < |es|
      ensures RepeatsSetting(DefaultConfig(), es[i])
    {
      if i < 2 {
        assert 0 <= i < 2;
      } else {
        assert 2 <= i < 4;
      }
    }
    EntriesRestate(DefaultConfig(), es);
  }

  /** The colour entries of the default file restate the defaults. */
  lemma ColorEntriesRestate()
    ensures AllRestate(DefaultConfig(), EntryLines(ColorEntries()))
  {
    var es := ColorEntries();
    ColorEntryRepeats0();
    ColorEntryRepeats1();
    ColorEntryRepeats2();
    ColorEntryRepeats3();
    ColorEntryRepeats4();
    ColorEntryRepeats5();
    ColorEntryRepeats6();
    forall i | 0 <= i < |es|
      ensures RepeatsSetting(DefaultConfig(), es[i])
    {
      if i < 2 {
        assert 0 <= i < 2;
      } else if i < 4 {
        assert 2 <= i < 4;
      } else if i < 6 {
        assert 4 <= i < 6;
      } else {
        assert 6 <= i < 7;
      }
    }
    EntriesRestate(DefaultConfig(), es);
  }

  /** The git entries of the default file restate the defaults. */
  lemma GitEntriesRestate()
    ensures AllRestate(DefaultConfig(), EntryLines(GitEntries()))
  {
    var es := GitEntries();
    GitEntryRepeats0();
    GitEntryRepeats1();
    GitEntryRepeats2();
    GitEntryRepeats3();
    forall i | 0 <= i < |es|
      ensures RepeatsSetting(DefaultConfig(), es[i])
    {
      if i < 2 {
        assert 0 <= i < 2;
      } else {
        assert 2 <= i < 4;
      }
    }
    EntriesRestate(DefaultConfig(), es);
  }

  /** The comment and blank lines of the default file restate anything. */
  lemma RemarkPartsRestate(c: Config)
    ensures AllRestate(c, Preamble()) && AllRestate(c, ColorHeading()) && AllRestate(c, GitHeading())
            && AllRestate(c, ExtensionHints()) && AllRestate(c, FilenameHints())
  {
    PreambleIsRemarks();
    ColorHeadingIsRemarks();
    GitHeadingIsRemarks();
    ExtensionHintsAreRemarks();
    FilenameHintsAreRemarks();
    RemarksRestate(c, Preamble());
    RemarksRestate(c, ColorHeading());
    RemarksRestate(c, GitHeading());
    RemarksRestate(c, ExtensionHints());
    RemarksRestate(c, FilenameHints());
  }

  /** Every entry and remark of the default file, loaded over the defaults, changes nothing. */
  lemma DefaultFilePartsRestate()
    ensures var c := DefaultConfig();
            AllRestate(c, Preamble()) && AllRestate(c, EntryLines(IconEntries()))
            && AllRestate(c, ColorHeading()) && AllRestate(c, EntryLines(ColorEntries()))
            && AllRestate(c, GitHeading()) && AllRestate(c, EntryLines(GitEntries()))
            && AllRestate(c, ExtensionHints()) && AllRestate(c, FilenameHints())
  {
    RemarkPartsRestate(DefaultConfig());
    IconEntriesRestate();
    ColorEntriesRestate();
    GitEntriesRestate();
  }

  /** When every part of the default file restates `c`, the whole file does. */
  lemma DefaultFileRestates(c: Config)
    requires AllRestate(c, Preamble()) && AllRestate(c, EntryLines(IconEntries()))
    requires AllRestate(c, ColorHeading()) && AllRestate(c, EntryLines(ColorEntries()))
    requires AllRestate(c, GitHeading()) && AllRestate(c, EntryLines(GitEntries()))
    requires AllRestate(c, ExtensionHints()) && AllRestate(c, FilenameHints())
    ensures AllRestate(c, DefaultFileLines())
  {
    var a := Preamble();
    AllRestateAppend(c, a, EntryLines(IconEntries()));
    a := a + EntryLines(IconEntries());
    AllRestateAppend(c, a, ColorHeading());
    a := a + ColorHeading();
    AllRestateAppend(c, a, EntryLines(ColorEntries()));
    a := a + EntryLines(ColorEntries());
    AllRestateAppend(c, a, GitHeading());
    a := a + GitHeading();
    AllRestateAppend(c, a, EntryLines(GitEntries()));
    a := a + EntryLines(GitEntries());
    AllRestateAppend(c, a, ExtensionHints());
    a := a + ExtensionHints();
    AllRestateAppend(c, a, FilenameHints());
  }

  /**
   * A file whose lines each restate `c`, and whose last line is not empty, loads
   * over `c` as `c` itself.
   */
  lemma RestatingFileLoadsAs(c: Config, ls: seq<string>)
    requires |ls| > 0 && |ls[|ls| - 1]| > 0 && AllRestate(c, ls)
    ensures ApplyLines(c, Lines(Join(ls, "\n"))) == c
  {
    LinesOfJoin(ls);
    ApplyAllNeutral(c, Parsed(ls));
  }

  lemma DefaultFileLinesRestate()
    ensures AllRestate(DefaultConfig(), DefaultFileLines())
  {
    DefaultFilePartsRestate();
    DefaultFileRestates(DefaultConfig());
  }

  lemma DefaultFileEndsInText()
    ensures |DefaultFileLines()| > 0 && |DefaultFileLines()[|DefaultFileLines()| - 1]| > 0
  {
    var ls := DefaultFileLines();
    assert ls[|ls| - 1] == FilenameHints()[4];
  }

  /** Loading the generated default file gives exactly the built-in defaults. */
  lemma GeneratedDefaultLoadsAsDefault()
    ensures Load(Contents(GenerateDefault())) == Ok(DefaultConfig())
  {
    DefaultFileLinesRestate();
    DefaultFileEndsInText();
    RestatingFileLoadsAs(DefaultConfig(), DefaultFileLines());
  }

  /**
   * The first arm of a string `match` that lists `n` among its patterns, as
   * Rust tries the arms top to bottom.
   */
  function FirstArm<T>(arms: seq<(seq<string>, T)>, n: string): (r: Option<nat>)
    ensures r.Some? ==> r.value < |arms| && n in arms[r.value].0
    ensures r.Some? ==> forall j :: 0 <= j < r.value ==> n !in arms[j].0
    ensures r.None? <==> forall j :: 0 <= j < |arms| ==> n !in arms[j].0
  {
    if |arms| == 0 then None
    else if n in arms[0].0 then Some(0)
    else match FirstArm(arms[1..], n)
      case None => None
      case Some(i) => Some(i + 1)
  }

  /** The value of the first arm that lists `n`, and `otherwise` when no arm lists it. */
  function ArmValue<T>(arms: seq<(seq<string>, T)>, n: string, otherwise: T): (r: T)
    ensures (forall j :: 0 <= j < |arms| ==> n !in arms[j].0) ==> r == otherwise
    ensures forall j :: (0 <= j < |arms| && n in arms[j].0 && forall i :: 0 <= i < j ==> n !in arms[i].0)
                        ==> r == arms[j].1
  {
    match FirstArm(arms, n)
    case None => otherwise
    case Some(i) => arms[i].1
  }

  /**
   * `parse_color`: the colour of the first arm that lists the lower-cased name,
   * and white for a name no arm lists.
   */
  function ParseColor(name: string): (r: Color)
    ensures (forall j :: 0 <= j < |ColorArms()| ==> ToLower(name) !in ColorArms()[j].0) ==> r == White
    ensures forall j :: (0 <= j < |ColorArms()| && ToLower(name) in ColorArms()[j].0
                         && forall i :: 0 <= i < j ==> ToLower(name) !in ColorArms()[i].0)
                        ==> r == ColorArms()[j].1
  {
    ArmValue(ColorArms(), ToLower(name), White)
  }

  /** Colour names are case-insensitive. */
  lemma ParseColorIgnoresCase(name: string)
    ensures ParseColor(name) == ParseColor(ToLower(name))
  {
    ToLowerIdempotent(name);
  }

  /** `purple` is another name of magenta. */
  lemma PurpleIsMagenta()
    ensures ParseColor("Purple") == Magenta
  {
    PurpleLower();
    PurpleArm();
  }

  lemma PurpleLower()
    ensures ToLower("Purple") == "purple"
  {
  }

  lemma PurpleArm()
    ensures "purple" in ColorArms()[5].0 && forall i :: 0 <= i < 5 ==> "purple" !in ColorArms()[i].0
  {
  }

  /** Names listed by exactly the same arms get the same value. */
  predicate SameArms<T>(arms: seq<(seq<string>, T)>, a: string, b: string) {
    forall j :: 0 <= j < |arms| ==> (a in arms[j].0 <==> b in arms[j].0)
  }

  lemma SameArmsSameValue<T>(arms: seq<(seq<string>, T)>, a: string, b: string, otherwise: T)
    requires SameArms(arms, a, b)
    ensures ArmValue(arms, a, otherwise) == ArmValue(arms, b, otherwise)
  {
  }

  /** The colours that also have a bright variant, in the order of the bright arms. */
  function BrightBases(): seq<string> {
    ["black", "red", "green", "yellow", "blue", "magenta", "cyan", "white"]
  }

  /** No plain colour arm lists a name starting with `br`. */
  lemma PlainArmsNotBright()
    ensures forall j, p :: 0 <= j < 8 && p in ColorArms()[j].0 ==> |p| < 2 || p[..2] != "br"
  {
    forall j, p | 0 <= j < 8 && p in ColorArms()[j].0
      ensures |p| < 2 || p[..2] != "br"
    {
      assert p[..2] == [p[0], p[1]];
    }
  }

  /** The last eight arms list `bright_<c>` and `bright<c>` for the colours `c` in order. */
  lemma BrightArmsShape()
    ensures |ColorArms()| == 16
    ensures forall j :: 8 <= j < 16 ==>
              ColorArms()[j].0 == ["bright_" + BrightBases()[j - 8], "bright" + BrightBases()[j - 8]]
    ensures forall i :: 0 <= i < 8 ==> |BrightBases()[i]| > 0 && BrightBases()[i][0] != '_'
  {
    forall j | 8 <= j < 16
      ensures ColorArms()[j].0 == ["bright_" + BrightBases()[j - 8], "bright" + BrightBases()[j - 8]]
    {
      assert ColorArms()[j].0 == BrightArm(BrightBases()[j - 8], ColorArms()[j].1).0;
    }
  }

  lemma NotBrightPattern(y: string, p: string)
    requires |p| < 2 || p[..2] != "br"
    ensures "bright_" + y != p && "bright" + y != p
  {
    assert ("bright_" + y)[..2] == "br";
    assert ("bright" + y)[..2] == "br";
  }

  lemma BrightPatternMatch(y: string, b: string)
    requires |b| > 0 && b[0] != '_' && (|y| == 0 || y[0] != '_')
    ensures "bright_" + y in ["bright_" + b, "bright" + b] <==> y == b
    ensures "bright" + y in ["bright_" + b, "bright" + b] <==> y == b
  {
    assert ("bright_" + y)[7..] == y && ("bright_" + b)[7..] == b;
    assert ("bright" + y)[6..] == y && ("bright" + b)[6..] == b;
    assert ("bright_" + y)[6] == '_' && ("bright" + b)[6] == b[0];
    assert ("bright_" + b)[6] == '_';
    if |y| > 0 {
      assert ("bright" + y)[6] == y[0];
    }
  }

  /** Lower-casing after a lower-case prefix leaves the prefix alone. */
  lemma ToLowerAfterLower(pre: string, x: string)
    requires forall i :: 0 <= i < |pre| ==> !('A' <= pre[i] <= 'Z')
    ensures ToLower(pre + x) == pre + ToLower(x)
  {
    var r := ToLower(pre + x);
    assert forall i :: 0 <= i < |pre| ==> r[i] == pre[i];
    assert forall i :: |pre| <= i < |r| ==> r[i] == ToLower(x)[i - |pre|];
  }

  /**
   * `bright_<c>` and `bright<c>` name the same colour, whatever `c` and its
   * case, unless `c` itself starts with `_`: `bright__red` is no colour while
   * `bright_red` is one.
   */
  lemma BrightSpellingsAgree(x: string)
    requires |x| == 0 || x[0] != '_'
    ensures ParseColor("bright_" + x) == ParseColor("bright" + x)
  {
    var y := ToLower(x);
    ToLowerAfterLower("bright_", x);
    ToLowerAfterLower("bright", x);
    var a, b := "bright_" + y, "bright" + y;
    PlainArmsNotBright();
    BrightArmsShape();
    forall j | 0 <= j < |ColorArms()|
      ensures a in ColorArms()[j].0 <==> b in ColorArms()[j].0
    {
      if j < 8 {
        forall p | p in ColorArms()[j].0
          ensures a != p && b != p
        {
          NotBrightPattern(y, p);
        }
      } else {
        BrightPatternMatch(y, BrightBases()[j - 8]);
      }
    }
    SameArmsSameValue(ColorArms(), a, b, White);
  }
}
