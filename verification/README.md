# lsnote in Dafny

A model of the core of `lsnote`, an `ls` replacement written in Rust. It lists
a directory flat or as a tree. Each entry can show:

- a git status glyph;
- an icon;
- a colour chosen by file type or git status;
- a note kept in a flat `path: note` store.

The model keeps the decisions the program makes and lifts out the processes,
the filesystem and the terminal. Every function is total over immutable data.

| module | file | models |
|---|---|---|
| `Wrappers` | `wrappers.dfy` | `Option` and `Result` |
| `Text` | `text.dfy` | the Rust string operations the core relies on (see below) |
| `Paths` | `paths.dfy` | paths as component sequences; `Path` ordering; `join`, `file_name`, `extension` |
| `Styling` | `styling.dfy` | the sixteen `colored` colours; a line as a sequence of styled runs |
| `FileInfo` | `fileinfo.dfy` | the metadata record: file type, mode word, size, blocks, links |
| `ConfigTables` | `config_tables.dfy` | the built-in extension and file-name icon tables; the `parse_color` arms |
| `Configuration` | `config.dfy` | the settings, their defaults, `Config::load`, `Config::set`, `generate_default`, `parse_color` |
| `Git` | `git.rs` logic in `git.dfy` | porcelain parsing and classification, priorities, the upward propagation pass, `format_git_status` |
| `Icons` | `icons.dfy` | `get_icon`, `is_executable` |
| `Notes` | `notes.dfy` | `load_notes`, `save_notes`, `set_note`, `get_note`, `remove_note` |
| `Entries` | `entries.dfy` | `get_sorted_entries`: read errors, hidden names, the stable case-insensitive sort |
| `Formatting` | `formatting.dfy` | `format_permissions`, `triplet`, `format_size`, `colorize_name` |
| `Listing` | `listing.dfy` | `print_entry` and the short and long line formats; `list_directory`; `print_tree` |

The `Text` module models these Rust string operations:

- `str::trim`, `split_once` and `lines`;
- byte length and char boundaries;
- `str` ordering;
- decimal rendering and column padding.

## How the model stands in for the program

**Paths.** A path is the sequence of its normal components; the leading `/`
is implicit. Rust's `Path` ordering, used by the `p < git_root` stop test,
becomes component-wise lexicographic order (`Paths.PathLess`).

**Directories.** A directory is a `Listing.Node` holding everything the
program would read about it:

- the `file_name`;
- the canonical key;
- `symlink_metadata` and `metadata`;
- the note;
- owner and group names;
- the rendered modification time;
- the link target;
- the `get_git_statuses` map of the node as a directory;
- the result of `read_dir`, whose entries are nodes again.

Each field is an input of the model, not a computation.

**Git.** The three git commands become a `Git.GitProbe` holding:

- the work-tree flag;
- the top-level path. This is the trimmed stdout of `--show-toplevel`, which is empty when that command exits non-zero. The canonical directory is used only when git cannot be spawned or prints non-UTF-8;
- the porcelain output, or its absence.

`Git.GitStatuses` is `get_git_statuses` over a probe. For a file argument,
`Listing.FileStatuses` chooses the directory git is asked about
(`Listing.StatusDirectory`, the argument's `parent` or `.`). The result reaches
`Listing.ListDirectory` as its `parentStatuses` input.

**Notes and configuration files.** The notes file and the configuration file
are values:

- `Notes.NotesSource`, including a line on which reading fails;
- `Configuration.ConfigFile`, covering a missing file, an unreadable file, or
  no data directory.

A notes command is a function from a `Notes.NotesEnv` to an `Outcome`: the
reply, plus the new file text when the file is rewritten.

**Output.** Printing becomes a sequence of `Styling.Line` values. The
unstyled text of a line is `Styling.LineText`.

**Configuration.** The global `OnceLock` configuration becomes a `Config`
value passed explicitly (`Configuration.GetConfig` is `get_config`).

## Model

| member | source | states |
|---|---|---|
| Git.Priority | src/git.rs:24-32 | priorities are at most 3, and a priority is 0 exactly for Ignored and Clean |
| Git.PriorityRanks | src/git.rs:24-32 | one kind outranks another exactly in the order Modified > Staged > Untracked > Ignored = Clean |
| Git.Classify | src/git.rs:81-87 | each kind is characterised by its pair, first match winning: `??` Untracked, `!!` Ignored, a second character in `MDA` Modified, else a first character in `MADRC` Staged, else Clean |
| Git.ParseLine | src/git.rs:73-77 | a line under 4 bytes is skipped; slicing at byte 3 panics exactly when no character starts there; otherwise the entry is the first two characters and the trimmed text from the character at byte 3 |
| Git.ParseAsciiLine | src/git.rs:76-77 | when the first three characters are ASCII the path is the trimmed text from character 3 |
| Git.Scan | src/git.rs:72-79 | a successful pass gives at most one report per line |
| Git.ScanFailsOnPanic | src/git.rs:72-77 | the pass over the lines fails exactly when some line panics |
| Git.ReportsFailOnPanic | src/git.rs:72-77 | porcelain lines fail to produce reports exactly when one of them panics |
| Git.ScanAppend | src/git.rs:72-79 | scanning two runs of parsed lines is scanning each in turn |
| Git.ReportsAppend | src/git.rs:72-79 | the reports of two runs of porcelain lines are the reports of each, in order |
| Git.ReportsOfLine | src/git.rs:73-79 | one line contributes nothing when short, its joined path and kind when it parses, a panic otherwise |
| Git.Raise | src/git.rs:99-107 | raising adds the ancestor as a key and leaves every other key's kind alone |
| Git.StopBelow | src/git.rs:93-97 | the walk stops at the first ancestor ordered below the root, and none of the ancestors it passes is |
| Git.Targets | src/git.rs:92-110 | the walk visits only proper ancestors of the path, none of them ordered below the root |
| Git.Climb | src/git.rs:92-110 | the loop's result: visited ancestors that were absent take the kind, present ones take it only when strictly outranked, all other keys are unchanged |
| Git.Record | src/git.rs:89-110 | the path's own entry is overwritten unconditionally, then its ancestors are raised |
| Git.StopAtRoot | src/git.rs:93-97 | for a path under the root the walk stops right after the root |
| Git.TargetsUnderRoot | src/git.rs:92-97 | for a path under the root the walk visits exactly its ancestors at or below the root, the root included |
| Git.RecordUnderRoot | src/git.rs:89-110 | after one report: its entry holds its kind; every ancestor up to the root is present with at least its priority; no other key loses priority; new keys lie on the walk |
| Git.CollectKeys | src/git.rs:72-110 | the keys after the pass are the starting keys and the paths some report names or walks over |
| Git.KeysUnderRoot | src/git.rs:92-97 | with every report under the root, every key is the root or below it |
| Git.NothingAboveRoot | src/git.rs:93-97 | whatever the reports, a key ordered below the root is one a report named itself |
| Git.LastReportWins | src/git.rs:89 | a path's last report decides its kind when no later report names it or walks over it |
| Git.DominantDescendant | src/git.rs:92-110 | an unreported directory under the root is a key exactly when some report lies below it, and then has the highest priority among them |
| Git.MaxBelowBounds | src/git.rs:99-107 | the highest priority below a directory is defined exactly when some report lies below it, and bounds every such report |
| Git.MaxBelowAttained | src/git.rs:99-107 | the highest priority below a directory is reached by some report below it |
| Git.FirstMaxWins | src/git.rs:99-107 | an unreported directory under the root takes the kind of the first report below it that reaches the highest priority there, so at priority 0 Ignored and Clean are told apart by which came first |
| Git.TieKeepsFirstWriter | src/git.rs:100-103 | on equal priority the ancestor keeps the first writer's kind (Ignored before Clean) |
| Git.TieStep | src/git.rs:100-107 | two reports of equal priority below one ancestor leave the first one's kind there |
| Git.ModifiedBelowWins | src/git.rs:92-110 | a modified report below an unreported directory under the root makes the directory Modified |
| Git.ModifiedChildDominates | src/git.rs:72-110 | staged `a.txt` and modified `b/c.txt` make both `b` and the root Modified |
| Git.GitStatuses | src/git.rs:38-116 | outside a work tree or when the status command fails the map is empty; otherwise it is the pass over the porcelain lines, failing exactly when a line panics |
| Git.FormatGitStatus | src/git.rs:119-131 | clean and unknown paths show one blank; every other kind is coloured and not bold; Ignored is its glyph in bright black |
| Git.GlyphsAreConfigured | src/git.rs:124-128 | each of the four kinds shows its configured glyph |
| Git.DefaultGlyphsDistinguishKinds | src/git.rs:119-131 | with the default glyphs every status column is one character, blank exactly for clean and unknown paths, and distinct kinds show distinct glyphs |
| Paths.Components | src/git.rs:79 | a joined path consists of normal components only |
| Paths.ProperPrefixIsLess | src/git.rs:95 | a proper ancestor is ordered below its descendant |
| Paths.DescendantNotLess | src/git.rs:95 | a path is never ordered below one of its ancestors, so the root itself passes the stop test |
| Paths.PrefixesOfOnePath | src/git.rs:95 | of two ancestors of one path the shorter, and only the shorter, is ordered below the other |
| Paths.ParentText | src/display.rs:166 | `parent` is none exactly for the root and the empty path, and shorter than the path otherwise |
| Paths.ParentOfJoined | src/display.rs:166 | the parent of `dir/name` is `dir` |
| Paths.ParentOfBareName | src/display.rs:166 | the parent of a bare name is the empty path, so the `.` fallback does not apply |
| Paths.FileName | src/display.rs:145-146 | a file name is a normal component other than `..` |
| Paths.Extension | src/icons.rs:36 | the extension is the text after the last dot of the file name, which is not its first character, and holds no dot |
| Text.Trim | src/config.rs:236 | the result has no white space at either end, is a slice of the input, and only white space lies outside it |
| Text.TrimOfTrimmed | src/config.rs:242 | trimming text without white space at its ends changes nothing |
| Text.TrimPadded | src/config.rs:242 | trimming a trimmed text between runs of white space gives the text back |
| Text.TrimKeepsFirst | src/config.rs:236-237 | text that does not start with white space keeps its first character when trimmed |
| Text.ToLower | src/icons.rs:28 | each character is lower-cased in place, and no upper-case letter remains |
| Text.ToLowerIdempotent | src/config.rs:346 | lower-casing twice is lower-casing once |
| Text.IndexOf | src/notes.rs:32 | the first position where the pattern occurs, or none when it never does |
| Text.SplitOnce | src/notes.rs:32 | the text is the part before, the pattern and the part after, the pattern not occurring earlier; none exactly when it never occurs |
| Text.SplitOnceAt | src/notes.rs:32 | splitting `a + pat + b` with no earlier occurrence gives back `a` and `b` |
| Text.SplitOnceChar | src/config.rs:241 | splitting at `=` fails exactly when there is none, and the key holds no `=` |
| Text.Lines | src/config.rs:235 | no line holds a line break, and text is empty exactly when it has no lines |
| Text.LinesOfTerminated | src/notes.rs:31 | text written as newline-terminated lines reads back as those lines when none holds a line break or ends with a carriage return |
| Text.LinesOfTerminatedStrip | src/notes.rs:31 | newline-terminated lines without line breaks read back each less one final carriage return |
| Text.LinesOfJoin | src/config.rs:319 | lines joined with newlines read back as those lines under the same conditions, the last line not being empty |
| Text.ByteLen | src/git.rs:73 | the UTF-8 length lies between the character count and four times it |
| Text.CharsBeforeByte | src/git.rs:77 | the character count before a byte offset exactly when a character starts there |
| Text.CharsBeforeByteAscii | src/git.rs:77 | in ASCII text byte `n` starts character `n` |
| Text.LessTransitive | src/notes.rs:47 | the string order is transitive |
| Text.LessTotal | src/notes.rs:47 | any two strings are equal or ordered one way |
| Text.LessIrreflexive | src/notes.rs:47 | no string is below itself |
| Text.NatToString | src/display.rs:46 | the decimal digits of a number read back as the number, with no leading zero |
| Text.PadLeft | src/display.rs:324 | right alignment: blanks then the text, filling the width when the text is shorter |
| Text.PadRight | src/display.rs:364 | left alignment: the text then blanks, filling the width when the text is shorter |
| Entries.Insert | src/display.rs:153-157 | insertion keeps the elements, adds one, and keeps a sorted sequence sorted |
| Entries.SortBy | src/display.rs:153-157 | the sort is a permutation in non-decreasing key order |
| Entries.InsertWithKey | src/display.rs:153-157 | inserting puts the new element before every element of equal key |
| Entries.SortKeepsTies | src/display.rs:153-157 | the sort is stable: the elements of any one key keep their order |
| Entries.SortedPairwise | src/display.rs:153-157 | in sorted output every earlier key is at most every later one |
| Entries.Present | src/display.rs:139 | the entries that read are kept, in order |
| Entries.Visible | src/display.rs:141-150 | with `show_all` nothing is filtered, otherwise exactly the hidden names are dropped |
| Entries.SortedEntries | src/display.rs:132-160 | a read error gives nothing; otherwise the result is a permutation of the visible entries, sorted by lower-cased name |
| Entries.EntriesShown | src/display.rs:138-151 | an entry is listed exactly when it read and is not hidden, unless `show_all`, which keeps every entry that read |
| Entries.EntriesStable | src/display.rs:153-157 | entries with equal lower-cased names keep their read order |
| Formatting.TypeChar | src/display.rs:104-114 | the type letter: `l` for symlinks, `d` for directories, `b` and `c` for devices, `-` otherwise |
| Formatting.Triplet | src/display.rs:124-129 | a triplet has three letters |
| Formatting.FormatPermissions | src/display.rs:101-121 | the permission string has ten letters and starts with the type letter |
| Formatting.PermissionString | src/display.rs:116-128 | each of the nine letters is `r`, `w` or `x` exactly when its mode bit is set |
| Formatting.PermissionsRoundTrip | src/display.rs:101-129 | the permission string shows exactly the nine low mode bits |
| Formatting.ExecutableShowsX | src/icons.rs:52-55 | a file is executable exactly when its permission string shows an `x` |
| Formatting.FormatSize | src/display.rs:31-48 | the unit is the largest reached of K, M, G, T, and plain bytes below 1024 |
| Formatting.SmallSizeReadsBack | src/display.rs:45-46 | a size below 1024 is its decimal digits and `B`, which read back as the size |
| Formatting.ColorizeName | src/display.rs:51-98 | Modified, Staged and Untracked give the status colour, anything else the file-type colour; directories are always bold, and so are executables coloured by type |
| Formatting.GlyphSharesNameColour | src/git.rs:125-127 | the glyph of a modified, staged or untracked path has the same colour as that path's name, and is not bold |
| Formatting.QuietStatusesColorByType | src/display.rs:81-96 | Ignored, Clean and unknown paths are coloured alike |
| Formatting.StatusColorIgnoresType | src/display.rs:56-80 | a status colour does not depend on the file type |
| Icons.ExecutableBits | src/icons.rs:52-55 | executable exactly when an owner, group or other execute bit is set |
| Icons.ExtensionIcon | src/icons.rs:36-40 | the icon of the lower-cased extension, when the table has it |
| Icons.GetIcon | src/icons.rs:16-49 | the chain: directory, symlink, lower-cased file name, lower-cased extension, executable, file |
| Icons.IconIsConfigured | src/icons.rs:16-49 | every icon shown is one the configuration holds |
| Icons.FileTypeIconIgnoresName | src/icons.rs:21-26 | directories and symlinks get their icon whatever their name |
| Icons.FilenameIconIgnoresCase | src/icons.rs:28-33 | names equal once lower-cased share their file-name icon |
| Icons.ExecutableIconOnlyWithoutTableMatch | src/icons.rs:43-45 | with a distinct executable icon it shows exactly for an executable non-directory non-symlink that no table names |
| Icons.CargoTomlUsesFilenameIcon | src/icons.rs:28-40 | `Cargo.toml` gets the file-name icon, not the `toml` extension icon |
| ConfigTables.CargoTomlIcon | src/config.rs:167 | the default file-name table gives `cargo.toml` the crab |
| Configuration.SettingOf | src/config.rs:250-273 | `icon.ext.` keys name the extension as written, `icon.name.` keys the lower-cased name, and only such keys give no exact setting |
| Configuration.IconKeysReachTables | src/config.rs:249-273 | a key starting with `icon.ext.` sets the extension table entry for the text after the prefix, as written, and a key starting with `icon.name.` sets the file-name entry for the rest lower-cased; no exact key shadows either prefix |
| Configuration.Write | src/config.rs:251-273 | after a write the setting holds the value and every other setting is unchanged |
| Configuration.WriteCurrent | src/config.rs:251-273 | writing the value a setting already holds changes nothing |
| Configuration.SetTwice | src/config.rs:249-276 | setting a key twice keeps only the second value |
| Configuration.ReadAfterSet | src/config.rs:249-276 | after `set` the named setting holds the value; unknown keys change nothing |
| Configuration.Assignment | src/config.rs:236-243 | a line assigns nothing exactly when it trims to empty, starts with `#` or has no `=`; key and value are trimmed |
| Configuration.Parsed | src/config.rs:235-244 | each line is parsed on its own |
| Configuration.ReadAfterAssignment | src/config.rs:241-243 | one line changes only the setting it assigns |
| Configuration.LastAssignmentWins | src/config.rs:235-244 | the last line assigning a setting decides it |
| Configuration.UnassignedSettingKept | src/config.rs:235-244 | a setting no line assigns keeps its value |
| Configuration.ApplyAllAppend | src/config.rs:235-244 | loading two runs of lines is loading each in turn |
| Configuration.ApplyAllNeutral | src/config.rs:235-244 | lines that each change nothing change nothing together |
| Configuration.SpacedAssignment | src/config.rs:241-243 | `key = value` assigns the value to the key, spaces dropped |
| Configuration.CommentAssignsNothing | src/config.rs:237-239 | a comment line assigns nothing |
| Configuration.Load | src/config.rs:224-247 | defaults for a missing file, the read error for an unreadable one, else the defaults overridden line by line |
| Configuration.GetConfig | src/config.rs:18-20 | the loaded configuration, or the defaults when loading fails |
| Configuration.RestatingFileLoadsAs | src/config.rs:235-244 | a file whose every line restates a configuration loads over it as itself |
| Configuration.DefaultFileRestates | src/config.rs:279-320 | when every section of the generated file restates a configuration, the whole file does |
| Configuration.GeneratedDefaultLoadsAsDefault | src/config.rs:279-320 | loading the generated default file gives exactly the built-in defaults |
| Configuration.FirstArm | src/config.rs:346-364 | the first arm listing the name, or none when no arm does |
| Configuration.ArmValue | src/config.rs:346-364 | the value of the first arm listing the name, else the fallback |
| Configuration.ParseColor | src/config.rs:345-365 | the colour of the first arm listing the lower-cased name; white when no arm lists it |
| Configuration.ParseColorIgnoresCase | src/config.rs:346 | colour names are case-insensitive |
| Configuration.PurpleIsMagenta | src/config.rs:352 | `Purple` is magenta |
| Configuration.BrightSpellingsAgree | src/config.rs:355-362 | `bright_<c>` and `bright<c>` name the same colour whatever `c`, unless `c` starts with `_` |
| Notes.ReadLines | src/notes.rs:29-31 | no file gives no lines; otherwise the lines of the text up to the first one that fails to read |
| Notes.NoteEntry | src/notes.rs:32-33 | a line without `: ` is no entry; otherwise it is path, separator, note, split at the first separator |
| Notes.LoadedKeys | src/notes.rs:31-35 | the paths loaded are exactly those some line is an entry for |
| Notes.LaterLineWins | src/notes.rs:33 | the last line naming a path decides its note |
| Notes.LineWithoutSeparatorIgnored | src/notes.rs:32-34 | a line without `: ` changes nothing |
| Notes.SortedKeys | src/notes.rs:46-47 | the paths in strictly ascending order, each once |
| Notes.SaveLines | src/notes.rs:46-51 | one `path: note` line per entry, in ascending path order |
| Notes.NoteLineReadsBack | src/notes.rs:32-33 | a saved line reads back as its entry when the path holds no `: ` or line break |
| Notes.SavedLinesReadBack | src/notes.rs:46-51 | each saved line reads back as the entry of its path |
| Notes.SavedTextLines | src/notes.rs:49-51 | the saved text splits back into the saved lines |
| Notes.LoadDistinctEntries | src/notes.rs:31-35 | lines naming each path once with its note load as exactly those entries |
| Notes.SaveLoadRoundTrip | src/notes.rs:21-54 | saving and reloading a storable store gives it back |
| Notes.Reloaded | src/notes.rs:31-51 | the store as it reads back once written has the same paths, each note less one final `\r` |
| Notes.SaveLoadReloaded | src/notes.rs:21-54 | saving and reloading any store whose paths fit and whose notes hold no line break gives each note back less one final `\r` |
| Notes.LoadNotesWritable | src/notes.rs:21-39 | every store loaded from a file has paths that fit the line format and notes without line breaks |
| Notes.LoadedIsStorable | src/notes.rs:31-35 | a store loaded from lines none of which ends in `\r` is storable |
| Notes.Save | src/notes.rs:42-54 | the new text, or the write error with nothing written |
| Notes.SetNote | src/notes.rs:64-69 | an unresolvable path is an error; otherwise the loaded store with the note set is saved |
| Notes.GetNote | src/notes.rs:72-76 | no note for an unresolvable path; otherwise the loaded store's note, present exactly when the path is a key |
| Notes.RemoveNote | src/notes.rs:79-88 | a path without a note is "No note found" and writes nothing; otherwise the store without it is saved |
| Notes.SetThenGet | src/notes.rs:64-76 | after setting, the path's note is the one set; every other path keeps its note less one final `\r`, and keeps it unchanged when the loaded store is storable |
| Notes.RemoveThenGet | src/notes.rs:79-85 | after removing, the path has no note; every other path keeps its note less one final `\r`, and keeps it unchanged when the loaded store is storable |
| Notes.SettingAnotherNoteDropsCr | src/notes.rs:64-69 | setting one note changes another path's note when that note ends with a `\r` |
| Notes.CrNoteLoads | src/notes.rs:29-35 | a file whose last line `/a: x\r` has no final line break loads the note `x\r` |
| Listing.ChildRead | src/display.rs:138-140 | every entry listed is one `read_dir` yielded |
| Listing.StatusOf | src/display.rs:241-245 | a status is shown only with `show_git` and only for a path in the map |
| Listing.EntryLines | src/display.rs:280-298 | an entry prints one line when its own metadata reads, none otherwise |
| Listing.LongLineStartsWithMode | src/display.rs:363-365 | a long line starts with the ten-letter permission string and a blank |
| Listing.ListDirectory | src/display.rs:163-199 | a file is listed alone with its parent's statuses; it is an error exactly when a non-directory lists nothing; otherwise the optional `total` line and then the entries |
| Listing.EntriesLinesCount | src/display.rs:196-198 | the entries print one line per entry with readable metadata |
| Listing.ListingLineCount | src/display.rs:186-198 | a directory listing prints one line per readable entry, after the `total` line in the long format |
| Listing.FileUsesParentStatuses | src/display.rs:164-171 | a file's line depends on its parent's statuses only, and its git column, first in the short format and after the fixed columns in the long format, is its status there |
| Listing.FileStatuses | src/display.rs:164-170 | no statuses without `show_git` or for a bare name's empty parent directory, where starting git fails; otherwise git's statuses for the parent |
| Listing.BareFileNameShowsNoStatus | src/display.rs:164-171 | a file named without a directory always shows a blank status column |
| Listing.DotSlashFileUsesGit | src/display.rs:164-171 | the same file named `./name` takes its statuses from git in `.` |
| Listing.TotalBlocksAppend | src/display.rs:188-192 | the block sum of two runs of entries is the sum of each |
| Listing.TotalIgnoresOrder | src/display.rs:188-192 | the block sum does not depend on the order of the entries |
| Listing.TotalOfVisibleEntries | src/display.rs:186-193 | `total` counts the visible entries as read, whatever the sort did |
| Listing.TreeEntry | src/display.rs:266-269 | an entry line starts with the prefix and the connector, the corner exactly for the last entry |
| Listing.DirectoryBlock | src/display.rs:272-275 | a directory entry is followed by its own entries under the prefix extended by one indent |
| Listing.LeafBlock | src/display.rs:272 | any other entry, a symlink to a directory included, has its line alone |
| Listing.NestedTree | src/display.rs:212 | below the top level a tree has no header |
| Listing.GutterExtend | src/display.rs:273 | a line one level down starts with the parent's prefix and then a bar or a blank |
| Listing.TreeGutters | src/display.rs:223-276 | every line under an entry starts with the prefix, bars and blanks, then one connector |
| Listing.SubtreeGutters | src/display.rs:272-275 | the lines under an entry start with the prefix extended by its indent |
| Listing.HeaderOnlyAtTop | src/display.rs:212-221 | the header appears exactly at the top call, first; every other line is an entry or nested line |
| Listing.NotLastAvoidsCorner | src/display.rs:224-230 | the lines of an entry that is not last never show the corner at this level |
| Listing.BlocksAvoidCorner | src/display.rs:224-230 | no line of the entries before the last shows the corner at this level |
| Listing.ReadableLastTakesCorner | src/display.rs:224-230 | a last entry that reads shows the corner, and nothing before it at this level does |
| Listing.UnreadableLastLeavesNoCorner | src/display.rs:224-235 | when the last entry's metadata fails no line of the directory shows the corner at this level |
| Listing.TreeLineText | src/display.rs:266-269 | without colours, a tree line is the prefix, the connector and the short-format line |

## Left out

- The git processes, `canonicalize`, `read_dir`, `symlink_metadata`, `metadata`, `read_link`, and the notes and configuration file reads and writes. Their results are inputs (`Git.GitProbe`, `Listing.Node`, `Notes.NotesSource`, `Configuration.ConfigFile`).
- `init_config`, `get_data_dir` and `get_notes_path`. They are filesystem plumbing; a missing data directory is an input (`NoDataDir`, `NoNotes`).
- `src/main.rs`. It is argument parsing, the clipboard and dispatch, which are outside this model.
- `colored`'s ANSI escapes. A line is a sequence of styled runs, and the escapes themselves are not generated.
- Unicode `to_lowercase` and non-ASCII `is_whitespace` subtleties. Lower-casing is ASCII; white space is the Unicode `White_Space` set, written out.
- Formatting.FormatSize: the `{:.1}` float rendering of sizes of 1024 and more is a parameter (`oneDecimal`), because floating point is outside the model. Only the unit choice and the byte branch are stated.
- `chrono` date formatting and `users` name lookups. They are inputs of a node (`modified`, `owner`, `group`).
- Integer widths: sizes, block counts and link counts are unbounded. The `u64` sum of `total` cannot overflow for a real directory.
- Notes.Save: a write that fails part-way leaves a truncated file in the program. The model writes all or nothing.
- Notes.SetThenGet: requires the path to hold no `: ` or line break and the note to hold no line break and not end in `\r`. The program writes the note verbatim, and such a note reads back differently or as several entries.
- Git.DominantDescendant: stated for directories that have no report of their own. A reported directory's own entry is overwritten by its report and only later outranked from below.
- Git.FirstMaxWins: likewise stated for directories without a report of their own.
- Panics in the listing: `print_tree` and `list_directory` call `get_git_statuses` per directory, and a panic there aborts the program. Each node's `statuses` is taken to be a successful result; the panic itself is modelled in `Git.GitStatuses`.
- The `tree_view` option and the `_is_last` parameter of `print_tree`. Neither is read by the listing.
- Paths.PathLess: compares a `..` component as a string, while Rust orders it before every normal component. Porcelain paths and canonical roots contain no `..`.
- Paths.ParentText: works on the path as written and does not drop `.` components the way `Path::components` does, so `a/b/.` has the parent `a/b` here. Such a path is never a regular file, and only file arguments have their parent taken.

## Behaviours of the code worth knowing

- The porcelain length test and the slice at index 3 count bytes, not characters. A line whose byte 3 falls inside a multi-byte character panics and aborts the whole pass (`Git.ParseLine`, `Git.GitStatuses`).
- Untracked ranks strictly above Ignored and Clean, which rank alike (`Git.PriorityRanks`).
- When the last entry's metadata cannot be read, that entry prints nothing and no line of the directory shows the corner (`Listing.UnreadableLastLeavesNoCorner`).
- `total` sums the followed `metadata` of every listed entry. An entry that prints (its own metadata reads) but whose target cannot be followed adds nothing. An entry that does not print but can be followed adds its blocks.
- `list_directory` prints the "Error reading directory" message itself.
- A note that ends with a carriage return loads with it when it is on the file's last line without a line break, or on a line ending in `\r\r\n` (`Notes.CrNoteLoads`). Any later `set_note` or `remove_note`, on any path, rewrites the file and the carriage return is lost (`Notes.SettingAnotherNoteDropsCr`, `Notes.SaveLoadReloaded`).
- For a file argument, `path.parent()` of a bare name such as `README.md` is the empty path, not none, so the `.` fallback does not apply. `get_git_statuses("")` cannot start git in the empty directory and returns the empty map. A bare file name therefore never shows a git status, while `./README.md` does (`Listing.BareFileNameShowsNoStatus`, `Listing.DotSlashFileUsesGit`). This relies on the standard library's documented behaviour of `Path::parent` and `Command::current_dir`.
