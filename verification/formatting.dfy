/**
 * The per-entry text of the listing (`display.rs`): the `ls -l` permission
 * string, the human-readable size, and the colour and weight of a name.
 */
module Formatting {
  import opened Wrappers
  import opened Text
  import opened FileInfo
  import opened Styling
  import opened Configuration
  import opened Git
  import opened Icons

  // ---------------------------------------------------------------------------
  // Permissions (`format_permissions`, `triplet`)
  // ---------------------------------------------------------------------------

  /** The type letter: symlink before directory before block and character device. */
  function TypeChar(m: Metadata): (c: char)
    ensures c == 'l' <==> IsSymlink(m)
    ensures c == 'd' <==> IsDir(m)
    ensures c == 'b' <==> m.fileType == BlockDevice
    ensures c == 'c' <==> m.fileType == CharDevice
    ensures c == '-' <==> m.fileType in {RegularFile, OtherFile}
  {
    match m.fileType
    case Symlink => 'l'
    case Directory => 'd'
    case BlockDevice => 'b'
    case CharDevice => 'c'
    case _ => '-'
  }

  /** `triplet`: read, write and execute letters of the low three bits of `t`. */
  function Triplet(t: bv32): (r: string)
    ensures |r| == 3
  {
    [if t & 4 != 0 then 'r' else '-', if t & 2 != 0 then 'w' else '-', if t & 1 != 0 then 'x' else '-']
  }

  /** `format_permissions`: the type letter, then the owner, group and other triplets. */
  function FormatPermissions(m: Metadata): (r: string)
    ensures |r| == 10 && r[0] == TypeChar(m)
  {
    [TypeChar(m)] + Triplet((m.mode >> 6) & 7) + Triplet((m.mode >> 3) & 7) + Triplet(m.mode & 7)
  }

  /** The letter `c` when the bit selected by `bit` is set, else `-`. */
  function Flag(bit: bv32, c: char): char {
    if bit != 0 then c else '-'
  }

  lemma OwnerTriplet(b: bv32)
    ensures Triplet((b >> 6) & 7) == [Flag(b & 0x100, 'r'), Flag(b & 0x80, 'w'), Flag(b & 0x40, 'x')]
  {
    assert (b >> 6) & 7 & 4 != 0 <==> b & 0x100 != 0;
    assert (b >> 6) & 7 & 2 != 0 <==> b & 0x80 != 0;
    assert (b >> 6) & 7 & 1 != 0 <==> b & 0x40 != 0;
  }

  lemma GroupTriplet(b: bv32)
    ensures Triplet((b >> 3) & 7) == [Flag(b & 0x20, 'r'), Flag(b & 0x10, 'w'), Flag(b & 0x8, 'x')]
  {
    assert (b >> 3) & 7 & 4 != 0 <==> b & 0x20 != 0;
    assert (b >> 3) & 7 & 2 != 0 <==> b & 0x10 != 0;
    assert (b >> 3) & 7 & 1 != 0 <==> b & 0x8 != 0;
  }

  lemma OtherTriplet(b: bv32)
    ensures Triplet(b & 7) == [Flag(b & 0x4, 'r'), Flag(b & 0x2, 'w'), Flag(b & 0x1, 'x')]
  {
    assert b & 7 & 4 != 0 <==> b & 0x4 != 0;
    assert b & 7 & 2 != 0 <==> b & 0x2 != 0;
    assert b & 7 & 1 != 0 <==> b & 0x1 != 0;
  }

  /**
   * The permission string letter by letter: after the type letter, owner,
   * group and other each show `r`, `w`, `x` exactly where their bit is set.
   */
  lemma PermissionString(m: Metadata)
    ensures var r, b := FormatPermissions(m), m.mode;
            && r[1] == Flag(b & 0x100, 'r') && r[2] == Flag(b & 0x80, 'w') && r[3] == Flag(b & 0x40, 'x')
            && r[4] == Flag(b & 0x20, 'r') && r[5] == Flag(b & 0x10, 'w') && r[6] == Flag(b & 0x8, 'x')
            && r[7] == Flag(b & 0x4, 'r') && r[8] == Flag(b & 0x2, 'w') && r[9] == Flag(b & 0x1, 'x')
  {
    var r, b := FormatPermissions(m), m.mode;
    OwnerTriplet(b);
    GroupTriplet(b);
    OtherTriplet(b);
    assert r[1..4] == Triplet((b >> 6) & 7);
    assert r[4..7] == Triplet((b >> 3) & 7);
    assert r[7..] == Triplet(b & 7);
  }

  /** The mode bits a permission string shows: the partner of `FormatPermissions`. */
  function ShownBits(s: string): (b: bv32)
    requires |s| == 10
  {
    (if s[1] != '-' then 0x100 else 0) | (if s[2] != '-' then 0x80 else 0) | (if s[3] != '-' then 0x40 else 0)
    | (if s[4] != '-' then 0x20 else 0) | (if s[5] != '-' then 0x10 else 0) | (if s[6] != '-' then 0x8 else 0)
    | (if s[7] != '-' then 0x4 else 0) | (if s[8] != '-' then 0x2 else 0) | (if s[9] != '-' then 0x1 else 0)
  }

  /** The permission string shows exactly the nine permission bits of the mode. */
  lemma PermissionsRoundTrip(m: Metadata)
    ensures ShownBits(FormatPermissions(m)) == m.mode & 0x1FF
  {
    PermissionString(m);
    var b := m.mode;
    assert ShownBits(FormatPermissions(m)) ==
      (b & 0x100) | (b & 0x80) | (b & 0x40) | (b & 0x20) | (b & 0x10) | (b & 0x8) | (b & 0x4) | (b & 0x2) | (b & 0x1);
  }

  /** The icon module's executable test is an `x` in some triplet of the permission string. */
  lemma ExecutableShowsX(m: Metadata)
    ensures var r := FormatPermissions(m);
            IsExecutable(m) <==> r[3] == 'x' || r[6] == 'x' || r[9] == 'x'
  {
    PermissionString(m);
    ExecutableBits(m);
  }

  // ---------------------------------------------------------------------------
  // Sizes (`format_size`)
  // ---------------------------------------------------------------------------

  const KB: nat := 1024
  const MB: nat := KB * 1024
  const GB: nat := MB * 1024
  const TB: nat := GB * 1024

  /**
   * `format_size`. Below 1024 the size is written in bytes; above, in the
   * largest unit it reaches, through `oneDecimal(size, unit)`, the `{:.1}`
   * rendering of `size / unit` as a float.
   */
  function FormatSize(size: nat, oneDecimal: (nat, nat) -> string): (r: string)
    ensures size < KB ==> r == NatToString(size) + "B"
    ensures KB <= size < MB ==> r == oneDecimal(size, KB) + "K"
    ensures MB <= size < GB ==> r == oneDecimal(size, MB) + "M"
    ensures GB <= size < TB ==> r == oneDecimal(size, GB) + "G"
    ensures TB <= size ==> r == oneDecimal(size, TB) + "T"
  {
    if size >= TB then oneDecimal(size, TB) + "T"
    else if size >= GB then oneDecimal(size, GB) + "G"
    else if size >= MB then oneDecimal(size, MB) + "M"
    else if size >= KB then oneDecimal(size, KB) + "K"
    else NatToString(size) + "B"
  }

  /** A size under 1024 is shown as its decimal digits and `B`, which read back as the size. */
  lemma SmallSizeReadsBack(size: nat, oneDecimal: (nat, nat) -> string)
    requires size < KB
    ensures var r := FormatSize(size, oneDecimal);
            && |r| >= 2 && r[|r| - 1] == 'B'
            && (forall i :: 0 <= i < |r| - 1 ==> IsDigit(r[i]))
            && DecimalValue(r[..|r| - 1]) == size
  {
    var r := FormatSize(size, oneDecimal);
    assert r[..|r| - 1] == NatToString(size);
  }

  // ---------------------------------------------------------------------------
  // Names (`colorize_name`)
  // ---------------------------------------------------------------------------

  /** The statuses that colour a name in place of its file type. */
  predicate ColorsName(s: Option<GitStatus>) {
    s == Some(Modified) || s == Some(Staged) || s == Some(Untracked)
  }

  /** The colour name of the file-type category of `m`. */
  function TypeColor(colors: ColorsConfig, m: Metadata): string {
    if IsDir(m) then colors.directory
    else if IsSymlink(m) then colors.symlink
    else if IsExecutable(m) then colors.executable
    else colors.file
  }

  function StatusColor(colors: ColorsConfig, s: GitStatus): string {
    match s
    case Modified => colors.gitModified
    case Staged => colors.gitStaged
    case _ => colors.gitUntracked
  }

  /**
   * `colorize_name`: a modified, staged or untracked path takes its status
   * colour, anything else the colour of its file type; directories are always
   * bold, and so are executables coloured by type.
   */
  function ColorizeName(colors: ColorsConfig, name: string, m: Metadata, s: Option<GitStatus>): (r: Segment)
    ensures r.text == name && r.style.Colored?
    ensures ColorsName(s) ==> r.style.color == ParseColor(StatusColor(colors, s.value))
    ensures !ColorsName(s) ==> r.style.color == ParseColor(TypeColor(colors, m))
    ensures r.style.bold <==> IsDir(m) || (!ColorsName(s) && !IsSymlink(m) && IsExecutable(m))
  {
    match s
    case Some(Modified) => Segment(name, Colored(ParseColor(colors.gitModified), IsDir(m)))
    case Some(Staged) => Segment(name, Colored(ParseColor(colors.gitStaged), IsDir(m)))
    case Some(Untracked) => Segment(name, Colored(ParseColor(colors.gitUntracked), IsDir(m)))
    case _ =>
      if IsDir(m) then Segment(name, Colored(ParseColor(colors.directory), true))
      else if IsSymlink(m) then Segment(name, Colored(ParseColor(colors.symlink), false))
      else if IsExecutable(m) then Segment(name, Colored(ParseColor(colors.executable), true))
      else Segment(name, Colored(ParseColor(colors.file), false))
  }

  /**
   * The status glyph of a modified, staged or untracked path is drawn in the
   * colour of the name beside it, never bold.
   */
  lemma GlyphSharesNameColour(c: Config, name: string, m: Metadata, s: Option<GitStatus>)
    requires ColorsName(s)
    ensures FormatGitStatus(c, s).style == Colored(ColorizeName(c.colors, name, m, s).style.color, false)
  {
  }

  /** Ignored, clean and unknown paths are coloured alike: by file type only. */
  lemma QuietStatusesColorByType(colors: ColorsConfig, name: string, m: Metadata, a: Option<GitStatus>, b: Option<GitStatus>)
    requires !ColorsName(a) && !ColorsName(b)
    ensures ColorizeName(colors, name, m, a) == ColorizeName(colors, name, m, b)
  {
  }

  /** A status colour does not depend on the file type, only the weight does. */
  lemma StatusColorIgnoresType(colors: ColorsConfig, name: string, m1: Metadata, m2: Metadata, s: Option<GitStatus>)
    requires ColorsName(s) && IsDir(m1) == IsDir(m2)
    ensures ColorizeName(colors, name, m1, s) == ColorizeName(colors, name, m2, s)
  {
  }
}
