/**
 * Icon selection (`icons.rs`): the directory and symlink icons first, then the
 * special-filename table under the lower-cased name, then the extension table
 * under the lower-cased extension, then the executable icon, then the plain
 * file icon.
 */
module Icons {
  import opened Wrappers
  import opened Text
  import opened Paths
  import opened FileInfo
  import opened Configuration
  import opened ConfigTables

  /** `is_executable`: some execute bit (owner, group or other) is set; 0x49 is octal 111. */
  predicate IsExecutable(m: Metadata) {
    m.mode & 0x49 != 0
  }

  lemma ExecutableBits(m: Metadata)
    ensures IsExecutable(m) <==> m.mode & 0x40 != 0 || m.mode & 0x8 != 0 || m.mode & 0x1 != 0
  {
  }

  /** The extension-table icon of `name`, looked up under its lower-cased extension. */
  function ExtensionIcon(icons: IconsConfig, name: string): (r: Option<string>)
    ensures r.Some? <==> Extension(name).Some? && ToLower(Extension(name).value) in icons.extensions
    ensures r.Some? ==> r.value == icons.extensions[ToLower(Extension(name).value)]
  {
    match Extension(name)
    case None => None
    case Some(ext) =>
      if ToLower(ext) in icons.extensions then Some(icons.extensions[ToLower(ext)]) else None
  }

  /** `get_icon`. */
  function GetIcon(icons: IconsConfig, name: string, m: Metadata): (r: string)
    ensures IsDir(m) ==> r == icons.directory
    ensures IsSymlink(m) ==> r == icons.symlink
    ensures !IsDir(m) && !IsSymlink(m) && ToLower(name) in icons.filenames ==>
              r == icons.filenames[ToLower(name)]
    ensures !IsDir(m) && !IsSymlink(m) && ToLower(name) !in icons.filenames && ExtensionIcon(icons, name).Some? ==>
              r == ExtensionIcon(icons, name).value
    ensures !IsDir(m) && !IsSymlink(m) && ToLower(name) !in icons.filenames && ExtensionIcon(icons, name).None? ==>
              r == (if IsExecutable(m) then icons.executable else icons.file)
  {
    if IsDir(m) then icons.directory
    else if IsSymlink(m) then icons.symlink
    else if ToLower(name) in icons.filenames then icons.filenames[ToLower(name)]
    else match ExtensionIcon(icons, name)
      case Some(icon) => icon
      case None => if IsExecutable(m) then icons.executable else icons.file
  }

  /** Every icon shown is one the configuration holds. */
  lemma IconIsConfigured(icons: IconsConfig, name: string, m: Metadata)
    ensures var r := GetIcon(icons, name, m);
            || r in {icons.directory, icons.symlink, icons.executable, icons.file}
            || r in icons.filenames.Values || r in icons.extensions.Values
  {
    var r := GetIcon(icons, name, m);
    if !IsDir(m) && !IsSymlink(m) {
      if ToLower(name) in icons.filenames {
        assert r == icons.filenames[ToLower(name)];
      } else if ExtensionIcon(icons, name).Some? {
        assert r == icons.extensions[ToLower(Extension(name).value)];
      }
    }
  }

  /** Only the file type decides the icon of a directory or a symlink; names and modes do not. */
  lemma FileTypeIconIgnoresName(icons: IconsConfig, n1: string, n2: string, m1: Metadata, m2: Metadata)
    requires m1.fileType == m2.fileType && (IsDir(m1) || IsSymlink(m1))
    ensures GetIcon(icons, n1, m1) == GetIcon(icons, n2, m2)
  {
  }

  /** Names that agree once lower-cased share the special-filename icon. */
  lemma FilenameIconIgnoresCase(icons: IconsConfig, n1: string, n2: string, m: Metadata)
    requires ToLower(n1) == ToLower(n2) && ToLower(n1) in icons.filenames
    ensures GetIcon(icons, n1, m) == GetIcon(icons, n2, m)
  {
  }

  /**
   * The executable icon shows only for a regular-looking file with an execute
   * bit that neither table names.
   */
  lemma ExecutableIconOnlyWithoutTableMatch(icons: IconsConfig, name: string, m: Metadata)
    requires icons.executable != icons.file && icons.executable != icons.directory && icons.executable != icons.symlink
    requires icons.executable !in icons.filenames.Values && icons.executable !in icons.extensions.Values
    ensures GetIcon(icons, name, m) == icons.executable <==>
              && !IsDir(m) && !IsSymlink(m) && IsExecutable(m)
              && ToLower(name) !in icons.filenames && ExtensionIcon(icons, name).None?
  {
    var r := GetIcon(icons, name, m);
    if !IsDir(m) && !IsSymlink(m) {
      if ToLower(name) in icons.filenames {
        assert r in icons.filenames.Values;
      } else if ExtensionIcon(icons, name).Some? {
        assert r in icons.extensions.Values;
      }
    }
  }

  /**
   * With the default tables `Cargo.toml` gets the special-filename icon, which
   * is looked up before any extension icon (`toml` has one of its own).
   */
  lemma CargoTomlUsesFilenameIcon(icons: IconsConfig, m: Metadata)
    requires icons.filenames == DefaultFilenames() && m.fileType == RegularFile
    ensures GetIcon(icons, "Cargo.toml", m) == "🦀"
  {
    CargoTomlIcon();
    LowerCargoToml();
  }

  lemma LowerCargoToml()
    ensures ToLower("Cargo.toml") == "cargo.toml"
  {
    assert LowerChar('C') == 'c';
  }
}
