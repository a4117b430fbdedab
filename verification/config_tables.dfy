/**
 * The built-in tables of `config.rs`: the default icon of each file extension
 * and of each special file name, and the colour names `parse_color` accepts.
 * They live apart from the settings logic so that reasoning about the latter
 * does not carry the tables along.
 */
module ConfigTables {
  import opened Styling

  function DefaultExtensions(): map<string, string> {
    map[
    "rs" := "🦀",
    "toml" := "⚙️",
    "cfg" := "⚙️",
    "conf" := "⚙️",
    "ini" := "⚙️",
    "config" := "⚙️",
    "md" := "📝",
    "markdown" := "📝",
    "json" := "📋",
    "yaml" := "📋",
    "yml" := "📋",
    "js" := "🟨",
    "mjs" := "🟨",
    "cjs" := "🟨",
    "jsx" := "🟨",
    "ts" := "🔷",
    "tsx" := "🔷",
    "mts" := "🔷",
    "cts" := "🔷",
    "py" := "🐍",
    "pyi" := "🐍",
    "pyc" := "🐍",
    "go" := "🐹",
    "lock" := "🔒",
    "sh" := "💻",
    "bash" := "💻",
    "zsh" := "💻",
    "fish" := "💻",
    "png" := "🖼️",
    "jpg" := "🖼️",
    "jpeg" := "🖼️",
    "gif" := "🖼️",
    "svg" := "🖼️",
    "ico" := "🖼️",
    "webp" := "🖼️",
    "mp4" := "🎬",
    "mkv" := "🎬",
    "avi" := "🎬",
    "mov" := "🎬",
    "webm" := "🎬",
    "mp3" := "🎵",
    "wav" := "🎵",
    "flac" := "🎵",
    "ogg" := "🎵",
    "m4a" := "🎵",
    "zip" := "📦",
    "tar" := "📦",
    "gz" := "📦",
    "bz2" := "📦",
    "xz" := "📦",
    "7z" := "📦",
    "rar" := "📦",
    "html" := "🌐",
    "htm" := "🌐",
    "css" := "🎨",
    "scss" := "🎨",
    "sass" := "🎨",
    "less" := "🎨",
    "java" := "☕",
    "jar" := "☕",
    "class" := "☕",
    "c" := "🔧",
    "h" := "🔧",
    "cpp" := "🔧",
    "cc" := "🔧",
    "cxx" := "🔧",
    "hpp" := "🔧",
    "hxx" := "🔧",
    "sql" := "🗄️",
    "db" := "🗄️",
    "sqlite" := "🗄️",
    "sqlite3" := "🗄️"
    ]
  }

  function DefaultFilenames(): map<string, string> {
    map[
    "cargo.toml" := "🦀",
    "cargo.lock" := "🦀",
    "makefile" := "🔨",
    "gnumakefile" := "🔨",
    "dockerfile" := "🐳",
    "containerfile" := "🐳",
    "license" := "📜",
    "license.md" := "📜",
    "license.txt" := "📜",
    "readme" := "📖",
    "readme.md" := "📖",
    "readme.txt" := "📖",
    ".gitignore" := "🙈",
    ".gitattributes" := "🙈",
    ".gitmodules" := "🙈",
    ".git" := "📦",
    ".env" := "⚙️",
    ".envrc" := "⚙️"
    ]
  }

  /** The arm of a bright colour: it is spelled `bright_<base>` or `bright<base>`. */
  function BrightArm(base: string, c: Color): (seq<string>, Color) {
    (["bright_" + base, "bright" + base], c)
  }

  /**
   * The arms of the `match` in `parse_color`, in order: the lower-case
   * spellings each colour is known by.
   */
  function ColorArms(): seq<(seq<string>, Color)> {
    [
      (["black"], Black),
      (["red"], Red),
      (["green"], Green),
      (["yellow"], Yellow),
      (["blue"], Blue),
      (["magenta", "purple"], Magenta),
      (["cyan"], Cyan),
      (["white"], White),
      BrightArm("black", BrightBlack),
      BrightArm("red", BrightRed),
      BrightArm("green", BrightGreen),
      BrightArm("yellow", BrightYellow),
      BrightArm("blue", BrightBlue),
      BrightArm("magenta", BrightMagenta),
      BrightArm("cyan", BrightCyan),
      BrightArm("white", BrightWhite)
    ]
  }

  /** The special-filename icon of `Cargo.toml`. */
  lemma CargoTomlIcon()
    ensures "cargo.toml" in DefaultFilenames() && DefaultFilenames()["cargo.toml"] == "🦀"
  {
    assert "cargo.toml"[6] != "cargo.lock"[6];
  }
}
