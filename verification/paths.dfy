/**
 * The part of Rust's `std::path` the source relies on: paths as sequences of
 * components, `join`, `parent`, the component-wise order `<`, `file_name` and
 * `extension`.
 */
module Paths {
  import opened Wrappers
  import opened Text

  /**
   * An absolute path as its normal components: `/home/u/repo` is
   * `["home", "u", "repo"]` and the file-system root `/` is `[]`. Two `PathBuf`s
   * are equal exactly when their components are, so this is also the key of a
   * status map.
   */
  type Path = seq<string>

  /** A normal path component: not empty, not `.`, and free of separators. */
  predicate IsComponent(c: string) {
    c != "" && c != "." && '/' !in c
  }

  function Piece(p: string): (r: Path)
    ensures '/' !in p ==> forall i :: 0 <= i < |r| ==> IsComponent(r[i])
  {
    if p == "" || p == "." then [] else [p]
  }

  /**
   * `Path::components` of a path string, keeping only the names: empty pieces
   * (repeated or trailing `/`) and `.` pieces are normalised away.
   */
  function Components(s: string): (r: Path)
    ensures forall i :: 0 <= i < |r| ==> IsComponent(r[i])
    decreases |s|
  {
    match FindChar(s, '/')
    case None => Piece(s)
    case Some(k) => Piece(s[..k]) + Components(s[k + 1..])
  }

  /**
   * `PathBuf::join`: a path string starting with `/` replaces the base,
   * any other is appended to it component by component.
   */
  function JoinPath(base: Path, rel: string): Path {
    if StartsWith(rel, "/") then Components(rel) else base + Components(rel)
  }

  /** `p` is `q` or one of its ancestors. */
  predicate IsPrefix(p: Path, q: Path) {
    |p| <= |q| && q[..|p|] == p
  }

  /** `p` is a proper ancestor of `q`. */
  predicate IsAncestor(p: Path, q: Path) {
    IsPrefix(p, q) && |p| < |q|
  }

  /**
   * Rust's `Ord` on `Path`: lexicographic over the components, each compared
   * as a string; a proper ancestor sorts before its descendants. Rust orders a
   * `..` component before every normal one, while here `..` is compared as the
   * string it is; porcelain paths and canonical roots hold no `..`.
   */
  predicate PathLess(a: Path, b: Path) {
    if |a| == 0 then |b| > 0
    else if |b| == 0 then false
    else if a[0] != b[0] then Less(a[0], b[0])
    else PathLess(a[1..], b[1..])
  }

  /** A proper ancestor is ordered below its descendant. */
  lemma {:induction false} ProperPrefixIsLess(p: Path, q: Path)
    requires IsPrefix(p, q) && |p| < |q|
    ensures PathLess(p, q)
  {
    if |p| > 0 {
      assert p[0] == q[0];
      assert IsPrefix(p[1..], q[1..]) by {
        assert q[1..][..|p| - 1] == q[..|p|][1..];
      }
      ProperPrefixIsLess(p[1..], q[1..]);
    }
  }

  /** A path is never ordered below one of its ancestors. */
  lemma {:induction false} DescendantNotLess(p: Path, q: Path)
    requires IsPrefix(q, p)
    ensures !PathLess(p, q)
  {
    if |q| > 0 {
      assert p[0] == q[0];
      assert IsPrefix(q[1..], p[1..]) by {
        assert p[1..][..|q| - 1] == p[..|q|][1..];
      }
      DescendantNotLess(p[1..], q[1..]);
    }
  }

  /**
   * Of two ancestors-or-self of the same path, the shorter is ordered below the
   * longer and never the other way round.
   */
  lemma PrefixesOfOnePath(p: Path, q: Path, path: Path)
    requires IsPrefix(p, path) && IsPrefix(q, path)
    ensures PathLess(p, q) <==> |p| < |q|
  {
    if |p| < |q| {
      assert IsPrefix(p, q) by { assert q[..|p|] == path[..|p|]; }
      ProperPrefixIsLess(p, q);
    } else {
      assert IsPrefix(q, p) by { assert p[..|q|] == path[..|q|]; }
      DescendantNotLess(p, q);
    }
  }

  /** `s` without its trailing `/`s. */
  function DropTrailingSlashes(s: string): (r: string)
    ensures |r| <= |s| && r == s[..|r|]
    ensures |r| == 0 || r[|r| - 1] != '/'
    ensures forall i :: |r| <= i < |s| ==> s[i] == '/'
  {
    if |s| > 0 && s[|s| - 1] == '/' then DropTrailingSlashes(s[..|s| - 1]) else s
  }

  /**
   * `Path::parent` of a path as written: the text before its last component,
   * less the separators in between; `/` when only the root is left; the empty
   * path when there is a single relative component; none for the root and for
   * the empty path.
   */
  function ParentText(s: string): (r: Option<string>)
    ensures r.None? <==> forall i :: 0 <= i < |s| ==> s[i] == '/'
    ensures r.Some? ==> |r.value| < |s|
  {
    var t := DropTrailingSlashes(s);
    if |t| == 0 then None
    else match FindLastChar(t, '/')
      case None => Some("")
      case Some(k) =>
        var head := DropTrailingSlashes(t[..k]);
        if |head| == 0 then Some("/") else Some(head)
  }

  /** The parent of `dir/name` is `dir`. */
  lemma ParentOfJoined(dir: string, name: string)
    requires IsComponent(name) && |dir| > 0 && dir[|dir| - 1] != '/'
    ensures ParentText(dir + "/" + name) == Some(dir)
  {
    var s := dir + "/" + name;
    assert s[|s| - 1] == name[|name| - 1];
    assert DropTrailingSlashes(s) == s;
    assert s[|dir| + 1..] == name;
    var k := FindLastChar(s, '/');
    assert s[|dir|] == '/';
    assert s[|dir|] in s;
    assert s[..|dir|] == dir;
    assert DropTrailingSlashes(dir) == dir;
  }

  /** The parent of a single component is the empty path, not `.`. */
  lemma ParentOfBareName(name: string)
    requires IsComponent(name)
    ensures ParentText(name) == Some("")
  {
  }

  /**
   * `Path::file_name`: the last component, or `None` when the path ends in `..`
   * or has no normal component at all (`/`, `.`, the empty path).
   */
  function FileName(s: string): (r: Option<string>)
    ensures r.Some? ==> IsComponent(r.value) && r.value != ".."
  {
    var cs := Components(s);
    if |cs| == 0 || cs[|cs| - 1] == ".." then None else Some(cs[|cs| - 1])
  }

  /**
   * `Path::extension`: the text after the last `.` of the file name. A name
   * without a dot, or whose only dot is its first character (`.bashrc`), has none.
   */
  function Extension(s: string): (r: Option<string>)
    ensures r.Some? <==> FileName(s).Some? && FindLastChar(FileName(s).value, '.').Some?
                         && FindLastChar(FileName(s).value, '.').value > 0
    ensures r.Some? ==> '.' !in r.value
    ensures r.Some? ==> var n := FileName(s).value;
                        |r.value| + 1 < |n| && n == n[..|n| - |r.value| - 1] + "." + r.value
  {
    match FileName(s)
    case None => None
    case Some(name) =>
      match FindLastChar(name, '.')
      case None => None
      case Some(k) =>
        if k == 0 then None
        else
          assert name == name[..k] + "." + name[k + 1..];
          Some(name[k + 1..])
  }
}
