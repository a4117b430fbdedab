/**
 * Git status detection: the classification of a `git status --porcelain`
 * line, the priority of each kind, and the single forward pass that records
 * every reported path and propagates its kind to the ancestors up to the
 * repository root. The git processes themselves are inputs: whether the
 * directory is inside a work tree, the root path, and the porcelain text.
 */
module Git {
  import opened Wrappers
  import opened Text
  import opened Paths
  import opened Styling
  import opened Configuration

  datatype GitStatus = Modified | Staged | Untracked | Ignored | Clean

  /** `git_status_priority`: higher is more important; ignored and clean never outrank anything. */
  function Priority(s: GitStatus): (r: nat)
    ensures r <= 3
    ensures r == 0 <==> s == Ignored || s == Clean
  {
    match s
    case Modified => 3
    case Staged => 2
    case Untracked => 1
    case Ignored => 0
    case Clean => 0
  }

  /** Priorities order the kinds Modified > Staged > Untracked > Ignored = Clean. */
  lemma PriorityRanks(a: GitStatus, b: GitStatus)
    ensures Priority(a) > Priority(b) <==>
              || (a == Modified && b != Modified)
              || (a == Staged && b in {Untracked, Ignored, Clean})
              || (a == Untracked && b in {Ignored, Clean})
  {
  }

  /**
   * The kind of a porcelain status pair `XY`, first match winning: `??`,
   * `!!`, then a work-tree change in `Y`, then an index change in `X`.
   */
  function Classify(x: char, y: char): (r: GitStatus)
    ensures r == Untracked <==> x == '?' && y == '?'
    ensures r == Ignored <==> x == '!' && y == '!'
    ensures r == Modified <==> y in "MDA"
    ensures r == Staged <==> y !in "MDA" && x in "MADRC"
    ensures r == Clean <==> !(x == y == '?') && !(x == y == '!') && y !in "MDA" && x !in "MADRC"
  {
    if x == '?' && y == '?' then Untracked
    else if x == '!' && y == '!' then Ignored
    else if y == 'M' || y == 'D' || y == 'A' then Modified
    else if x == 'M' || x == 'A' || x == 'D' || x == 'R' || x == 'C' then Staged
    else Clean
  }

  // ---------------------------------------------------------------------------
  // Reading the porcelain output
  // ---------------------------------------------------------------------------

  /** What the scan makes of one line of porcelain output. */
  datatype LineParse =
    | Skipped                               // shorter than four bytes
    | Entry(x: char, y: char, rel: string)  // the status pair and the trimmed path after byte 3
    | Panicked                              // byte 3 is inside a character, so `line[3..]` panics

  /**
   * One porcelain line: lengths and the slice at 3 count bytes, the status
   * pair counts characters.
   */
  function ParseLine(line: string): (r: LineParse)
    ensures r.Skipped? <==> ByteLen(line) < 4
    ensures r.Panicked? <==> ByteLen(line) >= 4 && forall k :: 0 <= k <= |line| ==> ByteLen(line[..k]) != 3
    ensures r.Entry? ==> exists k :: 1 <= k < |line| && ByteLen(line[..k]) == 3
                                     && r == Entry(line[0], line[1], Trim(line[k..]))
  {
    if ByteLen(line) < 4 then Skipped
    else
      match CharsBeforeByte(line, 3)
      case None => Panicked
      case Some(k) =>
        assert line[..|line|] == line;
        assert line[..0] == [];
        Entry(line[0], line[1], Trim(line[k..]))
  }

  /** A line whose first three characters are ASCII is split at character 3. */
  lemma ParseAsciiLine(line: string)
    requires |line| >= 4 && forall i :: 0 <= i < 3 ==> (line[i] as int) < 0x80
    ensures ParseLine(line) == Entry(line[0], line[1], Trim(line[3..]))
  {
    CharsBeforeByteAscii(line, 3);
    assert ByteLen(line) >= |line|;
  }

  /** A reported path and its kind. */
  datatype Report = Report(path: Path, status: GitStatus)

  /** The path of an entry line, joined onto the root as `git_root.join(file_path)`. */
  function ReportOf(root: Path, e: LineParse): Report
    requires e.Entry?
  {
    Report(JoinPath(root, e.rel), Classify(e.x, e.y))
  }

  const PanicMessage := "byte index 3 is not a char boundary"

  /**
   * The reports of the parsed lines in order, or the panic of the first line
   * whose slice at byte 3 fails, which aborts the whole program.
   */
  function Scan(root: Path, ps: seq<LineParse>): (r: Result<seq<Report>>)
    ensures r.Ok? ==> |r.value| <= |ps|
  {
    if |ps| == 0 then Ok([])
    else
      var last := ps[|ps| - 1];
      match Scan(root, ps[..|ps| - 1])
      case Err(e) => Err(e)
      case Ok(rs) =>
        if last.Panicked? then Err(PanicMessage)
        else if last.Skipped? then Ok(rs)
        else Ok(rs + [ReportOf(root, last)])
  }

  function ParseLines(lines: seq<string>): (r: seq<LineParse>)
    ensures |r| == |lines| && forall i :: 0 <= i < |lines| ==> r[i] == ParseLine(lines[i])
  {
    seq(|lines|, i requires 0 <= i < |lines| => ParseLine(lines[i]))
  }

  /** The reports of the porcelain lines. */
  function Reports(root: Path, lines: seq<string>): Result<seq<Report>> {
    Scan(root, ParseLines(lines))
  }

  /** The scan fails exactly when some line panics. */
  lemma {:induction false} ScanFailsOnPanic(root: Path, ps: seq<LineParse>)
    ensures Scan(root, ps).Err? <==> exists i :: 0 <= i < |ps| && ps[i].Panicked?
  {
    if |ps| > 0 {
      var init := ps[..|ps| - 1];
      ScanFailsOnPanic(root, init);
      assert forall i :: 0 <= i < |init| ==> init[i] == ps[i];
    }
  }

  /** The scan of two runs of lines is the scan of each, one after the other. */
  lemma {:induction false} ScanAppend(root: Path, a: seq<LineParse>, b: seq<LineParse>)
    requires Scan(root, a).Ok? && Scan(root, b).Ok?
    ensures Scan(root, a + b) == Ok(Scan(root, a).value + Scan(root, b).value)
  {
    if |b| > 0 {
      var b' := b[..|b| - 1];
      assert (a + b)[..|a + b| - 1] == a + b';
      assert (a + b)[|a + b| - 1] == b[|b| - 1];
      ScanAppend(root, a, b');
      var x := b[|b| - 1];
      var u := Scan(root, a).value;
      var v := Scan(root, b').value;
      if x.Entry? {
        assert (u + v) + [ReportOf(root, x)] == u + (v + [ReportOf(root, x)]);
      }
    } else {
      assert b == [] && a + b == a;
      assert Scan(root, []) == Ok([]);
      assert Scan(root, a).value + [] == Scan(root, a).value;
    }
  }

  /** Porcelain text fails to scan exactly when one of its lines panics. */
  lemma ReportsFailOnPanic(root: Path, lines: seq<string>)
    ensures Reports(root, lines).Err? <==> exists i :: 0 <= i < |lines| && ParseLine(lines[i]).Panicked?
  {
    ScanFailsOnPanic(root, ParseLines(lines));
  }

  lemma ParseLinesAppend(a: seq<string>, b: seq<string>)
    ensures ParseLines(a + b) == ParseLines(a) + ParseLines(b)
  {
    var l, r := ParseLines(a + b), ParseLines(a) + ParseLines(b);
    forall i | 0 <= i < |l|
      ensures l[i] == r[i]
    {
      if i < |a| {
        assert (a + b)[i] == a[i];
      } else {
        assert (a + b)[i] == b[i - |a|];
      }
    }
  }

  /** The reports of two runs of lines are the reports of each, one after the other. */
  lemma ReportsAppend(root: Path, a: seq<string>, b: seq<string>)
    requires Reports(root, a).Ok? && Reports(root, b).Ok?
    ensures Reports(root, a + b) == Ok(Reports(root, a).value + Reports(root, b).value)
  {
    ParseLinesAppend(a, b);
    ScanAppend(root, ParseLines(a), ParseLines(b));
  }

  /** A single line contributes its entry's report, or nothing when it is skipped. */
  lemma ReportsOfLine(root: Path, line: string)
    ensures ParseLine(line).Skipped? ==> Reports(root, [line]) == Ok([])
    ensures ParseLine(line).Entry? ==> Reports(root, [line]) == Ok([ReportOf(root, ParseLine(line))])
    ensures ParseLine(line).Panicked? ==> Reports(root, [line]) == Err(PanicMessage)
  {
    assert ParseLines([line]) == [ParseLine(line)];
    ScanOne(root, ParseLine(line));
  }

  lemma ScanOne(root: Path, p: LineParse)
    ensures p.Skipped? ==> Scan(root, [p]) == Ok([])
    ensures p.Entry? ==> Scan(root, [p]) == Ok([ReportOf(root, p)])
    ensures p.Panicked? ==> Scan(root, [p]) == Err(PanicMessage)
  {
    assert [p][..0] == [];
    assert Scan(root, []) == Ok([]);
    if p.Entry? {
      assert [] + [ReportOf(root, p)] == [ReportOf(root, p)];
    }
  }

  // ---------------------------------------------------------------------------
  // Propagation
  // ---------------------------------------------------------------------------

  type StatusMap = map<Path, GitStatus>

  /** The ancestor-update rule: write `s` at `p` when `p` is absent or strictly outranked. */
  function Raise(m: StatusMap, p: Path, s: GitStatus): (r: StatusMap)
    ensures r.Keys == m.Keys + {p}
    ensures forall q :: q in m && q != p ==> r[q] == m[q]
  {
    if p !in m || Priority(s) > Priority(m[p]) then m[p := s] else m
  }

  /**
   * `r` is `m` with every path in `targets` raised to `s`: the new keys are the
   * targets, a target keeps its kind unless absent or strictly outranked by
   * `s`, and everything else is unchanged.
   */
  predicate RaisedOver(m: StatusMap, r: StatusMap, targets: set<Path>, s: GitStatus) {
    && r.Keys == m.Keys + targets
    && (forall q :: q in targets && q !in m ==> r[q] == s)
    && (forall q :: q in targets && q in m ==>
          r[q] == (if Priority(s) > Priority(m[q]) then s else m[q]))
    && (forall q :: q in m && q !in targets ==> r[q] == m[q])
  }

  /**
   * Where the upward walk from `path[..j]` stops: the longest ancestor-or-self
   * of length at most `j` that is ordered below the root, or -1 when the walk
   * runs past `/`.
   */
  function StopBelow(root: Path, path: Path, j: nat): (r: int)
    requires j < |path|
    ensures -1 <= r <= j
    ensures r >= 0 ==> PathLess(path[..r], root)
    ensures forall i :: r < i <= j ==> !PathLess(path[..i], root)
    decreases j
  {
    if PathLess(path[..j], root) then j
    else if j == 0 then -1
    else StopBelow(root, path, j - 1)
  }

  /** The ancestors of lengths `StopBelow(..) < i <= j`: the ones the walk from `path[..j]` visits. */
  function ClimbTargets(root: Path, path: Path, j: nat): set<Path>
    requires j < |path|
  {
    set i | StopBelow(root, path, j) < i <= j :: path[..i]
  }

  /** The ancestors of `path` that the upward walk after recording `path` visits. */
  function Targets(root: Path, path: Path): (r: set<Path>)
    ensures path !in r
    ensures forall q :: q in r ==> IsAncestor(q, path) && !PathLess(q, root)
  {
    if |path| == 0 then {} else ClimbTargets(root, path, |path| - 1)
  }

  /**
   * The `while let Some(p) = parent` loop from `path[..j]` upwards: stop at the
   * first ancestor ordered below the root, otherwise raise it and go on to its
   * parent; `/` has none.
   */
  function Climb(m: StatusMap, root: Path, path: Path, j: nat, s: GitStatus): (r: StatusMap)
    requires j < |path|
    ensures RaisedOver(m, r, ClimbTargets(root, path, j), s)
    decreases j
  {
    if PathLess(path[..j], root) then
      ClimbTargetsStop(root, path, j);
      RaisedOverNothing(m, s);
      m
    else
      var m' := Raise(m, path[..j], s);
      if j == 0 then
        ClimbTargetsTop(root, path);
        RaisedOverOne(m, path[..j], s);
        m'
      else
        var r := Climb(m', root, path, j - 1, s);
        ClimbTargetsStep(root, path, j);
        RaisedOverStep(m, path[..j], s, r, ClimbTargets(root, path, j - 1));
        r
  }

  lemma ClimbTargetsStop(root: Path, path: Path, j: nat)
    requires j < |path| && PathLess(path[..j], root)
    ensures ClimbTargets(root, path, j) == {}
  {
  }

  lemma ClimbTargetsTop(root: Path, path: Path)
    requires 0 < |path| && !PathLess(path[..0], root)
    ensures ClimbTargets(root, path, 0) == {path[..0]}
  {
  }

  lemma RaisedOverNothing(m: StatusMap, s: GitStatus)
    ensures RaisedOver(m, m, {}, s)
  {
  }

  lemma RaisedOverOne(m: StatusMap, p: Path, s: GitStatus)
    ensures RaisedOver(m, Raise(m, p, s), {p}, s)
  {
  }

  /** Raising `p` and then the targets `t` raises `{p} + t`, when `p` is not among them. */
  lemma RaisedOverStep(m: StatusMap, p: Path, s: GitStatus, r: StatusMap, t: set<Path>)
    requires p !in t && RaisedOver(Raise(m, p, s), r, t, s)
    ensures RaisedOver(m, r, {p} + t, s)
  {
    var m' := Raise(m, p, s);
    assert r.Keys == m.Keys + ({p} + t);
    assert p in r && r[p] == m'[p];
  }

  lemma ClimbTargetsStep(root: Path, path: Path, j: nat)
    requires 0 < j < |path| && !PathLess(path[..j], root)
    ensures ClimbTargets(root, path, j) == {path[..j]} + ClimbTargets(root, path, j - 1)
    ensures path[..j] !in ClimbTargets(root, path, j - 1)
  {
    assert StopBelow(root, path, j) == StopBelow(root, path, j - 1);
  }

  /**
   * One report: the path's own entry is overwritten unconditionally, then the
   * walk raises its ancestors.
   */
  function Record(m: StatusMap, root: Path, rep: Report): (r: StatusMap)
    ensures RaisedOver(m[rep.path := rep.status], r, Targets(root, rep.path), rep.status)
    ensures rep.path in r && r[rep.path] == rep.status
  {
    var m' := m[rep.path := rep.status];
    if |rep.path| == 0 then m' else Climb(m', root, rep.path, |rep.path| - 1, rep.status)
  }

  /** The forward pass over the reports, in order. */
  function Collect(m: StatusMap, root: Path, rs: seq<Report>): StatusMap {
    if |rs| == 0 then m else Record(Collect(m, root, rs[..|rs| - 1]), root, rs[|rs| - 1])
  }

  // ---------------------------------------------------------------------------
  // What the propagation guarantees
  // ---------------------------------------------------------------------------

  /** Below the root the upward walk stops right under the root's own length. */
  lemma {:induction false} StopAtRoot(root: Path, path: Path, j: nat)
    requires IsPrefix(root, path) && |root| <= j < |path|
    ensures StopBelow(root, path, j) == |root| - 1
    decreases j
  {
    assert IsPrefix(root, path[..j]) by { assert path[..j][..|root|] == path[..|root|]; }
    DescendantNotLess(path[..j], root);
    if j > |root| {
      StopAtRoot(root, path, j - 1);
    } else if j > 0 {
      assert IsPrefix(path[..j - 1], root) by { assert root[..j - 1] == path[..j - 1]; }
      ProperPrefixIsLess(path[..j - 1], root);
    }
  }

  /**
   * For a path under the root, the walk visits exactly the ancestors of the
   * path that are the root or below it: the root is included, nothing above it is.
   */
  lemma TargetsUnderRoot(root: Path, path: Path)
    requires IsPrefix(root, path)
    ensures forall q :: q in Targets(root, path) <==> IsPrefix(root, q) && IsAncestor(q, path)
  {
    if |path| > |root| {
      StopAtRoot(root, path, |path| - 1);
      forall q | IsPrefix(root, q) && IsAncestor(q, path)
        ensures q in Targets(root, path)
      {
        assert q == path[..|q|];
      }
      forall q | q in Targets(root, path)
        ensures IsPrefix(root, q)
      {
        var i :| |root| - 1 < i <= |path| - 1 && q == path[..i];
        assert q[..|root|] == path[..|root|];
      }
    } else if |path| > 0 {
      assert path == root;
      assert IsPrefix(path[..|path| - 1], root);
      ProperPrefixIsLess(path[..|path| - 1], root);
    }
  }

  /**
   * One report under the root: its own entry holds its kind, every ancestor
   * from its parent up to the root is present with at least its priority, no
   * existing entry loses priority except the path's own, and nothing new
   * appears outside the walk.
   */
  lemma RecordUnderRoot(m: StatusMap, root: Path, rep: Report)
    requires IsPrefix(root, rep.path)
    ensures var r := Record(m, root, rep);
            && r[rep.path] == rep.status
            && (forall a :: IsPrefix(root, a) && IsAncestor(a, rep.path) ==>
                  a in r && Priority(r[a]) >= Priority(rep.status))
            && (forall q :: q in m && q != rep.path ==> q in r && Priority(r[q]) >= Priority(m[q]))
            && (forall q :: q in r && q !in m && q != rep.path ==> IsPrefix(root, q) && IsAncestor(q, rep.path))
  {
    RecordRaisesAncestors(m, root, rep);
    RecordKeepsOthers(m, root, rep);
  }

  lemma RecordRaisesAncestors(m: StatusMap, root: Path, rep: Report)
    requires IsPrefix(root, rep.path)
    ensures var r := Record(m, root, rep);
            forall a :: IsPrefix(root, a) && IsAncestor(a, rep.path) ==>
              a in r && Priority(r[a]) >= Priority(rep.status)
  {
    TargetsUnderRoot(root, rep.path);
  }

  lemma RecordKeepsOthers(m: StatusMap, root: Path, rep: Report)
    requires IsPrefix(root, rep.path)
    ensures var r := Record(m, root, rep);
            && (forall q :: q in m && q != rep.path ==> q in r && Priority(r[q]) >= Priority(m[q]))
            && (forall q :: q in r && q !in m && q != rep.path ==> IsPrefix(root, q) && IsAncestor(q, rep.path))
  {
    TargetsUnderRoot(root, rep.path);
  }

  /** `p` is reported by `rep` or visited by its walk. */
  predicate Touches(root: Path, rep: Report, p: Path) {
    p == rep.path || p in Targets(root, rep.path)
  }

  /** Some report of `rs` touches `q`. */
  predicate SomeReportTouches(root: Path, rs: seq<Report>, q: Path) {
    exists j :: 0 <= j < |rs| && Touches(root, rs[j], q)
  }

  lemma SomeReportTouchesSnoc(root: Path, rs: seq<Report>, q: Path)
    requires |rs| > 0
    ensures SomeReportTouches(root, rs, q) <==>
              SomeReportTouches(root, rs[..|rs| - 1], q) || Touches(root, rs[|rs| - 1], q)
  {
    var init := rs[..|rs| - 1];
    if SomeReportTouches(root, rs, q) && !Touches(root, rs[|rs| - 1], q) {
      var j :| 0 <= j < |rs| && Touches(root, rs[j], q);
      assert init[j] == rs[j];
    }
    if SomeReportTouches(root, init, q) {
      var j :| 0 <= j < |init| && Touches(root, init[j], q);
      assert init[j] == rs[j];
    }
  }

  /** The keys of the pass: the starting keys and the paths some report touches. */
  lemma {:induction false} CollectKeys(m: StatusMap, root: Path, rs: seq<Report>)
    ensures forall q :: q in Collect(m, root, rs) <==> q in m || SomeReportTouches(root, rs, q)
  {
    if |rs| > 0 {
      var init := rs[..|rs| - 1];
      CollectKeys(m, root, init);
      forall q
        ensures q in Collect(m, root, rs) <==> q in m || SomeReportTouches(root, rs, q)
      {
        SomeReportTouchesSnoc(root, rs, q);
      }
    }
  }

  /** With every report under the root, every key of the pass is the root or below it. */
  lemma {:induction false} KeysUnderRoot(root: Path, rs: seq<Report>)
    requires forall j :: 0 <= j < |rs| ==> IsPrefix(root, rs[j].path)
    ensures forall q :: q in Collect(map[], root, rs) ==> IsPrefix(root, q)
  {
    if |rs| > 0 {
      var init := rs[..|rs| - 1];
      assert forall j :: 0 <= j < |init| ==> init[j] == rs[j];
      KeysUnderRoot(root, init);
      RecordUnderRoot(Collect(map[], root, init), root, rs[|rs| - 1]);
    }
  }

  /** Whatever the reports, no ancestor ordered below the root is ever inserted. */
  lemma {:induction false} NothingAboveRoot(root: Path, rs: seq<Report>)
    ensures forall q :: q in Collect(map[], root, rs) ==>
                          !PathLess(q, root) || exists j :: 0 <= j < |rs| && rs[j].path == q
  {
    if |rs| > 0 {
      var init := rs[..|rs| - 1];
      assert forall j :: 0 <= j < |init| ==> init[j] == rs[j];
      NothingAboveRoot(root, init);
    }
  }

  /**
   * A path's own report decides its kind when no later report touches it: the
   * last report wins, and a walk can only override it from below.
   */
  lemma {:induction false} LastReportWins(root: Path, rs: seq<Report>, i: nat)
    requires i < |rs|
    requires forall j :: i < j < |rs| ==> !Touches(root, rs[j], rs[i].path)
    ensures rs[i].path in Collect(map[], root, rs)
    ensures Collect(map[], root, rs)[rs[i].path] == rs[i].status
  {
    if i < |rs| - 1 {
      var init := rs[..|rs| - 1];
      assert forall j :: 0 <= j < |init| ==> init[j] == rs[j];
      LastReportWins(root, init, i);
    }
  }

  function Max(a: int, b: int): int {
    if a < b then b else a
  }

  /** The highest priority among the reports strictly below `d`, -1 when there are none. */
  function MaxBelow(rs: seq<Report>, d: Path): (r: int)
    ensures -1 <= r <= 3
  {
    if |rs| == 0 then -1
    else
      var t := MaxBelow(rs[..|rs| - 1], d);
      if IsAncestor(d, rs[|rs| - 1].path) then Max(t, Priority(rs[|rs| - 1].status)) else t
  }

  /**
   * Propagation: a directory at or under the root that is not itself reported
   * is in the map exactly when some report lies below it, and then its kind has
   * the highest priority among those reports.
   */
  lemma {:induction false} DominantDescendant(root: Path, rs: seq<Report>, d: Path)
    requires forall j :: 0 <= j < |rs| ==> IsPrefix(root, rs[j].path) && rs[j].path != d
    requires IsPrefix(root, d)
    ensures d in Collect(map[], root, rs) <==> MaxBelow(rs, d) >= 0
    ensures d in Collect(map[], root, rs) ==> Priority(Collect(map[], root, rs)[d]) == MaxBelow(rs, d)
  {
    if |rs| > 0 {
      var init := rs[..|rs| - 1];
      var rep := rs[|rs| - 1];
      assert forall j :: 0 <= j < |init| ==> init[j] == rs[j];
      DominantDescendant(root, init, d);
      TargetsUnderRoot(root, rep.path);
      assert d in Targets(root, rep.path) <==> IsAncestor(d, rep.path);
    }
  }

  /** Every report strictly below `d` is counted by `MaxBelow`. */
  lemma {:induction false} MaxBelowBounds(rs: seq<Report>, d: Path)
    ensures MaxBelow(rs, d) >= 0 <==> exists j :: 0 <= j < |rs| && IsAncestor(d, rs[j].path)
    ensures forall j :: 0 <= j < |rs| && IsAncestor(d, rs[j].path) ==> Priority(rs[j].status) <= MaxBelow(rs, d)
  {
    if |rs| > 0 {
      var init := rs[..|rs| - 1];
      assert forall j :: 0 <= j < |init| ==> init[j] == rs[j];
      MaxBelowBounds(init, d);
    }
  }

  /** The highest priority below `d` is the priority of some report below `d`. */
  lemma {:induction false} MaxBelowAttained(rs: seq<Report>, d: Path)
    requires MaxBelow(rs, d) >= 0
    ensures exists i :: 0 <= i < |rs| && IsAncestor(d, rs[i].path) && Priority(rs[i].status) == MaxBelow(rs, d)
  {
    var init := rs[..|rs| - 1];
    assert forall i :: 0 <= i < |init| ==> init[i] == rs[i];
    if MaxBelow(init, d) == MaxBelow(rs, d) {
      MaxBelowAttained(init, d);
      var i :| 0 <= i < |init| && IsAncestor(d, init[i].path) && Priority(init[i].status) == MaxBelow(init, d);
      assert rs[i] == init[i];
    } else {
      assert IsAncestor(d, rs[|rs| - 1].path);
    }
  }

  /**
   * When the last report is the first to reach the highest priority below `d`,
   * the reports before it rank strictly lower there.
   */
  lemma EarlierBelowMax(rs: seq<Report>, d: Path)
    requires |rs| > 0 && MaxBelow(rs[..|rs| - 1], d) >= 0
    requires forall i :: 0 <= i < |rs| - 1 && IsAncestor(d, rs[i].path) ==> Priority(rs[i].status) < MaxBelow(rs, d)
    ensures MaxBelow(rs[..|rs| - 1], d) < MaxBelow(rs, d)
  {
    var init := rs[..|rs| - 1];
    MaxBelowAttained(init, d);
    var i :| 0 <= i < |init| && IsAncestor(d, init[i].path) && Priority(init[i].status) == MaxBelow(init, d);
    assert rs[i] == init[i];
  }

  /**
   * Which kind an unreported directory takes among equally ranked reports below
   * it: that of the first report reaching the highest priority there, since a
   * later report replaces it only when strictly outranking it. At priority 0
   * this decides between Ignored and Clean.
   */
  lemma {:induction false} FirstMaxWins(root: Path, rs: seq<Report>, d: Path, j: nat)
    requires forall i :: 0 <= i < |rs| ==> IsPrefix(root, rs[i].path) && rs[i].path != d
    requires IsPrefix(root, d)
    requires j < |rs| && IsAncestor(d, rs[j].path) && Priority(rs[j].status) == MaxBelow(rs, d)
    requires forall i :: 0 <= i < j && IsAncestor(d, rs[i].path) ==> Priority(rs[i].status) < MaxBelow(rs, d)
    ensures d in Collect(map[], root, rs) && Collect(map[], root, rs)[d] == rs[j].status
  {
    var init := rs[..|rs| - 1];
    var rep := rs[|rs| - 1];
    assert forall i :: 0 <= i < |init| ==> init[i] == rs[i];
    TargetsUnderRoot(root, rep.path);
    assert d in Targets(root, rep.path) <==> IsAncestor(d, rep.path);
    if j == |rs| - 1 {
      DominantDescendant(root, init, d);
      if MaxBelow(init, d) >= 0 {
        EarlierBelowMax(rs, d);
      }
    } else {
      MaxBelowBounds(init, d);
      FirstMaxWins(root, init, d, j);
    }
  }

  /** On a tie the first writer keeps the ancestor: priorities are compared strictly. */
  lemma TieKeepsFirstWriter()
    ensures var rs := [Report(["r", "d", "x"], Ignored), Report(["r", "d", "y"], Clean)];
            var r := Collect(map[], ["r"], rs);
            ["r", "d"] in r && r[["r", "d"]] == Ignored
  {
    var a := Report(["r", "d", "x"], Ignored);
    var b := Report(["r", "d", "y"], Clean);
    assert [a, b][..1] == [a] && [a][..0] == [];
    TargetsUnderRoot(["r"], a.path);
    TargetsUnderRoot(["r"], b.path);
    assert IsPrefix(["r"], ["r", "d"]);
    assert IsAncestor(["r", "d"], a.path) && IsAncestor(["r", "d"], b.path);
    TieStep(["r"], a, b, ["r", "d"]);
  }

  /** Two reports below the same ancestor with equal priority leave the first one's kind there. */
  lemma TieStep(root: Path, a: Report, b: Report, d: Path)
    requires d in Targets(root, a.path) && d in Targets(root, b.path) && d != b.path
    requires Priority(a.status) == Priority(b.status)
    ensures var r := Record(Record(map[], root, a), root, b);
            d in r && r[d] == a.status
  {
  }

  /**
   * A modified file anywhere below a directory at or under the root makes the
   * directory Modified, unless the directory has a report of its own.
   */
  lemma ModifiedBelowWins(root: Path, rs: seq<Report>, d: Path, j: nat)
    requires forall i :: 0 <= i < |rs| ==> IsPrefix(root, rs[i].path) && rs[i].path != d
    requires IsPrefix(root, d) && j < |rs| && IsAncestor(d, rs[j].path) && rs[j].status == Modified
    ensures d in Collect(map[], root, rs) && Collect(map[], root, rs)[d] == Modified
  {
    MaxBelowBounds(rs, d);
    DominantDescendant(root, rs, d);
  }

  /**
   * A staged `a.txt` and a modified `b/c.txt`: `b` and the root are Modified,
   * the higher priority winning although `b` has no line of its own.
   */
  lemma ModifiedChildDominates()
    ensures var rs := [Report(["repo", "a.txt"], Staged), Report(["repo", "b", "c.txt"], Modified)];
            var r := Collect(map[], ["repo"], rs);
            && ["repo", "b"] in r && r[["repo", "b"]] == Modified
            && ["repo"] in r && r[["repo"]] == Modified
  {
    var rs := [Report(["repo", "a.txt"], Staged), Report(["repo", "b", "c.txt"], Modified)];
    ExampleUnderRoot(rs, ["repo", "b"]);
    ExampleUnderRoot(rs, ["repo"]);
    ModifiedBelowWins(["repo"], rs, ["repo", "b"], 1);
    ModifiedBelowWins(["repo"], rs, ["repo"], 1);
  }

  lemma ExampleUnderRoot(rs: seq<Report>, d: Path)
    requires rs == [Report(["repo", "a.txt"], Staged), Report(["repo", "b", "c.txt"], Modified)]
    requires d == ["repo", "b"] || d == ["repo"]
    ensures forall i :: 0 <= i < |rs| ==> IsPrefix(["repo"], rs[i].path) && rs[i].path != d
    ensures IsPrefix(["repo"], d) && IsAncestor(d, rs[1].path) && rs[1].status == Modified
  {
  }

  /** Where the git process results come from: each is an input of the model. */
  datatype GitProbe = GitProbe(
    insideWorkTree: bool,       // `git rev-parse --is-inside-work-tree` ran and succeeded
    // The trimmed stdout of `git rev-parse --show-toplevel`. It is empty when that
    // command runs but exits non-zero, and `git status` then cannot start in it,
    // so `porcelain` is None. The canonical directory stands in only when git
    // cannot be spawned or its stdout is not UTF-8.
    root: Path,
    porcelain: Option<string>)  // the stdout of `git status --porcelain -uall`, None when it failed

  /**
   * `get_git_statuses`: the empty map outside a work tree or when the status
   * command fails, otherwise the forward pass over the porcelain lines; `Err`
   * carries the line whose slicing panics.
   */
  function GitStatuses(g: GitProbe): (r: Result<StatusMap>)
    ensures !g.insideWorkTree || g.porcelain.None? ==> r == Ok(map[])
    ensures g.insideWorkTree && g.porcelain.Some? ==>
              (r.Err? <==> Reports(g.root, Lines(g.porcelain.value)).Err?)
    ensures r.Ok? && g.insideWorkTree && g.porcelain.Some? ==>
              r.value == Collect(map[], g.root, Reports(g.root, Lines(g.porcelain.value)).value)
  {
    if !g.insideWorkTree then Ok(map[])
    else match g.porcelain
      case None => Ok(map[])
      case Some(out) =>
        match Reports(g.root, Lines(out))
        case Err(line) => Err(line)
        case Ok(rs) => Ok(Collect(map[], g.root, rs))
  }

  // ---------------------------------------------------------------------------
  // Rendering
  // ---------------------------------------------------------------------------

  /**
   * `format_git_status`: the configured glyph in its configured colour (ignored
   * is always bright black), and one blank for a clean or unknown path so that
   * columns stay aligned.
   */
  function FormatGitStatus(c: Config, s: Option<GitStatus>): (r: Segment)
    ensures s.None? || s == Some(Clean) ==> r == Plain(" ")
    ensures s.Some? && s.value != Clean ==> r.style.Colored? && !r.style.bold
    ensures s == Some(Ignored) ==> r == Segment(c.git.ignored, Colored(BrightBlack, false))
  {
    match s
    case Some(Modified) => Segment(c.git.modified, Colored(ParseColor(c.colors.gitModified), false))
    case Some(Staged) => Segment(c.git.staged, Colored(ParseColor(c.colors.gitStaged), false))
    case Some(Untracked) => Segment(c.git.untracked, Colored(ParseColor(c.colors.gitUntracked), false))
    case Some(Ignored) => Segment(c.git.ignored, Colored(BrightBlack, false))
    case _ => Plain(" ")
  }

  /** The glyph of each kind is the configured one. */
  lemma GlyphsAreConfigured(c: Config, k: GitStatus)
    ensures k == Modified ==> FormatGitStatus(c, Some(k)).text == c.git.modified
    ensures k == Staged ==> FormatGitStatus(c, Some(k)).text == c.git.staged
    ensures k == Untracked ==> FormatGitStatus(c, Some(k)).text == c.git.untracked
    ensures k == Ignored ==> FormatGitStatus(c, Some(k)).text == c.git.ignored
  {
  }

  /**
   * With the default glyphs every status column is one character wide,
   * blank exactly for clean and unknown paths, and the four kinds are told
   * apart by their glyphs.
   */
  lemma DefaultGlyphsDistinguishKinds(c: Config, a: Option<GitStatus>, b: Option<GitStatus>)
    requires c.git == DefaultGit()
    ensures |FormatGitStatus(c, a).text| == 1
    ensures FormatGitStatus(c, a).text == " " <==> a.None? || a == Some(Clean)
    ensures FormatGitStatus(c, a).text == FormatGitStatus(c, b).text ==>
              a == b || ((a.None? || a == Some(Clean)) && (b.None? || b == Some(Clean)))
  {
  }
}
