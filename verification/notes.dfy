/**
 * The notes store (`notes.rs`): a map from canonical path strings to note text,
 * kept in a file of `path: note` lines. Resolving a path (`canonicalize`) and
 * the file system are inputs: the resolved path or its error, the text read
 * from the file, and whether writing it back fails.
 */
module Notes {
  import opened Wrappers
  import opened Text

  type NoteMap = map<string, string>

  const Separator := ": "

  // ---------------------------------------------------------------------------
  // Loading (`load_notes`)
  // ---------------------------------------------------------------------------

  /** What opening and reading the notes file gives. */
  datatype NotesSource =
    | NoNotes                                       // no data directory, or the file cannot be opened
    | NotesText(text: string, failsAt: Option<nat>) // the text; reading line `failsAt` fails

  /** The lines `map_while(Result::ok)` delivers: those before the first line that fails to read. */
  function ReadLines(src: NotesSource): (r: seq<string>)
    ensures src.NotesText? && src.failsAt.None? ==> r == Lines(src.text)
    ensures src.NotesText? ==> |r| <= |Lines(src.text)| && r == Lines(src.text)[..|r|]
    ensures src.NoNotes? ==> r == []
  {
    match src
    case NoNotes => []
    case NotesText(text, None) => Lines(text)
    case NotesText(text, Some(k)) =>
      var ls := Lines(text);
      if k < |ls| then ls[..k] else ls
  }

  /** One line: the path and the note on either side of the first `": "`, if there is one. */
  function NoteEntry(line: string): (r: Option<(string, string)>)
    ensures r.None? <==> forall j :: 0 <= j ==> !OccursAt(line, Separator, j)
    ensures r.Some? ==> line == r.value.0 + Separator + r.value.1
    ensures r.Some? ==> forall j :: 0 <= j < |r.value.0| ==> !OccursAt(line, Separator, j)
  {
    SplitOnce(line, Separator)
  }

  /** The line loop: each entry line inserts its note, overwriting an earlier one for the same path. */
  function LoadLines(m: NoteMap, lines: seq<string>): NoteMap
    decreases |lines|
  {
    if |lines| == 0 then m
    else
      var m' := LoadLines(m, lines[..|lines| - 1]);
      match NoteEntry(lines[|lines| - 1])
      case None => m'
      case Some((path, note)) => m'[path := note]
  }

  function LoadNotes(src: NotesSource): NoteMap {
    LoadLines(map[], ReadLines(src))
  }

  /** Line `line` is an entry for `path`. */
  predicate Names(line: string, path: string) {
    NoteEntry(line).Some? && NoteEntry(line).value.0 == path
  }

  /** Some line of `lines` is an entry for `path`. */
  predicate SomeLineNames(lines: seq<string>, path: string) {
    exists i :: 0 <= i < |lines| && Names(lines[i], path)
  }

  lemma SomeLineNamesSnoc(lines: seq<string>, path: string)
    requires |lines| > 0
    ensures SomeLineNames(lines, path) <==>
              SomeLineNames(lines[..|lines| - 1], path) || Names(lines[|lines| - 1], path)
  {
    var init := lines[..|lines| - 1];
    if SomeLineNames(lines, path) && !Names(lines[|lines| - 1], path) {
      var i :| 0 <= i < |lines| && Names(lines[i], path);
      assert init[i] == lines[i];
    }
    if SomeLineNames(init, path) {
      var i :| 0 <= i < |init| && Names(init[i], path);
      assert init[i] == lines[i];
    }
  }

  /** The paths loaded are exactly the starting ones and those some line is an entry for. */
  lemma {:induction false} LoadedKeys(m: NoteMap, lines: seq<string>)
    ensures forall k :: k in LoadLines(m, lines) <==> k in m || SomeLineNames(lines, k)
  {
    if |lines| > 0 {
      var init := lines[..|lines| - 1];
      LoadedKeys(m, init);
      forall k
        ensures k in LoadLines(m, lines) <==> k in m || SomeLineNames(lines, k)
      {
        SomeLineNamesSnoc(lines, k);
      }
    }
  }

  /** When several lines name the same path, the last of them decides its note. */
  lemma {:induction false} LaterLineWins(m: NoteMap, lines: seq<string>, i: nat)
    requires i < |lines| && NoteEntry(lines[i]).Some?
    requires forall j :: i < j < |lines| && NoteEntry(lines[j]).Some? ==>
               NoteEntry(lines[j]).value.0 != NoteEntry(lines[i]).value.0
    ensures var (path, note) := NoteEntry(lines[i]).value;
            path in LoadLines(m, lines) && LoadLines(m, lines)[path] == note
  {
    if i < |lines| - 1 {
      var init := lines[..|lines| - 1];
      assert forall j :: 0 <= j < |init| ==> init[j] == lines[j];
      LaterLineWins(m, init, i);
    }
  }

  /** A line without `": "` changes nothing. */
  lemma LineWithoutSeparatorIgnored(m: NoteMap, lines: seq<string>, line: string)
    requires forall j :: 0 <= j ==> !OccursAt(line, Separator, j)
    ensures LoadLines(m, lines + [line]) == LoadLines(m, lines)
  {
    assert (lines + [line])[..|lines|] == lines;
  }

  // ---------------------------------------------------------------------------
  // Saving (`save_notes`)
  // ---------------------------------------------------------------------------

  /** A finite set of strings has a least element. */
  lemma {:induction false} LeastExists(s: set<string>)
    requires s != {}
    ensures exists r :: r in s && forall x :: x in s ==> LessEq(r, x)
    decreases |s|
  {
    var y :| y in s;
    if s != {y} {
      LeastExists(s - {y});
      var r :| r in s - {y} && forall x :: x in s - {y} ==> LessEq(r, x);
      LessEqTotal(y, r);
      if LessEq(y, r) {
        BelowTheLeast(s, y, r);
        assert y in s && forall x :: x in s ==> LessEq(y, x);
      } else {
        assert forall x :: x in s ==> LessEq(r, x);
        assert r in s;
      }
    }
  }

  /** What is at most the least element of the rest is the least element of all. */
  lemma BelowTheLeast(s: set<string>, y: string, r: string)
    requires y in s && LessEq(y, r)
    requires forall x :: x in s - {y} ==> LessEq(r, x)
    ensures forall x :: x in s ==> LessEq(y, x)
  {
    forall x | x in s
      ensures LessEq(y, x)
    {
      if x != y {
        LessEqTransitive(y, r, x);
      }
    }
  }

  lemma LessEqAntisymmetric(a: string, b: string)
    requires LessEq(a, b) && LessEq(b, a)
    ensures a == b
  {
    if a != b {
      LessAsymmetric(a, b);
    }
  }

  /** The least string of a non-empty set. */
  function Least(s: set<string>): (r: string)
    requires s != {}
    ensures r in s && forall x :: x in s ==> LessEq(r, x)
  {
    LeastExists(s);
    var r :| r in s && forall x :: x in s ==> LessEq(r, x);
    assert forall r' :: r' in s && (forall x :: x in s ==> LessEq(r', x)) ==> r' == r by {
      forall r' | r' in s && (forall x :: x in s ==> LessEq(r', x))
        ensures r' == r
      {
        LessEqAntisymmetric(r, r');
      }
    }
    r
  }

  /** The paths in ascending order, as `sort_by(|a, b| a.0.cmp(b.0))` leaves them. */
  function SortedKeys(s: set<string>): (r: seq<string>)
    ensures |r| == |s| && forall k :: k in r <==> k in s
    ensures forall i, j :: 0 <= i < j < |r| ==> Less(r[i], r[j])
    decreases |s|
  {
    if s == {} then []
    else
      var k := Least(s);
      var rest := SortedKeys(s - {k});
      assert forall j :: 0 <= j < |rest| ==> Less(k, rest[j]) by {
        forall j | 0 <= j < |rest|
          ensures Less(k, rest[j])
        {
          assert rest[j] in s - {k};
        }
      }
      [k] + rest
  }

  function NoteLine(path: string, note: string): string {
    path + Separator + note
  }

  /** The lines written, one `path: note` per entry in ascending path order. */
  function SaveLines(m: NoteMap): (r: seq<string>)
    ensures |r| == |m|
    ensures forall i :: 0 <= i < |r| ==>
              var k := SortedKeys(m.Keys)[i]; k in m && r[i] == NoteLine(k, m[k])
  {
    var ks := SortedKeys(m.Keys);
    seq(|ks|, i requires 0 <= i < |ks| => NoteLine(ks[i], m[ks[i]]))
  }

  /** The file text: every line followed by `\n`, as `writeln!` writes it. */
  function SaveText(m: NoteMap): string {
    Terminated(SaveLines(m))
  }

  /** Text that stays one line through `lines()`: no `\n`, and no final `\r` to be dropped. */
  predicate SingleLine(s: string) {
    '\n' !in s && !EndsWithCr(s)
  }

  /** A path that reads back from a `path: note` line: no `": "` and no line break. */
  ghost predicate PathFits(path: string) {
    '\n' !in path && forall j :: 0 <= j ==> !OccursAt(path, Separator, j)
  }

  /** A store that survives the line format: every path fits and every note is a single line. */
  ghost predicate Storable(m: NoteMap) {
    forall k :: k in m ==> PathFits(k) && SingleLine(m[k])
  }

  /** A storable entry's line reads back as that entry. */
  lemma NoteLineReadsBack(path: string, note: string)
    requires PathFits(path)
    ensures NoteEntry(NoteLine(path, note)) == Some((path, note))
  {
    var s := path + Separator + note;
    forall j | 0 <= j < |path|
      ensures !OccursAt(s, Separator, j)
    {
      if j + 2 <= |path| {
        assert s[j..j + 2] == path[j..j + 2];
        assert !OccursAt(path, Separator, j);
      } else {
        assert s[j + 1] == ':';
      }
    }
    SplitOnceAt(path, Separator, note);
  }

  /** A storable entry's line is a single line. */
  lemma NoteLineIsSingle(path: string, note: string)
    requires '\n' !in path && SingleLine(note)
    ensures SingleLine(NoteLine(path, note))
  {
    var s := NoteLine(path, note);
    assert s == path + (Separator + note);
    assert forall c :: c in s ==> c in path || c in Separator || c in note;
    if |note| == 0 {
      assert s[|s| - 1] == ' ';
    } else {
      assert s[|s| - 1] == note[|note| - 1];
    }
  }

  /** The saved lines read back one entry each, in path order. */
  lemma SavedLinesReadBack(m: NoteMap)
    requires Storable(m)
    ensures var ls, ks := SaveLines(m), SortedKeys(m.Keys);
            forall i :: 0 <= i < |ls| ==> NoteEntry(ls[i]) == Some((ks[i], m[ks[i]])) && SingleLine(ls[i])
  {
    var ls, ks := SaveLines(m), SortedKeys(m.Keys);
    forall i | 0 <= i < |ls|
      ensures NoteEntry(ls[i]) == Some((ks[i], m[ks[i]])) && SingleLine(ls[i])
    {
      NoteLineReadsBack(ks[i], m[ks[i]]);
      NoteLineIsSingle(ks[i], m[ks[i]]);
    }
  }

  /** Lines naming each path of `m` once, with its note: the hypothesis of `LoadDistinctEntries`. */
  ghost predicate NamesEachOnce(m: NoteMap, ls: seq<string>, ks: seq<string>) {
    && |ls| == |ks| && (forall k :: k in m <==> k in ks)
    && (forall i, j :: 0 <= i < j < |ks| ==> ks[i] != ks[j])
    && (forall i :: 0 <= i < |ls| ==> ks[i] in m && NoteEntry(ls[i]) == Some((ks[i], m[ks[i]])))
  }

  lemma LoadDistinctKeys(m: NoteMap, ls: seq<string>, ks: seq<string>)
    requires NamesEachOnce(m, ls, ks)
    ensures forall k :: k in LoadLines(map[], ls) ==> k in m
  {
    LoadedKeys(map[], ls);
    forall k | k in LoadLines(map[], ls)
      ensures k in m
    {
      var i :| 0 <= i < |ls| && Names(ls[i], k);
      assert ks[i] == k;
    }
  }

  lemma LoadDistinctNotes(m: NoteMap, ls: seq<string>, ks: seq<string>)
    requires NamesEachOnce(m, ls, ks)
    ensures forall k :: k in m ==> k in LoadLines(map[], ls) && LoadLines(map[], ls)[k] == m[k]
  {
    forall k | k in m
      ensures k in LoadLines(map[], ls) && LoadLines(map[], ls)[k] == m[k]
    {
      var i :| 0 <= i < |ks| && ks[i] == k;
      assert NoteEntry(ls[i]).value == (k, m[k]);
      forall j | i < j < |ls| && NoteEntry(ls[j]).Some?
        ensures NoteEntry(ls[j]).value.0 != k
      {
        assert NoteEntry(ls[j]).value.0 == ks[j];
      }
      LaterLineWins(map[], ls, i);
    }
  }

  /** Lines naming each path of `m` once, with its note, load as `m`. */
  lemma LoadDistinctEntries(m: NoteMap, ls: seq<string>, ks: seq<string>)
    requires NamesEachOnce(m, ls, ks)
    ensures LoadLines(map[], ls) == m
  {
    LoadDistinctKeys(m, ls, ks);
    LoadDistinctNotes(m, ls, ks);
    MapsAgree(LoadLines(map[], ls), m);
  }

  /** Two maps with the same keys and the same value at each are equal. */
  lemma MapsAgree(r: NoteMap, m: NoteMap)
    requires forall k :: k in r ==> k in m
    requires forall k :: k in m ==> k in r && r[k] == m[k]
    ensures r == m
  {
    assert r.Keys == m.Keys;
  }

  /** The saved lines name each path once, in path order, when every path fits the line format. */
  lemma SavedLinesNameEachOnce(m: NoteMap)
    requires forall k :: k in m ==> PathFits(k)
    ensures NamesEachOnce(m, SaveLines(m), SortedKeys(m.Keys))
  {
    var ks, ls := SortedKeys(m.Keys), SaveLines(m);
    forall i | 0 <= i < |ls|
      ensures NoteEntry(ls[i]) == Some((ks[i], m[ks[i]]))
    {
      NoteLineReadsBack(ks[i], m[ks[i]]);
    }
    forall i, j | 0 <= i < j < |ks|
      ensures ks[i] != ks[j]
    {
      LessIrreflexive(ks[i]);
    }
  }

  /** Saving and reloading a storable store gives it back unchanged. */
  lemma SaveLoadRoundTrip(m: NoteMap)
    requires Storable(m)
    ensures LoadNotes(NotesText(SaveText(m), None)) == m
  {
    SavedTextLines(m);
    SavedLinesNameEachOnce(m);
    LoadDistinctEntries(m, SaveLines(m), SortedKeys(m.Keys));
  }

  /** The saved text splits back into the saved lines. */
  lemma SavedTextLines(m: NoteMap)
    requires Storable(m)
    ensures Lines(SaveText(m)) == SaveLines(m)
  {
    var ls := SaveLines(m);
    forall i | 0 <= i < |ls|
      ensures '\n' !in ls[i] && !EndsWithCr(ls[i])
    {
      var ks := SortedKeys(m.Keys);
      NoteLineIsSingle(ks[i], m[ks[i]]);
    }
    LinesOfTerminated(ls);
  }

  /**
   * A store whose every entry the file holds on a line of its own: every path
   * fits and no note holds a `\n`. A note may still end with a `\r`.
   */
  ghost predicate Writable(m: NoteMap) {
    forall k :: k in m ==> PathFits(k) && '\n' !in m[k]
  }

  /** A note as it reads back once written: one final `\r` is lost with the line break. */
  function Reread(note: Option<string>): (r: Option<string>)
    ensures r.Some? <==> note.Some?
    ensures note.Some? && !EndsWithCr(note.value) ==> r == note
  {
    match note
    case None => None
    case Some(n) => Some(StripCr(n))
  }

  /** The store as it reads back once written. */
  function Reloaded(m: NoteMap): (r: NoteMap)
    ensures r.Keys == m.Keys
    ensures forall k :: k in m ==> Some(r[k]) == Reread(Some(m[k]))
  {
    map k | k in m :: StripCr(m[k])
  }

  /** Dropping a final `\r` from a saved line drops it from the note. */
  lemma StripCrNoteLine(path: string, note: string)
    ensures StripCr(NoteLine(path, note)) == NoteLine(path, StripCr(note))
  {
    var s := NoteLine(path, note);
    if |note| == 0 {
      assert s[|s| - 1] == ' ';
    } else {
      assert s[|s| - 1] == note[|note| - 1];
      if EndsWithCr(note) {
        assert s[..|s| - 1] == path + Separator + note[..|note| - 1];
      }
    }
  }

  /** A saved line holds a line break only when its path or note does. */
  lemma NoteLineBreakFree(path: string, note: string)
    requires '\n' !in path && '\n' !in note
    ensures '\n' !in NoteLine(path, note)
  {
    var s := NoteLine(path, note);
    assert s == path + (Separator + note);
    assert forall c :: c in s ==> c in path || c in Separator || c in note;
  }

  /** The lines saved from a writable store hold no line break. */
  lemma SavedLinesBreakFree(m: NoteMap)
    requires Writable(m)
    ensures forall i :: 0 <= i < |SaveLines(m)| ==> '\n' !in SaveLines(m)[i]
  {
    var ls, ks := SaveLines(m), SortedKeys(m.Keys);
    forall i | 0 <= i < |ls|
      ensures '\n' !in ls[i]
    {
      NoteLineBreakFree(ks[i], m[ks[i]]);
    }
  }

  /** Saved line `i` less one final `\r` is the line saved for the store as it reads back. */
  lemma SavedLineReloaded(m: NoteMap, i: nat)
    requires i < |SaveLines(m)|
    ensures StripCr(SaveLines(m)[i]) == SaveLines(Reloaded(m))[i]
  {
    var ks := SortedKeys(m.Keys);
    assert SortedKeys(Reloaded(m).Keys) == ks;
    StripCrNoteLine(ks[i], m[ks[i]]);
  }

  /** The text saved from a writable store splits into the lines saved from the store as it reads back. */
  lemma SavedTextLinesReloaded(m: NoteMap)
    requires Writable(m)
    ensures Lines(SaveText(m)) == SaveLines(Reloaded(m))
  {
    var ls := SaveLines(m);
    SavedLinesBreakFree(m);
    LinesOfTerminatedStrip(ls);
    forall i | 0 <= i < |ls|
      ensures Lines(SaveText(m))[i] == SaveLines(Reloaded(m))[i]
    {
      SavedLineReloaded(m, i);
    }
  }

  /**
   * Saving and reloading a writable store gives every path back with its note
   * less one final `\r`; a storable store comes back unchanged.
   */
  lemma SaveLoadReloaded(m: NoteMap)
    requires Writable(m)
    ensures LoadNotes(NotesText(SaveText(m), None)) == Reloaded(m)
  {
    var r := Reloaded(m);
    SavedTextLinesReloaded(m);
    SavedLinesNameEachOnce(r);
    LoadDistinctEntries(r, SaveLines(r), SortedKeys(r.Keys));
  }

  /** Loading lines without line breaks over a writable store keeps it writable. */
  lemma {:induction false} LoadedIsWritable(m: NoteMap, lines: seq<string>)
    requires Writable(m)
    requires forall i :: 0 <= i < |lines| ==> '\n' !in lines[i]
    ensures Writable(LoadLines(m, lines))
  {
    if |lines| > 0 {
      var init := lines[..|lines| - 1];
      assert forall i :: 0 <= i < |init| ==> init[i] == lines[i];
      LoadedIsWritable(m, init);
      var line := lines[|lines| - 1];
      if NoteEntry(line).Some? {
        EntryPathFits(line);
        var e := NoteEntry(line).value;
        assert forall c :: c in e.1 ==> c in line by {
          assert line == e.0 + Separator + e.1;
        }
      }
    }
  }

  /** Whatever the file holds, the store loaded from it is writable. */
  lemma LoadNotesWritable(src: NotesSource)
    ensures Writable(LoadNotes(src))
  {
    var ls := ReadLines(src);
    if src.NotesText? {
      assert forall i :: 0 <= i < |ls| ==> ls[i] == Lines(src.text)[i];
    }
    LoadedIsWritable(map[], ls);
  }

  // ---------------------------------------------------------------------------
  // The note commands
  // ---------------------------------------------------------------------------

  /** The environment of one command. */
  datatype NotesEnv = NotesEnv(
    resolved: Result<string>,    // `canonicalize` of the path, as a string, or its error text
    source: NotesSource,         // the notes file as it is read
    saveError: Option<string>)   // why the notes file cannot be rewritten, if it cannot

  /** What a command returns and, when it rewrites the notes file, the new text. */
  datatype Outcome = Outcome(reply: Result<()>, written: Option<string>)

  function CouldNotResolve(e: string): string {
    "Could not resolve path: " + e
  }

  const NoNoteFound := "No note found"

  /** `save_notes`: the new text, or the error that stopped the write. */
  function Save(env: NotesEnv, m: NoteMap): (r: Outcome)
    ensures env.saveError.None? ==> r == Outcome(Ok(()), Some(SaveText(m)))
    ensures env.saveError.Some? ==> r == Outcome(Err(env.saveError.value), None)
  {
    match env.saveError
    case None => Outcome(Ok(()), Some(SaveText(m)))
    case Some(e) => Outcome(Err(e), None)
  }

  /** `set_note`: resolve, load, insert and save. */
  function SetNote(env: NotesEnv, note: string): (r: Outcome)
    ensures env.resolved.Err? ==> r == Outcome(Err(CouldNotResolve(env.resolved.error)), None)
    ensures env.resolved.Ok? ==> r == Save(env, LoadNotes(env.source)[env.resolved.value := note])
  {
    match env.resolved
    case Err(e) => Outcome(Err(CouldNotResolve(e)), None)
    case Ok(path) => Save(env, LoadNotes(env.source)[path := note])
  }

  /** `get_note`: the note of the resolved path; none when the path does not resolve. */
  function GetNote(env: NotesEnv): (r: Option<string>)
    ensures env.resolved.Err? ==> r.None?
    ensures env.resolved.Ok? ==>
              (r.Some? <==> env.resolved.value in LoadNotes(env.source))
    ensures r.Some? ==> r.value == LoadNotes(env.source)[env.resolved.value]
  {
    match env.resolved
    case Err(_) => None
    case Ok(path) =>
      var notes := LoadNotes(env.source);
      if path in notes then Some(notes[path]) else None
  }

  /** `remove_note`: an error without touching the file when the path has no note. */
  function RemoveNote(env: NotesEnv): (r: Outcome)
    ensures env.resolved.Err? ==> r == Outcome(Err(CouldNotResolve(env.resolved.error)), None)
    ensures env.resolved.Ok? && env.resolved.value !in LoadNotes(env.source) ==>
              r == Outcome(Err(NoNoteFound), None)
    ensures env.resolved.Ok? && env.resolved.value in LoadNotes(env.source) ==>
              r == Save(env, LoadNotes(env.source) - {env.resolved.value})
  {
    match env.resolved
    case Err(e) => Outcome(Err(CouldNotResolve(e)), None)
    case Ok(path) =>
      var notes := LoadNotes(env.source);
      if path in notes then Save(env, notes - {path}) else Outcome(Err(NoNoteFound), None)
  }

  /** The environment of the next command, once `o` has rewritten the file. */
  function After(env: NotesEnv, o: Outcome, resolved: Result<string>): NotesEnv {
    match o.written
    case None => env.(resolved := resolved)
    case Some(text) => env.(resolved := resolved, source := NotesText(text, None))
  }

  /** The path of an entry holds no `": "`, and no line break when the line holds none. */
  lemma EntryPathFits(line: string)
    requires '\n' !in line && NoteEntry(line).Some?
    ensures PathFits(NoteEntry(line).value.0)
  {
    var e := NoteEntry(line).value;
    var path := e.0;
    assert line == path + (Separator + e.1);
    forall j | 0 <= j
      ensures !OccursAt(path, Separator, j)
    {
      if OccursAt(path, Separator, j) {
        assert line[j..j + 2] == path[j..j + 2];
        assert OccursAt(line, Separator, j) && j < |path|;
      }
    }
    assert forall c :: c in path ==> c in line;
  }

  /** The note of an entry is a single line when the entry line is one. */
  lemma EntryNoteSingle(line: string)
    requires SingleLine(line) && NoteEntry(line).Some?
    ensures SingleLine(NoteEntry(line).value.1)
  {
    var e := NoteEntry(line).value;
    var note := e.1;
    assert line == e.0 + Separator + note;
    assert forall c :: c in note ==> c in line;
    if |note| > 0 {
      assert note[|note| - 1] == line[|line| - 1];
    }
  }

  /** The entry of a single line fits the line format. */
  lemma SingleLineEntry(line: string)
    requires SingleLine(line) && NoteEntry(line).Some?
    ensures PathFits(NoteEntry(line).value.0) && SingleLine(NoteEntry(line).value.1)
  {
    EntryPathFits(line);
    EntryNoteSingle(line);
  }

  /** A store loaded from single lines is storable. */
  lemma {:induction false} LoadedIsStorable(m: NoteMap, lines: seq<string>)
    requires Storable(m)
    requires forall i :: 0 <= i < |lines| ==> SingleLine(lines[i])
    ensures Storable(LoadLines(m, lines))
  {
    if |lines| > 0 {
      var init := lines[..|lines| - 1];
      assert forall i :: 0 <= i < |init| ==> init[i] == lines[i];
      LoadedIsStorable(m, init);
      var line := lines[|lines| - 1];
      if NoteEntry(line).Some? {
        SingleLineEntry(line);
      }
    }
  }

  /**
   * Setting a note and then asking for it gives the note back, when the path
   * and note fit the line format. Every other path keeps its note less one
   * final `\r`, and keeps it exactly when the loaded store is storable.
   */
  lemma SetThenGet(env: NotesEnv, note: string, other: Result<string>)
    requires env.resolved.Ok? && env.saveError.None?
    requires PathFits(env.resolved.value) && SingleLine(note)
    ensures var o := SetNote(env, note);
            && o.reply == Ok(())
            && GetNote(After(env, o, env.resolved)) == Some(note)
            && (other.Ok? && other != env.resolved ==>
                  GetNote(After(env, o, other)) == Reread(GetNote(env.(resolved := other))))
            && (other.Ok? && other != env.resolved && Storable(LoadNotes(env.source)) ==>
                  GetNote(After(env, o, other)) == GetNote(env.(resolved := other)))
  {
    var m := LoadNotes(env.source)[env.resolved.value := note];
    LoadNotesWritable(env.source);
    SaveLoadReloaded(m);
  }

  /**
   * Removing a note and then asking for it finds none. Every other path keeps
   * its note less one final `\r`, and keeps it exactly when the loaded store
   * is storable.
   */
  lemma RemoveThenGet(env: NotesEnv, other: Result<string>)
    requires env.resolved.Ok? && env.resolved.value in LoadNotes(env.source)
    requires env.saveError.None?
    ensures var o := RemoveNote(env);
            && o.reply == Ok(())
            && GetNote(After(env, o, env.resolved)).None?
            && (other.Ok? && other != env.resolved ==>
                  GetNote(After(env, o, other)) == Reread(GetNote(env.(resolved := other))))
            && (other.Ok? && other != env.resolved && Storable(LoadNotes(env.source)) ==>
                  GetNote(After(env, o, other)) == GetNote(env.(resolved := other)))
  {
    var m := LoadNotes(env.source) - {env.resolved.value};
    LoadNotesWritable(env.source);
    SaveLoadReloaded(m);
  }

  /**
   * Setting a note on one path changes the note of another path that ends
   * with a `\r`: the rewritten file drops it.
   */
  lemma SettingAnotherNoteDropsCr(env: NotesEnv, note: string, other: Result<string>)
    requires env.resolved.Ok? && env.saveError.None?
    requires PathFits(env.resolved.value) && SingleLine(note)
    requires other.Ok? && other != env.resolved
    requires var n := GetNote(env.(resolved := other)); n.Some? && EndsWithCr(n.value)
    ensures GetNote(After(env, SetNote(env, note), other)) != GetNote(env.(resolved := other))
  {
    SetThenGet(env, note, other);
  }

  /** The notes file `/a: x\r`, without a final line break, loads the note `x\r`. */
  lemma CrNoteLoads()
    ensures LoadNotes(NotesText("/a: x\r", None)) == map["/a" := "x\r"]
    ensures EndsWithCr(LoadNotes(NotesText("/a: x\r", None))["/a"])
  {
    LinesOfJoin(["/a: x\r"]);
    assert Join(["/a: x\r"], "\n") == "/a: x\r";
    NoteLineReadsBack("/a", "x\r");
    assert NoteLine("/a", "x\r") == "/a: x\r";
  }
}
