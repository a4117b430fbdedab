/**
 * The string primitives the source takes from Rust's `str` and `String`:
 * trimming, ASCII lower-casing, searching and splitting, line splitting,
 * joining, byte-wise ordering, decimal rendering and column padding.
 * A Rust `&str` is a `seq<char>` of Unicode scalar values here.
 */
module Text {
  import opened Wrappers

  // ---------------------------------------------------------------------------
  // Trimming
  // ---------------------------------------------------------------------------

  /** Rust's `char::is_whitespace`: the characters with the Unicode White_Space property. */
  predicate IsWhitespace(c: char) {
    var n := c as int;
    || (0x09 <= n <= 0x0D) || n == 0x20 || n == 0x85 || n == 0xA0 || n == 0x1680
    || (0x2000 <= n <= 0x200A) || n == 0x2028 || n == 0x2029 || n == 0x202F
    || n == 0x205F || n == 0x3000
  }

  /** `s` has no white space at either end. */
  predicate IsTrimmed(s: string) {
    |s| > 0 ==> !IsWhitespace(s[0]) && !IsWhitespace(s[|s| - 1])
  }

  /** The first position at or after `i` that does not hold white space, or `|s|`. */
  function SkipWhitespace(s: string, i: nat): (j: nat)
    requires i <= |s|
    ensures i <= j <= |s|
    ensures forall k :: i <= k < j ==> IsWhitespace(s[k])
    ensures j < |s| ==> !IsWhitespace(s[j])
    decreases |s| - i
  {
    if i < |s| && IsWhitespace(s[i]) then SkipWhitespace(s, i + 1) else i
  }

  /** The end of `s[lo..j]` once the white space at its end is dropped. */
  function BackWhitespace(s: string, lo: nat, j: nat): (e: nat)
    requires lo <= j <= |s|
    ensures lo <= e <= j
    ensures forall k :: e <= k < j ==> IsWhitespace(s[k])
    ensures e > lo ==> !IsWhitespace(s[e - 1])
    decreases j
  {
    if j > lo && IsWhitespace(s[j - 1]) then BackWhitespace(s, lo, j - 1) else j
  }

  /** The number of white-space characters `str::trim_start` removes from `s`. */
  function LeadingWhitespace(s: string): nat {
    SkipWhitespace(s, 0)
  }

  /**
   * `str::trim`: `s` with white space removed from both ends. The result is the
   * slice of `s` that starts after its leading white space, and everything after
   * that slice is white space too.
   */
  function Trim(s: string): (r: string)
    ensures IsTrimmed(r)
    ensures LeadingWhitespace(s) + |r| <= |s|
    ensures r == s[LeadingWhitespace(s)..LeadingWhitespace(s) + |r|]
    ensures forall k :: 0 <= k < LeadingWhitespace(s) ==> IsWhitespace(s[k])
    ensures forall k :: LeadingWhitespace(s) + |r| <= k < |s| ==> IsWhitespace(s[k])
  {
    var lo := SkipWhitespace(s, 0);
    s[lo..BackWhitespace(s, lo, |s|)]
  }

  /** Text that does not begin with white space keeps its first character when trimmed. */
  lemma TrimKeepsFirst(s: string)
    requires |s| > 0 && !IsWhitespace(s[0])
    ensures |Trim(s)| > 0 && Trim(s)[0] == s[0]
  {
    assert LeadingWhitespace(s) == 0;
    assert BackWhitespace(s, 0, |s|) > 0;
  }

  /** Trimming text that has no white space at its ends changes nothing. */
  lemma TrimOfTrimmed(s: string)
    requires IsTrimmed(s)
    ensures Trim(s) == s
  {
    assert LeadingWhitespace(s) == 0;
    assert BackWhitespace(s, 0, |s|) == |s|;
    assert s[0..|s|] == s;
  }

  /** Trimming `s` between runs of white space gives `s`, when `s` is trimmed and not empty. */
  lemma TrimPadded(pre: string, s: string, post: string)
    requires forall k :: 0 <= k < |pre| ==> IsWhitespace(pre[k])
    requires forall k :: 0 <= k < |post| ==> IsWhitespace(post[k])
    requires IsTrimmed(s) && |s| > 0
    ensures Trim(pre + s + post) == s
  {
    var x := pre + s + post;
    var lo, hi := |pre|, |pre| + |s|;
    SkipTo(x, lo);
    BackTo(x, lo, hi);
    assert x[lo..hi] == s;
  }

  lemma SkipTo(x: string, lo: nat)
    requires lo < |x| && !IsWhitespace(x[lo])
    requires forall k :: 0 <= k < lo ==> IsWhitespace(x[k])
    ensures SkipWhitespace(x, 0) == lo
  {
  }

  lemma BackTo(x: string, lo: nat, hi: nat)
    requires lo < hi <= |x| && !IsWhitespace(x[hi - 1])
    requires forall k :: hi <= k < |x| ==> IsWhitespace(x[k])
    ensures BackWhitespace(x, lo, |x|) == hi
  {
  }

  // ---------------------------------------------------------------------------
  // Case
  // ---------------------------------------------------------------------------

  /** ASCII lower-casing of one character. */
  function LowerChar(c: char): char {
    if 'A' <= c <= 'Z' then (c as int + 32) as char else c
  }

  /** Lower-cases every ASCII letter of `s` and keeps every other character. */
  function ToLower(s: string): (r: string)
    ensures |r| == |s|
    ensures forall i :: 0 <= i < |s| ==> r[i] == LowerChar(s[i])
    ensures forall i :: 0 <= i < |r| ==> !('A' <= r[i] <= 'Z')
  {
    seq(|s|, i requires 0 <= i < |s| => LowerChar(s[i]))
  }

  /** Lower-casing twice is lower-casing once. */
  lemma ToLowerIdempotent(s: string)
    ensures ToLower(ToLower(s)) == ToLower(s)
  {
    var a, b := ToLower(ToLower(s)), ToLower(s);
    assert forall i :: 0 <= i < |a| ==> a[i] == b[i];
  }

  // ---------------------------------------------------------------------------
  // Searching and splitting
  // ---------------------------------------------------------------------------

  predicate StartsWith(s: string, prefix: string) {
    |prefix| <= |s| && s[..|prefix|] == prefix
  }

  /** `pat` occurs in `s` starting at index `j`. */
  predicate OccursAt(s: string, pat: string, j: int) {
    0 <= j && j + |pat| <= |s| && s[j..j + |pat|] == pat
  }

  /** The first index at or after `from` where `pat` occurs in `s`. */
  function IndexFrom(s: string, pat: string, from: nat): (r: Option<nat>)
    ensures r.Some? ==> from <= r.value && OccursAt(s, pat, r.value)
    ensures r.Some? ==> forall j :: from <= j < r.value ==> !OccursAt(s, pat, j)
    ensures r.None? ==> forall j :: from <= j ==> !OccursAt(s, pat, j)
    decreases |s| - from
  {
    if from + |pat| > |s| then None
    else if s[from..from + |pat|] == pat then Some(from)
    else IndexFrom(s, pat, from + 1)
  }

  /** `str::find`: the first index where `pat` occurs in `s`. */
  function IndexOf(s: string, pat: string): (r: Option<nat>)
    ensures r.Some? ==> OccursAt(s, pat, r.value) && forall j :: 0 <= j < r.value ==> !OccursAt(s, pat, j)
    ensures r.None? ==> forall j :: 0 <= j ==> !OccursAt(s, pat, j)
  {
    IndexFrom(s, pat, 0)
  }

  /**
   * `str::split_once`: the text before and after the first occurrence of `pat`,
   * or `None` when `pat` does not occur.
   */
  function SplitOnce(s: string, pat: string): (r: Option<(string, string)>)
    ensures r.Some? ==> s == r.value.0 + pat + r.value.1
    ensures r.Some? ==> forall j :: 0 <= j < |r.value.0| ==> !OccursAt(s, pat, j)
    ensures r.None? <==> forall j :: 0 <= j ==> !OccursAt(s, pat, j)
  {
    match IndexOf(s, pat)
    case None => None
    case Some(k) =>
      assert s == s[..k] + pat + s[k + |pat|..];
      Some((s[..k], s[k + |pat|..]))
  }

  /** Splitting `a + pat + b` where `pat` first occurs right after `a` gives back `a` and `b`. */
  lemma SplitOnceAt(a: string, pat: string, b: string)
    requires forall j :: 0 <= j < |a| ==> !OccursAt(a + pat + b, pat, j)
    ensures SplitOnce(a + pat + b, pat) == Some((a, b))
  {
    var s := a + pat + b;
    assert OccursAt(s, pat, |a|) by {
      assert s[|a|..|a| + |pat|] == pat;
    }
    var r := SplitOnce(s, pat);
    assert r.Some?;
    var k := |r.value.0|;
    assert k <= |a|;
    assert OccursAt(s, pat, k) by {
      assert s[k..k + |pat|] == pat;
    }
    assert k == |a|;
    assert r.value.0 == s[..|a|] == a;
    assert r.value.1 == s[|a| + |pat|..] == b;
  }

  /** A single character that is not in `a` occurs first right after `a`. */
  lemma CharNotInPrefix(a: string, c: char, b: string)
    requires c !in a
    ensures forall j :: 0 <= j < |a| ==> !OccursAt(a + [c] + b, [c], j)
  {
    forall j | 0 <= j < |a|
      ensures !OccursAt(a + [c] + b, [c], j)
    {
      assert (a + [c] + b)[j] == a[j];
    }
  }

  /** Splitting at a one-character pattern fails exactly when the character is absent, and otherwise splits at its first occurrence. */
  lemma SplitOnceChar(s: string, c: char)
    ensures SplitOnce(s, [c]).None? <==> c !in s
    ensures SplitOnce(s, [c]).Some? ==> c !in SplitOnce(s, [c]).value.0
  {
    if c in s {
      var j :| 0 <= j < |s| && s[j] == c;
      assert s[j..j + 1] == [c];
      assert OccursAt(s, [c], j);
    }
    match SplitOnce(s, [c])
    case None =>
    case Some((a, b)) =>
      forall j | 0 <= j < |a|
        ensures a[j] != c
      {
        assert !OccursAt(s, [c], j);
        assert s[j..j + 1] == [a[j]];
      }
  }

  /** `str::find` with a character pattern: the index of the first `c` in `s`. */
  function FindChar(s: string, c: char): (r: Option<nat>)
    ensures r.Some? ==> r.value < |s| && s[r.value] == c && c !in s[..r.value]
    ensures r.None? ==> c !in s
  {
    if |s| == 0 then None
    else if s[0] == c then Some(0)
    else match FindChar(s[1..], c)
      case None => None
      case Some(k) =>
        assert s[..k + 1] == [s[0]] + s[1..][..k];
        Some(k + 1)
  }

  /** The index of the last `c` in `s`. */
  function FindLastChar(s: string, c: char): (r: Option<nat>)
    ensures r.Some? ==> r.value < |s| && s[r.value] == c && c !in s[r.value + 1..]
    ensures r.None? ==> c !in s
  {
    if |s| == 0 then None
    else if s[|s| - 1] == c then Some(|s| - 1)
    else match FindLastChar(s[..|s| - 1], c)
      case None => None
      case Some(k) =>
        assert s[k + 1..] == s[..|s| - 1][k + 1..] + [s[|s| - 1]];
        Some(k)
  }

  /** `c` is found right after a prefix that does not hold it. */
  lemma FindCharAfter(a: string, c: char, b: string)
    requires c !in a
    ensures FindChar(a + [c] + b, c) == Some(|a|)
  {
    var s := a + [c] + b;
    if |a| > 0 {
      assert s[1..] == a[1..] + [c] + b;
      FindCharAfter(a[1..], c, b);
    }
  }

  // ---------------------------------------------------------------------------
  // Lines
  // ---------------------------------------------------------------------------

  predicate EndsWithCr(s: string) {
    |s| > 0 && s[|s| - 1] == '\r'
  }

  function StripCr(s: string): string {
    if EndsWithCr(s) then s[..|s| - 1] else s
  }

  /**
   * `str::lines` and `BufRead::lines`: the text split at every `\n`; a `\r`
   * directly before a `\n` is dropped with it, and a final `\n` does not start
   * an empty last line.
   */
  function Lines(s: string): (r: seq<string>)
    ensures forall i :: 0 <= i < |r| ==> '\n' !in r[i]
    ensures |s| == 0 <==> |r| == 0
    decreases |s|
  {
    if |s| == 0 then []
    else
      match FindChar(s, '\n')
      case None => [s]
      case Some(k) => [StripCr(s[..k])] + Lines(s[k + 1..])
  }

  /** Every line of `ls` followed by `\n`, as a file written with `writeln!`. */
  function Terminated(ls: seq<string>): string {
    if |ls| == 0 then "" else ls[0] + "\n" + Terminated(ls[1..])
  }

  /** `ls` joined with `sep` between neighbours, as `[..].join(sep)`. */
  function Join(ls: seq<string>, sep: string): string {
    if |ls| == 0 then ""
    else if |ls| == 1 then ls[0]
    else ls[0] + sep + Join(ls[1..], sep)
  }

  /** The concatenation of every string in `ls`. */
  function Concat(ls: seq<string>): string {
    if |ls| == 0 then "" else ls[0] + Concat(ls[1..])
  }

  /** A line `l` with no line break reads back from `l + "\n" + rest` as the first line. */
  lemma LinesCons(l: string, rest: string)
    requires '\n' !in l
    ensures Lines(l + "\n" + rest) == [StripCr(l)] + Lines(rest)
  {
    var s := l + "\n" + rest;
    FindCharAfter(l, '\n', rest);
    assert s[..|l|] == l;
    assert s[|l| + 1..] == rest;
  }

  /**
   * Reading back a file of `\n`-terminated lines gives the lines, provided no
   * line holds a `\n` or ends with a `\r`.
   */
  lemma {:induction false} LinesOfTerminated(ls: seq<string>)
    requires forall i :: 0 <= i < |ls| ==> '\n' !in ls[i] && !EndsWithCr(ls[i])
    ensures Lines(Terminated(ls)) == ls
  {
    if |ls| > 0 {
      LinesCons(ls[0], Terminated(ls[1..]));
      LinesOfTerminated(ls[1..]);
    }
  }

  /**
   * Reading back a file of `\n`-terminated lines without line breaks gives each
   * line less one final `\r`.
   */
  lemma {:induction false} LinesOfTerminatedStrip(ls: seq<string>)
    requires forall i :: 0 <= i < |ls| ==> '\n' !in ls[i]
    ensures |Lines(Terminated(ls))| == |ls|
    ensures forall i :: 0 <= i < |ls| ==> Lines(Terminated(ls))[i] == StripCr(ls[i])
  {
    if |ls| > 0 {
      LinesCons(ls[0], Terminated(ls[1..]));
      LinesOfTerminatedStrip(ls[1..]);
    }
  }

  /**
   * Reading back lines joined with `\n` gives the lines, provided no line holds a
   * `\n`, no line but the last ends with a `\r`, and the last line is not empty.
   */
  lemma {:induction false} LinesOfJoin(ls: seq<string>)
    requires |ls| > 0 && |ls[|ls| - 1]| > 0
    requires forall i :: 0 <= i < |ls| ==> '\n' !in ls[i]
    requires forall i :: 0 <= i < |ls| - 1 ==> !EndsWithCr(ls[i])
    ensures Lines(Join(ls, "\n")) == ls
  {
    if |ls| == 1 {
      assert Join(ls, "\n") == ls[0];
    } else {
      LinesCons(ls[0], Join(ls[1..], "\n"));
      LinesOfJoin(ls[1..]);
    }
  }

  // ---------------------------------------------------------------------------
  // UTF-8 lengths
  // ---------------------------------------------------------------------------

  /** The number of bytes the UTF-8 encoding of `c` takes. */
  function Utf8Width(c: char): (r: nat)
    ensures 1 <= r <= 4
    ensures r == 1 <==> (c as int) < 0x80
  {
    var n := c as int;
    if n < 0x80 then 1 else if n < 0x800 then 2 else if n < 0x10000 then 3 else 4
  }

  /** `str::len`: the length of `s` in bytes of UTF-8. */
  function ByteLen(s: string): (r: nat)
    ensures |s| <= r <= 4 * |s|
  {
    if |s| == 0 then 0 else Utf8Width(s[0]) + ByteLen(s[1..])
  }

  /** The bytes of the first `k + 1` characters are those of the first one and of the next `k`. */
  lemma ByteLenOfPrefix(s: string, k: nat)
    requires k < |s|
    ensures ByteLen(s[..k + 1]) == Utf8Width(s[0]) + ByteLen(s[1..][..k])
  {
    assert s[..k + 1][1..] == s[1..][..k];
  }

  /**
   * Where byte `b` of `s` starts a character (`str::is_char_boundary`), the
   * number of characters before it; `None` when byte `b` falls inside a
   * character or past the end.
   */
  function CharsBeforeByte(s: string, b: nat): (r: Option<nat>)
    ensures r.Some? ==> r.value <= |s| && ByteLen(s[..r.value]) == b
    ensures r.None? ==> forall k :: 0 <= k <= |s| ==> ByteLen(s[..k]) != b
  {
    if b == 0 then
      assert s[..0] == [];
      Some(0)
    else if |s| == 0 then
      assert forall k :: 0 <= k <= |s| ==> s[..k] == [];
      None
    else if Utf8Width(s[0]) > b then
      assert forall k :: 1 <= k <= |s| ==> ByteLen(s[..k]) >= Utf8Width(s[0]) by {
        forall k | 1 <= k <= |s|
          ensures ByteLen(s[..k]) >= Utf8Width(s[0])
        {
          ByteLenOfPrefix(s, k - 1);
        }
      }
      assert s[..0] == [];
      None
    else
      match CharsBeforeByte(s[1..], b - Utf8Width(s[0]))
      case None =>
        assert forall k :: 1 <= k <= |s| ==> ByteLen(s[..k]) != b by {
          forall k | 1 <= k <= |s|
            ensures ByteLen(s[..k]) != b
          {
            ByteLenOfPrefix(s, k - 1);
          }
        }
        assert s[..0] == [];
        None
      case Some(k) =>
        ByteLenOfPrefix(s, k);
        Some(k + 1)
  }

  /** In text whose first `n` characters are ASCII, byte `n` starts character `n`. */
  lemma {:induction false} CharsBeforeByteAscii(s: string, n: nat)
    requires n <= |s| && forall i :: 0 <= i < n ==> (s[i] as int) < 0x80
    ensures CharsBeforeByte(s, n) == Some(n)
  {
    if n > 0 {
      assert forall i :: 0 <= i < n - 1 ==> (s[1..][i] as int) < 0x80 by {
        forall i | 0 <= i < n - 1 ensures (s[1..][i] as int) < 0x80 {
          assert s[1..][i] == s[i + 1];
        }
      }
      CharsBeforeByteAscii(s[1..], n - 1);
    }
  }

  // ---------------------------------------------------------------------------
  // Ordering
  // ---------------------------------------------------------------------------

  /**
   * Rust's `Ord` on `str`: byte-wise lexicographic order of the UTF-8 encoding,
   * which is the lexicographic order of the code points.
   */
  predicate Less(a: string, b: string) {
    if |a| == 0 then |b| > 0
    else if |b| == 0 then false
    else if a[0] != b[0] then a[0] < b[0]
    else Less(a[1..], b[1..])
  }

  predicate LessEq(a: string, b: string) {
    a == b || Less(a, b)
  }

  lemma {:induction false} LessIrreflexive(a: string)
    ensures !Less(a, a)
  {
    if |a| > 0 {
      LessIrreflexive(a[1..]);
    }
  }

  lemma {:induction false} LessTransitive(a: string, b: string, c: string)
    requires Less(a, b) && Less(b, c)
    ensures Less(a, c)
  {
    if |a| > 0 && |b| > 0 && |c| > 0 && a[0] == b[0] && b[0] == c[0] {
      LessTransitive(a[1..], b[1..], c[1..]);
    }
  }

  lemma {:induction false} LessTotal(a: string, b: string)
    ensures a == b || Less(a, b) || Less(b, a)
  {
    if |a| > 0 && |b| > 0 && a[0] == b[0] {
      LessTotal(a[1..], b[1..]);
      if a[1..] == b[1..] {
        assert a == [a[0]] + a[1..] && b == [b[0]] + b[1..];
      }
    }
  }

  lemma LessAsymmetric(a: string, b: string)
    requires Less(a, b)
    ensures !Less(b, a)
  {
    if Less(b, a) {
      LessTransitive(a, b, a);
      LessIrreflexive(a);
    }
  }

  lemma LessEqTransitive(a: string, b: string, c: string)
    requires LessEq(a, b) && LessEq(b, c)
    ensures LessEq(a, c)
  {
    if a != b && b != c {
      LessTransitive(a, b, c);
    }
  }

  lemma LessEqTotal(a: string, b: string)
    ensures LessEq(a, b) || LessEq(b, a)
  {
    LessTotal(a, b);
  }

  // ---------------------------------------------------------------------------
  // Numbers and columns
  // ---------------------------------------------------------------------------

  predicate IsDigit(c: char) {
    '0' <= c <= '9'
  }

  function DigitChar(d: nat): (c: char)
    requires d < 10
    ensures IsDigit(c) && c as int - '0' as int == d
  {
    ('0' as int + d) as char
  }

  /** The number a string of decimal digits denotes. */
  function DecimalValue(s: string): nat
    requires forall i :: 0 <= i < |s| ==> IsDigit(s[i])
  {
    if |s| == 0 then 0
    else
      assert IsDigit(s[|s| - 1]);
      DecimalValue(s[..|s| - 1]) * 10 + (s[|s| - 1] as int - '0' as int)
  }

  /** `n.to_string()` / `format!("{}", n)`: the shortest decimal digits of `n`. */
  function NatToString(n: nat): (r: string)
    ensures |r| > 0 && forall i :: 0 <= i < |r| ==> IsDigit(r[i])
    ensures DecimalValue(r) == n
    ensures |r| > 1 ==> r[0] != '0'
  {
    if n < 10 then [DigitChar(n)]
    else
      var r := NatToString(n / 10) + [DigitChar(n % 10)];
      assert r[..|r| - 1] == NatToString(n / 10);
      r
  }

  function Spaces(n: nat): (r: string)
    ensures |r| == n && forall i :: 0 <= i < n ==> r[i] == ' '
  {
    if n == 0 then "" else " " + Spaces(n - 1)
  }

  /** `format!("{:>w}", s)`: `s` right-aligned in a column of `w` characters. */
  function PadLeft(s: string, w: nat): (r: string)
    ensures |r| == if |s| >= w then |s| else w
    ensures r == Spaces(|r| - |s|) + s
  {
    if |s| >= w then s else Spaces(w - |s|) + s
  }

  /** `format!("{:<w}", s)`: `s` left-aligned in a column of `w` characters. */
  function PadRight(s: string, w: nat): (r: string)
    ensures |r| == if |s| >= w then |s| else w
    ensures r == s + Spaces(|r| - |s|)
  {
    if |s| >= w then s else s + Spaces(w - |s|)
  }
}
