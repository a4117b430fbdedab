/**
 * `get_sorted_entries` (`display.rs`): the entries `read_dir` yields, without
 * those that fail to read, without hidden names unless every entry is wanted,
 * in the stable order of their lower-cased names.
 */
module Entries {
  import opened Wrappers
  import opened Text

  // ---------------------------------------------------------------------------
  // Stable sort by a string key (`slice::sort_by` with `str::cmp`)
  // ---------------------------------------------------------------------------

  /** Each element's key is at most the next one's. */
  predicate SortedBy<T>(s: seq<T>, key: T -> string) {
    forall i :: 0 < i < |s| ==> LessEq(key(s[i - 1]), key(s[i]))
  }

  /** `x` placed before the first element whose key is not smaller than its own. */
  function Insert<T>(x: T, s: seq<T>, key: T -> string): (r: seq<T>)
    ensures multiset(r) == multiset(s) + multiset{x}
    ensures |r| == |s| + 1
    ensures r[0] == x || (|s| > 0 && r[0] == s[0])
    ensures SortedBy(s, key) ==> SortedBy(r, key)
  {
    if |s| == 0 then [x]
    else if LessEq(key(x), key(s[0])) then [x] + s
    else
      var rest := Insert(x, s[1..], key);
      LessEqTotal(key(x), key(s[0]));
      assert s == [s[0]] + s[1..];
      [s[0]] + rest
  }

  /** Insertion sort: stable, since an element goes before the equal keys that followed it. */
  function SortBy<T>(s: seq<T>, key: T -> string): (r: seq<T>)
    ensures multiset(r) == multiset(s)
    ensures |r| == |s|
    ensures SortedBy(r, key)
  {
    if |s| == 0 then []
    else
      assert s == [s[0]] + s[1..];
      Insert(s[0], SortBy(s[1..], key), key)
  }

  /** The elements of `s` whose key is `k`, in their order in `s`. */
  function WithKey<T>(s: seq<T>, key: T -> string, k: string): seq<T> {
    if |s| == 0 then []
    else (if key(s[0]) == k then [s[0]] else []) + WithKey(s[1..], key, k)
  }

  lemma WithKeyCons<T>(y: T, t: seq<T>, key: T -> string, k: string)
    ensures WithKey([y] + t, key, k) == (if key(y) == k then [y] else []) + WithKey(t, key, k)
  {
    assert ([y] + t)[1..] == t;
  }

  /** An element that goes after the head cannot share the head's key. */
  lemma PassedHeadDiffers<T>(x: T, y: T, key: T -> string)
    requires !LessEq(key(x), key(y))
    ensures key(x) != key(y)
  {
    if key(x) == key(y) {
      LessIrreflexive(key(y));
    }
  }

  lemma {:induction false} InsertWithKey<T>(x: T, s: seq<T>, key: T -> string, k: string)
    ensures WithKey(Insert(x, s, key), key, k) == (if key(x) == k then [x] else []) + WithKey(s, key, k)
  {
    var mine: seq<T> := if key(x) == k then [x] else [];
    if |s| == 0 {
      WithKeyCons(x, [], key, k);
      assert [x] + [] == [x];
    } else if LessEq(key(x), key(s[0])) {
      WithKeyCons(x, s, key, k);
    } else {
      var rest := Insert(x, s[1..], key);
      InsertWithKey(x, s[1..], key, k);
      WithKeyCons(s[0], rest, key, k);
      WithKeyCons(s[0], s[1..], key, k);
      assert s == [s[0]] + s[1..];
      var theirs: seq<T> := if key(s[0]) == k then [s[0]] else [];
      PassedHeadDiffers(x, s[0], key);
      assert theirs + mine == mine + theirs;
    }
  }

  /** Stability: the elements sharing any one key keep their relative order. */
  lemma {:induction false} SortKeepsTies<T>(s: seq<T>, key: T -> string, k: string)
    ensures WithKey(SortBy(s, key), key, k) == WithKey(s, key, k)
  {
    if |s| > 0 {
      SortKeepsTies(s[1..], key, k);
      InsertWithKey(s[0], SortBy(s[1..], key), key, k);
    }
  }

  /** Sorted in the adjacent sense means every earlier key is at most every later one. */
  lemma {:induction false} SortedPairwise<T>(s: seq<T>, key: T -> string, i: nat, j: nat)
    requires SortedBy(s, key) && i <= j < |s|
    ensures LessEq(key(s[i]), key(s[j]))
    decreases j - i
  {
    if i < j {
      SortedPairwise(s, key, i + 1, j);
      LessEqTransitive(key(s[i]), key(s[i + 1]), key(s[j]));
    }
  }

  // ---------------------------------------------------------------------------
  // Filtering and the listing order
  // ---------------------------------------------------------------------------

  /** The entries that read successfully (`filter_map(|e| e.ok())`), in order. */
  function Present<T(!new)>(s: seq<Option<T>>): (r: seq<T>)
    ensures forall x :: x in r <==> Some(x) in s
    ensures |r| <= |s|
  {
    if |s| == 0 then []
    else
      assert forall x :: Some(x) in s <==> Some(x) == s[0] || Some(x) in s[1..];
      (if s[0].Some? then [s[0].value] else []) + Present(s[1..])
  }

  /** A name `ls` hides unless asked not to; a name that is not valid UTF-8 never is. */
  predicate IsHidden(name: Option<string>) {
    name.Some? && |name.value| > 0 && name.value[0] == '.'
  }

  /** The entries shown, in their read order. */
  function Visible<T(!new)>(s: seq<T>, name: T -> Option<string>, showAll: bool): (r: seq<T>)
    ensures showAll ==> r == s
    ensures forall x :: x in r <==> x in s && (showAll || !IsHidden(name(x)))
    ensures multiset(r) <= multiset(s)
  {
    if showAll || |s| == 0 then s
    else
      assert s == [s[0]] + s[1..];
      (if IsHidden(name(s[0])) then [] else [s[0]]) + Visible(s[1..], name, showAll)
  }

  /** The sort key: the lower-cased name, or the empty string when it is not valid UTF-8. */
  function SortKey(name: Option<string>): string {
    ToLower(name.GetOr(""))
  }

  /**
   * `get_sorted_entries` over the result of `read_dir`: nothing when the
   * directory cannot be read, otherwise the visible entries sorted by key.
   */
  function SortedEntries<T(!new)>(read: Option<seq<Option<T>>>, name: T -> Option<string>, showAll: bool): (r: seq<T>)
    ensures read.None? ==> r == []
    ensures read.Some? ==> multiset(r) == multiset(Visible(Present(read.value), name, showAll))
    ensures SortedBy(r, x => SortKey(name(x)))
  {
    match read
    case None => []
    case Some(es) => SortBy(Visible(Present(es), name, showAll), x => SortKey(name(x)))
  }

  /**
   * The entries listed are exactly the readable ones, less the hidden ones
   * unless `showAll`; each appears as often as it was read.
   */
  lemma EntriesShown<T(!new)>(es: seq<Option<T>>, name: T -> Option<string>, showAll: bool)
    ensures var r := SortedEntries(Some(es), name, showAll);
            && (forall x :: x in r <==> Some(x) in es && (showAll || !IsHidden(name(x))))
            && (showAll ==> multiset(r) == multiset(Present(es)))
  {
    var r := SortedEntries(Some(es), name, showAll);
    var v := Visible(Present(es), name, showAll);
    assert multiset(r) == multiset(v);
    forall x
      ensures x in r <==> x in v
    {
      assert x in r <==> multiset(r)[x] > 0;
      assert x in v <==> multiset(v)[x] > 0;
    }
  }

  /** Entries with the same lower-cased name stay in their read order. */
  lemma EntriesStable<T(!new)>(es: seq<Option<T>>, name: T -> Option<string>, showAll: bool, k: string)
    ensures var key := x => SortKey(name(x));
            WithKey(SortedEntries(Some(es), name, showAll), key, k) ==
            WithKey(Visible(Present(es), name, showAll), key, k)
  {
    SortKeepsTies(Visible(Present(es), name, showAll), x => SortKey(name(x)), k);
  }
}
