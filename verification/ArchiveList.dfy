/** The list of archived files (deps/zlog/src/rotater.c): read in any order, it comes out in the order of the
    indices. */
module ArchiveList {
  import opened Digits
  import opened ArchiveNames
  import opened ArrayList
  import opened Options
  import opened Rolling

  /** zlog_file_check_new: nothing for the log itself, for directories and for names that are too long or too narrow. */
  function FileOf(a: Place, path: string): Option<File> {
    if path == a.base || path == "" || path[|path| - 1] == '/' || |path| > MAXLEN_PATH || |path| < |a.prefix| then None
    else
      var (index, nread) := Scanned(path[|a.prefix|..]);
      if a.width != 0 && nread < a.width then None else Some(File(index, path))
  }

  /** zlog_file_cmp. */
  function Greater(f: File, g: File): bool {
    f.index > g.index
  }

  /** The list after these paths, as zlog_rotater_add_archive_files makes it. */
  function Collected(a: Place, paths: seq<string>): seq<Slot<File>> {
    if paths == [] then []
    else
      WithFile(Collected(a, paths[..|paths| - 1]), FileOf(a, paths[|paths| - 1]))
  }

  function WithFile(items: seq<Slot<File>>, f: Option<File>): seq<Slot<File>> {
    match f
    case None => items
    case Some(file) => SortAdded(items, Greater, file)
  }

  ghost predicate Sorted(items: seq<Slot<File>>) {
    && (forall i :: 0 <= i < |items| ==> items[i].Held?)
    && forall i, j :: 0 <= i < j < |items| ==> items[i].item.index <= items[j].item.index
  }

  /** Insertion keeps the order, after every file with the same index. */
  lemma SortedAdded(items: seq<Slot<File>>, f: File)
    requires Sorted(items)
    ensures Sorted(SortAdded(items, Greater, f))
    ensures multiset(SortAdded(items, Greater, f)) == multiset(items) + multiset{Held(f)}
  {
    var i := InsertionPoint(items, Greater, f);
    assert items == items[..i] + items[i..];
    AddedInOrder(items, f, i);
  }

  lemma AddedInOrder(items: seq<Slot<File>>, f: File, at: nat)
    requires Sorted(items) && at == InsertionPoint(items, Greater, f)
    ensures Sorted(items[..at] + [Held(f)] + items[at..])
  {
    var s := items[..at] + [Held(f)] + items[at..];
    forall i | 0 <= i < |s| ensures s[i].Held? {
      IsAddedAt(items, f, at, i);
    }
    forall i, j | 0 <= i < j < |s| ensures s[i].item.index <= s[j].item.index {
      IsAddedAt(items, f, at, i);
      IsAddedAt(items, f, at, j);
      PairInOrder(items, f, at, i, j);
    }
  }

  lemma IsAddedAt(items: seq<Slot<File>>, f: File, at: nat, i: nat)
    requires at <= |items| && i <= |items|
    ensures (items[..at] + [Held(f)] + items[at..])[i] == AddedAt(items, f, at, i)
  {
  }

  ghost function AddedAt(items: seq<Slot<File>>, f: File, at: nat, i: nat): Slot<File>
    requires at <= |items| && i <= |items|
  {
    if i < at then items[i] else if i == at then Held(f) else items[i - 1]
  }

  lemma PairInOrder(items: seq<Slot<File>>, f: File, at: nat, i: nat, j: nat)
    requires Sorted(items) && at == InsertionPoint(items, Greater, f) && i < j <= |items|
    ensures var x, y := AddedAt(items, f, at, i), AddedAt(items, f, at, j);
            x.Held? && y.Held? && x.item.index <= y.item.index
  {
  }

  lemma {:induction false} CollectedSorted(a: Place, paths: seq<string>)
    ensures Sorted(Collected(a, paths))
  {
    if paths != [] {
      var k := |paths| - 1;
      CollectedSorted(a, paths[..k]);
      var f := FileOf(a, paths[k]);
      if f.Some? {
        SortedAdded(Collected(a, paths[..k]), f.value);
      }
    }
  }

  /** Every file that is recognised is in the list. */
  lemma {:induction false} CollectedHas(a: Place, paths: seq<string>, path: string)
    requires path in paths && FileOf(a, path).Some?
    ensures Held(FileOf(a, path).value) in Collected(a, paths)
  {
    var k := |paths| - 1;
    var before, f := Collected(a, paths[..k]), FileOf(a, paths[k]);
    if f.Some? {
      var at := InsertionPoint(before, Greater, f.value);
      assert before == before[..at] + before[at..];
    }
    if path != paths[k] {
      assert path in paths[..k];
      CollectedHas(a, paths[..k], path);
    }
  }

  lemma {:induction false} CollectedShorter(a: Place, paths: seq<string>)
    ensures |Collected(a, paths)| <= |paths|
  {
    if paths != [] {
      CollectedShorter(a, paths[..|paths| - 1]);
    }
  }

  // ----- the archives among the paths -----

  lemma FileOfName(a: Place, n: nat)
    requires Sensible(a) && |Name(a, n)| <= MAXLEN_PATH
    ensures FileOf(a, Name(a, n)) == Some(File(n, Name(a, n)))
  {
    NameIsRead(a, n);
    PaddedIsDigits(n, a.width);
    var p := Name(a, n);
    assert p != a.base && p != "";
    if a.suffix == "" {
      var d := Padded(Decimal(n), a.width);
      assert p[|p| - 1] == d[|d| - 1];
    } else {
      assert p[|p| - 1] == a.suffix[|a.suffix| - 1];
    }
  }

  /** Every path is that of an archive with an index in the range, or the log. */
  ghost predicate Named(a: Place, paths: seq<string>, lo: nat, hi: nat) {
    forall k :: 0 <= k < |paths| ==> paths[k] == a.base || exists n: nat :: lo <= n < hi && paths[k] == Name(a, n)
  }

  ghost predicate NoDuplicates(paths: seq<string>) {
    forall j, k :: 0 <= j < k < |paths| ==> paths[j] != paths[k]
  }

  /** The list holds exactly the archives among the paths, each once. */
  ghost predicate Lists(items: seq<Slot<File>>, a: Place, paths: seq<string>, lo: nat, hi: nat) {
    && Sorted(items)
    && (forall i :: 0 <= i < |items| ==> Listed(items[i], a, paths, lo, hi))
    && (forall n: nat {:trigger Name(a, n)} ::
          lo <= n < hi && Name(a, n) in paths ==> Held(File(n, Name(a, n))) in items)
    && (forall i, j :: 0 <= i < j < |items| ==> items[i] != items[j])
  }

  ghost predicate Listed(s: Slot<File>, a: Place, paths: seq<string>, lo: nat, hi: nat) {
    s != Null && lo <= s.item.index < hi && s.item.path == Name(a, s.item.index) && s.item.path in paths
  }

  lemma AddedOnce(items: seq<Slot<File>>, f: File)
    requires Sorted(items) && (forall i, j :: 0 <= i < j < |items| ==> items[i] != items[j]) && Held(f) !in items
    ensures var s := SortAdded(items, Greater, f); forall i, j :: 0 <= i < j < |s| ==> s[i] != s[j]
    ensures forall x :: x in SortAdded(items, Greater, f) <==> x in items || x == Held(f)
  {
    var at := InsertionPoint(items, Greater, f);
    var s := SortAdded(items, Greater, f);
    assert items == items[..at] + items[at..];
    forall i, j | 0 <= i < j < |s| ensures s[i] != s[j] {
      IsAddedAt(items, f, at, i);
      IsAddedAt(items, f, at, j);
      PairDiffers(items, f, at, i, j);
    }
  }

  lemma PairDiffers(items: seq<Slot<File>>, f: File, at: nat, i: nat, j: nat)
    requires (forall i, j :: 0 <= i < j < |items| ==> items[i] != items[j]) && Held(f) !in items && at <= |items|
             && i < j <= |items|
    ensures AddedAt(items, f, at, i) != AddedAt(items, f, at, j)
  {
  }

  lemma {:induction false} CollectedLists(a: Place, paths: seq<string>, lo: nat, hi: nat)
    requires Sensible(a) && Named(a, paths, lo, hi) && NoDuplicates(paths)
    requires forall n: nat :: lo <= n < hi ==> |Name(a, n)| <= MAXLEN_PATH
    ensures Lists(Collected(a, paths), a, paths, lo, hi)
  {
    if paths != [] {
      var k := |paths| - 1;
      CollectedLists(a, paths[..k], lo, hi);
      ListsOneMore(Collected(a, paths[..k]), a, paths, lo, hi);
    }
  }

  lemma ListsOneMore(items: seq<Slot<File>>, a: Place, paths: seq<string>, lo: nat, hi: nat)
    requires Sensible(a) && Named(a, paths, lo, hi) && NoDuplicates(paths) && paths != []
    requires forall n: nat :: lo <= n < hi ==> |Name(a, n)| <= MAXLEN_PATH
    requires Lists(items, a, paths[..|paths| - 1], lo, hi)
    ensures Lists(WithFile(items, FileOf(a, paths[|paths| - 1])), a, paths, lo, hi)
  {
    var k := |paths| - 1;
    if paths[k] == a.base {
      ListsWithLog(items, a, paths[..k], lo, hi);
      assert paths == paths[..k] + [a.base];
    } else {
      var n: nat :| lo <= n < hi && paths[k] == Name(a, n);
      FileOfName(a, n);
      ListsWithPath(items, a, paths, lo, hi, n);
    }
  }

  lemma ListsWithPath(items: seq<Slot<File>>, a: Place, paths: seq<string>, lo: nat, hi: nat, n: nat)
    requires Sensible(a) && NoDuplicates(paths) && paths != [] && lo <= n < hi
    requires paths[|paths| - 1] == Name(a, n) && Lists(items, a, paths[..|paths| - 1], lo, hi)
    ensures Lists(SortAdded(items, Greater, File(n, Name(a, n))), a, paths, lo, hi)
  {
    assert paths == paths[..|paths| - 1] + [Name(a, n)];
    NotYet(items, a, paths, lo, hi, n);
    ListsWithName(items, a, paths[..|paths| - 1], lo, hi, n);
  }

  lemma ListsWithLog(items: seq<Slot<File>>, a: Place, paths: seq<string>, lo: nat, hi: nat)
    requires Sensible(a) && Lists(items, a, paths, lo, hi)
    ensures Lists(items, a, paths + [a.base], lo, hi)
  {
    forall i | 0 <= i < |items| ensures Listed(items[i], a, paths + [a.base], lo, hi) {
      assert Listed(items[i], a, paths, lo, hi);
    }
  }

  lemma NotYet(items: seq<Slot<File>>, a: Place, paths: seq<string>, lo: nat, hi: nat, n: nat)
    requires paths != [] && NoDuplicates(paths) && paths[|paths| - 1] == Name(a, n)
             && Lists(items, a, paths[..|paths| - 1], lo, hi)
    ensures Held(File(n, Name(a, n))) !in items
  {
    var k := |paths| - 1;
    forall i | 0 <= i < |items| ensures items[i] != Held(File(n, Name(a, n))) {
      assert Listed(items[i], a, paths[..k], lo, hi);
      var j :| 0 <= j < k && paths[..k][j] == items[i].item.path;
      assert paths[j] != paths[k];
    }
  }

  lemma ListsWithName(items: seq<Slot<File>>, a: Place, paths: seq<string>, lo: nat, hi: nat, n: nat)
    requires Sensible(a) && Lists(items, a, paths, lo, hi) && lo <= n < hi && Held(File(n, Name(a, n))) !in items
    ensures Lists(SortAdded(items, Greater, File(n, Name(a, n))), a, paths + [Name(a, n)], lo, hi)
  {
    var f, paths' := File(n, Name(a, n)), paths + [Name(a, n)];
    var s := SortAdded(items, Greater, f);
    SortedAdded(items, f);
    AddedOnce(items, f);
    forall i | 0 <= i < |s| ensures Listed(s[i], a, paths', lo, hi) {
      assert s[i] in s;
      if s[i] != Held(f) {
        var j :| 0 <= j < |items| && items[j] == s[i];
        assert Listed(items[j], a, paths, lo, hi);
      }
    }
    forall m: nat {:trigger Name(a, m)} | lo <= m < hi && Name(a, m) in paths'
      ensures Held(File(m, Name(a, m))) in s
    {
      Distinct(a, m, n);
    }
  }

  lemma StrictlySorted(items: seq<Slot<File>>, a: Place, paths: seq<string>, lo: nat, hi: nat, i: nat, j: nat)
    requires Lists(items, a, paths, lo, hi) && i < j < |items|
    ensures items[i] != Null && items[j] != Null && items[i].item.index < items[j].item.index
  {
    assert Listed(items[i], a, paths, lo, hi) && Listed(items[j], a, paths, lo, hi);
  }

  /** Distinct indices that fill a range, in order, are the range. */
  lemma {:induction false} FillsRange(items: seq<Slot<File>>, a: Place, paths: seq<string>, lo: nat, hi: nat, i: nat)
    requires Lists(items, a, paths, lo, hi) && forall n: nat :: lo <= n < hi ==> Name(a, n) in paths
    requires lo <= hi && i <= hi - lo
    ensures Begins(items, a, lo, i)
  {
    if i > 0 {
      FillsRange(items, a, paths, lo, hi, i - 1);
      var p := Found(items, a, paths, lo, hi, lo + i - 1);
      ThatOne(items, a, paths, lo, hi, i - 1, p);
      OneMore(items, a, lo, i - 1);
    }
  }

  lemma Found(items: seq<Slot<File>>, a: Place, paths: seq<string>, lo: nat, hi: nat, v: nat) returns (p: nat)
    requires Lists(items, a, paths, lo, hi) && lo <= v < hi && Name(a, v) in paths
    ensures p < |items| && items[p] == Held(File(v, Name(a, v)))
  {
    var q :| 0 <= q < |items| && items[q] == Held(File(v, Name(a, v)));
    p := q;
  }

  lemma OneMore(items: seq<Slot<File>>, a: Place, lo: nat, i: nat)
    requires Begins(items, a, lo, i) && i < |items| && items[i] == Held(File(lo + i, Name(a, lo + i)))
    ensures Begins(items, a, lo, i + 1)
  {
  }

  lemma ThatOne(items: seq<Slot<File>>, a: Place, paths: seq<string>, lo: nat, hi: nat, i: nat, p: nat)
    requires Lists(items, a, paths, lo, hi) && Begins(items, a, lo, i) && p < |items|
             && items[p] == Held(File(lo + i, Name(a, lo + i)))
    ensures p == i
  {
    NotBelow(items, a, paths, lo, hi, i);
    if p > i {
      StrictlySorted(items, a, paths, lo, hi, i, p);
    }
  }

  ghost predicate Begins(items: seq<Slot<File>>, a: Place, lo: nat, i: nat) {
    i <= |items| && forall k: nat :: k < i ==> items[k] == Held(File(lo + k, Name(a, lo + k)))
  }

  /** After the first i indices of a range, the next is no lower than the next of the range. */
  lemma NotBelow(items: seq<Slot<File>>, a: Place, paths: seq<string>, lo: nat, hi: nat, i: nat)
    requires Lists(items, a, paths, lo, hi) && Begins(items, a, lo, i) && i < |items|
    ensures items[i] != Null && items[i].item.index >= lo + i
  {
    assert Listed(items[i], a, paths, lo, hi);
    if i > 0 {
      StrictlySorted(items, a, paths, lo, hi, i - 1, i);
    }
  }

  lemma RangeIsAll(items: seq<Slot<File>>, a: Place, paths: seq<string>, lo: nat, hi: nat)
    requires Lists(items, a, paths, lo, hi) && (forall n: nat :: lo <= n < hi ==> Name(a, n) in paths) && lo <= hi
    ensures |items| == hi - lo && forall k: nat :: k < |items| ==> items[k] == Held(File(lo + k, Name(a, lo + k)))
  {
    FillsRange(items, a, paths, lo, hi, hi - lo);
    if |items| > hi - lo {
      assert Listed(items[hi - lo], a, paths, lo, hi);
      NotBelow(items, a, paths, lo, hi, hi - lo);
    }
  }

  // ----- the list of any directory -----

  /** Different paths of the directory that are not the log. */
  ghost predicate FromPaths(items: seq<Slot<File>>, a: Place, paths: seq<string>) {
    && (forall i :: 0 <= i < |items| ==> items[i].Held? && items[i].item.path in paths && items[i].item.path != a.base)
    && forall i, j :: 0 <= i < j < |items| ==> items[i] != items[j] && items[i].item.path != items[j].item.path
  }

  lemma FromPathsOn(items: seq<Slot<File>>, a: Place, paths: seq<string>, f: File)
    requires Sorted(items) && paths != [] && NoDuplicates(paths) && FromPaths(items, a, paths[..|paths| - 1])
    requires f.path == paths[|paths| - 1] && f.path != a.base
    ensures FromPaths(SortAdded(items, Greater, f), a, paths)
  {
    var s, at := SortAdded(items, Greater, f), InsertionPoint(items, Greater, f);
    forall i | 0 <= i < |s| ensures s[i].Held? && s[i].item.path in paths && s[i].item.path != a.base {
      IsAddedAt(items, f, at, i);
      assert s[i] == AddedAt(items, f, at, i);
    }
    forall i, j | 0 <= i < j < |s| ensures s[i] != s[j] && s[i].item.path != s[j].item.path {
      IsAddedAt(items, f, at, i);
      IsAddedAt(items, f, at, j);
      assert paths[|paths| - 1] !in paths[..|paths| - 1];
    }
  }

  lemma {:induction false} CollectedFromPaths(a: Place, paths: seq<string>)
    requires NoDuplicates(paths)
    ensures FromPaths(Collected(a, paths), a, paths)
  {
    if paths != [] {
      var init, last := paths[..|paths| - 1], paths[|paths| - 1];
      CollectedFromPaths(a, init);
      CollectedSorted(a, init);
      if FileOf(a, last).Some? {
        FromPathsOn(Collected(a, init), a, paths, FileOf(a, last).value);
      }
    }
  }

  /** A name that is not too long is always recognised, whatever the index that is read from it. */
  lemma NameIsFile(a: Place, n: nat)
    requires Proper(a) && |Name(a, n)| <= MAXLEN_PATH
    ensures FileOf(a, Name(a, n)).Some? && FileOf(a, Name(a, n)).value.path == Name(a, n)
            && FileOf(a, Name(a, n)).value.index >= n
  {
    NameIsWide(a, n);
    PaddedIsDigits(n, a.width);
    var p, d := Name(a, n), Padded(Decimal(n), a.width);
    assert p != a.base && |d| > 0;
    if a.suffix == "" {
      assert p[|p| - 1] == d[|d| - 1];
    } else {
      assert p[|p| - 1] == a.suffix[|a.suffix| - 1];
    }
  }
}
