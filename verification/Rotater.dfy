/** Log rotation over a directory (deps/zlog/src/rotater.c). */
module Rotater {
  import opened Digits
  import opened ArchiveNames
  import opened ArrayList
  import opened Options
  import opened Rolling
  import opened Sequencing
  import opened ArchiveList

  /** What the file system offers, with paths mapped to what the files hold. */
  class Directory<T(!new)> {
    var files: map<string, T>

    method Unlink(path: string) returns (rc: int)
      modifies this
      ensures if path in old(files) then rc == 0 && files == old(files) - {path} else rc == -1 && files == old(files)
    {
      if path !in files {
        return -1;
      }
      files := files - {path};
      return 0;
    }

    method Rename(from: string, to: string) returns (rc: int)
      modifies this
      ensures if from in old(files) then rc == 0 && files == Moved(old(files), from, to)
              else rc == -1 && files == old(files)
    {
      if from !in files {
        return -1;
      }
      files := Moved(files, from, to);
      return 0;
    }

    /** The paths that match, in no particular order. */
    method Glob(a: Place) returns (paths: seq<string>)
      ensures Globbed(a, files, paths)
    {
      paths := Enumerate(set p | p in files && Matches(a, p));
    }
  }

  /** The elements of a set in any order. */
  method Enumerate(s: set<string>) returns (paths: seq<string>)
    ensures NoDuplicates(paths) && forall p :: p in paths <==> p in s
  {
    var rest := s;
    paths := [];
    while rest != {}
      invariant NoDuplicates(paths) && rest <= s && forall p :: p in paths <==> p in s - rest
      decreases rest
    {
      var p :| p in rest;
      assert forall j :: 0 <= j < |paths| ==> paths[j] in paths;
      paths, rest := paths + [p], rest - {p};
    }
  }

  /** The pattern is the path with "*" for the index. */
  predicate Matches(a: Place, p: string) {
    && |a.prefix| + |a.suffix| <= |p| && p[..|a.prefix|] == a.prefix && p[|p| - |a.suffix|..] == a.suffix
  }

  ghost predicate Globbed<T(!new)>(a: Place, m: map<string, T>, paths: seq<string>) {
    NoDuplicates(paths) && forall p :: p in paths <==> p in m && Matches(a, p)
  }

  /** Nothing matches but the archives and the log. */
  ghost predicate Clean<T(!new)>(a: Place, m: map<string, T>) {
    forall p :: p in m && Matches(a, p) && p != a.base ==> exists n: nat :: p == Name(a, n)
  }

  lemma NameMatches(a: Place, n: nat)
    ensures Matches(a, Name(a, n))
  {
    var p, d := Name(a, n), Padded(Decimal(n), a.width);
    assert p[..|a.prefix|] == a.prefix;
    assert p[|p| - |a.suffix|..] == a.suffix;
  }

  function FilesOf(items: seq<Slot<File>>): (files: seq<File>)
    requires forall i :: 0 <= i < |items| ==> items[i].Held?
    ensures |files| == |items| && forall i :: 0 <= i < |items| ==> items[i] == Held(files[i])
  {
    seq(|items|, i requires 0 <= i < |items| => items[i].item)
  }

  /** The list that is made of a directory whose archives are numbered without gaps. */
  lemma ListedFrom<T(!new)>(a: Place, m: map<string, T>, paths: seq<string>, lo: nat, hi: nat)
    requires Sensible(a) && Clean(a, m) && Globbed(a, m, paths) && lo <= hi
    requires forall n: nat {:trigger Name(a, n)} :: Name(a, n) in m <==> lo <= n < hi
    requires forall n: nat :: lo <= n < hi ==> |Name(a, n)| <= MAXLEN_PATH
    ensures var items := Collected(a, paths);
            (forall i :: 0 <= i < |items| ==> items[i].Held?) && NumberedFrom(FilesOf(items), a, lo)
            && |items| == hi - lo
  {
    PathsNamed(a, m, paths, lo, hi);
    CollectedLists(a, paths, lo, hi);
    NamesFound(a, m, paths, lo, hi);
    RangeIsAll(Collected(a, paths), a, paths, lo, hi);
  }

  lemma PathsNamed<T(!new)>(a: Place, m: map<string, T>, paths: seq<string>, lo: nat, hi: nat)
    requires Clean(a, m) && Globbed(a, m, paths)
             && forall n: nat {:trigger Name(a, n)} :: Name(a, n) in m ==> lo <= n < hi
    ensures Named(a, paths, lo, hi)
  {
    forall k | 0 <= k < |paths| ensures paths[k] == a.base || exists n: nat :: lo <= n < hi && paths[k] == Name(a, n) {
      assert paths[k] in paths;
      if paths[k] != a.base {
        var n: nat :| paths[k] == Name(a, n);
        assert lo <= n < hi;
      }
    }
  }

  lemma NamesFound<T(!new)>(a: Place, m: map<string, T>, paths: seq<string>, lo: nat, hi: nat)
    requires Globbed(a, m, paths) && forall n: nat {:trigger Name(a, n)} :: Name(a, n) in m <==> lo <= n < hi
    ensures forall n: nat :: lo <= n < hi ==> Name(a, n) in paths
  {
    forall n: nat | lo <= n < hi ensures Name(a, n) in paths {
      NameMatches(a, n);
    }
  }

  // ----- what a rotation keeps -----

  /** The archives are these, from the first index on, under names that are not too long, and nothing else matches. */
  ghost predicate Holding<T(!new)>(m: map<string, T>, a: Place, first: nat, kept: seq<T>) {
    && Clean(a, m)
    && (forall n: nat {:trigger Name(a, n)} ::
          At(m, Name(a, n)) == if first <= n < first + |kept| then Some(kept[n - first]) else None)
    && forall n: nat {:trigger Name(a, n)} :: first <= n < first + |kept| ==> |Name(a, n)| <= MAXLEN_PATH
  }

  function Reversed<T>(s: seq<T>): (r: seq<T>)
    ensures |r| == |s| && forall k :: 0 <= k < |s| ==> r[k] == s[|s| - 1 - k]
  {
    seq(|s|, k requires 0 <= k < |s| => s[|s| - 1 - k])
  }

  lemma NewestReversed<T>(bodies: seq<T>, b: T, maxCount: nat)
    ensures Newest([b] + Newest(Reversed(bodies), maxCount), maxCount) == Newest(Reversed(bodies + [b]), maxCount)
  {
    assert Reversed(bodies + [b]) == [b] + Reversed(bodies);
  }

  lemma CleanAfter<T(!new)>(m: map<string, T>, m': map<string, T>, a: Place)
    requires Clean(a, m) && Elsewhere(m, m', a)
    ensures Clean(a, m')
  {
    forall p | p in m' && Matches(a, p) && p != a.base ensures exists n: nat :: p == Name(a, n) {
      if forall n: nat :: p != Name(a, n) {
        assert At(m', p) == At(m, p);
      }
    }
  }

  /** The files of the list that is made of such a directory. */
  lemma HeldList<T(!new)>(m: map<string, T>, a: Place, first: nat, kept: seq<T>, paths: seq<string>)
    requires Sensible(a) && Holding(m, a, first, kept) && Globbed(a, m, paths)
    ensures var items := Collected(a, paths);
      (forall i :: 0 <= i < |items| ==> items[i].Held?) && NumberedFrom(FilesOf(items), a, first) && |items| == |kept|
  {
    forall n: nat {:trigger Name(a, n)} ensures Name(a, n) in m <==> first <= n < first + |kept| {
      assert At(m, Name(a, n)).Some? <==> first <= n < first + |kept|;
    }
    ListedFrom(a, m, paths, first, first + |kept|);
  }

  /** Rolling: archive k holds what the log held k rotations ago. */
  lemma RollingHolds<T(!new)>(m: map<string, T>, a: Place, bodies: seq<T>, maxCount: nat, paths: seq<string>)
    requires Sensible(a) && Holding(m, a, 0, Newest(Reversed(bodies), maxCount)) && Globbed(a, m, paths)
    requires forall i :: 0 <= i < |Collected(a, paths)| ==> Collected(a, paths)[i].Held?
    requires RollDown(m, a, maxCount, FilesOf(Collected(a, paths)), |Collected(a, paths)|).Done?
    ensures var m' := RollDown(m, a, maxCount, FilesOf(Collected(a, paths)), |Collected(a, paths)|).files;
      && a.base in m && a.base !in m' && Elsewhere(m, m', a)
      && Holding(m', a, 0, Newest(Reversed(bodies + [m[a.base]]), maxCount))
  {
    var kept, files := Newest(Reversed(bodies), maxCount), FilesOf(Collected(a, paths));
    HeldList(m, a, 0, kept, paths);
    RollsHistory(m, a, kept, maxCount, files);
    NewestReversed(bodies, m[a.base], maxCount);
    CleanAfter(m, RollDown(m, a, maxCount, files, |files|).files, a);
  }

  lemma RollsHistory<T(!new)>(m: map<string, T>, a: Place, kept: seq<T>, maxCount: nat, files: seq<File>)
    requires Apart(a) && NumberedFrom(files, a, 0) && |files| == |kept| && Holding(m, a, 0, kept)
    requires RollDown(m, a, maxCount, files, |files|).Done?
    ensures a.base in m
            && Rolled(m, a, Newest([m[a.base]] + kept, maxCount), RollDown(m, a, maxCount, files, |files|))
            && ShortNames(a, maxCount, |files|)
  {
    NumberedHolds(m, a, kept, files, maxCount);
    DoneNeeds(m, a, maxCount, files, |files|);
    RollsExactly(m, a, kept, maxCount, files);
    RolledArchives(m, a, kept, maxCount, files, RollDown(m, a, maxCount, files, |files|));
  }

  /** Archives that are numbered from 0 are where their place in the list says, so that none collides. */
  lemma NumberedHolds<T(!new)>(m: map<string, T>, a: Place, kept: seq<T>, files: seq<File>, maxCount: nat)
    requires Apart(a) && NumberedFrom(files, a, 0) && |files| == |kept| && Holding(m, a, 0, kept)
    ensures Listing(m, a, files, kept, maxCount) && OnlyArchives(m, a, files) && NoneCollides(files, a, maxCount)
  {
    assert forall i :: 0 <= i < |files| ==> files[i].path == Name(a, i);
    forall i | 0 <= i < |files| ensures At(m, files[i].path) == Some(kept[i]) && files[i].path != a.base {
      assert At(m, Name(a, i)) == Some(kept[i]);
    }
    assert forall i: nat :: i < |files| ==> IsArchive(a, Name(a, i));
    forall i, j | 0 <= i < j < |files| ensures files[i].path != files[j].path {
      Distinct(a, i, j);
    }
    forall n: nat {:trigger Name(a, n)} | Name(a, n) in m ensures PlaceIn(files, |files|, Name(a, n)).Some? {
      assert At(m, Name(a, n)).Some?;
      PlaceInIs(files, |files|, Name(a, n));
      assert files[n].path == Name(a, n);
    }
    forall k: nat, n: nat ensures !Collides(files, a, maxCount, k, n) {
      if k < |files| {
        Distinct(a, k, n);
      }
    }
  }

  /** Sequence: archive n holds what the log held at rotation n, and the oldest go. */
  lemma SequenceHolds<T(!new)>(m: map<string, T>, a: Place, bodies: seq<T>, maxCount: nat, paths: seq<string>)
    requires Sensible(a) && Globbed(a, m, paths)
    requires Holding(m, a, Lowest(|bodies|, maxCount), bodies[Lowest(|bodies|, maxCount)..])
    requires forall i :: 0 <= i < |Collected(a, paths)| ==> Collected(a, paths)[i].Held?
    requires SeqRotated(m, a, maxCount, FilesOf(Collected(a, paths))).Done?
    ensures var m' := SeqRotated(m, a, maxCount, FilesOf(Collected(a, paths))).files;
      && a.base in m && a.base !in m' && Elsewhere(m, m', a)
      && Holding(m', a, Lowest(|bodies| + 1, maxCount), (bodies + [m[a.base]])[Lowest(|bodies| + 1, maxCount)..])
  {
    var lo, files := Lowest(|bodies|, maxCount), FilesOf(Collected(a, paths));
    HeldList(m, a, lo, bodies[lo..], paths);
    assert Sequencing.Sequence(m, a, bodies, lo);
    SequenceDone(m, a, bodies, maxCount, files);
    Sequences(m, a, bodies, maxCount, files);
    var m' := SeqRotated(m, a, maxCount, files).files;
    CleanAfter(m, m', a);
    HoldingSequence(m', a, bodies, m[a.base], lo, Lowest(|bodies| + 1, maxCount));
  }

  lemma HoldingSequence<T(!new)>(m: map<string, T>, a: Place, bodies: seq<T>, b: T, lo: nat, lo': nat)
    requires Clean(a, m) && lo <= lo' <= |bodies| && Sequencing.Sequence(m, a, bodies + [b], lo')
    requires (forall n: nat {:trigger Name(a, n)} :: lo <= n < |bodies| ==> |Name(a, n)| <= MAXLEN_PATH)
    requires |Name(a, |bodies|)| <= MAXLEN_PATH
    ensures Holding(m, a, lo', (bodies + [b])[lo'..])
  {
  }

  lemma WrittenHolds<T(!new)>(m: map<string, T>, a: Place, first: nat, kept: seq<T>, body: T)
    requires Sensible(a) && Holding(m, a, first, kept)
    ensures Holding(m[a.base := body], a, first, kept)
  {
    var m' := m[a.base := body];
    forall n: nat {:trigger Name(a, n)} ensures At(m', Name(a, n)) == At(m, Name(a, n)) {
      assert Name(a, n) != a.base;
    }
  }

  // ----- what a rotation does to any directory -----

  /** The list that is made of any directory: different files, and all that a file could be moved to. */
  lemma ListsDirectory<T(!new)>(a: Place, m: map<string, T>, maxCount: nat, paths: seq<string>)
    returns (files: seq<File>, contents: seq<T>)
    requires Proper(a) && Globbed(a, m, paths) && ShortNames(a, maxCount, |paths|)
    ensures forall i :: 0 <= i < |Collected(a, paths)| ==> Collected(a, paths)[i].Held?
    ensures files == FilesOf(Collected(a, paths)) && Listing(m, a, files, contents, maxCount) && |files| <= |paths|
  {
    var items := Collected(a, paths);
    CollectedFromPaths(a, paths);
    CollectedShorter(a, paths);
    files := FilesOf(items);
    contents := seq(|files|, i requires 0 <= i < |files| => m[files[i].path]);
    forall i, j | 0 <= i < j < |files| ensures files[i].path != files[j].path {
      assert items[i].item.path != items[j].item.path;
    }
    forall n: nat {:trigger Name(a, n)} | n <= |files| && IsUsed(maxCount, n) && Name(a, n) in m
      ensures PlaceIn(files, |files|, Name(a, n)).Some?
    {
      NameInList(a, m, paths, n);
      var i :| 0 <= i < |items| && items[i].Held? && items[i].item.path == Name(a, n);
      PlaceInIs(files, |files|, Name(a, n));
      assert files[i].path == Name(a, n);
    }
  }

  lemma NameInList<T(!new)>(a: Place, m: map<string, T>, paths: seq<string>, n: nat)
    requires Proper(a) && Globbed(a, m, paths) && Name(a, n) in m && |Name(a, n)| <= MAXLEN_PATH
    ensures exists i :: 0 <= i < |Collected(a, paths)| && Collected(a, paths)[i].Held?
                        && Collected(a, paths)[i].item.path == Name(a, n) && Collected(a, paths)[i].item.index >= n
  {
    NameMatches(a, n);
    NameIsFile(a, n);
    CollectedHas(a, paths, Name(a, n));
  }

  /** For every directory, whatever matches the pattern in it and in whatever order its files are read, rolling takes
      the files of the list to the names after their places and loses nothing if and only if none of them lies at such
      a name two or more after its own place. */
  lemma RollsAnyDirectory<T(!new)>(a: Place, m: map<string, T>, maxCount: nat, paths: seq<string>)
    returns (files: seq<File>, contents: seq<T>)
    requires Proper(a) && Globbed(a, m, paths) && a.base in m && ShortNames(a, maxCount, |paths|)
    ensures forall i :: 0 <= i < |Collected(a, paths)| ==> Collected(a, paths)[i].Held?
    ensures files == FilesOf(Collected(a, paths)) && |contents| == |files|
    ensures forall i :: 0 <= i < |files| ==> files[i].path in m && contents[i] == m[files[i].path]
    ensures RolledTo(m, a, contents, maxCount, files, RollDown(m, a, maxCount, files, |files|))
      <==> NoneCollides(files, a, maxCount)
  {
    files, contents := ListsDirectory(a, m, maxCount, paths);
    assert forall i :: 0 <= i < |files| ==> At(m, files[i].path) == Some(contents[i]);
    RollsExactly(m, a, contents, maxCount, files);
  }

  /** For every directory, in whatever order its files are read, the new index of a sequence rotation is above every
      listed one, and no file has its name yet. */
  lemma SequenceIsAbove<T(!new)>(a: Place, m: map<string, T>, paths: seq<string>)
    requires Proper(a) && Globbed(a, m, paths)
    ensures forall i :: 0 <= i < |Collected(a, paths)| ==> Collected(a, paths)[i].Held?
    ensures var files := FilesOf(Collected(a, paths));
      && (forall i :: 0 <= i < |files| ==> files[i].index < NextIndex(files)) && |files| <= NextIndex(files)
      && (|files| == NextIndex(files) || exists i :: 0 <= i < |files| && files[i].index + 1 == NextIndex(files))
      && (|Name(a, NextIndex(files))| <= MAXLEN_PATH ==> Name(a, NextIndex(files)) !in m)
  {
    CollectedSorted(a, paths);
    var items := Collected(a, paths);
    var files := FilesOf(items);
    var next := NextIndex(files);
    if |Name(a, next)| <= MAXLEN_PATH && Name(a, next) in m {
      NameInList(a, m, paths, next);
    }
  }

  /** A sequence rotation that succeeds changes no file but the log and the oldest of the list: it overwrites
      nothing. */
  lemma SequenceOverwritesNothing<T(!new)>(a: Place, m: map<string, T>, maxCount: nat, paths: seq<string>, p: string)
    requires Proper(a) && Globbed(a, m, paths) && p in m && p != a.base
    requires forall i :: 0 <= i < |Collected(a, paths)| ==> Collected(a, paths)[i].Held?
    requires SeqRotated(m, a, maxCount, FilesOf(Collected(a, paths))).Done?
    ensures var files := FilesOf(Collected(a, paths));
      var r := SeqRotated(m, a, maxCount, files);
      (forall j :: 0 <= j < |files| - maxCount ==> files[j].path != p) || maxCount == 0 ==> At(r.files, p) == Some(m[p])
  {
    var files := FilesOf(Collected(a, paths));
    SequenceIsAbove(a, m, paths);
    if (forall j :: 0 <= j < |files| - maxCount ==> files[j].path != p) || maxCount == 0 {
      UnlinkedKeeps(m, maxCount, files, 0, p);
    }
  }

  datatype Mode = Rolling | Sequence

  class Rotater<T(!new)> {
    const place: Place
    const maxCount: nat
    const mode: Mode
    const dir: Directory<T>
    var files: List<File>
    /** What the log held at each rotation so far, in order. */
    ghost var bodies: seq<T>

    /** The archives are what this rotater has made of the log so far. */
    ghost predicate Valid()
      reads this, dir
    {
      Sensible(place) && Holding(dir.files, place, First(), Kept())
    }

    /** The least index of an archive. */
    ghost function First(): nat
      reads this
    {
      if mode == Rolling then 0 else Lowest(|bodies|, maxCount)
    }

    /** The archives from the least index on. */
    ghost function Kept(): seq<T>
      reads this
    {
      if mode == Rolling then Newest(Reversed(bodies), maxCount) else bodies[Lowest(|bodies|, maxCount)..]
    }

    /** A rotater for a log that has no archives yet. */
    constructor (place: Place, maxCount: nat, mode: Mode, dir: Directory<T>)
      requires Sensible(place) && Clean(place, dir.files) && forall n: nat :: Name(place, n) !in dir.files
      ensures Valid() && bodies == []
      ensures this.place == place && this.maxCount == maxCount && this.mode == mode && this.dir == dir
    {
      this.place, this.maxCount, this.mode, this.dir := place, maxCount, mode, dir;
      files := new List();
      bodies := [];
    }

    /** The log is written again. */
    method WriteLog(body: T)
      requires Valid()
      modifies dir
      ensures Valid() && dir.files == old(dir.files)[place.base := body]
    {
      ghost var m := dir.files;
      dir.files := dir.files[place.base := body];
      WrittenHolds(m, place, First(), Kept(), body);
    }

    /** zlog_rotater_add_archive_files. */
    method AddArchiveFiles() returns (ghost paths: seq<string>)
      modifies this`files
      ensures files.Valid() && fresh(files) && fresh(files.slots) && Globbed(place, dir.files, paths)
      ensures files.Items() == Collected(place, paths) && forall i :: 0 <= i < files.len ==> files.slots[i].Held?
    {
      files := new List();
      var pathv := dir.Glob(place);
      paths := pathv;
      var k := 0;
      while k < |pathv|
        invariant 0 <= k <= |pathv| && fresh(files) && fresh(files.slots)
        invariant files.Valid() && files.Items() == Collected(place, pathv[..k])
      {
        assert pathv[..k + 1][..k] == pathv[..k];
        var file := FileOf(place, pathv[k]);
        CollectedSorted(place, pathv[..k]);
        if file.Some? {
          files.SortAdd(Greater, file.value);
        }
        k := k + 1;
      }
      assert pathv[..k] == pathv;
      CollectedSorted(place, pathv);
      forall i | 0 <= i < files.len ensures files.slots[i].Held? {
        assert files.Items()[i] == files.slots[i];
      }
    }

    /** zlog_rotater_roll_files. */
    method RollFiles() returns (rc: int)
      requires files.Valid() && forall i :: 0 <= i < files.len ==> files.slots[i].Held?
      modifies dir
      ensures (rc == 0) == RollDown(old(dir.files), place, maxCount, FilesOf(files.Items()), files.len).Done?
      ensures dir.files == RollDown(old(dir.files), place, maxCount, FilesOf(files.Items()), files.len).files
    {
      ghost var list := FilesOf(files.Items());
      ghost var whole := RollDown(dir.files, place, maxCount, list, |list|);
      var i: nat := files.len;
      while i > 0
        invariant i <= files.len == |list| && whole == RollDown(dir.files, place, maxCount, list, i)
      {
        var file := files.slots[i - 1].item;
        assert file == list[i - 1];
        if maxCount > 0 && i - 1 >= maxCount - 1 {
          rc := dir.Unlink(file.path);
          if rc != 0 {
            return -1;
          }
        } else {
          var newPath := Name(place, i);
          if |newPath| > MAXLEN_PATH {
            return -1;
          }
          rc := dir.Rename(file.path, newPath);
          if rc != 0 {
            return -1;
          }
        }
        i := i - 1;
      }
      rc := MoveLog(0);
    }

    /** The move of the log itself. */
    method MoveLog(n: nat) returns (rc: int)
      modifies dir
      ensures (rc == 0) == MoveBase(old(dir.files), place, n).Done?
              && dir.files == MoveBase(old(dir.files), place, n).files
    {
      var newPath := Name(place, n);
      if |newPath| > MAXLEN_PATH {
        return -1;
      }
      rc := dir.Rename(place.base, newPath);
    }

    /** zlog_rotater_seq_files. */
    method SeqFiles() returns (rc: int)
      requires files.Valid() && forall i :: 0 <= i < files.len ==> files.slots[i].Held?
      modifies dir
      ensures (rc == 0) == SeqRotated(old(dir.files), place, maxCount, FilesOf(files.Items())).Done?
      ensures dir.files == SeqRotated(old(dir.files), place, maxCount, FilesOf(files.Items())).files
    {
      ghost var list := FilesOf(files.Items());
      ghost var first := Unlinked(dir.files, maxCount, list, 0);
      var i := 0;
      while i < files.len && maxCount > 0 && i < files.len - maxCount
        invariant 0 <= i <= files.len == |list| && first == Unlinked(dir.files, maxCount, list, i)
      {
        assert files.slots[i].item == list[i];
        rc := dir.Unlink(files.slots[i].item.path);
        if rc != 0 {
          return -1;
        }
        i := i + 1;
      }
      var j := 0;
      if files.len > 0 {
        var last := files.slots[files.len - 1].item;
        assert last == list[|list| - 1];
        j := (if files.len - 1 > last.index then files.len - 1 else last.index) + 1;
      }
      rc := MoveLog(j);
    }

    /** zlog_rotater_lsmv: a rotation. When it succeeds, the log has become an archive. */
    method Lsmv() returns (rc: int)
      requires Valid()
      modifies this, dir
      ensures rc == 0 ==> place.base in old(dir.files) && bodies == old(bodies) + [old(dir.files)[place.base]]
      ensures rc == 0 ==> Valid() && place.base !in dir.files && Elsewhere(old(dir.files), dir.files, place)
    {
      ghost var paths := AddArchiveFiles();
      ghost var m := dir.files;
      if mode == Rolling {
        rc := RollFiles();
        if rc == 0 {
          RollingHolds(m, place, bodies, maxCount, paths);
          bodies := bodies + [m[place.base]];
        }
      } else {
        rc := SeqFiles();
        if rc == 0 {
          SequenceHolds(m, place, bodies, maxCount, paths);
          bodies := bodies + [m[place.base]];
        }
      }
    }
  }
}