/** Rotating log files (deps/zlog/src/rotater.c), as what it makes of a directory. */
module Rolling {
  import opened Digits
  import opened ArchiveNames
  import opened Options

  /** A file of the list, with its index. */
  datatype File = File(index: int, path: string)

  /** What a rotation came to: the directory, or that it stopped. */
  datatype Outcome<T> = Done(files: map<string, T>) | Stopped(files: map<string, T>)

  /** rename(2): what was at the new path is lost. */
  function Moved<T>(m: map<string, T>, from: string, to: string): map<string, T>
    requires from in m
  {
    (m - {from})[to := m[from]]
  }

  function MoveBase<T>(m: map<string, T>, a: Place, n: nat): Outcome<T> {
    if |Name(a, n)| > MAXLEN_PATH || a.base !in m then Stopped(m) else Done(Moved(m, a.base, Name(a, n)))
  }

  // ----- zlog_rotater_roll_files -----

  /** The loop over the list from place i - 1 down, and then the log itself. */
  function RollDown<T>(m: map<string, T>, a: Place, maxCount: nat, files: seq<File>, i: nat): Outcome<T>
    requires i <= |files|
    decreases i
  {
    if i == 0 then MoveBase(m, a, 0)
    else
      var path := files[i - 1].path;
      if maxCount > 0 && i - 1 >= maxCount - 1 then
        if path !in m then Stopped(m) else RollDown(m - {path}, a, maxCount, files, i - 1)
      else if |Name(a, i)| > MAXLEN_PATH || path !in m then Stopped(m)
      else RollDown(Moved(m, path, Name(a, i)), a, maxCount, files, i - 1)
  }

  ghost function At<T>(m: map<string, T>, p: string): Option<T> {
    if p in m then Some(m[p]) else None
  }

  /** The archives are the given contents, from index 0 on. */
  ghost predicate Archives<T(!new)>(m: map<string, T>, a: Place, contents: seq<T>) {
    forall n: nat {:trigger Name(a, n)} :: At(m, Name(a, n)) == if n < |contents| then Some(contents[n]) else None
  }

  /** What is kept of a history, newest first. */
  function Newest<T>(contents: seq<T>, maxCount: nat): seq<T> {
    if maxCount > 0 && |contents| > maxCount then contents[..maxCount] else contents
  }

  /** No other path changes. */
  ghost predicate Elsewhere<T(!new)>(m: map<string, T>, m': map<string, T>, a: Place) {
    forall p: string {:trigger At(m', p)} :: p != a.base && (forall n: nat :: p != Name(a, n)) ==> At(m', p) == At(m, p)
  }

  lemma Distinct(a: Place, m: nat, n: nat)
    ensures Name(a, m) == Name(a, n) <==> m == n
  {
    if Name(a, m) == Name(a, n) {
      NamesDiffer(a, m, n);
    }
  }

  lemma ElsewhereOn<T(!new)>(m: map<string, T>, m1: map<string, T>, m2: map<string, T>, a: Place)
    requires Elsewhere(m, m1, a) && Elsewhere(m1, m2, a)
    ensures Elsewhere(m, m2, a)
  {
    forall p: string {:trigger At(m2, p)} | p != a.base && (forall n: nat :: p != Name(a, n))
      ensures At(m2, p) == At(m, p)
    {
      assert At(m1, p) == At(m, p);
    }
  }

  // ----- what rolling should come to -----

  predicate IsKept(maxCount: nat, n: nat) {
    maxCount == 0 || n < maxCount
  }

  /** The place of a path among the first i of the list. */
  ghost function PlaceIn(files: seq<File>, i: nat, p: string): Option<nat>
    requires i <= |files|
  {
    if i == 0 then None else if files[i - 1].path == p then Some(i - 1) else PlaceIn(files, i - 1, p)
  }

  lemma {:induction false} PlaceInIs(files: seq<File>, i: nat, p: string)
    requires i <= |files|
    ensures var f := PlaceIn(files, i, p);
      if f.Some? then f.value < i && files[f.value].path == p else forall j :: 0 <= j < i ==> files[j].path != p
  {
    if i > 0 {
      PlaceInIs(files, i - 1, p);
    }
  }

  /** p is the name of an archive with one of the numbers from lo + 1 to hi that is kept. */
  ghost predicate IsTarget(a: Place, maxCount: nat, lo: nat, hi: nat, p: string, n: nat) {
    lo < n <= hi && IsKept(maxCount, n) && p == Name(a, n)
  }

  /** What is at a path when the files of the list from place i on have been taken to the name after their place, as far
      as it is kept. */
  ghost function Half<T>(m: map<string, T>, a: Place, contents: seq<T>, maxCount: nat, files: seq<File>, i: nat,
      p: string): Option<T>
    requires i <= |files| == |contents|
  {
    var k := PlaceIn(files, i, p);
    if k.Some? && k.value < |contents| then Some(contents[k.value])
    else if exists n: nat :: IsTarget(a, maxCount, i, |files|, p, n) then
      var n: nat :| IsTarget(a, maxCount, i, |files|, p, n);
      Some(contents[n - 1])
    else if PlaceIn(files, |files|, p).Some? then None
    else At(m, p)
  }

  /** What is at a path after the rotation: the log as archive 0, every file of the list at the name after its place, as
      far as it is kept, and every other path as before. */
  ghost function After<T>(m: map<string, T>, a: Place, contents: seq<T>, maxCount: nat, files: seq<File>,
      p: string): Option<T>
    requires |files| == |contents|
  {
    if p == Name(a, 0) then At(m, a.base) else if p == a.base then None else Half(m, a, contents, maxCount, files, 0, p)
  }

  ghost predicate RolledTo<T>(m: map<string, T>, a: Place, contents: seq<T>, maxCount: nat, files: seq<File>,
      r: Outcome<T>)
    requires |files| == |contents|
  {
    r.Done? && forall p: string {:trigger At(r.files, p)} :: At(r.files, p) == After(m, a, contents, maxCount, files, p)
  }

  // ----- when it comes to that -----

  /** File k lies where a later file is moved to, before file k has been moved away. */
  ghost predicate Collides(files: seq<File>, a: Place, maxCount: nat, k: nat, n: nat) {
    k + 2 <= n <= |files| && IsKept(maxCount, n) && files[k].path == Name(a, n)
  }

  ghost predicate NoneCollides(files: seq<File>, a: Place, maxCount: nat) {
    forall k: nat, n: nat :: !Collides(files, a, maxCount, k, n)
  }

  /** The files of the list are different files of the directory, none of them the log, with these contents; and where a
      file is to be moved to there is none that is not in the list. The indices may be any. */
  ghost predicate Listing<T(!new)>(m: map<string, T>, a: Place, files: seq<File>, contents: seq<T>, maxCount: nat) {
    && |files| == |contents|
    && (forall i :: 0 <= i < |files| ==> At(m, files[i].path) == Some(contents[i]) && files[i].path != a.base)
    && (forall i, j :: 0 <= i < j < |files| ==> files[i].path != files[j].path)
    && forall n: nat {:trigger Name(a, n)} :: n <= |files| && IsUsed(maxCount, n) && Name(a, n) in m ==>
         PlaceIn(files, |files|, Name(a, n)).Some?
  }

  predicate IsUsed(maxCount: nat, n: nat) {
    n == 0 || IsKept(maxCount, n)
  }

  /** The names up to a number, as far as they are used, are not too long. */
  ghost predicate ShortNames(a: Place, maxCount: nat, last: nat) {
    forall n: nat {:trigger Name(a, n)} :: n <= last && IsUsed(maxCount, n) ==> |Name(a, n)| <= MAXLEN_PATH
  }

  ghost predicate HalfRolled<T(!new)>(m: map<string, T>, m1: map<string, T>, a: Place, contents: seq<T>, maxCount: nat,
      files: seq<File>, i: nat)
    requires i <= |files| == |contents|
  {
    forall p: string {:trigger At(m1, p)} :: At(m1, p) == Half(m, a, contents, maxCount, files, i, p)
  }

  /** At the outset. */
  lemma NotRolledYet<T(!new)>(m: map<string, T>, a: Place, contents: seq<T>, maxCount: nat, files: seq<File>)
    requires Listing(m, a, files, contents, maxCount)
    ensures HalfRolled(m, m, a, contents, maxCount, files, |files|)
  {
    forall p: string {:trigger At(m, p)} ensures At(m, p) == Half(m, a, contents, maxCount, files, |files|, p) {
      PlaceInIs(files, |files|, p);
    }
  }

  lemma HalfListed<T(!new)>(m: map<string, T>, a: Place, contents: seq<T>, maxCount: nat, files: seq<File>, i: nat,
      k: nat)
    requires Listing(m, a, files, contents, maxCount) && k < i <= |files|
    ensures Half(m, a, contents, maxCount, files, i, files[k].path) == Some(contents[k])
  {
    PlaceInIs(files, i, files[k].path);
  }

  lemma HalfTarget<T(!new)>(m: map<string, T>, a: Place, contents: seq<T>, maxCount: nat, files: seq<File>, i: nat,
      p: string, n: nat)
    requires |files| == |contents| && i <= |files| && IsTarget(a, maxCount, i, |files|, p, n)
    requires forall k :: 0 <= k < i ==> files[k].path != p
    ensures Half(m, a, contents, maxCount, files, i, p) == Some(contents[n - 1])
  {
    PlaceInIs(files, i, p);
    TargetsDiffer(a, maxCount, i, |files|, p, n);
  }

  lemma HalfOther<T(!new)>(m: map<string, T>, a: Place, contents: seq<T>, maxCount: nat, files: seq<File>, i: nat,
      p: string)
    requires |files| == |contents| && i <= |files| && forall n: nat :: !IsTarget(a, maxCount, i, |files|, p, n)
    requires forall k :: 0 <= k < i ==> files[k].path != p
    ensures Half(m, a, contents, maxCount, files, i, p)
      == if exists k :: 0 <= k < |files| && files[k].path == p then None else At(m, p)
  {
    PlaceInIs(files, i, p);
    PlaceInIs(files, |files|, p);
  }

  /** Where nothing collides, no path is both that of a file still to be moved and a name that has been moved to. */
  lemma Separate<T(!new)>(m: map<string, T>, a: Place, contents: seq<T>, maxCount: nat, files: seq<File>, i: nat,
      k: nat)
    requires Listing(m, a, files, contents, maxCount) && k < i <= |files| && NoneCollides(files, a, maxCount)
    ensures forall n: nat :: !IsTarget(a, maxCount, i, |files|, files[k].path, n)
  {
    forall n: nat ensures !IsTarget(a, maxCount, i, |files|, files[k].path, n) {
      assert !Collides(files, a, maxCount, k, n);
    }
  }

  /** What changes at a path when file i - 1 is taken to its new name, or is unlinked. */
  lemma HalfStep<T(!new)>(m: map<string, T>, a: Place, contents: seq<T>, maxCount: nat, files: seq<File>, i: nat,
      p: string)
    requires Listing(m, a, files, contents, maxCount) && 0 < i <= |files| && NoneCollides(files, a, maxCount)
    ensures Half(m, a, contents, maxCount, files, i - 1, p) ==
      if IsKept(maxCount, i) && p == Name(a, i) then Some(contents[i - 1])
      else if p == files[i - 1].path then None else Half(m, a, contents, maxCount, files, i, p)
  {
    if IsKept(maxCount, i) && p == Name(a, i) {
      assert IsTarget(a, maxCount, i - 1, |files|, p, i);
      forall k | 0 <= k < i - 1 ensures files[k].path != p {
        assert !Collides(files, a, maxCount, k, i);
      }
      HalfTarget(m, a, contents, maxCount, files, i - 1, p, i);
    } else {
      assert forall n: nat :: IsTarget(a, maxCount, i - 1, |files|, p, n) <==> IsTarget(a, maxCount, i, |files|, p, n);
      HalfSame(m, a, contents, maxCount, files, i, p);
    }
  }

  lemma HalfSame<T(!new)>(m: map<string, T>, a: Place, contents: seq<T>, maxCount: nat, files: seq<File>, i: nat,
      p: string)
    requires Listing(m, a, files, contents, maxCount) && 0 < i <= |files| && NoneCollides(files, a, maxCount)
    requires forall n: nat :: IsTarget(a, maxCount, i - 1, |files|, p, n) <==> IsTarget(a, maxCount, i, |files|, p, n)
    ensures Half(m, a, contents, maxCount, files, i - 1, p) ==
      if p == files[i - 1].path then None else Half(m, a, contents, maxCount, files, i, p)
  {
    if k :| 0 <= k < i - 1 && files[k].path == p {
      HalfListed(m, a, contents, maxCount, files, i - 1, k);
      HalfListed(m, a, contents, maxCount, files, i, k);
    } else if p == files[i - 1].path {
      Separate(m, a, contents, maxCount, files, i, i - 1);
      NoTargetEither(a, maxCount, i, i - 1, |files|, p);
      HalfOther(m, a, contents, maxCount, files, i - 1, p);
    } else {
      HalfElsewhere(m, a, contents, maxCount, files, i, p);
    }
  }

  lemma NoTargetEither(a: Place, maxCount: nat, lo: nat, lo': nat, hi: nat, p: string)
    requires forall n: nat :: IsTarget(a, maxCount, lo', hi, p, n) <==> IsTarget(a, maxCount, lo, hi, p, n)
    requires forall n: nat :: !IsTarget(a, maxCount, lo, hi, p, n)
    ensures forall n: nat :: !IsTarget(a, maxCount, lo', hi, p, n)
  {
    forall n: nat ensures !IsTarget(a, maxCount, lo', hi, p, n) {
      assert !IsTarget(a, maxCount, lo, hi, p, n);
    }
  }

  lemma HalfElsewhere<T(!new)>(m: map<string, T>, a: Place, contents: seq<T>, maxCount: nat, files: seq<File>, i: nat,
      p: string)
    requires |files| == |contents| && 0 < i <= |files| && forall k :: 0 <= k < i ==> files[k].path != p
    requires forall n: nat :: IsTarget(a, maxCount, i - 1, |files|, p, n) <==> IsTarget(a, maxCount, i, |files|, p, n)
    ensures Half(m, a, contents, maxCount, files, i - 1, p) == Half(m, a, contents, maxCount, files, i, p)
  {
    if n: nat :| IsTarget(a, maxCount, i, |files|, p, n) {
      HalfTarget(m, a, contents, maxCount, files, i, p, n);
      HalfTarget(m, a, contents, maxCount, files, i - 1, p, n);
    } else {
      NoTargetEither(a, maxCount, i, i - 1, |files|, p);
      HalfOther(m, a, contents, maxCount, files, i - 1, p);
      HalfOther(m, a, contents, maxCount, files, i, p);
    }
  }

  lemma TargetsDiffer(a: Place, maxCount: nat, lo: nat, hi: nat, p: string, i: nat)
    requires IsTarget(a, maxCount, lo, hi, p, i)
    ensures forall n: nat :: IsTarget(a, maxCount, lo, hi, p, n) ==> n == i
  {
    forall n: nat | IsTarget(a, maxCount, lo, hi, p, n) ensures n == i {
      NamesDiffer(a, n, i);
    }
  }

  /** One turn of the loop. */
  lemma RollStep<T(!new)>(m: map<string, T>, m1: map<string, T>, a: Place, contents: seq<T>, maxCount: nat,
      files: seq<File>, i: nat) returns (m2: map<string, T>)
    requires Listing(m, a, files, contents, maxCount) && 0 < i <= |files| && NoneCollides(files, a, maxCount)
    requires HalfRolled(m, m1, a, contents, maxCount, files, i) && (IsKept(maxCount, i) ==> |Name(a, i)| <= MAXLEN_PATH)
    ensures RollDown(m1, a, maxCount, files, i) == RollDown(m2, a, maxCount, files, i - 1)
    ensures HalfRolled(m, m2, a, contents, maxCount, files, i - 1)
  {
    var path := files[i - 1].path;
    HalfListed(m, a, contents, maxCount, files, i, i - 1);
    assert At(m1, path) == Some(contents[i - 1]);
    m2 := if IsKept(maxCount, i) then Moved(m1, path, Name(a, i)) else m1 - {path};
    forall p: string {:trigger At(m2, p)} ensures At(m2, p) == Half(m, a, contents, maxCount, files, i - 1, p) {
      HalfStep(m, a, contents, maxCount, files, i, p);
      assert At(m1, p) == Half(m, a, contents, maxCount, files, i, p);
    }
  }

  /** Where nothing collides, every file of the list comes to the name after its place, as far as it is kept, and the
      log becomes archive 0. */
  lemma {:induction false} RollsDown<T(!new)>(m: map<string, T>, m1: map<string, T>, a: Place, contents: seq<T>,
      maxCount: nat, files: seq<File>, i: nat)
    requires Apart(a) && Listing(m, a, files, contents, maxCount) && i <= |files| && a.base in m
    requires NoneCollides(files, a, maxCount) && ShortNames(a, maxCount, |files|)
    requires HalfRolled(m, m1, a, contents, maxCount, files, i)
    ensures RolledTo(m, a, contents, maxCount, files, RollDown(m1, a, maxCount, files, i))
    decreases i
  {
    if i == 0 {
      BaseMoved(m, m1, a, contents, maxCount, files);
    } else {
      assert IsKept(maxCount, i) ==> |Name(a, i)| <= MAXLEN_PATH;
      var m2 := RollStep(m, m1, a, contents, maxCount, files, i);
      RollsDown(m, m2, a, contents, maxCount, files, i - 1);
    }
  }

  lemma BaseMoved<T(!new)>(m: map<string, T>, m1: map<string, T>, a: Place, contents: seq<T>, maxCount: nat,
      files: seq<File>)
    requires Apart(a) && Listing(m, a, files, contents, maxCount) && a.base in m && ShortNames(a, maxCount, |files|)
    requires HalfRolled(m, m1, a, contents, maxCount, files, 0)
    ensures RolledTo(m, a, contents, maxCount, files, MoveBase(m1, a, 0))
  {
    assert |Name(a, 0)| <= MAXLEN_PATH && Name(a, 0) != a.base;
    forall n: nat ensures !IsTarget(a, maxCount, 0, |files|, a.base, n) {
    }
    HalfOther(m, a, contents, maxCount, files, 0, a.base);
    assert At(m1, a.base) == At(m, a.base);
    var m2 := Moved(m1, a.base, Name(a, 0));
    forall p: string {:trigger At(m2, p)} ensures At(m2, p) == After(m, a, contents, maxCount, files, p) {
      assert At(m1, p) == Half(m, a, contents, maxCount, files, 0, p);
    }
  }

  // ----- when it does not -----

  /** A name that nothing is moved to any more stays free. */
  lemma {:induction false} StaysFree<T(!new)>(m: map<string, T>, a: Place, maxCount: nat, files: seq<File>, i: nat,
      v: nat)
    requires i <= |files| && i < v && Name(a, v) !in m
    ensures Name(a, v) !in RollDown(m, a, maxCount, files, i).files
    decreases i
  {
    if Name(a, i) == Name(a, v) {
      NamesDiffer(a, i, v);
    }
    if i > 0 {
      var path := files[i - 1].path;
      if maxCount > 0 && i - 1 >= maxCount - 1 {
        if path in m {
          StaysFree(m - {path}, a, maxCount, files, i - 1, v);
        }
      } else if |Name(a, i)| <= MAXLEN_PATH && path in m {
        StaysFree(Moved(m, path, Name(a, i)), a, maxCount, files, i - 1, v);
      }
    }
  }

  /** Where file k collides, there is nothing under that name in the end. */
  lemma {:induction false} CollisionLoses<T(!new)>(m: map<string, T>, a: Place, maxCount: nat, files: seq<File>, i: nat,
      k: nat, n: nat)
    requires k < i <= |files| && Collides(files, a, maxCount, k, n)
    requires RollDown(m, a, maxCount, files, i).Done?
    ensures Name(a, n) !in RollDown(m, a, maxCount, files, i).files
    decreases i
  {
    var path := files[i - 1].path;
    var unlinks := maxCount > 0 && i - 1 >= maxCount - 1;
    var m1 := if unlinks then m - {path} else Moved(m, path, Name(a, i));
    if i - 1 > k {
      CollisionLoses(m1, a, maxCount, files, i - 1, k, n);
    } else {
      if Name(a, i) == Name(a, n) {
        NamesDiffer(a, i, n);
      }
      StaysFree(m1, a, maxCount, files, i - 1, n);
    }
  }

  /** A rolling rotation takes every file of the list to the name after its place, as far as it is kept, and the log to
      archive 0, and loses nothing else, if and only if no file of the list lies at the name two or more after its own
      place that a later one is moved to. The files may have any names and any indices, repeated ones among them. */
  lemma RollsExactly<T(!new)>(m: map<string, T>, a: Place, contents: seq<T>, maxCount: nat, files: seq<File>)
    requires Apart(a) && Listing(m, a, files, contents, maxCount) && a.base in m && ShortNames(a, maxCount, |files|)
    ensures RolledTo(m, a, contents, maxCount, files, RollDown(m, a, maxCount, files, |files|))
      <==> NoneCollides(files, a, maxCount)
  {
    var r := RollDown(m, a, maxCount, files, |files|);
    if NoneCollides(files, a, maxCount) {
      NotRolledYet(m, a, contents, maxCount, files);
      RollsDown(m, m, a, contents, maxCount, files, |files|);
    } else {
      var k: nat, n: nat :| Collides(files, a, maxCount, k, n);
      if r.Done? {
        CollisionLoses(m, a, maxCount, files, |files|, k, n);
        KeptThere(m, a, contents, maxCount, files, n);
        assert At(r.files, Name(a, n)) == None;
      }
    }
  }

  lemma KeptThere<T(!new)>(m: map<string, T>, a: Place, contents: seq<T>, maxCount: nat, files: seq<File>, n: nat)
    requires Apart(a) && |files| == |contents| && 0 < n <= |files| && IsKept(maxCount, n)
    ensures After(m, a, contents, maxCount, files, Name(a, n)) == Some(contents[n - 1])
  {
    if Name(a, n) == Name(a, 0) {
      NamesDiffer(a, n, 0);
    }
    assert IsTarget(a, maxCount, 0, |files|, Name(a, n), n);
    HalfTarget(m, a, contents, maxCount, files, 0, Name(a, n), n);
  }

  /** It is done only when the log was there and no name was too long. */
  lemma {:induction false} DoneNeeds<T(!new)>(m: map<string, T>, a: Place, maxCount: nat, files: seq<File>, i: nat)
    requires Apart(a) && i <= |files| && (forall k :: 0 <= k < i ==> files[k].path != a.base)
    requires RollDown(m, a, maxCount, files, i).Done?
    ensures a.base in m && ShortNames(a, maxCount, i)
    decreases i
  {
    if i > 0 {
      var path := files[i - 1].path;
      assert Name(a, i) != a.base;
      DoneNeeds(if IsKept(maxCount, i) then Moved(m, path, Name(a, i)) else m - {path}, a, maxCount, files, i - 1);
    }
  }

  // ----- where all files of the list are archives under their own names -----

  /** The rotation is done: these are the archives, the log is gone from its place, and no other path changed. */
  ghost predicate Rolled<T(!new)>(m: map<string, T>, a: Place, contents: seq<T>, r: Outcome<T>) {
    r.Done? && Archives(r.files, a, contents) && a.base !in r.files && Elsewhere(m, r.files, a)
  }

  ghost predicate IsArchive(a: Place, p: string) {
    exists n: nat :: p == Name(a, n)
  }

  /** The list has all archives of the directory, and nothing else. */
  ghost predicate OnlyArchives<T(!new)>(m: map<string, T>, a: Place, files: seq<File>) {
    && (forall i :: 0 <= i < |files| ==> IsArchive(a, files[i].path))
    && forall n: nat {:trigger Name(a, n)} :: Name(a, n) in m ==> PlaceIn(files, |files|, Name(a, n)).Some?
  }

  lemma RolledArchives<T(!new)>(m: map<string, T>, a: Place, contents: seq<T>, maxCount: nat, files: seq<File>,
      r: Outcome<T>)
    requires Apart(a) && |files| == |contents| && OnlyArchives(m, a, files) && a.base in m
             && RolledTo(m, a, contents, maxCount, files, r)
    ensures Rolled(m, a, Newest([m[a.base]] + contents, maxCount), r)
  {
    var all := [m[a.base]] + contents;
    forall n: nat {:trigger Name(a, n)}
      ensures At(r.files, Name(a, n)) == if n < |Newest(all, maxCount)| then Some(Newest(all, maxCount)[n]) else None
    {
      ArchiveAfter(m, a, contents, maxCount, files, n);
    }
    assert At(r.files, a.base) == None;
    forall p: string {:trigger At(r.files, p)} | p != a.base && (forall n: nat :: p != Name(a, n))
      ensures At(r.files, p) == At(m, p)
    {
      HalfOther(m, a, contents, maxCount, files, 0, p);
    }
  }

  lemma ArchiveAfter<T(!new)>(m: map<string, T>, a: Place, contents: seq<T>, maxCount: nat, files: seq<File>, n: nat)
    requires Apart(a) && |files| == |contents| && OnlyArchives(m, a, files) && a.base in m
    ensures var all := Newest([m[a.base]] + contents, maxCount);
      After(m, a, contents, maxCount, files, Name(a, n)) == if n < |all| then Some(all[n]) else None
  {
    if n > 0 {
      if 0 < n <= |files| && IsKept(maxCount, n) {
        KeptThere(m, a, contents, maxCount, files, n);
      } else {
        NotTarget(a, maxCount, |files|, n);
        if Name(a, n) == Name(a, 0) {
          NamesDiffer(a, n, 0);
        }
        HalfOther(m, a, contents, maxCount, files, 0, Name(a, n));
        PlaceInIs(files, |files|, Name(a, n));
      }
    }
  }

  lemma NotTarget(a: Place, maxCount: nat, hi: nat, n: nat)
    requires n > hi || !IsKept(maxCount, n)
    ensures forall k: nat :: !IsTarget(a, maxCount, 0, hi, Name(a, n), k)
  {
    forall k: nat ensures !IsTarget(a, maxCount, 0, hi, Name(a, n), k) {
      if Name(a, n) == Name(a, k) {
        NamesDiffer(a, n, k);
      }
    }
  }

  /** When there are only the third and the fourth archive, rolling loses the third. */
  lemma GapLoses<T(!new)>(m: map<string, T>, a: Place, third: T, fourth: T)
    requires Apart(a) && a.base in m && forall n: nat :: n < 4 ==> |Name(a, n)| <= MAXLEN_PATH
    requires forall n: nat {:trigger Name(a, n)} ::
               At(m, Name(a, n)) == if n == 2 then Some(third) else if n == 3 then Some(fourth) else None
    ensures var files := [File(2, Name(a, 2)), File(3, Name(a, 3))];
      && Listing(m, a, files, [third, fourth], 0)
      && !RolledTo(m, a, [third, fourth], 0, files, RollDown(m, a, 0, files, 2))
  {
    var files := [File(2, Name(a, 2)), File(3, Name(a, 3))];
    if Name(a, 2) == Name(a, 3) {
      NamesDiffer(a, 2, 3);
    }
    forall n: nat {:trigger Name(a, n)} | n <= 2 && Name(a, n) in m ensures PlaceIn(files, 2, Name(a, n)).Some? {
      assert At(m, Name(a, n)).Some?;
      PlaceInIs(files, 2, Name(a, n));
    }
    assert At(m, Name(a, 2)) == Some(third) && At(m, Name(a, 3)) == Some(fourth);
    RollsExactly(m, a, [third, fourth], 0, files);
    assert Collides(files, a, 0, 0, 2);
  }
}
