/** Sequence rotation (deps/zlog/src/rotater.c), as what it makes of a directory. */
module Sequencing {
  import opened Digits
  import opened ArchiveNames
  import opened Options
  import opened Rolling

  /** The first loop: the oldest files of the list go, where it is longer than the limit. */
  function Unlinked<T>(m: map<string, T>, maxCount: nat, files: seq<File>, i: nat): Outcome<T>
    requires i <= |files|
    decreases |files| - i
  {
    if i == |files| || maxCount == 0 || i >= |files| - maxCount then Done(m)
    else if files[i].path !in m then Stopped(m)
    else Unlinked(m - {files[i].path}, maxCount, files, i + 1)
  }

  /** The index of the new archive. */
  function NextIndex(files: seq<File>): (n: nat)
    ensures n >= |files|
  {
    if files == [] then 0
    else (if |files| - 1 > files[|files| - 1].index then |files| - 1 else files[|files| - 1].index) + 1
  }

  /** zlog_rotater_seq_files. */
  function SeqRotated<T>(m: map<string, T>, a: Place, maxCount: nat, files: seq<File>): Outcome<T> {
    match Unlinked(m, maxCount, files, 0)
    case Stopped(m') => Stopped(m')
    case Done(m') => MoveBase(m', a, NextIndex(files))
  }

  /** Unlinking the oldest touches no other path. */
  lemma {:induction false} UnlinkedKeeps<T(!new)>(m: map<string, T>, maxCount: nat, files: seq<File>, i: nat, p: string)
    requires i <= |files| && (maxCount == 0 || forall j :: i <= j < |files| - maxCount ==> files[j].path != p)
    ensures At(Unlinked(m, maxCount, files, i).files, p) == At(m, p)
    decreases |files| - i
  {
    if !(i == |files| || maxCount == 0 || i >= |files| - maxCount) && files[i].path in m {
      UnlinkedKeeps(m - {files[i].path}, maxCount, files, i + 1, p);
    }
  }

  /** The archives are numbered from lo on, the body of the n-th rotation under index n. */
  ghost predicate Sequence<T(!new)>(m: map<string, T>, a: Place, bodies: seq<T>, lo: nat) {
    forall n: nat {:trigger Name(a, n)} :: At(m, Name(a, n)) == if lo <= n < |bodies| then Some(bodies[n]) else None
  }

  /** Where the numbering starts after so many rotations. */
  function Lowest(rotations: nat, maxCount: nat): nat {
    if maxCount > 0 && rotations > maxCount + 1 then rotations - (maxCount + 1) else 0
  }

  /** The files of the list are the archives from lo on, in order. */
  ghost predicate NumberedFrom(files: seq<File>, a: Place, lo: nat) {
    forall i: nat :: i < |files| ==> files[i].path == Name(a, lo + i) && files[i].index == lo + i
  }

  lemma UnlinksOldest<T(!new)>(m: map<string, T>, a: Place, bodies: seq<T>, lo: nat, maxCount: nat, files: seq<File>)
    requires Sensible(a) && Sequence(m, a, bodies, lo) && NumberedFrom(files, a, lo) && lo + |files| == |bodies|
    requires maxCount > 0 ==> |files| <= maxCount + 1
    ensures var r, lo' := Unlinked(m, maxCount, files, 0), if maxCount > 0 && |files| > maxCount then lo + 1 else lo;
      r.Done? && Sequence(r.files, a, bodies, lo') && Elsewhere(m, r.files, a) && At(r.files, a.base) == At(m, a.base)
  {
    if maxCount > 0 && |files| > maxCount {
      assert files[0].path == Name(a, lo) && Name(a, lo) != a.base;
      assert At(m, Name(a, lo)) == Some(bodies[lo]);
      var m' := m - {Name(a, lo)};
      assert Unlinked(m', maxCount, files, 1) == Done(m');
      forall n: nat {:trigger Name(a, n)} ensures At(m', Name(a, n)) == if n == lo then None else At(m, Name(a, n)) {
        Distinct(a, n, lo);
      }
    }
  }

  /** A sequence rotation takes the next index and keeps at most maxCount + 1 archives. */
  lemma Sequences<T(!new)>(m: map<string, T>, a: Place, bodies: seq<T>, maxCount: nat, files: seq<File>)
    requires Sensible(a) && Sequence(m, a, bodies, Lowest(|bodies|, maxCount))
             && NumberedFrom(files, a, Lowest(|bodies|, maxCount))
    requires Lowest(|bodies|, maxCount) + |files| == |bodies| && a.base in m && |Name(a, |bodies|)| <= MAXLEN_PATH
    ensures var r := SeqRotated(m, a, maxCount, files);
      && r.Done? && Sequence(r.files, a, bodies + [m[a.base]], Lowest(|bodies| + 1, maxCount))
      && a.base !in r.files && Elsewhere(m, r.files, a)
  {
    var lo := Lowest(|bodies|, maxCount);
    UnlinksOldest(m, a, bodies, lo, maxCount, files);
    var m1 := Unlinked(m, maxCount, files, 0).files;
    assert NextIndex(files) == |bodies|;
    assert At(m1, a.base) == Some(m[a.base]);
    BaseAppended(m1, a, bodies, Lowest(|bodies| + 1, maxCount));
    ElsewhereOn(m, m1, MoveBase(m1, a, |bodies|).files, a);
  }

  lemma BaseAppended<T(!new)>(m: map<string, T>, a: Place, bodies: seq<T>, lo: nat)
    requires Sensible(a) && Sequence(m, a, bodies, lo) && a.base in m && lo <= |bodies|
    ensures var m' := Moved(m, a.base, Name(a, |bodies|));
      Sequence(m', a, bodies + [m[a.base]], lo) && a.base !in m' && Elsewhere(m, m', a)
  {
    var m' := Moved(m, a.base, Name(a, |bodies|));
    assert Name(a, |bodies|) != a.base;
    forall n: nat {:trigger Name(a, n)}
      ensures At(m', Name(a, n)) == if n == |bodies| then Some(m[a.base]) else At(m, Name(a, n))
    {
      Distinct(a, n, |bodies|);
      assert Name(a, n) != a.base;
    }
  }

  /** It is done only when the log was there and the new name is not too long. */
  lemma SequenceDone<T(!new)>(m: map<string, T>, a: Place, bodies: seq<T>, maxCount: nat, files: seq<File>)
    requires Sensible(a) && Sequence(m, a, bodies, Lowest(|bodies|, maxCount))
             && NumberedFrom(files, a, Lowest(|bodies|, maxCount))
    requires Lowest(|bodies|, maxCount) + |files| == |bodies| && SeqRotated(m, a, maxCount, files).Done?
    ensures a.base in m && |Name(a, |bodies|)| <= MAXLEN_PATH
  {
    UnlinksOldest(m, a, bodies, Lowest(|bodies|, maxCount), maxCount, files);
    assert NextIndex(files) == |bodies|;
    assert At(Unlinked(m, maxCount, files, 0).files, a.base) == At(m, a.base);
  }
}
