/** The lock table of FileLock.ts: `lock` opens a file exclusively and
    records its descriptor in the module-level `lockedFiles` map, `unlock`
    closes and forgets the first entry that matches a path or a descriptor.
    The map is an insertion-ordered sequence of entries with distinct
    descriptors; the results of `openSync` and `closeSync` are parameters. */
module FileLock {
  import opened Wrappers

  /** One `lockedFiles` entry: a descriptor and the path it was opened for. */
  datatype Entry = Entry(fd: nat, path: string)

  predicate DistinctFds(t: seq<Entry>)
  {
    forall i, j :: 0 <= i < j < |t| ==> t[i].fd != t[j].fd
  }

  /** `lockedFiles`: a JavaScript `Map<number, string>`, which keeps its
      keys distinct and iterates in insertion order. */
  type Table = t: seq<Entry> | DistinctFds(t) witness []

  /** What a `Map` lookup or an `unlock` is looking for. */
  datatype Target = ByPath(path: string) | ByFd(fd: int)

  predicate Hits(e: Entry, target: Target)
  {
    match target
    case ByPath(p) => e.path == p
    case ByFd(n) => e.fd == n
  }

  /** The position of the first entry, in insertion order, that the target hits. */
  function FirstHit(t: seq<Entry>, target: Target): (r: Option<nat>)
    ensures r.Some? ==> r.value < |t| && Hits(t[r.value], target)
                        && forall j :: 0 <= j < r.value ==> !Hits(t[j], target)
    ensures r.None? ==> forall j :: 0 <= j < |t| ==> !Hits(t[j], target)
  {
    if |t| == 0 then None
    else if Hits(t[0], target) then Some(0)
    else
      match FirstHit(t[1..], target)
      case None => None
      case Some(i) => Some(i + 1)
  }

  /** `Map.set`: a key already present keeps its place and takes the new
      value; a new key is appended. */
  function MapSet(t: Table, fd: nat, path: string): (r: Table)
    ensures |t| <= |r| <= |t| + 1
    ensures forall j :: 0 <= j < |t| && t[j].fd != fd ==> r[j] == t[j]
    ensures exists j :: 0 <= j < |r| && r[j] == Entry(fd, path)
    ensures |r| == |t| + 1 <==> forall j :: 0 <= j < |t| ==> t[j].fd != fd
    ensures |r| == |t| + 1 ==> r[|t|] == Entry(fd, path)
  {
    match FirstHit(t, ByFd(fd))
    case Some(i) =>
      var r := t[i := Entry(fd, path)];
      assert r[i] == Entry(fd, path);
      r
    case None =>
      var r := t + [Entry(fd, path)];
      assert r[|t|] == Entry(fd, path);
      r
  }

  /** How the exclusive open went: the descriptor it returned, or a throw.
      The existence check and unlink that precede it fold into this outcome. */
  datatype OpenOutcome = Opened(fd: nat) | OpenFailed

  /** What `lock` leaves behind: the table and the returned descriptor
      (`None` for `undefined`). */
  datatype LockResult = LockResult(table: Table, fd: Option<nat>)

  /** `lock` with a working existence check: record and return the new
      descriptor, or return `undefined` and leave the table alone. */
  function Lock(t: Table, path: string, outcome: OpenOutcome): (r: LockResult)
    ensures outcome.OpenFailed? ==> r == LockResult(t, None)
    ensures outcome.Opened? ==> r.fd == Some(outcome.fd)
    ensures outcome.Opened? ==> exists j :: 0 <= j < |r.table| && r.table[j] == Entry(outcome.fd, path)
    ensures outcome.Opened? && (forall j :: 0 <= j < |t| ==> t[j].fd != outcome.fd)
            ==> r.table == t + [Entry(outcome.fd, path)]
  {
    match outcome
    case Opened(fd) => LockResult(MapSet(t, fd, path), Some(fd))
    case OpenFailed => LockResult(t, None)
  }

  /** `lock` as written: the static call `File.IsExist` has no target (the
      class defines `IsExist` only on instances), so it throws inside the
      `try` before anything is opened, and `lock` returns `undefined`. */
  function LockAsWritten(t: Table, path: string, outcome: OpenOutcome): (r: LockResult)
    ensures r.fd.None? && r.table == t
  {
    LockResult(t, None)
  }

  /** The table without its entry at position `i`. */
  function RemoveAt(t: Table, i: nat): (r: Table)
    requires i < |t|
    ensures |r| == |t| - 1
    ensures forall j :: 0 <= j < i ==> r[j] == t[j]
    ensures forall j :: i <= j < |r| ==> r[j] == t[j + 1]
  {
    t[..i] + t[i + 1..]
  }

  /** What `unlock` leaves behind: the table, the returned flag and the
      descriptor `closeSync` closed, if any. */
  datatype UnlockResult = UnlockResult(table: Table, ok: bool, closed: Option<nat>)

  /** `unlock`: find the first entry the target hits, close it (`closeOk`
      says whether `closeSync` returns), then delete it and return true,
      unless its descriptor is 0, which fails the truthiness test. The
      descriptor closed is that of the first hit whenever there is one and
      `closeSync` returns, and no descriptor is closed otherwise. */
  function Unlock(t: Table, target: Target, closeOk: bool): (r: UnlockResult)
    ensures r.ok <==> exists i :: 0 <= i < |t| && Hits(t[i], target) && closeOk && t[i].fd != 0
                                 && forall j :: 0 <= j < i ==> !Hits(t[j], target)
    ensures r.ok ==> exists i :: 0 <= i < |t| && Hits(t[i], target)
                                 && (forall j :: 0 <= j < i ==> !Hits(t[j], target))
                                 && r.table == t[..i] + t[i + 1..] && r.closed == Some(t[i].fd)
    ensures !r.ok ==> r.table == t
    ensures r.closed.Some? <==> closeOk && FirstHit(t, target).Some?
    ensures r.closed.Some? ==> r.closed.value == t[FirstHit(t, target).value].fd
  {
    match FirstHit(t, target)
    case None => UnlockResult(t, false, None)
    case Some(i) =>
      if !closeOk then UnlockResult(t, false, None)
      else if t[i].fd == 0 then UnlockResult(t, false, Some(0))
      else UnlockResult(RemoveAt(t, i), true, Some(t[i].fd))
  }

  /** `unlock` as the code runs it: the `for ... of` walk over the map with
      `break` on the first hit, then the truthiness test on the descriptor
      found and `Map.delete` by key. */
  method RunUnlock(t: Table, target: Target, closeOk: bool) returns (r: UnlockResult)
    ensures r == Unlock(t, target, closeOk)
  {
    var targetFd: Option<nat> := None;
    var k := 0;
    while k < |t|
      invariant 0 <= k <= |t|
      invariant targetFd.None?
      invariant forall j :: 0 <= j < k ==> !Hits(t[j], target)
    {
      if Hits(t[k], target) {
        if !closeOk {
          return UnlockResult(t, false, None);
        }
        targetFd := Some(t[k].fd);
        break;
      }
      k := k + 1;
    }
    if targetFd.Some? && targetFd.value != 0 {
      r := UnlockResult(Delete(t, targetFd.value), true, targetFd);
    } else {
      r := UnlockResult(t, false, targetFd);
    }
  }

  /** `Map.delete`: drop the entry with the key, if there is one. */
  function Delete(t: Table, fd: nat): (r: Table)
    ensures forall i :: 0 <= i < |t| && t[i].fd == fd ==> r == t[..i] + t[i + 1..]
    ensures (forall i :: 0 <= i < |t| ==> t[i].fd != fd) ==> r == t
  {
    match FirstHit(t, ByFd(fd))
    case None => t
    case Some(i) => RemoveAt(t, i)
  }

  /** Locking a fresh non-zero descriptor and unlocking it, by descriptor or
      by a path no other entry has, restores the table when `closeSync`
      returns; when it throws, the entry stays and `unlock` returns false. */
  lemma LockUnlockRoundTrip(t: Table, path: string, fd: nat)
    requires fd != 0
    requires forall j :: 0 <= j < |t| ==> t[j].fd != fd
    ensures Unlock(Lock(t, path, Opened(fd)).table, ByFd(fd), true) == UnlockResult(t, true, Some(fd))
    ensures (forall j :: 0 <= j < |t| ==> t[j].path != path)
            ==> Unlock(Lock(t, path, Opened(fd)).table, ByPath(path), true) == UnlockResult(t, true, Some(fd))
    ensures Unlock(Lock(t, path, Opened(fd)).table, ByFd(fd), false)
         == UnlockResult(t + [Entry(fd, path)], false, None)
  {
    var u := Lock(t, path, Opened(fd)).table;
    assert u == t + [Entry(fd, path)];
    assert u[..|t|] + u[|t| + 1..] == t;
  }

  /** An entry with descriptor 0 is closed but never leaves the table. */
  lemma UnlockFdZero(t: Table, target: Target, i: nat)
    requires i < |t| && t[i].fd == 0 && Hits(t[i], target)
    requires forall j :: 0 <= j < i ==> !Hits(t[j], target)
    ensures Unlock(t, target, true) == UnlockResult(t, false, Some(0))
  {
    assert FirstHit(t, target) == Some(i);
  }

  /** As written, `lock` never records anything: whatever the open would have
      returned, the table stays as it was and the result is `undefined`,
      while the intended `lock` records and returns the new descriptor. */
  lemma LockAsWrittenNeverLocks(t: Table, path: string, fd: nat)
    ensures LockAsWritten(t, path, Opened(fd)) == LockResult(t, None)
    ensures Lock(t, path, Opened(fd)).fd == Some(fd)
  {
  }
}
