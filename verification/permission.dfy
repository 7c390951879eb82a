/** The userspace permission walker of fuse-convmvfs: the daemon runs
    privileged, so it replays the kernel's path-resolution access decision
    for the real caller before touching the storage tree. */
module Permission {
  import opened Posix

  // st_mode bits, as in <sys/stat.h>
  const S_IFDIR: bv32 := 0x4000  // 0040000
  const S_IRUSR: bv32 := 0x100   // 0400
  const S_IWUSR: bv32 := 0x80    // 0200
  const S_IXUSR: bv32 := 0x40    // 0100
  const S_IRGRP: bv32 := 0x20    // 040
  const S_IWGRP: bv32 := 0x10    // 020
  const S_IXGRP: bv32 := 0x8     // 010
  const S_IROTH: bv32 := 0x4     // 04
  const S_IWOTH: bv32 := 0x2     // 02
  const S_IXOTH: bv32 := 0x1     // 01

  // The walker's own request bits (PERM_WALK_CHECK_*); note READ is the LOW bit.
  const READ: bv32 := 1
  const WRITE: bv32 := 2
  const EXEC: bv32 := 4

  /** The three fields of `struct stat` the walker reads. */
  datatype Stat = Stat(uid: nat, gid: nat, mode: bv32)

  /** The outcome of `stat`/`lstat` on one path: the entry, or the errno. */
  datatype StatResult = Found(st: Stat) | Missing(errno: Errno)

  /** The storage tree as the walker sees it: two oracles, since the final
      component of a `readlink` walk is resolved without following links. */
  datatype Fs = Fs(stat: CPath -> StatResult, lstat: CPath -> StatResult)

  /** The requesting process, as reported by the FUSE context. */
  datatype Caller = Caller(uid: nat, gid: nat)

  /** `word & bit` is non-zero: the C idiom for testing a flag. */
  predicate HasBit(word: bv32, bit: bv32) {
    word & bit != 0
  }

  datatype ModeBits = ModeBits(r: bv32, w: bv32, x: bv32)

  /** The class whose bits apply: owner, else group, else other. */
  function ClassBits(st: Stat, c: Caller): ModeBits {
    if st.uid == c.uid then ModeBits(S_IRUSR, S_IWUSR, S_IXUSR)
    else if st.gid == c.gid then ModeBits(S_IRGRP, S_IWGRP, S_IXGRP)
    else ModeBits(S_IROTH, S_IWOTH, S_IXOTH)
  }

  /** Reference reading of the mode word: the applicable class's rwx triple
      sits 6, 3 or 0 bits up, with r = 4, w = 2, x = 1 inside it. */
  function ClassShift(st: Stat, c: Caller): bv32 {
    if st.uid == c.uid then 6 else if st.gid == c.gid then 3 else 0
  }

  function Wanted(chk: bv32): bv32 {
    (if HasBit(chk, READ) then 4 else 0)
    | (if HasBit(chk, WRITE) then 2 else 0)
    | (if HasBit(chk, EXEC) then 1 else 0)
  }

  predicate Permits(st: Stat, c: Caller, chk: bv32) {
    (st.mode >> ClassShift(st, c)) & Wanted(chk) == Wanted(chk)
  }

  lemma ShiftedTriple(mode: bv32, sh: bv32, r: bv32, w: bv32, x: bv32, chk: bv32)
    requires sh == 6 || sh == 3 || sh == 0
    requires r == 4 << sh && w == 2 << sh && x == 1 << sh
    ensures (mode >> sh) & Wanted(chk) == Wanted(chk)
        <==> (HasBit(chk, READ) ==> HasBit(mode, r)) && (HasBit(chk, WRITE) ==> HasBit(mode, w))
             && (HasBit(chk, EXEC) ==> HasBit(mode, x))
  {
  }

  /** Each requested bit is present in the applicable class. */
  predicate Grants(st: Stat, c: Caller, chk: bv32) {
    var b := ClassBits(st, c);
    && (HasBit(chk, READ) ==> HasBit(st.mode, b.r))
    && (HasBit(chk, WRITE) ==> HasBit(st.mode, b.w))
    && (HasBit(chk, EXEC) ==> HasBit(st.mode, b.x))
  }

  /** The owner/group/other selection agrees with the reference reading of
      the mode word. */
  lemma GrantsIffPermits(st: Stat, c: Caller, chk: bv32)
    ensures Grants(st, c, chk) <==> Permits(st, c, chk)
  {
    if st.uid == c.uid {
      ShiftedTriple(st.mode, 6, S_IRUSR, S_IWUSR, S_IXUSR, chk);
    } else if st.gid == c.gid {
      ShiftedTriple(st.mode, 3, S_IRGRP, S_IWGRP, S_IXGRP, chk);
    } else {
      ShiftedTriple(st.mode, 0, S_IROTH, S_IWOTH, S_IXOTH, chk);
    }
  }

  /** The shared tail of each walk step: every requested bit is tested on its
      own against the applicable class. */
  function CheckBits(st: Stat, c: Caller, chk: bv32): (rt: int)
    ensures rt == 0 || rt == -EACCES
    ensures rt == 0 <==> Grants(st, c, chk)
  {
    var b := ClassBits(st, c);
    if HasBit(chk, READ) && !HasBit(st.mode, b.r) then -EACCES
    else if HasBit(chk, WRITE) && !HasBit(st.mode, b.w) then -EACCES
    else if HasBit(chk, EXEC) && !HasBit(st.mode, b.x) then -EACCES
    else 0
  }

  /** An owner is judged by the owner bits alone, whatever the group and
      other bits allow; likewise a group member by the group bits. */
  lemma OwnerBitsDecide(st: Stat, c: Caller, chk: bv32)
    ensures st.uid == c.uid && HasBit(chk, READ) && !HasBit(st.mode, S_IRUSR) ==> CheckBits(st, c, chk) == -EACCES
    ensures st.uid == c.uid && HasBit(chk, WRITE) && !HasBit(st.mode, S_IWUSR) ==> CheckBits(st, c, chk) == -EACCES
    ensures st.uid == c.uid && HasBit(chk, EXEC) && !HasBit(st.mode, S_IXUSR) ==> CheckBits(st, c, chk) == -EACCES
    ensures st.uid != c.uid && st.gid == c.gid && HasBit(chk, READ) && !HasBit(st.mode, S_IRGRP)
            ==> CheckBits(st, c, chk) == -EACCES
    ensures st.uid != c.uid && st.gid == c.gid && HasBit(chk, WRITE) && !HasBit(st.mode, S_IWGRP)
            ==> CheckBits(st, c, chk) == -EACCES
    ensures st.uid != c.uid && st.gid == c.gid && HasBit(chk, EXEC) && !HasBit(st.mode, S_IXGRP)
            ==> CheckBits(st, c, chk) == -EACCES
  {
  }

  /** The directory test is the single S_IFDIR bit, not the file-type field. */
  predicate DirBit(st: Stat) {
    HasBit(st.mode, S_IFDIR)
  }

  /** The test is the bit alone: block devices (060000) and sockets (0140000)
      carry it too, so an intermediate component of either type passes as a
      directory when its search bit is set. */
  lemma DirBitAdmitsOtherFileTypes(fs: Fs, prefix: CPath, c: Caller, mode: bv32)
    requires mode == 0x61ff || mode == 0xc1ff  // S_IFBLK|0777, S_IFSOCK|0777
    requires fs.stat(prefix) == Found(Stat(c.uid, c.gid, mode))
    ensures Intermediate(fs, prefix, c) == 0
  {
  }

  /** A `/` at index j >= 1 makes the prefix before it an intermediate component. */
  predicate IsCheckpoint(path: string, j: int) {
    1 <= j < |path| && path[j] == '/'
  }

  /** Check of an intermediate component: stat it, require the directory bit,
      then require search permission. */
  function Intermediate(fs: Fs, prefix: CPath, c: Caller): (rt: int)
    ensures rt <= 0
    ensures rt == 0 <==> fs.stat(prefix).Found? && DirBit(fs.stat(prefix).st)
                         && Grants(fs.stat(prefix).st, c, EXEC)
    ensures fs.stat(prefix).Missing? ==> rt == -(fs.stat(prefix).errno as int)
    ensures fs.stat(prefix).Found? && !DirBit(fs.stat(prefix).st) ==> rt == -ENOTDIR
    ensures fs.stat(prefix).Found? && DirBit(fs.stat(prefix).st) && !Grants(fs.stat(prefix).st, c, EXEC)
            ==> rt == -EACCES
  {
    match fs.stat(prefix)
    case Missing(e) => -(e as int)
    case Found(st) => if !HasBit(st.mode, S_IFDIR) then -ENOTDIR else CheckBits(st, c, EXEC)
  }

  /** The entry the final component resolves to: `lstat` for a readlink walk. */
  function Resolved(fs: Fs, path: CPath, readlink: bool): StatResult {
    if readlink then fs.lstat(path) else fs.stat(path)
  }

  /** Check of the final component against the requested bits. */
  function Final(fs: Fs, path: CPath, c: Caller, chk: bv32, readlink: bool): (rt: int)
    ensures rt <= 0
    ensures rt == 0 <==> Resolved(fs, path, readlink).Found?
                         && Grants(Resolved(fs, path, readlink).st, c, chk)
    // mask 0 asks only that the entry resolves
    ensures !HasBit(chk, READ) && !HasBit(chk, WRITE) && !HasBit(chk, EXEC) ==> (rt == 0 <==> Resolved(fs, path, readlink).Found?)
    ensures Resolved(fs, path, readlink).Missing? ==> rt == -(Resolved(fs, path, readlink).errno as int)
    ensures Resolved(fs, path, readlink).Found? && !Grants(Resolved(fs, path, readlink).st, c, chk)
            ==> rt == -EACCES
  {
    match Resolved(fs, path, readlink)
    case Missing(e) => -(e as int)
    case Found(st) => CheckBits(st, c, chk)
  }

  /** The walk from character position j on (the position `s` points at
      after `*s++`). */
  function WalkFrom(fs: Fs, path: CPath, c: Caller, chk: bv32, readlink: bool, j: nat): (rt: int)
    requires 1 <= j <= |path|
    decreases |path| - j
  {
    if j == |path| then Final(fs, path, c, chk, readlink)
    else if path[j] == '/' then
      var rt := Intermediate(fs, path[..j], c);
      if rt != 0 then rt else WalkFrom(fs, path, c, chk, readlink, j + 1)
    else WalkFrom(fs, path, c, chk, readlink, j + 1)
  }

  /** permission_walk: 0 when the caller may reach `path` and use it as `chk`
      asks, else the negated errno of the first component that refuses. */
  function PermissionWalk(fs: Fs, path: CPath, c: Caller, chk: bv32, readlink: bool): (rt: int)
    ensures c.uid == 0 ==> rt == 0
    ensures c.uid != 0 && |path| == 0 ==> rt == -ENOENT
  {
    if c.uid == 0 then 0
    else if |path| == 0 then -ENOENT
    else WalkFrom(fs, path, c, chk, readlink, 1)
  }

  lemma {:induction false} WalkFromNonPositive(fs: Fs, path: CPath, c: Caller, chk: bv32, readlink: bool, j: nat)
    requires 1 <= j <= |path|
    ensures WalkFrom(fs, path, c, chk, readlink, j) <= 0
    decreases |path| - j
  {
    if j < |path| {
      WalkFromNonPositive(fs, path, c, chk, readlink, j + 1);
    }
  }

  /** The walk result is always 0 or a negated errno. */
  lemma WalkNonPositive(fs: Fs, path: CPath, c: Caller, chk: bv32, readlink: bool)
    ensures PermissionWalk(fs, path, c, chk, readlink) <= 0
  {
    if c.uid != 0 && |path| > 0 {
      WalkFromNonPositive(fs, path, c, chk, readlink, 1);
    }
  }

  lemma {:induction false} WalkFromGrantsIff(fs: Fs, path: CPath, c: Caller, chk: bv32, readlink: bool, j: nat)
    requires 1 <= j <= |path|
    ensures WalkFrom(fs, path, c, chk, readlink, j) == 0
        <==> (forall k :: j <= k && IsCheckpoint(path, k) ==> Intermediate(fs, path[..k], c) == 0)
             && Final(fs, path, c, chk, readlink) == 0
    decreases |path| - j
  {
    if j < |path| {
      WalkFromGrantsIff(fs, path, c, chk, readlink, j + 1);
      if !IsCheckpoint(path, j) {
        assert forall k :: j <= k && IsCheckpoint(path, k) ==> j + 1 <= k;
      }
    }
  }

  /** Reference model of the kernel's decision, stated without the scan:
      each intermediate component is a directory the caller may search. */
  ghost predicate Reachable(fs: Fs, path: CPath, c: Caller) {
    forall k :: IsCheckpoint(path, k) ==> Searchable(fs.stat(path[..k]), c)
  }

  predicate Searchable(sr: StatResult, c: Caller) {
    sr.Found? && DirBit(sr.st) && Permits(sr.st, c, EXEC)
  }

  /** Reference model: root may do anything; anyone else needs a non-empty
      path, every intermediate directory searchable, and the final entry
      granting every requested bit to the caller's class. */
  ghost predicate Authorized(fs: Fs, path: CPath, c: Caller, chk: bv32, readlink: bool) {
    || c.uid == 0
    || (&& |path| > 0
        && Reachable(fs, path, c)
        && Resolved(fs, path, readlink).Found?
        && Permits(Resolved(fs, path, readlink).st, c, chk))
  }

  /** The walker grants exactly what the reference model authorizes. */
  lemma WalkMatchesReference(fs: Fs, path: CPath, c: Caller, chk: bv32, readlink: bool)
    ensures PermissionWalk(fs, path, c, chk, readlink) == 0 <==> Authorized(fs, path, c, chk, readlink)
  {
    if c.uid != 0 && |path| > 0 {
      WalkFromGrantsIff(fs, path, c, chk, readlink, 1);
      forall k | IsCheckpoint(path, k)
        ensures Intermediate(fs, path[..k], c) == 0 <==> Searchable(fs.stat(path[..k]), c)
      {
        if fs.stat(path[..k]).Found? {
          GrantsIffPermits(fs.stat(path[..k]).st, c, EXEC);
        }
      }
      if Resolved(fs, path, readlink).Found? {
        GrantsIffPermits(Resolved(fs, path, readlink).st, c, chk);
      }
    }
  }

  lemma {:induction false} WalkFromStops(fs: Fs, path: CPath, c: Caller, chk: bv32, readlink: bool, i: nat, j: nat)
    requires 1 <= i <= j && IsCheckpoint(path, j)
    requires Intermediate(fs, path[..j], c) != 0
    requires forall k :: i <= k < j && IsCheckpoint(path, k) ==> Intermediate(fs, path[..k], c) == 0
    ensures WalkFrom(fs, path, c, chk, readlink, i) == Intermediate(fs, path[..j], c)
    decreases j - i
  {
    if i < j {
      WalkFromStops(fs, path, c, chk, readlink, i + 1, j);
    }
  }

  /** The first intermediate component that fails decides the result: its
      stat errno, ENOTDIR or EACCES, whatever lies further along. */
  lemma WalkStopsAtFirstFailure(fs: Fs, path: CPath, c: Caller, chk: bv32, readlink: bool, j: nat)
    requires c.uid != 0 && IsCheckpoint(path, j)
    requires Intermediate(fs, path[..j], c) != 0
    requires forall k :: k < j && IsCheckpoint(path, k) ==> Intermediate(fs, path[..k], c) == 0
    ensures PermissionWalk(fs, path, c, chk, readlink) == Intermediate(fs, path[..j], c)
  {
    WalkFromStops(fs, path, c, chk, readlink, 1, j);
  }

  lemma {:induction false} WalkFromReachesFinal(fs: Fs, path: CPath, c: Caller, chk: bv32, readlink: bool, i: nat)
    requires 1 <= i <= |path|
    requires forall k :: i <= k && IsCheckpoint(path, k) ==> Intermediate(fs, path[..k], c) == 0
    ensures WalkFrom(fs, path, c, chk, readlink, i) == Final(fs, path, c, chk, readlink)
    decreases |path| - i
  {
    if i < |path| {
      WalkFromReachesFinal(fs, path, c, chk, readlink, i + 1);
    }
  }

  /** When every intermediate component passes, the final component decides. */
  lemma WalkReachesFinal(fs: Fs, path: CPath, c: Caller, chk: bv32, readlink: bool)
    requires c.uid != 0 && |path| > 0
    requires forall k :: IsCheckpoint(path, k) ==> Intermediate(fs, path[..k], c) == 0
    ensures PermissionWalk(fs, path, c, chk, readlink) == Final(fs, path, c, chk, readlink)
  {
    WalkFromReachesFinal(fs, path, c, chk, readlink, 1);
  }

  /** The walk as the C loop runs it: `s` scans the copy one character at a
      time; a `/` after the first character triggers an intermediate check of
      the prefix before it, the terminating NUL triggers the final check. */
  method PermissionWalkLoop(fs: Fs, path: CPath, c: Caller, permChk: bv32, readlink: bool)
    returns (rt: int)
    ensures rt == PermissionWalk(fs, path, c, permChk, readlink)
  {
    if c.uid == 0 {
      return 0;
    }
    if |path| == 0 {
      return -ENOENT;
    }
    var s := 1;
    while true
      invariant 1 <= s <= |path|
      invariant PermissionWalk(fs, path, c, permChk, readlink) == WalkFrom(fs, path, c, permChk, readlink, s)
      decreases |path| - s
    {
      var st: Stat;
      var chk: bv32;
      if s == |path| {
        var sr := if readlink then fs.lstat(path) else fs.stat(path);
        if sr.Missing? {
          return -(sr.errno as int);
        }
        st, chk := sr.st, permChk;
      } else if path[s] == '/' {
        var sr := fs.stat(path[..s]);
        if sr.Missing? {
          return -(sr.errno as int);
        }
        if !HasBit(sr.st.mode, S_IFDIR) {
          return -ENOTDIR;
        }
        st, chk := sr.st, EXEC;
      } else {
        s := s + 1;
        continue;
      }
      rt := CheckBits(st, c, chk);
      if rt != 0 {
        return;
      }
      if s == |path| {
        return 0;
      }
      s := s + 1;
    }
  }

  /** The `while(--l)` scan of permission_walk_parent, from position l down. */
  function ScanBack(path: string, l: nat): (r: nat)
    requires l < |path|
    ensures r <= l
    ensures r == 0 || path[r] == '/'
    ensures forall k :: r < k <= l && k >= 1 ==> path[k] != '/'
  {
    if l == 0 then 0
    else if path[l] == '/' then l
    else ScanBack(path, l - 1)
  }

  /** Length of the directory part handed to the parent walk: the position of
      the last `/` at index 1 or beyond, or 0 when there is none. */
  function ParentLength(path: string): (l: nat)
    requires |path| >= 1
    ensures l < |path|
    ensures l == 0 || path[l] == '/'
    ensures forall k :: l < k < |path| && k >= 1 ==> path[k] != '/'
  {
    ScanBack(path, |path| - 1)
  }

  /** The directory part `string(path, l)` of permission_walk_parent. */
  function ParentOf(path: CPath): CPath
    requires |path| >= 1
  {
    path[..ParentLength(path)]
  }

  /** permission_walk_parent: the walk of the containing directory, always
      with `stat` on its last component. */
  function PermissionWalkParent(fs: Fs, path: CPath, c: Caller, chk: bv32): (rt: int)
    requires |path| >= 1
    ensures c.uid == 0 ==> rt == 0
    // no `/` past index 0 (e.g. "/x" under an empty srcdir): the walk of "" refuses
    ensures c.uid != 0 && (forall k :: 1 <= k < |path| ==> path[k] != '/') ==> rt == -ENOENT
  {
    PermissionWalk(fs, ParentOf(path), c, chk, false)
  }

  /** For `dir + "/" + name` with a slash-free name, the parent walk is the
      full walk of `dir`. */
  lemma ParentWalkIsWalkOfDirectory(fs: Fs, dir: CPath, name: CPath, c: Caller, chk: bv32)
    requires |dir| >= 1
    requires forall k :: 0 <= k < |name| ==> name[k] != '/'
    ensures NoNul(dir + "/" + name)
    ensures PermissionWalkParent(fs, dir + "/" + name, c, chk) == PermissionWalk(fs, dir, c, chk, false)
  {
    var p := dir + "/" + name;
    assert p[|dir|] == '/';
    assert forall k :: |dir| < k < |p| ==> p[k] == name[k - |dir| - 1];
    assert p[..|dir|] == dir;
  }
}
