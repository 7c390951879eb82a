/** The permission prelude of every file-system operation of fuse-convmvfs:
    which walks or ownership tests run, on which storage path, before the
    native call is made. `Allow` means the native call runs and its own
    result is returned. */
module Operations {
  import opened Posix
  import opened Permission

  // <fcntl.h> access modes
  const O_WRONLY: bv32 := 1
  const O_RDWR: bv32 := 2

  // <unistd.h> modes of access(2)
  const F_OK: bv32 := 0
  const X_OK: bv32 := 1
  const W_OK: bv32 := 2
  const R_OK: bv32 := 4

  /** The outcome of a prelude. `DenyStale` is a `return -errno` whose errno
      was not set by the failing check, so its value is unspecified. */
  datatype Authz = Allow | Deny(rc: int) | DenyStale

  function FromRc(rc: int): Authz {
    if rc == 0 then Allow else Deny(rc)
  }

  /** A walk result taken over as the prelude's outcome. */
  function GateOnWalk(rc: int, ghost granted: bool): (r: Authz)
    requires rc == 0 <==> granted
    requires rc <= 0
    ensures r == Allow <==> granted
    ensures r != Allow ==> r == Deny(rc) && rc < 0
  {
    FromRc(rc)
  }

  /** The walk of `path` as a prelude. */
  function WalkGate(fs: Fs, c: Caller, path: CPath, chk: bv32, readlink: bool): (r: Authz)
    ensures r == Allow <==> Authorized(fs, path, c, chk, readlink)
    ensures r != Allow ==> r.Deny? && r.rc < 0
    // a refusal carries the walk's own code
    ensures r != Allow ==> r == Deny(PermissionWalk(fs, path, c, chk, readlink))
  {
    WalkMatchesReference(fs, path, c, chk, readlink);
    WalkNonPositive(fs, path, c, chk, readlink);
    GateOnWalk(PermissionWalk(fs, path, c, chk, readlink), Authorized(fs, path, c, chk, readlink))
  }

  /** The walk of the directory containing `path` as a prelude. */
  function ParentGate(fs: Fs, c: Caller, path: CPath, chk: bv32): (r: Authz)
    requires |path| >= 1
    ensures r == Allow <==> Authorized(fs, ParentOf(path), c, chk, false)
    ensures r != Allow ==> r.Deny? && r.rc < 0
    ensures r != Allow ==> r == Deny(PermissionWalkParent(fs, path, c, chk))
  {
    WalkGate(fs, c, ParentOf(path), chk, false)
  }

  /** The bits convmvfs_open asks for, from the open flags. */
  function OpenMask(flags: bv32): (m: bv32)
    ensures !HasBit(m, EXEC)
    // write is asked for by a write-only or read-write open
    ensures HasBit(m, WRITE) <==> HasBit(flags, O_WRONLY) || HasBit(flags, O_RDWR)
    // read is asked for unless the open is write-only
    ensures HasBit(m, READ) <==> !HasBit(flags, O_WRONLY)
  {
    if HasBit(flags, O_WRONLY) then WRITE
    else if HasBit(flags, O_RDWR) then READ | WRITE
    else READ
  }

  /** convmvfs_open: the storage path must grant what the flags ask for. */
  function AuthorizeOpen(fs: Fs, c: Caller, ipath: CPath, flags: bv32): (r: Authz)
    ensures r == Allow <==> Authorized(fs, ipath, c, OpenMask(flags), false)
    ensures r != Allow ==> r.Deny? && r.rc < 0
    ensures r != Allow ==> r == Deny(PermissionWalk(fs, ipath, c, OpenMask(flags), false))
  {
    WalkGate(fs, c, ipath, OpenMask(flags), false)
  }

  /** convmvfs_rename: write and search on the new path's directory, then
      on the old path's directory, then the old entry must exist, and a
      directory being moved must itself grant write (its `..` changes). */
  function AuthorizeRename(fs: Fs, c: Caller, ioldpath: CPath, inewpath: CPath): (r: Authz)
    requires |ioldpath| >= 1 && |inewpath| >= 1
    ensures r == Allow <==>
      && Authorized(fs, ParentOf(inewpath), c, WRITE | EXEC, false)
      && Authorized(fs, ParentOf(ioldpath), c, WRITE | EXEC, false)
      && fs.stat(ioldpath).Found?
      && (DirBit(fs.stat(ioldpath).st) ==> Authorized(fs, ioldpath, c, WRITE, false))
    // the new path's directory is checked first, and its refusal is the answer
    ensures PermissionWalkParent(fs, inewpath, c, WRITE | EXEC) != 0
            ==> r == Deny(PermissionWalkParent(fs, inewpath, c, WRITE | EXEC))
    // a missing old entry is reported even to root
    ensures PermissionWalkParent(fs, inewpath, c, WRITE | EXEC) == 0
            && PermissionWalkParent(fs, ioldpath, c, WRITE | EXEC) == 0
            && fs.stat(ioldpath).Missing?
            ==> r == Deny(-(fs.stat(ioldpath).errno as int))
    // then the old path's directory, whose refusal is the answer
    ensures PermissionWalkParent(fs, inewpath, c, WRITE | EXEC) == 0
            && PermissionWalkParent(fs, ioldpath, c, WRITE | EXEC) != 0
            ==> r == Deny(PermissionWalkParent(fs, ioldpath, c, WRITE | EXEC))
    // a directory being moved that withholds write gives the walk's code
    ensures PermissionWalkParent(fs, inewpath, c, WRITE | EXEC) == 0
            && PermissionWalkParent(fs, ioldpath, c, WRITE | EXEC) == 0
            && fs.stat(ioldpath).Found? && DirBit(fs.stat(ioldpath).st)
            && PermissionWalk(fs, ioldpath, c, WRITE, false) != 0
            ==> r == Deny(PermissionWalk(fs, ioldpath, c, WRITE, false))
    ensures r != DenyStale
  {
    var g := ParentGate(fs, c, inewpath, WRITE | EXEC);
    if g != Allow then g
    else
      var g' := ParentGate(fs, c, ioldpath, WRITE | EXEC);
      if g' != Allow then g'
      else
        match fs.stat(ioldpath)
        case Missing(e) => Deny(-(e as int))
        case Found(st) =>
          if HasBit(st.mode, S_IFDIR) then WalkGate(fs, c, ioldpath, WRITE, false)
          else Allow
  }

  /** convmvfs_link: write and search on both containing directories, the
      new one first. */
  function AuthorizeLink(fs: Fs, c: Caller, ioldpath: CPath, inewpath: CPath): (r: Authz)
    requires |ioldpath| >= 1 && |inewpath| >= 1
    ensures r == Allow <==>
      && Authorized(fs, ParentOf(inewpath), c, WRITE | EXEC, false)
      && Authorized(fs, ParentOf(ioldpath), c, WRITE | EXEC, false)
    ensures PermissionWalkParent(fs, inewpath, c, WRITE | EXEC) != 0
            ==> r == Deny(PermissionWalkParent(fs, inewpath, c, WRITE | EXEC))
    ensures PermissionWalkParent(fs, inewpath, c, WRITE | EXEC) == 0
            && PermissionWalkParent(fs, ioldpath, c, WRITE | EXEC) != 0
            ==> r == Deny(PermissionWalkParent(fs, ioldpath, c, WRITE | EXEC))
    ensures r != Allow ==> r.Deny? && r.rc < 0
  {
    var g := ParentGate(fs, c, inewpath, WRITE | EXEC);
    if g != Allow then g else ParentGate(fs, c, ioldpath, WRITE | EXEC)
  }

  /** convmvfs_chmod, convmvfs_setxattr, convmvfs_removexattr: the entry must
      exist, and the caller must own it or be root. No walk runs, so the
      directories on the way are not checked at all. */
  function AuthorizeOwnerOrRoot(fs: Fs, c: Caller, ipath: CPath): (r: Authz)
    ensures r == Allow <==> fs.stat(ipath).Found? && (c.uid == 0 || c.uid == fs.stat(ipath).st.uid)
    ensures fs.stat(ipath).Missing? ==> r == Deny(-(fs.stat(ipath).errno as int))
    ensures fs.stat(ipath).Found? && r != Allow ==> r == Deny(-EPERM)
  {
    match fs.stat(ipath)
    case Missing(e) => Deny(-(e as int))
    case Found(st) => if c.uid != st.uid && c.uid != 0 then Deny(-EPERM) else Allow
  }

  /** convmvfs_chown: only root may change ownership. */
  function AuthorizeChown(c: Caller): (r: Authz)
    ensures r == Allow <==> c.uid == 0
    ensures r != Allow ==> r == Deny(-EPERM)
  {
    if c.uid == 0 then Allow else Deny(-EPERM)
  }

  /** convmvfs_utime: the entry must exist; setting the current time needs
      write permission, setting explicit times needs ownership, and root is
      not exempt from the latter. */
  function AuthorizeUtime(fs: Fs, c: Caller, ipath: CPath, hasTimes: bool): (r: Authz)
    ensures fs.stat(ipath).Missing? ==> r == Deny(-(fs.stat(ipath).errno as int))
    ensures !hasTimes ==> (r == Allow <==> fs.stat(ipath).Found? && Authorized(fs, ipath, c, WRITE, false))
    ensures hasTimes ==> (r == Allow <==> fs.stat(ipath).Found? && fs.stat(ipath).st.uid == c.uid)
    // explicit times set by anyone but the owner are refused with EPERM
    ensures hasTimes && fs.stat(ipath).Found? && fs.stat(ipath).st.uid != c.uid ==> r == Deny(-EPERM)
    ensures r == DenyStale ==> !hasTimes && c.uid != 0
    ensures !hasTimes && fs.stat(ipath).Found? && !Authorized(fs, ipath, c, WRITE, false) ==> r == DenyStale
    ensures r.Deny? ==> r.rc < 0
  {
    match fs.stat(ipath)
    case Missing(e) => Deny(-(e as int))
    case Found(st) =>
      if !hasTimes && WalkGate(fs, c, ipath, WRITE, false) != Allow then DenyStale
      else if hasTimes && c.uid != st.uid then Deny(-EPERM)
      else Allow
  }

  /** The mask convmvfs_access actually builds. `|` binds tighter than `?:`,
      so the expression parses as R ? READ : ((0 | W) ? WRITE : ((0 | X) ? EXEC : 0)):
      at most one bit survives, the first of read, write, execute asked for. */
  function AccessMaskAsWritten(mode: bv32): (m: bv32)
    ensures m == 0 || m == READ || m == WRITE || m == EXEC
    ensures HasBit(mode, R_OK) ==> m == READ
    ensures !HasBit(mode, R_OK) && HasBit(mode, W_OK) ==> m == WRITE
    ensures !HasBit(mode, R_OK) && !HasBit(mode, W_OK) && HasBit(mode, X_OK) ==> m == EXEC
    ensures !HasBit(mode, R_OK) && !HasBit(mode, W_OK) && !HasBit(mode, X_OK) ==> m == 0
  {
    if mode & R_OK != 0 then READ
    else if (0 | (mode & W_OK)) != 0 then WRITE
    else if (0 | (mode & X_OK)) != 0 then EXEC
    else 0
  }

  /** The mask access(2) calls for: each of R_OK, W_OK, X_OK asks for its
      own bit. */
  function AccessMask(mode: bv32): (m: bv32)
    ensures HasBit(m, READ) <==> HasBit(mode, R_OK)
    ensures HasBit(m, WRITE) <==> HasBit(mode, W_OK)
    ensures HasBit(m, EXEC) <==> HasBit(mode, X_OK)
  {
    (if HasBit(mode, R_OK) then READ else 0)
    | (if HasBit(mode, W_OK) then WRITE else 0)
    | (if HasBit(mode, X_OK) then EXEC else 0)
  }

  /** convmvfs_access as written. F_OK is 0, so the existence probe before the
      walk never runs. */
  function AuthorizeAccessAsWritten(fs: Fs, c: Caller, ipath: CPath, mode: bv32): (r: Authz)
    ensures r == Allow <==> Authorized(fs, ipath, c, AccessMaskAsWritten(mode), false)
    // root is answered 0 even for a path that does not exist
    ensures c.uid == 0 ==> r == Allow
    ensures r != Allow ==> r == Deny(PermissionWalk(fs, ipath, c, AccessMaskAsWritten(mode), false))
    ensures r != Allow ==> r.Deny? && r.rc < 0
  {
    match fs.stat(ipath)
    case Missing(e) =>
      if HasBit(mode, F_OK) then Deny(-(e as int)) else WalkGate(fs, c, ipath, AccessMaskAsWritten(mode), false)
    case Found(_) => WalkGate(fs, c, ipath, AccessMaskAsWritten(mode), false)
  }

  /** convmvfs_access with the mask corrected: every requested bit is checked. */
  function AuthorizeAccess(fs: Fs, c: Caller, ipath: CPath, mode: bv32): (r: Authz)
    ensures r == Allow <==> Authorized(fs, ipath, c, AccessMask(mode), false)
    // root is answered 0 even for a path that does not exist
    ensures c.uid == 0 ==> r == Allow
    ensures r != Allow ==> r == Deny(PermissionWalk(fs, ipath, c, AccessMask(mode), false))
    ensures r != Allow ==> r.Deny? && r.rc < 0
  {
    match fs.stat(ipath)
    case Missing(e) =>
      if HasBit(mode, F_OK) then Deny(-(e as int)) else WalkGate(fs, c, ipath, AccessMask(mode), false)
    case Found(_) => WalkGate(fs, c, ipath, AccessMask(mode), false)
  }

  /** One request of the mounted file system, on storage paths
      (`srcdir + out2in(opath)`). */
  datatype Request =
    | Open(path: CPath, flags: bv32)
    | Read(path: CPath)
    | Write(path: CPath)
    | Release(path: CPath)
    | Getattr(path: CPath)
    | Opendir(path: CPath)
    | Readdir(path: CPath)
    | Mknod(path: CPath)
    | Mkdir(path: CPath)
    | Readlink(path: CPath)
    | Unlink(path: CPath)
    | Rmdir(path: CPath)
    | Symlink(path: CPath)  // the path of the new link
    | Rename(path: CPath, newpath: CPath)
    | Link(path: CPath, newpath: CPath)
    | Chmod(path: CPath)
    | Chown(path: CPath)
    | Truncate(path: CPath)
    | Utime(path: CPath, hasTimes: bool)
    | Access(path: CPath, mode: bv32)
    | Statfs(path: CPath)
    | Listxattr(path: CPath)
    | Getxattr(path: CPath)
    | Setxattr(path: CPath)
    | Removexattr(path: CPath)

  /** Requests whose prelude walks the containing directory. */
  predicate InParentSearch(req: Request) {
    req.Getattr? || req.Listxattr? || req.Getxattr?
  }

  predicate ChangesEntry(req: Request) {
    req.Mknod? || req.Mkdir? || req.Unlink? || req.Rmdir? || req.Symlink?
  }

  predicate OwnerOnly(req: Request) {
    req.Chmod? || req.Setxattr? || req.Removexattr?
  }

  /** Requests whose prelude stats the target before anything else. */
  predicate StatsTarget(req: Request) {
    OwnerOnly(req) || req.Utime?
  }

  /** The parent walk starts its backward scan at the last character, so the
      path must not be empty: on an empty storage path (possible when the
      root is "" and the converted name begins with a NUL byte)
      permission_walk_parent reads before the start of its buffer. The model
      leaves that out-of-bounds read out. */
  predicate WellFormed(req: Request) {
    && (InParentSearch(req) || ChangesEntry(req) || req.Rename? || req.Link? ==> |req.path| >= 1)
    && (req.Rename? || req.Link? ==> |req.newpath| >= 1)
  }

  /** The prelude of each operation, by request. */
  function Authorize(fs: Fs, c: Caller, req: Request): (r: Authz)
    requires WellFormed(req)
    ensures r.Deny? ==> r.rc < 0
    ensures r.DenyStale? ==> req.Utime? && !req.hasTimes && c.uid != 0
    // root passes every walk; only a failed stat or explicit utime times stop it
    ensures c.uid == 0 && r != Allow ==>
              ((StatsTarget(req) || req.Rename?) && fs.stat(req.path).Missing?)
              || (req.Utime? && req.hasTimes)
    ensures req.Read? || req.Write? || req.Release? || req.Readdir? ==> r == Allow
  {
    if req.Read? || req.Write? || req.Release? || req.Readdir? then Allow
    else if InParentSearch(req) then ParentGate(fs, c, req.path, EXEC)
    else if ChangesEntry(req) then ParentGate(fs, c, req.path, WRITE | EXEC)
    else if OwnerOnly(req) then AuthorizeOwnerOrRoot(fs, c, req.path)
    else
      match req
      case Open(p, flags) => AuthorizeOpen(fs, c, p, flags)
      case Opendir(p) => WalkGate(fs, c, p, READ, false)
      case Readlink(p) => WalkGate(fs, c, p, READ, true)
      case Rename(p, q) => AuthorizeRename(fs, c, p, q)
      case Link(p, q) => AuthorizeLink(fs, c, p, q)
      case Chown(_) => AuthorizeChown(c)
      case Truncate(p) => WalkGate(fs, c, p, WRITE, false)
      case Utime(p, hasTimes) => AuthorizeUtime(fs, c, p, hasTimes)
      case Access(p, mode) => AuthorizeAccessAsWritten(fs, c, p, mode)
      case Statfs(p) => WalkGate(fs, c, p, 0, false)
  }

  /** The decision table for the requests whose prelude is one walk of the
      directory that holds the path. */
  lemma ParentDecisions(fs: Fs, c: Caller, req: Request)
    requires WellFormed(req)
    ensures InParentSearch(req) ==> (Authorize(fs, c, req) == Allow <==> Authorized(fs, ParentOf(req.path), c, EXEC, false))
    ensures ChangesEntry(req) ==> (Authorize(fs, c, req) == Allow <==> Authorized(fs, ParentOf(req.path), c, WRITE | EXEC, false))
  {
  }

  /** The decision table for the requests whose prelude is one walk of the
      path itself with a fixed mask. */
  lemma WalkDecisions(fs: Fs, c: Caller, req: Request)
    requires WellFormed(req)
    ensures req.Opendir? ==> (Authorize(fs, c, req) == Allow <==> Authorized(fs, req.path, c, READ, false))
    ensures req.Readlink? ==> (Authorize(fs, c, req) == Allow <==> Authorized(fs, req.path, c, READ, true))
    ensures req.Truncate? ==> (Authorize(fs, c, req) == Allow <==> Authorized(fs, req.path, c, WRITE, false))
    ensures req.Statfs? ==> (Authorize(fs, c, req) == Allow <==> Authorized(fs, req.path, c, 0, false))
  {
  }

  /** The decision table for open and access, whose masks come from the
      request. */
  lemma MaskDecisions(fs: Fs, c: Caller, req: Request)
    requires WellFormed(req)
    ensures req.Open? ==> (Authorize(fs, c, req) == Allow <==> Authorized(fs, req.path, c, OpenMask(req.flags), false))
    ensures req.Access? ==> (Authorize(fs, c, req) == Allow <==> Authorized(fs, req.path, c, AccessMaskAsWritten(req.mode), false))
  {
  }

  /** Which code each refusal of those three tables carries: the code of the
      walk that failed. */
  lemma ParentRefusals(fs: Fs, c: Caller, req: Request)
    requires WellFormed(req)
    ensures InParentSearch(req) && Authorize(fs, c, req) != Allow
            ==> Authorize(fs, c, req) == Deny(PermissionWalkParent(fs, req.path, c, EXEC))
    ensures ChangesEntry(req) && Authorize(fs, c, req) != Allow
            ==> Authorize(fs, c, req) == Deny(PermissionWalkParent(fs, req.path, c, WRITE | EXEC))
  {
  }

  lemma WalkRefusals(fs: Fs, c: Caller, req: Request)
    requires WellFormed(req)
    ensures req.Opendir? && Authorize(fs, c, req) != Allow
            ==> Authorize(fs, c, req) == Deny(PermissionWalk(fs, req.path, c, READ, false))
    ensures req.Readlink? && Authorize(fs, c, req) != Allow
            ==> Authorize(fs, c, req) == Deny(PermissionWalk(fs, req.path, c, READ, true))
    ensures req.Truncate? && Authorize(fs, c, req) != Allow
            ==> Authorize(fs, c, req) == Deny(PermissionWalk(fs, req.path, c, WRITE, false))
    ensures req.Statfs? && Authorize(fs, c, req) != Allow
            ==> Authorize(fs, c, req) == Deny(PermissionWalk(fs, req.path, c, 0, false))
  {
  }

  lemma MaskRefusals(fs: Fs, c: Caller, req: Request)
    requires WellFormed(req)
    ensures req.Open? && Authorize(fs, c, req) != Allow
            ==> Authorize(fs, c, req) == Deny(PermissionWalk(fs, req.path, c, OpenMask(req.flags), false))
    ensures req.Access? && Authorize(fs, c, req) != Allow
            ==> Authorize(fs, c, req) == Deny(PermissionWalk(fs, req.path, c, AccessMaskAsWritten(req.mode), false))
  {
  }

  /** The decision table for rename and link: both containing directories,
      the new one first, and for rename the old entry itself. */
  lemma RenameLinkDecisions(fs: Fs, c: Caller, req: Request)
    requires WellFormed(req)
    ensures req.Rename? ==> (Authorize(fs, c, req) == Allow <==>
      && Authorized(fs, ParentOf(req.newpath), c, WRITE | EXEC, false)
      && Authorized(fs, ParentOf(req.path), c, WRITE | EXEC, false)
      && fs.stat(req.path).Found?
      && (DirBit(fs.stat(req.path).st) ==> Authorized(fs, req.path, c, WRITE, false)))
    ensures req.Link? ==> (Authorize(fs, c, req) == Allow <==>
      && Authorized(fs, ParentOf(req.newpath), c, WRITE | EXEC, false)
      && Authorized(fs, ParentOf(req.path), c, WRITE | EXEC, false))
  {
  }

  /** Which code a refusal of rename or link carries. */
  lemma RenameLinkRefusals(fs: Fs, c: Caller, req: Request)
    requires WellFormed(req)
    ensures (req.Rename? || req.Link?) && PermissionWalkParent(fs, req.newpath, c, WRITE | EXEC) != 0
            ==> Authorize(fs, c, req) == Deny(PermissionWalkParent(fs, req.newpath, c, WRITE | EXEC))
    ensures (req.Rename? || req.Link?) && PermissionWalkParent(fs, req.newpath, c, WRITE | EXEC) == 0
            && PermissionWalkParent(fs, req.path, c, WRITE | EXEC) != 0
            ==> Authorize(fs, c, req) == Deny(PermissionWalkParent(fs, req.path, c, WRITE | EXEC))
    ensures req.Rename? && PermissionWalkParent(fs, req.newpath, c, WRITE | EXEC) == 0
            && PermissionWalkParent(fs, req.path, c, WRITE | EXEC) == 0
            && fs.stat(req.path).Missing?
            ==> Authorize(fs, c, req) == Deny(-(fs.stat(req.path).errno as int))
    ensures req.Rename? && PermissionWalkParent(fs, req.newpath, c, WRITE | EXEC) == 0
            && PermissionWalkParent(fs, req.path, c, WRITE | EXEC) == 0
            && fs.stat(req.path).Found? && DirBit(fs.stat(req.path).st)
            && PermissionWalk(fs, req.path, c, WRITE, false) != 0
            ==> Authorize(fs, c, req) == Deny(PermissionWalk(fs, req.path, c, WRITE, false))
  {
  }

  /** The decision table for utime without times: the entry must stat and
      the path must grant write; a refused walk gives the unspecified code. */
  lemma UtimeDecisions(fs: Fs, c: Caller, req: Request)
    requires WellFormed(req)
    ensures req.Utime? && !req.hasTimes ==>
              (Authorize(fs, c, req) == Allow <==> fs.stat(req.path).Found? && Authorized(fs, req.path, c, WRITE, false))
    ensures req.Utime? && fs.stat(req.path).Missing? ==> Authorize(fs, c, req) == Deny(-(fs.stat(req.path).errno as int))
    ensures req.Utime? && !req.hasTimes && fs.stat(req.path).Found? && !Authorized(fs, req.path, c, WRITE, false)
            ==> Authorize(fs, c, req) == DenyStale
  {
  }

  /** The prelude with access's mask corrected; every other request is
      decided as the program decides it. */
  function AuthorizeCorrected(fs: Fs, c: Caller, req: Request): (r: Authz)
    requires WellFormed(req)
    ensures req.Access? ==> (r == Allow <==> Authorized(fs, req.path, c, AccessMask(req.mode), false))
    ensures req.Access? && r != Allow ==> r == Deny(PermissionWalk(fs, req.path, c, AccessMask(req.mode), false))
    ensures !req.Access? ==> r == Authorize(fs, c, req)
  {
    if req.Access? then AuthorizeAccess(fs, c, req.path, req.mode) else Authorize(fs, c, req)
  }

  /** The decision table for the requests judged by ownership. */
  lemma OwnershipDecisions(fs: Fs, c: Caller, req: Request)
    requires WellFormed(req)
    ensures OwnerOnly(req) ==>
              (Authorize(fs, c, req) == Allow <==> fs.stat(req.path).Found? && (c.uid == 0 || c.uid == fs.stat(req.path).st.uid))
    ensures req.Chown? ==> (Authorize(fs, c, req) == Allow <==> c.uid == 0)
    ensures req.Utime? && req.hasTimes ==>
              (Authorize(fs, c, req) == Allow <==> fs.stat(req.path).Found? && fs.stat(req.path).st.uid == c.uid)
  {
  }

  /** Which code a refusal by ownership carries: the stat's errno first,
      then EPERM. */
  lemma OwnershipRefusals(fs: Fs, c: Caller, req: Request)
    requires WellFormed(req)
    ensures OwnerOnly(req) && fs.stat(req.path).Missing?
            ==> Authorize(fs, c, req) == Deny(-(fs.stat(req.path).errno as int))
    ensures OwnerOnly(req) && fs.stat(req.path).Found? && Authorize(fs, c, req) != Allow
            ==> Authorize(fs, c, req) == Deny(-EPERM)
    ensures req.Chown? && c.uid != 0 ==> Authorize(fs, c, req) == Deny(-EPERM)
    ensures req.Utime? && req.hasTimes && fs.stat(req.path).Found? && fs.stat(req.path).st.uid != c.uid
            ==> Authorize(fs, c, req) == Deny(-EPERM)
  {
  }

  /** Moving a directory whose own mode withholds write from the caller's
      class is refused with EACCES, even when both containing directories
      allow it. */
  lemma RenameDirectoryNeedsWriteOnItself(fs: Fs, c: Caller, ioldpath: CPath, inewpath: CPath)
    requires |ioldpath| >= 1 && |inewpath| >= 1 && c.uid != 0
    requires PermissionWalkParent(fs, inewpath, c, WRITE | EXEC) == 0
    requires PermissionWalkParent(fs, ioldpath, c, WRITE | EXEC) == 0
    requires forall k :: IsCheckpoint(ioldpath, k) ==> Intermediate(fs, ioldpath[..k], c) == 0
    requires fs.stat(ioldpath).Found? && DirBit(fs.stat(ioldpath).st)
    requires !HasBit(fs.stat(ioldpath).st.mode, ClassBits(fs.stat(ioldpath).st, c).w)
    ensures AuthorizeRename(fs, c, ioldpath, inewpath) == Deny(-EACCES)
  {
    WalkReachesFinal(fs, ioldpath, c, WRITE, false);
  }

  /** A storage tree with one regular file "/f", mode 0400, owned by 1000. */
  function ReadOnlyFileTree(): Fs {
    var sr := (p: CPath) => if p == "/f" then Found(Stat(1000, 1000, 0x8100)) else Missing(ENOENT);
    Fs(sr, sr)
  }

  /** access("/f", R_OK | W_OK) on a read-only file: the mask as written asks
      only for read and answers 0; the corrected mask asks for write too. */
  lemma AccessReadWriteOnReadOnlyFile()
    ensures AuthorizeAccessAsWritten(ReadOnlyFileTree(), Caller(1000, 1000), "/f", R_OK | W_OK) == Allow
    ensures AuthorizeAccess(ReadOnlyFileTree(), Caller(1000, 1000), "/f", R_OK | W_OK) == Deny(-EACCES)
  {
    var fs := ReadOnlyFileTree();
    var c := Caller(1000, 1000);
    assert fs.stat("/f") == Found(Stat(1000, 1000, 0x8100));
    assert PermissionWalk(fs, "/f", c, READ, false) == WalkFrom(fs, "/f", c, READ, false, 2);
    assert PermissionWalk(fs, "/f", c, READ | WRITE, false) == WalkFrom(fs, "/f", c, READ | WRITE, false, 2);
  }

  /** The same request through the dispatchers: the program answers 0, the
      corrected prelude refuses it. */
  lemma ReadOnlyFileAccessDispatch()
    ensures Authorize(ReadOnlyFileTree(), Caller(1000, 1000), Access("/f", R_OK | W_OK)) == Allow
    ensures AuthorizeCorrected(ReadOnlyFileTree(), Caller(1000, 1000), Access("/f", R_OK | W_OK)) == Deny(-EACCES)
  {
    AccessReadWriteOnReadOnlyFile();
  }

  /** As written, a request naming read is decided by read alone: the write
      and execute bits asked for with it are never checked. */
  lemma AccessAsWrittenOnlyChecksRead(fs: Fs, c: Caller, ipath: CPath, mode: bv32)
    requires HasBit(mode, R_OK)
    ensures AuthorizeAccessAsWritten(fs, c, ipath, mode) == AuthorizeAccess(fs, c, ipath, R_OK)
  {
    assert AccessMaskAsWritten(mode) == READ;
    assert AccessMask(R_OK) == READ;
  }

  /** The corrected access agrees with the as-written one whenever at most one
      of R_OK, W_OK, X_OK is asked for. */
  lemma AccessAgreesOnSingleBit(fs: Fs, c: Caller, ipath: CPath, mode: bv32)
    requires mode == R_OK || mode == W_OK || mode == X_OK || mode == F_OK
    ensures AuthorizeAccessAsWritten(fs, c, ipath, mode) == AuthorizeAccess(fs, c, ipath, mode)
  {
    assert AccessMaskAsWritten(mode) == AccessMask(mode);
  }

  /** A tree where "/d" is a directory nobody but root may search (mode 0700,
      owned by root) holding "/d/f", owned by 1000. */
  function LockedDirectoryTree(): Fs {
    var sr := (p: CPath) =>
      if p == "/d" then Found(Stat(0, 0, 0x41c0))
      else if p == "/d/f" then Found(Stat(1000, 1000, 0x81a4))
      else Missing(ENOENT);
    Fs(sr, sr)
  }

  /** chmod, setxattr and removexattr do not walk: the owner of "/d/f" may
      change it though "/d" bars them from opening it. */
  lemma OwnerChecksSkipTraversal()
    ensures Authorize(LockedDirectoryTree(), Caller(1000, 1000), Chmod("/d/f")) == Allow
    ensures Authorize(LockedDirectoryTree(), Caller(1000, 1000), Open("/d/f", 0)) == Deny(-EACCES)
  {
    var fs := LockedDirectoryTree();
    var c := Caller(1000, 1000);
    assert fs.stat("/d") == Found(Stat(0, 0, 0x41c0));
    assert fs.stat("/d/f") == Found(Stat(1000, 1000, 0x81a4));
    assert IsCheckpoint("/d/f", 2);
    assert "/d/f"[..2] == "/d";
    assert Intermediate(fs, "/d", c) == -EACCES;
    assert !IsCheckpoint("/d/f", 1);
    WalkStopsAtFirstFailure(fs, "/d/f", c, READ, false, 2);
  }

  /** The path whose directory a parent-walk prelude walks first: the new
      path for rename and link, the path itself otherwise. */
  function FirstParentWalked(req: Request): CPath {
    if req.Rename? || req.Link? then req.newpath else req.path
  }

  /** A storage path with no `/` past its first character has the empty
      string as its directory part, so every parent-walk prelude refuses it
      with ENOENT for anyone but root. With the default root "" this is every
      top-level name, and "/" itself. */
  lemma TopLevelParentWalkRefused(fs: Fs, c: Caller, req: Request)
    requires WellFormed(req) && c.uid != 0
    requires InParentSearch(req) || ChangesEntry(req) || req.Rename? || req.Link?
    requires forall k :: 1 <= k < |FirstParentWalked(req)| ==> FirstParentWalked(req)[k] != '/'
    ensures Authorize(fs, c, req) == Deny(-ENOENT)
  {
    if req.Rename? || req.Link? {
      assert FirstParentWalked(req) == req.newpath;
      assert PermissionWalkParent(fs, req.newpath, c, WRITE | EXEC) == -ENOENT;
    } else {
      assert FirstParentWalked(req) == req.path;
      assert PermissionWalkParent(fs, req.path, c, EXEC) == -ENOENT;
      assert PermissionWalkParent(fs, req.path, c, WRITE | EXEC) == -ENOENT;
    }
  }

  /** With mode 0600, access asking for read and write is answered 0 for the
      owner and refused for another user (the refusal comes from the read
      bit, the only one the program checks). */
  lemma PrivateFileAccess()
    ensures Authorize(PrivateFileTree(), Caller(1000, 1000), Access("/f", R_OK | W_OK)) == Allow
    ensures Authorize(PrivateFileTree(), Caller(1001, 1001), Access("/f", R_OK | W_OK)) == Deny(-EACCES)
  {
    var fs := PrivateFileTree();
    assert AccessMaskAsWritten(R_OK | W_OK) == READ;
    assert PermissionWalk(fs, "/f", Caller(1000, 1000), READ, false)
        == WalkFrom(fs, "/f", Caller(1000, 1000), READ, false, 2);
    assert PermissionWalk(fs, "/f", Caller(1001, 1001), READ, false)
        == WalkFrom(fs, "/f", Caller(1001, 1001), READ, false, 2);
  }

  /** The same holds when the file is opened for reading and writing. */
  lemma PrivateFileOpen()
    ensures Authorize(PrivateFileTree(), Caller(1000, 1000), Open("/f", O_RDWR)) == Allow
    ensures Authorize(PrivateFileTree(), Caller(1001, 1001), Open("/f", O_RDWR)) == Deny(-EACCES)
  {
    var fs := PrivateFileTree();
    assert OpenMask(O_RDWR) == READ | WRITE;
    assert PermissionWalk(fs, "/f", Caller(1000, 1000), READ | WRITE, false)
        == WalkFrom(fs, "/f", Caller(1000, 1000), READ | WRITE, false, 2);
    assert PermissionWalk(fs, "/f", Caller(1001, 1001), READ | WRITE, false)
        == WalkFrom(fs, "/f", Caller(1001, 1001), READ | WRITE, false, 2);
  }

  /** A tree with one regular file "/f", mode 0600, owned by 1000. */
  function PrivateFileTree(): Fs {
    var sr := (p: CPath) => if p == "/f" then Found(Stat(1000, 1000, 0x8180)) else Missing(ENOENT);
    Fs(sr, sr)
  }
}
