# fuse-convmvfs, modelled in Dafny

fuse-convmvfs is a FUSE file system that mirrors a storage directory
(`srcdir`) under a different file-name encoding. Its daemon usually runs as
root, so the kernel's own permission check sees the daemon rather than the
real caller. Before forwarding each request, the daemon therefore replays
the kernel's path-resolution access decision itself, for the caller's uid
and gid. This project models four pieces of that program and proves
properties of them:

- **`Permission`** (`permission.dfy`): the permission walker `permission_walk`
  and its parent variant `permission_walk_parent`. The storage tree is a pair
  of `stat`/`lstat` oracles, a path is a NUL-free string, and mode words are
  `bv32`. The walker appears twice: as a recursive function and as the
  character-scanning loop of the C code. The loop is proved equal to the
  function, and the function grants exactly what a reference model,
  `Authorized`, authorizes. In that model every intermediate component
  is a searchable directory, and the final entry grants each requested bit
  in the shifted rwx triple of the caller's class.
- **`Operations`** (`operations.dfy`): the permission prelude of every
  `convmvfs_*` operation. It records which walks, ownership tests and stats
  run before the native call, and which return code a refusal gives.
- **`Transcoder`** and **`Mount`** (`transcoder.dfy`, `mount.dfy`):
  - `outinconv`, the loop that runs a name through `iconv` in 255-byte
    buffer loads. `iconv` is an abstract step function.
  - The normalisation of `srcdir` in `main`.
  - The storage path `srcdir + out2in(path)` as the C calls receive it.
- **`FdTable`** (`fdtable.dfy`): the reference-counted descriptor table
  `fd_map` of the legacy version under `trunk/`. It covers `getfd`, `setfd`
  and `putfd`, and the `open`, `release` and `read` operations that drive
  them. Host calls are recorded, and their answers are inputs.

The model follows the code as written, including behaviour a reader might
not expect:

- **The empty default root.** The default `srcdir` is `"/"`, and
  normalisation turns it into `""`. The storage path of a top-level name
  `"/x"` is then `"/x"`. Its directory part, as `permission_walk_parent`
  computes it, is the empty string, so `getattr`, `mkdir` and the other
  parent-walk operations refuse every top-level name, and `"/"` itself,
  with ENOENT for any caller but root (`Mount.DefaultRootIsEmpty`,
  `Operations.TopLevelParentWalkRefused`).
- **Ownership-only operations.** `chmod`, `setxattr` and `removexattr` test
  ownership and do not walk. The directories leading to the entry are never
  checked (`Operations.OwnerChecksSkipTraversal`).
- **`utime`.** With explicit times, `utime` demands that the caller own the
  entry, and root is not exempt. Without times, a refused walk returns
  `-errno`. The entry has already been stat'ed successfully, and a walk
  refused by a mode-bit or directory test sets no `errno`, so the value
  returned is whatever `errno` held before, possibly 0, in which case
  success is reported without the times being changed. The model gives
  that outcome as `DenyStale`, an answer whose code is unspecified.
- **The directory test.** The walker tests the single `S_IFDIR` bit. Block
  devices and sockets carry that bit too, so they pass as directories on
  the way (`Permission.DirBitAdmitsOtherFileTypes`).
- **`access` and `F_OK`.** `F_OK` is 0, so the existence probe in `access`
  never runs, and root is answered 0 even for a missing path. The mask
  `access` builds keeps only the first requested bit (see Findings);
  `Operations.Authorize` decides `access` that way, and
  `Operations.AuthorizeCorrected` is the same dispatcher with the mask
  corrected.
- **Later opens in the legacy version.** A later open of a path that is
  already open shares the first descriptor, and its flags are ignored
  (`FdTable.SecondOpenIgnoresFlags`).
- **`setfd` and `-ENODATA`.** `setfd` always returns 0, so the `-ENODATA`
  branch of the legacy `open` cannot be taken.

`main` drops a trailing `/` from `srcdir` so that `srcdir + path` does not
double the separator, but it does so before collapsing runs of slashes, so
the collapse can leave a trailing `/` behind (see Findings). The
configuration, `Mount.MountConfig`, uses the root as written,
`Mount.SrcdirAsWritten`; the corrected root, `Mount.MountRoot`, differs from
it only by that separator (`Mount.AsWrittenAgainstCorrected`).

## Model

| member | source | states |
|---|---|---|
| `Posix.AsCString` | fuse-convmvfs/src/convmvfs.cpp:295-301 | a `std::string` handed to C through `c_str()` is seen up to its first NUL: the result is that prefix, and it is the whole string when no NUL occurs |
| `Permission.CheckBits` | fuse-convmvfs/src/convmvfs.cpp:232-262 | the bit test of a walk step is 0 exactly when every requested bit (READ 01, WRITE 02, EXEC 04) is set among the caller's class bits, and -EACCES otherwise |
| `Permission.GrantsIffPermits` | fuse-convmvfs/src/convmvfs.cpp:232-262 | choosing S_IRUSR/S_IRGRP/S_IROTH etc. by owner, then group, then other agrees with reading the class's rwx triple 6, 3 or 0 bits up in the mode word |
| `Permission.OwnerBitsDecide` | fuse-convmvfs/src/convmvfs.cpp:233-245 | an owner asking for read, write or exec whose owner bit for it is clear is refused with -EACCES whatever the group and other bits say; a non-owner in the file's group likewise by each of the group bits |
| `Permission.DirBitAdmitsOtherFileTypes` | fuse-convmvfs/src/convmvfs.cpp:223-226 | an intermediate block device (060777) or socket (0140777) passes the directory test, because only the S_IFDIR bit is tested |
| `Permission.Intermediate` | fuse-convmvfs/src/convmvfs.cpp:216-228 | an intermediate component passes exactly when it stats, has the S_IFDIR bit and grants search; otherwise the result is the stat's -errno, -ENOTDIR, or -EACCES, in that order |
| `Permission.Final` | fuse-convmvfs/src/convmvfs.cpp:209-215 | the final component, resolved by `lstat` in a readlink walk and `stat` otherwise, passes exactly when it resolves and grants the requested bits; mask 0 checks resolution only; a failed resolution gives its -errno, and a resolved entry that withholds a requested bit gives -EACCES |
| `Permission.PermissionWalk` | fuse-convmvfs/src/convmvfs.cpp:186-205 | root is granted every path, including the empty one; anyone else is refused the empty path with -ENOENT |
| `Permission.WalkNonPositive` | fuse-convmvfs/src/convmvfs.cpp:186-270 | the walk returns 0 or a negated errno, never a positive value |
| `Permission.WalkMatchesReference` | fuse-convmvfs/src/convmvfs.cpp:186-270 | the walk returns 0 exactly when the reference model authorizes: root, or a non-empty path whose every prefix before a `/` at index 1 or beyond is a searchable directory and whose final entry grants the requested bits |
| `Permission.WalkStopsAtFirstFailure` | fuse-convmvfs/src/convmvfs.cpp:206-230 | the first intermediate component that fails, left to right, decides the result, whatever lies further along |
| `Permission.WalkReachesFinal` | fuse-convmvfs/src/convmvfs.cpp:206-215 | when every intermediate component passes, the final component's check is the result |
| `Permission.PermissionWalkLoop` | fuse-convmvfs/src/convmvfs.cpp:186-270 | the character-at-a-time scan, where a `/` at index 0 is never a checkpoint, computes the same result as the walk |
| `Permission.ScanBack` | fuse-convmvfs/src/convmvfs.cpp:274-276 | the backward scan stops at the last `/` at index 1 or beyond, or at 0 when there is none |
| `Permission.ParentLength` | fuse-convmvfs/src/convmvfs.cpp:272-278 | the directory part's length is the position of the last `/` past index 0, or 0, and no `/` follows it |
| `Permission.PermissionWalkParent` | fuse-convmvfs/src/convmvfs.cpp:272-280 | root is granted; a non-root caller is refused with -ENOENT when the path has no `/` past index 0, because the empty directory part is walked |
| `Permission.ParentWalkIsWalkOfDirectory` | fuse-convmvfs/src/convmvfs.cpp:272-280 | for `dir + "/" + name` with a slash-free name, the parent walk is exactly the walk of `dir` |
| `Transcoder.Trace` | fuse-convmvfs/src/convmvfs.cpp:143-168 | the `iconv` calls of one conversion: every call but the last reported E2BIG, the last did not, each buffer load is at most 255 bytes, and there is at most one call more than there are input bytes |
| `Transcoder.ConvertFromTrace` | fuse-convmvfs/src/convmvfs.cpp:143-168 | the flush-and-continue loop returns what its trace of calls assembles to, with any output already flushed kept in front |
| `Transcoder.Transcode` | trunk/src/convmvfs.cpp:132-162 | on success the result is every buffer load concatenated; after EINVAL or EILSEQ it is all output so far followed by "???"; after any other error it is exactly "????", earlier loads discarded; degraded output always ends in "???" |
| `Transcoder.OutInConv` | fuse-convmvfs/src/convmvfs.cpp:137-170 | the do/while loop with its buffer reset on E2BIG computes the conversion above |
| `Mount.FindDoubleSlash` | fuse-convmvfs/src/convmvfs.cpp:776 | `find("//")` gives the first doubled separator at or after the start position, or reports that none is left |
| `Mount.Squeeze` | fuse-convmvfs/src/convmvfs.cpp:775-778 | reference for collapsing separators: the result has no `//`, is no longer than the input, and keeps its first and last character |
| `Mount.EraseKeepsSqueeze` | fuse-convmvfs/src/convmvfs.cpp:777 | erasing one character of a `//` does not change the collapsed form |
| `Mount.SqueezeFixed` | fuse-convmvfs/src/convmvfs.cpp:775-778 | a string without `//` is its own collapsed form, so the loop's result is the collapsed form |
| `Mount.SrcdirAsWritten` | fuse-convmvfs/src/convmvfs.cpp:770-780 | the root as `main` leaves it has no `//`, is never longer than the option, is empty for an empty option, and for an option without `//` is the option minus one trailing `/`, so it does not end in a separator |
| `Mount.NormalizeSrcdir` | fuse-convmvfs/src/convmvfs.cpp:770-780 | the erase loop computes that root: a non-empty srcdir loses one trailing `/` and then has every run of slashes collapsed; the result has no `//` and is never longer; an empty srcdir is left empty |
| `Mount.TrailingSlashSurvives` | fuse-convmvfs/src/convmvfs.cpp:770-778 | as written, "/a//" becomes "/a/" and "//" becomes "/", both ending in a separator; the corrected root gives "/a" and "" |
| `Mount.MountRoot` | fuse-convmvfs/src/convmvfs.cpp:770-780 | the corrected root has no doubled and no trailing separator, is never longer than the option, and an option already in that form is kept unchanged |
| `Mount.DefaultRootIsEmpty` | fuse-convmvfs/src/convmvfs.cpp:770-774 | the default srcdir "/" becomes "", both as written and corrected |
| `Mount.AsWrittenAgainstCorrected` | fuse-convmvfs/src/convmvfs.cpp:770-778 | the root as written is the corrected root, possibly followed by one `/`, and equals it unless the option ends in `//` |
| `Mount.MountConfig` | fuse-convmvfs/src/convmvfs.cpp:770-780 | the configured root is the root as written: no `//`, never longer than the option, no trailing `/` when the option has no `//`, and at most one `/` longer than the corrected root; the conversions are kept as given |
| `Mount.StoragePath` | fuse-convmvfs/src/convmvfs.cpp:295 | the storage path starts with the root and, when the converted name holds no NUL, is exactly root + out2in(path) |
| `Mount.CallerName` | fuse-convmvfs/src/convmvfs.cpp:388-389 | a listed storage name reaches the caller as in2out(name), cut at a NUL the conversion may produce |
| `Operations.GateOnWalk` | fuse-convmvfs/src/convmvfs.cpp:352-353 | a non-zero walk result is returned as the refusal, so a refusal always carries a negative code |
| `Operations.WalkGate` | fuse-convmvfs/src/convmvfs.cpp:367-371 | a walk prelude allows exactly what the reference model authorizes and otherwise refuses with the walk's negative code |
| `Operations.ParentGate` | fuse-convmvfs/src/convmvfs.cpp:350-353 | a parent-walk prelude allows exactly when the directory part is authorized, and otherwise returns the parent walk's code |
| `Operations.OpenMask` | fuse-convmvfs/src/convmvfs.cpp:300-309 | open asks for write exactly when O_WRONLY or O_RDWR is set, for read exactly when O_WRONLY is not, and never for exec |
| `Operations.AuthorizeOpen` | fuse-convmvfs/src/convmvfs.cpp:294-311 | open is allowed exactly when the storage path is authorized for the mask its flags select, and is otherwise refused with the walk's code |
| `Operations.AuthorizeRename` | fuse-convmvfs/src/convmvfs.cpp:502-530 | rename needs W\|X on the new path's directory, then on the old path's directory, then the old entry to stat, then WRITE on the old entry if it has the S_IFDIR bit; each refusal returns the code of the check that failed first, in that order; a missing old entry is reported even to root |
| `Operations.RenameDirectoryNeedsWriteOnItself` | fuse-convmvfs/src/convmvfs.cpp:520-529 | a directory whose class bits withhold write cannot be moved, with -EACCES, even when both containing directories allow it |
| `Operations.AuthorizeLink` | fuse-convmvfs/src/convmvfs.cpp:535-549 | link needs W\|X on both containing directories; the new one's refusal is reported first, then the old one's, each with its parent walk's code |
| `Operations.AuthorizeOwnerOrRoot` | fuse-convmvfs/src/convmvfs.cpp:555-565 | chmod, setxattr and removexattr are allowed exactly when the entry stats and the caller is its owner or root; otherwise -errno of the stat or -EPERM |
| `Operations.OwnerChecksSkipTraversal` | fuse-convmvfs/src/convmvfs.cpp:555-567 | the owner of "/d/f" may chmod it while an unsearchable "/d" bars them from opening it |
| `Operations.AuthorizeChown` | fuse-convmvfs/src/convmvfs.cpp:625-638 | chown is allowed exactly for root; anyone else gets -EPERM |
| `Operations.AuthorizeUtime` | fuse-convmvfs/src/convmvfs.cpp:586-601 | utime needs the entry to stat; without times it needs WRITE, with a refusal whose code is unspecified; with times it needs the caller to own the entry, root included, and anyone else gets -EPERM |
| `Operations.AccessMaskAsWritten` | fuse-convmvfs/src/convmvfs.cpp:618-621 | the mask as the expression parses holds at most one bit: READ if R_OK is asked, else WRITE if W_OK is, else EXEC if X_OK is, else 0 |
| `Operations.AccessMask` | fuse-convmvfs/src/convmvfs.cpp:618-621 | the corrected mask has READ, WRITE and EXEC exactly when R_OK, W_OK and X_OK are asked, respectively |
| `Operations.AuthorizeAccessAsWritten` | fuse-convmvfs/src/convmvfs.cpp:608-623 | access as written allows exactly what the walk with the single-bit mask authorizes, refuses with that walk's code, and answers root 0 even for a missing path |
| `Operations.AuthorizeAccess` | fuse-convmvfs/src/convmvfs.cpp:608-623 | corrected access allows exactly what the walk with every requested bit authorizes and refuses with that walk's code; root is answered 0 even for a missing path |
| `Operations.AccessReadWriteOnReadOnlyFile` | fuse-convmvfs/src/convmvfs.cpp:618-621 | R_OK\|W_OK on a 0400 file owned by the caller is answered 0 as written and -EACCES when corrected |
| `Operations.AccessAsWrittenOnlyChecksRead` | fuse-convmvfs/src/convmvfs.cpp:618-621 | as written, any request that names R_OK is decided as if R_OK alone were asked |
| `Operations.ReadOnlyFileAccessDispatch` | fuse-convmvfs/src/convmvfs.cpp:608-621 | through the dispatchers, R_OK\|W_OK on the caller's own 0400 file is answered 0 by the program and -EACCES by the corrected prelude |
| `Operations.AccessAgreesOnSingleBit` | fuse-convmvfs/src/convmvfs.cpp:608-623 | the as-written and corrected access agree when at most one of R_OK, W_OK and X_OK is asked |
| `Operations.Authorize` | fuse-convmvfs/src/convmvfs.cpp:294-719 | per request: a refusal carries a negative code; an unspecified code arises only from utime without times for a non-root caller; root is refused only when a stat-first operation or rename finds its entry missing, or by utime with times; read, write, release and readdir run no check; access is decided with the mask as written (see `Operations.MaskDecisions`) |
| `Operations.AuthorizeCorrected` | fuse-convmvfs/src/convmvfs.cpp:608-621 | the dispatcher with access corrected: access is allowed exactly when every requested bit is granted and is otherwise refused with the walk's code; every other request is decided as the program decides it |
| `Operations.ParentDecisions` | fuse-convmvfs/src/convmvfs.cpp:346-700 | getattr, listxattr and getxattr are allowed exactly when the directory part grants EXEC along its walk; mknod, mkdir, unlink, rmdir and symlink exactly when it grants W\|X |
| `Operations.WalkDecisions` | fuse-convmvfs/src/convmvfs.cpp:361-650 | opendir is allowed exactly when the path grants READ; readlink the same but with `lstat` on the final component; truncate exactly when it grants WRITE; statfs exactly when every directory on the way is searchable and the entry itself exists |
| `Operations.MaskDecisions` | fuse-convmvfs/src/convmvfs.cpp:294-621 | open is allowed exactly when the path grants the mask its flags select; access exactly when the path grants the single-bit mask the expression builds |
| `Operations.OwnershipDecisions` | fuse-convmvfs/src/convmvfs.cpp:555-719 | chmod, setxattr and removexattr need an existing entry and the owner or root; chown needs root; utime with times needs the owner |
| `Operations.OwnershipRefusals` | fuse-convmvfs/src/convmvfs.cpp:555-719 | chmod, setxattr and removexattr refuse a missing entry with the stat's -errno and a non-owner with -EPERM; chown refuses anyone but root with -EPERM; utime with times refuses a non-owner with -EPERM |
| `Operations.ParentRefusals` | fuse-convmvfs/src/convmvfs.cpp:346-700 | a refused getattr, listxattr or getxattr carries the EXEC parent walk's code; a refused mknod, mkdir, unlink, rmdir or symlink carries the W\|X parent walk's code |
| `Operations.WalkRefusals` | fuse-convmvfs/src/convmvfs.cpp:361-650 | a refused opendir, readlink, truncate or statfs carries the code of its walk (READ, READ with `lstat`, WRITE, mask 0) |
| `Operations.MaskRefusals` | fuse-convmvfs/src/convmvfs.cpp:294-621 | a refused open carries the walk's code with its flag mask; a refused access the walk's code with the single-bit mask |
| `Operations.RenameLinkDecisions` | fuse-convmvfs/src/convmvfs.cpp:502-553 | rename is allowed exactly when both containing directories grant W\|X, the old entry stats, and a moved directory grants WRITE itself; link exactly when both containing directories grant W\|X |
| `Operations.RenameLinkRefusals` | fuse-convmvfs/src/convmvfs.cpp:502-553 | a refused rename or link carries the new directory's code first, then the old directory's; rename then reports a missing old entry's -errno, then the moved directory's WRITE walk code |
| `Operations.UtimeDecisions` | fuse-convmvfs/src/convmvfs.cpp:586-601 | utime without times is allowed exactly when the entry stats and the path grants WRITE; a missing entry gives the stat's -errno; a refused walk gives the unspecified code |
| `Operations.TopLevelParentWalkRefused` | fuse-convmvfs/src/convmvfs.cpp:272-280 | every parent-walk prelude (getattr, the xattr reads, the five entry-changing requests, and rename and link by their new path) refuses with -ENOENT a non-root caller whose first walked path has no `/` past index 0 |
| `Operations.PrivateFileAccess` | fuse-convmvfs/src/convmvfs.cpp:608-621 | on a 0600 file owned by uid 1000, access with R_OK\|W_OK is allowed for uid 1000 and refused with -EACCES for uid 1001, on the read bit alone |
| `Operations.PrivateFileOpen` | fuse-convmvfs/src/convmvfs.cpp:294-311 | on the same file a read-write open is allowed for uid 1000 and refused with -EACCES for uid 1001 |
| `FdTable.GetFd` | trunk/src/convmvfs.cpp:172-182 | an absent path gives -1 and leaves the table alone; a present one gives its descriptor and, when `upuse` is set, exactly one more holder; other entries are kept |
| `FdTable.SetFd` | trunk/src/convmvfs.cpp:184-190 | for an absent path, the entry becomes the descriptor held once, others are kept, and the result is always 0 |
| `FdTable.PutFd` | trunk/src/convmvfs.cpp:192-209 | an absent path gives -ENOENT with the table unchanged; otherwise one holder fewer; the last holder removes the entry and closes the descriptor, and a failed close returns its -errno after the entry is gone |
| `FdTable.Open` | trunk/src/convmvfs.cpp:216-233 | a path already open gains a holder and shares its descriptor, with no host call and its flags ignored; otherwise the storage path is opened once, and a failure leaves the table unchanged and returns -errno |
| `FdTable.Release` | trunk/src/convmvfs.cpp:235-239 | release removes exactly one holder, closes only when it removes the last, keeps every entry held at least once, and leaves other paths alone |
| `FdTable.Read` | trunk/src/convmvfs.cpp:252-263 | read finds the shared descriptor without counting a holder, or returns -ENOENT for a path with no open |
| `FdTable.StepPreservesValid` | trunk/src/convmvfs.cpp:216-263 | each of open, release and read keeps every entry held at least once |
| `FdTable.Run` | trunk/src/convmvfs.cpp:216-263 | any sequence of requests from a table whose entries are all held, the empty one included, keeps every entry held at least once |
| `FdTable.ReopensOnlyCount` | trunk/src/convmvfs.cpp:176-181 | k further opens of an open path add k holders and make no host call |
| `FdTable.RepeatedOpensShareOneDescriptor` | trunk/src/convmvfs.cpp:216-233 | n opens of a path not yet open make one host open and leave one descriptor held n times |
| `FdTable.ReleasesCountDown` | trunk/src/convmvfs.cpp:192-208 | fewer releases than holders only count down and close nothing |
| `FdTable.LastReleaseCloses` | trunk/src/convmvfs.cpp:192-208 | as many releases as holders close the descriptor once, at the last release, and remove the entry |
| `FdTable.BalancedOpensAndReleases` | trunk/src/convmvfs.cpp:216-239 | n opens then n releases of one path restore the table, with exactly one host open and one host close and every reply 0 |
| `FdTable.SecondOpenIgnoresFlags` | trunk/src/convmvfs.cpp:221-231 | a second open with other flags reuses the first descriptor: only the first open's flags reach the host |

## Left out

- The effects of the native calls that follow a prelude are left out: open, read, write, lseek, mknod, mkdir, unlink, rmdir, symlink, rename, link, chmod, chown, truncate, utime, statvfs, the xattr calls, readdir, and the chown/lchown after a creation by a root daemon. Only the permission decision and the stat oracle are modelled.
- FUSE plumbing, option parsing, usage and version text, and the `chdir` in `convmvfs_init` are process start-up, not logic. The FUSE context is replaced by a `Caller` parameter.
- `iconv_open`, `iconv_close` and real character sets belong to a foreign library, so `iconv` is an abstract step function. Nothing is proved about round trips between the two encodings.
- Transcoder.Transcode: `iconv`'s shift state is not carried from one call to the next. Each call is a function of the remaining input and the free room only, and an E2BIG call is assumed to consume some input, which the loop needs to end.
- The mutex around `iconv` and the unsynchronised `fd_map` concern concurrency. The model is sequential.
- The copy of the link target back into the caller's buffer in `convmvfs_readlink` is C buffer handling against a caller-supplied length.
- Operations.AuthorizeUtime: when the walk without times fails, the value returned is left unspecified (`DenyStale`). A walk refused by a mode-bit or directory test leaves `errno` as it was before, which may even be 0 (success reported with no change made); a walk refused by a failing `stat` of its own would return that `stat`'s code, which the model does not single out.
- Permission.PermissionWalk: the -ENOMEM return when copying the path fails to allocate memory is left out. The copy is modelled as always succeeding.
- The `cerr` logging of the legacy version produces no observable state.
- Posix.AsCString: a `char` stands for one C byte. No encoding of bytes to characters is modelled.
- FdTable.Open: the reference count is an unbounded integer. The C `int` could wrap after 2^31 opens of one path, which is not modelled.
- Operations.ParentGate: an empty storage path is excluded by its precondition (and by `Operations.WellFormed` for the dispatcher). On it `permission_walk_parent` reads before the start of its buffer, which is undefined behaviour in C; this can happen only with the empty default root and a name whose conversion begins with a NUL byte.
- FdTable.Read: the `lseek` and `read` on the descriptor found are host calls and are not modelled.

## Findings

| source | as written | input that shows it | evidently intended | confidence | as-written member | corrected member |
|---|---|---|---|---|---|---|
| fuse-convmvfs/src/convmvfs.cpp:618-621 | `\|` binds tighter than `?:`, so the three conditional terms nest and the mask keeps only the first requested bit | access("/f", R_OK\|W_OK) by uid 1000 on a 0400 file owned by uid 1000 answers 0 | every requested bit of R_OK, W_OK, X_OK checked | high; not executed | `Operations.AuthorizeAccessAsWritten` (shown by `Operations.AccessReadWriteOnReadOnlyFile`) | `Operations.AuthorizeAccess` (dispatched by `Operations.AuthorizeCorrected`) |
| fuse-convmvfs/src/convmvfs.cpp:770-778 | one trailing `/` is dropped before doubled separators are collapsed, so a collapse can leave a new trailing `/` | srcdir "/a//" becomes "/a/"; srcdir "//" becomes "/" | a root with no trailing separator: "/a" and "" | medium; not executed | `Mount.NormalizeSrcdir` (shown by `Mount.TrailingSlashSurvives`) | `Mount.MountRoot` (related by `Mount.AsWrittenAgainstCorrected`) |
