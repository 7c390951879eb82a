/** The descriptor table of the legacy convmvfs: one native descriptor per
    caller path, shared by every open of that path and closed when the last
    of them is released. */
module FdTable {
  import opened Posix

  /** `fdmap_node`: the native descriptor and the number of opens holding it. */
  datatype Node = Node(fd: nat, use: int)

  /** `fd_map`, keyed by the caller's path (not the storage path). */
  type FdMap = map<CPath, Node>

  /** Every entry is held by at least one open. */
  predicate Valid(m: FdMap) {
    forall p :: p in m ==> m[p].use >= 1
  }

  /** Opens of `p` not yet released: the reference the table is judged by. */
  function Uses(m: FdMap, p: CPath): int {
    if p in m then m[p].use else 0
  }

  /** The two calls into the host system the table makes. */
  datatype Native = NativeOpen(ipath: CPath, flags: bv32) | NativeClose(fd: nat)

  /** What `open(2)` and `close(2)` answer, supplied from outside the model. */
  datatype OpenOutcome = Opened(fd: nat) | OpenFailed(errno: Errno)
  datatype CloseOutcome = Closed | CloseFailed(errno: Errno)

  /** A return code, the table afterwards and the native calls made. */
  datatype Reply = Reply(rc: int, table: FdMap, calls: seq<Native>)

  /** Every entry other than `p`'s is as it was. */
  predicate OthersKept(m: FdMap, m': FdMap, p: CPath) {
    m' - {p} == m - {p}
  }

  /** getfd: the descriptor held for `p`, or -1; `upuse` counts a new holder. */
  function GetFd(m: FdMap, p: CPath, upuse: bool): (r: Reply)
    ensures r.rc >= 0 <==> p in m
    ensures p in m ==> r.rc == m[p].fd && p in r.table && r.table[p].fd == m[p].fd
    ensures p !in m ==> r.rc == -1 && r.table == m
    ensures Uses(r.table, p) == Uses(m, p) + (if upuse && p in m then 1 else 0)
    ensures OthersKept(m, r.table, p)
    ensures r.calls == []
  {
    if p !in m then Reply(-1, m, [])
    else if upuse then Reply(m[p].fd, m[p := Node(m[p].fd, m[p].use + 1)], [])
    else Reply(m[p].fd, m, [])
  }

  /** setfd: a fresh entry held once. The source asserts the path is absent. */
  function SetFd(m: FdMap, p: CPath, fd: nat): (r: Reply)
    requires p !in m
    ensures r.rc == 0
    ensures p in r.table && r.table[p].fd == fd && Uses(r.table, p) == 1
    ensures OthersKept(m, r.table, p)
    ensures r.calls == []
  {
    Reply(0, m[p := Node(fd, 1)], [])
  }

  /** putfd: one holder fewer; the last one erases the entry and closes the
      descriptor, reporting a failed close after the entry is gone. */
  function PutFd(m: FdMap, p: CPath, closed: CloseOutcome): (r: Reply)
    ensures p !in m ==> r == Reply(-ENOENT, m, [])
    ensures p in m ==> Uses(r.table, p) == m[p].use - 1 || (m[p].use == 1 && p !in r.table)
    ensures p in m && m[p].use != 1 ==> r.rc == 0 && r.calls == [] && p in r.table && r.table[p].fd == m[p].fd
    // the descriptor is closed exactly when the last holder lets go
    ensures p in m && m[p].use == 1 ==> p !in r.table && r.calls == [NativeClose(m[p].fd)]
    ensures p in m && m[p].use == 1 ==> (r.rc == 0 <==> closed.Closed?)
    ensures p in m && m[p].use == 1 && closed.CloseFailed? ==> r.rc == -(closed.errno as int)
    ensures OthersKept(m, r.table, p)
  {
    if p !in m then Reply(-ENOENT, m, [])
    else
      var n := Node(m[p].fd, m[p].use - 1);
      if n.use == 0 then
        var rc := match closed case Closed => 0 case CloseFailed(e) => -(e as int);
        Reply(rc, m - {p}, [NativeClose(n.fd)])
      else Reply(0, m[p := n], [])
  }

  /** convmvfs_open: a path already open shares its descriptor, whatever the
      flags; otherwise the storage path is opened and recorded. */
  function Open(m: FdMap, opath: CPath, ipath: CPath, flags: bv32, onOpen: OpenOutcome): (r: Reply)
    ensures opath in m ==> r.rc == 0 && r.calls == [] && opath in r.table && r.table[opath].fd == m[opath].fd
    ensures opath !in m ==> r.calls == [NativeOpen(ipath, flags)]
    ensures opath !in m && onOpen.OpenFailed? ==> r.rc == -(onOpen.errno as int) && r.table == m
    ensures opath !in m && onOpen.Opened? ==> r.rc == 0 && opath in r.table && r.table[opath].fd == onOpen.fd
    // a successful open adds one holder; a failed one changes nothing
    ensures r.rc == 0 ==> Uses(r.table, opath) == Uses(m, opath) + 1
    ensures r.rc != 0 ==> r.table == m
    ensures OthersKept(m, r.table, opath)
  {
    var g := GetFd(m, opath, true);
    if g.rc != -1 then Reply(0, g.table, [])
    else
      match onOpen
      case OpenFailed(e) => Reply(-(e as int), m, [NativeOpen(ipath, flags)])
      case Opened(fd) =>
        var s := SetFd(m, opath, fd);
        if s.rc != 0 then Reply(-ENODATA, s.table, [NativeOpen(ipath, flags)])
        else Reply(0, s.table, [NativeOpen(ipath, flags)])
  }

  /** convmvfs_release. */
  function Release(m: FdMap, opath: CPath, closed: CloseOutcome): (r: Reply)
    ensures opath in m ==> Uses(r.table, opath) == Uses(m, opath) - 1
    ensures opath !in m ==> r.rc == -ENOENT && r.table == m
    ensures r.calls != [] <==> opath in m && m[opath].use == 1
    ensures Valid(m) ==> Valid(r.table)
    ensures OthersKept(m, r.table, opath)
  {
    PutFd(m, opath, closed)
  }

  /** convmvfs_read: the descriptor to read from, or -ENOENT for a path with
      no open; reading does not count as a holder. */
  function Read(m: FdMap, opath: CPath): (r: Reply)
    ensures r.rc == -ENOENT <==> opath !in m
    ensures opath in m ==> r.rc == m[opath].fd
    ensures r.table == m && r.calls == []
  {
    var g := GetFd(m, opath, false);
    if g.rc == -1 then Reply(-ENOENT, g.table, []) else g
  }

  /** One request to the legacy file system, with the host's answer to any
      native call it makes. */
  datatype Op =
    | OpenOp(opath: CPath, ipath: CPath, flags: bv32, onOpen: OpenOutcome)
    | ReleaseOp(opath: CPath, closed: CloseOutcome)
    | ReadOp(opath: CPath)

  function Step(m: FdMap, op: Op): Reply
  {
    match op
    case OpenOp(p, ip, flags, o) => Open(m, p, ip, flags, o)
    case ReleaseOp(p, cl) => Release(m, p, cl)
    case ReadOp(p) => Read(m, p)
  }

  lemma StepPreservesValid(m: FdMap, op: Op)
    requires Valid(m)
    ensures Valid(Step(m, op).table)
  {
    if op.OpenOp? {
      var r := Open(m, op.opath, op.ipath, op.flags, op.onOpen);
      forall q | q in r.table ensures r.table[q].use >= 1 {
        if q == op.opath && r.rc == 0 {
          assert Uses(r.table, q) == Uses(m, q) + 1;
        }
      }
    }
  }

  /** The replies of a sequence of requests, in order. */
  datatype History = History(table: FdMap, calls: seq<Native>, rcs: seq<int>)

  function Run(m: FdMap, ops: seq<Op>): (h: History)
    ensures |h.rcs| == |ops|
    ensures Valid(m) ==> Valid(h.table)
    decreases |ops|
  {
    if |ops| == 0 then History(m, [], [])
    else
      assert Valid(m) ==> Valid(Step(m, ops[0]).table) by {
        if Valid(m) {
          StepPreservesValid(m, ops[0]);
        }
      }
      var r := Step(m, ops[0]);
      var h := Run(r.table, ops[1..]);
      History(h.table, r.calls + h.calls, [r.rc] + h.rcs)
  }

  /** Running two sequences one after the other is running their concatenation. */
  lemma {:induction false} RunAppend(m: FdMap, a: seq<Op>, b: seq<Op>)
    ensures var ha := Run(m, a);
            var hb := Run(ha.table, b);
            Run(m, a + b) == History(hb.table, ha.calls + hb.calls, ha.rcs + hb.rcs)
    decreases |a|
  {
    if |a| == 0 {
      assert a + b == b;
    } else {
      var r := Step(m, a[0]);
      assert (a + b)[0] == a[0];
      assert (a + b)[1..] == a[1..] + b;
      RunAppend(r.table, a[1..], b);
      var ha' := Run(r.table, a[1..]);
      var hb := Run(ha'.table, b);
      assert r.calls + (ha'.calls + hb.calls) == (r.calls + ha'.calls) + hb.calls;
      assert [r.rc] + (ha'.rcs + hb.rcs) == ([r.rc] + ha'.rcs) + hb.rcs;
    }
  }

  /** RunAppend, for histories already known. */
  lemma RunThen(m: FdMap, a: seq<Op>, b: seq<Op>, ha: History, hb: History)
    requires Run(m, a) == ha && Run(ha.table, b) == hb
    ensures Run(m, a + b) == History(hb.table, ha.calls + hb.calls, ha.rcs + hb.rcs)
  {
    RunAppend(m, a, b);
  }

  function Repeat(op: Op, n: nat): (ops: seq<Op>)
    ensures |ops| == n
  {
    if n == 0 then [] else [op] + Repeat(op, n - 1)
  }

  function Zeros(n: nat): (z: seq<int>)
    ensures |z| == n
  {
    if n == 0 then [] else [0] + Zeros(n - 1)
  }

  /** Running a sequence with a first request: that request, then the rest. */
  lemma RunCons(m: FdMap, op: Op, rest: seq<Op>)
    ensures var r := Step(m, op);
            var h := Run(r.table, rest);
            Run(m, [op] + rest) == History(h.table, r.calls + h.calls, [r.rc] + h.rcs)
  {
    assert ([op] + rest)[0] == op;
    assert ([op] + rest)[1..] == rest;
  }

  lemma FirstOpenStep(m: FdMap, p: CPath, ipath: CPath, flags: bv32, fd: nat)
    requires p !in m
    ensures Step(m, OpenOp(p, ipath, flags, Opened(fd))) == Reply(0, m[p := Node(fd, 1)], [NativeOpen(ipath, flags)])
  {
  }

  lemma ReopenStep(m: FdMap, p: CPath, ipath: CPath, flags: bv32, o: OpenOutcome)
    requires p in m
    ensures Step(m, OpenOp(p, ipath, flags, o)) == Reply(0, m[p := Node(m[p].fd, m[p].use + 1)], [])
  {
  }

  lemma ReleaseStep(m: FdMap, p: CPath, cl: CloseOutcome)
    requires p in m && m[p].use > 1
    ensures Step(m, ReleaseOp(p, cl)) == Reply(0, m[p := Node(m[p].fd, m[p].use - 1)], [])
  {
  }

  lemma LastReleaseStep(m: FdMap, p: CPath)
    requires p in m && m[p].use == 1
    ensures Step(m, ReleaseOp(p, Closed)) == Reply(0, m - {p}, [NativeClose(m[p].fd)])
  {
  }

  /** Writing a key twice keeps only the second value. */
  lemma Overwrite(m: FdMap, p: CPath, a: Node, b: Node)
    ensures m[p := a][p := b] == m[p := b]
  {
  }

  /** Writing back the value a key already has changes nothing. */
  lemma WriteBack(m: FdMap, p: CPath)
    requires p in m
    ensures m[p := m[p]] == m
  {
  }

  /** Adding a fresh key and erasing it again gives the map back. */
  lemma AddThenErase(m: FdMap, p: CPath, a: Node)
    requires p !in m
    ensures m[p := a] - {p} == m
  {
  }

  /** Erasing a key forgets whatever was written to it. */
  lemma EraseAfterWrite(m: FdMap, p: CPath, a: Node)
    ensures m[p := a] - {p} == m - {p}
  {
  }

  /** Further opens of a path already open only count holders. */
  lemma {:induction false} ReopensOnlyCount(m: FdMap, p: CPath, ipath: CPath, flags: bv32, o: OpenOutcome, k: nat)
    requires p in m
    ensures Run(m, Repeat(OpenOp(p, ipath, flags, o), k))
            == History(m[p := Node(m[p].fd, m[p].use + k)], [], Zeros(k))
    decreases k
  {
    var op := OpenOp(p, ipath, flags, o);
    if k == 0 {
      WriteBack(m, p);
    } else {
      RunCons(m, op, Repeat(op, k - 1));
      ReopenStep(m, p, ipath, flags, o);
      var m1 := m[p := Node(m[p].fd, m[p].use + 1)];
      ReopensOnlyCount(m1, p, ipath, flags, o, k - 1);
      Overwrite(m, p, Node(m[p].fd, m[p].use + 1), Node(m[p].fd, m[p].use + k));
    }
  }

  /** n opens of a path not yet open make one native open and leave one
      descriptor held n times. */
  lemma RepeatedOpensShareOneDescriptor(m: FdMap, p: CPath, ipath: CPath, flags: bv32, fd: nat, n: nat)
    requires p !in m && n >= 1
    ensures Run(m, Repeat(OpenOp(p, ipath, flags, Opened(fd)), n))
            == History(m[p := Node(fd, n)], [NativeOpen(ipath, flags)], Zeros(n))
  {
    var op := OpenOp(p, ipath, flags, Opened(fd));
    var rest := Repeat(op, n - 1);
    assert Repeat(op, n) == [op] + rest;
    RunCons(m, op, rest);
    FirstOpenStep(m, p, ipath, flags, fd);
    var m1 := m[p := Node(fd, 1)];
    ReopensOnlyCount(m1, p, ipath, flags, Opened(fd), n - 1);
    Overwrite(m, p, Node(fd, 1), Node(fd, n));
    assert [NativeOpen(ipath, flags)] + [] == [NativeOpen(ipath, flags)];
    assert [0] + Zeros(n - 1) == Zeros(n);
  }

  /** Releases short of the last only count holders down. */
  lemma {:induction false} ReleasesCountDown(m: FdMap, p: CPath, cl: CloseOutcome, k: nat)
    requires p in m && k < m[p].use
    ensures Run(m, Repeat(ReleaseOp(p, cl), k))
            == History(m[p := Node(m[p].fd, m[p].use - k)], [], Zeros(k))
    decreases k
  {
    var op := ReleaseOp(p, cl);
    if k == 0 {
      WriteBack(m, p);
    } else {
      RunCons(m, op, Repeat(op, k - 1));
      ReleaseStep(m, p, cl);
      var m1 := m[p := Node(m[p].fd, m[p].use - 1)];
      ReleasesCountDown(m1, p, cl, k - 1);
      Overwrite(m, p, Node(m[p].fd, m[p].use - 1), Node(m[p].fd, m[p].use - k));
    }
  }

  /** The last release on its own: the entry goes and the descriptor is closed. */
  lemma LastReleaseRun(m: FdMap, p: CPath)
    requires p in m && m[p].use == 1
    ensures Run(m, [ReleaseOp(p, Closed)]) == History(m - {p}, [NativeClose(m[p].fd)], [0])
  {
    RunCons(m, ReleaseOp(p, Closed), []);
    assert [ReleaseOp(p, Closed)] + [] == [ReleaseOp(p, Closed)];
    LastReleaseStep(m, p);
  }

  /** Running n copies of a request is running n - 1 copies, then one more. */
  lemma RunSnoc(m: FdMap, op: Op, n: nat)
    requires n >= 1
    ensures var ha := Run(m, Repeat(op, n - 1));
            var hb := Run(ha.table, [op]);
            Run(m, Repeat(op, n)) == History(hb.table, ha.calls + hb.calls, ha.rcs + hb.rcs)
  {
    RepeatSnoc(op, n);
    RunAppend(m, Repeat(op, n - 1), [op]);
  }

  /** As many releases as holders close the descriptor once, at the last one,
      and remove the entry. */
  lemma LastReleaseCloses(m: FdMap, p: CPath, n: nat)
    requires p in m && m[p].use == n && n >= 1
    ensures Run(m, Repeat(ReleaseOp(p, Closed), n))
            == History(m - {p}, [NativeClose(m[p].fd)], Zeros(n))
  {
    RunSnoc(m, ReleaseOp(p, Closed), n);
    ReleasesCountDown(m, p, Closed, n - 1);
    LastReleaseRun(m[p := Node(m[p].fd, 1)], p);
    EraseAfterWrite(m, p, Node(m[p].fd, 1));
    ZerosSnoc(n);
  }

  lemma {:induction false} RepeatSnoc(op: Op, n: nat)
    requires n >= 1
    ensures Repeat(op, n) == Repeat(op, n - 1) + [op]
    decreases n
  {
    if n > 1 {
      RepeatSnoc(op, n - 1);
    }
  }

  lemma {:induction false} ZerosSnoc(n: nat)
    requires n >= 1
    ensures Zeros(n) == Zeros(n - 1) + [0]
    decreases n
  {
    if n > 1 {
      ZerosSnoc(n - 1);
    }
  }

  lemma {:induction false} ZerosAppend(a: nat, b: nat)
    ensures Zeros(a) + Zeros(b) == Zeros(a + b)
    decreases a
  {
    if a > 0 {
      ZerosAppend(a - 1, b);
    }
  }

  /** n opens followed by n releases of a path leave the table as it was,
      with exactly one native open and one native close, and every reply 0. */
  lemma BalancedOpensAndReleases(m: FdMap, p: CPath, ipath: CPath, flags: bv32, fd: nat, n: nat)
    requires p !in m && n >= 1
    ensures Run(m, Repeat(OpenOp(p, ipath, flags, Opened(fd)), n) + Repeat(ReleaseOp(p, Closed), n))
            == History(m, [NativeOpen(ipath, flags), NativeClose(fd)], Zeros(n + n))
  {
    var m1 := m[p := Node(fd, n)];
    RepeatedOpensShareOneDescriptor(m, p, ipath, flags, fd, n);
    LastReleaseCloses(m1, p, n);
    AddThenErase(m, p, Node(fd, n));
    RunThen(m, Repeat(OpenOp(p, ipath, flags, Opened(fd)), n), Repeat(ReleaseOp(p, Closed), n),
            History(m1, [NativeOpen(ipath, flags)], Zeros(n)), History(m, [NativeClose(fd)], Zeros(n)));
    ZerosAppend(n, n);
  }

  /** A second open of a path already open reuses the first descriptor: the
      flags it asks for never reach the host. */
  lemma SecondOpenIgnoresFlags(m: FdMap, p: CPath, ipath: CPath, first: bv32, second: bv32, fd: nat, o: OpenOutcome)
    requires p !in m
    ensures var h := Run(m, [OpenOp(p, ipath, first, Opened(fd)), OpenOp(p, ipath, second, o)]);
            h.calls == [NativeOpen(ipath, first)] && h.rcs == [0, 0] && h.table == m[p := Node(fd, 2)]
  {
    var ops := [OpenOp(p, ipath, first, Opened(fd)), OpenOp(p, ipath, second, o)];
    var m1 := m[p := Node(fd, 1)];
    var m2 := m[p := Node(fd, 2)];
    var r1 := Step(m, ops[0]);
    assert r1 == Reply(0, m1, [NativeOpen(ipath, first)]);
    var r2 := Step(m1, ops[1]);
    assert r2 == Reply(0, m2, []) by {
      assert m1[p := Node(fd, 2)] == m2;
    }
    assert ops[1..] == [ops[1]];
    assert [ops[1]][1..] == [];
    var h2 := Run(m1, [ops[1]]);
    assert Run(m2, []) == History(m2, [], []);
    assert h2 == History(m2, r2.calls + [], [r2.rc] + []);
    assert Run(m, ops) == History(m2, r1.calls + h2.calls, [0] + h2.rcs);
  }
}
