/** The mount configuration of fuse-convmvfs: normalising the storage root
    given as `srcdir`, and building a storage path from a caller path. */
module Mount {
  import opened Posix
  import opened Transcoder

  /** The storage root used when no `srcdir` option is given. */
  const DEFAULT_SRCDIR: string := "/"

  predicate DoubleSlashAt(s: string, i: int) {
    0 <= i < |s| - 1 && s[i] == '/' && s[i + 1] == '/'
  }

  predicate NoDoubleSlash(s: string) {
    forall i :: 0 <= i < |s| - 1 ==> !DoubleSlashAt(s, i)
  }

  /** `std::string::find("//")`: the first position of a doubled separator. */
  datatype Position = NotFound | FoundAt(pos: nat)

  function FindDoubleSlash(s: string, from: nat): (p: Position)
    requires from <= |s|
    ensures p.NotFound? ==> forall i :: from <= i ==> !DoubleSlashAt(s, i)
    ensures p.FoundAt? ==> from <= p.pos && DoubleSlashAt(s, p.pos)
                           && forall i :: from <= i < p.pos ==> !DoubleSlashAt(s, i)
    decreases |s| - from
  {
    if from + 1 >= |s| then NotFound
    else if s[from] == '/' && s[from + 1] == '/' then FoundAt(from)
    else FindDoubleSlash(s, from + 1)
  }

  /** Reference meaning of "collapse doubled separators": every run of
      slashes becomes one slash, every other character is kept. */
  function Squeeze(s: string): (r: string)
    ensures NoDoubleSlash(r)
    ensures |r| <= |s|
    ensures |s| > 0 ==> |r| > 0 && r[0] == s[0]
    ensures |s| > 0 ==> r[|r| - 1] == s[|s| - 1]
  {
    if |s| <= 1 then s
    else if s[0] == '/' && s[1] == '/' then Squeeze(s[1..])
    else
      var t := Squeeze(s[1..]);
      assert forall i :: 1 <= i < |[s[0]] + t| - 1 ==> !DoubleSlashAt([s[0]] + t, i) by {
        forall i | 1 <= i < |[s[0]] + t| - 1 ensures !DoubleSlashAt([s[0]] + t, i) {
          assert !DoubleSlashAt(t, i - 1);
        }
      }
      [s[0]] + t
  }

  /** Erasing one character of a doubled separator does not change what the
      collapsed form is. */
  lemma {:induction false} EraseKeepsSqueeze(s: string, p: nat)
    requires DoubleSlashAt(s, p)
    ensures Squeeze(s[..p] + s[p + 1..]) == Squeeze(s)
  {
    var t := s[..p] + s[p + 1..];
    if p > 0 {
      assert t[0] == s[0];
      assert t[1] == s[1];
      assert t[1..] == s[1..][..p - 1] + s[1..][p..];
      EraseKeepsSqueeze(s[1..], p - 1);
    } else {
      assert t == s[1..];
    }
  }

  /** A name without doubled separators is its own collapsed form. */
  lemma {:induction false} SqueezeFixed(s: string)
    requires NoDoubleSlash(s)
    ensures Squeeze(s) == s
  {
    if |s| > 1 {
      assert !DoubleSlashAt(s, 0);
      assert NoDoubleSlash(s[1..]) by {
        forall i ensures !DoubleSlashAt(s[1..], i) {
          assert !DoubleSlashAt(s, i + 1);
        }
      }
      SqueezeFixed(s[1..]);
      assert s == [s[0]] + s[1..];
    }
  }

  function StripTrailingSlash(s: string): string {
    if |s| > 0 && s[|s| - 1] == '/' then s[..|s| - 1] else s
  }

  /** The storage root `main` configures: a non-empty `srcdir` loses one
      trailing `/` and then has its runs of slashes collapsed. The strip is
      there so that `srcdir + path` does not double the separator; the
      collapse can leave a trailing one behind. */
  function SrcdirAsWritten(raw: string): (srcdir: string)
    ensures NoDoubleSlash(srcdir)
    ensures |srcdir| <= |raw|
    ensures |raw| == 0 ==> srcdir == ""
    // an option without doubled separators only loses its trailing `/`
    ensures NoDoubleSlash(raw) ==> srcdir == StripTrailingSlash(raw)
                                   && (|srcdir| == 0 || srcdir[|srcdir| - 1] != '/')
  {
    if |raw| == 0 then ""
    else
      var stripped := StripTrailingSlash(raw);
      assert NoDoubleSlash(raw) ==> Squeeze(stripped) == stripped by {
        if NoDoubleSlash(raw) {
          assert forall i :: DoubleSlashAt(stripped, i) ==> DoubleSlashAt(raw, i);
          SqueezeFixed(stripped);
        }
      }
      assert NoDoubleSlash(raw) && |stripped| > 0 ==> stripped[|stripped| - 1] != '/' by {
        if NoDoubleSlash(raw) && |stripped| > 0 && raw[|raw| - 1] == '/' {
          assert !DoubleSlashAt(raw, |raw| - 2);
        }
      }
      Squeeze(stripped)
  }

  /** The normalisation in `main`, as written: if `srcdir` is not empty, drop
      one trailing `/`, then erase one character of the first `//` until
      none is left. */
  method NormalizeSrcdir(raw: string) returns (srcdir: string)
    ensures NoDoubleSlash(srcdir)
    ensures |srcdir| <= |raw|
    ensures |raw| > 0 ==> srcdir == Squeeze(StripTrailingSlash(raw))
    ensures |raw| == 0 ==> srcdir == ""
    ensures srcdir == SrcdirAsWritten(raw)
  {
    srcdir := raw;
    if |srcdir| > 0 {
      if srcdir[|srcdir| - 1] == '/' {
        srcdir := srcdir[..|srcdir| - 1];
      }
      ghost var stripped := srcdir;
      var p := FindDoubleSlash(srcdir, 0);
      while p.FoundAt?
        invariant Squeeze(srcdir) == Squeeze(stripped)
        invariant |srcdir| <= |stripped|
        invariant p == FindDoubleSlash(srcdir, 0)
        decreases |srcdir|
      {
        EraseKeepsSqueeze(srcdir, p.pos);
        srcdir := srcdir[..p.pos] + srcdir[p.pos + 1..];
        p := FindDoubleSlash(srcdir, 0);
      }
      SqueezeFixed(srcdir);
    }
  }

  /** "/a//" keeps a trailing separator after the normalisation as written,
      and "//" keeps one `/`, while the corrected order removes both. */
  lemma TrailingSlashSurvives()
    ensures SrcdirAsWritten("/a//") == "/a/"
    ensures SrcdirAsWritten("//") == "/"
    ensures MountRoot("/a//") == "/a"
    ensures MountRoot("//") == ""
  {
    assert StripTrailingSlash("/a//") == "/a/";
    assert Squeeze("/") == "/";
    assert Squeeze("/a/"[1..]) == "a/";
    assert Squeeze("/a//") == "/a/";
    assert StripTrailingSlash("//") == "/";
  }

  /** The storage root with the intended invariant: collapse doubled
      separators first, then drop a trailing one. */
  function MountRoot(raw: string): (root: string)
    ensures NoDoubleSlash(root)
    ensures |root| == 0 || root[|root| - 1] != '/'
    ensures |root| <= |raw|
    // a root given without doubled or trailing separators is kept as it is
    ensures NoDoubleSlash(raw) && (|raw| == 0 || raw[|raw| - 1] != '/') ==> root == raw
  {
    var sq := Squeeze(raw);
    assert NoDoubleSlash(raw) ==> sq == raw by {
      if NoDoubleSlash(raw) {
        SqueezeFixed(raw);
      }
    }
    var root := StripTrailingSlash(sq);
    assert !DoubleSlashAt(sq, |sq| - 2);
    assert forall i :: DoubleSlashAt(root, i) ==> DoubleSlashAt(sq, i);
    root
  }

  /** Collapsing a name followed by one `/` collapses the name and keeps the `/`. */
  lemma {:induction false} SqueezeAppendSlash(t: string)
    requires |t| == 0 || t[|t| - 1] != '/'
    ensures Squeeze(t + "/") == Squeeze(t) + "/"
    decreases |t|
  {
    if |t| >= 2 {
      assert (t + "/")[1..] == t[1..] + "/";
      SqueezeAppendSlash(t[1..]);
      if !(t[0] == '/' && t[1] == '/') {
        assert [t[0]] + (Squeeze(t[1..]) + "/") == ([t[0]] + Squeeze(t[1..])) + "/";
      }
    } else if |t| == 1 {
      assert (t + "/")[1..] == "/";
    }
  }

  /** The root as written and the corrected root differ at most by the
      trailing separator the collapse leaves behind. */
  lemma AsWrittenAgainstCorrected(raw: string)
    ensures SrcdirAsWritten(raw) == MountRoot(raw) || SrcdirAsWritten(raw) == MountRoot(raw) + "/"
    // they agree unless the option ends in `//`
    ensures !(|raw| >= 2 && raw[|raw| - 2] == '/' && raw[|raw| - 1] == '/') ==> SrcdirAsWritten(raw) == MountRoot(raw)
  {
    var n := |raw|;
    if n > 0 && raw[n - 1] == '/' {
      var t := raw[..n - 1];
      assert raw == t + "/";
      if n >= 2 && raw[n - 2] == '/' {
        EraseKeepsSqueeze(raw, n - 2);
        assert raw[..n - 2] + raw[n - 1..] == t;
        var q := Squeeze(raw);
        assert q == StripTrailingSlash(q) + "/";
      } else {
        SqueezeAppendSlash(t);
        assert StripTrailingSlash(Squeeze(t) + "/") == Squeeze(t);
      }
    }
  }

  /** The default root "/" becomes "", so storage paths are the caller paths. */
  lemma DefaultRootIsEmpty()
    ensures SrcdirAsWritten(DEFAULT_SRCDIR) == ""
    ensures MountRoot(DEFAULT_SRCDIR) == ""
  {
  }

  /** What every operation is configured with. */
  datatype Config = Config(srcdir: string, out2in: Iconv, in2out: Iconv)

  /** The configuration `main` hands to every operation. The root has no
      doubled separator; it ends in one only when the option held a `//`. */
  function MountConfig(raw: CPath, out2in: Iconv, in2out: Iconv): (cfg: Config)
    ensures NoDoubleSlash(cfg.srcdir)
    ensures |cfg.srcdir| <= |raw|
    ensures NoDoubleSlash(raw) ==> |cfg.srcdir| == 0 || cfg.srcdir[|cfg.srcdir| - 1] != '/'
    // the corrected root differs from it only by that trailing separator
    ensures cfg.srcdir == MountRoot(raw) || cfg.srcdir == MountRoot(raw) + "/"
    ensures cfg.out2in == out2in && cfg.in2out == in2out
  {
    AsWrittenAgainstCorrected(raw);
    Config(SrcdirAsWritten(raw), out2in, in2out)
  }

  /** `convmvfs.srcdir + out2in(opath)`, as the C calls receive it. */
  function StoragePath(cfg: Config, opath: CPath): (ipath: CPath)
    ensures NoNul(cfg.srcdir) ==> |cfg.srcdir| <= |ipath| && ipath[..|cfg.srcdir|] == cfg.srcdir
    ensures NoNul(cfg.srcdir + Transcode(cfg.out2in, opath))
            ==> ipath == cfg.srcdir + Transcode(cfg.out2in, opath)
  {
    AsCString(cfg.srcdir + Transcode(cfg.out2in, opath))
  }

  /** `in2out(name).c_str()`: a storage name shown to the caller. */
  function CallerName(cfg: Config, name: CPath): (shown: CPath)
    ensures NoNul(Transcode(cfg.in2out, name)) ==> shown == Transcode(cfg.in2out, name)
  {
    AsCString(Transcode(cfg.in2out, name))
  }
}
