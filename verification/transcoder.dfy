/** `outinconv`: transcoding of a name through a fixed 255-byte work buffer,
    with the character-set conversion engine (`iconv`) left abstract. */
module Transcoder {
  import opened Posix

  const OUTINBUFLEN: nat := 255

  /** Appended after a partial conversion (EINVAL or EILSEQ). */
  const MARK: string := "???"

  /** Returned, alone, for any other conversion error. */
  const FALLBACK: string := "????"

  /** How one `iconv` call ended: normally, or with -1 and `errno` set. */
  datatype Status = Converted | Failed(errno: Errno)

  /** One `iconv` call: input bytes consumed, bytes written to the buffer. */
  datatype Step = Step(consumed: nat, produced: string, status: Status)

  /** What any `iconv` promises about one call, plus the one assumption the
      loop needs to end: a call that stops because the buffer is full has
      consumed some input. */
  predicate Sane(input: string, room: nat, r: Step) {
    && r.consumed <= |input|
    && |r.produced| <= room
    && (r.status == Failed(E2BIG) ==> r.consumed > 0)
  }

  /** An `iconv` conversion descriptor, seen as a function of the remaining
      input and the free room in the output buffer. */
  type Iconv = f: (string, nat) -> Step | forall input: string, room: nat :: Sane(input, room, f(input, room))
    witness (input: string, room: nat) => Step(0, "", Converted)

  /** The sequence of `iconv` calls the loop makes on `rest`: one per buffer
      load, ending at the first call that does not report E2BIG. */
  function Trace(f: Iconv, rest: string): (t: seq<Step>)
    ensures 1 <= |t| <= |rest| + 1
    ensures t[0] == f(rest, OUTINBUFLEN)
    ensures forall i :: 0 <= i < |t| - 1 ==> t[i].status == Failed(E2BIG)
    ensures t[|t| - 1].status != Failed(E2BIG)
    ensures forall i :: 0 <= i < |t| ==> |t[i].produced| <= OUTINBUFLEN
    decreases |rest|
  {
    var r := f(rest, OUTINBUFLEN);
    if r.status == Failed(E2BIG) then [r] + Trace(f, rest[r.consumed..]) else [r]
  }

  /** The buffer loads of a trace, concatenated. */
  function Produced(t: seq<Step>): string {
    if |t| == 0 then "" else t[0].produced + Produced(t[1..])
  }

  /** Partial conversions keep their output and gain the marker. */
  predicate Partial(s: Status) {
    s == Failed(EINVAL) || s == Failed(EILSEQ)
  }

  /** What the caller gets back, judged by how the last call of the trace ended. */
  function Assemble(acc: string, t: seq<Step>): string
    requires |t| >= 1
  {
    var last := t[|t| - 1].status;
    if last == Converted then acc + Produced(t)
    else if Partial(last) then acc + Produced(t) + MARK
    else FALLBACK
  }

  /** The loop of outinconv, with `res` the output flushed so far. */
  function ConvertFrom(f: Iconv, rest: string, res: string): string
    decreases |rest|
  {
    var r := f(rest, OUTINBUFLEN);
    match r.status
    case Converted => res + r.produced
    case Failed(e) =>
      if e == EINVAL || e == EILSEQ then res + r.produced + MARK
      else if e == E2BIG then ConvertFrom(f, rest[r.consumed..], res + r.produced)
      else FALLBACK
  }

  /** Moving the first buffer load of a trace into the accumulator. */
  lemma AssembleCons(acc: string, r: Step, t: seq<Step>)
    requires |t| >= 1
    ensures Assemble(acc, [r] + t) == Assemble(acc + r.produced, t)
  {
    var t2 := [r] + t;
    assert t2[1..] == t;
    assert Produced(t2) == r.produced + Produced(t);
    assert t2[|t2| - 1] == t[|t| - 1];
    assert acc + Produced(t2) == (acc + r.produced) + Produced(t);
  }

  /** The loop returns what its trace of calls assembles to. */
  lemma {:induction false} ConvertFromTrace(f: Iconv, rest: string, res: string)
    ensures ConvertFrom(f, rest, res) == Assemble(res, Trace(f, rest))
    decreases |rest|
  {
    var r := f(rest, OUTINBUFLEN);
    if r.status == Failed(E2BIG) {
      var rest' := rest[r.consumed..];
      ConvertFromTrace(f, rest', res + r.produced);
      AssembleCons(res, r, Trace(f, rest'));
    } else {
      assert Produced([r]) == r.produced + Produced([]);
    }
  }

  /** How the last call of a trace ended. */
  function Last(t: seq<Step>): Status
    requires |t| >= 1
  {
    t[|t| - 1].status
  }

  /** A degraded result ends with the marker. */
  lemma EndsWithMark(prefix: string)
    ensures |prefix + MARK| >= 3 && (prefix + MARK)[|prefix + MARK| - 3..] == MARK
  {
    assert (prefix + MARK)[|prefix|..] == MARK;
  }

  /** What `Assemble` gives from an empty start, by the last call's outcome. */
  lemma AssembleFromEmpty(t: seq<Step>)
    requires |t| >= 1
    ensures Last(t) == Converted ==> Assemble("", t) == Produced(t)
    ensures Partial(Last(t)) ==> Assemble("", t) == Produced(t) + MARK
    ensures Last(t) != Converted && !Partial(Last(t)) ==> Assemble("", t) == FALLBACK
    ensures Last(t) != Converted ==> |Assemble("", t)| >= 3 && Assemble("", t)[|Assemble("", t)| - 3..] == MARK
  {
    assert "" + Produced(t) == Produced(t);
    EndsWithMark(Produced(t));
    EndsWithMark("?");
    assert FALLBACK == "?" + MARK;
  }

  /** outinconv on the whole name. */
  function Transcode(f: Iconv, s: CPath): (r: string)
    // every buffer load reaches the result when the conversion completes
    ensures Last(Trace(f, s)) == Converted ==> r == Produced(Trace(f, s))
    // a truncated or invalid sequence keeps all converted output, then marks it
    ensures Partial(Last(Trace(f, s))) ==> r == Produced(Trace(f, s)) + MARK
    // any other failure discards everything, including earlier buffer loads
    ensures Last(Trace(f, s)) != Converted && !Partial(Last(Trace(f, s))) ==> r == FALLBACK
    // degraded output is always recognisable by its suffix
    ensures Last(Trace(f, s)) != Converted ==> |r| >= 3 && r[|r| - 3..] == MARK
  {
    ConvertFromTrace(f, s, "");
    AssembleFromEmpty(Trace(f, s));
    ConvertFrom(f, s, "")
  }

  /** outinconv as written: a do/while loop over `iconv` calls, flushing the
      buffer on E2BIG and restarting it empty. */
  method OutInConv(f: Iconv, s: CPath) returns (res: string)
    ensures res == Transcode(f, s)
  {
    var inbuf := s;
    res := "";
    while true
      invariant ConvertFrom(f, inbuf, res) == ConvertFrom(f, s, "")
      decreases |inbuf|
    {
      var r := f(inbuf, OUTINBUFLEN);
      var chunk := r.produced;
      if r.status.Failed? {
        var e := r.status.errno;
        if e == EINVAL || e == EILSEQ {
          return res + chunk + MARK;
        } else if e == E2BIG {
          res := res + chunk;
          inbuf := inbuf[r.consumed..];
          continue;
        } else {
          return FALLBACK;
        }
      }
      res := res + chunk;
      break;
    }
  }
}
