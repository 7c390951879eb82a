/** The C and POSIX vocabulary shared by both variants of convmvfs:
    Linux errno numbers and NUL-terminated path strings. */
module Posix {

  /** A value `errno` can hold after a failed system call: always positive,
      so `-errno` is never mistaken for success. */
  type Errno = e: int | e > 0 witness 1

  const EPERM: int := 1
  const ENOENT: int := 2
  const E2BIG: int := 7
  const ENOMEM: int := 12
  const EACCES: int := 13
  const ENOTDIR: int := 20
  const EINVAL: int := 22
  const ENODATA: int := 61
  const EILSEQ: int := 84

  /** A C string as `strlen` sees it. One `char` stands for one C byte. */
  predicate NoNul(s: string) {
    forall i :: 0 <= i < |s| ==> s[i] != '\0'
  }

  type CPath = s: string | NoNul(s) witness ""

  /** What `std::string::c_str()` hands to a C function: the bytes before the
      first NUL. */
  function AsCString(s: string): (r: CPath)
    ensures |r| <= |s| && r == s[..|r|]
    ensures |r| == |s| || s[|r|] == '\0'
  {
    if |s| == 0 || s[0] == '\0' then ""
    else [s[0]] + AsCString(s[1..])
  }
}
