/** Values shared by the whole model of src/regutils.c: the library's error
    codes and flags (include/regutils.h), the POSIX `regmatch_t` offset pair,
    and the interface of the external matcher (`regcomp`/`regexec`), which is
    an oracle here. */
module RegTypes {

  // ---------------------------------------------------------------------
  // Codes and flags of include/regutils.h and of <regex.h> (glibc values)
  // ---------------------------------------------------------------------

  const PREG_ERRCODE_START: int := -100
  const PREG_NOACTION: int := -100
  const PREG_MEMFAIL: int := -99
  const PREG_BADMIN: int := -98
  const PREG_BADLIMIT: int := -97
  const PREG_BADBREF: int := -96
  const PREG_ERRCODE_END: int := -95

  /** `PREG_NOSTRINGS`, the only user flag. */
  const PREG_NOSTRINGS: bv32 := 1

  /** `REG_EXTENDED`, set by `preg_init`. */
  const REG_EXTENDED: bv32 := 1
  /** `REG_NOSUB`, cleared before every compilation. */
  const REG_NOSUB: bv32 := 8
  /** `regexec`'s "no match" return code. */
  const REG_NOMATCH: int := 1

  /** `size_t` is 64 bits wide; `(size_t)-1` is its largest value. */
  const SIZE_MAX: nat := 0xFFFF_FFFF_FFFF_FFFF
  /** `unsigned int` is 32 bits wide; `(unsigned)-1` is its largest value. */
  const UINT_MAX: nat := 0xFFFF_FFFF

  /** Byte sizes of the C objects carved from memory blocks (LP64). */
  const PTR_SIZE: nat := 8       // char*, char**, regmatch_t*
  const REGMATCH_SIZE: nat := 8  // regmatch_t: two 32-bit regoff_t
  const STRING_SIZE: nat := 16   // struct { char* str; size_t len; }
  const BREF_SIZE: nat := 16     // struct { size_t so; int no; }, padded

  /** A C `int`. */
  newtype int32 = x: int | -0x8000_0000 <= x < 0x8000_0000

  /** The bit pattern of a C `int` (two's complement). */
  function Bits(v: int32): bv32
  {
    ((v as int) % 0x1_0000_0000) as bv32
  }

  // ---------------------------------------------------------------------
  // Offsets
  // ---------------------------------------------------------------------

  /** `regmatch_t`: start and end offset; (-1, -1) when a subexpression
      did not participate in the match. */
  datatype RegMatch = RegMatch(so: int, eo: int)

  const NO_MATCH_PAIR: RegMatch := RegMatch(-1, -1)

  /** A pair that is either non-participating or a range inside a text of
      length `n`. */
  predicate PairIn(p: RegMatch, n: nat)
  {
    p == NO_MATCH_PAIR || (0 <= p.so <= p.eo <= n)
  }

  /** `preg_matchlen`: `eo - so`, which is 0 for a non-participating pair. */
  function MatchLen(p: RegMatch): int
  {
    p.eo - p.so
  }

  /** The text a pair designates in `subject`; empty when it did not
      participate (and, to keep the function total, for a pair outside the
      subject, which a completed search never stores). */
  function MatchText(subject: string, p: RegMatch): (t: string)
    ensures PairIn(p, |subject|) ==> |t| == MatchLen(p)
  {
    if p != NO_MATCH_PAIR && 0 <= p.so <= p.eo <= |subject| then subject[p.so..p.eo] else []
  }

  /** Every row of the offset matrix has `width` pairs inside `subject`,
      and its whole match (index 0) participates. */
  ghost predicate RowsIn(rows: seq<seq<RegMatch>>, width: nat, n: nat)
  {
    width > 0 &&
    forall i :: 0 <= i < |rows| ==>
      |rows[i]| == width && rows[i][0].so >= 0 &&
      forall j :: 0 <= j < width ==> PairIn(rows[i][j], n)
  }

  /** End of the previous whole match, where the text between matches
      starts (0 before the first match). */
  function PrevEnd(rows: seq<seq<RegMatch>>, i: nat): int
    requires i <= |rows|
    requires forall k :: 0 <= k < |rows| ==> |rows[k]| > 0
  {
    if i == 0 then 0 else rows[i - 1][0].eo
  }

  /** Whole matches follow each other without overlap, in subject order. */
  ghost predicate Chained(rows: seq<seq<RegMatch>>)
    requires forall k :: 0 <= k < |rows| ==> |rows[k]| > 0
  {
    forall i :: 0 <= i < |rows| ==> PrevEnd(rows, i) <= rows[i][0].so
  }

  /** The offset rows of one completed search over `subject`. */
  ghost predicate GoodRows(rows: seq<seq<RegMatch>>, width: nat, n: nat)
  {
    RowsIn(rows, width, n) && Chained(rows)
  }

  // ---------------------------------------------------------------------
  // The external matcher
  // ---------------------------------------------------------------------

  /** What one `regexec` call on a subject suffix reports. */
  datatype ExecResult =
    | NoMatch
    | ExecError(code: int)
    | Matched(m: seq<RegMatch>)

  /** A compiled pattern: its subexpression count (`re_nsub`) and its
      executor.  `exec(suffix, notbol)` is `regexec` on `suffix` with
      `REG_NOTBOL` set when `notbol`. */
  datatype Regex = Regex(nsub: nat, exec: (string, bool) -> ExecResult)

  /** What `regcomp` reports. */
  datatype CompResult = CompError(code: int) | Compiled(re: Regex)

  /** What POSIX promises of one `regexec` result on a text of length `n`:
      nsub + 1 local pairs, each non-participating or inside the text, the
      whole match participating; errors other than REG_NOMATCH are positive
      codes, as every POSIX error code is. */
  predicate ExecOk(r: ExecResult, n: nat, nsub: nat)
  {
    match r
    case NoMatch => true
    case ExecError(c) => c > 0 && c != REG_NOMATCH
    case Matched(m) =>
      |m| == nsub + 1 && m[0].so >= 0 &&
      forall j :: 0 <= j < |m| ==> PairIn(m[j], n)
  }

  ghost predicate RegexOk(re: Regex)
  {
    forall s: string, nb: bool :: ExecOk(re.exec(s, nb), |s|, re.nsub)
  }

  /** What POSIX promises of `regcomp`: a positive error code, or a compiled
      pattern whose executor keeps ExecOk. */
  ghost predicate RegcompOk(regcomp: (string, bv32) -> CompResult)
  {
    forall p: string, f: bv32 ::
      match regcomp(p, f)
      case CompError(c) => c > 0
      case Compiled(re) => RegexOk(re)
  }

  /** A C string holds no NUL byte before its terminator. */
  predicate NulFree(s: string)
  {
    forall k :: 0 <= k < |s| ==> s[k] != '\0'
  }
}
