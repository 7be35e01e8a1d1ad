/** The library handle of src/regutils.c (`Preg`) and the operations on it:
    the options, the error record, the search `preg_offset` with the growth
    of its offset matrix, and the three public operations `preg_match`,
    `preg_split` and `preg_replace`, which run the search and hand its rows
    to the builders of the Matches, Splits and Assemble modules. */
module Handle {
  import opened RegTypes
  import opened Mem
  import opened Vector
  import opened Search
  import opened Matches
  import opened Splits
  import opened Template
  import opened Assemble

  // ---------------------------------------------------------------------
  // Options
  // ---------------------------------------------------------------------

  /** `Preg_opt`.  `OtherOpt` stands for any other value of the enum
      parameter, which both option calls ignore. */
  datatype Opt = CFlags | UFlags | MinOpt | LimitOpt | OtherOpt

  /** The four option fields of the handle. */
  datatype Options = Options(cflags: bv32, uflags: bv32, min: int32, limit: int32)

  /** `preg_setopt`: a flag option is or-ed into its field, `min` and
      `limit` are overwritten. */
  function WithOpt(o: Options, opt: Opt, v: int32): Options
  {
    match opt
    case CFlags => o.(cflags := o.cflags | Bits(v))
    case UFlags => o.(uflags := o.uflags | Bits(v))
    case MinOpt => o.(min := v)
    case LimitOpt => o.(limit := v)
    case OtherOpt => o
  }

  /** `preg_delopt` as written: the CFLAGS case has no `break`, so it
      falls through and clears the same bits in the user flags too. */
  function WithoutOptAsWritten(o: Options, opt: Opt, v: int32): Options
  {
    match opt
    case CFlags => o.(cflags := o.cflags & !Bits(v), uflags := o.uflags & !Bits(v))
    case UFlags => o.(uflags := o.uflags & !Bits(v))
    case _ => o
  }

  /** `preg_delopt` as intended: each flag option clears bits in its own
      field only. */
  function WithoutOpt(o: Options, opt: Opt, v: int32): Options
  {
    match opt
    case CFlags => o.(cflags := o.cflags & !Bits(v))
    case UFlags => o.(uflags := o.uflags & !Bits(v))
    case _ => o
  }

  /** `preg_checkopt`: 0 when the options are usable, otherwise the code of
      the first bad one (`min` is tested before `limit`). */
  function CheckOpt(o: Options): (rc: int)
    ensures rc == 0 <==> o.min >= 0 && o.limit >= -1
    ensures rc == PREG_BADMIN <==> o.min < 0
    ensures rc == PREG_BADLIMIT <==> o.min >= 0 && o.limit < -1
  {
    if o.min < 0 then PREG_BADMIN
    else if o.limit < -1 then PREG_BADLIMIT
    else 0
  }

  /** Deleting a flag whose bits were clear before it was set gives the
      options back: the two flag calls are inverse. */
  lemma DelUndoesSet(o: Options, opt: Opt, v: int32)
    requires opt == CFlags || opt == UFlags
    requires opt == CFlags ==> o.cflags & Bits(v) == 0
    requires opt == UFlags ==> o.uflags & Bits(v) == 0
    ensures WithoutOpt(WithOpt(o, opt, v), opt, v) == o
  {
    if opt == CFlags {
      CFlagsRoundTrip(o, v);
    } else {
      UFlagsRoundTrip(o, v);
    }
  }

  lemma CFlagsRoundTrip(o: Options, v: int32)
    requires o.cflags & Bits(v) == 0
    ensures o.(cflags := o.cflags | Bits(v)).(cflags := (o.cflags | Bits(v)) & !Bits(v)) == o
  {
    FlagRoundTrip(o.cflags, Bits(v));
  }

  lemma UFlagsRoundTrip(o: Options, v: int32)
    requires o.uflags & Bits(v) == 0
    ensures o.(uflags := o.uflags | Bits(v)).(uflags := (o.uflags | Bits(v)) & !Bits(v)) == o
  {
    FlagRoundTrip(o.uflags, Bits(v));
  }

  /** Or-ing bits in and and-ing them out again restores a field that
      did not have them. */
  lemma FlagRoundTrip(f: bv32, b: bv32)
    requires f & b == 0
    ensures (f | b) & !b == f
  {
  }

  /** Deleting REG_EXTENDED from the compile flags, as written, also
      deletes PREG_NOSTRINGS from the user flags (both are bit 0), while
      the intended call leaves the user flags alone. */
  lemma DelCFlagsClearsNoStrings()
    ensures var o := Options(REG_EXTENDED, PREG_NOSTRINGS, 0, -1);
            && WithoutOptAsWritten(o, CFlags, 1).uflags & PREG_NOSTRINGS == 0
            && WithoutOpt(o, CFlags, 1).uflags & PREG_NOSTRINGS == PREG_NOSTRINGS
  {
    assert Bits(1) == 1;
  }

  // ---------------------------------------------------------------------
  // Errors
  // ---------------------------------------------------------------------

  /** `Preg_err_end`: who describes an error code. */
  datatype ErrEnd = InternalErr | ExternalErr | InterdtlErr

  /** `Preg_err`: the error record of the handle. */
  datatype Err = Err(end: ErrEnd, code: int, msg: string)

  /** `internal_errors[]`, indexed by `code - PREG_ERRCODE_START`. */
  const INTERNAL_ERRORS: seq<Err> := [
    Err(InternalErr, PREG_NOACTION, "No action is performed"),
    Err(InternalErr, PREG_MEMFAIL, "Failed to allocate memory"),
    Err(InternalErr, PREG_BADMIN, "Min should be zero or positive"),
    Err(InternalErr, PREG_BADLIMIT, "Limit should be greater than -2"),
    Err(InterdtlErr, PREG_BADBREF, "Invalid backreference number")
  ]

  /** The library's own codes. */
  predicate OwnCode(code: int)
  {
    PREG_ERRCODE_START <= code < PREG_ERRCODE_END
  }

  /** `internal_errors[ERRCODE_POS(code)]`: the entry found at a code's
      position carries that code, and only PREG_BADBREF takes details. */
  function TableEntry(code: int): (e: Err)
    requires OwnCode(code)
    ensures e.code == code
    ensures e.end == (if code == PREG_BADBREF then InterdtlErr else InternalErr)
  {
    assert code in {PREG_NOACTION, PREG_MEMFAIL, PREG_BADMIN, PREG_BADLIMIT, PREG_BADBREF};
    INTERNAL_ERRORS[code - PREG_ERRCODE_START]
  }

  /** `preg_err_end`: the library's codes are classed by the table, every
      other code belongs to the matcher (`regerror`). */
  function ErrEndOf(code: int): (e: ErrEnd)
    ensures e == InterdtlErr <==> code == PREG_BADBREF
    ensures e == InternalErr <==> PREG_NOACTION <= code <= PREG_BADLIMIT
    ensures e == ExternalErr <==> !OwnCode(code)
  {
    if OwnCode(code) then TableEntry(code).end else ExternalErr
  }

  /** The message `preg_set_interdtl_error` builds: a prefix, ": " and the
      details, copied one after the other. */
  function DetailMessage(prefix: string, det: string): (m: string)
    ensures |m| == |prefix| + 2 + |det|
    ensures m[..|prefix|] == prefix && m[|prefix|..|prefix| + 2] == ": "
    ensures m[|prefix| + 2..] == det
  {
    prefix + ": " + det
  }

  /** The detailed message determines its prefix: two different prefixes
      never give the same message. */
  lemma DetailPrefixDecides(a: string, b: string, det: string)
    ensures DetailMessage(a, det) == DetailMessage(b, det) <==> a == b
  {
    if DetailMessage(a, det) == DetailMessage(b, det) {
      assert |a| == |b|;
      assert a == DetailMessage(a, det)[..|a|];
    }
  }

  /** `preg_replace` reports a bad backreference only after `preg_match`
      succeeded, and `preg_match` has then stored the matcher's message for
      code 0.  As written, the detailed message starts with that message
      ("Success: 2" with glibc) where "Invalid backreference number: 2" is
      meant, whenever the two prefixes differ. */
  lemma StaleDetailPrefix(regerror: int -> string)
    requires regerror(0) != TableEntry(PREG_BADBREF).msg
    ensures DetailMessage(regerror(0), "2") != DetailMessage(TableEntry(PREG_BADBREF).msg, "2")
  {
    DetailPrefixDecides(regerror(0), TableEntry(PREG_BADBREF).msg, "2");
  }

  /** The three `memcpy`s of `preg_set_interdtl_error` into its block of
      `strlen(prefix) + strlen(det) + 3` bytes: the prefix, then ": ", then
      the details with their terminator. */
  method CopyDetail(prefix: string, det: string) returns (buf: array<char>)
    ensures buf.Length == |prefix| + |det| + 3
    ensures buf[..] == DetailMessage(prefix, det) + ['\0']
  {
    buf := new char[|prefix| + |det| + 3];
    Memcpy(buf, 0, prefix);
    ghost var first := buf[..|prefix|];
    Memcpy(buf, |prefix|, ": ");
    assert buf[..|prefix| + 2] == first + ": ";
    Memcpy(buf, |prefix| + 2, det + ['\0']);
    assert buf[..] == buf[..|prefix| + |det| + 3];
  }

  /** `snprintf(errdtls, MAX_BREF_DIGITS + 1, "%d", no)` for a one-digit
      backreference number. */
  function Digit(no: nat): (s: string)
    requires no < 10
    ensures |s| == 1 && '0' <= s[0] <= '9'
    ensures s[0] as int - '0' as int == no
  {
    [('0' as int + no) as char]
  }

  // ---------------------------------------------------------------------
  // The search loops, outside the handle
  // ---------------------------------------------------------------------

  /** `*pattern == '\0'`: the empty pattern, whose collection stops after
      its first row. */
  predicate Once(pattern: string)
  {
    pattern == [] || pattern[0] == '\0'
  }

  /** Rows of the offset matrix after `n` rows were stored into a matrix of
      `size` rows, growing it (`preg_offset_alloc`) each time the next row
      index reached its size. */
  function RowsAfter(size: nat, n: nat): (r: nat)
    ensures r >= size && r >= n
    decreases n - size
  {
    if n <= size then size else RowsAfter(GrownRows(size), n)
  }

  /** Storing one more row keeps the size while there is room and grows it
      once when the row index reaches it. */
  lemma {:induction false} RowsAfterStep(size: nat, i: nat)
    ensures var t := RowsAfter(size, i);
            RowsAfter(size, i + 1) == if i < t then t else GrownRows(t)
    decreases i - size
  {
    if i < size {
    } else if i == size {
      assert RowsAfter(size, i) == size;
      assert RowsAfter(GrownRows(size), i + 1) == GrownRows(size);
    } else {
      RowsAfterStep(GrownRows(size), i);
    }
  }

  /** `matc` not being reset: after a search that stored two rows into a
      fresh matrix, a search storing one row leaves a count of three over a
      matrix of two rows, so the caller's loop over `matc` rows reads past
      the matrix. */
  lemma {:induction false} StaleCountOverruns(first: nat, second: nat)
    requires first == 2 && second == 1
    ensures first + second > RowsAfter(RowsAfter(0, first), second)
  {
    assert RowsAfter(1, first) == RowsAfter(2, first) == 2;
    assert RowsAfter(0, first) == 2;
  }

  /** The rows stored before `rest`, with `rest`'s code. */
  function Prepend(rows: seq<seq<RegMatch>>, rest: Found): Found
  {
    Found(rows + rest.rows, rest.code)
  }

  /** One successful execution below the cap: its row comes first, then
      the collection from the end of its whole match, or nothing more for
      the empty pattern. */
  lemma CollectStep(re: Regex, subject: string, ro: nat, notbol: bool, left: nat, left': nat, once: bool)
    requires RegexOk(re) && ro <= |subject| && left == left' + 1
    requires re.exec(subject[ro..], notbol).Matched?
    ensures var r := re.exec(subject[ro..], notbol);
            var row := Absolute(r.m, ro);
            && 0 <= r.m[0].eo && ro + r.m[0].eo <= |subject|
            && Collect(re, subject, ro, notbol, left, once) ==
                 if once then Found([row], 0)
                 else Prepend([row], Collect(re, subject, ro + r.m[0].eo, true, left', once))
  {
    var r := re.exec(subject[ro..], notbol);
    assert ExecOk(r, |subject[ro..]|, re.nsub);
  }

  /** The collection ends at a failed execution, or at a successful one
      once no row is left; either way with that execution's code. */
  lemma CollectEnd(re: Regex, subject: string, ro: nat, notbol: bool, left: nat, once: bool)
    requires RegexOk(re) && ro <= |subject|
    requires !re.exec(subject[ro..], notbol).Matched? || left == 0
    ensures Collect(re, subject, ro, notbol, left, once) ==
              Found([], ExecCode(re.exec(subject[ro..], notbol)))
  {
  }

  /** What one search left in a matrix: a prefix of the rows of `f`, all
      of them unless an allocation failed, and the code `preg_offset`
      returns. */
  ghost predicate StoredIn(offset: seq<seq<RegMatch>>, f: Found, n: nat, rc: int, canAlloc: nat -> bool)
  {
    && n <= |f.rows| && n <= |offset| && offset[..n] == f.rows[..n]
    && ((n == |f.rows| && rc == OffsetCode(f)) || rc == PREG_MEMFAIL)
    && (AllAlloc(canAlloc) ==> n == |f.rows| && rc == OffsetCode(f))
  }

  /** A completed collection. */
  lemma StoredAll(offset: seq<seq<RegMatch>>, f: Found, n: nat, canAlloc: nat -> bool)
    requires n <= |offset| && f.rows == offset[..n]
    ensures StoredIn(offset, f, n, OffsetCode(f), canAlloc)
  {
  }

  /** A collection cut short by a failed allocation. */
  lemma StoredFail(offset: seq<seq<RegMatch>>, f: Found, n: nat, canAlloc: nat -> bool)
    requires n <= |f.rows| && n <= |offset| && offset[..n] == f.rows[..n]
    requires !AllAlloc(canAlloc)
    ensures StoredIn(offset, f, n, PREG_MEMFAIL, canAlloc)
  {
  }

  /** Storing one more row before a continuation. */
  lemma PrependStep(done: seq<seq<RegMatch>>, row: seq<RegMatch>, next: Found)
    ensures Prepend(done, Prepend([row], next)) == Prepend(done + [row], next)
  {
    assert done + ([row] + next.rows) == (done + [row]) + next.rows;
  }

  /** The discard loop of `preg_offset` (the `min` matches skipped before
      collecting), proved against Search.Discard. */
  method DiscardRun(re: Regex, subject: string, min: nat) returns (s: Start)
    requires RegexOk(re)
    ensures s == Discard(re, subject, 0, false, min)
  {
    var ro: nat, notbol := 0, false;
    var i := 0;
    while i < min
      invariant i <= min && ro <= |subject| && (i > 0 ==> notbol)
      invariant Discard(re, subject, 0, false, min) == Discard(re, subject, ro, notbol, min - i)
    {
      var r := re.exec(subject[ro..], notbol);
      assert ExecOk(r, |subject[ro..]|, re.nsub);
      if !r.Matched? {
        break;
      }
      ro := ro + r.m[0].eo;
      if i == 0 {
        notbol := true;
      }
      i := i + 1;
    }
    s := Start(ro, notbol);
  }

  /** Index of the first backreference whose number exceeds `subc`, or the
      count when there is none. */
  function FirstBad(bs: seq<Bref>, subc: nat): (k: nat)
    ensures k <= |bs|
    ensures forall j :: 0 <= j < k ==> bs[j].no <= subc
    ensures k < |bs| ==> bs[k].no > subc
  {
    if bs == [] then 0
    else if bs[0].no > subc then 0
    else 1 + FirstBad(bs[1..], subc)
  }

  /** The check loop of `preg_replace`: it stops at the first
      backreference numbered above the subexpression count. */
  method FindBadBref(bs: seq<Bref>, subc: nat) returns (k: nat)
    ensures k == FirstBad(bs, subc)
  {
    k := 0;
    while k < |bs| && bs[k].no <= subc
      invariant k <= |bs|
      invariant forall j :: 0 <= j < k ==> bs[j].no <= subc
    {
      k := k + 1;
    }
  }

  /** Backreferences that all pass the check are numbered below `w`. */
  lemma {:induction false} AllBelow(bs: seq<Bref>, w: nat)
    requires forall j :: 0 <= j < |bs| ==> bs[j].no < w
    ensures NosBelow(bs, w)
    decreases |bs|
  {
    if bs != [] {
      assert forall j :: 0 <= j < |bs[1..]| ==> bs[1..][j] == bs[j + 1];
      AllBelow(bs[1..], w);
    }
  }

  /** A row of `w` pairs freshly carved for the matrix. */
  function BlankRow(w: nat): (row: seq<RegMatch>)
    ensures |row| == w
  {
    seq(w, _ => NO_MATCH_PAIR)
  }

  /** `preg_mode`; `Unset` is the -1 of `preg_init`. */
  datatype Mode = Unset | MatchMode | ReplaceMode | SplitMode

  /** The executor installed before the first successful compilation. */
  const NO_REGEX: Regex := Regex(0, (s: string, nb: bool) => NoMatch)

  /** Every allocation succeeds. */
  ghost predicate AllAlloc(canAlloc: nat -> bool)
  {
    forall k :: canAlloc(k)
  }

  // ---------------------------------------------------------------------
  // The handle
  // ---------------------------------------------------------------------

  /** `matches.match`: none, or the block `preg_match` fills with the
      offsets, inside it, of each row's table of string pointers (`subs`)
      and of each string (`ptrs`). */
  datatype MatchBlock = NoMatches | MatchBlock(block: array<char>, subs: seq<int>, ptrs: seq<seq<int>>)

  /** `rep`: the string `preg_replace` assembles and its length. */
  datatype RepString = RepString(str: array?<char>, len: nat)

  const NO_REP := RepString(null, 0)

  /** `splits`: the table of segments and its size, and the block the
      entries point into once the segments are copied. */
  datatype SplitTable = SplitTable(table: array?<Str>, size: nat, block: array?<char>)

  const NO_SPLITS := SplitTable(null, 0, null)

  /** The block `preg_match` fills: the table of `Preg_sub` entries, each
      row's table of string pointers, then every pair's text with its
      terminator; `subs` and `ptrs` hold where each row's table and each
      string start. */
  ghost predicate StringsHeld(m: MatchBlock, subject: string, rows: seq<seq<RegMatch>>, w: nat)
    requires m.MatchBlock?
    reads m.block
  {
    && RowsOk(rows, |subject|) && Wide(rows, w)
    && m.block[..] == Image(subject, rows, w)
    && |m.subs| == |rows| && |m.ptrs| == |rows|
    && (forall i :: 0 <= i < |rows| ==> m.subs[i] == SubAt(rows, w, i))
    && (forall i :: 0 <= i < |rows| ==> m.ptrs[i] == RowPtrs(rows, w, i))
  }

  /** The copy of the matched strings of the rows of a search: one
      allocation of the whole block, refused when the pools cannot supply
      it. */
  method CopyStrings(subject: string, rows: seq<seq<RegMatch>>, w: nat, canAlloc: nat -> bool)
    returns (m: MatchBlock)
    requires GoodRows(rows, w, |subject|)
    ensures MemSize(rows, w) >= 0
    ensures m.MatchBlock? <==> canAlloc(MemSize(rows, w))
    ensures m.MatchBlock? ==> fresh(m.block) && StringsHeld(m, subject, rows, w)
  {
    RowsInOk(rows, w, |subject|);
    var block, subs, ptrs := BuildMatches(subject, rows, w, canAlloc);
    m := if block == null then NoMatches else MatchBlock(block, subs, ptrs);
  }

  /** The options are usable and the pattern compiles under their compile
      flags. */
  ghost predicate Compiles(o: Options, pattern: string, regcomp: (string, bv32) -> CompResult)
  {
    CheckOpt(o) == 0 && regcomp(pattern, o.cflags).Compiled?
  }

  /** The code `preg_offset` gives up with before searching: the options'
      code, else `regcomp`'s. */
  ghost function Refusal(o: Options, pattern: string, regcomp: (string, bv32) -> CompResult): int
  {
    if CheckOpt(o) != 0 then CheckOpt(o)
    else if regcomp(pattern, o.cflags).CompError? then regcomp(pattern, o.cflags).code
    else 0
  }

  /** The search `preg_offset` makes of `re` under the options `o`. */
  ghost function SearchWith(o: Options, re: Regex, subject: string, pattern: string): Found
    requires CheckOpt(o) == 0 && RegexOk(re)
  {
    Search.Search(re, subject, o.min as nat, Cap(o.limit), Once(pattern))
  }

  /** The code `preg_offset` returns when every allocation succeeds: the
      refusal code, or the code of the whole search. */
  ghost function Expected(o: Options, subject: string, pattern: string,
                          regcomp: (string, bv32) -> CompResult): int
    requires RegcompOk(regcomp)
  {
    if Compiles(o, pattern, regcomp) then
      OffsetCode(SearchWith(o, regcomp(pattern, o.cflags).re, subject, pattern))
    else Refusal(o, pattern, regcomp)
  }

  /** What `preg_offset` leaves behind: the refusal code when the options
      or the pattern are bad; otherwise the compiled pattern `re` is
      installed with its subexpression count and the first `n` rows of its
      search are in the matrix. */
  ghost predicate Outcome(o: Options, re: Regex, compd: bool, subc: nat, offset: seq<seq<RegMatch>>,
                          n: nat, subject: string, pattern: string,
                          regcomp: (string, bv32) -> CompResult, canAlloc: nat -> bool, rc: int)
  {
    if Compiles(o, pattern, regcomp) then
      && compd && re == regcomp(pattern, o.cflags).re && subc == re.nsub && RegexOk(re)
      && StoredIn(offset, SearchWith(o, re, subject, pattern), n, rc, canAlloc)
    else
      rc == Refusal(o, pattern, regcomp) && rc != 0
  }

  /** The rows of a completed search are in the matrix: rows 0..matc-1 are
      the rows of the search and lie, in order, inside the subject. */
  ghost predicate Searched(o: Options, re: Regex, compd: bool, subc: nat, offset: seq<seq<RegMatch>>,
                           matc: nat, subject: string, pattern: string)
  {
    && CheckOpt(o) == 0 && compd && RegexOk(re) && subc == re.nsub
    && matc <= |offset|
    && offset[..matc] == SearchWith(o, re, subject, pattern).rows
    && GoodRows(offset[..matc], subc + 1, |subject|)
  }

  /** `re` is what `regcomp` made of the pattern under the options `o`. */
  ghost predicate From(o: Options, re: Regex, pattern: string, regcomp: (string, bv32) -> CompResult)
  {
    Compiles(o, pattern, regcomp) && re == regcomp(pattern, o.cflags).re
  }

  /** `o` are the options `o0` with REG_NOSUB cleared and, when `strings`
      holds, PREG_NOSTRINGS too. */
  predicate Cleared(o0: Options, o: Options, strings: bool)
  {
    && o.cflags == o0.cflags & !REG_NOSUB
    && o.uflags == (if strings then o0.uflags & !PREG_NOSTRINGS else o0.uflags)
    && o.min == o0.min && o.limit == o0.limit
  }

  /** A search that reported success compiled the pattern and left its
      rows, well formed, as rows 0..matc-1. */
  lemma OutcomeSearched(o: Options, re: Regex, compd: bool, subc: nat, offset: seq<seq<RegMatch>>,
                        matc: nat, subject: string, pattern: string,
                        regcomp: (string, bv32) -> CompResult, canAlloc: nat -> bool)
    requires Outcome(o, re, compd, subc, offset, matc, subject, pattern, regcomp, canAlloc, 0)
    ensures From(o, re, pattern, regcomp)
    ensures Searched(o, re, compd, subc, offset, matc, subject, pattern)
  {
    var s := Discard(re, subject, 0, false, o.min as nat);
    CollectGood(re, subject, s.ro, s.notbol, Cap(o.limit), Once(pattern));
  }

  /** When every allocation succeeds, `preg_offset` returns the code of
      the whole search. */
  lemma OutcomeExpected(o: Options, re: Regex, compd: bool, subc: nat, offset: seq<seq<RegMatch>>,
                        n: nat, subject: string, pattern: string,
                        regcomp: (string, bv32) -> CompResult, canAlloc: nat -> bool, rc: int)
    requires RegcompOk(regcomp) && AllAlloc(canAlloc)
    requires Outcome(o, re, compd, subc, offset, n, subject, pattern, regcomp, canAlloc, rc)
    ensures rc == Expected(o, subject, pattern, regcomp)
  {
  }

  /** The codes `preg_offset` can return: success, a matcher's code
      (positive), or one of the library's own PREG_MEMFAIL, PREG_BADMIN and
      PREG_BADLIMIT. */
  predicate SearchCode(rc: int)
  {
    rc >= 0 || rc == PREG_MEMFAIL || rc == PREG_BADMIN || rc == PREG_BADLIMIT
  }

  /** `preg_offset` never returns PREG_NOACTION or PREG_BADBREF. */
  lemma OutcomeCode(o: Options, re: Regex, compd: bool, subc: nat, offset: seq<seq<RegMatch>>,
                    n: nat, subject: string, pattern: string,
                    regcomp: (string, bv32) -> CompResult, canAlloc: nat -> bool, rc: int)
    requires RegcompOk(regcomp)
    requires Outcome(o, re, compd, subc, offset, n, subject, pattern, regcomp, canAlloc, rc)
    ensures SearchCode(rc)
  {
    if Compiles(o, pattern, regcomp) {
      assert SearchWith(o, re, subject, pattern).code >= 0;
    }
  }

  /** What a successful `preg_match` leaves: the rows of the search, and,
      unless PREG_NOSTRINGS is set, the block of their matched strings. */
  ghost predicate MatchDone(o: Options, re: Regex, compd: bool, subc: nat, offset: seq<seq<RegMatch>>,
                            matc: nat, subject: string, pattern: string, m: MatchBlock)
    reads if m.MatchBlock? then {m.block} else {}
  {
    && Searched(o, re, compd, subc, offset, matc, subject, pattern)
    && (m.MatchBlock? <==> o.uflags & PREG_NOSTRINGS == 0)
    && (m.MatchBlock? ==> StringsHeld(m, subject, offset[..matc], subc + 1))
  }

  /** What `preg_match` leaves before the error is recorded, with `code`
      its code: a success leaves MatchDone; only a success leaves a block;
      and when every allocation succeeds the code is that of the search. */
  ghost predicate MatchOutcome(o: Options, re: Regex, compd: bool, subc: nat, offset: seq<seq<RegMatch>>,
                               matc: nat, subject: string, pattern: string, m: MatchBlock,
                               regcomp: (string, bv32) -> CompResult, canAlloc: nat -> bool, code: int)
    reads if m.MatchBlock? then {m.block} else {}
  {
    && RegcompOk(regcomp) && SearchCode(code)
    && (code == 0 ==> From(o, re, pattern, regcomp)
                      && MatchDone(o, re, compd, subc, offset, matc, subject, pattern, m))
    && (m.MatchBlock? ==> code == 0)
    && (AllAlloc(canAlloc) ==> code == Expected(o, subject, pattern, regcomp))
  }

  /** The table `preg_split` fills for the whole matches `ms`: one entry
      per non-empty segment; once the block is allocated the entries point
      at its copies of the segments, otherwise they still point into the
      subject. */
  ghost predicate SplitsHeld(t: SplitTable, subject: string, ms: seq<RegMatch>)
    requires t.table != null
    reads t.table, t.block
  {
    && Ordered(ms, |subject|)
    && t.table.Length == |ms| + 1 && t.size <= t.table.Length
    && t.size == |Splits.Splits(subject, ms)|
    && (t.block != null ==> && t.block[..] == Strs(Splits.Splits(subject, ms), t.size)
                            && t.table[..t.size] == Placed(Splits.Splits(subject, ms), t.size))
    && (t.block == null ==> t.table[..t.size] == Cuts(ms, |subject|, |ms| + 1))
  }

  /** The two allocations of `preg_split` after the search: the table (none
      when it fails) and the block of copies. */
  method CutSplits(subject: string, ms: seq<RegMatch>, canAlloc: nat -> bool)
    returns (t: SplitTable, code: int)
    requires Ordered(ms, |subject|)
    ensures t.table == null ==> t == NO_SPLITS && code == PREG_MEMFAIL
    ensures t.table != null ==> SplitsHeld(t, subject, ms)
    ensures code == 0 <==> t.block != null
    ensures code == 0 || code == PREG_MEMFAIL
    ensures AllAlloc(canAlloc) ==> code == 0
  {
    var table, size, block;
    table, size, block, code := BuildSplits(subject, ms, canAlloc);
    t := SplitTable(table, size, block);
  }

  /** What `preg_split` leaves before the error is recorded, with `code` its
      code: the table exists only after a search that succeeded, and holds
      the segments between its whole matches; the block exists exactly on
      success; when every allocation succeeds the code is that of the
      search. */
  ghost predicate SplitOutcome(o: Options, re: Regex, compd: bool, subc: nat, offset: seq<seq<RegMatch>>,
                               matc: nat, subject: string, pattern: string, t: SplitTable,
                               regcomp: (string, bv32) -> CompResult, canAlloc: nat -> bool, code: int)
    reads t.table, t.block
  {
    && RegcompOk(regcomp)
    && (code == 0 ==> t.table != null)
    && (t.table == null ==> t == NO_SPLITS)
    && (t.table != null ==> && Searched(o, re, compd, subc, offset, matc, subject, pattern)
                            && SplitsHeld(t, subject, Wholes(offset[..matc])))
    && (code == 0 <==> t.block != null)
    && (AllAlloc(canAlloc) ==> code == Expected(o, subject, pattern, regcomp))
  }

  /** The detail of PREG_BADBREF: the number of the first backreference
      above the subexpression count, as one digit. */
  function BadDigit(bs: seq<Bref>, subc: nat): (d: string)
    requires NosBelow(bs, Pow10(MAX_BREF_DIGITS)) && FirstBad(bs, subc) < |bs|
    ensures |d| == 1 && d[0] as int - '0' as int == bs[FirstBad(bs, subc)].no
  {
    NosBelowAt(bs, Pow10(MAX_BREF_DIGITS), FirstBad(bs, subc));
    Digit(bs[FirstBad(bs, subc)].no)
  }

  /** The allocation of `nrep` and `parse_rep`: the parsed template, or
      PREG_MEMFAIL. */
  method ParseTemplate(template: string, canAlloc: nat -> bool) returns (code: int, p: Parsed)
    requires NulFree(template)
    ensures code == 0 || code == PREG_MEMFAIL
    ensures code == 0 ==> p == ParseRep(template) && BrefsOk(p.brefs, |p.lit|)
    ensures AllAlloc(canAlloc) ==> code == 0
  {
    var brvec := new Vec<Bref>.InitAuto(BREF_SIZE);
    p := Parsed([], []);
    if !canAlloc(|template| + 1) {
      return PREG_MEMFAIL, p;
    }
    var nrep := new char[|template| + 1];
    var len;
    code, len := ParseRepInto(template, nrep, brvec, canAlloc);
    if code != 0 {
      return;
    }
    var bs := if brvec.entry == null then [] else brvec.entry[..brvec.n];
    ParseRepBounds(template);
    p := Parsed(nrep[..len], bs);
  }

  /** The code `preg_replace` reaches, before the assembly, when every
      allocation succeeds: the search's code, else PREG_BADBREF when a
      backreference exceeds the subexpression count, else 0.  `o` are the
      options of the search. */
  ghost function ReplaceCode(o: Options, subject: string, pattern: string, p: Parsed,
                             regcomp: (string, bv32) -> CompResult): int
    requires RegcompOk(regcomp)
  {
    var e := Expected(o, subject, pattern, regcomp);
    if e != 0 || |p.brefs| == 0 || !regcomp(pattern, o.cflags).Compiled? then e
    else if FirstBad(p.brefs, regcomp(pattern, o.cflags).re.nsub) < |p.brefs| then PREG_BADBREF
    else 0
  }

  /** What a `preg_match` with code `c` tells about its search, apart from
      the copied strings. */
  lemma MatchSearched(o: Options, re: Regex, compd: bool, subc: nat, offset: seq<seq<RegMatch>>,
                      matc: nat, subject: string, pattern: string, m: MatchBlock,
                      regcomp: (string, bv32) -> CompResult, canAlloc: nat -> bool, c: int)
    requires MatchOutcome(o, re, compd, subc, offset, matc, subject, pattern, m, regcomp, canAlloc, c)
    ensures SearchCode(c)
    ensures c == 0 ==> From(o, re, pattern, regcomp) && Searched(o, re, compd, subc, offset, matc, subject, pattern)
    ensures AllAlloc(canAlloc) ==> c == Expected(o, subject, pattern, regcomp)
  {
  }

  /** After `preg_match` returned `rc` (its code `c`, or PREG_MEMFAIL when
      the message could not be kept), the backreference check of
      `preg_replace` leaves what Prepared describes, and when every
      allocation succeeds its code is ReplaceCode's. */
  lemma MatchPrepared(o: Options, re: Regex, compd: bool, subc: nat, offset: seq<seq<RegMatch>>,
                      matc: nat, subject: string, pattern: string,
                      regcomp: (string, bv32) -> CompResult, canAlloc: nat -> bool,
                      c: int, rc: int, p: Parsed, code: int, det: string)
    requires RegcompOk(regcomp) && |p.brefs| > 0
    requires SearchCode(c) && (c == 0 ==> From(o, re, pattern, regcomp) && Searched(o, re, compd, subc, offset, matc, subject, pattern))
    requires rc == c || rc == PREG_MEMFAIL
    requires AllAlloc(canAlloc) ==> rc == c && c == Expected(o, subject, pattern, regcomp)
    requires BrefsOk(p.brefs, |p.lit|)
    requires rc != 0 ==> code == rc && det == ""
    requires rc == 0 && FirstBad(p.brefs, subc) < |p.brefs| ==> code == PREG_BADBREF && det == BadDigit(p.brefs, subc)
    requires rc == 0 && FirstBad(p.brefs, subc) == |p.brefs| ==> code == 0 && det == ""
    ensures Prepared(o, re, compd, subc, offset, matc, subject, pattern, p, code, det)
    ensures AllAlloc(canAlloc) ==> code == ReplaceCode(o, subject, pattern, p, regcomp)
  {
    if rc == 0 && FirstBad(p.brefs, subc) == |p.brefs| {
      AllBelow(p.brefs, subc + 1);
    }
  }

  /** What the search of `preg_replace` leaves: on success the rows are in
      the matrix and every backreference names a subexpression; on
      PREG_BADBREF the rows are in the matrix and `det` is the first bad
      number. */
  ghost predicate Prepared(o: Options, re: Regex, compd: bool, subc: nat, offset: seq<seq<RegMatch>>,
                           matc: nat, subject: string, pattern: string, p: Parsed, code: int, det: string)
  {
    && BrefsOk(p.brefs, |p.lit|)
    && (code == 0 ==> Searched(o, re, compd, subc, offset, matc, subject, pattern)
                      && NosBelow(p.brefs, subc + 1))
    && (code == PREG_BADBREF ==> Searched(o, re, compd, subc, offset, matc, subject, pattern)
                                 && FirstBad(p.brefs, subc) < |p.brefs| && det == BadDigit(p.brefs, subc))
  }

  /** `rep` holds the assembled subject, terminated, and its length. */
  ghost predicate RepHeld(r: RepString, subject: string, rows: seq<seq<RegMatch>>, p: Parsed)
    reads r.str
  {
    && Ordered(Wholes(rows), |subject|) && BrefsFrom(p.brefs, 0, |p.lit|)
    && r.str != null
    && r.str[..] == Assembled(subject, rows, p) + ['\0']
    && r.len == |Assembled(subject, rows, p)|
  }

  /** What `preg_replace` leaves, with `code` and `det` what it hands to
      `preg_set_error`: on success the rows of the search are in the matrix
      and `rep` holds the subject with each whole match replaced; on
      PREG_BADBREF `det` is the first number above the subexpression
      count. */
  ghost predicate ReplaceOutcome(o: Options, re: Regex, compd: bool, subc: nat, offset: seq<seq<RegMatch>>,
                                 matc: nat, subject: string, pattern: string, template: string,
                                 r: RepString, code: int, det: string)
    reads r.str
  {
    var p := ParseRep(template);
    && BrefsOk(p.brefs, |p.lit|)
    && (code == 0 ==> Searched(o, re, compd, subc, offset, matc, subject, pattern)
                      && RepHeld(r, subject, offset[..matc], p))
    && (code == PREG_BADBREF ==> Searched(o, re, compd, subc, offset, matc, subject, pattern)
                                 && FirstBad(p.brefs, subc) < |p.brefs| && det == BadDigit(p.brefs, subc))
  }

  /** `Preg`.  The union of results is kept as one field group per mode. */
  class Preg {
    var comp: Regex
    var compd: bool
    /** The offset matrix; its length is `offset_size`. */
    var offset: seq<seq<RegMatch>>
    var matc: nat
    var subc: nat
    /** `cflags`, `uflags`, `min` and `limit`. */
    var opts: Options
    var err: Err
    var mode: Mode
    /** `matches.match`. */
    var matches: MatchBlock
    /** `rep`. */
    var rep: RepString
    /** `splits`. */
    var splits: SplitTable

    /** The error record is classed by its own code and the count of stored
        matches never exceeds the matrix. */
    ghost predicate Valid()
      reads this`err, this`matc, this`offset
    {
      && err.end == ErrEndOf(err.code)
      && matc <= |offset|
    }

    /** `preg_init`. */
    constructor Init()
      ensures Valid()
      ensures !compd && offset == [] && matc == 0 && subc == 0
      ensures opts == Options(REG_EXTENDED, 0, 0, -1)
      ensures err == TableEntry(PREG_NOACTION) && mode == Unset
      ensures matches == NoMatches && rep == NO_REP && splits == NO_SPLITS
    {
      comp := NO_REGEX;
      compd := false;
      offset := [];
      matc, subc := 0, 0;
      opts := Options(REG_EXTENDED, 0, 0, -1);
      err := TableEntry(PREG_NOACTION);
      mode := Unset;
      matches, rep, splits := NoMatches, NO_REP, NO_SPLITS;
    }

    /** `preg_set_mode`: the result of the new mode is emptied. */
    method SetMode(m: Mode)
      modifies this`mode, this`matches, this`rep, this`splits
      ensures mode == m
      ensures matches == (if m == MatchMode then NoMatches else old(matches))
      ensures rep == (if m == ReplaceMode then NO_REP else old(rep))
      ensures splits == (if m == SplitMode then NO_SPLITS else old(splits))
    {
      mode := m;
      match m {
        case MatchMode =>
          matches := NoMatches;
        case ReplaceMode =>
          rep := NO_REP;
        case SplitMode =>
          splits := NO_SPLITS;
        case Unset =>
      }
    }

    /** `preg_setopt`. */
    method SetOpt(opt: Opt, value: int32)
      modifies this`opts
      ensures opts == WithOpt(old(opts), opt, value)
    {
      opts := WithOpt(opts, opt, value);
    }

    /** `preg_delopt`, with the `break` the CFLAGS case lacks. */
    method DelOpt(opt: Opt, value: int32)
      modifies this`opts
      ensures opts == WithoutOpt(old(opts), opt, value)
    {
      opts := WithoutOpt(opts, opt, value);
    }

    /** `preg_set_internal_error`: the table entry itself. */
    method SetInternalError(code: int)
      requires OwnCode(code)
      modifies this`err
      ensures err == TableEntry(code)
    {
      err := TableEntry(code);
    }

    /** `preg_set_external_error`: `regerror` reports the message size with
        its terminator, one byte more is allocated from the pools, and the
        message is the matcher's. */
    method SetExternalError(code: int, regerror: int -> string, canAlloc: nat -> bool)
      returns (rc: int)
      modifies this`err
      ensures canAlloc(|regerror(code)| + 2) ==>
                rc == code && err == Err(ExternalErr, code, regerror(code))
      ensures !canAlloc(|regerror(code)| + 2) ==>
                rc == PREG_MEMFAIL && err == TableEntry(PREG_MEMFAIL)
    {
      var len := |regerror(code)| + 1;
      if !canAlloc(len + 1) {
        SetInternalError(PREG_MEMFAIL);
        return PREG_MEMFAIL;
      }
      err := Err(ExternalErr, code, regerror(code));
      rc := code;
    }

    /** `preg_set_interdtl_error` as written: the prefix of the detailed
        message is the message stored BEFORE the table entry is
        installed. */
    method SetInterdtlErrorAsWritten(code: int, det: string, canAlloc: nat -> bool)
      returns (rc: int)
      requires OwnCode(code)
      modifies this`err
      ensures canAlloc(|old(err.msg)| + |det| + 3) ==>
                rc == code && err == TableEntry(code).(msg := DetailMessage(old(err.msg), det))
      ensures !canAlloc(|old(err.msg)| + |det| + 3) ==>
                rc == PREG_MEMFAIL && err == TableEntry(PREG_MEMFAIL)
    {
      var prev := err.msg;
      err := TableEntry(code);
      if !canAlloc(|prev| + |det| + 3) {
        SetInternalError(PREG_MEMFAIL);
        return PREG_MEMFAIL;
      }
      var buf := CopyDetail(prev, det);
      assert buf[..buf.Length - 1] == DetailMessage(prev, det);
      err := err.(msg := buf[..buf.Length - 1]);
      rc := code;
    }

    /** `preg_set_interdtl_error` as intended: the table's message followed
        by the details. */
    method SetInterdtlError(code: int, det: string, canAlloc: nat -> bool)
      returns (rc: int)
      requires OwnCode(code)
      modifies this`err
      ensures var m := DetailMessage(TableEntry(code).msg, det);
              canAlloc(|m| + 1) ==> rc == code && err == TableEntry(code).(msg := m)
      ensures var m := DetailMessage(TableEntry(code).msg, det);
              !canAlloc(|m| + 1) ==> rc == PREG_MEMFAIL && err == TableEntry(PREG_MEMFAIL)
    {
      err := TableEntry(code);
      var prefix := err.msg;
      if !canAlloc(|prefix| + |det| + 3) {
        SetInternalError(PREG_MEMFAIL);
        return PREG_MEMFAIL;
      }
      var buf := CopyDetail(prefix, det);
      assert buf[..buf.Length - 1] == DetailMessage(prefix, det);
      err := err.(msg := buf[..buf.Length - 1]);
      rc := code;
    }

    /** `preg_set_error`: the code is dispatched by its class; the code
        returned is the code stored, which is the one given unless the
        message could not be allocated. */
    method SetError(code: int, det: string, regerror: int -> string, canAlloc: nat -> bool)
      returns (rc: int)
      modifies this`err
      ensures rc == err.code && err.end == ErrEndOf(err.code)
      ensures rc == code || rc == PREG_MEMFAIL
      ensures ErrEndOf(code) == InternalErr ==> err == TableEntry(code)
      ensures ErrEndOf(code) == ExternalErr && canAlloc(|regerror(code)| + 2) ==>
                err == Err(ExternalErr, code, regerror(code))
      ensures ErrEndOf(code) == InterdtlErr && canAlloc(|TableEntry(code).msg| + |det| + 3) ==>
                err == Err(InterdtlErr, code, DetailMessage(TableEntry(code).msg, det))
      ensures AllAlloc(canAlloc) ==> rc == code
    {
      match ErrEndOf(code) {
        case InternalErr =>
          SetInternalError(code);
          rc := code;
        case ExternalErr =>
          rc := SetExternalError(code, regerror, canAlloc);
        case InterdtlErr =>
          rc := SetInterdtlError(code, det, canAlloc);
      }
    }

    /** `preg_set_error` at the end of an operation: only the error record
        changes, and the handle stays valid. */
    method RecordError(code: int, det: string, regerror: int -> string, canAlloc: nat -> bool)
      returns (rc: int)
      requires matc <= |offset|
      modifies this`err
      ensures Valid() && rc == err.code
      ensures rc == code || rc == PREG_MEMFAIL
      ensures AllAlloc(canAlloc) ==> rc == code
    {
      rc := SetError(code, det, regerror, canAlloc);
    }

    /** `preg_offset_alloc`: the matrix grows to one row, then to twice its
        rows; the new rows take `subc + 1` pairs each.  Either allocation
        failing leaves the matrix as it was. */
    method OffsetAlloc(canAlloc: nat -> bool) returns (rc: int)
      modifies this`offset
      ensures var size := |old(offset)|;
              var grown := GrownRows(size);
              var ok := canAlloc(grown * PTR_SIZE) &&
                        canAlloc((grown - size) * (subc + 1) * REGMATCH_SIZE);
              && (ok ==> rc == 0 && |offset| == grown && offset[..size] == old(offset)
                         && forall k :: size <= k < grown ==> offset[k] == BlankRow(subc + 1))
              && (!ok ==> rc == PREG_MEMFAIL && offset == old(offset))
    {
      var oldSize := |offset|;
      var newSize := GrownRows(oldSize);
      if !canAlloc(newSize * PTR_SIZE) {
        return PREG_MEMFAIL;
      }
      if !canAlloc((newSize - oldSize) * (subc + 1) * REGMATCH_SIZE) {
        return PREG_MEMFAIL;
      }
      var rows := offset;
      var i := oldSize;
      while i < newSize
        invariant oldSize <= i <= newSize && |rows| == i
        invariant rows[..oldSize] == offset
        invariant forall k :: oldSize <= k < i ==> rows[k] == BlankRow(subc + 1)
      {
        rows := rows + [BlankRow(subc + 1)];
        i := i + 1;
      }
      offset := rows;
      rc := 0;
    }

    /** Storing row `i` of a collection: the matrix grows first when the
        row index reached its size (`i == offset_size`). */
    method StoreRow(i: nat, row: seq<RegMatch>, ghost size0: nat, canAlloc: nat -> bool)
      returns (rc: int)
      requires i <= |offset| == RowsAfter(size0, i)
      modifies this`offset
      ensures rc == 0 || rc == PREG_MEMFAIL
      ensures rc != 0 ==> offset == old(offset) && !AllAlloc(canAlloc)
      ensures rc == 0 ==> |offset| == RowsAfter(size0, i + 1) && offset[..i + 1] == old(offset[..i]) + [row]
    {
      RowsAfterStep(size0, i);
      rc := 0;
      if i == |offset| {
        rc := OffsetAlloc(canAlloc);
        if rc != 0 {
          return;
        }
      }
      offset := offset[i := row];
    }

    /** One turn of the collection loop after a successful execution below
        the cap: the row is stored, the running offset moves to the end of
        the whole match and the row is counted. */
    method CollectTurn(re: Regex, subject: string, i: nat, ro: nat, notbol: bool, r: ExecResult,
                       ghost size0: nat, ghost left: nat, ghost left': nat, once: bool,
                       ghost f: Found, canAlloc: nat -> bool)
      returns (rc: int, ro': nat)
      requires RegexOk(re) && ro <= |subject| && left == left' + 1
      requires r == re.exec(subject[ro..], notbol) && r.Matched?
      requires i <= |offset| == RowsAfter(size0, i)
      requires f == Prepend(offset[..i], Collect(re, subject, ro, notbol, left, once))
      modifies this`offset, this`matc
      ensures rc == 0 || rc == PREG_MEMFAIL
      ensures rc != 0 ==> && matc == old(matc) && offset == old(offset)
                          && StoredIn(offset, f, i, PREG_MEMFAIL, canAlloc)
      ensures rc == 0 ==> && matc == old(matc) + 1 && ro' <= |subject|
                          && |offset| == RowsAfter(size0, i + 1)
                          && f == (if once then Found(offset[..i + 1], 0)
                                   else Prepend(offset[..i + 1], Collect(re, subject, ro', true, left', once)))
    {
      CollectStep(re, subject, ro, notbol, left, left', once);
      var row := Absolute(r.m, ro);
      ghost var done := offset[..i];
      rc := StoreRow(i, row, size0, canAlloc);
      if rc != 0 {
        StoredFail(offset, f, i, canAlloc);
        return rc, ro;
      }
      ro' := ro + r.m[0].eo;
      matc := matc + 1;
      if !once {
        PrependStep(done, row, Collect(re, subject, ro', true, left', once));
      }
    }

    /** The collection loop of `preg_offset`, proved against
        Search.Collect: each successful execution below the cap stores its
        row (growing the matrix first when the row index reached its size)
        and counts it in `matc`. */
    method CollectRows(re: Regex, subject: string, ro0: nat, nb0: bool, cap: nat, once: bool,
                       canAlloc: nat -> bool)
      returns (rc: int, stored: nat)
      requires RegexOk(re) && ro0 <= |subject|
      modifies this`offset, this`matc
      ensures StoredIn(offset, Collect(re, subject, ro0, nb0, cap, once), stored, rc, canAlloc)
      ensures matc == old(matc) + stored
      ensures |offset| == RowsAfter(|old(offset)|, stored)
    {
      ghost var f := Collect(re, subject, ro0, nb0, cap, once);
      ghost var size0 := |offset|;
      var ro: nat, notbol := ro0, nb0;
      var i: nat := 0;
      ghost var left: nat := cap;
      stored := 0;
      while true
        invariant ro <= |subject| && i <= cap && left == cap - i && stored == i
        invariant i <= |offset| == RowsAfter(size0, i)
        invariant matc == old(matc) + i
        invariant i > 0 ==> notbol
        invariant once ==> i == 0
        invariant f == Prepend(offset[..i], Collect(re, subject, ro, notbol, left, once))
        decreases left
      {
        var r := re.exec(subject[ro..], notbol);
        rc := ExecCode(r);
        if !r.Matched? || i >= cap {
          CollectEnd(re, subject, ro, notbol, left, once);
          break;
        }
        ghost var left' := left - 1;
        rc, ro := CollectTurn(re, subject, i, ro, notbol, r, size0, left, left', once, f, canAlloc);
        if rc != 0 {
          return;
        }
        if i == 0 {
          notbol := true;
        }
        if once {
          stored := 1;
          StoredAll(offset, f, 1, canAlloc);
          break;
        }
        i := i + 1;
        left := left';
        stored := i;
      }
      if stored == i {
        assert f == Found(offset[..i], rc);
        StoredAll(offset, f, i, canAlloc);
      }
      if rc == REG_NOMATCH && i > 0 {
        rc := 0;
      }
    }

    /** `preg_offset` first clears REG_NOSUB from the compile flags. */
    method ClearNoSub()
      modifies this`opts
      ensures opts == old(opts).(cflags := old(opts).cflags & !REG_NOSUB)
    {
      if opts.cflags & REG_NOSUB != 0 {
        opts := opts.(cflags := opts.cflags & !REG_NOSUB);
      }
    }

    /** The checks of `preg_offset` before the search: the options, then
        the compilation, which sets `subc` to the subexpression count. */
    method Compile(pattern: string, regcomp: (string, bv32) -> CompResult) returns (rc: int)
      requires RegcompOk(regcomp)
      modifies this`comp, this`compd, this`subc
      ensures rc == Refusal(opts, pattern, regcomp)
      ensures rc == 0 <==> Compiles(opts, pattern, regcomp)
      ensures rc == 0 ==> && compd && comp == regcomp(pattern, opts.cflags).re
                          && subc == comp.nsub && RegexOk(comp)
    {
      rc := CheckOpt(opts);
      if rc != 0 {
        return;
      }
      var c := regcomp(pattern, opts.cflags);
      if c.CompError? {
        return c.code;
      }
      assert RegexOk(c.re);
      compd := true;
      comp := c.re;
      subc := comp.nsub;
    }

    /** `preg_offset` as written: the count of stored matches `matc` is
        never reset, so each search adds its rows to the count left by the
        previous one. */
    method OffsetAsWritten(subject: string, pattern: string, regcomp: (string, bv32) -> CompResult,
                           canAlloc: nat -> bool)
      returns (rc: int)
      requires RegcompOk(regcomp)
      modifies this`opts, this`comp, this`compd, this`subc, this`offset, this`matc
      ensures opts == old(opts).(cflags := old(opts).cflags & !REG_NOSUB)
      ensures old(matc) <= matc
      ensures Outcome(opts, comp, compd, subc, offset, matc - old(matc), subject, pattern, regcomp, canAlloc, rc)
      ensures !Compiles(opts, pattern, regcomp) ==> matc == old(matc) && offset == old(offset)
      ensures Compiles(opts, pattern, regcomp) ==> |offset| == RowsAfter(|old(offset)|, matc - old(matc))
    {
      ClearNoSub();
      rc := Compile(pattern, regcomp);
      if rc != 0 {
        return;
      }
      if !canAlloc((subc + 1) * REGMATCH_SIZE) {
        StoredFail(offset, SearchWith(opts, comp, subject, pattern), 0, canAlloc);
        return PREG_MEMFAIL;
      }
      var s := DiscardRun(comp, subject, opts.min as nat);
      var stored;
      rc, stored := CollectRows(comp, subject, s.ro, s.notbol, Cap(opts.limit), Once(pattern), canAlloc);
    }

    /** `preg_offset` with `matc` reset before the search. */
    method Offset(subject: string, pattern: string, regcomp: (string, bv32) -> CompResult,
                  canAlloc: nat -> bool)
      returns (rc: int)
      requires RegcompOk(regcomp)
      modifies this`opts, this`comp, this`compd, this`subc, this`offset, this`matc
      ensures opts == old(opts).(cflags := old(opts).cflags & !REG_NOSUB)
      ensures matc <= |offset|
      ensures Outcome(opts, comp, compd, subc, offset, matc, subject, pattern, regcomp, canAlloc, rc)
      ensures !Compiles(opts, pattern, regcomp) ==> matc == 0
    {
      matc := 0;
      rc := OffsetAsWritten(subject, pattern, regcomp, canAlloc);
    }

    /** `preg_offset` followed by what a successful search establishes: rows
        0..matc-1 of the matrix are exactly the rows of this search, inside
        the subject and in order. */
    method SearchFor(subject: string, pattern: string, regcomp: (string, bv32) -> CompResult,
                     canAlloc: nat -> bool)
      returns (rc: int)
      requires RegcompOk(regcomp)
      modifies this`opts, this`comp, this`compd, this`subc, this`offset, this`matc
      ensures opts == old(opts).(cflags := old(opts).cflags & !REG_NOSUB)
      ensures matc <= |offset|
      ensures rc == 0 ==> From(opts, comp, pattern, regcomp)
                          && Searched(opts, comp, compd, subc, offset, matc, subject, pattern)
      ensures AllAlloc(canAlloc) ==> rc == Expected(opts, subject, pattern, regcomp)
      ensures SearchCode(rc)
    {
      rc := Offset(subject, pattern, regcomp, canAlloc);
      OutcomeCode(opts, comp, compd, subc, offset, matc, subject, pattern, regcomp, canAlloc, rc);
      if rc == 0 {
        OutcomeSearched(opts, comp, compd, subc, offset, matc, subject, pattern, regcomp, canAlloc);
      }
      if AllAlloc(canAlloc) {
        OutcomeExpected(opts, comp, compd, subc, offset, matc, subject, pattern, regcomp, canAlloc, rc);
      }
    }

    // -------------------------------------------------------------------
    // preg_match
    // -------------------------------------------------------------------

    /** The steps of `preg_match` before the error is recorded. */
    method MatchSteps(subject: string, pattern: string, regcomp: (string, bv32) -> CompResult,
                      canAlloc: nat -> bool)
      returns (rc: int)
      requires RegcompOk(regcomp)
      requires matches == NoMatches
      modifies this`matches, this`opts, this`comp, this`compd, this`subc, this`offset, this`matc
      ensures opts == old(opts).(cflags := old(opts).cflags & !REG_NOSUB)
      ensures matc <= |offset|
      ensures MatchOutcome(opts, comp, compd, subc, offset, matc, subject, pattern, matches,
                           regcomp, canAlloc, rc)
    {
      rc := SearchFor(subject, pattern, regcomp, canAlloc);
      if rc == 0 && opts.uflags & PREG_NOSTRINGS == 0 {
        var m := CopyStrings(subject, offset[..matc], subc + 1, canAlloc);
        if m.NoMatches? {
          return PREG_MEMFAIL;
        }
        matches := m;
      }
    }

    /** `preg_match`: the search, then, unless PREG_NOSTRINGS is set, a copy
        of every matched string; `code` is the code handed to
        `preg_set_error`, which returns it unless the message cannot be
        allocated. */
    method PregMatch(subject: string, pattern: string, regcomp: (string, bv32) -> CompResult,
                     regerror: int -> string, canAlloc: nat -> bool)
      returns (rc: int, ghost code: int)
      requires RegcompOk(regcomp)
      modifies this`mode, this`matches, this`rep, this`splits,
               this`opts, this`comp, this`compd, this`subc, this`offset, this`matc, this`err
      ensures Valid() && mode == MatchMode && rc == err.code
      ensures opts == old(opts).(cflags := old(opts).cflags & !REG_NOSUB)
      ensures MatchOutcome(opts, comp, compd, subc, offset, matc, subject, pattern, matches,
                           regcomp, canAlloc, code)
      ensures rc == code || rc == PREG_MEMFAIL
      ensures AllAlloc(canAlloc) ==> rc == code
    {
      SetMode(MatchMode);
      var c := MatchSteps(subject, pattern, regcomp, canAlloc);
      code := c;
      assert MatchOutcome(opts, comp, compd, subc, offset, matc, subject, pattern, matches,
                          regcomp, canAlloc, c);
      rc := RecordError(c, "", regerror, canAlloc);
    }

    // -------------------------------------------------------------------
    // preg_split
    // -------------------------------------------------------------------

    /** The steps of `preg_split` before the error is recorded. */
    method SplitSteps(subject: string, pattern: string, regcomp: (string, bv32) -> CompResult,
                      canAlloc: nat -> bool)
      returns (rc: int)
      requires RegcompOk(regcomp)
      requires splits == NO_SPLITS
      modifies this`splits, this`opts, this`comp, this`compd, this`subc, this`offset, this`matc
      ensures opts == old(opts).(cflags := old(opts).cflags & !REG_NOSUB)
      ensures matc <= |offset|
      ensures SplitOutcome(opts, comp, compd, subc, offset, matc, subject, pattern, splits,
                           regcomp, canAlloc, rc)
    {
      rc := SearchFor(subject, pattern, regcomp, canAlloc);
      if rc != 0 {
        return;
      }
      GoodRowsOrdered(offset[..matc], subc + 1, |subject|);
      var t;
      t, rc := CutSplits(subject, Wholes(offset[..matc]), canAlloc);
      splits := t;
    }

    /** `preg_split`: the search, then the segments of the subject between
        the whole matches, empty ones left out, copied into one block;
        `code` is the code handed to `preg_set_error`. */
    method PregSplit(subject: string, pattern: string, regcomp: (string, bv32) -> CompResult,
                     regerror: int -> string, canAlloc: nat -> bool)
      returns (rc: int, ghost code: int)
      requires RegcompOk(regcomp)
      modifies this`mode, this`matches, this`rep, this`splits,
               this`opts, this`comp, this`compd, this`subc, this`offset, this`matc, this`err
      ensures Valid() && mode == SplitMode && rc == err.code
      ensures opts == old(opts).(cflags := old(opts).cflags & !REG_NOSUB)
      ensures SplitOutcome(opts, comp, compd, subc, offset, matc, subject, pattern, splits,
                           regcomp, canAlloc, code)
      ensures rc == code || rc == PREG_MEMFAIL
      ensures AllAlloc(canAlloc) ==> rc == code
    {
      SetMode(SplitMode);
      var c := SplitSteps(subject, pattern, regcomp, canAlloc);
      code := c;
      assert SplitOutcome(opts, comp, compd, subc, offset, matc, subject, pattern, splits,
                          regcomp, canAlloc, c);
      rc := RecordError(c, "", regerror, canAlloc);
    }

    // -------------------------------------------------------------------
    // preg_replace
    // -------------------------------------------------------------------

    /** `preg_replace` drops PREG_NOSTRINGS before it needs the matched
        strings. */
    method ClearNoStrings()
      modifies this`opts
      ensures opts.uflags == old(opts).uflags & !PREG_NOSTRINGS && opts.cflags == old(opts).cflags
      ensures opts.min == old(opts).min && opts.limit == old(opts).limit
    {
      if opts.uflags & PREG_NOSTRINGS != 0 {
        opts := opts.(uflags := opts.uflags & !PREG_NOSTRINGS);
      }
    }

    /** `preg_match` seen through what it tells of the search: `c` is its
        code before the error is recorded. */
    method MatchFor(subject: string, pattern: string,
                    regcomp: (string, bv32) -> CompResult, regerror: int -> string,
                    canAlloc: nat -> bool)
      returns (rc: int, ghost c: int)
      requires RegcompOk(regcomp)
      modifies this`mode, this`matches, this`rep, this`splits,
               this`opts, this`comp, this`compd, this`subc, this`offset, this`matc, this`err
      ensures opts == old(opts).(cflags := old(opts).cflags & !REG_NOSUB)
      ensures matc <= |offset|
      ensures SearchCode(c) && (rc == c || rc == PREG_MEMFAIL)
      ensures c == 0 ==> From(opts, comp, pattern, regcomp)
                         && Searched(opts, comp, compd, subc, offset, matc, subject, pattern)
      ensures AllAlloc(canAlloc) ==> rc == c && c == Expected(opts, subject, pattern, regcomp)
    {
      rc, c := PregMatch(subject, pattern, regcomp, regerror, canAlloc);
      MatchSearched(opts, comp, compd, subc, offset, matc, subject, pattern, matches, regcomp, canAlloc, c);
    }

    /** MatchFor with PREG_NOSTRINGS dropped first, as `preg_replace`
        does. */
    method MatchCleared(subject: string, pattern: string,
                        regcomp: (string, bv32) -> CompResult, regerror: int -> string,
                        canAlloc: nat -> bool)
      returns (rc: int, ghost c: int)
      requires RegcompOk(regcomp)
      modifies this`mode, this`matches, this`rep, this`splits,
               this`opts, this`comp, this`compd, this`subc, this`offset, this`matc, this`err
      ensures Cleared(old(opts), opts, true)
      ensures matc <= |offset|
      ensures SearchCode(c) && (rc == c || rc == PREG_MEMFAIL)
      ensures c == 0 ==> From(opts, comp, pattern, regcomp)
                         && Searched(opts, comp, compd, subc, offset, matc, subject, pattern)
      ensures AllAlloc(canAlloc) ==> rc == c && c == Expected(opts, subject, pattern, regcomp)
    {
      ClearNoStrings();
      rc, c := MatchFor(subject, pattern, regcomp, regerror, canAlloc);
    }

    /** The search of `preg_replace` when the template has backreferences:
        `preg_match`, then every backreference number checked against the
        subexpression count. */
    method BrefSearch(subject: string, pattern: string, p: Parsed,
                      regcomp: (string, bv32) -> CompResult, regerror: int -> string,
                      canAlloc: nat -> bool)
      returns (code: int, det: string)
      requires RegcompOk(regcomp) && BrefsOk(p.brefs, |p.lit|) && |p.brefs| > 0
      modifies this`mode, this`matches, this`rep, this`splits,
               this`opts, this`comp, this`compd, this`subc, this`offset, this`matc, this`err
      ensures Cleared(old(opts), opts, true)
      ensures matc <= |offset|
      ensures Prepared(opts, comp, compd, subc, offset, matc, subject, pattern, p, code, det)
      ensures AllAlloc(canAlloc) ==> code == ReplaceCode(opts, subject, pattern, p, regcomp)
    {
      var rc;
      ghost var c;
      rc, c := MatchCleared(subject, pattern, regcomp, regerror, canAlloc);
      code, det := rc, "";
      if rc == 0 {
        var k := FindBadBref(p.brefs, subc);
        if k < |p.brefs| {
          code, det := PREG_BADBREF, BadDigit(p.brefs, subc);
        }
      }
      MatchPrepared(opts, comp, compd, subc, offset, matc, subject, pattern, regcomp, canAlloc,
                    c, rc, p, code, det);
    }

    /** The search of `preg_replace`: with backreferences in the template
        it is BrefSearch; without, it is `preg_offset`. */
    method ReplaceSearch(subject: string, pattern: string, p: Parsed,
                         regcomp: (string, bv32) -> CompResult, regerror: int -> string,
                         canAlloc: nat -> bool)
      returns (code: int, det: string)
      requires RegcompOk(regcomp) && BrefsOk(p.brefs, |p.lit|)
      modifies this`mode, this`matches, this`rep, this`splits,
               this`opts, this`comp, this`compd, this`subc, this`offset, this`matc, this`err
      ensures Cleared(old(opts), opts, |p.brefs| > 0)
      ensures matc <= |offset|
      ensures Prepared(opts, comp, compd, subc, offset, matc, subject, pattern, p, code, det)
      ensures AllAlloc(canAlloc) ==> code == ReplaceCode(opts, subject, pattern, p, regcomp)
    {
      if |p.brefs| > 0 {
        code, det := BrefSearch(subject, pattern, p, regcomp, regerror, canAlloc);
      } else {
        det := "";
        code := SearchFor(subject, pattern, regcomp, canAlloc);
      }
    }

    /** The assembly of `preg_replace` once the search succeeded: on
        success the mode becomes PREG_REPLACE and `rep` holds the result. */
    method ReplaceAssemble(subject: string, ghost pattern: string, p: Parsed, canAlloc: nat -> bool)
      returns (code: int)
      requires Searched(opts, comp, compd, subc, offset, matc, subject, pattern)
      requires BrefsOk(p.brefs, |p.lit|) && NosBelow(p.brefs, subc + 1)
      modifies this`mode, this`matches, this`rep, this`splits
      ensures code == 0 || code == PREG_MEMFAIL
      ensures code == 0 ==> mode == ReplaceMode && RepHeld(rep, subject, offset[..matc], p)
      ensures code != 0 ==> !AllAlloc(canAlloc) && mode == old(mode) && rep == old(rep)
    {
      GoodRowsOrdered(offset[..matc], subc + 1, |subject|);
      RowsInOk(offset[..matc], subc + 1, |subject|);
      var res, len := Assemble.Assemble(subject, offset[..matc], p, subc + 1, canAlloc);
      if res == null {
        return PREG_MEMFAIL;
      }
      SetMode(ReplaceMode);
      rep := RepString(res, len);
      code := 0;
    }

    /** The search and the assembly of `preg_replace` for the parsed
        template `p`. */
    method ReplaceParsed(subject: string, pattern: string, ghost template: string, p: Parsed,
                         regcomp: (string, bv32) -> CompResult, regerror: int -> string,
                         canAlloc: nat -> bool)
      returns (code: int, det: string)
      requires RegcompOk(regcomp) && p == ParseRep(template) && BrefsOk(p.brefs, |p.lit|)
      modifies this`mode, this`matches, this`rep, this`splits,
               this`opts, this`comp, this`compd, this`subc, this`offset, this`matc, this`err
      ensures Cleared(old(opts), opts, |p.brefs| > 0)
      ensures matc <= |offset|
      ensures ReplaceOutcome(opts, comp, compd, subc, offset, matc, subject, pattern, template, rep, code, det)
      ensures code == 0 ==> mode == ReplaceMode
      ensures AllAlloc(canAlloc) ==> code == ReplaceCode(opts, subject, pattern, p, regcomp)
    {
      code, det := ReplaceSearch(subject, pattern, p, regcomp, regerror, canAlloc);
      if code == 0 {
        code := ReplaceAssemble(subject, pattern, p, canAlloc);
      }
    }

    /** The steps of `preg_replace` before the error is recorded: `code`
        and `det` are what is handed to `preg_set_error`.  Unless an
        allocation failed, the options are those of the call with REG_NOSUB
        cleared, and PREG_NOSTRINGS too when the template has
        backreferences. */
    method ReplaceSteps(subject: string, pattern: string, template: string,
                        regcomp: (string, bv32) -> CompResult, regerror: int -> string,
                        canAlloc: nat -> bool)
      returns (code: int, det: string)
      requires Valid() && RegcompOk(regcomp) && NulFree(template)
      modifies this`mode, this`matches, this`rep, this`splits,
               this`opts, this`comp, this`compd, this`subc, this`offset, this`matc, this`err
      ensures code != PREG_MEMFAIL ==> Cleared(old(opts), opts, |ParseRep(template).brefs| > 0)
      ensures matc <= |offset|
      ensures ReplaceOutcome(opts, comp, compd, subc, offset, matc, subject, pattern, template, rep, code, det)
      ensures code == 0 ==> mode == ReplaceMode
      ensures AllAlloc(canAlloc) ==> code == ReplaceCode(opts, subject, pattern, ParseRep(template), regcomp)
    {
      ParseRepBounds(template);
      var p;
      code, p := ParseTemplate(template, canAlloc);
      det := "";
      if code == 0 {
        code, det := ReplaceParsed(subject, pattern, template, p, regcomp, regerror, canAlloc);
      }
    }

    /** `preg_replace`: the template is parsed, the subject searched, and
        every whole match replaced by the template with its backreferences
        filled in; `code` and `det` are what is handed to
        `preg_set_error`. */
    method PregReplace(subject: string, pattern: string, template: string,
                       regcomp: (string, bv32) -> CompResult, regerror: int -> string,
                       canAlloc: nat -> bool)
      returns (rc: int, ghost code: int, ghost det: string)
      requires Valid() && RegcompOk(regcomp) && NulFree(template)
      modifies this`mode, this`matches, this`rep, this`splits,
               this`opts, this`comp, this`compd, this`subc, this`offset, this`matc, this`err
      ensures code != PREG_MEMFAIL ==> Cleared(old(opts), opts, |ParseRep(template).brefs| > 0)
      ensures Valid() && rc == err.code
      ensures ReplaceOutcome(opts, comp, compd, subc, offset, matc, subject, pattern, template, rep, code, det)
      ensures code == 0 ==> mode == ReplaceMode
      ensures rc == code || rc == PREG_MEMFAIL
      ensures AllAlloc(canAlloc) ==> rc == code == ReplaceCode(opts, subject, pattern, ParseRep(template), regcomp)
    {
      var c, d := ReplaceSteps(subject, pattern, template, regcomp, regerror, canAlloc);
      code, det := c, d;
      rc := RecordError(c, d, regerror, canAlloc);
    }
  }
}
