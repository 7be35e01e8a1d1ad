/** The splitter of `preg_split` (src/regutils.c:618-684).  The whole
    matches of a completed search cut the subject into candidate segments:
    the text before the first match, the texts between consecutive matches
    and the text after the last one.  Empty candidates are dropped.  A first
    pass fills a table of `String` entries (pointer and length) that still
    point into the subject and sums the bytes needed; one block of exactly
    that size is allocated; a second pass copies every segment, with its
    terminator, into the block and repoints its table entry there. */
module Splits {
  import opened RegTypes
  import opened Mem

  /** Where a `String` entry points: into the subject (after the first
      pass) or into the string block (after the second).  Pointers are
      offsets. */
  datatype Ptr = InSubject(at: nat) | InBlock(at: nat)

  /** `String`: a pointer and a length. */
  datatype Str = Str(str: Ptr, len: nat)

  /** The bytes `mem_init` returns for the table are unspecified; the model
      starts every entry as an empty segment at the subject's start. */
  const UNSET: Str := Str(InSubject(0), 0)

  // ---------------------------------------------------------------------
  // Specification
  // ---------------------------------------------------------------------

  /** Where candidate `i` starts: the subject's start, or the end of whole
      match `i - 1` (`prev_eo`). */
  function Before(ms: seq<RegMatch>, i: nat): int
    requires i <= |ms|
  {
    if i == 0 then 0 else ms[i - 1].eo
  }

  /** Where candidate `i` ends: the start of whole match `i`, or the end of
      the subject after the last match. */
  function Upto(ms: seq<RegMatch>, n: nat, i: nat): int
    requires i <= |ms|
  {
    if i == |ms| then n else ms[i].so
  }

  /** The whole matches of a completed search over a text of length `n`:
      inside the text, in order, not overlapping. */
  ghost predicate Ordered(ms: seq<RegMatch>, n: nat)
  {
    && (forall i :: 0 <= i < |ms| ==> 0 <= ms[i].so <= ms[i].eo <= n)
    && (forall i, j :: 0 <= i < j < |ms| ==> ms[i].eo <= ms[j].so)
  }

  /** Subexpression 0 of each offset row: the whole matches `preg_so(rm, i, 0)`
      and `preg_eo(rm, i, 0)`. */
  function Wholes(rows: seq<seq<RegMatch>>): (ms: seq<RegMatch>)
    ensures |ms| == |rows|
  {
    seq(|rows|, i requires 0 <= i < |rows| => if |rows[i]| > 0 then rows[i][0] else NO_MATCH_PAIR)
  }

  /** An entry that designates bytes of a subject of length `n`. */
  predicate CutIn(c: Str, n: nat)
  {
    c.str.InSubject? && c.str.at + c.len <= n
  }

  /** Candidate `i` as the first pass records it. */
  function Candidate(ms: seq<RegMatch>, n: nat, i: nat): (c: Str)
    requires Ordered(ms, n) && i <= |ms|
    ensures CutIn(c, n)
    ensures c.str.at == Before(ms, i) && c.str.at + c.len == Upto(ms, n, i)
  {
    Str(InSubject(Before(ms, i)), Upto(ms, n, i) - Before(ms, i))
  }

  /** The entries the first `i` candidates leave in the table: the
      non-empty ones, in subject order. */
  function Cuts(ms: seq<RegMatch>, n: nat, i: nat): (cs: seq<Str>)
    requires Ordered(ms, n) && i <= |ms| + 1
    ensures |cs| <= i
  {
    if i == 0 then []
    else
      var c := Candidate(ms, n, i - 1);
      Cuts(ms, n, i - 1) + (if c.len == 0 then [] else [c])
  }

  /** The bytes an entry designates in the subject. */
  function SegText(subject: string, c: Str): (t: string)
    ensures CutIn(c, |subject|) ==> |t| == c.len
  {
    if CutIn(c, |subject|) then subject[c.str.at..c.str.at + c.len] else []
  }

  function SegTexts(subject: string, cuts: seq<Str>): (ts: seq<string>)
    ensures |ts| == |cuts|
  {
    seq(|cuts|, k requires 0 <= k < |cuts| => SegText(subject, cuts[k]))
  }

  /** The segments `preg_split` reports for the whole matches `ms`. */
  function Splits(subject: string, ms: seq<RegMatch>): seq<string>
    requires Ordered(ms, |subject|)
  {
    SegTexts(subject, Cuts(ms, |subject|, |ms| + 1))
  }

  /** `len_total`: every entry's length plus its terminator. */
  function TotalLen(cuts: seq<Str>): nat
  {
    if cuts == [] then 0 else TotalLen(cuts[..|cuts| - 1]) + cuts[|cuts| - 1].len + 1
  }

  /** The size of the string block `preg_split` allocates. */
  function SplitsSize(subject: string, ms: seq<RegMatch>): nat
    requires Ordered(ms, |subject|)
  {
    TotalLen(Cuts(ms, |subject|, |ms| + 1))
  }

  /** The first `i` entries after the copying pass: segment `k` starts in
      the block after the segments before it and their terminators. */
  function Placed(ts: seq<string>, i: nat): (r: seq<Str>)
    requires i <= |ts|
    ensures |r| == i
  {
    if i == 0 then [] else Placed(ts, i - 1) + [Str(InBlock(|Strs(ts, i - 1)|), |ts[i - 1]|)]
  }

  /** The texts of the first `i` candidates, matched texts left out. */
  function Unmatched(subject: string, ms: seq<RegMatch>, i: nat): string
    requires Ordered(ms, |subject|) && i <= |ms| + 1
  {
    if i == 0 then [] else Unmatched(subject, ms, i - 1) + SegText(subject, Candidate(ms, |subject|, i - 1))
  }

  /** The first `i` candidates, each followed by the text of the match
      that ends it. */
  function Woven(subject: string, ms: seq<RegMatch>, i: nat): string
    requires Ordered(ms, |subject|) && i <= |ms|
  {
    if i == 0 then []
    else Woven(subject, ms, i - 1) + SegText(subject, Candidate(ms, |subject|, i - 1))
         + MatchText(subject, ms[i - 1])
  }

  /** Strings joined end to end. */
  function Concat(ss: seq<string>): string
  {
    if ss == [] then [] else Concat(ss[..|ss| - 1]) + ss[|ss| - 1]
  }

  // ---------------------------------------------------------------------
  // Properties of the specification
  // ---------------------------------------------------------------------

  /** Where candidates start is non-decreasing. */
  lemma BeforeStep(ms: seq<RegMatch>, n: nat, i: nat)
    requires Ordered(ms, n) && i < |ms|
    ensures 0 <= Before(ms, i) <= ms[i].so <= Before(ms, i + 1)
  {
    if i > 0 {
      assert 0 <= ms[i - 1].so <= ms[i - 1].eo;
    }
  }

  /** Every entry designates subject bytes and is non-empty. */
  lemma {:induction false} CutsIn(ms: seq<RegMatch>, n: nat, i: nat)
    requires Ordered(ms, n) && i <= |ms| + 1
    ensures forall k :: 0 <= k < |Cuts(ms, n, i)| ==> CutIn(Cuts(ms, n, i)[k], n) && Cuts(ms, n, i)[k].len > 0
  {
    if i > 0 {
      var j := i - 1;
      CutsIn(ms, n, j);
    }
  }

  /** Every entry ends at or before `bound`. */
  ghost predicate EndBy(cs: seq<Str>, bound: int)
  {
    forall k :: 0 <= k < |cs| ==> cs[k].str.at + cs[k].len <= bound
  }

  /** Each entry ends at or before the next one starts. */
  ghost predicate InOrder(cs: seq<Str>)
  {
    forall k :: 0 <= k < |cs| - 1 ==> cs[k].str.at + cs[k].len <= cs[k + 1].str.at
  }

  /** Adding a candidate that starts after every entry ends keeps the
      entries in order. */
  lemma SnocOrdered(cs: seq<Str>, c: Str, bound: int)
    requires EndBy(cs, bound) && InOrder(cs) && bound <= c.str.at
    ensures InOrder(cs + [c])
    ensures EndBy(cs + [c], c.str.at + c.len)
  {
    var ds := cs + [c];
    forall k | 0 <= k < |ds| - 1
      ensures ds[k].str.at + ds[k].len <= ds[k + 1].str.at
    {
      if k + 1 < |cs| {
        assert ds[k] == cs[k] && ds[k + 1] == cs[k + 1];
      } else {
        assert ds[k] == cs[k] && ds[k + 1] == c;
      }
    }
    forall k | 0 <= k < |ds|
      ensures ds[k].str.at + ds[k].len <= c.str.at + c.len
    {
      if k < |cs| {
        assert ds[k] == cs[k];
      }
    }
  }

  lemma EndByWeaken(cs: seq<Str>, a: int, b: int)
    requires EndBy(cs, a) && a <= b
    ensures EndBy(cs, b)
  {
  }

  /** Entries keep subject order and do not overlap; all of them end at or
      before the start of candidate `i`. */
  lemma {:induction false} CutsOrdered(ms: seq<RegMatch>, n: nat, i: nat)
    requires Ordered(ms, n) && i <= |ms|
    ensures EndBy(Cuts(ms, n, i), Before(ms, i))
    ensures InOrder(Cuts(ms, n, i))
  {
    if i > 0 {
      var j := i - 1;
      CutsOrdered(ms, n, j);
      BeforeStep(ms, n, j);
      var cs := Cuts(ms, n, j);
      var c := Candidate(ms, n, j);
      if c.len != 0 {
        SnocOrdered(cs, c, Before(ms, j));
        EndByWeaken(cs + [c], c.str.at + c.len, Before(ms, i));
      } else {
        assert Cuts(ms, n, i) == cs;
        EndByWeaken(cs, Before(ms, j), Before(ms, i));
      }
    }
  }

  /** The last candidate, after the last match, keeps the order too. */
  lemma SplitsOrdered(ms: seq<RegMatch>, n: nat)
    requires Ordered(ms, n)
    ensures InOrder(Cuts(ms, n, |ms| + 1))
  {
    CutsOrdered(ms, n, |ms|);
    var cs := Cuts(ms, n, |ms|);
    var c := Candidate(ms, n, |ms|);
    if c.len != 0 {
      SnocOrdered(cs, c, Before(ms, |ms|));
    } else {
      assert Cuts(ms, n, |ms| + 1) == cs;
    }
  }

  /** At most one segment per match plus one, and none of them empty. */
  lemma SplitsShape(subject: string, ms: seq<RegMatch>)
    requires Ordered(ms, |subject|)
    ensures |Splits(subject, ms)| <= |ms| + 1
    ensures forall k :: 0 <= k < |Splits(subject, ms)| ==> |Splits(subject, ms)[k]| > 0
  {
    CutsIn(ms, |subject|, |ms| + 1);
  }

  /** The text of candidate `i`. */
  lemma CandidateText(subject: string, ms: seq<RegMatch>, i: nat)
    requires Ordered(ms, |subject|) && i <= |ms|
    ensures 0 <= Before(ms, i) <= Upto(ms, |subject|, i) <= |subject|
    ensures SegText(subject, Candidate(ms, |subject|, i)) == subject[Before(ms, i)..Upto(ms, |subject|, i)]
  {
  }

  /** The text of a participating pair. */
  lemma MatchTextIn(subject: string, p: RegMatch)
    requires 0 <= p.so <= p.eo <= |subject|
    ensures MatchText(subject, p) == subject[p.so..p.eo]
  {
  }

  lemma WeaveStep(s: string, w: string, x: string, y: string, a: nat, b: nat, c: nat)
    requires a <= b <= c <= |s|
    requires w == s[..a] && x == s[a..b] && y == s[b..c]
    ensures w + x + y == s[..c]
  {
    assert s[..a] + s[a..b] == s[..b];
  }

  /** Candidates interleaved with the matched texts give back the subject
      up to where candidate `i` starts. */
  lemma {:induction false} WovenPrefix(subject: string, ms: seq<RegMatch>, i: nat)
    requires Ordered(ms, |subject|) && i <= |ms|
    ensures 0 <= Before(ms, i) <= |subject|
    ensures Woven(subject, ms, i) == subject[..Before(ms, i)]
  {
    if i > 0 {
      var j := i - 1;
      WovenPrefix(subject, ms, j);
      BeforeStep(ms, |subject|, j);
      CandidateText(subject, ms, j);
      var a, m := Before(ms, j), ms[j];
      MatchTextIn(subject, m);
      WeaveStep(subject, Woven(subject, ms, j), SegText(subject, Candidate(ms, |subject|, j)),
                MatchText(subject, m), a, m.so, m.eo);
    }
  }

  lemma Rejoin(s: string, w: string, t: string, a: nat)
    requires a <= |s| && w == s[..a] && t == s[a..|s|]
    ensures w + t == s
  {
    assert s[..a] + s[a..|s|] == s;
  }

  /** Splitting loses nothing but the matches: the candidates with the
      matched texts between them are the subject. */
  lemma SplitRoundTrip(subject: string, ms: seq<RegMatch>)
    requires Ordered(ms, |subject|)
    ensures Woven(subject, ms, |ms|) + SegText(subject, Candidate(ms, |subject|, |ms|)) == subject
  {
    var k := |ms|;
    var a, w, t := Before(ms, k), Woven(subject, ms, k), SegText(subject, Candidate(ms, |subject|, k));
    assert 0 <= a <= |subject| && w == subject[..a] by {
      WovenPrefix(subject, ms, k);
    }
    assert t == subject[a..|subject|] by {
      CandidateText(subject, ms, k);
    }
    Rejoin(subject, w, t, a);
  }

  lemma SegTextsSnoc(subject: string, cs: seq<Str>, c: Str)
    ensures SegTexts(subject, cs + [c]) == SegTexts(subject, cs) + [SegText(subject, c)]
  {
  }

  lemma ConcatSnoc(ss: seq<string>, s: string)
    ensures Concat(ss + [s]) == Concat(ss) + s
  {
    assert (ss + [s])[..|ss|] == ss;
  }

  /** One more candidate, kept when it is not empty. */
  lemma JoinStep(subject: string, cs: seq<Str>, c: Str, g: string)
    requires CutIn(c, |subject|)
    requires Concat(SegTexts(subject, cs)) == g
    ensures Concat(SegTexts(subject, cs + (if c.len == 0 then [] else [c]))) == g + SegText(subject, c)
  {
    if c.len == 0 {
      assert cs + [] == cs;
      assert g + SegText(subject, c) == g;
    } else {
      SegTextsSnoc(subject, cs, c);
      ConcatSnoc(SegTexts(subject, cs), SegText(subject, c));
    }
  }

  /** Dropping empty candidates loses no text: the segments joined are
      the candidates joined. */
  lemma {:induction false} SplitsJoin(subject: string, ms: seq<RegMatch>, i: nat)
    requires Ordered(ms, |subject|) && i <= |ms| + 1
    ensures Concat(SegTexts(subject, Cuts(ms, |subject|, i))) == Unmatched(subject, ms, i)
  {
    if i > 0 {
      var j := i - 1;
      var cs, c, g := Cuts(ms, |subject|, j), Candidate(ms, |subject|, j), Unmatched(subject, ms, j);
      assert Concat(SegTexts(subject, cs)) == g by {
        SplitsJoin(subject, ms, j);
      }
      JoinStep(subject, cs, c, g);
      assert Cuts(ms, |subject|, i) == cs + (if c.len == 0 then [] else [c]);
      assert Unmatched(subject, ms, i) == g + SegText(subject, c);
    }
  }

  /** The first `m` texts of a run depend only on its first `m` members. */
  lemma {:induction false} StrsPrefix(ts: seq<string>, us: seq<string>, m: nat)
    requires m <= |ts| && m <= |us| && ts[..m] == us[..m]
    ensures Strs(ts, m) == Strs(us, m)
  {
    if m > 0 {
      assert ts[..m - 1] == us[..m - 1] by {
        assert ts[..m - 1] == ts[..m][..m - 1];
        assert us[..m - 1] == us[..m][..m - 1];
      }
      StrsPrefix(ts, us, m - 1);
      assert ts[m - 1] == ts[..m][m - 1] == us[..m][m - 1] == us[m - 1];
    }
  }

  /** The sizing pass counts exactly the bytes the copying pass writes. */
  lemma {:induction false} TotalLenExact(subject: string, cuts: seq<Str>)
    requires forall k :: 0 <= k < |cuts| ==> CutIn(cuts[k], |subject|)
    ensures TotalLen(cuts) == |Strs(SegTexts(subject, cuts), |cuts|)|
    decreases |cuts|
  {
    if cuts != [] {
      var m := |cuts| - 1;
      var init := cuts[..m];
      TotalLenExact(subject, init);
      var ts := SegTexts(subject, cuts);
      assert SegTexts(subject, init) == ts[..m];
      StrsPrefix(SegTexts(subject, init), ts, m);
      StrsStep(ts, m + 1);
    }
  }

  /** Entry `k` after the copying pass. */
  lemma {:induction false} PlacedAt(ts: seq<string>, i: nat, k: nat)
    requires k < i <= |ts|
    ensures Placed(ts, i)[k] == Str(InBlock(|Strs(ts, k)|), |ts[k]|)
    decreases i
  {
    if k < i - 1 {
      PlacedAt(ts, i - 1, k);
    }
  }

  /** Segment `k` of the block, with its terminator. */
  lemma StrsAt(ts: seq<string>, k: nat)
    requires k < |ts|
    ensures |Strs(ts, k)| + |ts[k]| < |Strs(ts, |ts|)|
    ensures Strs(ts, |ts|)[|Strs(ts, k)|..|Strs(ts, k)| + |ts[k]| + 1] == ts[k] + ['\0']
  {
    var p := |Strs(ts, k)|;
    var all, pre := Strs(ts, |ts|), Strs(ts, k + 1);
    var u := ts[k] + ['\0'];
    StrsStep(ts, k + 1);
    StrsGrows(ts, k + 1, |ts|);
    assert pre == all[..|pre|];
    assert all[p..p + |u|] == pre[p..];
  }

  /** Each whole match starts at or after the end of the one before it. */
  ghost predicate Chain(ms: seq<RegMatch>, n: nat)
  {
    forall k :: 0 <= k < |ms| ==> Before(ms, k) <= ms[k].so && 0 <= ms[k].so <= ms[k].eo <= n
  }

  lemma {:induction false} ChainLink(ms: seq<RegMatch>, n: nat, i: nat, j: nat)
    requires Chain(ms, n) && i < j < |ms|
    ensures ms[i].eo <= ms[j].so
    decreases j - i
  {
    var k := j - 1;
    assert Before(ms, j) == ms[k].eo;
    if i < k {
      ChainLink(ms, n, i, k);
    }
  }

  /** The rows a search completes have ordered whole matches. */
  lemma GoodRowsOrdered(rows: seq<seq<RegMatch>>, w: nat, n: nat)
    requires GoodRows(rows, w, n)
    ensures Ordered(Wholes(rows), n)
  {
    var ms := Wholes(rows);
    forall k | 0 <= k < |ms|
      ensures Before(ms, k) <= ms[k].so && 0 <= ms[k].so <= ms[k].eo <= n
    {
      assert PrevEnd(rows, k) == Before(ms, k);
      assert PairIn(rows[k][0], n);
    }
    forall i, j | 0 <= i < j < |ms|
      ensures ms[i].eo <= ms[j].so
    {
      ChainLink(ms, n, i, j);
    }
  }

  // ---------------------------------------------------------------------
  // The two passes
  // ---------------------------------------------------------------------

  /** Record candidate `c` in the table when it is not empty. */
  method Record(table: array<Str>, size: nat, total: nat, c: Str, ghost cs: seq<Str>)
    returns (size': nat, total': nat)
    requires size == |cs| < table.Length && table[..size] == cs && total == TotalLen(cs)
    modifies table
    ensures size' <= table.Length
    ensures table[..size'] == cs + (if c.len == 0 then [] else [c])
    ensures total' == TotalLen(cs + (if c.len == 0 then [] else [c]))
  {
    size', total' := size, total;
    if c.len != 0 {
      table[size] := c;
      total' := total + c.len + 1;
      size' := size + 1;
      assert (cs + [c])[..|cs|] == cs;
      assert table[..size'] == cs + [c];
    } else {
      assert cs + [] == cs;
    }
  }

  lemma CutsStep(ms: seq<RegMatch>, n: nat, i: nat, k: nat)
    requires Ordered(ms, n) && i <= |ms| && k == i + 1
    ensures Cuts(ms, n, k)
         == Cuts(ms, n, i) + (if Candidate(ms, n, i).len == 0 then [] else [Candidate(ms, n, i)])
  {
  }

  /** The first pass of `preg_split`: record every non-empty candidate
      with its subject offset and length, and sum the block size. */
  method SizeSplits(subject: string, ms: seq<RegMatch>, table: array<Str>)
    returns (size: nat, total: nat)
    requires Ordered(ms, |subject|) && table.Length == |ms| + 1
    modifies table
    ensures size == |Cuts(ms, |subject|, |ms| + 1)| && table[..size] == Cuts(ms, |subject|, |ms| + 1)
    ensures total == SplitsSize(subject, ms)
  {
    var n := |subject|;
    var prevEo := 0;
    size, total := 0, 0;
    var i := 0;
    while i <= |ms|
      invariant i <= |ms| + 1
      invariant i <= |ms| ==> prevEo == Before(ms, i)
      invariant size == |Cuts(ms, n, i)| && table[..size] == Cuts(ms, n, i)
      invariant total == TotalLen(Cuts(ms, n, i))
    {
      var len := if i == |ms| then n - prevEo else ms[i].so - prevEo;
      var k := i + 1;
      CutsStep(ms, n, i, k);
      assert Str(InSubject(prevEo), len) == Candidate(ms, n, i);
      size, total := Record(table, size, total, Str(InSubject(prevEo), len), Cuts(ms, n, i));
      if i != |ms| {
        prevEo := ms[i].eo;
      }
      i := k;
    }
  }

  /** Copy entry `i`'s segment into the block and repoint the entry. */
  method CopySplit(subject: string, table: array<Str>, block: array<char>, ghost ts: seq<string>,
                   ghost orig: seq<Str>, size: nat, i: nat, cursor: nat)
    returns (next: nat)
    requires i < size <= table.Length == |orig| && |ts| == size
    requires CutIn(orig[i], |subject|) && ts[i] == SegText(subject, orig[i])
    requires |Strs(ts, size)| == block.Length && cursor == |Strs(ts, i)| <= block.Length
    requires block[..] == Strs(ts, i) + Zeros(block.Length - cursor)
    requires table[..] == Placed(ts, i) + orig[i..]
    modifies table, block
    ensures next == |Strs(ts, i + 1)| <= block.Length
    ensures block[..] == Strs(ts, i + 1) + Zeros(block.Length - next)
    ensures table[..] == Placed(ts, i + 1) + orig[i + 1..]
  {
    assert table[i] == orig[i];
    var temp := table[i];
    var t := subject[temp.str.at..temp.str.at + temp.len];
    next := PutSegment(block, ts, i, cursor, t);
    ghost var before := table[..];
    var placed := Str(InBlock(cursor), temp.len);
    table[i] := placed;
    assert table[..] == before[i := placed];
    assert Placed(ts, i + 1) == Placed(ts, i) + [placed];
    PlaceStep(Placed(ts, i), orig, i, placed);
  }

  lemma PlaceStep(done: seq<Str>, orig: seq<Str>, i: nat, x: Str)
    requires |done| == i < |orig|
    ensures (done + orig[i..])[i := x] == done + [x] + orig[i + 1..]
  {
  }

  /** Text `i` and its terminator, after the texts before it. */
  method PutSegment(block: array<char>, ghost ts: seq<string>, i: nat, cursor: nat, t: string) returns (next: nat)
    requires i < |ts| && t == ts[i] && |Strs(ts, |ts|)| == block.Length
    requires cursor == |Strs(ts, i)| <= block.Length && block[..] == Strs(ts, i) + Zeros(block.Length - cursor)
    modifies block
    ensures next == |Strs(ts, i + 1)| <= block.Length
    ensures block[..] == Strs(ts, i + 1) + Zeros(block.Length - next)
  {
    StrsStep(ts, i + 1);
    StrsPrefixLen(ts, i + 1, |ts|);
    next := PutText(block, Strs(ts, i), cursor, t);
    StrsAppend(block[..], [], ts, i, t, block.Length - next);
  }

  /** The second pass of `preg_split`: copy every recorded segment and its
      terminator into the block, in order, and point its entry there. */
  method CopySplits(subject: string, table: array<Str>, size: nat, block: array<char>)
    requires size <= table.Length
    requires forall k :: 0 <= k < size ==> CutIn(table[k], |subject|)
    requires block.Length == TotalLen(table[..size]) && block[..] == Zeros(block.Length)
    modifies table, block
    ensures block[..] == Strs(SegTexts(subject, old(table[..size])), size)
    ensures table[..] == Placed(SegTexts(subject, old(table[..size])), size) + old(table[size..])
  {
    ghost var orig := table[..];
    ghost var ts := SegTexts(subject, orig[..size]);
    TotalLenExact(subject, orig[..size]);
    var cursor := 0;
    var i := 0;
    while i < size
      invariant i <= size
      invariant cursor == |Strs(ts, i)| <= block.Length
      invariant block[..] == Strs(ts, i) + Zeros(block.Length - cursor)
      invariant table[..] == Placed(ts, i) + orig[i..]
    {
      assert ts[i] == SegText(subject, orig[i]);
      cursor := CopySplit(subject, table, block, ts, orig, size, i, cursor);
      i := i + 1;
    }
  }

  /** `preg_split` after a successful search whose whole matches are `ms`:
      the table of `matc + 1` entries (whose allocation can fail), the
      sizing pass, the string block (whose allocation can fail), and the
      copying pass.  When the block cannot be allocated the table keeps
      the entries of the first pass, which still point into the subject,
      and the code is `PREG_MEMFAIL`. */
  method BuildSplits(subject: string, ms: seq<RegMatch>, canAlloc: nat -> bool)
    returns (table: array?<Str>, size: nat, block: array?<char>, code: int)
    requires Ordered(ms, |subject|)
    ensures table != null <==> canAlloc((|ms| + 1) * STRING_SIZE)
    ensures table == null ==> size == 0 && block == null && code == PREG_MEMFAIL
    ensures table != null ==> && fresh(table) && table.Length == |ms| + 1
                              && size == |Splits(subject, ms)|
                              && (block != null <==> canAlloc(SplitsSize(subject, ms)))
    ensures table != null && block == null ==>
              code == PREG_MEMFAIL && table[..size] == Cuts(ms, |subject|, |ms| + 1)
    ensures block != null ==> && table != null && code == 0 && fresh(block)
                              && block[..] == Strs(Splits(subject, ms), size)
                              && table[..size] == Placed(Splits(subject, ms), size)
  {
    block := null;
    size := 0;
    if !canAlloc((|ms| + 1) * STRING_SIZE) {
      return null, size, block, PREG_MEMFAIL;
    }
    table := new Str[|ms| + 1](_ => UNSET);
    var total;
    size, total := SizeSplits(subject, ms, table);
    if !canAlloc(total) {
      return table, size, block, PREG_MEMFAIL;
    }
    block := new char[total](_ => '\0');
    assert block[..] == Zeros(total);
    CutsIn(ms, |subject|, |ms| + 1);
    CopySplits(subject, table, size, block);
    code := 0;
  }

  // ---------------------------------------------------------------------
  // The demonstration input
  // ---------------------------------------------------------------------

  /** The whole matches of `[_ ]` in "There's a _ inside the crate". */
  const DEMO_MATCHES: seq<RegMatch> :=
    [RegMatch(7, 8), RegMatch(9, 10), RegMatch(10, 11), RegMatch(11, 12), RegMatch(18, 19), RegMatch(22, 23)]

  lemma DemoOrdered()
    ensures Ordered(DEMO_MATCHES, 28)
  {
  }

  /** The candidates before the underscore: "There's", "a", and the two
      empty ones on either side of the underscore. */
  lemma DemoCutsHead()
    ensures Ordered(DEMO_MATCHES, 28)
    ensures Cuts(DEMO_MATCHES, 28, 4) == [Str(InSubject(0), 7), Str(InSubject(8), 1)]
  {
    var ms := DEMO_MATCHES;
    DemoOrdered();
    assert Cuts(ms, 28, 1) == [Str(InSubject(0), 7)] by {
      CutsStep(ms, 28, 0, 1);
    }
    assert Cuts(ms, 28, 2) == [Str(InSubject(0), 7), Str(InSubject(8), 1)] by {
      CutsStep(ms, 28, 1, 2);
    }
    assert Cuts(ms, 28, 3) == Cuts(ms, 28, 2) by {
      CutsStep(ms, 28, 2, 3);
    }
    CutsStep(ms, 28, 3, 4);
  }

  /** The entries of the demonstration split: "There's", "a", "inside",
      "the" and "crate"; the two empty candidates around the underscore are
      dropped. */
  lemma DemoCuts()
    ensures Ordered(DEMO_MATCHES, 28)
    ensures Cuts(DEMO_MATCHES, 28, 7)
            == [Str(InSubject(0), 7), Str(InSubject(8), 1), Str(InSubject(12), 6),
                Str(InSubject(19), 3), Str(InSubject(23), 5)]
  {
    var ms := DEMO_MATCHES;
    DemoCutsHead();
    var head := Cuts(ms, 28, 4);
    assert Cuts(ms, 28, 5) == head + [Str(InSubject(12), 6)] by {
      CutsStep(ms, 28, 4, 5);
    }
    assert Cuts(ms, 28, 6) == head + [Str(InSubject(12), 6), Str(InSubject(19), 3)] by {
      CutsStep(ms, 28, 5, 6);
    }
    CutsStep(ms, 28, 6, 7);
  }

  lemma DemoSplits()
    ensures Ordered(DEMO_MATCHES, 28)
    ensures Splits("There's a _ inside the crate", DEMO_MATCHES) == ["There's", "a", "inside", "the", "crate"]
  {
    DemoCuts();
    var s := "There's a _ inside the crate";
    assert |s| == 28;
    assert s[0..7] == "There's";
    assert s[8..9] == "a";
    assert s[12..18] == "inside";
    assert s[19..22] == "the";
    assert s[23..28] == "crate";
  }
}
