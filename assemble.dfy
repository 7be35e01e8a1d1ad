/** The replacement text of `preg_replace`: `assemble` sizes and builds the
    subject with every whole match replaced by the rendered template, and
    `copy_rep` renders the template for one match (src/regutils.c:819-902). */
module Assemble {
  import opened RegTypes
  import opened Mem
  import opened Template
  import opened Matches
  import opened Splits

  // ---------------------------------------------------------------------
  // Specification
  // ---------------------------------------------------------------------

  /** `preg_matchlen` of subexpression `no` of one row; 0 past the row's
      end (never read: the numbers are checked against the row width). */
  function PairLen(row: seq<RegMatch>, no: nat): int
  {
    if no < |row| then MatchLen(row[no]) else 0
  }

  /** The inner sum of `assemble`'s sizing loop: the matched lengths of the
      first `j` backreferences of one match. */
  function BrefLens(bs: seq<Bref>, row: seq<RegMatch>, j: nat): int
    requires j <= |bs|
  {
    if j == 0 then 0 else BrefLens(bs, row, j - 1) + PairLen(row, bs[j - 1].no)
  }

  /** The outer sum over the first `i` matches: inserted texts added, the
      whole match removed. */
  function SizeUpTo(rows: seq<seq<RegMatch>>, bs: seq<Bref>, i: nat): int
    requires i <= |rows|
  {
    if i == 0 then 0
    else SizeUpTo(rows, bs, i - 1) + BrefLens(bs, rows[i - 1], |bs|) - PairLen(rows[i - 1], 0)
  }

  /** `len_total` as `assemble` computes it, before the terminating NUL. */
  function AssembleSize(subject: string, rows: seq<seq<RegMatch>>, p: Parsed): int
  {
    |subject| + |rows| * |p.lit| + SizeUpTo(rows, p.brefs, |rows|)
  }

  /** The first `i` pieces of the output: each gap of the subject followed
      by the replacement of the match that ends it. */
  function Interleave(gaps: seq<string>, reps: seq<string>, i: nat): string
    requires i <= |gaps| && i <= |reps|
  {
    if i == 0 then [] else Interleave(gaps, reps, i - 1) + gaps[i - 1] + reps[i - 1]
  }

  /** The subject text around the whole matches `ms`: before the first,
      between consecutive ones, and after the last. */
  function Gaps(subject: string, ms: seq<RegMatch>): (gs: seq<string>)
    requires Ordered(ms, |subject|)
    ensures |gs| == |ms| + 1
  {
    seq(|ms| + 1, k requires 0 <= k <= |ms| => SegText(subject, Candidate(ms, |subject|, k)))
  }

  /** The template rendered with the subexpression texts of each match. */
  function Renders(subject: string, rows: seq<seq<RegMatch>>, p: Parsed): (rs: seq<string>)
    requires BrefsFrom(p.brefs, 0, |p.lit|)
    ensures |rs| == |rows|
  {
    seq(|rows|, k requires 0 <= k < |rows| => Render(p, Texts(subject, rows[k])))
  }

  /** The replaced subject: every whole match replaced, the rest kept. */
  function Assembled(subject: string, rows: seq<seq<RegMatch>>, p: Parsed): string
    requires Ordered(Wholes(rows), |subject|) && BrefsFrom(p.brefs, 0, |p.lit|)
  {
    var gs := Gaps(subject, Wholes(rows));
    Interleave(gs, Renders(subject, rows, p), |rows|) + gs[|rows|]
  }

  /** The template `$0`: the whole match itself. */
  const SELF: Parsed := Parsed([], [Bref(0, 0)])

  // ---------------------------------------------------------------------
  // Properties of the specification
  // ---------------------------------------------------------------------

  lemma {:induction false} InsertedLenAppend(xs: seq<Bref>, ys: seq<Bref>, groups: seq<string>)
    ensures InsertedLen(xs + ys, groups) == InsertedLen(xs, groups) + InsertedLen(ys, groups)
    decreases |xs|
  {
    if xs == [] {
      assert xs + ys == ys;
    } else {
      assert (xs + ys)[1..] == xs[1..] + ys;
      InsertedLenAppend(xs[1..], ys, groups);
    }
  }

  /** The inner sizing sum is the length of what the backreferences insert. */
  lemma {:induction false} BrefLensInserted(subject: string, bs: seq<Bref>, row: seq<RegMatch>, j: nat)
    requires RowOk(row, |subject|) && j <= |bs|
    ensures BrefLens(bs, row, j) == InsertedLen(bs[..j], Texts(subject, row))
  {
    var g := Texts(subject, row);
    if j == 0 {
      assert bs[..j] == [];
    } else {
      var k := j - 1;
      assert BrefLens(bs, row, k) == InsertedLen(bs[..k], g) by {
        BrefLensInserted(subject, bs, row, k);
      }
      assert InsertedLen(bs[..j], g) == InsertedLen(bs[..k], g) + |Group(g, bs[k].no)| by {
        assert bs[..j] == bs[..k] + [bs[k]];
        InsertedLenAppend(bs[..k], [bs[k]], g);
        assert [bs[k]][1..] == [];
      }
      assert |Group(g, bs[k].no)| == PairLen(row, bs[k].no) by {
        GroupLen(subject, row, bs[k].no);
      }
    }
  }

  /** Subexpression `no`'s text is as long as its pair says. */
  lemma GroupLen(subject: string, row: seq<RegMatch>, no: nat)
    requires RowOk(row, |subject|)
    ensures |Group(Texts(subject, row), no)| == PairLen(row, no)
  {
    if no < |row| {
      assert PairIn(row[no], |subject|);
    }
  }

  /** `ms` are the whole matches of `rows`. */
  ghost predicate HeadsOf(ms: seq<RegMatch>, rows: seq<seq<RegMatch>>)
  {
    |ms| == |rows| && forall k :: 0 <= k < |rows| ==> |rows[k]| > 0 && rows[k][0] == ms[k]
  }

  lemma WholesHeads(rows: seq<seq<RegMatch>>)
    requires forall k :: 0 <= k < |rows| ==> |rows[k]| > 0
    ensures HeadsOf(Wholes(rows), rows)
  {
  }

  /** The length of the output so far, in the terms `assemble` adds up. */
  lemma {:induction false} ReplacedLength(subject: string, ms: seq<RegMatch>, rows: seq<seq<RegMatch>>, p: Parsed, i: nat)
    requires RowsOk(rows, |subject|) && Ordered(ms, |subject|) && HeadsOf(ms, rows)
    requires BrefsFrom(p.brefs, 0, |p.lit|) && i <= |rows|
    ensures |Interleave(Gaps(subject, ms), Renders(subject, rows, p), i)|
         == Before(ms, i) + i * |p.lit| + SizeUpTo(rows, p.brefs, i)
  {
    if i > 0 {
      var j := i - 1;
      var row := rows[j];
      var gs, rs := Gaps(subject, ms), Renders(subject, rows, p);
      var inserted := BrefLens(p.brefs, row, |p.brefs|);
      assert |gs[j]| == ms[j].so - Before(ms, j) by {
        CandidateText(subject, ms, j);
      }
      assert |rs[j]| == |p.lit| + inserted by {
        RenderLength(p.lit, p.brefs, Texts(subject, row), 0);
        assert RowOk(row, |subject|);
        BrefLensInserted(subject, p.brefs, row, |p.brefs|);
        assert p.brefs[..|p.brefs|] == p.brefs;
      }
      assert PairLen(row, 0) == ms[j].eo - ms[j].so;
      assert Before(ms, i) == ms[j].eo;
      assert SizeUpTo(rows, p.brefs, i) == SizeUpTo(rows, p.brefs, j) + inserted - PairLen(row, 0);
      assert i * |p.lit| == j * |p.lit| + |p.lit| by {
        MulStep(i, |p.lit|);
      }
      ReplacedLength(subject, ms, rows, p, j);
      var prev := |Interleave(gs, rs, j)|;
      assert |Interleave(gs, rs, i)| == prev + |gs[j]| + |rs[j]|;
      LengthStep(prev, |gs[j]|, |rs[j]|, Before(ms, j), ms[j].so, ms[j].eo,
                 j * |p.lit|, i * |p.lit|, |p.lit|, SizeUpTo(rows, p.brefs, j), inserted);
    }
  }

  lemma LengthStep(prev: int, gap: int, rendered: int, before: int, so: int, eo: int,
                   mj: int, mi: int, lit: int, sj: int, inserted: int)
    requires prev == before + mj + sj
    requires gap == so - before && rendered == lit + inserted && mi == mj + lit
    ensures prev + gap + rendered == eo + mi + (sj + inserted - (eo - so))
  {
  }

  /** The size `assemble` computes is the length of the replaced subject. */
  lemma AssembleSizeExact(subject: string, rows: seq<seq<RegMatch>>, p: Parsed)
    requires RowsOk(rows, |subject|) && Ordered(Wholes(rows), |subject|)
    requires forall k :: 0 <= k < |rows| ==> |rows[k]| > 0
    requires BrefsFrom(p.brefs, 0, |p.lit|)
    ensures AssembleSize(subject, rows, p) == |Assembled(subject, rows, p)|
  {
    var ms := Wholes(rows);
    WholesHeads(rows);
    ReplacedLength(subject, ms, rows, p, |rows|);
    CandidateText(subject, ms, |rows|);
  }

  /** Rendering `$0` gives back the whole match. */
  lemma RenderSelf(subject: string, row: seq<RegMatch>)
    requires |row| > 0
    ensures Render(SELF, Texts(subject, row)) == MatchText(subject, row[0])
  {
    var g := Texts(subject, row);
    assert SELF.brefs[1..] == [];
    assert Render(SELF, g) == SELF.lit[0..0] + Group(g, 0) + SELF.lit[0..];
  }

  lemma SelfAt(subject: string, ms: seq<RegMatch>, rows: seq<seq<RegMatch>>, j: nat)
    requires HeadsOf(ms, rows) && j < |rows|
    ensures Renders(subject, rows, SELF)[j] == MatchText(subject, ms[j])
  {
    RenderSelf(subject, rows[j]);
  }

  /** Gaps and match texts interleaved are the subject woven back. */
  lemma {:induction false} InterleaveWoven(subject: string, ms: seq<RegMatch>, gs: seq<string>, rs: seq<string>, i: nat)
    requires Ordered(ms, |subject|) && i <= |ms| && i <= |gs| && i <= |rs|
    requires forall k :: 0 <= k < i ==> gs[k] == SegText(subject, Candidate(ms, |subject|, k))
    requires forall k :: 0 <= k < i ==> rs[k] == MatchText(subject, ms[k])
    ensures Interleave(gs, rs, i) == Woven(subject, ms, i)
  {
    if i > 0 {
      var j := i - 1;
      var done := Woven(subject, ms, j);
      assert Interleave(gs, rs, j) == done by {
        InterleaveWoven(subject, ms, gs, rs, j);
      }
      var gap, text := SegText(subject, Candidate(ms, |subject|, j)), MatchText(subject, ms[j]);
      assert gs[j] == gap && rs[j] == text;
      assert Woven(subject, ms, i) == done + gap + text by {
        WovenStep(subject, ms, i, j);
      }
      assert Interleave(gs, rs, i) == done + gap + text by {
        InterleaveStep(gs, rs, i, j);
      }
    }
  }

  lemma InterleaveStep(gaps: seq<string>, reps: seq<string>, i: nat, j: nat)
    requires j < |gaps| && j < |reps| && i == j + 1
    ensures Interleave(gaps, reps, i) == Interleave(gaps, reps, j) + gaps[j] + reps[j]
  {
  }

  lemma WovenStep(subject: string, ms: seq<RegMatch>, i: nat, j: nat)
    requires Ordered(ms, |subject|) && j < |ms| && i == j + 1
    ensures Woven(subject, ms, i)
         == Woven(subject, ms, j) + SegText(subject, Candidate(ms, |subject|, j)) + MatchText(subject, ms[j])
  {
  }

  lemma ReplacedSelf(subject: string, ms: seq<RegMatch>, rows: seq<seq<RegMatch>>)
    requires Ordered(ms, |subject|) && HeadsOf(ms, rows)
    ensures Interleave(Gaps(subject, ms), Renders(subject, rows, SELF), |rows|) == Woven(subject, ms, |rows|)
  {
    var rs := Renders(subject, rows, SELF);
    forall k | 0 <= k < |rows|
      ensures rs[k] == MatchText(subject, ms[k])
    {
      SelfAt(subject, ms, rows, k);
    }
    InterleaveWoven(subject, ms, Gaps(subject, ms), rs, |rows|);
  }

  /** Replacing every match by itself (the template `$0`) gives back the
      subject. */
  lemma ReplaceSelfIdentity(subject: string, rows: seq<seq<RegMatch>>)
    requires Ordered(Wholes(rows), |subject|)
    requires forall k :: 0 <= k < |rows| ==> |rows[k]| > 0
    ensures Assembled(subject, rows, SELF) == subject
  {
    var ms := Wholes(rows);
    WholesHeads(rows);
    ReplacedSelf(subject, ms, rows);
    SplitRoundTrip(subject, ms);
  }

  /** With no match the replaced subject is the subject. */
  lemma NoMatchUnchanged(subject: string, p: Parsed)
    requires BrefsFrom(p.brefs, 0, |p.lit|)
    ensures Ordered(Wholes([]), |subject|)
    ensures Assembled(subject, [], p) == subject
  {
    CandidateText(subject, Wholes([]), 0);
  }

  lemma {:induction false} InterleaveGrows(gaps: seq<string>, reps: seq<string>, i: nat, k: nat)
    requires i <= k <= |gaps| && k <= |reps|
    ensures |Interleave(gaps, reps, i)| <= |Interleave(gaps, reps, k)|
    decreases k - i
  {
    if i < k {
      InterleaveGrows(gaps, reps, i, k - 1);
    }
  }

  lemma {:induction false} NosBelowAt(bs: seq<Bref>, k: nat, j: nat)
    requires NosBelow(bs, k) && j < |bs|
    ensures bs[j].no < k
  {
    if j > 0 {
      NosBelowAt(bs[1..], k, j - 1);
    }
  }

  // ---------------------------------------------------------------------
  // copy_rep and assemble
  // ---------------------------------------------------------------------

  /** `copy_rep`: writes the template rendered for one match at `at` and
      returns the number of bytes written. */
  method CopyRep(block: array<char>, at: nat, p: Parsed, groups: seq<string>) returns (len: nat)
    requires BrefsFrom(p.brefs, 0, |p.lit|)
    requires at + |Render(p, groups)| <= block.Length
    modifies block
    ensures len == |Render(p, groups)|
    ensures block[..at + len] == old(block[..at]) + Render(p, groups)
  {
    var lit, bs := p.lit, p.brefs;
    if |bs| > 0 {
      var ro: nat, cursor: nat := 0, at;
      ghost var w: string := [];
      ghost var head := block[..at];
      for k := 0 to |bs|
        invariant ro <= |lit| && BrefsFrom(bs[k..], ro, |lit|)
        invariant Render(p, groups) == w + RenderFrom(lit, bs[k..], groups, ro)
        invariant cursor == at + |w|
        invariant head == old(block[..at]) && block[..cursor] == head + w
      {
        cursor, ro, w := CopyPiece(block, head, cursor, lit, bs[k..], groups, ro, w);
        assert bs[k..][1..] == bs[k + 1..];
      }
      assert bs[|bs|..] == [];
      var tail := lit[ro..];
      assert Render(p, groups) == w + tail;
      Memcpy(block, cursor, tail);
      len := cursor + |tail| - at;
      AppendAssoc(head, w, tail);
    } else {
      assert Render(p, groups) == lit[0..] == lit;
      Memcpy(block, at, lit);
      len := |lit|;
    }
  }

  /** One turn of `copy_rep`'s loop: the literal up to the backreference,
      then the subexpression text it names. */
  method CopyPiece(block: array<char>, ghost head: string, cursor: nat, lit: string, bs: seq<Bref>,
                   groups: seq<string>, ro: nat, ghost w: string)
    returns (cursor': nat, ro': nat, ghost w': string)
    requires bs != [] && ro <= |lit| && BrefsFrom(bs, ro, |lit|)
    requires cursor == |head| + |w| && cursor + |RenderFrom(lit, bs, groups, ro)| <= block.Length
    requires block[..cursor] == head + w
    modifies block
    ensures ro' == bs[0].so && ro' <= |lit| && BrefsFrom(bs[1..], ro', |lit|)
    ensures w + RenderFrom(lit, bs, groups, ro) == w' + RenderFrom(lit, bs[1..], groups, ro')
    ensures cursor' == |head| + |w'|
    ensures block[..cursor'] == head + w'
  {
    var piece := lit[ro..bs[0].so];
    var group := Group(groups, bs[0].no);
    cursor' := CopyTwo(block, head + w, cursor, piece, group);
    ro' := bs[0].so;
    w' := w + (piece + group);
    AppendAssoc(head, w, piece + group);
    RenderPiece(lit, bs, groups, ro, w);
  }

  /** The two `memcpy` calls of one piece: literal text, then group text. */
  method CopyTwo(block: array<char>, ghost pre: string, cursor: nat, piece: string, group: string)
    returns (cursor': nat)
    requires cursor + |piece| + |group| <= block.Length && block[..cursor] == pre
    modifies block
    ensures cursor' == cursor + |piece| + |group|
    ensures block[..cursor'] == pre + (piece + group)
  {
    Memcpy(block, cursor, piece);
    ghost var mid := block[..cursor + |piece|];
    Memcpy(block, cursor + |piece|, group);
    cursor' := cursor + |piece| + |group|;
    assert block[..cursor'] == mid + group;
    AppendAssoc(pre, piece, group);
  }

  lemma RenderPiece(lit: string, bs: seq<Bref>, groups: seq<string>, ro: nat, w: string)
    requires bs != [] && ro <= |lit| && BrefsFrom(bs, ro, |lit|)
    ensures w + RenderFrom(lit, bs, groups, ro)
         == w + (lit[ro..bs[0].so] + Group(groups, bs[0].no)) + RenderFrom(lit, bs[1..], groups, bs[0].so)
  {
    RenderCons(lit, bs, groups, ro);
    AppendAssoc(w, lit[ro..bs[0].so] + Group(groups, bs[0].no), RenderFrom(lit, bs[1..], groups, bs[0].so));
  }

  /** The sizing pass of `assemble`: the subject's length, plus the
      template's literal once per match, plus the inserted subexpression
      lengths, minus each whole match's length. */
  method SizeAssemble(subject: string, rows: seq<seq<RegMatch>>, p: Parsed, w: nat) returns (total: int)
    requires Wide(rows, w) && NosBelow(p.brefs, w)
    ensures total == AssembleSize(subject, rows, p)
  {
    var bs := p.brefs;
    total := |subject|;
    total := total + |rows| * |p.lit|;
    for i := 0 to |rows|
      invariant total == |subject| + |rows| * |p.lit| + SizeUpTo(rows, bs, i)
    {
      var row := rows[i];
      ghost var base := total;
      for j := 0 to |bs|
        invariant total == base + BrefLens(bs, row, j)
      {
        NosBelowAt(bs, w, j);
        total := total + MatchLen(row[bs[j].no]);
      }
      total := total - PairLen(row, 0);
    }
  }

  /** One turn of `assemble`'s copying loop: the subject text before match
      `i`, then the template rendered for it. */
  method PutReplacement(block: array<char>, subject: string, rows: seq<seq<RegMatch>>, p: Parsed,
                        ghost gs: seq<string>, ghost rs: seq<string>, i: nat, cursor: nat, ro: nat)
    returns (cursor': nat)
    requires BrefsFrom(p.brefs, 0, |p.lit|) && i < |rows| && i < |gs| && i < |rs| && |rows[i]| > 0
    requires ro <= rows[i][0].so <= |subject| && gs[i] == subject[ro..rows[i][0].so]
    requires rs[i] == Render(p, Texts(subject, rows[i]))
    requires cursor == |Interleave(gs, rs, i)| && |Interleave(gs, rs, i + 1)| <= block.Length
    requires block[..cursor] == Interleave(gs, rs, i)
    modifies block
    ensures cursor' == |Interleave(gs, rs, i + 1)|
    ensures block[..cursor'] == Interleave(gs, rs, i + 1)
  {
    InterleaveStep(gs, rs, i + 1, i);
    cursor' := PutPiece(block, Interleave(gs, rs, i), cursor, subject[ro..rows[i][0].so], p, Texts(subject, rows[i]));
  }

  /** Piece `i` of the replaced subject: the gap before whole match `i`,
      then the template rendered with its texts. */
  lemma PieceAt(subject: string, ms: seq<RegMatch>, rows: seq<seq<RegMatch>>, p: Parsed,
                gs: seq<string>, rs: seq<string>, i: nat)
    requires Ordered(ms, |subject|) && HeadsOf(ms, rows) && BrefsFrom(p.brefs, 0, |p.lit|) && i < |rows|
    requires gs == Gaps(subject, ms) && rs == Renders(subject, rows, p)
    ensures Before(ms, i) <= rows[i][0].so <= |subject| && rows[i][0].eo == Before(ms, i + 1)
    ensures gs[i] == subject[Before(ms, i)..rows[i][0].so] && rs[i] == Render(p, Texts(subject, rows[i]))
  {
    GapAt(subject, ms, rows, i);
  }

  /** The gap before a match, then its rendered template. */
  method PutPiece(block: array<char>, ghost pre: string, cursor: nat, gap: string, p: Parsed, groups: seq<string>)
    returns (cursor': nat)
    requires BrefsFrom(p.brefs, 0, |p.lit|)
    requires cursor == |pre| && cursor + |gap| + |Render(p, groups)| <= block.Length
    requires block[..cursor] == pre
    modifies block
    ensures cursor' == cursor + |gap| + |Render(p, groups)|
    ensures block[..cursor'] == pre + gap + Render(p, groups)
  {
    Memcpy(block, cursor, gap);
    var len := CopyRep(block, cursor + |gap|, p, groups);
    cursor' := cursor + |gap| + len;
  }

  /** The subject between whole match `i - 1` and whole match `i`. */
  lemma GapAt(subject: string, ms: seq<RegMatch>, rows: seq<seq<RegMatch>>, i: nat)
    requires Ordered(ms, |subject|) && HeadsOf(ms, rows) && i < |rows|
    ensures Before(ms, i) <= rows[i][0].so <= |subject|
    ensures subject[Before(ms, i)..rows[i][0].so] == Gaps(subject, ms)[i]
    ensures rows[i][0].eo == Before(ms, i + 1)
  {
    CandidateText(subject, ms, i);
  }

  /** The copying pass of `assemble`: the pieces in order, then the rest of
      the subject with its NUL. */
  method CopyPieces(res: array<char>, subject: string, ghost ms: seq<RegMatch>, rows: seq<seq<RegMatch>>,
                    p: Parsed, ghost gs: seq<string>, ghost rs: seq<string>)
    requires Ordered(ms, |subject|) && HeadsOf(ms, rows) && BrefsFrom(p.brefs, 0, |p.lit|)
    requires gs == Gaps(subject, ms) && rs == Renders(subject, rows, p)
    requires res.Length == |Interleave(gs, rs, |rows|)| + |gs[|rows|]| + 1
    modifies res
    ensures res[..] == Interleave(gs, rs, |rows|) + gs[|rows|] + ['\0']
  {
    var cursor, ro := CopyReplacements(res, subject, ms, rows, p, gs, rs);
    CopyTail(res, subject, ms, gs, cursor, ro);
  }

  /** The loop of the copying pass: each gap, then each rendered match. */
  method CopyReplacements(res: array<char>, subject: string, ghost ms: seq<RegMatch>, rows: seq<seq<RegMatch>>,
                          p: Parsed, ghost gs: seq<string>, ghost rs: seq<string>)
    returns (cursor: nat, ro: nat)
    requires Ordered(ms, |subject|) && HeadsOf(ms, rows) && BrefsFrom(p.brefs, 0, |p.lit|)
    requires gs == Gaps(subject, ms) && rs == Renders(subject, rows, p)
    requires |Interleave(gs, rs, |rows|)| <= res.Length
    modifies res
    ensures ro == Before(ms, |rows|) && cursor == |Interleave(gs, rs, |rows|)|
    ensures res[..cursor] == Interleave(gs, rs, |rows|)
  {
    cursor, ro := 0, 0;
    for i := 0 to |rows|
      invariant ro == Before(ms, i) && cursor == |Interleave(gs, rs, i)| <= res.Length
      invariant res[..cursor] == Interleave(gs, rs, i)
    {
      InterleaveGrows(gs, rs, i + 1, |rows|);
      PieceAt(subject, ms, rows, p, gs, rs, i);
      cursor := PutReplacement(res, subject, rows, p, gs, rs, i, cursor, ro);
      ro := rows[i][0].eo;
    }
  }

  /** The subject after the last match, and the terminating NUL. */
  method CopyTail(res: array<char>, subject: string, ghost ms: seq<RegMatch>, ghost gs: seq<string>,
                  cursor: nat, ro: nat)
    requires Ordered(ms, |subject|) && gs == Gaps(subject, ms)
    requires ro == Before(ms, |ms|) && cursor + |gs[|ms|]| + 1 == res.Length
    modifies res
    ensures res[..] == old(res[..cursor]) + gs[|ms|] + ['\0']
  {
    CandidateText(subject, ms, |ms|);
    var rest := subject[ro..|subject|];
    assert rest == gs[|ms|];
    Memcpy(res, cursor, rest + ['\0']);
    AppendAssoc(old(res[..cursor]), rest, ['\0']);
  }

  /** `assemble`: the subject with every whole match replaced by the
      rendered template, NUL-terminated, in one block of the computed size;
      a length of -1 (`SIZE_MAX` as a `size_t`) and no block when the pool
      cannot supply it. */
  method Assemble(subject: string, rows: seq<seq<RegMatch>>, p: Parsed, w: nat, canAlloc: nat -> bool)
    returns (res: array?<char>, len: nat)
    requires RowsOk(rows, |subject|) && Ordered(Wholes(rows), |subject|)
    requires Wide(rows, w) && w > 0 && NosBelow(p.brefs, w) && BrefsFrom(p.brefs, 0, |p.lit|)
    ensures res == null <==> !canAlloc(|Assembled(subject, rows, p)| + 1)
    ensures res == null ==> len == SIZE_MAX
    ensures res != null ==> && fresh(res)
                            && len == |Assembled(subject, rows, p)|
                            && res[..] == Assembled(subject, rows, p) + ['\0']
  {
    var total := SizeAssemble(subject, rows, p, w);
    AssembleSizeExact(subject, rows, p);
    if !canAlloc(total + 1) {
      return null, SIZE_MAX;
    }
    res := new char[total + 1];
    len := total;
    ghost var ms := Wholes(rows);
    WholesHeads(rows);
    CopyPieces(res, subject, ms, rows, p, Gaps(subject, ms), Renders(subject, rows, p));
  }
}
