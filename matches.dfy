/** The match builder of `preg_match` (src/regutils.c:558-616): one sizing
    pass over the offset matrix, one allocation of exactly that many bytes,
    then a second pass that carves the block with a bump cursor (`mem_alloc`,
    lines 152-157) into the table of matches, one pointer table per match and
    one NUL-terminated copy of every subexpression text.  The pointers the C
    code stores in the tables are returned here as offsets into the block;
    the table bytes themselves are left zero. */
module Matches {
  import opened RegTypes
  import opened Mem

  /** `sizeof(Preg_sub)`: one `char**`. */
  const PREG_SUB_SIZE: nat := PTR_SIZE

  /** `sub_size`: a table of `w` string pointers. */
  function SubTableSize(w: nat): nat
  {
    PTR_SIZE * w
  }

  /** Every pair of a row lies inside the subject or is (-1, -1). */
  ghost predicate RowOk(row: seq<RegMatch>, n: nat)
  {
    forall k :: 0 <= k < |row| ==> PairIn(row[k], n)
  }

  /** Every pair of every row lies inside the subject or is (-1, -1). */
  ghost predicate RowsOk(rows: seq<seq<RegMatch>>, n: nat)
  {
    forall i :: 0 <= i < |rows| ==> RowOk(rows[i], n)
  }

  /** Every row has `w` pairs. */
  ghost predicate Wide(rows: seq<seq<RegMatch>>, w: nat)
  {
    forall i :: 0 <= i < |rows| ==> |rows[i]| == w
  }

  lemma RowsInOk(rows: seq<seq<RegMatch>>, w: nat, n: nat)
    requires RowsIn(rows, w, n)
    ensures RowsOk(rows, n) && Wide(rows, w)
  {
  }

  // ---------------------------------------------------------------------
  // Sizes, as the sizing pass adds them up
  // ---------------------------------------------------------------------

  /** Bytes the first `j` texts of a row take, each with its terminator
      (`preg_matchlen + 1`). */
  function StrSize(row: seq<RegMatch>, j: nat): int
    requires j <= |row|
  {
    if j == 0 then 0 else StrSize(row, j - 1) + MatchLen(row[j - 1]) + 1
  }

  /** Bytes the texts of the first `i` rows take. */
  function TextSize(rows: seq<seq<RegMatch>>, i: nat): int
    requires i <= |rows|
  {
    if i == 0 then 0 else TextSize(rows, i - 1) + StrSize(rows[i - 1], |rows[i - 1]|)
  }

  /** `memsize`: the match table, `matc` pointer tables of `w` entries, and
      every text with its terminator. */
  function MemSize(rows: seq<seq<RegMatch>>, w: nat): int
  {
    |rows| * PREG_SUB_SIZE + |rows| * SubTableSize(w) + TextSize(rows, |rows|)
  }

  // ---------------------------------------------------------------------
  // Offsets, as the carving pass hands them out
  // ---------------------------------------------------------------------

  /** Where the cursor stands, past the match table, after carving the
      pointer tables and texts of the first `i` rows. */
  function Carved(rows: seq<seq<RegMatch>>, w: nat, i: nat): int
    requires i <= |rows|
  {
    if i == 0 then 0 else Carved(rows, w, i - 1) + SubTableSize(w) + StrSize(rows[i - 1], |rows[i - 1]|)
  }

  /** `match[i].sub`: where the pointer table of match `i` is carved. */
  function SubAt(rows: seq<seq<RegMatch>>, w: nat, i: nat): int
    requires i <= |rows|
  {
    |rows| * PREG_SUB_SIZE + Carved(rows, w, i)
  }

  /** `match[i].sub[j]`: where the text of pair (i, j) is carved. */
  function StrAt(rows: seq<seq<RegMatch>>, w: nat, i: nat, j: nat): int
    requires i < |rows| && j <= |rows[i]|
  {
    SubAt(rows, w, i) + SubTableSize(w) + StrSize(rows[i], j)
  }

  /** The pointers to the first `j` texts of a row whose texts start at
      `base`. */
  function Ptrs(row: seq<RegMatch>, base: int, j: nat): (r: seq<int>)
    requires j <= |row|
    ensures |r| == j
  {
    if j == 0 then [] else Ptrs(row, base, j - 1) + [base + StrSize(row, j - 1)]
  }

  /** The string pointers of match `i`. */
  function RowPtrs(rows: seq<seq<RegMatch>>, w: nat, i: nat): (r: seq<int>)
    requires i < |rows|
    ensures |r| == |rows[i]|
  {
    Ptrs(rows[i], SubAt(rows, w, i) + SubTableSize(w), |rows[i]|)
  }

  /** Pointer `j` of a row is where text `j` starts. */
  lemma {:induction false} PtrsAt(row: seq<RegMatch>, base: int, j: nat)
    requires j <= |row|
    ensures forall k :: 0 <= k < j ==> Ptrs(row, base, j)[k] == base + StrSize(row, k)
  {
    if j > 0 {
      PtrsAt(row, base, j - 1);
    }
  }

  /** `match[i].sub[j]` points where the text of pair (i, j) is carved. */
  lemma RowPtrsAt(rows: seq<seq<RegMatch>>, w: nat, i: nat, j: nat)
    requires i < |rows| && j < |rows[i]|
    ensures RowPtrs(rows, w, i)[j] == StrAt(rows, w, i, j)
  {
    PtrsAt(rows[i], SubAt(rows, w, i) + SubTableSize(w), |rows[i]|);
  }

  // ---------------------------------------------------------------------
  // Contents of the block
  // ---------------------------------------------------------------------

  /** The texts the pairs of a row designate. */
  function Texts(subject: string, row: seq<RegMatch>): (ts: seq<string>)
    ensures |ts| == |row|
  {
    seq(|row|, k requires 0 <= k < |row| => MatchText(subject, row[k]))
  }

  /** The texts of every row. */
  function AllTexts(subject: string, rows: seq<seq<RegMatch>>): (tss: seq<seq<string>>)
    ensures |tss| == |rows|
  {
    seq(|rows|, i requires 0 <= i < |rows| => Texts(subject, rows[i]))
  }

  /** For the first `i` rows: the row's pointer table, then its texts. */
  function Tables(tss: seq<seq<string>>, w: nat, i: nat): string
    requires i <= |tss|
  {
    if i == 0 then [] else Tables(tss, w, i - 1) + Zeros(SubTableSize(w)) + Strs(tss[i - 1], |tss[i - 1]|)
  }

  /** The whole block after the copy pass. */
  function Image(subject: string, rows: seq<seq<RegMatch>>, w: nat): string
  {
    Zeros(|rows| * PREG_SUB_SIZE) + Tables(AllTexts(subject, rows), w, |rows|)
  }

  // ---------------------------------------------------------------------
  // The sizing pass agrees with the copy pass
  // ---------------------------------------------------------------------

  /** Texts whose lengths are those of the pairs of `row`. */
  ghost predicate LensOk(ts: seq<string>, row: seq<RegMatch>)
  {
    |ts| == |row| && forall k :: 0 <= k < |ts| ==> |ts[k]| == MatchLen(row[k])
  }

  ghost predicate AllLensOk(tss: seq<seq<string>>, rows: seq<seq<RegMatch>>)
  {
    |tss| == |rows| && forall i :: 0 <= i < |tss| ==> LensOk(tss[i], rows[i])
  }

  /** The texts a row designates have the lengths `preg_matchlen` gives. */
  lemma TextsLens(subject: string, row: seq<RegMatch>)
    requires RowOk(row, |subject|)
    ensures LensOk(Texts(subject, row), row)
  {
    var ts := Texts(subject, row);
    forall k | 0 <= k < |ts|
      ensures |ts[k]| == MatchLen(row[k])
    {
      assert PairIn(row[k], |subject|);
    }
  }

  lemma AllTextsLens(subject: string, rows: seq<seq<RegMatch>>)
    requires RowsOk(rows, |subject|)
    ensures AllLensOk(AllTexts(subject, rows), rows)
  {
    var tss := AllTexts(subject, rows);
    forall i | 0 <= i < |tss|
      ensures LensOk(tss[i], rows[i])
    {
      assert RowOk(rows[i], |subject|);
      TextsLens(subject, rows[i]);
    }
  }

  lemma StrSizeStep(row: seq<RegMatch>, j: nat)
    requires 0 < j <= |row|
    ensures StrSize(row, j) == StrSize(row, j - 1) + MatchLen(row[j - 1]) + 1
  {
  }

  /** One row of pointer table and texts. */
  lemma TablesStep(tss: seq<seq<string>>, w: nat, i: nat)
    requires 0 < i <= |tss|
    ensures Tables(tss, w, i) == Tables(tss, w, i - 1) + (Zeros(SubTableSize(w)) + Strs(tss[i - 1], |tss[i - 1]|))
    ensures |Tables(tss, w, i)| == |Tables(tss, w, i - 1)| + SubTableSize(w) + |Strs(tss[i - 1], |tss[i - 1]|)|
  {
    AppendAssoc(Tables(tss, w, i - 1), Zeros(SubTableSize(w)), Strs(tss[i - 1], |tss[i - 1]|));
  }

  /** The texts of a row take the bytes the sizing pass adds up. */
  lemma {:induction false} StrsLength(ts: seq<string>, row: seq<RegMatch>, j: nat)
    requires j <= |row| && LensOk(ts, row)
    ensures |Strs(ts, j)| == StrSize(row, j)
  {
    if j > 0 {
      StrsLength(ts, row, j - 1);
      StrsStep(ts, j);
      StrSizeStep(row, j);
    }
  }

  lemma {:induction false} TablesLength(tss: seq<seq<string>>, rows: seq<seq<RegMatch>>, w: nat, i: nat)
    requires i <= |rows| && AllLensOk(tss, rows)
    ensures |Tables(tss, w, i)| == Carved(rows, w, i)
  {
    if i > 0 {
      TablesLength(tss, rows, w, i - 1);
      assert LensOk(tss[i - 1], rows[i - 1]);
      StrsLength(tss[i - 1], rows[i - 1], |rows[i - 1]|);
      TablesStep(tss, w, i);
    }
  }

  lemma MulStep(i: nat, s: nat)
    requires i > 0
    ensures i * s == (i - 1) * s + s
  {
  }

  /** The carving cursor and the sizing pass's products agree. */
  lemma {:induction false} CarvedSum(rows: seq<seq<RegMatch>>, w: nat, i: nat)
    requires i <= |rows|
    ensures Carved(rows, w, i) == i * SubTableSize(w) + TextSize(rows, i)
  {
    if i > 0 {
      CarvedSum(rows, w, i - 1);
      MulStep(i, SubTableSize(w));
    }
  }

  /** The one allocation is exactly as large as what the copy pass
      carves. */
  lemma ImageLength(subject: string, rows: seq<seq<RegMatch>>, w: nat)
    requires RowsOk(rows, |subject|)
    ensures |Image(subject, rows, w)| == MemSize(rows, w) == SubAt(rows, w, |rows|)
  {
    AllTextsLens(subject, rows);
    TablesLength(AllTexts(subject, rows), rows, w, |rows|);
    CarvedSum(rows, w, |rows|);
  }

  lemma {:induction false} StrSizeMono(row: seq<RegMatch>, n: nat, j: nat, j': nat)
    requires j <= j' <= |row| && RowOk(row, n)
    ensures 0 <= StrSize(row, j) <= StrSize(row, j')
    decreases j'
  {
    if j < j' {
      StrSizeMono(row, n, j, j' - 1);
      assert PairIn(row[j' - 1], n);
      StrSizeStep(row, j');
    } else if j > 0 {
      StrSizeMono(row, n, j - 1, j - 1);
      assert PairIn(row[j - 1], n);
      StrSizeStep(row, j);
    }
  }

  lemma {:induction false} CarvedMono(rows: seq<seq<RegMatch>>, w: nat, n: nat, i: nat, i': nat)
    requires i <= i' <= |rows| && RowsOk(rows, n)
    ensures 0 <= Carved(rows, w, i) <= Carved(rows, w, i')
    decreases i'
  {
    if i < i' {
      CarvedMono(rows, w, n, i, i' - 1);
      var row := rows[i' - 1];
      assert RowOk(row, n);
      StrSizeMono(row, n, |row|, |row|);
    } else if i > 0 {
      CarvedMono(rows, w, n, i - 1, i - 1);
      var row := rows[i - 1];
      assert RowOk(row, n);
      StrSizeMono(row, n, |row|, |row|);
    }
  }

  // ---------------------------------------------------------------------
  // Where each text lands
  // ---------------------------------------------------------------------

  lemma {:induction false} TablesPrefixAt(tss: seq<seq<string>>, w: nat, i: nat, i': nat, k: nat)
    requires i <= i' <= |tss| && k < |Tables(tss, w, i)|
    ensures k < |Tables(tss, w, i')| && Tables(tss, w, i')[k] == Tables(tss, w, i)[k]
    decreases i'
  {
    if i < i' {
      TablesPrefixAt(tss, w, i, i' - 1, k);
      assert Tables(tss, w, i') == Tables(tss, w, i' - 1) + Zeros(SubTableSize(w)) + Strs(tss[i' - 1], |tss[i' - 1]|);
    }
  }

  /** The same, in the run of all pointer tables and texts. */
  lemma TablesAtChar(tss: seq<seq<string>>, w: nat, i: nat, j: nat, k: nat)
    requires i < |tss| && j < |tss[i]| && k <= |tss[i][j]|
    ensures var p := |Tables(tss, w, i)| + SubTableSize(w) + |Strs(tss[i], j)| + k;
            var all := Tables(tss, w, |tss|);
            p < |all| && all[p] == (tss[i][j] + ['\0'])[k]
  {
    var ts := tss[i];
    var before := Tables(tss, w, i) + Zeros(SubTableSize(w));
    var q := |Strs(ts, j)| + k;
    StrsAtChar(ts, j, k);
    assert Tables(tss, w, i + 1) == before + Strs(ts, |ts|);
    assert Tables(tss, w, i + 1)[|before| + q] == Strs(ts, |ts|)[q];
    TablesPrefixAt(tss, w, i + 1, |tss|, |before| + q);
  }

  /** Byte `k` of the text of pair (i, j), or its terminator, at the
      offset the carving pass hands out for it. */
  lemma ImageAtChar(subject: string, rows: seq<seq<RegMatch>>, w: nat, i: nat, j: nat, k: nat)
    requires RowsOk(rows, |subject|) && i < |rows| && j < |rows[i]|
    requires k <= |MatchText(subject, rows[i][j])|
    ensures var p := StrAt(rows, w, i, j);
            var img := Image(subject, rows, w);
            var t := MatchText(subject, rows[i][j]);
            0 <= p && p + k < |img| && img[p + k] == (t + ['\0'])[k]
  {
    var tss := AllTexts(subject, rows);
    assert tss[i][j] == MatchText(subject, rows[i][j]);
    AllTextsLens(subject, rows);
    TablesLength(tss, rows, w, i);
    assert LensOk(tss[i], rows[i]);
    StrsLength(tss[i], rows[i], j);
    assert RowOk(rows[i], |subject|);
    StrSizeMono(rows[i], |subject|, 0, j);
    CarvedMono(rows, w, |subject|, 0, i);
    TablesAtChar(tss, w, i, j, k);
  }

  /** Every carved text is the subject text its pair designates (empty for
      a non-participating subexpression), followed by a terminator: what
      `preg_getmatch` reads at `match[i].sub[j]`. */
  lemma ImageAt(subject: string, rows: seq<seq<RegMatch>>, w: nat, i: nat, j: nat)
    requires RowsOk(rows, |subject|) && i < |rows| && j < |rows[i]|
    ensures var p := StrAt(rows, w, i, j);
            var img := Image(subject, rows, w);
            var t := MatchText(subject, rows[i][j]);
            0 <= p && p + |t| < |img| && img[p..p + |t| + 1] == t + ['\0']
  {
    var p := StrAt(rows, w, i, j);
    var img := Image(subject, rows, w);
    var t := MatchText(subject, rows[i][j]);
    ImageAtChar(subject, rows, w, i, j, |t|);
    forall k | 0 <= k < |t| + 1
      ensures img[p + k] == (t + ['\0'])[k]
    {
      ImageAtChar(subject, rows, w, i, j, k);
    }
    SliceFromPoints(img, p, t + ['\0']);
  }

  // ---------------------------------------------------------------------
  // The builder
  // ---------------------------------------------------------------------

  /** The block after one more match has been carved. */
  lemma TablesAppend(b: string, head: string, tss: seq<seq<string>>, w: nat, i: nat, r: nat)
    requires i < |tss|
    requires b == head + Tables(tss, w, i) + (Zeros(SubTableSize(w)) + Strs(tss[i], |tss[i]|)) + Zeros(r)
    ensures b == head + Tables(tss, w, i + 1) + Zeros(r)
  {
    TablesStep(tss, w, i + 1);
    AppendAssoc(head, Tables(tss, w, i), Zeros(SubTableSize(w)) + Strs(tss[i], |tss[i]|));
  }

  /** The sizing pass of `preg_match`. */
  method SizeMatches(rows: seq<seq<RegMatch>>, w: nat) returns (memsize: int)
    requires Wide(rows, w)
    ensures memsize == MemSize(rows, w)
  {
    memsize := 0;
    memsize := memsize + |rows| * PREG_SUB_SIZE;
    memsize := memsize + |rows| * SubTableSize(w);
    for i := 0 to |rows|
      invariant memsize == |rows| * PREG_SUB_SIZE + |rows| * SubTableSize(w) + TextSize(rows, i)
    {
      assert |rows[i]| == w;
      for j := 0 to w
        invariant memsize == |rows| * PREG_SUB_SIZE + |rows| * SubTableSize(w)
                             + TextSize(rows, i) + StrSize(rows[i], j)
      {
        memsize := memsize + MatchLen(rows[i][j]) + 1;
      }
    }
  }

  /** Copy text `j` of a match, and its terminator, at the cursor. */
  method PutNext(block: array<char>, ghost img: string, cursor0: nat, ts: seq<string>, row: seq<RegMatch>,
                 j: nat, cursor: nat)
    returns (next: nat)
    requires LensOk(ts, row) && j < |row|
    requires |img| == cursor0 && cursor0 + StrSize(row, |row|) <= block.Length
    requires cursor == cursor0 + StrSize(row, j) <= block.Length
    requires block[..] == img + Strs(ts, j) + Zeros(block.Length - cursor)
    modifies block
    ensures next == cursor0 + StrSize(row, j + 1) <= block.Length
    ensures block[..] == img + Strs(ts, j + 1) + Zeros(block.Length - next)
  {
    StrsLength(ts, row, j);
    StrsLength(ts, row, j + 1);
    StrsLength(ts, row, |row|);
    StrsPrefixLen(ts, j + 1, |row|);
    StrsStep(ts, j + 1);
    var t := ts[j];
    ghost var done := Strs(ts, j);
    next := PutText(block, img + done, cursor, t);
    StrsAppend(block[..], img, ts, j, t, block.Length - next);
  }

  /** Carve the texts of one match, in subexpression order; `ts` are the
      texts its pairs designate in the subject. */
  method PutRow(block: array<char>, ghost img: string, cursor0: nat, ts: seq<string>, row: seq<RegMatch>)
    returns (ptrs: seq<int>, cursor: nat)
    requires LensOk(ts, row)
    requires |img| == cursor0 <= block.Length
    requires cursor0 + StrSize(row, |row|) <= block.Length
    requires block[..] == img + Zeros(block.Length - cursor0)
    modifies block
    ensures cursor == cursor0 + StrSize(row, |row|) <= block.Length
    ensures block[..] == img + Strs(ts, |row|) + Zeros(block.Length - cursor)
    ensures ptrs == Ptrs(row, cursor0, |row|)
  {
    cursor := cursor0;
    ptrs := [];
    var j := 0;
    while j < |row|
      invariant j <= |row|
      invariant cursor == cursor0 + StrSize(row, j) <= block.Length
      invariant block[..] == img + Strs(ts, j) + Zeros(block.Length - cursor)
      invariant ptrs == Ptrs(row, cursor0, j)
    {
      ptrs := ptrs + [cursor];
      cursor := PutNext(block, img, cursor0, ts, row, j, cursor);
      j := j + 1;
    }
  }

  /** Where match `i` is carved: its pointer table starts where the
      tables and texts before it end, and its texts end where match `i + 1`
      starts. */
  lemma SubsPlace(subject: string, rows: seq<seq<RegMatch>>, w: nat, i: nat)
    requires RowsOk(rows, |subject|) && i < |rows|
    ensures |Zeros(|rows| * PREG_SUB_SIZE) + Tables(AllTexts(subject, rows), w, i)| == SubAt(rows, w, i)
    ensures LensOk(AllTexts(subject, rows)[i], rows[i])
    ensures 0 <= StrSize(rows[i], |rows[i]|)
    ensures SubAt(rows, w, i + 1) == SubAt(rows, w, i) + SubTableSize(w) + StrSize(rows[i], |rows[i]|)
  {
    var tss := AllTexts(subject, rows);
    AllTextsLens(subject, rows);
    TablesLength(tss, rows, w, i);
    assert RowOk(rows[i], |subject|);
    StrSizeMono(rows[i], |subject|, 0, |rows[i]|);
  }

  /** Where match `i`'s pointer table and texts go, in a block laid out
      up to match `i`. */
  lemma SubsEnter(b: string, head: string, subject: string, rows: seq<seq<RegMatch>>,
                  w: nat, i: nat, len: nat)
    requires RowsOk(rows, |subject|) && i < |rows|
    requires |head| == |rows| * PREG_SUB_SIZE
    requires SubAt(rows, w, i) <= len && SubAt(rows, w, i + 1) <= len
    requires b == head + Tables(AllTexts(subject, rows), w, i) + Zeros(len - SubAt(rows, w, i))
    ensures LensOk(Texts(subject, rows[i]), rows[i])
    ensures |head + Tables(AllTexts(subject, rows), w, i) + Zeros(SubTableSize(w))|
            == SubAt(rows, w, i) + SubTableSize(w)
    ensures 0 <= StrSize(rows[i], |rows[i]|)
    ensures SubAt(rows, w, i) + SubTableSize(w) + StrSize(rows[i], |rows[i]|) == SubAt(rows, w, i + 1)
    ensures b == head + Tables(AllTexts(subject, rows), w, i) + Zeros(SubTableSize(w))
                 + Zeros(len - (SubAt(rows, w, i) + SubTableSize(w)))
    ensures RowPtrs(rows, w, i) == Ptrs(rows[i], SubAt(rows, w, i) + SubTableSize(w), |rows[i]|)
  {
    SubsPlace(subject, rows, w, i);
    assert Texts(subject, rows[i]) == AllTexts(subject, rows)[i];
    ZerosAdvance(b, head + Tables(AllTexts(subject, rows), w, i), SubTableSize(w),
                 len - (SubAt(rows, w, i) + SubTableSize(w)));
  }

  /** Match `i`'s pointer table and texts, once written, extend the layout
      to match `i + 1`. */
  lemma SubsLeave(b: string, head: string, subject: string, rows: seq<seq<RegMatch>>,
                  w: nat, i: nat, r: nat)
    requires i < |rows|
    requires b == head + Tables(AllTexts(subject, rows), w, i) + Zeros(SubTableSize(w))
                  + Strs(Texts(subject, rows[i]), |rows[i]|) + Zeros(r)
    ensures b == head + Tables(AllTexts(subject, rows), w, i + 1) + Zeros(r)
  {
    var tss := AllTexts(subject, rows);
    assert Texts(subject, rows[i]) == tss[i];
    AppendAssoc(head + Tables(tss, w, i), Zeros(SubTableSize(w)), Strs(tss[i], |tss[i]|));
    TablesAppend(b, head, tss, w, i, r);
  }

  /** Carve the pointer table and the texts of match `i` after those of
      the matches before it. */
  method PutSubs(block: array<char>, ghost head: string, subject: string,
                 rows: seq<seq<RegMatch>>, w: nat, i: nat, cursor0: nat)
    returns (cursor: nat, row: seq<int>)
    requires RowsOk(rows, |subject|) && i < |rows|
    requires |head| == |rows| * PREG_SUB_SIZE
    requires cursor0 == SubAt(rows, w, i) <= block.Length && SubAt(rows, w, i + 1) <= block.Length
    requires block[..] == head + Tables(AllTexts(subject, rows), w, i) + Zeros(block.Length - cursor0)
    modifies block
    ensures cursor == SubAt(rows, w, i + 1)
    ensures block[..] == head + Tables(AllTexts(subject, rows), w, i + 1) + Zeros(block.Length - cursor)
    ensures row == RowPtrs(rows, w, i)
  {
    SubsEnter(block[..], head, subject, rows, w, i, block.Length);
    ghost var img := head + Tables(AllTexts(subject, rows), w, i) + Zeros(SubTableSize(w));
    var ts := Texts(subject, rows[i]);
    row, cursor := PutRow(block, img, cursor0 + SubTableSize(w), ts, rows[i]);
    SubsLeave(block[..], head, subject, rows, w, i, block.Length - cursor);
  }

  /** The cursor moves past `a` zero bytes that stay zero. */
  lemma ZerosAdvance(b: string, img: string, a: nat, r: nat)
    requires b == img + Zeros(a + r)
    ensures b == img + Zeros(a) + Zeros(r)
  {
    ZerosSplit(a, r);
    AppendAssoc(img, Zeros(a), Zeros(r));
  }

  /** The carving pass: every match in turn, starting right after the
      match table, in a block that is all zero. */
  method CarveAll(block: array<char>, subject: string, rows: seq<seq<RegMatch>>, w: nat)
    returns (subs: seq<int>, ptrs: seq<seq<int>>)
    requires RowsOk(rows, |subject|)
    requires block.Length == SubAt(rows, w, |rows|)
    requires block[..] == Zeros(block.Length)
    modifies block
    ensures block[..] == Image(subject, rows, w)
    ensures subs == SubsUpTo(rows, w, |rows|) && ptrs == PtrsUpTo(rows, w, |rows|)
  {
    var n := |rows|;
    var cursor := n * PREG_SUB_SIZE;
    ghost var head := Zeros(cursor);
    CarvedMono(rows, w, |subject|, 0, n);
    ZerosAdvance(block[..], [], cursor, block.Length - cursor);
    subs, ptrs := [], [];
    var i := 0;
    while i < n
      invariant i <= n
      invariant cursor == SubAt(rows, w, i) <= block.Length
      invariant block[..] == head + Tables(AllTexts(subject, rows), w, i) + Zeros(block.Length - cursor)
      invariant subs == SubsUpTo(rows, w, i) && ptrs == PtrsUpTo(rows, w, i)
    {
      CarvedMono(rows, w, |subject|, i + 1, n);
      var row;
      subs := subs + [cursor];
      cursor, row := PutSubs(block, head, subject, rows, w, i, cursor);
      ptrs := ptrs + [row];
      i := i + 1;
    }
    assert Zeros(block.Length - cursor) == [];
  }

  /** The pointer tables and string pointers of the first `i` matches, in
      the order the carving pass stores them. */
  function SubsUpTo(rows: seq<seq<RegMatch>>, w: nat, i: nat): (r: seq<int>)
    requires i <= |rows|
    ensures |r| == i
  {
    if i == 0 then [] else SubsUpTo(rows, w, i - 1) + [SubAt(rows, w, i - 1)]
  }

  function PtrsUpTo(rows: seq<seq<RegMatch>>, w: nat, i: nat): (r: seq<seq<int>>)
    requires i <= |rows|
    ensures |r| == i
  {
    if i == 0 then [] else PtrsUpTo(rows, w, i - 1) + [RowPtrs(rows, w, i - 1)]
  }

  lemma {:induction false} UpToAt(rows: seq<seq<RegMatch>>, w: nat, i: nat)
    requires i <= |rows|
    ensures forall k :: 0 <= k < i ==> SubsUpTo(rows, w, i)[k] == SubAt(rows, w, k)
    ensures forall k :: 0 <= k < i ==> PtrsUpTo(rows, w, i)[k] == RowPtrs(rows, w, k)
  {
    if i > 0 {
      UpToAt(rows, w, i - 1);
    }
  }

  /** `preg_match`'s two passes: size the block, allocate it once
      (`mem_init`, which can fail), then carve the match table, and for
      every match its pointer table and its texts.  The block is NULL when
      the allocation fails. */
  method BuildMatches(subject: string, rows: seq<seq<RegMatch>>, w: nat, canAlloc: nat -> bool)
    returns (block: array?<char>, subs: seq<int>, ptrs: seq<seq<int>>)
    requires RowsOk(rows, |subject|) && Wide(rows, w)
    ensures MemSize(rows, w) >= 0
    ensures block != null <==> canAlloc(MemSize(rows, w))
    ensures block != null ==> && fresh(block)
                              && block[..] == Image(subject, rows, w)
                              && |subs| == |rows| && |ptrs| == |rows|
                              && (forall i :: 0 <= i < |rows| ==> subs[i] == SubAt(rows, w, i))
                              && (forall i :: 0 <= i < |rows| ==> ptrs[i] == RowPtrs(rows, w, i))
  {
    var memsize := SizeMatches(rows, w);
    ImageLength(subject, rows, w);
    subs, ptrs := [], [];
    if !canAlloc(memsize) {
      return null, subs, ptrs;
    }
    block := new char[memsize](_ => '\0');
    assert block[..] == Zeros(memsize);
    subs, ptrs := CarveAll(block, subject, rows, w);
    UpToAt(rows, w, |rows|);
  }
}
