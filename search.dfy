/** The search that `preg_offset` (src/regutils.c:440-518) drives through the
    external matcher, stated as functions: first the discard phase (the
    `min` matches that are skipped), then the collection phase that turns
    each local result into a row of absolute offsets.  The imperative loops
    in the Handle module are proved against these functions. */
module Search {
  import opened RegTypes

  /** Where a search continues: the running offset `subject_ro` and whether
      REG_NOTBOL is already in `eflags`. */
  datatype Start = Start(ro: nat, notbol: bool)

  /** The rows one collection phase stores, and the code of the `regexec`
      call that ended it (0 when the cap or the empty-pattern break ended
      it after a successful call). */
  datatype Found = Found(rows: seq<seq<RegMatch>>, code: int)

  /** The code `regexec` returned. */
  function ExecCode(r: ExecResult): int
  {
    match r
    case NoMatch => REG_NOMATCH
    case ExecError(c) => c
    case Matched(_) => 0
  }

  /** One stored row: every local pair moved by the running offset, a pair
      whose start is -1 stored as (-1, -1). */
  function Absolute(m: seq<RegMatch>, ro: nat): (row: seq<RegMatch>)
    ensures |row| == |m|
  {
    seq(|m|, j requires 0 <= j < |m| =>
      if m[j].so == -1 then NO_MATCH_PAIR else RegMatch(m[j].so + ro, m[j].eo + ro))
  }

  /** `(unsigned)limit`: -1 means "no cap" and becomes UINT_MAX. */
  function Cap(limit: int32): nat
    requires limit >= -1
  {
    if limit == -1 then UINT_MAX else limit as nat
  }

  /** The discard phase: up to `k` successful executions, each moving the
      running offset to the end of its whole match and setting REG_NOTBOL;
      the first failing execution ends it where it is. */
  function Discard(re: Regex, subject: string, ro: nat, notbol: bool, k: nat): (s: Start)
    requires RegexOk(re) && ro <= |subject|
    ensures ro <= s.ro <= |subject|
    decreases k
  {
    if k == 0 then Start(ro, notbol)
    else
      var r := re.exec(subject[ro..], notbol);
      if r.Matched? then Discard(re, subject, ro + r.m[0].eo, true, k - 1)
      else Start(ro, notbol)
  }

  /** The collection phase from running offset `ro`, with `left` rows still
      allowed.  `regexec` is called before the cap is tested, so a match
      found once the cap is reached ends the phase with code 0.  When the
      pattern is the empty string (`once`), the first stored row ends it. */
  function Collect(re: Regex, subject: string, ro: nat, notbol: bool, left: nat, once: bool): (f: Found)
    requires RegexOk(re) && ro <= |subject|
    ensures |f.rows| <= left
    ensures f.code >= 0
    decreases left
  {
    var r := re.exec(subject[ro..], notbol);
    if !r.Matched? then Found([], ExecCode(r))
    else if left == 0 then Found([], 0)
    else
      var row := Absolute(r.m, ro);
      if once then Found([row], 0)
      else
        var rest := Collect(re, subject, ro + r.m[0].eo, true, left - 1, once);
        Found([row] + rest.rows, rest.code)
  }

  /** What `preg_offset` returns after a completed collection: REG_NOMATCH
      turns into success once at least one row was stored. */
  function OffsetCode(f: Found): int
  {
    if f.code == REG_NOMATCH && |f.rows| > 0 then 0 else f.code
  }

  /** The whole search of one `preg_offset` call. */
  function Search(re: Regex, subject: string, min: nat, cap: nat, once: bool): Found
    requires RegexOk(re)
  {
    var s := Discard(re, subject, 0, false, min);
    Collect(re, subject, s.ro, s.notbol, cap, once)
  }

  /** `preg_offset_alloc`'s new row count: 1 for an empty matrix, then
      double. */
  function GrownRows(size: nat): (r: nat)
    ensures r > size
    ensures size > 0 ==> r == size * 2
  {
    if size == 0 then 1 else size * 2
  }

  // ---------------------------------------------------------------------
  // Properties of the search
  // ---------------------------------------------------------------------

  /** Every stored pair lies inside the subject or is (-1, -1), and every
      row has `nsub + 1` pairs. */
  lemma AbsoluteIn(m: seq<RegMatch>, ro: nat, n: nat)
    requires ro <= n
    requires forall j :: 0 <= j < |m| ==> PairIn(m[j], n - ro)
    ensures forall j :: 0 <= j < |m| ==> PairIn(Absolute(m, ro)[j], n)
  {
  }

  /** Every row's whole match starts at or after `ro`. */
  ghost predicate StartsFrom(rows: seq<seq<RegMatch>>, ro: nat)
  {
    forall k :: 0 <= k < |rows| ==> |rows[k]| > 0 && rows[k][0].so >= ro
  }

  /** The rows of a collection are well formed, start at or after the
      running offset and follow each other without overlap. */
  lemma {:induction false} CollectGood(re: Regex, subject: string, ro: nat, notbol: bool, left: nat, once: bool)
    requires RegexOk(re) && ro <= |subject|
    ensures GoodRows(Collect(re, subject, ro, notbol, left, once).rows, re.nsub + 1, |subject|)
    ensures StartsFrom(Collect(re, subject, ro, notbol, left, once).rows, ro)
    decreases left
  {
    var r := re.exec(subject[ro..], notbol);
    assert ExecOk(r, |subject[ro..]|, re.nsub);
    if r.Matched? && left > 0 {
      var row := Absolute(r.m, ro);
      AbsoluteIn(r.m, ro, |subject|);
      assert row[0].so == r.m[0].so + ro && row[0].eo == r.m[0].eo + ro;
      if !once {
        var next := ro + r.m[0].eo;
        var l := left - 1;
        var rest := Collect(re, subject, next, true, l, once).rows;
        assert Collect(re, subject, ro, notbol, left, once).rows == [row] + rest;
        CollectGood(re, subject, next, true, l, once);
        ConsGood(row, rest, re.nsub + 1, |subject|, ro, next);
      }
    }
  }

  /** A row followed by rows starting after its end. */
  lemma ConsGood(row: seq<RegMatch>, rest: seq<seq<RegMatch>>, w: nat, n: nat, ro: nat, next: nat)
    requires w > 0 && |row| == w && row[0].so >= ro && row[0].eo == next
    requires forall j :: 0 <= j < w ==> PairIn(row[j], n)
    requires GoodRows(rest, w, n) && StartsFrom(rest, next)
    ensures GoodRows([row] + rest, w, n) && StartsFrom([row] + rest, ro)
  {
    var all := [row] + rest;
    forall i | 0 <= i < |all|
      ensures PrevEnd(all, i) <= all[i][0].so
    {
      if i >= 2 {
        assert PrevEnd(all, i) == PrevEnd(rest, i - 1);
      }
    }
  }

  /** The first `c` rows (all of them when there are fewer). */
  function Take(rows: seq<seq<RegMatch>>, c: nat): (t: seq<seq<RegMatch>>)
    ensures |t| == if c < |rows| then c else |rows|
  {
    if c < |rows| then rows[..c] else rows
  }

  /** The limit: a smaller cap stores a prefix of what a larger cap stores,
      and exactly min(cap, count) rows. */
  lemma {:induction false} CollectCap(re: Regex, subject: string, ro: nat, notbol: bool, c: nat, c': nat, once: bool)
    requires RegexOk(re) && ro <= |subject| && c <= c'
    ensures Collect(re, subject, ro, notbol, c, once).rows == Take(Collect(re, subject, ro, notbol, c', once).rows, c)
    decreases c
  {
    var r := re.exec(subject[ro..], notbol);
    assert ExecOk(r, |subject[ro..]|, re.nsub);
    if r.Matched? && c > 0 && !once {
      var next := ro + r.m[0].eo;
      var l, l' := c - 1, c' - 1;
      var row := Absolute(r.m, ro);
      var small := Collect(re, subject, next, true, l, once).rows;
      var big := Collect(re, subject, next, true, l', once).rows;
      assert Collect(re, subject, ro, notbol, c, once).rows == [row] + small;
      assert Collect(re, subject, ro, notbol, c', once).rows == [row] + big;
      CollectCap(re, subject, next, true, l, l', once);
      TakeCons(row, big, c, l);
    }
  }

  lemma TakeCons(row: seq<RegMatch>, rest: seq<seq<RegMatch>>, c: nat, l: nat)
    requires c == l + 1
    ensures Take([row] + rest, c) == [row] + Take(rest, l)
  {
    if l < |rest| {
      assert ([row] + rest)[..c] == [row] + rest[..l];
    }
  }

  /** `rows` without its first `k` (nothing left when there are fewer). */
  function Drop(rows: seq<seq<RegMatch>>, k: nat): (d: seq<seq<RegMatch>>)
    ensures |d| == if k < |rows| then |rows| - k else 0
  {
    if k < |rows| then rows[k..|rows|] else []
  }

  lemma DropCons(row: seq<RegMatch>, rest: seq<seq<RegMatch>>, k: nat, j: nat)
    requires k == j + 1
    ensures Drop([row] + rest, k) == Drop(rest, j)
  {
    if j < |rest| {
      assert ([row] + rest)[k..|rest| + 1] == rest[j..|rest|];
    }
  }

  /** The minimum: skipping `k` matches and then collecting gives the rows
      that collecting from the same place with `k` more allowed gives,
      without its first `k` (none when fewer than `k` exist). */
  lemma {:induction false} DiscardCollect(re: Regex, subject: string, ro: nat, notbol: bool, k: nat, c: nat)
    requires RegexOk(re) && ro <= |subject|
    ensures Collect(re, subject, Discard(re, subject, ro, notbol, k).ro,
                    Discard(re, subject, ro, notbol, k).notbol, c, false).rows
         == Drop(Collect(re, subject, ro, notbol, k + c, false).rows, k)
    decreases k, 1
  {
    if k == 0 {
      var all := Collect(re, subject, ro, notbol, c, false).rows;
      assert all[0..|all|] == all;
    } else {
      var r := re.exec(subject[ro..], notbol);
      assert ExecOk(r, |subject[ro..]|, re.nsub);
      if r.Matched? {
        DiscardMatched(re, subject, ro, notbol, k, c);
      } else {
        assert Discard(re, subject, ro, notbol, k) == Start(ro, notbol);
        assert Collect(re, subject, ro, notbol, k + c, false).rows == [];
      }
    }
  }

  /** The matched case of the lemma above. */
  lemma {:induction false} DiscardMatched(re: Regex, subject: string, ro: nat, notbol: bool, k: nat, c: nat)
    requires RegexOk(re) && ro <= |subject| && k > 0
    requires re.exec(subject[ro..], notbol).Matched?
    ensures Collect(re, subject, Discard(re, subject, ro, notbol, k).ro,
                    Discard(re, subject, ro, notbol, k).notbol, c, false).rows
         == Drop(Collect(re, subject, ro, notbol, k + c, false).rows, k)
    decreases k, 0
  {
    var r := re.exec(subject[ro..], notbol);
    var next := ro + r.m[0].eo;
    var j := k - 1;
    var d := Discard(re, subject, ro, notbol, k);
    var all := Collect(re, subject, ro, notbol, k + c, false).rows;
    assert next <= |subject| && d == Discard(re, subject, next, true, j) by {
      DiscardStep(re, subject, ro, notbol, k, j, c);
    }
    var rest := Collect(re, subject, next, true, j + c, false).rows;
    assert all == [Absolute(r.m, ro)] + rest by {
      DiscardStep(re, subject, ro, notbol, k, j, c);
    }
    assert Collect(re, subject, d.ro, d.notbol, c, false).rows == Drop(rest, j) by {
      DiscardCollect(re, subject, next, true, j, c);
    }
    DropCons(Absolute(r.m, ro), rest, k, j);
  }

  /** One matched step of the discard and of the collection. */
  lemma DiscardStep(re: Regex, subject: string, ro: nat, notbol: bool, k: nat, j: nat, c: nat)
    requires RegexOk(re) && ro <= |subject| && k == j + 1
    requires re.exec(subject[ro..], notbol).Matched?
    ensures ro + re.exec(subject[ro..], notbol).m[0].eo <= |subject|
    ensures Discard(re, subject, ro, notbol, k)
         == Discard(re, subject, ro + re.exec(subject[ro..], notbol).m[0].eo, true, j)
    ensures Collect(re, subject, ro, notbol, k + c, false).rows
         == [Absolute(re.exec(subject[ro..], notbol).m, ro)]
            + Collect(re, subject, ro + re.exec(subject[ro..], notbol).m[0].eo, true, j + c, false).rows
  {
    var r := re.exec(subject[ro..], notbol);
    assert ExecOk(r, |subject[ro..]|, re.nsub);
  }
}
