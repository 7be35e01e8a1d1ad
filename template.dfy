/** The replacement-template engine of src/regutils.c: `parse_rep`
    (lines 755-817) turns a template into a literal text plus an ordered list
    of backreference insertion points, and `copy_rep` (lines 870-902) renders
    that pair for one match.  A run of k `$` followed by a digit yields k/2
    literal `$`, and when k is odd a backreference to that digit; a run not
    followed by a digit is copied unchanged. */
module Template {
  import opened RegTypes
  import opened Vector

  /** MAX_BREF_DIGITS: a backreference number has at most one digit. */
  const MAX_BREF_DIGITS: nat := 1

  /** `Bref`: where in the parsed literal the subexpression text goes
      (`so`) and which subexpression it is (`no`). */
  datatype Bref = Bref(so: nat, no: nat)

  /** The result of `parse_rep`: `nrep` (the literal) and `brvec`. */
  datatype Parsed = Parsed(lit: string, brefs: seq<Bref>)

  /** One step of the scan: the literal bytes it emits, the backreference it
      records (offset relative to the start of `lit`), and the number of
      template bytes it consumes. */
  datatype Token = Token(lit: string, brefs: seq<Bref>, len: nat)

  predicate IsDigit(c: char)
  {
    '0' <= c <= '9'
  }

  function DigitVal(c: char): nat
    requires IsDigit(c)
  {
    c as int - '0' as int
  }

  /** `rep[i]` of the NUL-terminated template. */
  function At(t: string, i: nat): char
  {
    if i < |t| then t[i] else '\0'
  }

  function Pow10(k: nat): (r: nat)
    ensures r >= 1
  {
    if k == 0 then 1 else 10 * Pow10(k - 1)
  }

  predicate AllDigits(s: string)
  {
    forall k :: 0 <= k < |s| ==> IsDigit(s[k])
  }

  /** `atoi` of a digit string. */
  function Decimal(s: string): nat
    requires AllDigits(s)
  {
    if s == [] then 0 else 10 * Decimal(s[..|s| - 1]) + DigitVal(s[|s| - 1])
  }

  /** Number of leading `$` of `t`. */
  function DollarRun(t: string): (k: nat)
    ensures k <= |t|
    ensures k < |t| ==> t[k] != '$'
  {
    if t == [] || t[0] != '$' then 0 else 1 + DollarRun(t[1..])
  }

  /** The run is made of `$` only, so with the ensures of DollarRun it is
      exactly the leading run of `$`. */
  lemma {:induction false} DollarRunLeading(t: string)
    ensures t[..DollarRun(t)] == Dollars(DollarRun(t))
    decreases |t|
  {
    if t != [] && t[0] == '$' {
      DollarRunLeading(t[1..]);
      var k := DollarRun(t);
      assert t[..k] == [t[0]] + t[1..][..k - 1];
    }
  }

  /** Number of leading digits of `t`, at most `max`. */
  function DigitsAt(t: string, max: nat): (d: nat)
    ensures d <= max && d <= |t|
    ensures AllDigits(t[..d])
    ensures max > 0 && t != [] && IsDigit(t[0]) ==> d > 0
  {
    if max == 0 || t == [] || !IsDigit(t[0]) then 0
    else
      var d := 1 + DigitsAt(t[1..], max - 1);
      assert t[..d] == [t[0]] + t[1..][..d - 1];
      d
  }

  function Dollars(k: nat): (s: string)
    ensures |s| == k
  {
    seq(k, _ => '$')
  }

  /** A token records at most one backreference, placed after its
      literal bytes, with a number below 10^MAX_BREF_DIGITS. */
  predicate TokenBrefOk(tok: Token)
  {
    |tok.brefs| <= 1 &&
    (tok.brefs != [] ==> tok.brefs[0].so == |tok.lit| && tok.brefs[0].no < Pow10(MAX_BREF_DIGITS))
  }

  /** The token that starts template `t`. */
  function NextToken(t: string): (tok: Token)
    requires t != []
    ensures 0 < tok.len <= |t| && |tok.lit| <= tok.len
    ensures TokenBrefOk(tok)
  {
    var k := DollarRun(t);
    if k == 0 then Token([t[0]], [], 1)
    else if k == |t| then Token(Dollars(k), [], k)
    else if !IsDigit(t[k]) then Token(Dollars(k) + [t[k]], [], k + 1)
    else if k % 2 == 0 then Token(Dollars(k / 2) + [t[k]], [], k + 1)
    else
      var d := DigitsAt(t[k..], MAX_BREF_DIGITS);
      assert t[k..][..d] == t[k..k + d];
      DecimalBound(t[k..k + d]);
      Pow10Mono(d, MAX_BREF_DIGITS);
      Token(Dollars(k / 2), [Bref(k / 2, Decimal(t[k..k + d]))], k + d)
  }

  /** Moves backreference offsets `d` bytes to the right. */
  function Shift(bs: seq<Bref>, d: nat): (r: seq<Bref>)
    ensures |r| == |bs|
    decreases |bs|
  {
    if bs == [] then [] else [Bref(bs[0].so + d, bs[0].no)] + Shift(bs[1..], d)
  }

  /** Output `p` and backreferences `bs` (offsets relative to the start of
      `p`), followed by the parse `r` of the rest. */
  function Prefix(p: string, bs: seq<Bref>, r: Parsed): Parsed
  {
    Parsed(p + r.lit, bs + Shift(r.brefs, |p|))
  }

  /** What `parse_rep` produces for template `t`: its tokens, in order. */
  function ParseRep(t: string): Parsed
    decreases |t|
  {
    if t == [] then Parsed([], [])
    else
      var tok := NextToken(t);
      Prefix(tok.lit, tok.brefs, ParseRep(t[tok.len..]))
  }

  /** Backreferences in template order from offset `ro` on: offsets
      non-decreasing and inside the literal. */
  ghost predicate BrefsFrom(bs: seq<Bref>, ro: nat, litLen: nat)
    decreases |bs|
  {
    bs == [] || (ro <= bs[0].so <= litLen && BrefsFrom(bs[1..], bs[0].so, litLen))
  }

  /** Every backreference number is below `k`. */
  ghost predicate NosBelow(bs: seq<Bref>, k: nat)
    decreases |bs|
  {
    bs == [] || (bs[0].no < k && NosBelow(bs[1..], k))
  }

  /** In order, inside the literal and numbered below
      10^MAX_BREF_DIGITS. */
  ghost predicate BrefsOk(bs: seq<Bref>, litLen: nat)
  {
    BrefsFrom(bs, 0, litLen) && NosBelow(bs, Pow10(MAX_BREF_DIGITS))
  }

  // ---------------------------------------------------------------------
  // Facts about the helpers
  // ---------------------------------------------------------------------

  lemma {:induction false} DecimalBound(s: string)
    requires AllDigits(s)
    ensures Decimal(s) < Pow10(|s|)
  {
    if s != [] {
      DecimalBound(s[..|s| - 1]);
    }
  }

  lemma {:induction false} Pow10Mono(a: nat, b: nat)
    requires a <= b
    ensures Pow10(a) <= Pow10(b)
  {
    if a < b {
      Pow10Mono(a, b - 1);
    }
  }

  lemma {:induction false} ShiftShift(bs: seq<Bref>, a: nat, b: nat)
    ensures Shift(Shift(bs, a), b) == Shift(bs, a + b)
    decreases |bs|
  {
    if bs != [] {
      ShiftShift(bs[1..], a, b);
      assert Shift(bs, a)[1..] == Shift(bs[1..], a);
    }
  }

  lemma {:induction false} ShiftAppend(x: seq<Bref>, y: seq<Bref>, d: nat)
    ensures Shift(x + y, d) == Shift(x, d) + Shift(y, d)
    decreases |x|
  {
    if x == [] {
      assert x + y == y;
    } else {
      assert (x + y)[1..] == x[1..] + y;
      ShiftAppend(x[1..], y, d);
    }
  }

  /** Two consecutive prefixes are one. */
  lemma PrefixPrefix(p: string, bs: seq<Bref>, q: string, cs: seq<Bref>, r: Parsed)
    ensures Prefix(p, bs, Prefix(q, cs, r)) == Prefix(p + q, bs + Shift(cs, |p|), r)
  {
    var inner := Shift(r.brefs, |q|);
    var lhs := Shift(cs + inner, |p|);
    assert lhs == Shift(cs, |p|) + Shift(r.brefs, |p + q|) by {
      ShiftAppend(cs, inner, |p|);
      ShiftShift(r.brefs, |q|, |p|);
    }
    assert bs + lhs == (bs + Shift(cs, |p|)) + Shift(r.brefs, |p + q|);
    assert (p + q) + r.lit == p + (q + r.lit);
  }

  lemma ShiftOne(b: Bref, d: nat)
    ensures Shift([b], d) == [Bref(b.so + d, b.no)]
  {
    assert [b][1..] == [];
  }

  lemma {:induction false} ShiftZero(bs: seq<Bref>)
    ensures Shift(bs, 0) == bs
    decreases |bs|
  {
    if bs != [] {
      ShiftZero(bs[1..]);
    }
  }

  lemma {:induction false} ShiftNos(bs: seq<Bref>, d: nat, k: nat)
    requires NosBelow(bs, k)
    ensures NosBelow(Shift(bs, d), k)
    decreases |bs|
  {
    if bs != [] {
      ShiftNos(bs[1..], d, k);
    }
  }

  // ---------------------------------------------------------------------
  // Properties of parse_rep
  // ---------------------------------------------------------------------

  /** The literal is never longer than the template (so it fits the
      `strlen(rep) + 1` buffer), and the backreferences are in order,
      inside the literal and single-digit. */
  lemma {:induction false} ParseRepBounds(t: string)
    ensures |ParseRep(t).lit| <= |t|
    ensures BrefsOk(ParseRep(t).brefs, |ParseRep(t).lit|)
  {
    if t != [] {
      var tok := NextToken(t);
      ParseRepBounds(t[tok.len..]);
      PrefixOk(tok, ParseRep(t[tok.len..]));
    }
  }

  lemma PrefixOk(tok: Token, r: Parsed)
    requires TokenBrefOk(tok) && BrefsOk(r.brefs, |r.lit|)
    ensures BrefsOk(Prefix(tok.lit, tok.brefs, r).brefs, |Prefix(tok.lit, tok.brefs, r).lit|)
  {
    var p := tok.lit;
    var sh := Shift(r.brefs, |p|);
    ShiftFrom(r.brefs, |p|, 0, |r.lit|);
    ShiftNos(r.brefs, |p|, Pow10(MAX_BREF_DIGITS));
    assert |p + r.lit| == |p| + |r.lit|;
    if tok.brefs == [] {
      assert tok.brefs + sh == sh;
      BrefsFromWeaken(sh, 0, |p|, |p| + |r.lit|);
    } else {
      assert (tok.brefs + sh)[1..] == sh;
    }
  }

  /** A template without `$` is copied verbatim and has no
      backreferences. */
  lemma {:induction false} NoDollarVerbatim(t: string)
    requires forall m :: 0 <= m < |t| ==> t[m] != '$'
    ensures ParseRep(t) == Parsed(t, [])
  {
    if t != [] {
      NoDollarVerbatim(t[1..]);
      assert [t[0]] + t[1..] == t;
    }
  }

  lemma {:induction false} DollarRunOf(k: nat, c: char, rest: string)
    requires c != '$'
    ensures DollarRun(Dollars(k) + [c] + rest) == k
    ensures (Dollars(k) + [c] + rest)[k] == c
  {
    if k > 0 {
      assert (Dollars(k) + [c] + rest)[1..] == Dollars(k - 1) + [c] + rest;
      DollarRunOf(k - 1, c, rest);
    }
  }

  /** An odd run of k `$` before a digit gives k/2 literal `$` and a
      backreference to that digit placed after them. */
  lemma OddRunBeforeDigit(k: nat, c: char, rest: string)
    requires k % 2 == 1 && IsDigit(c)
    ensures NextToken(Dollars(k) + [c] + rest) == Token(Dollars(k / 2), [Bref(k / 2, DigitVal(c))], k + 1)
  {
    var t := Dollars(k) + [c] + rest;
    DollarRunOf(k, c, rest);
    assert t[k..k + 1] == [c];
    assert [c][..0] == [];
  }

  /** An even run of k `$` before a digit gives k/2 literal `$` and then
      the digit itself. */
  lemma EvenRunBeforeDigit(k: nat, c: char, rest: string)
    requires k > 0 && k % 2 == 0 && IsDigit(c)
    ensures NextToken(Dollars(k) + [c] + rest) == Token(Dollars(k / 2) + [c], [], k + 1)
  {
    DollarRunOf(k, c, rest);
  }

  /** A run of `$` not followed by a digit is copied unchanged. */
  lemma RunBeforeOther(k: nat, c: char, rest: string)
    requires k > 0 && !IsDigit(c) && c != '$'
    ensures NextToken(Dollars(k) + [c] + rest) == Token(Dollars(k) + [c], [], k + 1)
  {
    DollarRunOf(k, c, rest);
  }

  /** The template of the library's replace example, `$1 inside the
      crate`: the literal loses the `$1`, and one backreference to
      subexpression 1 sits at offset 0. */
  lemma DemoTemplate()
    ensures ParseRep("$1 inside the crate") == Parsed(" inside the crate", [Bref(0, 1)])
  {
    DemoParts();
    DemoSplit();
  }

  lemma DemoParts()
    ensures ParseRep(['$', '1'] + " inside the crate") == Parsed(" inside the crate", [Bref(0, 1)])
  {
    DemoRest();
    BrefThen('1', " inside the crate");
  }

  lemma DemoSplit()
    ensures "$1 inside the crate" == ['$', '1'] + " inside the crate"
  {
  }

  lemma DemoRest()
    ensures ParseRep(" inside the crate") == Parsed(" inside the crate", [])
  {
    NoDollarVerbatim(" inside the crate");
  }

  /** `$d` is the token of a backreference to d with no literal text. */
  lemma DollarDigitToken(c: char, rest: string)
    requires IsDigit(c)
    ensures NextToken(['$', c] + rest) == Token([], [Bref(0, DigitVal(c))], 2)
  {
    assert Dollars(1) == ['$'];
    assert ['$', c] + rest == Dollars(1) + [c] + rest;
    OddRunBeforeDigit(1, c, rest);
  }

  /** `$d` in front of a template that parses to itself puts a
      backreference to d at offset 0. */
  lemma BrefThen(c: char, rest: string)
    requires IsDigit(c)
    requires ParseRep(rest) == Parsed(rest, [])
    ensures ParseRep(['$', c] + rest) == Parsed(rest, [Bref(0, DigitVal(c))])
  {
    DollarDigitToken(c, rest);
    assert (['$', c] + rest)[2..] == rest;
  }

  // ---------------------------------------------------------------------
  // Rendering (copy_rep) and its reference
  // ---------------------------------------------------------------------

  /** `getmatch(i, no)` of one match: the text of subexpression `no`, or
      nothing when there is no such subexpression. */
  function Group(groups: seq<string>, no: nat): string
  {
    if no < |groups| then groups[no] else []
  }

  /** The rendered template from literal offset `ro` on: each
      backreference's subexpression text is inserted at its offset. */
  function RenderFrom(lit: string, bs: seq<Bref>, groups: seq<string>, ro: nat): string
    requires ro <= |lit| && BrefsFrom(bs, ro, |lit|)
    decreases |bs|
  {
    if bs == [] then lit[ro..]
    else lit[ro..bs[0].so] + Group(groups, bs[0].no) + RenderFrom(lit, bs[1..], groups, bs[0].so)
  }

  /** What `copy_rep` writes for one match. */
  function Render(p: Parsed, groups: seq<string>): string
    requires BrefsFrom(p.brefs, 0, |p.lit|)
  {
    RenderFrom(p.lit, p.brefs, groups, 0)
  }

  /** Sum of the lengths of the inserted subexpression texts. */
  function InsertedLen(bs: seq<Bref>, groups: seq<string>): nat
  {
    if bs == [] then 0 else |Group(groups, bs[0].no)| + InsertedLen(bs[1..], groups)
  }

  /** The text of one token with its backreference substituted. */
  function TokenText(tok: Token, groups: seq<string>): string
  {
    tok.lit + (if tok.brefs == [] then [] else Group(groups, tok.brefs[0].no))
  }

  /** Reference semantics of a template: each token's text with the
      subexpression text substituted on the spot, in one scan. */
  function Expand(t: string, groups: seq<string>): string
    decreases |t|
  {
    if t == [] then [] else
      var tok := NextToken(t);
      TokenText(tok, groups) + Expand(t[tok.len..], groups)
  }

  /** The rendered length is the literal's plus the inserted texts'
      (the `matc * rep.len + sum of preg_matchlen` terms of `assemble`). */
  lemma {:induction false} RenderLength(lit: string, bs: seq<Bref>, groups: seq<string>, ro: nat)
    requires ro <= |lit| && BrefsFrom(bs, ro, |lit|)
    ensures |RenderFrom(lit, bs, groups, ro)| == |lit| - ro + InsertedLen(bs, groups)
    decreases |bs|
  {
    if bs != [] {
      RenderLength(lit, bs[1..], groups, bs[0].so);
    }
  }

  lemma {:induction false} ShiftFrom(bs: seq<Bref>, d: nat, ro: nat, n: nat)
    requires BrefsFrom(bs, ro, n)
    ensures BrefsFrom(Shift(bs, d), ro + d, n + d)
    decreases |bs|
  {
    if bs != [] {
      assert Shift(bs, d)[1..] == Shift(bs[1..], d);
      ShiftFrom(bs[1..], d, bs[0].so, n);
    }
  }

  /** Offsets in order from `ro` are in order from any earlier point. */
  lemma BrefsFromWeaken(bs: seq<Bref>, lo: nat, ro: nat, n: nat)
    requires lo <= ro && BrefsFrom(bs, ro, n)
    ensures BrefsFrom(bs, lo, n)
  {
  }

  lemma RenderCons(lit: string, bs: seq<Bref>, groups: seq<string>, ro: nat)
    requires ro <= |lit| && BrefsFrom(bs, ro, |lit|) && bs != []
    ensures RenderFrom(lit, bs, groups, ro)
         == lit[ro..bs[0].so] + Group(groups, bs[0].no) + RenderFrom(lit, bs[1..], groups, bs[0].so)
  {
  }

  lemma RenderShift(p: string, l: string, bs: seq<Bref>, groups: seq<string>, ro: nat)
    requires ro <= |l| && BrefsFrom(bs, ro, |l|)
    ensures BrefsFrom(Shift(bs, |p|), |p| + ro, |p + l|)
    ensures RenderFrom(p + l, Shift(bs, |p|), groups, |p| + ro) == RenderFrom(l, bs, groups, ro)
  {
    ShiftFrom(bs, |p|, ro, |l|);
    assert (p + l)[|p|..] == l;
    RenderShifted(p + l, |p|, l, bs, Shift(bs, |p|), groups, ro);
  }

  /** `RenderShift` with the literal `pl` ending in `l` after `d` characters. */
  lemma {:induction false} RenderShifted(pl: string, d: nat, l: string, bs: seq<Bref>, sh: seq<Bref>,
                                         groups: seq<string>, ro: nat)
    requires |pl| == d + |l| && pl[d..] == l
    requires ro <= |l| && BrefsFrom(bs, ro, |l|)
    requires sh == Shift(bs, d) && BrefsFrom(sh, d + ro, |pl|)
    ensures RenderFrom(pl, sh, groups, d + ro) == RenderFrom(l, bs, groups, ro)
    decreases |bs|
  {
    if bs == [] {
      assert sh == [];
      assert pl[d + ro..] == l[ro..];
    } else {
      var b := bs[0];
      assert sh[0] == Bref(b.so + d, b.no) && sh[1..] == Shift(bs[1..], d) by {
        ShiftCons(bs, d);
      }
      RenderShifted(pl, d, l, bs[1..], sh[1..], groups, b.so);
      assert pl[d + ro..d + b.so] == l[ro..b.so] by {
        SliceAfter(pl, d, l, ro, b.so);
      }
      RenderCons(pl, sh, groups, d + ro);
      RenderCons(l, bs, groups, ro);
      assert RenderFrom(pl, sh[1..], groups, sh[0].so) == RenderFrom(l, bs[1..], groups, b.so);
    }
  }

  lemma ShiftCons(bs: seq<Bref>, d: nat)
    requires bs != []
    ensures Shift(bs, d)[0] == Bref(bs[0].so + d, bs[0].no) && Shift(bs, d)[1..] == Shift(bs[1..], d)
  {
  }

  lemma SliceAfter(pl: string, d: nat, l: string, i: nat, j: nat)
    requires |pl| == d + |l| && pl[d..] == l && i <= j <= |l|
    ensures pl[d + i..d + j] == l[i..j]
  {
    forall k | 0 <= k < j - i
      ensures pl[d + i..d + j][k] == l[i..j][k]
    {
      assert pl[d + i + k] == pl[d..][i + k];
    }
  }

  /** Rendering a token followed by a parse is rendering each in turn. */
  lemma RenderPrefix(tok: Token, r: Parsed, groups: seq<string>)
    requires TokenBrefOk(tok)
    requires BrefsFrom(r.brefs, 0, |r.lit|)
    ensures BrefsFrom(Prefix(tok.lit, tok.brefs, r).brefs, 0, |Prefix(tok.lit, tok.brefs, r).lit|)
    ensures Render(Prefix(tok.lit, tok.brefs, r), groups) == TokenText(tok, groups) + Render(r, groups)
  {
    if tok.brefs == [] {
      assert tok.brefs + Shift(r.brefs, |tok.lit|) == Shift(r.brefs, |tok.lit|);
      assert tok.lit + [] == tok.lit;
      RenderPlain(tok.lit, r.lit, r.brefs, groups);
    } else {
      RenderBref(tok.lit, tok.brefs[0].no, r.lit, r.brefs, groups);
    }
  }

  /** Literal bytes in front of a parse are output first. */
  lemma RenderPlain(p: string, l: string, bs: seq<Bref>, groups: seq<string>)
    requires BrefsFrom(bs, 0, |l|)
    ensures BrefsFrom(Shift(bs, |p|), 0, |p + l|)
    ensures RenderFrom(p + l, Shift(bs, |p|), groups, 0) == p + RenderFrom(l, bs, groups, 0)
  {
    var sh := Shift(bs, |p|);
    RenderShift(p, l, bs, groups, 0);
    BrefsFromWeaken(sh, 0, |p|, |p + l|);
    if bs == [] {
      assert (p + l)[0..] == p + l[0..];
    } else {
      assert sh[1..] == Shift(bs[1..], |p|);
      RenderShift(p, l, bs[1..], groups, bs[0].so);
      assert (p + l)[0..sh[0].so] == p + l[0..bs[0].so];
    }
  }

  /** A backreference right after literal bytes `p` inserts its text after
      them. */
  lemma RenderBref(p: string, no: nat, l: string, bs: seq<Bref>, groups: seq<string>)
    requires BrefsFrom(bs, 0, |l|)
    ensures BrefsFrom([Bref(|p|, no)] + Shift(bs, |p|), 0, |p + l|)
    ensures RenderFrom(p + l, [Bref(|p|, no)] + Shift(bs, |p|), groups, 0)
            == p + Group(groups, no) + RenderFrom(l, bs, groups, 0)
  {
    var sh := Shift(bs, |p|);
    RenderShift(p, l, bs, groups, 0);
    assert ([Bref(|p|, no)] + sh)[1..] == sh;
    assert (p + l)[0..|p|] == p;
  }

  /** Parsing a template and rendering the parse for a match is
      substituting that match's subexpressions into the template
      directly. */
  lemma {:induction false} RenderParseRep(t: string, groups: seq<string>)
    ensures BrefsFrom(ParseRep(t).brefs, 0, |ParseRep(t).lit|)
    ensures Render(ParseRep(t), groups) == Expand(t, groups)
    decreases |t|
  {
    if t != [] {
      var tok := NextToken(t);
      RenderParseRep(t[tok.len..], groups);
      RenderPrefix(tok, ParseRep(t[tok.len..]), groups);
    }
  }

  // ---------------------------------------------------------------------
  // parse_rep as the source writes it
  // ---------------------------------------------------------------------

  /** Consuming one token moves it from the unparsed rest to the output. */
  lemma Advance(rep: string, out: string, added: seq<Bref>, i0: nat, piece: string, bs: seq<Bref>, i: nat)
    requires i0 < i <= |rep|
    requires NextToken(rep[i0..]) == Token(piece, bs, i - i0)
    requires ParseRep(rep) == Prefix(out, added, ParseRep(rep[i0..]))
    ensures ParseRep(rep) == Prefix(out + piece, added + Shift(bs, |out|), ParseRep(rep[i..]))
  {
    var rest, mid := ParseRep(rep[i..]), ParseRep(rep[i0..]);
    assert rep[i0..][i - i0..] == rep[i..];
    assert mid == Prefix(piece, bs, rest) by {
      ParseRepStep(rep[i0..], piece, bs, i - i0);
    }
    PrefixPrefix(out, added, piece, bs, rest);
  }

  /** One unfolding of ParseRep. */
  lemma ParseRepStep(t: string, p: string, bs: seq<Bref>, n: nat)
    requires t != [] && NextToken(t) == Token(p, bs, n)
    ensures ParseRep(t) == Prefix(p, bs, ParseRep(t[n..]))
  {
  }

  // The token cases, one lemma each, for the scan below.

  lemma TokenPlain(t: string)
    requires t != [] && t[0] != '$'
    ensures NextToken(t) == Token([t[0]], [], 1)
  {
  }

  lemma TokenEnd(t: string, k: nat)
    requires 0 < k == |t| == DollarRun(t)
    ensures NextToken(t) == Token(Dollars(k), [], k)
  {
  }

  lemma TokenOther(t: string, k: nat)
    requires 0 < k == DollarRun(t) && k < |t| && !IsDigit(t[k])
    ensures NextToken(t) == Token(Dollars(k) + [t[k]], [], k + 1)
  {
  }

  lemma TokenEven(t: string, k: nat)
    requires 0 < k == DollarRun(t) && k < |t| && IsDigit(t[k]) && k % 2 == 0
    ensures NextToken(t) == Token(Dollars(k / 2) + [t[k]], [], k + 1)
  {
  }

  lemma TokenBref(t: string, k: nat, num: nat, d: nat)
    requires 0 < k == DollarRun(t) && k < |t| && IsDigit(t[k]) && k % 2 == 1
    requires d == DigitsAt(t[k..], MAX_BREF_DIGITS) && AllDigits(t[k..k + d]) && num == Decimal(t[k..k + d])
    ensures NextToken(t) == Token(Dollars(k / 2), [Bref(k / 2, num)], k + d)
  {
  }

  /** `while (rep[i] == '$') { ++dollars; ++i; }` */
  method ScanDollars(rep: string, i0: nat) returns (dollars: nat, i: nat)
    requires i0 <= |rep|
    ensures dollars == DollarRun(rep[i0..]) && i == i0 + dollars
  {
    dollars, i := 0, i0;
    while At(rep, i) == '$'
      invariant i0 <= i <= |rep|
      invariant dollars == i - i0
      invariant DollarRun(rep[i0..]) == dollars + DollarRun(rep[i..])
      decreases |rep| - i
    {
      assert rep[i..][1..] == rep[i + 1..];
      dollars := dollars + 1;
      i := i + 1;
    }
  }

  /** `while (k--) nrep[j++] = '$';` */
  method PutDollars(nrep: array<char>, j0: nat, count: nat) returns (j: nat)
    requires j0 + count <= nrep.Length
    modifies nrep
    ensures j == j0 + count
    ensures nrep[..j] == old(nrep[..j0]) + Dollars(count)
    ensures nrep[..j0] == old(nrep[..j0]) && nrep[j0..j] == Dollars(count)
  {
    j := j0;
    var k := count;
    while k > 0
      invariant 0 <= k <= count && j == j0 + (count - k)
      invariant nrep[..j] == old(nrep[..j0]) + Dollars(count - k)
      decreases k
    {
      nrep[j] := '$';
      assert nrep[..j + 1] == nrep[..j] + ['$'];
      j := j + 1;
      k := k - 1;
    }
    assert nrep[..j][..j0] == nrep[..j0] && nrep[..j][j0..] == nrep[j0..j];
  }

  /** The digits of a backreference number, at most MAX_BREF_DIGITS of
      them, and their `atoi` value. */
  method ReadBrefNum(rep: string, i0: nat) returns (num: nat, i: nat)
    requires i0 <= |rep|
    ensures i == i0 + DigitsAt(rep[i0..], MAX_BREF_DIGITS) && i <= |rep|
    ensures AllDigits(rep[i0..i]) && num == Decimal(rep[i0..i])
  {
    num, i := 0, i0;
    var d := 0;
    while IsDigit(At(rep, i)) && d < MAX_BREF_DIGITS
      invariant i0 <= i <= |rep| && d == i - i0 && d <= MAX_BREF_DIGITS
      invariant AllDigits(rep[i0..i])
      invariant num == Decimal(rep[i0..i])
      invariant DigitsAt(rep[i0..], MAX_BREF_DIGITS) == d + DigitsAt(rep[i..], MAX_BREF_DIGITS - d)
      decreases |rep| - i
    {
      assert rep[i0..i + 1][..i - i0] == rep[i0..i];
      assert rep[i..][1..] == rep[i + 1..];
      num := 10 * num + DigitVal(rep[i]);
      i := i + 1;
      d := d + 1;
    }
  }

  /** One pass of `parse_rep`'s loop: the token at `rep[i0]` goes to
      `nrep[j0..]`; a backreference it records is returned for the caller
      to append to `brvec`, which the source does right before moving on to
      the next pass.  The trailing-run case, where the source breaks out of
      the loop, consumes the rest of the template, so the loop condition
      ends the scan there too. */
  method ParseToken(rep: string, i0: nat, nrep: array<char>, j0: nat)
    returns (i: nat, j: nat, bref: seq<Bref>)
    requires NulFree(rep) && j0 <= i0 < |rep|
    requires nrep.Length >= |rep| + 1
    modifies nrep
    ensures j0 <= j <= i <= |rep| && i0 < i
    ensures nrep[..j0] == old(nrep[..j0])
    ensures NextToken(rep[i0..]) == Token(nrep[j0..j], bref, i - i0)
  {
    var dollars;
    // `if (dollars) dollars = 0;` and the run of `$`
    dollars, i := ScanDollars(rep, i0);
    if dollars > 0 {
      i, j, bref := ParseRun(rep, i0, i, dollars, nrep, j0);
    } else {
      TokenPlain(rep[i0..]);
      nrep[j0] := rep[i];
      assert nrep[j0..j0 + 1] == [rep[i]];
      i, j, bref := i + 1, j0 + 1, [];
    }
  }

  /** The rest of a pass that started with a run of `dollars` `$` bytes,
      now consumed up to `i1`. */
  method ParseRun(rep: string, i0: nat, i1: nat, dollars: nat, nrep: array<char>, j0: nat)
    returns (i: nat, j: nat, bref: seq<Bref>)
    requires NulFree(rep) && j0 <= i0 < |rep|
    requires nrep.Length >= |rep| + 1
    requires 0 < dollars == DollarRun(rep[i0..]) && i1 == i0 + dollars
    modifies nrep
    ensures j0 <= j <= i <= |rep| && i0 < i
    ensures nrep[..j0] == old(nrep[..j0])
    ensures NextToken(rep[i0..]) == Token(nrep[j0..j], bref, i - i0)
  {
    ghost var tail := rep[i0..];
    assert rep[i1..] == tail[dollars..];
    i, bref := i1, [];
    ghost var piece: string;
    if IsDigit(At(rep, i)) {
      j := PutDollars(nrep, j0, dollars / 2);
      if dollars % 2 == 1 {
        i, bref := RunBref(rep, i0, i1, dollars);
        return;
      }
      TokenEven(tail, dollars);
      piece := Dollars(dollars / 2) + [rep[i]];
    } else {
      j := PutDollars(nrep, j0, dollars);
      if At(rep, i) == '\0' {
        TokenEnd(tail, dollars);
        return;
      }
      TokenOther(tail, dollars);
      piece := Dollars(dollars) + [rep[i]];
    }
    // the byte after the run is copied literally
    i, j := CopyRunByte(rep, i, nrep, j0, j);
  }

  /** An odd run before a digit: the digits after it are the backreference
      number. */
  method RunBref(rep: string, i0: nat, i1: nat, dollars: nat) returns (i: nat, bref: seq<Bref>)
    requires NulFree(rep) && i0 < |rep|
    requires 0 < dollars == DollarRun(rep[i0..]) && i1 == i0 + dollars
    requires IsDigit(At(rep, i1)) && dollars % 2 == 1
    ensures i1 < i <= |rep|
    ensures NextToken(rep[i0..]) == Token(Dollars(dollars / 2), bref, i - i0)
  {
    ghost var tail := rep[i0..];
    assert rep[i1..] == tail[dollars..];
    var num;
    num, i := ReadBrefNum(rep, i1);
    assert rep[i1..i] == tail[dollars..i - i0] by {
      assert forall k :: 0 <= k < i - i1 ==> rep[i1..i][k] == tail[dollars..i - i0][k];
    }
    TokenBref(tail, dollars, num, i - i1);
    bref := [Bref(dollars / 2, num)];
  }

  /** The byte after a run that is not a backreference, copied as is. */
  method CopyRunByte(rep: string, i1: nat, nrep: array<char>, j0: nat, j1: nat) returns (i: nat, j: nat)
    requires i1 < |rep| && j0 <= j1 < nrep.Length
    modifies nrep
    ensures i == i1 + 1 && j == j1 + 1
    ensures nrep[..j0] == old(nrep[..j0])
    ensures nrep[j0..j] == old(nrep[j0..j1]) + [rep[i1]]
  {
    nrep[j1] := rep[i1];
    assert nrep[j0..j1 + 1] == nrep[j0..j1] + [rep[i1]];
    i, j := i1 + 1, j1 + 1;
  }

  /** One pass of `parse_rep`'s loop including the append of the token's
      backreference to `brvec`; `rc` is the vector's return code. */
  method ParseStep(rep: string, i0: nat, nrep: array<char>, j0: nat, brvec: Vec<Bref>, canAlloc: nat -> bool)
    returns (rc: int, i: nat, j: nat)
    requires NulFree(rep) && j0 <= i0 < |rep|
    requires nrep.Length >= |rep| + 1
    requires brvec.Valid()
    modifies nrep, brvec, brvec.entry
    ensures brvec.Valid()
    ensures brvec.entry == old(brvec.entry) || fresh(brvec.entry)
    ensures j0 <= j <= i <= |rep| && i0 < i
    ensures rc == 0 || rc == -1
    ensures (forall k :: canAlloc(k)) ==> rc == 0
    ensures nrep[..j] == old(nrep[..j0]) + nrep[j0..j]
    ensures rc == 0 ==> && NextToken(rep[i0..]) == Token(nrep[j0..j], NextToken(rep[i0..]).brefs, i - i0)
                        && brvec.Contents() == old(brvec.Contents()) + Shift(NextToken(rep[i0..]).brefs, j0)
  {
    var bref;
    i, j, bref := ParseToken(rep, i0, nrep, j0);
    ghost var out := nrep[..j];
    assert out == old(nrep[..j0]) + nrep[j0..j];
    assert TokenBrefOk(NextToken(rep[i0..]));
    rc := PushBref(brvec, bref, j0, canAlloc);
    assert nrep[..j] == out;
  }

  /** The append of a token's backreference (at most one) to `brvec`, its
      offset moved from the token to the literal written so far. */
  method PushBref(brvec: Vec<Bref>, bref: seq<Bref>, j0: nat, canAlloc: nat -> bool)
    returns (rc: int)
    requires brvec.Valid() && |bref| <= 1
    modifies brvec, brvec.entry
    ensures brvec.Valid()
    ensures brvec.entry == old(brvec.entry) || fresh(brvec.entry)
    ensures rc == 0 || rc == -1
    ensures (forall k :: canAlloc(k)) ==> rc == 0
    ensures rc == 0 ==> brvec.Contents() == old(brvec.Contents()) + Shift(bref, j0)
  {
    if bref != [] {
      rc := brvec.Append(Bref(bref[0].so + j0, bref[0].no), canAlloc);
      assert bref == [bref[0]];
      ShiftOne(bref[0], j0);
    } else {
      rc := 0;
      assert old(brvec.Contents()) + Shift(bref, j0) == old(brvec.Contents());
    }
  }

  /** `parse_rep(rep, nrep, brvec)`: scans the template, writing the literal
      into `nrep` (at least `strlen(rep) + 1` bytes) and appending the
      backreferences to `brvec`.  Returns PREG_MEMFAIL when appending to the
      vector fails, else 0 with the literal's length. */
  method ParseRepInto(rep: string, nrep: array<char>, brvec: Vec<Bref>, canAlloc: nat -> bool)
    returns (err: int, len: nat)
    requires NulFree(rep)
    requires nrep.Length >= |rep| + 1
    requires brvec.Valid() && brvec.n == 0
    modifies nrep, brvec, brvec.entry
    ensures brvec.Valid()
    ensures err == 0 || err == PREG_MEMFAIL
    ensures (forall k :: canAlloc(k)) ==> err == 0
    ensures len <= |rep|
    ensures err == 0 ==> && len == |ParseRep(rep).lit|
                         && nrep[..len] == ParseRep(rep).lit
                         && nrep[len] == '\0'
                         && brvec.Contents() == ParseRep(rep).brefs
  {
    ghost var target := ParseRep(rep);
    ghost var added: seq<Bref> := [];
    var i, j := 0, 0;
    assert nrep[..0] == [] && rep[0..] == rep;
    assert target == Prefix([], [], target) by {
      ShiftZero(target.brefs);
      assert [] + target.lit == target.lit;
    }
    while At(rep, i) != '\0'
      invariant 0 <= j <= i <= |rep|
      invariant brvec.Valid()
      invariant brvec.entry == null || brvec.entry == old(brvec.entry) || fresh(brvec.entry)
      invariant brvec.Contents() == added
      invariant target == Prefix(nrep[..j], added, ParseRep(rep[i..]))
      decreases |rep| - i
    {
      ghost var i0, j0, out := i, j, nrep[..j];
      var rc;
      rc, i, j := ParseStep(rep, i, nrep, j, brvec, canAlloc);
      if rc == -1 {
        return PREG_MEMFAIL, j;
      }
      ghost var tok := NextToken(rep[i0..]);
      ghost var sh := Shift(tok.brefs, j0);
      Advance(rep, out, added, i0, nrep[j0..j], tok.brefs, i);
      added := added + sh;
    }
    assert i == |rep| && rep[i..] == [];
    assert ParseRep(rep[i..]) == Parsed([], []);
    assert Shift([], j) == [];
    assert target == Parsed(nrep[..j] + [], added + []);
    assert nrep[..j] + [] == nrep[..j] && added + [] == added;
    ghost var lit := nrep[..j];
    nrep[j] := '\0';
    assert nrep[..j] == lit;
    err, len := 0, j;
  }
}
