/** The byte-copying primitives the result builders of src/regutils.c rely
    on: `memcpy` into a block obtained from `mem_init` (lines 134-150) and
    carved with the bump cursor of `mem_alloc` (lines 152-157).  A block is a
    `char` array; a pointer into it is an index. */
module Mem {

  /** `n` zero bytes. */
  function Zeros(n: nat): (s: string)
    ensures |s| == n
  {
    seq(n, _ => '\0')
  }

  lemma ZerosSplit(a: nat, b: nat)
    ensures Zeros(a + b) == Zeros(a) + Zeros(b)
  {
  }

  lemma AppendAssoc(a: string, b: string, c: string)
    ensures a + b + c == a + (b + c)
  {
  }

  /** A slice known byte by byte. */
  lemma SliceFromPoints(s: string, p: nat, u: string)
    requires p + |u| <= |s|
    requires forall k :: 0 <= k < |u| ==> s[p + k] == u[k]
    ensures s[p..p + |u|] == u
  {
    forall k | 0 <= k < |u|
      ensures s[p..p + |u|][k] == u[k]
    {
    }
  }

  /** `memcpy(dst + at, src, |src|)`: the bytes before `at` and after the
      copied range are unchanged. */
  method Memcpy(dst: array<char>, at: nat, src: seq<char>)
    requires at + |src| <= dst.Length
    modifies dst
    ensures dst[..] == old(dst[..at]) + src + old(dst[at + |src|..])
    ensures dst[..at + |src|] == old(dst[..at]) + src
  {
    var k := 0;
    while k < |src|
      invariant 0 <= k <= |src|
      invariant forall q :: 0 <= q < dst.Length ==>
                  dst[q] == (if at <= q < at + k then src[q - at] else old(dst[q]))
    {
      dst[at + k] := src[k];
      k := k + 1;
    }
    assert dst[..] == old(dst[..at]) + src + old(dst[at + |src|..]);
    assert dst[..at + |src|] == dst[..][..at + |src|];
  }

  /** The first `j` texts, each followed by a terminator. */
  function Strs(ts: seq<string>, j: nat): string
    requires j <= |ts|
  {
    if j == 0 then [] else Strs(ts, j - 1) + ts[j - 1] + ['\0']
  }

  /** One text and its terminator. */
  lemma StrsStep(ts: seq<string>, j: nat)
    requires 0 < j <= |ts|
    ensures Strs(ts, j) == Strs(ts, j - 1) + (ts[j - 1] + ['\0'])
    ensures |Strs(ts, j)| == |Strs(ts, j - 1)| + |ts[j - 1]| + 1
  {
    AppendAssoc(Strs(ts, j - 1), ts[j - 1], ['\0']);
  }

  /** A byte of a shorter run of texts is the same byte in a longer one. */
  lemma {:induction false} StrsPrefixAt(ts: seq<string>, j: nat, j': nat, k: nat)
    requires j <= j' <= |ts| && k < |Strs(ts, j)|
    ensures k < |Strs(ts, j')| && Strs(ts, j')[k] == Strs(ts, j)[k]
    decreases j'
  {
    if j < j' {
      StrsPrefixAt(ts, j, j' - 1, k);
      assert Strs(ts, j') == Strs(ts, j' - 1) + ts[j' - 1] + ['\0'];
    }
  }

  /** A shorter run of texts is a prefix of a longer one. */
  lemma {:induction false} StrsGrows(ts: seq<string>, j: nat, j': nat)
    requires j <= j' <= |ts|
    ensures Strs(ts, j) <= Strs(ts, j')
    decreases j'
  {
    if j < j' {
      StrsGrows(ts, j, j' - 1);
      StrsStep(ts, j');
    }
  }

  /** Byte `k` of text `j`, or its terminator when `k` is the text's
      length, in the run of all texts. */
  lemma StrsAtChar(ts: seq<string>, j: nat, k: nat)
    requires j < |ts| && k <= |ts[j]|
    ensures var p := |Strs(ts, j)| + k;
            p < |Strs(ts, |ts|)| && Strs(ts, |ts|)[p] == (ts[j] + ['\0'])[k]
  {
    var s := Strs(ts, j + 1);
    assert s == Strs(ts, j) + ts[j] + ['\0'];
    assert s[|Strs(ts, j)| + k] == (ts[j] + ['\0'])[k];
    StrsPrefixAt(ts, j + 1, |ts|, |Strs(ts, j)| + k);
  }

  /** The block after one more text has been copied. */
  lemma StrsAppend(b: string, img: string, ts: seq<string>, j: nat, t: string, r: nat)
    requires j < |ts| && t == ts[j]
    requires b == img + Strs(ts, j) + (t + ['\0']) + Zeros(r)
    ensures b == img + Strs(ts, j + 1) + Zeros(r)
  {
    StrsStep(ts, j + 1);
    AppendAssoc(img, Strs(ts, j), ts[j] + ['\0']);
  }

  /** A run of texts only grows as texts are added. */
  lemma {:induction false} StrsPrefixLen(ts: seq<string>, j: nat, j': nat)
    requires j <= j' <= |ts|
    ensures |Strs(ts, j)| <= |Strs(ts, j')|
    decreases j'
  {
    if j < j' {
      StrsPrefixLen(ts, j, j' - 1);
      StrsStep(ts, j');
    }
  }

  /** Copy one text and its terminator at the cursor.  The C block comes
      from `malloc` and its bytes past the cursor are unspecified; the model
      keeps them zero, only so that the image of the whole block can be
      stated as one sequence. */
  method PutText(block: array<char>, ghost img: string, cursor: nat, t: string) returns (next: nat)
    requires |img| == cursor && cursor + |t| < block.Length
    requires block[..] == img + Zeros(block.Length - cursor)
    modifies block
    ensures next == cursor + |t| + 1
    ensures block[..] == img + (t + ['\0']) + Zeros(block.Length - next)
  {
    ghost var rest := block.Length - cursor - |t|;
    ZerosSplit(|t|, rest);
    AppendAssoc(img, Zeros(|t|), Zeros(rest));
    Memcpy(block, cursor, t);
    assert block[..] == img + t + Zeros(rest);
    block[cursor + |t|] := '\0';
    next := cursor + |t| + 1;
    ZerosSplit(1, rest - 1);
    assert block[..] == img + t + ['\0'] + Zeros(rest - 1);
    AppendAssoc(img, t, ['\0']);
  }
}
