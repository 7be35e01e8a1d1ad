/** `preg_escape` (src/regutils.c:389-428): copy a text, putting a backslash
    before every byte that is special in the chosen notation.  The special
    sets are those of POSIX basic and extended regular expressions (IEEE Std
    1003.1-2017, XBD sections 9.3.3 and 9.4.3). */
module Escape {
  import opened RegTypes

  /** `Preg_notation`: PREG_ERE = 0, PREG_BRE = 1. */
  datatype Notation = ERE | BRE

  /** The bytes of `bre_specials` ("^$.[*\\") and `ere_specials`
      ("^$.[()|*+?{\\"). */
  const BRE_SPECIALS: set<char> := {'^', '$', '.', '[', '*', '\\'}
  const ERE_SPECIALS: set<char> := {'^', '$', '.', '[', '(', ')', '|', '*', '+', '?', '{', '\\'}

  function Specials(nota: Notation): set<char>
  {
    match nota
    case BRE => BRE_SPECIALS
    case ERE => ERE_SPECIALS
  }

  /** `strchr(special_char, c) != NULL`: `strchr` also finds the string's
      terminator, so the NUL byte counts as special. */
  predicate IsSpecial(c: char, nota: Notation)
  {
    c in Specials(nota) || c == '\0'
  }

  /** The output for one input byte. */
  function EscapeByte(c: char, nota: Notation): string
  {
    if IsSpecial(c, nota) then ['\\', c] else [c]
  }

  /** The escaped text: every byte in order, each special one preceded by
      one backslash. */
  function Escaped(s: string, nota: Notation): string
  {
    if s == [] then [] else EscapeByte(s[0], nota) + Escaped(s[1..], nota)
  }

  /** Number of special bytes of `s`. */
  function CountSpecial(s: string, nota: Notation): nat
  {
    if s == [] then 0 else (if IsSpecial(s[0], nota) then 1 else 0) + CountSpecial(s[1..], nota)
  }

  /** Reading an escaped text back: a backslash stands for the byte after
      it. */
  function Unescape(t: string): string
  {
    if t == [] then []
    else if t[0] == '\\' && |t| >= 2 then [t[1]] + Unescape(t[2..])
    else [t[0]] + Unescape(t[1..])
  }

  /** `strlen`: the offset of the first NUL byte. */
  function StrLen(s: string): (r: nat)
    requires '\0' in s
    ensures r < |s| && s[r] == '\0' && NulFree(s[..r])
  {
    if s[0] == '\0' then 0
    else
      assert '\0' in s[1..] by {
        var k :| 0 <= k < |s| && s[k] == '\0';
        assert s[1..][k - 1] == '\0';
      }
      var r := 1 + StrLen(s[1..]);
      assert s[..r] == [s[0]] + s[1..][..r - 1];
      r
  }

  lemma {:induction false} EscapedAppend(a: string, b: string, nota: Notation)
    ensures Escaped(a + b, nota) == Escaped(a, nota) + Escaped(b, nota)
    ensures CountSpecial(a + b, nota) == CountSpecial(a, nota) + CountSpecial(b, nota)
  {
    if a == [] {
      assert a + b == b;
    } else {
      assert (a + b)[1..] == a[1..] + b;
      EscapedAppend(a[1..], b, nota);
    }
  }

  lemma EscapedSnoc(s: string, i: nat, nota: Notation)
    requires i < |s|
    ensures Escaped(s[..i + 1], nota) == Escaped(s[..i], nota) + EscapeByte(s[i], nota)
    ensures CountSpecial(s[..i + 1], nota)
            == CountSpecial(s[..i], nota) + (if IsSpecial(s[i], nota) then 1 else 0)
  {
    assert s[..i + 1] == s[..i] + [s[i]];
    EscapedAppend(s[..i], [s[i]], nota);
    assert [s[i]][1..] == [];
  }

  /** Output length = input length + number of special bytes. */
  lemma {:induction false} EscapedLength(s: string, nota: Notation)
    ensures |Escaped(s, nota)| == |s| + CountSpecial(s, nota)
  {
    if s != [] {
      EscapedLength(s[1..], nota);
    }
  }

  /** Deleting the inserted backslashes gives back the input. */
  lemma {:induction false} UnescapeEscaped(s: string, nota: Notation)
    ensures Unescape(Escaped(s, nota)) == s
  {
    if s != [] {
      var rest := Escaped(s[1..], nota);
      UnescapeEscaped(s[1..], nota);
      if IsSpecial(s[0], nota) {
        assert Escaped(s, nota) == ['\\', s[0]] + rest;
        assert (['\\', s[0]] + rest)[2..] == rest;
      } else {
        assert s[0] != '\\';
        assert Escaped(s, nota) == [s[0]] + rest;
        assert ([s[0]] + rest)[1..] == rest;
      }
    }
  }

  /** The escaped text contains every input byte, in order, at the
      position that follows its escaped prefix; a special byte is preceded
      there by exactly one backslash. */
  lemma EscapedAt(s: string, i: nat, nota: Notation)
    requires i < |s|
    ensures var p := |Escaped(s[..i], nota)|;
            var e := Escaped(s, nota);
            if IsSpecial(s[i], nota)
            then p + 1 < |e| && e[p] == '\\' && e[p + 1] == s[i]
            else p < |e| && e[p] == s[i]
  {
    assert s == s[..i] + s[i..];
    EscapedAppend(s[..i], s[i..], nota);
    assert s[i..][1..] == s[i + 1..];
    assert Escaped(s[i..], nota) == EscapeByte(s[i], nota) + Escaped(s[i + 1..], nota);
  }

  /** With an explicit length a NUL byte is escaped too. */
  lemma NulIsEscaped(nota: Notation)
    ensures Escaped("a\0", nota) == "a\\\0"
  {
    assert !IsSpecial('a', nota);
    assert Escaped("\0", nota) == "\\\0" + Escaped([], nota);
    assert "a\0"[1..] == "\0";
  }

  /** `preg_escape("Mr. Smith", PREG_ERE, -1)` gives `Mr\. Smith`. */
  lemma MrSmithEscaped()
    ensures Escaped("Mr. Smith", ERE) == "Mr\\. Smith"
  {
    MrSmithParts();
    MrSmithSplit();
  }

  lemma MrSmithParts()
    ensures Escaped("Mr" + ("." + " Smith"), ERE) == "Mr" + ("\\." + " Smith")
  {
    PlainUnchanged("Mr", ERE);
    PlainUnchanged(" Smith", ERE);
    EscapedAppend("Mr", "." + " Smith", ERE);
    EscapedAppend(".", " Smith", ERE);
    assert Escaped(".", ERE) == "\\." + Escaped([], ERE);
  }

  lemma MrSmithSplit()
    ensures "Mr. Smith" == "Mr" + ("." + " Smith")
    ensures "Mr\\. Smith" == "Mr" + ("\\." + " Smith")
  {
  }

  /** A text without special bytes is its own escape. */
  lemma {:induction false} PlainUnchanged(s: string, nota: Notation)
    requires forall k :: 0 <= k < |s| ==> !IsSpecial(s[k], nota)
    ensures Escaped(s, nota) == s
    ensures CountSpecial(s, nota) == 0
  {
    if s != [] {
      PlainUnchanged(s[1..], nota);
      assert s == [s[0]] + s[1..];
    }
  }

  /** `preg_escape("^.*", PREG_BRE, 3)` gives `\^\.\*`. */
  lemma CaretDotStar()
    ensures Escaped("^.*", BRE) == "\\^\\.\\*"
  {
    assert IsSpecial('^', BRE) && IsSpecial('.', BRE) && IsSpecial('*', BRE);
    assert "^.*"[1..] == ".*" && ".*"[1..] == "*" && "*"[1..] == [];
  }

  /** `preg_escape(str, nota, len)`: `str` is the memory the caller passes;
      `len == SIZE_MAX` (the caller's `-1`) means "up to the terminator".
      The result is NULL when `malloc` fails, otherwise a fresh buffer
      holding the escaped text and a terminator. */
  method PregEscape(str: string, nota: Notation, len: nat, canAlloc: nat -> bool)
    returns (res: array?<char>, outLen: nat)
    requires len == SIZE_MAX ==> '\0' in str
    requires len != SIZE_MAX ==> len <= |str|
    ensures outLen == |Source(str, len)| + CountSpecial(Source(str, len), nota)
    ensures res != null <==> canAlloc(outLen + 1)
    ensures res != null ==> && fresh(res) && res.Length == outLen + 1
                            && res[..outLen] == Escaped(Source(str, len), nota)
                            && res[outLen] == '\0'
  {
    var l := len;
    if l == SIZE_MAX {
      l := StrLen(str);
    }
    ghost var text := str[..l];
    assert text == Source(str, len);

    var nlen := CountEscaped(str, l, nota);
    outLen := nlen;
    if !canAlloc(nlen + 1) {
      return null, outLen;
    }

    res := new char[nlen + 1];
    var index := 0;
    for i := 0 to l
      invariant index == i + CountSpecial(str[..i], nota) <= nlen
      invariant res[..index] == Escaped(str[..i], nota)
    {
      CountUpTo(str, i + 1, l, nota);
      index := PutEscaped(res, str, i, index, nota);
    }
    assert str[..l] == text;
    res[index] := '\0';
    assert res[..outLen] == Escaped(text, nota);
  }

  /** The bytes `preg_escape` reads: `len` of them, or those before the
      terminator when `len` is -1. */
  function Source(str: string, len: nat): string
    requires len == SIZE_MAX ==> '\0' in str
    requires len != SIZE_MAX ==> len <= |str|
  {
    if len == SIZE_MAX then str[..StrLen(str)] else str[..len]
  }

  /** The sizing loop of `preg_escape`: one byte per input byte, one more
      per special byte. */
  method CountEscaped(str: string, l: nat, nota: Notation) returns (nlen: nat)
    requires l <= |str|
    ensures nlen == l + CountSpecial(str[..l], nota)
  {
    nlen := 0;
    for i := 0 to l
      invariant nlen == i + CountSpecial(str[..i], nota)
    {
      EscapedSnoc(str, i, nota);
      if IsSpecial(str[i], nota) {
        nlen := nlen + 1;
      }
      nlen := nlen + 1;
    }
  }

  /** One turn of the copying loop: the byte, after a backslash when it is
      special. */
  method PutEscaped(res: array<char>, str: string, i: nat, index: nat, nota: Notation) returns (index': nat)
    requires i < |str| && index == i + CountSpecial(str[..i], nota)
    requires i + 1 + CountSpecial(str[..i + 1], nota) <= res.Length
    requires index <= res.Length && res[..index] == Escaped(str[..i], nota)
    modifies res
    ensures index' == i + 1 + CountSpecial(str[..i + 1], nota)
    ensures res[..index'] == Escaped(str[..i + 1], nota)
  {
    EscapedSnoc(str, i, nota);
    index' := index;
    if IsSpecial(str[i], nota) {
      res[index'] := '\\';
      index' := index' + 1;
    }
    res[index'] := str[i];
    index' := index' + 1;
    assert res[..index'] == res[..index] + EscapeByte(str[i], nota);
  }

  /** The special count of a prefix is at most that of a longer prefix. */
  lemma CountUpTo(s: string, i: nat, l: nat, nota: Notation)
    requires i <= l <= |s|
    ensures i + CountSpecial(s[..i], nota) <= l + CountSpecial(s[..l], nota)
  {
    assert s[..l] == s[..i] + s[i..l];
    EscapedAppend(s[..i], s[i..l], nota);
  }
}
