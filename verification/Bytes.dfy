/** Byte strings as the C code sees them: a `char` buffer is a sequence of bytes, a C string
    ends at its first zero byte. */
module Bytes {

  type byte = b: int | 0 <= b < 256

  const TAB: byte := 9
  const NEWLINE: byte := 10
  const RETURN: byte := 13
  const SPACE: byte := 32
  const QUOTE: byte := 34
  const STAR: byte := 42
  const PLUS: byte := 43
  const COMMA: byte := 44
  const MINUS: byte := 45
  const DOT: byte := 46
  const SLASH: byte := 47
  const ZERO: byte := 48
  const COLON: byte := 58
  const LBRACKET: byte := 91
  const BACKSLASH: byte := 92
  const RBRACKET: byte := 93
  const LBRACE: byte := 123
  const RBRACE: byte := 125

  const NULL_TEXT: seq<byte> := [110, 117, 108, 108]
  const TRUE_TEXT: seq<byte> := [116, 114, 117, 101]
  const FALSE_TEXT: seq<byte> := [102, 97, 108, 115, 101]

  const INT_MAX: int := 0x7fff_ffff
  const INT_MIN: int := -0x8000_0000

  predicate IsDigit(b: byte) { ZERO <= b <= 57 }

  /** `s` stands in `c` at position `o`. */
  predicate At(c: seq<byte>, o: nat, s: seq<byte>) {
    o + |s| <= |c| && c[o..o + |s|] == s
  }

  /** No byte of `s` is the C string terminator. */
  predicate NulFree(s: seq<byte>) { forall i :: 0 <= i < |s| ==> s[i] != 0 }

  lemma NulFreeBoth(a: seq<byte>, b: seq<byte>)
    ensures NulFree(a + b) <==> NulFree(a) && NulFree(b)
  {
    if NulFree(a + b) {
      assert forall i :: 0 <= i < |a| ==> a[i] == (a + b)[i];
      assert forall i :: 0 <= i < |b| ==> b[i] == (a + b)[|a| + i];
    }
  }

  /** `strlen`: the number of bytes before the first zero (or before the end). */
  function StrLen(s: seq<byte>): (n: nat)
    ensures n <= |s| && NulFree(s[..n]) && (n < |s| ==> s[n] == 0)
  {
    if |s| == 0 || s[0] == 0 then 0
    else
      var n := 1 + StrLen(s[1..]);
      assert s[..n] == [s[0]] + s[1..][..n - 1];
      n
  }

  /** The C string a buffer holds. */
  function CStr(s: seq<byte>): (r: seq<byte>)
    ensures NulFree(r) && |r| <= |s|
  {
    s[..StrLen(s)]
  }

  lemma {:induction false} StrLenIs(s: seq<byte>, n: nat)
    requires n <= |s| && NulFree(s[..n]) && (n == |s| || s[n] == 0)
    ensures StrLen(s) == n
  {
    if n > 0 {
      assert s[0] == s[..n][0];
      assert s[1..][..n - 1] == s[..n][1..];
      StrLenIs(s[1..], n - 1);
    }
  }

  lemma CStrOfNulFree(s: seq<byte>, tail: seq<byte>)
    requires NulFree(s)
    requires tail == [] || tail[0] == 0
    ensures CStr(s + tail) == s
  {
    assert (s + tail)[..|s|] == s;
    StrLenIs(s + tail, |s|);
  }

  lemma Regroup<T>(a: seq<T>, b: seq<T>, rest: seq<T>)
    ensures (a + b) + rest == a + (b + rest)
  {
  }

  lemma AtAppend(c: seq<byte>, o: nat, s: seq<byte>, t: seq<byte>)
    ensures At(c, o, s + t) <==> At(c, o, s) && At(c, o + |s|, t)
    ensures At(c, o, s + t) ==> o + |s| + |t| <= |c|
  {
    if At(c, o, s + t) {
      assert c[o..o + |s|] == (s + t)[..|s|];
      assert c[o + |s|..o + |s| + |t|] == (s + t)[|s|..];
    }
    if At(c, o, s) && At(c, o + |s|, t) {
      assert c[o..o + |s| + |t|] == c[o..o + |s|] + c[o + |s|..o + |s| + |t|];
    }
  }

  lemma AtIndex(c: seq<byte>, o: nat, s: seq<byte>, i: nat)
    requires At(c, o, s) && i < |s|
    ensures o + |s| <= |c| && c[o + i] == s[i]
  {
    assert c[o..o + |s|][i] == c[o + i];
  }

  lemma AtIs(c: seq<byte>, o: nat, s: seq<byte>)
    requires At(c, o, s)
    ensures o + |s| <= |c| && c[o..o + |s|] == s
  {
  }

  lemma AtWhole(s: seq<byte>)
    ensures At(s, 0, s)
  {
  }
}
