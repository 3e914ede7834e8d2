/** The `\uXXXX` escapes of a JSON string (section 7 of RFC 8259): four hex digits, surrogate
    pairs (section 2.2 of RFC 2781) and their UTF-8 form (section 3 of RFC 3629). */
module Utf {
  import opened Bytes

  /** The value of a hex digit, -1 for any other byte. */
  function HexDigit(b: byte): (h: int)
    ensures -1 <= h < 16
  {
    if 48 <= b <= 57 then b - 48
    else if 65 <= b <= 70 then 10 + b - 65
    else if 97 <= b <= 102 then 10 + b - 97
    else -1
  }

  predicate IsHex4(s: seq<byte>) {
    |s| == 4 && forall i :: 0 <= i < 4 ==> HexDigit(s[i]) >= 0
  }

  /** What `parse_hex4` returns: the value of four hex digits, 0 if one of them is not a digit. */
  function Hex4(s: seq<byte>): (h: nat)
    requires |s| == 4
    ensures h < 0x10000
  {
    if IsHex4(s) then
      HexDigit(s[0]) * 4096 + HexDigit(s[1]) * 256 + HexDigit(s[2]) * 16 + HexDigit(s[3])
    else 0
  }

  function HexPrefix(s: seq<byte>): int {
    if s == [] then 0 else 16 * HexPrefix(s[..|s| - 1]) + HexDigit(s[|s| - 1])
  }

  method ParseHex4(input: seq<byte>, at: nat) returns (h: nat)
    requires at + 4 <= |input|
    ensures h == Hex4(input[at..at + 4])
  {
    ghost var s := input[at..at + 4];
    h := 0;
    var i := 0;
    while i < 4
      invariant 0 <= i <= 4
      invariant forall k :: 0 <= k < i ==> HexDigit(s[k]) >= 0
      invariant h == (if i == 0 || i == 4 then 1 else 16) * HexPrefix(s[..i])
    {
      assert s[i] == input[at + i] && s[..i + 1][..i] == s[..i];
      var b := input[at + i];
      if 48 <= b <= 57 {
        h := h + b - 48;
      } else if 65 <= b <= 70 {
        h := h + 10 + b - 65;
      } else if 97 <= b <= 102 {
        h := h + 10 + b - 97;
      } else {
        return 0;
      }
      if i < 3 {
        h := h * 16;
      }
      i := i + 1;
    }
    assert s[..4][..3] == s[..3] && s[..3][..2] == s[..2] && s[..2][..1] == s[..1] && s[..1][..0] == [];
    assert HexPrefix(s[..1]) == HexDigit(s[0]);
    assert HexPrefix(s[..2]) == 16 * HexDigit(s[0]) + HexDigit(s[1]);
  }

  predicate IsHighSurrogate(u: nat) { 0xD800 <= u <= 0xDBFF }
  predicate IsLowSurrogate(u: nat) { 0xDC00 <= u <= 0xDFFF }

  /** The code point the code builds from a pair: ten bits of each unit above 0x10000. */
  function PairCodePoint(first: nat, second: nat): (cp: nat) {
    0x10000 + (first % 0x400) * 0x400 + second % 0x400
  }

  /** The mask-and-shift form in the C code is this arithmetic. */
  lemma PairBits(first: bv32, second: bv32)
    requires first < 0x10000 && second < 0x10000
    ensures (((first & 0x3FF) << 10) | (second & 0x3FF)) == (first % 0x400) * 0x400 + second % 0x400
  {
  }

  function Utf8Length(cp: nat): (n: nat)
    requires cp <= 0x10FFFF
  {
    if cp < 0x80 then 1 else if cp < 0x800 then 2 else if cp < 0x10000 then 3 else 4
  }

  function FirstByteMark(n: nat): (mark: byte)
  {
    if n == 2 then 0xC0 else if n == 3 then 0xE0 else if n == 4 then 0xF0 else 0
  }

  /** UTF-8 with the six low bits of the code point in the last byte, and so on upwards. */
  function Utf8(cp: nat): (s: seq<byte>)
    requires cp <= 0x10FFFF
    ensures |s| == Utf8Length(cp)
  {
    if cp < 0x80 then [cp]
    else if cp < 0x800 then [0xC0 + cp / 64, 0x80 + cp % 64]
    else if cp < 0x10000 then [0xE0 + cp / 4096, 0x80 + cp / 64 % 64, 0x80 + cp % 64]
    else [0xF0 + cp / 262144, 0x80 + cp / 4096 % 64, 0x80 + cp / 64 % 64, 0x80 + cp % 64]
  }

  /** One continuation byte and one shift, as the encoding loop writes them. */
  lemma ContinuationBits(cp: bv32)
    ensures ((cp | 0x80) & 0xBF) & 0xFF == 0x80 + cp % 64
    ensures cp >> 6 == cp / 64
  {
  }

  predicate IsContinuation(b: byte) { 0x80 <= b < 0xC0 }

  datatype Decoded = Decoded(cp: nat, length: nat) | Malformed

  /** A decoder after the table in section 3 of RFC 3629, written without the encoder:
      it refuses overlong forms, surrogates and values past 0x10FFFF. */
  function DecodeUtf8(s: seq<byte>): Decoded {
    if |s| >= 1 && s[0] < 0x80 then Decoded(s[0], 1)
    else if |s| >= 2 && 0xC2 <= s[0] < 0xE0 && IsContinuation(s[1]) then
      var a: int, b: int := s[0], s[1];
      Decoded((a - 0xC0) * 64 + (b - 0x80), 2)
    else if |s| >= 3 && 0xE0 <= s[0] < 0xF0 && IsContinuation(s[1]) && IsContinuation(s[2]) then
      var a: int, b: int, d: int := s[0], s[1], s[2];
      var cp := (a - 0xE0) * 4096 + (b - 0x80) * 64 + (d - 0x80);
      if cp < 0x800 || 0xD800 <= cp <= 0xDFFF then Malformed else Decoded(cp, 3)
    else if |s| >= 4 && 0xF0 <= s[0] < 0xF5 && IsContinuation(s[1]) && IsContinuation(s[2]) && IsContinuation(s[3]) then
      var a: int, b: int, d: int, f: int := s[0], s[1], s[2], s[3];
      var cp := (a - 0xF0) * 262144 + (b - 0x80) * 4096 + (d - 0x80) * 64 + (f - 0x80);
      if cp < 0x10000 || cp > 0x10FFFF then Malformed else Decoded(cp, 4)
    else Malformed
  }

  /** Every Unicode scalar value survives encoding, whatever bytes follow it. */
  lemma Utf8RoundTrip(cp: nat, tail: seq<byte>)
    requires cp <= 0x10FFFF && !IsHighSurrogate(cp) && !IsLowSurrogate(cp)
    ensures DecodeUtf8(Utf8(cp) + tail) == Decoded(cp, |Utf8(cp)|)
  {
    var s := Utf8(cp) + tail;
    SixBitGroups(cp);
    if cp < 0x80 {
      assert s[0] == cp;
    } else if cp < 0x800 {
      assert s[0] == 0xC0 + cp / 64 && s[1] == 0x80 + cp % 64;
    } else if cp < 0x10000 {
      assert s[0] == 0xE0 + cp / 4096 && s[1] == 0x80 + cp / 64 % 64 && s[2] == 0x80 + cp % 64;
    } else {
      assert s[0] == 0xF0 + cp / 262144 && s[1] == 0x80 + cp / 4096 % 64;
      assert s[2] == 0x80 + cp / 64 % 64 && s[3] == 0x80 + cp % 64;
    }
  }

  lemma SixBitGroups(cp: nat)
    ensures cp == cp / 64 * 64 + cp % 64
    ensures cp / 64 == cp / 4096 * 64 + cp / 64 % 64
    ensures cp / 4096 == cp / 262144 * 64 + cp / 4096 % 64
    ensures cp % 64 < 64 && cp / 64 % 64 < 64 && cp / 4096 % 64 < 64
  {
  }

  /** What `utf16_literal_to_utf8` does with the escape at `p`, the closing quote being at `e`:
      the number of bytes read (0 for a failure) and the bytes written. */
  datatype Literal = Literal(length: nat, output: seq<byte>)

  function Utf16Literal(c: seq<byte>, p: nat, e: nat): (r: Literal)
    requires p <= e < |c|
    ensures r.length == 0 || (r.length == 6 && |r.output| <= 3) || (r.length == 12 && |r.output| <= 4)
    ensures r.length == 0 ==> r.output == []
    ensures p + r.length <= e
  {
    if e - p < 6 then Literal(0, [])
    else
      var first := Hex4(c[p + 2..p + 6]);
      if IsLowSurrogate(first) then Literal(0, [])
      else if IsHighSurrogate(first) then
        if e - (p + 6) < 6 || c[p + 6] != BACKSLASH || c[p + 7] != 117 then Literal(0, [])
        else
          var second := Hex4(c[p + 8..p + 12]);
          if !IsLowSurrogate(second) then Literal(0, [])
          else Literal(12, Utf8(PairCodePoint(first, second)))
      else Literal(6, Utf8(first))
  }

  /** The encoding loop: continuation bytes from the last one down, then the first byte. */
  method EncodeUtf8(full: nat, output: array<byte>, at: nat) returns (at': nat)
    requires full <= 0x10FFFF && at + |Utf8(full)| <= output.Length
    modifies output
    ensures at' == at + |Utf8(full)|
    ensures output[..at] == old(output[..at])
    ensures output[at..at'] == Utf8(full)
  {
    var n := Utf8Length(full);
    var cp := full;
    var i := n - 1;
    while i > 0
      invariant 0 <= i < n
      invariant cp == (if i == n - 1 then full else if i == n - 2 then full / 64
                       else if i == n - 3 then full / 4096 else full / 262144)
      invariant output[..at] == old(output[..at])
      invariant forall k :: i < k < n ==> output[at + k] == Utf8(full)[k]
    {
      output[at + i] := 0x80 + cp % 64;
      cp := cp / 64;
      i := i - 1;
    }
    output[at] := FirstByteMark(n) + cp;
    at' := at + n;
    assert output[at..at'] == Utf8(full);
  }

  method Utf16LiteralToUtf8(c: seq<byte>, p: nat, e: nat, output: array<byte>, at: nat)
    returns (length: nat, at': nat)
    requires p <= e < |c|
    requires at + |Utf16Literal(c, p, e).output| <= output.Length
    modifies output
    ensures length == Utf16Literal(c, p, e).length
    ensures at' == at + |Utf16Literal(c, p, e).output|
    ensures output[..at] == old(output[..at])
    ensures output[at..at'] == Utf16Literal(c, p, e).output
  {
    hide Hex4, Utf8, PairCodePoint;
    if e - p < 6 {
      return 0, at;
    }
    var first := ParseHex4(c, p + 2);
    if 0xDC00 <= first <= 0xDFFF {
      return 0, at;
    }
    var cp := first;
    length := 6;
    if 0xD800 <= first <= 0xDBFF {
      if e - (p + 6) < 6 {
        return 0, at;
      }
      if c[p + 6] != BACKSLASH || c[p + 7] != 117 {
        return 0, at;
      }
      var second := ParseHex4(c, p + 8);
      if second < 0xDC00 || second > 0xDFFF {
        return 0, at;
      }
      length := 12;
      PairRange(first, second);
      cp := PairCodePoint(first, second);
    }
    assert Utf16Literal(c, p, e) == Literal(length, Utf8(cp));
    at' := EncodeUtf8(cp, output, at);
  }

  /** On well-formed hex digits the literal is accepted exactly when it denotes a scalar value:
      one unit outside the surrogates, or a high unit followed by the escape of a low unit. */
  lemma Utf16Exact(c: seq<byte>, p: nat, e: nat)
    requires p + 6 <= e < |c|
    requires IsHex4(c[p + 2..p + 6])
    requires p + 12 <= e && c[p + 6] == BACKSLASH && c[p + 7] == 117 ==> IsHex4(c[p + 8..p + 12])
    ensures var r := Utf16Literal(c, p, e); var u := Hex4(c[p + 2..p + 6]);
            var paired := p + 12 <= e && c[p + 6] == BACKSLASH && c[p + 7] == 117 && IsLowSurrogate(Hex4(c[p + 8..p + 12]));
            && (r.length == 6 <==> !IsHighSurrogate(u) && !IsLowSurrogate(u))
            && (r.length == 12 <==> IsHighSurrogate(u) && paired)
            && (r.length == 0 <==> IsLowSurrogate(u) || (IsHighSurrogate(u) && !paired))
            && (r.length == 6 ==> DecodeUtf8(r.output) == Decoded(u, |r.output|))
            && (r.length == 12 ==>
                DecodeUtf8(r.output) ==
                Decoded((u - 0xD800) * 0x400 + (Hex4(c[p + 8..p + 12]) - 0xDC00) + 0x10000, |r.output|))
  {
    var r := Utf16Literal(c, p, e);
    var u := Hex4(c[p + 2..p + 6]);
    assert r.output + [] == r.output;
    if r.length == 6 {
      Utf8RoundTrip(u, []);
    } else if r.length == 12 {
      var second := Hex4(c[p + 8..p + 12]);
      PairDecodes(u, second);
      Utf8RoundTrip(PairCodePoint(u, second), []);
    }
  }

  lemma PairRange(first: nat, second: nat)
    requires IsHighSurrogate(first) && IsLowSurrogate(second)
    ensures PairCodePoint(first, second) == (first - 0xD800) * 0x400 + (second - 0xDC00) + 0x10000
    ensures 0x10000 <= PairCodePoint(first, second) <= 0x10FFFF
  {
    assert first % 0x400 == first - 0xD800 && second % 0x400 == second - 0xDC00;
  }

  /** The pair formula of section 2.2 of RFC 2781, and that its four bytes decode to the code point. */
  lemma PairDecodes(first: nat, second: nat)
    requires IsHighSurrogate(first) && IsLowSurrogate(second)
    ensures PairCodePoint(first, second) == (first - 0xD800) * 0x400 + (second - 0xDC00) + 0x10000
    ensures 0x10000 <= PairCodePoint(first, second) <= 0x10FFFF
    ensures |Utf8(PairCodePoint(first, second))| == 4
    ensures DecodeUtf8(Utf8(PairCodePoint(first, second))) == Decoded(PairCodePoint(first, second), 4)
  {
    hide PairCodePoint, DecodeUtf8;
    PairRange(first, second);
    var s := Utf8(PairCodePoint(first, second));
    assert s + [] == s;
    Utf8RoundTrip(PairCodePoint(first, second), []);
  }
}
