/** Every string literal of section 7 of RFC 8259 is read, whoever wrote it: any choice of escapes
    and of the case of hex digits. */
module Literals {
  import opened Bytes
  import opened Utf
  import opened Strings

  /** The two-byte escapes by their letter. */
  const SHORTS: map<byte, byte> := map[34 := 34, 92 := 92, 47 := 47, 98 := 8, 102 := 12, 110 := 10, 114 := 13, 116 := 9]

  const LOWER: seq<byte> := [48, 49, 50, 51, 52, 53, 54, 55, 56, 57, 97, 98, 99, 100, 101, 102]
  const UPPER: seq<byte> := [48, 49, 50, 51, 52, 53, 54, 55, 56, 57, 65, 66, 67, 68, 69, 70]

  /** `b` is the hex digit of value `d`, in either case. */
  predicate IsDigitOf(b: byte, d: int) { 0 <= d < 16 && (b == LOWER[d] || b == UPPER[d]) }

  predicate Spelt(digits: seq<byte>, u: nat) {
    && |digits| == 4 && IsDigitOf(digits[0], u / 4096) && IsDigitOf(digits[1], u / 256 % 16)
    && IsDigitOf(digits[2], u / 16 % 16) && IsDigitOf(digits[3], u % 16)
  }

  /** One character of a literal: as itself, as a two-byte escape, as the escape of a code point, or
      as the escapes of a surrogate pair. */
  datatype Unit =
    | Self(b: byte)
    | Short(letter: byte)
    | Code(u: nat, digits: seq<byte>, bytes: seq<byte>)
    | Pair(high: nat, highDigits: seq<byte>, low: nat, lowDigits: seq<byte>, bytes: seq<byte>)

  predicate WellFormed(u: Unit) {
    match u
    case Self(b) => b != QUOTE && b != BACKSLASH
    case Short(letter) => letter in SHORTS
    case Code(u, digits, bytes) => Spelt(digits, u) && DecodeUtf8(bytes) == Decoded(u, |bytes|)
    case Pair(high, highDigits, low, lowDigits, bytes) =>
      && Spelt(highDigits, high) && Spelt(lowDigits, low) && 0xD800 <= high <= 0xDBFF && 0xDC00 <= low <= 0xDFFF
      && DecodeUtf8(bytes) == Decoded(0x10000 + (high - 0xD800) * 0x400 + (low - 0xDC00), |bytes|)
  }

  function UnitText(u: Unit): (t: seq<byte>)
    ensures t != []
  {
    match u
    case Self(b) => [b]
    case Short(letter) => [BACKSLASH, letter]
    case Code(_, digits, _) => [BACKSLASH, 117] + digits
    case Pair(_, highDigits, _, lowDigits, _) => ([BACKSLASH, 117] + highDigits) + ([BACKSLASH, 117] + lowDigits)
  }

  function UnitBytes(u: Unit): seq<byte>
    requires WellFormed(u)
  {
    match u
    case Self(b) => [b]
    case Short(letter) => [SHORTS[letter]]
    case Code(_, _, bytes) => bytes
    case Pair(_, _, _, _, bytes) => bytes
  }

  predicate AllWellFormed(us: seq<Unit>) { forall i :: 0 <= i < |us| ==> WellFormed(us[i]) }

  function UnitsText(us: seq<Unit>): seq<byte> { if us == [] then [] else UnitText(us[0]) + UnitsText(us[1..]) }

  function UnitsBytes(us: seq<Unit>): seq<byte>
    requires AllWellFormed(us)
  {
    if us == [] then [] else UnitBytes(us[0]) + UnitsBytes(us[1..])
  }

  // ---------- digits and code points ----------

  lemma DigitValue(b: byte, d: int)
    requires IsDigitOf(b, d)
    ensures HexDigit(b) == d && b != QUOTE && b != BACKSLASH
  {
  }

  lemma SpeltValue(digits: seq<byte>, u: nat)
    requires Spelt(digits, u)
    ensures Hex4(digits) == u
  {
    hide HexDigit, IsDigitOf;
    DigitValue(digits[0], u / 4096);
    DigitValue(digits[1], u / 256 % 16);
    DigitValue(digits[2], u / 16 % 16);
    DigitValue(digits[3], u % 16);
    assert forall i :: 0 <= i < 4 ==> HexDigit(digits[i]) >= 0;
    FourBitGroups(u);
  }

  lemma FourBitGroups(u: nat)
    ensures u == u / 4096 * 4096 + u / 256 % 16 * 256 + u / 16 % 16 * 16 + u % 16
  {
    assert u / 16 / 16 == u / 256 && u / 256 / 16 == u / 4096;
  }

  /** A code point has one UTF-8 form. */
  lemma Utf8Only(s: seq<byte>, cp: nat)
    requires DecodeUtf8(s) == Decoded(cp, |s|)
    ensures cp <= 0x10FFFF && !IsHighSurrogate(cp) && !IsLowSurrogate(cp) && s == Utf8(cp)
  {
    if |s| == 2 {
      var a: int, b: int := s[0], s[1];
      SixBits(a - 0xC0, b - 0x80);
    } else if |s| == 3 {
      var a: int, b: int, d: int := s[0], s[1], s[2];
      TwelveBits(a - 0xE0, b - 0x80, d - 0x80);
    } else if |s| == 4 {
      var a: int, b: int, d: int, f: int := s[0], s[1], s[2], s[3];
      TwelveBits((a - 0xF0) * 64 + (b - 0x80), d - 0x80, f - 0x80);
      SixBits(a - 0xF0, b - 0x80);
      Shifts(cp);
    }
  }

  lemma TwelveBits(a: int, b: int, d: int)
    requires 0 <= a && 0 <= b < 64 && 0 <= d < 64
    ensures var n := a * 4096 + b * 64 + d; n / 4096 == a && n / 64 % 64 == b && n % 64 == d
  {
    SixBits(a * 64 + b, d);
    SixBits(a, b);
    Shifts(a * 4096 + b * 64 + d);
  }

  lemma Shifts(n: nat)
    ensures n / 64 / 64 == n / 4096 && n / 4096 / 64 == n / 262144
  {
  }

  lemma SixBits(q: int, r: int)
    requires 0 <= q && 0 <= r < 64
    ensures (q * 64 + r) / 64 == q && (q * 64 + r) % 64 == r
  {
  }

  // ---------- one unit ----------

  /** The bytes of a `\u` escape. */
  lemma EscapeAt(c: seq<byte>, p: nat, digits: seq<byte>, u: nat)
    requires At(c, p, [BACKSLASH, 117] + digits) && Spelt(digits, u)
    ensures p + 6 <= |c| && c[p] == BACKSLASH && c[p + 1] == 117 && c[p + 2..p + 6] == digits
    ensures FindClose(c, p) == FindClose(c, p + 6)
  {
    hide At, IsDigitOf;
    AtAppend(c, p, [BACKSLASH, 117], digits);
    AtIndex(c, p, [BACKSLASH, 117], 0);
    AtIndex(c, p, [BACKSLASH, 117], 1);
    AtIs(c, p + 2, digits);
    DigitValue(digits[0], u / 4096);
    DigitValue(digits[1], u / 256 % 16);
    DigitValue(digits[2], u / 16 % 16);
    DigitValue(digits[3], u % 16);
    AtIndex(c, p + 2, digits, 0);
    AtIndex(c, p + 2, digits, 1);
    AtIndex(c, p + 2, digits, 2);
    AtIndex(c, p + 2, digits, 3);
    assert FindClose(c, p + 2) == FindClose(c, p + 3) == FindClose(c, p + 4) == FindClose(c, p + 5) == FindClose(c, p + 6);
  }

  /** The first pass steps over it. */
  lemma UnitCloses(c: seq<byte>, p: nat, u: Unit)
    requires At(c, p, UnitText(u)) && WellFormed(u)
    ensures p + |UnitText(u)| <= |c| && FindClose(c, p) == FindClose(c, p + |UnitText(u)|)
  {
    hide At, Spelt, DecodeUtf8;
    AtIndex(c, p, UnitText(u), 0);
    match u
    case Self(b) =>
    case Short(letter) => AtIndex(c, p, UnitText(u), 1);
    case Code(n, digits, _) => EscapeAt(c, p, digits, n); SpeltLength(digits, n);
    case Pair(high, highDigits, low, lowDigits, _) =>
      SpeltLength(highDigits, high);
      SpeltLength(lowDigits, low);
      AtAppend(c, p, [BACKSLASH, 117] + highDigits, [BACKSLASH, 117] + lowDigits);
      EscapeAt(c, p, highDigits, high);
      EscapeAt(c, p + 6, lowDigits, low);
  }

  lemma SpeltLength(digits: seq<byte>, u: nat)
    requires Spelt(digits, u)
    ensures |digits| == 4
  {
  }

  /** The second pass reads it. */
  lemma UnitReads(c: seq<byte>, p: nat, u: Unit, e: nat)
    requires At(c, p, UnitText(u)) && WellFormed(u) && p + |UnitText(u)| <= e < |c|
    ensures UnescapeStep(c, p, e) == Literal(|UnitText(u)|, UnitBytes(u))
  {
    hide At, Spelt, DecodeUtf8, Utf8, Hex4;
    AtIndex(c, p, UnitText(u), 0);
    match u
    case Self(b) =>
    case Short(letter) => AtIndex(c, p, UnitText(u), 1);
    case Code(n, digits, bytes) =>
      SpeltLength(digits, n);
      EscapeAt(c, p, digits, n);
      SpeltValue(digits, n);
      Utf8Only(bytes, n);
    case Pair(high, highDigits, low, lowDigits, bytes) =>
      SpeltLength(highDigits, high);
      SpeltLength(lowDigits, low);
      AtAppend(c, p, [BACKSLASH, 117] + highDigits, [BACKSLASH, 117] + lowDigits);
      EscapeAt(c, p, highDigits, high);
      EscapeAt(c, p + 6, lowDigits, low);
      SpeltValue(highDigits, high);
      SpeltValue(lowDigits, low);
      PairRange(high, low);
      Utf8Only(bytes, PairCodePoint(high, low));
  }

  // ---------- literals ----------

  lemma {:induction false} UnitsClose(c: seq<byte>, p: nat, us: seq<Unit>)
    requires At(c, p, UnitsText(us)) && AllWellFormed(us)
    ensures p + |UnitsText(us)| <= |c| && FindClose(c, p) == FindClose(c, p + |UnitsText(us)|)
    decreases |us|
  {
    hide UnitText, WellFormed, FindClose;
    if us != [] {
      AtAppend(c, p, UnitText(us[0]), UnitsText(us[1..]));
      UnitCloses(c, p, us[0]);
      UnitsClose(c, p + |UnitText(us[0])|, us[1..]);
    }
  }

  /** Up to what stands at the end of the units, whatever it is. */
  lemma {:induction false} UnitsRead(c: seq<byte>, p: nat, us: seq<Unit>, e: nat)
    requires At(c, p, UnitsText(us)) && AllWellFormed(us) && p + |UnitsText(us)| <= e < |c|
    ensures Unescape(c, p, e) == Prepend(UnitsBytes(us), Unescape(c, p + |UnitsText(us)|, e))
    decreases |us|
  {
    hide At, UnitText, UnitBytes, WellFormed, UnescapeStep;
    if us == [] {
      NothingBefore(Unescape(c, p, e));
    } else {
      AtAppend(c, p, UnitText(us[0]), UnitsText(us[1..]));
      UnitReads(c, p, us[0], e);
      UnitsRead(c, p + |UnitText(us[0])|, us[1..], e);
      PrependTwice(UnitBytes(us[0]), UnitsBytes(us[1..]), Unescape(c, p + |UnitsText(us)|, e));
    }
  }

  lemma NothingBefore(r: Unescaped)
    ensures Prepend([], r) == r
  {
  }

  lemma PrependTwice(s: seq<byte>, t: seq<byte>, r: Unescaped)
    ensures Prepend(s, Prepend(t, r)) == Prepend(s + t, r)
  {
    if r.Unescaped? {
      Regroup(s, t, r.bytes);
    }
  }

  /** For every literal, wherever it stands in a buffer: the string it denotes, up to the first
      U+0000, and parsing goes on behind its quote. */
  lemma LiteralReads(c: seq<byte>, o: nat, us: seq<Unit>)
    requires AllWellFormed(us) && At(c, o, [QUOTE] + (UnitsText(us) + [QUOTE]))
    ensures ReadString(c, o) == StringRead(CStr(UnitsBytes(us)), o + |UnitsText(us)| + 2)
  {
    hide At, UnitsText, UnitsBytes, CStr, AllWellFormed, Unescape, FindClose;
    var e := o + 1 + |UnitsText(us)|;
    AtAppend(c, o, [QUOTE], UnitsText(us) + [QUOTE]);
    AtAppend(c, o + 1, UnitsText(us), [QUOTE]);
    AtIndex(c, o, [QUOTE], 0);
    AtIndex(c, e, [QUOTE], 0);
    UnitsClose(c, o + 1, us);
    UnitsRead(c, o + 1, us, e);
    AtClose(c, e);
    assert UnitsBytes(us) + [] == UnitsBytes(us);
  }

  lemma AtClose(c: seq<byte>, e: nat)
    requires e < |c| && c[e] == QUOTE
    ensures FindClose(c, e) == Close(e) && Unescape(c, e, e) == Unescaped([])
  {
  }

  /** An escape that is none of RFC 8259: an unknown letter, `\u` too close to the end, a low
      surrogate that comes first, or a high one without a low one behind it. */
  predicate Broken(c: seq<byte>, p: nat, e: nat, u: nat, v: nat)
    requires p < e < |c|
  {
    && c[p] == BACKSLASH
    && if c[p + 1] != 117 then c[p + 1] !in SHORTS
       else
         || e < p + 6
         || (Spelt(c[p + 2..p + 6], u) && 0xDC00 <= u <= 0xDFFF)
         || (Spelt(c[p + 2..p + 6], u) && 0xD800 <= u <= 0xDBFF
             && (e < p + 12 || c[p + 6] != BACKSLASH || c[p + 7] != 117
                 || (Spelt(c[p + 8..p + 12], v) && !(0xDC00 <= v <= 0xDFFF))))
  }

  lemma BrokenStops(c: seq<byte>, p: nat, e: nat, u: nat, v: nat)
    requires p < e < |c| && Broken(c, p, e, u, v)
    ensures UnescapeStep(c, p, e).length == 0
  {
    hide Spelt, Hex4, Utf8;
    if c[p + 1] == 117 && p + 6 <= e {
      SpeltValue(c[p + 2..p + 6], u);
      if p + 12 <= e && Spelt(c[p + 8..p + 12], v) {
        SpeltValue(c[p + 8..p + 12], v);
      }
    }
  }

  /** And such an escape behind any characters refuses the literal, at the escape. */
  lemma BrokenRefused(c: seq<byte>, o: nat, us: seq<Unit>, e: nat, u: nat, v: nat)
    requires o < |c| && c[o] == QUOTE && FindClose(c, o + 1) == Close(e)
    requires AllWellFormed(us) && At(c, o + 1, UnitsText(us))
    requires o + 1 + |UnitsText(us)| < e && Broken(c, o + 1 + |UnitsText(us)|, e, u, v)
    ensures ReadString(c, o) == BadString(o + 1 + |UnitsText(us)|)
  {
    hide At, UnitsText, UnitsBytes, CStr, AllWellFormed, FindClose, Broken, UnescapeStep;
    BrokenStops(c, o + 1 + |UnitsText(us)|, e, u, v);
    UnitsRead(c, o + 1, us, e);
  }

  // ---------- what the printer chooses ----------

  /** No control byte stands for itself. */
  predicate Printable(u: Unit) { u.Self? ==> u.b >= 32 }

  /** The printer writes a byte as one of these characters, and no other text for it is shorter; hex
      digits are in lower case. */
  lemma EscapeIsUnit(b: byte) returns (u: Unit)
    ensures WellFormed(u) && Printable(u) && UnitText(u) == EscapeByte(b) && UnitBytes(u) == [b]
    ensures u.Code? ==> forall i :: 0 <= i < 4 ==> u.digits[i] in LOWER
  {
    hide WellFormed, EscapeByte, UnitText, UnitBytes;
    if b == QUOTE || b == BACKSLASH {
      u := ShortChosen(b, b);
    } else if b == 8 {
      u := ShortChosen(b, 98);
    } else if b == 12 {
      u := ShortChosen(b, 102);
    } else if b == NEWLINE {
      u := ShortChosen(b, 110);
    } else if b == RETURN {
      u := ShortChosen(b, 114);
    } else if b == TAB {
      u := ShortChosen(b, 116);
    } else if b < 32 {
      u := CodeChosen(b);
    } else {
      u := SelfChosen(b);
    }
  }

  lemma ShortChosen(b: byte, letter: byte) returns (u: Unit)
    requires (b, letter) in [(34, 34), (92, 92), (8, 98), (12, 102), (10, 110), (13, 114), (9, 116)]
    ensures WellFormed(u) && u.Short? && UnitText(u) == EscapeByte(b) && UnitBytes(u) == [b]
  {
    u := Short(letter);
  }

  lemma SelfChosen(b: byte) returns (u: Unit)
    requires b >= 32 && b != QUOTE && b != BACKSLASH
    ensures WellFormed(u) && u == Self(b) && UnitText(u) == EscapeByte(b) && UnitBytes(u) == [b]
  {
    u := Self(b);
  }

  lemma CodeChosen(b: byte) returns (u: Unit)
    requires b < 32 && b !in {8, 9, 10, 12, 13}
    ensures WellFormed(u) && u.Code? && UnitText(u) == EscapeByte(b) && UnitBytes(u) == [b]
    ensures forall i :: 0 <= i < 4 ==> u.digits[i] in LOWER
  {
    hide LowerHex, EscapeByte, LOWER, Spelt;
    var digits := [ZERO, ZERO, LowerHex(b / 16), LowerHex(b % 16)];
    u := Code(b, digits, [b]);
    ControlSpelt(b, digits);
    EscapedControl(b);
    assert [BACKSLASH, 117] + digits == [BACKSLASH, 117, ZERO, ZERO, LowerHex(b / 16), LowerHex(b % 16)];
  }

  lemma EscapedControl(b: byte)
    requires b < 32 && b !in {8, 9, 10, 12, 13}
    ensures EscapeByte(b) == [BACKSLASH, 117, ZERO, ZERO, LowerHex(b / 16), LowerHex(b % 16)]
  {
  }

  lemma ControlSpelt(b: byte, digits: seq<byte>)
    requires b < 32 && digits == [ZERO, ZERO, LowerHex(b / 16), LowerHex(b % 16)]
    ensures Spelt(digits, b) && forall i :: 0 <= i < 4 ==> digits[i] in LOWER
  {
    hide LowerHex, IsDigitOf, LOWER;
    ControlDigits(b);
    LowerDigit(b / 16);
    LowerDigit(b % 16);
    LowerDigit(0);
  }

  lemma ControlDigits(b: nat)
    requires b < 32
    ensures b / 4096 == 0 && b / 256 % 16 == 0 && b / 16 % 16 == b / 16
  {
  }

  lemma LowerDigit(d: nat)
    requires d < 16
    ensures LowerHex(d) in LOWER && IsDigitOf(LowerHex(d), d) && LowerHex(0) == ZERO
  {
  }

  lemma {:induction false} HighBytes(s: seq<byte>)
    requires forall i :: 0 <= i < |s| ==> s[i] >= 0x80
    ensures Escape(s) == s
    decreases |s|
  {
    if s != [] {
      HighBytes(s[1..]);
    }
  }

  lemma UnitShortest(u: Unit)
    requires WellFormed(u) && Printable(u)
    ensures |Escape(UnitBytes(u))| <= |UnitText(u)|
  {
    hide Spelt;
    var s := UnitBytes(u);
    if u.Code? {
      SpeltLength(u.digits, u.u);
    }
    if |s| == 1 {
      assert s[1..] == [] && Escape([]) == [];
      assert Escape(s) == EscapeByte(s[0]) + [];
    } else if u.Code? || u.Pair? {
      HighBytes(s);
    }
  }

  /** For every literal without raw control bytes: printing the string it denotes takes no more bytes. */
  lemma {:induction false} PrintedShortest(us: seq<Unit>)
    requires AllWellFormed(us) && forall i :: 0 <= i < |us| ==> Printable(us[i])
    ensures |Escape(UnitsBytes(us))| <= |UnitsText(us)|
    decreases |us|
  {
    hide WellFormed, Printable, UnitBytes, UnitText, Escape;
    if us == [] {
      NothingEscaped();
    } else {
      UnitShortest(us[0]);
      PrintedShortest(us[1..]);
      EscapeAppend(UnitBytes(us[0]), UnitsBytes(us[1..]));
    }
  }

  lemma NothingEscaped()
    ensures Escape([]) == []
  {
  }
}
