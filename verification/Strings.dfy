/** JSON string literals: what `print_string_ptr` writes, what the two passes of `parse_string`
    read, and why the second pass fits into what the first one allocated. */
module Strings {
  import opened Bytes
  import opened Utf

  // ---------- writing ----------

  function LowerHex(h: nat): (b: byte)
    requires h < 16
  {
    if h < 10 then 48 + h else 87 + h
  }

  /** One byte of a string as it is printed: `\u00xx` for the control bytes without a short form. */
  function EscapeByte(b: byte): (s: seq<byte>)
    ensures |s| == 1 + ExtraBytes(b)
  {
    if b == QUOTE then [BACKSLASH, QUOTE]
    else if b == BACKSLASH then [BACKSLASH, BACKSLASH]
    else if b == 8 then [BACKSLASH, 98]
    else if b == 12 then [BACKSLASH, 102]
    else if b == NEWLINE then [BACKSLASH, 110]
    else if b == RETURN then [BACKSLASH, 114]
    else if b == TAB then [BACKSLASH, 116]
    else if b < 32 then [BACKSLASH, 117, ZERO, ZERO, LowerHex(b / 16), LowerHex(b % 16)]
    else [b]
  }

  /** The first pass of `print_string_ptr`: extra bytes that escaping `b` needs. */
  function ExtraBytes(b: byte): nat {
    if b == QUOTE || b == BACKSLASH || b == 8 || b == 12 || b == NEWLINE || b == RETURN || b == TAB then 1
    else if b < 32 then 5
    else 0
  }

  function Escape(s: seq<byte>): seq<byte> {
    if s == [] then [] else EscapeByte(s[0]) + Escape(s[1..])
  }

  function Extra(s: seq<byte>): nat {
    if s == [] then 0 else ExtraBytes(s[0]) + Extra(s[1..])
  }

  function Quoted(s: seq<byte>): seq<byte> { [QUOTE] + Escape(s) + [QUOTE] }

  /** The first printing pass counts exactly what the copy loop writes. */
  lemma {:induction false} EscapeLength(s: seq<byte>)
    ensures |Escape(s)| == |s| + Extra(s)
  {
    if s != [] {
      EscapeLength(s[1..]);
    }
  }

  lemma {:induction false} EscapeAppend(s: seq<byte>, t: seq<byte>)
    ensures Escape(s + t) == Escape(s) + Escape(t)
    ensures Extra(s + t) == Extra(s) + Extra(t)
  {
    hide EscapeByte;
    if s == [] {
      assert s + t == t;
    } else {
      assert (s + t)[0] == s[0] && (s + t)[1..] == s[1..] + t;
      EscapeAppend(s[1..], t);
      assert Escape(s + t) == EscapeByte(s[0]) + (Escape(s[1..]) + Escape(t));
    }
  }

  lemma OneBackslash()
    ensures Escape([BACKSLASH]) == [BACKSLASH, BACKSLASH]
  {
    assert Escape([]) == [] && [BACKSLASH][1..] == [];
  }

  /** Without escapes the text is the string itself: the branch that uses `memcpy`. */
  lemma {:induction false} EscapeNothing(s: seq<byte>)
    requires Extra(s) == 0
    ensures Escape(s) == s
  {
    if s != [] {
      EscapeNothing(s[1..]);
      assert s == [s[0]] + s[1..];
    }
  }

  /** Printed text never holds a control byte. */
  lemma {:induction false} EscapeVisible(s: seq<byte>)
    ensures forall i :: 0 <= i < |Escape(s)| ==> Escape(s)[i] >= 32
  {
    if s != [] {
      EscapeVisible(s[1..]);
    }
  }

  // ---------- reading: first pass ----------

  datatype Close = Close(at: nat) | NoClose

  /** The first pass from `p`: the position of the closing quote. A backslash takes its
      successor with it; a backslash as the last byte of the buffer is an error. */
  function FindClose(c: seq<byte>, p: nat): (r: Close)
    ensures r.Close? ==> p <= r.at < |c| && c[r.at] == QUOTE
    decreases |c| - p
  {
    if p >= |c| then NoClose
    else if c[p] == QUOTE then Close(p)
    else if c[p] == BACKSLASH then
      if p + 1 >= |c| then NoClose else FindClose(c, p + 2)
    else FindClose(c, p + 1)
  }

  /** `skipped_bytes`: the number of escapes the first pass meets between `p` and the quote. */
  function Skipped(c: seq<byte>, p: nat): (n: nat)
    requires FindClose(c, p).Close?
    ensures 2 * n <= FindClose(c, p).at - p
    decreases |c| - p
  {
    if c[p] == QUOTE then 0
    else if c[p] == BACKSLASH then 1 + Skipped(c, p + 2)
    else Skipped(c, p + 1)
  }

  // ---------- reading: second pass ----------

  datatype Unescaped = Unescaped(bytes: seq<byte>) | BadAt(at: nat)

  function Prepend(s: seq<byte>, r: Unescaped): Unescaped {
    match r
    case Unescaped(t) => Unescaped(s + t)
    case BadAt(at) => r
  }

  /** The byte a two-byte escape stands for, -1 for an escape that is not one of them. */
  function ShortEscape(b: byte): (r: int)
    ensures -1 <= r < 256
  {
    if b == 98 then 8
    else if b == 102 then 12
    else if b == 110 then NEWLINE
    else if b == 114 then RETURN
    else if b == 116 then TAB
    else if b == QUOTE || b == BACKSLASH || b == SLASH then b
    else -1
  }

  /** One turn of the second pass at `p`: the bytes read (0 for an invalid escape) and written. */
  function UnescapeStep(c: seq<byte>, p: nat, e: nat): (r: Literal)
    requires p < e < |c|
    ensures r.length > 0 ==> p + r.length <= e + 1
  {
    if c[p] != BACKSLASH then Literal(1, [c[p]])
    else if c[p + 1] == 117 then Utf16Literal(c, p, e)
    else if ShortEscape(c[p + 1]) >= 0 then Literal(2, [ShortEscape(c[p + 1])])
    else Literal(0, [])
  }

  /** The second pass from `p` to the closing quote `e`. It may stop one byte past `e`. */
  function Unescape(c: seq<byte>, p: nat, e: nat): (r: Unescaped)
    requires e < |c|
    ensures r.BadAt? ==> p <= r.at < e
    decreases |c| + 1 - p
  {
    if p >= e then Unescaped([])
    else
      var step := UnescapeStep(c, p, e);
      if step.length == 0 then BadAt(p) else Prepend(step.output, Unescape(c, p + step.length, e))
  }

  /** Starting at a first-pass boundary `q`, the first boundary at or after `p`. The escapes met
      on the way start at least two bytes apart. */
  lemma {:induction false} NextBoundary(c: seq<byte>, q: nat, p: nat, e: nat) returns (q': nat)
    requires FindClose(c, q) == Close(e)
    requires q <= p <= e
    ensures p <= q' <= p + 1 && q' <= e
    ensures FindClose(c, q') == Close(e)
    ensures 2 * (Skipped(c, q) - Skipped(c, q')) <= q' - q
    decreases p - q
  {
    if q == p {
      q' := q;
    } else if c[q] == BACKSLASH {
      if q + 1 == p {
        q' := q + 2;
      } else {
        q' := NextBoundary(c, q + 2, p, e);
      }
    } else {
      q' := NextBoundary(c, q + 1, p, e);
    }
  }

  /** What may still be written at `p`: the bytes left less the escapes counted from the next
      first-pass boundary `q` on. */
  function Room(c: seq<byte>, p: nat, q: nat, e: nat): (n: int)
    requires p <= e ==> FindClose(c, q) == Close(e)
  {
    if p <= e then (e - p) - Skipped(c, q) else 0
  }

  predicate Boundary(c: seq<byte>, p: nat, q: nat, e: nat) {
    p <= e ==> FindClose(c, q) == Close(e) && p <= q <= p + 1 && q <= e
  }

  /** The two passes need not agree on where escapes start: `\u` followed by something else than
      hex digits is read as U+0000 and swallows six bytes. Still, no turn writes more than the
      room it uses up. */
  lemma StepFits(c: seq<byte>, p: nat, q: nat, e: nat) returns (q': nat)
    requires p < e < |c| && Boundary(c, p, q, e) && UnescapeStep(c, p, e).length > 0
    ensures var step := UnescapeStep(c, p, e); var p' := p + step.length;
            && Boundary(c, p', q', e) && 0 <= Room(c, p', q', e)
            && |step.output| + Room(c, p', q', e) <= Room(c, p, q, e)
  {
    var p' := p + UnescapeStep(c, p, e).length;
    if p' == p + 1 {
      q' := p + 1;
    } else if p' <= e {
      q' := NextBoundary(c, q, p', e);
    } else {
      q' := q;
      assert p + 1 == e && q == e;
    }
  }

  lemma {:induction false} SecondPassFits(c: seq<byte>, p: nat, q: nat, e: nat)
    requires e < |c| && Boundary(c, p, q, e)
    ensures Unescape(c, p, e).Unescaped? ==> |Unescape(c, p, e).bytes| <= Room(c, p, q, e)
    decreases e + 1 - p
  {
    hide UnescapeStep;
    if p < e && Unescape(c, p, e).Unescaped? {
      var q' := StepFits(c, p, q, e);
      SecondPassFits(c, p + UnescapeStep(c, p, e).length, q', e);
    }
  }

  /** For every buffer and every literal in it: the decoded bytes and the terminator stay below
      the `allocation_length + 1` bytes requested, with a byte to spare. */
  lemma AllocationSuffices(c: seq<byte>, o: nat, e: nat)
    requires FindClose(c, o + 1) == Close(e)
    requires Unescape(c, o + 1, e).Unescaped?
    ensures |Unescape(c, o + 1, e).bytes| + 1 < (e - o) - Skipped(c, o + 1) + 1
  {
    SecondPassFits(c, o + 1, o + 1, e);
  }

  // ---------- the literal as a whole ----------

  datatype StringRead = StringRead(s: seq<byte>, end: nat) | BadString(at: nat)

  /** `parse_string` at `o`. The result is a C string, so a decoded U+0000 cuts it short. */
  function ReadString(c: seq<byte>, o: nat): (r: StringRead)
    requires o < |c|
    ensures r.StringRead? ==> o + 2 <= r.end <= |c| && NulFree(r.s)
    ensures r.BadString? ==> o < r.at <= |c|
  {
    if c[o] != QUOTE then BadString(o + 1)
    else
      match FindClose(c, o + 1)
      case NoClose => BadString(o + 1)
      case Close(e) =>
        match Unescape(c, o + 1, e)
        case Unescaped(s) => StringRead(CStr(s), e + 1)
        case BadAt(p) => BadString(p)
  }

  /** A printed byte: the first pass steps over it. */
  lemma EscapedByteCloses(c: seq<byte>, p: nat, b: byte)
    requires b != 0 && At(c, p, EscapeByte(b)) && p + |EscapeByte(b)| < |c|
    ensures FindClose(c, p) == FindClose(c, p + |EscapeByte(b)|)
  {
    hide At;
    var s := EscapeByte(b);
    AtIndex(c, p, s, 0);
    if |s| == 6 {
      AtIndex(c, p, s, 2);
      AtIndex(c, p, s, 3);
      AtIndex(c, p, s, 4);
      AtIndex(c, p, s, 5);
      assert FindClose(c, p) == FindClose(c, p + 2) == FindClose(c, p + 3);
      assert FindClose(c, p + 3) == FindClose(c, p + 4) == FindClose(c, p + 5) == FindClose(c, p + 6);
    }
  }

  /** The second pass reads it back. */
  lemma EscapedByteReads(c: seq<byte>, p: nat, b: byte, e: nat)
    requires b != 0 && At(c, p, EscapeByte(b)) && p + |EscapeByte(b)| <= e < |c|
    ensures UnescapeStep(c, p, e) == Literal(|EscapeByte(b)|, [b])
  {
    hide At;
    var s := EscapeByte(b);
    AtIndex(c, p, s, 0);
    if |s| > 1 {
      AtIndex(c, p, s, 1);
    }
    if |s| == 6 {
      AtIndex(c, p, s, 2);
      AtIndex(c, p, s, 3);
      AtIndex(c, p, s, 4);
      AtIndex(c, p, s, 5);
      var digits := c[p + 2..p + 6];
      assert digits == [ZERO, ZERO, LowerHex(b / 16), LowerHex(b % 16)];
      assert HexDigit(digits[2]) == b / 16 && HexDigit(digits[3]) == b % 16;
      assert Hex4(digits) == b;
    }
  }

  lemma EscapeCons(s: seq<byte>)
    requires s != []
    ensures |EscapeByte(s[0])| > 0 && Escape(s) == EscapeByte(s[0]) + Escape(s[1..])
    ensures Escape(s) + [QUOTE] == EscapeByte(s[0]) + (Escape(s[1..]) + [QUOTE])
  {
    Regroup(EscapeByte(s[0]), Escape(s[1..]), [QUOTE]);
  }

  lemma EscapedSplits(c: seq<byte>, p: nat, s: seq<byte>)
    requires s != [] && At(c, p, Escape(s) + [QUOTE])
    ensures p + |Escape(s)| < |c| && |EscapeByte(s[0])| > 0
    ensures At(c, p, EscapeByte(s[0]))
    ensures At(c, p + |EscapeByte(s[0])|, Escape(s[1..]) + [QUOTE])
    ensures |Escape(s)| == |EscapeByte(s[0])| + |Escape(s[1..])|
  {
    hide EscapeByte, At, Escape;
    EscapeCons(s);
    AtAppend(c, p, EscapeByte(s[0]), Escape(s[1..]) + [QUOTE]);
  }

  lemma {:induction false} EscapedCloses(c: seq<byte>, p: nat, s: seq<byte>)
    requires NulFree(s) && At(c, p, Escape(s) + [QUOTE])
    ensures FindClose(c, p) == Close(p + |Escape(s)|)
    decreases s
  {
    hide EscapeByte, At;
    var e := p + |Escape(s)|;
    if s == [] {
      AtIndex(c, e, Escape(s) + [QUOTE], 0);
    } else {
      EscapedSplits(c, p, s);
      EscapedCloses(c, p + |EscapeByte(s[0])|, s[1..]);
      EscapedByteCloses(c, p, s[0]);
    }
  }

  lemma {:induction false} EscapedReads(c: seq<byte>, p: nat, s: seq<byte>)
    requires NulFree(s) && At(c, p, Escape(s) + [QUOTE])
    ensures Unescape(c, p, p + |Escape(s)|) == Unescaped(s)
    decreases s
  {
    hide UnescapeStep, EscapeByte, At;
    if s != [] {
      EscapedSplits(c, p, s);
      EscapedReads(c, p + |EscapeByte(s[0])|, s[1..]);
      EscapedByteReads(c, p, s[0], p + |Escape(s)|);
      assert [s[0]] + s[1..] == s;
    }
  }

  /** Escaping is inverted by unescaping: for every C string, wherever its printed form stands in
      a buffer, reading it gives the string back and stops just past the closing quote. */
  lemma QuotedReads(c: seq<byte>, o: nat, s: seq<byte>)
    requires NulFree(s) && At(c, o, Quoted(s))
    ensures ReadString(c, o) == StringRead(s, o + |Quoted(s)|)
  {
    hide At, Escape, FindClose, Unescape;
    assert Quoted(s) == [QUOTE] + (Escape(s) + [QUOTE]);
    AtAppend(c, o, [QUOTE], Escape(s) + [QUOTE]);
    AtIndex(c, o, [QUOTE], 0);
    EscapedCloses(c, o + 1, s);
    EscapedReads(c, o + 1, s);
    CStrOfNulFree(s, []);
    assert s + [] == s;
  }
}
