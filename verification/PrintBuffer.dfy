/** `printbuffer`: a buffer that grows, the requests for room in it, and the strings and numbers
    printed into it. */
module PrintBuffers {
  import opened Bytes
  import opened Trees
  import opened Strings
  import opened Memory
  import Numbers

  class PrintBuffer {
    var buffer: array?<byte>
    var length: nat
    var offset: nat
    var depth: nat
    const noalloc: bool
    const format: bool
    /** The hooks have a `reallocate`. */
    const reallocates: bool
    const mem: Allocator
    /** The block that printing started in. */
    const given: array<byte>
    /** The blocks that are live besides the buffer. */
    ghost const others: set<object>
    /** The refusals before printing began: a text is ready only if there have been no more. */
    ghost const refusalsBefore: nat
    /** How many bytes all the manual regrowths have copied. */
    ghost var copied: nat

    /** `given` is the caller's with `noalloc`, and has just been allocated without. */
    constructor (given: array<byte>, noalloc: bool, format: bool, reallocates: bool, mem: Allocator)
      requires given.Length <= INT_MAX
      requires noalloc || (given.Length > 0 && given in mem.live)
      ensures this.given == given && this.noalloc == noalloc && this.format == format
      ensures this.mem == mem && this.reallocates == reallocates
      ensures Ready([]) && depth == 0 && buffer == given
      ensures others == (if noalloc then mem.live else mem.live - {given}) && refusalsBefore == mem.refusals
    {
      buffer, length, offset, depth := given, given.Length, 0, 0;
      this.noalloc, this.format, this.reallocates, this.mem, this.given := noalloc, format, reallocates, mem, given;
      others, copied := if noalloc then mem.live else mem.live - {given}, 0;
      refusalsBefore := mem.refusals;
    }

    /** The most that a print can fill: what the caller gave, or what an `int` counts. */
    function Limit(): nat { if noalloc then given.Length else INT_MAX }

    /** A text of `n` bytes can be printed: it needs two bytes more. */
    predicate Fits(n: nat) { n + 2 <= Limit() }

    /** Only the buffer has been added to the other blocks. */
    ghost predicate Accounted()
      reads this`buffer, mem
    {
      if noalloc then mem.live == others
      else mem.live == others + One(buffer) && others !! One(buffer)
    }

    /** Growth is geometric: the capacity is at most twice what the first `n` bytes of text need
        at their peak, and all regrowths together have copied less than it. */
    ghost predicate Grown(n: int)
      reads this`buffer, this`length, this`copied
    {
      if noalloc then buffer == given
      else length <= Max(given.Length, 2 * (n + 2)) && (copied < length || length == INT_MAX)
    }

    ghost predicate Sound(n: int)
      reads this`buffer, this`length, this`offset, this`copied, mem
    {
      && buffer != null && buffer.Length == length <= INT_MAX
      && (offset < length || (noalloc && offset == length))
      && Grown(n) && Accounted() && mem.refusals == refusalsBefore
    }

    /** `text` has been printed and the offset stands behind it. */
    ghost predicate Ready(text: seq<byte>)
      reads this`buffer, this`length, this`offset, this`copied, mem, buffer
    {
      Sound(|text|) && offset == |text| <= length && buffer[..|text|] == text
    }

    /** `text` has been printed with its terminator, and the offset may lag behind. */
    ghost predicate Tailed(text: seq<byte>)
      reads this`buffer, this`length, this`offset, this`copied, mem, buffer
    {
      && Sound(|text|) && offset <= |text| < length
      && buffer[..|text|] == text && buffer[|text|] == 0 && NulFree(text[offset..])
    }

    /** There is room for `needed` more bytes and a terminator. */
    ghost predicate Reserved(text: seq<byte>, needed: nat)
      reads this`buffer, this`length, this`offset, this`copied, mem, buffer
    {
      && Sound(if needed == 0 then |text| else |text| + needed - 1)
      && offset == |text| && |text| + needed < length && buffer[..|text|] == text
    }

    /** Printing has failed; the buffer may be gone. */
    ghost predicate Stopped()
      reads this`buffer, mem
    {
      Accounted() && (noalloc ==> buffer == given)
    }

    ghost predicate OutOfMemory()
      reads mem
    {
      mem.refusals > refusalsBefore && !noalloc
    }

    /** `ensure` */
    method Ensure(needed: nat, ghost text: seq<byte>) returns (ok: bool)
      requires Ready(text)
      modifies this`buffer, this`length, this`copied, mem
      ensures ok ==> Reserved(text, needed) && |text| + needed + 1 <= Limit()
      ensures !ok ==> Stopped() && (OutOfMemory() || |text| + needed + 1 > Limit())
      ensures buffer == old(buffer) || buffer == null || fresh(buffer)
    {
      if length > 0 && offset >= length {
        return false;
      }
      if needed > INT_MAX {
        return false;
      }
      var room := needed + offset + 1;
      if room <= length {
        return true;
      }
      if noalloc || room > INT_MAX {
        return false;
      }
      ok := Regrow(if room > INT_MAX / 2 then INT_MAX else room * 2, text);
    }

    /** The block is exchanged for a longer one that starts with the same text. */
    method Regrow(newsize: nat, ghost text: seq<byte>) returns (ok: bool)
      requires Ready(text) && !noalloc
      requires length < newsize <= INT_MAX && (newsize == INT_MAX || 2 * length < newsize)
      modifies this`buffer, this`length, this`copied, mem
      ensures ok ==> buffer != null && fresh(buffer) && buffer.Length == length == newsize
      ensures ok ==> buffer[..|text|] == text && (copied < length || length == INT_MAX) && mem.refusals == old(mem.refusals)
      ensures !ok ==> buffer == null && OutOfMemory()
      ensures Accounted()
    {
      var newbuffer := mem.Allocate(newsize);
      if newbuffer == null {
        mem.Free(buffer);
        buffer, length := null, 0;
        return false;
      }
      var count := if reallocates then length else offset + 1;
      forall i | 0 <= i < count {
        newbuffer[i] := buffer[i];
      }
      copied := copied + if reallocates then 0 else count;
      mem.Free(buffer);
      buffer, length := newbuffer, newsize;
      ok := true;
    }

    /** `strlen` moves the offset to the terminator. */
    method UpdateOffset(ghost text: seq<byte>)
      requires Tailed(text)
      modifies `offset
      ensures Ready(text) && Tailed(text)
    {
      assert buffer[..|text|][offset..] == text[offset..];
      var end := offset;
      while buffer[end] != 0
        invariant offset <= end <= |text|
        decreases |text| - end
      {
        assert buffer[end] == text[end];
        end := end + 1;
      }
      offset := end;
    }

    /** The copying loops of the printer: `bytes` are written at `at`. */
    method Put(at: nat, bytes: seq<byte>)
      requires buffer != null && at + |bytes| <= buffer.Length
      modifies buffer
      ensures buffer[..at + |bytes|] == old(buffer[..at]) + bytes
      ensures forall i :: at + |bytes| <= i < buffer.Length ==> buffer[i] == old(buffer[i])
    {
      var i := 0;
      while i < |bytes|
        invariant 0 <= i <= |bytes|
        invariant buffer[..at + i] == old(buffer[..at]) + bytes[..i]
        invariant forall j :: at + i <= j < buffer.Length ==> buffer[j] == old(buffer[j])
      {
        buffer[at + i] := bytes[i];
        i := i + 1;
      }
    }

    /** A text is printed with its terminator; the offset stays in front of it. */
    method Literal(bytes: seq<byte>, ghost text: seq<byte>) returns (ok: bool)
      requires Ready(text) && NulFree(bytes)
      modifies this`buffer, this`length, this`copied, mem, buffer
      ensures ok ==> Tailed(text + bytes) && Fits(|text| + |bytes|) && offset == old(offset)
      ensures !ok ==> Stopped() && (OutOfMemory() || !Fits(|text| + |bytes|))
      ensures buffer == old(buffer) || buffer == null || fresh(buffer)
    {
      ok := Ensure(|bytes| + 1, text);
      if ok {
        Put(offset, bytes);
        buffer[offset + |bytes|] := 0;
        assert (text + bytes)[offset..] == bytes;
      }
    }

    /** A text is printed without a terminator and the offset moves behind it; `spare` more bytes
        are asked for. */
    method Append(bytes: seq<byte>, spare: nat, ghost text: seq<byte>) returns (ok: bool)
      requires Ready(text) && spare <= 1
      modifies this`buffer, this`length, this`copied, this`offset, mem, buffer
      ensures ok ==> Ready(text + bytes) && |text| + |bytes| + spare + 1 <= Limit() && offset < length
      ensures !ok ==> Stopped() && (OutOfMemory() || |text| + |bytes| + spare + 1 > Limit())
      ensures buffer == old(buffer) || buffer == null || fresh(buffer)
    {
      ok := Ensure(|bytes| + spare, text);
      if ok {
        Put(offset, bytes);
        offset := offset + |bytes|;
      }
    }

    /** The same with a terminator at the new offset. */
    method AppendTerminated(bytes: seq<byte>, ghost text: seq<byte>) returns (ok: bool)
      requires Ready(text)
      modifies this`buffer, this`length, this`copied, this`offset, mem, buffer
      ensures ok ==> Ready(text + bytes) && Tailed(text + bytes) && Fits(|text| + |bytes|)
      ensures !ok ==> Stopped() && (OutOfMemory() || !Fits(|text| + |bytes|))
      ensures buffer == old(buffer) || buffer == null || fresh(buffer)
    {
      ok := Append(bytes, 1, text);
      if ok {
        buffer[offset] := 0;
      }
    }

    /** `print_number` on a number that equals its `valueint` */
    method PrintNumber(d: real, ghost text: seq<byte>) returns (ok: bool)
      requires Ready(text) && IsInt32(d)
      modifies this`buffer, this`length, this`copied, this`offset, mem, buffer
      ensures var t := Numbers.Decimal(ValueInt(d));
              && (ok ==> Tailed(text + t) && Fits(|text| + |t|))
              && (!ok ==> Stopped() && (OutOfMemory() || !Fits(|text| + |t|)))
      ensures buffer == old(buffer) || buffer == null || fresh(buffer)
    {
      var numberText := Numbers.Decimal(ValueInt(d));
      Numbers.DecimalShort(ValueInt(d));
      if |numberText| > 25 {
        return false;
      }
      ok := AppendTerminated(numberText, text);
    }

    /** The first pass of `print_string_ptr`: the length of the string and what escapes add. */
    method Measure(input: array<byte>, ghost s: seq<byte>) returns (n: nat, extra: nat)
      requires HoldsText(input, s)
      ensures n == |s| && extra == Extra(s)
    {
      n, extra := 0, 0;
      TextAt(input, s, 0);
      while input[n] != 0
        invariant 0 <= n <= |s| && extra == Extra(s[..n]) && (input[n] == 0 <==> n == |s|)
        decreases |s| - n
      {
        TextAt(input, s, n);
        EscapedOne(s, n);
        var c: int := input[n];
        if c == QUOTE || c == BACKSLASH || c == 8 || c == 12 || c == NEWLINE || c == RETURN || c == TAB {
          extra := extra + 1;
        } else if c < 32 {
          extra := extra + 5;
        }
        n := n + 1;
        TextAt(input, s, n);
      }
      assert s[..|s|] == s;
    }

    /** One byte of the copy loop: the byte itself or its escape. */
    method PutByte(at: nat, b: byte) returns (end: nat)
      requires buffer != null && at + |EscapeByte(b)| <= buffer.Length
      modifies buffer
      ensures end == at + |EscapeByte(b)| && buffer[..end] == old(buffer[..at]) + EscapeByte(b)
    {
      if b > 31 && b != QUOTE && b != BACKSLASH {
        Put(at, [b]);
        end := at + 1;
      } else {
        var escape := EscapeByte(b);
        Put(at, escape);
        end := at + |escape|;
      }
    }

    /** The copy loop of `print_string_ptr`. */
    method PutEscaped(input: array<byte>, at: nat, ghost s: seq<byte>)
      requires HoldsText(input, s) && buffer != null && input != buffer
      requires at + |Escape(s)| <= buffer.Length
      modifies buffer
      ensures buffer[..at + |Escape(s)|] == old(buffer[..at]) + Escape(s)
    {
      hide HoldsText, Escape, EscapeByte;
      var p, w := 0, at;
      ghost var before := buffer[..at];
      TextAt(input, s, 0);
      EscapedEnds(s);
      while input[p] != 0
        invariant HoldsText(input, s) && 0 <= p <= |s| < input.Length && (input[p] == 0 <==> p == |s|)
        invariant w == at + |Escape(s[..p])| && w + |Escape(s[p..])| == at + |Escape(s)|
        invariant buffer[..w] == before + Escape(s[..p])
        decreases |s| - p
      {
        EscapedOne(s, p);
        TextAt(input, s, p);
        Regroup(before, Escape(s[..p]), EscapeByte(s[p]));
        w := PutByte(w, input[p]);
        p := p + 1;
        TextAt(input, s, p);
      }
    }

    /** `print_string_ptr` */
    method PrintStringPtr(input: array?<byte>, ghost s: seq<byte>, ghost text: seq<byte>) returns (ok: bool)
      requires Ready(text) && (input == null || input != buffer)
      requires if input == null then s == [] else HoldsText(input, s)
      modifies this`buffer, this`length, this`copied, this`offset, mem, buffer
      ensures ok ==> Tailed(text + Quoted(s)) && Fits(|text| + |Quoted(s)|)
      ensures !ok ==> Stopped() && (OutOfMemory() || !Fits(|text| + |Quoted(s)|))
      ensures buffer == old(buffer) || buffer == null || fresh(buffer)
    {
      hide Quoted, Escape, HoldsText;
      if input == null {
        EmptyQuoted();
        ok := Literal([QUOTE, QUOTE], text);
        return;
      }
      var n, extra := Measure(input, s);
      EscapeLength(s);
      QuotedParts(text, s);
      var size := n + extra;
      ok := Ensure(size + 3, text);
      if !ok {
        return;
      }
      PutBetweenQuotes(input, n, extra, s);
    }

    /** The string goes between its quotes: by `memcpy` if nothing has to be escaped. */
    method PutBetweenQuotes(input: array<byte>, n: nat, extra: nat, ghost s: seq<byte>)
      requires HoldsText(input, s) && n == |s| && extra == Extra(s) && buffer != null && input != buffer
      requires offset + n + extra + 2 < buffer.Length
      modifies buffer
      ensures |Quoted(s)| == n + extra + 2
      ensures buffer[..offset + n + extra + 2] == old(buffer[..offset]) + Quoted(s)
      ensures buffer[offset + n + extra + 2] == 0
    {
      hide Quoted, Escape, Extra;
      ghost var before := buffer[..offset];
      var end := offset + n + extra + 1;
      EscapeLength(s);
      QuotedParts(before, s);
      Put(offset, [QUOTE]);
      assert HoldsText(input, s);
      if extra == 0 {
        EscapeNothing(s);
        Put(offset + 1, input[..n]);
      } else {
        PutEscaped(input, offset + 1, s);
      }
      assert buffer[..end] == (before + [QUOTE]) + Escape(s);
      Put(end, [QUOTE]);
      buffer[end + 1] := 0;
    }
  }

  lemma EmptyQuoted()
    ensures Quoted([]) == [QUOTE, QUOTE]
  {
  }

  lemma EscapedEnds(s: seq<byte>)
    ensures s[..0] == [] && s[0..] == s && s[..|s|] == s && s[|s|..] == [] && Escape([]) == []
  {
  }

  lemma EscapedOne(s: seq<byte>, p: nat)
    requires p < |s|
    ensures Escape(s[..p + 1]) == Escape(s[..p]) + EscapeByte(s[p])
    ensures Extra(s[..p + 1]) == Extra(s[..p]) + ExtraBytes(s[p])
    ensures |Escape(s[p..])| == |EscapeByte(s[p])| + |Escape(s[p + 1..])|
  {
    assert s[..p + 1] == s[..p] + [s[p]] && [s[p]][1..] == [];
    EscapeAppend(s[..p], [s[p]]);
    assert s[p..][1..] == s[p + 1..];
  }

  /** A quoted string is put together between its quotes. */
  lemma QuotedParts(text: seq<byte>, s: seq<byte>)
    ensures |Quoted(s)| == |Escape(s)| + 2 && NulFree(Quoted(s))
    ensures ((text + [QUOTE]) + Escape(s)) + [QUOTE] == text + Quoted(s)
    ensures (text + Quoted(s))[|text|..] == Quoted(s)
  {
    EscapeVisible(s);
  }
}
