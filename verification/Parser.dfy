/** The parser on its buffer and on the heap: `parse_buffer` and the functions that read from it
    into nodes. Whatever request the allocator refuses, a failed parse gives every block back. */
module Parser {
  import opened Bytes
  import opened Utf
  import opened Strings
  import opened Numbers
  import opened Grammar
  import opened Memory

  class ParseBuffer {
    const content: seq<byte>
    var offset: nat
    var depth: nat

    constructor (content: seq<byte>)
      ensures this.content == content && offset == 0 && depth == 0
    {
      this.content := content;
      offset, depth := 0, 0;
    }

    method SkipWhitespace()
      requires offset <= |content|
      modifies `offset
      ensures offset == SkipBlanks(content, old(offset)) <= |content|
      ensures old(offset) <= offset && (old(offset) < |content| ==> offset < |content|)
    {
      if offset >= |content| {
        return;
      }
      while offset < |content| && content[offset] <= 32
        invariant old(offset) <= offset <= |content|
        invariant BlankEnd(content, offset) == BlankEnd(content, old(offset))
      {
        offset := offset + 1;
      }
      if offset == |content| {
        offset := offset - 1;
      }
    }

    /** `skip_utf8_bom` and the blanks in front of the value. */
    method SkipToText()
      requires offset == 0
      modifies `offset
      ensures offset == SkipBlanks(content, TextStart(content)) <= |content|
    {
      if 4 < |content| && content[0] == 0xEF && content[1] == 0xBB && content[2] == 0xBF {
        offset := 3;
      }
      SkipWhitespace();
    }

    /** Past one byte and the blanks behind it. */
    method Advance()
      requires offset < |content|
      modifies `offset
      ensures offset == SkipBlanks(content, old(offset) + 1) && old(offset) < offset <= |content|
    {
      offset := offset + 1;
      SkipWhitespace();
    }

    /** The copy into `number_c_string` stops at 63 bytes, at the end of the input, or at the
        first byte that no number contains. */
    method ParseNumber(item: Node) returns (ok: bool)
      requires offset <= |content|
      modifies `offset, item`kind, item`valuedouble
      ensures match ReadNumber(content, old(offset))
              case NumberRead(x, end) =>
                ok && offset == end <= |content| && item.kind == NumberKind && item.valuedouble == x
              case NoNumber => !ok && offset == old(offset) && unchanged(item)
    {
      hide Strtod, NumberRun, ReadNumber;
      var numberText := new byte[64];
      var i := 0;
      while i < 63 && offset + i < |content| && IsNumberByte(content[offset + i])
        invariant offset == old(offset) && unchanged(item)
        invariant 0 <= i <= 63 && offset + i <= |content|
        invariant numberText[..i] == content[offset..offset + i]
        invariant forall j :: offset <= j < offset + i ==> IsNumberByte(content[j])
      {
        numberText[i] := content[offset + i];
        i := i + 1;
      }
      numberText[i] := 0;
      assert numberText[..i] == content[offset..offset + i];
      CopiedText(content, offset, i);
      var number := Strtod(numberText[..i]);
      if number.length == 0 {
        return false;
      }
      item.valuedouble := number.value;
      item.kind := NumberKind;
      offset := offset + number.length;
      ok := true;
    }

    /** The first pass of `parse_string`. */
    method FindEnd(start: nat) returns (e: int, skipped: nat)
      requires start <= |content|
      ensures match FindClose(content, start)
              case Close(at) => e == at && skipped == Skipped(content, start)
              case NoClose => e == -1
    {
      var p: nat := start;
      skipped := 0;
      while p < |content| && content[p] != QUOTE
        invariant FindClose(content, start) == FindClose(content, p)
        invariant FindClose(content, p).Close? ==> Skipped(content, start) == skipped + Skipped(content, p)
        decreases |content| - p
      {
        if content[p] == BACKSLASH {
          if p + 1 >= |content| {
            return -1, skipped;
          }
          skipped := skipped + 1;
          p := p + 1;
        }
        p := p + 1;
      }
      e := if p >= |content| then -1 else p;
    }

    /** One turn of the second pass: a plain byte, a short escape or a UTF-16 literal. */
    method DecodeOne(p: nat, e: nat, output: array<byte>, w: nat) returns (length: nat, w': nat)
      requires p < e < |content| && w + |UnescapeStep(content, p, e).output| <= output.Length
      modifies output
      ensures length == UnescapeStep(content, p, e).length && w' == w + |UnescapeStep(content, p, e).output|
      ensures output[..w'] == old(output[..w]) + UnescapeStep(content, p, e).output
    {
      hide Utf16Literal;
      length, w' := 2, w;
      if content[p] != BACKSLASH {
        output[w] := content[p];
        length, w' := 1, w + 1;
      } else if content[p + 1] == 117 {
        length, w' := Utf16LiteralToUtf8(content, p, e, output, w);
        assert output[..w'] == output[..w] + output[w..w'];
      } else if ShortEscape(content[p + 1]) >= 0 {
        output[w] := ShortEscape(content[p + 1]);
        w' := w + 1;
      } else {
        length := 0;
      }
    }

    /** The second pass: it stays below what the first pass has requested. */
    method Decode(start: nat, e: nat, output: array<byte>) returns (ok: bool, at: nat, ghost text: seq<byte>)
      requires FindClose(content, start) == Close(e)
      requires output.Length == (e - start) - Skipped(content, start) + 2
      modifies output
      ensures match Unescape(content, start, e)
              case Unescaped(bytes) => ok && text == CStr(bytes) && HoldsText(output, text)
              case BadAt(p) => !ok && at == p
    {
      var p: nat, w: nat := start, 0;
      ghost var q: nat := start;
      DecodingBegins(content, start, e, output.Length);
      hide FindClose, Skipped, Unescape, UnescapeStep, Decoding;
      while p < e
        invariant w <= output.Length && Decoding(content, start, e, p, q, output[..w], output.Length)
        decreases e - p
      {
        ghost var q' := DecodingStep(content, start, e, p, q, output[..w], output.Length);
        var length, w' := DecodeOne(p, e, output, w);
        if length == 0 {
          return false, p, [];
        }
        p, w, q := p + length, w', q';
      }
      ghost var bytes := output[..w];
      DecodingEnds(content, start, e, p, q, bytes, output.Length);
      output[w] := 0;
      assert output[..w] == bytes;
      ok, at, text := true, p, CStr(bytes);
      TextWritten(output, w);
    }

    /** `parse_string`: on success the node holds a fresh C string; on failure nothing is kept. */
    method ParseString(item: Node, mem: Allocator) returns (ok: bool, ghost text: seq<byte>)
      requires offset < |content|
      modifies `offset, mem, item`kind, item`valuestring
      ensures offset <= |content|
      ensures ok ==> ReadString(content, old(offset)) == StringRead(text, offset)
      ensures ok ==> item.kind == StringKind && item.valuestring != null && fresh(item.valuestring)
      ensures ok ==> HoldsText(item.valuestring, text) && mem.live == old(mem.live) + {item.valuestring}
      ensures !ok ==> unchanged(item) && mem.live == old(mem.live)
      ensures !ok ==> mem.refusals > old(mem.refusals) || ReadString(content, old(offset)) == BadString(offset)
      ensures old(mem.refusals) <= mem.refusals
      ensures ok ==> mem.refusals == old(mem.refusals)
    {
      hide FindClose, Unescape, Skipped;
      var start := offset + 1;
      text := [];
      if content[offset] != QUOTE {
        offset := start;
        return false, [];
      }
      var e, skipped := FindEnd(start);
      if e < 0 {
        offset := start;
        return false, [];
      }
      SkippedBound(content, start);
      var output := mem.Allocate(e - offset - skipped + 1);
      if output == null {
        offset := start;
        return false, [];
      }
      var at;
      ok, at, text := Decode(start, e, output);
      if !ok {
        mem.Free(output);
        offset := at;
        return false, [];
      }
      item.kind := StringKind;
      item.valuestring := output;
      offset := e + 1;
    }
  }

  lemma SkippedBound(c: seq<byte>, p: nat)
    requires FindClose(c, p).Close?
    ensures p <= FindClose(c, p).at < |c| && 2 * Skipped(c, p) <= FindClose(c, p).at - p
  {
  }

  lemma CopiedText(c: seq<byte>, o: nat, n: nat)
    requires o + n <= |c| && n <= 63
    requires forall j :: o <= j < o + n ==> IsNumberByte(c[j])
    requires n == 63 || o + n == |c| || !IsNumberByte(c[o + n])
    ensures var number := Strtod(c[o..o + n]);
            && number.length <= n
            && ReadNumber(c, o) == if number.length == 0 then NoNumber else NumberRead(number.value, o + number.length)
  {
    hide Strtod;
    NumberRunIs(c, o, NUMBER_CHARS, n);
    StrtodShort(c[o..o + n]);
  }

  lemma StrtodShort(text: seq<byte>)
    ensures Strtod(text).length <= |text|
  {
  }

  /** The second pass from `start` on has come to `p` and written `bytes` of a block of `size`
      bytes; `q` is the first-pass boundary at or behind `p`. */
  predicate Decoding(c: seq<byte>, start: nat, e: nat, p: nat, q: nat, bytes: seq<byte>, size: nat) {
    && start <= p && e < |c| && Boundary(c, p, q, e)
    && 0 <= Room(c, p, q, e) && |bytes| + Room(c, p, q, e) <= size - 2
    && Unescape(c, start, e) == Prepend(bytes, Unescape(c, p, e))
  }

  lemma DecodingBegins(c: seq<byte>, start: nat, e: nat, size: nat)
    requires FindClose(c, start) == Close(e) && size == (e - start) - Skipped(c, start) + 2
    ensures Decoding(c, start, e, start, start, [], size)
  {
    hide Unescape;
  }

  lemma DecodingStep(c: seq<byte>, start: nat, e: nat, p: nat, q: nat, bytes: seq<byte>, size: nat) returns (q': nat)
    requires Decoding(c, start, e, p, q, bytes, size) && p < e
    ensures var step := UnescapeStep(c, p, e);
            && |bytes| + |step.output| <= size
            && (step.length == 0 ==> Unescape(c, start, e) == BadAt(p))
            && (step.length > 0 ==> Decoding(c, start, e, p + step.length, q', bytes + step.output, size))
  {
    UnescapeUnfolds(c, p, e, bytes);
    q' := q;
    hide Unescape, UnescapeStep;
    if UnescapeStep(c, p, e).length > 0 {
      q' := StepFits(c, p, q, e);
    } else {
      FailedStep(c, p, e);
    }
  }

  lemma FailedStep(c: seq<byte>, p: nat, e: nat)
    requires p < e < |c| && UnescapeStep(c, p, e).length == 0
    ensures UnescapeStep(c, p, e).output == []
  {
  }

  lemma DecodingEnds(c: seq<byte>, start: nat, e: nat, p: nat, q: nat, bytes: seq<byte>, size: nat)
    requires Decoding(c, start, e, p, q, bytes, size) && e <= p
    ensures Unescape(c, start, e) == Unescaped(bytes) && |bytes| + 2 <= size
  {
  }

  lemma TextWritten(output: array<byte>, w: nat)
    requires w < output.Length && output[w] == 0
    ensures HoldsText(output, CStr(output[..w]))
  {
    var bytes := output[..w];
    var n := StrLen(bytes);
    assert output[..n] == bytes[..n];
  }

  lemma UnescapeUnfolds(c: seq<byte>, p: nat, e: nat, before: seq<byte>)
    requires p < e < |c|
    ensures UnescapeStep(c, p, e).length == 0 ==> Prepend(before, Unescape(c, p, e)) == BadAt(p)
    ensures UnescapeStep(c, p, e).length > 0 ==>
              (Prepend(before, Unescape(c, p, e))
               == Prepend(before + UnescapeStep(c, p, e).output, Unescape(c, p + UnescapeStep(c, p, e).length, e)))
  {
    hide UnescapeStep;
    var step := UnescapeStep(c, p, e);
    if step.length > 0 && Unescape(c, p + step.length, e).Unescaped? {
      Regroup(before, step.output, Unescape(c, p + step.length, e).bytes);
    }
  }
}
