/** The printing entry points: into the caller's buffer, or into a new string. */
module Printing {
  import opened Bytes
  import opened Trees
  import opened Memory
  import opened Views
  import opened Rendering
  import opened PrintBuffers
  import opened Printer
  import Strings

  // ---------- the text is a C string ----------

  lemma {:induction false} TextNulFree(n: Node, v: Json, fmt: bool, d: nat, blocks: set<object>)
    requires Shows(n, v, blocks)
    ensures NulFree(Render(v, fmt, d))
    decreases v, 0
  {
    hide ItemsText, MembersText;
    match v
    case Array(items) =>
      ItemsNulFree(n.child, items, fmt, d + 1, blocks);
    case Object(members) =>
      MembersNulFree(n.child, members, fmt, d, blocks);
      NulFreeBoth([LBRACE] + LineEnd(fmt), MembersText(members, fmt, d));
    case String(s) =>
      QuotedParts([], s);
    case _ =>
  }

  lemma {:induction false} ItemsNulFree(first: Node?, items: seq<Json>, fmt: bool, d: nat, blocks: set<object>)
    requires ShowsItems(first, items, blocks)
    ensures NulFree(ItemsText(items, fmt, d))
    decreases items, 1
  {
    hide Render, Shows;
    if items != [] {
      TextNulFree(first, items[0], fmt, d, blocks);
      ItemsNulFree(first.next, items[1..], fmt, d, blocks);
      NulFreeBoth(if |items| > 1 then ItemSeparator(fmt) else [], ItemsText(items[1..], fmt, d));
      NulFreeBoth(Render(items[0], fmt, d), AfterItem(items, fmt, d));
    }
  }

  lemma {:induction false} MembersNulFree(first: Node?, members: seq<Member>, fmt: bool, d: nat, blocks: set<object>)
    requires ShowsMembers(first, members, blocks)
    ensures NulFree(MembersText(members, fmt, d))
    decreases members, 1
  {
    hide Render, Shows, Strings.Quoted, ShowsText, MembersText, AfterValue, FromKey, Indent, LineEnd, KeySeparator;
    Separators(fmt, d);
    MembersTextIs(members, fmt, d);
    if members == [] {
      NulFreeBoth(Indent(fmt, d), [RBRACE]);
    } else {
      TextNulFree(first, members[0].value, fmt, d + 1, blocks);
      MembersNulFree(first.next, members[1..], fmt, d, blocks);
      QuotedParts([], members[0].key);
      MemberParts(members, fmt, d);
      var value, after := Render(members[0].value, fmt, d + 1), AfterValue(members, fmt, d);
      var comma := if |members| > 1 then [COMMA] else [];
      NulFreeBoth(comma, LineEnd(fmt));
      NulFreeBoth(comma + LineEnd(fmt), MembersText(members[1..], fmt, d));
      NulFreeBoth(value, after);
      NulFreeBoth(KeySeparator(fmt), value + after);
      NulFreeBoth(Strings.Quoted(members[0].key), KeySeparator(fmt) + (value + after));
      NulFreeBoth(Indent(fmt, d + 1), FromKey(members, fmt, d));
    }
  }

  lemma Separators(fmt: bool, d: nat)
    ensures NulFree(Indent(fmt, d)) && NulFree(Indent(fmt, d + 1)) && NulFree(LineEnd(fmt)) && NulFree(KeySeparator(fmt))
  {
  }

  lemma MemberParts(members: seq<Member>, fmt: bool, d: nat)
    requires members != []
    ensures FromKey(members, fmt, d)
         == Strings.Quoted(members[0].key)
            + (KeySeparator(fmt) + (Render(members[0].value, fmt, d + 1) + AfterValue(members, fmt, d)))
    ensures AfterValue(members, fmt, d)
         == ((if |members| > 1 then [COMMA] else []) + LineEnd(fmt)) + MembersText(members[1..], fmt, d)
  {
  }

  // ---------- the entry points ----------

  lemma RenderedFirst(v: Json, format: bool)
    ensures Render(v, format, 0) == [] + Render(v, format, 0)
  {
  }

  /** `cJSON_PrintPreallocated`: two bytes more than the text are needed, and they are enough. */
  method PrintPreallocated(
    item: Node, given: array?<byte>, format: bool, mem: Allocator, ghost v: Json, ghost blocks: set<object>)
    returns (ok: bool)
    requires Shows(item, v, blocks) && Int32s(v)
    requires given !in blocks && mem !in blocks && (given != null ==> given.Length <= INT_MAX)
    modifies given, mem
    ensures ok <==> given != null && Proper(v) && |Render(v, format, 0)| + 2 <= given.Length
    ensures ok ==> HoldsText(given, Render(v, format, 0))
    ensures mem.live == old(mem.live)
  {
    hide Shows, Render, Proper, Int32s;
    if given == null {
      return false;
    }
    RenderedFirst(v, format);
    TextNulFree(item, v, format, 0, blocks);
    var p := new PrintBuffer(given, true, format, false, mem);
    ok := PrintValue(p, item, v, blocks, [], Render(v, format, 0));
  }

  /** `cJSON_PrintBuffered`: the text in the block that the last growth left. */
  method PrintBuffered(
    item: Node, prebuffer: int, format: bool, reallocates: bool, mem: Allocator, ghost v: Json, ghost blocks: set<object>)
    returns (printed: array?<byte>)
    requires Shows(item, v, blocks) && Int32s(v) && mem !in blocks && 0 != prebuffer <= INT_MAX
    modifies mem
    ensures printed != null ==> fresh(printed) && HoldsText(printed, Render(v, format, 0)) && prebuffer > 0
    ensures printed != null ==> mem.live == old(mem.live) + {printed}
    ensures printed != null ==> Proper(v) && |Render(v, format, 0)| + 2 <= INT_MAX
    ensures printed != null ==> printed.Length <= Max(prebuffer, 2 * (|Render(v, format, 0)| + 2))
    ensures printed == null ==> mem.live == old(mem.live)
    ensures printed == null ==> mem.refusals > old(mem.refusals) || prebuffer < 0 || !Proper(v) || |Render(v, format, 0)| + 2 > INT_MAX
  {
    hide Shows, Render, Proper, Int32s;
    if prebuffer < 0 {
      return null;
    }
    var given := mem.Allocate(prebuffer);
    if given == null {
      return null;
    }
    RenderedFirst(v, format);
    TextNulFree(item, v, format, 0, blocks);
    var p := new PrintBuffer(given, false, format, reallocates, mem);
    var ok := PrintValue(p, item, v, blocks, [], Render(v, format, 0));
    if ok {
      return p.buffer;
    }
    if p.buffer != null {
      mem.Free(p.buffer);
    }
    printed := null;
  }

  /** The block that `print` returns: reallocated, or copied from the buffer. */
  method Shrink(p: PrintBuffer, ghost text: seq<byte>) returns (printed: array?<byte>)
    requires p.Ready(text) && p.Tailed(text) && !p.noalloc && NulFree(text)
    modifies p`buffer, p.mem
    ensures printed != null ==> fresh(printed) && HoldsText(printed, text) && printed.Length == |text| + 1
    ensures printed != null ==> p.buffer == null && p.mem.live == p.others + {printed}
    ensures printed == null ==> p.buffer == old(p.buffer) && p.mem.live == old(p.mem.live) && p.mem.refusals > old(p.mem.refusals)
  {
    printed := p.mem.Allocate(p.offset + 1);
    if printed == null {
      return;
    }
    var count := if p.reallocates || p.offset + 1 < p.length then p.offset + 1 else p.length;
    forall i | 0 <= i < count {
      printed[i] := p.buffer[i];
    }
    if !p.reallocates {
      printed[p.offset] := 0;
    }
    p.mem.Free(p.buffer);
    p.buffer := null;
  }

  /** `print`: the text in a block of exactly its size. `capacity` is what the buffer has grown to
      and `copied` how many bytes all the regrowths have copied. */
  method Print(
    item: Node, format: bool, reallocates: bool, mem: Allocator, ghost v: Json, ghost blocks: set<object>)
    returns (printed: array?<byte>, ghost capacity: nat, ghost copied: nat)
    requires Shows(item, v, blocks) && Int32s(v) && mem !in blocks
    modifies mem
    ensures printed != null ==>
              fresh(printed) && HoldsText(printed, Render(v, format, 0)) && printed.Length == |Render(v, format, 0)| + 1
    ensures printed != null ==> mem.live == old(mem.live) + {printed}
    ensures printed != null ==> Proper(v) && |Render(v, format, 0)| + 2 <= INT_MAX
    ensures printed == null ==> mem.live == old(mem.live)
    ensures printed == null ==> mem.refusals > old(mem.refusals) || !Proper(v) || |Render(v, format, 0)| + 2 > INT_MAX
    ensures printed != null ==> capacity <= Max(256, 2 * (|Render(v, format, 0)| + 2))
    ensures printed != null && |Render(v, format, 0)| + 2 <= INT_MAX / 2 ==> copied < capacity
  {
    hide Shows, Render, Proper, Int32s;
    printed, capacity, copied := null, 0, 0;
    var given := mem.Allocate(256);
    if given == null {
      return;
    }
    ghost var text := Render(v, format, 0);
    RenderedFirst(v, format);
    TextNulFree(item, v, format, 0, blocks);
    var p := new PrintBuffer(given, false, format, reallocates, mem);
    var ok := PrintValue(p, item, v, blocks, [], text);
    if ok {
      capacity, copied := p.length, p.copied;
      p.UpdateOffset(text);
      printed := Shrink(p, text);
    }
    if printed == null && p.buffer != null {
      mem.Free(p.buffer);
    }
  }
}
