/** `print_value`, `print_array` and `print_object` refine `Render`: for any capacity to start with
    and however often the buffer grows, a print that succeeds has written exactly the rendering. */
module Printer {
  import opened Bytes
  import opened Trees
  import opened Strings
  import opened Memory
  import opened Views
  import opened Rendering
  import opened PrintBuffers

  lemma ProperHead(items: seq<Json>)
    requires items != []
    ensures Proper(Array(items)) <==> Proper(items[0]) && Proper(Array(items[1..]))
    ensures Int32s(Array(items)) <==> Int32s(items[0]) && Int32s(Array(items[1..]))
  {
    forall i | 1 <= i < |items| ensures items[i] == items[1..][i - 1] {
    }
    assert items == [items[0]] + items[1..];
  }

  /** `whole` is the text with the rendering of the value behind it. */
  method PrintValue(
    p: PrintBuffer, item: Node, ghost v: Json, ghost blocks: set<object>, ghost text: seq<byte>, ghost whole: seq<byte>)
    returns (ok: bool)
    requires p.Ready(text) && Shows(item, v, blocks) && Int32s(v)
    requires p !in blocks && p.mem !in blocks && p.buffer !in blocks
    requires whole == text + Render(v, p.format, p.depth)
    modifies p, p.mem, p.buffer
    ensures ok ==> p.Tailed(whole) && p.depth == old(p.depth) && Proper(v) && p.Fits(|whole|)
    ensures !ok ==> p.Stopped() && (p.OutOfMemory() || !Proper(v) || !p.Fits(|whole|))
    ensures p.buffer == old(p.buffer) || p.buffer == null || fresh(p.buffer)
    decreases v, 2
  {
    hide ShowsItems, ShowsMembers, ItemsText, MembersText, PrintBuffer.Tailed, PrintBuffer.OutOfMemory;
    ghost var d := p.depth;
    match item.kind
    case NullKind => ok := p.Literal(NULL_TEXT, text);
    case FalseKind => ok := p.Literal(FALSE_TEXT, text);
    case TrueKind => ok := p.Literal(TRUE_TEXT, text);
    case NumberKind => ok := p.PrintNumber(item.valuedouble, text);
    case RawKind =>
      if item.valuestring == null {
        ok := false;
      } else {
        var n := StringLength(item.valuestring, v.text);
        ok := p.Literal(item.valuestring[..n], text);
      }
    case StringKind => ok := p.PrintStringPtr(item.valuestring, v.s, text);
    case ArrayKind => ok := PrintArray(p, item, v.items, blocks, text, whole);
    case ObjectKind => ok := PrintObject(p, item, v.members, blocks, text, whole);
    case _ => ok := false;
  }

  lemma ArrayBegins(whole: seq<byte>, text: seq<byte>, items: seq<Json>, fmt: bool, d: nat)
    requires whole == text + Render(Array(items), fmt, d)
    ensures ItemsDue(whole, text + [LBRACKET], items, fmt, d + 1) && |text| + 1 < |whole|
  {
    Regroup(text, [LBRACKET], ItemsText(items, fmt, d + 1));
  }

  lemma ArrayEnds(whole: seq<byte>, text: seq<byte>, fmt: bool, d: nat)
    requires ItemsDue(whole, text, [], fmt, d)
    ensures whole == text + [RBRACKET]
  {
  }

  /** `print_array` */
  method PrintArray(
    p: PrintBuffer, item: Node, ghost items: seq<Json>, ghost blocks: set<object>, ghost text: seq<byte>, ghost whole: seq<byte>)
    returns (ok: bool)
    requires p.Ready(text) && item in blocks && ShowsItems(item.child, items, blocks) && Int32s(Array(items))
    requires p !in blocks && p.mem !in blocks && p.buffer !in blocks
    requires whole == text + Render(Array(items), p.format, p.depth)
    modifies p, p.mem, p.buffer
    ensures ok ==> p.Tailed(whole) && p.depth == old(p.depth) && Proper(Array(items)) && p.Fits(|whole|)
    ensures !ok ==> p.Stopped() && (p.OutOfMemory() || !Proper(Array(items)) || !p.Fits(|whole|))
    ensures p.buffer == old(p.buffer) || p.buffer == null || fresh(p.buffer)
    decreases items, 3
  {
    hide PrintBuffer.Ready, PrintBuffer.Tailed, PrintBuffer.Stopped, PrintBuffer.OutOfMemory;
    hide ItemsText, ItemsDue, Proper, Int32s, ShowsItems, Render;
    ArrayBegins(whole, text, items, p.format, p.depth);
    ok := p.Append([LBRACKET], 0, text);
    if ok {
      p.depth := p.depth + 1;
      ok := PrintArrayBody(p, item.child, items, blocks, text + [LBRACKET], whole);
    }
  }

  /** The elements and the closing bracket. */
  method PrintArrayBody(
    p: PrintBuffer, first: Node?, ghost items: seq<Json>, ghost blocks: set<object>, ghost before: seq<byte>,
    ghost whole: seq<byte>)
    returns (ok: bool)
    requires p.Ready(before) && ShowsItems(first, items, blocks) && Int32s(Array(items))
    requires p !in blocks && p.mem !in blocks && p.buffer !in blocks && p.depth > 0
    requires ItemsDue(whole, before, items, p.format, p.depth)
    modifies p, p.mem, p.buffer
    ensures ok ==> p.Tailed(whole) && p.depth == old(p.depth) - 1 && Proper(Array(items)) && p.Fits(|whole|)
    ensures !ok ==> p.Stopped() && (p.OutOfMemory() || !Proper(Array(items)) || !p.Fits(|whole|))
    ensures p.buffer == old(p.buffer) || p.buffer == null || fresh(p.buffer)
    decreases items, 2
  {
    hide PrintBuffer.Ready, PrintBuffer.Tailed, PrintBuffer.Stopped, PrintBuffer.OutOfMemory;
    hide ItemsText, ItemsDue, Proper, Int32s, ShowsItems;
    ghost var text;
    ok, text := PrintItems(p, first, items, blocks, before, whole);
    if ok {
      ArrayEnds(whole, text, p.format, p.depth);
      ok := p.Literal([RBRACKET], text);
      p.depth := p.depth - 1;
    }
  }

  /** `whole` is `text` and the rest of an array from `items` on. */
  predicate ItemsDue(whole: seq<byte>, text: seq<byte>, items: seq<Json>, fmt: bool, d: nat) {
    whole == text + ItemsText(items, fmt, d)
  }

  lemma ItemDue(whole: seq<byte>, text: seq<byte>, items: seq<Json>, fmt: bool, d: nat)
    requires ItemsDue(whole, text, items, fmt, d) && items != []
    ensures var printed := text + Render(items[0], fmt, d);
            && |printed| + 1 <= |whole|
            && (|items| > 1 ==> |printed| + |ItemSeparator(fmt)| + 1 <= |whole|)
            && ItemsDue(whole, if |items| > 1 then printed + ItemSeparator(fmt) else printed, items[1..], fmt, d)
  {
    hide Render;
    var printed, rest := text + Render(items[0], fmt, d), ItemsText(items[1..], fmt, d);
    Regroup(text, Render(items[0], fmt, d), AfterItem(items, fmt, d));
    Regroup(printed, if |items| > 1 then ItemSeparator(fmt) else [], rest);
    assert printed + [] == printed;
  }

  /** One turn of the loop of `print_array`. */
  method PrintElement(
    p: PrintBuffer, item: Node, ghost items: seq<Json>, ghost blocks: set<object>, ghost text: seq<byte>, ghost whole: seq<byte>)
    returns (ok: bool, ghost text': seq<byte>)
    requires p.Ready(text) && ShowsItems(item, items, blocks) && items != [] && Int32s(items[0])
    requires p !in blocks && p.mem !in blocks && p.buffer !in blocks
    requires ItemsDue(whole, text, items, p.format, p.depth)
    modifies p, p.mem, p.buffer
    ensures ok ==> p.Ready(text') && p.depth == old(p.depth) && Proper(items[0])
    ensures ok ==> ItemsDue(whole, text', items[1..], p.format, p.depth)
    ensures !ok ==> p.Stopped() && (p.OutOfMemory() || !Proper(items[0]) || !p.Fits(|whole|))
    ensures p.buffer == old(p.buffer) || p.buffer == null || fresh(p.buffer)
    decreases items, 0
  {
    hide PrintBuffer.Ready, PrintBuffer.Tailed, PrintBuffer.Stopped, PrintBuffer.OutOfMemory, Shows, ShowsItems, ItemsDue;
    hide Render, Proper, Int32s, ItemSeparator;
    ItemsHead(item, items, blocks);
    ItemDue(whole, text, items, p.format, p.depth);
    ghost var more := |items| > 1;
    text' := text + Render(items[0], p.format, p.depth);
    ok := PrintValue(p, item, items[0], blocks, text, text');
    if !ok {
      return;
    }
    p.UpdateOffset(text');
    assert item.next != null <==> more;
    if item.next != null {
      ok := p.AppendTerminated(ItemSeparator(p.format), text');
      text' := text' + ItemSeparator(p.format);
    }
  }

  /** `rest` is still to be printed of `items`. */
  predicate ItemsLeft(items: seq<Json>, rest: seq<Json>) {
    && |rest| <= |items| && rest == items[|items| - |rest|..] && Int32s(Array(rest))
    && (Proper(Array(items)) <==> Proper(Array(rest)))
  }

  lemma ItemsLeftAll(items: seq<Json>)
    requires Int32s(Array(items))
    ensures ItemsLeft(items, items)
  {
  }

  lemma ItemsLeftHead(items: seq<Json>, rest: seq<Json>)
    requires ItemsLeft(items, rest) && rest != []
    ensures Int32s(rest[0]) && |rest| <= |items| && rest == items[|items| - |rest|..]
    ensures if Proper(rest[0]) then ItemsLeft(items, rest[1..]) else !Proper(Array(items))
  {
    ProperHead(rest);
  }

  lemma ItemsLeftNone(items: seq<Json>)
    requires ItemsLeft(items, [])
    ensures Proper(Array(items))
  {
  }

  /** The loop of `print_array`. */
  method PrintItems(
    p: PrintBuffer, first: Node?, ghost items: seq<Json>, ghost blocks: set<object>, ghost before: seq<byte>,
    ghost whole: seq<byte>)
    returns (ok: bool, ghost text: seq<byte>)
    requires p.Ready(before) && ShowsItems(first, items, blocks) && Int32s(Array(items))
    requires p !in blocks && p.mem !in blocks && p.buffer !in blocks && p.depth > 0
    requires ItemsDue(whole, before, items, p.format, p.depth)
    modifies p, p.mem, p.buffer
    ensures ok ==> p.Ready(text) && p.depth == old(p.depth) && Proper(Array(items))
    ensures ok ==> ItemsDue(whole, text, [], p.format, p.depth)
    ensures !ok ==> p.Stopped() && (p.OutOfMemory() || !Proper(Array(items)) || !p.Fits(|whole|))
    ensures p.buffer == old(p.buffer) || p.buffer == null || fresh(p.buffer)
    decreases items, 1
  {
    hide PrintBuffer.Ready, PrintBuffer.Tailed, PrintBuffer.Stopped, PrintBuffer.OutOfMemory, Shows, ShowsItems;
    hide ItemsLeft, ItemsDue, Proper, Int32s;
    var current := first;
    ghost var rest, d, fmt := items, p.depth, p.format;
    ok, text := true, before;
    ItemsLeftAll(items);
    while current != null
      invariant p.Ready(text) && p.depth == d && ShowsItems(current, rest, blocks)
      invariant p.buffer == old(p.buffer) || p.buffer == null || fresh(p.buffer)
      invariant ItemsDue(whole, text, rest, fmt, d) && ItemsLeft(items, rest)
      decreases |rest|
    {
      ItemsHead(current, rest, blocks);
      ItemsLeftHead(items, rest);
      ok, text := PrintElement(p, current, rest, blocks, text, whole);
      if !ok {
        return;
      }
      current, rest := current.next, rest[1..];
    }
    ShowsNone(rest, [], blocks);
    ItemsLeftNone(items);
  }

  // ---------- objects ----------

  lemma ProperMember(members: seq<Member>)
    requires members != []
    ensures Proper(Object(members)) <==> Proper(members[0].value) && Proper(Object(members[1..]))
    ensures Int32s(Object(members)) <==> Int32s(members[0].value) && Int32s(Object(members[1..]))
  {
    forall i | 1 <= i < |members| ensures members[i] == members[1..][i - 1] {
    }
    assert members == [members[0]] + members[1..];
  }

  /** What follows a member's value on its line. */
  function MemberEnd(more: bool, fmt: bool): seq<byte> { (if more then [COMMA] else []) + LineEnd(fmt) }

  lemma RegroupAll<T>(a: seq<T>, b: seq<T>, c: seq<T>, d: seq<T>, e: seq<T>, f: seq<T>, rest: seq<T>)
    ensures a + (b + (c + (d + (e + (f + rest))))) == (((((a + b) + c) + d) + e) + f) + rest
  {
  }

  /** A member up to the end of its value. */
  function MemberText(m: Member, fmt: bool, d: nat): seq<byte> {
    Indent(fmt, d) + (Quoted(m.key) + (KeySeparator(fmt) + Render(m.value, fmt, d)))
  }

  /** `whole` is `text` and the rest of an object from `members` on, which stand at depth `d`. */
  predicate MembersDue(whole: seq<byte>, text: seq<byte>, members: seq<Member>, fmt: bool, d: nat) {
    d > 0 && whole == text + MembersText(members, fmt, d - 1)
  }

  lemma RenderMember(members: seq<Member>, fmt: bool, d: nat, text: seq<byte>)
    requires members != []
    ensures var valued := text + MemberText(members[0], fmt, d + 1);
            text + MembersText(members, fmt, d)
            == (valued + MemberEnd(|members| > 1, fmt)) + MembersText(members[1..], fmt, d)
  {
    var m := members[0];
    hide Render, Quoted, Indent, KeySeparator, LineEnd;
    assert AfterValue(members, fmt, d) == MemberEnd(|members| > 1, fmt) + MembersText(members[1..], fmt, d);
    assert MembersText(members, fmt, d) == Indent(fmt, d + 1) + FromKey(members, fmt, d);
    RegroupAll(text, Indent(fmt, d + 1), Quoted(m.key), KeySeparator(fmt), Render(m.value, fmt, d + 1),
               MemberEnd(|members| > 1, fmt), MembersText(members[1..], fmt, d));
    RegroupAll(text, Indent(fmt, d + 1), Quoted(m.key), KeySeparator(fmt), Render(m.value, fmt, d + 1), [], []);
  }

  lemma MemberDue(whole: seq<byte>, text: seq<byte>, members: seq<Member>, fmt: bool, d: nat)
    requires MembersDue(whole, text, members, fmt, d) && members != []
    ensures var valued := text + MemberText(members[0], fmt, d);
            var end := MemberEnd(|members| > 1, fmt);
            && |valued| + |end| + 1 <= |whole|
            && MembersDue(whole, valued + end, members[1..], fmt, d)
  {
    RenderMember(members, fmt, d - 1, text);
    hide MembersText, MemberText, MemberEnd;
  }

  /** The indentation, the name and the colon of a member. */
  method PrintKey(p: PrintBuffer, name: array?<byte>, ghost key: seq<byte>, ghost blocks: set<object>, ghost text: seq<byte>, ghost named: seq<byte>)
    returns (ok: bool)
    requires p.Ready(text) && p.buffer !in blocks && p !in blocks && p.mem !in blocks && p.depth > 0
    requires ShowsText(name, key, blocks)
    requires named == (text + Indent(p.format, p.depth)) + Quoted(key)
    modifies p, p.mem, p.buffer
    ensures ok ==> p.Ready(named + KeySeparator(p.format)) && p.depth == old(p.depth)
    ensures !ok ==> p.Stopped() && (p.OutOfMemory() || !p.Fits(|named + KeySeparator(p.format)|))
    ensures p.buffer == old(p.buffer) || p.buffer == null || fresh(p.buffer)
  {
    hide PrintBuffer.Ready, PrintBuffer.Tailed, PrintBuffer.Stopped, PrintBuffer.OutOfMemory, Quoted;
    ok := true;
    if p.format {
      ok := p.Append(Tabs(p.depth), 0, text);
    } else {
      assert text + [] == text;
    }
    if ok {
      ok := p.PrintStringPtr(name, key, text + Indent(p.format, p.depth));
    }
    if ok {
      p.UpdateOffset(named);
      ok := p.Append(KeySeparator(p.format), 0, named);
    }
  }

  /** A member up to the end of its value. */
  method PrintNamed(
    p: PrintBuffer, item: Node, ghost m: Member, ghost blocks: set<object>, ghost text: seq<byte>, ghost valued: seq<byte>)
    returns (ok: bool)
    requires p.Ready(text) && item in blocks && Shows(item, m.value, blocks) && ShowsText(item.name, m.key, blocks)
    requires p !in blocks && p.mem !in blocks && p.buffer !in blocks && p.depth > 0 && Int32s(m.value)
    requires valued == text + MemberText(m, p.format, p.depth)
    modifies p, p.mem, p.buffer
    ensures ok ==> p.Tailed(valued) && p.depth == old(p.depth) && Proper(m.value) && p.Fits(|valued|)
    ensures !ok ==> p.Stopped() && (p.OutOfMemory() || !Proper(m.value) || !p.Fits(|valued|))
    ensures p.buffer == old(p.buffer) || p.buffer == null || fresh(p.buffer)
    decreases m, 0
  {
    hide PrintBuffer.Ready, PrintBuffer.Tailed, PrintBuffer.Stopped, PrintBuffer.OutOfMemory, Shows, Render, Proper, Int32s, Quoted, Indent;
    ghost var named := (text + Indent(p.format, p.depth)) + Quoted(m.key);
    RegroupAll(text, Indent(p.format, p.depth), Quoted(m.key), KeySeparator(p.format),
               Render(m.value, p.format, p.depth), [], []);
    ok := PrintKey(p, item.name, m.key, blocks, text, named);
    if ok {
      ok := PrintValue(p, item, m.value, blocks, named + KeySeparator(p.format), valued);
    }
  }

  /** One turn of the loop of `print_object`. */
  method PrintMember(
    p: PrintBuffer, item: Node, ghost members: seq<Member>, ghost blocks: set<object>, ghost text: seq<byte>,
    ghost whole: seq<byte>)
    returns (ok: bool, ghost text': seq<byte>)
    requires p.Ready(text) && ShowsMembers(item, members, blocks) && members != [] && Int32s(members[0].value)
    requires p !in blocks && p.mem !in blocks && p.buffer !in blocks && p.depth > 0
    requires MembersDue(whole, text, members, p.format, p.depth)
    modifies p, p.mem, p.buffer
    ensures ok ==> p.Ready(text') && p.depth == old(p.depth) && Proper(members[0].value)
    ensures ok ==> MembersDue(whole, text', members[1..], p.format, p.depth)
    ensures !ok ==> p.Stopped() && (p.OutOfMemory() || !Proper(members[0].value) || !p.Fits(|whole|))
    ensures p.buffer == old(p.buffer) || p.buffer == null || fresh(p.buffer)
    decreases members, 0
  {
    hide PrintBuffer.Ready, PrintBuffer.Tailed, PrintBuffer.Stopped, PrintBuffer.OutOfMemory, Shows, ShowsMembers, ShowsText;
    hide Proper, Int32s, MembersDue, MemberText, MemberEnd;
    MembersHead(item, members, blocks);
    ghost var m, more := members[0], |members| > 1;
    MemberDue(whole, text, members, p.format, p.depth);
    text' := text + MemberText(m, p.format, p.depth);
    ok := PrintNamed(p, item, m, blocks, text, text');
    if !ok {
      return;
    }
    p.UpdateOffset(text');
    assert item.next != null <==> more;
    var end := MemberEnd(item.next != null, p.format);
    ok := p.AppendTerminated(end, text');
    text' := text' + end;
  }

  /** `rest` is still to be printed of `members`. */
  predicate MembersLeft(members: seq<Member>, rest: seq<Member>) {
    && |rest| <= |members| && rest == members[|members| - |rest|..] && Int32s(Object(rest))
    && (Proper(Object(members)) <==> Proper(Object(rest)))
  }

  lemma MembersLeftAll(members: seq<Member>)
    requires Int32s(Object(members))
    ensures MembersLeft(members, members)
  {
  }

  lemma MembersLeftHead(members: seq<Member>, rest: seq<Member>)
    requires MembersLeft(members, rest) && rest != []
    ensures Int32s(rest[0].value) && |rest| <= |members| && rest == members[|members| - |rest|..]
    ensures if Proper(rest[0].value) then MembersLeft(members, rest[1..]) else !Proper(Object(members))
  {
    ProperMember(rest);
  }

  lemma MembersLeftNone(members: seq<Member>)
    requires MembersLeft(members, [])
    ensures Proper(Object(members))
  {
  }

  /** The loop of `print_object`. */
  method PrintMembers(
    p: PrintBuffer, first: Node?, ghost members: seq<Member>, ghost blocks: set<object>, ghost before: seq<byte>,
    ghost whole: seq<byte>)
    returns (ok: bool, ghost text: seq<byte>)
    requires p.Ready(before) && ShowsMembers(first, members, blocks) && Int32s(Object(members))
    requires p !in blocks && p.mem !in blocks && p.buffer !in blocks && p.depth > 0
    requires MembersDue(whole, before, members, p.format, p.depth)
    modifies p, p.mem, p.buffer
    ensures ok ==> p.Ready(text) && p.depth == old(p.depth) && Proper(Object(members))
    ensures ok ==> MembersDue(whole, text, [], p.format, p.depth)
    ensures !ok ==> p.Stopped() && (p.OutOfMemory() || !Proper(Object(members)) || !p.Fits(|whole|))
    ensures p.buffer == old(p.buffer) || p.buffer == null || fresh(p.buffer)
    decreases members, 1
  {
    hide PrintBuffer.Ready, PrintBuffer.Tailed, PrintBuffer.Stopped, PrintBuffer.OutOfMemory, Shows, ShowsMembers;
    hide MembersLeft, MembersDue, Proper, Int32s;
    var current := first;
    ghost var rest, d, fmt := members, p.depth, p.format;
    ok, text := true, before;
    MembersLeftAll(members);
    while current != null
      invariant p.Ready(text) && p.depth == d && ShowsMembers(current, rest, blocks)
      invariant p.buffer == old(p.buffer) || p.buffer == null || fresh(p.buffer)
      invariant MembersDue(whole, text, rest, fmt, d) && MembersLeft(members, rest)
      decreases |rest|
    {
      MembersHead(current, rest, blocks);
      MembersLeftHead(members, rest);
      ok, text := PrintMember(p, current, rest, blocks, text, whole);
      if !ok {
        return;
      }
      current, rest := current.next, rest[1..];
    }
    ShowsNone([], rest, blocks);
    MembersLeftNone(members);
  }

  lemma ObjectBegins(whole: seq<byte>, text: seq<byte>, members: seq<Member>, fmt: bool, d: nat)
    requires whole == text + Render(Object(members), fmt, d)
    ensures var start := [LBRACE] + LineEnd(fmt);
            MembersDue(whole, text + start, members, fmt, d + 1) && |text| + |start| < |whole|
  {
    Regroup(text, [LBRACE] + LineEnd(fmt), MembersText(members, fmt, d));
  }

  lemma ObjectEnds(whole: seq<byte>, text: seq<byte>, fmt: bool, d: nat)
    requires MembersDue(whole, text, [], fmt, d)
    ensures d > 0 && whole == text + (Indent(fmt, d - 1) + [RBRACE]) && NulFree(Indent(fmt, d - 1) + [RBRACE])
  {
  }

  /** `print_object` */
  method PrintObject(
    p: PrintBuffer, item: Node, ghost members: seq<Member>, ghost blocks: set<object>, ghost text: seq<byte>,
    ghost whole: seq<byte>)
    returns (ok: bool)
    requires p.Ready(text) && item in blocks && ShowsMembers(item.child, members, blocks) && Int32s(Object(members))
    requires p !in blocks && p.mem !in blocks && p.buffer !in blocks
    requires whole == text + Render(Object(members), p.format, p.depth)
    modifies p, p.mem, p.buffer
    ensures ok ==> p.Tailed(whole) && p.depth == old(p.depth) && Proper(Object(members)) && p.Fits(|whole|)
    ensures !ok ==> p.Stopped() && (p.OutOfMemory() || !Proper(Object(members)) || !p.Fits(|whole|))
    ensures p.buffer == old(p.buffer) || p.buffer == null || fresh(p.buffer)
    decreases members, 3
  {
    hide PrintBuffer.Ready, PrintBuffer.Tailed, PrintBuffer.Stopped, PrintBuffer.OutOfMemory;
    hide MembersText, MembersDue, Proper, Int32s, ShowsMembers, Render;
    ghost var start := [LBRACE] + LineEnd(p.format);
    ObjectBegins(whole, text, members, p.format, p.depth);
    ok := p.Append([LBRACE] + LineEnd(p.format), 1, text);
    if ok {
      p.depth := p.depth + 1;
      ok := PrintObjectBody(p, item.child, members, blocks, text + start, whole);
    }
  }

  /** The members and the closing brace. */
  method PrintObjectBody(
    p: PrintBuffer, first: Node?, ghost members: seq<Member>, ghost blocks: set<object>, ghost before: seq<byte>,
    ghost whole: seq<byte>)
    returns (ok: bool)
    requires p.Ready(before) && ShowsMembers(first, members, blocks) && Int32s(Object(members))
    requires p !in blocks && p.mem !in blocks && p.buffer !in blocks && p.depth > 0
    requires MembersDue(whole, before, members, p.format, p.depth)
    modifies p, p.mem, p.buffer
    ensures ok ==> p.Tailed(whole) && p.depth == old(p.depth) - 1 && Proper(Object(members)) && p.Fits(|whole|)
    ensures !ok ==> p.Stopped() && (p.OutOfMemory() || !Proper(Object(members)) || !p.Fits(|whole|))
    ensures p.buffer == old(p.buffer) || p.buffer == null || fresh(p.buffer)
    decreases members, 2
  {
    hide PrintBuffer.Ready, PrintBuffer.Tailed, PrintBuffer.Stopped, PrintBuffer.OutOfMemory;
    hide MembersText, MembersDue, Proper, Int32s, ShowsMembers;
    ghost var text;
    ok, text := PrintMembers(p, first, members, blocks, before, whole);
    if ok {
      ObjectEnds(whole, text, p.format, p.depth);
      ok := p.Literal(Indent(p.format, p.depth - 1) + [RBRACE], text);
      p.depth := p.depth - 1;
    }
  }
}
