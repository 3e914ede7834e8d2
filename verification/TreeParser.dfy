/** `parse_value`, `parse_array` and `parse_object`: from the buffer into linked nodes. */
module TreeParser {
  import opened Bytes
  import opened Trees
  import opened Strings
  import opened Numbers
  import opened Grammar
  import opened Memory
  import opened Siblings
  import opened Ownership
  import opened Building
  import opened Parser

  /** A node without value and children, as the parser fills it: zeroed but for its name. */
  predicate Empty(s: Shape) {
    s.kids == [] && s.value == null && s.text == [] && !s.isReference && !s.constKey
  }

  /** `s` is `base` with a value: same node, same name, and new blocks only. */
  ghost predicate Filled(base: Shape, s: Shape) {
    && s.node == base.node && s.name == base.name && s.nameText == base.nameText
    && Whole(s) && Owned(base) <= Owned(s)
  }

  function Join(front: seq<Json>, r: ItemsParse): ItemsParse {
    match r
    case Items(items, end) => Items(front + items, end)
    case NoItems(at) => r
  }

  /** What the element loop still has to do behind an element. */
  function ItemsRest(c: seq<byte>, o: nat, d: nat): ItemsParse
    requires o <= |c|
  {
    if Sees(c, o, COMMA) then ParseItems(c, o, d)
    else if Sees(c, o, RBRACKET) then Items([], o + 1)
    else NoItems(o)
  }

  /** `front` has been read since offset `start`; an element follows at `o` if there is `more`. */
  predicate ItemsSoFar(c: seq<byte>, start: nat, d: nat, front: seq<Json>, o: nat, more: bool) {
    && start < |c| && o <= |c| && (more ==> o < |c|) && (!more ==> !Sees(c, o, COMMA))
    && ParseItems(c, start, d) == Join(front, if more then ParseItems(c, o, d) else ItemsRest(c, o, d))
  }

  /** The value at `o` and the blanks behind it. */
  predicate ValueRead(c: seq<byte>, o: nat, d: nat, v: Json, next: nat) {
    o <= |c| && var r := ParseValue(c, o, d); r.Ok? && r.v == v && next == SkipBlanks(c, r.end)
  }

  /** The same for a value that starts behind the byte at `o` and more blanks. */
  predicate ElementRead(c: seq<byte>, o: nat, d: nat, v: Json, next: nat) {
    o < |c| && o < next <= |c| && ValueRead(c, SkipBlanks(c, o + 1), d, v, next)
  }

  lemma ElementParsed(c: seq<byte>, start: nat, d: nat, front: seq<Json>, o: nat, v: Json, next: nat)
    requires ItemsSoFar(c, start, d, front, o, true) && ElementRead(c, o, d, v, next)
    ensures ItemsSoFar(c, start, d, front + [v], next, Sees(c, next, COMMA))
  {
    hide ParseValue, SkipBlanks;
    var rest := ItemsRest(c, next, d);
    if rest.Items? {
      assert ParseItems(c, o, d) == Items([v] + rest.items, rest.itemsEnd) by {
        assert [v] + [] == [v];
      }
      Regroup(front, [v], rest.items);
    }
  }

  lemma ItemsAppend(ss: seq<Shape>, s: Shape)
    ensures ItemsOf(ss + [s]) == ItemsOf(ss) + [TreeOf(s)]
  {
  }

  lemma ElementAppended(c: seq<byte>, start: nat, d: nat, front: seq<Shape>, o: nat, s: Shape, next: nat)
    requires ItemsSoFar(c, start, d, ItemsOf(front), o, true) && ElementRead(c, o, d, TreeOf(s), next)
    ensures o < next <= |c| && ItemsSoFar(c, start, d, ItemsOf(front + [s]), next, Sees(c, next, COMMA))
  {
    hide ItemsSoFar, ValueRead, TreeOf, ItemsOf;
    ItemsAppend(front, s);
    ElementParsed(c, start, d, ItemsOf(front), o, TreeOf(s), next);
  }

  lemma ElementFailed(c: seq<byte>, start: nat, d: nat, front: seq<Json>, o: nat, at: nat)
    requires ItemsSoFar(c, start, d, front, o, true) && ParseValue(c, SkipBlanks(c, o + 1), d) == Fail(at)
    ensures ParseItems(c, start, d) == NoItems(at)
  {
  }

  lemma ItemsBegin(c: seq<byte>, start: nat, d: nat)
    requires start < |c|
    ensures ItemsSoFar(c, start, d, ItemsOf([]), start, true)
  {
  }

  lemma ItemsEnd(c: seq<byte>, start: nat, d: nat, front: seq<Json>, o: nat)
    requires ItemsSoFar(c, start, d, front, o, false)
    ensures ParseItems(c, start, d) == if Sees(c, o, RBRACKET) then Items(front, o + 1) else NoItems(o)
  {
    assert front + [] == front;
  }

  function JoinMembers(front: seq<Member>, r: MembersParse): MembersParse {
    match r
    case Members(members, end) => Members(front + members, end)
    case NoMembers(at) => r
  }

  /** What the member loop still has to do behind a member. */
  function MembersRest(c: seq<byte>, o: nat, d: nat): MembersParse
    requires o <= |c|
  {
    if Sees(c, o, COMMA) then ParseMembers(c, o, d)
    else if Sees(c, o, RBRACE) then Members([], o + 1)
    else NoMembers(o)
  }

  /** `front` has been read since offset `start`; a member follows at `o` if there is `more`. */
  predicate MembersSoFar(c: seq<byte>, start: nat, d: nat, front: seq<Member>, o: nat, more: bool) {
    && start < |c| && o <= |c| && (more ==> o < |c|) && (!more ==> !Sees(c, o, COMMA))
    && (ParseMembers(c, start, d)
        == JoinMembers(front, if more then ParseMembers(c, o, d) else MembersRest(c, o, d)))
  }

  /** The member behind the byte at `o`. */
  predicate MemberRead(c: seq<byte>, o: nat, d: nat, m: Member, next: nat) {
    && o < next <= |c|
    && var k := ReadKey(c, o); k.KeyRead? && k.key == m.key && ValueRead(c, k.value, d, m.value, next)
  }

  lemma MemberParsed(c: seq<byte>, start: nat, d: nat, front: seq<Member>, o: nat, m: Member, next: nat)
    requires MembersSoFar(c, start, d, front, o, true) && MemberRead(c, o, d, m, next)
    ensures MembersSoFar(c, start, d, front + [m], next, Sees(c, next, COMMA))
  {
    hide ParseValue, ReadKey, SkipBlanks;
    var rest := MembersRest(c, next, d);
    if rest.Members? {
      assert ParseMembers(c, o, d) == Members([m] + rest.members, rest.membersEnd) by {
        assert [m] + [] == [m];
      }
      Regroup(front, [m], rest.members);
    }
  }

  lemma MembersAppend(ss: seq<Shape>, s: Shape)
    ensures MembersOf(ss + [s]) == MembersOf(ss) + [Member(s.nameText, TreeOf(s))]
  {
  }

  lemma MemberAppended(c: seq<byte>, start: nat, d: nat, front: seq<Shape>, o: nat, s: Shape, next: nat)
    requires MembersSoFar(c, start, d, MembersOf(front), o, true)
    requires MemberRead(c, o, d, Member(s.nameText, TreeOf(s)), next)
    ensures o < next <= |c| && MembersSoFar(c, start, d, MembersOf(front + [s]), next, Sees(c, next, COMMA))
  {
    hide MembersSoFar, ValueRead, TreeOf, MembersOf;
    MembersAppend(front, s);
    MemberParsed(c, start, d, MembersOf(front), o, Member(s.nameText, TreeOf(s)), next);
  }

  lemma MemberFailed(c: seq<byte>, start: nat, d: nat, front: seq<Member>, o: nat, at: nat)
    requires MembersSoFar(c, start, d, front, o, true)
    requires var k := ReadKey(c, o); k == NoKey(at) || (k.KeyRead? && ParseValue(c, k.value, d) == Fail(at))
    ensures ParseMembers(c, start, d) == NoMembers(at)
  {
    hide ReadKey, ParseValue, SkipBlanks;
  }

  lemma MembersBegin(c: seq<byte>, start: nat, d: nat)
    requires start < |c|
    ensures MembersSoFar(c, start, d, MembersOf([]), start, true)
  {
  }

  lemma MembersEnd(c: seq<byte>, start: nat, d: nat, front: seq<Member>, o: nat)
    requires MembersSoFar(c, start, d, front, o, false)
    ensures ParseMembers(c, start, d) == if Sees(c, o, RBRACE) then Members(front, o + 1) else NoMembers(o)
  {
    assert front + [] == front;
  }

  lemma EmptyBody(base: Shape)
    requires Empty(base) && Holds(base)
    ensures Body(base) && base.node.child == null
  {
  }

  /** A node that has got a scalar. */
  lemma ScalarHolds(base: Shape, s: Shape)
    requires Empty(base) && Separate(base)
    requires s == base.(kind := s.kind, d := s.d, value := s.value, text := s.text)
    requires s.value == null || s.value !in Owned(base)
    requires Body(s) && s.node.child == null
    ensures Filled(base, s) && Holds(s) && Separate(s) && Owned(s) == Owned(base) + One(s.value)
  {
  }

  method ParseValueInto(b: ParseBuffer, item: Node, mem: Allocator, ghost base: Shape)
    returns (ok: bool, ghost s: Shape)
    requires b.offset <= |b.content|
    requires item == base.node && Empty(base) && Holds(base) && Separate(base)
    requires b !in Owned(base) && mem !in Owned(base) && Owned(base) <= mem.live
    modifies b`offset, b`depth, mem, item`kind, item`child, item`valuestring, item`valuedouble
    ensures b.offset <= |b.content| && old(mem.refusals) <= mem.refusals
    ensures ok ==> ParseValue(b.content, old(b.offset), old(b.depth)) == Ok(TreeOf(s), b.offset)
    ensures ok ==> b.depth == old(b.depth) && mem.refusals == old(mem.refusals)
    ensures ok ==> Filled(base, s) && Holds(s) && Separate(s)
    ensures !ok ==> s == base
    ensures ok ==> fresh(Owned(s) - Owned(base)) && mem.live == old(mem.live) + (Owned(s) - Owned(base))
    ensures !ok ==> Holds(base) && mem.live == old(mem.live)
    ensures !ok ==> mem.refusals > old(mem.refusals) || ParseValue(b.content, old(b.offset), old(b.depth)) == Fail(b.offset)
    decreases |b.content| - b.offset, 5
  {
    var c, o := b.content, b.offset;
    s, ok := base, true;
    EmptyBody(base);
    if At(c, o, NULL_TEXT) {
      item.kind := NullKind;
      b.offset := o + 4;
      s := base.(kind := NullKind);
      ScalarHolds(base, s);
    } else if At(c, o, FALSE_TEXT) {
      item.kind := FalseKind;
      b.offset := o + 5;
      s := base.(kind := FalseKind);
      ScalarHolds(base, s);
    } else if At(c, o, TRUE_TEXT) {
      item.kind := TrueKind;
      b.offset := o + 4;
      s := base.(kind := TrueKind);
      ScalarHolds(base, s);
    } else if o < |c| && c[o] == QUOTE {
      ok, s := ParseStringValue(b, item, mem, base);
    } else if o < |c| && (c[o] == MINUS || IsDigit(c[o])) {
      ok, s := ParseNumberValue(b, item, mem, base);
    } else if Sees(c, o, LBRACKET) || Sees(c, o, LBRACE) {
      ok, s := ParseContainer(b, item, mem, base);
    } else {
      ok := false;
    }
  }

  method ParseStringValue(b: ParseBuffer, item: Node, mem: Allocator, ghost base: Shape)
    returns (ok: bool, ghost s: Shape)
    requires Sees(b.content, b.offset, QUOTE)
    requires item == base.node && Empty(base) && Holds(base) && Separate(base)
    requires b !in Owned(base) && mem !in Owned(base) && Owned(base) <= mem.live
    modifies b`offset, b`depth, mem, item`kind, item`child, item`valuestring, item`valuedouble
    ensures b.offset <= |b.content| && old(mem.refusals) <= mem.refusals
    ensures ok ==> ParseValue(b.content, old(b.offset), old(b.depth)) == Ok(TreeOf(s), b.offset)
    ensures ok ==> b.depth == old(b.depth) && mem.refusals == old(mem.refusals)
    ensures ok ==> Filled(base, s) && Holds(s) && Separate(s)
    ensures !ok ==> s == base
    ensures ok ==> fresh(Owned(s) - Owned(base)) && mem.live == old(mem.live) + (Owned(s) - Owned(base))
    ensures !ok ==> Holds(base) && mem.live == old(mem.live)
    ensures !ok ==> mem.refusals > old(mem.refusals) || ParseValue(b.content, old(b.offset), old(b.depth)) == Fail(b.offset)
  {
    hide ParseValue, ReadString;
    Dispatch(b.content, b.offset, b.depth);
    EmptyBody(base);
    ghost var text;
    ok, text := b.ParseString(item, mem);
    s := base;
    if ok {
      s := base.(kind := StringKind, value := item.valuestring, text := text);
      ScalarHolds(base, s);
    }
  }

  method ParseNumberValue(b: ParseBuffer, item: Node, mem: Allocator, ghost base: Shape)
    returns (ok: bool, ghost s: Shape)
    requires b.offset < |b.content| && (b.content[b.offset] == MINUS || IsDigit(b.content[b.offset]))
    requires item == base.node && Empty(base) && Holds(base) && Separate(base)
    requires b !in Owned(base) && mem !in Owned(base) && Owned(base) <= mem.live
    modifies b`offset, b`depth, mem, item`kind, item`child, item`valuestring, item`valuedouble
    ensures b.offset <= |b.content| && old(mem.refusals) <= mem.refusals
    ensures ok ==> ParseValue(b.content, old(b.offset), old(b.depth)) == Ok(TreeOf(s), b.offset)
    ensures ok ==> b.depth == old(b.depth) && mem.refusals == old(mem.refusals)
    ensures ok ==> Filled(base, s) && Holds(s) && Separate(s)
    ensures !ok ==> s == base
    ensures ok ==> fresh(Owned(s) - Owned(base)) && mem.live == old(mem.live) + (Owned(s) - Owned(base))
    ensures !ok ==> Holds(base) && mem.live == old(mem.live)
    ensures !ok ==> mem.refusals > old(mem.refusals) || ParseValue(b.content, old(b.offset), old(b.depth)) == Fail(b.offset)
  {
    hide ParseValue, ReadNumber;
    Dispatch(b.content, b.offset, b.depth);
    EmptyBody(base);
    ok := b.ParseNumber(item);
    s := base;
    if ok {
      s := base.(kind := NumberKind, d := item.valuedouble);
      ScalarHolds(base, s);
    }
  }

  /** The value of a node that has been linked in, and the blanks behind it. */
  method FillItem(
    b: ParseBuffer, head: Node?, item: Node, mem: Allocator, ghost ss: seq<Shape>, ghost base: Shape, ghost live: set<object>)
    returns (ok: bool, ghost s: Shape)
    requires b.offset <= |b.content|
    requires Extended(head, item, ss) && AllWhole(ss)
    requires item == base.node && Empty(base) && Holds(base) && Separate(base)
    requires live !! OwnedAll(ss) && live + OwnedAll(ss) !! Owned(base) && mem.live == live + OwnedAll(ss) + Owned(base)
    requires b !in OwnedAll(ss) + Owned(base) && mem !in OwnedAll(ss) + Owned(base)
    modifies b`offset, b`depth, mem, item`kind, item`child, item`valuestring, item`valuedouble
    ensures b.offset <= |b.content| && old(mem.refusals) <= mem.refusals
    ensures Growing(mem, live, head, item, ss + [s])
    ensures forall x :: x in OwnedAll(ss + [s]) ==> x in OwnedAll(ss) + Owned(base) || fresh(x)
    ensures ok ==> b.depth == old(b.depth) && mem.refusals == old(mem.refusals) && s.nameText == base.nameText
    ensures ok ==> ValueRead(b.content, old(b.offset), old(b.depth), TreeOf(s), b.offset)
    ensures !ok ==> mem.refusals > old(mem.refusals) || ParseValue(b.content, old(b.offset), old(b.depth)) == Fail(b.offset)
    decreases |b.content| - b.offset, 6
  {
    RootsOwned(ss);
    hide Spine, HoldsAll, SeparateAll, Holds, Separate, OwnedAll, Below, BelowAll, ParseValue, SkipBlanks;
    ok, s := ParseValueInto(b, item, mem, base);
    assert forall x :: x in Owned(s) ==> x in Owned(base) || x in Owned(s) - Owned(base);
    assert live + OwnedAll(ss) !! Owned(s);
    BuiltAppend(head, item, ss, s);
    if ok {
      hide Built;
      assert OwnedAll(ss + [s]) <= mem.live;
      b.SkipWhitespace();
    }
  }

  /** One turn of the element loop: a new node is linked in and filled. Without memory for the
      node nothing is added. The loop began at `start`. */
  method ParseElement(
    b: ParseBuffer, head: Node?, last: Node?, mem: Allocator, ghost ss: seq<Shape>, ghost live: set<object>, ghost start: nat)
    returns (ok: bool, head': Node?, last': Node?, ghost ss': seq<Shape>)
    requires b !in OwnedAll(ss) && Growing(mem, live, head, last, ss)
    requires ItemsSoFar(b.content, start, b.depth, ItemsOf(ss), b.offset, true)
    modifies b`offset, b`depth, mem, These(last)`next
    ensures b.offset <= |b.content| && old(mem.refusals) <= mem.refusals
    ensures Growing(mem, live, head', last', ss')
    ensures forall x :: x in OwnedAll(ss') ==> x in OwnedAll(ss) || fresh(x)
    ensures ok ==> old(b.offset) < b.offset && b.depth == old(b.depth) && mem.refusals == old(mem.refusals)
    ensures ok ==> ItemsSoFar(b.content, start, b.depth, ItemsOf(ss'), b.offset, Sees(b.content, b.offset, COMMA))
    ensures !ok ==> mem.refusals > old(mem.refusals) || ParseItems(b.content, start, old(b.depth)) == NoItems(b.offset)
    decreases |b.content| - b.offset, 0
  {
    hide Built, Extended, Spine, HoldsAll, SeparateAll, Holds, Separate, OwnedAll, Owned, BelowAll;
    hide ParseItems, ParseValue, SkipBlanks, TreeOf, ItemsOf, ItemsRest;
    var item;
    item, head' := AttachNew(head, last, mem, ss);
    if item == null {
      return false, head, last, ss;
    }
    last' := item;
    ghost var o, d := b.offset, b.depth;
    b.Advance();
    assert b.depth == d && b.offset == SkipBlanks(b.content, o + 1);
    hide Growing, ItemsSoFar;
    ghost var s;
    ok, s := FillItem(b, head', item, mem, ss, Zeroed(item), live);
    ss' := ss + [s];
    if ok {
      ElementAppended(b.content, start, d, ss, o, s, b.offset);
    } else if mem.refusals == old(mem.refusals) {
      ElementFailed(b.content, start, d, ItemsOf(ss), o, b.offset);
    }
  }

  /** The loop of `parse_array`, with the trees it has built, finished or not. */
  method ParseElements(b: ParseBuffer, mem: Allocator)
    returns (ok: bool, head: Node?, last: Node?, ghost kids: seq<Shape>)
    requires b.offset < |b.content|
    modifies b`offset, b`depth, mem
    ensures b.offset <= |b.content| && old(mem.refusals) <= mem.refusals
    ensures Growing(mem, old(mem.live), head, last, kids) && fresh(OwnedAll(kids))
    ensures ok ==> b.depth == old(b.depth) && mem.refusals == old(mem.refusals)
    ensures ok ==> ParseItems(b.content, old(b.offset), old(b.depth)) == Items(ItemsOf(kids), b.offset + 1)
    ensures !ok ==> mem.refusals > old(mem.refusals) || ParseItems(b.content, old(b.offset), old(b.depth)) == NoItems(b.offset)
    decreases |b.content| - b.offset, 1
  {
    NothingGrows(mem);
    ghost var c, o, d, live := b.content, b.offset, b.depth, mem.live;
    kids, head, last := [], null, null;
    ItemsBegin(c, o, d);
    hide Growing, OwnedAll, ParseItems, ItemsSoFar, ItemsOf;
    var more := true;
    while more
      invariant o <= b.offset <= |c| && (more ==> b.offset < |c|)
      invariant b.depth == d && mem.refusals == old(mem.refusals)
      invariant Growing(mem, live, head, last, kids) && fresh(OwnedAll(kids))
      invariant ItemsSoFar(c, o, d, ItemsOf(kids), b.offset, more)
      decreases |c| - b.offset, more
    {
      GrowingEnds(mem, live, head, last, kids);
      ok, head, last, kids := ParseElement(b, head, last, mem, kids, live, o);
      if !ok {
        return;
      }
      more := b.offset < |b.content| && b.content[b.offset] == COMMA;
    }
    ItemsEnd(c, o, d, ItemsOf(kids), b.offset);
    ok := b.offset < |b.content| && b.content[b.offset] == RBRACKET;
  }

  /** The end of `parse_array` and `parse_object`: the node gets its type and its children. */
  method AdoptChildren(item: Node, kind: Kind, head: Node?, last: Node?, ghost base: Shape, ghost kids: seq<Shape>)
    returns (ghost s: Shape)
    requires kind == ArrayKind || kind == ObjectKind
    requires item == base.node && Empty(base) && Holds(base) && Separate(base)
    requires Built(head, last, kids) && OwnedAll(kids) !! Owned(base) && AllWhole(kids)
    modifies item`kind, item`child, These(head)`prev
    ensures item.kind == kind && item.child == head && TreeOf(s) == ContainerTree(kind, kids)
    ensures s == base.(kind := kind, kids := kids) && Filled(base, s) && Holds(s) && Separate(s)
    ensures Owned(s) == Owned(base) + OwnedAll(kids)
  {
    hide Built, OwnedAll, Separate;
    item.kind := kind;
    ghost var typed := base.(kind := kind);
    Retyped(base, typed);
    s := Adopt(item, head, last, typed, kids);
  }

  lemma Retyped(base: Shape, s: Shape)
    requires Separate(base) && s == base.(kind := s.kind)
    ensures Separate(s) && Owned(s) == Owned(base)
  {
  }

  /** `parse_array` up to the list of its elements; a list that is not completed is freed. */
  method ReadArray(b: ParseBuffer, mem: Allocator)
    returns (ok: bool, head: Node?, last: Node?, ghost kids: seq<Shape>)
    requires Sees(b.content, b.offset, LBRACKET)
    modifies b`offset, b`depth, mem
    ensures b.offset <= |b.content| && old(mem.refusals) <= mem.refusals
    ensures ok ==> Growing(mem, old(mem.live), head, last, kids) && fresh(OwnedAll(kids))
    ensures ok ==> b.depth == old(b.depth) && mem.refusals == old(mem.refusals)
    ensures ok ==> ParseArray(b.content, old(b.offset), old(b.depth)) == Ok(Array(ItemsOf(kids)), b.offset)
    ensures !ok ==> mem.live == old(mem.live)
    ensures !ok ==> mem.refusals > old(mem.refusals) || ParseArray(b.content, old(b.offset), old(b.depth)) == Fail(b.offset)
    decreases |b.content| - b.offset, 2
  {
    NothingGrows(mem);
    hide ParseItems, SkipBlanks, Growing, Built, OwnedAll, TreeOf;
    ok, head, last, kids := false, null, null, [];
    if b.depth >= NESTING_LIMIT {
      return;
    }
    b.depth := b.depth + 1;
    b.Advance();
    if b.offset >= |b.content| {
      b.offset := b.offset - 1;
      return;
    }
    if b.content[b.offset] != RBRACKET {
      b.offset := b.offset - 1;
      ok, head, last, kids := ParseElements(b, mem);
      GrowingEnds(mem, old(mem.live), head, last, kids);
      if !ok {
        Discard(head, last, mem, kids);
        return;
      }
    }
    b.depth := b.depth - 1;
    b.offset := b.offset + 1;
    ok := true;
  }

  lemma NamedHolds(item: Node, text: seq<byte>, s: Shape)
    requires item.kind == StringKind && !item.isReference && !item.constKey && item.child == null
    requires item.valuestring == null && item.valuedouble == 0.0 && item.name != null && HoldsText(item.name, text)
    requires s == Zeroed(item).(kind := StringKind, name := item.name, nameText := text)
    ensures Empty(s) && Holds(s) && Separate(s) && Owned(s) == {item, item.name}
  {
  }

  /** The name of a new member, moved from `valuestring` to `string`, and the blanks behind it. */
  method TakeName(b: ParseBuffer, item: Node, mem: Allocator) returns (ok: bool, ghost text: seq<byte>, ghost end: nat)
    requires b.offset < |b.content| && item.valuestring == null
    modifies b`offset, mem, item`kind, item`valuestring, item`name
    ensures b.offset <= |b.content| && old(mem.refusals) <= mem.refusals && item.valuestring == null
    ensures ok ==> item.kind == StringKind && item.name != null && fresh(item.name) && HoldsText(item.name, text)
    ensures ok ==> mem.live == old(mem.live) + {item.name} && mem.refusals == old(mem.refusals)
    ensures ok ==> ReadString(b.content, old(b.offset)) == StringRead(text, end)
    ensures ok ==> end <= |b.content| && b.offset == SkipBlanks(b.content, end)
    ensures !ok ==> unchanged(item) && mem.live == old(mem.live)
    ensures !ok ==> mem.refusals > old(mem.refusals) || ReadString(b.content, old(b.offset)) == BadString(b.offset)
  {
    hide ReadString, SkipBlanks;
    ok, text := b.ParseString(item, mem);
    end := b.offset;
    if ok {
      b.SkipWhitespace();
      item.name := item.valuestring;
      item.valuestring := null;
    }
  }

  lemma KeyMissing(c: seq<byte>, o: nat, at: nat)
    requires o < |c|
    requires if o + 1 < |c| then ReadString(c, SkipBlanks(c, o + 1)) == BadString(at) else at == o
    ensures ReadKey(c, o) == NoKey(at)
  {
    hide ReadString, SkipBlanks;
  }

  lemma KeyFound(c: seq<byte>, o: nat, text: seq<byte>, end: nat, colon: nat)
    requires o + 1 < |c| && ReadString(c, SkipBlanks(c, o + 1)) == StringRead(text, end)
    requires end <= |c| && colon == SkipBlanks(c, end)
    ensures ReadKey(c, o) == if Sees(c, colon, COLON) then KeyRead(text, SkipBlanks(c, colon + 1)) else NoKey(colon)
  {
    hide ReadString, SkipBlanks;
  }

  /** The name and the colon of a new member. */
  method ReadName(b: ParseBuffer, item: Node, mem: Allocator) returns (ok: bool, ghost base: Shape)
    requires b.offset < |b.content| && item in mem.live
    requires item.kind == InvalidKind && !item.isReference && !item.constKey && item.child == null
    requires item.valuestring == null && item.name == null && item.valuedouble == 0.0
    modifies b`offset, mem, item`kind, item`valuestring, item`name
    ensures b.offset <= |b.content| && old(mem.refusals) <= mem.refusals
    ensures base.node == item && Empty(base) && Holds(base) && Separate(base)
    ensures forall x :: x in Owned(base) ==> x == item || fresh(x)
    ensures item in Owned(base) && mem.live == old(mem.live) + Owned(base)
    ensures ok ==> old(b.offset) + 1 < b.offset && mem.refusals == old(mem.refusals)
    ensures ok ==> ReadKey(b.content, old(b.offset)) == KeyRead(base.nameText, b.offset)
    ensures !ok ==> mem.refusals > old(mem.refusals) || ReadKey(b.content, old(b.offset)) == NoKey(b.offset)
  {
    hide ReadString, ReadKey, SkipBlanks, Holds, Separate, HoldsText;
    ghost var c, o, text, end := b.content, b.offset, [], 0;
    ok, base := false, Zeroed(item);
    if b.offset + 1 < |b.content| {
      b.Advance();
      ok, text, end := TakeName(b, item, mem);
    }
    if !ok {
      ZeroedHolds(item);
      if mem.refusals == old(mem.refusals) {
        KeyMissing(c, o, b.offset);
      }
      return;
    }
    base := base.(kind := StringKind, name := item.name, nameText := text);
    KeyFound(c, o, text, end, b.offset);
    ok := b.offset < |b.content| && b.content[b.offset] == COLON;
    if ok {
      b.Advance();
    }
    NamedHolds(item, text, base);
  }

  /** One turn of the member loop. */
  method ParseMember(
    b: ParseBuffer, head: Node?, last: Node?, mem: Allocator, ghost ss: seq<Shape>, ghost live: set<object>, ghost start: nat)
    returns (ok: bool, head': Node?, last': Node?, ghost ss': seq<Shape>)
    requires b !in OwnedAll(ss) && Growing(mem, live, head, last, ss)
    requires MembersSoFar(b.content, start, b.depth, MembersOf(ss), b.offset, true)
    modifies b`offset, b`depth, mem, These(last)`next
    ensures b.offset <= |b.content| && old(mem.refusals) <= mem.refusals
    ensures Growing(mem, live, head', last', ss')
    ensures forall x :: x in OwnedAll(ss') ==> x in OwnedAll(ss) || fresh(x)
    ensures ok ==> old(b.offset) < b.offset && b.depth == old(b.depth) && mem.refusals == old(mem.refusals)
    ensures ok ==> MembersSoFar(b.content, start, b.depth, MembersOf(ss'), b.offset, Sees(b.content, b.offset, COMMA))
    ensures !ok ==> mem.refusals > old(mem.refusals) || ParseMembers(b.content, start, old(b.depth)) == NoMembers(b.offset)
    decreases |b.content| - b.offset, 0
  {
    RootsOwned(ss);
    hide Built, Spine, HoldsAll, SeparateAll, Holds, Separate, OwnedAll, Owned, BelowAll;
    hide ParseMembers, ParseValue, ReadKey, SkipBlanks, TreeOf, MembersOf, MembersRest;
    var item;
    item, head' := AttachNew(head, last, mem, ss);
    if item == null {
      return false, head, last, ss;
    }
    last' := item;
    ghost var o, d := b.offset, b.depth;
    ghost var s;
    ok, s := ReadName(b, item, mem);
    if ok {
      hide Growing, MembersSoFar;
      ghost var base := s;
      ok, s := FillItem(b, head', item, mem, ss, base, live);
    } else {
      BuiltAppend(head', item, ss, s);
    }
    ss' := ss + [s];
    if ok {
      MemberAppended(b.content, start, d, ss, o, s, b.offset);
    } else if mem.refusals == old(mem.refusals) {
      MemberFailed(b.content, start, d, MembersOf(ss), o, b.offset);
    }
  }

  /** The loop of `parse_object`. */
  method ParseMembersInto(b: ParseBuffer, mem: Allocator)
    returns (ok: bool, head: Node?, last: Node?, ghost kids: seq<Shape>)
    requires b.offset < |b.content|
    modifies b`offset, b`depth, mem
    ensures b.offset <= |b.content| && old(mem.refusals) <= mem.refusals
    ensures Growing(mem, old(mem.live), head, last, kids) && fresh(OwnedAll(kids))
    ensures ok ==> b.depth == old(b.depth) && mem.refusals == old(mem.refusals)
    ensures ok ==> ParseMembers(b.content, old(b.offset), old(b.depth)) == Members(MembersOf(kids), b.offset + 1)
    ensures !ok ==> mem.refusals > old(mem.refusals) || ParseMembers(b.content, old(b.offset), old(b.depth)) == NoMembers(b.offset)
    decreases |b.content| - b.offset, 1
  {
    NothingGrows(mem);
    ghost var c, o, d, live := b.content, b.offset, b.depth, mem.live;
    kids, head, last := [], null, null;
    MembersBegin(c, o, d);
    hide Growing, OwnedAll, ParseMembers, MembersSoFar, MembersOf;
    var more := true;
    while more
      invariant o <= b.offset <= |c| && (more ==> b.offset < |c|)
      invariant b.depth == d && mem.refusals == old(mem.refusals)
      invariant Growing(mem, live, head, last, kids) && fresh(OwnedAll(kids))
      invariant MembersSoFar(c, o, d, MembersOf(kids), b.offset, more)
      decreases |c| - b.offset, more
    {
      GrowingEnds(mem, live, head, last, kids);
      ok, head, last, kids := ParseMember(b, head, last, mem, kids, live, o);
      if !ok {
        return;
      }
      more := b.offset < |b.content| && b.content[b.offset] == COMMA;
    }
    MembersEnd(c, o, d, MembersOf(kids), b.offset);
    ok := b.offset < |b.content| && b.content[b.offset] == RBRACE;
  }

  /** `parse_object` up to the list of its members. */
  method ReadObject(b: ParseBuffer, mem: Allocator)
    returns (ok: bool, head: Node?, last: Node?, ghost kids: seq<Shape>)
    requires Sees(b.content, b.offset, LBRACE)
    modifies b`offset, b`depth, mem
    ensures b.offset <= |b.content| && old(mem.refusals) <= mem.refusals
    ensures ok ==> Growing(mem, old(mem.live), head, last, kids) && fresh(OwnedAll(kids))
    ensures ok ==> b.depth == old(b.depth) && mem.refusals == old(mem.refusals)
    ensures ok ==> ParseObject(b.content, old(b.offset), old(b.depth)) == Ok(Object(MembersOf(kids)), b.offset)
    ensures !ok ==> mem.live == old(mem.live)
    ensures !ok ==> mem.refusals > old(mem.refusals) || ParseObject(b.content, old(b.offset), old(b.depth)) == Fail(b.offset)
    decreases |b.content| - b.offset, 2
  {
    NothingGrows(mem);
    hide ParseMembers, SkipBlanks, Growing, Built, OwnedAll, TreeOf;
    ok, head, last, kids := false, null, null, [];
    if b.depth >= NESTING_LIMIT {
      return;
    }
    b.depth := b.depth + 1;
    b.Advance();
    if b.offset >= |b.content| {
      b.offset := b.offset - 1;
      return;
    }
    if b.content[b.offset] != RBRACE {
      b.offset := b.offset - 1;
      ok, head, last, kids := ParseMembersInto(b, mem);
      GrowingEnds(mem, old(mem.live), head, last, kids);
      if !ok {
        Discard(head, last, mem, kids);
        return;
      }
    }
    b.depth := b.depth - 1;
    b.offset := b.offset + 1;
    ok := true;
  }

  /** Both kinds of container. */
  method ReadContainer(b: ParseBuffer, mem: Allocator)
    returns (ok: bool, kind: Kind, head: Node?, last: Node?, ghost kids: seq<Shape>)
    requires Sees(b.content, b.offset, LBRACKET) || Sees(b.content, b.offset, LBRACE)
    modifies b`offset, b`depth, mem
    ensures b.offset <= |b.content| && old(mem.refusals) <= mem.refusals
    ensures ok ==> Growing(mem, old(mem.live), head, last, kids) && fresh(OwnedAll(kids))
    ensures ok ==> b.depth == old(b.depth) && mem.refusals == old(mem.refusals)
    ensures ok ==> kind == ArrayKind || kind == ObjectKind
    ensures ok ==> ParseValue(b.content, old(b.offset), old(b.depth)) == Ok(ContainerTree(kind, kids), b.offset)
    ensures !ok ==> mem.live == old(mem.live)
    ensures !ok ==> mem.refusals > old(mem.refusals) || ParseValue(b.content, old(b.offset), old(b.depth)) == Fail(b.offset)
    decreases |b.content| - b.offset, 3
  {
    DispatchContainer(b.content, b.offset, b.depth);
    hide ParseValue, ParseArray, ParseObject, Growing, OwnedAll, ItemsOf, MembersOf;
    kind := if b.content[b.offset] == LBRACKET then ArrayKind else ObjectKind;
    if kind == ArrayKind {
      ok, head, last, kids := ReadArray(b, mem);
    } else {
      ok, head, last, kids := ReadObject(b, mem);
    }
  }

  function ContainerTree(kind: Kind, kids: seq<Shape>): Json {
    if kind == ArrayKind then Array(ItemsOf(kids)) else Object(MembersOf(kids))
  }

  lemma DispatchContainer(c: seq<byte>, o: nat, d: nat)
    requires o < |c|
    ensures c[o] == LBRACKET ==> ParseValue(c, o, d) == ParseArray(c, o, d)
    ensures c[o] == LBRACE ==> ParseValue(c, o, d) == ParseObject(c, o, d)
  {
    Dispatch(c, o, d);
  }

  /** The list is read, then the node adopts it. */
  method ParseContainer(b: ParseBuffer, item: Node, mem: Allocator, ghost base: Shape)
    returns (ok: bool, ghost s: Shape)
    requires Sees(b.content, b.offset, LBRACKET) || Sees(b.content, b.offset, LBRACE)
    requires item == base.node && Empty(base) && Holds(base) && Separate(base)
    requires b !in Owned(base) && mem !in Owned(base) && Owned(base) <= mem.live
    modifies b`offset, b`depth, mem, item`kind, item`child, item`valuestring, item`valuedouble
    ensures b.offset <= |b.content| && old(mem.refusals) <= mem.refusals
    ensures ok ==> ParseValue(b.content, old(b.offset), old(b.depth)) == Ok(TreeOf(s), b.offset)
    ensures ok ==> b.depth == old(b.depth) && mem.refusals == old(mem.refusals)
    ensures ok ==> Filled(base, s) && Holds(s) && Separate(s)
    ensures !ok ==> s == base
    ensures ok ==> fresh(Owned(s) - Owned(base)) && mem.live == old(mem.live) + (Owned(s) - Owned(base))
    ensures !ok ==> Holds(base) && mem.live == old(mem.live)
    ensures !ok ==> mem.refusals > old(mem.refusals) || ParseValue(b.content, old(b.offset), old(b.depth)) == Fail(b.offset)
    decreases |b.content| - b.offset, 4
  {
    ghost var live := mem.live;
    hide ParseValue, Growing, Built, Holds, Separate, OwnedAll, ContainerTree;
    var kind, head, last;
    ghost var kids;
    s := base;
    ok, kind, head, last, kids := ReadContainer(b, mem);
    if ok {
      GrowingEnds(mem, live, head, last, kids);
      s := AdoptChildren(item, kind, head, last, base, kids);
    }
  }

  /** The text behind a byte order mark is read into the root node. */
  method ParseRoot(b: ParseBuffer, item: Node, requireNul: bool, mem: Allocator, ghost base: Shape)
    returns (ok: bool, ghost s: Shape)
    requires |b.content| > 0 && b.offset == 0 && b.depth == 0
    requires item == base.node && Empty(base) && Holds(base) && Separate(base)
    requires b !in Owned(base) && mem !in Owned(base) && Owned(base) <= mem.live
    modifies b`offset, b`depth, mem, item`kind, item`child, item`valuestring, item`valuedouble
    ensures b.offset <= |b.content| && old(mem.refusals) <= mem.refusals
    ensures s.node == item && Holds(s) && Separate(s)
    ensures forall x :: x in Owned(s) ==> x in Owned(base) || fresh(x)
    ensures item in Owned(s) && mem.live == old(mem.live) + Owned(s)
    ensures ok ==> ParseText(b.content, requireNul) == Parsed(TreeOf(s), b.offset)
    ensures ok ==> mem.refusals == old(mem.refusals) && s.name == base.name && Whole(s)
    ensures !ok ==> mem.refusals > old(mem.refusals) || ParseText(b.content, requireNul) == Rejected(ErrorPosition(b.content, b.offset))
  {
    hide Holds, Separate, Whole, ParseValue, SkipBlanks, TextStart, TreeOf, ErrorPosition, Empty;
    b.SkipToText();
    assert Holds(base);
    ok, s := ParseValueInto(b, item, mem, base);
    assert forall x :: x in Owned(s) ==> x in Owned(base) || x in Owned(s) - Owned(base);
    if ok && requireNul {
      assert Owned(s) <= mem.live;
      b.SkipWhitespace();
      ok := b.offset < |b.content| && b.content[b.offset] == 0;
    }
  }

  /** The same with the buffer set up; `position` is the parse end or the place of the error. */
  method ParseBytes(content: seq<byte>, item: Node, requireNul: bool, mem: Allocator, ghost base: Shape)
    returns (ok: bool, position: nat, ghost s: Shape)
    requires |content| > 0 && item == base.node && Empty(base) && Holds(base) && Separate(base)
    requires mem !in Owned(base) && Owned(base) <= mem.live
    modifies mem, item`kind, item`child, item`valuestring, item`valuedouble
    ensures s.node == item && Holds(s) && Separate(s) && item in Owned(s)
    ensures forall x :: x in Owned(s) ==> x in Owned(base) || fresh(x)
    ensures mem.live == old(mem.live) + Owned(s)
    ensures ok ==> ParseText(content, requireNul) == Parsed(TreeOf(s), position)
    ensures ok ==> mem.refusals == old(mem.refusals) && s.name == base.name && Whole(s)
    ensures !ok ==> mem.refusals > old(mem.refusals) || ParseText(content, requireNul) == Rejected(position)
  {
    hide Holds, Separate, Whole, ParseText, TreeOf, Empty;
    var b := new ParseBuffer(content);
    ok, s := ParseRoot(b, item, requireNul, mem, base);
    position := if ok || b.offset < |content| then b.offset else |content| - 1;
  }

  /** `cJSON_ParseWithLengthOpts` with its cleanup: either the caller gets a tree of new blocks and
      nothing else stays allocated, or every block has been given back. `tree` is that tree, or
      nothing. */
  method ParseWithLengthOpts(content: seq<byte>, requireNul: bool, mem: Allocator)
    returns (root: Node?, parseEnd: nat, ghost tree: seq<Shape>)
    modifies mem
    ensures (root == null <==> tree == []) && |tree| <= 1
    ensures root == null ==> mem.refusals > old(mem.refusals) || ParseText(content, requireNul) == Rejected(parseEnd)
    ensures root != null ==> ParseText(content, requireNul) == Parsed(TreeOf(tree[0]), parseEnd)
    ensures root != null ==> root == tree[0].node && Holds(tree[0]) && Separate(tree[0]) && Whole(tree[0])
    ensures root != null ==> root.next == root.prev == null && root.name == null && mem.refusals == old(mem.refusals)
    ensures fresh(OwnedAll(tree)) && mem.live == old(mem.live) + OwnedAll(tree)
  {
    assert OwnedAll([]) == {};
    hide Holds, Separate, ParseText, TreeOf, OwnedAll, Owned, HoldsAll, SeparateAll, Whole, Below;
    ghost var live := mem.live;
    root, parseEnd, tree := null, 0, [];
    EmptyText(content, requireNul);
    if |content| == 0 {
      return;
    }
    var item := mem.NewItem();
    if item == null {
      return;
    }
    ZeroedHolds(item);
    var ok;
    ghost var s;
    ok, parseEnd, s := ParseBytes(content, item, requireNul, mem, Zeroed(item));
    Single(s);
    Absorbed(live, item, Owned(s));
    assert fresh(OwnedAll([s])) && mem.live == live + OwnedAll([s]);
    if ok {
      root, tree := item, [s];
    } else {
      Delete(item, mem, [s]);
    }
  }

  lemma Absorbed(live: set<object>, item: object, owned: set<object>)
    requires item in owned && live !! owned
    ensures (live + {item}) + owned == live + owned && (live + owned) - owned == live
  {
  }

  lemma EmptyText(c: seq<byte>, requireNul: bool)
    ensures |c| == 0 ==> ParseText(c, requireNul) == Rejected(0)
  {
  }
}
