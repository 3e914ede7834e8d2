/** Printed text reads back to the tree it was printed from, exactly up to the nesting limit. */
module RoundTrip {
  import opened Bytes
  import opened Trees
  import opened Strings
  import opened Numbers
  import opened Rendering
  import opened Grammar

  /** The text of a readable tree starts with a printable ASCII byte that closes no container. */
  lemma RenderStarts(v: Json, fmt: bool, d: nat)
    requires Plain(v)
    ensures var t := Render(v, fmt, d); t != [] && 32 < t[0] < 128 && t[0] != RBRACKET && t[0] != RBRACE
  {
    hide MembersText, ItemsText;
  }

  predicate Reads(c: seq<byte>, o: nat, v: Json, end: nat, depth: nat)
    requires o <= |c|
  {
    if Height(v) + depth <= NESTING_LIMIT then ParseValue(c, o, depth) == Ok(v, end)
    else ParseValue(c, o, depth).Fail?
  }

  lemma ScalarReads(c: seq<byte>, o: nat, v: Json, fmt: bool, d: nat, depth: nat)
    requires Plain(v) && !v.Array? && !v.Object?
    requires At(c, o, Render(v, fmt, d))
    requires v.Number? ==> Ends(c, o + |Render(v, fmt, d)|)
    ensures ParseValue(c, o, depth) == Ok(v, o + |Render(v, fmt, d)|)
  {
    hide ReadString, ReadNumber, ParseArray, ParseObject, Ends;
    RenderStarts(v, fmt, d);
    AtIndex(c, o, Render(v, fmt, d), 0);
    if v.String? {
      QuotedReads(c, o, v.s);
    } else if v.Number? {
      DecimalReads(c, o, ValueInt(v.d));
    }
    Dispatch(c, o, depth);
  }

  /** For every readable tree, wherever its text stands in a buffer and whatever follows it (a
      number must not be continued): it is read back and the offset ends right behind it when it
      nests within the limit, and it is rejected when it nests deeper. */
  lemma {:induction false} RenderReads(c: seq<byte>, o: nat, v: Json, fmt: bool, d: nat, depth: nat)
    requires Plain(v) && depth <= NESTING_LIMIT
    requires At(c, o, Render(v, fmt, d))
    requires v.Number? ==> Ends(c, o + |Render(v, fmt, d)|)
    ensures Reads(c, o, v, o + |Render(v, fmt, d)|, depth)
    decreases v, 1
  {
    hide ParseValue, At, Ends;
    if v.Array? {
      ArrayReads(c, o, v.items, fmt, d, depth);
    } else if v.Object? {
      ObjectReads(c, o, v.members, fmt, d, depth);
    } else {
      ScalarReads(c, o, v, fmt, d, depth);
    }
  }

  lemma {:induction false} ArrayReads(c: seq<byte>, o: nat, items: seq<Json>, fmt: bool, d: nat, depth: nat)
    requires Plain(Array(items)) && depth <= NESTING_LIMIT
    requires At(c, o, Render(Array(items), fmt, d))
    ensures Reads(c, o, Array(items), o + |Render(Array(items), fmt, d)|, depth)
    decreases items, 1
  {
    hide ParseValue, At, SkipBlanks, ParseItems, ItemsText;
    ItemsTextStarts(items, fmt, d + 1);
    var inner := ItemsText(items, fmt, d + 1);
    AtAppend(c, o, [LBRACKET], inner);
    AtIndex(c, o, [LBRACKET], 0);
    AtIndex(c, o + 1, inner, 0);
    Dispatch(c, o, depth);
    SkipsTo(c, o + 1, o + 1);
    if depth < NESTING_LIMIT && items != [] {
      ItemsRead(c, o, o + 1, items, fmt, d + 1, depth + 1);
    }
  }

  lemma ItemsTextStarts(items: seq<Json>, fmt: bool, d: nat)
    requires Plain(Array(items))
    ensures var t := ItemsText(items, fmt, d); t != [] && t[0] > 32 && (t[0] == RBRACKET <==> items == [])
    ensures items == [] ==> ItemsText(items, fmt, d) == [RBRACKET]
  {
    hide Render;
    if items != [] {
      RenderStarts(items[0], fmt, d);
    }
  }

  /** The element loop, from the byte `o` in front of blanks up to `s`. */
  lemma {:induction false} ItemsRead(
    c: seq<byte>, o: nat, s: nat, items: seq<Json>, fmt: bool, d: nat, depth: nat)
    requires items != [] && Plain(Array(items)) && depth <= NESTING_LIMIT
    requires o < s < |c| && forall i :: o < i < s ==> c[i] <= 32
    requires At(c, s, ItemsText(items, fmt, d))
    ensures if ItemsHeight(items) + depth <= NESTING_LIMIT
            then ParseItems(c, o, depth) == Items(items, s + |ItemsText(items, fmt, d)|)
            else ParseItems(c, o, depth).NoItems?
    decreases items, 0
  {
    hide ParseValue, At, SkipBlanks, Render, ItemsText, ItemSeparator, Ends;
    ItemSplits(c, s, items, fmt, d);
    SkipsTo(c, o + 1, s);
    var end := s + |Render(items[0], fmt, d)|;
    SkipsTo(c, end, end);
    RenderReads(c, s, items[0], fmt, d, depth);
    assert [items[0]] + items[1..] == items;
    assert |items| == 1 ==> items[1..] == [] && ItemsHeight(items[1..]) == 0;
    if |items| > 1 {
      ItemsRead(c, end, end + |ItemSeparator(fmt)|, items[1..], fmt, d, depth);
    }
  }

  lemma ItemsTextIs(items: seq<Json>, fmt: bool, d: nat)
    requires items != []
    ensures ItemsText(items, fmt, d) == Render(items[0], fmt, d) + AfterItem(items, fmt, d)
    ensures |items| == 1 ==> AfterItem(items, fmt, d) == [RBRACKET]
    ensures |items| > 1 ==> AfterItem(items, fmt, d) == ItemSeparator(fmt) + ItemsText(items[1..], fmt, d)
  {
  }

  /** An element and what follows it, each at its place. */
  lemma ItemSplits(c: seq<byte>, s: nat, items: seq<Json>, fmt: bool, d: nat)
    requires items != [] && Plain(items[0])
    requires At(c, s, ItemsText(items, fmt, d))
    ensures var end := s + |Render(items[0], fmt, d)|;
            var next := end + |ItemSeparator(fmt)|;
            && At(c, s, Render(items[0], fmt, d)) && Ends(c, end) && s < end < |c| && c[s] > 32 && c[end] > 32
            && (|items| == 1 ==> c[end] == RBRACKET && s + |ItemsText(items, fmt, d)| == end + 1)
            && (|items| > 1 ==>
                  && c[end] == COMMA && end < next < |c| && (forall i :: end < i < next ==> c[i] <= 32)
                  && At(c, next, ItemsText(items[1..], fmt, d))
                  && s + |ItemsText(items, fmt, d)| == next + |ItemsText(items[1..], fmt, d)|)
  {
    hide At, Render, ItemsText, AfterItem;
    ItemsTextIs(items, fmt, d);
    var text, after := Render(items[0], fmt, d), AfterItem(items, fmt, d);
    AtAppend(c, s, text, after);
    RenderStarts(items[0], fmt, d);
    AtIndex(c, s, text, 0);
    var end := s + |text|;
    AtIndex(c, end, after, 0);
    if |items| > 1 {
      AtAppend(c, end, ItemSeparator(fmt), ItemsText(items[1..], fmt, d));
      if fmt {
        AtIndex(c, end, ItemSeparator(fmt), 1);
      }
      AtIndex(c, end + |ItemSeparator(fmt)|, ItemsText(items[1..], fmt, d), 0);
    }
  }

  lemma {:induction false} ObjectReads(c: seq<byte>, o: nat, members: seq<Member>, fmt: bool, d: nat, depth: nat)
    requires Plain(Object(members)) && depth <= NESTING_LIMIT
    requires At(c, o, Render(Object(members), fmt, d))
    ensures Reads(c, o, Object(members), o + |Render(Object(members), fmt, d)|, depth)
    decreases members, 1
  {
    hide ParseValue, At, SkipBlanks, ParseMembers, FromKey, MembersText, Indent, LineEnd;
    MembersTextIs(members, fmt, d);
    var open := [LBRACE] + LineEnd(fmt);
    assert |open| == 1 + |LineEnd(fmt)|;
    AtAppend(c, o, open, MembersText(members, fmt, d));
    BraceAt(c, o, fmt);
    Dispatch(c, o, depth);
    var s := o + |open|;
    if members == [] {
      ClosingBrace(c, o + 1, s, fmt, d);
    } else {
      FirstMember(c, o, s, members, fmt, d);
      var q := s + |Indent(fmt, d + 1)|;
      if depth < NESTING_LIMIT {
        MembersRead(c, q - 1, q, members, fmt, d, depth + 1);
      }
    }
  }

  lemma BraceAt(c: seq<byte>, o: nat, fmt: bool)
    requires At(c, o, [LBRACE] + LineEnd(fmt))
    ensures var s := o + 1 + |LineEnd(fmt)|; s <= |c| && c[o] == LBRACE && forall i :: o < i < s ==> c[i] <= 32
  {
    hide At;
    AtIndex(c, o, [LBRACE] + LineEnd(fmt), 0);
    if fmt {
      AtIndex(c, o, [LBRACE] + LineEnd(fmt), 1);
    }
  }

  /** Blanks, indentation and the first key. */
  lemma FirstMember(c: seq<byte>, o: nat, s: nat, members: seq<Member>, fmt: bool, d: nat)
    requires members != []
    requires o < s <= |c| && forall i :: o < i < s ==> c[i] <= 32
    requires At(c, s, MembersText(members, fmt, d))
    ensures var q := s + |Indent(fmt, d + 1)|;
            && At(c, q, FromKey(members, fmt, d))
            && q < |c| && c[q] == QUOTE && SkipBlanks(c, o + 1) == q
            && forall i :: o < i < q ==> c[i] <= 32
  {
    hide At, SkipBlanks, KeySeparator, AfterValue, Render, Escape;
    var indent := Indent(fmt, d + 1);
    AtAppend(c, s, indent, FromKey(members, fmt, d));
    BlanksAt(c, s, indent);
    var q := s + |indent|;
    AtIndex(c, q, FromKey(members, fmt, d), 0);
    SkipsTo(c, o + 1, q);
  }

  /** The name and the colon of a printed member; the value starts behind the separator. */
  lemma KeyReads(c: seq<byte>, o: nat, q: nat, key: seq<byte>, fmt: bool)
    requires NulFree(key) && o < q < |c| && forall i :: o < i < q ==> c[i] <= 32
    requires At(c, q, Quoted(key)) && At(c, q + |Quoted(key)|, KeySeparator(fmt))
    requires var start := q + |Quoted(key)| + |KeySeparator(fmt)|; start < |c| && c[start] > 32
    ensures ReadKey(c, o) == KeyRead(key, q + |Quoted(key)| + |KeySeparator(fmt)|)
  {
    hide At, SkipBlanks, ReadString, Escape;
    var colon := q + |Quoted(key)|;
    var start := colon + |KeySeparator(fmt)|;
    AtIndex(c, q, Quoted(key), 0);
    SkipsTo(c, o + 1, q);
    QuotedReads(c, q, key);
    AtIndex(c, colon, KeySeparator(fmt), 0);
    SkipsTo(c, colon, colon);
    if fmt {
      AtIndex(c, colon, KeySeparator(fmt), 1);
    }
    SkipsTo(c, colon + 1, start);
  }

  /** The pieces of a member, each at its place. */
  lemma MemberSplits(c: seq<byte>, q: nat, members: seq<Member>, fmt: bool, d: nat)
    requires members != [] && Plain(members[0].value)
    requires At(c, q, FromKey(members, fmt, d))
    ensures var colon := q + |Quoted(members[0].key)|;
            var start := colon + |KeySeparator(fmt)|;
            var text := Render(members[0].value, fmt, d + 1);
            && At(c, q, Quoted(members[0].key)) && At(c, colon, KeySeparator(fmt))
            && At(c, start, text) && start < |c| && c[start] > 32
            && At(c, start + |text|, AfterValue(members, fmt, d))
            && q + |FromKey(members, fmt, d)| == start + |text| + |AfterValue(members, fmt, d)|
  {
    hide At, KeySeparator, AfterValue, Render, Quoted;
    var text, after := Render(members[0].value, fmt, d + 1), AfterValue(members, fmt, d);
    AtAppend(c, q, Quoted(members[0].key), KeySeparator(fmt) + (text + after));
    var colon := q + |Quoted(members[0].key)|;
    AtAppend(c, colon, KeySeparator(fmt), text + after);
    AtAppend(c, colon + |KeySeparator(fmt)|, text, after);
    RenderStarts(members[0].value, fmt, d + 1);
    AtIndex(c, colon + |KeySeparator(fmt)|, text, 0);
  }

  /** The member loop, from the byte `o` in front of blanks up to the quote `q` of a name. */
  lemma {:induction false} MembersRead(
    c: seq<byte>, o: nat, q: nat, members: seq<Member>, fmt: bool, d: nat, depth: nat)
    requires members != [] && Plain(Object(members)) && depth <= NESTING_LIMIT
    requires o < q < |c| && forall i :: o < i < q ==> c[i] <= 32
    requires At(c, q, FromKey(members, fmt, d))
    ensures if MembersHeight(members) + depth <= NESTING_LIMIT
            then ParseMembers(c, o, depth) == Members(members, q + |FromKey(members, fmt, d)|)
            else ParseMembers(c, o, depth).NoMembers?
    decreases members, 0
  {
    hide ParseValue, At, SkipBlanks, Render, ReadKey, Quoted, KeySeparator, AfterValue, FromKey, Ends;
    var key, value := members[0].key, members[0].value;
    MemberSplits(c, q, members, fmt, d);
    KeyReads(c, o, q, key, fmt);
    var start := q + |Quoted(key)| + |KeySeparator(fmt)|;
    var end := start + |Render(value, fmt, d + 1)|;
    ValueEnds(c, end, members, fmt, d);
    RenderReads(c, start, value, fmt, d + 1, depth);
    assert [members[0]] + members[1..] == members;
    assert |members| == 1 ==> members[1..] == [] && MembersHeight(members[1..]) == 0;
    if |members| > 1 {
      var q' := end + 1 + |LineEnd(fmt)| + |Indent(fmt, d + 1)|;
      MembersRead(c, end, q', members[1..], fmt, d, depth);
    }
  }

  /** Behind a value: the comma and the way to the next name, or the way to the closing brace. */
  lemma ValueEnds(c: seq<byte>, end: nat, members: seq<Member>, fmt: bool, d: nat)
    requires members != [] && At(c, end, AfterValue(members, fmt, d))
    ensures Ends(c, end)
    ensures |members| == 1 ==>
              var e := end + |AfterValue(members, fmt, d)| - 1;
              e < |c| && c[e] == RBRACE && SkipBlanks(c, end) == e
    ensures |members| > 1 ==>
              var q := end + 1 + |LineEnd(fmt)| + |Indent(fmt, d + 1)|;
              && SkipBlanks(c, end) == end && Sees(c, end, COMMA)
              && end < q < |c| && (forall i :: end < i < q ==> c[i] <= 32)
              && At(c, q, FromKey(members[1..], fmt, d))
              && q + |FromKey(members[1..], fmt, d)| == end + |AfterValue(members, fmt, d)|
  {
    hide At, SkipBlanks, FromKey, MembersText, AfterValue;
    if |members| == 1 {
      LastEnds(c, end, members, fmt, d);
    } else {
      InnerEnds(c, end, members, fmt, d);
    }
  }

  lemma AfterLast(members: seq<Member>, fmt: bool, d: nat)
    requires |members| == 1
    ensures var t := AfterValue(members, fmt, d);
            && t == LineEnd(fmt) + (Indent(fmt, d) + [RBRACE]) && !IsNumberByte(t[0])
            && |t| == |LineEnd(fmt)| + |Indent(fmt, d)| + 1
  {
    assert members[1..] == [];
  }

  lemma LastEnds(c: seq<byte>, end: nat, members: seq<Member>, fmt: bool, d: nat)
    requires |members| == 1 && At(c, end, AfterValue(members, fmt, d))
    ensures var e := end + |AfterValue(members, fmt, d)| - 1;
            Ends(c, end) && e < |c| && c[e] == RBRACE && SkipBlanks(c, end) == e
  {
    hide At, SkipBlanks, FromKey, Indent, MembersText, AfterValue;
    var between := LineEnd(fmt);
    AfterLast(members, fmt, d);
    AtAppend(c, end, between, Indent(fmt, d) + [RBRACE]);
    AtIndex(c, end, AfterValue(members, fmt, d), 0);
    BlanksAt(c, end, between);
    ClosingBrace(c, end, end + |between|, fmt, d);
  }

  lemma InnerEnds(c: seq<byte>, end: nat, members: seq<Member>, fmt: bool, d: nat)
    requires |members| > 1 && At(c, end, AfterValue(members, fmt, d))
    ensures var q := end + 1 + |LineEnd(fmt)| + |Indent(fmt, d + 1)|;
            && Ends(c, end) && SkipBlanks(c, end) == end && Sees(c, end, COMMA)
            && end < q < |c| && (forall i :: end < i < q ==> c[i] <= 32)
            && At(c, q, FromKey(members[1..], fmt, d))
            && q + |FromKey(members[1..], fmt, d)| == end + |AfterValue(members, fmt, d)|
  {
    hide At, SkipBlanks, FromKey;
    var between := [COMMA] + LineEnd(fmt);
    AtAppend(c, end, between, MembersText(members[1..], fmt, d));
    AtIndex(c, end, between, 0);
    SkipsTo(c, end, end);
    if fmt {
      AtIndex(c, end, between, 1);
    }
    FirstMember(c, end, end + |between|, members[1..], fmt, d);
  }

  lemma BlanksAt(c: seq<byte>, o: nat, blanks: seq<byte>)
    requires At(c, o, blanks) && forall i :: 0 <= i < |blanks| ==> blanks[i] <= 32
    ensures o + |blanks| <= |c| && forall i :: o <= i < o + |blanks| ==> c[i] <= 32
  {
    forall i | o <= i < o + |blanks| ensures c[i] <= 32 {
      AtIndex(c, o, blanks, i - o);
    }
  }

  lemma ClosingBrace(c: seq<byte>, o: nat, s: nat, fmt: bool, d: nat)
    requires o <= s <= |c| && forall i :: o <= i < s ==> c[i] <= 32
    requires At(c, s, Indent(fmt, d) + [RBRACE])
    ensures var e := s + |Indent(fmt, d)|; e < |c| && c[e] == RBRACE && SkipBlanks(c, o) == e
  {
    hide At, SkipBlanks;
    var e := s + |Indent(fmt, d)|;
    AtAppend(c, s, Indent(fmt, d), [RBRACE]);
    BlanksAt(c, s, Indent(fmt, d));
    AtIndex(c, e, [RBRACE], 0);
    SkipsTo(c, o, e);
  }

  /** The whole of it, with the terminator that the printer writes: both printing modes, with and
      without `require_null_terminated`. A tree that nests too deep is rejected. */
  lemma PrintThenParse(v: Json, fmt: bool, requireNul: bool)
    requires Plain(v)
    ensures var text := Render(v, fmt, 0);
            if Height(v) <= NESTING_LIMIT
            then ParseText(text + [0], requireNul) == Parsed(v, |text|)
            else ParseText(text + [0], requireNul).Rejected?
  {
    hide Render, ParseValue;
    var text := Render(v, fmt, 0);
    var c := text + [0];
    RenderStarts(v, fmt, 0);
    assert !At(c, 0, BYTE_ORDER_MARK) by {
      if At(c, 0, BYTE_ORDER_MARK) {
        AtIndex(c, 0, BYTE_ORDER_MARK, 0);
      }
    }
    SkipsTo(c, 0, 0);
    assert At(c, 0, text);
    RenderReads(c, 0, v, fmt, 0, 0);
  }

  // ---------- raw items ----------

  /** Every element replaced by a raw item that holds its text. */
  function RawItems(items: seq<Json>, fmt: bool, d: nat): (r: seq<Json>)
    ensures |r| == |items|
  {
    seq(|items|, i requires 0 <= i < |items| => Raw(Render(items[i], fmt, d)))
  }

  function RawMembers(members: seq<Member>, fmt: bool, d: nat): (r: seq<Member>)
    ensures |r| == |members|
  {
    seq(|members|, i requires 0 <= i < |members| => Member(members[i].key, Raw(Render(members[i].value, fmt, d))))
  }

  lemma RawText(s: seq<byte>, fmt: bool, d: nat)
    ensures Render(Raw(s), fmt, d) == s
  {
  }

  lemma {:induction false} RawItemsText(items: seq<Json>, fmt: bool, d: nat)
    ensures ItemsText(RawItems(items, fmt, d), fmt, d) == ItemsText(items, fmt, d)
    decreases |items|
  {
    hide Render;
    if items != [] {
      RawText(Render(items[0], fmt, d), fmt, d);
      RawItemsText(items[1..], fmt, d);
      assert RawItems(items, fmt, d)[1..] == RawItems(items[1..], fmt, d);
    }
  }

  lemma {:induction false} RawMembersText(members: seq<Member>, fmt: bool, d: nat)
    ensures MembersText(RawMembers(members, fmt, d + 1), fmt, d) == MembersText(members, fmt, d)
    decreases |members|
  {
    hide Render, Quoted, Indent;
    if members != [] {
      RawText(Render(members[0].value, fmt, d + 1), fmt, d + 1);
      RawMembersText(members[1..], fmt, d);
      var raw := RawMembers(members, fmt, d + 1);
      assert raw[1..] == RawMembers(members[1..], fmt, d + 1);
      assert AfterValue(raw, fmt, d) == AfterValue(members, fmt, d);
      assert FromKey(raw, fmt, d) == FromKey(members, fmt, d);
    }
  }

  /** Raw items are printed as they are: a container of raw items that hold the texts of trees reads
      back as the container of those trees. */
  lemma RawReads(items: seq<Json>, members: seq<Member>, fmt: bool, requireNul: bool)
    requires Plain(Array(items)) && Plain(Object(members))
    requires Height(Array(items)) <= 1000 && Height(Object(members)) <= 1000
    ensures ParseText(Render(Array(RawItems(items, fmt, 1)), fmt, 0) + [0], requireNul).Parsed?
    ensures ParseText(Render(Array(RawItems(items, fmt, 1)), fmt, 0) + [0], requireNul).root == Array(items)
    ensures ParseText(Render(Object(RawMembers(members, fmt, 1)), fmt, 0) + [0], requireNul).Parsed?
    ensures ParseText(Render(Object(RawMembers(members, fmt, 1)), fmt, 0) + [0], requireNul).root == Object(members)
  {
    hide ParseText, ItemsText, MembersText, Plain, Height, LineEnd;
    RawItemsText(items, fmt, 1);
    RawMembersText(members, fmt, 0);
    PrintThenParse(Array(items), fmt, requireNul);
    PrintThenParse(Object(members), fmt, requireNul);
  }

  /** A tree that was read can be printed and read again: the text of any accepted input with
      int32 numbers settles after one print. */
  lemma Reprinted(c: seq<byte>, requireNul: bool, fmt: bool, requireNul': bool)
    requires ParseText(c, requireNul).Parsed? && Int32s(ParseText(c, requireNul).root)
    ensures var v := ParseText(c, requireNul).root;
            var text := Render(v, fmt, 0);
            ParseText(text + [0], requireNul') == Parsed(v, |text|)
  {
    hide Render, ParseValue;
    ParsedValue(c, SkipBlanks(c, TextStart(c)), 0);
    var v := ParseText(c, requireNul).root;
    CleanIsPlain(v);
    PrintThenParse(v, fmt, requireNul');
  }

  lemma {:induction false} CleanIsPlain(v: Json)
    requires Clean(v) && Int32s(v)
    ensures Plain(v)
    decreases v
  {
    match v
    case Array(items) =>
      forall i | 0 <= i < |items| ensures Plain(items[i]) {
        CleanIsPlain(items[i]);
      }
    case Object(members) =>
      forall i | 0 <= i < |members| ensures Plain(members[i].value) {
        CleanIsPlain(members[i].value);
      }
    case _ =>
  }
}
