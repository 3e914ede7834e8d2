/** What printing with format adds: line breaks, tabs and blanks, told by the brackets that are open. */
module Layout {
  import opened Bytes
  import opened Trees
  import opened Strings
  import opened Numbers
  import opened Rendering
  import opened RoundTrip

  // ---------- laying out a text ----------

  /** The brackets open behind a byte. */
  function After(b: byte, open: seq<byte>): seq<byte> {
    if b == LBRACE || b == LBRACKET then open + [b]
    else if (b == RBRACE || b == RBRACKET) && open != [] then open[..|open| - 1]
    else open
  }

  predicate InObject(open: seq<byte>) { open != [] && open[|open| - 1] == LBRACE }

  function NewLine(depth: int): seq<byte> { [NEWLINE] + if depth > 0 then Tabs(depth) else [] }

  /** What becomes of the byte at `p`, outside of literals: braces and the commas between members
      break the line, which starts with a tab for every bracket open. */
  function Piece(t: seq<byte>, p: nat, open: seq<byte>): seq<byte>
    requires p < |t|
  {
    if t[p] == LBRACE then
      [LBRACE] + if p + 1 < |t| && t[p + 1] == RBRACE then [] else NewLine(|open| + 1)
    else if t[p] == RBRACE then NewLine(|open| - 1) + [RBRACE]
    else if t[p] == COMMA then [COMMA] + if InObject(open) then NewLine(|open|) else [SPACE]
    else if t[p] == COLON then [COLON, TAB]
    else [t[p]]
  }

  /** The text from `p` on, laid out. */
  function LaidOut(t: seq<byte>, p: nat, open: seq<byte>): seq<byte>
    requires p <= |t|
    decreases |t| - p
  {
    if p == |t| then []
    else if t[p] == QUOTE then
      match FindClose(t, p + 1)
      case NoClose => t[p..]
      case Close(e) => t[p..e + 1] + LaidOut(t, e + 1, open)
    else Piece(t, p, open) + LaidOut(t, p + 1, After(t[p], open))
  }

  /** No blank stands outside of literals. */
  predicate Dense(t: seq<byte>, p: nat)
    requires p <= |t|
    decreases |t| - p
  {
    p == |t|
    || if t[p] == QUOTE then FindClose(t, p + 1).Close? && Dense(t, FindClose(t, p + 1).at + 1)
       else t[p] > SPACE && Dense(t, p + 1)
  }

  lemma LiteralLaid(t: seq<byte>, p: nat, e: nat, open: seq<byte>)
    requires p < |t| && t[p] == QUOTE && FindClose(t, p + 1) == Close(e)
    ensures LaidOut(t, p, open) == t[p..e + 1] + LaidOut(t, e + 1, open)
    ensures Dense(t, p) <==> Dense(t, e + 1)
  {
    hide FindClose, Piece, After;
  }

  lemma QuotedLaid(t: seq<byte>, p: nat, s: seq<byte>, open: seq<byte>)
    requires NulFree(s) && At(t, p, Quoted(s))
    ensures var e := p + |Quoted(s)|;
            e <= |t| && LaidOut(t, p, open) == Quoted(s) + LaidOut(t, e, open) && (Dense(t, p) <==> Dense(t, e))
  {
    hide At, Escape, LaidOut, Dense, FindClose;
    AtIs(t, p, Quoted(s));
    assert Quoted(s) == [QUOTE] + (Escape(s) + [QUOTE]);
    AtAppend(t, p, [QUOTE], Escape(s) + [QUOTE]);
    AtIndex(t, p, [QUOTE], 0);
    EscapedCloses(t, p + 1, s);
    LiteralLaid(t, p, p + 1 + |Escape(s)|, open);
  }

  /** A byte outside of literals. */
  lemma ByteLaid(t: seq<byte>, p: nat, open: seq<byte>)
    requires p < |t| && t[p] != QUOTE
    ensures LaidOut(t, p, open) == Piece(t, p, open) + LaidOut(t, p + 1, After(t[p], open))
    ensures Dense(t, p) <==> t[p] > SPACE && Dense(t, p + 1)
  {
  }

  predicate Word(s: seq<byte>) {
    forall i :: 0 <= i < |s| ==> s[i] !in {QUOTE, LBRACE, RBRACE, LBRACKET, RBRACKET, COMMA, COLON} && s[i] > SPACE
  }

  lemma {:induction false} WordLaid(t: seq<byte>, p: nat, s: seq<byte>, open: seq<byte>)
    requires At(t, p, s) && Word(s)
    ensures var e := p + |s|;
            e <= |t| && LaidOut(t, p, open) == s + LaidOut(t, e, open) && (Dense(t, p) <==> Dense(t, e))
    decreases |s|
  {
    hide LaidOut, Dense;
    if s == [] {
      assert s + LaidOut(t, p, open) == LaidOut(t, p, open);
    } else {
      assert [s[0]] + s[1..] == s;
      AtAppend(t, p, [s[0]], s[1..]);
      AtIndex(t, p, s, 0);
      ByteLaid(t, p, open);
      WordLaid(t, p + 1, s[1..], open);
      Regroup([s[0]], s[1..], LaidOut(t, p + |s|, open));
    }
  }

  // ---------- trees ----------

  /** What the printer writes with format is what it writes without, laid out. */
  lemma {:induction false} ValueLaid(t: seq<byte>, p: nat, v: Json, d: nat, open: seq<byte>)
    requires Plain(v) && |open| == d && At(t, p, Render(v, false, d))
    ensures var e := p + |Render(v, false, d)|;
            && e <= |t| && LaidOut(t, p, open) == Render(v, true, d) + LaidOut(t, e, open)
            && (Dense(t, p) <==> Dense(t, e))
    decreases v, 1
  {
    hide At, LaidOut, Dense, ItemsText, MembersText, Quoted, Piece, Decimal;
    match v
    case String(s) => QuotedLaid(t, p, s, open);
    case Array(items) =>
      AtAppend(t, p, [LBRACKET], ItemsText(items, false, d + 1));
      BracketLaid(t, p, open);
      ItemsLaid(t, p + 1, items, d + 1, open + [LBRACKET]);
      Regroup([LBRACKET], ItemsText(items, true, d + 1), LaidOut(t, p + |Render(v, false, d)|, open));
    case Object(members) => ObjectLaid(t, p, members, d, open);
    case Number(x) => DecimalWord(ValueInt(x)); WordLaid(t, p, Render(v, false, d), open);
    case _ => WordLaid(t, p, Render(v, false, d), open);
  }

  lemma DecimalWord(n: int)
    ensures Word(Decimal(n))
  {
  }

  lemma BracketLaid(t: seq<byte>, p: nat, open: seq<byte>)
    requires At(t, p, [LBRACKET])
    ensures p < |t| && LaidOut(t, p, open) == [LBRACKET] + LaidOut(t, p + 1, open + [LBRACKET])
    ensures Dense(t, p) <==> Dense(t, p + 1)
  {
    hide LaidOut, Dense;
    ByteLaid(t, p, open);
  }

  /** The elements up to the closing bracket. */
  lemma {:induction false} ItemsLaid(t: seq<byte>, p: nat, items: seq<Json>, d: nat, open: seq<byte>)
    requires Plain(Array(items)) && |open| == d > 0 && open[d - 1] == LBRACKET && At(t, p, ItemsText(items, false, d))
    ensures var e := p + |ItemsText(items, false, d)|;
            && e <= |t| && LaidOut(t, p, open) == ItemsText(items, true, d) + LaidOut(t, e, open[..d - 1])
            && (Dense(t, p) <==> Dense(t, e))
    decreases items, 0
  {
    hide At, LaidOut, Dense, Render, ItemsText, AfterItem, Plain;
    if items == [] {
      NoItemsText(d);
      AtIndex(t, p, [RBRACKET], 0);
      ByteLaid(t, p, open);
    } else {
      ItemsTextIs(items, false, d);
      ItemsTextIs(items, true, d);
      PlainItems(items);
      var text, after := Render(items[0], false, d), AfterItem(items, false, d);
      AtAppend(t, p, text, after);
      ValueLaid(t, p, items[0], d, open);
      AfterItemLaid(t, p + |text|, items, d, open);
      Regroup(Render(items[0], true, d), AfterItem(items, true, d), LaidOut(t, p + |text| + |after|, open[..d - 1]));
    }
  }

  lemma {:induction false} AfterItemLaid(t: seq<byte>, end: nat, items: seq<Json>, d: nat, open: seq<byte>)
    requires items != [] && Plain(Array(items[1..])) && |open| == d > 0 && open[d - 1] == LBRACKET
    requires At(t, end, AfterItem(items, false, d))
    ensures var e := end + |AfterItem(items, false, d)|;
            && e <= |t| && LaidOut(t, end, open) == AfterItem(items, true, d) + LaidOut(t, e, open[..d - 1])
            && (Dense(t, end) <==> Dense(t, e))
    decreases items[1..], 1
  {
    hide At, LaidOut, Dense, Render, ItemsText, AfterItem, Plain;
    ItemsTextIs(items, false, d);
    ItemsTextIs(items, true, d);
    if |items| == 1 {
      AtIndex(t, end, [RBRACKET], 0);
      ByteLaid(t, end, open);
    } else {
      var rest := items[1..];
      AtAppend(t, end, [COMMA], ItemsText(rest, false, d));
      AtIndex(t, end, [COMMA], 0);
      ByteLaid(t, end, open);
      ItemsLaid(t, end + 1, rest, d, open);
      Regroup([COMMA, SPACE], ItemsText(rest, true, d), LaidOut(t, end + 1 + |ItemsText(rest, false, d)|, open[..d - 1]));
    }
  }

  lemma NoItemsText(d: nat)
    ensures ItemsText([], false, d) == ItemsText([], true, d) == [RBRACKET]
  {
  }

  lemma PlainItems(items: seq<Json>)
    requires items != [] && Plain(Array(items))
    ensures Plain(items[0]) && Plain(Array(items[1..]))
  {
  }

  lemma PlainMembers(members: seq<Member>)
    requires members != [] && Plain(Object(members))
    ensures NulFree(members[0].key) && Plain(members[0].value) && Plain(Object(members[1..]))
  {
  }

  lemma {:induction false} ObjectLaid(t: seq<byte>, p: nat, members: seq<Member>, d: nat, open: seq<byte>)
    requires Plain(Object(members)) && |open| == d && At(t, p, Render(Object(members), false, d))
    ensures var e := p + |Render(Object(members), false, d)|;
            && e <= |t| && LaidOut(t, p, open) == Render(Object(members), true, d) + LaidOut(t, e, open)
            && (Dense(t, p) <==> Dense(t, e))
    decreases members, 1
  {
    hide At, LaidOut, Dense, Render, FromKey, Plain;
    ObjectTexts(members, d);
    if members == [] {
      EmptyLaid(t, p, d, open);
    } else {
      var e := p + |Render(Object(members), false, d)|;
      AtAppend(t, p, [LBRACE], FromKey(members, false, d));
      AtIndex(t, p, [LBRACE], 0);
      AtIndex(t, p + 1, FromKey(members, false, d), 0);
      ByteLaid(t, p, open);
      MembersLaid(t, p + 1, members, d, open + [LBRACE]);
      assert (open + [LBRACE])[..d] == open;
      Regroup([LBRACE] + NewLine(d + 1), FromKey(members, true, d), LaidOut(t, e, open));
    }
  }

  lemma ObjectTexts(members: seq<Member>, d: nat)
    ensures members == [] ==> Render(Object(members), false, d) == [LBRACE, RBRACE]
    ensures members == [] ==> Render(Object(members), true, d) == [LBRACE] + (NewLine(d) + [RBRACE])
    ensures members != [] ==> Render(Object(members), false, d) == [LBRACE] + FromKey(members, false, d)
    ensures members != [] ==> Render(Object(members), true, d) == ([LBRACE] + NewLine(d + 1)) + FromKey(members, true, d)
    ensures members != [] ==> var u := FromKey(members, false, d); u != [] && u[0] == QUOTE
  {
    hide FromKey, Tabs;
    NoTabs();
    if members != [] {
      KeyStarts(members, d);
      Regroup([LBRACE, NEWLINE], Tabs(d + 1), FromKey(members, true, d));
      assert [LBRACE] + NewLine(d + 1) == [LBRACE, NEWLINE] + Tabs(d + 1);
    }
  }

  lemma NoTabs()
    ensures Tabs(0) == []
  {
  }

  lemma EmptyLaid(t: seq<byte>, p: nat, d: nat, open: seq<byte>)
    requires At(t, p, [LBRACE, RBRACE]) && |open| == d
    ensures p + 2 <= |t| && LaidOut(t, p, open) == ([LBRACE] + (NewLine(d) + [RBRACE])) + LaidOut(t, p + 2, open)
    ensures Dense(t, p) <==> Dense(t, p + 2)
  {
    hide LaidOut, Dense, NewLine;
    AtIndex(t, p, [LBRACE, RBRACE], 0);
    AtIndex(t, p, [LBRACE, RBRACE], 1);
    ByteLaid(t, p, open);
    ByteLaid(t, p + 1, open + [LBRACE]);
    assert (open + [LBRACE])[..d] == open;
    Regroup([LBRACE], NewLine(d) + [RBRACE], LaidOut(t, p + 2, open));
  }

  /** The members from the first name on up to the closing brace. */
  lemma {:induction false} MembersLaid(t: seq<byte>, p: nat, members: seq<Member>, d: nat, open: seq<byte>)
    requires members != [] && Plain(Object(members)) && |open| == d + 1 && open[d] == LBRACE
    requires At(t, p, FromKey(members, false, d))
    ensures var e := p + |FromKey(members, false, d)|;
            && e <= |t| && LaidOut(t, p, open) == FromKey(members, true, d) + LaidOut(t, e, open[..d])
            && (Dense(t, p) <==> Dense(t, e))
    decreases members, 0
  {
    hide At, LaidOut, Dense, Render, FromKey, AfterValue, Quoted, Plain, NewLine;
    PlainMembers(members);
    MemberTexts(members, d);
    var key, value := members[0].key, members[0].value;
    var text, after, after' := Render(value, false, d + 1), AfterValue(members, false, d), AfterValue(members, true, d);
    AtAppend(t, p, Quoted(key), [COLON] + (text + after));
    var colon := p + |Quoted(key)|;
    AtAppend(t, colon, [COLON], text + after);
    AtAppend(t, colon + 1, text, after);
    var end := colon + 1 + |text|;
    var rest := LaidOut(t, end + |after|, open[..d]);
    QuotedLaid(t, p, key, open);
    AtIndex(t, colon, [COLON], 0);
    ByteLaid(t, colon, open);
    ValueLaid(t, colon + 1, value, d + 1, open);
    AfterLaid(t, end, members, d, open);
    Regroup(Render(value, true, d + 1), after', rest);
    Regroup([COLON, TAB], Render(value, true, d + 1) + after', rest);
    Regroup(Quoted(key), [COLON, TAB] + (Render(value, true, d + 1) + after'), rest);
  }

  lemma {:induction false} AfterLaid(t: seq<byte>, end: nat, members: seq<Member>, d: nat, open: seq<byte>)
    requires members != [] && Plain(Object(members[1..])) && |open| == d + 1 && open[d] == LBRACE
    requires At(t, end, AfterValue(members, false, d))
    ensures var e := end + |AfterValue(members, false, d)|;
            && e <= |t| && LaidOut(t, end, open) == AfterValue(members, true, d) + LaidOut(t, e, open[..d])
            && (Dense(t, end) <==> Dense(t, e))
    decreases members[1..], 1
  {
    hide At, LaidOut, Dense, FromKey, AfterValue, Plain, NewLine;
    AfterTexts(members, d);
    if |members| == 1 {
      AtIndex(t, end, [RBRACE], 0);
      ByteLaid(t, end, open);
    } else {
      var members' := members[1..];
      AtAppend(t, end, [COMMA], FromKey(members', false, d));
      AtIndex(t, end, [COMMA], 0);
      ByteLaid(t, end, open);
      MembersLaid(t, end + 1, members', d, open);
      Regroup([COMMA] + NewLine(d + 1), FromKey(members', true, d), LaidOut(t, end + |AfterValue(members, false, d)|, open[..d]));
    }
  }

  lemma MemberTexts(members: seq<Member>, d: nat)
    requires members != []
    ensures var key, value := Quoted(members[0].key), members[0].value;
            && FromKey(members, false, d) == key + ([COLON] + (Render(value, false, d + 1) + AfterValue(members, false, d)))
            && FromKey(members, true, d) == key + ([COLON, TAB] + (Render(value, true, d + 1) + AfterValue(members, true, d)))
  {
    hide AfterValue, Render;
  }

  lemma AfterTexts(members: seq<Member>, d: nat)
    requires members != []
    ensures |members| == 1 ==> AfterValue(members, false, d) == [RBRACE]
    ensures |members| == 1 ==> AfterValue(members, true, d) == NewLine(d) + [RBRACE]
    ensures |members| > 1 ==> AfterValue(members, false, d) == [COMMA] + FromKey(members[1..], false, d)
    ensures |members| > 1 ==> AfterValue(members, true, d) == ([COMMA] + NewLine(d + 1)) + FromKey(members[1..], true, d)
  {
    hide FromKey, Tabs, MembersText;
    NoTabs();
    MembersTextIs(members[1..], false, d);
    MembersTextIs(members[1..], true, d);
    if |members| == 1 {
      assert members[1..] == [];
      Regroup([NEWLINE], Tabs(d), [RBRACE]);
    } else {
      Regroup([COMMA, NEWLINE], Tabs(d + 1), FromKey(members[1..], true, d));
      assert [COMMA] + NewLine(d + 1) == [COMMA, NEWLINE] + Tabs(d + 1);
    }
  }

  /** Printing with format lays out what printing without it gives, and that has no blank outside of
      literals. */
  lemma FormatLaysOut(v: Json)
    requires Plain(v)
    ensures Render(v, true, 0) == LaidOut(Render(v, false, 0), 0, [])
    ensures Dense(Render(v, false, 0), 0)
  {
    hide At, Render, Plain;
    var t := Render(v, false, 0);
    AtWhole(t);
    ValueLaid(t, 0, v, 0, []);
    assert LaidOut(t, |t|, []) == [] && Dense(t, |t|);
    assert Render(v, true, 0) + [] == Render(v, true, 0);
  }
}
