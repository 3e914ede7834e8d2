/** Minifying formatted text: exactly when it gives the unformatted text. */
module MinifyPrint {
  import opened Bytes
  import opened Trees
  import opened Strings
  import opened Rendering
  import opened Minify
  import RoundTrip

  predicate EndsInBackslash(s: seq<byte>) { s != [] && s[|s| - 1] == BACKSLASH }

  /** No string and no name ends in a backslash. */
  predicate Tidy(v: Json)
    decreases v
  {
    match v
    case String(s) => !EndsInBackslash(s)
    case Array(items) => TidyItems(items)
    case Object(members) => TidyMembers(members)
    case _ => true
  }

  predicate TidyItems(items: seq<Json>)
    decreases items
  {
    items == [] || (Tidy(items[0]) && TidyItems(items[1..]))
  }

  predicate TidyMembers(members: seq<Member>)
    decreases members
  {
    members == []
    || (!EndsInBackslash(members[0].key) && Tidy(members[0].value) && TidyMembers(members[1..]))
  }

  /** The only string that ends in a backslash is the last thing in the text: nothing but closing
      brackets follows it. */
  predicate TidyButLast(v: Json)
    decreases v
  {
    match v
    case String(s) => EndsInBackslash(s)
    case Array(items) => TidyButLastItem(items)
    case _ => false
  }

  predicate TidyButLastItem(items: seq<Json>)
    decreases items
  {
    items != []
    && if |items| == 1 then TidyButLast(items[0]) else Tidy(items[0]) && TidyButLastItem(items[1..])
  }

  /** The trees whose formatted text minifies to their unformatted text. */
  predicate Minifiable(v: Json) { Tidy(v) || TidyButLast(v) }

  /** Two texts that differ at a position that both have. */
  ghost predicate Clash(a: seq<byte>, b: seq<byte>) {
    exists i :: 0 <= i < |a| && i < |b| && a[i] != b[i]
  }

  lemma ClashAt(a: seq<byte>, b: seq<byte>, i: nat)
    requires i < |a| && i < |b| && a[i] != b[i]
    ensures Clash(a, b)
  {
  }

  lemma ClashBehind(x: seq<byte>, a: seq<byte>, b: seq<byte>)
    requires Clash(a, b)
    ensures Clash(x + a, x + b)
  {
    var i :| 0 <= i < |a| && i < |b| && a[i] != b[i];
    ClashAt(x + a, x + b, |x| + i);
  }

  lemma ClashLonger(a: seq<byte>, b: seq<byte>, c: seq<byte>)
    requires Clash(a, b)
    ensures Clash(a, b + c)
  {
    var i :| 0 <= i < |a| && i < |b| && a[i] != b[i];
    ClashAt(a, b + c, i);
  }

  // ---------- runs of bytes ----------

  /** Bytes that the scanner copies outside of a string. */
  predicate Copied(t: seq<byte>) {
    forall i :: 0 <= i < |t| ==> !IsSpace(t[i]) && t[i] != SLASH && t[i] != QUOTE
  }

  lemma CopyOutside(s: seq<byte>, p: nat, t: seq<byte>)
    requires At(s, p, t) && Copied(t) && t != []
    ensures Outside(s, p) == [t[0]] + Outside(s, p + 1)
  {
    AtIndex(s, p, t, 0);
  }

  lemma {:induction false} CopiesOutside(s: seq<byte>, p: nat, t: seq<byte>)
    requires At(s, p, t) && Copied(t)
    ensures Outside(s, p) == t + Outside(s, p + |t|)
    decreases |t|
  {
    hide Outside, IsSpace;
    if t == [] {
      assert t + Outside(s, p) == Outside(s, p);
    } else {
      CopyOutside(s, p, t);
      AtAppend(s, p, [t[0]], t[1..]);
      assert [t[0]] + t[1..] == t;
      CopiesOutside(s, p + 1, t[1..]);
      Regroup([t[0]], t[1..], Outside(s, p + |t|));
    }
  }

  lemma {:induction false} DropsOutside(s: seq<byte>, p: nat, t: seq<byte>)
    requires At(s, p, t) && forall i :: 0 <= i < |t| ==> IsSpace(t[i])
    ensures Outside(s, p) == Outside(s, p + |t|)
    decreases |t|
  {
    if t != [] {
      AtAppend(s, p, [t[0]], t[1..]);
      assert [t[0]] + t[1..] == t;
      AtIndex(s, p, t, 0);
      DropsOutside(s, p + 1, t[1..]);
    }
  }

  /** The text minified from `e` on, inside of a string that is still open or outside of one. */
  function Behind(s: seq<byte>, e: nat, open: bool): seq<byte>
    requires e <= |s|
  {
    if open then Inside(s, e) else Outside(s, e)
  }

  lemma InsideCopies(s: seq<byte>, p: nat)
    requires p < |s| && s[p] != QUOTE && (s[p] != BACKSLASH || Peek(s, p + 1) != QUOTE)
    ensures Inside(s, p) == [s[p]] + Inside(s, p + 1)
  {
  }

  /** One escaped byte inside of a literal, followed by something that is not its closing quote
      when the byte is a backslash. */
  lemma EscapedByteInside(s: seq<byte>, p: nat, b: byte)
    requires At(s, p, EscapeByte(b))
    requires b == BACKSLASH ==> Peek(s, p + 2) != QUOTE
    ensures Inside(s, p) == EscapeByte(b) + Inside(s, p + |EscapeByte(b)|)
  {
    hide Inside, At;
    var t := EscapeByte(b);
    forall i | 0 <= i < |t| ensures p + |t| <= |s| && s[p + i] == t[i] { AtIndex(s, p, t, i); }
    AtIndex(s, p, t, 0);
    if b == QUOTE {
      assert s[p + 1] == t[1];
      PairInside(s, p);
    } else {
      if |t| > 1 {
        assert s[p + 1] == t[1];
      }
      InsideCopies(s, p);
      if |t| == 2 {
        InsideCopies(s, p + 1);
        assert t == [t[0]] + [t[1]];
        Regroup([t[0]], [t[1]], Inside(s, p + 2));
      } else if |t| == 6 {
        assert s[p + 2] == t[2] && s[p + 3] == t[3] && s[p + 4] == t[4] && s[p + 5] == t[5];
        InsideCopies(s, p + 1);
        InsideCopies(s, p + 2);
        InsideCopies(s, p + 3);
        InsideCopies(s, p + 4);
        InsideCopies(s, p + 5);
        assert t == [t[0]] + ([t[1]] + ([t[2]] + ([t[3]] + ([t[4]] + [t[5]]))));
        SixBytes(t[0], t[1], t[2], t[3], t[4], t[5], Inside(s, p + 6));
      }
    }
  }

  lemma PairInside(s: seq<byte>, p: nat)
    requires p + 1 < |s| && s[p] == BACKSLASH && s[p + 1] == QUOTE
    ensures Inside(s, p) == [BACKSLASH, QUOTE] + Inside(s, p + 2)
  {
  }

  lemma SixBytes(a: byte, b: byte, c: byte, d: byte, e: byte, f: byte, rest: seq<byte>)
    ensures [a] + ([b] + ([c] + ([d] + ([e] + ([f] + rest))))) == [a, b, c, d, e, f] + rest
  {
  }

  lemma EscapeStart(t: seq<byte>)
    requires t != []
    ensures Escape(t) != [] && Escape(t)[0] != QUOTE
  {
  }

  lemma LastBackslash(s: seq<byte>, p: nat)
    requires At(s, p, [BACKSLASH, BACKSLASH, QUOTE])
    ensures Inside(s, p) == [BACKSLASH, BACKSLASH, QUOTE] + Inside(s, p + 3)
  {
    hide Inside, At;
    var t := [BACKSLASH, BACKSLASH, QUOTE];
    AtIndex(s, p, t, 0);
    AtIndex(s, p, t, 1);
    AtIndex(s, p, t, 2);
    InsideCopies(s, p);
    PairInside(s, p + 1);
    Regroup([BACKSLASH], [BACKSLASH, QUOTE], Inside(s, p + 3));
  }

  lemma {:induction false} EscapedInside(s: seq<byte>, p: nat, t: seq<byte>)
    requires At(s, p, Escape(t) + [QUOTE])
    ensures var e := p + |Escape(t)| + 1;
            Inside(s, p) == (Escape(t) + [QUOTE]) + Behind(s, e, EndsInBackslash(t))
    decreases |t|
  {
    hide Inside, At, Behind, EscapeByte;
    var e := p + |Escape(t)| + 1;
    AtIndex(s, p, Escape(t) + [QUOTE], 0);
    if t == [] {
      assert Escape(t) + [QUOTE] == [QUOTE];
      QuoteInside(s, p);
      ClosedBehind(s, e);
    } else if t == [BACKSLASH] {
      assert Escape(t) + [QUOTE] == [BACKSLASH, BACKSLASH, QUOTE] by { OneBackslash(); }
      LastBackslash(s, p);
      OpenBehind(s, e);
    } else {
      EscapedSplits(s, p, t);
      var head, rest := EscapeByte(t[0]), Escape(t[1..]) + [QUOTE];
      AtIndex(s, p + |head|, rest, 0);
      if t[1..] != [] {
        EscapeStart(t[1..]);
      }
      EscapedByteInside(s, p, t[0]);
      EscapedInside(s, p + |head|, t[1..]);
      assert Escape(t) + [QUOTE] == head + rest;
      Regroup(head, rest, Behind(s, e, EndsInBackslash(t)));
    }
  }

  lemma OpenBehind(s: seq<byte>, e: nat)
    requires e <= |s|
    ensures Behind(s, e, true) == Inside(s, e)
  {
  }

  lemma ClosedBehind(s: seq<byte>, e: nat)
    requires e <= |s|
    ensures Behind(s, e, false) == Outside(s, e)
  {
  }

  lemma QuoteInside(s: seq<byte>, p: nat)
    requires p < |s| && s[p] == QUOTE
    ensures Inside(s, p) == [QUOTE] + Outside(s, p + 1)
  {
  }

  /** A printed string at `p`, read from outside. */
  lemma QuotedOutside(s: seq<byte>, p: nat, t: seq<byte>)
    requires At(s, p, Quoted(t))
    ensures Outside(s, p) == Quoted(t) + Behind(s, p + |Quoted(t)|, EndsInBackslash(t))
  {
    hide Inside, Outside, At;
    assert Quoted(t) == [QUOTE] + (Escape(t) + [QUOTE]);
    AtAppend(s, p, [QUOTE], Escape(t) + [QUOTE]);
    AtIndex(s, p, [QUOTE], 0);
    OutsideAtQuote(s, p);
    EscapedInside(s, p + 1, t);
    Regroup([QUOTE], Escape(t) + [QUOTE], Behind(s, p + |Quoted(t)|, EndsInBackslash(t)));
  }

  // ---------- trees ----------

  /** What minifying the formatted text between `p` and `e` does, `u` being the unformatted text:
      it gives `u` and is outside of a string behind it; or it gives `u` but takes what follows
      for the inside of a string; or it goes wrong before `u` is complete. */
  ghost predicate Outcome(s: seq<byte>, p: nat, e: nat, u: seq<byte>, tidy: bool, open: bool)
    requires p <= |s| && e <= |s|
  {
    && (tidy ==> Outside(s, p) == u + Outside(s, e))
    && (open ==> Outside(s, p) == u + Inside(s, e))
    && (!tidy && !open ==> Clash(Outside(s, p), u))
  }

  lemma OutcomeBehind(s: seq<byte>, p: nat, q: nat, e: nat, x: seq<byte>, u: seq<byte>, tidy: bool, open: bool)
    requires p <= |s| && q <= |s| && e <= |s|
    requires Outside(s, p) == x + Outside(s, q)
    requires Outcome(s, q, e, u, tidy, open)
    ensures Outcome(s, p, e, x + u, tidy, open)
  {
    hide Outside, Inside;
    if tidy {
      Regroup(x, u, Outside(s, e));
    }
    if open {
      Regroup(x, u, Inside(s, e));
    }
    if !tidy && !open {
      ClashBehind(x, Outside(s, q), u);
    }
  }

  lemma {:induction false} TidyIsNotOpen(v: Json)
    ensures !(Tidy(v) && TidyButLast(v))
    decreases v, 1
  {
    if v.Array? {
      TidyItemsAreNotOpen(v.items);
    }
  }

  lemma {:induction false} TidyItemsAreNotOpen(items: seq<Json>)
    ensures !(TidyItems(items) && TidyButLastItem(items))
    decreases items, 0
  {
    if items != [] {
      TidyIsNotOpen(items[0]);
      TidyItemsAreNotOpen(items[1..]);
    }
  }

  lemma ScalarMinifies(s: seq<byte>, p: nat, v: Json, d: nat)
    requires Plain(v) && !v.Array? && !v.Object? && At(s, p, Render(v, true, d))
    ensures var e := p + |Render(v, true, d)|;
            e <= |s| && Outcome(s, p, e, Render(v, false, d), Tidy(v), TidyButLast(v))
  {
    hide Outside, Inside, At, Quoted, Numbers.Decimal;
    var t := Render(v, true, d);
    RoundTrip.RenderStarts(v, true, d);
    AtIndex(s, p, t, 0);
    if v.String? {
      QuotedOutside(s, p, v.s);
    } else {
      if v.Number? {
        DecimalCopied(ValueInt(v.d));
      }
      CopiesOutside(s, p, t);
    }
  }

  lemma DecimalCopied(n: int)
    ensures Copied(Numbers.Decimal(n))
  {
  }

  /** For every readable tree, wherever its formatted text stands. */
  lemma {:induction false} ValueMinifies(s: seq<byte>, p: nat, v: Json, d: nat)
    requires Plain(v) && At(s, p, Render(v, true, d))
    ensures var e := p + |Render(v, true, d)|;
            e <= |s| && Outcome(s, p, e, Render(v, false, d), Tidy(v), TidyButLast(v))
    decreases v, 1
  {
    hide At, Outcome, Outside, ItemsText, MembersText;
    if v.Array? {
      AtAppend(s, p, [LBRACKET], ItemsText(v.items, true, d + 1));
      CopiesOutside(s, p, [LBRACKET]);
      ItemsMinify(s, p + 1, v.items, d + 1);
      OutcomeBehind(s, p, p + 1, p + |Render(v, true, d)|, [LBRACKET],
                    ItemsText(v.items, false, d + 1), Tidy(v), TidyButLast(v));
    } else if v.Object? {
      ObjectMinifies(s, p, v.members, d);
    } else {
      ScalarMinifies(s, p, v, d);
    }
  }

  lemma {:induction false} ItemsMinify(s: seq<byte>, p: nat, items: seq<Json>, d: nat)
    requires Plain(Array(items)) && At(s, p, ItemsText(items, true, d))
    ensures var e := p + |ItemsText(items, true, d)|;
            e <= |s| && Outcome(s, p, e, ItemsText(items, false, d), TidyItems(items), TidyButLastItem(items))
    decreases items, 0
  {
    hide At, Outside, Inside, Render;
    if items == [] {
      AtIndex(s, p, [RBRACKET], 0);
      CopiesOutside(s, p, [RBRACKET]);
    } else {
      var text, u := Render(items[0], true, d), Render(items[0], false, d);
      var q, e := p + |text|, p + |ItemsText(items, true, d)|;
      AtAppend(s, p, text, AfterItem(items, true, d));
      ValueMinifies(s, p, items[0], d);
      TidyIsNotOpen(items[0]);
      if Tidy(items[0]) {
        TidyItem(s, p, q, items, d);
      } else if TidyButLast(items[0]) {
        OpenItem(s, p, q, items, d);
      } else {
        ClashLonger(Outside(s, p), u, AfterItem(items, false, d));
      }
    }
  }

  /** The first element is tidy: the separator loses its blank and the rest decides. */
  lemma {:induction false} TidyItem(s: seq<byte>, p: nat, q: nat, items: seq<Json>, d: nat)
    requires items != [] && Plain(Array(items)) && Tidy(items[0])
    requires p <= |s| && q <= |s| && At(s, q, AfterItem(items, true, d))
    requires Outside(s, p) == Render(items[0], false, d) + Outside(s, q)
    ensures var e := q + |AfterItem(items, true, d)|;
            e <= |s| && Outcome(s, p, e, ItemsText(items, false, d), TidyItems(items), TidyButLastItem(items))
    decreases items[1..], 1
  {
    hide At, Outside, Inside, Render, Outcome;
    var u, rest := Render(items[0], false, d), items[1..];
    var e := q + |AfterItem(items, true, d)|;
    TidyIsNotOpen(items[0]);
    AtAppend(s, q, if |items| > 1 then ItemSeparator(true) else [], ItemsText(rest, true, d));
    if |items| > 1 {
      AtAppend(s, q, [COMMA], [SPACE]);
      assert [COMMA] + [SPACE] == ItemSeparator(true);
      CopiesOutside(s, q, [COMMA]);
      DropsOutside(s, q + 1, [SPACE]);
      ItemsMinify(s, q + 2, rest, d);
      OutcomeBehind(s, q, q + 2, e, [COMMA], ItemsText(rest, false, d), TidyItems(rest), TidyButLastItem(rest));
    } else {
      ItemsMinify(s, q, rest, d);
      assert [] + ItemsText(rest, false, d) == ItemsText(rest, false, d);
    }
    OutcomeBehind(s, p, q, e, u, AfterItem(items, false, d), TidyItems(rest), TidyButLastItem(rest));
  }

  /** The first element leaves the scanner inside of a string: that is right only at the end. */
  lemma OpenItem(s: seq<byte>, p: nat, q: nat, items: seq<Json>, d: nat)
    requires items != [] && Plain(Array(items)) && !Tidy(items[0]) && TidyButLast(items[0])
    requires p <= |s| && q <= |s| && At(s, q, AfterItem(items, true, d))
    requires Outside(s, p) == Render(items[0], false, d) + Inside(s, q)
    ensures var e := q + |AfterItem(items, true, d)|;
            e <= |s| && Outcome(s, p, e, ItemsText(items, false, d), TidyItems(items), TidyButLastItem(items))
  {
    hide At, Outside, Inside, Render;
    var u := Render(items[0], false, d);
    if |items| == 1 {
      assert AfterItem(items, true, d) == [RBRACKET] == AfterItem(items, false, d);
      AtIndex(s, q, [RBRACKET], 0);
      InsideCopies(s, q);
      Regroup(u, [RBRACKET], Inside(s, q + 1));
    } else {
      AtIndex(s, q, AfterItem(items, true, d), 0);
      AtIndex(s, q, AfterItem(items, true, d), 1);
      InsideCopies(s, q);
      InsideCopies(s, q + 1);
      RoundTrip.RenderStarts(items[1], false, d);
      var after := AfterItem(items, false, d);
      assert items[1..][0] == items[1];
      assert after == [COMMA] + ItemsText(items[1..], false, d);
      assert after[1] == ItemsText(items[1..], false, d)[0] == Render(items[1], false, d)[0];
      ClashAt(Inside(s, q), after, 1);
      ClashBehind(u, Inside(s, q), after);
    }
  }

  lemma {:induction false} ObjectMinifies(s: seq<byte>, p: nat, members: seq<Member>, d: nat)
    requires Plain(Object(members)) && At(s, p, Render(Object(members), true, d))
    ensures var e := p + |Render(Object(members), true, d)|;
            e <= |s| && Outcome(s, p, e, Render(Object(members), false, d), TidyMembers(members), false)
    decreases members, 4
  {
    hide At, Outside, Inside, MembersText, Outcome;
    AtAppend(s, p, [LBRACE, NEWLINE], MembersText(members, true, d));
    AtAppend(s, p, [LBRACE], [NEWLINE]);
    assert [LBRACE] + [NEWLINE] == [LBRACE, NEWLINE];
    CopiesOutside(s, p, [LBRACE]);
    DropsOutside(s, p + 1, [NEWLINE]);
    MembersMinify(s, p + 2, members, d);
    assert [LBRACE] + [] == [LBRACE];
    OutcomeBehind(s, p, p + 2, p + |Render(Object(members), true, d)|, [LBRACE],
                  MembersText(members, false, d), TidyMembers(members), false);
  }

  lemma {:induction false} MembersMinify(s: seq<byte>, p: nat, members: seq<Member>, d: nat)
    requires Plain(Object(members)) && At(s, p, MembersText(members, true, d))
    ensures var e := p + |MembersText(members, true, d)|;
            e <= |s| && Outcome(s, p, e, MembersText(members, false, d), TidyMembers(members), false)
    decreases members, 3
  {
    hide At, Outside, Inside, Outcome, FromKey;
    if members == [] {
      AtAppend(s, p, Indent(true, d), [RBRACE]);
      var q := p + |Indent(true, d)|;
      DropsOutside(s, p, Indent(true, d));
      AtIndex(s, q, [RBRACE], 0);
      CopiesOutside(s, q, [RBRACE]);
      TidyOutcome(s, p, q + 1, [RBRACE]);
    } else {
      var indent := Indent(true, d + 1);
      AtAppend(s, p, indent, FromKey(members, true, d));
      var q := p + |indent|;
      DropsOutside(s, p, indent);
      KeyMinifies(s, q, members, d);
      assert [] + Outside(s, q) == Outside(s, q);
      OutcomeBehind(s, p, q, q + |FromKey(members, true, d)|, [], FromKey(members, false, d), TidyMembers(members), false);
    }
  }

  lemma TidyOutcome(s: seq<byte>, p: nat, e: nat, u: seq<byte>)
    requires p <= |s| && e <= |s| && Outside(s, p) == u + Outside(s, e)
    ensures Outcome(s, p, e, [] + u, true, false)
  {
    assert [] + u == u;
  }

  lemma {:induction false} KeyMinifies(s: seq<byte>, q: nat, members: seq<Member>, d: nat)
    requires members != [] && Plain(Object(members)) && At(s, q, FromKey(members, true, d))
    ensures var e := q + |FromKey(members, true, d)|;
            e <= |s| && Outcome(s, q, e, FromKey(members, false, d), TidyMembers(members), false)
    decreases members, 2
  {
    hide At, Outside, Inside, Quoted, AfterValue, Render, FromKey, KeySeparator, Plain, EndsInBackslash, Tidy;
    var key, value := members[0].key, members[0].value;
    var tail := Render(value, false, d + 1) + AfterValue(members, false, d);
    PlainHead(members);
    RoundTrip.MemberSplits(s, q, members, true, d);
    QuotedOutside(s, q, key);
    var colon := q + |Quoted(key)|;
    var e := q + |FromKey(members, true, d)|;
    UnformattedKey(members, d);
    AtIndex(s, colon + 2 + |Render(value, true, d + 1)|, AfterValue(members, true, d), 0);
    SeparatorMinifies(s, colon, tail);
    if EndsInBackslash(key) {
      ClashBehind(Quoted(key), Inside(s, colon), [COLON] + tail);
    } else {
      MemberValueMinifies(s, colon + 2, members, d);
      OutcomeBehind(s, colon, colon + 2, e, [COLON], tail, TidyMembers(members), false);
      OutcomeBehind(s, q, colon, e, Quoted(key), [COLON] + tail, TidyMembers(members), false);
    }
  }

  lemma PlainHead(members: seq<Member>)
    requires members != [] && Plain(Object(members))
    ensures Plain(members[0].value)
  {
  }

  lemma UnformattedKey(members: seq<Member>, d: nat)
    requires members != [] && Plain(members[0].value)
    ensures var tail := Render(members[0].value, false, d + 1) + AfterValue(members, false, d);
            tail[0] != TAB && FromKey(members, false, d) == Quoted(members[0].key) + ([COLON] + tail)
    ensures |KeySeparator(true)| == 2
  {
    hide Quoted, AfterValue, Render;
    RoundTrip.RenderStarts(members[0].value, false, d + 1);
  }

  /** Outside of a string the tab behind a colon goes, inside it stays. */
  lemma SeparatorMinifies(s: seq<byte>, colon: nat, tail: seq<byte>)
    requires At(s, colon, KeySeparator(true)) && tail != [] && tail[0] != TAB
    ensures colon + 2 <= |s| && Outside(s, colon) == [COLON] + Outside(s, colon + 2)
    ensures Clash(Inside(s, colon), [COLON] + tail)
  {
    hide At, Outside, Inside;
    AtIndex(s, colon, KeySeparator(true), 0);
    AtIndex(s, colon, KeySeparator(true), 1);
    AtAppend(s, colon, [COLON], [TAB]);
    assert [COLON] + [TAB] == KeySeparator(true);
    CopiesOutside(s, colon, [COLON]);
    DropsOutside(s, colon + 1, [TAB]);
    InsideCopies(s, colon);
    InsideCopies(s, colon + 1);
    ClashAt(Inside(s, colon), [COLON] + tail, 1);
  }

  /** The value of a member and what follows it, the name being tidy. */
  lemma {:induction false} MemberValueMinifies(s: seq<byte>, start: nat, members: seq<Member>, d: nat)
    requires members != [] && Plain(Object(members)) && !EndsInBackslash(members[0].key)
    requires var text := Render(members[0].value, true, d + 1);
             At(s, start, text) && At(s, start + |text|, AfterValue(members, true, d))
    ensures var e := start + |Render(members[0].value, true, d + 1)| + |AfterValue(members, true, d)|;
            e <= |s| && Outcome(s, start, e, Render(members[0].value, false, d + 1) + AfterValue(members, false, d),
                                TidyMembers(members), false)
    decreases members, 1
  {
    hide At, Outside, Inside, AfterValue, Render;
    var value := members[0].value;
    var u, after := Render(value, false, d + 1), AfterValue(members, false, d);
    var end := start + |Render(value, true, d + 1)|;
    var e := end + |AfterValue(members, true, d)|;
    AtIndex(s, end, AfterValue(members, true, d), 0);
    ValueMinifies(s, start, value, d + 1);
    TidyIsNotOpen(value);
    if Tidy(value) {
      AfterMinifies(s, end, members, d);
      OutcomeBehind(s, start, end, e, u, after, TidyMembers(members[1..]), false);
    } else if TidyButLast(value) {
      OpenMember(s, end, members, d);
      ClashBehind(u, Inside(s, end), after);
    } else {
      ClashLonger(Outside(s, start), u, after);
    }
  }

  /** Inside of a string the line end behind a member is kept, so the texts differ there. */
  lemma OpenMember(s: seq<byte>, end: nat, members: seq<Member>, d: nat)
    requires members != [] && end <= |s| && At(s, end, AfterValue(members, true, d))
    ensures Clash(Inside(s, end), AfterValue(members, false, d))
  {
    hide At, Outside, Inside, FromKey, AfterValue, MembersText;
    var text, u := AfterValue(members, true, d), AfterValue(members, false, d);
    AfterStarts(members, d);
    AtIndex(s, end, text, 0);
    InsideCopies(s, end);
    if |members| > 1 {
      AtIndex(s, end, text, 1);
      InsideCopies(s, end + 1);
      ClashAt(Inside(s, end), u, 1);
    } else {
      ClashAt(Inside(s, end), u, 0);
    }
  }

  lemma AfterStarts(members: seq<Member>, d: nat)
    requires members != []
    ensures var text, u := AfterValue(members, true, d), AfterValue(members, false, d);
            if |members| > 1 then |text| > 1 && |u| > 1 && text[..2] == [COMMA, NEWLINE] && u[..2] == [COMMA, QUOTE]
            else text[0] == NEWLINE && u == [RBRACE]
  {
    hide FromKey;
    if |members| > 1 {
      KeyStarts(members[1..], d);
      assert AfterValue(members, false, d) == [COMMA] + FromKey(members[1..], false, d);
    } else {
      assert members[1..] == [] && AfterValue(members, false, d) == [RBRACE];
    }
  }

  lemma {:induction false} AfterMinifies(s: seq<byte>, end: nat, members: seq<Member>, d: nat)
    requires members != [] && Plain(Object(members)) && At(s, end, AfterValue(members, true, d))
    ensures var e := end + |AfterValue(members, true, d)|;
            e <= |s| && Outcome(s, end, e, AfterValue(members, false, d), TidyMembers(members[1..]), false)
    decreases members, 0
  {
    hide At, Outside, Inside, MembersText, Outcome;
    var rest := members[1..];
    var e := end + |AfterValue(members, true, d)|;
    var comma := if |members| > 1 then [COMMA] else [];
    AtAppend(s, end, comma + [NEWLINE], MembersText(rest, true, d));
    AtAppend(s, end, comma, [NEWLINE]);
    var q := end + |comma|;
    CopiesOutside(s, end, comma);
    DropsOutside(s, q, [NEWLINE]);
    MembersMinify(s, q + 1, rest, d);
    assert comma + [] == comma;
    OutcomeBehind(s, end, q + 1, e, comma, MembersText(rest, false, d), TidyMembers(rest), false);
  }

  /** Minify commutes with formatting exactly for the trees in which no string or name ends in a
      backslash, except for a string with which the text ends but for closing brackets. */
  lemma MinifyCommutes(v: Json)
    requires Plain(v)
    ensures Minified(Render(v, true, 0)) == Render(v, false, 0) <==> Minifiable(v)
  {
    hide Outside, Inside, Render;
    var s := Render(v, true, 0);
    assert s[0..0 + |s|] == s;
    ValueMinifies(s, 0, v, 0);
    InsideAtEnd(s);
    assert Render(v, false, 0) + [] == Render(v, false, 0);
  }

  /** A tree that is not minifiable: `["\\", true]`, printed with format, keeps its blank. */
  lemma MinifyKeepsBlank()
    ensures Plain(Array([String([BACKSLASH]), True]))
    ensures Minified(Render(Array([String([BACKSLASH]), True]), true, 0)) != Render(Array([String([BACKSLASH]), True]), false, 0)
  {
    var items := [String([BACKSLASH]), True];
    assert Plain(items[0]) && Plain(items[1]);
    assert EndsInBackslash([BACKSLASH]) && !Tidy(items[0]) && !TidyItems(items) && !TidyButLastItem(items);
    MinifyCommutes(Array(items));
  }
}
