/** The texts that the parser accepts, by a grammar that says where things stand instead of how
    they are found: brackets, separators and blanks between scalars. */
module Derivations {
  import opened Bytes
  import opened Trees
  import opened Strings
  import opened Numbers
  import opened Grammar

  /** What stands in a buffer: a scalar, or a container with the places of what it holds. */
  datatype Tree = Scalar(v: Json) | ArrayTree(items: seq<Element>) | ObjectTree(entries: seq<Entry>)

  /** The tree from `start` to `end`, and the comma or bracket behind it. */
  datatype Element = Element(start: nat, tree: Tree, end: nat, stop: nat)

  /** The same with the name and its colon in front. */
  datatype Entry = Entry(name: nat, key: seq<byte>, nameEnd: nat, colon: nat, value: Element)

  /** Only bytes that count as blanks, control bytes among them. */
  predicate Blank(c: seq<byte>, i: nat, j: nat) { i <= j <= |c| && forall k :: i <= k < j ==> c[k] <= 32 }

  predicate ScalarAt(c: seq<byte>, o: nat, v: Json, e: nat) {
    match v
    case Null => At(c, o, [110, 117, 108, 108]) && e == o + 4
    case True => At(c, o, [116, 114, 117, 101]) && e == o + 4
    case False => At(c, o, [102, 97, 108, 115, 101]) && e == o + 5
    case String(s) => o < |c| && c[o] == QUOTE && ReadString(c, o) == StringRead(s, e)
    case Number(x) => o < |c| && (c[o] == MINUS || IsDigit(c[o])) && ReadNumber(c, o) == NumberRead(x, e)
    case _ => false
  }

  predicate Derives(c: seq<byte>, o: nat, t: Tree, e: nat)
    decreases t
  {
    match t
    case Scalar(v) => ScalarAt(c, o, v, e)
    case ArrayTree(items) =>
      && Sees(c, o, LBRACKET)
      && if items == [] then e > 0 && Blank(c, o + 1, e - 1) && Sees(c, e - 1, RBRACKET) else ItemsAt(c, o, items, e)
    case ObjectTree(entries) =>
      && Sees(c, o, LBRACE)
      && if entries == [] then e > 0 && Blank(c, o + 1, e - 1) && Sees(c, e - 1, RBRACE) else EntriesAt(c, o, entries, e)
  }

  /** The value, and up to the separator only blanks. */
  predicate ElementAt(c: seq<byte>, x: Element)
    decreases x
  {
    Derives(c, x.start, x.tree, x.end) && Blank(c, x.end, x.stop) && x.stop < |c|
  }

  /** Behind the bracket or comma at `o`: elements with commas between them, and the bracket. */
  predicate ItemsAt(c: seq<byte>, o: nat, items: seq<Element>, e: nat)
    decreases items
  {
    && items != [] && Blank(c, o + 1, items[0].start) && ElementAt(c, items[0])
    && if |items| == 1 then c[items[0].stop] == RBRACKET && e == items[0].stop + 1
       else c[items[0].stop] == COMMA && ItemsAt(c, items[0].stop, items[1..], e)
  }

  predicate NameAt(c: seq<byte>, o: nat, x: Entry) {
    && Blank(c, o + 1, x.name) && x.name < |c| && c[x.name] == QUOTE && ReadString(c, x.name) == StringRead(x.key, x.nameEnd)
    && Blank(c, x.nameEnd, x.colon) && Sees(c, x.colon, COLON) && Blank(c, x.colon + 1, x.value.start)
  }

  predicate EntriesAt(c: seq<byte>, o: nat, entries: seq<Entry>, e: nat)
    decreases entries
  {
    && entries != [] && NameAt(c, o, entries[0]) && ElementAt(c, entries[0].value)
    && if |entries| == 1 then c[entries[0].value.stop] == RBRACE && e == entries[0].value.stop + 1
       else c[entries[0].value.stop] == COMMA && EntriesAt(c, entries[0].value.stop, entries[1..], e)
  }

  // ---------- the value derived ----------

  function ValueOf(t: Tree): Json
    decreases t
  {
    match t
    case Scalar(v) => v
    case ArrayTree(items) => Array(ItemsOf(items))
    case ObjectTree(entries) => Object(MembersOf(entries))
  }

  function ElementValue(x: Element): Json
    decreases x
  {
    ValueOf(x.tree)
  }

  function ItemsOf(items: seq<Element>): seq<Json>
    decreases items
  {
    if items == [] then [] else [ElementValue(items[0])] + ItemsOf(items[1..])
  }

  function MembersOf(entries: seq<Entry>): seq<Member>
    decreases entries
  {
    if entries == [] then [] else [Member(entries[0].key, ElementValue(entries[0].value))] + MembersOf(entries[1..])
  }

  // ---------- what is derived is parsed ----------

  /** The answer of the parser for a tree: its value, or a refusal if it nests too deep. */
  predicate Answers(r: Parse, v: Json, e: nat, d: nat) {
    if Height(v) + d <= NESTING_LIMIT then r == Ok(v, e) else r.Fail?
  }

  /** A tree starts with a byte that is no blank and closes nothing. */
  lemma DerivedStarts(c: seq<byte>, o: nat, t: Tree, e: nat)
    requires Derives(c, o, t, e)
    ensures o < |c| && c[o] > 32 && c[o] != RBRACKET && c[o] != RBRACE
  {
  }

  lemma Skips(c: seq<byte>, o: nat, s: nat)
    requires Blank(c, o, s) && s < |c| && c[s] > 32
    ensures SkipBlanks(c, o) == s
  {
    SkipsTo(c, o, s);
  }

  lemma ScalarParses(c: seq<byte>, o: nat, v: Json, e: nat, d: nat)
    requires ScalarAt(c, o, v, e)
    ensures o <= |c| && ParseValue(c, o, d) == Ok(v, e) && Height(v) == 0
  {
    hide ReadString, ReadNumber, ParseArray, ParseObject, At;
    if v.String? || v.Number? {
      hide ParseValue;
      Dispatch(c, o, d);
    } else {
      WordIs(c, o);
    }
  }

  /** At most one of the three words stands there. */
  lemma WordIs(c: seq<byte>, o: nat)
    ensures At(c, o, [110, 117, 108, 108]) ==> At(c, o, NULL_TEXT) && o <= |c|
    ensures At(c, o, [102, 97, 108, 115, 101]) ==> At(c, o, FALSE_TEXT) && !At(c, o, NULL_TEXT) && o <= |c|
    ensures At(c, o, [116, 114, 117, 101]) ==> At(c, o, TRUE_TEXT) && !At(c, o, NULL_TEXT) && !At(c, o, FALSE_TEXT) && o <= |c|
  {
    hide At;
    if At(c, o, NULL_TEXT) {
      AtIndex(c, o, NULL_TEXT, 0);
    }
    if At(c, o, FALSE_TEXT) {
      AtIndex(c, o, FALSE_TEXT, 0);
    }
    if At(c, o, TRUE_TEXT) {
      AtIndex(c, o, TRUE_TEXT, 0);
    }
  }

  lemma {:induction false} DerivedParses(c: seq<byte>, o: nat, t: Tree, e: nat, d: nat)
    requires Derives(c, o, t, e) && d <= NESTING_LIMIT
    ensures o <= |c| && Answers(ParseValue(c, o, d), ValueOf(t), e, d)
    decreases t
  {
    hide ParseValue, ScalarAt, SkipBlanks, ParseItems, ParseMembers, ItemsAt, EntriesAt, ItemsOf, MembersOf;
    DerivedStarts(c, o, t, e);
    if t.Scalar? {
      ScalarParses(c, o, t.v, e, d);
    } else {
      Dispatch(c, o, d);
      NothingIn();
      if t.ArrayTree? {
        if t.items == [] {
          Skips(c, o + 1, e - 1);
        } else {
          FirstItem(c, o, t.items, e);
          if d < NESTING_LIMIT {
            ItemsParsed(c, o, t.items[0].start - 1, t.items, e, d + 1);
          }
        }
      } else if t.entries == [] {
        Skips(c, o + 1, e - 1);
      } else {
        FirstEntry(c, o, t.entries, e);
        if d < NESTING_LIMIT {
          EntriesParsed(c, o, t.entries[0].name - 1, t.entries, e, d + 1);
        }
      }
    }
  }

  lemma NothingIn()
    ensures ItemsOf([]) == [] && MembersOf([]) == [] && ItemsHeight([]) == 0 && MembersHeight([]) == 0
  {
  }

  lemma FirstItem(c: seq<byte>, o: nat, items: seq<Element>, e: nat)
    requires ItemsAt(c, o, items, e)
    ensures items != [] && o < items[0].start < |c| && SkipBlanks(c, o + 1) == items[0].start
    ensures c[items[0].start] != RBRACKET
  {
    hide SkipBlanks;
    DerivedStarts(c, items[0].start, items[0].tree, items[0].end);
    Skips(c, o + 1, items[0].start);
  }

  lemma FirstEntry(c: seq<byte>, o: nat, entries: seq<Entry>, e: nat)
    requires EntriesAt(c, o, entries, e)
    ensures entries != [] && o < entries[0].name < |c| && SkipBlanks(c, o + 1) == entries[0].name
    ensures c[entries[0].name] == QUOTE
  {
    hide SkipBlanks;
    Skips(c, o + 1, entries[0].name);
  }

  /** A tree between blanks, and the separator. */
  lemma {:induction false} ElementParsed(c: seq<byte>, x: Element, d: nat)
    requires ElementAt(c, x) && c[x.stop] > 32 && d <= NESTING_LIMIT
    ensures x.end <= |c| && x.stop < |c| && SkipBlanks(c, x.end) == x.stop
    ensures x.start < |c| && c[x.start] > 32 && Answers(ParseValue(c, x.start, d), ElementValue(x), x.end, d)
    decreases x
  {
    hide SkipBlanks, ParseValue, Derives;
    DerivedStarts(c, x.start, x.tree, x.end);
    Skips(c, x.end, x.stop);
    DerivedParses(c, x.start, x.tree, x.end, d);
  }

  /** The element loop, from any blank in front of the first element. */
  lemma {:induction false} ItemsParsed(c: seq<byte>, o: nat, o': nat, items: seq<Element>, e: nat, d: nat)
    requires ItemsAt(c, o, items, e) && d <= NESTING_LIMIT && o <= o' < items[0].start
    ensures o' < |c|
    ensures if ItemsHeight(ItemsOf(items)) + d <= NESTING_LIMIT then ParseItems(c, o', d) == Items(ItemsOf(items), e)
            else ParseItems(c, o', d).NoItems?
    decreases items
  {
    hide ParseValue, SkipBlanks, ElementAt, ElementValue, Height;
    var x := items[0];
    ElementParsed(c, x, d);
    Skips(c, o' + 1, x.start);
    NothingIn();
    assert ItemsOf(items) == [ElementValue(x)] + ItemsOf(items[1..]) && ItemsOf(items)[1..] == ItemsOf(items[1..]);
    assert |items| == 1 ==> items[1..] == [] && ItemsOf(items) == [ElementValue(x)];
    if |items| > 1 {
      FirstItem(c, x.stop, items[1..], e);
      ItemsParsed(c, x.stop, x.stop, items[1..], e, d);
    }
  }

  lemma NameParsed(c: seq<byte>, o: nat, o': nat, x: Entry)
    requires NameAt(c, o, x) && o <= o' < x.name && x.value.start < |c| && c[x.value.start] > 32
    ensures o' < |c| && ReadKey(c, o') == KeyRead(x.key, x.value.start)
  {
    hide SkipBlanks, ReadString;
    Skips(c, o' + 1, x.name);
    Skips(c, x.nameEnd, x.colon);
    Skips(c, x.colon + 1, x.value.start);
  }

  lemma {:induction false} EntriesParsed(c: seq<byte>, o: nat, o': nat, entries: seq<Entry>, e: nat, d: nat)
    requires EntriesAt(c, o, entries, e) && d <= NESTING_LIMIT && o <= o' < entries[0].name
    ensures o' < |c|
    ensures if MembersHeight(MembersOf(entries)) + d <= NESTING_LIMIT
            then ParseMembers(c, o', d) == Members(MembersOf(entries), e)
            else ParseMembers(c, o', d).NoMembers?
    decreases entries
  {
    hide ParseValue, SkipBlanks, ElementAt, ElementValue, Height, NameAt, ReadKey;
    var x := entries[0];
    ElementParsed(c, x.value, d);
    NameParsed(c, o, o', x);
    NothingIn();
    var m := Member(x.key, ElementValue(x.value));
    assert MembersOf(entries) == [m] + MembersOf(entries[1..]) && MembersOf(entries)[1..] == MembersOf(entries[1..]);
    assert |entries| == 1 ==> entries[1..] == [] && MembersOf(entries) == [m];
    if |entries| > 1 {
      FirstEntry(c, x.value.stop, entries[1..], e);
      EntriesParsed(c, x.value.stop, x.value.stop, entries[1..], e, d);
    }
  }

  // ---------- what is parsed is derived ----------

  lemma Skipped(c: seq<byte>, o: nat)
    requires o <= |c|
    ensures Blank(c, o, SkipBlanks(c, o))
  {
  }

  lemma {:induction false} ParsedDerives(c: seq<byte>, o: nat, d: nat) returns (t: Tree)
    requires o <= |c| && ParseValue(c, o, d).Ok?
    ensures var r := ParseValue(c, o, d); Derives(c, o, t, r.end) && ValueOf(t) == r.v
    decreases |c| - o, 2
  {
    hide ParseValue, ParseArray, ParseObject, ScalarAt;
    if Sees(c, o, LBRACKET) {
      Dispatch(c, o, d);
      t := ArrayDerives(c, o, d);
    } else if Sees(c, o, LBRACE) {
      Dispatch(c, o, d);
      t := ObjectDerives(c, o, d);
    } else {
      ScalarDerives(c, o, d);
      t := Scalar(ParseValue(c, o, d).v);
    }
  }

  lemma ScalarDerives(c: seq<byte>, o: nat, d: nat)
    requires o <= |c| && ParseValue(c, o, d).Ok? && !Sees(c, o, LBRACKET) && !Sees(c, o, LBRACE)
    ensures var r := ParseValue(c, o, d); ScalarAt(c, o, r.v, r.end)
  {
    hide ReadString, ReadNumber;
  }

  lemma Empty(c: seq<byte>, o: nat, stop: nat)
    requires o < |c| && Blank(c, o + 1, stop) && stop < |c|
    ensures c[o] == LBRACKET && c[stop] == RBRACKET ==> Derives(c, o, ArrayTree([]), stop + 1)
    ensures c[o] == LBRACE && c[stop] == RBRACE ==> Derives(c, o, ObjectTree([]), stop + 1)
    ensures ValueOf(ArrayTree([])) == Array([]) && ValueOf(ObjectTree([])) == Object([])
  {
  }

  lemma {:induction false} ArrayDerives(c: seq<byte>, o: nat, d: nat) returns (t: Tree)
    requires Sees(c, o, LBRACKET) && ParseArray(c, o, d).Ok?
    ensures var r := ParseArray(c, o, d); Derives(c, o, t, r.end) && ValueOf(t) == r.v
    decreases |c| - o, 1
  {
    hide SkipBlanks, ParseItems, ItemsAt, ItemsOf, Blank;
    var first := SkipBlanks(c, o + 1);
    Skipped(c, o + 1);
    if Sees(c, first, RBRACKET) {
      Empty(c, o, first);
      t := ArrayTree([]);
    } else {
      var items := ItemsDerive(c, o, first - 1, d + 1);
      t := ArrayTree(items);
    }
  }

  lemma {:induction false} ObjectDerives(c: seq<byte>, o: nat, d: nat) returns (t: Tree)
    requires Sees(c, o, LBRACE) && ParseObject(c, o, d).Ok?
    ensures var r := ParseObject(c, o, d); Derives(c, o, t, r.end) && ValueOf(t) == r.v
    decreases |c| - o, 1
  {
    hide SkipBlanks, ParseMembers, EntriesAt, MembersOf, Blank;
    var first := SkipBlanks(c, o + 1);
    Skipped(c, o + 1);
    if Sees(c, first, RBRACE) {
      Empty(c, o, first);
      t := ObjectTree([]);
    } else {
      var entries := EntriesDerive(c, o, first - 1, d + 1);
      t := ObjectTree(entries);
    }
  }

  /** The blanks in front of `o'` belong to the element as well. */
  lemma {:induction false} ItemsDerive(c: seq<byte>, o: nat, o': nat, d: nat) returns (items: seq<Element>)
    requires o <= o' < |c| && Blank(c, o + 1, o' + 1) && ParseItems(c, o', d).Items?
    ensures var r := ParseItems(c, o', d); items != [] && ItemsAt(c, o, items, r.itemsEnd) && ItemsOf(items) == r.items
    decreases |c| - o', 0
  {
    hide ParseValue, SkipBlanks, Derives;
    var start := SkipBlanks(c, o' + 1);
    var v := ParseValue(c, start, d);
    var stop := SkipBlanks(c, v.end);
    Skipped(c, o' + 1);
    Skipped(c, v.end);
    var t := ParsedDerives(c, start, d);
    var x := Element(start, t, v.end, stop);
    var rest := [];
    if Sees(c, stop, COMMA) {
      rest := ItemsDerive(c, stop, stop, d);
    }
    items := [x] + rest;
    assert items[1..] == rest;
  }

  lemma {:induction false} EntriesDerive(c: seq<byte>, o: nat, o': nat, d: nat) returns (entries: seq<Entry>)
    requires o <= o' < |c| && Blank(c, o + 1, o' + 1) && ParseMembers(c, o', d).Members?
    ensures var r := ParseMembers(c, o', d);
            entries != [] && EntriesAt(c, o, entries, r.membersEnd) && MembersOf(entries) == r.members
    decreases |c| - o', 0
  {
    hide ParseValue, SkipBlanks, Derives, ReadKey, NameAt;
    var key := ReadKey(c, o');
    var v := ParseValue(c, key.value, d);
    var stop := SkipBlanks(c, v.end);
    Skipped(c, v.end);
    var t := ParsedDerives(c, key.value, d);
    var x := NameDerives(c, o, o', Element(key.value, t, v.end, stop));
    var rest := [];
    if Sees(c, stop, COMMA) {
      rest := EntriesDerive(c, stop, stop, d);
    }
    entries := [x] + rest;
    assert entries[1..] == rest;
  }

  lemma NameDerives(c: seq<byte>, o: nat, o': nat, value: Element) returns (x: Entry)
    requires o <= o' < |c| && Blank(c, o + 1, o' + 1) && ReadKey(c, o').KeyRead? && ReadKey(c, o').value == value.start
    ensures NameAt(c, o, x) && x.value == value && x.key == ReadKey(c, o').key
  {
    hide SkipBlanks, ReadString, Blank;
    var name := SkipBlanks(c, o' + 1);
    Skipped(c, o' + 1);
    BlankBoth(c, o + 1, o' + 1, name);
    StringQuoted(c, name);
    var read := ReadString(c, name);
    var colon := SkipBlanks(c, read.end);
    Skipped(c, read.end);
    Skipped(c, colon + 1);
    x := Entry(name, read.s, read.end, colon, value);
  }

  lemma BlankBoth(c: seq<byte>, i: nat, j: nat, k: nat)
    requires Blank(c, i, j) && Blank(c, j, k)
    ensures Blank(c, i, k)
  {
  }

  lemma StringQuoted(c: seq<byte>, o: nat)
    ensures o < |c| && ReadString(c, o).StringRead? ==> c[o] == QUOTE && ReadString(c, o).end <= |c|
  {
  }

  // ---------- texts ----------

  /** The parser accepts exactly what the grammar derives and nests no deeper than the limit. */
  lemma ParsesExactly(c: seq<byte>, o: nat, v: Json, e: nat)
    requires o <= |c|
    ensures ParseValue(c, o, 0) == Ok(v, e) <==> Height(v) <= 1000 && exists t :: Derives(c, o, t, e) && ValueOf(t) == v
  {
    hide ParseValue, Derives, ValueOf, Height;
    if ParseValue(c, o, 0) == Ok(v, e) {
      var t := ParsedDerives(c, o, 0);
      ParsedValue(c, o, 0);
    }
    if t :| Derives(c, o, t, e) && ValueOf(t) == v {
      DerivedParses(c, o, t, e, 0);
    }
  }

  /** The whole text: a byte order mark or none, blanks, a tree, and when a terminator is asked for,
      nothing but blanks up to a zero as the last byte. */
  predicate TextAt(c: seq<byte>, requireNul: bool, o: nat, t: Tree, e: nat, end: nat) {
    && Blank(c, if |c| > 4 && c[..3] == [0xEF, 0xBB, 0xBF] then 3 else 0, o) && Derives(c, o, t, e)
    && if requireNul then Blank(c, e, end) && end == |c| - 1 && c[end] == 0 else end == e
  }

  lemma TextsExactly(c: seq<byte>, requireNul: bool, v: Json, end: nat)
    ensures ParseText(c, requireNul) == Parsed(v, end) <==>
              Height(v) <= 1000 && exists o, t, e :: TextAt(c, requireNul, o, t, e, end) && ValueOf(t) == v
  {
    hide ParseValue, Derives, ValueOf, Height, SkipBlanks;
    if ParseText(c, requireNul) == Parsed(v, end) {
      TextDerives(c, requireNul, v, end);
    }
    if o, t, e :| TextAt(c, requireNul, o, t, e, end) && ValueOf(t) == v {
      if Height(v) <= 1000 {
        TextParses(c, requireNul, o, t, e, end);
      }
    }
  }

  lemma TextDerives(c: seq<byte>, requireNul: bool, v: Json, end: nat)
    requires ParseText(c, requireNul) == Parsed(v, end)
    ensures Height(v) <= 1000 && exists o, t, e :: TextAt(c, requireNul, o, t, e, end) && ValueOf(t) == v
  {
    hide ParseValue, Derives, ValueOf, Height, SkipBlanks;
    var o := SkipBlanks(c, TextStart(c));
    Skipped(c, TextStart(c));
    ParsedValue(c, o, 0);
    var t := ParsedDerives(c, o, 0);
    var e := ParseValue(c, o, 0).end;
    if requireNul {
      Skipped(c, e);
      ZeroIsLast(c, e);
    }
    assert TextAt(c, requireNul, o, t, e, end);
  }

  /** Skipping stops at a zero only at the end of the buffer. */
  lemma ZeroIsLast(c: seq<byte>, e: nat)
    requires e <= |c|
    ensures Sees(c, SkipBlanks(c, e), 0) ==> SkipBlanks(c, e) == |c| - 1
  {
  }

  lemma TextParses(c: seq<byte>, requireNul: bool, o: nat, t: Tree, e: nat, end: nat)
    requires TextAt(c, requireNul, o, t, e, end) && Height(ValueOf(t)) <= 1000
    ensures ParseText(c, requireNul) == Parsed(ValueOf(t), end)
  {
    hide ParseValue, Derives, ValueOf, Height, SkipBlanks;
    DerivedStarts(c, o, t, e);
    Skips(c, TextStart(c), o);
    DerivedParses(c, o, t, e, 0);
    if requireNul {
      OnlyBlanks(c, e, end);
    }
  }

  lemma OnlyBlanks(c: seq<byte>, e: nat, end: nat)
    requires Blank(c, e, end) && end == |c| - 1 && c[end] <= 32
    ensures SkipBlanks(c, e) == end
  {
  }

  // ---------- where a text is refused ----------

  /** At the first byte that is no blank, if no tree starts with it. */
  lemma StartRefused(c: seq<byte>, requireNul: bool, o: nat)
    requires Blank(c, if |c| > 4 && c[..3] == [0xEF, 0xBB, 0xBF] then 3 else 0, o) && o < |c| && c[o] > 32
    requires c[o] !in {QUOTE, MINUS, LBRACKET, LBRACE, 110, 102, 116} && !IsDigit(c[o])
    ensures ParseText(c, requireNul) == Rejected(o)
  {
    hide SkipBlanks, At, TextStart;
    MarkIs(c);
    Skips(c, TextStart(c), o);
    FirstByteDiffers(c, o);
  }

  lemma MarkIs(c: seq<byte>)
    ensures TextStart(c) == if |c| > 4 && c[..3] == [0xEF, 0xBB, 0xBF] then 3 else 0
  {
  }

  /** At the first byte that is no blank behind a tree, if the text has to end there. */
  lemma TrailingRefused(c: seq<byte>, o: nat, t: Tree, e: nat, p: nat)
    requires Blank(c, if |c| > 4 && c[..3] == [0xEF, 0xBB, 0xBF] then 3 else 0, o) && Derives(c, o, t, e)
    requires Height(ValueOf(t)) <= 1000 && Blank(c, e, p) && p < |c| && c[p] > 32
    ensures ParseText(c, true) == Rejected(p)
  {
    hide ParseValue, Derives, ValueOf, Height, SkipBlanks, TextStart;
    MarkIs(c);
    DerivedStarts(c, o, t, e);
    Skips(c, TextStart(c), o);
    DerivedParses(c, o, t, e, 0);
    Skips(c, e, p);
  }

  /** At the last byte, if the buffer ends with the tree and a terminator is asked for. */
  lemma UnterminatedRefused(c: seq<byte>, o: nat, t: Tree)
    requires Blank(c, if |c| > 4 && c[..3] == [0xEF, 0xBB, 0xBF] then 3 else 0, o) && Derives(c, o, t, |c|)
    requires Height(ValueOf(t)) <= 1000
    ensures ParseText(c, true) == Rejected(|c| - 1)
  {
    hide ParseValue, Derives, ValueOf, Height, TextStart;
    MarkIs(c);
    DerivedStarts(c, o, t, |c|);
    Skips(c, TextStart(c), o);
    DerivedParses(c, o, t, |c|, 0);
  }
}
