/** When minifying text that parses keeps its meaning: exactly when no string literal loses a byte,
    as long as the literals that do are simple. */
module MinifyParse {
  import opened Bytes
  import opened Trees
  import opened Utf
  import opened Strings
  import opened Numbers
  import opened Grammar
  import opened RoundTrip
  import opened Rendering
  import opened Minify
  import opened MinifyLiterals

  // ---------- steps ----------

  /** Bytes that the scanner copies, inside and outside of what it takes for a string. */
  predicate Token(t: seq<byte>) {
    forall i :: 0 <= i < |t| ==> !IsSpace(t[i]) && t[i] != SLASH && t[i] != QUOTE && t[i] != BACKSLASH
  }

  lemma {:induction false} TokenPasses(s: seq<byte>, p: nat, e: nat, st: Scan)
    requires p <= e <= |s| && st != Escaped
    requires forall i :: p <= i < e ==> !IsSpace(s[i]) && s[i] != SLASH && s[i] != QUOTE && s[i] != BACKSLASH
    ensures Struck(s, p, e, st) == 0 && Passed(s, p, e, st) == st && TollOf(s, p, st) == TollOf(s, e, st)
    decreases e - p
  {
    if p < e {
      assert After(s, p, st) == st;
      TokenPasses(s, p + 1, e, st);
    }
  }

  /** A token without quotes. */
  lemma TokenInStep(s: seq<byte>, p: nat, st: Scan, m: seq<byte>, q: nat, t: seq<byte>)
    requires InStep(s, p, st, m, q) && At(s, p, t) && Token(t)
    ensures At(m, q, t) && InStep(s, p + |t|, st, m, q + |t|)
    ensures TollOf(s, p, st) == TollOf(s, p + |t|, st)
  {
    hide TollOf, Follows, Struck, Passed;
    var e := p + |t|;
    forall i | p <= i < e ensures s[i] == t[i - p] {
      AtIndex(s, p, t, i - p);
    }
    TokenPasses(s, p, e, st);
    FollowsRun(s, p, e, st, m, q);
    hide InStep;
    InStepBound(s, p, st, m, q);
  }

  /** Blanks: the kept ones are skipped on both sides, and the bytes behind them agree. */
  lemma {:induction false} BlanksInStep(s: seq<byte>, p: nat, st: Scan, m: seq<byte>, q: nat) returns (q': nat)
    requires NulFree(s) && InStep(s, p, st, m, q)
    requires var n := SkipBlanks(Terminated(s), p); Terminated(s)[n] != SLASH
    ensures var n := SkipBlanks(Terminated(s), p);
            && n <= |s| && q <= q' && InStep(s, n, st, m, q') && SkipBlanks(m, q) == q'
            && m[q'] == Terminated(s)[n] && (q' == q || m[q] <= 32)
            && TollOf(s, p, st) == TollOf(s, n, st)
    decreases |s| - p
  {
    hide TollOf, Follows, SkipBlanks, Terminated, NulFree, IsSpace;
    InStepBound(s, p, st, m, q);
    if p == |s| {
      q' := q;
      BlanksAtEnd(s, st, m, q);
    } else if s[p] > 32 {
      q' := q;
      NoBlank(s, p, st, m, q);
    } else {
      BlankAhead(s, p);
      TollBehind(s, p, st);
      if Strikes(s, p, st) {
        BlankStruck(s, p, st, m, q);
        q' := BlanksInStep(s, p + 1, st, m, q);
      } else {
        BlankKept(s, p, st, m, q);
        q' := BlanksInStep(s, p + 1, st, m, q + 1);
      }
    }
  }

  lemma BlanksAtEnd(s: seq<byte>, st: Scan, m: seq<byte>, q: nat)
    requires InStep(s, |s|, st, m, q)
    ensures SkipBlanks(Terminated(s), |s|) == |s| && SkipBlanks(m, q) == q && m[q] == 0 == Terminated(s)[|s|]
  {
    assert m[q] == m[q..][0] && m[q..] == [0];
    assert BlankEnd(m, q) == |m| && BlankEnd(Terminated(s), |s|) == |s| + 1;
  }

  lemma NoBlank(s: seq<byte>, p: nat, st: Scan, m: seq<byte>, q: nat)
    requires InStep(s, p, st, m, q) && p < |s| && s[p] > 32 && Terminated(s)[SkipBlanks(Terminated(s), p)] != SLASH
    ensures SkipBlanks(Terminated(s), p) == p && SkipBlanks(m, q) == q && m[q] == s[p] == Terminated(s)[p]
  {
    SkipsTo(Terminated(s), p, p);
    FirstInStep(s, p, st, m, q);
    SkipsTo(m, q, q);
  }

  lemma BlankAhead(s: seq<byte>, p: nat)
    requires p < |s| && s[p] <= 32
    ensures p + 1 <= |Terminated(s)| && SkipBlanks(Terminated(s), p) == SkipBlanks(Terminated(s), p + 1)
  {
  }

  lemma TollBehind(s: seq<byte>, p: nat, st: Scan)
    requires p < |s| && s[p] != QUOTE
    ensures TollOf(s, p, st) == TollOf(s, p + 1, st)
  {
  }

  lemma BlankStruck(s: seq<byte>, p: nat, st: Scan, m: seq<byte>, q: nat)
    requires InStep(s, p, st, m, q) && p < |s| && s[p] <= 32 && Strikes(s, p, st)
    ensures InStep(s, p + 1, st, m, q)
  {
    FollowsStruck(s, p, st, m, q);
  }

  lemma BlankKept(s: seq<byte>, p: nat, st: Scan, m: seq<byte>, q: nat)
    requires InStep(s, p, st, m, q) && p < |s| && s[p] <= 32 && !Strikes(s, p, st)
    ensures InStep(s, p + 1, st, m, q + 1) && q + 1 < |m| && m[q] == s[p] && SkipBlanks(m, q) == SkipBlanks(m, q + 1)
  {
    hide Follows;
    assert After(s, p, st) == st;
    KeptByte(s, p, st, m, q);
  }

  /** Behind blanks a value, a name or a container may stop. */
  predicate Closed(c: seq<byte>, e: nat) {
    e < |c| && var n := SkipBlanks(c, e);
               c[n] == COMMA || c[n] == RBRACKET || c[n] == RBRACE || c[n] == COLON || c[n] == 0
  }

  lemma ClosedEnds(c: seq<byte>, e: nat)
    requires Closed(c, e)
    ensures Ends(c, e)
  {
  }

  lemma ValueStarts(c: seq<byte>, o: nat, d: nat)
    requires o <= |c| && ParseValue(c, o, d).Ok?
    ensures o < |c| && 32 < c[o] < 128 && c[o] != SLASH
  {
    hide ReadString, ReadNumber, ParseArray, ParseObject;
    if At(c, o, NULL_TEXT) { AtIndex(c, o, NULL_TEXT, 0); }
    if At(c, o, FALSE_TEXT) { AtIndex(c, o, FALSE_TEXT, 0); }
    if At(c, o, TRUE_TEXT) { AtIndex(c, o, TRUE_TEXT, 0); }
  }

  // ---------- the parser on both texts ----------

  /** The way from `p` to `p'` in the text and from `q` to `q'` in the minified one, on which the
      literals lose `k` bytes. */
  predicate Steps(s: seq<byte>, p: nat, st: Scan, p': nat, st': Scan, m: seq<byte>, q': nat, k: nat) {
    && p <= |s| && p' <= |s| && InStep(s, p', st', m, q')
    && TollOf(s, p', st').tame && TollOf(s, p, st).loss == k + TollOf(s, p', st').loss
  }

  lemma ShrunkNothing(v: Json)
    ensures Shrunk(v, v, 0)
  {
  }

  lemma ShrunkString(a: seq<byte>, b: seq<byte>, k: nat)
    requires |a| + k == |b| && (k == 0 ==> a == b)
    ensures Shrunk(String(a), String(b), k)
  {
  }

  lemma ScalarInStep(s: seq<byte>, p: nat, st: Scan, m: seq<byte>, q: nat, d: nat)
    returns (v': Json, q': nat, st': Scan, k: nat)
    requires NulFree(s) && InStep(s, p, st, m, q) && p < |s| && TollOf(s, p, st).tame
    requires s[p] != LBRACKET && s[p] != LBRACE
    requires var r := ParseValue(Terminated(s), p, d); r.Ok? && Closed(Terminated(s), r.end)
    requires m[q] == s[p]
    requires var e := ParseValue(Terminated(s), p, d).end;
             forall q' :: q <= q' < |m| && e <= |s| && InStep(s, e, st, m, q') ==> Ends(m, q')
    ensures var r := ParseValue(Terminated(s), p, d);
            ParseValue(m, q, d) == Ok(v', q') && Shrunk(v', r.v, k) && Steps(s, p, st, r.end, st', m, q', k)
  {
    hide InStep, At, TollOf, ReadString, ReadNumber, ParseArray, ParseObject, Closed, Ends, Shrunk;
    var c := Terminated(s);
    var r := ParseValue(c, p, d);
    assert c[p] == s[p];
    st', k, v' := st, 0, r.v;
    Dispatch(c, p, d);
    if s[p] == QUOTE {
      var str: seq<byte>;
      q', st', k, str := LiteralInStep(s, p, st, m, q, r.v.s, r.end);
      v' := String(str);
      ShrunkString(str, r.v.s, k);
      Dispatch(m, q, d);
    } else if s[p] == MINUS || IsDigit(s[p]) {
      q' := NumberInStep(s, p, st, m, q, r.v.d, r.end);
      ShrunkNothing(v');
      Dispatch(m, q, d);
    } else {
      q' := WordInStep(s, p, st, m, q, d);
      ShrunkNothing(v');
    }
  }

  lemma NumberInStep(s: seq<byte>, p: nat, st: Scan, m: seq<byte>, q: nat, x: real, e: nat) returns (q': nat)
    requires NulFree(s) && InStep(s, p, st, m, q)
    requires p <= |s| && ReadNumber(Terminated(s), p) == NumberRead(x, e) && Closed(Terminated(s), e)
    requires forall q' :: q <= q' < |m| && e <= |s| && InStep(s, e, st, m, q') ==> Ends(m, q')
    ensures e <= |s| && ReadNumber(m, q) == NumberRead(x, q') && InStep(s, e, st, m, q')
    ensures TollOf(s, p, st) == TollOf(s, e, st)
  {
    hide InStep, TollOf, Strtod, Closed, ReadNumber, Terminated, Token, At;
    var c := Terminated(s);
    TerminatedPart(s, 0, p);
    ClosedInside(c, e);
    ClosedEnds(c, e);
    NumberAdvances(c, p, x, e);
    ReadsText(c, p, x, e);
    TerminatedPart(s, p, e);
    var t := s[p..e];
    NumberToken(s, p, e);
    q' := q + |t|;
    TokenInStep(s, p, st, m, q, t);
    InStepBound(s, e, st, m, q');
    TextReads(m, q, t, x);
  }

  lemma NumberAdvances(c: seq<byte>, p: nat, x: real, e: nat)
    requires p <= |c| && ReadNumber(c, p) == NumberRead(x, e)
    ensures p <= e <= |c|
  {
  }

  lemma NumberToken(s: seq<byte>, p: nat, e: nat)
    requires p <= e <= |s| && forall i :: 0 <= i < e - p ==> IsNumberByte(s[p..e][i])
    ensures Token(s[p..e]) && At(s, p, s[p..e])
  {
  }

  lemma ClosedInside(c: seq<byte>, e: nat)
    requires Closed(c, e)
    ensures e < |c|
  {
  }

  lemma InStepBound(s: seq<byte>, p: nat, st: Scan, m: seq<byte>, q: nat)
    requires InStep(s, p, st, m, q)
    ensures p <= |s| && q < |m|
  {
  }

  lemma WordInStep(s: seq<byte>, p: nat, st: Scan, m: seq<byte>, q: nat, d: nat) returns (q': nat)
    requires NulFree(s) && InStep(s, p, st, m, q)
    requires p < |s| && s[p] != LBRACKET && s[p] != LBRACE && s[p] != QUOTE && s[p] != MINUS && !IsDigit(s[p])
    requires ParseValue(Terminated(s), p, d).Ok?
    ensures var r := ParseValue(Terminated(s), p, d);
            && r.end <= |s| && ParseValue(m, q, d) == Ok(r.v, q') && InStep(s, r.end, st, m, q')
            && TollOf(s, p, st) == TollOf(s, r.end, st)
  {
    hide InStep, TollOf, ReadString, ReadNumber, ParseArray, ParseObject;
    var c := Terminated(s);
    var word := if At(c, p, NULL_TEXT) then NULL_TEXT else if At(c, p, FALSE_TEXT) then FALSE_TEXT else TRUE_TEXT;
    assert At(c, p, word);
    AtIndex(c, p, word, |word| - 1);
    assert p + |word| <= |s|;
    TerminatedPart(s, p, p + |word|);
    assert At(s, p, word);
    TokenInStep(s, p, st, m, q, word);
    AtIndex(s, p, word, 0);
    AtIndex(m, q, word, 0);
    q' := q + |word|;
    if word != NULL_TEXT {
      assert !At(m, q, NULL_TEXT) by { if At(m, q, NULL_TEXT) { AtIndex(m, q, NULL_TEXT, 0); } }
      assert word == TRUE_TEXT ==> !At(m, q, FALSE_TEXT) by { if At(m, q, FALSE_TEXT) { AtIndex(m, q, FALSE_TEXT, 0); } }
    }
  }

  /** What follows a closed value cannot continue a number in the minified text either. */
  lemma EndsInStep(s: seq<byte>, e: nat, st: Scan, m: seq<byte>, q: nat)
    requires NulFree(s) && InStep(s, e, st, m, q) && Closed(Terminated(s), e)
    ensures Ends(m, q)
  {
    hide InStep, TollOf, SkipBlanks;
    var q' := BlanksInStep(s, e, st, m, q);
  }

  lemma FirstInStep(s: seq<byte>, p: nat, st: Scan, m: seq<byte>, q: nat)
    requires InStep(s, p, st, m, q) && p < |s| && s[p] > 32 && s[p] != SLASH
    ensures m[q] == s[p]
  {
    RestStep(s, p, st);
    assert m[q] == m[q..][0];
  }

  /** A value that parses at `p` parses in the minified text to one that has lost the bytes that its
      literals have lost. */
  lemma {:induction false} ValueInStep(s: seq<byte>, p: nat, st: Scan, m: seq<byte>, q: nat, d: nat)
    returns (v': Json, q': nat, st': Scan, k: nat)
    requires NulFree(s) && InStep(s, p, st, m, q) && p <= |s| && TollOf(s, p, st).tame
    requires var r := ParseValue(Terminated(s), p, d); r.Ok? && Closed(Terminated(s), r.end)
    ensures var r := ParseValue(Terminated(s), p, d);
            ParseValue(m, q, d) == Ok(v', q') && Shrunk(v', r.v, k) && Steps(s, p, st, r.end, st', m, q', k)
    decreases |s| + 1 - p, 2
  {
    hide InStep, TollOf, ParseValue, SkipBlanks, Closed, ParseItems, ParseMembers, Ends, Shrunk, Steps;
    var c := Terminated(s);
    ValueStarts(c, p, d);
    InStepBound(s, p, st, m, q);
    FirstInStep(s, p, st, m, q);
    if s[p] == LBRACKET {
      v', q', st', k := ArrayInStep(s, p, st, m, q, d);
    } else if s[p] == LBRACE {
      v', q', st', k := ObjectInStep(s, p, st, m, q, d);
    } else {
      var e := ParseValue(c, p, d).end;
      forall q' | q <= q' < |m| && e <= |s| && InStep(s, e, st, m, q') ensures Ends(m, q') {
        EndsInStep(s, e, st, m, q');
      }
      v', q', st', k := ScalarInStep(s, p, st, m, q, d);
    }
  }

  /** A bracket, a brace, a comma or a colon. */
  lemma MarkInStep(s: seq<byte>, p: nat, st: Scan, m: seq<byte>, q: nat)
    requires InStep(s, p, st, m, q) && p < |s| && s[p] in {LBRACKET, LBRACE, COMMA, COLON, RBRACKET, RBRACE}
    ensures m[q] == s[p] && q + 1 < |m| && InStep(s, p + 1, st, m, q + 1) && TollOf(s, p, st) == TollOf(s, p + 1, st)
  {
    hide InStep, TollOf;
    var t := [s[p]];
    assert s[p..p + 1] == t;
    TokenInStep(s, p, st, m, q, t);
    AtIndex(m, q, t, 0);
    InStepBound(s, p + 1, st, m, q + 1);
  }

  /** The same and the blanks behind it. */
  lemma OpenInStep(s: seq<byte>, p: nat, st: Scan, m: seq<byte>, q: nat) returns (q': nat)
    requires NulFree(s) && InStep(s, p, st, m, q)
    requires p < |s| && s[p] in {LBRACKET, LBRACE, COMMA, COLON, RBRACKET, RBRACE}
    requires Terminated(s)[SkipBlanks(Terminated(s), p + 1)] != SLASH
    ensures var n := SkipBlanks(Terminated(s), p + 1);
            && m[q] == s[p] && q + 1 < |m| && n <= |s| && q < q' < |m|
            && InStep(s, p + 1, st, m, q + 1) && TollOf(s, p, st) == TollOf(s, p + 1, st)
            && InStep(s, n, st, m, q') && SkipBlanks(m, q + 1) == q' && m[q'] == Terminated(s)[n]
            && TollOf(s, p, st) == TollOf(s, n, st)
  {
    hide InStep, TollOf, SkipBlanks, Outside;
    MarkInStep(s, p, st, m, q);
    q' := BlanksInStep(s, p + 1, st, m, q + 1);
    InStepBound(s, SkipBlanks(Terminated(s), p + 1), st, m, q');
  }

  lemma {:induction false} ArrayInStep(s: seq<byte>, p: nat, st: Scan, m: seq<byte>, q: nat, d: nat)
    returns (v': Json, q': nat, st': Scan, k: nat)
    requires NulFree(s) && InStep(s, p, st, m, q) && p < |s| && TollOf(s, p, st).tame
    requires s[p] == LBRACKET && ParseValue(Terminated(s), p, d).Ok?
    ensures var r := ParseValue(Terminated(s), p, d);
            ParseValue(m, q, d) == Ok(v', q') && Shrunk(v', r.v, k) && Steps(s, p, st, r.end, st', m, q', k)
    decreases |s| + 1 - p, 1
  {
    hide InStep, TollOf, ParseValue, SkipBlanks, Shrunk;
    var c := Terminated(s);
    Dispatch(c, p, d);
    var first := SkipBlanks(c, p + 1);
    ItemsStart(c, p, d);
    var q1 := OpenInStep(s, p, st, m, q);
    Dispatch(m, q, d);
    if c[first] == RBRACKET {
      assert first < |s|;
      MarkInStep(s, first, st, m, q1);
      v', q', st', k := Array([]), q1 + 1, st, 0;
      ShrunkNothing(v');
    } else {
      var items;
      items, q', st', k := ItemsInStep(s, first - 1, st, m, q1 - 1, d + 1);
      v' := Array(items);
    }
  }

  /** The first byte behind the blanks of an accepted array is no slash. */
  lemma ItemsStart(c: seq<byte>, p: nat, d: nat)
    requires Sees(c, p, LBRACKET) && ParseArray(c, p, d).Ok?
    ensures var n := SkipBlanks(c, p + 1); n < |c| && c[n] != SLASH
  {
    hide ParseValue, SkipBlanks;
    var n := SkipBlanks(c, p + 1);
    if n < |c| && c[n] != RBRACKET {
      assert SkipBlanks(c, n) == n by { SkipsTwice(c, p + 1); }
      ValueStarts(c, n, d + 1);
    }
  }

  lemma SkipsTwice(c: seq<byte>, o: nat)
    requires o <= |c|
    ensures SkipBlanks(c, SkipBlanks(c, o)) == SkipBlanks(c, o)
  {
    var n := SkipBlanks(c, o);
    if n < |c| && c[n] > 32 {
      BlankEndIs(c, n, n);
    } else if n < |c| {
      BlankEndIs(c, n, |c|);
    }
  }

  lemma {:induction false} ItemsInStep(s: seq<byte>, o: nat, st: Scan, m: seq<byte>, q: nat, d: nat)
    returns (items': seq<Json>, q': nat, st': Scan, k: nat)
    requires NulFree(s) && o < |s| && InStep(s, o + 1, st, m, q + 1) && TollOf(s, o + 1, st).tame
    requires q + 1 < |m| && ParseItems(Terminated(s), o, d).Items?
    ensures var r := ParseItems(Terminated(s), o, d);
            && ParseItems(m, q, d) == Items(items', q') && Shrunk(Array(items'), Array(r.items), k)
            && Steps(s, o + 1, st, r.itemsEnd, st', m, q', k)
    decreases |s| + 1 - o, 0
  {
    hide InStep, TollOf, ParseValue, SkipBlanks, Shrunk;
    var c := Terminated(s);
    var start := SkipBlanks(c, o + 1);
    ValueStarts(c, start, d);
    var q1 := BlanksInStep(s, o + 1, st, m, q + 1);
    var r := ParseValue(c, start, d);
    var next := SkipBlanks(c, r.end);
    assert Closed(c, r.end);
    var v1, q2, st2, k1 := ValueInStep(s, start, st, m, q1, d);
    InStepBound(s, r.end, st2, m, q2);
    var q3 := BlanksInStep(s, r.end, st2, m, q2);
    InStepBound(s, next, st2, m, q3);
    assert next < |s|;
    MarkInStep(s, next, st2, m, q3);
    if c[next] == COMMA {
      var rest, k2;
      rest, q', st', k2 := ItemsInStep(s, next, st2, m, q3, d);
      items', k := [v1] + rest, k1 + k2;
      ShrunkItems(v1, r.v, k1, rest, ParseItems(c, next, d).items, k2);
    } else {
      items', q', st', k := [v1], q3 + 1, st2, k1;
      ShrunkNothing(Array([]));
      ShrunkItems(v1, r.v, k1, [], [], 0);
      assert [v1] + [] == [v1] && [r.v] + [] == [r.v];
    }
  }

  lemma {:induction false} ObjectInStep(s: seq<byte>, p: nat, st: Scan, m: seq<byte>, q: nat, d: nat)
    returns (v': Json, q': nat, st': Scan, k: nat)
    requires NulFree(s) && InStep(s, p, st, m, q) && p < |s| && TollOf(s, p, st).tame
    requires s[p] == LBRACE && ParseValue(Terminated(s), p, d).Ok?
    ensures var r := ParseValue(Terminated(s), p, d);
            ParseValue(m, q, d) == Ok(v', q') && Shrunk(v', r.v, k) && Steps(s, p, st, r.end, st', m, q', k)
    decreases |s| + 1 - p, 1
  {
    hide InStep, TollOf, ParseValue, SkipBlanks, ParseMembers, ReadKey, Shrunk;
    var c := Terminated(s);
    Dispatch(c, p, d);
    var first := SkipBlanks(c, p + 1);
    MembersStart(c, p, d);
    var q1 := OpenInStep(s, p, st, m, q);
    Dispatch(m, q, d);
    if c[first] == RBRACE {
      assert first < |s|;
      MarkInStep(s, first, st, m, q1);
      v', q', st', k := Object([]), q1 + 1, st, 0;
      ShrunkNothing(v');
    } else {
      var members;
      members, q', st', k := MembersInStep(s, first - 1, st, m, q1 - 1, d + 1);
      v' := Object(members);
    }
  }

  lemma MembersStart(c: seq<byte>, p: nat, d: nat)
    requires Sees(c, p, LBRACE) && ParseObject(c, p, d).Ok?
    ensures var n := SkipBlanks(c, p + 1); n < |c| && (c[n] == QUOTE || c[n] == RBRACE)
  {
    hide ParseValue, SkipBlanks, FindClose, Unescape;
    var n := SkipBlanks(c, p + 1);
    if n < |c| && c[n] != RBRACE {
      assert SkipBlanks(c, n) == n by { SkipsTwice(c, p + 1); }
      assert ReadKey(c, n - 1).KeyRead?;
    }
  }

  lemma KeyInStep(s: seq<byte>, o: nat, st: Scan, m: seq<byte>, q: nat, start: nat, key: seq<byte>)
    returns (key': seq<byte>, q': nat, st': Scan, k: nat)
    requires NulFree(s) && o < |s| && InStep(s, o + 1, st, m, q + 1) && TollOf(s, o + 1, st).tame
    requires q + 1 < |m| && ReadKey(Terminated(s), o) == KeyRead(key, start)
    requires start < |s| + 1 && Terminated(s)[start] != SLASH
    ensures ReadKey(m, q) == KeyRead(key', q') && |key'| + k == |key| && (k == 0 ==> key' == key)
    ensures Steps(s, o + 1, st, start, st', m, q', k)
  {
    hide InStep, TollOf, SkipBlanks, ReadString;
    var c := Terminated(s);
    var quote := SkipBlanks(c, o + 1);
    var name := ReadString(c, quote);
    StringStarts(c, quote);
    var q1 := BlanksInStep(s, o + 1, st, m, q + 1);
    InStepBound(s, quote, st, m, q1);
    assert quote < |s|;
    var q2;
    q2, st', k, key' := LiteralInStep(s, quote, st, m, q1, key, name.end);
    InStepBound(s, name.end, st', m, q2);
    var q3 := BlanksInStep(s, name.end, st', m, q2);
    var colon := SkipBlanks(c, name.end);
    assert colon < |s|;
    q' := OpenInStep(s, colon, st', m, q3);
    InStepBound(s, colon, st', m, q3);
  }

  lemma StringStarts(c: seq<byte>, o: nat)
    requires o < |c| && ReadString(c, o).StringRead?
    ensures c[o] == QUOTE
  {
  }

  lemma {:induction false} MembersInStep(s: seq<byte>, o: nat, st: Scan, m: seq<byte>, q: nat, d: nat)
    returns (members': seq<Member>, q': nat, st': Scan, k: nat)
    requires NulFree(s) && o < |s| && InStep(s, o + 1, st, m, q + 1) && TollOf(s, o + 1, st).tame
    requires q + 1 < |m| && ParseMembers(Terminated(s), o, d).Members?
    ensures var r := ParseMembers(Terminated(s), o, d);
            && ParseMembers(m, q, d) == Members(members', q') && Shrunk(Object(members'), Object(r.members), k)
            && Steps(s, o + 1, st, r.membersEnd, st', m, q', k)
    decreases |s| + 1 - o, 0
  {
    hide InStep, TollOf, ParseValue, SkipBlanks, ReadKey, Shrunk;
    var c := Terminated(s);
    var key := ReadKey(c, o);
    ValueStarts(c, key.value, d);
    var name, q1, st1, j := KeyInStep(s, o, st, m, q, key.value, key.key);
    var r := ParseValue(c, key.value, d);
    var next := SkipBlanks(c, r.end);
    assert Closed(c, r.end);
    var v1, q2, st2, k1 := ValueInStep(s, key.value, st1, m, q1, d);
    InStepBound(s, r.end, st2, m, q2);
    var q3 := BlanksInStep(s, r.end, st2, m, q2);
    InStepBound(s, next, st2, m, q3);
    assert next < |s|;
    MarkInStep(s, next, st2, m, q3);
    if c[next] == COMMA {
      var rest, k2;
      rest, q', st', k2 := MembersInStep(s, next, st2, m, q3, d);
      members', k := [Member(name, v1)] + rest, j + k1 + k2;
      ShrunkMembers(name, key.key, j, v1, r.v, k1, rest, ParseMembers(c, next, d).members, k2);
    } else {
      members', q', st', k := [Member(name, v1)], q3 + 1, st2, j + k1;
      ShrunkNothing(Object([]));
      ShrunkMembers(name, key.key, j, v1, r.v, k1, [], [], 0);
      assert [Member(name, v1)] + [] == [Member(name, v1)] && [Member(key.key, r.v)] + [] == [Member(key.key, r.v)];
    }
  }

  /** The byte order mark is kept, and minifying does not make one. */
  lemma StartInStep(s: seq<byte>) returns (q: nat)
    requires NulFree(s)
    requires var c := Terminated(s);
             ParseValue(c, SkipBlanks(c, TextStart(c)), 0).Ok?
    ensures var m := Terminated(Minified(s)); var o := TextStart(Terminated(s));
            && TextStart(m) == q && o <= |s| && InStep(s, o, Out, m, q) && TollOf(s, 0, Out) == TollOf(s, o, Out)
  {
    hide TollOf, ParseValue, SkipBlanks, Outside;
    var c, m := Terminated(s), Terminated(Minified(s));
    var o := TextStart(c);
    ValueStarts(c, SkipBlanks(c, o), 0);
    assert m[0..] == m && InStep(s, 0, Out, m, 0);
    if o == 3 {
      AtIndex(c, 0, BYTE_ORDER_MARK, 0);
      assert s[0..3] == c[0..3] == BYTE_ORDER_MARK;
      TokenInStep(s, 0, Out, m, 0, BYTE_ORDER_MARK);
      q := 3;
      var q1 := BlanksInStep(s, 3, Out, m, 3);
      InStepBound(s, SkipBlanks(c, 3), Out, m, q1);
      assert m[|m| - 1] == 0;
    } else {
      q := 0;
      var q1 := BlanksInStep(s, 0, Out, m, 0);
      if At(m, 0, BYTE_ORDER_MARK) {
        AtIndex(m, 0, BYTE_ORDER_MARK, 0);
        assert false;
      }
    }
  }

  lemma AtTheEnd(s: seq<byte>, st: Scan, m: seq<byte>, q: nat)
    requires InStep(s, |s|, st, m, q)
    ensures q == |m| - 1 && m[q] == 0 && TollOf(s, |s|, st).loss == 0
  {
    assert m[q..] == [0];
  }

  // ---------- texts ----------

  /** For every C string that parses with `require_null_terminated`, and in which every literal that
      loses a byte is simple: the minified string parses too, and its tree has lost as many bytes
      of strings and names as the literals have. */
  lemma MinifiedTree(s: seq<byte>)
    requires NulFree(s) && ParseText(Terminated(s), true).Parsed? && TollOf(s, 0, Out).tame
    ensures var r := ParseText(Terminated(Minified(s)), true);
            && r.Parsed? && r.parseEnd == |Minified(s)|
            && Shrunk(r.root, ParseText(Terminated(s), true).root, TollOf(s, 0, Out).loss)
  {
    hide TollOf, ParseValue, ParseText, SkipBlanks, TextStart, Terminated, Minified, Follows, Shrunk, Closed, NulFree;
    var c, m := Terminated(s), Terminated(Minified(s));
    var o := TextStart(c);
    var start := SkipBlanks(c, o);
    TextParsed(s);
    ValueStarts(c, start, 0);
    var q := StartInStep(s);
    var q1 := BlanksInStep(s, o, Out, m, q);
    var r := ParseValue(c, start, 0);
    var v', q2, st, k := ValueInStep(s, start, Out, m, q1, 0);
    var q3 := BlanksInStep(s, r.end, st, m, q2);
    AtTheEnd(s, st, m, q3);
    TerminatedPart(Minified(s), 0, 0);
    TextParses(m, v', q2);
  }

  lemma TextParsed(s: seq<byte>)
    requires NulFree(s) && ParseText(Terminated(s), true).Parsed?
    ensures var c := Terminated(s); var r := ParseValue(c, SkipBlanks(c, TextStart(c)), 0);
            && r.Ok? && r.v == ParseText(c, true).root && SkipBlanks(c, r.end) == |s| < |c| && c[|s|] == 0
            && Closed(c, r.end)
  {
    hide ParseValue, SkipBlanks;
  }

  lemma TextParses(c: seq<byte>, v: Json, end: nat)
    requires |c| > 0 && ParseValue(c, SkipBlanks(c, TextStart(c)), 0) == Ok(v, end)
    requires end <= |c| && Sees(c, SkipBlanks(c, end), 0)
    ensures ParseText(c, true) == Parsed(v, SkipBlanks(c, end))
  {
    hide ParseValue, SkipBlanks;
  }

  /** Minifying keeps the meaning of every text of whose literals no byte is struck. */
  lemma MinifyKeepsMeaning(s: seq<byte>)
    requires NulFree(s) && ParseText(Terminated(s), true).Parsed? && Spared(s)
    ensures ParseText(Terminated(Minified(s)), true)
         == Parsed(ParseText(Terminated(s), true).root, |Minified(s)|)
  {
    TameTexts(s, 0, Out);
    hide ParseText, TollOf, Minified;
    MinifiedTree(s);
  }

  /** And of no other text whose literals are simple: what is struck there is missing. */
  lemma MinifyKeepsMeaningExactly(s: seq<byte>)
    requires NulFree(s) && ParseText(Terminated(s), true).Parsed? && SimpleLiterals(Terminated(s), 0)
    ensures var r := ParseText(Terminated(Minified(s)), true);
            && r.Parsed? && r.parseEnd == |Minified(s)|
            && (r.root == ParseText(Terminated(s), true).root <==> Spared(s))
  {
    TameTexts(s, 0, Out);
    hide ParseText, TollOf, Minified, StringBytes, SimpleLiterals;
    MinifiedTree(s);
  }

  // ---------- texts without a backslash in front of a closing quote ----------

  /** No string literal at or after `p` has a backslash in front of its closing quote. */
  predicate TidyLiterals(c: seq<byte>, p: nat)
    decreases |c| - p
  {
    if p >= |c| then true
    else if c[p] == QUOTE then
      match FindClose(c, p + 1)
      case NoClose => true
      case Close(e) => c[e - 1] != BACKSLASH && TidyLiterals(c, e + 1)
    else TidyLiterals(c, p + 1)
  }

  /** The scanner sees where such a literal ends. */
  lemma {:induction false} TidyInside(s: seq<byte>, p: nat, e: nat)
    requires p <= e < |s| && FindClose(Terminated(s), p) == Close(e)
    requires e > p ==> s[e - 1] != BACKSLASH
    ensures Struck(s, p, e + 1, In) == 0 && Passed(s, p, e + 1, In) == Out
    decreases e - p
  {
    if p == e {
      assert Passed(s, p, p + 1, In) == Out;
    } else if s[p] == BACKSLASH {
      assert p + 2 <= e;
      assert Struck(s, p, e + 1, In) == Struck(s, p + 1, e + 1, After(s, p, In)) == Struck(s, p + 2, e + 1, In);
      assert Passed(s, p, e + 1, In) == Passed(s, p + 1, e + 1, After(s, p, In)) == Passed(s, p + 2, e + 1, In);
      TidyInside(s, p + 2, e);
    } else {
      TidyInside(s, p + 1, e);
    }
  }

  lemma {:induction false} TidyTexts(s: seq<byte>, p: nat)
    requires p <= |s| && TidyLiterals(Terminated(s), p)
    ensures TollOf(s, p, Out).loss == 0
    decreases |s| - p
  {
    if p < |s| {
      var r := FindClose(Terminated(s), p + 1);
      if s[p] != QUOTE {
        TidyTexts(s, p + 1);
      } else if r.Close? {
        assert r.at < |s|;
        assert s[p] == QUOTE && s[r.at - 1] == Terminated(s)[r.at - 1];
        TidyInside(s, p + 1, r.at);
        StruckOne(s, p, r.at + 1, Out);
        TidyTexts(s, r.at + 1);
      }
    }
  }

  /** So no byte of it is struck, and minifying keeps the meaning of the text. */
  lemma TidyKeepsMeaning(s: seq<byte>)
    requires NulFree(s) && ParseText(Terminated(s), true).Parsed? && TidyLiterals(Terminated(s), 0)
    ensures Spared(s)
    ensures ParseText(Terminated(Minified(s)), true)
         == Parsed(ParseText(Terminated(s), true).root, |Minified(s)|)
  {
    TidyTexts(s, 0);
    hide ParseText, Minified;
    MinifyKeepsMeaning(s);
  }

  // ---------- witnesses ----------

  const SPLIT: seq<byte> := [LBRACKET, QUOTE, BACKSLASH, BACKSLASH, QUOTE, COMMA, QUOTE, 97, SPACE, 98, QUOTE, RBRACKET]
  const JOINED: seq<byte> := [LBRACKET, QUOTE, BACKSLASH, BACKSLASH, QUOTE, COMMA, QUOTE, 97, 98, QUOTE, RBRACKET]

  lemma SplitMinified()
    ensures Minified(SPLIT) == JOINED
  {
    var s := SPLIT;
    OutsideCopies(s, 0);
    FirstPart(s);
    KeptRun(s, 1, 5, Out);
    SplitBehind(s);
    hide Outside, Inside, Struck, Passed;
    assert JOINED == [LBRACKET] + (s[1..5] + [COMMA, QUOTE, 97, 98, QUOTE, RBRACKET]);
  }

  lemma SplitBehind(s: seq<byte>)
    requires s == SPLIT
    ensures Inside(s, 5) == [COMMA, QUOTE, 97, 98, QUOTE, RBRACKET]
  {
    assert Inside(s, 12) == [];
    assert Inside(s, 11) == [RBRACKET] + [];
    assert Outside(s, 10) == [QUOTE] + Inside(s, 11);
    assert Outside(s, 8) == Outside(s, 9) == [98] + Outside(s, 10);
    assert Outside(s, 7) == [97] + Outside(s, 8);
    assert Inside(s, 6) == [QUOTE] + Outside(s, 7);
    assert Inside(s, 5) == [COMMA] + Inside(s, 6);
  }

  function Pair(s: seq<byte>): Json { Array([String([BACKSLASH]), String(s)]) }

  lemma PairText(s: seq<byte>)
    requires forall i :: 0 <= i < |s| ==> EscapeByte(s[i]) == [s[i]]
    ensures Render(Pair(s), false, 0) == PairLine(s)
  {
    hide Escape, EscapeByte, ItemsText;
    EscapeSelf(s);
    TwoItems(String([BACKSLASH]), String(s));
    OneBackslash();
  }

  lemma TwoItems(v: Json, w: Json)
    ensures ItemsText([v, w], false, 1) == Render(v, false, 1) + ([COMMA] + (Render(w, false, 1) + [RBRACKET]))
  {
    hide Render;
    assert [w][1..] == [] && AfterItem([w], false, 1) == [] + [RBRACKET];
    assert [v, w][1..] == [w] && AfterItem([v, w], false, 1) == [COMMA] + ItemsText([w], false, 1);
  }

  lemma {:induction false} EscapeSelf(s: seq<byte>)
    requires forall i :: 0 <= i < |s| ==> EscapeByte(s[i]) == [s[i]]
    ensures Escape(s) == s
  {
    if s != [] {
      EscapeSelf(s[1..]);
      assert s == [s[0]] + s[1..];
    }
  }

  /** The text `["\\","a b"]` loses a byte of its second literal, and the two texts parse to
      different trees. */
  lemma MinifyChangesMeaning()
    ensures SimpleLiterals(Terminated(SPLIT), 0) && TollOf(SPLIT, 0, Out) == Toll(true, 1) && Minified(SPLIT) == JOINED
    ensures ParseText(Terminated(SPLIT), true) == Parsed(Pair([97, SPACE, 98]), |SPLIT|)
    ensures ParseText(Terminated(JOINED), true) == Parsed(Pair([97, 98]), |JOINED|)
  {
    SplitMinified();
    SplitToll();
    SplitLiterals();
    hide ParseText, Minified, TollOf, SimpleLiterals;
    PairParses([97, SPACE, 98]);
    PairParses([97, 98]);
    assert SPLIT == PairLine([97, SPACE, 98]) && JOINED == PairLine([97, 98]);
  }

  function PairLine(s: seq<byte>): seq<byte> {
    [LBRACKET, QUOTE, BACKSLASH, BACKSLASH, QUOTE, COMMA, QUOTE] + s + [QUOTE, RBRACKET]
  }

  lemma PairParses(s: seq<byte>)
    requires NulFree(s) && forall i :: 0 <= i < |s| ==> EscapeByte(s[i]) == [s[i]]
    ensures ParseText(Terminated(PairLine(s)), true) == Parsed(Pair(s), |PairLine(s)|)
  {
    PairText(s);
    var items := [String([BACKSLASH]), String(s)];
    assert Plain(Pair(s));
    assert items[1..] == [String(s)] && items[1..][1..] == [];
    assert ItemsHeight(items) == 0 by {
      assert ItemsHeight([]) == 0 && ItemsHeight([String(s)]) == 0;
    }
    hide ParseText, Render, Plain, Height;
    PrintThenParse(Pair(s), false, true);
  }

  lemma SplitToll()
    ensures TollOf(SPLIT, 0, Out) == Toll(true, 1)
  {
    hide FindClose, Simple, Terminated, Struck, Passed;
    var s := SPLIT;
    SplitSimple();
    FirstPart(s);
    SecondPart(s);
    assert TollOf(s, 12, In) == TollOf(s, 11, In) == Toll(true, 0);
    assert TollOf(s, 6, In) == Toll(true, 1) == TollOf(s, 5, In);
    assert TollOf(s, 1, Out) == Toll(true, 1);
  }

  /** Both literals of the text are simple. */
  lemma SplitSimple()
    ensures var c := Terminated(SPLIT);
            && FindClose(c, 2) == Close(4) && Simple(c, 2, 4) && FindClose(c, 7) == Close(10) && Simple(c, 7, 10)
    ensures |Terminated(SPLIT)| == 13 && forall i :: 0 <= i < 12 ==> Terminated(SPLIT)[i] == SPLIT[i]
    ensures Terminated(SPLIT)[12] == 0
  {
    var c := Terminated(SPLIT);
    assert FindClose(c, 10) == Close(10) && FindClose(c, 9) == Close(10) && FindClose(c, 8) == Close(10);
    assert FindClose(c, 4) == Close(4);
    assert Unescape(c, 4, 4) == Unescape(c, 10, 10) == Unescaped([]);
    assert Unescape(c, 2, 4) == Unescaped([BACKSLASH]);
    assert Unescape(c, 9, 10) == Unescaped([98]) && Unescape(c, 8, 10) == Unescaped([SPACE, 98]);
    assert Unescape(c, 7, 10) == Unescaped([97, SPACE, 98]);
  }

  lemma SplitLiterals()
    ensures SimpleLiterals(Terminated(SPLIT), 0)
  {
    hide FindClose, Simple, Terminated;
    var c := Terminated(SPLIT);
    SplitSimple();
    assert SimpleLiterals(c, 13) && SimpleLiterals(c, 12) && SimpleLiterals(c, 11);
    assert SimpleLiterals(c, 6) && SimpleLiterals(c, 5) && SimpleLiterals(c, 1);
  }

  /** The literal `"a b"` at 6 loses its blank. */
  lemma SecondPart(s: seq<byte>)
    requires s == SPLIT
    ensures Struck(s, 6, 11, In) == 1 && Passed(s, 6, 11, In) == In
  {
    assert Struck(s, 9, 11, Out) == 0 && Passed(s, 9, 11, Out) == In;
  }

  /** The literal `"\\"` at 1 leaves the scanner inside of a string. */
  lemma FirstPart(s: seq<byte>)
    requires |s| > 5 && s[1] == s[4] == QUOTE && s[2] == s[3] == BACKSLASH
    ensures Struck(s, 1, 5, Out) == 0 && Passed(s, 1, 5, Out) == In
  {
    assert After(s, 1, Out) == In && After(s, 2, In) == In && After(s, 3, In) == Escaped && After(s, 4, Escaped) == In;
    assert Passed(s, 5, 5, In) == In && Struck(s, 5, 5, In) == 0;
    assert Passed(s, 4, 5, Escaped) == In && Struck(s, 4, 5, Escaped) == 0;
    assert Passed(s, 3, 5, In) == In && Struck(s, 3, 5, In) == 0;
    assert Passed(s, 2, 5, In) == In && Struck(s, 2, 5, In) == 0;
  }

  // A literal that is not simple may lose bytes that the tree does not show.

  /** The text `["\\","\u0000"]` with something behind the zero. */
  function ZeroLine(blanks: seq<byte>): seq<byte> {
    [LBRACKET, QUOTE, BACKSLASH, BACKSLASH, QUOTE, COMMA, QUOTE, BACKSLASH, 117, ZERO, ZERO, ZERO, ZERO]
    + blanks + [QUOTE, RBRACKET]
  }

  lemma ZeroMinified()
    ensures Minified(ZeroLine([SPACE])) == ZeroLine([])
  {
    hide Outside, Inside, Struck, Passed;
    var s := ZeroLine([SPACE]);
    ZeroBehind(s);
    FirstPart(s);
    KeptRun(s, 1, 5, Out);
    OutsideCopies(s, 0);
    assert ZeroLine([]) == [LBRACKET] + (s[1..5] + [COMMA, QUOTE, BACKSLASH, 117, ZERO, ZERO, ZERO, ZERO, QUOTE, RBRACKET]);
  }

  lemma ZeroBehind(s: seq<byte>)
    requires s == ZeroLine([SPACE])
    ensures Inside(s, 5) == [COMMA, QUOTE, BACKSLASH, 117, ZERO, ZERO, ZERO, ZERO, QUOTE, RBRACKET]
  {
    VisibleRun(s, 7, 13, Out);
    TokenStays(s, 7, 13);
    KeptRun(s, 7, 13, Out);
    ZeroEnds(s);
    assert Inside(s, 6) == [QUOTE] + Outside(s, 7);
    assert Inside(s, 5) == [COMMA] + Inside(s, 6);
    hide Outside, Inside, Struck, Passed;
    assert s[7..13] == [BACKSLASH, 117, ZERO, ZERO, ZERO, ZERO];
  }

  lemma ZeroEnds(s: seq<byte>)
    requires s == ZeroLine([SPACE])
    ensures Outside(s, 13) == [QUOTE, RBRACKET]
  {
    assert Inside(s, 16) == [];
    assert Inside(s, 15) == [RBRACKET] + [];
    assert Outside(s, 13) == Outside(s, 14) == [QUOTE] + Inside(s, 15);
  }

  lemma OutsideCopies(s: seq<byte>, p: nat)
    requires p < |s| && !IsSpace(s[p]) && s[p] != SLASH && s[p] != QUOTE
    ensures Outside(s, p) == [s[p]] + Outside(s, p + 1)
  {
  }

  lemma ZeroCloses(c: seq<byte>, p: nat, e: nat)
    requires p + 7 <= e < |c| && c[p + 1] == BACKSLASH && c[e] == QUOTE
    requires c[p + 3] == c[p + 4] == c[p + 5] == c[p + 6] == ZERO
    requires e == p + 7 || (e == p + 8 && c[p + 7] == SPACE)
    ensures FindClose(c, p + 1) == Close(e)
  {
    assert FindClose(c, e) == Close(e) && FindClose(c, p + 7) == Close(e);
    assert FindClose(c, p + 6) == Close(e) && FindClose(c, p + 5) == Close(e);
    assert FindClose(c, p + 4) == Close(e) && FindClose(c, p + 3) == Close(e);
  }

  lemma ZeroReads(c: seq<byte>, p: nat, e: nat)
    requires p + 7 <= e < |c| && c[p] == QUOTE && c[p + 1] == BACKSLASH && c[p + 2] == 117 && c[e] == QUOTE
    requires c[p + 3..p + 7] == [ZERO, ZERO, ZERO, ZERO]
    requires e == p + 7 || (e == p + 8 && c[p + 7] == SPACE)
    ensures ReadString(c, p) == StringRead([], e + 1)
  {
    var h := c[p + 3..p + 7];
    assert c[p + 3] == h[0] && c[p + 4] == h[1] && c[p + 5] == h[2] && c[p + 6] == h[3];
    ZeroCloses(c, p, e);
    assert Hex4(h) == 0 && Utf16Literal(c, p + 1, e) == Literal(6, [0]);
    assert UnescapeStep(c, p + 1, e) == Literal(6, [0]);
    assert Unescape(c, e, e) == Unescaped([]) && Unescape(c, p + 7, e).Unescaped?;
    var bytes := Unescape(c, p + 1, e).bytes;
    assert bytes[0] == 0;
    assert CStr(bytes) == [];
  }

  lemma BackslashCloses(c: seq<byte>, p: nat)
    requires p + 3 < |c| && c[p + 1] == c[p + 2] == BACKSLASH && c[p + 3] == QUOTE
    ensures FindClose(c, p + 1) == Close(p + 3)
  {
    assert FindClose(c, p + 3) == Close(p + 3);
  }

  lemma BackslashReads(c: seq<byte>, p: nat)
    requires p + 3 < |c| && c[p] == c[p + 3] == QUOTE && c[p + 1] == c[p + 2] == BACKSLASH
    ensures ReadString(c, p) == StringRead([BACKSLASH], p + 4)
  {
    BackslashCloses(c, p);
    assert Unescape(c, p + 3, p + 3) == Unescaped([]);
    var b: seq<byte> := [BACKSLASH];
    assert b + [] == b && Unescape(c, p + 1, p + 3) == Unescaped(b);
    WholeString(b);
  }

  lemma ZeroParses(blanks: seq<byte>)
    requires blanks == [] || blanks == [SPACE]
    ensures ParseText(Terminated(ZeroLine(blanks)), true) == Parsed(Pair([]), |ZeroLine(blanks)|)
  {
    hide ReadString, ParseValue;
    var c, e := Terminated(ZeroLine(blanks)), 13 + |blanks|;
    assert c[9..13] == [ZERO, ZERO, ZERO, ZERO];
    assert c[0] == LBRACKET && c[e] == QUOTE && c[e + 1] == RBRACKET && c[e + 2] == 0 && |c| == e + 3;
    BackslashReads(c, 1);
    ZeroReads(c, 6, e);
    TwoStrings(c, [BACKSLASH], [], e);
    SkipsTo(c, 0, 0);
    assert SkipBlanks(c, e + 2) == e + 2;
    assert !At(c, 0, BYTE_ORDER_MARK) by {
      if At(c, 0, BYTE_ORDER_MARK) { AtIndex(c, 0, BYTE_ORDER_MARK, 0); }
    }
  }

  lemma TwoStrings(c: seq<byte>, a: seq<byte>, b: seq<byte>, e: nat)
    requires 6 < e && |c| == e + 3 && c[0] == LBRACKET && c[1] == c[6] == QUOTE && c[5] == COMMA && c[e + 1] == RBRACKET
    requires ReadString(c, 1) == StringRead(a, 5) && ReadString(c, 6) == StringRead(b, e + 1)
    ensures ParseValue(c, 0, 0) == Ok(Array([String(a), String(b)]), e + 2)
  {
    hide ReadString, ParseValue, SkipBlanks;
    SkipsTo(c, 1, 1);
    SkipsTo(c, 5, 5);
    SkipsTo(c, 6, 6);
    SkipsTo(c, e + 1, e + 1);
    Dispatch(c, 0, 0);
    Dispatch(c, 1, 1);
    Dispatch(c, 6, 1);
    assert ParseItems(c, 5, 1) == Items([String(b)], e + 2);
    assert ParseItems(c, 0, 1) == Items([String(a), String(b)], e + 2);
  }

  /** In `["\\","\u0000 "]` a blank is struck behind a U+0000, where the C string has ended: the tree is
      the same although a literal loses a byte. */
  lemma StruckUnseen()
    ensures var s := ZeroLine([SPACE]);
            && !Spared(s) && Minified(s) == ZeroLine([])
            && ParseText(Terminated(s), true) == Parsed(Pair([]), |s|)
            && ParseText(Terminated(Minified(s)), true) == Parsed(Pair([]), |Minified(s)|)
  {
    ZeroMinified();
    ZeroParses([]);
    ZeroParses([SPACE]);
    ZeroStruck();
    hide ParseText, Minified, TollOf;
  }

  lemma ZeroStruck()
    ensures !Spared(ZeroLine([SPACE]))
  {
    hide Struck, Passed, FindClose, Simple;
    var s, c := ZeroLine([SPACE]), Terminated(ZeroLine([SPACE]));
    BackslashCloses(c, 1);
    ZeroCloses(c, 6, 14);
    FirstPart(s);
    TokenStays(s, 7, 13);
    LosesBlank(s);
    assert TollOf(s, 6, In).loss > 0;
    assert TollOf(s, 5, In).loss > 0;
    assert TollOf(s, 1, Out).loss > 0;
  }

  lemma LosesBlank(s: seq<byte>)
    requires |s| >= 15 && s[6] == QUOTE && s[13] == SPACE && forall i :: 7 <= i < 13 ==> s[i] != QUOTE
    ensures Struck(s, 6, 15, In) > 0
  {
    TokenStays(s, 7, 13);
    StruckOne(s, 6, 15, In);
    StruckSplit(s, 7, 13, 15, Out);
    StruckOne(s, 13, 15, Out);
  }

  lemma {:induction false} TokenStays(s: seq<byte>, p: nat, e: nat)
    requires p <= e <= |s| && forall i :: p <= i < e ==> s[i] != QUOTE
    ensures Passed(s, p, e, Out) == Out
    decreases e - p
  {
    if p < e {
      TokenStays(s, p + 1, e);
    }
  }
}
