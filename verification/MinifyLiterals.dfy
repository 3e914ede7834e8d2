/** String literals under the minifier, which takes an escaped backslash for an escape of what
    follows: what a literal loses, and what is then read from it. */
module MinifyLiterals {
  import opened Bytes
  import opened Trees
  import opened Utf
  import opened Strings
  import opened Minify

  function Terminated(s: seq<byte>): seq<byte> { s + [0] }

  // ---------- the scanner of the minifier, byte by byte ----------

  /** Outside of what the minifier takes for a string, inside, or inside at a quote it takes for
      escaped. */
  datatype Scan = Out | In | Escaped

  /** What is written from `p` on. */
  function Rest(s: seq<byte>, p: nat, st: Scan): seq<byte>
    requires p <= |s|
  {
    match st
    case Out => Outside(s, p)
    case In => Inside(s, p)
    case Escaped => if p < |s| then [s[p]] + Inside(s, p + 1) else []
  }

  function After(s: seq<byte>, p: nat, st: Scan): Scan
    requires p < |s|
  {
    match st
    case Out => if s[p] == QUOTE then In else Out
    case In =>
      if s[p] == QUOTE then Out
      else if s[p] == BACKSLASH && Peek(s, p + 1) == QUOTE then Escaped
      else In
    case Escaped => In
  }

  predicate Strikes(s: seq<byte>, p: nat, st: Scan)
    requires p < |s|
  {
    st == Out && (IsSpace(s[p]) || s[p] == SLASH)
  }

  /** How many bytes between `p` and `e` are struck, a slash counting as one of them. */
  function Struck(s: seq<byte>, p: nat, e: nat, st: Scan): nat
    requires p <= e <= |s|
    decreases e - p
  {
    if p == e then 0 else (if Strikes(s, p, st) then 1 else 0) + Struck(s, p + 1, e, After(s, p, st))
  }

  function Passed(s: seq<byte>, p: nat, e: nat, st: Scan): Scan
    requires p <= e <= |s|
    decreases e - p
  {
    if p == e then st else Passed(s, p + 1, e, After(s, p, st))
  }

  lemma RestStep(s: seq<byte>, p: nat, st: Scan)
    requires p < |s| && (st == Out ==> s[p] != SLASH)
    ensures Rest(s, p, st) == (if Strikes(s, p, st) then [] else [s[p]]) + Rest(s, p + 1, After(s, p, st))
  {
    if st == In && After(s, p, st) == Escaped {
      assert [BACKSLASH, QUOTE] + Inside(s, p + 2) == [BACKSLASH] + ([QUOTE] + Inside(s, p + 2));
    } else if Strikes(s, p, st) {
      assert [] + Rest(s, p + 1, After(s, p, st)) == Rest(s, p + 1, After(s, p, st));
    }
  }

  lemma {:induction false} StruckSplit(s: seq<byte>, p: nat, n: nat, e: nat, st: Scan)
    requires p <= n <= e <= |s|
    ensures Struck(s, p, e, st) == Struck(s, p, n, st) + Struck(s, n, e, Passed(s, p, n, st))
    ensures Passed(s, p, e, st) == Passed(s, n, e, Passed(s, p, n, st))
    decreases n - p
  {
    if p < n {
      StruckSplit(s, p + 1, n, e, After(s, p, st));
    }
  }

  /** Bytes of which none is struck are copied. */
  lemma {:induction false} KeptRun(s: seq<byte>, p: nat, e: nat, st: Scan)
    requires p <= e <= |s| && Struck(s, p, e, st) == 0
    ensures Rest(s, p, st) == s[p..e] + Rest(s, e, Passed(s, p, e, st))
    decreases e - p
  {
    if p == e {
      assert s[p..e] + Rest(s, e, st) == Rest(s, e, st);
    } else {
      RestStep(s, p, st);
      KeptRun(s, p + 1, e, After(s, p, st));
      assert s[p..e] == [s[p]] + s[p + 1..e];
      Regroup([s[p]], s[p + 1..e], Rest(s, e, Passed(s, p, e, st)));
    }
  }

  // ---------- what literals lose ----------

  /** A literal between its quotes without a slash and without an escape read as U+0000. */
  predicate Simple(c: seq<byte>, p: nat, e: nat) {
    && p <= e < |c| && (forall i :: p <= i < e ==> c[i] != SLASH)
    && Unescape(c, p, e).Unescaped? && NulFree(Unescape(c, p, e).bytes)
  }

  /** How many bytes the literals of the parser lose, and whether all that lose any are simple. */
  datatype Toll = Toll(tame: bool, loss: nat)

  function TollOf(s: seq<byte>, p: nat, st: Scan): Toll
    requires p <= |s|
    decreases |s| - p
  {
    if p == |s| then Toll(true, 0)
    else if s[p] != QUOTE then TollOf(s, p + 1, st)
    else
      match FindClose(Terminated(s), p + 1)
      case NoClose => Toll(true, 0)
      case Close(e) =>
        var lost := Struck(s, p, e + 1, st);
        var rest := TollOf(s, e + 1, Passed(s, p, e + 1, st));
        Toll((lost == 0 || Simple(Terminated(s), p + 1, e)) && rest.tame, lost + rest.loss)
  }

  /** No literal of a text loses a byte. */
  predicate Spared(s: seq<byte>) { TollOf(s, 0, Out).loss == 0 }

  /** All literals of a text, from `p` on, are simple. */
  predicate SimpleLiterals(c: seq<byte>, p: nat)
    decreases |c| - p
  {
    if p >= |c| then true
    else if c[p] != QUOTE then SimpleLiterals(c, p + 1)
    else
      match FindClose(c, p + 1)
      case NoClose => true
      case Close(e) => Simple(c, p + 1, e) && SimpleLiterals(c, e + 1)
  }

  lemma {:induction false} TameTexts(s: seq<byte>, p: nat, st: Scan)
    requires p <= |s|
    ensures TollOf(s, p, st).loss == 0 || SimpleLiterals(Terminated(s), p) ==> TollOf(s, p, st).tame
    decreases |s| - p
  {
    if p < |s| {
      var r := FindClose(Terminated(s), p + 1);
      if s[p] != QUOTE {
        TameTexts(s, p + 1, st);
      } else if r.Close? {
        TameTexts(s, r.at + 1, Passed(s, p, r.at + 1, st));
      }
    }
  }

  // ---------- the bytes of a tree ----------

  /** How many bytes the strings and names of a tree have. */
  function StringBytes(v: Json): nat
    decreases v
  {
    match v
    case String(s) => |s|
    case Array(items) => ItemsBytes(items)
    case Object(members) => MembersBytes(members)
    case _ => 0
  }

  function ItemsBytes(items: seq<Json>): nat
    decreases items
  {
    if items == [] then 0 else StringBytes(items[0]) + ItemsBytes(items[1..])
  }

  function MembersBytes(members: seq<Member>): nat
    decreases members
  {
    if members == [] then 0 else |members[0].key| + StringBytes(members[0].value) + MembersBytes(members[1..])
  }

  /** `v` has lost `k` bytes of its strings and nothing else. */
  predicate Shrunk(v': Json, v: Json, k: nat) {
    StringBytes(v') + k == StringBytes(v) && (k == 0 ==> v' == v)
  }

  lemma ShrunkItems(v': Json, v: Json, k: nat, rest': seq<Json>, rest: seq<Json>, n: nat)
    requires Shrunk(v', v, k) && Shrunk(Array(rest'), Array(rest), n)
    ensures Shrunk(Array([v'] + rest'), Array([v] + rest), k + n)
  {
    hide StringBytes;
    assert ([v'] + rest')[1..] == rest' && ([v] + rest)[1..] == rest;
    ItemsOfArray(rest);
    ItemsOfArray(rest');
    ItemsOfArray([v] + rest);
    ItemsOfArray([v'] + rest');
  }

  lemma ItemsOfArray(items: seq<Json>)
    ensures StringBytes(Array(items)) == ItemsBytes(items)
  {
  }

  lemma ShrunkMembers(
    name': seq<byte>, name: seq<byte>, j: nat, v': Json, v: Json, k: nat, rest': seq<Member>, rest: seq<Member>, n: nat)
    requires |name'| + j == |name| && (j == 0 ==> name' == name)
    requires Shrunk(v', v, k) && Shrunk(Object(rest'), Object(rest), n)
    ensures Shrunk(Object([Member(name', v')] + rest'), Object([Member(name, v)] + rest), j + k + n)
  {
    hide StringBytes;
    var all', all := [Member(name', v')] + rest', [Member(name, v)] + rest;
    assert all'[1..] == rest' && all[1..] == rest;
    MembersOfObject(rest);
    MembersOfObject(rest');
    MembersOfObject(all);
    MembersOfObject(all');
  }

  lemma MembersOfObject(members: seq<Member>)
    ensures StringBytes(Object(members)) == MembersBytes(members)
  {
  }

  // ---------- in step ----------

  /** The minified text `m` from `q` on belongs to the text `s` from `p` on, where no escape is
      under way. */
  predicate InStep(s: seq<byte>, p: nat, st: Scan, m: seq<byte>, q: nat) {
    st != Escaped && Follows(s, p, st, m, q)
  }

  predicate Follows(s: seq<byte>, p: nat, st: Scan, m: seq<byte>, q: nat) {
    p <= |s| && q < |m| && m[q..] == Rest(s, p, st) + [0]
  }

  // ---------- moving a literal ----------

  /** The bytes of `c` from `p` to `e` stand in `m` from `q` on. */
  predicate Same(c: seq<byte>, p: nat, e: nat, m: seq<byte>, q: nat) {
    p <= e < |c| && q + (e - p) < |m| && forall i :: p <= i <= e ==> m[q + (i - p)] == c[i]
  }

  lemma {:induction false} CloseMoves(c: seq<byte>, p: nat, e: nat, m: seq<byte>, q: nat)
    requires FindClose(c, p) == Close(e) && Same(c, p, e, m, q)
    ensures FindClose(m, q) == Close(q + (e - p))
    decreases e - p
  {
    assert m[q + (p - p)] == c[p];
    if p < e {
      assert m[q + (p + 1 - p)] == c[p + 1];
      var step := if c[p] == BACKSLASH then 2 else 1;
      forall i | p + step <= i <= e ensures m[(q + step) + (i - (p + step))] == c[i] {
        assert m[q + (i - p)] == c[i];
      }
      CloseMoves(c, p + step, e, m, q + step);
    }
  }

  lemma LiteralMoves(c: seq<byte>, p: nat, e: nat, m: seq<byte>, q: nat)
    requires p <= e && Same(c, p, e, m, q)
    ensures Utf16Literal(m, q, q + (e - p)) == Utf16Literal(c, p, e)
  {
    hide Hex4, Utf8, PairCodePoint;
    if p + 6 <= e {
      assert m[q + 2..q + 6] == c[p + 2..p + 6];
      if p + 12 <= e {
        assert m[q + (p + 6 - p)] == c[p + 6] && m[q + (p + 7 - p)] == c[p + 7];
        assert m[q + 8..q + 12] == c[p + 8..p + 12];
      }
    }
  }

  lemma StepMoves(c: seq<byte>, p: nat, e: nat, m: seq<byte>, q: nat)
    requires p < e && Same(c, p, e, m, q)
    ensures UnescapeStep(m, q, q + (e - p)) == UnescapeStep(c, p, e)
  {
    hide Utf16Literal;
    assert m[q + (p - p)] == c[p] && m[q + (p + 1 - p)] == c[p + 1];
    LiteralMoves(c, p, e, m, q);
  }

  lemma SameTail(c: seq<byte>, p: nat, n: nat, e: nat, m: seq<byte>, q: nat)
    requires Same(c, p, e, m, q) && p + n <= e
    ensures Same(c, p + n, e, m, q + n)
  {
    forall i | p + n <= i <= e ensures m[(q + n) + (i - (p + n))] == c[i] {
      assert m[q + (i - p)] == c[i];
    }
  }

  lemma {:induction false} UnescapeMoves(c: seq<byte>, p: nat, e: nat, m: seq<byte>, q: nat)
    requires e < |c| && q + (e - p) < |m|
    requires Same(c, p, e, m, q) && Unescape(c, p, e).Unescaped?
    ensures Unescape(m, q, q + (e - p)) == Unescape(c, p, e)
    decreases e - p
  {
    hide Same, UnescapeStep;
    if p < e {
      StepMoves(c, p, e, m, q);
      var step := UnescapeStep(c, p, e).length;
      if p + step <= e {
        SameTail(c, p, step, e, m, q);
        UnescapeMoves(c, p + step, e, m, q + step);
      }
    }
  }

  lemma StringMoves(c: seq<byte>, o: nat, str: seq<byte>, end: nat, m: seq<byte>, q: nat)
    requires o < |c| && ReadString(c, o) == StringRead(str, end) && At(m, q, c[o..end])
    ensures q < |m| && ReadString(m, q) == StringRead(str, q + (end - o))
  {
    hide Unescape, FindClose;
    var e := end - 1;
    forall i | o <= i <= e ensures q + (i - o) < |m| && m[q + (i - o)] == c[i] {
      AtIndex(m, q, c[o..end], i - o);
    }
    assert m[q + (o - o)] == c[o];
    forall i | o + 1 <= i <= e ensures m[(q + 1) + (i - (o + 1))] == c[i] {
      assert m[q + (i - o)] == c[i];
    }
    CloseMoves(c, o + 1, e, m, q + 1);
    UnescapeMoves(c, o + 1, e, m, q + 1);
  }

  // ---------- a literal that may lose bytes ----------

  /** Bytes that are copied. */
  lemma FollowsRun(s: seq<byte>, p: nat, e: nat, st: Scan, m: seq<byte>, q: nat)
    requires Follows(s, p, st, m, q) && p <= e <= |s| && Struck(s, p, e, st) == 0
    ensures q + (e - p) < |m| && m[q..q + (e - p)] == s[p..e]
    ensures Follows(s, e, Passed(s, p, e, st), m, q + (e - p))
  {
    KeptRun(s, p, e, st);
    var rest, n := Rest(s, e, Passed(s, p, e, st)), e - p;
    hide Rest, Struck, Passed;
    assert m[q..] == s[p..e] + (rest + [0]) by {
      Regroup(s[p..e], rest, [0]);
    }
    assert m[q..q + n] == m[q..][..n] && m[q + n..] == m[q..][n..];
  }

  lemma FollowsStruck(s: seq<byte>, p: nat, st: Scan, m: seq<byte>, q: nat)
    requires Follows(s, p, st, m, q) && p < |s| && st == Out && IsSpace(s[p])
    ensures Follows(s, p + 1, st, m, q)
  {
    RestStep(s, p, st);
    assert [] + Rest(s, p + 1, st) == Rest(s, p + 1, st);
  }

  /** Bytes that the scanner strikes nowhere. */
  lemma {:induction false} VisibleRun(s: seq<byte>, p: nat, e: nat, st: Scan)
    requires p <= e <= |s| && forall i :: p <= i < e ==> !IsSpace(s[i]) && s[i] != SLASH
    ensures Struck(s, p, e, st) == 0
    decreases e - p
  {
    if p < e {
      VisibleRun(s, p + 1, e, After(s, p, st));
    }
  }

  lemma HexBytes(c: seq<byte>, p: nat)
    requires p + 4 <= |c| && Hex4(c[p..p + 4]) != 0
    ensures forall i :: p <= i < p + 4 ==> HexDigit(c[i]) >= 0
    ensures FindClose(c, p) == FindClose(c, p + 4)
  {
    var h := c[p..p + 4];
    assert IsHex4(h);
    assert c[p] == h[0] && c[p + 1] == h[1] && c[p + 2] == h[2] && c[p + 3] == h[3];
    assert FindClose(c, p) == FindClose(c, p + 1) == FindClose(c, p + 2);
    assert FindClose(c, p + 2) == FindClose(c, p + 3) == FindClose(c, p + 4);
  }

  /** An escape ends in front of the closing quote. */
  lemma EscapeWithin(c: seq<byte>, p: nat, e: nat)
    requires p < e < |c| && c[p] == BACKSLASH && FindClose(c, p) == Close(e)
    ensures p + UnescapeStep(c, p, e).length <= e
  {
    assert p + 2 <= e;
  }

  /** The bytes of an escape that is no U+0000: none is a blank or a slash, and the first pass steps
      over them. */
  lemma EscapeBytes(c: seq<byte>, p: nat, e: nat)
    requires p < e < |c| && c[p] == BACKSLASH && c[p + 1] != SLASH
    requires var step := UnescapeStep(c, p, e); 0 < step.length <= e - p && NulFree(step.output)
    ensures var n := UnescapeStep(c, p, e).length;
            && 2 <= n && FindClose(c, p) == FindClose(c, p + n)
            && forall i :: p <= i < p + n ==> !IsSpace(c[i]) && c[i] != SLASH
  {
    assert FindClose(c, p) == FindClose(c, p + 2);
    if c[p + 1] == 117 {
      assert UnescapeStep(c, p, e) == Utf16Literal(c, p, e);
      hide UnescapeStep;
      LiteralBytes(c, p, e);
    }
  }

  lemma LiteralBytes(c: seq<byte>, p: nat, e: nat)
    requires p < e < |c| && c[p] == BACKSLASH && c[p + 1] == 117
    requires var r := Utf16Literal(c, p, e); 0 < r.length && NulFree(r.output)
    ensures var n := Utf16Literal(c, p, e).length;
            && p + n <= e && FindClose(c, p + 2) == FindClose(c, p + n)
            && forall i :: p <= i < p + n ==> !IsSpace(c[i]) && c[i] != SLASH
  {
    hide FindClose;
    var first, zero: seq<byte> := Hex4(c[p + 2..p + 6]), [0];
    assert Utf8(0) == zero && zero[0] == 0;
    assert first != 0;
    HexBytes(c, p + 2);
    if IsHighSurrogate(first) {
      HexBytes(c, p + 8);
      EscapeCloses(c, p + 6);
    }
  }

  lemma EscapeCloses(c: seq<byte>, p: nat)
    requires p + 1 < |c| && c[p] == BACKSLASH
    ensures FindClose(c, p) == FindClose(c, p + 2)
  {
  }

  /** The same bytes, further from their closing quote or not, are the same escape. */
  lemma EscapeMoves(c: seq<byte>, p: nat, e: nat, m: seq<byte>, q: nat, f: nat)
    requires p < e < |c| && q < f < |m| && c[p] == BACKSLASH
    requires var n := UnescapeStep(c, p, e).length;
             0 < n <= e - p && q + n <= f && m[q..q + n] == c[p..p + n]
    ensures m[q] == c[p] && m[q + 1] == c[p + 1] && UnescapeStep(m, q, f) == UnescapeStep(c, p, e)
  {
    hide Hex4, Utf8, PairCodePoint;
    var n := UnescapeStep(c, p, e).length;
    assert n >= 2;
    SamePart(m, q, c, p, n, 0, 2);
    assert m[q] == m[q..q + 2][0] == c[p..p + 2][0] && m[q + 1] == m[q..q + 2][1] == c[p..p + 2][1];
    if n >= 6 {
      SamePart(m, q, c, p, n, 2, 6);
    }
    if n == 12 {
      SamePart(m, q, c, p, n, 6, 8);
      assert m[q + 6] == m[q + 6..q + 8][0] == c[p + 6..p + 8][0] && m[q + 7] == m[q + 6..q + 8][1] == c[p + 6..p + 8][1];
      SamePart(m, q, c, p, n, 8, 12);
    }
  }

  lemma SamePart(m: seq<byte>, q: nat, c: seq<byte>, p: nat, n: nat, i: nat, j: nat)
    requires q + n <= |m| && p + n <= |c| && m[q..q + n] == c[p..p + n] && i <= j <= n
    ensures m[q + i..q + j] == c[p + i..p + j]
  {
    SliceOfSlice(m, q, n, i, j);
    SliceOfSlice(c, p, n, i, j);
  }

  lemma SliceOfSlice(c: seq<byte>, p: nat, n: nat, i: nat, j: nat)
    requires p + n <= |c| && i <= j <= n
    ensures c[p..p + n][i..j] == c[p + i..p + j]
  {
    var t, u := c[p..p + n][i..j], c[p + i..p + j];
    forall k | 0 <= k < j - i ensures t[k] == u[k] {
      assert t[k] == c[p..p + n][i + k] == c[p + (i + k)];
    }
  }

  lemma UnescapeTurn(c: seq<byte>, p: nat, e: nat)
    requires p < e < |c|
    ensures var step := UnescapeStep(c, p, e); var rest := Unescape(c, p + step.length, e);
            && (Unescape(c, p, e).Unescaped? <==> step.length > 0 && rest.Unescaped?)
            && (Unescape(c, p, e).Unescaped? ==>
                  Unescape(c, p, e).bytes == step.output + rest.bytes
                  && (NulFree(Unescape(c, p, e).bytes) <==> NulFree(step.output) && NulFree(rest.bytes)))
  {
    hide UnescapeStep;
    var step := UnescapeStep(c, p, e);
    var rest := Unescape(c, p + step.length, e);
    if step.length > 0 && rest.Unescaped? {
      NulFreeBoth(step.output, rest.bytes);
    }
  }

  lemma FollowsQuote(s: seq<byte>, p: nat, st: Scan, m: seq<byte>, q: nat)
    requires Follows(s, p, st, m, q) && p < |s| && s[p] == QUOTE
    ensures m[q] == QUOTE && Follows(s, p + 1, After(s, p, st), m, q + 1) && After(s, p, st) != Escaped
  {
    OneByte(s, p, st);
    FollowsRun(s, p, p + 1, st, m, q);
    assert m[q] == m[q..q + 1][0] == s[p..p + 1][0];
  }

  /** The literal of `s` from `p` on, whose quote is at `e`, stands in `m` from `q` on without the `k`
      bytes struck; its quote is at `f`, and it reads as the string without them. */
  predicate Moved(c: seq<byte>, p: nat, e: nat, m: seq<byte>, q: nat, f: nat, k: nat) {
    && p <= e < |c| && q <= f < |m| && FindClose(m, q) == Close(f) && f + k == q + (e - p)
    && Unescape(c, p, e).Unescaped? && Unescape(m, q, f).Unescaped? && NulFree(Unescape(m, q, f).bytes)
    && |Unescape(m, q, f).bytes| + k == |Unescape(c, p, e).bytes|
    && (k == 0 ==> Unescape(m, q, f).bytes == Unescape(c, p, e).bytes)
  }

  /** A simple literal from `p` on, a step of the second pass. */
  predicate SimpleFrom(s: seq<byte>, p: nat, e: nat) {
    NulFree(s) && p <= e < |s| && FindClose(Terminated(s), p) == Close(e) && Simple(Terminated(s), p, e)
  }

  lemma {:induction false} SimpleMoves(s: seq<byte>, p: nat, e: nat, st: Scan, m: seq<byte>, q: nat) returns (f: nat)
    requires p <= e < |s| && SimpleFrom(s, p, e) && Follows(s, p, st, m, q)
    ensures Moved(Terminated(s), p, e, m, q, f, Struck(s, p, e, st)) && Follows(s, e, Passed(s, p, e, st), m, f)
    decreases e - p
  {
    hide Terminated, SimpleFrom, Follows, Moved, Struck, Passed, Turn;
    if p == e {
      f := q;
      SimpleEnds(s, p, st, m, q);
    } else {
      var n, j := SimpleStep(s, p, e, st, m, q);
      f := SimpleMoves(s, p + n, e, Passed(s, p, p + n, st), m, q + j);
      TurnMoves(s, p, e, m, q, n, j, f, Struck(s, p + n, e, Passed(s, p, p + n, st)));
    }
  }

  /** One turn of the second pass takes `n` bytes: all of them are copied, or it is one that is
      struck. */
  predicate Turn(s: seq<byte>, p: nat, e: nat, m: seq<byte>, q: nat, n: nat, j: nat) {
    && p < e < |s| && p + n <= e && q + j <= |m| && UnescapeStep(Terminated(s), p, e).length == n
    && ((j == n && m[q..q + j] == Terminated(s)[p..p + n]) || (j == 0 && n == 1 && s[p] != BACKSLASH))
  }

  lemma SimpleStep(s: seq<byte>, p: nat, e: nat, st: Scan, m: seq<byte>, q: nat) returns (n: nat, j: nat)
    requires p < e < |s| && SimpleFrom(s, p, e) && Follows(s, p, st, m, q)
    ensures 0 < n <= e - p && j <= n && Turn(s, p, e, m, q, n, j) && SimpleFrom(s, p + n, e)
    ensures Follows(s, p + n, Passed(s, p, p + n, st), m, q + j)
    ensures Struck(s, p, e, st) == (n - j) + Struck(s, p + n, e, Passed(s, p, p + n, st))
    ensures Passed(s, p, e, st) == Passed(s, p + n, e, Passed(s, p, p + n, st))
  {
    assert Passed(s, p, p + 1, st) == After(s, p, st);
    assert e < |Terminated(s)|;
    n, j := UnescapeStep(Terminated(s), p, e).length, 0;
    hide SimpleFrom, Follows, Struck, Passed, UnescapeStep, Terminated;
    if s[p] == BACKSLASH {
      EscapeCopied(s, p, e, st, m, q);
      j := n;
    } else if Strikes(s, p, st) {
      PlainStruck(s, p, e, st, m, q);
    } else {
      PlainCopied(s, p, e, st, m, q);
      j := n;
    }
  }

  lemma TurnMoves(s: seq<byte>, p: nat, e: nat, m: seq<byte>, q: nat, n: nat, j: nat, f: nat, k: nat)
    requires SimpleFrom(s, p, e) && Turn(s, p, e, m, q, n, j) && 0 < n && j <= n
    requires Moved(Terminated(s), p + n, e, m, q + j, f, k)
    ensures Moved(Terminated(s), p, e, m, q, f, k + (n - j))
  {
    assert e < |Terminated(s)|;
    hide SimpleFrom, Terminated, UnescapeStep, Moved;
    if j == n {
      KeptMoves(s, p, e, m, q, f, k);
    } else {
      StruckMoves(s, p, e, m, q, f, k);
    }
  }

  lemma SimpleEnds(s: seq<byte>, e: nat, st: Scan, m: seq<byte>, q: nat)
    requires SimpleFrom(s, e, e) && Follows(s, e, st, m, q)
    ensures Moved(Terminated(s), e, e, m, q, q, 0) && Struck(s, e, e, st) == 0 && Passed(s, e, e, st) == st
  {
    FollowsQuote(s, e, st, m, q);
  }

  lemma TerminatedPart(s: seq<byte>, p: nat, e: nat)
    requires p <= e <= |s|
    ensures |Terminated(s)| == |s| + 1 && Terminated(s)[p..e] == s[p..e]
    ensures forall i :: p <= i < e ==> Terminated(s)[i] == s[i]
  {
  }

  /** A blank that is struck. */
  lemma PlainStruck(s: seq<byte>, p: nat, e: nat, st: Scan, m: seq<byte>, q: nat)
    requires p < e < |s| && SimpleFrom(s, p, e) && Follows(s, p, st, m, q) && s[p] != BACKSLASH && Strikes(s, p, st)
    ensures e < |Terminated(s)| && UnescapeStep(Terminated(s), p, e).length == 1
    ensures After(s, p, st) == Out
    ensures SimpleFrom(s, p + 1, e) && Follows(s, p + 1, Out, m, q)
    ensures Struck(s, p, e, st) == 1 + Struck(s, p + 1, e, Out) && Passed(s, p, e, st) == Passed(s, p + 1, e, Out)
  {
    TerminatedPart(s, p, p + 1);
    PlainStep(Terminated(s), p, e);
    StruckOne(s, p, e, st);
    hide Terminated, Follows, Simple, FindClose, Struck, Passed, UnescapeStep;
    FollowsStruck(s, p, st, m, q);
  }

  /** A plain byte that is copied. */
  lemma PlainCopied(s: seq<byte>, p: nat, e: nat, st: Scan, m: seq<byte>, q: nat)
    requires p < e < |s| && SimpleFrom(s, p, e) && Follows(s, p, st, m, q) && s[p] != BACKSLASH && !Strikes(s, p, st)
    ensures e < |Terminated(s)| && UnescapeStep(Terminated(s), p, e).length == 1
    ensures SimpleFrom(s, p + 1, e) && Follows(s, p + 1, After(s, p, st), m, q + 1)
    ensures q + 1 < |m| && m[q..q + 1] == Terminated(s)[p..p + 1]
    ensures Struck(s, p, e, st) == Struck(s, p + 1, e, After(s, p, st))
    ensures Passed(s, p, e, st) == Passed(s, p + 1, e, After(s, p, st))
  {
    TerminatedPart(s, p, p + 1);
    PlainStep(Terminated(s), p, e);
    StruckOne(s, p, e, st);
    hide Terminated, Follows, Simple, FindClose, Struck, Passed, UnescapeStep;
    KeptByte(s, p, st, m, q);
  }

  lemma StruckMoves(s: seq<byte>, p: nat, e: nat, m: seq<byte>, q: nat, f: nat, k: nat)
    requires p < e < |s| && SimpleFrom(s, p, e) && s[p] != BACKSLASH && Moved(Terminated(s), p + 1, e, m, q, f, k)
    ensures Moved(Terminated(s), p, e, m, q, f, k + 1)
  {
    TerminatedPart(s, p, p + 1);
    hide Terminated, Moved, Simple, FindClose;
    MovedStruck(Terminated(s), p, e, m, q, f, k);
  }

  lemma KeptMoves(s: seq<byte>, p: nat, e: nat, m: seq<byte>, q: nat, f: nat, k: nat)
    requires p < e < |s| && SimpleFrom(s, p, e) && e < |Terminated(s)|
    requires var n := UnescapeStep(Terminated(s), p, e).length;
             && 0 < n <= e - p && Moved(Terminated(s), p + n, e, m, q + n, f, k)
             && q + n <= |m| && m[q..q + n] == Terminated(s)[p..p + n]
    ensures Moved(Terminated(s), p, e, m, q, f, k)
  {
    var c := Terminated(s);
    SimpleTurn(c, p, e);
    assert c[p] != QUOTE && (c[p] == BACKSLASH ==> p + 1 < e && c[p + 1] != SLASH) by {
      if c[p] == BACKSLASH { EscapeStep(c, p, e); }
    }
    hide Terminated, Moved, Simple, FindClose, UnescapeStep;
    MovedKept(c, p, e, UnescapeStep(c, p, e).length, m, q, f, k);
  }

  lemma PlainStep(c: seq<byte>, p: nat, e: nat)
    requires p < e && FindClose(c, p) == Close(e) && Simple(c, p, e) && c[p] != BACKSLASH
    ensures c[p] != QUOTE && c[p] != SLASH && FindClose(c, p + 1) == Close(e) && Simple(c, p + 1, e)
    ensures UnescapeStep(c, p, e).length == 1 && NulFree(UnescapeStep(c, p, e).output)
  {
    SimpleTurn(c, p, e);
  }

  lemma OneByte(s: seq<byte>, p: nat, st: Scan)
    requires p < |s|
    ensures Struck(s, p, p + 1, st) == if Strikes(s, p, st) then 1 else 0
    ensures Passed(s, p, p + 1, st) == After(s, p, st)
  {
    var next := After(s, p, st);
    assert Struck(s, p + 1, p + 1, next) == 0 && Passed(s, p + 1, p + 1, next) == next;
  }

  lemma StruckOne(s: seq<byte>, p: nat, e: nat, st: Scan)
    requires p < e <= |s|
    ensures Struck(s, p, e, st) == (if Strikes(s, p, st) then 1 else 0) + Struck(s, p + 1, e, After(s, p, st))
    ensures Passed(s, p, e, st) == Passed(s, p + 1, e, After(s, p, st))
  {
  }

  lemma SimpleTurn(c: seq<byte>, p: nat, e: nat)
    requires p < e && Simple(c, p, e)
    ensures var step := UnescapeStep(c, p, e);
            step.length > 0 && NulFree(step.output) && (p + step.length <= e ==> Simple(c, p + step.length, e))
  {
    UnescapeTurn(c, p, e);
  }

  lemma KeptByte(s: seq<byte>, p: nat, st: Scan, m: seq<byte>, q: nat)
    requires Follows(s, p, st, m, q) && p < |s| && !Strikes(s, p, st)
    ensures q + 1 < |m| && m[q] == s[p] && m[q..q + 1] == s[p..p + 1] && Follows(s, p + 1, After(s, p, st), m, q + 1)
  {
    OneByte(s, p, st);
    FollowsRun(s, p, p + 1, st, m, q);
    assert m[q] == m[q..q + 1][0] == s[p..p + 1][0];
  }

  /** A byte struck is a blank that stands for itself. */
  lemma MovedStruck(c: seq<byte>, p: nat, e: nat, m: seq<byte>, q: nat, f: nat, k: nat)
    requires p < e && Moved(c, p + 1, e, m, q, f, k) && c[p] != BACKSLASH
    ensures Moved(c, p, e, m, q, f, k + 1)
  {
    UnescapeTurn(c, p, e);
    hide Unescape, FindClose;
  }

  lemma StepCopied(c: seq<byte>, p: nat, e: nat, n: nat, m: seq<byte>, q: nat, f: nat)
    requires p < e < |c| && n == UnescapeStep(c, p, e).length && 0 < n <= e - p
    requires q + n <= f < |m| && m[q..q + n] == c[p..p + n] && NulFree(UnescapeStep(c, p, e).output)
    requires c[p] != QUOTE && (c[p] == BACKSLASH ==> c[p + 1] != SLASH)
    ensures UnescapeStep(m, q, f) == UnescapeStep(c, p, e) && FindClose(m, q) == FindClose(m, q + n)
  {
    var t := c[p..p + n];
    assert m[q] == m[q..q + n][0] == t[0] == c[p];
    if c[p] == BACKSLASH {
      EscapeMoves(c, p, e, m, q, f);
      EscapeBytes(m, q, f);
    }
  }

  /** The bytes of one step are kept. */
  lemma MovedKept(c: seq<byte>, p: nat, e: nat, n: nat, m: seq<byte>, q: nat, f: nat, k: nat)
    requires p < e < |c| && n == UnescapeStep(c, p, e).length && 0 < n <= e - p && Moved(c, p + n, e, m, q + n, f, k)
    requires q + n <= |m| && m[q..q + n] == c[p..p + n] && NulFree(UnescapeStep(c, p, e).output)
    requires c[p] != QUOTE && (c[p] == BACKSLASH ==> c[p + 1] != SLASH)
    ensures Moved(c, p, e, m, q, f, k)
  {
    hide Unescape, UnescapeStep, FindClose;
    StepCopied(c, p, e, n, m, q, f);
    UnescapeTurn(c, p, e);
    UnescapeTurn(m, q, f);
  }

  lemma EscapeStep(c: seq<byte>, p: nat, e: nat)
    requires p < e && FindClose(c, p) == Close(e) && Simple(c, p, e) && c[p] == BACKSLASH
    ensures var n := UnescapeStep(c, p, e).length;
            && 0 < n <= e - p && c[p + 1] != SLASH && FindClose(c, p + n) == Close(e) && Simple(c, p + n, e)
            && NulFree(UnescapeStep(c, p, e).output)
            && forall i :: p <= i < p + n ==> !IsSpace(c[i]) && c[i] != SLASH
  {
    SimpleTurn(c, p, e);
    EscapeWithin(c, p, e);
    assert c[p + 1] != SLASH;
    EscapeBytes(c, p, e);
  }

  /** An escape is copied. */
  lemma EscapeCopied(s: seq<byte>, p: nat, e: nat, st: Scan, m: seq<byte>, q: nat)
    requires p < e < |s| && SimpleFrom(s, p, e) && Follows(s, p, st, m, q) && s[p] == BACKSLASH
    ensures e < |Terminated(s)|
    ensures var n := UnescapeStep(Terminated(s), p, e).length;
            && 0 < n <= e - p && SimpleFrom(s, p + n, e)
            && q + n < |m| && m[q..q + n] == Terminated(s)[p..p + n]
            && Follows(s, p + n, Passed(s, p, p + n, st), m, q + n)
            && Struck(s, p, e, st) == Struck(s, p + n, e, Passed(s, p, p + n, st))
            && Passed(s, p, e, st) == Passed(s, p + n, e, Passed(s, p, p + n, st))
  {
    hide SimpleFrom, Terminated, UnescapeStep, Follows, Struck, Passed;
    VisibleEscape(s, p, e, st);
    var n := UnescapeStep(Terminated(s), p, e).length;
    FollowsRun(s, p, p + n, st, m, q);
    StruckSplit(s, p, p + n, e, st);
  }

  lemma VisibleEscape(s: seq<byte>, p: nat, e: nat, st: Scan)
    requires p < e < |s| && SimpleFrom(s, p, e) && s[p] == BACKSLASH
    ensures e < |Terminated(s)|
    ensures var n := UnescapeStep(Terminated(s), p, e).length;
            && 0 < n <= e - p && SimpleFrom(s, p + n, e)
            && Struck(s, p, p + n, st) == 0 && Terminated(s)[p..p + n] == s[p..p + n]
  {
    TerminatedPart(s, p, e);
    hide Terminated, Unescape, UnescapeStep, FindClose, Simple, Struck;
    EscapeStep(Terminated(s), p, e);
    var n := UnescapeStep(Terminated(s), p, e).length;
    TerminatedPart(s, p, p + n);
    VisibleRun(s, p, p + n, st);
  }

  // ---------- the literal as a whole ----------

  lemma LastQuote(s: seq<byte>, p: nat, e: nat, st: Scan)
    requires p <= e < |s| && s[e] == QUOTE
    ensures Struck(s, p, e + 1, st) == Struck(s, p, e, st)
    ensures Passed(s, p, e + 1, st) == After(s, e, Passed(s, p, e, st)) != Escaped
  {
    StruckSplit(s, p, e, e + 1, st);
    StruckOne(s, e, e + 1, Passed(s, p, e, st));
  }

  lemma TollAtLiteral(s: seq<byte>, p: nat, st: Scan, str: seq<byte>, end: nat)
    requires p < |s| && s[p] == QUOTE && ReadString(Terminated(s), p) == StringRead(str, end)
    ensures p + 2 <= end <= |s| && s[end - 1] == QUOTE && FindClose(Terminated(s), p + 1) == Close(end - 1)
    ensures var k := Struck(s, p, end, st); var rest := TollOf(s, end, Passed(s, p, end, st));
            TollOf(s, p, st) == Toll((k == 0 || Simple(Terminated(s), p + 1, end - 1)) && rest.tame, k + rest.loss)
  {
    hide Simple, Struck, Passed, Unescape;
    var c := Terminated(s);
    assert c[p] == QUOTE;
    assert FindClose(c, p + 1) == Close(end - 1);
    assert c[end - 1] == QUOTE;
    assert end - 1 < |s|;
  }

  /** A literal of which nothing is struck reads as the same string. */
  lemma WholeLiteral(s: seq<byte>, p: nat, st: Scan, m: seq<byte>, q: nat, str: seq<byte>, end: nat)
    requires p < end <= |s| && Follows(s, p, st, m, q) && Struck(s, p, end, st) == 0
    requires ReadString(Terminated(s), p) == StringRead(str, end)
    ensures Follows(s, end, Passed(s, p, end, st), m, q + (end - p))
    ensures q < |m| && ReadString(m, q) == StringRead(str, q + (end - p))
  {
    hide ReadString, Follows, Struck, Passed;
    FollowsRun(s, p, end, st, m, q);
    TerminatedPart(s, p, end);
    StringMoves(Terminated(s), p, str, end, m, q);
  }

  /** A simple literal reads as its string without the bytes struck. */
  lemma SimpleLiteral(s: seq<byte>, p: nat, st: Scan, m: seq<byte>, q: nat, str: seq<byte>, end: nat)
    returns (q': nat, str': seq<byte>)
    requires NulFree(s) && p + 2 <= end <= |s| && s[p] == s[end - 1] == QUOTE && Follows(s, p, st, m, q)
    requires ReadString(Terminated(s), p) == StringRead(str, end) && Simple(Terminated(s), p + 1, end - 1)
    ensures q < q' && Follows(s, end, Passed(s, p, end, st), m, q')
    ensures q < |m| && ReadString(m, q) == StringRead(str', q') && |str'| + Struck(s, p, end, st) == |str|
  {
    hide Unescape, Struck, Passed, Follows, SimpleFrom, Terminated, ReadString, Simple, FindClose;
    hide After, Strikes, Moved, NulFree;
    var c, e := Terminated(s), end - 1;
    SimpleInside(s, p, str, end);
    var inner := After(s, p, st);
    LiteralAccount(s, p, end, st);
    FollowsQuote(s, p, st, m, q);
    var f := SimpleMoves(s, p + 1, e, inner, m, q + 1);
    FollowsQuote(s, e, Passed(s, p + 1, e, inner), m, f);
    q' := f + 1;
    str' := MovedReads(c, p, e, m, q, f, str, Struck(s, p + 1, e, inner));
  }

  lemma LiteralAccount(s: seq<byte>, p: nat, end: nat, st: Scan)
    requires p + 2 <= end <= |s| && s[p] == s[end - 1] == QUOTE
    ensures Struck(s, p, end, st) == Struck(s, p + 1, end - 1, After(s, p, st))
    ensures Passed(s, p, end, st) == After(s, end - 1, Passed(s, p + 1, end - 1, After(s, p, st)))
  {
    StruckOne(s, p, end, st);
    LastQuote(s, p + 1, end - 1, After(s, p, st));
  }

  lemma SimpleInside(s: seq<byte>, p: nat, str: seq<byte>, end: nat)
    requires NulFree(s) && p + 2 <= end <= |s| && s[p] == s[end - 1] == QUOTE
    requires ReadString(Terminated(s), p) == StringRead(str, end) && Simple(Terminated(s), p + 1, end - 1)
    ensures SimpleFrom(s, p + 1, end - 1) && p < |Terminated(s)| && Terminated(s)[p] == QUOTE
    ensures end - 1 < |Terminated(s)| && Unescape(Terminated(s), p + 1, end - 1) == Unescaped(str)
  {
    hide Unescape;
    assert Terminated(s)[p] == QUOTE;
    SimpleReads(Terminated(s), p, end - 1);
  }

  lemma MovedReads(c: seq<byte>, p: nat, e: nat, m: seq<byte>, q: nat, f: nat, str: seq<byte>, k: nat)
    returns (str': seq<byte>)
    requires q < |m| && m[q] == QUOTE && Moved(c, p + 1, e, m, q + 1, f, k) && Unescape(c, p + 1, e) == Unescaped(str)
    ensures ReadString(m, q) == StringRead(str', f + 1) && |str'| + k == |str|
  {
    hide Unescape, FindClose;
    str' := Unescape(m, q + 1, f).bytes;
    WholeString(str');
  }

  lemma SimpleReads(c: seq<byte>, p: nat, e: nat)
    requires p < |c| && c[p] == QUOTE && FindClose(c, p + 1) == Close(e) && Simple(c, p + 1, e)
    ensures ReadString(c, p) == StringRead(Unescape(c, p + 1, e).bytes, e + 1)
  {
    hide Unescape;
    WholeString(Unescape(c, p + 1, e).bytes);
  }

  lemma WholeString(t: seq<byte>)
    requires NulFree(t)
    ensures CStr(t) == t
  {
    CStrOfNulFree(t, []);
    assert t + [] == t;
  }

  /** A literal that loses no byte, or is simple, is read from the minified text without the bytes
      it loses. */
  lemma LiteralInStep(s: seq<byte>, p: nat, st: Scan, m: seq<byte>, q: nat, str: seq<byte>, end: nat)
    returns (q': nat, st': Scan, k: nat, str': seq<byte>)
    requires NulFree(s) && InStep(s, p, st, m, q) && p < |s| && s[p] == QUOTE && TollOf(s, p, st).tame
    requires ReadString(Terminated(s), p) == StringRead(str, end)
    ensures end <= |s| && InStep(s, end, st', m, q') && q < |m| && q < q' && ReadString(m, q) == StringRead(str', q')
    ensures |str'| + k == |str| && (k == 0 ==> str' == str)
    ensures TollOf(s, end, st').tame && TollOf(s, p, st).loss == k + TollOf(s, end, st').loss
  {
    hide ReadString, Follows, Struck, Passed, TollOf, Simple;
    TollAtLiteral(s, p, st, str, end);
    LastQuote(s, p, end - 1, st);
    k, st' := Struck(s, p, end, st), Passed(s, p, end, st);
    if k == 0 {
      q', str' := q + (end - p), str;
      WholeLiteral(s, p, st, m, q, str, end);
    } else {
      q', str' := SimpleLiteral(s, p, st, m, q, str, end);
    }
  }
}
