/** `cJSON_Minify`: a read and a write cursor on one C string. */
module Minify {
  import opened Bytes

  predicate IsSpace(b: byte) { b == SPACE || b == TAB || b == RETURN || b == NEWLINE }

  /** The byte at `p` of a C string whose terminator stands at `|s|`. */
  function Peek(s: seq<byte>, p: nat): byte { if p < |s| then s[p] else 0 }

  /** `skip_oneline_comment` behind its opening: just past the line end, or the end. */
  function LineCommentEnd(s: seq<byte>, p: nat): (e: nat)
    requires p <= |s|
    ensures p <= e <= |s|
    decreases |s| - p
  {
    if p == |s| then p else if s[p] == NEWLINE then p + 1 else LineCommentEnd(s, p + 1)
  }

  /** `skip_multiline_comment` behind its opening: just past the closing, or the end. */
  function BlockCommentEnd(s: seq<byte>, p: nat): (e: nat)
    requires p <= |s|
    ensures p <= e <= |s|
    decreases |s| - p
  {
    if p == |s| then p
    else if s[p] == STAR && Peek(s, p + 1) == SLASH then p + 2
    else BlockCommentEnd(s, p + 1)
  }

  /** The comment whose inside starts at `p` ends at `e`: behind the first line feed, or at the end. */
  predicate LineEndsAt(s: seq<byte>, p: nat, e: nat) {
    && p <= e <= |s| && (forall i :: p <= i < e - 1 ==> s[i] != NEWLINE)
    && if e > p && s[e - 1] == NEWLINE then true else e == |s|
  }

  /** The closing mark of a block comment. */
  predicate Closing(s: seq<byte>, i: int) { 0 <= i < |s| - 1 && s[i] == STAR && s[i + 1] == SLASH }

  /** Likewise behind the first closing mark, which must not overlap the opening one. */
  predicate BlockEndsAt(s: seq<byte>, p: nat, e: nat) {
    && p <= e <= |s|
    && if p + 2 <= e && Closing(s, e - 2) then forall i :: p <= i < e - 2 ==> !Closing(s, i)
       else e == |s| && forall i :: p <= i < |s| ==> !Closing(s, i)
  }

  lemma {:induction false} LineCommentEnds(s: seq<byte>, p: nat)
    requires p <= |s|
    ensures LineEndsAt(s, p, LineCommentEnd(s, p))
    decreases |s| - p
  {
    if p < |s| && s[p] != NEWLINE {
      LineCommentEnds(s, p + 1);
    }
  }

  lemma {:induction false} BlockCommentEnds(s: seq<byte>, p: nat)
    requires p <= |s|
    ensures BlockEndsAt(s, p, BlockCommentEnd(s, p))
    decreases |s| - p
  {
    if p < |s| && !Closing(s, p) {
      BlockCommentEnds(s, p + 1);
    }
  }

  /** There is one such end. */
  lemma EndsOnce(s: seq<byte>, p: nat, e: nat, e': nat)
    ensures LineEndsAt(s, p, e) && LineEndsAt(s, p, e') ==> e == e'
    ensures BlockEndsAt(s, p, e) && BlockEndsAt(s, p, e') ==> e == e'
  {
    assert BlockEndsAt(s, p, e) && e' < e && p + 2 <= e' ==> !Closing(s, e' - 2);
    assert BlockEndsAt(s, p, e') && e < e' && p + 2 <= e ==> !Closing(s, e - 2);
  }

  /** What is written for the text from `p` on, outside of a string. */
  function Outside(s: seq<byte>, p: nat): seq<byte>
    requires p <= |s|
    decreases |s| - p
  {
    if p == |s| then []
    else if IsSpace(s[p]) then Outside(s, p + 1)
    else if s[p] == SLASH then
      if Peek(s, p + 1) == SLASH then Outside(s, LineCommentEnd(s, p + 2))
      else if Peek(s, p + 1) == STAR then Outside(s, BlockCommentEnd(s, p + 2))
      else Outside(s, p + 1)
    else if s[p] == QUOTE then [QUOTE] + Inside(s, p + 1)
    else [s[p]] + Outside(s, p + 1)
  }

  /** The same from inside of a string. The scanner knows `\"` but not `\\`. */
  function Inside(s: seq<byte>, p: nat): seq<byte>
    requires p <= |s|
    decreases |s| - p
  {
    if p == |s| then []
    else if s[p] == QUOTE then [QUOTE] + Outside(s, p + 1)
    else if s[p] == BACKSLASH && Peek(s, p + 1) == QUOTE then [BACKSLASH, QUOTE] + Inside(s, p + 2)
    else [s[p]] + Inside(s, p + 1)
  }

  function Minified(s: seq<byte>): seq<byte> { Outside(s, 0) }

  // ---------- properties of the result ----------

  /** `a` is left when some bytes of `b` are struck out. */
  predicate Subsequence(a: seq<byte>, b: seq<byte>)
    decreases b
  {
    a == [] || (b != [] && ((a[0] == b[0] && Subsequence(a[1..], b[1..])) || Subsequence(a, b[1..])))
  }

  lemma {:induction false} SubsequenceSkips(a: seq<byte>, b: seq<byte>, p: nat, q: nat)
    requires p <= q <= |b| && Subsequence(a, b[q..])
    ensures Subsequence(a, b[p..])
    decreases q - p
  {
    if p < q {
      SubsequenceSkips(a, b, p + 1, q);
      assert b[p..][1..] == b[p + 1..];
    }
  }

  lemma {:induction false} OutsideSubsequence(s: seq<byte>, p: nat)
    requires p <= |s|
    ensures Subsequence(Outside(s, p), s[p..])
    decreases |s| - p
  {
    if p < |s| {
      assert s[p..][1..] == s[p + 1..];
      if s[p] == QUOTE {
        InsideSubsequence(s, p + 1);
        assert Outside(s, p)[1..] == Inside(s, p + 1);
      } else if s[p] == SLASH && (Peek(s, p + 1) == SLASH || Peek(s, p + 1) == STAR) {
        var e := if Peek(s, p + 1) == SLASH then LineCommentEnd(s, p + 2) else BlockCommentEnd(s, p + 2);
        OutsideSubsequence(s, e);
        SubsequenceSkips(Outside(s, e), s, p, e);
      } else {
        OutsideSubsequence(s, p + 1);
        assert IsSpace(s[p]) || s[p] == SLASH || Outside(s, p)[1..] == Outside(s, p + 1);
      }
    }
  }

  lemma {:induction false} InsideSubsequence(s: seq<byte>, p: nat)
    requires p <= |s|
    ensures Subsequence(Inside(s, p), s[p..])
    decreases |s| - p
  {
    if p < |s| {
      assert s[p..][1..] == s[p + 1..];
      if s[p] == QUOTE {
        OutsideSubsequence(s, p + 1);
        assert Inside(s, p)[1..] == Outside(s, p + 1);
      } else if s[p] == BACKSLASH && Peek(s, p + 1) == QUOTE {
        InsideSubsequence(s, p + 2);
        assert s[p + 1..][1..] == s[p + 2..];
        assert Inside(s, p)[1..][1..] == Inside(s, p + 2);
      } else {
        InsideSubsequence(s, p + 1);
        assert Inside(s, p)[1..] == Inside(s, p + 1);
      }
    }
  }

  /** Minified text stands in `m` from `q` on: minifying it there changes nothing. */
  lemma {:induction false} OutsideStable(s: seq<byte>, p: nat, m: seq<byte>, q: nat)
    requires p <= |s| && q <= |m| && m[q..] == Outside(s, p)
    ensures Outside(m, q) == Outside(s, p)
    decreases |s| - p
  {
    if p < |s| {
      if IsSpace(s[p]) || (s[p] == SLASH && Peek(s, p + 1) != SLASH && Peek(s, p + 1) != STAR) {
        OutsideStable(s, p + 1, m, q);
      } else if s[p] == SLASH {
        OutsideStable(s, if Peek(s, p + 1) == SLASH then LineCommentEnd(s, p + 2) else BlockCommentEnd(s, p + 2), m, q);
      } else {
        assert m[q] == m[q..][0] == s[p] && m[q + 1..] == m[q..][1..];
        if s[p] == QUOTE {
          InsideStable(s, p + 1, m, q + 1);
        } else {
          OutsideStable(s, p + 1, m, q + 1);
        }
      }
    }
  }

  lemma {:induction false} InsideStable(s: seq<byte>, p: nat, m: seq<byte>, q: nat)
    requires p <= |s| && q <= |m| && m[q..] == Inside(s, p)
    ensures Inside(m, q) == Inside(s, p)
    decreases |s| - p
  {
    if p < |s| {
      assert m[q] == m[q..][0] == s[p] && m[q + 1..] == m[q..][1..];
      if s[p] == QUOTE {
        OutsideStable(s, p + 1, m, q + 1);
      } else if s[p] == BACKSLASH && Peek(s, p + 1) == QUOTE {
        assert m[q + 1] == m[q..][1] == QUOTE && m[q + 2..] == m[q..][2..];
        InsideStable(s, p + 2, m, q + 2);
      } else {
        InsideStable(s, p + 1, m, q + 1);
        assert Peek(m, q + 1) == QUOTE ==> s[p] != BACKSLASH by {
          if p + 1 < |s| && s[p] == BACKSLASH && q + 1 < |m| {
            assert m[q + 1] == m[q + 1..][0] == Inside(s, p + 1)[0] == s[p + 1];
          }
        }
      }
    }
  }

  /** For every C string, unterminated strings and comments included: only bytes are struck out,
      and minifying twice is minifying once. */
  lemma MinifiedOnce(s: seq<byte>)
    ensures Subsequence(Minified(s), s)
    ensures Minified(Minified(s)) == Minified(s)
  {
    OutsideSubsequence(s, 0);
    assert s[0..] == s;
    assert Minified(s)[0..] == Minified(s);
    OutsideStable(s, 0, Minified(s), 0);
  }

  // ---------- in place ----------

  /** From the read cursor `i` on, `json` still holds the C string `s` and its terminator. */
  ghost predicate Unread(json: array<byte>, s: seq<byte>, i: nat)
    reads json
  {
    && i <= |s| < json.Length && json[|s|] == 0
    && forall k :: i <= k < |s| ==> json[k] == s[k] && s[k] != 0
  }

  method SkipOnelineComment(json: array<byte>, ghost s: seq<byte>, i: nat) returns (i': nat)
    requires Unread(json, s, i) && i + 2 <= |s|
    ensures LineEndsAt(s, i + 2, i') && i' == LineCommentEnd(s, i + 2)
  {
    LineCommentEnds(s, i + 2);
    i' := i + 2;
    while json[i'] != 0
      invariant i + 2 <= i' <= |s|
      invariant LineCommentEnd(s, i') == LineCommentEnd(s, i + 2)
      decreases |s| - i'
    {
      if json[i'] == NEWLINE {
        return i' + 1;
      }
      i' := i' + 1;
    }
  }

  method SkipMultilineComment(json: array<byte>, ghost s: seq<byte>, i: nat) returns (i': nat)
    requires Unread(json, s, i) && i + 2 <= |s|
    ensures BlockEndsAt(s, i + 2, i') && i' == BlockCommentEnd(s, i + 2)
  {
    hide BlockEndsAt;
    BlockCommentEnds(s, i + 2);
    i' := i + 2;
    while json[i'] != 0
      invariant i + 2 <= i' <= |s|
      invariant BlockCommentEnd(s, i') == BlockCommentEnd(s, i + 2)
      decreases |s| - i'
    {
      if json[i'] == STAR && json[i' + 1] == SLASH {
        return i' + 2;
      }
      i' := i' + 1;
    }
  }

  /** `w` stands in `json` from `o` on. */
  ghost predicate Written(json: array<byte>, o: nat, w: seq<byte>)
    reads json
  {
    o + |w| <= json.Length && forall k :: 0 <= k < |w| ==> json[o + k] == w[k]
  }

  /** One turn of the string loop, with `w` already written. */
  lemma InsideStep(s: seq<byte>, p: nat, w: seq<byte>)
    requires p < |s|
    ensures s[p] == QUOTE ==> w + Inside(s, p) == (w + [QUOTE]) + Outside(s, p + 1)
    ensures s[p] == BACKSLASH && Peek(s, p + 1) == QUOTE ==>
              w + Inside(s, p) == ((w + [BACKSLASH]) + [QUOTE]) + Inside(s, p + 2)
    ensures s[p] != QUOTE && !(s[p] == BACKSLASH && Peek(s, p + 1) == QUOTE) ==>
              w + Inside(s, p) == (w + [s[p]]) + Inside(s, p + 1)
  {
    if s[p] == QUOTE {
      Regroup(w, [QUOTE], Outside(s, p + 1));
    } else if s[p] == BACKSLASH && Peek(s, p + 1) == QUOTE {
      Regroup(w, [BACKSLASH, QUOTE], Inside(s, p + 2));
      assert (w + [BACKSLASH]) + [QUOTE] == w + [BACKSLASH, QUOTE];
    } else {
      Regroup(w, [s[p]], Inside(s, p + 1));
    }
  }

  /** One turn of the main loop on a byte that starts no string, with `w` already written. */
  lemma OutsideStep(s: seq<byte>, p: nat, w: seq<byte>)
    requires p < |s| && s[p] != QUOTE
    ensures IsSpace(s[p]) ==> Outside(s, p) == Outside(s, p + 1)
    ensures s[p] == SLASH ==>
              Outside(s, p) == if Peek(s, p + 1) == SLASH then Outside(s, LineCommentEnd(s, p + 2))
                               else if Peek(s, p + 1) == STAR then Outside(s, BlockCommentEnd(s, p + 2))
                               else Outside(s, p + 1)
    ensures !IsSpace(s[p]) && s[p] != SLASH ==> w + Outside(s, p) == (w + [s[p]]) + Outside(s, p + 1)
  {
    if !IsSpace(s[p]) && s[p] != SLASH {
      Regroup(w, [s[p]], Outside(s, p + 1));
    }
  }

  lemma OutsideAtQuote(s: seq<byte>, p: nat)
    requires p < |s| && s[p] == QUOTE
    ensures Outside(s, p) == [QUOTE] + Inside(s, p + 1)
  {
  }

  lemma InsideAtEnd(s: seq<byte>)
    ensures Inside(s, |s|) == Outside(s, |s|) == []
  {
  }

  lemma NothingWritten(json: array<byte>, o: nat)
    requires o <= json.Length
    ensures Written(json, o, [])
  {
  }

  lemma UnreadAt(json: array<byte>, s: seq<byte>, i: nat)
    requires Unread(json, s, i)
    ensures i <= |s| < json.Length && (json[i] == 0 <==> i == |s|)
    ensures i < |s| ==> json[i] == s[i] && json[i + 1] == Peek(s, i + 1)
  {
  }

  /** A byte that is read at `i` goes behind what has been written from `o` on. */
  method Store(json: array<byte>, ghost s: seq<byte>, ghost i: nat, at: nat, ghost o: nat, ghost w: seq<byte>, b: byte)
    requires Unread(json, s, i) && i < |s| && b == s[i] && at == o + |w| <= i && Written(json, o, w)
    modifies json
    ensures Unread(json, s, i) && Unread(json, s, i + 1) && Written(json, o, w) && Written(json, o, w + [b])
    ensures forall k :: 0 <= k < json.Length && k != at ==> json[k] == old(json[k])
  {
    json[at] := b;
  }

  /** `minify_string`: the literal whose quote stands at the read cursor `i` is moved down to the
      write cursor `o`. The write cursor stays at or below the read cursor, and from the write
      cursor on nothing is changed. */
  method MinifyString(json: array<byte>, ghost s: seq<byte>, i: nat, o: nat)
    returns (i': nat, o': nat, ghost w: seq<byte>)
    requires Unread(json, s, i) && i < |s| && s[i] == QUOTE && o <= i
    modifies json
    ensures Unread(json, s, i') && i < i' && o' == o + |w| <= i'
    ensures forall k :: 0 <= k < o || o' <= k < json.Length ==> json[k] == old(json[k])
    ensures Written(json, o, w) && w + Outside(s, i') == Outside(s, i)
  {
    hide Inside, Outside, Unread, Written;
    OutsideAtQuote(s, i);
    InsideAtEnd(s);
    UnreadAt(json, s, i);
    NothingWritten(json, o);
    Store(json, s, i, o, o, [], json[i]);
    i', o', w := i + 1, o + 1, [] + [QUOTE];
    UnreadAt(json, s, i');
    while json[i'] != 0
      invariant i < i' && o' == o + |w| <= i' && Unread(json, s, i')
      invariant i' <= |s| < json.Length && (json[i'] == 0 <==> i' == |s|)
      invariant forall k :: 0 <= k < o || o' <= k < json.Length ==> json[k] == old(json[k])
      invariant Written(json, o, w) && w + Inside(s, i') == Outside(s, i)
      decreases |s| - i'
    {
      ghost var before := w;
      UnreadAt(json, s, i');
      InsideStep(s, i', w);
      Store(json, s, i', o', o, before, json[i']);
      if json[i'] == QUOTE {
        Store(json, s, i', o', o, before, QUOTE);
        return i' + 1, o' + 1, before + [QUOTE];
      } else if json[i'] == BACKSLASH && json[i' + 1] == QUOTE {
        UnreadAt(json, s, i' + 1);
        Store(json, s, i' + 1, o' + 1, o, before + [BACKSLASH], json[i' + 1]);
        i', o', w := i' + 2, o' + 2, (before + [BACKSLASH]) + [QUOTE];
      } else {
        i', o', w := i' + 1, o' + 1, before + [s[i']];
      }
      UnreadAt(json, s, i');
    }
  }

  /** The cases of the main loop that write nothing: blanks, comments and lone slashes. */
  method SkipIgnored(json: array<byte>, ghost s: seq<byte>, i: nat) returns (i': nat)
    requires Unread(json, s, i) && i < |s| && (IsSpace(s[i]) || s[i] == SLASH)
    ensures i < i' <= |s| && Outside(s, i') == Outside(s, i) && Unread(json, s, i')
  {
    hide Outside;
    OutsideStep(s, i, []);
    i' := i + 1;
    if json[i] == SLASH {
      if json[i + 1] == SLASH {
        i' := SkipOnelineComment(json, s, i);
      } else if json[i + 1] == STAR {
        i' := SkipMultilineComment(json, s, i);
      }
    }
  }

  lemma UnreadYet(json: array<byte>)
    requires exists k :: 0 <= k < json.Length && json[k] == 0
    ensures Unread(json, CStr(json[..]), 0)
  {
    var s := CStr(json[..]);
    var k :| 0 <= k < json.Length && json[k] == 0;
    assert json[..][k] == 0;
    assert forall i :: 0 <= i < |s| ==> s[i] == json[..][i];
  }

  /** For every buffer that holds a C string: the minified text replaces it, with a new
      terminator, and no byte behind that terminator is touched. */
  method MinifyInPlace(json: array<byte>)
    requires exists k :: 0 <= k < json.Length && json[k] == 0
    modifies json
    ensures var m := Minified(CStr(old(json[..])));
            && |m| < json.Length
            && Written(json, 0, m) && json[|m|] == 0
            && forall k :: |m| < k < json.Length ==> json[k] == old(json[k])
  {
    hide Outside, LineCommentEnd, BlockCommentEnd, CStr, Unread;
    ghost var s := CStr(json[..]);
    ghost var w: seq<byte> := [];
    var i, o := 0, 0;
    UnreadYet(json);
    UnreadAt(json, s, i);
    InsideAtEnd(s);
    assert w + Outside(s, 0) == Outside(s, 0);
    while json[i] != 0
      invariant o == |w| <= i && Unread(json, s, i)
      invariant i <= |s| < json.Length && (json[i] == 0 <==> i == |s|)
      invariant forall k :: o <= k < json.Length ==> json[k] == old(json[k])
      invariant Written(json, 0, w) && w + Outside(s, i) == Minified(s)
      decreases |s| - i
    {
      UnreadAt(json, s, i);
      var b := json[i];
      if b == SPACE || b == TAB || b == RETURN || b == NEWLINE || b == SLASH {
        i := SkipIgnored(json, s, i);
      } else if b == QUOTE {
        ghost var literal;
        i, o, literal := MinifyString(json, s, i, o);
        UnreadAt(json, s, i);
        Regroup(w, literal, Outside(s, i));
        w := w + literal;
      } else {
        OutsideStep(s, i, w);
        Store(json, s, i, o, 0, w, b);
        w := w + [b];
        i, o := i + 1, o + 1;
      }
      UnreadAt(json, s, i);
    }
    json[o] := 0;
  }
}
