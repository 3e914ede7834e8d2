/** What the minifier strikes: texts put together from literals, other bytes, blanks and comments. */
module MinifyChunks {
  import opened Bytes
  import opened Minify
  import opened MinifyPrint

  datatype Chunk =
    | Literal(body: seq<byte>)
    | Bytes(text: seq<byte>)
    | Blanks(text: seq<byte>)
    | LoneSlash(next: byte)
    | LineComment(body: seq<byte>)
    | BlockComment(body: seq<byte>)

  /** Quotes inside of a literal stand behind a backslash, and the quote at its end does not. A
      comment ends at its own end and not before. */
  predicate Sound(k: Chunk) {
    match k
    case Literal(body) =>
      && (forall i :: 0 <= i < |body| && body[i] == QUOTE ==> i > 0 && body[i - 1] == BACKSLASH)
      && (body == [] || body[|body| - 1] != BACKSLASH)
    case Bytes(text) => forall i :: 0 <= i < |text| ==> text[i] !in {SPACE, TAB, RETURN, NEWLINE, SLASH, QUOTE}
    case Blanks(text) => forall i :: 0 <= i < |text| ==> text[i] in {SPACE, TAB, RETURN, NEWLINE}
    case LoneSlash(next) => next !in {SPACE, TAB, RETURN, NEWLINE, SLASH, QUOTE, STAR}
    case LineComment(body) => forall i :: 0 <= i < |body| ==> body[i] != NEWLINE
    case BlockComment(body) => forall i :: 0 <= i < |body| ==> !Closing(body + [STAR, SLASH], i)
  }

  function TextOf(k: Chunk): seq<byte> {
    match k
    case Literal(body) => [QUOTE] + (body + [QUOTE])
    case Bytes(text) => text
    case Blanks(text) => text
    case LoneSlash(next) => [SLASH, next]
    case LineComment(body) => [SLASH, SLASH] + (body + [NEWLINE])
    case BlockComment(body) => [SLASH, STAR] + (body + [STAR, SLASH])
  }

  /** Literals and other bytes are kept, blanks, comments and lone slashes are not. */
  function Remains(k: Chunk): seq<byte> {
    match k
    case Literal(body) => [QUOTE] + (body + [QUOTE])
    case Bytes(text) => text
    case LoneSlash(next) => [next]
    case _ => []
  }

  function Joined(ks: seq<Chunk>): seq<byte> { if ks == [] then [] else TextOf(ks[0]) + Joined(ks[1..]) }

  function RemainsOf(ks: seq<Chunk>): seq<byte> { if ks == [] then [] else Remains(ks[0]) + RemainsOf(ks[1..]) }

  /** From inside of a literal, at a byte that is not a quote behind a backslash. */
  lemma {:induction false} BodyInside(s: seq<byte>, p: nat, body: seq<byte>)
    requires At(s, p, body + [QUOTE]) && Sound(Literal(body))
    ensures p + |body| + 1 <= |s| && Inside(s, p) == (body + [QUOTE]) + Outside(s, p + |body| + 1)
    decreases |body|
  {
    hide Outside, Inside, At, Sound;
    var t := body + [QUOTE];
    AtIndex(s, p, t, 0);
    if body == [] {
      assert t == [QUOTE];
      QuoteInside(s, p);
    } else {
      AtIndex(s, p, t, 1);
      var n := if body[0] == BACKSLASH && t[1] == QUOTE then 2 else 1;
      BodyRest(body, n);
      AtAppend(s, p, body[..n], body[n..] + [QUOTE]);
      BodyInside(s, p + n, body[n..]);
      if n == 2 { PairInside(s, p); } else { InsideCopies(s, p); }
      Regroup(body[..n], body[n..] + [QUOTE], Outside(s, p + |body| + 1));
    }
  }

  lemma BodyRest(body: seq<byte>, n: nat)
    requires body != [] && Sound(Literal(body))
    requires n == if body[0] == BACKSLASH && (body + [QUOTE])[1] == QUOTE then 2 else 1
    ensures n <= |body| && Sound(Literal(body[n..])) && body + [QUOTE] == body[..n] + (body[n..] + [QUOTE])
    ensures body[..n] == (if n == 2 then [BACKSLASH, QUOTE] else [body[0]]) && body[0] != QUOTE
  {
    assert |body| > 1 ==> (body + [QUOTE])[1] == body[1];
    var rest := body[n..];
    forall i | 0 <= i < |rest| && rest[i] == QUOTE ensures i > 0 && rest[i - 1] == BACKSLASH {
      assert rest[i] == body[n + i] && body[n + i - 1] == BACKSLASH;
    }
  }

  lemma LiteralOutside(s: seq<byte>, p: nat, body: seq<byte>)
    requires At(s, p, TextOf(Literal(body))) && Sound(Literal(body))
    ensures p + |body| + 2 <= |s| && Outside(s, p) == TextOf(Literal(body)) + Outside(s, p + |body| + 2)
  {
    hide Outside, Inside, At, Sound;
    AtAppend(s, p, [QUOTE], body + [QUOTE]);
    AtIndex(s, p, [QUOTE], 0);
    OutsideAtQuote(s, p);
    BodyInside(s, p + 1, body);
    Regroup([QUOTE], body + [QUOTE], Outside(s, p + |body| + 2));
  }

  lemma LoneSlashOutside(s: seq<byte>, p: nat, next: byte)
    requires At(s, p, [SLASH, next]) && Sound(LoneSlash(next))
    ensures p + 2 <= |s| && Outside(s, p) == [next] + Outside(s, p + 2)
  {
    hide Outside, At;
    AtIndex(s, p, [SLASH, next], 0);
    AtIndex(s, p, [SLASH, next], 1);
    OutsideStep(s, p, []);
    OutsideStep(s, p + 1, []);
    assert [] + [next] == [next] && [] + Outside(s, p + 1) == Outside(s, p + 1);
  }

  lemma LineCommentOutside(s: seq<byte>, p: nat, body: seq<byte>)
    requires At(s, p, TextOf(LineComment(body))) && Sound(LineComment(body))
    ensures p + |body| + 3 <= |s| && Outside(s, p) == Outside(s, p + |body| + 3)
  {
    hide Outside, At, LineEndsAt;
    AtAppend(s, p, [SLASH, SLASH], body + [NEWLINE]);
    AtIndex(s, p, [SLASH, SLASH], 0);
    AtIndex(s, p, [SLASH, SLASH], 1);
    var e := p + 2 + |body| + 1;
    LineEnds(s, p + 2, body);
    LineCommentEnds(s, p + 2);
    EndsOnce(s, p + 2, e, LineCommentEnd(s, p + 2));
    OutsideStep(s, p, []);
  }

  lemma LineEnds(s: seq<byte>, p: nat, body: seq<byte>)
    requires At(s, p, body + [NEWLINE]) && Sound(LineComment(body))
    ensures LineEndsAt(s, p, p + |body| + 1)
  {
    hide At;
    AtIndex(s, p, body + [NEWLINE], |body|);
    forall i | p <= i < p + |body| ensures s[i] != NEWLINE {
      AtIndex(s, p, body + [NEWLINE], i - p);
    }
  }

  lemma BlockCommentOutside(s: seq<byte>, p: nat, body: seq<byte>)
    requires At(s, p, TextOf(BlockComment(body))) && Sound(BlockComment(body))
    ensures p + |body| + 4 <= |s| && Outside(s, p) == Outside(s, p + |body| + 4)
  {
    hide Outside, At, BlockEndsAt;
    AtAppend(s, p, [SLASH, STAR], body + [STAR, SLASH]);
    AtIndex(s, p, [SLASH, STAR], 0);
    AtIndex(s, p, [SLASH, STAR], 1);
    var e := p + 2 + |body| + 2;
    BlockEnds(s, p + 2, body);
    BlockCommentEnds(s, p + 2);
    EndsOnce(s, p + 2, e, BlockCommentEnd(s, p + 2));
    OutsideStep(s, p, []);
  }

  lemma BlockEnds(s: seq<byte>, p: nat, body: seq<byte>)
    requires At(s, p, body + [STAR, SLASH]) && Sound(BlockComment(body))
    ensures BlockEndsAt(s, p, p + |body| + 2)
  {
    hide At;
    var t := body + [STAR, SLASH];
    AtIndex(s, p, t, |body|);
    AtIndex(s, p, t, |body| + 1);
    forall i | p <= i < p + |body| ensures !Closing(s, i) {
      AtIndex(s, p, t, i - p);
      AtIndex(s, p, t, i - p + 1);
      assert !Closing(t, i - p);
    }
  }

  lemma BytesOutside(s: seq<byte>, p: nat, t: seq<byte>)
    requires At(s, p, t) && Sound(Bytes(t))
    ensures p + |t| <= |s| && Outside(s, p) == t + Outside(s, p + |t|)
  {
    hide Outside, At;
    AtIs(s, p, t);
    CopiesOutside(s, p, t);
  }

  lemma BlanksOutside(s: seq<byte>, p: nat, t: seq<byte>)
    requires At(s, p, t) && Sound(Blanks(t))
    ensures p + |t| <= |s| && Outside(s, p) == Outside(s, p + |t|)
  {
    hide Outside, At;
    AtIs(s, p, t);
    DropsOutside(s, p, t);
  }

  lemma ChunkOutside(s: seq<byte>, p: nat, k: Chunk)
    requires At(s, p, TextOf(k)) && Sound(k)
    ensures p + |TextOf(k)| <= |s| && Outside(s, p) == Remains(k) + Outside(s, p + |TextOf(k)|)
  {
    hide Outside, At, Sound;
    match k
    case Literal(body) => LiteralOutside(s, p, body);
    case Bytes(text) => BytesOutside(s, p, text);
    case Blanks(text) => BlanksOutside(s, p, text);
    case LoneSlash(next) => LoneSlashOutside(s, p, next);
    case LineComment(body) => LineCommentOutside(s, p, body);
    case BlockComment(body) => BlockCommentOutside(s, p, body);
  }

  lemma {:induction false} ChunksOutside(s: seq<byte>, p: nat, ks: seq<Chunk>)
    requires At(s, p, Joined(ks)) && forall i :: 0 <= i < |ks| ==> Sound(ks[i])
    ensures p + |Joined(ks)| <= |s| && Outside(s, p) == RemainsOf(ks) + Outside(s, p + |Joined(ks)|)
    decreases |ks|
  {
    hide Outside, TextOf, Remains, Sound;
    if ks != [] {
      AtAppend(s, p, TextOf(ks[0]), Joined(ks[1..]));
      ChunkOutside(s, p, ks[0]);
      ChunksOutside(s, p + |TextOf(ks[0])|, ks[1..]);
      Regroup(Remains(ks[0]), RemainsOf(ks[1..]), Outside(s, p + |Joined(ks)|));
    } else {
      assert RemainsOf(ks) + Outside(s, p) == Outside(s, p);
    }
  }

  /** For every text put together that way: the minifier keeps the literals and the other bytes, in
      their order, and strikes the rest. */
  lemma StrikesExactly(ks: seq<Chunk>)
    requires forall i :: 0 <= i < |ks| ==> Sound(ks[i])
    ensures Minified(Joined(ks)) == RemainsOf(ks)
  {
    hide Outside, Sound, At, Joined, RemainsOf;
    var s := Joined(ks);
    AtWhole(s);
    ChunksOutside(s, 0, ks);
    InsideAtEnd(s);
    assert RemainsOf(ks) + [] == RemainsOf(ks);
  }
}
