/** What a reader sees who follows `child` and `next` from a node: no matter who owns the nodes,
    so that references and trees with shared children can be read too. */
module Views {
  import opened Bytes
  import opened Trees
  import opened Memory
  import opened Ownership

  /** The C string at `a` within the blocks that may be read; NULL reads as the empty string. */
  ghost predicate ShowsText(a: array?<byte>, text: seq<byte>, blocks: set<object>)
    reads blocks
  {
    if a == null then text == [] else a in blocks && HoldsText(a, text)
  }

  /** The node and what hangs below it stand for `v`. */
  ghost predicate Shows(n: Node, v: Json, blocks: set<object>)
    reads blocks
    decreases v, 1
  {
    n in blocks
    && match v
       case Invalid => n.kind == InvalidKind || (n.kind == RawKind && n.valuestring == null)
       case Null => n.kind == NullKind
       case False => n.kind == FalseKind
       case True => n.kind == TrueKind
       case Number(d) => n.kind == NumberKind && n.valuedouble == d
       case String(s) => n.kind == StringKind && ShowsText(n.valuestring, s, blocks)
       case Raw(s) => n.kind == RawKind && n.valuestring != null && ShowsText(n.valuestring, s, blocks)
       case Array(items) => n.kind == ArrayKind && ShowsItems(n.child, items, blocks)
       case Object(members) => n.kind == ObjectKind && ShowsMembers(n.child, members, blocks)
  }

  ghost predicate ShowsItems(first: Node?, items: seq<Json>, blocks: set<object>)
    reads blocks
    decreases items, 0
  {
    if items == [] then first == null
    else first != null && Shows(first, items[0], blocks) && ShowsItems(first.next, items[1..], blocks)
  }

  ghost predicate ShowsMembers(first: Node?, members: seq<Member>, blocks: set<object>)
    reads blocks
    decreases members, 0
  {
    if members == [] then first == null
    else
      && first != null && Shows(first, members[0].value, blocks)
      && ShowsText(first.name, members[0].key, blocks)
      && ShowsMembers(first.next, members[1..], blocks)
  }

  lemma ItemsHead(first: Node, items: seq<Json>, blocks: set<object>)
    requires ShowsItems(first, items, blocks)
    ensures items != [] && first in blocks && Shows(first, items[0], blocks)
    ensures ShowsItems(first.next, items[1..], blocks)
    ensures first.next != null <==> |items| > 1
  {
  }

  lemma MembersHead(first: Node, members: seq<Member>, blocks: set<object>)
    requires ShowsMembers(first, members, blocks)
    ensures members != [] && first in blocks && Shows(first, members[0].value, blocks)
    ensures ShowsText(first.name, members[0].key, blocks)
    ensures ShowsMembers(first.next, members[1..], blocks)
    ensures first.next != null <==> |members| > 1
  {
  }

  lemma ShowsNone(items: seq<Json>, members: seq<Member>, blocks: set<object>)
    ensures ShowsItems(null, items, blocks) ==> items == []
    ensures ShowsMembers(null, members, blocks) ==> members == []
  {
  }

  // ---------- owned trees can be read ----------

  lemma {:induction false} HoldsShows(s: Shape, blocks: set<object>)
    requires Holds(s) && Whole(s) && Owned(s) <= blocks
    ensures Shows(s.node, TreeOf(s), blocks) && ShowsText(s.node.name, s.nameText, blocks)
    decreases s, 1
  {
    if s.kind == ArrayKind {
      HoldsShowsItems(s.node.child, s.kids, blocks);
    } else if s.kind == ObjectKind {
      HoldsShowsMembers(s.node.child, s.kids, blocks);
    }
  }

  lemma {:induction false} HoldsShowsItems(first: Node?, ss: seq<Shape>, blocks: set<object>)
    requires Chain(first, Roots(ss)) && HoldsAll(ss) && OwnedAll(ss) <= blocks
    requires forall i :: 0 <= i < |ss| ==> Whole(ss[i])
    ensures ShowsItems(first, ItemsOf(ss), blocks)
    decreases ss, 0
  {
    if ss != [] {
      HoldsShows(ss[0], blocks);
      ChainTail(first, ss);
      HoldsShowsItems(ss[0].node.next, ss[1..], blocks);
      assert ItemsOf(ss)[1..] == ItemsOf(ss[1..]);
    }
  }

  lemma {:induction false} HoldsShowsMembers(first: Node?, ss: seq<Shape>, blocks: set<object>)
    requires Chain(first, Roots(ss)) && HoldsAll(ss) && OwnedAll(ss) <= blocks
    requires forall i :: 0 <= i < |ss| ==> Whole(ss[i])
    ensures ShowsMembers(first, MembersOf(ss), blocks)
    decreases ss, 0
  {
    if ss != [] {
      HoldsShows(ss[0], blocks);
      ChainTail(first, ss);
      HoldsShowsMembers(ss[0].node.next, ss[1..], blocks);
      assert MembersOf(ss)[1..] == MembersOf(ss[1..]);
    }
  }
}
