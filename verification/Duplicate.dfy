/** `cJSON_Duplicate`: an owned twin of whatever hangs below a node. */
module Duplicating {
  import opened Bytes
  import opened Memory
  import opened Siblings
  import opened Ownership
  import opened Building
  import opened Forms
  import opened Grammar
  import opened Comparison

  /** CJSON_CIRCULAR_LIMIT */
  const CIRCULAR_LIMIT := 10000

  // ---------- the twin ----------

  predicate SameText(a: array?<byte>, text: seq<byte>, t: Text) {
    match t
    case NoText => a == null && text == []
    case Text(bytes) => a != null && text == bytes
  }

  /** An owned tree of the form: nothing in it is a reference. */
  predicate Twin(s: Shape, f: Form)
    decreases f
  {
    && s.kind == f.kind && !s.isReference && s.constKey == f.constKey && s.d == f.d
    && SameText(s.value, s.text, f.text) && SameText(s.name, s.nameText, f.name)
    && (f.constKey ==> s.name == f.nameAt)
    && |s.kids| == |f.kids| && forall i :: 0 <= i < |f.kids| ==> Twin(s.kids[i], f.kids[i])
  }

  predicate Twins(ss: seq<Shape>, fs: seq<Form>) {
    |ss| == |fs| && forall i :: 0 <= i < |fs| ==> Twin(ss[i], fs[i])
  }

  /** `cJSON_strdup` */
  method CopyString(a: array?<byte>, mem: Allocator, ghost t: Text, ghost blocks: set<object>)
    returns (ok: bool, copy: array?<byte>)
    requires ReadsText(a, t, blocks) && mem !in blocks
    modifies mem
    ensures ok ==> (copy == null <==> t == NoText) && mem.refusals == old(mem.refusals)
    ensures ok ==> mem.live == old(mem.live) + One(copy)
    ensures copy != null ==> ok && fresh(copy) && HoldsText(copy, t.bytes)
    ensures !ok ==> copy == null && mem.live == old(mem.live) && mem.refusals > old(mem.refusals)
  {
    ok, copy := true, null;
    if a != null {
      var n := StringLength(a, t.bytes);
      copy := mem.Allocate(n + 1);
      if copy == null {
        return false, null;
      }
      forall i | 0 <= i <= n {
        copy[i] := a[i];
      }
      assert copy[..n] == a[..n];
    }
  }

  /** What a childless node of the twin owns. */
  lemma BareHolds(t: Shape)
    requires t.kids == [] && !t.isReference && Body(t) && t.node.child == null
    requires t.value != null && t.name != null && !t.constKey ==> t.value != t.name
    ensures Holds(t) && Separate(t)
    ensures Owned(t) == {t.node} + One(t.value) + if t.constKey then {} else One(t.name)
  {
  }

  /** A new node with the flags, numbers and texts of the original, and no children. `made` is its
      tree, or nothing when memory runs out. */
  method NewTwin(item: Node, mem: Allocator, ghost f: Form, ghost blocks: set<object>)
    returns (twin: Node?, ghost made: seq<Shape>)
    requires Reads(item, f, blocks) && mem !in blocks
    modifies mem
    ensures twin == null ==> made == [] && mem.live == old(mem.live) && mem.refusals > old(mem.refusals)
    ensures twin != null ==> |made| == 1 && made[0].node == twin && made[0].kids == [] && Twin(made[0], f.(kids := []))
    ensures twin != null ==> Holds(made[0]) && Separate(made[0]) && twin.next == twin.prev == twin.child == null
    ensures twin != null ==> fresh(Owned(made[0])) && mem.live == old(mem.live) + Owned(made[0])
    ensures twin != null ==> mem.refusals == old(mem.refusals)
  {
    hide Holds, Separate, Owned, ReadsAll, ReadsText, Twin;
    made := [];
    twin := mem.NewItem();
    if twin == null {
      return;
    }
    twin.kind := item.kind;
    twin.constKey := item.constKey;
    twin.valuedouble := item.valuedouble;
    ghost var t := Shape(twin, f.kind, false, f.constKey, null, [], null, [], f.d, []);
    var ok;
    ok, made := TwinTexts(item, twin, mem, f, blocks, t);
    if !ok {
      twin := null;
    }
  }

  /** `valuestring` is copied, then the name. */
  method TwinTexts(item: Node, twin: Node, mem: Allocator, ghost f: Form, ghost blocks: set<object>, ghost t: Shape)
    returns (ok: bool, ghost made: seq<Shape>)
    requires Reads(item, f, blocks) && mem !in blocks && twin !in blocks && twin in mem.live
    requires t == Shape(twin, f.kind, false, f.constKey, null, [], null, [], f.d, [])
    requires Body(t) && twin.child == null
    modifies twin, mem
    ensures !ok ==> made == [] && mem.live == old(mem.live) - {twin} && mem.refusals > old(mem.refusals)
    ensures ok ==> |made| == 1 && made[0].node == twin && made[0].kids == [] && Twin(made[0], f.(kids := []))
    ensures ok ==> Holds(made[0]) && Separate(made[0]) && twin.child == null
    ensures ok ==> twin.next == old(twin.next) && twin.prev == old(twin.prev) && mem.refusals == old(mem.refusals)
    ensures ok ==> twin in Owned(made[0]) && forall x :: x in Owned(made[0]) ==> x == twin || fresh(x)
    ensures ok ==> mem.live == old(mem.live) + Owned(made[0])
  {
    hide Holds, Separate, Owned, ReadsAll, Twin;
    made := [];
    var value;
    ok, value := CopyString(item.valuestring, mem, f.text, blocks);
    if !ok {
      BareHolds(t);
      DeleteNode(twin, mem, t);
      return;
    }
    twin.valuestring := value;
    ok, made := TwinName(item, twin, mem, f, blocks, t.(value := value, text := if f.text.Text? then f.text.bytes else []));
  }

  /** The name is copied, or shared if it is constant. */
  method TwinName(item: Node, twin: Node, mem: Allocator, ghost f: Form, ghost blocks: set<object>, ghost t: Shape)
    returns (ok: bool, ghost made: seq<Shape>)
    requires Reads(item, f, blocks) && mem !in blocks && twin !in blocks && twin == t.node
    requires t.kids == [] && !t.isReference && t.name == null && t.nameText == []
    requires t.kind == f.kind && t.constKey == f.constKey && t.d == f.d && SameText(t.value, t.text, f.text)
    requires Body(t) && twin.child == null
    requires {twin as object} + One(t.value) <= mem.live && mem !in {twin as object} + One(t.value)
    modifies twin, mem, t.value
    ensures !ok ==> made == [] && mem.live == old(mem.live) - {twin} - One(t.value) && mem.refusals > old(mem.refusals)
    ensures ok ==> |made| == 1 && made[0].node == twin && made[0].kids == [] && Twin(made[0], f.(kids := []))
    ensures ok ==> Holds(made[0]) && Separate(made[0]) && twin.child == null
    ensures ok ==> twin.next == old(twin.next) && twin.prev == old(twin.prev)
    ensures ok ==> Owned(made[0]) <= {twin} + One(t.value) + One(made[0].name) && mem.refusals == old(mem.refusals)
    ensures ok ==> twin in Owned(made[0]) && One(t.value) <= Owned(made[0])
    ensures ok ==> forall x :: x in Owned(made[0]) ==> x == twin || x in One(t.value) || fresh(x)
    ensures ok ==> mem.live == old(mem.live) + Owned(made[0])
  {
    var name := item.name;
    ok, made := true, [];
    if !item.constKey {
      ok, name := CopyString(item.name, mem, f.name, blocks);
    }
    if !ok {
      BareHolds(t);
      DeleteNode(twin, mem, t);
      return;
    }
    twin.name := name;
    ghost var s := t.(name := name, nameText := if f.name.Text? then f.name.bytes else []);
    BareHolds(s);
    made := [s];
  }

  /** `cJSON_Duplicate`: the duplicate is a tree of its own, or nothing stays allocated. Its form can
      be read in the memory of both. */
  method Duplicate(item: Node?, recurse: bool, mem: Allocator, ghost f: Form, ghost blocks: set<object>)
    returns (twin: Node?, ghost made: seq<Shape>)
    requires item != null ==> Reads(item, f, blocks)
    requires mem !in blocks
    modifies mem
    ensures twin == null ==> made == [] && mem.live == old(mem.live)
    ensures twin == null ==> item == null || mem.refusals > old(mem.refusals) || (recurse && Depth(f) > 10000)
    ensures twin != null ==> item != null && mem.refusals == old(mem.refusals) && (recurse ==> Depth(f) <= 10000)
    ensures twin != null ==> |made| == 1 && made[0].node == twin && Holds(made[0]) && Separate(made[0])
    ensures twin != null ==> Twin(made[0], if recurse then f else f.(kids := []))
    ensures twin != null ==> Reads(twin, FormOf(made[0]), blocks + Owned(made[0])) && twin.next == twin.prev == null
    ensures twin != null ==> fresh(Owned(made[0])) && mem.live == old(mem.live) + Owned(made[0])
  {
    hide Reads, Twin, Holds, Separate, Owned, Depth, FormOf, NamesRead;
    twin, made := DuplicateRec(item, 0, recurse, mem, f, blocks);
    if twin != null {
      ReadsNames(item, f, blocks);
      TwinReads(made[0], if recurse then f else f.(kids := []), blocks, blocks + Owned(made[0]));
    }
  }

  /** `cJSON_Duplicate_rec`. A twin is owned and new throughout; without one, nothing stays
      allocated. */
  method DuplicateRec(item: Node?, depth: nat, recurse: bool, mem: Allocator, ghost f: Form, ghost blocks: set<object>)
    returns (twin: Node?, ghost made: seq<Shape>)
    requires item != null ==> Reads(item, f, blocks)
    requires mem !in blocks && depth <= CIRCULAR_LIMIT
    modifies mem
    ensures twin == null ==> made == [] && mem.live == old(mem.live)
    ensures twin == null ==> item == null || mem.refusals > old(mem.refusals) || (recurse && depth + Depth(f) > CIRCULAR_LIMIT)
    ensures twin != null ==> item != null && mem.refusals == old(mem.refusals)
    ensures twin != null ==> |made| == 1 && made[0].node == twin && Holds(made[0]) && Separate(made[0])
    ensures twin != null ==> Twin(made[0], if recurse then f else f.(kids := []))
    ensures twin != null && recurse ==> depth + Depth(f) <= CIRCULAR_LIMIT
    ensures twin != null ==> twin.next == twin.prev == null
    ensures twin != null ==> fresh(Owned(made[0])) && mem.live == old(mem.live) + Owned(made[0])
    decreases f, 1
  {
    made := [];
    if item == null {
      return null, [];
    }
    hide Reads, Twin, Holds, Separate, Owned, Depth;
    twin, made := NewTwin(item, mem, f, blocks);
    if twin == null || !recurse {
      return;
    }
    var ok;
    ghost var s;
    ok, s := DuplicateBelow(item, twin, depth, mem, f, blocks, made[0]);
    if ok {
      made := [s];
    } else {
      twin, made := null, [];
    }
  }

  /** The second half of `cJSON_Duplicate_rec`: the children, or the end of the twin. */
  method DuplicateBelow(
    item: Node, twin: Node, depth: nat, mem: Allocator, ghost f: Form, ghost blocks: set<object>, ghost bare: Shape)
    returns (ok: bool, ghost s: Shape)
    requires Reads(item, f, blocks) && mem !in blocks && depth <= CIRCULAR_LIMIT
    requires twin == bare.node && bare.kids == [] && Twin(bare, f.(kids := [])) && Holds(bare) && Separate(bare)
    requires Owned(bare) <= mem.live && mem !in Owned(bare) && Owned(bare) !! blocks
    modifies mem, Owned(bare)
    ensures !ok ==> mem.live == old(mem.live) - Owned(bare) && (mem.refusals > old(mem.refusals) || depth + Depth(f) > CIRCULAR_LIMIT)
    ensures ok ==> mem.refusals == old(mem.refusals) && depth + Depth(f) <= CIRCULAR_LIMIT
    ensures ok ==> s.node == twin && Holds(s) && Separate(s) && Twin(s, f)
    ensures ok ==> twin.next == old(twin.next) && twin.prev == old(twin.prev) && Owned(bare) <= Owned(s)
    ensures ok ==> mem.live == old(mem.live) + Owned(s) && forall x :: x in Owned(s) ==> x in Owned(bare) || fresh(x)
    decreases f, 0
  {
    hide Reads, ReadsAll, Pending, Built, Twin, Twins, Holds, Separate, Below, Owned, OwnedAll, DepthAll;
    ghost var live := mem.live;
    s := bare;
    OwnedParts(bare);
    NoReference(bare, f.(kids := []));
    ReadsKids(item, f, blocks);
    var head, last;
    ghost var kids;
    ok, head, last, kids := DuplicateChildren(item.child, depth, mem, f.kids, blocks);
    if ok {
      PendingEnds(mem, live, head, last, kids);
      s := Adopt(twin, head, last, bare, kids);
      TwinGrown(bare, kids, f);
    } else {
      GiveUp(twin, head, last, mem, bare, kids, live);
    }
  }

  lemma OwnedParts(s: Shape)
    ensures s.node in Owned(s) && Below(s) <= Owned(s)
  {
  }

  lemma NoReference(s: Shape, f: Form)
    requires Twin(s, f)
    ensures !s.isReference
  {
  }

  lemma ReadsKids(n: Node, f: Form, blocks: set<object>)
    requires Reads(n, f, blocks)
    ensures n in blocks && ReadsAll(n.child, f.kids, blocks)
  {
  }

  /** The failed twin is freed with the children it has got so far. */
  method GiveUp(
    twin: Node, head: Node?, last: Node?, mem: Allocator, ghost bare: Shape, ghost kids: seq<Shape>, ghost live: set<object>)
    requires Pending(mem, live, head, last, kids)
    requires twin == bare.node && bare.kids == [] && Holds(bare) && Separate(bare)
    requires Owned(bare) <= live && mem !in Owned(bare)
    modifies mem, Owned(bare), OwnedAll(kids)
    ensures mem.live == live - Owned(bare) && mem.refusals == old(mem.refusals)
  {
    hide Pending, Built, Holds, Separate, Below, Owned, OwnedAll;
    PendingEnds(mem, live, head, last, kids);
    OwnedParts(bare);
    Discard(head, last, mem, kids);
    DeleteNode(twin, mem, bare);
  }

  lemma TwinGrown(bare: Shape, kids: seq<Shape>, f: Form)
    requires Twin(bare, f.(kids := [])) && Twins(kids, f.kids)
    ensures Twin(bare.(kids := kids), f)
  {
  }

  /** The loop over the children. */
  method DuplicateChildren(first: Node?, depth: nat, mem: Allocator, ghost fs: seq<Form>, ghost blocks: set<object>)
    returns (ok: bool, head: Node?, last: Node?, ghost kids: seq<Shape>)
    requires ReadsAll(first, fs, blocks) && mem !in blocks && depth <= CIRCULAR_LIMIT
    modifies mem
    ensures Pending(mem, old(mem.live), head, last, kids) && fresh(OwnedAll(kids))
    ensures ok ==> Twins(kids, fs) && mem.refusals == old(mem.refusals) && depth + DepthAll(fs) <= CIRCULAR_LIMIT
    ensures !ok ==> mem.refusals > old(mem.refusals) || depth + DepthAll(fs) > CIRCULAR_LIMIT
    decreases fs, 0
  {
    hide Pending, OwnedAll, Reads, ReadsAll, Twin, Twins, Depth, DepthAll, ChildrenLeft;
    var child := first;
    ghost var live, rest := mem.live, fs;
    NothingPending(mem);
    kids, head, last, ok := [], null, null, true;
    ChildrenBegin(fs, depth);
    while child != null
      invariant Pending(mem, live, head, last, kids) && fresh(OwnedAll(kids))
      invariant ReadsAll(child, rest, blocks) && mem.refusals == old(mem.refusals)
      invariant ChildrenLeft(fs, rest, kids, depth)
      decreases |rest|
    {
      ReadsHead(child, rest, blocks);
      ChildrenHead(fs, rest, kids, depth);
      if depth >= CIRCULAR_LIMIT {
        return false, head, last, kids;
      }
      ghost var before := kids;
      PendingEnds(mem, live, head, last, kids);
      ok, head, last, kids := DuplicateChild(child, depth, head, last, mem, kids, live, rest[0], blocks);
      if !ok {
        return;
      }
      ChildrenStep(fs, rest, before, kids, depth);
      child, rest := child.next, rest[1..];
    }
    ReadsNone(rest, blocks);
    ChildrenEnd(fs, kids, depth);
  }

  /** `rest` of the children in `fs` have no twin yet, the others have theirs in `kids`. */
  predicate ChildrenLeft(fs: seq<Form>, rest: seq<Form>, kids: seq<Shape>, depth: nat) {
    && |rest| <= |fs| && rest == fs[|fs| - |rest|..] && Twins(kids, fs[..|fs| - |rest|])
    && (depth + DepthAll(fs) <= CIRCULAR_LIMIT <==> depth + DepthAll(rest) <= CIRCULAR_LIMIT)
  }

  lemma ChildrenBegin(fs: seq<Form>, depth: nat)
    ensures ChildrenLeft(fs, fs, [], depth)
  {
  }

  lemma ChildrenHead(fs: seq<Form>, rest: seq<Form>, kids: seq<Shape>, depth: nat)
    requires ChildrenLeft(fs, rest, kids, depth) && rest != []
    ensures |rest| <= |fs| && rest == fs[|fs| - |rest|..] && rest[0] in fs
    ensures depth + 1 + Depth(rest[0]) > CIRCULAR_LIMIT ==> depth + DepthAll(fs) > CIRCULAR_LIMIT
  {
  }

  lemma ChildrenStep(fs: seq<Form>, rest: seq<Form>, kids: seq<Shape>, kids': seq<Shape>, depth: nat)
    requires ChildrenLeft(fs, rest, kids, depth) && rest != [] && depth + 1 + Depth(rest[0]) <= CIRCULAR_LIMIT
    requires |kids'| == |kids| + 1 && kids' == kids + [kids'[|kids|]] && Twin(kids'[|kids|], rest[0])
    ensures ChildrenLeft(fs, rest[1..], kids', depth)
  {
    hide Twin;
    var n := |fs| - |rest|;
    assert fs[..n + 1] == fs[..n] + [rest[0]] && rest[1..] == fs[n + 1..];
    assert |kids| == n;
    forall i | 0 <= i < n + 1 ensures Twin(kids'[i], fs[i]) {
      if i < n {
        assert kids'[i] == kids[i] && fs[..n][i] == fs[i];
      } else {
        assert kids'[i] == kids'[|kids|] && fs[i] == rest[0];
      }
    }
  }

  lemma ChildrenEnd(fs: seq<Form>, kids: seq<Shape>, depth: nat)
    requires ChildrenLeft(fs, [], kids, depth) && depth <= CIRCULAR_LIMIT
    ensures Twins(kids, fs) && depth + DepthAll(fs) <= CIRCULAR_LIMIT
  {
    assert fs[..|fs|] == fs;
  }

  /** One turn of the loop: the twin of a child goes behind the last one. */
  method DuplicateChild(
    child: Node, depth: nat, head: Node?, last: Node?, mem: Allocator, ghost ss: seq<Shape>, ghost live: set<object>,
    ghost f: Form, ghost blocks: set<object>)
    returns (ok: bool, head': Node?, last': Node?, ghost ss': seq<Shape>)
    requires Pending(mem, live, head, last, ss) && Reads(child, f, blocks)
    requires mem !in blocks && blocks !! OwnedAll(ss) && depth < CIRCULAR_LIMIT
    modifies mem, These(last)`next
    ensures Pending(mem, live, head', last', ss')
    ensures forall x :: x in OwnedAll(ss') ==> x in OwnedAll(ss) || fresh(x)
    ensures ok ==> |ss'| == |ss| + 1 && ss' == ss + [ss'[|ss|]] && Twin(ss'[|ss|], f)
    ensures ok ==> mem.refusals == old(mem.refusals) && depth + 1 + Depth(f) <= CIRCULAR_LIMIT
    ensures !ok ==> mem.refusals > old(mem.refusals) || depth + 1 + Depth(f) > CIRCULAR_LIMIT
    decreases f, 2
  {
    hide Built, OwnedAll, Reads, Twin, Holds, Separate;
    head', last', ss' := head, last, ss;
    PendingEnds(mem, live, head, last, ss);
    var twin;
    ghost var made;
    twin, made := DuplicateRec(child, depth + 1, true, mem, f, blocks);
    ok := twin != null;
    if ok {
      head' := AttachTree(head, last, twin, ss, made[0], mem.live);
      last', ss' := twin, ss + [made[0]];
    }
  }

  // ---------- what a twin stands for ----------

  /** The constant names are where the form says. */
  ghost predicate NamesRead(f: Form, blocks: set<object>)
    reads blocks
    decreases f
  {
    && (f.constKey ==> ReadsText(f.nameAt, f.name, blocks))
    && forall i :: 0 <= i < |f.kids| ==> NamesRead(f.kids[i], blocks)
  }

  lemma {:induction false} ReadsNames(n: Node, f: Form, blocks: set<object>)
    requires Reads(n, f, blocks)
    ensures NamesRead(f, blocks) && NamesRead(f.(kids := []), blocks)
    decreases f, 1
  {
    ReadsNamesAll(n.child, f.kids, blocks);
  }

  lemma {:induction false} ReadsNamesAll(first: Node?, fs: seq<Form>, blocks: set<object>)
    requires ReadsAll(first, fs, blocks)
    ensures forall i :: 0 <= i < |fs| ==> NamesRead(fs[i], blocks)
    decreases fs, 0
  {
    hide NamesRead, Reads;
    if fs != [] {
      ReadsNames(first, fs[0], blocks);
      ReadsNamesAll(first.next, fs[1..], blocks);
      assert forall i :: 0 < i < |fs| ==> fs[i] == fs[1..][i - 1];
    }
  }

  /** The twin has in memory the form of its shape: a constant name it shares with the original, the
      rest is its own. */
  lemma {:induction false} TwinReads(s: Shape, f: Form, blocks: set<object>, all: set<object>)
    requires Holds(s) && Twin(s, f) && NamesRead(f, blocks) && blocks + Owned(s) <= all
    ensures Reads(s.node, FormOf(s), all)
    decreases s, 1
  {
    TwinReadsAll(s.node.child, s.kids, f.kids, blocks, all);
  }

  lemma TwinsTail(ss: seq<Shape>, fs: seq<Form>, blocks: set<object>)
    requires ss != [] && Twins(ss, fs) && forall i :: 0 <= i < |fs| ==> NamesRead(fs[i], blocks)
    ensures |fs| == |ss| && Twin(ss[0], fs[0]) && Twins(ss[1..], fs[1..])
    ensures forall i :: 0 <= i < |fs| - 1 ==> NamesRead(fs[1..][i], blocks)
  {
    hide NamesRead, Twin;
  }

  lemma {:induction false} TwinReadsAll(
    first: Node?, ss: seq<Shape>, fs: seq<Form>, blocks: set<object>, all: set<object>)
    requires Chain(first, Roots(ss)) && HoldsAll(ss) && Twins(ss, fs) && blocks + OwnedAll(ss) <= all
    requires forall i :: 0 <= i < |fs| ==> NamesRead(fs[i], blocks)
    ensures ReadsAll(first, FormsOf(ss), all)
    decreases ss, 0
  {
    hide NamesRead, Twin, Twins, Reads;
    if ss != [] {
      TwinsTail(ss, fs, blocks);
      TwinReads(ss[0], fs[0], blocks, all);
      ChainTail(first, ss);
      TwinReadsAll(ss[0].node.next, ss[1..], fs[1..], blocks, all);
    }
  }

  /** A twin stands for the same tree as the original, whose references it has resolved. */
  lemma {:induction false} TwinTree(s: Shape, f: Form)
    requires Twin(s, f)
    ensures TreeOf(s) == FormTree(f) && s.nameText == BytesOf(f.name)
    decreases f
  {
    forall i | 0 <= i < |f.kids| ensures TreeOf(s.kids[i]) == FormTree(f.kids[i]) && s.kids[i].nameText == BytesOf(f.kids[i].name) {
      TwinTree(s.kids[i], f.kids[i]);
    }
    assert ItemsOf(s.kids) == FormItems(f.kids);
    assert MembersOf(s.kids) == FormMembers(f.kids);
  }

  // ---------- every parsed tree can be duplicated ----------

  /** Whatever text was accepted, its tree is far from the limit of `Duplicate`. */
  lemma ParsedDuplicates(c: seq<byte>, requireNul: bool, s: Shape, end: nat)
    requires ParseText(c, requireNul) == Parsed(TreeOf(s), end) && Whole(s)
    ensures Depth(FormOf(s)) <= NESTING_LIMIT <= CIRCULAR_LIMIT
  {
    ParsedValue(c, SkipBlanks(c, TextStart(c)), 0);
    DepthWithinHeight(s);
  }

  // ---------- a duplicate compared with its original ----------

  /** The two cannot be told apart by a comparison with a third. */
  predicate Alike(g: Form, f: Form, sensitive: bool) {
    && g.name == f.name && CanonOf(g, sensitive) == CanonOf(f, sensitive)
    && (Int32Form(g) <==> Int32Form(f)) && (Consistent(g, sensitive) <==> Consistent(f, sensitive))
  }

  predicate AllAlike(gs: seq<Form>, fs: seq<Form>, sensitive: bool) {
    |gs| == |fs| && forall i :: 0 <= i < |fs| ==> Alike(gs[i], fs[i], sensitive)
  }

  lemma {:induction false} AlikeMembers(gs: seq<Form>, fs: seq<Form>, sensitive: bool)
    requires AllAlike(gs, fs, sensitive)
    ensures CanonMembers(gs, sensitive) == CanonMembers(fs, sensitive)
    decreases fs
  {
    hide CanonOf, Int32Form, Consistent;
    if fs != [] {
      assert forall i :: 0 <= i < |fs| - 1 ==> gs[1..][i] == gs[i + 1] && fs[1..][i] == fs[i + 1];
      AlikeMembers(gs[1..], fs[1..], sensitive);
    }
  }

  lemma AlikeItems(gs: seq<Form>, fs: seq<Form>, sensitive: bool)
    requires AllAlike(gs, fs, sensitive)
    ensures CanonItems(gs, sensitive) == CanonItems(fs, sensitive)
    ensures OneValue(gs, sensitive) <==> OneValue(fs, sensitive)
  {
    hide CanonOf, Int32Form, Consistent, Fold;
    assert forall i :: 0 <= i < |fs| ==> Key(gs[i], sensitive) == Key(fs[i], sensitive);
    assert forall i :: 0 <= i < |fs| ==> CanonItems(gs, sensitive)[i] == CanonItems(fs, sensitive)[i];
  }

  lemma AlikeParent(g: Form, f: Form, sensitive: bool)
    requires g.kind == f.kind && g.name == f.name && g.text == f.text && g.d == f.d
    requires AllAlike(g.kids, f.kids, sensitive)
    ensures Alike(g, f, sensitive)
  {
    hide CanonOf, CanonItems, CanonMembers, OneValue, Int32Form, Consistent;
    AlikeItems(g.kids, f.kids, sensitive);
    AlikeMembers(g.kids, f.kids, sensitive);
    CanonParent(g, f, sensitive);
    ParentInto(g, f, sensitive);
    ParentInto(f, g, sensitive);
  }

  lemma CanonParent(g: Form, f: Form, sensitive: bool)
    requires g.kind == f.kind && g.text == f.text && g.d == f.d
    requires CanonItems(g.kids, sensitive) == CanonItems(f.kids, sensitive)
    requires CanonMembers(g.kids, sensitive) == CanonMembers(f.kids, sensitive)
    ensures CanonOf(g, sensitive) == CanonOf(f, sensitive)
  {
    hide CanonItems, CanonMembers;
  }

  lemma ParentInto(g: Form, f: Form, sensitive: bool)
    requires g.kind == f.kind && g.text == f.text && g.d == f.d && |g.kids| == |f.kids|
    requires forall i :: 0 <= i < |f.kids| ==> (Int32Form(g.kids[i]) ==> Int32Form(f.kids[i]))
    requires forall i :: 0 <= i < |f.kids| ==> (Consistent(g.kids[i], sensitive) ==> Consistent(f.kids[i], sensitive))
    requires OneValue(g.kids, sensitive) ==> OneValue(f.kids, sensitive)
    ensures Int32Form(g) ==> Int32Form(f)
    ensures Consistent(g, sensitive) ==> Consistent(f, sensitive)
  {
    hide OneValue;
  }

  lemma {:induction false} FormsAt(ss: seq<Shape>, i: nat)
    requires i < |ss|
    ensures FormsOf(ss)[i] == FormOf(ss[i])
  {
    if i > 0 {
      FormsAt(ss[1..], i - 1);
    }
  }

  lemma {:induction false} TwinAlike(s: Shape, f: Form, sensitive: bool)
    requires Twin(s, f)
    ensures Alike(FormOf(s), f, sensitive)
    decreases f
  {
    hide Alike;
    forall i | 0 <= i < |f.kids| ensures Alike(FormsOf(s.kids)[i], f.kids[i], sensitive) {
      FormsAt(s.kids, i);
      TwinAlike(s.kids[i], f.kids[i], sensitive);
    }
    AlikeParent(FormOf(s), f, sensitive);
  }

  lemma {:induction false} PartsOwned(s: Shape, a: Form)
    requires a in Parts(FormOf(s))
    ensures a.node in Owned(s)
    decreases s, 1
  {
    if a != FormOf(s) {
      PartsOwnedAll(s.kids, a);
    }
  }

  lemma {:induction false} PartsOwnedAll(ss: seq<Shape>, a: Form)
    requires a in PartsAll(FormsOf(ss))
    ensures a.node in OwnedAll(ss)
    decreases ss, 0
  {
    assert FormsOf(ss)[1..] == FormsOf(ss[1..]);
    if a in Parts(FormOf(ss[0])) {
      PartsOwned(ss[0], a);
    } else {
      PartsOwnedAll(ss[1..], a);
    }
  }

  /** A duplicate on new blocks compares equal to its original exactly when the original is
      consistent: no type, text or name missing, and one value for every name. Both have their
      forms in the memory of the two, so that they can be handed to `Compare`. */
  lemma TwinCompares(s: Shape, f: Form, sensitive: bool, blocks: set<object>)
    requires Twin(s, f) && Int32Form(f) && Reads(f.node, f, blocks) && Owned(s) !! blocks
    ensures Same(f, FormOf(s), sensitive) <==> Consistent(f, sensitive)
    ensures Holds(s) ==> Reads(f.node, f, blocks + Owned(s)) && Reads(s.node, FormOf(s), blocks + Owned(s))
  {
    TwinsRead(s, f, blocks);
    var g := FormOf(s);
    TwinAlike(s, f, sensitive);
    assert Apart(f, g) by {
      hide Parts, Reads, Twin, Owned, FormOf;
      forall a, b | a in Parts(f) && b in Parts(g) ensures a.node != b.node {
        PartsRead(f, a, blocks);
        ReadInside(a, blocks);
        PartsOwned(s, b);
      }
    }
    hide Same, Parts, Apart, Consistent, CanonOf, Int32Form;
    SameApart(f, g, sensitive);
  }

  lemma TwinsRead(s: Shape, f: Form, blocks: set<object>)
    requires Twin(s, f) && Reads(f.node, f, blocks)
    ensures Holds(s) ==> Reads(f.node, f, blocks + Owned(s)) && Reads(s.node, FormOf(s), blocks + Owned(s))
  {
    hide Reads, Twin, FormOf, Owned, NamesRead;
    ReadsMore(f.node, f, blocks, blocks + Owned(s));
    ReadsNames(f.node, f, blocks);
    if Holds(s) {
      TwinReads(s, f, blocks, blocks + Owned(s));
    }
  }

  lemma ReadInside(a: Form, blocks: set<object>)
    requires Reads(a.node, a, blocks)
    ensures a.node in blocks
  {
  }
}
