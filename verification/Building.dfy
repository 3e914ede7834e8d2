/** Lists of nodes under construction: what the parser and the duplicator append to before the
    head learns of its tail. */
module Building {
  import opened Memory
  import opened Siblings
  import opened Ownership

  /** `next` leads from `head` through `ns` to `last` and `prev` leads back, except that the head
      does not point to the tail yet. */
  predicate Spine(head: Node?, last: Node?, ns: seq<Node>)
    reads ns`next, ns`prev
  {
    && Chain(head, ns)
    && last == (if ns == [] then null else ns[|ns| - 1])
    && forall i :: 0 < i < |ns| ==> ns[i].prev == ns[i - 1]
  }

  /** A list of finished trees under construction. */
  ghost predicate Built(head: Node?, last: Node?, ss: seq<Shape>)
    reads OwnedAll(ss)
  {
    RootsOwned(ss);
    Spine(head, last, Roots(ss)) && HoldsAll(ss) && SeparateAll(ss)
  }

  /** The same with a new node linked in behind the finished trees. */
  ghost predicate Extended(head: Node?, item: Node, ss: seq<Shape>)
    reads OwnedAll(ss), item
  {
    RootsOwned(ss);
    Spine(head, item, Roots(ss) + [item]) && HoldsAll(ss) && SeparateAll(ss)
  }

  /** The finished trees are all that has been added to the blocks in `live`. */
  ghost predicate Pending(mem: Allocator, live: set<object>, head: Node?, last: Node?, ss: seq<Shape>)
    reads mem`live, OwnedAll(ss)
  {
    Built(head, last, ss) && mem !in OwnedAll(ss) && live !! OwnedAll(ss) && mem.live == live + OwnedAll(ss)
  }

  /** The same for trees as the parser builds them. */
  ghost predicate Growing(mem: Allocator, live: set<object>, head: Node?, last: Node?, ss: seq<Shape>)
    reads mem`live, OwnedAll(ss)
  {
    Pending(mem, live, head, last, ss) && AllWhole(ss)
  }

  lemma {:induction false} RootsDistinct(ss: seq<Shape>)
    requires SeparateAll(ss)
    ensures Distinct(Roots(ss))
    ensures forall i :: 0 <= i < |ss| ==> Roots(ss)[i] !in BelowAll(ss)
    decreases |ss|
  {
    if ss != [] {
      RootsDistinct(ss[1..]);
      RootsOwned(ss[1..]);
      var ns, rest := Roots(ss), Roots(ss[1..]);
      forall i, j | 0 <= i < j < |ns| ensures ns[i] != ns[j] {
        assert ns[j] == rest[j - 1];
        if i > 0 {
          assert ns[i] == rest[i - 1];
        }
      }
      forall i | 0 <= i < |ss| ensures Roots(ss)[i] !in BelowAll(ss) {
        if i > 0 {
          assert ns[i] == rest[i - 1];
        }
      }
    }
  }

  /** A new node goes behind the last one. */
  method Attach(head: Node?, last: Node?, item: Node, ghost ss: seq<Shape>) returns (head': Node?)
    requires Built(head, last, ss) && item !in OwnedAll(ss) && item.next == null
    modifies These(last)`next, item`prev
    ensures Spine(head', item, Roots(ss) + [item]) && HoldsAll(ss) && SeparateAll(ss)
    ensures item.next == null
  {
    RootsDistinct(ss);
    RootsOwned(ss);
    if head == null {
      head' := item;
    } else {
      head' := head;
      last.next := item;
      item.prev := last;
    }
  }

  /** The shape of a zeroed node. */
  function Zeroed(item: Node): Shape {
    Shape(item, InvalidKind, false, false, null, [], null, [], 0.0, [])
  }

  lemma ZeroedHolds(item: Node)
    requires item.kind == InvalidKind && !item.isReference && !item.constKey && item.child == null
    requires item.valuestring == null && item.name == null && item.valuedouble == 0.0
    ensures Holds(Zeroed(item)) && Separate(Zeroed(item)) && Owned(Zeroed(item)) == {item} && Below(Zeroed(item)) == {}
  {
  }

  /** A zeroed node is requested and goes behind the last one. */
  method AttachNew(head: Node?, last: Node?, mem: Allocator, ghost ss: seq<Shape>)
    returns (item: Node?, head': Node?)
    requires Built(head, last, ss) && mem !in OwnedAll(ss) && OwnedAll(ss) <= mem.live
    modifies mem, These(last)`next
    ensures item == null ==> head' == head && Built(head, last, ss) && mem.live == old(mem.live) && mem.refusals > old(mem.refusals)
    ensures item != null ==> fresh(item) && mem.live == old(mem.live) + {item} && mem.refusals == old(mem.refusals)
    ensures item != null ==> Extended(head', item, ss)
    ensures item != null ==> item.kind == InvalidKind && !item.isReference && !item.constKey && item.child == null
    ensures item != null ==> item.valuestring == null && item.name == null && item.valuedouble == 0.0
    ensures item != null ==>
              var blank := Zeroed(item); Holds(blank) && Separate(blank) && Owned(blank) == {item} && Below(blank) == {}
  {
    hide Built, OwnedAll;
    item := mem.NewItem();
    head' := head;
    if item != null {
      head' := Attach(head, last, item, ss);
      ZeroedHolds(item);
    }
  }

  lemma BuiltAppend(head: Node?, last: Node?, ss: seq<Shape>, s: Shape)
    requires Spine(head, last, Roots(ss) + [s.node]) && HoldsAll(ss) && SeparateAll(ss)
    requires Holds(s) && Separate(s) && OwnedAll(ss) !! Owned(s)
    ensures Built(head, last, ss + [s])
    ensures OwnedAll(ss + [s]) == OwnedAll(ss) + Owned(s)
  {
    assert Roots(ss + [s]) == Roots(ss) + [s.node];
    HoldsAppend(ss, s);
    SeparateAppend(ss, s);
    OwnedAppend(ss, s);
  }

  lemma GrowingEnds(mem: Allocator, live: set<object>, head: Node?, last: Node?, ss: seq<Shape>)
    requires Growing(mem, live, head, last, ss)
    ensures These(head) + These(last) <= OwnedAll(ss) <= mem.live && Built(head, last, ss)
    ensures mem.live == live + OwnedAll(ss) && mem !in OwnedAll(ss) && mem.live - OwnedAll(ss) == live
    ensures AllWhole(ss)
  {
    RootsOwned(ss);
  }

  lemma PendingEnds(mem: Allocator, live: set<object>, head: Node?, last: Node?, ss: seq<Shape>)
    requires Pending(mem, live, head, last, ss)
    ensures These(head) + These(last) <= OwnedAll(ss) <= mem.live && Built(head, last, ss)
    ensures mem.live == live + OwnedAll(ss) && mem !in OwnedAll(ss) && mem.live - OwnedAll(ss) == live
  {
    RootsOwned(ss);
  }

  lemma NothingPending(mem: Allocator)
    ensures Pending(mem, mem.live, null, null, []) && OwnedAll([]) == {}
  {
  }

  lemma NothingGrows(mem: Allocator)
    ensures Growing(mem, mem.live, null, null, []) && OwnedAll([]) == {}
  {
  }

  /** A list that is given up is freed. */
  method Discard(head: Node?, last: Node?, mem: Allocator, ghost ss: seq<Shape>)
    requires Built(head, last, ss) && OwnedAll(ss) <= mem.live && mem !in OwnedAll(ss)
    modifies mem, OwnedAll(ss)
    ensures mem.live == old(mem.live) - OwnedAll(ss) && mem.refusals == old(mem.refusals)
  {
    if head != null {
      Delete(head, mem, ss);
    } else {
      assert ss == [];
    }
  }

  /** The finished list: the head gets its pointer to the tail. */
  method CloseList(head: Node?, last: Node?, ghost ss: seq<Shape>)
    requires Built(head, last, ss)
    modifies These(head)`prev
    ensures Linked(head, Roots(ss)) && HoldsAll(ss) && SeparateAll(ss)
  {
    RootsDistinct(ss);
    RootsOwned(ss);
    if head != null {
      head.prev := last;
    }
  }

  /** A node without children becomes the parent of a finished list. */
  method Adopt(item: Node, head: Node?, last: Node?, ghost base: Shape, ghost kids: seq<Shape>) returns (ghost s: Shape)
    requires item == base.node && base.kids == [] && !base.isReference && Holds(base) && Separate(base)
    requires Built(head, last, kids) && OwnedAll(kids) !! Owned(base)
    modifies item`child, These(head)`prev
    ensures s == base.(kids := kids) && item.child == head && Holds(s) && Separate(s)
    ensures Owned(s) == Owned(base) + OwnedAll(kids)
  {
    RootsOwned(kids);
    CloseList(head, last, kids);
    item.child := head;
    s := base.(kids := kids);
  }

  /** A finished tree goes behind the last one. */
  method AttachTree(head: Node?, last: Node?, item: Node, ghost ss: seq<Shape>, ghost s: Shape, ghost live: set<object>)
    returns (head': Node?)
    requires Built(head, last, ss) && item == s.node && Holds(s) && Separate(s) && OwnedAll(ss) !! Owned(s)
    requires item.next == null && Owned(s) <= live
    modifies These(last)`next, item`prev
    ensures Built(head', item, ss + [s]) && OwnedAll(ss + [s]) == OwnedAll(ss) + Owned(s)
  {
    RootsOwned(ss);
    assert forall x :: x in Below(s) ==> x in Owned(s) && x != item;
    assert These(last) <= OwnedAll(ss);
    hide Built, Holds, Separate, OwnedAll;
    head' := Attach(head, last, item, ss);
    BuiltAppend(head', item, ss, s);
  }
}
