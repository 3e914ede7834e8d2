/** Freeing trees: `cJSON_Delete`, and the operations that delete what they take out of a list. */
module Ownership {
  import opened Memory
  import opened Siblings

  lemma ChainTail(first: Node?, ss: seq<Shape>)
    requires Chain(first, Roots(ss)) && ss != []
    ensures Chain(ss[0].node.next, Roots(ss[1..]))
  {
    var ns, rest := Roots(ss), Roots(ss[1..]);
    assert forall i :: 0 <= i < |rest| ==> rest[i] == ns[i + 1];
  }

  /** `cJSON_Delete` on a chain of trees: every owned block is freed exactly once, since only live
      blocks can be freed; children of references and constant names stay. */
  method Delete(first: Node?, mem: Allocator, ghost ss: seq<Shape>)
    requires Chain(first, Roots(ss)) && HoldsAll(ss) && SeparateAll(ss)
    requires OwnedAll(ss) <= mem.live && mem !in OwnedAll(ss)
    modifies mem, OwnedAll(ss)
    ensures mem.live == old(mem.live) - OwnedAll(ss) && mem.refusals == old(mem.refusals)
    decreases ss, 1
  {
    var item := first;
    ghost var rest, others := ss, mem.live - OwnedAll(ss);
    assert Left(item, rest, mem, others);
    hide Left, Holds, HoldsAll, Separate, SeparateAll, OwnedAll, Owned, Chain, Roots;
    while item != null
      invariant |rest| <= |ss| && rest == ss[|ss| - |rest|..] && OwnedAll(rest) <= OwnedAll(ss)
      invariant Left(item, rest, mem, others) && mem.refusals == old(mem.refusals)
      decreases |rest|
    {
      LeftHead(item, rest, mem, others);
      item := DeleteHead(item, mem, rest, others);
      rest := rest[1..];
    }
    LeftNone(rest, mem, others);
  }

  /** One turn of the loop: the first tree of the chain goes. */
  method DeleteHead(item: Node, mem: Allocator, ghost ss: seq<Shape>, ghost others: set<object>) returns (next: Node?)
    requires Left(item, ss, mem, others) && ss != []
    modifies mem, Owned(ss[0])
    ensures Left(next, ss[1..], mem, others) && mem.refusals == old(mem.refusals)
    decreases ss, 0
  {
    hide Intact, Holds, HoldsAll, Separate, SeparateAll, OwnedAll, Owned, Chain, Roots;
    IntactHead(item, ss);
    FreedOne(others, Owned(ss[0]), OwnedAll(ss[1..]));
    next := item.next;
    DeleteNode(item, mem, ss[0]);
  }

  lemma FreedOne(others: set<object>, owned: set<object>, rest: set<object>)
    requires owned !! rest && others !! owned
    ensures (others + (owned + rest)) - owned == others + rest
  {
  }

  /** The trees still to be freed. */
  ghost predicate Intact(first: Node?, ss: seq<Shape>)
    reads OwnedAll(ss)
  {
    RootsOwned(ss);
    Chain(first, Roots(ss)) && HoldsAll(ss) && SeparateAll(ss)
  }

  /** The same with what is live besides them. */
  ghost predicate Left(first: Node?, ss: seq<Shape>, mem: Allocator, others: set<object>)
    reads OwnedAll(ss), mem`live
  {
    Intact(first, ss) && mem !in OwnedAll(ss) && others !! OwnedAll(ss) && mem.live == others + OwnedAll(ss)
  }

  lemma LeftHead(first: Node, ss: seq<Shape>, mem: Allocator, others: set<object>)
    requires Left(first, ss, mem, others)
    ensures ss != [] && Owned(ss[0]) <= OwnedAll(ss) && OwnedAll(ss[1..]) <= OwnedAll(ss)
  {
  }

  lemma LeftNone(ss: seq<Shape>, mem: Allocator, others: set<object>)
    requires Left(null, ss, mem, others)
    ensures mem.live == others
  {
  }

  lemma IntactHead(first: Node, ss: seq<Shape>)
    requires Intact(first, ss)
    ensures ss != [] && first == ss[0].node && Holds(ss[0]) && Separate(ss[0])
    ensures Intact(first.next, ss[1..])
    ensures Owned(ss[0]) !! OwnedAll(ss[1..]) && OwnedAll(ss) == Owned(ss[0]) + OwnedAll(ss[1..])
    ensures first in Owned(ss[0])
  {
    ChainTail(first, ss);
  }

  /** One node of the chain with everything below it. */
  method DeleteNode(item: Node, mem: Allocator, ghost s: Shape)
    requires item == s.node && Holds(s) && Separate(s)
    requires Owned(s) <= mem.live && mem !in Owned(s)
    modifies mem, Owned(s)
    ensures mem.live == old(mem.live) - Owned(s) && mem.refusals == old(mem.refusals)
    decreases s, 2
  {
    assert s.kids == [] ==> OwnedAll(s.kids) == {};
    if !item.isReference && item.child != null {
      RootsOwned(s.kids);
      Delete(item.child, mem, s.kids);
    }
    if !item.isReference && item.valuestring != null {
      mem.Free(item.valuestring);
      item.valuestring := null;
    }
    if !item.constKey && item.name != null {
      mem.Free(item.name);
      item.name := null;
    }
    mem.Free(item);
  }

  lemma Single(s: Shape)
    ensures [s][1..] == [] && OwnedAll([s]) == Owned(s) && Roots([s]) == [s.node]
    ensures Separate(s) ==> SeparateAll([s])
    ensures Holds(s) ==> HoldsAll([s])
  {
  }

  /** `cJSON_ReplaceItemViaPointer`: the replacement takes the place of the child, and the child
      with everything it owns is freed. */
  method ReplaceItemViaPointer(
    parent: Node?, item: Node?, replacement: Node?, mem: Allocator, ghost ns: seq<Node>, ghost k: nat, ghost s: Shape)
    returns (ok: bool)
    requires parent != null ==> Children(parent, ns)
    requires parent != null && item != null && ns != [] ==> k < |ns| && ns[k] == item
    requires replacement == item || replacement !in ns
    requires item != null ==> item == s.node && Holds(s) && Separate(s) && Owned(s) <= mem.live && mem !in Owned(s)
    requires item != null ==> parent !in Owned(s) && replacement !in Below(s) && forall n :: n in ns ==> n !in Below(s)
    modifies mem, These(parent)`child, These(replacement)`next, These(replacement)`prev, ns`next, ns`prev, Owned(s)
    ensures ok <==> parent != null && ns != [] && replacement != null && item != null
    ensures ok && replacement != item ==>
              Children(parent, ns[k := replacement]) && mem.live == old(mem.live) - Owned(s)
    ensures !ok || replacement == item ==>
              (parent != null ==> Children(parent, ns)) && (item != null ==> Holds(s)) && mem.live == old(mem.live)
  {
    hide Holds, Separate;
    if parent == null || parent.child == null || replacement == null || item == null {
      return false;
    }
    if replacement == item {
      return true;
    }
    RelinkReplacement(parent, item, replacement, ns, k);
    ghost var m := ns[k := replacement];
    assert Holds(s) && item.next == null;
    assert forall i :: 0 <= i < |m| ==> m[i] !in Owned(s) by {
      forall i | 0 <= i < |m| ensures m[i] !in Owned(s) {
        assert m[i] == replacement || m[i] == ns[i];
      }
    }
    Single(s);
    Delete(item, mem, [s]);
    ok := true;
  }
}
