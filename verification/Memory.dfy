/** cJSON nodes on the heap, the allocator behind the hooks, and the shape of an owned tree. */
module Memory {
  import opened Bytes
  import opened Trees

  datatype Kind =
    InvalidKind | FalseKind | TrueKind | NullKind | NumberKind | StringKind | ArrayKind | ObjectKind | RawKind

  /** The cJSON structure. The two flag bits of `type` are fields of their own; `name` is the C
      field `string`. */
  class Node {
    var next: Node?
    var prev: Node?
    var child: Node?
    var kind: Kind
    var isReference: bool
    var constKey: bool
    var valuestring: array?<byte>
    var valuedouble: real
    var name: array?<byte>

    /** The zeroed node of `cJSON_New_Item`. */
    constructor ()
      ensures next == prev == child == null && kind == InvalidKind && !isReference && !constKey
      ensures valuestring == null && valuedouble == 0.0 && name == null
    {
      next, prev, child := null, null, null;
      kind, isReference, constKey := InvalidKind, false, false;
      valuestring, valuedouble, name := null, 0.0, null;
    }
  }

  /** `malloc` and `free`: any request may fail, and only a live block may be freed. */
  class Allocator {
    ghost var live: set<object>
    /** How many requests have been refused. */
    ghost var refusals: nat

    constructor ()
      ensures live == {} && refusals == 0
    {
      live, refusals := {}, 0;
    }

    /** `cJSON_New_Item` */
    method NewItem() returns (n: Node?)
      modifies this
      ensures n == null ==> refusals == old(refusals) + 1 && live == old(live)
      ensures n != null ==> fresh(n) && refusals == old(refusals) && live == old(live) + {n}
      ensures n != null ==> n.next == n.prev == n.child == null && n.kind == InvalidKind
      ensures n != null ==> !n.isReference && !n.constKey && n.valuestring == null && n.valuedouble == 0.0 && n.name == null
    {
      if * {
        n := new Node();
        live := live + {n};
      } else {
        n, refusals := null, refusals + 1;
      }
    }

    method Allocate(size: nat) returns (a: array?<byte>)
      modifies this
      ensures a == null ==> refusals == old(refusals) + 1 && live == old(live)
      ensures a != null ==> fresh(a) && a.Length == size && refusals == old(refusals) && live == old(live) + {a}
    {
      if * {
        a := new byte[size];
        live := live + {a};
      } else {
        a, refusals := null, refusals + 1;
      }
    }

    method Free(block: object)
      requires block in live
      modifies this
      ensures live == old(live) - {block} && refusals == old(refusals)
    {
      live := live - {block};
    }
  }

  // ---------- shapes ----------

  /** A tree of nodes: for each node the values of its fields, the C strings it points to and the
      nodes in its child list. The children of a reference and a constant name belong to someone
      else and are no part of the shape. */
  datatype Shape = Shape(
    node: Node, kind: Kind, isReference: bool, constKey: bool,
    value: array?<byte>, text: seq<byte>, name: array?<byte>, nameText: seq<byte>,
    d: real, kids: seq<Shape>)

  function One(a: array?<byte>): set<object> { if a == null then {} else {a} }

  /** The blocks a tree owns: its nodes, values and names. */
  function Owned(s: Shape): (blocks: set<object>)
    decreases s, 1
  {
    {s.node} + Below(s)
  }

  /** The same without the root node. */
  function Below(s: Shape): set<object>
    decreases s, 0
  {
    (if s.isReference then {} else One(s.value)) + (if s.constKey then {} else One(s.name)) + OwnedAll(s.kids)
  }

  function OwnedAll(ss: seq<Shape>): set<object>
    decreases ss, 2
  {
    if ss == [] then {} else Owned(ss[0]) + OwnedAll(ss[1..])
  }

  function BelowAll(ss: seq<Shape>): set<object>
    decreases ss, 2
  {
    if ss == [] then {} else Below(ss[0]) + BelowAll(ss[1..])
  }

  /** The nodes at the top of a list of trees. */
  function Roots(ss: seq<Shape>): (ns: seq<Node>)
    ensures |ns| == |ss|
    ensures forall i :: 0 <= i < |ss| ==> ns[i] == ss[i].node
  {
    seq(|ss|, i requires 0 <= i < |ss| => ss[i].node)
  }

  /** No block is owned twice. */
  predicate Separate(s: Shape)
    decreases s, 1
  {
    && s.node !in Below(s)
    && (s.isReference || One(s.value) !! OwnedAll(s.kids))
    && (s.constKey || One(s.name) !! OwnedAll(s.kids))
    && (s.isReference || s.constKey || One(s.value) !! One(s.name))
    && (s.isReference ==> s.kids == [])
    && SeparateAll(s.kids)
  }

  predicate SeparateAll(ss: seq<Shape>)
    decreases ss, 0
  {
    ss == [] || (Separate(ss[0]) && Owned(ss[0]) !! OwnedAll(ss[1..]) && SeparateAll(ss[1..]))
  }

  /** The C string a block holds. */
  predicate HoldsText(a: array<byte>, text: seq<byte>)
    reads a
  {
    |text| < a.Length && NulFree(text) && a[|text|] == 0 && a[..|text|] == text
  }

  lemma TextAt(a: array<byte>, s: seq<byte>, p: nat)
    requires HoldsText(a, s) && p <= |s|
    ensures |s| < a.Length && a[p] == (if p < |s| then s[p] else 0) && (a[p] == 0 <==> p == |s|)
  {
    assert p < |s| ==> a[..|s|][p] == a[p];
  }

  /** `strlen` */
  method StringLength(a: array<byte>, ghost s: seq<byte>) returns (n: nat)
    requires HoldsText(a, s)
    ensures n == |s| && n < a.Length && a[..n] == s
  {
    n := 0;
    TextAt(a, s, 0);
    while a[n] != 0
      invariant 0 <= n <= |s| && (a[n] == 0 <==> n == |s|)
      decreases |s| - n
    {
      n := n + 1;
      TextAt(a, s, n);
    }
  }

  /** `next` leads from `first` through `ns` to NULL. */
  predicate Chain(first: Node?, ns: seq<Node>)
    reads ns`next
  {
    if ns == [] then first == null
    else first == ns[0] && ns[|ns| - 1].next == null && forall i :: 0 <= i < |ns| - 1 ==> ns[i].next == ns[i + 1]
  }

  /** The list hanging at `first`: `next` leads through `ns` to NULL, `prev` leads back, and the
      head's `prev` is the last node. */
  predicate Linked(first: Node?, ns: seq<Node>)
    reads ns`next, ns`prev
  {
    && Chain(first, ns)
    && (ns != [] ==> ns[0].prev == ns[|ns| - 1])
    && forall i :: 0 < i < |ns| ==> ns[i].prev == ns[i - 1]
  }

  /** The fields of one node but for its links to siblings. */
  ghost predicate Body(s: Shape)
    reads s.node`kind, s.node`isReference, s.node`constKey, s.node`valuestring, s.node`valuedouble, s.node`name
    reads Below(s)
  {
    && s.node.kind == s.kind && s.node.isReference == s.isReference && s.node.constKey == s.constKey
    && s.node.name == s.name && s.node.valuedouble == s.d
    && (s.constKey || (if s.name == null then s.nameText == [] else HoldsText(s.name, s.nameText)))
    && (s.isReference || (s.node.valuestring == s.value && if s.value == null then s.text == [] else HoldsText(s.value, s.text)))
  }

  /** The heap holds the tree, whatever list its root is in. */
  ghost predicate Holds(s: Shape)
    reads s.node`kind, s.node`isReference, s.node`constKey, s.node`valuestring, s.node`valuedouble, s.node`name
    reads s.node`child, Below(s)
    decreases s, 1
  {
    && Body(s)
    && (s.isReference || (RootsOwned(s.kids); Linked(s.node.child, Roots(s.kids)) && HoldsAll(s.kids)))
  }

  ghost predicate HoldsAll(ss: seq<Shape>)
    reads Roots(ss)`kind, Roots(ss)`isReference, Roots(ss)`constKey, Roots(ss)`valuestring
    reads Roots(ss)`valuedouble, Roots(ss)`name, Roots(ss)`child, BelowAll(ss)
    decreases ss, 0
  {
    ss == [] || (RootsTail(ss); Holds(ss[0]) && HoldsAll(ss[1..]))
  }

  /** A tree as the parser builds it: no node is a reference to somebody else's children, no name
      is constant, and only containers have children. */
  predicate Whole(s: Shape)
    decreases s
  {
    && !s.isReference && !s.constKey
    && (s.kind == ArrayKind || s.kind == ObjectKind || s.kids == [])
    && forall i :: 0 <= i < |s.kids| ==> Whole(s.kids[i])
  }

  predicate AllWhole(ss: seq<Shape>) { forall i :: 0 <= i < |ss| ==> Whole(ss[i]) }

  lemma RootsTail(ss: seq<Shape>)
    requires ss != []
    ensures Roots(ss) == [ss[0].node] + Roots(ss[1..])
    ensures Roots(ss)[0] == ss[0].node && forall i :: 0 <= i < |ss| - 1 ==> Roots(ss)[i + 1] == Roots(ss[1..])[i]
  {
  }

  /** The tree a shape stands for. */
  function TreeOf(s: Shape): Json
    decreases s, 1
  {
    match s.kind
    case InvalidKind => Invalid
    case FalseKind => False
    case TrueKind => True
    case NullKind => Null
    case NumberKind => Number(s.d)
    case StringKind => String(s.text)
    case RawKind => if s.value == null then Invalid else Raw(s.text)
    case ArrayKind => Array(ItemsOf(s.kids))
    case ObjectKind => Object(MembersOf(s.kids))
  }

  function ItemsOf(ss: seq<Shape>): (r: seq<Json>)
    ensures |r| == |ss|
    decreases ss, 0
  {
    seq(|ss|, i requires 0 <= i < |ss| => TreeOf(ss[i]))
  }

  function MembersOf(ss: seq<Shape>): (r: seq<Member>)
    ensures |r| == |ss|
    decreases ss, 0
  {
    seq(|ss|, i requires 0 <= i < |ss| => Member(ss[i].nameText, TreeOf(ss[i])))
  }

  lemma {:induction false} OwnedAppend(ss: seq<Shape>, s: Shape)
    ensures OwnedAll(ss + [s]) == OwnedAll(ss) + Owned(s)
    decreases |ss|
  {
    if ss == [] {
      assert [s][1..] == [] && ss + [s] == [s];
    } else {
      assert (ss + [s])[1..] == ss[1..] + [s];
      OwnedAppend(ss[1..], s);
    }
  }

  lemma {:induction false} SeparateAppend(ss: seq<Shape>, s: Shape)
    requires SeparateAll(ss) && Separate(s) && OwnedAll(ss) !! Owned(s)
    ensures SeparateAll(ss + [s])
    decreases |ss|
  {
    if ss == [] {
      assert [s][1..] == [] && ss + [s] == [s];
    } else {
      assert (ss + [s])[1..] == ss[1..] + [s];
      SeparateAppend(ss[1..], s);
      OwnedAppend(ss[1..], s);
    }
  }

  lemma {:induction false} HoldsAppend(ss: seq<Shape>, s: Shape)
    requires HoldsAll(ss) && Holds(s)
    ensures HoldsAll(ss + [s])
    decreases |ss|
  {
    if ss == [] {
      assert [s][1..] == [] && ss + [s] == [s];
    } else {
      assert (ss + [s])[1..] == ss[1..] + [s];
      HoldsAppend(ss[1..], s);
    }
  }

  lemma {:induction false} RootsOwned(ss: seq<Shape>)
    ensures forall i :: 0 <= i < |ss| ==> Roots(ss)[i] in OwnedAll(ss)
    ensures BelowAll(ss) <= OwnedAll(ss)
    decreases |ss|
  {
    if ss != [] {
      RootsOwned(ss[1..]);
      forall i | 0 <= i < |ss| ensures Roots(ss)[i] in OwnedAll(ss) {
        if i > 0 {
          assert Roots(ss[1..])[i - 1] == ss[1..][i - 1].node == ss[i].node;
        }
      }
    }
  }
}
