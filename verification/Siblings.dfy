/** The child list of a node: what the pointer operations do to the sequence of children. */
module Siblings {
  import opened Memory

  predicate Distinct(ns: seq<Node>) {
    forall i, j :: 0 <= i < j < |ns| ==> ns[i] != ns[j]
  }

  /** The children of `parent`, in order. */
  ghost predicate Children(parent: Node, ns: seq<Node>)
    reads parent`child, ns`next, ns`prev
  {
    Linked(parent.child, ns) && Distinct(ns)
  }

  function These(n: Node?): set<Node> { if n == null then {} else {n} }

  function Insert(ns: seq<Node>, i: nat, n: Node): (r: seq<Node>)
    requires i <= |ns|
    ensures |r| == |ns| + 1
  {
    ns[..i] + [n] + ns[i..]
  }

  lemma Inserted(ns: seq<Node>, i: nat, n: Node)
    requires i <= |ns|
    ensures var r := Insert(ns, i, n);
            && |r| == |ns| + 1 && r[i] == n
            && (forall j :: 0 <= j < i ==> r[j] == ns[j])
            && (forall j :: i < j < |r| ==> r[j] == ns[j - 1])
  {
  }

  function Remove(ns: seq<Node>, i: nat): (r: seq<Node>)
    requires i < |ns|
    ensures |r| == |ns| - 1
    ensures forall j :: 0 <= j < |r| ==> r[j] == if j < i then ns[j] else ns[j + 1]
  {
    ns[..i] + ns[i + 1..]
  }

  /** `get_array_item`: the walk along `next`. */
  method GetArrayItem(list: Node?, index: nat, ghost ns: seq<Node>) returns (item: Node?)
    requires list != null ==> Children(list, ns)
    ensures list == null ==> item == null
    ensures list != null ==> item == if index < |ns| then ns[index] else null
  {
    if list == null {
      return null;
    }
    item := list.child;
    var left: nat := index;
    ghost var i := 0;
    while item != null && left > 0
      invariant i + left == index && i <= |ns|
      invariant item == if i < |ns| then ns[i] else null
    {
      left := left - 1;
      item := item.next;
      i := i + 1;
    }
  }

  /** `add_item_to_array` with an item that is no child yet; behind other children its `next` must
      be NULL, for it is not cleared there. */
  method AddItemToArray(list: Node?, item: Node?, ghost ns: seq<Node>) returns (ok: bool)
    requires list != null ==> Children(list, ns)
    requires list != null && item != null ==> item !in ns && (ns != [] ==> item.next == null)
    modifies These(list)`child, These(item)`next, These(item)`prev, ns`next, ns`prev
    ensures ok <==> list != null && item != null && list != item
    ensures ok ==> Children(list, ns + [item])
    ensures !ok ==> (list != null ==> Children(list, ns)) && (item != null ==> unchanged(item))
  {
    if item == null || list == null || list == item {
      return false;
    }
    var child := list.child;
    if child == null {
      list.child := item;
      item.prev := item;
      item.next := null;
    } else if child.prev != null {
      // suffix_object
      var last := child.prev;
      last.next := item;
      item.prev := last;
      list.child.prev := item;
    }
    ok := true;
  }

  /** `cJSON_InsertItemInArray` with an item that is no child yet: in front of the child at `which`,
      or at the end when there is none. */
  method InsertItemInArray(list: Node?, which: int, newitem: Node?, ghost ns: seq<Node>) returns (ok: bool)
    requires list != null ==> Children(list, ns)
    requires list != null && newitem != null ==> newitem !in ns && (ns != [] && which >= |ns| ==> newitem.next == null)
    modifies These(list)`child, These(newitem)`next, These(newitem)`prev, ns`next, ns`prev
    ensures ok <==> which >= 0 && list != null && newitem != null && (list != newitem || which < |ns|)
    ensures ok ==> Children(list, Insert(ns, if which < |ns| then which else |ns|, newitem))
    ensures !ok ==> (list != null ==> Children(list, ns)) && (newitem != null ==> unchanged(newitem))
  {
    if which < 0 || newitem == null {
      return false;
    }
    var after := GetArrayItem(list, which, ns);
    if after == null {
      ok := AddItemToArray(list, newitem, ns);
      assert ns + [newitem] == ns[..|ns|] + [newitem] + ns[|ns|..];
      return;
    }
    assert which > 0 ==> after.prev == ns[which - 1];
    if after != list.child && after.prev == null {
      return false;
    }
    LinkBefore(list, after, newitem, ns, which);
    ok := true;
  }

  /** The relinking of `cJSON_InsertItemInArray`. */
  method LinkBefore(list: Node, after: Node, newitem: Node, ghost ns: seq<Node>, ghost i: nat)
    requires Children(list, ns) && newitem !in ns && i < |ns| && ns[i] == after
    modifies list`child, newitem`next, newitem`prev, ns`next, ns`prev
    ensures Children(list, Insert(ns, i, newitem))
  {
    hide Insert;
    assert i > 0 ==> after.prev == ns[i - 1];
    newitem.next := after;
    newitem.prev := after.prev;
    after.prev := newitem;
    if after == list.child {
      list.child := newitem;
    } else {
      newitem.prev.next := newitem;
    }
    ghost var m := Insert(ns, i, newitem);
    Inserted(ns, i, newitem);
    assert m[i + 1] == after && (i > 0 ==> m[i - 1] == ns[i - 1]);
    assert forall j :: 0 <= j < |m| - 1 ==> m[j].next == m[j + 1];
    assert forall j :: 0 < j < |m| ==> m[j].prev == m[j - 1];
  }

  /** `cJSON_DetachItemViaPointer` on a child of the list; an item that is in no list is refused. */
  method DetachItemViaPointer(parent: Node?, item: Node?, ghost ns: seq<Node>, ghost k: nat) returns (detached: Node?)
    requires parent != null ==> Children(parent, ns)
    requires parent != null && item != null ==> (k < |ns| && ns[k] == item) || (item !in ns && item.prev == null)
    modifies These(parent)`child, ns`next, ns`prev
    ensures detached == null <==> parent == null || item == null || item !in ns
    ensures detached == null && parent != null ==> Children(parent, ns)
    ensures detached != null ==>
              && detached == item && Children(parent, Remove(ns, k))
              && item.next == null && item.prev == null
  {
    if parent == null || item == null {
      return null;
    }
    assert item in ns ==> k < |ns| && ns[k] == item && (k == 0 || item.prev == ns[k - 1]);
    if item != parent.child && item.prev == null {
      return null;
    }
    Unlink(parent, item, ns, k);
    detached := item;
  }

  /** The relinking of `cJSON_DetachItemViaPointer`. */
  method Unlink(parent: Node, item: Node, ghost ns: seq<Node>, ghost k: nat)
    requires Children(parent, ns) && k < |ns| && ns[k] == item
    modifies parent`child, ns`next, ns`prev
    ensures Children(parent, Remove(ns, k))
    ensures item.next == null && item.prev == null
  {
    assert k > 0 ==> item.prev == ns[k - 1] && ns[k - 1].next == item;
    assert k < |ns| - 1 ==> item.next == ns[k + 1];
    if item != parent.child {
      item.prev.next := item.next;
    }
    if item.next != null {
      item.next.prev := item.prev;
    }
    if item == parent.child {
      parent.child := item.next;
    } else if item.next == null {
      parent.child.prev := item.prev;
    }
    item.prev := null;
    item.next := null;
    Removed(ns, k);
    ghost var m := Remove(ns, k);
    hide Remove;
    assert forall j :: 0 <= j < |m| - 1 ==> m[j].next == m[j + 1];
    assert forall j :: 0 < j < |m| ==> m[j].prev == m[j - 1];
  }

  lemma Removed(ns: seq<Node>, k: nat)
    requires k < |ns|
    ensures var m := Remove(ns, k);
            && |m| == |ns| - 1
            && (forall j :: 0 <= j < k ==> m[j] == ns[j]) && (forall j :: k <= j < |m| ==> m[j] == ns[j + 1])
            && (Distinct(ns) ==> Distinct(m))
  {
  }

  lemma Replaced(ns: seq<Node>, k: nat, n: Node)
    requires k < |ns| && Distinct(ns) && n !in ns
    ensures var m := ns[k := n];
            && |m| == |ns| && m[k] == n && (forall j :: 0 <= j < |m| && j != k ==> m[j] == ns[j])
            && Distinct(m)
  {
  }

  /** `cJSON_ReplaceItemViaPointer` up to the deletion of the replaced child, which is left
      detached. */
  method RelinkReplacement(parent: Node, item: Node, replacement: Node, ghost ns: seq<Node>, ghost k: nat)
    requires Children(parent, ns) && k < |ns| && ns[k] == item && replacement !in ns
    modifies parent`child, replacement`next, replacement`prev, ns`next, ns`prev
    ensures Children(parent, ns[k := replacement])
    ensures item.next == null && item.prev == null
  {
    Replaced(ns, k, replacement);
    assert k > 0 ==> item.prev == ns[k - 1];
    assert k < |ns| - 1 ==> item.next == ns[k + 1];
    replacement.next := item.next;
    replacement.prev := item.prev;
    if replacement.next != null {
      replacement.next.prev := replacement;
    }
    if parent.child == item {
      if parent.child.prev == parent.child {
        replacement.prev := replacement;
      }
      parent.child := replacement;
    } else {
      if replacement.prev != null {
        replacement.prev.next := replacement;
      }
      if replacement.next == null {
        parent.child.prev := replacement;
      }
    }
    item.next := null;
    item.prev := null;
  }

  // ---------- runs ----------

  datatype Edit = Append(n: Node) | InsertAt(which: nat, n: Node) | DetachAt(which: nat) | ReplaceAt(which: nat, n: Node)

  function Brings(edit: Edit): set<Node> { if edit.DetachAt? then {} else {edit.n} }

  /** The node that an edit sets free: a child that is detached. */
  function Gives(ns: seq<Node>, edit: Edit): set<Node> {
    if edit.DetachAt? && edit.which < |ns| then {ns[edit.which]} else {}
  }

  /** Every node that is brought in is free by then: from the start, or because it has been
      detached. */
  predicate Allowed(ns: seq<Node>, free: set<Node>, edits: seq<Edit>)
    decreases |edits|
  {
    edits == []
    || (Brings(edits[0]) <= free
        && Allowed(Apply(ns, edits[0]), free - Brings(edits[0]) + Gives(ns, edits[0]), edits[1..]))
  }

  /** The effect on the sequence of children; detaching or replacing a child that is not there
      has none. */
  function Apply(ns: seq<Node>, edit: Edit): seq<Node> {
    match edit
    case Append(n) => ns + [n]
    case InsertAt(which, n) => Insert(ns, if which < |ns| then which else |ns|, n)
    case DetachAt(which) => if which < |ns| then Remove(ns, which) else ns
    case ReplaceAt(which, n) => if which < |ns| then ns[which := n] else ns
  }

  function ApplyAll(ns: seq<Node>, edits: seq<Edit>): seq<Node>
    decreases |edits|
  {
    if edits == [] then ns else ApplyAll(Apply(ns, edits[0]), edits[1..])
  }

  lemma AppliedNodes(ns: seq<Node>, edit: Edit)
    ensures forall n :: n in Apply(ns, edit) ==> n in ns || n in Brings(edit)
    ensures Distinct(ns) ==> forall n :: n in Gives(ns, edit) ==> n in ns && n !in Apply(ns, edit)
  {
  }

  /** A child may be moved within its list. */
  lemma MoveAllowed(ns: seq<Node>, i: nat, j: nat)
    requires i < |ns|
    ensures Allowed(ns, {}, [DetachAt(i), InsertAt(j, ns[i])])
    ensures j < |ns| ==> ApplyAll(ns, [DetachAt(i), InsertAt(j, ns[i])]) == Insert(Remove(ns, i), j, ns[i])
  {
    var edits := [DetachAt(i), InsertAt(j, ns[i])];
    assert edits[1..] == [InsertAt(j, ns[i])] && edits[1..][1..] == [];
    assert Allowed(Remove(ns, i), {ns[i]}, edits[1..]);
    assert ApplyAll(Remove(ns, i), edits[1..]) == Apply(Remove(ns, i), edits[1]);
  }

  method ApplyEdit(parent: Node, edit: Edit, ghost ns: seq<Node>)
    requires Children(parent, ns) && parent !in ns
    requires forall n :: n in Brings(edit) ==> n !in ns && n != parent && n.next == null
    modifies parent`child, Brings(edit)`next, Brings(edit)`prev, ns`next, ns`prev
    ensures Children(parent, Apply(ns, edit))
    ensures forall n :: n in Gives(ns, edit) ==> n.next == null && n !in Apply(ns, edit)
  {
    AppliedNodes(ns, edit);
    match edit {
      case Append(n) =>
        assert n in Brings(edit);
        var ok := AddItemToArray(parent, n, ns);
      case InsertAt(which, n) =>
        assert n in Brings(edit);
        var ok := InsertItemInArray(parent, which, n, ns);
      case DetachAt(which) =>
        var item := GetArrayItem(parent, which, ns);
        var detached := DetachItemViaPointer(parent, item, ns, which);
      case ReplaceAt(which, n) =>
        assert n in Brings(edit);
        var item := GetArrayItem(parent, which, ns);
        if item != null {
          RelinkReplacement(parent, item, n, ns, which);
        }
    }
  }

  /** Any run of edits that bring in free nodes, those detached on the way included: the links stay
      sound and the children are those of the same run on a plain sequence. */
  method Run(parent: Node, edits: seq<Edit>, ghost ns: seq<Node>, ghost free: set<Node>)
    requires Children(parent, ns) && parent !in ns
    requires Allowed(ns, free, edits) && parent !in free
    requires forall n :: n in free ==> n !in ns && n.next == null
    modifies parent`child, free`next, free`prev, ns`next, ns`prev
    ensures Children(parent, ApplyAll(ns, edits))
    decreases |edits|
  {
    if edits != [] {
      ghost var free' := free - Brings(edits[0]) + Gives(ns, edits[0]);
      AppliedNodes(ns, edits[0]);
      ApplyEdit(parent, edits[0], ns);
      Run(parent, edits[1..], Apply(ns, edits[0]), free');
    }
  }
}
