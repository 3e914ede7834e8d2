/** `cJSON_Compare`, `get_object_item` and the string comparisons on nodes. */
module Comparing {
  import opened Bytes
  import opened Memory
  import opened Forms
  import opened Comparison

  function Folded(b: byte, sensitive: bool): byte { if sensitive then b else ToLower(b) }

  /** `strcmp` or `case_insensitive_strcmp`: zero on equal strings; NULL is equal to nothing. */
  method Strcmp(a: array?<byte>, b: array?<byte>, sensitive: bool, ghost s: Text, ghost t: Text, ghost blocks: set<object>)
    returns (order: int)
    requires ReadsText(a, s, blocks) && ReadsText(b, t, blocks)
    ensures order == 0 <==> s.Text? && t.Text? && SameName(s.bytes, t.bytes, sensitive)
    ensures order == 0 <==> s.Text? && t.Text? && Fold(s.bytes, sensitive) == Fold(t.bytes, sensitive)
  {
    if a == null || b == null {
      return 1;
    }
    ghost var x, y := s.bytes, t.bytes;
    FoldAgrees(x, y, sensitive);
    if a == b {
      ReadsTextOnce(a, s, t, blocks);
      return 0;
    }
    var i := 0;
    TextAt(a, x, 0);
    TextAt(b, y, 0);
    while Folded(a[i], sensitive) == Folded(b[i], sensitive)
      invariant i <= |x| < a.Length && i <= |y| < b.Length
      invariant forall k :: 0 <= k < i ==> Folded(x[k], sensitive) == Folded(y[k], sensitive)
      invariant a[i] == (if i < |x| then x[i] else 0) && b[i] == (if i < |y| then y[i] else 0)
      invariant (a[i] == 0 <==> i == |x|) && (b[i] == 0 <==> i == |y|)
      decreases |x| - i
    {
      if a[i] == 0 {
        FoldIsFolded(x, y, sensitive);
        return 0;
      }
      i := i + 1;
      TextAt(a, x, i);
      TextAt(b, y, i);
    }
    order := Folded(a[i], sensitive) as int - Folded(b[i], sensitive) as int;
    FoldIsFolded(x, y, sensitive);
  }

  lemma FoldIsFolded(x: seq<byte>, y: seq<byte>, sensitive: bool)
    ensures Fold(x, sensitive) == Fold(y, sensitive) <==>
              |x| == |y| && forall k :: 0 <= k < |x| ==> Folded(x[k], sensitive) == Folded(y[k], sensitive)
  {
    var u, v := Fold(x, sensitive), Fold(y, sensitive);
    assert forall k :: 0 <= k < |x| ==> u[k] == Folded(x[k], sensitive);
    assert forall k :: 0 <= k < |y| ==> v[k] == Folded(y[k], sensitive);
  }

  /** `get_object_item`; `parent` is its `object`. */
  method GetObjectItem(
    parent: Node?, name: array?<byte>, sensitive: bool, ghost fs: seq<Form>, ghost t: Text, ghost blocks: set<object>)
    returns (item: Node?, ghost k: int)
    requires parent != null ==> parent in blocks && ReadsAll(parent.child, fs, blocks)
    requires ReadsText(name, t, blocks)
    ensures parent == null ==> item == null
    ensures parent != null ==> k == Find(fs, 0, t, sensitive) && (item == null <==> k == -1)
    ensures parent != null ==>
              if k == -1 then forall j :: !FirstNamed(fs, t, sensitive, j) else FirstNamed(fs, t, sensitive, k)
    ensures item != null ==> 0 <= k < |fs| && item == fs[k].node && Reads(item, fs[k], blocks)
  {
    FindFrom(fs, 0, t, sensitive);
    k := -1;
    if parent == null || name == null {
      return null, -1;
    }
    var current := parent.child;
    ghost var i := 0;
    while current != null
      invariant i <= |fs| && ReadsAll(current, fs[i..], blocks)
      invariant Find(fs, 0, t, sensitive) == Find(fs, i, t, sensitive)
      decreases |fs| - i
    {
      ReadsHead(current, fs[i..], blocks);
      assert fs[i..][0] == fs[i] && fs[i..][1..] == fs[i + 1..];
      if sensitive && current.name == null {
        return null, -1;
      }
      var order := Strcmp(name, current.name, sensitive, t, fs[i].name, blocks);
      if order == 0 {
        return current, i;
      }
      current, i := current.next, i + 1;
    }
    item := null;
    ReadsNone(fs[i..], blocks);
  }

  /** `cJSON_Compare` */
  method Compare(a: Node?, b: Node?, sensitive: bool, ghost f: Form, ghost g: Form, ghost blocks: set<object>)
    returns (same: bool)
    requires (a != null ==> Reads(a, f, blocks)) && (b != null ==> Reads(b, g, blocks))
    ensures same <==> a != null && b != null && Same(f, g, sensitive)
    decreases Depth(f) + Depth(g), 2
  {
    if a == null || b == null || a.kind != b.kind || a.kind == InvalidKind {
      return false;
    }
    if a == b {
      return true;
    }
    hide Depth, DepthAll, Covered;
    match a.kind
    case NumberKind =>
      same := CompareDouble(a.valuedouble, b.valuedouble);
    case StringKind =>
      same := SameValueString(a, b, f, g, blocks);
    case RawKind =>
      same := SameValueString(a, b, f, g, blocks);
    case ArrayKind =>
      same := CompareItems(a, b, sensitive, f, g, blocks);
    case ObjectKind =>
      same := CompareMembers(a, b, sensitive, f, g, blocks);
      if same {
        same := CompareMembers(b, a, sensitive, g, f, blocks);
      }
    case _ =>
      same := true;
  }

  method SameValueString(a: Node, b: Node, ghost f: Form, ghost g: Form, ghost blocks: set<object>) returns (same: bool)
    requires Reads(a, f, blocks) && Reads(b, g, blocks)
    ensures same <==> f.text.Text? && f.text == g.text
  {
    if a.valuestring == null || b.valuestring == null {
      return false;
    }
    var order := Strcmp(a.valuestring, b.valuestring, true, f.text, g.text, blocks);
    same := order == 0;
  }

  /** The two arrays side by side. */
  method CompareItems(a: Node, b: Node, sensitive: bool, ghost f: Form, ghost g: Form, ghost blocks: set<object>)
    returns (same: bool)
    requires Reads(a, f, blocks) && Reads(b, g, blocks)
    ensures same <==> |f.kids| == |g.kids| && forall i :: 0 <= i < |f.kids| ==> Same(f.kids[i], g.kids[i], sensitive)
    decreases Depth(f) + Depth(g), 1
  {
    assert ReadsAll(a.child, f.kids, blocks) && ReadsAll(b.child, g.kids, blocks);
    hide Same, Reads;
    var x, y := a.child, b.child;
    ghost var fs, gs, i := f.kids, g.kids, 0;
    assert fs[0..] == fs && gs[0..] == gs;
    while x != null && y != null
      invariant i <= |fs| && i <= |gs| && ReadsAll(x, fs[i..], blocks) && ReadsAll(y, gs[i..], blocks)
      invariant forall k :: 0 <= k < i ==> Same(fs[k], gs[k], sensitive)
      decreases |fs| - i
    {
      ReadsHead(x, fs[i..], blocks);
      ReadsHead(y, gs[i..], blocks);
      assert fs[i..][0] == fs[i] && fs[i..][1..] == fs[i + 1..];
      assert gs[i..][0] == gs[i] && gs[i..][1..] == gs[i + 1..];
      KidDepth(fs, i);
      KidDepth(gs, i);
      same := Compare(x, y, sensitive, fs[i], gs[i], blocks);
      if !same {
        return;
      }
      x, y, i := x.next, y.next, i + 1;
    }
    same := x == y;
  }

  /** One of the two loops over objects: every member of `a` has an equal one in `b`. */
  method CompareMembers(a: Node, b: Node, sensitive: bool, ghost f: Form, ghost g: Form, ghost blocks: set<object>)
    returns (same: bool)
    requires Reads(a, f, blocks) && Reads(b, g, blocks)
    ensures same <==> Covered(f.kids, g.kids, sensitive)
    decreases Depth(f) + Depth(g), 1
  {
    hide Same, Find, FirstNamed, ReadsText;
    var x := a.child;
    ghost var fs, gs, i := f.kids, g.kids, 0;
    assert fs[0..] == fs;
    assert ReadsAll(b.child, gs, blocks);
    while x != null
      invariant i <= |fs| && ReadsAll(x, fs[i..], blocks)
      invariant forall k :: 0 <= k < i ==>
                  var j := Find(gs, 0, fs[k].name, sensitive); j >= 0 && Same(fs[k], gs[j], sensitive)
      decreases |fs| - i
    {
      ReadsHead(x, fs[i..], blocks);
      assert fs[i..][0] == fs[i] && fs[i..][1..] == fs[i + 1..];
      var y;
      ghost var j;
      y, j := GetObjectItem(b, x.name, sensitive, gs, fs[i].name, blocks);
      if y == null {
        return false;
      }
      KidDepth(fs, i);
      KidDepth(gs, j);
      same := Compare(x, y, sensitive, fs[i], gs[j], blocks);
      if !same {
        return;
      }
      x, i := x.next, i + 1;
    }
    ReadsNone(fs[i..], blocks);
    same := true;
  }
}
