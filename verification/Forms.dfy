/** The form of a node and of what hangs below it: all that the source reads of a tree when it
    copies or compares it, whoever owns the nodes. */
module Forms {
  import opened Bytes
  import opened Trees
  import opened Memory
  import opened Ownership
  import opened Views

  datatype Text = NoText | Text(bytes: seq<byte>)

  /** A node, its flags but for `cJSON_IsReference`, its number and its texts, the block that holds
      its name, and its children. */
  datatype Form = Form(
    node: Node, kind: Kind, constKey: bool, text: Text, nameAt: array?<byte>, name: Text, d: real, kids: seq<Form>)

  /** How many levels there are below the node. */
  function Depth(f: Form): nat
    decreases f
  {
    DepthAll(f.kids)
  }

  function DepthAll(fs: seq<Form>): nat
    decreases fs
  {
    if fs == [] then 0 else Max(1 + Depth(fs[0]), DepthAll(fs[1..]))
  }

  // ---------- reading the original ----------

  ghost predicate ReadsText(a: array?<byte>, t: Text, blocks: set<object>)
    reads blocks
  {
    match t
    case NoText => a == null
    case Text(bytes) => a != null && a in blocks && HoldsText(a, bytes)
  }

  /** The node and what hangs below it have the form, whoever owns them. */
  ghost predicate Reads(n: Node, f: Form, blocks: set<object>)
    reads blocks
    decreases f, 1
  {
    && n in blocks && f.node == n && n.kind == f.kind && n.constKey == f.constKey && n.valuedouble == f.d
    && ReadsText(n.valuestring, f.text, blocks) && n.name == f.nameAt && ReadsText(n.name, f.name, blocks)
    && ReadsAll(n.child, f.kids, blocks)
  }

  ghost predicate ReadsAll(first: Node?, fs: seq<Form>, blocks: set<object>)
    reads blocks
    decreases fs, 0
  {
    if fs == [] then first == null
    else first != null && Reads(first, fs[0], blocks) && ReadsAll(first.next, fs[1..], blocks)
  }

  lemma ReadsHead(first: Node, fs: seq<Form>, blocks: set<object>)
    requires ReadsAll(first, fs, blocks)
    ensures fs != [] && first in blocks && Reads(first, fs[0], blocks) && ReadsAll(first.next, fs[1..], blocks)
  {
  }

  lemma ReadsNone(fs: seq<Form>, blocks: set<object>)
    requires ReadsAll(null, fs, blocks)
    ensures fs == []
  {
  }

  lemma {:induction false} ReadsMore(n: Node, f: Form, blocks: set<object>, all: set<object>)
    requires Reads(n, f, blocks) && blocks <= all
    ensures Reads(n, f, all)
    decreases f, 1
  {
    ReadsAllMore(n.child, f.kids, blocks, all);
  }

  lemma {:induction false} ReadsAllMore(first: Node?, fs: seq<Form>, blocks: set<object>, all: set<object>)
    requires ReadsAll(first, fs, blocks) && blocks <= all
    ensures ReadsAll(first, fs, all)
    decreases fs, 0
  {
    if fs != [] {
      ReadsMore(first, fs[0], blocks, all);
      ReadsAllMore(first.next, fs[1..], blocks, all);
    }
  }

  // ---------- the tree that a form stands for ----------

  function BytesOf(t: Text): seq<byte> { if t.Text? then t.bytes else [] }

  /** The tree that a node of the form stands for. */
  function FormTree(f: Form): Json
    decreases f, 1
  {
    match f.kind
    case InvalidKind => Invalid
    case FalseKind => False
    case TrueKind => True
    case NullKind => Null
    case NumberKind => Number(f.d)
    case StringKind => String(BytesOf(f.text))
    case RawKind => if f.text == NoText then Invalid else Raw(BytesOf(f.text))
    case ArrayKind => Array(FormItems(f.kids))
    case ObjectKind => Object(FormMembers(f.kids))
  }

  function FormItems(fs: seq<Form>): (r: seq<Json>)
    ensures |r| == |fs|
    decreases fs, 0
  {
    seq(|fs|, i requires 0 <= i < |fs| => FormTree(fs[i]))
  }

  function FormMembers(fs: seq<Form>): (r: seq<Member>)
    ensures |r| == |fs|
    decreases fs, 0
  {
    seq(|fs|, i requires 0 <= i < |fs| => Member(BytesOf(fs[i].name), FormTree(fs[i])))
  }

  lemma {:induction false} ReadsShows(n: Node, f: Form, blocks: set<object>)
    requires Reads(n, f, blocks)
    ensures Shows(n, FormTree(f), blocks) && ShowsText(n.name, BytesOf(f.name), blocks)
    decreases f, 1
  {
    ReadsShowsAll(n.child, f.kids, blocks);
  }

  lemma {:induction false} ReadsShowsAll(first: Node?, fs: seq<Form>, blocks: set<object>)
    requires ReadsAll(first, fs, blocks)
    ensures ShowsItems(first, FormItems(fs), blocks) && ShowsMembers(first, FormMembers(fs), blocks)
    decreases fs, 0
  {
    if fs != [] {
      ReadsShows(first, fs[0], blocks);
      ReadsShowsAll(first.next, fs[1..], blocks);
      assert FormItems(fs)[1..] == FormItems(fs[1..]);
      assert FormMembers(fs)[1..] == FormMembers(fs[1..]);
    }
  }

  // ---------- the form of an owned tree ----------

  function TextOf(a: array?<byte>, text: seq<byte>): Text { if a == null then NoText else Text(text) }

  function FormOf(s: Shape): Form
    decreases s, 1
  {
    Form(s.node, s.kind, s.constKey, TextOf(s.value, s.text), s.name, TextOf(s.name, s.nameText), s.d, FormsOf(s.kids))
  }

  function FormsOf(ss: seq<Shape>): (fs: seq<Form>)
    ensures |fs| == |ss|
    decreases ss, 0
  {
    if ss == [] then [] else [FormOf(ss[0])] + FormsOf(ss[1..])
  }

  lemma {:induction false} HoldsReads(s: Shape, blocks: set<object>)
    requires Holds(s) && Whole(s) && Owned(s) <= blocks
    ensures Reads(s.node, FormOf(s), blocks)
    decreases s, 1
  {
    HoldsReadsAll(s.node.child, s.kids, blocks);
  }

  lemma {:induction false} HoldsReadsAll(first: Node?, ss: seq<Shape>, blocks: set<object>)
    requires Chain(first, Roots(ss)) && HoldsAll(ss) && OwnedAll(ss) <= blocks && AllWhole(ss)
    ensures ReadsAll(first, FormsOf(ss), blocks)
    decreases ss, 0
  {
    if ss != [] {
      HoldsReads(ss[0], blocks);
      ChainTail(first, ss);
      HoldsReadsAll(ss[0].node.next, ss[1..], blocks);
    }
  }

  /** A tree as the parser builds it is no deeper than its containers nest. */
  lemma {:induction false} DepthWithinHeight(s: Shape)
    requires Whole(s)
    ensures Depth(FormOf(s)) <= Height(TreeOf(s))
    decreases s, 1
  {
    DepthWithinHeights(s.kids);
  }

  lemma {:induction false} DepthWithinHeights(ss: seq<Shape>)
    requires AllWhole(ss)
    ensures DepthAll(FormsOf(ss)) <= 1 + ItemsHeight(ItemsOf(ss)) && DepthAll(FormsOf(ss)) <= 1 + MembersHeight(MembersOf(ss))
    ensures ss == [] ==> DepthAll(FormsOf(ss)) == 0
    decreases ss, 0
  {
    hide Depth, Height, TreeOf, FormOf, Whole;
    if ss != [] {
      DepthWithinHeight(ss[0]);
      DepthWithinHeights(ss[1..]);
      assert FormsOf(ss)[1..] == FormsOf(ss[1..]);
      assert ItemsOf(ss)[1..] == ItemsOf(ss[1..]);
      assert MembersOf(ss)[1..] == MembersOf(ss[1..]);
    }
  }
}
