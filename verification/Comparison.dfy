/** `cJSON_Compare` decides equality of trees: arrays as sequences, objects as maps. */
module Comparison {
  import opened Bytes
  import opened Trees
  import opened Memory
  import opened Forms

  // ---------- names and numbers ----------

  /** `tolower` in the C locale. */
  function ToLower(b: byte): byte { if 65 <= b <= 90 then b + 32 else b }

  /** What a comparison of names looks at. */
  function Fold(s: seq<byte>, sensitive: bool): (r: seq<byte>)
    ensures |r| == |s|
  {
    if sensitive then s else seq(|s|, i requires 0 <= i < |s| => ToLower(s[i]))
  }

  /** The same byte, or the two cases of one letter. */
  predicate SameLetter(a: byte, b: byte) {
    a == b || (65 <= a <= 90 && b == a + 32) || (65 <= b <= 90 && a == b + 32)
  }

  predicate SameName(s: seq<byte>, t: seq<byte>, sensitive: bool) {
    |s| == |t| && forall i :: 0 <= i < |s| ==> if sensitive then s[i] == t[i] else SameLetter(s[i], t[i])
  }

  lemma FoldAgrees(s: seq<byte>, t: seq<byte>, sensitive: bool)
    ensures Fold(s, sensitive) == Fold(t, sensitive) <==> SameName(s, t, sensitive)
  {
    var u, v := Fold(s, sensitive), Fold(t, sensitive);
    if u == v && !sensitive {
      forall i | 0 <= i < |s| ensures SameLetter(s[i], t[i]) {
        assert u[i] == ToLower(s[i]) && v[i] == ToLower(t[i]);
      }
    }
  }

  function Abs(x: real): real { if x < 0.0 then -x else x }

  /** The reciprocal of DBL_EPSILON */
  const EPSILON_INVERSE := 4503599627370496.0

  /** `compare_double` without rounding */
  predicate CompareDouble(a: real, b: real) {
    var most := if Abs(a) > Abs(b) then Abs(a) else Abs(b);
    Abs(a - b) * EPSILON_INVERSE <= most
  }

  function TwoTo(k: nat): nat { if k == 0 then 1 else 2 * TwoTo(k - 1) }

  /** Two numbers pass for equal if they differ by no more than DBL_EPSILON, the reciprocal of 2 to
      the 52nd power, times the larger one. */
  lemma Tolerance(a: real, b: real)
    ensures CompareDouble(a, b) <==> Abs(a - b) * TwoTo(52) as real <= Abs(a) || Abs(a - b) * TwoTo(52) as real <= Abs(b)
  {
    assert TwoTo(13) == 8192 && TwoTo(26) == 8192 * TwoTo(13);
    assert TwoTo(39) == 8192 * TwoTo(26) && TwoTo(52) == 8192 * TwoTo(39);
    hide TwoTo, Abs;
    assert TwoTo(52) as real == EPSILON_INVERSE;
  }

  /** On int32 numbers the tolerance is below one. */
  lemma CompareInts(a: real, b: real)
    requires IsInt32(a) && IsInt32(b)
    ensures CompareDouble(a, b) <==> a == b
  {
    var m, n := ValueInt(a), ValueInt(b);
    if m != n {
      assert Abs(a - b) >= 1.0 by {
        assert a - b == (m - n) as real;
      }
    }
  }

  // ---------- what the code computes ----------

  /** The index that `get_object_item` stops at from `k` on, or -1. A name that is NULL ends the
      case-sensitive search. */
  function Find(fs: seq<Form>, k: nat, name: Text, sensitive: bool): (i: int)
    requires k <= |fs|
    ensures i == -1 || (k <= i < |fs| && name.Text? && fs[i].name.Text?
                        && Fold(fs[i].name.bytes, sensitive) == Fold(name.bytes, sensitive))
    decreases |fs| - k
  {
    if name.NoText? || k == |fs| then -1
    else if fs[k].name.NoText? then if sensitive then -1 else Find(fs, k + 1, name, sensitive)
    else if Fold(fs[k].name.bytes, sensitive) == Fold(name.bytes, sensitive) then k
    else Find(fs, k + 1, name, sensitive)
  }

  predicate Named(f: Form, name: Text, sensitive: bool) {
    name.Text? && f.name.Text? && SameName(f.name.bytes, name.bytes, sensitive)
  }

  /** The first member of that name; a case-sensitive search does not get past a name that is NULL. */
  predicate FirstNamed(fs: seq<Form>, name: Text, sensitive: bool, i: int) {
    && 0 <= i < |fs| && Named(fs[i], name, sensitive)
    && forall j :: 0 <= j < i ==> !Named(fs[j], name, sensitive) && (sensitive ==> fs[j].name.Text?)
  }

  lemma {:induction false} FindFrom(fs: seq<Form>, k: nat, name: Text, sensitive: bool)
    requires k <= |fs|
    requires forall j :: 0 <= j < k ==> !Named(fs[j], name, sensitive) && (sensitive ==> fs[j].name.Text?)
    ensures var i := Find(fs, k, name, sensitive);
            if i == -1 then forall j :: !FirstNamed(fs, name, sensitive, j) else FirstNamed(fs, name, sensitive, i)
    decreases |fs| - k
  {
    hide Fold, SameName;
    if k < |fs| && name.Text? {
      if fs[k].name.Text? {
        FoldAgrees(fs[k].name.bytes, name.bytes, sensitive);
      }
      if !Named(fs[k], name, sensitive) && (sensitive ==> fs[k].name.Text?) {
        FindFrom(fs, k + 1, name, sensitive);
      }
    }
  }

  /** Every member of `fs` has an equal one in `gs`: one of the two loops over objects. */
  predicate Covered(fs: seq<Form>, gs: seq<Form>, sensitive: bool)
    decreases DepthAll(fs) + DepthAll(gs), 0
  {
    forall i :: 0 <= i < |fs| ==>
      var j := Find(gs, 0, fs[i].name, sensitive);
      j >= 0 && (KidDepth(fs, i); KidDepth(gs, j); Same(fs[i], gs[j], sensitive))
  }

  /** The answer of `cJSON_Compare`. */
  predicate Same(f: Form, g: Form, sensitive: bool)
    decreases Depth(f) + Depth(g), 1
  {
    f.kind == g.kind && f.kind != InvalidKind
    && (f.node == g.node
        || match f.kind
           case NumberKind => CompareDouble(f.d, g.d)
           case StringKind => f.text.Text? && f.text == g.text
           case RawKind => f.text.Text? && f.text == g.text
           case ArrayKind =>
             |f.kids| == |g.kids|
             && forall i :: 0 <= i < |f.kids| ==> (KidDepth(f.kids, i); KidDepth(g.kids, i); Same(f.kids[i], g.kids[i], sensitive))
           case ObjectKind => Covered(f.kids, g.kids, sensitive) && Covered(g.kids, f.kids, sensitive)
           case _ => true)
  }

  lemma {:induction false} KidDepth(fs: seq<Form>, i: nat)
    requires i < |fs|
    ensures Depth(fs[i]) < DepthAll(fs)
  {
    if i > 0 {
      KidDepth(fs[1..], i - 1);
    }
  }

  // ---------- what the answer means ----------

  /** A tree up to the order of members: objects are maps from folded names. */
  datatype Canon =
    | CNull
    | CFalse
    | CTrue
    | CNumber(d: real)
    | CString(s: seq<byte>)
    | CRaw(text: seq<byte>)
    | CArray(items: seq<Canon>)
    | CObject(members: map<seq<byte>, Canon>)
    | CInvalid

  function Key(f: Form, sensitive: bool): seq<byte> { Fold(BytesOf(f.name), sensitive) }

  function CanonOf(f: Form, sensitive: bool): Canon
    decreases f, 1
  {
    match f.kind
    case NullKind => CNull
    case FalseKind => CFalse
    case TrueKind => CTrue
    case NumberKind => CNumber(f.d)
    case StringKind => CString(BytesOf(f.text))
    case RawKind => CRaw(BytesOf(f.text))
    case ArrayKind => CArray(CanonItems(f.kids, sensitive))
    case ObjectKind => CObject(CanonMembers(f.kids, sensitive))
    case InvalidKind => CInvalid
  }

  function CanonItems(fs: seq<Form>, sensitive: bool): (r: seq<Canon>)
    ensures |r| == |fs|
    decreases fs, 0
  {
    seq(|fs|, i requires 0 <= i < |fs| => CanonOf(fs[i], sensitive))
  }

  function CanonMembers(fs: seq<Form>, sensitive: bool): map<seq<byte>, Canon>
    decreases fs, 0
  {
    if fs == [] then map[]
    else CanonMembers(fs[1..], sensitive)[Key(fs[0], sensitive) := CanonOf(fs[0], sensitive)]
  }

  /** Every member has a name, and every name one value, however often it is given. */
  predicate OneValue(fs: seq<Form>, sensitive: bool) {
    && (forall i :: 0 <= i < |fs| ==> fs[i].name.Text?)
    && forall i, j :: 0 <= i < j < |fs| && Key(fs[i], sensitive) == Key(fs[j], sensitive) ==>
         CanonOf(fs[i], sensitive) == CanonOf(fs[j], sensitive)
  }

  /** Every number that a comparison can come to is an int32. */
  predicate Int32Form(f: Form)
    decreases f
  {
    match f.kind
    case NumberKind => IsInt32(f.d)
    case ArrayKind => forall i :: 0 <= i < |f.kids| ==> Int32Form(f.kids[i])
    case ObjectKind => forall i :: 0 <= i < |f.kids| ==> Int32Form(f.kids[i])
    case _ => true
  }

  /** No type, text or name is missing, and in every object every name has one value. */
  predicate Consistent(f: Form, sensitive: bool)
    decreases f
  {
    match f.kind
    case InvalidKind => false
    case StringKind => f.text.Text?
    case RawKind => f.text.Text?
    case ArrayKind => forall i :: 0 <= i < |f.kids| ==> Consistent(f.kids[i], sensitive)
    case ObjectKind => OneValue(f.kids, sensitive) && forall i :: 0 <= i < |f.kids| ==> Consistent(f.kids[i], sensitive)
    case _ => true
  }

  // ---------- nodes in common ----------

  /** The forms that a comparison can come to. */
  function Parts(f: Form): set<Form>
    decreases f, 1
  {
    {f} + if f.kind == ArrayKind || f.kind == ObjectKind then PartsAll(f.kids) else {}
  }

  function PartsAll(fs: seq<Form>): set<Form>
    decreases fs, 0
  {
    if fs == [] then {} else Parts(fs[0]) + PartsAll(fs[1..])
  }

  /** No node below `f` is a node below `g`. */
  predicate Apart(f: Form, g: Form) {
    forall a, b :: a in Parts(f) && b in Parts(g) ==> a.node != b.node
  }

  /** Where the two have a node in common, they have it with one form, and a consistent one. */
  predicate Agree(f: Form, g: Form, sensitive: bool) {
    forall a, b :: a in Parts(f) && b in Parts(g) && a.node == b.node ==> a == b && Consistent(a, sensitive)
  }

  lemma {:induction false} PartsKid(fs: seq<Form>, i: nat)
    requires i < |fs|
    ensures Parts(fs[i]) <= PartsAll(fs)
  {
    if i > 0 {
      PartsKid(fs[1..], i - 1);
    }
  }

  lemma {:induction false} PartsRead(f: Form, a: Form, blocks: set<object>)
    requires Reads(f.node, f, blocks) && a in Parts(f)
    ensures Reads(a.node, a, blocks)
    decreases f, 1
  {
    if a != f {
      PartsReadAll(f.node.child, f.kids, a, blocks);
    }
  }

  lemma {:induction false} PartsReadAll(first: Node?, fs: seq<Form>, a: Form, blocks: set<object>)
    requires ReadsAll(first, fs, blocks) && a in PartsAll(fs)
    ensures Reads(a.node, a, blocks)
    decreases fs, 0
  {
    if a in Parts(fs[0]) {
      PartsRead(fs[0], a, blocks);
    } else {
      PartsReadAll(first.next, fs[1..], a, blocks);
    }
  }

  lemma {:induction false} PartsConsistent(f: Form, a: Form, sensitive: bool)
    requires Consistent(f, sensitive) && a in Parts(f)
    ensures Consistent(a, sensitive)
    decreases f, 1
  {
    if a != f {
      PartsConsistentAll(f.kids, a, sensitive);
    }
  }

  lemma {:induction false} PartsConsistentAll(fs: seq<Form>, a: Form, sensitive: bool)
    requires a in PartsAll(fs) && forall i :: 0 <= i < |fs| ==> Consistent(fs[i], sensitive)
    ensures Consistent(a, sensitive)
    decreases fs, 0
  {
    if a in Parts(fs[0]) {
      PartsConsistent(fs[0], a, sensitive);
    } else {
      PartsConsistentAll(fs[1..], a, sensitive);
    }
  }

  /** Two consistent trees in one memory agree, whatever nodes they share. */
  lemma ReadTogether(f: Form, g: Form, sensitive: bool, blocks: set<object>)
    requires Consistent(f, sensitive) && Reads(f.node, f, blocks) && Reads(g.node, g, blocks)
    ensures Agree(f, g, sensitive)
  {
    hide Parts, Consistent, Reads;
    forall a, b | a in Parts(f) && b in Parts(g) && a.node == b.node ensures a == b && Consistent(a, sensitive) {
      PartsRead(f, a, blocks);
      PartsRead(g, b, blocks);
      ReadsOnce(a.node, a, b, blocks);
      PartsConsistent(f, a, sensitive);
    }
  }

  /** One node has one form. */
  lemma {:induction false} ReadsOnce(n: Node, f: Form, g: Form, blocks: set<object>)
    requires Reads(n, f, blocks) && Reads(n, g, blocks)
    ensures f == g
    decreases f, 1
  {
    ReadsTextOnce(n.valuestring, f.text, g.text, blocks);
    ReadsTextOnce(n.name, f.name, g.name, blocks);
    ReadsAllOnce(n.child, f.kids, g.kids, blocks);
  }

  lemma ReadsTextOnce(a: array?<byte>, s: Text, t: Text, blocks: set<object>)
    requires ReadsText(a, s, blocks) && ReadsText(a, t, blocks)
    ensures s == t
  {
    if a != null {
      TextLength(a, s.bytes);
      TextLength(a, t.bytes);
    }
  }

  lemma TextLength(a: array<byte>, s: seq<byte>)
    requires HoldsText(a, s)
    ensures |s| == StrLen(a[..]) && s == a[..][..|s|]
  {
    assert a[..][..|s|] == a[..|s|];
    StrLenIs(a[..], |s|);
  }

  lemma {:induction false} ReadsAllOnce(first: Node?, fs: seq<Form>, gs: seq<Form>, blocks: set<object>)
    requires ReadsAll(first, fs, blocks) && ReadsAll(first, gs, blocks)
    ensures fs == gs
    decreases fs, 0
  {
    if fs != [] {
      ReadsOnce(first, fs[0], gs[0], blocks);
      ReadsAllOnce(first.next, fs[1..], gs[1..], blocks);
      assert fs == [fs[0]] + fs[1..] && gs == [gs[0]] + gs[1..];
    }
  }

  /** The search by name finds a member of that name. */
  lemma {:induction false} FindsKey(fs: seq<Form>, k: nat, name: Text, sensitive: bool)
    requires k <= |fs| && name.Text? && forall i :: 0 <= i < |fs| ==> fs[i].name.Text?
    ensures Find(fs, k, name, sensitive) == -1 ==>
              forall i :: k <= i < |fs| ==> Key(fs[i], sensitive) != Fold(name.bytes, sensitive)
    decreases |fs| - k
  {
    if k < |fs| {
      FindsKey(fs, k + 1, name, sensitive);
    }
  }

  lemma {:induction false} MemberValue(fs: seq<Form>, i: nat, sensitive: bool)
    requires OneValue(fs, sensitive) && i < |fs|
    ensures var m := CanonMembers(fs, sensitive);
            Key(fs[i], sensitive) in m && m[Key(fs[i], sensitive)] == CanonOf(fs[i], sensitive)
    decreases |fs|
  {
    hide CanonOf, Key;
    if i > 0 {
      assert fs[1..][i - 1] == fs[i];
      MemberValue(fs[1..], i - 1, sensitive);
    }
  }

  lemma {:induction false} MemberOf(fs: seq<Form>, key: seq<byte>, sensitive: bool) returns (i: nat)
    requires key in CanonMembers(fs, sensitive)
    ensures i < |fs| && Key(fs[i], sensitive) == key
  {
    i := 0;
    if key != Key(fs[0], sensitive) {
      var k := MemberOf(fs[1..], key, sensitive);
      i := k + 1;
    }
  }

  predicate Within(m: map<seq<byte>, Canon>, n: map<seq<byte>, Canon>) {
    forall key :: key in m ==> key in n && m[key] == n[key]
  }

  /** What the answer means, exactly: each tree gives every name one value, and the two have the
      same value, with arrays as sequences and objects as maps. */
  lemma {:induction false} SameExactly(f: Form, g: Form, sensitive: bool)
    requires Int32Form(f) && Int32Form(g) && Agree(f, g, sensitive)
    ensures Same(f, g, sensitive) <==>
              Consistent(f, sensitive) && Consistent(g, sensitive) && CanonOf(f, sensitive) == CanonOf(g, sensitive)
    decreases Depth(f) + Depth(g), 3
  {
    if f.node == g.node {
      assert f in Parts(f) && g in Parts(g);
    } else if f.kind == g.kind == ArrayKind {
      SameItems(f, g, sensitive);
    } else if f.kind == g.kind == ObjectKind {
      SameMembers(f, g, sensitive);
    } else {
      SameScalars(f, g, sensitive);
    }
  }

  lemma SameScalars(f: Form, g: Form, sensitive: bool)
    requires Int32Form(f) && Int32Form(g) && f.node != g.node
    requires f.kind != g.kind || (f.kind != ArrayKind && f.kind != ObjectKind)
    ensures Same(f, g, sensitive) <==>
              Consistent(f, sensitive) && Consistent(g, sensitive) && CanonOf(f, sensitive) == CanonOf(g, sensitive)
  {
    hide Covered, CanonItems, CanonMembers, CompareDouble, OneValue;
    if f.kind == g.kind == NumberKind {
      CompareInts(f.d, g.d);
    }
  }

  /** The same about one pair of children, in both directions. */
  lemma {:induction false} SameKids(f: Form, g: Form, i: nat, j: nat, sensitive: bool)
    requires (f.kind == ArrayKind || f.kind == ObjectKind) && (g.kind == ArrayKind || g.kind == ObjectKind)
    requires Int32Form(f) && Int32Form(g) && Agree(f, g, sensitive) && i < |f.kids| && j < |g.kids|
    ensures var a, b := f.kids[i], g.kids[j];
            && (Same(a, b, sensitive) <==>
                Consistent(a, sensitive) && Consistent(b, sensitive) && CanonOf(a, sensitive) == CanonOf(b, sensitive))
            && (Same(b, a, sensitive) <==> Same(a, b, sensitive))
    decreases Depth(f) + Depth(g), 0
  {
    KidDepth(f.kids, i);
    KidDepth(g.kids, j);
    AgreeKids(f, g, i, j, sensitive);
    hide Same, CanonOf, Consistent, Agree;
    SameExactly(f.kids[i], g.kids[j], sensitive);
    SameExactly(g.kids[j], f.kids[i], sensitive);
  }

  lemma {:induction false} SameItems(f: Form, g: Form, sensitive: bool)
    requires f.kind == g.kind == ArrayKind && f.node != g.node
    requires Int32Form(f) && Int32Form(g) && Agree(f, g, sensitive)
    ensures Same(f, g, sensitive) <==>
              Consistent(f, sensitive) && Consistent(g, sensitive) && CanonOf(f, sensitive) == CanonOf(g, sensitive)
    decreases Depth(f) + Depth(g), 1
  {
    hide Agree, Int32Form;
    if |f.kids| == |g.kids| {
      forall i | 0 <= i < |f.kids|
        ensures Same(f.kids[i], g.kids[i], sensitive) <==>
                  && Consistent(f.kids[i], sensitive) && Consistent(g.kids[i], sensitive)
                  && CanonItems(f.kids, sensitive)[i] == CanonItems(g.kids, sensitive)[i]
      {
        SameKids(f, g, i, i, sensitive);
      }
    }
  }

  lemma {:induction false} SameMembers(f: Form, g: Form, sensitive: bool)
    requires f.kind == g.kind == ObjectKind && f.node != g.node
    requires Int32Form(f) && Int32Form(g) && Agree(f, g, sensitive)
    ensures Same(f, g, sensitive) <==>
              Consistent(f, sensitive) && Consistent(g, sensitive) && CanonOf(f, sensitive) == CanonOf(g, sensitive)
    decreases Depth(f) + Depth(g), 2
  {
    var m, n := CanonMembers(f.kids, sensitive), CanonMembers(g.kids, sensitive);
    hide Agree, Int32Form, CanonMembers;
    AgreeBack(f, g, sensitive);
    if Covered(f.kids, g.kids, sensitive) && Covered(g.kids, f.kids, sensitive) {
      CoveredConsistent(f, g, sensitive);
      CoveredConsistent(g, f, sensitive);
      CoveredWithin(f, g, sensitive);
      CoveredWithin(g, f, sensitive);
      assert m == n;
    }
    if Consistent(f, sensitive) && Consistent(g, sensitive) && m == n {
      WithinCovered(f, g, sensitive);
      WithinCovered(g, f, sensitive);
    }
  }

  lemma AgreeKids(f: Form, g: Form, i: nat, j: nat, sensitive: bool)
    requires (f.kind == ArrayKind || f.kind == ObjectKind) && (g.kind == ArrayKind || g.kind == ObjectKind)
    requires Agree(f, g, sensitive) && i < |f.kids| && j < |g.kids|
    ensures Agree(f.kids[i], g.kids[j], sensitive) && Agree(g.kids[j], f.kids[i], sensitive)
  {
    hide Parts, Consistent;
    PartsBelow(f, i);
    PartsBelow(g, j);
  }

  lemma PartsBelow(f: Form, i: nat)
    requires (f.kind == ArrayKind || f.kind == ObjectKind) && i < |f.kids|
    ensures Parts(f.kids[i]) <= Parts(f)
  {
    PartsKid(f.kids, i);
  }

  lemma AgreeBack(f: Form, g: Form, sensitive: bool)
    ensures Agree(f, g, sensitive) ==> Agree(g, f, sensitive)
  {
  }

  lemma {:induction false} CoveredConsistent(f: Form, g: Form, sensitive: bool)
    requires f.kind == g.kind == ObjectKind && Covered(f.kids, g.kids, sensitive)
    requires Int32Form(f) && Int32Form(g) && Agree(f, g, sensitive)
    ensures Consistent(f, sensitive)
    decreases Depth(f) + Depth(g), 1
  {
    var fs, gs := f.kids, g.kids;
    hide Agree, CanonOf;
    forall i | 0 <= i < |fs|
      ensures Consistent(fs[i], sensitive)
      ensures CanonOf(fs[i], sensitive) == CanonOf(gs[Find(gs, 0, fs[i].name, sensitive)], sensitive)
    {
      SameKids(f, g, i, Find(gs, 0, fs[i].name, sensitive), sensitive);
    }
    forall i, j | 0 <= i < j < |fs| && Key(fs[i], sensitive) == Key(fs[j], sensitive)
      ensures CanonOf(fs[i], sensitive) == CanonOf(fs[j], sensitive)
    {
      FindByKey(gs, 0, fs[i].name, fs[j].name, sensitive);
    }
  }

  lemma {:induction false} CoveredWithin(f: Form, g: Form, sensitive: bool)
    requires f.kind == g.kind == ObjectKind && Covered(f.kids, g.kids, sensitive)
    requires OneValue(f.kids, sensitive) && OneValue(g.kids, sensitive)
    requires Int32Form(f) && Int32Form(g) && Agree(f, g, sensitive)
    ensures Within(CanonMembers(f.kids, sensitive), CanonMembers(g.kids, sensitive))
    decreases Depth(f) + Depth(g), 1
  {
    var m, n := CanonMembers(f.kids, sensitive), CanonMembers(g.kids, sensitive);
    hide Agree, Int32Form, OneValue;
    forall key | key in m ensures key in n && m[key] == n[key] {
      var i := MemberOf(f.kids, key, sensitive);
      var j := Find(g.kids, 0, f.kids[i].name, sensitive);
      hide CanonOf, CanonMembers, Same;
      SameKids(f, g, i, j, sensitive);
      MemberValue(f.kids, i, sensitive);
      MemberValue(g.kids, j, sensitive);
    }
  }

  lemma {:induction false} WithinCovered(f: Form, g: Form, sensitive: bool)
    requires f.kind == g.kind == ObjectKind && Within(CanonMembers(f.kids, sensitive), CanonMembers(g.kids, sensitive))
    requires Consistent(f, sensitive) && Consistent(g, sensitive)
    requires Int32Form(f) && Int32Form(g) && Agree(f, g, sensitive)
    ensures Covered(f.kids, g.kids, sensitive)
    decreases Depth(f) + Depth(g), 1
  {
    hide Agree;
    forall i | 0 <= i < |f.kids|
      ensures var j := Find(g.kids, 0, f.kids[i].name, sensitive); j >= 0 && Same(f.kids[i], g.kids[j], sensitive)
    {
      hide CanonOf, CanonMembers, Same, Find, Fold;
      MemberValue(f.kids, i, sensitive);
      var k := MemberOf(g.kids, Key(f.kids[i], sensitive), sensitive);
      FindsKey(g.kids, 0, f.kids[i].name, sensitive);
      var j := Find(g.kids, 0, f.kids[i].name, sensitive);
      FindMatches(g.kids, f.kids[i].name, sensitive);
      SameKids(f, g, i, j, sensitive);
      MemberValue(g.kids, j, sensitive);
    }
  }

  lemma FindMatches(fs: seq<Form>, name: Text, sensitive: bool)
    ensures var i := Find(fs, 0, name, sensitive);
            -1 <= i < |fs| && (i >= 0 ==> Key(fs[i], sensitive) == Fold(BytesOf(name), sensitive))
  {
  }

  lemma {:induction false} FindByKey(fs: seq<Form>, k: nat, s: Text, t: Text, sensitive: bool)
    requires k <= |fs| && s.Text? && t.Text? && Fold(s.bytes, sensitive) == Fold(t.bytes, sensitive)
    ensures Find(fs, k, s, sensitive) == Find(fs, k, t, sensitive)
    decreases |fs| - k
  {
    if k < |fs| {
      FindByKey(fs, k + 1, s, t, sensitive);
    }
  }

  // ---------- consequences ----------

  /** Trees without a node in common. */
  lemma SameApart(f: Form, g: Form, sensitive: bool)
    requires Int32Form(f) && Int32Form(g) && Apart(f, g)
    ensures Same(f, g, sensitive) <==>
              Consistent(f, sensitive) && Consistent(g, sensitive) && CanonOf(f, sensitive) == CanonOf(g, sensitive)
  {
    hide Same, Int32Form, Consistent, CanonOf, Parts;
    SameExactly(f, g, sensitive);
  }

  /** Trees in one memory, whatever nodes they share, that give every name one value. */
  lemma SameIsEqual(f: Form, g: Form, sensitive: bool, blocks: set<object>)
    requires Int32Form(f) && Int32Form(g) && Consistent(f, sensitive) && Consistent(g, sensitive)
    requires Reads(f.node, f, blocks) && Reads(g.node, g, blocks)
    ensures Same(f, g, sensitive) <==> CanonOf(f, sensitive) == CanonOf(g, sensitive)
  {
    hide Same, Int32Form, Consistent, CanonOf, Agree, Reads;
    ReadTogether(f, g, sensitive, blocks);
    SameExactly(f, g, sensitive);
  }

  /** Hence the answer is an equivalence on them. */
  lemma Equivalence(f: Form, g: Form, h: Form, sensitive: bool, blocks: set<object>)
    requires Int32Form(f) && Int32Form(g) && Int32Form(h)
    requires Consistent(f, sensitive) && Consistent(g, sensitive) && Consistent(h, sensitive)
    requires Reads(f.node, f, blocks) && Reads(g.node, g, blocks) && Reads(h.node, h, blocks)
    ensures Same(f, f, sensitive) && (Same(f, g, sensitive) ==> Same(g, f, sensitive))
    ensures Same(f, g, sensitive) && Same(g, h, sensitive) ==> Same(f, h, sensitive)
  {
    hide Same, Int32Form, Consistent, CanonOf, Reads;
    SameIsEqual(f, f, sensitive, blocks);
    SameIsEqual(f, g, sensitive, blocks);
    SameIsEqual(g, f, sensitive, blocks);
    SameIsEqual(g, h, sensitive, blocks);
    SameIsEqual(f, h, sensitive, blocks);
  }

  /** Objects whose names are all different are consistent on their level. */
  lemma UniqueNames(fs: seq<Form>, sensitive: bool)
    requires forall i :: 0 <= i < |fs| ==> fs[i].name.Text?
    requires forall i, j :: 0 <= i < j < |fs| ==> Key(fs[i], sensitive) != Key(fs[j], sensitive)
    ensures OneValue(fs, sensitive)
  {
  }

  /** Every member of `fs` has its name and value among those of `gs`. */
  predicate Found(fs: seq<Form>, gs: seq<Form>, sensitive: bool) {
    forall i :: 0 <= i < |fs| ==>
      exists j :: 0 <= j < |gs| && Key(gs[j], sensitive) == Key(fs[i], sensitive)
                  && CanonOf(gs[j], sensitive) == CanonOf(fs[i], sensitive)
  }

  /** The order of members does not matter: objects on different nodes with the same names and
      values are the same, and have the same value. */
  lemma OrderIgnored(f: Form, g: Form, sensitive: bool)
    requires f.kind == g.kind == ObjectKind && Int32Form(f) && Int32Form(g) && Agree(f, g, sensitive)
    requires Consistent(f, sensitive) && Consistent(g, sensitive)
    requires Found(f.kids, g.kids, sensitive) && Found(g.kids, f.kids, sensitive)
    ensures Same(f, g, sensitive) && CanonOf(f, sensitive) == CanonOf(g, sensitive)
  {
    assert OneValue(f.kids, sensitive) && OneValue(g.kids, sensitive);
    hide Same, Int32Form, Consistent, Agree, OneValue, Found, CanonMembers;
    SameValues(f.kids, g.kids, sensitive);
    SameExactly(f, g, sensitive);
  }

  lemma SameValues(fs: seq<Form>, gs: seq<Form>, sensitive: bool)
    requires OneValue(fs, sensitive) && OneValue(gs, sensitive)
    requires Found(fs, gs, sensitive) && Found(gs, fs, sensitive)
    ensures CanonMembers(fs, sensitive) == CanonMembers(gs, sensitive)
  {
    hide OneValue, Found, CanonMembers, Within;
    FoundWithin(fs, gs, sensitive);
    FoundWithin(gs, fs, sensitive);
    WithinBoth(CanonMembers(fs, sensitive), CanonMembers(gs, sensitive));
  }

  lemma WithinBoth(m: map<seq<byte>, Canon>, n: map<seq<byte>, Canon>)
    requires Within(m, n) && Within(n, m)
    ensures m == n
  {
  }

  lemma FoundWithin(fs: seq<Form>, gs: seq<Form>, sensitive: bool)
    requires OneValue(fs, sensitive) && OneValue(gs, sensitive) && Found(fs, gs, sensitive)
    ensures Within(CanonMembers(fs, sensitive), CanonMembers(gs, sensitive))
  {
    var m, n := CanonMembers(fs, sensitive), CanonMembers(gs, sensitive);
    forall key | key in m ensures key in n && m[key] == n[key] {
      var i := MemberOf(fs, key, sensitive);
      var j :| 0 <= j < |gs| && Key(gs[j], sensitive) == Key(fs[i], sensitive)
               && CanonOf(gs[j], sensitive) == CanonOf(fs[i], sensitive);
      hide CanonOf, CanonMembers, OneValue, Key;
      MemberValue(fs, i, sensitive);
      MemberValue(gs, j, sensitive);
    }
  }

  /** A tree that gives one name two values, at whatever level, or that lacks a type, a text or a
      name, is the same as no tree on other nodes, not even as a copy of itself. */
  lemma RepeatedNameDiffers(f: Form, g: Form, sensitive: bool)
    requires Int32Form(f) && Int32Form(g) && Apart(f, g)
    requires !Consistent(f, sensitive)
    ensures !Same(f, g, sensitive)
  {
    hide Same, Int32Form, Consistent, CanonOf, Apart;
    SameApart(f, g, sensitive);
  }

  /** The member `"a":x`. */
  function Single(a: Node, k: array<byte>, x: int): Form {
    Form(a, NumberKind, false, NoText, k, Text([97]), x as real, [])
  }

  /** The object `{"a":x,"a":y}` on three nodes. */
  function Twice(a: Node, b: Node, c: Node, k: array<byte>, x: int, y: int): Form {
    Form(a, ObjectKind, false, NoText, null, NoText, 0.0, [Single(b, k, x), Single(c, k, y)])
  }

  /** `{"a":1,"a":2}` is not the same as its copy on other nodes, `{"a":1,"a":1}` is. */
  lemma CopiesOfTwice(a: Node, b: Node, c: Node, a': Node, b': Node, c': Node, k: array<byte>, k': array<byte>)
    requires {a, b, c} !! {a', b', c'}
    ensures !Same(Twice(a, b, c, k, 1, 2), Twice(a', b', c', k', 1, 2), true)
    ensures Same(Twice(a, b, c, k, 1, 1), Twice(a', b', c', k', 1, 1), true)
  {
    TwiceApart(a, b, c, a', b', c', k, k', 1, 2);
    TwiceApart(a, b, c, a', b', c', k, k', 1, 1);
  }

  lemma TwiceApart(
    a: Node, b: Node, c: Node, a': Node, b': Node, c': Node, k: array<byte>, k': array<byte>, x: int, y: int)
    requires {a, b, c} !! {a', b', c'} && INT_MIN <= x <= INT_MAX && INT_MIN <= y <= INT_MAX
    ensures Same(Twice(a, b, c, k, x, y), Twice(a', b', c', k', x, y), true) <==> x == y
  {
    var f, g := Twice(a, b, c, k, x, y), Twice(a', b', c', k', x, y);
    TwiceParts(a, b, c, k, x, y);
    TwiceParts(a', b', c', k', x, y);
    TwiceValue(a, b, c, a', b', c', k, k', x, y);
    hide Same, Parts, Int32Form, Consistent, CanonOf;
    SameApart(f, g, true);
  }

  lemma SingleIs(a: Node, k: array<byte>, x: int)
    requires INT_MIN <= x <= INT_MAX
    ensures var f := Single(a, k, x);
            && Int32Form(f) && Consistent(f, true) && Parts(f) == {f}
            && CanonOf(f, true) == CNumber(x as real) && Key(f, true) == [97]
  {
    IntIsInt32(x);
    hide IsInt32;
  }

  lemma IntIsInt32(x: int)
    requires INT_MIN <= x <= INT_MAX
    ensures IsInt32(x as real)
  {
    assert x >= 0 ==> (x as real).Floor == x;
    assert x < 0 ==> (-(x as real)).Floor == -x;
  }

  lemma TwiceParts(a: Node, b: Node, c: Node, k: array<byte>, x: int, y: int)
    requires INT_MIN <= x <= INT_MAX && INT_MIN <= y <= INT_MAX
    ensures var f := Twice(a, b, c, k, x, y);
            && Int32Form(f) && (Consistent(f, true) <==> x == y)
            && forall p :: p in Parts(f) ==> p.node in {a, b, c}
  {
    var f, p, q := Twice(a, b, c, k, x, y), Single(b, k, x), Single(c, k, y);
    SingleIs(b, k, x);
    SingleIs(c, k, y);
    assert f.kids[1..] == [q] && [q][1..] == [];
    assert PartsAll([q]) == Parts(q) + {} && PartsAll(f.kids) == Parts(p) + PartsAll([q]);
    hide CanonOf, Key, PartsAll;
    assert OneValue(f.kids, true) ==> CanonOf(f.kids[0], true) == CanonOf(f.kids[1], true);
  }

  lemma TwiceValue(
    a: Node, b: Node, c: Node, a': Node, b': Node, c': Node, k: array<byte>, k': array<byte>, x: int, y: int)
    requires INT_MIN <= x <= INT_MAX && INT_MIN <= y <= INT_MAX
    ensures CanonOf(Twice(a, b, c, k, x, y), true) == CanonOf(Twice(a', b', c', k', x, y), true)
  {
    TwiceMembers(b, c, k, x, y);
    TwiceMembers(b', c', k', x, y);
  }

  lemma TwiceMembers(b: Node, c: Node, k: array<byte>, x: int, y: int)
    requires INT_MIN <= x <= INT_MAX && INT_MIN <= y <= INT_MAX
    ensures CanonMembers([Single(b, k, x), Single(c, k, y)], true)
         == map[[97] := CNumber(y as real)][[97] := CNumber(x as real)]
  {
    var fs := [Single(b, k, x), Single(c, k, y)];
    SingleIs(b, k, x);
    SingleIs(c, k, y);
    assert fs[1..] == [fs[1]] && fs[1..][1..] == [];
    hide CanonOf, Key;
    assert CanonMembers(fs[1..], true) == map[[97] := CNumber(y as real)];
  }
}
