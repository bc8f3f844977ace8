/** Red-black trees as values: the tree, the path from a place in it up to the root, and what
    rotation does to order and colour. */
module RbShape {
  import opened Powers

  type Ptr = nat
  const NULL: Ptr := 0
  /** The tree header, which the code treats as the father of the root. */
  const HEAD: Ptr := 1

  datatype Dir = Left | Right {
    function Flip(): Dir { if Left? then Right else Left }
  }

  datatype Tree = Leaf | Node(p: Ptr, red: bool, l: Tree, r: Tree) {
    function Root(): Ptr { if Leaf? then NULL else p }
    predicate Red() { Node? && red }
    function Kid(d: Dir): Tree requires Node? { if d.Left? then l else r }
    function Nodes(): set<Ptr> { if Leaf? then {} else {p} + l.Nodes() + r.Nodes() }
    function Inorder(): seq<Ptr> { if Leaf? then [] else l.Inorder() + [p] + r.Inorder() }
    function Paint(c: bool): Tree { if Leaf? then Leaf else Node(p, c, l, r) }
  }

  /** A node with one subtree on side d and the other on the far side. */
  function Mk(p: Ptr, red: bool, d: Dir, near: Tree, far: Tree): Tree {
    if d.Left? then Node(p, red, near, far) else Node(p, red, far, near)
  }

  /** A place in a tree, as the way up: the hole is on side d of node p, whose other subtree is sib. */
  datatype Path = Top | In(d: Dir, p: Ptr, red: bool, sib: Tree, up: Path) {
    function Father(): Ptr { if Top? then HEAD else p }
    function Side(): Dir { if Top? then Left else d }
    predicate RedFather() { In? && red }
    function Nodes(): set<Ptr> { if Top? then {} else {p} + sib.Nodes() + up.Nodes() }
    function Before(): seq<Ptr> {
      if Top? then [] else if d.Left? then up.Before() else up.Before() + sib.Inorder() + [p]
    }
    function After(): seq<Ptr> {
      if Top? then [] else if d.Left? then [p] + sib.Inorder() + up.After() else up.After()
    }
    function Depth(): nat { if Top? then 0 else 1 + up.Depth() }
  }

  function Plug(c: Path, t: Tree): Tree {
    if c.Top? then t else Plug(c.up, Mk(c.p, c.red, c.d, t, c.sib))
  }

  /** A path continued by another. */
  function Append(c: Path, base: Path): Path {
    if c.Top? then base else In(c.d, c.p, c.red, c.sib, Append(c.up, base))
  }

  // ---------------------------------------------------------------- distinctness and order

  predicate Distinct(t: Tree) {
    t.Node? ==>
      && t.p !in t.l.Nodes() + t.r.Nodes()
      && t.l.Nodes() !! t.r.Nodes()
      && Distinct(t.l) && Distinct(t.r)
  }

  lemma KidDistinct(t: Tree, w: Dir)
    requires t.Node? && Distinct(t)
    ensures Distinct(t.Kid(w)) && Distinct(t.Kid(w.Flip()))
    ensures t.Nodes() == {t.p} + t.Kid(w).Nodes() + t.Kid(w.Flip()).Nodes()
    ensures t.p !in t.Kid(w).Nodes() && t.p !in t.Kid(w.Flip()).Nodes()
    ensures t.Kid(w).Nodes() !! t.Kid(w.Flip()).Nodes()
    ensures t.Kid(w).Node? ==> t.Kid(w).p in t.Kid(w).Nodes()
    ensures t.Kid(w.Flip()).Node? ==> t.Kid(w.Flip()).p in t.Kid(w.Flip()).Nodes()
  {
  }

  /** The nodes of a path and of a tree to be plugged in it are all different. */
  predicate Apart(c: Path, t: Tree) { Distinct(t) && PathDistinct(c) && t.Nodes() !! c.Nodes() }

  predicate PathDistinct(c: Path) {
    c.In? ==>
      && c.p !in c.sib.Nodes()
      && (c.sib.Nodes() + {c.p}) !! c.up.Nodes()
      && Distinct(c.sib) && PathDistinct(c.up)
  }

  lemma MkNodes(p: Ptr, red: bool, d: Dir, near: Tree, far: Tree)
    ensures Mk(p, red, d, near, far).Nodes() == {p} + near.Nodes() + far.Nodes()
  {
  }

  /** The inorder sequence of a plugged tree. */
  lemma {:induction false} PlugInorder(c: Path, t: Tree)
    ensures Plug(c, t).Inorder() == c.Before() + t.Inorder() + c.After()
  {
    if c.In? {
      var m := Mk(c.p, c.red, c.d, t, c.sib);
      PlugInorder(c.up, m);
      Regroup(c.up.Before(), t.Inorder(), [c.p], c.sib.Inorder(), c.up.After());
      Regroup(c.up.Before(), c.sib.Inorder(), [c.p], t.Inorder(), c.up.After());
    }
  }

  lemma Regroup(b: seq<Ptr>, x: seq<Ptr>, p: seq<Ptr>, y: seq<Ptr>, a: seq<Ptr>)
    ensures b + (x + p + y) + a == b + x + (p + y + a)
    ensures b + (x + p + y) + a == (b + x + p) + y + a
  {
  }

  lemma {:induction false} PlugNodes(c: Path, t: Tree)
    ensures Plug(c, t).Nodes() == c.Nodes() + t.Nodes()
  {
    if c.In? {
      PlugNodes(c.up, Mk(c.p, c.red, c.d, t, c.sib));
      MkNodes(c.p, c.red, c.d, t, c.sib);
    }
  }

  lemma {:induction false} PlugNode(c: Path, t: Tree)
    requires t.Node?
    ensures Plug(c, t).Node?
  {
    if c.In? { PlugNode(c.up, Mk(c.p, c.red, c.d, t, c.sib)); }
  }

  lemma {:induction false} InorderNodes(t: Tree)
    ensures forall p :: p in t.Inorder() <==> p in t.Nodes()
  {
    if t.Node? {
      InorderNodes(t.l);
      InorderNodes(t.r);
    }
  }

  lemma {:induction false} PlugAppend(c: Path, base: Path, t: Tree)
    ensures Plug(Append(c, base), t) == Plug(base, Plug(c, t))
  {
    if c.In? { PlugAppend(c.up, base, Mk(c.p, c.red, c.d, t, c.sib)); }
  }

  predicate Sorted(key: Ptr -> int, s: seq<Ptr>) {
    forall i, j :: 0 <= i < j < |s| ==> key(s[i]) < key(s[j])
  }

  // ---------------------------------------------------------------- colour

  /** Black height h, and no red node with a red child. */
  predicate RB(t: Tree, h: nat)
    decreases t
  {
    match t
    case Leaf => h == 0
    case Node(_, red, l, r) =>
      if red then !l.Red() && !r.Red() && RB(l, h) && RB(r, h)
      else h > 0 && RB(l, h - 1) && RB(r, h - 1)
  }

  lemma KidRB(t: Tree, h: nat, w: Dir)
    requires RB(t, h) && t.Node?
    ensures t.red ==> !t.Kid(w).Red() && RB(t.Kid(w), h)
    ensures !t.red ==> h > 0 && RB(t.Kid(w), h - 1)
    ensures h > 0 && t.red ==> t.Kid(w).Node?
  {
  }

  lemma MkRB(p: Ptr, red: bool, d: Dir, near: Tree, far: Tree, h: nat)
    requires RB(near, h) && RB(far, h) && (red ==> !near.Red() && !far.Red())
    ensures RB(Mk(p, red, d, near, far), if red then h else h + 1)
  {
  }

  ghost predicate RedBlack(t: Tree) { !t.Red() && exists h: nat :: RB(t, h) }

  /** Everything but the hole is as a red-black tree with a hole of black height h should be. */
  predicate PathRB(c: Path, h: nat)
    decreases c
  {
    c.In? ==>
      && RB(c.sib, h)
      && (c.red ==> !c.sib.Red() && !c.up.RedFather() && c.up.In?)
      && PathRB(c.up, if c.red then h else h + 1)
  }

  /** A tree that fits the hole completes the red-black tree. */
  lemma {:induction false} PlugRB(c: Path, t: Tree, h: nat)
    requires PathRB(c, h) && RB(t, h) && !(t.Red() && (c.RedFather() || c.Top?))
    ensures RedBlack(Plug(c, t))
    decreases c
  {
    if c.In? {
      PlugRB(c.up, Mk(c.p, c.red, c.d, t, c.sib), if c.red then h else h + 1);
    }
  }

  /** And conversely: any place in a red-black tree splits it so. */
  lemma {:induction false} SplitRB(c: Path, t: Tree, hh: nat) returns (h: nat)
    requires RB(Plug(c, t), hh) && !Plug(c, t).Red()
    ensures PathRB(c, h) && RB(t, h) && !(t.Red() && (c.RedFather() || c.Top?))
    decreases c
  {
    if c.Top? {
      h := hh;
    } else {
      var m := Mk(c.p, c.red, c.d, t, c.sib);
      var k := SplitRB(c.up, m, hh);
      h := if c.red then k else k - 1;
    }
  }

  lemma {:induction false} AppendRB(c: Path, base: Path, base': Path, h: nat)
    requires PathRB(Append(c, base), h)
    requires base.In? && base'.In? && base'.red == base.red && base'.sib == base.sib && base'.up == base.up
    ensures PathRB(Append(c, base'), h)
    decreases c
  {
    if c.In? {
      AppendRB(c.up, base, base', if c.red then h else h + 1);
    }
  }

  /** A tree of known black height has it only once. */
  lemma {:induction false} HeightUnique(t: Tree, h: nat, k: nat)
    requires RB(t, h) && RB(t, k)
    ensures h == k
  {
    if t.Node? {
      if t.red { HeightUnique(t.l, h, k); } else { HeightUnique(t.l, h - 1, k - 1); }
    }
  }

  // ---------------------------------------------------------------- rotation

  /** The rotation primitive: the child on side w takes its father's place and colour, the father
      becomes its child on the other side and takes the child's colour. */
  function Rotated(t: Tree, w: Dir): Tree
    requires t.Node? && t.Kid(w).Node?
  {
    var c := t.Kid(w);
    Mk(c.p, t.red, w, c.Kid(w), Mk(t.p, c.red, w, c.Kid(w.Flip()), t.Kid(w.Flip())))
  }

  /** Rotation keeps the order of the nodes. */
  lemma RotatedInorder(t: Tree, w: Dir)
    requires t.Node? && t.Kid(w).Node?
    ensures Rotated(t, w).Inorder() == t.Inorder()
    ensures Rotated(t, w).Nodes() == t.Nodes()
  {
  }

  lemma RotatedDistinct(t: Tree, w: Dir)
    requires t.Node? && t.Kid(w).Node? && Distinct(t)
    ensures Distinct(Rotated(t, w))
  {
  }

  // ---------------------------------------------------------------- height

  function Height(t: Tree): nat {
    if t.Leaf? then 0
    else 1 + if Height(t.l) > Height(t.r) then Height(t.l) else Height(t.r)
  }

  function Size(t: Tree): nat { if t.Leaf? then 0 else 1 + Size(t.l) + Size(t.r) }

  lemma {:induction false} HeightBound(t: Tree, h: nat)
    requires RB(t, h)
    ensures Height(t) <= 2 * h + (if t.Red() then 1 else 0)
    ensures Pow2(h) <= Size(t) + 1
    decreases t
  {
    if t.Node? {
      var k := if t.red then h else h - 1;
      HeightBound(t.l, k);
      HeightBound(t.r, k);
    }
  }

  lemma {:induction false} Pow2Double(h: nat)
    ensures Pow2(2 * h) == Pow2(h) * Pow2(h)
  {
    if h > 0 {
      Pow2Double(h - 1);
      assert Pow2(2 * h) == 4 * Pow2(2 * h - 2);
    }
  }

  lemma SquareMono(a: nat, b: nat)
    requires a <= b
    ensures a * a <= b * b
  {
  }

  /** The height of a red-black tree of n nodes is at most 2 log2(n + 1). */
  lemma HeightLog(t: Tree)
    requires RedBlack(t)
    ensures Pow2(Height(t)) <= (Size(t) + 1) * (Size(t) + 1)
  {
    var h: nat :| RB(t, h);
    HeightBound(t, h);
    Pow2Mono(Height(t), 2 * h);
    Pow2Double(h);
    SquareMono(Pow2(h), Size(t) + 1);
  }
}
