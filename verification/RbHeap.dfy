/** The memory a red-black tree lives in, and when it holds a given tree or a given path. */
module RbHeap {
  import opened RbShape

  /** A node's record: its two children, its father, which side of the father it is on, its colour. */
  datatype Cell = Cell(left: Ptr, right: Ptr, father: Ptr, side: Dir, red: bool) {
    function Get(d: Dir): Ptr { if d.Left? then left else right }
    function Set(d: Dir, x: Ptr): Cell { if d.Left? then this.(left := x) else this.(right := x) }
  }

  type Mem = map<Ptr, Cell>
  datatype Heap = Heap(root: Ptr, mem: Mem)

  function Kid(h: Heap, p: Ptr, d: Dir): Ptr
    requires p in h.mem
  {
    h.mem[p].Get(d)
  }

  function Put(h: Heap, p: Ptr, cell: Cell): (r: Heap)
    requires p in h.mem
    ensures r.mem.Keys == h.mem.Keys
  {
    h.(mem := h.mem[p := cell])
  }

  /** The header counts as a node whose left child is the root. */
  function PutKid(h: Heap, p: Ptr, d: Dir, x: Ptr): (r: Heap)
    requires if p == HEAD then d == Left else p in h.mem
    ensures r.mem.Keys == h.mem.Keys
  {
    if p == HEAD then h.(root := x) else Put(h, p, h.mem[p].Set(d, x))
  }

  function PutFather(h: Heap, p: Ptr, f: Ptr): Heap
    requires p in h.mem
  {
    Put(h, p, h.mem[p].(father := f))
  }

  function PutSide(h: Heap, p: Ptr, d: Dir): Heap
    requires p in h.mem
  {
    Put(h, p, h.mem[p].(side := d))
  }

  function PutRed(h: Heap, p: Ptr, c: bool): Heap
    requires p in h.mem
  {
    Put(h, p, h.mem[p].(red := c))
  }

  predicate RedP(h: Heap, p: Ptr) { p in h.mem && h.mem[p].red }

  // ---------------------------------------------------------------- representation

  /** The tree t hangs at side d of node f. */
  ghost predicate Rep(mem: Mem, t: Tree, f: Ptr, d: Dir) {
    t.Node? ==>
      && t.p in mem
      && mem[t.p] == Cell(t.l.Root(), t.r.Root(), f, d, t.red)
      && Rep(mem, t.l, t.p, Left)
      && Rep(mem, t.r, t.p, Right)
  }

  /** The path c leads from a hole where x hangs to the root. */
  ghost predicate PathRep(h: Heap, c: Path, x: Ptr) {
    if c.Top? then h.root == x
    else
      && c.p in h.mem
      && h.mem[c.p] == Cell(if c.d.Left? then x else c.sib.Root(), if c.d.Left? then c.sib.Root() else x,
                            c.up.Father(), c.up.Side(), c.red)
      && Rep(h.mem, c.sib, c.p, c.d.Flip())
      && PathRep(h, c.up, c.p)
  }

  ghost predicate Sound(h: Heap) { NULL !in h.mem && HEAD !in h.mem }

  /** The heap holds the tree Plug(c, t), and we stand at t. */
  ghost predicate Focus(h: Heap, c: Path, t: Tree) {
    Sound(h) && Apart(c, t) && PathRep(h, c, t.Root()) && Rep(h.mem, t, c.Father(), c.Side())
  }

  lemma {:induction false} RepNodes(mem: Mem, t: Tree, f: Ptr, d: Dir)
    requires Rep(mem, t, f, d)
    ensures t.Nodes() <= mem.Keys
    ensures t.Node? ==> t.p in t.Nodes()
  {
    if t.Node? {
      RepNodes(mem, t.l, t.p, Left);
      RepNodes(mem, t.r, t.p, Right);
    }
  }

  lemma KidRep(mem: Mem, t: Tree, f: Ptr, d: Dir, w: Dir)
    requires Rep(mem, t, f, d) && t.Node?
    ensures Rep(mem, t.Kid(w), t.p, w)
  {
  }

  lemma MkRep(mem: Mem, p: Ptr, red: bool, w: Dir, near: Tree, far: Tree, f: Ptr, d: Dir)
    requires p in mem && Rep(mem, near, p, w) && Rep(mem, far, p, w.Flip())
    requires mem[p].Get(w) == near.Root() && mem[p].Get(w.Flip()) == far.Root()
    requires mem[p].father == f && mem[p].side == d && mem[p].red == red
    ensures Rep(mem, Mk(p, red, w, near, far), f, d)
  {
  }

  ghost predicate Same(mem: Mem, mem': Mem, s: set<Ptr>) {
    forall p :: p in s && p in mem ==> p in mem' && mem'[p] == mem[p]
  }

  ghost predicate SameBut(mem: Mem, mem': Mem, x: set<Ptr>) {
    forall p :: p in mem && p !in x ==> p in mem' && mem'[p] == mem[p]
  }

  /** A tree is held wherever its own nodes are unchanged. */
  lemma {:induction false} RepFrame(mem: Mem, mem': Mem, t: Tree, f: Ptr, d: Dir)
    requires Rep(mem, t, f, d) && Same(mem, mem', t.Nodes())
    ensures Rep(mem', t, f, d)
  {
    if t.Node? {
      RepFrame(mem, mem', t.l, t.p, Left);
      RepFrame(mem, mem', t.r, t.p, Right);
    }
  }

  /** Its root may be given another father and side, or another colour. */
  lemma RepMoved(mem: Mem, mem': Mem, t: Tree, f: Ptr, d: Dir, f': Ptr, d': Dir, c: bool)
    requires t.Node? && Rep(mem, t, f, d) && Distinct(t) && Same(mem, mem', t.Nodes() - {t.p})
    requires t.p in mem' && mem'[t.p] == mem[t.p].(father := f', side := d', red := c)
    ensures Rep(mem', t.Paint(c), f', d')
  {
    RepFrame(mem, mem', t.l, t.p, Left);
    RepFrame(mem, mem', t.r, t.p, Right);
  }

  lemma {:induction false} PathFrame(h: Heap, h': Heap, c: Path, x: Ptr)
    requires PathRep(h, c, x) && Same(h.mem, h'.mem, c.Nodes()) && h'.root == h.root
    ensures PathRep(h', c, x)
  {
    if c.In? {
      RepFrame(h.mem, h'.mem, c.sib, c.p, c.d.Flip());
      PathFrame(h, h', c.up, c.p);
    }
  }

  /** Another child may hang in the hole. */
  lemma PathHung(h: Heap, h': Heap, c: Path, x: Ptr, x': Ptr)
    requires PathRep(h, c, x) && PathDistinct(c) && Sound(h)
    requires Same(h.mem, h'.mem, c.Nodes() - {c.Father()})
    requires if c.Top? then h'.root == x'
             else h'.root == h.root && c.p in h'.mem && h'.mem[c.p] == h.mem[c.p].Set(c.d, x')
    ensures PathRep(h', c, x')
  {
    if c.In? {
      RepFrame(h.mem, h'.mem, c.sib, c.p, c.d.Flip());
      PathFrame(h, h', c.up, c.p);
    }
  }

  lemma {:induction false} PathNodes(h: Heap, c: Path, x: Ptr)
    requires PathRep(h, c, x)
    ensures c.Nodes() <= h.mem.Keys
  {
    if c.In? {
      RepNodes(h.mem, c.sib, c.p, c.d.Flip());
      PathNodes(h, c.up, c.p);
    }
  }

  lemma FocusFacts(h: Heap, c: Path, t: Tree)
    requires Focus(h, c, t)
    ensures t.Nodes() + c.Nodes() <= h.mem.Keys
    ensures t.Node? ==> t.p in h.mem && h.mem[t.p] == Cell(t.l.Root(), t.r.Root(), c.Father(), c.Side(), t.red)
    ensures c.In? ==> c.p in h.mem && c.p !in t.Nodes() && h.mem[c.p].Get(c.d) == t.Root() && h.mem[c.p].Get(c.d.Flip()) == c.sib.Root()
    ensures c.In? ==> h.mem[c.p].father == c.up.Father() && h.mem[c.p].side == c.up.Side() && h.mem[c.p].red == c.red
    ensures RedP(h, t.Root()) == t.Red() && RedP(h, c.Father()) == c.RedFather()
    ensures c.In? ==> RedP(h, c.sib.Root()) == c.sib.Red()
    ensures c.Father() != NULL && (c.Top? <==> c.Father() == HEAD)
    ensures c.Top? ==> h.root == t.Root()
    ensures t.Root() == NULL <==> t.Leaf?
  {
    RepNodes(h.mem, t, c.Father(), c.Side());
    PathNodes(h, c, t.Root());
  }

  // ---------------------------------------------------------------- moving the focus

  lemma Ascend(h: Heap, c: Path, t: Tree)
    requires Focus(h, c, t) && c.In?
    ensures Focus(h, c.up, Mk(c.p, c.red, c.d, t, c.sib))
  {
  }

  function Below(c: Path, t: Tree, d: Dir): Path
    requires t.Node?
  {
    In(d, t.p, t.red, t.Kid(d.Flip()), c)
  }

  lemma Descend(h: Heap, c: Path, t: Tree, d: Dir)
    requires Focus(h, c, t) && t.Node?
    ensures Focus(h, Below(c, t, d), t.Kid(d))
    ensures Plug(Below(c, t, d), t.Kid(d)) == Plug(c, t)
  {
  }

  lemma {:induction false} FocusWhole(h: Heap, c: Path, t: Tree)
    requires Focus(h, c, t)
    ensures Focus(h, Top, Plug(c, t))
    decreases c
  {
    if c.In? {
      Ascend(h, c, t);
      FocusWhole(h, c.up, Mk(c.p, c.red, c.d, t, c.sib));
    }
  }

  /** Wherever a node is, there is a way down to it. */
  lemma {:induction false} Locate(h: Heap, c: Path, t: Tree, p: Ptr) returns (c': Path, t': Tree)
    requires Focus(h, c, t) && p in t.Nodes()
    ensures Focus(h, c', t') && t'.Node? && t'.p == p && Plug(c', t') == Plug(c, t)
    decreases t
  {
    if t.p == p {
      c', t' := c, t;
    } else {
      var d := if p in t.l.Nodes() then Left else Right;
      Descend(h, c, t, d);
      c', t' := Locate(h, Below(c, t, d), t.Kid(d), p);
    }
  }

  /** What was the tree t may become t': the father's pointer leads to it, it is held, and nothing
      else of the path has changed. */
  lemma Refocus(h: Heap, h': Heap, c: Path, t: Tree, t': Tree)
    requires Focus(h, c, t) && Sound(h') && Distinct(t') && t'.Nodes() !! c.Nodes()
    requires Rep(h'.mem, t', c.Father(), c.Side())
    requires Same(h.mem, h'.mem, c.Nodes() - {c.Father()})
    requires if c.Top? then h'.root == t'.Root()
             else h'.root == h.root && c.p in h'.mem && h'.mem[c.p] == h.mem[c.p].Set(c.d, t'.Root())
    ensures Focus(h', c, t')
  {
    PathHung(h, h', c, t.Root(), t'.Root());
  }

  /** Repainting the root of the focused tree. */
  lemma Painted(h: Heap, c: Path, t: Tree, red: bool)
    requires Focus(h, c, t) && t.Node?
    ensures t.p in h.mem && Focus(PutRed(h, t.p, red), c, t.Paint(red))
  {
    FocusFacts(h, c, t);
    var h' := PutRed(h, t.p, red);
    RepMoved(h.mem, h'.mem, t, c.Father(), c.Side(), c.Father(), c.Side(), red);
    PathFrame(h, h', c, t.p);
  }

  /** A tree with one of its subtrees exchanged. */
  function WithKid(t: Tree, w: Dir, k: Tree): Tree
    requires t.Node?
  {
    Mk(t.p, t.red, w, k, t.Kid(w.Flip()))
  }

  /** Repainting a child of the focused node. */
  lemma PaintedKid(h: Heap, c: Path, t: Tree, w: Dir, red: bool)
    requires Focus(h, c, t) && t.Node? && t.Kid(w).Node?
    ensures t.Kid(w).p in h.mem
    ensures Focus(PutRed(h, t.Kid(w).p, red), c, WithKid(t, w, t.Kid(w).Paint(red)))
  {
    hide Focus;
    Descend(h, c, t, w);
    Painted(h, Below(c, t, w), t.Kid(w), red);
    Ascend(PutRed(h, t.Kid(w).p, red), Below(c, t, w), t.Kid(w).Paint(red));
  }
}
