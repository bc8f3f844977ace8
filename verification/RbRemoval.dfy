/** Colour and order through the steps that repair a red-black tree after a deletion.  In all of
    them the tree at the place is one black level short of what the path expects. */
module RbRemoval {
  import opened RbShape
  import opened RbHeap

  /** The place c is one black level short with t in it. */
  ghost predicate Short(c: Path, t: Tree, hh: nat) {
    c.In? && !t.Red() && PathRB(c, hh + 1) && RB(t, hh)
  }

  /** The tree at the father of the place. */
  function One(c: Path, t: Tree): Tree
    requires c.In?
  {
    Mk(c.p, c.red, c.d, t, c.sib)
  }

  lemma OneKids(c: Path, t: Tree)
    requires c.In?
    ensures One(c, t).Kid(c.d) == t && One(c, t).Kid(c.d.Flip()) == c.sib && One(c, t).p == c.p && One(c, t).red == c.red
    ensures Below(c.up, One(c, t), c.d) == c
    ensures Plug(c.up, One(c, t)) == Plug(c, t)
  {
  }

  lemma HasBrother(c: Path, t: Tree, hh: nat)
    requires Short(c, t, hh)
    ensures c.sib.Node? && (c.sib.Red() ==> !c.red && !c.sib.l.Red() && !c.sib.r.Red())
  {
  }

  /** Case 1: the brother is red.  After a rotation the place has a red father and a black brother. */
  function AfterRedBrother(c: Path): Path
    requires c.In? && c.sib.Node?
  {
    In(c.d, c.p, true, c.sib.Kid(c.d), In(c.d, c.sib.p, false, c.sib.Kid(c.d.Flip()), c.up))
  }

  lemma RedBrother(c: Path, t: Tree, hh: nat)
    requires Short(c, t, hh) && c.sib.Red()
    ensures One(c, t).Kid(c.d.Flip()).Node?
    ensures var r, c' := Rotated(One(c, t), c.d.Flip()), AfterRedBrother(c);
            && Short(c', t, hh) && c'.sib.Node? && !c'.sib.Red() && !c'.sib.Leaf?
            && r.Node? && c'.up == Below(c.up, r, c.d) && r.Kid(c.d).Node?
            && c' == Below(Below(c.up, r, c.d), r.Kid(c.d), c.d) && r.Kid(c.d).Kid(c.d) == t
            && Plug(c', t).Inorder() == Plug(c, t).Inorder()
  {
    var r, c' := Rotated(One(c, t), c.d.Flip()), AfterRedBrother(c);
    HasBrother(c, t, hh);
    KidRB(c.sib, hh + 1, c.d);
    KidRB(c.sib, hh + 1, c.d.Flip());
    RotatedInorder(One(c, t), c.d.Flip());
    assert Plug(c', t) == Plug(c.up, r);
    PlugInorder(c.up, r);
    PlugInorder(c.up, One(c, t));
    OneKids(c, t);
  }

  /** Case 2a: all black.  The brother turns red and the shortage moves up, or ends at the root. */
  lemma AllBlack(c: Path, t: Tree, hh: nat)
    requires Short(c, t, hh) && !c.red && c.sib.Node? && !c.sib.Red() && !c.sib.l.Red() && !c.sib.r.Red()
    ensures var m := Mk(c.p, false, c.d, t, c.sib.Paint(true));
            && (c.up.In? ==> Short(c.up, m, hh + 1))
            && (c.up.Top? ==> RedBlack(m))
            && Plug(c.up, m).Inorder() == Plug(c, t).Inorder()
  {
    var m := Mk(c.p, false, c.d, t, c.sib.Paint(true));
    assert RB(m, hh + 1);
    PlugInorder(c.up, m);
    PlugInorder(c.up, One(c, t));
    assert c.sib.Paint(true).Inorder() == c.sib.Inorder();
    assert m.Inorder() == One(c, t).Inorder();
  }

  /** Case 2b: a red father with a black brother and black nephews exchange colours. */
  lemma RedFather(c: Path, t: Tree, hh: nat)
    requires Short(c, t, hh) && c.red && c.sib.Node? && !c.sib.Red() && !c.sib.l.Red() && !c.sib.r.Red()
    ensures var m := Mk(c.p, false, c.d, t, c.sib.Paint(true));
            && PathRB(c.up, hh + 1) && RB(m, hh + 1)
            && Plug(c.up, m).Inorder() == Plug(c, t).Inorder()
  {
    var m := Mk(c.p, false, c.d, t, c.sib.Paint(true));
    PlugInorder(c.up, m);
    PlugInorder(c.up, One(c, t));
    assert c.sib.Paint(true).Inorder() == c.sib.Inorder();
    assert m.Inorder() == One(c, t).Inorder();
  }

  /** Case 3: a red near nephew is rotated out, so that the far nephew is red. */
  lemma NearNephew(c: Path, t: Tree, hh: nat)
    requires Short(c, t, hh) && c.sib.Node? && !c.sib.Red() && c.sib.Kid(c.d).Red() && !c.sib.Kid(c.d.Flip()).Red()
    ensures var b := Rotated(c.sib, c.d);
            && Short(c.(sib := b), t, hh) && b.Node? && !b.Red() && b.Kid(c.d.Flip()).Red()
            && Plug(c.(sib := b), t).Inorder() == Plug(c, t).Inorder()
  {
    var b, n, other := Rotated(c.sib, c.d), c.sib.Kid(c.d), c.d.Flip();
    KidRB(c.sib, hh + 1, c.d);
    KidRB(c.sib, hh + 1, other);
    KidRB(n, hh, c.d);
    KidRB(n, hh, other);
    MkRB(c.sib.p, true, c.d, n.Kid(other), c.sib.Kid(other), hh);
    MkRB(n.p, false, c.d, n.Kid(c.d), Mk(c.sib.p, true, c.d, n.Kid(other), c.sib.Kid(other)), hh);
    RotatedInorder(c.sib, c.d);
    PlugInorder(c.up, One(c.(sib := b), t));
    PlugInorder(c.up, One(c, t));
    assert One(c.(sib := b), t).Inorder() == One(c, t).Inorder();
  }

  /** The father's tree with the far nephew painted black. */
  function FarBlack(c: Path, t: Tree): Tree
    requires c.In? && c.sib.Node?
  {
    WithKid(One(c, t), c.d.Flip(), WithKid(c.sib, c.d.Flip(), c.sib.Kid(c.d.Flip()).Paint(false)))
  }

  /** Case 4: with a red far nephew one rotation restores the black height. */
  lemma FarNephew(c: Path, t: Tree, hh: nat)
    requires Short(c, t, hh) && c.sib.Node? && !c.sib.Red() && c.sib.Kid(c.d.Flip()).Red()
    ensures FarBlack(c, t).Kid(c.d.Flip()).Node? && FarBlack(c, t).p == c.p
    ensures var k, r := if c.red then hh + 1 else hh + 2, Rotated(FarBlack(c, t), c.d.Flip());
            && PathRB(c.up, k) && RB(r, k) && !(r.Red() && (c.up.RedFather() || c.up.Top?))
            && Plug(c.up, r).Inorder() == Plug(c, t).Inorder()
  {
    var f, other, far := FarBlack(c, t), c.d.Flip(), c.sib.Kid(c.d.Flip());
    KidRB(c.sib, hh + 1, c.d);
    KidRB(c.sib, hh + 1, other);
    KidRB(far, hh, c.d);
    KidRB(far, hh, other);
    MkRB(far.p, false, c.d, far.Kid(c.d), far.Kid(other), hh);
    assert far.Paint(false) == Mk(far.p, false, c.d, far.Kid(c.d), far.Kid(other));
    MkRB(c.p, false, other, c.sib.Kid(c.d), t, hh);
    MkRB(c.sib.p, c.red, other, far.Paint(false), Mk(c.p, false, other, c.sib.Kid(c.d), t), hh + 1);
    RotatedInorder(f, c.d.Flip());
    PlugInorder(c.up, Rotated(f, c.d.Flip()));
    PlugInorder(c.up, One(c, t));
    FarBlackInorder(c, t);
  }

  lemma FarBlackInorder(c: Path, t: Tree)
    requires c.In? && c.sib.Node?
    ensures FarBlack(c, t).Inorder() == One(c, t).Inorder()
  {
    var k := c.sib.Kid(c.d.Flip());
    assert k.Paint(false).Inorder() == k.Inorder();
    assert WithKid(c.sib, c.d.Flip(), k.Paint(false)).Inorder() == c.sib.Inorder();
  }

  // ---------------------------------------------------------------- taking a node out

  /** A node with nothing on side o gives its place to its other child, painted black. */
  lemma Spliced(h: Heap, h': Heap, c: Path, t: Tree, o: Dir)
    requires Focus(h, c, t) && t.Node? && t.Kid(o).Leaf? && Sound(h')
    requires var son := t.Kid(o.Flip());
             && (son.Node? ==>
                   && son.p in h.mem && son.p in h'.mem
                   && h'.mem[son.p] == h.mem[son.p].(father := c.Father(), side := c.Side(), red := false))
             && SameBut(h.mem, h'.mem, {t.p, son.Root(), c.Father()})
             && (if c.Top? then h'.root == son.Root()
                 else h'.root == h.root && c.p in h.mem && c.p in h'.mem && h'.mem[c.p] == h.mem[c.p].Set(c.d, son.Root()))
    ensures Focus(h', c, t.Kid(o.Flip()).Paint(false))
  {
    var son := t.Kid(o.Flip());
    FocusFacts(h, c, t);
    KidDistinct(t, o);
    KidRep(h.mem, t, c.Father(), c.Side(), o.Flip());
    if son.Node? {
      RepMoved(h.mem, h'.mem, son, t.p, o.Flip(), c.Father(), c.Side(), false);
    }
    assert son.Paint(false).Nodes() == son.Nodes();
    Refocus(h, h', c, t, son.Paint(false));
  }

  /** A node outside the tree takes over the place, children and colour of the focused node. */
  lemma Replaced(h: Heap, h': Heap, c: Path, t: Tree, s: Ptr)
    requires Focus(h, c, t) && t.Node? && s in h.mem && s !in t.Nodes() && s !in c.Nodes()
    requires h'.mem.Keys == h.mem.Keys && t.p in h.mem && h'.mem[s] == h.mem[t.p]
    requires forall d :: t.Kid(d).Node? ==> t.Kid(d).p in h.mem && h'.mem[t.Kid(d).p] == h.mem[t.Kid(d).p].(father := s)
    requires SameBut(h.mem, h'.mem, {s, t.p, t.l.Root(), t.r.Root(), c.Father()})
    requires if c.Top? then h'.root == s
             else h'.root == h.root && c.p in h.mem && h'.mem[c.p] == h.mem[c.p].Set(c.d, s)
    ensures Focus(h', c, Node(s, t.red, t.l, t.r))
  {
    FocusFacts(h, c, t);
    ReplacedKid(h, h', c, t, s, Left);
    ReplacedKid(h, h', c, t, s, Right);
    KidDistinct(t, Left);
    assert c.In? ==> c.p in c.Nodes();
    MkRep(h'.mem, s, t.red, Left, t.l, t.r, c.Father(), c.Side());
    Refocus(h, h', c, t, Node(s, t.red, t.l, t.r));
  }

  lemma ReplacedKid(h: Heap, h': Heap, c: Path, t: Tree, s: Ptr, d: Dir)
    requires Focus(h, c, t) && t.Node? && s in h.mem && s !in t.Nodes()
    requires h'.mem.Keys == h.mem.Keys
    requires t.Kid(d).Node? ==> t.Kid(d).p in h.mem && h'.mem[t.Kid(d).p] == h.mem[t.Kid(d).p].(father := s)
    requires SameBut(h.mem, h'.mem, {s, t.p, t.l.Root(), t.r.Root(), c.Father()})
    ensures Rep(h'.mem, t.Kid(d), s, d)
  {
    var k := t.Kid(d);
    FocusFacts(h, c, t);
    KidDistinct(t, d);
    KidRep(h.mem, t, c.Father(), c.Side(), d);
    if k.Node? {
      assert c.Father() !in k.Nodes();
      RepMoved(h.mem, h'.mem, k, t.p, d, s, d, k.red);
      assert k.Paint(k.red) == k;
    }
  }

  // ---------------------------------------------------------------- the stand-in

  /** Every step of the path is on side o. */
  predicate AllSide(q: Path, o: Dir) { q.In? ==> q.d == o && AllSide(q.up, o) }

  lemma {:induction false} AllSideEnds(q: Path, o: Dir)
    requires AllSide(q, o)
    ensures o.Left? ==> q.Before() == []
    ensures o.Right? ==> q.After() == []
  {
    if q.In? { AllSideEnds(q.up, o); }
  }

  /** The stand-in is the first node of its subtree, seen from side o; taking it out leaves the rest. */
  lemma StandinOrder(q: Path, st: Tree, o: Dir)
    requires AllSide(q, o) && st.Node? && st.Kid(o).Leaf?
    ensures var rest := Plug(q, st.Kid(o.Flip()).Paint(false)).Inorder();
            Plug(q, st).Inorder() == if o.Left? then [st.p] + rest else rest + [st.p]
  {
    hide Plug, Tree.Inorder;
    AllSideEnds(q, o);
    PlugInorder(q, st);
    PlugInorder(q, st.Kid(o.Flip()).Paint(false));
    OneSided(st, o);
  }

  /** A node with nothing on side o comes first, seen from there. */
  lemma OneSided(t: Tree, o: Dir)
    requires t.Node? && t.Kid(o).Leaf?
    ensures var son := t.Kid(o.Flip());
            && t.Inorder() == (if o.Left? then [t.p] + son.Inorder() else son.Inorder() + [t.p])
            && son.Paint(false).Inorder() == son.Inorder()
  {
  }

  lemma MkInorder(p: Ptr, red: bool, d: Dir, near: Tree, far: Tree)
    ensures Mk(p, red, d, near, far).Inorder()
            == if d.Left? then near.Inorder() + [p] + far.Inorder() else far.Inorder() + [p] + near.Inorder()
  {
  }

  /** Removing the focused node by its stand-in removes it from the order and nothing else. */
  lemma SwapOrder(c: Path, t: Tree, q: Path, st: Tree, d: Dir)
    requires t.Node? && AllSide(q, d.Flip()) && st.Node? && st.Kid(d.Flip()).Leaf? && Plug(q, st) == t.Kid(d)
    ensures var son := st.Kid(d).Paint(false);
            Plug(c, Mk(st.p, t.red, d, Plug(q, son), t.Kid(d.Flip()))).Inorder()
            == c.Before() + (t.l.Inorder() + t.r.Inorder()) + c.After()
  {
    hide Plug, Tree.Inorder;
    var son := st.Kid(d).Paint(false);
    StandinOrder(q, st, d.Flip());
    PlugInorder(c, Mk(st.p, t.red, d, Plug(q, son), t.Kid(d.Flip())));
    MkInorder(st.p, t.red, d, Plug(q, son), t.Kid(d.Flip()));
    if d.Right? {
      var l, rest := t.l.Inorder(), Plug(q, son).Inorder();
      assert l + [st.p] + rest == l + ([st.p] + rest);
    }
  }

  /** Colours at a node with nothing on one side: its other child is at most a red leaf. */
  lemma HalfNode(t: Tree, k: nat, o: Dir)
    requires RB(t, k) && t.Node? && t.Kid(o).Leaf?
    ensures var son := t.Kid(o.Flip());
            && (t.red ==> son.Leaf? && k == 0)
            && (!t.red ==> k == 1 && (son.Node? ==> son.red && son.l.Leaf? && son.r.Leaf?))
            && (son.Node? ==> RB(son.Paint(false), 1))
  {
    KidRB(t, k, o);
    KidRB(t, k, o.Flip());
    var son := t.Kid(o.Flip());
    if son.Node? {
      KidRB(son, 0, Left);
      KidRB(son, 0, Right);
    }
  }

  lemma {:induction false} FocusUp(h: Heap, q: Path, base: Path, t: Tree)
    requires Focus(h, Append(q, base), t)
    ensures Focus(h, base, Plug(q, t))
    decreases q
  {
    hide Focus;
    if q.In? {
      Ascend(h, Append(q, base), t);
      FocusUp(h, q.up, base, Mk(q.p, q.red, q.d, t, q.sib));
    }
  }

  lemma {:induction false} FocusDown(h: Heap, q: Path, base: Path, t: Tree)
    requires Focus(h, base, Plug(q, t))
    ensures Focus(h, Append(q, base), t)
    decreases q
  {
    hide Focus;
    if q.In? {
      var m := Mk(q.p, q.red, q.d, t, q.sib);
      FocusDown(h, q.up, base, m);
      Descend(h, Append(q.up, base), m, q.d);
    }
  }

  lemma {:induction false} PlugRoot(q: Path, x: Tree, y: Tree)
    requires q.In?
    ensures Plug(q, x).Node? && Plug(q, y).Node? && Plug(q, x).p == Plug(q, y).p
    decreases q
  {
    if q.up.In? { PlugRoot(q.up, Mk(q.p, q.red, q.d, x, q.sib), Mk(q.p, q.red, q.d, y, q.sib)); }
  }

  /** Node t, with two children, is to be replaced by the nearest node st of its subtree on side d. */
  ghost predicate Standin(h: Heap, c: Path, t: Tree, q: Path, st: Tree, d: Dir) {
    && Focus(h, c, t) && t.Node? && t.l.Node? && t.r.Node?
    && AllSide(q, d.Flip()) && st.Node? && st.Kid(d.Flip()).Leaf? && Plug(q, st) == t.Kid(d)
  }

  /** The node above the stand-in, and the side it is on. */
  function Above(t: Tree, q: Path): Ptr
    requires t.Node?
  {
    if q.Top? then t.p else q.p
  }

  /** The cells after the stand-in has taken the place of t. */
  ghost predicate SwapCells(h: Heap, h': Heap, c: Path, t: Tree, q: Path, st: Tree, d: Dir)
    requires t.Node? && t.l.Node? && t.r.Node? && st.Node?
  {
    var o, son := d.Flip(), st.Kid(d);
    var k, far := t.Kid(d).p, t.Kid(d.Flip()).p;
    && h'.mem.Keys == h.mem.Keys && {st.p, k, far} <= h.mem.Keys
    && h'.mem[st.p].Get(o) == far && h'.mem[st.p].Get(d) == (if q.Top? then son.Root() else k)
    && h'.mem[st.p].father == c.Father() && h'.mem[st.p].side == c.Side() && h'.mem[st.p].red == t.red
    && (son.Node? ==>
          && son.p in h.mem
          && h'.mem[son.p] == h.mem[son.p].(father := if q.Top? then st.p else q.p, side := if q.Top? then d else o, red := false))
    && h'.mem[far] == h.mem[far].(father := st.p)
    && (q.In? ==>
          && q.p in h.mem
          && h'.mem[q.p] == (if q.p == k then h.mem[q.p].(father := st.p) else h.mem[q.p]).Set(o, son.Root())
          && (q.p != k ==> h'.mem[k] == h.mem[k].(father := st.p)))
    && SameBut(h.mem, h'.mem, {t.p, st.p, son.Root(), far, Above(t, q), k, c.Father()})
    && (if c.Top? then h'.root == st.p
        else h'.root == h.root && c.p in h.mem && h'.mem[c.p] == h.mem[c.p].Set(c.d, st.p))
  }

  /** Where the stand-in's child ends up. */
  function SwapPath(c: Path, t: Tree, q: Path, st: Tree, d: Dir): Path
    requires t.Node? && st.Node?
  {
    Append(q, In(d, st.p, t.red, t.Kid(d.Flip()), c))
  }

  /** The nodes around the stand-in are all different, and their cells are as the tree says. */
  lemma StandinFacts(h: Heap, c: Path, t: Tree, q: Path, st: Tree, d: Dir)
    requires Standin(h, c, t, q, st, d)
    ensures Focus(h, Append(q, Below(c, t, d)), st)
    ensures var o, son, k, far := d.Flip(), st.Kid(d), t.Kid(d).p, t.Kid(d.Flip()).p;
            && {t.p, st.p, k, far} <= h.mem.Keys
            && h.mem[t.p] == Cell(t.l.p, t.r.p, c.Father(), c.Side(), t.red)
            && h.mem[st.p].father == Above(t, q) && h.mem[st.p].side == (if q.Top? then d else o)
            && h.mem[st.p].red == st.red && h.mem[st.p].Get(d) == son.Root() && h.mem[st.p].Get(o) == NULL
            && (son.Node? ==>
                  && son.p in h.mem && h.mem[son.p].father == st.p && h.mem[son.p].side == d
                  && son.p !in {t.p, st.p, k, far, c.Father(), Above(t, q)})
            && RedP(h, son.Root()) == son.Red() && (son.Root() == NULL <==> son.Leaf?)
            && st.p !in {t.p, far, c.Father(), NULL, HEAD} && (q.Top? <==> st.p == k)
            && t.p !in {far, k, c.Father(), NULL} && far !in {k, c.Father(), NULL} && k !in {c.Father(), NULL}
            && (q.In? ==> q.d == o && q.p in h.mem && q.p !in {t.p, st.p, far, c.Father()} && h.mem[q.p].Get(o) == st.p)
            && (c.Top? <==> c.Father() == HEAD) && (c.In? ==> c.p in h.mem) && (c.Top? ==> c.Side() == Left)
  {
    var o, cp := d.Flip(), Append(q, Below(c, t, d));
    FocusFacts(h, c, t);
    Descend(h, c, t, d);
    Descend(h, c, t, o);
    FocusFacts(h, Below(c, t, d), t.Kid(d));
    FocusFacts(h, Below(c, t, o), t.Kid(o));
    FocusDown(h, q, Below(c, t, d), st);
    FocusFacts(h, cp, st);
    Descend(h, cp, st, d);
    FocusFacts(h, Below(cp, st, d), st.Kid(d));
    PlugNodes(q, st);
    assert cp.Father() == Above(t, q) && cp.Side() == if q.Top? then d else o;
    if q.In? { StandinBelow(q, st); }
  }

  lemma StandinBelow(q: Path, st: Tree)
    requires q.In? && st.Node? && Distinct(Plug(q, st))
    ensures Plug(q, st).Node? && Plug(q, st).p != st.p && Plug(q, st).p in q.Nodes() && st.p in Plug(q, st).Nodes()
    decreases q
  {
    PlugNodes(q, st);
    if q.up.Top? {
      MkNodes(q.p, q.red, q.d, st, q.sib);
    } else {
      var m := Mk(q.p, q.red, q.d, st, q.sib);
      StandinBelow(q.up, m);
      PlugDistinct(q.up, m);
      assert st.p in m.Nodes();
    }
  }

  lemma {:induction false} PlugDistinct(q: Path, t: Tree)
    requires Distinct(Plug(q, t))
    ensures Apart(q, t)
    decreases q
  {
    if q.In? {
      var m := Mk(q.p, q.red, q.d, t, q.sib);
      PlugDistinct(q.up, m);
      KidDistinct(m, q.d);
      assert m.Kid(q.d) == t && m.Kid(q.d.Flip()) == q.sib;
    }
  }

  /** The heap halfway: the stand-in's place given to its child, the stand-in itself free. */
  ghost function Halfway(h: Heap, t: Tree, q: Path, st: Tree, d: Dir): Heap
    requires t.Node? && st.Node? && Above(t, q) in h.mem && (st.Kid(d).Node? ==> st.Kid(d).p in h.mem)
  {
    var son, f, w := st.Kid(d), Above(t, q), if q.Top? then d else d.Flip();
    var m := h.mem[f := h.mem[f].Set(w, son.Root())];
    Heap(h.root, if son.Leaf? then m else m[son.p := h.mem[son.p].(father := f, side := w, red := false)])
  }

  lemma TopPlug(t: Tree)
    ensures Plug(Top, t) == t
  {
  }

  lemma SoundFocus(h: Heap, c: Path, t: Tree)
    requires Focus(h, c, t)
    ensures Sound(h)
  {
  }

  lemma HalfwayFocus(h: Heap, c: Path, t: Tree, q: Path, st: Tree, d: Dir)
    requires Standin(h, c, t, q, st, d) && Above(t, q) in h.mem && (st.Kid(d).Node? ==> st.Kid(d).p in h.mem)
    ensures var h1, son := Halfway(h, t, q, st, d), st.Kid(d).Paint(false);
            && h1.mem.Keys == h.mem.Keys && h1.root == h.root
            && Focus(h1, c, Mk(t.p, t.red, d, Plug(q, son), t.Kid(d.Flip())))
  {
    hide Focus, AllSide, Plug, Distinct;
    var h1, son, base := Halfway(h, t, q, st, d), st.Kid(d).Paint(false), Below(c, t, d);
    StandinFacts(h, c, t, q, st, d);
    SoundFocus(h, c, t);
    assert Append(q, base).Father() == Above(t, q) && Append(q, base).In?;
    Spliced(h, h1, Append(q, base), st, d.Flip());
    FocusUp(h1, q, base, son);
    Ascend(h1, base, Plug(q, son));
  }

  lemma SwapFocus(h: Heap, h': Heap, c: Path, t: Tree, q: Path, st: Tree, d: Dir)
    requires Standin(h, c, t, q, st, d) && SwapCells(h, h', c, t, q, st, d)
    ensures Focus(h', SwapPath(c, t, q, st, d), st.Kid(d).Paint(false))
  {
    StandinFacts(h, c, t, q, st, d);
    HalfwayFocus(h, c, t, q, st, d);
    var h1, son := Halfway(h, t, q, st, d), st.Kid(d).Paint(false);
    var k := Plug(q, son);
    var t1 := Mk(t.p, t.red, d, k, t.Kid(d.Flip()));
    StandinGone(h, c, t, q, st, d);
    if q.In? { PlugRoot(q, st, son); }
    SwapReplaces(h, h', c, t, q, st, d);
    Replaced(h1, h', c, t1, st.p);
    var t2 := Node(st.p, t1.red, t1.l, t1.r);
    Descend(h', c, t2, d);
    assert Below(c, t2, d) == In(d, st.p, t.red, t.Kid(d.Flip()), c) && t2.Kid(d) == k;
    FocusDown(h', q, In(d, st.p, t.red, t.Kid(d.Flip()), c), son);
  }

  lemma StandinGone(h: Heap, c: Path, t: Tree, q: Path, st: Tree, d: Dir)
    requires Standin(h, c, t, q, st, d)
    ensures var k := Plug(q, st.Kid(d).Paint(false));
            st.p !in Mk(t.p, t.red, d, k, t.Kid(d.Flip())).Nodes() && st.p !in c.Nodes()
  {
    var son := st.Kid(d).Paint(false);
    var k := Plug(q, son);
    FocusFacts(h, c, t);
    KidDistinct(t, d);
    PlugDistinct(q, st);
    PlugNodes(q, st);
    PlugNodes(q, son);
    KidDistinct(st, d);
    assert son.Nodes() == st.Kid(d).Nodes();
    MkNodes(t.p, t.red, d, k, t.Kid(d.Flip()));
  }

  lemma SwapSame(h: Heap, h': Heap, c: Path, t: Tree, q: Path, st: Tree, d: Dir)
    requires Standin(h, c, t, q, st, d) && SwapCells(h, h', c, t, q, st, d)
    requires Above(t, q) in h.mem && (st.Kid(d).Node? ==> st.Kid(d).p in h.mem)
    ensures Same(Halfway(h, t, q, st, d).mem, h'.mem,
                 h.mem.Keys - {st.p, t.p, Plug(q, st.Kid(d).Paint(false)).Root(), t.Kid(d.Flip()).p, c.Father()})
  {
    hide Focus, AllSide, Plug, Distinct;
    StandinFacts(h, c, t, q, st, d);
    SoundFocus(h, c, t);
    var h1, son, k := Halfway(h, t, q, st, d), st.Kid(d), Plug(q, st.Kid(d).Paint(false));
    if q.In? {
      PlugRoot(q, st, son.Paint(false));
    } else {
      TopPlug(st);
      TopPlug(son.Paint(false));
    }
    forall p | p in h.mem && p !in {st.p, t.p, k.Root(), t.Kid(d.Flip()).p, c.Father()} ensures h'.mem[p] == h1.mem[p] {
      if son.Node? && p == son.p {
      } else if q.In? && p == q.p {
      } else {
        assert h1.mem[p] == h.mem[p];
      }
    }
  }

  /** The final cells, seen from halfway. */
  lemma SwapReplaces(h: Heap, h': Heap, c: Path, t: Tree, q: Path, st: Tree, d: Dir)
    requires Standin(h, c, t, q, st, d) && SwapCells(h, h', c, t, q, st, d)
    requires Above(t, q) in h.mem && (st.Kid(d).Node? ==> st.Kid(d).p in h.mem)
    ensures var h1, k := Halfway(h, t, q, st, d), Plug(q, st.Kid(d).Paint(false));
            var t1 := Mk(t.p, t.red, d, k, t.Kid(d.Flip()));
            && h'.mem.Keys == h1.mem.Keys && t.p in h1.mem && st.p in h1.mem && h'.mem[st.p] == h1.mem[t.p]
            && (forall w :: t1.Kid(w).Node? ==> t1.Kid(w).p in h1.mem && h'.mem[t1.Kid(w).p] == h1.mem[t1.Kid(w).p].(father := st.p))
            && SameBut(h1.mem, h'.mem, {st.p, t.p, t1.l.Root(), t1.r.Root(), c.Father()})
            && (if c.Top? then h'.root == st.p
                else h'.root == h1.root && c.p in h1.mem && h'.mem[c.p] == h1.mem[c.p].Set(c.d, st.p))
  {
    hide Focus, AllSide, Plug, Distinct, Tree.Nodes, Tree.Inorder, Path.Nodes, Path.Before, Path.After;
    StandinFacts(h, c, t, q, st, d);
    var h1, son := Halfway(h, t, q, st, d), st.Kid(d).Paint(false);
    var k := Plug(q, son);
    var t1 := Mk(t.p, t.red, d, k, t.Kid(d.Flip()));
    if q.In? {
      PlugRoot(q, st, son);
    } else {
      TopPlug(st);
      TopPlug(son);
    }
    forall w ensures t1.Kid(w).Node? ==> t1.Kid(w).p in h1.mem && h'.mem[t1.Kid(w).p] == h1.mem[t1.Kid(w).p].(father := st.p) {
      assert w == d || w == d.Flip();
    }
    assert h'.mem[st.p] == h1.mem[t.p];
    assert {t1.l.Root(), t1.r.Root()} == {k.Root(), t.Kid(d.Flip()).p};
    SwapSame(h, h', c, t, q, st, d);
  }
}
