/** The red-black tree: find, insertion with its rebalancing loop, deletion with its three prune
    paths and its rebalancing loop, and stepping to a neighbour. */
module RbTree {
  import opened Powers
  import opened RbShape
  import opened RbHeap
  import opened RbRemoval

  /** The cached extremes. */
  datatype Ends = Ends(min: Ptr, max: Ptr) {
    function Get(d: Dir): Ptr { if d.Left? then min else max }
    function Set(d: Dir, x: Ptr): Ends { if d.Left? then this.(min := x) else this.(max := x) }
  }

  /** While the tree is not empty, the cached extremes are its first and last nodes. */
  predicate Extremes(ends: Ends, s: seq<Ptr>) {
    s != [] ==> ends.min == s[0] && ends.max == s[|s| - 1]
  }

  // ---------------------------------------------------------------- rotation in memory

  /** What the heap holds around a node and its child on side w. */
  lemma RotateFacts(h: Heap, c: Path, t: Tree, w: Dir)
    requires Focus(h, c, t) && t.Node? && t.Kid(w).Node?
    ensures var ch := t.Kid(w); var a := ch.Kid(w.Flip());
            && t.p in h.mem && ch.p in h.mem && t.p != ch.p && c.Father() !in {t.p, ch.p}
            && h.mem[t.p] == Cell(t.l.Root(), t.r.Root(), c.Father(), c.Side(), t.red)
            && h.mem[ch.p] == Cell(ch.l.Root(), ch.r.Root(), t.p, w, ch.red)
            && (a.Node? ==> a.p in h.mem && a.p !in {t.p, ch.p, c.Father(), NULL})
            && (c.In? ==> c.p in h.mem)
            && (c.Top? <==> c.Father() == HEAD)
            && HEAD !in h.mem && NULL !in h.mem
  {
    FocusFacts(h, c, t);
    KidRep(h.mem, t, c.Father(), c.Side(), w);
  }

  /** The cells after a rotation, all others being as they were. */
  ghost predicate RotatedCells(h: Heap, h': Heap, c: Path, t: Tree, w: Dir)
    requires t.Node? && t.Kid(w).Node?
  {
    var ch, other := t.Kid(w), w.Flip();
    var a := ch.Kid(other);
    && h'.mem.Keys == h.mem.Keys
    && ch.p in h.mem && t.p in h.mem
    && h'.mem[ch.p] == h.mem[ch.p].Set(other, t.p).(father := c.Father(), side := c.Side(), red := t.red)
    && h'.mem[t.p] == h.mem[t.p].Set(w, a.Root()).(father := ch.p, side := other, red := ch.red)
    && (a.Node? ==> a.p in h.mem && h'.mem[a.p] == h.mem[a.p].(father := t.p, side := w))
    && SameBut(h.mem, h'.mem, {ch.p, t.p, a.Root(), c.Father()})
    && (if c.Top? then h'.root == ch.p
        else h'.root == h.root && c.p in h.mem && h'.mem[c.p] == h.mem[c.p].Set(c.d, ch.p))
  }

  lemma RotateDisjoint(c: Path, t: Tree, w: Dir)
    requires Apart(c, t) && t.Node? && t.Kid(w).Node? && HEAD !in t.Nodes() && NULL !in t.Nodes() && NULL !in c.Nodes()
    ensures var ch, x := t.Kid(w), {t.Kid(w).p, t.p, t.Kid(w).Kid(w.Flip()).Root(), c.Father()};
            && ch.Kid(w).Nodes() !! x && t.Kid(w.Flip()).Nodes() !! x
            && Distinct(ch.Kid(w.Flip())) && ch.Kid(w.Flip()).Nodes() !! {ch.p, t.p, c.Father()}
            && (c.Nodes() - {c.Father()}) !! x
  {
    hide Distinct, PathDistinct;
    KidDistinct(t, w);
    KidDistinct(t.Kid(w), w);
    assert c.In? ==> c.p in c.Nodes();
  }

  lemma RotateRep(h: Heap, h': Heap, c: Path, t: Tree, w: Dir)
    requires Focus(h, c, t) && t.Node? && t.Kid(w).Node? && RotatedCells(h, h', c, t, w)
    ensures Rep(h'.mem, Rotated(t, w), c.Father(), c.Side())
    ensures Same(h.mem, h'.mem, c.Nodes() - {c.Father()})
  {
    hide Rep, PathRep, Apart, Distinct;
    var ch, other := t.Kid(w), w.Flip();
    var a, b, s := ch.Kid(other), ch.Kid(w), t.Kid(other);
    RotateFacts(h, c, t, w);
    FocusFacts(h, c, t);
    RotateDisjoint(c, t, w);
    KidRep(h.mem, t, c.Father(), c.Side(), w);
    KidRep(h.mem, t, c.Father(), c.Side(), other);
    KidRep(h.mem, ch, t.p, w, w);
    KidRep(h.mem, ch, t.p, w, other);
    RepFrame(h.mem, h'.mem, b, ch.p, w);
    RepFrame(h.mem, h'.mem, s, t.p, other);
    if a.Node? {
      RepMoved(h.mem, h'.mem, a, ch.p, other, t.p, w, a.red);
    } else {
      LeafRep(h'.mem, t.p, w);
    }
    MkRep(h'.mem, t.p, ch.red, w, a, s, ch.p, other);
    MkRep(h'.mem, ch.p, t.red, w, b, Mk(t.p, ch.red, w, a, s), c.Father(), c.Side());
  }

  lemma LeafRep(mem: Mem, f: Ptr, d: Dir)
    ensures Rep(mem, Leaf, f, d)
  {
  }

  lemma RotateFocus(h: Heap, h': Heap, c: Path, t: Tree, w: Dir)
    requires Focus(h, c, t) && t.Node? && t.Kid(w).Node? && RotatedCells(h, h', c, t, w)
    ensures Focus(h', c, Rotated(t, w))
  {
    RotatedInorder(t, w);
    RotatedDistinct(t, w);
    RotateRep(h, h', c, t, w);
    Refocus(h, h', c, t, Rotated(t, w));
  }

  class RbTree {
    /** Where the order puts each node; the owner of a node sets it before inserting it. */
    var key: Ptr -> int
    var h: Heap
    var ends: Ends
    ghost var tree: Tree

    ghost predicate Valid()
      reads this
    {
      && Focus(h, Top, tree)
      && RedBlack(tree)
      && Sorted(key, tree.Inorder())
      && Extremes(ends, tree.Inorder())
    }

    constructor (key: Ptr -> int, mem: Mem)
      requires NULL !in mem && HEAD !in mem
      ensures Valid() && tree == Leaf && this.key == key && h.mem == mem
    {
      this.key := key;
      h := Heap(NULL, mem);
      ends := Ends(NULL, NULL);
      tree := Leaf;
      new;
      assert RB(Leaf, 0);
    }

    /** Exchange the links of a node and its child on one side. */
    method SwapLinks(oldFather: Ptr, which: Dir)
      requires Sound(h) && oldFather in h.mem && Kid(h, oldFather, which) in h.mem
      requires var g, ch := h.mem[oldFather].father, Kid(h, oldFather, which);
               && oldFather != ch && g !in {oldFather, ch}
               && if g == HEAD then h.mem[oldFather].side == Left else g in h.mem
      modifies this`h
      ensures var o, p, ch := old(h), oldFather, Kid(old(h), oldFather, which);
              var g, other := o.mem[p].father, which.Flip();
              && h.root == (if g == HEAD then ch else o.root)
              && h.mem == (if g == HEAD then o.mem else o.mem[g := o.mem[g].Set(o.mem[p].side, ch)])
                          [p := o.mem[p].Set(which, o.mem[ch].Get(other)).(father := ch)]
                          [ch := o.mem[ch].Set(other, p).(father := g)]
    {
      var other := which.Flip();
      var grandpa := h.mem[oldFather].father;
      var oldChild := Kid(h, oldFather, which);
      var newFather, newChild := oldChild, oldFather;
      h := PutKid(h, grandpa, h.mem[oldFather].side, newFather);
      h := PutKid(h, newChild, which, Kid(h, oldChild, other));
      h := PutKid(h, newFather, other, newChild);
      h := PutFather(h, newFather, grandpa);
      h := PutFather(h, newChild, newFather);
    }

    method SwapProperties(p: Ptr, q: Ptr)
      requires p in h.mem && q in h.mem && p != q
      modifies this`h
      ensures var o := old(h).mem;
              h == Heap(old(h).root, o[p := o[p].(side := o[q].side, red := o[q].red)]
                                      [q := o[q].(side := o[p].side, red := o[p].red)])
    {
      var a, b := h.mem[p], h.mem[q];
      h := Put(h, p, a.(side := b.side, red := b.red));
      h := Put(h, q, b.(side := a.side, red := a.red));
    }

    /** Swap the place and colour of a node and its child. */
    method Reparent(oldFather: Ptr, which: Dir, ghost c: Path, ghost t: Tree)
      requires Focus(h, c, t) && t.Node? && t.p == oldFather && t.Kid(which).Node?
      modifies this`h
      ensures Focus(h, c, Rotated(t, which)) && h.mem.Keys == old(h.mem.Keys)
    {
      hide Focus, Rotated;
      RotateFacts(h, c, t, which);
      var other := which.Flip();
      var oldChild := Kid(h, oldFather, which);
      SwapLinks(oldFather, which);
      SwapProperties(oldChild, oldFather);
      h := PutSide(h, oldFather, other);
      var moved := Kid(h, oldFather, which);
      if moved != NULL {
        h := PutFather(h, moved, oldFather);
        h := PutSide(h, moved, which);
      }
      RotateFocus(old(h), h, c, t, which);
    }
  
    /** A new node outside the tree, with its place in the order. */
    method NewNode(k: int) returns (p: Ptr)
      requires Valid()
      modifies this`h, this`key
      ensures Valid() && p !in old(h.mem) && h.mem.Keys == old(h.mem.Keys) + {p} && p !in tree.Nodes() && p != NULL
      ensures key(p) == k && forall q :: q != p ==> key(q) == old(key)(q)
    {
      FocusFacts(h, Top, tree);
      FreshPtr(h.mem.Keys);
      p :| p !in h.mem && p != NULL && p != HEAD;
      var was, me := key, p;
      key := (q: Ptr) => if q == me then k else was(q);
      h := h.(mem := h.mem[p := Cell(NULL, NULL, NULL, Left, false)]);
      FocusFrame(old(h), h, tree);
      InorderNodes(tree);
      SortedSame(was, key, tree.Inorder());
    }

    /** Find a node a comparison accepts, visiting at most 2 log2(n + 1) nodes.  The comparison must
        go along with the order: below a node it puts low, and above one it puts high, it says the
        same. */
    method Find(cmp: Ptr -> int) returns (r: Ptr, visited: nat, ghost path: seq<Ptr>)
      requires Valid() && Consistent(key, cmp, tree.Nodes())
      ensures r != NULL ==> r in tree.Nodes() && cmp(r) == 0
      ensures r == NULL ==> forall p :: p in tree.Nodes() ==> cmp(p) != 0
      ensures Pow2(visited) <= (Size(tree) + 1) * (Size(tree) + 1)
      ensures visited == |path| && r == if path != [] && cmp(path[visited - 1]) == 0 then path[visited - 1] else NULL
      ensures Searched(cmp, path) && (r == NULL ==> Onward(cmp, path) == NULL)
    {
      hide Focus, RedBlack, Sorted, Extremes, Consistent, Sides, Searched;
      ghost var c, t := Top, tree;
      FocusFacts(h, c, t);
      NoneSearched(cmp);
      SidesTop(cmp);
      r, visited, path := h.root, 0, [];
      while r != NULL
        invariant Focus(h, c, t) && Plug(c, t) == tree && r == t.Root() && Sides(cmp, c)
        invariant visited + Height(t) <= Height(tree) && visited == |path|
        invariant Searched(cmp, path) && r == Onward(cmp, path) && (path != [] ==> cmp(path[visited - 1]) != 0)
        decreases t
      {
        FocusFacts(h, c, t);
        SearchedMore(cmp, path);
        visited, path := visited + 1, path + [r];
        if cmp(r) == 0 {
          PlugHas(c, t);
          break;
        }
        var d := if cmp(r) < 0 then Right else Left;
        FindStep(key, cmp, c, t, d);
        Descend(h, c, t, d);
        c, t, r := Below(c, t, d), t.Kid(d), Kid(h, r, d);
      }
      if r == NULL {
        FocusFacts(h, c, t);
        NoneFound(cmp, c);
      }
      Pow2Mono(visited, Height(tree));
      HeightLog(tree);
    }

    /** Where the search goes after the nodes compared so far. */
    ghost function Onward(cmp: Ptr -> int, path: seq<Ptr>): Ptr
      reads this
    {
      if path == [] then h.root
      else
        var p := path[|path| - 1];
        if p in h.mem then Kid(h, p, if cmp(p) < 0 then Right else Left) else NULL
    }

    /** The nodes compared, one after another, go down from the root. */
    ghost predicate Searched(cmp: Ptr -> int, path: seq<Ptr>)
      reads this
    {
      forall i :: 0 <= i < |path| ==> path[i] == Onward(cmp, path[..i])
    }

    lemma NoneSearched(cmp: Ptr -> int)
      ensures Searched(cmp, [])
    {
    }

    lemma SearchedMore(cmp: Ptr -> int, path: seq<Ptr>)
      requires Searched(cmp, path)
      ensures Searched(cmp, path + [Onward(cmp, path)])
    {
      hide Onward;
      var p := path + [Onward(cmp, path)];
      forall i | 0 <= i < |p| ensures p[i] == Onward(cmp, p[..i]) {
        assert p[..i] == if i < |path| then path[..i] else path;
      }
    }

    /** Find the node with a key or else the nearest one beyond it: above for Right, below for Left. */
    method FindNear(k: int, d: Dir) returns (r: Ptr)
      requires Valid()
      ensures r != NULL ==> r in tree.Nodes() && (if d.Right? then key(r) >= k else key(r) <= k)
      ensures r != NULL ==> forall p :: p in tree.Nodes() && (if d.Right? then key(p) >= k else key(p) <= k) ==>
                              if d.Right? then key(r) <= key(p) else key(p) <= key(r)
      ensures r == NULL ==> forall p :: p in tree.Nodes() ==> if d.Right? then key(p) < k else key(p) > k
    {
      hide Focus, RedBlack, Sorted, Brackets, Extremes;
      ghost var c, t := Top, tree;
      FocusFacts(h, c, t);
      BracketsTop(key, k);
      var parent, last := h.root, NULL;
      while parent != NULL
        invariant Focus(h, c, t) && Plug(c, t) == tree && Brackets(key, c, k)
        invariant parent == t.Root() && last == Nearest(c, d)
        decreases t
      {
        FocusFacts(h, c, t);
        if key(parent) == k {
          PlugHas(c, t);
          return parent;
        }
        if (d.Right? && key(parent) > k) || (d.Left? && key(parent) < k) {
          last := parent;
        }
        var side := if key(parent) < k then Right else Left;
        SearchStep(key, c, t, side, k);
        Descend(h, c, t, side);
        c, t, parent := Below(c, t, side), t.Kid(side), Kid(h, parent, side);
      }
      FocusFacts(h, c, t);
      NullOutside(h, tree);
      NearestKey(key, c, k, d);
      r := last;
    }

    /** Insert a node, or find the one already there with its key. */
    method Insert(self: Ptr) returns (r: Ptr)
      requires Valid() && self in h.mem
      modifies this`h, this`ends, this`tree
      ensures Valid() && h.mem.Keys == old(h.mem.Keys)
      ensures (exists p :: p in old(tree).Nodes() && key(p) == key(self)) ==>
                r in tree.Nodes() && key(r) == key(self) && h == old(h) && ends == old(ends) && tree == old(tree)
      ensures (forall p :: p in old(tree).Nodes() ==> key(p) != key(self)) ==>
                r == self && tree.Nodes() == old(tree).Nodes() + {self}
    {
      hide Focus, RedBlack, Sorted, Brackets, Extremes;
      ghost var c, t;
      var parent, position;
      r, parent, position, c, t := FindPlace(key(self));
      FocusFacts(h, c, t);
      if r != NULL {
        PlugHas(c, t);
        return;
      }
      Absent(key, c, key(self));
      AddNew(self, parent, position, c);
      OneMore(tree, c, self);
      r := self;
    }

    method AddNew(self: Ptr, parent: Ptr, position: Dir, ghost c: Path)
      requires Valid() && Focus(h, c, Leaf) && Plug(c, Leaf) == tree && Brackets(key, c, key(self))
      requires self in h.mem && self !in tree.Nodes() && parent == c.Father() && position == c.Side()
      modifies this`h, this`ends, this`tree
      ensures Valid() && h.mem.Keys == old(h.mem.Keys)
      ensures tree.Inorder() == c.Before() + [self] + c.After()
    {
      hide Focus, RedBlack, Sorted, Brackets, Extremes, Plug;
      PlugNodes(c, Leaf);
      LeafEnds(key, ends, c, self);
      var rebalance := AddLeaf(self, parent, position, c);
      LeafInorder(c, self, c.In?);
      FinishInsert(self, rebalance, c);
    }

    /** Walk down to the node with a key, or to the empty place where it belongs. */
    method FindPlace(k: int) returns (r: Ptr, parent: Ptr, position: Dir, ghost c: Path, ghost t: Tree)
      requires Valid()
      ensures Focus(h, c, t) && Plug(c, t) == tree && Brackets(key, c, k)
      ensures r == t.Root() && parent == c.Father() && position == c.Side()
      ensures r == NULL || key(r) == k
    {
      hide Focus, RedBlack, Sorted, Brackets, Extremes;
      c, t := Top, tree;
      FocusFacts(h, c, t);
      BracketsTop(key, k);
      r, parent, position := h.root, HEAD, Left;
      while r != NULL
        invariant Focus(h, c, t) && Plug(c, t) == tree && Brackets(key, c, k)
        invariant r == t.Root() && parent == c.Father() && position == c.Side()
        decreases t
      {
        FocusFacts(h, c, t);
        if key(r) == k {
          return;
        }
        parent, position := r, if key(r) < k then Right else Left;
        SearchStep(key, c, t, position, k);
        Descend(h, c, t, position);
        c, t, r := Below(c, t, position), t.Kid(position), Kid(h, parent, position);
      }
    }

    /** Link a new leaf, black at the root and red elsewhere. */
    method AddLeaf(self: Ptr, parent: Ptr, position: Dir, ghost c: Path) returns (rebalance: bool)
      requires Focus(h, c, Leaf) && self in h.mem && self !in c.Nodes() && parent == c.Father() && position == c.Side()
      modifies this`h, this`ends
      ensures Focus(h, c, Node(self, c.In?, Leaf, Leaf)) && h.mem.Keys == old(h.mem.Keys)
      ensures ends == if c.Top? then Ends(self, self)
                      else if old(ends).Get(c.d) == c.p then old(ends).Set(c.d, self) else old(ends)
      ensures rebalance == c.RedFather()
    {
      hide Focus;
      FocusFacts(h, c, Leaf);
      h := PutFather(h, self, parent);
      h := PutSide(h, self, position);
      if parent == HEAD {
        h := PutRed(h, self, false);
        ends := Ends(self, self);
        rebalance := false;
      } else {
        if parent == ends.Get(position) {
          ends := ends.Set(position, self);
        }
        h := PutRed(h, self, true);
        rebalance := RedP(h, parent);
      }
      h := Put(h, self, h.mem[self].(left := NULL, right := NULL));
      h := PutKid(h, parent, position, self);
      HungLeaf(old(h), h, c, self, c.In?);
    }

    method FinishInsert(self: Ptr, rebalance: bool, ghost c: Path)
      requires Focus(h, c, Node(self, c.In?, Leaf, Leaf)) && rebalance == c.RedFather() && RedBlack(Plug(c, Leaf))
      modifies this`h, this`tree
      ensures Focus(h, Top, tree) && RedBlack(tree) && h.mem.Keys == old(h.mem.Keys)
      ensures tree.Inorder() == Plug(c, Node(self, c.In?, Leaf, Leaf)).Inorder()
    {
      ghost var hh: nat :| RB(Plug(c, Leaf), hh);
      ghost var k := SplitRB(c, Leaf, hh);
      if rebalance {
        InsertRebalance(self, c, Node(self, true, Leaf, Leaf), 0);
      } else if c.Top? {
        Settle(c, Node(self, false, Leaf, Leaf), 1);
      } else {
        Settle(c, Node(self, true, Leaf, Leaf), 0);
      }
    }

    /** Take the tree in focus as the whole. */
    ghost method Settle(c: Path, t: Tree, hh: nat)
      requires Focus(h, c, t) && PathRB(c, hh) && RB(t, hh) && !(t.Red() && (c.RedFather() || c.Top?))
      modifies this`tree
      ensures tree == Plug(c, t) && Focus(h, Top, tree) && RedBlack(tree)
    {
      FocusWhole(h, c, t);
      PlugRB(c, t, hh);
      tree := Plug(c, t);
    }

    /** The uncle is black: one or two rotations finish. */
    method InsertRotate(self: Ptr, father: Ptr, grandpa: Ptr, which: Dir, ghost c: Path, ghost t: Tree, ghost hh: nat)
      requires Focus(h, c, t) && t.Red() && t.p == self && c.RedFather() && father == c.p
      requires PathRB(c, hh) && RB(t, hh) && c.up.In? && grandpa == c.up.p && which == c.up.d && !c.up.sib.Red()
      modifies this`h, this`tree
      ensures Focus(h, Top, tree) && RedBlack(tree) && tree.Inorder() == Plug(c, t).Inorder()
      ensures h.mem.Keys == old(h.mem.Keys)
    {
      hide Focus, RB, PathRB, Rotated;
      ghost var cc, f := c.up.up, Mk(c.p, c.red, c.d, t, c.sib);
      FocusFacts(h, c, t);
      Ascend(h, c, t);
      if self == Kid(h, father, which.Flip()) {
        InsideIsFar(h, c, t, which);
        Reparent(father, which.Flip(), c.up, f);
        f := Rotated(f, which.Flip());
      }
      ghost var g := WithKid(Two(c, t), which, f);
      InsertRotateRB(c, t, hh, f);
      Ascend(h, c.up, f);
      Reparent(grandpa, which, cc, g);
      Settle(cc, Rotated(g, which), hh + 1);
      PlugNode(cc, Rotated(g, which));
      MarkRootBlack();
    }

    method MarkRootBlack()
      requires Focus(h, Top, tree) && RedBlack(tree) && tree.Node?
      modifies this`h
      ensures Focus(h, Top, tree) && h.mem.Keys == old(h.mem.Keys)
    {
      FocusFacts(h, Top, tree);
      Painted(h, Top, tree, false);
      h := PutRed(h, h.root, false);
    }

    /** Climb while father and uncle are red, then rotate.  The node at self is red under a red
        father; everything else is a red-black tree. */
    method InsertRebalance(start: Ptr, ghost c0: Path, ghost t0: Tree, ghost hh0: nat)
      requires Focus(h, c0, t0) && t0.Red() && t0.p == start && c0.RedFather()
      requires PathRB(c0, hh0) && RB(t0, hh0)
      modifies this`h, this`tree
      ensures Focus(h, Top, tree) && RedBlack(tree) && tree.Inorder() == Plug(c0, t0).Inorder()
      ensures h.mem.Keys == old(h.mem.Keys)
    {
      hide Focus, RB, PathRB;
      ghost var c, t, hh := c0, t0, hh0;
      FocusFacts(h, c, t);
      var self, father := start, h.mem[start].father;
      var grandpa, which, other, uncle;
      while true
        invariant Focus(h, c, t) && t.Red() && t.p == self && c.RedFather() && father == c.p
        invariant PathRB(c, hh) && RB(t, hh)
        invariant Plug(c, t).Inorder() == Plug(c0, t0).Inorder()
        invariant h.mem.Keys == old(h.mem.Keys)
        decreases c
      {
        RedFatherFacts(h, c, t, hh);
        grandpa := h.mem[father].father;
        which := if father == Kid(h, grandpa, Right) then Right else Left;
        other := which.Flip();
        uncle := Kid(h, grandpa, other);
        if !RedP(h, uncle) {
          break;
        }
        ghost var cc, g := c.up.up, Two(c, t);
        Ascend(h, c, t);
        Ascend(h, c.up, Mk(c.p, c.red, c.d, t, c.sib));
        PaintedKid(h, cc, g, other, false);
        h := PutRed(h, uncle, false);
        ghost var g1 := WithKid(g, other, g.Kid(other).Paint(false));
        PaintedKid(h, cc, g1, which, false);
        h := PutRed(h, father, false);
        ghost var g2 := WithKid(g1, which, g1.Kid(which).Paint(false));
        assert g2 == Recoloured(c, t);
        RecolourKeeps(c, t, hh);
        FocusFacts(h, cc, g2);
        if h.root == grandpa {
          RootIsTop(h, cc, g2);
          tree := g2;
          return;
        }
        Painted(h, cc, g2, true);
        h := PutRed(h, grandpa, true);
        c, t, hh := cc, g2.Paint(true), hh + 1;
        FocusFacts(h, c, t);
        self := grandpa;
        father := h.mem[self].father;
        if !RedP(h, father) {
          NotTop(h, c, t);
          Settle(c, t, hh);
          return;
        }
      }
      InsertRotate(self, father, grandpa, which, c, t, hh);
    }

    // ------------------------------------------------------------ repairing after a deletion

    /** Cases 3 and 4: at least one nephew of a black brother is red. */
    method RotateNephew(parent: Ptr, which: Dir, bro: Ptr, ghost c0: Path, ghost t: Tree, ghost hh: nat)
      requires Focus(h, c0, t) && Short(c0, t, hh) && c0.In? && c0.p == parent && c0.d == which
      requires c0.sib.Node? && c0.sib.p == bro && !c0.sib.Red() && (c0.sib.l.Red() || c0.sib.r.Red())
      modifies this`h, this`tree
      ensures Focus(h, Top, tree) && RedBlack(tree) && tree.Inorder() == Plug(c0, t).Inorder()
      ensures h.mem.Keys == old(h.mem.Keys)
    {
      hide Focus, Short, Rotated;
      var other, brother := which.Flip(), bro;
      ghost var c := c0;
      Sideways(h, c, t);
      if !RedP(h, Kid(h, brother, other)) {
        NearNephew(c, t, hh);
        Reparent(brother, which, Aside(c, t), c.sib);
        c := c.(sib := Rotated(c.sib, which));
        Straight(h, c, t);
        Sideways(h, c, t);
        FocusFacts(h, c, t);
        brother := Kid(h, parent, other);
      }
      FarNephew(c, t, hh);
      PaintedKid(h, Aside(c, t), c.sib, other, false);
      h := PutRed(h, Kid(h, brother, other), false);
      Ascend(h, Aside(c, t), WithKid(c.sib, other, c.sib.Kid(other).Paint(false)));
      Reparent(parent, other, c.up, FarBlack(c, t));
      Settle(c.up, Rotated(FarBlack(c, t), other), if c.red then hh + 1 else hh + 2);
    }

    /** Case 2b. */
    method SwapWithFather(parent: Ptr, brother: Ptr, ghost c: Path, ghost t: Tree, ghost hh: nat)
      requires Focus(h, c, t) && Short(c, t, hh) && c.In? && c.p == parent && c.red
      requires c.sib.Node? && c.sib.p == brother && !c.sib.Red() && !c.sib.l.Red() && !c.sib.r.Red()
      modifies this`h, this`tree
      ensures Focus(h, Top, tree) && RedBlack(tree) && tree.Inorder() == Plug(c, t).Inorder()
      ensures h.mem.Keys == old(h.mem.Keys)
    {
      hide Focus, Short;
      RedFather(c, t, hh);
      Ascend(h, c, t);
      Painted(h, c.up, One(c, t), false);
      h := PutRed(h, parent, false);
      ghost var m := One(c, t).Paint(false);
      PaintedKid(h, c.up, m, c.d.Flip(), true);
      h := PutRed(h, brother, true);
      Settle(c.up, Mk(c.p, false, c.d, t, c.sib.Paint(true)), hh + 1);
    }

    /** The brother is black, and the father or a nephew is red. */
    method FinishRemoval(parent: Ptr, which: Dir, brother: Ptr, ghost c: Path, ghost t: Tree, ghost hh: nat)
      requires Focus(h, c, t) && Short(c, t, hh) && c.In? && c.p == parent && c.d == which
      requires c.sib.Node? && c.sib.p == brother && !c.sib.Red() && (c.red || c.sib.l.Red() || c.sib.r.Red())
      modifies this`h, this`tree
      ensures Focus(h, Top, tree) && RedBlack(tree) && tree.Inorder() == Plug(c, t).Inorder()
      ensures h.mem.Keys == old(h.mem.Keys)
    {
      hide Focus, Short;
      Sideways(h, c, t);
      if RedP(h, parent) && !RedP(h, brother) && !RedP(h, Kid(h, brother, Left)) && !RedP(h, Kid(h, brother, Right)) {
        SwapWithFather(parent, brother, c, t, hh);
      } else {
        RotateNephew(parent, which, brother, c, t, hh);
      }
    }

    /** Case 1: turn a red brother into a black one under a red father. */
    method TurnRedBrother(parent: Ptr, which: Dir, ghost c: Path, ghost t: Tree, ghost hh: nat) returns (brother: Ptr)
      requires Focus(h, c, t) && Short(c, t, hh) && c.In? && c.p == parent && c.d == which && c.sib.Red()
      modifies this`h
      ensures var c' := AfterRedBrother(c);
              && Focus(h, c', t) && Short(c', t, hh) && c'.sib.Node? && !c'.sib.Red() && brother == c'.sib.p
              && Plug(c', t).Inorder() == Plug(c, t).Inorder()
      ensures h.mem.Keys == old(h.mem.Keys)
    {
      hide Focus, Short, Rotated;
      RedBrother(c, t, hh);
      Ascend(h, c, t);
      Reparent(parent, which.Flip(), c.up, One(c, t));
      ghost var r := Rotated(One(c, t), which.Flip());
      Descend(h, c.up, r, which);
      Descend(h, Below(c.up, r, which), r.Kid(which), which);
      FocusFacts(h, AfterRedBrother(c), t);
      brother := Kid(h, parent, which.Flip());
    }

    /** Case 2a. */
    method Redden(brother: Ptr, ghost c: Path, ghost t: Tree, ghost hh: nat)
      requires Focus(h, c, t) && Short(c, t, hh) && c.In? && !c.red
      requires c.sib.Node? && c.sib.p == brother && !c.sib.Red() && !c.sib.l.Red() && !c.sib.r.Red()
      modifies this`h
      ensures var m := Mk(c.p, false, c.d, t, c.sib.Paint(true));
              && Focus(h, c.up, m) && m.Root() == c.p
              && (c.up.In? ==> Short(c.up, m, hh + 1)) && (c.up.Top? ==> RedBlack(m))
              && !m.Red() && Plug(c.up, m).Inorder() == Plug(c, t).Inorder()
      ensures h.mem.Keys == old(h.mem.Keys) && h.root == old(h.root)
    {
      hide Focus, Short;
      AllBlack(c, t, hh);
      Ascend(h, c, t);
      PaintedKid(h, c.up, One(c, t), c.d.Flip(), true);
      h := PutRed(h, brother, true);
    }

    /** Climb while all is black, then finish with one of the other cases. */
    method RemovalRebalance(start: Ptr, side: Dir, ghost c0: Path, ghost t0: Tree, ghost hh0: nat)
      requires Focus(h, c0, t0) && Short(c0, t0, hh0) && c0.In? && !t0.Red() && c0.p == start && c0.d == side
      modifies this`h, this`tree
      ensures Focus(h, Top, tree) && RedBlack(tree) && tree.Inorder() == Plug(c0, t0).Inorder()
      ensures h.mem.Keys == old(h.mem.Keys)
    {
      hide Focus, RB, PathRB, RedBlack, Short, Plug, Tree.Inorder, Tree.Nodes;
      ghost var c, t, hh := c0, t0, hh0;
      var parent, which := start, side;
      FocusFacts(h, c, t);
      while !RedP(h, Kid(h, parent, which))
        invariant Focus(h, c, t) && Short(c, t, hh) && c.In? && !t.Red() && c.p == parent && c.d == which && parent in h.mem
        invariant Kid(h, parent, which) == t.Root() && RedP(h, t.Root()) == t.Red()
        invariant Plug(c, t).Inorder() == Plug(c0, t0).Inorder()
        invariant h.mem.Keys == old(h.mem.Keys)
        decreases c
      {
        var other := which.Flip();
        FocusFacts(h, c, t);
        HasBrother(c, t, hh);
        Sideways(h, c, t);
        var brother := Kid(h, parent, other);
        if !RedP(h, parent) && !RedP(h, Kid(h, brother, Left)) && !RedP(h, Kid(h, brother, Right)) {
          if RedP(h, brother) {
            assert c.sib.Red();
            brother := TurnRedBrother(parent, which, c, t, hh);
            c := AfterRedBrother(c);
            FocusFacts(h, c, t);
            Sideways(h, c, t);
          } else {
            Redden(brother, c, t, hh);
            ghost var m := Mk(c.p, false, c.d, t, c.sib.Paint(true));
            FocusFacts(h, c.up, m);
            if h.root == parent {
              RootIsTop(h, c.up, m);
              PlugTop(m);
              tree := m;
              break;
            }
            NotTop(h, c.up, m);
            c, t, hh := c.up, m, hh + 1;
            which := h.mem[parent].side;
            parent := h.mem[parent].father;
            FocusFacts(h, c, t);
            continue;
          }
        }
        FinishRemoval(parent, which, brother, c, t, hh);
        break;
      }
    }

    // ------------------------------------------------------------ neighbours and deletion

    /** Go one step down on side d and then as far as possible on the other side. */
    method FindStandin(self: Ptr, d: Dir, ghost c: Path, ghost t: Tree) returns (r: Ptr, ghost q: Path, ghost st: Tree)
      requires Focus(h, c, t) && t.Node? && t.p == self && t.Kid(d).Node?
      ensures AllSide(q, d.Flip()) && st.Node? && st.Kid(d.Flip()).Leaf? && Plug(q, st) == t.Kid(d) && r == st.p
    {
      hide Focus;
      ghost var base := Below(c, t, d);
      FocusFacts(h, c, t);
      Descend(h, c, t, d);
      q, st, r := Top, t.Kid(d), Kid(h, self, d);
      FocusFacts(h, base, st);
      while Kid(h, r, d.Flip()) != NULL
        invariant Focus(h, Append(q, base), st) && AllSide(q, d.Flip()) && Plug(q, st) == t.Kid(d)
        invariant st.Node? && r == st.p && r in h.mem && Kid(h, r, d.Flip()) == st.Kid(d.Flip()).Root()
        decreases st
      {
        Descend(h, Append(q, base), st, d.Flip());
        ghost var q', st' := Below(q, st, d.Flip()), st.Kid(d.Flip());
        assert Append(q', base) == Below(Append(q, base), st, d.Flip());
        FocusFacts(h, Append(q', base), st');
        r := Kid(h, r, d.Flip());
        q, st := q', st';
      }
      Descend(h, Append(q, base), st, d.Flip());
      FocusFacts(h, Below(Append(q, base), st, d.Flip()), st.Kid(d.Flip()));
    }

    /** Climb until the way comes from the other side. */
    method ClimbTo(start: Ptr, d: Dir, ghost c0: Path, ghost t0: Tree) returns (r: Ptr)
      requires Focus(h, c0, t0) && t0.Node? && t0.p == start
      ensures r == Nearest(c0, d)
    {
      hide Focus;
      ghost var c, t := c0, t0;
      var self := start;
      FocusFacts(h, c, t);
      while h.root != self
        invariant Focus(h, c, t) && t.Node? && t.p == self && self in h.mem
        invariant h.mem[self].side == c.Side() && h.mem[self].father == c.Father()
        invariant Nearest(c, d) == Nearest(c0, d)
        decreases c
      {
        NotTop(h, c, t);
        if d.Flip() == h.mem[self].side {
          return h.mem[self].father;
        }
        Ascend(h, c, t);
        c, t := c.up, One(c, t);
        FocusFacts(h, c, t);
        self := h.mem[self].father;
      }
      RootIsTop(h, c, t);
      r := NULL;
    }

    /** The in-order neighbour of a node. */
    method Iterate(self: Ptr, d: Dir) returns (r: Ptr)
      requires Valid() && self in tree.Nodes()
      ensures forall i :: 0 <= i < |tree.Inorder()| && tree.Inorder()[i] == self ==> r == Beside(tree.Inorder(), i, d)
    {
      hide Focus;
      ghost var c, t := Locate(h, Top, tree, self);
      FocusFacts(h, c, t);
      if Kid(h, self, d) == NULL {
        Descend(h, c, t, d);
        FocusFacts(h, Below(c, t, d), t.Kid(d));
        r := ClimbTo(self, d, c, t);
        NoneBelow(key, c, t, d);
      } else {
        Descend(h, c, t, d);
        FocusFacts(h, Below(c, t, d), t.Kid(d));
        ghost var q, st;
        r, q, st := FindStandin(self, d, c, t);
        SomeBelow(key, c, t, q, st, d);
      }
    }

    /** The first or last node. */
    method IterateFrom(d: Dir) returns (r: Ptr)
      requires Valid()
      ensures var s := tree.Inorder();
              r == if s == [] then NULL else if d.Left? then s[0] else s[|s| - 1]
    {
      FocusFacts(h, Top, tree);
      if h.root == NULL {
        return NULL;
      }
      r := ends.Get(d);
    }

    /** Take out a childless node. */
    method PruneNode(self: Ptr, rebalance: bool, ghost c: Path, ghost t: Tree)
      requires Valid() && Focus(h, c, t) && Plug(c, t) == tree && t.Node? && t.p == self && t.l.Leaf? && t.r.Leaf?
      requires rebalance == (!t.red && c.In?)
      modifies this`h, this`ends, this`tree
      ensures Valid() && h.mem.Keys == old(h.mem.Keys)
      ensures tree.Inorder() == c.Before() + (t.l.Inorder() + t.r.Inorder()) + c.After()
    {
      hide Focus, RedBlack, RB, PathRB, Sorted, Extremes, Plug;
      FocusFacts(h, c, t);
      PruneEnds(key, ends, c, t);
      ghost var k := HeightAt(tree, c, t);
      HalfNode(t, k, Left);
      var which, father := h.mem[self].side, h.mem[self].father;
      Unlink(self, c, t);
      EmptyInorder(c, t);
      if rebalance {
        ShortLeaf(c);
        RemovalRebalance(father, which, c, Leaf, 0);
      } else {
        SettleLeaf(c, k);
        Settle(c, Leaf, 0);
      }
    }

    method Unlink(self: Ptr, ghost c: Path, ghost t: Tree)
      requires Focus(h, c, t) && t.Node? && t.p == self && t.l.Leaf? && t.r.Leaf?
      modifies this`h, this`ends
      ensures Focus(h, c, Leaf) && h.mem.Keys == old(h.mem.Keys)
      ensures c.In? ==> ends == if old(ends).Get(c.d) == self then old(ends).Set(c.d, c.p) else old(ends)
    {
      hide Focus;
      FocusFacts(h, c, t);
      var which, father, wasRoot := h.mem[self].side, h.mem[self].father, h.root == self;
      if wasRoot { RootIsTop(h, c, t); } else { NotTop(h, c, t); }
      h := PutKid(h, father, which, h.mem[self].left);
      if ends.Get(which) == self {
        ends := ends.Set(which, father);
        if wasRoot {
          ends := ends.Set(Right, father);
        }
      }
      h := PutFather(h, self, NULL);
      SoundFocus(old(h), c, t);
      Spliced(old(h), h, c, t, Left);
    }

    /** Take out a black node with one red child, which takes its place. */
    method PruneBlackRed(self: Ptr, which: Dir, ghost c: Path, ghost t: Tree)
      requires Valid() && Focus(h, c, t) && Plug(c, t) == tree && t.Node? && t.p == self
      requires t.Kid(which).Node? && t.Kid(which.Flip()).Leaf?
      modifies this`h, this`ends, this`tree
      ensures Valid() && h.mem.Keys == old(h.mem.Keys)
      ensures tree.Inorder() == c.Before() + (t.l.Inorder() + t.r.Inorder()) + c.After()
    {
      hide Focus, RedBlack, RB, PathRB, Sorted, Extremes, Plug, Tree.Inorder, Tree.Nodes, Path.Nodes;
      FocusFacts(h, c, t);
      Descend(h, c, t, which);
      FocusFacts(h, Below(c, t, which), t.Kid(which));
      ghost var k := HeightAt(tree, c, t);
      HalfNode(t, k, which.Flip());
      PruneOneEnds(key, ends, c, t, which);
      var father, son, wasRoot := h.mem[self].father, Kid(h, self, which), h.root == self;
      if wasRoot { RootIsTop(h, c, t); } else { NotTop(h, c, t); }
      h := Put(h, son, h.mem[son].(side := h.mem[self].side, red := h.mem[self].red));
      h := PutKid(h, father, h.mem[son].side, son);
      h := PutFather(h, son, father);
      if wasRoot {
        ends := ends.Set(which.Flip(), son);
      } else if ends.Get(h.mem[self].side) == self {
        ends := ends.Set(h.mem[self].side, son);
      }
      h := PutFather(h, self, NULL);
      SoundFocus(old(h), c, t);
      Spliced(old(h), h, c, t, which.Flip());
      OneKidInorder(c, t, which);
      Settle(c, t.Kid(which).Paint(false), 1);
    }

    /** The stand-in takes the child on side w, the father, the side and the colour of self. */
    method TakeOver(self: Ptr, standin: Ptr, w: Dir)
      requires Sound(h) && self in h.mem && standin in h.mem && Kid(h, self, w) in h.mem && self != standin
      requires var g, x := h.mem[self].father, Kid(h, self, w);
               && x !in {self, standin} && g !in {self, standin, x}
               && if g == HEAD then h.mem[self].side == Left else g in h.mem
      modifies this`h
      ensures var o, x := old(h), Kid(old(h), self, w);
              var g, me := o.mem[self].father, o.mem[self];
              && h.root == (if g == HEAD then standin else o.root)
              && h.mem.Keys == o.mem.Keys
              && (g != HEAD ==> h.mem[g] == o.mem[g].Set(me.side, standin))
              && h.mem[x] == o.mem[x].(father := standin)
              && h.mem[standin] == o.mem[standin].Set(w, x).(father := g, side := me.side, red := me.red)
              && SameBut(o.mem, h.mem, {g, x, standin})
    {
      h := PutKid(h, standin, w, Kid(h, self, w));
      h := PutFather(h, Kid(h, standin, w), standin);
      h := Put(h, standin, h.mem[standin].(side := h.mem[self].side, red := h.mem[self].red));
      h := PutFather(h, standin, h.mem[self].father);
      h := PutKid(h, h.mem[standin].father, h.mem[standin].side, standin);
    }

    /** The stand-in is a child of self. */
    method AdoptNear(self: Ptr, standin: Ptr, sw: Dir, son: Ptr, ghost c: Path, ghost t: Tree, ghost st: Tree)
      requires Standin(h, c, t, Top, st, sw) && t.p == self && st.p == standin && son == st.Kid(sw).Root()
      requires st.Kid(sw).Node? ==> st.Kid(sw).red
      modifies this`h
      ensures SwapCells(old(h), h, c, t, Top, st, sw)
    {
      hide Standin;
      StandinKids(h, c, t, Top, st, sw);
      StandinFacts(h, c, t, Top, st, sw);
      if RedP(h, son) {
        h := PutRed(h, son, false);
      }
      TakeOver(self, standin, sw.Flip());
    }

    /** The stand-in is further down. */
    method AdoptFar(self: Ptr, standin: Ptr, sw: Dir, son: Ptr, sf: Ptr)
      requires FarApart(h, self, standin, sw, son, sf)
      modifies this`h
      ensures FarCells(old(h), h, self, standin, sw, son, sf)
    {
      hide FarCells;
      ghost var h0 := h;
      Sever(standin, sw, son, sf);
      ghost var h1 := h;
      AdoptFarSon(self, standin, sw.Flip());
      ghost var h2 := h;
      TakeOver(self, standin, sw);
      FarCompose(h0, h1, h2, h, self, standin, sw, son, sf);
    }

    method AdoptFarSon(self: Ptr, standin: Ptr, so: Dir)
      requires Sound(h) && self in h.mem && standin in h.mem && Kid(h, self, so) in h.mem && Kid(h, self, so) !in {self, standin} && self != standin
      modifies this`h
      ensures var o, k := old(h), Kid(old(h), self, so);
              && h.root == o.root && h.mem.Keys == o.mem.Keys
              && h.mem[standin] == o.mem[standin].Set(so, k) && h.mem[k] == o.mem[k].(father := standin)
              && SameBut(o.mem, h.mem, {standin, k})
    {
      h := PutKid(h, standin, so, Kid(h, self, so));
      h := PutFather(h, Kid(h, standin, so), standin);
    }

    /** Give the stand-in's place to its child, painted black. */
    method Sever(standin: Ptr, sw: Dir, son: Ptr, sf: Ptr)
      requires Sound(h) && standin in h.mem && sf in h.mem && son !in {sf, standin} && sf != standin
      modifies this`h
      ensures var m := old(h).mem[sf := old(h).mem[sf].Set(sw, son)];
              h == Heap(old(h).root, if RedP(old(h), son) then m[son := m[son].(father := sf, side := sw, red := false)] else m)
    {
      if RedP(h, son) {
        h := PutRed(h, son, false);
        h := PutFather(h, son, sf);
        h := PutSide(h, son, sw);
      }
      h := PutKid(h, sf, sw, son);
    }

    /** Put the stand-in in the place of self; its child, painted black, is left where it was.  The
        result says where that is and whether it is one black level short. */
    method SwapIn(self: Ptr, standin: Ptr, ghost c: Path, ghost t: Tree, ghost q: Path, ghost st: Tree, ghost d: Dir)
      returns (sf: Ptr, sw: Dir, rebalance: bool)
      requires Standin(h, c, t, q, st, d) && t.p == self && st.p == standin && ends.min != self && ends.max != self
      requires st.Kid(d).Node? ==> st.Kid(d).red
      modifies this`h, this`ends
      ensures Focus(h, SwapPath(c, t, q, st, d), st.Kid(d).Paint(false)) && h.mem.Keys == old(h.mem.Keys)
      ensures ends == old(ends)
      ensures sf == (if q.Top? then standin else q.p) && sw == (if q.Top? then d else d.Flip())
      ensures rebalance == (!st.red && st.Kid(d).Leaf?)
    {
      hide Standin, Focus, Append;
      StandinKids(h, c, t, q, st, d);
      StandinFacts(h, c, t, q, st, d);
      sw, sf, rebalance := h.mem[standin].side, h.mem[standin].father, !RedP(h, standin);
      var direct := sf == self;
      var son := if direct then Kid(h, standin, sw) else Kid(h, standin, sw.Flip());
      if RedP(h, son) {
        rebalance := false;
      }
      if direct {
        AdoptNear(self, standin, sw, son, c, t, st);
        sf := standin;
      } else {
        FarStandin(h, c, t, q, st, d);
        AdoptFar(self, standin, sw, son, sf);
        FarSwapped(old(h), h, c, t, q, st, d);
      }
      var father, side := h.mem[self].father, h.mem[self].side;
      ends := if ends.Get(side) == self then ends.Set(side, father) else ends;
      h := PutFather(h, self, NULL);
      SwapFocus(old(h), h, c, t, q, st, d);
    }

    /** Take out a node with two children: its stand-in is unhooked and put in its place. */
    method SwapPrune(self: Ptr, standin: Ptr, ghost c: Path, ghost t: Tree, ghost q: Path, ghost st: Tree, ghost d: Dir)
      requires Valid() && Plug(c, t) == tree && Standin(h, c, t, q, st, d) && t.p == self && st.p == standin
      modifies this`h, this`ends, this`tree
      ensures Valid() && h.mem.Keys == old(h.mem.Keys)
      ensures tree.Inorder() == c.Before() + (t.l.Inorder() + t.r.Inorder()) + c.After()
    {
      hide Standin, Focus, RedBlack, RB, PathRB, Sorted, Extremes, Plug, Append, SwapPath;
      StandinKids(h, c, t, q, st, d);
      ghost var k := StandinColour(h, tree, c, t, q, st, d);
      SwapEnds(key, ends, c, t);
      SwapResult(c, t, q, st, d);
      ghost var cp := SwapPath(c, t, q, st, d);
      var sf, sw, rebalance := SwapIn(self, standin, c, t, q, st, d);
      if rebalance {
        ShortLeaf(cp);
        RemovalRebalance(sf, sw, cp, Leaf, 0);
      } else {
        Settle(cp, st.Kid(d).Paint(false), if st.Kid(d).Node? then 1 else 0);
      }
    }

    /** Remove a node: the order loses it and nothing else, and the tree stays red-black. */
    method Remove(self: Ptr)
      requires Valid() && self in tree.Nodes()
      modifies this`h, this`ends, this`tree
      ensures Valid() && h.mem.Keys == old(h.mem.Keys)
      ensures tree.Nodes() == old(tree).Nodes() - {self}
    {
      hide Focus, RedBlack, Sorted, Extremes;
      ghost var c, t := Locate(h, Top, tree, self);
      FocusFacts(h, c, t);
      Descend(h, c, t, Left);
      FocusFacts(h, Below(c, t, Left), t.l);
      Descend(h, c, t, Right);
      FocusFacts(h, Below(c, t, Right), t.r);
      var left, right := Kid(h, self, Left), Kid(h, self, Right);
      if left == NULL && right == NULL {
        if h.root == self { RootIsTop(h, c, t); } else { NotTop(h, c, t); }
        PruneNode(self, !RedP(h, self) && h.root != self, c, t);
      } else if left == NULL || right == NULL {
        PruneBlackRed(self, if left == NULL then Right else Left, c, t);
      } else {
        var which := h.mem[self].side.Flip();
        ghost var q, st;
        var standin;
        standin, q, st := FindStandin(self, which, c, t);
        SwapPrune(self, standin, c, t, q, st, which);
      }
      OneLess(key, old(tree), c, t, tree);
    }
  }

  /** Colours around the stand-in. */
  lemma StandinColour(h: Heap, tree: Tree, c: Path, t: Tree, q: Path, st: Tree, d: Dir) returns (k: nat)
    requires Standin(h, c, t, q, st, d) && RedBlack(tree) && Plug(c, t) == tree
    ensures var son, cp := st.Kid(d), SwapPath(c, t, q, st, d);
            && cp.In? && cp.Father() == (if q.Top? then st.p else q.p) && cp.Side() == (if q.Top? then d else d.Flip())
            && PathRB(cp, if st.red then 0 else 1)
            && (son.Node? ==> son.red && !st.red && RB(son.Paint(false), 1)) && RB(Leaf, 0)
  {
    var base, base' := Below(c, t, d), In(d, st.p, t.red, t.Kid(d.Flip()), c);
    PlugAppend(q, base, st);
    assert Plug(base, t.Kid(d)) == Plug(c, t);
    k := HeightAt(tree, Append(q, base), st);
    HalfNode(st, k, d.Flip());
    AppendRB(q, base, base', k);
  }

  lemma SwapResult(c: Path, t: Tree, q: Path, st: Tree, d: Dir)
    requires t.Node? && AllSide(q, d.Flip()) && st.Node? && st.Kid(d.Flip()).Leaf? && Plug(q, st) == t.Kid(d)
    ensures var son := st.Kid(d).Paint(false);
            Plug(SwapPath(c, t, q, st, d), son).Inorder() == c.Before() + (t.l.Inorder() + t.r.Inorder()) + c.After()
    ensures st.Kid(d).Leaf? ==> st.Kid(d).Paint(false) == Leaf
  {
    SwapOrder(c, t, q, st, d);
    PlugAppend(q, In(d, st.p, t.red, t.Kid(d.Flip()), c), st.Kid(d).Paint(false));
  }

  lemma Centre(b: seq<Ptr>, l: seq<Ptr>, x: seq<Ptr>, r: seq<Ptr>, a: seq<Ptr>)
    ensures b + (l + x + r) + a == (b + l) + x + (r + a)
    ensures b + (l + r) + a == (b + l) + (r + a)
  {
  }

  lemma SplitMembers(b: seq<Ptr>, x: Ptr, a: seq<Ptr>)
    ensures forall p :: p in b + [x] + a <==> p in b || p == x || p in a
    ensures forall p :: p in b + a <==> p in b || p in a
  {
  }

  /** A node with two children is no extreme, and taking it out leaves the extremes. */
  lemma SwapEnds(key: Ptr -> int, ends: Ends, c: Path, t: Tree)
    requires t.Node? && t.l.Node? && t.r.Node?
    requires Sorted(key, Plug(c, t).Inorder()) && Extremes(ends, Plug(c, t).Inorder())
    ensures var s := c.Before() + (t.l.Inorder() + t.r.Inorder()) + c.After();
            Sorted(key, s) && Extremes(ends, s) && ends.min != t.p && ends.max != t.p
  {
    hide Sorted;
    var l, r := t.l.Inorder(), t.r.Inorder();
    PlugInorder(c, t);
    Centre(c.Before(), l, [t.p], r, c.After());
    EndsAround(key, ends, c.Before() + l, t.p, r + c.After());
    assert t.l.p in l && t.r.p in r;
  }

  lemma NodeOrder(t: Tree)
    requires t.Node?
    ensures t.Inorder() == t.l.Inorder() + [t.p] + t.r.Inorder()
  {
  }

  lemma SetLess(key: Ptr -> int, b: seq<Ptr>, l: seq<Ptr>, x: Ptr, r: seq<Ptr>, a: seq<Ptr>, old': set<Ptr>, new': set<Ptr>)
    requires Sorted(key, b + (l + [x] + r) + a)
    requires forall p :: p in b + (l + [x] + r) + a <==> p in old'
    requires forall p :: p in b + (l + r) + a <==> p in new'
    ensures new' == old' - {x}
  {
    hide Sorted;
    Centre(b, l, [x], r, a);
    SortedSplit(key, b + l, x, r + a);
    SplitMembers(b + l, x, r + a);
  }

  /** Losing t.p from the order is losing it from the set of nodes. */
  lemma OneLess(key: Ptr -> int, old': Tree, c: Path, t: Tree, new': Tree)
    requires t.Node? && old' == Plug(c, t) && Sorted(key, old'.Inorder())
    requires new'.Inorder() == c.Before() + (t.l.Inorder() + t.r.Inorder()) + c.After()
    ensures new'.Nodes() == old'.Nodes() - {t.p}
  {
    hide Sorted, Plug, Tree.Inorder, Tree.Nodes, Path.Before, Path.After;
    PlugInorder(c, t);
    NodeOrder(t);
    InorderNodes(old');
    InorderNodes(new');
    SetLess(key, c.Before(), t.l.Inorder(), t.p, t.r.Inorder(), c.After(), old'.Nodes(), new'.Nodes());
  }

  /** The nodes around a stand-in further down are there and different. */
  ghost predicate FarApart(h: Heap, self: Ptr, standin: Ptr, sw: Dir, son: Ptr, sf: Ptr) {
    && Sound(h) && {self, standin, sf} <= h.mem.Keys && (son == NULL || RedP(h, son))
    && var k, far, g := Kid(h, self, sw.Flip()), Kid(h, self, sw), h.mem[self].father;
       && {k, far} <= h.mem.Keys && (if g == HEAD then h.mem[self].side == Left else g in h.mem)
       && son !in {self, standin, sf, k, far, g} && g !in {self, standin, sf, k, far}
       && standin !in {self, sf, k, far} && self !in {k, far, sf} && far !in {k, sf}
  }

  ghost predicate FarCells(h: Heap, h': Heap, self: Ptr, standin: Ptr, sw: Dir, son: Ptr, sf: Ptr)
    requires FarApart(h, self, standin, sw, son, sf)
  {
    var k, far, g, me := Kid(h, self, sw.Flip()), Kid(h, self, sw), h.mem[self].father, h.mem[self];
    && h'.mem.Keys == h.mem.Keys
    && h'.mem[standin] == h.mem[standin].Set(sw.Flip(), k).Set(sw, far).(father := g, side := me.side, red := me.red)
    && (son != NULL ==> h'.mem[son] == h.mem[son].(father := sf, side := sw, red := false))
    && h'.mem[far] == h.mem[far].(father := standin)
    && h'.mem[sf] == (if sf == k then h.mem[sf].(father := standin) else h.mem[sf]).Set(sw, son)
    && (sf != k ==> h'.mem[k] == h.mem[k].(father := standin))
    && (g != HEAD ==> h'.mem[g] == h.mem[g].Set(me.side, standin))
    && h'.root == (if g == HEAD then standin else h.root)
    && SameBut(h.mem, h'.mem, {self, standin, son, far, sf, k, g})
  }

  /** Severing, adopting the far son and taking over, one after the other. */
  lemma FarCompose(h: Heap, h1: Heap, h2: Heap, h': Heap, self: Ptr, standin: Ptr, sw: Dir, son: Ptr, sf: Ptr)
    requires FarApart(h, self, standin, sw, son, sf)
    requires h1.root == h.root && h1.mem.Keys == h.mem.Keys && h1.mem[sf] == h.mem[sf].Set(sw, son)
    requires son != NULL ==> h1.mem[son] == h.mem[son].(father := sf, side := sw, red := false)
    requires SameBut(h.mem, h1.mem, {sf, son})
    requires h2.root == h1.root && h2.mem.Keys == h1.mem.Keys
    requires var k := Kid(h, self, sw.Flip());
             && h2.mem[standin] == h1.mem[standin].Set(sw.Flip(), k) && h2.mem[k] == h1.mem[k].(father := standin)
             && SameBut(h1.mem, h2.mem, {standin, k})
    requires var far, g, me := Kid(h, self, sw), h.mem[self].father, h.mem[self];
             && h'.root == (if g == HEAD then standin else h2.root) && h'.mem.Keys == h2.mem.Keys
             && (g != HEAD ==> h'.mem[g] == h2.mem[g].Set(me.side, standin))
             && h'.mem[far] == h2.mem[far].(father := standin)
             && h'.mem[standin] == h2.mem[standin].Set(sw, far).(father := g, side := me.side, red := me.red)
             && SameBut(h2.mem, h'.mem, {g, far, standin})
    ensures FarCells(h, h', self, standin, sw, son, sf)
  {
    var k, far, g := Kid(h, self, sw.Flip()), Kid(h, self, sw), h.mem[self].father;
    assert h2.mem[far] == h.mem[far] && (g != HEAD ==> h2.mem[g] == h.mem[g]) && h1.mem[standin] == h.mem[standin];
    assert son != NULL ==> h'.mem[son] == h1.mem[son];
    assert h'.mem[k] == h2.mem[k] && h'.mem[sf] == h2.mem[sf];
    assert sf != k ==> h2.mem[sf] == h1.mem[sf] && h1.mem[k] == h.mem[k];
    assert SameBut(h.mem, h'.mem, {self, standin, son, far, sf, k, g});
  }

  lemma FarStandin(h: Heap, c: Path, t: Tree, q: Path, st: Tree, d: Dir)
    requires Standin(h, c, t, q, st, d) && q.In? && (st.Kid(d).Node? ==> st.Kid(d).red)
    ensures FarApart(h, t.p, st.p, d.Flip(), st.Kid(d).Root(), q.p)
  {
    hide Standin;
    StandinKids(h, c, t, q, st, d);
    StandinFacts(h, c, t, q, st, d);
  }

  lemma FarSwapped(h: Heap, h': Heap, c: Path, t: Tree, q: Path, st: Tree, d: Dir)
    requires Standin(h, c, t, q, st, d) && q.In? && (st.Kid(d).Node? ==> st.Kid(d).red)
    requires FarApart(h, t.p, st.p, d.Flip(), st.Kid(d).Root(), q.p)
    requires FarCells(h, h', t.p, st.p, d.Flip(), st.Kid(d).Root(), q.p)
    ensures SwapCells(h, h', c, t, q, st, d)
  {
    hide Standin;
    StandinKids(h, c, t, q, st, d);
    StandinFacts(h, c, t, q, st, d);
  }

  lemma StandinKids(h: Heap, c: Path, t: Tree, q: Path, st: Tree, d: Dir)
    requires Standin(h, c, t, q, st, d)
    ensures t.Node? && t.l.Node? && t.r.Node? && st.Node? && Sound(h)
    ensures AllSide(q, d.Flip()) && st.Kid(d.Flip()).Leaf? && Plug(q, st) == t.Kid(d)
    ensures q.Top? ==> t.Kid(d) == st
  {
  }

  /** The nearest node beyond the place on side d. */
  function Nearest(c: Path, d: Dir): Ptr {
    if c.Top? then NULL else if c.d == d.Flip() then c.p else Nearest(c.up, d)
  }

  lemma {:induction false} NearestEnd(c: Path, d: Dir)
    ensures d.Right? ==> Nearest(c, d) == if c.After() == [] then NULL else c.After()[0]
    ensures d.Left? ==> Nearest(c, d) == if c.Before() == [] then NULL else c.Before()[|c.Before()| - 1]
  {
    if c.In? { NearestEnd(c.up, d); }
  }

  /** At an empty place, the nearest node on a side is the one with the nearest key. */
  lemma NearestKey(key: Ptr -> int, c: Path, k: int, d: Dir)
    requires Brackets(key, c, k) && Sorted(key, Plug(c, Leaf).Inorder())
    requires NULL !in Plug(c, Leaf).Nodes()
    ensures var r, s := Nearest(c, d), Plug(c, Leaf).Nodes();
            && (r != NULL ==> r in s && (if d.Right? then key(r) >= k else key(r) <= k))
            && (r != NULL ==> forall p :: p in s && (if d.Right? then key(p) >= k else key(p) <= k) ==>
                  if d.Right? then key(r) <= key(p) else key(p) <= key(r))
            && (r == NULL ==> forall p :: p in s ==> if d.Right? then key(p) < k else key(p) > k)
  {
    hide Plug, Tree.Inorder, Tree.Nodes, Path.Before, Path.After, Nearest, Sorted;
    EmptyPlace(c);
    NearestEnd(c, d);
    if d.Right? {
      NearestAbove(key, c.Before(), c.After(), k, Plug(c, Leaf).Nodes());
    } else {
      NearestBelow(key, c.Before(), c.After(), k, Plug(c, Leaf).Nodes());
    }
  }

  lemma EmptyPlace(c: Path)
    ensures Plug(c, Leaf).Inorder() == c.Before() + c.After()
    ensures forall p :: p in Plug(c, Leaf).Nodes() <==> p in c.Before() + c.After()
  {
    hide Plug, Path.Before, Path.After;
    PlugInorder(c, Leaf);
    InorderNodes(Plug(c, Leaf));
    assert c.Before() + Leaf.Inorder() + c.After() == c.Before() + c.After();
  }

  lemma NearestAbove(key: Ptr -> int, b: seq<Ptr>, a: seq<Ptr>, k: int, s: set<Ptr>)
    requires Sorted(key, b + a) && (forall p :: p in s <==> p in b + a)
    requires (forall p :: p in b ==> key(p) < k) && (forall p :: p in a ==> k < key(p))
    ensures a != [] ==> a[0] in s && key(a[0]) >= k && forall p :: p in s && key(p) >= k ==> key(a[0]) <= key(p)
    ensures a == [] ==> forall p :: p in s ==> key(p) < k
  {
    InnerKeys(key, b, a);
    hide Sorted;
  }

  lemma NearestBelow(key: Ptr -> int, b: seq<Ptr>, a: seq<Ptr>, k: int, s: set<Ptr>)
    requires Sorted(key, b + a) && (forall p :: p in s <==> p in b + a)
    requires (forall p :: p in b ==> key(p) < k) && (forall p :: p in a ==> k < key(p))
    ensures b != [] ==> b[|b| - 1] in s && key(b[|b| - 1]) <= k
    ensures b != [] ==> forall p :: p in s && key(p) <= k ==> key(p) <= key(b[|b| - 1])
    ensures b == [] ==> forall p :: p in s ==> key(p) > k
  {
    InnerKeys(key, b, a);
    hide Sorted;
  }

  /** Where a sorted sequence is split, the keys at the split are the nearest. */
  lemma InnerKeys(key: Ptr -> int, b: seq<Ptr>, a: seq<Ptr>)
    requires Sorted(key, b + a)
    ensures a != [] ==> a[0] in a && forall p :: p in a ==> key(a[0]) <= key(p)
    ensures b != [] ==> b[|b| - 1] in b && forall p :: p in b ==> key(p) <= key(b[|b| - 1])
  {
    var u := b + a;
    forall p | p in a ensures key(a[0]) <= key(p) {
      var i :| 0 <= i < |a| && a[i] == p;
      assert u[|b|] == a[0] && u[|b| + i] == p;
    }
    forall p | p in b ensures key(p) <= key(b[|b| - 1]) {
      var i :| 0 <= i < |b| && b[i] == p;
      assert u[|b| - 1] == b[|b| - 1] && u[i] == p;
    }
  }

  /** The element before or after position i. */
  function Beside(s: seq<Ptr>, i: nat, d: Dir): Ptr
    requires i < |s|
  {
    if d.Right? then (if i + 1 < |s| then s[i + 1] else NULL) else if i > 0 then s[i - 1] else NULL
  }

  lemma UniqueAt(key: Ptr -> int, s: seq<Ptr>, i: nat, j: nat)
    requires Sorted(key, s) && i < |s| && j < |s| && s[i] == s[j]
    ensures i == j
  {
  }

  /** With nothing below on side d, the neighbour is the nearest node above. */
  lemma NoneBelow(key: Ptr -> int, c: Path, t: Tree, d: Dir)
    requires t.Node? && t.Kid(d).Leaf? && Sorted(key, Plug(c, t).Inorder())
    ensures var s := Plug(c, t).Inorder();
            forall i :: 0 <= i < |s| && s[i] == t.p ==> Nearest(c, d) == Beside(s, i, d)
  {
    var s, at := Plug(c, t).Inorder(), |c.Before()| + |t.l.Inorder()|;
    PlugInorder(c, t);
    NearestEnd(c, d);
    Regroup(c.Before(), t.l.Inorder(), [t.p], t.r.Inorder(), c.After());
    assert s[at] == t.p;
    assert d.Right? ==> s[at + 1..] == c.After();
    assert d.Left? ==> s[..at] == c.Before();
    forall i | 0 <= i < |s| && s[i] == t.p ensures Nearest(c, d) == Beside(s, i, d) {
      UniqueAt(key, s, i, at);
    }
  }

  /** Otherwise it is the first node, seen from here, of the subtree on that side. */
  lemma SomeBelow(key: Ptr -> int, c: Path, t: Tree, q: Path, st: Tree, d: Dir)
    requires t.Node? && AllSide(q, d.Flip()) && st.Node? && st.Kid(d.Flip()).Leaf? && Plug(q, st) == t.Kid(d)
    requires Sorted(key, Plug(c, t).Inorder())
    ensures var s := Plug(c, t).Inorder();
            forall i :: 0 <= i < |s| && s[i] == t.p ==> st.p == Beside(s, i, d)
  {
    PlugInorder(c, t);
    StandinOrder(q, st, d.Flip());
    assert t.Inorder() == t.l.Inorder() + [t.p] + t.r.Inorder();
    BesideCentre(key, c.Before(), t.l.Inorder(), t.p, t.r.Inorder(), c.After(), d);
    hide Plug, Tree.Inorder, Path.Before, Path.After, Sorted, Beside;
  }

  /** What stands beside x in the middle of a sorted sequence. */
  lemma BesideCentre(key: Ptr -> int, b: seq<Ptr>, l: seq<Ptr>, x: Ptr, r: seq<Ptr>, a: seq<Ptr>, d: Dir)
    requires Sorted(key, b + (l + [x] + r) + a)
    ensures var s := b + (l + [x] + r) + a;
            forall i :: 0 <= i < |s| && s[i] == x ==>
              && (d.Right? && r != [] ==> Beside(s, i, d) == r[0])
              && (d.Left? && l != [] ==> Beside(s, i, d) == l[|l| - 1])
  {
    var s, at := b + (l + [x] + r) + a, |b| + |l|;
    assert s[at] == x;
    forall i | 0 <= i < |s| && s[i] == x ensures i == at {
      UniqueAt(key, s, i, at);
    }
  }

  // ---------------------------------------------------------------- taking one node out

  lemma SortedWithout(key: Ptr -> int, b: seq<Ptr>, x: Ptr, a: seq<Ptr>)
    requires Sorted(key, b + [x] + a)
    ensures Sorted(key, b + a)
  {
    var s, u := b + [x] + a, b + a;
    forall i, j | 0 <= i < j < |u| ensures key(u[i]) < key(u[j]) {
      var i0, j0 := if i < |b| then i else i + 1, if j < |b| then j else j + 1;
      assert s[i0] == u[i] && s[j0] == u[j];
    }
  }

  /** The extremes around a node of an ordered sequence. */
  lemma EndsAround(key: Ptr -> int, ends: Ends, b: seq<Ptr>, x: Ptr, a: seq<Ptr>)
    requires Sorted(key, b + [x] + a) && Extremes(ends, b + [x] + a)
    ensures Sorted(key, b + a)
    ensures if b == [] then ends.min == x else ends.min == b[0] && ends.min != x
    ensures if a == [] then ends.max == x else ends.max == a[|a| - 1] && ends.max != x
  {
    SortedWithout(key, b, x, a);
    var u := b + [x] + a;
    assert u[|b|] == x;
  }

  /** A childless node on the way out: if it was an extreme, its father is the new one. */
  lemma PruneEnds(key: Ptr -> int, ends: Ends, c: Path, t: Tree)
    requires t.Node? && t.l.Leaf? && t.r.Leaf?
    requires Sorted(key, Plug(c, t).Inorder()) && Extremes(ends, Plug(c, t).Inorder())
    ensures var s := c.Before() + ([] + []) + c.After();
            && Sorted(key, s)
            && (c.Top? ==> forall e :: Extremes(e, s))
            && (c.In? && ends.Get(c.d) == t.p ==> Extremes(ends.Set(c.d, c.p), s))
            && (c.In? && ends.Get(c.d) != t.p ==> Extremes(ends, s))
  {
    hide Sorted;
    var b, a := c.Before(), c.After();
    LeafInorder(c, t.p, t.red);
    assert t == Node(t.p, t.red, Leaf, Leaf);
    EndsAround(key, ends, b, t.p, a);
    assert b + ([] + []) + a == b + a;
    assert c.In? && c.d.Left? ==> a[0] == c.p;
    assert c.In? && c.d.Right? ==> b[|b| - 1] == c.p;
  }

  lemma HeightAt(tree: Tree, c: Path, t: Tree) returns (k: nat)
    requires RedBlack(tree) && Plug(c, t) == tree
    ensures PathRB(c, k) && RB(t, k) && !(t.Red() && (c.RedFather() || c.Top?))
  {
    var hh: nat :| RB(tree, hh);
    k := SplitRB(c, t, hh);
  }

  lemma EmptyInorder(c: Path, t: Tree)
    requires t.Node? && t.l.Leaf? && t.r.Leaf?
    ensures Plug(c, Leaf).Inorder() == c.Before() + (t.l.Inorder() + t.r.Inorder()) + c.After()
    ensures Plug(c, Leaf).Inorder() == c.Before() + ([] + []) + c.After()
  {
    PlugInorder(c, Leaf);
    assert t.l.Inorder() + t.r.Inorder() == [];
  }

  lemma ShortLeaf(c: Path)
    requires c.In? && PathRB(c, 1)
    ensures Short(c, Leaf, 0)
  {
  }

  lemma SettleLeaf(c: Path, k: nat)
    requires PathRB(c, k) && (k == 0 || c.Top?)
    ensures PathRB(c, 0) && RB(Leaf, 0)
  {
  }

  lemma OneKidInorder(c: Path, t: Tree, w: Dir)
    requires t.Node? && t.Kid(w.Flip()).Leaf?
    ensures Plug(c, t.Kid(w).Paint(false)).Inorder() == c.Before() + (t.l.Inorder() + t.r.Inorder()) + c.After()
  {
    PlugInorder(c, t.Kid(w).Paint(false));
    assert t.Kid(w).Paint(false).Inorder() == t.Kid(w).Inorder();
  }

  /** A node with one leaf child on the way out: if it was an extreme, the child is the new one. */
  lemma PruneOneEnds(key: Ptr -> int, ends: Ends, c: Path, t: Tree, w: Dir)
    requires t.Node? && t.Kid(w.Flip()).Leaf? && t.Kid(w).Node? && t.Kid(w).l.Leaf? && t.Kid(w).r.Leaf?
    requires Sorted(key, Plug(c, t).Inorder()) && Extremes(ends, Plug(c, t).Inorder())
    ensures var s, son := c.Before() + (t.l.Inorder() + t.r.Inorder()) + c.After(), t.Kid(w).p;
            && Sorted(key, s)
            && (c.Top? ==> Extremes(ends.Set(w.Flip(), son), s))
            && (c.In? && ends.Get(c.d) == t.p ==> Extremes(ends.Set(c.d, son), s))
            && (c.In? && ends.Get(c.d) != t.p ==> Extremes(ends, s))
  {
    hide Sorted, Extremes, Plug, Tree.Inorder, Path.Before, Path.After;
    var b, a, son, x := c.Before(), c.After(), t.Kid(w).p, t.p;
    PlugInorder(c, t);
    OneSided(t, w.Flip());
    OneLeaf(t.Kid(w));
    LeafOrder(t.Kid(w.Flip()));
    PathSides(c);
    assert [] + [son] == [son] && [son] + [] == [son];
    OneEnds(key, ends, b, x, son, a, w, if c.In? then c.d else w.Flip());
  }

  lemma OneLeaf(t: Tree)
    requires t.Node? && t.l.Leaf? && t.r.Leaf?
    ensures t.Inorder() == [t.p]
  {
    assert t.Inorder() == [] + [t.p] + [];
  }

  lemma LeafOrder(t: Tree)
    requires t.Leaf?
    ensures t.Inorder() == []
  {
  }

  /** Below the root there is something on the side away from the path. */
  lemma PathSides(c: Path)
    ensures c.Top? ==> c.Before() == [] && c.After() == []
    ensures c.In? && c.d.Left? ==> c.After() != []
    ensures c.In? && c.d.Right? ==> c.Before() != []
  {
  }

  /** A node and its only child in the middle of a sorted sequence: without the node, the child is the
      extreme the node was. */
  lemma OneEnds(key: Ptr -> int, ends: Ends, b: seq<Ptr>, x: Ptr, son: Ptr, a: seq<Ptr>, w: Dir, d: Dir)
    requires var u := b + (if w.Left? then [son] + [x] else [x] + [son]) + a; Sorted(key, u) && Extremes(ends, u)
    requires (b == [] && a == [] && d == w.Flip()) || (if d.Left? then a != [] else b != [])
    ensures Sorted(key, b + [son] + a)
    ensures b == [] && a == [] ==> Extremes(ends.Set(d, son), b + [son] + a)
    ensures !(b == [] && a == []) ==> Extremes(if ends.Get(d) == x then ends.Set(d, son) else ends, b + [son] + a)
  {
    hide Sorted;
    if w.Left? {
      assert b + ([son] + [x]) + a == (b + [son]) + [x] + a;
      EndsAround(key, ends, b + [son], x, a);
    } else {
      assert b + ([x] + [son]) + a == b + [x] + ([son] + a);
      EndsAround(key, ends, b, x, [son] + a);
      assert b + ([son] + a) == b + [son] + a;
    }
  }

  lemma PlugTop(t: Tree)
    ensures Plug(Top, t) == t
  {
  }

  /** The path to the brother of the place. */
  function Aside(c: Path, t: Tree): Path
    requires c.In?
  {
    In(c.d.Flip(), c.p, c.red, t, c.up)
  }

  lemma Sideways(h: Heap, c: Path, t: Tree)
    requires Focus(h, c, t) && c.In?
    ensures Focus(h, Aside(c, t), c.sib) && c.p in h.mem && Kid(h, c.p, c.d.Flip()) == c.sib.Root()
    ensures RedP(h, c.p) == c.red && RedP(h, c.sib.Root()) == c.sib.Red()
    ensures c.sib.Node? ==> c.sib.p in h.mem
    ensures c.sib.Node? ==> forall d :: Kid(h, c.sib.p, d) == c.sib.Kid(d).Root() && RedP(h, c.sib.Kid(d).Root()) == c.sib.Kid(d).Red()
  {
    Ascend(h, c, t);
    OneKids(c, t);
    Descend(h, c.up, One(c, t), c.d.Flip());
    FocusFacts(h, c, t);
    FocusFacts(h, Aside(c, t), c.sib);
    if c.sib.Node? {
      forall d ensures Kid(h, c.sib.p, d) == c.sib.Kid(d).Root() && RedP(h, c.sib.Kid(d).Root()) == c.sib.Kid(d).Red() {
        Descend(h, Aside(c, t), c.sib, d);
        FocusFacts(h, Below(Aside(c, t), c.sib, d), c.sib.Kid(d));
      }
    }
  }

  /** Back from the brother to the place. */
  lemma Straight(h: Heap, c: Path, t: Tree)
    requires c.In? && Focus(h, Aside(c, t), c.sib)
    ensures Focus(h, c, t)
  {
  }

  // ---------------------------------------------------------------- searching

  /** Everything before the place is smaller than k, everything after it larger. */
  ghost predicate Brackets(key: Ptr -> int, c: Path, k: int) {
    (forall p :: p in c.Before() ==> key(p) < k) && (forall p :: p in c.After() ==> k < key(p))
  }

  lemma SortedSplit(key: Ptr -> int, b: seq<Ptr>, x: Ptr, a: seq<Ptr>)
    requires Sorted(key, b + [x] + a)
    ensures forall p :: p in b ==> key(p) < key(x)
    ensures forall p :: p in a ==> key(x) < key(p)
  {
    var s := b + [x] + a;
    assert s[|b|] == x;
    forall p | p in b ensures key(p) < key(x) {
      var i :| 0 <= i < |b| && b[i] == p;
      assert s[i] == p;
    }
    forall p | p in a ensures key(x) < key(p) {
      var i :| 0 <= i < |a| && a[i] == p;
      assert s[|b| + 1 + i] == p;
    }
  }

  lemma BracketsTop(key: Ptr -> int, k: int)
    ensures Brackets(key, Top, k)
  {
  }

  lemma NullOutside(h: Heap, t: Tree)
    requires Focus(h, Top, t)
    ensures NULL !in t.Nodes()
  {
    FocusFacts(h, Top, t);
  }

  lemma PlugHas(c: Path, t: Tree)
    requires t.Node?
    ensures t.p in Plug(c, t).Nodes()
  {
    PlugNodes(c, t);
  }

  lemma LeafInorder(c: Path, x: Ptr, red: bool)
    ensures Plug(c, Node(x, red, Leaf, Leaf)).Inorder() == c.Before() + [x] + c.After()
  {
    PlugInorder(c, Node(x, red, Leaf, Leaf));
    assert Node(x, red, Leaf, Leaf).Inorder() == [x];
  }

  lemma OneMore(t: Tree, c: Path, x: Ptr)
    requires t.Inorder() == c.Before() + [x] + c.After()
    ensures t.Nodes() == Plug(c, Leaf).Nodes() + {x}
  {
    PlugInorder(c, Leaf);
    InorderNodes(t);
    InorderNodes(Plug(c, Leaf));
    assert forall p :: p in t.Nodes() <==> p in c.Before() + [x] + c.After();
    assert forall p :: p in Plug(c, Leaf).Nodes() <==> p in c.Before() + [] + c.After();
  }

  lemma SearchStep(key: Ptr -> int, c: Path, t: Tree, d: Dir, k: int)
    requires Sorted(key, Plug(c, t).Inorder()) && Brackets(key, c, k) && t.Node?
    requires if d.Right? then key(t.p) < k else k < key(t.p)
    ensures Brackets(key, Below(c, t, d), k)
  {
    hide Sorted;
    PlugInorder(c, t);
    var l, r := t.l.Inorder(), t.r.Inorder();
    assert c.Before() + (l + [t.p] + r) + c.After() == (c.Before() + l) + [t.p] + (r + c.After());
    SortedSplit(key, c.Before() + l, t.p, r + c.After());
  }

  ghost predicate Consistent(key: Ptr -> int, cmp: Ptr -> int, nodes: set<Ptr>) {
    forall p, q :: p in nodes && q in nodes && key(p) < key(q) ==>
      (cmp(q) < 0 ==> cmp(p) < 0) && (cmp(p) > 0 ==> cmp(q) > 0)
  }

  /** The comparison puts everything before the place low and everything after it high. */
  ghost predicate Sides(cmp: Ptr -> int, c: Path) {
    (forall p :: p in c.Before() ==> cmp(p) < 0) && (forall p :: p in c.After() ==> cmp(p) > 0)
  }

  lemma SidesTop(cmp: Ptr -> int)
    ensures Sides(cmp, Top)
  {
  }

  lemma FindStep(key: Ptr -> int, cmp: Ptr -> int, c: Path, t: Tree, d: Dir)
    requires Sorted(key, Plug(c, t).Inorder()) && Sides(cmp, c) && t.Node? && Consistent(key, cmp, Plug(c, t).Nodes())
    requires if d.Right? then cmp(t.p) < 0 else cmp(t.p) > 0
    ensures Sides(cmp, Below(c, t, d))
  {
    hide Sorted, Plug, Tree.Inorder, Tree.Nodes;
    PlugInorder(c, t);
    NodeOrder(t);
    InorderNodes(Plug(c, t));
    InorderNodes(t.l);
    InorderNodes(t.r);
    var b, l, r, a := c.Before(), t.l.Inorder(), t.r.Inorder(), c.After();
    Centre(b, l, [t.p], r, a);
    SortedSplit(key, b + l, t.p, r + a);
    SplitMembers(b + l, t.p, r + a);
    if d.Right? {
      assert forall p :: p in l + [t.p] ==> cmp(p) < 0;
    } else {
      assert forall p :: p in [t.p] + r ==> cmp(p) > 0;
    }
  }

  lemma NoneFound(cmp: Ptr -> int, c: Path)
    requires Sides(cmp, c)
    ensures forall p :: p in Plug(c, Leaf).Nodes() ==> cmp(p) != 0
  {
    PlugInorder(c, Leaf);
    InorderNodes(Plug(c, Leaf));
    forall p | p in Plug(c, Leaf).Nodes() ensures cmp(p) != 0 {
      assert p in c.Before() + c.After();
    }
  }

  lemma {:induction false} AboveAll(s: set<Ptr>) returns (m: Ptr)
    ensures forall p :: p in s ==> p < m
    decreases s
  {
    if s == {} {
      m := 0;
    } else {
      var x :| x in s;
      var k := AboveAll(s - {x});
      m := if x < k then k else x + 1;
      forall p | p in s ensures p < m {
        assert p == x || p in s - {x};
      }
    }
  }

  lemma FreshPtr(s: set<Ptr>)
    ensures exists p: Ptr :: p !in s && p != NULL && p != HEAD
  {
    var m := AboveAll(s + {NULL, HEAD});
    assert m !in s + {NULL, HEAD};
  }

  lemma FocusFrame(h: Heap, h': Heap, t: Tree)
    requires Focus(h, Top, t) && Sound(h') && h'.root == h.root && Same(h.mem, h'.mem, t.Nodes())
    ensures Focus(h', Top, t)
  {
    RepFrame(h.mem, h'.mem, t, HEAD, Left);
  }

  lemma SortedSame(key: Ptr -> int, key': Ptr -> int, s: seq<Ptr>)
    requires Sorted(key, s) && forall p :: p in s ==> key'(p) == key(p)
    ensures Sorted(key', s)
  {
  }

  /** A search that comes to an empty place proves the key absent. */
  lemma Absent(key: Ptr -> int, c: Path, k: int)
    requires Brackets(key, c, k)
    ensures forall p :: p in Plug(c, Leaf).Nodes() ==> key(p) != k
  {
    PlugInorder(c, Leaf);
    InorderNodes(Plug(c, Leaf));
    forall p | p in Plug(c, Leaf).Nodes() ensures key(p) != k {
      assert p in c.Before() + c.After();
    }
  }

  // ---------------------------------------------------------------- a new leaf

  /** Hanging a new node in an empty place. */
  lemma HungLeaf(h: Heap, h': Heap, c: Path, self: Ptr, red: bool)
    requires Focus(h, c, Leaf) && self in h.mem && self !in c.Nodes() && h'.mem.Keys == h.mem.Keys
    requires h'.mem[self] == Cell(NULL, NULL, c.Father(), c.Side(), red)
    requires SameBut(h.mem, h'.mem, {self, c.Father()})
    requires if c.Top? then h'.root == self
             else h'.root == h.root && c.p in h.mem && h'.mem[c.p] == h.mem[c.p].Set(c.d, self)
    ensures Focus(h', c, Node(self, red, Leaf, Leaf))
  {
    FocusFacts(h, c, Leaf);
    Refocus(h, h', c, Leaf, Node(self, red, Leaf, Leaf));
  }

  /** A new leaf becomes an extreme exactly when its father was one on its side. */
  lemma LeafEnds(key: Ptr -> int, ends: Ends, c: Path, self: Ptr)
    requires Sorted(key, Plug(c, Leaf).Inorder()) && Brackets(key, c, key(self))
    requires Extremes(ends, Plug(c, Leaf).Inorder())
    ensures var s := c.Before() + [self] + c.After();
            && Sorted(key, s)
            && (c.Top? ==> Extremes(Ends(self, self), s))
            && (c.In? && ends.Get(c.d) == c.p ==> Extremes(ends.Set(c.d, self), s))
            && (c.In? && ends.Get(c.d) != c.p ==> Extremes(ends, s))
  {
    PlugInorder(c, Leaf);
    var b, a, s0 := c.Before(), c.After(), Plug(c, Leaf).Inorder();
    assert s0 == b + a;
    if c.In? && c.d.Left? {
      assert a[0] == c.p && s0[|b|] == c.p;
    } else if c.In? {
      assert b[|b| - 1] == c.p && s0[|b| - 1] == c.p;
    }
    SortedInsert(key, b, a, self);
  }

  lemma SortedInsert(key: Ptr -> int, b: seq<Ptr>, a: seq<Ptr>, x: Ptr)
    requires Sorted(key, b + a)
    requires forall p :: p in b ==> key(p) < key(x)
    requires forall p :: p in a ==> key(x) < key(p)
    ensures Sorted(key, b + [x] + a)
  {
    var s := b + [x] + a;
    forall i, j | 0 <= i < j < |s| ensures key(s[i]) < key(s[j]) {
      var i0, j0 := if i < |b| then i else i - 1, if j < |b| then j else j - 1;
      assert i != |b| ==> s[i] == (b + a)[i0];
      assert j != |b| ==> s[j] == (b + a)[j0];
    }
  }

  /** The tree at the grandfather of the focus. */
  function Two(c: Path, t: Tree): Tree
    requires c.In? && c.up.In?
  {
    Mk(c.up.p, c.up.red, c.up.d, Mk(c.p, c.red, c.d, t, c.sib), c.up.sib)
  }

  /** The same with father and uncle black. */
  function Recoloured(c: Path, t: Tree): Tree
    requires c.In? && c.up.In?
  {
    Mk(c.up.p, c.up.red, c.up.d, Mk(c.p, false, c.d, t, c.sib), c.up.sib.Paint(false))
  }

  lemma RedFatherFacts(h: Heap, c: Path, t: Tree, hh: nat)
    requires Focus(h, c, t) && c.RedFather() && PathRB(c, hh)
    ensures c.up.In? && !c.up.red && c.p in h.mem && c.up.p in h.mem
    ensures h.mem[c.p].father == c.up.p && c.p != c.up.sib.Root()
    ensures Kid(h, c.up.p, c.up.d) == c.p && Kid(h, c.up.p, c.up.d.Flip()) == c.up.sib.Root()
    ensures RedP(h, c.up.sib.Root()) == c.up.sib.Red()
    ensures Two(c, t).Kid(c.up.d).p == c.p && Two(c, t).Kid(c.up.d.Flip()) == c.up.sib
  {
    FocusFacts(h, c, t);
    Ascend(h, c, t);
    FocusFacts(h, c.up, Mk(c.p, c.red, c.d, t, c.sib));
  }

  /** Recolouring moves the double red two levels up and keeps everything else. */
  lemma RecolourKeeps(c: Path, t: Tree, hh: nat)
    requires c.RedFather() && PathRB(c, hh) && RB(t, hh) && t.Red() && c.up.In? && c.up.sib.Red()
    ensures var g := Recoloured(c, t);
            && PathRB(c.up.up, hh + 1) && !g.Red() && RB(g, hh + 2) && RB(g.Paint(true), hh + 1)
            && Plug(c.up.up, g).Inorder() == Plug(c, t).Inorder()
            && Plug(c.up.up, g.Paint(true)).Inorder() == Plug(c, t).Inorder()
  {
    var g, p := Recoloured(c, t), c.up.up;
    PlugInorder(p, g);
    PlugInorder(p, Two(c, t));
    PlugInorder(p, g.Paint(true));
    assert g.Inorder() == Two(c, t).Inorder();
  }

  lemma InsideIsFar(h: Heap, c: Path, t: Tree, which: Dir)
    requires Focus(h, c, t) && c.In? && t.Node? && c.p in h.mem && t.p == Kid(h, c.p, which.Flip())
    ensures c.d == which.Flip()
  {
  }

  /** The rotations of the last step give a red-black tree of the height the path expects, with the
      nodes in the same order; f is the father's tree, rotated if self was inside. */
  lemma InsertRotateRB(c: Path, t: Tree, hh: nat, f: Tree)
    requires c.RedFather() && PathRB(c, hh) && RB(t, hh) && t.Red() && c.up.In? && !c.up.sib.Red()
    requires var w, f0 := c.up.d, Mk(c.p, c.red, c.d, t, c.sib);
             f == if c.d == w then f0 else Rotated(f0, w.Flip())
    ensures f.Node? && PathRB(c.up.up, hh + 1)
    ensures var w, g := c.up.d, WithKid(Two(c, t), c.up.d, f);
            && g.Kid(w) == f && g == Mk(c.up.p, c.up.red, c.up.d, f, c.up.sib)
            && !Rotated(g, w).Red() && RB(Rotated(g, w), hh + 1)
            && Plug(c.up.up, Rotated(g, w)).Inorder() == Plug(c, t).Inorder()
  {
    var w, f0 := c.up.d, Mk(c.p, c.red, c.d, t, c.sib);
    var g := WithKid(Two(c, t), w, f);
    if c.d != w { RotatedInorder(f0, w.Flip()); }
    assert f.Inorder() == f0.Inorder();
    RotatedInorder(g, w);
    PlugInorder(c.up.up, Rotated(g, w));
    PlugInorder(c.up.up, Two(c, t));
    SameOrder(c.up.p, c.up.red, w, f, f0, c.up.sib);
  }

  lemma SameOrder(p: Ptr, red: bool, w: Dir, f: Tree, f': Tree, s: Tree)
    requires f.Inorder() == f'.Inorder()
    ensures Mk(p, red, w, f, s).Inorder() == Mk(p, red, w, f', s).Inorder()
  {
  }

  lemma RootIsTop(h: Heap, c: Path, t: Tree)
    requires Focus(h, c, t) && t.Node? && h.root == t.p
    ensures c.Top?
  {
    if c.In? { RootOfPath(h, c, t.p); }
  }

  lemma NotTop(h: Heap, c: Path, t: Tree)
    requires Focus(h, c, t) && t.Node? && h.root != t.p
    ensures c.In?
  {
  }

  lemma {:induction false} RootOfPath(h: Heap, c: Path, x: Ptr)
    requires PathRep(h, c, x) && c.In?
    ensures h.root in c.Nodes()
  {
    if c.up.In? { RootOfPath(h, c.up, c.p); }
  }
}
