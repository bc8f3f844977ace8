/** Fork: the page tables of the child are built by sharing every ordinary page copy-on-write, and
    by copying the page below the copy-on-write range. */
module ThreadFork {
  import opened Options
  import opened Pae
  import opened FrameSharing
  import opened EagerFork
  import opened PageMap

  /** An address space with nothing in it. */
  ghost predicate Empty(pt: PageTables, pid: Pid) {
    forall t :: t in pt && t.pid == pid ==> !pt[t].present
  }

  /** The page tables after page v of parent p has been shared with child c. */
  function Shared(pt: PageTables, p: Slot, c: Slot): PageTables {
    var e := Entry(pt, p);
    if !e.present then pt[c := e]
    else if e.IsExternal() then pt[c := BLANK]
    else pt[p := e.MkCow()][c := e.MkCow()]
  }

  function SharedFrames(pt: PageTables, frames: Frames, p: Slot): Frames
    requires Entry(pt, p).MapsFrame() ==> Entry(pt, p).pfn in frames
  {
    var e := Entry(pt, p);
    if e.present && !e.IsExternal() then Raised(frames, e.pfn) else frames
  }

  /** Sharing one page keeps the sharing invariants. */
  lemma ShareKeepsInv(pt: PageTables, frames: Frames, p: Slot, c: Slot)
    requires Inv(pt, frames) && p != c && (c !in pt || !pt[c].present)
    ensures Entry(pt, p).MapsFrame() ==> Entry(pt, p).pfn in frames
    ensures Inv(Shared(pt, p, c), SharedFrames(pt, frames, p))
  {
    var e := Entry(pt, p);
    EntryIsOk(pt, frames, p);
    if !e.present {
      RemoveEntry(pt, frames, c, e);
    } else if e.IsExternal() {
      RemoveEntry(pt, frames, c, BLANK);
    } else {
      RetypeEntry(pt, frames, p, e.MkCow());
      var pt1 := pt[p := e.MkCow()];
      forall a | a in Mappings(pt1, e.pfn) ensures pt1[a].kind == Cow {
        assert a != p ==> pt[a].MapsFrame() && pt[p].MapsFrame() && pt[a].pfn == pt[p].pfn;
      }
      ShareCow(pt1, frames, c, e.MkCow());
    }
  }

  lemma ShareKeepsWires(pt: PageTables, frames: Frames, dmas: seq<Dma>, p: Slot, c: Slot)
    requires Inv(pt, frames) && WireCounted(pt, frames, dmas) && p != c && (c !in pt || !pt[c].present)
    requires Entry(pt, p).MapsFrame() ==> Entry(pt, p).pfn in frames
    ensures WireCounted(Shared(pt, p, c), SharedFrames(pt, frames, p), dmas)
  {
    hide CountSlot, Counted, Exclusive;
  }

  /** Sharing hands out no frame, so what the wire counts started from is as before. */
  lemma ShareKeepsLeftover(pt: PageTables, frames: Frames, p: Slot, c: Slot)
    requires Inv(pt, frames) && p != c && (c !in pt || !pt[c].present)
    requires Entry(pt, p).MapsFrame() ==> Entry(pt, p).pfn in frames
    ensures NoLeftover(Shared(pt, p, c), SharedFrames(pt, frames, p)) <==> NoLeftover(pt, frames)
  {
    var pt', frames' := Shared(pt, p, c), SharedFrames(pt, frames, p);
    if NoLeftover(pt', frames') {
      forall s | s in pt && pt[s].MapsFrame() && pt[s].pfn in frames ensures frames[pt[s].pfn].base == 0 {
        assert pt'[s].MapsFrame() && pt'[s].pfn == pt[s].pfn;
      }
    }
  }

  /** A frame shared by a fork has a count of at least two from then on. */
  lemma ShareKeepsCow(pt: PageTables, frames: Frames, p: Slot, c: Slot)
    requires Inv(pt, frames) && CowShared(pt, frames) && p != c && (c !in pt || !pt[c].present)
    requires Entry(pt, p).MapsFrame() ==> Entry(pt, p).pfn in frames
    ensures CowShared(Shared(pt, p, c), SharedFrames(pt, frames, p))
  {
    var e := Entry(pt, p);
    if e.present && !e.IsExternal() {
      EntryIsOk(pt, frames, p);
      assert p in Mappings(pt, e.pfn);
      MappingsFinite(pt, e.pfn, p);
      assert frames[e.pfn].ref >= 1;
    }
  }

  /** On the reference machine, sharing one page is copying it: the parent sees no change. */
  lemma AbsShare(pt: PageTables, frames: Frames, mem: Memory, dmas: seq<Dma>, p: Slot, c: Slot)
    requires Inv(pt, frames) && frames.Keys == mem.Keys && p != c && (c !in pt || !pt[c].present)
    requires Entry(pt, p).MapsFrame() ==> Entry(pt, p).pfn in frames
    ensures var e := Abs(pt, frames, mem, dmas);
            Abs(Shared(pt, p, c), SharedFrames(pt, frames, p), mem, dmas)
            == if p in e.view && e.view[p].Plain? then e.(view := e.view[c := e.view[p]]) else e
  {
    var e := Entry(pt, p);
    SeenAt(pt, frames, mem, dmas, p);
    SeenAt(pt, frames, mem, dmas, c);
    EntryIsOk(pt, frames, p);
    if !e.present {
      SeenSet(pt, mem, c, e);
    } else if e.IsExternal() {
      SeenSet(pt, mem, c, BLANK);
    } else {
      SeenSame(pt, mem, p, e.MkCow());
      SeenSet(pt[p := e.MkCow()], mem, c, e.MkCow());
      assert Devices(Raised(frames, e.pfn), mem) == Devices(frames, mem);
    }
  }

  /** Everything sharing one page keeps, in one place for the loop below. */
  lemma SharePage(pt: PageTables, frames: Frames, mem: Memory, dmas: seq<Dma>, p: Slot, c: Slot)
    requires Inv(pt, frames) && WireCounted(pt, frames, dmas) && frames.Keys == mem.Keys
    requires p != c && (c !in pt || !pt[c].present)
    ensures Entry(pt, p).MapsFrame() ==> Entry(pt, p).pfn in frames && frames[Entry(pt, p).pfn].typ == User
    ensures var pt', frames' := Shared(pt, p, c), SharedFrames(pt, frames, p);
            && Inv(pt', frames') && WireCounted(pt', frames', dmas) && frames'.Keys == mem.Keys
            && SameTypes(frames, frames')
            && (CowShared(pt, frames) ==> CowShared(pt', frames'))
            && (NoLeftover(pt', frames') <==> NoLeftover(pt, frames))
            && var e := Abs(pt, frames, mem, dmas);
               Abs(pt', frames', mem, dmas)
               == if p in e.view && e.view[p].Plain? then e.(view := e.view[c := e.view[p]]) else e
  {
    hide WireCounted, Typed, Counted, Exclusive, CowShared, NoLeftover, Seen, Devices;
    EntryIsOk(pt, frames, p);
    ShareKeepsInv(pt, frames, p, c);
    ShareKeepsWires(pt, frames, dmas, p, c);
    AbsShare(pt, frames, mem, dmas, p, c);
    ShareKeepsLeftover(pt, frames, p, c);
    if CowShared(pt, frames) {
      ShareKeepsCow(pt, frames, p, c);
    }
  }

  /** Share one page with the child. */
  method ShareOne(k: Kernel, orig: Slot, copy: Slot)
    requires k.Valid() && orig != copy && (copy !in k.pt || !k.pt[copy].present)
    modifies k`pt, k`frames
    ensures k.Valid() && k.CowKept(old(k.pt), old(k.frames)) && SameTypes(old(k.frames), k.frames)
    ensures k.pt == Shared(old(k.pt), orig, copy)
    ensures NoLeftover(k.pt, k.frames) <==> old(NoLeftover(k.pt, k.frames))
    ensures var e := old(k.State());
            k.State() == if orig in e.view && e.view[orig].Plain? then e.(view := e.view[copy := e.view[orig]]) else e
  {
    hide Typed, Counted, Exclusive, WireCounted, CowShared, NoLeftover, Seen, Devices;
    SharePage(k.pt, k.frames, k.mem, k.dmas, orig, copy);
    var l1e := Entry(k.pt, orig);
    if !l1e.present {
      k.pt := k.pt[copy := l1e];
    } else if l1e.IsExternal() {
      k.pt := k.pt[copy := BLANK];
    } else {
      k.IncRef(l1e.pfn);
      l1e := l1e.MkCow();
      k.pt := k.pt[orig := l1e];
      k.pt := k.pt[copy := l1e];
    }
  }

  /** Blanking an absent entry is invisible. */
  method BlankOne(k: Kernel, copy: Slot)
    requires k.Valid() && (copy !in k.pt || !k.pt[copy].present)
    modifies k`pt
    ensures k.Valid() && k.CowKept(old(k.pt), k.frames)
    ensures k.pt == old(k.pt)[copy := BLANK] && k.State() == old(k.State())
    ensures NoLeftover(k.pt, k.frames) <==> old(NoLeftover(k.pt, k.frames))
  {
    hide Typed, Counted, Exclusive, WireCounted, CowShared, NoLeftover, Seen, Devices;
    RemoveEntry(k.pt, k.frames, copy, BLANK);
    RetypeKeepsRest(k.pt, k.frames, k.dmas, copy, BLANK);
    AbsUnmap(k.pt, k.frames, k.frames, k.mem, k.dmas, copy, BLANK);
    SeenAt(k.pt, k.frames, k.mem, k.dmas, copy);
    assert k.State().view - {copy} == k.State().view;
    RemoveKeepsLeftover(k.pt, k.frames, copy, BLANK);
    k.pt := k.pt[copy := BLANK];
  }

  lemma RemoveKeepsLeftover(pt: PageTables, frames: Frames, s: Slot, e: L1e)
    requires !Entry(pt, s).present && !e.present
    ensures NoLeftover(pt[s := e], frames) <==> NoLeftover(pt, frames)
  {
    var pt' := pt[s := e];
    if NoLeftover(pt', frames) {
      forall t | t in pt && pt[t].MapsFrame() && pt[t].pfn in frames ensures frames[pt[t].pfn].base == 0 {
        assert pt'[t] == pt[t];
      }
    }
  }

  /** What building the child's tables up to page v leaves of the old tables. */
  ghost predicate Untouched(pt0: PageTables, pt: PageTables, parent: Pid, child: Pid, v: Vpn) {
    && (forall t: Slot :: t.pid != child && !(t.pid == parent && COWBASE <= t.vpn < v) ==> Entry(pt, t) == Entry(pt0, t))
    && (forall t :: Entry(pt0, t).IsExternal() ==> Entry(pt, t) == Entry(pt0, t))
    && (forall t :: t in pt && t.pid == child && !(COWBASE <= t.vpn < v) ==> !pt[t].present)
    && (forall t: Slot :: t.pid == child && COWBASE <= t.vpn < v && Entry(pt, t).present ==> Entry(pt0, Slot(parent, t.vpn)).present)
    && (forall t: Slot :: t.pid == parent ==> Entry(pt, t).present == Entry(pt0, t).present)
  }

  lemma SharedEntry(pt: PageTables, p: Slot, c: Slot, t: Slot)
    requires p != c
    ensures t != p && t != c ==> Entry(Shared(pt, p, c), t) == Entry(pt, t)
    ensures t == p ==> Entry(Shared(pt, p, c), t).present == Entry(pt, t).present
    ensures t == p && Entry(pt, p).IsExternal() ==> Entry(Shared(pt, p, c), t) == Entry(pt, t)
    ensures t == c && Entry(Shared(pt, p, c), t).present ==> Entry(pt, p).present
  {
  }

  lemma UntouchedStep(pt0: PageTables, pt: PageTables, parent: Pid, child: Pid, v: Vpn)
    requires parent != child && COWBASE <= v && Untouched(pt0, pt, parent, child, v)
    ensures !Entry(pt, Slot(child, v)).present
    ensures Untouched(pt0, Shared(pt, Slot(parent, v), Slot(child, v)), parent, child, v + 1)
  {
    hide Shared;
    var p, c := Slot(parent, v), Slot(child, v);
    var pt' := Shared(pt, p, c);
    assert !Entry(pt, c).present;
    forall t ensures t != p && t != c ==> Entry(pt', t) == Entry(pt, t) {
      SharedEntry(pt, p, c, t);
    }
    SharedEntry(pt, p, c, p);
    SharedEntry(pt, p, c, c);
    forall t | t in pt' && t.pid == child && !(COWBASE <= t.vpn < v + 1) ensures !pt'[t].present {
      assert Entry(pt', t) == Entry(pt, t);
    }
  }

  lemma UntouchedStart(pt0: PageTables, parent: Pid, child: Pid)
    requires parent != child && Empty(pt0, child)
    ensures Untouched(pt0, pt0[Slot(child, USERBASE) := BLANK], parent, child, COWBASE)
  {
  }

  lemma UntouchedReserved(pt0: PageTables, pt: PageTables, parent: Pid, child: Pid)
    requires Untouched(pt0, pt, parent, child, USEREND)
    requires forall s :: s in pt0 && pt0[s].present ==> s.vpn != VACOW
    ensures forall s :: s in pt && pt[s].present ==> s.vpn != VACOW
  {
  }

  /** Build the child's page tables. */
  method PmapCopy(k: Kernel, parent: Pid, child: Pid)
    requires k.Valid() && parent != child && Empty(k.pt, child)
    modifies k`pt, k`frames
    ensures k.Valid() && k.CowKept(old(k.pt), old(k.frames)) && SameTypes(old(k.frames), k.frames)
    ensures var e := old(k.State());
            k.State() == e.(view := e.view + Inherited(e.view, parent, child, COWBASE, USEREND))
    ensures Untouched(old(k.pt), k.pt, parent, child, USEREND)
    ensures NoLeftover(k.pt, k.frames) <==> old(NoLeftover(k.pt, k.frames))
  {
    hide Typed, Counted, Exclusive, WireCounted, CowShared, NoLeftover, Seen, Devices, Shared, Inherited, Untouched;
    ghost var e0, pt0 := k.State(), k.pt;
    UntouchedStart(k.pt, parent, child);
    BlankOne(k, Slot(child, USERBASE));
    var v := COWBASE;
    InheritedEmpty(e0.view, parent, child, COWBASE);
    while v < USEREND
      invariant COWBASE <= v <= USEREND
      invariant k.Valid() && k.CowKept(old(k.pt), old(k.frames)) && SameTypes(old(k.frames), k.frames)
      invariant k.State() == e0.(view := e0.view + Inherited(e0.view, parent, child, COWBASE, v))
      invariant Untouched(pt0, k.pt, parent, child, v)
      invariant NoLeftover(k.pt, k.frames) <==> old(NoLeftover(k.pt, k.frames))
    {
      InheritedStep(e0.view, parent, child, COWBASE, v);
      UntouchedStep(pt0, k.pt, parent, child, v);
      ShareOne(k, Slot(parent, v), Slot(child, v));
      v := v + 1;
    }
  }

  lemma InheritedEmpty(v: View, p: Pid, c: Pid, lo: Vpn)
    ensures Inherited(v, p, c, lo, lo) == map[]
    ensures v + Inherited(v, p, c, lo, lo) == v
  {
  }

  /** The view a fork has built after pages [lo, hi), one page further. */
  lemma InheritedStep(v: View, p: Pid, c: Pid, lo: Vpn, hi: Vpn)
    requires lo <= hi && p != c
    ensures var w, s, d := v + Inherited(v, p, c, lo, hi), Slot(p, hi), Slot(c, hi);
            && (s in w <==> s in v) && (s in v ==> w[s] == v[s])
            && v + Inherited(v, p, c, lo, hi + 1) == if s in v && v[s].Plain? then w[d := v[s]] else w
  {
    InheritedNext(v, p, c, lo, hi);
    assert Slot(p, hi) !in Heirs(v, p, c, lo, hi);
  }

  /** Copy the page below the copy-on-write range into a frame of the child's own.  The frame has
      its reference count cleared but not its wire count, which keeps whatever the free list left
      there. */
  method CopyLow(k: Kernel, src: Slot, dst: Slot, g: Option<Pfn>, leftover: nat) returns (r: Result)
    requires k.Valid() && UserVpn(dst.vpn) && !Entry(k.pt, dst).present
    requires g.Some? ==> g.value in k.frames && k.frames[g.value].typ == Free
    modifies k`pt, k`frames, k`mem
    ensures r == if g.None? then Panic else Ok
    ensures r.Ok? ==> k.Valid() && k.CowKept(old(k.pt), old(k.frames))
    ensures r.Ok? ==> (src in old(k.State()).view <==> Entry(old(k.pt), src).present)
    ensures r.Ok? ==> var e := old(k.State());
                      k.State() == if src in e.view then e.(view := e.view[dst := Plain(Data(e, src))]) else e
    ensures r.Ok? ==> (NoLeftover(k.pt, k.frames) <==>
                         old(NoLeftover(k.pt, k.frames)) && (leftover == 0 || !Entry(old(k.pt), src).present))
    ensures r.Ok? ==> forall s :: s != dst ==> Entry(k.pt, s) == Entry(old(k.pt), s)
    ensures r.Ok? ==> if Entry(old(k.pt), src).present then Entry(k.pt, dst) == MkEntry(g.value, Prot(true, true, true))
                      else Entry(k.pt, dst) == Entry(old(k.pt), dst)
    ensures r.Ok? ==> TypesBut(old(k.frames), k.frames, g.value, if Entry(old(k.pt), src).present then User else FrameType.Free)
  {
    hide Typed, Counted, Exclusive, WireCounted, CowShared, NoLeftover, Seen, Devices, Data, Mappings, EntryOk;
    SeenAt(k.pt, k.frames, k.mem, k.dmas, src);
    ghost var pt1, frames1 := k.pt, k.frames;
    if g.None? {
      return Panic;
    }
    k.TakeFrame(g.value, leftover);
    AbsCounts(pt1, frames1, k.frames, k.mem, k.dmas);
    FreshLeftover(pt1, frames1, k.frames, g.value, dst);
    if !Entry(k.pt, src).present {
      FreshLeftover(pt1, k.frames, k.frames[g.value := k.frames[g.value].(typ := Free)], g.value, dst);
      ghost var frames2 := k.frames;
      k.FreePage(g.value);
      AbsCounts(pt1, frames2, k.frames, k.mem, k.dmas);
      return Ok;
    }
    FillLow(k, src, dst, g.value);
    r := Ok;
  }

  /** Copy a page into a frame of no one's and map it. */
  method FillLow(k: Kernel, src: Slot, dst: Slot, g: Pfn)
    requires k.Valid() && UserVpn(dst.vpn) && !Entry(k.pt, dst).present && Entry(k.pt, src).present
    requires g in k.frames && k.frames[g].typ == User && k.frames[g].wir == k.frames[g].base && Mappings(k.pt, g) == {}
    requires forall s :: s in k.pt && k.pt[s].present ==> k.pt[s].pfn != g
    modifies k`pt, k`frames, k`mem
    ensures k.Valid() && k.CowKept(old(k.pt), old(k.frames)) && SameTypes(old(k.frames), k.frames)
    ensures src in old(k.State()).view
    ensures var e := old(k.State()); k.State() == e.(view := e.view[dst := Plain(Data(e, src))])
    ensures k.pt == old(k.pt)[dst := MkEntry(g, Prot(true, true, true))]
    ensures NoLeftover(k.pt, k.frames) <==> old(NoLeftover(k.pt, k.frames)) && old(k.frames)[g].base == 0
  {
    hide Typed, Counted, Exclusive, WireCounted, CowShared, NoLeftover, Seen, Devices, Data, Mappings, EntryOk;
    SeenAt(k.pt, k.frames, k.mem, k.dmas, src);
    var data := k.mem[Entry(k.pt, src).pfn];
    AbsMap(k.pt, k.frames, Raised(k.frames, g), k.mem, k.dmas, dst, MkEntry(g, Prot(true, true, true)), data);
    FreshLeftover(k.pt, k.frames, Raised(k.frames, g), g, dst);
    k.mem := k.mem[g := data];
    var r, opfn := k.UEnter(dst, g, Prot(true, true, true));
  }

  /** No frame but g changed type, and g has type t. */
  ghost predicate TypesBut(a: Frames, b: Frames, g: Pfn, t: FrameType) {
    a.Keys == b.Keys && g in b && b[g].typ == t && forall f :: f in a && f != g ==> b[f].typ == a[f].typ
  }

  /** Mapping a frame nothing mapped adds what its wire count started from. */
  lemma FreshLeftover(pt: PageTables, frames: Frames, frames': Frames, g: Pfn, s: Slot)
    requires g in frames && g in frames' && frames' == frames[g := frames'[g]]
    requires forall t :: t in pt && pt[t].present ==> pt[t].pfn != g
    ensures NoLeftover(pt, frames') <==> NoLeftover(pt, frames)
    ensures !Entry(pt, s).present ==>
              (NoLeftover(pt[s := MkEntry(g, Prot(true, true, true))], frames') <==>
                 NoLeftover(pt, frames) && frames'[g].base == 0)
  {
    var pt' := pt[s := MkEntry(g, Prot(true, true, true))];
    if !Entry(pt, s).present && NoLeftover(pt', frames') {
      assert pt'[s].MapsFrame();
      forall t | t in pt && pt[t].MapsFrame() && pt[t].pfn in frames ensures frames[pt[t].pfn].base == 0 {
        assert pt'[t] == pt[t];
      }
    }
  }

  /** Fork, on the kernel side: the result is the one fork by copying would give, whatever the free
      list left in the frame of the low page.  The child has its faults delivered where its parent
      has; and if that is in the low page, it can have them delivered whether or not its parent could. */
  method Fork(k: Kernel, parent: Pid, child: Pid, g: Option<Pfn>, leftover: nat) returns (r: Result)
    requires k.Valid() && parent != child && Empty(k.pt, child)
    requires g.Some? ==> g.value in k.frames && k.frames[g.value].typ == Free
    modifies k`pt, k`frames, k`mem, k`sig, k`roots
    ensures r == if g.None? then Panic else Ok
    ensures r.Ok? ==> k.Valid() && k.CowKept(old(k.pt), old(k.frames))
    ensures r.Ok? ==> k.State() == Step(old(k.State()), EagerFork.Fork(parent, child))
    ensures r.Ok? ==> (NoLeftover(k.pt, k.frames) <==>
                         old(NoLeftover(k.pt, k.frames)) &&
                         (leftover == 0 || !Entry(old(k.pt), Slot(parent, USERBASE)).present))
    ensures r.Ok? ==> ForkedTables(old(k.pt), k.pt, parent, child, g.value)
    ensures r.Ok? ==> TypesBut(old(k.frames), k.frames, g.value,
                               if Entry(old(k.pt), Slot(parent, USERBASE)).present then User else FrameType.Free)
    ensures r.Ok? ==> k.sig == if parent in old(k.sig) then old(k.sig)[child := old(k.sig)[parent]] else old(k.sig) - {child}
    ensures k.roots == old(k.roots) - {child}
  {
    hide Typed, Counted, Exclusive, WireCounted, CowShared, NoLeftover, Seen, Devices, Inherited, Untouched, Step, Data;
    ghost var e0 := k.State();
    var src, dst := Slot(parent, USERBASE), Slot(child, USERBASE);
    SeenAt(k.pt, k.frames, k.mem, k.dmas, src);
    PmapCopy(k, parent, child);
    UntouchedFacts(old(k.pt), k.pt, parent, child);
    ForkInTwo(e0, parent, child);
    ghost var pt1, frames1 := k.pt, k.frames;
    assert g.Some? ==> g.value in k.frames && k.frames[g.value].typ == Free;
    hide SameTypes, TypesBut, Empty, ForkedTables;
    r := CopyLow(k, src, dst, g, leftover);
    if r.Ok? {
      TypesThrough(old(k.frames), frames1, k.frames, g.value, if Entry(pt1, src).present then User else FrameType.Free);
      TablesDone(old(k.pt), pt1, k.pt, parent, child, g.value);
    }
    k.sig := if parent in k.sig then k.sig[child := k.sig[parent]] else k.sig - {child};
    k.roots := k.roots - {child};
  }

  /** What a fork leaves of the page tables: external entries, the low pages of others, and the page
      kept for copying as they were; and the child's low page of its own and writable, if its parent
      has one. */
  ghost predicate ForkedTables(pt0: PageTables, pt: PageTables, parent: Pid, child: Pid, g: Pfn) {
    && (forall s :: Entry(pt0, s).IsExternal() ==> Entry(pt, s) == Entry(pt0, s))
    && (forall s: Slot :: s.pid != child && s.vpn < COWBASE ==> Entry(pt, s) == Entry(pt0, s))
    && ((forall s :: s in pt0 && pt0[s].present ==> s.vpn != VACOW) ==> forall s :: s in pt && pt[s].present ==> s.vpn != VACOW)
    && if Entry(pt0, Slot(parent, USERBASE)).present
       then Entry(pt, Slot(child, USERBASE)) == MkEntry(g, Prot(true, true, true))
       else !Entry(pt, Slot(child, USERBASE)).present
  }

  lemma TablesDone(pt0: PageTables, pt1: PageTables, pt: PageTables, parent: Pid, child: Pid, g: Pfn)
    requires Untouched(pt0, pt1, parent, child, USEREND) && parent != child && Empty(pt0, child)
    requires forall s :: s != Slot(child, USERBASE) ==> Entry(pt, s) == Entry(pt1, s)
    requires if Entry(pt1, Slot(parent, USERBASE)).present then Entry(pt, Slot(child, USERBASE)) == MkEntry(g, Prot(true, true, true))
             else Entry(pt, Slot(child, USERBASE)) == Entry(pt1, Slot(child, USERBASE))
    ensures ForkedTables(pt0, pt, parent, child, g)
  {
    UntouchedFacts(pt0, pt1, parent, child);
    hide Untouched;
    if forall s :: s in pt0 && pt0[s].present ==> s.vpn != VACOW {
      UntouchedReserved(pt0, pt1, parent, child);
      forall s | s in pt && pt[s].present ensures s.vpn != VACOW {
        assert s != Slot(child, USERBASE) ==> Entry(pt, s) == Entry(pt1, s);
      }
    }
  }

  lemma TypesThrough(a: Frames, b: Frames, c: Frames, g: Pfn, t: FrameType)
    requires SameTypes(a, b) && TypesBut(b, c, g, t)
    ensures TypesBut(a, c, g, t)
  {
  }

  lemma UntouchedFacts(pt0: PageTables, pt: PageTables, parent: Pid, child: Pid)
    requires Untouched(pt0, pt, parent, child, USEREND) && parent != child && Empty(pt0, child)
    ensures !Entry(pt, Slot(child, USERBASE)).present
    ensures Entry(pt, Slot(parent, USERBASE)) == Entry(pt0, Slot(parent, USERBASE))
    ensures forall s: Slot :: s.pid != child && s.vpn < COWBASE ==> Entry(pt, s) == Entry(pt0, s)
    ensures forall s :: Entry(pt0, s).IsExternal() ==> Entry(pt, s) == Entry(pt0, s) && s.pid != child
  {
  }

  /** Fork by copying in two steps: the copy-on-write range, and the page below it. */
  lemma ForkInTwo(e: Eager, p: Pid, c: Pid)
    requires p != c
    ensures var s, e1 := Slot(p, USERBASE), e.(view := e.view + Inherited(e.view, p, c, COWBASE, USEREND));
            && (s in e1.view <==> s in e.view)
            && Step(e, EagerFork.Fork(p, c)) == if s in e1.view then e1.(view := e1.view[Slot(c, USERBASE) := Plain(Data(e1, s))]) else e1
  {
    hide Inherited;
    NotInherited(e.view, p, c, Slot(p, USERBASE));
  }

  lemma NotInherited(v: View, p: Pid, c: Pid, s: Slot)
    requires s.pid != c
    ensures var w := v + Inherited(v, p, c, COWBASE, USEREND); (s in w <==> s in v) && (s in v ==> w[s] == v[s])
  {
  }
}
