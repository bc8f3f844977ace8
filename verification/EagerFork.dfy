/** The reference machine: an address space is just its pages' contents, fork copies every page
    outright, and nothing is ever shared except device memory.  Also the abstraction from the
    kernel's page tables and memory to this machine. */
module EagerFork {
  import opened Pae
  import opened FrameSharing

  /** What a process sees in one page: ordinary memory, memory wired for a device, or a device's
      own memory. */
  datatype VPage = Plain(data: Page) | Pinned(data: Page) | Device(pfn: Pfn) {
    predicate External() { !Plain? }
  }

  type View = map<Slot, VPage>
  type DevMem = map<Pfn, Page>
  datatype Eager = Eager(view: View, dev: DevMem, dmas: seq<Dma>)

  /** The protections the user runtime resolves an address to. */
  datatype Region = Nil | Ro | Rx | Rw | Wx {
    predicate Writable() { Rw? || Wx? }
  }

  datatype Op =
    | Fork(parent: Pid, child: Pid)
    | Map(s: Slot, prot: Prot)
    | Unmap(s: Slot)
    | Move(pid: Pid, dst: Vpn, src: Vpn)
    | Protect(s: Slot, prot: Prot)
    | Read(s: Slot, off: nat, region: Region)
    | Write(s: Slot, off: nat, val: bv8, region: Region)
    | IoMap(s: Slot, pfn: Pfn, prot: Prot)
    | IoUnmap(s: Slot)
    | Export(client: nat, s: Slot, off: nat, sz: nat)
    | Unexport(client: nat, s: Slot, off: nat)
    | Close(client: nat)
    | Clear(pid: Pid, lo: Vpn, hi: Vpn)
    | Handler(pid: Pid, ip: nat, sp: nat)

  function Data(e: Eager, s: Slot): Page
    requires s in e.view
  {
    match e.view[s]
    case Plain(d) => d
    case Pinned(d) => d
    case Device(f) => if f in e.dev then e.dev[f] else ZeroPage()
  }

  function SetByte(p: Page, off: nat, val: bv8): Page
    requires off < PAGE_SIZE
  {
    p[off := val]
  }

  function SetData(e: Eager, s: Slot, d: Page): Eager
    requires s in e.view
  {
    match e.view[s]
    case Plain(_) => e.(view := e.view[s := Plain(d)])
    case Pinned(_) => e.(view := e.view[s := Pinned(d)])
    case Device(f) => e.(dev := e.dev[f := d])
  }

  /** The child's slots in pages [lo, hi) that a fork fills. */
  function Heirs(v: View, p: Pid, c: Pid, lo: Vpn, hi: Vpn): set<Slot> {
    set q | q in v && q.pid == p && lo <= q.vpn < hi && v[q].Plain? :: Slot(c, q.vpn)
  }

  function Inherited(v: View, p: Pid, c: Pid, lo: Vpn, hi: Vpn): View {
    map s | s in Heirs(v, p, c, lo, hi) && Slot(p, s.vpn) in v :: v[Slot(p, s.vpn)]
  }

  /** Fork by copying: the child gets its own copy of every ordinary page of the copy-on-write
      range, and a copy of whatever the parent can read in the no-copy-on-write page. */
  function ForkCopy(e: Eager, p: Pid, c: Pid): Eager {
    var v := e.view + Inherited(e.view, p, c, COWBASE, USEREND);
    if Slot(p, USERBASE) in e.view
    then e.(view := v[Slot(c, USERBASE) := Plain(Data(e, Slot(p, USERBASE)))])
    else e.(view := v)
  }

  /** The range of sz bytes at an address, in 32 bits, ends in the page it starts in. */
  predicate OnePage(s: Slot, off: nat, sz: nat) {
    (s.vpn * PAGE_SIZE + off + sz + 0xffff_ffff) % 0x1_0000_0000 / PAGE_SIZE == s.vpn
  }

  /** So a range within the page is accepted, up to its last byte, and one that goes round the whole address
      space and ends in the page before it started; and no other. */
  lemma OnePageIs(s: Slot, off: nat, sz: nat)
    requires UserVpn(s.vpn) && off < PAGE_SIZE && sz < 0x1_0000_0000
    ensures OnePage(s, off, sz) <==> 0 < off + sz <= PAGE_SIZE || off + sz > 0x1_0000_0000
  {
    var a := s.vpn * PAGE_SIZE + off + sz + 0xffff_ffff;
    if off + sz == 0 {
      PageOf32(a, 1, s.vpn - 1, PAGE_SIZE - 1);
    } else if off + sz <= PAGE_SIZE {
      PageOf32(a, 1, s.vpn, off + sz - 1);
    } else if off + sz > 0x1_0000_0000 {
      PageOf32(a, 2, s.vpn, off + sz - 1 - 0x1_0000_0000);
    } else {
      var last := s.vpn * PAGE_SIZE + off + sz - 1;
      PageOf32(a, if last < 0x1_0000_0000 then 1 else 2, last % 0x1_0000_0000 / PAGE_SIZE, last % PAGE_SIZE);
    }
  }

  lemma PageOf32(a: nat, k: nat, v: nat, o: nat)
    requires a == k * 0x1_0000_0000 + v * PAGE_SIZE + o && v < 2048 && o < PAGE_SIZE
    ensures a % 0x1_0000_0000 / PAGE_SIZE == v
  {
  }

  function Blocked(e: Eager, s: Slot): bool { s in e.view && e.view[s].External() }

  /** A page touched for the first time reads as zeroes. */
  function Touch(e: Eager, s: Slot): Eager {
    if s in e.view then e else e.(view := e.view[s := Plain(ZeroPage())])
  }

  function Step(e: Eager, op: Op): Eager
  {
    match op
    case Fork(p, c) => ForkCopy(e, p, c)
    case Map(s, _) => if Blocked(e, s) then e else e.(view := e.view[s := Plain(ZeroPage())])
    case Unmap(s) => if Blocked(e, s) then e else e.(view := e.view - {s})
    case Move(pid, dst, src) => MovePage(e, Slot(pid, dst), Slot(pid, src))
    case Protect(_, _) => e
    case Read(s, _, _) => Touch(e, s)
    case Write(s, off, val, _) =>
      var t := Touch(e, s);
      if off < PAGE_SIZE then SetData(t, s, SetByte(Data(t, s), off, val)) else t
    case IoMap(s, pfn, prot) =>
      if pfn !in e.dev || Blocked(e, s) then e
      else if prot.present then e.(view := e.view[s := Device(pfn)])
      else e.(view := e.view - {s})
    case IoUnmap(s) => if s in e.view && e.view[s].Device? then e.(view := e.view - {s}) else e
    case Export(client, s, off, sz) =>
      if s !in e.view || e.view[s].Device? || !OnePage(s, off, sz) then e
      else Eager(e.view[s := Pinned(e.view[s].data)], e.dev, [Dma(client, s, off)] + e.dmas)
    case Unexport(client, s, off) => Release(e, FindDma(e.dmas, Dma(client, s, off)))
    case Close(client) => ReleaseClient(e, client, 0)
    case Clear(pid, lo, hi) => ClearTo(e, pid, lo, hi)
    case Handler(_, _, _) => e
  }

  /** The first matching record's index, or the length if there is none. */
  function FindDma(ds: seq<Dma>, d: Dma): (i: nat)
    ensures i <= |ds|
    ensures i < |ds| ==> ds[i] == d
    ensures forall j :: 0 <= j < i ==> ds[j] != d
  {
    if ds == [] || ds[0] == d then 0 else 1 + FindDma(ds[1..], d)
  }

  /** Drop record i; the page becomes ordinary again when that was its last record. */
  function Release(e: Eager, i: nat): Eager {
    if i >= |e.dmas| then e
    else
      var s := e.dmas[i].slot;
      var ds := e.dmas[..i] + e.dmas[i + 1..];
      if CountSlot(ds, s) == 0 && s in e.view && e.view[s].Pinned?
      then Eager(e.view[s := Plain(e.view[s].data)], e.dev, ds)
      else e.(dmas := ds)
  }

  /** Drop the records of one client from index i on, first to last. */
  function ReleaseClient(e: Eager, client: nat, i: nat): (r: Eager)
    decreases |e.dmas| - i
  {
    if i >= |e.dmas| then e
    else if e.dmas[i].client == client then ReleaseClient(Release(e, i), client, i)
    else ReleaseClient(e, client, i + 1)
  }

  /** Every ordinary page of a process in [lo, hi) goes; external pages stay. */
  function ClearTo(e: Eager, pid: Pid, lo: Vpn, hi: Vpn): Eager {
    e.(view := map s | s in e.view && !(s.pid == pid && lo <= s.vpn < hi && e.view[s].Plain?) :: e.view[s])
  }

  function MovePage(e: Eager, dst: Slot, src: Slot): Eager {
    if Blocked(e, src) || Blocked(e, dst) || dst == src then e
    else if src in e.view then e.(view := (e.view - {src})[dst := e.view[src]])
    else e.(view := e.view - {dst})
  }

  /** The byte a read observes. */
  function Observed(e: Eager, op: Op): seq<bv8> {
    if op.Read? && op.off < PAGE_SIZE then [Data(Touch(e, op.s), op.s)[op.off]] else []
  }

  // ---------------------------------------------------------------- faults delivered

  /** Bytes stored in a process's memory on the way: the frame of a fault, or what its handler leaves
      on the stack it runs on. */
  datatype Mark = Mark(pid: Pid, addr: nat, bytes: seq<bv8>)

  function PutByte(e: Eager, pid: Pid, a: nat, b: bv8): Eager {
    var s := Slot(pid, a / PAGE_SIZE);
    if s in e.view then SetData(e, s, SetByte(Data(e, s), a % PAGE_SIZE, b)) else e
  }

  function Stored(e: Eager, pid: Pid, addr: nat, bytes: seq<bv8>): Eager {
    if bytes == [] then e
    else
      var n := |bytes| - 1;
      PutByte(Stored(e, pid, addr, bytes[..n]), pid, addr + n, bytes[n])
  }

  function Marked(e: Eager, marks: seq<Mark>): Eager {
    if marks == [] then e
    else
      var n := |marks| - 1;
      Stored(Marked(e, marks[..n]), marks[n].pid, marks[n].addr, marks[n].bytes)
  }

  lemma NoMarks(e: Eager)
    ensures Marked(e, []) == e
  {
  }

  // ---------------------------------------------------------------- runs

  /** How an operation ends for the process that asked: granted, killed, or faulting for ever. */
  datatype Fate = Granted | Killed | Looping

  /** How an operation ends, and what its faults stored before that. */
  datatype Note = Note(fate: Fate, marks: seq<Mark>)

  function Effect(e: Eager, op: Op, note: Note): Eager {
    var m := Marked(e, note.marks);
    if note.fate.Granted? then Step(m, op) else m
  }

  /** The byte an operation reads, if it does and gets that far. */
  function Shown(e: Eager, op: Op, note: Note): seq<bv8> {
    if note.fate.Granted? then Observed(Marked(e, note.marks), op) else []
  }

  function Run(e: Eager, ops: seq<Op>, notes: seq<Note>): Eager
    requires |notes| == |ops|
  {
    if ops == [] then e
    else
      var n := |ops| - 1;
      Effect(Run(e, ops[..n], notes[..n]), ops[n], notes[n])
  }

  function Trace(e: Eager, ops: seq<Op>, notes: seq<Note>): seq<bv8>
    requires |notes| == |ops|
  {
    if ops == [] then []
    else
      var n := |ops| - 1;
      Trace(e, ops[..n], notes[..n]) + Shown(Run(e, ops[..n], notes[..n]), ops[n], notes[n])
  }

  // ---------------------------------------------------------------- isolation

  /** The operation acts on process p's own pages. */
  predicate ActsOn(op: Op, p: Pid) {
    match op
    case Fork(_, child) => child == p
    case Map(s, _) => s.pid == p
    case Unmap(s) => s.pid == p
    case Move(pid, _, _) => pid == p
    case Protect(s, _) => s.pid == p
    case Read(s, _, _) => s.pid == p
    case Write(s, _, _, _) => s.pid == p
    case IoMap(s, _, _) => s.pid == p
    case IoUnmap(s) => s.pid == p
    case Export(_, s, _, _) => s.pid == p
    case Unexport(_, _, _) => false
    case Close(_) => false
    case Clear(pid, _, _) => pid == p
    case Handler(pid, _, _) => pid == p
  }

  /** Every memory page p has in e it still has in e', with the same contents. */
  ghost predicate Undisturbed(e: Eager, e': Eager, p: Pid) {
    forall s :: s in e.view && s.pid == p && !e.view[s].Device? ==>
      s in e'.view && !e'.view[s].Device? && e'.view[s].data == e.view[s].data
  }

  lemma {:induction false} ReleaseUndisturbed(e: Eager, client: nat, i: nat, p: Pid)
    ensures Undisturbed(e, ReleaseClient(e, client, i), p)
    decreases |e.dmas| - i
  {
    if i < |e.dmas| {
      if e.dmas[i].client == client {
        ReleaseUndisturbed(Release(e, i), client, i, p);
      } else {
        ReleaseUndisturbed(e, client, i + 1, p);
      }
    }
  }

  lemma StepUndisturbed(e: Eager, op: Op, p: Pid)
    requires !ActsOn(op, p)
    ensures Undisturbed(e, Step(e, op), p)
  {
    if op.Close? {
      ReleaseUndisturbed(e, op.client, 0, p);
    }
  }

  lemma {:induction false} StoredUndisturbed(e: Eager, pid: Pid, addr: nat, bytes: seq<bv8>, p: Pid)
    requires pid != p
    ensures Undisturbed(e, Stored(e, pid, addr, bytes), p)
  {
    if bytes != [] { StoredUndisturbed(e, pid, addr, bytes[..|bytes| - 1], p); }
  }

  lemma {:induction false} MarkedUndisturbed(e: Eager, marks: seq<Mark>, p: Pid)
    requires forall m :: m in marks ==> m.pid != p
    ensures Undisturbed(e, Marked(e, marks), p)
  {
    if marks != [] {
      var n := |marks| - 1;
      MarkedUndisturbed(e, marks[..n], p);
      StoredUndisturbed(Marked(e, marks[..n]), marks[n].pid, marks[n].addr, marks[n].bytes, p);
    }
  }

  /** Only an access stores marks, and in the memory of the process that makes it. */
  predicate OwnMarks(op: Op, note: Note) {
    forall m :: m in note.marks ==> (op.Read? || op.Write?) && m.pid == op.s.pid
  }

  /** Isolation: whatever the other processes do, forks of p and writes by its children included,
      p's memory keeps its contents. */
  lemma {:induction false} RunUndisturbed(e: Eager, ops: seq<Op>, notes: seq<Note>, p: Pid)
    requires |notes| == |ops| && forall i :: 0 <= i < |ops| ==> !ActsOn(ops[i], p) && OwnMarks(ops[i], notes[i])
    ensures Undisturbed(e, Run(e, ops, notes), p)
  {
    if ops != [] {
      var n := |ops| - 1;
      var e1 := Run(e, ops[..n], notes[..n]);
      RunUndisturbed(e, ops[..n], notes[..n], p);
      MarkedUndisturbed(e1, notes[n].marks, p);
      StepUndisturbed(Marked(e1, notes[n].marks), ops[n], p);
    }
  }

  /** At the moment of the fork the child has what its parent has, in every ordinary page of the
      copy-on-write range and in the page below it. */
  lemma ForkChildHas(e: Eager, p: Pid, c: Pid, v: Vpn)
    requires p != c && Slot(p, v) in e.view
    requires v == USERBASE || (COWBASE <= v < USEREND && e.view[Slot(p, v)].Plain?)
    ensures var e' := Step(e, Fork(p, c));
            Slot(c, v) in e'.view && e'.view[Slot(c, v)] == Plain(Data(e, Slot(p, v)))
  {
  }

  // ---------------------------------------------------------------- abstraction

  function PageOf(e: L1e, mem: Memory): VPage
    requires e.pfn in mem
  {
    match e.kind
    case Iomap => Device(e.pfn)
    case Wired => Pinned(mem[e.pfn])
    case _ => Plain(mem[e.pfn])
  }

  ghost function Seen(pt: PageTables, mem: Memory): View {
    map s | s in pt && pt[s].present && pt[s].pfn in mem :: PageOf(pt[s], mem)
  }

  ghost function Devices(frames: Frames, mem: Memory): DevMem {
    map f | f in frames && f in mem && frames[f].typ == Mmio :: mem[f]
  }

  ghost function Abs(pt: PageTables, frames: Frames, mem: Memory, dmas: seq<Dma>): Eager {
    Eager(Seen(pt, mem), Devices(frames, mem), dmas)
  }

  /** Changing one entry changes one page of the view. */
  lemma SeenSet(pt: PageTables, mem: Memory, s: Slot, e: L1e)
    ensures e.present && e.pfn in mem ==> Seen(pt[s := e], mem) == Seen(pt, mem)[s := PageOf(e, mem)]
    ensures !e.present ==> Seen(pt[s := e], mem) == Seen(pt, mem) - {s}
  {
  }

  /** Turning an entry copy-on-write, or back to normal, is invisible. */
  lemma SeenSame(pt: PageTables, mem: Memory, s: Slot, e: L1e)
    requires s in pt && pt[s].present == e.present && pt[s].pfn == e.pfn
    requires pt[s].kind == e.kind || {pt[s].kind, e.kind} <= {Normal, Cow, Mixed}
    ensures Seen(pt[s := e], mem) == Seen(pt, mem)
  {
  }

  /** Writing a frame that no present entry maps is invisible. */
  lemma SeenUnmapped(pt: PageTables, mem: Memory, f: Pfn, d: Page)
    requires f in mem
    requires forall s :: s in pt && pt[s].present && pt[s].pfn == f ==> pt[s].kind == Iomap
    ensures Seen(pt, mem[f := d]) == Seen(pt, mem)
  {
  }

  /** The heart of the refinement: a store through a writable entry is seen by that page alone,
      because a writable frame is mapped nowhere else. */
  lemma SeenStore(pt: PageTables, frames: Frames, mem: Memory, dmas: seq<Dma>, s: Slot, d: Page)
    requires Inv(pt, frames) && s in pt && pt[s].present && pt[s].writable && pt[s].pfn in mem
    requires frames.Keys == mem.Keys
    ensures Abs(pt, frames, mem[pt[s].pfn := d], dmas) == SetData(Abs(pt, frames, mem, dmas), s, d)
  {
    var f := pt[s].pfn;
    var mem' := mem[f := d];
    assert EntryOk(pt[s], frames);
    if pt[s].kind == Iomap {
      forall t | t in pt && pt[t].present && pt[t].pfn == f ensures pt[t].kind == Iomap {
        assert EntryOk(pt[t], frames);
      }
      SeenUnmapped(pt, mem, f, d);
      assert Devices(frames, mem') == Devices(frames, mem)[f := d];
    } else {
      SoleMapping(pt, s);
      forall t | t in pt && pt[t].present && pt[t].pfn == f ensures t == s {
        assert EntryOk(pt[t], frames);
        assert t in Mappings(pt, f);
      }
      assert Seen(pt, mem') == Seen(pt, mem)[s := PageOf(pt[s], mem')];
      assert Devices(frames, mem') == Devices(frames, mem);
    }
  }

  /** On the reference machine, copying a page through a spare one and moving the copy over the
      original changes nothing but the spare page. */
  lemma CopyThroughSpare(e: Eager, s: Slot, spare: Slot)
    requires s != spare && s in e.view && e.view[s].Plain? && !Blocked(e, spare)
    ensures var e1 := Step(e, Map(spare, Prot(true, true, true)));
            MovePage(SetData(e1, spare, Data(e1, s)), s, spare) == e.(view := e.view - {spare})
  {
  }

  ghost predicate SameDevices(a: Frames, b: Frames) {
    a.Keys == b.Keys && forall f :: f in a ==> (a[f].typ == Mmio <==> b[f].typ == Mmio)
  }

  /** Counts and the types of ordinary frames are invisible. */
  lemma AbsCounts(pt: PageTables, frames: Frames, frames': Frames, mem: Memory, dmas: seq<Dma>)
    requires SameDevices(frames, frames')
    ensures Abs(pt, frames', mem, dmas) == Abs(pt, frames, mem, dmas)
  {
  }

  /** What the view says about a page, in terms of its entry. */
  lemma SeenAt(pt: PageTables, frames: Frames, mem: Memory, dmas: seq<Dma>, s: Slot)
    requires Inv(pt, frames) && frames.Keys == mem.Keys
    ensures s in Abs(pt, frames, mem, dmas).view <==> Entry(pt, s).present
    ensures Blocked(Abs(pt, frames, mem, dmas), s) <==> Entry(pt, s).IsExternal()
    ensures Entry(pt, s).present ==> Entry(pt, s).pfn in mem
    ensures Entry(pt, s).present ==> Abs(pt, frames, mem, dmas).view[s] == PageOf(Entry(pt, s), mem)
    ensures Entry(pt, s).present ==> Data(Abs(pt, frames, mem, dmas), s) == mem[Entry(pt, s).pfn]
  {
  }

  /** Mapping a fresh frame with contents d. */
  lemma AbsMap(pt: PageTables, frames: Frames, frames': Frames, mem: Memory, dmas: seq<Dma>, s: Slot, e: L1e, d: Page)
    requires Inv(pt, frames) && frames.Keys == mem.Keys && SameDevices(frames, frames')
    requires e.IsNormal() && e.pfn in frames && frames[e.pfn].typ != Mmio
    requires forall t :: t in pt && pt[t].present ==> pt[t].pfn != e.pfn
    ensures var st := Abs(pt, frames, mem, dmas);
            Abs(pt[s := e], frames', mem[e.pfn := d], dmas) == st.(view := st.view[s := Plain(d)])
  {
    var mem' := mem[e.pfn := d];
    SeenUnmapped(pt, mem, e.pfn, d);
    SeenSet(pt, mem', s, e);
    assert Devices(frames', mem') == Devices(frames, mem);
  }

  /** Taking an ordinary page away. */
  lemma AbsUnmap(pt: PageTables, frames: Frames, frames': Frames, mem: Memory, dmas: seq<Dma>, s: Slot, e: L1e)
    requires Inv(pt, frames) && frames.Keys == mem.Keys && SameDevices(frames, frames')
    requires !e.present
    ensures Abs(pt[s := e], frames', mem, dmas)
            == Abs(pt, frames, mem, dmas).(view := Abs(pt, frames, mem, dmas).view - {s})
    ensures !Entry(pt, s).IsExternal() ==>
              Abs(pt[s := e], frames', mem, dmas) == Step(Abs(pt, frames, mem, dmas), Unmap(s))
  {
    SeenAt(pt, frames, mem, dmas, s);
    SeenSet(pt, mem, s, e);
    assert Devices(frames', mem) == Devices(frames, mem);
  }

  lemma AbsMove(pt: PageTables, frames: Frames, frames': Frames, mem: Memory, dmas: seq<Dma>, src: Slot, dst: Slot)
    requires Inv(pt, frames) && frames.Keys == mem.Keys && SameDevices(frames, frames') && src != dst
    requires !Entry(pt, src).IsExternal() && !Entry(pt, dst).IsExternal()
    ensures Abs(Moved(pt, src, dst), frames', mem, dmas) == MovePage(Abs(pt, frames, mem, dmas), dst, src)
  {
    SeenAt(pt, frames, mem, dmas, src);
    SeenAt(pt, frames, mem, dmas, dst);
    SeenSet(pt, mem, src, GONE);
    SeenSet(pt[src := GONE], mem, dst, Entry(pt, src));
    assert Devices(frames', mem) == Devices(frames, mem);
  }

  lemma AbsIoMap(pt: PageTables, frames: Frames, frames': Frames, mem: Memory, dmas: seq<Dma>, s: Slot, pfn: Pfn, prot: Prot)
    requires Inv(pt, frames) && frames.Keys == mem.Keys && SameDevices(frames, frames')
    requires !Entry(pt, s).IsExternal() && pfn in frames && frames[pfn].typ == Mmio
    ensures Abs(pt[s := MkEntry(pfn, prot).MkIomap()], frames', mem, dmas)
            == Step(Abs(pt, frames, mem, dmas), IoMap(s, pfn, prot))
  {
    SeenAt(pt, frames, mem, dmas, s);
    SeenSet(pt, mem, s, MkEntry(pfn, prot).MkIomap());
    assert Devices(frames', mem) == Devices(frames, mem);
  }

  /** Clearing one page more. */
  lemma ClearNext(e: Eager, pid: Pid, lo: Vpn, hi: Vpn)
    requires lo <= hi
    ensures ClearTo(e, pid, lo, hi + 1) == Step(ClearTo(e, pid, lo, hi), Unmap(Slot(pid, hi)))
    ensures ClearTo(e, pid, lo, lo) == e
  {
  }

  /** One more page of a fork: the child's inheritance grows by that page. */
  lemma InheritedNext(v: View, p: Pid, c: Pid, lo: Vpn, hi: Vpn)
    requires lo <= hi
    ensures Slot(p, hi) in v && v[Slot(p, hi)].Plain? ==>
              Inherited(v, p, c, lo, hi + 1) == Inherited(v, p, c, lo, hi)[Slot(c, hi) := v[Slot(p, hi)]]
    ensures !(Slot(p, hi) in v && v[Slot(p, hi)].Plain?) ==>
              Inherited(v, p, c, lo, hi + 1) == Inherited(v, p, c, lo, hi)
  {
  }
}
