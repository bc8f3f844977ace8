/** The user half of virtual memory: the page-fault handler of the runtime library, and reads and
    writes by a process, retried through the kernel's fault path until they go through. */
module UserSpace {
  import opened Pae
  import opened FrameSharing
  import opened EagerFork
  import opened PageMap
  import opened Signals

  datatype Handled = Retry | Dead | Halted

  /** Copy a page's contents into another page that is writable. */
  method CopyPage(k: Kernel, dst: Slot, src: Slot)
    requires k.Valid() && Entry(k.pt, src).present && Entry(k.pt, dst).present && Entry(k.pt, dst).writable
    modifies k`mem
    ensures k.Valid()
    ensures src in old(k.State()).view && dst in old(k.State()).view
    ensures k.State() == SetData(old(k.State()), dst, Data(old(k.State()), src))
  {
    hide Typed, Counted, Exclusive, WireCounted, CowShared, Seen, Devices;
    SeenAt(k.pt, k.frames, k.mem, k.dmas, src);
    SeenAt(k.pt, k.frames, k.mem, k.dmas, dst);
    SeenStore(k.pt, k.frames, k.mem, k.dmas, dst, k.mem[Entry(k.pt, src).pfn]);
    k.mem := k.mem[Entry(k.pt, dst).pfn := k.mem[Entry(k.pt, src).pfn]];
  }

  /** Copy a shared page into a fresh frame through the reserved page, and put it in place. */
  method CopyOnWrite(k: Kernel, s: Slot) returns (r: Result)
    requires k.Valid() && UserVpn(s.vpn) && s.vpn != VACOW
    requires Entry(k.pt, s).IsCow() && !Entry(k.pt, Slot(s.pid, VACOW)).IsExternal()
    modifies k`pt, k`frames, k`mem
    ensures k.Valid() && k.CowKept(old(k.pt), old(k.frames))
    ensures r == if NoRoom(old(k.frames)) then Panic else Ok
    ensures r.Panic? ==> k.pt == old(k.pt) && k.State() == old(k.State())
    ensures old(k.Reserved()) ==> AccessKeeps(old(k.pt), k.pt)
    ensures r.Ok? ==> k.State() == old(k.State()).(view := old(k.State()).view - {Slot(s.pid, VACOW)})
    ensures r.Ok? ==> Entry(k.pt, s).IsNormal() && Entry(k.pt, s).writable && Entry(k.pt, s).user
    ensures r.Ok? && old(k.Reserved()) ==> k.Reserved()
    ensures TookOne(old(k.frames), k.frames)
  {
    hide Typed, Counted, Exclusive, WireCounted, CowShared, Seen, Devices, TookOne, NoneTaken;
    var vacow := Slot(s.pid, VACOW);
    SeenAt(k.pt, k.frames, k.mem, k.dmas, s);
    SeenAt(k.pt, k.frames, k.mem, k.dmas, vacow);
    ghost var e0 := k.State();
    CopyThroughSpare(e0, s, vacow);
    r := k.VmMap(vacow, Prot(true, true, true));
    if r.Panic? {
      return;
    }
    ghost var e1 := k.State();
    assert e1 == Step(e0, Map(vacow, Prot(true, true, true)));
    CopyPage(k, vacow, s);
    ghost var e2, frames2 := k.State(), k.frames;
    assert e2 == SetData(e1, vacow, Data(e1, s));
    r := k.VmMove(s, vacow);
    TookThen(old(k.frames), frames2, k.frames);
    assert k.State() == MovePage(e2, s, vacow);
  }

  /** The end of a process: without a parent to take note of it, that of the kernel. */
  function Exit(roots: set<Pid>, pid: Pid): Handled { if pid in roots then Halted else Dead }

  /** The user half of a page fault.  Populating a page of a region without write permission stops the
      kernel, as running out of memory does. */
  method FaultHandler(k: Kernel, s: Slot, f: Fault, region: Region) returns (h: Handled)
    requires k.Valid() && UserVpn(s.vpn) && s.vpn != VACOW && k.Reserved()
    requires f.Signal? && f.notp == !Entry(k.pt, s).present && f.cow == Entry(k.pt, s).IsCow()
    modifies k`pt, k`frames, k`mem
    ensures k.Valid() && k.CowKept(old(k.pt), old(k.frames)) && (!h.Halted? ==> k.Reserved())
    ensures var dead := region.Nil? || (!f.notp && !(f.cow && f.write) && !(f.write && region.Writable()));
            && (h.Dead? <==> dead && s.pid !in k.roots)
            && (h.Halted? <==> if dead then s.pid in k.roots
                               else if f.notp then NoRoom(old(k.frames)) || !region.Writable()
                               else f.cow && f.write && NoRoom(old(k.frames)))
    ensures h.Dead? ==> k.pt == old(k.pt) && k.State() == old(k.State())
    ensures h.Retry? ==> k.State() == Touch(old(k.State()), s) && Entry(k.pt, s).present && AccessKeeps(old(k.pt), k.pt)
    ensures h.Retry? && Entry(old(k.pt), s).IsExternal() ==> k.pt == old(k.pt)
    ensures h.Retry? && !Entry(old(k.pt), s).IsExternal() ==> Entry(k.pt, s).IsNormal() && Entry(k.pt, s).writable
    ensures TookOne(old(k.frames), k.frames)
    ensures f.notp && !NoRoom(old(k.frames)) ==>
              && (h.Retry? <==> region.Rw? || region.Wx?)
              && (h.Halted? <==> region.Ro? || region.Rx? || (region.Nil? && s.pid in k.roots))
    ensures f.write && Entry(old(k.pt), s).IsNormal() ==> (h.Retry? <==> region.Rw? || region.Wx?)
  {
    hide Typed, Counted, Exclusive, WireCounted, CowShared, Seen, Devices, TookOne;
    NoneYet(k.frames);
    if region.Nil? {
      return Exit(k.roots, s.pid);
    }
    SeenAt(k.pt, k.frames, k.mem, k.dmas, s);
    EntryIsOk(k.pt, k.frames, s);
    TouchPresent(k.pt, k.frames, k.mem, k.dmas, s);
    var prot := Prot(true, region.Writable(), true);
    if f.notp {
      var r := k.VmMap(s, prot);
      return if r.Panic? then Halted else Retry;
    }
    if f.cow && f.write {
      SeenAt(k.pt, k.frames, k.mem, k.dmas, Slot(s.pid, VACOW));
      var r := CopyOnWrite(k, s);
      return if r.Panic? then Halted else Retry;
    } else if f.write && region.Writable() {
      var r := k.VmChProt(s, prot);
      return Retry;
    }
    h := Exit(k.roots, s.pid);
  }

  /** A fault that goes to the process: delivered if it can be, and then handled; otherwise the kernel
      kills the process. */
  method TakeFault(k: Kernel, s: Slot, f: Fault, region: Region) returns (h: Handled, marks: seq<Mark>)
    requires k.Valid() && UserVpn(s.vpn) && s.vpn != VACOW && k.Reserved() && StacksOk(k.sig)
    requires f.Signal? && f.notp == !Entry(k.pt, s).present && f.cow == Entry(k.pt, s).IsCow()
    modifies k`pt, k`frames, k`mem
    ensures k.Valid() && k.CowKept(old(k.pt), old(k.frames)) && (!h.Halted? ==> k.Reserved())
    ensures LeftBy(old(k.pt), k.sig, s.pid, marks)
    ensures var dead := !CanDeliver(old(k.pt), k.sig, s.pid) || region.Nil?
                        || (!f.notp && !(f.cow && f.write) && !(f.write && region.Writable()));
            && (h.Dead? <==> dead && s.pid !in k.roots)
            && (h.Halted? <==> if dead then s.pid in k.roots
                               else if f.notp then NoRoom(old(k.frames)) || !region.Writable()
                               else f.cow && f.write && NoRoom(old(k.frames)))
    ensures h.Dead? ==> k.pt == old(k.pt) && k.State() == Marked(old(k.State()), marks)
    ensures h.Retry? ==> k.State() == Touch(Marked(old(k.State()), marks), s)
    ensures h.Retry? ==> Entry(k.pt, s).present && AccessKeeps(old(k.pt), k.pt)
    ensures h.Retry? && Entry(old(k.pt), s).IsExternal() ==> k.pt == old(k.pt)
    ensures h.Retry? && !Entry(old(k.pt), s).IsExternal() ==> Entry(k.pt, s).IsNormal() && Entry(k.pt, s).writable
    ensures TookOne(old(k.frames), k.frames)
    ensures !Entry(old(k.pt), s).present && old(CanDeliver(k.pt, k.sig, s.pid)) && !NoRoom(old(k.frames)) ==>
              && (h.Retry? <==> region.Rw? || region.Wx?)
              && (h.Halted? <==> region.Ro? || region.Rx? || (region.Nil? && s.pid in k.roots))
    ensures f.write && Entry(old(k.pt), s).IsNormal() && old(CanDeliver(k.pt, k.sig, s.pid)) ==> (h.Retry? <==> region.Rw? || region.Wx?)
  {
    hide Kernel.Valid, Seen, Devices, Touch, CanDeliver, CowShared, Marked, TookOne;
    NoneYet(k.frames);
    var ok;
    ok, marks := SignalFault(k, s.pid);
    if !ok {
      return Exit(k.roots, s.pid), marks;
    }
    h := FaultHandler(k, s, f, region);
  }

  /** How an access ends: with the byte, with the process killed, faulting for ever, or with the kernel
      stopped. */
  datatype Outcome = Done(val: bv8) | Died | Stuck | Crashed

  datatype Verdict = Goes | Dies | Loops | Halts

  /** What becomes of a write to a page with entry e over a frame with count ref, at an address
      the runtime resolves to the given region; del says that a fault can be delivered and room that
      there is a free frame. */
  function WriteVerdict(e: L1e, ref: nat, region: Region, del: bool, room: bool): Verdict {
    if e.present && e.writable then Goes
    else if !del || region.Nil? then Dies
    else if !e.present then (if room && region.Writable() then Goes else Halts)
    else if e.IsCow() && ref != 1 then (if room then Goes else Halts)
    else if !region.Writable() then Dies
    else if e.IsExternal() then Loops
    else Goes
  }

  function ReadVerdict(e: L1e, region: Region, del: bool, room: bool): Verdict {
    if e.present then Goes
    else if !del || region.Nil? then Dies
    else if room && region.Writable() then Goes
    else Halts
  }

  /** A process without a parent does not die alone. */
  function AsRoot(v: Verdict, root: bool): Verdict { if v.Dies? && root then Halts else v }

  function VerdictOfWrite(w: World, s: Slot, region: Region): Verdict {
    AsRoot(WriteVerdict(Entry(w.pt, s), RefOf(w.frames, Entry(w.pt, s)), region, CanDeliver(w.pt, w.sig, s.pid), !NoRoom(w.frames)),
           s.pid in w.roots)
  }

  function VerdictOfRead(w: World, s: Slot, region: Region): Verdict {
    AsRoot(ReadVerdict(Entry(w.pt, s), region, CanDeliver(w.pt, w.sig, s.pid), !NoRoom(w.frames)), s.pid in w.roots)
  }

  /** The first touch of a page stops the kernel exactly in a read-only or executable region, however much
      memory there is, and goes through exactly in a writable one; and mapping a page read-only stops it. */
  lemma FirstTouchStops(frames: Frames, region: Region, ref: nat)
    ensures ReadVerdict(BLANK, region, true, true).Halts? <==> region.Ro? || region.Rx?
    ensures WriteVerdict(BLANK, ref, region, true, true).Halts? <==> region.Ro? || region.Rx?
    ensures ReadVerdict(BLANK, region, true, true).Goes? <==> region.Rw? || region.Wx?
    ensures WriteVerdict(BLANK, ref, region, true, true).Goes? <==> region.Rw? || region.Wx?
    ensures region.Ro? || region.Rx? ==> ReadVerdict(BLANK, region, true, false).Halts? && WriteVerdict(BLANK, ref, region, true, false).Halts?
    ensures MapStops(frames, false, Prot(true, false, true))
  {
  }

  /** The most faults a write can take before it goes through or its process dies. */
  function Rank(e: L1e): nat {
    if !e.present || e.IsCow() then 2 else if !e.writable then 1 else 0
  }

  /** What comes of one fault: another try, the end of the process, the end of the kernel, or nothing at
      all. */
  datatype Turn = Again | Deadly | Fatal | Vain

  /** A write faults.  If it is to be tried again, the kernel has only repaired the entry, or the fault
      was delivered and the page is there to be written. */
  method WriteFault(k: Kernel, s: Slot, region: Region) returns (t: Turn, marks: seq<Mark>)
    requires k.Valid() && k.Reserved() && UserVpn(s.vpn) && s.vpn != VACOW && StacksOk(k.sig)
    requires !WritableAt(k.pt, s)
    modifies k`pt, k`frames, k`mem
    ensures k.Valid() && k.CowKept(old(k.pt), old(k.frames)) && (!t.Fatal? ==> k.Reserved())
    ensures if t.Again? && !WritableAt(k.pt, s) then marks == [] && CanDeliver(k.pt, k.sig, s.pid) == old(CanDeliver(k.pt, k.sig, s.pid))
            else LeftBy(old(k.pt), k.sig, s.pid, marks)
    ensures AfterFault(t, Entry(old(k.pt), s), Entry(k.pt, s), VerdictOfWrite(old(k.Now()), s, region), VerdictOfWrite(k.Now(), s, region))
    ensures t.Again? ==> AccessKeeps(old(k.pt), k.pt)
    ensures t.Deadly? || t.Vain? ==> k.pt == old(k.pt)
    ensures t.Again? && !WritableAt(k.pt, s) ==> k.frames == old(k.frames)
    ensures !t.Fatal? ==> var m := Marked(old(k.State()), marks); k.State() == if WritableAt(k.pt, s) then Touch(m, s) else m
    ensures TookOne(old(k.frames), k.frames)
    ensures !Entry(old(k.pt), s).present && old(CanDeliver(k.pt, k.sig, s.pid)) && !NoRoom(old(k.frames)) ==>
              && (t.Again? <==> region.Rw? || region.Wx?)
              && (t.Fatal? <==> region.Ro? || region.Rx? || (region.Nil? && s.pid in k.roots))
    ensures t.Again? && !WritableAt(k.pt, s) <==> old(Entry(k.pt, s).IsCow() && RefOf(k.frames, Entry(k.pt, s)) == 1)
    ensures t.Again? && !WritableAt(k.pt, s) ==> !Entry(k.pt, s).IsCow()
  {
    hide Kernel.Valid, CowShared, Seen, Devices, Touch, CanDeliver, Marked, WriteVerdict, AccessKeeps, TookOne;
    PresentSeen(k, s);
    NoneYet(k.frames);
    ghost var pt0, e := k.pt, Entry(k.pt, s);
    ghost var del, room := CanDeliver(k.pt, k.sig, s.pid), !NoRoom(k.frames);
    var f := k.PageFault(s, true);
    if f.Spurious? {
      RepairKeeps(pt0, s);
      RepairVerdict(e, region, del, room);
      SameDelivery(pt0, k.pt, k.sig, s.pid);
      NoMarks(k.State());
      return Again, [];
    }
    t, marks := WriteSignal(k, s, f, region);
  }

  /** How an entry and a verdict change with a fault. */
  predicate AfterFault(t: Turn, e: L1e, e': L1e, v: Verdict, v': Verdict) {
    match t
    case Again => Rank(e') < Rank(e) && if e'.present && e'.writable then v.Goes? else v' == v
    case Deadly => v.Dies?
    case Fatal => v.Halts?
    case Vain => v.Loops?
  }

  /** The fault goes to the process. */
  method WriteSignal(k: Kernel, s: Slot, f: Fault, region: Region) returns (t: Turn, marks: seq<Mark>)
    requires k.Valid() && k.Reserved() && UserVpn(s.vpn) && s.vpn != VACOW && StacksOk(k.sig)
    requires !WritableAt(k.pt, s) && !(Entry(k.pt, s).IsCow() && RefOf(k.frames, Entry(k.pt, s)) == 1)
    requires f == Fault.Signal(!Entry(k.pt, s).present, Entry(k.pt, s).IsCow(), true)
    modifies k`pt, k`frames, k`mem
    ensures k.Valid() && k.CowKept(old(k.pt), old(k.frames)) && (!t.Fatal? ==> k.Reserved())
    ensures LeftBy(old(k.pt), k.sig, s.pid, marks)
    ensures AfterFault(t, Entry(old(k.pt), s), Entry(k.pt, s), VerdictOfWrite(old(k.Now()), s, region), VerdictOfWrite(k.Now(), s, region))
    ensures t.Again? ==> AccessKeeps(old(k.pt), k.pt) && WritableAt(k.pt, s)
    ensures t.Deadly? || t.Vain? ==> k.pt == old(k.pt)
    ensures !t.Fatal? ==> var m := Marked(old(k.State()), marks); k.State() == if WritableAt(k.pt, s) then Touch(m, s) else m
    ensures TookOne(old(k.frames), k.frames)
    ensures !Entry(old(k.pt), s).present && old(CanDeliver(k.pt, k.sig, s.pid)) && !NoRoom(old(k.frames)) ==>
              && (t.Again? <==> region.Rw? || region.Wx?)
              && (t.Fatal? <==> region.Ro? || region.Rx? || (region.Nil? && s.pid in k.roots))
  {
    hide Kernel.Valid, CowShared, Seen, Devices, Touch, CanDeliver, Marked, WriteVerdict, AccessKeeps, TookOne;
    PresentSeen(k, s);
    var was := Entry(k.pt, s);
    WriteCases(was, RefOf(k.frames, was), region, CanDeliver(k.pt, k.sig, s.pid), !NoRoom(k.frames));
    ghost var e0 := k.State();
    var h;
    h, marks := TakeFault(k, s, f, region);
    MarkedKeys(e0, marks);
    TouchThere(Marked(e0, marks), s);
    t := if h.Dead? then Deadly else if h.Halted? then Fatal else if was.IsExternal() then Vain else Again;
  }

  lemma PresentSeen(k: Kernel, s: Slot)
    requires k.Valid()
    ensures s in k.State().view <==> Entry(k.pt, s).present
    ensures Entry(k.pt, s).IsCow() ==> s in k.pt && !Entry(k.pt, s).writable
  {
    SeenAt(k.pt, k.frames, k.mem, k.dmas, s);
    EntryIsOk(k.pt, k.frames, s);
  }

  lemma RepairKeeps(pt: PageTables, s: Slot)
    requires s in pt && pt[s].IsCow() && !pt[s].writable
    ensures AccessKeeps(pt, pt[s := pt[s].MkNormal()])
    ensures forall t :: WritableAt(pt[s := pt[s].MkNormal()], t) <==> WritableAt(pt, t)
  {
  }

  /** The verdict on a write that faults, by what the handler does. */
  lemma WriteCases(e: L1e, ref: nat, region: Region, del: bool, room: bool)
    requires !(e.present && e.writable) && !(e.IsCow() && ref == 1)
    ensures var v, dead := WriteVerdict(e, ref, region, del, room), !del || region.Nil? || (e.present && !e.IsCow() && !region.Writable());
            var halted := del && !region.Nil? && if !e.present then !room || !region.Writable() else e.IsCow() && !room;
            && (v.Dies? <==> dead) && (v.Halts? <==> halted)
            && (v.Loops? <==> !dead && !halted && e.IsExternal()) && (v.Goes? <==> !dead && !halted && !e.IsExternal())
  {
  }

  /** The kernel's repair leaves the verdict and brings the write nearer. */
  lemma RepairVerdict(e: L1e, region: Region, del: bool, room: bool)
    requires e.IsCow() && !e.writable
    ensures WriteVerdict(e.MkNormal(), 1, region, del, room) == WriteVerdict(e, 1, region, del, room)
    ensures Rank(e.MkNormal()) < Rank(e)
  {
  }

  /** What may be written decides what can be delivered. */
  lemma SameDelivery(pt: PageTables, pt': PageTables, sig: map<Pid, nat>, pid: Pid)
    requires forall s :: WritableAt(pt', s) <==> WritableAt(pt, s)
    ensures CanDeliver(pt', sig, pid) == CanDeliver(pt, sig, pid)
  {
  }

  /** A write by a process: the store, or a fault, its delivery, the handler and another try.  It ends
      after at most two faults unless the page is external and not writable. */
  method UserWrite(k: Kernel, s: Slot, off: nat, val: bv8, region: Region) returns (o: Outcome, faults: nat, marks: seq<Mark>)
    requires k.Valid() && k.Reserved() && UserVpn(s.vpn) && s.vpn != VACOW && off < PAGE_SIZE && StacksOk(k.sig)
    modifies k`pt, k`frames, k`mem
    ensures k.Valid() && k.CowKept(old(k.pt), old(k.frames)) && (!o.Crashed? ==> k.Reserved())
    ensures if WritableAt(old(k.pt), s) then marks == [] else LeftBy(old(k.pt), k.sig, s.pid, marks)
    ensures var v := VerdictOfWrite(old(k.Now()), s, region);
            (o.Done? <==> v.Goes?) && (o.Died? <==> v.Dies?) && (o.Stuck? <==> v.Loops?) && (o.Crashed? <==> v.Halts?)
    ensures !o.Crashed? ==> AccessKeeps(old(k.pt), k.pt)
    ensures !o.Crashed? ==>
              k.State() == Effect(old(k.State()), Write(s, off, val, region),
                                  Note(if o.Done? then Granted else if o.Died? then Killed else Looping, marks))
    ensures !o.Stuck? ==> faults <= Rank(Entry(old(k.pt), s)) <= 2
    ensures TookOne(old(k.frames), k.frames)
    ensures !Entry(old(k.pt), s).present && old(CanDeliver(k.pt, k.sig, s.pid)) && !NoRoom(old(k.frames)) ==>
              && (o.Done? <==> region.Rw? || region.Wx?)
              && (o.Crashed? <==> region.Ro? || region.Rx? || (region.Nil? && s.pid in k.roots))
    ensures Entry(old(k.pt), s).IsNormal() && !WritableAt(old(k.pt), s) && old(CanDeliver(k.pt, k.sig, s.pid)) ==>
              (o.Done? <==> region.Rw? || region.Wx?)
    ensures faults == old(if WritableAt(k.pt, s) then 0 else if Entry(k.pt, s).IsCow() && RefOf(k.frames, Entry(k.pt, s)) == 1 then 2 else 1)
  {
    hide Typed, Counted, Exclusive, WireCounted, CowShared, Seen, Devices, Step, Touch, CanDeliver, TookOne, LeftBy, NoRoom, VerdictOfWrite, AccessKeeps;
    NoneYet(k.frames);
    StillKept(k.pt);
    WriteTouches(k.Now(), s, region);
    ghost var e0, v0 := k.State(), VerdictOfWrite(k.Now(), s, region);
    faults, marks := 0, [];
    while !WritableAt(k.pt, s)
      invariant k.Valid() && k.Reserved() && k.CowKept(old(k.pt), old(k.frames)) && AccessKeeps(old(k.pt), k.pt)
      invariant if faults == 0 then k.pt == old(k.pt) else !WritableAt(old(k.pt), s)
      invariant if faults > 0 && WritableAt(k.pt, s)
                then v0.Goes? && k.State() == Touch(Marked(e0, marks), s) && LeftBy(old(k.pt), k.sig, s.pid, marks)
                else marks == [] && CanDeliver(k.pt, k.sig, s.pid) == old(CanDeliver(k.pt, k.sig, s.pid)) && k.State() == e0 && VerdictOfWrite(k.Now(), s, region) == v0 && k.frames == old(k.frames)
      invariant TookOne(old(k.frames), k.frames)
      invariant faults > 0 && WritableAt(k.pt, s) ==>
                  faults == if old(Entry(k.pt, s).IsCow() && RefOf(k.frames, Entry(k.pt, s)) == 1) then 2 else 1
      invariant faults > 0 && !WritableAt(k.pt, s) ==>
                  faults == 1 && !Entry(k.pt, s).IsCow() && old(Entry(k.pt, s).IsCow() && RefOf(k.frames, Entry(k.pt, s)) == 1)
      invariant faults + Rank(Entry(k.pt, s)) <= Rank(Entry(old(k.pt), s))
      decreases Rank(Entry(k.pt, s))
    {
      faults := faults + 1;
      ghost var pt1 := k.pt;
      SameLeft(old(k.pt), k.pt, k.sig, s.pid);
      var t;
      t, marks := WriteFault(k, s, region);
      if t.Again? { KeptThen(old(k.pt), pt1, k.pt); }
      match t {
        case Again =>
        case Deadly => return Died, faults, marks;
        case Fatal => return Crashed, faults, marks;
        case Vain => return Stuck, faults, marks;
      }
    }
    SeenAt(k.pt, k.frames, k.mem, k.dmas, s);
    TouchThere(k.State(), s);
    Store(k, s, off, val);
    WriteIsStore(Marked(e0, marks), s, off, val, region);
    o := Done(val);
  }

  lemma SameLeft(pt: PageTables, pt': PageTables, sig: map<Pid, nat>, pid: Pid)
    requires CanDeliver(pt', sig, pid) == CanDeliver(pt, sig, pid)
    ensures forall marks :: LeftBy(pt', sig, pid, marks) <==> LeftBy(pt, sig, pid, marks)
  {
  }

  /** A page already there need not be touched. */
  lemma TouchThere(e: Eager, s: Slot)
    ensures s in e.view ==> Touch(e, s) == e
  {
  }

  lemma TouchPresent(pt: PageTables, frames: Frames, mem: Memory, dmas: seq<Dma>, s: Slot)
    requires Inv(pt, frames) && frames.Keys == mem.Keys
    ensures Entry(pt, s).present ==> Touch(Abs(pt, frames, mem, dmas), s) == Abs(pt, frames, mem, dmas)
    ensures Touch(Touch(Abs(pt, frames, mem, dmas), s), s) == Touch(Abs(pt, frames, mem, dmas), s)
  {
  }

  lemma WriteIsStore(e: Eager, s: Slot, off: nat, val: bv8, region: Region)
    requires off < PAGE_SIZE
    ensures s in Touch(e, s).view
    ensures Step(e, Write(s, off, val, region))
            == SetData(Touch(e, s), s, SetByte(Data(Touch(e, s), s), off, val))
  {
  }

  /** A read of an absent page faults. */
  method ReadFault(k: Kernel, s: Slot, region: Region) returns (h: Handled, marks: seq<Mark>)
    requires k.Valid() && k.Reserved() && UserVpn(s.vpn) && s.vpn != VACOW && StacksOk(k.sig) && !Entry(k.pt, s).present
    modifies k`pt, k`frames, k`mem
    ensures k.Valid() && k.CowKept(old(k.pt), old(k.frames)) && (!h.Halted? ==> k.Reserved())
    ensures LeftBy(old(k.pt), k.sig, s.pid, marks)
    ensures var v := VerdictOfRead(old(k.Now()), s, region);
            (h.Retry? <==> v.Goes?) && (h.Dead? <==> v.Dies?) && (h.Halted? <==> v.Halts?)
    ensures h.Dead? ==> k.pt == old(k.pt) && k.State() == Marked(old(k.State()), marks)
    ensures h.Retry? ==> k.State() == Touch(Marked(old(k.State()), marks), s)
    ensures h.Retry? ==> Entry(k.pt, s).present && AccessKeeps(old(k.pt), k.pt)
    ensures TookOne(old(k.frames), k.frames)
  {
    hide Kernel.Valid, Seen, Devices, Touch, CanDeliver, CowShared, Marked, TookOne;
    var f := k.PageFault(s, false);
    h, marks := TakeFault(k, s, f, region);
  }

  lemma ReadsZero(e: Eager, s: Slot, off: nat)
    requires s !in e.view && off < PAGE_SIZE
    ensures s in Touch(e, s).view && Data(Touch(e, s), s)[off] == 0
  {
    assert ZeroPage()[off] == 0;
  }

  lemma KeptThen(pt0: PageTables, pt1: PageTables, pt: PageTables)
    requires AccessKeeps(pt0, pt1) && AccessKeeps(pt1, pt)
    ensures AccessKeeps(pt0, pt)
  {
  }

  /** What a write meets at a page that can be written, at one that is not there, and at a normal one that is
      read-only. */
  lemma WriteTouches(w: World, s: Slot, region: Region)
    ensures WritableAt(w.pt, s) ==> VerdictOfWrite(w, s, region).Goes?
    ensures !Entry(w.pt, s).present && CanDeliver(w.pt, w.sig, s.pid) && !NoRoom(w.frames) ==>
              && (VerdictOfWrite(w, s, region).Goes? <==> region.Rw? || region.Wx?)
              && (VerdictOfWrite(w, s, region).Halts? <==> region.Ro? || region.Rx? || (region.Nil? && s.pid in w.roots))
    ensures Entry(w.pt, s).IsNormal() && !WritableAt(w.pt, s) && CanDeliver(w.pt, w.sig, s.pid) ==>
              (VerdictOfWrite(w, s, region).Goes? <==> region.Rw? || region.Wx?)
  {
    hide CanDeliver;
  }

  lemma StillKept(pt: PageTables)
    ensures AccessKeeps(pt, pt)
  {
  }

  /** A read by a process. */
  method UserRead(k: Kernel, s: Slot, off: nat, region: Region) returns (o: Outcome, marks: seq<Mark>)
    requires k.Valid() && k.Reserved() && UserVpn(s.vpn) && s.vpn != VACOW && off < PAGE_SIZE && StacksOk(k.sig)
    modifies k`pt, k`frames, k`mem
    ensures k.Valid() && k.CowKept(old(k.pt), old(k.frames)) && (!o.Crashed? ==> k.Reserved())
    ensures if Entry(old(k.pt), s).present then marks == [] else LeftBy(old(k.pt), k.sig, s.pid, marks)
    ensures var v := VerdictOfRead(old(k.Now()), s, region);
            !o.Stuck? && (o.Done? <==> v.Goes?) && (o.Died? <==> v.Dies?) && (o.Crashed? <==> v.Halts?)
    ensures o.Died? ==> k.State() == Effect(old(k.State()), Read(s, off, region), Note(Killed, marks))
    ensures o.Done? ==> var note := Note(Granted, marks);
                        && k.State() == Effect(old(k.State()), Read(s, off, region), note)
                        && [o.val] == Shown(old(k.State()), Read(s, off, region), note)
    ensures !o.Crashed? ==> AccessKeeps(old(k.pt), k.pt)
    ensures TookOne(old(k.frames), k.frames)
    ensures !Entry(old(k.pt), s).present && old(CanDeliver(k.pt, k.sig, s.pid)) && !NoRoom(old(k.frames)) ==>
              && (o.Done? <==> region.Rw? || region.Wx?)
              && (o.Crashed? <==> region.Ro? || region.Rx? || (region.Nil? && s.pid in k.roots))
              && (o.Done? ==> o.val == 0)
  {
    hide Typed, Counted, Exclusive, WireCounted, CowShared, Seen, Devices, CanDeliver, Touch, EntryOk, Mappings, Stored, TookOne, AccessKeeps, NoRoom;
    NoneYet(k.frames);
    StillKept(k.pt);
    marks := [];
    SeenAt(k.pt, k.frames, k.mem, k.dmas, s);
    TouchPresent(k.pt, k.frames, k.mem, k.dmas, s);
    if !Entry(k.pt, s).present {
      var h;
      h, marks := ReadFault(k, s, region);
      if h.Dead? {
        return Died, marks;
      } else if h.Halted? {
        return Crashed, marks;
      }
      MarkedKeys(old(k.State()), marks);
      ReadsZero(Marked(old(k.State()), marks), s, off);
    }
    TouchThere(k.State(), s);
    SeenAt(k.pt, k.frames, k.mem, k.dmas, s);
    o := Done(k.mem[Entry(k.pt, s).pfn][off]);
  }
}
