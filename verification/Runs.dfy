/** Whole runs: any number of processes, in any order of calls, accesses, forks and exports. */
module Runs {
  import opened Options
  import opened Pae
  import opened FrameSharing
  import opened EagerFork
  import opened PageMap
  import opened Signals
  import opened QuietStack
  import UserSpace
  import ThreadFork
  import HwExport

  /** Why a run stopped: it did not; the kernel did, as Fatal says; or the next operation meets an
      obstacle.  The obstacles are an export of a copy-on-write page whose frame is mapped elsewhere; an
      export that ends in another page, which leaves the device locked; taking back the last export of
      a page whose wire count did not start from zero, which stays wired; a page moved onto itself that
      frees its frame; and a fork into an address space in use. */
  datatype Stop = Finished | Halted | SharedExport | LockHeld | StuckWired | SelfFreed | ChildInUse

  predicate GoodSlot(s: Slot) { UserVpn(s.vpn) && s.vpn != VACOW }

  predicate GoodProt(prot: Prot) { prot.present && prot.user }

  /** What the kernel's entry checks and the processes' runtime guarantee of an operation: user
      addresses away from the page reserved for copying, user protections, and handler stacks that lie
      in one page. */
  predicate Asked(op: Op) {
    match op
    case Fork(p, c) => p != c
    case Map(s, prot) => GoodSlot(s) && GoodProt(prot)
    case Unmap(s) => GoodSlot(s)
    case Move(pid, dst, src) => GoodSlot(Slot(pid, dst)) && GoodSlot(Slot(pid, src))
    case Protect(s, prot) => GoodSlot(s) && GoodProt(prot)
    case Read(s, off, _) => GoodSlot(s) && off < PAGE_SIZE
    case Write(s, off, _, _) => GoodSlot(s) && off < PAGE_SIZE
    case IoMap(s, _, prot) => GoodSlot(s) && GoodProt(prot)
    case IoUnmap(s) => GoodSlot(s)
    case Export(_, s, _, _) => GoodSlot(s)
    case Unexport(_, _, _) => true
    case Close(_) => true
    case Clear(_, lo, hi) => USERBASE <= lo <= hi <= USEREND
    case Handler(_, _, sp) => GoodStack(sp)
  }

  /** No other page maps the frame of page s. */
  predicate Alone(pt: PageTables, s: Slot) {
    forall t :: t in pt && t != s && pt[t].MapsFrame() ==> pt[t].pfn != Entry(pt, s).pfn
  }

  predicate InUse(pt: PageTables, pid: Pid) { exists t :: t in pt && t.pid == pid && pt[t].present }

  /** The obstacle an operation meets, if any. */
  function Obstacle(w: World, op: Op): Stop {
    match op
    case Fork(_, c) => if InUse(w.pt, c) then ChildInUse else Finished
    case Move(pid, dst, src) =>
      var e := Entry(w.pt, Slot(pid, src));
      if dst == src && e.IsNormal() && RefOf(w.frames, e) == 1 then SelfFreed else Finished
    case Export(_, s, off, sz) =>
      if !OnePage(s, off, sz) then LockHeld
      else if Entry(w.pt, s).IsCow() && !Alone(w.pt, s) then SharedExport else Finished
    case Unexport(client, s, off) =>
      var i := FindDma(w.dmas, Dma(client, s, off));
      if i < |w.dmas| && HwExport.Sticks(w.pt, w.frames, w.dmas, i) then StuckWired else Finished
    case Close(client) => if HwExport.NoneSticks(w.pt, w.frames, w.dmas, client) then Finished else StuckWired
    case _ => Finished
  }

  /** The obstacles, field by field. */
  lemma ObstacleIs(w: World, op: Op)
    requires Asked(op)
    ensures Obstacle(w, op).ChildInUse? <==> op.Fork? && exists t :: t in w.pt && t.pid == op.child && w.pt[t].present
    ensures Obstacle(w, op).SelfFreed? <==>
              op.Move? && op.dst == op.src &&
              var s := Slot(op.pid, op.src); s in w.pt && w.pt[s].present && w.pt[s].kind == Normal && w.pt[s].pfn in w.frames && w.frames[w.pt[s].pfn].ref == 1
    ensures op.Export? && op.off < PAGE_SIZE && op.sz < 0x1_0000_0000 ==>
              (Obstacle(w, op).LockHeld? <==> !(0 < op.off + op.sz <= PAGE_SIZE || op.off + op.sz > 0x1_0000_0000))
    ensures Obstacle(w, op).LockHeld? || Obstacle(w, op).SharedExport? ==> op.Export?
    ensures op.Export? && !Obstacle(w, op).LockHeld? ==>
              (Obstacle(w, op).SharedExport? <==>
                 op.s in w.pt && w.pt[op.s].present && w.pt[op.s].kind == Cow &&
                 exists t :: t in w.pt && t != op.s && w.pt[t].present && w.pt[t].kind != Iomap && w.pt[t].pfn == w.pt[op.s].pfn)
    ensures Obstacle(w, op).StuckWired? ==> op.Unexport? || op.Close?
    ensures op.Unexport? ==>
              (Obstacle(w, op).StuckWired? <==>
                 Dma(op.client, op.s, op.off) in w.dmas && BaseOf(w.pt, w.frames, op.s) != 0 && CountSlot(w.dmas, op.s) == 1)
    ensures op.Close? ==>
              (Obstacle(w, op).StuckWired? <==>
                 exists d :: d in w.dmas && d.client == op.client && BaseOf(w.pt, w.frames, d.slot) != 0 &&
                             forall x :: x in w.dmas && x.slot == d.slot ==> x.client == op.client)
    ensures !Obstacle(w, op).Halted?
  {
    match op {
      case Export(_, s, off, sz) => if off < PAGE_SIZE && sz < 0x1_0000_0000 { OnePageIs(s, off, sz); }
      case Unexport(client, s, off) =>
        var i := FindDma(w.dmas, Dma(client, s, off));
        if i < |w.dmas| { CountSlotRemove(w.dmas, i, s); }
      case Close(client) => CloseSticks(w, client);
      case _ =>
    }
  }

  lemma CloseSticks(w: World, client: nat)
    ensures !HwExport.NoneSticks(w.pt, w.frames, w.dmas, client) <==>
              exists d :: d in w.dmas && d.client == client && BaseOf(w.pt, w.frames, d.slot) != 0 &&
                          forall x :: x in w.dmas && x.slot == d.slot ==> x.client == client
  {
    if !HwExport.NoneSticks(w.pt, w.frames, w.dmas, client) {
      var i :| 0 <= i < |w.dmas| && w.dmas[i].client == client && BaseOf(w.pt, w.frames, w.dmas[i].slot) != 0
               && !exists j :: 0 <= j < |w.dmas| && w.dmas[j].slot == w.dmas[i].slot && w.dmas[j].client != client;
      assert w.dmas[i] in w.dmas;
    }
    if d :| d in w.dmas && d.client == client && BaseOf(w.pt, w.frames, d.slot) != 0 && forall x :: x in w.dmas && x.slot == d.slot ==> x.client == client {
      var i :| 0 <= i < |w.dmas| && w.dmas[i] == d;
      forall j | 0 <= j < |w.dmas| && w.dmas[j].slot == d.slot ensures w.dmas[j].client == client {
        assert w.dmas[j] in w.dmas;
      }
    }
  }

  /** The kernel stops: a fork or a page to be mapped finds no free frame, a page is mapped without
      write permission, or an access comes to that; an access kills a process without a parent; a
      copy-on-write page is to lose write permission; the frame for a device mapping does not exist; or
      an absent page is exported. */
  predicate Fatal(w: World, op: Op) {
    match op
    case Fork(_, _) => NoRoom(w.frames)
    case Map(s, prot) => MapStops(w.frames, Entry(w.pt, s).IsExternal(), prot)
    case Protect(s, prot) => Entry(w.pt, s).IsCow() && !prot.writable
    case IoMap(_, pfn, _) => pfn !in w.frames
    case Export(_, s, _, _) => !Entry(w.pt, s).present
    case Read(s, _, region) => UserSpace.VerdictOfRead(w, s, region).Halts?
    case Write(s, _, _, region) => UserSpace.VerdictOfWrite(w, s, region).Halts?
    case _ => false
  }

  /** What the next operation meets. */
  function StopAt(w: World, op: Op): Stop {
    if !Obstacle(w, op).Finished? then Obstacle(w, op) else if Fatal(w, op) then Halted else Finished
  }

  function FateBy(v: UserSpace.Verdict): Fate { if v.Goes? then Granted else if v.Dies? then Killed else Looping }

  function FateOf(w: World, op: Op): Fate {
    match op
    case Read(s, _, region) => FateBy(UserSpace.VerdictOfRead(w, s, region))
    case Write(s, _, _, region) => FateBy(UserSpace.VerdictOfWrite(w, s, region))
    case _ => Granted
  }

  /** What holds between any two operations.  With every copy-on-write frame counted twice or more,
      the kernel's repair of the last copy-on-write mapping is never taken. */
  ghost predicate Ready(k: Kernel)
    reads k
  {
    k.Valid() && k.Reserved() && CowShared(k.pt, k.frames) && HwExport.RecordsOk(k.dmas) && StacksOk(k.sig)
  }

  ghost predicate Clear(k: Kernel, op: Op)
    reads k
  {
    Obstacle(k.Now(), op).Finished?
  }

  // ---------------------------------------------------------------- what operations keep

  /** Where faults are delivered after an operation. */
  function NextSig(sig: map<Pid, nat>, op: Op): map<Pid, nat> {
    match op
    case Fork(p, c) => if p in sig then sig[c := sig[p]] else sig - {c}
    case Handler(p, ip, sp) => if UserRange(ip, 4) && UserRange(sp, FRAME) then sig[p := sp] else sig
    case _ => sig
  }

  /** The operation takes back an export of page s by client c. */
  predicate TakesBack(op: Op, c: nat, s: Slot) {
    (op.Close? && op.client == c) || (op.Unexport? && op.client == c && op.s == s)
  }

  /** Process p has its faults delivered in its low page, which is there to be written. */
  predicate LowReady(w: World, p: Pid) {
    p in w.sig && w.sig[p] > 0 && PageAt(w.sig[p] - 1) == USERBASE && WritableAt(w.pt, Slot(p, USERBASE))
  }

  /** The operation is by p and can take its low page or its write permission away, or changes where its
      faults go. */
  predicate Disturbs(op: Op, p: Pid) {
    var low := Slot(p, USERBASE);
    match op
    case Unmap(s) => s == low
    case Move(pid, dst, src) => pid == p && (dst == USERBASE || src == USERBASE)
    case Protect(s, prot) => s == low && !prot.writable
    case IoMap(s, _, _) => s == low
    case IoUnmap(s) => s == low
    case Clear(pid, lo, hi) => pid == p && lo <= USERBASE < hi
    case Handler(pid, _, _) => pid == p
    case _ => false
  }

  /** The processes of a family that do not disturb their low page, and their children. */
  function Family(G: set<Pid>, op: Op): set<Pid> {
    (set p | p in G && !Disturbs(op, p)) + if op.Fork? && op.parent in G then {op.child} else {}
  }

  function Descendants(G: set<Pid>, ops: seq<Op>): set<Pid> {
    if ops == [] then G else Family(Descendants(G, ops[..|ops| - 1]), ops[|ops| - 1])
  }

  /** If client c had page s exported it has still, with the same entry. */
  ghost predicate Still(w0: World, w: World, c: nat, s: Slot) { HwExport.StillHeld(w0.pt, w0.dmas, w.pt, w.dmas, c, s) }

  /** In plain terms: whose pages an operation acts on, which operations take an export back, which processes have their faults delivered in
      the low page, and who belongs to a family. */
  lemma InPlainTerms(op: Op, c: nat, s: Slot, w: World, p: Pid, G: set<Pid>, ops: seq<Op>)
    ensures TakesBack(op, c, s) <==> op == EagerFork.Close(c) || exists off :: op == EagerFork.Unexport(c, s, off)
    ensures LowReady(w, p) <==> p in w.sig && PAGE_SIZE < w.sig[p] <= 2 * PAGE_SIZE && WritableAt(w.pt, Slot(p, 1))
    ensures Disturbs(op, p) ==>
              && ActsOn(op, p) && !op.Map? && !op.Read? && !op.Write? && !op.Export? && !op.Fork?
              && (op.Unmap? || op.IoMap? || op.IoUnmap? || op.Protect? ==> op.s == Slot(p, 1)) && (op.Protect? ==> !op.prot.writable)
              && (op.Move? ==> op.dst == 1 || op.src == 1) && (op.Clear? ==> op.lo <= 1 < op.hi)
    ensures ActsOn(op, p) <==>
              || ((op.Map? || op.Unmap? || op.Protect? || op.Read? || op.Write? || op.IoMap? || op.IoUnmap? || op.Export?) && op.s.pid == p)
              || ((op.Move? || op.Clear? || op.Handler?) && op.pid == p) || (op.Fork? && op.child == p)
    ensures Descendants(G, []) == G
    ensures p in Descendants(G, ops + [op]) <==>
              || (p in Descendants(G, ops) && !Disturbs(op, p))
              || exists q :: q in Descendants(G, ops) && op == EagerFork.Fork(q, p)
  {
    if op.Unexport? { assert op == EagerFork.Unexport(op.client, op.s, op.off); }
    assert (ops + [op])[..|ops|] == ops;
    if op.Fork? { assert op == EagerFork.Fork(op.parent, op.child); }
  }

  /** What one operation keeps of exports and low pages, where faults go after it, and who has no parent. */
  ghost predicate Keeps(w0: World, w: World, op: Op) {
    && w.sig == NextSig(w0.sig, op)
    && w.roots == (if op.Fork? then w0.roots - {op.child} else w0.roots)
    && (forall c, s :: !TakesBack(op, c, s) ==> Still(w0, w, c, s))
    && (forall p :: LowReady(w0, p) && !Disturbs(op, p) ==> LowReady(w, p))
    && (op.Fork? && LowReady(w0, op.parent) ==> LowReady(w, op.child))
  }

  /** Where nothing is taken back and wired and low pages stay, all is kept. */
  lemma CallKeeps(w0: World, w: World, op: Op)
    requires WireCounted(w0.pt, w0.frames, w0.dmas) && forall t :: Entry(w0.pt, t).IsWired() ==> Entry(w.pt, t) == Entry(w0.pt, t)
    requires forall p :: WritableAt(w0.pt, Slot(p, USERBASE)) && !Disturbs(op, p) ==> WritableAt(w.pt, Slot(p, USERBASE))
    requires !op.Fork? && w.dmas == w0.dmas && w.sig == NextSig(w0.sig, op) && w.roots == w0.roots
    ensures Keeps(w0, w, op)
  {
    forall c, s | !TakesBack(op, c, s) ensures Still(w0, w, c, s) {
      if HwExport.Held(w0.dmas, c, s) { HwExport.HeldIsWired(w0.pt, w0.frames, w0.dmas, c, s); }
    }
  }

  lemma ForkKeeps(w0: World, w: World, op: Op, g: Pfn)
    requires WireCounted(w0.pt, w0.frames, w0.dmas) && op.Fork? && !InUse(w0.pt, op.child)
    requires ThreadFork.ForkedTables(w0.pt, w.pt, op.parent, op.child, g)
    requires w.dmas == w0.dmas && w.sig == NextSig(w0.sig, op) && w.roots == w0.roots - {op.child}
    ensures Keeps(w0, w, op)
  {
    forall c, s ensures Still(w0, w, c, s) {
      if HwExport.Held(w0.dmas, c, s) { HwExport.HeldIsWired(w0.pt, w0.frames, w0.dmas, c, s); }
    }
    forall p | LowReady(w0, p) ensures LowReady(w, p) {
      assert p != op.child;
    }
  }

  // ---------------------------------------------------------------- one operation

  /** A call that maps pages or changes how they are mapped. */
  method ExecMap(k: Kernel, op: Op) returns (why: Stop)
    requires Ready(k) && Asked(op)
    requires op.Map? || op.Protect? || op.IoMap? || op.IoUnmap?
    modifies k
    ensures why == if Fatal(old(k.Now()), op) then Halted else Finished
    ensures why.Finished? ==> Ready(k) && k.State() == Step(old(k.State()), op)
    ensures why.Finished? ==> Keeps(old(k.Now()), k.Now(), op) && TookOne(old(k.frames), k.frames)
  {
    hide Typed, Counted, Exclusive, WireCounted, CowShared, Seen, Devices, Step, HwExport.RecordsOk, Keeps, StacksOk, TookOne, NoneTaken;
    var r := Ok;
    ghost var w0 := k.Now();
    NoneYet(k.frames);
    match op {
      case Map(s, prot) => r := k.VmMap(s, prot);
      case Protect(s, prot) => r := k.VmChProt(s, prot);
      case IoMap(s, pfn, prot) =>
        if pfn !in k.frames {
          return Halted;
        }
        r := k.IoMapPage(s, pfn, prot);
      case IoUnmap(s) => r := k.IoUnmapPage(s);
    }
    if r.Panic? {
      return Halted;
    }
    TookThen(w0.frames, k.frames, k.frames);
    CallKeeps(w0, k.Now(), op);
    why := Finished;
  }

  /** A call that takes pages away or moves them, or says where faults go. */
  method ExecMove(k: Kernel, op: Op)
    requires Ready(k) && Asked(op) && Clear(k, op)
    requires op.Unmap? || op.Move? || op.Clear? || op.Handler?
    modifies k
    ensures Ready(k) && k.State() == Step(old(k.State()), op)
    ensures Keeps(old(k.Now()), k.Now(), op) && TookOne(old(k.frames), k.frames)
  {
    hide Typed, Counted, Exclusive, WireCounted, CowShared, Seen, Devices, Step, HwExport.RecordsOk, Keeps, StacksOk, TookOne, NoneTaken;
    ghost var w0 := k.Now();
    NoneYet(k.frames);
    match op {
      case Unmap(s) => var r := k.VmUnmap(s);
      case Move(pid, dst, src) => var r := k.VmMove(Slot(pid, dst), Slot(pid, src));
      case Clear(pid, lo, hi) =>
        k.VmClear(pid, lo, hi);
        forall s | s in k.pt && k.pt[s].present ensures s.vpn != VACOW {
          assert Entry(k.pt, s) == Entry(w0.pt, s);
        }
      case Handler(pid, ip, sp) =>
        var ok := SetHandler(k, pid, ip, sp);
        HandlerOk(w0.sig, pid, sp);
        HandlerStep(k.State(), op);
    }
    TookThen(w0.frames, k.frames, k.frames);
    CallKeeps(w0, k.Now(), op);
  }

  lemma HandlerOk(sig: map<Pid, nat>, pid: Pid, sp: nat)
    requires StacksOk(sig) && GoodStack(sp)
    ensures StacksOk(sig[pid := sp])
  {
  }

  lemma HandlerStep(e: Eager, op: Op)
    requires op.Handler?
    ensures Step(e, op) == e
  {
  }

  /** A read or write, and what becomes of the process. */
  method ExecAccess(k: Kernel, op: Op) returns (why: Stop, note: Note, seen: seq<bv8>)
    requires Ready(k) && Asked(op) && (op.Read? || op.Write?)
    modifies k
    ensures why == if Fatal(old(k.Now()), op) then Halted else Finished
    ensures why.Finished? ==> Ready(k) && k.State() == Effect(old(k.State()), op, note)
    ensures why.Finished? ==> seen == Shown(old(k.State()), op, note)
    ensures why.Finished? ==> Keeps(old(k.Now()), k.Now(), op) && TookOne(old(k.frames), k.frames)
    ensures MarksOk(old(k.Now()), op, note.marks)
    ensures why.Finished? ==> note.fate == FateOf(old(k.Now()), op)
    ensures !Entry(old(k.pt), op.s).present && old(CanDeliver(k.pt, k.sig, op.s.pid)) && !NoRoom(old(k.frames)) ==>
              && (why.Finished? && note.fate.Granted? <==> op.region.Rw? || op.region.Wx?)
              && (why.Halted? <==> op.region.Ro? || op.region.Rx? || (op.region.Nil? && op.s.pid in old(k.roots)))
    ensures op.Write? && Entry(old(k.pt), op.s).IsNormal() && !WritableAt(old(k.pt), op.s) && old(CanDeliver(k.pt, k.sig, op.s.pid)) ==>
              (why.Finished? && note.fate.Granted? <==> op.region.Rw? || op.region.Wx?)
  {
    hide Typed, Counted, Exclusive, WireCounted, CowShared, Seen, Devices, Step, HwExport.RecordsOk, Keeps, StacksOk, CanDeliver, Marked, TookOne;
    ghost var w0 := k.Now();
    var o, marks;
    if op.Read? {
      o, marks := UserSpace.UserRead(k, op.s, op.off, op.region);
      seen := if o.Done? then [o.val] else [];
    } else {
      var faults;
      o, faults, marks := UserSpace.UserWrite(k, op.s, op.off, op.val, op.region);
      seen := [];
    }
    why := if o.Crashed? then Halted else Finished;
    note := Note(if o.Died? then Killed else if o.Stuck? then Looping else Granted, marks);
    if why.Finished? { CallKeeps(w0, k.Now(), op); }
  }

  /** A fork, with any free frame for the low page and whatever the free list left in it. */
  method ExecFork(k: Kernel, op: Op) returns (why: Stop)
    requires Ready(k) && Asked(op) && op.Fork? && Clear(k, op)
    modifies k
    ensures why == if Fatal(old(k.Now()), op) then Halted else Finished
    ensures why.Finished? ==> Ready(k) && k.State() == Step(old(k.State()), op)
    ensures why.Finished? ==> Keeps(old(k.Now()), k.Now(), op) && TookOne(old(k.frames), k.frames)
  {
    hide Typed, Counted, Exclusive, WireCounted, CowShared, NoLeftover, Seen, Devices, Step, HwExport.RecordsOk, Keeps, ThreadFork.TypesBut, TookOne;
    ghost var w0 := k.Now();
    var leftover: nat := *;
    var g := None;
    if f :| f in k.frames && k.frames[f].typ == Free { g := Some(f); }
    var r := ThreadFork.Fork(k, op.parent, op.child, g, leftover);
    if r.Panic? {
      return Halted;
    }
    ForkTakes(w0.frames, k.frames, g.value, if Entry(w0.pt, Slot(op.parent, USERBASE)).present then FrameType.User else FrameType.Free);
    ForkKeeps(w0, k.Now(), op, g.value);
    why := Finished;
  }

  lemma ForkTakes(a: Frames, b: Frames, g: Pfn, t: FrameType)
    requires ThreadFork.TypesBut(a, b, g, t)
    ensures TookOne(a, b)
  {
    assert TookBut(a, b, g);
  }

  /** An export. */
  method ExecExport(k: Kernel, op: Op) returns (why: Stop)
    requires Ready(k) && Asked(op) && op.Export? && Clear(k, op)
    modifies k
    ensures why == if Fatal(old(k.Now()), op) then Halted else Finished
    ensures why.Finished? ==> Ready(k) && k.State() == Step(old(k.State()), op)
    ensures why.Finished? ==> Keeps(old(k.Now()), k.Now(), op) && TookOne(old(k.frames), k.frames)
  {
    hide Typed, Counted, Exclusive, WireCounted, CowShared, Seen, Devices, Step, CountSlot, HwExport.StillHeld, TookOne, NoneTaken;
    ghost var w0 := k.Now();
    AloneIs(k.pt, op.s);
    RecordsWired(k.pt, k.frames, k.dmas);
    HwExport.HeldStart(k.pt, k.dmas);
    var r, pfn := HwExport.Export(k, op.client, op.s, op.off, op.sz);
    if r.Panic? {
      return Halted;
    }
    if r.Ok? { ExportHolds(w0.pt, w0.dmas, k.pt, k.dmas, op.s, Dma(op.client, op.s, op.off)); }
    TookThen(w0.frames, k.frames, k.frames);
    why := Finished;
  }

  /** An export, or all exports of a client, taken back. */
  method ExecRelease(k: Kernel, op: Op)
    requires Ready(k) && Asked(op) && (op.Unexport? || op.Close?) && Clear(k, op)
    modifies k
    ensures Ready(k) && k.State() == Step(old(k.State()), op)
    ensures Keeps(old(k.Now()), k.Now(), op) && TookOne(old(k.frames), k.frames)
  {
    hide Typed, Counted, Exclusive, WireCounted, CowShared, Seen, Devices, Step, CountSlot, HwExport.NoneSticks, HwExport.Sticks,
      HwExport.StillHeld, TookOne, NoneTaken;
    ghost var w0 := k.Now();
    match op {
      case Unexport(client, s, off) => var r := HwExport.Unexport(k, client, s, off);
      case Close(client) => HwExport.Close(k, client);
    }
    TookThen(w0.frames, k.frames, k.frames);
  }

  lemma AloneIs(pt: PageTables, s: Slot)
    ensures Alone(pt, s) && s in pt && pt[s].MapsFrame() ==> Mappings(pt, pt[s].pfn) == {s}
  {
  }

  /** Exporting a page takes nothing back, and a page exported already keeps its entry. */
  lemma ExportHolds(pt: PageTables, dmas: seq<Dma>, pt': PageTables, dmas': seq<Dma>, s: Slot, d: Dma)
    requires pt' == pt[s := Entry(pt, s).MkWired()] && dmas' == [d] + dmas
    requires forall i :: 0 <= i < |dmas| ==> Entry(pt, dmas[i].slot).IsWired()
    ensures forall c, t :: HwExport.StillHeld(pt, dmas, pt', dmas', c, t)
  {
    forall c, t ensures HwExport.StillHeld(pt, dmas, pt', dmas', c, t) {
      if HwExport.Held(dmas, c, t) {
        var i :| 0 <= i < |dmas| && dmas[i].client == c && dmas[i].slot == t;
        assert dmas'[i + 1] == dmas[i];
      }
    }
  }

  lemma RecordsWired(pt: PageTables, frames: Frames, dmas: seq<Dma>)
    requires WireCounted(pt, frames, dmas)
    ensures forall i :: 0 <= i < |dmas| ==> Entry(pt, dmas[i].slot).IsWired()
  {
  }

  /** Bytes are stored on the way exactly by an access that takes a fault that can be delivered. */
  predicate MarksOk(w: World, op: Op, marks: seq<Mark>) {
    if (op.Read? && !Entry(w.pt, op.s).present) || (op.Write? && !WritableAt(w.pt, op.s))
    then LeftBy(w.pt, w.sig, op.s.pid, marks)
    else marks == []
  }

  /** Operation op took the kernel from w to w': nothing stood in its way and the kernel did not stop; it
      ended as the verdict on it says; and to every process's view happened what happens on the copying
      machine in one step.  It took one free frame at most. */
  ghost predicate Did(w: World, op: Op, note: Note, w': World) {
    && StopAt(w, op).Finished? && note.fate == FateOf(w, op) && MarksOk(w, op, note.marks)
    && Machine(w') == Effect(Machine(w), op, note)
    && Keeps(w, w', op) && TookOne(w.frames, w'.frames)
  }

  lemma DidCall(w: World, op: Op, w': World)
    requires !op.Read? && !op.Write? && StopAt(w, op).Finished? && Machine(w') == Step(Machine(w), op)
    requires Keeps(w, w', op) && TookOne(w.frames, w'.frames)
    ensures Did(w, op, Note(Granted, []), w')
  {
    NoMarks(Machine(w));
  }

  /** Carry out one operation: the kernel, the fault handler and the devices together do to every
      process's view what the copying machine does in one step. */
  method Exec(k: Kernel, op: Op) returns (why: Stop, note: Note, seen: seq<bv8>)
    requires Ready(k) && Asked(op) && Clear(k, op)
    modifies k
    ensures why == if Fatal(old(k.Now()), op) then Halted else Finished
    ensures why.Finished? ==> Ready(k) && Did(old(k.Now()), op, note, k.Now())
    ensures why.Finished? ==> seen == Shown(Machine(old(k.Now())), op, note)
  {
    hide Step, Ready, Obstacle, Keeps, Fatal, Effect, FateBy, TookOne, LeftBy;
    ghost var w0 := k.Now();
    if op.Read? || op.Write? {
      why, note, seen := ExecAccess(k, op);
      return;
    }
    if op.Fork? {
      why := ExecFork(k, op);
    } else if op.Export? {
      why := ExecExport(k, op);
    } else if op.Map? || op.Protect? || op.IoMap? || op.IoUnmap? {
      why := ExecMap(k, op);
    } else {
      if op.Unexport? || op.Close? {
        ExecRelease(k, op);
      } else {
        ExecMove(k, op);
      }
      NeverFatal(w0, op);
      why := Finished;
    }
    seen, note := [], Note(Granted, []);
    NothingShown(w0, op);
    if why.Finished? { DidCall(w0, op, k.Now()); }
  }

  lemma NeverFatal(w: World, op: Op)
    requires op.Unmap? || op.Move? || op.Clear? || op.Handler? || op.Unexport? || op.Close?
    ensures !Fatal(w, op)
  {
  }

  lemma NothingShown(w: World, op: Op)
    requires !op.Read?
    ensures Shown(Machine(w), op, Note(Granted, [])) == []
  {
  }

  // ---------------------------------------------------------------- runs

  ghost predicate Link(ops: seq<Op>, notes: seq<Note>, states: seq<World>, i: nat)
    requires i < |notes| <= |ops| && |states| == |notes| + 1
  {
    Did(states[i], ops[i], notes[i], states[i + 1])
  }

  /** A run of ops from w0: operation by operation, the kernel's states and how each ended, until they are
      all done, the next one meets an obstacle, or it stops the kernel. */
  ghost predicate Ran(w0: World, ops: seq<Op>, why: Stop, notes: seq<Note>, states: seq<World>) {
    && |notes| <= |ops| && |states| == |notes| + 1 && states[0] == w0
    && (forall i :: 0 <= i < |notes| ==> Link(ops, notes, states, i))
    && if |notes| == |ops| then why.Finished? else why == StopAt(states[|notes|], ops[|notes|]) && !why.Finished?
  }

  /** Every stack is in what its process reserves. */
  ghost predicate SigIn(R: Reserve, sig: map<Pid, nat>) { forall p :: p in sig ==> StackIn(Res(R, p), sig[p]) }

  ghost predicate StackIn(r: set<nat>, sp: nat) { forall a: nat :: sp - SIGSTACK <= a < sp ==> a in r }

  /** Every process reserves the handler stacks it has or will have, and its children reserve them too; it
      does not read them, move their pages or map devices over them, and none is mapped there. */
  ghost predicate KeepsOff(R: Reserve, w: World, ops: seq<Op>) {
    && NoDevice(R, Machine(w)) && SigIn(R, w.sig)
    && forall i :: 0 <= i < |ops| ==> OffAndIn(R, ops[i])
  }

  ghost predicate OffAndIn(R: Reserve, op: Op) { Off(R, op) && (op.Handler? ==> StackIn(Res(R, op.pid), op.sp)) }

  /** It is enough that handler stacks lie at reserved addresses, a child reserves what its parent does, and
      reads, moves and device mappings stay off them. */
  lemma QuietEnough(R: Reserve, w: World, ops: seq<Op>)
    requires forall s, a :: s in Machine(w).view && Machine(w).view[s].Device? && a in Res(R, s.pid) ==> a / PAGE_SIZE != s.vpn
    requires forall p, a: nat :: p in w.sig && w.sig[p] - 2048 <= a < w.sig[p] ==> a in Res(R, p)
    requires forall i :: 0 <= i < |ops| ==>
               match ops[i]
               case Fork(p, c) => Res(R, p) <= Res(R, c)
               case Read(s, off, _) => s.vpn * PAGE_SIZE + off !in Res(R, s.pid)
               case Move(pid, dst, src) => forall a :: a in Res(R, pid) ==> a / PAGE_SIZE != dst && a / PAGE_SIZE != src
               case IoMap(s, _, _) => forall a :: a in Res(R, s.pid) ==> a / PAGE_SIZE != s.vpn
               case Handler(pid, _, sp) => forall a: nat :: sp - 2048 <= a < sp ==> a in Res(R, pid)
               case _ => true
    ensures KeepsOff(R, w, ops)
  {
    hide Machine, Clean;
    forall s | s in Machine(w).view && Machine(w).view[s].Device? ensures Clean(R, s) { CleanBy(R, s); }
    forall i | 0 <= i < |ops| ensures OffAndIn(R, ops[i]) {
      match ops[i] {
        case Move(pid, dst, src) =>
          CleanBy(R, Slot(pid, dst));
          CleanBy(R, Slot(pid, src));
        case IoMap(s, _, _) => CleanBy(R, s);
        case _ =>
      }
    }
  }

  lemma CleanBy(R: Reserve, s: Slot)
    requires forall a :: a in Res(R, s.pid) ==> a / PAGE_SIZE != s.vpn
    ensures Clean(R, s)
  {
    forall o: nat | o < PAGE_SIZE ensures Open(R, s, o) {
      assert (s.vpn * PAGE_SIZE + o) / PAGE_SIZE == s.vpn;
    }
  }

  ghost predicate AllIn(R: Reserve, notes: seq<Note>) {
    forall i :: 0 <= i < |notes| ==> forall m :: m in notes[i].marks ==> Within(R, m)
  }

  ghost predicate LowAll(w: World, G: set<Pid>) { forall p :: p in G ==> LowReady(w, p) }

  /** Every mark in a run was made by an access, on its process's own stack. */
  ghost predicate Own(ops: seq<Op>, notes: seq<Note>)
    requires |notes| == |ops|
  {
    forall i :: 0 <= i < |ops| ==> OwnMarks(ops[i], notes[i]) && (!notes[i].fate.Granted? ==> ops[i].Read? || ops[i].Write?)
  }

  lemma FamilyKept(w0: World, w: World, op: Op, G: set<Pid>)
    requires Keeps(w0, w, op) && LowAll(w0, G)
    ensures LowAll(w, Family(G, op))
  {
  }

  lemma SigKept(R: Reserve, sig: map<Pid, nat>, op: Op)
    requires SigIn(R, sig) && OffAndIn(R, op)
    ensures SigIn(R, NextSig(sig, op))
  {
  }

  lemma MarkIn(R: Reserve, w: World, op: Op, marks: seq<Mark>, m: Mark)
    requires MarksOk(w, op, marks) && SigIn(R, w.sig) && m in marks
    ensures Within(R, m)
  {
    assert StackIn(Res(R, op.s.pid), w.sig[op.s.pid]);
  }

  lemma HeldOn(w0: World, w1: World, w: World, ops: seq<Op>, op: Op)
    requires HeldSince(w0, w1, ops) && Keeps(w1, w, op)
    ensures HeldSince(w0, w, ops + [op])
  {
    forall c, s | forall i :: 0 <= i < |ops + [op]| ==> !TakesBack((ops + [op])[i], c, s)
      ensures Still(w0, w, c, s)
    {
      assert (ops + [op])[|ops|] == op;
      assert forall i :: 0 <= i < |ops| ==> (ops + [op])[i] == ops[i];
      assert Still(w0, w1, c, s) && Still(w1, w, c, s);
    }
  }

  /** What is known after the operations of a run so far: quiet says that it keeps off R, and low that
      the processes of G could have faults delivered in their low pages. */
  ghost predicate Story(R: Reserve, G: set<Pid>, quiet: bool, low: bool, w0: World, w: World, ops: seq<Op>, notes: seq<Note>, trace: seq<bv8>)
  {
    && |notes| == |ops| && Own(ops, notes)
    && Machine(w) == EagerFork.Run(Machine(w0), ops, notes) && trace == Trace(Machine(w0), ops, notes)
    && (quiet ==> AllIn(R, notes) && SigIn(R, w.sig))
    && HeldSince(w0, w, ops)
    && (low ==> LowAll(w, Descendants(G, ops)))
  }

  /** Every page exported at first is exported still, with the same entry, if the export was not taken back. */
  ghost predicate HeldSince(w0: World, w: World, ops: seq<Op>) {
    forall c, s :: (forall i :: 0 <= i < |ops| ==> !TakesBack(ops[i], c, s)) ==> Still(w0, w, c, s)
  }

  lemma StoryBegins(R: Reserve, G: set<Pid>, quiet: bool, low: bool, w0: World)
    requires quiet ==> SigIn(R, w0.sig)
    requires low ==> LowAll(w0, G)
    ensures Story(R, G, quiet, low, w0, w0, [], [], [])
  {
    HwExport.HeldStart(w0.pt, w0.dmas);
  }

  lemma StoryGoesOn(R: Reserve, G: set<Pid>, quiet: bool, low: bool, w0: World, w1: World, ops: seq<Op>, notes: seq<Note>, trace: seq<bv8>,
                    op: Op, note: Note, seen: seq<bv8>, w: World)
    requires Story(R, G, quiet, low, w0, w1, ops, notes, trace)
    requires Did(w1, op, note, w) && seen == Shown(Machine(w1), op, note)
    requires quiet ==> OffAndIn(R, op)
    ensures Story(R, G, quiet, low, w0, w, ops + [op], notes + [note], trace + seen)
  {
    hide Effect, Shown, Keeps, OwnMarks, Still, TakesBack, LowAll, Family, Within, StackIn, SigIn, OffAndIn, AllIn, Own, HeldSince,
      StopAt, FateOf, MarksOk, TookOne;
    assert (ops + [op])[..|ops|] == ops && (notes + [note])[..|ops|] == notes;
    HeldOn(w0, w1, w, ops, op);
    if low { FamilyKept(w1, w, op, Descendants(G, ops)); }
    OwnMore(ops, notes, op, note, w1);
    if quiet {
      InMore(R, notes, op, note, w1);
      KeepsSig(w1, w, op);
      SigKept(R, w1.sig, op);
    }
  }

  lemma KeepsSig(w0: World, w: World, op: Op)
    requires Keeps(w0, w, op)
    ensures w.sig == NextSig(w0.sig, op)
  {
  }

  lemma OwnMore(ops: seq<Op>, notes: seq<Note>, op: Op, note: Note, w: World)
    requires |notes| == |ops| && Own(ops, notes)
    requires note.fate == FateOf(w, op) && MarksOk(w, op, note.marks)
    ensures Own(ops + [op], notes + [note])
  {
    assert OwnMarks(op, note);
  }

  lemma InMore(R: Reserve, notes: seq<Note>, op: Op, note: Note, w: World)
    requires AllIn(R, notes) && SigIn(R, w.sig) && MarksOk(w, op, note.marks)
    ensures AllIn(R, notes + [note])
  {
    hide Within, StackIn, SigIn, MarksOk;
    forall m | m in note.marks ensures Within(R, m) {
      MarkIn(R, w, op, note.marks, m);
    }
  }

  /** What follows of the reference run alone. */
  lemma Closing(R: Reserve, w: World, ops: seq<Op>, notes: seq<Note>)
    requires |notes| <= |ops| && Own(ops[..|notes|], notes)
    ensures forall p :: (forall i :: 0 <= i < |notes| ==> !ActsOn(ops[i], p)) ==>
              Undisturbed(Machine(w), EagerFork.Run(Machine(w), ops[..|notes|], notes), p)
    ensures KeepsOff(R, w, ops) && AllIn(R, notes) ==>
              && Agree(R, EagerFork.Run(Machine(w), ops[..|notes|], notes), EagerFork.Run(Machine(w), ops[..|notes|], Unmarked(notes)))
              && Trace(Machine(w), ops[..|notes|], notes) == Trace(Machine(w), ops[..|notes|], Unmarked(notes))
  {
    hide Machine;
    forall p | forall i :: 0 <= i < |notes| ==> !ActsOn(ops[i], p)
      ensures Undisturbed(Machine(w), EagerFork.Run(Machine(w), ops[..|notes|], notes), p)
    {
      RunUndisturbed(Machine(w), ops[..|notes|], notes, p);
    }
    if KeepsOff(R, w, ops) && AllIn(R, notes) {
      FramesUnseen(R, Machine(w), ops[..|notes|], notes);
    }
  }

  /** What Run promises, from what is known. */
  lemma StoryEnds(R: Reserve, G: set<Pid>, quiet: bool, low: bool, w0: World, w: World, ops: seq<Op>, notes: seq<Note>, trace: seq<bv8>)
    requires |notes| <= |ops| && Story(R, G, quiet, low, w0, w, ops[..|notes|], notes, trace)
    requires quiet ==> KeepsOff(R, w0, ops)
    ensures var e0, e, done := Machine(w0), Machine(w), ops[..|notes|];
            && e == EagerFork.Run(e0, done, notes) && trace == Trace(e0, done, notes) && Own(done, notes)
            && (quiet ==> trace == Trace(e0, done, Unmarked(notes)) && Agree(R, e, EagerFork.Run(e0, done, Unmarked(notes))))
            && (forall p :: (forall i :: 0 <= i < |notes| ==> !ActsOn(ops[i], p)) ==> Undisturbed(e0, e, p))
            && HeldSince(w0, w, done) && (low ==> LowAll(w, Descendants(G, done)))
  {
    hide Machine, Effect, Shown, LowAll, HeldSince, KeepsOff, SigIn, OwnMarks, AllIn, Own, Agree, Descendants;
    Closing(R, w0, ops, notes);
  }

  lemma RanMore(w0: World, ops: seq<Op>, notes: seq<Note>, states: seq<World>, note: Note, w: World)
    requires |notes| < |ops| && |states| == |notes| + 1
    requires forall i :: 0 <= i < |notes| ==> Link(ops, notes, states, i)
    requires Did(states[|notes|], ops[|notes|], note, w)
    ensures forall i :: 0 <= i < |notes| + 1 ==> Link(ops, notes + [note], states + [w], i)
  {
    hide Did;
    forall i | 0 <= i < |notes| + 1 ensures Link(ops, notes + [note], states + [w], i) {
      if i < |notes| { assert Link(ops, notes, states, i); }
    }
  }

  /** Copy-on-write fork refines fork by copying.  A run ends early only where its next operation meets an
      obstacle or stops the kernel, and every operation ends as the verdict on it says.  Over any run
      of any number of processes, some of which may be killed or loop on the way, every byte read is
      the byte the copying machine reads if it stores the same fault frames, and the machines stay equal
      as the processes see them.  If the run keeps off the handler stacks, the fault frames can be left
      out: every byte read is that of the copying machine without them, and the machines agree outside
      the stacks.  A process on whose pages no operation acts keeps its memory as it was; a page exported
      keeps its entry until the export is taken back; and if the processes of G can have faults delivered
      in their low page, so can all their descendants that do not disturb theirs.  With a free frame for
      every operation the kernel stops only for what it is asked, and not at all for harmless
      operations. */
  method Run(k: Kernel, ops: seq<Op>, ghost R: Reserve, ghost G: set<Pid>)
    returns (why: Stop, notes: seq<Note>, trace: seq<bv8>, ghost states: seq<World>)
    requires Ready(k) && forall i :: 0 <= i < |ops| ==> Asked(ops[i])
    modifies k
    ensures Ran(old(k.Now()), ops, why, notes, states)
    ensures !why.Halted? ==> Ready(k) && k.Now() == states[|notes|]
    ensures trace == Trace(Machine(old(k.Now())), ops[..|notes|], notes) && Own(ops[..|notes|], notes)
    ensures Machine(states[|notes|]) == EagerFork.Run(Machine(old(k.Now())), ops[..|notes|], notes)
    ensures KeepsOff(R, old(k.Now()), ops) ==>
              && trace == Trace(Machine(old(k.Now())), ops[..|notes|], Unmarked(notes))
              && Agree(R, Machine(states[|notes|]), EagerFork.Run(Machine(old(k.Now())), ops[..|notes|], Unmarked(notes)))
    ensures forall p :: (forall i :: 0 <= i < |notes| ==> !ActsOn(ops[i], p)) ==>
              Undisturbed(Machine(old(k.Now())), Machine(states[|notes|]), p)
    ensures HeldSince(old(k.Now()), states[|notes|], ops[..|notes|])
    ensures LowAll(old(k.Now()), G) ==> LowAll(states[|notes|], Descendants(G, ops[..|notes|]))
    ensures why.Halted? && |FreeFrames(old(k.frames))| >= |ops| ==> Reckless(states[|notes|], ops[|notes|])
    ensures |FreeFrames(old(k.frames))| >= |ops| && (forall i :: 0 <= i < |ops| ==> Harmless(old(k.Now()), ops[i])) ==> !why.Halted?
  {
    hide Machine, Did, Link, Shown, Ready, Obstacle, StopAt, KeepsOff, LowAll, Story, OffAndIn, Fatal, Reckless, Harmless, FreeFrames,
      Undisturbed, Agree, HeldSince, Own, Descendants;
    ghost var w0 := k.Now();
    ghost var quiet, low := KeepsOff(R, w0, ops), LowAll(w0, G);
    SigsIn(R, w0, ops);
    StoryBegins(R, G, quiet, low, w0);
    notes, trace, states, why := [], [], [w0], Finished;
    assert ops[..0] == [];
    while why.Finished? && |notes| < |ops|
      invariant |notes| <= |ops| && |states| == |notes| + 1 && states[0] == w0
      invariant forall i :: 0 <= i < |notes| ==> Link(ops, notes, states, i)
      invariant !why.Halted? ==> Ready(k) && k.Now() == states[|notes|]
      invariant !why.Finished? ==> |notes| < |ops| && why == StopAt(states[|notes|], ops[|notes|])
      invariant Story(R, G, quiet, low, w0, states[|notes|], ops[..|notes|], notes, trace)
      decreases |ops| - |notes|, why.Finished?
    {
      var n := |notes|;
      ghost var w1 := k.Now();
      why := Obstacle(k.Now(), ops[n]);
      Stopped(w1, ops[n]);
      if why.Finished? {
        var note, seen;
        why, note, seen := Exec(k, ops[n]);
        if why.Finished? {
          RanMore(w0, ops, notes, states, note, k.Now());
          StoryGoesOn(R, G, quiet, low, w0, w1, ops[..n], notes, trace, ops[n], note, seen, k.Now());
          assert ops[..n + 1] == ops[..n] + [ops[n]];
          trace, notes, states := trace + seen, notes + [note], states + [k.Now()];
        }
      }
    }
    StoryEnds(R, G, quiet, low, w0, states[|notes|], ops, notes, trace);
    StopsAsAsked(w0, ops, why, notes, states);
  }

  lemma SigsIn(R: Reserve, w: World, ops: seq<Op>)
    ensures KeepsOff(R, w, ops) ==> SigIn(R, w.sig) && forall i :: 0 <= i < |ops| ==> OffAndIn(R, ops[i])
  {
  }

  lemma Stopped(w: World, op: Op)
    ensures StopAt(w, op) == if !Obstacle(w, op).Finished? then Obstacle(w, op) else if Fatal(w, op) then Halted else Finished
    ensures !Obstacle(w, op).Halted?
  {
  }

  // ---------------------------------------------------------------- when the kernel stops

  /** What stops the kernel however much memory there is: a page mapped without write permission or first
      touched in a region without it; a process without a parent killed, for want of a stack for its
      handler, of a region or of permission; a protection taken from a copy-on-write page; a device
      frame that does not exist; or an export of an absent page. */
  predicate Reckless(w: World, op: Op) {
    match op
    case Map(s, prot) => !prot.writable && !Entry(w.pt, s).IsExternal()
    case Protect(s, prot) => !prot.writable && Entry(w.pt, s).IsCow()
    case IoMap(_, pfn, _) => pfn !in w.frames
    case Export(_, s, _, _) => !Entry(w.pt, s).present
    case Read(s, _, region) =>
      && !Entry(w.pt, s).present
      && if region.Nil? || !CanDeliver(w.pt, w.sig, s.pid) then s.pid in w.roots else !region.Writable()
    case Write(s, _, _, region) =>
      var e := Entry(w.pt, s);
      var refused := e.present && !(e.IsCow() && RefOf(w.frames, e) != 1) && !region.Writable();
      && !WritableAt(w.pt, s)
      && if region.Nil? || !CanDeliver(w.pt, w.sig, s.pid) || refused then s.pid in w.roots else !e.present && !region.Writable()
    case _ => false
  }

  lemma FatalWithRoom(w: World, op: Op)
    requires !NoRoom(w.frames)
    ensures Fatal(w, op) <==> Reckless(w, op)
  {
    hide CanDeliver;
  }

  /** What a caller can see beforehand not to stop the kernel, if there is memory. */
  predicate Harmless(w: World, op: Op) {
    match op
    case Map(_, prot) => prot.writable
    case Protect(_, prot) => prot.writable
    case IoMap(_, pfn, _) => pfn in w.frames
    case Export(_, _, _, _) => false
    case Read(s, _, region) => s.pid !in w.roots && (region.Nil? || region.Writable())
    case Write(s, _, _, region) => s.pid !in w.roots && (region.Nil? || region.Writable())
    case _ => true
  }

  lemma HarmlessIsNot(w0: World, w: World, op: Op)
    requires Harmless(w0, op) && w.frames.Keys == w0.frames.Keys && w.roots <= w0.roots
    ensures !Reckless(w, op)
  {
    hide CanDeliver;
  }

  /** That is exactly what can be seen beforehand: an operation that is not harmless stops the kernel in some
      state with the same frames and no more processes without a parent, memory or not. */
  lemma HarmlessIs(w0: World, op: Op) returns (w: World)
    requires Asked(op)
    ensures !Harmless(w0, op) ==> w.frames.Keys == w0.frames.Keys && w.roots <= w0.roots && Reckless(w, op)
  {
    w := w0;
    match op {
      case Map(s, _) => w := w0.(pt := map[]);
      case Protect(s, _) => w := w0.(pt := map[s := L1e(0, Cow, true, false, true)]);
      case Export(_, _, _, _) => w := w0.(pt := map[]);
      case Read(s, _, region) => w := ReadyBut(w0, s);
      case Write(s, _, _, region) => w := ReadyBut(w0, s);
      case _ =>
    }
  }

  /** A state in which nothing is at page s and its process can have faults delivered, if it has a parent. */
  lemma ReadyBut(w0: World, s: Slot) returns (w: World)
    ensures w.frames == w0.frames && w.roots == w0.roots && !Entry(w.pt, s).present
    ensures s.pid in w0.roots <==> !CanDeliver(w.pt, w.sig, s.pid)
  {
    var v := if s.vpn == USERBASE then COWBASE else USERBASE;
    var stack := Slot(s.pid, v);
    w := w0.(pt := map[stack := L1e(0, Normal, true, true, true)], sig := if s.pid in w0.roots then map[] else map[s.pid := (v + 1) * PAGE_SIZE]);
    if s.pid !in w0.roots {
      StackTop(v);
      ReadyDelivers(w.pt, w.sig, s.pid);
    }
  }

  lemma StackTop(v: Vpn)
    requires v == USERBASE || v == COWBASE
    ensures GoodStack((v + 1) * PAGE_SIZE) && PageAt((v + 1) * PAGE_SIZE - 1) == v
  {
  }

  /** Every operation takes one free frame at most. */
  lemma {:induction false} RoomAfter(ops: seq<Op>, notes: seq<Note>, states: seq<World>, n: nat)
    requires n <= |notes| <= |ops| && |states| == |notes| + 1 && forall i :: 0 <= i < |notes| ==> Link(ops, notes, states, i)
    ensures |FreeFrames(states[n].frames)| >= |FreeFrames(states[0].frames)| - n
    ensures states[n].frames.Keys == states[0].frames.Keys && states[n].roots <= states[0].roots
  {
    if n > 0 {
      RoomAfter(ops, notes, states, n - 1);
      assert Link(ops, notes, states, n - 1);
      OneLess(states[n - 1], ops[n - 1], notes[n - 1], states[n]);
    }
  }

  lemma OneLess(w: World, op: Op, note: Note, w': World)
    requires Did(w, op, note, w')
    ensures |FreeFrames(w'.frames)| >= |FreeFrames(w.frames)| - 1 && w'.frames.Keys == w.frames.Keys && w'.roots <= w.roots
  {
    hide StopAt, FateOf, MarksOk, Machine, Effect;
    FreeFalls(w.frames, w'.frames);
  }

  /** With a free frame for every operation the kernel stops only for what it is asked. */
  lemma StopsAsAsked(w0: World, ops: seq<Op>, why: Stop, notes: seq<Note>, states: seq<World>)
    requires Ran(w0, ops, why, notes, states)
    ensures why.Halted? && |FreeFrames(w0.frames)| >= |ops| ==> Reckless(states[|notes|], ops[|notes|])
    ensures |FreeFrames(w0.frames)| >= |ops| && (forall i :: 0 <= i < |ops| ==> Harmless(w0, ops[i])) ==> !why.Halted?
  {
    hide Link, Reckless, Harmless, Obstacle, Fatal, FreeFrames, NoRoom;
    if why.Halted? && |FreeFrames(w0.frames)| >= |ops| {
      var w, op := states[|notes|], ops[|notes|];
      RoomAfter(ops, notes, states, |notes|);
      RoomLeft(w.frames);
      Stopped(w, op);
      FatalWithRoom(w, op);
      if Harmless(w0, op) { HarmlessIsNot(w0, w, op); }
    }
  }

  // ---------------------------------------------------------------- isolation, as a process meets it

  /** Whatever the others do meanwhile, a process reads back what its memory held before. */
  method ReadBack(k: Kernel, ops: seq<Op>, s: Slot, off: nat, region: Region)
    returns (why: Stop, o: UserSpace.Outcome, ghost notes: seq<Note>, ghost states: seq<World>)
    requires Ready(k) && GoodSlot(s) && off < PAGE_SIZE
    requires forall i :: 0 <= i < |ops| ==> Asked(ops[i]) && !ActsOn(ops[i], s.pid)
    requires s in k.State().view && !k.State().view[s].Device?
    modifies k
    ensures Ran(old(k.Now()), ops, why, notes, states)
    ensures !why.Halted? ==> o == UserSpace.Done(Data(old(k.State()), s)[off])
    ensures |FreeFrames(old(k.frames))| >= |ops| && (forall i :: 0 <= i < |ops| ==> Harmless(old(k.Now()), ops[i])) ==> !why.Halted?
  {
    hide Seen, Devices, Typed, Counted, Exclusive, WireCounted, CowShared, CanDeliver, Link, StopAt, Reckless, HeldSince, LowAll, KeepsOff, Own, Agree, Unmarked, Undisturbed;
    ghost var e0 := k.State();
    var ns, trace;
    why, ns, trace, states := Run(k, ops, map[], {});
    notes := ns;
    o := UserSpace.Crashed;
    if !why.Halted? {
      assert Undisturbed(e0, k.State(), s.pid);
      StillThere(e0, k.State(), s);
      o := ReadByte(k, s, off, region);
    }
  }

  lemma StillThere(e: Eager, e': Eager, s: Slot)
    requires Undisturbed(e, e', s.pid) && s in e.view && !e.view[s].Device?
    ensures s in e'.view && Data(e', s) == Data(e, s)
  {
  }

  /** A page that is there is read without a fault. */
  method ReadByte(k: Kernel, s: Slot, off: nat, region: Region) returns (o: UserSpace.Outcome)
    requires Ready(k) && GoodSlot(s) && off < PAGE_SIZE && s in k.State().view
    modifies k
    ensures o == UserSpace.Done(Data(old(k.State()), s)[off])
  {
    hide Seen, Devices, Typed, Counted, Exclusive, WireCounted, CowShared, CanDeliver;
    SeenAt(k.pt, k.frames, k.mem, k.dmas, s);
    ghost var e1 := k.State();
    var marks;
    o, marks := UserSpace.UserRead(k, s, off, region);
    assert Marked(e1, marks) == e1;
    assert Observed(e1, Read(s, off, region)) == [Data(e1, s)[off]];
  }

  lemma HarmlessAll(w: World, parent: Pid, child: Pid, ops: seq<Op>)
    requires forall i :: 0 <= i < |ops| ==> Harmless(w, ops[i])
    ensures var all := [EagerFork.Fork(parent, child)] + ops; forall i :: 0 <= i < |all| ==> Harmless(w, all[i])
  {
  }

  lemma RanThen(w0: World, op: Op, note: Note, w1: World, ops: seq<Op>, why: Stop, notes: seq<Note>, states: seq<World>)
    requires Did(w0, op, note, w1) && Ran(w1, ops, why, notes, states)
    ensures Ran(w0, [op] + ops, why, [note] + notes, [w0] + states)
  {
    hide Did, StopAt;
    forall i | 0 <= i < |notes| + 1 ensures Link([op] + ops, [note] + notes, [w0] + states, i) {
      if i > 0 { assert Link(ops, notes, states, i - 1); }
    }
  }

  /** What a fork gives the child: whatever its parent and others do after the fork, in every ordinary
      page of the copy-on-write range, and in the page below it, the child reads what the parent's
      page held at the fork. */
  method ChildReads(k: Kernel, parent: Pid, child: Pid, ops: seq<Op>, v: Vpn, off: nat, region: Region)
    returns (why: Stop, o: UserSpace.Outcome, ghost notes: seq<Note>, ghost states: seq<World>)
    requires Ready(k) && parent != child && UserVpn(v) && off < PAGE_SIZE
    requires forall i :: 0 <= i < |ops| ==> Asked(ops[i]) && !ActsOn(ops[i], child)
    requires Slot(parent, v) in k.State().view && (v == USERBASE || k.State().view[Slot(parent, v)].Plain?)
    modifies k
    ensures Ran(old(k.Now()), [EagerFork.Fork(parent, child)] + ops, why, notes, states)
    ensures notes != [] && !why.Halted? ==> o == UserSpace.Done(Data(old(k.State()), Slot(parent, v))[off])
    ensures |FreeFrames(old(k.frames))| > |ops| && (forall i :: 0 <= i < |ops| ==> Harmless(old(k.Now()), ops[i])) && !InUse(old(k.pt), child) ==>
              o == UserSpace.Done(Data(old(k.State()), Slot(parent, v))[off])
  {
    hide Seen, Devices, Typed, Counted, Exclusive, WireCounted, CowShared, Keeps, FreeFrames, Harmless, Reckless, TookOne;
    ghost var w0, fork, all := k.Now(), EagerFork.Fork(parent, child), [EagerFork.Fork(parent, child)] + ops;
    SeenAt(k.pt, k.frames, k.mem, k.dmas, Slot(parent, v));
    ForkChildHas(Machine(w0), parent, child, v);
    o, notes, states := UserSpace.Crashed, [], [w0];
    if InUse(k.pt, child) {
      return ChildInUse, o, notes, states;
    }
    var note, seen;
    why, note, seen := Exec(k, EagerFork.Fork(parent, child));
    if forall i :: 0 <= i < |ops| ==> Harmless(w0, ops[i]) { HarmlessAll(w0, parent, child, ops); }
    if why.Halted? {
      StopsAsAsked(w0, all, why, notes, states);
      return;
    }
    NoMarks(Machine(w0));
    ghost var w1 := k.Now();
    hide Ran, Did;
    why, o, notes, states := ReadBack(k, ops, Slot(child, v), off, region);
    RanThen(w0, fork, note, w1, ops, why, notes, states);
    notes, states := [note] + notes, [w0] + states;
    StopsAsAsked(w0, all, why, notes, states);
  }

  /** A process that can have faults delivered in its low page is not killed for want of delivery: its
      access is killed exactly as the runtime's handler decides. */
  lemma DeliveryNeverFails(k: Kernel, p: Pid)
    requires Ready(k) && LowReady(k.Now(), p)
    ensures CanDeliver(k.pt, k.sig, p)
  {
    ReadyDelivers(k.pt, k.sig, p);
  }
}
