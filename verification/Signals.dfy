/** Delivering a fault to the process: the kernel stores a frame on the stack the process set aside for
    its handler, and the handler runs there. */
module Signals {
  import opened Pae
  import opened FrameSharing
  import opened EagerFork
  import opened PageMap

  /** The size of the frame, and of the stack the runtime sets aside. */
  const FRAME: nat := 24
  const SIGSTACK: nat := 2048

  /** The kernel's check of a range of user addresses. */
  predicate UserRange(a: int, n: nat) { USERBASE * PAGE_SIZE <= a && a + n <= USEREND * PAGE_SIZE && n > 0 }

  predicate UserByte(x: int) { x >= 0 && UserVpn(x / PAGE_SIZE) }

  /** A range passes exactly if it is not empty and every byte of it is in a user page. */
  lemma UserRangeIs(a: int, n: nat)
    ensures UserRange(a, n) <==> n > 0 && forall x :: a <= x < a + n ==> UserByte(x)
  {
    if n > 0 && forall x :: a <= x < a + n ==> UserByte(x) {
      assert UserByte(a) && UserByte(a + n - 1);
    }
  }

  function PageAt(a: nat): Vpn { a / PAGE_SIZE }

  /** A fault can be delivered: there is a handler, its stack has room for a frame within the user's
      addresses, and every page of the frame is there and writable. */
  predicate CanDeliver(pt: PageTables, sig: map<Pid, nat>, pid: Pid) {
    && pid in sig && UserRange(sig[pid] - FRAME, FRAME)
    && forall a: nat :: sig[pid] - FRAME <= a < sig[pid] ==> WritableAt(pt, Slot(pid, PageAt(a)))
  }

  /** The stack lies in one page, and not in the one the handler copies through. */
  predicate GoodStack(sp: nat) {
    SIGSTACK <= sp && PageAt(sp - SIGSTACK) == PageAt(sp - 1) && UserVpn(PageAt(sp - 1)) && PageAt(sp - 1) != VACOW
  }

  ghost predicate StacksOk(sig: map<Pid, nat>) { forall p :: p in sig ==> GoodStack(sig[p]) }

  /** Then it is the stack's page that decides. */
  predicate StackReady(pt: PageTables, sig: map<Pid, nat>, pid: Pid) {
    pid in sig && sig[pid] > 0 && WritableAt(pt, Slot(pid, PageAt(sig[pid] - 1)))
  }

  lemma SamePage(sp: nat, a: nat)
    requires GoodStack(sp) && sp - SIGSTACK <= a < sp
    ensures PageAt(a) == PageAt(sp - 1) && UserRange(sp - FRAME, FRAME)
  {
  }

  lemma ReadyDelivers(pt: PageTables, sig: map<Pid, nat>, pid: Pid)
    requires pid in sig ==> GoodStack(sig[pid])
    ensures CanDeliver(pt, sig, pid) <==> StackReady(pt, sig, pid)
  {
    if pid in sig {
      var sp := sig[pid];
      SamePage(sp, sp - 1);
      forall a: nat | sp - FRAME <= a < sp ensures PageAt(a) == PageAt(sp - 1) {
        SamePage(sp, a);
      }
    }
  }

  /** Set the handler of a process, at ip, to run on the stack below sp. */
  method SetHandler(k: Kernel, pid: Pid, ip: nat, sp: nat) returns (ok: bool)
    modifies k`sig
    ensures ok == (UserRange(ip, 4) && UserRange(sp, FRAME))
    ensures k.sig == if ok then old(k.sig)[pid := sp] else old(k.sig)
  {
    ok := UserRange(ip, 4) && UserRange(sp, FRAME);
    if ok {
      k.sig := k.sig[pid := sp];
    }
  }

  /** A store the hardware lets through. */
  method Store(k: Kernel, s: Slot, off: nat, val: bv8)
    requires k.Valid() && off < PAGE_SIZE && WritableAt(k.pt, s)
    modifies k`mem
    ensures k.Valid() && s in old(k.State()).view
    ensures k.State() == SetData(old(k.State()), s, SetByte(Data(old(k.State()), s), off, val))
  {
    hide Typed, Counted, Exclusive, WireCounted, CowShared, Seen, Devices;
    SeenAt(k.pt, k.frames, k.mem, k.dmas, s);
    var f := Entry(k.pt, s).pfn;
    SeenStore(k.pt, k.frames, k.mem, k.dmas, s, SetByte(k.mem[f], off, val));
    k.mem := k.mem[f := SetByte(k.mem[f], off, val)];
  }

  /** Store bytes as far as the pages allow. */
  method CopyOut(k: Kernel, pid: Pid, addr: nat, bytes: seq<bv8>) returns (n: nat)
    requires k.Valid()
    modifies k`mem
    ensures k.Valid() && n <= |bytes| && k.State() == Stored(old(k.State()), pid, addr, bytes[..n])
    ensures forall a :: addr <= a < addr + n ==> WritableAt(k.pt, Slot(pid, PageAt(a)))
    ensures n < |bytes| ==> !WritableAt(k.pt, Slot(pid, PageAt(addr + n)))
  {
    hide Kernel.Valid, Seen, Devices, SetData, Data;
    n := 0;
    while n < |bytes|
      invariant n <= |bytes| && k.Valid()
      invariant k.State() == Stored(old(k.State()), pid, addr, bytes[..n])
      invariant forall a :: addr <= a < addr + n ==> WritableAt(k.pt, Slot(pid, PageAt(a)))
    {
      var s := Slot(pid, PageAt(addr + n));
      if !WritableAt(k.pt, s) {
        return;
      }
      assert bytes[..n + 1][..n] == bytes[..n];
      Store(k, s, (addr + n) % PAGE_SIZE, bytes[n]);
      n := n + 1;
    }
    assert bytes[..n] == bytes;
  }

  /** Store the frame of a fault below the top of the handler's stack.  It succeeds exactly if the fault
      can be delivered; otherwise the process dies, with as much of the frame stored as the pages
      allowed. */
  method Deliver(k: Kernel, pid: Pid, frame: seq<bv8>) returns (ok: bool, marks: seq<Mark>)
    requires k.Valid() && |frame| == FRAME
    modifies k`mem
    ensures k.Valid() && ok == CanDeliver(k.pt, k.sig, pid)
    ensures k.State() == Marked(old(k.State()), marks)
    ensures ok ==> marks == [Mark(pid, k.sig[pid] - 24, frame)]
    ensures !ok ==> marks == [] || exists n: nat :: StoppedAt(k, pid, frame, n) && marks == [Mark(pid, k.sig[pid] - FRAME, frame[..n])]
  {
    hide Kernel.Valid, Seen, Devices, Stored;
    if pid !in k.sig || !UserRange(k.sig[pid] - FRAME, FRAME) {
      return false, [];
    }
    var usp := k.sig[pid] - FRAME;
    var n := CopyOut(k, pid, usp, frame);
    marks := [Mark(pid, usp, frame[..n])];
    OneMark(old(k.State()), marks[0]);
    assert frame[..FRAME] == frame;
    ok := n == FRAME;
    assert !ok ==> StoppedAt(k, pid, frame, n);
  }

  /** The first n bytes of the frame are in pages that can be written, and the next one is not. */
  ghost predicate StoppedAt(k: Kernel, pid: Pid, frame: seq<bv8>, n: nat)
    reads k
  {
    && n < |frame| == FRAME && pid in k.sig && k.sig[pid] >= FRAME
    && (forall a :: k.sig[pid] - FRAME <= a < k.sig[pid] - FRAME + n ==> WritableAt(k.pt, Slot(pid, PageAt(a))))
    && !WritableAt(k.pt, Slot(pid, PageAt(k.sig[pid] - FRAME + n)))
  }

  lemma OneMark(e: Eager, m: Mark)
    ensures Marked(e, [m]) == Stored(e, m.pid, m.addr, m.bytes)
  {
    assert [m][..0] == [];
  }

  /** Deliver a fault and run the handler as far as it stores on its stack: anything, anywhere in it.  On a
      stack in one page a fault that cannot be delivered leaves nothing. */
  method SignalFault(k: Kernel, pid: Pid) returns (ok: bool, marks: seq<Mark>)
    requires k.Valid() && (pid in k.sig ==> GoodStack(k.sig[pid]))
    modifies k`mem
    ensures k.Valid() && ok == CanDeliver(k.pt, k.sig, pid)
    ensures k.State() == Marked(old(k.State()), marks) && LeftBy(k.pt, k.sig, pid, marks)
  {
    hide Kernel.Valid, Seen, Devices;
    var frame := Anything(FRAME);
    var scratch := Anything(SIGSTACK);
    ReadyDelivers(k.pt, k.sig, pid);
    ok, marks := Deliver(k, pid, frame);
    if !ok {
      NothingStored(k, pid, frame, marks, old(k.State()));
      marks := [];
      return;
    }
    var sp := k.sig[pid];
    forall a | sp - SIGSTACK <= a < sp ensures PageAt(a) == PageAt(sp - 1) {
      SamePage(sp, a);
    }
    ghost var e1 := k.State();
    var n := CopyOut(k, pid, sp - SIGSTACK, scratch);
    assert n == SIGSTACK && scratch[..n] == scratch;
    var m := Mark(pid, sp - SIGSTACK, scratch);
    assert (marks + [m])[..|marks|] == marks;
    marks := marks + [m];
  }

  /** On a stack in one page delivery fails before the first byte. */
  lemma NothingStored(k: Kernel, pid: Pid, frame: seq<bv8>, marks: seq<Mark>, e: Eager)
    requires pid in k.sig ==> GoodStack(k.sig[pid])
    requires !CanDeliver(k.pt, k.sig, pid)
    requires marks == [] || exists n: nat :: StoppedAt(k, pid, frame, n) && marks == [Mark(pid, k.sig[pid] - FRAME, frame[..n])]
    ensures Marked(e, marks) == e
  {
    hide Stored;
    ReadyDelivers(k.pt, k.sig, pid);
    if marks != [] {
      var n: nat :| StoppedAt(k, pid, frame, n) && marks == [Mark(pid, k.sig[pid] - FRAME, frame[..n])];
      SamePage(k.sig[pid], k.sig[pid] - FRAME);
      OneMark(e, marks[0]);
      StoredNothing(e, pid, k.sig[pid] - FRAME);
    }
  }

  lemma StoredNothing(e: Eager, pid: Pid, addr: nat)
    ensures Stored(e, pid, addr, []) == e
  {
  }

  /** What a fault delivered to a handler with the top of its stack at sp leaves: the frame below the
      top, and then what the handler has put anywhere in the stack. */
  predicate FaultMarks(sp: nat, pid: Pid, marks: seq<Mark>) {
    && |marks| == 2 && marks[0].pid == pid && marks[1].pid == pid
    && marks[0].addr == sp - FRAME && |marks[0].bytes| == FRAME
    && marks[1].addr == sp - SIGSTACK && |marks[1].bytes| == SIGSTACK
  }

  /** What a fault of a process leaves: that if it can be delivered, or nothing. */
  predicate LeftBy(pt: PageTables, sig: map<Pid, nat>, pid: Pid, marks: seq<Mark>) {
    if CanDeliver(pt, sig, pid) then FaultMarks(sig[pid], pid, marks) else marks == []
  }

  /** Bytes nobody can say anything about. */
  method Anything(n: nat) returns (bytes: seq<bv8>)
    ensures |bytes| == n
  {
    bytes := [];
    while |bytes| < n
      invariant |bytes| <= n
    {
      var b: bv8 := *;
      bytes := bytes + [b];
    }
  }

  lemma {:induction false} MarkedKeys(e: Eager, marks: seq<Mark>)
    ensures Marked(e, marks).view.Keys == e.view.Keys
  {
    if marks != [] {
      var n := |marks| - 1;
      MarkedKeys(e, marks[..n]);
      PutKeys(Marked(e, marks[..n]), marks[n].pid, marks[n].addr, marks[n].bytes);
    }
  }

  lemma {:induction false} PutKeys(e: Eager, pid: Pid, addr: nat, bytes: seq<bv8>)
    ensures Stored(e, pid, addr, bytes).view.Keys == e.view.Keys
  {
    if bytes != [] { PutKeys(e, pid, addr, bytes[..|bytes| - 1]); }
  }
}
