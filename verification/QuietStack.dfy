/** What the storing of fault frames can be seen by: machines that agree on every byte outside the
    addresses processes reserve for the stacks their fault handlers run on go on agreeing there. */
module QuietStack {
  import opened Pae
  import opened FrameSharing
  import opened EagerFork
  import opened Signals

  /** The addresses each process reserves. */
  type Reserve = map<Pid, set<nat>>
  function Res(R: Reserve, p: Pid): set<nat> { if p in R then R[p] else {} }

  /** Address o of page s is not reserved by its process. */
  ghost predicate Open(R: Reserve, s: Slot, o: nat) { s.vpn * PAGE_SIZE + o !in Res(R, s.pid) }

  ghost predicate Clean(R: Reserve, s: Slot) { forall o: nat :: o < PAGE_SIZE ==> Open(R, s, o) }

  ghost predicate SameBytes(R: Reserve, s: Slot, d: Page, d': Page) {
    forall o: nat :: o < PAGE_SIZE && Open(R, s, o) ==> d[o] == d'[o]
  }

  ghost predicate Alike(R: Reserve, s: Slot, x: VPage, y: VPage) {
    match x
    case Plain(d) => y.Plain? && SameBytes(R, s, d, y.data)
    case Pinned(d) => y.Pinned? && SameBytes(R, s, d, y.data)
    case Device(f) => y == x && Clean(R, s)
  }

  /** The machines agree outside the reserved addresses, where no device memory is mapped. */
  ghost predicate Agree(R: Reserve, a: Eager, b: Eager) {
    && a.view.Keys == b.view.Keys && a.dev == b.dev && a.dmas == b.dmas
    && forall s :: s in a.view ==> Alike(R, s, a.view[s], b.view[s])
  }

  ghost predicate NoDevice(R: Reserve, e: Eager) { forall s :: s in e.view && e.view[s].Device? ==> Clean(R, s) }

  /** An operation that does not read bytes its process reserves, and does not move pages that have some
      or map devices over them; and a child reserves what its parent does. */
  ghost predicate Off(R: Reserve, op: Op) {
    match op
    case Fork(p, c) => Res(R, p) <= Res(R, c)
    case Read(s, off, _) => Open(R, s, off)
    case Move(pid, dst, src) => Clean(R, Slot(pid, dst)) && Clean(R, Slot(pid, src))
    case IoMap(s, _, _) => Clean(R, s)
    case _ => true
  }

  ghost predicate Within(R: Reserve, m: Mark) { forall a :: m.addr <= a < m.addr + |m.bytes| ==> a in Res(R, m.pid) }

  lemma AgreeSelf(R: Reserve, e: Eager)
    requires NoDevice(R, e)
    ensures Agree(R, e, e)
  {
  }

  lemma AddressSplit(a: nat)
    ensures a / PAGE_SIZE * PAGE_SIZE + a % PAGE_SIZE == a && a % PAGE_SIZE < PAGE_SIZE
  {
  }

  /** A reserved byte may change. */
  lemma PutAgrees(R: Reserve, a: Eager, b: Eager, pid: Pid, addr: nat, val: bv8)
    requires Agree(R, a, b) && addr in Res(R, pid)
    ensures Agree(R, PutByte(a, pid, addr, val), b)
  {
    var s := Slot(pid, addr / PAGE_SIZE);
    AddressSplit(addr);
    assert !Open(R, s, addr % PAGE_SIZE);
    if s in a.view { assert Alike(R, s, a.view[s], b.view[s]); }
  }

  lemma {:induction false} StoredAgrees(R: Reserve, a: Eager, b: Eager, m: Mark)
    requires Agree(R, a, b) && Within(R, m)
    ensures Agree(R, Stored(a, m.pid, m.addr, m.bytes), b)
    decreases |m.bytes|
  {
    hide Agree, PutByte;
    if m.bytes != [] {
      var n := |m.bytes| - 1;
      StoredAgrees(R, a, b, m.(bytes := m.bytes[..n]));
      PutAgrees(R, Stored(a, m.pid, m.addr, m.bytes[..n]), b, m.pid, m.addr + n, m.bytes[n]);
    }
  }

  lemma {:induction false} MarkedAgrees(R: Reserve, a: Eager, b: Eager, marks: seq<Mark>)
    requires Agree(R, a, b) && forall m :: m in marks ==> Within(R, m)
    ensures Agree(R, Marked(a, marks), b)
  {
    if marks != [] {
      var n := |marks| - 1;
      MarkedAgrees(R, a, b, marks[..n]);
      StoredAgrees(R, Marked(a, marks[..n]), b, marks[n]);
    }
  }

  // ---------------------------------------------------------------- steps

  lemma CleanSame(R: Reserve, s: Slot, d: Page, d': Page)
    requires Clean(R, s) && SameBytes(R, s, d, d')
    ensures d == d'
  {
  }

  lemma DataAgrees(R: Reserve, a: Eager, b: Eager, s: Slot)
    requires Agree(R, a, b) && s in a.view
    ensures SameBytes(R, s, Data(a, s), Data(b, s))
  {
    assert Alike(R, s, a.view[s], b.view[s]);
  }

  /** What agrees outside a set agrees outside a larger one. */
  lemma SameForHeir(R: Reserve, q: Slot, s: Slot, d: Page, d': Page)
    requires q.vpn == s.vpn && Res(R, q.pid) <= Res(R, s.pid) && SameBytes(R, q, d, d')
    ensures SameBytes(R, s, d, d')
  {
    forall o: nat | o < PAGE_SIZE && Open(R, s, o) ensures d[o] == d'[o] {
      assert Open(R, q, o);
    }
  }

  lemma ForkAgrees(R: Reserve, a: Eager, b: Eager, p: Pid, c: Pid)
    requires Agree(R, a, b) && Res(R, p) <= Res(R, c)
    ensures Agree(R, ForkCopy(a, p, c), ForkCopy(b, p, c))
  {
    hide SameBytes, Clean, Res;
    var low := Slot(p, USERBASE);
    assert Heirs(a.view, p, c, COWBASE, USEREND) == Heirs(b.view, p, c, COWBASE, USEREND) by {
      assert forall s :: s in a.view ==> Alike(R, s, a.view[s], b.view[s]);
    }
    var va, vb := a.view + Inherited(a.view, p, c, COWBASE, USEREND), b.view + Inherited(b.view, p, c, COWBASE, USEREND);
    forall s | s in va ensures s in vb && Alike(R, s, va[s], vb[s]) {
      var q := Slot(p, s.vpn);
      assert s in a.view ==> Alike(R, s, a.view[s], b.view[s]);
      if s in Inherited(a.view, p, c, COWBASE, USEREND) {
        assert Alike(R, q, a.view[q], b.view[q]);
        SameForHeir(R, q, s, a.view[q].data, b.view[q].data);
      }
    }
    if low in a.view {
      DataAgrees(R, a, b, low);
      SameForHeir(R, low, Slot(c, USERBASE), Data(a, low), Data(b, low));
    }
  }

  lemma TouchAgrees(R: Reserve, a: Eager, b: Eager, s: Slot)
    requires Agree(R, a, b)
    ensures Agree(R, Touch(a, s), Touch(b, s))
  {
    hide Clean;
    assert SameBytes(R, s, ZeroPage(), ZeroPage());
  }

  lemma SetAgrees(R: Reserve, a: Eager, b: Eager, s: Slot, off: nat, val: bv8)
    requires Agree(R, a, b) && s in a.view && off < PAGE_SIZE
    ensures Agree(R, SetData(a, s, SetByte(Data(a, s), off, val)), SetData(b, s, SetByte(Data(b, s), off, val)))
  {
    hide Open;
    assert Alike(R, s, a.view[s], b.view[s]);
    DataAgrees(R, a, b, s);
  }

  lemma WriteAgrees(R: Reserve, a: Eager, b: Eager, s: Slot, off: nat, val: bv8, region: Region)
    requires Agree(R, a, b)
    ensures Agree(R, Step(a, Write(s, off, val, region)), Step(b, Write(s, off, val, region)))
  {
    hide Alike, SetData;
    TouchAgrees(R, a, b, s);
    if off < PAGE_SIZE { SetAgrees(R, Touch(a, s), Touch(b, s), s, off, val); }
  }

  lemma MoveAgrees(R: Reserve, a: Eager, b: Eager, dst: Slot, src: Slot)
    requires Agree(R, a, b) && Clean(R, dst) && Clean(R, src)
    ensures Agree(R, MovePage(a, dst, src), MovePage(b, dst, src))
  {
    assert dst in a.view ==> Alike(R, dst, a.view[dst], b.view[dst]);
    if src in a.view {
      assert Alike(R, src, a.view[src], b.view[src]);
      if a.view[src].Plain? { CleanSame(R, src, a.view[src].data, b.view[src].data); }
      assert a.view[src].Plain? ==> Alike(R, dst, a.view[src], b.view[src]);
    }
  }

  lemma ReleaseAgrees(R: Reserve, a: Eager, b: Eager, i: nat)
    requires Agree(R, a, b)
    ensures Agree(R, Release(a, i), Release(b, i))
  {
    hide SameBytes, Clean, CountSlot;
    if i < |a.dmas| && a.dmas[i].slot in a.view {
      var s := a.dmas[i].slot;
      assert Alike(R, s, a.view[s], b.view[s]);
    }
  }

  lemma {:induction false} CloseAgrees(R: Reserve, a: Eager, b: Eager, client: nat, i: nat)
    requires Agree(R, a, b)
    ensures Agree(R, ReleaseClient(a, client, i), ReleaseClient(b, client, i))
    decreases |a.dmas| - i
  {
    hide Agree, Release;
    SameRecords(R, a, b);
    if i < |a.dmas| {
      if a.dmas[i].client == client {
        ReleaseAgrees(R, a, b, i);
        ReleaseShrinks(a, i);
        CloseAgrees(R, Release(a, i), Release(b, i), client, i);
      } else {
        CloseAgrees(R, a, b, client, i + 1);
      }
    }
  }

  lemma ReleaseShrinks(e: Eager, i: nat)
    requires i < |e.dmas|
    ensures |Release(e, i).dmas| < |e.dmas|
  {
  }

  lemma ClearAgrees(R: Reserve, a: Eager, b: Eager, pid: Pid, lo: Vpn, hi: Vpn)
    requires Agree(R, a, b)
    ensures Agree(R, ClearTo(a, pid, lo, hi), ClearTo(b, pid, lo, hi))
  {
    hide Clean, SameBytes;
    assert forall s :: s in a.view ==> Alike(R, s, a.view[s], b.view[s]);
    assert ClearTo(a, pid, lo, hi).view.Keys == ClearTo(b, pid, lo, hi).view.Keys;
  }

  lemma MapAgrees(R: Reserve, a: Eager, b: Eager, op: Op)
    requires Agree(R, a, b) && Off(R, op) && (op.Map? || op.Unmap? || op.IoMap? || op.IoUnmap?)
    ensures Agree(R, Step(a, op), Step(b, op))
  {
    hide Clean;
    assert op.s in a.view ==> Alike(R, op.s, a.view[op.s], b.view[op.s]);
    assert SameBytes(R, op.s, ZeroPage(), ZeroPage());
  }

  lemma RestAgrees(R: Reserve, a: Eager, b: Eager, op: Op)
    requires Agree(R, a, b) && (op.Protect? || op.Export? || op.Handler?)
    ensures Agree(R, Step(a, op), Step(b, op))
  {
    hide Clean, OnePage, SameBytes;
    if op.Export? { assert op.s in a.view ==> Alike(R, op.s, a.view[op.s], b.view[op.s]); }
  }

  lemma StepAgrees(R: Reserve, a: Eager, b: Eager, op: Op)
    requires Agree(R, a, b) && Off(R, op)
    ensures Agree(R, Step(a, op), Step(b, op)) && Observed(a, op) == Observed(b, op)
  {
    hide Agree, SameBytes, Alike, Clean, ForkCopy, MovePage, ClearTo, ReleaseClient, Release, Touch;
    match op {
      case Fork(p, c) => ForkAgrees(R, a, b, p, c);
      case Move(pid, dst, src) => MoveAgrees(R, a, b, Slot(pid, dst), Slot(pid, src));
      case Read(s, off, region) =>
        TouchAgrees(R, a, b, s);
        ReadSame(R, a, b, s, off);
      case Write(s, off, val, region) => WriteAgrees(R, a, b, s, off, val, region);
      case Unexport(client, s, off) =>
        SameRecords(R, a, b);
        ReleaseAgrees(R, a, b, FindDma(a.dmas, Dma(client, s, off)));
      case Close(client) => CloseAgrees(R, a, b, client, 0);
      case Clear(pid, lo, hi) => ClearAgrees(R, a, b, pid, lo, hi);
      case Protect(_, _) => RestAgrees(R, a, b, op);
      case Export(_, _, _, _) => RestAgrees(R, a, b, op);
      case Handler(_, _, _) => RestAgrees(R, a, b, op);
      case _ => MapAgrees(R, a, b, op);
    }
  }

  lemma SameRecords(R: Reserve, a: Eager, b: Eager)
    requires Agree(R, a, b)
    ensures a.dmas == b.dmas
  {
  }

  lemma ReadSame(R: Reserve, a: Eager, b: Eager, s: Slot, off: nat)
    requires Agree(R, a, b) && Open(R, s, off)
    ensures s in Touch(a, s).view && s in Touch(b, s).view
    ensures off < PAGE_SIZE ==> Data(Touch(a, s), s)[off] == Data(Touch(b, s), s)[off]
  {
    TouchAgrees(R, a, b, s);
    DataAgrees(R, Touch(a, s), Touch(b, s), s);
  }

  // ---------------------------------------------------------------- runs

  function Unmarked(notes: seq<Note>): seq<Note> { seq(|notes|, i requires 0 <= i < |notes| => Note(notes[i].fate, [])) }

  /** Take every stored frame away from a run that keeps off the reserved addresses: the machine is the
      same outside them, and every byte read is the same. */
  lemma {:induction false} FramesUnseen(R: Reserve, e: Eager, ops: seq<Op>, notes: seq<Note>)
    requires |notes| == |ops| && NoDevice(R, e)
    requires forall i :: 0 <= i < |ops| ==> Off(R, ops[i]) && forall m :: m in notes[i].marks ==> Within(R, m)
    ensures Agree(R, Run(e, ops, notes), Run(e, ops, Unmarked(notes)))
    ensures Trace(e, ops, notes) == Trace(e, ops, Unmarked(notes))
    decreases |ops|
  {
    hide Agree, Step, Observed, NoDevice, Off, Within;
    if ops == [] {
      AgreeSelf(R, e);
    } else {
      var n := |ops| - 1;
      FramesUnseen(R, e, ops[..n], notes[..n]);
      assert Unmarked(notes)[..n] == Unmarked(notes[..n]);
      var a, b := Run(e, ops[..n], notes[..n]), Run(e, ops[..n], Unmarked(notes[..n]));
      MarkedAgrees(R, a, b, notes[n].marks);
      StepAgrees(R, Marked(a, notes[n].marks), b, ops[n]);
    }
  }

  /** On the stack itself a frame is seen: a process writes a page it shares with its child, which takes a
      fault, and then reads the byte at the top of the stack its handler has run on.  It reads what the
      handler left there, and nothing on a machine without the frame. */
  lemma FrameSeen(marks: seq<Mark>)
    requires FaultMarks(PAGE_SIZE + SIGSTACK, 0, marks) && marks[1].bytes[SIGSTACK - 1] != 0
    ensures var low, page := Slot(0, USERBASE), Slot(0, COWBASE);
            var e := Eager(map[low := Plain(ZeroPage()), page := Plain(ZeroPage())], map[], []);
            var ops := [Fork(0, 1), Write(page, 0, 1, Rw), Read(low, SIGSTACK - 1, Rw)];
            var notes := [Note(Granted, []), Note(Granted, marks), Note(Granted, [])];
            && Trace(e, ops, notes) == [marks[1].bytes[SIGSTACK - 1]]
            && Trace(e, ops, Unmarked(notes)) == [0]
  {
    var e := Eager(map[Slot(0, USERBASE) := Plain(ZeroPage()), Slot(0, COWBASE) := Plain(ZeroPage())], map[], []);
    SeenAfter(e, marks);
    SeenAfter(e, []);
    var none := Note(Granted, []);
    assert Unmarked([none, Note(Granted, marks), none]) == [none, none, none];
  }

  /** The byte at the top of the stack after the marks. */
  function Top(marks: seq<Mark>): bv8
    requires marks == [] || FaultMarks(PAGE_SIZE + SIGSTACK, 0, marks)
  {
    if marks == [] then 0 else marks[1].bytes[SIGSTACK - 1]
  }

  lemma SeenAfter(e: Eager, marks: seq<Mark>)
    requires e == Eager(map[Slot(0, USERBASE) := Plain(ZeroPage()), Slot(0, COWBASE) := Plain(ZeroPage())], map[], [])
    requires marks == [] || FaultMarks(PAGE_SIZE + SIGSTACK, 0, marks)
    ensures Trace(e, [Fork(0, 1), Write(Slot(0, COWBASE), 0, 1, Rw), Read(Slot(0, USERBASE), SIGSTACK - 1, Rw)],
                  [Note(Granted, []), Note(Granted, marks), Note(Granted, [])]) == [Top(marks)]
  {
    var f, w, r := Fork(0, 1), Write(Slot(0, COWBASE), 0, 1, Rw), Read(Slot(0, USERBASE), SIGSTACK - 1, Rw);
    var n, m := Note(Granted, []), Note(Granted, marks);
    var e1 := Step(e, f);
    AfterMarks(e1, marks);
    assert [f, w, r][..2] == [f, w] && [n, m, n][..2] == [n, m] && [f, w][..1] == [f] && [n, m][..1] == [n];
    assert [f][..0] == [] && [n][..0] == [];
    hide Step, Observed, Marked, Top;
    assert Marked(e, []) == e && Marked(e1, []) == e1 by { NoMarks(e); NoMarks(e1); }
    assert Run(e, [], []) == e && Trace(e, [], []) == [];
    assert Run(e, [f], [n]) == e1 && Trace(e, [f], [n]) == [] by { Quiet(e, f); }
    var e2 := Step(Marked(e1, marks), w);
    NoMarks(e2);
    Quiet(Marked(e1, marks), w);
    assert Run(e, [f, w], [n, m]) == e2 && Trace(e, [f, w], [n, m]) == [];
  }

  lemma Quiet(e: Eager, op: Op)
    requires !op.Read?
    ensures Observed(e, op) == []
  {
  }

  lemma AfterMarks(e1: Eager, marks: seq<Mark>)
    requires Slot(0, USERBASE) in e1.view && e1.view[Slot(0, USERBASE)] == Plain(ZeroPage())
    requires Slot(0, COWBASE) in e1.view && e1.view[Slot(0, COWBASE)].Plain?
    requires marks == [] || FaultMarks(PAGE_SIZE + SIGSTACK, 0, marks)
    ensures Observed(Step(Marked(e1, marks), Write(Slot(0, COWBASE), 0, 1, Rw)), Read(Slot(0, USERBASE), SIGSTACK - 1, Rw)) == [Top(marks)]
  {
    hide Stored;
    var low, page, e2 := Slot(0, USERBASE), Slot(0, COWBASE), Marked(e1, marks);
    if marks != [] {
      assert marks[..1] == [marks[0]] && marks[..1][..0] == [];
      var m := Stored(e1, 0, marks[0].addr, marks[0].bytes);
      StoredPlain(e1, 0, marks[0].addr, marks[0].bytes, low);
      StoredPlain(e1, 0, marks[0].addr, marks[0].bytes, page);
      StoredPlain(m, 0, PAGE_SIZE, marks[1].bytes, page);
      LastByte(m, low, marks[1].bytes);
      assert Marked(e1, marks[..1]) == m && e2 == Stored(m, 0, PAGE_SIZE, marks[1].bytes);
    }
    assert e2.view[low].Plain? && e2.view[page].Plain? && e2.view[low].data[SIGSTACK - 1] == Top(marks);
  }

  lemma {:induction false} StoredPlain(e: Eager, pid: Pid, addr: nat, bytes: seq<bv8>, s: Slot)
    requires s in e.view && e.view[s].Plain?
    ensures s in Stored(e, pid, addr, bytes).view && Stored(e, pid, addr, bytes).view[s].Plain?
  {
    if bytes != [] { StoredPlain(e, pid, addr, bytes[..|bytes| - 1], s); }
  }

  /** The last of the bytes stored from the start of the low page is there to be read. */
  lemma LastByte(e: Eager, low: Slot, bytes: seq<bv8>)
    requires low.vpn == USERBASE && low in e.view && e.view[low].Plain? && 0 < |bytes| <= PAGE_SIZE
    ensures var e' := Stored(e, low.pid, PAGE_SIZE, bytes);
            low in e'.view && e'.view[low].Plain? && e'.view[low].data[|bytes| - 1] == bytes[|bytes| - 1]
  {
    var n := |bytes| - 1;
    StoredPlain(e, low.pid, PAGE_SIZE, bytes[..n], low);
    assert (PAGE_SIZE + n) / PAGE_SIZE == USERBASE && (PAGE_SIZE + n) % PAGE_SIZE == n;
  }
}
