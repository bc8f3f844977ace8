/** Hardware devices: exporting a page to a device wires it, and each export leaves a record. */
module HwExport {
  import opened Pae
  import opened FrameSharing
  import opened EagerFork
  import opened PageMap
  import opened ThreadFork

  /** Export sz bytes at an address.  A range that does not end in the page it starts in is refused.
      The device gets the page's own frame.  Every invariant is kept if nothing else maps the frame,
      as of a page that is not copy-on-write; of one that is, "writable means exclusive" is kept only
      then. */
  method Export(k: Kernel, client: nat, s: Slot, off: nat, sz: nat) returns (r: Result, pfn: Pfn)
    requires k.Valid() && UserVpn(s.vpn)
    modifies k`pt, k`frames, k`dmas
    ensures r == var e := Entry(old(k.pt), s);
                 if !OnePage(s, off, sz) then EINVAL else if e.IsIomap() then EBUSY else if !e.present then Panic else Ok
    ensures r.EINVAL? || r.EBUSY? ==> k.pt == old(k.pt) && k.frames == old(k.frames) && k.dmas == old(k.dmas)
    ensures r.Ok? ==> pfn == Entry(old(k.pt), s).pfn && k.pt == old(k.pt)[s := Entry(old(k.pt), s).MkWired()]
    ensures r.Ok? ==> k.dmas == [Dma(client, s, off)] + old(k.dmas)
    ensures !r.Panic? && (r.Ok? ==> Mappings(old(k.pt), pfn) == {s}) ==>
              && k.Valid() && k.CowKept(old(k.pt), old(k.frames))
              && k.State() == Step(old(k.State()), EagerFork.Export(client, s, off, sz))
    ensures r.Ok? && !Entry(old(k.pt), s).IsCow() ==> Mappings(old(k.pt), pfn) == {s}
    ensures r.Ok? ==> (Exclusive(k.pt) <==> Mappings(old(k.pt), pfn) == {s})
    ensures NoneTaken(old(k.frames), k.frames)
  {
    hide Typed, Counted, Exclusive, WireCounted, CowShared, Seen, Devices;
    var e := Entry(k.pt, s);
    pfn := e.pfn;
    SeenAt(k.pt, k.frames, k.mem, k.dmas, s);
    if !OnePage(s, off, sz) {
      return EINVAL, pfn;
    }
    EntryIsOk(k.pt, k.frames, s);
    if e.MapsFrame() {
      if !e.IsCow() {
        SoleMapping(k.pt, s);
      } else {
        WiringCow(k.pt, s);
      }
      if Mappings(k.pt, pfn) == {s} {
        WireKeeps(k.pt, k.frames, k.dmas, s, Dma(client, s, off));
        AbsWire(k.pt, k.frames, k.mem, k.dmas, s, Dma(client, s, off), sz);
        WireKeepsCow(k.pt, k.frames, s);
      }
    }
    r := k.UWire(s);
    if !r.Ok? {
      return;
    }
    if !Entry(k.pt, s).IsExternal() {
      // No physical address to hand out: undoing the wiring fails too, and the kernel stops.
      r := Panic;
      return;
    }
    k.dmas := [Dma(client, s, off)] + k.dmas;
  }

  lemma WireKeepsCow(pt: PageTables, frames: Frames, s: Slot)
    requires s in pt && pt[s].pfn in frames
    ensures CowShared(pt, frames) ==> CowShared(pt[s := pt[s].MkWired()], WireUp(frames, pt[s].pfn))
  {
  }

  lemma AbsWire(pt: PageTables, frames: Frames, mem: Memory, dmas: seq<Dma>, s: Slot, d: Dma, sz: nat)
    requires Inv(pt, frames) && frames.Keys == mem.Keys && s in pt && pt[s].MapsFrame()
    requires pt[s].pfn in frames && d.slot == s && OnePage(s, d.off, sz)
    ensures Abs(pt[s := pt[s].MkWired()], WireUp(frames, pt[s].pfn), mem, [d] + dmas)
            == Step(Abs(pt, frames, mem, dmas), EagerFork.Export(d.client, s, d.off, sz))
  {
    SeenAt(pt, frames, mem, dmas, s);
    SeenSet(pt, mem, s, pt[s].MkWired());
    assert Devices(WireUp(frames, pt[s].pfn), mem) == Devices(frames, mem);
  }

  /** The last record of a page whose wire count did not start from zero. */
  predicate Sticks(pt: PageTables, frames: Frames, dmas: seq<Dma>, i: nat)
    requires i < |dmas|
  {
    BaseOf(pt, frames, dmas[i].slot) != 0 && CountSlot(WithoutAt(dmas, i), dmas[i].slot) == 0
  }

  /** Client c has page s exported. */
  ghost predicate Held(dmas: seq<Dma>, c: nat, s: Slot) { exists i :: 0 <= i < |dmas| && dmas[i].client == c && dmas[i].slot == s }

  /** If client c had page s exported it has still, and the page's entry is the same, the frame in it
      included. */
  ghost predicate StillHeld(pt0: PageTables, dmas0: seq<Dma>, pt: PageTables, dmas: seq<Dma>, c: nat, s: Slot) {
    Held(dmas0, c, s) ==> Held(dmas, c, s) && Entry(pt, s) == Entry(pt0, s)
  }

  lemma HeldIsWired(pt: PageTables, frames: Frames, dmas: seq<Dma>, c: nat, s: Slot)
    requires WireCounted(pt, frames, dmas) && Held(dmas, c, s)
    ensures Entry(pt, s).IsWired()
  {
  }

  lemma ReleaseHolds(pt: PageTables, base: nat, dmas: seq<Dma>, i: nat, c: nat, s: Slot)
    requires i < |dmas| && dmas[i].slot in pt && !(c == dmas[i].client && s == dmas[i].slot)
    ensures StillHeld(pt, dmas, Unwired(pt, base, dmas[i].slot, WithoutAt(dmas, i)), WithoutAt(dmas, i), c, s)
  {
    hide CountSlot;
    var left := WithoutAt(dmas, i);
    if Held(dmas, c, s) {
      var j :| 0 <= j < |dmas| && dmas[j].client == c && dmas[j].slot == s;
      var m := if j < i then j else j - 1;
      assert left[m] == dmas[j];
      CountSlotPositive(left, m);
    }
  }

  /** Drop record i and the wiring it stands for: the assertion that the page is still wired never
      fails, and the last record of a page restores a normal entry with the frame and protection
      it had, unless the frame's wire count did not start from zero: then the page stays wired. */
  method ReleaseAt(k: Kernel, i: nat)
    requires k.Valid() && i < |k.dmas|
    requires UserVpn(k.dmas[i].slot.vpn)
    modifies k`pt, k`frames, k`dmas
    ensures k.Valid() && k.CowKept(old(k.pt), old(k.frames)) && SameTypes(old(k.frames), k.frames)
    ensures k.dmas == WithoutAt(old(k.dmas), i)
    ensures forall t :: BaseOf(k.pt, k.frames, t) == BaseOf(old(k.pt), old(k.frames), t)
    ensures k.State() == Release(old(k.State()), i) <==> !Sticks(old(k.pt), old(k.frames), old(k.dmas), i)
    ensures var s := old(k.dmas)[i].slot;
            && s in old(k.pt) && old(k.pt)[s].IsWired()
            && k.pt == Unwired(old(k.pt), BaseOf(old(k.pt), old(k.frames), s), s, k.dmas)
    ensures forall t :: WritableAt(k.pt, t) <==> WritableAt(old(k.pt), t)
    ensures forall c, t :: !(c == old(k.dmas)[i].client && t == old(k.dmas)[i].slot) ==>
              StillHeld(old(k.pt), old(k.dmas), k.pt, k.dmas, c, t)
  {
    hide Typed, Counted, Exclusive, WireCounted, CowShared, Seen, Devices, CountSlot;
    var s := k.dmas[i].slot;
    ghost var base := BaseOf(k.pt, k.frames, s);
    RecordIsWired(k.pt, k.frames, k.dmas, i);
    UnwireKeepsInv(k.pt, k.frames, base, s, WithoutAt(k.dmas, i));
    UnwireKeepsWires(k.pt, k.frames, k.dmas, i);
    UnwireKeepsCow(k.pt, k.frames, base, s, WithoutAt(k.dmas, i));
    AbsUnwire(k.pt, k.frames, k.mem, k.dmas, i);
    forall c, t | !(c == k.dmas[i].client && t == s)
      ensures StillHeld(k.pt, k.dmas, Unwired(k.pt, base, s, WithoutAt(k.dmas, i)), WithoutAt(k.dmas, i), c, t)
    {
      ReleaseHolds(k.pt, base, k.dmas, i, c, t);
    }
    hide StillHeld;
    var r := k.UUnwire(s);
    assert r.Ok?;
    k.dmas := WithoutAt(k.dmas, i);
  }

  lemma UnwireKeepsCow(pt: PageTables, frames: Frames, base: nat, s: Slot, left: seq<Dma>)
    requires s in pt && pt[s].IsWired() && pt[s].pfn in frames
    ensures CowShared(pt, frames) ==> CowShared(Unwired(pt, base, s, left), WireDown(frames, pt[s].pfn))
  {
  }

  lemma AbsUnwire(pt: PageTables, frames: Frames, mem: Memory, dmas: seq<Dma>, i: nat)
    requires Inv(pt, frames) && frames.Keys == mem.Keys && i < |dmas|
    requires var s := dmas[i].slot; s in pt && pt[s].IsWired() && pt[s].pfn in frames
    ensures var s, left := dmas[i].slot, WithoutAt(dmas, i);
            Abs(Unwired(pt, BaseOf(pt, frames, s), s, left), WireDown(frames, pt[s].pfn), mem, left)
            == Release(Abs(pt, frames, mem, dmas), i)
            <==> !Sticks(pt, frames, dmas, i)
  {
    var s, left := dmas[i].slot, WithoutAt(dmas, i);
    SeenAt(pt, frames, mem, dmas, s);
    SeenSet(pt, mem, s, pt[s].MkNormal());
    assert Devices(WireDown(frames, pt[s].pfn), mem) == Devices(frames, mem);
    if Sticks(pt, frames, dmas, i) {
      assert Seen(pt, mem)[s].Pinned? && Release(Abs(pt, frames, mem, dmas), i).view[s].Plain?;
    }
  }

  /** Every record is of a user page. */
  ghost predicate RecordsOk(dmas: seq<Dma>) {
    forall i :: 0 <= i < |dmas| ==> UserVpn(dmas[i].slot.vpn)
  }

  method Unexport(k: Kernel, client: nat, s: Slot, off: nat) returns (r: Result)
    requires k.Valid() && RecordsOk(k.dmas)
    modifies k`pt, k`frames, k`dmas
    ensures k.Valid() && RecordsOk(k.dmas) && k.CowKept(old(k.pt), old(k.frames))
    ensures r == if Dma(client, s, off) in old(k.dmas) then Ok else ENOENT
    ensures var i := FindDma(old(k.dmas), Dma(client, s, off));
            k.State() == Step(old(k.State()), EagerFork.Unexport(client, s, off))
            <==> !(i < |old(k.dmas)| && Sticks(old(k.pt), old(k.frames), old(k.dmas), i))
    ensures forall t :: WritableAt(k.pt, t) <==> WritableAt(old(k.pt), t)
    ensures forall c, t :: !(c == client && t == s) ==> StillHeld(old(k.pt), old(k.dmas), k.pt, k.dmas, c, t)
    ensures old(k.Reserved()) ==> k.Reserved()
    ensures NoneTaken(old(k.frames), k.frames)
  {
    hide Typed, Counted, Exclusive, WireCounted, CowShared, Seen, Devices, CountSlot;
    HeldStart(k.pt, k.dmas);
    hide Held, StillHeld;
    var i := 0;
    while i < |k.dmas| && k.dmas[i] != Dma(client, s, off)
      invariant 0 <= i <= |k.dmas|
      invariant forall j :: 0 <= j < i ==> k.dmas[j] != Dma(client, s, off)
    {
      i := i + 1;
    }
    assert i == FindDma(k.dmas, Dma(client, s, off));
    if i == |k.dmas| {
      return ENOENT;
    }
    ReleaseAt(k, i);
    r := Ok;
  }

  /** No page of the client whose wire count did not start from zero has records of it alone. */
  predicate NoneSticks(pt: PageTables, frames: Frames, dmas: seq<Dma>, client: nat) {
    forall i :: 0 <= i < |dmas| && dmas[i].client == client && BaseOf(pt, frames, dmas[i].slot) != 0 ==>
      exists j :: 0 <= j < |dmas| && dmas[j].slot == dmas[i].slot && dmas[j].client != client
  }

  lemma OthersLeft(pt: PageTables, frames: Frames, dmas: seq<Dma>, client: nat, i: nat)
    requires NoneSticks(pt, frames, dmas, client) && i < |dmas| && dmas[i].client == client
    ensures !Sticks(pt, frames, dmas, i) && NoneSticks(pt, frames, WithoutAt(dmas, i), client)
  {
    hide CountSlot;
    var left := WithoutAt(dmas, i);
    forall n | 0 <= n < |left| && left[n].client == client && BaseOf(pt, frames, left[n].slot) != 0
      ensures exists j :: 0 <= j < |left| && left[j].slot == left[n].slot && left[j].client != client
    {
      assert left[n] == dmas[if n < i then n else n + 1];
      var j := OtherRecord(pt, frames, dmas, client, if n < i then n else n + 1, i);
    }
    if BaseOf(pt, frames, dmas[i].slot) != 0 {
      var j := OtherRecord(pt, frames, dmas, client, i, i);
      CountSlotPositive(left, j);
    }
  }

  /** Another client's record of the same page, where it is once record i is gone. */
  lemma OtherRecord(pt: PageTables, frames: Frames, dmas: seq<Dma>, client: nat, n: nat, i: nat) returns (j: nat)
    requires NoneSticks(pt, frames, dmas, client) && i < |dmas| && dmas[i].client == client
    requires n < |dmas| && dmas[n].client == client && BaseOf(pt, frames, dmas[n].slot) != 0
    ensures var left := WithoutAt(dmas, i);
            j < |left| && left[j].slot == dmas[n].slot && left[j].client != client
  {
    var m :| 0 <= m < |dmas| && dmas[m].slot == dmas[n].slot && dmas[m].client != client;
    j := if m < i then m else m - 1;
  }

  lemma SameBases(pt: PageTables, frames: Frames, pt': PageTables, frames': Frames, dmas: seq<Dma>, client: nat)
    requires forall t :: BaseOf(pt', frames', t) == BaseOf(pt, frames, t)
    ensures NoneSticks(pt', frames', dmas, client) <==> NoneSticks(pt, frames, dmas, client)
  {
  }

  lemma SameTaken(a: Frames, b: Frames, c: Frames)
    requires NoneTaken(a, b) && SameTypes(b, c)
    ensures NoneTaken(a, c)
  {
  }

  lemma HeldThrough(pt0: PageTables, dmas0: seq<Dma>, pt1: PageTables, dmas1: seq<Dma>, pt: PageTables, dmas: seq<Dma>, c: nat, s: Slot)
    requires StillHeld(pt0, dmas0, pt1, dmas1, c, s) && StillHeld(pt1, dmas1, pt, dmas, c, s)
    ensures StillHeld(pt0, dmas0, pt, dmas, c, s)
  {
  }

  lemma HeldStart(pt: PageTables, dmas: seq<Dma>)
    ensures forall c, s :: StillHeld(pt, dmas, pt, dmas, c, s)
  {
  }

  /** Wired pages whose wire count did not start from zero keep their entries. */
  ghost predicate StuckKept(pt0: PageTables, frames0: Frames, pt: PageTables) {
    forall t :: Entry(pt0, t).IsWired() && BaseOf(pt0, frames0, t) != 0 ==> Entry(pt, t) == Entry(pt0, t)
  }

  lemma StuckAtFirst(pt: PageTables, frames: Frames)
    ensures StuckKept(pt, frames, pt)
  {
  }

  lemma StuckStays(pt0: PageTables, frames0: Frames, pt1: PageTables, frames1: Frames, base: nat, s: Slot, left: seq<Dma>)
    requires StuckKept(pt0, frames0, pt1) && (forall t :: BaseOf(pt1, frames1, t) == BaseOf(pt0, frames0, t))
    requires s in pt1 && base == BaseOf(pt1, frames1, s)
    ensures StuckKept(pt0, frames0, Unwired(pt1, base, s, left))
  {
    hide BaseOf, CountSlot;
  }

  lemma {:induction false} NeverPinned(e: Eager, client: nat, i: nat, s: Slot)
    requires s in e.view && !e.view[s].Pinned?
    ensures s in ReleaseClient(e, client, i).view && !ReleaseClient(e, client, i).view[s].Pinned?
    decreases |e.dmas| - i
  {
    hide CountSlot;
    if i < |e.dmas| {
      if e.dmas[i].client == client { NeverPinned(Release(e, i), client, i, s); } else { NeverPinned(e, client, i + 1, s); }
    }
  }

  /** On the copying machine a page that only the closed client had exported is not pinned any more. */
  lemma {:induction false} CloseUnpins(e: Eager, client: nat, i: nat, s: Slot)
    requires s in e.view && CountSlot(e.dmas, s) >= 1
    requires forall j :: 0 <= j < |e.dmas| && e.dmas[j].slot == s ==> e.dmas[j].client == client && j >= i
    ensures s in ReleaseClient(e, client, i).view && !ReleaseClient(e, client, i).view[s].Pinned?
    decreases |e.dmas| - i
  {
    var j := CountSlotWitness(e.dmas, s);
    if e.dmas[i].client == client {
      var e' := Release(e, i);
      CountSlotRemove(e.dmas, i, s);
      if e.dmas[i].slot == s && CountSlot(e'.dmas, s) == 0 {
        NeverPinned(e', client, i, s);
      } else {
        forall n | 0 <= n < |e'.dmas| && e'.dmas[n].slot == s ensures e'.dmas[n].client == client && n >= i {
          assert e'.dmas[n] == e.dmas[if n < i then n else n + 1];
        }
        CloseUnpins(e', client, i, s);
      }
    } else {
      CloseUnpins(e, client, i + 1, s);
    }
  }

  /** If a page sticks, the kernel goes on showing it pinned and the copying machine does not. */
  lemma StuckDiffers(pt: PageTables, frames: Frames, mem: Memory, dmas: seq<Dma>, client: nat, pt': PageTables, frames': Frames, dmas': seq<Dma>)
    requires Inv(pt, frames) && WireCounted(pt, frames, dmas) && frames.Keys == mem.Keys == frames'.Keys && Inv(pt', frames')
    requires !NoneSticks(pt, frames, dmas, client) && StuckKept(pt, frames, pt')
    ensures Abs(pt', frames', mem, dmas') != Step(Abs(pt, frames, mem, dmas), EagerFork.Close(client))
  {
    hide CountSlot, Typed, Counted, Exclusive, BaseOf, Seen, Devices;
    var i :| 0 <= i < |dmas| && dmas[i].client == client && BaseOf(pt, frames, dmas[i].slot) != 0
             && !exists j :: 0 <= j < |dmas| && dmas[j].slot == dmas[i].slot && dmas[j].client != client;
    var s := dmas[i].slot;
    SeenAt(pt, frames, mem, dmas, s);
    SeenAt(pt', frames', mem, dmas', s);
    CountSlotPositive(dmas, i);
    CloseUnpins(Abs(pt, frames, mem, dmas), client, 0, s);
  }

  /** Close a client: every record it left is released. */
  method Close(k: Kernel, client: nat)
    requires k.Valid() && RecordsOk(k.dmas)
    modifies k`pt, k`frames, k`dmas
    ensures k.Valid() && RecordsOk(k.dmas) && k.CowKept(old(k.pt), old(k.frames))
    ensures NoneSticks(old(k.pt), old(k.frames), old(k.dmas), client) <==>
              k.State() == Step(old(k.State()), EagerFork.Close(client))
    ensures StuckKept(old(k.pt), old(k.frames), k.pt)
    ensures forall d :: d in k.dmas ==> d.client != client
    ensures forall t :: WritableAt(k.pt, t) <==> WritableAt(old(k.pt), t)
    ensures forall c, t :: c != client ==> StillHeld(old(k.pt), old(k.dmas), k.pt, k.dmas, c, t)
    ensures old(k.Reserved()) ==> k.Reserved()
    ensures NoneTaken(old(k.frames), k.frames)
  {
    hide Typed, Counted, Exclusive, WireCounted, CowShared, Seen, Devices, CountSlot, NoneSticks, Held, StillHeld, NoneTaken, SameTypes, StuckKept, BaseOf;
    StuckAtFirst(k.pt, k.frames);
    HeldStart(k.pt, k.dmas);
    NoneYet(k.frames);
    var i := 0;
    ghost var free := NoneSticks(k.pt, k.frames, k.dmas, client);
    ghost var goal := ReleaseClient(k.State(), client, 0);
    while i < |k.dmas|
      invariant 0 <= i <= |k.dmas|
      invariant k.Valid() && RecordsOk(k.dmas) && k.CowKept(old(k.pt), old(k.frames))
      invariant forall j :: 0 <= j < i ==> k.dmas[j].client != client
      invariant StuckKept(old(k.pt), old(k.frames), k.pt) && forall t :: BaseOf(k.pt, k.frames, t) == BaseOf(old(k.pt), old(k.frames), t)
      invariant free ==> NoneSticks(k.pt, k.frames, k.dmas, client) && ReleaseClient(k.State(), client, i) == goal
      invariant old(k.Reserved()) ==> k.Reserved()
      invariant NoneTaken(old(k.frames), k.frames)
      invariant forall t :: WritableAt(k.pt, t) <==> WritableAt(old(k.pt), t)
      invariant forall c, t :: c != client ==> StillHeld(old(k.pt), old(k.dmas), k.pt, k.dmas, c, t)
      decreases |k.dmas| - i
    {
      if k.dmas[i].client == client {
        ghost var pt1, frames1, dmas1 := k.pt, k.frames, k.dmas;
        if free {
          OthersLeft(k.pt, k.frames, k.dmas, client, i);
        }
        ReleaseAt(k, i);
        SameBases(pt1, frames1, k.pt, k.frames, k.dmas, client);
        SameTaken(old(k.frames), frames1, k.frames);
        StuckStays(old(k.pt), old(k.frames), pt1, frames1, BaseOf(pt1, frames1, dmas1[i].slot), dmas1[i].slot, k.dmas);
        forall c, t | c != client ensures StillHeld(old(k.pt), old(k.dmas), k.pt, k.dmas, c, t) {
          HeldThrough(old(k.pt), old(k.dmas), pt1, dmas1, k.pt, k.dmas, c, t);
        }
      } else {
        i := i + 1;
      }
    }
    if !free {
      StuckDiffers(old(k.pt), old(k.frames), k.mem, old(k.dmas), client, k.pt, k.frames, k.dmas);
    }
  }

  // ---------------------------------------------------------------- exporting a shared page

  const PARENT := Slot(0, COWBASE)
  const CHILD := Slot(1, COWBASE)
  const OWN := L1e(0, Normal, true, true, true)

  /** A run that exports a copy-on-write page another process maps too: fork, then the parent
      exports the page, takes the export back and unmaps the page.  In between the frame is under a
      wired or normal page and a copy-on-write one; in the end the child's page is copy-on-write over
      a frame with a count of one, which the kernel's fault handler repairs in place. */
  lemma RepairReached()
    ensures var pt0, frames0 := map[PARENT := OWN], map[0 := Frame(User, 1, 0, 0)];
            var pt1, frames1 := Shared(pt0, PARENT, CHILD), SharedFrames(pt0, frames0, PARENT);
            var pt2, frames2 := pt1[PARENT := pt1[PARENT].MkWired()], WireUp(frames1, 0);
            var pt3, frames3 := Unwired(pt2, 0, PARENT, []), WireDown(frames2, 0);
            var pt4, frames4 := pt3[PARENT := GONE], Replaced(frames3, pt3[PARENT], GONE);
            && Inv(pt0, frames0) && WireCounted(pt0, frames0, []) && CowShared(pt0, frames0)
            && Inv(pt1, frames1) && CowShared(pt1, frames1) && pt1[PARENT].IsCow() && Mappings(pt1, 0) == {PARENT, CHILD}
            && !Exclusive(pt2) && pt3[PARENT].IsNormal() && !Exclusive(pt3)
            && Inv(pt4, frames4) && WireCounted(pt4, frames4, []) && !CowShared(pt4, frames4)
            && pt4[CHILD].IsCow() && frames4[0].ref == 1
  {
    AfterFork();
    AfterRelease();
    Chain();
    hide Inv, WireCounted, CowShared, Exclusive, CountSlot, Mappings, Shared, SharedFrames, Unwired, Replaced;
    var pt1, frames1 := Shared(map[PARENT := OWN], PARENT, CHILD), SharedFrames(map[PARENT := OWN], map[0 := Frame(User, 1, 0, 0)], PARENT);
    var pt2, frames2 := pt1[PARENT := pt1[PARENT].MkWired()], WireUp(frames1, 0);
    var pt3, frames3 := Unwired(pt2, 0, PARENT, []), WireDown(frames2, 0);
    assert pt3[PARENT].IsNormal() && frames3 == frames1;
  }

  /** The same run, written out. */
  lemma Chain()
    ensures var cow, pt0, frames0 := OWN.MkCow(), map[PARENT := OWN], map[0 := Frame(User, 1, 0, 0)];
            var pt1, pt2, pt3 := map[PARENT := cow, CHILD := cow], map[PARENT := cow.MkWired(), CHILD := cow], map[PARENT := cow.MkNormal(), CHILD := cow];
            var frames1, frames2 := map[0 := Frame(User, 2, 0, 0)], map[0 := Frame(User, 2, 1, 0)];
            && Shared(pt0, PARENT, CHILD) == pt1 && SharedFrames(pt0, frames0, PARENT) == frames1
            && pt1[PARENT := pt1[PARENT].MkWired()] == pt2 && WireUp(frames1, 0) == frames2
            && Unwired(pt2, 0, PARENT, []) == pt3 && WireDown(frames2, 0) == frames1
            && pt3[PARENT := GONE] == map[PARENT := GONE, CHILD := cow] && Replaced(frames1, pt3[PARENT], GONE) == frames0
            && cow.IsCow() && cow.MkNormal().IsNormal()
  {
    assert OWN.MkCow().MkWired().MkNormal() == OWN.MkCow().MkNormal();
  }

  lemma AfterFork()
    ensures var cow, pt0, frames0 := OWN.MkCow(), map[PARENT := OWN], map[0 := Frame(User, 1, 0, 0)];
            var pt1, frames1 := map[PARENT := cow, CHILD := cow], map[0 := Frame(User, 2, 0, 0)];
            && Inv(pt0, frames0) && WireCounted(pt0, frames0, []) && CowShared(pt0, frames0)
            && Inv(pt1, frames1) && CowShared(pt1, frames1) && Mappings(pt1, 0) == {PARENT, CHILD}
  {
    assert Mappings(map[PARENT := OWN], 0) == {PARENT};
    assert Mappings(map[PARENT := OWN.MkCow(), CHILD := OWN.MkCow()], 0) == {PARENT, CHILD};
  }

  lemma AfterRelease()
    ensures var cow, frames := OWN.MkCow(), map[0 := Frame(User, 1, 0, 0)];
            var pt := map[PARENT := GONE, CHILD := cow];
            && !Exclusive(map[PARENT := cow.MkWired(), CHILD := cow]) && !Exclusive(map[PARENT := cow.MkNormal(), CHILD := cow])
            && Inv(pt, frames) && WireCounted(pt, frames, []) && !CowShared(pt, frames)
  {
    var cow, frames := OWN.MkCow(), map[0 := Frame(User, 1, 0, 0)];
    var wired, normal := map[PARENT := cow.MkWired(), CHILD := cow], map[PARENT := cow.MkNormal(), CHILD := cow];
    assert wired[PARENT].kind == Wired && wired[CHILD].MapsFrame();
    assert normal[PARENT].kind == Normal && normal[CHILD].MapsFrame();
    var pt := map[PARENT := GONE, CHILD := cow];
    assert Mappings(pt, 0) == {CHILD};
    assert pt[CHILD].IsCow();
  }
}
