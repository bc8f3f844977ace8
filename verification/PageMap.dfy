/** The kernel's page maps: the frame counts, the page-map primitives, the virtual-memory calls built
    on them and the kernel half of the fault path. */
module PageMap {
  import opened Options
  import opened Pae
  import opened FrameSharing
  import opened EagerFork

  datatype Result = Ok | EBUSY | EPERM | EINVAL | ENOENT | NotSet | Panic

  datatype World = World(pt: PageTables, frames: Frames, mem: Memory, dmas: seq<Dma>, sig: map<Pid, nat>, roots: set<Pid>)

  /** The machine the processes believe they run on. */
  ghost function Machine(w: World): Eager { Abs(w.pt, w.frames, w.mem, w.dmas) }

  class Kernel {
    var pt: PageTables
    var frames: Frames
    var mem: Memory
    var dmas: seq<Dma>
    /** Where each process has its faults delivered: the top of the stack its handler runs on. */
    var sig: map<Pid, nat>
    /** The processes without a parent, whose end is the end of the kernel. */
    var roots: set<Pid>

    ghost predicate Valid()
      reads this
    {
      && Inv(pt, frames)
      && WireCounted(pt, frames, dmas)
      && mem.Keys == frames.Keys
    }

    /** The machine the processes believe they run on. */
    ghost function State(): Eager
      reads this
    {
      Abs(pt, frames, mem, dmas)
    }

    /** The kernel's whole state, as a value. */
    function Now(): World
      reads this
    {
      World(pt, frames, mem, dmas, sig, roots)
    }

    /** No address space has anything in the page the fault handler copies through. */
    ghost predicate Reserved()
      reads this
    {
      forall s :: s in pt && pt[s].present ==> s.vpn != VACOW
    }

    constructor (frames: Frames, mem: Memory, roots: set<Pid>)
      requires frames.Keys == mem.Keys
      ensures Valid() && Reserved() && CowShared(pt, this.frames)
      ensures pt == map[] && this.frames == frames && this.mem == mem && dmas == [] && sig == map[] && this.roots == roots
    {
      pt, this.frames, this.mem, dmas, sig, this.roots := map[], frames, mem, [], map[], roots;
      new;
      forall f | f in frames && frames[f].typ == User ensures |Mappings(pt, f)| <= frames[f].ref {
        assert Mappings(pt, f) == {};
      }
    }

    // -------------------------------------------------------------- frame database

    method IncRef(f: Pfn)
      requires f in frames && frames[f].typ == User
      modifies this`frames
      ensures frames == Raised(old(frames), f)
    {
      frames := frames[f := frames[f].(ref := frames[f].ref + 1)];
    }

    /** The counter is 64 bits wide and wraps below zero. */
    method DecRef(f: Pfn) returns (r: nat)
      requires f in frames && frames[f].typ == User
      modifies this`frames
      ensures frames == Lowered(old(frames), f) && r == frames[f].ref
    {
      r := Dec(frames[f].ref);
      frames := frames[f := frames[f].(ref := r)];
    }

    /** A given free frame becomes a user frame, its reference count cleared and its wire count set to
        what the caller leaves there. */
    method TakeFrame(f: Pfn, wir: nat)
      requires Valid() && f in frames && frames[f].typ == Free
      modifies this`frames
      ensures frames == old(frames)[f := Frame(User, 0, wir, wir)]
      ensures Mappings(pt, f) == {}
      ensures forall s :: s in pt && pt[s].present ==> pt[s].pfn != f
      ensures Valid() && SameDevices(old(frames), frames)
      ensures CowShared(pt, old(frames)) ==> CowShared(pt, frames)
    {
      UnmappedByType(pt, frames, f);
      RetypeUnmapped(pt, frames, f, Frame(User, 0, wir, wir));
      frames := frames[f := Frame(User, 0, wir, wir)];
    }

    /** A fresh user frame, any free one, with both counts cleared; None models the out-of-memory
        panic. */
    method AllocFrame() returns (f: Option<Pfn>)
      requires Valid()
      modifies this`frames
      ensures f.None? <==> NoRoom(old(frames))
      ensures f.None? ==> frames == old(frames)
      ensures f.Some? ==> f.value in old(frames) && old(frames)[f.value].typ == Free
      ensures f.Some? ==> frames == old(frames)[f.value := Frame(User, 0, 0, 0)]
      ensures f.Some? ==> Mappings(pt, f.value) == {}
      ensures f.Some? ==> forall s :: s in pt && pt[s].present ==> pt[s].pfn != f.value
      ensures Valid() && SameDevices(old(frames), frames)
      ensures CowShared(pt, old(frames)) ==> CowShared(pt, frames)
    {
      hide Typed, Counted, Exclusive, WireCounted, CowShared;
      if g :| g in frames && frames[g].typ == Free {
        TakeFrame(g, 0);
        f := Some(g);
      } else {
        f := None;
      }
    }

    /** Give a frame back.  That is in order exactly when nothing maps it. */
    method FreePage(f: Pfn)
      requires f in frames && frames[f].typ == User
      modifies this`frames
      ensures frames == old(frames)[f := old(frames)[f].(typ := Free)]
      ensures Mappings(pt, f) == {} && old(Valid()) ==> Valid()
      ensures Mappings(pt, f) != {} ==> !Valid()
      ensures SameDevices(old(frames), frames)
      ensures CowShared(pt, old(frames)) ==> CowShared(pt, frames)
    {
      hide Counted, Exclusive, Seen, Devices;
      if Mappings(pt, f) == {} && Valid() {
        RetypeUnmapped(pt, frames, f, frames[f].(typ := Free));
        forall s | s in pt && pt[s].MapsFrame() ensures pt[s].pfn != f {
          assert s !in Mappings(pt, f);
        }
      }
      frames := frames[f := frames[f].(typ := Free)];
      if s :| s in Mappings(pt, f) {
        assert !EntryOk(pt[s], frames);
      }
    }

    // -------------------------------------------------------------- page-map primitives

    /** Replace the entry of a page that is not externally controlled.  A normal entry's frame
        loses a reference and is handed back when that was the last; a copy-on-write entry's
        frame keeps its reference. */
    method UEnter(s: Slot, pfn: Pfn, prot: Prot) returns (r: Result, opfn: Option<Pfn>)
      requires Valid() && UserVpn(s.vpn)
      requires prot.present ==> prot.user && pfn in frames && frames[pfn].typ == User
      modifies this`pt, this`frames
      ensures r == if Entry(old(pt), s).IsExternal() then EBUSY else Ok
      ensures r.EBUSY? ==> opfn == None && pt == old(pt) && frames == old(frames)
      ensures r.Ok? ==> ReplacedBy(old(pt), old(frames), s, MkEntry(pfn, prot), opfn)
      ensures (prot.present ==> old(Mappings(pt, pfn)) == {}) ==> KeptInv(old(pt), old(frames), opfn)
      ensures (prot.present ==> old(Mappings(pt, pfn)) == {} && old(frames)[pfn].wir == old(frames)[pfn].base) ==> Valid()
    {
      hide Typed, Counted, Exclusive, WireCounted, CowShared, Seen, Devices;
      var nl1e := MkEntry(pfn, prot).MkNormal();
      var ol1e := Entry(pt, s);
      if ol1e.IsExternal() {
        return EBUSY, None;
      }
      EntryIsOk(pt, frames, s);
      if prot.present ==> Mappings(pt, pfn) == {} {
        Replace(pt, frames, dmas, s, nl1e);
      }
      if nl1e.present {
        IncRef(nl1e.pfn);
      }
      pt := pt[s := nl1e];
      opfn := None;
      if ol1e.IsNormal() {
        var left := DecRef(ol1e.pfn);
        if left == 0 {
          opfn := Some(ol1e.pfn);
        }
      }
      r := Ok;
    }

    /** Map a device frame, whatever ordinary page was there. */
    method UIomap(s: Slot, pfn: Pfn, prot: Prot) returns (r: Result, opfn: Option<Pfn>)
      requires Valid() && UserVpn(s.vpn)
      requires prot.present ==> prot.user && pfn in frames && frames[pfn].typ == Mmio
      modifies this`pt, this`frames
      ensures r == if Entry(old(pt), s).IsExternal() then EBUSY else Ok
      ensures r.EBUSY? ==> opfn == None && pt == old(pt) && frames == old(frames)
      ensures r.Ok? ==> ReplacedBy(old(pt), old(frames), s, MkEntry(pfn, prot).MkIomap(), opfn)
      ensures Kept(old(pt), old(frames), opfn)
    {
      hide Typed, Counted, Exclusive, WireCounted, CowShared, Seen, Devices;
      var nl1e := MkEntry(pfn, prot).MkIomap();
      var ol1e := Entry(pt, s);
      if ol1e.IsExternal() {
        return EBUSY, None;
      }
      Replace(pt, frames, dmas, s, nl1e);
      pt := pt[s := nl1e];
      opfn := None;
      if ol1e.IsNormal() {
        var left := DecRef(ol1e.pfn);
        if left == 0 {
          opfn := Some(ol1e.pfn);
        }
      }
      r := Ok;
    }

    method UIounmap(s: Slot) returns (r: Result)
      requires Valid() && UserVpn(s.vpn)
      modifies this`pt
      ensures r == if Entry(old(pt), s).IsIomap() then Ok else NotSet
      ensures pt == if r.Ok? then old(pt)[s := GONE] else old(pt)
      ensures Kept(old(pt), frames, None)
    {
      hide Typed, Counted, Exclusive, WireCounted, CowShared, Seen, Devices;
      if !Entry(pt, s).IsIomap() {
        return NotSet;
      }
      RemoveEntry(pt, frames, s, GONE);
      RetypeKeepsRest(pt, frames, dmas, s, GONE);
      pt := pt[s := GONE];
      r := Ok;
    }

    /** Move a page's entry to another page of the same address space. */
    method UChAddr(src: Slot, dst: Slot) returns (r: Result, opfn: Option<Pfn>)
      requires Valid() && UserVpn(src.vpn) && UserVpn(dst.vpn) && src.pid == dst.pid
      modifies this`pt, this`frames
      ensures r == if Entry(old(pt), src).IsExternal() || Entry(old(pt), dst).IsExternal() then EBUSY else Ok
      ensures r.EBUSY? ==> opfn == None && pt == old(pt) && frames == old(frames)
      ensures r.Ok? ==> pt == Moved(old(pt), src, dst)
      ensures r.Ok? ==> var o := Entry(old(pt), dst);
                        && (o.IsNormal() ==> o.pfn in old(frames))
                        && frames == (if o.IsNormal() then Lowered(old(frames), o.pfn) else old(frames))
                        && opfn == if o.IsNormal() && frames[o.pfn].ref == 0 then Some(o.pfn) else None
      ensures src != dst ==> Kept(old(pt), old(frames), opfn)
    {
      hide Typed, Counted, Exclusive, WireCounted, CowShared, Seen, Devices;
      var nl1e := Entry(pt, src);
      if nl1e.IsExternal() {
        return EBUSY, None;
      }
      var ol1e := Entry(pt, dst);
      if ol1e.IsExternal() {
        return EBUSY, None;
      }
      EntryIsOk(pt, frames, dst);
      if src != dst {
        MoveKeeps(pt, frames, dmas, src, dst);
      }
      pt := pt[src := GONE];
      pt := pt[dst := nl1e];
      opfn := None;
      if ol1e.IsNormal() {
        var left := DecRef(ol1e.pfn);
        if left == 0 {
          opfn := Some(ol1e.pfn);
        }
      }
      r := Ok;
    }

    /** Change the protection of a normal page.  A copy-on-write page is refused when asked for
        writing and stops the kernel otherwise. */
    method UChProt(s: Slot, prot: Prot) returns (r: Result)
      requires Valid() && UserVpn(s.vpn) && prot.present && prot.user
      modifies this`pt
      ensures var o := Entry(old(pt), s);
              r == if o.IsExternal() then EBUSY
                   else if !o.present then EPERM
                   else if o.IsCow() then (if prot.writable then EINVAL else Panic)
                   else Ok
      ensures pt == if r.Ok? then old(pt)[s := MkEntry(old(pt)[s].pfn, prot)] else old(pt)
      ensures Kept(old(pt), frames, None)
    {
      hide Typed, Counted, Exclusive, WireCounted, CowShared, Seen, Devices;
      var ol1e := Entry(pt, s);
      if ol1e.IsExternal() {
        return EBUSY;
      }
      if !ol1e.present {
        return EPERM;
      }
      if prot.writable && ol1e.IsCow() {
        return EINVAL;
      }
      EntryIsOk(pt, frames, s);
      if !ol1e.IsNormal() {
        return Panic;
      }
      SoleMapping(pt, s);
      RetypeEntry(pt, frames, s, MkEntry(ol1e.pfn, prot));
      RetypeKeepsRest(pt, frames, dmas, s, MkEntry(ol1e.pfn, prot));
      pt := pt[s := MkEntry(ol1e.pfn, prot).MkNormal()];
      r := Ok;
    }

    /** Wire a page for a device: count it and mark the entry externally controlled. */
    method UWire(s: Slot) returns (r: Result)
      requires UserVpn(s.vpn)
      modifies this`pt, this`frames
      ensures var e := Entry(old(pt), s);
              r == if e.IsIomap() then EBUSY
                   else if e.pfn !in old(frames) || old(frames)[e.pfn].typ != User then Panic else Ok
      ensures !r.Ok? ==> pt == old(pt) && frames == old(frames)
      ensures r.Ok? ==> var e := Entry(old(pt), s); pt == old(pt)[s := e.MkWired()] && frames == WireUp(old(frames), e.pfn)
    {
      var ol1e := Entry(pt, s);
      if ol1e.IsIomap() {
        return EBUSY;
      }
      if ol1e.pfn !in frames || frames[ol1e.pfn].typ != User {
        return Panic;
      }
      frames := WireUp(frames, ol1e.pfn);
      pt := pt[s := ol1e.MkWired()];
      r := Ok;
    }

    /** Undo one wiring; the entry turns normal when the wire count reaches zero. */
    method UUnwire(s: Slot) returns (r: Result)
      requires UserVpn(s.vpn)
      modifies this`pt, this`frames
      ensures var e := Entry(old(pt), s);
              r == if !e.IsWired() then NotSet
                   else if e.pfn !in old(frames) || old(frames)[e.pfn].typ != User then Panic else Ok
      ensures !r.Ok? ==> pt == old(pt) && frames == old(frames)
      ensures r.Ok? ==> var e := Entry(old(pt), s);
                        && frames == WireDown(old(frames), e.pfn)
                        && pt == if frames[e.pfn].wir == 0 then old(pt)[s := e.MkNormal()] else old(pt)
    {
      var ol1e := Entry(pt, s);
      if !ol1e.IsWired() {
        return NotSet;
      }
      if ol1e.pfn !in frames || frames[ol1e.pfn].typ != User {
        return Panic;
      }
      frames := WireDown(frames, ol1e.pfn);
      if frames[ol1e.pfn].wir == 0 {
        pt := pt[s := ol1e.MkNormal()];
      }
      r := Ok;
    }

    // -------------------------------------------------------------- virtual-memory calls

    /** Enter a fresh frame, giving back the frame it displaces, or the fresh one if refused. */
    method EnterNew(s: Slot, prot: Prot) returns (r: Result, f: Pfn)
      requires Valid() && UserVpn(s.vpn) && prot.present && prot.user
      modifies this`pt, this`frames
      ensures Valid() && CowKept(old(pt), old(frames)) && SameDevices(old(frames), frames)
      ensures r == if NoRoom(old(frames)) then Panic else if Entry(old(pt), s).IsExternal() then EBUSY else Ok
      ensures !r.Ok? ==> pt == old(pt)
      ensures r.Ok? ==> f in old(frames) && old(frames)[f].typ == Free && pt == old(pt)[s := MkEntry(f, prot)]
      ensures r.Ok? ==> forall t :: t in old(pt) && old(pt)[t].present ==> old(pt)[t].pfn != f
      ensures TookBut(old(frames), frames, f)
    {
      hide Typed, Counted, Exclusive, WireCounted, CowShared, Seen, Devices;
      var g := AllocFrame();
      if g.None? {
        return Panic, 0;
      }
      f := g.value;
      var opfn;
      r, opfn := UEnter(s, f, prot);
      if r.EBUSY? {
        FreePage(f);
        return;
      }
      if opfn.Some? {
        FreePage(opfn.value);
      }
    }

    /** Map a fresh zeroed page.  The frame is cleared through the new mapping, with write protection
        in force in the kernel too; so a page asked for without write permission stops the kernel. */
    method VmMap(s: Slot, prot: Prot) returns (r: Result)
      requires Valid() && UserVpn(s.vpn) && prot.present && prot.user
      modifies this`pt, this`frames, this`mem
      ensures r == var ext := Entry(old(pt), s).IsExternal();
                   if MapStops(old(frames), ext, prot) then Panic else if ext then EBUSY else Ok
      ensures Valid() && CowKept(old(pt), old(frames))
      ensures r.EBUSY? || NoRoom(old(frames)) ==> pt == old(pt) && State() == old(State())
      ensures !r.Panic? ==> State() == Step(old(State()), Map(s, prot))
      ensures r.Ok? ==> Entry(pt, s) == MkEntry(Entry(pt, s).pfn, prot) && pt == old(pt)[s := Entry(pt, s)]
      ensures r.Ok? ==> s in State().view && forall o :: 0 <= o < PAGE_SIZE ==> Data(State(), s)[o] == 0
      ensures TookOne(old(frames), frames)
    {
      hide Typed, Counted, Exclusive, WireCounted, CowShared, Seen, Devices;
      SeenAt(pt, frames, mem, dmas, s);
      var f;
      r, f := EnterNew(s, prot);
      AbsCounts(pt, old(frames), frames, mem, dmas);
      if r.Ok? && !prot.writable {
        return Panic;
      }
      if r.Ok? {
        mem := mem[f := ZeroPage()];
        AbsMap(old(pt), old(frames), frames, old(mem), dmas, s, MkEntry(f, prot), ZeroPage());
        assert forall o :: 0 <= o < PAGE_SIZE ==> ZeroPage()[o] == 0;
      }
    }

    /** Take one page away and give back the frame that displaces, if any. */
    method Remove(s: Slot, pfn: Pfn) returns (r: Result)
      requires Valid() && UserVpn(s.vpn)
      modifies this`pt, this`frames
      ensures Valid() && CowKept(old(pt), old(frames))
      ensures r == if Entry(old(pt), s).IsExternal() then EBUSY else Ok
      ensures State() == Step(old(State()), Unmap(s))
      ensures pt == if r.Ok? then old(pt)[s := MkEntry(pfn, NO_PROT)] else old(pt)
      ensures NoneTaken(old(frames), frames)
    {
      hide Typed, Counted, Exclusive, WireCounted, CowShared, Seen, Devices;
      SeenAt(pt, frames, mem, dmas, s);
      var opfn;
      r, opfn := UEnter(s, pfn, NO_PROT);
      if r.EBUSY? {
        return;
      }
      if opfn.Some? {
        FreePage(opfn.value);
      }
      AbsUnmap(old(pt), old(frames), frames, mem, dmas, s, pt[s]);
    }

    method VmUnmap(s: Slot) returns (r: Result)
      requires Valid() && UserVpn(s.vpn)
      modifies this`pt, this`frames
      ensures Valid() && CowKept(old(pt), old(frames))
      ensures r == if Entry(old(pt), s).IsExternal() then EBUSY else Ok
      ensures State() == Step(old(State()), Unmap(s))
      ensures pt == if r.Ok? then old(pt)[s := GONE] else old(pt)
      ensures NoneTaken(old(frames), frames)
    {
      r := Remove(s, 0xffff_ffff);
    }

    /** Clear a range of pages. */
    method VmClear(pid: Pid, lo: Vpn, hi: Vpn)
      requires Valid() && USERBASE <= lo <= hi <= USEREND
      modifies this`pt, this`frames
      ensures Valid() && CowKept(old(pt), old(frames))
      ensures State() == Step(old(State()), EagerFork.Clear(pid, lo, hi))
      ensures forall t: Slot :: !(t.pid == pid && lo <= t.vpn < hi) ==> Entry(pt, t) == Entry(old(pt), t)
      ensures forall t: Slot :: t.pid == pid && lo <= t.vpn < hi && Entry(pt, t).present ==> Entry(pt, t).IsExternal()
      ensures forall t: Slot :: Entry(pt, t).present ==> Entry(pt, t) == Entry(old(pt), t)
      ensures ExternalKept(old(pt), pt)
      ensures NoneTaken(old(frames), frames)
    {
      hide Typed, Counted, Exclusive, WireCounted, CowShared, Seen, Devices, Step, ClearTo;
      ghost var e0 := State();
      var v := lo;
      ClearNext(e0, pid, lo, lo);
      while v < hi
        invariant lo <= v <= hi
        invariant Valid() && CowKept(old(pt), old(frames))
        invariant State() == ClearTo(e0, pid, lo, v)
        invariant forall t: Slot :: !(t.pid == pid && lo <= t.vpn < v) ==> Entry(pt, t) == Entry(old(pt), t)
        invariant forall t: Slot :: t.pid == pid && lo <= t.vpn < v && Entry(pt, t).present ==>
                    Entry(pt, t) == Entry(old(pt), t) && Entry(pt, t).IsExternal()
        invariant ExternalKept(old(pt), pt)
        invariant NoneTaken(old(frames), frames)
      {
        ClearNext(e0, pid, lo, v);
        ghost var pt1 := pt;
        var r := Remove(Slot(pid, v), 0);
        assert forall t :: t != Slot(pid, v) ==> Entry(pt, t) == Entry(pt1, t);
        v := v + 1;
      }
      ClearWhole(e0, pid, lo, hi);
    }

    /** Move a page.  Onto itself nothing moves, but a normal page's frame loses a reference; all stays
        in order unless that was its last, when the frame is freed under the page. */
    method VmMove(dst: Slot, src: Slot) returns (r: Result)
      requires Valid() && UserVpn(src.vpn) && UserVpn(dst.vpn) && src.pid == dst.pid
      modifies this`pt, this`frames
      ensures r == if Entry(old(pt), src).IsExternal() || Entry(old(pt), dst).IsExternal() then EBUSY else Ok
      ensures pt == if r.Ok? then Moved(old(pt), src, dst) else old(pt)
      ensures var freed := src == dst && Entry(old(pt), src).IsNormal() && RefOf(old(frames), Entry(old(pt), src)) == 1;
              && (Valid() <==> !freed)
              && (!freed ==> CowKept(old(pt), old(frames)))
              && (!freed ==> State() == Step(old(State()), Move(dst.pid, dst.vpn, src.vpn)))
      ensures NoneTaken(old(frames), frames)
    {
      hide Typed, Counted, Exclusive, WireCounted, CowShared, Seen, Devices;
      SeenAt(pt, frames, mem, dmas, src);
      SeenAt(pt, frames, mem, dmas, dst);
      EntryIsOk(pt, frames, src);
      if src == dst {
        MoveInPlace(pt, frames, mem, dmas, src);
        if Entry(pt, src).IsNormal() {
          LoseReference(Moved(pt, src, src), frames, dmas, src);
          AbsCounts(Moved(pt, src, src), frames, Lowered(frames, Entry(pt, src).pfn), mem, dmas);
        }
      }
      var opfn;
      r, opfn := UChAddr(src, dst);
      if r.EBUSY? {
        return;
      }
      if opfn.Some? {
        FreePage(opfn.value);
      }
      if src != dst {
        AbsMove(old(pt), old(frames), frames, mem, dmas, src, dst);
      }
    }

    method VmChProt(s: Slot, prot: Prot) returns (r: Result)
      requires Valid() && UserVpn(s.vpn) && prot.present && prot.user
      modifies this`pt
      ensures Valid() && CowKept(old(pt), frames)
      ensures State() == Step(old(State()), Protect(s, prot))
      ensures var o := Entry(old(pt), s);
              r == if o.IsExternal() then EBUSY
                   else if !o.present then EPERM
                   else if o.IsCow() then (if prot.writable then EINVAL else Panic)
                   else Ok
      ensures pt == if r.Ok? then old(pt)[s := MkEntry(old(pt)[s].pfn, prot)] else old(pt)
    {
      hide Typed, Counted, Exclusive, WireCounted, CowShared, Seen, Devices;
      r := UChProt(s, prot);
      if r.Ok? {
        SeenSame(old(pt), mem, s, pt[s]);
      }
    }

    method IoMapPage(s: Slot, pfn: Pfn, prot: Prot) returns (r: Result)
      requires Valid() && UserVpn(s.vpn) && pfn in frames && (prot.present ==> prot.user)
      modifies this`pt, this`frames
      ensures Valid() && CowKept(old(pt), old(frames))
      ensures r == if old(frames)[pfn].typ != Mmio then EINVAL
                   else if Entry(old(pt), s).IsExternal() then EBUSY else Ok
      ensures State() == Step(old(State()), IoMap(s, pfn, prot))
      ensures pt == if r.Ok? then old(pt)[s := MkEntry(pfn, prot).MkIomap()] else old(pt)
      ensures NoneTaken(old(frames), frames)
    {
      hide Typed, Counted, Exclusive, WireCounted, CowShared, Seen, Devices;
      DeviceKeys(frames, mem, pfn);
      if frames[pfn].typ != Mmio {
        return EINVAL;
      }
      SeenAt(pt, frames, mem, dmas, s);
      var opfn;
      r, opfn := UIomap(s, pfn, prot);
      if r.EBUSY? {
        return;
      }
      if opfn.Some? {
        FreePage(opfn.value);
      }
      AbsIoMap(old(pt), old(frames), frames, mem, dmas, s, pfn, prot);
    }

    method IoUnmapPage(s: Slot) returns (r: Result)
      requires Valid() && UserVpn(s.vpn)
      modifies this`pt
      ensures Valid() && CowKept(old(pt), frames)
      ensures r == if Entry(old(pt), s).IsIomap() then Ok else NotSet
      ensures State() == Step(old(State()), IoUnmap(s))
      ensures pt == if r.Ok? then old(pt)[s := GONE] else old(pt)
    {
      hide Typed, Counted, Exclusive, WireCounted, CowShared, Seen, Devices;
      SeenAt(pt, frames, mem, dmas, s);
      r := UIounmap(s);
      if r.Ok? {
        AbsUnmap(old(pt), frames, frames, mem, dmas, s, GONE);
      }
    }

    // -------------------------------------------------------------- faults and user accesses

    /** The kernel half of a page fault.  The last copy-on-write mapping of a frame is made normal
        again, still read-only, and the access is retried; any other fault goes to the process. */
    method PageFault(s: Slot, write: bool) returns (f: Fault)
      requires Valid() && UserVpn(s.vpn)
      modifies this`pt
      ensures Valid() && CowKept(old(pt), frames) && State() == old(State())
      ensures f.Spurious? <==> var e := Entry(old(pt), s); e.IsCow() && e.pfn in frames && frames[e.pfn].ref == 1
      ensures pt == if f.Spurious? then old(pt)[s := old(pt)[s].MkNormal()] else old(pt)
      ensures f.Signal? ==> f == Signal(!Entry(pt, s).present, Entry(pt, s).IsCow(), write)
      ensures CowShared(old(pt), frames) ==> f.Signal?
    {
      hide Typed, Counted, Exclusive, WireCounted, CowShared, Seen, Devices;
      var l1e := Entry(pt, s);
      EntryIsOk(pt, frames, s);
      if l1e.IsCow() && frames[l1e.pfn].ref == 1 {
        LastMapping(pt, frames, s);
        RetypeEntry(pt, frames, s, l1e.MkNormal());
        RetypeKeepsRest(pt, frames, dmas, s, l1e.MkNormal());
        NotShared(pt, frames, s);
        SeenSame(pt, mem, s, l1e.MkNormal());
        pt := pt[s := l1e.MkNormal()];
        return Spurious;
      }
      f := Signal(!l1e.present, l1e.IsCow(), write);
    }

    ghost predicate CowKept(pt0: PageTables, frames0: Frames)
      reads this
    {
      CowShared(pt0, frames0) ==> CowShared(pt, frames)
    }

    // -------------------------------------------------------------- what every primitive keeps

    /** Entry n now stands at s, the counts moved with it, and the frame handed back (if any) is
        one whose count reached zero. */
    ghost predicate ReplacedBy(pt0: PageTables, frames0: Frames, s: Slot, n: L1e, opfn: Option<Pfn>)
      reads this
    {
      var o := Entry(pt0, s);
      && pt == pt0[s := n]
      && (n.MapsFrame() ==> n.pfn in frames0)
      && (o.IsNormal() ==> o.pfn in frames0)
      && frames == Replaced(frames0, o, n)
      && opfn == if o.IsNormal() && frames[o.pfn].ref == 0 then Some(o.pfn) else None
    }

    /** The sharing invariants hold, no frame changed type, and a frame handed back is mapped nowhere. */
    ghost predicate KeptInv(pt0: PageTables, frames0: Frames, opfn: Option<Pfn>)
      reads this
    {
      && Inv(pt, frames)
      && mem.Keys == frames.Keys
      && (CowShared(pt0, frames0) ==> CowShared(pt, frames))
      && SameTypes(frames0, frames)
      && (opfn.Some? ==> opfn.value in frames && frames[opfn.value].typ == User && Mappings(pt, opfn.value) == {})
    }

    ghost predicate Kept(pt0: PageTables, frames0: Frames, opfn: Option<Pfn>)
      reads this
    {
      KeptInv(pt0, frames0, opfn) && WireCounted(pt, frames, dmas)
    }
  }

  lemma ClearWhole(e: Eager, pid: Pid, lo: Vpn, hi: Vpn)
    ensures Step(e, EagerFork.Clear(pid, lo, hi)) == ClearTo(e, pid, lo, hi)
  {
  }

  lemma DeviceKeys(frames: Frames, mem: Memory, f: Pfn)
    requires frames.Keys == mem.Keys && f in frames
    ensures f in Devices(frames, mem) <==> frames[f].typ == Mmio
  {
  }

  /** Mapping a page stops the kernel: there is no frame, or the frame cannot be cleared. */
  predicate MapStops(frames: Frames, external: bool, prot: Prot) { NoRoom(frames) || (!external && !prot.writable) }

  datatype Fault = Spurious | Signal(notp: bool, cow: bool, write: bool)

  lemma NotShared(pt: PageTables, frames: Frames, s: Slot)
    requires s in pt && pt[s].IsCow() && pt[s].pfn in frames && frames[pt[s].pfn].ref == 1
    ensures !CowShared(pt, frames)
  {
  }

  /** A count of one leaves room for one mapping only. */
  lemma LastMapping(pt: PageTables, frames: Frames, s: Slot)
    requires Inv(pt, frames) && s in pt && pt[s].MapsFrame() && pt[s].pfn in frames && frames[pt[s].pfn].ref == 1
    ensures Mappings(pt, pt[s].pfn) == {s}
  {
    var m := Mappings(pt, pt[s].pfn);
    assert EntryOk(pt[s], frames);
    assert s in m && |m| <= 1;
    assert |m - {s}| == 0;
  }

  ghost predicate SameTypes(a: Frames, b: Frames) {
    a.Keys == b.Keys && forall f :: f in a ==> b[f].typ == a[f].typ
  }

  lemma Replace(pt: PageTables, frames: Frames, dmas: seq<Dma>, s: Slot, n: L1e)
    requires CanReplace(pt, frames, s, n) && WireCounted(pt, frames, dmas)
    ensures var o := Entry(pt, s);
            && (o.IsNormal() ==> o.pfn in frames && Mappings(pt[s := n], o.pfn) == {} && frames[o.pfn].typ == User)
            && var frames' := Replaced(frames, o, n);
               && Inv(pt[s := n], frames')
               && ((n.MapsFrame() ==> frames[n.pfn].wir == frames[n.pfn].base) ==> WireCounted(pt[s := n], frames', dmas))
               && SameTypes(frames, frames')
               && (CowShared(pt, frames) ==> CowShared(pt[s := n], frames'))
  {
    hide Typed, Counted, Exclusive, WireCounted, CowShared;
    ReplaceKeepsInv(pt, frames, s, n);
    EntryIsOk(pt, frames, s);
    if n.MapsFrame() ==> frames[n.pfn].wir == frames[n.pfn].base {
      ReplaceKeepsWires(pt, frames, dmas, s, n);
    }
    if Entry(pt, s).IsNormal() {
      LostMapping(pt, frames, s, n);
    }
    if CowShared(pt, frames) {
      ReplaceKeepsCow(pt, frames, s, n);
    }
  }

  lemma MoveKeeps(pt: PageTables, frames: Frames, dmas: seq<Dma>, src: Slot, dst: Slot)
    requires Inv(pt, frames) && WireCounted(pt, frames, dmas) && src != dst
    requires !Entry(pt, src).IsExternal() && !Entry(pt, dst).IsExternal()
    ensures var o, pt' := Entry(pt, dst), Moved(pt, src, dst);
            && (o.IsNormal() ==> o.pfn in frames && Mappings(pt', o.pfn) == {} && frames[o.pfn].typ == User)
            && var frames' := if o.IsNormal() then Lowered(frames, o.pfn) else frames;
               && Inv(pt', frames') && WireCounted(pt', frames', dmas)
               && (CowShared(pt, frames) ==> CowShared(pt', frames'))
  {
    MoveKeepsInv(pt, frames, src, dst);
    assert dst in pt ==> EntryOk(pt[dst], frames);
    if CowShared(pt, frames) {
      MoveKeepsCow(pt, frames, src, dst);
    }
    MoveKeepsWires(pt, frames, dmas, src, dst);
  }

  /** A page moved onto itself keeps its entry. */
  lemma MoveInPlace(pt: PageTables, frames: Frames, mem: Memory, dmas: seq<Dma>, s: Slot)
    requires Inv(pt, frames) && WireCounted(pt, frames, dmas) && frames.Keys == mem.Keys
    ensures var pt' := Moved(pt, s, s);
            && Inv(pt', frames) && WireCounted(pt', frames, dmas) && (CowShared(pt, frames) ==> CowShared(pt', frames))
            && (forall f :: Mappings(pt', f) == Mappings(pt, f))
            && Abs(pt', frames, mem, dmas) == Abs(pt, frames, mem, dmas)
  {
    hide Typed, Counted, Exclusive, WireCounted, CowShared, Devices;
    if s in pt {
      assert Moved(pt, s, s) == pt;
    } else {
      assert Moved(pt, s, s) == pt[s := BLANK];
      RemoveEntry(pt, frames, s, BLANK);
      RetypeKeepsRest(pt, frames, dmas, s, BLANK);
      SeenSet(pt, mem, s, BLANK);
      forall f ensures Mappings(pt[s := BLANK], f) == Mappings(pt, f) {
        SetEntryMappings(pt, s, BLANK, f);
      }
    }
  }

  /** A normal page's frame may lose a reference that was not its last. */
  lemma LoseReference(pt: PageTables, frames: Frames, dmas: seq<Dma>, s: Slot)
    requires Inv(pt, frames) && WireCounted(pt, frames, dmas) && s in pt && pt[s].IsNormal()
    ensures s in Mappings(pt, pt[s].pfn) && pt[s].pfn in frames && frames[pt[s].pfn].typ == User && frames[pt[s].pfn].ref >= 1
    ensures frames[pt[s].pfn].ref != 1 ==>
              var frames' := Lowered(frames, pt[s].pfn);
              && Inv(pt, frames') && WireCounted(pt, frames', dmas) && (CowShared(pt, frames) ==> CowShared(pt, frames'))
  {
    hide CountSlot, Typed, Counted, Exclusive;
    EntryIsOk(pt, frames, s);
    SelfMove(pt, frames, s);
    OtherFrames(pt, s);
  }

  lemma MoveKeepsWires(pt: PageTables, frames: Frames, dmas: seq<Dma>, src: Slot, dst: Slot)
    requires WireCounted(pt, frames, dmas) && src != dst
    requires !Entry(pt, src).IsExternal() && !Entry(pt, dst).IsExternal()
    ensures WireCounted(Moved(pt, src, dst), frames, dmas)
    ensures forall f :: f in frames ==> WireCounted(Moved(pt, src, dst), Lowered(frames, f), dmas)
  {
  }

  /** Only user and device frames are ever mapped. */
  lemma UnmappedByType(pt: PageTables, frames: Frames, f: Pfn)
    requires Typed(pt, frames) && f in frames && frames[f].typ != User && frames[f].typ != Mmio
    ensures Mappings(pt, f) == {}
    ensures forall s :: s in pt && pt[s].present ==> pt[s].pfn != f
  {
  }
}
