/** The shared state behind every address space: page-table entries, the frame database and
    memory, as values; the invariants that tie them together; and what changing one entry does
    to each invariant. */
module FrameSharing {
  import opened Pae

  type Pid = nat
  type Vpn = nat

  const PAGE_SIZE := 0x20_0000
  type Page = p: seq<bv8> | |p| == PAGE_SIZE witness seq(PAGE_SIZE, i => 0)
  function ZeroPage(): Page { seq(PAGE_SIZE, i => 0) }

  /** User virtual pages: USERBASE, ZCOWEND == COWBASE and USEREND == COWEND in pages. */
  const USERBASE: Vpn := 1
  const COWBASE: Vpn := 2
  const USEREND: Vpn := 1532
  /** The page the user fault handler copies through. */
  const VACOW: Vpn := 512

  predicate UserVpn(v: Vpn) { USERBASE <= v < USEREND }

  /** One page of one address space. */
  datatype Slot = Slot(pid: Pid, vpn: Vpn)

  datatype FrameType = Free | User | Mmio | System
  /** A frame's record.  For the specification, base keeps what the wire count was when the frame was
      last handed out. */
  datatype Frame = Frame(typ: FrameType, ref: nat, wir: nat, base: nat)

  /** No frame is free. */
  predicate NoRoom(frames: Frames) { forall f :: f in frames ==> frames[f].typ != Free }

  function FreeFrames(frames: Frames): set<Pfn> { set f | f in frames && frames[f].typ == Free }

  /** Every free frame but g, or every free frame, is free still. */
  ghost predicate TookBut(a: Frames, b: Frames, g: Pfn) {
    a.Keys == b.Keys && forall f :: f in a && f != g && a[f].typ == Free ==> b[f].typ == Free
  }

  ghost predicate NoneTaken(a: Frames, b: Frames) {
    a.Keys == b.Keys && forall f :: f in a && a[f].typ == Free ==> b[f].typ == Free
  }

  /** At most one free frame was taken. */
  ghost predicate TookOne(a: Frames, b: Frames) { exists g :: TookBut(a, b, g) }

  lemma TookThen(a: Frames, b: Frames, c: Frames)
    ensures NoneTaken(a, b) && TookOne(b, c) ==> TookOne(a, c)
    ensures TookOne(a, b) && NoneTaken(b, c) ==> TookOne(a, c)
    ensures NoneTaken(a, b) ==> TookOne(a, b)
  {
    if TookOne(b, c) && NoneTaken(a, b) {
      var g :| TookBut(b, c, g);
      assert TookBut(a, c, g);
    }
    if TookOne(a, b) && NoneTaken(b, c) {
      var g :| TookBut(a, b, g);
      assert TookBut(a, c, g);
    }
    assert NoneTaken(a, b) ==> TookBut(a, b, 0);
  }

  lemma NoneYet(a: Frames)
    ensures NoneTaken(a, a) && TookOne(a, a)
  {
    assert TookBut(a, a, 0);
  }

  lemma FreeFalls(a: Frames, b: Frames)
    requires TookOne(a, b)
    ensures |FreeFrames(b)| >= |FreeFrames(a)| - 1
  {
    var g :| TookBut(a, b, g);
    SubsetSize(FreeFrames(a) - {g}, FreeFrames(b));
  }

  lemma RoomLeft(frames: Frames)
    ensures NoRoom(frames) <==> FreeFrames(frames) == {}
  {
    if FreeFrames(frames) == {} {
      forall f | f in frames ensures frames[f].typ != Free {
        assert f !in FreeFrames(frames);
      }
    }
  }

  type PageTables = map<Slot, L1e>
  type Frames = map<Pfn, Frame>
  type Memory = map<Pfn, Page>

  /** Page tables start zeroed, so a slot never written holds a blank entry. */
  function Entry(pt: PageTables, s: Slot): L1e { if s in pt then pt[s] else BLANK }

  /** External entries stay as they are. */
  ghost predicate ExternalKept(pt0: PageTables, pt: PageTables) {
    forall t :: Entry(pt0, t).IsExternal() ==> Entry(pt, t) == Entry(pt0, t)
  }

  predicate WritableAt(pt: PageTables, s: Slot) { Entry(pt, s).present && Entry(pt, s).writable }

  /** External entries stay as they are, and what could be written can be. */
  ghost predicate AccessKeeps(pt0: PageTables, pt: PageTables) {
    ExternalKept(pt0, pt) && forall t :: WritableAt(pt0, t) ==> WritableAt(pt, t)
  }

  // ---------------------------------------------------------------- invariants

  /** The slots whose entry holds frame f under the reference count. */
  ghost function Mappings(pt: PageTables, f: Pfn): set<Slot> {
    set s | s in pt && pt[s].MapsFrame() && pt[s].pfn == f
  }

  ghost predicate EntryOk(e: L1e, frames: Frames) {
    e.present ==>
      && e.user
      && e.kind != Mixed
      && e.pfn in frames
      && frames[e.pfn].typ == (if e.kind == Iomap then Mmio else User)
      && (e.kind == Cow ==> !e.writable)
  }

  /** Present entries are user entries of a known kind over a frame of the matching type, and a
      copy-on-write entry is never writable. */
  ghost predicate Typed(pt: PageTables, frames: Frames) {
    forall s :: s in pt ==> EntryOk(pt[s], frames)
  }

  /** ref(f) is at least the number of user mappings of f. */
  ghost predicate Counted(pt: PageTables, frames: Frames) {
    forall f :: f in frames && frames[f].typ == User ==> |Mappings(pt, f)| <= frames[f].ref
  }

  /** A user frame has one mapping, or all its mappings are copy-on-write (hence not writable). */
  ghost predicate Exclusive(pt: PageTables) {
    forall a, b :: (a in pt && b in pt && a != b && pt[a].MapsFrame() && pt[b].MapsFrame()
                    && pt[a].pfn == pt[b].pfn) ==> pt[a].kind == Cow
  }

  ghost predicate Inv(pt: PageTables, frames: Frames) {
    Typed(pt, frames) && Counted(pt, frames) && Exclusive(pt)
  }

  /** Every copy-on-write entry's frame has a count of at least two. */
  ghost predicate CowShared(pt: PageTables, frames: Frames) {
    forall s :: s in pt && pt[s].IsCow() && pt[s].pfn in frames ==> frames[pt[s].pfn].ref >= 2
  }

  // ---------------------------------------------------------------- pages wired for devices

  /** One record of a page exported to a device: the client that asked, the page, and the
      offset of the address within it. */
  datatype Dma = Dma(client: nat, slot: Slot, off: nat)

  function CountSlot(ds: seq<Dma>, s: Slot): nat {
    if ds == [] then 0 else (if ds[0].slot == s then 1 else 0) + CountSlot(ds[1..], s)
  }

  lemma {:induction false} CountSlotSplit(a: seq<Dma>, b: seq<Dma>, s: Slot)
    ensures CountSlot(a + b, s) == CountSlot(a, s) + CountSlot(b, s)
  {
    if a == [] {
      assert a + b == b;
    } else {
      CountSlotSplit(a[1..], b, s);
      assert (a + b)[1..] == a[1..] + b;
    }
  }

  /** Removing one record lowers the count of its page by one and leaves the others. */
  lemma CountSlotRemove(ds: seq<Dma>, i: nat, s: Slot)
    requires i < |ds|
    ensures CountSlot(ds[..i] + ds[i + 1..], s)
            == CountSlot(ds, s) - (if ds[i].slot == s then 1 else 0)
  {
    CountSlotSplit(ds[..i], ds[i + 1..], s);
    CountSlotSplit(ds[..i], ds[i..], s);
    assert ds == ds[..i] + ds[i..];
    assert ds[i..][1..] == ds[i + 1..];
  }

  lemma {:induction false} CountSlotPositive(ds: seq<Dma>, i: nat)
    requires i < |ds|
    ensures CountSlot(ds, ds[i].slot) >= 1
  {
    if i > 0 { CountSlotPositive(ds[1..], i - 1); }
  }

  lemma {:induction false} CountSlotWitness(ds: seq<Dma>, s: Slot) returns (i: nat)
    requires CountSlot(ds, s) >= 1
    ensures i < |ds| && ds[i].slot == s
  {
    if ds[0].slot == s { i := 0; } else { var j := CountSlotWitness(ds[1..], s); i := j + 1; }
  }

  /** What the wire count of a page's frame was when the frame was handed out. */
  function BaseOf(pt: PageTables, frames: Frames, s: Slot): nat {
    if s in pt && pt[s].pfn in frames then frames[pt[s].pfn].base else 0
  }

  /** An entry of a page with n export records: the wire count of its frame is what it started from
      plus, if the page is wired, n; and a page without records is not wired, unless the count did
      not start from zero. */
  predicate WireOk(e: L1e, frames: Frames, n: nat) {
    e.MapsFrame() && e.pfn in frames ==>
      var fr := frames[e.pfn];
      && fr.wir == fr.base + (if e.IsWired() then n else 0)
      && (e.IsWired() ==> n >= 1 || fr.base != 0)
  }

  /** So it is with every entry, and every page with records is wired. */
  ghost predicate WireCounted(pt: PageTables, frames: Frames, dmas: seq<Dma>) {
    && (forall s :: s in pt ==> WireOk(pt[s], frames, CountSlot(dmas, s)))
    && (forall i :: 0 <= i < |dmas| ==> dmas[i].slot in pt && pt[dmas[i].slot].IsWired())
  }

  /** Every mapped user frame started from a wire count of zero. */
  ghost predicate NoLeftover(pt: PageTables, frames: Frames) {
    forall s :: s in pt && pt[s].MapsFrame() && pt[s].pfn in frames ==> frames[pt[s].pfn].base == 0
  }

  /** Then a page is wired exactly while it has export records, and its wire count is their number. */
  lemma WiresAreRecords(pt: PageTables, frames: Frames, dmas: seq<Dma>, s: Slot)
    requires Inv(pt, frames) && WireCounted(pt, frames, dmas) && NoLeftover(pt, frames) && s in pt && pt[s].MapsFrame()
    ensures pt[s].IsWired() <==> CountSlot(dmas, s) >= 1
    ensures pt[s].pfn in frames && frames[pt[s].pfn].wir == CountSlot(dmas, s)
  {
    assert EntryOk(pt[s], frames);
    if CountSlot(dmas, s) >= 1 {
      var i := CountSlotWitness(dmas, s);
    }
  }

  /** The reference count of an entry's frame. */
  function RefOf(frames: Frames, e: L1e): nat { if e.pfn in frames then frames[e.pfn].ref else 0 }

  // ---------------------------------------------------------------- changing one entry

  lemma EntryIsOk(pt: PageTables, frames: Frames, s: Slot)
    requires Inv(pt, frames)
    ensures EntryOk(Entry(pt, s), frames)
  {
  }

  /** The mappings of every frame after one entry changes. */
  lemma SetEntryMappings(pt: PageTables, s: Slot, e: L1e, f: Pfn)
    ensures Mappings(pt[s := e], f)
            == (Mappings(pt, f) - {s}) + (if e.MapsFrame() && e.pfn == f then {s} else {})
  {
  }

  /** A frame under a normal or wired entry is mapped nowhere else. */
  lemma SoleMapping(pt: PageTables, s: Slot)
    requires Exclusive(pt) && s in pt && pt[s].MapsFrame() && pt[s].kind != Cow
    ensures Mappings(pt, pt[s].pfn) == {s}
  {
  }

  lemma MappingsFinite(pt: PageTables, f: Pfn, s: Slot)
    requires s in Mappings(pt, f)
    ensures |Mappings(pt, f)| >= 1
    ensures |Mappings(pt, f) - {s}| == |Mappings(pt, f)| - 1
  {
  }

  /** Taking a mapping away keeps every invariant, and the count may drop by one if the entry
      removed was a normal one. */
  lemma RemoveEntry(pt: PageTables, frames: Frames, s: Slot, e: L1e)
    requires Inv(pt, frames) && !e.present
    ensures Inv(pt[s := e], frames)
  {
    var pt' := pt[s := e];
    forall f | f in frames && frames[f].typ == User
      ensures |Mappings(pt', f)| <= frames[f].ref
    {
      SetEntryMappings(pt, s, e, f);
      SubsetSize(Mappings(pt', f), Mappings(pt, f));
    }
  }

  lemma SubsetSize<T>(a: set<T>, b: set<T>)
    requires a <= b
    ensures |a| <= |b|
  {
    if a != b {
      assert b == a + (b - a);
      assert |b| == |a| + |b - a|;
    }
  }

  /** Lowering the count of a frame that lost its only mapping keeps the invariants. */
  lemma DropReference(pt: PageTables, frames: Frames, f: Pfn, n: nat)
    requires Inv(pt, frames) && f in frames && Mappings(pt, f) == {}
    ensures Inv(pt, frames[f := frames[f].(ref := n)])
  {
  }

  /** A frame that no entry maps may change type. */
  lemma RetypeUnmapped(pt: PageTables, frames: Frames, f: Pfn, fr: Frame)
    requires Inv(pt, frames) && f in frames && Mappings(pt, f) == {} && frames[f].typ != Mmio
    ensures Inv(pt, frames[f := fr])
  {
    var frames' := frames[f := fr];
    forall s | s in pt ensures EntryOk(pt[s], frames') {
      assert EntryOk(pt[s], frames);
      assert pt[s].MapsFrame() && pt[s].pfn == f ==> s in Mappings(pt, f);
    }
  }

  /** Entering a frame nothing maps, with its count raised by one. */
  lemma EnterFresh(pt: PageTables, frames: Frames, s: Slot, e: L1e)
    requires Inv(pt, frames) && e.present && e.kind == Normal && EntryOk(e, frames)
    requires Mappings(pt, e.pfn) == {}
    ensures Inv(pt[s := e], frames[e.pfn := frames[e.pfn].(ref := frames[e.pfn].ref + 1)])
  {
    var f := e.pfn;
    var pt' := pt[s := e];
    var frames' := frames[f := frames[f].(ref := frames[f].ref + 1)];
    forall t | t in pt' ensures EntryOk(pt'[t], frames') {
      assert t != s ==> EntryOk(pt[t], frames);
    }
    EnterKeepsCounted(pt, frames, s, e);
    EnterKeepsExclusive(pt, s, e);
  }

  lemma EnterKeepsCounted(pt: PageTables, frames: Frames, s: Slot, e: L1e)
    requires Counted(pt, frames) && e.pfn in frames && Mappings(pt, e.pfn) == {}
    ensures Counted(pt[s := e], frames[e.pfn := frames[e.pfn].(ref := frames[e.pfn].ref + 1)])
  {
    var f, pt' := e.pfn, pt[s := e];
    var frames' := frames[f := frames[f].(ref := frames[f].ref + 1)];
    forall g | g in frames' && frames'[g].typ == User
      ensures |Mappings(pt', g)| <= frames'[g].ref
    {
      SetEntryMappings(pt, s, e, g);
      if g != f {
        SubsetSize(Mappings(pt', g), Mappings(pt, g));
      } else {
        assert Mappings(pt', g) <= {s};
        SubsetSize(Mappings(pt', g), {s});
      }
    }
  }

  lemma EnterKeepsExclusive(pt: PageTables, s: Slot, e: L1e)
    requires Exclusive(pt) && Mappings(pt, e.pfn) == {}
    ensures Exclusive(pt[s := e])
  {
    var pt' := pt[s := e];
    forall a, b | a in pt' && b in pt' && a != b && pt'[a].MapsFrame() && pt'[b].MapsFrame()
                  && pt'[a].pfn == pt'[b].pfn
      ensures pt'[a].kind == Cow
    {
      assert a == s ==> b in Mappings(pt, e.pfn);
      assert b == s ==> a in Mappings(pt, e.pfn);
    }
  }

  /** Changing an entry without changing which frame it maps: allowed when the frame is not
      shared, or when the entry stays copy-on-write. */
  lemma RetypeEntry(pt: PageTables, frames: Frames, s: Slot, e: L1e)
    requires Inv(pt, frames) && s in pt && pt[s].MapsFrame() && e.MapsFrame() && e.pfn == pt[s].pfn
    requires EntryOk(e, frames)
    requires e.kind == Cow || Mappings(pt, e.pfn) == {s}
    ensures Inv(pt[s := e], frames)
  {
    hide EntryOk;
    var pt' := pt[s := e];
    forall f | f in frames && frames[f].typ == User
      ensures |Mappings(pt', f)| <= frames[f].ref
    {
      assert Mappings(pt', f) == Mappings(pt, f);
    }
    RetypeKeepsExclusive(pt, s, e);
  }

  lemma RetypeKeepsExclusive(pt: PageTables, s: Slot, e: L1e)
    requires Exclusive(pt) && s in pt && pt[s].MapsFrame() && e.MapsFrame() && e.pfn == pt[s].pfn
    requires e.kind == Cow || Mappings(pt, e.pfn) == {s}
    ensures Exclusive(pt[s := e])
  {
    var pt' := pt[s := e];
    forall a, b | a in pt' && b in pt' && a != b && pt'[a].MapsFrame() && pt'[b].MapsFrame()
                  && pt'[a].pfn == pt'[b].pfn
      ensures pt'[a].kind == Cow
    {
      assert a == s ==> b in Mappings(pt, e.pfn);
      assert a != s ==> pt[a].kind == Cow;
    }
  }

  /** Adding one more copy-on-write mapping of a frame all of whose mappings are copy-on-write. */
  lemma ShareCow(pt: PageTables, frames: Frames, c: Slot, e: L1e)
    requires Inv(pt, frames) && e.IsCow() && EntryOk(e, frames)
    requires c !in pt || !pt[c].present
    requires forall a :: a in Mappings(pt, e.pfn) ==> pt[a].kind == Cow
    ensures Inv(pt[c := e], frames[e.pfn := frames[e.pfn].(ref := frames[e.pfn].ref + 1)])
  {
    var f := e.pfn;
    var pt' := pt[c := e];
    var frames' := frames[f := frames[f].(ref := frames[f].ref + 1)];
    forall t | t in pt' ensures EntryOk(pt'[t], frames') {
      assert t != c ==> EntryOk(pt[t], frames);
    }
    ShareCowCounted(pt, frames, c, e);
    assert forall a :: a in pt && pt[a].MapsFrame() && pt[a].pfn == f ==> a in Mappings(pt, f);
  }

  lemma ShareCowCounted(pt: PageTables, frames: Frames, c: Slot, e: L1e)
    requires Counted(pt, frames) && e.IsCow() && e.pfn in frames
    requires c !in pt || !pt[c].present
    ensures Counted(pt[c := e], frames[e.pfn := frames[e.pfn].(ref := frames[e.pfn].ref + 1)])
  {
    var f := e.pfn;
    var pt' := pt[c := e];
    var frames' := frames[f := frames[f].(ref := frames[f].ref + 1)];
    forall g | g in frames' && frames'[g].typ == User
      ensures |Mappings(pt', g)| <= frames'[g].ref
    {
      assert c !in Mappings(pt, g);
      if g == f {
        assert Mappings(pt', g) == Mappings(pt, g) + {c};
      } else {
        assert Mappings(pt', g) == Mappings(pt, g);
      }
    }
  }

  // ---------------------------------------------------------------- replacing an entry

  function Raised(frames: Frames, f: Pfn): Frames
    requires f in frames
  {
    frames[f := frames[f].(ref := frames[f].ref + 1)]
  }

  /** Counters are 64 bits wide and wrap below zero. */
  function Dec(n: nat): nat { if n == 0 then 0xffff_ffff_ffff_ffff else n - 1 }

  function Lowered(frames: Frames, f: Pfn): Frames
    requires f in frames
  {
    frames[f := frames[f].(ref := Dec(frames[f].ref))]
  }

  /** The counts after entry o gives way to entry n: a new frame gains a reference, a normal old
      frame loses one, a copy-on-write old frame loses none. */
  function Replaced(frames: Frames, o: L1e, n: L1e): Frames
    requires n.MapsFrame() ==> n.pfn in frames
    requires o.IsNormal() ==> o.pfn in frames
  {
    var raised := if n.MapsFrame() then Raised(frames, n.pfn) else frames;
    if o.IsNormal() then Lowered(raised, o.pfn) else raised
  }

  /** Frame by frame: the reference count goes up by one for the frame entered and down by one for a normal
      frame displaced; nothing else changes. */
  lemma ReplacedIs(frames: Frames, o: L1e, n: L1e, f: Pfn)
    requires (n.MapsFrame() ==> n.pfn in frames) && (o.IsNormal() ==> o.pfn in frames) && f in frames
    requires o.IsNormal() && f == o.pfn ==> frames[f].ref >= 1
    ensures var up, down := if n.present && n.kind != Iomap && n.pfn == f then 1 else 0, if o.present && o.kind == Normal && o.pfn == f then 1 else 0;
            && Replaced(frames, o, n).Keys == frames.Keys
            && Replaced(frames, o, n)[f] == frames[f].(ref := frames[f].ref + up - down)
    ensures frames[f].ref >= 1 ==> Lowered(frames, f) == frames[f := frames[f].(ref := frames[f].ref - 1)]
    ensures Raised(frames, f) == frames[f := frames[f].(ref := frames[f].ref + 1)]
  {
  }

  ghost predicate CanReplace(pt: PageTables, frames: Frames, s: Slot, n: L1e) {
    && Inv(pt, frames)
    && !Entry(pt, s).IsExternal()
    && EntryOk(n, frames)
    && (n.MapsFrame() ==> n.kind == Normal && Mappings(pt, n.pfn) == {})
  }

  /** Replacing a normal entry leaves the frame it held unmapped. */
  lemma LostMapping(pt: PageTables, frames: Frames, s: Slot, n: L1e)
    requires CanReplace(pt, frames, s, n) && s in pt && pt[s].IsNormal()
    ensures Mappings(pt[s := n], pt[s].pfn) == {}
  {
  }

  lemma IomapEntry(pt: PageTables, frames: Frames, s: Slot, n: L1e)
    requires Inv(pt, frames) && EntryOk(n, frames) && !n.MapsFrame()
    ensures Inv(pt[s := n], frames)
  {
    hide EntryOk;
    var pt' := pt[s := n];
    forall t | t in pt' ensures EntryOk(pt'[t], frames) {
      assert t != s ==> EntryOk(pt[t], frames);
    }
    forall f | f in frames && frames[f].typ == User
      ensures |Mappings(pt', f)| <= frames[f].ref
    {
      SetEntryMappings(pt, s, n, f);
      SubsetSize(Mappings(pt', f), Mappings(pt, f));
    }
  }

  /** Replacing an entry keeps the sharing invariants. */
  lemma ReplaceKeepsInv(pt: PageTables, frames: Frames, s: Slot, n: L1e)
    requires CanReplace(pt, frames, s, n)
    ensures Entry(pt, s).IsNormal() ==> Entry(pt, s).pfn in frames
    ensures Inv(pt[s := n], Replaced(frames, Entry(pt, s), n))
  {
    var o := Entry(pt, s);
    assert s in pt ==> EntryOk(pt[s], frames);
    var raised := if n.MapsFrame() then Raised(frames, n.pfn) else frames;
    if n.MapsFrame() {
      EnterFresh(pt, frames, s, n);
    } else {
      IomapEntry(pt, frames, s, n);
    }
    if o.IsNormal() {
      LostMapping(pt, frames, s, n);
      DropReference(pt[s := n], raised, o.pfn, Dec(raised[o.pfn].ref));
    }
  }

  /** Replacing an entry keeps the wire counts. */
  lemma ReplaceKeepsWires(pt: PageTables, frames: Frames, dmas: seq<Dma>, s: Slot, n: L1e)
    requires CanReplace(pt, frames, s, n) && WireCounted(pt, frames, dmas)
    requires n.MapsFrame() ==> frames[n.pfn].wir == frames[n.pfn].base
    requires Entry(pt, s).IsNormal() ==> Entry(pt, s).pfn in frames
    ensures WireCounted(pt[s := n], Replaced(frames, Entry(pt, s), n), dmas)
  {
    hide CountSlot;
    var frames' := Replaced(frames, Entry(pt, s), n);
    assert forall f :: f in frames ==> f in frames' && frames'[f].wir == frames[f].wir && frames'[f].base == frames[f].base;
  }

  /** Replacing an entry leaves the count of every frame still shared copy-on-write alone. */
  lemma ReplaceKeepsCow(pt: PageTables, frames: Frames, s: Slot, n: L1e)
    requires CanReplace(pt, frames, s, n) && CowShared(pt, frames)
    requires Entry(pt, s).IsNormal() ==> Entry(pt, s).pfn in frames
    ensures CowShared(pt[s := n], Replaced(frames, Entry(pt, s), n))
  {
  }

  // ---------------------------------------------------------------- moving an entry

  const GONE := L1e(0xffff_ffff, Normal, false, false, false)

  function Moved(pt: PageTables, src: Slot, dst: Slot): PageTables {
    pt[src := GONE][dst := Entry(pt, src)]
  }

  /** Moving an entry to another page maps the same frames, less what the target held. */
  lemma MovedMappings(pt: PageTables, src: Slot, dst: Slot, f: Pfn)
    requires src != dst
    ensures |Mappings(Moved(pt, src, dst), f)| <= |Mappings(pt, f)|
    ensures dst !in Mappings(pt, f) || src !in Mappings(pt, f) ==>
              forall t :: t in Mappings(Moved(pt, src, dst), f) ==> t == dst || t in Mappings(pt, f) - {dst}
  {
    var m, m' := Mappings(pt, f), Mappings(Moved(pt, src, dst), f);
    if src in m {
      assert m' == (m - {src, dst}) + {dst};
      assert (m - {src, dst}) + {src} <= m;
      SubsetSize((m - {src, dst}) + {src}, m);
    } else {
      assert m' <= m;
      SubsetSize(m', m);
    }
  }

  /** A move between different pages of entries that are not external, with the target's normal
      frame losing its reference, keeps the sharing invariants; the target's frame is unmapped. */
  lemma MoveKeepsInv(pt: PageTables, frames: Frames, src: Slot, dst: Slot)
    requires Inv(pt, frames) && src != dst
    requires !Entry(pt, src).IsExternal() && !Entry(pt, dst).IsExternal()
    ensures Inv(Moved(pt, src, dst), frames)
    ensures var o := Entry(pt, dst);
            o.IsNormal() ==> o.pfn in frames && Mappings(Moved(pt, src, dst), o.pfn) == {}
                             && Inv(Moved(pt, src, dst), Lowered(frames, o.pfn))
  {
    var pt' := Moved(pt, src, dst);
    var o := Entry(pt, dst);
    forall t | t in pt' ensures EntryOk(pt'[t], frames) {
      assert src in pt ==> EntryOk(pt[src], frames);
      assert t in pt ==> EntryOk(pt[t], frames);
    }
    forall f | f in frames && frames[f].typ == User
      ensures |Mappings(pt', f)| <= frames[f].ref
    {
      MovedMappings(pt, src, dst, f);
    }
    MoveKeepsExclusive(pt, src, dst);
    if o.IsNormal() {
      assert EntryOk(pt[dst], frames);
      SoleMapping(pt, dst);
      assert src in pt && pt[src].MapsFrame() && pt[src].pfn == o.pfn ==> src in Mappings(pt, o.pfn);
      assert Mappings(pt', o.pfn) == {};
      DropReference(pt', frames, o.pfn, Dec(frames[o.pfn].ref));
    }
  }

  lemma MoveKeepsExclusive(pt: PageTables, src: Slot, dst: Slot)
    requires Exclusive(pt) && src != dst
    ensures Exclusive(Moved(pt, src, dst))
  {
  }

  lemma MoveKeepsCow(pt: PageTables, frames: Frames, src: Slot, dst: Slot)
    requires Inv(pt, frames) && CowShared(pt, frames) && src != dst
    ensures CowShared(Moved(pt, src, dst), frames)
    ensures var o := Entry(pt, dst);
            o.IsNormal() && o.pfn in frames ==> CowShared(Moved(pt, src, dst), Lowered(frames, o.pfn))
  {
  }

  /** Moving a page onto itself drops a reference it still needs: the invariants survive exactly
      when the count was not one, and when it was one the frame is handed back while mapped. */
  lemma SelfMove(pt: PageTables, frames: Frames, s: Slot)
    requires Inv(pt, frames) && s in pt && pt[s].IsNormal()
    ensures pt[s].pfn in frames && frames[pt[s].pfn].ref >= 1
    ensures Moved(pt, s, s) == pt && s in Mappings(pt, pt[s].pfn)
    ensures Inv(pt, Lowered(frames, pt[s].pfn)) <==> frames[pt[s].pfn].ref != 1
  {
    var f := pt[s].pfn;
    assert EntryOk(pt[s], frames);
    SoleMapping(pt, s);
    assert |Mappings(pt, f)| == 1;
    var frames' := Lowered(frames, f);
    if frames[f].ref != 1 {
      forall t | t in pt ensures EntryOk(pt[t], frames') {
        assert EntryOk(pt[t], frames);
      }
      assert Inv(pt, frames');
    } else {
      assert frames'[f].ref == 0 && frames'[f].typ == User;
    }
  }

  // ---------------------------------------------------------------- wiring

  function WireUp(frames: Frames, f: Pfn): Frames
    requires f in frames
  {
    frames[f := frames[f].(wir := frames[f].wir + 1)]
  }

  function WireDown(frames: Frames, f: Pfn): Frames
    requires f in frames
  {
    frames[f := frames[f].(wir := Dec(frames[f].wir))]
  }

  lemma WireCountsKeepInv(pt: PageTables, frames: Frames, f: Pfn, n: nat)
    requires Inv(pt, frames) && f in frames
    ensures Inv(pt, frames[f := frames[f].(wir := n)])
  {
  }

  /** Wiring a page whose frame nothing else maps, with its record added, keeps every invariant. */
  lemma WireKeeps(pt: PageTables, frames: Frames, dmas: seq<Dma>, s: Slot, d: Dma)
    requires Inv(pt, frames) && WireCounted(pt, frames, dmas)
    requires s in pt && pt[s].MapsFrame() && Mappings(pt, pt[s].pfn) == {s} && d.slot == s
    ensures pt[s].pfn in frames
    ensures Inv(pt[s := pt[s].MkWired()], WireUp(frames, pt[s].pfn))
    ensures WireCounted(pt[s := pt[s].MkWired()], WireUp(frames, pt[s].pfn), [d] + dmas)
  {
    var f, e, dmas' := pt[s].pfn, pt[s].MkWired(), [d] + dmas;
    assert EntryOk(pt[s], frames);
    RetypeEntry(pt, frames, s, e);
    WireCountsKeepInv(pt[s := e], frames, f, frames[f].wir + 1);
    WireKeepsCounts(pt, frames, dmas, s, d);
  }

  lemma WireKeepsCounts(pt: PageTables, frames: Frames, dmas: seq<Dma>, s: Slot, d: Dma)
    requires WireCounted(pt, frames, dmas)
    requires s in pt && pt[s].MapsFrame() && pt[s].pfn in frames && Mappings(pt, pt[s].pfn) == {s} && d.slot == s
    ensures WireCounted(pt[s := pt[s].MkWired()], WireUp(frames, pt[s].pfn), [d] + dmas)
  {
    hide CountSlot;
    var pt', frames', dmas' := pt[s := pt[s].MkWired()], WireUp(frames, pt[s].pfn), [d] + dmas;
    if !pt[s].IsWired() && CountSlot(dmas, s) > 0 {
      var i := CountSlotWitness(dmas, s);
      assert false;
    }
    forall t | t in pt ensures WireOk(pt'[t], frames', CountSlot(dmas', t)) {
      CountSlotCons(d, dmas, t);
      assert WireOk(pt[t], frames, CountSlot(dmas, t));
      assert t != s ==> t !in Mappings(pt, pt[s].pfn);
    }
  }

  lemma CountSlotCons(d: Dma, ds: seq<Dma>, s: Slot)
    ensures CountSlot([d] + ds, s) == (if d.slot == s then 1 else 0) + CountSlot(ds, s)
  {
    assert ([d] + ds)[1..] == ds;
  }

  /** The entry of a wired page after one of its records goes: normal exactly when no record is
      left and the wire count had started from zero. */
  function Unwired(pt: PageTables, base: nat, s: Slot, left: seq<Dma>): PageTables
    requires s in pt
  {
    if base == 0 && CountSlot(left, s) == 0 then pt[s := pt[s].MkNormal()] else pt
  }

  function WithoutAt(dmas: seq<Dma>, i: nat): seq<Dma>
    requires i < |dmas|
  {
    dmas[..i] + dmas[i + 1..]
  }

  /** A record's page is wired, and its wire count is one more than what it started from and the
      records left without this one. */
  lemma RecordIsWired(pt: PageTables, frames: Frames, dmas: seq<Dma>, i: nat)
    requires Typed(pt, frames) && WireCounted(pt, frames, dmas) && i < |dmas|
    ensures var s := dmas[i].slot;
            && s in pt && pt[s].IsWired() && pt[s].pfn in frames
            && frames[pt[s].pfn].typ == User
            && frames[pt[s].pfn].wir == BaseOf(pt, frames, s) + CountSlot(WithoutAt(dmas, i), s) + 1
  {
    assert EntryOk(pt[dmas[i].slot], frames);
    CountSlotPositive(dmas, i);
    CountSlotRemove(dmas, i, dmas[i].slot);
  }

  lemma UnwireKeepsInv(pt: PageTables, frames: Frames, base: nat, s: Slot, left: seq<Dma>)
    requires Inv(pt, frames) && s in pt && pt[s].IsWired()
    ensures pt[s].pfn in frames && Inv(Unwired(pt, base, s, left), WireDown(frames, pt[s].pfn))
  {
    assert EntryOk(pt[s], frames);
    if base == 0 && CountSlot(left, s) == 0 {
      SoleMapping(pt, s);
      RetypeEntry(pt, frames, s, pt[s].MkNormal());
    }
    WireCountsKeepInv(Unwired(pt, base, s, left), frames, pt[s].pfn, Dec(frames[pt[s].pfn].wir));
  }

  /** Dropping one record of a wired page keeps the wire counts exact. */
  lemma UnwireKeepsWires(pt: PageTables, frames: Frames, dmas: seq<Dma>, i: nat)
    requires Inv(pt, frames) && WireCounted(pt, frames, dmas) && i < |dmas|
    requires var s := dmas[i].slot; s in pt && pt[s].IsWired() && pt[s].pfn in frames
    ensures var s, left := dmas[i].slot, WithoutAt(dmas, i);
            WireCounted(Unwired(pt, BaseOf(pt, frames, s), s, left), WireDown(frames, pt[s].pfn), left)
  {
    hide CountSlot, Typed, Counted, Exclusive;
    var s, left := dmas[i].slot, WithoutAt(dmas, i);
    var pt', frames' := Unwired(pt, BaseOf(pt, frames, s), s, left), WireDown(frames, pt[s].pfn);
    RecordIsWired(pt, frames, dmas, i);
    OtherFrames(pt, s);
    forall t | t in pt ensures WireOk(pt'[t], frames', CountSlot(left, t)) {
      CountSlotRemove(dmas, i, t);
      assert WireOk(pt[t], frames, CountSlot(dmas, t));
    }
    forall j | 0 <= j < |left| ensures left[j].slot in pt' && pt'[left[j].slot].IsWired() {
      assert left[j] == dmas[if j < i then j else j + 1];
      CountSlotPositive(left, j);
    }
  }

  lemma OtherFrames(pt: PageTables, s: Slot)
    requires Exclusive(pt) && s in pt && pt[s].MapsFrame() && pt[s].kind != Cow
    ensures forall t :: t in pt && t != s && pt[t].MapsFrame() ==> pt[t].pfn != pt[s].pfn
  {
  }

  /** Wiring a copy-on-write page keeps "writable means exclusive" exactly when no other page
      maps its frame. */
  lemma WiringCow(pt: PageTables, s: Slot)
    requires Exclusive(pt) && s in pt && pt[s].IsCow()
    ensures Exclusive(pt[s := pt[s].MkWired()]) <==> Mappings(pt, pt[s].pfn) == {s}
  {
    var pt', f := pt[s := pt[s].MkWired()], pt[s].pfn;
    assert s in Mappings(pt, f);
    if Mappings(pt, f) != {s} {
      var t :| t in Mappings(pt, f) && t != s;
      assert pt'[s].MapsFrame() && pt'[t].MapsFrame() && pt'[s].pfn == pt'[t].pfn && pt'[s].kind == Wired;
    } else {
      forall a, b | a in pt' && b in pt' && a != b && pt'[a].MapsFrame() && pt'[b].MapsFrame()
                    && pt'[a].pfn == pt'[b].pfn
        ensures pt'[a].kind == Cow
      {
        assert a == s ==> b in Mappings(pt, f);
      }
    }
  }

  /** Removing or relabelling an entry that is not wired leaves wire counts and shares alone. */
  lemma RetypeKeepsRest(pt: PageTables, frames: Frames, dmas: seq<Dma>, s: Slot, e: L1e)
    requires WireCounted(pt, frames, dmas) && !Entry(pt, s).IsWired() && !e.IsWired() && !e.IsCow()
    requires e.MapsFrame() ==> Entry(pt, s).MapsFrame() && e.pfn == Entry(pt, s).pfn
    ensures WireCounted(pt[s := e], frames, dmas)
    ensures CowShared(pt, frames) ==> CowShared(pt[s := e], frames)
  {
  }
}
