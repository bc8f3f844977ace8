/** Fork with the frame of the low page taken from the page allocator. */
module LowPage {
  import opened Options
  import opened FrameSharing
  import opened EagerFork
  import opened PageMap
  import opened PageZone
  import opened ZoneIndex
  import ThreadFork
  import Powers

  /** What the wire count of a frame just taken reads as.  The two 64-bit counts of a user frame lie
      over the record of a free extent: the reference count over its two list pointers, the wire count
      over its address and, in the high word, its size. */
  function WireOver(x: Ext): nat { x.addr + x.size * WORD }

  lemma WireOverIs(x: Ext)
    requires x.addr < 0x1_0000_0000
    ensures WireOver(x) % 0x1_0000_0000 == x.addr && WireOver(x) / 0x1_0000_0000 == x.size
  {
  }

  /** The frames the allocator may hand out are free.  The last element of the database is no frame. */
  ghost predicate Shares(frames: Frames, db: Db) {
    forall p: nat :: p + 1 < |db.tags| && !db.tags[p].Busy? ==> p in frames && frames[p].typ == FrameType.Free
  }

  /** The page-map part of fork, with the frame the allocator returned.  The frame's reference count is
      cleared but its wire count is not, and it is never zero; so after the fork every wire count has
      started from zero exactly if it had before and there was no low page to copy. */
  method ForkFromZone(k: Kernel, z: Pages, user: nat, parent: Pid, child: Pid) returns (r: Result)
    requires k.Valid() && z.Valid() && Shares(k.frames, z.db) && parent != child && ThreadFork.Empty(k.pt, child)
    modifies k`pt, k`frames, k`mem, k`sig, k`roots, z`db, z.zone
    ensures r == if old(z.zone.free) == {} then Panic else Ok
    ensures z.Valid() && |z.db.tags| == |old(z.db).tags|
    ensures r.Ok? ==> k.Valid() && Shares(k.frames, z.db)
    ensures r.Ok? ==> k.State() == Step(old(k.State()), EagerFork.Fork(parent, child))
    ensures r.Ok? ==> (NoLeftover(k.pt, k.frames) <==>
                         old(NoLeftover(k.pt, k.frames)) && !Entry(old(k.pt), Slot(parent, USERBASE)).present)
    ensures r.Ok? && Entry(old(k.pt), Slot(parent, USERBASE)).present ==>
              exists g: nat :: g < |z.db.tags| && ThreadFork.ForkedTables(old(k.pt), k.pt, parent, child, g)
                               && !old(z.db).tags[g].Busy? && z.db.tags[g] == Tag.Busy(user)
    ensures r.Ok? && !Entry(old(k.pt), Slot(parent, USERBASE)).present ==>
              forall p: nat :: p < |z.db.tags| ==> z.db.tags[p].Busy? == old(z.db).tags[p].Busy?
  {
    hide Typed, Counted, Exclusive, WireCounted, CowShared, NoLeftover, Seen, Devices, Step, Pages.Stale, IsFree, Kernel.Valid, Powers.Pow2, MinBit, ThreadFork.ForkedTables;
    NoneLeft(z);
    var g := z.PgAlloc(1, user);
    if g.None? {
      return Panic;
    }
    var leftover := WireOver(z.db.recs[g.value]);
    var present := Entry(k.pt, Slot(parent, USERBASE)).present;
    r := ThreadFork.Fork(k, parent, child, g, leftover);
    if !present {
      z.PgFree(g.value, 1);
    }
  }

  /** A zone without an extent for one frame is empty. */
  lemma NoneLeft(z: Pages)
    requires z.Valid()
    ensures (forall x :: x in z.zone.free ==> x.size < Powers.Pow2(MinBit(1))) <==> z.zone.free == {}
  {
    TaggedLengths(z.db, z.zone.free, 0, 0);
    hide Pages.Valid, Pages.Stale;
    assert Powers.Pow2(MinBit(1)) == 1;
  }
}
