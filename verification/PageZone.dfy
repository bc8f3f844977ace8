/** The page allocator of one memory type: free extents of frames, marked by tags and records at
    both ends in the frame database, over a zone index. */
module PageZone {
  import opened Options
  import opened Powers
  import opened ZoneIndex

  /** A frame's type tag: alone, first or last of a free extent; free; or anything else. */
  datatype Tag = Lone | Strt | Term | Free | Busy(t: nat) {
    predicate IsTerm() { Lone? || Term? }
    predicate IsStart() { Lone? || Strt? }
  }

  /** The frame database: each frame's tag, and the record kept in it.  Its last element is not a
      frame: it stands for the record just past the database, which the neighbour test reads. */
  datatype Db = Db(tags: seq<Tag>, recs: seq<Ext>)

  predicate Within(x: Ext, p: nat) { x.addr <= p < x.End() }

  ghost predicate IsFree(fs: set<Ext>, p: nat) { exists x :: x in fs && Within(x, p) }

  /** Extents have a size, and between any two of them lies at least one frame. */
  ghost predicate Spread(fs: set<Ext>) {
    && (forall x :: x in fs ==> x.size > 0)
    && (forall x, y :: x in fs && y in fs && x != y ==> x.End() < y.addr || y.End() < x.addr)
  }

  /** Extent x is tagged at both ends and between, and both end records hold it. */
  ghost predicate Marked(db: Db, x: Ext)
    requires |db.recs| == |db.tags|
  {
    && x.size > 0 && x.End() < |db.tags|
    && db.recs[x.addr] == x && db.recs[x.End() - 1] == x
    && db.tags[x.addr] == (if x.size == 1 then Lone else Strt)
    && (x.size > 1 ==> db.tags[x.End() - 1] == Term)
    && (forall p :: x.addr < p < x.End() - 1 ==> db.tags[p] == Free)
  }

  /** Outside [a, b) the tags LONE, STRT and TERM stand exactly at the ends of the extents. */
  ghost predicate Tagged(db: Db, fs: set<Ext>, a: nat, b: nat) {
    && |db.recs| == |db.tags|
    && (forall x :: x in fs ==> Marked(db, x) && (x.End() <= a || b <= x.addr))
    && (forall p :: 0 <= p < |db.tags| && !(a <= p < b) && db.tags[p].IsStart() ==> db.recs[p] in fs && db.recs[p].addr == p)
    && (forall p :: 0 <= p < |db.tags| && !(a <= p < b) && db.tags[p].IsTerm() ==> db.recs[p] in fs && db.recs[p].End() == p + 1)
  }

  // ---------------------------------------------------------------- neighbours

  /** The free extents found before and after [addr, addr + size); mt is the memory type of a frame. */
  function Prev(db: Db, mt: nat -> int, addr: nat): Option<Ext>
    requires |db.recs| == |db.tags| && addr <= |db.tags|
  {
    if addr == 0 || mt(addr) != mt(addr - 1) || !db.tags[addr - 1].IsTerm() then None
    else
      var s := db.recs[addr - 1].size;
      if s <= addr && addr - s < |db.recs| then Some(db.recs[addr - s]) else None
  }

  function Next(db: Db, mt: nat -> int, addr: nat, size: nat): Option<Ext>
    requires |db.recs| == |db.tags| && addr + size < |db.tags|
  {
    if mt(addr) != mt(addr + 1) || !db.tags[addr + size].IsStart() then None
    else Some(db.recs[addr + size])
  }

  /** With true tags before it, the previous extent is the one that ends there. */
  lemma PrevIs(db: Db, fs: set<Ext>, mt: nat -> int, addr: nat, a: nat, b: nat)
    requires Tagged(db, fs, a, b) && addr <= |db.tags| && (addr > 0 ==> !(a <= addr - 1 < b))
    ensures Prev(db, mt, addr).Some? ==> Prev(db, mt, addr).value in fs && Prev(db, mt, addr).value.End() == addr
    ensures Prev(db, mt, addr).None? && addr > 0 && mt(addr) == mt(addr - 1) ==> forall x :: x in fs ==> x.End() != addr
    ensures addr == 0 || mt(addr) != mt(addr - 1) ==> Prev(db, mt, addr).None?
  {
  }

  lemma NextIs(db: Db, fs: set<Ext>, mt: nat -> int, addr: nat, size: nat, a: nat, b: nat)
    requires Tagged(db, fs, a, b) && addr + size < |db.tags| && !(a <= addr + size < b)
    ensures Next(db, mt, addr, size).Some? ==> Next(db, mt, addr, size).value in fs && Next(db, mt, addr, size).value.addr == addr + size
    ensures Next(db, mt, addr, size).None? && mt(addr) == mt(addr + 1) ==> forall x :: x in fs ==> x.addr != addr + size
  {
  }

  /** The check of memory types before the next extent compares the first two frames of the block,
      not its last frame and the one after.  So the extent found is of another type than the block
      exactly when the block has at least two frames, the frame after it starts a free extent, and
      that frame is of another type. */
  lemma NextCrossesTypes(db: Db, fs: set<Ext>, mt: nat -> int, addr: nat, size: nat, a: nat, b: nat)
    requires Tagged(db, fs, a, b) && size > 0 && addr + size < |db.tags| && !(a <= addr + size < b)
    requires forall p :: addr <= p < addr + size ==> mt(p) == mt(addr)
    ensures (Next(db, mt, addr, size).Some? && mt(Next(db, mt, addr, size).value.addr) != mt(addr))
            <==> size > 1 && db.tags[addr + size].IsStart() && mt(addr + size) != mt(addr)
  {
  }

  /** For a block that ends with the last frame, the record past the database is read: always if the
      block has two frames or more, and for one frame if the types say so.  If that record then reads
      as the start of an extent, the block is offered it; otherwise nothing.  This is why the last
      element of the database is taken not to read so. */
  lemma PastTheEnd(db: Db, mt: nat -> int, addr: nat, size: nat)
    requires |db.recs| == |db.tags| == addr + size + 1 && size > 0
    requires forall p :: addr <= p < addr + size ==> mt(p) == mt(addr)
    ensures Next(db, mt, addr, size) ==
            if (size > 1 || mt(addr + size) == mt(addr)) && db.tags[addr + size].IsStart()
            then Some(db.recs[addr + size]) else None
  {
    assert size > 1 ==> mt(addr + 1) == mt(addr);
  }

  /** Two frames of one type before a free frame of another: the block is offered the other type's
      extent to merge with. */
  lemma CrossingExample()
    ensures var mt := (p: nat) => if p < 3 then 0 else 2;
            var db := Db([Busy(0), Busy(0), Busy(0), Lone, Busy(0)], [Ext(0, 0), Ext(0, 0), Ext(0, 0), Ext(3, 1), Ext(0, 0)]);
            && Tagged(db, {Ext(3, 1)}, 1, 3)
            && Next(db, mt, 1, 2) == Some(Ext(3, 1)) && mt(3) != mt(1)
  {
  }

  // ---------------------------------------------------------------- marking an extent

  function TagsFrom(size: nat): seq<Tag>
    requires size > 0
  {
    if size == 1 then [Lone] else [Strt] + seq(size - 2, i => Free) + [Term]
  }

  /** The database with extent x marked in it. */
  function Mark(db: Db, x: Ext): Db
    requires |db.recs| == |db.tags| && x.size > 0 && x.End() <= |db.tags|
  {
    Db(db.tags[..x.addr] + TagsFrom(x.size) + db.tags[x.End()..], db.recs[x.addr := x][x.End() - 1 := x])
  }

  lemma MarkAt(db: Db, x: Ext)
    requires |db.recs| == |db.tags| && x.size > 0 && x.End() <= |db.tags|
    ensures var d := Mark(db, x);
            && |d.tags| == |d.recs| == |db.tags|
            && (forall p: nat :: p < |d.tags| && !Within(x, p) ==> d.tags[p] == db.tags[p] && d.recs[p] == db.recs[p])
            && (x.End() < |db.tags| ==> Marked(d, x))
            && (forall p: nat :: Within(x, p) && d.tags[p].IsStart() ==> p == x.addr)
            && (forall p: nat :: Within(x, p) && d.tags[p].IsTerm() ==> p == x.End() - 1)
            && (forall p: nat :: Within(x, p) ==> !d.tags[p].Busy?)
  {
  }

  /** Marking a new extent that fills the end of the stale range and touches no other keeps the
      tags exact outside what is left of that range. */
  lemma MarkKeeps(db: Db, fs: set<Ext>, a: nat, b: nat, x: Ext)
    requires Tagged(db, fs, a, b) && Spread(fs) && a <= x.addr && x.End() == b < |db.tags| && x.size > 0
    requires forall y :: y in fs ==> y.End() < x.addr || x.End() < y.addr
    ensures Tagged(Mark(db, x), fs + {x}, a, x.addr) && Spread(fs + {x}) && x !in fs
  {
    hide Mark, Marked;
    var d, fs' := Mark(db, x), fs + {x};
    MarkAt(db, x);
    forall y | y in fs ensures Marked(d, y) {
      MarkFar(db, x, y);
    }
    forall p: nat | p < |d.tags| && !(a <= p < x.addr)
      ensures d.tags[p].IsStart() ==> d.recs[p] in fs' && d.recs[p].addr == p
      ensures d.tags[p].IsTerm() ==> d.recs[p] in fs' && d.recs[p].End() == p + 1
    {
      MarkPage(db, fs, a, b, x, p);
    }
  }

  lemma MarkPage(db: Db, fs: set<Ext>, a: nat, b: nat, x: Ext, p: nat)
    requires Tagged(db, fs, a, b) && a <= x.addr && x.End() == b < |db.tags| && x.size > 0
    requires p < |db.tags| && !(a <= p < x.addr)
    ensures var d := Mark(db, x);
            && |d.tags| == |d.recs| == |db.tags|
            && (d.tags[p].IsStart() ==> d.recs[p] in fs + {x} && d.recs[p].addr == p)
            && (d.tags[p].IsTerm() ==> d.recs[p] in fs + {x} && d.recs[p].End() == p + 1)
  {
    hide Mark;
    MarkAt(db, x);
    var d := Mark(db, x);
    if Within(x, p) {
      assert Marked(d, x);
    } else {
      assert d.tags[p] == db.tags[p] && d.recs[p] == db.recs[p];
    }
  }

  lemma MarkFar(db: Db, x: Ext, y: Ext)
    requires |db.recs| == |db.tags| && x.size > 0 && x.End() <= |db.tags| && Marked(db, y)
    requires y.End() <= x.addr || x.End() <= y.addr
    ensures Marked(Mark(db, x), y)
  {
  }

  /** Taking an extent out leaves its tags stale; the stale range grows over it. */
  lemma Unmark(db: Db, fs: set<Ext>, a: nat, b: nat, x: Ext)
    requires Tagged(db, fs, a, b) && Spread(fs) && x in fs && (a == b || x.End() == a || x.addr == b)
    ensures Spread(fs - {x})
    ensures a == b ==> Tagged(db, fs - {x}, x.addr, x.End())
    ensures x.End() == a < b ==> Tagged(db, fs - {x}, x.addr, b)
    ensures x.addr == b && a < b ==> Tagged(db, fs - {x}, a, x.End())
  {
    var fs' := fs - {x};
    assert Marked(db, x);
    forall p | 0 <= p < |db.tags| && !(a <= p < b) && !Within(x, p)
      ensures db.tags[p].IsStart() ==> db.recs[p] in fs' && db.recs[p].addr == p
      ensures db.tags[p].IsTerm() ==> db.recs[p] in fs' && db.recs[p].End() == p + 1
    {
    }
  }

  // ---------------------------------------------------------------- what is free

  /** Replacing the extents beside and within [z, b) by one that spans them frees exactly that range. */
  lemma FreeMerged(fs: set<Ext>, pz: Option<Ext>, nz: Option<Ext>, z: nat, b: nat, x: Ext, p: nat)
    requires pz.Some? ==> pz.value in fs && pz.value.End() == z
    requires nz.Some? ==> nz.value in fs && nz.value.addr == b
    requires z < b && x.addr == (if pz.Some? then pz.value.addr else z) && x.End() == (if nz.Some? then nz.value.End() else b)
    ensures var rest := fs - (if pz.Some? then {pz.value} else {}) - (if nz.Some? then {nz.value} else {});
            IsFree(rest + {x}, p) <==> IsFree(fs, p) || z <= p < b
  {
  }

  lemma FreeTaken(fs: set<Ext>, x: Ext, p: nat)
    requires Spread(fs) && x in fs
    ensures IsFree(fs - {x}, p) <==> IsFree(fs, p) && !Within(x, p)
  {
  }

  lemma HoldsPage(fs: set<Ext>, x: Ext, p: nat)
    requires x in fs
    ensures Within(x, p) ==> IsFree(fs, p)
  {
  }

  lemma NothingStale(db: Db, fs: set<Ext>, c: nat)
    requires Tagged(db, fs, c, c)
    ensures Tagged(db, fs, 0, 0)
  {
  }

  /** Frames without end tags, outside every extent, may be called stale. */
  lemma Widen(db: Db, fs: set<Ext>, a: nat, b: nat)
    requires Tagged(db, fs, 0, 0) && a < b && forall p: nat :: a <= p < b ==> !IsFree(fs, p)
    ensures Tagged(db, fs, a, b)
  {
    forall x | x in fs ensures x.End() <= a || b <= x.addr {
      assert Marked(db, x);
      var p := if x.addr < a then a else x.addr;
      HoldsPage(fs, x, p);
    }
  }

  class Pages {
    const mt: nat -> int
    var db: Db
    const zone: Zone

    /** All is in order but for stale tags in [a, b). */
    ghost predicate Stale(a: nat, b: nat)
      reads this, zone
    {
      && zone.Valid()
      && Tagged(db, zone.free, a, b) && Spread(zone.free)
      && |db.tags| < WORD
      && !IsFree(zone.free, 0)
      && (forall p, q :: 0 <= p <= |db.tags| && 0 <= q <= |db.tags| ==> mt(p) == mt(q))
    }

    /** Frames are busy exactly when they are in no free extent. */
    ghost predicate Valid()
      reads this, zone
    {
      Stale(0, 0) && forall p: nat :: p < |db.tags| ==> (db.tags[p].Busy? <==> !IsFree(zone.free, p))
    }

    /** An empty zone over a database with no free extents in it yet. */
    constructor (db: Db, mt: nat -> int)
      requires |db.tags| == |db.recs| < WORD && forall p :: 0 <= p < |db.tags| ==> db.tags[p].Free? || db.tags[p].Busy?
      requires forall p, q :: 0 <= p <= |db.tags| && 0 <= q <= |db.tags| ==> mt(p) == mt(q)
      ensures Stale(0, 0) && zone.free == {} && this.db == db && this.mt == mt && fresh(zone)
    {
      this.db, this.mt := db, mt;
      zone := new Zone();
    }

    /** Record a free extent at both its ends and tag its frames. */
    method Mkptr(x: Ext)
      requires |db.recs| == |db.tags| && x.size > 0 && x.End() <= |db.tags|
      modifies this`db
      ensures db == Mark(old(db), x)
    {
      db := db.(recs := db.recs[x.addr := x]);
      db := db.(recs := db.recs[x.End() - 1 := x]);
      if x.size == 1 {
        db := db.(tags := db.tags[x.addr := Lone]);
      } else {
        db := db.(tags := db.tags[x.addr := Strt]);
        var i := 1;
        while i < x.size - 1
          invariant 1 <= i <= x.size - 1
          invariant db.recs == old(db).recs[x.addr := x][x.End() - 1 := x]
          invariant |db.tags| == |old(db).tags|
          invariant forall p :: 0 <= p < |db.tags| ==>
                      db.tags[p] == if p == x.addr then Strt else if x.addr < p < x.addr + i then Free else old(db).tags[p]
        {
          db := db.(tags := db.tags[x.addr + i := Free]);
          i := i + 1;
        }
        db := db.(tags := db.tags[x.addr + i := Term]);
      }
    }

    /** Give [zaddr, zaddr + size), the end of the stale range, to the free space, merged with the
        extents on both sides.  The stale tag before it must not look like the end of an extent. */
    method ZoneCreate(zaddr: nat, size: nat, ghost a: nat)
      requires Stale(a, zaddr + size) && a <= zaddr && 0 < zaddr && size > 0 && zaddr + size < |db.tags|
      requires zaddr > a ==> !db.tags[zaddr - 1].IsTerm()
      modifies this`db, zone
      ensures (if a == zaddr then Stale(0, 0) else Stale(a, zaddr)) && |db.tags| == |old(db).tags|
      ensures forall p: nat :: IsFree(zone.free, p) <==> old(IsFree(zone.free, p)) || zaddr <= p < zaddr + size
      ensures forall p: nat :: p < |db.tags| && !IsFree(zone.free, p) ==> db.tags[p] == old(db).tags[p]
      ensures forall p: nat :: p < |db.tags| && db.tags[p].Busy? ==> db.tags[p] == old(db).tags[p]
      ensures forall p: nat :: zaddr <= p < zaddr + size ==> !db.tags[p].Busy?
      ensures |db.recs| == |old(db).recs| && (a < zaddr ==> db.recs[..zaddr] == old(db).recs[..zaddr])
    {
      hide Zone.Valid, Tagged, Spread, IsFree, Mark;
      ghost var fs, b := zone.free, zaddr + size;
      ghost var a1;
      var x;
      x, a1 := TakeNeighbors(zaddr, size, a);
      TaggedLengths(db, zone.free, a1, x.End());
      MarkKeeps(db, zone.free, a1, x.End(), x);
      MarkAt(db, x);
      Covered(zone.free, x);
      if a == zaddr { NothingStale(Mark(db, x), zone.free + {x}, x.addr); }
      Mkptr(x);
      zone.Attach(x);
    }

    /** Take the extents on both sides of the end of the stale range out of the index; returned is
        the extent to make, which touches none of those left. */
    method TakeNeighbors(zaddr: nat, size: nat, ghost a: nat) returns (x: Ext, ghost a1: nat)
      requires Stale(a, zaddr + size) && a <= zaddr && 0 < zaddr && size > 0 && zaddr + size < |db.tags|
      requires zaddr > a ==> !db.tags[zaddr - 1].IsTerm()
      modifies zone
      ensures zone.Valid() && Tagged(db, zone.free, a1, x.End()) && Spread(zone.free)
      ensures 0 < x.addr <= zaddr && zaddr + size <= x.End() < |db.tags| && a1 <= x.addr
      ensures if a == zaddr then a1 == x.addr else a1 == a && x.addr == zaddr
      ensures forall y :: y in zone.free ==> y.End() < x.addr || x.End() < y.addr
      ensures forall p: nat :: IsFree(zone.free + {x}, p) <==> old(IsFree(zone.free, p)) || zaddr <= p < zaddr + size
    {
      hide Zone.Valid, Tagged, Spread, IsFree;
      ghost var fs, b := zone.free, zaddr + size;
      var fprev, lnext := zaddr, zaddr + size;
      TaggedLengths(db, fs, a, b);
      var pz, nz := Prev(db, mt, zaddr), Next(db, mt, zaddr, size);
      BesideStale(db, fs, mt, zaddr, size, a);
      a1 := a;
      if pz.Some? {
        HoldsPage(fs, pz.value, 0);
        Unmark(db, zone.free, a, b, pz.value);
        fprev := pz.value.addr;
        a1 := fprev;
        zone.Detach(pz.value);
      }
      if nz.Some? {
        Unmark(db, zone.free, a1, b, nz.value);
        lnext := nz.value.End();
        zone.Detach(nz.value);
      }
      x := Ext(fprev, lnext - fprev);
      TouchesNone(fs, zone.free, pz, nz, zaddr, b, a);
      forall p: nat ensures IsFree(zone.free + {x}, p) <==> IsFree(fs, p) || zaddr <= p < b {
        FreeMerged(fs, pz, nz, zaddr, b, x, p);
      }
    }

    /** Take frames from the start of an extent large enough; the rest of it goes back.  The tags of
        the frames taken are left as they were. */
    method ZoneAlloc(size: nat) returns (addr: nat)
      requires Stale(0, 0) && 0 < size < WORD
      modifies this`db, zone
      ensures addr == 0 <==> forall x :: x in old(zone.free) ==> x.size < Pow2(MinBit(size))
      ensures addr == 0 ==> Stale(0, 0) && db == old(db) && zone.free == old(zone.free)
      ensures addr != 0 ==> Stale(addr, addr + size) && addr + size < |db.tags| == |old(db).tags|
      ensures addr != 0 ==> addr < |db.recs| && exists x :: x in old(zone.free) && x.addr == addr && size <= x.size && db.recs[addr] == x
      ensures addr != 0 ==> forall p: nat :: IsFree(zone.free, p) <==> old(IsFree(zone.free, p)) && !(addr <= p < addr + size)
      ensures forall p: nat :: p < |db.tags| && !old(IsFree(zone.free, p)) ==> db.tags[p] == old(db).tags[p]
      ensures forall p: nat :: p < |db.tags| && db.tags[p].Busy? ==> db.tags[p] == old(db).tags[p]
    {
      hide Zone.Valid, Tagged, Spread, IsFree, Pow2, MinBit;
      var ze := zone.FindFree(size);
      TaggedLengths(db, zone.free, 0, 0);
      if ze.None? {
        return 0;
      }
      ghost var fs := zone.free;
      var x := ze.value;
      addr := x.addr;
      HoldsPage(fs, x, 0);
      Unmark(db, fs, 0, 0, x);
      InsideExtent(db, fs, x, size);
      EndRecord(db, fs, x);
      forall p: nat ensures IsFree(fs - {x}, p) <==> IsFree(fs, p) && !Within(x, p) {
        FreeTaken(fs, x, p);
      }
      AllWithin(fs, x);
      zone.Detach(x);
      if x.size > size {
        ghost var recs := db.recs;
        ZoneCreate(addr + size, x.size - size, addr);
        assert db.recs[addr] == db.recs[..addr + size][addr] == recs[..addr + size][addr];
      }
    }

    /** Allocate frames of a type; nothing is returned only when the zone has no extent sure to fit.
        The first frame's record still says where the extent it came from began and how long it was. */
    method PgAlloc(size: nat, t: nat) returns (r: Option<nat>)
      requires Valid() && 0 < size < WORD
      modifies this`db, zone
      ensures Valid() && |db.tags| == |old(db).tags|
      ensures r.None? <==> forall x :: x in old(zone.free) ==> x.size < Pow2(MinBit(size))
      ensures r.None? ==> db == old(db)
      ensures r.Some? ==> r.value != 0 && r.value + size < |db.tags| == |db.recs|
      ensures r.Some? ==> db.recs[r.value].addr == r.value && size <= db.recs[r.value].size
      ensures r.Some? ==> forall p: nat :: r.value <= p < r.value + size ==> old(IsFree(zone.free, p))
      ensures r.Some? ==> forall p: nat :: p < |db.tags| ==>
                db.tags[p].Busy? == (old(db).tags[p].Busy? || r.value <= p < r.value + size)
      ensures r.Some? ==> forall p: nat :: p < |db.tags| && db.tags[p].Busy? ==>
                db.tags[p] == if r.value <= p < r.value + size then Busy(t) else old(db).tags[p]
    {
      hide Zone.Valid, Tagged, Spread, IsFree, Pow2, MinBit;
      var addr := ZoneAlloc(size);
      if addr == 0 {
        return None;
      }
      TakenWasFree(old(zone.free), addr, size);
      ghost var fs, tags, recs := zone.free, db.tags, db.recs;
      TaggedLengths(db, fs, addr, addr + size);
      var i := 0;
      while i < size
        invariant 0 <= i <= size && |db.tags| == |tags| && db.recs == recs
        invariant zone.Valid() && zone.free == fs && Spread(fs) && !IsFree(fs, 0)
        invariant Tagged(db, fs, addr, addr + size)
        invariant forall p: nat :: p < |tags| ==> db.tags[p] == if addr <= p < addr + i then Busy(t) else tags[p]
      {
        StaleTag(db, fs, addr, addr + size, addr + i, Busy(t));
        db := db.(tags := db.tags[addr + i := Busy(t)]);
        i := i + 1;
      }
      NoTagsStale(db, fs, addr, addr + size);
      r := Some(addr);
    }

    /** Give frames back. */
    method PgFree(pfn: nat, size: nat)
      requires Valid() && pfn != 0 && size != 0 && pfn + size < |db.tags|
      requires forall p: nat :: pfn <= p < pfn + size ==> db.tags[p].Busy?
      modifies this`db, zone
      ensures Valid() && |db.tags| == |old(db).tags|
      ensures forall p: nat :: p < |db.tags| ==> db.tags[p].Busy? == (old(db).tags[p].Busy? && !(pfn <= p < pfn + size))
      ensures forall p: nat :: p < |db.tags| && db.tags[p].Busy? ==> db.tags[p] == old(db).tags[p]
    {
      hide Zone.Valid, Tagged, Spread, IsFree;
      Widen(db, zone.free, pfn, pfn + size);
      ZoneCreate(pfn, size, pfn);
    }

    /** Turn a finished run of free frames into an extent. */
    method CloseRun(start: nat, i: nat, ghost tags: seq<Tag>)
      requires Stale(0, 0) && Scanned(db, tags, zone.free, start) && 0 < start < i < |tags|
      requires forall p :: start <= p < i ==> tags[p].Free?
      modifies this`db, zone
      ensures Stale(0, 0) && Scanned(db, tags, zone.free, i)
    {
      hide Zone.Valid, Tagged, Spread, IsFree;
      Widen(db, zone.free, start, i);
      ZoneCreate(start, i - start, start);
    }

    /** Build the zone from the frames that are free at the start. */
    method PgInit()
      requires Stale(0, 0) && zone.free == {} && db.tags != [] && db.tags[0].Busy? && db.tags[|db.tags| - 1].Busy?
      requires forall p :: 0 <= p < |db.tags| ==> db.tags[p].Free? || db.tags[p].Busy?
      modifies this`db, zone
      ensures Valid() && |db.tags| == |old(db).tags|
      ensures forall p: nat :: p < |db.tags| ==> db.tags[p].Busy? == old(db).tags[p].Busy?
      ensures forall p: nat :: p < |db.tags| && db.tags[p].Busy? ==> db.tags[p] == old(db).tags[p]
    {
      hide Zone.Valid, Tagged, Spread, IsFree, Stale;
      ghost var tags := db.tags;
      var max := |db.tags| - 1;
      var scanning, start, i := false, 0, 0;
      forall p: nat ensures !IsFree(zone.free, p) { NothingFree(p); }
      while i < max
        invariant 0 <= i <= max && |db.tags| == |tags| == max + 1
        invariant Stale(0, 0) && Scanned(db, tags, zone.free, if scanning then start else i)
        invariant scanning ==> 0 < start < i && forall p :: start <= p < i ==> tags[p].Free?
      {
        if db.tags[i].Free? && !scanning {
          scanning := true;
          start := i;
        } else if !db.tags[i].Free? && scanning {
          scanning := false;
          CloseRun(start, i, tags);
        }
        i := i + 1;
      }
      if scanning {
        CloseRun(start, i, tags);
      }
    }
  }

  /** How far the first scan has come: frames below done are in free extents exactly when they were
      free at the start, frames from done on are untouched. */
  ghost predicate Scanned(db: Db, tags: seq<Tag>, fs: set<Ext>, done: nat) {
    && |db.tags| == |tags| && done <= |tags|
    && (forall p: nat :: IsFree(fs, p) <==> p < done && !tags[p].Busy?)
    && (forall p: nat :: p < |tags| ==> db.tags[p].Busy? == tags[p].Busy?)
    && (forall p: nat :: p < |tags| && (tags[p].Busy? || p >= done) ==> db.tags[p] == tags[p])
  }

  lemma NothingFree(p: nat)
    ensures !IsFree({}, p)
  {
  }

  lemma EndRecord(db: Db, fs: set<Ext>, x: Ext)
    requires Tagged(db, fs, 0, 0) && x in fs
    ensures x.addr < |db.recs| && db.recs[x.addr] == x
  {
  }

  /** A frame inside an extent, before its last one, is not tagged as an end. */
  lemma InsideExtent(db: Db, fs: set<Ext>, x: Ext, size: nat)
    requires Tagged(db, fs, 0, 0) && x in fs
    ensures 0 < size < x.size ==> !db.tags[x.addr + size - 1].IsTerm()
    ensures x.size > 0 && x.End() < |db.tags|
  {
  }

  lemma AllWithin(fs: set<Ext>, x: Ext)
    requires x in fs
    ensures forall p: nat :: x.addr <= p < x.End() ==> IsFree(fs, p)
  {
  }

  lemma TakenWasFree(fs: set<Ext>, addr: nat, size: nat)
    requires exists x :: x in fs && x.addr == addr && size <= x.size
    ensures forall p: nat :: addr <= p < addr + size ==> IsFree(fs, p)
  {
  }

  lemma StaleTag(db: Db, fs: set<Ext>, a: nat, b: nat, p: nat, t: Tag)
    requires Tagged(db, fs, a, b) && a <= p < b && p < |db.tags|
    ensures Tagged(db.(tags := db.tags[p := t]), fs, a, b)
  {
    var d := db.(tags := db.tags[p := t]);
    forall x | x in fs ensures Marked(d, x) {
      assert Marked(db, x);
    }
  }

  /** Busy frames need not be called stale. */
  lemma NoTagsStale(db: Db, fs: set<Ext>, a: nat, b: nat)
    requires Tagged(db, fs, a, b) && b <= |db.tags| && forall p: nat :: a <= p < b ==> db.tags[p].Busy?
    ensures Tagged(db, fs, 0, 0)
  {
  }

  lemma Covered(fs: set<Ext>, x: Ext)
    ensures forall p: nat :: Within(x, p) ==> IsFree(fs + {x}, p)
    ensures forall p: nat :: IsFree(fs + {x}, p) && !Within(x, p) ==> IsFree(fs, p)
  {
  }

  lemma TaggedLengths(db: Db, fs: set<Ext>, a: nat, b: nat)
    requires Tagged(db, fs, a, b)
    ensures |db.recs| == |db.tags|
    ensures forall x :: x in fs ==> x.End() < |db.tags| && x.size > 0 && (x.End() <= a || b <= x.addr)
  {
  }

  /** The neighbours of the end of a stale range. */
  lemma BesideStale(db: Db, fs: set<Ext>, mt: nat -> int, z: nat, size: nat, a: nat)
    requires Tagged(db, fs, a, z + size) && Spread(fs) && a <= z && 0 < z && size > 0 && z + size < |db.tags|
    requires z > a ==> !db.tags[z - 1].IsTerm()
    requires forall p, q :: 0 <= p <= |db.tags| && 0 <= q <= |db.tags| ==> mt(p) == mt(q)
    ensures var pz, nz := Prev(db, mt, z), Next(db, mt, z, size);
            && (pz.Some? ==> pz.value in fs && pz.value.End() == z && a == z)
            && (pz.None? ==> forall x :: x in fs ==> x.End() != z)
            && (nz.Some? ==> nz.value in fs && nz.value.addr == z + size && nz.value.size > 0)
            && (nz.None? ==> forall x :: x in fs ==> x.addr != z + size)
            && (pz.Some? && nz.Some? ==> pz != nz)
  {
    if z == a { PrevIs(db, fs, mt, z, a, z + size); }
    NextIs(db, fs, mt, z, size, a, z + size);
  }

  /** What is left when the neighbours are taken out touches the merged extent nowhere. */
  lemma TouchesNone(fs: set<Ext>, rest: set<Ext>, pz: Option<Ext>, nz: Option<Ext>, z: nat, b: nat, a: nat)
    requires Spread(fs) && a <= z < b && forall y :: y in fs ==> y.End() <= a || b <= y.addr
    requires pz.Some? && nz.Some? ==> pz != nz
    requires rest == fs - (if pz.Some? then {pz.value} else {}) - (if nz.Some? then {nz.value} else {})
    requires pz.Some? ==> pz.value in fs && pz.value.End() == z
    requires nz.Some? ==> nz.value in fs && nz.value.addr == b
    requires pz.None? ==> forall y :: y in fs ==> y.End() != z
    requires nz.None? ==> forall y :: y in fs ==> y.addr != b
    ensures forall y :: y in rest ==> y.End() < (if pz.Some? then pz.value.addr else z) || (if nz.Some? then nz.value.End() else b) < y.addr
  {
  }
}
