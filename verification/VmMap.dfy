/** The map of a process's mmap arena: a red-black tree of entries ordered by address, and a zone
    index over the free ones. */
module VmMap {
  import opened Options
  import opened Powers
  import opened RbShape
  import opened ZoneIndex
  import opened Tiling
  import R = RbTree

  const PAGE_SIZE: nat := 0x20_0000

  /** Rounding up to pages, in a 32-bit word. */
  function RoundPage(x: nat): nat { (x + PAGE_SIZE - 1) / PAGE_SIZE * PAGE_SIZE % WORD }

  /** What a call comes to: an address, no room, or a failed assertion. */
  datatype Result = At(va: nat) | NoRoom | Abort

  ghost function Image(m: map<Ptr, Vme>): set<Vme> { set p | p in m :: m[p] }

  lemma EntriesAdd(m: map<Ptr, Vme>, p: Ptr, e: Vme)
    requires p !in m
    ensures Image(m[p := e]) == Image(m) + {e}
  {
    var m' := m[p := e];
    assert forall q :: q in m ==> q in m' && m'[q] == m[q];
    assert p in m' && m'[p] == e;
  }

  lemma EntriesTake(m: map<Ptr, Vme>, p: Ptr)
    requires p in m && forall q :: q in m && q != p ==> m[q] != m[p]
    ensures Image(m - {p}) == Image(m) - {m[p]}
  {
    var m' := m - {p};
    forall x | x in Image(m) && x != m[p] ensures x in Image(m') {
      var q :| q in m && m[q] == x;
      assert q in m' && m'[q] == x;
    }
  }

  /** No two pointers of the map are to entries that meet. */
  ghost predicate Separate(m: map<Ptr, Vme>) {
    forall p, q :: p in m && q in m && p != q ==> Disjoint(m[p], m[q])
  }

  lemma SeparateAdd(m: map<Ptr, Vme>, p: Ptr, e: Vme)
    requires Separate(m) && forall f :: f in Image(m) ==> Disjoint(f, e)
    ensures Separate(m[p := e])
  {
    assert forall q :: q in m ==> m[q] in Image(m);
  }

  class VmMap {
    const lo: nat
    const hi: nat
    const tree: R.RbTree
    const zone: Zone
    var vmes: map<Ptr, Vme>
    var total: nat

    ghost function Entries(): set<Vme>
      reads this
    {
      Image(vmes)
    }

    /** The allocations outstanding. */
    ghost function Used(): set<Vme>
      reads this
    {
      UsedOf(Entries())
    }

    /** The tree holds exactly the entries, ordered by address, and the total is their sizes added up. */
    ghost predicate Linked()
      reads this, tree
    {
      && 0 < lo < hi < WORD
      && tree.Valid()
      && vmes.Keys == tree.tree.Nodes()
      && NULL !in vmes
      && (forall p :: p in vmes ==> tree.key(p) == vmes[p].addr)
      && Separate(vmes)
      && (forall p :: p in vmes ==> vmes[p].size > 0)
      && total == SizeOf(Entries())
    }

    /** All is in order but for the hole [a, b): the entries tile the rest, no two free ones touch,
        and the zone indexes exactly the free ones. */
    ghost predicate Open(a: nat, b: nat)
      reads this, tree, zone
    {
      && Linked()
      && zone.Valid() && zone.free == FreeOf(Entries())
      && TilesBut(Entries(), lo, hi, a, b) && Calm(Entries())
    }

    ghost predicate Valid()
      reads this, tree, zone
    {
      Open(lo, lo)
    }

    constructor (lo: nat, hi: nat)
      requires 0 < lo < hi < WORD
      ensures Valid() && this.lo == lo && this.hi == hi && fresh(tree) && fresh(zone)
      ensures Entries() == {Vme(lo, hi - lo, VFNT_FREE)}
    {
      this.lo, this.hi := lo, hi;
      tree := new R.RbTree(p => 0, map[]);
      zone := new Zone();
      vmes, total := map[], 0;
      new;
      assert Entries() == {};
      Nothing(lo, hi);
      hide R.RbTree.Valid, Zone.Valid, TilesBut, Calm, Separate, FreeOf, UsedOf, SizeOf;
      assert Open(lo, hi);
      CreateAt(lo, hi - lo, lo);
      AllFree(Entries(), lo, hi);
    }

    /** The entry holding an address, by an interval comparison in the tree. */
    method Find(va: nat) returns (r: Ptr)
      requires Linked()
      ensures r != NULL ==> r in vmes && vmes[r].Has(va)
      ensures r == NULL ==> !Held(Entries(), va)
    {
      var m := vmes;
      var cmp := (p: Ptr) => if p !in m then 0 else if va < m[p].addr then 1 else if va > m[p].addr + m[p].size - 1 then -1 else 0;
      CompareConsistent(m, va, tree.key, cmp);
      var visited;
      ghost var path;
      r, visited, path := tree.Find(cmp);
      if r == NULL {
        forall e | e in Entries() ensures !e.Has(va) {
          var p :| p in vmes && vmes[p] == e;
          assert cmp(p) != 0;
        }
      }
    }

    method Remove(p: Ptr)
      requires Linked() && p in vmes
      modifies this`vmes, this`total, tree
      ensures Linked() && vmes == old(vmes) - {p}
      ensures Entries() == old(Entries()) - {old(vmes)[p]}
    {
      EntriesTake(vmes, p);
      SizeTake(Entries(), vmes[p]);
      tree.Remove(p);
      total := total - vmes[p].size;
      vmes := vmes - {p};
    }

    method Insert(start: nat, len: nat, typ: nat)
      requires Linked() && len > 0
      requires forall e :: e in Entries() ==> Disjoint(e, Vme(start, len, typ))
      modifies this`vmes, this`total, tree
      ensures Linked() && Entries() == old(Entries()) + {Vme(start, len, typ)}
    {
      hide R.RbTree.Valid, Separate, SizeOf, Disjoint;
      ghost var e := Vme(start, len, typ);
      NoneStarts(vmes, e);
      var p := tree.NewNode(start);
      var r := tree.Insert(p);
      EntriesAdd(vmes, p, e);
      SeparateAdd(vmes, p, e);
      SizeAdd(Entries(), e);
      total := total + len;
      vmes := vmes[p := Vme(start, len, typ)];
    }

    /** Detach a free entry from the index and take it out of the tree. */
    method ZoneRemove(p: Ptr, ghost a: nat, ghost b: nat)
      requires Open(a, b) && p in vmes && vmes[p].Free() && (a == b || vmes[p].End() == a || vmes[p].addr == b)
      modifies this`vmes, this`total, tree, zone
      ensures var e := old(vmes)[p];
              if a == b then Open(e.addr, e.End()) else if e.End() == a then Open(e.addr, b) else Open(a, e.End())
      ensures Entries() == old(Entries()) - {old(vmes)[p]} && Used() == old(Used())
      ensures vmes == old(vmes) - {p}
    {
      hide R.RbTree.Valid, Zone.Valid, TilesBut, Calm, FreeOf, UsedOf;
      var e := vmes[p];
      assert e in Entries();
      TakeOut(Entries(), lo, hi, a, b, e);
      FreeOfTake(Entries(), e);
      zone.Detach(e.AsExt());
      Remove(p);
    }

    method GetNeighbors(addr: nat, size: nat) returns (pv: Ptr, nv: Ptr)
      requires Linked()
      ensures pv != NULL ==> addr > 0 && pv in vmes && vmes[pv].Free() && vmes[pv].Has(addr - 1)
      ensures pv == NULL && addr > 0 ==> forall e :: e in Entries() && e.Has(addr - 1) ==> !e.Free()
      ensures nv != NULL ==> nv in vmes && vmes[nv].Free() && vmes[nv].Has(addr + size)
      ensures nv == NULL ==> forall e :: e in Entries() && e.Has(addr + size) ==> !e.Free()
    {
      pv, nv := NULL, NULL;
      if addr != 0 {
        var p := Find(addr - 1);
        if p != NULL && vmes[p].Free() {
          pv := p;
        }
        FoundOnly(vmes, p, addr - 1);
      }
      var n := Find(addr + size);
      if n != NULL && vmes[n].Free() {
        nv := n;
      }
      FoundOnly(vmes, n, addr + size);
    }

    /** Take out the free entries on both sides of the end of the hole; returned is the range a free
        entry should now fill, which no free entry touches. */
    method TakeNeighbors(zaddr: nat, size: nat, ghost a: nat) returns (fprev: nat, lnext: nat, ghost a1: nat)
      requires Open(a, zaddr + size) && a <= zaddr && size > 0
      modifies this`vmes, this`total, tree, zone
      ensures Open(a1, lnext) && a1 <= fprev < lnext && Used() == old(Used())
      ensures if a == zaddr then a1 == fprev else a1 == a && fprev == zaddr
      ensures forall f :: f in Entries() && f.Free() ==> f.End() != fprev && lnext != f.addr
    {
      hide R.RbTree.Valid, Zone.Valid, TilesBut, Calm, FreeOf, UsedOf, Separate;
      ghost var b := zaddr + size;
      fprev, lnext, a1 := zaddr, zaddr + size, a;
      var pze, nze := GetNeighbors(zaddr, size);
      ghost var es0 := Entries();
      assert forall p :: p in vmes ==> vmes[p] in es0;
      BesideHole(vmes, es0, lo, hi, a, b, pze, nze, zaddr);
      assert TilesBut(es0, lo, hi, a, b) && Calm(es0);
      hide Linked, Open, Entries;
      if pze != NULL {
        fprev := vmes[pze].addr;
        a1 := fprev;
        ZoneRemove(pze, a, b);
      }
      if nze != NULL {
        lnext := vmes[nze].End();
        ZoneRemove(nze, a1, b);
      }
      MergedIsCalm(es0, lo, hi, a, b, zaddr, Vme(fprev, lnext - fprev, VFNT_FREE), Entries());
    }

    /** Give [zaddr, zaddr + size), the end of the hole, to the free space, merged with the free
        entries on both sides. */
    method CreateAt(zaddr: nat, size: nat, ghost a: nat)
      requires Open(a, zaddr + size) && a <= zaddr && size > 0
      modifies this`vmes, this`total, tree, zone
      ensures if a == zaddr then Valid() else Open(a, zaddr)
      ensures Used() == old(Used())
    {
      hide R.RbTree.Valid, Zone.Valid, TilesBut, Calm, FreeOf, UsedOf, Separate, Disjoint, SizeOf;
      ghost var a1;
      var fprev, lnext;
      fprev, lnext, a1 := TakeNeighbors(zaddr, size, a);
      PutFree(fprev, lnext, a1);
      if a == zaddr { ClosedHole(Entries(), lo, hi, fprev); }
    }

    /** Put a free entry at the end of the hole, where no free entry touches it. */
    method PutFree(start: nat, end: nat, ghost a: nat)
      requires Open(a, end) && a <= start < end
      requires forall f :: f in Entries() && f.Free() ==> f.End() != start && end != f.addr
      modifies this`vmes, this`total, tree, zone
      ensures Open(a, start) && Used() == old(Used())
    {
      hide R.RbTree.Valid, Zone.Valid, TilesBut, Calm, FreeOf, UsedOf, Separate, Disjoint, SizeOf;
      NewEntry(Entries(), lo, hi, a, end, Vme(start, end - start, VFNT_FREE));
      Insert(start, end - start, VFNT_FREE);
      zone.Attach(Ext(start, end - start));
    }

    /** Take room out of the free space, from the start of an extent large enough; what is left of
        the extent goes back.  What is left is asserted not to be negative as a signed word: with half a
        word or more left over the call fails, and nothing has changed. */
    method ZoneAlloc(size: nat) returns (r: Result)
      requires Valid() && 0 < size < WORD
      modifies this`vmes, this`total, tree, zone
      ensures Used() == old(Used())
      ensures r.Abort? <==> LeavesHalf(old(zone.free), size)
      ensures hi - lo < HALF ==> !r.Abort?
      ensures r.NoRoom? <==> forall x :: x in old(zone.free) ==> x.size < Pow2(MinBit(size))
      ensures !r.At? ==> Valid() && Entries() == old(Entries())
      ensures r.At? ==> Open(r.va, r.va + size)
      ensures r.At? ==> exists x :: x in old(zone.free) && x.addr == r.va && size <= x.size
    {
      hide R.RbTree.Valid, Zone.Valid, TilesBut, Calm, FreeOf, UsedOf, Separate, Disjoint, SizeOf, LeavesHalf, Pow2, MinBit, Msb;
      var ze := zone.FindFree(size);
      ExtentsFit(Entries(), lo, hi);
      if ze.None? {
        NoneLeaves(zone.free, size);
        return NoRoom;
      }
      ghost var x := ze.value;
      LeftOver(zone.free, x, size);
      var diff := ze.value.size - size;
      if diff >= HALF {
        return Abort;
      }
      FreeOfMember(Entries(), x);
      var p :| p in vmes && vmes[p] == Vme(ze.value.addr, ze.value.size, VFNT_FREE);
      var va := ze.value.addr;
      InArena(Entries(), lo, hi, vmes[p]);
      ZoneRemove(p, lo, lo);
      if diff > 0 {
        CreateAt(va + size, diff, va);
      }
      r := At(va);
    }

    /** Allocate n bytes of a kind, the size rounded up to whole pages.  The kind must not be that of
        free entries: an allocation of that kind would leave a free entry the zone does not know. */
    method Alloc(size: nat, typ: nat) returns (r: Result, ghost n: nat)
      requires Valid() && size < WORD
      modifies this`vmes, this`total, tree, zone
      ensures if 0 < size <= WORD - PAGE_SIZE then n % PAGE_SIZE == 0 && size <= n < size + PAGE_SIZE else n == 0
      ensures r.Abort? <==> n == 0 || LeavesHalf(old(zone.free), n)
      ensures hi - lo < HALF ==> (r.Abort? <==> n == 0)
      ensures r.NoRoom? <==> n != 0 && forall x :: x in old(zone.free) ==> x.size < Pow2(MinBit(n))
      ensures Valid() <==> !(r.At? && typ == VFNT_FREE)
      ensures !r.At? ==> Used() == old(Used())
      ensures r.At? && Valid() ==> Used() == old(Used()) + {Vme(r.va, n, typ)}
      ensures r.At? ==> Unused(old(Used()), lo, hi, r.va, r.va + n)
    {
      hide R.RbTree.Valid, Zone.Valid, Open, RoundPage, Unused, Pow2, MinBit, LeavesHalf;
      RoundPageIs(size);
      var pgsz := RoundPage(size);
      n := pgsz;
      if pgsz == 0 {
        return Abort, n;
      }
      r := ZoneAlloc(pgsz);
      if r.At? {
        FillHole(r.va, pgsz, typ);
      }
    }

    /** Put an entry over the whole hole. */
    method FillHole(va: nat, size: nat, typ: nat)
      requires Open(va, va + size) && size > 0
      modifies this`vmes, this`total, tree
      ensures Valid() <==> typ != VFNT_FREE
      ensures Valid() ==> Used() == old(Used()) + {Vme(va, size, typ)}
      ensures Unused(old(Used()), lo, hi, va, va + size)
    {
      hide R.RbTree.Valid, Zone.Valid, TilesBut, Calm, FreeOf, UsedOf, Separate, Disjoint, Unused, SizeOf;
      ghost var e := Vme(va, size, typ);
      HoleIsFree(Entries(), lo, hi, va, va + size);
      HoleMeetsNone(Entries(), lo, hi, va, va + size, e);
      if typ != VFNT_FREE {
        NewEntry(Entries(), lo, hi, va, va + size, e);
      }
      Insert(va, size, typ);
      if typ != VFNT_FREE {
        ClosedHole(Entries(), lo, hi, va);
      } else {
        FreeOfMember(Entries(), e.AsExt());
      }
    }

    /** Free an allocation, named by its start and its size; anything else fails an assertion. */
    method Free(va: nat, size: nat) returns (ok: bool, ghost e: Vme)
      requires Valid() && size < WORD
      modifies this`vmes, this`total, tree, zone
      ensures Valid()
      ensures ok ==> e in old(Used()) && e.addr == va && Used() == old(Used()) - {e}
      ensures ok ==> e.size % PAGE_SIZE == 0 && size <= e.size < size + PAGE_SIZE
      ensures !ok ==> Used() == old(Used())
      ensures !ok ==> forall f :: f in old(Used()) && f.addr == va ==> !(f.size % PAGE_SIZE == 0 && size <= f.size < size + PAGE_SIZE)
    {
      hide R.RbTree.Valid, Zone.Valid, TilesBut, Calm, Separate, Disjoint, FreeOf, RoundPage;
      RoundPageIs(size);
      var pgsz := RoundPage(size);
      var p := Find(va);
      e := Vme(0, 0, 0);
      FoundOnly(vmes, p, va);
      EntriesHaveSize(Entries(), lo, hi);
      if p == NULL || vmes[p].addr != va || vmes[p].size != pgsz || vmes[p].Free() {
        return false, e;
      }
      e := vmes[p];
      assert e in Entries();
      FreeEntry(p);
      ok := true;
    }

    method FreeEntry(p: Ptr)
      requires Valid() && p in vmes && !vmes[p].Free()
      modifies this`vmes, this`total, tree, zone
      ensures Valid() && Used() == old(Used()) - {old(vmes)[p]}
    {
      hide R.RbTree.Valid, Zone.Valid, TilesBut, Calm, Separate, Disjoint, FreeOf, UsedOf, SizeOf;
      var e := vmes[p];
      assert e in Entries();
      TakeOut(Entries(), lo, hi, lo, lo, e);
      FreeOfTake(Entries(), e);
      InArena(Entries(), lo, hi, e);
      Remove(p);
      CreateAt(e.addr, e.size, e.addr);
    }

    /** The running size of the map is always that of the arena. */
    method MapSize() returns (n: nat)
      requires Valid()
      ensures n == hi - lo
    {
      SizesFill(Entries(), lo, hi);
      n := total;
    }

    /** The zone's running total is exactly what is not allocated; it never wraps. */
    method FreeBytes() returns (n: nat)
      requires Valid()
      ensures n == hi - lo - SizeOf(Used())
    {
      hide R.RbTree.Valid, TilesBut, Calm, FreeOf, UsedOf, Separate, Indexed, Total, SizeOf;
      Conserved(Entries(), lo, hi);
      n := zone.nfree;
    }

    /** The entry an address falls in. */
    method Info(va: nat) returns (start: nat, size: nat, typ: nat)
      requires Valid()
      ensures lo <= va < hi ==> Vme(start, size, typ) in Entries() && Vme(start, size, typ).Has(va)
      ensures lo <= va < hi ==> forall e :: e in Entries() && e.Has(va) ==> e == Vme(start, size, typ)
      ensures !(lo <= va < hi) ==> start == 0 && size == 0 && typ == VFNT_INVALID
    {
      var p := Find(va);
      if p == NULL {
        start, size, typ := 0, 0, VFNT_INVALID;
      } else {
        assert vmes[p] in Entries();
        FoundOnly(vmes, p, va);
        start, size, typ := vmes[p].addr, vmes[p].size, vmes[p].typ;
      }
    }
  }

  /** The range lies in the arena and no allocation meets it. */
  ghost predicate Unused(used: set<Vme>, lo: nat, hi: nat, a: nat, b: nat) {
    forall v :: a <= v < b ==> lo <= v < hi && !Held(used, v)
  }

  lemma Nothing(lo: nat, hi: nat)
    requires lo < hi
    ensures TilesBut({}, lo, hi, lo, hi) && Calm({}) && FreeOf({}) == {} && UsedOf({}) == {} && SizeOf({}) == 0 && Separate(map[])
  {
  }

  /** Of the extents sure to fit the request the only one is half a word or more, and so is what the
      request leaves of it. */
  ghost predicate LeavesHalf(free: set<Ext>, size: nat)
    requires size > 0
  {
    exists x :: x in free && x.size >= size + HALF && forall y :: y in free && y != x ==> y.size < Pow2(MinBit(size))
  }

  ghost predicate Extents(free: set<Ext>) {
    && (forall x :: x in free ==> 0 < x.size < WORD)
    && forall x, y :: x in free && y in free && x.size >= HALF && y.size >= HALF ==> x == y
  }

  /** No two extents of an arena are half a word long. */
  lemma ExtentsFit(es: set<Vme>, lo: nat, hi: nat)
    requires TilesBut(es, lo, hi, lo, lo) && hi < WORD
    ensures Extents(FreeOf(es)) && forall x :: x in FreeOf(es) ==> x.size <= hi - lo
  {
    forall x | x in FreeOf(es) ensures 0 < x.size <= hi - lo {
      FreeOfMember(es, x);
    }
    forall x, y | x in FreeOf(es) && y in FreeOf(es) && x.size >= HALF && y.size >= HALF ensures x == y {
      FreeOfMember(es, x);
      FreeOfMember(es, y);
    }
  }

  lemma SureToFit(n: nat, size: nat)
    requires 0 < size && size + HALF <= n < WORD
    ensures n >= Pow2(MinBit(size))
  {
    WordIsPow2();
    assert Pow2(ORDMAX) == 2 * Pow2(ORDMAX - 1);
    MinBitBounds(size);
    assert size <= Pow2(ORDMAX - 1);
    Pow2Mono(MinBit(size), ORDMAX - 1);
  }

  lemma NoneLeaves(free: set<Ext>, size: nat)
    requires Extents(free) && 0 < size && forall e :: e in free ==> e.size < Pow2(MinBit(size))
    ensures !LeavesHalf(free, size)
  {
    if x :| x in free && x.size >= size + HALF {
      SureToFit(x.size, size);
    }
  }

  /** The extent of the lowest class leaves half a word only if there is no other. */
  lemma LeftOver(free: set<Ext>, x: Ext, size: nat)
    requires Extents(free) && 0 < size && x in free && x.size >= Pow2(MinBit(size))
    requires forall e :: e in free && e.size >= Pow2(MinBit(size)) ==> Msb(x.size) <= Msb(e.size)
    ensures x.size >= size + HALF <==> LeavesHalf(free, size)
  {
    if x.size >= size + HALF {
      HighestClass(x.size);
      forall y | y in free && y != x ensures y.size < Pow2(MinBit(size)) {
        if y.size >= Pow2(MinBit(size)) {
          MsbInRange(y.size);
          HighestClass(y.size);
        }
      }
    }
  }

  /** A size is rounded up to the next whole page, and to zero if there is none below the word. */
  lemma RoundPageIs(size: nat)
    requires size < WORD
    ensures RoundPage(size) < WORD && (RoundPage(size) == 0 <==> size == 0 || size > WORD - PAGE_SIZE)
    ensures RoundPage(size) != 0 ==> RoundPage(size) % PAGE_SIZE == 0 && size <= RoundPage(size) < size + PAGE_SIZE
    ensures forall n: nat :: 0 < n < WORD && n % PAGE_SIZE == 0 && size <= n < size + PAGE_SIZE ==> n == RoundPage(size)
  {
  }

  lemma InArena(es: set<Vme>, lo: nat, hi: nat, e: Vme)
    requires TilesBut(es, lo, hi, lo, lo) && e in es
    ensures lo <= e.addr && e.size > 0
  {
  }

  lemma EntriesHaveSize(es: set<Vme>, lo: nat, hi: nat)
    requires TilesBut(es, lo, hi, lo, lo)
    ensures forall e :: e in es ==> e.Has(e.addr) && 0 < e.size <= hi
  {
  }

  lemma HoleIsFree(es: set<Vme>, lo: nat, hi: nat, a: nat, b: nat)
    requires TilesBut(es, lo, hi, a, b)
    ensures Unused(UsedOf(es), lo, hi, a, b)
  {
  }

  /** An entry put at the end of a hole, with no free entry beside it if it is free. */
  lemma NewEntry(es: set<Vme>, lo: nat, hi: nat, a: nat, b: nat, e: Vme)
    requires TilesBut(es, lo, hi, a, b) && Calm(es) && a <= e.addr && e.End() == b && e.size > 0
    requires e.Free() ==> forall f :: f in es && f.Free() ==> f.End() != e.addr && e.End() != f.addr
    ensures TilesBut(es + {e}, lo, hi, a, e.addr) && Calm(es + {e}) && e !in es && e.size <= hi
    ensures forall f :: f in es ==> Disjoint(f, e)
    ensures FreeOf(es + {e}) == FreeOf(es) + (if e.Free() then {e.AsExt()} else {})
    ensures UsedOf(es + {e}) == UsedOf(es) + (if e.Free() then {} else {e})
    ensures e.Free() ==> e.AsExt() !in FreeOf(es)
  {
    PutIn(es, lo, hi, a, b, e);
    CalmAdd(es, e);
    FreeOfAdd(es, e);
    FreeOfMember(es, e.AsExt());
  }

  lemma SizeAdd(es: set<Vme>, e: Vme)
    requires e.size > 0 && forall f :: f in es ==> Disjoint(f, e)
    ensures SizeOf(es + {e}) == SizeOf(es) + e.size
  {
    assert !Disjoint(e, e) && e !in es;
    SizeTake(es + {e}, e);
    assert es + {e} - {e} == es;
  }

  /** What exactly fills a hole meets no entry, so no free one is it. */
  lemma HoleMeetsNone(es: set<Vme>, lo: nat, hi: nat, a: nat, b: nat, e: Vme)
    requires TilesBut(es, lo, hi, a, b) && e.addr == a && e.End() == b && e.size > 0
    ensures forall f :: f in es ==> Disjoint(f, e)
    ensures e.AsExt() !in FreeOf(es)
  {
    FreeOfMember(es, e.AsExt());
  }

  lemma NoneStarts(m: map<Ptr, Vme>, e: Vme)
    requires e.size > 0 && (forall p :: p in m ==> m[p].size > 0) && forall f :: f in Image(m) ==> Disjoint(f, e)
    ensures forall p :: p in m ==> m[p].addr != e.addr
  {
    forall p | p in m ensures m[p].addr != e.addr {
      assert m[p] in Image(m);
    }
  }

  lemma FoundOnly(m: map<Ptr, Vme>, p: Ptr, va: nat)
    requires Separate(m)
    ensures p in m && m[p].Has(va) ==> forall e :: e in Image(m) && e.Has(va) ==> e == m[p]
  {
  }

  lemma ClosedHole(es: set<Vme>, lo: nat, hi: nat, x: nat)
    requires TilesBut(es, lo, hi, x, x)
    ensures TilesBut(es, lo, hi, lo, lo)
  {
  }

  /** The neighbours of the end of a hole touch it: the previous one only when the hole is to be
      filled from its start. */
  lemma BesideHole(m: map<Ptr, Vme>, es: set<Vme>, lo: nat, hi: nat, a: nat, b: nat, pze: Ptr, nze: Ptr, zaddr: nat)
    requires TilesBut(es, lo, hi, a, b) && a <= zaddr < b && forall p :: p in m ==> m[p] in es
    requires pze != NULL ==> zaddr > 0 && pze in m && m[pze].Has(zaddr - 1)
    requires nze != NULL ==> nze in m && m[nze].Has(b)
    ensures pze != NULL ==> a == zaddr && m[pze].End() == a
    ensures nze != NULL ==> m[nze].addr == b
    ensures pze != NULL && nze != NULL ==> pze != nze
  {
  }

  /** No free entry left touches the merged one. */
  lemma MergedIsCalm(es0: set<Vme>, lo: nat, hi: nat, a: nat, b: nat, zaddr: nat, e: Vme, es: set<Vme>)
    requires TilesBut(es0, lo, hi, a, b) && Calm(es0) && a <= zaddr < b && es <= es0
    requires e.addr == zaddr || (a == zaddr && exists p :: p in es0 && p.Free() && p.End() == a && p.addr == e.addr)
    requires e.End() == b || exists n :: n in es0 && n.Free() && n.addr == b && n.End() == e.End()
    requires e.addr == zaddr && zaddr > 0 ==> forall f :: f in es0 && f.Has(zaddr - 1) ==> !f.Free()
    requires e.End() == b ==> forall f :: f in es0 && f.Has(b) ==> !f.Free()
    ensures forall f :: f in es && f.Free() ==> f.End() != e.addr && e.End() != f.addr
  {
  }

  lemma CompareConsistent(m: map<Ptr, Vme>, va: nat, key: Ptr -> int, cmp: Ptr -> int)
    requires Separate(m)
    requires forall p :: p in m ==> key(p) == m[p].addr && m[p].size > 0
    requires forall p :: p in m ==> cmp(p) == if va < m[p].addr then 1 else if va > m[p].addr + m[p].size - 1 then -1 else 0
    ensures R.Consistent(key, cmp, m.Keys)
  {
  }
}
