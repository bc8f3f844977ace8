/** Entries that tile an address range, possibly but for one hole. */
module Tiling {
  import opened ZoneIndex

  const VFNT_INVALID: nat := 0
  const VFNT_FREE: nat := 1

  datatype Vme = Vme(addr: nat, size: nat, typ: nat) {
    function End(): nat { addr + size }
    predicate Free() { typ == VFNT_FREE }
    predicate Has(va: nat) { addr <= va < End() }
    function AsExt(): Ext { Ext(addr, size) }
  }

  ghost predicate Disjoint(a: Vme, b: Vme) { a.End() <= b.addr || b.End() <= a.addr }

  /** Every entry is inside [lo, hi), has a size, and meets no other. */
  ghost predicate Fits(es: set<Vme>, lo: nat, hi: nat) {
    && (forall e :: e in es ==> lo <= e.addr && e.size > 0 && e.End() <= hi)
    && (forall e, f :: e in es && f in es && e != f ==> Disjoint(e, f))
  }

  ghost predicate Held(es: set<Vme>, va: nat) { exists e :: e in es && e.Has(va) }

  /** The entries cover exactly [lo, hi) without the hole [a, b). */
  ghost predicate TilesBut(es: set<Vme>, lo: nat, hi: nat, a: nat, b: nat) {
    && lo <= a <= b <= hi
    && Fits(es, lo, hi)
    && (forall e :: e in es ==> e.End() <= a || b <= e.addr)
    && (forall va :: lo <= va < hi && !(a <= va < b) ==> Held(es, va))
  }

  /** No two free entries touch. */
  ghost predicate Calm(es: set<Vme>) {
    forall e, f :: e in es && f in es && e.Free() && f.Free() ==> e.End() != f.addr
  }

  ghost function FreeOf(es: set<Vme>): set<Ext> { set e | e in es && e.Free() :: e.AsExt() }
  ghost function UsedOf(es: set<Vme>): set<Vme> { set e | e in es && !e.Free() }

  /** Adding or removing a free entry adds or removes its extent, and touches no other. */
  lemma FreeOfAdd(es: set<Vme>, e: Vme)
    ensures FreeOf(es + {e}) == FreeOf(es) + (if e.Free() then {e.AsExt()} else {})
    ensures UsedOf(es + {e}) == UsedOf(es) + (if e.Free() then {} else {e})
  {
  }

  lemma FreeOfTake(es: set<Vme>, e: Vme)
    requires e in es
    ensures e.Free() ==> e.AsExt() in FreeOf(es)
    ensures FreeOf(es - {e}) == FreeOf(es) - (if e.Free() then {e.AsExt()} else {})
    ensures UsedOf(es - {e}) == UsedOf(es) - (if e.Free() then {} else {e})
  {
  }

  lemma FreeOfMember(es: set<Vme>, x: Ext)
    ensures x in FreeOf(es) <==> Vme(x.addr, x.size, VFNT_FREE) in es
  {
  }

  /** Taking an entry out opens or widens the hole. */
  lemma TakeOut(es: set<Vme>, lo: nat, hi: nat, a: nat, b: nat, e: Vme)
    requires TilesBut(es, lo, hi, a, b) && Calm(es) && e in es
    ensures Calm(es - {e}) && Fits(es - {e}, lo, hi)
    ensures a == b ==> TilesBut(es - {e}, lo, hi, e.addr, e.End())
    ensures e.End() == a ==> TilesBut(es - {e}, lo, hi, e.addr, b)
    ensures e.addr == b ==> TilesBut(es - {e}, lo, hi, a, e.End())
  {
    forall va | lo <= va < hi && !(a <= va < b) && !e.Has(va) ensures Held(es - {e}, va) {
      assert Held(es, va);
      var f :| f in es && f.Has(va);
      assert f in es - {e};
    }
    forall f | f in es - {e} ensures Disjoint(f, e) {
    }
  }

  /** Putting an entry at the end or the start of the hole narrows it. */
  lemma PutIn(es: set<Vme>, lo: nat, hi: nat, a: nat, b: nat, e: Vme)
    requires TilesBut(es, lo, hi, a, b) && a <= e.addr && e.End() <= b && e.size > 0
    ensures e !in es && Fits(es + {e}, lo, hi)
    ensures e.End() == b ==> TilesBut(es + {e}, lo, hi, a, e.addr)
    ensures e.addr == a ==> TilesBut(es + {e}, lo, hi, e.End(), b)
  {
    forall va | lo <= va < hi && (!(a <= va < b) || e.Has(va)) ensures Held(es + {e}, va) {
      if e.Has(va) {
        assert e in es + {e};
      } else {
        assert Held(es, va);
        var f :| f in es && f.Has(va);
        assert f in es + {e};
      }
    }
  }

  lemma CalmAdd(es: set<Vme>, e: Vme)
    requires Calm(es) && e.size > 0
    requires e.Free() ==> forall f :: f in es && f.Free() ==> f.End() != e.addr && e.End() != f.addr
    ensures Calm(es + {e})
  {
  }

  /** Where an entry ends short of the arena, another begins. */
  lemma NextEntry(es: set<Vme>, lo: nat, hi: nat, e: Vme) returns (f: Vme)
    requires TilesBut(es, lo, hi, lo, lo) && e in es && e.End() < hi
    ensures f in es && f.addr == e.End()
  {
    assert Held(es, e.End());
    f :| f in es && f.Has(e.End());
    assert Disjoint(e, f);
  }

  /** When nothing is allocated, one extent is left, and it is the whole arena. */
  lemma AllFree(es: set<Vme>, lo: nat, hi: nat)
    requires TilesBut(es, lo, hi, lo, lo) && Calm(es) && lo < hi && UsedOf(es) == {}
    ensures es == {Vme(lo, hi - lo, VFNT_FREE)}
  {
    assert Held(es, lo);
    var e :| e in es && e.Has(lo);
    assert forall f :: f in es && !f.Free() ==> f in UsedOf(es);
    if e.End() < hi {
      var f := NextEntry(es, lo, hi, e);
    }
    forall f | f in es ensures f == e {
      assert f != e ==> Disjoint(f, e);
    }
  }

  /** The entry holding an address is the only one. */
  lemma OneHolder(es: set<Vme>, lo: nat, hi: nat, e: Vme, f: Vme, va: nat)
    requires Fits(es, lo, hi) && e in es && f in es && e.Has(va) && f.Has(va)
    ensures e == f
  {
  }

  /** What the node comparison asserts of two entries before it compares them holds of any two
      entries of a tiling away from address zero. */
  lemma ComparisonAsserts(es: set<Vme>, lo: nat, hi: nat, e: Vme, f: Vme)
    requires Fits(es, lo, hi) && lo > 0 && e in es && f in es && e != f
    ensures e.addr < f.addr || e.addr > f.size
    ensures f.addr < e.addr || f.addr > e.size
    ensures e.addr != f.addr
  {
  }

  /** The free entries of a calm tiling are exactly the gaps between used ones: an address is free
      exactly when no used entry holds it. */
  lemma FreeIsTheRest(es: set<Vme>, lo: nat, hi: nat, va: nat)
    requires TilesBut(es, lo, hi, lo, lo) && lo <= va < hi
    ensures (exists x :: x in FreeOf(es) && x.addr <= va < x.End()) <==> !Held(UsedOf(es), va)
  {
    assert Held(es, va);
    var e :| e in es && e.Has(va);
    if e.Free() {
      assert e.AsExt() in FreeOf(es);
      if Held(UsedOf(es), va) {
        var f :| f in UsedOf(es) && f.Has(va);
        OneHolder(es, lo, hi, e, f, va);
      }
    } else {
      assert e in UsedOf(es);
      if x :| x in FreeOf(es) && x.addr <= va < x.End() {
        FreeOfMember(es, x);
        OneHolder(es, lo, hi, e, Vme(x.addr, x.size, VFNT_FREE), va);
      }
    }
  }

  // ---------------------------------------------------------------- conservation

  ghost function SizeOf(es: set<Vme>): nat {
    if es == {} then 0 else var e :| e in es; e.size + SizeOf(es - {e})
  }

  lemma {:induction false} SizeTake(es: set<Vme>, e: Vme)
    requires e in es
    ensures SizeOf(es) == e.size + SizeOf(es - {e})
    decreases es
  {
    var x :| x in es && SizeOf(es) == x.size + SizeOf(es - {x});
    if x != e {
      SizeTake(es - {x}, e);
      SizeTake(es - {e}, x);
      assert es - {x} - {e} == es - {e} - {x};
    }
  }

  /** The sizes of the entries add up to the arena. */
  lemma {:induction false} SizesFill(es: set<Vme>, lo: nat, hi: nat)
    requires TilesBut(es, lo, hi, lo, lo)
    ensures SizeOf(es) == hi - lo
    decreases hi - lo
  {
    if lo == hi {
      assert es == {};
    } else {
      assert Held(es, lo);
      var e :| e in es && e.Has(lo);
      FirstOut(es, lo, hi, e);
      SizesFill(es - {e}, e.End(), hi);
      SizeTake(es, e);
    }
  }

  lemma FirstOut(es: set<Vme>, lo: nat, hi: nat, e: Vme)
    requires TilesBut(es, lo, hi, lo, lo) && e in es && e.Has(lo)
    ensures e.addr == lo && TilesBut(es - {e}, e.End(), hi, e.End(), e.End())
  {
    forall f | f in es - {e} ensures e.End() <= f.addr {
      assert Disjoint(e, f);
    }
    forall va | e.End() <= va < hi ensures Held(es - {e}, va) {
      assert Held(es, va);
      var f :| f in es && f.Has(va);
      assert f in es - {e};
    }
  }

  lemma {:induction false} SizeSplit(es: set<Vme>)
    ensures SizeOf(es) == Total(FreeOf(es)) + SizeOf(UsedOf(es))
    decreases es
  {
    if es == {} {
      assert FreeOf(es) == {} && UsedOf(es) == {};
    } else {
      var e :| e in es;
      SizeSplit(es - {e});
      SizeTake(es, e);
      FreeOfTake(es, e);
      assert FreeOf(es) - {} == FreeOf(es) && UsedOf(es) - {} == UsedOf(es);
      if e.Free() {
        TotalTake(FreeOf(es), e.AsExt());
      } else {
        SizeTake(UsedOf(es), e);
      }
    }
  }

  /** Nothing is lost: free and used sizes add up to the arena. */
  lemma Conserved(es: set<Vme>, lo: nat, hi: nat)
    requires TilesBut(es, lo, hi, lo, lo)
    ensures Total(FreeOf(es)) + SizeOf(UsedOf(es)) == hi - lo
  {
    SizesFill(es, lo, hi);
    SizeSplit(es);
  }
}
