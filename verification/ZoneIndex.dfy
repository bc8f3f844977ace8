/** The index of a zone of free extents: a bitmap of size classes over one list per power of two,
    and the total of the free sizes. */
module ZoneIndex {
  import opened Options
  import opened Powers

  /** A free extent [addr, addr + size). */
  datatype Ext = Ext(addr: nat, size: nat) {
    function End(): nat { addr + size }
  }

  const ORDMAX: nat := 32
  const WORD: nat := 0x1_0000_0000

  // ---------------------------------------------------------------- powers and top bits

  /** The number of the highest bit set. */
  function Msb(n: nat): nat
    requires n > 0
  {
    if n == 1 then 0 else 1 + Msb(n / 2)
  }

  lemma {:induction false} MsbBounds(n: nat)
    requires n > 0
    ensures Pow2(Msb(n)) <= n < Pow2(Msb(n) + 1)
  {
    if n > 1 { MsbBounds(n / 2); }
  }

  lemma WordIsPow2()
    ensures Pow2(ORDMAX) == WORD
  {
    assert Pow2(8) == 256;
    assert Pow2(16) == 0x1_0000 by { assert Pow2(12) == 4096; }
    assert Pow2(20) == 0x10_0000;
    assert Pow2(24) == 0x100_0000;
    assert Pow2(28) == 0x1000_0000;
  }

  /** A size that fits a word has its top bit within the classes. */
  lemma MsbInRange(n: nat)
    requires 0 < n < WORD
    ensures Msb(n) < ORDMAX
  {
    MsbBounds(n);
    WordIsPow2();
    if Msb(n) >= ORDMAX { Pow2Mono(ORDMAX, Msb(n)); }
  }

  /** The class a request starts looking in: the least k with size <= 2^k. */
  function MinBit(size: nat): nat
    requires size > 0
  {
    if size != Pow2(Msb(size)) then Msb(size) + 1 else Msb(size)
  }

  lemma MinBitBounds(size: nat)
    requires size > 0
    ensures size <= Pow2(MinBit(size)) <= 2 * size - 1
    ensures forall k: nat :: size <= Pow2(k) ==> MinBit(size) <= k
  {
    MsbBounds(size);
    forall k: nat | size <= Pow2(k) ensures MinBit(size) <= k {
      if k < MinBit(size) {
        Pow2Mono(k, MinBit(size) - 1);
      }
    }
  }

  /** An extent's class is at least k exactly when its size is at least 2^k. */
  lemma ClassAtLeast(n: nat, k: nat)
    requires n > 0
    ensures Msb(n) >= k <==> n >= Pow2(k)
  {
  }

  // ---------------------------------------------------------------- totals

  ghost function Total(s: set<Ext>): nat {
    if s == {} then 0 else var e :| e in s; e.size + Total(s - {e})
  }

  lemma {:induction false} TotalTake(s: set<Ext>, e: Ext)
    requires e in s
    ensures Total(s) == e.size + Total(s - {e})
    decreases s
  {
    var x :| x in s && Total(s) == x.size + Total(s - {x});
    if x != e {
      TotalTake(s - {x}, e);
      TotalTake(s - {e}, x);
      assert s - {x} - {e} == s - {e} - {x};
    }
  }

  lemma TotalAdd(s: set<Ext>, e: Ext)
    requires e !in s
    ensures Total(s + {e}) == Total(s) + e.size
  {
    TotalTake(s + {e}, e);
    assert s + {e} - {e} == s;
  }

  // ---------------------------------------------------------------- lists

  predicate NoDup(l: seq<Ext>) { forall i, j :: 0 <= i < j < |l| ==> l[i] != l[j] }

  function Without(l: seq<Ext>, e: Ext): seq<Ext> {
    if l == [] then [] else if l[0] == e then l[1..] else [l[0]] + Without(l[1..], e)
  }

  lemma {:induction false} WithoutMembers(l: seq<Ext>, e: Ext)
    requires NoDup(l)
    ensures NoDup(Without(l, e))
    ensures forall x :: x in Without(l, e) <==> x in l && x != e
  {
    if l != [] {
      assert l == [l[0]] + l[1..];
      WithoutMembers(l[1..], e);
      var w := Without(l[1..], e);
      assert l[0] !in l[1..];
      forall i, j | 0 <= i < j < |Without(l, e)| && l[0] != e ensures Without(l, e)[i] != Without(l, e)[j] {
        assert w[j - 1] in w;
      }
    }
  }

  /** Bit k is set exactly when list k is not empty, and every extent sits once in the list of its
      size's top bit and nowhere else. */
  ghost predicate Indexed(bmap: seq<bool>, zlist: seq<seq<Ext>>, free: set<Ext>) {
    && |bmap| == |zlist| == ORDMAX
    && (forall k :: 0 <= k < ORDMAX ==> (bmap[k] <==> zlist[k] != []))
    && (forall k :: 0 <= k < ORDMAX ==> NoDup(zlist[k]))
    && (forall k, e :: 0 <= k < ORDMAX && e in zlist[k] ==> e in free && 0 < e.size < WORD && Msb(e.size) == k)
    && (forall e :: e in free ==> 0 < e.size < WORD && Msb(e.size) < ORDMAX && e in zlist[Msb(e.size)])
  }

  lemma IndexAdd(bmap: seq<bool>, zlist: seq<seq<Ext>>, free: set<Ext>, e: Ext)
    requires Indexed(bmap, zlist, free) && 0 < e.size < WORD && e !in free && Msb(e.size) < ORDMAX
    ensures var k := Msb(e.size);
            Indexed(bmap[k := true], zlist[k := [e] + zlist[k]], free + {e})
  {
  }

  lemma IndexTake(bmap: seq<bool>, zlist: seq<seq<Ext>>, free: set<Ext>, e: Ext)
    requires Indexed(bmap, zlist, free) && e in free && e.size > 0 && Msb(e.size) < ORDMAX
    ensures var k := Msb(e.size);
            var l := Without(zlist[k], e);
            Indexed(bmap[k := l != []], zlist[k := l], free - {e})
  {
    WithoutMembers(zlist[Msb(e.size)], e);
  }

  lemma WrapAdd(t: nat, s: nat)
    ensures (t % WORD + s) % WORD == (t + s) % WORD
  {
  }

  lemma WrapSub(t: nat, s: nat)
    requires s <= t && s < WORD
    ensures (t % WORD + WORD - s) % WORD == (t - s) % WORD
  {
  }

  class Zone {
    var bmap: seq<bool>
    var zlist: seq<seq<Ext>>
    var nfree: nat
    ghost var free: set<Ext>

    /** The index agrees with the set of free extents, and the total is that of the free sizes in
        a 32-bit word. */
    ghost predicate Valid()
      reads this
    {
      Indexed(bmap, zlist, free) && nfree == Total(free) % WORD
    }

    constructor ()
      ensures Valid() && free == {}
    {
      bmap := seq(ORDMAX, i => false);
      zlist := seq(ORDMAX, i => []);
      nfree := 0;
      free := {};
    }

    method Attach(e: Ext)
      requires Valid() && 0 < e.size < WORD && e !in free
      modifies this
      ensures Valid() && free == old(free) + {e}
    {
      hide Indexed, Msb;
      MsbInRange(e.size);
      IndexLengths(bmap, zlist, free);
      IndexAdd(bmap, zlist, free, e);
      TotalAdd(free, e);
      WrapAdd(Total(free), e.size);
      var msb := Msb(e.size);
      bmap := bmap[msb := true];
      zlist := zlist[msb := [e] + zlist[msb]];
      nfree := (nfree + e.size) % WORD;
      free := free + {e};
    }

    method Detach(e: Ext)
      requires Valid() && e in free
      modifies this
      ensures Valid() && free == old(free) - {e}
    {
      hide Indexed, Msb;
      IndexLengths(bmap, zlist, free);
      IndexTake(bmap, zlist, free, e);
      TotalTake(free, e);
      WrapSub(Total(free), e.size);
      var msb := Msb(e.size);
      zlist := zlist[msb := Without(zlist[msb], e)];
      if zlist[msb] == [] {
        bmap := bmap[msb := false];
      } else {
        SetAlready(old(bmap), old(zlist), free, e);
      }
      nfree := (nfree + WORD - e.size) % WORD;
      free := free - {e};
    }

    /** An extent large enough, of the lowest class that holds one sure to be; none exactly when every
        free extent is smaller than the least power of two that covers the request. */
    method FindFree(size: nat) returns (r: Option<Ext>)
      requires Valid() && 0 < size < WORD
      ensures r.Some? ==> r.value in free && r.value.size >= Pow2(MinBit(size)) >= size
      ensures r.Some? ==> forall e :: e in free && e.size >= Pow2(MinBit(size)) ==> Msb(r.value.size) <= Msb(e.size)
      ensures r.None? <==> forall e :: e in free ==> e.size < Pow2(MinBit(size))
    {
      MinBitBounds(size);
      var minbit := Msb(size);
      if size != Pow2(minbit) {
        minbit := minbit + 1;
      }
      if minbit >= ORDMAX {
        forall e | e in free ensures e.size < Pow2(MinBit(size)) {
          ClassAtLeast(e.size, minbit);
        }
        return None;
      }
      var k := minbit;
      while k < ORDMAX && !bmap[k]
        invariant minbit <= k <= ORDMAX
        invariant forall j :: minbit <= j < k ==> !bmap[j]
      {
        k := k + 1;
      }
      if k == ORDMAX {
        forall e | e in free ensures e.size < Pow2(MinBit(size)) {
          ClassAtLeast(e.size, minbit);
        }
        return None;
      }
      var e := zlist[k][0];
      assert e in zlist[k];
      ClassAtLeast(e.size, minbit);
      forall x | x in free && x.size >= Pow2(minbit) ensures k <= Msb(x.size) {
        ClassAtLeast(x.size, minbit);
      }
      r := Some(e);
    }
  }

  /** Half a word: an extent of this size or more is of the highest class. */
  const HALF: nat := 0x8000_0000

  lemma HighestClass(n: nat)
    requires 0 < n < WORD
    ensures n >= HALF <==> Msb(n) == ORDMAX - 1
  {
    hide Msb;
    WordIsPow2();
    assert Pow2(ORDMAX) == 2 * Pow2(ORDMAX - 1);
    ClassAtLeast(n, ORDMAX - 1);
    MsbInRange(n);
  }

  /** A free extent of at least twice the request less one is always enough. */
  lemma DoubleSuffices(size: nat, n: nat)
    requires size > 0 && n >= 2 * size - 1
    ensures n >= Pow2(MinBit(size))
  {
    MinBitBounds(size);
  }

  lemma IndexLengths(bmap: seq<bool>, zlist: seq<seq<Ext>>, free: set<Ext>)
    requires Indexed(bmap, zlist, free)
    ensures |bmap| == |zlist| == ORDMAX
    ensures forall e :: e in free ==> 0 < e.size < WORD && Msb(e.size) < ORDMAX
  {
  }

  lemma SetAlready(bmap: seq<bool>, zlist: seq<seq<Ext>>, free: set<Ext>, e: Ext)
    requires Indexed(bmap, zlist, free) && e in free && e.size > 0 && Msb(e.size) < ORDMAX
    ensures |bmap| == ORDMAX && bmap[Msb(e.size) := true] == bmap
  {
  }
}
