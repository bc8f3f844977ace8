/** Slab: caches of equal objects carved from 16 KB slabs, each with its header at its start. */
module Slab {
  import opened Options

  type Addr = nat
  type Id = nat

  const SIZE: nat := 16384
  const HDR: nat := 64

  /** The header of a slab; headers are found by their magic word. */
  datatype Header = Header(cache: Id, freecnt: int, freeq: seq<Addr>)

  datatype Cache = Cache(objsize: nat, emptyq: seq<Addr>, freeq: seq<Addr>, fullq: seq<Addr>,
                         emptycnt: int, freecnt: int, fullcnt: int)

  datatype Kind = Empty | Partial | Full

  // ---------------------------------------------------------------- addresses

  function Objs(sz: nat): nat
    requires sz > 0
  {
    (SIZE - HDR) / sz
  }

  /** Clearing the low fourteen bits of an address gives the slab it lies in. */
  lemma MaskIsBase(a: bv32)
    ensures a & !0x3fff == a - a % 0x4000
  {
  }

  /** A size rounded up to whole cache lines, in 32 bits. */
  function Lines(size: nat): nat { (size + 63) % 0x1_0000_0000 / 64 * 64 }

  /** A slab has room for an object, rounded up or not, exactly if the object's size is between one
      byte and what the header leaves of the slab. */
  lemma Room(size: nat)
    requires size < 0x1_0000_0000
    ensures size > 0 && Objs(size) > 0 <==> 0 < size <= SIZE - HDR
    ensures Lines(size) > 0 && Objs(Lines(size)) > 0 <==> 0 < size <= SIZE - HDR
    ensures 0 < size <= SIZE - HDR ==> size <= Lines(size) < size + 64
    ensures Lines(size) % 64 == 0
  {
    LinesBounds(size);
    hide Lines, Objs;
    RoomFor(size);
    RoomFor(Lines(size));
  }

  lemma LinesBounds(size: nat)
    requires size < 0x1_0000_0000
    ensures 0 < size <= SIZE - HDR ==> size <= Lines(size) < size + 64 && Lines(size) <= SIZE - HDR
    ensures !(0 < size <= SIZE - HDR) ==> Lines(size) == 0 || Lines(size) > SIZE - HDR
    ensures Lines(size) % 64 == 0
  {
  }

  lemma RoomFor(size: nat)
    ensures size > 0 && Objs(size) > 0 <==> 0 < size <= SIZE - HDR
  {
  }

  /** The slab an address lies in. */
  function Base(x: Addr): Addr { x - x % SIZE }

  /** Object i of the slab at h. */
  function Obj(h: Addr, i: nat, sz: nat): Addr { h + HDR + i * sz }

  predicate Among(h: Addr, x: Addr, sz: nat, n: nat) { exists i: nat :: i < n && x == Obj(h, i, sz) }

  predicate IsObj(h: Addr, x: Addr, sz: nat)
    requires sz > 0
  {
    Among(h, x, sz, Objs(sz))
  }

  lemma Grid(h: Addr, i: nat, j: nat, sz: nat)
    requires i < j
    ensures Obj(h, i, sz) + sz <= Obj(h, j, sz)
  {
    assert i * sz + sz + (j - i - 1) * sz == j * sz;
  }

  lemma NextObj(h: Addr, i: nat, sz: nat)
    requires sz > 0
    ensures Obj(h, i + 1, sz) == Obj(h, i, sz) + sz && !Among(h, Obj(h, i, sz), sz, i)
    ensures forall x: Addr :: Among(h, x, sz, i + 1) <==> Among(h, x, sz, i) || x == Obj(h, i, sz)
  {
  }

  lemma DivBound(n: nat, sz: nat)
    requires sz > 0
    ensures n / sz * sz <= n
  {
    assert n == n / sz * sz + n % sz;
  }

  lemma TimesLess(i: nat, n: nat, sz: nat)
    requires i < n
    ensures i * sz + sz <= n * sz
  {
    assert n * sz == (i + 1) * sz + (n - i - 1) * sz;
    assert (i + 1) * sz == i * sz + sz;
  }

  lemma DivAbove(n: nat, sz: nat)
    requires sz > 0
    ensures n < (n / sz + 1) * sz
  {
    assert n == n / sz * sz + n % sz;
    assert (n / sz + 1) * sz == n / sz * sz + sz;
  }

  /** A slab holds every object that ends inside it, and no other. */
  lemma ObjEnds(h: Addr, i: nat, sz: nat)
    requires sz > 0
    ensures h + HDR <= Obj(h, i, sz) && (Obj(h, i, sz) + sz <= h + SIZE <==> i < Objs(sz))
  {
    if i < Objs(sz) {
      DivBound(SIZE - HDR, sz);
      TimesLess(i, Objs(sz), sz);
    } else {
      DivAbove(SIZE - HDR, sz);
      if i > Objs(sz) { TimesLess(Objs(sz), i, sz); }
    }
  }

  /** Two objects fit a slab exactly up to half of what its header leaves. */
  lemma TwoFit(sz: nat)
    requires sz > 0
    ensures Objs(sz) >= 2 <==> sz <= 8160
  {
    hide Objs, Obj;
    ObjEnds(0, 1, sz);
    assert Obj(0, 1, sz) + sz <= SIZE <==> sz <= 8160 by { SecondObj(sz); }
  }

  lemma SecondObj(sz: nat)
    ensures Obj(0, 1, sz) == 64 + sz
  {
  }

  /** The objects of a slab are the addresses one object apart, from the end of its 64-byte header on, that
      end within its 16384 bytes. */
  lemma ObjIs(h: Addr, x: Addr, sz: nat)
    requires sz > 0
    ensures IsObj(h, x, sz) <==> exists i: nat :: x == h + 64 + i * sz && x + sz <= h + 16384
  {
    hide Objs;
    if IsObj(h, x, sz) {
      var i: nat :| i < Objs(sz) && x == Obj(h, i, sz);
      ObjEnds(h, i, sz);
      assert x == h + 64 + i * sz;
    }
    if i: nat :| x == h + 64 + i * sz && x + sz <= h + 16384 {
      ObjEnds(h, i, sz);
      assert x == Obj(h, i, sz);
    }
  }

  lemma SameBase(h: Addr, d: nat)
    requires h % SIZE == 0 && d < SIZE
    ensures Base(h + d) == h
  {
  }

  /** Masking the address of an object gives the header of its own slab, and the object ends inside
      that slab. */
  lemma HeaderFound(h: Addr, x: Addr, sz: nat)
    requires h % SIZE == 0 && sz > 0 && IsObj(h, x, sz)
    ensures Base(x) == h && x + sz <= h + SIZE
  {
    hide Base, Obj, Objs;
    var i: nat :| i < Objs(sz) && x == Obj(h, i, sz);
    ObjEnds(h, i, sz);
    SameBase(h, x - h);
  }

  /** Two objects of one slab do not overlap. */
  lemma ObjectsApart(h: Addr, x: Addr, y: Addr, sz: nat)
    requires sz > 0 && IsObj(h, x, sz) && IsObj(h, y, sz) && x < y
    ensures x + sz <= y
  {
    var i: nat :| i < Objs(sz) && x == Obj(h, i, sz);
    var j: nat :| j < Objs(sz) && y == Obj(h, j, sz);
    if i < j { Grid(h, i, j, sz); }
    if j < i { Grid(h, j, i, sz); }
  }

  // ---------------------------------------------------------------- queues

  predicate Distinct(q: seq<Addr>) { forall i, j :: 0 <= i < j < |q| ==> q[i] != q[j] }

  function Without(q: seq<Addr>, p: Addr): (r: seq<Addr>)
    ensures p !in q ==> r == q
  {
    if q == [] then [] else if q[0] == p then Without(q[1..], p) else [q[0]] + Without(q[1..], p)
  }

  lemma DistinctCons(x: Addr, q: seq<Addr>)
    ensures Distinct([x] + q) <==> Distinct(q) && x !in q
  {
    var r := [x] + q;
    if Distinct(r) {
      forall i, j | 0 <= i < j < |q| ensures q[i] != q[j] {
        assert r[i + 1] != r[j + 1];
      }
      forall i | 0 <= i < |q| ensures q[i] != x {
        assert r[0] != r[i + 1];
      }
    }
  }

  lemma {:induction false} WithoutFacts(q: seq<Addr>, p: Addr)
    requires Distinct(q)
    ensures Distinct(Without(q, p)) && |Without(q, p)| == |q| - (if p in q then 1 else 0)
    ensures forall x :: x in Without(q, p) <==> x in q && x != p
  {
    if q != [] {
      assert q == [q[0]] + q[1..];
      DistinctCons(q[0], q[1..]);
      WithoutFacts(q[1..], p);
      DistinctCons(q[0], Without(q[1..], p));
    }
  }

  function KindOf(freecnt: int, objs: nat): Kind {
    if freecnt == objs then Empty else if freecnt == 0 then Full else Partial
  }

  predicate SlabOk(h: Addr, hd: Header, sz: nat)
    requires sz > 0
  {
    && h % SIZE == 0 && Distinct(hd.freeq) && hd.freecnt == |hd.freeq|
    && (forall x :: x in hd.freeq ==> IsObj(h, x, sz))
  }

  /** The slabs of q belong to the cache and are of kind k. */
  ghost predicate QueueOk(hs: map<Addr, Header>, id: Id, sz: nat, q: seq<Addr>, k: Kind)
    requires sz > 0
  {
    && Distinct(q)
    && forall h :: h in q ==> h in hs && hs[h].cache == id && SlabOk(h, hs[h], sz) && KindOf(hs[h].freecnt, Objs(sz)) == k
  }

  /** Each slab is on the queue its free count dictates, and the counters count the queues. */
  ghost predicate CacheOk(hs: map<Addr, Header>, id: Id, c: Cache) {
    && c.objsize > 0 && Objs(c.objsize) > 0
    && QueueOk(hs, id, c.objsize, c.emptyq, Empty)
    && QueueOk(hs, id, c.objsize, c.freeq, Partial)
    && QueueOk(hs, id, c.objsize, c.fullq, Full)
    && c.emptycnt == |c.emptyq| && c.freecnt == |c.freeq| && c.fullcnt == |c.fullq|
  }

  predicate OnQueue(c: Cache, h: Addr) { h in c.emptyq || h in c.freeq || h in c.fullq }

  /** LIST_REMOVE: off the queue it is on. */
  function Unlink(c: Cache, h: Addr): Cache {
    c.(emptyq := Without(c.emptyq, h), freeq := Without(c.freeq, h), fullq := Without(c.fullq, h))
  }

  /** The slab at h belongs to some cache. */
  ghost predicate Kept(cs: map<Id, Cache>, hs: map<Addr, Header>, h: Addr) {
    h in hs && hs[h].cache in cs && OnQueue(cs[hs[h].cache], h)
  }

  /** x is the address of an object handed out and not given back. */
  ghost predicate LiveIn(cs: map<Id, Cache>, hs: map<Addr, Header>, x: Addr) {
    var h := Base(x);
    Kept(cs, hs, h) && cs[hs[h].cache].objsize > 0 && IsObj(h, x, cs[hs[h].cache].objsize) && x !in hs[h].freeq
  }

  /** The cache without slab p, whose header may change. */
  lemma UnlinkOk(hs: map<Addr, Header>, id: Id, c: Cache, p: Addr, hd: Header)
    requires CacheOk(hs, id, c)
    ensures var u := Unlink(c, p);
            && QueueOk(hs[p := hd], id, c.objsize, u.emptyq, Empty)
            && QueueOk(hs[p := hd], id, c.objsize, u.freeq, Partial)
            && QueueOk(hs[p := hd], id, c.objsize, u.fullq, Full)
            && !OnQueue(u, p)
            && (forall h :: OnQueue(u, h) <==> OnQueue(c, h) && h != p)
    ensures |Without(c.emptyq, p)| == |c.emptyq| - (if p in c.emptyq then 1 else 0)
    ensures |Without(c.freeq, p)| == |c.freeq| - (if p in c.freeq then 1 else 0)
    ensures |Without(c.fullq, p)| == |c.fullq| - (if p in c.fullq then 1 else 0)
  {
    WithoutFacts(c.emptyq, p);
    WithoutFacts(c.freeq, p);
    WithoutFacts(c.fullq, p);
  }

  lemma QueuePush(hs: map<Addr, Header>, id: Id, sz: nat, q: seq<Addr>, k: Kind, p: Addr)
    requires sz > 0 && QueueOk(hs, id, sz, q, k) && p !in q
    requires p in hs && hs[p].cache == id && SlabOk(p, hs[p], sz) && KindOf(hs[p].freecnt, Objs(sz)) == k
    ensures QueueOk(hs, id, sz, [p] + q, k)
  {
  }

  /** The other caches do not see a change to a slab of one. */
  lemma OthersOk(hs: map<Addr, Header>, id: Id, c: Cache, p: Addr, hd: Header)
    requires CacheOk(hs, id, c) && !OnQueue(c, p)
    ensures CacheOk(hs[p := hd], id, c)
  {
  }

  /** Distinct objects below number n are at most n. */
  lemma {:induction false} Crowded(q: seq<Addr>, h: Addr, sz: nat, n: nat)
    requires Distinct(q) && forall x :: x in q ==> Among(h, x, sz, n)
    ensures |q| <= n
    decreases n
  {
    hide Obj;
    if q != [] {
      assert q[0] in q && Among(h, q[0], sz, n);
      var first: nat :| first < n && q[0] == Obj(h, first, sz);
      var last := Obj(h, n - 1, sz);
      WithoutFacts(q, last);
      forall x | x in Without(q, last) ensures Among(h, x, sz, n - 1) {
        var i: nat :| i < n && x == Obj(h, i, sz);
        assert i != n - 1;
      }
      Crowded(Without(q, last), h, sz, n - 1);
    }
  }

  lemma FreeBound(h: Addr, hd: Header, sz: nat)
    requires sz > 0 && SlabOk(h, hd, sz)
    ensures hd.freecnt <= Objs(sz)
    ensures forall x :: IsObj(h, x, sz) && x !in hd.freeq ==> hd.freecnt < Objs(sz)
  {
    Crowded(hd.freeq, h, sz, Objs(sz));
    forall x | IsObj(h, x, sz) && x !in hd.freeq ensures hd.freecnt < Objs(sz) {
      DistinctCons(x, hd.freeq);
      Crowded([x] + hd.freeq, h, sz, Objs(sz));
    }
  }

  function QueueOf(c: Cache, k: Kind): seq<Addr> {
    match k case Empty => c.emptyq case Partial => c.freeq case Full => c.fullq
  }

  /** Insert at the head of a queue and count it. */
  function Push(c: Cache, h: Addr, k: Kind): Cache {
    match k
    case Empty => c.(emptyq := [h] + c.emptyq, emptycnt := c.emptycnt + 1)
    case Partial => c.(freeq := [h] + c.freeq, freecnt := c.freecnt + 1)
    case Full => c.(fullq := [h] + c.fullq, fullcnt := c.fullcnt + 1)
  }

  /** Take off its queue, and count it off queue k. */
  function Drop(c: Cache, h: Addr, k: Kind): Cache {
    var u := Unlink(c, h);
    match k
    case Empty => u.(emptycnt := c.emptycnt - 1)
    case Partial => u.(freecnt := c.freecnt - 1)
    case Full => u.(fullcnt := c.fullcnt - 1)
  }

  function Moved(c: Cache, h: Addr, from: Kind, to: Kind): Cache {
    if from == to then c else Push(Drop(c, h, from), h, to)
  }

  /** Every slab on a queue is of the kind of that queue only. */
  lemma OneQueue(hs: map<Addr, Header>, id: Id, c: Cache, h: Addr, k: Kind)
    requires CacheOk(hs, id, c) && h in QueueOf(c, k)
    ensures h in hs && hs[h].cache == id && SlabOk(h, hs[h], c.objsize) && KindOf(hs[h].freecnt, Objs(c.objsize)) == k
    ensures OnQueue(c, h) && forall j :: j != k ==> h !in QueueOf(c, j)
  {
  }

  /** A slab that stays on its queue. */
  lemma QueueStays(hs: map<Addr, Header>, id: Id, sz: nat, q: seq<Addr>, k: Kind, h: Addr, hd: Header)
    requires sz > 0 && QueueOk(hs, id, sz, q, k) && hd.cache == id && SlabOk(h, hd, sz)
    ensures QueueOk(hs[h := hd], id, sz, q, k) <==> (h in q ==> KindOf(hd.freecnt, Objs(sz)) == k)
  {
  }

  /** A slab that changes queues. */
  lemma MovedAway(hs: map<Addr, Header>, id: Id, c: Cache, h: Addr, from: Kind, to: Kind, hd: Header)
    requires CacheOk(hs, id, c) && h in QueueOf(c, from) && hd.cache == id && SlabOk(h, hd, c.objsize) && from != to
    ensures CacheOk(hs[h := hd], id, Moved(c, h, from, to)) <==> KindOf(hd.freecnt, Objs(c.objsize)) == to
  {
    OneQueue(hs, id, c, h, from);
    UnlinkOk(hs, id, c, h, hd);
    assert forall k :: k != from ==> h !in QueueOf(c, k);
    hide QueueOk, SlabOk, KindOf, Objs, Without;
    PushIff(hs[h := hd], id, c.objsize, QueueOf(Unlink(c, h), to), to, h);
  }

  lemma PushIff(hs: map<Addr, Header>, id: Id, sz: nat, q: seq<Addr>, k: Kind, p: Addr)
    requires sz > 0 && QueueOk(hs, id, sz, q, k) && p !in q
    requires p in hs && hs[p].cache == id && SlabOk(p, hs[p], sz)
    ensures QueueOk(hs, id, sz, [p] + q, k) <==> KindOf(hs[p].freecnt, Objs(sz)) == k
  {
  }

  /** A slab whose header changes fits its cache again exactly if it is on the queue of its new kind. */
  lemma MovedOk(hs: map<Addr, Header>, id: Id, c: Cache, h: Addr, from: Kind, to: Kind, hd: Header)
    requires CacheOk(hs, id, c) && h in QueueOf(c, from) && hd.cache == id && SlabOk(h, hd, c.objsize)
    ensures CacheOk(hs[h := hd], id, Moved(c, h, from, to)) <==> KindOf(hd.freecnt, Objs(c.objsize)) == to
    ensures forall g :: OnQueue(Moved(c, h, from, to), g) <==> OnQueue(c, g)
    ensures Moved(c, h, from, to).objsize == c.objsize
  {
    hide QueueOk, SlabOk, KindOf, Objs;
    OneQueue(hs, id, c, h, from);
    if from == to {
      assert h in QueueOf(c, Empty) ==> from == Empty;
      assert h in QueueOf(c, Partial) ==> from == Partial;
      assert h in QueueOf(c, Full) ==> from == Full;
      QueueStays(hs, id, c.objsize, c.emptyq, Empty, h, hd);
      QueueStays(hs, id, c.objsize, c.freeq, Partial, h, hd);
      QueueStays(hs, id, c.objsize, c.fullq, Full, h, hd);
    } else {
      MovedAway(hs, id, c, h, from, to, hd);
      UnlinkOk(hs, id, c, h, hd);
    }
  }

  /** What changing the free list of one slab does to the live objects. */
  lemma Relinked(cs: map<Id, Cache>, hs: map<Addr, Header>, id: Id, h: Addr, c': Cache, hd: Header)
    requires h in hs && hs[h].cache == id && hd.cache == id && id in cs && OnQueue(cs[id], h)
    requires cs[id].objsize > 0 && c'.objsize == cs[id].objsize
    requires forall g :: OnQueue(c', g) <==> OnQueue(cs[id], g)
    ensures forall g :: Kept(cs[id := c'], hs[h := hd], g) <==> Kept(cs, hs, g)
    ensures forall x: Addr :: LiveIn(cs[id := c'], hs[h := hd], x) <==>
                              if Base(x) == h then IsObj(h, x, c'.objsize) && x !in hd.freeq else LiveIn(cs, hs, x)
  {
  }

  /** The kind a slab has with one object less: the one it was queued for, if a slab has two objects. */
  lemma KindAfter(h: Addr, hd: Header, sz: nat, from: Kind)
    requires sz > 0 && Objs(sz) > 0 && SlabOk(h, hd, sz) && KindOf(hd.freecnt, Objs(sz)) == from && from != Full
    ensures var to := if from == Partial && hd.freecnt == 1 then Full else Partial;
            KindOf(hd.freecnt - 1, Objs(sz)) == to <==> Objs(sz) >= 2
  {
    FreeBound(h, hd, sz);
  }

  /** Handing out the first object of the free list. */
  lemma TakenOut(cs: map<Id, Cache>, hs: map<Addr, Header>, id: Id, h: Addr, from: Kind, to: Kind, hd: Header)
    requires forall k :: k in cs ==> CacheOk(hs, k, cs[k])
    requires id in cs && h in QueueOf(cs[id], from) && from != Full && h in hs && hs[h].freeq != []
    requires hd == Header(hs[h].cache, hs[h].freecnt - 1, hs[h].freeq[1..])
    ensures var cs' := cs[id := Moved(cs[id], h, from, to)];
            var hs', oh := hs[h := hd], hs[h].freeq[0];
            && Base(oh) == h && hd.cache == id && !LiveIn(cs, hs, oh)
            && (forall x: Addr :: LiveIn(cs', hs', x) <==> LiveIn(cs, hs, x) || x == oh)
            && (forall g :: Kept(cs', hs', g) <==> Kept(cs, hs, g))
            && cs'[id].objsize == cs[id].objsize
            && ((forall k :: k in cs' ==> CacheOk(hs', k, cs'[k])) <==> KindOf(hd.freecnt, Objs(cs[id].objsize)) == to)
  {
    var oh, rest, sz := hs[h].freeq[0], hs[h].freeq[1..], cs[id].objsize;
    var c' := Moved(cs[id], h, from, to);
    OneQueue(hs, id, cs[id], h, from);
    assert hs[h].freeq == [oh] + rest;
    DistinctCons(oh, rest);
    HeaderFound(h, oh, sz);
    MovedOk(hs, id, cs[id], h, from, to, hd);
    Relinked(cs, hs, id, h, c', hd);
    OthersKeep(cs, hs, id, h, hd);
    hide CacheOk, Moved, IsObj, KindOf, Objs;
    var cs', hs' := cs[id := c'], hs[h := hd];
    assert forall k :: k in cs' && k != id ==> CacheOk(hs', k, cs'[k]);
    assert cs'[id] == c';
  }

  /** No two live objects overlap, whatever caches they come from. */
  lemma LiveApart(cs: map<Id, Cache>, hs: map<Addr, Header>, x: Addr, y: Addr)
    requires forall id :: id in cs ==> CacheOk(hs, id, cs[id])
    requires LiveIn(cs, hs, x) && LiveIn(cs, hs, y) && x < y
    ensures x + cs[hs[Base(x)].cache].objsize <= y
  {
    var h, g := Base(x), Base(y);
    var sz := cs[hs[h].cache].objsize;
    if h == g {
      ObjectsApart(h, x, y, sz);
    } else {
      HeaderFound(h, x, sz);
      assert h / SIZE < g / SIZE;
    }
  }

  // ---------------------------------------------------------------- caches

  class Caches {
    var caches: map<Id, Cache>
    var headers: map<Addr, Header>

    ghost predicate Valid()
      reads this
    {
      forall id :: id in caches ==> CacheOk(headers, id, caches[id])
    }

    ghost predicate Live(x: Addr)
      reads this
    {
      LiveIn(caches, headers, x)
    }

    constructor ()
      ensures Valid() && caches == map[] && headers == map[]
    {
      caches, headers := map[], map[];
    }

    /** A new cache.  It is in order exactly if an object fits a slab. */
    method Register(id: Id, size: nat, cachealign: bool)
      requires Valid() && id !in caches && size < 0x1_0000_0000
      modifies this
      ensures Valid() <==> 0 < size <= SIZE - HDR
      ensures headers == old(headers) && id in caches && caches == old(caches)[id := caches[id]]
      ensures Valid() ==> size <= caches[id].objsize < size + 64
      ensures if cachealign then caches[id].objsize % 64 == 0 else caches[id].objsize == size
      ensures !exists h :: OnQueue(caches[id], h)
      ensures forall x :: Live(x) <==> old(Live(x))
    {
      hide Objs, Lines;
      var objsize := if cachealign then Lines(size) else size;
      Room(size);
      caches := caches[id := Cache(objsize, [], [], [], 0, 0, 0)];
      assert CacheOk(headers, id, caches[id]) <==> 0 < size <= SIZE - HDR;
    }

    /** Carve a slab into objects, all of them free. */
    method Carve(p: Addr, sz: nat) returns (q: seq<Addr>)
      requires sz > 0
      ensures Distinct(q) && |q| == Objs(sz) && forall x :: x in q <==> IsObj(p, x, sz)
      ensures forall x :: x in q <==> exists i: nat :: x == p + 64 + i * sz && x + sz <= p + 16384
    {
      forall x: Addr ensures IsObj(p, x, sz) <==> exists i: nat :: x == p + 64 + i * sz && x + sz <= p + 16384 {
        ObjIs(p, x, sz);
      }
      q := [];
      var ptr, i := p + HDR, 0;
      while i < Objs(sz)
        invariant 0 <= i <= Objs(sz) && ptr == Obj(p, i, sz) && |q| == i && Distinct(q)
        invariant forall x: Addr :: x in q <==> Among(p, x, sz, i)
      {
        NextObj(p, i, sz);
        DistinctCons(ptr, q);
        q := [ptr] + q;
        ptr := ptr + sz;
        i := i + 1;
      }
    }

    /** Add a slab.  The page comes from the page allocator, which gives aligned memory in no one's
        hands; without one the kernel panics and nothing has changed. */
    method Grow(id: Id, page: Option<Addr>) returns (ok: bool)
      requires Valid() && id in caches
      requires page.Some? ==> page.value % SIZE == 0 && !Kept(caches, headers, page.value)
      modifies this
      ensures Valid() && ok == page.Some?
      ensures !ok ==> caches == old(caches) && headers == old(headers)
      ensures ok ==> var c := old(caches)[id];
                     && caches == old(caches)[id := c.(emptyq := [page.value] + c.emptyq, emptycnt := c.emptycnt + 1)]
                     && page.value in headers && headers == old(headers)[page.value := headers[page.value]]
                     && headers[page.value].cache == id
      ensures forall x :: Live(x) <==> old(Live(x))
      ensures forall h: Addr :: Kept(caches, headers, h) <==> old(Kept(caches, headers, h)) || page == Some(h)
    {
      if page.None? { return false; }
      var p, c := page.value, caches[id];
      var q := Carve(p, c.objsize);
      var hd := Header(id, Objs(c.objsize), q);
      forall k | k in caches ensures CacheOk(headers[p := hd], k, caches[k]) {
        OthersOk(headers, k, caches[k], p, hd);
      }
      headers := headers[p := hd];
      QueuePush(headers, id, c.objsize, c.emptyq, Empty, p);
      caches := caches[id := c.(emptyq := [p] + c.emptyq, emptycnt := c.emptycnt + 1)];
      return true;
    }

    /** Choose a slab with a free object, and queue it as it will be without that object. */
    method Pick(id: Id) returns (sh: Option<Addr>)
      requires Valid() && id in caches
      modifies this
      ensures headers == old(headers)
      ensures var c := old(caches)[id];
              if c.freeq != [] then
                var h := c.freeq[0];
                && sh == Some(h) && h in headers
                && caches == old(caches)[id := Moved(c, h, Partial, if headers[h].freecnt == 1 then Full else Partial)]
              else if c.emptyq != [] then
                sh == Some(c.emptyq[0]) && caches == old(caches)[id := Moved(c, c.emptyq[0], Empty, Partial)]
              else sh == None && caches == old(caches)
    {
      var c := caches[id];
      sh := None;
      if c.freeq != [] {
        sh := Some(c.freeq[0]);
        OneQueue(headers, id, c, c.freeq[0], Partial);
        if headers[sh.value].freecnt == 1 {
          caches := caches[id := Push(Drop(c, sh.value, Partial), sh.value, Full)];
        }
      }
      if sh == None && c.emptyq != [] {
        sh := Some(c.emptyq[0]);
        caches := caches[id := Push(Drop(c, sh.value, Empty), sh.value, Partial)];
      }
      assert caches == old(caches)[id := caches[id]];
    }

    /** Hand out an object of a slab at hand. */
    method Serve(id: Id) returns (r: Option<Addr>)
      requires Valid() && id in caches
      modifies this
      ensures r.None? <==> old(caches)[id].freeq == [] && old(caches)[id].emptyq == []
      ensures r.None? ==> caches == old(caches) && headers == old(headers)
      ensures r.Some? ==> !old(Live(r.value)) && forall x :: Live(x) <==> old(Live(x)) || x == r.value
      ensures r.Some? ==> Base(r.value) in headers && headers[Base(r.value)].cache == id
      ensures id in caches && caches == old(caches)[id := caches[id]] && caches[id].objsize == old(caches)[id].objsize
      ensures forall h: Addr :: Kept(caches, headers, h) <==> old(Kept(caches, headers, h))
      ensures r.Some? ==> (Valid() <==> Objs(old(caches)[id].objsize) >= 2)
    {
      ghost var cs, c := caches, caches[id];
      var sh := Pick(id);
      if sh.None? { return None; }
      var h := sh.value;
      ghost var from := if c.freeq != [] then Partial else Empty;
      ghost var to := if c.freeq != [] && headers[h].freecnt == 1 then Full else Partial;
      OneQueue(headers, id, c, h, from);
      var oh, hd := headers[h].freeq[0], Header(headers[h].cache, headers[h].freecnt - 1, headers[h].freeq[1..]);
      TakenOut(cs, headers, id, h, from, to, hd);
      KindAfter(h, headers[h], c.objsize, from);
      hide CacheOk, Moved, LiveIn, Kept, KindOf, Objs;
      headers := headers[h := hd];
      return Some(oh);
    }

    /** Hand out an object: one that nobody has.  The caches stay in order exactly when a slab holds
        two objects or more. */
    method Alloc(id: Id, page: Option<Addr>) returns (r: Option<Addr>)
      requires Valid() && id in caches
      requires page.Some? ==> page.value % SIZE == 0 && !Kept(caches, headers, page.value)
      modifies this
      ensures r.None? <==> page.None? && old(caches)[id].freeq == [] && old(caches)[id].emptyq == []
      ensures r.None? ==> caches == old(caches) && headers == old(headers)
      ensures r.Some? ==> !old(Live(r.value)) && forall x :: Live(x) <==> old(Live(x)) || x == r.value
      ensures r.Some? ==> Base(r.value) in headers && headers[Base(r.value)].cache == id
      ensures id in caches && caches == old(caches)[id := caches[id]] && caches[id].objsize == old(caches)[id].objsize
      ensures forall h: Addr :: Kept(caches, headers, h) <==>
                          old(Kept(caches, headers, h)) ||
                          (page == Some(h) && old(caches)[id].freeq == [] && old(caches)[id].emptyq == [])
      ensures r.Some? ==> (Valid() <==> Objs(old(caches)[id].objsize) >= 2)
    {
      assert caches[id].objsize > 0 by { assert CacheOk(headers, id, caches[id]); }
      hide Kept, LiveIn, CacheOk, Objs;
      r := Serve(id);
      while r.None?
        invariant r.None? ==> caches == old(caches) && headers == old(headers) && caches[id].freeq == [] && caches[id].emptyq == []
        invariant r.Some? ==> (page.Some? || old(caches)[id].freeq != [] || old(caches)[id].emptyq != [])
        invariant r.Some? ==> !old(Live(r.value)) && forall x :: Live(x) <==> old(Live(x)) || x == r.value
        invariant r.Some? ==> Base(r.value) in headers && headers[Base(r.value)].cache == id
        invariant r.Some? ==> (Valid() <==> Objs(old(caches)[id].objsize) >= 2)
        invariant id in caches && caches == old(caches)[id := caches[id]] && caches[id].objsize == old(caches)[id].objsize
        invariant r.Some? ==> forall h: Addr :: Kept(caches, headers, h) <==>
                                          old(Kept(caches, headers, h)) ||
                                          (page == Some(h) && old(caches)[id].freeq == [] && old(caches)[id].emptyq == [])
        decreases r.None?
      {
        var ok := Grow(id, page);
        if !ok { return None; }
        r := Serve(id);
      }
    }

    /** Give an object back.  A pointer into memory without a slab header is ignored. */
    method Free(ptr: Addr)
      requires Valid() && (Live(ptr) || Base(ptr) !in headers)
      modifies this
      ensures forall x :: Live(x) <==> old(Live(x)) && x != ptr
      ensures forall h: Addr :: Kept(caches, headers, h) <==> old(Kept(caches, headers, h))
      ensures !old(Live(ptr)) ==> caches == old(caches) && headers == old(headers)
      ensures old(Live(ptr)) ==> (Valid() <==> Objs(old(caches[headers[Base(ptr)].cache].objsize)) >= 2)
    {
      var h := Base(ptr);
      if h !in headers { return; }
      var id := headers[h].cache;
      var c := caches[id];
      var max := Objs(c.objsize);
      ghost var from := if h in c.emptyq then Empty else if h in c.freeq then Partial else Full;
      OneQueue(headers, id, c, h, from);
      FreeBound(h, headers[h], c.objsize);
      DistinctCons(ptr, headers[h].freeq);
      var hd := Header(id, headers[h].freecnt + 1, [ptr] + headers[h].freeq);
      ghost var to := if hd.freecnt == 1 then Partial else if hd.freecnt == max then Empty else Partial;
      MovedOk(headers, id, c, h, from, to, hd);
      ghost var c' := Moved(c, h, from, to);
      Relinked(caches, headers, id, h, c', hd);
      OthersKeep(caches, headers, id, h, hd);
      headers := headers[h := hd];
      if hd.freecnt == 1 {
        c := Push(Drop(c, h, Full), h, Partial);
      } else if hd.freecnt == max {
        c := Push(Drop(c, h, Partial), h, Empty);
      }
      caches := caches[id := c];
    }

    /** Return the slabs nobody has an object of. */
    method Shrink(id: Id) returns (shrunk: nat, freed: seq<Addr>)
      requires Valid() && id in caches
      modifies this
      ensures Valid() && headers == old(headers)
      ensures shrunk == |freed| && freed == old(caches)[id].emptyq
      ensures caches == old(caches)[id := old(caches)[id].(emptyq := [], emptycnt := 0)]
      ensures forall x :: Live(x) <==> old(Live(x))
      ensures forall h :: h in freed ==> !Kept(caches, headers, h) && forall x :: Base(x) == h ==> !old(Live(x))
    {
      shrunk, freed := 0, [];
      var c := caches[id];
      while c.emptyq != []
        invariant shrunk == |freed| && freed + c.emptyq == old(caches)[id].emptyq
        invariant c == old(caches)[id].(emptyq := c.emptyq, emptycnt := |c.emptyq|)
        decreases |c.emptyq|
      {
        freed := freed + [c.emptyq[0]];
        c := c.(emptyq := c.emptyq[1..], emptycnt := c.emptycnt - 1);
        shrunk := shrunk + 1;
      }
      AllUnused(caches, headers, id);
      caches := caches[id := c];
    }
  }

  lemma OthersKeep(cs: map<Id, Cache>, hs: map<Addr, Header>, id: Id, h: Addr, hd: Header)
    requires forall k :: k in cs ==> CacheOk(hs, k, cs[k])
    requires h in hs && hs[h].cache == id
    ensures forall k :: k in cs && k != id ==> CacheOk(hs[h := hd], k, cs[k])
  {
  }

  /** No object of a slab on the empty queue is live. */
  lemma AllUnused(cs: map<Id, Cache>, hs: map<Addr, Header>, id: Id)
    requires id in cs && CacheOk(hs, id, cs[id])
    ensures forall x: Addr :: Base(x) in cs[id].emptyq ==> !LiveIn(cs, hs, x)
  {
    forall x: Addr | Base(x) in cs[id].emptyq ensures !LiveIn(cs, hs, x) {
      FreeBound(Base(x), hs[Base(x)], cs[id].objsize);
    }
  }
}
