/** Level-1 page-table entries: the bit format of PAE paging with 2 MB pages, and the decoded
    record the page-map model works on.  Every bit-mask macro is shown to be the matching record
    operation, for all 2^64 entry values. */
module Pae {

  const PG_P: bv64 := 1
  const PG_W: bv64 := 2
  const PG_U: bv64 := 4
  const PG_S: bv64 := 0x80
  const PG_AVAIL: bv64 := 0xe00
  const PG_AVAIL_NORMAL: bv64 := 0
  const PG_AVAIL_COW: bv64 := 0x200
  const PG_AVAIL_WIRED: bv64 := 0x400
  const PG_AVAIL_IOMAP: bv64 := 0x800

  type Pfn = nat

  /** What the three software bits of an entry say; the source only ever writes the first four. */
  datatype Kind = Normal | Cow | Wired | Iomap | Mixed

  datatype L1e = L1e(pfn: Pfn, kind: Kind, present: bool, writable: bool, user: bool) {
    predicate IsNormal() { present && kind == Normal }
    predicate IsCow() { present && kind == Cow }
    predicate IsWired() { present && kind == Wired }
    predicate IsIomap() { present && kind == Iomap }
    predicate IsExternal() { IsWired() || IsIomap() }

    /** The entry holds a reference-counted user frame. */
    predicate MapsFrame() { present && kind != Iomap }

    function MkNormal(): L1e { this.(kind := Normal) }
    function MkCow(): L1e { this.(kind := Cow, writable := false) }
    function MkWired(): L1e { this.(kind := Wired) }
    function MkIomap(): L1e { this.(kind := Iomap) }
  }

  /** The protection argument of the page-map calls. */
  datatype Prot = Prot(present: bool, writable: bool, user: bool)

  const NO_PROT := Prot(false, false, false)

  function MkEntry(pfn: Pfn, prot: Prot): L1e {
    L1e(pfn, Normal, prot.present, prot.writable, prot.user)
  }

  const BLANK := L1e(0, Normal, false, false, false)

  // ---------------------------------------------------------------- the macros, on bits

  function L1ePfn(e: bv64): bv64 { e >> 21 }
  function BitsNormal(e: bv64): bool { e & (PG_AVAIL | PG_P) == PG_AVAIL_NORMAL | PG_P }
  function BitsWired(e: bv64): bool { e & (PG_AVAIL | PG_P) == PG_AVAIL_WIRED | PG_P }
  function BitsCow(e: bv64): bool { e & (PG_AVAIL | PG_P) == PG_AVAIL_COW | PG_P }
  function BitsIomap(e: bv64): bool { e & (PG_AVAIL | PG_P) == PG_AVAIL_IOMAP | PG_P }
  function BitsMkNormal(e: bv64): bv64 { e & !PG_AVAIL }
  function BitsMkCow(e: bv64): bv64 { (e & !(PG_AVAIL | PG_W)) | PG_AVAIL_COW }
  function BitsMkWired(e: bv64): bv64 { BitsMkNormal(e) | PG_AVAIL_WIRED }
  function BitsMkIomap(e: bv64): bv64 { BitsMkNormal(e) | PG_AVAIL_IOMAP }
  function TruncPage(a: bv64): bv64 { (a >> 21) << 21 }
  function MkL1e(addr: bv64, flags: bv64): bv64 { TruncPage(addr) | PG_S | flags }
  function Ptoa(pfn: bv32): bv64 { (pfn as bv64) << 21 }

  function KindOf(e: bv64): Kind {
    var a := e & PG_AVAIL;
    if a == PG_AVAIL_NORMAL then Normal
    else if a == PG_AVAIL_COW then Cow
    else if a == PG_AVAIL_WIRED then Wired
    else if a == PG_AVAIL_IOMAP then Iomap
    else Mixed
  }

  function Decode(e: bv64): L1e {
    L1e(L1ePfn(e) as nat, KindOf(e), e & PG_P != 0, e & PG_W != 0, e & PG_U != 0)
  }

  /** The five classifiers agree with the decoded record. */
  lemma ClassifiersDecode(e: bv64)
    ensures BitsNormal(e) <==> Decode(e).IsNormal()
    ensures BitsCow(e) <==> Decode(e).IsCow()
    ensures BitsWired(e) <==> Decode(e).IsWired()
    ensures BitsIomap(e) <==> Decode(e).IsIomap()
  {
  }

  lemma NormalKeepsPfn(e: bv64)
    ensures L1ePfn(BitsMkNormal(e)) == L1ePfn(e)
  {
  }

  lemma WiredKeepsPfn(e: bv64)
    ensures L1ePfn(BitsMkWired(e)) == L1ePfn(e)
  {
  }

  lemma IomapKeepsPfn(e: bv64)
    ensures L1ePfn(BitsMkIomap(e)) == L1ePfn(e)
  {
  }

  /** Turning an entry copy-on-write keeps its frame, presence and user bit and takes write away. */
  lemma MkCowDecode(e: bv64)
    ensures Decode(BitsMkCow(e)) == Decode(e).MkCow()
  {
  }

  /** The other three retyping macros change the software bits and nothing else. */
  lemma RetypeDecode(e: bv64)
    ensures Decode(BitsMkNormal(e)) == Decode(e).MkNormal()
    ensures Decode(BitsMkWired(e)) == Decode(e).MkWired()
    ensures Decode(BitsMkIomap(e)) == Decode(e).MkIomap()
  {
    NormalKeepsPfn(e);
    WiredKeepsPfn(e);
    IomapKeepsPfn(e);
  }

  /** Composing an entry from a frame number and a protection loses neither. */
  lemma EntryDecode(pfn: bv32, flags: bv64)
    requires flags & 0xffff_ffff_ffff_fff8 == 0
    ensures var e := Decode(BitsMkNormal(MkL1e(Ptoa(pfn), flags)));
            && e == L1e((pfn as bv64) as nat, Normal, flags & 1 != 0, flags & 2 != 0, flags & 4 != 0)
            && e == MkEntry((pfn as bv64) as nat, Prot(flags & PG_P != 0, flags & PG_W != 0, flags & PG_U != 0))
  {
  }

  /** The same for any address in the page: what lies below the page is cut off. */
  lemma AddressDecode(addr: bv64, flags: bv64)
    requires flags & 0xffff_ffff_ffff_fff8 == 0
    ensures var e := Decode(BitsMkNormal(MkL1e(addr, flags)));
            && L1ePfn(BitsMkNormal(MkL1e(addr, flags))) == addr >> 21
            && e.kind == Normal && e.present == (flags & 1 != 0) && e.writable == (flags & 2 != 0) && e.user == (flags & 4 != 0)
  {
  }

  /** The three stores of an entry update: low word cleared, high word, low word. */
  function Store0(was: bv64): bv64 { was & 0xffff_ffff_0000_0000 }
  function Store1(was: bv64, now: bv64): bv64 { (Store0(was) & 0xffff_ffff) | (now & 0xffff_ffff_0000_0000) }
  function Store2(was: bv64, now: bv64): bv64 { (Store1(was, now) & 0xffff_ffff_0000_0000) | (now & 0xffff_ffff) }

  /** A page walker that reads the entry between two stores sees it absent, never a mixture of
      the old frame and the new one; the last store leaves exactly the new entry. */
  lemma StoreNeverTears(was: bv64, now: bv64)
    ensures !Decode(Store0(was)).present
    ensures !Decode(Store1(was, now)).present
    ensures Store2(was, now) == now
  {
  }
}
