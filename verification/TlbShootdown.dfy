/** TLB shootdown between processors: any number of initiators posting requests, counting them,
    sending non-maskable interrupts and spinning on one global counter, interleaved in any order
    with the interrupt handlers, with processors caching translations and with changes of the page
    tables.  Each atomic instruction is one action.  A sent interrupt is delivered exactly once and
    nothing else raises one. */
module TlbShootdown {

  type CpuId = nat
  datatype Flag = Normal | Global
  /** A request word: the set of its flags. */
  type Word = set<Flag>

  /** A translation a processor may cache; no translation returns to the page tables once it is gone, as a
      new mapping is another translation. */
  datatype Trans = Trans(id: nat, global: bool)

  const MASK_BITS: nat := 64

  /** Where a processor stands in a flush request: scanning mask bit i; having posted to processor
      i; having counted that request; about to flush its own translations; spinning. */
  datatype Initiator =
    | Idle
    | Scan(m: set<CpuId>, f: Word, i: nat)
    | Posted(m: set<CpuId>, f: Word, i: nat)
    | Counted(m: set<CpuId>, f: Word, i: nat)
    | Own(m: set<CpuId>, f: Word)
    | Wait(m: set<CpuId>, f: Word)

  /** Where a processor stands in the interrupt handler. */
  datatype Handler = Off | Entered | Holding(w: Word) | Flushed

  datatype Cpu = Cpu(tlbop: Word, pending: nat, init: Initiator, hand: Handler, tlb: set<Trans>)
  /** The processors, which of them are active, the counter, and the translations gone from the tables. */
  datatype State = State(cpus: seq<Cpu>, active: set<CpuId>, cnt: int, gone: set<Trans>)

  datatype Action =
    | Call(c: CpuId, mask: set<CpuId>, f: Word)
    | Skip(c: CpuId)
    | Post(c: CpuId, j: CpuId)
    | Count(c: CpuId)
    | Send(c: CpuId, j: CpuId)
    | FlushOwn(c: CpuId)
    | Spin(c: CpuId)
    | Leave(c: CpuId)
    | Deliver(c: CpuId)
    | Fetch(c: CpuId, w: Word)
    | Flush(c: CpuId, w: Word)
    | Drop(c: CpuId)
    | Load(c: CpuId, t: Trans)
    | Change(c: CpuId, t: Trans)

  /** Reloading CR3 drops all translations but the global ones; clearing CR4.PGE drops all. */
  function FlushLocal(tlb: set<Trans>): set<Trans> { set t | t in tlb && t.global }
  function FlushGlobal(tlb: set<Trans>): set<Trans> { {} }

  /** What the handler and the initiator do for a word. */
  function AfterFlush(tlb: set<Trans>, w: Word): set<Trans> {
    if Global in w then FlushGlobal(tlb) else if Normal in w then FlushLocal(tlb) else tlb
  }

  /** Processor i is to be asked: its bit is set, it is not the asking one, and it exists. */
  predicate Target(s: State, c: CpuId, m: set<CpuId>, i: nat) { i in m && i != c && i < |s.cpus| }

  /** What processor c itself must be doing for action x. */
  predicate Ripe(k: Cpu, x: Action) {
    match x
    case Deliver(_) => k.pending > 0 && k.hand.Off?
    case Fetch(_, w) => k.hand.Entered? && w == k.tlbop
    case Flush(_, w) => k.hand == Holding(w)
    case Drop(_) => k.hand.Flushed?
    // While its handler runs, a processor does nothing else.
    case Call(_, _, _) => k.hand.Off? && k.init.Idle?
    case Skip(_) => k.hand.Off? && k.init.Scan?
    case Post(_, j) => k.hand.Off? && k.init.Scan? && j == k.init.i
    case Count(_) => k.hand.Off? && k.init.Posted?
    case Send(_, j) => k.hand.Off? && k.init.Counted? && j == k.init.i
    case FlushOwn(_) => k.hand.Off? && k.init.Own?
    case Spin(_) => k.hand.Off? && k.init.Wait?
    case Leave(_) => k.hand.Off? && k.init.Wait?
    // Translations are cached, and the tables changed, at any time.
    case Load(_, _) => true
    case Change(_, _) => true
  }

  predicate Enabled(s: State, x: Action) {
    && x.c < |s.cpus|
    && Ripe(s.cpus[x.c], x)
    && var k := s.cpus[x.c].init;
       match x
       case Call(_, mask, _) => forall i :: i in mask ==> i < MASK_BITS
       case Skip(c) => k.i >= MASK_BITS || !Target(s, c, k.m, k.i)
       case Post(c, j) => j < MASK_BITS && Target(s, c, k.m, j)
       case Send(c, j) => j < |s.cpus|
       case Spin(_) => s.cnt != 0
       case Leave(_) => s.cnt == 0
       case Load(_, t) => t !in s.gone
       case _ => true
  }

  /** What action x does to the record of the processor that takes it. */
  function Mine(k: Cpu, x: Action, active: set<CpuId>): Cpu
    requires Ripe(k, x)
  {
    match x
    case Call(_, mask, f) => k.(init := Scan(mask * active, f, 0))
    case Skip(_) =>
      k.(init := if k.init.i >= MASK_BITS then Own(k.init.m, k.init.f) else Scan(k.init.m, k.init.f, k.init.i + 1))
    case Post(_, j) => k.(init := Posted(k.init.m, k.init.f, j))
    case Count(_) => k.(init := Counted(k.init.m, k.init.f, k.init.i))
    case Send(_, j) => k.(init := Scan(k.init.m, k.init.f, j + 1))
    case FlushOwn(_) => k.(init := Wait(k.init.m, k.init.f), tlb := AfterFlush(k.tlb, k.init.f))
    case Spin(_) => k
    case Leave(_) => k.(init := Idle)
    case Deliver(_) => k.(pending := k.pending - 1, hand := Entered)
    case Fetch(_, w) => k.(tlbop := {}, hand := Holding(w))
    case Flush(_, w) => k.(hand := Flushed, tlb := AfterFlush(k.tlb, w))
    case Drop(_) => k.(hand := Off)
    case Load(_, t) => k.(tlb := k.tlb + {t})
    case Change(_, _) => k
  }

  /** What action x does to another processor's record. */
  function Theirs(k: Cpu, x: Action, f: Word): Cpu {
    match x
    case Post(_, _) => k.(tlbop := k.tlbop + f)
    case Send(_, _) => k.(pending := k.pending + 1)
    case _ => k
  }

  function Delta(x: Action): int { if x.Count? then 1 else if x.Drop? then -1 else 0 }

  function Do(s: State, x: Action): State
    requires Enabled(s, x)
  {
    var k := s.cpus[x.c];
    var ks := s.cpus[x.c := Mine(k, x, s.active)];
    State(if x.Post? || x.Send? then ks[x.j := Theirs(ks[x.j], x, k.init.f)] else ks, s.active, s.cnt + Delta(x),
          if x.Change? then s.gone + {x.t} else s.gone)
  }

  /** Nothing but its own business keeps a processor from asking for a shootdown, and nothing at all the
      translations and the tables from changing. */
  lemma Free(s: State, c: CpuId, mask: set<CpuId>, f: Word, t: Trans)
    requires c < |s.cpus|
    ensures Enabled(s, Call(c, mask, f)) <==> s.cpus[c].hand == Off && s.cpus[c].init == Idle && forall i :: i in mask ==> i < 64
    ensures Enabled(s, Change(c, t)) && (Enabled(s, Load(c, t)) <==> t !in s.gone)
  {
  }

  // ---------------------------------------------------------------- runs

  /** At the start no request is under way; any translations may be cached, and words left over. */
  predicate Quiet(k: Cpu) { k.pending == 0 && k.init.Idle? && k.hand.Off? }

  ghost predicate Initial(s: State) {
    s.cnt == 0 && forall c :: 0 <= c < |s.cpus| ==> Quiet(s.cpus[c])
  }

  ghost predicate IsRun(s0: State, h: seq<Action>)
    decreases |h|, 0
  {
    Initial(s0) &&
    (h == [] || (IsRun(s0, h[..|h| - 1]) && Enabled(After(s0, h[..|h| - 1]), h[|h| - 1])))
  }

  ghost function After(s0: State, h: seq<Action>): State
    requires IsRun(s0, h)
    decreases |h|, 1
  {
    if h == [] then s0 else Do(After(s0, h[..|h| - 1]), h[|h| - 1])
  }

  /** The index of c's last call, of its last post to j, of j's last fetch; -1 if there is none. */
  ghost function LastCall(h: seq<Action>, c: CpuId): (i: int)
    ensures -1 <= i < |h| && (i >= 0 ==> h[i].Call? && h[i].c == c)
    ensures forall k :: i < k < |h| ==> !(h[k].Call? && h[k].c == c)
  {
    if h == [] then -1
    else if h[|h| - 1].Call? && h[|h| - 1].c == c then |h| - 1
    else LastCall(h[..|h| - 1], c)
  }

  ghost function LastPost(h: seq<Action>, c: CpuId, j: CpuId): (i: int)
    ensures -1 <= i < |h| && (i >= 0 ==> h[i] == Post(c, j))
  {
    if h == [] then -1
    else if h[|h| - 1] == Post(c, j) then |h| - 1
    else LastPost(h[..|h| - 1], c, j)
  }

  ghost function LastFetch(h: seq<Action>, j: CpuId): (i: int)
    ensures -1 <= i < |h| && (i >= 0 ==> h[i].Fetch? && h[i].c == j)
    ensures forall k :: i < k < |h| ==> !(h[k].Fetch? && h[k].c == j)
  {
    if h == [] then -1
    else if h[|h| - 1].Fetch? && h[|h| - 1].c == j then |h| - 1
    else LastFetch(h[..|h| - 1], j)
  }

  /** Processor j's handler took a word at a and finished flushing for that same word at b. */
  ghost predicate FlushPair(h: seq<Action>, a: nat, b: nat, j: CpuId, w: Word) {
    && a < b < |h|
    && h[a] == Fetch(j, w) && h[b] == Flush(j, w)
    && forall k :: a < k < b ==> !(h[k].Fetch? && h[k].c == j)
  }

  /** After p, processor j took a word holding at least the flags f and finished flushing for it. */
  ghost predicate Served(h: seq<Action>, p: int, j: CpuId, f: Word) {
    exists a: nat, b: nat, w :: FlushPair(h, a, b, j, w) && p < a && f <= w
  }

  // ---------------------------------------------------------------- the counter

  /** What one processor's state adds to the counter: a request counted but not sent, interrupts
      not delivered, and a handler that has not finished. */
  function Weight(k: Cpu): nat {
    (if k.init.Counted? then 1 else 0) + k.pending + (if k.hand.Off? then 0 else 1)
  }

  function Total(ks: seq<Cpu>): nat {
    if ks == [] then 0 else Weight(ks[0]) + Total(ks[1..])
  }

  lemma {:induction false} TotalSet(ks: seq<Cpu>, c: nat, k: Cpu)
    requires c < |ks|
    ensures Total(ks[c := k]) == Total(ks) - Weight(ks[c]) + Weight(k)
  {
    if c == 0 {
      assert ks[0 := k][1..] == ks[1..];
    } else {
      assert ks[c := k][1..] == ks[1..][c - 1 := k];
      TotalSet(ks[1..], c - 1, k);
    }
  }

  lemma {:induction false} TotalAtLeast(ks: seq<Cpu>, c: nat)
    requires c < |ks|
    ensures Weight(ks[c]) <= Total(ks)
  {
    if c > 0 { TotalAtLeast(ks[1..], c - 1); }
  }

  ghost predicate CountInv(s: State) { s.cnt == Total(s.cpus) }

  /** Posting and sending only ever reach existing processors, other than the asking one. */
  ghost predicate InRange(s: State) {
    forall c :: 0 <= c < |s.cpus| && (s.cpus[c].init.Posted? || s.cpus[c].init.Counted?) ==>
      s.cpus[c].init.i < |s.cpus| && s.cpus[c].init.i != c && s.cpus[c].init.i in s.cpus[c].init.m
  }

  /** The counter is exact: requests counted but not yet sent, plus interrupts pending, plus
      handlers not yet finished. */
  lemma CountStep(s: State, x: Action)
    requires CountInv(s) && InRange(s) && Enabled(s, x)
    ensures CountInv(Do(s, x))
  {
    var k := s.cpus[x.c];
    var k1 := Mine(k, x, s.active);
    var ks := s.cpus[x.c := k1];
    TotalSet(s.cpus, x.c, k1);
    if x.Post? || x.Send? {
      TotalSet(ks, x.j, Theirs(ks[x.j], x, k.init.f));
    }
  }

  lemma RangeStep(s: State, x: Action)
    requires InRange(s) && Enabled(s, x)
    ensures InRange(Do(s, x))
  {
    hide Total;
    var s' := Do(s, x);
    forall c | 0 <= c < |s'.cpus| ensures s'.cpus[c].init == (if c == x.c then Mine(s.cpus[c], x, s.active) else s.cpus[c]).init {
    }
  }

  // ---------------------------------------------------------------- safety

  /** In its current call, c has posted to j. */
  ghost predicate Asked(s: State, c: CpuId, j: CpuId) {
    c < |s.cpus| && j < |s.cpus| && j != c &&
    match s.cpus[c].init
    case Idle => false
    case Scan(m, _, i) => j in m && j < i
    case Posted(m, _, i) => j in m && j <= i
    case Counted(m, _, i) => j in m && j <= i
    case Own(m, _) => j in m
    case Wait(m, _) => j in m
  }

  /** Some handler on j is still going to take j's word: it has just been entered, or its
      interrupt is pending, or c has yet to send it. */
  ghost predicate Coming(s: State, c: CpuId, j: CpuId)
    requires c < |s.cpus| && j < |s.cpus|
  {
    var k := s.cpus[c].init;
    s.cpus[j].pending > 0 || s.cpus[j].hand.Entered? || ((k.Posted? || k.Counted?) && k.i == j)
  }

  /** Where a posted request stands: still in the word with a handler to come; taken by a handler
      that is about to flush; or served. */
  ghost predicate Standing(h: seq<Action>, s: State, c: CpuId, j: CpuId, f: Word)
    requires c < |s.cpus| && j < |s.cpus|
  {
    var k, p := s.cpus[j], LastPost(h, c, j);
    || (f <= k.tlbop && Coming(s, c, j))
    || (k.hand.Holding? && f <= k.hand.w && p < LastFetch(h, j))
    || Served(h, p, j, f)
  }

  ghost predicate RequestInv(h: seq<Action>, s: State, c: CpuId, j: CpuId) {
    Asked(s, c, j) ==> LastCall(h, c) < LastPost(h, c, j) && Standing(h, s, c, j, s.cpus[c].init.f)
  }

  ghost predicate CallInv(h: seq<Action>, s: State, c: CpuId)
    requires c < |s.cpus|
  {
    var k, q := s.cpus[c].init, LastCall(h, c);
    !k.Idle? ==> q >= 0 && h[q].f == k.f && h[q].mask * s.active == k.m && forall i :: i in k.m ==> i < MASK_BITS
  }

  ghost predicate HolderInv(h: seq<Action>, s: State, j: CpuId)
    requires j < |s.cpus|
  {
    s.cpus[j].hand.Holding? ==> LastFetch(h, j) >= 0 && h[LastFetch(h, j)] == Fetch(j, s.cpus[j].hand.w)
  }

  ghost predicate Inv(h: seq<Action>, s: State) {
    && CountInv(s) && InRange(s)
    && (forall c :: 0 <= c < |s.cpus| ==> CallInv(h, s, c) && HolderInv(h, s, c))
    && (forall c, j :: 0 <= c < |s.cpus| && 0 <= j < |s.cpus| ==> RequestInv(h, s, c, j))
  }

  /** How one more action moves the three indices. */
  lemma LastStep(h: seq<Action>, x: Action, c: CpuId, j: CpuId)
    ensures LastCall(h + [x], c) == if x.Call? && x.c == c then |h| else LastCall(h, c)
    ensures LastPost(h + [x], c, j) == if x == Post(c, j) then |h| else LastPost(h, c, j)
    ensures LastFetch(h + [x], j) == if x.Fetch? && x.c == j then |h| else LastFetch(h, j)
  {
  }

  lemma ServedStays(h: seq<Action>, x: Action, p: int, j: CpuId, f: Word)
    requires Served(h, p, j, f)
    ensures Served(h + [x], p, j, f)
  {
    var a: nat, b: nat, w :| FlushPair(h, a, b, j, w) && p < a && f <= w;
    assert FlushPair(h + [x], a, b, j, w);
  }

  lemma FlushServes(h: seq<Action>, j: CpuId, w: Word, p: int, f: Word)
    requires LastFetch(h, j) >= 0 && h[LastFetch(h, j)] == Fetch(j, w) && p < LastFetch(h, j) && f <= w
    ensures Served(h + [Flush(j, w)], p, j, f)
  {
    assert FlushPair(h + [Flush(j, w)], LastFetch(h, j), |h|, j, w);
  }

  /** Action by action, what happens to processor d. */
  lemma Moves(s: State, x: Action, d: CpuId)
    requires Enabled(s, x) && d < |s.cpus|
    requires x.Post? || x.Send? ==> x.j != x.c
    ensures |Do(s, x).cpus| == |s.cpus| && Do(s, x).active == s.active
    ensures d == x.c ==> Do(s, x).cpus[d] == Mine(s.cpus[d], x, s.active)
    ensures d != x.c && (x.Post? || x.Send?) && d == x.j ==> Do(s, x).cpus[d] == Theirs(s.cpus[d], x, s.cpus[x.c].init.f)
    ensures d != x.c && !((x.Post? || x.Send?) && d == x.j) ==> Do(s, x).cpus[d] == s.cpus[d]
  {
  }

  lemma NotSelf(s: State, x: Action)
    requires Enabled(s, x) && InRange(s)
    ensures x.Post? || x.Send? ==> x.j != x.c
  {
  }

  lemma HolderFetched(h: seq<Action>, s: State, j: CpuId)
    requires j < |s.cpus| && HolderInv(h, s, j) && s.cpus[j].hand.Holding?
    ensures LastFetch(h, j) >= 0 && h[LastFetch(h, j)] == Fetch(j, s.cpus[j].hand.w)
  {
  }

  lemma CallStep(h: seq<Action>, s: State, x: Action, c: CpuId)
    requires Enabled(s, x) && InRange(s) && c < |s.cpus| && CallInv(h, s, c) && HolderInv(h, s, c)
    ensures var s' := Do(s, x); |s'.cpus| == |s.cpus| && CallInv(h + [x], s', c) && HolderInv(h + [x], s', c)
  {
    hide Do;
    NotSelf(s, x);
    Moves(s, x, c);
    LastStep(h, x, c, c);
  }

  /** A request newly posted starts in the word, with its own interrupt still to come. */
  lemma NewRequest(h: seq<Action>, s: State, x: Action, c: CpuId, j: CpuId)
    requires Enabled(s, x) && InRange(s) && c < |s.cpus| && j < |s.cpus| && CallInv(h, s, c)
    requires !Asked(s, c, j) && Asked(Do(s, x), c, j)
    ensures x == Post(c, j) && RequestInv(h + [x], Do(s, x), c, j)
  {
    hide Do;
    NotSelf(s, x);
    Moves(s, x, c);
    Moves(s, x, j);
    LastStep(h, x, c, j);
  }

  /** A request already posted moves from the word to a handler to served, and never back. */
  lemma OldRequest(h: seq<Action>, s: State, x: Action, c: CpuId, j: CpuId)
    requires Enabled(s, x) && InRange(s) && c < |s.cpus| && j < |s.cpus| && HolderInv(h, s, j)
    requires Asked(s, c, j) && Asked(Do(s, x), c, j) && RequestInv(h, s, c, j)
    ensures RequestInv(h + [x], Do(s, x), c, j)
  {
    hide Do, Served, InRange, HolderInv, LastCall, LastPost, LastFetch;
    NotSelf(s, x);
    Moves(s, x, c);
    Moves(s, x, j);
    LastStep(h, x, c, j);
    var p, f := LastPost(h, c, j), s.cpus[c].init.f;
    assert x != Post(c, j) && !(x.Call? && x.c == c);
    assert Do(s, x).cpus[c].init.f == f;
    if Served(h, p, j, f) {
      ServedStays(h, x, p, j, f);
    } else if s.cpus[j].hand.Holding? && f <= s.cpus[j].hand.w && p < LastFetch(h, j) {
      if x.c == j && x.Flush? {
        HolderFetched(h, s, j);
        FlushServes(h, j, x.w, p, f);
      }
    }
  }

  lemma InvStep(h: seq<Action>, s: State, x: Action)
    requires Inv(h, s) && Enabled(s, x)
    ensures Inv(h + [x], Do(s, x))
  {
    hide Do, CallInv, HolderInv, RequestInv, CountInv, InRange;
    var s' := Do(s, x);
    CountStep(s, x);
    RangeStep(s, x);
    NotSelf(s, x);
    Moves(s, x, x.c);
    forall c | 0 <= c < |s'.cpus| ensures CallInv(h + [x], s', c) && HolderInv(h + [x], s', c) {
      CallStep(h, s, x, c);
    }
    forall c, j | 0 <= c < |s'.cpus| && 0 <= j < |s'.cpus| ensures RequestInv(h + [x], s', c, j) {
      RequestStep(h, s, x, c, j);
    }
  }

  lemma RequestStep(h: seq<Action>, s: State, x: Action, c: CpuId, j: CpuId)
    requires Enabled(s, x) && InRange(s) && c < |s.cpus| && j < |s.cpus|
    requires CallInv(h, s, c) && HolderInv(h, s, j) && RequestInv(h, s, c, j)
    ensures RequestInv(h + [x], Do(s, x), c, j)
  {
    if Asked(Do(s, x), c, j) {
      if Asked(s, c, j) {
        OldRequest(h, s, x, c, j);
      } else {
        NewRequest(h, s, x, c, j);
      }
    }
  }

  lemma {:induction false} InvHolds(s0: State, h: seq<Action>)
    requires IsRun(s0, h)
    ensures Inv(h, After(s0, h))
  {
    if h == [] {
      TotalZero(s0.cpus);
    } else {
      var h0, x := h[..|h| - 1], h[|h| - 1];
      assert h == h0 + [x];
      InvHolds(s0, h0);
      InvStep(h0, After(s0, h0), x);
    }
  }

  lemma {:induction false} TotalZero(ks: seq<Cpu>)
    requires forall c :: 0 <= c < |ks| ==> Quiet(ks[c])
    ensures Total(ks) == 0
  {
    if ks != [] { TotalZero(ks[1..]); }
  }

  /** With the counter at zero no handler is to come and none holds a word, so a request of a
      waiting initiator has been served. */
  lemma ZeroMeansServed(h: seq<Action>, s: State, c: CpuId, j: CpuId)
    requires CountInv(s) && s.cnt == 0 && c < |s.cpus| && j < |s.cpus|
    requires s.cpus[c].init.Wait? && Asked(s, c, j) && RequestInv(h, s, c, j)
    ensures LastCall(h, c) < LastPost(h, c, j) && Served(h, LastPost(h, c, j), j, s.cpus[c].init.f)
  {
    TotalAtLeast(s.cpus, j);
  }

  /** In its call made at q, c posted to j, and j has since taken a word holding the request and
      finished flushing for it. */
  ghost predicate PostedAndServed(h: seq<Action>, q: int, c: CpuId, j: CpuId, f: Word) {
    exists p: nat :: q < p < |h| && h[p] == Post(c, j) && Served(h, p, j, f)
  }

  /** Shootdown safety.  When an initiator leaves its wait, every other processor that is active,
      in the mask of its call, and exists, was posted to in that call and has since taken a word
      holding the request and finished flushing for it. */
  lemma ShootdownSafe(s0: State, h: seq<Action>, c: CpuId)
    requires IsRun(s0, h + [Leave(c)])
    ensures var q := LastCall(h, c);
            && q >= 0 && h[q].Call? && h[q].c == c
            && forall j :: j in h[q].mask * s0.active && j != c && j < |s0.cpus| ==> PostedAndServed(h, q, c, j, h[q].f)
  {
    assert (h + [Leave(c)])[..|h|] == h;
    ActiveFixed(s0, h);
    WaitingCall(s0, h, c);
    var q := LastCall(h, c);
    forall j | j in h[q].mask * s0.active && j != c && j < |s0.cpus| ensures PostedAndServed(h, q, c, j, h[q].f) {
      LeavingIsServed(s0, h, c, j);
    }
  }

  lemma WaitingCall(s0: State, h: seq<Action>, c: CpuId)
    requires IsRun(s0, h) && c < |After(s0, h).cpus| && After(s0, h).cpus[c].init.Wait?
    ensures var q, k := LastCall(h, c), After(s0, h).cpus[c].init;
            q >= 0 && h[q].f == k.f && h[q].mask * After(s0, h).active == k.m
  {
    InvHolds(s0, h);
    assert CallInv(h, After(s0, h), c);
  }

  lemma LeavingIsServed(s0: State, h: seq<Action>, c: CpuId, j: CpuId)
    requires IsRun(s0, h) && Asked(After(s0, h), c, j)
    requires After(s0, h).cnt == 0 && After(s0, h).cpus[c].init.Wait?
    ensures PostedAndServed(h, LastCall(h, c), c, j, After(s0, h).cpus[c].init.f)
  {
    InvHolds(s0, h);
    assert RequestInv(h, After(s0, h), c, j);
    ZeroMeansServed(h, After(s0, h), c, j);
    assert h[LastPost(h, c, j)] == Post(c, j);
  }

  lemma {:induction false} ActiveFixed(s0: State, h: seq<Action>)
    requires IsRun(s0, h)
    ensures |After(s0, h).cpus| == |s0.cpus| && After(s0, h).active == s0.active
  {
    if h != [] { ActiveFixed(s0, h[..|h| - 1]); }
  }

  // ---------------------------------------------------------------- stale translations

  /** A request asks for a translation to be dropped: any if it is global, one that is not global if it is
      not. */
  predicate Covers(f: Word, t: Trans) { Global in f || (Normal in f && !t.global) }

  /** What a flush leaves is exactly what the word does not cover; and a word holding a request covers what
      the request does. */
  lemma FlushedIs(tlb: set<Trans>, f: Word, w: Word, t: Trans)
    ensures t in AfterFlush(tlb, w) <==> t in tlb && !(Global in w) && !(Normal in w && !t.global)
    ensures f <= w && Covers(f, t) ==> t !in AfterFlush(tlb, w)
  {
  }

  /** Taking a word that holds the request drops at least as much as was asked. */
  lemma StrongEnough(tlb: set<Trans>, f: Word, w: Word)
    requires f <= w
    ensures AfterFlush(tlb, w) <= AfterFlush(tlb, f)
  {
  }

  ghost predicate Clean(k: Cpu, was: set<Trans>, f: Word) { forall t :: t in was && Covers(f, t) ==> t !in k.tlb }

  ghost function GoneAt(s0: State, h: seq<Action>, i: nat): set<Trans>
    requires IsRun(s0, h) && i <= |h|
  {
    PrefixRuns(s0, h, i);
    After(s0, h[..i]).gone
  }

  lemma {:induction false} PrefixRuns(s0: State, h: seq<Action>, i: nat)
    requires IsRun(s0, h) && i <= |h|
    ensures IsRun(s0, h[..i])
    decreases |h|
  {
    if i == |h| {
      assert h[..i] == h;
    } else {
      PrefixRuns(s0, h[..|h| - 1], i);
      assert h[..|h| - 1][..i] == h[..i];
    }
  }

  /** What is gone stays gone. */
  lemma {:induction false} GoneGrows(s0: State, h: seq<Action>, i: nat)
    requires IsRun(s0, h) && i <= |h|
    ensures GoneAt(s0, h, i) <= After(s0, h).gone
    decreases |h|
  {
    if i == |h| {
      assert h[..i] == h;
    } else {
      var h0 := h[..|h| - 1];
      GoneGrows(s0, h0, i);
      assert h0[..i] == h[..i];
    }
  }

  lemma GoneBetween(s0: State, h: seq<Action>, i: nat, j: nat)
    requires IsRun(s0, h) && i <= j <= |h|
    ensures GoneAt(s0, h, i) <= GoneAt(s0, h, j)
  {
    PrefixRuns(s0, h, j);
    GoneGrows(s0, h[..j], i);
    assert h[..j][..i] == h[..i];
  }

  /** A processor clean of translations gone stays clean of them, whatever is done. */
  lemma CleanStays(s: State, x: Action, d: CpuId, was: set<Trans>, f: Word)
    requires Enabled(s, x) && InRange(s) && d < |s.cpus| && was <= s.gone
    requires Clean(s.cpus[d], was, f)
    ensures Clean(Do(s, x).cpus[d], was, f)
  {
    NotSelf(s, x);
    Moves(s, x, d);
    hide Do;
  }

  lemma FlushNow(s: State, j: CpuId, w: Word)
    requires Enabled(s, Flush(j, w)) && InRange(s)
    ensures |Do(s, Flush(j, w)).cpus| == |s.cpus| && Clean(Do(s, Flush(j, w)).cpus[j], s.gone, w)
  {
  }

  /** After a flush at b, the processor holds nothing the word covers that was gone then. */
  lemma {:induction false} FlushCleans(s0: State, h: seq<Action>, b: nat, j: CpuId, w: Word)
    requires IsRun(s0, h) && b < |h| && h[b] == Flush(j, w)
    ensures j < |After(s0, h).cpus| && Clean(After(s0, h).cpus[j], GoneAt(s0, h, b), w)
    decreases |h|
  {
    hide Do, Clean, CountInv, InRange, CallInv, HolderInv, RequestInv;
    var h0, x := h[..|h| - 1], h[|h| - 1];
    var s := After(s0, h0);
    assert h0[..b] == h[..b];
    InvHolds(s0, h0);
    if b == |h0| {
      assert h0[..b] == h0;
      FlushNow(s, j, w);
    } else {
      FlushCleans(s0, h0, b, j, w);
      GoneGrows(s0, h0, b);
      ActiveFixed(s0, h0);
      ActiveFixed(s0, h);
      CleanStays(s, x, j, GoneAt(s0, h0, b), w);
    }
  }

  /** An initiator that waits has flushed its own: it holds nothing its request covers that was gone at its
      call. */
  lemma {:induction false} OwnClean(s0: State, h: seq<Action>, c: CpuId)
    requires IsRun(s0, h) && c < |After(s0, h).cpus| && After(s0, h).cpus[c].init.Wait?
    ensures LastCall(h, c) >= 0
    ensures Clean(After(s0, h).cpus[c], GoneAt(s0, h, LastCall(h, c)), After(s0, h).cpus[c].init.f)
    decreases |h|
  {
    WaitingCall(s0, h, c);
    var h0, x := h[..|h| - 1], h[|h| - 1];
    var s := After(s0, h0);
    InvHolds(s0, h0);
    ActiveFixed(s0, h0);
    ActiveFixed(s0, h);
    NotSelf(s, x);
    Moves(s, x, c);
    assert h == h0 + [x];
    LastStep(h0, x, c, c);
    assert h0[..LastCall(h, c)] == h[..LastCall(h, c)];
    hide Do;
    if s.cpus[c].init.Wait? {
      OwnClean(s0, h0, c);
      GoneGrows(s0, h0, LastCall(h, c));
      CleanStays(s, x, c, GoneAt(s0, h0, LastCall(h, c)), s.cpus[c].init.f);
    } else {
      assert x == FlushOwn(c);
    }
  }

  lemma ServedIsClean(s0: State, h: seq<Action>, q: nat, c: CpuId, j: CpuId, f: Word)
    requires IsRun(s0, h) && q < |h| && j < |After(s0, h).cpus| && PostedAndServed(h, q, c, j, f)
    ensures Clean(After(s0, h).cpus[j], GoneAt(s0, h, q), f)
  {
    var p: nat :| q < p < |h| && h[p] == Post(c, j) && Served(h, p, j, f);
    var a: nat, b: nat, w :| FlushPair(h, a, b, j, w) && p < a && f <= w;
    FlushCleans(s0, h, b, j, w);
    GoneBetween(s0, h, q, b);
  }

  /** Shootdown, for what it is for.  When an initiator leaves, neither it nor any processor that is active
      and in the mask of its call caches a translation that was gone from the tables at the call and that
      the request asks to be dropped: any, if it is global; one that is not global, otherwise. */
  lemma NothingStale(s0: State, h: seq<Action>, c: CpuId)
    requires IsRun(s0, h + [Leave(c)])
    ensures IsRun(s0, h) && LastCall(h, c) >= 0 && h[LastCall(h, c)].Call?
    ensures var q, s := LastCall(h, c), After(s0, h + [Leave(c)]);
            forall j, t :: (j == c || (j in h[q].mask && j in s0.active)) && j < |s.cpus| && t in GoneAt(s0, h, q) ==>
              (Global in h[q].f || (Normal in h[q].f && !t.global)) ==> t !in s.cpus[j].tlb
  {
    ShootdownSafe(s0, h, c);
    var q, s := LastCall(h, c), After(s0, h + [Leave(c)]);
    assert (h + [Leave(c)])[..|h|] == h;
    var s1 := After(s0, h);
    ActiveFixed(s0, h);
    WaitingCall(s0, h, c);
    OwnClean(s0, h, c);
    forall j | (j == c || (j in h[q].mask && j in s0.active)) && j < |s.cpus| ensures Clean(s.cpus[j], GoneAt(s0, h, q), h[q].f) {
      if j != c { ServedIsClean(s0, h, q, c, j, h[q].f); }
      assert s.cpus[j].tlb == s1.cpus[j].tlb;
    }
  }
}
