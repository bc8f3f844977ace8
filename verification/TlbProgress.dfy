/** TLB shootdown ends: every wait is bounded by the requests made.  And the loop over a mask of
    processors, which the shootdown scans with. */
module TlbProgress {
  import opened TlbShootdown

  /** Steps left: for an initiator, three actions for every bit still to scan; for every interrupt
      sent, the four actions of its handler. */
  function InitLeft(k: Initiator): nat {
    match k
    case Idle => 0
    case Scan(_, _, i) => 3 + 7 * (if i < MASK_BITS then MASK_BITS - i else 0)
    case Posted(_, _, i) => 9 + 7 * (if i + 1 < MASK_BITS then MASK_BITS - i - 1 else 0)
    case Counted(_, _, i) => 8 + 7 * (if i + 1 < MASK_BITS then MASK_BITS - i - 1 else 0)
    case Own(_, _) => 2
    case Wait(_, _) => 1
  }

  function HandLeft(k: Handler): nat {
    match k
    case Off => 0
    case Entered => 3
    case Holding(_) => 2
    case Flushed => 1
  }

  function Left(k: Cpu): nat { InitLeft(k.init) + 4 * k.pending + HandLeft(k.hand) }

  function AllLeft(ks: seq<Cpu>): nat {
    if ks == [] then 0 else Left(ks[0]) + AllLeft(ks[1..])
  }

  lemma {:induction false} AllLeftSet(ks: seq<Cpu>, c: nat, k: Cpu)
    requires c < |ks|
    ensures AllLeft(ks[c := k]) == AllLeft(ks) - Left(ks[c]) + Left(k)
  {
    if c == 0 {
      assert ks[0 := k][1..] == ks[1..];
    } else {
      assert ks[c := k][1..] == ks[1..][c - 1 := k];
      AllLeftSet(ks[1..], c - 1, k);
    }
  }

  /** The most a call can add. */
  const CALL_COST: nat := 3 + 7 * MASK_BITS

  /** A spin, or something no processor does for a request. */
  predicate Aside(x: Action) { x.Spin? || x.Load? || x.Change? }

  lemma MineLeft(k: Cpu, x: Action, active: set<CpuId>)
    requires Ripe(k, x)
    ensures Aside(x) ==> Left(Mine(k, x, active)) == Left(k)
    ensures x.Call? ==> Left(Mine(k, x, active)) == Left(k) + CALL_COST
    ensures x.Post? ==> x.j < MASK_BITS ==> Left(Mine(k, x, active)) < Left(k)
    ensures x.Send? ==> Left(Mine(k, x, active)) + 4 < Left(k)
    ensures !Aside(x) && !x.Call? && !x.Post? ==> Left(Mine(k, x, active)) < Left(k)
  {
  }

  lemma TheirsLeft(k: Cpu, x: Action, f: Word)
    ensures Left(Theirs(k, x, f)) == Left(k) + if x.Send? then 4 else 0
  {
  }

  /** Every other action but a new call brings the end nearer. */
  lemma LeftStep(s: State, x: Action)
    requires Enabled(s, x) && InRange(s)
    ensures Aside(x) ==> AllLeft(Do(s, x).cpus) == AllLeft(s.cpus)
    ensures x.Call? ==> AllLeft(Do(s, x).cpus) == AllLeft(s.cpus) + CALL_COST
    ensures !Aside(x) && !x.Call? ==> AllLeft(Do(s, x).cpus) < AllLeft(s.cpus)
  {
    NotSelf(s, x);
    hide Left, Mine, Theirs, Ripe, InRange;
    var k := s.cpus[x.c];
    var k1 := Mine(k, x, s.active);
    var ks := s.cpus[x.c := k1];
    MineLeft(k, x, s.active);
    AllLeftSet(s.cpus, x.c, k1);
    if x.Post? || x.Send? {
      TheirsLeft(ks[x.j], x, k.init.f);
      AllLeftSet(ks, x.j, Theirs(ks[x.j], x, k.init.f));
    }
  }

  function Calls(h: seq<Action>): nat {
    if h == [] then 0 else Calls(h[..|h| - 1]) + (if h[|h| - 1].Call? then 1 else 0)
  }

  function Asides(h: seq<Action>): nat {
    if h == [] then 0 else Asides(h[..|h| - 1]) + (if Aside(h[|h| - 1]) then 1 else 0)
  }

  lemma {:induction false} LeftBound(s0: State, h: seq<Action>)
    requires IsRun(s0, h)
    ensures |h| - Asides(h) + AllLeft(After(s0, h).cpus) <= (CALL_COST + 1) * Calls(h)
  {
    if h == [] {
      AllLeftZero(s0.cpus);
    } else {
      var h0, x := h[..|h| - 1], h[|h| - 1];
      LeftBound(s0, h0);
      InvHolds(s0, h0);
      LeftStep(After(s0, h0), x);
    }
  }

  lemma {:induction false} AllLeftZero(ks: seq<Cpu>)
    requires forall c :: 0 <= c < |ks| ==> Quiet(ks[c])
    ensures AllLeft(ks) == 0
  {
    if ks != [] { AllLeftZero(ks[1..]); }
  }

  /** The steps of a run that are part of the protocol, and its calls, by their places. */
  ghost function Work(h: seq<Action>): set<nat> { set i: nat | i < |h| && !h[i].Spin? && !h[i].Load? && !h[i].Change? }
  ghost function CallsMade(h: seq<Action>): set<nat> { set i: nat | i < |h| && h[i].Call? }

  lemma PlacesMore(h: seq<Action>, x: Action)
    ensures Work(h + [x]) == Work(h) + (if Aside(x) then {} else {|h|}) && |h| !in Work(h)
    ensures CallsMade(h + [x]) == CallsMade(h) + (if x.Call? then {|h|} else {}) && |h| !in CallsMade(h)
  {
    var h' := h + [x];
    assert forall i: nat :: i < |h| ==> h'[i] == h[i];
    assert h'[|h|] == x;
  }

  lemma {:induction false} CountedOnce(h: seq<Action>)
    ensures |Work(h)| == |h| - Asides(h) && |CallsMade(h)| == Calls(h)
  {
    if h == [] {
      assert Work(h) == {} && CallsMade(h) == {};
    } else {
      var h0, x := h[..|h| - 1], h[|h| - 1];
      assert h == h0 + [x];
      CountedOnce(h0);
      PlacesMore(h0, x);
      hide Work, CallsMade, Aside;
    }
  }

  /** Shootdown progress, part one: a run takes at most 452 steps of the protocol for every call, besides
      spins, whatever the interleaving. */
  lemma BoundedWork(s0: State, h: seq<Action>)
    requires IsRun(s0, h)
    ensures |Work(h)| <= 452 * |CallsMade(h)|
  {
    LeftBound(s0, h);
    CountedOnce(h);
  }

  /** The action a processor can take that is neither aside nor a new call, if it has one. */
  function Useful(s: State, c: CpuId): Action
    requires c < |s.cpus|
  {
    var k := s.cpus[c];
    match k.hand
    case Entered => Fetch(c, k.tlbop)
    case Holding(w) => Flush(c, w)
    case Flushed => Drop(c)
    case Off =>
      if k.pending > 0 then Deliver(c)
      else match k.init
        case Idle => Leave(c)
        case Scan(m, _, i) => if i < MASK_BITS && Target(s, c, m, i) then Post(c, i) else Skip(c)
        case Posted(_, _, _) => Count(c)
        case Counted(_, _, i) => Send(c, i)
        case Own(_, _) => FlushOwn(c)
        case Wait(_, _) => Leave(c)
  }

  /** A processor that is not idle and not merely spinning has a useful action. */
  lemma BusyMoves(s: State, c: CpuId)
    requires InRange(s) && c < |s.cpus|
    requires !s.cpus[c].hand.Off? || s.cpus[c].pending > 0 || !(s.cpus[c].init.Idle? || s.cpus[c].init.Wait?)
    ensures Enabled(s, Useful(s, c)) && !Aside(Useful(s, c)) && !Useful(s, c).Call?
  {
  }

  lemma {:induction false} TotalWitness(ks: seq<Cpu>) returns (c: nat)
    requires Total(ks) > 0
    ensures c < |ks| && Weight(ks[c]) > 0
  {
    if Weight(ks[0]) > 0 {
      c := 0;
    } else {
      var d := TotalWitness(ks[1..]);
      c := d + 1;
    }
  }

  /** Shootdown progress, part two: in every reachable state, while anyone is in a call some useful
      action is enabled, so no wait can be for ever: with finitely many calls all of them end. */
  lemma NeverStuck(s0: State, h: seq<Action>, c: CpuId) returns (x: Action)
    requires IsRun(s0, h) && c < |After(s0, h).cpus| && !After(s0, h).cpus[c].init.Idle?
    ensures Enabled(After(s0, h), x) && !Aside(x) && !x.Call?
  {
    var s := After(s0, h);
    InvHolds(s0, h);
    if !s.cpus[c].hand.Off? || s.cpus[c].pending > 0 || !s.cpus[c].init.Wait? {
      BusyMoves(s, c);
      x := Useful(s, c);
    } else if s.cnt == 0 {
      x := Leave(c);
    } else {
      var d := TotalWitness(s.cpus);
      BusyMoves(s, d);
      x := Useful(s, d);
    }
  }

  /** While anyone waits with the counter not at zero, the processor that will bring it down is
      named by the counter itself. */
  lemma CounterExact(s0: State, h: seq<Action>)
    requires IsRun(s0, h)
    ensures After(s0, h).cnt == Total(After(s0, h).cpus)
  {
    InvHolds(s0, h);
  }

  // ---------------------------------------------------------------- scanning a mask

  /** A mask as a number, shifted right i times; and its bit i. */
  function Shifted(mask: nat, i: nat): nat {
    if i == 0 then mask else Shifted(mask, i - 1) / 2
  }

  predicate Bit(mask: nat, i: nat) { Shifted(mask, i) % 2 == 1 }

  lemma {:induction false} ZeroStays(mask: nat, i: nat, k: nat)
    requires i <= k && Shifted(mask, i) == 0
    ensures Shifted(mask, k) == 0 && !Bit(mask, k)
    decreases k
  {
    if i < k { ZeroStays(mask, i, k - 1); }
  }

  /** The mask loop visits exactly the set bits of a 64-bit mask, each once, lowest first, even
      though it enters in the middle of its body and tests the mask only between shifts. */
  method ForeachCpumask(mask: nat) returns (visited: seq<nat>)
    requires Shifted(mask, MASK_BITS) == 0
    ensures forall a, b :: 0 <= a < b < |visited| ==> visited[a] < visited[b]
    ensures forall j: nat :: j in visited <==> Bit(mask, j)
    ensures forall j :: j in visited ==> j < MASK_BITS
  {
    var i, m := 0, mask;
    visited := [];
    if m % 2 == 1 {
      visited := visited + [i];
    }
    while m != 0
      invariant m == Shifted(mask, i)
      invariant m != 0 ==> i < MASK_BITS
      invariant forall a, b :: 0 <= a < b < |visited| ==> visited[a] < visited[b]
      invariant forall a :: 0 <= a < |visited| ==> visited[a] <= i
      invariant forall j: nat :: j <= i ==> (j in visited <==> Bit(mask, j))
      decreases m
    {
      i := i + 1;
      m := m / 2;
      if m % 2 == 1 {
        visited := visited + [i];
      }
    }
    forall j: nat | j >= i ensures !Bit(mask, j) {
      ZeroStays(mask, i, j);
    }
    forall j | j in visited ensures j < MASK_BITS {
      if j >= MASK_BITS { ZeroStays(mask, MASK_BITS, j); }
    }
  }
}
