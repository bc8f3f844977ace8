/** User devices: processes plug a device into descriptors of their bus, each plugging gets an id of
    the device, and the device's driver polls the resulting requests in order. */
module UserDevice {
  import opened Options

  const MAXUSRDEVREMS: nat := 256
  const MAXBUSDEVS: nat := 64

  datatype Event =
    | Open(id: nat)
    | Clone(id: nat, cloneId: nat)
    | Out(id: nat, size: nat, port: nat, val: nat)
    | Close(id: nat)

  datatype Result = Ok(value: nat) | ENOENT | ENFILE | EMFILE | EACCES | EBADF | EBUSY

  // ---------------------------------------------------------------- event streams

  /** What an event is to an id: the start of a session, something within it, its end, or nothing.  A
      clone is within the session of the id cloned and the start of the session of the clone. */
  datatype Role = Start | Within | End | Nothing

  function RoleOf(e: Event, i: nat): Role {
    match e
    case Open(id) => if id == i then Start else Nothing
    case Clone(id, c) => if c == i then Start else if id == i then Within else Nothing
    case Out(id, _, _, _) => if id == i then Within else Nothing
    case Close(id) => if id == i then End else Nothing
  }

  /** The events that concern an id, as roles. */
  function Stream(h: seq<Event>, i: nat): seq<Role> {
    if h == [] then []
    else
      var s := Stream(h[..|h| - 1], i);
      if RoleOf(h[|h| - 1], i).Nothing? then s else s + [RoleOf(h[|h| - 1], i)]
  }

  /** One session: a start, events within it, an end. */
  ghost predicate Session(s: seq<Role>) {
    |s| >= 2 && s[0] == Start && s[|s| - 1] == End && forall k :: 0 < k < |s| - 1 ==> s[k] == Within
  }

  /** A session not ended yet. */
  ghost predicate OpenSession(s: seq<Role>) {
    |s| >= 1 && s[0] == Start && forall k :: 0 < k < |s| ==> s[k] == Within
  }

  ghost predicate Sessions(parts: seq<seq<Role>>) { forall k :: 0 <= k < |parts| ==> Session(parts[k]) }

  function Joined(parts: seq<seq<Role>>): seq<Role> {
    if parts == [] then [] else Joined(parts[..|parts| - 1]) + parts[|parts| - 1]
  }

  /** The stream is whole sessions one after another, then possibly one that has not ended. */
  ghost predicate WellFormed(s: seq<Role>, open: bool) {
    exists parts, last :: Split(s, parts, last, open)
  }

  ghost predicate Split(s: seq<Role>, parts: seq<seq<Role>>, last: seq<Role>, open: bool) {
    Sessions(parts) && s == Joined(parts) + last && (if open then OpenSession(last) else last == [])
  }

  /** How a well-formed stream goes on: start when closed, within and end when open. */
  lemma Extend(s: seq<Role>, open: bool, r: Role)
    requires WellFormed(s, open) && !r.Nothing? && (r.Start? <==> !open)
    ensures WellFormed(s + [r], !r.End?)
  {
    var parts, last :| Split(s, parts, last, open);
    if r.Start? {
      assert Split(s + [r], parts, [r], true);
    } else if r.Within? {
      assert Split(s + [r], parts, last + [r], true);
    } else {
      var parts' := parts + [last + [r]];
      assert parts'[..|parts|] == parts;
      assert Split(s + [r], parts', [], false);
    }
  }

  lemma EmptyStream()
    ensures WellFormed([], false)
  {
    assert Split([], [], [], false);
  }

  /** The same, event by event: an id has been given out, by an open or by a clone, and not closed since. */
  ghost predicate GivenOut(h: seq<Event>, i: nat) {
    exists m :: 0 <= m < |h| && Starts(h[m], i) && forall k :: m < k < |h| ==> h[k] != Close(i)
  }

  predicate Starts(e: Event, i: nat) { e == Open(i) || (e.Clone? && e.cloneId == i) }

  /** Event n, if it is about id i, comes while i is given out, or gives it out when it is not. */
  ghost predicate Timely(h: seq<Event>, n: nat, i: nat)
    requires n < |h|
  {
    && (h[n] == Close(i) || (h[n].Out? && h[n].id == i) || (h[n].Clone? && h[n].id == i) ==> GivenOut(h[..n], i))
    && (Starts(h[n], i) ==> !GivenOut(h[..n], i))
  }

  /** The stream of an id is whole sessions and possibly an open one, and every event about it comes when it may. */
  ghost predicate Orderly(h: seq<Event>, i: nat) { Fine(h, i) && forall n :: 0 <= n < |h| ==> Timely(h, n, i) }

  lemma GivenStep(h: seq<Event>, e: Event, i: nat, was: bool, now: bool)
    requires (GivenOut(h, i) <==> was) && Moves(RoleOf(e, i), was, now) && !(e.Clone? && e.id == e.cloneId)
    ensures (GivenOut(h + [e], i) <==> now) && Timely(h + [e], |h|, i)
  {
    var h' := h + [e];
    assert h'[..|h|] == h;
    if was {
      var m :| 0 <= m < |h| && Starts(h[m], i) && forall k :: m < k < |h| ==> h[k] != Close(i);
      assert Starts(h'[m], i) && forall k :: m < k < |h| ==> h'[k] == h[k];
    }
    if Starts(e, i) { assert Starts(h'[|h|], i); }
    if GivenOut(h', i) && !Starts(e, i) {
      var m :| 0 <= m < |h'| && Starts(h'[m], i) && forall k :: m < k < |h'| ==> h'[k] != Close(i);
      assert Starts(h[m], i) && forall k :: m < k < |h| ==> h[k] == h'[k];
      assert h'[|h|] == e;
    }
  }

  lemma TimelyStays(h: seq<Event>, g: seq<Event>, n: nat, i: nat)
    requires n < |h|
    ensures Timely(h + g, n, i) <==> Timely(h, n, i)
  {
    assert (h + g)[..n] == h[..n];
  }

  /** The streams of a history are well formed, open exactly for the ids in use, and so they were
      after every event before. */
  ghost predicate InStep(h: seq<Event>, use: seq<bool>) {
    && (forall i :: 0 <= i < |use| ==> WellFormed(Stream(h, i), use[i]) && (GivenOut(h, i) <==> use[i]))
    && (forall n, i :: 0 <= n < |h| && 0 <= i < |use| ==> Timely(h, n, i))
    && (forall n, i :: 0 <= n <= |h| && 0 <= i < |use| ==> Fine(h[..n], i))
  }

  ghost predicate Fine(h: seq<Event>, i: nat) { WellFormed(Stream(h, i), true) || WellFormed(Stream(h, i), false) }

  /** What an event may do to whether an id is in use. */
  predicate Moves(r: Role, was: bool, now: bool) {
    match r
    case Nothing => now == was
    case Start => !was && now
    case Within => was && now
    case End => was && !now
  }

  /** An event that suits the ids it concerns keeps all streams well formed. */
  lemma Suits(h: seq<Event>, use: seq<bool>, e: Event, use': seq<bool>)
    requires InStep(h, use) && |use'| == |use|
    requires forall i :: 0 <= i < |use| ==> Moves(RoleOf(e, i), use[i], use'[i])
    requires !(e.Clone? && e.id == e.cloneId)
    ensures InStep(h + [e], use')
  {
    var h' := h + [e];
    forall n, i | 0 <= n < |h'| && 0 <= i < |use'| ensures Timely(h', n, i) {
      if n < |h| { TimelyStays(h, [e], n, i); } else { GivenStep(h, e, i, use[i], use'[i]); }
    }
    forall i | 0 <= i < |use'| ensures WellFormed(Stream(h', i), use'[i]) && (GivenOut(h', i) <==> use'[i]) {
      GivenStep(h, e, i, use[i], use'[i]);
      assert h'[..|h|] == h;
      assert Moves(RoleOf(e, i), use[i], use'[i]);
      if !RoleOf(e, i).Nothing? {
        Extend(Stream(h, i), use[i], RoleOf(e, i));
      }
    }
    forall n, i | 0 <= n <= |h'| && 0 <= i < |use'| ensures Fine(h'[..n], i) {
      if n <= |h| {
        assert h'[..n] == h[..n];
        assert Fine(h[..n], i);
      } else {
        assert h'[..n] == h' && WellFormed(Stream(h', i), use'[i]);
      }
    }
  }

  lemma NothingYet(use: seq<bool>)
    requires forall i :: 0 <= i < |use| ==> !use[i]
    ensures InStep([], use)
  {
    EmptyStream();
    var h: seq<Event> := [];
    forall n, i | 0 <= n <= |h| && 0 <= i < |use| ensures Fine(h[..n], i) {
      assert h[..n] == h && Stream(h, i) == [];
    }
  }

  // ---------------------------------------------------------------- the device

  /** The first place that is not taken, or the number of places. */
  function First(taken: seq<bool>): (i: nat)
    ensures i <= |taken| && (i < |taken| ==> !taken[i]) && forall j :: 0 <= j < i ==> taken[j]
  {
    if taken == [] || !taken[0] then 0 else 1 + First(taken[1..])
  }

  /** A user device that is not being detached: which ids are in use, and the requests not polled
      yet.  Everything ever polled is kept for the specification. */
  class UsrDev {
    var use: seq<bool>
    var ioreqs: seq<Event>
    ghost var polled: seq<Event>

    ghost predicate Valid()
      reads this
    {
      |use| == MAXUSRDEVREMS && InStep(polled + ioreqs, use)
    }

    constructor ()
      ensures Valid() && polled == [] && ioreqs == [] && forall i :: 0 <= i < MAXUSRDEVREMS ==> !use[i]
    {
      use := seq(MAXUSRDEVREMS, i => false);
      ioreqs, polled := [], [];
      new;
      NothingYet(use);
      assert polled + ioreqs == [];
    }

    /** The first id not in use, or the number of ids. */
    method FindSlot() returns (i: nat)
      requires |use| == MAXUSRDEVREMS
      ensures i == First(use)
    {
      i := 0;
      while i < MAXUSRDEVREMS && use[i]
        invariant 0 <= i <= MAXUSRDEVREMS
        invariant forall j :: 0 <= j < i ==> use[j]
      {
        i := i + 1;
      }
    }

    method Enqueue(e: Event, was: seq<bool>)
      requires |use| == |was| == MAXUSRDEVREMS && InStep(polled + ioreqs, was)
      requires forall i :: 0 <= i < |was| ==> Moves(RoleOf(e, i), was[i], use[i])
      requires !(e.Clone? && e.id == e.cloneId)
      modifies this`ioreqs
      ensures Valid() && ioreqs == old(ioreqs) + [e]
    {
      hide InStep;
      Suits(polled + ioreqs, was, e, use);
      ioreqs := ioreqs + [e];
      assert polled + ioreqs == polled + old(ioreqs) + [e];
    }

    method DevOpen() returns (r: Result)
      requires Valid()
      modifies this`use, this`ioreqs
      ensures Valid() && (r.Ok? || r == ENFILE)
      ensures r.Ok? <==> exists j :: 0 <= j < 256 && !old(use)[j]
      ensures r.Ok? ==> r.value == First(old(use)) < MAXUSRDEVREMS && !old(use)[r.value] && use == old(use)[r.value := true]
                        && ioreqs == old(ioreqs) + [Open(r.value)]
      ensures !r.Ok? ==> use == old(use) && ioreqs == old(ioreqs)
    {
      hide InStep;
      var i := FindSlot();
      if i >= MAXUSRDEVREMS {
        return ENFILE;
      }
      var was := use;
      use := use[i := true];
      Enqueue(Open(i), was);
      r := Ok(i);
    }

    method DevClone(id: nat) returns (r: Result)
      requires Valid() && id < MAXUSRDEVREMS && use[id]
      modifies this`use, this`ioreqs
      ensures Valid() && (r.Ok? || r == ENFILE)
      ensures r.Ok? <==> exists j :: 0 <= j < 256 && !old(use)[j]
      ensures r.Ok? ==> r.value == First(old(use)) < MAXUSRDEVREMS && !old(use)[r.value] && use == old(use)[r.value := true]
                        && ioreqs == old(ioreqs) + [Clone(id, r.value)]
      ensures !r.Ok? ==> use == old(use) && ioreqs == old(ioreqs)
    {
      hide InStep;
      var i := FindSlot();
      if i >= MAXUSRDEVREMS {
        return ENFILE;
      }
      var was := use;
      use := use[i := true];
      Enqueue(Clone(id, i), was);
      r := Ok(i);
    }

    method DevOut(id: nat, size: nat, port: nat, val: nat)
      requires Valid() && id < MAXUSRDEVREMS && use[id]
      modifies this`ioreqs
      ensures Valid() && ioreqs == old(ioreqs) + [Out(id, size, port, val)]
    {
      Enqueue(Out(id, size, port, val), use);
    }

    method DevClose(id: nat)
      requires Valid() && id < MAXUSRDEVREMS && use[id]
      modifies this`use, this`ioreqs
      ensures Valid() && use == old(use)[id := false] && ioreqs == old(ioreqs) + [Close(id)]
    {
      hide InStep;
      var was := use;
      use := use[id := false];
      Enqueue(Close(id), was);
    }

    /** The driver takes the oldest request.  The events polled are at every moment well formed for
        every id. */
    method Poll() returns (r: Option<Event>)
      requires Valid()
      modifies this`ioreqs, this`polled
      ensures Valid()
      ensures r.None? <==> old(ioreqs) == []
      ensures r.None? ==> ioreqs == old(ioreqs) && polled == old(polled)
      ensures r.Some? ==> [r.value] + ioreqs == old(ioreqs) && polled == old(polled) + [r.value]
      ensures forall i :: 0 <= i < MAXUSRDEVREMS ==> Orderly(polled, i)
    {
      hide InStep, Orderly;
      if ioreqs == [] {
        r := None;
      } else {
        r := Some(ioreqs[0]);
        polled := polled + [ioreqs[0]];
        ioreqs := ioreqs[1..];
        assert polled + ioreqs == old(polled + ioreqs);
      }
      PolledFine(polled, ioreqs, use);
    }
  }

  lemma PolledFine(polled: seq<Event>, ioreqs: seq<Event>, use: seq<bool>)
    requires InStep(polled + ioreqs, use)
    ensures forall i :: 0 <= i < |use| ==> Orderly(polled, i)
  {
    forall i | 0 <= i < |use| ensures Orderly(polled, i) {
      forall n | 0 <= n < |polled| ensures Timely(polled, n, i) {
        TimelyStays(polled, ioreqs, n, i);
      }
      assert (polled + ioreqs)[..|polled|] == polled;
      assert Fine((polled + ioreqs)[..|polled|], i);
    }
  }

  // ---------------------------------------------------------------- buses

  /** A bus descriptor. */
  datatype Desc = Desc(plg: bool, bsy: bool, dev: bool, devid: nat)

  const UNPLUGGED := Desc(false, false, false, 0)

  /** Where a descriptor is: a bus and a number on it. */
  datatype Place = Place(bus: nat, desc: nat)

  type Buses = map<nat, seq<Desc>>

  predicate At(buses: Buses, p: Place) { p.bus in buses && p.desc < |buses[p.bus]| }

  /** The ids in use are exactly those held by plugged descriptors, and no id is held twice: owner
      says by whom. */
  ghost predicate Owned(buses: Buses, use: seq<bool>, owner: map<nat, Place>) {
    && (forall b :: b in buses ==> |buses[b]| == MAXBUSDEVS)
    && (forall i :: i in owner <==> 0 <= i < |use| && use[i])
    && (forall i :: i in owner ==> At(buses, owner[i]) && buses[owner[i].bus][owner[i].desc] == Desc(true, true, true, i))
    && (forall p :: At(buses, p) ==>
          var d := buses[p.bus][p.desc];
          d.plg == d.bsy == d.dev && (d.plg ==> d.devid in owner && owner[d.devid] == p))
  }

  function SetDesc(buses: Buses, p: Place, d: Desc): Buses
    requires At(buses, p)
  {
    buses[p.bus := buses[p.bus][p.desc := d]]
  }

  /** Giving a fresh id to an unplugged descriptor. */
  lemma OwnMore(buses: Buses, use: seq<bool>, owner: map<nat, Place>, p: Place, i: nat)
    requires Owned(buses, use, owner) && At(buses, p) && !buses[p.bus][p.desc].plg && i < |use| && !use[i]
    ensures Owned(SetDesc(buses, p, Desc(true, true, true, i)), use[i := true], owner[i := p])
  {
  }

  /** Unplugging a descriptor frees its id. */
  lemma OwnLess(buses: Buses, use: seq<bool>, owner: map<nat, Place>, p: Place)
    requires Owned(buses, use, owner) && At(buses, p) && buses[p.bus][p.desc].plg
    ensures var i := buses[p.bus][p.desc].devid;
            i < |use| && use[i] && Owned(SetDesc(buses, p, UNPLUGGED), use[i := false], owner - {i})
  {
  }

  lemma Lengths(buses: Buses, use: seq<bool>, owner: map<nat, Place>)
    requires Owned(buses, use, owner)
    ensures forall b :: b in buses ==> |buses[b]| == MAXBUSDEVS
  {
  }

  lemma Flags(buses: Buses, use: seq<bool>, owner: map<nat, Place>, b: nat)
    requires Owned(buses, use, owner) && b in buses
    ensures |buses[b]| == MAXBUSDEVS
    ensures forall k :: 0 <= k < MAXBUSDEVS ==> buses[b][k].plg == buses[b][k].bsy == buses[b][k].dev
  {
    forall k | 0 <= k < MAXBUSDEVS ensures buses[b][k].plg == buses[b][k].bsy == buses[b][k].dev {
      HeldId(buses, use, owner, Place(b, k));
    }
  }

  /** What a descriptor says of its id. */
  lemma HeldId(buses: Buses, use: seq<bool>, owner: map<nat, Place>, p: Place)
    requires Owned(buses, use, owner) && At(buses, p)
    ensures var d := buses[p.bus][p.desc];
            d.plg == d.bsy == d.dev && (d.plg ==> d.devid < |use| && use[d.devid])
  {
  }

  /** Writing back what a descriptor holds. */
  lemma OwnSame(buses: Buses, p: Place)
    requires At(buses, p)
    ensures SetDesc(buses, p, buses[p.bus][p.desc]) == buses
  {
    var l := buses[p.bus];
    assert l[p.desc := l[p.desc]] == l;
  }

  // ---------------------------------------------------------------- what calls do

  datatype Call =
    | PlugIt(b: nat, allowed: bool)
    | CopyIt(b: nat, d: nat, nb: nat, nd: nat)
    | UnplugIt(b: nat, d: nat)
    | OutIt(b: nat, d: nat, size: nat, port: nat, val: nat)
    | ForkIt(b: nat, nb: nat)
    | ExitIt(b: nat)
    | PollIt

  /** All there is to see: the buses, the ids in use, every event ever sent to the driver, and how
      many of them it has polled. */
  datatype Sys = Sys(buses: Buses, use: seq<bool>, sent: seq<Event>, taken: nat)

  /** The first unplugged descriptor of a bus, or the number of descriptors. */
  function FirstDesc(ds: seq<Desc>): (k: nat)
    ensures k <= |ds| && (k < |ds| ==> !ds[k].plg) && forall j :: 0 <= j < k ==> ds[j].plg
  {
    if ds == [] || !ds[0].plg then 0 else 1 + FirstDesc(ds[1..])
  }

  /** Descriptor p gets the first free id, and the driver is told by event e of that id. */
  function Given(s: Sys, p: Place, e: nat -> Event): Sys {
    var id := First(s.use);
    if At(s.buses, p) && id < |s.use|
    then Sys(SetDesc(s.buses, p, Desc(true, true, true, id)), s.use[id := true], s.sent + [e(id)], s.taken)
    else s
  }

  function IsPlugged(s: Sys, p: Place): bool { At(s.buses, p) && s.buses[p.bus][p.desc].plg }

  function IdAt(s: Sys, p: Place): nat
    requires At(s.buses, p)
  {
    s.buses[p.bus][p.desc].devid
  }

  function Copied(s: Sys, p: Place, q: Place): Sys {
    if IsPlugged(s, p) && !IsPlugged(s, q) then Given(s, q, (id: nat) => Clone(IdAt(s, p), id)) else s
  }

  function Unplugged(s: Sys, p: Place): Sys {
    if IsPlugged(s, p) && IdAt(s, p) < |s.use|
    then Sys(SetDesc(s.buses, p, UNPLUGGED), s.use[IdAt(s, p) := false], s.sent + [Close(IdAt(s, p))], s.taken)
    else s
  }

  /** The first n descriptors of a bus copied to another, or unplugged. */
  function CopiedTo(s: Sys, b: nat, nb: nat, n: nat): Sys {
    if n == 0 then s else Copied(CopiedTo(s, b, nb, n - 1), Place(b, n - 1), Place(nb, n - 1))
  }

  function UnpluggedTo(s: Sys, b: nat, n: nat): Sys {
    if n == 0 then s else Unplugged(UnpluggedTo(s, b, n - 1), Place(b, n - 1))
  }

  function StepSys(s: Sys, c: Call): Sys {
    match c
    case PlugIt(b, allowed) =>
      if b in s.buses && allowed then Given(s, Place(b, FirstDesc(s.buses[b])), (id: nat) => Open(id)) else s
    case CopyIt(b, d, nb, nd) => Copied(s, Place(b, d), Place(nb, nd))
    case UnplugIt(b, d) => Unplugged(s, Place(b, d))
    case OutIt(b, d, size, port, val) =>
      if IsPlugged(s, Place(b, d)) then s.(sent := s.sent + [Out(IdAt(s, Place(b, d)), size, port, val)]) else s
    case ForkIt(b, nb) => if b in s.buses && nb in s.buses && b != nb then CopiedTo(s, b, nb, MAXBUSDEVS) else s
    case ExitIt(b) => UnpluggedTo(s, b, MAXBUSDEVS)
    case PollIt => if s.taken < |s.sent| then s.(taken := s.taken + 1) else s
  }

  function RunSys(s: Sys, calls: seq<Call>): Sys {
    if calls == [] then s else StepSys(RunSys(s, calls[..|calls| - 1]), calls[|calls| - 1])
  }

  // ---------------------------------------------------------------- what calls come to

  /** The id a device hands out next. */
  ghost predicate Least(use: seq<bool>, id: nat) { id < |use| && !use[id] && forall j :: 0 <= j < id ==> use[j] }

  ghost predicate AllUsed(use: seq<bool>) { forall j :: 0 <= j < |use| ==> use[j] }

  lemma LeastIsFirst(use: seq<bool>)
    ensures forall id: nat :: Least(use, id) ==> id == First(use)
    ensures First(use) < |use| ==> Least(use, First(use))
    ensures First(use) == |use| <==> AllUsed(use)
  {
  }

  /** A call by which descriptor d of bus b gets the least free id changes that descriptor and that id and
      sends that event; and a call that cannot changes nothing. */
  ghost predicate Gives(s: Sys, s': Sys, able: bool, b: nat, d: nat, e: nat -> Event) {
    && (able ==> b in s.buses && d < |s.buses[b]|)
    && (!able || AllUsed(s.use) ==> s' == s)
    && forall id: nat :: able && Least(s.use, id) ==>
         s' == Sys(s.buses[b := s.buses[b][d := Desc(true, true, true, id)]], s.use[id := true], s.sent + [e(id)], s.taken)
  }

  lemma PlugMeans(s: Sys, b: nat, allowed: bool, d: nat)
    requires b in s.buses ==> d <= |s.buses[b]| && (d < |s.buses[b]| ==> !s.buses[b][d].plg) && forall j :: 0 <= j < d ==> s.buses[b][j].plg
    ensures Gives(s, StepSys(s, PlugIt(b, allowed)), b in s.buses && allowed && d < |s.buses[b]|, b, d, (id: nat) => Open(id))
  {
    LeastIsFirst(s.use);
    assert b in s.buses ==> FirstDesc(s.buses[b]) == d;
  }

  lemma CopyMeans(s: Sys, b: nat, d: nat, nb: nat, nd: nat)
    ensures var able := b in s.buses && d < |s.buses[b]| && s.buses[b][d].plg && nb in s.buses && nd < |s.buses[nb]| && !s.buses[nb][nd].plg;
            Gives(s, StepSys(s, CopyIt(b, d, nb, nd)), able, nb, nd, (id: nat) => Clone(if able then s.buses[b][d].devid else 0, id))
  {
    LeastIsFirst(s.use);
  }

  lemma UnplugMeans(s: Sys, b: nat, d: nat)
    requires b in s.buses && d < |s.buses[b]| && s.buses[b][d].plg ==> s.buses[b][d].devid < |s.use|
    ensures StepSys(s, UnplugIt(b, d)) ==
            if b in s.buses && d < |s.buses[b]| && s.buses[b][d].plg
            then var id := s.buses[b][d].devid;
                 Sys(s.buses[b := s.buses[b][d := Desc(false, false, false, 0)]], s.use[id := false], s.sent + [Close(id)], s.taken)
            else s
  {
  }

  lemma OutMeans(s: Sys, b: nat, d: nat, size: nat, port: nat, val: nat)
    ensures StepSys(s, OutIt(b, d, size, port, val)) ==
            if b in s.buses && d < |s.buses[b]| && s.buses[b][d].plg
            then Sys(s.buses, s.use, s.sent + [Out(s.buses[b][d].devid, size, port, val)], s.taken)
            else s
  {
  }

  /** The places ks, in ascending order, below n. */
  ghost predicate Ascending(ks: seq<nat>, n: nat) {
    (forall i, j :: 0 <= i < j < |ks| ==> ks[i] < ks[j]) && forall i :: 0 <= i < |ks| ==> ks[i] < n
  }

  /** Up to descriptor n, bus nb has been given what bus b has: at each of the places ks, which are plugged on
      b and were not on nb, a fresh id, and the driver a clone event from the id on b to the new one.  A
      place plugged on b and not on nb is left out only when all ids are in use. */
  ghost predicate HandedDown(s: Sys, s': Sys, b: nat, nb: nat, n: nat, ks: seq<nat>)
    requires Pair(s, b, nb) && n <= MAXBUSDEVS
  {
    && s'.buses.Keys == s.buses.Keys && (forall c :: c in s.buses && c != nb ==> s'.buses[c] == s.buses[c])
    && |s'.buses[nb]| == MAXBUSDEVS && s'.taken == s.taken && |s'.use| == |s.use|
    && Ascending(ks, n)
    && HandedPlaces(s, s', b, nb, ks) && HandedIds(s, s', nb, ks) && HandedEvents(s, s', b, nb, ks)
    && forall k :: 0 <= k < n && s.buses[b][k].plg && !s.buses[nb][k].plg && k !in ks ==> AllUsed(s'.use)
  }

  ghost predicate Pair(s: Sys, b: nat, nb: nat) {
    b in s.buses && nb in s.buses && b != nb && |s.buses[b]| == |s.buses[nb]| == MAXBUSDEVS
  }

  ghost predicate HandedPlaces(s: Sys, s': Sys, b: nat, nb: nat, ks: seq<nat>)
    requires Pair(s, b, nb) && nb in s'.buses && |s'.buses[nb]| == MAXBUSDEVS && Ascending(ks, MAXBUSDEVS)
  {
    && (forall k :: 0 <= k < MAXBUSDEVS && k !in ks ==> s'.buses[nb][k] == s.buses[nb][k])
    && forall k :: k in ks ==>
         s.buses[b][k].plg && !s.buses[nb][k].plg && s'.buses[nb][k] == Desc(true, true, true, s'.buses[nb][k].devid)
  }

  ghost predicate HandedIds(s: Sys, s': Sys, nb: nat, ks: seq<nat>)
    requires nb in s'.buses && |s'.buses[nb]| == MAXBUSDEVS && Ascending(ks, MAXBUSDEVS) && |s'.use| == |s.use|
  {
    && (forall k :: k in ks ==> var id := s'.buses[nb][k].devid; id < |s.use| && !s.use[id] && s'.use[id])
    && (forall k, l :: k in ks && l in ks && k != l ==> s'.buses[nb][k].devid != s'.buses[nb][l].devid)
    && (forall j :: 0 <= j < |s.use| && s.use[j] ==> s'.use[j])
    && (forall j :: 0 <= j < |s.use| && s'.use[j] && !s.use[j] ==> exists k :: k in ks && s'.buses[nb][k].devid == j)
  }

  ghost predicate HandedEvents(s: Sys, s': Sys, b: nat, nb: nat, ks: seq<nat>)
    requires Pair(s, b, nb) && nb in s'.buses && |s'.buses[nb]| == MAXBUSDEVS && Ascending(ks, MAXBUSDEVS)
  {
    && |s'.sent| == |s.sent| + |ks| && s'.sent[..|s.sent|] == s.sent
    && forall i :: 0 <= i < |ks| ==> s'.sent[|s.sent| + i] == Clone(s.buses[b][ks[i]].devid, s'.buses[nb][ks[i]].devid)
  }

  /** The next place is given the least free id. */
  ghost predicate OneGiven(s: Sys, s1: Sys, s2: Sys, b: nat, nb: nat, n: nat, id: nat)
    requires Pair(s, b, nb) && n < MAXBUSDEVS && nb in s1.buses && |s1.buses[nb]| == MAXBUSDEVS
  {
    && Least(s1.use, id)
    && s2 == Sys(s1.buses[nb := s1.buses[nb][n := Desc(true, true, true, id)]], s1.use[id := true],
                 s1.sent + [Clone(s.buses[b][n].devid, id)], s1.taken)
  }

  lemma PlacesMore(s: Sys, s1: Sys, s2: Sys, b: nat, nb: nat, n: nat, ks: seq<nat>, id: nat)
    requires Pair(s, b, nb) && n < MAXBUSDEVS && HandedDown(s, s1, b, nb, n, ks) && OneGiven(s, s1, s2, b, nb, n, id)
    requires s.buses[b][n].plg && !s.buses[nb][n].plg
    ensures Ascending(ks + [n], n + 1) && HandedPlaces(s, s2, b, nb, ks + [n]) && HandedEvents(s, s2, b, nb, ks + [n])
  {
    hide HandedIds;
  }

  lemma IdsMore(s: Sys, s1: Sys, s2: Sys, nb: nat, n: nat, ks: seq<nat>, id: nat)
    requires nb in s1.buses && |s1.buses[nb]| == MAXBUSDEVS && Ascending(ks, n) && n < MAXBUSDEVS && |s1.use| == |s.use|
    requires HandedIds(s, s1, nb, ks) && id < |s1.use| && !s1.use[id]
    requires nb in s2.buses && s2.buses[nb] == s1.buses[nb][n := Desc(true, true, true, id)] && s2.use == s1.use[id := true]
    ensures Ascending(ks + [n], n + 1) && HandedIds(s, s2, nb, ks + [n])
  {
    var ks', d1, d2 := ks + [n], s1.buses[nb], s2.buses[nb];
    assert n in ks' && n !in ks;
    assert forall k :: k in ks' <==> k in ks || k == n;
    assert forall k :: k in ks ==> d2[k] == d1[k] && d1[k].devid != id;
    forall j | 0 <= j < |s.use| && s2.use[j] && !s.use[j] ensures exists k :: k in ks' && d2[k].devid == j {
      if j == id {
        assert d2[n].devid == id;
      } else {
        var k :| k in ks && d1[k].devid == j;
        assert d2[k].devid == j;
      }
    }
  }

  lemma HandOne(s: Sys, s1: Sys, b: nat, nb: nat, n: nat, ks: seq<nat>) returns (ks': seq<nat>)
    requires Pair(s, b, nb) && n < MAXBUSDEVS && HandedDown(s, s1, b, nb, n, ks)
    ensures HandedDown(s, Copied(s1, Place(b, n), Place(nb, n)), b, nb, n + 1, ks')
  {
    LeastIsFirst(s1.use);
    var s2, id := Copied(s1, Place(b, n), Place(nb, n)), First(s1.use);
    assert s1.buses[b] == s.buses[b];
    assert n !in ks && s1.buses[nb][n] == s.buses[nb][n];
    if s1.buses[b][n].plg && !s1.buses[nb][n].plg && id < |s1.use| {
      ks' := ks + [n];
      assert OneGiven(s, s1, s2, b, nb, n, id);
      PlacesMore(s, s1, s2, b, nb, n, ks, id);
      IdsMore(s, s1, s2, nb, n, ks, id);
      hide HandedPlaces, HandedIds, HandedEvents;
      assert !AllUsed(s1.use) && n in ks';
    } else {
      ks' := ks;
    }
  }

  lemma {:induction false} HandAll(s: Sys, b: nat, nb: nat, n: nat) returns (ks: seq<nat>)
    requires Pair(s, b, nb) && n <= MAXBUSDEVS
    ensures HandedDown(s, CopiedTo(s, b, nb, n), b, nb, n, ks)
  {
    hide Copied;
    if n == 0 {
      ks := [];
      assert forall k: nat :: k !in ks;
    } else {
      ks := HandAll(s, b, nb, n - 1);
      ks := HandNext(s, b, nb, n, ks);
    }
  }

  lemma HandNext(s: Sys, b: nat, nb: nat, n: nat, ks: seq<nat>) returns (ks': seq<nat>)
    requires Pair(s, b, nb) && 0 < n <= MAXBUSDEVS && HandedDown(s, CopiedTo(s, b, nb, n - 1), b, nb, n - 1, ks)
    ensures HandedDown(s, CopiedTo(s, b, nb, n), b, nb, n, ks')
  {
    hide HandedDown, Copied;
    ks' := HandOne(s, CopiedTo(s, b, nb, n - 1), b, nb, n - 1, ks);
  }

  /** A fork hands the descriptors of the parent's bus down to the child's. */
  lemma ForkMeans(s: Sys, b: nat, nb: nat) returns (ks: seq<nat>)
    requires Pair(s, b, nb)
    ensures HandedDown(s, StepSys(s, ForkIt(b, nb)), b, nb, MAXBUSDEVS, ks)
  {
    hide HandedDown, CopiedTo;
    ks := HandAll(s, b, nb, MAXBUSDEVS);
    assert StepSys(s, ForkIt(b, nb)) == CopiedTo(s, b, nb, MAXBUSDEVS);
  }

  /** Up to descriptor n, bus b has been unplugged: ks are the places that were plugged, the id of each is
      closed, once and in order, and free again. */
  ghost predicate Vacated(s: Sys, s': Sys, b: nat, n: nat, ks: seq<nat>)
    requires b in s.buses && n <= |s.buses[b]|
  {
    && s'.buses.Keys == s.buses.Keys && (forall c :: c in s.buses && c != b ==> s'.buses[c] == s.buses[c])
    && |s'.buses[b]| == |s.buses[b]| && s'.taken == s.taken && |s'.use| == |s.use|
    && Ascending(ks, n) && (forall k :: 0 <= k < n ==> (k in ks <==> s.buses[b][k].plg))
    && (forall k :: 0 <= k < |s.buses[b]| ==> s'.buses[b][k] == if k in ks then Desc(false, false, false, 0) else s.buses[b][k])
    && FreedIds(s.buses[b], s.use, s'.use, ks)
    && |s'.sent| == |s.sent| + |ks| && s'.sent[..|s.sent|] == s.sent
    && (forall i :: 0 <= i < |ks| ==> s'.sent[|s.sent| + i] == Close(s.buses[b][ks[i]].devid))
  }

  /** Of the ids in use exactly those of the places ks are not any more. */
  ghost predicate FreedIds(ds: seq<Desc>, use: seq<bool>, use': seq<bool>, ks: seq<nat>)
    requires |use'| == |use| && forall i :: 0 <= i < |ks| ==> ks[i] < |ds|
  {
    && (forall j :: 0 <= j < |use| && use'[j] ==> use[j] && forall k :: k in ks ==> ds[k].devid != j)
    && (forall j :: 0 <= j < |use| && use[j] && !use'[j] ==> exists k :: k in ks && ds[k].devid == j)
  }

  lemma FreedMore(ds: seq<Desc>, use: seq<bool>, use1: seq<bool>, ks: seq<nat>, n: nat)
    requires |use1| == |use| && (forall i :: 0 <= i < |ks| ==> ks[i] < |ds|) && FreedIds(ds, use, use1, ks)
    requires n < |ds| && ds[n].devid < |use|
    ensures FreedIds(ds, use, use1[ds[n].devid := false], ks + [n])
  {
    var ks', use2 := ks + [n], use1[ds[n].devid := false];
    assert n in ks' && forall k :: k in ks' <==> k in ks || k == n;
    forall j | 0 <= j < |use| && use[j] && !use2[j] ensures exists k :: k in ks' && ds[k].devid == j {
      if j == ds[n].devid {
        assert ds[n].devid == j;
      } else {
        var k :| k in ks && ds[k].devid == j;
        assert k in ks';
      }
    }
  }

  lemma VacateOne(s: Sys, s1: Sys, b: nat, n: nat, ks: seq<nat>) returns (ks': seq<nat>)
    requires b in s.buses && n < |s.buses[b]| && (s.buses[b][n].plg ==> s.buses[b][n].devid < |s.use|)
    requires Vacated(s, s1, b, n, ks)
    ensures Vacated(s, Unplugged(s1, Place(b, n)), b, n + 1, ks')
  {
    hide FreedIds;
    assert n !in ks;
    var s2 := Unplugged(s1, Place(b, n));
    if s.buses[b][n].plg {
      ks' := ks + [n];
      var id := s.buses[b][n].devid;
      assert s2.use == s1.use[id := false] && s2.sent == s1.sent + [Close(id)];
      FreedMore(s.buses[b], s.use, s1.use, ks, n);
      assert n in ks' && forall k :: k in ks' <==> k in ks || k == n;
    } else {
      ks' := ks;
    }
  }

  lemma {:induction false} VacateAll(s: Sys, b: nat, n: nat) returns (ks: seq<nat>)
    requires b in s.buses && n <= |s.buses[b]|
    requires forall k :: 0 <= k < |s.buses[b]| && s.buses[b][k].plg ==> s.buses[b][k].devid < |s.use|
    ensures Vacated(s, UnpluggedTo(s, b, n), b, n, ks)
  {
    if n == 0 {
      ks := [];
      assert forall k: nat :: k !in ks;
    } else {
      var ks0 := VacateAll(s, b, n - 1);
      hide Vacated, Unplugged;
      ks := VacateOne(s, UnpluggedTo(s, b, n - 1), b, n - 1, ks0);
    }
  }

  /** The end of a process vacates its bus. */
  lemma ExitMeans(s: Sys, b: nat) returns (ks: seq<nat>)
    requires b in s.buses && |s.buses[b]| == MAXBUSDEVS
    requires forall k :: 0 <= k < MAXBUSDEVS && s.buses[b][k].plg ==> s.buses[b][k].devid < |s.use|
    ensures Vacated(s, StepSys(s, ExitIt(b)), b, MAXBUSDEVS, ks)
  {
    hide Vacated, UnpluggedTo;
    ks := VacateAll(s, b, MAXBUSDEVS);
  }

  /** Runs follow one another. */
  lemma {:induction false} RunsCompose(s: Sys, a: seq<Call>, c: seq<Call>)
    ensures RunSys(s, a + c) == RunSys(RunSys(s, a), c)
    ensures forall x :: RunSys(s, [x]) == StepSys(s, x)
    decreases |c|
  {
    hide StepSys;
    forall x ensures RunSys(s, [x]) == StepSys(s, x) {
      assert [x][..0] == [];
    }
    if c == [] {
      assert a + c == a;
    } else {
      var n := |c| - 1;
      RunsCompose(s, a, c[..n]);
      assert (a + c)[..|a + c| - 1] == a + c[..n];
    }
  }

  class Machine {
    const ud: UsrDev
    var buses: Buses
    ghost var owner: map<nat, Place>

    ghost predicate Valid()
      reads this, ud
    {
      ud.Valid() && Owned(buses, ud.use, owner)
    }

    ghost function Now(): Sys
      reads this, ud
    {
      Sys(buses, ud.use, ud.polled + ud.ioreqs, |ud.polled|)
    }

    constructor (buses: Buses)
      requires forall b :: b in buses ==> buses[b] == seq(MAXBUSDEVS, i => UNPLUGGED)
      ensures Valid() && this.buses == buses && fresh(ud) && ud.polled == []
    {
      ud := new UsrDev();
      this.buses := buses;
      owner := map[];
    }

    /** Plug the device into the first free descriptor of a bus, if it is allowed. */
    method Plug(b: nat, allowed: bool) returns (r: Result, ghost id: nat)
      requires Valid() && b in buses
      modifies this, ud
      ensures Valid() && buses.Keys == old(buses.Keys) && ud.polled == old(ud.polled)
      ensures r.EMFILE? <==> forall k :: 0 <= k < 64 ==> old(buses)[b][k].plg
      ensures r.EACCES? <==> !r.EMFILE? && !allowed
      ensures r.ENFILE? <==> !r.EMFILE? && allowed && forall j :: 0 <= j < MAXUSRDEVREMS ==> old(ud.use)[j]
      ensures r.Ok? || r.EMFILE? || r.EACCES? || r.ENFILE?
      ensures r.Ok? ==> r.value < MAXBUSDEVS && !old(buses)[b][r.value].plg
                        && r.value == FirstDesc(old(buses)[b])
      ensures r.Ok? ==> id == First(old(ud.use)) < MAXUSRDEVREMS && !old(ud.use)[id] && ud.ioreqs == old(ud.ioreqs) + [Open(id)]
      ensures ud.use == if r.Ok? then old(ud.use)[id := true] else old(ud.use)
      ensures r.Ok? ==> buses == SetDesc(old(buses), Place(b, r.value), Desc(true, true, true, id))
      ensures !r.Ok? ==> buses == old(buses) && ud.ioreqs == old(ud.ioreqs)
      ensures Now() == StepSys(old(Now()), PlugIt(b, allowed))
    {
      hide Owned, InStep;
      Flags(buses, ud.use, owner, b);
      var i := 0;
      while i < MAXBUSDEVS && (buses[b][i].bsy || buses[b][i].dev)
        invariant 0 <= i <= MAXBUSDEVS && forall k :: 0 <= k < i ==> buses[b][k].plg
      {
        i := i + 1;
      }
      id := 0;
      if i >= MAXBUSDEVS {
        r := EMFILE;
        return;
      }
      HeldId(buses, ud.use, owner, Place(b, i));
      if !allowed {
        r := EACCES;
        return;
      }
      var devid := ud.DevOpen();
      if !devid.Ok? {
        r := devid;
        return;
      }
      id := devid.value;
      OwnMore(buses, old(ud.use), owner, Place(b, i), devid.value);
      owner := owner[devid.value := Place(b, i)];
      buses := SetDesc(buses, Place(b, i), Desc(true, true, true, devid.value));
      r := Ok(i);
    }

    /** Copy a descriptor to a chosen descriptor of another bus, as fork does for every one. */
    method Copy(b: nat, desc: nat, dstb: nat, dstdesc: nat) returns (r: Result, ghost id: nat)
      requires Valid() && b in buses && dstb in buses && dstdesc < MAXBUSDEVS
      modifies this, ud
      ensures Valid() && buses.Keys == old(buses.Keys) && ud.polled == old(ud.polled)
      ensures r.EBADF? <==> desc >= MAXBUSDEVS
      ensures r.EBUSY? <==> desc < MAXBUSDEVS && old(buses)[dstb][dstdesc].plg
      ensures r.ENOENT? <==> desc < MAXBUSDEVS && !old(buses)[dstb][dstdesc].plg && !old(buses)[b][desc].plg
      ensures r.Ok? ==> r.value == 0
      ensures r.Ok? || r.EBADF? || r.EBUSY? || r.ENOENT? || (r.ENFILE? && forall j :: 0 <= j < MAXUSRDEVREMS ==> old(ud.use)[j])
      ensures r.Ok? ==> id == First(old(ud.use)) < MAXUSRDEVREMS && !old(ud.use)[id]
      ensures ud.use == if r.Ok? then old(ud.use)[id := true] else old(ud.use)
      ensures r.Ok? ==> ud.ioreqs == old(ud.ioreqs) + [Clone(old(buses)[b][desc].devid, id)]
      ensures r.Ok? ==> buses == SetDesc(old(buses), Place(dstb, dstdesc), Desc(true, true, true, id))
      ensures !r.Ok? ==> buses == old(buses) && ud.ioreqs == old(ud.ioreqs)
      ensures Now() == Copied(old(Now()), Place(b, desc), Place(dstb, dstdesc))
    {
      hide Owned, InStep;
      Lengths(buses, ud.use, owner);
      id := 0;
      if desc >= MAXBUSDEVS {
        r := EBADF;
        return;
      }
      var dst := Place(dstb, dstdesc);
      HeldId(buses, ud.use, owner, dst);
      HeldId(buses, ud.use, owner, Place(b, desc));
      if buses[dstb][dstdesc].plg || buses[dstb][dstdesc].bsy {
        r := EBUSY;
        return;
      }
      var d := buses[b][desc];
      if !d.plg {
        r := ENOENT;
        return;
      }
      var devid := ud.DevClone(d.devid);
      if !devid.Ok? {
        r := devid;
        return;
      }
      id := devid.value;
      OwnMore(buses, old(ud.use), owner, dst, devid.value);
      owner := owner[devid.value := dst];
      buses := SetDesc(buses, dst, Desc(true, true, true, devid.value));
      r := Ok(0);
    }

    method Unplug(b: nat, desc: nat) returns (r: Result)
      requires Valid() && b in buses
      modifies this, ud
      ensures Valid() && buses.Keys == old(buses.Keys) && ud.polled == old(ud.polled)
      ensures r.EBADF? <==> desc >= MAXBUSDEVS
      ensures r.ENOENT? <==> desc < MAXBUSDEVS && !old(buses)[b][desc].plg
      ensures r.Ok? ==> r.value == 0
      ensures r.Ok? || r.EBADF? || r.ENOENT?
      ensures r.Ok? ==> desc < MAXBUSDEVS && buses == SetDesc(old(buses), Place(b, desc), UNPLUGGED)
                        && ud.ioreqs == old(ud.ioreqs) + [Close(old(buses)[b][desc].devid)]
                        && old(buses)[b][desc].devid < MAXUSRDEVREMS
                        && ud.use == old(ud.use)[old(buses)[b][desc].devid := false]
      ensures !r.Ok? ==> buses == old(buses) && ud.ioreqs == old(ud.ioreqs)
      ensures Now() == Unplugged(old(Now()), Place(b, desc))
    {
      hide Owned, InStep;
      Lengths(buses, ud.use, owner);
      if desc >= MAXBUSDEVS {
        return EBADF;
      }
      var p := Place(b, desc);
      HeldId(buses, ud.use, owner, p);
      var d := buses[b][desc];
      if !d.plg {
        OwnSame(buses, p);
        buses := SetDesc(buses, p, d.(bsy := false));
        return ENOENT;
      }
      OwnLess(buses, ud.use, owner, p);
      ud.DevClose(d.devid);
      owner := owner - {d.devid};
      buses := SetDesc(buses, p, UNPLUGGED);
      r := Ok(0);
    }

    method BusOut(b: nat, desc: nat, size: nat, port: nat, val: nat) returns (r: Result)
      requires Valid() && b in buses
      modifies ud
      ensures Valid() && ud.polled == old(ud.polled)
      ensures r.EBADF? <==> desc >= MAXBUSDEVS
      ensures r.ENOENT? <==> desc < MAXBUSDEVS && !buses[b][desc].plg
      ensures r.Ok? ==> r.value == 0
      ensures r.Ok? || r.EBADF? || r.ENOENT?
      ensures r.Ok? ==> desc < MAXBUSDEVS && ud.ioreqs == old(ud.ioreqs) + [Out(buses[b][desc].devid, size, port, val)]
      ensures !r.Ok? ==> ud.ioreqs == old(ud.ioreqs)
      ensures Now() == StepSys(old(Now()), OutIt(b, desc, size, port, val))
    {
      hide Owned, InStep;
      Lengths(buses, ud.use, owner);
      if desc >= MAXBUSDEVS {
        return EBADF;
      }
      HeldId(buses, ud.use, owner, Place(b, desc));
      if !buses[b][desc].plg {
        return ENOENT;
      }
      ud.DevOut(buses[b][desc].devid, size, port, val);
      r := Ok(0);
    }

    /** Unplug everything on a bus, as a dying process does. */
    method RemoveBus(b: nat)
      requires Valid() && b in buses
      modifies this, ud
      ensures Valid() && buses.Keys == old(buses.Keys) && ud.polled == old(ud.polled)
      ensures forall k :: 0 <= k < MAXBUSDEVS ==> !buses[b][k].plg
      ensures forall c :: c in buses && c != b ==> buses[c] == old(buses)[c]
      ensures Now() == UnpluggedTo(old(Now()), b, MAXBUSDEVS)
    {
      hide Owned, InStep, Unplugged;
      Lengths(buses, ud.use, owner);
      var i := 0;
      while i < MAXBUSDEVS
        invariant 0 <= i <= MAXBUSDEVS
        invariant Valid() && buses.Keys == old(buses.Keys) && ud.polled == old(ud.polled)
        invariant |buses[b]| == MAXBUSDEVS && forall k :: 0 <= k < i ==> !buses[b][k].plg
        invariant forall c :: c in buses && c != b ==> buses[c] == old(buses)[c]
        invariant Now() == UnpluggedTo(old(Now()), b, i)
      {
        var r := Unplug(b, i);
        Lengths(buses, ud.use, owner);
        i := i + 1;
      }
    }

    /** Copy every descriptor of a bus to the same place on another, as fork does.  A descriptor is
        left behind only if its place was taken, or if in the end every id is in use. */
    method ForkBus(b: nat, nb: nat)
      requires Valid() && b in buses && nb in buses && b != nb
      modifies this, ud
      ensures Valid() && buses.Keys == old(buses.Keys) && ud.polled == old(ud.polled)
      ensures buses[b] == old(buses)[b]
      ensures forall c :: c in buses && c != nb ==> buses[c] == old(buses)[c]
      ensures forall k :: 0 <= k < MAXBUSDEVS && old(buses)[nb][k].plg ==> buses[nb][k] == old(buses)[nb][k]
      ensures forall k :: 0 <= k < MAXBUSDEVS && !old(buses)[nb][k].plg && buses[nb][k].plg ==> buses[b][k].plg
      ensures forall k :: 0 <= k < MAXBUSDEVS && buses[b][k].plg && !buses[nb][k].plg ==>
                forall j :: 0 <= j < MAXUSRDEVREMS ==> ud.use[j]
      ensures Now() == CopiedTo(old(Now()), b, nb, MAXBUSDEVS)
    {
      hide Owned, InStep, Copied;
      Lengths(buses, ud.use, owner);
      var i := 0;
      while i < MAXBUSDEVS
        invariant 0 <= i <= MAXBUSDEVS
        invariant Valid() && buses.Keys == old(buses.Keys) && ud.polled == old(ud.polled) && buses[b] == old(buses)[b]
        invariant forall c :: c in buses ==> |buses[c]| == MAXBUSDEVS
        invariant forall k :: i <= k < MAXBUSDEVS ==> buses[nb][k] == old(buses)[nb][k]
        invariant forall c :: c in buses && c != nb ==> buses[c] == old(buses)[c]
        invariant forall k :: 0 <= k < i && old(buses)[nb][k].plg ==> buses[nb][k] == old(buses)[nb][k]
        invariant forall k :: 0 <= k < i && !old(buses)[nb][k].plg && buses[nb][k].plg ==> buses[b][k].plg
        invariant (exists k :: 0 <= k < i && buses[b][k].plg && !buses[nb][k].plg) ==>
                    forall j :: 0 <= j < MAXUSRDEVREMS ==> ud.use[j]
        invariant Now() == CopiedTo(old(Now()), b, nb, i)
      {
        ghost var id;
        var r;
        r, id := Copy(b, i, nb, i);
        Lengths(buses, ud.use, owner);
        i := i + 1;
      }
    }

    /** One call, by a process or the driver. */
    method Do(c: Call) returns (polled: seq<Event>)
      requires Valid()
      modifies this, ud
      ensures Valid() && Now() == StepSys(old(Now()), c)
      ensures ud.polled == old(ud.polled) + polled && (!c.PollIt? ==> polled == [])
      ensures c.PollIt? ==> polled == if old(ud.ioreqs) == [] then [] else [old(ud.ioreqs)[0]]
    {
      hide Owned, InStep, Given, Copied, Unplugged, CopiedTo, UnpluggedTo;
      polled := [];
      Lengths(buses, ud.use, owner);
      ghost var id;
      var r;
      match c {
        case PlugIt(b, allowed) => if b in buses { r, id := Plug(b, allowed); }
        case CopyIt(b, d, nb, nd) =>
          OffBus(Now(), b, d, nb, nd);
          if b in buses && nb in buses && nd < MAXBUSDEVS { r, id := Copy(b, d, nb, nd); }
        case UnplugIt(b, d) =>
          OffBus(Now(), b, d, b, d);
          if b in buses { r := Unplug(b, d); }
        case OutIt(b, d, size, port, val) => if b in buses { r := BusOut(b, d, size, port, val); }
        case ForkIt(b, nb) => if b in buses && nb in buses && b != nb { ForkBus(b, nb); }
        case ExitIt(b) =>
          if b in buses { RemoveBus(b); } else { NoBus(Now(), b, MAXBUSDEVS); }
        case PollIt =>
          var e := ud.Poll();
          polled := if e.Some? then [e.value] else [];
      }
    }

    /** Over any run of calls by any number of processes and the driver, all there is to see is what
        the calls make of it one by one.  The ids in use are exactly those held, each once, by plugged
        descriptors, and what the driver has polled is for every id a series of whole sessions and
        possibly an open one. */
    method Run(calls: seq<Call>) returns (polled: seq<Event>)
      requires Valid()
      modifies this, ud
      ensures Now() == RunSys(old(Now()), calls)
      ensures ud.polled == old(ud.polled) + polled
      ensures Valid() && forall i :: 0 <= i < MAXUSRDEVREMS ==> Orderly(ud.polled, i)
    {
      hide Owned, InStep, StepSys;
      polled := [];
      var k := 0;
      while k < |calls|
        invariant 0 <= k <= |calls| && Valid()
        invariant Now() == RunSys(old(Now()), calls[..k])
        invariant ud.polled == old(ud.polled) + polled
      {
        assert calls[..k + 1][..k] == calls[..k];
        var es := Do(calls[k]);
        polled := polled + es;
        k := k + 1;
      }
      assert calls[..k] == calls;
      PolledFine(ud.polled, ud.ioreqs, ud.use);
    }
  }

  /** Nothing is plugged off a bus. */
  lemma OffBus(s: Sys, b: nat, d: nat, nb: nat, nd: nat)
    ensures b !in s.buses ==> Copied(s, Place(b, d), Place(nb, nd)) == s && Unplugged(s, Place(b, d)) == s
    ensures nb !in s.buses || nd >= |s.buses[nb]| ==> Copied(s, Place(b, d), Place(nb, nd)) == s
  {
  }

  lemma {:induction false} NoBus(s: Sys, b: nat, n: nat)
    requires b !in s.buses
    ensures UnpluggedTo(s, b, n) == s
  {
    if n > 0 { NoBus(s, b, n - 1); }
  }
}
