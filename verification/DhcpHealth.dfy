/**
 dhcpmon as a state machine over packets and timer ticks: per-interface and aggregate counters,
 their snapshots, and the health checks
 (src/dhcpmon/src/dhcp_device.cpp, lines 126-163, 324-444 and 723-730;
 src/dhcpmon/src/dhcp_devman.cpp, lines 236-249; src/dhcpmon/src/dhcp_mon.cpp, lines 89-135).
 */
module DhcpHealth {

  import opened Wrappers

  datatype Direction = RX | TX

  const TYPES: nat := 9
  const SLOTS: nat := 18
  const WRAP: nat := 0x1_0000_0000_0000_0000

  // The monitored message types: discover, offer, request, ack.
  const monitored: seq<nat> := [1, 2, 3, 5]

  // The place of a message type and direction in a counter array.
  function Slot(dir: Direction, kind: nat): nat {
    if dir == RX then kind else TYPES + kind
  }

  // An interface: north or south, and the gateway address of the relay.
  datatype Port = Port(uplink: bool, giaddr: int)

  // A decoded packet: message type of option 53, direction, gateway address, destination address.
  datatype Message = Message(kind: nat, dir: Direction, giaddr: int, dst: int)

  const BROADCAST: int := 0xffff_ffff

  predicate FromClient(kind: nat) {
    kind == 1 || kind == 3 || kind == 4 || kind == 7 || kind == 8
  }

  predicate FromServer(kind: nat) {
    kind == 2 || kind == 5 || kind == 6
  }

  // Whether a message is counted on an interface.
  predicate Counts(p: Port, m: Message) {
    if FromClient(m.kind) then
      || (p.giaddr == m.giaddr && p.uplink && m.dir == TX)
      || (!p.uplink && m.dir == RX && m.dst == BROADCAST)
    else
      && FromServer(m.kind)
      && ((p.giaddr == m.dst && p.uplink && m.dir == RX) || (!p.uplink && m.dir == TX))
  }

  // Messages of clients count where they come in from the south as broadcasts and where the relay
  // sends them north under its address; messages of servers where they come in from the north to
  // that address and where they go out to the south. No other type counts anywhere.
  lemma CountedWhere(p: Port, m: Message)
    ensures m.kind in {1, 3, 4, 7, 8} && m.dir == RX ==> (Counts(p, m) <==> !p.uplink && m.dst == 0xffff_ffff)
    ensures m.kind in {1, 3, 4, 7, 8} && m.dir == TX ==> (Counts(p, m) <==> p.uplink && m.giaddr == p.giaddr)
    ensures m.kind in {2, 5, 6} && m.dir == RX ==> (Counts(p, m) <==> p.uplink && m.dst == p.giaddr)
    ensures m.kind in {2, 5, 6} && m.dir == TX ==> (Counts(p, m) <==> !p.uplink)
    ensures m.kind !in {1, 2, 3, 4, 5, 6, 7, 8} ==> !Counts(p, m)
  {
  }

  // The checks look at discover, offer, request and ack, each once, and every message type has a
  // counter of its own in each direction.
  lemma MonitoredSlots(dir: Direction, kind: nat, dir': Direction, kind': nat)
    requires kind < TYPES && kind' < TYPES
    ensures kind in monitored <==> kind in {1, 2, 3, 5}
    ensures |monitored| == 4 && Slot(dir, kind) < SLOTS
    ensures Slot(dir, kind) == Slot(dir', kind') ==> dir == dir' && kind == kind'
  {
    assert monitored[0] == 1 && monitored[1] == 2 && monitored[2] == 3 && monitored[3] == 5;
  }

  // ----- counters -----

  type Counters = s: seq<nat> | |s| == SLOTS witness seq(SLOTS, i => 0)

  datatype Tally = Tally(current: Counters, snapshot: Counters)

  const zero: Counters := seq(SLOTS, i => 0)

  // A 64-bit increment.
  function Bump(c: Counters, s: nat): Counters
    requires s < SLOTS
  {
    c[s := (c[s] + 1) % WRAP]
  }

  function Counted(t: Tally, s: nat): Tally
    requires s < SLOTS
  {
    t.(current := Bump(t.current, s))
  }

  function Saved(t: Tally): Tally {
    t.(snapshot := t.current)
  }

  // ----- health -----

  datatype Status = HEALTHY | UNHEALTHY | INDETERMINATE
  datatype Check = POSITIVE | NEGATIVE

  predicate Same(t: Tally, s: nat)
    requires s < SLOTS
  {
    t.current[s] == t.snapshot[s]
  }

  predicate More(t: Tally, s: nat)
    requires s < SLOTS
  {
    t.current[s] > t.snapshot[s]
  }

  predicate Inactive(t: Tally) {
    forall i :: 0 <= i < |monitored| ==> Same(t, Slot(RX, monitored[i]))
  }

  // Some monitored message came in and none of its type went out.
  predicate NotRelayed(t: Tally) {
    exists i :: 0 <= i < |monitored| && More(t, Slot(RX, monitored[i])) && !More(t, Slot(TX, monitored[i]))
  }

  // Some monitored message went out.
  predicate Leaking(t: Tally) {
    exists i :: 0 <= i < |monitored| && More(t, Slot(TX, monitored[i]))
  }

  // `dhcp_device_get_status` of a device, or of none.
  function StatusOf(check: Check, aggregate: Tally, t: Option<Tally>): Status {
    if t.None? then HEALTHY
    else if Inactive(aggregate) then INDETERMINATE
    else if (if check == POSITIVE then NotRelayed(t.value) else Leaking(t.value)) then UNHEALTHY
    else HEALTHY
  }

  // The count of unhealthy checks after one more check.
  function NextCount(count: nat, s: Status): nat {
    match s
    case UNHEALTHY => count + 1
    case HEALTHY => 0
    case INDETERMINATE => if count == 0 then 0 else count + 1
  }

  predicate Alarm(count: nat, s: Status, max: nat) {
    s == UNHEALTHY && NextCount(count, s) > max
  }

  // ----- the state machine -----

  datatype Config = Config(ports: seq<Port>, mgmt: Option<nat>) {
    predicate Valid() {
      mgmt.Some? ==> mgmt.value < |ports|
    }
  }

  datatype State = State(aggregate: Tally, devs: seq<Tally>, positive: nat, negative: nat)

  datatype Event = Received(dev: nat, m: Message) | Tick

  predicate Happens(c: Config, e: Event) {
    e.Received? ==> e.dev < |c.ports|
  }

  predicate AllHappen(c: Config, h: seq<Event>) {
    forall k :: 0 <= k < |h| ==> Happens(c, h[k])
  }

  function Start(c: Config): State {
    State(Tally(zero, zero), seq(|c.ports|, i => Tally(zero, zero)), 0, 0)
  }

  // `handle_dhcp_option_53`.
  function Handle(c: Config, s: State, dev: nat, m: Message): State
    requires dev < |c.ports| == |s.devs|
  {
    if Counts(c.ports[dev], m) then
      var slot := Slot(m.dir, m.kind);
      s.(aggregate := Counted(s.aggregate, slot), devs := s.devs[dev := Counted(s.devs[dev], slot)])
    else s
  }

  function Mgmt(c: Config, s: State): Option<Tally>
    requires c.Valid() && |c.ports| == |s.devs|
  {
    if c.mgmt.None? then None else Some(s.devs[c.mgmt.value])
  }

  function Target(c: Config, s: State, check: Check): Option<Tally>
    requires c.Valid() && |c.ports| == |s.devs|
  {
    if check == POSITIVE then Some(s.aggregate) else Mgmt(c, s)
  }

  function CheckStatus(c: Config, s: State, check: Check): Status
    requires c.Valid() && |c.ports| == |s.devs|
  {
    StatusOf(check, s.aggregate, Target(c, s, check))
  }

  // `timeout_callback`.
  function OnTick(c: Config, s: State): State
    requires c.Valid() && |c.ports| == |s.devs|
  {
    State(Saved(s.aggregate), seq(|s.devs|, i requires 0 <= i < |s.devs| => Saved(s.devs[i])),
          NextCount(s.positive, CheckStatus(c, s, POSITIVE)), NextCount(s.negative, CheckStatus(c, s, NEGATIVE)))
  }

  function Step(c: Config, s: State, e: Event): State
    requires c.Valid() && |c.ports| == |s.devs| && Happens(c, e)
  {
    match e
    case Received(dev, m) => Handle(c, s, dev, m)
    case Tick => OnTick(c, s)
  }

  function Run(c: Config, h: seq<Event>): (s: State)
    requires c.Valid() && AllHappen(c, h)
    ensures |s.devs| == |c.ports|
    decreases |h|
  {
    if h == [] then Start(c) else Step(c, Run(c, h[..|h| - 1]), h[|h| - 1])
  }

  // ----- what the packets of a history amount to -----

  // 1 if the event is counted at the slot of the interface.
  function One(c: Config, e: Event, dev: nat, s: nat): nat
    requires dev < |c.ports|
  {
    if e.Received? && e.dev == dev && Counts(c.ports[dev], e.m) && Slot(e.m.dir, e.m.kind) == s then 1 else 0
  }

  function Total(c: Config, h: seq<Event>, dev: nat, s: nat): nat
    requires dev < |c.ports|
  {
    if h == [] then 0 else Total(c, h[..|h| - 1], dev, s) + One(c, h[|h| - 1], dev, s)
  }

  // The sum over the first n interfaces.
  function Sum(c: Config, h: seq<Event>, n: nat, s: nat): nat
    requires n <= |c.ports|
  {
    if n == 0 then 0 else Sum(c, h, n - 1, s) + Total(c, h, n - 1, s)
  }

  // The history up to its last tick.
  function BeforeTick(h: seq<Event>): (r: seq<Event>)
    ensures r <= h
  {
    if h == [] then [] else if h[|h| - 1] == Tick then h else BeforeTick(h[..|h| - 1])
  }

  lemma {:induction false} SumStep(c: Config, h: seq<Event>, n: nat, s: nat)
    requires n <= |c.ports| && h != [] && Happens(c, h[|h| - 1])
    ensures var e := h[|h| - 1];
            Sum(c, h, n, s)
            == Sum(c, h[..|h| - 1], n, s) + if e.Received? && e.dev < n then One(c, e, e.dev, s) else 0
  {
    if n != 0 {
      SumStep(c, h, n - 1, s);
    }
  }

  lemma {:induction false} SumOfNone(c: Config, n: nat, s: nat)
    requires n <= |c.ports|
    ensures Sum(c, [], n, s) == 0
  {
    if n != 0 {
      SumOfNone(c, n - 1, s);
    }
  }

  function Wrap(x: nat): nat {
    x % WRAP
  }

  lemma WrapStep(x: nat, d: nat)
    ensures Wrap(Wrap(x) + d) == Wrap(x + d)
  {
  }

  // What one packet does to a counter of an interface and of the aggregate.
  lemma HandleAt(c: Config, s: State, e: Event, dev: nat, k: nat)
    requires e.Received? && e.dev < |c.ports| == |s.devs| && dev < |c.ports| && k < SLOTS
    requires s.devs[dev].current[k] < WRAP && s.aggregate.current[k] < WRAP
    ensures var s' := Handle(c, s, e.dev, e.m);
            && s'.devs[dev].current[k] == Wrap(s.devs[dev].current[k] + One(c, e, dev, k))
            && s'.aggregate.current[k] == Wrap(s.aggregate.current[k] + One(c, e, e.dev, k))
            && s'.devs[dev].snapshot == s.devs[dev].snapshot
            && s'.aggregate.snapshot == s.aggregate.snapshot
  {
  }

  // In every run, each counter of an interface holds the packets counted there, and each snapshot
  // those of them up to the last tick, modulo the counter width.
  lemma {:induction false} DeviceTally(c: Config, h: seq<Event>, dev: nat, s: nat)
    requires c.Valid() && AllHappen(c, h) && dev < |c.ports| && s < SLOTS
    ensures Run(c, h).devs[dev].current[s] == Wrap(Total(c, h, dev, s))
    ensures Run(c, h).devs[dev].snapshot[s] == Wrap(Total(c, BeforeTick(h), dev, s))
    decreases |h|
  {
    if h != [] {
      var before, e := h[..|h| - 1], h[|h| - 1];
      DeviceTally(c, before, dev, s);
      if e.Received? {
        AggregateTally(c, before, s);
        DevicePacket(c, Run(c, before), e, dev, s, Total(c, before, dev, s));
      }
    }
  }

  // One more packet.
  lemma DevicePacket(c: Config, st: State, e: Event, dev: nat, s: nat, total: nat)
    requires e.Received? && Happens(c, e) && dev < |st.devs| == |c.ports| && s < SLOTS
    requires st.devs[dev].current[s] == Wrap(total) && st.aggregate.current[s] < WRAP
    ensures var r := Handle(c, st, e.dev, e.m).devs[dev];
            r.current[s] == Wrap(total + One(c, e, dev, s)) && r.snapshot == st.devs[dev].snapshot
  {
    HandleAt(c, st, e, dev, s);
    WrapStep(total, One(c, e, dev, s));
  }

  // The aggregate holds the sums over the interfaces.
  lemma {:induction false} AggregateTally(c: Config, h: seq<Event>, s: nat)
    requires c.Valid() && AllHappen(c, h) && s < SLOTS
    ensures Run(c, h).aggregate.current[s] == Wrap(Sum(c, h, |c.ports|, s))
    ensures Run(c, h).aggregate.snapshot[s] == Wrap(Sum(c, BeforeTick(h), |c.ports|, s))
    decreases |h|
  {
    SumOfNone(c, |c.ports|, s);
    if h != [] {
      var before, e := h[..|h| - 1], h[|h| - 1];
      AggregateTally(c, before, s);
      SumStep(c, h, |c.ports|, s);
      assert Run(c, h) == Step(c, Run(c, before), e);
      if e.Received? {
        DeviceTally(c, before, e.dev, s);
        AggregatePacket(c, Run(c, before), e, s, Sum(c, before, |c.ports|, s));
      }
    }
  }

  lemma AggregatePacket(c: Config, st: State, e: Event, s: nat, sum: nat)
    requires e.Received? && Happens(c, e) && |st.devs| == |c.ports| && s < SLOTS
    requires st.aggregate.current[s] == Wrap(sum) && st.devs[e.dev].current[s] < WRAP
    ensures var r := Handle(c, st, e.dev, e.m).aggregate;
            r.current[s] == Wrap(sum + One(c, e, e.dev, s)) && r.snapshot == st.aggregate.snapshot
  {
    HandleAt(c, st, e, e.dev, s);
    WrapStep(sum, One(c, e, e.dev, s));
  }

  // ----- what was counted since the last tick -----

  lemma {:induction false} TotalGrows(c: Config, h: seq<Event>, dev: nat, s: nat)
    requires dev < |c.ports|
    ensures Total(c, BeforeTick(h), dev, s) <= Total(c, h, dev, s)
    decreases |h|
  {
    if h != [] {
      TotalGrows(c, h[..|h| - 1], dev, s);
    }
  }

  // The packets counted at a slot of an interface since the last tick.
  function Window(c: Config, h: seq<Event>, dev: nat, s: nat): nat
    requires dev < |c.ports|
  {
    TotalGrows(c, h, dev, s);
    Total(c, h, dev, s) - Total(c, BeforeTick(h), dev, s)
  }

  // The packets counted at a slot on all of the first n interfaces since the last tick.
  function WindowSum(c: Config, h: seq<Event>, n: nat, s: nat): nat
    requires n <= |c.ports|
  {
    if n == 0 then 0 else WindowSum(c, h, n - 1, s) + Window(c, h, n - 1, s)
  }

  lemma {:induction false} SumSplits(c: Config, h: seq<Event>, n: nat, s: nat)
    requires n <= |c.ports|
    ensures Sum(c, h, n, s) == Sum(c, BeforeTick(h), n, s) + WindowSum(c, h, n, s)
  {
    if n != 0 {
      SumSplits(c, h, n - 1, s);
    }
  }

  lemma {:induction false} WindowPart(c: Config, h: seq<Event>, n: nat, dev: nat, s: nat)
    requires dev < n <= |c.ports|
    ensures Window(c, h, dev, s) <= WindowSum(c, h, n, s)
  {
    if dev < n - 1 {
      WindowPart(c, h, n - 1, dev, s);
    }
  }

  lemma {:induction false} WindowAny(c: Config, h: seq<Event>, n: nat, s: nat)
    requires n <= |c.ports|
    ensures WindowSum(c, h, n, s) == 0 <==> forall dev :: 0 <= dev < n ==> Window(c, h, dev, s) == 0
  {
    if n != 0 {
      WindowAny(c, h, n - 1, s);
    }
  }

  // Wrapped counters differ exactly when fewer than 2^64 packets, and not none, came between.
  lemma WrapSame(a: nat, d: nat)
    requires d < WRAP
    ensures Wrap(a + d) == Wrap(a) <==> d == 0
  {
  }

  lemma WrapSmall(a: nat)
    requires a < WRAP
    ensures Wrap(a) == a
  {
  }

  // While a counter has not wrapped, it is ahead of its snapshot exactly by the window.
  lemma DeviceWindow(c: Config, h: seq<Event>, dev: nat, s: nat)
    requires c.Valid() && AllHappen(c, h) && dev < |c.ports| && s < SLOTS
    requires Total(c, h, dev, s) < WRAP
    ensures var t := Run(c, h).devs[dev]; t.current[s] == t.snapshot[s] + Window(c, h, dev, s)
  {
    DeviceTally(c, h, dev, s);
    TotalGrows(c, h, dev, s);
    WrapSmall(Total(c, h, dev, s));
    WrapSmall(Total(c, BeforeTick(h), dev, s));
  }

  lemma AggregateWindow(c: Config, h: seq<Event>, s: nat)
    requires c.Valid() && AllHappen(c, h) && s < SLOTS
    requires Sum(c, h, |c.ports|, s) < WRAP
    ensures var t := Run(c, h).aggregate; t.current[s] == t.snapshot[s] + WindowSum(c, h, |c.ports|, s)
  {
    AggregateTally(c, h, s);
    SumSplits(c, h, |c.ports|, s);
    WrapSmall(Sum(c, h, |c.ports|, s));
    WrapSmall(Sum(c, BeforeTick(h), |c.ports|, s));
  }

  // The aggregate is inactive exactly when every interface is, as long as no more than 2^64 - 1
  // packets of a kind fall between two ticks; the counters may have wrapped any number of times.
  lemma InactiveTogether(c: Config, h: seq<Event>)
    requires c.Valid() && AllHappen(c, h)
    requires forall i :: 0 <= i < |monitored| ==> WindowSum(c, h, |c.ports|, Slot(RX, monitored[i])) < WRAP
    ensures Inactive(Run(c, h).aggregate) <==> forall dev :: 0 <= dev < |c.ports| ==> Inactive(Run(c, h).devs[dev])
  {
    var n := |c.ports|;
    forall i | 0 <= i < |monitored|
      ensures Same(Run(c, h).aggregate, Slot(RX, monitored[i]))
         <==> forall dev :: 0 <= dev < n ==> Same(Run(c, h).devs[dev], Slot(RX, monitored[i]))
    {
      SameTogether(c, h, Slot(RX, monitored[i]));
    }
  }

  lemma SameTogether(c: Config, h: seq<Event>, s: nat)
    requires c.Valid() && AllHappen(c, h) && s < SLOTS
    requires WindowSum(c, h, |c.ports|, s) < WRAP
    ensures Same(Run(c, h).aggregate, s) <==> WindowSum(c, h, |c.ports|, s) == 0
    ensures Same(Run(c, h).aggregate, s) <==> forall dev :: 0 <= dev < |c.ports| ==> Same(Run(c, h).devs[dev], s)
  {
    var n := |c.ports|;
    AggregateTally(c, h, s);
    SumSplits(c, h, n, s);
    WrapSame(Sum(c, BeforeTick(h), n, s), WindowSum(c, h, n, s));
    forall dev | 0 <= dev < n ensures Same(Run(c, h).devs[dev], s) <==> Window(c, h, dev, s) == 0 {
      DeviceSame(c, h, dev, s);
    }
    WindowAny(c, h, n, s);
  }

  lemma DeviceSame(c: Config, h: seq<Event>, dev: nat, s: nat)
    requires c.Valid() && AllHappen(c, h) && dev < |c.ports| && s < SLOTS
    requires WindowSum(c, h, |c.ports|, s) < WRAP
    ensures Same(Run(c, h).devs[dev], s) <==> Window(c, h, dev, s) == 0
  {
    DeviceTally(c, h, dev, s);
    WindowPart(c, h, |c.ports|, dev, s);
    WrapSame(Total(c, BeforeTick(h), dev, s), Window(c, h, dev, s));
  }

  // ----- what a check means in terms of the packets -----

  ghost predicate NoWrap(c: Config, h: seq<Event>) {
    forall s {:trigger Sum(c, h, |c.ports|, s)} :: 0 <= s < SLOTS ==> Sum(c, h, |c.ports|, s) < WRAP
  }

  lemma {:induction false} TotalPart(c: Config, h: seq<Event>, n: nat, dev: nat, s: nat)
    requires dev < n <= |c.ports|
    ensures Total(c, h, dev, s) <= Sum(c, h, n, s)
  {
    if dev < n - 1 {
      TotalPart(c, h, n - 1, dev, s);
    }
  }

  // In the window some interface received a message of the type.
  ghost predicate Got(c: Config, h: seq<Event>, dir: Direction, kind: nat) {
    exists dev :: 0 <= dev < |c.ports| && 0 < Window(c, h, dev, Slot(dir, kind))
  }

  lemma GotAggregate(c: Config, h: seq<Event>, dir: Direction, kind: nat)
    requires c.Valid() && AllHappen(c, h) && NoWrap(c, h) && kind < TYPES
    ensures More(Run(c, h).aggregate, Slot(dir, kind)) <==> Got(c, h, dir, kind)
    ensures !Same(Run(c, h).aggregate, Slot(dir, kind)) <==> Got(c, h, dir, kind)
  {
    var s := Slot(dir, kind);
    assert Sum(c, h, |c.ports|, s) < WRAP;
    AggregateWindow(c, h, s);
    WindowAny(c, h, |c.ports|, s);
  }

  // The check of the relay: indeterminate when no monitored message came in anywhere since the last
  // tick, unhealthy when one came in and none of its type went out anywhere.
  lemma PositiveMeaning(c: Config, h: seq<Event>)
    requires c.Valid() && AllHappen(c, h) && NoWrap(c, h)
    ensures CheckStatus(c, Run(c, h), POSITIVE)
         == if forall i :: 0 <= i < |monitored| ==> !Got(c, h, RX, monitored[i]) then INDETERMINATE
            else if exists i :: 0 <= i < |monitored| && Got(c, h, RX, monitored[i])
                                && !Got(c, h, TX, monitored[i]) then UNHEALTHY
            else HEALTHY
  {
    forall i | 0 <= i < |monitored|
      ensures Same(Run(c, h).aggregate, Slot(RX, monitored[i])) <==> !Got(c, h, RX, monitored[i])
      ensures More(Run(c, h).aggregate, Slot(RX, monitored[i])) <==> Got(c, h, RX, monitored[i])
      ensures More(Run(c, h).aggregate, Slot(TX, monitored[i])) <==> Got(c, h, TX, monitored[i])
    {
      GotAggregate(c, h, RX, monitored[i]);
      GotAggregate(c, h, TX, monitored[i]);
    }
  }

  // The check of the management interface: unhealthy when some monitored message came in anywhere
  // and some monitored message went out there; always healthy without such an interface.
  lemma NegativeMeaning(c: Config, h: seq<Event>)
    requires c.Valid() && AllHappen(c, h) && NoWrap(c, h)
    ensures CheckStatus(c, Run(c, h), NEGATIVE)
         == if c.mgmt.None? then HEALTHY
            else if forall i :: 0 <= i < |monitored| ==> !Got(c, h, RX, monitored[i]) then INDETERMINATE
            else if exists i :: 0 <= i < |monitored|
                                && 0 < Window(c, h, c.mgmt.value, Slot(TX, monitored[i])) then UNHEALTHY
            else HEALTHY
  {
    forall i | 0 <= i < |monitored|
      ensures Same(Run(c, h).aggregate, Slot(RX, monitored[i])) <==> !Got(c, h, RX, monitored[i])
      ensures c.mgmt.Some? ==>
                (More(Run(c, h).devs[c.mgmt.value], Slot(TX, monitored[i])) <==>
                 0 < Window(c, h, c.mgmt.value, Slot(TX, monitored[i])))
    {
      GotAggregate(c, h, RX, monitored[i]);
      if c.mgmt.Some? {
        var s := Slot(TX, monitored[i]);
        assert Sum(c, h, |c.ports|, s) < WRAP;
        TotalPart(c, h, |c.ports|, c.mgmt.value, s);
        DeviceWindow(c, h, c.mgmt.value, s);
      }
    }
  }

  // ----- counts and alarms over the ticks of a run -----

  // The outcomes of a check at the ticks of a history.
  function Log(c: Config, h: seq<Event>, check: Check): seq<Status>
    requires c.Valid() && AllHappen(c, h)
    decreases |h|
  {
    if h == [] then []
    else
      var before := h[..|h| - 1];
      Log(c, before, check) + if h[|h| - 1] == Tick then [CheckStatus(c, Run(c, before), check)] else []
  }

  // The first tick of the present streak: the first unhealthy one after the last healthy one, or
  // the number of ticks if there is none.
  function StreakStart(log: seq<Status>): (p: nat)
    ensures p <= |log|
  {
    if log == [] then 0
    else
      var n := |log| - 1;
      NextStart(StreakStart(log[..n]), n, log[n])
  }

  // The same after the tick number n.
  function NextStart(p: nat, n: nat, s: Status): (r: nat)
    requires p <= n
    ensures r <= n + 1
  {
    match s
    case HEALTHY => n + 1
    case UNHEALTHY => p
    case INDETERMINATE => if p == n then n + 1 else p
  }

  // What the first tick of the present streak is: unhealthy, with no healthy tick since, and with a
  // healthy tick after every unhealthy one before it.
  lemma {:induction false} StreakIs(log: seq<Status>)
    ensures var p := StreakStart(log);
            && (p < |log| ==> log[p] == UNHEALTHY) && (forall k :: p <= k < |log| ==> log[k] != HEALTHY)
            && forall q :: 0 <= q < p && log[q] == UNHEALTHY ==> exists k :: q < k < |log| && log[k] == HEALTHY
  {
    if log != [] {
      var n := |log| - 1;
      var front := log[..n];
      StreakIs(front);
      forall q | 0 <= q < StreakStart(log) && log[q] == UNHEALTHY
        ensures exists k :: q < k < |log| && log[k] == HEALTHY
      {
        if log[n] != HEALTHY {
          assert front[q] == UNHEALTHY;
          var k :| q < k < |front| && front[k] == HEALTHY;
          assert log[k] == HEALTHY;
        }
      }
    }
  }

  // In every run, the count of a check is the number of ticks of the present streak.
  lemma {:induction false} CountIsStreak(c: Config, h: seq<Event>)
    requires c.Valid() && AllHappen(c, h)
    ensures Run(c, h).positive == |Log(c, h, POSITIVE)| - StreakStart(Log(c, h, POSITIVE))
    ensures Run(c, h).negative == |Log(c, h, NEGATIVE)| - StreakStart(Log(c, h, NEGATIVE))
    decreases |h|
  {
    if h != [] {
      var before := h[..|h| - 1];
      CountIsStreak(c, before);
      if h[|h| - 1] == Tick {
        LogStep(c, h, POSITIVE);
        LogStep(c, h, NEGATIVE);
      } else {
        assert Log(c, h, POSITIVE) == Log(c, before, POSITIVE) && Log(c, h, NEGATIVE) == Log(c, before, NEGATIVE);
      }
    }
  }

  // The streak of a check after a tick.
  lemma LogStep(c: Config, h: seq<Event>, check: Check)
    requires c.Valid() && AllHappen(c, h) && h != [] && h[|h| - 1] == Tick
    ensures var before := h[..|h| - 1];
            |Log(c, h, check)| - StreakStart(Log(c, h, check))
            == NextCount(|Log(c, before, check)| - StreakStart(Log(c, before, check)),
                         CheckStatus(c, Run(c, before), check))
  {
    var before := h[..|h| - 1];
    StreakStep(Log(c, h, check), Log(c, before, check), CheckStatus(c, Run(c, before), check));
  }

  // The streak after one more tick.
  lemma StreakStep(all: seq<Status>, log: seq<Status>, s: Status)
    requires all != [] && all[..|all| - 1] == log && all[|all| - 1] == s
    ensures |all| - StreakStart(all) == NextCount(|log| - StreakStart(log), s)
  {
    assert StreakStart(all) == NextStart(StreakStart(log), |log|, s);
  }

  // The last tick is unhealthy and ends a stretch of more than `max` ticks that begins unhealthy and
  // has no healthy tick.
  ghost predicate Overdue(all: seq<Status>, max: nat) {
    && all != [] && all[|all| - 1] == UNHEALTHY
    && exists q :: 0 <= q < |all| - max && Unrecovered(all, q)
  }

  // The tick is unhealthy, and none since is healthy.
  ghost predicate Unrecovered(all: seq<Status>, q: nat) {
    q < |all| && all[q] == UNHEALTHY && forall k :: q <= k < |all| ==> all[k] != HEALTHY
  }

  lemma AlarmExact(all: seq<Status>, log: seq<Status>, s: Status, max: nat)
    requires all != [] && all[..|all| - 1] == log && all[|all| - 1] == s
    ensures Alarm(|log| - StreakStart(log), s, max) <==> Overdue(all, max)
  {
    StreakStep(all, log, s);
    LongStreak(all, max);
  }

  lemma LongStreak(all: seq<Status>, max: nat)
    requires all != []
    ensures Overdue(all, max) <==> all[|all| - 1] == UNHEALTHY && StreakStart(all) < |all| - max
  {
    StreakIs(all);
    if q: nat :| q < |all| - max && Unrecovered(all, q) {
      assert StreakStart(all) <= q;
    }
    assert StreakStart(all) < |all| ==> Unrecovered(all, StreakStart(all));
  }

  function CountOf(s: State, check: Check): nat {
    if check == POSITIVE then s.positive else s.negative
  }

  // In every run, a tick raises an alarm exactly when it is unhealthy and ends a stretch of more
  // than `max` ticks that begins unhealthy and has no healthy tick.
  lemma AlarmInRun(c: Config, h: seq<Event>, check: Check, max: nat)
    requires c.Valid() && AllHappen(c, h)
    ensures var s := Run(c, h);
            var status := CheckStatus(c, s, check);
            Alarm(CountOf(s, check), status, max) <==> Overdue(Log(c, h, check) + [status], max)
  {
    CountIsStreak(c, h);
    var log, status := Log(c, h, check), CheckStatus(c, Run(c, h), check);
    AlarmExact(log + [status], log, status, max);
  }
}
