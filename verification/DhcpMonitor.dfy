/**
 dhcpmon's devices in memory: counter arrays updated in place, the loops of the health checks, and
 the timer callback. Each method is tied to the step of the state machine it performs
 (src/dhcpmon/src/dhcp_device.cpp, lines 126-163, 324-444, 707-730;
 src/dhcpmon/src/dhcp_devman.cpp, lines 51-66 and 236-249; src/dhcpmon/src/dhcp_mon.cpp, lines 89-135).
 */
module DhcpMonitor {
  import opened Wrappers
  import opened DhcpHealth

  class Device {
    const port: Port
    const current: array<nat>
    const snapshot: array<nat>

    constructor (port: Port)
      ensures this.port == port && fresh(current) && fresh(snapshot) && current != snapshot
      ensures Shows(this, Tally(zero, zero))
    {
      this.port := port;
      current := new nat[SLOTS](i => 0);
      snapshot := new nat[SLOTS](i => 0);
      new;
      assert current[..] == zero && snapshot[..] == zero;
    }
  }

  ghost predicate Shows(d: Device, t: Tally)
    reads d.current, d.snapshot
  {
    d.current[..] == t.current && d.snapshot[..] == t.snapshot
  }

  // No two counter arrays are the same.
  ghost predicate Apart(ds: seq<Device>) {
    && (forall i, j :: 0 <= i < |ds| && 0 <= j < |ds| ==> ds[i].current != ds[j].snapshot)
    && (forall i, j :: 0 <= i < j < |ds| ==> ds[i].current != ds[j].current)
    && (forall i, j :: 0 <= i < j < |ds| ==> ds[i].snapshot != ds[j].snapshot)
  }

  method Increment(a: array<nat>, slot: nat, ghost c: Counters)
    requires a[..] == c && slot < SLOTS
    modifies a
    ensures a[..] == Bump(c, slot)
  {
    a[slot] := (a[slot] + 1) % WRAP;
  }

  // `handle_dhcp_option_53`.
  method HandleOption53(context: Device, aggregate: Device, m: Message, ghost t: Tally, ghost agg: Tally)
    requires Shows(context, t) && Shows(aggregate, agg) && Apart([context, aggregate])
    modifies context.current, aggregate.current
    ensures var counted := Counts(context.port, m);
            && Shows(context, if counted then Counted(t, Slot(m.dir, m.kind)) else t)
            && Shows(aggregate, if counted then Counted(agg, Slot(m.dir, m.kind)) else agg)
  {
    var p := context.port;
    var counted: bool;
    match m.kind {
      case 1 | 3 | 4 | 7 | 8 =>
        counted := (p.giaddr == m.giaddr && p.uplink && m.dir == TX)
                   || (!p.uplink && m.dir == RX && m.dst == BROADCAST);
      case 2 | 5 | 6 =>
        counted := (p.giaddr == m.dst && p.uplink && m.dir == RX) || (!p.uplink && m.dir == TX);
      case _ =>
        counted := false;
    }
    assert counted == Counts(p, m);
    if counted {
      var ds := [context, aggregate];
      assert ds[0].current != ds[1].current && ds[0].current != ds[1].snapshot && ds[1].current != ds[0].snapshot;
      assert ds[0].current != ds[0].snapshot && ds[1].current != ds[1].snapshot;
      Increment(context.current, Slot(m.dir, m.kind), t.current);
      Increment(aggregate.current, Slot(m.dir, m.kind), agg.current);
    }
  }

  // `dhcp_device_is_dhcp_inactive`.
  method IsInactive(d: Device, ghost t: Tally) returns (rv: bool)
    requires Shows(d, t)
    ensures rv == Inactive(t)
  {
    rv := true;
    var i := 0;
    while i < |monitored| && rv
      invariant 0 <= i <= |monitored|
      invariant rv == forall k :: 0 <= k < i ==> Same(t, Slot(RX, monitored[k]))
    {
      var s := Slot(RX, monitored[i]);
      rv := d.current[s] == d.snapshot[s];
      assert rv == Same(t, s);
      i := i + 1;
    }
  }

  // `dhcp_device_check_positive_health`, with the test of one message type.
  method CheckPositive(d: Device, ghost t: Tally) returns (unhealthy: bool)
    requires Shows(d, t)
    ensures unhealthy == NotRelayed(t)
  {
    unhealthy := false;
    var i := 0;
    while i < |monitored| && !unhealthy
      invariant 0 <= i <= |monitored|
      invariant unhealthy == exists k :: 0 <= k < i && More(t, Slot(RX, monitored[k]))
                                         && !More(t, Slot(TX, monitored[k]))
    {
      var rx, tx := Slot(RX, monitored[i]), Slot(TX, monitored[i]);
      unhealthy := d.current[rx] > d.snapshot[rx] && d.current[tx] <= d.snapshot[tx];
      assert unhealthy == (More(t, rx) && !More(t, tx));
      i := i + 1;
    }
  }

  // `dhcp_device_check_negative_health`.
  method CheckNegative(d: Device, ghost t: Tally) returns (unhealthy: bool)
    requires Shows(d, t)
    ensures unhealthy == Leaking(t)
  {
    unhealthy := false;
    var i := 0;
    while i < |monitored| && !unhealthy
      invariant 0 <= i <= |monitored|
      invariant unhealthy == exists k :: 0 <= k < i && More(t, Slot(TX, monitored[k]))
    {
      var tx := Slot(TX, monitored[i]);
      unhealthy := d.current[tx] > d.snapshot[tx];
      assert unhealthy == More(t, tx);
      i := i + 1;
    }
  }

  // `dhcp_device_get_status` and `dhcp_device_check_health`.
  method GetStatus(check: Check, d: Device?, aggregate: Device, ghost t: Option<Tally>, ghost agg: Tally)
    returns (rv: Status)
    requires Shows(aggregate, agg)
    requires d == null <==> t == None
    requires d != null ==> Shows(d, t.value)
    ensures rv == StatusOf(check, agg, t)
  {
    if d == null {
      return HEALTHY;
    }
    var inactive := IsInactive(aggregate, agg);
    if inactive {
      return INDETERMINATE;
    }
    var unhealthy;
    if check == POSITIVE {
      unhealthy := CheckPositive(d, t.value);
    } else {
      unhealthy := CheckNegative(d, t.value);
    }
    rv := if unhealthy then UNHEALTHY else HEALTHY;
  }

  // `dhcp_device_update_snapshot`.
  method UpdateSnapshot(d: Device, ghost t: Tally)
    requires Shows(d, t) && d.current != d.snapshot
    modifies d.snapshot
    ensures Shows(d, Saved(t))
  {
    var i := 0;
    while i < SLOTS
      invariant 0 <= i <= SLOTS && d.current[..] == t.current
      invariant d.snapshot[..i] == t.current[..i]
    {
      d.snapshot[i] := d.current[i];
      i := i + 1;
    }
    assert d.snapshot[..] == d.snapshot[..i] && t.current[..i] == t.current;
  }

  // The devices of the interfaces, all counters zero.
  method AddInterfaces(ports: seq<Port>) returns (ds: seq<Device>)
    ensures |ds| == |ports| && Apart(ds)
    ensures forall i :: 0 <= i < |ds| ==> ds[i].port == ports[i] && Shows(ds[i], Tally(zero, zero))
  {
    ds := [];
    while |ds| < |ports|
      invariant |ds| <= |ports| && Apart(ds)
      invariant forall i :: 0 <= i < |ds| ==> ds[i].port == ports[i] && Shows(ds[i], Tally(zero, zero))
    {
      var d := new Device(ports[|ds|]);
      ds := ds + [d];
    }
  }

  class Monitor {
    const intfs: seq<Device>
    const aggregate: Device
    const mgmt: Option<nat>
    const max: nat
    // The counts of the positive and of the negative check.
    var positive: nat
    var negative: nat

    constructor (ports: seq<Port>, mgmt: Option<nat>, max: nat)
      requires mgmt.Some? ==> mgmt.value < |ports|
      ensures Valid(Config(ports, mgmt), Start(Config(ports, mgmt))) && this.max == max
    {
      var ds := AddInterfaces(ports);
      var agg := new Device(Port(false, 0));
      assert Apart(ds + [agg]) by {
        assert forall i :: 0 <= i < |ds| ==> allocated(ds[i].current) && allocated(ds[i].snapshot);
      }
      intfs, aggregate := ds, agg;
      this.mgmt, this.max := mgmt, max;
      positive, negative := 0, 0;
      new;
      assert Ports() == ports;
    }

    ghost function Ports(): seq<Port> {
      seq(|intfs|, i requires 0 <= i < |intfs| => intfs[i].port)
    }

    ghost predicate Valid(c: Config, s: State)
      reads set d <- intfs :: d.current, set d <- intfs :: d.snapshot, aggregate.current, aggregate.snapshot, this
    {
      && c == Config(Ports(), mgmt) && c.Valid()
      && Apart(intfs + [aggregate])
      && |s.devs| == |intfs|
      && (forall i :: 0 <= i < |intfs| ==> Shows(intfs[i], s.devs[i]))
      && Shows(aggregate, s.aggregate)
      && positive == s.positive && negative == s.negative
    }

    // A packet on an interface.
    method Receive(dev: nat, m: Message, ghost c: Config, ghost s: State)
      requires Valid(c, s) && dev < |intfs|
      modifies intfs[dev].current, aggregate.current
      ensures Valid(c, Step(c, s, Received(dev, m)))
    {
      var d := intfs[dev];
      ghost var all := intfs + [aggregate];
      assert all[dev] == d && all[|intfs|] == aggregate;
      assert Apart([d, aggregate]);
      HandleOption53(d, aggregate, m, s.devs[dev], s.aggregate);
      forall i | 0 <= i < |intfs| && i != dev ensures Shows(intfs[i], s.devs[i]) {
        assert all[i] == intfs[i];
      }
    }

    // `check_dhcp_relay_health`: the new count, and whether an alarm goes to the log.
    method CheckRelayHealth(check: Check, count: nat, ghost c: Config, ghost s: State)
      returns (count': nat, alarm: bool)
      requires Valid(c, s)
      ensures count' == NextCount(count, CheckStatus(c, s, check))
      ensures alarm == Alarm(count, CheckStatus(c, s, check), max)
    {
      var context: Device?;
      if check == POSITIVE {
        context := aggregate;
      } else if mgmt.Some? {
        context := intfs[mgmt.value];
      } else {
        context := null;
      }
      var status := GetStatus(check, context, aggregate, Target(c, s, check), s.aggregate);
      count', alarm := count, false;
      match status {
        case UNHEALTHY =>
          count' := count + 1;
          alarm := count' > max;
        case HEALTHY =>
          count' := 0;
        case INDETERMINATE =>
          if count != 0 {
            count' := count + 1;
          }
      }
    }

    // `dhcp_devman_update_snapshot` of all interfaces and the aggregate.
    method UpdateSnapshots(ghost c: Config, ghost s: State)
      requires Valid(c, s)
      modifies set d <- intfs :: d.snapshot, aggregate.snapshot
      ensures forall i :: 0 <= i < |intfs| ==> Shows(intfs[i], Saved(s.devs[i]))
      ensures Shows(aggregate, Saved(s.aggregate))
    {
      ghost var all := intfs + [aggregate];
      assert all[|intfs|] == aggregate;
      assert forall i :: 0 <= i < |intfs| ==> all[i] == intfs[i];
      var i := 0;
      while i < |intfs|
        invariant 0 <= i <= |intfs| && Shows(aggregate, s.aggregate)
        invariant forall k :: 0 <= k < i ==> Shows(intfs[k], Saved(s.devs[k]))
        invariant forall k :: i <= k < |intfs| ==> Shows(intfs[k], s.devs[k])
      {
        UpdateSnapshot(intfs[i], s.devs[i]);
        i := i + 1;
      }
      UpdateSnapshot(aggregate, s.aggregate);
    }

    // `timeout_callback`: both checks on the old snapshots, then new snapshots.
    method TimeoutCallback(ghost c: Config, ghost s: State) returns (alarms: seq<bool>)
      requires Valid(c, s)
      modifies set d <- intfs :: d.snapshot, aggregate.snapshot, this
      ensures Valid(c, Step(c, s, Tick))
      ensures alarms == [Alarm(s.positive, CheckStatus(c, s, POSITIVE), max),
                         Alarm(s.negative, CheckStatus(c, s, NEGATIVE), max)]
    {
      var positive', alarm := CheckRelayHealth(POSITIVE, positive, c, s);
      var negative', alarm' := CheckRelayHealth(NEGATIVE, negative, c, s);
      UpdateSnapshots(c, s);
      positive, negative := positive', negative';
      alarms := [alarm, alarm'];
    }

    // One event of the loop: a packet, or the timer.
    method Handle(e: Event, ghost c: Config, ghost s: State) returns (alarms: seq<bool>)
      requires Valid(c, s) && Happens(c, e)
      modifies set d <- intfs :: d.current, set d <- intfs :: d.snapshot, aggregate.current, aggregate.snapshot, this
      ensures Valid(c, Step(c, s, e))
      ensures alarms == if e.Tick? then [Alarm(s.positive, CheckStatus(c, s, POSITIVE), max),
                                         Alarm(s.negative, CheckStatus(c, s, NEGATIVE), max)] else []
    {
      alarms := [];
      match e {
        case Received(dev, m) =>
          assert intfs[dev] in intfs;
          Receive(dev, m, c, s);
        case Tick =>
          alarms := TimeoutCallback(c, s);
      }
    }

    // Any history: the devices in memory end in the state of the run, and at each tick an alarm is
    // raised exactly when the checks up to it say so.
    method RunHistory(h: seq<Event>, ghost c: Config) returns (alarms: seq<seq<bool>>)
      requires Valid(c, Start(c)) && AllHappen(c, h)
      modifies set d <- intfs :: d.current, set d <- intfs :: d.snapshot, aggregate.current, aggregate.snapshot, this
      ensures Valid(c, Run(c, h)) && |alarms| == |h|
      ensures forall k :: 0 <= k < |h| ==> alarms[k] == AlarmsAt(c, h, k, max)
    {
      alarms := [];
      for i := 0 to |h|
        invariant Valid(c, Run(c, h[..i])) && |alarms| == i
        invariant forall k :: 0 <= k < i ==> alarms[k] == AlarmsAt(c, h, k, max)
      {
        var now := HandleNext(h, i, c);
        alarms := alarms + [now];
      }
      assert h[..|h|] == h;
    }

    method HandleNext(h: seq<Event>, i: nat, ghost c: Config) returns (alarms: seq<bool>)
      requires c.Valid() && AllHappen(c, h) && i < |h| && Valid(c, Run(c, h[..i]))
      modifies set d <- intfs :: d.current, set d <- intfs :: d.snapshot, aggregate.current, aggregate.snapshot, this
      ensures Valid(c, Run(c, h[..i + 1])) && alarms == AlarmsAt(c, h, i, max)
    {
      assert h[..i + 1][..i] == h[..i];
      if h[i].Tick? {
        AlarmsOf(c, h, i, max);
      }
      alarms := Handle(h[i], c, Run(c, h[..i]));
    }
  }

  // The alarms of an event, by the log of both checks up to it.
  ghost function AlarmsAt(c: Config, h: seq<Event>, k: nat, max: nat): seq<bool>
    requires c.Valid() && AllHappen(c, h) && k < |h|
  {
    if h[k].Tick? then [Overdue(Log(c, h[..k + 1], POSITIVE), max), Overdue(Log(c, h[..k + 1], NEGATIVE), max)] else []
  }

  lemma AlarmsOf(c: Config, h: seq<Event>, k: nat, max: nat)
    requires c.Valid() && AllHappen(c, h) && k < |h| && h[k].Tick?
    ensures var s := Run(c, h[..k]);
            AlarmsAt(c, h, k, max) == [Alarm(s.positive, CheckStatus(c, s, POSITIVE), max),
                                       Alarm(s.negative, CheckStatus(c, s, NEGATIVE), max)]
  {
    assert h[..k + 1][..k] == h[..k];
    AlarmInRun(c, h[..k], POSITIVE, max);
    AlarmInRun(c, h[..k], NEGATIVE, max);
  }
}
