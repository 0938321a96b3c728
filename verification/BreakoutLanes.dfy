/**
 Port breakout: the lanes of a parent port dealt out to its child ports, and the children of all
 parents merged
 (src/sonic-config-engine/portconfig.py, lines 285-317 and 347-361).
 */
module BreakoutLanes {
  import opened Wrappers
  import opened TextOps

  // One part of a breakout mode: so many ports, of a speed, on so many lanes.
  datatype Entry = Entry(ports: nat, speed: string, lanes: nat)

  datatype Parent = Parent(base: nat, lanes: seq<string>, indexes: seq<string>, aliases: seq<string>,
                           entries: seq<Entry>)

  datatype Child = Child(alias: string, lanes: seq<string>, speed: string, index: string)

  // A child port before it is looked up: its first lane, its number of lanes, and its alias.
  datatype Slot = Slot(lane: nat, width: nat, alias: nat, speed: string)

  // The name of a port is made from its number; NameInjective below lets the number stand for the
  // name as the key of the port dicts.
  function Name(id: nat): string {
    "Ethernet" + Show(id)
  }

  function EntrySlots(width: nat, k: nat, lane: nat, alias: nat, speed: string): seq<Slot>
    decreases k
  {
    if k == 0 then [] else [Slot(lane, width, alias, speed)] + EntrySlots(width, k - 1, lane + width, alias + 1, speed)
  }

  function Width(e: Entry): nat
    requires 0 < e.ports
  {
    e.lanes / e.ports
  }

  predicate AllHavePorts(es: seq<Entry>) {
    forall i :: 0 <= i < |es| ==> 0 < es[i].ports
  }

  function Slots(es: seq<Entry>, lane: nat, alias: nat): seq<Slot>
    requires AllHavePorts(es)
    decreases |es|
  {
    if es == [] then []
    else
      var w := Width(es[0]);
      EntrySlots(w, es[0].ports, lane, alias, es[0].speed) + Slots(es[1..], lane + es[0].ports * w, alias + es[0].ports)
  }

  function Assigned(es: seq<Entry>): nat {
    if es == [] then 0 else es[0].lanes + Assigned(es[1..])
  }

  function ChildOf(p: Parent, s: Slot): Result<Child> {
    if s.alias < |p.aliases| && s.lane < |p.indexes| && s.lane + s.width <= |p.lanes|
    then Ok(Child(p.aliases[s.alias], p.lanes[s.lane..s.lane + s.width], s.speed, p.indexes[s.lane])) else Err
  }

  // The children by number; a number that comes again replaces the one before.
  function Children(p: Parent, slots: seq<Slot>): Result<map<nat, Child>> {
    if slots == [] then Ok(map[])
    else
      var s := slots[|slots| - 1];
      match (Children(p, slots[..|slots| - 1]), ChildOf(p, s))
      case (Ok(m), Ok(c)) => Ok(m[p.base + s.lane := c])
      case _ => Err
  }

  // `get_config`. More lanes than there are, a part without ports, and a missing alias or index
  // raise.
  function GetConfig(p: Parent): Result<map<nat, Child>> {
    if Assigned(p.entries) > |p.lanes| || !AllHavePorts(p.entries) then Err else Children(p, Slots(p.entries, 0, 0))
  }

  // ----- the slots stand one behind the other -----

  // Every slot begins where the one before ends.
  predicate InARow(slots: seq<Slot>, lane: nat) {
    slots == [] || (slots[0].lane == lane && InARow(slots[1..], lane + slots[0].width))
  }

  function Total(slots: seq<Slot>): nat {
    if slots == [] then 0 else slots[0].width + Total(slots[1..])
  }

  lemma {:induction false} RowJoin(a: seq<Slot>, b: seq<Slot>, lane: nat)
    requires InARow(a, lane) && InARow(b, lane + Total(a))
    ensures InARow(a + b, lane) && Total(a + b) == Total(a) + Total(b)
    decreases |a|
  {
    if a == [] {
      assert a + b == b;
    } else {
      assert (a + b)[1..] == a[1..] + b && (a + b)[0] == a[0];
      RowJoin(a[1..], b, lane + a[0].width);
    }
  }

  lemma {:induction false} EntryRow(width: nat, k: nat, lane: nat, alias: nat, speed: string)
    ensures var r := EntrySlots(width, k, lane, alias, speed);
            InARow(r, lane) && Total(r) == k * width && |r| == k && forall i :: 0 <= i < k ==> r[i].width == width
    decreases k
  {
    if k != 0 {
      EntryRow(width, k - 1, lane + width, alias + 1, speed);
      var rest := EntrySlots(width, k - 1, lane + width, alias + 1, speed);
      var r := EntrySlots(width, k, lane, alias, speed);
      assert r[1..] == rest;
      assert k * width == width + (k - 1) * width;
    }
  }

  // The lanes that the ports of the parts take.
  function Used(es: seq<Entry>): nat
    requires AllHavePorts(es)
  {
    if es == [] then 0 else es[0].ports * Width(es[0]) + Used(es[1..])
  }

  lemma {:induction false} SlotsRow(es: seq<Entry>, lane: nat, alias: nat)
    requires AllHavePorts(es)
    ensures InARow(Slots(es, lane, alias), lane) && Total(Slots(es, lane, alias)) == Used(es)
    decreases |es|
  {
    if es != [] {
      var w := Width(es[0]);
      EntryRow(w, es[0].ports, lane, alias, es[0].speed);
      SlotsRow(es[1..], lane + es[0].ports * w, alias + es[0].ports);
      RowJoin(EntrySlots(w, es[0].ports, lane, alias, es[0].speed),
              Slots(es[1..], lane + es[0].ports * w, alias + es[0].ports), lane);
    }
  }

  // Every division is exact.
  predicate Exact(es: seq<Entry>)
    requires AllHavePorts(es)
  {
    forall i :: 0 <= i < |es| ==> es[i].lanes % es[i].ports == 0
  }

  lemma EntryUse(e: Entry)
    requires 0 < e.ports
    ensures e.ports * Width(e) <= e.lanes && (e.ports * Width(e) == e.lanes <==> e.lanes % e.ports == 0)
  {
    assert e.lanes == e.ports * (e.lanes / e.ports) + e.lanes % e.ports;
  }

  // No more lanes are used than assigned, and all of them exactly when every division is exact.
  lemma {:induction false} UsedOfAssigned(es: seq<Entry>)
    requires AllHavePorts(es)
    ensures Used(es) <= Assigned(es) && (Used(es) == Assigned(es) <==> Exact(es))
  {
    if es != [] {
      EntryUse(es[0]);
      UsedOfAssigned(es[1..]);
      assert Exact(es) <==> es[0].lanes % es[0].ports == 0 && Exact(es[1..]) by {
        assert forall i :: 0 <= i < |es| - 1 ==> es[1..][i] == es[i + 1];
        if es[0].lanes % es[0].ports == 0 && Exact(es[1..]) {
          forall i | 0 <= i < |es| ensures es[i].lanes % es[i].ports == 0 {
            assert 0 < i ==> es[i] == es[1..][i - 1];
          }
        }
      }
    }
  }

  // Where a slot stands.
  lemma {:induction false} SlotAt(slots: seq<Slot>, lane: nat, i: nat)
    requires InARow(slots, lane) && i < |slots|
    ensures lane <= slots[i].lane && slots[i].lane + slots[i].width <= lane + Total(slots)
    decreases |slots|
  {
    if 0 < i {
      SlotAt(slots[1..], lane + slots[0].width, i - 1);
    }
  }

  lemma {:induction false} SlotBefore(slots: seq<Slot>, lane: nat, i: nat, j: nat)
    requires InARow(slots, lane) && i < j < |slots|
    ensures slots[i].lane + slots[i].width <= slots[j].lane
    ensures j == i + 1 ==> slots[j].lane == slots[i].lane + slots[i].width
    decreases |slots|
  {
    if 0 < i {
      SlotBefore(slots[1..], lane + slots[0].width, i - 1, j - 1);
    } else {
      SlotAt(slots[1..], lane + slots[0].width, j - 1);
    }
  }

  // The lanes of the slots, one slot after the other.
  function Dealt(lanes: seq<string>, slots: seq<Slot>): seq<string>
    requires forall i :: 0 <= i < |slots| ==> slots[i].lane + slots[i].width <= |lanes|
  {
    if slots == [] then [] else lanes[slots[0].lane..slots[0].lane + slots[0].width] + Dealt(lanes, slots[1..])
  }

  lemma {:induction false} DealtInOrder(lanes: seq<string>, slots: seq<Slot>, lane: nat)
    requires InARow(slots, lane) && lane + Total(slots) <= |lanes|
    ensures forall i :: 0 <= i < |slots| ==> slots[i].lane + slots[i].width <= |lanes|
    ensures Dealt(lanes, slots) == lanes[lane..lane + Total(slots)]
    decreases |slots|
  {
    forall i | 0 <= i < |slots| ensures slots[i].lane + slots[i].width <= |lanes| {
      SlotAt(slots, lane, i);
    }
    if slots != [] {
      DealtInOrder(lanes, slots[1..], lane + slots[0].width);
    }
  }

  // ----- numbers -----

  predicate Apart(slots: seq<Slot>) {
    forall i, j :: 0 <= i < j < |slots| ==> slots[i].lane != slots[j].lane
  }

  // The slots have different first lanes exactly when every slot but the last has a lane.
  lemma ApartIffLanes(slots: seq<Slot>, lane: nat)
    requires InARow(slots, lane)
    ensures Apart(slots) <==> forall i :: 0 <= i < |slots| - 1 ==> 0 < slots[i].width
  {
    if Apart(slots) {
      forall i | 0 <= i < |slots| - 1 ensures 0 < slots[i].width {
        SlotBefore(slots, lane, i, i + 1);
      }
    }
    if forall i :: 0 <= i < |slots| - 1 ==> 0 < slots[i].width {
      forall i, j | 0 <= i < j < |slots| ensures slots[i].lane != slots[j].lane {
        SlotBefore(slots, lane, i, j);
      }
    }
  }

  lemma NameInjective(a: nat, b: nat)
    requires Name(a) == Name(b)
    ensures a == b && |Name(a)| > 8 && Name(a)[..8] == "Ethernet"
  {
    assert Name(a)[8..] == Show(a) && Name(b)[8..] == Show(b);
    ShowInjective(a, b);
  }

  // Every number is that of a slot.
  lemma {:induction false} NumbersAreSlots(p: Parent, slots: seq<Slot>, id: nat)
    requires Children(p, slots).Ok? && id in Children(p, slots).value
    ensures exists i :: 0 <= i < |slots| && p.base + slots[i].lane == id
  {
    var n := |slots| - 1;
    if slots != [] && id != p.base + slots[n].lane {
      NumbersAreSlots(p, slots[..n], id);
      var i :| 0 <= i < n && p.base + slots[..n][i].lane == id;
      assert p.base + slots[i].lane == id;
    }
  }

  lemma {:induction false} NumberIsThere(p: Parent, slots: seq<Slot>, i: nat)
    requires Children(p, slots).Ok? && i < |slots|
    ensures p.base + slots[i].lane in Children(p, slots).value
  {
    var n := |slots| - 1;
    if i < n {
      NumberIsThere(p, slots[..n], i);
    }
  }

  // A number comes again exactly when its first lane does.
  lemma NumberAgain(p: Parent, front: seq<Slot>, s: Slot)
    requires Children(p, front).Ok?
    ensures p.base + s.lane in Children(p, front).value <==> exists i :: 0 <= i < |front| && front[i].lane == s.lane
  {
    if p.base + s.lane in Children(p, front).value {
      NumbersAreSlots(p, front, p.base + s.lane);
    }
    if i :| 0 <= i < |front| && front[i].lane == s.lane {
      NumberIsThere(p, front, i);
    }
  }

  lemma ApartMore(front: seq<Slot>, s: Slot)
    ensures Apart(front + [s]) <==> Apart(front) && !exists i :: 0 <= i < |front| && front[i].lane == s.lane
  {
    var all := front + [s];
    assert all[|front|] == s;
    assert forall i :: 0 <= i < |front| ==> all[i] == front[i];
  }

  // There are as many children as slots exactly when the slots have different first lanes.
  lemma {:induction false} ChildForEach(p: Parent, slots: seq<Slot>)
    requires Children(p, slots).Ok?
    ensures |Children(p, slots).value| <= |slots| && (|Children(p, slots).value| == |slots| <==> Apart(slots))
  {
    if slots != [] {
      var n := |slots| - 1;
      var front, s := slots[..n], slots[n];
      ChildForEach(p, front);
      NumberAgain(p, front, s);
      ApartMore(front, s);
      assert slots == front + [s];
      var m, id, c := Children(p, front).value, p.base + s.lane, ChildOf(p, s).value;
      assert m[id := c].Keys == m.Keys + {id};
    }
  }

  // A child that no later slot replaces has the lanes, alias, speed and index of its own slot.
  lemma {:induction false} ChildIsOwn(p: Parent, slots: seq<Slot>, i: nat)
    requires Children(p, slots).Ok? && i < |slots|
    requires forall j :: i < j < |slots| ==> slots[j].lane != slots[i].lane
    ensures var id := p.base + slots[i].lane;
            id in Children(p, slots).value && Ok(Children(p, slots).value[id]) == ChildOf(p, slots[i])
  {
    var n := |slots| - 1;
    if i < n {
      ChildIsOwn(p, slots[..n], i);
    }
  }

  // ----- a whole parent -----

  // Every part has at least a lane for each of its ports.
  predicate EnoughLanes(es: seq<Entry>) {
    forall i :: 0 <= i < |es| ==> 1 <= es[i].ports <= es[i].lanes
  }

  lemma WidthPositive(e: Entry)
    requires 1 <= e.ports <= e.lanes
    ensures 0 < Width(e)
  {
    QuotientPositive(e.lanes, e.ports);
  }

  lemma QuotientPositive(a: nat, d: nat)
    requires 1 <= d <= a
    ensures 0 < a / d
  {
    assert a == d * (a / d) + a % d;
  }

  lemma {:induction false} WidthsPositive(es: seq<Entry>, lane: nat, alias: nat, i: nat)
    requires EnoughLanes(es) && AllHavePorts(es) && i < |Slots(es, lane, alias)|
    ensures 0 < Slots(es, lane, alias)[i].width
    decreases |es|
  {
    if es != [] {
      var w := Width(es[0]);
      WidthPositive(es[0]);
      EntryRow(w, es[0].ports, lane, alias, es[0].speed);
      if es[0].ports <= i {
        WidthsPositive(es[1..], lane + es[0].ports * w, alias + es[0].ports, i - es[0].ports);
      }
    }
  }

  // The children of a parent take its lanes from the first on without gap or overlap, all that are
  // assigned exactly when every division is exact.
  lemma LanesDealt(p: Parent)
    requires GetConfig(p).Ok?
    ensures var slots := Slots(p.entries, 0, 0);
            && InARow(slots, 0)
            && (forall i :: 0 <= i < |slots| ==> slots[i].lane + slots[i].width <= |p.lanes|)
            && Used(p.entries) <= Assigned(p.entries) <= |p.lanes|
            && Dealt(p.lanes, slots) == p.lanes[..Used(p.entries)]
            && (Used(p.entries) == Assigned(p.entries) <==> Exact(p.entries))
  {
    SlotsRow(p.entries, 0, 0);
    UsedOfAssigned(p.entries);
    DealtInOrder(p.lanes, Slots(p.entries, 0, 0), 0);
    assert p.lanes[0..Used(p.entries)] == p.lanes[..Used(p.entries)];
  }

  // With a lane for each port, no child replaces another, and every child is that of its slot.
  lemma ChildrenDistinct(p: Parent, i: nat)
    requires GetConfig(p).Ok? && EnoughLanes(p.entries) && i < |Slots(p.entries, 0, 0)|
    ensures var slots, m := Slots(p.entries, 0, 0), GetConfig(p).value;
            && |m| == |slots|
            && 0 < slots[i].width
            && p.base + slots[i].lane in m
            && Ok(m[p.base + slots[i].lane]) == ChildOf(p, slots[i])
  {
    var slots := Slots(p.entries, 0, 0);
    SlotsRow(p.entries, 0, 0);
    forall j | 0 <= j < |slots| ensures 0 < slots[j].width {
      WidthsPositive(p.entries, 0, 0, j);
    }
    ApartIffLanes(slots, 0);
    ChildForEach(p, slots);
    ChildIsOwn(p, slots, i);
  }

  // ----- the ports of a mode, counted through -----

  function PortCount(es: seq<Entry>): nat {
    if es == [] then 0 else es[0].ports + PortCount(es[1..])
  }

  // The part that port number i belongs to.
  function PartOf(es: seq<Entry>, i: nat): Entry
    requires i < PortCount(es)
  {
    if i < es[0].ports then es[0] else PartOf(es[1..], i - es[0].ports)
  }

  // The number of its first lane among those of the parent.
  function FirstLane(es: seq<Entry>, i: nat): nat
    requires AllHavePorts(es) && i <= PortCount(es)
  {
    if i == 0 then 0 else FirstLane(es, i - 1) + LaneCount(es, i - 1)
  }

  function LaneCount(es: seq<Entry>, i: nat): nat
    requires AllHavePorts(es) && i < PortCount(es)
  {
    PartHasPorts(es, i);
    PartOf(es, i).lanes / PartOf(es, i).ports
  }

  lemma {:induction false} PartHasPorts(es: seq<Entry>, i: nat)
    requires AllHavePorts(es) && i < PortCount(es)
    ensures PartOf(es, i) in es && 0 < PartOf(es, i).ports
  {
    if es[0].ports <= i {
      PartHasPorts(es[1..], i - es[0].ports);
    }
  }

  lemma {:induction false} EntrySlotAt(w: nat, k: nat, lane: nat, alias: nat, speed: string, i: nat)
    requires i < k
    ensures var r := EntrySlots(w, k, lane, alias, speed);
            |r| == k && r[i].width == w && r[i].alias == alias + i && r[i].speed == speed
  {
    EntryRow(w, k, lane, alias, speed);
    if 0 < i {
      EntrySlotAt(w, k - 1, lane + w, alias + 1, speed, i - 1);
    }
  }

  lemma {:induction false} SlotCount(es: seq<Entry>, lane: nat, alias: nat)
    requires AllHavePorts(es)
    ensures |Slots(es, lane, alias)| == PortCount(es)
    decreases |es|
  {
    if es != [] {
      EntryRow(Width(es[0]), es[0].ports, lane, alias, es[0].speed);
      SlotCount(es[1..], lane + es[0].ports * Width(es[0]), alias + es[0].ports);
    }
  }

  // The slot of a port has the lanes of its part, the next alias, and the speed of its part.
  lemma {:induction false} SlotOf(es: seq<Entry>, lane: nat, alias: nat, i: nat)
    requires AllHavePorts(es) && i < PortCount(es)
    ensures |Slots(es, lane, alias)| == PortCount(es)
    ensures var s := Slots(es, lane, alias)[i];
            s.width == LaneCount(es, i) && s.alias == alias + i && s.speed == PartOf(es, i).speed
    decreases |es|
  {
    SlotCount(es, lane, alias);
    var w := Width(es[0]);
    var first := EntrySlots(w, es[0].ports, lane, alias, es[0].speed);
    EntryRow(w, es[0].ports, lane, alias, es[0].speed);
    if i < es[0].ports {
      EntrySlotAt(w, es[0].ports, lane, alias, es[0].speed, i);
    } else {
      SlotOf(es[1..], lane + es[0].ports * w, alias + es[0].ports, i - es[0].ports);
    }
  }

  // And it begins where the ports before it end.
  lemma {:induction false} SlotFirst(es: seq<Entry>, i: nat)
    requires AllHavePorts(es) && i < PortCount(es)
    ensures |Slots(es, 0, 0)| == PortCount(es) && Slots(es, 0, 0)[i].lane == FirstLane(es, i)
    decreases i
  {
    SlotCount(es, 0, 0);
    SlotsRow(es, 0, 0);
    if 0 < i {
      SlotFirst(es, i - 1);
      SlotOf(es, 0, 0, i - 1);
      SlotBefore(Slots(es, 0, 0), 0, i - 1, i);
    }
  }

  // The ports together take the lanes that are used.
  lemma LastLane(es: seq<Entry>)
    requires AllHavePorts(es)
    ensures FirstLane(es, PortCount(es)) == Used(es)
  {
    var slots := Slots(es, 0, 0);
    SlotsRow(es, 0, 0);
    SlotCount(es, 0, 0);
    if slots != [] {
      var n := |slots| - 1;
      SlotFirst(es, n);
      SlotOf(es, 0, 0, n);
      LastEnds(slots, 0);
    }
  }

  lemma {:induction false} LastEnds(slots: seq<Slot>, lane: nat)
    requires InARow(slots, lane) && slots != []
    ensures slots[|slots| - 1].lane + slots[|slots| - 1].width == lane + Total(slots)
    decreases |slots|
  {
    if 1 < |slots| {
      LastEnds(slots[1..], lane + slots[0].width);
    }
  }

  // ----- what the children hold -----

  // Port number i has the lanes from its first one on, as many as its part gives each port, the i-th
  // alias, the index of its first lane, and the speed of its part.
  lemma ChildHolds(p: Parent, i: nat)
    requires GetConfig(p).Ok? && EnoughLanes(p.entries) && i < PortCount(p.entries)
    ensures var m, lane, n := GetConfig(p).value, FirstLane(p.entries, i), LaneCount(p.entries, i);
            && |m| == PortCount(p.entries) && 0 < n
            && i < |p.aliases| && lane < |p.indexes| && lane + n <= |p.lanes|
            && p.base + lane in m
            && m[p.base + lane]
               == Child(p.aliases[i], p.lanes[lane..lane + n], PartOf(p.entries, i).speed, p.indexes[lane])
  {
    var s := Slot(FirstLane(p.entries, i), LaneCount(p.entries, i), i, PartOf(p.entries, i).speed);
    SlotIs(p.entries, i);
    ChildrenDistinct(p, i);
    SlotHolds(p, s, GetConfig(p).value[p.base + s.lane]);
  }

  lemma SlotIs(es: seq<Entry>, i: nat)
    requires AllHavePorts(es) && i < PortCount(es)
    ensures |Slots(es, 0, 0)| == PortCount(es)
    ensures Slots(es, 0, 0)[i] == Slot(FirstLane(es, i), LaneCount(es, i), i, PartOf(es, i).speed)
  {
    SlotOf(es, 0, 0, i);
    SlotFirst(es, i);
  }

  lemma SlotHolds(p: Parent, s: Slot, c: Child)
    requires ChildOf(p, s) == Ok(c)
    ensures s.alias < |p.aliases| && s.lane < |p.indexes| && s.lane + s.width <= |p.lanes|
    ensures c == Child(p.aliases[s.alias], p.lanes[s.lane..s.lane + s.width], s.speed, p.indexes[s.lane])
  {
  }

  // There is no other child.
  lemma OnlyPorts(p: Parent, id: nat) returns (i: nat)
    requires GetConfig(p).Ok? && id in GetConfig(p).value
    ensures i < PortCount(p.entries) && id == p.base + FirstLane(p.entries, i)
  {
    var slots := Slots(p.entries, 0, 0);
    NumbersAreSlots(p, slots, id);
    i :| 0 <= i < |slots| && p.base + slots[i].lane == id;
    SlotCount(p.entries, 0, 0);
    SlotFirst(p.entries, i);
  }

  // The lanes of the children numbered from `base` on, one child after the other.
  function LanesFrom(m: map<nat, Child>, base: nat, n: nat): seq<string> {
    if n == 0 then []
    else LanesFrom(m, base, n - 1) + if base + n - 1 in m then m[base + n - 1].lanes else []
  }

  lemma {:induction false} NoMoreLanes(m: map<nat, Child>, base: nat, n: nat, k: nat)
    requires n <= k && forall id :: base + n <= id < base + k ==> id !in m
    ensures LanesFrom(m, base, k) == LanesFrom(m, base, n)
    decreases k
  {
    if n < k {
      NoMoreLanes(m, base, n, k - 1);
      assert base + (k - 1) !in m;
    }
  }

  lemma {:induction false} FirstLanesGrow(es: seq<Entry>, i: nat, j: nat)
    requires AllHavePorts(es) && i < j <= PortCount(es)
    ensures FirstLane(es, i) + LaneCount(es, i) <= FirstLane(es, j)
    decreases j
  {
    if i < j - 1 {
      FirstLanesGrow(es, i, j - 1);
    }
  }

  // No child is numbered inside the range of another, or behind the last.
  lemma NoneInside(p: Parent, i: nat, id: nat)
    requires GetConfig(p).Ok? && EnoughLanes(p.entries) && i < PortCount(p.entries)
    requires p.base + FirstLane(p.entries, i) < id
    requires i + 1 < PortCount(p.entries) ==> id < p.base + FirstLane(p.entries, i + 1)
    ensures id !in GetConfig(p).value
  {
    if id in GetConfig(p).value {
      var j := OnlyPorts(p, id);
      if j < i {
        FirstLanesGrow(p.entries, j, i);
      } else if i + 1 < j {
        FirstLanesGrow(p.entries, i + 1, j);
      }
    }
  }

  lemma NoneBetween(p: Parent, i: nat)
    requires GetConfig(p).Ok? && EnoughLanes(p.entries) && i < PortCount(p.entries)
    ensures forall id :: p.base + FirstLane(p.entries, i) + 1 <= id < p.base + FirstLane(p.entries, i + 1) ==>
                           id !in GetConfig(p).value
  {
    forall id | p.base + FirstLane(p.entries, i) + 1 <= id < p.base + FirstLane(p.entries, i + 1)
      ensures id !in GetConfig(p).value
    {
      NoneInside(p, i, id);
    }
  }

  lemma {:induction false} LanesUpTo(p: Parent, i: nat)
    requires GetConfig(p).Ok? && EnoughLanes(p.entries) && i <= PortCount(p.entries)
    ensures FirstLane(p.entries, i) <= |p.lanes|
    ensures LanesFrom(GetConfig(p).value, p.base, FirstLane(p.entries, i)) == p.lanes[..FirstLane(p.entries, i)]
  {
    if 0 < i {
      var m, lane, next := GetConfig(p).value, FirstLane(p.entries, i - 1), FirstLane(p.entries, i);
      LanesUpTo(p, i - 1);
      ChildHolds(p, i - 1);
      NoneBetween(p, i - 1);
      OneChildMore(p.lanes, m, p.base, lane, next);
    }
  }

  lemma OneChildMore(lanes: seq<string>, m: map<nat, Child>, base: nat, lane: nat, next: nat)
    requires lane < next <= |lanes| && LanesFrom(m, base, lane) == lanes[..lane]
    requires base + lane in m && m[base + lane].lanes == lanes[lane..next]
    requires forall id :: base + lane + 1 <= id < base + next ==> id !in m
    ensures LanesFrom(m, base, next) == lanes[..next]
  {
    NoMoreLanes(m, base, lane + 1, next);
    assert lanes[..next] == lanes[..lane] + lanes[lane..next];
  }

  // The lanes of the children, in the order of their numbers, are the parent's lanes from the first
  // on, as many as are used.
  lemma ChildrenLanes(p: Parent)
    requires GetConfig(p).Ok? && EnoughLanes(p.entries)
    ensures Used(p.entries) <= |p.lanes|
    ensures LanesFrom(GetConfig(p).value, p.base, |p.lanes|) == p.lanes[..Used(p.entries)]
  {
    var m, n, used := GetConfig(p).value, PortCount(p.entries), Used(p.entries);
    LastLane(p.entries);
    LanesUpTo(p, n);
    forall id | p.base + used <= id < p.base + |p.lanes| ensures id !in m {
      if id in m {
        var j := OnlyPorts(p, id);
        ChildHolds(p, j);
        FirstLanesGrow(p.entries, j, n);
      }
    }
    NoMoreLanes(m, p.base, used, |p.lanes|);
  }

  lemma {:induction false} ChildrenOk(p: Parent, slots: seq<Slot>)
    ensures Children(p, slots).Ok? <==> forall i :: 0 <= i < |slots| ==> ChildOf(p, slots[i]).Ok?
  {
    if slots != [] {
      ChildrenOk(p, slots[..|slots| - 1]);
    }
  }

  // A port finds an alias and an index.
  predicate PortFits(p: Parent, i: nat)
    requires AllHavePorts(p.entries) && i < PortCount(p.entries)
  {
    i < |p.aliases| && FirstLane(p.entries, i) < |p.indexes|
  }

  lemma PortOk(p: Parent, i: nat)
    requires AllHavePorts(p.entries) && i < PortCount(p.entries) && Assigned(p.entries) <= |p.lanes|
    ensures |Slots(p.entries, 0, 0)| == PortCount(p.entries)
    ensures ChildOf(p, Slots(p.entries, 0, 0)[i]).Ok? <==> PortFits(p, i)
  {
    SlotIs(p.entries, i);
    SlotsRow(p.entries, 0, 0);
    UsedOfAssigned(p.entries);
    SlotAt(Slots(p.entries, 0, 0), 0, i);
  }

  // There is a configuration exactly when the lanes suffice, every part has a port, and every port
  // finds an alias and an index.
  lemma ConfigIff(p: Parent)
    ensures GetConfig(p).Ok?
       <==> && Assigned(p.entries) <= |p.lanes| && AllHavePorts(p.entries)
            && forall i :: 0 <= i < PortCount(p.entries) ==> PortFits(p, i)
  {
    if Assigned(p.entries) <= |p.lanes| && AllHavePorts(p.entries) {
      ChildrenOk(p, Slots(p.entries, 0, 0));
      SlotCount(p.entries, 0, 0);
      forall i | 0 <= i < PortCount(p.entries)
        ensures ChildOf(p, Slots(p.entries, 0, 0)[i]).Ok? <==> PortFits(p, i)
      {
        PortOk(p, i);
      }
    }
  }

  // ----- all parents -----

  // The merging loop of `parse_platform_json_file`.
  function Merged(ps: seq<Parent>): Result<map<nat, Child>> {
    if ps == [] then Ok(map[])
    else
      match (Merged(ps[..|ps| - 1]), GetConfig(ps[|ps| - 1]))
      case (Ok(m), Ok(c)) => Ok(m + c)
      case _ => Err
  }

  // The ids of a parent and its lanes do not meet those of another.
  predicate Disjoint(p: Parent, q: Parent) {
    p.base + |p.lanes| <= q.base || q.base + |q.lanes| <= p.base
  }

  predicate AllDisjoint(ps: seq<Parent>) {
    && (forall i, j :: 0 <= i < j < |ps| ==> Disjoint(ps[i], ps[j]))
    && (forall i :: 0 <= i < |ps| ==> EnoughLanes(ps[i].entries))
  }

  // The number of a child is in the range of its parent.
  lemma NumberInRange(p: Parent, id: nat)
    requires GetConfig(p).Ok? && EnoughLanes(p.entries) && id in GetConfig(p).value
    ensures p.base <= id < p.base + |p.lanes|
  {
    var slots := Slots(p.entries, 0, 0);
    NumbersAreSlots(p, slots, id);
    var i :| 0 <= i < |slots| && p.base + slots[i].lane == id;
    LanesDealt(p);
    WidthsPositive(p.entries, 0, 0, i);
  }

  // Two parents with disjoint ranges have no number in common.
  lemma NoCommonNumber(p: Parent, q: Parent, id: nat)
    requires GetConfig(p).Ok? && EnoughLanes(p.entries) && GetConfig(q).Ok? && EnoughLanes(q.entries) && Disjoint(p, q)
    requires id in GetConfig(p).value
    ensures id !in GetConfig(q).value
  {
    NumberInRange(p, id);
    if id in GetConfig(q).value {
      NumberInRange(q, id);
    }
  }

  lemma DisjointFront(ps: seq<Parent>, i: nat)
    requires AllDisjoint(ps) && i < |ps| - 1
    ensures AllDisjoint(ps[..|ps| - 1]) && Disjoint(ps[i], ps[|ps| - 1])
    ensures EnoughLanes(ps[i].entries) && EnoughLanes(ps[|ps| - 1].entries)
  {
  }

  // Merging parents with disjoint ranges replaces no port: every child of every parent is there as
  // its parent made it.
  lemma {:induction false} MergeKeepsAll(ps: seq<Parent>, i: nat, k: nat)
    requires Merged(ps).Ok? && AllDisjoint(ps) && i < |ps|
    ensures GetConfig(ps[i]).Ok?
    ensures k in GetConfig(ps[i]).value ==> k in Merged(ps).value && Merged(ps).value[k] == GetConfig(ps[i]).value[k]
  {
    var n := |ps| - 1;
    if i < n {
      DisjointFront(ps, i);
      MergeKeepsAll(ps[..n], i, k);
      if k in GetConfig(ps[i]).value {
        NoCommonNumber(ps[i], ps[n], k);
      }
    }
  }

  // ----- the loops -----

  // The children of the slots on top of those there are.
  function Deal(p: Parent, slots: seq<Slot>, ports: map<nat, Child>): Result<map<nat, Child>>
    decreases |slots|
  {
    if slots == [] then Ok(ports)
    else
      match ChildOf(p, slots[0])
      case Err => Err
      case Ok(c) => Deal(p, slots[1..], ports[p.base + slots[0].lane := c])
  }

  lemma {:induction false} ChildrenErr(p: Parent, slots: seq<Slot>, j: nat)
    requires j < |slots| && ChildOf(p, slots[j]).Err?
    ensures Children(p, slots).Err?
  {
    if j < |slots| - 1 {
      ChildrenErr(p, slots[..|slots| - 1], j);
    }
  }

  lemma {:induction false} DealIsChildren(p: Parent, done: seq<Slot>, slots: seq<Slot>, ports: map<nat, Child>)
    requires Children(p, done) == Ok(ports)
    ensures Deal(p, slots, ports) == Children(p, done + slots)
    decreases |slots|
  {
    if slots == [] {
      assert done + slots == done;
    } else {
      var s, rest := slots[0], slots[1..];
      assert done + slots == (done + [s]) + rest;
      assert (done + [s])[..|done|] == done;
      match ChildOf(p, s) {
        case Ok(c) => DealIsChildren(p, done + [s], rest, ports[p.base + s.lane := c]);
        case Err => ChildrenErr(p, done + slots, |done|);
      }
    }
  }

  lemma {:induction false} DealSplit(p: Parent, a: seq<Slot>, b: seq<Slot>, ports: map<nat, Child>)
    ensures Deal(p, a + b, ports)
         == match Deal(p, a, ports)
            case Err => Err
            case Ok(m) => Deal(p, b, m)
    decreases |a|
  {
    if a == [] {
      assert a + b == b;
    } else {
      assert (a + b)[1..] == a[1..] + b && (a + b)[0] == a[0];
      match ChildOf(p, a[0]) {
        case Ok(c) => DealSplit(p, a[1..], b, ports[p.base + a[0].lane := c]);
        case Err =>
      }
    }
  }

  // One port of a part.
  lemma DealPort(p: Parent, w: nat, k: nat, lane: nat, alias: nat, speed: string, ports: map<nat, Child>)
    requires 0 < k
    ensures Deal(p, EntrySlots(w, k, lane, alias, speed), ports)
         == match ChildOf(p, Slot(lane, w, alias, speed))
            case Err => Err
            case Ok(c) => Deal(p, EntrySlots(w, k - 1, lane + w, alias + 1, speed), ports[p.base + lane := c])
  {
    var s, rest := Slot(lane, w, alias, speed), EntrySlots(w, k - 1, lane + w, alias + 1, speed);
    assert EntrySlots(w, k, lane, alias, speed) == [s] + rest;
    assert ([s] + rest)[1..] == rest;
  }

  // The ports of one part: lane and alias advance with every port.
  method AddPart(p: Parent, e: Entry, w: nat, lane0: nat, alias0: nat, ports0: map<nat, Child>, ghost end: nat)
    returns (ports: map<nat, Child>, lane: nat, alias: nat, ok: bool)
    requires lane0 + e.ports * w == end <= |p.lanes|
    ensures Deal(p, EntrySlots(w, e.ports, lane0, alias0, e.speed), ports0) == if ok then Ok(ports) else Err
    ensures ok ==> lane == end && alias == alias0 + e.ports
  {
    ghost var all := Deal(p, EntrySlots(w, e.ports, lane0, alias0, e.speed), ports0);
    ports, lane, alias, ok := ports0, lane0, alias0, true;
    var k := e.ports;
    while k > 0
      invariant 0 <= k <= e.ports && ok && alias + k == alias0 + e.ports
      invariant lane + k * w == end
      invariant all == Deal(p, EntrySlots(w, k, lane, alias, e.speed), ports)
    {
      OneLess(k, w);
      ports, ok := AddPort(p, e, w, k, lane, alias, ports);
      if !ok {
        return;
      }
      lane, alias, k := lane + w, alias + 1, k - 1;
    }
  }

  lemma OneLess(k: nat, w: nat)
    requires 0 < k
    ensures k * w == w + (k - 1) * w
  {
  }

  // One port, the first of the k that are left.
  method AddPort(p: Parent, e: Entry, w: nat, ghost k: nat, lane: nat, alias: nat, ports0: map<nat, Child>)
    returns (ports: map<nat, Child>, ok: bool)
    requires 0 < k && lane + w <= |p.lanes|
    ensures Deal(p, EntrySlots(w, k, lane, alias, e.speed), ports0)
         == if ok then Deal(p, EntrySlots(w, k - 1, lane + w, alias + 1, e.speed), ports) else Err
  {
    DealPort(p, w, k, lane, alias, e.speed, ports0);
    ports, ok := ports0, false;
    if alias >= |p.aliases| || lane >= |p.indexes| {
      return;
    }
    ports := ports[p.base + lane := Child(p.aliases[alias], p.lanes[lane..lane + w], e.speed, p.indexes[lane])];
    ok := true;
  }

  method AssignedOf(es: seq<Entry>) returns (lanesUsed: nat)
    ensures lanesUsed == Assigned(es)
  {
    lanesUsed := 0;
    var i := 0;
    while i < |es|
      invariant 0 <= i <= |es| && lanesUsed + Assigned(es[i..]) == Assigned(es)
    {
      assert es[i..][1..] == es[i + 1..];
      lanesUsed := lanesUsed + es[i].lanes;
      i := i + 1;
    }
  }

  // The parts, one after another; a part without ports raises.
  method AddParts(p: Parent, es: seq<Entry>, lane0: nat, alias0: nat, ports0: map<nat, Child>)
    returns (ports: map<nat, Child>, ok: bool)
    requires lane0 + Assigned(es) <= |p.lanes|
    ensures ok ==> AllHavePorts(es)
    ensures AllHavePorts(es) ==> Deal(p, Slots(es, lane0, alias0), ports0) == if ok then Ok(ports) else Err
    decreases |es|
  {
    ports, ok := ports0, true;
    if es == [] {
      return;
    }
    var e := es[0];
    if e.ports == 0 {
      ok := false;
      return;
    }
    var w := Width(e);
    EntryUse(e);
    EntryRow(w, e.ports, lane0, alias0, e.speed);
    ghost var end := lane0 + e.ports * w;
    var lane, alias;
    ports, lane, alias, ok := AddPart(p, e, w, lane0, alias0, ports0, end);
    ghost var before := ports;
    ghost var fine := ok;
    if ok {
      ports, ok := AddParts(p, es[1..], lane, alias, ports);
    }
    PartsSplit(p, es, lane0, alias0, ports0, end, if fine then Ok(before) else Err);
    assert ok ==> AllHavePorts([e] + es[1..]);
    assert es == [e] + es[1..];
  }

  lemma PartsSplit(p: Parent, es: seq<Entry>, lane: nat, alias: nat, ports: map<nat, Child>, end: nat,
                   first: Result<map<nat, Child>>)
    requires es != [] && 0 < es[0].ports && end == lane + es[0].ports * Width(es[0])
    requires first == Deal(p, EntrySlots(Width(es[0]), es[0].ports, lane, alias, es[0].speed), ports)
    ensures AllHavePorts(es) ==> AllHavePorts(es[1..])
    ensures AllHavePorts(es) ==>
              Deal(p, Slots(es, lane, alias), ports) == if first.Err? then Err
              else Deal(p, Slots(es[1..], end, alias + es[0].ports), first.value)
  {
    if AllHavePorts(es) {
      DealSplit(p, EntrySlots(Width(es[0]), es[0].ports, lane, alias, es[0].speed),
                Slots(es[1..], end, alias + es[0].ports), ports);
    }
  }

  // `get_config`.
  method GetConfigOf(p: Parent) returns (ports: map<nat, Child>, ok: bool)
    ensures GetConfig(p) == if ok then Ok(ports) else Err
  {
    ports, ok := map[], false;
    var lanesUsed := AssignedOf(p.entries);
    if lanesUsed > |p.lanes| {
      return;
    }
    ports, ok := AddParts(p, p.entries, 0, 0, map[]);
    if AllHavePorts(p.entries) {
      var slots := Slots(p.entries, 0, 0);
      DealIsChildren(p, [], slots, map[]);
      assert [] + slots == slots;
    }
  }
}
