/** libusbmuxd's device monitor: what the daemon's packets do to the collection of devices, and what is reported. */
module Devices {
  import opened Bytes
  import opened Collections

  /** The device record of an add packet. */
  datatype Record = Record(deviceId: u32, productId: u16, serial: seq<byte>)

  datatype Info = Info(handle: u32, productId: u16, udid: seq<byte>)

  /** A `usbmuxd_device_info_t` on the heap. */
  class Device {
    const info: Info

    constructor (info: Info)
      ensures this.info == info
    {
      this.info := info;
    }
  }

  datatype Kind = Added | Removed

  datatype Event = Event(kind: Kind, info: Info)

  /** What `receive_packet` brings: a failure, a packet whose payload is missing, or a message. */
  datatype Packet = Lost | NoPayload | AddDevice(record: Record) | RemoveDevice(handle: u32) | OtherMessage

  datatype Outcome = Handled | IoError | BadMessage

  type Slot = Option<Info>

  /** The collection's slots, and all events reported so far. */
  datatype State = State(slots: seq<Slot>, log: seq<Event>)

  /** How the text of a serial number becomes the reported device id is left open. */
  type UdidRule = Record -> seq<byte>

  function InfoOf(record: Record, udid: UdidRule): Info {
    Info(record.deviceId, record.productId, udid(record))
  }

  /** `devices_find`: the first slot with the handle; the number of slots when there is none */
  function FindHandle(slots: seq<Slot>, handle: u32): (k: nat)
    ensures k <= |slots|
    ensures k < |slots| ==> slots[k].Some? && slots[k].value.handle == handle
    ensures forall i | 0 <= i < k :: slots[i].Some? ==> slots[i].value.handle != handle
  {
    if slots == [] || (slots[0].Some? && slots[0].value.handle == handle) then 0 else 1 + FindHandle(slots[1..], handle)
  }

  /** The contents in slot order. */
  function Compact(slots: seq<Slot>): seq<Info> {
    if slots == [] then [] else (if slots[0].Some? then [slots[0].value] else []) + Compact(slots[1..])
  }

  function Removals(infos: seq<Info>): (events: seq<Event>)
    ensures |events| == |infos|
  {
    seq(|infos|, i requires 0 <= i < |infos| => Event(Removed, infos[i]))
  }

  /** What `get_next_event` does to the collection. */
  function SlotsAfter(slots: seq<Slot>, packet: Packet, udid: UdidRule): seq<Slot> {
    match packet
    case Lost => Filled(|slots|, None)
    case AddDevice(record) => Put(slots, None, Some(InfoOf(record, udid)))
    case RemoveDevice(handle) =>
      var k := FindHandle(slots, handle);
      if k < |slots| then slots[k := None] else slots
    case _ => slots
  }

  /** What `get_next_event` reports. */
  function EventsOf(slots: seq<Slot>, packet: Packet, udid: UdidRule): seq<Event> {
    match packet
    case Lost => Removals(Compact(slots))
    case AddDevice(record) => [Event(Added, InfoOf(record, udid))]
    case RemoveDevice(handle) =>
      var k := FindHandle(slots, handle);
      if k < |slots| then [Event(Removed, slots[k].value)] else []
    case _ => []
  }

  /** `get_next_event` */
  function Step(st: State, packet: Packet, callback: bool, udid: UdidRule): State {
    State(SlotsAfter(st.slots, packet, udid), st.log + if callback then EventsOf(st.slots, packet, udid) else [])
  }

  function OutcomeOf(packet: Packet): Outcome {
    match packet
    case Lost => IoError
    case NoPayload => BadMessage
    case _ => Handled
  }

  /** The monitor's whole life with a callback: a lost connection is opened again, and the packets go on. */
  function Run(st: State, packets: seq<Packet>, udid: UdidRule): State
    decreases |packets|
  {
    if packets == [] then st else Run(Step(st, packets[0], true, udid), packets[1..], udid)
  }

  const START: State := State([None], [])

  function Contents(st: State): multiset<Slot> {
    Bag(st.slots, None)
  }

  /** The devices that were reported with events of one kind. */
  function Reported(log: seq<Event>, kind: Kind): multiset<Slot> {
    if log == [] then multiset{}
    else (if log[0].kind == kind then multiset{Some(log[0].info)} else multiset{}) + Reported(log[1..], kind)
  }

  lemma {:induction false} ReportedJoin(a: seq<Event>, b: seq<Event>, kind: Kind)
    ensures Reported(a + b, kind) == Reported(a, kind) + Reported(b, kind)
  {
    if a == [] {
      assert a + b == b;
    } else {
      assert (a + b)[1..] == a[1..] + b;
      ReportedJoin(a[1..], b, kind);
    }
  }

  // ----- conservation

  /** What was added and not removed is what there is. */
  predicate Conserved(st: State) {
    Reported(st.log, Added) == Reported(st.log, Removed) + Contents(st)
  }

  lemma {:induction false} AllRemoved(slots: seq<Slot>)
    ensures Reported(Removals(Compact(slots)), Removed) == Bag(slots, None)
    ensures Reported(Removals(Compact(slots)), Added) == multiset{}
    decreases |slots|
  {
    hide Reported, Removals;
    if slots == [] {
      NoRemovals();
    } else {
      AllRemoved(slots[1..]);
      if slots[0].Some? {
        RemovalsNext(slots[0].value, Compact(slots[1..]));
      } else {
        assert Compact(slots) == Compact(slots[1..]);
      }
    }
  }

  lemma NoRemovals()
    ensures forall kind :: Reported(Removals([]), kind) == multiset{}
  {
  }

  lemma RemovalsNext(x: Info, rest: seq<Info>)
    ensures Reported(Removals([x] + rest), Removed) == multiset{Some(x)} + Reported(Removals(rest), Removed)
    ensures Reported(Removals([x] + rest), Added) == Reported(Removals(rest), Added)
  {
    hide Reported;
    assert Removals([x] + rest) == [Event(Removed, x)] + Removals(rest);
    ReportedJoin([Event(Removed, x)], Removals(rest), Removed);
    ReportedJoin([Event(Removed, x)], Removals(rest), Added);
    SingleReport(Event(Removed, x));
  }

  /** What one packet does to the contents. */
  lemma StepContents(st: State, packet: Packet, callback: bool, udid: UdidRule)
    ensures var next := Contents(Step(st, packet, callback, udid));
      match packet
      case Lost => next == multiset{}
      case AddDevice(record) => next == Contents(st) + multiset{Some(InfoOf(record, udid))}
      case RemoveDevice(handle) =>
        if exists x :: x in Contents(st) && x.Some? && x.value.handle == handle then
          exists x :: x in Contents(st) && x.Some? && x.value.handle == handle && next == Contents(st) - multiset{x}
        else next == Contents(st)
      case _ => next == Contents(st)
  {
    match packet
    case Lost => BagFilled<Slot>(|st.slots|, None);
    case AddDevice(record) => PutAdds(st.slots, None, Some(InfoOf(record, udid)));
    case RemoveDevice(handle) =>
      var k := FindHandle(st.slots, handle);
      if k < |st.slots| {
        TakeRemoves(st.slots, None, k);
        assert st.slots[k] in Contents(st);
      } else {
        forall x | x in Contents(st) ensures !(x.Some? && x.value.handle == handle) {
          InBag(st.slots, None, x);
        }
      }
    case _ =>
  }

  /** A device that is added and then removed by the id of its record leaves the contents as they were, and is
      reported both times with its own id, product and serial number. */
  lemma AddedThenRemoved(st: State, record: Record, udid: UdidRule)
    requires forall x | x in Contents(st) :: x.Some? ==> x.value.handle != record.deviceId
    ensures var after := Run(st, [AddDevice(record), RemoveDevice(record.deviceId)], udid);
      var info := Info(record.deviceId, record.productId, udid(record));
      && Contents(after) == Contents(st)
      && after.log == st.log + [Event(Added, info), Event(Removed, info)]
  {
    hide Contents, Put, Run, Bag;
    var info := Info(record.deviceId, record.productId, udid(record));
    RunTwo(st, AddDevice(record), RemoveDevice(record.deviceId), udid);
    var one := Step(st, AddDevice(record), true, udid);
    OnlyOne(st, one, info);
    var k := FindHandle(one.slots, record.deviceId);
    ThereOnce(one, Some(info), k);
    TakenOut(one, Step(one, RemoveDevice(record.deviceId), true, udid), k);
    assert st.log + [Event(Added, info)] + [Event(Removed, info)]
      == st.log + [Event(Added, info), Event(Removed, info)];
  }

  lemma TakenOut(st: State, after: State, k: nat)
    requires k < |st.slots| && st.slots[k] != None && after.slots == st.slots[k := None]
    ensures Contents(after) == Contents(st) - multiset{st.slots[k]}
  {
    TakeRemoves(st.slots, None, k);
  }

  lemma RunTwo(st: State, x: Packet, y: Packet, udid: UdidRule)
    ensures Run(st, [x, y], udid) == Step(Step(st, x, true, udid), y, true, udid)
  {
    hide Step;
    assert [x, y][1..] == [y] && [y][1..] == [];
    assert Run(Step(st, x, true, udid), [y], udid) == Step(Step(st, x, true, udid), y, true, udid);
  }

  lemma OnlyOne(st: State, one: State, info: Info)
    requires one.slots == Put(st.slots, None, Some(info))
    ensures Contents(one) == Contents(st) + multiset{Some(info)}
  {
    PutAdds(st.slots, None, Some(info));
  }

  /** The slot that is found by a handle only one device has. */
  lemma ThereOnce(st: State, x: Slot, k: nat)
    requires x.Some? && x in Contents(st) && k == FindHandle(st.slots, x.value.handle)
    requires forall y | y in Contents(st) :: y.Some? && y.value.handle == x.value.handle ==> y == x
    ensures k < |st.slots| && st.slots[k] == x
  {
    InBag(st.slots, None, x);
    if k < |st.slots| {
      InBag(st.slots, None, st.slots[k]);
    }
  }

  /** One packet's events say what happened to the contents. */
  lemma EventsBalance(slots: seq<Slot>, packet: Packet, udid: UdidRule)
    ensures var events := EventsOf(slots, packet, udid);
      Bag(SlotsAfter(slots, packet, udid), None) + Reported(events, Removed)
      == Bag(slots, None) + Reported(events, Added)
  {
    hide Bag, Put, Reported;
    NoReport();
    match packet
    case Lost =>
      AllRemoved(slots);
      BagFilled<Slot>(|slots|, None);
    case AddDevice(record) =>
      SingleReport(Event(Added, InfoOf(record, udid)));
      PutAdds(slots, None, Some(InfoOf(record, udid)));
    case RemoveDevice(handle) => OneRemoved(slots, handle);
    case _ =>
  }

  lemma OneRemoved(slots: seq<Slot>, handle: u32)
    ensures var k := FindHandle(slots, handle); k < |slots| ==>
      Bag(slots[k := None], None) + Reported([Event(Removed, slots[k].value)], Removed)
        == Bag(slots, None) + Reported([Event(Removed, slots[k].value)], Added)
  {
    hide Bag, Reported;
    var k := FindHandle(slots, handle);
    if k < |slots| {
      TakeRemoves(slots, None, k);
      SingleReport(Event(Removed, slots[k].value));
      assert Bag(slots, None) == Bag(slots[k := None], None) + multiset{slots[k]};
    }
  }

  lemma NoReport()
    ensures forall kind :: Reported([], kind) == multiset{}
  {
  }

  lemma SingleReport(e: Event)
    ensures Reported([e], e.kind) == multiset{Some(e.info)}
    ensures forall kind | kind != e.kind :: Reported([e], kind) == multiset{}
  {
    assert [e][1..] == [];
  }

  lemma Cancel<T>(r: multiset<T>, x: multiset<T>, y: multiset<T>)
    ensures r + x == r + y <==> x == y
  {
    if r + x == r + y {
      assert x == (r + x) - r && y == (r + y) - r;
    }
  }

  /** Packets that do nothing to the devices: losing a connection without any, removing one that is not there, and
      everything that is neither an addition nor a removal. */
  predicate Idle(slots: seq<Slot>, packet: Packet) {
    match packet
    case Lost => forall i | 0 <= i < |slots| :: slots[i] == None
    case AddDevice(_) => false
    case RemoveDevice(handle) => FindHandle(slots, handle) == |slots|
    case _ => true
  }

  lemma IdleMeans(slots: seq<Slot>, packet: Packet, udid: UdidRule)
    ensures Bag(SlotsAfter(slots, packet, udid), None) == Bag(slots, None) <==> Idle(slots, packet)
  {
    hide Bag, Put;
    match packet
    case Lost => LostIdle(slots);
    case AddDevice(record) =>
      PutAdds(slots, None, Some(InfoOf(record, udid)));
      Grown(Bag(slots, None), Some(InfoOf(record, udid)));
    case RemoveDevice(handle) =>
      var k := FindHandle(slots, handle);
      if k < |slots| {
        TakeRemoves(slots, None, k);
        Grown(Bag(slots[k := None], None), slots[k]);
        assert Bag(slots, None) == Bag(slots[k := None], None) + multiset{slots[k]};
      }
    case _ =>
  }

  lemma LostIdle(slots: seq<Slot>)
    ensures Bag(Filled(|slots|, None), None) == Bag(slots, None) <==> Idle(slots, Lost)
  {
    BagFilled<Slot>(|slots|, None);
    hide Bag;
    if Idle(slots, Lost) {
      assert slots == Filled(|slots|, None);
    } else {
      var i :| 0 <= i < |slots| && slots[i] != None;
      TakeRemoves(slots, None, i);
    }
  }

  lemma Grown<T>(m: multiset<T>, x: T)
    ensures m + multiset{x} != m
  {
    assert (m + multiset{x})[x] == m[x] + 1;
  }

  /** Packet by packet: with a callback the balance is kept; without one, exactly by the packets that do nothing. */
  lemma StepConserves(st: State, packet: Packet, callback: bool, udid: UdidRule)
    requires Conserved(st)
    ensures Conserved(Step(st, packet, callback, udid)) <==> callback || Idle(st.slots, packet)
  {
    hide Reported, SlotsAfter, EventsOf, Bag, Idle;
    var next := Step(st, packet, callback, udid);
    IdleMeans(st.slots, packet, udid);
    if callback {
      var events := EventsOf(st.slots, packet, udid);
      ReportedJoin(st.log, events, Added);
      ReportedJoin(st.log, events, Removed);
      EventsBalance(st.slots, packet, udid);
      Balanced(Reported(st.log, Added), Reported(st.log, Removed), Contents(st), Contents(next),
               Reported(events, Added), Reported(events, Removed));
    } else {
      assert next.log == st.log;
      Cancel(Reported(st.log, Removed), Contents(next), Contents(st));
    }
  }

  /** A first device that is not reported to anybody: the balance is lost. */
  lemma UnreportedDevice(record: Record, udid: UdidRule)
    ensures Conserved(START) && !Conserved(Step(START, AddDevice(record), false, udid))
  {
    assert START.slots[1..] == [];
    StepConserves(START, AddDevice(record), false, udid);
  }

  lemma Balanced<T>(added: multiset<T>, removed: multiset<T>, held: multiset<T>, holds: multiset<T>,
                    more: multiset<T>, less: multiset<T>)
    requires added == removed + held && holds + less == held + more
    ensures added + more == removed + less + holds
  {
    assert added + more == removed + (held + more);
  }

  /** Over every run. */
  lemma {:induction false} RunConserves(st: State, packets: seq<Packet>, udid: UdidRule)
    requires Conserved(st)
    ensures Conserved(Run(st, packets, udid))
    decreases |packets|
  {
    if packets != [] {
      StepConserves(st, packets[0], true, udid);
      RunConserves(Step(st, packets[0], true, udid), packets[1..], udid);
    }
  }

  /** At no point were more of a device reported removed than had been reported added. */
  predicate NeverOverdrawn(log: seq<Event>) {
    forall n | 0 <= n <= |log| :: Reported(log[..n], Removed) <= Reported(log[..n], Added)
  }

  lemma {:induction false} RemovedSoFar(slots: seq<Slot>, n: nat)
    requires n <= |Compact(slots)|
    ensures Reported(Removals(Compact(slots))[..n], Removed) <= Bag(slots, None)
    ensures Reported(Removals(Compact(slots))[..n], Added) == multiset{}
  {
    var events := Removals(Compact(slots));
    AllRemoved(slots);
    assert events == events[..n] + events[n..];
    ReportedJoin(events[..n], events[n..], Removed);
    ReportedJoin(events[..n], events[n..], Added);
  }

  /** More events keep it so, if each prefix of them takes no more than the balance. */
  lemma OverdrawnNot(log: seq<Event>, more: seq<Event>, balance: multiset<Slot>)
    requires NeverOverdrawn(log) && Reported(log, Added) == Reported(log, Removed) + balance
    requires forall n | 0 <= n <= |more| :: Reported(more[..n], Removed) <= balance + Reported(more[..n], Added)
    ensures NeverOverdrawn(log + more)
  {
    hide Reported;
    forall n | 0 <= n <= |log + more|
      ensures Reported((log + more)[..n], Removed) <= Reported((log + more)[..n], Added)
    {
      if n <= |log| {
        assert (log + more)[..n] == log[..n];
      } else {
        var m := n - |log|;
        assert (log + more)[..n] == log + more[..m];
        ReportedJoin(log, more[..m], Added);
        ReportedJoin(log, more[..m], Removed);
      }
    }
  }

  /** Each removal that is reported is of a device that was reported added and not yet removed. */
  lemma {:induction false} RemovalsWereAdded(st: State, packets: seq<Packet>, udid: UdidRule)
    requires Conserved(st) && NeverOverdrawn(st.log)
    ensures NeverOverdrawn(Run(st, packets, udid).log)
    decreases |packets|
  {
    if packets != [] {
      StepConserves(st, packets[0], true, udid);
      StepOverdraws(st, packets[0], udid);
      RemovalsWereAdded(Step(st, packets[0], true, udid), packets[1..], udid);
    }
  }

  lemma StepOverdraws(st: State, packet: Packet, udid: UdidRule)
    requires Conserved(st) && NeverOverdrawn(st.log)
    ensures NeverOverdrawn(Step(st, packet, true, udid).log)
  {
    hide NeverOverdrawn, Reported, Bag;
    var more := EventsOf(st.slots, packet, udid);
    forall n | 0 <= n <= |more|
      ensures Reported(more[..n], Removed) <= Contents(st) + Reported(more[..n], Added)
    {
      WithinBalance(st.slots, packet, udid, n);
    }
    OverdrawnNot(st.log, more, Contents(st));
  }

  lemma WithinBalance(slots: seq<Slot>, packet: Packet, udid: UdidRule, n: nat)
    requires n <= |EventsOf(slots, packet, udid)|
    ensures var more := EventsOf(slots, packet, udid)[..n];
      Reported(more, Removed) <= Bag(slots, None) + Reported(more, Added)
  {
    if packet.Lost? {
      RemovedSoFar(slots, n);
    } else {
      var events := EventsOf(slots, packet, udid);
      if n == 0 {
        assert events[..n] == [];
      } else {
        assert events[..n] == [events[0]];
        SingleReport(events[0]);
        if packet.RemoveDevice? {
          TakeRemoves(slots, None, FindHandle(slots, packet.handle));
        }
      }
    }
  }

  // ----- the monitor

  /** The devices in the slots, as what is known about them. */
  function View(slots: seq<Device?>): (v: seq<Slot>)
    ensures |v| == |slots|
    ensures forall i | 0 <= i < |slots| :: v[i] == if slots[i] == null then None else Some(slots[i].info)
  {
    seq(|slots|, i requires 0 <= i < |slots| => if slots[i] == null then None else Some(slots[i].info))
  }

  /** No device sits in two slots, and none that was freed in any. */
  ghost predicate Safe(slots: seq<Device?>, freed: set<Device>) {
    && (forall i, j | 0 <= i < j < |slots| && slots[i] != null :: slots[i] != slots[j])
    && (forall i | 0 <= i < |slots| && slots[i] != null :: slots[i] !in freed)
  }

  lemma ViewPut(slots: seq<Device?>, d: Device)
    ensures View(Put(slots, null, d)) == Put(View(slots), None, Some(d.info))
  {
    assert IndexOf(View(slots), None) == IndexOf(slots, null);
  }

  lemma SafePut(slots: seq<Device?>, d: Device, freed: set<Device>)
    requires Safe(slots, freed) && d !in slots && d !in freed
    ensures Safe(Put(slots, null, d), freed)
  {
  }

  lemma {:induction false} CompactJoin(a: seq<Slot>, b: seq<Slot>)
    ensures Compact(a + b) == Compact(a) + Compact(b)
  {
    if a == [] {
      assert a + b == b;
    } else {
      FirstAndRest(a, b);
      CompactJoin(a[1..], b);
    }
  }

  lemma FirstAndRest<T>(a: seq<T>, b: seq<T>)
    requires a != []
    ensures a + b != [] && (a + b)[0] == a[0] && (a + b)[1..] == a[1..] + b
  {
  }

  /** Going one slot further in slot order. */
  lemma CompactNext(slots: seq<Slot>, k: nat)
    requires k < |slots|
    ensures Compact(slots[..k + 1]) == Compact(slots[..k]) + if slots[k].Some? then [slots[k].value] else []
  {
    assert slots[..k + 1] == slots[..k] + [slots[k]];
    CompactJoin(slots[..k], [slots[k]]);
    assert [slots[k]][1..] == [];
  }

  class Monitor {
    const devices: Collection<Device?>
    const udid: UdidRule
    var log: seq<Event>
    ghost var freed: set<Device>

    ghost predicate Valid()
      reads this, devices, devices.list
    {
      devices.Valid() && devices.none == null && Safe(devices.list[..], freed)
    }

    ghost function Value(): State
      reads this, devices, devices.list
    {
      State(View(devices.list[..]), log)
    }

    /** The start of `device_monitor` */
    constructor (udid: UdidRule)
      ensures Valid() && Value() == START && this.udid == udid && fresh(devices) && fresh(devices.list)
    {
      this.udid := udid;
      devices := new Collection<Device?>(null);
      log := [];
      freed := {};
    }

    /** `generate_event` */
    method Generate(callback: bool, dev: Device?, kind: Kind)
      modifies this`log
      ensures log == old(log) + if callback && dev != null then [Event(kind, dev.info)] else []
    {
      if !callback || dev == null {
        return;
      }
      log := log + [Event(kind, dev.info)];
    }

    /** `devices_find` */
    method Find(handle: u32) returns (dev: Device?)
      requires Valid()
      ensures var v := View(devices.list[..]); var k := FindHandle(v, handle);
        dev == if k < |v| then devices.list[k] else null
    {
      ghost var v := View(devices.list[..]);
      var i := 0;
      while i < devices.capacity
        invariant i <= devices.capacity && i <= FindHandle(v, handle)
      {
        dev := devices.list[i];
        if dev != null && dev.info.handle == handle {
          return;
        }
        i := i + 1;
      }
      dev := null;
    }

    /** Taking a device out and freeing it, which happens to no device twice. */
    method Drop(dev: Device, ghost k: nat)
      requires Valid() && k < devices.list.Length && devices.list[k] == dev
      modifies this`freed, devices.list
      ensures Valid() && devices.list[..] == old(devices.list[..])[k := null] && freed == old(freed) + {dev}
    {
      assert IndexOf(devices.list[..], dev) == k;
      var _ := devices.Remove(dev);
      assert dev !in freed;
      freed := freed + {dev};
    }

    /** The loop over all devices of `get_next_event` and of `device_monitor_cleanup`; only the first reports them. */
    method DropAll(callback: bool)
      requires Valid()
      modifies this`log, this`freed, devices.list
      ensures Valid()
      ensures Value() == var was := old(Value());
        State(Filled(|was.slots|, None), was.log + if callback then Removals(Compact(was.slots)) else [])
      ensures forall k | 0 <= k < devices.list.Length :: old(devices.list[k]) == null || old(devices.list[k]) in freed
    {
      ghost var was := devices.list[..];
      ghost var v := View(was);
      var i := 0;
      while i < devices.capacity
        invariant i <= devices.capacity == |was| && Valid()
        invariant forall k | 0 <= k < i :: devices.list[k] == null
        invariant forall k | i <= k < |was| :: devices.list[k] == was[k]
        invariant forall k | 0 <= k < i :: was[k] == null || was[k] in freed
        invariant log == old(log) + if callback then Removals(Compact(v[..i])) else []
      {
        CompactNext(v, i);
        var dev := devices.list[i];
        if dev != null {
          Generate(callback, dev, Removed);
          Drop(dev, i);
        }
        i := i + 1;
      }
      assert v[..i] == v;
      assert View(devices.list[..]) == Filled(|was|, None);
    }

    /** `get_next_event` */
    method GetNextEvent(packet: Packet, callback: bool) returns (outcome: Outcome)
      requires Valid()
      modifies this`log, this`freed, devices, devices.list
      ensures Valid() && (devices.list == old(devices.list) || fresh(devices.list))
      ensures outcome == OutcomeOf(packet)
      ensures Value() == Step(old(Value()), packet, callback, udid)
    {
      match packet {
        case Lost =>
          DropAll(callback);
          return IoError;
        case NoPayload =>
          return BadMessage;
        case AddDevice(record) => DeviceAdded(record, callback);
        case RemoveDevice(handle) => DeviceRemoved(handle, callback);
        case OtherMessage =>
      }
      outcome := Handled;
    }

    method DeviceAdded(record: Record, callback: bool)
      requires Valid()
      modifies this`log, devices, devices.list
      ensures Valid() && (devices.list == old(devices.list) || fresh(devices.list))
      ensures Value() == Step(old(Value()), AddDevice(record), callback, udid)
    {
      var devinfo := new Device(InfoOf(record, udid));
      ViewPut(devices.list[..], devinfo);
      SafePut(devices.list[..], devinfo, freed);
      devices.Add(devinfo);
      Generate(callback, devinfo, Added);
    }

    method DeviceRemoved(handle: u32, callback: bool)
      requires Valid()
      modifies this`log, this`freed, devices.list
      ensures Valid()
      ensures Value() == Step(old(Value()), RemoveDevice(handle), callback, udid)
    {
      var devinfo := Find(handle);
      if devinfo != null {
        ghost var v := View(devices.list[..]);
        ghost var k := FindHandle(v, handle);
        Generate(callback, devinfo, Removed);
        Drop(devinfo, k);
        assert View(devices.list[..]) == v[k := None];
      }
    }

    /** `device_monitor_cleanup` */
    method Cleanup()
      requires Valid()
      modifies this`log, this`freed, devices.list
      ensures Valid() && log == old(log) && Contents(Value()) == multiset{}
      ensures forall k | 0 <= k < devices.list.Length :: old(devices.list[k]) == null || old(devices.list[k]) in freed
    {
      DropAll(false);
      BagFilled<Slot>(devices.list.Length, None);
    }
  }

  // ----- listing the devices

  function SlotsRun(slots: seq<Slot>, packets: seq<Packet>, udid: UdidRule): seq<Slot>
    decreases |packets|
  {
    if packets == [] then slots else SlotsRun(SlotsAfter(slots, packets[0], udid), packets[1..], udid)
  }

  lemma {:induction false} SlotsRunNext(slots: seq<Slot>, packets: seq<Packet>, k: nat, udid: UdidRule)
    requires k < |packets|
    ensures SlotsRun(slots, packets[..k + 1], udid) == SlotsAfter(SlotsRun(slots, packets[..k], udid), packets[k], udid)
    decreases k
  {
    var next := SlotsAfter(slots, packets[0], udid);
    assert packets[..k + 1][1..] == packets[1..][..k];
    if k > 0 {
      assert packets[..k][1..] == packets[1..][..k - 1];
      SlotsRunNext(next, packets[1..], k - 1, udid);
    }
  }

  lemma {:induction false} RunSlots(st: State, packets: seq<Packet>, udid: UdidRule)
    ensures Run(st, packets, udid).slots == SlotsRun(st.slots, packets, udid)
    decreases |packets|
  {
    if packets != [] {
      RunSlots(Step(st, packets[0], true, udid), packets[1..], udid);
    }
  }

  lemma {:induction false} CompactIsBag(slots: seq<Slot>)
    ensures |Compact(slots)| == |Bag(slots, None)|
    ensures forall x :: multiset(Compact(slots))[x] == Bag(slots, None)[Some(x)]
    decreases |slots|
  {
    if slots != [] {
      CompactIsBag(slots[1..]);
      if slots[0].Some? {
        assert Compact(slots) == [slots[0].value] + Compact(slots[1..]);
      }
    }
  }

  /** The part of `usbmuxd_get_device_list` that receives device packets until one cannot be received, and copies what
      it has. It lists what a monitor that got the same packets holds, in slot order. */
  method DeviceList(packets: seq<Packet>, udid: UdidRule) returns (list: seq<Info>, count: nat)
    requires forall i | 0 <= i < |packets| :: !packets[i].Lost? && !packets[i].NoPayload?
    ensures list == Compact(Run(START, packets, udid).slots)
    ensures count == |list|
  {
    hide Put, FindHandle;
    var tmpdevs := new Collection<Device?>(null);
    assert packets[..0] == [] && View(tmpdevs.list[..]) == [None];
    var n := 0;
    while n < |packets|
      invariant n <= |packets| && fresh(tmpdevs) && fresh(tmpdevs.list) && tmpdevs.Valid() && tmpdevs.none == null
      invariant View(tmpdevs.list[..]) == SlotsRun([None], packets[..n], udid)
    {
      SlotsRunNext([None], packets, n, udid);
      ghost var v := View(tmpdevs.list[..]);
      match packets[n] {
        case AddDevice(record) =>
          AddListed(tmpdevs, InfoOf(record, udid));
        case RemoveDevice(handle) =>
          RemoveListed(tmpdevs, handle);
        case _ =>
      }
      assert View(tmpdevs.list[..]) == SlotsAfter(v, packets[n], udid);
      n := n + 1;
    }
    assert packets[..n] == packets;
    RunSlots(START, packets, udid);
    list, count := CopyAll(tmpdevs);
  }

  method AddListed(tmpdevs: Collection<Device?>, info: Info)
    requires tmpdevs.Valid() && tmpdevs.none == null
    modifies tmpdevs, tmpdevs.list
    ensures tmpdevs.Valid() && (tmpdevs.list == old(tmpdevs.list) || fresh(tmpdevs.list))
    ensures View(tmpdevs.list[..]) == Put(old(View(tmpdevs.list[..])), None, Some(info))
  {
    hide Put;
    var devinfo := new Device(info);
    ViewPut(tmpdevs.list[..], devinfo);
    tmpdevs.Add(devinfo);
  }

  method RemoveListed(tmpdevs: Collection<Device?>, handle: u32)
    requires tmpdevs.Valid() && tmpdevs.none == null
    modifies tmpdevs.list
    ensures View(tmpdevs.list[..])
      == var v := old(View(tmpdevs.list[..])); var k := FindHandle(v, handle); if k < |v| then v[k := None] else v
  {
    ghost var v := View(tmpdevs.list[..]);
    ghost var k := FindHandle(v, handle);
    var devinfo: Device? := null;
    var i := 0;
    while i < tmpdevs.capacity
      invariant i <= tmpdevs.capacity && i <= k && devinfo == null
    {
      var di := tmpdevs.list[i];
      if di != null && di.info.handle == handle {
        devinfo := di;
        break;
      }
      i := i + 1;
    }
    if devinfo != null {
      assert IndexOf(tmpdevs.list[..], devinfo) == k;
      var _ := tmpdevs.Remove(devinfo);
      assert View(tmpdevs.list[..]) == v[k := None];
    }
  }

  method CopyAll(tmpdevs: Collection<Device?>) returns (list: seq<Info>, count: nat)
    requires tmpdevs.Valid() && tmpdevs.none == null
    ensures list == Compact(View(tmpdevs.list[..])) && count == |list|
  {
    ghost var v := View(tmpdevs.list[..]);
    list, count := [], 0;
    var i := 0;
    while i < tmpdevs.capacity
      invariant i <= tmpdevs.capacity && list == Compact(v[..i]) && count == |list|
    {
      CompactNext(v, i);
      if tmpdevs.list[i] != null {
        list := list + [tmpdevs.list[i].info];
        count := count + 1;
      }
      i := i + 1;
    }
    assert v[..i] == v;
  }
}