/** The device table and bond state of RRemoteDevices.cpp. */
module BtDevices {
  import opened Bytes

  /** `bt_bdaddr_t`: six bytes. */
  type Addr = a: seq<byte> | |a| == 6 witness [0, 0, 0, 0, 0, 0]

  // ---------------------------------------------------------------- address order

  /** The number an address spells, first byte highest. */
  function Value(s: seq<byte>): nat {
    if s == [] then 0 else Value(s[..|s| - 1]) * 256 + Int(s[|s| - 1])
  }

  lemma {:induction false} ValueOrder(a: seq<byte>, b: seq<byte>, i: nat)
    requires |a| == |b| && i < |a| && a[..i] == b[..i] && Int(a[i]) < Int(b[i])
    ensures Value(a) < Value(b)
  {
    hide Int;
    var n := |a| - 1;
    if i == n {
      assert a[..n] == b[..n];
    } else {
      assert a[..n][..i] == a[..i] && b[..n][..i] == b[..i];
      ValueOrder(a[..n], b[..n], i);
    }
  }

  /** `compare_addr` orders addresses as numbers and is zero only for equal ones,
      so AddrKey::operator< is a strict total order and the table a map. */
  method CompareAddr(addr1: Addr, addr2: Addr) returns (ret: int)
    ensures ret < 0 <==> Value(addr1) < Value(addr2)
    ensures ret > 0 <==> Value(addr1) > Value(addr2)
    ensures ret == 0 <==> addr1 == addr2
  {
    for i := 0 to 6
      invariant addr1[..i] == addr2[..i]
    {
      ret := Int(addr1[i]) - Int(addr2[i]);
      if ret != 0 {
        if ret < 0 { ValueOrder(addr1, addr2, i); } else { ValueOrder(addr2, addr1, i); }
        return;
      }
      SameByte(addr1[i], addr2[i]);
    }
    assert addr1 == addr1[..6] && addr2 == addr2[..6];
    return 0;
  }

  lemma SameByte(a: byte, b: byte)
    requires Int(a) == Int(b)
    ensures a == b
  {}

  lemma DivMod(q: nat, r: nat)
    requires r < 256
    ensures (q * 256 + r) / 256 == q && (q * 256 + r) % 256 == r
  {}

  lemma {:induction false} ValueInjective(a: seq<byte>, b: seq<byte>)
    requires |a| == |b| && Value(a) == Value(b)
    ensures a == b
  {
    hide Int;
    if a != [] {
      var n := |a| - 1;
      DivMod(Value(a[..n]), Int(a[n]));
      DivMod(Value(b[..n]), Int(b[n]));
      ValueInjective(a[..n], b[..n]);
      SameByte(a[n], b[n]);
      assert a == a[..n] + [a[n]] && b == b[..n] + [b[n]];
    }
  }

  /** The key order the table keeps. */
  predicate Ordered(keys: seq<Addr>) {
    keys == [] || (Ordered(keys[1..]) && forall b | b in keys[1..] :: Value(keys[0]) < Value(b))
  }

  /** `KeyedVector::add` on the keys. */
  function InsertKey(keys: seq<Addr>, a: Addr): (r: seq<Addr>)
    ensures forall b :: b in r <==> b in keys || b == a
  {
    if keys == [] || Value(a) < Value(keys[0]) then [a] + keys
    else if Value(a) == Value(keys[0]) then ValueInjective(a, keys[0]); keys
    else [keys[0]] + InsertKey(keys[1..], a)
  }

  lemma {:induction false} InsertOrdered(keys: seq<Addr>, a: Addr)
    requires Ordered(keys)
    ensures Ordered(InsertKey(keys, a))
  {
    hide Value;
    if keys == [] || Value(a) < Value(keys[0]) {
      assert ([a] + keys)[1..] == keys;
      assert keys != [] ==> forall b | b in keys :: b == keys[0] || b in keys[1..];
    } else if Value(a) > Value(keys[0]) {
      InsertOrdered(keys[1..], a);
      var rest := InsertKey(keys[1..], a);
      assert ([keys[0]] + rest)[1..] == rest;
    }
  }

  // ---------------------------------------------------------------- bond table

  datatype BondState = NotBonded | Bonding | Bonded

  /** What reaches the table: a bond state change, or any other event that looks
      a device up and adds it when it is new. */
  datatype Event =
    | BondEvent(success: bool, addr: Addr, state: BondState)
    | Mention(addr: Addr)

  /** The bond state per known device, and the bonded device, if there is one. */
  datatype Table = Table(states: map<Addr, BondState>, bonded: Option<Addr>)

  function Step(t: Table, e: Event): Table {
    match e
    case Mention(a) => if a in t.states then t else t.(states := t.states[a := NotBonded])
    case BondEvent(success, a, state) =>
      if state == Bonding then t.(states := t.states[a := Bonding])
      else if state == Bonded && success then Table(t.states[a := Bonded], Some(a))
      else Table(t.states[a := NotBonded], None)
  }

  function Run(events: seq<Event>): Table {
    if events == [] then Table(map[], None)
    else Step(Run(events[..|events| - 1]), events[|events| - 1])
  }

  predicate IsBonded(t: Table) {
    t.bonded.Some? && t.bonded.value in t.states && t.states[t.bonded.value] == Bonded
  }

  /** Event `i` bonded `a`, and since then there were only lookups and bonding
      attempts with others. */
  ghost predicate BondedAt(events: seq<Event>, i: nat, a: Addr) {
    && i < |events| && events[i] == BondEvent(true, a, Bonded)
    && forall j | i < j < |events| ::
         events[j].Mention? || (events[j].state == Bonding && events[j].addr != a)
  }

  /** As long as nothing but lookups and BONDING events follow event `i`, the
      bonded device stays where it put it. */
  ghost predicate PointedAt(events: seq<Event>, i: nat, a: Addr) {
    && i < |events| && events[i] == BondEvent(true, a, Bonded)
    && forall j | i < j < |events| :: events[j].Mention? || events[j].state == Bonding
  }

  ghost predicate Pointed(events: seq<Event>, a: Addr) { exists i: nat :: PointedAt(events, i, a) }

  ghost predicate BondedTo(events: seq<Event>, a: Addr) { exists i: nat :: BondedAt(events, i, a) }

  ghost predicate HistoryInv(events: seq<Event>) {
    var t := Run(events);
    && (t.bonded.Some? ==> t.bonded.value in t.states)
    && (forall a :: t.bonded == Some(a) <==> Pointed(events, a))
    && (forall a | t.bonded == Some(a) :: t.states[a] == Bonded <==> BondedTo(events, a))
  }

  lemma SnocHistory(before: seq<Event>, e: Event, a: Addr)
    ensures var events := before + [e];
            && (Pointed(events, a) <==>
                  e == BondEvent(true, a, Bonded) || ((e.Mention? || e.state == Bonding) && Pointed(before, a)))
            && (BondedTo(events, a) <==>
                  || e == BondEvent(true, a, Bonded)
                  || ((e.Mention? || (e.state == Bonding && e.addr != a)) && BondedTo(before, a)))
  {
    var events := before + [e];
    if e == BondEvent(true, a, Bonded) {
      assert PointedAt(events, |before|, a) && BondedAt(events, |before|, a);
    } else {
      assert events[|before|] == e;
      assert forall j | 0 <= j < |before| :: events[j] == before[j];
      forall i: nat ensures PointedAt(events, i, a) <==> (e.Mention? || e.state == Bonding) && PointedAt(before, i, a) {
        if i < |before| { assert events[i] == before[i]; }
      }
      forall i: nat
        ensures BondedAt(events, i, a) <==> (e.Mention? || (e.state == Bonding && e.addr != a)) && BondedAt(before, i, a)
      {
        if i < |before| { assert events[i] == before[i]; }
      }
    }
  }

  lemma HistoryStep(before: seq<Event>, e: Event)
    requires HistoryInv(before)
    ensures HistoryInv(before + [e])
  {
    hide Pointed, BondedTo;
    var events := before + [e];
    assert events[..|before|] == before && events[|before|] == e;
    forall a
      ensures Pointed(events, a) <==>
        e == BondEvent(true, a, Bonded) || ((e.Mention? || e.state == Bonding) && Pointed(before, a))
      ensures BondedTo(events, a) <==>
        || e == BondEvent(true, a, Bonded)
        || ((e.Mention? || (e.state == Bonding && e.addr != a)) && BondedTo(before, a))
    {
      SnocHistory(before, e, a);
    }
  }

  lemma {:induction false} HistoryHolds(events: seq<Event>)
    ensures HistoryInv(events)
  {
    if events == [] {
      assert HistoryInv([]);
    } else {
      hide HistoryInv;
      var before, e := events[..|events| - 1], events[|events| - 1];
      HistoryHolds(before);
      HistoryStep(before, e);
      assert events == before + [e];
    }
  }

  /** Over every history: bonded iff the last event that neither is BONDING nor a
      mere lookup is a successful BONDED of some device that no BONDING event
      names since; and the bonded device, if any, is in the table. */
  lemma BondFromHistory(events: seq<Event>)
    ensures IsBonded(Run(events)) <==> exists a :: BondedTo(events, a)
    ensures Run(events).bonded.Some? ==> Run(events).bonded.value in Run(events).states
  {
    HistoryHolds(events);
    var t := Run(events);
    forall a | BondedTo(events, a) ensures t.bonded == Some(a) {
      var i: nat :| BondedAt(events, i, a);
      assert PointedAt(events, i, a);
      assert Pointed(events, a);
    }
  }

  /** What the last bond event of a device left: None when there was no such event. */
  function LastBond(events: seq<Event>, a: Addr): Option<BondState> {
    if events == [] then None
    else
      match events[|events| - 1]
      case BondEvent(success, b, state) =>
        if b != a then LastBond(events[..|events| - 1], a)
        else if state == Bonding then Some(Bonding)
        else if state == Bonded && success then Some(Bonded)
        else Some(NotBonded)
      case Mention(_) => LastBond(events[..|events| - 1], a)
  }

  /** Event `i` names the device. */
  predicate Names(e: Event, a: Addr) { e.addr == a }

  /** Over every history the table holds exactly the devices some event named, each
      with the state of its last bond event, and not bonded before the first. */
  lemma {:induction false} StatesFromHistory(events: seq<Event>, a: Addr)
    ensures a in Run(events).states <==> exists i: nat :: i < |events| && Names(events[i], a)
    ensures a in Run(events).states ==>
              Run(events).states[a] == match LastBond(events, a) case Some(state) => state case None => NotBonded
    ensures LastBond(events, a).Some? ==> a in Run(events).states
  {
    if events != [] {
      var n := |events| - 1;
      var before := events[..n];
      StatesFromHistory(before, a);
      assert forall i: nat | i < n :: before[i] == events[i];
      if Names(events[n], a) {
        assert a in Run(events).states;
      } else if a in Run(before).states {
        var i: nat :| i < n && Names(before[i], a);
        assert Names(events[i], a);
      }
    }
  }

  // ---------------------------------------------------------------- the classes

  class DeviceProperties {
    var mAddress: Addr
    var mBondState: BondState
    var mIsFound: bool

    constructor (addr: Addr)
      ensures mAddress == addr && mBondState == NotBonded && !mIsFound
    {
      mAddress, mBondState, mIsFound := addr, NotBonded, false;
    }
  }

  /** The keys are in order and are those of the table. */
  ghost predicate Listed(keys: seq<Addr>, known: set<Addr>) {
    Ordered(keys) && forall a :: a in keys <==> a in known
  }

  lemma ListedInsert(keys: seq<Addr>, known: set<Addr>, a: Addr)
    requires Listed(keys, known)
    ensures Listed(InsertKey(keys, a), known + {a})
  {
    InsertOrdered(keys, a);
  }

  /** No device stands under two keys. */
  ghost predicate Distinct(devices: map<Addr, DeviceProperties>) {
    forall a, b | a in devices && b in devices && a != b :: devices[a] != devices[b]
  }

  lemma DistinctInsert(devices: map<Addr, DeviceProperties>, a: Addr, device: DeviceProperties)
    requires Distinct(devices) && device !in devices.Values
    ensures Distinct(devices[a := device])
  {}

  class RRemoteDevices {
    var mIsFound: bool
    var mBondDevice: DeviceProperties?
    /** The keyed vector: its keys in order, and what each key names. */
    var mKeys: seq<Addr>
    var mDevices: map<Addr, DeviceProperties>
    /** The key of the bonded device. */
    ghost var bondKey: Addr

    ghost predicate Valid()
      reads this, mDevices.Values
    {
      && Listed(mKeys, mDevices.Keys)
      && Distinct(mDevices)
      && (mBondDevice != null ==> bondKey in mDevices && mDevices[bondKey] == mBondDevice)
    }

    ghost function Abs(): (t: Table)
      reads this, mDevices.Values
      ensures t.states.Keys == mDevices.Keys
    {
      Table(map a | a in mDevices :: mDevices[a].mBondState,
            if mBondDevice == null then None else Some(bondKey))
    }

    constructor ()
      ensures Valid() && Abs() == Run([]) && mDevices == map[] && !mIsFound
    {
      mIsFound, mBondDevice, mKeys, mDevices := false, null, [], map[];
    }

    method GetDevice(addr: Addr) returns (device: DeviceProperties?)
      requires Valid()
      ensures device == if addr in mDevices then mDevices[addr] else null
    {
      for i := 0 to |mKeys|
        invariant addr !in mKeys[..i]
      {
        var c := CompareAddr(mKeys[i], addr);
        if c == 0 { return mDevices[mKeys[i]]; }
        assert mKeys[..i + 1] == mKeys[..i] + [mKeys[i]];
      }
      assert mKeys[..|mKeys|] == mKeys;
      return null;
    }

    method AddDevice(addr: Addr) returns (device: DeviceProperties)
      requires Valid() && addr !in mDevices
      modifies this`mKeys, this`mDevices
      ensures Valid() && fresh(device) && mDevices == old(mDevices)[addr := device]
      ensures device.mAddress == addr && !device.mIsFound
      ensures Abs() == Step(old(Abs()), Mention(addr))
    {
      hide Abs, Listed, Distinct, InsertKey;
      device := new DeviceProperties(addr);
      AddKey(addr, device);
    }

    /** `mDevices.add`, for a key that is not there. */
    method AddKey(addr: Addr, device: DeviceProperties)
      requires Valid() && addr !in mDevices && device !in mDevices.Values
      modifies this`mKeys, this`mDevices
      ensures Valid() && mDevices == old(mDevices)[addr := device]
      ensures Abs() == old(Abs()).(states := old(Abs()).states[addr := device.mBondState])
    {
      ListedInsert(mKeys, mDevices.Keys, addr);
      DistinctInsert(mDevices, addr, device);
      hide Listed, Distinct, InsertKey, Value;
      mKeys := InsertKey(mKeys, addr);
      assert mDevices[addr := device].Keys == mDevices.Keys + {addr};
      mDevices := mDevices[addr := device];
    }

    /** Looks a device up and adds it when it is not known. */
    method FindOrAdd(addr: Addr) returns (device: DeviceProperties)
      requires Valid()
      modifies this`mKeys, this`mDevices
      ensures Valid() && addr in mDevices && mDevices[addr] == device
      ensures addr in old(mDevices) ==> mDevices == old(mDevices)
      ensures addr !in old(mDevices) ==> fresh(device) && mDevices == old(mDevices)[addr := device]
      ensures Abs() == Step(old(Abs()), Mention(addr))
    {
      var d := GetDevice(addr);
      if d == null {
        device := AddDevice(addr);
      } else {
        device := d;
      }
    }

    /** Writing one device's state changes that entry of the table alone. */
    method SetBondState(ghost addr: Addr, device: DeviceProperties, state: BondState)
      requires Valid() && addr in mDevices && mDevices[addr] == device
      modifies device`mBondState
      ensures Valid() && Abs() == old(Abs()).(states := old(Abs()).states[addr := state])
    {
      hide Listed;
      device.mBondState := state;
    }

    /** Sets the bonded device, to a device of the table or to null. */
    method SetBondDevice(ghost addr: Addr, device: DeviceProperties?)
      requires Valid() && (device != null ==> addr in mDevices && mDevices[addr] == device)
      modifies this`mBondDevice, this`bondKey
      ensures Valid() && Abs() == old(Abs()).(bonded := if device == null then None else Some(addr))
    {
      hide Listed, Distinct;
      mBondDevice, bondKey := device, addr;
    }

    method BondStateChange(success: bool, addr: Addr, state: BondState)
      requires Valid()
      modifies this`mKeys, this`mDevices, this`mBondDevice, this`bondKey, mDevices.Values
      ensures Valid() && Abs() == Step(old(Abs()), BondEvent(success, addr, state))
    {
      hide Abs, Listed;
      var device := FindOrAdd(addr);
      if state == Bonding {
        SetBondState(addr, device, Bonding);
      } else if state == Bonded && success {
        SetBondState(addr, device, Bonded);
        SetBondDevice(addr, device);
      } else {
        SetBondState(addr, device, NotBonded);
        SetBondDevice(addr, null);
      }
    }

    /** A found device leaves every bond state, and all other found flags, as they
        were. */
    method DeviceFound(addr: Addr)
      requires Valid()
      modifies this`mKeys, this`mDevices, this`mIsFound, mDevices.Values
      ensures Valid() && Abs() == Step(old(Abs()), Mention(addr))
      ensures mIsFound && addr in mDevices && mDevices[addr].mIsFound
      ensures forall a | a in old(mDevices) && a != addr :: a in mDevices && mDevices[a].mIsFound == old(mDevices[a].mIsFound)
    {
      hide Listed, Distinct;
      var device := FindOrAdd(addr);
      mIsFound := true;
      SetFound(addr, device);
    }

    /** Marks one device and no other as found. */
    method SetFound(ghost addr: Addr, device: DeviceProperties)
      requires Valid() && addr in mDevices && mDevices[addr] == device
      modifies device`mIsFound
      ensures Valid() && Abs() == old(Abs()) && device.mIsFound
      ensures forall a | a in mDevices && a != addr :: mDevices[a].mIsFound == old(mDevices[a].mIsFound)
    {
      hide Listed;
      device.mIsFound := true;
    }

    method StartFound()
      modifies this`mIsFound
      ensures !mIsFound
    {
      mIsFound := false;
    }

    method IsBond() returns (r: bool)
      requires Valid()
      ensures r <==> IsBonded(Abs())
    {
      r := mBondDevice != null && mBondDevice.mBondState == Bonded;
    }
  }
}
