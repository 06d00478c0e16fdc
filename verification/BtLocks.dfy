/** The four mutexes of lib/bluetooth and the threads that take them. Every
    method of the client, message and HAL callback threads is given as the
    sequence of lock actions it performs, for every branch and loop count. */
module BtLocks {
  import opened Bytes

  /** Mutexes, in acquisition order: RBluetoothManager::mMutex,
      RAdapterProperties::mMutex, RRemoteDevices::mMutex, mListMutex. */
  datatype Lock = Manager | Props | Remote | List

  function Rank(l: Lock): nat {
    match l
    case Manager => 0
    case Props => 1
    case Remote => 2
    case List => 3
  }

  /** `Park` is a blocking wait that is not for a mutex: a condition wait, a
      sleep or a join. */
  datatype Act = Acq(l: Lock) | Rel(l: Lock) | Park

  // ---------------------------------------------------------------- programs

  function Times(n: nat, acts: seq<Act>): seq<Act> {
    if n == 0 then [] else acts + Times(n - 1, acts)
  }

  function Section(l: Lock, body: seq<Act>): seq<Act> {
    [Acq(l)] + body + [Rel(l)]
  }

  /** `sendMessage`. */
  const SEND: seq<Act> := Section(List, [])

  /** A call into the HAL, which may call back any number of times before it
      returns. */
  function Hal(callbacks: nat): seq<Act> { Times(callbacks, SEND) }

  /** `RAdapterProperties::setState`, `getState`, `isDiscovering`: no HAL call. */
  const PROPS_ONLY: seq<Act> := Section(Props, [])

  /** A section of RAdapterProperties that makes HAL calls with `n` callbacks:
      startDiscovery, cancelDiscovery, onBluetoothDisable, onBluetoothReady,
      discoveryStateChange. */
  function PropsHal(n: nat): seq<Act> { Section(Props, Hal(n)) }

  /** One property in `adapterPropertyChanged`: `updateScanMode` sets properties,
      or resets the found flag and starts discovery, or does neither. */
  function PropsChange(scan: bool, n: nat): seq<Act> {
    Section(Props, (if scan then Section(Remote, []) else []) + Hal(n))
  }

  /** `adapterPropertyChanged` takes the mutex anew for each property. */
  function PropsChanges(changes: seq<(bool, nat)>): seq<Act> {
    if changes == [] then [] else PropsChange(changes[0].0, changes[0].1) + PropsChanges(changes[1..])
  }

  /** A section of RRemoteDevices without HAL call. */
  const REMOTE_ONLY: seq<Act> := Section(Remote, [])

  /** `getDevice`, then `addDevice` when it found nothing. */
  function FindOrAdd(add: bool): seq<Act> {
    REMOTE_ONLY + (if add then REMOTE_ONLY else [])
  }

  const IS_OPENED: seq<Act> := Section(Manager, [])

  /** `isBond`: the device table is asked only when Bluetooth is open. */
  function IsBond(open: bool): seq<Act> {
    IS_OPENED + (if open then REMOTE_ONLY else [])
  }

  /** What a call of `cancelBond` finds: Bluetooth open, a bonded device; and how
      often the HAL calls back. */
  datatype Cancelling = Cancelling(open: bool, bonded: bool, n: nat)

  function CancelBond(c: Cancelling): seq<Act> {
    IsBond(c.open) + (if c.open && c.bonded then Section(Remote, Hal(c.n)) else [])
  }

  /** What a call of `closeBt` finds, and the callbacks of its HAL calls. */
  datatype Closing = Closing(open: bool, a: nat, b: nat, c: nat)

  function CloseBt(c: Closing): seq<Act> {
    Section(Manager, if c.open then PropsHal(c.a) + PROPS_ONLY + PropsHal(c.b) + Hal(c.c) else [])
  }

  /** One `isBond()` after another, each finding Bluetooth open or not; a second's
      sleep follows each. */
  function Polls(opens: seq<bool>): seq<Act> {
    if opens == [] then [] else IsBond(opens[0]) + [Park] + Polls(opens[1..])
  }

  /** The part of a teardown that cancels a bond: the call, the polls that sleep,
      and a last poll unless time ran out. */
  datatype Unbonding = Unbonding(call: Cancelling, polls: seq<bool>, last: Option<bool>)

  function Unbond(u: Unbonding): seq<Act> {
    CancelBond(u.call) + Polls(u.polls) + (if u.last.Some? then IsBond(u.last.value) else [])
  }

  /** The part that closes: the call and the sleeps. */
  datatype Shutting = Shutting(call: Closing, sleeps: nat)

  function Shut(s: Shutting): seq<Act> {
    CloseBt(s.call) + Times(s.sleeps, [Park])
  }

  function OpenBt(already: bool, n: nat): seq<Act> {
    Section(Manager, if already then [] else Hal(n) + PROPS_ONLY)
  }

  function Pairing(open: bool, n: nat): seq<Act> {
    IS_OPENED + (if open then Section(Manager, Hal(n)) else [])
  }

  /** `getSignalStrength`. */
  function Signal(open: bool, bonded: bool, found: bool): seq<Act> {
    IsBond(open)
    + (if open && bonded then REMOTE_ONLY else [])
    + (if open && bonded && found then REMOTE_ONLY else [])
  }

  /** `deinitBt`. */
  function Teardown(open: bool, unbonding: Option<Unbonding>, shutting: Option<Shutting>, n: nat): seq<Act> {
    IsBond(open)
    + (if unbonding.Some? then Unbond(unbonding.value) else [])
    + (if shutting.Some? then Shut(shutting.value) else [])
    + Hal(n) + Section(List, []) + [Park]
  }

  /** The calls of the client thread. */
  datatype ClientCall =
    | CallOpenBt(already: bool, n: nat)
    | CallCloseBt(closing: Closing)
    | CallIsOpened
    | CallDiscovery(n: nat)             // startDiscovery, cancelDiscovery, isDiscovering
    | CallIsBond(open: bool)
    | CallPairing(open: bool, n: nat)
    | CallCancelBond(cancelling: Cancelling)
    | CallIsFound
    | CallIsFoundAddr
    | CallSignal(open: bool, bonded: bool, found: bool)
    | CallTeardown(open: bool, unbonding: Option<Unbonding>, shutting: Option<Shutting>, n: nat)

  function ClientActs(call: ClientCall): seq<Act> {
    match call
    case CallOpenBt(already, n) => OpenBt(already, n)
    case CallCloseBt(closing) => CloseBt(closing)
    case CallIsOpened => IS_OPENED
    case CallDiscovery(n) => PropsHal(n)
    case CallIsBond(open) => IsBond(open)
    case CallPairing(open, n) => Pairing(open, n)
    case CallCancelBond(cancelling) => CancelBond(cancelling)
    case CallIsFound => REMOTE_ONLY
    case CallIsFoundAddr => REMOTE_ONLY + REMOTE_ONLY
    case CallSignal(open, bonded, found) => Signal(open, bonded, found)
    case CallTeardown(open, unbonding, shutting, n) => Teardown(open, unbonding, shutting, n)
  }

  /** One round of the message thread: receive, then one handler. */
  datatype WorkerRound =
    | NoMessage
    | AdapterState(on: bool, n: nat)
    | AdapterProps(changes: seq<(bool, nat)>)
    | RemoteProps(add: bool, num: nat)
    | DeviceFound(add: bool)
    | DiscoveryState(n: nat)
    | PinRequest
    | SspRequest(add: bool, n: nat)
    | BondState(add: bool)
    | AclState(known: bool)

  /** `receiveMessage`: a condition wait gives the mutex up and takes it again. */
  function Receive(wait: bool): seq<Act> {
    if wait then [Acq(List), Rel(List), Park, Acq(List), Rel(List)] else Section(List, [])
  }

  function Handler(round: WorkerRound): seq<Act> {
    match round
    case NoMessage => []
    case AdapterState(on, n) => Section(Manager, if on then PropsHal(n) else [])
    case AdapterProps(changes) => PropsChanges(changes)
    case RemoteProps(add, num) => FindOrAdd(add) + Times(num, REMOTE_ONLY)
    case DeviceFound(add) => FindOrAdd(add) + REMOTE_ONLY
    case DiscoveryState(n) => PropsHal(n)
    case PinRequest => []
    case SspRequest(add, n) => FindOrAdd(add) + Hal(n)
    case BondState(add) => FindOrAdd(add) + REMOTE_ONLY
    case AclState(known) => REMOTE_ONLY + (if known then REMOTE_ONLY else [])
  }

  /** What each thread may run. */
  datatype Item =
    | Client(call: ClientCall)
    | Worker(wait: bool, round: WorkerRound)
    | Callbacks(n: nat)

  function Acts(item: Item): seq<Act> {
    match item
    case Client(call) => ClientActs(call)
    case Worker(wait, round) => Receive(wait) + Handler(round)
    case Callbacks(n) => Hal(n)
  }

  function Program(items: seq<Item>): seq<Act> {
    if items == [] then [] else Acts(items[0]) + Program(items[1..])
  }

  // ---------------------------------------------------------------- discipline

  predicate Below(held: seq<Lock>, l: Lock) {
    forall h | h in held :: Rank(h) < Rank(l)
  }

  /** The locks held after `acts`, or false when some action breaks the
      discipline: acquire only above everything held, release the last one
      taken, park with empty hands. */
  predicate Obeys(held: seq<Lock>, acts: seq<Act>, after: seq<Lock>)
    decreases |acts|
  {
    if acts == [] then held == after
    else match acts[0]
      case Acq(l) => Below(held, l) && Obeys(held + [l], acts[1..], after)
      case Rel(l) => held != [] && held[|held| - 1] == l && Obeys(held[..|held| - 1], acts[1..], after)
      case Park => held == [] && Obeys(held, acts[1..], after)
  }

  lemma {:induction false} ObeysAppend(h0: seq<Lock>, a: seq<Act>, h1: seq<Lock>, b: seq<Act>, h2: seq<Lock>)
    requires Obeys(h0, a, h1) && Obeys(h1, b, h2)
    ensures Obeys(h0, a + b, h2)
    decreases |a|
  {
    if a == [] {
      assert a + b == b;
    } else {
      assert (a + b)[1..] == a[1..] + b;
      match a[0]
      case Acq(l) => ObeysAppend(h0 + [l], a[1..], h1, b, h2);
      case Rel(l) => ObeysAppend(h0[..|h0| - 1], a[1..], h1, b, h2);
      case Park => ObeysAppend(h0, a[1..], h1, b, h2);
    }
  }

  lemma {:induction false} ObeysTimes(h: seq<Lock>, n: nat, a: seq<Act>)
    requires Obeys(h, a, h)
    ensures Obeys(h, Times(n, a), h)
  {
    if n > 0 {
      ObeysTimes(h, n - 1, a);
      ObeysAppend(h, a, h, Times(n - 1, a), h);
    }
  }

  lemma ObeysSection(h: seq<Lock>, l: Lock, body: seq<Act>)
    requires Below(h, l) && Obeys(h + [l], body, h + [l])
    ensures Obeys(h, Section(l, body), h)
  {
    var open := h + [l];
    assert open[..|open| - 1] == h;
    assert Obeys(open, [Rel(l)], h);
    ObeysAppend(open, body, open, [Rel(l)], h);
    assert Section(l, body)[1..] == body + [Rel(l)];
  }

  lemma ObeysRemote(h: seq<Lock>)
    requires Below(h, Remote)
    ensures Obeys(h, REMOTE_ONLY, h)
  {
    ObeysSection(h, Remote, []);
  }

  lemma ObeysHal(h: seq<Lock>, n: nat)
    requires Below(h, List)
    ensures Obeys(h, Hal(n), h)
  {
    ObeysSection(h, List, []);
    ObeysTimes(h, n, SEND);
  }

  lemma ObeysPropsHal(h: seq<Lock>, n: nat)
    requires Below(h, Props)
    ensures Obeys(h, PropsHal(n), h)
  {
    ObeysHal(h + [Props], n);
    ObeysSection(h, Props, Hal(n));
  }

  lemma {:induction false} ObeysPropsChanges(changes: seq<(bool, nat)>)
    ensures Obeys([], PropsChanges(changes), [])
  {
    if changes != [] {
      var (scan, n) := changes[0];
      var found := if scan then Section(Remote, []) else [];
      var h := [] + [Props];
      if scan { ObeysRemote(h); }
      ObeysHal(h, n);
      ObeysAppend(h, found, h, Hal(n), h);
      ObeysSection([], Props, found + Hal(n));
      ObeysPropsChanges(changes[1..]);
      ObeysAppend([], PropsChange(scan, n), [], PropsChanges(changes[1..]), []);
    }
  }

  lemma ObeysIsBond(open: bool)
    ensures Obeys([], IsBond(open), [])
  {
    ObeysSection([], Manager, []);
    ObeysRemote([]);
    ObeysAppend([], IS_OPENED, [], if open then REMOTE_ONLY else [], []);
  }

  lemma ObeysCancelBond(c: Cancelling)
    ensures Obeys([], CancelBond(c), [])
  {
    var Cancelling(open, bonded, n) := c;
    ObeysIsBond(open);
    ObeysHal([] + [Remote], n);
    ObeysSection([], Remote, Hal(n));
    ObeysAppend([], IsBond(open), [], if open && bonded then Section(Remote, Hal(n)) else [], []);
  }

  lemma ObeysCloseBt(closing: Closing)
    ensures Obeys([], CloseBt(closing), [])
  {
    var Closing(open, a, b, c) := closing;
    var h := [] + [Manager];
    ObeysPropsHal(h, a);
    ObeysSection(h, Props, []);
    ObeysPropsHal(h, b);
    ObeysHal(h, c);
    ObeysAppend(h, PropsHal(a), h, PROPS_ONLY, h);
    ObeysAppend(h, PropsHal(a) + PROPS_ONLY, h, PropsHal(b), h);
    ObeysAppend(h, PropsHal(a) + PROPS_ONLY + PropsHal(b), h, Hal(c), h);
    ObeysSection([], Manager, if open then PropsHal(a) + PROPS_ONLY + PropsHal(b) + Hal(c) else []);
  }

  lemma ObeysOpenBt(already: bool, n: nat)
    ensures Obeys([], OpenBt(already, n), [])
  {
    var h := [] + [Manager];
    ObeysHal(h, n);
    ObeysSection(h, Props, []);
    ObeysAppend(h, Hal(n), h, PROPS_ONLY, h);
    ObeysSection([], Manager, if already then [] else Hal(n) + PROPS_ONLY);
  }

  lemma ObeysIsOpened()
    ensures Obeys([], IS_OPENED, [])
  {
    ObeysSection([], Manager, []);
  }

  lemma ObeysPairing(open: bool, n: nat)
    ensures Obeys([], Pairing(open, n), [])
  {
    ObeysIsOpened();
    ObeysSkip([]);
    hide Obeys, Hal;
    ObeysHal([] + [Manager], n);
    ObeysSection([], Manager, Hal(n));
    hide Section;
    ObeysAppend([], IS_OPENED, [], if open then Section(Manager, Hal(n)) else [], []);
  }

  lemma ObeysSignal(open: bool, bonded: bool, found: bool)
    ensures Obeys([], Signal(open, bonded, found), [])
  {
    ObeysIsBond(open);
    ObeysRemote([]);
    ObeysSkip([]);
    hide Obeys, IsBond, Section;
    var b := if open && bonded then REMOTE_ONLY else [];
    var c := if open && bonded && found then REMOTE_ONLY else [];
    ObeysAppend([], IsBond(open), [], b, []);
    ObeysAppend([], IsBond(open) + b, [], c, []);
  }

  lemma {:induction false} ObeysPolls(opens: seq<bool>)
    ensures Obeys([], Polls(opens), [])
  {
    hide IsBond;
    if opens != [] {
      ObeysIsBond(opens[0]);
      assert Obeys([], [Park], []);
      ObeysAppend([], IsBond(opens[0]), [], [Park], []);
      ObeysPolls(opens[1..]);
      ObeysAppend([], IsBond(opens[0]) + [Park], [], Polls(opens[1..]), []);
    }
  }

  lemma ObeysUnbond(u: Unbonding)
    ensures Obeys([], Unbond(u), [])
  {
    hide IsBond, CancelBond, Polls;
    ObeysCancelBond(u.call);
    ObeysPolls(u.polls);
    ObeysAppend([], CancelBond(u.call), [], Polls(u.polls), []);
    var last := if u.last.Some? then IsBond(u.last.value) else [];
    if u.last.Some? { ObeysIsBond(u.last.value); }
    ObeysAppend([], CancelBond(u.call) + Polls(u.polls), [], last, []);
  }

  lemma ObeysShut(s: Shutting)
    ensures Obeys([], Shut(s), [])
  {
    hide CloseBt, Times;
    ObeysCloseBt(s.call);
    assert Obeys([], [Park], []);
    ObeysTimes([], s.sleeps, [Park]);
    ObeysAppend([], CloseBt(s.call), [], Times(s.sleeps, [Park]), []);
  }

  lemma ObeysList()
    ensures Obeys([], Section(List, []), [])
  {
    ObeysSection([], List, []);
  }

  lemma ObeysTeardown(open: bool, unbonding: Option<Unbonding>, shutting: Option<Shutting>, n: nat)
    ensures Obeys([], Teardown(open, unbonding, shutting, n), [])
  {
    hide IsBond, Unbond, Shut, Section, Hal;
    assert Obeys([], [Park], []) && Obeys([], [], []);
    hide Obeys;
    ObeysIsBond(open);
    ObeysHal([], n);
    assert Obeys([], Section(List, []), []) by { ObeysList(); }
    var u := if unbonding.Some? then Unbond(unbonding.value) else [];
    var s := if shutting.Some? then Shut(shutting.value) else [];
    if unbonding.Some? { ObeysUnbond(unbonding.value); }
    if shutting.Some? { ObeysShut(shutting.value); }
    var a := IsBond(open) + u;
    ObeysAppend([], IsBond(open), [], u, []);
    ObeysAppend([], a, [], s, []);
    ObeysAppend([], a + s, [], Hal(n), []);
    ObeysAppend([], a + s + Hal(n), [], Section(List, []), []);
    ObeysAppend([], a + s + Hal(n) + Section(List, []), [], [Park], []);
  }

  lemma ClientObeys(call: ClientCall)
    ensures Obeys([], ClientActs(call), [])
  {
    hide OpenBt, CloseBt, PropsHal, IsBond, Pairing, CancelBond, Signal, Teardown;
    match call
    case CallOpenBt(already, n) => ObeysOpenBt(already, n);
    case CallCloseBt(closing) => ObeysCloseBt(closing);
    case CallIsOpened => ObeysIsOpened();
    case CallDiscovery(n) => ObeysPropsHal([], n);
    case CallIsBond(open) => ObeysIsBond(open);
    case CallPairing(open, n) => ObeysPairing(open, n);
    case CallCancelBond(cancelling) => ObeysCancelBond(cancelling);
    case CallIsFound => ObeysRemote([]);
    case CallIsFoundAddr => ObeysFindOrAdd(true);
    case CallSignal(open, bonded, found) => ObeysSignal(open, bonded, found);
    case CallTeardown(open, unbonding, shutting, n) => ObeysTeardown(open, unbonding, shutting, n);
  }

  lemma ObeysFindOrAdd(add: bool)
    ensures Obeys([], FindOrAdd(add), [])
  {
    ObeysRemote([]);
    ObeysAppend([], REMOTE_ONLY, [], if add then REMOTE_ONLY else [], []);
  }

  lemma HandlerObeys(round: WorkerRound)
    ensures Obeys([], Handler(round), [])
  {
    hide Obeys;
    assert Obeys([], [], []) by { ObeysNothing(); }
    ObeysRemote([]);
    match round
    case NoMessage =>
    case AdapterState(on, n) =>
      var h := [] + [Manager];
      ObeysPropsHal(h, n);
      assert Obeys(h, [], h) by { ObeysSkip(h); }
      ObeysSection([], Manager, if on then PropsHal(n) else []);
    case AdapterProps(changes) => ObeysPropsChanges(changes);
    case RemoteProps(add, num) =>
      ObeysFindOrAdd(add);
      ObeysTimes([], num, REMOTE_ONLY);
      ObeysAppend([], FindOrAdd(add), [], Times(num, REMOTE_ONLY), []);
    case DeviceFound(add) =>
      ObeysFindOrAdd(add);
      ObeysAppend([], FindOrAdd(add), [], REMOTE_ONLY, []);
    case DiscoveryState(n) => ObeysPropsHal([], n);
    case PinRequest =>
    case SspRequest(add, n) =>
      ObeysFindOrAdd(add);
      ObeysHal([], n);
      ObeysAppend([], FindOrAdd(add), [], Hal(n), []);
    case BondState(add) =>
      ObeysFindOrAdd(add);
      ObeysAppend([], FindOrAdd(add), [], REMOTE_ONLY, []);
    case AclState(known) =>
      ObeysAppend([], REMOTE_ONLY, [], if known then REMOTE_ONLY else [], []);
  }

  lemma ObeysNothing()
    ensures Obeys([], [], [])
  {}

  lemma ObeysSkip(h: seq<Lock>)
    ensures Obeys(h, [], h)
  {}

  lemma ReceiveObeys(wait: bool)
    ensures Obeys([], Receive(wait), [])
  {
    ObeysSection([], List, []);
    if wait {
      assert Obeys([], [Park], []);
      ObeysAppend([], Section(List, []), [], [Park], []);
      ObeysAppend([], Section(List, []) + [Park], [], Section(List, []), []);
      assert Receive(true) == Section(List, []) + [Park] + Section(List, []);
    }
  }

  /** Every thread's program keeps the lock order, whatever its branches, loop
      counts and callbacks. */
  lemma {:induction false} ProgramObeys(items: seq<Item>)
    ensures Obeys([], Program(items), [])
  {
    if items != [] {
      match items[0] {
        case Client(call) => ClientObeys(call);
        case Worker(wait, round) =>
          ReceiveObeys(wait);
          HandlerObeys(round);
          ObeysAppend([], Receive(wait), [], Handler(round), []);
        case Callbacks(n) => ObeysHal([], n);
      }
      ProgramObeys(items[1..]);
      ObeysAppend([], Acts(items[0]), [], Program(items[1..]), []);
    }
  }

  // ---------------------------------------------------------------- interleavings

  /** A thread: the mutexes it holds, oldest first, and what it has left to do. */
  datatype Thread = Thread(held: seq<Lock>, todo: seq<Act>)

  /** Any number of threads; `threads[i]` starts with its whole program. */
  function Start(programs: seq<seq<Item>>): seq<Thread> {
    seq(|programs|, i requires 0 <= i < |programs| => Thread([], Program(programs[i])))
  }

  predicate Taken(ts: seq<Thread>, l: Lock) {
    exists i | 0 <= i < |ts| :: l in ts[i].held
  }

  /** A thread can act unless it is done or wants a mutex somebody holds (be it
      itself: these mutexes are not recursive). */
  predicate Enabled(ts: seq<Thread>, i: nat) {
    i < |ts| && ts[i].todo != [] && (ts[i].todo[0].Acq? ==> !Taken(ts, ts[i].todo[0].l))
  }

  function StepThread(t: Thread): Thread
    requires t.todo != []
  {
    match t.todo[0]
    case Acq(l) => Thread(t.held + [l], t.todo[1..])
    case Rel(l) => Thread(if t.held == [] then [] else t.held[..|t.held| - 1], t.todo[1..])
    case Park => Thread(t.held, t.todo[1..])
  }

  /** The threads after a schedule; a scheduled thread that cannot act waits. */
  function Run(ts: seq<Thread>, schedule: seq<nat>): (r: seq<Thread>)
    ensures |r| == |ts|
  {
    if schedule == [] then ts
    else
      var before := Run(ts, schedule[..|schedule| - 1]);
      var i := schedule[|schedule| - 1];
      if Enabled(before, i) then before[i := StepThread(before[i])] else before
  }

  ghost predicate Disciplined(t: Thread) {
    && Obeys(t.held, t.todo, [])
    && forall i, j | 0 <= i < j < |t.held| :: Rank(t.held[i]) < Rank(t.held[j])
  }

  ghost predicate Inv(ts: seq<Thread>) {
    && (forall i | 0 <= i < |ts| :: Disciplined(ts[i]))
    && (forall i, j, l | 0 <= i < j < |ts| && l in ts[i].held :: l !in ts[j].held)
  }

  lemma StepDisciplined(t: Thread)
    requires Disciplined(t) && t.todo != []
    ensures Disciplined(StepThread(t))
  {}

  lemma StepKeeps(ts: seq<Thread>, i: nat)
    requires Inv(ts) && Enabled(ts, i)
    ensures Inv(ts[i := StepThread(ts[i])])
  {
    hide Disciplined;
    StepDisciplined(ts[i]);
    assert forall l | l in StepThread(ts[i]).held :: l in ts[i].held || ts[i].todo[0] == Acq(l);
  }

  /** Over every interleaving of any programs built from the threads' methods. */
  lemma {:induction false} RunKeeps(programs: seq<seq<Item>>, schedule: seq<nat>)
    ensures Inv(Run(Start(programs), schedule))
  {
    hide Disciplined;
    if schedule == [] {
      forall i | 0 <= i < |programs| ensures Disciplined(Start(programs)[i]) {
        StartDisciplined(programs[i]);
      }
    } else {
      var before, i := schedule[..|schedule| - 1], schedule[|schedule| - 1];
      RunKeeps(programs, before);
      if Enabled(Run(Start(programs), before), i) {
        StepKeeps(Run(Start(programs), before), i);
      }
    }
  }

  lemma StartDisciplined(items: seq<Item>)
    ensures Disciplined(Thread([], Program(items)))
  {
    ProgramObeys(items);
  }

  // ---------------------------------------------------------------- deadlock freedom

  /** Thread `i` wants a mutex that thread `j` holds. */
  predicate Blocked(ts: seq<Thread>, i: nat, j: nat) {
    && i < |ts| && j < |ts|
    && ts[i].todo != [] && ts[i].todo[0].Acq? && ts[i].todo[0].l in ts[j].held
  }

  /** Each thread of the path waits for the next one. */
  predicate WaitPath(ts: seq<Thread>, path: seq<nat>) {
    forall k | 0 <= k < |path| - 1 :: Blocked(ts, path[k], path[k + 1])
  }

  /** Whoever is waited for and waits itself wants a later mutex. */
  lemma WantsLater(ts: seq<Thread>, i: nat, j: nat)
    requires Inv(ts) && Blocked(ts, i, j) && ts[j].todo != [] && ts[j].todo[0].Acq?
    ensures Rank(ts[i].todo[0].l) < Rank(ts[j].todo[0].l)
  {
    assert Disciplined(ts[j]);
  }

  lemma {:induction false} PathClimbs(ts: seq<Thread>, path: seq<nat>, k: nat)
    requires Inv(ts) && WaitPath(ts, path) && k + 1 < |path|
    ensures Blocked(ts, path[0], path[1]) && Blocked(ts, path[k], path[k + 1])
    ensures Rank(ts[path[0]].todo[0].l) + k <= Rank(ts[path[k]].todo[0].l)
  {
    hide Inv;
    assert Blocked(ts, path[0], path[0 + 1]);
    if k > 0 {
      PathClimbs(ts, path, k - 1);
      assert Blocked(ts, path[k], path[k + 1]);
      WantsLater(ts, path[k - 1], path[k]);
    }
  }

  /** No reachable state has a cycle of threads each blocked on a mutex the next
      one holds; in particular no thread blocks on a mutex of its own. */
  lemma NoCycle(programs: seq<seq<Item>>, schedule: seq<nat>, path: seq<nat>)
    requires |path| >= 2 && WaitPath(Run(Start(programs), schedule), path)
    ensures path[0] != path[|path| - 1]
  {
    var ts := Run(Start(programs), schedule);
    RunKeeps(programs, schedule);
    hide *;
    if path[0] == path[|path| - 1] {
      CycleClimbs(ts, path);
      assert false;
    }
  }

  lemma CycleClimbs(ts: seq<Thread>, path: seq<nat>)
    requires Inv(ts) && |path| >= 2 && WaitPath(ts, path)
    ensures path[0] != path[|path| - 1]
  {
    hide Inv;
    var k := |path| - 2;
    PathClimbs(ts, path, k);
    if path[0] == path[k + 1] {
      WantsLater(ts, path[k], path[k + 1]);
      assert false;
    }
  }

  /** While any thread is blocked on a mutex, some thread holding one can act at
      once, and not merely by sleeping: mutexes alone never stop the system. */
  lemma Progress(programs: seq<seq<Item>>, schedule: seq<nat>, i: nat, j: nat)
    requires Blocked(Run(Start(programs), schedule), i, j)
    ensures var ts := Run(Start(programs), schedule);
            exists u: nat :: Enabled(ts, u) && ts[u].held != [] && !ts[u].todo[0].Park?
  {
    RunKeeps(programs, schedule);
    HolderActs(Run(Start(programs), schedule), i, j);
  }

  lemma {:induction false} HolderActs(ts: seq<Thread>, i: nat, j: nat)
    requires Inv(ts) && Blocked(ts, i, j)
    ensures exists u: nat :: Enabled(ts, u) && ts[u].held != [] && !ts[u].todo[0].Park?
    decreases 3 - Rank(ts[i].todo[0].l)
  {
    assert Disciplined(ts[j]);
    assert ts[j].held != [] && ts[j].todo != [] && !ts[j].todo[0].Park?;
    if !Enabled(ts, j) {
      var k :| 0 <= k < |ts| && ts[j].todo[0].l in ts[k].held;
      WantsLater(ts, i, j);
      HolderActs(ts, j, k);
    }
  }
}
