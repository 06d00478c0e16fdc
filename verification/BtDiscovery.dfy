/** The discovery state machine of RAdapterProperties.cpp and the open/close
    sections of RBluetoothManager.cpp that drive it. */
module BtDiscovery {
  import opened Bytes

  /** Scan modes by name; the numeric values of the HAL header do not matter. */
  datatype ScanMode = NoScan | Connectable | Discoverable | OtherMode(value: int)

  datatype Discovery = Stopped | Started | OtherState(value: int)

  /** What the sections ask of the HAL, and the one call into RRemoteDevices. */
  datatype Call =
    | StartDiscovery
    | CancelDiscovery
    | SetScanMode(mode: ScanMode)
    | SetTimeout(seconds: bv32)
    | ResetFound
    | EnableHw
    | DisableHw

  /** The adapter properties the state machine reads or writes. */
  datatype Property = ScanModeIs(mode: ScanMode) | TimeoutIs(seconds: bv32) | OtherProperty

  /** The fields of RAdapterProperties that matter here. */
  datatype Adapter = Adapter(
    on: bool, scanMode: ScanMode, timeout: bv32, searching: bool, discovering: bool, disabling: bool)

  const CREATED := Adapter(false, NoScan, 0, false, false, true)

  /** One section under the properties mutex. */
  datatype Section =
    | Start
    | Cancel
    | SetState(on: bool)
    | Disable
    | Ready
    | Change(state: Discovery)
    | Property(p: Property)

  /** The new state of a section and the calls it makes, in order. */
  function Effect(a: Adapter, section: Section): (Adapter, seq<Call>) {
    match section
    case Start =>
      if a.on && !a.searching
      then (a.(searching := true), [SetTimeout(a.timeout), SetScanMode(Discoverable)])
      else (a, [])
    case Cancel =>
      if a.on && a.searching then (a.(searching := false), [CancelDiscovery]) else (a, [])
    case SetState(on) => (a.(on := on), [])
    case Disable => (a.(disabling := true), if a.on then [] else [SetScanMode(NoScan)])
    case Ready =>
      (a, if a.on && a.scanMode == NoScan
          then [SetScanMode(if a.timeout != 0 then Connectable else Discoverable), SetTimeout(a.timeout)]
          else [])
    case Change(Stopped) =>
      (a.(discovering := false),
       if a.on && a.searching then [StartDiscovery]
       else if (a.on && a.discovering) || (!a.on && (a.discovering || !a.searching)) then [CancelDiscovery]
       else [])
    case Change(Started) => (a.(discovering := true), [])
    case Change(OtherState(_)) => (a, [])
    case Property(ScanModeIs(mode)) =>
      (a.(scanMode := mode, disabling := false),
       if !a.on then []
       else if mode == Connectable then [SetTimeout(a.timeout), SetScanMode(Discoverable)]
       else if mode == Discoverable && a.searching then [ResetFound, StartDiscovery]
       else [])
    case Property(TimeoutIs(seconds)) => (a.(timeout := seconds), [])
    case Property(OtherProperty) => (a, [])
  }

  /** The properties of one notification, one section after another. */
  function Effects(a: Adapter, props: seq<Property>): (Adapter, seq<Call>) {
    if props == [] then (a, [])
    else
      var (b, calls) := Effects(a, props[..|props| - 1]);
      var (c, more) := Effect(b, Property(props[|props| - 1]));
      (c, calls + more)
  }

  /** Whatever a notification carries, it neither switches the adapter nor starts or
      ends a search; and it starts hardware discovery exactly when a search is
      wanted while ON and the adapter is said to be discoverable. */
  lemma {:induction false} NotificationExact(a: Adapter, props: seq<Property>)
    ensures var (b, calls) := Effects(a, props);
            && b.on == a.on && b.searching == a.searching && b.discovering == a.discovering
            && (StartDiscovery in calls <==> a.on && a.searching && ScanModeIs(Discoverable) in props)
            && CancelDiscovery !in calls
  {
    if props != [] {
      var before, last := props[..|props| - 1], props[|props| - 1];
      NotificationExact(a, before);
      assert props == before + [last];
    }
  }

  // ---------------------------------------------------------------- the classes

  /** The calls made so far, in order. */
  class RBluetoothAdapterHw {
    var calls: seq<Call>

    constructor ()
      ensures calls == []
    {
      calls := [];
    }

    method Make(call: Call)
      modifies this
      ensures calls == old(calls) + [call]
    {
      calls := calls + [call];
    }
  }

  class RAdapterProperties {
    const mHw: RBluetoothAdapterHw
    var mOn: bool
    var mScanMode: ScanMode
    var mDiscoverableTimeout: bv32
    var mIsSearching: bool
    var mDiscovering: bool
    var mBluetoothDisabling: bool

    ghost function Abs(): Adapter
      reads this
    {
      Adapter(mOn, mScanMode, mDiscoverableTimeout, mIsSearching, mDiscovering, mBluetoothDisabling)
    }

    /** The object went from `a` and `before` through one section. */
    ghost predicate Did(a: Adapter, before: seq<Call>, section: Section)
      reads this, mHw
    {
      Abs() == Effect(a, section).0 && mHw.calls == before + Effect(a, section).1
    }

    constructor (hw: RBluetoothAdapterHw)
      ensures Abs() == CREATED && mHw == hw
    {
      mHw := hw;
      mOn, mScanMode, mDiscoverableTimeout := false, NoScan, 0;
      mIsSearching, mDiscovering, mBluetoothDisabling := false, false, true;
    }

    method DiscoveryStateChange(state: Discovery)
      modifies this, mHw
      ensures Did(old(Abs()), old(mHw.calls), Change(state))
    {
      if state == Stopped {
        if mOn && mIsSearching {
          mHw.Make(StartDiscovery);
        } else if mOn && mDiscovering && !mIsSearching {
          mHw.Make(CancelDiscovery);
        } else if !mOn && (mDiscovering || !mIsSearching) {
          mHw.Make(CancelDiscovery);
        }
        mDiscovering := false;
      } else if state == Started {
        mDiscovering := true;
      }
    }

    method UpdateScanMode()
      modifies mHw
      ensures mHw.calls == old(mHw.calls) +
                (if mOn && mScanMode == Connectable then [SetTimeout(mDiscoverableTimeout), SetScanMode(Discoverable)]
                 else if mOn && mIsSearching && mScanMode == Discoverable then [ResetFound, StartDiscovery]
                 else [])
    {
      if mOn && mScanMode == Connectable {
        mHw.Make(SetTimeout(mDiscoverableTimeout));
        mHw.Make(SetScanMode(Discoverable));
      } else if mOn && mIsSearching && mScanMode == Discoverable {
        mHw.Make(ResetFound);
        mHw.Make(StartDiscovery);
      }
    }

    /** One property, under the lock. */
    method PropertyChanged(p: Property)
      modifies this, mHw
      ensures Did(old(Abs()), old(mHw.calls), Property(p))
      ensures p == ScanModeIs(Connectable) && mOn ==>
                mHw.calls == old(mHw.calls) + [SetTimeout(mDiscoverableTimeout), SetScanMode(Discoverable)]
    {
      match p
      case ScanModeIs(mode) =>
        mScanMode := mode;
        UpdateScanMode();
        if mBluetoothDisabling {
          mBluetoothDisabling := false;
        }
      case TimeoutIs(seconds) =>
        mDiscoverableTimeout := seconds;
      case OtherProperty =>
    }

    /** `adapterPropertyChanged`, uninterrupted: all properties, in order. */
    method AdapterPropertyChanged(num: int, props: seq<Property>)
      requires num <= |props|
      modifies this, mHw
      ensures var listed := if num < 0 then [] else props[..num];
              && Abs() == Effects(old(Abs()), listed).0
              && mHw.calls == old(mHw.calls) + Effects(old(Abs()), listed).1
    {
      var i := 0;
      ghost var listed := if num < 0 then [] else props[..num];
      while i < num
        invariant 0 <= i <= |listed|
        invariant Abs() == Effects(old(Abs()), listed[..i]).0
        invariant mHw.calls == old(mHw.calls) + Effects(old(Abs()), listed[..i]).1
      {
        PropertyChanged(props[i]);
        assert listed[..i + 1][..i] == listed[..i];
        i := i + 1;
      }
      assert listed[..i] == listed;
    }

    method OnBluetoothDisable()
      modifies this, mHw
      ensures Did(old(Abs()), old(mHw.calls), Disable)
    {
      mBluetoothDisabling := true;
      if !mOn {
        mHw.Make(SetScanMode(NoScan));
      }
    }

    method OnBluetoothReady()
      modifies this, mHw
      ensures Did(old(Abs()), old(mHw.calls), Ready)
      ensures mHw.calls == old(mHw.calls) +
                (if mOn && mScanMode == NoScan
                 then [SetScanMode(if mDiscoverableTimeout != 0 then Connectable else Discoverable), SetTimeout(mDiscoverableTimeout)]
                 else [])
    {
      if mOn && mScanMode == NoScan {
        if mDiscoverableTimeout != 0 {
          mHw.Make(SetScanMode(Connectable));
        } else {
          mHw.Make(SetScanMode(Discoverable));
        }
        mHw.Make(SetTimeout(mDiscoverableTimeout));
      }
    }

    method StartSearch()
      modifies this, mHw
      ensures Did(old(Abs()), old(mHw.calls), Start)
      ensures mIsSearching <==> mOn || old(mIsSearching)
      ensures mHw.calls == old(mHw.calls) +
                (if mOn && !old(mIsSearching) then [SetTimeout(mDiscoverableTimeout), SetScanMode(Discoverable)] else [])
    {
      if mOn && !mIsSearching {
        mHw.Make(SetTimeout(mDiscoverableTimeout));
        mHw.Make(SetScanMode(Discoverable));
        mIsSearching := true;
      }
    }

    method CancelSearch()
      modifies this, mHw
      ensures Did(old(Abs()), old(mHw.calls), Cancel)
    {
      if mOn && mIsSearching {
        mHw.Make(CancelDiscovery);
        mIsSearching := false;
      }
    }

    method SetAdapterState(on: bool)
      modifies this, mHw
      ensures Did(old(Abs()), old(mHw.calls), SetState(on))
    {
      mOn := on;
    }
  }

  /** OFF implies not searching. */
  predicate OffIdle(a: Adapter) {
    !a.on ==> !a.searching
  }

  /** Where the holder of the manager mutex is. */
  datatype Phase = Free | Opening(ok: bool) | Closing | Cancelled | SwitchedOff | Disabled | Readying

  /** The manager's fields next to its adapter. */
  datatype State = State(adapter: Adapter, isOpened: bool, enabled: bool, phase: Phase)

  const INIT := State(CREATED, false, false, Free)

  /** The atomic steps of client and message thread. */
  datatype Step =
    | ClientStart
    | ClientCancel
    | OpenBegin(ok: bool)   // lock, test mIsOpened, hw enable, set mIsOpened
    | OpenState             // setState, unlock
    | CloseBegin            // lock, test mIsOpened
    | CloseCancel           // cancelDiscovery
    | CloseState            // setState(OFF)
    | CloseDisable          // onBluetoothDisable
    | CloseEnd              // hw disable, mIsOpened = false, unlock
    | StateEvent(on: Option<bool>)  // handleAdapterState: lock; ON, OFF or neither
    | ReadyEvent            // onBluetoothReady, unlock
    | ChangeEvent(state: Discovery)
    | PropertyEvent(p: Property)

  /** One client thread and one message thread; only one holds the mutex. */
  predicate Enabled(s: State, step: Step) {
    match step
    case ClientStart => s.phase in {Free, Readying}
    case ClientCancel => s.phase in {Free, Readying}
    case OpenBegin(_) => s.phase == Free
    case OpenState => s.phase.Opening?
    case CloseBegin => s.phase == Free
    case CloseCancel => s.phase == Closing
    case CloseState => s.phase == Cancelled
    case CloseDisable => s.phase == SwitchedOff
    case CloseEnd => s.phase == Disabled
    case StateEvent(_) => s.phase == Free
    case ReadyEvent => s.phase == Readying
    case ChangeEvent(_) => s.phase != Readying
    case PropertyEvent(_) => s.phase != Readying
  }

  /** The section of the adapter a step runs, if it runs one. */
  function SectionOf(s: State, step: Step): Option<Section>
    requires Enabled(s, step)
  {
    match step
    case ClientStart => Some(Start)
    case ClientCancel => Some(Cancel)
    case OpenState => Some(SetState(s.phase.ok))
    case CloseCancel => Some(Cancel)
    case CloseState => Some(SetState(false))
    case CloseDisable => Some(Disable)
    case ReadyEvent => Some(Ready)
    case ChangeEvent(state) => Some(Change(state))
    case PropertyEvent(p) => Some(Property(p))
    case _ => None
  }

  function Calls(s: State, step: Step): seq<Call>
    requires Enabled(s, step)
  {
    match SectionOf(s, step)
    case Some(section) => Effect(s.adapter, section).1
    case None =>
      match step
      case OpenBegin(_) => if s.isOpened then [] else [EnableHw]
      case CloseEnd => [DisableHw]
      case _ => []
  }

  function Next(s: State, step: Step): State
    requires Enabled(s, step)
  {
    var a := match SectionOf(s, step)
             case None => s.adapter
             case Some(section) => Effect(s.adapter, section).0;
    match step
    case OpenBegin(ok) => if s.isOpened then s else s.(isOpened := ok, phase := Opening(ok))
    case OpenState => s.(adapter := a, phase := Free)
    case CloseBegin => if s.isOpened then s.(phase := Closing) else s
    case CloseCancel => s.(adapter := a, phase := Cancelled)
    case CloseState => s.(adapter := a, phase := SwitchedOff)
    case CloseDisable => s.(adapter := a, phase := Disabled)
    case CloseEnd => s.(isOpened := false, phase := Free)
    case StateEvent(Some(on)) => s.(enabled := on, phase := if on then Readying else Free)
    case StateEvent(None) => s
    case ReadyEvent => s.(phase := Free)
    case _ => s.(adapter := a)
  }

  /** The state after a run, None when some step was not enabled. */
  function Exec(steps: seq<Step>): Option<State> {
    if steps == [] then Some(INIT)
    else
      var before := Exec(steps[..|steps| - 1]);
      var last := steps[|steps| - 1];
      if before.Some? && Enabled(before.value, last) then Some(Next(before.value, last)) else None
  }

  // ---------------------------------------------------------------- safety

  predicate Inv(s: State) {
    && OffIdle(s.adapter)
    && match s.phase
       case Free => s.isOpened == s.adapter.on
       case Readying => s.isOpened == s.adapter.on
       case Opening(ok) => s.isOpened == ok && !s.adapter.on
       case Closing => s.isOpened && s.adapter.on
       case Cancelled => s.isOpened && s.adapter.on && !s.adapter.searching
       case SwitchedOff => s.isOpened && !s.adapter.on
       case Disabled => s.isOpened && !s.adapter.on
  }

  /** Some startDiscovery of the client took effect, and since then the client
      has neither cancelled nor reached the cancellation of a closeBt. */
  ghost predicate Wanted(steps: seq<Step>) {
    exists j: nat :: StartedAt(steps, j)
  }

  ghost predicate StartedAt(steps: seq<Step>, j: nat) {
    && j < |steps| && steps[j] == ClientStart
    && Exec(steps[..j]).Some? && Exec(steps[..j]).value.adapter.on
    && forall k | j < k < |steps| :: steps[k] != ClientCancel && steps[k] != CloseCancel
  }

  lemma StepKeeps(s: State, step: Step)
    requires Inv(s) && Enabled(s, step)
    ensures Inv(Next(s, step))
  {}

  lemma WantedSnoc(steps: seq<Step>, last: Step)
    requires Exec(steps).Some?
    ensures Wanted(steps + [last]) <==>
              || (last == ClientStart && Exec(steps).value.adapter.on)
              || (Wanted(steps) && last != ClientCancel && last != CloseCancel)
  {
    var all := steps + [last];
    assert all[..|steps|] == steps;
    if last == ClientStart && Exec(steps).value.adapter.on {
      assert StartedAt(all, |steps|);
    }
    if Wanted(steps) && last != ClientCancel && last != CloseCancel {
      var j: nat :| StartedAt(steps, j);
      assert all[..j] == steps[..j];
      assert StartedAt(all, j);
    }
    if Wanted(all) {
      var j: nat :| StartedAt(all, j);
      if j < |steps| {
        assert all[..j] == steps[..j];
        assert StartedAt(steps, j);
        assert all[|steps|] == last;
      }
    }
  }

  /** Over every interleaving: the invariant holds, and the adapter is searching
      exactly when the client wants it to. */
  lemma {:induction false} RunKeeps(steps: seq<Step>)
    requires Exec(steps).Some?
    ensures Inv(Exec(steps).value)
    ensures Exec(steps).value.adapter.searching <==> Wanted(steps)
  {
    if steps != [] {
      var before, last := steps[..|steps| - 1], steps[|steps| - 1];
      RunKeeps(before);
      StepKeeps(Exec(before).value, last);
      assert steps == before + [last];
      WantedSnoc(before, last);
    }
  }

  /** Discovery safety: outside the manager's sections open means ON and OFF
      means idle; and any step that starts hardware discovery does so while ON,
      on a client's request that nothing has withdrawn. */
  lemma DiscoverySafety(steps: seq<Step>, step: Step)
    requires Exec(steps).Some? && Enabled(Exec(steps).value, step)
    ensures var s := Exec(steps).value;
            && OffIdle(s.adapter)
            && (s.phase == Free ==> s.isOpened == s.adapter.on)
            && (StartDiscovery in Calls(s, step) ==> s.adapter.on && Wanted(steps))
  {
    RunKeeps(steps);
  }

  /** And a wanted search is never forgotten: when the HAL reports that discovery
      stopped, or that the adapter became discoverable, it is started again. When
      it reports a stop while OFF, discovery is cancelled without further test. */
  lemma DiscoveryRestarts(steps: seq<Step>)
    requires Exec(steps).Some? && Exec(steps).value.phase != Readying
    ensures var s := Exec(steps).value;
            && (Wanted(steps) ==>
                  && Calls(s, ChangeEvent(Stopped)) == [StartDiscovery]
                  && Calls(s, PropertyEvent(ScanModeIs(Discoverable))) == [ResetFound, StartDiscovery])
            && (!s.adapter.on ==> Calls(s, ChangeEvent(Stopped)) == [CancelDiscovery])
  {
    hide Wanted, Exec;
    RunKeeps(steps);
  }

  // ---------------------------------------------------------------- calls from history

  /** The discoverable timeout last reported, 0 before the first. */
  function LastTimeout(steps: seq<Step>): bv32 {
    if steps == [] then CREATED.timeout
    else match steps[|steps| - 1]
      case PropertyEvent(TimeoutIs(seconds)) => seconds
      case _ => LastTimeout(steps[..|steps| - 1])
  }

  /** The scan mode last reported. */
  function LastScanMode(steps: seq<Step>): ScanMode {
    if steps == [] then NoScan
    else match steps[|steps| - 1]
      case PropertyEvent(ScanModeIs(mode)) => mode
      case _ => LastScanMode(steps[..|steps| - 1])
  }

  /** Whether discovery was last reported as started. */
  function LastDiscovery(steps: seq<Step>): bool {
    if steps == [] then false
    else match steps[|steps| - 1]
      case ChangeEvent(Started) => true
      case ChangeEvent(Stopped) => false
      case _ => LastDiscovery(steps[..|steps| - 1])
  }

  /** Whether the adapter was last reported as ON. */
  function LastEnabled(steps: seq<Step>): bool {
    if steps == [] then false
    else match steps[|steps| - 1]
      case StateEvent(Some(on)) => on
      case _ => LastEnabled(steps[..|steps| - 1])
  }

  /** The HAL's answer to the last openBt. */
  function LastAnswer(steps: seq<Step>): bool {
    if steps == [] then false
    else match steps[|steps| - 1]
      case OpenBegin(ok) => ok
      case _ => LastAnswer(steps[..|steps| - 1])
  }

  /** Opened and not closed since. */
  function Opened(steps: seq<Step>): bool {
    if steps == [] then false
    else match steps[|steps| - 1]
      case OpenBegin(ok) => ok || Opened(steps[..|steps| - 1])
      case CloseEnd => false
      case _ => Opened(steps[..|steps| - 1])
  }

  /** The state given to the adapter by the last openBt or closeBt. */
  function SwitchedOn(steps: seq<Step>): bool {
    if steps == [] then false
    else match steps[|steps| - 1]
      case OpenState => LastAnswer(steps[..|steps| - 1])
      case CloseState => false
      case _ => SwitchedOn(steps[..|steps| - 1])
  }

  /** Whether no scan mode was reported since the last disabling, if any. */
  function Unreported(steps: seq<Step>): bool {
    if steps == [] then true
    else match steps[|steps| - 1]
      case CloseDisable => true
      case PropertyEvent(ScanModeIs(_)) => false
      case _ => Unreported(steps[..|steps| - 1])
  }

  ghost predicate RemembersReports(s: State, steps: seq<Step>) {
    && s.adapter.scanMode == LastScanMode(steps)
    && s.adapter.timeout == LastTimeout(steps)
    && s.adapter.discovering == LastDiscovery(steps)
    && s.adapter.disabling == Unreported(steps)
  }

  ghost predicate RemembersSwitches(s: State, steps: seq<Step>) {
    && s.adapter.on == SwitchedOn(steps)
    && s.isOpened == Opened(steps)
    && s.enabled == LastEnabled(steps)
    && (s.phase.Opening? ==> s.phase.ok == LastAnswer(steps))
  }

  ghost predicate Remembers(s: State, steps: seq<Step>) {
    RemembersReports(s, steps) && RemembersSwitches(s, steps)
  }

  /** How each memory changes with one more step. */
  lemma MemorySnoc(before: seq<Step>, last: Step)
    ensures var steps := before + [last];
            && LastTimeout(steps) == (if last.PropertyEvent? && last.p.TimeoutIs? then last.p.seconds else LastTimeout(before))
            && LastScanMode(steps) == (if last.PropertyEvent? && last.p.ScanModeIs? then last.p.mode else LastScanMode(before))
            && LastDiscovery(steps) ==
                 (if last.ChangeEvent? && !last.state.OtherState? then last.state == Started else LastDiscovery(before))
            && Unreported(steps) ==
                 (last.CloseDisable? || (Unreported(before) && !(last.PropertyEvent? && last.p.ScanModeIs?)))
  {
    var steps := before + [last];
    assert steps[..|before|] == before && steps[|before|] == last;
  }

  lemma SwitchSnoc(before: seq<Step>, last: Step)
    ensures var steps := before + [last];
            && LastEnabled(steps) == (if last.StateEvent? && last.on.Some? then last.on.value else LastEnabled(before))
            && LastAnswer(steps) == (if last.OpenBegin? then last.ok else LastAnswer(before))
            && Opened(steps) == (!last.CloseEnd? && (Opened(before) || (last.OpenBegin? && last.ok)))
            && SwitchedOn(steps) ==
                 (if last.OpenState? then LastAnswer(before) else !last.CloseState? && SwitchedOn(before))
  {
    var steps := before + [last];
    assert steps[..|before|] == before && steps[|before|] == last;
  }

  lemma RememberReports(before: seq<Step>, last: Step, s: State)
    requires Enabled(s, last) && RemembersReports(s, before)
    ensures RemembersReports(Next(s, last), before + [last])
  {
    hide LastTimeout, LastScanMode, LastDiscovery, Unreported;
    MemorySnoc(before, last);
  }

  lemma RememberSwitches(before: seq<Step>, last: Step, s: State)
    requires Enabled(s, last) && RemembersSwitches(s, before)
    ensures RemembersSwitches(Next(s, last), before + [last])
  {
    hide LastEnabled, LastAnswer, Opened, SwitchedOn;
    SwitchSnoc(before, last);
  }

  lemma RememberStep(before: seq<Step>, last: Step, s: State)
    requires Enabled(s, last) && Remembers(s, before)
    ensures Remembers(Next(s, last), before + [last])
  {
    hide RemembersReports, RemembersSwitches, Next, Enabled;
    RememberReports(before, last, s);
    RememberSwitches(before, last, s);
  }

  /** Over every run each field is what the steps last said. */
  lemma {:induction false} StateFromHistory(steps: seq<Step>)
    requires Exec(steps).Some?
    ensures Remembers(Exec(steps).value, steps)
  {
    if steps == [] {
      assert Remembers(INIT, []);
    } else {
      hide Remembers, Next, Enabled;
      var before, last := steps[..|steps| - 1], steps[|steps| - 1];
      StateFromHistory(before);
      RememberStep(before, last, Exec(before).value);
      assert steps == before + [last];
    }
  }

  /** What a step asks of the hardware when the adapter is ON or not and a search is
      wanted or not: a search first asks for the last reported timeout and then for
      discoverable mode, as becoming connectable does; being discoverable starts
      discovery, and its stop restarts it, while the search is wanted. */
  function Asked(on: bool, wanted: bool, isOpen: bool, timeout: bv32, mode: ScanMode, discovering: bool,
                 step: Step): seq<Call>
  {
    match step
    case ClientStart => if on && !wanted then [SetTimeout(timeout), SetScanMode(Discoverable)] else []
    case ClientCancel => if wanted then [CancelDiscovery] else []
    case CloseCancel => if wanted then [CancelDiscovery] else []
    case CloseDisable => [SetScanMode(NoScan)]
    case OpenBegin(_) => if isOpen then [] else [EnableHw]
    case CloseEnd => [DisableHw]
    case ReadyEvent =>
      if on && mode == NoScan
      then [SetScanMode(if timeout != 0 then Connectable else Discoverable), SetTimeout(timeout)]
      else []
    case ChangeEvent(Stopped) =>
      if wanted then [StartDiscovery] else if !on || discovering then [CancelDiscovery] else []
    case PropertyEvent(ScanModeIs(Connectable)) => if on then [SetTimeout(timeout), SetScanMode(Discoverable)] else []
    case PropertyEvent(ScanModeIs(Discoverable)) => if wanted then [ResetFound, StartDiscovery] else []
    case _ => []
  }

  lemma CallsOfState(s: State, step: Step)
    requires Inv(s) && Enabled(s, step)
    ensures var a := s.adapter;
            Calls(s, step) == Asked(a.on, a.searching, s.isOpened, a.timeout, a.scanMode, a.discovering, step)
  {
    match step
    case ChangeEvent(state) => CallsOfReport(s, step);
    case PropertyEvent(p) => CallsOfReport(s, step);
    case _ =>
  }

  lemma CallsOfReport(s: State, step: Step)
    requires OffIdle(s.adapter) && Enabled(s, step) && (step.ChangeEvent? || step.PropertyEvent?)
    ensures var a := s.adapter;
            Calls(s, step) == Asked(a.on, a.searching, s.isOpened, a.timeout, a.scanMode, a.discovering, step)
  {}

  /** Over every run, every step makes exactly the calls its history tells, in order. */
  lemma CallsExact(steps: seq<Step>, step: Step)
    requires Exec(steps).Some? && Enabled(Exec(steps).value, step)
    ensures Calls(Exec(steps).value, step) ==
              Asked(SwitchedOn(steps), Wanted(steps), Opened(steps), LastTimeout(steps), LastScanMode(steps),
                    LastDiscovery(steps), step)
  {
    RunKeeps(steps);
    StateFromHistory(steps);
    CallsOfState(Exec(steps).value, step);
    hide Exec, Wanted, Calls, Asked, Enabled;
  }

  /** The state a whole `closeBt` reaches. */
  function ClosedFrom(s: State): State {
    State(s.adapter.(on := false, searching := s.adapter.searching && !s.adapter.on, disabling := true),
          false, s.enabled, Free)
  }

  lemma CloseIsFiveSteps(s: State)
    requires s.phase == Free && s.isOpened
    ensures ClosedFrom(s) ==
            Next(Next(Next(Next(Next(s, CloseBegin), CloseCancel), CloseState), CloseDisable), CloseEnd)
  {
    var a := s.adapter;
    var idle := if a.on then a.(searching := false) else a;
    var s1 := s.(phase := Closing);
    var s2 := s.(adapter := idle, phase := Cancelled);
    var s3 := s.(adapter := idle.(on := false), phase := SwitchedOff);
    var s4 := s.(adapter := idle.(on := false, disabling := true), phase := Disabled);
    assert Next(s, CloseBegin) == s1;
    assert Next(s1, CloseCancel) == s2;
    assert Next(s2, CloseState) == s3;
    assert Next(s3, CloseDisable) == s4;
  }

  class RBluetoothManager {
    var mIsOpened: bool
    var mEnableState: bool
    const mHw: RBluetoothAdapterHw
    const mProps: RAdapterProperties

    ghost predicate Valid()
      reads this
    {
      mProps.mHw == mHw
    }

    ghost function Abs(): State
      reads this, mProps
    {
      State(mProps.Abs(), mIsOpened, mEnableState, Free)
    }

    constructor ()
      ensures Valid() && Abs() == INIT && mHw.calls == [] && fresh(mProps) && fresh(mHw)
    {
      mIsOpened, mEnableState := false, false;
      var hw := new RBluetoothAdapterHw();
      mHw := hw;
      mProps := new RAdapterProperties(hw);
    }

    /** Uninterrupted, `openBt` is its two steps; `enable` is the HAL's answer. */
    method OpenBt(enable: bool) returns (ret: bool)
      requires Valid()
      modifies this, mProps, mHw
      ensures Valid() && ret == (old(mIsOpened) || enable)
      ensures Abs() == if old(mIsOpened) then old(Abs())
                       else Next(Next(old(Abs()), OpenBegin(enable)), OpenState)
      ensures mHw.calls == old(mHw.calls) + Calls(old(Abs()), OpenBegin(enable))
    {
      if mIsOpened { return true; }
      mHw.Make(EnableHw);
      ret := enable;
      if ret {
        mIsOpened := true;
        mProps.SetAdapterState(true);
      } else {
        mIsOpened := false;
        mProps.SetAdapterState(false);
      }
    }

    /** Uninterrupted, `closeBt` goes through its five steps: a search that was on
        is cancelled before the adapter switches off, and the hardware is disabled
        last. */
    method CloseBt()
      requires Valid()
      modifies this, mProps, mHw
      ensures Valid() && Abs() == if old(mIsOpened) then ClosedFrom(old(Abs())) else old(Abs())
      ensures mHw.calls == old(mHw.calls) +
                (if !old(mIsOpened) then []
                 else (if old(mProps.mOn && mProps.mIsSearching) then [CancelDiscovery] else [])
                      + [SetScanMode(NoScan), DisableHw])
    {
      if !mIsOpened { return; }
      mProps.CancelSearch();
      mProps.SetAdapterState(false);
      mProps.OnBluetoothDisable();
      mHw.Make(DisableHw);
      mIsOpened := false;
    }

    /** `handleAdapterState`: Some(true) is BT_STATE_ON, Some(false) BT_STATE_OFF. */
    method HandleAdapterState(status: Option<bool>)
      requires Valid()
      modifies this`mEnableState, mProps, mHw
      ensures Valid()
      ensures var s := Next(old(Abs()), StateEvent(status));
              if status == Some(true) then
                Abs() == Next(s, ReadyEvent) && mHw.calls == old(mHw.calls) + Calls(s, ReadyEvent)
              else Abs() == s && mHw.calls == old(mHw.calls)
    {
      if status == Some(false) {
        mEnableState := false;
      } else if status == Some(true) {
        mEnableState := true;
        mProps.OnBluetoothReady();
      }
    }

    method IsOpened() returns (r: bool)
      ensures r <==> mIsOpened && mEnableState
    {
      r := mIsOpened && mEnableState;
    }
  }
}
