/** The message list of RBluetoothManager.cpp from the HAL callbacks to the
    worker and the destructor, and the property buffers of RMessage.h. */
module BtMessages {
  import opened Bytes

  // ---------------------------------------------------------------- the list

  /** A message: its place in sending order, and the heap blocks that its two
      property lists own. */
  datatype Message = Message(id: nat, blocks: set<nat>)

  datatype Worker =
    | Top                // at the loop test
    | Checked            // saw mIsRunning, not yet under the list mutex
    | Waiting            // in the condition wait
    | Woken              // signalled or not, not yet back under the mutex
    | Received(m: Message)   // taken from the list
    | Handled(m: Message)    // handler done, not yet deleted
    | Exited

  /** How far the destructor is. */
  datatype Teardown = Alive | Stopped | Signalled | Joined

  datatype State = State(
    worker: Worker, teardown: Teardown, queue: seq<Message>,
    obtained: set<nat>,     // blocks ever obtained
    freed: multiset<nat>,   // blocks given to free
    // history
    sent: seq<Message>, processed: seq<Message>, drained: seq<Message>, deleted: seq<Message>)

  const INIT := State(Top, Alive, [], {}, multiset{}, [], [], [], [])

  datatype Step =
    | Send(blocks: set<nat>)  // a message with copied properties; sendMessage: push and signal
    | Test       // while (mIsRunning)
    | Receive    // receiveMessage up to the wait, or all of it
    | Wake       // a wakeup nobody signalled
    | Resume     // back from the wait: NULL when the list is empty
    | Handle
    | Delete
    | Stop       // mIsRunning = false
    | Signal     // the destructor's signal, under the mutex
    | Join
    | Drain      // the destructor deletes the first message left

  predicate Enabled(s: State, step: Step) {
    match step
    case Send(blocks) => s.teardown != Joined && blocks !! s.obtained
    case Test => s.worker == Top
    case Receive => s.worker == Checked
    case Wake => s.worker == Waiting
    case Resume => s.worker == Woken
    case Handle => s.worker.Received?
    case Delete => s.worker.Handled?
    case Stop => s.teardown == Alive
    case Signal => s.teardown == Stopped
    case Join => s.teardown == Signalled && s.worker == Exited
    case Drain => s.teardown == Joined && s.queue != []
  }

  function Signalling(w: Worker): Worker { if w == Waiting then Woken else w }

  function Next(s: State, step: Step): State
    requires Enabled(s, step)
  {
    match step
    case Send(blocks) =>
      var m := Message(|s.sent|, blocks);
      s.(queue := s.queue + [m], obtained := s.obtained + blocks, sent := s.sent + [m],
         worker := Signalling(s.worker))
    case Test => s.(worker := if s.teardown == Alive then Checked else Exited)
    case Receive =>
      if s.queue == [] then s.(worker := Waiting)
      else s.(worker := Received(s.queue[0]), queue := s.queue[1..])
    case Wake => s.(worker := Woken)
    case Resume =>
      if s.queue == [] then s.(worker := Top)
      else s.(worker := Received(s.queue[0]), queue := s.queue[1..])
    case Handle => s.(worker := Handled(s.worker.m), processed := s.processed + [s.worker.m])
    case Delete =>
      s.(worker := Top, freed := s.freed + multiset(s.worker.m.blocks), deleted := s.deleted + [s.worker.m])
    case Stop => s.(teardown := Stopped)
    case Signal => s.(teardown := Signalled, worker := Signalling(s.worker))
    case Join => s.(teardown := Joined)
    case Drain =>
      var m := s.queue[0];
      s.(queue := s.queue[1..], freed := s.freed + multiset(m.blocks),
         drained := s.drained + [m], deleted := s.deleted + [m])
  }

  /** The state a run reaches from `s`, None when some step is not enabled. */
  function Exec(s: State, steps: seq<Step>): Option<State> {
    if steps == [] then Some(s)
    else
      var before := Exec(s, steps[..|steps| - 1]);
      var last := steps[|steps| - 1];
      if before.Some? && Enabled(before.value, last) then Some(Next(before.value, last)) else None
  }

  /** Every message is in exactly one place, in sending order. */
  predicate Inv(s: State) {
    && (forall i | 0 <= i < |s.sent| :: s.sent[i].id == i)
    && s.sent == s.processed + (if s.worker.Received? then [s.worker.m] else []) + s.drained + s.queue
    && s.processed + s.drained == s.deleted + (if s.worker.Handled? then [s.worker.m] else [])
    && (s.drained != [] ==> s.teardown == Joined)
    && (s.teardown == Joined ==> s.worker == Exited)
    && (s.worker == Exited ==> s.teardown != Alive)
    && (s.worker == Waiting ==> s.queue == [])
  }

  lemma TakeKeeps(s: State)
    requires Inv(s) && s.queue != [] && s.worker in {Checked, Woken}
    ensures Inv(s.(worker := Received(s.queue[0]), queue := s.queue[1..]))
  {
    assert s.drained == [];
    assert s.queue == [s.queue[0]] + s.queue[1..];
  }

  lemma DrainKeeps(s: State)
    requires Inv(s) && Enabled(s, Drain)
    ensures Inv(Next(s, Drain))
  {
    var h := [s.queue[0]];
    assert s.queue == h + s.queue[1..];
    assert s.processed + (s.drained + h) == (s.processed + s.drained) + h;
  }

  lemma HandleKeeps(s: State)
    requires Inv(s)
    ensures Enabled(s, Handle) ==> Inv(Next(s, Handle))
    ensures Enabled(s, Delete) ==> Inv(Next(s, Delete))
  {
    if s.worker.Received? || s.worker.Handled? {
      assert s.drained == [];
      assert s.processed + s.drained == s.processed;
      assert s.processed + [s.worker.m] + s.drained == s.processed + [s.worker.m];
    }
  }

  lemma SendKeeps(s: State, blocks: set<nat>)
    requires Inv(s) && Enabled(s, Send(blocks))
    ensures Inv(Next(s, Send(blocks)))
  {
    var m := [Message(|s.sent|, blocks)];
    assert s.drained == [];
    assert Next(s, Send(blocks)).queue == s.queue + m;
  }

  lemma StepKeeps(s: State, step: Step)
    requires Inv(s) && Enabled(s, step)
    ensures Inv(Next(s, step))
  {
    match step
    case Send(blocks) => SendKeeps(s, blocks);
    case Receive => if s.queue != [] { TakeKeeps(s); }
    case Resume => if s.queue != [] { TakeKeeps(s); }
    case Handle => HandleKeeps(s);
    case Delete => HandleKeeps(s);
    case Drain => DrainKeeps(s);
    case _ =>
  }

  lemma {:induction false} RunKeeps(steps: seq<Step>)
    requires Exec(INIT, steps).Some?
    ensures Inv(Exec(INIT, steps).value)
  {
    hide Inv, Next, Enabled;
    if steps == [] {
      InitHolds();
    } else {
      var before, last := steps[..|steps| - 1], steps[|steps| - 1];
      RunKeeps(before);
      StepKeeps(Exec(INIT, before).value, last);
    }
  }

  lemma InitHolds()
    ensures Inv(INIT)
  {}

  /** In every interleaving, spurious wakeups and teardown included: messages are
      processed in sending order; the worker never sleeps on a message; processed,
      in hand, drained and queued make up what was sent; deletions follow sending
      order, so none happens twice; and when the destructor has emptied the list
      every message is deleted. */
  lemma MessageConservation(steps: seq<Step>)
    requires Exec(INIT, steps).Some?
    ensures var s := Exec(INIT, steps).value;
            && s.processed <= s.sent && s.deleted <= s.sent
            && (forall i, j | 0 <= i < j < |s.deleted| :: s.deleted[i] != s.deleted[j])
            && s.sent == s.processed + (if s.worker.Received? then [s.worker.m] else []) + s.drained + s.queue
            && (s.teardown == Joined && s.queue == [] ==> s.deleted == s.sent)
            && (s.worker == Waiting ==> s.queue == [])
  {
    RunKeeps(steps);
    var s := Exec(INIT, steps).value;
    hide Exec;
    PlacesOf(s);
  }

  lemma PlacesOf(s: State)
    requires Inv(s)
    ensures s.processed <= s.sent && s.deleted <= s.sent
    ensures forall i, j | 0 <= i < j < |s.deleted| :: s.deleted[i] != s.deleted[j]
    ensures s.teardown == Joined && s.queue == [] ==> s.deleted == s.sent
    ensures s.worker == Waiting ==> s.queue == []
  {
    var hand := if s.worker.Received? then [s.worker.m] else [];
    var done := if s.worker.Handled? then [s.worker.m] else [];
    assert s.drained == [] || hand == [];
    assert s.sent == (s.processed + s.drained) + (hand + s.queue);
    assert s.sent == s.deleted + (done + (hand + s.queue));
    assert forall i | 0 <= i < |s.deleted| :: s.deleted[i] == s.sent[i];
  }

  // ---------------------------------------------------------------- buffers freed once

  /** What deleting these messages gives to free. */
  function FreedBy(messages: seq<Message>): multiset<nat> {
    if messages == [] then multiset{}
    else FreedBy(messages[..|messages| - 1]) + multiset(messages[|messages| - 1].blocks)
  }

  ghost predicate Owns(messages: seq<Message>, h: nat) {
    exists i | 0 <= i < |messages| :: h in messages[i].blocks
  }

  /** No block belongs to two messages. */
  ghost predicate Disjoint(messages: seq<Message>) {
    forall i, j | 0 <= i < j < |messages| :: messages[i].blocks !! messages[j].blocks
  }

  ghost predicate Buffers(s: State) {
    && Disjoint(s.sent)
    && (forall h: nat :: h in s.obtained <==> Owns(s.sent, h))
    && s.freed == FreedBy(s.deleted)
  }

  lemma OwnsSnoc(messages: seq<Message>, m: Message, h: nat)
    ensures Owns(messages + [m], h) <==> Owns(messages, h) || h in m.blocks
  {
    var all := messages + [m];
    assert all[|messages|] == m && forall i | 0 <= i < |messages| :: all[i] == messages[i];
  }

  lemma FreedBySnoc(messages: seq<Message>, m: Message)
    ensures FreedBy(messages + [m]) == FreedBy(messages) + multiset(m.blocks)
  {
    assert (messages + [m])[..|messages|] == messages;
  }

  lemma BuffersKeep(s: State, step: Step)
    requires Buffers(s) && Enabled(s, step)
    ensures Buffers(Next(s, step))
  {
    hide FreedBy, Owns;
    match step
    case Send(blocks) =>
      var m := Message(|s.sent|, blocks);
      forall h: nat ensures Owns(s.sent + [m], h) <==> Owns(s.sent, h) || h in blocks { OwnsSnoc(s.sent, m, h); }
      forall i | 0 <= i < |s.sent| ensures s.sent[i].blocks !! blocks { OwnedObtained(s, i); }
    case Delete => FreedBySnoc(s.deleted, s.worker.m);
    case Drain => FreedBySnoc(s.deleted, s.queue[0]);
    case _ =>
  }

  lemma OwnedObtained(s: State, i: nat)
    requires Buffers(s) && i < |s.sent|
    ensures s.sent[i].blocks <= s.obtained
  {
    forall h | h in s.sent[i].blocks ensures h in s.obtained { assert Owns(s.sent, h); }
  }

  lemma {:induction false} BuffersHold(steps: seq<Step>)
    requires Exec(INIT, steps).Some?
    ensures Buffers(Exec(INIT, steps).value)
  {
    hide Buffers, Next, Enabled;
    if steps == [] {
      NoBuffers();
    } else {
      var before, last := steps[..|steps| - 1], steps[|steps| - 1];
      BuffersHold(before);
      BuffersKeep(Exec(INIT, before).value, last);
    }
  }

  lemma NoBuffers()
    ensures Buffers(INIT)
  {}

  lemma {:induction false} FreedOnce(messages: seq<Message>, h: nat)
    requires Disjoint(messages)
    ensures FreedBy(messages)[h] == if Owns(messages, h) then 1 else 0
  {
    if messages != [] {
      var before, last := messages[..|messages| - 1], messages[|messages| - 1];
      FreedOnce(before, h);
      OwnsSnoc(before, last, h);
      assert messages == before + [last];
      if h in last.blocks {
        forall i | 0 <= i < |before| ensures h !in before[i].blocks { assert messages[i].blocks !! last.blocks; }
      }
    }
  }

  /** In every interleaving each block of each message is given to free at most
      once, and has been exactly when its message is deleted, by the worker or by
      the destructor; when the destructor has emptied the list, every block ever
      obtained has been freed. */
  lemma BuffersFreedOnce(steps: seq<Step>)
    requires Exec(INIT, steps).Some?
    ensures var s := Exec(INIT, steps).value;
            && (forall h: nat :: s.freed[h] <= 1)
            && (forall m, h | m in s.sent && h in m.blocks :: s.freed[h] == 1 <==> m in s.deleted)
            && (s.teardown == Joined && s.queue == [] ==> forall h | h in s.obtained :: s.freed[h] == 1)
  {
    var s := Exec(INIT, steps).value;
    BuffersHold(steps);
    MessageConservation(steps);
    hide Exec, FreedBy;
    assert Disjoint(s.deleted);
    forall h: nat ensures s.freed[h] <= 1 && (s.freed[h] == 1 <==> Owns(s.deleted, h)) { FreedOnce(s.deleted, h); }
    forall m, h | m in s.sent && h in m.blocks ensures s.freed[h] == 1 <==> m in s.deleted {
      OwnerDeleted(s, m, h);
    }
  }

  lemma OwnerDeleted(s: State, m: Message, h: nat)
    requires Disjoint(s.sent) && s.deleted <= s.sent && m in s.sent && h in m.blocks
    ensures Owns(s.deleted, h) <==> m in s.deleted
  {
    var i :| 0 <= i < |s.sent| && s.sent[i] == m;
    if m in s.deleted {
      var j :| 0 <= j < |s.deleted| && s.deleted[j] == m;
    }
    if Owns(s.deleted, h) {
      var j :| 0 <= j < |s.deleted| && h in s.deleted[j].blocks;
      assert s.sent[j] == s.deleted[j];
      assert i == j;
    }
  }

  // ---------------------------------------------------------------- the missed signal

  /** From the moment mIsRunning is cleared, some run in which the destructor's
      signal comes next puts the worker to sleep after that signal. */
  ghost predicate SleepsThroughStop(s: State)
    requires Enabled(s, Signal)
  {
    exists steps :: Exec(Next(s, Signal), steps).Some? && Exec(Next(s, Signal), steps).value.worker == Waiting
  }

  /** After the signal: the worker neither waits nor is on its way to. */
  predicate Safe(s: State) {
    && s.teardown in {Signalled, Joined}
    && s.worker != Waiting && (s.worker == Checked ==> s.queue != [])
  }

  lemma {:induction false} SafeForever(s: State, steps: seq<Step>)
    requires Safe(s) && Exec(s, steps).Some? && s.teardown == Signalled
    ensures Safe(Exec(s, steps).value)
    ensures Exec(s, steps).value.teardown == Joined ==> Exec(s, steps).value.worker == Exited
  {
    if steps != [] {
      SafeForever(s, steps[..|steps| - 1]);
    }
  }

  /** The flag is cleared outside the mutex, so the worker can miss the signal and
      sleep while it is waited for: exactly when it has tested the flag, has not yet taken the
      mutex, and the list is empty. */
  lemma MissedSignalExact(s: State)
    requires s.teardown == Stopped
    ensures SleepsThroughStop(s) <==> s.worker == Checked && s.queue == []
  {
    var t := Next(s, Signal);
    if s.worker == Checked && s.queue == [] {
      assert [Receive][..0] == [];
      assert Exec(t, []) == Some(t);
      assert Exec(t, [Receive]).value.worker == Waiting;
    } else {
      forall steps | Exec(t, steps).Some? ensures Exec(t, steps).value.worker != Waiting {
        SafeForever(t, steps);
      }
    }
  }

  /** And that state is reachable before any message is sent. */
  lemma MissedSignalReachable()
    ensures Exec(INIT, [Test, Stop]) == Some(INIT.(worker := Checked, teardown := Stopped))
  {
    var a, b := [Test], [Test, Stop];
    assert a[..0] == [] && b[..1] == a;
    assert Exec(INIT, []) == Some(INIT);
    assert Exec(INIT, a) == Some(INIT.(worker := Checked));
  }

  // ---------------------------------------------------------------- property buffers

  /** The C heap as malloc and free see it. */
  class Heap {
    var live: map<nat, seq<byte>>
    var next: nat

    ghost predicate Valid()
      reads this
    {
      forall p | p in live :: p < next
    }

    constructor ()
      ensures Valid() && live == map[]
    {
      live, next := map[], 0;
    }

    /** `malloc(|bytes|)` followed by `memcpy`. */
    method MallocCopy(bytes: seq<byte>) returns (p: nat)
      requires Valid()
      modifies this
      ensures Valid() && next == old(next) + 1 && p == old(next)
      ensures live == old(live)[p := bytes]
    {
      p := next;
      live, next := live[p := bytes], next + 1;
    }

    /** `free`: the block must be live, so nothing is freed twice; NULL is fine. */
    method Free(p: Option<nat>)
      requires Valid() && (p.Some? ==> p.value in live)
      modifies this`live
      ensures Valid() && live == if p.Some? then old(live) - {p.value} else old(live)
    {
      if p.Some? { live := live - {p.value}; }
    }
  }

  const MAX_PROPS := 15

  /** `bt_property_t` as the class stores it, and as a caller passes it. */
  datatype Stored = Stored(kind: int, len: nat, val: Option<nat>)
  datatype Given = Given(kind: int, bytes: seq<byte>)

  function Handles(s: seq<Stored>): set<nat> {
    set v | v in s && v.val.Some? :: v.val.value
  }

  class Properties {
    var mNum: nat
    const mValues: array<Stored>
    const heap: Heap

    /** The first mNum entries own distinct live blocks, the rest own nothing. */
    ghost predicate Valid()
      reads this, mValues, heap
    {
      && heap.Valid() && mValues.Length == MAX_PROPS && mNum <= MAX_PROPS
      && (forall i | 0 <= i < mNum ::
            mValues[i].val.Some? && mValues[i].val.value in heap.live
            && |heap.live[mValues[i].val.value]| == mValues[i].len)
      && (forall i, j | 0 <= i < j < mNum :: mValues[i].val != mValues[j].val)
      && (forall i | mNum <= i < MAX_PROPS :: mValues[i].val == None && mValues[i].len == 0)
    }

    ghost function Owned(): set<nat>
      requires mNum <= mValues.Length
      reads this, mValues
    {
      Handles(mValues[..mNum])
    }

    ghost function Contents(): seq<Given>
      requires Valid()
      reads this, mValues, heap
    {
      seq(mNum, i requires 0 <= i < mNum && Valid() reads this, mValues, heap =>
        Given(mValues[i].kind, heap.live[mValues[i].val.value]))
    }

    constructor (heap: Heap)
      requires heap.Valid()
      ensures Valid() && mNum == 0 && Owned() == {} && Contents() == [] && this.heap == heap && fresh(mValues)
    {
      mNum := 0;
      mValues := new Stored[MAX_PROPS](_ => Stored(0, 0, None));
      this.heap := heap;
    }

    /** Also the destructor: frees each owned block once and nothing else. */
    method ReleaseProps()
      requires Valid()
      modifies this`mNum, mValues, heap`live
      ensures Valid() && mNum == 0 && Owned() == {}
      ensures heap.live == old(heap.live) - old(Owned())
    {
      if mNum == 0 { return; }
      ghost var was := mValues[..mNum];
      var i := 0;
      while i < mNum
        invariant 0 <= i <= mNum == |was|
        invariant heap.Valid() && heap.live == old(heap.live) - Handles(was[..i])
        invariant forall j | 0 <= j < i :: mValues[j].val == None && mValues[j].len == 0
        invariant forall j | i <= j < mNum :: mValues[j] == was[j]
        invariant forall j | mNum <= j < MAX_PROPS :: mValues[j].val == None && mValues[j].len == 0
      {
        assert was[..i + 1] == was[..i] + [was[i]];
        heap.Free(mValues[i].val);
        mValues[i] := Stored(mValues[i].kind, 0, None);
        i := i + 1;
      }
      assert was[..i] == was;
      mNum := 0;
    }

    /** Replaces the contents by deep copies: the old blocks are freed, the new
        ones were never used before, and every other live block keeps its bytes. */
    method CopyProps(num: nat, props: seq<Given>)
      requires Valid() && num == |props| <= MAX_PROPS
      modifies this`mNum, mValues, heap
      ensures Valid() && Contents() == props
      ensures old(heap.next) <= heap.next && forall p | p in Owned() :: old(heap.next) <= p < heap.next
      ensures heap.live.Keys == old(heap.live.Keys) - old(Owned()) + Owned()
      ensures forall p | p in heap.live && p !in Owned() :: heap.live[p] == old(heap.live[p])
    {
      if mNum != 0 { ReleaseProps(); }
      ghost var rest, base := heap.live, heap.next;
      mNum := num;
      var i := 0;
      CopyStart(mValues[..], heap.live, props, base);
      while i < num
        invariant 0 <= i <= num == mNum && heap.next == base + i
        invariant Copied(mValues[..], heap.live, props, rest, base, i)
      {
        hide Copied;
        ghost var values, live := mValues[..], heap.live;
        var val := heap.MallocCopy(props[i].bytes);
        mValues[i] := Stored(props[i].kind, |props[i].bytes|, Some(val));
        assert mValues[..] == values[i := mValues[i]];
        CopyStep(values, live, props, rest, base, i);
        i := i + 1;
      }
      CopyDone(mValues[..], heap.live, props, rest, base);
      assert mValues[..][..num] == mValues[..num];
    }
  }

  /** A stored property is a live deep copy of the given one. */
  predicate Holds(v: Stored, g: Given, live: map<nat, seq<byte>>) {
    && v.val.Some? && v.kind == g.kind && v.len == |g.bytes|
    && v.val.value in live && live[v.val.value] == g.bytes
  }

  /** After `i` rounds of the copying loop, which began with the heap `rest`: the
      first `i` entries hold copies in the blocks from `base` on, the other entries
      nothing, and the rest of the heap is as it was. */
  ghost predicate Copied(values: seq<Stored>, live: map<nat, seq<byte>>, props: seq<Given>,
                         rest: map<nat, seq<byte>>, base: nat, i: nat)
  {
    && i <= |props| <= |values|
    && (forall j | 0 <= j < i :: values[j].val == Some(base + j) && Holds(values[j], props[j], live))
    && (forall j | i <= j < |values| :: values[j].val == None && values[j].len == 0)
    && (forall p | p in rest :: p < base && p in live && live[p] == rest[p])
    && (forall p | p in live :: p in rest || base <= p < base + i)
  }

  lemma CopyStart(values: seq<Stored>, live: map<nat, seq<byte>>, props: seq<Given>, base: nat)
    requires |props| <= |values| && forall j | 0 <= j < |values| :: values[j].val == None && values[j].len == 0
    requires forall p | p in live :: p < base
    ensures Copied(values, live, props, live, base, 0)
  {}

  lemma CopyStep(values: seq<Stored>, live: map<nat, seq<byte>>, props: seq<Given>,
                 rest: map<nat, seq<byte>>, base: nat, i: nat)
    requires Copied(values, live, props, rest, base, i) && i < |props| <= |values|
    ensures var v := Stored(props[i].kind, |props[i].bytes|, Some(base + i));
            Copied(values[i := v], live[base + i := props[i].bytes], props, rest, base, i + 1)
  {
    var v := Stored(props[i].kind, |props[i].bytes|, Some(base + i));
    var values', live' := values[i := v], live[base + i := props[i].bytes];
    forall j | 0 <= j < i + 1 ensures values'[j].val == Some(base + j) && Holds(values'[j], props[j], live') {
      assert j < i ==> values'[j] == values[j] && Holds(values[j], props[j], live);
    }
  }

  lemma CopyDone(values: seq<Stored>, live: map<nat, seq<byte>>, props: seq<Given>, rest: map<nat, seq<byte>>, base: nat)
    requires Copied(values, live, props, rest, base, |props|)
    ensures |props| <= |values|
    ensures Handles(values[..|props|]) == set p | p in live && p !in rest
    ensures forall p | p in Handles(values[..|props|]) :: base <= p < base + |props|
  {
    var n := |props|;
    forall j | 0 <= j < n ensures values[..n][j].val == Some(base + j) { assert Holds(values[j], props[j], live); }
    forall p | p in live && p !in rest ensures p in Handles(values[..n]) {
      assert values[..n][p - base] in values[..n];
    }
  }

  /** A message with its two property lists. */
  class RMessage {
    const props: Properties
    const remoteProps: Properties

    ghost predicate Valid()
      reads props, props.mValues, props.heap, remoteProps, remoteProps.mValues
    {
      && props != remoteProps && props.heap == remoteProps.heap && props.mValues != remoteProps.mValues
      && props.Valid() && remoteProps.Valid() && props.Owned() !! remoteProps.Owned()
    }

    ghost function Blocks(): set<nat>
      requires Valid()
      reads props, props.mValues, props.heap, remoteProps, remoteProps.mValues
    {
      props.Owned() + remoteProps.Owned()
    }

    constructor (heap: Heap)
      requires heap.Valid()
      ensures Valid() && Blocks() == {} && props.heap == heap
      ensures fresh(props) && fresh(remoteProps) && fresh(props.mValues) && fresh(remoteProps.mValues)
    {
      props := new Properties(heap);
      remoteProps := new Properties(heap);
    }

    /** The message of a change of adapter properties: its blocks were never used
        before, as a Send step asks. */
    method SetProps(given: seq<Given>)
      requires Valid() && Blocks() == {} && |given| <= MAX_PROPS
      modifies props, props.mValues, props.heap
      ensures Valid() && props.Contents() == given && remoteProps.Contents() == []
      ensures forall p | p in Blocks() :: old(props.heap.next) <= p < props.heap.next
      ensures props.heap.live.Keys == old(props.heap.live.Keys) + Blocks()
    {
      NothingStored(remoteProps);
      props.CopyProps(|given|, given);
    }

    /** The same for a remote device. */
    method SetRemoteProps(given: seq<Given>)
      requires Valid() && Blocks() == {} && |given| <= MAX_PROPS
      modifies remoteProps, remoteProps.mValues, props.heap
      ensures Valid() && remoteProps.Contents() == given && props.Contents() == []
      ensures forall p | p in Blocks() :: old(props.heap.next) <= p < props.heap.next
      ensures props.heap.live.Keys == old(props.heap.live.Keys) + Blocks()
    {
      NothingStored(props);
      remoteProps.CopyProps(|given|, given);
    }

    /** The destructor: the members go in reverse order, each block once. */
    method Destroy()
      requires Valid()
      modifies props, props.mValues, props.heap`live, remoteProps, remoteProps.mValues
      ensures Valid() && Blocks() == {}
      ensures props.heap.live == old(props.heap.live) - old(Blocks())
    {
      ghost var theirs := remoteProps.Owned();
      remoteProps.ReleaseProps();
      props.ReleaseProps();
    }
  }

  /** A list owns no block exactly when it stores no property. */
  lemma NothingStored(p: Properties)
    requires p.Valid()
    ensures p.Owned() == {} <==> p.mNum == 0
  {
    if p.mNum > 0 {
      var stored := p.mValues[..p.mNum];
      assert stored[0] in stored;
      assert stored[0].val.value in p.Owned();
    }
  }
}
