/** The reading threads and the event loop of transport.cpp around the shared
    receive list, as atomic steps: every lock-protected section is one step.
    Reading threads are detached, so an old one may outlive its device and overlap
    with the next: any number of them takes part. */
module PacketQueue {
  import opened Bytes

  /** A packet: its place in allocation order, whether it has a payload block,
      and whether its checksum will match. */
  datatype Packet = Packet(id: nat, payload: bool, ok: bool)

  /** The heap blocks behind a packet. */
  datatype Block = Struct(id: nat) | Payload(id: nat)

  function Blocks(p: Packet): multiset<Block> {
    if p.payload then multiset{Payload(p.id), Struct(p.id)} else multiset{Struct(p.id)}
  }

  function BlocksOf(s: seq<Packet>): multiset<Block> {
    if s == [] then multiset{} else BlocksOf(s[..|s| - 1]) + Blocks(s[|s| - 1])
  }

  /** The consumer: outside, asleep in the wait, awake but not yet back under the
      lock, with a popped packet, and after the packet's callback. */
  datatype Consumer = Outside | Waiting | Woken | Popped(q: Packet) | Called(q: Packet)

  datatype State = State(
    holding: map<nat, Packet>,  // the packet each reader has built and not settled
    consumer: Consumer,
    queue: seq<Packet>,
    freed: multiset<Block>,
    // history
    arrived: seq<Packet>,
    accepted: seq<Packet>,
    rejected: seq<Packet>,
    handled: seq<Packet>,
    poppedEmpty: bool)

  const INIT := State(map[], Outside, [], multiset{}, [], [], [], [], false)

  datatype Step =
    | Receive(r: nat, payload: bool, ok: bool)  // read_data of reader r up to getPacket
    | Settle(r: nat)                            // push under the lock and signal, or free at once
    | Enter                                     // popFromRecvList: pop, or start to wait
    | Return                                    // back from the wait: pop without looking again
    | Callback
    | Release
    | Spurious                                  // a wakeup nobody signalled

  predicate Enabled(s: State, step: Step) {
    match step
    case Receive(r, _, _) => r !in s.holding
    case Settle(r) => r in s.holding
    case Enter => s.consumer == Outside
    case Return => s.consumer == Woken
    case Callback => s.consumer.Popped?
    case Release => s.consumer.Called?
    case Spurious => s.consumer == Waiting
  }

  function Pop(s: State): State {
    if s.queue == [] then s.(poppedEmpty := true)
    else s.(consumer := Popped(s.queue[0]), queue := s.queue[1..])
  }

  function Next(s: State, step: Step): State
    requires Enabled(s, step)
  {
    match step
    case Receive(r, payload, ok) =>
      var p := Packet(|s.arrived|, payload, ok);
      s.(holding := s.holding[r := p], arrived := s.arrived + [p])
    case Settle(r) =>
      var p := s.holding[r];
      if p.ok then
        s.(holding := s.holding - {r}, queue := s.queue + [p], accepted := s.accepted + [p],
           consumer := if s.consumer == Waiting then Woken else s.consumer)
      else
        s.(holding := s.holding - {r}, freed := s.freed + Blocks(p), rejected := s.rejected + [p])
    case Enter => if s.queue == [] then s.(consumer := Waiting) else Pop(s)
    case Return => Pop(s)
    case Callback => s.(consumer := Called(s.consumer.q), handled := s.handled + [s.consumer.q])
    case Release => s.(consumer := Outside, freed := s.freed + Blocks(s.consumer.q))
    case Spurious => s.(consumer := Woken)
  }

  /** The state after a run, None when some step was not enabled. */
  function Exec(steps: seq<Step>): Option<State> {
    if steps == [] then Some(INIT)
    else
      var before := Exec(steps[..|steps| - 1]);
      var last := steps[|steps| - 1];
      if before.Some? && Enabled(before.value, last) then Some(Next(before.value, last)) else None
  }

  // ---------------------------------------------------------------- popping an empty list

  /** Whether the frame reader `r` took last has a good checksum. */
  predicate LastGood(steps: seq<Step>, r: nat) {
    steps != [] &&
    var last := steps[|steps| - 1];
    if last.Receive? && last.r == r then last.ok else LastGood(steps[..|steps| - 1], r)
  }

  /** Step `k` puts a packet on the list. */
  predicate Pushes(steps: seq<Step>, k: nat)
    requires k < |steps|
  {
    steps[k].Settle? && LastGood(steps[..k], steps[k].r)
  }

  /** After step `i`, a spurious wakeup, nothing was put on the list and the
      consumer did not come back before step `j`. */
  ghost predicate NothingSince(steps: seq<Step>, i: nat, j: nat)
    requires j <= |steps|
  {
    i < j && steps[i] == Spurious && forall k | i < k < j :: steps[k] != Return && !Pushes(steps, k)
  }

  /** The consumer comes back at step `j` from a spurious wakeup that nothing made
      up for. */
  ghost predicate HollowReturn(steps: seq<Step>, j: nat) {
    j < |steps| && steps[j] == Return && exists i: nat :: NothingSince(steps, i, j)
  }

  ghost predicate Hollow(steps: seq<Step>) {
    exists j: nat :: HollowReturn(steps, j)
  }

  /** The same about to happen. */
  ghost predicate HollowWake(steps: seq<Step>) {
    exists i: nat :: NothingSince(steps, i, |steps|)
  }

  lemma PushesPrefix(steps: seq<Step>, last: Step, k: nat)
    requires k < |steps|
    ensures Pushes(steps + [last], k) == Pushes(steps, k)
  {
    assert (steps + [last])[..k] == steps[..k];
  }

  lemma NothingSincePrefix(steps: seq<Step>, last: Step, i: nat, j: nat)
    requires j <= |steps|
    ensures NothingSince(steps + [last], i, j) == NothingSince(steps, i, j)
  {
    hide Pushes;
    var all := steps + [last];
    forall k | 0 <= k < |steps| ensures all[k] == steps[k] && Pushes(all, k) == Pushes(steps, k) {
      PushesPrefix(steps, last, k);
    }
    assert i < j ==> all[i] == steps[i];
    if NothingSince(steps, i, j) {
      forall k | i < k < j ensures all[k] != Return && !Pushes(all, k) { assert steps[k] != Return; }
    }
    if NothingSince(all, i, j) {
      forall k | i < k < j ensures steps[k] != Return && !Pushes(steps, k) { assert all[k] != Return; }
    }
  }

  lemma HollowSnoc(steps: seq<Step>, last: Step)
    ensures Hollow(steps + [last]) <==> Hollow(steps) || (last == Return && HollowWake(steps))
  {
    hide NothingSince;
    var all := steps + [last];
    forall j: nat ensures HollowReturn(all, j) <==>
      HollowReturn(steps, j) || (j == |steps| && last == Return && HollowWake(steps))
    {
      if j <= |steps| {
        forall i: nat ensures NothingSince(all, i, j) == NothingSince(steps, i, j) {
          NothingSincePrefix(steps, last, i, j);
        }
      }
    }
    if last == Return && HollowWake(steps) { assert HollowReturn(all, |steps|); }
    if Hollow(steps) {
      var j: nat :| HollowReturn(steps, j);
      assert HollowReturn(all, j);
    }
  }

  /** One more step keeps nothing having happened since `i`, unless it is a return
      or a push. */
  lemma NothingSinceSnoc(steps: seq<Step>, last: Step, i: nat)
    requires i < |steps|
    ensures NothingSince(steps + [last], i, |steps| + 1) <==>
              NothingSince(steps, i, |steps|) && last != Return && !(last.Settle? && LastGood(steps, last.r))
  {
    var all, n := steps + [last], |steps|;
    assert all[..n] == steps && all[n] == last;
    assert Pushes(all, n) <==> last.Settle? && LastGood(steps, last.r);
    hide Pushes;
    NothingSincePrefix(steps, last, i, n);
    assert NothingSince(all, i, n + 1) ==> NothingSince(all, i, n) && all[n] != Return && !Pushes(all, n);
    if NothingSince(all, i, n) && all[n] != Return && !Pushes(all, n) {
      forall k | i < k < n + 1 ensures all[k] != Return && !Pushes(all, k) {}
    }
  }

  lemma HollowWakeSnoc(steps: seq<Step>, last: Step)
    ensures HollowWake(steps + [last]) <==>
              last == Spurious ||
              (HollowWake(steps) && last != Return && !(last.Settle? && LastGood(steps, last.r)))
  {
    var all, n := steps + [last], |steps|;
    forall i: nat | i < n
      ensures NothingSince(all, i, n + 1) <==>
        NothingSince(steps, i, n) && last != Return && !(last.Settle? && LastGood(steps, last.r))
    {
      NothingSinceSnoc(steps, last, i);
    }
    assert NothingSince(all, n, n + 1) <==> last == Spurious;
    hide NothingSince;
    assert forall i: nat | i >= n :: !NothingSince(steps, i, n) by { NothingBefore(steps); }
    assert forall i: nat | i >= |all| :: !NothingSince(all, i, |all|) by { NothingBefore(all); }
    if HollowWake(steps) {
      var i: nat :| NothingSince(steps, i, n);
      assert NothingSince(all, i, n + 1) <==> last != Return && !(last.Settle? && LastGood(steps, last.r));
    }
    if HollowWake(all) {
      var i: nat :| NothingSince(all, i, n + 1);
      assert i == n || NothingSince(steps, i, n);
    }
  }

  lemma NothingBefore(steps: seq<Step>)
    ensures forall i: nat | i >= |steps| :: !NothingSince(steps, i, |steps|)
  {}

  // ---------------------------------------------------------------- invariants

  /** The packets whose callback and release are both over. */
  function Released(s: State): seq<Packet> {
    if s.consumer.Called? && s.handled != [] then s.handled[..|s.handled| - 1] else s.handled
  }

  /** Different packets, each of them one that arrived and has this verdict. */
  predicate Genuine(s: seq<Packet>, arrived: seq<Packet>, ok: bool) {
    && (forall i, j | 0 <= i < j < |s| :: s[i].id != s[j].id)
    && forall p | p in s :: p.id < |arrived| && arrived[p.id] == p && p.ok == ok
  }

  /** Conservation: handled, in hand, queued is what was accepted, in order; and
      the consumer has not popped an empty list. */
  ghost predicate Conserved(s: State) {
    && !s.poppedEmpty
    && (s.consumer == Waiting ==> s.queue == [])
    && (s.consumer.Called? ==> s.handled != [] && s.handled[|s.handled| - 1] == s.consumer.q)
    && s.accepted == s.handled + (if s.consumer.Popped? then [s.consumer.q] else []) + s.queue
  }

  /** Ownership: the blocks freed are those of the rejected and the released. */
  ghost predicate Owned(s: State) {
    && (s.consumer.Called? ==> s.handled != [] && s.handled[|s.handled| - 1] == s.consumer.q)
    && s.freed == BlocksOf(s.rejected) + BlocksOf(Released(s))
  }

  /** What readers hold arrived, and is not settled. */
  ghost predicate Held(s: State) {
    && (forall r | r in s.holding ::
          var p := s.holding[r];
          p.id < |s.arrived| && s.arrived[p.id] == p && p !in s.accepted && p !in s.rejected)
    && forall r, q | r in s.holding && q in s.holding && r != q :: s.holding[r].id != s.holding[q].id
  }

  /** `p` is with a reader, or settled by its checksum. */
  ghost predicate Placed(s: State, p: Packet) {
    p in s.holding.Values || p in (if p.ok then s.accepted else s.rejected)
  }

  ghost predicate AllPlaced(s: State) {
    forall i | 0 <= i < |s.arrived| :: s.arrived[i].id == i && Placed(s, s.arrived[i])
  }

  /** Every arrived packet is in one place. */
  ghost predicate Sorted(s: State) {
    && AllPlaced(s)
    && Held(s)
    && Genuine(s.accepted, s.arrived, true)
    && Genuine(s.rejected, s.arrived, false)
  }

  ghost predicate Inv(s: State) {
    Conserved(s) && Owned(s) && Sorted(s)
  }

  lemma BlocksSnoc(s: seq<Packet>, p: Packet)
    ensures BlocksOf(s + [p]) == BlocksOf(s) + Blocks(p)
  {
    assert (s + [p])[..|s|] == s;
  }

  lemma ConservedKeeps(s: State, step: Step)
    requires Conserved(s) && Enabled(s, step)
    ensures Conserved(Next(s, step)) <==> !(step == Return && s.queue == [])
  {
    var t := Next(s, step);
    if step.Enter? || step.Return? {
      if s.queue != [] { assert s.queue == [t.consumer.q] + t.queue; }
    }
  }

  lemma OwnedKeeps(s: State, step: Step)
    requires Owned(s) && Enabled(s, step)
    ensures Owned(Next(s, step))
  {
    hide BlocksOf, Blocks;
    var t := Next(s, step);
    match step
    case Settle(r) =>
      BlocksSnoc(s.rejected, s.holding[r]);
    case Callback =>
      assert Released(t) == s.handled;
    case Release =>
      assert s.handled == Released(s) + [s.consumer.q];
      BlocksSnoc(Released(s), s.consumer.q);
    case _ =>
  }

  lemma GenuineGrows(s: seq<Packet>, arrived: seq<Packet>, ok: bool, p: Packet)
    requires Genuine(s, arrived, ok)
    ensures Genuine(s, arrived + [p], ok)
    ensures p.id < |arrived| && arrived[p.id] == p && p.ok == ok && p !in s ==> Genuine(s + [p], arrived, ok)
  {
    if p.id < |arrived| && arrived[p.id] == p && p !in s {
      assert forall i | 0 <= i < |s| :: s[i] in s && s[i].id != p.id;
    }
  }

  lemma NewcomerUnsettled(s: State, p: Packet)
    requires Sorted(s) && p.id == |s.arrived|
    ensures p !in s.accepted && p !in s.rejected
  {}

  lemma HeldReceive(s: State, r: nat, p: Packet)
    requires Held(s) && r !in s.holding && p.id == |s.arrived| && p !in s.accepted && p !in s.rejected
    ensures Held(s.(holding := s.holding[r := p], arrived := s.arrived + [p]))
  {}

  /** Packets stay placed when no reader but the settling one lets go, and lists
      only grow. */
  lemma StillPlaced(s: State, t: State, p: Packet)
    requires Placed(s, p)
    requires forall r | r in s.holding && s.holding[r] == p :: r in t.holding && t.holding[r] == p
    requires s.accepted <= t.accepted && s.rejected <= t.rejected
    ensures Placed(t, p)
  {
    if p in s.holding.Values {
      var r :| r in s.holding && s.holding[r] == p;
      assert t.holding[r] in t.holding.Values;
    }
  }

  lemma PlacedReceive(s: State, r: nat, p: Packet)
    requires AllPlaced(s) && r !in s.holding && p.id == |s.arrived|
    ensures AllPlaced(s.(holding := s.holding[r := p], arrived := s.arrived + [p]))
  {
    hide Placed;
    var t := s.(holding := s.holding[r := p], arrived := s.arrived + [p]);
    assert Placed(t, p) by { NewPlaced(t, r); }
    forall i | 0 <= i < |t.arrived| ensures t.arrived[i].id == i && Placed(t, t.arrived[i]) {
      if i < |s.arrived| { StillPlaced(s, t, s.arrived[i]); }
    }
  }

  lemma NewPlaced(t: State, r: nat)
    requires r in t.holding
    ensures Placed(t, t.holding[r])
  {}

  lemma SortedReceive(s: State, r: nat, payload: bool, ok: bool)
    requires Sorted(s) && r !in s.holding
    ensures Sorted(Next(s, Receive(r, payload, ok)))
  {
    var p := Packet(|s.arrived|, payload, ok);
    NewcomerUnsettled(s, p);
    hide Genuine, AllPlaced, Held;
    GenuineGrows(s.accepted, s.arrived, true, p);
    GenuineGrows(s.rejected, s.arrived, false, p);
    HeldReceive(s, r, p);
    PlacedReceive(s, r, p);
  }

  lemma HeldSettle(s: State, r: nat, t: State)
    requires Held(s) && r in s.holding && t.arrived == s.arrived && t.holding == s.holding - {r}
    requires var p := s.holding[r];
             && (t.accepted == s.accepted || t.accepted == s.accepted + [p])
             && (t.rejected == s.rejected || t.rejected == s.rejected + [p])
    ensures Held(t)
  {}

  lemma PlacedSettle(s: State, r: nat, t: State)
    requires AllPlaced(s) && r in s.holding && t.arrived == s.arrived && t.holding == s.holding - {r}
    requires s.accepted <= t.accepted && s.rejected <= t.rejected
    requires s.holding[r] in (if s.holding[r].ok then t.accepted else t.rejected)
    ensures AllPlaced(t)
  {
    forall i | 0 <= i < |s.arrived| ensures Placed(t, s.arrived[i]) {
      if s.arrived[i] != s.holding[r] { StillPlaced(s, t, s.arrived[i]); }
    }
  }

  lemma HeldApart(s: State, r: nat)
    requires Held(s) && r in s.holding
    ensures var p := s.holding[r];
            p.id < |s.arrived| && s.arrived[p.id] == p && p !in s.accepted && p !in s.rejected
  {}

  lemma SortedSettle(s: State, r: nat)
    requires Sorted(s) && r in s.holding
    ensures Sorted(Next(s, Settle(r)))
  {
    hide Genuine, AllPlaced, Held;
    var p, t := s.holding[r], Next(s, Settle(r));
    HeldApart(s, r);
    GenuineGrows(s.accepted, s.arrived, true, p);
    GenuineGrows(s.rejected, s.arrived, false, p);
    HeldSettle(s, r, t);
    assert p in (if p.ok then t.accepted else t.rejected);
    PlacedSettle(s, r, t);
  }

  lemma SortedKeeps(s: State, step: Step)
    requires Sorted(s) && Enabled(s, step)
    ensures Sorted(Next(s, step))
  {
    match step
    case Receive(r, payload, ok) => SortedReceive(s, r, payload, ok);
    case Settle(r) => SortedSettle(s, r);
    case _ =>
      SortedSame(s, Next(s, step));
  }

  lemma SortedSame(s: State, t: State)
    requires Sorted(s) && t.arrived == s.arrived && t.holding == s.holding
    requires t.accepted == s.accepted && t.rejected == s.rejected
    ensures Sorted(t)
  {
    hide Genuine;
    forall i | 0 <= i < |s.arrived| ensures Placed(t, s.arrived[i]) { StillPlaced(s, t, s.arrived[i]); }
  }

  /** The verdict of what a reader holds is that of the last frame it took. */
  lemma {:induction false} HoldingIsLast(steps: seq<Step>, r: nat)
    requires Exec(steps).Some? && r in Exec(steps).value.holding
    ensures Exec(steps).value.holding[r].ok == LastGood(steps, r)
  {
    var before, last := steps[..|steps| - 1], steps[|steps| - 1];
    if !(last.Receive? && last.r == r) { HoldingIsLast(before, r); }
  }

  /** Where the run is between a spurious wakeup and its return. */
  ghost predicate HollowInv(steps: seq<Step>, s: State) {
    && (s.poppedEmpty <==> Hollow(steps))
    && (!s.poppedEmpty ==>
          && Conserved(s)
          && (HollowWake(steps) <==> s.consumer == Woken && s.queue == []))
  }

  lemma HollowStep(before: seq<Step>, last: Step, s: State)
    requires Exec(before) == Some(s) && HollowInv(before, s) && Enabled(s, last)
    ensures HollowInv(before + [last], Next(s, last))
  {
    hide Hollow, HollowWake, LastGood;
    HollowSnoc(before, last);
    HollowWakeSnoc(before, last);
    if last.Settle? { HoldingIsLast(before, last.r); }
    if !s.poppedEmpty { ConservedKeeps(s, last); }
  }

  lemma {:induction false} HollowHolds(steps: seq<Step>)
    requires Exec(steps).Some?
    ensures HollowInv(steps, Exec(steps).value)
  {
    hide HollowInv, Next, Enabled;
    if steps == [] {
      HollowNothing();
    } else {
      var before, last := steps[..|steps| - 1], steps[|steps| - 1];
      HollowHolds(before);
      HollowStep(before, last, Exec(before).value);
      assert steps == before + [last];
    }
  }

  lemma HollowNothing()
    ensures HollowInv([], INIT)
  {}

  /** The wait stands under an `if`: over every interleaving the consumer pops an
      empty list exactly when it returns from a spurious wakeup and nothing was put
      on the list in between. */
  lemma PopsEmptyExact(steps: seq<Step>)
    requires Exec(steps).Some?
    ensures Exec(steps).value.poppedEmpty <==> Hollow(steps)
  {
    HollowHolds(steps);
  }

  /** The invariant over every interleaving without such a return. */
  lemma {:induction false} RunKeeps(steps: seq<Step>)
    requires Exec(steps).Some? && !Hollow(steps)
    ensures Inv(Exec(steps).value)
  {
    hide Conserved, Owned, Sorted, Next, Enabled, Hollow;
    HollowHolds(steps);
    if steps == [] {
      InitHolds();
    } else {
      var before, last := steps[..|steps| - 1], steps[|steps| - 1];
      assert steps == before + [last];
      HollowSnoc(before, last);
      RunKeeps(before);
      OwnedKeeps(Exec(before).value, last);
      SortedKeeps(Exec(before).value, last);
    }
  }

  lemma InitHolds()
    ensures Inv(INIT)
  {}

  // ---------------------------------------------------------------- freed once

  /** `b` belongs to a packet of `s`. */
  ghost predicate HoldsBlock(s: seq<Packet>, b: Block) {
    exists p | p in s :: b in Blocks(p)
  }

  lemma BlocksOnce(p: Packet, b: Block)
    ensures Blocks(p)[b] == if b in Blocks(p) then 1 else 0
  {}

  lemma SameBlock(p: Packet, q: Packet, b: Block)
    requires b in Blocks(p) && b in Blocks(q)
    ensures p.id == q.id
  {}

  lemma {:induction false} BlocksCount(s: seq<Packet>, b: Block)
    requires forall i, j | 0 <= i < j < |s| :: s[i].id != s[j].id
    ensures BlocksOf(s)[b] == if HoldsBlock(s, b) then 1 else 0
  {
    hide Blocks;
    if s != [] {
      var before, last := s[..|s| - 1], s[|s| - 1];
      BlocksCount(before, b);
      BlocksOnce(last, b);
      HoldsSnoc(before, last, b);
      assert s == before + [last];
      if HoldsBlock(before, b) && b in Blocks(last) {
        var p :| p in before && b in Blocks(p);
        SameBlock(p, last, b);
        assert false;
      }
    }
  }

  lemma HoldsSnoc(s: seq<Packet>, p: Packet, b: Block)
    ensures HoldsBlock(s + [p], b) <==> HoldsBlock(s, b) || b in Blocks(p)
  {
    hide Blocks;
    assert p in s + [p];
    assert forall q | q in s :: q in s + [p];
  }

  lemma FreedCount(s: State, b: Block)
    requires Inv(s)
    ensures s.freed[b] <= 1
    ensures s.freed[b] == 1 <==> HoldsBlock(s.rejected, b) || HoldsBlock(Released(s), b)
  {
    hide BlocksOf, Blocks;
    var rel := Released(s);
    assert forall i | 0 <= i < |rel| :: rel[i] == s.accepted[i] && rel[i] in s.accepted;
    BlocksCount(s.rejected, b);
    BlocksCount(rel, b);
    if HoldsBlock(s.rejected, b) && HoldsBlock(rel, b) {
      var p, q :| p in s.rejected && b in Blocks(p) && q in rel && b in Blocks(q);
      SameBlock(p, q, b);
      assert false;
    }
  }

  /** In every interleaving in which no spurious wakeup finds the list empty on
      return: callbacks come in the order of acceptance; every packet settles by its
      checksum alone; no block is freed twice; and a block is free exactly when its
      packet has been rejected or has had both callback and release. */
  lemma ConservationAndOwnership(steps: seq<Step>)
    requires Exec(steps).Some? && !Hollow(steps)
    ensures var s := Exec(steps).value;
            && !s.poppedEmpty
            && s.accepted == s.handled + (if s.consumer.Popped? then [s.consumer.q] else []) + s.queue
            && (forall i, j | 0 <= i < j < |s.accepted| :: s.accepted[i] != s.accepted[j])
            && (forall b :: s.freed[b] <= 1)
            && (forall p, b | p in s.arrived && b in Blocks(p) ::
                  s.freed[b] == 1 <==> p in s.rejected || p in Released(s))
            && (forall p | p in s.arrived ::
                  && (s.freed[Struct(p.id)] == 1 <==> p in s.rejected || p in Released(s))
                  && (s.freed[Payload(p.id)] == 1 <==> p.payload && (p in s.rejected || p in Released(s))))
            && (forall p | p in s.arrived && p !in s.holding.Values ::
                  if p.ok then p in s.accepted && p !in s.rejected else p in s.rejected && p !in s.accepted)
  {
    hide Blocks, BlocksOf, Exec, Owned, Genuine, Hollow;
    RunKeeps(steps);
    var s := Exec(steps).value;
    SettledApart(s);
    forall b ensures s.freed[b] <= 1 { FreedCount(s, b); }
    forall p, b | p in s.arrived && b in Blocks(p)
      ensures s.freed[b] == 1 <==> p in s.rejected || p in Released(s)
    {
      FreedCount(s, b);
      OnlyOwner(s, p, b);
    }
    forall p | p in s.arrived
      ensures s.freed[Struct(p.id)] == 1 <==> p in s.rejected || p in Released(s)
      ensures s.freed[Payload(p.id)] == 1 <==> p.payload && (p in s.rejected || p in Released(s))
    {
      BothBlocks(p);
      if !p.payload { NoPayload(s, p); }
    }
  }

  /** What a packet owns: its struct, and the payload block if there is one. */
  lemma BothBlocks(p: Packet)
    ensures Struct(p.id) in Blocks(p) && (Payload(p.id) in Blocks(p) <==> p.payload)
  {}

  lemma NoPayload(s: State, p: Packet)
    requires Inv(s) && p in s.arrived && !p.payload
    ensures s.freed[Payload(p.id)] == 0
  {
    hide Owned;
    FreedCount(s, Payload(p.id));
    var rel := Released(s);
    forall q | q in s.rejected || q in rel ensures Payload(p.id) !in Blocks(q) {
      if q in rel { assert q in s.accepted; }
    }
  }

  lemma SettledApart(s: State)
    requires Sorted(s)
    ensures forall i, j | 0 <= i < j < |s.accepted| :: s.accepted[i] != s.accepted[j]
    ensures forall p | p in s.arrived && p !in s.holding.Values ::
              if p.ok then p in s.accepted && p !in s.rejected else p in s.rejected && p !in s.accepted
  {
    forall p | p in s.arrived && p !in s.holding.Values
      ensures if p.ok then p in s.accepted && p !in s.rejected else p in s.rejected && p !in s.accepted
    {
      assert Placed(s, p);
    }
  }

  lemma OnlyOwner(s: State, p: Packet, b: Block)
    requires Inv(s) && p in s.arrived && b in Blocks(p)
    ensures HoldsBlock(s.rejected, b) <==> p in s.rejected
    ensures HoldsBlock(Released(s), b) <==> p in Released(s)
  {
    hide Blocks, Owned;
    forall q | (q in s.rejected || q in Released(s)) && b in Blocks(q) ensures q == p {
      if q in Released(s) { assert q in s.accepted; }
      SameBlock(p, q, b);
    }
  }

  // ---------------------------------------------------------------- one reader

  /** All frames are taken by reader `r`. */
  predicate OnlyReader(steps: seq<Step>, r: nat) {
    forall step | step in steps && step.Receive? :: step.r == r
  }

  predicate Increasing(s: seq<Packet>) {
    forall i, j | 0 <= i < j < |s| :: s[i].id < s[j].id
  }

  /** The accepted packets in order of arrival, all before what `r` holds. */
  ghost predicate InArrivalOrder(s: State, r: nat) {
    && s.holding.Keys <= {r}
    && (r in s.holding ==> s.holding[r].id == |s.arrived| - 1)
    && Increasing(s.accepted)
    && (forall p | p in s.accepted :: p.id < if r in s.holding then |s.arrived| - 1 else |s.arrived|)
  }

  lemma IncreasingSnoc(s: seq<Packet>, p: Packet)
    requires Increasing(s) && forall q | q in s :: q.id < p.id
    ensures Increasing(s + [p])
  {}

  lemma ArrivalStep(s: State, step: Step, r: nat)
    requires InArrivalOrder(s, r) && Enabled(s, step) && (step.Receive? ==> step.r == r)
    ensures InArrivalOrder(Next(s, step), r)
  {
    hide Increasing;
    if step.Settle? { IncreasingSnoc(s.accepted, s.holding[r]); }
  }

  /** While one reader takes all frames, packets are accepted, and so handled, in
      the order in which they arrived. */
  lemma {:induction false} ArrivalOrder(steps: seq<Step>, r: nat)
    requires Exec(steps).Some? && OnlyReader(steps, r)
    ensures InArrivalOrder(Exec(steps).value, r)
  {
    hide InArrivalOrder, Next, Enabled;
    if steps == [] {
      assert InArrivalOrder(INIT, r) by { NothingArrived(r); }
    } else {
      var before, last := steps[..|steps| - 1], steps[|steps| - 1];
      assert steps == before + [last];
      assert last in steps && forall step | step in before :: step in steps;
      ArrivalOrder(before, r);
      ArrivalStep(Exec(before).value, last, r);
    }
  }

  lemma NothingArrived(r: nat)
    ensures InArrivalOrder(INIT, r)
  {}

  /** With two readers they need not be: the later frame may be pushed first. */
  lemma OvertakingReaders()
    ensures exists steps :: Exec(steps).Some? && !Hollow(steps)
              && var acc := Exec(steps).value.accepted; |acc| == 2 && acc[0].id > acc[1].id
  {
    hide Hollow;
    var a, b := [Receive(0, false, true)], [Receive(0, false, true), Receive(1, false, true)];
    var c, d := b + [Settle(1)], b + [Settle(1), Settle(0)];
    assert a[..0] == [] && b[..1] == a && c[..2] == b && d[..3] == c;
    var p, q := Packet(0, false, true), Packet(1, false, true);
    var s0 := INIT;
    var s1 := s0.(holding := s0.holding[0 := p], arrived := s0.arrived + [p]);
    var s2 := s1.(holding := s1.holding[1 := q], arrived := s1.arrived + [q]);
    var s3 := s2.(holding := s2.holding - {1}, queue := s2.queue + [q], accepted := s2.accepted + [q]);
    assert Exec([]) == Some(s0);
    assert Exec(a) == Some(s1);
    assert Exec(b) == Some(s2);
    assert Exec(c) == Some(s3);
    assert Exec(d).value.accepted == [q, p];
    PopsEmptyExact(d);
  }

  /** A run in which the consumer does pop an empty list. */
  lemma SpuriousWakeupPopsEmpty()
    ensures exists steps :: Exec(steps).Some? && Exec(steps).value.poppedEmpty
  {
    var a, b, c := [Enter], [Enter, Spurious], [Enter, Spurious, Return];
    assert a[..0] == [] && b[..1] == a && c[..2] == b;
    assert Exec([]) == Some(INIT);
    assert Exec(a) == Some(INIT.(consumer := Waiting));
    assert Exec(b) == Some(INIT.(consumer := Woken));
    assert Exec(c).value.poppedEmpty;
  }
}
