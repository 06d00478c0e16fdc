/** Pointer tracking of the touch test view (TouchView.java). */
module TouchView {
  import opened Bytes

  datatype PointF = PointF(x: real, y: real)

  datatype PointerState = PointerState(down: bool, coords: PointF)

  const FRESH := PointerState(false, PointF(0.0, 0.0))

  datatype Action = Down | PointerDown | Up | PointerUp | Cancel | Other(code: int)

  /** A motion event: its masked action, and id and coordinates of the pointer its
      action index names. */
  datatype Event = Event(action: Action, id: nat, coords: PointF)

  /** The fields of the view. */
  datatype View = View(points: seq<PointerState>, num: int, curDown: bool)

  const EMPTY := View([], 0, false)

  function Grow(points: seq<PointerState>, size: nat): (r: seq<PointerState>)
    ensures |r| == if |points| < size then size else |points|
    ensures points <= r && forall i | |points| <= i < |r| :: r[i] == FRESH
    decreases size - |points|
  {
    if |points| < size then Grow(points + [FRESH], size) else points
  }

  function Step(v: View, e: Event): View {
    var points := Grow(v.points, e.id + 1);
    match e.action
    case Other(_) => v
    case Down => View(points[e.id := PointerState(true, e.coords)], 1, true)
    case PointerDown => View(points[e.id := PointerState(true, e.coords)], v.num + 1, v.curDown)
    case PointerUp => View(points[e.id := points[e.id].(down := false)], v.num - 1, v.curDown)
    case _ => View(points[e.id := points[e.id].(down := false)], v.num - 1, false)
  }

  function Run(events: seq<Event>): View {
    if events == [] then EMPTY else Step(Run(events[..|events| - 1]), events[|events| - 1])
  }

  // ---------------------------------------------------------------- coordinates

  predicate Touches(e: Event, id: nat) {
    e.id == id && (e.action == Down || e.action == PointerDown)
  }

  predicate Known(v: View, id: nat) { id < |v.points| }

  /** A pointer that goes down is stored with the event's coordinates, and no event
      changes those of another pointer. */
  lemma CoordsExact(v: View, e: Event, id: nat)
    ensures Touches(e, id) ==> Known(Step(v, e), id) && Step(v, e).points[id].coords == e.coords
    ensures !Touches(e, id) && Known(v, id) ==> Known(Step(v, e), id) && Step(v, e).points[id].coords == v.points[id].coords
    ensures !Touches(e, id) && !Known(v, id) && Known(Step(v, e), id) ==>
              Step(v, e).points[id].coords == PointF(0.0, 0.0)
  {}

  /** Where pointer `id` last went down. */
  function LastCoords(events: seq<Event>, id: nat): Option<PointF> {
    if events == [] then None
    else if Touches(events[|events| - 1], id) then Some(events[|events| - 1].coords)
    else LastCoords(events[..|events| - 1], id)
  }

  /** Over every stream, a pointer's coordinates are those of the last event in which
      it went down. */
  lemma {:induction false} CoordsFromHistory(events: seq<Event>, id: nat)
    ensures LastCoords(events, id).Some? ==> Known(Run(events), id)
    ensures Known(Run(events), id) ==>
              Run(events).points[id].coords ==
                match LastCoords(events, id) case Some(c) => c case None => PointF(0.0, 0.0)
  {
    if events != [] {
      var before, e := events[..|events| - 1], events[|events| - 1];
      CoordsFromHistory(before, id);
      CoordsExact(Run(before), e, id);
      hide Step;
    }
  }

  /** Whether the last event of a first pointer, of a last one or of a cancel is that
      of a first pointer. */
  predicate InGesture(events: seq<Event>) {
    events != [] &&
    match events[|events| - 1].action
    case Down => true
    case Up => false
    case Cancel => false
    case _ => InGesture(events[..|events| - 1])
  }

  lemma {:induction false} CurDownExact(events: seq<Event>)
    ensures Run(events).curDown == InGesture(events)
  {
    if events != [] { CurDownExact(events[..|events| - 1]); }
  }

  // ---------------------------------------------------------------- agreement

  /** The coordinates of the pointers that are down, in id order. */
  function DownCoords(points: seq<PointerState>): seq<PointF> {
    if points == [] then []
    else
      var last := points[|points| - 1];
      DownCoords(points[..|points| - 1]) + (if last.down then [last.coords] else [])
  }

  /** The flagged pointers in ascending order. */
  function DownIds(points: seq<PointerState>): seq<nat> {
    if points == [] then []
    else
      var n := |points| - 1;
      DownIds(points[..n]) + (if points[n].down then [n] else [])
  }

  /** Ascending, and all of these. */
  ghost predicate AscendingAll(ids: seq<nat>, points: seq<PointerState>) {
    && (forall i, j | 0 <= i < j < |ids| :: ids[i] < ids[j])
    && (forall id | id in ids :: id < |points| && points[id].down)
    && (forall id: nat | id < |points| && points[id].down :: id in ids)
  }

  /** The coordinates listed are those of the flagged pointers, each once, in
      ascending order of their numbers. */
  lemma {:induction false} DownCoordsExact(points: seq<PointerState>)
    ensures AscendingAll(DownIds(points), points)
    ensures |DownCoords(points)| == |DownIds(points)|
    ensures forall k | 0 <= k < |DownIds(points)| ::
              DownIds(points)[k] < |points| && DownCoords(points)[k] == points[DownIds(points)[k]].coords
  {
    if points != [] {
      var n := |points| - 1;
      var before := points[..n];
      DownCoordsExact(before);
      var ids, all := DownIds(before), DownIds(points);
      assert forall id | 0 <= id < n :: before[id] == points[id];
      assert all == ids + (if points[n].down then [n] else []);
      forall id: nat | id < |points| && points[id].down ensures id in all {
        if id < n { assert before[id].down && id in ids; }
      }
      forall id | id in all ensures id < |points| && points[id].down {
        if id != n { assert id in ids && before[id].down; }
      }
      forall i, j | 0 <= i < j < |all| ensures all[i] < all[j] {
        if j == |ids| { assert all[i] == ids[i] && ids[i] in ids; }
      }
      forall k | 0 <= k < |all| ensures all[k] < |points| && DownCoords(points)[k] == points[all[k]].coords {
        if k < |ids| { assert all[k] == ids[k] && before[ids[k]] == points[ids[k]]; }
      }
    }
  }

  predicate IsDown(v: View, id: nat) { id < |v.points| && v.points[id].down }

  /** The counter is the number of flags set. */
  predicate Agrees(v: View) { v.num == |DownCoords(v.points)| }

  lemma {:induction false} DownGrow(points: seq<PointerState>, size: nat)
    ensures DownCoords(Grow(points, size)) == DownCoords(points)
    decreases size - |points|
  {
    if |points| < size {
      assert (points + [FRESH])[..|points|] == points;
      DownGrow(points + [FRESH], size);
    }
  }

  lemma {:induction false} DownUpdate(points: seq<PointerState>, id: nat, p: PointerState)
    requires id < |points|
    ensures |DownCoords(points[id := p])| + (if points[id].down then 1 else 0)
         == |DownCoords(points)| + (if p.down then 1 else 0)
  {
    var n := |points| - 1;
    if id < n {
      assert points[id := p][..n] == points[..n][id := p];
      DownUpdate(points[..n], id, p);
    } else {
      assert points[id := p][..n] == points[..n];
    }
  }

  lemma {:induction false} DownNone(points: seq<PointerState>)
    ensures |DownCoords(points)| == 0 <==> forall i | 0 <= i < |points| :: !points[i].down
  {
    if points != [] { DownNone(points[..|points| - 1]); }
  }

  /** What an event must meet for the counter to stay right: a first pointer finds
      no other flag set, a further one finds its own clear, and one that leaves
      finds its own set. */
  predicate Fitting(v: View, e: Event) {
    match e.action
    case Other(_) => true
    case Down => forall i | 0 <= i < |v.points| && i != e.id :: !v.points[i].down
    case PointerDown => !IsDown(v, e.id)
    case _ => IsDown(v, e.id)
  }

  /** From agreement, an event keeps it exactly when it fits. */
  lemma StepExact(v: View, e: Event)
    requires Agrees(v)
    ensures Agrees(Step(v, e)) <==> Fitting(v, e)
  {
    var points := Grow(v.points, e.id + 1);
    DownGrow(v.points, e.id + 1);
    match e.action
    case Other(_) =>
    case Down => DownExact(v, e);
    case PointerDown => DownUpdate(points, e.id, PointerState(true, e.coords));
    case _ => DownUpdate(points, e.id, points[e.id].(down := false));
  }

  lemma DownExact(v: View, e: Event)
    requires e.action == Down
    ensures Agrees(Step(v, e)) <==> Fitting(v, e)
  {
    hide DownCoords;
    var points := Grow(v.points, e.id + 1);
    var clear := points[e.id := FRESH];
    DownUpdate(points, e.id, PointerState(true, e.coords));
    DownUpdate(points, e.id, FRESH);
    DownNone(clear);
    assert Agrees(Step(v, e)) <==> |DownCoords(clear)| == 0;
    if Fitting(v, e) {
      assert forall i | 0 <= i < |clear| :: !clear[i].down;
    } else {
      var i :| 0 <= i < |v.points| && i != e.id && v.points[i].down;
      assert clear[i].down;
    }
  }

  /** The counter agrees with the flags after every event of the stream. */
  predicate AgreesThroughout(events: seq<Event>) {
    Agrees(Run(events)) && (events == [] || AgreesThroughout(events[..|events| - 1]))
  }

  /** Every event of the stream fits the flags it finds. */
  predicate FitsThroughout(events: seq<Event>) {
    events == [] ||
    var before := events[..|events| - 1];
    FitsThroughout(before) && Fitting(Run(before), events[|events| - 1])
  }

  /** Over a whole stream the counter agrees with the flags all along exactly when
      every event fits the flags it finds. */
  lemma {:induction false} StreamExact(events: seq<Event>)
    ensures AgreesThroughout(events) <==> FitsThroughout(events)
  {
    hide Agrees, Fitting, Step;
    if events == [] {
      EmptyAgrees();
    } else {
      var before, last := events[..|events| - 1], events[|events| - 1];
      StreamExact(before);
      if AgreesThroughout(before) { StepExact(Run(before), last); }
    }
  }

  lemma EmptyAgrees()
    ensures Agrees(EMPTY)
  {}

  // ---------------------------------------------------------------- gestures

  /** The pointers that are really on the screen: lifting the last one and a
      cancelled gesture both leave none. */
  function OnScreen(events: seq<Event>): set<nat> {
    if events == [] then {}
    else
      var before := OnScreen(events[..|events| - 1]);
      var e := events[|events| - 1];
      match e.action
      case Other(_) => before
      case Down => {e.id}
      case PointerDown => before + {e.id}
      case PointerUp => before - {e.id}
      case _ => {}
  }

  /** A gesture stream; a cancel may come with several pointers on the screen and
      names one of them. */
  predicate Gestures(events: seq<Event>) {
    events == [] ||
    var before := events[..|events| - 1];
    var e := events[|events| - 1];
    Gestures(before) &&
    match e.action
    case Other(_) => true
    case Down => OnScreen(before) == {}
    case PointerDown => OnScreen(before) != {} && e.id !in OnScreen(before)
    case PointerUp => e.id in OnScreen(before) && OnScreen(before) != {e.id}
    case Up => OnScreen(before) == {e.id}
    case Cancel => e.id in OnScreen(before)
  }

  /** The pointers a cancelled gesture left behind: all that were on the screen but
      the one the cancel named. The next first pointer ends the matter. */
  function Leftover(events: seq<Event>): set<nat> {
    if events == [] then {}
    else
      var before := events[..|events| - 1];
      var e := events[|events| - 1];
      match e.action
      case Cancel => OnScreen(before) - {e.id}
      case Down => {}
      case _ => Leftover(before)
  }

  /** Every first pointer is, of those left behind, the only one. */
  predicate NoneLeft(events: seq<Event>) {
    forall k | 0 <= k < |events| && events[k].action == Down :: Leftover(events[..k]) <= {events[k].id}
  }

  lemma NoneLeftSnoc(before: seq<Event>, e: Event)
    ensures NoneLeft(before + [e]) <==> NoneLeft(before) && (e.action == Down ==> Leftover(before) <= {e.id})
  {
    var events := before + [e];
    assert events[..|before|] == before && events[|before|] == e;
    assert forall k | 0 <= k < |before| :: events[..k] == before[..k] && events[k] == before[k];
  }

  /** The flags are the pointers on the screen and those left behind. */
  ghost predicate Flagged(events: seq<Event>) {
    forall id: nat :: IsDown(Run(events), id) <==> id in OnScreen(events) || id in Leftover(events)
  }

  /** Pointers are left behind only while none is on the screen. */
  lemma {:induction false} LeftoverAlone(events: seq<Event>)
    requires Gestures(events)
    ensures Leftover(events) == {} || OnScreen(events) == {}
  {
    if events != [] { LeftoverAlone(events[..|events| - 1]); }
  }

  /** An event fits the flags exactly when it is not a first pointer, or is the
      only pointer left behind. */
  lemma FittingExact(before: seq<Event>, e: Event)
    requires Gestures(before + [e]) && Flagged(before)
    ensures Fitting(Run(before), e) <==> (e.action == Down ==> Leftover(before) <= {e.id})
  {
    var events, v := before + [e], Run(before);
    assert events[..|before|] == before && events[|before|] == e;
    if e.action == Down {
      assert forall i: nat :: IsDown(v, i) <==> i in Leftover(before);
      DownFits(v, e);
    } else {
      LeftoverAlone(before);
    }
  }

  lemma DownFits(v: View, e: Event)
    requires e.action == Down
    ensures Fitting(v, e) <==> forall i: nat | IsDown(v, i) :: i == e.id
  {
    if forall i: nat | IsDown(v, i) :: i == e.id {
      forall i | 0 <= i < |v.points| && i != e.id ensures !v.points[i].down {
        assert !IsDown(v, i);
      }
    }
  }

  lemma FlaggedStep(before: seq<Event>, e: Event)
    requires Gestures(before + [e]) && Flagged(before) && Fitting(Run(before), e)
    ensures Flagged(before + [e])
  {
    var events, v := before + [e], Run(before);
    assert events[..|before|] == before && events[|before|] == e;
    LeftoverAlone(before);
    FlagsAfter(v, e);
    if e.action == Down {
      assert forall i: nat :: IsDown(v, i) ==> i == e.id;
    }
  }

  lemma {:induction false} FitsIffNoneLeft(events: seq<Event>)
    requires Gestures(events)
    ensures FitsThroughout(events) <==> NoneLeft(events)
    ensures NoneLeft(events) ==> Flagged(events)
  {
    hide Fitting, Flagged, NoneLeft, Run, Leftover, OnScreen;
    if events == [] {
      NothingFlagged();
    } else {
      var before, e := events[..|events| - 1], events[|events| - 1];
      assert events == before + [e];
      FitsIffNoneLeft(before);
      NoneLeftSnoc(before, e);
      if NoneLeft(before) {
        FittingExact(before, e);
        if Fitting(Run(before), e) { FlaggedStep(before, e); }
      }
    }
  }

  lemma NothingFlagged()
    ensures Flagged([]) && NoneLeft([])
  {}

  /** Over every gesture stream, the counter agrees with the flags all along
      exactly when no gesture starts while a cancelled one has left another
      pointer behind. */
  lemma AgreesExact(events: seq<Event>)
    requires Gestures(events)
    ensures AgreesThroughout(events) <==> NoneLeft(events)
  {
    StreamExact(events);
    FitsIffNoneLeft(events);
  }

  /** And the flags are then the pointers on the screen and those left behind, so
      the array has a slot for each of them. */
  lemma FlagsAreOnScreen(events: seq<Event>)
    requires Gestures(events) && NoneLeft(events)
    ensures Agrees(Run(events)) && Flagged(events)
    ensures Leftover(events) == {} || OnScreen(events) == {}
  {
    AgreesExact(events);
    FitsIffNoneLeft(events);
    LeftoverAlone(events);
  }

  /** Every pointer on the screen, or left behind, has gone down. */
  lemma {:induction false} ShownWentDown(events: seq<Event>, id: nat)
    requires id in OnScreen(events) || id in Leftover(events)
    ensures LastCoords(events, id).Some?
  {
    var before, e := events[..|events| - 1], events[|events| - 1];
    if !Touches(e, id) { ShownWentDown(before, id); }
  }

  /** What the points are then, in terms of the stream alone: in ascending order of
      the pointers on the screen or left behind, where each of them last went down. */
  lemma TouchPointsExact(events: seq<Event>)
    requires Gestures(events) && NoneLeft(events)
    ensures var ids, coords := DownIds(Run(events).points), DownCoords(Run(events).points);
            && Run(events).num == |coords| == |ids|
            && (forall i, j | 0 <= i < j < |ids| :: ids[i] < ids[j])
            && (forall id: nat :: id in ids <==> id in OnScreen(events) || id in Leftover(events))
            && (forall k | 0 <= k < |ids| :: LastCoords(events, ids[k]) == Some(coords[k]))
  {
    FlagsAreOnScreen(events);
    var v := Run(events);
    DownCoordsExact(v.points);
    var ids, coords := DownIds(v.points), DownCoords(v.points);
    hide Run, DownIds, DownCoords, OnScreen, Leftover, LastCoords, Gestures, NoneLeft;
    forall id: nat ensures id in ids <==> id in OnScreen(events) || id in Leftover(events) {
      assert IsDown(v, id) <==> id in ids;
    }
    forall k | 0 <= k < |ids| ensures LastCoords(events, ids[k]) == Some(coords[k]) {
      assert ids[k] in ids;
      ShownWentDown(events, ids[k]);
      CoordsFromHistory(events, ids[k]);
      assert Known(v, ids[k]);
    }
  }

  /** No gesture is cancelled with more than one pointer on the screen. */
  predicate SingleCancels(events: seq<Event>) {
    events == [] ||
    var before := events[..|events| - 1];
    var e := events[|events| - 1];
    SingleCancels(before) && (e.action == Cancel ==> OnScreen(before) == {e.id})
  }

  /** Without such cancels nothing is left behind, so the counter always agrees. */
  lemma {:induction false} SingleCancelsLeaveNone(events: seq<Event>)
    requires SingleCancels(events)
    ensures Leftover(events) == {} && NoneLeft(events)
  {
    hide OnScreen;
    if events != [] {
      var before, e := events[..|events| - 1], events[|events| - 1];
      SingleCancelsLeaveNone(before);
      assert events == before + [e];
      NoneLeftSnoc(before, e);
    }
  }

  /** Only the flag of the event's own pointer changes. */
  lemma FlagsAfter(v: View, e: Event)
    ensures forall id: nat :: IsDown(Step(v, e), id) <==>
              if id == e.id && !e.action.Other? then e.action == Down || e.action == PointerDown else IsDown(v, id)
  {}

  /** A cancelled two-finger gesture leaves a flag set behind: the next touch finds
      it, and the counter falls short of the flags. */
  lemma CancelLeavesFlag(c: PointF)
    ensures var events := [Event(Down, 0, c), Event(PointerDown, 1, c), Event(Cancel, 0, c), Event(Down, 0, c)];
            Gestures(events) && Run(events).num == 1 && |DownCoords(Run(events).points)| == 2
  {
    var a, b, x, d := Event(Down, 0, c), Event(PointerDown, 1, c), Event(Cancel, 0, c), Event(Down, 0, c);
    var e1, e2, e3, e4 := [a], [a, b], [a, b, x], [a, b, x, d];
    assert e1[..0] == [] && e2[..1] == e1 && e3[..2] == e2 && e4[..3] == e3;
    var on, off := PointerState(true, c), PointerState(false, c);
    assert Run([]) == EMPTY;
    assert Grow([], 1) == [FRESH];
    assert Run(e1) == View([on], 1, true);
    assert Grow([on], 2) == [on, FRESH];
    assert Run(e2) == View([on, on], 2, true);
    assert Run(e3) == View([off, on], 1, false);
    assert Run(e4) == View([on, on], 1, true);
    assert [on, on][..1] == [on] && [on][..0] == [];
    assert DownCoords([on]) == [c];
    assert DownCoords([on, on]) == [c] + [c];
    assert OnScreen([]) == {} && OnScreen(e1) == {0} && OnScreen(e2) == {0, 1} && OnScreen(e3) == {};
    assert Gestures([]) && Gestures(e1) && Gestures(e2) && Gestures(e3);
  }

  // ---------------------------------------------------------------- the class

  /** How getTouchPoints ends: with an array, some slots of which may be null, or
      with one of the two array exceptions. */
  datatype Outcome =
    | Points(slots: seq<Option<PointF>>)
    | NegativeArraySize
    | ArrayIndexOutOfBounds

  class TouchView {
    var mPoints: seq<PointerState>
    var mCurNumPoints: int
    var mCurDown: bool

    ghost function Abs(): View
      reads this
    {
      View(mPoints, mCurNumPoints, mCurDown)
    }

    constructor ()
      ensures Abs() == EMPTY
    {
      mPoints, mCurNumPoints, mCurDown := [], 0, false;
    }

    method PointEventChange(event: Event)
      modifies this
      ensures Abs() == Step(old(Abs()), event)
      ensures event.action == Down || event.action == PointerDown ==>
                event.id < |mPoints| && mPoints[event.id] == PointerState(true, event.coords)
    {
      var action := event.action;
      if action != Down && action != PointerDown && action != Up && action != PointerUp && action != Cancel {
        return;
      }
      var id := event.id;
      ghost var grown := Grow(mPoints, id + 1);
      var nPt := |mPoints|;
      while nPt < id + 1
        invariant nPt == |mPoints| && Grow(mPoints, id + 1) == grown
        invariant mCurNumPoints == old(mCurNumPoints) && mCurDown == old(mCurDown)
      {
        mPoints := mPoints + [FRESH];
        nPt := nPt + 1;
      }
      if action == Down || action == PointerDown {
        if action == Down {
          mCurDown := true;
          mCurNumPoints := 0;
        }
        mCurNumPoints := mCurNumPoints + 1;
        mPoints := mPoints[id := PointerState(true, event.coords)];
      } else {
        if action == Up || action == Cancel {
          mCurDown := false;
        }
        mCurNumPoints := mCurNumPoints - 1;
        mPoints := mPoints[id := mPoints[id].(down := false)];
      }
    }

    /** Fills every slot, in id order, exactly when the counter agrees with the
        flags; a counter too small overruns the array, one too large leaves nulls. */
    method GetTouchPoints() returns (r: Outcome)
      ensures r == NegativeArraySize <==> mCurNumPoints < 0
      ensures r == ArrayIndexOutOfBounds <==> 0 <= mCurNumPoints < |DownCoords(mPoints)|
      ensures r.Points? ==>
                var coords := DownCoords(mPoints);
                && |r.slots| == mCurNumPoints
                && forall i | 0 <= i < |r.slots| :: r.slots[i] == if i < |coords| then Some(coords[i]) else None
      ensures Agrees(Abs()) <==> r.Points? && None !in r.slots
    {
      var num := mCurNumPoints;
      if num < 0 { return NegativeArraySize; }
      var pts := new Option<PointF>[num](_ => None);
      var index := 0;
      var i := 0;
      ghost var all := DownCoords(mPoints);
      assert mPoints[..|mPoints|] == mPoints;
      while i < |mPoints|
        invariant 0 <= i <= |mPoints| && index == |DownCoords(mPoints[..i])| <= num
        invariant DownCoords(mPoints[..i]) <= all
        invariant forall j | 0 <= j < num :: pts[j] == if j < index then Some(all[j]) else None
      {
        DownPrefix(mPoints, i + 1);
        assert mPoints[..i + 1][..i] == mPoints[..i];
        if mPoints[i].down {
          if index >= num { return ArrayIndexOutOfBounds; }
          pts[index] := Some(mPoints[i].coords);
          index := index + 1;
        }
        i := i + 1;
      }
      r := Points(pts[..]);
      if index < num { assert pts[..][index] == None; }
    }
  }

  lemma {:induction false} DownPrefix(points: seq<PointerState>, k: nat)
    requires k <= |points|
    ensures DownCoords(points[..k]) <= DownCoords(points)
    decreases |points|
  {
    if k < |points| {
      var n := |points| - 1;
      assert points[..n][..k] == points[..k];
      DownPrefix(points[..n], k);
    } else {
      assert points[..k] == points;
    }
  }
}
