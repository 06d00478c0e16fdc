/** The touch report of factory_test_main.cpp: points into a payload, and the
    payload into a frame. */
module TouchReport {
  import opened Bytes
  import T = Transport

  const FAC_ID_TOUCH_PANEL_TEST: byte := 0x26
  const TIMEOUT := 5

  /** A point as the activity reports it: two C ints. */
  datatype Point = Point(x: bv32, y: bv32)

  /** The high and low byte the loop stores for a coordinate. */
  function Hi(v: bv32): byte { ((v & 0xFF00) >> 8) as byte }

  function Lo(v: bv32): byte { (v & 0x00FF) as byte }

  function Pair(v: bv32): seq<byte> { [Hi(v), Lo(v)] }

  /** A big-endian reader of two bytes. */
  function FromBytes(hi: byte, lo: byte): bv32 { ((hi as bv32) << 8) | (lo as bv32) }

  function Encode(points: seq<Point>): seq<byte> {
    if points == [] then []
    else Encode(points[..|points| - 1]) + Pair(points[|points| - 1].x) + Pair(points[|points| - 1].y)
  }

  /** `num` in one byte: a negative one wraps. */
  function Count(num: int): byte { ToByte(num % 256) }

  /** The payload: the number of points, then four bytes each. */
  function Payload(num: int, points: seq<Point>): seq<byte> {
    [Count(num)] + Encode(points)
  }

  /** The points the loop reads: none for a negative number. */
  function Listed(num: int, points: seq<Point>): seq<Point>
    requires num <= |points|
  {
    if num < 0 then [] else points[..num]
  }

  /** A reader of the four-byte groups. */
  function Decode(s: seq<byte>): seq<Point> {
    if |s| < 4 then []
    else [Point(FromBytes(s[0], s[1]), FromBytes(s[2], s[3]))] + Decode(s[4..])
  }

  /** What two bytes keep of a coordinate. */
  function Low16(v: bv32): bv32 { v & 0xFFFF }

  predicate InRange(v: bv32) { v <= 0xFFFF }

  function Low(p: Point): Point { Point(Low16(p.x), Low16(p.y)) }

  function Lows(points: seq<Point>): (r: seq<Point>)
    ensures |r| == |points| && forall i | 0 <= i < |r| :: r[i] == Low(points[i])
  {
    if points == [] then [] else [Low(points[0])] + Lows(points[1..])
  }

  lemma BytesOfCoordinate(v: bv32)
    ensures FromBytes(Hi(v), Lo(v)) == Low16(v)
    ensures Low16(v) == v <==> InRange(v)
  {}

  lemma {:induction false} EncodeCons(p: Point, points: seq<Point>)
    ensures Encode([p] + points) == Pair(p.x) + Pair(p.y) + Encode(points)
    decreases |points|
  {
    hide Hi, Lo;
    var all := [p] + points;
    if points == [] {
      assert all[..0] == [] && all[|all| - 1] == p;
      assert Encode(all) == [] + Pair(p.x) + Pair(p.y);
    } else {
      var n := |points| - 1;
      assert all[..|all| - 1] == [p] + points[..n] && all[|all| - 1] == points[n];
      EncodeCons(p, points[..n]);
    }
  }

  /** Decoding returns the low sixteen bits of every coordinate, in order. */
  lemma {:induction false} DecodeEncode(points: seq<Point>)
    ensures |Encode(points)| == 4 * |points| && Decode(Encode(points)) == Lows(points)
  {
    hide Hi, Lo, FromBytes, Low16;
    if points != [] {
      var p, rest := points[0], points[1..];
      DecodeEncode(rest);
      assert points == [p] + rest;
      EncodeCons(p, rest);
      DecodeGroup(p, Encode(rest));
    }
  }

  lemma DecodeGroup(p: Point, rest: seq<byte>)
    ensures Decode(Pair(p.x) + Pair(p.y) + rest) == [Low(p)] + Decode(rest)
  {
    BytesOfCoordinate(p.x);
    BytesOfCoordinate(p.y);
    hide Hi, Lo, FromBytes, Low16;
    var s := Pair(p.x) + Pair(p.y) + rest;
    assert s[4..] == rest;
  }

  /** The bytes of a point: two for x, then two for y, the high one first. */
  function Four(p: Point): (f: seq<byte>)
    ensures |f| == 4
  {
    [Hi(p.x), Lo(p.x), Hi(p.y), Lo(p.y)]
  }

  lemma EncodeLast(points: seq<Point>)
    requires points != []
    ensures Encode(points) == Encode(points[..|points| - 1]) + Four(points[|points| - 1])
  {
    hide Hi, Lo;
  }

  lemma FourOf(a: seq<byte>, b: seq<byte>, i: nat)
    requires |b| == 4
    ensures i + 4 <= |a| ==> (a + b)[i..i + 4] == a[i..i + 4]
    ensures i == |a| ==> (a + b)[i..i + 4] == b
  {}

  /** Where a point's bytes stand: four after four, in order. */
  lemma {:induction false} EncodeAt(points: seq<Point>, i: nat)
    requires i < |points|
    ensures |Encode(points)| == 4 * |points| && Encode(points)[4 * i..4 * i + 4] == Four(points[i])
  {
    hide *;
    var n := |points| - 1;
    var before, last := points[..n], points[n];
    EncodeLength(points);
    EncodeLength(before);
    EncodeLast(points);
    FourOf(Encode(before), Four(last), 4 * i);
    if i < n { EncodeAt(before, i); }
  }

  /** The two bytes of a coordinate: its quotient by 256, taken mod 256, and its
      remainder. */
  lemma BytesExact(v: bv32)
    ensures (Hi(v) as bv32) == (v / 256) % 256
    ensures (Lo(v) as bv32) == v % 256
  {}

  /** The message that carries a report. */
  function Report(num: int, points: seq<Point>): T.Message
    requires |points| <= 62
  {
    T.GetPacket(T.MSG_HEADER, T.MSG_TYPE_ACK, FAC_ID_TOUCH_PANEL_TEST, ToByte(4 * |points| + 1),
                Some(ReportBuffer(num, points)))
  }

  /** The 250-byte array after the loop. */
  function ReportBuffer(num: int, points: seq<Point>): (b: seq<byte>)
    requires |points| <= 62
    ensures |b| == T.PAYLOAD_SIZE
  {
    EncodeLength(points);
    Payload(num, points) + Zeros(T.PAYLOAD_SIZE - 1 - 4 * |points|)
  }

  /** A report on the wire: an acknowledgement of the touch test, with its length, the
      number of points and the points. */
  lemma ReportLayout(num: int, points: seq<Point>)
    requires |points| <= 62 && (if num < 0 then points == [] else num == |points|)
    ensures var f := T.Frame(Report(num, points));
            && |f| == 4 * |points| + 6 <= T.BUF_SIZE
            && f[0] == 0xC0 && f[1] == 0x10 && f[2] == 0x26 && Int(f[3]) == 4 * |points| + 1
            && Int(f[4]) == num % 256 && (num >= 0 ==> Int(f[4]) == |points|)
            && f[5..|f| - 1] == Encode(points)
  {
    hide T.XorAll, Int, ToByte, Encode, Decode;
    var n, m := |points|, Report(num, points);
    var f := T.Frame(m);
    EncodeLength(points);
    assert T.Payload(m) == Payload(num, points) by {
      assert ReportBuffer(num, points)[..4 * n + 1] == Payload(num, points);
    }
    assert f[5..|f| - 1] == Encode(points);
  }

  /** Reading a report back from its frame, between length byte and checksum: the
      points, exactly when every coordinate fits sixteen bits. */
  lemma ReportRoundTrip(num: int, points: seq<Point>)
    requires |points| <= 62 && (if num < 0 then points == [] else num == |points|)
    ensures var f := T.Frame(Report(num, points));
            && |f| == 4 * |points| + 6
            && (Decode(f[5..|f| - 1]) == points <==> forall p | p in points :: InRange(p.x) && InRange(p.y))
  {
    hide T.Frame, Report, Encode, Decode, InRange, Int;
    ReportLayout(num, points);
    DecodeEncode(points);
    LowsExact(points);
  }

  lemma LowsExact(points: seq<Point>)
    ensures Lows(points) == points <==> forall p | p in points :: InRange(p.x) && InRange(p.y)
  {
    hide Low16, InRange, Lows;
    forall i | 0 <= i < |points|
      ensures Low(points[i]) == points[i] <==> InRange(points[i].x) && InRange(points[i].y)
    {
      BytesOfCoordinate(points[i].x);
      BytesOfCoordinate(points[i].y);
    }
    if Lows(points) == points {
      forall p | p in points ensures InRange(p.x) && InRange(p.y) {
        var i :| 0 <= i < |points| && points[i] == p;
        assert Lows(points)[i] == Low(points[i]);
      }
    }
  }

  lemma EncodeNothing()
    ensures Encode([]) == []
  {}

  lemma EncodeSnoc(points: seq<Point>, i: nat)
    requires i < |points|
    ensures Encode(points[..i + 1]) == Encode(points[..i]) + Pair(points[i].x) + Pair(points[i].y)
  {
    assert points[..i + 1][..i] == points[..i];
  }

  function Zeros(n: nat): (z: seq<byte>)
    ensures |z| == n && forall j | 0 <= j < n :: z[j] == 0
  {
    seq(n, _ => 0)
  }

  lemma EncodeLength(points: seq<Point>)
    ensures |Encode(points)| == 4 * |points|
  {
    DecodeEncode(points);
  }

  lemma FillDone(all: seq<byte>, num: int, points: seq<Point>)
    requires |all| == T.PAYLOAD_SIZE && |points| <= 62
    requires all[0] == Count(num) && all[1..4 * |points| + 1] == Encode(points)
    requires forall j | 4 * |points| < j < |all| :: all[j] == 0
    ensures all == ReportBuffer(num, points)
  {
    hide Count, Encode, Decode, Lows, Zeros;
    EncodeLength(points);
    var n := 4 * |points| + 1;
    assert all[..n] == [all[0]] + all[1..n];
    assert all[n..] == Zeros(|all| - n);
    assert all == all[..n] + all[n..];
  }

  /** Four stores after position `len` append four bytes to what is there. */
  lemma FourMore(before: seq<byte>, after: seq<byte>, len: nat, a: byte, b: byte, c: byte, d: byte)
    requires |before| == |after| && len + 4 < |after|
    requires forall j | 0 <= j <= len :: after[j] == before[j]
    requires after[len + 1] == a && after[len + 2] == b && after[len + 3] == c && after[len + 4] == d
    ensures after[1..len + 5] == before[1..len + 1] + [a, b] + [c, d]
  {
    assert after[1..len + 1] == before[1..len + 1];
    assert after[len + 1..len + 5] == [a, b] + [c, d];
    assert after[1..len + 5] == after[1..len + 1] + after[len + 1..len + 5];
  }

  // ---------------------------------------------------------------- one report per test

  datatype Event = Armed(now: int) | Touched(now: int)

  /** The callback's two variables. */
  datatype Flags = Flags(armed: bool, start: int)

  const IDLE := Flags(false, 0)

  /** A test arms the callback, a touch disarms it. */
  function EventStep(f: Flags, e: Event): Flags {
    match e
    case Armed(now) => Flags(true, now)
    case Touched(_) => f.(armed := false)
  }

  /** Whether a touch at `now` is reported. */
  predicate Due(f: Flags, now: int) { f.armed && now - f.start <= TIMEOUT }

  function After(events: seq<Event>): Flags {
    if events == [] then IDLE else EventStep(After(events[..|events| - 1]), events[|events| - 1])
  }

  /** How many touches are reported. */
  function Reports(events: seq<Event>): nat {
    if events == [] then 0
    else
      var before, last := events[..|events| - 1], events[|events| - 1];
      Reports(before) + (if last.Touched? && Due(After(before), last.now) then 1 else 0)
  }

  function Arms(events: seq<Event>): nat {
    if events == [] then 0
    else Arms(events[..|events| - 1]) + (if events[|events| - 1].Armed? then 1 else 0)
  }

  /** Each armed test yields at most one report, in any order of events. */
  lemma {:induction false} OneReportPerTest(events: seq<Event>)
    ensures Reports(events) + (if After(events).armed then 1 else 0) <= Arms(events)
  {
    if events != [] { OneReportPerTest(events[..|events| - 1]); }
  }

  /** A touch is reported exactly when the last event before it armed a test, at
      most five seconds earlier. */
  lemma ReportedExact(before: seq<Event>, now: int)
    ensures Due(After(before), now) <==>
              before != [] && before[|before| - 1].Armed? && now - before[|before| - 1].now <= 5
  {}

  class TouchCallback {
    var mIsTouchTest: bool
    var mTouchStart: int
    const transport: T.Transport

    ghost function Abs(): Flags
      reads this
    {
      Flags(mIsTouchTest, mTouchStart)
    }

    constructor (transport: T.Transport)
      ensures Abs() == After([]) && this.transport == transport
    {
      mIsTouchTest, mTouchStart := false, 0;
      this.transport := transport;
    }

    /** `touch_panel_test`, once the activity is up. */
    method Arm(now: int)
      modifies this
      ensures Abs() == EventStep(old(Abs()), Armed(now))
    {
      mIsTouchTest, mTouchStart := true, now;
    }

    /** The four stores of one round of the loop. */
    static method PutPoint(pt: array<byte>, len: nat, p: Point) returns (len': nat)
      requires len + 4 < pt.Length
      modifies pt
      ensures len' == len + 4
      ensures pt[1..len' + 1] == old(pt[1..len + 1]) + Pair(p.x) + Pair(p.y)
      ensures forall j | 0 <= j < pt.Length && (j == 0 || j > len') :: pt[j] == old(pt[j])
    {
      hide Hi, Lo;
      ghost var before := pt[..];
      pt[len + 1], pt[len + 2] := Hi(p.x), Lo(p.x);
      pt[len + 3], pt[len + 4] := Hi(p.y), Lo(p.y);
      FourMore(before, pt[..], len, Hi(p.x), Lo(p.x), Hi(p.y), Lo(p.y));
      assert pt[..][1..len + 5] == pt[1..len + 5];
      len' := len + 4;
    }

    /** The loop that fills the payload array. */
    static method Fill(pt: array<byte>, num: int, points: seq<Point>) returns (len: nat)
      requires num <= |points| && num <= 62 && pt.Length == T.PAYLOAD_SIZE
      requires forall j | 0 <= j < pt.Length :: pt[j] == 0
      modifies pt
      ensures var listed := Listed(num, points);
              len == 4 * |listed| && pt[..] == ReportBuffer(num, listed)
    {
      hide Count, Pair, Encode, ReportBuffer;
      len := 0;
      EncodeNothing();
      ghost var listed := Listed(num, points);
      pt[len] := Count(num);
      var i := 0;
      assert listed[..0] == [] && pt[1..1] == Encode([]);
      while i < num
        invariant 0 <= i <= |listed| && len == 4 * i
        invariant pt[0] == Count(num) && pt[1..len + 1] == Encode(listed[..i])
        invariant forall j | len < j < pt.Length :: pt[j] == 0
      {
        EncodeSnoc(listed, i);
        len := PutPoint(pt, len, points[i]);
        i := i + 1;
      }
      assert listed[..i] == listed;
      FillDone(pt[..], num, listed);
    }

    /** Reports the points once per armed test and only in time; a negative number
        of points makes a report of that byte alone. */
    method Touch(num: int, points: seq<Point>, now: int) returns (r: int)
      requires transport.Valid() && transport.port.Valid() && num <= |points| && num <= 62
      modifies this`mIsTouchTest, transport.port`tx, transport.port`failed
      ensures Abs() == EventStep(old(Abs()), Touched(now))
      ensures var due, port := Due(old(Abs()), now), transport.port;
              && r == (if due then 0 else -1)
              && (!due || !transport.stOpen ==> port.tx == old(port.tx) && port.failed == old(port.failed))
              && (due && transport.stOpen ==>
                    var f := T.Frame(Report(num, Listed(num, points)));
                    exists n :: T.Sent(old(port.tx), port.left, port.tx, f, n)
                                && (if n == |f| then port.failed == old(port.failed) else port.failed))
    {
      hide ToByte, Int, T.Frame, T.Sent, ReportBuffer;
      if !mIsTouchTest { return -1; }
      mIsTouchTest := false;
      var mTouchEnd := now;
      if mTouchEnd - mTouchStart > TIMEOUT { return -1; }
      var pt := new byte[T.PAYLOAD_SIZE](_ => 0);
      var len := Fill(pt, num, points);
      var n := transport.ResponseEvent(T.MSG_TYPE_ACK, FAC_ID_TOUCH_PANEL_TEST, Some(pt[..]), ToByte(len + 1));
      r := 0;
    }
  }
}
