/** The serial link of transport.cpp and serial.cpp: frames, chunked I/O, the
    receive queue and the hot-plug poll. */
module Transport {
  import opened Bytes

  const MSG_HEADER: byte := 0xC0
  const MSG_TYPE_CMD: byte := 0x01
  const MSG_TYPE_ACK: byte := 0x10
  const PAYLOAD_SIZE := 250
  const BUF_SIZE := PAYLOAD_SIZE + 5

  /** `struct message`; `data` is its payload pointer. */
  datatype Message = Message(header: byte, kind: byte, cmd: byte, dLen: byte, data: Option<seq<byte>>)

  /** What `getPacket` builds: a payload block exists iff there are bytes to copy. */
  predicate WellFormed(m: Message) {
    match m.data
    case Some(d) => Int(m.dLen) > 0 && |d| == Int(m.dLen)
    case None => true
  }

  function GetPacket(header: byte, kind: byte, cmd: byte, len: byte, data: Option<seq<byte>>): (m: Message)
    requires data.Some? ==> Int(len) <= |data.value|
    ensures WellFormed(m)
  {
    Message(header, kind, cmd, len,
            if Int(len) > 0 && data.Some? then Some(data.value[..Int(len)]) else None)
  }

  // ---------------------------------------------------------------- frames

  function Xor(a: byte, b: byte): byte { a ^ b }

  /** The XOR of all bytes. */
  function XorAll(s: seq<byte>): byte {
    if s == [] then 0 else Xor(s[0], XorAll(s[1..]))
  }

  function Payload(m: Message): seq<byte> {
    if m.data.Some? then m.data.value else []
  }

  /** The bytes under the checksum. */
  function Body(m: Message): seq<byte> {
    [m.header, m.kind, m.cmd, m.dLen] + Payload(m)
  }

  function Frame(m: Message): seq<byte> {
    Body(m) + [XorAll(Body(m))]
  }

  /** The frames the receiver accepts, said without parsing. */
  predicate Accepts(buf: seq<byte>) {
    && 5 <= |buf| <= BUF_SIZE
    && buf[0] == MSG_HEADER && buf[1] == MSG_TYPE_CMD
    && Int(buf[3]) == |buf| - 5
    && XorAll(buf) == 0
  }

  /** The message an accepted buffer carries. */
  function Parsed(buf: seq<byte>): Message
    requires Accepts(buf)
  {
    Message(buf[0], buf[1], buf[2], buf[3], if |buf| > 5 then Some(buf[4..|buf| - 1]) else None)
  }

  lemma XorAssoc(x: byte, y: byte, z: byte)
    ensures Xor(Xor(x, y), z) == Xor(x, Xor(y, z))
  {}

  lemma XorZero(x: byte, y: byte)
    ensures Xor(x, 0) == x && Xor(0, x) == x && Xor(x, x) == 0
    ensures Xor(x, y) == 0 ==> x == y
  {}

  lemma XorReplaceFirst(p: byte, r: byte, b: byte)
    ensures Xor(b, r) == Xor(Xor(Xor(p, r), p), b)
  {}

  lemma XorReplaceLater(p: byte, r: byte, q: byte, b: byte)
    ensures Xor(p, Xor(Xor(r, q), b)) == Xor(Xor(Xor(p, r), q), b)
  {}

  lemma XorTwoChanges(p: byte, b: byte, q: byte, c: byte)
    ensures Xor(Xor(Xor(Xor(0, p), b), q), c) == Xor(Xor(p, b), Xor(q, c))
  {}

  lemma {:induction false} XorAppend(a: seq<byte>, b: seq<byte>)
    ensures XorAll(a + b) == Xor(XorAll(a), XorAll(b))
  {
    hide Xor;
    if a == [] {
      assert a + b == b;
      XorZero(XorAll(b), 0);
    } else {
      XorAppend(a[1..], b);
      assert (a + b)[1..] == a[1..] + b;
      XorAssoc(a[0], XorAll(a[1..]), XorAll(b));
    }
  }

  lemma {:induction false} XorUpdate(s: seq<byte>, i: nat, b: byte)
    requires i < |s|
    ensures XorAll(s[i := b]) == Xor(Xor(XorAll(s), s[i]), b)
  {
    hide Xor;
    if i > 0 {
      assert s[i := b][1..] == s[1..][i - 1 := b];
      XorUpdate(s[1..], i - 1, b);
      XorReplaceLater(s[0], XorAll(s[1..]), s[i], b);
    } else {
      assert s[i := b][1..] == s[1..];
      XorReplaceFirst(s[0], XorAll(s[1..]), b);
    }
  }

  /** Serialising a command and parsing the bytes gives the command back; any
      other type byte is refused. */
  lemma FrameRoundTrip(m: Message)
    requires WellFormed(m) && (Int(m.dLen) > 0 ==> m.data.Some?)
    requires m.header == MSG_HEADER && Int(m.dLen) <= PAYLOAD_SIZE
    ensures Accepts(Frame(m)) <==> m.kind == MSG_TYPE_CMD
    ensures m.kind == MSG_TYPE_CMD ==> Parsed(Frame(m)) == m
  {
    hide Int, XorAll, Xor;
    var f := Frame(m);
    XorLast(f);
    assert f[..|f| - 1] == Body(m);
    XorZero(XorAll(Body(m)), 0);
    assert |f| == Int(m.dLen) + 5;
    assert f[4..|f| - 1] == Payload(m);
  }

  lemma XorLast(s: seq<byte>)
    requires s != []
    ensures XorAll(s) == Xor(XorAll(s[..|s| - 1]), s[|s| - 1])
  {
    hide Xor;
    var last := [s[|s| - 1]];
    assert s == s[..|s| - 1] + last;
    XorAppend(s[..|s| - 1], last);
    assert last[1..] == [];
    XorZero(last[0], 0);
  }

  lemma XorNext(head: seq<byte>, data: seq<byte>, i: nat)
    requires i < |data|
    ensures XorAll(head + data[..i + 1]) == Xor(XorAll(head + data[..i]), data[i])
  {
    hide Xor, XorAll;
    var s := head + data[..i + 1];
    XorLast(s);
    assert s[..|s| - 1] == head + data[..i];
  }

  /** Nothing of an accepted buffer is lost: its message serialises to the same
      bytes, so different buffers carry different messages. */
  lemma ParsedInjective(a: seq<byte>)
    requires Accepts(a)
    ensures Frame(Parsed(a)) == a && WellFormed(Parsed(a)) && Parsed(a).kind == MSG_TYPE_CMD
  {
    hide Int, Xor, XorAll;
    var n := |a|;
    assert Body(Parsed(a)) == a[..n - 1];
    XorLast(a);
    XorZero(XorAll(a[..n - 1]), a[n - 1]);
    assert a == a[..n - 1] + [a[n - 1]];
  }

  /** Replacing any one byte of an accepted frame is detected. */
  lemma DetectsOneByte(s: seq<byte>, i: nat, b: byte)
    requires Accepts(s) && i < |s| && b != s[i]
    ensures !Accepts(s[i := b])
  {
    hide Xor;
    XorUpdate(s, i, b);
    XorZero(s[i], b);
  }

  lemma AcceptsTwo(s: seq<byte>, i: nat, b: byte, j: nat, c: byte)
    requires Accepts(s) && i < |s| && j < |s| && i != j && i !in {0, 1, 3} && j !in {0, 1, 3}
    ensures Accepts(s[i := b][j := c]) <==> XorAll(s[i := b][j := c]) == 0
    ensures XorAll(s) == 0
  {
    hide XorAll;
  }

  /** Replacing two bytes other than header, type and length is missed exactly
      when both change by the same bits. */
  lemma DetectsTwoBytes(s: seq<byte>, i: nat, b: byte, j: nat, c: byte)
    requires Accepts(s) && i < |s| && j < |s| && i != j && i !in {0, 1, 3} && j !in {0, 1, 3}
    ensures Accepts(s[i := b][j := c]) <==> Xor(s[i], b) == Xor(s[j], c)
  {
    hide *;
    AcceptsTwo(s, i, b, j, c);
    XorUpdate(s, i, b);
    XorUpdate(s[i := b], j, c);
    XorTwoChanges(s[i], b, s[j], c);
    var x, y := Xor(s[i], b), Xor(s[j], c);
    XorZero(x, y);
  }

  /** A frame cut short, or followed by anything in the same read, is refused. */
  lemma DetectsLength(s: seq<byte>, n: nat, more: seq<byte>)
    requires Accepts(s) && n < |s| && more != []
    ensures !Accepts(s[..n]) && !Accepts(s + more)
  {
    assert n >= 5 ==> s[..n][3] == s[3];
  }

  // ---------------------------------------------------------------- chunked I/O

  function Min(a: int, b: int): int { if a < b then a else b }

  /** What a driver's write of `data` that returned `n` makes of the output
      `before`, of which `left` bytes had left the machine: everything is appended,
      or the write failed and whatever had not left may be gone. */
  predicate Sent(before: seq<byte>, left: nat, after: seq<byte>, data: seq<byte>, n: int)
    requires left <= |before|
  {
    && 0 <= n <= |data|
    && if n == |data| then after == before + data
       else before[..left] <= after <= before + data[..n]
  }

  /** The tty behind a descriptor. `rx` is what arrives before the next idle gap;
      every call may move any positive number of bytes. `tx` is what was written
      and not discarded, and at least `left` bytes of it have left the machine. */
  class SerialPort {
    var tx: seq<byte>
    var left: nat
    var rx: seq<byte>
    var failed: bool

    ghost predicate Valid()
      reads this
    {
      left <= |tx|
    }

    constructor ()
      ensures Valid() && tx == [] && rx == [] && !failed
    {
      tx, left, rx, failed := [], 0, [], false;
    }

    /** `tcflush(TCOFLUSH)`: written bytes that have not left are discarded. */
    method FlushOutput()
      requires Valid()
      modifies this`tx
      ensures Valid() && old(tx[..left]) <= tx <= old(tx)
    {
      var n: nat :| left <= n <= |tx|;
      tx := tx[..n];
    }

    /** An idle gap: everything written leaves. */
    method Drain()
      modifies this`left
      ensures Valid() && left == |tx|
    {
      left := |tx|;
    }

    /** `write(2)`: a positive count when there is something to write, or an error. */
    method Write(data: array<byte>, off: nat, count: nat) returns (n: int)
      requires off + count <= data.Length
      modifies this`tx, this`failed
      ensures n < 0 ==> failed && tx == old(tx)
      ensures count == 0 ==> n == 0
      ensures n >= 0 ==> n <= count && (n == 0 <==> count == 0)
      ensures n >= 0 ==> failed == old(failed) && tx == old(tx) + data[off..off + n]
    {
      if count == 0 {
        n := 0;
      } else {
        n :| -1 <= n <= count && n != 0;
      }
      if n < 0 {
        failed := true;
      } else {
        tx := tx + data[off..off + n];
      }
    }

    /** `read(2)`: a positive count while bytes are there, else nothing or an error. */
    method Read(data: array<byte>, off: nat, count: nat) returns (n: int)
      requires off + count <= data.Length
      modifies this`rx, data
      ensures count == 0 || old(rx) == [] ==> n <= 0
      ensures count > 0 && old(rx) != [] ==> 0 < n <= count && n <= |old(rx)|
      ensures n <= 0 ==> rx == old(rx)
      ensures 0 < n <= |old(rx)| ==> rx == old(rx)[n..] && forall j | off <= j < off + n :: data[j] == old(rx)[j - off]
      ensures forall j | 0 <= j < data.Length && !(off <= j < off + n) :: data[j] == old(data[j])
    {
      if count == 0 {
        n := 0;
      } else if rx == [] {
        n :| -1 <= n <= 0;
      } else {
        n :| 0 < n && n <= count && n <= |rx|;
        forall j | 0 <= j < n { data[off + j] := rx[j]; }
        rx := rx[n..];
      }
    }
  }

  /** Reading in any chunks collects the bytes up to the gap or the buffer's end. */
  method SerialRead(port: SerialPort, fd: int, data: array<byte>, datalen: int) returns (tollen: int)
    requires datalen <= data.Length
    modifies port`rx, data
    ensures fd < 0 || datalen < 0 ==> tollen == -1 && port.rx == old(port.rx)
    ensures fd >= 0 && datalen >= 0 ==>
              && tollen == Min(datalen, |old(port.rx)|)
              && data[..tollen] == old(port.rx)[..tollen]
              && port.rx == old(port.rx)[tollen..]
  {
    if fd < 0 || datalen < 0 { return -1; }
    tollen := 0;
    ghost var all := port.rx;
    while true
      invariant 0 <= tollen <= datalen && tollen <= |all|
      invariant port.rx == all[tollen..]
      invariant forall j | 0 <= j < tollen :: data[j] == all[j]
      invariant forall j | tollen <= j < data.Length :: data[j] == old(data[j])
      decreases datalen - tollen
    {
      ghost var before := tollen;
      var len := port.Read(data, tollen, datalen - tollen);
      if len <= 0 { break; }
      tollen := tollen + len;
      assert all[before..][len..] == all[tollen..];
      if tollen >= datalen { break; }
    }
  }

  /** Writing in any chunks sends everything, unless a write fails, which also
      discards the output that has not left. */
  method SerialWrite(port: SerialPort, fd: int, data: array<byte>, datalen: int) returns (tollen: int)
    requires port.Valid() && datalen <= data.Length
    modifies port`tx, port`failed
    ensures port.Valid() && (old(port.failed) ==> port.failed)
    ensures fd < 0 || datalen < 0 ==> tollen == -1 && port.tx == old(port.tx) && port.failed == old(port.failed)
    ensures fd >= 0 && datalen >= 0 ==>
              && Sent(old(port.tx), port.left, port.tx, data[..datalen], tollen)
              && (if tollen == datalen then port.failed == old(port.failed) else port.failed)
  {
    if fd < 0 || datalen < 0 { return -1; }
    tollen := 0;
    while true
      invariant 0 <= tollen <= datalen && (tollen == 0 || tollen < datalen)
      invariant port.Valid() && port.failed == old(port.failed)
      invariant port.tx == old(port.tx) + data[..tollen]
      decreases datalen - tollen
    {
      ghost var before := tollen;
      var len := port.Write(data, tollen, datalen - tollen);
      if len < 0 {
        port.FlushOutput();
        assert data[..datalen][..tollen] == data[..tollen];
        assert (old(port.tx) + data[..tollen])[..port.left] == old(port.tx)[..port.left];
        break;
      }
      tollen := tollen + len;
      assert data[..tollen] == data[..before] + data[before..tollen];
      if tollen >= datalen { break; }
    }
  }

  // ---------------------------------------------------------------- the driver

  /** Which device the driver holds: the value the three globals `se_fd`,
      `se_state` and `se_name` stand for. */
  datatype Device = Unmounted | Open(fd: int, name: string)

  class Transport {
    var seFd: int
    var stOpen: bool
    var seName: string
    var qRecvList: seq<Message>
    const port: SerialPort
    /** Serial descriptors obtained from and given back to the system, in order. */
    ghost var obtained: seq<int>
    ghost var released: seq<int>
    /** How many directory descriptors polls have obtained; none is given back. */
    ghost var dirs: nat

    /** Open iff a name is stored iff a positive descriptor is held, and that is
        the only serial descriptor not given back. */
    ghost predicate Valid()
      reads this
    {
      && (stOpen <==> seName != "")
      && (stOpen <==> seFd > 0)
      && obtained == released + (if stOpen then [seFd] else [])
    }

    /** The descriptors the driver holds. */
    ghost function Descriptors(): int
      reads this
    {
      dirs + |obtained| - |released|
    }

    ghost function Dev(): Device
      reads this
    {
      if stOpen then Open(seFd, seName) else Unmounted
    }

    constructor (port: SerialPort)
      ensures Valid() && Dev() == Unmounted && qRecvList == [] && Descriptors() == 0 && this.port == port
    {
      seFd, stOpen, seName, qRecvList := -1, false, "", [];
      this.port := port;
      obtained, released, dirs := [], [], 0;
    }

    method PushToRecvList(msg: Message)
      modifies this`qRecvList
      ensures qRecvList == old(qRecvList) + [msg]
    {
      qRecvList := qRecvList + [msg];
    }

    /** The head of the queue, once the wait is over. */
    method PopFromRecvList() returns (packet: Message)
      requires qRecvList != []
      modifies this`qRecvList
      ensures old(qRecvList) == [packet] + qRecvList
    {
      packet, qRecvList := qRecvList[0], qRecvList[1..];
    }

    static method GetChecksum(msg: Message) returns (checksum: byte)
      requires WellFormed(msg)
      ensures checksum == XorAll(Body(msg))
    {
      hide Xor, XorAll;
      checksum := Xor(Xor(Xor(msg.header, msg.kind), msg.cmd), msg.dLen);
      ghost var head := [msg.header, msg.kind, msg.cmd, msg.dLen];
      HeadXor(msg.header, msg.kind, msg.cmd, msg.dLen);
      assert Body(msg) == head + Payload(msg);
      if Int(msg.dLen) > 0 && msg.data.Some? {
        var data := msg.data.value;
        var i := 0;
        assert head + data[..0] == head;
        while i < Int(msg.dLen)
          invariant 0 <= i <= Int(msg.dLen)
          invariant checksum == XorAll(head + data[..i])
        {
          XorNext(head, data, i);
          checksum := Xor(checksum, data[i]);
          i := i + 1;
        }
        assert data[..i] == data;
      } else {
        assert Body(msg) == head;
      }
    }

    /** The bytes `transport_write` puts into its zeroed 255-byte buffer. */
    static method FillFrame(packet: Message, data: array<byte>, datalen: int)
      requires WellFormed(packet) && data.Length == BUF_SIZE
      requires 0 <= datalen <= PAYLOAD_SIZE && datalen == Int(packet.dLen)
      requires datalen > 0 ==> packet.data.Some?
      modifies data
      ensures data[..datalen + 5] == Frame(packet)
    {
      hide Int, Xor, XorAll;
      data[0], data[1], data[2], data[3] := packet.header, packet.kind, packet.cmd, packet.dLen;
      var ck := GetChecksum(packet);
      ghost var payload := Payload(packet);
      assert |payload| == datalen;
      if datalen > 0 {
        var bytes := packet.data.value;
        forall j | 0 <= j < datalen { data[4 + j] := bytes[j]; }
        data[4 + datalen] := ck;
      } else {
        data[4] := ck;
      }
      FrameAt(data[..], packet);
    }

    /** Writes exactly the frame of a packet of at most 250 bytes, in any chunks. */
    method TransportWrite(packet: Message) returns (r: int)
      requires Valid() && port.Valid() && WellFormed(packet)
      modifies port`tx, port`failed
      ensures port.Valid() && (old(port.failed) ==> port.failed)
      ensures var refused := !stOpen || Int(packet.dLen) > 250 || (Int(packet.dLen) > 0 && packet.data == None);
              if refused then r == -1 && port.tx == old(port.tx) && port.failed == old(port.failed)
              else
                && Sent(old(port.tx), port.left, port.tx, Frame(packet), r)
                && (if r == |Frame(packet)| then port.failed == old(port.failed) else port.failed)
    {
      hide Int, Xor, XorAll, Frame, Sent;
      if !stOpen { return -1; }
      var data := new byte[BUF_SIZE](_ => 0);
      var datalen := Int(packet.dLen);
      if datalen < 0 || datalen > 250 { return -1; }
      if datalen > 0 && packet.data == None { return -1; }
      FillFrame(packet, data, datalen);
      r := SerialWrite(port, seFd, data, datalen + 5);
    }

    /** `responseEvent`: wraps and writes. */
    method ResponseEvent(kind: byte, cmd: byte, data: Option<seq<byte>>, len: byte) returns (r: int)
      requires Valid() && port.Valid() && (data.Some? ==> Int(len) <= |data.value|)
      modifies port`tx, port`failed
      ensures port.Valid() && (old(port.failed) ==> port.failed)
      ensures var m := GetPacket(MSG_HEADER, kind, cmd, len, data);
              if !stOpen || Int(len) > 250 || (Int(len) > 0 && data == None)
              then r == -1 && port.tx == old(port.tx) && port.failed == old(port.failed)
              else
                && Sent(old(port.tx), port.left, port.tx, Frame(m), r)
                && (if r == |Frame(m)| then port.failed == old(port.failed) else port.failed)
    {
      hide Frame, Sent;
      var msg := GetPacket(MSG_HEADER, kind, cmd, len, data);
      r := TransportWrite(msg);
    }

    /** The checks of `read_data` on a complete read. */
    static method CheckPacket(buf: array<byte>, len: int) returns (packet: Option<Message>)
      requires 0 < len <= buf.Length == BUF_SIZE
      ensures packet == if Accepts(buf[..len]) then Some(Parsed(buf[..len])) else None
    {
      hide Int, Xor, XorAll;
      ghost var burst := buf[..len];
      if len < 5 || len > 255 { return None; }
      var header := buf[0];
      if header != MSG_HEADER { return None; }
      var kind := buf[1];
      if kind != MSG_TYPE_CMD { return None; }
      var cmd, length := buf[2], buf[3];
      var pldLen := len - 5;
      if Int(length) != pldLen { return None; }
      var payload := if Int(length) > 0 then Some(buf[4..]) else None;
      var checksum := buf[len - 1];
      var p := GetPacket(header, kind, cmd, length, payload);
      ghost var body := burst[4..len - 1];
      assert body == buf[4..len - 1] == buf[4..][..pldLen];
      assert Payload(p) == body by {
        if pldLen == 0 { assert p.data == None; } else { assert p.data == Some(buf[4..][..pldLen]); }
      }
      assert burst == [header, kind, cmd, length] + body + [checksum];
      var ck := GetChecksum(p);
      AcceptsChecksum(p, checksum);
      packet := if checksum == ck then Some(p) else None;
    }

    /** One read of the reading thread: the burst is queued as a message exactly
        when it is an acceptable frame, and dropped otherwise. */
    method ReadData() returns (r: int)
      requires Valid()
      modifies port`rx, this`qRecvList
      ensures !stOpen ==> r == -1 && port.rx == old(port.rx) && qRecvList == old(qRecvList)
      ensures stOpen ==>
                var burst := Take(old(port.rx), BUF_SIZE);
                && port.rx == old(port.rx)[|burst|..]
                && r == (if burst == [] then -1 else 0)
                && qRecvList == old(qRecvList) + (if Accepts(burst) then [Parsed(burst)] else [])
    {
      hide Int, Accepts, Parsed, XorAll;
      if !stOpen { return -1; }
      var buf := new byte[BUF_SIZE](_ => 0);
      var len := SerialRead(port, seFd, buf, buf.Length);
      assert buf[..len] == Take(old(port.rx), BUF_SIZE);
      if len < 0 { return 0; }
      if len == 0 {
        NothingAccepted();
        return -1;
      }
      var packet := CheckPacket(buf, len);
      if packet.Some? {
        PushToRecvList(packet.value);
      }
      r := 0;
    }

    method OpenDevice(dev: string, fd: int)
      requires Valid() && !stOpen && dev != "" && (fd == -1 || fd > 0)
      modifies this`seFd, this`stOpen, this`seName, this`obtained
      ensures Valid() && Dev() == (if fd > 0 then Open(fd, dev) else Unmounted)
    {
      seFd := fd;
      if seFd > 0 {
        obtained := obtained + [fd];
        stOpen := true;
        seName := dev;
      }
    }

    method CloseDevice()
      requires Valid() && stOpen
      modifies this`seFd, this`stOpen, this`seName, this`released
      ensures Valid() && Dev() == Unmounted
      ensures released == old(released) + [old(seFd)]
    {
      stOpen := false;
      released := released + [seFd];
      seFd := -1;
      seName := "";
    }

    method KnowDevice(dev: string) returns (known: bool)
      requires Valid()
      ensures known <==> Dev().Open? && Dev().name == dev
    {
      if seName == "" { return false; }
      if seName != dev { return false; }
      return true;
    }

    /** One poll: `listing` is what reading the directory gives (None when it
        cannot be opened) and `fd` what `serial_open` gives if it is called. The
        state follows the first listed node, and a serial descriptor is given back
        when another node takes its place; the directory's never is. */
    method FindSerialDevice(listing: Option<seq<string>>, fd: int)
      requires Valid() && (fd == -1 || fd > 0)
      requires listing.Some? ==> forall e | e in listing.value && TTY_PREFIX <= e :: |e| <= 26
      modifies this`seFd, this`stOpen, this`seName, this`obtained, this`released, this`dirs
      ensures Valid()
      ensures Dev() == PollStep(old(Dev()), Poll(listing, fd))
      ensures ListsNone(Poll(listing, fd)) ==> Dev() == Unmounted
      ensures forall name | ListsFirst(Poll(listing, fd), name) ::
                Dev() == (if old(Dev()).Open? && old(Dev()).name == name then old(Dev())
                          else if fd > 0 then Open(fd, name) else Unmounted)
      ensures old(obtained) <= obtained && old(released) <= released
      ensures dirs == old(dirs) + if listing.Some? then 1 else 0
      ensures Descriptors() == old(Descriptors()) + Obtains(old(Dev()), Poll(listing, fd)) - Releases(old(Dev()), Poll(listing, fd))
    {
      hide ListsFirst, ListsNone;
      PollExact(Dev(), Poll(listing, fd));
      if listing == None { return; }
      dirs := dirs + 1;
      var entries := listing.value;
      var exist, devname := false, "";
      var i := 0;
      while i < |entries|
        invariant 0 <= i <= |entries| && !exist
        invariant FirstTty(entries) == FirstTty(entries[i..])
        invariant devname == ""
      {
        if TTY_PREFIX <= entries[i] {
          devname := "/dev/" + entries[i];
          exist := true;
          break;
        }
        i := i + 1;
      }
      assert exist <==> FirstTty(entries).Some?;
      assert exist ==> devname == "/dev/" + FirstTty(entries).value;
      if exist {
        if !stOpen {
          OpenDevice(devname, fd);
        } else {
          var known := KnowDevice(devname);
          if !known {
            CloseDevice();
            OpenDevice(devname, fd);
          }
        }
      } else if stOpen {
        CloseDevice();
      }
    }
  }

  // ---------------------------------------------------------------- end to end

  /** An event to report: type, command and payload. */
  datatype Report = Report(kind: byte, cmd: byte, payload: seq<byte>)

  /** The message of a report, as the receiver should see it. */
  function MessageOf(e: Report): Message
    requires |e.payload| <= PAYLOAD_SIZE
  {
    Message(MSG_HEADER, e.kind, e.cmd, ToByte(|e.payload|), if e.payload == [] then None else Some(e.payload))
  }

  /** The commands among the reports whose write was complete, in order. */
  function Delivered(events: seq<Report>, complete: seq<bool>): seq<Message>
    requires |events| == |complete| && forall e | e in events :: |e.payload| <= PAYLOAD_SIZE
  {
    if events == [] then []
    else
      var n := |events| - 1;
      Delivered(events[..n], complete[..n]) +
      (if complete[n] && events[n].kind == MSG_TYPE_CMD then [MessageOf(events[n])] else [])
  }

  /** One event from one driver to another, the line idle before: in whatever
      chunks it is written and read, the receiver queues exactly the message sent,
      provided the write was complete and the type byte is that of a command;
      otherwise nothing. */
  method Deliver(a: Transport, b: Transport, e: Report) returns (complete: bool)
    requires a.Valid() && a.stOpen && b.Valid() && b.stOpen && a != b && a.port != b.port
    requires a.port.Valid() && |e.payload| <= PAYLOAD_SIZE
    modifies a.port, b.port, b`qRecvList
    ensures a.port.Valid() && (old(a.port.failed) || !complete ==> a.port.failed)
    ensures b.qRecvList == old(b.qRecvList) + (if complete && e.kind == MSG_TYPE_CMD then [MessageOf(e)] else [])
  {
    hide Int, Xor, XorAll, ToByte, Accepts, Frame;
    var len := ToByte(|e.payload|);
    ghost var m := GetPacket(MSG_HEADER, e.kind, e.cmd, len, Some(e.payload));
    assert e.payload[..|e.payload|] == e.payload;
    a.port.Drain();
    var before := a.port.tx;
    var r := a.ResponseEvent(e.kind, e.cmd, Some(e.payload), len);
    SentAfter(before, a.port.tx, Frame(m), r);
    b.port.rx := a.port.tx[|before|..];
    FrameLength(m);
    assert Take(b.port.rx, BUF_SIZE) == b.port.rx;
    ghost var burst := b.port.rx;
    var s := b.ReadData();
    complete := r == |e.payload| + 5;
    FrameRoundTrip(m);
    assert m == MessageOf(e);
    assert burst == Frame(m)[..|burst|];
    if complete {
      assert burst == Frame(m);
    } else {
      FrameCut(m, |burst|);
    }
  }

  lemma FrameLength(m: Message)
    requires WellFormed(m) && (Int(m.dLen) > 0 ==> m.data.Some?)
    ensures |Frame(m)| == |Payload(m)| + 5 && |Payload(m)| == Int(m.dLen)
  {}

  /** When everything before has left, what a write adds is the data, or a proper
      prefix of it. */
  lemma SentAfter(before: seq<byte>, after: seq<byte>, data: seq<byte>, n: int)
    requires Sent(before, |before|, after, data, n)
    ensures before <= after && after[|before|..] <= data
    ensures if n == |data| then after[|before|..] == data else |after[|before|..]| <= n < |data|
  {
    assert before[..|before|] == before;
    if n < |data| {
      var all := before + data[..n];
      assert all[|before|..] == data[..n];
      assert after[|before|..] == all[|before|..|after|];
    }
  }

  /** Many events, with the line idle between them: the receiver queues exactly the
      commands whose write was complete, in order; all of them unless some write
      failed. */
  method DeliverAll(a: Transport, b: Transport, events: seq<Report>) returns (complete: seq<bool>)
    requires a.Valid() && a.stOpen && b.Valid() && b.stOpen && a != b && a.port != b.port
    requires a.port.Valid() && forall e | e in events :: |e.payload| <= PAYLOAD_SIZE
    modifies a.port, b.port, b`qRecvList
    ensures |complete| == |events| && b.qRecvList == old(b.qRecvList) + Delivered(events, complete)
    ensures !a.port.failed ==> forall i | 0 <= i < |complete| :: complete[i]
  {
    hide MessageOf;
    complete := [];
    var i := 0;
    while i < |events|
      invariant 0 <= i == |complete| <= |events| && a.port.Valid()
      invariant b.qRecvList == old(b.qRecvList) + Delivered(events[..i], complete)
      invariant !a.port.failed ==> forall j | 0 <= j < i :: complete[j]
    {
      assert events[i] in events;
      var c := Deliver(a, b, events[i]);
      ghost var before := complete;
      complete := complete + [c];
      assert events[..i + 1][..i] == events[..i] && complete[..i] == before;
      i := i + 1;
    }
    assert events[..i] == events;
  }

  /** A buffer that holds the fields, the payload and the checksum in their places
      starts with the frame. */
  lemma FrameAt(buf: seq<byte>, m: Message)
    requires |Payload(m)| + 5 <= |buf|
    requires buf[0] == m.header && buf[1] == m.kind && buf[2] == m.cmd && buf[3] == m.dLen
    requires forall j | 0 <= j < |Payload(m)| :: buf[4 + j] == Payload(m)[j]
    requires buf[4 + |Payload(m)|] == XorAll(Body(m))
    ensures buf[..|Payload(m)| + 5] == Frame(m)
  {
    hide XorAll;
    var n := |Payload(m)|;
    assert buf[..4] == [m.header, m.kind, m.cmd, m.dLen];
    assert buf[4..4 + n] == Payload(m);
    assert buf[..n + 5] == buf[..4] + buf[4..4 + n] + [buf[4 + n]];
  }

  /** The layout on the wire, byte by byte: header, type, command, length, payload,
      and a checksum that makes the XOR of everything zero. */
  lemma FrameLayout(m: Message)
    requires WellFormed(m) && (Int(m.dLen) > 0 ==> m.data.Some?)
    ensures var f, n := Frame(m), Int(m.dLen);
            && |f| == n + 5 && f[0] == m.header && f[1] == m.kind && f[2] == m.cmd && Int(f[3]) == n
            && (n > 0 ==> f[4..4 + n] == m.data.value)
            && XorAll(f) == 0
    ensures MSG_HEADER == 0xC0 && MSG_TYPE_CMD == 0x01 && MSG_TYPE_ACK == 0x10
  {
    hide XorAll, Xor, Int;
    AcceptsChecksum(m, XorAll(Body(m)));
  }

  /** No proper prefix of a frame is accepted. */
  lemma FrameCut(m: Message, n: nat)
    requires WellFormed(m) && (Int(m.dLen) > 0 ==> m.data.Some?) && n < |Frame(m)|
    ensures !Accepts(Frame(m)[..n])
  {
    hide Int, Xor, XorAll;
    var f := Frame(m)[..n];
    if n >= 5 { assert f[3] == m.dLen; }
  }

  // ---------------------------------------------------------------- hot plug

  const TTY_PREFIX := "ttyUSB"

  /** One poll of /dev: the directory listing, if it can be read, and the result
      of opening the device, if that is attempted. */
  datatype Poll = Poll(listing: Option<seq<string>>, fd: int)

  function FirstTty(entries: seq<string>): Option<string> {
    if entries == [] then None
    else if TTY_PREFIX <= entries[0] then Some(entries[0])
    else FirstTty(entries[1..])
  }

  /** The device path a poll finds first. */
  function Seen(p: Poll): Option<string>
    requires p.listing.Some?
  {
    match FirstTty(p.listing.value)
    case None => None
    case Some(e) => Some("/dev/" + e)
  }

  /** Entry `i` is the first one that begins with "ttyUSB". */
  predicate FirstAt(entries: seq<string>, i: nat) {
    i < |entries| && "ttyUSB" <= entries[i] && forall j | 0 <= j < i :: !("ttyUSB" <= entries[j])
  }

  /** The poll read the directory, and the first ttyUSB entry there is the device's. */
  ghost predicate ListsFirst(p: Poll, name: string) {
    p.listing.Some? && exists i: nat :: FirstAt(p.listing.value, i) && name == "/dev/" + p.listing.value[i]
  }

  /** The poll read the directory, and no entry there begins with "ttyUSB". */
  predicate ListsNone(p: Poll) {
    p.listing.Some? && forall i | 0 <= i < |p.listing.value| :: !("ttyUSB" <= p.listing.value[i])
  }

  /** The node that is taken is the first one listed. */
  lemma {:induction false} FirstTtyExact(entries: seq<string>)
    ensures FirstTty(entries) == None ==> forall i | 0 <= i < |entries| :: !("ttyUSB" <= entries[i])
    ensures FirstTty(entries).Some? ==> exists i: nat :: FirstAt(entries, i) && FirstTty(entries).value == entries[i]
  {
    if entries != [] {
      var rest := entries[1..];
      if "ttyUSB" <= entries[0] {
        assert FirstAt(entries, 0);
      } else {
        FirstTtyExact(rest);
        assert forall i | 1 <= i < |entries| :: entries[i] == rest[i - 1];
        if FirstTty(rest).Some? {
          var i: nat :| FirstAt(rest, i) && FirstTty(rest).value == rest[i];
          assert FirstAt(entries, i + 1);
        }
      }
    }
  }

  lemma FirstAtOnce(entries: seq<string>, i: nat, j: nat)
    requires FirstAt(entries, i) && FirstAt(entries, j)
    ensures i == j
  {}

  /** What a poll saw, in terms of the listing. */
  lemma SeenExact(p: Poll, name: string)
    requires p.listing.Some?
    ensures Seen(p) == Some(name) <==> ListsFirst(p, name)
    ensures Seen(p) == None <==> ListsNone(p)
  {
    var entries := p.listing.value;
    FirstTtyExact(entries);
    if FirstTty(entries).Some? {
      var i: nat :| FirstAt(entries, i) && FirstTty(entries).value == entries[i];
      forall j: nat | FirstAt(entries, j) ensures j == i { FirstAtOnce(entries, i, j); }
    }
  }

  /** An unreadable directory changes nothing; otherwise the device found first
      is kept if it is the one already open, and else opened afresh. */
  function PollStep(d: Device, p: Poll): Device {
    if p.listing == None then d
    else if Seen(p) == None then Unmounted
    else if d.Open? && d.name == Seen(p).value then d
    else if p.fd > 0 then Open(p.fd, Seen(p).value)
    else Unmounted
  }

  function PollRun(polls: seq<Poll>): Device {
    if polls == [] then Unmounted
    else PollStep(PollRun(polls[..|polls| - 1]), polls[|polls| - 1])
  }

  /** Poll `i` opened `d`, and every readable listing since has shown it first. */
  ghost predicate OpenedAt(polls: seq<Poll>, i: nat, d: Device) {
    && i < |polls| && d.Open? && polls[i].listing.Some?
    && d.fd == polls[i].fd > 0 && PollRun(polls[..i]) != d
    && forall j | i <= j < |polls| && polls[j].listing.Some? :: ListsFirst(polls[j], d.name)
  }

  /** One poll: an unreadable directory changes nothing; no ttyUSB entry means
      unmounted; an open device that is listed first stays as it is, descriptor
      included; and else the device listed first is opened, if that succeeds. */
  lemma PollExact(d: Device, p: Poll)
    ensures p.listing == None ==> PollStep(d, p) == d
    ensures ListsNone(p) ==> PollStep(d, p) == Unmounted
    ensures forall name | ListsFirst(p, name) ::
              PollStep(d, p) == (if d.Open? && d.name == name then d
                                 else if p.fd > 0 then Open(p.fd, name)
                                 else Unmounted)
  {
    if p.listing.Some? {
      forall name ensures (Seen(p) == Some(name) <==> ListsFirst(p, name)) && (Seen(p) == None <==> ListsNone(p)) {
        SeenExact(p, name);
      }
      SeenExact(p, "");
    }
  }

  /** Over every run of polls, the open device is the one some poll opened and every
      readable listing since has shown first. And after a poll that could read the
      directory: no ttyUSB entry means unmounted; open means open on the first one;
      a node whose opening succeeds is open; and a device that is still first keeps
      its descriptor. */
  lemma {:induction false} HotPlugHistory(polls: seq<Poll>)
    requires forall p | p in polls :: p.fd == -1 || p.fd > 0
    ensures var d := PollRun(polls);
            d.Open? ==> exists i: nat :: OpenedAt(polls, i, d)
    ensures polls != [] ==>
              var p, before, d := polls[|polls| - 1], PollRun(polls[..|polls| - 1]), PollRun(polls);
              && (ListsNone(p) ==> d == Unmounted)
              && (p.listing.Some? && d.Open? ==> ListsFirst(p, d.name))
              && (p.listing.Some? && !ListsNone(p) && p.fd > 0 ==> d.Open?)
              && (before.Open? && ListsFirst(p, before.name) ==> d == before)
  {
    if polls != [] {
      var n := |polls| - 1;
      var before, last, d := polls[..n], polls[n], PollRun(polls);
      HotPlugHistory(before);
      if last.listing.Some? {
        if d.Open? { SeenExact(last, d.name); }
        if PollRun(before).Open? { SeenExact(last, PollRun(before).name); }
        SeenExact(last, "");
      }
      if d.Open? {
        hide ListsFirst, Seen;
        if d == PollRun(before) {
          var i: nat :| OpenedAt(before, i, d);
          assert before[..i] == polls[..i];
          assert OpenedAt(polls, i, d);
        } else {
          assert polls[..n] == before;
          assert OpenedAt(polls, n, d);
        }
      }
    }
  }

  // ---------------------------------------------------------------- descriptors

  /** Whether a poll tries to open the node it found. */
  predicate Attempts(d: Device, p: Poll) {
    p.listing.Some? && Seen(p).Some? && !(d.Open? && d.name == Seen(p).value)
  }

  /** The descriptors a poll obtains: the directory's, and the device's when it is
      opened. */
  function Obtains(d: Device, p: Poll): nat {
    (if p.listing.Some? then 1 else 0) + (if Attempts(d, p) && p.fd > 0 then 1 else 0)
  }

  /** The descriptors a poll gives back: that of a device no longer found first. */
  function Releases(d: Device, p: Poll): nat {
    if d.Open? && p.listing.Some? && Seen(p) != Some(d.name) then 1 else 0
  }

  /** The descriptors held after a run of polls. */
  function Held(polls: seq<Poll>): int {
    if polls == [] then 0
    else
      var before, last := polls[..|polls| - 1], polls[|polls| - 1];
      Held(before) + Obtains(PollRun(before), last) - Releases(PollRun(before), last)
  }

  /** How many polls could read the directory. */
  function Readable(polls: seq<Poll>): nat {
    if polls == [] then 0
    else Readable(polls[..|polls| - 1]) + (if polls[|polls| - 1].listing.Some? then 1 else 0)
  }

  /** The directory is opened and never closed: besides the device's, one more
      descriptor is held for every poll that could read it. */
  lemma {:induction false} DescriptorsLeak(polls: seq<Poll>)
    ensures Held(polls) == Readable(polls) + (if PollRun(polls).Open? then 1 else 0)
  {
    if polls != [] { DescriptorsLeak(polls[..|polls| - 1]); }
  }

  /** So only the device's descriptor is held exactly when no poll could read the
      directory. */
  lemma NoLeakExact(polls: seq<Poll>)
    ensures Held(polls) == (if PollRun(polls).Open? then 1 else 0) <==> forall p | p in polls :: p.listing == None
  {
    DescriptorsLeak(polls);
    ReadableNone(polls);
  }

  lemma {:induction false} ReadableNone(polls: seq<Poll>)
    ensures Readable(polls) == 0 <==> forall p | p in polls :: p.listing == None
  {
    if polls != [] {
      var before, last := polls[..|polls| - 1], polls[|polls| - 1];
      ReadableNone(before);
      assert polls == before + [last];
    }
  }

  /** The system lets a process hold `limit` descriptors: with that many held, the
      directory cannot be opened. */
  predicate Limited(polls: seq<Poll>, limit: nat) {
    forall k | 0 <= k < |polls| && polls[k].listing.Some? :: Held(polls[..k]) < limit
  }

  /** Under any limit polling comes to an end: no more than `limit` polls ever read
      the directory, and from the one that uses the limit up the device stays what
      it was, whatever is plugged or unplugged. */
  lemma {:induction false} PollingStops(polls: seq<Poll>, limit: nat, k: nat)
    requires Limited(polls, limit) && k <= |polls|
    ensures Readable(polls) <= limit
    ensures Held(polls[..k]) >= limit ==> PollRun(polls) == PollRun(polls[..k]) && Held(polls) == Held(polls[..k])
    decreases |polls|
  {
    if polls != [] {
      var n := |polls| - 1;
      var before := polls[..n];
      forall i | 0 <= i < n && before[i].listing.Some? ensures Held(before[..i]) < limit {
        assert before[..i] == polls[..i] && polls[i] == before[i];
      }
      DescriptorsLeak(before);
      assert polls[n].listing.Some? ==> Held(before) < limit;
      if k == |polls| {
        assert polls[..k] == polls;
        PollingStops(before, limit, 0);
      } else {
        assert before[..k] == polls[..k];
        PollingStops(before, limit, k);
      }
    }
  }

  lemma NothingAccepted()
    ensures !Accepts([])
  {}

  lemma HeadXor(a: byte, b: byte, c: byte, d: byte)
    ensures XorAll([a, b, c, d]) == Xor(Xor(Xor(a, b), c), d)
  {
    hide Xor;
    XorLast([a, b, c, d]);
    XorLast([a, b, c]);
    XorLast([a, b]);
    XorLast([a]);
    assert [a, b, c, d][..3] == [a, b, c] && [a, b, c][..2] == [a, b] && [a, b][..1] == [a] && [a][..0] == [];
    XorZero(a, 0);
  }

  /** A body followed by a byte has XOR zero iff that byte is its checksum. */
  lemma AcceptsChecksum(m: Message, ck: byte)
    ensures XorAll(Body(m) + [ck]) == 0 <==> ck == XorAll(Body(m))
  {
    hide Int, Xor, XorAll;
    XorLast(Body(m) + [ck]);
    assert (Body(m) + [ck])[..|Body(m)|] == Body(m);
    XorZero(XorAll(Body(m)), ck);
  }
}
