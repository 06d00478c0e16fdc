/** The supplicant's network table as lib/wifi/RWifiInfo.cpp reads it. */
module WifiTable {
  import opened Bytes
  import opened Decimal

  const NUL := '\0'

  // ---------------------------------------------------------------- keyed vector

  /** `android::KeyedVector`: entries in key order, one per key. */
  datatype Entry<V> = Entry(key: int, value: V)

  predicate Sorted<V>(kv: seq<Entry<V>>) {
    forall i, j | 0 <= i < j < |kv| :: kv[i].key < kv[j].key
  }

  function ToMap<V>(kv: seq<Entry<V>>): map<int, V> {
    if kv == [] then map[] else ToMap(kv[1..])[kv[0].key := kv[0].value]
  }

  /** `add`: replaces the value of a key already there. */
  function Add<V>(kv: seq<Entry<V>>, k: int, v: V): (r: seq<Entry<V>>)
    ensures forall e | e in r :: e == Entry(k, v) || e in kv
    ensures Sorted(kv) ==> Sorted(r)
    ensures ToMap(r) == ToMap(kv)[k := v]
  {
    if kv == [] then [Entry(k, v)]
    else if k < kv[0].key then [Entry(k, v)] + kv
    else if k == kv[0].key then [Entry(k, v)] + kv[1..]
    else [kv[0]] + Add(kv[1..], k, v)
  }

  lemma {:induction false} MapOfSorted<V>(kv: seq<Entry<V>>)
    requires Sorted(kv)
    ensures forall k :: k in ToMap(kv) <==> exists i :: 0 <= i < |kv| && kv[i].key == k
    ensures forall i | 0 <= i < |kv| :: kv[i].key in ToMap(kv) && ToMap(kv)[kv[i].key] == kv[i].value
  {
    if kv != [] {
      var rest := kv[1..];
      MapOfSorted(rest);
      assert forall i | 1 <= i < |kv| :: kv[i] == rest[i - 1];
      forall k | k in ToMap(kv) ensures exists i :: 0 <= i < |kv| && kv[i].key == k {
        if k == kv[0].key {
          assert kv[0].key == k;
        } else {
          var i :| 0 <= i < |rest| && rest[i].key == k;
          assert kv[i + 1].key == k;
        }
      }
    }
  }

  // ---------------------------------------------------------------- splitting

  /** What precedes the first `c`, and what follows it. */
  function UpTo(s: string, c: char): (r: string)
    ensures |r| <= |s| && r == s[..|r|] && c !in r
    ensures |r| < |s| ==> s[|r|] == c
  {
    if s == "" || s[0] == c then "" else [s[0]] + UpTo(s[1..], c)
  }

  function After(s: string, c: char): (r: string)
    ensures s != "" ==> |r| < |s|
  {
    var n := |UpTo(s, c)|;
    if n < |s| then s[n + 1..] else ""
  }

  lemma {:induction false} SplitAt(a: string, c: char, b: string)
    requires c !in a
    ensures UpTo(a + [c] + b, c) == a && After(a + [c] + b, c) == b
  {
    var s := a + [c] + b;
    if a != "" {
      assert s[1..] == a[1..] + [c] + b;
      assert forall i | 0 <= i < |a| - 1 :: a[1..][i] == a[i + 1];
      SplitAt(a[1..], c, b);
      assert s == [a[0]] + (a[1..] + [c] + b);
    }
    assert s[|a| + 1..] == b;
  }

  lemma {:induction false} SplitNone(a: string, c: char)
    requires c !in a
    ensures UpTo(a, c) == a && After(a, c) == ""
  {
    if a != "" {
      assert forall i | 0 <= i < |a| - 1 :: a[1..][i] == a[i + 1];
      SplitNone(a[1..], c);
    }
  }

  /** The fields the tokeniser finds: split at tabs, a last empty one dropped. */
  function Fields(line: string): seq<string>
    decreases |line|
  {
    if line == "" then [] else [UpTo(line, '\t')] + Fields(After(line, '\t'))
  }

  // ---------------------------------------------------------------- rows

  datatype Status = Current | Disabled | Enabled

  datatype Config = Config(netId: int, status: Status, ssid: string)

  /** `strstr`. */
  predicate Contains(s: string, part: string) {
    part <= s || (s != "" && Contains(s[1..], part))
  }

  /** CURRENT takes precedence over DISABLED, and that over ENABLED. */
  function StatusOf(flags: string): Status {
    if Contains(flags, "[CURRENT]") then Current
    else if Contains(flags, "[DISABLED]") then Disabled
    else Enabled
  }

  function ConfigOf(fields: seq<string>): Config
    requires |fields| >= 2
  {
    Config(Atoi(fields[0]), if |fields| > 3 then StatusOf(fields[3]) else Enabled, fields[1])
  }

  /** The lines the fixed array of four field pointers, two of them read
      unconditionally, can take. */
  predicate LineOk(line: string) { 2 <= |Fields(line)| <= 4 }

  predicate LinesOk(body: string)
    decreases |body|
  {
    body == "" || (LineOk(UpTo(body, '\n')) && LinesOk(After(body, '\n')))
  }

  /** The table after the lines of `body` have been added to `kv`. */
  function Load(kv: seq<Entry<Config>>, body: string): (r: seq<Entry<Config>>)
    requires LinesOk(body)
    ensures Sorted(kv) ==> Sorted(r)
    decreases |body|
  {
    if body == "" then kv
    else
      var c := ConfigOf(Fields(UpTo(body, '\n')));
      Load(Add(kv, c.netId, c), After(body, '\n'))
  }

  /** `part` stands somewhere in `s`. */
  predicate Occurs(part: string, s: string) {
    exists i :: 0 <= i <= |s| && part <= s[i..]
  }

  lemma {:induction false} ContainsExact(s: string, part: string)
    ensures Contains(s, part) <==> Occurs(part, s)
  {
    if part <= s {
      assert s[0..] == s;
    } else if s != "" {
      ContainsExact(s[1..], part);
      if Occurs(part, s[1..]) {
        var i :| 0 <= i <= |s[1..]| && part <= s[1..][i..];
        assert s[1..][i..] == s[i + 1..];
      }
      if Occurs(part, s) {
        var i :| 0 <= i <= |s| && part <= s[i..];
        assert s[0..] == s;
        assert i > 0 && s[1..][i - 1..] == s[i..];
      }
    } else {
      assert forall i | 0 <= i <= |s| :: s[i..] == s;
    }
  }

  /** The status flags stand for, by what stands in them. */
  ghost function FlagStatus(flags: string): Status {
    if Occurs("[CURRENT]", flags) then Current
    else if Occurs("[DISABLED]", flags) then Disabled
    else Enabled
  }

  /** CURRENT where that flag stands anywhere, DISABLED where that one does and the
      other does not, ENABLED where neither does. */
  lemma StatusExact(flags: string)
    ensures StatusOf(flags) == FlagStatus(flags)
    ensures StatusOf(flags) == Current <==> Occurs("[CURRENT]", flags)
    ensures StatusOf(flags) == Disabled <==> Occurs("[DISABLED]", flags) && !Occurs("[CURRENT]", flags)
    ensures StatusOf(flags) == Enabled <==> !Occurs("[CURRENT]", flags) && !Occurs("[DISABLED]", flags)
  {
    hide Contains, Occurs;
    ContainsExact(flags, "[CURRENT]");
    ContainsExact(flags, "[DISABLED]");
  }

  /** The columns of a line: number, SSID, an address that is not kept, and flags; a
      line that ends before the flags stands for an enabled network. */
  lemma ColumnsExact(fields: seq<string>)
    requires 2 <= |fields| <= 4
    ensures ConfigOf(fields) ==
              Config(Atoi(fields[0]), if |fields| == 4 then FlagStatus(fields[3]) else Enabled, fields[1])
  {
    hide StatusOf, FlagStatus;
    if |fields| == 4 { StatusExact(fields[3]); }
  }

  // ---------------------------------------------------------------- round trip

  /** A row of LIST_NETWORKS. */
  datatype Row = Row(id: nat, ssid: string, bssid: string, flags: string)

  predicate Clean(s: string) { '\t' !in s && '\n' !in s && NUL !in s }

  predicate RowOk(r: Row) { Clean(r.ssid) && Clean(r.bssid) && Clean(r.flags) }

  function PrintRow(r: Row): string {
    Itoa(r.id) + "\t" + r.ssid + "\t" + r.bssid + "\t" + r.flags
  }

  function PrintRows(rows: seq<Row>): string {
    if rows == [] then "" else PrintRow(rows[0]) + "\n" + PrintRows(rows[1..])
  }

  /** What a row means: its number's SSID and status. */
  function Meaning(rows: seq<Row>): map<int, Config> {
    if rows == [] then map[]
    else
      var r := rows[|rows| - 1];
      Meaning(rows[..|rows| - 1])[r.id := Config(r.id, StatusOf(r.flags), r.ssid)]
  }

  lemma FieldsCons(a: string, b: string)
    requires '\t' !in a
    ensures Fields(a + "\t" + b) == [a] + Fields(b)
  {
    SplitAt(a, '\t', b);
    assert a + "\t" + b == a + ['\t'] + b;
  }

  lemma FieldsLast(a: string)
    requires '\t' !in a
    ensures Fields(a) == if a == "" then [] else [a]
  {
    SplitNone(a, '\t');
  }

  /** A printed row is one line of three or four fields, an empty last one being
      dropped, and reads back as its number, SSID and status. */
  lemma RowFields(r: Row)
    requires RowOk(r)
    ensures '\n' !in PrintRow(r) && LineOk(PrintRow(r))
    ensures ConfigOf(Fields(PrintRow(r))) == Config(r.id, StatusOf(r.flags), r.ssid)
    ensures ConfigOf(Fields(PrintRow(r))).status == FlagStatus(r.flags)
  {
    StatusExact(r.flags);
    hide FlagStatus, Occurs;
    hide Fields, Itoa, Atoi, Digits, Contains;
    var id := Itoa(r.id);
    var c := r.bssid + "\t" + r.flags;
    var b := r.ssid + "\t" + c;
    FieldsCons(id, b);
    FieldsCons(r.ssid, c);
    FieldsCons(r.bssid, r.flags);
    FieldsLast(r.flags);
    assert PrintRow(r) == id + "\t" + b;
    AtoiItoa(r.id);
    NoFlags();
  }

  lemma NoFlags()
    ensures StatusOf("") == Enabled
  {}

  lemma LoadRow(kv: seq<Entry<Config>>, r: Row, tail: string)
    requires RowOk(r) && LinesOk(tail)
    ensures var body := PrintRow(r) + "\n" + tail;
            var c := Config(r.id, StatusOf(r.flags), r.ssid);
            LinesOk(body) && Load(kv, body) == Load(Add(kv, c.netId, c), tail)
  {
    hide ConfigOf, LineOk, PrintRow, StatusOf, Add;
    RowFields(r);
    SplitAt(PrintRow(r), '\n', tail);
    assert PrintRow(r) + "\n" + tail == PrintRow(r) + ['\n'] + tail;
  }

  lemma {:induction false} LoadRows(kv: seq<Entry<Config>>, rows: seq<Row>, done: seq<Row>)
    requires ToMap(kv) == Meaning(done) && forall r | r in rows :: RowOk(r)
    ensures LinesOk(PrintRows(rows))
    ensures ToMap(Load(kv, PrintRows(rows))) == Meaning(done + rows)
    decreases |rows|
  {
    hide LinesOk, Load, ConfigOf, LineOk, PrintRow, StatusOf, RowOk;
    if rows == [] {
      assert done + rows == done;
      LoadNothing(kv);
    } else {
      var r, rest := rows[0], rows[1..];
      var c := Config(r.id, StatusOf(r.flags), r.ssid);
      assert (done + [r])[..|done|] == done;
      LoadRows(Add(kv, c.netId, c), rest, done + [r]);
      LoadRow(kv, r, PrintRows(rest));
      assert done + [r] + rest == done + rows;
    }
  }

  lemma LoadNothing(kv: seq<Entry<Config>>)
    ensures LinesOk("") && Load(kv, "") == kv
  {}

  lemma {:induction false} RowsWithoutNul(rows: seq<Row>)
    requires forall r | r in rows :: RowOk(r)
    ensures NUL !in PrintRows(rows)
  {
    if rows != [] {
      assert RowOk(rows[0]);
      RowsWithoutNul(rows[1..]);
    }
  }

  /** Whatever rows the supplicant prints under its header line, the table read
      back maps each number to the SSID and status of its last row; and the text
      is one the reader takes. */
  lemma TableRoundTrip(header: string, rows: seq<Row>)
    requires '\n' !in header && forall r | r in rows :: RowOk(r)
    ensures var text := header + "\n" + PrintRows(rows);
            && '\n' in text && (NUL !in header ==> NUL !in text)
            && LinesOk(After(text, '\n'))
            && Sorted(Load([], After(text, '\n')))
            && ToMap(Load([], After(text, '\n'))) == Meaning(rows)
  {
    SplitAt(header, '\n', PrintRows(rows));
    assert header + "\n" + PrintRows(rows) == header + ['\n'] + PrintRows(rows);
    LoadRows([], rows, []);
    assert [] + rows == rows;
    RowsWithoutNul(rows);
  }

  // ---------------------------------------------------------------- in place

  /** The C string in `mem` from `i` on. */
  function Text(mem: seq<char>, i: nat): (s: string)
    requires i <= |mem|
    ensures i + |s| <= |mem| && s == mem[i..i + |s|] && NUL !in s
    ensures i + |s| < |mem| ==> mem[i + |s|] == NUL
    decreases |mem| - i
  {
    if i == |mem| || mem[i] == NUL then "" else [mem[i]] + Text(mem, i + 1)
  }

  /** The string at `i` is the one that is there up to its NUL. */
  lemma TextIs(mem: seq<char>, i: nat, s: string)
    requires i + |s| < |mem| && NUL !in s && mem[i + |s|] == NUL && mem[i..i + |s|] == s
    ensures Text(mem, i) == s
  {
    hide Text;
    var t := Text(mem, i);
    assert forall j | 0 <= j < |s| :: s[j] == mem[i + j];
    assert forall j | 0 <= j < |t| :: t[j] == mem[i + j];
  }

  /** Writing NUL at position `n` of the string at `i` cuts it there... */
  lemma CutLeft(mem: seq<char>, i: nat, n: nat)
    requires i <= |mem| && n < |Text(mem, i)|
    ensures Text(mem[i + n := NUL], i) == Text(mem, i)[..n]
  {
    hide Text;
    var s, cut := Text(mem, i), mem[i + n := NUL];
    assert cut[i..i + n] == mem[i..i + n] == s[..n];
    TextIs(cut, i, s[..n]);
  }

  /** ...and leaves what follows. */
  lemma CutRight(mem: seq<char>, i: nat, n: nat)
    requires i <= |mem| && n < |Text(mem, i)| && i + |Text(mem, i)| < |mem|
    ensures Text(mem[i + n := NUL], i + n + 1) == Text(mem, i)[n + 1..]
  {
    hide Text;
    var s, cut := Text(mem, i), mem[i + n := NUL];
    assert cut[i + n + 1..i + |s|] == mem[i + n + 1..i + |s|] == s[n + 1..];
    TextIs(cut, i + n + 1, s[n + 1..]);
  }

  /** A string is unchanged when its characters and its NUL are. */
  lemma TextFrame(mem: seq<char>, other: seq<char>, i: nat)
    requires Terminated(mem, i) && |mem| == |other|
    requires forall j | i <= j <= i + |Text(mem, i)| :: mem[j] == other[j]
    ensures Terminated(other, i) && Text(other, i) == Text(mem, i)
  {
    hide Text;
    var s := Text(mem, i);
    assert other[i..i + |s|] == mem[i..i + |s|];
    TextIs(other, i, s);
  }

  /** A NUL ends the string at `i`. */
  predicate Terminated(mem: seq<char>, i: nat): (b: bool)
    ensures b ==> i <= |mem|
  {
    i <= |mem| && i + |Text(mem, i)| < |mem|
  }

  /** `strchr`: where the string from `start` first has `c`, None for NULL. */
  method StrChr(buf: array<char>, start: nat, c: char) returns (r: Option<nat>)
    requires Terminated(buf[..], start) && c != NUL
    ensures var s := Text(buf[..], start);
            r == if c in s then Some(start + |UpTo(s, c)|) else None
  {
    hide UpTo, Text;
    ghost var s := Text(buf[..], start);
    var i := start;
    while buf[i] != NUL
      invariant start <= i <= start + |s|
      invariant forall j | 0 <= j < i - start :: s[j] != c
      decreases buf.Length - i
    {
      assert s[i - start] == buf[i];
      if buf[i] == c {
        FirstAt(s, c, i - start);
        return Some(i);
      }
      i := i + 1;
    }
    return None;
  }

  lemma FirstAt(s: string, c: char, n: nat)
    requires n < |s| && s[n] == c && c !in s[..n]
    ensures c in s && |UpTo(s, c)| == n
  {
    assert s == s[..n] + [c] + s[n + 1..];
    SplitAt(s[..n], c, s[n + 1..]);
  }

  /** The fields recorded so far are whole strings that end before `p`. */
  ghost predicate Recorded(mem: seq<char>, at: seq<nat>, names: seq<string>, p: nat) {
    |at| == |names| && forall k | 0 <= k < |at| ::
      Terminated(mem, at[k]) && Text(mem, at[k]) == names[k] && at[k] + |names[k]| < p
  }

  lemma RecordedAfterCut(mem: seq<char>, at: seq<nat>, names: seq<string>, p: nat, n: nat)
    requires Recorded(mem, at, names, p) && Terminated(mem, p) && n < |Text(mem, p)|
    ensures Recorded(mem[p + n := NUL], at + [p], names + [Text(mem, p)[..n]], p + n + 1)
    ensures Terminated(mem[p + n := NUL], p + n + 1)
    ensures Text(mem[p + n := NUL], p + n + 1) == Text(mem, p)[n + 1..]
  {
    hide Text;
    var cut := mem[p + n := NUL];
    CutLeft(mem, p, n);
    CutRight(mem, p, n);
    forall k | 0 <= k < |at| ensures Terminated(cut, at[k]) && Text(cut, at[k]) == names[k] {
      TextFrame(mem, cut, at[k]);
    }
  }

  lemma RecordedLast(mem: seq<char>, at: seq<nat>, names: seq<string>, p: nat)
    requires Recorded(mem, at, names, p) && Terminated(mem, p)
    ensures Recorded(mem, at + [p], names + [Text(mem, p)], p + |Text(mem, p)| + 1)
  {
    hide Text;
  }

  lemma FieldsStep(rest: string, done: seq<string>)
    requires rest != ""
    ensures done + Fields(rest) == (done + [UpTo(rest, '\t')]) + Fields(After(rest, '\t'))
  {
    hide UpTo;
  }

  lemma FieldsNone(rest: string)
    ensures Fields(rest) == [] <==> rest == ""
  {}

  lemma SplitShape(s: string, c: char)
    ensures c in s ==> |UpTo(s, c)| < |s| && After(s, c) == s[|UpTo(s, c)| + 1..]
    ensures c !in s ==> UpTo(s, c) == s && After(s, c) == ""
  {
    if c !in s { SplitNone(s, c); }
  }

  /** Where the inner loop is: at `tab` with the fields before it recorded, or
      done. The line was `line`, at `start`. */
  ghost predicate Scanned(mem: seq<char>, at: seq<nat>, names: seq<string>, tab: Option<nat>, start: nat, line: string) {
    match tab
    case Some(p) =>
      && start <= p && Terminated(mem, p) && p + |Text(mem, p)| == start + |line|
      && Recorded(mem, at, names, p) && Fields(line) == names + Fields(Text(mem, p))
    case None =>
      Recorded(mem, at, names, start + |line| + 1) && Fields(line) == names
  }

  /** What cutting the string at `p` at its first `c` makes of the buffer, and
      where the rest then starts. */
  function CutMem(mem: seq<char>, p: nat, c: char): seq<char>
    requires Terminated(mem, p)
  {
    var n := |UpTo(Text(mem, p), c)|;
    if c in Text(mem, p) then mem[p + n := NUL] else mem
  }

  function NextStart(mem: seq<char>, p: nat, c: char): Option<nat>
    requires Terminated(mem, p)
  {
    if c in Text(mem, p) then Some(p + |UpTo(Text(mem, p), c)| + 1) else None
  }

  lemma ScanStep(mem: seq<char>, at: seq<nat>, names: seq<string>, p: nat, start: nat, line: string)
    requires Scanned(mem, at, names, Some(p), start, line) && Text(mem, p) != ""
    ensures Scanned(CutMem(mem, p, '\t'), at + [p], names + [UpTo(Text(mem, p), '\t')], NextStart(mem, p, '\t'), start, line)
  {
    if '\t' in Text(mem, p) {
      ScanCut(mem, at, names, p, start, line);
    } else {
      ScanLast(mem, at, names, p, start, line);
    }
  }

  lemma RecordedCut(mem: seq<char>, at: seq<nat>, names: seq<string>, p: nat)
    requires Recorded(mem, at, names, p) && Terminated(mem, p) && '\t' in Text(mem, p)
    ensures Recorded(CutMem(mem, p, '\t'), at + [p], names + [UpTo(Text(mem, p), '\t')],
                     p + |UpTo(Text(mem, p), '\t')| + 1)
  {
    hide Text, UpTo, After, Recorded;
    var s, n := Text(mem, p), |UpTo(Text(mem, p), '\t')|;
    SplitShape(s, '\t');
    assert UpTo(s, '\t') == s[..n];
    assert CutMem(mem, p, '\t') == mem[p + n := NUL];
    hide CutMem, Terminated;
    RecordedAfterCut(mem, at, names, p, n);
  }

  lemma ScanCut(mem: seq<char>, at: seq<nat>, names: seq<string>, p: nat, start: nat, line: string)
    requires Scanned(mem, at, names, Some(p), start, line) && '\t' in Text(mem, p)
    ensures Scanned(CutMem(mem, p, '\t'), at + [p], names + [UpTo(Text(mem, p), '\t')], NextStart(mem, p, '\t'), start, line)
  {
    hide Text, UpTo, After, Fields, Recorded, Terminated, CutMem;
    FieldsStep(Text(mem, p), names);
    SplitShape(Text(mem, p), '\t');
    RecordedCut(mem, at, names, p);
    CutSplits(mem, p, '\t');
  }

  lemma ScanLast(mem: seq<char>, at: seq<nat>, names: seq<string>, p: nat, start: nat, line: string)
    requires Scanned(mem, at, names, Some(p), start, line) && Text(mem, p) != "" && '\t' !in Text(mem, p)
    ensures Scanned(CutMem(mem, p, '\t'), at + [p], names + [UpTo(Text(mem, p), '\t')], NextStart(mem, p, '\t'), start, line)
  {
    hide Text, UpTo, After, Fields, Recorded, Terminated;
    var rest := Text(mem, p);
    FieldsStep(rest, names);
    SplitShape(rest, '\t');
    RecordedLast(mem, at, names, p);
    FieldsNone("");
  }

  /** `strchr`, and a NUL over what it found. */
  method CutAt(buf: array<char>, p: nat, c: char) returns (next: Option<nat>)
    requires Terminated(buf[..], p) && c != NUL
    modifies buf
    ensures buf[..] == CutMem(old(buf[..]), p, c) && next == NextStart(old(buf[..]), p, c)
  {
    hide Text, UpTo;
    next := StrChr(buf, p, c);
    if next.Some? {
      buf[next.value] := NUL;
      next := Some(next.value + 1);
    }
  }

  /** One round of the inner loop: records the field at `p`, cuts at its tab. */
  method RecordField(buf: array<char>, fields: array<nat>, count: nat, p: nat) returns (next: Option<nat>)
    requires count < fields.Length && Terminated(buf[..], p)
    modifies buf, fields
    ensures fields[..count + 1] == old(fields[..count]) + [p]
    ensures buf[..] == CutMem(old(buf[..]), p, '\t') && next == NextStart(old(buf[..]), p, '\t')
  {
    hide Text, UpTo;
    ghost var at := fields[..count];
    fields[count] := p;
    assert fields[..count + 1] == at + [p];
    next := CutAt(buf, p, '\t');
  }

  /** The inner loop: cuts one line at its tabs and records where fields start. A
      fifth field would be recorded beyond the array of four: there the method stops
      and says so. */
  method TokeniseLine(buf: array<char>, start: nat, fields: array<nat>) returns (inside: bool, count: nat)
    requires fields.Length == 4 && Terminated(buf[..], start)
    modifies buf, fields
    ensures var line := old(Text(buf[..], start));
            && (inside <==> |Fields(line)| <= 4)
            && (inside ==> count == |Fields(line)| && Recorded(buf[..], fields[..count], Fields(line), start + |line| + 1))
            && (forall j | 0 <= j < buf.Length && (j < start || start + |line| <= j) :: buf[j] == old(buf[j]))
  {
    hide Text, UpTo, Fields, Recorded, Scanned, CutMem, NextStart;
    ghost var line := Text(buf[..], start);
    ghost var names: seq<string> := [];
    count := 0;
    var tabPtr := Some(start);
    ScanStart(buf[..], start);
    assert fields[..0] == [];
    while tabPtr.Some? && buf[tabPtr.value] != NUL
      invariant count == |names| <= 4 && (tabPtr.Some? ==> start <= tabPtr.value < buf.Length)
      invariant Scanned(buf[..], fields[..count], names, tabPtr, start, line)
      invariant forall j | 0 <= j < buf.Length && (j < start || start + |line| <= j) :: buf[j] == old(buf[j])
      decreases if tabPtr.Some? then buf.Length - tabPtr.value else -1
    {
      ghost var mem, p := buf[..], tabPtr.value;
      ScanFacts(mem, fields[..count], names, p, start, line);
      if count == fields.Length { return false, count; }
      ScanStep(mem, fields[..count], names, p, start, line);
      names := names + [UpTo(Text(mem, p), '\t')];
      tabPtr := RecordField(buf, fields, count, tabPtr.value);
      count := count + 1;
      CutFacts(mem, p);
    }
    ScanEnd(buf[..], fields[..count], names, tabPtr, start, line);
    inside := true;
  }

  lemma ScanStart(mem: seq<char>, start: nat)
    requires Terminated(mem, start)
    ensures Scanned(mem, [], [], Some(start), start, Text(mem, start)) && start < |mem|
  {
    hide Text, Fields;
    assert [] + Fields(Text(mem, start)) == Fields(Text(mem, start));
  }

  lemma ScanFacts(mem: seq<char>, at: seq<nat>, names: seq<string>, p: nat, start: nat, line: string)
    requires Scanned(mem, at, names, Some(p), start, line) && p < |mem| && mem[p] != NUL
    ensures Terminated(mem, p) && Text(mem, p) != "" && start <= p && p + |Text(mem, p)| == start + |line|
    ensures |at| == |names| < |Fields(line)|
  {
    hide UpTo;
    FieldsNone(Text(mem, p));
  }

  lemma CutFacts(mem: seq<char>, p: nat)
    requires Terminated(mem, p)
    ensures |CutMem(mem, p, '\t')| == |mem|
    ensures forall j | 0 <= j < |mem| && (j < p || p + |Text(mem, p)| <= j) :: CutMem(mem, p, '\t')[j] == mem[j]
    ensures NextStart(mem, p, '\t').Some? ==> p < NextStart(mem, p, '\t').value <= p + |Text(mem, p)| < |mem|
  {
    hide Text, UpTo, After;
    SplitShape(Text(mem, p), '\t');
  }

  lemma ScanEnd(mem: seq<char>, at: seq<nat>, names: seq<string>, tab: Option<nat>, start: nat, line: string)
    requires Scanned(mem, at, names, tab, start, line)
    requires tab.Some? ==> tab.value < |mem| && mem[tab.value] == NUL
    ensures names == Fields(line) && |at| == |names|
    ensures Recorded(mem, at, names, start + |line| + 1)
  {
    hide UpTo;
    if tab.Some? {
      FieldsNone(Text(mem, tab.value));
      assert names + [] == names;
    }
  }

  // ---------------------------------------------------------------- the class

  lemma TextTail(mem: seq<char>, i: nat, n: nat)
    requires Terminated(mem, i) && n <= |Text(mem, i)|
    ensures Terminated(mem, i + n) && Text(mem, i + n) == Text(mem, i)[n..]
  {
    hide Text;
    var s := Text(mem, i);
    assert mem[i + n..i + |s|] == s[n..];
    TextIs(mem, i + n, s[n..]);
  }

  /** Cutting at `c` leaves what precedes it at `start`, and what follows it at the
      next start. */
  lemma CutSplits(mem: seq<char>, start: nat, c: char)
    requires Terminated(mem, start) && c != NUL
    ensures var s, cut, next := Text(mem, start), CutMem(mem, start, c), NextStart(mem, start, c);
            && Terminated(cut, start) && Text(cut, start) == UpTo(s, c)
            && (next.Some? ==>
                  && next.value == start + |UpTo(s, c)| + 1
                  && Terminated(cut, next.value) && Text(cut, next.value) == After(s, c))
  {
    hide Text, UpTo, After, Terminated;
    SplitShape(Text(mem, start), c);
    if c in Text(mem, start) { CutFirst(mem, start, |UpTo(Text(mem, start), c)|); }
  }

  lemma CutFirst(mem: seq<char>, start: nat, n: nat)
    requires Terminated(mem, start) && n < |Text(mem, start)|
    ensures Terminated(mem[start + n := NUL], start)
    ensures Terminated(mem[start + n := NUL], start + n + 1)
    ensures Text(mem[start + n := NUL], start) == Text(mem, start)[..n]
    ensures Text(mem[start + n := NUL], start + n + 1) == Text(mem, start)[n + 1..]
  {
    hide Text;
    CutLeft(mem, start, n);
    CutRight(mem, start, n);
  }

  /** The entry of the line at `start`, cut into its fields on the way; None when
      the array of four pointers does not hold its fields, or the first two of them
      are not there to be read. */
  method ReadConfig(buf: array<char>, start: nat) returns (config: Option<Config>)
    requires Terminated(buf[..], start)
    modifies buf
    ensures var line := old(Text(buf[..], start));
            && config == (if LineOk(line) then Some(ConfigOf(Fields(line))) else None)
            && forall j | start + |line| <= j < buf.Length :: buf[j] == old(buf[j])
  {
    hide Text, Fields, Atoi, StatusOf;
    var fields := new nat[4];
    var inside, fieldCounts := TokeniseLine(buf, start, fields);
    if !inside || fieldCounts < 2 { return None; }
    assert forall k | 0 <= k < fieldCounts :: fields[..fieldCounts][k] == fields[k];
    var netId := Atoi(Text(buf[..], fields[0]));
    var status := if fieldCounts > 3 then StatusOf(Text(buf[..], fields[3])) else Enabled;
    config := Some(Config(netId, status, Text(buf[..], fields[1])));
  }

  /** One round of the outer loop: the entry of the line at `start`, and where the
      next line starts. */
  method TakeLine(buf: array<char>, start: nat) returns (config: Option<Config>, next: Option<nat>)
    requires Terminated(buf[..], start)
    modifies buf
    ensures var body := old(Text(buf[..], start));
            var line := UpTo(body, '\n');
            && config == (if LineOk(line) then Some(ConfigOf(Fields(line))) else None)
            && (next.Some? <==> '\n' in body)
            && (next.Some? ==> Terminated(buf[..], next.value) && Text(buf[..], next.value) == After(body, '\n'))
  {
    hide Text, UpTo, After, Fields, ConfigOf, CutMem;
    CutSplits(buf[..], start, '\n');
    next := CutAt(buf, start, '\n');
    ghost var cut := buf[..];
    config := ReadConfig(buf, start);
    if next.Some? {
      TextFrame(cut, buf[..], next.value);
    }
  }

  /** The buffer with a copy of the text, and where the header line ends. */
  method CopyAndSkipHeader(text: string) returns (buf: array<char>, start: nat)
    requires NUL !in text && '\n' in text
    ensures fresh(buf) && Terminated(buf[..], start) && Text(buf[..], start) == After(text, '\n')
  {
    hide Text, UpTo, After;
    buf := new char[|text| + 1](_ => NUL);
    forall j | 0 <= j < |text| { buf[j] := text[j]; }
    assert buf[0..|text|] == text;
    TextIs(buf[..], 0, text);
    var header := StrChr(buf, 0, '\n');
    SplitShape(text, '\n');
    TextTail(buf[..], 0, header.value + 1);
    start := header.value + 1;
  }

  class RWifiInfo {
    var mConfiguredNetworks: seq<Entry<Config>>

    constructor ()
      ensures mConfiguredNetworks == []
    {
      mConfiguredNetworks := [];
    }

    /** The in-place tokeniser fills the table the lines after the header specify;
        `listNetworks` is the supplicant's reply, if there is one. It stays inside
        its array of fields, and reads only fields that are there, exactly when
        every line has two to four. */
    method LoadConfiguredNetworks(listNetworks: Option<string>) returns (inside: bool)
      requires listNetworks.Some? ==> NUL !in listNetworks.value
      modifies this
      ensures inside <==> LinesOk(Body(listNetworks))
      ensures inside ==> mConfiguredNetworks == Load([], Body(listNetworks))
    {
      hide Text, UpTo, After, Fields, Add, LineOk, ConfigOf, LinesOk, Load, Sorted;
      LoadNone();
      mConfiguredNetworks := [];
      if listNetworks == None || |listNetworks.value| == 0 || '\n' !in listNetworks.value { return true; }
      var text := listNetworks.value;
      var networksStr, startPtr := CopyAndSkipHeader(text);
      ghost var whole := After(text, '\n');
      ghost var body := whole;
      while networksStr[startPtr] != NUL
        invariant Terminated(networksStr[..], startPtr) && body == Text(networksStr[..], startPtr)
        invariant LinesOk(whole) <==> LinesOk(body)
        invariant LinesOk(whole) ==> Load(mConfiguredNetworks, body) == Load([], whole)
        decreases |body|
      {
        BodyStarts(networksStr[..], startPtr);
        var config, next := TakeLine(networksStr, startPtr);
        SplitShape(body, '\n');
        LoadLine(mConfiguredNetworks, body);
        if config == None { return false; }
        mConfiguredNetworks := Add(mConfiguredNetworks, config.value.netId, config.value);
        body := After(body, '\n');
        if next == None { break; }
        startPtr := next.value;
      }
      if body != "" { BodyEnds(networksStr[..], startPtr); }
      inside := true;
    }

    /** The smallest number whose entry has this SSID, -1 when there is none; None
        when the reply makes the tokeniser leave its array. */
    method IsNewWifi(ssid: string, listNetworks: Option<string>) returns (r: Option<int>)
      requires listNetworks.Some? ==> NUL !in listNetworks.value
      modifies this
      ensures r.Some? <==> LinesOk(Body(listNetworks))
      ensures r.Some? ==>
                var kv := Load([], Body(listNetworks));
                mConfiguredNetworks == kv && r.value == FirstWith(kv, ssid)
    {
      hide Load, LinesOk, Body;
      var inside := LoadConfiguredNetworks(listNetworks);
      if !inside { return None; }
      ghost var kv := mConfiguredNetworks;
      var i := 0;
      while i < |mConfiguredNetworks|
        invariant 0 <= i <= |kv| && kv == mConfiguredNetworks
        invariant FirstWith(kv, ssid) == FirstWith(kv[i..], ssid)
      {
        if mConfiguredNetworks[i].value.ssid == ssid {
          return Some(mConfiguredNetworks[i].value.netId);
        }
        assert kv[i..][1..] == kv[i + 1..];
        i := i + 1;
      }
      return Some(-1);
    }

    /** The SSID of the first entry that is CURRENT and has one. */
    method GetCurrentSSID(listNetworks: Option<string>) returns (inside: bool, r: Option<string>)
      requires listNetworks.Some? ==> NUL !in listNetworks.value
      modifies this
      ensures inside <==> LinesOk(Body(listNetworks))
      ensures inside ==>
                && mConfiguredNetworks == Load([], Body(listNetworks))
                && r == FirstCurrent(mConfiguredNetworks)
    {
      hide Load, LinesOk, Body;
      inside := LoadConfiguredNetworks(listNetworks);
      if !inside { return false, None; }
      ghost var kv := mConfiguredNetworks;
      var i := 0;
      while i < |mConfiguredNetworks|
        invariant 0 <= i <= |kv| && kv == mConfiguredNetworks
        invariant FirstCurrent(kv) == FirstCurrent(kv[i..])
      {
        if NamedCurrent(mConfiguredNetworks[i].value) {
          return true, Some(mConfiguredNetworks[i].value.ssid);
        }
        assert kv[i..][1..] == kv[i + 1..];
        i := i + 1;
      }
      return true, None;
    }
  }

  /** The lines of a reply after its header; none without a reply or a header. */
  function Body(listNetworks: Option<string>): string {
    if listNetworks.Some? && '\n' in listNetworks.value then After(listNetworks.value, '\n') else ""
  }

  predicate NamedCurrent(c: Config) { c.status == Current && c.ssid != "" }

  function FirstCurrent(kv: seq<Entry<Config>>): Option<string> {
    if kv == [] then None
    else if NamedCurrent(kv[0].value) then Some(kv[0].value.ssid)
    else FirstCurrent(kv[1..])
  }

  lemma BodyStarts(mem: seq<char>, i: nat)
    requires Terminated(mem, i) && mem[i] != NUL
    ensures Text(mem, i) != ""
  {}

  lemma BodyEnds(mem: seq<char>, i: nat)
    requires Terminated(mem, i)
    ensures mem[i] == NUL ==> Text(mem, i) == ""
  {}

  lemma LoadNone()
    ensures LinesOk("") && forall kv :: Load(kv, "") == kv
  {}

  lemma LoadLine(kv: seq<Entry<Config>>, body: string)
    requires body != ""
    ensures LinesOk(body) <==> LineOk(UpTo(body, '\n')) && LinesOk(After(body, '\n'))
    ensures |After(body, '\n')| < |body|
    ensures LinesOk(body) ==>
            var c := ConfigOf(Fields(UpTo(body, '\n')));
            Load(kv, body) == Load(Add(kv, c.netId, c), After(body, '\n'))
  {
    hide Add;
  }

  function FirstWith(kv: seq<Entry<Config>>, ssid: string): int {
    if kv == [] then -1 else if kv[0].value.ssid == ssid then kv[0].value.netId else FirstWith(kv[1..], ssid)
  }

  /** Entry `i` is the first one with the SSID. */
  ghost predicate FirstIs(kv: seq<Entry<Config>>, ssid: string, i: nat) {
    i < |kv| && kv[i].value.ssid == ssid && forall j | 0 <= j < i :: kv[j].value.ssid != ssid
  }

  lemma {:induction false} FirstWithIndex(kv: seq<Entry<Config>>, ssid: string)
    requires forall e | e in kv :: e.value.netId == e.key >= 0
    ensures FirstWith(kv, ssid) == -1 ==> forall i | 0 <= i < |kv| :: kv[i].value.ssid != ssid
    ensures FirstWith(kv, ssid) != -1 ==>
              exists i: nat :: FirstIs(kv, ssid, i) && kv[i].key == FirstWith(kv, ssid)
  {
    if kv != [] {
      var rest := kv[1..];
      assert kv[0] in kv;
      if kv[0].value.ssid == ssid {
        assert FirstIs(kv, ssid, 0);
      } else {
        FirstWithIndex(rest, ssid);
        assert forall i | 1 <= i < |kv| :: kv[i] == rest[i - 1];
        if FirstWith(rest, ssid) != -1 {
          var i: nat :| FirstIs(rest, ssid, i) && rest[i].key == FirstWith(rest, ssid);
          assert FirstIs(kv, ssid, i + 1);
        }
      }
    }
  }

  lemma FirstWithSpec(kv: seq<Entry<Config>>, ssid: string)
    requires Sorted(kv) && forall e | e in kv :: e.value.netId == e.key >= 0
    ensures var r, m := FirstWith(kv, ssid), ToMap(kv);
            if r == -1 then forall k | k in m :: m[k].ssid != ssid
            else r in m && m[r].ssid == ssid && forall k | k in m && m[k].ssid == ssid :: r <= k
  {
    MapOfSorted(kv);
    FirstWithIndex(kv, ssid);
    var r, m := FirstWith(kv, ssid), ToMap(kv);
    hide ToMap, FirstWith;
    if r == -1 {
      forall k | k in m ensures m[k].ssid != ssid {
        var i :| 0 <= i < |kv| && kv[i].key == k;
        assert m[kv[i].key] == kv[i].value;
      }
    } else {
      var i: nat :| FirstIs(kv, ssid, i) && kv[i].key == r;
      assert kv[i].key in m && m[kv[i].key] == kv[i].value;
      assert r in m && m[r].ssid == ssid;
      forall k | k in m && m[k].ssid == ssid ensures r <= k {
        var j :| 0 <= j < |kv| && kv[j].key == k;
        assert m[kv[j].key] == kv[j].value;
      }
    }
  }

  /** From printed rows to the answer of isNewWifi: the smallest number whose last
      row has the SSID, or -1 exactly when no number's last row has it. */
  lemma IsNewWifiFromRows(header: string, rows: seq<Row>, ssid: string)
    requires '\n' !in header && forall r | r in rows :: RowOk(r)
    ensures var text := header + "\n" + PrintRows(rows);
            LinesOk(After(text, '\n'))
    ensures var text, m := header + "\n" + PrintRows(rows), Meaning(rows);
            var r := FirstWith(Load([], After(text, '\n')), ssid);
            if r == -1 then forall k | k in m :: m[k].ssid != ssid
            else r in m && m[r].ssid == ssid && forall k | k in m && m[k].ssid == ssid :: r <= k
  {
    TableRoundTrip(header, rows);
    var kv := Load([], After(header + "\n" + PrintRows(rows), '\n'));
    MapOfSorted(kv);
    MeaningIds(rows);
    forall e | e in kv ensures e.value.netId == e.key >= 0 {
      assert e.key in ToMap(kv) && ToMap(kv)[e.key] == e.value;
    }
    FirstWithSpec(kv, ssid);
  }

  lemma {:induction false} MeaningIds(rows: seq<Row>)
    ensures forall k | k in Meaning(rows) :: Meaning(rows)[k].netId == k >= 0
  {
    if rows != [] { MeaningIds(rows[..|rows| - 1]); }
  }

  // ---------------------------------------------------------------- the current network

  /** Row `i` is the last one with its number. */
  predicate LastRow(rows: seq<Row>, i: nat) {
    i < |rows| && forall k | i < k < |rows| :: rows[k].id != rows[i].id
  }

  /** Row `i` makes its number the current network, by name. */
  predicate CurrentRow(rows: seq<Row>, i: nat) {
    LastRow(rows, i) && rows[i].ssid != "" && Occurs("[CURRENT]", rows[i].flags)
  }

  /** The meaning of rows, number by number: that of its last row. */
  lemma {:induction false} MeaningExact(rows: seq<Row>, id: int)
    ensures id in Meaning(rows) <==> exists i: nat :: LastRow(rows, i) && rows[i].id == id
    ensures forall i: nat | LastRow(rows, i) && rows[i].id == id ::
              id in Meaning(rows) && Meaning(rows)[id] == Config(id, StatusOf(rows[i].flags), rows[i].ssid)
  {
    hide StatusOf;
    if rows != [] {
      var n := |rows| - 1;
      var before := rows[..n];
      MeaningExact(before, id);
      if rows[n].id == id {
        assert LastRow(rows, n);
      } else {
        forall i: nat ensures LastRow(rows, i) && rows[i].id == id <==> LastRow(before, i) && before[i].id == id {
          LastRowPrefix(rows, i, id);
        }
        if id in Meaning(before) {
          var i: nat :| LastRow(before, i) && before[i].id == id;
          assert LastRow(rows, i) && rows[i].id == id;
        }
      }
    }
  }

  lemma LastRowPrefix(rows: seq<Row>, i: nat, id: int)
    requires rows != [] && rows[|rows| - 1].id != id
    ensures var before := rows[..|rows| - 1];
            LastRow(rows, i) && rows[i].id == id <==> LastRow(before, i) && before[i].id == id
  {
    var n := |rows| - 1;
    var before := rows[..n];
    if LastRow(before, i) && before[i].id == id {
      forall k | i < k < |rows| ensures rows[k].id != rows[i].id {
        if k < n { assert before[k].id != before[i].id; }
      }
    }
    if LastRow(rows, i) && rows[i].id == id {
      assert i < n;
      forall k | i < k < n ensures before[k].id != before[i].id { assert rows[k].id != rows[i].id; }
    }
  }

  /** From printed rows to the table: its numbers are those of the rows, and each has
      the SSID of its last row and the status that row's flags stand for. */
  lemma TableFromRows(header: string, rows: seq<Row>, id: int)
    requires '\n' !in header && forall r | r in rows :: RowOk(r)
    ensures LinesOk(After(header + "\n" + PrintRows(rows), '\n'))
    ensures var table := ToMap(Load([], After(header + "\n" + PrintRows(rows), '\n')));
            && (id in table <==> exists i: nat :: LastRow(rows, i) && rows[i].id == id)
            && forall i: nat | LastRow(rows, i) && rows[i].id == id ::
                 id in table && table[id] == Config(id, FlagStatus(rows[i].flags), rows[i].ssid)
  {
    hide StatusOf, FlagStatus;
    TableRoundTrip(header, rows);
    MeaningExact(rows, id);
    forall i: nat | LastRow(rows, i) ensures StatusOf(rows[i].flags) == FlagStatus(rows[i].flags) {
      StatusExact(rows[i].flags);
    }
  }

  /** Entry `i` is the first current one with a name. */
  ghost predicate FirstCurrentIs(kv: seq<Entry<Config>>, i: nat) {
    i < |kv| && NamedCurrent(kv[i].value) && forall j | 0 <= j < i :: !NamedCurrent(kv[j].value)
  }

  lemma {:induction false} FirstCurrentIndex(kv: seq<Entry<Config>>)
    ensures FirstCurrent(kv) == None ==> forall i | 0 <= i < |kv| :: !NamedCurrent(kv[i].value)
    ensures FirstCurrent(kv).Some? ==>
              exists i: nat :: FirstCurrentIs(kv, i) && kv[i].value.ssid == FirstCurrent(kv).value
  {
    if kv != [] {
      var rest := kv[1..];
      if NamedCurrent(kv[0].value) {
        assert FirstCurrentIs(kv, 0);
      } else {
        FirstCurrentIndex(rest);
        assert forall i | 1 <= i < |kv| :: kv[i] == rest[i - 1];
        if FirstCurrent(rest).Some? {
          var i: nat :| FirstCurrentIs(rest, i) && rest[i].value.ssid == FirstCurrent(rest).value;
          assert FirstCurrentIs(kv, i + 1);
        }
      }
    }
  }

  /** An entry of the table is that of the last row with its number. */
  lemma EntryRow(kv: seq<Entry<Config>>, rows: seq<Row>, j: nat)
    requires Sorted(kv) && ToMap(kv) == Meaning(rows) && j < |kv|
    ensures exists i: nat :: LastRow(rows, i) && rows[i].id == kv[j].key && rows[i].ssid == kv[j].value.ssid
                             && (NamedCurrent(kv[j].value) <==> CurrentRow(rows, i))
  {
    hide ToMap, Meaning, StatusOf, Occurs;
    MapOfSorted(kv);
    assert kv[j].key in ToMap(kv) && ToMap(kv)[kv[j].key] == kv[j].value;
    MeaningExact(rows, kv[j].key);
    var i: nat :| LastRow(rows, i) && rows[i].id == kv[j].key;
    StatusExact(rows[i].flags);
  }

  /** And every last row is in the table. */
  lemma RowEntry(kv: seq<Entry<Config>>, rows: seq<Row>, i: nat)
    requires Sorted(kv) && ToMap(kv) == Meaning(rows) && LastRow(rows, i)
    ensures exists j: nat :: j < |kv| && kv[j].key == rows[i].id && kv[j].value.ssid == rows[i].ssid
                             && (NamedCurrent(kv[j].value) <==> CurrentRow(rows, i))
  {
    hide ToMap, Meaning, StatusOf, Occurs;
    MapOfSorted(kv);
    MeaningExact(rows, rows[i].id);
    var j :| 0 <= j < |kv| && kv[j].key == rows[i].id;
    assert ToMap(kv)[kv[j].key] == kv[j].value;
    StatusExact(rows[i].flags);
  }

  /** From printed rows to the answer of getCurrentSSID: the name in the last row of
      the smallest number whose last row has a name and the flag, and none exactly
      when there is no such number. */
  lemma CurrentFromRows(header: string, rows: seq<Row>)
    requires '\n' !in header && forall r | r in rows :: RowOk(r)
    ensures LinesOk(After(header + "\n" + PrintRows(rows), '\n'))
    ensures var r := FirstCurrent(Load([], After(header + "\n" + PrintRows(rows), '\n')));
            if r == None then forall i: nat :: !CurrentRow(rows, i)
            else exists i: nat :: CurrentRow(rows, i) && rows[i].ssid == r.value
                                  && forall j: nat | CurrentRow(rows, j) :: rows[i].id <= rows[j].id
  {
    TableRoundTrip(header, rows);
    var kv := Load([], After(header + "\n" + PrintRows(rows), '\n'));
    CurrentOfTable(kv, rows);
  }

  lemma CurrentOfTable(kv: seq<Entry<Config>>, rows: seq<Row>)
    requires Sorted(kv) && ToMap(kv) == Meaning(rows)
    ensures var r := FirstCurrent(kv);
            if r == None then forall i: nat :: !CurrentRow(rows, i)
            else exists i: nat :: CurrentRow(rows, i) && rows[i].ssid == r.value
                                  && forall j: nat | CurrentRow(rows, j) :: rows[i].id <= rows[j].id
  {
    hide ToMap, Meaning, Occurs, NamedCurrent, FirstCurrent;
    FirstCurrentIndex(kv);
    if FirstCurrent(kv) == None {
      forall i: nat ensures !CurrentRow(rows, i) {
        if LastRow(rows, i) { RowEntry(kv, rows, i); }
      }
    } else {
      var f: nat :| FirstCurrentIs(kv, f) && kv[f].value.ssid == FirstCurrent(kv).value;
      EntryRow(kv, rows, f);
      var i: nat :| LastRow(rows, i) && rows[i].id == kv[f].key && rows[i].ssid == kv[f].value.ssid
                    && (NamedCurrent(kv[f].value) <==> CurrentRow(rows, i));
      forall j: nat | CurrentRow(rows, j) ensures rows[i].id <= rows[j].id {
        RowEntry(kv, rows, j);
        var e: nat :| e < |kv| && kv[e].key == rows[j].id && (NamedCurrent(kv[e].value) <==> CurrentRow(rows, j));
        assert f <= e;
      }
    }
  }
}
