/** The SSID/password escape codec of lib/wifi/RWifiSsidPasswd.cpp. */
module SsidCodec {
  import opened Bytes

  const QUOTE: byte := 34
  const BACKSLASH: byte := 92
  const ESC: byte := 27
  const LF: byte := 10
  const CR: byte := 13
  const TAB: byte := 9
  const LETTER_E: byte := 101
  const LETTER_N: byte := 110
  const LETTER_R: byte := 114
  const LETTER_T: byte := 116
  const LETTER_X: byte := 120

  const BYTE_STREAM_LEN := 128
  const STRING_LEN := 128
  const SSID_FORMAT_LEN := 132
  const PWD_FORMAT_LEN := 32

  // ---------------------------------------------------------------- digits

  /** A lower-case hexadecimal digit, as `%02x` prints it. */
  function HexDigit(n: byte): byte
    requires n < 16
  {
    if n < 10 then 48 + n else 87 + n
  }

  /** `hex2num`: the value of a digit of either case, None for the source's -1. */
  function Hex2Num(c: byte): Option<byte> {
    if 48 <= c <= 57 then Some(c - 48)
    else if 97 <= c <= 102 then Some(c - 97 + 10)
    else if 65 <= c <= 70 then Some(c - 65 + 10)
    else None
  }

  predicate IsOctal(c: byte) { 48 <= c <= 55 }

  /** The byte of a C string at `i`, where the string ends in NUL. */
  function At(s: seq<byte>, i: nat): byte {
    if i < |s| then s[i] else 0
  }

  // ---------------------------------------------------------------- printing

  /** The full escape of one byte. */
  function Escape(b: byte): (e: seq<byte>)
    ensures |e| == 1 || |e| == 2 || |e| == 4
    ensures 0 !in e
  {
    if b == QUOTE || b == BACKSLASH then [BACKSLASH, b]
    else if b == ESC then [BACKSLASH, LETTER_E]
    else if b == LF then [BACKSLASH, LETTER_N]
    else if b == CR then [BACKSLASH, LETTER_R]
    else if b == TAB then [BACKSLASH, LETTER_T]
    else if 32 <= b <= 127 then [b]
    else [BACKSLASH, LETTER_X, HexDigit(b >> 4), HexDigit(b & 15)]
  }

  /** The text an unbounded printer would produce. */
  function Print(d: seq<byte>): seq<byte> {
    if d == [] then [] else Escape(d[0]) + Print(d[1..])
  }

  /** How many bytes are consumed when `room` characters are left. */
  function Consumed(d: seq<byte>, room: int): (k: nat)
    ensures k <= |d|
  {
    if d == [] || room < 4 then 0 else 1 + Consumed(d[1..], room - |Escape(d[0])|)
  }

  /** The C string left in a buffer with room for `room` characters and a NUL:
      a four-character escape that exactly fills the room loses its last digit. */
  function Printed(d: seq<byte>, room: int): (t: seq<byte>)
    ensures 0 !in t
    ensures |t| <= if room < 4 then 0 else room - 1
  {
    if d == [] || room < 4 then []
    else if |Escape(d[0])| == 4 && room == 4 then Escape(d[0])[..3]
    else Escape(d[0]) + Printed(d[1..], room - |Escape(d[0])|)
  }

  // ---------------------------------------------------------------- parsing

  /** One step of the escape grammar: the bytes produced (none or one) and the
      characters used. */
  datatype Item = Item(out: seq<byte>, used: nat)

  function Lex(s: seq<byte>): (i: Item)
    requires s != [] && 0 !in s
    ensures |i.out| <= 1 && 1 <= i.used <= |s| && |i.out| <= i.used
  {
    if s[0] != BACKSLASH then Item([s[0]], 1)
    else
      var c := At(s, 1);
      if c == BACKSLASH || c == QUOTE then Item([c], 2)
      else if c == LETTER_N then Item([LF], 2)
      else if c == LETTER_R then Item([CR], 2)
      else if c == LETTER_T then Item([TAB], 2)
      else if c == LETTER_E then Item([ESC], 2)
      else if c == LETTER_X then LexHex(s)
      else if IsOctal(c) then LexOctal(s)
      else Item([], 1)
  }

  /** `\xHH`, `\xH`, or a bare `\x` that produces nothing. */
  function LexHex(s: seq<byte>): (i: Item)
    requires |s| >= 2 && 0 !in s
    ensures |i.out| <= 1 && 2 <= i.used <= |s|
  {
    match (Hex2Num(At(s, 2)), Hex2Num(At(s, 3)))
    case (Some(hi), Some(lo)) => Item([(hi << 4) | lo], 4)
    case (Some(hi), None) => Item([hi], 3)
    case (None, _) => Item([], 2)
  }

  /** One to three octal digits; eight-bit arithmetic keeps the value mod 256. */
  function LexOctal(s: seq<byte>): (i: Item)
    requires |s| >= 2 && 0 !in s && IsOctal(s[1])
    ensures |i.out| == 1 && 2 <= i.used <= |s|
  {
    if !IsOctal(At(s, 2)) then Item([s[1] - 48], 2)
    else if !IsOctal(At(s, 3)) then Item([(s[1] - 48) * 8 + (s[2] - 48)], 3)
    else Item([(s[1] - 48) * 64 + (s[2] - 48) * 8 + (s[3] - 48)], 4)
  }

  /** The bytes a C string of escapes stands for. */
  function Decode(s: seq<byte>): (d: seq<byte>)
    requires 0 !in s
    ensures |d| <= |s|
  {
    if s == [] then []
    else var i := Lex(s); i.out + Decode(s[i.used..])
  }

  // ---------------------------------------------------------------- characters

  /** The characters of a byte string. */
  function Chars(s: seq<byte>): (t: string)
    ensures |t| == |s| && forall i | 0 <= i < |s| :: t[i] == Int(s[i]) as char
  {
    if s == [] then "" else [Int(s[0]) as char] + Chars(s[1..])
  }

  const DIGITS := "0123456789abcdef"
  const CAPITALS := "0123456789ABCDEF"

  lemma DigitsAt(k: nat)
    requires k < 16
    ensures DIGITS[k] as int == (if k < 10 then 48 + k else 87 + k)
    ensures CAPITALS[k] as int == (if k < 10 then 48 + k else 55 + k)
  {
    assert k in {0, 1, 2, 3, 4, 5, 6, 7, 8, 9, 10, 11, 12, 13, 14, 15};
  }

  lemma Codes()
    ensures Int(34) == 34 && Int(92) == 92 && Int(27) == 27 && Int(10) == 10 && Int(13) == 13 && Int(9) == 9
    ensures Int(101) == 101 && Int(110) == 110 && Int(114) == 114 && Int(116) == 116 && Int(120) == 120
    ensures Int(0) == 0 && Int(16) == 16 && Int(31) == 31 && Int(32) == 32 && Int(127) == 127 && Int(128) == 128
  {}

  lemma DigitCodes()
    ensures Int(47) == 47 && Int(48) == 48 && Int(55) == 55 && Int(56) == 56 && Int(57) == 57 && Int(58) == 58
    ensures Int(64) == 64 && Int(65) == 65 && Int(70) == 70 && Int(71) == 71 && Int(87) == 87
    ensures Int(96) == 96 && Int(97) == 97 && Int(102) == 102 && Int(103) == 103 && Int(10) == 10
  {}

  function Times16(h: byte): byte { h << 4 }

  function High(b: byte): byte { b >> 4 }

  function Low(b: byte): byte { b & 15 }

  function Twice(h: byte): byte { Plus(h, h) }

  lemma ModSum(x: nat, y: nat)
    ensures (x % 256 + y) % 256 == (x + y) % 256
  {}

  lemma SmallTwice(h: byte)
    requires Int(h) < 128
    ensures Int(Twice(h)) == 2 * Int(h)
  {
    hide Plus, Int;
    IntSum(h, h);
    ModSmall(2 * Int(h));
  }

  lemma IntTwice(h: byte, n: nat)
    requires Int(h) == n % 256
    ensures Int(Twice(h)) == 2 * n % 256
  {
    hide Plus, Int;
    IntSum(h, h);
    ModSum(n, n % 256);
    ModSum(n, n);
  }

  lemma Times16Twice(h: byte)
    ensures Times16(h) == Twice(Twice(Twice(Twice(h))))
  {}

  lemma HighLow(b: byte)
    ensures Below(High(b), 16) && Below(Low(b), 16) && b == Plus(Times16(High(b)), Low(b))
  {}

  lemma IntTimes16(h: byte)
    requires Int(h) < 16
    ensures Int(Times16(h)) == 16 * Int(h)
  {
    hide Times16, Twice, Int;
    Times16Twice(h);
    SmallTwice(h);
    SmallTwice(Twice(h));
    SmallTwice(Twice(Twice(h)));
    SmallTwice(Twice(Twice(Twice(h))));
  }

  /** The nibbles of a byte are its two digits in base 16. */
  lemma Nibbles(b: byte)
    ensures Int(High(b)) == Int(b) / 16 && Int(Low(b)) == Int(b) % 16
  {
    hide Plus, Times16, High, Low, Below, Int;
    Codes();
    HighLow(b);
    IntOrder(High(b), 16);
    IntOrder(Low(b), 16);
    IntTimes16(High(b));
    IntSum(Times16(High(b)), Low(b));
    ModSmall(16 * Int(High(b)) + Int(Low(b)));
    DivMod16(Int(High(b)), Int(Low(b)));
  }

  lemma DivMod16(q: nat, r: nat)
    requires r < 16
    ensures (16 * q + r) / 16 == q && (16 * q + r) % 16 == r
  {}

  lemma HexDigitSum(n: byte)
    requires n < 16
    ensures HexDigit(n) == if Below(n, 10) then Plus(48, n) else Plus(87, n)
  {}

  lemma HexDigitExact(n: byte)
    requires n < 16
    ensures Int(n) < 16 && Int(HexDigit(n)) as char == DIGITS[Int(n)]
  {
    assert Below(n, 16);
    HexDigitSum(n);
    hide Plus, Below, Int, HexDigit;
    Codes();
    DigitCodes();
    IntOrder(n, 16);
    IntOrder(n, 10);
    IntSum(48, n);
    IntSum(87, n);
    DigitsAt(Int(n));
  }

  /** Which text stands for a byte. */
  function EscapeText(n: nat): string
    requires n < 256
  {
    if n == '"' as int then "\\\""
    else if n == '\\' as int then "\\\\"
    else if n == 27 then "\\e"
    else if n == '\n' as int then "\\n"
    else if n == '\r' as int then "\\r"
    else if n == '\t' as int then "\\t"
    else if 32 <= n <= 127 then [n as char]
    else "\\x" + [DIGITS[n / 16], DIGITS[n % 16]]
  }

  lemma SameByte(b: byte, c: byte)
    ensures b == c <==> Int(b) == Int(c)
  {
    if Int(b) == Int(c) { SameInt(b, c); }
  }

  predicate Printable(b: byte) { 32 <= b <= 127 }

  lemma PrintableRange(b: byte)
    ensures Printable(b) <==> Below(31, b) && Below(b, 128)
  {}

  lemma PrintableExact(b: byte)
    ensures Printable(b) <==> 32 <= Int(b) <= 127
  {
    hide Below, Int, Printable;
    Codes();
    PrintableRange(b);
    IntOrder(31, b);
    IntOrder(b, 128);
  }

  /** The printer's text for every byte, in characters: quote, backslash, escape,
      newline, return and tab by letter, 32 to 127 as they are, and every other
      byte as `\x` and its two digits in base 16. */
  lemma EscapeExact(b: byte)
    ensures Chars(Escape(b)) == EscapeText(Int(b))
  {
    hide Int, Chars;
    Codes();
    SameByte(b, 34);
    SameByte(b, 92);
    SameByte(b, 27);
    SameByte(b, 10);
    SameByte(b, 13);
    SameByte(b, 9);
    PrintableExact(b);
    if |Escape(b)| == 4 {
      Nibbles(b);
      HexDigitExact(High(b));
      HexDigitExact(Low(b));
    }
    assert |Chars(Escape(b))| == |EscapeText(Int(b))|;
  }

  // ---------------------------------------------------------------- numerals

  /** The value of a hexadecimal digit of either case, -1 for other characters. */
  function HexValue(c: char): int {
    if '0' <= c <= '9' then c as int - '0' as int
    else if 'a' <= c <= 'f' then c as int - 'a' as int + 10
    else if 'A' <= c <= 'F' then c as int - 'A' as int + 10
    else -1
  }

  predicate Between(lo: byte, c: byte, hi: byte) { lo <= c <= hi }

  lemma BetweenExact(lo: byte, c: byte, hi: byte)
    ensures Between(lo, c, hi) <==> Int(lo) <= Int(c) <= Int(hi)
  {
    assert Between(lo, c, hi) <==> !Below(c, lo) && !Below(hi, c);
    hide Between, Below, Int;
    IntOrder(c, lo);
    IntOrder(hi, c);
  }

  lemma Hex2NumShape(c: byte)
    ensures Hex2Num(c) ==
              if Between(48, c, 57) then Some(Plus(c, 208))
              else if Between(97, c, 102) then Some(Plus(c, 169))
              else if Between(65, c, 70) then Some(Plus(c, 201))
              else None
  {}

  lemma OctalShape(c: byte)
    ensures IsOctal(c) <==> Between(48, c, 55)
    ensures Sub48(c) == Plus(c, 208)
  {}

  lemma Offsets()
    ensures Int(208) == 208 && Int(169) == 169 && Int(201) == 201
  {}

  /** `hex2num` is the value of a digit of either case, and nothing for any other
      character. */
  lemma Hex2NumExact(c: byte)
    ensures var v := HexValue(Int(c) as char);
            if v < 0 then Hex2Num(c) == None else Hex2Num(c).Some? && Int(Hex2Num(c).value) == v < 16
  {
    Hex2NumShape(c);
    hide Int, Plus, Between, Hex2Num;
    DigitCodes();
    Offsets();
    BetweenExact(48, c, 57);
    BetweenExact(97, c, 102);
    BetweenExact(65, c, 70);
    IntSum(c, 208);
    IntSum(c, 169);
    IntSum(c, 201);
  }

  function Join(hi: byte, lo: byte): byte { (hi << 4) | lo }

  lemma JoinSum(hi: byte, lo: byte)
    requires Below(hi, 16) && Below(lo, 16)
    ensures Join(hi, lo) == Plus(Times16(hi), lo)
  {}

  /** Two digits make a byte, the first one counting sixteen. */
  lemma JoinExact(hi: byte, lo: byte)
    requires Int(hi) < 16 && Int(lo) < 16
    ensures Int(Join(hi, lo)) == 16 * Int(hi) + Int(lo)
  {
    hide Below, Int, Plus, Times16, Join;
    Codes();
    IntOrder(hi, 16);
    IntOrder(lo, 16);
    JoinSum(hi, lo);
    IntTimes16(hi);
    IntSum(Times16(hi), lo);
    ModSmall(16 * Int(hi) + Int(lo));
  }

  lemma LexIsHex(s: seq<byte>)
    requires |s| >= 2 && 0 !in s && s[0] == BACKSLASH && s[1] == LETTER_X
    ensures Lex(s) == match (Hex2Num(At(s, 2)), Hex2Num(At(s, 3)))
                      case (Some(hi), Some(lo)) => Item([Join(hi, lo)], 4)
                      case (Some(hi), None) => Item([hi], 3)
                      case (None, _) => Item([], 2)
  {
    hide Hex2Num;
  }

  /** After `\x`: two digits, one digit, or none. */
  lemma LexHexExact(s: seq<byte>)
    requires |s| >= 2 && 0 !in s && s[0] == BACKSLASH && s[1] == LETTER_X
    ensures var h, l := HexValue(Int(At(s, 2)) as char), HexValue(Int(At(s, 3)) as char);
            if h < 0 then Lex(s) == Item([], 2)
            else if l < 0 then Lex(s).used == 3 && |Lex(s).out| == 1 && Int(Lex(s).out[0]) == h
            else Lex(s).used == 4 && |Lex(s).out| == 1 && Int(Lex(s).out[0]) == 16 * h + l
  {
    Hex2NumExact(At(s, 2));
    Hex2NumExact(At(s, 3));
    LexIsHex(s);
    hide Int, Hex2Num, Lex, At, Join, HexValue;
    if Hex2Num(At(s, 2)).Some? && Hex2Num(At(s, 3)).Some? {
      JoinExact(Hex2Num(At(s, 2)).value, Hex2Num(At(s, 3)).value);
    }
  }

  function Sub48(c: byte): byte { c - 48 }

  function Times8(d: byte): byte { Twice(Twice(Twice(d))) }

  lemma IntTimes8(d: byte, n: nat)
    requires Int(d) == n % 256
    ensures Int(Times8(d)) == 8 * n % 256
  {
    hide Twice, Int;
    IntTwice(d, n);
    IntTwice(Twice(d), 2 * n);
    IntTwice(Twice(Twice(d)), 4 * n);
  }

  lemma IntDigit(c: byte)
    requires IsOctal(c)
    ensures 48 <= Int(c) <= 55 && Int(Sub48(c)) == Int(c) - 48
  {
    OctalShape(c);
    hide Plus, Int, IsOctal, Between, Sub48;
    DigitCodes();
    Offsets();
    BetweenExact(48, c, 55);
    IntSum(c, 208);
  }

  /** One more octal digit. */
  lemma IntOctal(d: byte, n: nat, c: byte)
    requires Int(d) == n % 256 && IsOctal(c)
    ensures Int(Plus(Times8(d), Sub48(c))) == (8 * n + (Int(c) - 48)) % 256
  {
    hide Times8, Plus, Int, IsOctal, Sub48;
    IntDigit(c);
    IntTimes8(d, n);
    IntSum(Times8(d), Sub48(c));
    ModSum(8 * n, Int(c) - 48);
  }

  lemma LexIsOctal(s: seq<byte>)
    requires |s| >= 2 && 0 !in s && s[0] == BACKSLASH && IsOctal(s[1])
    ensures var a, b, c := Sub48(s[1]), At(s, 2), At(s, 3);
            var ab := Plus(Times8(a), Sub48(b));
            Lex(s) == if !IsOctal(b) then Item([a], 2)
                      else if !IsOctal(c) then Item([ab], 3)
                      else Item([Plus(Times8(ab), Sub48(c))], 4)
  {}

  /** One to three octal digits make a byte, their value taken mod 256. */
  lemma LexOctalExact(s: seq<byte>)
    requires |s| >= 2 && 0 !in s && s[0] == BACKSLASH && IsOctal(s[1])
    ensures var a, b, c := Int(s[1]) - '0' as int, Int(At(s, 2)) - '0' as int, Int(At(s, 3)) - '0' as int;
            && |Lex(s).out| == 1
            && (if !IsOctal(At(s, 2)) then Lex(s).used == 2 && Int(Lex(s).out[0]) == a
                else if !IsOctal(At(s, 3)) then Lex(s).used == 3 && Int(Lex(s).out[0]) == 8 * a + b
                else Lex(s).used == 4 && Int(Lex(s).out[0]) == (64 * a + 8 * b + c) % 256)
  {
    LexIsOctal(s);
    hide Lex, Int, IsOctal, Times8, Plus, Sub48, At;
    IntDigit(s[1]);
    var a, b, c := Int(s[1]) - 48, At(s, 2), At(s, 3);
    if IsOctal(b) {
      IntDigit(b);
      IntOctal(Sub48(s[1]), a, b);
      if IsOctal(c) {
        IntDigit(c);
        IntOctal(Plus(Times8(Sub48(s[1])), Sub48(b)), 8 * a + (Int(b) - 48), c);
      }
    }
  }

  lemma IsOctalExact(c: byte)
    ensures IsOctal(c) <==> '0' <= Int(c) as char <= '7'
  {
    OctalShape(c);
    hide Int, IsOctal, Between, Plus, Sub48;
    DigitCodes();
    BetweenExact(48, c, 55);
  }

  /** The other items: a plain character stands for itself, a backslash before one
      of the seven letters and signs for what it names, and a backslash before
      anything else, or at the end, for nothing. */
  lemma LexRestExact(s: seq<byte>)
    requires s != [] && 0 !in s
    ensures var first, c := Int(s[0]) as char, Int(At(s, 1)) as char;
            if first != '\\' then Lex(s) == Item([s[0]], 1)
            else if c == '\\' || c == '"' then Lex(s) == Item([At(s, 1)], 2)
            else if c == 'n' then Lex(s).used == 2 && |Lex(s).out| == 1 && Int(Lex(s).out[0]) == '\n' as int
            else if c == 'r' then Lex(s).used == 2 && |Lex(s).out| == 1 && Int(Lex(s).out[0]) == '\r' as int
            else if c == 't' then Lex(s).used == 2 && |Lex(s).out| == 1 && Int(Lex(s).out[0]) == '\t' as int
            else if c == 'e' then Lex(s).used == 2 && |Lex(s).out| == 1 && Int(Lex(s).out[0]) == 27
            else c == 'x' || '0' <= c <= '7' || Lex(s) == Item([], 1)
  {
    var c := At(s, 1);
    IsOctalExact(c);
    hide Int, LexHex, LexOctal, IsOctal, At;
    Codes();
    SameByte(s[0], 92);
    SameByte(c, 92);
    SameByte(c, 34);
    SameByte(c, 110);
    SameByte(c, 114);
    SameByte(c, 116);
    SameByte(c, 101);
    SameByte(c, 120);
  }

  // ---------------------------------------------------------------- round trip

  /** An escape decodes to its byte, whatever follows it. */
  lemma DecodeEscape(b: byte, rest: seq<byte>)
    requires 0 !in rest
    ensures 0 !in Escape(b) + rest
    ensures Decode(Escape(b) + rest) == [b] + Decode(rest)
  {
    var e := Escape(b);
    var s := e + rest;
    assert forall i | 0 <= i < |e| :: s[i] == e[i] && e[i] in e;
    assert Lex(s) == Item([b], |e|);
    assert s[|e|..] == rest;
  }

  /** A `\xHH` that loses its last digit decodes to its high nibble. */
  lemma DecodeCut(b: byte)
    requires |Escape(b)| == 4
    ensures Decode(Escape(b)[..3]) == [b >> 4]
  {
    var t := Escape(b)[..3];
    assert t == [BACKSLASH, LETTER_X, HexDigit(b >> 4)];
    assert Lex(t) == Item([b >> 4], 3);
    assert t[3..] == [];
  }

  lemma {:induction false} DecodePrinted(d: seq<byte>, room: int)
    ensures Decode(Printed(d, room)) == Recovered(d, room)
    decreases |d|
  {
    if d != [] && room >= 4 {
      var e := Escape(d[0]);
      if |e| == 4 && room == 4 {
        DecodeCut(d[0]);
      } else {
        DecodePrinted(d[1..], room - |e|);
        DecodeEscape(d[0], Printed(d[1..], room - |e|));
      }
    }
  }

  /** What decoding recovers, read off the printer byte by byte. */
  function Recovered(d: seq<byte>, room: int): seq<byte> {
    if d == [] || room < 4 then []
    else if |Escape(d[0])| == 4 && room == 4 then [d[0] >> 4]
    else [d[0]] + Recovered(d[1..], room - |Escape(d[0])|)
  }

  /** The first `k` bytes, the last one reduced to its high nibble when `cut`. */
  function Prefix(d: seq<byte>, k: nat, cut: bool): seq<byte>
    requires k <= |d| && (cut ==> k > 0)
  {
    if cut then d[..k - 1] + [d[k - 1] >> 4] else d[..k]
  }

  lemma PrefixStep(d: seq<byte>, k: nat, cut: bool)
    requires 0 < k <= |d| && (cut ==> k > 1)
    ensures Prefix(d, k, cut) == [d[0]] + Prefix(d[1..], k - 1, cut)
    ensures Print(d[..k]) == Escape(d[0]) + Print(d[1..][..k - 1])
  {
    assert d[..k][1..] == d[1..][..k - 1];
  }

  lemma {:induction false} RecoveredExact(d: seq<byte>, room: int)
    ensures var k := Consumed(d, room);
            Recovered(d, room) == Prefix(d, k, k > 0 && |Print(d[..k])| == room)
    decreases |d|
  {
    var k := Consumed(d, room);
    if k > 0 {
      var rest, left := d[1..], room - |Escape(d[0])|;
      if k == 1 {
        PrefixStep(d, 1, false);
        assert rest[..0] == [];
        assert Prefix(rest, 0, false) == [];
        assert Recovered(rest, left) == [] by { RecoveredExact(rest, left); }
        assert Consumed(rest, left) == 0;
      } else {
        RecoveredExact(rest, left);
        PrefixStep(d, k, |Print(d[..k])| == room);
        assert Consumed(rest, left) == k - 1;
        assert Recovered(d, room) == [d[0]] + Recovered(rest, left);
      }
    }
  }

  /** Exact truncation. The printer consumes precisely the bytes whose escapes
      start at most at room-4; decoding gives them back, except that a `\xHH`
      that starts exactly at room-4 leaves only its high nibble. */
  lemma TruncationExact(d: seq<byte>, room: int)
    ensures var k := Consumed(d, room);
            && (forall i | 0 <= i < k :: |Print(d[..i])| + 4 <= room)
            && (k < |d| ==> |Print(d[..k])| + 4 > room)
            && Decode(Printed(d, room)) ==
               Prefix(d, k, k > 0 && |Print(d[..k])| == room)
  {
    ConsumedExact(d, room);
    DecodePrinted(d, room);
    RecoveredExact(d, room);
  }

  lemma {:induction false} PrintSnoc(d: seq<byte>, i: nat)
    requires i < |d|
    ensures Print(d[..i + 1]) == Print(d[..i]) + Escape(d[i])
  {
    hide Escape;
    assert d[..i + 1][1..] == d[1..i + 1];
    if i > 0 {
      assert d[..i][1..] == d[1..i];
      assert d[1..][..i] == d[1..i + 1] && d[1..][..i - 1] == d[1..i];
      PrintSnoc(d[1..], i - 1);
    }
  }

  lemma {:induction false} PrintGrows(d: seq<byte>, i: nat, j: nat)
    requires i <= j <= |d|
    ensures |Print(d[..i])| + (j - i) <= |Print(d[..j])| <= |Print(d[..i])| + 4 * (j - i)
  {
    hide Escape;
    if i < j {
      PrintSnoc(d, j - 1);
      PrintGrows(d, i, j - 1);
    }
  }

  /** Which prefix is consumed: every escape up to there starts at most at
      room-4, and the next one, if any, does not. */
  lemma {:induction false} ConsumedExact(d: seq<byte>, room: int)
    ensures var k := Consumed(d, room);
            && (forall i | 0 <= i < k :: |Print(d[..i])| + 4 <= room)
            && (k < |d| ==> |Print(d[..k])| + 4 > room)
    decreases |d|
  {
    var k := Consumed(d, room);
    if k == 0 {
      assert d[..0] == [];
    } else {
      var rest, left := d[1..], room - |Escape(d[0])|;
      ConsumedExact(rest, left);
      forall i | 0 <= i < k ensures |Print(d[..i])| + 4 <= room {
        if i > 0 { assert d[..i][1..] == rest[..i - 1]; }
      }
      assert d[..k][1..] == rest[..k - 1];
    }
  }

  /** What a caller can check before encoding `d` with `room` characters: the
      last escape starts in time, and either fits with a character to spare or
      belongs to byte 0, whose high nibble is its value. */
  predicate Fits(d: seq<byte>, room: int) {
    d == [] ||
    (|Print(d[..|d| - 1])| + 4 <= room && (|Print(d)| < room || d[|d| - 1] == 0))
  }

  lemma NibbleOfZero(b: byte)
    requires |Escape(b)| == 4
    ensures (b >> 4) == b <==> b == 0
  {}

  lemma FitsAll(d: seq<byte>, room: int)
    requires d != [] && Consumed(d, room) == |d|
    ensures Fits(d, room) <==> Prefix(d, |d|, |Print(d)| == room) == d
    ensures |Print(d)| <= room
  {
    hide Escape;
    var n := |d|;
    ConsumedExact(d, room);
    assert |Print(d[..n - 1])| + 4 <= room;
    assert d[..n] == d;
    PrintSnoc(d, n - 1);
    if |Print(d)| == room {
      NibbleOfZero(d[n - 1]);
      var p := Prefix(d, n, true);
      assert p[n - 1] == d[n - 1] >> 4;
      assert p == d <==> p[n - 1] == d[n - 1];
    }
  }

  lemma FitsSome(d: seq<byte>, room: int)
    requires d != [] && Consumed(d, room) < |d|
    ensures !Fits(d, room)
  {
    ConsumedExact(d, room);
    PrintGrows(d, Consumed(d, room), |d| - 1);
  }

  /** The codec gives `d` back exactly when `d` fits. */
  lemma RoundTripExact(d: seq<byte>, room: int)
    ensures Decode(Printed(d, room)) == d <==> Fits(d, room)
  {
    hide Escape, Print, Printed, Decode, Fits, Recovered;
    var k := Consumed(d, room);
    TruncationExact(d, room);
    if d == [] {
      NothingFits(room);
    } else if k == |d| {
      assert d[..k] == d;
      FitsAll(d, room);
    } else {
      FitsSome(d, room);
      assert |Decode(Printed(d, room))| == k;
    }
  }

  lemma NothingFits(room: int)
    ensures Fits([], room) && Decode(Printed([], room)) == []
  {}

  /** The sizes the class uses: any text of at most 124 characters, so any 31 bytes,
      survives the 127-character string and the 128-byte buffer. */
  lemma RoundTripShort(d: seq<byte>)
    requires |Print(d)| <= 124 || |d| <= 31
    ensures Take(Decode(Printed(d, STRING_LEN - 1)), BYTE_STREAM_LEN) == d && STRING_LEN - 1 == 127
  {
    hide Escape, Decode, Printed;
    assert d[..0] == [] && d[..|d|] == d;
    PrintGrows(d, 0, |d|);
    if d != [] {
      PrintGrows(d, |d| - 1, |d|);
    }
    RoundTripExact(d, STRING_LEN - 1);
  }

  // ---------------------------------------------------------------- plain text

  /** Printable characters other than the quote and the backslash. */
  predicate Plain(d: seq<byte>) {
    forall b | b in d :: 32 <= Int(b) <= 127 && Int(b) as char != '"' && Int(b) as char != '\\'
  }

  lemma EscapePlain(b: byte)
    requires 32 <= Int(b) <= 127 && Int(b) as char != '"' && Int(b) as char != '\\'
    ensures Escape(b) == [b]
  {
    hide Int;
    Codes();
    SameByte(b, 34);
    SameByte(b, 92);
    SameByte(b, 27);
    SameByte(b, 10);
    SameByte(b, 13);
    SameByte(b, 9);
    PrintableExact(b);
  }

  lemma PlainTail(d: seq<byte>)
    requires Plain(d) && d != []
    ensures Escape(d[0]) == [d[0]] && Plain(d[1..])
  {
    assert d[0] in d && forall b | b in d[1..] :: b in d;
    EscapePlain(d[0]);
  }

  lemma TakeStep(d: seq<byte>, room: int)
    requires d != [] && room >= 4
    ensures [d[0]] + (if room < 5 then [] else Take(d[1..], room - 4)) == Take(d, room - 3)
  {}

  /** Plain text is printed as it is, up to three characters short of the room. */
  lemma {:induction false} PrintedPlain(d: seq<byte>, room: int)
    requires Plain(d)
    ensures Printed(d, room) == if room < 4 then [] else Take(d, room - 3)
    decreases |d|
  {
    hide Escape, Int, Plain;
    if d != [] && room >= 4 {
      PlainTail(d);
      PrintedPlain(d[1..], room - 1);
      hide Take;
      TakeStep(d, room);
    }
  }

  // ---------------------------------------------------------------- quoting

  /** The text between quotes as a reader scans it: a backslash protects the
      next character, the first unprotected quote closes. */
  function ClosingQuote(s: seq<byte>, i: nat): (q: Option<nat>)
    ensures q.Some? ==> i <= q.value < |s| && s[q.value] == QUOTE
    decreases |s| - i
  {
    if i >= |s| then None
    else if s[i] == BACKSLASH then ClosingQuote(s, i + 2)
    else if s[i] == QUOTE then Some(i)
    else ClosingQuote(s, i + 1)
  }

  /** `s` continues at `i` with the first `n` characters of `t`. */
  predicate ReadsAt(s: seq<byte>, i: nat, t: seq<byte>, n: nat) {
    n <= |t| && i + n <= |s| && forall j | 0 <= j < n :: s[i + j] == t[j]
  }

  /** A scan that starts on an escape of a printed byte passes over it. */
  lemma ScanEscape(s: seq<byte>, i: nat, b: byte, n: nat)
    requires ReadsAt(s, i, Escape(b), n)
    requires n == |Escape(b)| || i + n == |s| || n == 3
    ensures ClosingQuote(s, i) == ClosingQuote(s, i + n)
  {
    if n > 0 {
      var e := Escape(b);
      assert s[i] == e[0];
      if |e| > 1 {
        assert e[0] == BACKSLASH;
        if n > 1 { ScanDigits(s, i, b, n); }
      }
    }
  }

  /** The digits of a `\xHH` neither close the text nor protect anything. */
  lemma ScanDigits(s: seq<byte>, i: nat, b: byte, n: nat)
    requires |Escape(b)| > 1 && n > 1 && ReadsAt(s, i, Escape(b), n)
    ensures ClosingQuote(s, i + 2) == ClosingQuote(s, i + n)
  {
    if n > 2 {
      assert Escape(b)[2] == HexDigit(b >> 4);
      if n > 3 { assert Escape(b)[3] == HexDigit(b & 15); }
    }
  }

  /** No quote inside printed text closes it, even when the text is cut short
      anywhere: a scan through its first `n` characters ends at their end. */
  lemma {:induction false} ScanPrinted(s: seq<byte>, i: nat, d: seq<byte>, room: int, n: nat)
    requires ReadsAt(s, i, Printed(d, room), n)
    requires n == |Printed(d, room)| || i + n == |s|
    ensures ClosingQuote(s, i) == ClosingQuote(s, i + n)
    decreases |d|
  {
    hide Escape, ClosingQuote;
    if n > 0 {
      var e := Escape(d[0]);
      if |e| == 4 && room == 4 {
        ReadsPart(s, i, Printed(d, room), n, e, n);
        ScanEscape(s, i, d[0], n);
      } else {
        var rest := Printed(d[1..], room - |e|);
        var m := if n < |e| then n else |e|;
        ReadsPart(s, i, e + rest, n, e, m);
        ScanEscape(s, i, d[0], m);
        if n > |e| {
          ReadsRest(s, i, e, rest, n);
          ScanPrinted(s, i + |e|, d[1..], room - |e|, n - |e|);
        }
      }
    }
  }

  lemma ReadsPart(s: seq<byte>, i: nat, t: seq<byte>, n: nat, e: seq<byte>, m: nat)
    requires ReadsAt(s, i, t, n) && m <= n && m <= |e|
    requires forall j | 0 <= j < m :: t[j] == e[j]
    ensures ReadsAt(s, i, e, m)
  {
    forall j | 0 <= j < m ensures s[i + j] == e[j] {
      assert t[j] == e[j];
    }
  }

  lemma ReadsRest(s: seq<byte>, i: nat, e: seq<byte>, rest: seq<byte>, n: nat)
    requires ReadsAt(s, i, e + rest, n) && |e| <= n
    ensures ReadsAt(s, i + |e|, rest, n - |e|)
  {
    forall j | 0 <= j < n - |e| ensures s[i + |e| + j] == rest[j] {
      assert (e + rest)[|e| + j] == rest[j];
    }
  }

  /** `snprintf(buf, size, ""%s"", text)`: quoted, then cut to the buffer. */
  function Quoted(text: seq<byte>, size: nat): seq<byte>
    requires size > 0
  {
    Take([QUOTE] + text + [QUOTE], size - 1)
  }

  /** Quoting is unambiguous exactly when the text leaves room for both quotes:
      then the scan that starts after the opening quote stops at the last
      character; otherwise it finds no closing quote at all. */
  lemma QuotedScan(d: seq<byte>, room: int, size: nat)
    requires size > 1
    ensures var text := Printed(d, room);
            var q := Quoted(text, size);
            ClosingQuote(q, 1) == (if |text| + 2 < size then Some(|q| - 1) else None)
  {
    var text := Printed(d, room);
    var q := Quoted(text, size);
    var n := if |text| + 1 < size then |text| else size - 2;
    ScanPrinted(q, 1, d, room, n);
  }

  // ---------------------------------------------------------------- the class

  /** `hex2byte`: two digits at `pos`; the second is read only after the first
      proved to be a digit, so the read stays before the NUL or on it. */
  function Hex2Byte(str: seq<byte>, pos: nat): Option<byte>
    requires IsCString(str) && pos < |str|
  {
    match Hex2Num(str[pos])
    case None => None
    case Some(a) =>
      match Hex2Num(str[pos + 1])
      case None => None
      case Some(b) => Some((a << 4) | b)
  }

  /** The digits after an optional `0x` or `0X`, with the NUL. */
  function HexDigits(str: seq<byte>): (ptr: seq<byte>)
    requires IsCString(str)
    ensures IsCString(ptr) && |ptr| <= |str|
  {
    if |str| > 2 && str[0] == 48 && (str[1] == LETTER_X || str[1] == 88) then
      assert str[2..][..|str| - 3] == str[..|str| - 1][2..];
      str[2..]
    else str
  }

  class RWifiSsidPasswd {
    const mByteArray: array<byte>
    const mString: array<byte>
    const mSSIDFormat: array<byte>
    const mPwdFormat: array<byte>

    ghost predicate Valid()
      reads this
    {
      && mByteArray.Length == BYTE_STREAM_LEN && mString.Length == STRING_LEN
      && mSSIDFormat.Length == SSID_FORMAT_LEN && mPwdFormat.Length == PWD_FORMAT_LEN
      && mByteArray != mString && mByteArray != mSSIDFormat && mByteArray != mPwdFormat
      && mString != mSSIDFormat && mString != mPwdFormat && mSSIDFormat != mPwdFormat
    }

    constructor ()
      ensures Valid() && fresh(mByteArray) && fresh(mString) && fresh(mSSIDFormat) && fresh(mPwdFormat)
    {
      mByteArray := new byte[BYTE_STREAM_LEN](_ => 0);
      mString := new byte[STRING_LEN](_ => 0);
      mSSIDFormat := new byte[SSID_FORMAT_LEN](_ => 0);
      mPwdFormat := new byte[PWD_FORMAT_LEN](_ => 0);
    }

    /** The case of the switch after `\x`: two digits, one, or none. */
    static method DecodeHex(str: seq<byte>, pos: nat) returns (val: Option<byte>, pos': nat)
      requires IsCString(str) && 2 <= pos < |str| && 0 !in str[pos - 2..|str| - 1] && pos <= |str| - 1
      ensures var rest := str[pos - 2..|str| - 1];
              && |rest| >= 2 && pos <= pos'
              && LexHex(rest) == Item(if val.Some? then [val.value] else [], pos' - pos + 2)
    {
      ghost var rest := str[pos - 2..|str| - 1];
      assert At(rest, 2) == str[pos] && (pos < |str| - 1 ==> At(rest, 3) == str[pos + 1]);
      pos' := pos;
      val := Hex2Byte(str, pos');
      if val == None {
        val := Hex2Num(str[pos']);
        pos' := if val == None then pos' else pos' + 1;
      } else {
        pos' := pos' + 2;
      }
    }

    /** The case of one to three octal digits, added up in an int and cut to a byte
        when it is stored. */
    static method DecodeOctal(str: seq<byte>, pos: nat) returns (val: byte, pos': nat)
      requires IsCString(str) && 1 <= pos < |str| && IsOctal(str[pos]) && 0 !in str[pos - 1..|str| - 1]
      ensures var rest := str[pos - 1..|str| - 1];
              && |rest| >= 2 && IsOctal(rest[1]) && pos <= pos'
              && LexOctal(rest) == Item([val], pos' - pos + 1)
    {
      ghost var rest := str[pos - 1..|str| - 1];
      assert rest[1] == str[pos] && At(rest, 2) == str[pos + 1] && (pos + 2 < |str| ==> At(rest, 3) == str[pos + 2]);
      var v := str[pos] as bv16 - 48;
      pos' := pos + 1;
      if IsOctal(str[pos']) {
        v, pos' := v * 8 + (str[pos'] as bv16 - 48), pos' + 1;
      }
      if IsOctal(str[pos']) {
        v, pos' := v * 8 + (str[pos'] as bv16 - 48), pos' + 1;
      }
      val := (v & 0xFF) as byte;
    }

    /** The switch of the decoding loop: the byte, if any, of one item of the escape
        grammar, and where the next item starts. */
    static method TakeItem(str: seq<byte>, pos: nat) returns (val: Option<byte>, pos': nat)
      requires IsCString(str) && pos < |str| && str[pos] != 0 && 0 !in str[pos..|str| - 1]
      ensures pos <= pos' && pos < |str| - 1
      ensures Lex(str[pos..|str| - 1]) == Item(if val.Some? then [val.value] else [], pos' - pos)
    {
      hide LexHex, LexOctal, Hex2Num;
      ghost var rest := str[pos..|str| - 1];
      assert |rest| > 0 && rest[0] == str[pos] && At(rest, 1) == str[pos + 1];
      val, pos' := None, pos;
      if str[pos'] == BACKSLASH {
        pos' := pos' + 1;
        if str[pos'] == BACKSLASH || str[pos'] == QUOTE {
          val, pos' := Some(str[pos']), pos' + 1;
        } else if str[pos'] == LETTER_N {
          val, pos' := Some(LF), pos' + 1;
        } else if str[pos'] == LETTER_R {
          val, pos' := Some(CR), pos' + 1;
        } else if str[pos'] == LETTER_T {
          val, pos' := Some(TAB), pos' + 1;
        } else if str[pos'] == LETTER_E {
          val, pos' := Some(ESC), pos' + 1;
        } else if str[pos'] == LETTER_X {
          val, pos' := DecodeHex(str, pos' + 1);
        } else if IsOctal(str[pos']) {
          var v;
          v, pos' := DecodeOctal(str, pos');
          val := Some(v);
        }
      } else {
        val, pos' := Some(str[pos']), pos' + 1;
      }
    }

    /** One round of the decoding loop: one item is taken from `pos` and its byte,
        if it has one, stored at `len`. */
    static method DecodeItem(buf: array<byte>, len: nat, str: seq<byte>, pos: nat) returns (len': nat, pos': nat)
      requires len < buf.Length && IsCString(str) && pos < |str| && str[pos] != 0
      modifies buf
      ensures 0 !in str[pos..|str| - 1]
      ensures var item := Lex(str[pos..|str| - 1]);
              && pos' == pos + item.used
              && len' == len + |item.out| <= buf.Length
              && buf[..len'] == old(buf[..len]) + item.out
      ensures forall i | len' <= i < buf.Length :: buf[i] == old(buf[i])
    {
      hide Lex;
      CStringTail(str, pos);
      var val;
      val, pos' := TakeItem(str, pos);
      len' := len;
      if val.Some? {
        buf[len'] := val.value;
        len' := len' + 1;
      }
    }

    /** Decoding: the bytes written are the first `maxlen` the text stands for,
        nothing after them changes, and no read passes the NUL. */
    static method ConvertToBytes(buf: array<byte>, maxlen: nat, str: seq<byte>) returns (len: nat)
      requires maxlen <= buf.Length && IsCString(str)
      modifies buf
      ensures var out := Take(Decode(str[..|str| - 1]), maxlen);
              len == |out| && buf[..len] == out
      ensures forall i | len <= i < buf.Length :: buf[i] == old(buf[i])
    {
      hide Lex, CStr, Decode, Take, DecodedSoFar;
      ghost var c := str[..|str| - 1];
      var pos := 0;
      len := 0;
      DecodeStart(c);
      assert buf[..0] == [];
      while str[pos] != 0
        invariant pos <= |c| && len <= maxlen && DecodedSoFar(c, pos, buf[..len])
        invariant forall i | len <= i < buf.Length :: buf[i] == old(buf[i])
        decreases |c| - pos
      {
        if len == maxlen { break; }
        assert str[pos..|str| - 1] == c[pos..];
        DecodeNext(c, pos, buf[..len]);
        len, pos := DecodeItem(buf, len, str, pos);
      }
      DecodeDone(c, pos, buf[..len], maxlen);
    }

    /** `snprintf(txt + off, size, "\\x%02x", b)`: the four characters, cut to
        size-1 and closed with NUL; the result counts what was asked for. */
    static method SnprintfHex(txt: array<byte>, off: nat, size: nat, b: byte) returns (r: nat)
      requires 4 <= size && off + size <= txt.Length
      modifies txt
      ensures r == 4
      ensures txt[off] == BACKSLASH && txt[off + 1] == LETTER_X && txt[off + 2] == HexDigit(b >> 4)
      ensures size == 4 ==> txt[off + 3] == 0
      ensures size > 4 ==> txt[off + 3] == HexDigit(b & 15)
      ensures forall j | 0 <= j < txt.Length && !(off <= j < off + size) :: txt[j] == old(txt[j])
    {
      txt[off], txt[off + 1], txt[off + 2] := BACKSLASH, LETTER_X, HexDigit(b >> 4);
      if size == 4 {
        txt[off + 3] := 0;
      } else {
        txt[off + 3], txt[off + 4] := HexDigit(b & 15), 0;
      }
      r := 4;
    }

    /** The switch of the printing loop, with `room` characters left before the
        end. Only an escape that would fill the room exactly is cut. */
    static method PutEscape(txt: array<byte>, off: nat, room: nat, b: byte) returns (off': nat)
      requires 4 <= room && off + room < txt.Length
      modifies txt
      ensures off' == off + |Escape(b)|
      ensures var shown := if |Escape(b)| == 4 && room == 4 then 3 else |Escape(b)|;
              && txt[..off + shown] == old(txt[..off]) + Escape(b)[..shown]
              && (shown == 3 ==> txt[off + 3] == 0)
      ensures forall j | off + room <= j < txt.Length :: txt[j] == old(txt[j])
    {
      ghost var before, e := txt[..], Escape(b);
      off' := off + 2;
      if b == QUOTE {
        txt[off], txt[off + 1] := BACKSLASH, QUOTE;
      } else if b == BACKSLASH {
        txt[off], txt[off + 1] := BACKSLASH, BACKSLASH;
      } else if b == ESC {
        txt[off], txt[off + 1] := BACKSLASH, LETTER_E;
      } else if b == LF {
        txt[off], txt[off + 1] := BACKSLASH, LETTER_N;
      } else if b == CR {
        txt[off], txt[off + 1] := BACKSLASH, LETTER_R;
      } else if b == TAB {
        txt[off], txt[off + 1] := BACKSLASH, LETTER_T;
      } else if 32 <= b <= 127 {
        txt[off] := b;
        off' := off + 1;
      } else {
        var r := SnprintfHex(txt, off, room, b);
        off' := off + r;
      }
      ghost var shown := if |e| == 4 && room == 4 then 3 else |e|;
      assert forall j | 0 <= j < off :: txt[j] == before[j];
      assert off' == off + |e| && forall j | 0 <= j < shown :: txt[off + j] == e[j];
      Appended(before, txt[..], off, e, shown);
      assert txt[..][..off + shown] == txt[..off + shown];
    }

    /** Printing: the C string left in `txt` is the specified text, and nothing
        after `txt[maxlen]` is written. */
    static method ConvertToString(txt: array<byte>, maxlen: nat, data: seq<byte>)
      requires maxlen < txt.Length
      modifies txt
      ensures CStr(txt[..]) == Printed(data, maxlen)
      ensures forall j | maxlen < j < txt.Length :: txt[j] == old(txt[j])
    {
      hide Escape, Printed, CStr, PrintedSoFar;
      ghost var all := Printed(data, maxlen);
      var off: nat := 0;
      var i := 0;
      PrintStart(txt[..], maxlen, data);
      while i < |data|
        invariant i <= |data| && off <= maxlen
        invariant PrintedSoFar(txt[..], off, maxlen, data[i..], all)
        invariant forall j | maxlen < j < txt.Length :: txt[j] == old(txt[j])
      {
        if off + 4 > maxlen { break; }
        ghost var before, from := txt[..], off;
        off := PutEscape(txt, off, maxlen - off, data[i]);
        PrintStep(before, txt[..], from, maxlen, data, i, all);
        i := i + 1;
      }
      PrintEnd(txt[..], off, maxlen, data[i..], all);
      txt[off] := 0;
    }

    /** `snprintf(buf, size, "\"%s\"", text)`. */
    static method SnprintfQuoted(buf: array<byte>, size: nat, text: seq<byte>)
      requires 1 < size <= buf.Length && 0 !in text
      modifies buf
      ensures CStr(buf[..]) == Quoted(text, size)
    {
      var full := [QUOTE] + text + [QUOTE];
      var i := 0;
      while i < |full| && i < size - 1
        invariant 0 <= i <= |full| && i <= size - 1
        invariant buf[..i] == full[..i]
      {
        buf[i] := full[i];
        i := i + 1;
      }
      buf[i] := 0;
      CStrOf(buf[..], Quoted(text, size));
    }

    /** The printed text of `data` in the 128-byte string, null for null. */
    method GetStringFromBytes(data: Option<seq<byte>>) returns (r: array?<byte>)
      requires Valid()
      modifies mString
      ensures data == None <==> r == null
      ensures r != null ==> r == mString && CStr(mString[..]) == Printed(data.value, STRING_LEN - 1)
      ensures r != null && Plain(data.value) ==> CStr(mString[..]) == Take(data.value, 124)
    {
      hide Printed, Plain;
      if data == None { return null; }
      forall i | 0 <= i < mString.Length { mString[i] := 0; }
      ConvertToString(mString, STRING_LEN - 1, data.value);
      if Plain(data.value) { PrintedPlain(data.value, STRING_LEN - 1); }
      r := mString;
    }

    /** The decoded bytes of an escaped string; their number replaces
        `outBytesLen`. Bytes that fit the printer's string come back intact. */
    method GetBytesFromAscii(ascii: Option<seq<byte>>, outBytesLen: nat) returns (r: array?<byte>, len: nat)
      requires Valid() && (ascii.Some? ==> IsCString(ascii.value))
      modifies mByteArray
      ensures ascii == None ==> r == null && len == outBytesLen
      ensures ascii.Some? ==>
                var out := Take(Decode(ascii.value[..|ascii.value| - 1]), BYTE_STREAM_LEN);
                r == mByteArray && len == |out| && mByteArray[..len] == out
    {
      if ascii == None { return null, outBytesLen; }
      len := ConvertToBytes(mByteArray, BYTE_STREAM_LEN, ascii.value);
      r := mByteArray;
    }

    /** A quoted SSID is never cut: the scan after the opening quote closes at the
        last character, and what lies between decodes to the SSID whenever that
        fits the 127-character string; an SSID of plain characters stands there as
        it is. Null exactly for the empty SSID. */
    method GetSSIDFormat(ssid: seq<byte>) returns (r: array?<byte>)
      requires Valid() && IsCString(ssid)
      modifies mString, mSSIDFormat
      ensures r == null <==> |ssid| == 1
      ensures r != null ==>
                var d := ssid[..|ssid| - 1];
                var q := CStr(mSSIDFormat[..]);
                && r == mSSIDFormat
                && q == [QUOTE] + Printed(d, STRING_LEN - 1) + [QUOTE]
                && ClosingQuote(q, 1) == Some(|q| - 1)
                && (Decode(q[1..|q| - 1]) == d <==> Fits(d, STRING_LEN - 1))
                && (Plain(d) ==> q == [QUOTE] + Take(d, 124) + [QUOTE])
    {
      hide Escape, CStr, ClosingQuote, Decode, Fits, Plain;
      ghost var d := ssid[..|ssid| - 1];
      var str := GetStringFromBytes(Some(ssid[..|ssid| - 1]));
      var text := CStr(str[..]);
      FirstIsPrinted(d, STRING_LEN - 1);
      if |text| == 0 { return null; }
      forall i | 0 <= i < mSSIDFormat.Length { mSSIDFormat[i] := 0; }
      SnprintfQuoted(mSSIDFormat, SSID_FORMAT_LEN, text);
      QuotedScan(d, STRING_LEN - 1, SSID_FORMAT_LEN);
      RoundTripExact(d, STRING_LEN - 1);
      ghost var q := CStr(mSSIDFormat[..]);
      assert q[1..|q| - 1] == text;
      r := mSSIDFormat;
    }

    /** A quoted password goes through a 32-byte buffer: it keeps its closing quote
        exactly when the escaped text has at most 29 characters; for a password of
        plain characters that is the password itself. */
    method GetPwdFormat(passwd: seq<byte>) returns (r: array?<byte>)
      requires Valid() && IsCString(passwd)
      modifies mString, mPwdFormat
      ensures r == null <==> |passwd| == 1
      ensures r != null ==>
                var text := Printed(passwd[..|passwd| - 1], STRING_LEN - 1);
                var q := CStr(mPwdFormat[..]);
                && r == mPwdFormat
                && q == Take([QUOTE] + text + [QUOTE], PWD_FORMAT_LEN - 1)
                && ClosingQuote(q, 1) == (if |text| <= 29 then Some(|q| - 1) else None)
                && (Plain(passwd[..|passwd| - 1]) ==> text == Take(passwd[..|passwd| - 1], 124))
    {
      hide Escape, CStr, ClosingQuote, Plain;
      ghost var d := passwd[..|passwd| - 1];
      var str := GetStringFromBytes(Some(passwd[..|passwd| - 1]));
      var text := CStr(str[..]);
      FirstIsPrinted(d, STRING_LEN - 1);
      if |text| == 0 { return null; }
      forall i | 0 <= i < mPwdFormat.Length { mPwdFormat[i] := 0; }
      SnprintfQuoted(mPwdFormat, PWD_FORMAT_LEN, text);
      QuotedScan(d, STRING_LEN - 1, PWD_FORMAT_LEN);
      r := mPwdFormat;
    }

    /** `hexstr2bin`: succeeds exactly when 2*len digits are there before the
        NUL, and then stores their bytes. */
    static method HexStr2Bin(hex: seq<byte>, buf: array<byte>, len: nat) returns (ok: bool)
      requires IsCString(hex) && StaysInside(hex, len, buf.Length)
      modifies buf
      ensures ok <==> forall j | 0 <= j < 2 * len :: Hex2Num(At(hex, j)).Some?
      ensures ok ==> 2 * len < |hex| && len <= buf.Length && forall i | 0 <= i < len ::
                  Some(buf[i]) == Hex2Byte(hex, 2 * i)
    {
      ok := true;
      for i := 0 to len
        invariant 2 * i < |hex| && i <= buf.Length
        invariant forall j | 0 <= j < 2 * i :: Hex2Num(At(hex, j)).Some?
        invariant forall k | 0 <= k < i :: Some(buf[k]) == Hex2Byte(hex, 2 * k)
      {
        var a := Hex2Byte(hex, 2 * i);
        if a == None {
          assert Hex2Num(At(hex, 2 * i)).None? || Hex2Num(At(hex, 2 * i + 1)).None?;
          return false;
        }
        assert Hex2Num(At(hex, 2 * i)).Some? && Hex2Num(At(hex, 2 * i + 1)).Some?;
        buf[i] := a.value;
      }
    }

    /** The hexadecimal reader asks for two digits per character it was given, so
        it accepts nothing but the empty digit string. */
    method GetBytesFromHex(hexStr: Option<seq<byte>>, outBytesLen: nat) returns (r: array?<byte>, len: nat)
      requires Valid() && (hexStr.Some? ==>
                 IsCString(hexStr.value) &&
                 var ptr := HexDigits(hexStr.value); StaysInside(ptr, |ptr| - 1, BYTE_STREAM_LEN))
      modifies mByteArray
      ensures r != null <==> hexStr.Some? && Chars(hexStr.value) in {"\0", "0x\0", "0X\0"}
      ensures if r == null then len == outBytesLen else r == mByteArray && len == 0
    {
      if hexStr == None { return null, outBytesLen; }
      var ptr := HexDigits(hexStr.value);
      NoDigits(hexStr.value);
      var ok := HexStr2Bin(ptr, mByteArray, |ptr| - 1);
      if |ptr| > 1 {
        assert Hex2Num(At(ptr, |ptr| - 1)) == None;
      } else {
        assert ptr == [0];
      }
      if !ok { return null, outBytesLen; }
      return mByteArray, (|ptr| - 1) / 2;
    }
  }

  /** Which strings have no digit after the prefix. */
  lemma NoDigits(str: seq<byte>)
    requires IsCString(str)
    ensures HexDigits(str) == [0] <==> Chars(str) in {"\0", "0x\0", "0X\0"}
  {
    hide Int;
    Codes();
    DigitCodes();
    CapitalX();
    if |str| == 3 {
      assert Chars(str) == [Int(str[0]) as char, Int(str[1]) as char, Int(str[2]) as char];
      SameByte(str[0], 48);
      SameByte(str[1], 120);
      SameByte(str[1], 88);
      SameByte(str[2], 0);
      assert str == [str[0], str[1], str[2]];
    } else if |str| == 1 {
      assert Chars(str) == [Int(str[0]) as char];
      SameByte(str[0], 0);
      assert str == [str[0]];
    }
  }

  lemma CapitalX()
    ensures Int(88) == 88
  {}

  /** Reading `len` pairs of digits stays inside a buffer of `size` bytes: there are
      not more of them, or some character among the first size + 1 pairs is no
      digit and ends the reading. */
  predicate StaysInside(hex: seq<byte>, len: nat, size: nat) {
    len <= size || exists j | 0 <= j < 2 * (size + 1) :: Hex2Num(At(hex, j)).None?
  }

  /** Stores from `off` on append what they store. */
  lemma Appended(before: seq<byte>, after: seq<byte>, off: nat, e: seq<byte>, shown: nat)
    requires |before| == |after| && shown <= |e| && off + shown <= |after|
    requires forall j | 0 <= j < off :: after[j] == before[j]
    requires forall j | 0 <= j < shown :: after[off + j] == e[j]
    ensures after[..off + shown] == before[..off] + e[..shown]
  {
    assert after[..off] == before[..off];
    assert after[off..off + shown] == e[..shown];
    assert after[..off + shown] == after[..off] + after[off..off + shown];
  }

  lemma FirstIsPrinted(d: seq<byte>, room: int)
    requires room > 4
    ensures Printed(d, room) == [] <==> d == []
  {}

  /** The printing loop with `rest` still to print: `all` is what stands before
      `off` and the printed rest, or was completed by an escape cut at the end. */
  predicate PrintedSoFar(txt: seq<byte>, off: nat, maxlen: nat, rest: seq<byte>, all: seq<byte>) {
    && off <= maxlen < |txt|
    && (|| all == txt[..off] + Printed(rest, maxlen - off)
        || (off == maxlen > 0 && all == txt[..off - 1] && txt[off - 1] == 0))
  }

  lemma PrintStart(txt: seq<byte>, maxlen: nat, data: seq<byte>)
    requires maxlen < |txt|
    ensures PrintedSoFar(txt, 0, maxlen, data[0..], Printed(data, maxlen))
  {
    hide Printed;
    assert data[0..] == data;
  }

  lemma PrintStep(txt: seq<byte>, txt': seq<byte>, off: nat, maxlen: nat, data: seq<byte>, i: nat, all: seq<byte>)
    requires i < |data| && off + 4 <= maxlen && |txt'| == |txt| && PrintedSoFar(txt, off, maxlen, data[i..], all)
    requires var e := Escape(data[i]);
             var shown := if |e| == 4 && maxlen - off == 4 then 3 else |e|;
             txt'[..off + shown] == txt[..off] + e[..shown] && (shown == 3 ==> txt'[off + 3] == 0)
    ensures PrintedSoFar(txt', off + |Escape(data[i])|, maxlen, data[i + 1..], all)
  {
    hide Escape;
    var e := Escape(data[i]);
    assert data[i..][1..] == data[i + 1..];
    if |e| == 4 && maxlen - off == 4 {
      assert txt'[..off + 3] == txt[..off] + e[..3];
    } else {
      assert e[..|e|] == e;
      assert txt[..off] + (e + Printed(data[i + 1..], maxlen - off - |e|))
          == txt[..off] + e + Printed(data[i + 1..], maxlen - off - |e|);
    }
  }

  /** The final NUL leaves the specified string. */
  lemma PrintEnd(txt: seq<byte>, off: nat, maxlen: nat, rest: seq<byte>, all: seq<byte>)
    requires PrintedSoFar(txt, off, maxlen, rest, all) && (rest == [] || off + 4 > maxlen) && 0 !in all
    ensures CStr(txt[off := 0]) == all
  {
    hide CStr, Escape;
    var mem := txt[off := 0];
    if all == txt[..off] + Printed(rest, maxlen - off) {
      assert mem[..off] == txt[..off];
      CStrOf(mem, all);
    } else {
      assert mem[..off - 1] == txt[..off - 1];
      CStrOf(mem, all);
    }
  }

  /** The decoding loop at `pos`: what is done and what the rest stands for. */
  predicate DecodedSoFar(c: seq<byte>, pos: nat, done: seq<byte>)
    requires 0 !in c && pos <= |c|
  {
    Decode(c) == done + Decode(c[pos..])
  }

  lemma DecodeStart(c: seq<byte>)
    requires 0 !in c
    ensures DecodedSoFar(c, 0, [])
  {
    assert c[0..] == c;
  }

  /** The loop invariant of decoding survives one item. */
  lemma DecodeNext(c: seq<byte>, pos: nat, done: seq<byte>)
    requires 0 !in c && pos < |c| && DecodedSoFar(c, pos, done)
    ensures DecodedSoFar(c, pos + Lex(c[pos..]).used, done + Lex(c[pos..]).out)
  {
    hide Lex;
    var rest := c[pos..];
    var item := Lex(rest);
    assert rest[item.used..] == c[pos + item.used..];
    assert Decode(rest) == item.out + Decode(c[pos + item.used..]);
    assert done + (item.out + Decode(c[pos + item.used..])) == done + item.out + Decode(c[pos + item.used..]);
  }

  lemma DecodeDone(c: seq<byte>, pos: nat, done: seq<byte>, maxlen: nat)
    requires 0 !in c && pos <= |c| && DecodedSoFar(c, pos, done)
    requires |done| <= maxlen && (pos == |c| || |done| == maxlen)
    ensures done == Take(Decode(c), maxlen)
  {
    hide Lex;
  }

  lemma CStringTail(str: seq<byte>, pos: nat)
    requires IsCString(str) && pos < |str|
    ensures 0 !in str[pos..|str| - 1]
  {
    assert forall i | 0 <= i < |str| - 1 :: str[i] == str[..|str| - 1][i];
  }
}
