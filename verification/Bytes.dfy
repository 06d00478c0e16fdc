/** Bytes and C strings, shared by every component that works on raw memory. */
module Bytes {

  /** `uint8_t` (and `char` in byte buffers): eight bits, arithmetic wraps. */
  type byte = bv8

  /** A byte as a number. */
  function Int(b: byte): (n: nat)
    ensures n < 256
  {
    b as int
  }

  /** The byte of value `n`, reached by counting: the solver then never has to
      convert between integers and bit-vectors. */
  function ToByte(n: nat): (b: byte)
    requires n < 256
    ensures Int(b) == n
  {
    if n == 0 then 0 else ToByte(n - 1) + 1
  }

  function Plus(a: byte, b: byte): byte { a + b }

  function Pred(b: byte): byte { b - 1 }

  predicate Below(a: byte, b: byte) { a < b }

  lemma PredFacts(a: byte, b: byte)
    requires b != 0
    ensures Int(b) == Int(Pred(b)) + 1
    ensures Below(a, b) <==> Below(a, Pred(b)) || a == Pred(b)
  {}

  lemma PlusPred(a: byte, b: byte)
    requires b != 0
    ensures Plus(a, b) == 0 <==> Plus(a, Pred(b)) == 255
    ensures Plus(a, b) != 0 ==> Pred(Plus(a, b)) == Plus(a, Pred(b))
  {}

  lemma IntEnds(b: byte)
    ensures Int(b) == 0 <==> b == 0
    ensures Int(255) == 255
    ensures Plus(b, 0) == b && !Below(b, 0)
  {}

  lemma SameInt(a: byte, b: byte)
    requires Int(a) == Int(b)
    ensures a == b
  {}

  /** Bytes are ordered as the numbers they stand for. */
  lemma {:induction false} IntOrder(a: byte, b: byte)
    ensures Below(a, b) <==> Int(a) < Int(b)
    decreases Int(b)
  {
    hide Int, Below, Pred;
    IntEnds(a);
    IntEnds(b);
    if b != 0 {
      PredFacts(a, b);
      IntOrder(a, Pred(b));
      if Int(a) == Int(Pred(b)) { SameInt(a, Pred(b)); }
    }
  }

  lemma ModNext(n: nat)
    ensures (n + 1) % 256 == if n % 256 == 255 then 0 else n % 256 + 1
  {}

  lemma ModSmall(n: nat)
    requires n < 256
    ensures n % 256 == n
  {}

  /** Addition wraps at 256. */
  lemma {:induction false} IntSum(a: byte, b: byte)
    ensures Int(Plus(a, b)) == (Int(a) + Int(b)) % 256
    decreases Int(b)
  {
    hide Int, Plus, Pred, Below;
    IntEnds(b);
    IntEnds(a);
    if b == 0 {
      ModSmall(Int(a));
    } else {
      PredFacts(a, b);
      PlusPred(a, b);
      IntSum(a, Pred(b));
      ModNext(Int(a) + Int(Pred(b)));
      SumNext(a, b);
    }
  }

  /** One more on the right is one more, or zero after 255. */
  lemma SumNext(a: byte, b: byte)
    requires b != 0
    ensures Int(Plus(a, b)) == var n := Int(Plus(a, Pred(b))); if n == 255 then 0 else n + 1
  {
    hide Int, Plus, Pred, Below;
    PlusPred(a, b);
    IntEnds(Plus(a, b));
    if Plus(a, b) != 0 {
      PredFacts(a, Plus(a, b));
    }
    if Int(Plus(a, Pred(b))) == 255 { IntEnds(0); SameInt(Plus(a, Pred(b)), 255); }
  }

  datatype Option<+T> = None | Some(value: T)

  /** The string a C reader sees in memory `mem`: everything before the first NUL. */
  function CStr(mem: seq<byte>): (s: seq<byte>)
    ensures |s| <= |mem| && s == mem[..|s|] && 0 !in s
    ensures |s| < |mem| ==> mem[|s|] == 0
  {
    if mem == [] || mem[0] == 0 then [] else [mem[0]] + CStr(mem[1..])
  }

  /** Memory holding exactly one C string: the only NUL is the last byte. */
  predicate IsCString(mem: seq<byte>) {
    |mem| > 0 && mem[|mem| - 1] == 0 && 0 !in mem[..|mem| - 1]
  }

  /** At most the first `n` elements. */
  function Take<T>(s: seq<T>, n: nat): seq<T> {
    if n < |s| then s[..n] else s
  }

  /** A C string that is written as `s` followed by NUL reads back as `s`. */
  lemma {:induction false} CStrOf(mem: seq<byte>, s: seq<byte>)
    requires |s| < |mem| && mem[..|s|] == s && mem[|s|] == 0 && 0 !in s
    ensures CStr(mem) == s
  {
    if s != [] {
      assert mem[0] == s[0] && s[0] in s;
      assert mem[1..][..|s| - 1] == s[1..];
      CStrOf(mem[1..], s[1..]);
    }
  }
}
