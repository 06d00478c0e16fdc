/** Decimal numbers in C strings: what atoi and strtol read, what %d prints. */
module Decimal {
  predicate IsDigit(c: char) { '0' <= c <= '9' }

  predicate IsSpace(c: char) { c == ' ' || '\t' <= c <= '\r' }

  function DigitValue(c: char): int
    requires IsDigit(c)
  {
    c as int - '0' as int
  }

  /** The value of the digits `s` begins with, after `acc`. */
  function Digits(s: string, acc: int): int {
    if s == "" || !IsDigit(s[0]) then acc else Digits(s[1..], acc * 10 + DigitValue(s[0]))
  }

  /** `atoi`: white space, a sign, digits; anything else ends the number. */
  function Atoi(s: string): int {
    if s != "" && IsSpace(s[0]) then Atoi(s[1..])
    else if s != "" && s[0] == '-' then -Digits(s[1..], 0)
    else if s != "" && s[0] == '+' then Digits(s[1..], 0)
    else Digits(s, 0)
  }

  function Digit(n: nat): char
    requires n < 10
  {
    "0123456789"[n]
  }

  /** A number in decimal. */
  function Itoa(n: nat): (s: string)
    ensures s != "" && forall c | c in s :: IsDigit(c)
  {
    if n < 10 then [Digit(n)] else Itoa(n / 10) + [Digit(n % 10)]
  }

  lemma {:induction false} DigitsSnoc(s: string, c: char, acc: int)
    requires IsDigit(c) && forall d | d in s :: IsDigit(d)
    ensures Digits(s + [c], acc) == Digits(s, acc) * 10 + DigitValue(c)
  {
    if s == "" {
      assert ([c] + "")[1..] == "";
      assert "" + [c] == [c];
    } else {
      assert (s + [c])[1..] == s[1..] + [c];
      DigitsSnoc(s[1..], c, acc * 10 + DigitValue(s[0]));
    }
  }

  lemma {:induction false} AtoiItoa(n: nat)
    ensures Atoi(Itoa(n)) == Digits(Itoa(n), 0) == n
  {
    if n < 10 {
      assert DigitValue(Digit(n)) == n;
      assert Itoa(n)[1..] == "";
    } else {
      AtoiItoa(n / 10);
      assert DigitValue(Digit(n % 10)) == n % 10;
      DigitsSnoc(Itoa(n / 10), Digit(n % 10), 0);
    }
    var s := Itoa(n);
    assert s[0] in s;
  }

  /** Whether `strtol` finds a number at the start of `s`: white space and a sign
      may come before the first digit. */
  predicate LeadsNumber(s: string) {
    if s != "" && IsSpace(s[0]) then LeadsNumber(s[1..])
    else if s != "" && (s[0] == '-' || s[0] == '+') then |s| > 1 && IsDigit(s[1])
    else s != "" && IsDigit(s[0])
  }

  const SPACES := " \t\n\U{0B}\U{0C}\r"

  /** White space at the start of a number is skipped. */
  lemma {:induction false} SkipSpaces(spaces: string, rest: string)
    requires forall c | c in spaces :: IsSpace(c)
    ensures Atoi(spaces + rest) == Atoi(rest) && (LeadsNumber(spaces + rest) <==> LeadsNumber(rest))
  {
    if spaces == "" {
      assert spaces + rest == rest;
    } else {
      assert spaces[0] in spaces && (spaces + rest)[1..] == spaces[1..] + rest;
      assert forall c | c in spaces[1..] :: c in spaces;
      SkipSpaces(spaces[1..], rest);
    }
  }

  /** A number ends at the first character that is no digit. */
  lemma {:induction false} DigitsEnd(digits: string, rest: string, acc: int)
    requires (forall c | c in digits :: IsDigit(c)) && (rest == "" || !IsDigit(rest[0]))
    ensures Digits(digits + rest, acc) == Digits(digits, acc)
  {
    if digits == "" {
      assert digits + rest == rest;
    } else {
      assert digits[0] in digits && (digits + rest)[1..] == digits[1..] + rest;
      assert forall c | c in digits[1..] :: c in digits;
      DigitsEnd(digits[1..], rest, acc * 10 + DigitValue(digits[0]));
    }
  }

  /** Numbers as they stand in text: white space, a sign or none, the digits, and
      whatever follows them. */
  lemma AtoiExact(spaces: string, n: nat, rest: string)
    requires (forall c | c in spaces :: c in SPACES) && (rest == "" || rest[0] !in "0123456789")
    ensures Atoi(spaces + (Itoa(n) + rest)) == n
    ensures Atoi(spaces + ("+" + (Itoa(n) + rest))) == n
    ensures Atoi(spaces + ("-" + (Itoa(n) + rest))) == 0 - n
  {
    SpacesAndDigits();
    var s := Itoa(n) + rest;
    AtoiItoa(n);
    DigitsEnd(Itoa(n), rest, 0);
    assert s[0] == Itoa(n)[0] && s[0] in Itoa(n);
    SkipSpaces(spaces, s);
    SkipSpaces(spaces, "+" + s);
    SkipSpaces(spaces, "-" + s);
    assert ("+" + s)[1..] == s && ("-" + s)[1..] == s;
  }

  lemma SpacesAndDigits()
    ensures forall c :: IsSpace(c) <==> c in SPACES
    ensures forall c :: IsDigit(c) <==> c in "0123456789"
  {}

  /** The first `i` characters are white space. */
  predicate Blank(s: string, i: nat) {
    i <= |s| && forall k | 0 <= k < i :: s[k] in SPACES
  }

  /** `s` has a digit at `i`, or a sign there and then a digit. */
  predicate NumberAt(s: string, i: nat) {
    i < |s| && (s[i] in "0123456789" || (s[i] in "+-" && i + 1 < |s| && s[i + 1] in "0123456789"))
  }

  /** A number leads exactly when a digit, or a sign and a digit, stands after
      nothing but white space. */
  lemma {:induction false} LeadsNumberExact(s: string)
    ensures LeadsNumber(s) <==> exists i: nat :: Blank(s, i) && NumberAt(s, i)
  {
    SpacesAndDigits();
    if s != "" && IsSpace(s[0]) {
      LeadsNumberExact(s[1..]);
      if i: nat :| Blank(s[1..], i) && NumberAt(s[1..], i) {
        assert Blank(s, i + 1) && NumberAt(s, i + 1);
      }
      if i: nat :| Blank(s, i) && NumberAt(s, i) {
        assert i > 0;
        assert Blank(s[1..], i - 1) && NumberAt(s[1..], i - 1);
      }
    } else {
      if LeadsNumber(s) { assert Blank(s, 0) && NumberAt(s, 0); }
      assert forall i: nat | Blank(s, i) :: i == 0 || s[0] in SPACES;
    }
  }
}
