/** Commands for netd as lib/wifi/RNetdConnector.cpp prints them. */
module NetdCommand {
  import opened Bytes
  import opened Decimal

  // ---------------------------------------------------------------- printing

  /** An argument as printed: in quotes when it has a space. */
  function Quote(a: string): string {
    if ' ' in a then "\"" + a + "\"" else a
  }

  /** The arguments, separated by single spaces. */
  function Join(args: seq<string>): string
    requires args != []
  {
    if |args| == 1 then Quote(args[0]) else Quote(args[0]) + " " + Join(args[1..])
  }

  /** The arguments with the sequence number "0" in front when none is there. */
  function Numbered(args: seq<string>): seq<string>
    requires args != []
  {
    if LeadsNumber(args[0]) then args else ["0"] + args
  }

  predicate Quoteless(args: seq<string>) {
    forall a | a in args :: '"' !in a
  }

  // ---------------------------------------------------------------- splitting

  /** A quote-aware reader: spaces outside quotes separate, quotes vanish. */
  function Split(s: string, cur: string, quoted: bool): seq<string>
    decreases |s|
  {
    if s == "" then [cur]
    else if s[0] == '"' then Split(s[1..], cur, !quoted)
    else if s[0] == ' ' && !quoted then [cur] + Split(s[1..], "", false)
    else Split(s[1..], cur + [s[0]], quoted)
  }

  lemma {:induction false} SplitPlain(a: string, rest: string, cur: string, quoted: bool)
    requires '"' !in a && (quoted || ' ' !in a)
    ensures Split(a + rest, cur, quoted) == Split(rest, cur + a, quoted)
    decreases |a|
  {
    if a == "" {
      assert a + rest == rest && cur + a == cur;
    } else {
      assert (a + rest)[0] == a[0] && (a + rest)[1..] == a[1..] + rest;
      SplitPlain(a[1..], rest, cur + [a[0]], quoted);
      assert cur + [a[0]] + a[1..] == cur + a;
    }
  }

  lemma SplitQuote(a: string, rest: string)
    requires '"' !in a
    ensures Split(Quote(a) + rest, "", false) == Split(rest, a, false)
  {
    if ' ' in a {
      var tail := "\"" + rest;
      assert Quote(a) + rest == "\"" + (a + tail);
      assert ("\"" + (a + tail))[1..] == a + tail;
      SplitPlain(a, tail, "", true);
      assert tail[1..] == rest && "" + a == a;
    } else {
      SplitPlain(a, rest, "", false);
      assert "" + a == a;
    }
  }

  lemma {:induction false} SplitJoin(args: seq<string>)
    requires args != [] && Quoteless(args)
    ensures Split(Join(args), "", false) == args
    decreases |args|
  {
    var a := args[0];
    if |args| == 1 {
      SplitQuote(a, "");
      assert Quote(a) + "" == Quote(a);
    } else {
      var rest := Join(args[1..]);
      SplitQuote(a, " " + rest);
      assert Quote(a) + (" " + rest) == Join(args);
      assert (" " + rest)[1..] == rest;
      SplitJoin(args[1..]);
    }
  }

  /** How often a character stands in a string. */
  function CountOf(s: string, c: char): nat {
    if s == "" then 0 else (if s[0] == c then 1 else 0) + CountOf(s[1..], c)
  }

  lemma {:induction false} CountAppend(a: string, b: string, c: char)
    ensures CountOf(a + b, c) == CountOf(a, c) + CountOf(b, c)
  {
    if a == "" {
      assert a + b == b;
    } else {
      assert (a + b)[1..] == a[1..] + b;
      CountAppend(a[1..], b, c);
    }
  }

  lemma {:induction false} CountNone(s: string, c: char)
    requires c !in s
    ensures CountOf(s, c) == 0
  {
    if s != "" { CountNone(s[1..], c); }
  }

  /** How many arguments have a space. */
  function Spaced(args: seq<string>): nat {
    if args == [] then 0 else (if ' ' in args[0] then 1 else 0) + Spaced(args[1..])
  }

  /** Only arguments with a space are quoted: the command has two quotes for each of
      them and no other. */
  lemma {:induction false} QuotesExact(args: seq<string>)
    requires args != [] && Quoteless(args)
    ensures CountOf(Join(args), '"') == 2 * Spaced(args)
    decreases |args|
  {
    var a, q := args[0], "\"";
    CountNone(a, '"');
    assert CountOf(q, '"') == 1 + CountOf(q[1..], '"');
    CountAppend(q, a, '"');
    CountAppend(q + a, q, '"');
    assert CountOf(Quote(a), '"') == if ' ' in a then 2 else 0;
    if |args| == 1 {
      assert Spaced(args[1..]) == 0;
    } else {
      QuotesExact(args[1..]);
      CountNone(" ", '"');
      CountAppend(Quote(a), " ", '"');
      CountAppend(Quote(a) + " ", Join(args[1..]), '"');
    }
  }

  /** Whether the sequence number is added: exactly when no number leads the first
      argument. */
  lemma NumberedExact(args: seq<string>)
    requires args != []
    ensures Numbered(args) ==
              if exists i: nat :: Blank(args[0], i) && NumberAt(args[0], i) then args else ["0"] + args
  {
    LeadsNumberExact(args[0]);
  }

  /** Printing is invertible: whatever the arguments, empty ones included, as long
      as none has a quote, a quote-aware reader gets exactly them back, after the
      sequence number. */
  lemma CommandInvertible(args: seq<string>)
    requires args != [] && Quoteless(args)
    ensures Split(Join(Numbered(args)), "", false) == Numbered(args)
  {
    SplitJoin(Numbered(args));
  }

  /** Two argument lists that print alike are alike. */
  lemma CommandInjective(a: seq<string>, b: seq<string>)
    requires a != [] && b != [] && Quoteless(a) && Quoteless(b)
    requires Join(Numbered(a)) == Join(Numbered(b))
    ensures Numbered(a) == Numbered(b)
  {
    CommandInvertible(a);
    CommandInvertible(b);
  }

  // ---------------------------------------------------------------- the classes

  const ARG_LEN := 32
  const ARG_NUM := 32

  class RCommand {
    const mArgArray: array<string>
    var mArgNum: nat

    ghost predicate Valid()
      reads this, mArgArray
    {
      mArgArray.Length == ARG_NUM && mArgNum <= ARG_NUM
    }

    ghost function Args(): seq<string>
      requires Valid()
      reads this, mArgArray
    {
      mArgArray[..mArgNum]
    }

    /** The first two arguments are the sequence number and the command. */
    constructor (cmd: string, sn: nat)
      ensures Valid() && fresh(mArgArray)
      ensures Args() == [Take(Itoa(sn), ARG_LEN - 1), Take(cmd, ARG_LEN - 1)]
    {
      mArgArray := new string[ARG_NUM](_ => "");
      mArgNum := 0;
      new;
      var a := AppendArg(Itoa(sn));
      var b := AppendArg(cmd);
    }

    /** Keeps at most 31 characters of an argument and at most 32 arguments. */
    method AppendArg(arg: string) returns (r: int)
      requires Valid()
      modifies this`mArgNum, mArgArray
      ensures Valid()
      ensures old(mArgNum) == 32 ==> r == -1 && Args() == old(Args())
      ensures old(mArgNum) < 32 ==> r == 0 && Args() == old(Args()) + [Take(arg, 31)]
    {
      if mArgNum >= ARG_NUM { return -1; }
      mArgArray[mArgNum] := Take(arg, ARG_LEN - 1);
      mArgNum := mArgNum + 1;
      r := 0;
    }
  }

  lemma JoinSnoc(args: seq<string>, a: string)
    requires args != []
    ensures Join(args + [a]) == Join(args) + " " + Quote(a)
    decreases |args|
  {
    if |args| == 1 {
      assert (args + [a])[1..] == [a];
    } else {
      assert (args + [a])[1..] == args[1..] + [a];
      JoinSnoc(args[1..], a);
      assert Join(args + [a]) == Quote(args[0]) + " " + (Join(args[1..]) + " " + Quote(a));
    }
  }

  /** The string `doCommand` grows argument by argument; None, as soon as one has
      an embedded quote. */
  method BuildCommand(argv: seq<string>) returns (r: Option<string>)
    requires argv != []
    ensures r == if Quoteless(argv) then Some(Join(Numbered(argv))) else None
  {
    hide LeadsNumber, Join;
    var finalCmd := if LeadsNumber(argv[0]) then "" else "0 ";
    ghost var lead := if LeadsNumber(argv[0]) then [] else ["0"];
    var i := 0;
    while i < |argv|
      invariant 0 <= i <= |argv|
      invariant forall j | 0 <= j < i :: '"' !in argv[j]
      invariant i == 0 ==> finalCmd == if lead == [] then "" else "0 "
      invariant i > 0 ==> finalCmd == Join(lead + argv[..i]) + (if i == |argv| then "" else " ")
    {
      if '"' in argv[i] {
        assert argv[i] in argv;
        return None;
      }
      var needsQuoting := ' ' in argv[i];
      var arg := if needsQuoting then "\"" + argv[i] + "\"" else argv[i];
      finalCmd := finalCmd + arg + (if i == |argv| - 1 then "" else " ");
      if i > 0 {
        JoinSnoc(lead + argv[..i], argv[i]);
        assert lead + argv[..i] + [argv[i]] == lead + argv[..i + 1];
      } else {
        JoinFirst(lead, argv[0]);
        assert argv[..1] == [argv[0]];
      }
      i := i + 1;
    }
    assert argv[..i] == argv;
    assert lead + argv == Numbered(argv);
    assert finalCmd == Join(Numbered(argv));
    r := Some(finalCmd);
  }

  class RNetdConnector {
    var mIsMonitoring: bool
    /** The commands written to the socket. */
    var written: seq<string>

    /** Sends the printed arguments; fails without a monitoring thread, for an
        embedded quote, and when the write fails, and then sends nothing. */
    method DoCommand(argv: seq<string>, writeOk: bool) returns (r: int)
      requires argv != []
      modifies this`written
      ensures var sent := mIsMonitoring && Quoteless(argv) && writeOk;
              && r == (if sent then 0 else -1)
              && written == old(written) + (if sent then [Join(Numbered(argv))] else [])
    {
      if !mIsMonitoring { return -1; }
      var finalCmd := BuildCommand(argv);
      if finalCmd == None { return -1; }
      if !writeOk { return -1; }
      written := written + [finalCmd.value];
      r := 0;
    }
  }

  lemma JoinFirst(lead: seq<string>, a: string)
    requires lead == [] || lead == ["0"]
    ensures Join(lead + [a]) == (if lead == [] then "" else "0 ") + Quote(a)
  {
    if lead == [] {
      assert lead + [a] == [a];
    } else {
      JoinSnoc(lead, a);
      assert Join(["0"]) == "0";
    }
  }

  /** A command built by RCommand is never given a second sequence number, and
      reads back as its number, command and arguments. */
  lemma RCommandInvertible(sn: nat, rest: seq<string>)
    requires sn < 0x8000_0000 && Quoteless(rest)
    ensures Take(Itoa(sn), ARG_LEN - 1) == Itoa(sn)
    ensures Split(Join(Numbered([Itoa(sn)] + rest)), "", false) == [Itoa(sn)] + rest
  {
    var s := Itoa(sn);
    assert s[0] in s;
    assert Quoteless([s] + rest);
    SplitJoin([s] + rest);
    ItoaShort(sn, 10);
  }

  lemma {:induction false} ItoaShort(n: nat, k: nat)
    requires k > 0 && n < Pow10(k)
    ensures |Itoa(n)| <= k
  {
    if n >= 10 { ItoaShort(n / 10, k - 1); }
  }

  function Pow10(k: nat): nat {
    if k == 0 then 1 else 10 * Pow10(k - 1)
  }
}
