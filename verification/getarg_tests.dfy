/**
  How the getarg test suite drives the table: `ResetArgs` puts a dummy
  program name in front of the whitespace-separated words of its string
  (splitting the empty string gives one empty word) and repopulates the
  table from that vector. `Argv(words)` is that vector.
 */
module TestHarness {
  import opened Token
  import opened Args

  const ProgramName: string := "testbitcoin"

  function Argv(words: seq<string>): (argv: seq<string>)
    ensures |argv| == |words| + 1 && argv[0] == ProgramName && argv[1..] == words
  {
    [ProgramName] + words
  }

  /** Repopulates `table` from `words` behind the dummy program name. */
  method ResetArgs(table: ArgTable, words: seq<string>)
    modifies table
    ensures table.args == Parsed(Argv(words))
    ensures forall k :: k in table.args ==> ValidName(k)
  {
    table.Populate(Argv(words));
  }

  /** The token `name=text`. */
  function Opt(name: string, text: string): string {
    name + ("=" + text)
  }

  /** The table for one word. */
  lemma ParsedOne(a: string, sa: Setting)
    requires ParseToken(a) == Some(sa)
    ensures Parsed(Argv([a])) == map[sa.name := sa.value]
  {
    var argv := Argv([a]);
    assert argv != [] && argv[1..] == [a];
    assert Parsed(argv) == Collect([a]);
    assert [a][..0] == [];
    assert Collect([a]) == Store(Collect([]), a);
  }

  /** The empty word is positional: the table stays empty. */
  lemma ParsedEmptyWord()
    ensures Parsed(Argv([""])) == map[]
  {
    var argv := Argv([""]);
    assert argv != [] && argv[1..] == [""];
    assert Parsed(argv) == Collect([""]);
    assert [""][..0] == [];
    assert Collect([""]) == Store(Collect([]), "");
  }

  /** The table for two words: the second's entry overrides the first's. */
  lemma ParsedTwo(a: string, b: string, sa: Setting, sb: Setting)
    requires ParseToken(a) == Some(sa) && ParseToken(b) == Some(sb)
    ensures Parsed(Argv([a, b])) == map[sa.name := sa.value][sb.name := sb.value]
  {
    var argv := Argv([a, b]);
    assert argv != [] && argv[1..] == [a, b];
    assert Parsed(argv) == Collect([a, b]);
    assert [a, b][..1] == [a];
    assert Collect([a, b]) == Store(Collect([a]), b);
    assert [a][..0] == [];
    assert Collect([a]) == Store(Collect([]), a);
  }

  // How the tokens of the suite read, for any option name.

  lemma ReadsBare(x: string)
    requires ValidName(x)
    ensures ParseToken(x) == Some(Setting(x, Bare))
  {
    ParseRender(Setting(x, Bare));
    assert Render(Setting(x, Bare)) == x;
  }

  lemma ReadsDashedBare(x: string)
    requires ValidName(x)
    ensures ParseToken("-" + x) == Some(Setting(x, Bare))
  {
    ReadsBare(x);
    DoubleDash(x);
  }

  lemma ReadsValued(x: string, t: string)
    requires ValidName(x)
    ensures ParseToken(Opt(x, t)) == Some(Setting(x, Valued(t)))
  {
    ParseRender(Setting(x, Valued(t)));
  }

  lemma ReadsDashedValued(x: string, t: string)
    requires ValidName(x)
    ensures ParseToken("-" + Opt(x, t)) == Some(Setting(x, Valued(t)))
  {
    ReadsValued(x, t);
    DoubleDash(Opt(x, t));
  }
}

/**
  The scenarios of the suite, one lemma per reset of the table. Each is
  stated for every option name `x` (the suite uses `-TPC`, with `-tpc` as a
  second name `y` that differs from it only in case) and, where the suite's
  value is an example of a class (a number, a non-numeric text), for every
  value of that class; the last lemmas instantiate some of them with the
  suite's own tokens. A call `GetBoolArg(name)` without a default is
  `GetBoolArg(name, false)`.
 */
module GetArgTests {
  import opened Token
  import opened Numeric
  import opened Args
  import opened TestHarness

  // boolarg

  /** `-x`: true whatever the default; an unrelated `-y` keeps its default. */
  lemma BoolArgBare(x: string, y: string)
    requires ValidName(x) && IsOption(y) && y != x && NegName(y) != x
    ensures var t := Parsed(Argv([x]));
      && GetBoolArg(t, x, false) && GetBoolArg(t, x, true)
      && !GetBoolArg(t, y, false) && GetBoolArg(t, y, true)
  {
    ReadsBare(x);
    ParsedOne(x, Setting(x, Bare));
  }

  /** `-x=0`: false whatever the default. */
  lemma BoolArgZero(x: string)
    requires ValidName(x)
    ensures var t := Parsed(Argv([Opt(x, "0")]));
      !GetBoolArg(t, x, false) && !GetBoolArg(t, x, true)
  {
    ReadsValued(x, "0");
    ParsedOne(Opt(x, "0"), Setting(x, Valued("0")));
  }

  /** `-x=1`: true whatever the default. */
  lemma BoolArgOne(x: string)
    requires ValidName(x)
    ensures var t := Parsed(Argv([Opt(x, "1")]));
      GetBoolArg(t, x, false) && GetBoolArg(t, x, true)
  {
    ReadsValued(x, "1");
    ParsedOne(Opt(x, "1"), Setting(x, Valued("1")));
  }

  /** `-nox`: `-x` is false whatever the default. */
  lemma BoolArgNegated(x: string)
    requires ValidName(x)
    ensures var t := Parsed(Argv([NegName(x)]));
      !GetBoolArg(t, x, false) && !GetBoolArg(t, x, true)
  {
    ReadsBare(NegName(x));
    ParsedOne(NegName(x), Setting(NegName(x), Bare));
  }

  /** `-nox=1`: `-x` is false whatever the default. */
  lemma BoolArgNegatedOne(x: string)
    requires ValidName(x)
    ensures var t := Parsed(Argv([Opt(NegName(x), "1")]));
      !GetBoolArg(t, x, false) && !GetBoolArg(t, x, true)
  {
    ReadsValued(NegName(x), "1");
    ParsedOne(Opt(NegName(x), "1"), Setting(NegName(x), Valued("1")));
  }

  /** `-x -nox`: the positive form wins, so true. */
  lemma BoolArgBothBare(x: string)
    requires ValidName(x)
    ensures var t := Parsed(Argv([x, NegName(x)]));
      GetBoolArg(t, x, false) && GetBoolArg(t, x, true)
  {
    ReadsBare(x);
    ReadsBare(NegName(x));
    ParsedTwo(x, NegName(x), Setting(x, Bare), Setting(NegName(x), Bare));
  }

  /** `-x=1 -nox=1`: the positive form wins, so true. */
  lemma BoolArgBothOne(x: string)
    requires ValidName(x)
    ensures var t := Parsed(Argv([Opt(x, "1"), Opt(NegName(x), "1")]));
      GetBoolArg(t, x, false) && GetBoolArg(t, x, true)
  {
    ReadsValued(x, "1");
    ReadsValued(NegName(x), "1");
    assert NegName(x) != x;
    ParsedTwo(Opt(x, "1"), Opt(NegName(x), "1"), Setting(x, Valued("1")), Setting(NegName(x), Valued("1")));
  }

  /** `-x=0 -nox=0`: the positive form wins, so false. */
  lemma BoolArgBothZero(x: string)
    requires ValidName(x)
    ensures var t := Parsed(Argv([Opt(x, "0"), Opt(NegName(x), "0")]));
      !GetBoolArg(t, x, false) && !GetBoolArg(t, x, true)
  {
    ReadsValued(x, "0");
    ReadsValued(NegName(x), "0");
    assert NegName(x) != x;
    ParsedTwo(Opt(x, "0"), Opt(NegName(x), "0"), Setting(x, Valued("0")), Setting(NegName(x), Valued("0")));
  }

  /** `--x=1`: as `-x=1`, true. */
  lemma BoolArgDoubleDashOne(x: string)
    requires ValidName(x)
    ensures var t := Parsed(Argv(["-" + Opt(x, "1")]));
      GetBoolArg(t, x, false) && GetBoolArg(t, x, true)
  {
    ReadsDashedValued(x, "1");
    ParsedOne("-" + Opt(x, "1"), Setting(x, Valued("1")));
  }

  /** `--nox=1`: as `-nox=1`, `-x` is false. */
  lemma BoolArgDoubleDashNegated(x: string)
    requires ValidName(x)
    ensures var t := Parsed(Argv(["-" + Opt(NegName(x), "1")]));
      !GetBoolArg(t, x, false) && !GetBoolArg(t, x, true)
  {
    ReadsDashedValued(NegName(x), "1");
    ParsedOne("-" + Opt(NegName(x), "1"), Setting(NegName(x), Valued("1")));
  }

  // stringarg

  /** No options: the string reader gives its default. */
  lemma StringArgEmpty(x: string, s: string)
    ensures GetArg(Parsed(Argv([""])), x, s) == s
  {
    ParsedEmptyWord();
  }

  /** `-x -y` with `y` a different name: `-x` reads as "" whatever the default. */
  lemma StringArgBare(x: string, y: string, s: string)
    requires ValidName(x) && ValidName(y) && x != y
    ensures GetArg(Parsed(Argv([x, y])), x, s) == ""
  {
    ReadsBare(x);
    ReadsBare(y);
    ParsedTwo(x, y, Setting(x, Bare), Setting(y, Bare));
  }

  /** `-x=text`: the text, verbatim, whatever the default; this includes
      the empty text of `-x=`. */
  lemma StringArgVerbatim(x: string, text: string, s: string)
    requires ValidName(x)
    ensures GetArg(Parsed(Argv([Opt(x, text)])), x, s) == text
  {
    ReadsValued(x, text);
    ParsedOne(Opt(x, text), Setting(x, Valued(text)));
  }

  // intarg

  /** No options: the integer reader gives its default. */
  lemma IntArgEmpty(x: string, n: int)
    ensures GetIntArg(Parsed(Argv([""])), x, n) == n
  {
    ParsedEmptyWord();
  }

  /** `-x -y`: both read as 0, not as the default. */
  lemma IntArgBare(x: string, y: string, n: int)
    requires ValidName(x) && ValidName(y) && x != y
    ensures var t := Parsed(Argv([x, y]));
      GetIntArg(t, x, n) == 0 && GetIntArg(t, y, n) == 0
  {
    ReadsBare(x);
    ReadsBare(y);
    ParsedTwo(x, y, Setting(x, Bare), Setting(y, Bare));
  }

  /** `-x=a -y=b` with numerals: each name reads as its own number. */
  lemma IntArgNumbers(x: string, y: string, a: nat, b: nat, n: int, m: int)
    requires ValidName(x) && ValidName(y) && x != y
    ensures var t := Parsed(Argv([Opt(x, Decimal(a)), Opt(y, Decimal(b))]));
      GetIntArg(t, x, n) == a && GetIntArg(t, y, m) == b
  {
    ReadsValued(x, Decimal(a));
    ReadsValued(y, Decimal(b));
    ParsedTwo(Opt(x, Decimal(a)), Opt(y, Decimal(b)), Setting(x, Valued(Decimal(a))), Setting(y, Valued(Decimal(b))));
    AtoiDecimal(a, "");
    AtoiDecimal(b, "");
    assert Decimal(a) + "" == Decimal(a) && Decimal(b) + "" == Decimal(b);
  }

  /** `-x=NaN -y=NotANumber`: text that does not start with a digit reads
      as 0, not as the default. */
  lemma IntArgNotNumbers(x: string, y: string, u: string, w: string, n: int, m: int)
    requires ValidName(x) && ValidName(y) && x != y
    requires u == [] || !IsDigit(u[0])
    requires w == [] || !IsDigit(w[0])
    ensures var t := Parsed(Argv([Opt(x, u), Opt(y, w)]));
      GetIntArg(t, x, n) == 0 && GetIntArg(t, y, m) == 0
  {
    ReadsValued(x, u);
    ReadsValued(y, w);
    ParsedTwo(Opt(x, u), Opt(y, w), Setting(x, Valued(u)), Setting(y, Valued(w)));
  }

  // doubledash

  /** `--x`: as `-x`, true. */
  lemma DoubleDashBare(x: string, b: bool)
    requires ValidName(x)
    ensures GetBoolArg(Parsed(Argv(["-" + x])), x, b)
  {
    ReadsDashedBare(x);
    ParsedOne("-" + x, Setting(x, Bare));
  }

  /** `--x=text --y=a`: as `-x=text -y=a`. */
  lemma DoubleDashValues(x: string, y: string, text: string, a: nat, s: string, n: int)
    requires ValidName(x) && ValidName(y) && x != y
    ensures var t := Parsed(Argv(["-" + Opt(x, text), "-" + Opt(y, Decimal(a))]));
      GetArg(t, x, s) == text && GetIntArg(t, y, n) == a
  {
    ReadsDashedValued(x, text);
    ReadsDashedValued(y, Decimal(a));
    ParsedTwo("-" + Opt(x, text), "-" + Opt(y, Decimal(a)), Setting(x, Valued(text)), Setting(y, Valued(Decimal(a))));
    AtoiDecimal(a, "");
    assert Decimal(a) + "" == Decimal(a);
  }

  // boolargno

  /** `-nox=0`: `-x` is true whatever the default. */
  lemma BoolArgNoZero(x: string)
    requires ValidName(x)
    ensures var t := Parsed(Argv([Opt(NegName(x), "0")]));
      GetBoolArg(t, x, false) && GetBoolArg(t, x, true)
  {
    ReadsValued(NegName(x), "0");
    ParsedOne(Opt(NegName(x), "0"), Setting(NegName(x), Valued("0")));
  }

  /** `-x --nox`: the positive form wins, so true. */
  lemma BoolArgNoAfterDoubleDash(x: string, b: bool)
    requires ValidName(x)
    ensures GetBoolArg(Parsed(Argv([x, "-" + NegName(x)])), x, b)
  {
    ReadsBare(x);
    ReadsDashedBare(NegName(x));
    ParsedTwo(x, "-" + NegName(x), Setting(x, Bare), Setting(NegName(x), Bare));
  }

  /** `-nox -x`: the positive form wins even when it comes last. */
  lemma BoolArgNoFirst(x: string, b: bool)
    requires ValidName(x)
    ensures GetBoolArg(Parsed(Argv([NegName(x), x])), x, b)
  {
    ReadsBare(x);
    ReadsBare(NegName(x));
    ParsedTwo(NegName(x), x, Setting(NegName(x), Bare), Setting(x, Bare));
  }

  // The suite's own names: `-TPC`, and `-tpc`, which differs only in case.

  /** boolarg, `-TPC`: `-TPC` is true; `-fo` and `-TPCo` keep their defaults. */
  lemma BoolArgTpc()
    ensures var t := Parsed(Argv(["-TPC"]));
      && GetBoolArg(t, "-TPC", false) && GetBoolArg(t, "-TPC", true)
      && !GetBoolArg(t, "-fo", false) && GetBoolArg(t, "-fo", true)
      && !GetBoolArg(t, "-TPCo", false) && GetBoolArg(t, "-TPCo", true)
  {
    assert ValidName("-TPC");
    assert NegName("-fo") == "-nofo" && NegName("-TPCo") == "-noTPCo";
    BoolArgBare("-TPC", "-fo");
    BoolArgBare("-TPC", "-TPCo");
  }

  /** stringarg, `-TPC=`: the empty text beats the default "eleven". */
  lemma StringArgEmptyTextTpc()
    ensures GetArg(Parsed(Argv(["-TPC="])), "-TPC", "eleven") == ""
  {
    assert ValidName("-TPC");
    assert Opt("-TPC", "") == "-TPC=";
    StringArgVerbatim("-TPC", "", "eleven");
  }

  /** intarg, `-TPC=11 -tpc=12`: keys differ by case and are kept apart. */
  lemma IntArgTpc()
    ensures var t := Parsed(Argv(["-TPC=11", "-tpc=12"]));
      GetIntArg(t, "-TPC", 0) == 11 && GetIntArg(t, "-tpc", 11) == 12
  {
    assert ValidName("-TPC") && ValidName("-tpc");
    assert Decimal(11) == "11" && Decimal(12) == "12";
    assert Opt("-TPC", "11") == "-TPC=11" && Opt("-tpc", "12") == "-tpc=12";
    IntArgNumbers("-TPC", "-tpc", 11, 12, 0, 11);
  }

  /** doubledash, `--TPC=verbose --tpc=1`. */
  lemma DoubleDashTpc()
    ensures var t := Parsed(Argv(["--TPC=verbose", "--tpc=1"]));
      GetArg(t, "-TPC", "") == "verbose" && GetIntArg(t, "-tpc", 0) == 1
  {
    assert ValidName("-TPC") && ValidName("-tpc");
    assert Decimal(1) == "1";
    assert "-" + Opt("-TPC", "verbose") == "--TPC=verbose" && "-" + Opt("-tpc", "1") == "--tpc=1";
    DoubleDashValues("-TPC", "-tpc", "verbose", 1, "", 0);
  }

  /** boolargno, `-noTPC -TPC`: `-TPC` wins. */
  lemma BoolArgNoFirstTpc()
    ensures GetBoolArg(Parsed(Argv(["-noTPC", "-TPC"])), "-TPC", false)
  {
    assert ValidName("-TPC");
    assert NegName("-TPC") == "-noTPC";
    BoolArgNoFirst("-TPC", false);
  }
}
