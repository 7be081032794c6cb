/**
  The argument table: populated once from an argument vector, then queried
  by three readers that always fall back to a caller-supplied default.
  The boolean reader also honours the `-no<name>` negation, with an explicit
  positive `-name` winning over it whatever the token order.
 */
module Args {
  import opened Token
  import opened Numeric

  /** Normalised option name to what its (last) token gave it. */
  type Table = map<string, Value>

  /** Token `tok` is an option token that sets `name`. */
  predicate Names(tok: string, name: string) {
    ParseToken(tok).Some? && ParseToken(tok).value.name == name
  }

  /** The table after reading one more token; positional tokens change
      nothing, an option token sets the entry of its own name to what it
      gave and leaves every other entry as it was. */
  function Store(m: Table, tok: string): (r: Table)
    ensures !IsOption(tok) ==> r == m
    ensures IsOption(tok) ==> r.Keys == m.Keys + {ParseToken(tok).value.name}
    ensures IsOption(tok) ==> r[ParseToken(tok).value.name] == ParseToken(tok).value.value
    ensures forall k :: k in m && !Names(tok, k) ==> k in r && r[k] == m[k]
  {
    match ParseToken(tok)
    case None => m
    case Some(st) => m[st.name := st.value]
  }

  /** The table built from option tokens `ts`, read left to right; each
      token adds at most one entry. */
  function Collect(ts: seq<string>): (r: Table)
    ensures |r| <= |ts|
  {
    if ts == [] then map[] else Store(Collect(ts[..|ts| - 1]), ts[|ts| - 1])
  }

  /** Every key of a collected table is a normalised option name. */
  lemma {:induction false} CollectKeysValid(ts: seq<string>)
    ensures forall k :: k in Collect(ts) ==> ValidName(k)
  {
    if ts != [] {
      CollectKeysValid(ts[..|ts| - 1]);
      var tok := ts[|ts| - 1];
      if IsOption(tok) {
        ParsedNameValid(tok);
      }
    }
  }

  /** The table for a whole argument vector; element 0, the program name, is skipped. */
  function Parsed(argv: seq<string>): (r: Table)
    ensures |argv| <= 1 ==> r == map[]
    ensures |r| <= |argv| - 1 || argv == []
  {
    if argv == [] then map[] else Collect(argv[1..])
  }

  /** No argument after the program name sets `name`. */
  predicate Unset(argv: seq<string>, name: string) {
    forall i :: 1 <= i < |argv| ==> !Names(argv[i], name)
  }

  /** `argv[i]` is the last argument that sets `name`. */
  predicate LastSetter(argv: seq<string>, i: int, name: string) {
    && 1 <= i < |argv|
    && Names(argv[i], name)
    && forall j :: i < j < |argv| ==> !Names(argv[j], name)
  }

  /** What the last setter of `name` gave it. */
  function GivenAt(argv: seq<string>, i: int): Value
    requires 1 <= i < |argv| && IsOption(argv[i])
  {
    ParseToken(argv[i]).value.value
  }

  // ---------------------------------------------------------------------
  // The table as an object that population replaces wholesale.
  // ---------------------------------------------------------------------

  class ArgTable {
    var args: Table

    constructor ()
      ensures args == map[]
    {
      args := map[];
    }

    /** Replaces the table by the one `argv` describes. */
    method Populate(argv: seq<string>)
      modifies this
      ensures args == Parsed(argv)
      ensures forall k :: k in args ==> ValidName(k)
    {
      args := map[];
      if argv == [] {
        return;
      }
      var i := 1;
      while i < |argv|
        invariant 1 <= i <= |argv|
        invariant args == Collect(argv[1..i])
      {
        assert argv[1..i + 1][..i - 1] == argv[1..i];
        assert Collect(argv[1..i + 1]) == Store(args, argv[i]);
        var parsed := ParseToken(argv[i]);
        if parsed.Some? {
          args := args[parsed.value.name := parsed.value.value];
        }
        i := i + 1;
      }
      assert argv[1..i] == argv[1..];
      CollectKeysValid(argv[1..]);
    }
  }

  // ---------------------------------------------------------------------
  // Readers.
  // ---------------------------------------------------------------------

  /** The text an option was given; a bare option reads as "". */
  function TextOf(v: Value): string {
    match v
    case Bare => ""
    case Valued(t) => t
  }

  /** Truth of an option's value: bare, "" and "1" are true, "0" is false;
      every other text is taken as true. */
  function Truthy(v: Value): (b: bool)
    ensures v == Bare ==> b
    ensures v == Valued("") ==> b
    ensures v == Valued("1") ==> b
    ensures v == Valued("0") ==> !b
  {
    v != Valued("0")
  }

  /** The negated counterpart of `-name`: `-noname`. */
  function NegName(name: string): (neg: string)
    requires IsOption(name)
    ensures |neg| == |name| + 2
    ensures ValidName(name) ==> ValidName(neg)
  {
    "-no" + name[1..]
  }

  /** String reader: the stored text, or `fallback` when `name` is unset. */
  function GetArg(args: Table, name: string, fallback: string): (r: string)
    ensures r != fallback ==> name in args
  {
    if name in args then TextOf(args[name]) else fallback
  }

  /** Integer reader: the stored text coerced by `atoi`, or `fallback` when
      `name` is unset. */
  function GetIntArg(args: Table, name: string, fallback: int): (r: int)
    ensures r != fallback ==> name in args && r >= 0
  {
    if name in args then Atoi(TextOf(args[name])) else fallback
  }

  /** Boolean reader: the positive entry if there is one, otherwise the
      inverted negated entry, otherwise `fallback`. */
  function GetBoolArg(args: Table, name: string, fallback: bool): (r: bool)
    ensures r != fallback ==> name in args || (IsOption(name) && NegName(name) in args)
  {
    if name in args then Truthy(args[name])
    else if IsOption(name) && NegName(name) in args then !Truthy(args[NegName(name)])
    else fallback
  }

  // ---------------------------------------------------------------------
  // What the table holds, in terms of the tokens.
  // ---------------------------------------------------------------------

  /** A name that no token sets is absent from the table. */
  lemma {:induction false} CollectAbsent(ts: seq<string>, name: string)
    requires forall i :: 0 <= i < |ts| ==> !Names(ts[i], name)
    ensures name !in Collect(ts)
  {
    if ts != [] {
      var init := ts[..|ts| - 1];
      CollectAbsent(init, name);
    }
  }

  /** The last token that sets a name decides its entry. */
  lemma {:induction false} CollectLast(ts: seq<string>, i: int, name: string)
    requires 0 <= i < |ts| && Names(ts[i], name)
    requires forall j :: i < j < |ts| ==> !Names(ts[j], name)
    ensures name in Collect(ts) && Collect(ts)[name] == ParseToken(ts[i]).value.value
  {
    var init := ts[..|ts| - 1];
    if i < |ts| - 1 {
      CollectLast(init, i, name);
    }
  }

  /** Tokens that read alike give the same table. */
  lemma {:induction false} CollectAlike(ts: seq<string>, us: seq<string>)
    requires |ts| == |us|
    requires forall i :: 0 <= i < |ts| ==> ParseToken(ts[i]) == ParseToken(us[i])
    ensures Collect(ts) == Collect(us)
  {
    if ts != [] {
      CollectAlike(ts[..|ts| - 1], us[..|us| - 1]);
    }
  }

  /** An argument vector that never sets `name` has no entry for it. */
  lemma ParsedAbsent(argv: seq<string>, name: string)
    requires Unset(argv, name)
    ensures name !in Parsed(argv)
  {
    if argv != [] {
      var ts := argv[1..];
      assert forall i :: 0 <= i < |ts| ==> ts[i] == argv[i + 1];
      CollectAbsent(ts, name);
    }
  }

  /** The last argument that sets `name` decides its entry. */
  lemma ParsedLast(argv: seq<string>, i: int, name: string)
    requires LastSetter(argv, i, name)
    ensures name in Parsed(argv) && Parsed(argv)[name] == GivenAt(argv, i)
  {
    var ts := argv[1..];
    assert forall j :: 0 <= j < |ts| ==> ts[j] == argv[j + 1];
    CollectLast(ts, i - 1, name);
  }

  // ---------------------------------------------------------------------
  // What the readers answer, in terms of the tokens.
  // ---------------------------------------------------------------------

  /** An option no argument sets reads as the string and integer readers'
      defaults; a `-no` form of it, given or not, does not matter to them. */
  lemma UnsetGivesDefaults(argv: seq<string>, name: string, s: string, n: int)
    requires Unset(argv, name)
    ensures GetArg(Parsed(argv), name, s) == s
    ensures GetIntArg(Parsed(argv), name, n) == n
  {
    ParsedAbsent(argv, name);
  }

  /** An option set neither as `-name` nor as `-noname` reads as the
      boolean reader's default. */
  lemma AbsentGivesDefault(argv: seq<string>, name: string, b: bool)
    requires IsOption(name)
    requires Unset(argv, name) && Unset(argv, NegName(name))
    ensures GetBoolArg(Parsed(argv), name, b) == b
  {
    ParsedAbsent(argv, name);
    ParsedAbsent(argv, NegName(name));
  }

  /** A set option overrides every default: the string reader gives its
      text, the integer reader that text coerced, the boolean reader its
      truth; any `-no` form anywhere in the arguments is ignored. */
  lemma GivenOverridesDefault(argv: seq<string>, i: int, name: string, s: string, n: int, b: bool)
    requires LastSetter(argv, i, name)
    ensures GetArg(Parsed(argv), name, s) == TextOf(GivenAt(argv, i))
    ensures GetIntArg(Parsed(argv), name, n) == Atoi(TextOf(GivenAt(argv, i)))
    ensures GetBoolArg(Parsed(argv), name, b) == Truthy(GivenAt(argv, i))
  {
    ParsedLast(argv, i, name);
  }

  /** A bare flag is true, reads as "" and as 0, whatever the defaults. */
  lemma BareFlagReads(argv: seq<string>, i: int, name: string, s: string, n: int, b: bool)
    requires LastSetter(argv, i, name) && GivenAt(argv, i) == Bare
    ensures GetBoolArg(Parsed(argv), name, b)
    ensures GetArg(Parsed(argv), name, s) == ""
    ensures GetIntArg(Parsed(argv), name, n) == 0
  {
    GivenOverridesDefault(argv, i, name, s, n, b);
  }

  /** With the positive form unset, the last `-no<name>` decides, inverted:
      bare or "1" makes the option false, "0" makes it true. */
  lemma NegationApplies(argv: seq<string>, i: int, name: string, b: bool)
    requires IsOption(name) && Unset(argv, name) && LastSetter(argv, i, NegName(name))
    ensures GetBoolArg(Parsed(argv), name, b) == !Truthy(GivenAt(argv, i))
    ensures GivenAt(argv, i) in {Bare, Valued("1")} ==> !GetBoolArg(Parsed(argv), name, b)
    ensures GivenAt(argv, i) == Valued("0") ==> GetBoolArg(Parsed(argv), name, b)
  {
    ParsedAbsent(argv, name);
    ParsedLast(argv, i, NegName(name));
  }

  /** The positive form wins in any order: with `-name` set, the boolean
      answer is what `-name`'s last token alone would give. */
  lemma PositiveWins(argv: seq<string>, i: int, name: string, b: bool)
    requires LastSetter(argv, i, name)
    ensures GetBoolArg(Parsed(argv), name, b) == GetBoolArg(Parsed([argv[0], argv[i]]), name, b)
  {
    ParsedLast(argv, i, name);
    ParsedLast([argv[0], argv[i]], 1, name);
  }

  /** Writing an option with `--` instead of `-` changes nothing. */
  lemma DoubleDashArgument(argv: seq<string>, i: int)
    requires 1 <= i < |argv| && IsOption(argv[i])
    ensures Parsed(argv[i := "-" + argv[i]]) == Parsed(argv)
  {
    var argv' := argv[i := "-" + argv[i]];
    DoubleDash(argv[i]);
    var ts, us := argv'[1..], argv[1..];
    assert forall j :: 0 <= j < |ts| ==> ParseToken(ts[j]) == ParseToken(us[j]) by {
      forall j | 0 <= j < |ts| ensures ParseToken(ts[j]) == ParseToken(us[j]) {
        assert ts[j] == argv'[j + 1] && us[j] == argv[j + 1];
      }
    }
    CollectAlike(ts, us);
  }
}
