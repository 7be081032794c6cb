# getarg: the command-line argument table

A Dafny model of the command-line argument table as the `getarg_tests`
suite (`src/test/getarg_tests.cpp`) exercises it.
- `ResetArgs` puts the dummy program name `testbitcoin` in front of a
  list of words and hands the vector to `ParseParameters`.
- `ParseParameters` replaces the table with one entry per option name,
  the last token for that name deciding it.
- Three readers answer queries against the table, each falling back to a
  caller-supplied default:
  - `GetBoolArg(name, default)` honours the `-no<name>` negation, and an
    explicit `-name` wins over it whatever the token order;
  - `GetArg(name, string default)` gives the stored text;
  - `GetArg(name, int default)` coerces the stored text like `atoi`.

Layout:
- `token.dfy` (module `Token`) reads one token:
  - a token is an option when it starts with `-`;
  - its leading dashes collapse to one;
  - the name ends at the first `=`, and the text after that `=` (possibly
    empty) is its value;
  - without an `=` the option is bare.
- `numeric.dfy` (module `Numeric`) is the `atoi` coercion: the value of
  the leading decimal digits, or 0.
- `args.dfy` (module `Args`) holds:
  - `Parsed`, the table a vector describes;
  - the class `ArgTable`, whose `Populate` loop is proved to build exactly
    `Parsed`;
  - the three readers;
  - lemmas relating the readers' answers to the tokens: absence, last
    setter, negation, positive-wins, `--`.
- `getarg_tests.dfy` holds two modules:
  - `TestHarness` is `ResetArgs` plus helpers;
  - `GetArgTests` has one lemma per `ResetArgs` scenario of the suite,
    stated for every option name and, where the suite's value is one
    example of a class (a numeral, a non-numeric text), for every member
    of that class. A few lemmas instantiate them on the suite's own tokens.

The implementation of `ParseParameters`, `GetArg` and `GetBoolArg` in
`util.h`/`util.cpp` is not part of this model. The behaviour modelled is
the one the suite's assertions pin down. Where the assertions are silent,
the model makes these choices:
- A token that does not start with `-` is positional. It is skipped, and
  later option tokens are still read. The empty word is positional.
- All leading dashes collapse to one, so `--x` and `---x` both read as `-x`.
- A name ends at the first `=`, and further `=` characters belong to the
  value.
- A later token for the same name replaces the earlier entry (last wins).
- For the boolean reader, every value except the text `0` is true; a bare
  option is true.
- `-noname` is stored as an entry of its own, and the negation is applied
  when `-name` is read.

## Model

| member | source | states |
|---|---|---|
| Token.ParseToken | src/test/getarg_tests.cpp:41-49 | a token yields a setting exactly when it starts with `-` |
| Token.ParsedNameValid | src/test/getarg_tests.cpp:96-98 | every name read from a token has one leading dash and no `=` |
| Token.ParseRender | src/test/getarg_tests.cpp:100-110 | `-name` reads as a bare `-name`, and `-name=text` as `-name` with the text verbatim, including the empty text |
| Token.ParseRecovers | src/test/getarg_tests.cpp:135-140 | every option token is the canonical token of what it reads as, preceded only by extra dashes |
| Token.DoubleDash | src/test/getarg_tests.cpp:77-86 | a token with one more leading `-` reads exactly the same |
| Token.IndexOfEq | src/test/getarg_tests.cpp:100-102 | the split point lies within the token, and when it is not the end of the token it is an `=` (with `IndexOfEqFirst`: the first one) |
| Token.StripDashes | src/test/getarg_tests.cpp:77-86 | collapsing the leading dashes leaves a result no longer than its input that does not start with `-` |
| Token.IndexOfEqFirst | src/test/getarg_tests.cpp:100-102 | the name ends at the first `=` of the token |
| Token.StripDashesRemoves | src/test/getarg_tests.cpp:77-86 | collapsing the leading dashes removes a prefix of the name part, made of dashes only |
| Token.NameIsSlice | src/test/getarg_tests.cpp:77-86 | the name read from a token is the stretch that ends at the first `=`, with only dashes before it |
| Token.IndexOfEqAfter | src/test/getarg_tests.cpp:100-102 | in `-name=text` the name ends right before the `=` |
| Token.StripNormalised | src/test/getarg_tests.cpp:28-31 | a normalised name keeps its single dash |
| Numeric.LeadingDigitsAreDigits | src/test/getarg_tests.cpp:124-126 | the run of leading characters the coercion reads is all decimal digits |
| Numeric.Atoi | src/test/getarg_tests.cpp:128-130 | the coercion is never negative, and text that does not start with a digit reads as 0 |
| Numeric.DigitsOfDecimal | src/test/getarg_tests.cpp:124-126 | a decimal numeral is all digits and denotes the number it was written for |
| Numeric.AtoiDecimal | src/test/getarg_tests.cpp:124-126 | a numeral, followed by nothing or by a non-digit, coerces back to its number |
| Args.Store | src/test/getarg_tests.cpp:23 | a positional token leaves the table unchanged; an option token sets the entry of its own name to what the token gave it, and every other entry is kept |
| Args.Collect | src/test/getarg_tests.cpp:23 | reading a list of tokens gives at most one entry per token |
| Args.Parsed | src/test/getarg_tests.cpp:23 | a vector holding only the program name gives the empty table, and there is at most one entry per argument after the program name |
| Args.Truthy | src/test/getarg_tests.cpp:41-49 | bare, `""` and `"1"` are true and `"0"` is false, as the suite pins down; that every other text is true is the model's choice |
| Args.ArgTable.constructor | src/test/getarg_tests.cpp:23 | the table starts empty |
| Args.ArgTable.Populate | src/test/getarg_tests.cpp:23 | after population the table holds exactly the entries the vector after element 0 describes, all keys being normalised names |
| Args.CollectKeysValid | src/test/getarg_tests.cpp:23 | every key in the table is a normalised option name |
| Args.CollectAbsent | src/test/getarg_tests.cpp:92-94 | a name no token sets has no entry |
| Args.CollectLast | src/test/getarg_tests.cpp:124-126 | the last token that sets a name decides its entry (the suite sets each name once; last-wins among repeats is the model's choice) |
| Args.CollectAlike | src/test/getarg_tests.cpp:135-140 | token lists that read alike, position by position, give the same table |
| Args.ParsedAbsent | src/test/getarg_tests.cpp:92-94 | a name no argument after the program name sets has no entry; in particular the program name contributes none |
| Args.ParsedLast | src/test/getarg_tests.cpp:124-126 | the last argument setting a name decides its entry (the suite sets each name once; last-wins among repeats is the model's choice) |
| Args.NegName | src/test/getarg_tests.cpp:51-52 | the negated form of a normalised name is a normalised name, two characters longer |
| Args.GetArg | src/test/getarg_tests.cpp:92-94 | the string reader departs from its default only for a name present in the table |
| Args.GetIntArg | src/test/getarg_tests.cpp:116-118 | the integer reader departs from its default only for a present name, and then gives a value of at least 0 |
| Args.GetBoolArg | src/test/getarg_tests.cpp:33-39 | the boolean reader departs from its default only when the name or its `-no` form is present |
| Args.UnsetGivesDefaults | src/test/getarg_tests.cpp:92-94 | with `-name` unset, the string and integer readers give their defaults, whether or not `-noname` is given |
| Args.AbsentGivesDefault | src/test/getarg_tests.cpp:33-39 | with neither `-name` nor `-noname` set, the boolean reader gives its default |
| Args.GivenOverridesDefault | src/test/getarg_tests.cpp:100-110 | a set option overrides every default: its text, that text coerced, its truth, whatever any `-no` form says |
| Args.BareFlagReads | src/test/getarg_tests.cpp:120-122 | a bare option reads as true, as "" and as 0, whatever the defaults |
| Args.NegationApplies | src/test/getarg_tests.cpp:52-60 | with `-name` unset, the last `-noname` decides, inverted: bare or "1" gives false, "0" gives true |
| Args.PositiveWins | src/test/getarg_tests.cpp:62-75 | with `-name` set, the boolean answer equals the one for `-name`'s last token alone, whatever `-no` tokens surround it |
| Args.DoubleDashArgument | src/test/getarg_tests.cpp:77-86 | writing any option argument with `--` instead of `-` leaves the table unchanged |
| TestHarness.Argv | src/test/getarg_tests.cpp:15-16 | the vector is the program name followed by the words |
| TestHarness.ResetArgs | src/test/getarg_tests.cpp:10-24 | after a reset the table is the one the program name plus the words describe |
| TestHarness.ParsedEmptyWord | src/test/getarg_tests.cpp:92-94 | resetting with the empty string leaves the table empty |
| GetArgTests.BoolArgBare | src/test/getarg_tests.cpp:28-39 | `-x` reads as true for both defaults; another name such as `-fo` or `-TPCo` gives its default |
| GetArgTests.BoolArgZero | src/test/getarg_tests.cpp:41-44 | `-x=0` reads as false for both defaults |
| GetArgTests.BoolArgOne | src/test/getarg_tests.cpp:46-49 | `-x=1` reads as true for both defaults |
| GetArgTests.BoolArgNegated | src/test/getarg_tests.cpp:52-55 | `-nox` makes `-x` false for both defaults |
| GetArgTests.BoolArgNegatedOne | src/test/getarg_tests.cpp:57-60 | `-nox=1` makes `-x` false for both defaults |
| GetArgTests.BoolArgBothBare | src/test/getarg_tests.cpp:62-65 | `-x -nox`: `-x` wins, true |
| GetArgTests.BoolArgBothOne | src/test/getarg_tests.cpp:67-70 | `-x=1 -nox=1`: `-x` wins, true |
| GetArgTests.BoolArgBothZero | src/test/getarg_tests.cpp:72-75 | `-x=0 -nox=0`: `-x` wins, false |
| GetArgTests.BoolArgDoubleDashOne | src/test/getarg_tests.cpp:78-81 | `--x=1` reads as true for both defaults |
| GetArgTests.BoolArgDoubleDashNegated | src/test/getarg_tests.cpp:83-86 | `--nox=1` makes `-x` false for both defaults |
| GetArgTests.StringArgEmpty | src/test/getarg_tests.cpp:92-94 | with no options the string reader gives any default back |
| GetArgTests.StringArgBare | src/test/getarg_tests.cpp:96-98 | after `-x -y` the string reader gives "" for `-x` whatever the default |
| GetArgTests.StringArgVerbatim | src/test/getarg_tests.cpp:100-110 | after `-x=text` the string reader gives the text verbatim, the empty text included |
| GetArgTests.IntArgEmpty | src/test/getarg_tests.cpp:116-118 | with no options the integer reader gives any default back |
| GetArgTests.IntArgBare | src/test/getarg_tests.cpp:120-122 | after `-x -y` both read as 0, not as the default |
| GetArgTests.IntArgNumbers | src/test/getarg_tests.cpp:124-126 | after `-x=a -y=b` with numerals, each name reads as its own number |
| GetArgTests.IntArgNotNumbers | src/test/getarg_tests.cpp:128-130 | text not starting with a digit reads as 0, not as the default |
| GetArgTests.DoubleDashBare | src/test/getarg_tests.cpp:135-136 | `--x` reads as true |
| GetArgTests.DoubleDashValues | src/test/getarg_tests.cpp:138-140 | `--x=text --y=a` reads as `-x=text -y=a` |
| GetArgTests.BoolArgNoZero | src/test/getarg_tests.cpp:155-158 | `-nox=0` makes `-x` true for both defaults |
| GetArgTests.BoolArgNoAfterDoubleDash | src/test/getarg_tests.cpp:160-161 | `-x --nox`: `-x` wins, true |
| GetArgTests.BoolArgNoFirst | src/test/getarg_tests.cpp:163-164 | `-nox -x`: `-x` wins even though it comes last |
| GetArgTests.BoolArgTpc | src/test/getarg_tests.cpp:28-39 | the suite's `-TPC`, `-fo` and `-TPCo` queries after `-TPC` |
| GetArgTests.StringArgEmptyTextTpc | src/test/getarg_tests.cpp:100-102 | `-TPC=` beats the default "eleven" with "" |
| GetArgTests.IntArgTpc | src/test/getarg_tests.cpp:124-126 | `-TPC=11 -tpc=12`: the keys differ by case and read 11 and 12 |
| GetArgTests.DoubleDashTpc | src/test/getarg_tests.cpp:138-140 | `--TPC=verbose --tpc=1` reads "verbose" and 1 |
| GetArgTests.BoolArgNoFirstTpc | src/test/getarg_tests.cpp:163-164 | `-noTPC -TPC` reads `-TPC` as true |

## Left out

- The whitespace splitting of `ResetArgs`' string, the conversion to
  `char*` and the Boost.Test harness (src/test/getarg_tests.cpp:12-21).
  Scenarios take the word list directly. Splitting `""` gives one empty
  word, and the model handles that word.
- The process-wide table and any thread-safety concern. The table is an
  explicit `ArgTable` object.
- Numeric.Atoi: does not model a sign, leading whitespace or overflow of
  `atoi`/`atoi64`. The value is an unbounded non-negative integer.
- The implementation in `util.h`/`util.cpp` is not part of this model.
  That includes config-file loading, multi-valued arguments and
  everything else not reached through the suite. The choices made where
  the suite is silent are listed above.
- GetArgTests: the scenarios are stated for any normalised option name
  `x`, with `-noname` distinct from every other name used. They are not
  stated for `-TPC` alone; `GetArgTests.*Tpc` instantiate some of them.
  A call without a default is the call with default `false`.
