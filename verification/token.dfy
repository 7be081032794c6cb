/**
  One command-line token, as the argument table reads it: an option token
  starts with '-', may start with any number of further dashes (collapsed to
  one), and may carry a value after the first '='. Anything else is a
  positional argument and sets nothing.
 */
module Token {

  datatype Option<T> = None | Some(value: T)

  /** What an option token records: given bare (`-name`) or with a value
      (`-name=text`, where text may be empty). */
  datatype Value = Bare | Valued(text: string)

  /** A parsed option token: its normalised name and what it was given. */
  datatype Setting = Setting(name: string, value: Value)

  /** Tokens that start with a dash are options; all others are positional. */
  predicate IsOption(tok: string) {
    |tok| > 0 && tok[0] == '-'
  }

  /** A normalised option name: exactly one leading dash and no '='. */
  predicate ValidName(name: string) {
    && IsOption(name)
    && (|name| == 1 || name[1] != '-')
    && forall j :: 0 <= j < |name| ==> name[j] != '='
  }

  /** Position of the first '=' in `s`, or |s| when there is none. */
  function IndexOfEq(s: string): (i: nat)
    ensures i <= |s|
    ensures i < |s| ==> s[i] == '='
  {
    if s == [] || s[0] == '=' then 0 else 1 + IndexOfEq(s[1..])
  }

  /** No '=' comes before the one IndexOfEq finds. */
  lemma {:induction false} IndexOfEqFirst(s: string)
    ensures forall j :: 0 <= j < IndexOfEq(s) ==> s[j] != '='
  {
    if s != [] && s[0] != '=' {
      IndexOfEqFirst(s[1..]);
    }
  }

  /** `s` without its leading dashes. */
  function StripDashes(s: string): (r: string)
    ensures |r| <= |s|
    ensures r == [] || r[0] != '-'
  {
    if s != [] && s[0] == '-' then StripDashes(s[1..]) else s
  }

  /** StripDashes removes a prefix of `s`, and that prefix is dashes only. */
  lemma {:induction false} StripDashesRemoves(s: string)
    ensures StripDashes(s) == s[|s| - |StripDashes(s)|..]
    ensures forall j :: 0 <= j < |s| - |StripDashes(s)| ==> s[j] == '-'
  {
    if s != [] && s[0] == '-' {
      StripDashesRemoves(s[1..]);
    }
  }

  /** Reads one token: the name left of the first '=' with its dashes
      collapsed to one, and the text right of it (if there is an '='). */
  function ParseToken(tok: string): (r: Option<Setting>)
    ensures r.Some? <==> IsOption(tok)
  {
    if !IsOption(tok) then None
    else
      var e := IndexOfEq(tok);
      Some(Setting("-" + StripDashes(tok[..e]), if e == |tok| then Bare else Valued(tok[e + 1..])))
  }

  /** Every name read from a token is a normalised option name. */
  lemma ParsedNameValid(tok: string)
    requires IsOption(tok)
    ensures ValidName(ParseToken(tok).value.name)
  {
    var e := IndexOfEq(tok);
    var rest := StripDashes(tok[..e]);
    StripDashesRemoves(tok[..e]);
    IndexOfEqFirst(tok);
    assert forall j :: 0 <= j < |rest| ==> rest[j] == tok[e - |rest| + j];
  }

  /** The canonical token for a setting: `-name` or `-name=text`. */
  function Render(st: Setting): string {
    st.name + match st.value case Bare => "" case Valued(t) => "=" + t
  }

  /** A prefix without '=' followed by nothing or by '=' ends where the
      prefix ends. */
  lemma {:induction false} IndexOfEqAfter(name: string, suffix: string)
    requires forall j :: 0 <= j < |name| ==> name[j] != '='
    requires suffix == [] || suffix[0] == '='
    ensures IndexOfEq(name + suffix) == |name|
  {
    if name != [] {
      assert (name + suffix)[1..] == name[1..] + suffix;
      IndexOfEqAfter(name[1..], suffix);
    }
  }

  /** A normalised name loses exactly its one dash. */
  lemma StripNormalised(name: string)
    requires ValidName(name)
    ensures "-" + StripDashes(name) == name
  {
    assert StripDashes(name) == StripDashes(name[1..]);
    assert StripDashes(name[1..]) == name[1..];
  }

  /** Reading the canonical token of a setting gives the setting back. */
  lemma ParseRender(st: Setting)
    requires ValidName(st.name)
    ensures ParseToken(Render(st)) == Some(st)
  {
    var suffix := match st.value case Bare => "" case Valued(t) => "=" + t;
    var tok := st.name + suffix;
    assert Render(st) == tok;
    IndexOfEqAfter(st.name, suffix);
    assert tok[..|st.name|] == st.name;
    StripNormalised(st.name);
    match st.value {
      case Bare =>
      case Valued(t) =>
        assert tok[|st.name| + 1..] == t;
    }
  }

  /** The name read from an option token is the stretch of the token that
      ends at its first '=', and only dashes come before it. */
  lemma NameIsSlice(tok: string)
    requires IsOption(tok)
    ensures var e, name := IndexOfEq(tok), ParseToken(tok).value.name;
      && |name| <= e && name == tok[e - |name|..e]
      && forall j :: 0 <= j < e - |name| ==> tok[j] == '-'
  {
    var e := IndexOfEq(tok);
    var pre := tok[..e];
    var rest := StripDashes(pre);
    StripDashesRemoves(pre);
    assert pre[0] == '-';
    assert rest != [] ==> rest[0] == pre[|pre| - |rest|];
    var start := e - |rest| - 1;
    assert pre[start] == '-';
    assert rest == tok[start + 1..e];
    assert "-" + rest == tok[start..e];
  }

  /** Every option token is its setting's canonical token with some extra
      leading dashes in front. */
  lemma ParseRecovers(tok: string)
    requires IsOption(tok)
    ensures var r := Render(ParseToken(tok).value);
      |r| <= |tok| && r == tok[|tok| - |r|..] && forall j :: 0 <= j < |tok| - |r| ==> tok[j] == '-'
  {
    var e := IndexOfEq(tok);
    var st := ParseToken(tok).value;
    NameIsSlice(tok);
    var start := e - |st.name|;
    var suffix := match st.value case Bare => "" case Valued(t) => "=" + t;
    assert Render(st) == st.name + suffix;
    assert tok[start..] == tok[start..e] + tok[e..];
    match st.value {
      case Bare =>
        assert e == |tok|;
        assert tok[e..] == suffix;
      case Valued(t) =>
        assert e < |tok| && t == tok[e + 1..];
        assert tok[e..] == [tok[e]] + tok[e + 1..];
        assert tok[e..] == suffix;
    }
  }

  /** A leading `--` reads exactly like `-`. */
  lemma DoubleDash(tok: string)
    requires IsOption(tok)
    ensures ParseToken("-" + tok) == ParseToken(tok)
  {
    var dtok := "-" + tok;
    assert dtok[1..] == tok;
    var e := IndexOfEq(tok);
    assert IndexOfEq(dtok) == 1 + IndexOfEq(dtok[1..]);
    var pre, dpre := tok[..e], dtok[..e + 1];
    assert dpre[1..] == pre;
    assert dpre[0] == '-';
    assert StripDashes(dpre) == StripDashes(dpre[1..]);
    if e < |tok| {
      assert dtok[e + 2..] == tok[e + 1..];
    }
  }
}
