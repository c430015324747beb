/** The command-line scanner `parseArgs` of image-gen/generate.ts.

    The scanner walks `argv` once. An entry that starts with `--` and is not the last entry
    is a flag: it takes the next entry as its value, whatever that entry looks like, and the
    scan skips over it. Every other entry is positional text. Later values of a flag replace
    earlier ones, the positional entries joined by single spaces are the prompt, and
    `size`, `model` and `out` fall back to their defaults when the flag never appeared. */
module Args {
  import opened Wrappers
  import opened Text

  const DefaultModel: string := "gemini-3-pro-image-preview"
  const DefaultAspectRatio: string := "16:9"
  const DefaultOutDir: string := "./output"

  /** The parsed invocation; `refPath` is `None` when `--ref` was never given a value. */
  datatype Args = Args(prompt: string, refPath: Option<string>, size: string, model: string, outDir: string)

  /** How the scanner reads the entries of `argv`: a flag with its value (two entries) or
      one positional entry. */
  datatype Token = Flag(name: string, value: string) | Positional(text: string)

  predicate IsFlagEntry(s: string) {
    StartsWith(s, "--")
  }

  /** The tokens the scanner reads from `argv`, in order: one or two entries each. */
  function Tokens(argv: seq<string>): (ts: seq<Token>)
    ensures |ts| <= |argv| <= 2 * |ts|
    decreases |argv|
  {
    if |argv| == 0 then []
    else if IsFlagEntry(argv[0]) && 1 < |argv| then [Flag(argv[0][2..], argv[1])] + Tokens(argv[2..])
    else [Positional(argv[0])] + Tokens(argv[1..])
  }

  /** The entries of `argv` a token was read from. */
  function Spelling(t: Token): seq<string> {
    match t
    case Flag(name, value) => ["--" + name, value]
    case Positional(text) => [text]
  }

  function Spell(ts: seq<Token>): seq<string>
    decreases |ts|
  {
    if |ts| == 0 then [] else Spelling(ts[0]) + Spell(ts[1..])
  }

  predicate NamesFlag(t: Token, name: string) {
    t.Flag? && t.name == name
  }

  /** The flag dictionary after the tokens `ts` have been read, in order. */
  function FlagMap(ts: seq<Token>): map<string, string>
    decreases |ts|
  {
    if |ts| == 0 then map[]
    else
      var m := FlagMap(ts[..|ts| - 1]);
      match ts[|ts| - 1]
      case Flag(name, value) => m[name := value]
      case Positional(_) => m
  }

  /** The positional entries among the tokens `ts`, in order. */
  function Positionals(ts: seq<Token>): seq<string>
    decreases |ts|
  {
    if |ts| == 0 then []
    else
      var p := Positionals(ts[..|ts| - 1]);
      match ts[|ts| - 1]
      case Flag(_, _) => p
      case Positional(text) => p + [text]
  }

  function Lookup(flags: map<string, string>, name: string): Option<string> {
    if name in flags then Some(flags[name]) else None
  }

  /** The `Args` record built from the flag dictionary and the positional list. `size`,
      `model` and `out` take their defaults when no flag of that name was read; `refPath` is
      absent exactly when no `--ref` flag was read. */
  function ArgsOf(ts: seq<Token>): (r: Args)
    ensures r.refPath.None? <==> !AnyFlagNamed(ts, "ref")
    ensures !AnyFlagNamed(ts, "size") ==> r.size == DefaultAspectRatio
    ensures !AnyFlagNamed(ts, "model") ==> r.model == DefaultModel
    ensures !AnyFlagNamed(ts, "out") ==> r.outDir == DefaultOutDir
  {
    FlagMapHasName(ts, "ref");
    FlagMapHasName(ts, "size");
    FlagMapHasName(ts, "model");
    FlagMapHasName(ts, "out");
    ArgsFrom(FlagMap(ts), Positionals(ts))
  }

  /** The record `parseArgs` returns from its dictionary and its positional list. */
  function ArgsFrom(flags: map<string, string>, positional: seq<string>): (r: Args)
    ensures r.refPath == Lookup(flags, "ref")
    ensures "size" !in flags ==> r.size == DefaultAspectRatio
    ensures "model" !in flags ==> r.model == DefaultModel
    ensures "out" !in flags ==> r.outDir == DefaultOutDir
  {
    Args(Join(positional, " "),
         Lookup(flags, "ref"),
         Lookup(flags, "size").GetOr(DefaultAspectRatio),
         Lookup(flags, "model").GetOr(DefaultModel),
         Lookup(flags, "out").GetOr(DefaultOutDir))
  }

  /** `parseArgs`: the scan loop, filling a dictionary and a list in place. */
  method ParseArgs(argv: seq<string>) returns (args: Args)
    ensures args == ArgsOf(Tokens(argv))
  {
    var flags: map<string, string> := map[];
    var positional: seq<string> := [];
    ghost var done: seq<Token> := [];
    var i := 0;
    while i < |argv|
      invariant 0 <= i <= |argv|
      invariant done + Tokens(argv[i..]) == Tokens(argv)
      invariant flags == FlagMap(done)
      invariant positional == Positionals(done)
    {
      TokensFrom(argv, i);
      if IsFlagEntry(argv[i]) && i + 1 < |argv| {
        ghost var t := Flag(argv[i][2..], argv[i + 1]);
        flags := flags[argv[i][2..] := argv[i + 1]];
        ReadToken(done, t);
        MoveToken(done, t, Tokens(argv[i + 2..]));
        done := done + [t];
        i := i + 2;  // the value has been consumed
      } else {
        ghost var t := Positional(argv[i]);
        positional := positional + [argv[i]];
        ReadToken(done, t);
        MoveToken(done, t, Tokens(argv[i + 1..]));
        done := done + [t];
        i := i + 1;
      }
    }
    assert argv[|argv|..] == [];
    assert done == Tokens(argv);
    args := ArgsFrom(flags, positional);
  }

  /** The token read at entry `i` and the entries after it. */
  lemma TokensFrom(argv: seq<string>, i: nat)
    requires i < |argv|
    ensures IsFlagEntry(argv[i]) && i + 1 < |argv| ==>
      Tokens(argv[i..]) == [Flag(argv[i][2..], argv[i + 1])] + Tokens(argv[i + 2..])
    ensures !(IsFlagEntry(argv[i]) && i + 1 < |argv|) ==>
      Tokens(argv[i..]) == [Positional(argv[i])] + Tokens(argv[i + 1..])
  {
    assert argv[i..][0] == argv[i];
    if i + 1 < |argv| {
      assert argv[i..][1] == argv[i + 1];
      assert argv[i..][2..] == argv[i + 2..];
    }
    assert argv[i..][1..] == argv[i + 1..];
  }

  /** Moving the token just read from the unread tokens to the read ones. */
  lemma MoveToken(done: seq<Token>, t: Token, rest: seq<Token>)
    ensures (done + [t]) + rest == done + ([t] + rest)
  {
  }

  /** Reading one more token updates the dictionary or the positional list. */
  lemma ReadToken(done: seq<Token>, t: Token)
    ensures t.Flag? ==> FlagMap(done + [t]) == FlagMap(done)[t.name := t.value]
    ensures t.Flag? ==> Positionals(done + [t]) == Positionals(done)
    ensures t.Positional? ==> FlagMap(done + [t]) == FlagMap(done)
    ensures t.Positional? ==> Positionals(done + [t]) == Positionals(done) + [t.text]
  {
    assert (done + [t])[..|done + [t]| - 1] == done;
  }

  // ----- Properties of the scan -----

  lemma SpellOfCons(t: Token, ts: seq<Token>)
    ensures Spell([t] + ts) == Spelling(t) + Spell(ts)
  {
    assert ([t] + ts)[1..] == ts;
  }

  /** Every entry of `argv` is read exactly once, in order, either as a flag (the entry
      `"--" + name`, then its value) or as positional text: spelling the tokens back gives
      `argv`. */
  lemma {:induction false} TokensReadEveryEntryOnce(argv: seq<string>)
    ensures Spell(Tokens(argv)) == argv
    decreases |argv|
  {
    if |argv| > 0 {
      if IsFlagEntry(argv[0]) && 1 < |argv| {
        TokensReadEveryEntryOnce(argv[2..]);
        SpellOfCons(Flag(argv[0][2..], argv[1]), Tokens(argv[2..]));
        assert "--" + argv[0][2..] == argv[0];
        assert argv == [argv[0], argv[1]] + argv[2..];
      } else {
        TokensReadEveryEntryOnce(argv[1..]);
        SpellOfCons(Positional(argv[0]), Tokens(argv[1..]));
        assert argv == [argv[0]] + argv[1..];
      }
    }
  }

  /** The `k`-th token is read starting at entry `j` of `argv`, the number of entries the
      earlier tokens took. It is a flag named after `argv[j]` minus its `--`, with `argv[j + 1]`
      as value, exactly when `argv[j]` starts with `--` and has a successor; otherwise it is the
      positional entry `argv[j]`. In particular a `--x` entry met in last position stays
      positional text. */
  lemma {:induction false} TokenAt(argv: seq<string>, k: nat)
    requires k < |Tokens(argv)|
    ensures var j := |Spell(Tokens(argv)[..k])|;
      && j < |argv|
      && (IsFlagEntry(argv[j]) && j + 1 < |argv| ==> Tokens(argv)[k] == Flag(argv[j][2..], argv[j + 1]))
      && (!(IsFlagEntry(argv[j]) && j + 1 < |argv|) ==> Tokens(argv)[k] == Positional(argv[j]))
    decreases |argv|
  {
    var ts := Tokens(argv);
    if k == 0 {
      assert ts[..0] == [];
    } else {
      var step := if IsFlagEntry(argv[0]) && 1 < |argv| then 2 else 1;
      var rest := argv[step..];
      assert ts == [ts[0]] + Tokens(rest);
      assert |Spelling(ts[0])| == step;
      TokenAt(rest, k - 1);
      assert ts[..k] == [ts[0]] + Tokens(rest)[..k - 1];
      SpellOfCons(ts[0], Tokens(rest)[..k - 1]);
      var j' := |Spell(Tokens(rest)[..k - 1])|;
      assert |Spell(ts[..k])| == step + j';
      assert rest[j'] == argv[j' + step];
      assert j' + 1 < |rest| ==> rest[j' + 1] == argv[j' + step + 1];
    }
  }

  /** The last entry of a non-empty `argv` is never the name of a flag: it is read either as
      positional text or as the value of the flag before it. */
  lemma {:induction false} LastEntryNeverNamesFlag(argv: seq<string>)
    requires |argv| > 0
    ensures |Tokens(argv)| > 0
    ensures var last := Tokens(argv)[|Tokens(argv)| - 1];
      last == Positional(argv[|argv| - 1]) || (last.Flag? && last.value == argv[|argv| - 1])
    decreases |argv|
  {
    var step := if IsFlagEntry(argv[0]) && 1 < |argv| then 2 else 1;
    if step < |argv| {
      LastEntryNeverNamesFlag(argv[step..]);
    } else {
      assert Tokens(argv[step..]) == [];
    }
  }

  predicate AnyFlagNamed(ts: seq<Token>, name: string) {
    exists i :: 0 <= i < |ts| && NamesFlag(ts[i], name)
  }

  /** `ts[i]` is the last flag token with this name. */
  predicate LastFlagNamed(ts: seq<Token>, name: string, i: int) {
    0 <= i < |ts| && NamesFlag(ts[i], name) && forall j :: i < j < |ts| ==> !NamesFlag(ts[j], name)
  }

  /** A name is in the flag dictionary exactly when some flag token has that name. */
  lemma {:induction false} FlagMapHasName(ts: seq<Token>, name: string)
    ensures name in FlagMap(ts) <==> AnyFlagNamed(ts, name)
    decreases |ts|
  {
    if |ts| > 0 {
      var n := |ts| - 1;
      var init := ts[..n];
      FlagMapHasName(init, name);
      if AnyFlagNamed(init, name) {
        var i :| 0 <= i < |init| && NamesFlag(init[i], name);
        assert NamesFlag(ts[i], name);
      }
      if AnyFlagNamed(ts, name) && !NamesFlag(ts[n], name) {
        var i :| 0 <= i < |ts| && NamesFlag(ts[i], name);
        assert NamesFlag(init[i], name);
      }
    }
  }

  /** A repeated flag keeps its last value: the dictionary holds the value of the last flag
      token with that name. */
  lemma {:induction false} FlagMapLastWins(ts: seq<Token>, name: string, i: int)
    requires LastFlagNamed(ts, name, i)
    ensures name in FlagMap(ts) && FlagMap(ts)[name] == ts[i].value
    decreases |ts|
  {
    var n := |ts| - 1;
    if i < n {
      var init := ts[..n];
      assert !NamesFlag(ts[n], name);
      assert forall j :: i < j < n ==> init[j] == ts[j];
      FlagMapLastWins(init, name, i);
    }
  }

  /** A flag that was read sets its field: `size`, `model`, `out` and `ref` take the value of
      the last flag of that name. */
  lemma ArgsSettings(ts: seq<Token>)
    ensures forall i :: LastFlagNamed(ts, "ref", i) ==> ArgsOf(ts).refPath == Some(ts[i].value)
    ensures forall i :: LastFlagNamed(ts, "size", i) ==> ArgsOf(ts).size == ts[i].value
    ensures forall i :: LastFlagNamed(ts, "model", i) ==> ArgsOf(ts).model == ts[i].value
    ensures forall i :: LastFlagNamed(ts, "out", i) ==> ArgsOf(ts).outDir == ts[i].value
  {
    forall name, i | LastFlagNamed(ts, name, i)
      ensures name in FlagMap(ts) && FlagMap(ts)[name] == ts[i].value
    {
      FlagMapLastWins(ts, name, i);
    }
  }

  /** The positional text comes from the positional tokens alone, in order. */
  lemma {:induction false} PositionalsInOrder(ts: seq<Token>)
    ensures |Positionals(ts)| <= |ts|
    ensures forall s :: s in Positionals(ts) <==> Positional(s) in ts
    decreases |ts|
  {
    if |ts| > 0 {
      var n := |ts| - 1;
      PositionalsInOrder(ts[..n]);
      assert ts == ts[..n] + [ts[n]];
    }
  }

  /** Positional text keeps the order of `argv`: the positionals of a concatenation are those
      of the first part followed by those of the second. */
  lemma {:induction false} PositionalsOfAppend(a: seq<Token>, b: seq<Token>)
    ensures Positionals(a + b) == Positionals(a) + Positionals(b)
    decreases |b|
  {
    if |b| == 0 {
      assert a + b == a;
    } else {
      var n := |b| - 1;
      assert (a + b)[..|a + b| - 1] == a + b[..n];
      assert (a + b)[|a + b| - 1] == b[n];
      PositionalsOfAppend(a, b[..n]);
    }
  }

  /** The prompt is empty exactly when there is no positional entry, or a single empty one. */
  lemma PromptIsEmpty(ts: seq<Token>)
    ensures ArgsOf(ts).prompt == "" <==>
      (|Positionals(ts)| == 0 || (|Positionals(ts)| == 1 && Positionals(ts)[0] == ""))
  {
    JoinIsEmpty(Positionals(ts), " ");
  }
}
