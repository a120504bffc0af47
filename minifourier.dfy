/**
 * The command-line driver: options parsed into the argument state, the
 * defaults, the checks made before any file is read, and the frame loop that
 * accumulates harmonic modes and writes one picture per frame.
 *
 * Numeric conversion of option parameters, the floating-point projection onto
 * the basis, the loading of the source picture and the merge, draw and write of
 * every frame are outside this model; they enter as function parameters.
 */
module MiniFourier {
  import opened Ints
  import opened DoublesList

  // ---------------------------------------------------------------------------
  // The option table
  // ---------------------------------------------------------------------------

  /** The orthogonal function bases that `--base` can select. */
  datatype Basis = Fourier | Heaviside | Legendre

  /** The options of the command line. */
  datatype Kind =
    | Source | DestinationPrefix | Base | StartingMode | ModeIncrement | ModeQuad
    | Pictures | XScale | XShift | YScale | YShift | Help

  /** The option table, in the order in which it is searched. */
  const Table: seq<Kind> :=
    [Source, DestinationPrefix, Base, StartingMode, ModeIncrement, ModeQuad,
     Pictures, XScale, XShift, YScale, YShift, Help]

  /** The name that follows `--` on the command line. */
  function Name(k: Kind): string
  {
    match k
    case Source => "source"
    case DestinationPrefix => "destination_prefix"
    case Base => "base"
    case StartingMode => "starting_mode"
    case ModeIncrement => "mode_increment"
    case ModeQuad => "mode_quad"
    case Pictures => "pictures"
    case XScale => "xscale"
    case XShift => "xshift"
    case YScale => "yscale"
    case YShift => "yshift"
    case Help => "help"
  }

  /** Every option but `--help` consumes the next argument as its parameter. */
  predicate Parameterised(k: Kind)
  {
    k != Help
  }

  /** The option called `name`, if there is one. */
  function KindNamed(name: string): (r: Option<Kind>)
    ensures r.Some? ==> Name(r.value) == name
    ensures r.None? ==> forall k: Kind :: Name(k) != name
  {
    if name == "source" then Some(Source)
    else if name == "destination_prefix" then Some(DestinationPrefix)
    else if name == "base" then Some(Base)
    else if name == "starting_mode" then Some(StartingMode)
    else if name == "mode_increment" then Some(ModeIncrement)
    else if name == "mode_quad" then Some(ModeQuad)
    else if name == "pictures" then Some(Pictures)
    else if name == "xscale" then Some(XScale)
    else if name == "xshift" then Some(XShift)
    else if name == "yscale" then Some(YScale)
    else if name == "yshift" then Some(YShift)
    else if name == "help" then Some(Help)
    else None
  }

  /** Names are distinct, so an option is found again from its name. */
  lemma KindNamedName(k: Kind)
    ensures KindNamed(Name(k)) == Some(k)
  {
  }

  /** The table lists every option exactly once. */
  lemma TableListsAll(k: Kind)
    ensures k in Table
    ensures forall i, j :: 0 <= i < j < |Table| ==> Table[i] != Table[j]
  {
  }

  /** Linear search of the table for the option called `name`. */
  method FindOption(name: string) returns (at: nat)
    ensures at <= |Table|
    ensures at < |Table| ==> Name(Table[at]) == name
    ensures forall j :: 0 <= j < at ==> Name(Table[j]) != name
  {
    at := 0;
    while at < |Table|
      invariant at <= |Table|
      invariant forall j :: 0 <= j < at ==> Name(Table[j]) != name
    {
      if Name(Table[at]) == name {
        return;
      }
      at := at + 1;
    }
  }

  /** The result of a search, read as the option it designates. */
  lemma FoundOption(name: string, at: nat)
    requires at <= |Table|
    requires at < |Table| ==> Name(Table[at]) == name
    requires forall j :: 0 <= j < at ==> Name(Table[j]) != name
    ensures at < |Table| ==> KindNamed(name) == Some(Table[at])
    ensures at == |Table| ==> KindNamed(name) == None
  {
    if at < |Table| {
      KindNamedName(Table[at]);
    } else {
      forall k: Kind
        ensures Name(k) != name
      {
        TableListsAll(k);
      }
    }
  }

  /** The basis selected by a `--base` parameter. */
  function BasisNamed(p: string): (r: Option<Basis>)
    ensures r == Some(Fourier) <==> p == "fourier"
    ensures r == Some(Heaviside) <==> p == "heaviside"
    ensures r == Some(Legendre) <==> p == "legendre"
  {
    if p == "fourier" then Some(Fourier)
    else if p == "heaviside" then Some(Heaviside)
    else if p == "legendre" then Some(Legendre)
    else None
  }

  // ---------------------------------------------------------------------------
  // The argument state
  // ---------------------------------------------------------------------------

  /**
   * Conversions of option parameters, which the model does not define. Each
   * gives the converted value and whether the whole parameter was consumed.
   */
  datatype Converters = Converters(toSize: string -> (u64, bool), toReal: string -> (real, bool))

  /** A count and the flag that says whether it was given. */
  datatype GivenSize = GivenSize(value: u64, given: bool)

  /** A real number and the flag that says whether it was given. */
  datatype GivenReal = GivenReal(value: real, given: bool)

  /** The argument state as a value, one field per option. */
  datatype Args = Args(
    source: Option<string>, destinationPrefix: Option<string>, base: Option<Basis>,
    startingMode: GivenSize, modeIncrement: GivenSize, modeQuad: GivenSize, pictures: GivenSize,
    xScale: GivenReal, xShift: GivenReal, yScale: GivenReal, yShift: GivenReal,
    helpSet: bool)

  /** The zero-initialised state that parsing starts from. */
  const Zero: Args :=
    Args(None, None, None, GivenSize(0, false), GivenSize(0, false), GivenSize(0, false), GivenSize(0, false),
         GivenReal(0.0, false), GivenReal(0.0, false), GivenReal(0.0, false), GivenReal(0.0, false), false)

  /** What one option holds in the state: its value and, for numbers, whether it was given. */
  datatype Setting =
    | Text(text: Option<string>)
    | Choice(choice: Option<Basis>)
    | Size(size: GivenSize)
    | Number(number: GivenReal)
    | Flag(flag: bool)

  /** The part of the state that belongs to option `k`. */
  function SettingOf(a: Args, k: Kind): Setting
  {
    match k
    case Source => Text(a.source)
    case DestinationPrefix => Text(a.destinationPrefix)
    case Base => Choice(a.base)
    case StartingMode => Size(a.startingMode)
    case ModeIncrement => Size(a.modeIncrement)
    case ModeQuad => Size(a.modeQuad)
    case Pictures => Size(a.pictures)
    case XScale => Number(a.xScale)
    case XShift => Number(a.xShift)
    case YScale => Number(a.yScale)
    case YShift => Number(a.yShift)
    case Help => Flag(a.helpSet)
  }

  /** Whether a setting counts as given. */
  predicate Filled(s: Setting)
  {
    match s
    case Text(t) => t.Some?
    case Choice(c) => c.Some?
    case Size(n) => n.given
    case Number(n) => n.given
    case Flag(f) => f
  }

  /** Option `k` has already been given. */
  predicate Has(a: Args, k: Kind)
  {
    Filled(SettingOf(a, k))
  }

  /** A setting of the shape that option `k` stores. */
  predicate Fits(k: Kind, s: Setting)
  {
    match k
    case Source => s.Text?
    case DestinationPrefix => s.Text?
    case Base => s.Choice?
    case StartingMode => s.Size?
    case ModeIncrement => s.Size?
    case ModeQuad => s.Size?
    case Pictures => s.Size?
    case XScale => s.Number?
    case XShift => s.Number?
    case YScale => s.Number?
    case YShift => s.Number?
    case Help => s.Flag?
  }

  /** The state with the part of option `k` replaced by `s`. */
  function Put(a: Args, k: Kind, s: Setting): Args
    requires Fits(k, s)
  {
    match k
    case Source => a.(source := s.text)
    case DestinationPrefix => a.(destinationPrefix := s.text)
    case Base => a.(base := s.choice)
    case StartingMode => a.(startingMode := s.size)
    case ModeIncrement => a.(modeIncrement := s.size)
    case ModeQuad => a.(modeQuad := s.size)
    case Pictures => a.(pictures := s.size)
    case XScale => a.(xScale := s.number)
    case XShift => a.(xShift := s.number)
    case YScale => a.(yScale := s.number)
    case YShift => a.(yShift := s.number)
    case Help => a.(helpSet := s.flag)
  }

  /** Replacing one option's part is seen by that option only. */
  lemma PutThenGet(a: Args, k: Kind, s: Setting, j: Kind)
    requires Fits(k, s)
    ensures SettingOf(Put(a, k, s), j) == if j == k then s else SettingOf(a, j)
  {
  }

  /** The setting that a parameter converts to: the converted value, given only if fully parsed. */
  function Convert(conv: Converters, k: Kind, p: string): (s: Setting)
    requires Parameterised(k)
    ensures Fits(k, s)
  {
    match k
    case Source => Text(Some(p))
    case DestinationPrefix => Text(Some(p))
    case Base => Choice(BasisNamed(p))
    case StartingMode => Size(GivenSize(conv.toSize(p).0, conv.toSize(p).1))
    case ModeIncrement => Size(GivenSize(conv.toSize(p).0, conv.toSize(p).1))
    case ModeQuad => Size(GivenSize(conv.toSize(p).0, conv.toSize(p).1))
    case Pictures => Size(GivenSize(conv.toSize(p).0, conv.toSize(p).1))
    case XScale => Number(GivenReal(conv.toReal(p).0, conv.toReal(p).1))
    case XShift => Number(GivenReal(conv.toReal(p).0, conv.toReal(p).1))
    case YScale => Number(GivenReal(conv.toReal(p).0, conv.toReal(p).1))
    case YShift => Number(GivenReal(conv.toReal(p).0, conv.toReal(p).1))
    case Help => Flag(true)
  }

  /** One option occurrence: the option and the parameter handed to its parser. */
  datatype Token = Token(kind: Kind, param: Option<string>)

  /** Whether a parser accepted its option, and the state it left. */
  datatype Applied = Applied(ok: bool, args: Args)

  /**
   * One option parser: it refuses an option given twice, a missing parameter
   * and a parameter on `--help`; otherwise it stores the converted parameter,
   * which fails when the conversion does not consume the whole parameter (the
   * number is stored all the same).
   */
  function Apply(conv: Converters, a: Args, t: Token): (r: Applied)
    ensures r.ok ==> !Has(a, t.kind) && (t.param.Some? <==> Parameterised(t.kind))
  {
    if Has(a, t.kind) then Applied(false, a)
    else if !Parameterised(t.kind) then
      if t.param.Some? then Applied(false, a) else Applied(true, Put(a, t.kind, Flag(true)))
    else if t.param.None? then Applied(false, a)
    else
      var s := Convert(conv, t.kind, t.param.value);
      Applied(Filled(s), Put(a, t.kind, s))
  }

  /** A repeated option, or a missing parameter, is refused and changes nothing. */
  lemma ApplyRefuses(conv: Converters, a: Args, t: Token)
    requires Has(a, t.kind) || (Parameterised(t.kind) && t.param.None?)
    ensures Apply(conv, a, t) == Applied(false, a)
  {
  }

  /** An accepted option is given afterwards, and every other option's part is left as it was. */
  lemma ApplyOnlyItsOption(conv: Converters, a: Args, t: Token, j: Kind)
    ensures Apply(conv, a, t).ok ==> !Has(a, t.kind) && Has(Apply(conv, a, t).args, t.kind)
    ensures j != t.kind ==> SettingOf(Apply(conv, a, t).args, j) == SettingOf(a, j)
  {
    if !Has(a, t.kind) && (!Parameterised(t.kind) || t.param.Some?) {
      if Parameterised(t.kind) {
        PutThenGet(a, t.kind, Convert(conv, t.kind, t.param.value), j);
        PutThenGet(a, t.kind, Convert(conv, t.kind, t.param.value), t.kind);
      } else {
        PutThenGet(a, t.kind, Flag(true), j);
        PutThenGet(a, t.kind, Flag(true), t.kind);
      }
    }
  }

  /** What one option does to the argument state. */
  type Step = (Args, Token) -> Applied

  /** The option parsers of the table, with the given number converters. */
  function Parser(conv: Converters): Step
  {
    (a: Args, t: Token) => Apply(conv, a, t)
  }

  /** The parsers applied in turn, stopping at the first refusal. */
  function ApplyAll(step: Step, a: Args, tokens: seq<Token>): Applied
    decreases |tokens|
  {
    if tokens == [] then Applied(true, a)
    else
      var o := step(a, tokens[0]);
      if !o.ok then o else ApplyAll(step, o.args, tokens[1..])
  }

  /** Applying two runs of options is applying the second from where the first left off. */
  lemma {:induction false} ApplyAllAppend(step: Step, a: Args, xs: seq<Token>, ys: seq<Token>)
    ensures ApplyAll(step, a, xs + ys) ==
            if ApplyAll(step, a, xs).ok then ApplyAll(step, ApplyAll(step, a, xs).args, ys)
            else ApplyAll(step, a, xs)
    decreases |xs|
  {
    if xs == [] {
      assert xs + ys == ys;
    } else {
      assert xs + ys != [];
      assert (xs + ys)[0] == xs[0];
      assert (xs + ys)[1..] == xs[1..] + ys;
      var o := step(a, xs[0]);
      if o.ok {
        ApplyAllAppend(step, o.args, xs[1..], ys);
      }
    }
  }

  /** One more option after an accepted run: its parser decides, and a refusal ends the run. */
  lemma ApplyAllStep(step: Step, a: Args, done: seq<Token>, t: Token, rest: seq<Token>)
    requires ApplyAll(step, a, done).ok
    ensures ApplyAll(step, a, done + [t]) == step(ApplyAll(step, a, done).args, t)
    ensures !step(ApplyAll(step, a, done).args, t).ok ==>
              ApplyAll(step, a, done + ([t] + rest)) == step(ApplyAll(step, a, done).args, t)
  {
    ApplyAllAppend(step, a, done, [t]);
    ApplyAllAppend(step, a, done, [t] + rest);
    assert ([t] + rest)[0] == t;
    assert [t][1..] == [];
  }

  /** An option that does not occur keeps its part of the state. */
  lemma {:induction false} ApplyAllOthers(conv: Converters, a: Args, tokens: seq<Token>, j: Kind)
    requires forall i :: 0 <= i < |tokens| ==> tokens[i].kind != j
    ensures SettingOf(ApplyAll(Parser(conv), a, tokens).args, j) == SettingOf(a, j)
    decreases |tokens|
  {
    if tokens != [] {
      ApplyOnlyItsOption(conv, a, tokens[0], j);
      var o := Apply(conv, a, tokens[0]);
      if o.ok {
        ApplyAllOthers(conv, o.args, tokens[1..], j);
      }
    }
  }

  /**
   * A run of options is accepted only if no option occurs twice and none was
   * given before; afterwards every one of them is given.
   */
  lemma {:induction false} ApplyAllAccepted(conv: Converters, a: Args, tokens: seq<Token>)
    requires ApplyAll(Parser(conv), a, tokens).ok
    ensures forall i, j :: 0 <= i < j < |tokens| ==> tokens[i].kind != tokens[j].kind
    ensures forall i :: 0 <= i < |tokens| ==> !Has(a, tokens[i].kind)
    ensures forall i :: 0 <= i < |tokens| ==> Has(ApplyAll(Parser(conv), a, tokens).args, tokens[i].kind)
    decreases |tokens|
  {
    if tokens != [] {
      var t := tokens[0];
      var rest := tokens[1..];
      var o := Apply(conv, a, t);
      ApplyOnlyItsOption(conv, a, t, t.kind);
      ApplyAllAccepted(conv, o.args, rest);
      forall i | 0 <= i < |rest|
        ensures rest[i].kind != t.kind && !Has(a, rest[i].kind)
      {
        ApplyOnlyItsOption(conv, a, t, rest[i].kind);
      }
      ApplyAllOthers(conv, o.args, rest, t.kind);
      forall i, j | 0 <= i < j < |tokens|
        ensures tokens[i].kind != tokens[j].kind
      {
        assert tokens[j] == rest[j - 1];
        if i > 0 {
          assert tokens[i] == rest[i - 1];
        }
      }
      forall i | 0 <= i < |tokens|
        ensures !Has(a, tokens[i].kind) && Has(ApplyAll(Parser(conv), a, tokens).args, tokens[i].kind)
      {
        if i > 0 {
          assert tokens[i] == rest[i - 1];
        }
      }
    }
  }

  // ---------------------------------------------------------------------------
  // The command line as a sequence of options
  // ---------------------------------------------------------------------------

  /** The options read from a command line, and whether it was read to the end without error. */
  datatype Tokens = Tokens(tokens: seq<Token>, complete: bool)

  /** A word that can name an option: at least two characters, the first two dashes. */
  predicate IsOptionWord(w: string)
  {
    |w| >= 2 && w[0] == '-' && w[1] == '-'
  }

  function Prefixed(done: seq<Token>, sp: Tokens): Tokens
  {
    Tokens(done + sp.tokens, sp.complete)
  }

  /**
   * The command-line words after the program name, read as options: `--name`
   * for a known option, followed by its parameter when it takes one. Reading
   * stops at an unknown or malformed word or a missing parameter.
   */
  function Split(words: seq<string>): (r: Tokens)
    ensures forall i :: 0 <= i < |r.tokens| ==> WellFormed(r.tokens[i])
    ensures |r.tokens| <= |words|
  {
    if words == [] then Tokens([], true)
    else if !IsOptionWord(words[0]) then Tokens([], false)
    else
      match KindNamed(words[0][2..])
      case None => Tokens([], false)
      case Some(k) =>
        if !Parameterised(k) then Prefixed([Token(k, None)], Split(words[1..]))
        else if |words| < 2 then Tokens([], false)
        else Prefixed([Token(k, Some(words[1]))], Split(words[2..]))
  }

  /** An option occurrence as the command line holds it: a parameter exactly for options that take one. */
  predicate WellFormed(t: Token)
  {
    t.param.Some? == Parameterised(t.kind)
  }

  /** The command-line words that spell a sequence of options. */
  function Words(tokens: seq<Token>): seq<string>
  {
    if tokens == [] then []
    else
      ["--" + Name(tokens[0].kind)]
      + (if tokens[0].param.Some? then [tokens[0].param.value] else [])
      + Words(tokens[1..])
  }

  /** Reading a command line that was read completely and spelling it again gives it back. */
  lemma {:induction false} WordsOfSplit(words: seq<string>)
    ensures forall i :: 0 <= i < |Split(words).tokens| ==> WellFormed(Split(words).tokens[i])
    ensures Split(words).complete ==> Words(Split(words).tokens) == words
  {
    if words != [] && IsOptionWord(words[0]) && KindNamed(words[0][2..]).Some? {
      var k := KindNamed(words[0][2..]).value;
      assert "--" + Name(k) == words[0];
      var n := if Parameterised(k) then 2 else 1;
      if |words| >= n {
        var t := Token(k, if Parameterised(k) then Some(words[1]) else None);
        var rest := Split(words[n..]);
        assert Split(words) == Tokens([t] + rest.tokens, rest.complete);
        if rest.complete {
          WordsOfSplit(words[n..]);
          WordsCons(t, rest.tokens);
          assert words == words[..n] + words[n..];
        }
      }
    }
  }

  /** The words of a non-empty sequence of options: the first option's, then the rest's. */
  lemma WordsCons(t: Token, rest: seq<Token>)
    ensures Words([t] + rest) == ["--" + Name(t.kind)] + (if t.param.Some? then [t.param.value] else []) + Words(rest)
  {
    assert ([t] + rest)[1..] == rest;
  }

  /** Spelling well-formed options and reading them back gives the same options, completely. */
  lemma {:induction false} SplitOfWords(tokens: seq<Token>)
    requires forall i :: 0 <= i < |tokens| ==> WellFormed(tokens[i])
    ensures Split(Words(tokens)) == Tokens(tokens, true)
  {
    if tokens != [] {
      var t := tokens[0];
      var w := Words(tokens);
      SplitOfWords(tokens[1..]);
      KindNamedName(t.kind);
      assert ("--" + Name(t.kind))[2..] == Name(t.kind);
      assert w[0] == "--" + Name(t.kind);
      if t.param.Some? {
        assert w[1] == t.param.value;
        assert w[2..] == Words(tokens[1..]);
      } else {
        assert w[1..] == Words(tokens[1..]);
      }
      assert [t] + tokens[1..] == tokens;
    }
  }

  /** Reading stops at word `i` when it names no option or lacks the parameter its option takes. */
  lemma SplitStops(argv: seq<string>, i: nat)
    requires i < |argv|
    requires !IsOptionWord(argv[i]) || KindNamed(argv[i][2..]).None? ||
             (Parameterised(KindNamed(argv[i][2..]).value) && i + 1 >= |argv|)
    ensures Split(argv[i..]) == Tokens([], false)
  {
    assert argv[i..][0] == argv[i];
  }

  /** Word `i` names option `t.kind` and, with its parameter, reads as `t`; reading goes on at `next`. */
  lemma SplitTakes(argv: seq<string>, i: nat, t: Token, next: nat)
    requires i < |argv| && IsOptionWord(argv[i]) && KindNamed(argv[i][2..]) == Some(t.kind)
    requires next == if Parameterised(t.kind) then i + 2 else i + 1
    requires next <= |argv|
    requires t.param == if Parameterised(t.kind) then Some(argv[i + 1]) else None
    ensures Split(argv[i..]) == Prefixed([t], Split(argv[next..]))
  {
    assert argv[i..][0] == argv[i];
    assert argv[i..][1..] == argv[i + 1..];
    if Parameterised(t.kind) {
      assert argv[i..][1] == argv[i + 1];
      assert argv[i..][2..] == argv[i + 2..];
    }
  }

  /** Options read so far, then one more, then the rest. */
  lemma PrefixedAppend(done: seq<Token>, t: Token, rest: Tokens)
    ensures Prefixed(done, Prefixed([t], rest)) == Prefixed(done + [t], rest)
  {
    assert done + ([t] + rest.tokens) == (done + [t]) + rest.tokens;
  }

  /** One step of reading the command line: the option read and the word where reading goes on, or a stop. */
  datatype Read = Stop | Took(token: Token, next: nat)

  /**
   * Reads the option at word `i`: `--name` for a known option, then its
   * parameter when it takes one.
   */
  method ReadOption(argv: seq<string>, i: nat) returns (r: Read)
    requires i < |argv|
    ensures r.Stop? ==> Split(argv[i..]) == Tokens([], false)
    ensures r.Took? ==> i < r.next <= |argv| && Split(argv[i..]) == Prefixed([r.token], Split(argv[r.next..]))
  {
    var word := argv[i];
    if !IsOptionWord(word) {
      SplitStops(argv, i);
      return Stop;
    }
    var at := FindOption(word[2..]);
    FoundOption(word[2..], at);
    if at == |Table| {
      SplitStops(argv, i);
      return Stop;
    }
    var k := Table[at];
    if Parameterised(k) {
      if i + 1 >= |argv| {
        SplitStops(argv, i);
        return Stop;
      }
      r := Took(Token(k, Some(argv[i + 1])), i + 2);
    } else {
      r := Took(Token(k, None), i + 1);
    }
    SplitTakes(argv, i, r.token, r.next);
  }

  /** The words of a C argument vector after the program name. */
  function Arguments(argv: seq<string>): seq<string>
  {
    if argv == [] then [] else argv[1..]
  }

  /**
   * The outcome of reading command line `argv` from state `start`: the line
   * must read completely as options and every parser must accept them, and the
   * state is what the parsers left, up to the first refusal.
   */
  predicate ParsedAs(step: Step, start: Args, argv: seq<string>, ok: bool, v: Args)
  {
    Outcome(step, start, Split(Arguments(argv)), ok, v)
  }

  /** The outcome of applying the options read, `sp`, from state `start`. */
  predicate Outcome(step: Step, start: Args, sp: Tokens, ok: bool, v: Args)
  {
    var o := ApplyAll(step, start, sp.tokens);
    ok == (o.ok && sp.complete) && v == o.args
  }

  /** Reading stops after the options `done`, all of them accepted. */
  lemma ParsedEnd(step: Step, start: Args, sp: Tokens, done: seq<Token>, v: Args, complete: bool)
    requires sp == Prefixed(done, Tokens([], complete))
    requires ApplyAll(step, start, done) == Applied(true, v)
    ensures Outcome(step, start, sp, complete, v)
  {
    assert done + [] == done;
  }

  /** Reading stops at option `t`, which its parser refuses. */
  lemma ParsedRefused(step: Step, start: Args, sp: Tokens, done: seq<Token>, t: Token, rest: Tokens, v: Args)
    requires sp == Prefixed(done + [t], rest)
    requires ApplyAll(step, start, done).ok
    requires step(ApplyAll(step, start, done).args, t) == Applied(false, v)
    ensures Outcome(step, start, sp, false, v)
  {
    ApplyAllStep(step, start, done, t, rest.tokens);
    assert (done + [t]) + rest.tokens == done + ([t] + rest.tokens);
  }

  // ---------------------------------------------------------------------------
  // The argument state as an object
  // ---------------------------------------------------------------------------

  /**
   * The argument state that the option parsers fill in place. Each number is
   * kept together with the flag that says whether it was given.
   */
  class ArgsState {
    var source: Option<string>
    var destinationPrefix: Option<string>
    var base: Option<Basis>
    var startingMode: GivenSize
    var modeIncrement: GivenSize
    var modeQuad: GivenSize
    var pictures: GivenSize
    var xScale: GivenReal
    var xShift: GivenReal
    var yScale: GivenReal
    var yShift: GivenReal
    var helpSet: bool

    /** The fields as a value. */
    function Value(): Args
      reads this
    {
      Args(source, destinationPrefix, base, startingMode, modeIncrement, modeQuad, pictures,
           xScale, xShift, yScale, yShift, helpSet)
    }

    /** A state with every field zero. */
    constructor ()
      ensures Value() == Zero
    {
      source, destinationPrefix, base := None, None, None;
      startingMode, modeIncrement := GivenSize(0, false), GivenSize(0, false);
      modeQuad, pictures := GivenSize(0, false), GivenSize(0, false);
      xScale, xShift := GivenReal(0.0, false), GivenReal(0.0, false);
      yScale, yShift := GivenReal(0.0, false), GivenReal(0.0, false);
      helpSet := false;
    }

    method ParseSource(arg: Option<string>, conv: Converters) returns (r: int)
      modifies this
      ensures r == 0 || r == -1
      ensures Applied(r == 0, Value()) == Apply(conv, old(Value()), Token(Source, arg))
    {
      if source.Some? {
        return -1;
      }
      if arg.None? {
        return -1;
      }
      source := arg;
      return 0;
    }

    method ParseDestinationPrefix(arg: Option<string>, conv: Converters) returns (r: int)
      modifies this
      ensures r == 0 || r == -1
      ensures Applied(r == 0, Value()) == Apply(conv, old(Value()), Token(DestinationPrefix, arg))
    {
      if destinationPrefix.Some? {
        return -1;
      }
      if arg.None? {
        return -1;
      }
      destinationPrefix := arg;
      return 0;
    }

    method ParseBase(arg: Option<string>, conv: Converters) returns (r: int)
      modifies this
      ensures r == 0 || r == -1
      ensures Applied(r == 0, Value()) == Apply(conv, old(Value()), Token(Base, arg))
    {
      if base.Some? {
        return -1;
      }
      if arg.None? {
        return -1;
      }
      if arg.value == "fourier" {
        base := Some(Fourier);
      } else if arg.value == "heaviside" {
        base := Some(Heaviside);
      } else if arg.value == "legendre" {
        base := Some(Legendre);
      } else {
        return -1;
      }
      return 0;
    }

    method ParseStartingMode(arg: Option<string>, conv: Converters) returns (r: int)
      modifies this
      ensures r == 0 || r == -1
      ensures Applied(r == 0, Value()) == Apply(conv, old(Value()), Token(StartingMode, arg))
    {
      if startingMode.given {
        return -1;
      }
      if arg.None? {
        return -1;
      }
      var (v, whole) := conv.toSize(arg.value);
      startingMode := GivenSize(v, whole);
      if !whole {
        return -1;
      }
      return 0;
    }

    method ParseModeIncrement(arg: Option<string>, conv: Converters) returns (r: int)
      modifies this
      ensures r == 0 || r == -1
      ensures Applied(r == 0, Value()) == Apply(conv, old(Value()), Token(ModeIncrement, arg))
    {
      if modeIncrement.given {
        return -1;
      }
      if arg.None? {
        return -1;
      }
      var (v, whole) := conv.toSize(arg.value);
      modeIncrement := GivenSize(v, whole);
      if !whole {
        return -1;
      }
      return 0;
    }

    method ParseModeQuad(arg: Option<string>, conv: Converters) returns (r: int)
      modifies this
      ensures r == 0 || r == -1
      ensures Applied(r == 0, Value()) == Apply(conv, old(Value()), Token(ModeQuad, arg))
    {
      if modeQuad.given {
        return -1;
      }
      if arg.None? {
        return -1;
      }
      var (v, whole) := conv.toSize(arg.value);
      modeQuad := GivenSize(v, whole);
      if !whole {
        return -1;
      }
      return 0;
    }

    method ParsePictures(arg: Option<string>, conv: Converters) returns (r: int)
      modifies this
      ensures r == 0 || r == -1
      ensures Applied(r == 0, Value()) == Apply(conv, old(Value()), Token(Pictures, arg))
    {
      if pictures.given {
        return -1;
      }
      if arg.None? {
        return -1;
      }
      var (v, whole) := conv.toSize(arg.value);
      pictures := GivenSize(v, whole);
      if !whole {
        return -1;
      }
      return 0;
    }

    method ParseXScale(arg: Option<string>, conv: Converters) returns (r: int)
      modifies this
      ensures r == 0 || r == -1
      ensures Applied(r == 0, Value()) == Apply(conv, old(Value()), Token(XScale, arg))
    {
      if xScale.given {
        return -1;
      }
      if arg.None? {
        return -1;
      }
      var (v, whole) := conv.toReal(arg.value);
      xScale := GivenReal(v, whole);
      if !whole {
        return -1;
      }
      return 0;
    }

    method ParseXShift(arg: Option<string>, conv: Converters) returns (r: int)
      modifies this
      ensures r == 0 || r == -1
      ensures Applied(r == 0, Value()) == Apply(conv, old(Value()), Token(XShift, arg))
    {
      if xShift.given {
        return -1;
      }
      if arg.None? {
        return -1;
      }
      var (v, whole) := conv.toReal(arg.value);
      xShift := GivenReal(v, whole);
      if !whole {
        return -1;
      }
      return 0;
    }

    method ParseYScale(arg: Option<string>, conv: Converters) returns (r: int)
      modifies this
      ensures r == 0 || r == -1
      ensures Applied(r == 0, Value()) == Apply(conv, old(Value()), Token(YScale, arg))
    {
      if yScale.given {
        return -1;
      }
      if arg.None? {
        return -1;
      }
      var (v, whole) := conv.toReal(arg.value);
      yScale := GivenReal(v, whole);
      if !whole {
        return -1;
      }
      return 0;
    }

    method ParseYShift(arg: Option<string>, conv: Converters) returns (r: int)
      modifies this
      ensures r == 0 || r == -1
      ensures Applied(r == 0, Value()) == Apply(conv, old(Value()), Token(YShift, arg))
    {
      if yShift.given {
        return -1;
      }
      if arg.None? {
        return -1;
      }
      var (v, whole) := conv.toReal(arg.value);
      yShift := GivenReal(v, whole);
      if !whole {
        return -1;
      }
      return 0;
    }

    method ParseHelp(arg: Option<string>, conv: Converters) returns (r: int)
      modifies this
      ensures r == 0 || r == -1
      ensures Applied(r == 0, Value()) == Apply(conv, old(Value()), Token(Help, arg))
    {
      if helpSet {
        return -1;
      }
      if arg.Some? {
        return -1;
      }
      helpSet := true;
      return 0;
    }

    /** The parser of option `k`, as the option table names it. */
    method ParseOption(k: Kind, arg: Option<string>, conv: Converters) returns (r: int)
      modifies this
      ensures r == 0 || r == -1
      ensures Applied(r == 0, Value()) == Apply(conv, old(Value()), Token(k, arg))
    {
      match k
      case Source => r := ParseSource(arg, conv);
      case DestinationPrefix => r := ParseDestinationPrefix(arg, conv);
      case Base => r := ParseBase(arg, conv);
      case StartingMode => r := ParseStartingMode(arg, conv);
      case ModeIncrement => r := ParseModeIncrement(arg, conv);
      case ModeQuad => r := ParseModeQuad(arg, conv);
      case Pictures => r := ParsePictures(arg, conv);
      case XScale => r := ParseXScale(arg, conv);
      case XShift => r := ParseXShift(arg, conv);
      case YScale => r := ParseYScale(arg, conv);
      case YShift => r := ParseYShift(arg, conv);
      case Help => r := ParseHelp(arg, conv);
    }

    /**
     * Reads the command line after the program name option by option. It
     * succeeds exactly when the whole line reads as options and every parser
     * accepts; the state is what the parsers left, up to the first refusal.
     */
    method ParseArgs(argv: seq<string>, conv: Converters) returns (r: int)
      modifies this
      ensures r == 0 || r == -1
      ensures ParsedAs(Parser(conv), old(Value()), argv, r == 0, Value())
    {
      ghost var start := Value();
      ghost var step := Parser(conv);
      ghost var done: seq<Token> := [];
      var i := 1;
      while i < |argv|
        invariant 1 <= i
        invariant i <= |argv| || argv == []
        invariant Split(Arguments(argv)) == Prefixed(done, Split(if i <= |argv| then argv[i..] else []))
        invariant ApplyAll(step, start, done) == Applied(true, Value())
        decreases |argv| - i
      {
        var read := ReadOption(argv, i);
        if read.Stop? {
          ParsedEnd(step, start, Split(Arguments(argv)), done, Value(), false);
          return -1;
        }
        var t := read.token;
        ghost var rest := Split(argv[read.next..]);
        PrefixedAppend(done, t, rest);
        ApplyAllStep(step, start, done, t, rest.tokens);
        r := ParseOption(t.kind, t.param, conv);
        if r != 0 {
          ParsedRefused(step, start, Split(Arguments(argv)), done, t, rest, Value());
          return -1;
        }
        done := done + [t];
        i := read.next;
      }
      ParsedEnd(step, start, Split(Arguments(argv)), done, Value(), true);
      return 0;
    }

    /**
     * Fills every option not given with its default. It fails, changing
     * nothing, when no source was given.
     */
    method SetDefaults() returns (r: int)
      modifies this
      ensures r == 0 || r == -1
      ensures (r == 0) == old(source).Some?
      ensures r == 0 ==> Value() == Defaults(old(Value()))
      ensures r != 0 ==> Value() == old(Value())
    {
      if source.None? {
        return -1;
      }
      var d := Defaults(Value());
      destinationPrefix, base := d.destinationPrefix, d.base;
      startingMode, modeIncrement, modeQuad, pictures := d.startingMode, d.modeIncrement, d.modeQuad, d.pictures;
      xScale, xShift, yScale, yShift := d.xScale, d.xShift, d.yScale, d.yShift;
      return 0;
    }
  }

  // ---------------------------------------------------------------------------
  // Defaults
  // ---------------------------------------------------------------------------

  /** The default of each option, as the option table documents it; the prefix defaults to the source. */
  function DefaultSetting(k: Kind, source: string): Setting
  {
    match k
    case Source => Text(Some(source))
    case DestinationPrefix => Text(Some(source))
    case Base => Choice(Some(Fourier))
    case StartingMode => Size(GivenSize(0, true))
    case ModeIncrement => Size(GivenSize(1, true))
    case ModeQuad => Size(GivenSize(0, true))
    case Pictures => Size(GivenSize(1, true))
    case XScale => Number(GivenReal(1.0, true))
    case XShift => Number(GivenReal(0.0, true))
    case YScale => Number(GivenReal(1.0, true))
    case YShift => Number(GivenReal(0.0, true))
    case Help => Flag(false)
  }

  /** A count that was given, or else the default, given from now on. */
  function SizeOrDefault(n: GivenSize, deflt: u64): GivenSize
  {
    if n.given then n else GivenSize(deflt, true)
  }

  /** A real number that was given, or else the default, given from now on. */
  function RealOrDefault(n: GivenReal, deflt: real): GivenReal
  {
    if n.given then n else GivenReal(deflt, true)
  }

  /** The state with every option that was not given set to its default. */
  function Defaults(a: Args): (d: Args)
    requires a.source.Some?
    ensures d.source == a.source && d.destinationPrefix.Some? && d.helpSet == a.helpSet
  {
    var prefix := if a.destinationPrefix.None? then a.source else a.destinationPrefix;
    var base := if a.base.None? then Some(Fourier) else a.base;
    Args(a.source, prefix, base,
         SizeOrDefault(a.startingMode, 0), SizeOrDefault(a.modeIncrement, 1),
         SizeOrDefault(a.modeQuad, 0), SizeOrDefault(a.pictures, 1),
         RealOrDefault(a.xScale, 1.0), RealOrDefault(a.xShift, 0.0),
         RealOrDefault(a.yScale, 1.0), RealOrDefault(a.yShift, 0.0), a.helpSet)
  }

  /**
   * After the defaults every option but `--help` is given: a given option keeps
   * its value and any other takes the default the option table documents.
   */
  lemma DefaultsFill(a: Args, k: Kind)
    requires a.source.Some?
    ensures k != Help ==> Has(Defaults(a), k)
    ensures SettingOf(Defaults(a), k) ==
            if Has(a, k) || k == Help then SettingOf(a, k) else DefaultSetting(k, a.source.value)
  {
  }

  /** Filling the defaults a second time changes nothing. */
  lemma DefaultsIdempotent(a: Args)
    requires a.source.Some?
    ensures Defaults(Defaults(a)) == Defaults(a)
  {
  }
}
