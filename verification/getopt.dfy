/**
 * GetOpt: the command-line reader. Each declared option names how many values
 * it takes; the values that follow it are collected under it, and an argument
 * that is neither a declared option nor an awaited value is an error.
 */
module CommandLine {
  import opened Results

  /** size_t is a 64-bit unsigned integer. */
  const SizeTModulus: int := 0x1_0000_0000_0000_0000

  /** The conversion of an `int` to `size_t`: wraps modulo 2^64. */
  function SizeT(n: int): (r: nat)
    ensures r < SizeTModulus
    ensures 0 <= n < SizeTModulus ==> r == n
    ensures -SizeTModulus <= n < 0 ==> r == n + SizeTModulus
  {
    n % SizeTModulus
  }

  /** The runtime error thrown for an unexpected argument. */
  datatype OptError = InvalidOptions

  /** Option, value count and collected values of the options seen so far. */
  datatype OptState = OptState(vals: map<string, seq<string>>, curOpt: string, curNvals: nat)

  /** The state before the first argument. */
  const Initial: OptState := OptState(map[], "", 0)

  /** The values collected under `opt`; an absent key reads as empty. */
  function ValuesOf(vals: map<string, seq<string>>, opt: string): seq<string>
  {
    if opt in vals then vals[opt] else []
  }

  /** One argument: a declared option starts (or restarts) its list; otherwise
      the argument is a value of the current option while it awaits some;
      otherwise the argument is rejected. */
  function Step(optsNvals: map<string, int>, st: OptState, arg: string): (r: Result<OptState, OptError>)
    ensures r.Err? <==> arg !in optsNvals && st.curNvals == 0
  {
    if arg in optsNvals then Ok(OptState(st.vals[arg := []], arg, SizeT(optsNvals[arg])))
    else if st.curNvals > 0 then
      Ok(OptState(st.vals[st.curOpt := ValuesOf(st.vals, st.curOpt) + [arg]], st.curOpt, st.curNvals - 1))
    else Err(InvalidOptions)
  }

  /** The arguments `xs`, read front to back from state `st`. */
  function Run(optsNvals: map<string, int>, st: OptState, xs: seq<string>): Result<OptState, OptError>
    decreases |xs|
  {
    if xs == [] then Ok(st)
    else
      match Run(optsNvals, st, xs[..|xs| - 1])
      case Err(e) => Err(e)
      case Ok(before) => Step(optsNvals, before, xs[|xs| - 1])
  }

  /** Continues a run that may already have failed. */
  function Continue(optsNvals: map<string, int>, r: Result<OptState, OptError>, ys: seq<string>): Result<OptState, OptError>
  {
    match r
    case Err(e) => Err(e)
    case Ok(st) => Run(optsNvals, st, ys)
  }

  /** argv without the program name. */
  function Arguments(args: seq<string>): seq<string>
  {
    if args == [] then [] else args[1..]
  }

  /** What GetOpt returns for `args`, or the error it throws. */
  function ParseOptions(args: seq<string>, optsNvals: map<string, int>): Result<map<string, seq<string>>, OptError>
  {
    match Run(optsNvals, Initial, Arguments(args))
    case Err(e) => Err(e)
    case Ok(st) => Ok(st.vals)
  }

  /** Reads the arguments after the program name, as ParseOptions describes. */
  method GetOpt(args: seq<string>, optsNvals: map<string, int>) returns (r: Result<map<string, seq<string>>, OptError>)
    ensures r == ParseOptions(args, optsNvals)
  {
    var curPos := 1;
    var curNvals: nat := 0;
    var curOpt := "";
    var optsVals: map<string, seq<string>> := map[];
    ghost var xs := Arguments(args);
    while curPos < |args|
      invariant 1 <= curPos && curPos - 1 <= |xs|
      invariant curPos < |args| ==> curPos - 1 < |xs| && xs[curPos - 1] == args[curPos]
      invariant curPos >= |args| ==> curPos - 1 == |xs|
      invariant Run(optsNvals, Initial, xs[..curPos - 1]) == Ok(OptState(optsVals, curOpt, curNvals))
      decreases |args| - curPos
    {
      var curArg := args[curPos];
      assert xs[..curPos][..curPos - 1] == xs[..curPos - 1];
      if curArg in optsNvals {
        curOpt := curArg;
        curNvals := SizeT(optsNvals[curOpt]);
        optsVals := optsVals[curOpt := []];
      } else if curNvals > 0 {
        var values := if curOpt in optsVals then optsVals[curOpt] else [];
        optsVals := optsVals[curOpt := values + [curArg]];
        curNvals := curNvals - 1;
      } else {
        RunAppend(optsNvals, Initial, xs[..curPos], xs[curPos..]);
        assert xs[..curPos] + xs[curPos..] == xs;
        return Err(InvalidOptions);
      }
      curPos := curPos + 1;
    }
    assert xs[..curPos - 1] == xs;
    return Ok(optsVals);
  }

  // ---------------------------------------------------------------------------
  // Properties
  // ---------------------------------------------------------------------------

  /** Reading `xs + ys` is reading `xs`, then `ys` from where it stopped. */
  lemma {:induction false} RunAppend(optsNvals: map<string, int>, st: OptState, xs: seq<string>, ys: seq<string>)
    ensures Run(optsNvals, st, xs + ys) == Continue(optsNvals, Run(optsNvals, st, xs), ys)
    decreases |ys|
  {
    if ys == [] {
      assert xs + ys == xs;
    } else {
      var zs := xs + ys;
      assert zs[..|zs| - 1] == xs + ys[..|ys| - 1];
      assert zs[|zs| - 1] == ys[|ys| - 1];
      RunAppend(optsNvals, st, xs, ys[..|ys| - 1]);
    }
  }

  /** Once an argument is rejected, no later argument helps. */
  lemma ErrorPersists(optsNvals: map<string, int>, st: OptState, xs: seq<string>, ys: seq<string>)
    requires Run(optsNvals, st, xs).Err?
    ensures Run(optsNvals, st, xs + ys).Err?
  {
    RunAppend(optsNvals, st, xs, ys);
  }

  /** The state every run keeps: only declared options have lists, each list
      holds non-options only and no more values than the option's count, and
      the current option, while it awaits values, has exactly as many left as
      its list is short of the count. */
  predicate Consistent(optsNvals: map<string, int>, st: OptState)
  {
    && (forall k :: k in st.vals ==> k in optsNvals && |st.vals[k]| <= SizeT(optsNvals[k]))
    && (forall k, v :: k in st.vals && v in st.vals[k] ==> v !in optsNvals)
    && (st.curNvals > 0 ==>
          st.curOpt in optsNvals && st.curOpt in st.vals
          && |st.vals[st.curOpt]| + st.curNvals == SizeT(optsNvals[st.curOpt]))
  }

  lemma StepConsistent(optsNvals: map<string, int>, st: OptState, arg: string)
    requires Consistent(optsNvals, st)
    requires Step(optsNvals, st, arg).Ok?
    ensures Consistent(optsNvals, Step(optsNvals, st, arg).value)
  {
    if arg !in optsNvals {
      var after := Step(optsNvals, st, arg).value;
      assert after.vals[st.curOpt] == st.vals[st.curOpt] + [arg];
      forall k, v | k in after.vals && v in after.vals[k]
        ensures v !in optsNvals
      {
        if k != st.curOpt {
          assert after.vals[k] == st.vals[k];
        } else if v != arg {
          assert v in st.vals[k];
        }
      }
    }
  }

  lemma {:induction false} RunConsistent(optsNvals: map<string, int>, st: OptState, xs: seq<string>)
    requires Consistent(optsNvals, st)
    requires Run(optsNvals, st, xs).Ok?
    ensures Consistent(optsNvals, Run(optsNvals, st, xs).value)
    decreases |xs|
  {
    if xs != [] {
      var before := Run(optsNvals, st, xs[..|xs| - 1]);
      RunConsistent(optsNvals, st, xs[..|xs| - 1]);
      StepConsistent(optsNvals, before.value, xs[|xs| - 1]);
    }
  }

  /** What a successful GetOpt returns: lists for declared options only, each
      with at most the option's count of values, none of them an option. */
  lemma ParseOptionsConsistent(args: seq<string>, optsNvals: map<string, int>)
    requires ParseOptions(args, optsNvals).Ok?
    ensures var vals := ParseOptions(args, optsNvals).value;
      && (forall k :: k in vals ==> k in optsNvals && |vals[k]| <= SizeT(optsNvals[k]))
      && (forall k, v :: k in vals && v in vals[k] ==> v !in optsNvals)
  {
    RunConsistent(optsNvals, Initial, Arguments(args));
  }

  /** argv[0] is never examined. */
  lemma ProgramNameIgnored(name1: string, name2: string, rest: seq<string>, optsNvals: map<string, int>)
    ensures ParseOptions([name1] + rest, optsNvals) == ParseOptions([name2] + rest, optsNvals)
  {
    assert Arguments([name1] + rest) == rest == Arguments([name2] + rest);
  }

  /** A declared option always starts afresh, even while the current option
      still awaits values: its list is emptied and its count reloaded. */
  lemma OptionRestarts(optsNvals: map<string, int>, st: OptState, xs: seq<string>, opt: string)
    requires Run(optsNvals, st, xs).Ok? && opt in optsNvals
    ensures Run(optsNvals, st, xs + [opt])
      == Ok(OptState(Run(optsNvals, st, xs).value.vals[opt := []], opt, SizeT(optsNvals[opt])))
  {
    assert (xs + [opt])[..|xs|] == xs;
  }

  /** An argument right after the program name that is not a declared option
      is rejected. */
  lemma LeadingValueRejected(args: seq<string>, optsNvals: map<string, int>)
    requires |args| >= 2 && args[1] !in optsNvals
    ensures ParseOptions(args, optsNvals).Err?
  {
    var xs := Arguments(args);
    assert xs[..1][..0] == [];
    ErrorPersists(optsNvals, Initial, xs[..1], xs[1..]);
    assert xs[..1] + xs[1..] == xs;
  }

  /** An option followed by no more values than its count, none of them an
      option, ends with exactly those values as its list. */
  lemma {:induction false} OptionWithValues(optsNvals: map<string, int>, st: OptState, opt: string, values: seq<string>)
    requires opt in optsNvals && |values| <= SizeT(optsNvals[opt])
    requires forall v :: v in values ==> v !in optsNvals
    ensures Run(optsNvals, st, [opt] + values)
      == Ok(OptState(st.vals[opt := values], opt, SizeT(optsNvals[opt]) - |values|))
    decreases |values|
  {
    var xs := [opt] + values;
    if values == [] {
      assert xs == [opt];
      assert xs[..0] == [];
    } else {
      var n := |values|;
      assert xs[..|xs| - 1] == [opt] + values[..n - 1];
      assert xs[|xs| - 1] == values[n - 1];
      OptionWithValues(optsNvals, st, opt, values[..n - 1]);
      assert values[..n - 1] + [values[n - 1]] == values;
      assert st.vals[opt := values[..n - 1]][opt := values] == st.vals[opt := values];
    }
  }

  /** An option followed by more non-option arguments than its count is an error. */
  lemma TooManyValues(optsNvals: map<string, int>, st: OptState, opt: string, values: seq<string>)
    requires opt in optsNvals && |values| > SizeT(optsNvals[opt])
    requires forall v :: v in values ==> v !in optsNvals
    ensures Run(optsNvals, st, [opt] + values).Err?
  {
    var c := SizeT(optsNvals[opt]);
    OptionWithValues(optsNvals, st, opt, values[..c]);
    var xs := [opt] + values[..c + 1];
    assert xs[..|xs| - 1] == [opt] + values[..c];
    assert values[c] in values;
    ErrorPersists(optsNvals, st, xs, values[c + 1..]);
    assert xs + values[c + 1..] == [opt] + values;
  }

  // ---------------------------------------------------------------------------
  // Round trip: writing options out and reading them back
  // ---------------------------------------------------------------------------

  /** An option as written on the command line, with its values. */
  datatype OptionUse = OptionUse(option: string, values: seq<string>)

  /** Declared options, each with no more values than its count, none an option. */
  predicate WellFormedUses(optsNvals: map<string, int>, uses: seq<OptionUse>)
  {
    forall i :: 0 <= i < |uses| ==>
      && uses[i].option in optsNvals
      && |uses[i].values| <= SizeT(optsNvals[uses[i].option])
      && (forall v :: v in uses[i].values ==> v !in optsNvals)
  }

  /** The arguments that write out `uses`, in order. */
  function Render(uses: seq<OptionUse>): seq<string>
  {
    if uses == [] then []
    else Render(uses[..|uses| - 1]) + ([uses[|uses| - 1].option] + uses[|uses| - 1].values)
  }

  /** The lists `uses` describe: a later use of an option replaces an earlier one. */
  function UsesMap(uses: seq<OptionUse>): map<string, seq<string>>
  {
    if uses == [] then map[]
    else UsesMap(uses[..|uses| - 1])[uses[|uses| - 1].option := uses[|uses| - 1].values]
  }

  lemma {:induction false} RunRendered(optsNvals: map<string, int>, uses: seq<OptionUse>)
    requires WellFormedUses(optsNvals, uses)
    ensures Run(optsNvals, Initial, Render(uses)).Ok?
    ensures Run(optsNvals, Initial, Render(uses)).value.vals == UsesMap(uses)
    decreases |uses|
  {
    if uses != [] {
      var n := |uses|;
      var last := uses[n - 1];
      assert WellFormedUses(optsNvals, uses[..n - 1]) by {
        forall i | 0 <= i < n - 1
          ensures uses[..n - 1][i] == uses[i]
        {
        }
      }
      RunRendered(optsNvals, uses[..n - 1]);
      RunAppend(optsNvals, Initial, Render(uses[..n - 1]), [last.option] + last.values);
      OptionWithValues(optsNvals, Run(optsNvals, Initial, Render(uses[..n - 1])).value, last.option, last.values);
    }
  }

  /** GetOpt reads back exactly what Render wrote, after any program name. */
  lemma ParseRendered(program: string, optsNvals: map<string, int>, uses: seq<OptionUse>)
    requires WellFormedUses(optsNvals, uses)
    ensures ParseOptions([program] + Render(uses), optsNvals) == Ok(UsesMap(uses))
  {
    assert Arguments([program] + Render(uses)) == Render(uses);
    RunRendered(optsNvals, uses);
  }
}
