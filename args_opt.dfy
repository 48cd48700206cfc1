/**
 * The option parser of the C++ shell (`opt_parser::OptionsParser`): a list of
 * registered options, each with a letter, an optional long name and an argument
 * mode, and a parser that walks the arguments after the command name, marking
 * the options it meets and taking the values of those that require one.
 */
module ArgsOpt {
  import opened Wrappers

  datatype ArgumentOptions = NoArg | ReqArg | OptArg

  const OK: int := 0
  const INVALID_OPTIONS: int := -1
  const MISSING_ARGUMENT: int := -2

  /** One registered option and what the last parse found for it. */
  datatype Opt = Opt(letter: char, name: string, argOption: ArgumentOptions, arg: string, found: bool)

  /** A freshly registered option: no value, not found. */
  function NewOpt(letter: char, name: string, argOption: ArgumentOptions): Opt
  {
    Opt(letter, name, argOption, "", false)
  }

  /** The position of the first option with letter `c`, if any. */
  function FindLetter(opts: seq<Opt>, c: char): (r: Option<nat>)
    ensures r.Some? ==> r.value < |opts| && opts[r.value].letter == c
    ensures r.Some? ==> forall j | 0 <= j < r.value :: opts[j].letter != c
    ensures r.None? ==> forall j | 0 <= j < |opts| :: opts[j].letter != c
  {
    if opts == [] then None
    else if opts[0].letter == c then Some(0)
    else match FindLetter(opts[1..], c)
      case None => None
      case Some(k) => Some(k + 1)
  }

  /** The position of the first option whose long name is `name`, if any. */
  function FindName(opts: seq<Opt>, name: string): (r: Option<nat>)
    ensures r.Some? ==> r.value < |opts| && opts[r.value].name == name
    ensures r.Some? ==> forall j | 0 <= j < r.value :: opts[j].name != name
    ensures r.None? ==> forall j | 0 <= j < |opts| :: opts[j].name != name
  {
    if opts == [] then None
    else if opts[0].name == name then Some(0)
    else match FindName(opts[1..], name)
      case None => None
      case Some(k) => Some(k + 1)
  }

  /** Every option with its value cleared and its found flag down, as a parse starts. */
  function Reset(opts: seq<Opt>): (r: seq<Opt>)
    ensures |r| == |opts|
    ensures forall k | 0 <= k < |r| :: r[k] == opts[k].(arg := "", found := false)
  {
    if opts == [] then [] else [opts[0].(arg := "", found := false)] + Reset(opts[1..])
  }

  predicate StartsWith(s: string, prefix: string)
  {
    |prefix| <= |s| && s[..|prefix|] == prefix
  }

  /** What the parser does with the argument at `i`. */
  datatype Step =
    | Stop(code: int, opts: seq<Opt>)     // returns `code` at once
    | Done                                // leaves the loop: not an option
    | Next(opts: seq<Opt>, next: nat)     // counts one option and goes on at `next`

  /** Marks the option at `k` found and, when it requires a value, takes `args[i + 1]`. */
  function Take(opts: seq<Opt>, args: seq<string>, i: nat, k: nat): (r: Step)
    requires i < |args| && k < |opts|
    ensures r.Next? ==> i < r.next <= |args| && |r.opts| == |opts|
  {
    var o := opts[k].(found := true);
    if o.argOption == ReqArg then
      if i + 1 == |args| then Stop(MISSING_ARGUMENT, opts[k := o])
      else Next(opts[k := o.(arg := args[i + 1])], i + 2)
    else Next(opts[k := o], i + 1)
  }

  function StepAt(opts: seq<Opt>, args: seq<string>, i: nat): (r: Step)
    requires i < |args|
    ensures r.Next? ==> i < r.next <= |args| && |r.opts| == |opts|
  {
    var a := args[i];
    if StartsWith(a, "--") then
      if |a| <= 3 then Stop(INVALID_OPTIONS, opts)
      else match FindName(opts, a[2..])
        case None => Stop(INVALID_OPTIONS, opts)
        case Some(k) => Take(opts, args, i, k)
    else if StartsWith(a, "-") then
      if |a| != 2 then Stop(INVALID_OPTIONS, opts)
      else match FindLetter(opts, a[1])
        case None => Stop(INVALID_OPTIONS, opts)
        case Some(k) => Take(opts, args, i, k)
    else Done
  }

  /** The parse's return code and the options it leaves behind. */
  datatype Outcome = Outcome(code: int, opts: seq<Opt>)

  /** The parse from argument `i` on, `count` options having been counted so far. */
  function Scan(opts: seq<Opt>, args: seq<string>, i: nat, count: int): (r: Outcome)
    ensures |r.opts| == |opts|
    decreases |args| - i
  {
    if |args| <= i then Outcome(count, opts)
    else match StepAt(opts, args, i)
      case Stop(code, o) => Outcome(code, o)
      case Done => Outcome(count, opts)
      case Next(o, j) => Scan(o, args, j, count + 1)
  }

  /** `parseOptionsString`: the command name `args[0]` is skipped. */
  function Parse(opts: seq<Opt>, args: seq<string>): (r: Outcome)
    ensures |r.opts| == |opts|
  {
    Scan(Reset(opts), args, 1, 0)
  }

  class OptionsParser {
    var options: seq<Opt>

    constructor()
      ensures options == []
    {
      options := [];
    }

    /** `addOption(letter, name, arg_option)`: registers an option with a long name. */
    method AddOption(letter: char, name: string, argOption: ArgumentOptions)
      modifies this
      ensures options == old(options) + [NewOpt(letter, name, argOption)]
    {
      options := options + [NewOpt(letter, name, argOption)];
    }

    /** `addOption(letter, arg_option)`: registers an option with no long name. */
    method AddLetterOption(letter: char, argOption: ArgumentOptions)
      modifies this
      ensures options == old(options) + [NewOpt(letter, "", argOption)]
    {
      options := options + [NewOpt(letter, "", argOption)];
    }

    method GetOptions() returns (r: seq<Opt>)
      ensures r == options
    {
      r := options;
    }

    /** `findOption(char)`: the first option with that letter, by position. */
    method FindOptionByLetter(c: char) returns (r: Option<nat>)
      ensures r == FindLetter(options, c)
    {
      var k := 0;
      while k < |options|
        invariant k <= |options|
        invariant forall j | 0 <= j < k :: options[j].letter != c
      {
        if options[k].letter == c {
          return Some(k);
        }
        k := k + 1;
      }
      return None;
    }

    /** `findOption(std::string)`: the first option with that long name, by position. */
    method FindOptionByName(name: string) returns (r: Option<nat>)
      ensures r == FindName(options, name)
    {
      var k := 0;
      while k < |options|
        invariant k <= |options|
        invariant forall j | 0 <= j < k :: options[j].name != name
      {
        if options[k].name == name {
          return Some(k);
        }
        k := k + 1;
      }
      return None;
    }

    /**
     * `parseOptionsString`: the number of options read before the first
     * argument that is not one, or INVALID_OPTIONS, or MISSING_ARGUMENT.
     */
    method ParseOptionsString(args: seq<string>) returns (result: int)
      modifies this
      ensures Outcome(result, options) == Parse(old(options), args)
    {
      ResetOptions();
      var i := 1;
      var lastIndex := 0;
      while i < |args|
        invariant 1 <= i
        invariant Scan(options, args, i, lastIndex) == Parse(old(options), args)
        decreases |args| - i
      {
        var step := StepMethod(args, i);
        match step
        case Stop(code, o) =>
          options := o;
          return code;
        case Done =>
          break;
        case Next(o, j) =>
          options := o;
          i := j;
          lastIndex := lastIndex + 1;
      }
      return lastIndex;
    }

    /** The first loop of `parseOptionsString`: clears every value and found flag. */
    method ResetOptions()
      modifies this
      ensures options == Reset(old(options))
    {
      var k := 0;
      while k < |options|
        invariant k <= |options| == |old(options)|
        invariant forall j | 0 <= j < k :: options[j] == old(options)[j].(arg := "", found := false)
        invariant forall j | k <= j < |options| :: options[j] == old(options)[j]
      {
        options := options[k := options[k].(arg := "", found := false)];
        k := k + 1;
      }
      assert options == Reset(old(options));
    }

    /** One turn of the parse loop, computed without changing the options. */
    method StepMethod(args: seq<string>, i: nat) returns (r: Step)
      requires i < |args|
      ensures r == StepAt(options, args, i)
    {
      var a := args[i];
      var k: Option<nat>;
      if StartsWith(a, "--") {
        if |a| <= 3 {
          return Stop(INVALID_OPTIONS, options);
        }
        k := FindOptionByName(a[2..]);
      } else if StartsWith(a, "-") {
        if |a| != 2 {
          return Stop(INVALID_OPTIONS, options);
        }
        k := FindOptionByLetter(a[1]);
      } else {
        return Done;
      }
      if k.None? {
        return Stop(INVALID_OPTIONS, options);
      }
      r := Take(options, args, i, k.value);
    }
  }

  /** Same options in the same order: only values and found flags may differ. */
  predicate SameRegistry(a: seq<Opt>, b: seq<Opt>)
  {
    |a| == |b| &&
    forall k | 0 <= k < |a| :: a[k].letter == b[k].letter && a[k].name == b[k].name && a[k].argOption == b[k].argOption
  }

  lemma TakeKeepsRegistry(opts: seq<Opt>, args: seq<string>, i: nat, k: nat)
    requires i < |args| && k < |opts|
    ensures Take(opts, args, i, k).Stop? || Take(opts, args, i, k).Next?
    ensures SameRegistry(Take(opts, args, i, k).opts, opts)
    ensures forall j | 0 <= j < |opts| :: opts[j].found ==> Take(opts, args, i, k).opts[j].found
  {
  }

  lemma StepKeepsRegistry(opts: seq<Opt>, args: seq<string>, i: nat)
    requires i < |args|
    ensures StepAt(opts, args, i).Stop? || StepAt(opts, args, i).Next? ==>
      SameRegistry(StepAt(opts, args, i).opts, opts) &&
      forall j | 0 <= j < |opts| :: opts[j].found ==> StepAt(opts, args, i).opts[j].found
  {
    var a := args[i];
    if StartsWith(a, "--") && |a| > 3 && FindName(opts, a[2..]).Some? {
      TakeKeepsRegistry(opts, args, i, FindName(opts, a[2..]).value);
    } else if !StartsWith(a, "--") && StartsWith(a, "-") && |a| == 2 && FindLetter(opts, a[1]).Some? {
      TakeKeepsRegistry(opts, args, i, FindLetter(opts, a[1]).value);
    }
  }

  /** A parse never adds, drops or reorders options, and never lowers a found flag. */
  lemma {:induction false} ScanKeepsRegistry(opts: seq<Opt>, args: seq<string>, i: nat, count: int)
    ensures SameRegistry(Scan(opts, args, i, count).opts, opts)
    ensures forall k | 0 <= k < |opts| :: opts[k].found ==> Scan(opts, args, i, count).opts[k].found
    decreases |args| - i
  {
    if i < |args| {
      StepKeepsRegistry(opts, args, i);
      var st := StepAt(opts, args, i);
      if st.Next? {
        ScanKeepsRegistry(st.opts, args, st.next, count + 1);
      }
    }
  }

  lemma ParseKeepsRegistry(opts: seq<Opt>, args: seq<string>)
    ensures SameRegistry(Parse(opts, args).opts, opts)
  {
    ScanKeepsRegistry(Reset(opts), args, 1, 0);
  }

  /** The argument `a` names option `o`, as `--name` or as `-letter`. */
  predicate Names(a: string, o: Opt)
  {
    (StartsWith(a, "--") && |a| > 3 && a[2..] == o.name) ||
    (!StartsWith(a, "--") && StartsWith(a, "-") && |a| == 2 && a[1] == o.letter)
  }

  /**
   * Every found flag in `cur` comes from an argument in `args[1..n]` naming
   * the option, and every value of an option that requires one is the
   * argument right after an argument naming it.
   */
  predicate Explained(cur: seq<Opt>, args: seq<string>, n: nat)
    requires n <= |args|
  {
    forall k | 0 <= k < |cur| ::
      (cur[k].found ==> exists j | 1 <= j < n :: Names(args[j], cur[k])) &&
      (cur[k].arg != "" ==>
        cur[k].found && cur[k].argOption == ReqArg &&
        exists j | 1 <= j && j + 1 < n :: Names(args[j], cur[k]) && args[j + 1] == cur[k].arg)
  }

  lemma TakeExplained(opts: seq<Opt>, args: seq<string>, i: nat, k: nat)
    requires 1 <= i < |args| && k < |opts|
    requires Explained(opts, args, i) && Names(args[i], opts[k])
    ensures Take(opts, args, i, k).Next? ==> Explained(Take(opts, args, i, k).opts, args, Take(opts, args, i, k).next)
    ensures Take(opts, args, i, k).Stop? ==> Explained(Take(opts, args, i, k).opts, args, i + 1)
  {
    var r := Take(opts, args, i, k);
    var n := if r.Next? then r.next else i + 1;
    forall m | 0 <= m < |r.opts|
      ensures r.opts[m].found ==> exists j | 1 <= j < n :: Names(args[j], r.opts[m])
      ensures r.opts[m].arg != "" ==>
        r.opts[m].found && r.opts[m].argOption == ReqArg &&
        exists j | 1 <= j && j + 1 < n :: Names(args[j], r.opts[m]) && args[j + 1] == r.opts[m].arg
    {
      if m == k {
        assert Names(args[i], r.opts[m]);
        if r.opts[m].arg != "" && r.opts[m].arg != opts[m].arg {
          assert Names(args[i], r.opts[m]) && args[i + 1] == r.opts[m].arg;
        }
      }
    }
  }

  lemma StepExplained(opts: seq<Opt>, args: seq<string>, i: nat)
    requires 1 <= i < |args| && Explained(opts, args, i)
    ensures StepAt(opts, args, i).Next? ==> Explained(StepAt(opts, args, i).opts, args, StepAt(opts, args, i).next)
    ensures StepAt(opts, args, i).Stop? ==> Explained(StepAt(opts, args, i).opts, args, i + 1)
  {
    var a := args[i];
    if StartsWith(a, "--") && |a| > 3 && FindName(opts, a[2..]).Some? {
      TakeExplained(opts, args, i, FindName(opts, a[2..]).value);
    } else if !StartsWith(a, "--") && StartsWith(a, "-") && |a| == 2 && FindLetter(opts, a[1]).Some? {
      TakeExplained(opts, args, i, FindLetter(opts, a[1]).value);
    }
  }

  lemma ExplainedLater(cur: seq<Opt>, args: seq<string>, n: nat, m: nat)
    requires n <= m <= |args| && Explained(cur, args, n)
    ensures Explained(cur, args, m)
  {
  }

  lemma {:induction false} ScanExplained(opts: seq<Opt>, args: seq<string>, i: nat, count: int)
    requires 1 <= i <= |args| && Explained(opts, args, i)
    ensures Explained(Scan(opts, args, i, count).opts, args, |args|)
    decreases |args| - i
  {
    if i < |args| {
      StepExplained(opts, args, i);
      var st := StepAt(opts, args, i);
      match st
      case Stop(_, o) => ExplainedLater(o, args, i + 1, |args|);
      case Done => ExplainedLater(opts, args, i, |args|);
      case Next(o, j) => ScanExplained(o, args, j, count + 1);
    }
  }

  /**
   * After a parse, whatever its code, an option is found only if some
   * argument after the command name names it, and it holds a value only if
   * it requires one and the value is the argument right after one naming it,
   * taken as it is even when it starts with `-`.
   */
  lemma ParseExplained(opts: seq<Opt>, args: seq<string>)
    ensures forall k | 0 <= k < |Parse(opts, args).opts| :: Parse(opts, args).opts[k].found ==>
      exists j | 1 <= j < |args| :: Names(args[j], Parse(opts, args).opts[k])
    ensures forall k | 0 <= k < |Parse(opts, args).opts| :: Parse(opts, args).opts[k].arg != "" ==>
      Parse(opts, args).opts[k].found && Parse(opts, args).opts[k].argOption == ReqArg &&
      exists j | 1 <= j && j + 1 < |args| :: Names(args[j], Parse(opts, args).opts[k]) && args[j + 1] == Parse(opts, args).opts[k].arg
  {
    if |args| <= 1 {
      assert Parse(opts, args).opts == Reset(opts);
    } else {
      ScanExplained(Reset(opts), args, 1, 0);
    }
  }

  /** Each counted option uses up at least one argument. */
  lemma {:induction false} ScanCode(opts: seq<Opt>, args: seq<string>, i: nat, count: int)
    requires 0 <= count && i <= |args|
    ensures var c := Scan(opts, args, i, count).code;
      c == INVALID_OPTIONS || c == MISSING_ARGUMENT || count <= c <= count + |args| - i
    decreases |args| - i
  {
    if i < |args| {
      var st := StepAt(opts, args, i);
      if st.Next? {
        ScanCode(st.opts, args, st.next, count + 1);
      }
    }
  }

  /**
   * `parseOptionsString` returns INVALID_OPTIONS, MISSING_ARGUMENT, or a count
   * of options no larger than the number of arguments after the command name.
   */
  lemma ParseCode(opts: seq<Opt>, args: seq<string>)
    ensures var c := Parse(opts, args).code;
      c == INVALID_OPTIONS || c == MISSING_ARGUMENT || 0 <= c <= if args == [] then 0 else |args| - 1
  {
    if args != [] {
      ScanCode(Reset(opts), args, 1, 0);
    }
  }

  lemma {:induction false} ScanIgnoresPrefix(opts: seq<Opt>, a: seq<string>, b: seq<string>, i: nat, count: int)
    requires 1 <= i && 1 <= |a| == |b| && a[1..] == b[1..]
    ensures Scan(opts, a, i, count) == Scan(opts, b, i, count)
    decreases |a| - i
  {
    if i < |a| {
      assert a[i] == a[1..][i - 1] == b[i];
      if i + 1 < |a| {
        assert a[i + 1] == a[1..][i] == b[i + 1];
      }
      var st := StepAt(opts, a, i);
      assert st == StepAt(opts, b, i);
      if st.Next? {
        ScanIgnoresPrefix(st.opts, a, b, st.next, count + 1);
      }
    }
  }

  /** The command name in `args[0]` plays no part in the parse. */
  lemma ParseIgnoresCommandName(opts: seq<Opt>, a: seq<string>, b: seq<string>)
    requires |a| == |b| && 1 <= |a| && a[1..] == b[1..]
    ensures Parse(opts, a) == Parse(opts, b)
  {
    ScanIgnoresPrefix(Reset(opts), a, b, 1, 0);
  }

  /** A registry like the `add` command's: `-b/--bandwidth` takes a value, `-h/--help` does not. */
  function ExampleOptions(): seq<Opt>
  {
    [NewOpt('b', "bandwidth", ReqArg), NewOpt('h', "help", NoArg)]
  }

  /** `s` does not start with `prefix`: they differ at position `k`. */
  lemma DiffersAt(s: string, prefix: string, k: nat)
    requires k < |prefix| && k < |s| && s[k] != prefix[k]
    ensures !StartsWith(s, prefix)
  {
    if |prefix| <= |s| {
      assert s[..|prefix|][k] == s[k];
    }
  }

  /** Two options are read, the value goes to `-b`, and the scan stops at the port. */
  lemma ParseExample()
    ensures Parse(ExampleOptions(), ["add", "-b", "9600", "--help", "ttyUSB0"]) ==
      Outcome(2, [Opt('b', "bandwidth", ReqArg, "9600", true), Opt('h', "help", NoArg, "", true)])
  {
    var args := ["add", "-b", "9600", "--help", "ttyUSB0"];
    var o0 := Reset(ExampleOptions());
    assert StartsWith(args[1], "-");
    DiffersAt(args[1], "--", 1);
    var o1 := o0[0 := o0[0].(found := true, arg := "9600")];
    assert StepAt(o0, args, 1) == Next(o1, 3);
    assert StartsWith(args[3], "--") && args[3][2..] == "help";
    var o2 := o1[1 := o1[1].(found := true)];
    assert StepAt(o1, args, 3) == Next(o2, 4);
    DiffersAt(args[4], "--", 0);
    DiffersAt(args[4], "-", 0);
  }

  /** `--bandwidth` as the last argument: the option is marked found, then MISSING_ARGUMENT. */
  lemma MissingValueExample()
    ensures Parse(ExampleOptions(), ["add", "--bandwidth"]) ==
      Outcome(MISSING_ARGUMENT, [Opt('b', "bandwidth", ReqArg, "", true), Opt('h', "help", NoArg, "", false)])
  {
    var args := ["add", "--bandwidth"];
    assert StartsWith(args[1], "--") && args[1][2..] == "bandwidth";
  }

  /** A single dash with two letters is rejected rather than read as a cluster. */
  lemma ClusterRejectedExample()
    ensures Parse(ExampleOptions(), ["add", "-bh"]).code == INVALID_OPTIONS
  {
    var args := ["add", "-bh"];
    assert StartsWith(args[1], "-");
    DiffersAt(args[1], "--", 1);
  }
}
