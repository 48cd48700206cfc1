/**
 * What `OptionsParser::parseOptionsString` computes, stated without its loop:
 * the arguments after the command name begin with a run of option tokens,
 * each naming a registered option and followed by its value when the option
 * requires one; the parse counts the tokens of that run, marks the options
 * they name, and then stops at an operand, at the end, at a token that names
 * no option, or at an option whose value is missing.
 */
module ArgsOptRuns {
  import opened Wrappers
  import opened ArgsOpt

  /**
   * The option a token names, as the parser looks it up: `--name` (at least
   * two characters of name) by long name, `-c` by letter, the first match in
   * registration order.
   */
  function Lookup(opts: seq<Opt>, a: string): (r: Option<nat>)
    ensures r.Some? ==> r.value < |opts| && Names(a, opts[r.value])
    ensures r.Some? ==> forall j | 0 <= j < r.value :: !Names(a, opts[j])
    ensures r.None? ==> forall j | 0 <= j < |opts| :: !Names(a, opts[j])
  {
    if StartsWith(a, "--") then
      if |a| <= 3 then None else FindName(opts, a[2..])
    else if StartsWith(a, "-") && |a| == 2 then FindLetter(opts, a[1])
    else None
  }

  /** One step of the parse is: leave at an operand, fail on an unknown token, or take the option it names. */
  lemma StepLookup(opts: seq<Opt>, args: seq<string>, i: nat)
    requires i < |args|
    ensures StepAt(opts, args, i) ==
      if !StartsWith(args[i], "-") then Done
      else match Lookup(opts, args[i])
        case None => Stop(INVALID_OPTIONS, opts)
        case Some(k) => Take(opts, args, i, k)
  {
    var a := args[i];
    if StartsWith(a, "--") {
      assert a[..1] == a[..2][..1];
    }
  }

  /** Tokens from `-` alone, `--` with fewer than two name characters, or a single dash with more than one letter name nothing. */
  lemma LookupRejects(opts: seq<Opt>, a: string)
    ensures StartsWith(a, "--") && |a| <= 3 ==> Lookup(opts, a) == None
    ensures StartsWith(a, "-") && !StartsWith(a, "--") && |a| != 2 ==> Lookup(opts, a) == None
  {
  }

  /** The lookup reads only letters and names, which a parse never changes. */
  lemma LookupSameRegistry(a: seq<Opt>, b: seq<Opt>, x: string)
    requires SameRegistry(a, b)
    ensures Lookup(a, x) == Lookup(b, x)
  {
    assert forall j | 0 <= j < |a| :: Names(x, a[j]) == Names(x, b[j]);
  }

  /** How many arguments an option token uses up: itself, and its value when it requires one. */
  function Width(o: Opt): (r: nat)
    ensures r == 1 || r == 2
    ensures r == 2 <==> o.argOption == ReqArg
  {
    if o.argOption == ReqArg then 2 else 1
  }

  /**
   * `ps` are the positions, from `i` on, of option tokens read one after the
   * other and ending at `e`: each names a registered option, and the next
   * one (or `e`) follows it directly, or follows its value when the option
   * requires one.
   */
  predicate Run(reg: seq<Opt>, args: seq<string>, i: nat, ps: seq<nat>, e: nat)
  {
    e <= |args| &&
    (if ps == [] then e == i else ps[0] == i) &&
    forall m | 0 <= m < |ps| ::
      ps[m] < |args| && Lookup(reg, args[ps[m]]).Some? &&
      (if m + 1 < |ps| then ps[m + 1] else e) == ps[m] + Width(reg[Lookup(reg, args[ps[m]]).value])
  }

  /** A run with a first token goes on, after that token's width, as a run of the rest. */
  lemma RunTail(reg: seq<Opt>, args: seq<string>, i: nat, ps: seq<nat>, e: nat)
    requires Run(reg, args, i, ps, e) && ps != []
    ensures i < |args| && Lookup(reg, args[i]).Some?
    ensures Run(reg, args, i + Width(reg[Lookup(reg, args[i]).value]), ps[1..], e)
    ensures i + Width(reg[Lookup(reg, args[i]).value]) <= |args|
  {
    var j := i + Width(reg[Lookup(reg, args[i]).value]);
    forall m | 0 <= m < |ps[1..]|
      ensures ps[1..][m] < |args| && Lookup(reg, args[ps[1..][m]]).Some? &&
        (if m + 1 < |ps[1..]| then ps[1..][m + 1] else e) == ps[1..][m] + Width(reg[Lookup(reg, args[ps[1..][m]]).value])
    {
      var q := m + 1;
      assert ps[1..][m] == ps[q];
      assert (if q + 1 < |ps| then ps[q + 1] else e) == ps[q] + Width(reg[Lookup(reg, args[ps[q]]).value]);
      if m + 1 < |ps[1..]| {
        assert ps[1..][m + 1] == ps[q + 1];
      }
    }
    if |ps| > 1 {
      assert ps[1] == j;
      assert ps[1] < |args|;
    }
  }

  /** A run preceded by one more option token at `i`. */
  lemma RunCons(reg: seq<Opt>, args: seq<string>, i: nat, ps: seq<nat>, e: nat)
    requires i < |args| && Lookup(reg, args[i]).Some?
    requires Run(reg, args, i + Width(reg[Lookup(reg, args[i]).value]), ps, e)
    ensures Run(reg, args, i, [i] + ps, e)
  {
    var qs := [i] + ps;
    forall m | 0 <= m < |qs|
      ensures qs[m] < |args| && Lookup(reg, args[qs[m]]).Some? &&
        (if m + 1 < |qs| then qs[m + 1] else e) == qs[m] + Width(reg[Lookup(reg, args[qs[m]]).value])
    {
      if m == 0 {
        assert qs[0] == i;
        if |ps| == 0 {
          assert e == i + Width(reg[Lookup(reg, args[i]).value]);
        } else {
          assert qs[1] == ps[0];
        }
      } else {
        var n := m - 1;
        assert qs[m] == ps[n];
        assert (if n + 1 < |ps| then ps[n + 1] else e) == ps[n] + Width(reg[Lookup(reg, args[ps[n]]).value]);
        if m + 1 < |qs| {
          assert qs[m + 1] == ps[n + 1];
        }
      }
    }
  }

  /** The argument at `p`, or the empty string past the end. */
  function ValueAt(args: seq<string>, p: nat): string
  {
    if p < |args| then args[p] else ""
  }

  /** The last of the positions `ps` whose token names option `k`, if any. */
  function LastNaming(reg: seq<Opt>, args: seq<string>, ps: seq<nat>, k: nat): (r: Option<nat>)
    ensures r.Some? ==> r.value < |args| && Lookup(reg, args[r.value]) == Some(k)
    ensures r.Some? ==> exists m | 0 <= m < |ps| ::
      ps[m] == r.value && forall n | m < n < |ps| && ps[n] < |args| :: Lookup(reg, args[ps[n]]) != Some(k)
    ensures r.None? ==> forall m | 0 <= m < |ps| && ps[m] < |args| :: Lookup(reg, args[ps[m]]) != Some(k)
  {
    if ps == [] then None
    else
      var rest := LastNaming(reg, args, ps[1..], k);
      assert forall n | 0 < n < |ps| :: ps[n] == ps[1..][n - 1];
      match rest
      case Some(p) =>
        var m' :| 0 <= m' < |ps[1..]| && ps[1..][m'] == p &&
          forall n | m' < n < |ps[1..]| && ps[1..][n] < |args| :: Lookup(reg, args[ps[1..][n]]) != Some(k);
        assert ps[m' + 1] == p;
        Some(p)
      case None =>
        if ps[0] < |args| && Lookup(reg, args[ps[0]]) == Some(k) then Some(ps[0]) else None
  }

  /** Option `o` after the tokens of a run: found if one names it, holding the argument after the last such token when it requires a value. */
  function MarkedOpt(o: Opt, last: Option<nat>, args: seq<string>): Opt
  {
    match last
    case None => o
    case Some(p) => o.(found := true, arg := if o.argOption == ReqArg then ValueAt(args, p + 1) else o.arg)
  }

  /** The options after the tokens `ps` of a run. */
  function Marked(cur: seq<Opt>, reg: seq<Opt>, args: seq<string>, ps: seq<nat>): (r: seq<Opt>)
    ensures |r| == |cur|
  {
    seq(|cur|, k requires 0 <= k < |cur| => MarkedOpt(cur[k], LastNaming(reg, args, ps, k), args))
  }

  /** Taking the first token of a run and then marking the rest is marking the whole run. */
  lemma MarkedStep(cur: seq<Opt>, reg: seq<Opt>, args: seq<string>, ps: seq<nat>, k: nat, o1: seq<Opt>)
    requires SameRegistry(cur, reg) && ps != [] && ps[0] < |args| && k < |cur|
    requires Lookup(reg, args[ps[0]]) == Some(k)
    requires cur[k].argOption == ReqArg ==> ps[0] + 1 < |args|
    requires o1 == cur[k := cur[k].(found := true, arg := if cur[k].argOption == ReqArg then args[ps[0] + 1] else cur[k].arg)]
    ensures Marked(o1, reg, args, ps[1..]) == Marked(cur, reg, args, ps)
  {
    var a := Marked(o1, reg, args, ps[1..]);
    var b := Marked(cur, reg, args, ps);
    forall j | 0 <= j < |cur|
      ensures a[j] == b[j]
    {
      assert a[j] == MarkedOpt(o1[j], LastNaming(reg, args, ps[1..], j), args);
      assert b[j] == MarkedOpt(cur[j], LastNaming(reg, args, ps, j), args);
      MarkedOptStep(cur[j], o1[j], reg, args, ps, j, k);
    }
  }

  /** One option of `MarkedStep`: marked by the rest of the run after the first token, or by the whole run. */
  lemma MarkedOptStep(c: Opt, d: Opt, reg: seq<Opt>, args: seq<string>, ps: seq<nat>, j: nat, k: nat)
    requires ps != [] && ps[0] < |args| && Lookup(reg, args[ps[0]]) == Some(k)
    requires c.argOption == ReqArg && j == k ==> ps[0] + 1 < |args|
    requires d == if j == k then c.(found := true, arg := if c.argOption == ReqArg then args[ps[0] + 1] else c.arg) else c
    ensures MarkedOpt(d, LastNaming(reg, args, ps[1..], j), args) == MarkedOpt(c, LastNaming(reg, args, ps, j), args)
  {
    var rest := LastNaming(reg, args, ps[1..], j);
    assert LastNaming(reg, args, ps, j) == if rest.Some? then rest else if j == k then Some(ps[0]) else None;
  }

  /** The first token of a run is taken as an option: the parse marks it and goes on after its width. */
  lemma ScanFirstToken(cur: seq<Opt>, reg: seq<Opt>, args: seq<string>, i: nat, count: int, k: nat)
    requires SameRegistry(cur, reg) && i < |args| && Lookup(reg, args[i]) == Some(k)
    requires i + Width(reg[k]) <= |args|
    ensures k < |cur| && (cur[k].argOption == ReqArg ==> i + 1 < |args|)
    ensures var o1 := cur[k := cur[k].(found := true, arg := if cur[k].argOption == ReqArg then args[i + 1] else cur[k].arg)];
      SameRegistry(o1, reg) &&
      Scan(cur, args, i, count) == Scan(o1, args, i + Width(reg[k]), count + 1)
  {
    LookupSameRegistry(cur, reg, args[i]);
    StepLookup(cur, args, i);
  }

  /** Where a parse leaves its run of option tokens. */
  predicate Halts(reg: seq<Opt>, args: seq<string>, e: nat)
  {
    e <= |args| &&
    (e == |args| || !StartsWith(args[e], "-") || Lookup(reg, args[e]).None? ||
     (reg[Lookup(reg, args[e]).value].argOption == ReqArg && e + 1 == |args|))
  }

  /**
   * The outcome of a parse that halts at `e` with options `m` and `n` options
   * counted: the count at an operand or at the end, INVALID_OPTIONS at a token
   * that names nothing, MISSING_ARGUMENT (the option marked found) at an
   * option whose value is missing.
   */
  function Finish(m: seq<Opt>, reg: seq<Opt>, args: seq<string>, e: nat, n: int): Outcome
  {
    if e >= |args| || !StartsWith(args[e], "-") then Outcome(n, m)
    else match Lookup(reg, args[e])
      case None => Outcome(INVALID_OPTIONS, m)
      case Some(k) => if k < |m| then Outcome(MISSING_ARGUMENT, m[k := m[k].(found := true)]) else Outcome(MISSING_ARGUMENT, m)
  }

  /** Scanning along a run counts its tokens and marks their options, and ends as the token where the run halts decides. */
  lemma {:induction false} ScanAlongRun(cur: seq<Opt>, reg: seq<Opt>, args: seq<string>, i: nat, count: int, ps: seq<nat>, e: nat)
    requires SameRegistry(cur, reg) && Run(reg, args, i, ps, e) && Halts(reg, args, e)
    ensures Scan(cur, args, i, count) == Finish(Marked(cur, reg, args, ps), reg, args, e, count + |ps|)
    decreases |ps|
  {
    if ps == [] {
      ScanRunEnd(cur, reg, args, e, count);
      MarkedNone(cur, reg, args);
    } else {
      RunTail(reg, args, i, ps, e);
      var k := Lookup(reg, args[i]).value;
      ScanFirstToken(cur, reg, args, i, count, k);
      var o1 := cur[k := cur[k].(found := true, arg := if cur[k].argOption == ReqArg then args[i + 1] else cur[k].arg)];
      ScanAlongRun(o1, reg, args, i + Width(reg[k]), count + 1, ps[1..], e);
      ScanRunStep(cur, reg, args, i, count, ps, e, k, o1);
    }
  }

  /** At the token where a run halts, the parse ends as that token decides. */
  lemma ScanRunEnd(cur: seq<Opt>, reg: seq<Opt>, args: seq<string>, e: nat, count: int)
    requires SameRegistry(cur, reg) && Halts(reg, args, e)
    ensures Scan(cur, args, e, count) == Finish(cur, reg, args, e, count)
  {
    if e < |args| {
      LookupSameRegistry(cur, reg, args[e]);
      StepLookup(cur, args, e);
    }
  }

  /** Taking the first token of a run and then scanning the rest of it is scanning the whole run. */
  lemma ScanRunStep(cur: seq<Opt>, reg: seq<Opt>, args: seq<string>, i: nat, count: int, ps: seq<nat>, e: nat, k: nat, o1: seq<Opt>)
    requires SameRegistry(cur, reg) && ps != [] && ps[0] == i && i < |args| && Lookup(reg, args[i]) == Some(k)
    requires i + Width(reg[k]) <= |args|
    requires o1 == cur[k := cur[k].(found := true, arg := if cur[k].argOption == ReqArg then args[i + 1] else cur[k].arg)]
    requires Scan(o1, args, i + Width(reg[k]), count + 1) == Finish(Marked(o1, reg, args, ps[1..]), reg, args, e, count + 1 + |ps[1..]|)
    ensures Scan(cur, args, i, count) == Finish(Marked(cur, reg, args, ps), reg, args, e, count + |ps|)
  {
    ScanFirstToken(cur, reg, args, i, count, k);
    MarkedStep(cur, reg, args, ps, k, o1);
  }

  /** An empty run marks nothing. */
  lemma MarkedNone(cur: seq<Opt>, reg: seq<Opt>, args: seq<string>)
    ensures Marked(cur, reg, args, []) == cur
  {
  }

  /** From any position the arguments begin with a run of option tokens that ends where the parse halts. */
  lemma {:induction false} RunExists(reg: seq<Opt>, args: seq<string>, i: nat)
    requires i <= |args|
    ensures exists ps: seq<nat>, e: nat :: Run(reg, args, i, ps, e) && Halts(reg, args, e)
    decreases |args| - i
  {
    if Halts(reg, args, i) {
      assert Run(reg, args, i, [], i);
    } else {
      var k := Lookup(reg, args[i]).value;
      var w := Width(reg[k]);
      RunExists(reg, args, i + w);
      var ps: seq<nat>, e: nat :| Run(reg, args, i + w, ps, e) && Halts(reg, args, e);
      RunCons(reg, args, i, ps, e);
    }
  }

  /**
   * A parse that meets an operand (a token not starting with `-`) or the end
   * after a run returns the number of option tokens in the run, and each
   * option is found exactly when a token of the run names it, its value being
   * the argument after the last such token, even one starting with `-`.
   */
  lemma ParseStopsAtOperand(opts: seq<Opt>, args: seq<string>, ps: seq<nat>, e: nat)
    requires Run(opts, args, 1, ps, e)
    requires e == |args| || !StartsWith(args[e], "-")
    ensures Parse(opts, args) == Outcome(|ps|, Marked(Reset(opts), opts, args, ps))
  {
    ScanAlongRun(Reset(opts), opts, args, 1, 0, ps, e);
  }

  /** A token starting with `-` after a run that names no option makes the parse return INVALID_OPTIONS. */
  lemma ParseRejectsUnknown(opts: seq<Opt>, args: seq<string>, ps: seq<nat>, e: nat)
    requires Run(opts, args, 1, ps, e) && e < |args|
    requires StartsWith(args[e], "-") && Lookup(opts, args[e]).None?
    ensures Parse(opts, args) == Outcome(INVALID_OPTIONS, Marked(Reset(opts), opts, args, ps))
  {
    ScanAlongRun(Reset(opts), opts, args, 1, 0, ps, e);
  }

  /** An option that requires a value, named by the last argument after a run, makes the parse return MISSING_ARGUMENT with that option found. */
  lemma ParseMissingValue(opts: seq<Opt>, args: seq<string>, ps: seq<nat>, e: nat, k: nat)
    requires Run(opts, args, 1, ps, e) && e + 1 == |args|
    requires StartsWith(args[e], "-") && Lookup(opts, args[e]) == Some(k) && opts[k].argOption == ReqArg
    ensures var m := Marked(Reset(opts), opts, args, ps);
      Parse(opts, args) == Outcome(MISSING_ARGUMENT, m[k := m[k].(found := true)])
  {
    ScanAlongRun(Reset(opts), opts, args, 1, 0, ps, e);
  }

  /**
   * The return code of every parse that does not fail is the number of option
   * tokens it read, which end at an operand or at the end of the arguments.
   */
  lemma ParseCountsOptionTokens(opts: seq<Opt>, args: seq<string>)
    requires args != []
    ensures exists ps: seq<nat>, e: nat ::
      Run(opts, args, 1, ps, e) && Halts(opts, args, e) &&
      (Parse(opts, args).code >= 0 ==>
        Parse(opts, args).code == |ps| && (e == |args| || !StartsWith(args[e], "-")))
  {
    RunExists(opts, args, 1);
    var ps: seq<nat>, e: nat :| Run(opts, args, 1, ps, e) && Halts(opts, args, e);
    if e == |args| || !StartsWith(args[e], "-") {
      ParseStopsAtOperand(opts, args, ps, e);
    } else if Lookup(opts, args[e]).None? {
      ParseRejectsUnknown(opts, args, ps, e);
    } else {
      ParseMissingValue(opts, args, ps, e, Lookup(opts, args[e]).value);
    }
  }

  /** `-b -x` with `b` requiring a value: `-x` is taken as the value, not as an option. */
  lemma ValueStartingWithDash()
    ensures Parse([NewOpt('b', "bw", ReqArg), NewOpt('x', "", NoArg)], ["add", "-b", "-x"]) ==
      Outcome(1, [Opt('b', "bw", ReqArg, "-x", true), NewOpt('x', "", NoArg)])
  {
    var opts := [NewOpt('b', "bw", ReqArg), NewOpt('x', "", NoArg)];
    var args := ["add", "-b", "-x"];
    assert args[1][..2][1] != "--"[1];
    assert StartsWith(args[1], "-") && !StartsWith(args[1], "--");
    assert Lookup(opts, args[1]) == Some(0);
  }
}
