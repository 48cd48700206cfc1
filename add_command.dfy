/**
 * `add_handler` of src/commands/add.c: reads the options `getopt_long` hands
 * back (`-h/--help`, `-b/--band <value>`), checks the bandwidth as `strtol`
 * reads it, then adds one device per remaining argument.
 */
module AddCommand {
  import opened Wrappers
  import opened Errors
  import Text
  import opened UConnux

  const DEFAULT_BANDWIDTH: int := 115200
  const LONG_MAX: int := 0x7FFF_FFFF_FFFF_FFFF
  const LONG_MIN: int := -0x8000_0000_0000_0000

  // ---------------------------------------------------------------------------
  // strtol(s, NULL, 10)
  // ---------------------------------------------------------------------------

  predicate IsDigit(c: char)
  {
    '0' <= c <= '9'
  }

  predicate AllDigits(ds: string)
  {
    forall k | 0 <= k < |ds| :: IsDigit(ds[k])
  }

  /** The longest prefix of `s` made of decimal digits. */
  function TakeDigits(s: string): (ds: string)
    ensures |ds| <= |s| && ds == s[..|ds|] && AllDigits(ds)
    ensures |ds| < |s| ==> !IsDigit(s[|ds|])
  {
    if s == [] || !IsDigit(s[0]) then [] else [s[0]] + TakeDigits(s[1..])
  }

  /** The number a string of decimal digits denotes. */
  function DigitsValue(ds: string): nat
    requires AllDigits(ds)
  {
    if ds == [] then 0 else 10 * DigitsValue(ds[..|ds| - 1]) + (ds[|ds| - 1] as int - '0' as int)
  }

  /** `errno` after `strtol`: untouched, or ERANGE on overflow. */
  datatype Errno = NoError | ERange

  datatype Converted = Converted(value: int, errno: Errno)

  /**
   * `strtol` in base 10: leading white space, an optional sign, then as many
   * digits as there are; no digits gives 0, and a value outside `long` is
   * clamped with ERANGE. What follows the digits is ignored.
   */
  /** What follows an optional leading sign. */
  function AfterSign(t: string): string
  {
    if t != [] && (t[0] == '-' || t[0] == '+') then t[1..] else t
  }

  function Strtol(s: string): (r: Converted)
    ensures LONG_MIN <= r.value <= LONG_MAX
  {
    var t := Text.TrimLeft(s);
    var negative := t != [] && t[0] == '-';
    var body := if t != [] && (t[0] == '-' || t[0] == '+') then t[1..] else t;
    var ds := TakeDigits(body);
    var v: int := if negative then -(DigitsValue(ds) as int) else DigitsValue(ds);
    if v > LONG_MAX then Converted(LONG_MAX, ERange)
    else if v < LONG_MIN then Converted(LONG_MIN, ERange)
    else Converted(v, NoError)
  }

  /** The decimal digits of a number, most significant first and without leading zeros. */
  function Decimal(n: nat): (ds: string)
    ensures ds != [] && AllDigits(ds)
  {
    if n < 10 then [('0' as int + n) as char]
    else Decimal(n / 10) + [('0' as int + n % 10) as char]
  }

  lemma {:induction false} DecimalValue(n: nat)
    ensures DigitsValue(Decimal(n)) == n
  {
    if n >= 10 {
      var ds := Decimal(n);
      assert ds[..|ds| - 1] == Decimal(n / 10);
      DecimalValue(n / 10);
    }
  }

  lemma {:induction false} TakeAllDigits(ds: string, rest: string)
    requires AllDigits(ds) && (rest == [] || !IsDigit(rest[0]))
    ensures TakeDigits(ds + rest) == ds
  {
    if ds != [] {
      assert (ds + rest)[1..] == ds[1..] + rest;
      TakeAllDigits(ds[1..], rest);
    }
  }

  /**
   * `strtol` reads back a number written in decimal, whatever non-digit text
   * follows it.
   */
  lemma StrtolDecimal(n: nat, rest: string)
    requires n <= LONG_MAX && (rest == [] || !IsDigit(rest[0]))
    ensures Strtol(Decimal(n) + rest) == Converted(n, NoError)
  {
    var ds := Decimal(n);
    var s := ds + rest;
    assert s[0] == ds[0] && IsDigit(s[0]);
    NoLeadingSpace(s);
    TakeAllDigits(ds, rest);
    DecimalValue(n);
  }

  lemma NoLeadingSpace(s: string)
    requires s != [] && IsDigit(s[0])
    ensures Text.TrimLeft(s) == s
  {
  }

  /** Without a digit after the blanks and the sign, `strtol` converts nothing: 0, without error. */
  lemma StrtolNoDigits(s: string)
    requires var u := AfterSign(Text.TrimLeft(s)); u == [] || !IsDigit(u[0])
    ensures Strtol(s) == Converted(0, NoError)
  {
    assert TakeDigits(AfterSign(Text.TrimLeft(s))) == [];
  }

  /** Text that starts with a character other than a blank, a sign or a digit converts to 0, without error. */
  lemma StrtolWord(c: char, rest: string)
    requires !Text.IsSpace(c) && c != '+' && c != '-' && !IsDigit(c)
    ensures Strtol([c] + rest) == Converted(0, NoError)
  {
    var s := [c] + rest;
    assert s[0] == c;
    assert Text.TrimLeft(s) == s;
    assert AfterSign(s) == s;
    StrtolNoDigits(s);
  }

  // ---------------------------------------------------------------------------
  // The option loop
  // ---------------------------------------------------------------------------

  /** What one call of `getopt_long` with "hb:" and the two long options returns. */
  datatype GetoptItem =
    | HelpOpt                          // 'h'
    | BandOpt(optarg: Option<string>)  // 'b', with `optarg`
    | UnknownOpt                       // '?'
    | OtherOpt(c: char)                // anything else

  /** Whether the option loop runs to its end with a bandwidth, or returns a code. */
  datatype OptionsOutcome = Proceed(bandwidth: int) | Return(code: ErrorCode)

  /** The `-b` value check: not a number, out of range, or not positive. */
  predicate BandwidthAccepted(c: Converted)
  {
    c.errno == NoError && c.value > 0
  }

  /** The `while (getopt_long(...) != -1)` loop, `bandwidth` being the value so far. */
  function ScanOptions(items: seq<GetoptItem>, bandwidth: int): (r: OptionsOutcome)
    ensures r.Proceed? ==> r.bandwidth == bandwidth || 0 < r.bandwidth <= LONG_MAX
    ensures r.Return? ==> r.code in {ErrSuccess, ErrMissingArg, ErrInvalidArgument, ErrInvalidOption, ErrFailure}
  {
    if items == [] then Proceed(bandwidth)
    else match items[0]
      case HelpOpt => Return(ErrSuccess)
      case BandOpt(arg) =>
        if arg.None? then Return(ErrMissingArg)
        else if !BandwidthAccepted(Strtol(arg.value)) then Return(ErrInvalidArgument)
        else ScanOptions(items[1..], Strtol(arg.value).value)
      case UnknownOpt => Return(ErrInvalidOption)
      case OtherOpt(_) => Return(ErrFailure)
  }

  /** An option the loop goes past: a `-b` whose value passes the check. */
  predicate PassesOption(it: GetoptItem)
  {
    it.BandOpt? && it.optarg.Some? && BandwidthAccepted(Strtol(it.optarg.value))
  }

  /** The code the loop returns at an option it does not go past. */
  function StopCode(it: GetoptItem): (c: ErrorCode)
    requires !PassesOption(it)
    ensures c == ErrSuccess <==> it.HelpOpt?
    ensures c == ErrInvalidArgument <==> it.BandOpt? && it.optarg.Some?
  {
    match it
    case HelpOpt => ErrSuccess
    case BandOpt(arg) => if arg.None? then ErrMissingArg else ErrInvalidArgument
    case UnknownOpt => ErrInvalidOption
    case OtherOpt(_) => ErrFailure
  }

  /** The code `add_handler` returns, given the options and the arguments after them. */
  function HandlerCode(items: seq<GetoptItem>, operands: seq<string>): (c: ErrorCode)
    ensures c in {ErrSuccess, ErrMissingArg, ErrInvalidArgument, ErrInvalidOption, ErrFailure}
  {
    match ScanOptions(items, DEFAULT_BANDWIDTH)
    case Return(c) => c
    case Proceed(_) => if operands == [] then ErrMissingArg else ErrSuccess
  }

  /** `long` to `unsigned int` at the call of `add_device`: reduction modulo 2^32. */
  function ToUnsigned(bandwidth: int): uint32
  {
    bandwidth % 0x1_0000_0000
  }

  /** The result of adding a list of ports: one code per port, and the table after. */
  datatype Batch = Batch(codes: seq<ErrorCode>, slots: seq<Slot>, counter: nat)

  /** `add_device` on each port in turn, allocation always succeeding. */
  function AddAll(slots: seq<Slot>, counter: nat, ports: seq<string>, bandwidth: uint32): (r: Batch)
    requires Initialised(slots)
    ensures |r.codes| == |ports| && Initialised(r.slots) && |r.slots| == |slots|
    decreases |ports|
  {
    if ports == [] then Batch([], slots, counter)
    else
      var a := AddDeviceSpec(slots, counter, Some(ports[0]), bandwidth, true);
      var rest := AddAll(a.slots, a.counter, ports[1..], bandwidth);
      Batch([a.code] + rest.codes, rest.slots, rest.counter)
  }

  /** The bandwidth `add_handler` passes to `add_device`, when it gets that far. */
  function ChosenBandwidth(items: seq<GetoptItem>): uint32
  {
    match ScanOptions(items, DEFAULT_BANDWIDTH)
    case Proceed(b) => ToUnsigned(b)
    case Return(_) => 0
  }

  /** Whether `add_handler` reaches the loop over port names. */
  predicate AddsPorts(items: seq<GetoptItem>, operands: seq<string>)
  {
    ScanOptions(items, DEFAULT_BANDWIDTH).Proceed? && operands != []
  }

  /**
   * `add_handler`, with the results of `getopt_long` and the arguments from
   * `optind` on as inputs. `statuses` holds, per port, the code the printed
   * status line shows.
   */
  method AddHandler(items: seq<GetoptItem>, operands: seq<string>, handler: UConnuxHandler?)
    returns (e: ErrorCode, statuses: seq<ErrorCode>)
    requires handler != null ==> Initialised(handler.devices[..])
    modifies if handler == null then {} else {handler, handler.devices}
    ensures e == HandlerCode(items, operands)
    ensures handler != null && AddsPorts(items, operands) ==>
      Batch(statuses, handler.devices[..], handler.devicesCounter) ==
      AddAll(old(handler.devices[..]), old(handler.devicesCounter), operands, ChosenBandwidth(items))
    ensures handler != null && !AddsPorts(items, operands) ==>
      handler.devices[..] == old(handler.devices[..]) && handler.devicesCounter == old(handler.devicesCounter)
    ensures handler == null && AddsPorts(items, operands) ==>
      |statuses| == |operands| && forall k | 0 <= k < |statuses| :: statuses[k] == ErrNullArgument
    ensures !AddsPorts(items, operands) ==> statuses == []
    ensures handler != null && old(handler.Valid()) ==> handler.Valid()
  {
    if handler != null && handler.Valid() {
      AddAllKeepsTable(handler.devices[..], handler.devicesCounter, operands, ChosenBandwidth(items));
    }
    var bandwidth := DEFAULT_BANDWIDTH;
    var i := 0;
    while i < |items|
      invariant i <= |items|
      invariant ScanOptions(items[i..], bandwidth) == ScanOptions(items, DEFAULT_BANDWIDTH)
      decreases |items| - i
    {
      assert items[i..][1..] == items[i + 1..];
      var item := items[i];
      if item.HelpOpt? {
        return ErrSuccess, [];
      } else if item.BandOpt? {
        if item.optarg.None? {
          return ErrMissingArg, [];
        }
        var converted := Strtol(item.optarg.value);
        if converted.errno == ERange || converted.value <= 0 {
          return ErrInvalidArgument, [];
        }
        bandwidth := converted.value;
      } else if item.UnknownOpt? {
        return ErrInvalidOption, [];
      } else {
        return ErrFailure, [];
      }
      i := i + 1;
    }
    if operands == [] {
      return ErrMissingArg, [];
    }
    statuses := AddPorts(operands, ToUnsigned(bandwidth), handler);
    return ErrSuccess, statuses;
  }

  /** The codes of `n` ports given to `add_device` without a handler. */
  function NullArguments(n: nat): (r: seq<ErrorCode>)
    ensures |r| == n && forall k | 0 <= k < n :: r[k] == ErrNullArgument
  {
    if n == 0 then [] else NullArguments(n - 1) + [ErrNullArgument]
  }

  /** The loop over port names: `add_device` on each, collecting the codes. */
  method AddPorts(operands: seq<string>, bandwidth: uint32, handler: UConnuxHandler?) returns (statuses: seq<ErrorCode>)
    requires handler != null ==> Initialised(handler.devices[..])
    modifies if handler == null then {} else {handler, handler.devices}
    ensures handler != null ==>
      Batch(statuses, handler.devices[..], handler.devicesCounter) ==
      AddAll(old(handler.devices[..]), old(handler.devicesCounter), operands, bandwidth)
    ensures handler == null ==>
      |statuses| == |operands| && forall k | 0 <= k < |statuses| :: statuses[k] == ErrNullArgument
    ensures handler != null && old(handler.Valid()) ==> handler.Valid()
  {
    ghost var all := if handler == null then Batch([], [], 0) else AddAll(handler.devices[..], handler.devicesCounter, operands, bandwidth);
    statuses := [];
    var i := 0;
    while i < |operands|
      invariant i <= |operands|
      invariant handler == null ==> statuses == NullArguments(i)
      invariant handler != null ==> Initialised(handler.devices[..]) && Remaining(statuses, handler.devices[..], handler.devicesCounter, operands[i..], bandwidth, all)
    {
      ghost var slots: seq<Slot> := if handler == null then [] else handler.devices[..];
      ghost var counter: nat := if handler == null then 0 else handler.devicesCounter;
      var code := AddDevice(handler, Some(operands[i]), bandwidth, true);
      if handler != null {
        RemainingStep(statuses, code, slots, counter, handler.devices[..], handler.devicesCounter, operands[i..], bandwidth, all);
        assert operands[i..][1..] == operands[i + 1..];
      }
      statuses := statuses + [code];
      i := i + 1;
    }
    if handler != null && old(handler.Valid()) {
      AddAllKeepsTable(old(handler.devices[..]), old(handler.devicesCounter), operands, bandwidth);
    }
  }

  /** The codes so far, followed by those of adding the remaining ports to the table so far, make up the whole batch. */
  ghost predicate Remaining(statuses: seq<ErrorCode>, slots: seq<Slot>, counter: nat, ports: seq<string>, bandwidth: uint32, all: Batch)
    requires Initialised(slots)
  {
    var rest := AddAll(slots, counter, ports, bandwidth);
    statuses + rest.codes == all.codes && rest.slots == all.slots && rest.counter == all.counter
  }

  /** Adding the next port keeps `Remaining`, with its code appended. */
  lemma RemainingStep(statuses: seq<ErrorCode>, code: ErrorCode, slots: seq<Slot>, counter: nat, slots': seq<Slot>, counter': nat,
                      ports: seq<string>, bandwidth: uint32, all: Batch)
    requires Initialised(slots) && ports != []
    requires AddResult(code, slots', counter') == AddDeviceSpec(slots, counter, Some(ports[0]), bandwidth, true)
    requires Remaining(statuses, slots, counter, ports, bandwidth, all)
    ensures Initialised(slots')
    ensures Remaining(statuses + [code], slots', counter', ports[1..], bandwidth, all)
  {
    var rest := AddAll(slots', counter', ports[1..], bandwidth);
    assert AddAll(slots, counter, ports, bandwidth).codes == [code] + rest.codes;
    assert statuses + [code] + rest.codes == statuses + ([code] + rest.codes);
  }

  /** The value of the last `-b` among the options, if there is one. */
  function LastBand(items: seq<GetoptItem>): Option<string>
  {
    if items == [] then None
    else
      var later := LastBand(items[1..]);
      if later.Some? then later
      else if items[0].BandOpt? then items[0].optarg
      else None
  }

  /**
   * The option loop runs to its end exactly when every option is a `-b` with
   * an accepted value, and then the bandwidth is the last `-b`'s value, or the
   * starting one when there is no `-b`.
   */
  lemma {:induction false} ScanChoosesLast(items: seq<GetoptItem>, bandwidth: int)
    ensures ScanOptions(items, bandwidth).Proceed? <==> forall k | 0 <= k < |items| :: PassesOption(items[k])
    ensures ScanOptions(items, bandwidth).Proceed? ==>
      ScanOptions(items, bandwidth).bandwidth == match LastBand(items) case None => bandwidth case Some(a) => Strtol(a).value
  {
    if items != [] {
      if PassesOption(items[0]) {
        var b := Strtol(items[0].optarg.value).value;
        ScanPast(items, bandwidth);
        ScanChoosesLast(items[1..], b);
        AllPassTail(items);
      } else {
        ScanStopsHere(items, bandwidth);
      }
    }
  }

  /** Past a first option the loop goes past, every option passes exactly when every later one does. */
  lemma AllPassTail(items: seq<GetoptItem>)
    requires items != [] && PassesOption(items[0])
    ensures (forall k | 0 <= k < |items| :: PassesOption(items[k])) <==>
      (forall k | 0 <= k < |items[1..]| :: PassesOption(items[1..][k]))
  {
    assert forall k | 1 <= k < |items| :: items[k] == items[1..][k - 1];
  }

  /** The bandwidth handed to `add_device` is positive and fits in a `long` before the conversion. */
  lemma ChosenBandwidthRange(items: seq<GetoptItem>)
    requires ScanOptions(items, DEFAULT_BANDWIDTH).Proceed?
    ensures 0 < ScanOptions(items, DEFAULT_BANDWIDTH).bandwidth <= LONG_MAX
  {
    ScanChoosesLast(items, DEFAULT_BANDWIDTH);
    var last := LastBand(items);
    if last.Some? {
      LastBandIsAnOption(items);
    }
  }

  lemma {:induction false} LastBandIsAnOption(items: seq<GetoptItem>)
    ensures LastBand(items).Some? ==> exists k | 0 <= k < |items| :: items[k] == BandOpt(LastBand(items))
  {
    if items != [] {
      LastBandIsAnOption(items[1..]);
      if LastBand(items[1..]).Some? {
        var k :| 0 <= k < |items[1..]| && items[1..][k] == BandOpt(LastBand(items[1..]));
        assert items[k + 1] == BandOpt(LastBand(items));
      }
    }
  }

  /** A single accepted `-b` value reaches `add_device` reduced modulo 2^32. */
  lemma SingleBand(arg: string)
    requires BandwidthAccepted(Strtol(arg))
    ensures ChosenBandwidth([BandOpt(Some(arg))]) == Strtol(arg).value % 0x1_0000_0000
  {
    var items := [BandOpt(Some(arg))];
    assert items[1..] == [];
    assert ScanOptions(items[1..], Strtol(arg).value) == Proceed(Strtol(arg).value);
    assert ScanOptions(items, DEFAULT_BANDWIDTH) == Proceed(Strtol(arg).value);
  }

  /** A `-b` value written in decimal reaches `add_device` reduced modulo 2^32. */
  lemma BandwidthWraps(n: nat)
    requires 0 < n <= LONG_MAX
    ensures ChosenBandwidth([BandOpt(Some(Decimal(n)))]) == n % 0x1_0000_0000
  {
    StrtolDecimal(n, []);
    assert Decimal(n) + [] == Decimal(n);
    SingleBand(Decimal(n));
  }

  /** `-b 4294967296` passes the range check, yet the device gets a bandwidth of 0. */
  lemma WrapToZeroExample()
    ensures ChosenBandwidth([BandOpt(Some(Decimal(0x1_0000_0000)))]) == 0
  {
    BandwidthWraps(0x1_0000_0000);
  }

  /** The loop returns at the first option it cannot go past, with that option's code. */
  lemma {:induction false} ScanStopsAt(items: seq<GetoptItem>, bandwidth: int, k: nat)
    requires k < |items| && !PassesOption(items[k])
    requires forall j | 0 <= j < k :: PassesOption(items[j])
    ensures ScanOptions(items, bandwidth) == Return(StopCode(items[k]))
    decreases k
  {
    if k == 0 {
      ScanStopsHere(items, bandwidth);
    } else {
      var next := Strtol(items[0].optarg.value).value;
      ScanPast(items, bandwidth);
      var rest := items[1..];
      forall j | 0 <= j < k - 1
        ensures PassesOption(rest[j])
      {
        assert rest[j] == items[j + 1];
      }
      assert rest[k - 1] == items[k];
      ScanStopsAt(rest, next, k - 1);
    }
  }

  /** The loop returns at an option it cannot go past. */
  lemma ScanStopsHere(items: seq<GetoptItem>, bandwidth: int)
    requires items != [] && !PassesOption(items[0])
    ensures ScanOptions(items, bandwidth) == Return(StopCode(items[0]))
  {
  }

  /** The loop goes past an accepted `-b`, its value becoming the bandwidth. */
  lemma ScanPast(items: seq<GetoptItem>, bandwidth: int)
    requires items != [] && PassesOption(items[0])
    ensures ScanOptions(items, bandwidth) == ScanOptions(items[1..], Strtol(items[0].optarg.value).value)
  {
  }

  /**
   * `add_handler` returns the code of the first option that is not a `-b`
   * with an accepted value, whatever the port names.
   */
  lemma HandlerCodeAt(items: seq<GetoptItem>, operands: seq<string>, k: nat)
    requires k < |items| && !PassesOption(items[k])
    requires forall j | 0 <= j < k :: PassesOption(items[j])
    ensures HandlerCode(items, operands) == StopCode(items[k])
  {
    ScanStopsAt(items, DEFAULT_BANDWIDTH, k);
  }

  /** A `-b` value that is not a number, out of range, or not positive makes `add_handler` return ERR_INVALID_ARGUMENT. */
  lemma BandRejected(items: seq<GetoptItem>, operands: seq<string>, k: nat, a: string)
    requires k < |items| && items[k] == BandOpt(Some(a)) && !BandwidthAccepted(Strtol(a))
    requires forall j | 0 <= j < k :: PassesOption(items[j])
    ensures HandlerCode(items, operands) == ErrInvalidArgument
  {
    HandlerCodeAt(items, operands, k);
  }

  /** `-b fast` and `-b 0` are both refused, before any port is added. */
  lemma BandRejectedExamples(operands: seq<string>)
    ensures HandlerCode([BandOpt(Some("fast"))], operands) == ErrInvalidArgument
    ensures HandlerCode([BandOpt(Some("0"))], operands) == ErrInvalidArgument
  {
    assert "fast" == ['f'] + "ast";
    StrtolWord('f', "ast");
    BandRejected([BandOpt(Some("fast"))], operands, 0, "fast");
    StrtolDecimal(0, []);
    assert Decimal(0) + [] == "0";
    BandRejected([BandOpt(Some("0"))], operands, 0, "0");
  }

  function CountSuccesses(codes: seq<ErrorCode>): nat
  {
    if codes == [] then 0 else (if codes[0] == ErrSuccess then 1 else 0) + CountSuccesses(codes[1..])
  }

  /**
   * Adding a list of ports keeps the table invariant; the counter grows by
   * the number of ports added; each port reported added or already present
   * is held by the table afterwards; and no port fails for lack of a slot.
   */
  lemma {:induction false} AddAllInvariant(slots: seq<Slot>, counter: nat, ports: seq<string>, bandwidth: uint32)
    requires TableInvariant(slots, counter)
    ensures var r := AddAll(slots, counter, ports, bandwidth);
      TableInvariant(r.slots, r.counter) && r.counter == counter + CountSuccesses(r.codes)
    ensures var r := AddAll(slots, counter, ports, bandwidth);
      forall k | 0 <= k < |ports| :: r.codes[k] in {ErrSuccess, ErrAlreadyExist, ErrLimit, ErrInvalidArgument}
    ensures var r := AddAll(slots, counter, ports, bandwidth);
      forall k | 0 <= k < |ports| && (r.codes[k] == ErrSuccess || r.codes[k] == ErrAlreadyExist) :: HoldsPort(r.slots, ports[k])
    ensures forall x | HoldsPort(slots, x) :: HoldsPort(AddAll(slots, counter, ports, bandwidth).slots, x)
    decreases |ports|
  {
    if ports != [] {
      var a := AddDeviceSpec(slots, counter, Some(ports[0]), bandwidth, true);
      AddPreservesInvariant(slots, counter, Some(ports[0]), bandwidth, true);
      AddNeverLacksSlot(slots, counter, Some(ports[0]), bandwidth, true);
      AddEffect(slots, counter, Some(ports[0]), bandwidth, true);
      forall x | HoldsPort(slots, x) ensures HoldsPort(a.slots, x) {
        AddKeepsPorts(slots, counter, Some(ports[0]), bandwidth, true, x);
      }
      AddAllInvariant(a.slots, a.counter, ports[1..], bandwidth);
      var r := AddAll(slots, counter, ports, bandwidth);
      var rest := AddAll(a.slots, a.counter, ports[1..], bandwidth);
      assert r.codes == [a.code] + rest.codes;
      assert r.codes[1..] == rest.codes;
      forall k | 0 <= k < |ports| && (r.codes[k] == ErrSuccess || r.codes[k] == ErrAlreadyExist)
        ensures HoldsPort(r.slots, ports[k])
      {
        if k == 0 {
          assert HoldsPort(a.slots, ports[0]);
        } else {
          assert r.codes[k] == rest.codes[k - 1] && ports[k] == ports[1..][k - 1];
        }
      }
    }
  }

  /** Adding a batch of ports keeps the table invariant. */
  lemma AddAllKeepsTable(slots: seq<Slot>, counter: nat, ports: seq<string>, bandwidth: uint32)
    requires TableInvariant(slots, counter)
    ensures TableInvariant(AddAll(slots, counter, ports, bandwidth).slots, AddAll(slots, counter, ports, bandwidth).counter)
  {
    AddAllInvariant(slots, counter, ports, bandwidth);
  }
}
