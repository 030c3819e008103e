/**
 * The Traffic Manager's command line: the loop in `main` that turns the
 * argument vector into a session configuration, and the choice between a
 * clock-based and a fixed randomization seed that follows it.
 *
 * `argv` is the whole argument vector, program name included, so that its
 * indices are the ones the C++ loop uses (it starts at 1).  `std::stoi` is
 * an uninterpreted partial function `stoi`: `None` stands for the exception
 * it throws on a value it cannot convert.
 */
module CommandLine {
  import opened Wrappers

  /** A value stored into a 32-bit `uint` is taken modulo this. */
  const UintModulus: int := 0x1_0000_0000

  const DefaultSeed: int := -1
  const DefaultTargetAmount: nat := 0
  const DefaultHost: string := "localhost"
  const DefaultPort: nat := 2000

  /** The locals of `main` that the loop updates. */
  datatype Config = Config(seed: int, targetAmount: nat, host: string, port: nat)

  function Defaults(): Config {
    Config(DefaultSeed, DefaultTargetAmount, DefaultHost, DefaultPort)
  }

  /** The four options the loop recognises; each one consumes the next argument. */
  predicate TakesValue(arg: string) {
    arg == "-n" || arg == "-s" || arg == "-p" || arg == "--host"
  }

  /** The conversion of a signed `int` into a 32-bit `uint`. */
  function ToUint(x: int): (u: nat)
    ensures u < UintModulus
    ensures 0 <= x < UintModulus ==> u == x
    ensures -UintModulus <= x < 0 ==> u == x + UintModulus
  {
    x % UintModulus
  }

  // ---------------------------------------------------------------------
  // Fields of the configuration, viewed uniformly

  datatype Field = Seed | TargetAmount | Host | Port
  datatype Setting = Number(n: int) | Text(s: string)

  function Get(cfg: Config, f: Field): Setting {
    match f
    case Seed => Number(cfg.seed)
    case TargetAmount => Number(cfg.targetAmount)
    case Host => Text(cfg.host)
    case Port => Number(cfg.port)
  }

  /** The option that sets field `f`. */
  function FlagOf(f: Field): string {
    match f
    case Seed => "-s"
    case TargetAmount => "-n"
    case Host => "--host"
    case Port => "-p"
  }

  /** What `value` becomes when stored into field `f`, or `None` when it does not parse. */
  function Convert(f: Field, value: string, stoi: string -> Option<int>): Option<Setting> {
    match f
    case Host => Some(Text(value))
    case Seed =>
      (match stoi(value)
       case Some(x) => Some(Number(x))
       case None => None)
    case _ =>
      (match stoi(value)
       case Some(x) => Some(Number(ToUint(x)))
       case None => None)
  }

  /** What the pair `flag value` writes into field `f`, if anything. */
  function Written(flag: string, value: string, f: Field, stoi: string -> Option<int>): Option<Setting> {
    if flag == FlagOf(f) then Convert(f, value, stoi) else None
  }

  // ---------------------------------------------------------------------
  // The loop, as functions

  /**
   * One iteration of the loop on a recognised option `flag` with its
   * `value`: the field of that option is overwritten when the value
   * converts, and nothing else changes.
   */
  function Apply(cfg: Config, flag: string, value: string, stoi: string -> Option<int>): (r: Config)
    ensures forall f :: Get(r, f) == Written(flag, value, f, stoi).GetOr(Get(cfg, f))
  {
    if flag == "-n" then
      (match stoi(value)
       case Some(x) => cfg.(targetAmount := ToUint(x))
       case None => cfg)
    else if flag == "-s" then
      (match stoi(value)
       case Some(x) => cfg.(seed := x)
       case None => cfg)
    else if flag == "-p" then
      (match stoi(value)
       case Some(x) => cfg.(port := ToUint(x))
       case None => cfg)
    else if flag == "--host" then
      cfg.(host := value)
    else
      cfg
  }

  /**
   * Every option that the loop reads as an option, from index `i` on, has
   * an argument after it.  (The C++ code reads past the end of `argv`
   * otherwise.)
   */
  predicate ValuesPresent(argv: seq<string>, i: nat)
    decreases |argv| - i
  {
    i >= |argv| ||
    if TakesValue(argv[i]) then i + 1 < |argv| && ValuesPresent(argv, i + 2)
    else ValuesPresent(argv, i + 1)
  }

  /** The configuration the loop ends with when it reaches index `i` holding `cfg`. */
  function Scan(argv: seq<string>, i: nat, cfg: Config, stoi: string -> Option<int>): Config
    requires ValuesPresent(argv, i)
    decreases |argv| - i
  {
    if i >= |argv| then cfg
    else if TakesValue(argv[i]) then Scan(argv, i + 2, Apply(cfg, argv[i], argv[i + 1], stoi), stoi)
    else Scan(argv, i + 1, cfg, stoi)
  }

  /** The configuration `main` parses from `argv`. */
  function Parse(argv: seq<string>, stoi: string -> Option<int>): Config
    requires ValuesPresent(argv, 1)
  {
    Scan(argv, 1, Defaults(), stoi)
  }

  /** The loop of `main`, with the four option tests in the source's order. */
  method ParseOptions(argv: seq<string>, stoi: string -> Option<int>) returns (config: Config)
    requires ValuesPresent(argv, 1)
    ensures config == Parse(argv, stoi)
  {
    var seed, targetAmount, host, port := DefaultSeed, DefaultTargetAmount, DefaultHost, DefaultPort;
    var i := 1;
    while i < |argv|
      invariant 1 <= i
      invariant ValuesPresent(argv, i)
      invariant Scan(argv, i, Config(seed, targetAmount, host, port), stoi) == Parse(argv, stoi)
      decreases |argv| - i
    {
      var thisArg := argv[i];
      if thisArg == "-n" {
        i := i + 1;
        match stoi(argv[i]) {
          case Some(x) => targetAmount := ToUint(x);
          case None =>
        }
      }
      if thisArg == "-s" {
        i := i + 1;
        match stoi(argv[i]) {
          case Some(x) => seed := x;
          case None =>
        }
      }
      if thisArg == "-p" {
        i := i + 1;
        match stoi(argv[i]) {
          case Some(x) => port := ToUint(x);
          case None =>
        }
      }
      if thisArg == "--host" {
        i := i + 1;
        host := argv[i];
      }
      i := i + 1;
    }
    config := Config(seed, targetAmount, host, port);
  }

  // ---------------------------------------------------------------------
  // Which arguments the loop reads as options

  /** The indices, from `i` on, at which the loop reads an argument as an option (or skips it). */
  function Visited(argv: seq<string>, i: nat): seq<nat>
    decreases |argv| - i
  {
    if i >= |argv| then []
    else [i] + Visited(argv, if TakesValue(argv[i]) then i + 2 else i + 1)
  }

  /**
   * The loop starts at `i`, moves on by one past an unrecognised argument
   * and by two past an option, strictly increases, and stops at the end.
   */
  lemma {:induction false} VisitedShape(argv: seq<string>, i: nat)
    ensures forall k :: 0 <= k < |Visited(argv, i)| ==> i <= Visited(argv, i)[k] < |argv|
    ensures i < |argv| ==> |Visited(argv, i)| > 0 && Visited(argv, i)[0] == i
    ensures forall k :: 0 <= k < |Visited(argv, i)| - 1 ==>
      Visited(argv, i)[k + 1] == Visited(argv, i)[k] + if TakesValue(argv[Visited(argv, i)[k]]) then 2 else 1
    ensures forall a, b :: 0 <= a < b < |Visited(argv, i)| ==> Visited(argv, i)[a] < Visited(argv, i)[b]
    decreases |argv| - i
  {
    if i < |argv| {
      var next := if TakesValue(argv[i]) then i + 2 else i + 1;
      VisitedShape(argv, next);
      var v, rest := Visited(argv, i), Visited(argv, next);
      assert v == [i] + rest;
      assert forall k :: 1 <= k < |v| ==> v[k] == rest[k - 1];
    }
  }

  /** The argument after an option is its value: the loop never reads it as an option. */
  lemma ValueNeverReadAsOption(argv: seq<string>, i: nat, p: nat)
    requires p < |argv| && p in Visited(argv, i) && TakesValue(argv[p])
    ensures p + 1 !in Visited(argv, i)
  {
    VisitedShape(argv, i);
    var v := Visited(argv, i);
    var k :| 0 <= k < |v| && v[k] == p;
    forall m | 0 <= m < |v|
      ensures v[m] != p + 1
    {
      if k < m {
        assert v[k + 1] == p + 2;
        assert k + 1 == m || v[k + 1] < v[m];
      }
    }
  }

  /** Every argument after the program name is either read as an option (or skipped) or consumed as a value. */
  lemma {:induction false} EveryArgumentAccounted(argv: seq<string>, i: nat, j: nat)
    requires 1 <= i <= j < |argv|
    ensures j in Visited(argv, i) || (j - 1 in Visited(argv, i) && TakesValue(argv[j - 1]))
    decreases |argv| - i
  {
    var next := if TakesValue(argv[i]) then i + 2 else i + 1;
    assert Visited(argv, i) == [i] + Visited(argv, next);
    if j >= next {
      EveryArgumentAccounted(argv, next, j);
    }
  }

  // ---------------------------------------------------------------------
  // The last successful occurrence of an option decides its field

  /** What the argument at index `p`, read as an option, writes into field `f`. */
  function WriteAt(argv: seq<string>, p: nat, f: Field, stoi: string -> Option<int>): Option<Setting> {
    if p + 1 < |argv| then Written(argv[p], argv[p + 1], f, stoi) else None
  }

  /** The last write into field `f` among the positions `v`, if any. */
  function LastWrite(argv: seq<string>, v: seq<nat>, f: Field, stoi: string -> Option<int>): Option<Setting>
    decreases |v|
  {
    if v == [] then None
    else
      match LastWrite(argv, v[1..], f, stoi)
      case Some(s) => Some(s)
      case None => WriteAt(argv, v[0], f, stoi)
  }

  /** The loop leaves in each field the last value written into it, or what it started with. */
  lemma {:induction false} ScanIsLastWrite(argv: seq<string>, i: nat, cfg: Config, f: Field, stoi: string -> Option<int>)
    requires ValuesPresent(argv, i)
    ensures Get(Scan(argv, i, cfg, stoi), f) == LastWrite(argv, Visited(argv, i), f, stoi).GetOr(Get(cfg, f))
    decreases |argv| - i
  {
    if i < |argv| {
      var v := Visited(argv, i);
      if TakesValue(argv[i]) {
        var cfg' := Apply(cfg, argv[i], argv[i + 1], stoi);
        ScanIsLastWrite(argv, i + 2, cfg', f, stoi);
        assert v[1..] == Visited(argv, i + 2);
      } else {
        ScanIsLastWrite(argv, i + 1, cfg, f, stoi);
        assert v[1..] == Visited(argv, i + 1);
        assert WriteAt(argv, i, f, stoi) == None;
      }
    }
  }

  lemma {:induction false} LastWriteAt(argv: seq<string>, v: seq<nat>, f: Field, stoi: string -> Option<int>, k: nat)
    requires k < |v| && WriteAt(argv, v[k], f, stoi).Some?
    requires forall m :: k < m < |v| ==> WriteAt(argv, v[m], f, stoi).None?
    ensures LastWrite(argv, v, f, stoi) == WriteAt(argv, v[k], f, stoi)
    decreases |v|
  {
    if k == 0 {
      LastWriteNone(argv, v[1..], f, stoi);
    } else {
      LastWriteAt(argv, v[1..], f, stoi, k - 1);
    }
  }

  lemma {:induction false} LastWriteNone(argv: seq<string>, v: seq<nat>, f: Field, stoi: string -> Option<int>)
    requires forall m :: 0 <= m < |v| ==> WriteAt(argv, v[m], f, stoi).None?
    ensures LastWrite(argv, v, f, stoi) == None
    decreases |v|
  {
    if v != [] {
      assert WriteAt(argv, v[0], f, stoi).None?;
      LastWriteNone(argv, v[1..], f, stoi);
    }
  }

  /**
   * When an option occurs several times, the last occurrence whose value
   * converts decides the field (for `--host`, every occurrence converts).
   */
  lemma LastSuccessfulOccurrenceWins(argv: seq<string>, stoi: string -> Option<int>, f: Field, k: nat)
    requires ValuesPresent(argv, 1)
    requires k < |Visited(argv, 1)| && WriteAt(argv, Visited(argv, 1)[k], f, stoi).Some?
    requires forall m :: k < m < |Visited(argv, 1)| ==> WriteAt(argv, Visited(argv, 1)[m], f, stoi).None?
    ensures Get(Parse(argv, stoi), f) == WriteAt(argv, Visited(argv, 1)[k], f, stoi).value
  {
    ScanIsLastWrite(argv, 1, Defaults(), f, stoi);
    LastWriteAt(argv, Visited(argv, 1), f, stoi, k);
  }

  /** A field that no occurrence of its option sets successfully keeps its default. */
  lemma UnsetFieldKeepsDefault(argv: seq<string>, stoi: string -> Option<int>, f: Field)
    requires ValuesPresent(argv, 1)
    requires forall m :: 0 <= m < |Visited(argv, 1)| ==> WriteAt(argv, Visited(argv, 1)[m], f, stoi).None?
    ensures Get(Parse(argv, stoi), f) == Get(Defaults(), f)
  {
    ScanIsLastWrite(argv, 1, Defaults(), f, stoi);
    LastWriteNone(argv, Visited(argv, 1), f, stoi);
  }

  /** A numeric option whose value does not convert changes nothing, and the loop goes on after its value. */
  lemma FailedValueChangesNothing(argv: seq<string>, i: nat, cfg: Config, stoi: string -> Option<int>)
    requires ValuesPresent(argv, i) && i < |argv|
    requires argv[i] in {"-n", "-s", "-p"} && stoi(argv[i + 1]).None?
    ensures Scan(argv, i, cfg, stoi) == Scan(argv, i + 2, cfg, stoi)
  {
  }

  // ---------------------------------------------------------------------
  // Defaults and unrecognised arguments

  /** Without any of the four options from `i` on, the loop leaves the configuration as it was. */
  lemma {:induction false} ScanWithoutOptions(argv: seq<string>, i: nat, cfg: Config, stoi: string -> Option<int>)
    requires forall j :: i <= j < |argv| ==> !TakesValue(argv[j])
    ensures ValuesPresent(argv, i) && Scan(argv, i, cfg, stoi) == cfg
    decreases |argv| - i
  {
    if i < |argv| {
      ScanWithoutOptions(argv, i + 1, cfg, stoi);
    }
  }

  /** With no recognised option, the configuration is the defaults. */
  lemma DefaultsWithoutOptions(argv: seq<string>, stoi: string -> Option<int>)
    requires forall j :: 1 <= j < |argv| ==> !TakesValue(argv[j])
    ensures ValuesPresent(argv, 1)
    ensures Parse(argv, stoi) == Config(-1, 0, "localhost", 2000)
  {
    ScanWithoutOptions(argv, 1, Defaults(), stoi);
  }

  /** The loop's result from `i` depends only on the arguments from `i` on. */
  lemma {:induction false} ScanDependsOnSuffix(xs: seq<string>, i: nat, ys: seq<string>, j: nat, cfg: Config, stoi: string -> Option<int>)
    requires i <= |xs| && j <= |ys| && xs[i..] == ys[j..]
    requires ValuesPresent(xs, i)
    ensures ValuesPresent(ys, j) && Scan(ys, j, cfg, stoi) == Scan(xs, i, cfg, stoi)
    decreases |xs| - i
  {
    if i < |xs| {
      assert xs[i] == xs[i..][0] == ys[j..][0] == ys[j];
      if TakesValue(xs[i]) {
        assert xs[i + 1] == xs[i..][1] == ys[j..][1] == ys[j + 1];
        assert xs[i + 2..] == xs[i..][2..] == ys[j..][2..] == ys[j + 2..];
        ScanDependsOnSuffix(xs, i + 2, ys, j + 2, Apply(cfg, xs[i], xs[i + 1], stoi), stoi);
      } else {
        assert xs[i + 1..] == xs[i..][1..] == ys[j..][1..] == ys[j + 1..];
        ScanDependsOnSuffix(xs, i + 1, ys, j + 1, cfg, stoi);
      }
    }
  }

  /** An unrecognised argument where the loop reads an option can be removed without changing the result. */
  lemma {:induction false} UnrecognisedArgumentIgnored(argv: seq<string>, i: nat, p: nat, cfg: Config, stoi: string -> Option<int>)
    requires ValuesPresent(argv, i)
    requires p < |argv| && p in Visited(argv, i) && !TakesValue(argv[p])
    ensures ValuesPresent(argv[..p] + argv[p + 1..], i)
    ensures Scan(argv[..p] + argv[p + 1..], i, cfg, stoi) == Scan(argv, i, cfg, stoi)
    decreases |argv| - i
  {
    VisitedShape(argv, i);
    var ys := argv[..p] + argv[p + 1..];
    if p == i {
      assert ys[p..] == argv[p + 1..];
      ScanDependsOnSuffix(argv, p + 1, ys, p, cfg, stoi);
    } else {
      var next := if TakesValue(argv[i]) then i + 2 else i + 1;
      assert Visited(argv, i) == [i] + Visited(argv, next);
      VisitedShape(argv, next);
      assert p in Visited(argv, next);
      assert ys[i] == argv[i];
      if TakesValue(argv[i]) {
        assert ys[i + 1] == argv[i + 1];
        UnrecognisedArgumentIgnored(argv, next, p, Apply(cfg, argv[i], argv[i + 1], stoi), stoi);
      } else {
        UnrecognisedArgumentIgnored(argv, next, p, cfg, stoi);
      }
    }
  }

  /** Outside a lone `-h`, a `-h` is an ordinary unrecognised argument: removing it changes nothing. */
  lemma DashHIgnored(argv: seq<string>, p: nat, stoi: string -> Option<int>)
    requires ValuesPresent(argv, 1)
    requires p < |argv| && p in Visited(argv, 1) && argv[p] == "-h"
    ensures ValuesPresent(argv[..p] + argv[p + 1..], 1)
    ensures Parse(argv[..p] + argv[p + 1..], stoi) == Parse(argv, stoi)
  {
    UnrecognisedArgumentIgnored(argv, 1, p, Defaults(), stoi);
  }

  /** `-n -s 5`: `-s` is the (unconvertible) value of `-n`, and `5` is then skipped. */
  lemma OptionAsValueExample(stoi: string -> Option<int>)
    requires stoi("-s").None?
    ensures Visited(["tm", "-n", "-s", "5"], 1) == [1, 3]
    ensures ValuesPresent(["tm", "-n", "-s", "5"], 1)
    ensures Parse(["tm", "-n", "-s", "5"], stoi) == Defaults()
  {
  }

  // ---------------------------------------------------------------------
  // Help and seeding

  /** How the random number generator is seeded. */
  datatype Seeding = ClockSeeded | FixedSeed(seed: nat)

  /** A negative seed selects the clock; any other is used as given. */
  function ChooseSeeding(seed: int): (s: Seeding)
    ensures s.ClockSeeded? <==> seed < 0
    ensures s.FixedSeed? ==> s.seed == seed
  {
    if seed < 0 then ClockSeeded else FixedSeed(seed)
  }

  /** What `main` does with its arguments: print the help text, or start a session. */
  datatype Launch = ShowHelp | StartSession(config: Config, seeding: Seeding)

  predicate IsHelpRequest(argv: seq<string>) {
    |argv| == 2 && argv[1] == "-h"
  }

  /** Help only for exactly one argument equal to `-h`; otherwise parse and seed. */
  method Startup(argv: seq<string>, stoi: string -> Option<int>) returns (launch: Launch)
    requires ValuesPresent(argv, 1)
    ensures launch.ShowHelp? <==> IsHelpRequest(argv)
    ensures launch.StartSession? ==>
      launch.config == Parse(argv, stoi) && launch.seeding == ChooseSeeding(launch.config.seed)
  {
    if |argv| == 2 && argv[1] == "-h" {
      launch := ShowHelp;
    } else {
      var config := ParseOptions(argv, stoi);
      var seeding := ChooseSeeding(config.seed);
      launch := StartSession(config, seeding);
    }
  }
}
