/** The `key=value` command-line parser of `Main`: the configuration
    fields it resets and assigns, the help check on the first argument, and
    the exit at the first argument it cannot interpret. `Double.parseDouble`
    is a parameter. */
module CommandLine {
  import opened Wrappers
  import opened JavaLang

  const MODE_EVALUATE: int := 0
  const MODE_COPYSMALLGROUNDTRUTH: int := 1
  const MODE_COPYIMAGES: int := 2

  /** The configuration fields of `Main`; `None` stands for `null`. */
  datatype Settings = Settings(
    mode: int,
    pathGroundTruthImages: Option<string>,
    pathGroundTruthFile: Option<string>,
    pathSaliencyMapImages: Option<string>,
    pathImagesToCopy: Option<string>,
    pathDefiningImageNames: Option<string>,
    pathResult: Option<string>,
    thresholdBinGroundTruth: real,
    thresholdSizeGroundTruth: real,
    saveGroundTruthImages: bool)

  /** The initial values of the fields. */
  const DEFAULTS: Settings :=
    Settings(MODE_EVALUATE, None, None, None, Some("."), None, Some("."), 0.5, 0.5, false)

  /** How parsing ends: with the settings to run on, with the usage text and
      `System.exit(0)`, or with `exit(…, true)` (status 1) at the argument of
      the given index. */
  datatype Outcome = Proceed | Usage | Exit(index: nat)

  /** The first argument asks for the usage text. */
  predicate AsksForHelp(arg: string) {
    || StartsWith(arg, "/?")
    || StartsWith(ToLowerCase(arg), "/h")
    || StartsWith(ToLowerCase(arg), "-h")
    || StartsWith(ToLowerCase(arg), "--h")
  }

  /** `Boolean.parseBoolean`. */
  predicate ParseBoolean(s: string) {
    EqualsIgnoreCase(s, "true")
  }

  /** The mode a `mode=` value selects; an unknown value keeps the current one. */
  function ModeOf(val: string, current: int): (m: int)
    ensures m == current || m in {MODE_EVALUATE, MODE_COPYSMALLGROUNDTRUTH, MODE_COPYIMAGES}
  {
    if EqualsIgnoreCase(val, "copySmallGroundTruth") then MODE_COPYSMALLGROUNDTRUTH
    else if EqualsIgnoreCase(val, "copyImages") then MODE_COPYIMAGES
    else if EqualsIgnoreCase(val, "evaluate") then MODE_EVALUATE
    else current
  }

  /** The key of an argument: the text before its first `=`. */
  function Key(arg: string): string
    requires '=' in arg
  {
    arg[..IndexOf(arg, '=')]
  }

  /** The value of an argument: the text after its first `=`, which may
      hold further `=` characters. */
  function Value(arg: string): string
    requires '=' in arg
  {
    arg[IndexOf(arg, '=') + 1..]
  }

  /** One argument applied to the settings; `None` when it has no `=`, names
      no parameter, or holds a number `parseDouble` rejects. */
  function Assign(s: Settings, arg: string, parseDouble: string -> Option<real>): Option<Settings> {
    if '=' !in arg then None else AssignKey(s, Key(arg), Value(arg), parseDouble)
  }

  /** The first half of the key chain: the mode and the evaluation paths. */
  function AssignKey(s: Settings, key: string, val: string, parseDouble: string -> Option<real>): Option<Settings> {
    if EqualsIgnoreCase(key, "mode") then Some(s.(mode := ModeOf(val, s.mode)))
    else if EqualsIgnoreCase(key, "pathGT") then Some(s.(pathGroundTruthImages := Some(val)))
    else if EqualsIgnoreCase(key, "fileGT") then Some(s.(pathGroundTruthFile := Some(val)))
    else if EqualsIgnoreCase(key, "pathSM") then Some(s.(pathSaliencyMapImages := Some(val)))
    else if EqualsIgnoreCase(key, "pathResult") then Some(s.(pathResult := Some(val)))
    else AssignLaterKey(s, key, val, parseDouble)
  }

  /** The second half of the key chain: the thresholds, the copy paths and
      the flag; any other key names no parameter. */
  function AssignLaterKey(s: Settings, key: string, val: string, parseDouble: string -> Option<real>): Option<Settings> {
    if EqualsIgnoreCase(key, "thresholdGT") then
      match parseDouble(val)
      case None => None
      case Some(v) => Some(s.(thresholdBinGroundTruth := v))
    else if EqualsIgnoreCase(key, "thresholdSize") then
      match parseDouble(val)
      case None => None
      case Some(v) => Some(s.(thresholdSizeGroundTruth := v))
    else if EqualsIgnoreCase(key, "pathIm") then Some(s.(pathImagesToCopy := Some(val)))
    else if EqualsIgnoreCase(key, "pathDef") then Some(s.(pathDefiningImageNames := Some(val)))
    else if EqualsIgnoreCase(key, "saveGT") then Some(s.(saveGroundTruthImages := ParseBoolean(val)))
    else None
  }

  /** Whether an argument can be interpreted does not depend on the
      settings it is applied to. */
  predicate Interpretable(arg: string, parseDouble: string -> Option<real>) {
    Assign(DEFAULTS, arg, parseDouble).Some?
  }

  lemma InterpretableAnywhere(s: Settings, arg: string, parseDouble: string -> Option<real>)
    ensures Assign(s, arg, parseDouble).Some? <==> Interpretable(arg, parseDouble)
  {
  }

  // ---------------------------------------------------------------------
  // Applying arguments in order, up to the first that cannot be applied

  /** The arguments applied in order by `step`: the state reached and, when
      `step` rejects an argument, the index of the first such one (the
      arguments after it are never read). */
  function ApplyInOrder<S>(s: S, args: seq<string>, step: (S, string) -> Option<S>): (r: (S, Option<nat>))
    ensures r.1.Some? ==> r.1.value < |args|
  {
    if |args| == 0 then (s, None)
    else
      var prev := ApplyInOrder(s, args[..|args| - 1], step);
      if prev.1.Some? then prev
      else match step(prev.0, args[|args| - 1])
        case None => (prev.0, Some(|args| - 1))
        case Some(q) => (q, None)
  }

  /** Whether `step` accepts an argument depends on the argument alone, and
      `ok` says which arguments it accepts. */
  ghost predicate Uniform<S(!new)>(step: (S, string) -> Option<S>, ok: string -> bool) {
    forall q: S, arg: string :: step(q, arg).Some? <==> ok(arg)
  }

  /** The run stops at the first rejected argument, and gets through exactly
      when every argument is accepted. */
  lemma {:induction false} FirstRejected<S(!new)>(s: S, args: seq<string>, step: (S, string) -> Option<S>, ok: string -> bool)
    requires Uniform(step, ok)
    ensures var r := ApplyInOrder(s, args, step);
      && (r.1.None? <==> forall j :: 0 <= j < |args| ==> ok(args[j]))
      && (r.1.Some? ==> !ok(args[r.1.value]))
      && (r.1.Some? ==> forall j :: 0 <= j < r.1.value ==> ok(args[j]))
    decreases |args|
  {
    if |args| > 0 {
      var init := args[..|args| - 1];
      FirstRejected(s, init, step, ok);
      assert forall j :: 0 <= j < |init| ==> init[j] == args[j];
    }
  }

  /** Once an argument is rejected, the later ones change nothing. */
  lemma {:induction false} RejectionSticks<S(!new)>(s: S, args: seq<string>, k: nat, step: (S, string) -> Option<S>, ok: string -> bool)
    requires Uniform(step, ok)
    requires k < |args| && ApplyInOrder(s, args[..k], step).1.None? && !ok(args[k])
    ensures ApplyInOrder(s, args, step) == (ApplyInOrder(s, args[..k], step).0, Some(k))
    decreases |args|
  {
    var n := |args| - 1;
    if n == k {
      assert args[..n] == args[..k];
    } else {
      assert args[..n][..k] == args[..k] && args[..n][k] == args[k];
      RejectionSticks(s, args[..n], k, step, ok);
    }
  }

  /** The argument step of the parser. */
  function Applier(parseDouble: string -> Option<real>): (Settings, string) -> Option<Settings> {
    (q, arg) => Assign(q, arg, parseDouble)
  }

  function InterpretableWith(parseDouble: string -> Option<real>): string -> bool {
    arg => Interpretable(arg, parseDouble)
  }

  lemma ApplierUniform(parseDouble: string -> Option<real>)
    ensures Uniform(Applier(parseDouble), InterpretableWith(parseDouble))
  {
    forall q: Settings, arg: string
      ensures Applier(parseDouble)(q, arg).Some? <==> InterpretableWith(parseDouble)(arg)
    {
      InterpretableAnywhere(q, arg, parseDouble);
    }
  }

  /** The arguments applied to the settings in order. */
  function ApplyAll(s: Settings, args: seq<string>, parseDouble: string -> Option<real>): (r: (Settings, Option<nat>))
    ensures r.1.Some? ==> r.1.value < |args|
  {
    ApplyInOrder(s, args, Applier(parseDouble))
  }

  /** Applying the arguments stops at the first one that cannot be
      interpreted, and gets through exactly when every one can be. */
  lemma FirstBadArgument(s: Settings, args: seq<string>, parseDouble: string -> Option<real>)
    ensures var r := ApplyAll(s, args, parseDouble);
      && (r.1.None? <==> forall j :: 0 <= j < |args| ==> Interpretable(args[j], parseDouble))
      && (r.1.Some? ==> !Interpretable(args[r.1.value], parseDouble))
      && (r.1.Some? ==> forall j :: 0 <= j < r.1.value ==> Interpretable(args[j], parseDouble))
  {
    ApplierUniform(parseDouble);
    FirstRejected(s, args, Applier(parseDouble), InterpretableWith(parseDouble));
  }

  /** Once an argument cannot be interpreted, the later ones change nothing. */
  lemma ExitSticks(s: Settings, args: seq<string>, k: nat, parseDouble: string -> Option<real>)
    requires k < |args| && ApplyAll(s, args[..k], parseDouble).1.None?
    requires !Interpretable(args[k], parseDouble)
    ensures ApplyAll(s, args, parseDouble) == (ApplyAll(s, args[..k], parseDouble).0, Some(k))
  {
    ApplierUniform(parseDouble);
    RejectionSticks(s, args, k, Applier(parseDouble), InterpretableWith(parseDouble));
  }

  /** The fields reset at the start of every parse. */
  function Reset(s: Settings): Settings {
    s.(mode := MODE_EVALUATE, pathGroundTruthImages := None, pathGroundTruthFile := None)
  }

  /** `parseCommandLineParameters` on the settings `s` it finds. */
  function ParseArgs(s: Settings, args: seq<string>, parseDouble: string -> Option<real>): (Outcome, Settings) {
    if |args| > 0 && AsksForHelp(args[0]) then (Usage, Reset(s))
    else
      var (q, failed) := ApplyAll(Reset(s), args, parseDouble);
      (if failed.Some? then Exit(failed.value) else Proceed, q)
  }

  /** The static configuration fields of `Main`. */
  class Options {
    var mode: int
    var pathGroundTruthImages: Option<string>
    var pathGroundTruthFile: Option<string>
    var pathSaliencyMapImages: Option<string>
    var pathImagesToCopy: Option<string>
    var pathDefiningImageNames: Option<string>
    var pathResult: Option<string>
    var thresholdBinGroundTruth: real
    var thresholdSizeGroundTruth: real
    var saveGroundTruthImages: bool

    function Snapshot(): Settings
      reads this
    {
      Settings(mode, pathGroundTruthImages, pathGroundTruthFile, pathSaliencyMapImages, pathImagesToCopy,
               pathDefiningImageNames, pathResult, thresholdBinGroundTruth, thresholdSizeGroundTruth,
               saveGroundTruthImages)
    }

    /** The field initialisers. */
    constructor ()
      ensures Snapshot() == DEFAULTS
    {
      mode := MODE_EVALUATE;
      pathGroundTruthImages, pathGroundTruthFile, pathSaliencyMapImages := None, None, None;
      pathImagesToCopy, pathDefiningImageNames, pathResult := Some("."), None, Some(".");
      thresholdBinGroundTruth, thresholdSizeGroundTruth := 0.5, 0.5;
      saveGroundTruthImages := false;
    }

    /** `parseCommandLineParameters`: resets the mode and the two ground
        truth paths, stops with the usage text when the first argument asks
        for help, and otherwise applies the arguments in order up to the
        first one it cannot interpret. */
    method ParseCommandLineParameters(args: seq<string>, parseDouble: string -> Option<real>) returns (outcome: Outcome)
      modifies this
      ensures (outcome, Snapshot()) == ParseArgs(old(Snapshot()), args, parseDouble)
    {
      mode := MODE_EVALUATE;
      pathGroundTruthImages := None;
      pathGroundTruthFile := None;
      ghost var start := Snapshot();
      if |args| > 0 && AsksForHelp(args[0]) {
        return Usage;
      }
      for iArg := 0 to |args|
        invariant ApplyAll(start, args[..iArg], parseDouble) == (Snapshot(), None)
      {
        var interpreted := NextArgument(args, iArg, parseDouble, start);
        if !interpreted {
          return Exit(iArg);
        }
      }
      assert args[..|args|] == args;
      return Proceed;
    }

    /** One pass of the argument loop: interprets argument `i`, after which
        either the first `i + 1` arguments are applied or the run exits
        there. */
    method NextArgument(args: seq<string>, i: nat, parseDouble: string -> Option<real>, ghost start: Settings)
      returns (interpreted: bool)
      requires i < |args| && ApplyAll(start, args[..i], parseDouble) == (Snapshot(), None)
      modifies this
      ensures interpreted ==> ApplyAll(start, args[..i + 1], parseDouble) == (Snapshot(), None)
      ensures !interpreted ==> ApplyAll(start, args, parseDouble) == (Snapshot(), Some(i))
    {
      ghost var before := Snapshot();
      assert args[..i + 1][..i] == args[..i];
      interpreted := Interpret(args[i], parseDouble);
      if !interpreted {
        InterpretableAnywhere(before, args[i], parseDouble);
        ExitSticks(start, args, i, parseDouble);
      }
    }

    /** The body of the argument loop: splits the argument at its first
        `=` and assigns the field its key names; reports `false`, with the
        fields unchanged, when the argument cannot be interpreted. */
    method Interpret(arg: string, parseDouble: string -> Option<real>) returns (interpreted: bool)
      modifies this
      ensures var r := Assign(old(Snapshot()), arg, parseDouble);
        && interpreted == r.Some?
        && Snapshot() == (if r.Some? then r.value else old(Snapshot()))
    {
      var pos := IndexOf(arg, '=');
      if pos == -1 {
        return false;
      }
      var key, val := arg[..pos], arg[pos + 1..];
      interpreted := SetField(key, val, parseDouble);
    }

    /** The first half of the key chain. */
    method SetField(key: string, val: string, parseDouble: string -> Option<real>) returns (interpreted: bool)
      modifies this
      ensures var r := AssignKey(old(Snapshot()), key, val, parseDouble);
        && interpreted == r.Some?
        && Snapshot() == (if r.Some? then r.value else old(Snapshot()))
    {
      interpreted := true;
      if EqualsIgnoreCase(key, "mode") {
        if EqualsIgnoreCase(val, "copySmallGroundTruth") {
          mode := MODE_COPYSMALLGROUNDTRUTH;
        } else if EqualsIgnoreCase(val, "copyImages") {
          mode := MODE_COPYIMAGES;
        } else if EqualsIgnoreCase(val, "evaluate") {
          mode := MODE_EVALUATE;
        }
      } else if EqualsIgnoreCase(key, "pathGT") {
        pathGroundTruthImages := Some(val);
      } else if EqualsIgnoreCase(key, "fileGT") {
        pathGroundTruthFile := Some(val);
      } else if EqualsIgnoreCase(key, "pathSM") {
        pathSaliencyMapImages := Some(val);
      } else if EqualsIgnoreCase(key, "pathResult") {
        pathResult := Some(val);
      } else {
        interpreted := SetLaterField(key, val, parseDouble);
      }
    }

    /** The second half of the key chain. */
    method SetLaterField(key: string, val: string, parseDouble: string -> Option<real>) returns (interpreted: bool)
      modifies this
      ensures var r := AssignLaterKey(old(Snapshot()), key, val, parseDouble);
        && interpreted == r.Some?
        && Snapshot() == (if r.Some? then r.value else old(Snapshot()))
    {
      interpreted := true;
      if EqualsIgnoreCase(key, "thresholdGT") {
        var v := parseDouble(val);
        if v.None? {
          return false;
        }
        thresholdBinGroundTruth := v.value;
      } else if EqualsIgnoreCase(key, "thresholdSize") {
        var v := parseDouble(val);
        if v.None? {
          return false;
        }
        thresholdSizeGroundTruth := v.value;
      } else if EqualsIgnoreCase(key, "pathIm") {
        pathImagesToCopy := Some(val);
      } else if EqualsIgnoreCase(key, "pathDef") {
        pathDefiningImageNames := Some(val);
      } else if EqualsIgnoreCase(key, "saveGT") {
        saveGroundTruthImages := ParseBoolean(val);
      } else {
        interpreted := false;
      }
    }
  }

  // ---------------------------------------------------------------------
  // Properties of the parser

  /** Keys are matched without regard to case. */
  lemma KeysIgnoreCase(s: Settings, key: string, key': string, val: string, parseDouble: string -> Option<real>)
    requires '=' !in key && '=' !in key' && EqualsIgnoreCase(key, key')
    ensures Assign(s, key + "=" + val, parseDouble) == Assign(s, key' + "=" + val, parseDouble)
  {
    SplitsAtFirstEquals(key, val);
    SplitsAtFirstEquals(key', val);
    SameKeySameField(s, key, key', val, parseDouble);
  }

  lemma SameKeySameField(s: Settings, key: string, key': string, val: string, parseDouble: string -> Option<real>)
    requires EqualsIgnoreCase(key, key')
    ensures AssignKey(s, key, val, parseDouble) == AssignKey(s, key', val, parseDouble)
  {
    assert forall lit :: EqualsIgnoreCase(key, lit) <==> EqualsIgnoreCase(key', lit);
  }

  /** An argument is split at its first `=`: the key holds none and the
      value is everything after it. */
  lemma SplitsAtFirstEquals(key: string, val: string)
    requires '=' !in key
    ensures '=' in key + "=" + val
    ensures Key(key + "=" + val) == key && Value(key + "=" + val) == val
  {
    var arg := key + "=" + val;
    assert arg[|key|] == '=';
    assert arg[..|key|] == key;
    assert arg[|key| + 1..] == val;
  }

  /** A `mode=` value that names no mode leaves the mode as it was. */
  lemma UnknownModeKept(s: Settings, val: string, parseDouble: string -> Option<real>)
    requires !EqualsIgnoreCase(val, "copySmallGroundTruth") && !EqualsIgnoreCase(val, "copyImages")
    requires !EqualsIgnoreCase(val, "evaluate")
    ensures Assign(s, "mode=" + val, parseDouble) == Some(s)
  {
    SplitsAtFirstEquals("mode", val);
    assert "mode=" + val == "mode" + "=" + val;
  }

  /** A later assignment of a path overrides an earlier one. */
  lemma LaterPathWins(s: Settings, key: string, a: string, b: string, parseDouble: string -> Option<real>)
    requires key in ["pathGT", "fileGT", "pathSM", "pathResult", "pathIm", "pathDef"]
    ensures Assign(s, key + "=" + a, parseDouble).Some?
    ensures Assign(Assign(s, key + "=" + a, parseDouble).value, key + "=" + b, parseDouble)
            == Assign(s, key + "=" + b, parseDouble)
  {
    SplitsAtFirstEquals(key, a);
    SplitsAtFirstEquals(key, b);
    LaterKeyValueWins(s, key, a, b, parseDouble);
  }

  lemma LaterKeyValueWins(s: Settings, key: string, a: string, b: string, parseDouble: string -> Option<real>)
    requires key in ["pathGT", "fileGT", "pathSM", "pathResult", "pathIm", "pathDef"]
    ensures AssignKey(s, key, a, parseDouble).Some?
    ensures AssignKey(AssignKey(s, key, a, parseDouble).value, key, b, parseDouble) == AssignKey(s, key, b, parseDouble)
  {
    if key == "fileGT" {
      DifferAt(key, "pathGT", 0);
    } else if key == "pathSM" {
      DifferAt(key, "pathGT", 4);
      DifferAt(key, "fileGT", 0);
    } else if key == "pathIm" {
      DifferAt(key, "pathGT", 4);
      DifferAt(key, "fileGT", 0);
      DifferAt(key, "pathSM", 4);
    }
  }

  /** Two keys that differ in one letter, ignoring case, are different keys. */
  lemma DifferAt(a: string, b: string, i: nat)
    requires i < |a| && i < |b| && LowerChar(a[i]) != LowerChar(b[i])
    ensures !EqualsIgnoreCase(a, b)
  {
    assert ToLowerCase(a)[i] != ToLowerCase(b)[i];
  }

  /** With no arguments the run proceeds on the reset settings. */
  lemma NoArgumentsReset(s: Settings, parseDouble: string -> Option<real>)
    ensures ParseArgs(s, [], parseDouble) == (Proceed, Reset(s))
    ensures Reset(s).mode == MODE_EVALUATE
    ensures Reset(s).pathGroundTruthImages.None? && Reset(s).pathGroundTruthFile.None?
  {
  }

  /** The usage check looks only at the first argument and wins over
      everything after it. */
  lemma HelpFirst(s: Settings, args: seq<string>, parseDouble: string -> Option<real>)
    requires |args| > 0 && AsksForHelp(args[0])
    ensures ParseArgs(s, args, parseDouble) == (Usage, Reset(s))
  {
  }

  /** The spellings of a help request: `/?`, or `/` or `-` followed by `h`
      in either case, or `--` followed by `h` in either case. */
  lemma HelpSpellings(arg: string)
    ensures AsksForHelp(arg) <==>
      || StartsWith(arg, "/?")
      || (|arg| >= 2 && (arg[0] == '/' || arg[0] == '-') && (arg[1] == 'h' || arg[1] == 'H'))
      || (|arg| >= 3 && arg[0] == '-' && arg[1] == '-' && (arg[2] == 'h' || arg[2] == 'H'))
  {
    var t := ToLowerCase(arg);
    if |arg| >= 2 {
      assert t[..2] == [LowerChar(arg[0]), LowerChar(arg[1])];
    }
    if |arg| >= 3 {
      assert t[..3] == [LowerChar(arg[0]), LowerChar(arg[1]), LowerChar(arg[2])];
    }
  }

  /** A run ends at the first argument that cannot be interpreted, and
      proceeds exactly when every argument can be. */
  lemma ExitAtFirstBad(s: Settings, args: seq<string>, parseDouble: string -> Option<real>)
    requires !(|args| > 0 && AsksForHelp(args[0]))
    ensures ParseArgs(s, args, parseDouble).0 == Proceed <==>
              forall j :: 0 <= j < |args| ==> Interpretable(args[j], parseDouble)
    ensures ParseArgs(s, args, parseDouble).0.Exit? ==>
              var k := ParseArgs(s, args, parseDouble).0.index;
              && k < |args| && !Interpretable(args[k], parseDouble)
              && forall j :: 0 <= j < k ==> Interpretable(args[j], parseDouble)
  {
    FirstBadArgument(Reset(s), args, parseDouble);
  }
}
