/**
  The OPARI2 adapter of the Score-P instrumenter: a small machine of
  tri-state switches set by command-line options and defaults, and the
  OPARI2 command line built from them. Running commands and temporary
  files are outside the model; the command is returned as a string.
*/
module Opari {

  /** A switch that is still to be decided, or decided either way. */
  datatype TriState = Detect | Enabled | Disabled

  /** The adapter's state. `usage` is the switch the adapter shares with
      every instrumenter adapter; `opari`, `opariConfig`, `nm` and
      `opariScript` are the tool paths and the shell snippets derived from
      the config tool. */
  datatype Adapter = Adapter(
    usage: TriState,
    openmp: TriState,
    parallel: TriState,
    pomp: TriState,
    params: string,
    useTpd: bool,
    opari: string,
    opariConfig: string,
    nm: string,
    opariScript: string)

  function NmCommand(config: string): string
  {
    "`" + config + " --nm`"
  }

  function ScriptCommand(config: string): string
  {
    "`" + config + " --region-initialization`"
  }

  /** The snippets agree with the config tool they call. */
  predicate ToolsConsistent(a: Adapter)
  {
    a.nm == NmCommand(a.opariConfig) && a.opariScript == ScriptCommand(a.opariConfig)
  }

  /** The constructor: every OpenMP/POMP switch awaits detection, no TPD
      mode, the build-time tool paths. The initial `usage` comes from the
      shared adapter base. */
  function NewAdapter(usage: TriState, opari: string, opariConfig: string): (a: Adapter)
    ensures a.openmp == Detect && a.parallel == Detect && a.pomp == Detect
    ensures !a.useTpd && a.params == ""
    ensures ToolsConsistent(a)
  {
    Adapter(usage, Detect, Detect, Detect, "", false, opari, opariConfig,
            NmCommand(opariConfig), ScriptCommand(opariConfig))
  }

  /** An `--opari=<parameter-list>` argument. */
  predicate IsOpariArg(arg: string)
  {
    |arg| >= 8 && arg[..8] == "--opari="
  }

  /** None of the plain option names starts with `--opari=`. */
  lemma PlainOptionsAreNotOpariArgs()
    ensures !IsOpariArg("--openmp") && !IsOpariArg("--noopenmp") && !IsOpariArg("--noopari")
    ensures !IsOpariArg("--pomp") && !IsOpariArg("--nopomp")
  {
    assert "--openmp"[..8][4] != "--opari="[4];
    assert "--noopenmp"[..8][2] != "--opari="[2];
    assert "--noopari"[..8][2] != "--opari="[2];
  }

  /** `checkOption`: whether the argument is one of the adapter's options,
      and the state after it. */
  function CheckOption(a: Adapter, arg: string): (r: (bool, Adapter))
    ensures r.0 <==> arg in {"--openmp", "--noopenmp", "--pomp", "--nopomp", "--noopari"} || IsOpariArg(arg)
    ensures !r.0 ==> r.1 == a
    ensures arg == "--openmp" ==> r.1 == a.(openmp := Enabled)
    ensures arg == "--noopenmp" ==> r.1 == a.(openmp := Disabled)
    ensures arg == "--pomp" ==> r.1 == a.(pomp := Enabled)
    ensures arg == "--nopomp" ==> r.1 == a.(pomp := Disabled)
    ensures arg == "--noopari" ==> r.1 == a.(usage := Disabled)
    ensures IsOpariArg(arg) ==> r.1 == a.(usage := Enabled, params := a.params + " " + arg[8..])
  {
    PlainOptionsAreNotOpariArgs();
    if arg == "--openmp" then (true, a.(openmp := Enabled))
    else if arg == "--noopenmp" then (true, a.(openmp := Disabled))
    else if arg == "--pomp" then (true, a.(pomp := Enabled))
    else if arg == "--nopomp" then (true, a.(pomp := Disabled))
    else if |arg| >= 8 && arg[..8] == "--opari=" then (true, a.(usage := Enabled, params := a.params + " " + arg[8..]))
    else if arg == "--noopari" then (true, a.(usage := Disabled))
    else (false, a)
  }

  /** `isEnabled`. */
  predicate IsEnabled(a: Adapter)
  {
    a.parallel == Enabled || a.openmp == Enabled || a.pomp == Enabled || a.usage == Enabled
  }

  /** A later switch option overrides an earlier one on the same switch,
      and a switch-enabling option leaves the adapter enabled. */
  lemma LastSwitchWins(a: Adapter, first: string, second: string)
    requires first in {"--openmp", "--noopenmp"} && second in {"--openmp", "--noopenmp"}
    ensures CheckOption(CheckOption(a, first).1, second).1 == CheckOption(a, second).1
    ensures second == "--openmp" ==> IsEnabled(CheckOption(CheckOption(a, first).1, second).1)
  {
  }

  /** Each `--opari=` argument appends its parameter list once, in the
      order given, and enables the adapter. */
  lemma OpariArgsAccumulate(a: Adapter, x: string, y: string)
    ensures var b := CheckOption(CheckOption(a, "--opari=" + x).1, "--opari=" + y).1;
            b.params == a.params + " " + x + " " + y && IsEnabled(b)
  {
    var ax := "--opari=" + x;
    var ay := "--opari=" + y;
    assert ax[..8] == "--opari=" && ax[8..] == x;
    assert ay[..8] == "--opari=" && ay[8..] == y;
  }

  /** `getConfigToolFlag`. */
  function ConfigToolFlag(a: Adapter): (s: string)
    ensures s == " --pomp" <==> a.pomp == Enabled
    ensures s == "" <==> a.pomp != Enabled
  {
    if a.pomp == Enabled then " --pomp" else ""
  }

  /** `setConfigValue`: a non-empty `OPARI_CONFIG` replaces the config tool
      and the snippets calling it; a non-empty `OPARI` replaces the OPARI2
      binary; anything else is ignored. */
  function SetConfigValue(a: Adapter, key: string, value: string): (r: Adapter)
    ensures value == "" || (key != "OPARI_CONFIG" && key != "OPARI") ==> r == a
    ensures key == "OPARI" && value != "" ==> r == a.(opari := value)
    ensures key == "OPARI_CONFIG" && value != ""
            ==> r.opariConfig == value && ToolsConsistent(r) && r.opari == a.opari
                && r.(nm := a.nm, opariScript := a.opariScript, opariConfig := a.opariConfig) == a
  {
    if key == "OPARI_CONFIG" && value != "" then
      a.(nm := NmCommand(value), opariScript := ScriptCommand(value), opariConfig := value)
    else if key == "OPARI" && value != "" then
      a.(opari := value)
    else
      a
  }

  /** `setBuildCheck`: with the bundled OPARI2, the tools of the build tree
      next to the instrumenter; the snippets are rebuilt either way. */
  function SetBuildCheck(a: Adapter, pathToBinary: string, externalOpari2: bool): (r: Adapter)
    ensures ToolsConsistent(r)
    ensures externalOpari2 ==> r.opariConfig == a.opariConfig && r.opari == a.opari
    ensures !externalOpari2 ==> r.opari == pathToBinary + "../vendor/opari2/build-frontend/opari2"
  {
    var config := if externalOpari2 then a.opariConfig
                  else pathToBinary + "../vendor/opari2/build-frontend/opari2-config --build-check";
    var opari := if externalOpari2 then a.opari else pathToBinary + "../vendor/opari2/build-frontend/opari2";
    a.(opariConfig := config, opari := opari, nm := NmCommand(config), opariScript := ScriptCommand(config))
  }

  /** Every change of the tool configuration keeps the snippets in step
      with the config tool. */
  lemma ConfigurationKeepsToolsConsistent(a: Adapter, key: string, value: string, pathToBinary: string, ext: bool)
    requires ToolsConsistent(a)
    ensures ToolsConsistent(SetConfigValue(a, key, value))
    ensures ToolsConsistent(SetBuildCheck(a, pathToBinary, ext))
  {
  }

  /** `checkDefaults` (the adapter's own part): undecided OpenMP and POMP
      become disabled, undecided parallel follows OpenMP, and the adapter
      is used when parallel or POMP is enabled. */
  function CheckDefaults(a: Adapter): (r: Adapter)
    ensures r.openmp != Detect && r.parallel != Detect && r.pomp != Detect
    ensures a.openmp != Detect ==> r.openmp == a.openmp
    ensures a.pomp != Detect ==> r.pomp == a.pomp
    ensures a.parallel != Detect ==> r.parallel == a.parallel
    ensures a.parallel == Detect ==> r.parallel == r.openmp
    ensures r.usage == (if r.parallel == Enabled || r.pomp == Enabled then Enabled else a.usage)
    ensures r.(usage := a.usage, openmp := a.openmp, parallel := a.parallel, pomp := a.pomp) == a
  {
    var openmp := if a.openmp == Detect then Disabled else a.openmp;
    var parallel := if a.parallel == Detect then openmp else a.parallel;
    var pomp := if a.pomp == Detect then Disabled else a.pomp;
    var usage := if parallel == Enabled || pomp == Enabled then Enabled else a.usage;
    a.(openmp := openmp, parallel := parallel, pomp := pomp, usage := usage)
  }

  /** Applying the defaults twice is applying them once, and they never
      turn an enabled adapter off. */
  lemma CheckDefaultsIdempotent(a: Adapter)
    ensures CheckDefaults(CheckDefaults(a)) == CheckDefaults(a)
    ensures IsEnabled(a) ==> IsEnabled(CheckDefaults(a))
  {
  }

  /** `enableOpenmpDefault`: parallel regions are always instrumented; the
      OpenMP constructs too unless explicitly disabled. */
  function EnableOpenmpDefault(a: Adapter): (r: Adapter)
    ensures r.parallel == Enabled
    ensures a.openmp == Disabled ==> r.openmp == Disabled
    ensures a.openmp != Disabled ==> r.openmp == Enabled
    ensures r.(parallel := a.parallel, openmp := a.openmp) == a
  {
    a.(parallel := Enabled, openmp := if a.openmp != Disabled then Enabled else Disabled)
  }

  /** After the OpenMP default the adapter is in use whatever options came
      before, and with `--noopenmp` only the parallel regions remain. */
  lemma OpenmpDefaultThenDefaults(a: Adapter)
    ensures var r := CheckDefaults(EnableOpenmpDefault(a));
            r.usage == Enabled && r.parallel == Enabled && IsEnabled(r)
            && (a.openmp == Disabled ==> DisableString(r) != "" && !HasAllSuffix(DisableString(r)))
  {
    DisableStringEmptyIff(CheckDefaults(EnableOpenmpDefault(a)));
  }

  // ---------------------------------------------------------------------
  // The OPARI2 command
  // ---------------------------------------------------------------------

  /** `sub` occurs in `s` at index `i`. */
  predicate OccursAt(s: string, sub: string, i: int)
  {
    0 <= i && i + |sub| <= |s| && s[i..i + |sub|] == sub
  }

  /** `sub` occurs in `s`. */
  predicate Contains(s: string, sub: string)
  {
    exists i :: 0 <= i <= |s| && OccursAt(s, sub, i)
  }

  lemma {:induction false} ContainsAppend(s: string, t: string, sub: string)
    requires Contains(s, sub)
    ensures Contains(s + t, sub)
  {
    var i :| 0 <= i <= |s| && OccursAt(s, sub, i);
    assert (s + t)[i..i + |sub|] == s[i..i + |sub|];
    assert OccursAt(s + t, sub, i);
  }

  lemma {:induction false} ContainsPrepend(s: string, t: string, sub: string)
    requires Contains(t, sub)
    ensures Contains(s + t, sub)
  {
    var i :| 0 <= i <= |t| && OccursAt(t, sub, i);
    assert (s + t)[|s| + i..|s| + i + |sub|] == t[i..i + |sub|];
    assert OccursAt(s + t, sub, |s| + i);
  }

  /** `add_param`: the parameter and a blank are appended unless the
      prefix already occurs in the command. */
  function AddParam(command: string, param: string, prefix: string): (r: string)
    ensures Contains(command, prefix) ==> r == command
    ensures !Contains(command, prefix) ==> r == command + param + " "
    ensures |r| >= |command| && r[..|command|] == command
  {
    if Contains(command, prefix) then command else command + param + " "
  }

  /** When the parameter carries its own prefix, the prefix occurs after
      the call, so repeating it changes nothing. */
  lemma {:induction false} AddParamIdempotent(command: string, param: string, prefix: string)
    requires Contains(param, prefix)
    ensures Contains(AddParam(command, param, prefix), prefix)
    ensures AddParam(AddParam(command, param, prefix), param, prefix) == AddParam(command, param, prefix)
  {
    if !Contains(command, prefix) {
      ContainsPrepend(command, param, prefix);
      ContainsAppend(command + param, " ", prefix);
      assert command + param + " " == (command + param) + " ";
    }
  }

  /** The `--disable=` value: `pomp` when POMP is disabled, and `omp` (with
      `:all` when parallel regions are disabled too) when OpenMP is
      disabled, joined by `+`. */
  function DisableString(a: Adapter): string
  {
    var d := if a.pomp == Disabled then "pomp" else "";
    if a.openmp == Disabled then
      (if d != "" then d + "+" else d) + "omp" + (if a.parallel == Disabled then ":all" else "")
    else d
  }

  predicate HasAllSuffix(s: string)
  {
    |s| >= 4 && s[|s| - 4..] == ":all"
  }

  /** The disable string, case by case. */
  lemma DisableStringCases(a: Adapter)
    ensures a.pomp != Disabled && a.openmp != Disabled ==> DisableString(a) == ""
    ensures a.pomp == Disabled && a.openmp != Disabled ==> DisableString(a) == "pomp"
    ensures a.pomp != Disabled && a.openmp == Disabled && a.parallel != Disabled ==> DisableString(a) == "omp"
    ensures a.pomp != Disabled && a.openmp == Disabled && a.parallel == Disabled ==> DisableString(a) == "omp:all"
    ensures a.pomp == Disabled && a.openmp == Disabled && a.parallel != Disabled ==> DisableString(a) == "pomp+omp"
    ensures a.pomp == Disabled && a.openmp == Disabled && a.parallel == Disabled ==> DisableString(a) == "pomp+omp:all"
  {
  }

  /** Nothing is disabled exactly when neither POMP nor OpenMP is; `:all`
      appears exactly when OpenMP and the parallel regions both are. */
  lemma DisableStringEmptyIff(a: Adapter)
    ensures DisableString(a) == "" <==> a.pomp != Disabled && a.openmp != Disabled
    ensures HasAllSuffix(DisableString(a)) <==> a.openmp == Disabled && a.parallel == Disabled
  {
    DisableStringCases(a);
  }

  /** What the build and the other adapters contribute: the compiler's
      extra Fortran flags and mangling scheme, and whether PDT and
      preprocessing are enabled. */
  datatype Build = Build(fortranFlags: string, mangling: string, pdtEnabled: bool, preprocessEnabled: bool)

  lemma ContainsIn(s: string, prefix: string)
    requires |prefix| <= |s| && s[..|prefix|] == prefix
    ensures Contains(s, prefix)
  {
    assert OccursAt(s, prefix, 0);
  }

  /** `add_param` when `cond` holds; the command unchanged otherwise. */
  function AddParamIf(cond: bool, command: string, param: string, prefix: string): (r: string)
    ensures |r| >= |command| && r[..|command|] == command
  {
    if cond then AddParam(command, param, prefix) else command
  }

  /** A conditional step keeps everything the command held, and when it
      applies, the command holds the prefix afterwards. */
  lemma {:induction false} AddParamIfKeeps(cond: bool, command: string, param: string, prefix: string, sub: string)
    requires |prefix| <= |param| && param[..|prefix|] == prefix
    ensures Contains(command, sub) ==> Contains(AddParamIf(cond, command, param, prefix), sub)
    ensures cond ==> Contains(AddParamIf(cond, command, param, prefix), prefix)
  {
    var r := AddParamIf(cond, command, param, prefix);
    if Contains(command, sub) {
      assert command + r[|command|..] == r;
      ContainsAppend(command, r[|command|..], sub);
    }
    if cond {
      ContainsIn(param, prefix);
      AddParamIdempotent(command, param, prefix);
    }
  }

  /** The options part of the command: the binary, the user parameters and
      every parameter `add_param` contributes. */
  function CommandOptions(a: Adapter, b: Build, isFortran: bool): string
  {
    var c0 := a.opari + a.params + b.fortranFlags + " ";
    var c1 := AddParamIf(true, c0, "--omp-task-untied=keep", "--omp-task-untied=");
    var c2 := AddParamIf(a.useTpd, c1, "--omp-tpd", "--omp-tpd");
    var c3 := AddParamIf(a.useTpd, c2, "--omp-tpd-mangling=" + b.mangling, "--omp-tpd-mangling=");
    var c4 := AddParamIf(b.pdtEnabled && isFortran, c3, "--nosrc", "--nosrc");
    AddParamIf(b.preprocessEnabled, c4, "--preprocessed", "--preprocessed")
  }

  /** The command starts with the binary and the user's parameters, and
      every parameter the adapter asks for is present, either added or
      already given by the user with the same prefix. */
  lemma {:induction false} CommandOptionsHasParams(a: Adapter, b: Build, isFortran: bool)
    ensures var c := CommandOptions(a, b, isFortran);
            && |c| >= |a.opari + a.params| && c[..|a.opari + a.params|] == a.opari + a.params
            && Contains(c, "--omp-task-untied=")
            && (a.useTpd ==> Contains(c, "--omp-tpd") && Contains(c, "--omp-tpd-mangling="))
            && (b.pdtEnabled && isFortran ==> Contains(c, "--nosrc"))
            && (b.preprocessEnabled ==> Contains(c, "--preprocessed"))
  {
    var head := a.opari + a.params;
    var c0 := head + b.fortranFlags + " ";
    var c1 := AddParamIf(true, c0, "--omp-task-untied=keep", "--omp-task-untied=");
    var c2 := AddParamIf(a.useTpd, c1, "--omp-tpd", "--omp-tpd");
    var m := "--omp-tpd-mangling=" + b.mangling;
    var c3 := AddParamIf(a.useTpd, c2, m, "--omp-tpd-mangling=");
    var c4 := AddParamIf(b.pdtEnabled && isFortran, c3, "--nosrc", "--nosrc");
    var c5 := AddParamIf(b.preprocessEnabled, c4, "--preprocessed", "--preprocessed");
    assert c5 == CommandOptions(a, b, isFortran);
    assert c0[..|head|] == head;
    PrefixGrows(head, c0, c1, c2, c3, c4, c5);
    assert m[..|"--omp-tpd-mangling="|] == "--omp-tpd-mangling=";
    var u := "--omp-task-untied=";
    AddParamIfKeeps(true, c0, "--omp-task-untied=keep", u, u);
    AddParamIfKeeps(a.useTpd, c1, "--omp-tpd", "--omp-tpd", u);
    AddParamIfKeeps(a.useTpd, c2, m, "--omp-tpd-mangling=", u);
    AddParamIfKeeps(b.pdtEnabled && isFortran, c3, "--nosrc", "--nosrc", u);
    AddParamIfKeeps(b.preprocessEnabled, c4, "--preprocessed", "--preprocessed", u);
    AddParamIfKeeps(a.useTpd, c2, m, "--omp-tpd-mangling=", "--omp-tpd");
    AddParamIfKeeps(b.pdtEnabled && isFortran, c3, "--nosrc", "--nosrc", "--omp-tpd");
    AddParamIfKeeps(b.preprocessEnabled, c4, "--preprocessed", "--preprocessed", "--omp-tpd");
    AddParamIfKeeps(b.pdtEnabled && isFortran, c3, "--nosrc", "--nosrc", "--omp-tpd-mangling=");
    AddParamIfKeeps(b.preprocessEnabled, c4, "--preprocessed", "--preprocessed", "--omp-tpd-mangling=");
    AddParamIfKeeps(b.preprocessEnabled, c4, "--preprocessed", "--preprocessed", "--nosrc");
  }

  lemma PrefixGrows(head: string, c0: string, c1: string, c2: string, c3: string, c4: string, c5: string)
    requires |head| <= |c0| && c0[..|head|] == head
    requires |c0| <= |c1| && c1[..|c0|] == c0
    requires |c1| <= |c2| && c2[..|c1|] == c1
    requires |c2| <= |c3| && c3[..|c2|] == c2
    requires |c3| <= |c4| && c4[..|c3|] == c3
    requires |c4| <= |c5| && c5[..|c4|] == c4
    ensures |head| <= |c5| && c5[..|head|] == head
  {
    assert c5[..|head|] == c4[..|head|] == c3[..|head|] == c2[..|head|] == c1[..|head|] == c0[..|head|];
  }

  /** The full command: the options, a `--disable=` parameter when the
      disable string is not empty, then the input and output files. */
  function Assemble(opts: string, disable: string, input: string, output: string): string
  {
    opts + (if disable != "" then "--disable=" + disable + " " else "") + input + " " + output
  }

  lemma {:induction false} AssembleParts(opts: string, disable: string, input: string, output: string)
    ensures var command := Assemble(opts, disable, input, output);
            var tail := input + " " + output;
            && |command| >= |tail| && command[|command| - |tail|..] == tail
            && (disable != "" ==> Contains(command, "--disable=" + disable))
            && (disable == "" ==> command == opts + tail)
  {
    var command := Assemble(opts, disable, input, output);
    var tail := input + " " + output;
    var mid := if disable != "" then "--disable=" + disable + " " else "";
    assert command == (opts + mid) + tail;
    if disable != "" {
      var piece := "--disable=" + disable;
      assert command == opts + (piece + (" " + tail));
      ContainsIn(piece + (" " + tail), piece);
      ContainsPrepend(opts, piece + (" " + tail), piece);
    }
  }

  /** `invoke_opari`. */
  function InvokeOpari(a: Adapter, b: Build, isFortran: bool, input: string, output: string): string
  {
    Assemble(CommandOptions(a, b, isFortran), DisableString(a), input, output)
  }

  /** The command carries `--disable=` with the disable string exactly
      when something is disabled, and ends with the input and output
      files. */
  lemma InvokeOpariDisables(a: Adapter, b: Build, isFortran: bool, input: string, output: string)
    ensures var command := InvokeOpari(a, b, isFortran, input, output);
            var tail := input + " " + output;
            && |command| >= |tail| && command[|command| - |tail|..] == tail
            && (DisableString(a) != "" ==> Contains(command, "--disable=" + DisableString(a)))
            && (DisableString(a) == "" ==> command == CommandOptions(a, b, isFortran) + tail)
  {
    AssembleParts(CommandOptions(a, b, isFortran), DisableString(a), input, output);
  }
}
