/**
 * `run_module`: the module's entry point. It validates the arguments,
 * repairs the requested specifiers, resolves the `ansible-galaxy`
 * executable, plans one `ansible-galaxy collection ...` command for the
 * desired state, runs it, and derives `changed`: from the success marker in
 * the output for installs, from the uninstall emulation for `absent`.
 *
 * The process runner (`module.run_command`), the `PATH` search
 * (`shutil.which`) and the JSON decoder (`json.loads`) are parameters.
 */
module Reconcile {
  import opened Wrappers
  import opened PyStrings
  import opened Specifiers
  import opened Manifest
  import opened Uninstaller

  /** The `state` option. */
  datatype State = Present | Absent | Latest | ForceReinstall

  /** `state_args`: the sub-command and its modifiers for each state. */
  function StateArgs(state: State): seq<string> {
    match state
    case Absent => ["list", "--format=json"]
    case Present => ["install"]
    case Latest => ["install", "--upgrade"]
    case ForceReinstall => ["install", "--force"]
  }

  /** The module's options (`chdir` only reaches the process runner). */
  datatype Params = Params(
    state: State,
    name: Option<seq<string>>,
    requirements: Option<string>,
    extraArgs: string,
    executable: string)

  /** What the process runner returns for a command. */
  datatype Process = Process(rc: int, stdout: string, stderr: string)

  datatype Failure =
    | InvalidArguments              // `required_one_of` / `mutually_exclusive` rejected the options
    | ExecutableNotFound            // no executable to run
    | NonZeroExit                   // the command exited with a non-zero code
    | UninstallFailed(error: UninstallError)  // `collection_uninstall` raised

  /** The `result` dictionary, and whether the module failed. */
  datatype ModuleResult = ModuleResult(
    failure: Option<Failure>,
    changed: bool,
    rc: Option<int>,
    stdout: Option<string>,
    stderr: Option<string>,
    cmd: Option<seq<string>>)

  /** The file system afterwards, and the module's result. */
  datatype Run = Run(entries: set<string>, result: ModuleResult)

  /** The text whose presence in the output of an install means something changed. */
  const SuccessMarker: string := "was installed successfully"

  /** Exactly one of `name` and `requirements` is given. */
  predicate ArgumentsValid(p: Params) {
    p.name.Some? != p.requirements.Some?
  }

  /**
   * A non-`absent` request given as an empty `name` list plans
   * `['-r', None]`; the model leaves such requests out.
   */
  predicate TargetsDefined(p: Params) {
    ArgumentsValid(p) ==> p.state == Absent || p.name != Some([])
  }

  /**
   * The executable to run: a name holding a `/` is used as given; any
   * other name is looked up in `which`, which models `shutil.which`.
   * `None` when the result is `None` or empty.
   */
  function ResolveExecutable(executable: string, which: map<string, string>): (r: Option<string>)
  {
    if '/' in executable then Some(executable)
    else if executable in which && which[executable] != [] then Some(which[executable])
    else None
  }

  /** The collections to install, or the requirements file to install from; none for `absent`. */
  function Targets(state: State, name: seq<string>, requirements: Option<string>): seq<string>
    requires state == Absent || name != [] || requirements.Some?
  {
    if state == Absent then []
    else if name != [] then name
    else ["-r", requirements.value]
  }

  /** `[executable, 'collection', *state_args[state], *extra_args, *targets]`. */
  function Command(executable: string, state: State, extraArgs: string, targets: seq<string>): seq<string> {
    [executable, "collection"] + StateArgs(state) + SplitWhitespace(extraArgs) + targets
  }

  /**
   * The `name` option after `fix_orphaned_version_specifiers`, an absent
   * option read as the empty list.
   */
  function RepairName(name: Option<seq<string>>): seq<string> {
    Repair(name.GetOr([]))
  }

  /** Line 238 as written: `None` when iterating over an absent `name` raises `TypeError`. */
  function RepairNameAsWritten(name: Option<seq<string>>): Option<seq<string>> {
    match name
    case None => None
    case Some(items) => Some(Repair(items))
  }

  /** A failure before any command was planned. */
  function EarlyFailure(f: Failure): ModuleResult {
    ModuleResult(Some(f), false, None, None, None, None)
  }

  /**
   * What `run_module` does: `runner` answers for the process the command
   * starts, `parse` for `json.loads`, and `entries`/`failing` describe the
   * file system the uninstall emulation works on.
   */
  function Reconcile(p: Params, which: map<string, string>, runner: seq<string> -> Process,
                     parse: string -> Option<Listing>, entries: set<string>, failing: set<string>): Run
    requires TargetsDefined(p)
  {
    if !ArgumentsValid(p) then Run(entries, EarlyFailure(InvalidArguments))
    else
      var name := RepairName(p.name);
      match ResolveExecutable(p.executable, which)
      case None => Run(entries, EarlyFailure(ExecutableNotFound))
      case Some(exe) =>
        assert p.state != Absent ==> name != [] || p.requirements.Some? by { RepairShrinks(p.name.GetOr([])); }
        var cmd := Command(exe, p.state, p.extraArgs, Targets(p.state, name, p.requirements));
        var proc := runner(cmd);
        var ran := ModuleResult(None, false, Some(proc.rc), Some(proc.stdout), Some(proc.stderr), Some(cmd));
        if proc.rc != 0 then Run(entries, ran.(failure := Some(NonZeroExit)))
        else if p.state == Absent then
          var u := Uninstall(entries, failing, name, parse(proc.stdout));
          match u.result
          case Err(e) => Run(u.entries, ran.(failure := Some(UninstallFailed(e))))
          case Ok(changed) => Run(u.entries, ran.(changed := changed))
        else Run(entries, ran.(changed := Contains(proc.stdout, SuccessMarker)))
  }

  /**
   * `run_module`, step by step: validate, repair the names, split the extra
   * arguments, resolve the executable, plan and run the command, then
   * derive `changed`.
   */
  method RunModule(fs: FileSystem, p: Params, which: map<string, string>,
                   runner: seq<string> -> Process, parse: string -> Option<Listing>)
    returns (result: ModuleResult)
    requires TargetsDefined(p)
    modifies fs
    ensures Reconcile(p, which, runner, parse, old(fs.entries), fs.failing) == Run(fs.entries, result)
  {
    if !ArgumentsValid(p) {
      return EarlyFailure(InvalidArguments);
    }
    var name := FixOrphanedVersionSpecifiers(p.name.GetOr([]));
    var extraArgs := SplitWhitespace(p.extraArgs);
    var executable := ResolveExecutable(p.executable, which);
    if executable.None? {
      return EarlyFailure(ExecutableNotFound);
    }
    var targets: seq<string>;
    if p.state == Absent {
      targets := [];
    } else if name != [] {
      targets := name;
    } else {
      RepairShrinks(p.name.GetOr([]));
      targets := ["-r", p.requirements.value];
    }
    var cmd := [executable.value, "collection"] + StateArgs(p.state) + extraArgs + targets;
    var proc := runner(cmd);
    result := ModuleResult(None, false, Some(proc.rc), Some(proc.stdout), Some(proc.stderr), Some(cmd));
    if proc.rc != 0 {
      result := result.(failure := Some(NonZeroExit));
      return;
    }
    if p.state == Absent {
      var r := CollectionUninstall(fs, name, parse(proc.stdout));
      match r
      case Err(e) => result := result.(failure := Some(UninstallFailed(e)));
      case Ok(changed) => result := result.(changed := changed);
    } else {
      result := result.(changed := Contains(proc.stdout, SuccessMarker));
    }
  }

  // ---------------------------------------------------------------------
  // Planning
  // ---------------------------------------------------------------------

  /**
   * Each state asks for its own sub-command: `list --format=json` for
   * `absent`, `install` with a modifier that tells the three install states
   * apart otherwise.
   */
  lemma StateArgsDistinct(s: State, t: State)
    ensures (StateArgs(s)[0] == "install") == (s != Absent)
    ensures StateArgs(s) == StateArgs(t) ==> s == t
  {
  }

  /**
   * An explicit path is used as given, without a search; a bare name is
   * replaced by what the search finds, and is not found when the search
   * has nothing (or nothing but the empty string) for it. A resolved
   * executable is never empty.
   */
  lemma ResolveExecutableSpec(executable: string, which: map<string, string>, other: map<string, string>)
    ensures '/' in executable ==> ResolveExecutable(executable, which) == Some(executable)
    ensures '/' in executable ==> ResolveExecutable(executable, which) == ResolveExecutable(executable, other)
    ensures '/' !in executable && executable in which && which[executable] != [] ==>
              ResolveExecutable(executable, which) == Some(which[executable])
    ensures '/' !in executable && (executable !in which || which[executable] == []) ==>
              ResolveExecutable(executable, which).None?
    ensures ResolveExecutable(executable, which).Some? ==> ResolveExecutable(executable, which).value != []
  {
    if '/' in executable {
      var i :| 0 <= i < |executable| && executable[i] == '/';
    }
  }

  /**
   * The planned command: the executable, `collection`, the state's
   * arguments, the extra arguments split on whitespace, then the targets.
   */
  lemma CommandLayout(executable: string, state: State, extraArgs: string, targets: seq<string>)
    ensures var cmd := Command(executable, state, extraArgs, targets);
      var n := 2 + |StateArgs(state)|;
      && cmd[0] == executable && cmd[1] == "collection"
      && cmd[2..n] == StateArgs(state)
      && cmd[n..|cmd| - |targets|] == SplitWhitespace(extraArgs)
      && cmd[|cmd| - |targets|..] == targets
  {
    var head := [executable, "collection"] + StateArgs(state);
    var extra := SplitWhitespace(extraArgs);
    var cmd := head + extra + targets;
    var n := 2 + |StateArgs(state)|;
    assert |head| == n;
    assert cmd[..n] == head;
    assert cmd[2..n] == head[2..] == StateArgs(state);
    assert cmd[n..|cmd| - |targets|] == extra;
    assert cmd[|cmd| - |targets|..] == targets;
  }

  /**
   * For `absent` the command is the listing probe and carries no targets,
   * whatever names were requested.
   */
  lemma AbsentPlansListing(p: Params, which: map<string, string>, runner: seq<string> -> Process,
                           parse: string -> Option<Listing>, entries: set<string>, failing: set<string>)
    requires p.state == Absent && ArgumentsValid(p)
    requires ResolveExecutable(p.executable, which).Some?
    ensures Reconcile(p, which, runner, parse, entries, failing).result.cmd
         == Some([ResolveExecutable(p.executable, which).value, "collection", "list", "--format=json"]
                 + SplitWhitespace(p.extraArgs))
  {
    var exe := ResolveExecutable(p.executable, which).value;
    var extra := SplitWhitespace(p.extraArgs);
    assert [exe, "collection"] + StateArgs(Absent) + extra + []
        == [exe, "collection", "list", "--format=json"] + extra;
  }

  /**
   * An install command ends with the repaired names when some were given,
   * and with `-r` and the requirements file otherwise.
   */
  lemma InstallPlansTargets(p: Params, which: map<string, string>, runner: seq<string> -> Process,
                            parse: string -> Option<Listing>, entries: set<string>, failing: set<string>)
    requires p.state != Absent && ArgumentsValid(p) && TargetsDefined(p)
    requires ResolveExecutable(p.executable, which).Some?
    ensures var exe := ResolveExecutable(p.executable, which).value;
      Reconcile(p, which, runner, parse, entries, failing).result.cmd
      == Some([exe, "collection"] + StateArgs(p.state) + SplitWhitespace(p.extraArgs)
              + (match p.name
                 case Some(items) => Repair(items)
                 case None => ["-r", p.requirements.value]))
  {
    RepairShrinks(p.name.GetOr([]));
  }

  // ---------------------------------------------------------------------
  // Failures
  // ---------------------------------------------------------------------

  /**
   * Both or neither of `name` and `requirements`: the module fails before
   * any process is started, and nothing is touched.
   */
  lemma InvalidArgumentsFailFirst(p: Params, which: map<string, string>, runner: seq<string> -> Process,
                                  parse: string -> Option<Listing>, entries: set<string>, failing: set<string>)
    requires !ArgumentsValid(p)
    ensures Reconcile(p, which, runner, parse, entries, failing)
         == Run(entries, ModuleResult(Some(InvalidArguments), false, None, None, None, None))
  {
  }

  /**
   * An executable that cannot be found fails the module before any process
   * is started, and nothing is touched.
   */
  lemma ExecutableNotFoundFails(p: Params, which: map<string, string>, runner: seq<string> -> Process,
                                parse: string -> Option<Listing>, entries: set<string>, failing: set<string>)
    requires ArgumentsValid(p) && TargetsDefined(p)
    requires '/' !in p.executable && (p.executable !in which || which[p.executable] == [])
    ensures Reconcile(p, which, runner, parse, entries, failing)
         == Run(entries, ModuleResult(Some(ExecutableNotFound), false, None, None, None, None))
  {
  }

  /**
   * A non-zero exit fails the module with the command, the exit code and
   * both outputs attached; for `absent` the emulation does not run.
   */
  lemma NonZeroExitFails(p: Params, which: map<string, string>, runner: seq<string> -> Process,
                         parse: string -> Option<Listing>, entries: set<string>, failing: set<string>)
    requires ArgumentsValid(p) && TargetsDefined(p)
    requires ResolveExecutable(p.executable, which).Some?
    requires var r := Reconcile(p, which, runner, parse, entries, failing).result;
      r.cmd.Some? && runner(r.cmd.value).rc != 0
    ensures var run := Reconcile(p, which, runner, parse, entries, failing);
      var proc := runner(run.result.cmd.value);
      && run.entries == entries
      && run.result.failure == Some(NonZeroExit)
      && !run.result.changed
      && run.result.rc == Some(proc.rc) && run.result.stdout == Some(proc.stdout)
      && run.result.stderr == Some(proc.stderr)
  {
  }

  /**
   * The module fails exactly on invalid arguments, a missing executable, a
   * non-zero exit, or, for `absent`, an unreadable listing or a removal
   * that raises; the first three never touch the file system.
   */
  lemma FailureIff(p: Params, which: map<string, string>, runner: seq<string> -> Process,
                   parse: string -> Option<Listing>, entries: set<string>, failing: set<string>)
    requires TargetsDefined(p)
    ensures var run := Reconcile(p, which, runner, parse, entries, failing);
      var name := RepairName(p.name);
      run.result.failure.Some?
      <==> !ArgumentsValid(p)
           || ResolveExecutable(p.executable, which).None?
           || runner(run.result.cmd.value).rc != 0
           || (p.state == Absent && Uninstall(entries, failing, name, parse(run.result.stdout.value)).result.Err?)
    ensures var run := Reconcile(p, which, runner, parse, entries, failing);
      run.result.failure in {Some(InvalidArguments), Some(ExecutableNotFound), Some(NonZeroExit)}
      ==> run.entries == entries
  {
  }

  // ---------------------------------------------------------------------
  // Changed
  // ---------------------------------------------------------------------

  /**
   * An install that exits 0 reports a change exactly when its output holds
   * `was installed successfully`, and touches no file itself.
   */
  lemma InstallChangedIff(p: Params, which: map<string, string>, runner: seq<string> -> Process,
                          parse: string -> Option<Listing>, entries: set<string>, failing: set<string>)
    requires p.state != Absent && TargetsDefined(p)
    requires Reconcile(p, which, runner, parse, entries, failing).result.failure.None?
    ensures var run := Reconcile(p, which, runner, parse, entries, failing);
      var out := run.result.stdout.value;
      && run.entries == entries
      && (run.result.changed <==> exists i :: 0 <= i <= |out| && StartsWith(out[i..], SuccessMarker))
  {
    ContainsIff(Reconcile(p, which, runner, parse, entries, failing).result.stdout.value, SuccessMarker);
  }

  /**
   * `absent` that exits 0 reports what the uninstall emulation reports on
   * the listing the command printed, and leaves the file system as it
   * leaves it; an emulation error is reported as such, not as a non-zero
   * exit.
   */
  lemma AbsentFollowsUninstall(p: Params, which: map<string, string>, runner: seq<string> -> Process,
                               parse: string -> Option<Listing>, entries: set<string>, failing: set<string>)
    requires p.state == Absent && ArgumentsValid(p)
    requires ResolveExecutable(p.executable, which).Some?
    requires runner(Reconcile(p, which, runner, parse, entries, failing).result.cmd.value).rc == 0
    ensures var run := Reconcile(p, which, runner, parse, entries, failing);
      var u := Uninstall(entries, failing, RepairName(p.name), parse(run.result.stdout.value));
      && run.entries == u.entries
      && (u.result.Ok? ==> run.result.failure.None? && run.result.changed == u.result.value)
      && (u.result.Err? ==> run.result.failure == Some(UninstallFailed(u.result.error)) && !run.result.changed)
  {
  }

  // ---------------------------------------------------------------------
  // An end-to-end scenario
  // ---------------------------------------------------------------------

  /**
   * `name: pkg.a:>1.0,<2.0` reaches the module split at the comma; the
   * planned command puts the specifier back together, and an output
   * holding the success marker reports a change.
   */
  lemma InstallScenario(executable: string, runner: seq<string> -> Process, parse: string -> Option<Listing>,
                        entries: set<string>, failing: set<string>, before: string, after: string)
    requires '/' !in executable
    requires runner(["/usr/bin/mgr", "collection", "install", "pkg.a:>1.0,<2.0"])
          == Process(0, before + SuccessMarker + after, "")
    ensures var p := Params(Present, Some(["pkg.a:>1.0", "<2.0"]), None, "", executable);
      Reconcile(p, map[executable := "/usr/bin/mgr"], runner, parse, entries, failing)
      == Run(entries, ModuleResult(None, true, Some(0), Some(before + SuccessMarker + after), Some(""),
                                   Some(["/usr/bin/mgr", "collection", "install", "pkg.a:>1.0,<2.0"])))
  {
    ScenarioRepair();
    assert SplitWhitespace("") == [];
    assert Command("/usr/bin/mgr", Present, "", ["pkg.a:>1.0,<2.0"])
        == ["/usr/bin/mgr", "collection", "install", "pkg.a:>1.0,<2.0"];
    var out := before + SuccessMarker + after;
    assert StartsWith(out[|before|..], SuccessMarker) by {
      assert out[|before|..][..|SuccessMarker|] == SuccessMarker;
    }
    ContainsIff(out, SuccessMarker);
  }

  /** The two fragments of `pkg.a:>1.0,<2.0` are joined back into one specifier. */
  lemma ScenarioRepair()
    ensures Repair(["pkg.a:>1.0", "<2.0"]) == ["pkg.a:>1.0,<2.0"]
  {
    var head, fragment := "pkg.a:>1.0", "<2.0";
    assert LStrip(fragment) == fragment && StartsWithSpecifier(fragment);
    RepairRejoins([head, fragment]);
    assert [head, fragment][1..] == [fragment];
    assert Join([fragment], ",") == fragment;
    assert Join([head, fragment], ",") == head + "," + fragment;
    assert head + "," + fragment == "pkg.a:>1.0,<2.0";
  }

  // ---------------------------------------------------------------------
  // Finding: a request given only as a requirements file
  // ---------------------------------------------------------------------

  /**
   * As written, a request that gives only `requirements` (the documented
   * way to install from a requirements file) has no `name`, and repairing
   * it raises before any command is planned.
   */
  lemma RequirementsOnlyCrashesAsWritten(requirements: string)
    ensures var p := Params(Present, None, Some(requirements), "", "ansible-galaxy");
      ArgumentsValid(p) && RepairNameAsWritten(p.name).None?
  {
  }

  /**
   * With the absent `name` read as the empty list, the same request plans
   * an install from the requirements file.
   */
  lemma RequirementsOnlyPlansInstall(p: Params, which: map<string, string>, runner: seq<string> -> Process,
                                     parse: string -> Option<Listing>, entries: set<string>, failing: set<string>)
    requires p.name.None? && p.requirements.Some? && p.state != Absent
    requires ResolveExecutable(p.executable, which).Some?
    ensures Reconcile(p, which, runner, parse, entries, failing).result.cmd
         == Some([ResolveExecutable(p.executable, which).value, "collection"] + StateArgs(p.state)
                 + SplitWhitespace(p.extraArgs) + ["-r", p.requirements.value])
  {
    assert RepairName(p.name) == [] by { RepairShrinks([]); }
  }
}
