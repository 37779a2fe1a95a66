/**
 * The snap's entry point (Scripts/dotnet-launcher.py): make sure the manifest content
 * snap is installed, then either hand the arguments to the installer console
 * (elevated for install and remove) or, after installing the latest SDK into an empty
 * installation, to the dotnet host.
 *
 * Spawning is written as a list of the processes started, in order; what each one
 * returns comes from `outcome`, indexed by its position in that list. The `id -u`
 * probe is the machine's effective user id.
 */
module Launcher {
  import opened Wrappers
  import opened DotNetText

  const ManifestMarker: string := "/snap/dotnet-manifest/current/supported.json"
  const PkexecPath: string := "/usr/bin/pkexec"
  const Bootstrap: seq<string> := ["snap", "install", "dotnet-manifest"]
  const SudoPrefix: seq<string> := ["sudo", "--preserve-env=DOTNET_INSTALL_DIR"]
  const Welcome: seq<string> := [
    "Welcome to .NET on Snap!",
    "We are downloading and installing the latest SDK for you to use. It should only be a few moments."]
  const InstallFailed: string := "Could not install the latest .NET SDK."

  /** The variables the script reads with os.environ.get (None when unset). */
  datatype Environment = Environment(snap: Option<string>, snapCommon: Option<string>, installDir: Option<string>)

  /** What json.load makes of the local manifest file. */
  datatype ManifestFile =
    | Unreadable            // missing, or not JSON: open or json.load raises
    | Sized(length: nat)    // a JSON array, object or string
    | Unsized               // a number, boolean or null: len() raises

  /** The machine as the script probes it. */
  datatype Machine = Machine(effectiveUserId: int, files: set<string>, manifests: map<string, ManifestFile>)

  datatype ProcessEnvironment = Inherited | Only(variables: map<string, string>)

  /** One subprocess.run: its argv, its environment and whether check=True. */
  datatype Process = Process(argv: seq<string>, environment: ProcessEnvironment, check: bool)

  /** How a child ended: its return code, or a KeyboardInterrupt while waiting for it. */
  datatype ChildOutcome = Exited(code: int) | Interrupted

  /** The exceptions that escape the script and end it with a traceback. */
  datatype Uncaught = Unset(variable: string) | CalledProcessError(code: int) | BadManifest

  /** How the script ends: sys.exit with a code, or an uncaught exception. */
  datatype Termination = Exit(code: int) | Traceback(cause: Uncaught)

  function InstallDirOnly(installDir: string): ProcessEnvironment {
    Only(map["DOTNET_INSTALL_DIR" := installDir])
  }

  /**
   * run_elevated: as root the command runs directly with check=True; otherwise it
   * runs through pkexec when installed, else sudo, with DOTNET_INSTALL_DIR as the
   * only environment variable (an unset one makes subprocess raise).
   */
  function ElevatedProcess(command: seq<string>, machine: Machine, installDir: Option<string>): (r: Result<Process, Uncaught>)
    ensures machine.effectiveUserId == 0 ==> r == Success(Process(command, Inherited, true))
    ensures machine.effectiveUserId != 0 && installDir.None? ==> r.Failure?
    ensures machine.effectiveUserId != 0 && installDir.Some? ==>
      && r.Success? && !r.value.check
      && r.value.environment == InstallDirOnly(installDir.value)
      && r.value.argv == (if PkexecPath in machine.files then ["pkexec"] else SudoPrefix) + command
  {
    if machine.effectiveUserId == 0 then Success(Process(command, Inherited, true))
    else if installDir.None? then Failure(Unset("DOTNET_INSTALL_DIR"))
    else
      var wrapper := if PkexecPath in machine.files then ["pkexec"] else SudoPrefix;
      Success(Process(wrapper + command, InstallDirOnly(installDir.value), false))
  }

  /**
   * What elevation promises: it fails only for a non-root user without
   * DOTNET_INSTALL_DIR; the command is passed on intact, at the end of the argv;
   * a non-root run goes through pkexec or sudo with its own environment and is
   * not checked, a root run keeps the environment and is checked.
   */
  lemma ElevatedProcessMeaning(command: seq<string>, machine: Machine, installDir: Option<string>)
    ensures var r := ElevatedProcess(command, machine, installDir);
      && (r.Failure? <==> machine.effectiveUserId != 0 && installDir.None?)
      && (r.Success? ==>
        && |r.value.argv| >= |command| && r.value.argv[|r.value.argv| - |command|..] == command
        && (r.value.check <==> machine.effectiveUserId == 0)
        && (r.value.environment.Inherited? <==> machine.effectiveUserId == 0)
        && (machine.effectiveUserId != 0 ==> Wrapped(r.value)))
  {
  }

  predicate IsInstallerMode(args: seq<string>) {
    |args| > 0 && args[0] == "installer"
  }

  predicate NeedsElevation(args: seq<string>) {
    |args| > 1 && args[1] in ["install", "remove"]
  }

  function ConsolePath(snap: string): string {
    snap + "/Dotnet.Installer.Console"
  }

  /** The process that installs the manifest content snap. */
  predicate IsBootstrap(p: Process) {
    p.argv == Bootstrap || p.argv == ["pkexec"] + Bootstrap || p.argv == SudoPrefix + Bootstrap
  }

  /** A run of the console with `command` after its path, possibly behind pkexec or sudo. */
  predicate RunsConsole(p: Process, env: Environment, command: seq<string>) {
    && env.snap.Some?
    && var full := [ConsolePath(env.snap.value)] + command;
    (p.argv == full || p.argv == ["pkexec"] + full || p.argv == SudoPrefix + full)
  }

  predicate Wrapped(p: Process) {
    |p.argv| > 0 && (p.argv[0] == "pkexec" || p.argv[0] == "sudo")
  }

  function DefaultInstall(): seq<string> {
    ["install", "sdk", "latest"]
  }

  function ManifestPath(snapCommon: string): string {
    JoinPath(JoinPath(snapCommon, "snap"), "manifest.json")
  }

  /** A process whose program is none of snap, pkexec and sudo is not the bootstrap. */
  lemma OtherProgramIsNotBootstrap(p: Process)
    requires |p.argv| > 0 && p.argv[0] != "snap" && p.argv[0] != "pkexec" && p.argv[0] != "sudo"
    ensures !IsBootstrap(p)
  {
    assert Bootstrap[0] == "snap";
    assert (["pkexec"] + Bootstrap)[0] == "pkexec";
    assert (SudoPrefix + Bootstrap)[0] == "sudo";
  }

  lemma ConsoleIsNotBootstrap(p: Process, env: Environment, command: seq<string>)
    requires RunsConsole(p, env, command)
    ensures !IsBootstrap(p)
  {
    var full := [ConsolePath(env.snap.value)] + command;
    assert |ConsolePath(env.snap.value)| > 6;
    assert full[0] != "snap" && full[0] != "pkexec" && full[0] != "sudo";
    if p.argv == full {
      OtherProgramIsNotBootstrap(p);
    } else if p.argv == ["pkexec"] + full {
      assert p.argv[1] == full[0];
      assert (["pkexec"] + Bootstrap)[1] == "snap";
      assert p.argv[0] == "pkexec" && Bootstrap[0] == "snap" && (SudoPrefix + Bootstrap)[0] == "sudo";
      assert p.argv != Bootstrap && p.argv != SudoPrefix + Bootstrap;
    } else {
      assert p.argv[2] == full[0];
      assert (SudoPrefix + Bootstrap)[2] == "snap";
      assert p.argv[0] == "sudo" && Bootstrap[0] == "snap" && (["pkexec"] + Bootstrap)[0] == "pkexec";
      assert p.argv != Bootstrap && p.argv != ["pkexec"] + Bootstrap;
    }
  }

  lemma JoinPathEnding(a: string, b: string)
    requires b != [] && b[0] != '/'
    ensures |JoinPath(a, b)| >= |b| && JoinPath(a, b)[|JoinPath(a, b)| - 1] == b[|b| - 1]
  {
  }

  /** The dotnet host's path ends in "dotnet", so it is none of the other programs. */
  lemma DotnetIsNotConsole(installDir: string, env: Environment)
    ensures var dotnet := JoinPath(installDir, "dotnet");
      && dotnet != "snap" && dotnet != "pkexec" && dotnet != "sudo"
      && (env.snap.Some? ==> dotnet != ConsolePath(env.snap.value))
  {
    var dotnet := JoinPath(installDir, "dotnet");
    JoinPathEnding(installDir, "dotnet");
    if env.snap.Some? {
      var console := ConsolePath(env.snap.value);
      assert console[|console| - 1] == 'e';
    }
  }

  /** The exit code the script ends with when a child's outcome is its last word. */
  function ExitCode(result: ChildOutcome): int {
    if result.Interrupted? then -1 else result.code
  }

  /**
   * Installing the manifest content snap when its marker file is missing. `stop` is
   * how the script ends when the bootstrap did not succeed.
   */
  method InstallManifestSnap(env: Environment, machine: Machine, outcome: nat -> ChildOutcome)
    returns (spawned: seq<Process>, stop: Option<Termination>)
    ensures |spawned| <= 1
    ensures forall i :: 0 <= i < |spawned| ==> IsBootstrap(spawned[i])
    ensures stop.None? ==> |spawned| == 1 && outcome(0) == Exited(0)
    ensures stop != Some(Exit(0))
    ensures stop.Some? && stop.value.Exit? ==> |spawned| == 1 && stop.value.code == ExitCode(outcome(0))
    ensures |spawned| > 0 && outcome(0).Exited? && outcome(0).code != 0 ==>
      stop == Some(if machine.effectiveUserId == 0 then Traceback(CalledProcessError(outcome(0).code)) else Exit(outcome(0).code))
  {
    var bootstrap := ElevatedProcess(Bootstrap, machine, env.installDir);
    if bootstrap.Failure? {
      return [], Some(Traceback(bootstrap.error));
    }
    spawned := [bootstrap.value];
    var result := outcome(0);
    if result.Interrupted? {
      stop := Some(Exit(-1));
    } else if result.code != 0 {
      stop := Some(if bootstrap.value.check then Traceback(CalledProcessError(result.code)) else Exit(result.code));
    } else {
      stop := None;
    }
  }

  /** Installer mode: one run of the console with the remaining arguments. */
  method RunInstaller(args: seq<string>, env: Environment, machine: Machine, outcome: nat -> ChildOutcome, offset: nat)
    returns (spawned: seq<Process>, exit: Termination)
    requires IsInstallerMode(args)
    ensures |spawned| <= 1
    ensures forall i :: 0 <= i < |spawned| ==>
      && !IsBootstrap(spawned[i])
      && RunsConsole(spawned[i], env, args[1..])
      && (Wrapped(spawned[i]) <==> NeedsElevation(args) && machine.effectiveUserId != 0)
    ensures exit.Exit? ==> |spawned| == 1 && exit.code == ExitCode(outcome(offset))
  {
    if env.snap.None? {
      return [], Traceback(Unset("SNAP"));
    }
    var command := [ConsolePath(env.snap.value)] + args[1..];
    var last: Process;
    if NeedsElevation(args) {
      var elevated := ElevatedProcess(command, machine, env.installDir);
      if elevated.Failure? {
        return [], Traceback(elevated.error);
      }
      last := elevated.value;
    } else {
      last := Process(command, Inherited, false);
    }
    assert |ConsolePath(env.snap.value)| > 6;
    ConsoleIsNotBootstrap(last, env, args[1..]);
    spawned := [last];
    exit := Finish(last, outcome(offset));
  }

  /** How the script ends after the final child. */
  function Finish(last: Process, result: ChildOutcome): (exit: Termination)
    ensures exit.Exit? ==> exit.code == ExitCode(result)
    ensures exit.Traceback? ==> last.check && result.Exited? && result.code != 0
  {
    if result.Interrupted? then Exit(-1)
    else if last.check && result.code != 0 then Traceback(CalledProcessError(result.code))
    else Exit(result.code)
  }

  /**
   * The first run into an empty installation: the welcome text, then the console
   * installs the latest SDK. `stop` is how the script ends when that did not succeed.
   */
  method InstallLatestSdk(env: Environment, machine: Machine, outcome: nat -> ChildOutcome, offset: nat)
    returns (spawned: seq<Process>, printed: seq<string>, stop: Option<Termination>)
    ensures |spawned| <= 1
    ensures forall i :: 0 <= i < |spawned| ==> !IsBootstrap(spawned[i]) && RunsConsole(spawned[i], env, DefaultInstall())
    ensures |printed| >= 2 && printed[..2] == Welcome
    ensures stop.None? ==> |spawned| == 1 && outcome(offset) == Exited(0)
    ensures stop.Some? && stop.value.Exit? ==> |spawned| == 1 && stop.value.code == ExitCode(outcome(offset))
    ensures stop != Some(Exit(0))
  {
    printed := Welcome;
    if env.snap.None? {
      return [], printed, Some(Traceback(Unset("SNAP")));
    }
    var install := ElevatedProcess([ConsolePath(env.snap.value)] + DefaultInstall(), machine, env.installDir);
    if install.Failure? {
      return [], printed, Some(Traceback(install.error));
    }
    ConsoleIsNotBootstrap(install.value, env, DefaultInstall());
    spawned := [install.value];
    var result := outcome(offset);
    if result.Interrupted? {
      stop := Some(Exit(-1));
    } else if result.code != 0 {
      if install.value.check {
        stop := Some(Traceback(CalledProcessError(result.code)));
      } else {
        printed := printed + [InstallFailed];
        stop := Some(Exit(result.code));
      }
    } else {
      stop := None;
    }
  }

  /**
   * Pass-through mode: the latest SDK is installed first when the local manifest is
   * empty, then the dotnet host runs with the arguments unchanged.
   */
  method RunDotnet(args: seq<string>, env: Environment, machine: Machine, outcome: nat -> ChildOutcome, offset: nat)
    returns (spawned: seq<Process>, printed: seq<string>, exit: Termination)
    ensures |spawned| <= 2
    ensures forall i :: 0 <= i < |spawned| ==>
      && !IsBootstrap(spawned[i])
      && (|| RunsConsole(spawned[i], env, DefaultInstall())
          || (env.installDir.Some? && spawned[i] == Process([JoinPath(env.installDir.value, "dotnet")] + args, Inherited, false)))
    ensures exit.Exit? ==> |spawned| > 0 && exit.code == ExitCode(outcome(offset + |spawned| - 1))
    ensures |spawned| > 0 && RunsConsole(spawned[|spawned| - 1], env, DefaultInstall()) ==> exit != Exit(0)
    ensures printed != [] ==> |printed| >= 2 && printed[..2] == Welcome
  {
    spawned, printed := [], [];
    if env.snapCommon.None? {
      return [], [], Traceback(Unset("SNAP_COMMON"));
    }
    var path := ManifestPath(env.snapCommon.value);
    var manifest := if path in machine.manifests then machine.manifests[path] else Unreadable;
    if !manifest.Sized? {
      return [], [], Traceback(BadManifest);
    }
    if manifest.length == 0 {
      var stop;
      spawned, printed, stop := InstallLatestSdk(env, machine, outcome, offset);
      if stop.Some? {
        exit := stop.value;
        return;
      }
    }
    if env.installDir.None? {
      exit := Traceback(Unset("DOTNET_INSTALL_DIR"));
      return;
    }
    var last := Process([JoinPath(env.installDir.value, "dotnet")] + args, Inherited, false);
    DotnetIsNotConsole(env.installDir.value, env);
    OtherProgramIsNotBootstrap(last);
    assert !RunsConsole(last, env, DefaultInstall());
    spawned := spawned + [last];
    exit := Finish(last, outcome(offset + |spawned| - 1));
  }

  /**
   * The script's main block. The exit code is always the last child's return code,
   * or -1 when the user interrupts; nothing runs before the manifest snap is
   * present; arguments are forwarded verbatim.
   */
  method Launch(args: seq<string>, env: Environment, machine: Machine, outcome: nat -> ChildOutcome)
    returns (spawned: seq<Process>, printed: seq<string>, exit: Termination)
    ensures |spawned| <= 3
    // The manifest snap is installed first, and only when it is missing.
    ensures ManifestMarker in machine.files ==> forall i :: 0 <= i < |spawned| ==> !IsBootstrap(spawned[i])
    ensures ManifestMarker !in machine.files && |spawned| > 0 ==> IsBootstrap(spawned[0])
    ensures forall i :: 1 <= i < |spawned| ==> !IsBootstrap(spawned[i])
    // A failed bootstrap ends the run with its return code (an exception as root).
    ensures ManifestMarker !in machine.files && |spawned| > 0 && outcome(0).Exited? && outcome(0).code != 0 ==>
      && |spawned| == 1
      && exit == (if machine.effectiveUserId == 0 then Traceback(CalledProcessError(outcome(0).code)) else Exit(outcome(0).code))
    // The exit code is the last child's, or -1 on an interrupt.
    ensures exit.Exit? ==> |spawned| > 0 && exit.code == ExitCode(outcome(|spawned| - 1))
    // Installer mode: the arguments after "installer" go to the console unchanged,
    // behind pkexec or sudo exactly for install and remove when not root.
    ensures IsInstallerMode(args) ==> forall i :: 0 <= i < |spawned| && !IsBootstrap(spawned[i]) ==>
      && RunsConsole(spawned[i], env, args[1..])
      && (Wrapped(spawned[i]) <==> NeedsElevation(args) && machine.effectiveUserId != 0)
    // Otherwise: the latest SDK is installed first into an empty installation, and the
    // arguments go unchanged and unelevated to the dotnet host.
    ensures !IsInstallerMode(args) ==> forall i :: 0 <= i < |spawned| && !IsBootstrap(spawned[i]) ==>
      || RunsConsole(spawned[i], env, DefaultInstall())
      || (env.installDir.Some? && spawned[i] == Process([JoinPath(env.installDir.value, "dotnet")] + args, Inherited, false))
    ensures !IsInstallerMode(args) && |spawned| > 0 && RunsConsole(spawned[|spawned| - 1], env, DefaultInstall()) ==>
      exit != Exit(0)
    ensures !IsInstallerMode(args) && printed != [] ==> |printed| >= 2 && printed[..2] == Welcome
    ensures IsInstallerMode(args) ==> printed == []
  {
    var first: seq<Process> := [];
    if ManifestMarker !in machine.files {
      var stop;
      first, stop := InstallManifestSnap(env, machine, outcome);
      if stop.Some? {
        return first, [], stop.value;
      }
    }
    var rest;
    if IsInstallerMode(args) {
      printed := [];
      rest, exit := RunInstaller(args, env, machine, outcome, |first|);
    } else {
      rest, printed, exit := RunDotnet(args, env, machine, outcome, |first|);
    }
    spawned := first + rest;
    if first == [] {
      assert spawned == rest;
    } else {
      assert spawned[1..] == rest;
    }
  }
}
