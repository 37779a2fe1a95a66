/**
 * Privilege elevation of a CliWrap command (Extensions/CommandExtensions.cs and
 * Extensions/CliExtensions.cs): the command is re-targeted at pkexec or sudo, and its
 * old target and old arguments become the new argument list.
 *
 * CliWrap's rules for quoting an argument are not part of this model: `escape` stands
 * for them.
 */
module Elevation {
  import opened DotNetText

  /** The effective user id of root. */
  const RootUid: int := 0
  const PkexecPath: string := "/usr/bin/pkexec"
  const SudoPath: string := "/usr/bin/sudo"

  /**
   * A CliWrap command: the program to start, its argument string, and settings that
   * elevation carries over untouched.
   */
  datatype Command = Command(
    targetFilePath: string,
    arguments: string,
    workingDirPath: string,
    environmentVariables: map<string, string>)

  /** The new argument list: the old target, then the old argument string cut at every space. */
  function ElevatedArguments(command: Command): (arguments: seq<string>)
    ensures |arguments| == Occurrences(command.arguments, ' ') + 2
    ensures arguments[0] == command.targetFilePath
    ensures forall i :: 1 <= i < |arguments| ==> ' ' !in arguments[i]
  {
    [command.targetFilePath] + Split(command.arguments, ' ')
  }

  function EscapeAll(arguments: seq<string>, escape: string -> string): (escaped: seq<string>)
    ensures |escaped| == |arguments|
  {
    if arguments == [] then [] else [escape(arguments[0])] + EscapeAll(arguments[1..], escape)
  }

  /** `WithArguments(list, escape: true)`: each argument escaped, then joined with spaces. */
  function WithArguments(command: Command, arguments: seq<string>, escape: string -> string): Command {
    command.(arguments := Join(EscapeAll(arguments, escape), ' '))
  }

  /**
   * CommandExtensions.Elevate: unchanged when running as root; otherwise started
   * through pkexec when it is installed, else through sudo.
   */
  function Elevate(command: Command, effectiveUserId: int, pkexecExists: bool, escape: string -> string): (r: Command)
    ensures effectiveUserId == RootUid ==> r == command
    ensures effectiveUserId != RootUid ==>
      && r.targetFilePath == (if pkexecExists then PkexecPath else SudoPath)
      && r.workingDirPath == command.workingDirPath
      && r.environmentVariables == command.environmentVariables
  {
    if effectiveUserId == RootUid then command
    else
      var target := if pkexecExists then PkexecPath else SudoPath;
      WithArguments(command.(targetFilePath := target), ElevatedArguments(command), escape)
  }

  /** CliExtensions.Elevate: always through pkexec, with no check of the current user. */
  function ElevateWithPkexec(command: Command, escape: string -> string): (r: Command)
    ensures r.targetFilePath == PkexecPath
    ensures r.workingDirPath == command.workingDirPath
    ensures r.environmentVariables == command.environmentVariables
  {
    WithArguments(command.(targetFilePath := PkexecPath), ElevatedArguments(command), escape)
  }

  /** The two extensions agree whenever the current user is not root and pkexec exists. */
  lemma ElevationsAgree(command: Command, effectiveUserId: int, escape: string -> string)
    requires effectiveUserId != RootUid
    ensures Elevate(command, effectiveUserId, true, escape) == ElevateWithPkexec(command, escape)
  {
  }

  /**
   * Nothing of the old command is lost: joining the new arguments after the old
   * target with spaces gives back the old argument string.
   */
  lemma ElevatedArgumentsKeepArguments(command: Command)
    ensures Join(ElevatedArguments(command)[1..], ' ') == command.arguments
  {
    assert ElevatedArguments(command)[1..] == Split(command.arguments, ' ');
    JoinSplit(command.arguments, ' ');
  }

  function Identity(s: string): string {
    s
  }

  lemma {:induction false} NothingToEscape(arguments: seq<string>)
    ensures EscapeAll(arguments, Identity) == arguments
  {
    if arguments != [] {
      NothingToEscape(arguments[1..]);
    }
  }

  /**
   * When no argument needs quoting, elevation can be undone: the elevated argument
   * string splits into the old target followed by the old arguments.
   */
  lemma {:induction false} ElevationIsReversible(command: Command, effectiveUserId: int, pkexecExists: bool)
    requires effectiveUserId != RootUid
    requires ' ' !in command.targetFilePath
    ensures var r := Elevate(command, effectiveUserId, pkexecExists, Identity);
      && Split(r.arguments, ' ') == ElevatedArguments(command)
      && Split(r.arguments, ' ')[0] == command.targetFilePath
      && Join(Split(r.arguments, ' ')[1..], ' ') == command.arguments
  {
    var list := ElevatedArguments(command);
    NothingToEscape(list);
    SplitJoin(list, ' ');
    ElevatedArgumentsKeepArguments(command);
  }
}
