/** The string side of src/exec.ts: the `ExecError` a failed command becomes
    and its detailed message, and the command line shown for each command,
    with its `cd` and environment prefixes and its secrets masked. */
module Exec {
  import opened Wrappers
  import opened Strings
  import opened Context
  import opened SkipRules

  /** `process.platform`, as far as the rendering depends on it. */
  datatype Platform = Posix | Win32

  /** `os.EOL`. */
  function Eol(platform: Platform): string
  {
    if platform == Win32 then "\r\n" else "\n"
  }

  // -------------------------------------------------------------------------
  // trim

  /** The characters `String.prototype.trim` removes: white space and line
      terminators. */
  predicate IsSpace(c: char)
  {
    c == '\t' || c == '\n' || c == '\U{000B}' || c == '\U{000C}' || c == '\r' || c == ' '
    || c == '\U{00A0}' || c == '\U{1680}' || ('\U{2000}' <= c <= '\U{200A}')
    || c == '\U{2028}' || c == '\U{2029}' || c == '\U{202F}' || c == '\U{205F}'
    || c == '\U{3000}' || c == '\U{FEFF}'
  }

  function TrimStart(s: string): (r: string)
    ensures |r| <= |s| && r == s[|s| - |r|..]
    ensures r == "" || !IsSpace(r[0])
    ensures forall i :: 0 <= i < |s| - |r| ==> IsSpace(s[i])
    decreases |s|
  {
    if |s| > 0 && IsSpace(s[0]) then TrimStart(s[1..]) else s
  }

  function TrimEnd(s: string): (r: string)
    ensures |r| <= |s| && r == s[..|r|]
    ensures r == "" || !IsSpace(r[|r| - 1])
    ensures forall i :: |r| <= i < |s| ==> IsSpace(s[i])
    decreases |s|
  {
    if |s| > 0 && IsSpace(s[|s| - 1]) then TrimEnd(s[..|s| - 1]) else s
  }

  /** How many white-space characters `s` starts with. */
  function LeadingSpaces(s: string): (n: nat)
    ensures n <= |s|
  {
    |s| - |TrimStart(s)|
  }

  /** `s.trim()`: the infix of `s` left once the white space at both ends
      is dropped. */
  function Trim(s: string): (r: string)
    ensures r == "" || (!IsSpace(r[0]) && !IsSpace(r[|r| - 1]))
    ensures LeadingSpaces(s) + |r| <= |s|
    ensures r == s[LeadingSpaces(s)..LeadingSpaces(s) + |r|]
    ensures forall k :: 0 <= k < LeadingSpaces(s) ==> IsSpace(s[k])
    ensures forall k :: LeadingSpaces(s) + |r| <= k < |s| ==> IsSpace(s[k])
  {
    TrimEnd(TrimStart(s))
  }

  /** Trimming twice trims no more. */
  lemma TrimIdempotent(s: string)
    ensures Trim(Trim(s)) == Trim(s)
  {
    var r := Trim(s);
    if r != "" {
      assert TrimStart(r) == r;
      assert TrimEnd(r) == r;
    }
  }

  /** A string without white space at its ends is left as it is. */
  lemma TrimKeepsInner(s: string)
    requires s == "" || (!IsSpace(s[0]) && !IsSpace(s[|s| - 1]))
    ensures Trim(s) == s
  {
  }

  // -------------------------------------------------------------------------
  // ExecError

  datatype ExecError = ExecError(message: string, error: string, stderr: string, stdout: string)

  /** The `ExecError` constructor. */
  function NewExecError(error: string, stderr: string, stdout: string): (e: ExecError)
    ensures e.message == "Command failed" && e.error == error
    ensures e.stderr == Trim(stderr) && e.stdout == Trim(stdout)
  {
    ExecError("Command failed", error, Trim(stderr), Trim(stdout))
  }

  /** The lines of the detailed message: the error, then each non-empty
      output under its heading when outputs are wanted. */
  function DetailLines(e: ExecError, withOutputs: bool): (lines: seq<string>)
    ensures |lines| >= 1 && lines[0] == e.error
    ensures !withOutputs ==> lines == [e.error]
    ensures withOutputs ==>
      |lines| == 1 + (if e.stdout != "" then 2 else 0) + (if e.stderr != "" then 2 else 0)
    ensures withOutputs && e.stdout != "" ==> lines[1] == "STDOUT:" && lines[2] == e.stdout
    ensures withOutputs && e.stderr != "" ==>
      lines[|lines| - 2] == "STDERR:" && lines[|lines| - 1] == e.stderr
  {
    [e.error]
    + (if withOutputs then
         (if |e.stdout| > 0 then ["STDOUT:", e.stdout] else [])
         + (if |e.stderr| > 0 then ["STDERR:", e.stderr] else [])
       else [])
  }

  /** `toDetailedError`: the message of the error it returns. */
  function ToDetailedError(e: ExecError, withOutputs: bool, platform: Platform): (message: string)
    ensures !withOutputs ==> message == e.error
  {
    Join(DetailLines(e, withOutputs), Eol(platform))
  }

  /** When none of the parts spans several lines, the detailed message splits
      back into its lines at each end of line. */
  lemma DetailedErrorLines(e: ExecError, withOutputs: bool, platform: Platform)
    requires Eol(platform)[0] !in e.error
    requires Eol(platform)[0] !in e.stdout && Eol(platform)[0] !in e.stderr
    ensures SplitOn(ToDetailedError(e, withOutputs, platform), Eol(platform)) == DetailLines(e, withOutputs)
  {
    var lines := DetailLines(e, withOutputs);
    var c := Eol(platform)[0];
    assert c != 'S';
    forall i | 0 <= i < |lines| ensures c !in lines[i] {
      assert lines[i] in {e.error, e.stdout, e.stderr, "STDOUT:", "STDERR:"};
    }
    SplitJoinRoundTrip(lines, Eol(platform));
  }

  // -------------------------------------------------------------------------
  // getEnvironmentString

  /** `Object.entries(env)`: the variables in order, `None` for a variable
      whose value is `undefined`. */
  type Env = seq<(string, Option<string>)>

  /** A value as a template literal renders it. */
  function Rendered(value: Option<string>): string
  {
    match value
    case Some(s) => s
    case None => "undefined"
  }

  function Assignments(env: Env): (parts: seq<string>)
    ensures |parts| == |env|
    ensures forall i :: 0 <= i < |env| ==> parts[i] == env[i].0 + "=" + Rendered(env[i].1)
  {
    seq(|env|, i requires 0 <= i < |env| => env[i].0 + "=" + Rendered(env[i].1))
  }

  function SetCommands(env: Env): (parts: seq<string>)
    ensures |parts| == |env|
    ensures forall i :: 0 <= i < |env| ==> parts[i] == "SET " + env[i].0 + "=" + Rendered(env[i].1)
  {
    seq(|env|, i requires 0 <= i < |env| => "SET " + env[i].0 + "=" + Rendered(env[i].1))
  }

  /** Each part followed by the separator. */
  function Terminated(parts: seq<string>, sep: string): string
  {
    if parts == [] then "" else parts[0] + sep + Terminated(parts[1..], sep)
  }

  /** Joining and then adding one more separator ends every part with it. */
  lemma {:induction false} JoinThenSeparator(parts: seq<string>, sep: string)
    requires parts != []
    ensures Join(parts, sep) + sep == Terminated(parts, sep)
  {
    if |parts| > 1 {
      JoinThenSeparator(parts[1..], sep);
      assert Terminated(parts[1..][1..], sep) == Terminated(parts[2..], sep);
    } else {
      assert parts[1..] == [];
    }
  }

  /** `getEnvironmentString`. */
  function EnvironmentString(env: Option<Env>, platform: Platform): (r: string)
    ensures env.None? || |env.value| == 0 ==> r == ""
    ensures env.Some? && |env.value| > 0 && platform == Win32 ==> |r| >= 2 && r[|r| - 2..] == "&&"
    ensures env.Some? && |env.value| > 0 && platform == Posix ==> |r| >= 1 && r[|r| - 1] == ' '
  {
    if env.None? || |env.value| == 0 then ""
    else if platform == Win32 then Join(SetCommands(env.value), "&&") + "&&"
    else Join(Assignments(env.value), " ") + " "
  }

  /** No variables, no prefix; otherwise every variable is set and followed
      by the platform's separator. */
  lemma EnvironmentStringShape(env: Option<Env>, platform: Platform)
    ensures env.None? || env.value == [] ==> EnvironmentString(env, platform) == ""
    ensures env.Some? && env.value != [] && platform == Win32 ==>
      EnvironmentString(env, platform) == Terminated(SetCommands(env.value), "&&")
    ensures env.Some? && env.value != [] && platform == Posix ==>
      EnvironmentString(env, platform) == Terminated(Assignments(env.value), " ")
  {
    if env.Some? && env.value != [] {
      if platform == Win32 {
        JoinThenSeparator(SetCommands(env.value), "&&");
      } else {
        JoinThenSeparator(Assignments(env.value), " ");
      }
    }
  }

  // -------------------------------------------------------------------------
  // getCommandString

  /** A part holding a space is wrapped in double quotes. */
  function Quote(part: string): (quoted: string)
    ensures ' ' in part ==> quoted == "\"" + part + "\""
    ensures ' ' !in part ==> quoted == part
  {
    if ' ' in part then "\"" + part + "\"" else part
  }

  function QuotedParts(command: seq<string>): (parts: seq<string>)
    ensures |parts| == |command|
    ensures forall i :: 0 <= i < |command| ==> parts[i] == Quote(command[i])
  {
    seq(|command|, i requires 0 <= i < |command| => Quote(command[i]))
  }

  function CommandLine(command: seq<string>): string
  {
    Join(QuotedParts(command), " ")
  }

  /** A command whose parts hold no space splits back into its parts. */
  lemma CommandLineRoundTrip(command: seq<string>)
    requires |command| >= 1 && forall i :: 0 <= i < |command| ==> ' ' !in command[i]
    ensures SplitOn(CommandLine(command), " ") == command
  {
    var parts := QuotedParts(command);
    assert parts == command;
    SplitJoinRoundTrip(command, " ");
  }

  /** The options that shape the rendering; `cwd` is a path. */
  datatype ExecOptions = ExecOptions(cwd: Option<string>, env: Option<Env>, silent: bool)

  /** `path.relative(process.cwd(), dir)`, which depends on the process. */
  type Relative = string -> string

  /** The `cd` prefix: only for a set, non-empty working directory. */
  function CdPrefix(cwd: Option<string>, relative: Relative): (prefix: string)
    ensures prefix != "" <==> cwd.Some? && cwd.value != ""
    ensures prefix != "" ==> prefix == "cd " + relative(cwd.value) + " && "
  {
    if cwd.Some? && cwd.value != "" then "cd " + relative(cwd.value) + " && " else ""
  }

  /** The rendered command before masking. */
  function PlainCommandString(
    command: seq<string>, options: ExecOptions, platform: Platform, relative: Relative): string
  {
    CdPrefix(options.cwd, relative) + EnvironmentString(options.env, platform) + CommandLine(command)
  }

  /** `getCommandString`. */
  function CommandString(
    command: seq<string>, secrets: seq<string>, options: ExecOptions,
    platform: Platform, relative: Relative): (r: string)
    ensures secrets == [] ==> r == PlainCommandString(command, options, platform, relative)
  {
    Redacted(secrets, PlainCommandString(command, options, platform, relative))
  }

  /** No secret that is non-empty and free of asterisks shows in a rendered
      command. */
  lemma CommandStringHidesSecrets(
    command: seq<string>, secrets: seq<string>, options: ExecOptions,
    platform: Platform, relative: Relative, i: nat)
    requires i < |secrets| && secrets[i] != "" && StarFree(secrets[i])
    ensures !Occurs(CommandString(command, secrets, options, platform, relative), secrets[i])
  {
    RedactedHidesSecrets(secrets, PlainCommandString(command, options, platform, relative), i);
  }

  /** Without secrets, a command run in place with no variables renders as
      its parts, and those come back by splitting on spaces. */
  lemma PlainCommandRoundTrip(command: seq<string>, platform: Platform, relative: Relative)
    requires |command| >= 1 && forall i :: 0 <= i < |command| ==> ' ' !in command[i]
    ensures SplitOn(CommandString(command, [], ExecOptions(None, None, false), platform, relative), " ")
         == command
  {
    var options := ExecOptions(None, None, false);
    assert CdPrefix(options.cwd, relative) == "";
    EnvironmentStringShape(options.env, platform);
    assert PlainCommandString(command, options, platform, relative) == CommandLine(command);
    CommandLineRoundTrip(command);
  }

  /** The line `exec` emits before it runs a command (src/exec.ts:147-149):
      none for a silent command, otherwise the rendered command, which the
      task's `outputLine` refuses when it spans several lines. */
  function ExecEcho(
    command: seq<string>, secrets: seq<string>, options: ExecOptions,
    platform: Platform, relative: Relative): (r: Result<seq<string>, string>)
    ensures options.silent ==> r == Ok([])
    ensures !options.silent ==>
      (r.Ok? <==> '\n' !in CommandString(command, secrets, options, platform, relative))
    ensures !options.silent && r.Ok? ==>
      r.value == [CommandString(command, secrets, options, platform, relative)]
  {
    if options.silent then Ok([])
    else
      match OutputLine(CommandString(command, secrets, options, platform, relative))
      case Ok(line) => Ok([line])
      case Err(message) => Err(message)
  }
}
