/**
  The command runner `run_cmd` (fixme_fail/main.py:26-63). The child process
  itself is not modelled: what it does is an abstract function from the
  invocation to its exit status and the text it wrote.
*/
module Runner {
  import opened Wrappers
  import opened PyStr

  /** A command is either one line for the shell or an argument vector run without a shell. */
  datatype Command = ShellLine(line: string) | Argv(args: seq<string>)

  /** A working directory given as a `pathlib.Path` or as a plain string. */
  datatype Cwd = PathCwd(path: string) | StrCwd(dir: string)

  type Env = map<string, string>

  /** Exactly what is handed to `subprocess.run`. */
  datatype Invocation = Invocation(
    cmd: Command, shell: bool, cwd: Option<string>, env: Option<Env>,
    captureOutput: bool, text: bool, timeout: Option<real>)

  /**
    What the child did: its exit status and its stdout and stderr as Python
    read them (in text mode already decoded and with universal newlines
    applied, so `\r\n` and `\r` have become `\n`).
  */
  datatype Exit = Exit(returncode: int, stdout: string, stderr: string)

  /** `subprocess.CalledProcessError`; `output` and `stderr` are `None` when nothing was captured. */
  datatype CalledProcessError = CalledProcessError(
    returncode: int, cmd: Command, output: Option<string>, stderr: Option<string>)

  /** The `(stdout, stderr)` pair `run_cmd` returns. */
  type Output = (Option<string>, Option<string>)

  function ModeOf(text: bool): Mode {
    if text then Text else Bytes
  }

  /** `p.stdout` / `p.stderr` of the completed process: the text when captured, else `None`. */
  function Captured(captureOutput: bool, s: string): (r: Option<string>)
    ensures r.Some? <==> captureOutput
    ensures r.Some? ==> r.value == s
  {
    if captureOutput then Some(s) else None
  }

  /**
    What `run_cmd` returns or raises once the child has finished with `exit`:
    a non-zero status raises whether or not output was captured; otherwise
    the trailing-whitespace-stripped pair when output was captured, and
    `(None, None)` when it was not.
  */
  function RunOutcome(cmd: Command, captureOutput: bool, text: bool, exit: Exit): (r: Result<Output, CalledProcessError>)
    ensures r.Err? <==> exit.returncode != 0
    ensures r.Err? ==> r.error.returncode == exit.returncode && r.error.cmd == cmd
    ensures r.Err? ==> (r.error.output.Some? <==> captureOutput) && (r.error.stderr.Some? <==> captureOutput)
    ensures r.Err? && captureOutput ==> r.error.output.value == exit.stdout && r.error.stderr.value == exit.stderr
    ensures r.Ok? && !captureOutput ==> r.value == (None, None)
    ensures r.Ok? && captureOutput ==>
      r.value.0.Some? && IsRStripOf(exit.stdout, r.value.0.value, ModeOf(text)) &&
      r.value.1.Some? && IsRStripOf(exit.stderr, r.value.1.value, ModeOf(text))
  {
    if exit.returncode != 0 then
      Err(CalledProcessError(exit.returncode, cmd, Captured(captureOutput, exit.stdout), Captured(captureOutput, exit.stderr)))
    else if captureOutput then
      Ok((Some(RStrip(exit.stdout, ModeOf(text))), Some(RStrip(exit.stderr, ModeOf(text)))))
    else
      Ok((None, None))
  }

  /**
    `run_cmd`. `osEnviron` is the parent's environment, `absolute` stands for
    `Path.absolute()`, and `child` for running the process to completion.
    The merged environment is computed but, as in the source, the child is
    given `extra_env` itself.
  */
  method RunCmd(
    cmd: Command, cwd: Option<Cwd>, extraEnv: Option<Env>, captureOutput: bool, text: bool,
    timeout: Option<real>, osEnviron: Env, absolute: string -> string, child: Invocation -> Exit)
    returns (inv: Invocation, r: Result<Output, CalledProcessError>)
    ensures inv.cmd == cmd
    ensures inv.shell <==> cmd.ShellLine?
    ensures inv.cwd == match cwd
                       case None => None
                       case Some(PathCwd(p)) => Some(absolute(p))
                       case Some(StrCwd(d)) => Some(d)
    ensures inv.env == extraEnv
    ensures inv.captureOutput == captureOutput && inv.text == text && inv.timeout == timeout
    ensures r == RunOutcome(cmd, captureOutput, text, child(inv))
  {
    var shell := if cmd.ShellLine? then true else false;

    var dir: Option<string> := None;
    match cwd {
      case Some(PathCwd(p)) => dir := Some(absolute(p));
      case Some(StrCwd(d)) => dir := Some(d);
      case None =>
    }

    var updatedEnv: Env := map[];
    if extraEnv.Some? && |extraEnv.value| > 0 {
      updatedEnv := osEnviron;
      updatedEnv := updatedEnv + extraEnv.value;
    }

    inv := Invocation(cmd, shell, dir, extraEnv, captureOutput, text, timeout);
    var exit := child(inv);
    var stdout, stderr := Captured(captureOutput, exit.stdout), Captured(captureOutput, exit.stderr);
    if exit.returncode != 0 {
      r := Err(CalledProcessError(exit.returncode, cmd, stdout, stderr));
      return;
    }
    if captureOutput {
      r := Ok((Some(RStrip(stdout.value, ModeOf(text))), Some(RStrip(stderr.value, ModeOf(text)))));
    } else {
      r := Ok((None, None));
    }
  }
}
