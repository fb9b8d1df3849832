/**
 * `docker_swarm_container_exec`: runs a command in a container through
 * `docker exec … sh -c`, unless a `creates` or `removes` guard, checked by
 * one existence probe, says it has already been done.
 *
 * The container runtime is a `Target` object: a fixed answer for every
 * invocation (the exit status and output a real `docker exec` would give,
 * a timeout, or an exception) and the list of invocations made so far.
 * `Run` walks the guards, check mode and the execution step by step and is
 * proved to do what the pure `RunSpec` describes.
 */
module ContainerExec {
  import opened Wrappers
  import Text
  import Shell
  import Seqs

  /** The `command` parameter: a list of arguments, or one shell string. */
  datatype Command = Words(args: seq<string>) | Line(text: string)

  /** Python truthiness of an optional string parameter. */
  predicate Given(o: Option<string>) {
    o.Some? && o.value != ""
  }

  // ---------------------------------------------------------------------
  // The shell command and the argument vector

  /** The command as shell text: a list is quoted and joined, a string is used verbatim. */
  function Body(command: Command): string {
    match command
    case Words(args) => Shell.JoinQuoted(args)
    case Line(text) => text
  }

  /** The prefix that changes directory before the command. */
  function ChdirPrefix(dir: string): string {
    "cd " + Shell.Quote(dir)
  }

  /** `shell_cmd` of `docker_exec_command`. */
  function ShellCommand(command: Command, chdir: Option<string>): string {
    if Given(chdir) then ChdirPrefix(chdir.value) + " && " + Body(command) else Body(command)
  }

  /** The directory change reads back, word for word, as `cd` and the directory itself. */
  lemma ChdirRoundTrip(dir: string)
    ensures Shell.Words(ChdirPrefix(dir)) == Some(["cd", dir])
  {
    var q := Shell.Quote(dir);
    assert ChdirPrefix(dir) == "cd" + (" " + q);
    assert Shell.SafeChar('c') && Shell.SafeChar('d');
    assert Shell.AllSafe("cd");
    Shell.ScanSafe("cd", " " + q, "", false);
    assert "" + "cd" == "cd";
    assert Shell.Words(ChdirPrefix(dir)) == Shell.Scan(" " + q, Shell.Bare, "cd", true);
    assert (" " + q)[1..] == q;
    assert Shell.Scan(" " + q, Shell.Bare, "cd", true) == Shell.Prepend("cd", Shell.Scan(q, Shell.Bare, "", false));
    Shell.QuoteRoundTrip(dir);
    assert ["cd"] + [dir] == ["cd", dir];
  }

  /**
   * A list command reaches the shell as exactly its arguments; with a
   * directory, it follows a `cd` into that directory and `&&`; a string
   * command is passed through untouched.
   */
  lemma ShellCommandMeaning(command: Command, chdir: Option<string>)
    ensures var body := ShellCommand(command, chdir)[|ShellCommand(command, chdir)| - |Body(command)|..];
      && |Body(command)| <= |ShellCommand(command, chdir)|
      && body == Body(command)
      && (command.Words? ==> Shell.Words(body) == Some(command.args))
      && (command.Line? ==> body == command.text)
    ensures Given(chdir) ==>
      var cmd := ShellCommand(command, chdir);
      var prefix := ChdirPrefix(chdir.value);
      && cmd[..|prefix| + 4] == prefix + " && "
      && Shell.Words(prefix) == Some(["cd", chdir.value])
    ensures !Given(chdir) ==> ShellCommand(command, chdir) == Body(command)
  {
    if command.Words? {
      Shell.JoinQuotedRoundTrip(command.args);
    }
    if Given(chdir) {
      ChdirRoundTrip(chdir.value);
    }
  }

  /** `"{}={}".format(key, value)`. */
  function EnvEntry(entry: (string, string)): string {
    entry.0 + "=" + entry.1
  }

  function UserArgs(user: Option<string>): seq<string> {
    if Given(user) then ["--user", user.value] else []
  }

  function EnvArgs(env: seq<(string, string)>): (r: seq<string>)
    ensures |r| == 2 * |env|
  {
    if env == [] then [] else EnvArgs(env[..|env| - 1]) + ["-e", EnvEntry(env[|env| - 1])]
  }

  /** The argument vector `docker_exec_command` hands to the process runner. */
  function Argv(containerId: string, shellCmd: string, user: Option<string>, env: seq<(string, string)>): seq<string> {
    ["docker", "exec"] + UserArgs(user) + EnvArgs(env) + [containerId, "sh", "-c", shellCmd]
  }

  /** `docker_exec_command`'s construction of `docker_cmd` by successive `extend`s. */
  method BuildArgv(containerId: string, shellCmd: string, user: Option<string>, env: seq<(string, string)>)
    returns (argv: seq<string>)
    ensures argv == Argv(containerId, shellCmd, user, env)
  {
    argv := ["docker", "exec"];
    if Given(user) {
      argv := argv + ["--user", user.value];
    }
    var k := 0;
    while k < |env|
      invariant 0 <= k <= |env|
      invariant argv == ["docker", "exec"] + UserArgs(user) + EnvArgs(env[..k])
    {
      assert env[..k + 1][..k] == env[..k];
      argv := argv + ["-e", EnvEntry(env[k])];
      k := k + 1;
    }
    assert env[..k] == env;
    argv := argv + [containerId, "sh", "-c", shellCmd];
  }

  lemma {:induction false} EnvArgsLayout(env: seq<(string, string)>)
    ensures forall k | 0 <= k < |env| :: EnvArgs(env)[2 * k] == "-e" && EnvArgs(env)[2 * k + 1] == EnvEntry(env[k])
  {
    if env != [] {
      var init := env[..|env| - 1];
      EnvArgsLayout(init);
      forall k | 0 <= k < |env|
        ensures EnvArgs(env)[2 * k] == "-e" && EnvArgs(env)[2 * k + 1] == EnvEntry(env[k])
      {
        if k < |init| {
          assert env[k] == init[k];
        }
      }
    }
  }

  /**
   * The vector is `docker exec`, then `--user` and the user if one is set,
   * then `-e key=value` for each variable in order, then the container,
   * `sh`, `-c` and the shell command.
   */
  lemma ArgvLayout(containerId: string, shellCmd: string, user: Option<string>, env: seq<(string, string)>)
    ensures var argv := Argv(containerId, shellCmd, user, env);
      var u := |UserArgs(user)|;
      && |argv| == 2 + u + 2 * |env| + 4
      && argv[..2] == ["docker", "exec"]
      && (Given(user) ==> argv[2] == "--user" && argv[3] == user.value)
      && (!Given(user) ==> u == 0)
      && (forall k | 0 <= k < |env| :: argv[2 + u + 2 * k] == "-e" && argv[2 + u + 2 * k + 1] == EnvEntry(env[k]))
      && argv[|argv| - 4..] == [containerId, "sh", "-c", shellCmd]
  {
    var argv := Argv(containerId, shellCmd, user, env);
    var front := ["docker", "exec"] + UserArgs(user);
    assert argv == front + EnvArgs(env) + [containerId, "sh", "-c", shellCmd];
    EnvArgsLayout(env);
    MiddleIndex(front, EnvArgs(env), [containerId, "sh", "-c", shellCmd]);
  }

  lemma MiddleIndex<T>(a: seq<T>, b: seq<T>, c: seq<T>)
    ensures forall k | 0 <= k < |b| :: (a + b + c)[|a| + k] == b[k]
    ensures (a + b + c)[..|a|] == a && (a + b + c)[|a| + |b|..] == c
  {
  }

  /** What a runner reading the vector back finds: the user, the variable entries, the container and the command. */
  datatype Parsed = Parsed(user: Option<string>, entries: seq<string>, containerId: string, shellCmd: string)

  function ReadEntries(rest: seq<string>): (r: Option<(seq<string>, seq<string>)>)
    ensures r.Some? ==> |r.value.1| == 4
    decreases |rest|
  {
    if |rest| < 4 then None
    else if |rest| == 4 then Some(([], rest))
    else if |rest| >= 6 && rest[0] == "-e" then
      match ReadEntries(rest[2..])
      case None => None
      case Some(p) => Some(([rest[1]] + p.0, p.1))
    else None
  }

  /**
   * Reads an argument vector back. The four trailing words are always
   * there, so the length alone tells the options from the container.
   */
  function ReadArgv(argv: seq<string>): Option<Parsed> {
    if |argv| < 6 || argv[..2] != ["docker", "exec"] then None
    else
      var rest := argv[2..];
      var user := if |rest| > 4 && rest[0] == "--user" then Some(rest[1]) else None;
      var afterUser := if user.Some? then rest[2..] else rest;
      match ReadEntries(afterUser)
      case None => None
      case Some(p) =>
        if p.1[1..3] == ["sh", "-c"] then Some(Parsed(user, p.0, p.1[0], p.1[3])) else None
  }

  function Entries(env: seq<(string, string)>): (r: seq<string>)
    ensures |r| == |env| && forall k | 0 <= k < |env| :: r[k] == EnvEntry(env[k])
  {
    seq(|env|, k requires 0 <= k < |env| => EnvEntry(env[k]))
  }

  lemma {:induction false} ReadEntriesRoundTrip(env: seq<(string, string)>, tail: seq<string>)
    requires |tail| == 4
    ensures ReadEntries(EnvArgs(env) + tail) == Some((Entries(env), tail))
    decreases |env|
  {
    if env != [] {
      var first := ["-e", EnvEntry(env[0])];
      EnvArgsFront(env);
      ReadEntriesRoundTrip(env[1..], tail);
      assert EnvArgs(env) + tail == first + (EnvArgs(env[1..]) + tail);
      assert (first + (EnvArgs(env[1..]) + tail))[2..] == EnvArgs(env[1..]) + tail;
      assert [EnvEntry(env[0])] + Entries(env[1..]) == Entries(env);
    } else {
      assert EnvArgs(env) + tail == tail;
    }
  }

  lemma {:induction false} EnvArgsFront(env: seq<(string, string)>)
    requires env != []
    ensures EnvArgs(env) == ["-e", EnvEntry(env[0])] + EnvArgs(env[1..])
    decreases |env|
  {
    var init := env[..|env| - 1];
    if |env| == 1 {
      assert init == [];
      assert env[1..] == [];
    } else {
      EnvArgsFront(init);
      assert init[0] == env[0];
      assert init[1..] == env[1..][..|env[1..]| - 1];
      assert env[1..][|env[1..]| - 1] == env[|env| - 1];
    }
  }

  /**
   * The vector is read back as the user (when one is given), the variable
   * entries in order, the container and the shell command, whatever text
   * they hold.
   */
  lemma ArgvRoundTrip(containerId: string, shellCmd: string, user: Option<string>, env: seq<(string, string)>)
    ensures ReadArgv(Argv(containerId, shellCmd, user, env))
         == Some(Parsed(if Given(user) then user else None, Entries(env), containerId, shellCmd))
  {
    var argv := Argv(containerId, shellCmd, user, env);
    var tail := [containerId, "sh", "-c", shellCmd];
    var after := EnvArgs(env) + tail;
    ReadEntriesRoundTrip(env, tail);
    Seqs.Concat3(["docker", "exec"] + UserArgs(user), EnvArgs(env), tail);
    Seqs.Concat3(["docker", "exec"], UserArgs(user), after);
    assert argv[..2] == ["docker", "exec"];
    assert argv[2..] == UserArgs(user) + after;
    ReadUser(user, env, tail);
    assert tail[1..3] == ["sh", "-c"];
  }

  /** The `--user` option is recognised exactly when one was given, and the entries follow it. */
  lemma ReadUser(user: Option<string>, env: seq<(string, string)>, tail: seq<string>)
    requires |tail| == 4
    ensures var rest := UserArgs(user) + (EnvArgs(env) + tail);
      && (|rest| > 4 && rest[0] == "--user" <==> Given(user))
      && (Given(user) ==> rest[1] == user.value && rest[2..] == EnvArgs(env) + tail)
      && (!Given(user) ==> rest == EnvArgs(env) + tail)
  {
    if !Given(user) && env != [] {
      EnvArgsFront(env);
    }
  }

  // ---------------------------------------------------------------------
  // The container runtime

  /** How one `subprocess.run` call ended. */
  datatype Reply = Exited(rc: int, stdout: string, stderr: string) | TimedOut | Raised(error: string)

  /** One `subprocess.run` call: the argument vector, the input and the timeout in seconds. */
  datatype Invocation = Invocation(argv: seq<string>, stdin: Option<string>, timeout: nat)

  const ProbeTimeout: nat := 30
  const CommandTimeout: nat := 300

  class Target {
    /** The reply every invocation gets. */
    const answer: Invocation -> Reply
    /** The invocations made so far, oldest first. */
    var issued: seq<Invocation>

    constructor (answer: Invocation -> Reply)
      ensures this.answer == answer && issued == []
    {
      this.answer := answer;
      issued := [];
    }

    method Spawn(inv: Invocation) returns (reply: Reply)
      modifies this`issued
      ensures reply == answer(inv) && issued == old(issued) + [inv]
    {
      issued := issued + [inv];
      reply := answer(inv);
    }
  }

  /** The existence probe's shell text: the path always goes through `shlex.quote`. */
  function ProbeScript(path: string): string {
    "test -e " + Shell.Quote(path) + " && echo exists || echo missing"
  }

  function ProbeInvocation(containerId: string, path: string): Invocation {
    Invocation(["docker", "exec", containerId, "sh", "-c", ProbeScript(path)], None, ProbeTimeout)
  }

  /** The probe's path reads back as one shell word holding exactly the path. */
  lemma ProbeQuotesPath(path: string)
    ensures var s := ProbeScript(path);
      var q := Shell.Quote(path);
      && s[..8] == "test -e "
      && s[8..8 + |q|] == q
      && Shell.Words(q) == Some([path])
  {
    Shell.QuoteRoundTrip(path);
  }

  /** `docker_exec_check`'s `(success, stdout)`: any timeout or exception is a failed probe. */
  function ProbeOutcome(reply: Reply): (bool, string) {
    match reply
    case Exited(rc, out, _) => (rc == 0, out)
    case TimedOut => (false, "")
    case Raised(_) => (false, "")
  }

  /** `docker_exec_command`'s `(rc, stdout, stderr)`. */
  function CommandOutcome(reply: Reply): (int, string, string) {
    match reply
    case Exited(rc, out, err) => (rc, out, err)
    case TimedOut => (124, "", "Command timed out after 300 seconds")
    case Raised(e) => (1, "", e)
  }

  /** The module's parameters. */
  datatype Params = Params(containerId: string, command: Command, chdir: Option<string>,
                           creates: Option<string>, removes: Option<string>, user: Option<string>,
                           env: seq<(string, string)>, stdin: Option<string>)

  function CommandInvocation(p: Params): Invocation {
    Invocation(Argv(p.containerId, ShellCommand(p.command, p.chdir), p.user, p.env),
               if Given(p.stdin) then p.stdin else None, CommandTimeout)
  }

  /** The result the module reports: rejected by the framework, or finished (failed or not). */
  datatype RunResult =
    | Rejected(msg: string)
    | Finished(failed: bool, changed: bool, skipped: bool, msg: string, rc: int, stdout: string, stderr: string)

  function Skipped(msg: string): RunResult {
    Finished(false, false, true, msg, 0, "", "")
  }

  /** Whether a guard's probe lets the command be skipped. */
  predicate SkipsOn(reply: Reply, word: string) {
    ProbeOutcome(reply).0 && Text.Contains(ProbeOutcome(reply).1, word)
  }

  /** From the gates on: check mode, then the command itself. */
  function Execute(p: Params, checkMode: bool, answer: Invocation -> Reply): (RunResult, seq<Invocation>) {
    if checkMode then (Finished(false, true, false, "Would execute command (check mode)", 0, "", ""), [])
    else
      var inv := CommandInvocation(p);
      var (rc, out, err) := CommandOutcome(answer(inv));
      if rc != 0 then
        (Finished(true, true, false, "Command failed with return code " + Text.IntToString(rc), rc, out, err), [inv])
      else
        (Finished(false, true, false, "Command executed successfully", rc, out, err), [inv])
  }

  /** `main`: the result and the invocations made, in order. */
  function RunSpec(p: Params, checkMode: bool, answer: Invocation -> Reply): (RunResult, seq<Invocation>) {
    if p.creates.Some? && p.removes.Some? then
      (Rejected("parameters are mutually exclusive: creates|removes"), [])
    else if Given(p.creates) then
      var probe := ProbeInvocation(p.containerId, p.creates.value);
      if SkipsOn(answer(probe), "exists") then
        (Skipped("Skipped: file " + p.creates.value + " already exists (creates check)"), [probe])
      else
        var rest := Execute(p, checkMode, answer);
        (rest.0, [probe] + rest.1)
    else if Given(p.removes) then
      var probe := ProbeInvocation(p.containerId, p.removes.value);
      if SkipsOn(answer(probe), "missing") then
        (Skipped("Skipped: file " + p.removes.value + " does not exist (removes check)"), [probe])
      else
        var rest := Execute(p, checkMode, answer);
        (rest.0, [probe] + rest.1)
    else Execute(p, checkMode, answer)
  }

  /** `docker_exec_check`. */
  method Probe(t: Target, containerId: string, path: string) returns (success: bool, out: string)
    modifies t`issued
    ensures (success, out) == ProbeOutcome(t.answer(ProbeInvocation(containerId, path)))
    ensures t.issued == old(t.issued) + [ProbeInvocation(containerId, path)]
  {
    var reply := t.Spawn(Invocation(["docker", "exec", containerId, "sh", "-c", ProbeScript(path)], None, ProbeTimeout));
    match reply {
      case Exited(rc, o, _) =>
        success, out := rc == 0, o;
      case TimedOut =>
        success, out := false, "";
      case Raised(_) =>
        success, out := false, "";
    }
  }

  /** One guard: probe the path, then skip when the probe succeeded and printed `word`. */
  method Guard(t: Target, containerId: string, path: string, word: string) returns (skip: bool)
    modifies t`issued
    ensures skip == SkipsOn(t.answer(ProbeInvocation(containerId, path)), word)
    ensures t.issued == old(t.issued) + [ProbeInvocation(containerId, path)]
  {
    var success, out := Probe(t, containerId, path);
    skip := success && Text.Contains(out, word);
  }

  /** `docker_exec_command`. */
  method ExecCommand(t: Target, p: Params) returns (rc: int, out: string, err: string)
    modifies t`issued
    ensures (rc, out, err) == CommandOutcome(t.answer(CommandInvocation(p)))
    ensures t.issued == old(t.issued) + [CommandInvocation(p)]
  {
    var shellCmd := ShellCommand(p.command, p.chdir);
    var argv := BuildArgv(p.containerId, shellCmd, p.user, p.env);
    var stdin := if Given(p.stdin) then p.stdin else None;
    var reply := t.Spawn(Invocation(argv, stdin, CommandTimeout));
    match reply {
      case Exited(code, o, e) =>
        rc, out, err := code, o, e;
      case TimedOut =>
        rc, out, err := 124, "", "Command timed out after 300 seconds";
      case Raised(e) =>
        rc, out, err := 1, "", e;
    }
  }

  /** `main`. */
  method Run(t: Target, p: Params, checkMode: bool) returns (result: RunResult)
    modifies t`issued
    ensures var spec := RunSpec(p, checkMode, t.answer);
      result == spec.0 && t.issued == old(t.issued) + spec.1
  {
    if p.creates.Some? && p.removes.Some? {
      return Rejected("parameters are mutually exclusive: creates|removes");
    }

    if Given(p.creates) {
      var skip := Guard(t, p.containerId, p.creates.value, "exists");
      if skip {
        return Skipped("Skipped: file " + p.creates.value + " already exists (creates check)");
      }
    }

    if Given(p.removes) {
      var skip := Guard(t, p.containerId, p.removes.value, "missing");
      if skip {
        return Skipped("Skipped: file " + p.removes.value + " does not exist (removes check)");
      }
    }

    result := ExecuteStep(t, p, checkMode);
    if Given(p.creates) || Given(p.removes) {
      Seqs.Concat3(old(t.issued), Probes(p), Execute(p, checkMode, t.answer).1);
    }
  }

  /** The rest of `main` once the gates pass: check mode, or the command and its status. */
  method ExecuteStep(t: Target, p: Params, checkMode: bool) returns (result: RunResult)
    modifies t`issued
    ensures var spec := Execute(p, checkMode, t.answer);
      result == spec.0 && t.issued == old(t.issued) + spec.1
  {
    if checkMode {
      return Finished(false, true, false, "Would execute command (check mode)", 0, "", "");
    }

    var rc, out, err := ExecCommand(t, p);
    if rc != 0 {
      return Finished(true, true, false, "Command failed with return code " + Text.IntToString(rc), rc, out, err);
    }
    result := Finished(false, true, false, "Command executed successfully", rc, out, err);
  }

  // ---------------------------------------------------------------------
  // Properties

  /** The probe the guards call for: one for `creates`, else one for `removes`, else none. */
  function Probes(p: Params): (r: seq<Invocation>)
    ensures |r| <= 1
  {
    if Given(p.creates) then [ProbeInvocation(p.containerId, p.creates.value)]
    else if Given(p.removes) then [ProbeInvocation(p.containerId, p.removes.value)]
    else []
  }

  /**
   * With `creates`, the command is skipped exactly when the probe succeeded
   * and printed "exists"; a skip runs nothing but the probe and reports
   * no change, rc 0 and empty output.
   */
  lemma CreatesGate(p: Params, checkMode: bool, answer: Invocation -> Reply)
    requires Given(p.creates) && p.removes.None?
    ensures var (r, invs) := RunSpec(p, checkMode, answer);
      var reply := answer(ProbeInvocation(p.containerId, p.creates.value));
      && (r.Finished? && r.skipped <==> reply.Exited? && reply.rc == 0 && Text.Contains(reply.stdout, "exists"))
      && (r.Finished? && r.skipped ==>
            && !r.changed && r.rc == 0 && r.stdout == "" && r.stderr == ""
            && invs == [ProbeInvocation(p.containerId, p.creates.value)])
  {
  }

  /** With `removes`, the command is skipped exactly when the probe succeeded and printed "missing". */
  lemma RemovesGate(p: Params, checkMode: bool, answer: Invocation -> Reply)
    requires Given(p.removes) && p.creates.None?
    ensures var (r, invs) := RunSpec(p, checkMode, answer);
      var reply := answer(ProbeInvocation(p.containerId, p.removes.value));
      && (r.Finished? && r.skipped <==> reply.Exited? && reply.rc == 0 && Text.Contains(reply.stdout, "missing"))
      && (r.Finished? && r.skipped ==>
            && !r.changed && r.rc == 0 && r.stdout == "" && r.stderr == ""
            && invs == [ProbeInvocation(p.containerId, p.removes.value)])
  {
  }

  /** `creates` and `removes` together are refused before any probe or command. */
  lemma GuardsExclusive(p: Params, checkMode: bool, answer: Invocation -> Reply)
    requires p.creates.Some? && p.removes.Some?
    ensures RunSpec(p, checkMode, answer).0.Rejected? && RunSpec(p, checkMode, answer).1 == []
  {
  }

  /**
   * Unless refused, the run makes the guard's probe, if any, and then
   * either stops (skipped) or goes on exactly as `Execute` says.
   */
  lemma Proceeds(p: Params, checkMode: bool, answer: Invocation -> Reply)
    requires !(p.creates.Some? && p.removes.Some?)
    ensures var (r, invs) := RunSpec(p, checkMode, answer);
      && r.Finished?
      && (r.skipped ==> invs == Probes(p) && !r.changed)
      && (!r.skipped ==> r == Execute(p, checkMode, answer).0 && invs == Probes(p) + Execute(p, checkMode, answer).1)
  {
    if !Given(p.creates) && !Given(p.removes) {
      var rest := Execute(p, checkMode, answer).1;
      assert [] + rest == rest;
    }
  }

  /** A probe that fails, times out or raises never skips the command: the gate fails open. */
  lemma ProbeFailsOpen(p: Params, checkMode: bool, answer: Invocation -> Reply)
    requires !(p.creates.Some? && p.removes.Some?)
    requires forall inv | inv in Probes(p) :: !ProbeOutcome(answer(inv)).0
    ensures var (r, invs) := RunSpec(p, checkMode, answer);
      && r.Finished? && !r.skipped && r.changed
      && invs == Probes(p) + Execute(p, checkMode, answer).1
  {
    if Probes(p) != [] {
      assert Probes(p)[0] in Probes(p);
    }
  }

  /** In check mode nothing but the guard's probe is run; past the gates it reports a change, rc 0 and no output. */
  lemma CheckModeRunsNothing(p: Params, answer: Invocation -> Reply)
    requires !(p.creates.Some? && p.removes.Some?)
    ensures var (r, invs) := RunSpec(p, true, answer);
      && invs == Probes(p)
      && (!r.skipped ==> r.changed && !r.failed && r.rc == 0 && r.stdout == "" && r.stderr == "")
  {
    Proceeds(p, true, answer);
  }

  /**
   * An executed command always reports a change; it fails exactly when its
   * exit status is not 0, and a timeout or an exception shows up as a
   * failure with status 124 or 1.
   */
  lemma ExecutedCommand(p: Params, answer: Invocation -> Reply)
    ensures var (r, invs) := Execute(p, false, answer);
      var reply := answer(CommandInvocation(p));
      && invs == [CommandInvocation(p)]
      && r.Finished? && r.changed && !r.skipped
      && (r.failed <==> r.rc != 0)
      && (reply.Exited? ==> r.rc == reply.rc && r.stdout == reply.stdout && r.stderr == reply.stderr)
      && (reply.TimedOut? ==> r.failed && r.rc == 124 && r.stderr == "Command timed out after 300 seconds")
      && (reply.Raised? ==> r.failed && r.rc == 1 && r.stderr == reply.error)
  {
  }

  /** The command is run in the container with the full argument vector, its input when given and a 300 s timeout. */
  lemma CommandInvocationShape(p: Params)
    ensures var inv := CommandInvocation(p);
      && ReadArgv(inv.argv) == Some(Parsed(if Given(p.user) then p.user else None, Entries(p.env),
                                          p.containerId, ShellCommand(p.command, p.chdir)))
      && (inv.stdin.Some? <==> Given(p.stdin))
      && inv.timeout == 300
  {
    ArgvRoundTrip(p.containerId, ShellCommand(p.command, p.chdir), p.user, p.env);
  }
}
