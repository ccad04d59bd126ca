/** The command execution bridge of the lab harness (`run_wsl` in
    run_lab_demo.py) and the liveness probes built on it.

    The outside world is an oracle: given the fully wrapped command line, its
    timeout and the number of commands issued before it, it answers with the
    completed process, or with `None` when the timeout expired. Every command
    the harness issues is recorded, wrapped, in a log; all properties of the
    harness are stated over that log. */
module Bridge {
  import opened Text

  /** Where the harness runs, fixed once at start-up: inside the WSL guest
      (commands run directly) or on the Windows host (commands are forwarded
      into the named distribution). */
  datatype Target = InsideWsl | ViaWsl(distro: string)

  const WSL_DISTRO := "Ubuntu-22.04"
  const WSL_LAB_DIR := "~/datum/galantic-vpc"

  /** One router of the lab topology (the `NODES` table). */
  datatype Node = Node(id: string, name: string, loopback: string, srv6: string)

  /** The three points of presence, in the table's order. */
  const NODES: seq<Node> := [
    Node("sjc", "San Jose", "10.255.0.1", "fc00:0:1::"),
    Node("iad", "N. Virginia", "10.255.0.2", "fc00:0:2::"),
    Node("ams", "Amsterdam", "10.255.0.3", "fc00:0:3::")
  ]

  /** How a command is run inside a node's container (`clab-galactic_vpc-<node>`). */
  const CONTAINER_PREFIX := "docker exec clab-galactic_vpc-"

  /** The default timeout of `run_wsl`, in seconds. */
  const DEFAULT_TIMEOUT: nat := 60

  /** A completed process: exit status and captured output. */
  datatype CommandResult = CommandResult(returncode: int, stdout: string, stderr: string)

  /** One command as issued: the wrapped command line and its timeout. */
  datatype Invocation = Invocation(command: string, timeout: nat)

  /** (wrapped command, timeout, commands issued before) -> result or timeout. */
  type Oracle = (string, nat, nat) -> Option<CommandResult>

  /** A value produced by the harness together with the log after producing it. */
  datatype Step<T> = Step(value: T, log: seq<Invocation>)

  /** The fixed text placed in front of the command. */
  function WrapPrefix(t: Target): string {
    match t
    case InsideWsl => "bash -c \""
    case ViaWsl(distro) => "wsl -d " + distro + " -- bash -c \""
  }

  /** The command line `run_wsl` hands to the shell: the command is inserted
      verbatim between the target's prefix and a closing quote. */
  function Wrap(t: Target, command: string): (full: string)
  {
    WrapPrefix(t) + command + "\""
  }

  /** The command sits verbatim between the prefix and the closing quote. */
  lemma WrapShape(t: Target, command: string)
    ensures var full := Wrap(t, command);
      |full| == |WrapPrefix(t)| + |command| + 1
      && full[..|WrapPrefix(t)|] == WrapPrefix(t)
      && full[|WrapPrefix(t)|..|full| - 1] == command
      && full[|full| - 1] == '"'
  {
  }

  /** Two different commands never produce the same command line. */
  lemma WrapInjective(t: Target, c1: string, c2: string)
    ensures Wrap(t, c1) == Wrap(t, c2) <==> c1 == c2
  {
    WrapShape(t, c1);
    WrapShape(t, c2);
    if Wrap(t, c1) == Wrap(t, c2) {
      var f := Wrap(t, c1);
      assert c1 == f[|WrapPrefix(t)|..|f| - 1] == c2;
    }
  }

  /** The harness issues `command` with `timeout`: the oracle answers and
      the wrapped command is appended to the log. */
  function Exec(t: Target, o: Oracle, log: seq<Invocation>, command: string, timeout: nat): (s: Step<Option<CommandResult>>)
    ensures s.log == log + [Invocation(Wrap(t, command), timeout)]
    ensures s.value == o(Wrap(t, command), timeout, |log|)
  {
    var full := Wrap(t, command);
    Step(o(full, timeout, |log|), log + [Invocation(full, timeout)])
  }

  /** A batch of commands with one timeout, issued one after the other in
      list order; the answers are collected in the same order. */
  function ExecAll(t: Target, o: Oracle, log: seq<Invocation>, commands: seq<string>, timeout: nat)
    : (s: Step<seq<Option<CommandResult>>>)
    ensures |s.value| == |commands|
    decreases |commands|
  {
    if commands == [] then Step([], log)
    else
      var prev := ExecAll(t, o, log, commands[..|commands| - 1], timeout);
      var r := Exec(t, o, prev.log, commands[|commands| - 1], timeout);
      Step(prev.value + [r.value], r.log)
  }

  /** Running one more command of a batch extends the run by that command. */
  lemma ExecAllSnoc(t: Target, o: Oracle, log: seq<Invocation>, commands: seq<string>, i: nat, timeout: nat)
    requires i < |commands|
    ensures var prev := ExecAll(t, o, log, commands[..i], timeout);
      var r := Exec(t, o, prev.log, commands[i], timeout);
      ExecAll(t, o, log, commands[..i + 1], timeout) == Step(prev.value + [r.value], r.log)
  {
    assert commands[..i + 1][..i] == commands[..i];
  }

  /** A batch issues exactly its commands, in list order and nothing else,
      and answer i is the oracle's answer to command i. */
  lemma {:induction false} ExecAllInOrder(t: Target, o: Oracle, log: seq<Invocation>, commands: seq<string>, timeout: nat)
    ensures var s := ExecAll(t, o, log, commands, timeout);
      |s.log| == |log| + |commands| && s.log[..|log|] == log
      && forall i :: 0 <= i < |commands| ==>
           s.log[|log| + i] == Invocation(Wrap(t, commands[i]), timeout)
           && s.value[i] == o(Wrap(t, commands[i]), timeout, |log| + i)
    decreases |commands|
  {
    if commands != [] {
      var init := commands[..|commands| - 1];
      ExecAllInOrder(t, o, log, init, timeout);
      var s := ExecAll(t, o, log, commands, timeout);
      var prev := ExecAll(t, o, log, init, timeout);
      forall i | 0 <= i < |commands|
        ensures s.log[|log| + i] == Invocation(Wrap(t, commands[i]), timeout)
        ensures s.value[i] == o(Wrap(t, commands[i]), timeout, |log| + i)
      {
        if i < |commands| - 1 {
          assert commands[i] == init[i];
          assert s.log[|log| + i] == prev.log[|log| + i];
          assert s.value[i] == prev.value[i];
        }
      }
    }
  }

  /** The test every probe applies: a result exists and its stripped
      standard output is non-empty. A timeout is an ordinary `false`. */
  predicate Alive(r: Option<CommandResult>) {
    r.Some? && Strip(r.value.stdout) != []
  }

  lemma AliveIff(r: Option<CommandResult>)
    ensures Alive(r) <==> r.Some? && exists i :: 0 <= i < |r.value.stdout| && !IsSpace(r.value.stdout[i])
  {
    if r.Some? {
      StripEmptyIffAllSpace(r.value.stdout);
    }
  }

  // Long command texts are written as concatenations of short literals.
  const LAB_PROBE := "docker ps --filter 'name=clab-galactic'" + " --format '{{.Names}}'"
  const MQTT_PROBE := "pgrep -x mosquitto || docker ps" + " --filter 'name=mqtt'" + " --format '{{.Names}}'"
                    + " | grep -q mqtt && echo 'running'"
  const AGENT_PROBE := "pgrep -f galactic-agent"

  /** A liveness probe: one command with the default timeout, judged by `Alive`. */
  function Probe(t: Target, o: Oracle, log: seq<Invocation>, command: string): (s: Step<bool>)
    ensures s.log == log + [Invocation(Wrap(t, command), DEFAULT_TIMEOUT)]
    ensures s.value <==> Alive(o(Wrap(t, command), DEFAULT_TIMEOUT, |log|))
  {
    var r := Exec(t, o, log, command, DEFAULT_TIMEOUT);
    Step(Alive(r.value), r.log)
  }

  /** `check_lab_running`: are the lab containers listed? */
  function LabProbe(t: Target, o: Oracle, log: seq<Invocation>): Step<bool> {
    Probe(t, o, log, LAB_PROBE)
  }

  /** `check_mqtt_running`: is the broker up (service or container)? */
  function MqttProbe(t: Target, o: Oracle, log: seq<Invocation>): Step<bool> {
    Probe(t, o, log, MQTT_PROBE)
  }

  /** `check_agent_running`: is a galactic-agent process present? */
  function AgentProbe(t: Target, o: Oracle, log: seq<Invocation>): Step<bool> {
    Probe(t, o, log, AGENT_PROBE)
  }

  /** A probe is false on a timeout and on output that is only whitespace,
      whatever the exit status. */
  lemma ProbeFalseCases(t: Target, o: Oracle, log: seq<Invocation>, command: string)
    ensures o(Wrap(t, command), DEFAULT_TIMEOUT, |log|).None? ==> !Probe(t, o, log, command).value
    ensures var r := o(Wrap(t, command), DEFAULT_TIMEOUT, |log|);
      r.Some? && AllSpace(r.value.stdout) ==> !Probe(t, o, log, command).value
  {
    var r := o(Wrap(t, command), DEFAULT_TIMEOUT, |log|);
    if r.Some? { StripEmptyIffAllSpace(r.value.stdout); }
  }
}
