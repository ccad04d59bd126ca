/** The demo runner of run_lab_demo.py as the stateful program it is: every
    command goes through `RunWsl`, which consults the environment and grows
    the command log; the report is written into a file table. Each method is
    proved to leave exactly the log (and files) its specification function
    in Bridge, Connectivity or Lifecycle describes, so everything proved
    about those functions holds of the methods. */
module Harness {
  import opened Text
  import opened Bridge
  import opened TestReport
  import opened Connectivity
  import opened Lifecycle

  class LabHarness {
    /** Inside WSL or on the Windows host, fixed at start-up. */
    const target: Target
    /** The outside world: answers each wrapped command, or times out. */
    const oracle: Oracle
    /** Every command issued so far, wrapped, with its timeout. */
    var log: seq<Invocation>
    /** Files written, by name. */
    var files: map<string, string>

    constructor (target: Target, oracle: Oracle)
      ensures this.target == target && this.oracle == oracle
      ensures log == [] && files == map[]
    {
      this.target := target;
      this.oracle := oracle;
      log := [];
      files := map[];
    }

    /** `run_wsl`: wrap, run with a timeout, record. */
    method RunWsl(command: string, timeout: nat) returns (r: Option<CommandResult>)
      modifies this
      ensures r == Exec(target, oracle, old(log), command, timeout).value
      ensures log == Exec(target, oracle, old(log), command, timeout).log
      ensures files == old(files)
    {
      var full := match target
        case InsideWsl => "bash -c \"" + command + "\""
        case ViaWsl(distro) => "wsl -d " + distro + " -- bash -c \"" + command + "\"";
      r := oracle(full, timeout, |log|);
      log := log + [Invocation(full, timeout)];
    }

    method Probe(command: string) returns (alive: bool)
      modifies this
      ensures alive == Bridge.Probe(target, oracle, old(log), command).value
      ensures log == Bridge.Probe(target, oracle, old(log), command).log
      ensures files == old(files)
    {
      var r := RunWsl(command, DEFAULT_TIMEOUT);
      alive := r.Some? && Strip(r.value.stdout) != [];
    }

    method CheckLabRunning() returns (running: bool)
      modifies this
      ensures running == LabProbe(target, oracle, old(log)).value
      ensures log == LabProbe(target, oracle, old(log)).log && files == old(files)
    {
      running := Probe(LAB_PROBE);
    }

    method CheckMqttRunning() returns (running: bool)
      modifies this
      ensures running == MqttProbe(target, oracle, old(log)).value
      ensures log == MqttProbe(target, oracle, old(log)).log && files == old(files)
    {
      running := Probe(MQTT_PROBE);
    }

    method CheckAgentRunning() returns (running: bool)
      modifies this
      ensures running == AgentProbe(target, oracle, old(log)).value
      ensures log == AgentProbe(target, oracle, old(log)).log && files == old(files)
    {
      running := Probe(AGENT_PROBE);
    }

    method StartLab() returns (ok: bool)
      modifies this
      ensures ok == Lifecycle.StartLab(target, oracle, old(log)).value
      ensures log == Lifecycle.StartLab(target, oracle, old(log)).log && files == old(files)
    {
      var running := CheckLabRunning();
      if running {
        return true;
      }
      var status := RunWsl(DOCKER_STATUS, DEFAULT_TIMEOUT);
      if status.Some? && Contains(status.value.stdout, DOCKER_STOPPED) {
        var _ := RunWsl(DOCKER_START, DEFAULT_TIMEOUT);
      }
      var up := RunWsl(NETLAB_UP, UP_TIMEOUT);
      if !(up.Some? && up.value.returncode == 0) {
        return false;
      }
      var _ := RunWsl(ISIS_SJC, DEFAULT_TIMEOUT);
      ok := true;
    }

    method StopLab() returns (ok: bool)
      modifies this
      ensures ok == Lifecycle.StopLab(target, oracle, old(log)).value
      ensures log == Lifecycle.StopLab(target, oracle, old(log)).log && files == old(files)
    {
      var running := CheckLabRunning();
      if running {
        var _ := RunWsl(NETLAB_DOWN, DOWN_TIMEOUT);
      }
      ok := true;
    }

    method CheckStatus() returns (report: StatusReport)
      modifies this
      ensures report == Lifecycle.CheckStatus(target, oracle, old(log)).value
      ensures log == Lifecycle.CheckStatus(target, oracle, old(log)).log && files == old(files)
    {
      var c := RunWsl(CONTAINERS, DEFAULT_TIMEOUT);
      if !(c.Some? && Strip(c.value.stdout) != []) {
        return StatusReport(false, [], false);
      }
      var _ := RunWsl(BRIDGES, DEFAULT_TIMEOUT);
      var cmds := IsisCommands(NODES);
      ghost var start := log;
      var counts: seq<Option<nat>> := [];
      for i := 0 to |NODES|
        invariant log == ExecAll(target, oracle, start, cmds[..i], DEFAULT_TIMEOUT).log
        invariant counts == NeighborCounts(ExecAll(target, oracle, start, cmds[..i], DEFAULT_TIMEOUT).value)
        invariant files == old(files)
      {
        ExecAllSnoc(target, oracle, start, cmds, i, DEFAULT_TIMEOUT);
        var r := RunWsl(IsisCommand(NODES[i]), DEFAULT_TIMEOUT);
        NeighborCountsSnoc(ExecAll(target, oracle, start, cmds[..i], DEFAULT_TIMEOUT).value, r);
        if r.Some? && r.value.stdout != [] {
          counts := counts + [Some(Count(r.value.stdout, "Up"))];
        } else {
          counts := counts + [None];
        }
      }
      assert cmds[..|NODES|] == cmds;
      var l := RunWsl(LOCATORS, DEFAULT_TIMEOUT);
      report := StatusReport(true, counts, l.Some? && l.value.stdout != [] && Contains(l.value.stdout, LOCATOR_MARKER));
    }

    /** `write_test_results_to_file`: the head, one block per record in
        list order, then the closing summary. */
    method WriteTestResultsToFile(filename: string, timestamp: string, explanation: string,
                                  records: seq<TestRecord>, status: string, passed: nat, total: nat)
      modifies this
      ensures files == old(files)[filename := Report(timestamp, explanation, records, status, passed, total)]
      ensures log == old(log)
    {
      var head := ReportHead(timestamp, explanation, status, passed, total);
      var content := head;
      for k := 0 to |records|
        invariant content == head + Blocks(records[..k])
        invariant log == old(log) && files == old(files)
      {
        BlocksSnoc(records, k);
        Associate(head, Blocks(records[..k]), Block(records[k]));
        content := content + Block(records[k]);
      }
      assert records[..|records|] == records;
      content := content + ReportTail(status, passed, total);
      files := files[filename := content];
    }

    /** The test loop of `run_connectivity_tests`: one ping per test in
        declaration order, one record per ping, counting the passes. */
    method PingAll(cases: seq<PingCase>) returns (records: seq<TestRecord>, passed: nat, ok: bool)
      modifies this
      ensures var run := Pings(target, oracle, old(log), cases);
        log == run.log && records == Records(cases, run.value)
        && passed == CountPassed(records) && (ok <==> AllPassed(records))
      ensures files == old(files)
    {
      var cmds := PingCommands(cases);
      ghost var start := log;
      ghost var answers: seq<Option<CommandResult>> := [];
      records := [];
      for i := 0 to |cases|
        invariant |answers| == i
        invariant ExecAll(target, oracle, start, cmds[..i], PING_TIMEOUT) == Step(answers, log)
        invariant records == Records(cases[..i], answers)
        invariant files == old(files)
      {
        ExecAllSnoc(target, oracle, start, cmds, i, PING_TIMEOUT);
        var r := RunWsl(cmds[i], PING_TIMEOUT);
        RecordsSnoc(cases, answers, i, r);
        answers := answers + [r];
        records := records + [RecordOf(i + 1, cases[i], r)];
      }
      assert cmds[..|cases|] == cmds;
      assert cases[..|cases|] == cases;
      passed := CountPassed(records);
      ok := AllPassed(records);
    }

    /** `run_connectivity_tests`: fail fast, run the tests, write the
        report, return `all(results)`. */
    method RunConnectivityTests(timestamp: string, explanation: string) returns (ok: bool)
      modifies this
      ensures var spec := Connectivity.RunConnectivityTests(target, oracle, old(log), timestamp, explanation);
        ok == spec.value.allPassed && log == spec.log
        && files == if spec.value.report.Some? then old(files)[RESULTS_FILE := spec.value.report.value] else old(files)
    {
      var running := CheckLabRunning();
      if !running {
        return false;
      }
      var records, passed;
      records, passed, ok := PingAll(TESTS);
      WriteTestResultsToFile(RESULTS_FILE, timestamp, explanation, records, SummaryStatus(passed, |records|),
                             passed, |records|);
    }

    method TestMqttInjection(answer: string) returns (ok: bool)
      modifies this
      ensures ok == MqttInjection(target, oracle, old(log), answer).value
      ensures log == MqttInjection(target, oracle, old(log), answer).log && files == old(files)
    {
      var running := CheckLabRunning();
      if !running {
        return false;
      }
      var broker := RunWsl(BROKER_PGREP, DEFAULT_TIMEOUT);
      if !(broker.Some? && Strip(broker.value.stdout) != []) {
        var _ := RunWsl(BROKER_START, DEFAULT_TIMEOUT);
      }
      var agent := CheckAgentRunning();
      if !agent && Lower(answer) != "y" {
        return false;
      }
      var _ := RunWsl(INJECT, INJECT_TIMEOUT);
      var _ := RunWsl(ROUTES, DEFAULT_TIMEOUT);
      ok := true;
    }

    method ShowTopology() returns (services: Services)
      modifies this
      ensures services == Lifecycle.ShowTopology(target, oracle, old(log)).value
      ensures log == Lifecycle.ShowTopology(target, oracle, old(log)).log && files == old(files)
    {
      var broker := CheckMqttRunning();
      var agent := CheckAgentRunning();
      services := Services(broker, agent);
    }

    method RunFullDemo(env: Inputs)
      modifies this
      ensures log == FullDemoRun(target, oracle, old(log), env).log
      ensures var written := FullDemoRun(target, oracle, old(log), env).value;
        files == if written.Some? then old(files)[RESULTS_FILE := written.value] else old(files)
    {
      var _ := ShowTopology();
      var _ := StartLab();
      var _ := CheckStatus();
      var _ := RunConnectivityTests(env.timestamp, env.explanation);
      var _ := TestMqttInjection(env.answer);
    }

    /** `main`: run the one action the flags select. */
    method RunCommandLine(flags: Flags, env: Inputs)
      modifies this
      ensures log == RunAction(Dispatch(flags), target, oracle, old(log), env).log
      ensures var written := RunAction(Dispatch(flags), target, oracle, old(log), env).value;
        files == if written.Some? then old(files)[RESULTS_FILE := written.value] else old(files)
    {
      if flags.start {
        var _ := StartLab();
      } else if flags.stop {
        var _ := StopLab();
      } else if flags.status {
        var _ := CheckStatus();
      } else if flags.test {
        var _ := RunConnectivityTests(env.timestamp, env.explanation);
      } else if flags.mqtt {
        var _ := TestMqttInjection(env.answer);
      } else if flags.topology {
        var _ := ShowTopology();
      } else if flags.shell {
        // the interactive shell runs outside run_wsl
      } else {
        RunFullDemo(env);
      }
    }
  }
}
