/** The connectivity test runner (`run_connectivity_tests` in
    run_lab_demo.py): a fail-fast check that the lab is up, then five pings
    in declaration order, each classified by exit status and the literal
    "0% packet loss" marker, then the summary and the report. */
module Connectivity {
  import opened Text
  import opened Bridge
  import opened TestReport

  const PING_TIMEOUT: nat := 30
  const LOSS_MARKER := "0% packet loss"
  const NO_RESPONSE := "No response"
  const RESULTS_FILE := "test_results.txt"

  /** One declared test: (name, source node, target address, description). */
  datatype PingCase = PingCase(name: string, node: string, target: string, description: string)

  /** The five tests, in the order they are declared and run. */
  const TESTS: seq<PingCase> := [
    PingCase("SJC → IAD", "sjc", NODES[1].loopback, "San Jose to N. Virginia via ISIS"),
    PingCase("SJC → AMS", "sjc", NODES[2].loopback, "San Jose to Amsterdam via ISIS"),
    PingCase("IAD → SJC", "iad", NODES[0].loopback, "N. Virginia to San Jose via ISIS"),
    PingCase("IAD → AMS", "iad", NODES[2].loopback, "N. Virginia to Amsterdam via ISIS"),
    PingCase("AMS → SJC", "ams", NODES[0].loopback, "Amsterdam to San Jose via ISIS")
  ]

  /** `full_cmd`: the ping run inside the source node's container. */
  function PingCommand(c: PingCase): string {
    CONTAINER_PREFIX + c.node + " " + "ping -c 2 " + c.target
  }

  /** A test passes iff a result exists, its exit status is 0 and its output
      contains "0% packet loss" (a substring of "50% packet loss" too). */
  function Classify(r: Option<CommandResult>): Verdict {
    if r.Some? && r.value.returncode == 0 && Contains(r.value.stdout, LOSS_MARKER) then Passed else Failed
  }

  /** `output_msg`: the marker for a pass, otherwise what the ping printed. */
  function OutputMessage(r: Option<CommandResult>): string {
    if Classify(r) == Passed then LOSS_MARKER
    else if r.Some? && r.value.stdout != [] then Slice(r.value.stdout, 0, 100)
    else NO_RESPONSE
  }

  /** The message is the marker for a pass; for a failure it is the first
      100 characters of the output, or "No response" when there is none. */
  lemma OutputMessageCases(r: Option<CommandResult>)
    ensures var m := OutputMessage(r);
      (Classify(r) == Passed ==> m == LOSS_MARKER)
      && (Classify(r) == Failed && r.Some? && r.value.stdout != [] ==>
            |m| == (if |r.value.stdout| < 100 then |r.value.stdout| else 100) && IsPrefix(m, r.value.stdout))
      && (Classify(r) == Failed && (r.None? || r.value.stdout == []) ==> m == NO_RESPONSE)
  {
  }

  function RecordOf(number: nat, c: PingCase, r: Option<CommandResult>): TestRecord {
    TestRecord(number, c.name, PingCommand(c), c.description, OutputMessage(r), Classify(r))
  }

  /** The commands of a batch of tests, in order. */
  function PingCommands(cases: seq<PingCase>): (cs: seq<string>)
    ensures |cs| == |cases| && forall i :: 0 <= i < |cases| ==> cs[i] == PingCommand(cases[i])
  {
    seq(|cases|, i requires 0 <= i < |cases| => PingCommand(cases[i]))
  }

  /** Command i runs in the container of test i's source node and ends by
      pinging test i's target twice. */
  lemma PingCommandShape(cases: seq<PingCase>, i: nat)
    requires i < |cases|
    ensures var cmd := PingCommands(cases)[i];
      var tail := " ping -c 2 " + cases[i].target;
      IsPrefix(CONTAINER_PREFIX + cases[i].node, cmd)
      && |tail| <= |cmd| && cmd[|cmd| - |tail|..] == tail
  {
    var cmd := PingCommands(cases)[i];
    var head := CONTAINER_PREFIX + cases[i].node;
    var tail := " ping -c 2 " + cases[i].target;
    assert cmd == head + tail;
  }

  /** Every declared test runs in one lab node's container and pings the
      loopback of a different lab node. */
  lemma TestsPingOtherNodes()
    ensures forall i :: 0 <= i < |TESTS| ==>
      exists j, k :: 0 <= j < |NODES| && 0 <= k < |NODES| && j != k
                     && TESTS[i].node == NODES[j].id && TESTS[i].target == NODES[k].loopback
  {
    assert TESTS[0].node == NODES[0].id && TESTS[0].target == NODES[1].loopback;
    assert TESTS[1].node == NODES[0].id && TESTS[1].target == NODES[2].loopback;
    assert TESTS[2].node == NODES[1].id && TESTS[2].target == NODES[0].loopback;
    assert TESTS[3].node == NODES[1].id && TESTS[3].target == NODES[2].loopback;
    assert TESTS[4].node == NODES[2].id && TESTS[4].target == NODES[0].loopback;
  }

  /** The loop over the tests: one ping each, in order. */
  function Pings(t: Target, o: Oracle, log: seq<Invocation>, cases: seq<PingCase>): (s: Step<seq<Option<CommandResult>>>)
    ensures |s.value| == |cases|
  {
    ExecAll(t, o, log, PingCommands(cases), PING_TIMEOUT)
  }

  /** The records of a run: test i, numbered i + 1, judged on answer i. */
  function Records(cases: seq<PingCase>, answers: seq<Option<CommandResult>>): (rs: seq<TestRecord>)
    requires |answers| == |cases|
    ensures |rs| == |cases| && forall i :: 0 <= i < |cases| ==> rs[i] == RecordOf(i + 1, cases[i], answers[i])
  {
    seq(|cases|, i requires 0 <= i < |cases| => RecordOf(i + 1, cases[i], answers[i]))
  }

  /** Record i is numbered i + 1 and carries test i's name, command and
      description; it passes exactly when answer i arrived with exit status 0
      and an output containing "0% packet loss"; a failed record keeps the
      start of the output, or "No response" when there was none. */
  lemma RecordMeaning(cases: seq<PingCase>, answers: seq<Option<CommandResult>>, i: nat)
    requires |answers| == |cases| && i < |cases|
    ensures var rec := Records(cases, answers)[i];
      var r := answers[i];
      rec.number == i + 1 && rec.name == cases[i].name
      && rec.input == PingCommand(cases[i]) && rec.reason == cases[i].description
      && (rec.status == Passed <==> r.Some? && r.value.returncode == 0 && Contains(r.value.stdout, LOSS_MARKER))
      && (rec.status == Passed ==> rec.output == LOSS_MARKER)
      && (rec.status == Failed && r.Some? && r.value.stdout != [] ==>
            |rec.output| == (if |r.value.stdout| < 100 then |r.value.stdout| else 100)
            && IsPrefix(rec.output, r.value.stdout))
      && (rec.status == Failed && (r.None? || r.value.stdout == []) ==> rec.output == NO_RESPONSE)
  {
    OutputMessageCases(answers[i]);
  }

  /** One more test and its answer add one record at the end. */
  lemma RecordsSnoc(cases: seq<PingCase>, answers: seq<Option<CommandResult>>, i: nat, r: Option<CommandResult>)
    requires i < |cases| && |answers| == i
    ensures Records(cases[..i + 1], answers + [r]) == Records(cases[..i], answers) + [RecordOf(i + 1, cases[i], r)]
  {
    var lhs := Records(cases[..i + 1], answers + [r]);
    var rhs := Records(cases[..i], answers) + [RecordOf(i + 1, cases[i], r)];
    forall j | 0 <= j < i + 1 ensures lhs[j] == rhs[j] {
      if j < i {
        assert (answers + [r])[j] == answers[j];
      }
    }
  }

  /** What one run returns: `all(results)`, the records, and the report text
      (absent when the run stopped at the precondition). */
  datatype TestRun = TestRun(allPassed: bool, records: seq<TestRecord>, report: Option<string>)

  function RunConnectivityTests(t: Target, o: Oracle, log: seq<Invocation>, timestamp: string,
                                explanation: string): Step<TestRun>
  {
    var p := LabProbe(t, o, log);
    if !p.value then Step(TestRun(false, [], None), p.log)
    else
      var run := Pings(t, o, p.log, TESTS);
      var records := Records(TESTS, run.value);
      var passed, total := CountPassed(records), |records|;
      var status := SummaryStatus(passed, total);
      Step(TestRun(AllPassed(records), records,
                   Some(Report(timestamp, explanation, records, status, passed, total))),
           run.log)
  }

  /** With the lab down the runner fails at once: only the probe is issued,
      no ping, and no report is written. */
  lemma TestsFailFast(t: Target, o: Oracle, log: seq<Invocation>, timestamp: string, explanation: string)
    requires !LabProbe(t, o, log).value
    ensures RunConnectivityTests(t, o, log, timestamp, explanation)
         == Step(TestRun(false, [], None), log + [Invocation(Wrap(t, LAB_PROBE), DEFAULT_TIMEOUT)])
  {
  }

  /** With the lab up the runner issues exactly the five pings after the
      probe, in declaration order; record i is test i numbered i + 1; the
      result is true iff all five passed; the report is written from these
      records with the matching summary. */
  lemma TestsRunAll(t: Target, o: Oracle, log: seq<Invocation>, timestamp: string, explanation: string)
    requires LabProbe(t, o, log).value
    ensures var s := RunConnectivityTests(t, o, log, timestamp, explanation);
      var rs := s.value.records;
      var passed := CountPassed(rs);
      |s.log| == |log| + 1 + |TESTS| && s.log[..|log|] == log
      && s.log[|log|] == Invocation(Wrap(t, LAB_PROBE), DEFAULT_TIMEOUT)
      && |rs| == |TESTS|
      && (forall i :: 0 <= i < |TESTS| ==>
            s.log[|log| + 1 + i] == Invocation(Wrap(t, PingCommand(TESTS[i])), PING_TIMEOUT)
            && rs[i] == RecordOf(i + 1, TESTS[i], o(Wrap(t, PingCommand(TESTS[i])), PING_TIMEOUT, |log| + 1 + i)))
      && (s.value.allPassed <==> passed == |TESTS|)
      && s.value.report == Some(Report(timestamp, explanation, rs, SummaryStatus(passed, |TESTS|), passed, |TESTS|))
  {
    TestsRunFrame(t, o, log, timestamp, explanation);
    var s := RunConnectivityTests(t, o, log, timestamp, explanation);
    forall i | 0 <= i < |TESTS|
      ensures s.log[|log| + 1 + i] == Invocation(Wrap(t, PingCommand(TESTS[i])), PING_TIMEOUT)
      ensures s.value.records[i] == RecordOf(i + 1, TESTS[i], o(Wrap(t, PingCommand(TESTS[i])), PING_TIMEOUT, |log| + 1 + i))
    {
      TestsRunPing(t, o, log, timestamp, explanation, i);
    }
  }

  /** Ping `i` of a run with the lab up: its place in the log and its record. */
  lemma TestsRunPing(t: Target, o: Oracle, log: seq<Invocation>, timestamp: string, explanation: string, i: nat)
    requires LabProbe(t, o, log).value && i < |TESTS|
    ensures var s := RunConnectivityTests(t, o, log, timestamp, explanation);
      |s.log| == |log| + 1 + |TESTS| && |s.value.records| == |TESTS|
      && s.log[|log| + 1 + i] == Invocation(Wrap(t, PingCommand(TESTS[i])), PING_TIMEOUT)
      && s.value.records[i] == RecordOf(i + 1, TESTS[i], o(Wrap(t, PingCommand(TESTS[i])), PING_TIMEOUT, |log| + 1 + i))
  {
    var start := log + [Invocation(Wrap(t, LAB_PROBE), DEFAULT_TIMEOUT)];
    TestsUnfold(t, o, log, timestamp, explanation);
    PingsInOrder(t, o, start, TESTS);
  }

  /** Past a live probe, the run's log and records are those of the pings. */
  lemma TestsUnfold(t: Target, o: Oracle, log: seq<Invocation>, timestamp: string, explanation: string)
    requires LabProbe(t, o, log).value
    ensures var run := Pings(t, o, log + [Invocation(Wrap(t, LAB_PROBE), DEFAULT_TIMEOUT)], TESTS);
      var s := RunConnectivityTests(t, o, log, timestamp, explanation);
      s.log == run.log && s.value.records == Records(TESTS, run.value)
  {
  }

  /** The probe, the length of the run and the summary of a run with the
      lab up. */
  lemma TestsRunFrame(t: Target, o: Oracle, log: seq<Invocation>, timestamp: string, explanation: string)
    requires LabProbe(t, o, log).value
    ensures var s := RunConnectivityTests(t, o, log, timestamp, explanation);
      var rs := s.value.records;
      var passed := CountPassed(rs);
      |s.log| == |log| + 1 + |TESTS| && s.log[..|log|] == log
      && s.log[|log|] == Invocation(Wrap(t, LAB_PROBE), DEFAULT_TIMEOUT)
      && |rs| == |TESTS|
      && (s.value.allPassed <==> passed == |TESTS|)
      && s.value.report == Some(Report(timestamp, explanation, rs, SummaryStatus(passed, |TESTS|), passed, |TESTS|))
  {
    var p := LabProbe(t, o, log);
    PingsInOrder(t, o, p.log, TESTS);
    var run := Pings(t, o, p.log, TESTS);
    AllPassedIffCount(Records(TESTS, run.value));
    assert run.log[..|p.log|] == p.log;
    assert run.log[..|log|] == p.log[..|log|];
    assert run.log[|log|] == p.log[|log|];
  }

  /** Any batch of tests: ping i is the i-th command after the earlier
      ones, and record i is judged on its own answer. */
  lemma PingsInOrder(t: Target, o: Oracle, start: seq<Invocation>, cases: seq<PingCase>)
    ensures var run := Pings(t, o, start, cases);
      var rs := Records(cases, run.value);
      |run.log| == |start| + |cases| && run.log[..|start|] == start
      && forall i :: 0 <= i < |cases| ==>
           run.log[|start| + i] == Invocation(Wrap(t, PingCommand(cases[i])), PING_TIMEOUT)
           && rs[i] == RecordOf(i + 1, cases[i], o(Wrap(t, PingCommand(cases[i])), PING_TIMEOUT, |start| + i))
  {
    var cmds := PingCommands(cases);
    ExecAllInOrder(t, o, start, cmds, PING_TIMEOUT);
    var run := Pings(t, o, start, cases);
    forall i | 0 <= i < |cases|
      ensures run.log[|start| + i] == Invocation(Wrap(t, PingCommand(cases[i])), PING_TIMEOUT)
      ensures run.value[i] == o(Wrap(t, PingCommand(cases[i])), PING_TIMEOUT, |start| + i)
    {
      assert cmds[i] == PingCommand(cases[i]);
    }
  }

  /** Reference reading of the classifier: a pass is exactly a completed
      ping with exit status 0 whose output has the marker at some position. */
  lemma ClassifyIff(r: Option<CommandResult>)
    ensures Classify(r) == Passed <==>
      r.Some? && r.value.returncode == 0 && exists i :: OccursAt(r.value.stdout, LOSS_MARKER, i)
  {
    if r.Some? { ContainsIffOccurs(r.value.stdout, LOSS_MARKER); }
  }

  /** Any output carrying the marker is judged by the exit status alone. */
  lemma ClassifyMarker(rc: int, before: string, after: string, err: string)
    ensures Classify(Some(CommandResult(rc, before + LOSS_MARKER + after, err))) == if rc == 0 then Passed else Failed
  {
    ContainsInfix(before, LOSS_MARKER, after);
  }

  /** A ping that lost half its packets but exited with status 0 is judged
      a pass, because "50% packet loss" contains "0% packet loss". */
  lemma HalfLossPasses(before: string, after: string, err: string)
    ensures Classify(Some(CommandResult(0, before + "50% packet loss" + after, err))) == Passed
  {
    assert "50% packet loss" == "5" + LOSS_MARKER;
    assert before + "50% packet loss" + after == (before + "5") + LOSS_MARKER + after;
    ClassifyMarker(0, before + "5", after, err);
  }

  const HEALTHY_PREFIX := "2 packets transmitted, 2 received, "
  const HEALTHY_OUTPUT := HEALTHY_PREFIX + LOSS_MARKER

  /** Every command answers at once with exit status 0 and a clean ping
      summary (which also makes the lab probe's output non-empty). */
  function Healthy(): Oracle {
    (command: string, timeout: nat, n: nat) => Some(CommandResult(0, HEALTHY_OUTPUT, ""))
  }

  /** As `Healthy`, except that the AMS → SJC ping times out. */
  function AmsTimesOut(t: Target): Oracle {
    (command: string, timeout: nat, n: nat) =>
      if command == Wrap(t, PingCommand(TESTS[4])) then None else Some(CommandResult(0, HEALTHY_OUTPUT, ""))
  }

  lemma HealthyAnswers()
    ensures Alive(Some(CommandResult(0, HEALTHY_OUTPUT, "")))
    ensures Classify(Some(CommandResult(0, HEALTHY_OUTPUT, ""))) == Passed
  {
    ClassifyMarker(0, HEALTHY_PREFIX, "", "");
    assert HEALTHY_PREFIX + LOSS_MARKER + "" == HEALTHY_OUTPUT;
    AliveIff(Some(CommandResult(0, HEALTHY_OUTPUT, "")));
    assert HEALTHY_OUTPUT[0] == HEALTHY_PREFIX[0] == '2';
  }

  /** Five succeeding pings: the runner returns true, every record passed,
      and the report reads "Summary:   ALL PASSED (5/5 tests)". */
  lemma AllPassScenario(t: Target, timestamp: string, explanation: string)
    ensures var s := RunConnectivityTests(t, Healthy(), [], timestamp, explanation);
      s.value.allPassed && CountPassed(s.value.records) == 5
      && s.value.report.Some? && Contains(s.value.report.value, "Summary:   ALL PASSED (5/5 tests)")
  {
    HealthyAnswers();
    assert LabProbe(t, Healthy(), []).value;
    RunSummary(t, Healthy(), [], timestamp, explanation);
    HealthyCount(t, timestamp, explanation);
    SummaryLineAllPassed();
  }

  /** With the lab up, the run's result and its report's summary line
      follow from the pass count. */
  lemma RunSummary(t: Target, o: Oracle, log: seq<Invocation>, timestamp: string, explanation: string)
    requires LabProbe(t, o, log).value
    ensures var s := RunConnectivityTests(t, o, log, timestamp, explanation);
      var passed := CountPassed(s.value.records);
      (s.value.allPassed <==> passed == |TESTS|)
      && s.value.report.Some?
      && Contains(s.value.report.value, SummaryLine(SummaryStatus(passed, |TESTS|), passed, |TESTS|))
  {
    TestsRunFrame(t, o, log, timestamp, explanation);
    var rs := RunConnectivityTests(t, o, log, timestamp, explanation).value.records;
    var passed := CountPassed(rs);
    ReportHasSummary(timestamp, explanation, rs, SummaryStatus(passed, |TESTS|), passed, |TESTS|);
  }

  /** Under `Healthy` all five records pass. */
  lemma HealthyCount(t: Target, timestamp: string, explanation: string)
    ensures CountPassed(RunConnectivityTests(t, Healthy(), [], timestamp, explanation).value.records) == 5
  {
    var o := Healthy();
    HealthyAnswers();
    assert LabProbe(t, o, []).value;
    TestsRunFrame(t, o, [], timestamp, explanation);
    var rs := RunConnectivityTests(t, o, [], timestamp, explanation).value.records;
    assert AllPassed(rs) by {
      forall i | 0 <= i < |rs| ensures rs[i].status == Passed {
        TestsRunPing(t, o, [], timestamp, explanation, i);
      }
    }
    AllPassedIffCount(rs);
  }

  lemma ProbeIsNoPing(c: PingCase)
    ensures LAB_PROBE != PingCommand(c)
  {
    var p := CONTAINER_PREFIX;
    assert PingCommand(c) == p + (c.node + " " + "ping -c 2 " + c.target);
    assert PingCommand(c)[7] == p[7] == 'e';
    assert LAB_PROBE[7] == 'p';
  }

  /** A ping command shows its source node's first letter right after the
      container prefix, and ends with its target's last character. */
  lemma PingCommandKey(c: PingCase)
    requires |c.node| > 0 && |c.target| > 0
    ensures var cmd := PingCommand(c);
      cmd[|CONTAINER_PREFIX|] == c.node[0] && cmd[|cmd| - 1] == c.target[|c.target| - 1]
  {
    assert PingCommand(c) == CONTAINER_PREFIX + (c.node + " " + "ping -c 2 ") + c.target;
  }

  /** The five pings are five different command lines, for either target. */
  lemma PingCommandsDistinct(t: Target)
    ensures forall i, j :: 0 <= i < j < |TESTS| ==> Wrap(t, PingCommand(TESTS[i])) != Wrap(t, PingCommand(TESTS[j]))
  {
    forall i, j | 0 <= i < j < |TESTS| ensures Wrap(t, PingCommand(TESTS[i])) != Wrap(t, PingCommand(TESTS[j])) {
      WrapInjective(t, PingCommand(TESTS[i]), PingCommand(TESTS[j]));
      PingCommandKey(TESTS[i]);
      PingCommandKey(TESTS[j]);
    }
  }

  /** The AMS → SJC ping times out: the runner returns false, four records
      passed, that record's output is "No response", and the report reads
      "Summary:   4/5 PASSED (4/5 tests)". */
  lemma PartialFailureScenario(t: Target, timestamp: string, explanation: string)
    ensures var s := RunConnectivityTests(t, AmsTimesOut(t), [], timestamp, explanation);
      !s.value.allPassed && CountPassed(s.value.records) == 4
      && s.value.records[4].status == Failed && s.value.records[4].output == NO_RESPONSE
      && s.value.report.Some? && Contains(s.value.report.value, "Summary:   4/5 PASSED (4/5 tests)")
  {
    AmsProbeLive(t);
    RunSummary(t, AmsTimesOut(t), [], timestamp, explanation);
    AmsCount(t, timestamp, explanation);
    AmsRecord(t, timestamp, explanation, 4);
    SummaryLineFourOfFive();
  }

  /** Under `AmsTimesOut` four records pass. */
  lemma AmsCount(t: Target, timestamp: string, explanation: string)
    ensures CountPassed(RunConnectivityTests(t, AmsTimesOut(t), [], timestamp, explanation).value.records) == 4
  {
    var rs := RunConnectivityTests(t, AmsTimesOut(t), [], timestamp, explanation).value.records;
    AmsRecord(t, timestamp, explanation, 4);
    forall i | 0 <= i < |rs| - 1 ensures rs[i].status == Passed {
      AmsRecord(t, timestamp, explanation, i);
    }
    LastFailed(rs);
  }

  /** Under `AmsTimesOut` the lab probe answers. */
  lemma AmsProbeLive(t: Target)
    ensures LabProbe(t, AmsTimesOut(t), []).value
  {
    HealthyAnswers();
    WrapInjective(t, LAB_PROBE, PingCommand(TESTS[4]));
    ProbeIsNoPing(TESTS[4]);
    assert AmsTimesOut(t)(Wrap(t, LAB_PROBE), DEFAULT_TIMEOUT, 0) == Some(CommandResult(0, HEALTHY_OUTPUT, ""));
  }

  /** Under `AmsTimesOut` the first four records pass and the fifth is a
      failure without a response. */
  lemma AmsRecord(t: Target, timestamp: string, explanation: string, i: nat)
    requires i < 5
    ensures var rs := RunConnectivityTests(t, AmsTimesOut(t), [], timestamp, explanation).value.records;
      |rs| == 5
      && (i < 4 ==> rs[i].status == Passed)
      && (i == 4 ==> rs[i].status == Failed && rs[i].output == NO_RESPONSE)
  {
    var o := AmsTimesOut(t);
    AmsProbeLive(t);
    TestsRunPing(t, o, [], timestamp, explanation, i);
    if i < 4 {
      HealthyAnswers();
      PingCommandsDistinct(t);
      assert o(Wrap(t, PingCommand(TESTS[i])), PING_TIMEOUT, 1 + i) == Some(CommandResult(0, HEALTHY_OUTPUT, ""));
    } else {
      assert o(Wrap(t, PingCommand(TESTS[4])), PING_TIMEOUT, 5) == None;
    }
  }
}
