/** The lab lifecycle operations of run_lab_demo.py stated over the command
    log: `start_lab`, `stop_lab`, `check_status`, `test_mqtt_injection`,
    the service checks of `show_topology`, and the flag dispatch of `main`. */
module Lifecycle {
  import opened Text
  import opened Bridge
  import opened Connectivity

  const UP_TIMEOUT: nat := 180
  const DOWN_TIMEOUT: nat := 120
  const INJECT_TIMEOUT: nat := 30

  const DOCKER_STATUS := "sudo service docker status"
  const DOCKER_START := "sudo service docker start"
  const DOCKER_STOPPED := "is not running"
  const NETLAB_UP := "cd " + WSL_LAB_DIR + " && sudo netlab up"
  const NETLAB_DOWN := "cd " + WSL_LAB_DIR + " && sudo netlab down --cleanup"
  const ISIS_SJC := "docker exec clab-galactic_vpc-sjc" + " vtysh -c 'show isis neighbor'"

  const CONTAINERS := "docker ps --filter 'name=clab-galactic'" + " --format 'table " + "{{.Names}}\t{{.Status}}'"
  const BRIDGES := "brctl show | grep -E 'galactic|netlab'"
  const LOCATORS := "docker exec clab-galactic_vpc-sjc" + " vtysh -c 'show segment-routing" + " srv6 locator'"
  const LOCATOR_MARKER := "fc00"

  const BROKER_PGREP := "pgrep mosquitto"
  const BROKER_START := "sudo service mosquitto start"
  const INJECT := "cd " + WSL_LAB_DIR + " && /usr/local/go/bin/go run" + " test-mqtt-route.go"
  const ROUTES := "ip -6 route show | grep -E" + " '192.168.2|192.168.3|fc00'"

  function Call(t: Target, command: string, timeout: nat): Invocation {
    Invocation(Wrap(t, command), timeout)
  }

  // ---------------------------------------------------------------------
  // start_lab
  // ---------------------------------------------------------------------

  /** Docker is started only when its status output says "is not running". */
  function EnsureDocker(t: Target, o: Oracle, log: seq<Invocation>): Step<bool> {
    var st := Exec(t, o, log, DOCKER_STATUS, DEFAULT_TIMEOUT);
    if st.value.Some? && Contains(st.value.value.stdout, DOCKER_STOPPED)
    then Step(true, Exec(t, o, st.log, DOCKER_START, DEFAULT_TIMEOUT).log)
    else Step(false, st.log)
  }

  function StartLab(t: Target, o: Oracle, log: seq<Invocation>): Step<bool> {
    var p := LabProbe(t, o, log);
    if p.value then Step(true, p.log)
    else
      var d := EnsureDocker(t, o, p.log);
      var up := Exec(t, o, d.log, NETLAB_UP, UP_TIMEOUT);
      if !(up.value.Some? && up.value.value.returncode == 0) then Step(false, up.log)
      else Step(true, Exec(t, o, up.log, ISIS_SJC, DEFAULT_TIMEOUT).log)
  }

  /** What `start_lab` reports after a successful start: whether the SJC
      neighbor listing names IAD or AMS (`None` when it printed nothing). */
  function AdjacencyNotice(r: Option<CommandResult>): Option<bool> {
    if r.Some? && r.value.stdout != [] then
      Some(Contains(Lower(r.value.stdout), "iad") || Contains(Lower(r.value.stdout), "ams"))
    else None
  }

  /** A three-character window naming a peer, in any letter case. */
  predicate NamesPeer(w: string) {
    Lower(w) == "iad" || Lower(w) == "ams"
  }

  /** The window of `s` starting at `i` names a peer. */
  predicate PeerAt(s: string, i: int) {
    0 <= i && i + 3 <= |s| && NamesPeer(s[i..i + 3])
  }

  /** The window of `s` starting at `i` lowers to `sub`. */
  predicate LowersAt(s: string, sub: string, i: int) {
    0 <= i && i + |sub| <= |s| && Lower(s[i..i + |sub|]) == sub
  }

  /** Lower-casing commutes with slicing. */
  lemma LowerSlice(s: string, i: nat, j: nat)
    requires i <= j <= |s|
    ensures Lower(s[i..j]) == Lower(s)[i..j]
  {
  }

  /** `sub in s.lower()`: some window of the output lowers to `sub`. */
  lemma ContainsLowered(s: string, sub: string)
    ensures Contains(Lower(s), sub) <==> exists i :: LowersAt(s, sub, i)
  {
    ContainsIffOccurs(Lower(s), sub);
    if Contains(Lower(s), sub) {
      var i :| OccursAt(Lower(s), sub, i);
      LowerSlice(s, i, i + |sub|);
      assert LowersAt(s, sub, i);
    }
    if exists i :: LowersAt(s, sub, i) {
      var i :| LowersAt(s, sub, i);
      LowerSlice(s, i, i + |sub|);
      assert OccursAt(Lower(s), sub, i);
    }
  }

  /** No notice without output; otherwise adjacency is reported exactly when
      some three characters of the output spell "iad" or "ams" in any case,
      and the warning is given exactly when none do. */
  lemma AdjacencyNoticeIff(r: Option<CommandResult>)
    ensures AdjacencyNotice(r).None? <==> r.None? || r.value.stdout == []
    ensures AdjacencyNotice(r) == Some(true) <==> r.Some? && exists i :: PeerAt(r.value.stdout, i)
    ensures AdjacencyNotice(r) == Some(false) <==>
      r.Some? && r.value.stdout != [] && forall i :: !PeerAt(r.value.stdout, i)
  {
    if r.Some? {
      var out := r.value.stdout;
      ContainsLowered(out, "iad");
      ContainsLowered(out, "ams");
      if exists i :: PeerAt(out, i) {
        var i :| PeerAt(out, i);
        assert LowersAt(out, "iad", i) || LowersAt(out, "ams", i);
      }
      if exists i :: LowersAt(out, "iad", i) {
        var i :| LowersAt(out, "iad", i);
        assert PeerAt(out, i);
      }
      if exists i :: LowersAt(out, "ams", i) {
        var i :| LowersAt(out, "ams", i);
        assert PeerAt(out, i);
      }
    }
  }

  /** Any spelling of "iad" or "ams", anywhere in a non-empty output,
      reports the adjacency. */
  lemma AdjacencyNoticeCase(before: string, w: string, after: string, code: int, err: string)
    requires NamesPeer(w)
    ensures AdjacencyNotice(Some(CommandResult(code, before + w + after, err))) == Some(true)
  {
    var out := before + w + after;
    assert |w| == 3;
    assert out[|before|..|before| + 3] == w;
    assert PeerAt(out, |before|);
    AdjacencyNoticeIff(Some(CommandResult(code, out, err)));
  }

  /** The commands `start_lab` and `stop_lab` issue. */
  const LIFECYCLE_COMMANDS := [LAB_PROBE, DOCKER_STATUS, DOCKER_START, NETLAB_UP, NETLAB_DOWN, ISIS_SJC]

  /** The lifecycle commands are pairwise different command lines, so none
      is mistaken for another in the log; the pairs the start and stop
      proofs use are also stated by name. */
  lemma StartCommandsDistinct(t: Target)
    ensures Wrap(t, LAB_PROBE) != Wrap(t, DOCKER_STATUS) && Wrap(t, LAB_PROBE) != Wrap(t, NETLAB_UP)
    ensures Wrap(t, DOCKER_START) != Wrap(t, LAB_PROBE) && Wrap(t, DOCKER_START) != Wrap(t, DOCKER_STATUS)
    ensures Wrap(t, DOCKER_START) != Wrap(t, NETLAB_UP) && Wrap(t, DOCKER_START) != Wrap(t, ISIS_SJC)
    ensures Wrap(t, LAB_PROBE) != Wrap(t, NETLAB_DOWN)
    ensures forall i, j :: 0 <= i < j < |LIFECYCLE_COMMANDS| ==>
      Wrap(t, LIFECYCLE_COMMANDS[i]) != Wrap(t, LIFECYCLE_COMMANDS[j])
  {
    var cs := LIFECYCLE_COMMANDS;
    assert cs[0][0] == 'd' && cs[0][7] == 'p';
    assert cs[1][0] == 's' && |cs[1]| == 26;
    assert cs[2][0] == 's' && |cs[2]| == 25;
    assert cs[3][0] == 'c' && |cs[3]| < |cs[4]|;
    assert cs[4][0] == 'c';
    assert cs[5][0] == 'd' && cs[5][7] == 'e';
    forall i, j | 0 <= i < j < |cs| ensures Wrap(t, cs[i]) != Wrap(t, cs[j]) {
      WrapInjective(t, cs[i], cs[j]);
    }
    assert Wrap(t, cs[0]) != Wrap(t, cs[1]) && Wrap(t, cs[0]) != Wrap(t, cs[3]) && Wrap(t, cs[0]) != Wrap(t, cs[4]);
    assert Wrap(t, cs[0]) != Wrap(t, cs[2]) && Wrap(t, cs[1]) != Wrap(t, cs[2]);
    assert Wrap(t, cs[2]) != Wrap(t, cs[3]) && Wrap(t, cs[2]) != Wrap(t, cs[5]);
  }

  /** An already running lab is left alone: `start_lab` succeeds after the
      probe alone, with no docker status check and no `netlab up`. */
  lemma StartWhenRunning(t: Target, o: Oracle, log: seq<Invocation>)
    requires LabProbe(t, o, log).value
    ensures var s := StartLab(t, o, log);
      s.value && s.log == log + [Call(t, LAB_PROBE, DEFAULT_TIMEOUT)]
      && forall k :: |log| <= k < |s.log| ==>
           s.log[k].command != Wrap(t, DOCKER_STATUS) && s.log[k].command != Wrap(t, NETLAB_UP)
  {
    StartCommandsDistinct(t);
  }

  /** A stopped lab: probe, docker status, docker start only when the status
      says "is not running", `netlab up` with 180 s, and then the SJC
      neighbor check only when `netlab up` completed with status 0; the
      result is false exactly when `netlab up` timed out or failed. */
  lemma StartWhenStopped(t: Target, o: Oracle, log: seq<Invocation>)
    requires !LabProbe(t, o, log).value
    ensures var status := o(Wrap(t, DOCKER_STATUS), DEFAULT_TIMEOUT, |log| + 1);
      var stopped := status.Some? && Contains(status.value.stdout, DOCKER_STOPPED);
      var mid := log + [Call(t, LAB_PROBE, DEFAULT_TIMEOUT), Call(t, DOCKER_STATUS, DEFAULT_TIMEOUT)]
                 + (if stopped then [Call(t, DOCKER_START, DEFAULT_TIMEOUT)] else []);
      var up := o(Wrap(t, NETLAB_UP), UP_TIMEOUT, |mid|);
      var ok := up.Some? && up.value.returncode == 0;
      var s := StartLab(t, o, log);
      s.value == ok
      && s.log == mid + [Call(t, NETLAB_UP, UP_TIMEOUT)] + (if ok then [Call(t, ISIS_SJC, DEFAULT_TIMEOUT)] else [])
  {
  }

  /** `sudo service docker start` is issued exactly when the lab is down and
      the docker status output contains "is not running". */
  lemma DockerStartIffStopped(t: Target, o: Oracle, log: seq<Invocation>)
    ensures var status := o(Wrap(t, DOCKER_STATUS), DEFAULT_TIMEOUT, |log| + 1);
      Call(t, DOCKER_START, DEFAULT_TIMEOUT) in StartLab(t, o, log).log[|log|..]
      <==> !LabProbe(t, o, log).value && status.Some? && Contains(status.value.stdout, DOCKER_STOPPED)
  {
    if LabProbe(t, o, log).value {
      NoDockerStartWhenRunning(t, o, log);
    } else {
      DockerStartWhenStopped(t, o, log);
    }
  }

  lemma NoDockerStartWhenRunning(t: Target, o: Oracle, log: seq<Invocation>)
    requires LabProbe(t, o, log).value
    ensures Call(t, DOCKER_START, DEFAULT_TIMEOUT) !in StartLab(t, o, log).log[|log|..]
  {
    StartCommandsDistinct(t);
    StartWhenRunning(t, o, log);
    assert StartLab(t, o, log).log[|log|..] == [Call(t, LAB_PROBE, DEFAULT_TIMEOUT)];
  }

  lemma DockerStartWhenStopped(t: Target, o: Oracle, log: seq<Invocation>)
    requires !LabProbe(t, o, log).value
    ensures var status := o(Wrap(t, DOCKER_STATUS), DEFAULT_TIMEOUT, |log| + 1);
      Call(t, DOCKER_START, DEFAULT_TIMEOUT) in StartLab(t, o, log).log[|log|..]
      <==> status.Some? && Contains(status.value.stdout, DOCKER_STOPPED)
  {
    StartCommandsDistinct(t);
    StartWhenStopped(t, o, log);
    var start := Call(t, DOCKER_START, DEFAULT_TIMEOUT);
    var status := o(Wrap(t, DOCKER_STATUS), DEFAULT_TIMEOUT, |log| + 1);
    var stopped := status.Some? && Contains(status.value.stdout, DOCKER_STOPPED);
    var head := [Call(t, LAB_PROBE, DEFAULT_TIMEOUT), Call(t, DOCKER_STATUS, DEFAULT_TIMEOUT)];
    var opt := if stopped then [start] else [];
    var mid := log + head + opt;
    var up := o(Wrap(t, NETLAB_UP), UP_TIMEOUT, |mid|);
    var ok := up.Some? && up.value.returncode == 0;
    var tail := [Call(t, NETLAB_UP, UP_TIMEOUT)] + (if ok then [Call(t, ISIS_SJC, DEFAULT_TIMEOUT)] else []);
    var s := StartLab(t, o, log);
    Regroup5(log, head, opt, [Call(t, NETLAB_UP, UP_TIMEOUT)], if ok then [Call(t, ISIS_SJC, DEFAULT_TIMEOUT)] else []);
    assert s.log[|log|..] == head + opt + tail;
    assert start !in head && start !in tail;
    MemberMiddle(start, head, opt, tail);
  }

  lemma Regroup5<T>(a: seq<T>, b: seq<T>, c: seq<T>, d: seq<T>, e: seq<T>)
    ensures a + b + c + d + e == a + (b + c + (d + e))
  {
  }

  lemma MemberMiddle<T>(x: T, a: seq<T>, b: seq<T>, c: seq<T>)
    requires x !in a && x !in c
    ensures x in a + b + c <==> x in b
  {
  }

  // ---------------------------------------------------------------------
  // stop_lab
  // ---------------------------------------------------------------------

  function StopLab(t: Target, o: Oracle, log: seq<Invocation>): Step<bool> {
    var p := LabProbe(t, o, log);
    if !p.value then Step(true, p.log)
    else Step(true, Exec(t, o, p.log, NETLAB_DOWN, DOWN_TIMEOUT).log)
  }

  /** `stop_lab` always reports success; it issues `netlab down --cleanup`
      (120 s) after the probe exactly when the lab is running. */
  lemma StopPolicy(t: Target, o: Oracle, log: seq<Invocation>)
    ensures var s := StopLab(t, o, log);
      var running := LabProbe(t, o, log).value;
      s.value
      && s.log == log + [Call(t, LAB_PROBE, DEFAULT_TIMEOUT)] + (if running then [Call(t, NETLAB_DOWN, DOWN_TIMEOUT)] else [])
      && (Call(t, NETLAB_DOWN, DOWN_TIMEOUT) in s.log[|log|..] <==> running)
  {
    StartCommandsDistinct(t);
    var s := StopLab(t, o, log);
    if LabProbe(t, o, log).value {
      assert s.log[|log|..] == [Call(t, LAB_PROBE, DEFAULT_TIMEOUT), Call(t, NETLAB_DOWN, DOWN_TIMEOUT)];
    } else {
      assert s.log[|log|..] == [Call(t, LAB_PROBE, DEFAULT_TIMEOUT)];
    }
  }

  // ---------------------------------------------------------------------
  // check_status
  // ---------------------------------------------------------------------

  /** What `check_status` finds: whether containers are listed (its return
      value), the ISIS neighbor count of each node in table order (`None`
      where the node printed nothing), and whether SRv6 locators show. */
  datatype StatusReport = StatusReport(containersUp: bool, neighbors: seq<Option<nat>>, locatorsConfigured: bool)

  function IsisCommand(node: Node): string {
    CONTAINER_PREFIX + node.id + " vtysh -c 'show isis neighbor'" + " 2>/dev/null | head -5"
  }

  function IsisCommands(nodes: seq<Node>): (cs: seq<string>)
    ensures |cs| == |nodes| && forall i :: 0 <= i < |nodes| ==> cs[i] == IsisCommand(nodes[i])
  {
    seq(|nodes|, i requires 0 <= i < |nodes| => IsisCommand(nodes[i]))
  }

  /** A node's query runs "show isis neighbor" in that node's container. */
  lemma IsisCommandShape(node: Node)
    ensures IsPrefix(CONTAINER_PREFIX + node.id + " ", IsisCommand(node))
    ensures Contains(IsisCommand(node), "show isis neighbor")
    ensures |node.id| > 0 ==> IsisCommand(node)[|CONTAINER_PREFIX|] == node.id[0]
  {
    var head := CONTAINER_PREFIX + node.id + " vtysh -c '";
    var rest := "'" + " 2>/dev/null | head -5";
    assert IsisCommand(node) == head + "show isis neighbor" + rest;
    ContainsInfix(head, "show isis neighbor", rest);
  }

  /** `check_status` queries every node once, in table order: query i runs
      "show isis neighbor" in node i's container, and no two queries are
      the same command line. */
  lemma IsisQueries()
    ensures var cs := IsisCommands(NODES);
      |cs| == |NODES|
      && (forall i :: 0 <= i < |NODES| ==>
            IsPrefix(CONTAINER_PREFIX + NODES[i].id + " ", cs[i]) && Contains(cs[i], "show isis neighbor"))
      && forall i, j :: 0 <= i < j < |NODES| ==> cs[i] != cs[j]
  {
    var cs := IsisCommands(NODES);
    IsisCommandShape(NODES[0]);
    IsisCommandShape(NODES[1]);
    IsisCommandShape(NODES[2]);
    assert NODES[0].id[0] == 's' && NODES[1].id[0] == 'i' && NODES[2].id[0] == 'a';
  }

  /** `stdout.count("Up")` when the node answered with some output. */
  function NeighborCount(r: Option<CommandResult>): Option<nat> {
    if r.Some? && r.value.stdout != [] then Some(Count(r.value.stdout, "Up")) else None
  }

  /** A neighbor count is the number of places "Up" starts in the output,
      so it is at most half the output's length. */
  lemma NeighborCountMeaning(r: Option<CommandResult>)
    ensures NeighborCount(r).Some? <==> r.Some? && r.value.stdout != []
    ensures NeighborCount(r).Some? ==>
      NeighborCount(r).value == Positions(r.value.stdout, "Up") && NeighborCount(r).value <= |r.value.stdout| / 2
  {
    if r.Some? { CountUpIsPositions(r.value.stdout); }
  }

  function NeighborCounts(answers: seq<Option<CommandResult>>): (ns: seq<Option<nat>>)
    ensures |ns| == |answers| && forall i :: 0 <= i < |answers| ==> ns[i] == NeighborCount(answers[i])
  {
    seq(|answers|, i requires 0 <= i < |answers| => NeighborCount(answers[i]))
  }

  /** Count i belongs to node i: it is absent exactly when that node printed
      nothing, and otherwise it is the number of places "Up" starts in what
      it printed. */
  lemma NeighborCountsMeaning(answers: seq<Option<CommandResult>>)
    ensures var ns := NeighborCounts(answers);
      |ns| == |answers|
      && forall i :: 0 <= i < |answers| ==>
           (ns[i].Some? <==> answers[i].Some? && answers[i].value.stdout != [])
           && (ns[i].Some? ==> ns[i].value == Positions(answers[i].value.stdout, "Up")
                               && ns[i].value <= |answers[i].value.stdout| / 2)
  {
    forall i | 0 <= i < |answers| {
      NeighborCountMeaning(answers[i]);
    }
  }

  lemma NeighborCountsSnoc(answers: seq<Option<CommandResult>>, r: Option<CommandResult>)
    ensures NeighborCounts(answers + [r]) == NeighborCounts(answers) + [NeighborCount(r)]
  {
  }

  function LocatorsConfigured(r: Option<CommandResult>): bool {
    r.Some? && r.value.stdout != [] && Contains(r.value.stdout, LOCATOR_MARKER)
  }

  function CheckStatus(t: Target, o: Oracle, log: seq<Invocation>): Step<StatusReport> {
    var c := Exec(t, o, log, CONTAINERS, DEFAULT_TIMEOUT);
    if !Alive(c.value) then Step(StatusReport(false, [], false), c.log)
    else
      var b := Exec(t, o, c.log, BRIDGES, DEFAULT_TIMEOUT);
      var n := ExecAll(t, o, b.log, IsisCommands(NODES), DEFAULT_TIMEOUT);
      var l := Exec(t, o, n.log, LOCATORS, DEFAULT_TIMEOUT);
      Step(StatusReport(true, NeighborCounts(n.value), LocatorsConfigured(l.value)), l.log)
  }

  /** With no containers listed the status check stops after its first
      command and reports false; otherwise it issues the bridge listing, one
      neighbor query per node in table order, and the locator query, and
      reports each node's count from its own query. */
  lemma StatusPolicy(t: Target, o: Oracle, log: seq<Invocation>)
    ensures var s := CheckStatus(t, o, log);
      var up := Alive(o(Wrap(t, CONTAINERS), DEFAULT_TIMEOUT, |log|));
      s.value.containersUp == up
      && (!up ==> s.log == log + [Call(t, CONTAINERS, DEFAULT_TIMEOUT)] && s.value.neighbors == [])
      && (up ==>
            |s.log| == |log| + 3 + |NODES| && s.log[..|log|] == log
            && s.log[|log|] == Call(t, CONTAINERS, DEFAULT_TIMEOUT)
            && s.log[|log| + 1] == Call(t, BRIDGES, DEFAULT_TIMEOUT)
            && s.log[|log| + 2 + |NODES|] == Call(t, LOCATORS, DEFAULT_TIMEOUT)
            && |s.value.neighbors| == |NODES|
            && forall i :: 0 <= i < |NODES| ==>
                 s.log[|log| + 2 + i] == Call(t, IsisCommand(NODES[i]), DEFAULT_TIMEOUT)
                 && s.value.neighbors[i] == NeighborCount(o(Wrap(t, IsisCommand(NODES[i])), DEFAULT_TIMEOUT, |log| + 2 + i)))
  {
    if Alive(o(Wrap(t, CONTAINERS), DEFAULT_TIMEOUT, |log|)) {
      StatusUp(t, o, log);
    }
  }

  lemma StatusUp(t: Target, o: Oracle, log: seq<Invocation>)
    requires Alive(o(Wrap(t, CONTAINERS), DEFAULT_TIMEOUT, |log|))
    ensures var s := CheckStatus(t, o, log);
      |s.log| == |log| + 3 + |NODES| && s.log[..|log|] == log
      && s.log[|log|] == Call(t, CONTAINERS, DEFAULT_TIMEOUT)
      && s.log[|log| + 1] == Call(t, BRIDGES, DEFAULT_TIMEOUT)
      && s.log[|log| + 2 + |NODES|] == Call(t, LOCATORS, DEFAULT_TIMEOUT)
      && |s.value.neighbors| == |NODES|
      && forall i :: 0 <= i < |NODES| ==>
           s.log[|log| + 2 + i] == Call(t, IsisCommand(NODES[i]), DEFAULT_TIMEOUT)
           && s.value.neighbors[i] == NeighborCount(o(Wrap(t, IsisCommand(NODES[i])), DEFAULT_TIMEOUT, |log| + 2 + i))
  {
    StatusFrame(t, o, log);
    var s := CheckStatus(t, o, log);
    forall i | 0 <= i < |NODES|
      ensures s.log[|log| + 2 + i] == Call(t, IsisCommand(NODES[i]), DEFAULT_TIMEOUT)
      ensures s.value.neighbors[i] == NeighborCount(o(Wrap(t, IsisCommand(NODES[i])), DEFAULT_TIMEOUT, |log| + 2 + i))
    {
      StatusQuery(t, o, log, i);
    }
  }

  /** The commands around the neighbor queries. */
  lemma StatusFrame(t: Target, o: Oracle, log: seq<Invocation>)
    requires Alive(o(Wrap(t, CONTAINERS), DEFAULT_TIMEOUT, |log|))
    ensures var s := CheckStatus(t, o, log);
      |s.log| == |log| + 3 + |NODES| && s.log[..|log|] == log
      && s.log[|log|] == Call(t, CONTAINERS, DEFAULT_TIMEOUT)
      && s.log[|log| + 1] == Call(t, BRIDGES, DEFAULT_TIMEOUT)
      && s.log[|log| + 2 + |NODES|] == Call(t, LOCATORS, DEFAULT_TIMEOUT)
      && |s.value.neighbors| == |NODES|
  {
    var start := log + [Call(t, CONTAINERS, DEFAULT_TIMEOUT), Call(t, BRIDGES, DEFAULT_TIMEOUT)];
    StatusUnfold(t, o, log);
    QueriesThenLocators(t, o, start, IsisCommands(NODES));
    var s := CheckStatus(t, o, log);
    assert s.log[..|start|] == start;
    assert s.log[..|log|] == log by {
      assert s.log[..|log|] == s.log[..|start|][..|log|];
    }
    assert s.log[|log|] == start[|log|];
    assert s.log[|log| + 1] == start[|log| + 1];
  }

  /** The `i`-th neighbor query: its place in the log and its count. */
  lemma StatusQuery(t: Target, o: Oracle, log: seq<Invocation>, i: nat)
    requires Alive(o(Wrap(t, CONTAINERS), DEFAULT_TIMEOUT, |log|)) && i < |NODES|
    ensures var s := CheckStatus(t, o, log);
      |s.log| == |log| + 3 + |NODES| && |s.value.neighbors| == |NODES|
      && s.log[|log| + 2 + i] == Call(t, IsisCommand(NODES[i]), DEFAULT_TIMEOUT)
      && s.value.neighbors[i] == NeighborCount(o(Wrap(t, IsisCommand(NODES[i])), DEFAULT_TIMEOUT, |log| + 2 + i))
  {
    var start := log + [Call(t, CONTAINERS, DEFAULT_TIMEOUT), Call(t, BRIDGES, DEFAULT_TIMEOUT)];
    var cmds := IsisCommands(NODES);
    StatusUnfold(t, o, log);
    QueriesThenLocators(t, o, start, cmds);
    var n := ExecAll(t, o, start, cmds, DEFAULT_TIMEOUT);
    assert cmds[i] == IsisCommand(NODES[i]);
    assert CheckStatus(t, o, log).value.neighbors[i] == NeighborCount(n.value[i]);
  }

  /** Past a live container listing, the status check is the bridge
      listing, the neighbor queries and the locator query. */
  lemma StatusUnfold(t: Target, o: Oracle, log: seq<Invocation>)
    requires Alive(o(Wrap(t, CONTAINERS), DEFAULT_TIMEOUT, |log|))
    ensures var start := log + [Call(t, CONTAINERS, DEFAULT_TIMEOUT), Call(t, BRIDGES, DEFAULT_TIMEOUT)];
      var n := ExecAll(t, o, start, IsisCommands(NODES), DEFAULT_TIMEOUT);
      var l := Exec(t, o, n.log, LOCATORS, DEFAULT_TIMEOUT);
      CheckStatus(t, o, log) == Step(StatusReport(true, NeighborCounts(n.value), LocatorsConfigured(l.value)), l.log)
  {
    var c := Exec(t, o, log, CONTAINERS, DEFAULT_TIMEOUT);
    assert Exec(t, o, c.log, BRIDGES, DEFAULT_TIMEOUT).log
      == log + [Call(t, CONTAINERS, DEFAULT_TIMEOUT), Call(t, BRIDGES, DEFAULT_TIMEOUT)];
  }

  /** The neighbor queries followed by the locator query, over any list of
      queries: each lands at its own position after the earlier commands. */
  lemma QueriesThenLocators(t: Target, o: Oracle, start: seq<Invocation>, cmds: seq<string>)
    ensures var n := ExecAll(t, o, start, cmds, DEFAULT_TIMEOUT);
      var l := Exec(t, o, n.log, LOCATORS, DEFAULT_TIMEOUT);
      |l.log| == |start| + |cmds| + 1 && l.log[..|start|] == start
      && l.log[|start| + |cmds|] == Call(t, LOCATORS, DEFAULT_TIMEOUT)
      && |n.value| == |cmds|
      && forall i :: 0 <= i < |cmds| ==>
           l.log[|start| + i] == Call(t, cmds[i], DEFAULT_TIMEOUT)
           && n.value[i] == o(Wrap(t, cmds[i]), DEFAULT_TIMEOUT, |start| + i)
  {
    ExecAllInOrder(t, o, start, cmds, DEFAULT_TIMEOUT);
    var n := ExecAll(t, o, start, cmds, DEFAULT_TIMEOUT);
    var l := Exec(t, o, n.log, LOCATORS, DEFAULT_TIMEOUT);
    assert l.log == n.log + [Call(t, LOCATORS, DEFAULT_TIMEOUT)];
    assert l.log[..|start|] == n.log[..|start|];
  }

  // ---------------------------------------------------------------------
  // test_mqtt_injection and the service checks of show_topology
  // ---------------------------------------------------------------------

  /** Mosquitto is started only when `pgrep mosquitto` shows nothing; the
      value says whether a start was issued. */
  function EnsureBroker(t: Target, o: Oracle, log: seq<Invocation>): Step<bool> {
    var r := Exec(t, o, log, BROKER_PGREP, DEFAULT_TIMEOUT);
    if Alive(r.value) then Step(false, r.log)
    else Step(true, Exec(t, o, r.log, BROKER_START, DEFAULT_TIMEOUT).log)
  }

  /** `pgrep mosquitto` is issued first; "sudo service mosquitto start"
      follows exactly when that probe shows nothing (a timeout included),
      and the value says whether it did. */
  lemma EnsureBrokerPolicy(t: Target, o: Oracle, log: seq<Invocation>)
    ensures var b := EnsureBroker(t, o, log);
      var running := Alive(o(Wrap(t, BROKER_PGREP), DEFAULT_TIMEOUT, |log|));
      b.log == log + [Call(t, BROKER_PGREP, DEFAULT_TIMEOUT)]
                   + (if running then [] else [Call(t, BROKER_START, DEFAULT_TIMEOUT)])
      && (b.value <==> !running)
  {
  }

  /** The operator's answer to "Continue without agent?" is a yes exactly
      when it lowercases to "y". */
  predicate Confirms(answer: string) {
    Lower(answer) == "y"
  }

  lemma ConfirmsIff(answer: string)
    ensures Confirms(answer) <==> answer == "y" || answer == "Y"
  {
    if Confirms(answer) {
      assert |answer| == 1;
      assert LowerChar(answer[0]) == 'y';
    }
  }

  function MqttInjection(t: Target, o: Oracle, log: seq<Invocation>, answer: string): Step<bool> {
    var lab := LabProbe(t, o, log);
    if !lab.value then Step(false, lab.log)
    else
      var broker := EnsureBroker(t, o, lab.log);
      var agent := AgentProbe(t, o, broker.log);
      if !agent.value && !Confirms(answer) then Step(false, agent.log)
      else
        var inject := Exec(t, o, agent.log, INJECT, INJECT_TIMEOUT);
        Step(true, Exec(t, o, inject.log, ROUTES, DEFAULT_TIMEOUT).log)
  }

  /** The injection fails exactly when the lab is down, or when no agent
      runs and the operator does not confirm; otherwise it runs the injector
      (30 s) and lists the kernel routes, whatever either of them returns.
      With the lab up, the broker is started only when `pgrep` shows nothing. */
  lemma MqttPolicy(t: Target, o: Oracle, log: seq<Invocation>, answer: string)
    ensures var lab := LabProbe(t, o, log);
      var broker := EnsureBroker(t, o, lab.log);
      var agent := AgentProbe(t, o, broker.log);
      var s := MqttInjection(t, o, log, answer);
      (s.value <==> lab.value && (agent.value || answer == "y" || answer == "Y"))
      && (!lab.value ==> s.log == log + [Call(t, LAB_PROBE, DEFAULT_TIMEOUT)])
      && (lab.value && !s.value ==> s.log == agent.log)
      && (s.value ==> s.log == agent.log + [Call(t, INJECT, INJECT_TIMEOUT), Call(t, ROUTES, DEFAULT_TIMEOUT)])
      && (lab.value ==>
            broker.log == lab.log + [Call(t, BROKER_PGREP, DEFAULT_TIMEOUT)]
                          + (if Alive(o(Wrap(t, BROKER_PGREP), DEFAULT_TIMEOUT, |lab.log|)) then []
                             else [Call(t, BROKER_START, DEFAULT_TIMEOUT)]))
  {
    ConfirmsIff(answer);
    EnsureBrokerPolicy(t, o, LabProbe(t, o, log).log);
  }

  /** A running agent makes the answer irrelevant. */
  lemma AnswerIgnoredWithAgent(t: Target, o: Oracle, log: seq<Invocation>, a1: string, a2: string)
    requires AgentProbe(t, o, EnsureBroker(t, o, LabProbe(t, o, log).log).log).value
    ensures MqttInjection(t, o, log, a1) == MqttInjection(t, o, log, a2)
  {
  }

  /** The broker and agent checks `show_topology` makes, in that order. */
  datatype Services = Services(broker: bool, agent: bool)

  function ShowTopology(t: Target, o: Oracle, log: seq<Invocation>): Step<Services> {
    var m := MqttProbe(t, o, log);
    var a := AgentProbe(t, o, m.log);
    Step(Services(m.value, a.value), a.log)
  }

  // ---------------------------------------------------------------------
  // main
  // ---------------------------------------------------------------------

  datatype Flags = Flags(start: bool, stop: bool, status: bool, test: bool, mqtt: bool, topology: bool, shell: bool)

  datatype Action = Start | Stop | Status | Test | Mqtt | Topology | Shell | FullDemo

  /** `main`'s if/elif chain: the first flag set, in this order, wins. */
  function Dispatch(f: Flags): Action {
    if f.start then Start
    else if f.stop then Stop
    else if f.status then Status
    else if f.test then Test
    else if f.mqtt then Mqtt
    else if f.topology then Topology
    else if f.shell then Shell
    else FullDemo
  }

  /** The flags in priority order, and the action each one selects. */
  function FlagList(f: Flags): seq<bool> {
    [f.start, f.stop, f.status, f.test, f.mqtt, f.topology, f.shell]
  }

  const FLAG_ACTIONS: seq<Action> := [Start, Stop, Status, Test, Mqtt, Topology, Shell]

  /** Reference reading of the dispatch: the action of the lowest-numbered
      flag that is set, and the full demo exactly when none is. */
  lemma DispatchFirstSet(f: Flags)
    ensures Dispatch(f) == FullDemo <==> forall i :: 0 <= i < 7 ==> !FlagList(f)[i]
    ensures forall i :: 0 <= i < 7 && FlagList(f)[i] && (forall j :: 0 <= j < i ==> !FlagList(f)[j])
              ==> Dispatch(f) == FLAG_ACTIONS[i]
  {
    var fl := FlagList(f);
    if Dispatch(f) == FullDemo {
      assert !fl[0] && !fl[1] && !fl[2] && !fl[3] && !fl[4] && !fl[5] && !fl[6];
    }
    if forall i :: 0 <= i < 7 ==> !fl[i] {
      assert !fl[0] && !fl[1] && !fl[2] && !fl[3] && !fl[4] && !fl[5] && !fl[6];
    }
    forall i | 0 <= i < 7 && fl[i] && (forall j :: 0 <= j < i ==> !fl[j])
      ensures Dispatch(f) == FLAG_ACTIONS[i]
    {
      if i > 0 { assert !fl[0]; }
      if i > 1 { assert !fl[1]; }
      if i > 2 { assert !fl[2]; }
      if i > 3 { assert !fl[3]; }
      if i > 4 { assert !fl[4]; }
      if i > 5 { assert !fl[5]; }
    }
  }

  /** What the harness is given from outside: the clock reading for the
      report, the explanation text, and the operator's answer. */
  datatype Inputs = Inputs(timestamp: string, explanation: string, answer: string)

  /** One action's commands; the value is the report written, if any. The
      interactive shell is started with `os.system`, outside `run_wsl`, and
      adds nothing to the log. */
  function RunAction(a: Action, t: Target, o: Oracle, log: seq<Invocation>, env: Inputs): Step<Option<string>> {
    match a
    case Start => Step(None, StartLab(t, o, log).log)
    case Stop => Step(None, StopLab(t, o, log).log)
    case Status => Step(None, CheckStatus(t, o, log).log)
    case Test =>
      var r := RunConnectivityTests(t, o, log, env.timestamp, env.explanation);
      Step(r.value.report, r.log)
    case Mqtt => Step(None, MqttInjection(t, o, log, env.answer).log)
    case Topology => Step(None, ShowTopology(t, o, log).log)
    case Shell => Step(None, log)
    case FullDemo => FullDemoRun(t, o, log, env)
  }

  /** `run_full_demo`: topology, start, status, tests, injection, shell. */
  function FullDemoRun(t: Target, o: Oracle, log: seq<Invocation>, env: Inputs): Step<Option<string>> {
    var s1 := ShowTopology(t, o, log);
    var s2 := StartLab(t, o, s1.log);
    var s3 := CheckStatus(t, o, s2.log);
    var s4 := RunConnectivityTests(t, o, s3.log, env.timestamp, env.explanation);
    var s5 := MqttInjection(t, o, s4.log, env.answer);
    Step(s4.value.report, s5.log)
  }

  function CommandLine(f: Flags, t: Target, o: Oracle, env: Inputs): Step<Option<string>> {
    RunAction(Dispatch(f), t, o, [], env)
  }

  /** `--start` runs `start_lab` alone, whatever other flags are given. */
  lemma StartFlagWins(f: Flags, t: Target, o: Oracle, env: Inputs)
    requires f.start
    ensures CommandLine(f, t, o, env) == Step(None, StartLab(t, o, []).log)
  {
  }

  /** `long` is `short` followed by more commands. */
  predicate Extends(long: seq<Invocation>, short: seq<Invocation>) {
    |long| >= |short| && long[..|short|] == short
  }

  lemma ExtendsTrans(a: seq<Invocation>, b: seq<Invocation>, c: seq<Invocation>)
    requires Extends(b, a) && Extends(c, b)
    ensures Extends(c, a)
  {
    assert c[..|a|] == c[..|b|][..|a|];
  }

  /** With no flag the full demo runs; its steps come in order: the two
      service checks first, then the lab probe of `start_lab`, and every
      later step only appends to the log. */
  lemma FullDemoOpens(t: Target, o: Oracle, log: seq<Invocation>, env: Inputs)
    ensures CommandLine(Flags(false, false, false, false, false, false, false), t, o, env) == FullDemoRun(t, o, [], env)
    ensures Extends(FullDemoRun(t, o, log, env).log,
                    log + [Call(t, MQTT_PROBE, DEFAULT_TIMEOUT), Call(t, AGENT_PROBE, DEFAULT_TIMEOUT),
                           Call(t, LAB_PROBE, DEFAULT_TIMEOUT)])
  {
    var s1 := ShowTopology(t, o, log);
    var opening := s1.log + [Call(t, LAB_PROBE, DEFAULT_TIMEOUT)];
    var s2 := StartLab(t, o, s1.log);
    StartPrefix(t, o, s1.log);
    var s3 := CheckStatus(t, o, s2.log);
    StatusGrows(t, o, s2.log);
    ExtendsTrans(opening, s2.log, s3.log);
    var s4 := RunConnectivityTests(t, o, s3.log, env.timestamp, env.explanation);
    TestsGrow(t, o, s3.log, env.timestamp, env.explanation);
    ExtendsTrans(opening, s3.log, s4.log);
    var s5 := MqttInjection(t, o, s4.log, env.answer);
    MqttGrows(t, o, s4.log, env.answer);
    ExtendsTrans(opening, s4.log, s5.log);
  }

  lemma StartPrefix(t: Target, o: Oracle, log: seq<Invocation>)
    ensures Extends(StartLab(t, o, log).log, log + [Call(t, LAB_PROBE, DEFAULT_TIMEOUT)])
  {
    var s := StartLab(t, o, log);
    var p := LabProbe(t, o, log);
    if !p.value {
      var d := EnsureDocker(t, o, p.log);
      assert d.log[..|p.log|] == p.log;
      var up := Exec(t, o, d.log, NETLAB_UP, UP_TIMEOUT);
      assert up.log[..|p.log|] == p.log;
      assert s.log[..|p.log|] == p.log;
    }
  }

  lemma StatusGrows(t: Target, o: Oracle, log: seq<Invocation>)
    ensures Extends(CheckStatus(t, o, log).log, log)
  {
    StatusPolicy(t, o, log);
  }

  lemma TestsGrow(t: Target, o: Oracle, log: seq<Invocation>, timestamp: string, explanation: string)
    ensures Extends(RunConnectivityTests(t, o, log, timestamp, explanation).log, log)
  {
    if LabProbe(t, o, log).value { TestsRunAll(t, o, log, timestamp, explanation); }
  }

  lemma MqttGrows(t: Target, o: Oracle, log: seq<Invocation>, answer: string)
    ensures Extends(MqttInjection(t, o, log, answer).log, log)
  {
  }
}
