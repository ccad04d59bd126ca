# Galactic VPC lab harness — a Dafny model

This project models the core of the Galactic VPC lab in Dafny:

- The demo runner `run_lab_demo.py`: starting and stopping the lab, the status check, the connectivity tests, and the test report they write. It also covers the MQTT injection step and the command-line dispatch.
- The route injector `test-mqtt-route.go`: its hand-written Protocol Buffers encoder, the SRv6 endpoint and VRF names derived from a VPC ID and an attachment ID, and the `\xNN` escape of its fallback command.
- The Jinja filters of `filter_plugins/netlab_filters.py`.

The demo runner is a command-issuing program, and the model keeps that form:

- Every shell command goes through `run_wsl`, which wraps it for the target (inside WSL, or forwarded from Windows into a named distribution).
- The outside world is an *oracle*. Given the wrapped command, its timeout and the number of commands issued before it, the oracle answers with the completed process, or with `None` for a timeout.
- The harness is the class `Harness.LabHarness`. Its fields are the command log and a table of written files. Each method is proved to leave exactly the log (and files) that a specification function in `Bridge`, `Connectivity` or `Lifecycle` describes.
- The properties are proved about those functions: which commands run, in which order, and under which answers; what each operation returns; and what the report says.

Modules:

| file | module | what |
|---|---|---|
| text.dfy | `Text` | Python string operations with Python's meaning: `in`, `count`, ASCII `lower`, `strip`, slices, `join`, `str(int)` |
| bridge.dfy | `Bridge` | `run_wsl`, the probes, the node table, batches of commands |
| report.dfy | `TestReport` | test records, the summary status and the report text |
| connectivity.dfy | `Connectivity` | `run_connectivity_tests`: the five pings, classification, records |
| lifecycle.dfy | `Lifecycle` | `start_lab`, `stop_lab`, `check_status`, `test_mqtt_injection`, `show_topology`, `main`, `run_full_demo` |
| harness.dfy | `Harness` | the runner as a class with a log and a file table |
| protowire.dfy | `ProtoWire` | `encodeString`, `encodeVarint`, `encodeRoute`, `encodeEnvelope`, and a reference decoder |
| srv6.dfy | `Srv6` | `generateSRv6Endpoint`, the VRF name, the hex escape, the published routes |
| filters.dfy | `NetlabFilters` | `hwaddr`, `ipaddr`, `ipv4`, `ipv6`, `macaddr`, `filters()` |

Where the comments or documentation and the code disagree, the model follows the code:

- A ping passes when it exits with status 0 and its output contains the text "0% packet loss". "50% packet loss" contains that text too, so a half-lost ping with exit status 0 passes (`Connectivity.HalfLossPasses`).
- The VRF name takes the *last* 9 characters of the VPC ID and the last 3 of the attachment ID. The comment above the code says "first" (`Srv6.TestVrfNames`).
- `generateSRv6Endpoint`'s doc comment gives `fc00::0001:0000:0000:0001` for VPC `000000000001` and attachment `0001`. The code produces `fc00::0000:0000:0001:0001` (`Srv6.TestEndpoints`).
- The encoder writes each length and each varint as one byte. That is a valid protobuf varint only below 128. The decoder round trip is proved under that bound (`ProtoWire.RouteRoundTrip`). Above it the field is misread (`ProtoWire.LongStringMisread`, `ProtoWire.LargeStatusMisread`).

## Model

| member | source | states |
|---|---|---|
| Bridge.ExecAllInOrder | run_lab_demo.py:124-144 | a batch of `run_wsl` calls appends exactly its wrapped commands, in list order, and answer i is the oracle's answer to command i |
| Bridge.WrapShape | run_lab_demo.py:126-131 | the command line is the target's prefix, the command verbatim, then a closing quote |
| Bridge.WrapInjective | run_lab_demo.py:126-131 | two commands give the same command line exactly when they are equal |
| Bridge.Probe | run_lab_demo.py:156-176 | a probe issues one command with the default 60 s timeout and is true exactly when a result exists and its stripped output is non-empty |
| Bridge.AliveIff | run_lab_demo.py:159 | `result and result.stdout.strip()` holds exactly when some output character is not whitespace |
| Bridge.ProbeFalseCases | run_lab_demo.py:158-161 | a timeout, or output that is only whitespace, makes a probe false whatever the exit status |
| Text.ContainsIffOccurs | run_lab_demo.py:354 | substring `in` holds exactly when the text occurs at some position |
| Text.StripEmptyIffAllSpace | run_lab_demo.py:159 | `strip()` gives "" exactly when every character is whitespace |
| Text.CountUpIsPositions | run_lab_demo.py:288 | `count("Up")` equals the number of places "Up" starts, at most half the output length |
| Text.LowerIsLower | filter_plugins/netlab_filters.py:50 | `lower()` leaves no upper-case letter and is idempotent |
| Text.NatToStringRoundTrip | run_lab_demo.py:391 | the decimal text of a count reads back as the count |
| TestReport.AllPassedIffCount | run_lab_demo.py:380-381 | `all(results)` holds exactly when `sum(results)` equals the number of tests |
| TestReport.LastFailed | run_lab_demo.py:380-381 | a run whose only failure is its last test counts one pass short of the total and is not all passed |
| TestReport.SummaryStatusIff | run_lab_demo.py:382-391 | the status is "ALL PASSED" exactly when passed == total, and otherwise starts with "<passed>/" |
| TestReport.SummaryLineAllPassed | run_lab_demo.py:410 | the summary line of a 5/5 run reads "Summary:   ALL PASSED (5/5 tests)" |
| TestReport.SummaryLineFourOfFive | run_lab_demo.py:410 | the summary line of a 4/5 run reads "Summary:   4/5 PASSED (4/5 tests)" |
| TestReport.BlocksAppend | run_lab_demo.py:421-427 | the blocks of two record lists are the blocks of the first followed by those of the second |
| TestReport.BlockInOrder | run_lab_demo.py:401-427 | record k's block stands in the report right after the blocks of the records before it |
| TestReport.ReportHasSummary | run_lab_demo.py:409-410 | the report contains the line "Summary:   <status> (<passed>/<total> tests)" |
| TestReport.ReportClosing | run_lab_demo.py:437-446 | the report closes with "Conclusions" exactly when passed == total, and with "Troubleshooting" otherwise |
| Connectivity.OutputMessageCases | run_lab_demo.py:354-361 | the output message is the marker on a pass, the first 100 characters of the output on a failure with output, and "No response" otherwise |
| Connectivity.ClassifyIff | run_lab_demo.py:354 | a ping passes exactly when a result exists, its exit status is 0 and "0% packet loss" occurs in its output |
| Connectivity.ClassifyMarker | run_lab_demo.py:354 | output that contains the marker is judged by the exit status alone |
| Connectivity.HalfLossPasses | run_lab_demo.py:354 | "50% packet loss" with exit status 0 is judged a pass |
| Connectivity.PingCommandShape | run_lab_demo.py:347-348 | command i starts with "docker exec clab-galactic_vpc-" and test i's source node, and ends with " ping -c 2 " and test i's target |
| Connectivity.TestsPingOtherNodes | run_lab_demo.py:334-340 | each declared test runs in one lab node's container and pings the loopback of a different lab node |
| Connectivity.Pings | run_lab_demo.py:343-352 | one answer per test |
| Connectivity.RecordMeaning | run_lab_demo.py:342-375 | record i is numbered i + 1 with test i's name, command and description; it passes exactly when answer i has exit status 0 and an output containing "0% packet loss"; a failure keeps the first 100 characters of the output, or "No response" when there is none |
| Connectivity.TestsFailFast | run_lab_demo.py:304-306 | with the lab down, only the probe is issued, no report is written and the result is false |
| Connectivity.TestsRunAll | run_lab_demo.py:300-398 | with the lab up: the probe, then exactly the five pings in order with a 30 s timeout; the records follow the answers; the result is true exactly when all five passed; the report is written |
| Connectivity.HealthyAnswers | run_lab_demo.py:354 | a clean ping answer is alive and passes |
| Connectivity.AllPassScenario | run_lab_demo.py:380-398 | five clean pings: true, every record passed, the report says ALL PASSED |
| Connectivity.PartialFailureScenario | run_lab_demo.py:352-398 | the AMS → SJC ping times out: false, four passes, one "No response" failure, the report says 4/5 PASSED |
| Connectivity.ProbeIsNoPing | run_lab_demo.py:158 | the lab probe is not one of the pings |
| Connectivity.PingCommandsDistinct | run_lab_demo.py:334-348 | the five pings are five pairwise different command lines, for either target |
| Lifecycle.StartWhenRunning | run_lab_demo.py:198-201 | a running lab is left alone: true after the probe only |
| Lifecycle.StartWhenStopped | run_lab_demo.py:203-241 | a stopped lab: docker status, docker start only on "is not running", netlab up with 180 s, the SJC adjacency check only on success; the value is netlab's success |
| Lifecycle.DockerStartIffStopped | run_lab_demo.py:205-209 | docker is started exactly when the lab is down and the status output says "is not running" |
| Lifecycle.StartCommandsDistinct | run_lab_demo.py:194-260 | the six commands of `start_lab` and `stop_lab` (lab probe, docker status, docker start, netlab up, netlab down, SJC neighbor query) are pairwise different command lines, for either target |
| Lifecycle.AdjacencyNoticeIff | run_lab_demo.py:233-239 | nothing is reported without output; adjacency is reported exactly when some three characters of the output spell "iad" or "ams" in any letter case, and the warning exactly when none do |
| Lifecycle.AdjacencyNoticeCase | run_lab_demo.py:236-237 | any spelling of "iad" or "ams", in any case and anywhere in the output, reports the adjacency |
| Lifecycle.StopPolicy | run_lab_demo.py:243-259 | `stop_lab` always returns true; `netlab down --cleanup` with 120 s is issued exactly when the lab is running |
| Lifecycle.IsisQueries | run_lab_demo.py:283-285 | one ISIS query per node, in table order: query i runs "show isis neighbor" in node i's container, and the three queries are different command lines |
| Lifecycle.IsisCommandShape | run_lab_demo.py:285 | a node's query starts with its container's `docker exec` and contains "show isis neighbor" |
| Lifecycle.NeighborCountMeaning | run_lab_demo.py:286-288 | a count exists exactly when the node answered with output, and it is the number of "Up" occurrences |
| Lifecycle.NeighborCountsMeaning | run_lab_demo.py:284-287 | count i belongs to node i: absent exactly when that node printed nothing, otherwise the number of places "Up" starts in its output, at most half its length |
| Lifecycle.StatusPolicy | run_lab_demo.py:261-298 | no containers: false after one command; otherwise containers, bridges, the three ISIS queries, locators, and true |
| Lifecycle.ConfirmsIff | run_lab_demo.py:479-481 | the operator's answer is a yes exactly when it is "y" or "Y" |
| Lifecycle.EnsureBrokerPolicy | run_lab_demo.py:461-465 | `pgrep mosquitto` is issued; "sudo service mosquitto start" follows exactly when its stripped output is empty or it timed out, and the value is true exactly when the start was issued |
| Lifecycle.MqttPolicy | run_lab_demo.py:452-505 | the injection fails exactly when the lab is down, or no agent runs and the answer is not y; with the lab up, the broker is started exactly when `pgrep` shows nothing |
| Lifecycle.AnswerIgnoredWithAgent | run_lab_demo.py:469-484 | with the agent running, the answer changes nothing |
| Lifecycle.DispatchFirstSet | run_lab_demo.py:793-810 | the first set flag in the order start, stop, status, test, mqtt, topology, shell selects the action; with none set the full demo runs |
| Lifecycle.StartFlagWins | run_lab_demo.py:793-794 | `--start` runs `start_lab` alone whatever other flags are given |
| Lifecycle.FullDemoOpens | run_lab_demo.py:715-737 | the full demo begins with the broker and agent checks of the topology, then the lab probe of `start_lab` |
| Lifecycle.StartPrefix | run_lab_demo.py:198 | `start_lab` first probes the lab |
| Lifecycle.StatusGrows | run_lab_demo.py:261-298 | `check_status` only appends to the log |
| Lifecycle.TestsGrow | run_lab_demo.py:300-398 | the tests only append to the log |
| Lifecycle.MqttGrows | run_lab_demo.py:452-505 | the injection only appends to the log |
| Harness.LabHarness.constructor | run_lab_demo.py:122 | the target is fixed at start-up; the log and the files start empty |
| Harness.LabHarness.RunWsl | run_lab_demo.py:124-144 | `run_wsl` appends the wrapped command with its timeout to the log and returns the oracle's answer for it (None on timeout), as `Bridge.Exec` states; no file changes |
| Harness.LabHarness.Probe | run_lab_demo.py:156-176 | the result and the new log are those of `Bridge.Probe` |
| Harness.LabHarness.CheckLabRunning | run_lab_demo.py:156-161 | as `Bridge.LabProbe` |
| Harness.LabHarness.CheckMqttRunning | run_lab_demo.py:163-169 | as `Bridge.MqttProbe` |
| Harness.LabHarness.CheckAgentRunning | run_lab_demo.py:171-176 | as `Bridge.AgentProbe` |
| Harness.LabHarness.StartLab | run_lab_demo.py:194-241 | the result and the new log are those of `Lifecycle.StartLab` |
| Harness.LabHarness.StopLab | run_lab_demo.py:243-259 | as `Lifecycle.StopLab` |
| Harness.LabHarness.CheckStatus | run_lab_demo.py:261-298 | the loop over the nodes leaves the log and counts of `Lifecycle.CheckStatus` |
| Harness.LabHarness.WriteTestResultsToFile | run_lab_demo.py:401-450 | the file named `filename` now holds exactly the report text; nothing else changes |
| Harness.LabHarness.PingAll | run_lab_demo.py:342-381 | the loop over the tests issues the pings of `Connectivity.Pings` and builds the records of `Connectivity.Records`; then `sum(results)` and `all(results)` give the pass count and the verdict |
| Harness.LabHarness.RunConnectivityTests | run_lab_demo.py:300-398 | the result, the log and the report file are those of `Connectivity.RunConnectivityTests` |
| Harness.LabHarness.TestMqttInjection | run_lab_demo.py:452-505 | as `Lifecycle.MqttInjection` |
| Harness.LabHarness.ShowTopology | run_lab_demo.py:648-659 | as `Lifecycle.ShowTopology` |
| Harness.LabHarness.RunFullDemo | run_lab_demo.py:697-737 | the log and files of `Lifecycle.FullDemoRun` |
| Harness.LabHarness.RunCommandLine | run_lab_demo.py:759-810 | the log and files of the action `main` selects |
| ProtoWire.TagValues | test-mqtt-route.go:25-31 | the tags written are 0x0a, 0x12, 0x1a and 0x20 |
| ProtoWire.EncodeRoute | test-mqtt-route.go:60-79 | the route is network (1), endpoint (2), each segment in order (3), then status (4) |
| ProtoWire.RouteLength | test-mqtt-route.go:45-79 | each string field costs two bytes plus its value, the status two |
| ProtoWire.SegmentFieldsLength | test-mqtt-route.go:71-73 | the segment fields' length is the sum over the segments |
| ProtoWire.StringFieldReads | test-mqtt-route.go:45-52 | a string field shorter than 128 bytes reads back as its field number and value |
| ProtoWire.VarintFieldReads | test-mqtt-route.go:54-58 | a varint field below 128 reads back as its field number and value |
| ProtoWire.SegmentsRead | test-mqtt-route.go:71-73 | the segment fields decode to the segments, in order |
| ProtoWire.RouteRoundTrip | test-mqtt-route.go:60-79 | with every length and the status below 128, the route decodes to exactly what was encoded |
| ProtoWire.EnvelopeRoundTrip | test-mqtt-route.go:107-115 | a route shorter than 128 bytes comes back out of its envelope unchanged |
| ProtoWire.LongStringMisread | test-mqtt-route.go:47 | for a field number below 16 and a 128-byte string whose first byte is between 2 and 127, the length byte is read as the start of a longer varint, so the field does not read back |
| ProtoWire.LongStringRead | test-mqtt-route.go:47 | for a field number below 16 and a 128-byte string whose first byte is between 2 and 127, the decoder reads a length above 128, so it takes more bytes than the value or fails |
| ProtoWire.LargeStatusMisread | test-mqtt-route.go:57 | a status of 128 or more never reads back as itself |
| ProtoWire.ReadVarint | test-mqtt-route.go:25-31 | the decoder consumes at least one byte per varint |
| Srv6.LeadingZero | test-mqtt-route.go:93-95 | a leading zero does not change the hex number |
| Srv6.PadLeftKeeps | test-mqtt-route.go:93-99 | padding reaches the width, keeps the ID as its suffix and keeps the number it denotes |
| Srv6.PadZeros | test-mqtt-route.go:93-99 | each padding loop leaves the ID with leading zeros up to the width, as `Srv6.PadLeft` describes |
| Srv6.GenerateSrv6Endpoint | test-mqtt-route.go:91-105 | the padding loops and the format give `Srv6.Endpoint` |
| Srv6.EndpointParses | test-mqtt-route.go:91-105 | the endpoint holds the 12-digit padded VPC ID in three groups (only its first 12 digits when longer) and the padded attachment ID, both denoting the original numbers |
| Srv6.GroupsParse | test-mqtt-route.go:103-104 | the groups and the tail sit at fixed offsets after "fc00::" |
| Srv6.TestEndpoints | test-mqtt-route.go:188-193 | the AMS and IAD endpoints are fc00::0000:0000:0001:0001 and ...:0002, not the commented example |
| Srv6.VrfParses | test-mqtt-route.go:120-124 | the VRF name is "G", the last 9 characters of the VPC ID, the last 3 of the attachment ID, "V", at fixed places |
| Srv6.VrfNameIff | test-mqtt-route.go:120-124 | two ID pairs share a VRF exactly when those suffixes agree |
| Srv6.TestVrfNames | test-mqtt-route.go:210-217 | the test VRFs are G000000001001V and G000000001002V; the "first characters" reading would give G000000000000V |
| Srv6.HexEscape | test-mqtt-route.go:299-302 | the loop builds the escape of every byte, in order |
| Srv6.EscapeRoundTrip | test-mqtt-route.go:299-302 | the escape is four characters per byte and reads back as the bytes |
| Srv6.HexDigit | test-mqtt-route.go:301 | each `%02x` digit reads back as its value |
| Srv6.PublishedRouteRoundTrip | test-mqtt-route.go:228-256 | for ASCII inputs, a network of at most 50 characters and an attachment hex of at most 4 characters, a route published as the script does (the endpoint as the only segment, status ADD) is at most 108 bytes and decodes back from its envelope |
| NetlabFilters.Split | filter_plugins/netlab_filters.py:35-37 | `split('/')` has at least one piece, and two or more exactly when '/' occurs |
| NetlabFilters.SplitJoin | filter_plugins/netlab_filters.py:35-37 | joining the pieces with the separator restores the string |
| NetlabFilters.SplitPiecesClean | filter_plugins/netlab_filters.py:35-37 | no piece contains the separator |
| NetlabFilters.FirstFieldMeaning | filter_plugins/netlab_filters.py:35 | `split('/')[0]` is the longest '/'-free prefix |
| NetlabFilters.SplitAfterFirst | filter_plugins/netlab_filters.py:37 | the pieces after the first are the pieces of the text after the first '/' |
| NetlabFilters.CleanIsCleanChars | filter_plugins/netlab_filters.py:20 | the replace chain drops exactly ':', '-' and '.' and lower-cases everything else, in order |
| NetlabFilters.CleanIsClean | filter_plugins/netlab_filters.py:20 | the cleaned MAC has no separator and no upper case, and cleaning it again changes nothing |
| NetlabFilters.Chunks | filter_plugins/netlab_filters.py:24 | as many slices as offsets |
| NetlabFilters.ChunksConcat | filter_plugins/netlab_filters.py:24 | consecutive clamped slices run together to the clamped prefix they cover |
| NetlabFilters.JoinedChunks | filter_plugins/netlab_filters.py:24-28 | removing the separator from the joined slices gives the covered prefix; full slices give the full length |
| NetlabFilters.HwaddrLinux | filter_plugins/netlab_filters.py:23-24 | with no query or 'linux': without the colons it is the first 12 cleaned characters; 12 or more hex digits give 17 characters |
| NetlabFilters.HwaddrCisco | filter_plugins/netlab_filters.py:27-28 | with 'cisco': without the dots it is the first 12 cleaned characters; 12 or more give 14 characters |
| NetlabFilters.HwaddrOther | filter_plugins/netlab_filters.py:30 | any other query returns the cleaned MAC |
| NetlabFilters.AddressFilters | filter_plugins/netlab_filters.py:34-35 | 'address' and `ipv4` give the text before the first '/' (all of it when there is none); `ipv6` gives it lower-cased |
| NetlabFilters.PrefixFilter | filter_plugins/netlab_filters.py:36-37 | 'prefix' gives the text between the first and the second '/', or "" when there is no '/' |
| NetlabFilters.CidrFilters | filter_plugins/netlab_filters.py:34-42 | on "<address>/<length>" the address filters give the address and 'prefix' the length |
| NetlabFilters.IpaddrOther | filter_plugins/netlab_filters.py:38 | any other query, and none, returns the value |
| NetlabFilters.MacaddrLower | filter_plugins/netlab_filters.py:48-50 | `macaddr` lower-cases each character and changes nothing else |
| NetlabFilters.FalsyGivesEmpty | filter_plugins/netlab_filters.py:16-17 | every filter gives "" for None and for "" |
| NetlabFilters.Filters | filter_plugins/netlab_filters.py:2-9 | the table has exactly the names ipv4, ipv6, macaddr, ipaddr, hwaddr |
| NetlabFilters.FiltersDistinct | filter_plugins/netlab_filters.py:2-9 | each name reaches its own filter |

## Left out

- Console output is not modelled: headers, colours, progress steps, the spinner, the topology drawing and the banners. It changes no state the harness reads.
- Sleeps (`time.sleep`, `wait_with_spinner`) are left out; time is not modelled.
- The "Press Enter" prompts of `run_full_demo` are left out, because their answers are ignored. The answer to "Continue without agent?" is a parameter.
- The clock reading in `run_connectivity_tests` is a parameter, `timestamp`.
- `interactive_shell` and `run_wsl_interactive` are left out: the shell runs outside `run_wsl` and its session is not observed. In the model the action does nothing.
- A `KeyboardInterrupt` during the full demo is not modelled. The model assumes every step runs to completion.
- Whether the runner is inside WSL is fixed at start-up, as the `Target` parameter.
- `subprocess.run` is the oracle. A `TimeoutExpired` is its `None` answer, and no other exception is modelled.
- Harness.LabHarness.WriteTestResultsToFile: the results file is a map entry that is always written. A failure of `open(filename, 'w')` or of the write (an `OSError` that would leave `run_connectivity_tests`) is not modelled.
- Text is sequences of characters. `lower()` is modelled for ASCII letters only, and Unicode case mapping is left out.
- `NetlabFilters`: the filters take `None` or a string. Other falsy and non-string values (0, False, lists, numbers passed through `str`) are not modelled.
- `NetlabFilters.Apply`: passing an explicit `None` argument to `ipv4`, `ipv6` or `macaddr` is modelled as passing nothing.
- `createVRF`'s `ip link` commands, `publishToMQTT`'s file write and its `mosquitto_pub` call are not modelled, and neither are the Go `main`'s prints. Only the names, bytes and escape text they are given are modelled.
- `hex.EncodeToString` is used for display only and is left out.
- Go strings become bytes only for ASCII text (`Srv6.Bytes`), which is all the script passes. UTF-8 encoding of other characters is left out.
- `Srv6.VrfName`: Go panics when the VPC ID is shorter than 9 characters or the attachment ID shorter than 3. The model requires the lengths instead of modelling the panic.
- setup_wsl_lab.py is not part of this model.
- The galactic-agent sources are not part of this model. The decoder in `ProtoWire` is a reference reading of the protobuf wire format, not the agent's code.
