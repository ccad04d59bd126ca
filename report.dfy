/** The connectivity test records and the plain-text report that
    `write_test_results_to_file` (run_lab_demo.py) writes: a header with the
    summary line, the explanation, one block per test in list order, and a
    closing summary with either conclusions or troubleshooting hints. */
module TestReport {
  import opened Text

  datatype Verdict = Passed | Failed

  /** One row of `test_results`. */
  datatype TestRecord = TestRecord(number: nat, name: string, input: string, reason: string,
                                   output: string, status: Verdict)

  function Label(v: Verdict): string {
    if v == Passed then "PASSED" else "FAILED"
  }

  /** `sum(results)`: how many records passed. */
  function CountPassed(records: seq<TestRecord>): (n: nat)
    ensures n <= |records|
  {
    if records == [] then 0
    else CountPassed(records[..|records| - 1]) + (if records[|records| - 1].status == Passed then 1 else 0)
  }

  /** `all(results)`. */
  predicate AllPassed(records: seq<TestRecord>) {
    forall i :: 0 <= i < |records| ==> records[i].status == Passed
  }

  lemma {:induction false} AllPassedIffCount(records: seq<TestRecord>)
    ensures AllPassed(records) <==> CountPassed(records) == |records|
  {
    if records != [] {
      var init := records[..|records| - 1];
      AllPassedIffCount(init);
      assert AllPassed(records) <==> AllPassed(init) && records[|records| - 1].status == Passed by {
        if AllPassed(init) && records[|records| - 1].status == Passed {
          forall i | 0 <= i < |records| ensures records[i].status == Passed {
            if i < |records| - 1 { assert records[i] == init[i]; }
          }
        }
      }
    }
  }

  /** A run whose every record but the last passed counts one short. */
  lemma LastFailed(records: seq<TestRecord>)
    requires |records| > 0 && records[|records| - 1].status == Failed
    requires forall i :: 0 <= i < |records| - 1 ==> records[i].status == Passed
    ensures CountPassed(records) == |records| - 1 && !AllPassed(records)
  {
    var init := records[..|records| - 1];
    assert AllPassed(init) by {
      forall i | 0 <= i < |init| ensures init[i].status == Passed {
        assert init[i] == records[i];
      }
    }
    AllPassedIffCount(init);
  }

  /** `summary_status`: "ALL PASSED", or "<passed>/<total> PASSED". */
  function SummaryStatus(passed: nat, total: nat): string {
    if passed == total then "ALL PASSED"
    else NatToString(passed) + "/" + NatToString(total) + " PASSED"
  }

  /** The status is "ALL PASSED" exactly when every test passed; otherwise it
      starts with the pass count. */
  lemma SummaryStatusIff(passed: nat, total: nat)
    ensures SummaryStatus(passed, total) == "ALL PASSED" <==> passed == total
    ensures passed != total ==> IsPrefix(NatToString(passed) + "/", SummaryStatus(passed, total))
  {
    if passed != total {
      var s := SummaryStatus(passed, total);
      assert IsDigit(s[0]);
      assert "ALL PASSED"[0] == 'A';
    }
  }

  function SummaryLine(status: string, passed: nat, total: nat): string {
    "Summary:   " + status + " (" + NatToString(passed) + "/" + NatToString(total) + " tests)"
  }

  /** The summary line of a five-test run in which every test passed. */
  lemma SummaryLineAllPassed()
    ensures SummaryLine(SummaryStatus(5, 5), 5, 5) == "Summary:   ALL PASSED (5/5 tests)"
  {
    assert NatToString(5) == "5";
    assert SummaryLine(SummaryStatus(5, 5), 5, 5) == "Summary:   " + "ALL PASSED" + " (" + "5" + "/" + "5" + " tests)";
    AllPassedText();
  }

  lemma AllPassedText()
    ensures "Summary:   " + "ALL PASSED" + " (" + "5" + "/" + "5" + " tests)" == "Summary:   ALL PASSED (5/5 tests)"
  {
  }

  /** The summary line of a five-test run in which four tests passed. */
  lemma SummaryLineFourOfFive()
    ensures SummaryLine(SummaryStatus(4, 5), 4, 5) == "Summary:   4/5 PASSED (4/5 tests)"
  {
    FourOfFiveStatus();
    assert SummaryLine(SummaryStatus(4, 5), 4, 5) == "Summary:   " + "4/5 PASSED" + " (" + "4" + "/" + "5" + " tests)";
    FourOfFiveText();
  }

  /** Four of five passed: the status reads "4/5 PASSED". */
  lemma FourOfFiveStatus()
    ensures NatToString(4) == "4" && NatToString(5) == "5"
    ensures SummaryStatus(4, 5) == "4/5 PASSED"
  {
    assert NatToString(4) == "4" && NatToString(5) == "5";
  }

  lemma FourOfFiveText()
    ensures "Summary:   " + "4/5 PASSED" + " (" + "4" + "/" + "5" + " tests)" == "Summary:   4/5 PASSED (4/5 tests)"
  {
  }

  function Rule(c: char): string {
    Repeat(c, 80) + "\n"
  }

  const TITLE := "  DATUM GALACTIC VPC LAB - CONNECTIVITY TEST RESULTS\n"
    + "  Author: Sajjad Ahmed, Multi Naturals Inc.\n"

  /** The banner, title and timestamp that open the report. */
  function Banner(timestamp: string): string {
    Rule('=') + TITLE + Rule('=') + "\n" + "Timestamp: " + timestamp + "\n"
  }

  /** What follows the summary line, up to the first test block. */
  function Preamble(explanation: string): string {
    "\n\n"
    + Rule('-') + "TEST CASE EXPLANATION\n" + Rule('-')
    + explanation + "\n"
    + Rule('-') + "DETAILED TEST RESULTS\n" + Rule('-') + "\n"
  }

  function ReportHead(timestamp: string, explanation: string, status: string, passed: nat, total: nat): string {
    Banner(timestamp) + SummaryLine(status, passed, total) + Preamble(explanation)
  }

  /** The block written for one record. */
  function Block(r: TestRecord): string {
    "[Test " + NatToString(r.number) + "] " + r.name + "\n"
    + "  Status:  " + Label(r.status) + "\n"
    + "  Input:   " + r.input + "\n"
    + "  Reason:  " + r.reason + "\n"
    + "  Output:  " + r.output + "\n"
    + "\n"
  }

  /** The blocks of all records, in list order. */
  function Blocks(records: seq<TestRecord>): string {
    if records == [] then []
    else Blocks(records[..|records| - 1]) + Block(records[|records| - 1])
  }

  const CONCLUSIONS := "Conclusions:\n"
    + "  ✓ ISIS adjacencies are working\n"
    + "  ✓ SRv6 underlay is functional\n"
    + "  ✓ All POPs can communicate\n"

  const TROUBLESHOOTING := "Troubleshooting:\n"
    + "  → Check ISIS neighbors: docker exec clab-galactic_vpc-sjc vtysh -c 'show isis neighbor'\n"
    + "  → Check container status: docker ps\n"
    + "  → Check bridge: brctl show\n"

  const END_BANNER := "\n" + Rule('=') + "  End of Test Report\n" + Rule('=')

  /** The closing summary's counts and status. */
  function Totals(status: string, passed: nat, total: nat): string {
    Rule('-') + "SUMMARY\n" + Rule('-')
    + "Total Tests:  " + NatToString(total) + "\n"
    + "Passed:       " + NatToString(passed) + "\n"
    + "Failed:       " + IntToString(total - passed) + "\n"
    + "Status:       " + status + "\n\n"
  }

  function Closing(allPassed: bool): string {
    if allPassed then CONCLUSIONS else TROUBLESHOOTING
  }

  function ReportTail(status: string, passed: nat, total: nat): string {
    Totals(status, passed, total) + Closing(passed == total) + END_BANNER
  }

  /** The whole text of the report file. */
  function Report(timestamp: string, explanation: string, records: seq<TestRecord>,
                  status: string, passed: nat, total: nat): string
  {
    ReportHead(timestamp, explanation, status, passed, total) + Blocks(records) + ReportTail(status, passed, total)
  }

  lemma {:induction false} BlocksAppend(a: seq<TestRecord>, b: seq<TestRecord>)
    ensures Blocks(a + b) == Blocks(a) + Blocks(b)
    decreases |b|
  {
    if b == [] {
      assert a + b == a;
    } else {
      var b', last := b[..|b| - 1], b[|b| - 1];
      assert (a + b)[..|a + b| - 1] == a + b';
      assert (a + b)[|a + b| - 1] == last;
      BlocksAppend(a, b');
      calc {
        Blocks(a + b);
        Blocks(a + b') + Block(last);
        Blocks(a) + Blocks(b') + Block(last);
        { Associate(Blocks(a), Blocks(b'), Block(last)); }
        Blocks(a) + (Blocks(b') + Block(last));
      }
    }
  }

  /** Adding one record adds its block at the end. */
  lemma BlocksSnoc(records: seq<TestRecord>, k: nat)
    requires k < |records|
    ensures Blocks(records[..k + 1]) == Blocks(records[..k]) + Block(records[k])
  {
    assert records[..k + 1][..k] == records[..k];
  }

  lemma Associate(a: string, b: string, c: string)
    ensures a + b + c == a + (b + c)
  {
  }

  lemma Middle(a: string, b: string, c: string)
    ensures |a| + |b| <= |a + b + c| && (a + b + c)[|a|..|a| + |b|] == b
  {
  }

  lemma Regroup(h: string, p: string, b: string, q: string, t: string)
    ensures h + (p + b + q) + t == (h + p) + b + (q + t)
  {
  }

  /** Record k's block stands in the report right after the blocks of the
      records before it: one block per record, in list order. */
  lemma BlockInOrder(timestamp: string, explanation: string, records: seq<TestRecord>,
                     status: string, passed: nat, total: nat, k: nat)
    requires k < |records|
    ensures var text := Report(timestamp, explanation, records, status, passed, total);
      var at := |ReportHead(timestamp, explanation, status, passed, total)| + |Blocks(records[..k])|;
      at + |Block(records[k])| <= |text| && text[at..at + |Block(records[k])|] == Block(records[k])
  {
    BlockBetween(ReportHead(timestamp, explanation, status, passed, total), records,
                 ReportTail(status, passed, total), k);
  }

  /** Between any head and tail, block k follows the blocks before it. */
  lemma BlockBetween(head: string, records: seq<TestRecord>, tail: string, k: nat)
    requires k < |records|
    ensures var text := head + Blocks(records) + tail;
      var at := |head| + |Blocks(records[..k])|;
      at + |Block(records[k])| <= |text| && text[at..at + |Block(records[k])|] == Block(records[k])
  {
    var pre, post := records[..k], records[k + 1..];
    assert records == pre + [records[k]] + post;
    BlocksAppend(pre + [records[k]], post);
    BlocksAppend(pre, [records[k]]);
    assert [records[k]][..0] == [];
    var b := Block(records[k]);
    assert Blocks(records) == Blocks(pre) + b + Blocks(post);
    Regroup(head, Blocks(pre), b, Blocks(post), tail);
    Middle(head + Blocks(pre), b, Blocks(post) + tail);
  }

  lemma Reassociate(a: string, b: string, c: string, d: string, e: string)
    ensures (a + b + c) + d + e == a + b + (c + d + e)
    ensures a + b + (c + d + e) == (a + b + c) + (d + e)
  {
  }

  /** The report carries the summary line "Summary:   <status> (<passed>/<total> tests)". */
  lemma ReportHasSummary(timestamp: string, explanation: string, records: seq<TestRecord>,
                         status: string, passed: nat, total: nat)
    ensures Contains(Report(timestamp, explanation, records, status, passed, total), SummaryLine(status, passed, total))
  {
    var line := SummaryLine(status, passed, total);
    var pre, blocks, tail := Preamble(explanation), Blocks(records), ReportTail(status, passed, total);
    Reassociate(Banner(timestamp), line, pre, blocks, tail);
    ContainsInfix(Banner(timestamp), line, pre + blocks + tail);
  }

  predicate IsSuffix(p: string, s: string) {
    |p| <= |s| && s[|s| - |p|..] == p
  }

  lemma SuffixOfConcat(x: string, y: string)
    ensures IsSuffix(y, x + y)
  {
  }

  /** `c + e` is not a suffix of `x + t + e` when `t` is longer than `c` and
      differs from it where `c` would start. */
  lemma NotSuffix(x: string, t: string, c: string, e: string)
    requires 0 < |c| < |t| && c[0] != t[|t| - |c|]
    ensures !IsSuffix(c + e, x + t + e)
  {
    var s := x + t + e;
    assert s[|s| - |c + e|] == t[|t| - |c|];
    assert (c + e)[0] == c[0];
  }

  /** Symmetrically, the longer `t + e` is not a suffix of `x + c + e`. */
  lemma NotSuffixLonger(x: string, t: string, c: string, e: string)
    requires 0 < |c| < |t| && c[0] != t[|t| - |c|]
    ensures !IsSuffix(t + e, x + c + e)
  {
    var s := x + c + e;
    if |t + e| <= |s| {
      assert s[|s| - |c + e|] == c[0];
      assert (t + e)[|t| - |c|] == t[|t| - |c|];
      assert s[|s| - |t + e|..][|t| - |c|] == s[|s| - |c + e|];
    }
  }

  lemma ClosingTexts()
    ensures 0 < |CONCLUSIONS| < |TROUBLESHOOTING| && 0 < |TROUBLESHOOTING|
    ensures CONCLUSIONS[0] != TROUBLESHOOTING[|TROUBLESHOOTING| - |CONCLUSIONS|]
    ensures CONCLUSIONS[0] != TROUBLESHOOTING[0]
  {
    assert CONCLUSIONS[0] == 'C' && TROUBLESHOOTING[0] == 'T';
    assert TROUBLESHOOTING[|TROUBLESHOOTING| - |CONCLUSIONS|] == 'c';
  }

  /** Everything in front of the closing block. */
  function ReportBody(timestamp: string, explanation: string, records: seq<TestRecord>,
                      status: string, passed: nat, total: nat): string
  {
    ReportHead(timestamp, explanation, status, passed, total) + Blocks(records) + Totals(status, passed, total)
  }

  lemma ReportSplit(timestamp: string, explanation: string, records: seq<TestRecord>,
                    status: string, passed: nat, total: nat)
    ensures Report(timestamp, explanation, records, status, passed, total)
         == ReportBody(timestamp, explanation, records, status, passed, total) + Closing(passed == total) + END_BANNER
  {
    var head, blocks, totals := ReportHead(timestamp, explanation, status, passed, total), Blocks(records), Totals(status, passed, total);
    Reassociate(head, blocks, totals, Closing(passed == total), END_BANNER);
  }

  /** Which of two closing texts ends `body + closing + e`, when the longer
      one differs from the shorter where the shorter would start. */
  lemma ClosingSuffix(body: string, c: string, t: string, e: string, first: bool)
    requires 0 < |c| < |t| && c[0] != t[|t| - |c|]
    ensures var s := body + (if first then c else t) + e;
      (IsSuffix(c + e, s) <==> first) && (IsSuffix(t + e, s) <==> !first)
  {
    if first {
      SuffixOfConcat(body, c + e);
      NotSuffixLonger(body, t, c, e);
    } else {
      SuffixOfConcat(body, t + e);
      NotSuffix(body, t, c, e);
    }
  }

  /** The report closes with the conclusions block exactly when every test
      passed, and with the troubleshooting hints otherwise. */
  lemma ReportClosing(timestamp: string, explanation: string, records: seq<TestRecord>,
                      status: string, passed: nat, total: nat)
    ensures var text := Report(timestamp, explanation, records, status, passed, total);
      (IsSuffix(CONCLUSIONS + END_BANNER, text) <==> passed == total)
      && (IsSuffix(TROUBLESHOOTING + END_BANNER, text) <==> passed != total)
  {
    var body := ReportBody(timestamp, explanation, records, status, passed, total);
    ReportSplit(timestamp, explanation, records, status, passed, total);
    ClosingTexts();
    ClosingSuffix(body, CONCLUSIONS, TROUBLESHOOTING, END_BANNER, passed == total);
  }
}
