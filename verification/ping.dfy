/** The `ping` worker of `run_ping_test`: every line of the `ping` output that
    holds the marker "Average" is read, the value after its last '=' is kept,
    later lines overwriting earlier ones, and a missing or empty value reports
    failure. */
module Ping {
  import opened Basics
  import opened Strings

  const Marker: string := "Average"

  predicate HasMarker(line: string) {
    Contains(line, Marker)
  }

  /** The value of a summary line: the text after its last '=', trimmed. */
  function FieldValue(line: string): (v: string)
    ensures Trimmed(v)
    ensures '=' !in v
    ensures forall c :: c in v ==> c in line
  {
    Strip(AfterLast(line, '='))
  }

  /** What the scan settles on: the value of the LAST line holding the marker,
      or nothing when no line holds it. */
  function AverageOf(lines: seq<string>): (v: Option<string>)
    ensures v.None? <==> forall i :: 0 <= i < |lines| ==> !HasMarker(lines[i])
  {
    match LastIndexWhere(lines, HasMarker)
    case None => None
    case Some(k) => Some(FieldValue(lines[k]))
  }

  /** The value found is that of the last line holding the marker. */
  lemma AverageOfLast(lines: seq<string>, k: nat)
    requires k < |lines| && HasMarker(lines[k])
    requires forall j :: k < j < |lines| ==> !HasMarker(lines[j])
    ensures AverageOf(lines) == Some(FieldValue(lines[k]))
  {
    LastIndexWhereIs(lines, HasMarker, k);
  }

  /** The scanning loop over `output.splitlines()`: it does not stop at the first
      match, so the last marker line decides. */
  method ScanAverage(output: string) returns (pingTime: Option<string>)
    ensures pingTime == AverageOf(SplitLines(output))
    ensures pingTime.None? <==> forall i :: 0 <= i < |SplitLines(output)| ==> !HasMarker(SplitLines(output)[i])
    ensures pingTime.Some? ==> Trimmed(pingTime.value) && '=' !in pingTime.value
  {
    var lines := SplitLines(output);
    pingTime := None;
    var i := 0;
    while i < |lines|
      invariant 0 <= i <= |lines|
      invariant pingTime == AverageOf(lines[..i])
    {
      AverageStep(lines, i);
      if HasMarker(lines[i]) {
        pingTime := Some(FieldValue(lines[i]));
      }
      i := i + 1;
    }
    assert lines[..i] == lines;
  }

  /** One more line changes the value found only when it holds the marker. */
  lemma AverageStep(lines: seq<string>, i: nat)
    requires i < |lines|
    ensures HasMarker(lines[i]) ==> AverageOf(lines[..i + 1]) == Some(FieldValue(lines[i]))
    ensures !HasMarker(lines[i]) ==> AverageOf(lines[..i + 1]) == AverageOf(lines[..i])
  {
    var prefix := lines[..i + 1];
    assert prefix[i] == lines[i];
    if HasMarker(lines[i]) {
      AverageOfLast(prefix, i);
    } else {
      assert prefix[..i] == lines[..i];
    }
  }

  /** The outcome shown to the user. */
  datatype PingReport = Latency(value: string) | PingFailed

  /** Python truthiness of the value found: an absent value and an empty one
      both mean failure. */
  function Report(pingTime: Option<string>): (r: PingReport)
    ensures r.Latency? <==> pingTime.Some? && pingTime.value != []
    ensures r.Latency? ==> r.value == pingTime.value
  {
    match pingTime
    case Some(v) => if v != [] then Latency(v) else PingFailed
    case None => PingFailed
  }

  /** The ping test on captured output: it fails exactly when no line holds the
      marker or the value after the last '=' of the last such line is blank;
      otherwise it reports that non-empty, trimmed value. */
  method PingTest(output: string) returns (r: PingReport)
    ensures r.PingFailed? <==>
              || (forall i :: 0 <= i < |SplitLines(output)| ==> !HasMarker(SplitLines(output)[i]))
              || AverageOf(SplitLines(output)) == Some([])
    ensures r.Latency? ==> r.value != [] && Trimmed(r.value) && '=' !in r.value
    ensures r.Latency? ==> AverageOf(SplitLines(output)) == Some(r.value)
  {
    var pingTime := ScanAverage(output);
    r := Report(pingTime);
  }

  /** Later matches win: once a later block of lines holds the marker, nothing
      before it matters. */
  lemma LaterMatchWins(a: seq<string>, b: seq<string>)
    requires exists j :: 0 <= j < |b| && HasMarker(b[j])
    ensures AverageOf(a + b) == AverageOf(b)
  {
    var k := LastIndexWhere(b, HasMarker).value;
    LastIndexWhereShift(a, b, HasMarker, k);
    assert (a + b)[|a| + k] == b[k];
  }

  /** Lines after the last marker line, such as the blank lines that end the
      output, leave the value alone. */
  lemma TrailingLinesKeep(lines: seq<string>, more: seq<string>)
    requires forall j :: 0 <= j < |more| ==> !HasMarker(more[j])
    ensures AverageOf(lines + more) == AverageOf(lines)
  {
    LastIndexWhereAppend(lines, more, HasMarker);
    if LastIndexWhere(lines, HasMarker).Some? {
      var k := LastIndexWhere(lines, HasMarker).value;
      assert (lines + more)[k] == lines[k];
    }
  }

  /** A final line holding the marker decides the result on its own. */
  lemma LastLineDecides(before: seq<string>, line: string)
    requires HasMarker(line)
    ensures AverageOf(before + [line]) == Some(FieldValue(line))
  {
    assert [line][0] == line;
    LaterMatchWins(before, [line]);
    assert LastIndexWhere([line], HasMarker) == Some(0);
  }

  /** The summary line of Windows `ping` yields its average: whatever lines come
      before "Minimum = 10ms, Maximum = 20ms, Average = 15ms", the reported
      latency is "15ms". */
  lemma SummaryLineAverage(before: seq<string>)
    ensures Report(AverageOf(before + ["Minimum = 10ms, Maximum = 20ms, Average = 15ms"])) == Latency("15ms")
  {
    SummaryHasMarker();
    SummaryField();
    LastLineDecides(before, "Minimum = 10ms, Maximum = 20ms, Average = 15ms");
  }

  lemma SummaryHasMarker()
    ensures HasMarker("Minimum = 10ms, Maximum = 20ms, Average = 15ms")
  {
    assert "Minimum = 10ms, Maximum = 20ms, Average = 15ms"
        == "Minimum = 10ms, Maximum = 20ms, " + Marker + " = 15ms";
    ContainsInfix("Minimum = 10ms, Maximum = 20ms, ", Marker, " = 15ms");
  }

  lemma SummaryField()
    ensures FieldValue("Minimum = 10ms, Maximum = 20ms, Average = 15ms") == "15ms"
  {
    SummaryAfterLast();
    StripFifteen();
  }

  lemma SummaryAfterLast()
    ensures AfterLast("Minimum = 10ms, Maximum = 20ms, Average = 15ms", '=') == " 15ms"
  {
    var line := "Minimum = 10ms, Maximum = 20ms, Average = 15ms";
    assert line == "Minimum = 10ms, Maximum = 20ms, Average " + ['='] + " 15ms";
    AfterLastOf("Minimum = 10ms, Maximum = 20ms, Average ", '=', " 15ms");
  }

  lemma StripFifteen()
    ensures Strip(" 15ms") == "15ms"
  {
    StripPadded([' '], "15ms", []);
    assert [' '] + "15ms" + [] == " 15ms";
  }
}
