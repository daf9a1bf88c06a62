/** The `trace` worker of `run_traceroute`: the `tracert` output is cut into
    lines, the header is skipped, each remaining line that splits into at least
    three words names a hop by its last word, and the hops are chained from
    "Start" into the route graph. */
module Traceroute {
  import opened Basics
  import opened Strings
  import opened RouteGraph

  /** Lines at the head of the output (`[4:]`) that are never read as hops. */
  const HeaderLines: nat := 4

  /** The hop named by one line of output. Blank lines, and lines with fewer
      than three words, name none; otherwise the hop is the last word
      (`trace`'s conditional picks the last word on both of its branches). */
  function HopLabel(line: string): (hop: Option<string>)
    ensures hop.Some? <==> |Tokens(line)| >= 3
    ensures hop.Some? ==> hop.value == Last(Tokens(line)) && IsWord(hop.value)
  {
    if Strip(line) == [] then None
    else
      var parts := Tokens(line);
      if |parts| >= 3 then Some(Last(parts)) else None
  }

  /** A line made of at least three words names its last word; a line of at
      most two words names nothing, whatever whitespace leads, trails or
      separates them. */
  lemma HopLabelOfWords(ws: seq<string>, gaps: seq<string>)
    requires forall i :: 0 <= i < |ws| ==> IsWord(ws[i])
    requires Spacing(ws, gaps)
    ensures |ws| >= 3 ==> HopLabel(Layout(ws, gaps)) == Some(Last(ws))
    ensures |ws| < 3 ==> HopLabel(Layout(ws, gaps)) == None
  {
    TokensOfLayout(ws, gaps);
  }

  /** A hop line as Windows `tracert` prints it, indented and padded with runs
      of spaces, names the address at its end. */
  lemma TracertLineHop()
    ensures HopLabel("  1    <1 ms    <1 ms    <1 ms  192.168.1.1") == Some("192.168.1.1")
  {
    var ws := ["1", "<1", "ms", "<1", "ms", "<1", "ms", "192.168.1.1"];
    var gaps := ["  ", "    ", " ", "    ", " ", "    ", " ", "  ", ""];
    TracertLineLayout(ws, gaps);
    TracertLineSpacing(ws, gaps);
    HopLabelOfWords(ws, gaps);
  }

  lemma TracertLineSpacing(ws: seq<string>, gaps: seq<string>)
    requires ws == ["1", "<1", "ms", "<1", "ms", "<1", "ms", "192.168.1.1"]
    requires gaps == ["  ", "    ", " ", "    ", " ", "    ", " ", "  ", ""]
    ensures forall i :: 0 <= i < |ws| ==> IsWord(ws[i])
    ensures Spacing(ws, gaps)
  {
  }

  lemma TracertLineLayout(ws: seq<string>, gaps: seq<string>)
    requires ws == ["1", "<1", "ms", "<1", "ms", "<1", "ms", "192.168.1.1"]
    requires gaps == ["  ", "    ", " ", "    ", " ", "    ", " ", "  ", ""]
    ensures Layout(ws, gaps) == "  1    <1 ms    <1 ms    <1 ms  192.168.1.1"
  {
    assert Layout(ws[8..], gaps[8..]) == "";
    LayoutFrom(ws, gaps, 7);
    TracertSuffix7();
    LayoutFrom(ws, gaps, 6);
    TracertSuffix6();
    LayoutFrom(ws, gaps, 5);
    TracertSuffix5();
    LayoutFrom(ws, gaps, 4);
    TracertSuffix4();
    LayoutFrom(ws, gaps, 3);
    TracertSuffix3();
    LayoutFrom(ws, gaps, 2);
    TracertSuffix2();
    LayoutFrom(ws, gaps, 1);
    TracertSuffix1();
    LayoutFrom(ws, gaps, 0);
    TracertSuffix0();
    assert ws[0..] == ws && gaps[0..] == gaps;
  }

  /**
   * The line above, assembled from its last word back to its first. Each step
   * is a lemma of its own: the solver's cost of a literal string equality grows
   * with the length of the literals, and the eight steps together do not fit
   * within one proof's resource budget.
   */
  lemma TracertSuffix7()
    ensures "  " + "192.168.1.1" + "" == "  192.168.1.1"
  {
  }

  lemma TracertSuffix6()
    ensures " " + "ms" + "  192.168.1.1" == " ms  192.168.1.1"
  {
  }

  lemma TracertSuffix5()
    ensures "    " + "<1" + " ms  192.168.1.1" == "    <1 ms  192.168.1.1"
  {
  }

  lemma TracertSuffix4()
    ensures " " + "ms" + "    <1 ms  192.168.1.1" == " ms    <1 ms  192.168.1.1"
  {
  }

  lemma TracertSuffix3()
    ensures "    " + "<1" + " ms    <1 ms  192.168.1.1" == "    <1 ms    <1 ms  192.168.1.1"
  {
  }

  lemma TracertSuffix2()
    ensures " " + "ms" + "    <1 ms    <1 ms  192.168.1.1" == " ms    <1 ms    <1 ms  192.168.1.1"
  {
  }

  lemma TracertSuffix1()
    ensures "    " + "<1" + " ms    <1 ms    <1 ms  192.168.1.1" == "    <1 ms    <1 ms    <1 ms  192.168.1.1"
  {
  }

  lemma TracertSuffix0()
    ensures "  " + "1" + "    <1 ms    <1 ms    <1 ms  192.168.1.1" == "  1    <1 ms    <1 ms    <1 ms  192.168.1.1"
  {
  }

  /** The hops named by a run of lines, in order. */
  function HopLabels(lines: seq<string>): seq<string>
    decreases |lines|
  {
    if lines == [] then []
    else
      var init := HopLabels(lines[..|lines| - 1]);
      match HopLabel(Last(lines))
      case Some(h) => init + [h]
      case None => init
  }

  /** One more line adds the hop it names, if any. */
  lemma HopLabelsStep(lines: seq<string>, i: nat)
    requires i < |lines|
    ensures HopLabel(lines[i]).Some? ==>
              HopLabels(lines[..i + 1]) == HopLabels(lines[..i]) + [HopLabel(lines[i]).value]
    ensures HopLabel(lines[i]).None? ==> HopLabels(lines[..i + 1]) == HopLabels(lines[..i])
  {
    assert lines[..i + 1][..i] == lines[..i];
  }

  /** Lines are read independently: the hops of two runs of lines are the hops of
      the first followed by those of the second. */
  lemma {:induction false} HopLabelsAppend(a: seq<string>, b: seq<string>)
    ensures HopLabels(a + b) == HopLabels(a) + HopLabels(b)
    decreases |b|
  {
    if b == [] {
      assert a + b == a;
    } else {
      var b' := b[..|b| - 1];
      assert (a + b)[..|a + b| - 1] == a + b';
      assert Last(a + b) == Last(b);
      HopLabelsAppend(a, b');
    }
  }

  /** The lines after the header: `output.split('\n')[4:]`. */
  function BodyLines(output: string): seq<string> {
    var lines := Split(output, '\n');
    if |lines| <= HeaderLines then [] else lines[HeaderLines..]
  }

  /** Whatever the first four lines say, they contribute no hop: the hops of the
      whole output are those of the lines after them. */
  lemma HeaderNeverHops(header: seq<string>, body: seq<string>)
    requires |header| == HeaderLines
    requires forall i :: 0 <= i < |header + body| ==> '\n' !in (header + body)[i]
    ensures HopLabels(BodyLines(Join(header + body, '\n'))) == HopLabels(body)
  {
    SplitJoin(header + body, '\n');
    if body != [] {
      assert (header + body)[HeaderLines..] == body;
    }
  }

  /** `trace`: builds the route graph hop by hop, as `trace`'s loop does, and
      yields the chain over the hops the output names. The graph holds "Start",
      has no more edges than hop lines, and is connected. */
  method Trace(output: string) returns (g: Graph)
    ensures g == ChainGraph(HopLabels(BodyLines(output)))
    ensures Start in g.nodes
    ensures |g.edges| <= |HopLabels(BodyLines(output))|
    ensures forall n :: n in g.nodes ==> Reachable(g, n)
  {
    var lines := Split(output, '\n');
    var body := if |lines| <= HeaderLines then [] else lines[HeaderLines..];
    var nodes: set<string> := {Start};
    var edges: set<set<string>> := {};
    var prev := Start;
    var i := 0;
    while i < |body|
      invariant 0 <= i <= |body|
      invariant Graph(nodes, edges) == ChainGraph(HopLabels(body[..i]))
      invariant prev == Last(Walk(HopLabels(body[..i])))
    {
      var line := body[i];
      HopLabelsStep(body, i);
      ghost var before := HopLabels(body[..i]);
      if Strip(line) != [] {
        var parts := Tokens(line);
        if |parts| >= 3 {
          var hop := Last(parts);
          assert HopLabel(line) == Some(hop);
          TraceStep(before, hop, nodes, edges);
          nodes := nodes + {hop};
          edges := edges + {Edge(prev, hop)};
          nodes := nodes + {prev};
          prev := hop;
        }
      }
      i := i + 1;
    }
    assert body[..|body|] == body;
    g := Graph(nodes, edges);
    ChainConnected(HopLabels(body));
  }

  /** The loop's update for an accepted hop: the node, then the edge from the
      previous node (which also adds that node), then the hop becomes the
      previous node. */
  lemma TraceStep(before: seq<string>, hop: string, nodes: set<string>, edges: set<set<string>>)
    requires Graph(nodes, edges) == ChainGraph(before)
    ensures Graph(nodes + {hop} + {Last(Walk(before))}, edges + {Edge(Last(Walk(before)), hop)})
         == ChainGraph(before + [hop])
    ensures Last(Walk(before + [hop])) == hop
  {
    ChainStep(before, hop);
    assert nodes + {hop} + {Last(Walk(before))} == nodes + {Last(Walk(before)), hop};
    assert Walk(before + [hop]) == Walk(before) + [hop];
  }

  /** A hop line as its words and the whitespace around and between them. */
  datatype HopRow = HopRow(words: seq<string>, gaps: seq<string>)

  /** The text of a hop row. */
  function RowLine(row: HopRow): string
    requires |row.gaps| == |row.words| + 1
  {
    Layout(row.words, row.gaps)
  }

  /** Rows of at least three words, with whitespace gaps that hold no '\n'. */
  ghost predicate HopRows(rows: seq<HopRow>) {
    forall i :: 0 <= i < |rows| ==>
      && |rows[i].words| >= 3
      && (forall j :: 0 <= j < |rows[i].words| ==> IsWord(rows[i].words[j]))
      && Spacing(rows[i].words, rows[i].gaps)
      && (forall j :: 0 <= j < |rows[i].gaps| ==> '\n' !in rows[i].gaps[j])
  }

  /** The lines of a run of hop rows, one line per row. */
  function RowLines(rows: seq<HopRow>): (lines: seq<string>)
    requires forall i :: 0 <= i < |rows| ==> |rows[i].gaps| == |rows[i].words| + 1
    ensures |lines| == |rows|
    decreases |rows|
  {
    if rows == [] then [] else RowLines(rows[..|rows| - 1]) + [RowLine(Last(rows))]
  }

  /** The last word of every row. */
  function LastWords(rows: seq<HopRow>): seq<string>
    requires forall i :: 0 <= i < |rows| ==> |rows[i].words| > 0
    decreases |rows|
  {
    if rows == [] then [] else LastWords(rows[..|rows| - 1]) + [Last(Last(rows).words)]
  }

  /** Every line made of three or more words names its last word as a hop. */
  lemma {:induction false} HopLabelsOfRows(rows: seq<HopRow>)
    requires HopRows(rows)
    ensures HopLabels(RowLines(rows)) == LastWords(rows)
    decreases |rows|
  {
    if rows != [] {
      var init := rows[..|rows| - 1];
      var row := Last(rows);
      HopLabelsOfRows(init);
      HopLabelOfWords(row.words, row.gaps);
      var line := RowLine(row);
      HopLabelsAppend(RowLines(init), [line]);
      assert [line][..0] == [];
    }
  }

  /** Words laid out with gaps free of '\n' hold no '\n'. */
  lemma {:induction false} LayoutOneLine(ws: seq<string>, gaps: seq<string>)
    requires |gaps| == |ws| + 1
    requires forall i :: 0 <= i < |ws| ==> IsWord(ws[i])
    requires forall i :: 0 <= i < |gaps| ==> '\n' !in gaps[i]
    ensures '\n' !in Layout(ws, gaps)
    decreases |ws|
  {
    if ws != [] {
      assert IsSpace('\n');
      assert '\n' !in ws[0];
      assert forall i :: 0 <= i < |gaps| - 1 ==> gaps[1..][i] == gaps[i + 1];
      LayoutOneLine(ws[1..], gaps[1..]);
      assert Layout(ws, gaps) == gaps[0] + ws[0] + Layout(ws[1..], gaps[1..]);
    }
  }

  /** A traceroute whose hop lines each report a different host (none called
      "Start"), after any four header lines, gives a chain with one node per hop
      plus "Start" and one edge per hop, however the hop lines are spaced. */
  lemma DistinctHopTrace(header: seq<string>, rows: seq<HopRow>)
    requires |header| == HeaderLines
    requires forall i :: 0 <= i < |header| ==> '\n' !in header[i]
    requires HopRows(rows)
    requires Distinct(Walk(LastWords(rows)))
    ensures var g := ChainGraph(HopLabels(BodyLines(Join(header + RowLines(rows), '\n'))));
            g == ChainGraph(LastWords(rows)) && |g.nodes| == |rows| + 1 && |g.edges| == |rows|
  {
    var body := RowLines(rows);
    forall i | 0 <= i < |header + body| ensures '\n' !in (header + body)[i] {
      if i >= |header| {
        RowLineOneLine(rows, i - |header|);
        assert (header + body)[i] == body[i - |header|];
      }
    }
    HeaderNeverHops(header, body);
    HopLabelsOfRows(rows);
    ChainSizesWhenDistinct(LastWords(rows));
    LastWordsLength(rows);
  }

  lemma {:induction false} RowLineOneLine(rows: seq<HopRow>, k: nat)
    requires HopRows(rows) && k < |rows|
    ensures '\n' !in RowLines(rows)[k]
    decreases |rows|
  {
    if k == |rows| - 1 {
      LayoutOneLine(Last(rows).words, Last(rows).gaps);
    } else {
      RowLineOneLine(rows[..|rows| - 1], k);
    }
  }

  lemma {:induction false} LastWordsLength(rows: seq<HopRow>)
    requires forall i :: 0 <= i < |rows| ==> |rows[i].words| > 0
    ensures |LastWords(rows)| == |rows|
    decreases |rows|
  {
    if rows != [] {
      LastWordsLength(rows[..|rows| - 1]);
    }
  }
}
