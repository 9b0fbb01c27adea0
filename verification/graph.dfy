/** The bar chart of a run (main.py:230-247): one bar per result row,
    timeouts drawn with length 0, and every row whose latency equals the
    smallest numeric latency highlighted. */
module Graph {

  import opened Wrappers
  import opened Servers
  import opened Analyzer

  /** The smallest numeric latency among `rows`, if any row has one. */
  function NumericMin(rows: seq<Row>): (m: Option<nat>)
    ensures m.None? <==> forall i :: 0 <= i < |rows| ==> rows[i].latency.Timeout?
    ensures m.Some? ==> exists i :: 0 <= i < |rows| && rows[i].latency == Ms(m.value)
    ensures m.Some? ==> forall i :: 0 <= i < |rows| && rows[i].latency.Ms? ==> m.value <= rows[i].latency.hundredths
  {
    if rows == [] then None
    else
      var rest := NumericMin(rows[..|rows| - 1]);
      var last := rows[|rows| - 1];
      assert forall i :: 0 <= i < |rows| - 1 ==> rows[..|rows| - 1][i] == rows[i];
      match last.latency
      case Timeout => rest
      case Ms(h) =>
        if rest.Some? && rest.value <= h then rest else Some(h)
  }

  /** `min(numeric latencies, default=0)` (main.py:234). */
  function MinLatency(rows: seq<Row>): (m: nat)
    ensures (forall i :: 0 <= i < |rows| ==> rows[i].latency.Timeout?) ==> m == 0
    ensures forall i :: 0 <= i < |rows| && rows[i].latency.Ms? ==> m <= rows[i].latency.hundredths
    ensures (exists i :: 0 <= i < |rows| && rows[i].latency.Ms?) ==>
              exists i :: 0 <= i < |rows| && rows[i].latency == Ms(m)
  {
    NumericMin(rows).GetOr(0)
  }

  /** One horizontal bar: its caption, its length and whether it is drawn in
      the highlight colour. */
  datatype Bar = Bar(caption: string, length: nat, highlighted: bool)

  /** Row `i` holds a numeric latency no other numeric latency undercuts. */
  predicate AtMinimum(rows: seq<Row>, i: int)
    requires 0 <= i < |rows|
  {
    && rows[i].latency.Ms?
    && forall j :: 0 <= j < |rows| && rows[j].latency.Ms? ==>
         rows[i].latency.hundredths <= rows[j].latency.hundredths
  }

  function BarOf(row: Row, min: nat): Bar {
    Bar(row.name + "\n" + row.address,
        if row.latency.Ms? then row.latency.hundredths else 0,
        row.latency.Ms? && row.latency.hundredths == min)
  }

  /** `redraw_graph`: nothing is drawn for an empty result list; otherwise
      the bars, in result order. */
  function Redraw(rows: seq<Row>): (chart: Option<seq<Bar>>)
    ensures chart.None? <==> rows == []
    ensures chart.Some? ==> |chart.value| == |rows|
    ensures chart.Some? ==> forall i :: 0 <= i < |rows| ==>
              && chart.value[i].caption == rows[i].name + "\n" + rows[i].address
              && (rows[i].latency.Ms? ==> chart.value[i].length == rows[i].latency.hundredths)
              && (rows[i].latency.Timeout? ==> chart.value[i].length == 0 && !chart.value[i].highlighted)
              && (chart.value[i].highlighted <==> AtMinimum(rows, i))
  {
    if rows == [] then None
    else
      var min := MinLatency(rows);
      Some(seq(|rows|, i requires 0 <= i < |rows| => BarOf(rows[i], min)))
  }

  /** Probe `i` answered, and no answer was faster. */
  ghost predicate Fastest(probes: seq<Option<nat>>, i: int)
    requires 0 <= i < |probes|
  {
    && probes[i].Some?
    && forall j :: 0 <= j < |probes| && probes[j].Some? ==> probes[i].value <= probes[j].value
  }

  /** A bar of a run's chart is highlighted exactly when its probe answered
      no slower than any other. */
  lemma HighlightedIffFastest(reg: Registry, probes: seq<Option<nat>>, i: int)
    requires |probes| == |reg| && 0 <= i < |reg|
    ensures Redraw(Analyze(reg, probes).results).value[i].highlighted <==> Fastest(probes, i)
  {
    var rows := Analyze(reg, probes).results;
    assert forall j :: 0 <= j < |rows| ==> (rows[j].latency.Ms? <==> probes[j].Some?);
    assert forall j :: 0 <= j < |rows| && rows[j].latency.Ms? ==> rows[j].latency.hundredths == probes[j].value;
  }

  /** Ties at the minimum are all highlighted, and at least one bar is
      highlighted exactly when some server answered. */
  lemma HighlightMatchesBest(reg: Registry, probes: seq<Option<nat>>)
    requires |probes| == |reg| && reg != []
    ensures var report := Analyze(reg, probes);
            var bars := Redraw(report.results).value;
            && ((exists i :: 0 <= i < |bars| && bars[i].highlighted) <==> report.best.Some?)
            && (report.best.Some? ==> forall i :: 0 <= i < |bars| ==>
                  (bars[i].highlighted <==> probes[i] == Some(report.best.value.latency)))
  {
    var report := Analyze(reg, probes);
    var bars := Redraw(report.results).value;
    forall i | 0 <= i < |bars| ensures bars[i].highlighted <==> Fastest(probes, i) {
      HighlightedIffFastest(reg, probes, i);
    }
    HighlightFollowsBest(probes, bars, report.best);
  }

  /** The chart-level facts follow from the per-bar rule and the run's best
      alone, whatever the bars and best are. */
  lemma HighlightFollowsBest(probes: seq<Option<nat>>, bars: seq<Bar>, best: Option<Best>)
    requires |bars| == |probes|
    requires forall i :: 0 <= i < |bars| ==> (bars[i].highlighted <==> Fastest(probes, i))
    requires best.None? <==> forall i :: 0 <= i < |probes| ==> probes[i].None?
    requires best.Some? ==> exists k :: IsFirstMinimum(probes, k) && best.value.latency == probes[k].value
    ensures (exists i :: 0 <= i < |bars| && bars[i].highlighted) <==> best.Some?
    ensures best.Some? ==> forall i :: 0 <= i < |bars| ==>
              (bars[i].highlighted <==> probes[i] == Some(best.value.latency))
  {
    if best.Some? {
      var k :| IsFirstMinimum(probes, k) && best.value.latency == probes[k].value;
      forall i | 0 <= i < |probes| ensures Fastest(probes, i) <==> probes[i] == Some(probes[k].value) {
        FastestIsMinimum(probes, k, i);
      }
      assert Fastest(probes, k);
    } else {
      forall i | 0 <= i < |bars| ensures !bars[i].highlighted {
        assert probes[i].None?;
      }
    }
  }

  /** Once `k` holds the minimum, the fastest probes are exactly those that
      answered with the same latency. */
  lemma FastestIsMinimum(probes: seq<Option<nat>>, k: int, i: int)
    requires IsFirstMinimum(probes, k) && 0 <= i < |probes|
    ensures Fastest(probes, i) <==> probes[i] == Some(probes[k].value)
  {
  }

  /** The run's best is the first highlighted bar. */
  lemma BestIsFirstHighlighted(reg: Registry, probes: seq<Option<nat>>, k: int)
    requires |probes| == |reg|
    requires IsFirstMinimum(probes, k)
    ensures var bars := Redraw(Analyze(reg, probes).results).value;
            && bars[k].highlighted
            && forall i :: 0 <= i < k ==> !bars[i].highlighted
  {
  }
}
