/** The PDF summary (main.py:347-368): one text line per result row,
    written down the page from y = 770 in steps of 20, starting a new page at
    y = 800 once the cursor falls below 100. The canvas itself is left out;
    the model produces the lines and where each is drawn. */
module Export {

  import opened Wrappers
  import opened Text
  import opened Analyzer

  const TitleY := 800
  const FirstY := 770
  const LineStep := 20
  const BottomMargin := 100
  const PageTopY := 800

  /** Lines that fit on the first page (770 down to 110) and on every later
      page (800 down to 100). */
  const FirstPageLines := 34
  const PageLines := 36

  /** The latency column of a line. */
  function LatencyText(l: Latency): (t: string)
    ensures l.Timeout? <==> t == "Timeout"
    ensures l.Ms? ==> |t| > 3 && t[|t| - 3..] == " ms"
  {
    match l
    case Ms(h) =>
      var t := Hundredths(h) + " ms";
      assert t[|t| - 1] == 's';
      t
    case Timeout => "Timeout"
  }

  /** The text drawn for one row (main.py:359). */
  function Line(row: Row): string {
    row.name + " - " + row.address + " -> " + LatencyText(row.latency)
  }

  /** Every line starts with the server's name and address; after the arrow
      comes `Timeout` exactly for a timed-out row, and `<number> ms`
      otherwise. */
  lemma LineShape(row: Row)
    ensures var prefix := row.name + " - " + row.address + " -> ";
            var t := Line(row);
            && |prefix| < |t|
            && t[..|prefix|] == prefix
            && (row.latency.Timeout? <==> t[|prefix|..] == "Timeout")
            && (row.latency.Ms? ==> t[|prefix|..] == Hundredths(row.latency.hundredths) + " ms")
  {
    var prefix := row.name + " - " + row.address + " -> ";
    assert Line(row)[|prefix|..] == LatencyText(row.latency);
  }

  /** A line as the summary prints it. */
  lemma LineExample()
    ensures Line(Row("A", "1.1.1.1", Ms(1234))) == "A - 1.1.1.1 -> 12.34 ms"
    ensures Line(Row("A", "1.1.1.1", Timeout)) == "A - 1.1.1.1 -> Timeout"
  {
    NumericLineExample();
    TimeoutLineExample();
  }

  lemma NumericLineExample()
    ensures Line(Row("A", "1.1.1.1", Ms(1234))) == "A - 1.1.1.1 -> 12.34 ms"
  {
    PrintedExample();
    var t := Line(Row("A", "1.1.1.1", Ms(1234)));
    assert t == "A" + " - " + "1.1.1.1" + " -> " + "12.34" + " ms";
    assert forall i :: 0 <= i < |t| ==> t[i] == "A - 1.1.1.1 -> 12.34 ms"[i];
  }

  lemma TimeoutLineExample()
    ensures Line(Row("A", "1.1.1.1", Timeout)) == "A - 1.1.1.1 -> Timeout"
  {
    var u := Line(Row("A", "1.1.1.1", Timeout));
    assert forall i :: 0 <= i < |u| ==> u[i] == "A - 1.1.1.1 -> Timeout"[i];
  }

  lemma PrintedExample()
    ensures Hundredths(1234) == "12.34"
  {
    assert Decimal(12) == "12" by {
      assert Decimal(1) == "1";
    }
  }

  /** Reads the latency column back. */
  function ReadLatency(text: string): (l: Option<Latency>)
    ensures l == Some(Timeout) <==> text == "Timeout"
  {
    if text == "Timeout" then Some(Timeout)
    else if |text| >= 3 && text[|text| - 3..] == " ms" then
      match ParseHundredths(text[..|text| - 3])
      case Some(h) => Some(Ms(h))
      case None => None
    else None
  }

  lemma LatencyTextRoundTrip(l: Latency)
    ensures ReadLatency(LatencyText(l)) == Some(l)
  {
    match l
    case Timeout =>
    case Ms(h) =>
      var t := LatencyText(l);
      assert t[|t| - 3..] == " ms";
      assert t[..|t| - 3] == Hundredths(h);
      HundredthsRoundTrip(h);
  }

  /** A timeout never prints like a number, and two rows for the same server
      print alike only when their latencies agree. */
  lemma LineDeterminesLatency(name: string, address: string, a: Latency, b: Latency)
    requires Line(Row(name, address, a)) == Line(Row(name, address, b))
    ensures a == b
  {
    var prefix := name + " - " + address + " -> ";
    var la, lb := Line(Row(name, address, a)), Line(Row(name, address, b));
    assert la == prefix + LatencyText(a) && lb == prefix + LatencyText(b);
    assert LatencyText(a) == la[|prefix|..];
    assert LatencyText(b) == lb[|prefix|..];
    LatencyTextRoundTrip(a);
    LatencyTextRoundTrip(b);
  }

  /** Where a line is drawn. */
  datatype Position = Position(page: nat, y: int)

  /** Position of the `i`-th line, in closed form. */
  function Layout(i: nat): (p: Position)
    ensures BottomMargin <= p.y <= PageTopY
    ensures p.page == 0 ==> p.y <= FirstY < TitleY
  {
    if i < FirstPageLines then Position(0, FirstY - LineStep * i)
    else
      var q := i - FirstPageLines;
      Position(q / PageLines + 1, PageTopY - LineStep * (q % PageLines))
  }

  /** The cursor update after each line (main.py:361-365) moves from the
      position of line `i` to that of line `i + 1`. */
  lemma LayoutNext(i: nat)
    ensures var p := Layout(i);
            Layout(i + 1) == if p.y - LineStep < BottomMargin
                             then Position(p.page + 1, PageTopY)
                             else Position(p.page, p.y - LineStep)
  {
    if i >= FirstPageLines {
      var q := i - FirstPageLines;
      if q % PageLines == PageLines - 1 {
        assert (q + 1) / PageLines == q / PageLines + 1;
        assert (q + 1) % PageLines == 0;
      } else {
        assert (q + 1) / PageLines == q / PageLines;
        assert (q + 1) % PageLines == q % PageLines + 1;
      }
    }
  }

  /** Lines run down the page and pages never go back: a later line is on a
      later page, or lower on the same one. */
  lemma {:induction false} LayoutOrdered(i: nat, j: nat)
    requires i < j
    ensures Layout(i).page <= Layout(j).page
    ensures Layout(i).page == Layout(j).page ==> Layout(i).y > Layout(j).y
    decreases j - i
  {
    LayoutNext(i);
    if i + 1 < j {
      LayoutOrdered(i + 1, j);
    }
  }

  /** A line as placed on the canvas. */
  datatype Placed = Placed(page: nat, y: int, text: string)

  /** `export_to_pdf` without the file dialog and the canvas: the lines and
      where each is drawn, in result order. */
  method ExportSummary(rows: seq<Row>) returns (lines: seq<Placed>)
    ensures |lines| == |rows|
    ensures forall i :: 0 <= i < |rows| ==> lines[i].text == Line(rows[i])
    ensures forall i :: 0 <= i < |rows| ==> BottomMargin <= lines[i].y <= PageTopY
    ensures forall i :: 0 <= i < |rows| ==> Position(lines[i].page, lines[i].y) == Layout(i)
  {
    lines := [];
    var page: nat := 0;
    var y := FirstY;
    var i := 0;
    while i < |rows|
      invariant 0 <= i <= |rows|
      invariant |lines| == i
      invariant forall j :: 0 <= j < i ==> lines[j].text == Line(rows[j])
      invariant forall j :: 0 <= j < i ==> Position(lines[j].page, lines[j].y) == Layout(j)
      invariant Position(page, y) == Layout(i)
    {
      lines := lines + [Placed(page, y, Line(rows[i]))];
      LayoutNext(i);
      y := y - LineStep;
      if y < BottomMargin {
        page := page + 1;
        y := PageTopY;
      }
      i := i + 1;
    }
  }
}
