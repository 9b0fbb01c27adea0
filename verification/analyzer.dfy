/** One analysis run (main.py:266-303): every registry entry is probed in
    iteration order, one result row is recorded per entry, and a running best
    is kept with a strict `<`. The probe itself (main.py:86-94) is an oracle:
    the run is given one outcome per entry, `Some(h)` for a connection that
    took `h` hundredths of a millisecond (`measure_latency` rounds to two
    places, main.py:92) and
    `None` when the connection failed or timed out. */
module Analyzer {

  import opened Wrappers
  import opened Servers

  /** A row's third column: a latency or the "Timeout" marker. */
  datatype Latency = Ms(hundredths: nat) | Timeout

  /** One `(name, ip, latency)` tuple of `self.results`. */
  datatype Row = Row(name: string, address: string, latency: Latency)

  /** The fastest server together with the latency it answered in. */
  datatype Best = Best(entry: Entry, latency: nat)

  /** What a run leaves behind: the result rows and `best`. */
  datatype Report = Report(results: seq<Row>, best: Option<Best>)

  function ToLatency(probe: Option<nat>): Latency {
    match probe
    case Some(h) => Ms(h)
    case None => Timeout
  }

  /** Index `k` answered, no answer among the first `n` was faster, and every
      answer before `k` was strictly slower: `k` is where the earliest minimum
      of the first `n` outcomes sits. */
  ghost predicate IsFirstMinimumWithin(probes: seq<Option<nat>>, n: nat, k: int)
    requires n <= |probes|
  {
    && 0 <= k < n
    && probes[k].Some?
    && (forall j :: 0 <= j < n && probes[j].Some? ==> probes[k].value <= probes[j].value)
    && (forall j :: 0 <= j < k && probes[j].Some? ==> probes[k].value < probes[j].value)
  }

  ghost predicate IsFirstMinimum(probes: seq<Option<nat>>, k: int) {
    IsFirstMinimumWithin(probes, |probes|, k)
  }

  ghost predicate NoneAnswered(probes: seq<Option<nat>>, n: nat)
    requires n <= |probes|
  {
    forall j :: 0 <= j < n ==> probes[j].None?
  }

  /** The row recorded for entry `e` (main.py:280-288). */
  function RowOf(e: Entry, probe: Option<nat>): Row {
    Row(e.name, e.address, ToLatency(probe))
  }

  /** One iteration of the loop at main.py:277-291. */
  function Step(acc: Report, e: Entry, probe: Option<nat>): (r: Report)
    ensures r.results == acc.results + [RowOf(e, probe)]
    ensures r.best != acc.best ==> probe.Some? && r.best == Some(Best(e, probe.value))
    ensures acc.best.Some? ==> r.best.Some? && r.best.value.latency <= acc.best.value.latency
    ensures probe.Some? ==> r.best.Some? && r.best.value.latency <= probe.value
    ensures acc.best.Some? && probe.Some? && probe.value == acc.best.value.latency ==> r.best == acc.best
  {
    var best :=
      if probe.Some? && (acc.best.None? || probe.value < acc.best.value.latency)
      then Some(Best(e, probe.value))
      else acc.best;
    Report(acc.results + [RowOf(e, probe)], best)
  }

  /** The running best over the first `n` entries is still the earliest
      minimum after one more entry is scanned. */
  lemma StepKeepsFirstMinimum(probes: seq<Option<nat>>, n: nat, k: int)
    requires n < |probes|
    requires IsFirstMinimumWithin(probes, n, k)
    ensures probes[n].None? || probes[k].value <= probes[n].value ==> IsFirstMinimumWithin(probes, n + 1, k)
    ensures probes[n].Some? && probes[n].value < probes[k].value ==> IsFirstMinimumWithin(probes, n + 1, n)
  {
  }

  /** What the running best promises after `n` entries. */
  ghost predicate BestInvariant(reg: Registry, probes: seq<Option<nat>>, n: nat, best: Option<Best>)
    requires |probes| == |reg| && n <= |reg|
  {
    && (best.None? <==> NoneAnswered(probes, n))
    && (best.Some? ==> exists k :: IsFirstMinimumWithin(probes, n, k)
                                   && best.value == Best(reg[k], probes[k].value))
  }

  lemma StepKeepsBestInvariant(reg: Registry, probes: seq<Option<nat>>, n: nat, acc: Report)
    requires |probes| == |reg| && n < |reg|
    requires BestInvariant(reg, probes, n, acc.best)
    ensures BestInvariant(reg, probes, n + 1, Step(acc, reg[n], probes[n]).best)
  {
    var r := Step(acc, reg[n], probes[n]);
    if acc.best.Some? {
      var k :| IsFirstMinimumWithin(probes, n, k) && acc.best.value == Best(reg[k], probes[k].value);
      StepKeepsFirstMinimum(probes, n, k);
    } else {
      assert probes[n].Some? ==> IsFirstMinimumWithin(probes, n + 1, n);
    }
  }

  /** The state of the loop after the first `n` entries. */
  function Scan(reg: Registry, probes: seq<Option<nat>>, n: nat): (r: Report)
    requires |probes| == |reg| && n <= |reg|
    ensures |r.results| == n
    ensures forall i :: 0 <= i < n ==> r.results[i] == RowOf(reg[i], probes[i])
    ensures BestInvariant(reg, probes, n, r.best)
  {
    if n == 0 then Report([], None)
    else
      var acc := Scan(reg, probes, n - 1);
      StepKeepsBestInvariant(reg, probes, n - 1, acc);
      Step(acc, reg[n - 1], probes[n - 1])
  }

  /** `analyze_dns_servers`: probe every entry in registry order. */
  function Analyze(reg: Registry, probes: seq<Option<nat>>): (r: Report)
    requires |probes| == |reg|
    ensures |r.results| == |reg|
    ensures forall i :: 0 <= i < |reg| ==>
              && r.results[i].name == reg[i].name
              && r.results[i].address == reg[i].address
              && (r.results[i].latency.Ms? <==> probes[i].Some?)
              && (probes[i].Some? ==> r.results[i].latency == Ms(probes[i].value))
    ensures r.best.None? <==> forall i :: 0 <= i < |probes| ==> probes[i].None?
    ensures r.best.Some? ==>
              exists k :: IsFirstMinimum(probes, k) && r.best.value == Best(reg[k], probes[k].value)
  {
    Scan(reg, probes, |reg|)
  }

  /** At most one index is the earliest minimum, so `best` is determined. */
  lemma FirstMinimumUnique(probes: seq<Option<nat>>, k1: int, k2: int)
    requires IsFirstMinimum(probes, k1) && IsFirstMinimum(probes, k2)
    ensures k1 == k2
  {
  }

  /** Whenever someone answered, the run's best is the earliest minimum and
      its latency is below or equal to every answer. */
  lemma BestIsFirstMinimum(reg: Registry, probes: seq<Option<nat>>, k: int)
    requires |probes| == |reg|
    requires IsFirstMinimum(probes, k)
    ensures Analyze(reg, probes).best == Some(Best(reg[k], probes[k].value))
  {
    var r := Analyze(reg, probes);
    assert probes[k].Some?;
    var k' :| IsFirstMinimum(probes, k') && r.best.value == Best(reg[k'], probes[k'].value);
    FirstMinimumUnique(probes, k, k');
  }

  /** The empty registry yields no rows and no best: the "no servers
      responded" branch, not a failure. */
  lemma EmptyRegistry()
    ensures Analyze([], []) == Report([], None)
  {
  }

  /** All four defaults unreachable: four timeout rows and no best. */
  lemma DefaultsAllTimeOut()
    ensures var r := Analyze(Defaults(), [None, None, None, None]);
            && r.best == None
            && forall i :: 0 <= i < 4 ==> r.results[i].latency == Timeout
  {
  }

  /** A at 50 ms, B at 30 ms, C timing out: B is the best, rows stay A, B, C. */
  lemma FastestWins()
    ensures var reg := [Entry("A", "10.0.0.1"), Entry("B", "10.0.0.2"), Entry("C", "10.0.0.3")];
            var r := Analyze(reg, [Some(5000), Some(3000), None]);
            && r.best == Some(Best(Entry("B", "10.0.0.2"), 3000))
            && r.results[0].name == "A" && r.results[1].name == "B" && r.results[2].name == "C"
  {
    var reg := [Entry("A", "10.0.0.1"), Entry("B", "10.0.0.2"), Entry("C", "10.0.0.3")];
    BestIsFirstMinimum(reg, [Some(5000), Some(3000), None], 1);
  }

  /** Two servers at exactly the same latency: the earlier one wins. */
  lemma TieGoesToEarlier()
    ensures var reg := [Entry("A", "10.0.0.1"), Entry("B", "10.0.0.2")];
            Analyze(reg, [Some(1234), Some(1234)]).best == Some(Best(Entry("A", "10.0.0.1"), 1234))
  {
    var reg := [Entry("A", "10.0.0.1"), Entry("B", "10.0.0.2")];
    BestIsFirstMinimum(reg, [Some(1234), Some(1234)], 0);
  }
}
