/** The helpers that accumulate measurements and create indication messages, as a state machine over calls.
    The std::set of UE lists is ordered by pointer value, so a new list may land at any position of the
    enumeration; the lists already present keep their relative order. */
module IndicationHelpers {
  import opened Wrappers
  import opened Words
  import opened Numerals
  import opened Measurements
  import opened IndicationFormats
  import opened IndicationMessage
  import opened HelperMetrics

  datatype Node = Lte | Nr

  datatype UeCall = LteUe(lte: LteUeArgs) | NrUe(nr: NrUeArgs) {
    function Node(): Node { if LteUe? then Lte else Nr }

    function Imsi(): seq<octet> { if LteUe? then lte.imsi else nr.imsi }
  }

  datatype CellCall = LteCell(lte: LteCellArgs) | NrCell(nr: NrCellArgs) {
    function Node(): Node { if LteCell? then Lte else Nr }
  }

  // A call on a helper; `at` is where the set places the new UE list.
  datatype Event = UeAdded(ue: UeCall, at: nat) | CellReported(cell: CellCall) {
    function Node(): Node { if UeAdded? then ue.Node() else cell.Node() }
  }

  datatype HelperState = HelperState(ues: seq<seq<MeasurementItem>>, cell: Option<seq<MeasurementItem>>)

  const INITIAL := HelperState([], None)

  // The metrics of a UE call; the conversion of the identity to a number can throw before anything is stored.
  function UeMetrics(call: UeCall): Result<seq<Metric>, NumeralError>
  {
    match Stoll(call.Imsi())
    case Err(e) => Err(e)
    case Ok(ueId) =>
      Ok(match call
         case LteUe(a) => UeListMetrics(LteUeTable(), ueId, a)
         case NrUe(a) => UeListMetrics(NrUeTable(), ueId, a))
  }

  function CellMetrics(call: CellCall, reduced: bool): seq<Metric>
  {
    match call
    case LteCell(a) => Metrics(LteCellTable(), a)
    case NrCell(a) => Metrics(NrCellTable(reduced), a)
  }

  function InsertAt<T>(s: seq<T>, at: nat, x: T): seq<T>
  {
    var k := if at <= |s| then at else |s|;
    s[..k] + [x] + s[k..]
  }

  function Step(s: HelperState, e: Event, reduced: bool): HelperState
  {
    match e
    case UeAdded(ue, at) =>
      (match UeMetrics(ue)
       case Ok(metrics) => s.(ues := InsertAt(s.ues, at, ItemsOf(metrics)))
       case Err(_) => s)
    case CellReported(cell) => s.(cell := Some(ItemsOf(CellMetrics(cell, reduced))))
  }

  function Run(s: HelperState, events: seq<Event>, reduced: bool): HelperState
    decreases |events|
  {
    if events == [] then s else Run(Step(s, events[0], reduced), events[1..], reduced)
  }

  function UeSchema(node: Node): seq<string>
  {
    match node
    case Lte => UeListNames(LteUeTable())
    case Nr => UeListNames(NrUeTable())
  }

  predicate FollowsSchema(schema: seq<string>, items: seq<MeasurementItem>)
  {
    Complete(items) && NamesOf(items) == schema
  }

  // Every UE list carries the one schema, and the cell list, once there is one, is not empty.
  predicate Uniform(schema: seq<string>, s: HelperState)
  {
    && (forall u :: 0 <= u < |s.ues| ==> FollowsSchema(schema, s.ues[u]))
    && (s.cell.Some? ==> Complete(s.cell.value) && s.cell.value != [])
  }

  // ---------- the invariant over every run ----------

  lemma UeCallFollowsSchema(call: UeCall)
    requires UeMetrics(call).Ok?
    ensures FollowsSchema(UeSchema(call.Node()), ItemsOf(UeMetrics(call).value))
  {
    hide NamesOfMetrics, UeListNames, UeListMetrics, LteUeTable, NrUeTable, ItemsOf, NamesOf, Stoll;
    NamesOfItems(UeMetrics(call).value);
    var ueId := Stoll(call.Imsi()).value;
    match call
    case LteUe(a) => UeNamesIgnoreArguments(LteUeTable(), ueId, a);
    case NrUe(a) => UeNamesIgnoreArguments(NrUeTable(), ueId, a);
  }

  lemma StepUniform(node: Node, s: HelperState, e: Event, reduced: bool)
    requires Uniform(UeSchema(node), s) && e.Node() == node
    ensures Uniform(UeSchema(node), Step(s, e, reduced))
  {
    hide FollowsSchema, UeSchema, UeMetrics, CellMetrics, ItemsOf;
    match e
    case UeAdded(ue, at) =>
      if UeMetrics(ue).Ok? {
        UeCallFollowsSchema(ue);
      }
    case CellReported(cell) =>
      CellNotEmpty(cell, reduced);
  }

  lemma CellNotEmpty(cell: CellCall, reduced: bool)
    ensures Complete(ItemsOf(CellMetrics(cell, reduced))) && ItemsOf(CellMetrics(cell, reduced)) != []
  {
    hide NrCellCommon;
  }

  lemma {:induction false} RunUniform(node: Node, s: HelperState, events: seq<Event>, reduced: bool)
    requires Uniform(UeSchema(node), s)
    requires forall i :: 0 <= i < |events| ==> events[i].Node() == node
    ensures Uniform(UeSchema(node), Run(s, events, reduced))
    decreases |events|
  {
    hide UeSchema, Step;
    if events != [] {
      hide Uniform;
      StepUniform(node, s, events[0], reduced);
      RunUniform(node, Step(s, events[0], reduced), events[1..], reduced);
    }
  }

  // The lists that a run of calls should leave: those of its UE calls that did not throw.
  function AddedBy(e: Event): multiset<seq<MeasurementItem>>
  {
    if e.UeAdded? && UeMetrics(e.ue).Ok? then multiset{ItemsOf(UeMetrics(e.ue).value)} else multiset{}
  }

  function Added(events: seq<Event>): multiset<seq<MeasurementItem>>
    decreases |events|
  {
    if events == [] then multiset{} else AddedBy(events[0]) + Added(events[1..])
  }

  lemma StepConserves(s: HelperState, e: Event, reduced: bool)
    ensures multiset(Step(s, e, reduced).ues) == multiset(s.ues) + AddedBy(e)
  {
    hide UeMetrics, CellMetrics, ItemsOf, InsertAt;
    if e.UeAdded? && UeMetrics(e.ue).Ok? {
      InsertConserves(s.ues, e.at, ItemsOf(UeMetrics(e.ue).value));
    }
  }

  // Nothing reported is lost or duplicated, wherever the set puts it.
  lemma {:induction false} RunConserves(s: HelperState, events: seq<Event>, reduced: bool)
    ensures multiset(Run(s, events, reduced).ues) == multiset(s.ues) + Added(events)
    decreases |events|
  {
    if events != [] {
      hide Step, AddedBy;
      StepConserves(s, events[0], reduced);
      RunConserves(Step(s, events[0], reduced), events[1..], reduced);
    }
  }

  lemma InsertConserves<T>(s: seq<T>, at: nat, x: T)
    ensures multiset(InsertAt(s, at, x)) == multiset(s) + multiset{x}
  {
    var k := if at <= |s| then at else |s|;
    assert s == s[..k] + s[k..];
  }

  // The cell report is the last one made.
  lemma {:induction false} RunKeepsLastCell(s: HelperState, events: seq<Event>, last: CellCall, after: seq<Event>,
                                            reduced: bool)
    requires forall i :: 0 <= i < |after| ==> after[i].UeAdded?
    ensures Run(s, events + [CellReported(last)] + after, reduced).cell == Some(ItemsOf(CellMetrics(last, reduced)))
    decreases |events| + |after|
  {
    hide UeMetrics, ItemsOf, CellMetrics;
    var all := events + [CellReported(last)] + after;
    if events != [] {
      assert all[1..] == events[1..] + [CellReported(last)] + after;
      RunKeepsLastCell(Step(s, events[0], reduced), events[1..], last, after, reduced);
    } else {
      assert all[0] == CellReported(last) && all[1..] == after;
      UeCallsKeepCell(Step(s, all[0], reduced), after, reduced);
    }
  }

  lemma {:induction false} UeCallsKeepCell(s: HelperState, events: seq<Event>, reduced: bool)
    requires forall i :: 0 <= i < |events| ==> events[i].UeAdded?
    ensures Run(s, events, reduced).cell == s.cell
    decreases |events|
  {
    if events != [] {
      hide UeMetrics, ItemsOf;
      UeCallsKeepCell(Step(s, events[0], reduced), events[1..], reduced);
    }
  }

  // ---------- what a Format 2 message says after any run ----------

  lemma UniformReadable(schema: seq<string>, s: HelperState)
    requires Uniform(schema, s)
    ensures Readable(Reports(s.ues))
    ensures s.ues != [] ==> MetricCount(Reports(s.ues)) == |schema|
    ensures forall u :: 0 <= u < |s.ues| ==>
      && Reports(s.ues)[u].metricNames == schema
      && |Reports(s.ues)[u].metricValues| == |schema|
  {
    hide NamesOf, ReportOf;
    forall u | 0 <= u < |s.ues|
      ensures Reports(s.ues)[u].metricNames == schema
      ensures |Reports(s.ues)[u].metricValues| == |schema|
    {
      assert FollowsSchema(schema, s.ues[u]);
      ReportNames(s.ues[u]);
    }
  }

  lemma SchemaNotEmpty(node: Node)
    ensures |UeSchema(node)| == if node == Lte then 7 else 55
  {
    hide CString;
  }

  // The Format 2 message made from this state has one row of records, metric after metric; column m is labelled
  // with the name under which UE u reported its m-th item, and the record at that column and UE is that item's value.
  predicate ColumnLabelled(schema: seq<string>, s: HelperState, m: nat, u: nat)
    requires u < |s.ues| && m < |schema|
  {
    && Readable(Reports(s.ues)) && Encoded(s.cell, s.ues, FORMAT2).Some?
    && var c := Encoded(s.cell, s.ues, FORMAT2).value.ue;
    && c.granulPeriod == Some(100) && |c.measData| == 1 && |c.measData[0]| == |schema| * |s.ues|
    && |c.measCondUeIdList| == |schema| == |s.ues[u]| && s.ues[u][m].Complete()
    && c.measCondUeIdList[m] == CondItem(schema[m], [MeasLabel(NoLabel(0))], false)
    && s.ues[u][m].info.value.measName == schema[m]
    && 0 <= m * |s.ues| + u < |c.measData[0]|
    && var rec := c.measData[0][m * |s.ues| + u];
    && rec.Real? && StandsFor(rec.value, s.ues[u][m].record.value)
  }

  lemma LabelledColumns(schema: seq<string>, s: HelperState, m: nat, u: nat)
    requires Uniform(schema, s) && u < |s.ues| && m < |schema|
    ensures ColumnLabelled(schema, s, m, u)
  {
    hide ReportOf, Flatten, Conditions;
    UniformReadable(schema, s);
    assert FollowsSchema(schema, s.ues[u]);
    ReportOfComplete(s.ues[u], m);
    FlattenAt(Reports(s.ues), |schema|, m, u);
  }

  // After any run of calls on a node's helper every column carries the right label for every UE. Items are
  // matched by position, since one name occurs twice in the NR schema.
  lemma ColumnsCarryTheirLabels(node: Node, events: seq<Event>, reduced: bool, m: nat, u: nat)
    requires forall i :: 0 <= i < |events| ==> events[i].Node() == node
    requires u < |Run(INITIAL, events, reduced).ues| && m < |UeSchema(node)|
    ensures ColumnLabelled(UeSchema(node), Run(INITIAL, events, reduced), m, u)
  {
    hide ColumnLabelled, Run, UeSchema;
    RunUniform(node, INITIAL, events, reduced);
    LabelledColumns(UeSchema(node), Run(INITIAL, events, reduced), m, u);
  }

  // The number of UEs in a message, from the message alone: its records for each metric.
  function UeCount(c: Format2Content): nat
    requires |c.measData| == 1
  {
    if c.measCondUeIdList == [] then 0 else |c.measData[0]| / |c.measCondUeIdList|
  }

  // The receiver can restore UE u's whole report from the flat records of the Format 2 message.
  predicate Recovered(s: HelperState, u: nat)
    requires u < |s.ues|
  {
    && Readable(Reports(s.ues)) && Encoded(s.cell, s.ues, FORMAT2).Some?
    && var c := Encoded(s.cell, s.ues, FORMAT2).value.ue;
    && |c.measData| == 1 && UeCount(c) == |s.ues|
    && Row(c.measData[0], UeCount(c), u) == Reals(ReportOf(s.ues[u]).metricValues)
  }

  lemma RecoverFromUniform(schema: seq<string>, s: HelperState, u: nat)
    requires Uniform(schema, s) && u < |s.ues| && schema != []
    ensures Recovered(s, u)
  {
    hide ReportOf, Flatten, Conditions, Row, Reals;
    UniformReadable(schema, s);
    LabelledColumns(schema, s, 0, u);
    DivModUnique(|schema| * |s.ues|, |schema|, |s.ues|, 0);
    UnflattenRecovers(Reports(s.ues));
  }

  lemma ReportsRecoverable(node: Node, events: seq<Event>, reduced: bool, u: nat)
    requires forall i :: 0 <= i < |events| ==> events[i].Node() == node
    requires u < |Run(INITIAL, events, reduced).ues|
    ensures Recovered(Run(INITIAL, events, reduced), u)
  {
    hide Run, Recovered, UeSchema;
    RunUniform(node, INITIAL, events, reduced);
    SchemaNotEmpty(node);
    RecoverFromUniform(UeSchema(node), Run(INITIAL, events, reduced), u);
  }

  // The first column is the UE id: the number of the sign and digits that the identity carries after white space,
  // however it is padded. The call throws when that is no long.
  lemma UeIdColumn(call: UeCall, space: seq<octet>, sign: seq<octet>, ds: seq<octet>, rest: seq<octet>)
    requires Reads(call.Imsi(), space, sign, ds, rest)
    ensures UeMetrics(call).Ok? <==> IsLong(Numeral(sign, ds))
    ensures UeMetrics(call).Ok? ==>
      UeMetrics(call).value != [] && UeMetrics(call).value[0] == ("UEID", Long(Numeral(sign, ds)))
  {
    hide Stoll, Numeral, IsLong, LteUeTable, NrUeTable, Metrics;
    StollReads(call.Imsi(), space, sign, ds, rest);
  }

  // ---------- one message against the calls ----------

  // The row a list is reported as, and the rows of a state.
  function RowOf(items: seq<MeasurementItem>): seq<RecordItem> { Reals(ReportOf(items).metricValues) }

  function RowsOf(ues: seq<seq<MeasurementItem>>): (rows: seq<seq<RecordItem>>)
    ensures |rows| == |ues|
  {
    seq(|ues|, u requires 0 <= u < |ues| => RowOf(ues[u]))
  }

  // The values a call hands to the helper, as Format 2 carries them.
  function GivenValue(v: Value): real {
    match v
    case Long(l) => ToDouble(l)
    case Double(d) => d
  }

  function Given(metrics: seq<Metric>): (row: seq<RecordItem>)
    ensures |row| == |metrics|
  {
    seq(|metrics|, i requires 0 <= i < |metrics| => Real(GivenValue(metrics[i].1)))
  }

  lemma GivenIsReported(metrics: seq<Metric>)
    ensures RowOf(ItemsOf(metrics)) == Given(metrics)
  {
    var items := ItemsOf(metrics);
    ReportPaired(items);
    forall i | 0 <= i < |metrics| ensures RowOf(items)[i] == Given(metrics)[i] {
      ReportOfComplete(items, i);
    }
  }

  // UEs whose identities read as numbers of at most 53 bits share their first record, the UE id, exactly when those
  // numbers are equal.
  lemma SmallIdsStayApart(a: UeCall, b: UeCall)
    requires UeMetrics(a).Ok? && UeMetrics(b).Ok?
    requires Abs(Stoll(a.Imsi()).value) <= TWO53 && Abs(Stoll(b.Imsi()).value) <= TWO53
    ensures var x, y := Given(UeMetrics(a).value), Given(UeMetrics(b).value);
      x != [] && y != [] && (x[0] == y[0] <==> Stoll(a.Imsi()) == Stoll(b.Imsi()))
  {
    hide Stoll, ToDouble, Abs, LteUeTable, NrUeTable, Metrics;
    ToDoubleSmall(Stoll(a.Imsi()).value, Stoll(b.Imsi()).value);
  }

  // The values that a call gives a helper to report: none when it throws.
  function GivenBy(e: Event): multiset<seq<RecordItem>>
  {
    if e.UeAdded? && UeMetrics(e.ue).Ok? then multiset{Given(UeMetrics(e.ue).value)} else multiset{}
  }

  function GivenRows(events: seq<Event>): multiset<seq<RecordItem>>
    decreases |events|
  {
    if events == [] then multiset{} else GivenBy(events[0]) + GivenRows(events[1..])
  }

  lemma RowsOfInsert(ues: seq<seq<MeasurementItem>>, at: nat, items: seq<MeasurementItem>)
    ensures multiset(RowsOf(InsertAt(ues, at, items))) == multiset(RowsOf(ues)) + multiset{RowOf(items)}
  {
    hide RowOf;
    assert RowsOf(InsertAt(ues, at, items)) == InsertAt(RowsOf(ues), at, RowOf(items));
    InsertConserves(RowsOf(ues), at, RowOf(items));
  }

  lemma StepConservesRows(s: HelperState, e: Event, reduced: bool)
    ensures multiset(RowsOf(Step(s, e, reduced).ues)) == multiset(RowsOf(s.ues)) + GivenBy(e)
  {
    hide UeMetrics, CellMetrics, ItemsOf, RowsOf, RowOf, Given, InsertAt;
    if e.UeAdded? && UeMetrics(e.ue).Ok? {
      var metrics := UeMetrics(e.ue).value;
      GivenIsReported(metrics);
      RowsOfInsert(s.ues, e.at, ItemsOf(metrics));
    }
  }

  lemma {:induction false} RunConservesRows(s: HelperState, events: seq<Event>, reduced: bool)
    ensures multiset(RowsOf(Run(s, events, reduced).ues)) == multiset(RowsOf(s.ues)) + GivenRows(events)
    decreases |events|
  {
    if events != [] {
      hide Step, GivenBy, RowsOf;
      StepConservesRows(s, events[0], reduced);
      RunConservesRows(Step(s, events[0], reduced), events[1..], reduced);
    }
  }

  // The rows that a receiver reads back from a message.
  function RowsRead(c: Format2Content): (rows: seq<seq<RecordItem>>)
    requires |c.measData| == 1
    ensures |rows| == UeCount(c)
  {
    seq(UeCount(c), u requires 0 <= u < UeCount(c) => Row(c.measData[0], UeCount(c), u))
  }

  // The rows read back from the state's Format 2 message are these.
  predicate Carried(s: HelperState, rows: multiset<seq<RecordItem>>)
    requires s.ues != []
  {
    && Readable(Reports(s.ues)) && Encoded(s.cell, s.ues, FORMAT2).Some?
    && var c := Encoded(s.cell, s.ues, FORMAT2).value.ue;
    && |c.measData| == 1
    && multiset(RowsRead(c)) == rows
  }

  lemma CarriedRows(s: HelperState)
    requires s.ues != [] && forall u :: 0 <= u < |s.ues| ==> Recovered(s, u)
    ensures Carried(s, multiset(RowsOf(s.ues)))
  {
    hide Row, Reals, ReportOf, Flatten, Conditions, UeCount;
    assert Recovered(s, 0);
    var c := Encoded(s.cell, s.ues, FORMAT2).value.ue;
    forall u | 0 <= u < |s.ues| ensures RowsRead(c)[u] == RowsOf(s.ues)[u] {
      assert Recovered(s, u);
    }
    assert RowsRead(c) == RowsOf(s.ues);
  }

  // After any run, the rows read back from one Format 2 message are the values of the calls that did not throw:
  // each call's once, none lost, duplicated or mixed, in whatever order the set enumerates them.
  lemma MessageCarriesTheCalls(node: Node, events: seq<Event>, reduced: bool)
    requires forall i :: 0 <= i < |events| ==> events[i].Node() == node
    requires Run(INITIAL, events, reduced).ues != []
    ensures Carried(Run(INITIAL, events, reduced), GivenRows(events))
  {
    hide Run, Recovered, Carried, GivenRows;
    var s := Run(INITIAL, events, reduced);
    forall u | 0 <= u < |s.ues| ensures Recovered(s, u) {
      ReportsRecoverable(node, events, reduced, u);
    }
    CarriedRows(s);
    RunConservesRows(INITIAL, events, reduced);
    assert multiset(RowsOf(INITIAL.ues)) == multiset{};
    assert multiset(RowsOf(s.ues)) == GivenRows(events);
  }

  // Column m of the state's Format 2 message has this name, and some UE's row has this value there.
  predicate Delivers(s: HelperState, m: nat, name: string, value: real)
  {
    && s.ues != [] && Readable(Reports(s.ues)) && Encoded(s.cell, s.ues, FORMAT2).Some?
    && var c := Encoded(s.cell, s.ues, FORMAT2).value.ue;
    && |c.measData| == 1
    && m < |c.measCondUeIdList| && c.measCondUeIdList[m].measName == CString(name)
    && exists u :: 0 <= u < UeCount(c) && m < |RowsRead(c)[u]| && RowsRead(c)[u][m] == Real(value)
  }

  lemma {:induction false} GivenByEvent(events: seq<Event>, p: nat)
    requires p < |events| && events[p].UeAdded? && UeMetrics(events[p].ue).Ok?
    ensures Given(UeMetrics(events[p].ue).value) in GivenRows(events)
    decreases |events|
  {
    hide UeMetrics, Given;
    if p > 0 {
      GivenByEvent(events[1..], p - 1);
    }
  }

  lemma RunNotEmpty(events: seq<Event>, reduced: bool)
    requires |GivenRows(events)| > 0
    ensures Run(INITIAL, events, reduced).ues != []
  {
    hide Run, GivenRows;
    RunConservesRows(INITIAL, events, reduced);
    assert RowsOf(INITIAL.ues) == [];
    assert multiset(RowsOf(INITIAL.ues)) == multiset{};
  }

  // Every argument of every call that did not throw reaches the message: its value stands in some row, in a column
  // that carries its name.
  lemma ArgumentReachesMessage(node: Node, events: seq<Event>, reduced: bool, p: nat, m: nat)
    requires forall i :: 0 <= i < |events| ==> events[i].Node() == node
    requires p < |events| && events[p].UeAdded? && UeMetrics(events[p].ue).Ok?
    requires m < |UeMetrics(events[p].ue).value|
    ensures var metric := UeMetrics(events[p].ue).value[m];
      Delivers(Run(INITIAL, events, reduced), m, metric.0, GivenValue(metric.1))
  {
    hide Run, UeMetrics, UeSchema, Uniform, GivenRows, RowsRead, Carried, ColumnLabelled, GivenValue;
    var s, metrics := Run(INITIAL, events, reduced), UeMetrics(events[p].ue).value;
    GivenByEvent(events, p);
    RunNotEmpty(events, reduced);
    MessageCarriesTheCalls(node, events, reduced);
    UeCallFollowsSchema(events[p].ue);
    NamesOfItems(metrics);
    ColumnsCarryTheirLabels(node, events, reduced, m, 0);
    RowDelivers(UeSchema(node), s, GivenRows(events), metrics, m);
  }

  lemma RowDelivers(schema: seq<string>, s: HelperState, rows: multiset<seq<RecordItem>>, metrics: seq<Metric>,
                    m: nat)
    requires s.ues != [] && m < |metrics| && NamesOfMetrics(metrics) == schema
    requires Carried(s, rows) && Given(metrics) in rows && ColumnLabelled(schema, s, m, 0)
    ensures Delivers(s, m, metrics[m].0, GivenValue(metrics[m].1))
  {
    hide Flatten, Conditions, UeCount, Row, CString, GivenValue, Readable, Reports;
    var c := Encoded(s.cell, s.ues, FORMAT2).value.ue;
    assert Given(metrics) in RowsRead(c);
    var u :| 0 <= u < |RowsRead(c)| && RowsRead(c)[u] == Given(metrics);
    assert RowsRead(c)[u][m] == Real(GivenValue(metrics[m].1));
  }

  // ---------- the cell message against the calls ----------

  // The state's Format 1 message says exactly this.
  predicate CellShown(s: HelperState, metrics: seq<Metric>)
  {
    && Encoded(s.cell, s.ues, FORMAT1).Some? && Encoded(s.cell, s.ues, FORMAT1).value.CellMessage?
    && Shows(Encoded(s.cell, s.ues, FORMAT1).value.cell, metrics)
  }

  lemma CellMetricsCount(cell: CellCall, reduced: bool)
    ensures |CellMetrics(cell, reduced)| == if cell.LteCell? then 5 else if reduced then 28 else 30
  {
    hide NrCellCommon;
  }

  // After any run the cell message holds the metrics of the last cell call, and nothing of any other.
  lemma MessageShowsTheCell(events: seq<Event>, last: CellCall, after: seq<Event>, reduced: bool)
    requires forall i :: 0 <= i < |after| ==> after[i].UeAdded?
    ensures CellShown(Run(INITIAL, events + [CellReported(last)] + after, reduced), CellMetrics(last, reduced))
  {
    hide Run, CellMetrics, Encoded, Shows;
    var s := Run(INITIAL, events + [CellReported(last)] + after, reduced);
    RunKeepsLastCell(INITIAL, events, last, after, reduced);
    CellMetricsCount(last, reduced);
    CellMessageShows(s.cell, s.ues, CellMetrics(last, reduced));
  }

  // Without a cell call it holds four fixed metrics.
  lemma MessageShowsTheDefault(events: seq<Event>, reduced: bool)
    requires forall i :: 0 <= i < |events| ==> events[i].UeAdded?
    ensures CellShown(Run(INITIAL, events, reduced),
                      [("DRB.PdcpSduDelayDl", Double(0.0)), ("pdcpBytesUl", Double(0.1)),
                       ("pdcpBytesDl", Double(0.2)), ("numActiveUes", Double(0.3))])
  {
    hide Run, Encoded, Shows;
    var s := Run(INITIAL, events, reduced);
    UeCallsKeepCell(INITIAL, events, reduced);
    CellMessageShows(s.cell, s.ues, [("DRB.PdcpSduDelayDl", Double(0.0)), ("pdcpBytesUl", Double(0.1)),
                                     ("pdcpBytesDl", Double(0.2)), ("numActiveUes", Double(0.3))]);
  }

  // ---------- the helper object ----------

  ghost predicate Distinct<T>(s: seq<T>) { forall i, j :: 0 <= i < j < |s| ==> s[i] != s[j] }

  function FormatFor(target: string): FormatType
  {
    if target == "cell" then FORMAT1 else if target == "ue" then FORMAT2 else FORMAT3
  }

  class IndicationMessageHelper {
    const node: Node
    const offline: bool
    const reducedPmValues: bool
    var cellObjectId: string
    var cellMeasurementItems: MeasurementItemList?
    var ueIndications: seq<MeasurementItemList>

    constructor (node: Node, isOffline: bool, reducedPmValues: bool)
      ensures Valid() && State() == INITIAL
      ensures this.node == node && this.offline == isOffline && this.reducedPmValues == reducedPmValues
      ensures cellObjectId == if isOffline then "" else if node == Lte then "eNB" else "gNB"
    {
      hide UeSchema;
      this.node, this.offline, this.reducedPmValues := node, isOffline, reducedPmValues;
      cellObjectId := if isOffline then "" else if node == Lte then "eNB" else "gNB";
      cellMeasurementItems := null;
      ueIndications := [];
    }

    function State(): HelperState
      reads this, ueIndications, cellMeasurementItems
    {
      HelperState(ItemLists(ueIndications), CellItems(cellMeasurementItems))
    }

    ghost predicate Valid()
      reads this, ueIndications, cellMeasurementItems
    {
      && Uniform(UeSchema(node), State())
      && Distinct(ueIndications)
    }

    // m_ueIndications.insert: the pointer order decides the position.
    method InsertUe(list: MeasurementItemList) returns (ghost at: nat)
      requires Distinct(ueIndications) && list !in ueIndications
      modifies this`ueIndications
      ensures ueIndications == InsertAt(old(ueIndications), at, list)
      ensures at < |ueIndications| && ueIndications[at] == list && Distinct(ueIndications)
    {
      var k: nat :| k <= |ueIndications|;
      at := k;
      InsertDistinct(ueIndications, k, list);
      ueIndications := ueIndications[..k] + [list] + ueIndications[k..];
    }

    ghost predicate Placed(before: seq<MeasurementItemList>, at: nat, id: seq<octet>)
      reads this
    {
      && at < |ueIndications| && ueIndications[at] !in before && ueIndications[at].id == Some(id)
      && ueIndications == InsertAt(before, at, ueIndications[at])
    }

    method AddeNBUePmItem(a: LteUeArgs) returns (thrown: Option<NumeralError>, ghost at: nat)
      requires Valid() && node == Lte
      modifies this
      ensures State() == Step(old(State()), UeAdded(LteUe(a), at), reducedPmValues)
      ensures Valid()
      ensures thrown == if Stoll(a.imsi).Ok? then None else Some(Stoll(a.imsi).error)
      ensures if thrown.None? then Placed(old(ueIndications), at, a.imsi) else ueIndications == old(ueIndications)
      ensures cellObjectId == old(cellObjectId) && cellMeasurementItems == old(cellMeasurementItems)
    {
      hide Stoll, ItemsOf, UeListMetrics, LteUeTable, UeSchema, Uniform, InsertAt, Distinct;
      at := 0;
      thrown := None;
      ghost var before := State();
      var ueVal := new MeasurementItemList.WithId(a.imsi);
      match Stoll(a.imsi) {
        case Err(e) =>
          thrown := Some(e);
        case Ok(ueImsiLong) =>
          AddUeMetrics(ueVal, LteUeTable(), ueImsiLong, a);
          assert ueVal.items == ItemsOf(UeListMetrics(LteUeTable(), ueImsiLong, a));
          at := InsertUe(ueVal);
          ItemListsInsert(old(ueIndications), at, ueVal);
      }
      StepUniform(node, before, UeAdded(LteUe(a), at), reducedPmValues);
    }

    method AddgNBUeItem(a: NrUeArgs) returns (thrown: Option<NumeralError>, ghost at: nat)
      requires Valid() && node == Nr
      modifies this
      ensures State() == Step(old(State()), UeAdded(NrUe(a), at), reducedPmValues)
      ensures Valid()
      ensures thrown == if Stoll(a.imsi).Ok? then None else Some(Stoll(a.imsi).error)
      ensures if thrown.None? then Placed(old(ueIndications), at, a.imsi) else ueIndications == old(ueIndications)
      ensures cellObjectId == old(cellObjectId) && cellMeasurementItems == old(cellMeasurementItems)
    {
      hide Stoll, ItemsOf, UeListMetrics, NrUeTable, UeSchema, Uniform, InsertAt, Distinct;
      at := 0;
      thrown := None;
      ghost var before := State();
      var ueVal := new MeasurementItemList.WithId(a.imsi);
      match Stoll(a.imsi) {
        case Err(e) =>
          thrown := Some(e);
        case Ok(ueImsiLong) =>
          AddUeMetrics(ueVal, NrUeTable(), ueImsiLong, a);
          assert ueVal.items == ItemsOf(UeListMetrics(NrUeTable(), ueImsiLong, a));
          at := InsertUe(ueVal);
          ItemListsInsert(old(ueIndications), at, ueVal);
      }
      StepUniform(node, before, UeAdded(NrUe(a), at), reducedPmValues);
    }

    method AddeNBCellPmItem(a: LteCellArgs)
      requires Valid() && node == Lte
      modifies this
      ensures State() == Step(old(State()), CellReported(LteCell(a)), reducedPmValues)
      ensures Valid()
      ensures ueIndications == old(ueIndications) && cellObjectId == old(cellObjectId)
    {
      hide ItemsOf, Metrics, LteCellTable, UeSchema, Uniform;
      ghost var before := State();
      var cellVal := new MeasurementItemList();
      AddMetrics(cellVal, LteCellTable(), a);
      assert cellVal.items == ItemsOf(Metrics(LteCellTable(), a));
      cellMeasurementItems := cellVal;
      StepUniform(node, before, CellReported(LteCell(a)), reducedPmValues);
    }

    method AddgNBCellItem(a: NrCellArgs)
      requires Valid() && node == Nr
      modifies this
      ensures State() == Step(old(State()), CellReported(NrCell(a)), reducedPmValues)
      ensures Valid()
      ensures ueIndications == old(ueIndications) && cellObjectId == old(cellObjectId)
    {
      hide ItemsOf, Metrics, NrCellTable, UeSchema, Uniform;
      ghost var before := State();
      var cellVal := new MeasurementItemList();
      AddMetrics(cellVal, NrCellTable(reducedPmValues), a);
      assert cellVal.items == ItemsOf(Metrics(NrCellTable(reducedPmValues), a));
      cellMeasurementItems := cellVal;
      StepUniform(node, before, CellReported(NrCell(a)), reducedPmValues);
    }

    // The invariant is what makes Format 2's reads of every UE's values legal here.
    method CreateIndicationMessage(targetType: string) returns (encoded: Option<EncodedMessage>)
      requires Valid()
      ensures Readable(Reports(State().ues))
      ensures encoded == Encoded(State().cell, State().ues, FormatFor(targetType))
      ensures encoded.Some? <==> targetType == "cell" || (targetType == "ue" && ueIndications != [])
      ensures encoded.Some? ==> (encoded.value.CellMessage? <==> targetType == "cell")
    {
      var formatType: FormatType;
      if targetType == "cell" {
        formatType := FORMAT1;
      } else if targetType == "ue" {
        formatType := FORMAT2;
      } else {
        formatType := FORMAT3;
      }
      hide Uniform, UeSchema, Readable, Encoded;
      GateOpens(node, State(), formatType);
      encoded := FillAndEncode(cellMeasurementItems, ueIndications, formatType);
    }
  }

  lemma InsertDistinct<T>(s: seq<T>, at: nat, x: T)
    requires Distinct(s) && x !in s
    ensures Distinct(InsertAt(s, at, x))
  {
  }

  lemma ItemListsInsert(lists: seq<MeasurementItemList>, at: nat, list: MeasurementItemList)
    ensures ItemLists(InsertAt(lists, at, list)) == InsertAt(ItemLists(lists), at, list.items)
  {
  }

  // For a helper's own states the encoder is reached for every cell request, and for a UE request exactly when
  // some UE has been reported.
  lemma GateOpens(node: Node, s: HelperState, format: FormatType)
    requires Uniform(UeSchema(node), s)
    ensures Readable(Reports(s.ues))
    ensures Encoded(s.cell, s.ues, format).Some? <==> format.FORMAT1? || (format.FORMAT2? && s.ues != [])
    ensures Encoded(s.cell, s.ues, format).Some? ==>
      (Encoded(s.cell, s.ues, format).value.CellMessage? <==> format.FORMAT1?)
  {
    hide ReportOf, Infos, Records, UeSchema, NamesOf;
    UniformReadable(UeSchema(node), s);
    forall u | 0 <= u < |s.ues| ensures Complete(s.ues[u]) {
      assert FollowsSchema(UeSchema(node), s.ues[u]);
    }
    EncodingGate(s.cell, s.ues, format);
    SchemaNotEmpty(node);
    if s.ues != [] {
      ReportPaired(s.ues[0]);
    }
  }
}
