/** Measurement items, the lists that carry them, and the reports extracted from those lists. */
module Measurements {
  import opened Wrappers
  import opened Words
  import opened Numerals

  // The argument of AddItem<long> or AddItem<double>.
  datatype Value = Long(long: int) | Double(double: real)

  datatype RecordItem = NoValue | Integer(integer: int) | Real(value: real)

  datatype Label = NoLabel(noLabel: int)

  datatype InfoItem = InfoItem(measName: string, labelInfoList: seq<Label>)

  // Either half may be missing in the type, as either pointer may be null.
  datatype MeasurementItem = MeasurementItem(info: Option<InfoItem>, record: Option<RecordItem>) {
    predicate Complete() { info.Some? && record.Some? }
  }

  // What a C string keeps of a name: everything before its first NUL.
  function CString(s: string): (r: string)
    ensures r <= s && '\0' !in r
    ensures '\0' !in s ==> r == s
    ensures |r| < |s| ==> s[|r|] == '\0'
  {
    if s == [] || s[0] == '\0' then [] else [s[0]] + CString(s[1..])
  }

  function NewRecord(v: Value): RecordItem {
    match v
    case Long(l) => Integer(l)
    case Double(d) => Real(d)
  }

  // The two constructors of MeasurementItem.
  function NewItem(name: string, v: Value): (item: MeasurementItem)
    ensures item.Complete()
  {
    MeasurementItem(Some(InfoItem(CString(name), [NoLabel(0)])), Some(NewRecord(v)))
  }

  class MeasurementItemList {
    const id: Option<seq<octet>>
    var items: seq<MeasurementItem>

    constructor ()
      ensures id == None && items == []
    {
      id := None;
      items := [];
    }

    constructor WithId(id: seq<octet>)
      ensures this.id == Some(id) && items == []
    {
      this.id := Some(id);
      items := [];
    }

    method AddItem(name: string, v: Value)
      modifies this
      ensures items == old(items) + [NewItem(name, v)]
    {
      var item := NewItem(name, v);
      items := items + [item];
    }
  }

  // A metric as a caller names it; the list that adding a run of metrics builds.
  type Metric = (string, Value)

  function ItemsOf(metrics: seq<Metric>): (items: seq<MeasurementItem>)
    ensures |items| == |metrics|
    ensures forall i :: 0 <= i < |items| ==> items[i] == NewItem(metrics[i].0, metrics[i].1)
  {
    seq(|metrics|, i requires 0 <= i < |metrics| => NewItem(metrics[i].0, metrics[i].1))
  }

  predicate Complete(items: seq<MeasurementItem>) { forall i :: 0 <= i < |items| ==> items[i].Complete() }

  // ---------- reports ----------

  // ueId is never filled by the extraction.
  datatype UeReport = UeReport(ueId: string, metricNames: seq<string>, metricValues: seq<real>)

  const EMPTY_REPORT := UeReport("", [], [])

  function MetricValue(rec: RecordItem): real {
    match rec
    case Integer(i) => ToDouble(i)
    case Real(r) => r
    case NoValue => 0.0
  }

  function Extend(rep: UeReport, item: MeasurementItem): UeReport {
    if !item.Complete() then rep
    else rep.(metricNames := rep.metricNames + [item.info.value.measName],
              metricValues := rep.metricValues + [MetricValue(item.record.value)])
  }

  function ReportOf(items: seq<MeasurementItem>): UeReport
  {
    if items == [] then EMPTY_REPORT else Extend(ReportOf(items[..|items| - 1]), items[|items| - 1])
  }

  // The items of a run of lists, and their reports.
  function ItemLists(lists: seq<MeasurementItemList>): (r: seq<seq<MeasurementItem>>)
    reads lists
    ensures |r| == |lists|
    ensures forall u :: 0 <= u < |r| ==> r[u] == lists[u].items
  {
    seq(|lists|, u requires 0 <= u < |lists| reads lists => lists[u].items)
  }

  function Reports(ues: seq<seq<MeasurementItem>>): (r: seq<UeReport>)
    ensures |r| == |ues|
    ensures forall u :: 0 <= u < |r| ==> r[u] == ReportOf(ues[u])
  {
    seq(|ues|, u requires 0 <= u < |ues| => ReportOf(ues[u]))
  }

  // The reports of the UE lists, in the order in which the set enumerates them.
  method ExtractUeReports(ueIndications: seq<MeasurementItemList>) returns (reports: seq<UeReport>)
    ensures reports == Reports(ItemLists(ueIndications))
  {
    reports := [];
    for u := 0 to |ueIndications|
      invariant |reports| == u
      invariant forall w :: 0 <= w < u ==> reports[w] == ReportOf(ueIndications[w].items)
    {
      var rep := EMPTY_REPORT;
      var items := ueIndications[u].items;
      for k := 0 to |items|
        invariant rep == ReportOf(items[..k])
      {
        assert items[..k + 1][..k] == items[..k];
        var info, rec := items[k].info, items[k].record;
        if info.None? || rec.None? {
          continue;
        }
        rep := rep.(metricNames := rep.metricNames + [info.value.measName]);
        match rec.value
        case Integer(i) => rep := rep.(metricValues := rep.metricValues + [ToDouble(i)]);
        case Real(r) => rep := rep.(metricValues := rep.metricValues + [r]);
        case NoValue => rep := rep.(metricValues := rep.metricValues + [0.0]);
      }
      assert items[..|items|] == items;
      reports := reports + [rep];
    }
  }

  // Names and values are always paired, and a list without missing halves is reported item by item.
  lemma {:induction false} ReportPaired(items: seq<MeasurementItem>)
    ensures |ReportOf(items).metricNames| == |ReportOf(items).metricValues| <= |items|
    ensures |ReportOf(items).metricNames| == |items| <==> Complete(items)
  {
    if items != [] {
      var front, last := items[..|items| - 1], items[|items| - 1];
      ReportPaired(front);
      assert items == front + [last];
      assert Complete(items) <==> Complete(front) && last.Complete();
    }
  }

  // The indices of the items that have both halves, in order.
  function WholeSources(items: seq<MeasurementItem>): (ks: seq<nat>)
    ensures forall i :: 0 <= i < |ks| ==> ks[i] < |items| && items[ks[i]].Complete()
    ensures forall i, j :: 0 <= i < j < |ks| ==> ks[i] < ks[j]
    ensures forall k :: 0 <= k < |items| && items[k].Complete() ==> k in ks
  {
    if items == [] then []
    else
      var n := |items| - 1;
      var front := items[..n];
      assert forall k :: 0 <= k < n ==> front[k] == items[k];
      WholeSources(front) + if items[n].Complete() then [n] else []
  }

  // A record as a report holds it: an integer becomes a double, a real stays what it is.
  predicate StandsFor(value: real, rec: RecordItem) {
    && (rec.Integer? ==> value == ToDouble(rec.integer))
    && (rec.Real? ==> value == rec.value)
    && (rec.NoValue? ==> value == 0.0)
  }

  // A report holds name and value of every item that has both halves, in order, and nothing else.
  lemma {:induction false} ReportFollowsSources(items: seq<MeasurementItem>)
    ensures |ReportOf(items).metricNames| == |ReportOf(items).metricValues| == |WholeSources(items)|
    ensures forall i :: 0 <= i < |WholeSources(items)| ==>
      var item := items[WholeSources(items)[i]];
      && ReportOf(items).metricNames[i] == item.info.value.measName
      && StandsFor(ReportOf(items).metricValues[i], item.record.value)
  {
    if items != [] {
      var front := items[..|items| - 1];
      ReportFollowsSources(front);
      assert forall k :: 0 <= k < |front| ==> front[k] == items[k];
    }
  }

  lemma {:induction false} ReportOfComplete(items: seq<MeasurementItem>, m: nat)
    requires Complete(items) && m < |items|
    ensures |ReportOf(items).metricNames| == |ReportOf(items).metricValues| == |items|
    ensures ReportOf(items).metricNames[m] == items[m].info.value.measName
    ensures StandsFor(ReportOf(items).metricValues[m], items[m].record.value)
  {
    var front, last := items[..|items| - 1], items[|items| - 1];
    ReportPaired(items);
    ReportPaired(front);
    if m < |front| {
      ReportOfComplete(front, m);
      assert front[m] == items[m];
    }
  }

  // The value reported for a metric, against the argument it was added with: a double as it is, a long as it is
  // up to 53 bits, and beyond that within half the spacing of the doubles around it.
  lemma ReportedValue(metrics: seq<Metric>, m: nat)
    requires m < |metrics|
    ensures |ReportOf(ItemsOf(metrics)).metricValues| == |metrics|
    ensures var v, value := metrics[m].1, ReportOf(ItemsOf(metrics)).metricValues[m];
      && (v.Double? ==> value == v.double)
      && (v.Long? && Abs(v.long) <= 0x20_0000_0000_0000 ==> value == v.long as real)
      && (v.Long? ==> var u := Spacing(Abs(v.long), 1) as real;
           2.0 * (value - v.long as real) <= u && 2.0 * (v.long as real - value) <= u)
  {
    hide ReportOf, ToDouble;
    ReportOfComplete(ItemsOf(metrics), m);
    if metrics[m].1.Long? {
      ToDoubleExact(metrics[m].1.long);
      ToDoubleNearest(metrics[m].1.long);
    }
  }

  // ---------- schemas ----------

  function NamesOf(items: seq<MeasurementItem>): (names: seq<string>)
    requires Complete(items)
    ensures |names| == |items|
  {
    seq(|items|, i requires 0 <= i < |items| => items[i].info.value.measName)
  }

  function NamesOfMetrics(metrics: seq<Metric>): (names: seq<string>)
    ensures |names| == |metrics|
  {
    seq(|metrics|, i requires 0 <= i < |metrics| => CString(metrics[i].0))
  }

  lemma NamesOfItems(metrics: seq<Metric>)
    ensures Complete(ItemsOf(metrics)) && NamesOf(ItemsOf(metrics)) == NamesOfMetrics(metrics)
  {
  }

  lemma ReportNames(items: seq<MeasurementItem>)
    requires Complete(items)
    ensures ReportOf(items).metricNames == NamesOf(items)
    ensures |ReportOf(items).metricValues| == |items|
  {
    ReportPaired(items);
    forall m | 0 <= m < |items| ensures ReportOf(items).metricNames[m] == NamesOf(items)[m] {
      ReportOfComplete(items, m);
    }
  }
}
