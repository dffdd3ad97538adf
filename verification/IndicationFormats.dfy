/** The two report layouts: Format 1 (one cell) and Format 2 (all UEs, section 8.2.1.4.2 of O-RAN E2SM-KPM). */
module IndicationFormats {
  import opened Wrappers
  import opened Words
  import opened Measurements

  const GRANULARITY_PERIOD: nat := 100

  // ---------- Format 1 ----------

  datatype Format1Content = Format1Content(measInfoList: seq<InfoItem>, measData: seq<seq<RecordItem>>,
                                           granulPeriod: Option<nat>)

  class Format1 {
    var measInfoList: seq<InfoItem>
    var measData: seq<seq<RecordItem>>
    var granulPeriod: Option<nat>

    constructor ()
      ensures Content() == Format1Content([], [], None)
    {
      measInfoList, measData, granulPeriod := [], [], None;
    }

    function Content(): Format1Content reads this { Format1Content(measInfoList, measData, granulPeriod) }

    // The two loops skip missing halves independently of each other.
    method Fill(items: seq<MeasurementItem>)
      modifies this
      ensures Infos(items) == [] ==> Content() == old(Content())
      ensures Infos(items) != [] ==>
        Content() == Format1Content(Infos(items), old(measData) + [Records(items)], Some(GRANULARITY_PERIOD))
    {
      var infoList: seq<InfoItem> := [];
      for k := 0 to |items|
        invariant infoList == Infos(items[..k])
      {
        assert items[..k + 1][..k] == items[..k];
        var info := items[k].info;
        if info.None? {
          continue;
        }
        infoList := infoList + [info.value];
      }
      assert items[..|items|] == items;
      if infoList == [] {
        return;
      }
      measInfoList := infoList;

      var dataItem: seq<RecordItem> := [];
      for k := 0 to |items|
        invariant dataItem == Records(items[..k])
      {
        assert items[..k + 1][..k] == items[..k];
        var rec := items[k].record;
        if rec.None? {
          continue;
        }
        dataItem := dataItem + [rec.value];
      }
      measData := measData + [dataItem];
      granulPeriod := Some(GRANULARITY_PERIOD);
    }
  }

  // The indices of the items that have an info half, and of those that have a record half.
  function InfoSources(items: seq<MeasurementItem>): (ks: seq<nat>)
    ensures forall i :: 0 <= i < |ks| ==> ks[i] < |items| && items[ks[i]].info.Some?
    ensures forall i, j :: 0 <= i < j < |ks| ==> ks[i] < ks[j]
    ensures forall k :: 0 <= k < |items| && items[k].info.Some? ==> k in ks
  {
    if items == [] then []
    else
      var n := |items| - 1;
      assert forall k :: 0 <= k < n ==> items[..n][k] == items[k];
      InfoSources(items[..n]) + if items[n].info.Some? then [n] else []
  }

  function RecordSources(items: seq<MeasurementItem>): (ks: seq<nat>)
    ensures forall i :: 0 <= i < |ks| ==> ks[i] < |items| && items[ks[i]].record.Some?
    ensures forall i, j :: 0 <= i < j < |ks| ==> ks[i] < ks[j]
    ensures forall k :: 0 <= k < |items| && items[k].record.Some? ==> k in ks
  {
    if items == [] then []
    else
      var n := |items| - 1;
      assert forall k :: 0 <= k < n ==> items[..n][k] == items[k];
      RecordSources(items[..n]) + if items[n].record.Some? then [n] else []
  }

  function Infos(items: seq<MeasurementItem>): seq<InfoItem>
  {
    if items == [] then []
    else
      var n := |items| - 1;
      Infos(items[..n]) + if items[n].info.Some? then [items[n].info.value] else []
  }

  function Records(items: seq<MeasurementItem>): seq<RecordItem>
  {
    if items == [] then []
    else
      var n := |items| - 1;
      Records(items[..n]) + if items[n].record.Some? then [items[n].record.value] else []
  }

  // Entry i of the info list comes from item InfoSources[i], and likewise for the record list.
  lemma {:induction false} ListsFollowSources(items: seq<MeasurementItem>)
    ensures |Infos(items)| == |InfoSources(items)| && |Records(items)| == |RecordSources(items)|
    ensures forall i :: 0 <= i < |Infos(items)| ==> Infos(items)[i] == items[InfoSources(items)[i]].info.value
    ensures forall i :: 0 <= i < |Records(items)| ==> Records(items)[i] == items[RecordSources(items)[i]].record.value
  {
    if items != [] {
      ListsFollowSources(items[..|items| - 1]);
    }
  }

  // No item lacks just one of its halves.
  predicate NoLoneHalf(items: seq<MeasurementItem>) {
    forall k :: 0 <= k < |items| ==> (items[k].info.Some? <==> items[k].record.Some?)
  }

  // Names and values are aligned exactly when no item lacks just one of its halves: then entry i of either list
  // is a half of one and the same item.
  lemma AlignedIff(items: seq<MeasurementItem>)
    ensures InfoSources(items) == RecordSources(items) <==> NoLoneHalf(items)
    ensures |Infos(items)| == |InfoSources(items)| && |Records(items)| == |RecordSources(items)|
    ensures forall i :: 0 <= i < |Infos(items)| ==> Infos(items)[i] == items[InfoSources(items)[i]].info.value
    ensures forall i :: 0 <= i < |Records(items)| ==> Records(items)[i] == items[RecordSources(items)[i]].record.value
    ensures NoLoneHalf(items) ==> |Infos(items)| == |Records(items)|
    ensures NoLoneHalf(items) ==> forall i :: 0 <= i < |Infos(items)| ==>
      var item := items[InfoSources(items)[i]];
      item.Complete() && Infos(items)[i] == item.info.value && Records(items)[i] == item.record.value
  {
    SourcesAgreeIff(items);
    ListsFollowSources(items);
  }

  lemma {:induction false} SourcesAgreeIff(items: seq<MeasurementItem>)
    ensures InfoSources(items) == RecordSources(items) <==> NoLoneHalf(items)
  {
    if items != [] {
      var n := |items| - 1;
      var front, last := items[..n], items[n];
      SourcesAgreeIff(front);
      var a, b := InfoSources(front), RecordSources(front);
      if InfoSources(items) == RecordSources(items) {
        SameTail(a, b, n, last.info.Some?, last.record.Some?);
        forall k | 0 <= k < |items| ensures items[k].info.Some? <==> items[k].record.Some? {
          assert k < n ==> front[k] == items[k];
        }
      } else {
        assert forall k :: 0 <= k < n ==> front[k] == items[k];
      }
    }
  }

  lemma SameTail(a: seq<nat>, b: seq<nat>, n: nat, x: bool, y: bool)
    requires forall i :: 0 <= i < |a| ==> a[i] < n
    requires forall i :: 0 <= i < |b| ==> b[i] < n
    requires a + (if x then [n] else []) == b + (if y then [n] else [])
    ensures a == b && x == y
  {
    var s, t := a + (if x then [n] else []), b + (if y then [n] else []);
    assert x ==> s[|a|] == n;
    assert y ==> t[|b|] == n;
    assert !x ==> s == a;
    assert !y ==> t == b;
    if x == y {
      assert a == s[..|a|] && b == t[..|b|];
    }
  }

  lemma {:induction false} CompleteLists(items: seq<MeasurementItem>)
    requires Complete(items)
    ensures |Infos(items)| == |Records(items)| == |items|
    ensures forall i :: 0 <= i < |items| ==> Infos(items)[i] == items[i].info.value
    ensures forall i :: 0 <= i < |items| ==> Records(items)[i] == items[i].record.value
  {
    if items != [] {
      CompleteLists(items[..|items| - 1]);
    }
  }

  // Any list built through AddItem reports value i under name i, with nothing dropped.
  lemma BuiltListAligned(metrics: seq<Metric>, i: nat)
    requires i < |metrics|
    ensures |Infos(ItemsOf(metrics))| == |Records(ItemsOf(metrics))| == |metrics|
    ensures Infos(ItemsOf(metrics))[i].measName == CString(metrics[i].0)
    ensures Records(ItemsOf(metrics))[i] == NewRecord(metrics[i].1)
  {
    CompleteLists(ItemsOf(metrics));
  }

  // ---------- Format 2 ----------

  datatype MatchingCond = MeasLabel(measLabel: Label)

  datatype CondItem = CondItem(measName: string, matchingCond: seq<MatchingCond>, hasMatchingUeIds: bool)

  datatype Format2Content = Format2Content(measData: seq<seq<RecordItem>>, measCondUeIdList: seq<CondItem>,
                                           granulPeriod: Option<nat>)

  class Format2 {
    var measData: seq<seq<RecordItem>>
    var measCondUeIdList: seq<CondItem>
    var granulPeriod: Option<nat>

    constructor ()
      ensures Content() == Format2Content([], [], None)
    {
      measData, measCondUeIdList, granulPeriod := [], [], None;
    }

    function Content(): Format2Content reads this { Format2Content(measData, measCondUeIdList, granulPeriod) }

    method Fill(ueIndications: seq<MeasurementItemList>)
      requires Readable(Reports(ItemLists(ueIndications)))
      modifies this
      ensures var reports := old(Reports(ItemLists(ueIndications)));
        if MetricCount(reports) == 0 then Content() == old(Content())
        else Content() == Format2Content(old(measData) + [Flatten(reports, MetricCount(reports))],
                                         old(measCondUeIdList) + Conditions(reports[0].metricNames),
                                         Some(GRANULARITY_PERIOD))
    {
      var ueReports := ExtractUeReports(ueIndications);
      FillFromReports(ueReports);
    }

    // Every report must reach the metric count of the first: the loops index all of them up to it.
    method FillFromReports(ueReports: seq<UeReport>)
      requires Readable(ueReports)
      modifies this
      ensures MetricCount(ueReports) == 0 ==> Content() == old(Content())
      ensures MetricCount(ueReports) > 0 ==>
        Content() == Format2Content(old(measData) + [Flatten(ueReports, MetricCount(ueReports))],
                                    old(measCondUeIdList) + Conditions(ueReports[0].metricNames),
                                    Some(GRANULARITY_PERIOD))
    {
      var ueCount := |ueReports|;
      if ueCount == 0 {
        return;
      }
      var metricCount := |ueReports[0].metricNames|;
      if metricCount == 0 {
        return;
      }

      var dataItem: seq<RecordItem> := [];
      for m := 0 to metricCount
        invariant dataItem == Flatten(ueReports, m)
      {
        for u := 0 to ueCount
          invariant dataItem == Flatten(ueReports, m) + Column(ueReports, m)[..u]
        {
          dataItem := dataItem + [Real(ueReports[u].metricValues[m])];
        }
      }
      FlattenLength(ueReports, metricCount);
      MulPositive(metricCount, ueCount);
      if dataItem == [] {
        return;
      }
      measData := measData + [dataItem];

      ghost var before := measCondUeIdList;
      var names := ueReports[0].metricNames;
      for m := 0 to metricCount
        invariant measData == old(measData) + [dataItem] && granulPeriod == old(granulPeriod)
        invariant measCondUeIdList == before + Conditions(names[..m])
      {
        assert names[..m + 1][..m] == names[..m];
        var item := CondItem(names[m], [], false);
        item := item.(matchingCond := item.matchingCond + [MeasLabel(NoLabel(0))]);
        measCondUeIdList := measCondUeIdList + [item];
        assert item.matchingCond == [MeasLabel(NoLabel(0))];
        assert before + Conditions(names[..m + 1]) == (before + Conditions(names[..m])) + [item];
      }
      assert names[..metricCount] == names;
      granulPeriod := Some(GRANULARITY_PERIOD);
    }
  }

  function MetricCount(reports: seq<UeReport>): nat { if reports == [] then 0 else |reports[0].metricNames| }

  // All reads of the nested loops are in range.
  predicate Readable(reports: seq<UeReport>) { Covers(reports, MetricCount(reports)) }

  predicate Covers(reports: seq<UeReport>, metricCount: nat) {
    forall u :: 0 <= u < |reports| ==> metricCount <= |reports[u].metricValues|
  }

  // The values of one metric, UE by UE.
  function Column(reports: seq<UeReport>, m: nat): (col: seq<RecordItem>)
    requires Covers(reports, m + 1)
    ensures |col| == |reports|
    ensures forall u :: 0 <= u < |col| ==> col[u] == Real(reports[u].metricValues[m])
  {
    seq(|reports|, u requires 0 <= u < |reports| => Real(reports[u].metricValues[m]))
  }

  // The matrix of UEs and metrics, metric after metric.
  function Flatten(reports: seq<UeReport>, metricCount: nat): seq<RecordItem>
    requires Covers(reports, metricCount)
  {
    if metricCount == 0 then [] else Flatten(reports, metricCount - 1) + Column(reports, metricCount - 1)
  }

  function Conditions(names: seq<string>): (cs: seq<CondItem>)
    ensures |cs| == |names|
    ensures forall m :: 0 <= m < |cs| ==> cs[m] == CondItem(names[m], [MeasLabel(NoLabel(0))], false)
  {
    if names == [] then []
    else
      var n := |names| - 1;
      Conditions(names[..n]) + [CondItem(names[n], [MeasLabel(NoLabel(0))], false)]
  }

  lemma MulPositive(a: nat, b: nat)
    requires a > 0 && b > 0
    ensures a * b > 0
  {
  }

  lemma {:induction false} FlattenLength(reports: seq<UeReport>, metricCount: nat)
    requires Covers(reports, metricCount)
    ensures |Flatten(reports, metricCount)| == metricCount * |reports|
  {
    if metricCount > 0 {
      FlattenLength(reports, metricCount - 1);
      assert metricCount * |reports| == (metricCount - 1) * |reports| + |reports|;
    }
  }

  lemma IndexBelow(m: nat, u: nat, metricCount: nat, ueCount: nat)
    requires m < metricCount && u < ueCount
    ensures 0 <= m * ueCount + u < metricCount * ueCount
  {
    MulNat(m, ueCount);
    MulAtLeast(ueCount, metricCount - m);
    assert metricCount * ueCount == m * ueCount + ueCount * (metricCount - m);
  }

  // Record m * ueCount + u is UE u's value of metric m.
  lemma {:induction false} FlattenAt(reports: seq<UeReport>, metricCount: nat, m: nat, u: nat)
    requires Covers(reports, metricCount) && m < metricCount && u < |reports|
    ensures |Flatten(reports, metricCount)| == metricCount * |reports|
    ensures 0 <= m * |reports| + u < |Flatten(reports, metricCount)|
    ensures Flatten(reports, metricCount)[m * |reports| + u] == Real(reports[u].metricValues[m])
  {
    FlattenLength(reports, metricCount);
    FlattenLength(reports, metricCount - 1);
    IndexBelow(m, u, metricCount, |reports|);
    if m < metricCount - 1 {
      FlattenAt(reports, metricCount - 1, m, u);
    } else {
      assert m * |reports| + u == |Flatten(reports, m)| + u;
    }
  }

  // Every record position belongs to exactly one UE and one metric.
  lemma RecordBelongsTo(reports: seq<UeReport>, metricCount: nat, k: nat)
    requires Covers(reports, metricCount) && k < |Flatten(reports, metricCount)|
    ensures |reports| > 0
    ensures k % |reports| < |reports| && 0 <= k / |reports| < metricCount
    ensures Flatten(reports, metricCount)[k] == Real(reports[k % |reports|].metricValues[k / |reports|])
  {
    FlattenLength(reports, metricCount);
    var n := |reports|;
    var m, u := k / n, k % n;
    assert k == m * n + u;
    QuotientInRange(k, metricCount, n);
    FlattenAt(reports, metricCount, m, u);
  }

  lemma QuotientInRange(k: nat, c: nat, n: nat)
    requires n > 0 && k < c * n
    ensures 0 <= k / n < c
  {
    var q := k / n;
    assert k == n * q + k % n;
    QuotientBounds(k, n);
    assert n * q < n * c;
  }

  // Reading UE u's row back out of the flat list: one record from each run of ueCount records.
  function Row(flat: seq<RecordItem>, ueCount: nat, u: nat): seq<RecordItem>
    requires u < ueCount
  {
    if |flat| < ueCount then []
    else
      var cut := |flat| - ueCount;
      Row(flat[..cut], ueCount, u) + [flat[cut + u]]
  }

  function Reals(values: seq<real>): (r: seq<RecordItem>)
    ensures |r| == |values|
  {
    seq(|values|, i requires 0 <= i < |values| => Real(values[i]))
  }

  lemma RowStep(front: seq<RecordItem>, column: seq<RecordItem>, u: nat)
    requires u < |column|
    ensures Row(front + column, |column|, u) == Row(front, |column|, u) + [column[u]]
  {
    assert (front + column)[..|front|] == front;
  }

  lemma RealsStep(values: seq<real>, m: nat)
    requires m < |values|
    ensures Reals(values[..m + 1]) == Reals(values[..m]) + [Real(values[m])]
  {
  }

  // Un-flattening recovers each UE's values up to the metric count, in order.
  lemma {:induction false} UnflattenRow(reports: seq<UeReport>, metricCount: nat, u: nat)
    requires Covers(reports, metricCount) && u < |reports|
    ensures Row(Flatten(reports, metricCount), |reports|, u) == Reals(reports[u].metricValues[..metricCount])
  {
    if metricCount > 0 {
      var m := metricCount - 1;
      UnflattenRow(reports, m, u);
      RowStep(Flatten(reports, m), Column(reports, m), u);
      RealsStep(reports[u].metricValues, m);
    }
  }

  // The whole matrix is recovered exactly when no UE reports more metrics than the first.
  lemma UnflattenRecovers(reports: seq<UeReport>)
    requires Readable(reports)
    ensures var mc := MetricCount(reports);
      (forall u :: 0 <= u < |reports| ==> |reports[u].metricValues| == mc)
      <==> forall u :: 0 <= u < |reports| ==> Row(Flatten(reports, mc), |reports|, u) == Reals(reports[u].metricValues)
  {
    var mc := MetricCount(reports);
    forall u | 0 <= u < |reports|
      ensures |reports[u].metricValues| == mc
         <==> Row(Flatten(reports, mc), |reports|, u) == Reals(reports[u].metricValues)
    {
      UnflattenRow(reports, mc, u);
      if |reports[u].metricValues| == mc {
        assert reports[u].metricValues[..mc] == reports[u].metricValues;
      }
    }
  }
}
