/** Construction of an indication message up to the point where it is handed to the encoder. */
module IndicationMessage {
  import opened Wrappers
  import opened Measurements
  import opened IndicationFormats

  datatype FormatType = FORMAT1 | FORMAT2 | FORMAT3

  // The descriptor that reaches Encode.
  datatype EncodedMessage = CellMessage(cell: Format1Content) | UeMessage(ue: Format2Content)

  const DEFAULT_CELL_METRICS: seq<Metric> :=
    [("DRB.PdcpSduDelayDl", Double(0.0)), ("pdcpBytesUl", Double(0.1)),
     ("pdcpBytesDl", Double(0.2)), ("numActiveUes", Double(0.3))]

  function CellItems(cellItems: MeasurementItemList?): Option<seq<MeasurementItem>>
    reads cellItems
  {
    if cellItems == null then None else Some(cellItems.items)
  }

  function CellReport(cell: Option<seq<MeasurementItem>>): seq<MeasurementItem> {
    match cell
    case Some(items) => items
    case None => ItemsOf(DEFAULT_CELL_METRICS)
  }

  // What reaches the encoder, if anything does.
  function Encoded(cell: Option<seq<MeasurementItem>>, ues: seq<seq<MeasurementItem>>, format: FormatType)
    : Option<EncodedMessage>
    requires format.FORMAT2? ==> Readable(Reports(ues))
  {
    match format
    case FORMAT1 =>
      var items := CellReport(cell);
      if Infos(items) == [] then None
      else Some(CellMessage(Format1Content(Infos(items), [Records(items)], Some(GRANULARITY_PERIOD))))
    case FORMAT2 =>
      var reports := Reports(ues);
      var mc := MetricCount(reports);
      if mc == 0 then None
      else Some(UeMessage(Format2Content([Flatten(reports, mc)], Conditions(reports[0].metricNames),
                                         Some(GRANULARITY_PERIOD))))
    case FORMAT3 => None
  }

  method FillAndEncode(cellItems: MeasurementItemList?, ueIndications: seq<MeasurementItemList>, format: FormatType)
    returns (encoded: Option<EncodedMessage>)
    requires format.FORMAT2? ==> Readable(Reports(ItemLists(ueIndications)))
    ensures encoded == Encoded(CellItems(cellItems), ItemLists(ueIndications), format)
  {
    hide NewItem, Infos, Records, Flatten, Conditions;
    encoded := None;
    match format {
      case FORMAT1 =>
        var msgFmt1 := new Format1();
        var items: seq<MeasurementItem>;
        if cellItems == null {
          var list := new MeasurementItemList();
          list.AddItem("DRB.PdcpSduDelayDl", Double(0.0));
          list.AddItem("pdcpBytesUl", Double(0.1));
          list.AddItem("pdcpBytesDl", Double(0.2));
          list.AddItem("numActiveUes", Double(0.3));
          items := list.items;
          assert items == ItemsOf(DEFAULT_CELL_METRICS);
        } else {
          items := cellItems.items;
        }
        msgFmt1.Fill(items);
        if msgFmt1.measData == [] {
          return;
        }
        assert msgFmt1.measData == [Records(items)];
        encoded := Some(CellMessage(msgFmt1.Content()));
      case FORMAT2 =>
        var fmt2 := new Format2();
        if ueIndications != [] {
          fmt2.Fill(ueIndications);
        }
        if fmt2.measData == [] {
          return;
        }
        assert fmt2.measData == [fmt2.measData[0]];
        assert fmt2.measCondUeIdList == Conditions(ReportOf(ueIndications[0].items).metricNames);
        encoded := Some(UeMessage(fmt2.Content()));
      case FORMAT3 =>
        return;
    }
  }

  // A Format 1 message that says exactly this: entry i of both lists is metric i, under its name and as the integer
  // or the real that was given.
  predicate Shows(c: Format1Content, metrics: seq<Metric>)
  {
    && |c.measData| == 1 && |c.measData[0]| == |c.measInfoList| == |metrics| && c.granulPeriod == Some(100)
    && forall i :: 0 <= i < |metrics| ==>
         && c.measInfoList[i] == InfoItem(CString(metrics[i].0), [NoLabel(0)])
         && c.measData[0][i] == match metrics[i].1 case Long(l) => Integer(l) case Double(d) => Real(d)
  }

  // A cell list built by a helper call is shown as it is; only without any are the four fixed metrics shown.
  lemma CellMessageShows(cell: Option<seq<MeasurementItem>>, ues: seq<seq<MeasurementItem>>, metrics: seq<Metric>)
    requires metrics != []
    requires
      || cell == Some(ItemsOf(metrics))
      || (cell == None && metrics == [("DRB.PdcpSduDelayDl", Double(0.0)), ("pdcpBytesUl", Double(0.1)),
                                      ("pdcpBytesDl", Double(0.2)), ("numActiveUes", Double(0.3))])
    ensures Encoded(cell, ues, FORMAT1).Some? && Encoded(cell, ues, FORMAT1).value.CellMessage?
    ensures Shows(Encoded(cell, ues, FORMAT1).value.cell, metrics)
  {
    hide CString, Infos, Records;
    CompleteLists(ItemsOf(metrics));
  }

  // For lists without missing halves: what reaches the encoder, exactly when, and the sizes the schema of
  // E2SM-KPM asks for.
  lemma EncodingGate(cell: Option<seq<MeasurementItem>>, ues: seq<seq<MeasurementItem>>, format: FormatType)
    requires (cell.Some? ==> Complete(cell.value)) && forall u :: 0 <= u < |ues| ==> Complete(ues[u])
    requires format.FORMAT2? ==> Readable(Reports(ues))
    ensures Encoded(cell, ues, format).Some? <==>
      || (format.FORMAT1? && (cell == None || cell.value != []))
      || (format.FORMAT2? && ues != [] && ues[0] != [])
    ensures Encoded(cell, ues, format).Some? && format.FORMAT1? ==>
      var c := Encoded(cell, ues, format).value.cell;
      && |c.measData| == 1 && |c.measData[0]| == |c.measInfoList| > 0
      && |c.measInfoList| == if cell.Some? then |cell.value| else 4
    ensures Encoded(cell, ues, format).Some? && format.FORMAT2? ==>
      var c := Encoded(cell, ues, format).value.ue;
      && |c.measData| == 1 && |c.measData[0]| == |ues[0]| * |ues| > 0
      && |c.measCondUeIdList| == |ues[0]|
      && forall m :: 0 <= m < |c.measCondUeIdList| ==> c.measCondUeIdList[m].matchingCond != []
  {
    match format
    case FORMAT1 =>
      CompleteLists(CellReport(cell));
    case FORMAT2 =>
      if ues != [] {
        ReportPaired(ues[0]);
        FlattenLength(Reports(ues), |ues[0]|);
        if ues[0] != [] {
          MulPositive(|ues[0]|, |ues|);
        }
      }
    case FORMAT3 =>
  }
}
