/** The metrics that the LTE and NR helpers report: one table for each list, in the order of the AddItem calls. */
module HelperMetrics {
  import opened Words
  import opened Numerals
  import opened Measurements

  datatype LteUeArgs = LteUeArgs(imsi: seq<octet>, txBytes: int, txDlPackets: int, pdcpThroughput: real,
                                 pdcpLatency: real, numDrb: int, drbRelAct: int)

  datatype LteCellArgs = LteCellArgs(cellId: int, cellAverageLatency: real, pdcpBytesUl: int, pdcpBytesDl: int,
                                     numActiveUes: int)

  // A serving or neighbour cell: SINR, its 3GPP code, and the cell id.
  datatype CellQuality = CellQuality(sinr: real, convertedSinr: real, id: int)

  datatype NrUeArgs = NrUeArgs(
    imsi: seq<octet>, numDrb: int, drbRelAct: int, txPdcpPduBytesNrRlc: int, txPdcpPduNrRlc: int,
    macPduUe: int, macPduInitialUe: int, macQpsk: int, mac16Qam: int, mac64Qam: int, macRetx: int,
    macVolume: int, macPrb: int, macMac04: int, macMac59: int, macMac1014: int, macMac1519: int,
    macMac2024: int, macMac2529: int, macSinrBin1: int, macSinrBin2: int, macSinrBin3: int, macSinrBin4: int,
    macSinrBin5: int, macSinrBin6: int, macSinrBin7: int, rlcBufferOccup: int, drbThrDlUeid: real,
    serving: CellQuality, neigh1: CellQuality, neigh2: CellQuality, neigh3: CellQuality, neigh4: CellQuality,
    neigh5: CellQuality, neigh6: CellQuality, neigh7: CellQuality, neigh8: CellQuality)

  datatype NrCellArgs = NrCellArgs(
    cellId: int, numActiveUes: int, macPdu: int, macPduInitial: int, macQpsk: int, mac16Qam: int,
    mac64Qam: int, prbUtilizationDl: real, macRetx: int, macVolume: int, macMac04: int, macMac59: int,
    macMac1014: int, macMac1519: int, macMac2024: int, macMac2529: int, macSinrBin1: int, macSinrBin2: int,
    macSinrBin3: int, macSinrBin4: int, macSinrBin5: int, macSinrBin6: int, macSinrBin7: int,
    rlcBufferOccup: int, activeUeDl: int, dlAvailablePrbs: int, ulAvailablePrbs: int, qci: int,
    dlPrbUsage: int, ulPrbUsage: int)

  // One AddItem call: the metric's name, and its value as a function of the helper call's arguments.
  type MetricRow<!A> = (string, A -> Value)

  // ---------- what a table adds to a list ----------

  function Metrics<A>(table: seq<MetricRow<A>>, a: A): (ms: seq<Metric>)
    ensures |ms| == |table|
  {
    seq(|table|, i requires 0 <= i < |table| => (table[i].0, table[i].1(a)))
  }

  function TableNames<A>(table: seq<MetricRow<A>>): (names: seq<string>)
    ensures |names| == |table|
  {
    seq(|table|, i requires 0 <= i < |table| => CString(table[i].0))
  }

  // The names a table adds are its own, whatever the arguments.
  lemma NamesIgnoreArguments<A>(table: seq<MetricRow<A>>, a: A)
    ensures NamesOfMetrics(Metrics(table, a)) == TableNames(table)
  {
  }

  // The run of AddItem calls that a table stands for.
  method AddMetrics<A>(list: MeasurementItemList, table: seq<MetricRow<A>>, a: A)
    modifies list
    ensures list.items == old(list.items) + ItemsOf(Metrics(table, a))
  {
    for i := 0 to |table|
      invariant list.items == old(list.items) + ItemsOf(Metrics(table, a))[..i]
    {
      list.AddItem(table[i].0, table[i].1(a));
    }
  }

  // A UE list starts with the number read from the identity.
  const UE_ID_NAME := "UEID"

  function UeListMetrics<A>(table: seq<MetricRow<A>>, ueId: int, a: A): seq<Metric> {
    [(UE_ID_NAME, Long(ueId))] + Metrics(table, a)
  }

  function UeListNames<A>(table: seq<MetricRow<A>>): seq<string> { [CString(UE_ID_NAME)] + TableNames(table) }

  lemma UeNamesIgnoreArguments<A>(table: seq<MetricRow<A>>, ueId: int, a: A)
    ensures NamesOfMetrics(UeListMetrics(table, ueId, a)) == UeListNames(table)
  {
    NamesIgnoreArguments(table, a);
  }

  method AddUeMetrics<A>(list: MeasurementItemList, table: seq<MetricRow<A>>, ueId: int, a: A)
    modifies list
    ensures list.items == old(list.items) + ItemsOf(UeListMetrics(table, ueId, a))
  {
    list.AddItem(UE_ID_NAME, Long(ueId));
    AddMetrics(list, table, a);
  }

  // ---------- the tables ----------

  function LteUeTable(): seq<MetricRow<LteUeArgs>> {
    [("DRB.PdcpSduVolumeDl_Filter.UEID", (a: LteUeArgs) => Long(a.txBytes)),
     ("Tot.PdcpSduNbrDl.UEID", (a: LteUeArgs) => Long(a.txDlPackets)),
     ("DRB.PdcpSduBitRateDl.UEID", (a: LteUeArgs) => Double(a.pdcpThroughput)),
     ("DRB.PdcpSduDelayDl.UEID", (a: LteUeArgs) => Double(a.pdcpLatency)),
     ("DRB.EstabSucc.5QI.UEID", (a: LteUeArgs) => Long(a.numDrb)),
     ("DRB.RelActNbr.5QI.UEID", (a: LteUeArgs) => Long(a.drbRelAct))]
  }

  // Counters, the serving and neighbour cells, and the throughput.
  function NrUeTable(): (table: seq<MetricRow<NrUeArgs>>)
    ensures |table| == 54
  {
    NrUeCounters() + NrUeCellQualities()
    + [("DRB.UEThpDl.UEID", (a: NrUeArgs) => Double(a.drbThrDlUeid))]
  }

  function NrUeCounters(): (table: seq<MetricRow<NrUeArgs>>)
    ensures |table| == 26
  {
    [("DRB.EstabSucc.5QI.UEID", (a: NrUeArgs) => Long(a.numDrb)),
     ("DRB.RelActNbr.5QI.UEID", (a: NrUeArgs) => Long(a.drbRelAct)),
     ("QosFlow.PdcpPduVolumeDL_Filter.UEID", (a: NrUeArgs) => Long(a.txPdcpPduBytesNrRlc)),
     ("DRB.PdcpPduNbrDl.Qos.UEID", (a: NrUeArgs) => Long(a.txPdcpPduNrRlc)),
     ("TB.TotNbrDl.1.UEID", (a: NrUeArgs) => Long(a.macPduUe)),
     ("TB.TotNbrDlInitial.UEID", (a: NrUeArgs) => Long(a.macPduInitialUe)),
     ("TB.TotNbrDlInitial.Qpsk.UEID", (a: NrUeArgs) => Long(a.macQpsk)),
     ("TB.TotNbrDlInitial.16Qam.UEID", (a: NrUeArgs) => Long(a.mac16Qam)),
     ("TB.TotNbrDlInitial.64Qam.UEID", (a: NrUeArgs) => Long(a.mac64Qam)),
     ("TB.ErrTotalNbrDl.1.UEID", (a: NrUeArgs) => Long(a.macRetx)),
     ("QosFlow.PdcpPduVolumeDL_Filter.UEID", (a: NrUeArgs) => Long(a.macVolume)),
     ("RRU.PrbUsedDl.UEID", (a: NrUeArgs) => Long(CeilToLong(ToDouble(a.macPrb)))),
     ("CARR.PDSCHMCSDist.Bin1.UEID", (a: NrUeArgs) => Long(a.macMac04)),
     ("CARR.PDSCHMCSDist.Bin2.UEID", (a: NrUeArgs) => Long(a.macMac59)),
     ("CARR.PDSCHMCSDist.Bin3.UEID", (a: NrUeArgs) => Long(a.macMac1014)),
     ("CARR.PDSCHMCSDist.Bin4.UEID", (a: NrUeArgs) => Long(a.macMac1519)),
     ("CARR.PDSCHMCSDist.Bin5.UEID", (a: NrUeArgs) => Long(a.macMac2024)),
     ("CARR.PDSCHMCSDist.Bin6.UEID", (a: NrUeArgs) => Long(a.macMac2529)),
     ("L1M.RS-SINR.Bin34.UEID", (a: NrUeArgs) => Long(a.macSinrBin1)),
     ("L1M.RS-SINR.Bin46.UEID", (a: NrUeArgs) => Long(a.macSinrBin2)),
     ("L1M.RS-SINR.Bin58.UEID", (a: NrUeArgs) => Long(a.macSinrBin3)),
     ("L1M.RS-SINR.Bin70.UEID", (a: NrUeArgs) => Long(a.macSinrBin4)),
     ("L1M.RS-SINR.Bin82.UEID", (a: NrUeArgs) => Long(a.macSinrBin5)),
     ("L1M.RS-SINR.Bin94.UEID", (a: NrUeArgs) => Long(a.macSinrBin6)),
     ("L1M.RS-SINR.Bin127.UEID", (a: NrUeArgs) => Long(a.macSinrBin7)),
     ("DRB.BufferSize.Qos.UEID", (a: NrUeArgs) => Long(a.rlcBufferOccup))]
  }

  function NrUeCellQualities(): (table: seq<MetricRow<NrUeArgs>>)
    ensures |table| == 27
  {
    [("HO.SrcCellQual.RS-SINR.UEID", (a: NrUeArgs) => Double(a.serving.sinr)),
     ("HO.SrcCellQual.RS-SINR-Converted.UEID", (a: NrUeArgs) => Double(a.serving.convertedSinr)),
     ("HO.SrcCellID.UEID", (a: NrUeArgs) => Long(a.serving.id)),
     ("HO.TrgtCellQual.1.RS-SINR.UEID", (a: NrUeArgs) => Double(a.neigh1.sinr)),
     ("HO.TrgtCellQual.1.RS-SINR-Converted.UEID", (a: NrUeArgs) => Double(a.neigh1.convertedSinr)),
     ("HO.TrgtCellQual.1.UEID", (a: NrUeArgs) => Long(a.neigh1.id)),
     ("HO.TrgtCellQual.2.RS-SINR.UEID", (a: NrUeArgs) => Double(a.neigh2.sinr)),
     ("HO.TrgtCellQual.2.RS-SINR-Converted.UEID", (a: NrUeArgs) => Double(a.neigh2.convertedSinr)),
     ("HO.TrgtCellQual.2.UEID", (a: NrUeArgs) => Long(a.neigh2.id)),
     ("HO.TrgtCellQual.3.RS-SINR.UEID", (a: NrUeArgs) => Double(a.neigh3.sinr)),
     ("HO.TrgtCellQual.3.RS-SINR-Converted.UEID", (a: NrUeArgs) => Double(a.neigh3.convertedSinr)),
     ("HO.TrgtCellQual.3.UEID", (a: NrUeArgs) => Long(a.neigh3.id)),
     ("HO.TrgtCellQual.4.RS-SINR.UEID", (a: NrUeArgs) => Double(a.neigh4.sinr)),
     ("HO.TrgtCellQual.4.RS-SINR-Converted.UEID", (a: NrUeArgs) => Double(a.neigh4.convertedSinr)),
     ("HO.TrgtCellQual.4.UEID", (a: NrUeArgs) => Long(a.neigh4.id)),
     ("HO.TrgtCellQual.5.RS-SINR.UEID", (a: NrUeArgs) => Double(a.neigh5.sinr)),
     ("HO.TrgtCellQual.5.RS-SINR-Converted.UEID", (a: NrUeArgs) => Double(a.neigh5.convertedSinr)),
     ("HO.TrgtCellQual.5.UEID", (a: NrUeArgs) => Long(a.neigh5.id)),
     ("HO.TrgtCellQual.6.RS-SINR.UEID", (a: NrUeArgs) => Double(a.neigh6.sinr)),
     ("HO.TrgtCellQual.6.RS-SINR-Converted.UEID", (a: NrUeArgs) => Double(a.neigh6.convertedSinr)),
     ("HO.TrgtCellQual.6.UEID", (a: NrUeArgs) => Long(a.neigh6.id)),
     ("HO.TrgtCellQual.7.RS-SINR.UEID", (a: NrUeArgs) => Double(a.neigh7.sinr)),
     ("HO.TrgtCellQual.7.RS-SINR-Converted.UEID", (a: NrUeArgs) => Double(a.neigh7.convertedSinr)),
     ("HO.TrgtCellQual.7.UEID", (a: NrUeArgs) => Long(a.neigh7.id)),
     ("HO.TrgtCellQual.8.RS-SINR.UEID", (a: NrUeArgs) => Double(a.neigh8.sinr)),
     ("HO.TrgtCellQual.8.RS-SINR-Converted.UEID", (a: NrUeArgs) => Double(a.neigh8.convertedSinr)),
     ("HO.TrgtCellQual.8.UEID", (a: NrUeArgs) => Long(a.neigh8.id))]
  }

  function LteCellTable(): seq<MetricRow<LteCellArgs>> {
    [("cellID", (a: LteCellArgs) => Long(a.cellId)),
     ("DRB.PdcpSduDelayDl", (a: LteCellArgs) => Double(a.cellAverageLatency)),
     ("pdcpBytesUl", (a: LteCellArgs) => Double(ToDouble(a.pdcpBytesUl))),
     ("pdcpBytesDl", (a: LteCellArgs) => Double(ToDouble(a.pdcpBytesDl))),
     ("numActiveUes", (a: LteCellArgs) => Double(ToDouble(a.numActiveUes)))]
  }

  // Two of the cell's metrics are reported only without the reduced set.
  function NrCellTable(reduced: bool): seq<MetricRow<NrCellArgs>> {
    [("cellID", (a: NrCellArgs) => Long(a.cellId))] + (if reduced then [] else NrCellFullOnly()) + NrCellCommon()
  }

  function NrCellFullOnly(): seq<MetricRow<NrCellArgs>> {
    [("TB.TotNbrDl.1", (a: NrCellArgs) => Long(a.macPdu)),
     ("TB.TotNbrDlInitial", (a: NrCellArgs) => Long(a.macPduInitial))]
  }

  function NrCellCommon(): (table: seq<MetricRow<NrCellArgs>>)
    ensures |table| == 27
  {
    [("numActiveUes", (a: NrCellArgs) => Long(a.numActiveUes)),
     ("TB.TotNbrDlInitial.Qpsk", (a: NrCellArgs) => Long(a.macQpsk)),
     ("TB.TotNbrDlInitial.16Qam", (a: NrCellArgs) => Long(a.mac16Qam)),
     ("TB.TotNbrDlInitial.64Qam", (a: NrCellArgs) => Long(a.mac64Qam)),
     ("RRU.PrbUsedDl", (a: NrCellArgs) => Long(CeilToLong(a.prbUtilizationDl))),
     ("TB.ErrTotalNbrDl.1", (a: NrCellArgs) => Long(a.macRetx)),
     ("QosFlow.PdcpPduVolumeDL_Filter", (a: NrCellArgs) => Long(a.macVolume)),
     ("CARR.PDSCHMCSDist.Bin1", (a: NrCellArgs) => Long(a.macMac04)),
     ("CARR.PDSCHMCSDist.Bin2", (a: NrCellArgs) => Long(a.macMac59)),
     ("CARR.PDSCHMCSDist.Bin3", (a: NrCellArgs) => Long(a.macMac1014)),
     ("CARR.PDSCHMCSDist.Bin4", (a: NrCellArgs) => Long(a.macMac1519)),
     ("CARR.PDSCHMCSDist.Bin5", (a: NrCellArgs) => Long(a.macMac2024)),
     ("CARR.PDSCHMCSDist.Bin6", (a: NrCellArgs) => Long(a.macMac2529)),
     ("L1M.RS-SINR.Bin34", (a: NrCellArgs) => Long(a.macSinrBin1)),
     ("L1M.RS-SINR.Bin46", (a: NrCellArgs) => Long(a.macSinrBin2)),
     ("L1M.RS-SINR.Bin58", (a: NrCellArgs) => Long(a.macSinrBin3)),
     ("L1M.RS-SINR.Bin70", (a: NrCellArgs) => Long(a.macSinrBin4)),
     ("L1M.RS-SINR.Bin82", (a: NrCellArgs) => Long(a.macSinrBin5)),
     ("L1M.RS-SINR.Bin94", (a: NrCellArgs) => Long(a.macSinrBin6)),
     ("L1M.RS-SINR.Bin127", (a: NrCellArgs) => Long(a.macSinrBin7)),
     ("DRB.BufferSize.Qos", (a: NrCellArgs) => Long(a.rlcBufferOccup)),
     ("DRB.MeanActiveUeDl", (a: NrCellArgs) => Long(a.activeUeDl)),
     ("PRB.AvailableDl", (a: NrCellArgs) => Long(a.dlAvailablePrbs)),
     ("RRB.AvailablePUl", (a: NrCellArgs) => Long(a.ulAvailablePrbs)),
     ("DRB.QCI", (a: NrCellArgs) => Long(a.qci)), ("RRB.UseageDl", (a: NrCellArgs) => Long(a.dlPrbUsage)),
     ("RRB.UseageUl", (a: NrCellArgs) => Long(a.ulPrbUsage))]
  }

  // The NR cell schema depends on the reduced flag alone: setting it drops the second and third of 30 metrics.
  lemma NrCellReduced()
    ensures var full, reduced := TableNames(NrCellTable(false)), TableNames(NrCellTable(true));
      |full| == 30 && reduced == full[..1] + full[3..]
  {
    hide NrCellCommon, CString;
  }

  // ---------- every argument under its own name ----------

  predicate Reported(ms: seq<Metric>, name: string, v: Value) { (name, v) in ms }

  lemma LteUeArguments(a: LteUeArgs)
    ensures var ms := Metrics(LteUeTable(), a);
      && Reported(ms, "DRB.PdcpSduVolumeDl_Filter.UEID", Long(a.txBytes))
      && Reported(ms, "Tot.PdcpSduNbrDl.UEID", Long(a.txDlPackets))
      && Reported(ms, "DRB.PdcpSduBitRateDl.UEID", Double(a.pdcpThroughput))
      && Reported(ms, "DRB.PdcpSduDelayDl.UEID", Double(a.pdcpLatency))
      && Reported(ms, "DRB.EstabSucc.5QI.UEID", Long(a.numDrb))
      && Reported(ms, "DRB.RelActNbr.5QI.UEID", Long(a.drbRelAct))
  {
    var ms := Metrics(LteUeTable(), a);
    assert ms[0] in ms && ms[1] in ms && ms[2] in ms && ms[3] in ms && ms[4] in ms && ms[5] in ms;
  }

  lemma LteCellArguments(a: LteCellArgs)
    ensures var ms := Metrics(LteCellTable(), a);
      && Reported(ms, "cellID", Long(a.cellId))
      && Reported(ms, "DRB.PdcpSduDelayDl", Double(a.cellAverageLatency))
      && Reported(ms, "pdcpBytesUl", Double(ToDouble(a.pdcpBytesUl)))
      && Reported(ms, "pdcpBytesDl", Double(ToDouble(a.pdcpBytesDl)))
      && Reported(ms, "numActiveUes", Double(ToDouble(a.numActiveUes)))
  {
    var ms := Metrics(LteCellTable(), a);
    assert ms[0] in ms && ms[1] in ms && ms[2] in ms && ms[3] in ms && ms[4] in ms;
  }

  lemma NrUeCounterArguments(a: NrUeArgs)
    ensures var ms := Metrics(NrUeCounters(), a);
      && Reported(ms, "DRB.EstabSucc.5QI.UEID", Long(a.numDrb))
      && Reported(ms, "DRB.RelActNbr.5QI.UEID", Long(a.drbRelAct))
      && Reported(ms, "QosFlow.PdcpPduVolumeDL_Filter.UEID", Long(a.txPdcpPduBytesNrRlc))
      && Reported(ms, "DRB.PdcpPduNbrDl.Qos.UEID", Long(a.txPdcpPduNrRlc))
      && Reported(ms, "TB.TotNbrDl.1.UEID", Long(a.macPduUe))
      && Reported(ms, "TB.TotNbrDlInitial.UEID", Long(a.macPduInitialUe))
      && Reported(ms, "TB.TotNbrDlInitial.Qpsk.UEID", Long(a.macQpsk))
      && Reported(ms, "TB.TotNbrDlInitial.16Qam.UEID", Long(a.mac16Qam))
      && Reported(ms, "TB.TotNbrDlInitial.64Qam.UEID", Long(a.mac64Qam))
      && Reported(ms, "TB.ErrTotalNbrDl.1.UEID", Long(a.macRetx))
      && Reported(ms, "QosFlow.PdcpPduVolumeDL_Filter.UEID", Long(a.macVolume))
      && Reported(ms, "RRU.PrbUsedDl.UEID", Long(CeilToLong(ToDouble(a.macPrb))))
      && Reported(ms, "CARR.PDSCHMCSDist.Bin1.UEID", Long(a.macMac04))
      && Reported(ms, "CARR.PDSCHMCSDist.Bin2.UEID", Long(a.macMac59))
      && Reported(ms, "CARR.PDSCHMCSDist.Bin3.UEID", Long(a.macMac1014))
      && Reported(ms, "CARR.PDSCHMCSDist.Bin4.UEID", Long(a.macMac1519))
      && Reported(ms, "CARR.PDSCHMCSDist.Bin5.UEID", Long(a.macMac2024))
      && Reported(ms, "CARR.PDSCHMCSDist.Bin6.UEID", Long(a.macMac2529))
      && Reported(ms, "L1M.RS-SINR.Bin34.UEID", Long(a.macSinrBin1))
      && Reported(ms, "L1M.RS-SINR.Bin46.UEID", Long(a.macSinrBin2))
      && Reported(ms, "L1M.RS-SINR.Bin58.UEID", Long(a.macSinrBin3))
      && Reported(ms, "L1M.RS-SINR.Bin70.UEID", Long(a.macSinrBin4))
      && Reported(ms, "L1M.RS-SINR.Bin82.UEID", Long(a.macSinrBin5))
      && Reported(ms, "L1M.RS-SINR.Bin94.UEID", Long(a.macSinrBin6))
      && Reported(ms, "L1M.RS-SINR.Bin127.UEID", Long(a.macSinrBin7))
      && Reported(ms, "DRB.BufferSize.Qos.UEID", Long(a.rlcBufferOccup))
  {
    var ms := Metrics(NrUeCounters(), a);
    assert ms[0] in ms && ms[1] in ms && ms[2] in ms && ms[3] in ms && ms[4] in ms && ms[5] in ms && ms[6] in ms
      && ms[7] in ms && ms[8] in ms && ms[9] in ms && ms[10] in ms && ms[11] in ms && ms[12] in ms
      && ms[13] in ms && ms[14] in ms && ms[15] in ms && ms[16] in ms && ms[17] in ms && ms[18] in ms
      && ms[19] in ms && ms[20] in ms && ms[21] in ms && ms[22] in ms && ms[23] in ms && ms[24] in ms
      && ms[25] in ms;
  }

  // Serving cell and neighbours, each with its own SINR, its code and its id.
  lemma NrUeCellArguments(a: NrUeArgs)
    ensures var ms := Metrics(NrUeCellQualities(), a);
      && Reported(ms, "HO.SrcCellQual.RS-SINR.UEID", Double(a.serving.sinr))
      && Reported(ms, "HO.SrcCellQual.RS-SINR-Converted.UEID", Double(a.serving.convertedSinr))
      && Reported(ms, "HO.SrcCellID.UEID", Long(a.serving.id))
      && Reported(ms, "HO.TrgtCellQual.1.RS-SINR.UEID", Double(a.neigh1.sinr))
      && Reported(ms, "HO.TrgtCellQual.1.RS-SINR-Converted.UEID", Double(a.neigh1.convertedSinr))
      && Reported(ms, "HO.TrgtCellQual.1.UEID", Long(a.neigh1.id))
      && Reported(ms, "HO.TrgtCellQual.2.RS-SINR.UEID", Double(a.neigh2.sinr))
      && Reported(ms, "HO.TrgtCellQual.2.RS-SINR-Converted.UEID", Double(a.neigh2.convertedSinr))
      && Reported(ms, "HO.TrgtCellQual.2.UEID", Long(a.neigh2.id))
      && Reported(ms, "HO.TrgtCellQual.3.RS-SINR.UEID", Double(a.neigh3.sinr))
      && Reported(ms, "HO.TrgtCellQual.3.RS-SINR-Converted.UEID", Double(a.neigh3.convertedSinr))
      && Reported(ms, "HO.TrgtCellQual.3.UEID", Long(a.neigh3.id))
      && Reported(ms, "HO.TrgtCellQual.4.RS-SINR.UEID", Double(a.neigh4.sinr))
      && Reported(ms, "HO.TrgtCellQual.4.RS-SINR-Converted.UEID", Double(a.neigh4.convertedSinr))
      && Reported(ms, "HO.TrgtCellQual.4.UEID", Long(a.neigh4.id))
      && Reported(ms, "HO.TrgtCellQual.5.RS-SINR.UEID", Double(a.neigh5.sinr))
      && Reported(ms, "HO.TrgtCellQual.5.RS-SINR-Converted.UEID", Double(a.neigh5.convertedSinr))
      && Reported(ms, "HO.TrgtCellQual.5.UEID", Long(a.neigh5.id))
      && Reported(ms, "HO.TrgtCellQual.6.RS-SINR.UEID", Double(a.neigh6.sinr))
      && Reported(ms, "HO.TrgtCellQual.6.RS-SINR-Converted.UEID", Double(a.neigh6.convertedSinr))
      && Reported(ms, "HO.TrgtCellQual.6.UEID", Long(a.neigh6.id))
      && Reported(ms, "HO.TrgtCellQual.7.RS-SINR.UEID", Double(a.neigh7.sinr))
      && Reported(ms, "HO.TrgtCellQual.7.RS-SINR-Converted.UEID", Double(a.neigh7.convertedSinr))
      && Reported(ms, "HO.TrgtCellQual.7.UEID", Long(a.neigh7.id))
      && Reported(ms, "HO.TrgtCellQual.8.RS-SINR.UEID", Double(a.neigh8.sinr))
      && Reported(ms, "HO.TrgtCellQual.8.RS-SINR-Converted.UEID", Double(a.neigh8.convertedSinr))
      && Reported(ms, "HO.TrgtCellQual.8.UEID", Long(a.neigh8.id))
  {
    var ms := Metrics(NrUeCellQualities(), a);
    assert ms[0] in ms && ms[1] in ms && ms[2] in ms && ms[3] in ms && ms[4] in ms && ms[5] in ms && ms[6] in ms
      && ms[7] in ms && ms[8] in ms && ms[9] in ms && ms[10] in ms && ms[11] in ms && ms[12] in ms
      && ms[13] in ms && ms[14] in ms && ms[15] in ms && ms[16] in ms && ms[17] in ms && ms[18] in ms
      && ms[19] in ms && ms[20] in ms && ms[21] in ms && ms[22] in ms && ms[23] in ms && ms[24] in ms
      && ms[25] in ms && ms[26] in ms;
  }

  // The UE table puts these one after the other, and the throughput last.
  lemma NrUeParts(a: NrUeArgs)
    ensures Metrics(NrUeTable(), a) == Metrics(NrUeCounters(), a) + Metrics(NrUeCellQualities(), a)
                                       + [("DRB.UEThpDl.UEID", Double(a.drbThrDlUeid))]
  {
    hide NrUeCounters, NrUeCellQualities;
  }

  lemma NrCellArguments(a: NrCellArgs)
    ensures var ms := Metrics(NrCellCommon(), a);
      && Reported(ms, "numActiveUes", Long(a.numActiveUes))
      && Reported(ms, "TB.TotNbrDlInitial.Qpsk", Long(a.macQpsk))
      && Reported(ms, "TB.TotNbrDlInitial.16Qam", Long(a.mac16Qam))
      && Reported(ms, "TB.TotNbrDlInitial.64Qam", Long(a.mac64Qam))
      && Reported(ms, "RRU.PrbUsedDl", Long(CeilToLong(a.prbUtilizationDl)))
      && Reported(ms, "TB.ErrTotalNbrDl.1", Long(a.macRetx))
      && Reported(ms, "QosFlow.PdcpPduVolumeDL_Filter", Long(a.macVolume))
      && Reported(ms, "CARR.PDSCHMCSDist.Bin1", Long(a.macMac04))
      && Reported(ms, "CARR.PDSCHMCSDist.Bin2", Long(a.macMac59))
      && Reported(ms, "CARR.PDSCHMCSDist.Bin3", Long(a.macMac1014))
      && Reported(ms, "CARR.PDSCHMCSDist.Bin4", Long(a.macMac1519))
      && Reported(ms, "CARR.PDSCHMCSDist.Bin5", Long(a.macMac2024))
      && Reported(ms, "CARR.PDSCHMCSDist.Bin6", Long(a.macMac2529))
      && Reported(ms, "L1M.RS-SINR.Bin34", Long(a.macSinrBin1))
      && Reported(ms, "L1M.RS-SINR.Bin46", Long(a.macSinrBin2))
      && Reported(ms, "L1M.RS-SINR.Bin58", Long(a.macSinrBin3))
      && Reported(ms, "L1M.RS-SINR.Bin70", Long(a.macSinrBin4))
      && Reported(ms, "L1M.RS-SINR.Bin82", Long(a.macSinrBin5))
      && Reported(ms, "L1M.RS-SINR.Bin94", Long(a.macSinrBin6))
      && Reported(ms, "L1M.RS-SINR.Bin127", Long(a.macSinrBin7))
      && Reported(ms, "DRB.BufferSize.Qos", Long(a.rlcBufferOccup))
      && Reported(ms, "DRB.MeanActiveUeDl", Long(a.activeUeDl))
      && Reported(ms, "PRB.AvailableDl", Long(a.dlAvailablePrbs))
      && Reported(ms, "RRB.AvailablePUl", Long(a.ulAvailablePrbs))
      && Reported(ms, "DRB.QCI", Long(a.qci))
      && Reported(ms, "RRB.UseageDl", Long(a.dlPrbUsage))
      && Reported(ms, "RRB.UseageUl", Long(a.ulPrbUsage))
  {
    var ms := Metrics(NrCellCommon(), a);
    assert ms[0] in ms && ms[1] in ms && ms[2] in ms && ms[3] in ms && ms[4] in ms && ms[5] in ms && ms[6] in ms
      && ms[7] in ms && ms[8] in ms && ms[9] in ms && ms[10] in ms && ms[11] in ms && ms[12] in ms
      && ms[13] in ms && ms[14] in ms && ms[15] in ms && ms[16] in ms && ms[17] in ms && ms[18] in ms
      && ms[19] in ms && ms[20] in ms && ms[21] in ms && ms[22] in ms && ms[23] in ms && ms[24] in ms
      && ms[25] in ms && ms[26] in ms;
  }

  // The cell table starts with the cell id, and with two more unless reduced.
  lemma NrCellParts(a: NrCellArgs, reduced: bool)
    ensures Metrics(NrCellTable(reduced), a) ==
      [("cellID", Long(a.cellId))]
      + (if reduced then []
         else [("TB.TotNbrDl.1", Long(a.macPdu)), ("TB.TotNbrDlInitial", Long(a.macPduInitial))])
      + Metrics(NrCellCommon(), a)
  {
    hide NrCellCommon;
  }
}
