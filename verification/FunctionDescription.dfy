/** The report styles of the KPM function description: four measurement lists built from name tables, and a deep
    copy of one of them for each style. */
module FunctionDescription {
  import opened Measurements

  datatype Entry = Entry(name: string, id: int)

  class LongCell {
    var value: int

    constructor (value: int)
      ensures this.value == value
    {
      this.value := value;
    }
  }

  // A measurement: its name in a buffer of its own and its id in a cell of its own.
  class ActionItem {
    const measName: array<char>
    const measId: LongCell

    constructor (name: string, id: int)
      ensures fresh(measName) && fresh(measId)
      ensures measName[..] == name && measId.value == id
    {
      measName := new char[|name|](i requires 0 <= i < |name| => name[i]);
      measId := new LongCell(id);
    }
  }

  class ActionList {
    var list: seq<ActionItem>

    constructor ()
      ensures list == []
    {
      list := [];
    }
  }

  // ---------- the heap nodes of a list, and what they hold ----------

  ghost function ItemNodes(item: ActionItem): set<object> { {item, item.measName, item.measId} }

  ghost function Nodes(items: seq<ActionItem>): set<object>
  {
    if items == [] then {} else Nodes(items[..|items| - 1]) + ItemNodes(items[|items| - 1])
  }

  // No node is shared between two items.
  ghost predicate Separate(items: seq<ActionItem>)
  {
    items == [] || (var n := |items| - 1; Separate(items[..n]) && Nodes(items[..n]) !! ItemNodes(items[n]))
  }

  ghost function Content(items: seq<ActionItem>): (es: seq<Entry>)
    reads Nodes(items)
    ensures |es| == |items|
  {
    if items == [] then []
    else
      var n := |items| - 1;
      Content(items[..n]) + [Entry(items[n].measName[..], items[n].measId.value)]
  }

  lemma {:induction false} ContentAt(items: seq<ActionItem>, k: nat)
    requires k < |items|
    ensures Content(items)[k] == Entry(items[k].measName[..], items[k].measId.value)
  {
    if k < |items| - 1 {
      ContentAt(items[..|items| - 1], k);
    }
  }

  // Nodes are allocated whenever their list is: anything allocated later is none of them.
  lemma {:induction false} NodesAllocated(items: seq<ActionItem>)
    ensures forall o <- Nodes(items) :: allocated(o)
  {
    if items != [] {
      NodesAllocated(items[..|items| - 1]);
    }
  }

  // The entries a table gives rise to: its names in order, each up to its first NUL, numbered from 1.
  function Entries(table: seq<string>): (es: seq<Entry>)
    ensures |es| == |table|
    ensures forall i :: 0 <= i < |es| ==> es[i] == Entry(CString(table[i]), i + 1)
  {
    if table == [] then []
    else
      var n := |table| - 1;
      Entries(table[..n]) + [Entry(CString(table[n]), n + 1)]
  }

  // ---------- building and cloning ----------

  // ASN_SEQUENCE_ADD of an item that shares nothing with the list.
  method SequenceAdd(dst: ActionList, item: ActionItem)
    requires dst !in Nodes(dst.list) + ItemNodes(item)
    requires Separate(dst.list) && Nodes(dst.list) !! ItemNodes(item)
    modifies dst
    ensures dst.list == old(dst.list) + [item]
    ensures Nodes(dst.list) == old(Nodes(dst.list)) + ItemNodes(item)
    ensures Separate(dst.list)
    ensures Content(dst.list) == old(Content(dst.list)) + [Entry(item.measName[..], item.measId.value)]
  {
    ghost var before := dst.list;
    dst.list := dst.list + [item];
    assert dst.list[..|before|] == before;
  }

  method BuildList(table: seq<string>) returns (dst: ActionList)
    ensures fresh(dst) && fresh(Nodes(dst.list)) && dst !in Nodes(dst.list)
    ensures Separate(dst.list) && Content(dst.list) == Entries(table)
  {
    hide Nodes, Content, Separate, CString;
    EmptyList();
    dst := new ActionList();
    for i := 0 to |table|
      invariant fresh(Nodes(dst.list)) && dst !in Nodes(dst.list)
      invariant Separate(dst.list) && Content(dst.list) == Entries(table[..i])
    {
      assert table[..i + 1][..i] == table[..i];
      NodesAllocated(dst.list);
      var measItem := new ActionItem(CString(table[i]), i + 1);
      SequenceAdd(dst, measItem);
    }
    assert table[..|table|] == table;
  }

  method CloneMeasInfoList(src: ActionList) returns (dst: ActionList)
    requires src !in Nodes(src.list)
    ensures fresh(dst) && fresh(Nodes(dst.list)) && dst !in Nodes(dst.list)
    ensures Separate(dst.list) && Content(dst.list) == Content(src.list)
  {
    hide Nodes, Content, Separate;
    EmptyList();
    NodesAllocated(src.list);
    dst := new ActionList();
    ghost var source := Content(src.list);
    for i := 0 to |src.list|
      invariant src.list == old(src.list) && Content(src.list) == source
      invariant fresh(Nodes(dst.list)) && dst !in Nodes(dst.list)
      invariant Separate(dst.list) && Content(dst.list) == source[..i]
    {
      var srcItem := src.list[i];
      ContentAt(src.list, i);
      NodesAllocated(dst.list);
      var dstItem := new ActionItem(srcItem.measName[..], srcItem.measId.value);
      SequenceAdd(dst, dstItem);
    }
  }

  lemma EmptyList()
    ensures Nodes([]) == {} && Separate([]) && Content([]) == []
  {
  }

  // ---------- the report styles ----------

  class ReportStyle {
    const styleType: int
    const name: string
    const actionFormat: int
    const headerFormat: int
    const messageFormat: int
    // The list header is copied by value: the style holds the clone's own items.
    const measInfoActionList: seq<ActionItem>

    constructor (styleType: int, name: string, actionFormat: int, headerFormat: int, messageFormat: int,
                 measInfoActionList: seq<ActionItem>)
      ensures Header() == (styleType, name, actionFormat, headerFormat, messageFormat)
      ensures this.measInfoActionList == measInfoActionList
    {
      this.styleType, this.name, this.actionFormat := styleType, name, actionFormat;
      this.headerFormat, this.messageFormat := headerFormat, messageFormat;
      this.measInfoActionList := measInfoActionList;
    }

    function Header(): (int, string, int, int, int) {
      (styleType, name, actionFormat, headerFormat, messageFormat)
    }
  }

  datatype Sources = Sources(ueLte: ActionList, ueGnb: ActionList, cellLte: ActionList, cellGnb: ActionList)

  // 0 selects LTE and 1 selects gNB, for UE (0) and cell (1) measurements; any other pair selects nothing.
  function Select<T>(reportMeastype: int, nbType: int, ueLte: T, ueGnb: T, cellLte: T, cellGnb: T, none: T): T
  {
    if reportMeastype == 0 && nbType == 0 then ueLte
    else if reportMeastype == 0 && nbType == 1 then ueGnb
    else if reportMeastype == 1 && nbType == 0 then cellLte
    else if reportMeastype == 1 && nbType == 1 then cellGnb
    else none
  }

  class Description {
    var reportStyles: seq<ReportStyle>
    // What each style's list holds.
    ghost var contents: seq<seq<Entry>>

    constructor ()
      ensures reportStyles == [] && contents == []
    {
      reportStyles := [];
      contents := [];
    }

    ghost function Selected(src: Sources, reportMeastype: int, nbType: int): seq<ActionItem>
      reads src.ueLte, src.ueGnb, src.cellLte, src.cellGnb
    {
      Select(reportMeastype, nbType, src.ueLte.list, src.ueGnb.list, src.cellLte.list, src.cellGnb.list, [])
    }

    ghost function Lists(src: Sources): set<object>
      reads src.ueLte, src.ueGnb, src.cellLte, src.cellGnb
    {
      Nodes(src.ueLte.list) + Nodes(src.ueGnb.list) + Nodes(src.cellLte.list) + Nodes(src.cellGnb.list)
    }

    ghost predicate Outside(src: Sources)
      reads src.ueLte, src.ueGnb, src.cellLte, src.cellGnb
    {
      && this !in Lists(src)
      && src.ueLte !in Lists(src) && src.ueGnb !in Lists(src)
      && src.cellLte !in Lists(src) && src.cellGnb !in Lists(src)
    }

    // No node is shared between two styles, or between a style and a source list.
    ghost predicate Disjoint(src: Sources)
      reads this, src.ueLte, src.ueGnb, src.cellLte, src.cellGnb
    {
      && Outside(src)
      && (forall i :: 0 <= i < |reportStyles| ==>
            && this !in Nodes(reportStyles[i].measInfoActionList)
            && Nodes(reportStyles[i].measInfoActionList) !! Lists(src))
      && forall i, j :: 0 <= i < j < |reportStyles| ==>
           Nodes(reportStyles[i].measInfoActionList) !! Nodes(reportStyles[j].measInfoActionList)
    }

    ghost function StyleNodes(): set<object>
      reads this
    {
      set i, o | 0 <= i < |reportStyles| && o in Nodes(reportStyles[i].measInfoActionList) :: o
    }

    // The lists hold their contents, each in nodes of its own.
    ghost predicate Holds()
      reads this, StyleNodes()
    {
      && |contents| == |reportStyles|
      && forall i :: 0 <= i < |reportStyles| ==>
           && Content(reportStyles[i].measInfoActionList) == contents[i]
           && Separate(reportStyles[i].measInfoActionList)
    }

    // Appending a style whose nodes are new keeps all of this.
    method AppendStyle(style: ReportStyle, src: Sources)
      requires Disjoint(src) && Holds()
      requires Separate(style.measInfoActionList) && this !in Nodes(style.measInfoActionList)
      requires Nodes(style.measInfoActionList) !! Lists(src) && Nodes(style.measInfoActionList) !! StyleNodes()
      modifies this
      ensures Disjoint(src) && Holds()
      ensures reportStyles == old(reportStyles) + [style]
      ensures contents == old(contents) + [old(Content(style.measInfoActionList))]
    {
      hide Nodes, Content, Separate;
      contents := contents + [Content(style.measInfoActionList)];
      reportStyles := reportStyles + [style];
    }

    method MakeReportStyle(styleType: int, name: string, actionFmt: int, hdrFmt: int, msgFmt: int,
                           reportMeastype: int, nbType: int, src: Sources)
      requires Disjoint(src) && Holds()
      modifies this
      ensures Disjoint(src) && Holds()
      ensures contents == old(contents) + [old(Content(Selected(src, reportMeastype, nbType)))]
      ensures |reportStyles| == |old(reportStyles)| + 1 && reportStyles[..|old(reportStyles)|] == old(reportStyles)
      ensures reportMeastype !in {0, 1} || nbType !in {0, 1} ==> contents == old(contents) + [[]]
      ensures fresh(Nodes(reportStyles[|old(reportStyles)|].measInfoActionList))
      ensures reportStyles[|old(reportStyles)|].Header() == (styleType, name, actionFmt, hdrFmt, msgFmt)
    {
      hide Nodes, Content, Separate;
      EmptyList();
      AllAllocated(src);
      var list: seq<ActionItem> := [];
      if reportMeastype == 0 && nbType == 0 {
        var c := CloneMeasInfoList(src.ueLte);
        list := c.list;
      } else if reportMeastype == 0 && nbType == 1 {
        var c := CloneMeasInfoList(src.ueGnb);
        list := c.list;
      } else if reportMeastype == 1 && nbType == 0 {
        var c := CloneMeasInfoList(src.cellLte);
        list := c.list;
      } else if reportMeastype == 1 && nbType == 1 {
        var c := CloneMeasInfoList(src.cellGnb);
        list := c.list;
      }
      EmptyList();
      NodesAllocated(list);
      var style := new ReportStyle(styleType, name, actionFmt, hdrFmt, msgFmt, list);
      AppendStyle(style, src);
    }

    lemma AllAllocated(src: Sources)
      ensures forall o <- Lists(src) :: allocated(o)
      ensures forall o <- StyleNodes() :: allocated(o)
    {
      hide Nodes;
      NodesAllocated(src.ueLte.list);
      NodesAllocated(src.ueGnb.list);
      NodesAllocated(src.cellLte.list);
      NodesAllocated(src.cellGnb.list);
      forall i | 0 <= i < |reportStyles|
        ensures forall o <- Nodes(reportStyles[i].measInfoActionList) :: allocated(o)
      {
        NodesAllocated(reportStyles[i].measInfoActionList);
      }
    }
  }

  // ---------- the whole description ----------

  datatype Tables = Tables(ueLte: seq<string>, ueGnb: seq<string>,
                           cellLte: seq<string>, cellGnb: seq<string>)

  // The source lists share no node with one another.
  ghost predicate Apart(src: Sources)
    reads src.ueLte, src.ueGnb, src.cellLte, src.cellGnb
  {
    && Nodes(src.ueLte.list) !! Nodes(src.ueGnb.list) !! Nodes(src.cellLte.list) !! Nodes(src.cellGnb.list)
  }

  // The four source lists hold the four tables.
  ghost predicate Built(src: Sources, t: Tables)
    reads src.ueLte, src.ueGnb, src.cellLte, src.cellGnb
    reads Nodes(src.ueLte.list), Nodes(src.ueGnb.list), Nodes(src.cellLte.list), Nodes(src.cellGnb.list)
  {
    && Content(src.ueLte.list) == Entries(t.ueLte) && Content(src.ueGnb.list) == Entries(t.ueGnb)
    && Content(src.cellLte.list) == Entries(t.cellLte) && Content(src.cellGnb.list) == Entries(t.cellGnb)
  }

  method BuildSources(desc: Description, t: Tables) returns (src: Sources)
    ensures fresh(src.ueLte) && fresh(src.ueGnb) && fresh(src.cellLte) && fresh(src.cellGnb)
    ensures desc.Outside(src) && Built(src, t) && Apart(src)
  {
    hide Nodes, Content, Separate, Entries;
    var l1 := BuildList(t.ueLte);
    NodesAllocated(l1.list);
    var l2 := BuildList(t.ueGnb);
    NodesAllocated(l2.list);
    var l3 := BuildList(t.cellLte);
    NodesAllocated(l3.list);
    var l4 := BuildList(t.cellGnb);
    src := Sources(l1, l2, l3, l4);
  }

  // What the list of a style is to hold.
  function Expected(t: Tables, reportMeastype: int, nbType: int): seq<Entry>
  {
    Select(reportMeastype, nbType, Entries(t.ueLte), Entries(t.ueGnb), Entries(t.cellLte), Entries(t.cellGnb), [])
  }

  // LTE tables for node type 0, gNB tables for 1, and nothing for any other.
  lemma ExpectedTables(t: Tables, nbType: int)
    ensures nbType == 0 ==> Expected(t, 1, nbType) == Entries(t.cellLte) && Expected(t, 0, nbType) == Entries(t.ueLte)
    ensures nbType == 1 ==> Expected(t, 1, nbType) == Entries(t.cellGnb) && Expected(t, 0, nbType) == Entries(t.ueGnb)
    ensures nbType != 0 && nbType != 1 ==> Expected(t, 1, nbType) == Expected(t, 0, nbType) == []
  {
    hide Entries;
  }

  lemma SelectedHolds(desc: Description, src: Sources, t: Tables, reportMeastype: int, nbType: int)
    requires Built(src, t)
    ensures Content(desc.Selected(src, reportMeastype, nbType)) == Expected(t, reportMeastype, nbType)
  {
    hide Nodes, Content, Entries;
    EmptyList();
  }

  // One make_report_style call, against the tables.
  method AddStyle(desc: Description, styleType: int, name: string, actionFmt: int, hdrFmt: int, msgFmt: int,
                  reportMeastype: int, nbType: int, src: Sources, ghost t: Tables)
    requires desc.Disjoint(src) && desc.Holds() && Built(src, t)
    modifies desc
    ensures desc.Disjoint(src) && desc.Holds() && Built(src, t)
    ensures Apart(src) == old(Apart(src))
    ensures desc.contents == old(desc.contents) + [Expected(t, reportMeastype, nbType)]
    ensures |desc.reportStyles| == |old(desc.reportStyles)| + 1
    ensures desc.reportStyles[..|old(desc.reportStyles)|] == old(desc.reportStyles)
    ensures desc.reportStyles[|old(desc.reportStyles)|].Header() == (styleType, name, actionFmt, hdrFmt, msgFmt)
  {
    hide Nodes, Content, Separate, Entries, Expected;
    SelectedHolds(desc, src, t, reportMeastype, nbType);
    desc.AllAllocated(src);
    desc.MakeReportStyle(styleType, name, actionFmt, hdrFmt, msgFmt, reportMeastype, nbType, src);
  }

  // Styles 1 and 4 report the cell, the others the UEs. Whatever the node type, the five lists share no node with
  // each other or with the four source lists, which still hold their tables.
  method FillKpmFunctionDescription(desc: Description, nbType: int, t: Tables) returns (src: Sources)
    requires desc.reportStyles == [] && desc.contents == []
    modifies desc
    ensures fresh(src.ueLte) && fresh(src.ueGnb) && fresh(src.cellLte) && fresh(src.cellGnb)
    ensures Built(src, t) && Apart(src) && desc.Disjoint(src) && desc.Holds()
    ensures var cell, ue := Expected(t, 1, nbType), Expected(t, 0, nbType);
      desc.contents == [cell, ue, ue, cell, ue]
    ensures |desc.reportStyles| == 5
    ensures desc.reportStyles[0].Header() == (1, "E2 Node Measurement", 1, 1, 1)
    ensures desc.reportStyles[1].Header() == (2, "E2 Node Measurement for a single UE", 2, 1, 1)
    ensures desc.reportStyles[2].Header() == (3, "UE-ReportStyle", 3, 1, 2)
    ensures desc.reportStyles[3].Header() == (4, "Common Condition-based, UE-level Measurement", 4, 1, 3)
    ensures desc.reportStyles[4].Header() == (5, "E2 Node Measurement for multiple UEs", 5, 1, 3)
  {
    hide Nodes, Content, Separate, Entries, Expected, Built;
    src := BuildSources(desc, t);
    AddStyle(desc, 1, "E2 Node Measurement", 1, 1, 1, 1, nbType, src, t);
    AddStyle(desc, 2, "E2 Node Measurement for a single UE", 2, 1, 1, 0, nbType, src, t);
    AddStyle(desc, 3, "UE-ReportStyle", 3, 1, 2, 0, nbType, src, t);
    AddStyle(desc, 4, "Common Condition-based, UE-level Measurement", 4, 1, 3, 1, nbType, src, t);
    AddStyle(desc, 5, "E2 Node Measurement for multiple UEs", 5, 1, 3, 0, nbType, src, t);
  }
}
