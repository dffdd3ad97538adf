/** The target cell of a handover: the value at the leftmost leaf, exactly three structures down, of the RAN
    parameter tree in a control message. */
module TargetCell {
  import opened Wrappers
  import opened Words

  datatype Value = BitS(buf: seq<octet>) | OctS(buf: seq<octet>) | Int(v: int) | OtherValue

  // A null structure is None; a null or empty list of parameters is []; an item may be null.
  datatype ValueType =
    | Structure(parameters: Option<seq<Option<ValueType>>>)
    | ElementFalse(value: Option<Value>)
    | OtherType

  datatype MessageFormat1 = MessageFormat1(ranPList: seq<Option<ValueType>>)

  // The walk as written: one block for each level, each giving up with 0.
  method GetTargetCell(message: Option<MessageFormat1>) returns (cellId: nat)
    ensures cellId == TargetOf(message)
  {
    if message.None? {
      return 0;
    }
    var topList := message.value.ranPList;
    if |topList| == 0 {
      return 0;
    }
    var topItem := topList[0];
    if topItem.None? || !topItem.value.Structure? {
      return 0;
    }
    if topItem.value.parameters.None? || |topItem.value.parameters.value| == 0 {
      return 0;
    }

    var targetCellItem := topItem.value.parameters.value[0];
    if targetCellItem.None? || !targetCellItem.value.Structure? {
      return 0;
    }
    if targetCellItem.value.parameters.None? || |targetCellItem.value.parameters.value| == 0 {
      return 0;
    }

    var nrCellItem := targetCellItem.value.parameters.value[0];
    if nrCellItem.None? || !nrCellItem.value.Structure? {
      return 0;
    }
    if nrCellItem.value.parameters.None? || |nrCellItem.value.parameters.value| == 0 {
      return 0;
    }

    var nrCgiItem := nrCellItem.value.parameters.value[0];
    if nrCgiItem.None? || !nrCgiItem.value.ElementFalse? || nrCgiItem.value.value.None? {
      return 0;
    }
    var val := nrCgiItem.value.value.value;
    DescendsTo(topItem, val);
    match val {
      case BitS(bits) =>
        if |bits| == 0 {
          return 0;
        }
        LowFourBits(bits[|bits| - 1]);
        cellId := Bitop(And, bits[|bits| - 1], 0x0F);
      case OctS(oct) =>
        if |oct| == 0 {
          return 0;
        }
        LowFourBits(oct[|oct| - 1]);
        cellId := Bitop(And, oct[|oct| - 1], 0x0F);
      case Int(v) =>
        LowFourBitsOfLong(v);
        cellId := Bitop(And, ToU64(v), 0x0F);
      case OtherValue =>
        return 0;
    }
  }

  // ---------- the same as a recursive descent ----------

  function First(items: seq<Option<ValueType>>): Option<ValueType> { if items == [] then None else items[0] }

  // Down the leftmost children through the given number of structures, to an ElementFalse.
  function Descend(node: Option<ValueType>, levels: nat): Option<Value>
    decreases levels
  {
    if node.None? then None
    else if levels == 0 then (if node.value.ElementFalse? then node.value.value else None)
    else if node.value.Structure? && node.value.parameters.Some?
      then Descend(First(node.value.parameters.value), levels - 1)
    else None
  }

  const LEVELS: nat := 3

  function CellOf(value: Value): (cell: nat)
    ensures cell < 16
  {
    match value
    case BitS(buf) => if buf == [] then 0 else buf[|buf| - 1] % 16
    case OctS(buf) => if buf == [] then 0 else buf[|buf| - 1] % 16
    case Int(v) => v % 16
    case OtherValue => 0
  }

  function CellOfNode(node: Option<ValueType>): nat {
    match Descend(node, LEVELS)
    case Some(value) => CellOf(value)
    case None => 0
  }

  function TargetOf(message: Option<MessageFormat1>): nat {
    match message
    case Some(m) => CellOfNode(First(m.ranPList))
    case None => 0
  }

  lemma DescendsTo(topItem: Option<ValueType>, value: Value)
    requires topItem.Some? && topItem.value.Structure? && topItem.value.parameters.Some?
    requires var a := First(topItem.value.parameters.value);
      && a.Some? && a.value.Structure? && a.value.parameters.Some?
      && var b := First(a.value.parameters.value);
      && b.Some? && b.value.Structure? && b.value.parameters.Some?
      && First(b.value.parameters.value) == Some(ElementFalse(Some(value)))
    ensures Descend(topItem, LEVELS) == Some(value)
  {
    var a := First(topItem.value.parameters.value);
    var b := First(a.value.parameters.value);
    var c := First(b.value.parameters.value);
    assert Descend(c, 0) == Some(value);
    assert Descend(b, 1) == Some(value);
    assert Descend(a, 2) == Some(value);
  }

  lemma LowFourBits(b: octet)
    ensures Bitop(And, b, 0x0F) == b % 16
  {
    Pow2Values();
    AndLowMask(b, 4);
  }

  // The mask of a long is its Euclidean remainder, also when the long is negative.
  lemma LowFourBitsOfLong(v: int)
    ensures Bitop(And, ToU64(v), 0x0F) == v % 16
  {
    Pow2Values();
    AndLowMask(ToU64(v), 4);
    ModOfMod(v, 16, 0x1000_0000_0000_0000);
  }

  // ---------- only the leftmost spine matters ----------

  // The node with every sibling to the right of its leftmost path removed.
  function Prune(node: Option<ValueType>, levels: nat): Option<ValueType>
    decreases levels
  {
    if levels > 0 && node.Some? && node.value.Structure? && node.value.parameters.Some?
      && node.value.parameters.value != []
    then Some(Structure(Some([Prune(node.value.parameters.value[0], levels - 1)])))
    else node
  }

  // A value wrapped in the given number of structures, and nothing else.
  function Nested(value: Value, levels: nat): ValueType
  {
    if levels == 0 then ElementFalse(Some(value)) else Structure(Some([Some(Nested(value, levels - 1))]))
  }

  // The descent finds a value exactly when the leftmost spine is that value in so many structures.
  lemma {:induction false} DescendIffNested(node: Option<ValueType>, levels: nat, value: Value)
    ensures Descend(node, levels) == Some(value) <==> Prune(node, levels) == Some(Nested(value, levels))
    decreases levels
  {
    if levels > 0 && node.Some? && node.value.Structure? && node.value.parameters.Some? {
      var children := node.value.parameters.value;
      if children != [] {
        DescendIffNested(children[0], levels - 1, value);
        var p := Prune(children[0], levels - 1);
        assert [p][0] == p && [Some(Nested(value, levels - 1))][0] == Some(Nested(value, levels - 1));
      }
    }
  }

  // Whatever stands to the right of the leftmost spine, the leaf three structures down gives the cell: the last
  // octet of a string, or the integer, modulo 16.
  lemma LeafGivesCell(node: Option<ValueType>, value: Value, rest: seq<Option<ValueType>>)
    requires Prune(node, 3) == Some(Nested(value, 3))
    ensures TargetOf(Some(MessageFormat1([node] + rest))) ==
      match value
      case BitS(buf) => if buf == [] then 0 else buf[|buf| - 1] % 16
      case OctS(buf) => if buf == [] then 0 else buf[|buf| - 1] % 16
      case Int(v) => v % 16
      case OtherValue => 0
  {
    hide Descend, Prune, Nested;
    DescendIffNested(node, 3, value);
  }

  // Without a first item, or with one of any other spine, the cell is 0.
  lemma NoLeafGivesZero(message: Option<MessageFormat1>)
    requires message.Some? && message.value.ranPList != [] ==>
      forall value :: Prune(message.value.ranPList[0], 3) != Some(Nested(value, 3))
    ensures TargetOf(message) == 0
  {
    hide Prune, Nested;
    if message.Some? && message.value.ranPList != [] {
      OtherShapesGiveZero(message.value.ranPList[0]);
    }
  }

  // Messages with the same leftmost spine name the same cell.
  lemma SameSpineSameCell(a: Option<ValueType>, b: Option<ValueType>)
    requires Prune(a, LEVELS) == Prune(b, LEVELS)
    ensures CellOfNode(a) == CellOfNode(b)
  {
    if Descend(a, LEVELS).Some? {
      DescendIffNested(a, LEVELS, Descend(a, LEVELS).value);
      DescendIffNested(b, LEVELS, Descend(a, LEVELS).value);
    } else if Descend(b, LEVELS).Some? {
      DescendIffNested(a, LEVELS, Descend(b, LEVELS).value);
      DescendIffNested(b, LEVELS, Descend(b, LEVELS).value);
    }
  }

  // Any spine but a value in exactly three structures gives cell 0.
  lemma OtherShapesGiveZero(node: Option<ValueType>)
    requires forall value :: Prune(node, LEVELS) != Some(Nested(value, LEVELS))
    ensures CellOfNode(node) == 0
  {
    if Descend(node, LEVELS).Some? {
      DescendIffNested(node, LEVELS, Descend(node, LEVELS).value);
    }
  }
}
