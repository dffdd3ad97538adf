/** Decoding of a RIC control request: one loop over the IEs that overwrites the fields of the message object. */
module ControlMessage {
  import opened Wrappers
  import opened Words
  import opened LastOf
  import opened TargetCell

  const TS: int := 1001
  const QOS: int := 1002
  const RC: int := 1024

  datatype RequestIdValue = RequestIdValue(requestor: int, instance: int)

  datatype Ie =
    | RequestId(id: RequestIdValue)
    | RanFunctionId(ranFunction: int)
    | CallProcessId(process: seq<octet>)
    | ControlHeader(header: seq<octet>)
    | ControlBody(body: Option<seq<octet>>)
    | AckRequest(ack: int)
    | Nothing
    | Unknown

  // What the ASN.1 decoder makes of a buffer; the decoder itself is any function to an Option of these.
  datatype HeaderFormats<H> = HeaderFormat1(header: H) | OtherHeaderFormat
  datatype MessageFormats = BodyFormat1(body: MessageFormat1) | OtherBodyFormat

  type HeaderDecoder<!H> = seq<octet> -> Option<HeaderFormats<H>>
  type BodyDecoder = seq<octet> -> Option<MessageFormats>

  // What each IE stores, if anything: an IE that fails to decode, or that decodes to another format, stores nothing.
  function RequestIdOf(ie: Ie): Option<RequestIdValue> { if ie.RequestId? then Some(ie.id) else None }

  function RequestorOf(ie: Ie): Option<int> { if ie.RequestId? then Some(ie.id.requestor) else None }

  function RanFunctionOf(ie: Ie): Option<int> { if ie.RanFunctionId? then Some(ie.ranFunction) else None }

  function CallProcessOf(ie: Ie): Option<seq<octet>> { if ie.CallProcessId? then Some(ie.process) else None }

  function HeaderReader<H>(decode: HeaderDecoder<H>): Ie -> Option<Option<H>>
  {
    (ie: Ie) =>
      if ie.ControlHeader? && decode(ie.header).Some? && decode(ie.header).value.HeaderFormat1?
      then Some(Some(decode(ie.header).value.header)) else None
  }

  function BodyReader(decode: BodyDecoder): Ie -> Option<Option<MessageFormat1>>
  {
    (ie: Ie) =>
      if ie.ControlBody? && ie.body.Some? && ie.body.value != []
         && decode(ie.body.value).Some? && decode(ie.body.value).value.BodyFormat1?
      then Some(Some(decode(ie.body.value).value.body)) else None
  }

  datatype Fields<H> = Fields(requestType: int, ranFunctionId: int, ricRequestId: RequestIdValue,
                              ricCallProcessId: seq<octet>, headerFormat1: Option<H>,
                              messageFormat1: Option<MessageFormat1>)

  // The fields that decoding leaves, from those it found.
  function Decoded<H>(f: Fields<H>, ies: seq<Ie>, decodeHeader: HeaderDecoder<H>, decodeBody: BodyDecoder): Fields<H>
  {
    Fields(Last(RequestorOf, ies, f.requestType), Last(RanFunctionOf, ies, f.ranFunctionId),
           Last(RequestIdOf, ies, f.ricRequestId), Last(CallProcessOf, ies, f.ricCallProcessId),
           Last(HeaderReader(decodeHeader), ies, f.headerFormat1), Last(BodyReader(decodeBody), ies, f.messageFormat1))
  }

  // No constructor: the fields hold arbitrary values until an IE sets them, as in the original object.
  class RicControlMessage<H(0)> {
    var requestType: int
    var ranFunctionId: int
    var ricRequestId: RequestIdValue
    var ricCallProcessId: seq<octet>
    var headerFormat1: Option<H>
    var messageFormat1: Option<MessageFormat1>

    function Stored(): Fields<H> reads this {
      Fields(requestType, ranFunctionId, ricRequestId, ricCallProcessId, headerFormat1, messageFormat1)
    }

    method DecodeRicControlMessage(ies: seq<Ie>, decodeHeader: HeaderDecoder<H>, decodeBody: BodyDecoder)
      modifies this
      ensures Stored() == Decoded(old(Stored()), ies, decodeHeader, decodeBody)
    {
      if |ies| == 0 {
        return;
      }
      for i := 0 to |ies|
        invariant Stored() == Decoded(old(Stored()), ies[..i], decodeHeader, decodeBody)
      {
        assert ies[..i + 1][..i] == ies[..i];
        match ies[i] {
          case RequestId(id) =>
            ricRequestId := id;
            if id.requestor == 1001 {
              requestType := TS;
            } else if id.requestor == 1002 {
              requestType := QOS;
            } else if id.requestor == 1024 {
              requestType := RC;
            } else {
              requestType := id.requestor;
            }
          case RanFunctionId(id) =>
            ranFunctionId := id;
          case CallProcessId(process) =>
            ricCallProcessId := process;
          case ControlHeader(buf) =>
            var rval := decodeHeader(buf);
            if rval.Some? {
              if rval.value.HeaderFormat1? {
                headerFormat1 := Some(rval.value.header);
              }
            }
          case ControlBody(buf) =>
            if buf.Some? && |buf.value| > 0 {
              var rval := decodeBody(buf.value);
              if rval.Some? {
                if rval.value.BodyFormat1? {
                  messageFormat1 := Some(rval.value.body);
                }
              }
            }
          case AckRequest(_) =>
          case Nothing =>
          case Unknown =>
        }
      }
      assert ies[..|ies|] == ies;
    }

    // Decoding and then asking for the target cell reads the last usable control message and nothing else.
    method DecodeTarget(ies: seq<Ie>, decodeHeader: HeaderDecoder<H>, decodeBody: BodyDecoder) returns (cellId: nat)
      modifies this
      ensures cellId == TargetOf(Last(BodyReader(decodeBody), ies, old(messageFormat1))) < 16
    {
      DecodeRicControlMessage(ies, decodeHeader, decodeBody);
      cellId := GetTargetCell(messageFormat1);
      TargetBelow16(messageFormat1);
    }
  }

  lemma TargetBelow16(message: Option<MessageFormat1>)
    ensures TargetOf(message) < 16
  {
    hide Descend;
  }

  // The request type is always the stored requestor id, once either a request id has been decoded or the two
  // agreed before.
  lemma {:induction false} RequestTypeIsRequestor(ies: seq<Ie>, id: RequestIdValue, kind: int)
    ensures (id.requestor == kind || exists i :: 0 <= i < |ies| && ies[i].RequestId?)
       ==> Last(RequestorOf, ies, kind) == Last(RequestIdOf, ies, id).requestor
  {
    if ies != [] {
      var n := |ies| - 1;
      RequestTypeIsRequestor(ies[..n], id, kind);
      if i :| 0 <= i < |ies| && ies[i].RequestId? {
        if i < n {
          assert ies[..n][i].RequestId?;
        }
      }
    }
  }

  // ---------- what each kind of IE leaves behind ----------

  // The last request id, function id and call process id are stored as they are.
  lemma IdsStored<H>(f: Fields<H>, before: seq<Ie>, ie: Ie, after: seq<Ie>,
                     decodeHeader: HeaderDecoder<H>, decodeBody: BodyDecoder)
    ensures var d := Decoded(f, before + [ie] + after, decodeHeader, decodeBody);
      && (ie.RequestId? && (forall x <- after :: !x.RequestId?) ==>
            d.ricRequestId == ie.id && d.requestType == ie.id.requestor)
      && (ie.RanFunctionId? && (forall x <- after :: !x.RanFunctionId?) ==> d.ranFunctionId == ie.ranFunction)
      && (ie.CallProcessId? && (forall x <- after :: !x.CallProcessId?) ==> d.ricCallProcessId == ie.process)
  {
    hide Last;
    assert forall i :: 0 <= i < |after| ==> after[i] in after;
    if ie.RequestId? && forall x <- after :: !x.RequestId? {
      LastAt(RequestorOf, before, ie, after, f.requestType);
      LastAt(RequestIdOf, before, ie, after, f.ricRequestId);
    }
    if ie.RanFunctionId? && forall x <- after :: !x.RanFunctionId? {
      LastAt(RanFunctionOf, before, ie, after, f.ranFunctionId);
    }
    if ie.CallProcessId? && forall x <- after :: !x.CallProcessId? {
      LastAt(CallProcessOf, before, ie, after, f.ricCallProcessId);
    }
  }

  // An IE that is no header, or a header that fails to decode or decodes to another format.
  predicate NoHeader<H>(ie: Ie, decode: HeaderDecoder<H>) {
    ie.ControlHeader? ==> decode(ie.header).None? || decode(ie.header).value.OtherHeaderFormat?
  }

  // An IE that is no message, or a message that is absent, empty, fails to decode or decodes to another format.
  predicate NoBody(ie: Ie, decode: BodyDecoder) {
    ie.ControlBody? ==> ie.body.None? || ie.body.value == []
                        || decode(ie.body.value).None? || decode(ie.body.value).value.OtherBodyFormat?
  }

  // The last header and the last message that decode to Format 1 are stored, whatever fails after them.
  lemma FormatsStored<H>(f: Fields<H>, before: seq<Ie>, buf: seq<octet>, after: seq<Ie>,
                         decodeHeader: HeaderDecoder<H>, decodeBody: BodyDecoder)
    ensures decodeHeader(buf).Some? && decodeHeader(buf).value.HeaderFormat1?
            && (forall x <- after :: NoHeader(x, decodeHeader)) ==>
      Decoded(f, before + [ControlHeader(buf)] + after, decodeHeader, decodeBody).headerFormat1
      == Some(decodeHeader(buf).value.header)
    ensures buf != [] && decodeBody(buf).Some? && decodeBody(buf).value.BodyFormat1?
            && (forall x <- after :: NoBody(x, decodeBody)) ==>
      Decoded(f, before + [ControlBody(Some(buf))] + after, decodeHeader, decodeBody).messageFormat1
      == Some(decodeBody(buf).value.body)
  {
    hide Last;
    assert forall i :: 0 <= i < |after| ==> after[i] in after;
    if decodeHeader(buf).Some? && decodeHeader(buf).value.HeaderFormat1?
       && forall x <- after :: NoHeader(x, decodeHeader) {
      assert forall i :: 0 <= i < |after| ==> NoHeader(after[i], decodeHeader);
      LastAt(HeaderReader(decodeHeader), before, ControlHeader(buf), after, f.headerFormat1);
    }
    if buf != [] && decodeBody(buf).Some? && decodeBody(buf).value.BodyFormat1?
       && forall x <- after :: NoBody(x, decodeBody) {
      assert forall i :: 0 <= i < |after| ==> NoBody(after[i], decodeBody);
      LastAt(BodyReader(decodeBody), before, ControlBody(Some(buf)), after, f.messageFormat1);
    }
  }

  // What no IE gives stays as it was.
  lemma NothingStored<H>(f: Fields<H>, ies: seq<Ie>, decodeHeader: HeaderDecoder<H>, decodeBody: BodyDecoder)
    ensures var d := Decoded(f, ies, decodeHeader, decodeBody);
      && ((forall x <- ies :: !x.RequestId?) ==> d.ricRequestId == f.ricRequestId && d.requestType == f.requestType)
      && ((forall x <- ies :: !x.RanFunctionId?) ==> d.ranFunctionId == f.ranFunctionId)
      && ((forall x <- ies :: !x.CallProcessId?) ==> d.ricCallProcessId == f.ricCallProcessId)
      && ((forall x <- ies :: NoHeader(x, decodeHeader)) ==> d.headerFormat1 == f.headerFormat1)
      && ((forall x <- ies :: NoBody(x, decodeBody)) ==> d.messageFormat1 == f.messageFormat1)
  {
    hide Last;
    assert forall i :: 0 <= i < |ies| ==> ies[i] in ies;
    if forall x <- ies :: !x.RequestId? {
      LastOfNone(RequestorOf, ies, f.requestType);
      LastOfNone(RequestIdOf, ies, f.ricRequestId);
    }
    if forall x <- ies :: !x.RanFunctionId? {
      LastOfNone(RanFunctionOf, ies, f.ranFunctionId);
    }
    if forall x <- ies :: !x.CallProcessId? {
      LastOfNone(CallProcessOf, ies, f.ricCallProcessId);
    }
    if forall x <- ies :: NoHeader(x, decodeHeader) {
      assert forall i :: 0 <= i < |ies| ==> NoHeader(ies[i], decodeHeader);
      LastOfNone(HeaderReader(decodeHeader), ies, f.headerFormat1);
    }
    if forall x <- ies :: NoBody(x, decodeBody) {
      assert forall i :: 0 <= i < |ies| ==> NoBody(ies[i], decodeBody);
      LastOfNone(BodyReader(decodeBody), ies, f.messageFormat1);
    }
  }

  // ---------- order independence ----------

  function Kind(ie: Ie): nat {
    match ie
    case RequestId(_) => 1
    case RanFunctionId(_) => 2
    case CallProcessId(_) => 3
    case ControlHeader(_) => 4
    case ControlBody(_) => 5
    case _ => 0
  }

  // Each kind that stores something occurs at most once.
  ghost predicate KindsUnique(ies: seq<Ie>) {
    forall i, j :: 0 <= i < j < |ies| && Kind(ies[i]) == Kind(ies[j]) ==> Kind(ies[i]) == 0
  }

  // A reader of one kind reads at most once from a list in which kinds are unique.
  lemma KindReadOnce<V>(read: Ie -> Option<V>, kind: nat, ies: seq<Ie>)
    requires KindsUnique(ies) && kind > 0
    requires forall ie: Ie :: read(ie).Some? ==> Kind(ie) == kind
    ensures ReadOnce(read, ies)
  {
  }

  lemma DecodingIsOrderIndependent<H>(f: Fields<H>, xs: seq<Ie>, ys: seq<Ie>,
                                      decodeHeader: HeaderDecoder<H>, decodeBody: BodyDecoder)
    requires KindsUnique(xs) && multiset(xs) == multiset(ys)
    ensures Decoded(f, xs, decodeHeader, decodeBody) == Decoded(f, ys, decodeHeader, decodeBody)
  {
    KindReadOnce(RequestorOf, 1, xs);
    LastPermutes(RequestorOf, xs, ys, f.requestType);
    KindReadOnce(RequestIdOf, 1, xs);
    LastPermutes(RequestIdOf, xs, ys, f.ricRequestId);
    KindReadOnce(RanFunctionOf, 2, xs);
    LastPermutes(RanFunctionOf, xs, ys, f.ranFunctionId);
    KindReadOnce(CallProcessOf, 3, xs);
    LastPermutes(CallProcessOf, xs, ys, f.ricCallProcessId);
    KindReadOnce(HeaderReader(decodeHeader), 4, xs);
    LastPermutes(HeaderReader(decodeHeader), xs, ys, f.headerFormat1);
    KindReadOnce(BodyReader(decodeBody), 5, xs);
    LastPermutes(BodyReader(decodeBody), xs, ys, f.messageFormat1);
  }
}
