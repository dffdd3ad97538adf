/** The gNB UE identity: AMF UE id, GUAMI and hashed RAN UE id. The draws of rand() are parameters. */
module UeIdentity {
  import opened Words
  import opened OctetStrings
  import opened IdentityCodecs
  import opened UeIdHash
  import PlmnCodec

  function Zeros(n: nat): (bs: seq<octet>)
    ensures |bs| == n
  {
    if n == 0 then [] else [0] + Zeros(n - 1)
  }

  function Int64ToOctetString(x: nat): seq<octet> { LittleEndian(x, 8) }

  // memcpy of the string over the low octets of a zeroed 64-bit variable.
  function OctetStringToInt64(asn: seq<octet>): nat
    requires |asn| <= 8
  {
    LittleEndianValue(asn + Zeros(8 - |asn|))
  }

  lemma {:induction false} ZeroPadding(bs: seq<octet>, n: nat)
    ensures LittleEndianValue(bs + Zeros(n)) == LittleEndianValue(bs)
  {
    if bs != [] {
      assert (bs + Zeros(n))[1..] == bs[1..] + Zeros(n);
      ZeroPadding(bs[1..], n);
    } else if n > 0 {
      assert bs + Zeros(n) == [0] + Zeros(n - 1);
      assert ([0] + Zeros(n - 1))[1..] == bs + Zeros(n - 1);
      ZeroPadding(bs, n - 1);
    } else {
      assert bs + Zeros(0) == [];
    }
  }

  lemma Int64RoundTrips(x: nat, id: seq<octet>)
    requires x < TWO64 && |id| <= 8
    ensures OctetStringToInt64(Int64ToOctetString(x)) == x
    ensures OctetStringToInt64(id) == LittleEndianValue(id)
    ensures Int64ToOctetString(OctetStringToInt64(id)) == id + Zeros(8 - |id|)
  {
    hide LittleEndianValue, LittleEndian, Zeros;
    Pow2Values();
    var bs := Int64ToOctetString(x);
    ZeroPadding(bs, 0);
    LittleEndianRoundTrip(x, 8);
    SmallWord(x);
    ZeroPadding(id, 8 - |id|);
    LittleEndianOfValue(id + Zeros(8 - |id|));
  }

  datatype UeIdGnb = UeIdGnb(amfUeNgapId: nat, amfPointer: BitString, amfSetId: BitString, amfRegionId: BitString,
                             plmnIdentity: array<octet>, ranUeId: array<octet>)

  method FillUeId(id: seq<octet>, ptrDraw: nat, setDraw: nat, regionDraw: nat, mccDraw: nat, mncDraw: nat)
    returns (ue: UeIdGnb)
    requires |id| <= 8
    ensures ue.amfUeNgapId == LittleEndianValue(id)
    ensures ue.amfPointer.buf.Length == 1 && AmfPtrToU8(ue.amfPointer.buf[..]) == ptrDraw % 64
    ensures ue.amfSetId.buf.Length == 2 && AmfSetIdToU16(ue.amfSetId.buf[..]) == setDraw % 1024
    ensures ue.amfRegionId.buf.Length == 1 && AmfRegionIdToU8(ue.amfRegionId.buf[..]) == regionDraw % 64
    ensures ue.amfPointer.bitsUnused == 2 && ue.amfSetId.bitsUnused == 6 && ue.amfRegionId.bitsUnused == 0
    ensures ue.plmnIdentity.Length == 3
    ensures PlmnCodec.Decode(ue.plmnIdentity[..]) == PlmnCodec.Plmn(mccDraw % 505, mncDraw % 99, 2)
    ensures ue.ranUeId[..] == RanUeId(id)
  {
    Int64RoundTrips(0, id);
    var amfId := OctetStringToInt64(id);
    var ptr := AmfPtrToBitString(ptrDraw % 64);
    var setId := AmfSetIdToBitString(setDraw % 1024);
    var region := AmfRegionIdToBitString(regionDraw % 64);
    AmfRoundTrips(regionDraw % 64, ptrDraw % 64, setDraw % 1024);
    var plmn := PlmnCodec.ToOctetString(mccDraw % 505, mncDraw % 99, 2);
    PlmnCodec.PlmnRoundTrip(PlmnCodec.Plmn(mccDraw % 505, mncDraw % 99, 2));
    var ran := new octet[8](_ => 0);
    OsToRanUeId8Bytes(id, ran);
    ue := UeIdGnb(amfId, ptr, setId, region, plmn, ran);
  }
}
