/** The identity encoders and decoders, expression by expression as C evaluates them, and the proof that each
    one computes the common layout of IdentityPacking. An encoder fills a fresh buffer in place; a decoder
    reads the buffer's contents. */
module IdentityCodecs {
  import opened Words
  import opened IdentityPacking

  datatype BitString = BitString(buf: array<octet>, bitsUnused: nat)

  // ---------- encoders ----------
  // Only the low octet of a shifted value is stored, so the width in which C shifts it does not matter.

  method AmfRegionIdToBitString(src: nat) returns (dst: BitString)
    requires src < 64
    ensures fresh(dst.buf) && dst.bitsUnused == 0
    ensures dst.buf[..] == Pack(src, 1, 0)
  {
    var buf := new octet[1](_ => 0);
    buf[0] := ToU8(src);
    dst := BitString(buf, 0);
  }

  method AmfPtrToBitString(src: nat) returns (dst: BitString)
    requires src < 64
    ensures fresh(dst.buf) && dst.bitsUnused == 2
    ensures dst.buf[..] == Pack(src, 1, 2)
  {
    var buf := new octet[1](_ => 0);
    ShiftThenNarrow(src, 2);
    buf[0] := ToU8(ShlInt(src, 2));
    dst := BitString(buf, 2);
  }

  method AmfSetIdToBitString(val: nat) returns (dst: BitString)
    requires val < 1024
    ensures fresh(dst.buf) && dst.bitsUnused == 6
    ensures dst.buf[..] == Pack(val, 2, 6)
  {
    var buf := new octet[2](_ => 0);
    buf[0] := ToU8(val);
    buf[1] := ToU8(ShlInt(Shr(val, 8), 6));
    dst := BitString(buf, 6);
    PackTwo(val, 6);
  }

  method NrCellIdToBitString(val: nat) returns (dst: BitString)
    requires val < 0x10_0000_0000
    ensures fresh(dst.buf) && dst.bitsUnused == 4
    ensures dst.buf[..] == Pack(val, 5, 4)
  {
    var buf := new octet[5](_ => 0);
    buf[0] := ToU8(val);
    buf[1] := ToU8(Shr(val, 8));
    buf[2] := ToU8(Shr(val, 16));
    buf[3] := ToU8(Shr(val, 24));
    buf[4] := ToU8(ShlU64(Shr(val, 32), 4));
    dst := BitString(buf, 4);
    PackFive(val, 4);
  }

  // The 32-bit macro gNB identity (unused 0) and the 28-bit E-UTRA cell and home eNB identities (unused 4).
  method FourOctetIdToBitString(val: nat, unused: nat) returns (dst: BitString)
    requires unused < 8 && val < Pow2(32 - unused)
    ensures fresh(dst.buf) && dst.bitsUnused == unused
    ensures dst.buf[..] == Pack(val, 4, unused)
  {
    var buf := new octet[4](_ => 0);
    buf[0] := ToU8(val);
    buf[1] := ToU8(Shr(val, 8));
    buf[2] := ToU8(Shr(val, 16));
    buf[3] := ToU8(ShlInt(Shr(val, 24), unused));
    dst := BitString(buf, unused);
    PackFour(val, unused);
  }

  // The macro (unused 4), short macro (unused 6) and long macro (unused 3) identities of eNB and ng-eNB.
  method ThreeOctetIdToBitString(val: nat, unused: nat) returns (dst: BitString)
    requires unused < 8 && val < Pow2(24 - unused)
    ensures fresh(dst.buf) && dst.bitsUnused == unused
    ensures dst.buf[..] == Pack(val, 3, unused)
  {
    var buf := new octet[3](_ => 0);
    buf[0] := ToU8(val);
    buf[1] := ToU8(Shr(val, 8));
    buf[2] := ToU8(ShlInt(Shr(val, 16), unused));
    dst := BitString(buf, unused);
    PackThree(val, unused);
  }

  // The layout, octet by octet, as the encoders compute it.
  lemma PackTwo(val: nat, unused: nat)
    ensures Pack(val, 2, unused) == [ToU8(val), ToU8(ShlInt(Shr(val, 8), unused))]
  {
    PackOctets(val, 2, unused);
    ShiftThenNarrow(Shr(val, 8), unused);
  }

  lemma PackThree(val: nat, unused: nat)
    ensures Pack(val, 3, unused) == [ToU8(val), ToU8(Shr(val, 8)), ToU8(ShlInt(Shr(val, 16), unused))]
  {
    PackOctets(val, 3, unused);
    ShiftThenNarrow(Shr(val, 16), unused);
  }

  lemma PackFour(val: nat, unused: nat)
    ensures Pack(val, 4, unused)
         == [ToU8(val), ToU8(Shr(val, 8)), ToU8(Shr(val, 16)), ToU8(ShlInt(Shr(val, 24), unused))]
  {
    PackOctets(val, 4, unused);
    ShiftThenNarrow(Shr(val, 24), unused);
  }

  lemma PackFive(val: nat, unused: nat)
    ensures Pack(val, 5, unused)
         == [ToU8(val), ToU8(Shr(val, 8)), ToU8(Shr(val, 16)), ToU8(Shr(val, 24)), ToU8(ShlU64(Shr(val, 32), unused))]
  {
    PackOctets(val, 5, unused);
    ShiftThenNarrow(Shr(val, 32), unused);
  }

  lemma PackOctets(val: nat, size: nat, unused: nat)
    requires 2 <= size <= 5
    ensures Pack(val, size, unused)[0] == ToU8(val)
    ensures size > 2 ==> Pack(val, size, unused)[1] == ToU8(Shr(val, 8))
    ensures size > 3 ==> Pack(val, size, unused)[2] == ToU8(Shr(val, 16))
    ensures size > 4 ==> Pack(val, size, unused)[3] == ToU8(Shr(val, 24))
    ensures Pack(val, size, unused)[size - 1] == ShiftedOctet(Shr(val, 8 * (size - 1)), unused)
  {
    if size > 2 {
      PackOctet(val, size, unused, 1);
    }
    if size > 3 {
      PackOctet(val, size, unused, 2);
    }
    if size > 4 {
      PackOctet(val, size, unused, 3);
    }
    PackOctet(val, size, unused, size - 1);
  }

  // ---------- decoders ----------

  function AmfRegionIdToU8(src: seq<octet>): octet
    requires |src| == 1
  {
    src[0]
  }

  function AmfPtrToU8(src: seq<octet>): octet
    requires |src| == 1
  {
    ToU8(Shr(src[0], 2))
  }

  function AmfSetIdToU16(src: seq<octet>): nat
    requires |src| == 2
  {
    var dst := ToU16(ShlInt(Shr(src[1], 6), 8));
    ToU16(OrInt(dst, src[0]))
  }

  function NrCellIdToU64(src: seq<octet>): nat
    requires |src| == 5
  {
    var dst := ToU64(Shr(src[4], 4));
    OrU64(OrU64(OrU64(OrU64(ShlU64(dst, 32), ShlInt(src[3], 24)), ShlInt(src[2], 16)), ShlInt(src[1], 8)), src[0])
  }

  function MacroGnbIdToU32(src: seq<octet>): nat
    requires |src| == 4
  {
    var dst := OrInt(OrInt(OrInt(ShlInt(src[3], 24), ShlInt(src[2], 16)), ShlInt(src[1], 8)), src[0]);
    ToU32(ToU64(dst))
  }

  function FourOctetIdToU32(src: seq<octet>, unused: nat): nat
    requires |src| == 4
  {
    var dst := ToU64(Shr(src[3], unused));
    ToU32(OrU64(OrU64(OrU64(ShlU64(dst, 24), ShlInt(src[2], 16)), ShlInt(src[1], 8)), src[0]))
  }

  function ThreeOctetIdToU32(src: seq<octet>, unused: nat): nat
    requires |src| == 3
  {
    var dst := ToU64(Shr(src[2], unused));
    ToU32(OrU64(OrU64(ShlU64(dst, 16), ShlInt(src[1], 8)), src[0]))
  }

  // ---------- each decoder against the common layout ----------

  // `q << k | low` with room for the low field is addition, in 64 bits and in 32.
  lemma JoinU64(q: nat, low: nat, k: nat)
    requires low < Pow2(k) && q * Pow2(k) + low < TWO64
    ensures OrU64(q * Pow2(k), low) == q * Pow2(k) + low
  {
    var x := Times(q, Pow2(k));
    SmallWord(x);
    SmallWord(low);
    OrDisjoint(q, low, k);
  }

  lemma JoinWord(x: int, q: nat, low: nat, k: nat)
    requires ToU32(x) == q * Pow2(k) && low < Pow2(k) && q * Pow2(k) + low < TWO32
    ensures ToU32(OrInt(x, low)) == q * Pow2(k) + low
  {
    var y := Times(q, Pow2(k));
    SmallWord(low);
    SmallWord(y + low);
    OrDisjoint(q, low, k);
    WordOfInt(y + low);
  }

  lemma WordOfInt(y: nat)
    requires y < TWO32
    ensures ToU32(ToI32(y)) == y
  {
  }

  lemma UnpackTwo(b: seq<octet>, unused: nat)
    requires |b| == 2
    ensures Unpack(b, unused) == b[0] + 256 * Shr(b[1], unused)
  {
    assert b[1..] == [b[1]];
  }

  lemma UnpackThree(b: seq<octet>, unused: nat)
    requires |b| == 3
    ensures Unpack(b, unused) == b[0] + 0x100 * b[1] + 0x1_0000 * Shr(b[2], unused)
  {
    UnpackTwo(b[1..], unused);
  }

  lemma UnpackFour(b: seq<octet>, unused: nat)
    requires |b| == 4
    ensures Unpack(b, unused) == b[0] + 0x100 * b[1] + 0x1_0000 * b[2] + 0x100_0000 * Shr(b[3], unused)
  {
    UnpackThree(b[1..], unused);
  }

  lemma UnpackFive(b: seq<octet>, unused: nat)
    requires |b| == 5
    ensures Unpack(b, unused)
         == b[0] + 0x100 * b[1] + 0x1_0000 * b[2] + 0x100_0000 * b[3] + 0x1_0000_0000 * Shr(b[4], unused)
  {
    UnpackFour(b[1..], unused);
  }

  lemma AmfRegionIdDecodes(b: seq<octet>)
    requires |b| == 1
    ensures AmfRegionIdToU8(b) == Unpack(b, 0)
  {
    assert b[0] / 1 == b[0];
  }

  lemma AmfPtrDecodes(b: seq<octet>)
    requires |b| == 1
    ensures AmfPtrToU8(b) == Unpack(b, 2)
  {
  }

  lemma AmfSetIdDecodes(b: seq<octet>)
    requires |b| == 2
    ensures AmfSetIdToU16(b) == Unpack(b, 6)
  {
    Pow2Values();
    UnpackTwo(b, 6);
    TwoOctets(Shr(b[1], 6), b[0]);
  }

  lemma TwoOctets(hi: nat, low: nat)
    requires hi < 4 && low < 256
    ensures ToU16(OrInt(ToU16(ShlInt(hi, 8)), low)) == hi * 0x100 + low
  {
    ShlOctet(hi);
    SmallWord(hi * 0x100);
    JoinInt(hi, low);
    SmallWord(hi * 0x100 + low);
  }

  lemma SmallInt(x: nat)
    requires x < 0x8000_0000
    ensures ToI32(x) == x
  {
  }

  lemma OrByte(hi: nat, low: nat)
    requires low < 256
    ensures Bitop(Or, hi * 0x100, low) == hi * 0x100 + low
  {
    Pow2Values();
    OrDisjoint(hi, low, 8);
  }

  lemma JoinInt(hi: nat, low: nat)
    requires hi < 4 && low < 256
    ensures OrInt(hi * 0x100, low) == hi * 0x100 + low
  {
    var x := hi * 0x100;
    SmallWord(x);
    SmallWord(low);
    OrByte(hi, low);
    SmallInt(x + low);
  }

  // The octet-sized fields of the 64-bit decoders: q is what lies above, b the octet being joined.
  lemma JoinOctets(q: nat, b: nat)
    requires q < 0x100_0000_0000 && b < 256
    ensures OrU64(q * 0x100_0000, ShlInt(b, 16)) == (q * 0x100 + b) * 0x1_0000
  {
    Pow2Values();
    ShlOctet(b);
    JoinU64(q, b * 0x1_0000, 24);
  }

  lemma JoinOctets8(q: nat, b: nat)
    requires q < 0x1_0000_0000_0000 && b < 256
    ensures OrU64(q * 0x1_0000, ShlInt(b, 8)) == (q * 0x100 + b) * 0x100
  {
    Pow2Values();
    ShlOctet(b);
    JoinU64(q, b * 0x100, 16);
  }

  lemma JoinOctets0(q: nat, b: nat)
    requires q < 0x100_0000_0000_0000 && b < 256
    ensures OrU64(q * 0x100, b) == q * 0x100 + b
  {
    Pow2Values();
    JoinU64(q, b, 8);
  }

  lemma ShlOctet(b: nat)
    requires b < 256
    ensures ShlInt(b, 8) == b * 0x100 && ShlInt(b, 16) == b * 0x1_0000
    ensures ToU32(ShlInt(b, 24)) == b * 0x100_0000
    ensures b < 128 ==> ShlInt(b, 24) == b * 0x100_0000
    ensures b >= 128 ==> ShlInt(b, 24) == b * 0x100_0000 - TWO32
  {
    Pow2Values();
    WordOfInt(b * 0x100_0000);
  }

  // The shared tail of the 64-bit decoders: octets 2, 1 and 0 joined below a word whose low 24 bits are clear.
  lemma JoinLowOctets(q: nat, b2: nat, b1: nat, b0: nat)
    requires q < 0x100_0000_0000 && b2 < 256 && b1 < 256 && b0 < 256
    ensures OrU64(OrU64(OrU64(q * 0x100_0000, ShlInt(b2, 16)), ShlInt(b1, 8)), b0)
         == q * 0x100_0000 + b2 * 0x1_0000 + b1 * 0x100 + b0
  {
    JoinOctets(q, b2);
    JoinOctets8(q * 0x100 + b2, b1);
    JoinOctets0(q * 0x1_0000 + b2 * 0x100 + b1, b0);
  }

  lemma ShlClear(x: nat)
    requires x < 0x1_0000_0000
    ensures ShlU64(x, 16) == x * 0x1_0000 && ShlU64(x, 24) == x * 0x100_0000 && ShlU64(x, 32) == x * TWO32
    ensures ToU64(x) == x
  {
    Pow2Values();
    SmallWord(x * 0x1_0000);
    SmallWord(x * 0x100_0000);
    SmallWord(x * TWO32);
  }

  lemma ThreeOctetIdDecodes(b: seq<octet>, unused: nat)
    requires |b| == 3
    ensures ThreeOctetIdToU32(b, unused) == Unpack(b, unused)
  {
    UnpackThree(b, unused);
    var hi, b1: nat, b0: nat := Shr(b[2], unused), b[1], b[0];
    ShlClear(hi);
    JoinOctets8(hi, b1);
    JoinOctets0(hi * 0x100 + b1, b0);
    SmallWord(hi * 0x1_0000 + b1 * 0x100 + b0);
  }

  lemma FourOctetIdDecodes(b: seq<octet>, unused: nat)
    requires |b| == 4
    ensures FourOctetIdToU32(b, unused) == Unpack(b, unused)
  {
    FourOctets(Shr(b[3], unused), b[2], b[1], b[0]);
    UnpackFour(b, unused);
  }

  lemma FourOctetValue(b3: nat, b2: nat, b1: nat, b0: nat)
    requires b3 < 256 && b2 < 256 && b1 < 256 && b0 < 256
    ensures ToU32(b3 * 0x100_0000 + b2 * 0x1_0000 + b1 * 0x100 + b0)
         == b3 * 0x100_0000 + b2 * 0x1_0000 + b1 * 0x100 + b0
  {
  }

  lemma FourOctets(hi: nat, b2: nat, b1: nat, b0: nat)
    requires hi < 256 && b2 < 256 && b1 < 256 && b0 < 256
    ensures ToU32(OrU64(OrU64(OrU64(ShlU64(ToU64(hi), 24), ShlInt(b2, 16)), ShlInt(b1, 8)), b0))
         == hi * 0x100_0000 + b2 * 0x1_0000 + b1 * 0x100 + b0
  {
    hide OrU64, ShlInt;
    ShlClear(hi);
    JoinLowOctets(hi, b2, b1, b0);
    FourOctetValue(hi, b2, b1, b0);
  }

  // The shifted top octet may go negative as an int; the final narrowing to 32 bits undoes that.
  lemma MacroGnbIdDecodes(b: seq<octet>)
    requires |b| == 4
    ensures MacroGnbIdToU32(b) == Unpack(b, 0)
  {
    UnpackFour(b, 0);
    assert b[3] / Pow2(0) == b[3];
    WordOctets(b[3], b[2], b[1], b[0]);
    WordOfWord(OrInt(OrInt(OrInt(ShlInt(b[3], 24), ShlInt(b[2], 16)), ShlInt(b[1], 8)), b[0]));
  }

  lemma WordOctets(b3: nat, b2: nat, b1: nat, b0: nat)
    requires b3 < 256 && b2 < 256 && b1 < 256 && b0 < 256
    ensures ToU32(OrInt(OrInt(OrInt(ShlInt(b3, 24), ShlInt(b2, 16)), ShlInt(b1, 8)), b0))
         == b3 * 0x100_0000 + b2 * 0x1_0000 + b1 * 0x100 + b0
  {
    Pow2Values();
    ShlOctet(b3);
    ShlOctet(b2);
    ShlOctet(b1);
    var x := ShlInt(b3, 24);
    JoinWord(x, b3, b2 * 0x1_0000, 24);
    var y := OrInt(x, b2 * 0x1_0000);
    JoinWord(y, b3 * 0x100 + b2, b1 * 0x100, 16);
    JoinWord(OrInt(y, b1 * 0x100), b3 * 0x1_0000 + b2 * 0x100 + b1, b0, 8);
  }

  lemma WordOfWord(x: int)
    ensures ToU32(ToU64(x)) == ToU32(x)
  {
    ModOfMod(x, TWO32, TWO32);
  }

  // Octet 3 is promoted to a signed int before its shift by 24: with its top bit set the shifted value is
  // negative, and sign extension on the `|` with the 64-bit word overwrites everything above bit 31.
  lemma NrCellIdUpperWord(hi: nat, b3: nat)
    requires hi < 16 && b3 < 256
    ensures OrU64(ShlU64(hi, 32), ShlInt(b3, 24)) == (if b3 < 128 then hi else TWO32 - 1) * TWO32 + b3 * 0x100_0000
  {
    hide OrU64, ShlInt, ShlU64;
    Pow2Values();
    ShlClear(hi);
    ShlOctet(b3);
    if b3 < 128 {
      JoinU64(hi, b3 * 0x100_0000, 32);
    } else {
      SignExtended(hi, b3 * 0x100_0000);
    }
  }

  lemma ExtendSign(low: nat)
    requires low < TWO32
    ensures ToU64(low - TWO32) == (TWO32 - 1) * TWO32 + low
  {
  }

  lemma SignExtended(hi: nat, low: nat)
    requires hi < 16 && 0x8000_0000 <= low < TWO32
    ensures OrU64(hi * TWO32, low - TWO32) == (TWO32 - 1) * TWO32 + low
  {
    ExtendSign(low);
    SmallWord(hi * TWO32);
    OrUpperOnes(hi, low);
  }

  lemma OrUpperOnes(hi: nat, low: nat)
    requires hi < 16 && low < TWO32
    ensures Bitop(Or, hi * TWO32, (TWO32 - 1) * TWO32 + low) == (TWO32 - 1) * TWO32 + low
  {
    hide Bitop;
    Pow2Values();
    BitopSplit(Or, hi, 0, TWO32 - 1, low, 32);
    OrAllOnes(hi, 32);
    OrZero(low);
  }

  lemma FiveOctets(hi: nat, b3: nat, b2: nat, b1: nat, b0: nat)
    requires hi < 16 && b3 < 256 && b2 < 256 && b1 < 256 && b0 < 256
    ensures OrU64(OrU64(OrU64(OrU64(ShlU64(ToU64(hi), 32), ShlInt(b3, 24)), ShlInt(b2, 16)), ShlInt(b1, 8)), b0)
         == (if b3 < 128 then hi else TWO32 - 1) * TWO32 + (b3 * 0x100_0000 + b2 * 0x1_0000 + b1 * 0x100 + b0)
  {
    hide OrU64, ShlInt;
    SmallWord(hi);
    NrCellIdUpperWord(hi, b3);
    JoinLowOctets((if b3 < 128 then hi else TWO32 - 1) * 0x100 + b3, b2, b1, b0);
  }

  // The four octets below the last, as a 32-bit number.
  function LowWordOf(b: seq<octet>): (r: nat)
    requires |b| == 5
    ensures r < TWO32
  {
    var b3: nat, b2: nat, b1: nat, b0: nat := b[3], b[2], b[1], b[0];
    b3 * 0x100_0000 + b2 * 0x1_0000 + b1 * 0x100 + b0
  }

  lemma NrCellIdOctets(b: seq<octet>)
    requires |b| == 5
    ensures NrCellIdToU64(b) == (if b[3] < 128 then b[4] / 16 else TWO32 - 1) * TWO32 + LowWordOf(b)
  {
    Pow2Values();
    FiveOctets(b[4] / 16, b[3], b[2], b[1], b[0]);
  }

  lemma NrCellIdUnpacked(b: seq<octet>)
    requires |b| == 5
    ensures Unpack(b, 4) == (b[4] / 16) * TWO32 + LowWordOf(b)
    ensures Unpack(b, 4) % TWO32 == LowWordOf(b)
  {
    Pow2Values();
    UnpackFive(b, 4);
    LowAndHigh(b[4] / 16, LowWordOf(b));
  }

  lemma NrCellIdDecodes(b: seq<octet>)
    requires |b| == 5
    ensures NrCellIdToU64(b) == if b[3] < 128 then Unpack(b, 4) else 0xFFFF_FFFF_0000_0000 + Unpack(b, 4) % TWO32
  {
    NrCellIdOctets(b);
    NrCellIdUnpacked(b);
  }

  lemma LowAndHigh(hi: nat, low: nat)
    requires low < TWO32
    ensures (hi * TWO32 + low) % TWO32 == low
  {
  }

  // ---------- round trips ----------

  lemma AmfRoundTrips(region: nat, ptr: nat, setId: nat)
    requires region < 64 && ptr < 64 && setId < 1024
    ensures AmfRegionIdToU8(Pack(region, 1, 0)) == region
    ensures AmfPtrToU8(Pack(ptr, 1, 2)) == ptr
    ensures AmfSetIdToU16(Pack(setId, 2, 6)) == setId
  {
    Pow2Values();
    Pow2Add(8, 2);
    AmfRegionIdDecodes(Pack(region, 1, 0));
    PackRoundTrip(region, 1, 0);
    AmfPtrDecodes(Pack(ptr, 1, 2));
    PackRoundTrip(ptr, 1, 2);
    AmfSetIdDecodes(Pack(setId, 2, 6));
    PackRoundTrip(setId, 2, 6);
  }

  lemma ThreeOctetIdRoundTrip(val: nat, unused: nat)
    requires unused < 8 && val < Pow2(24 - unused)
    ensures ThreeOctetIdToU32(Pack(val, 3, unused), unused) == val
  {
    ThreeOctetIdDecodes(Pack(val, 3, unused), unused);
    PackRoundTrip(val, 3, unused);
  }

  lemma FourOctetIdRoundTrip(val: nat, unused: nat)
    requires unused < 8 && val < Pow2(32 - unused)
    ensures FourOctetIdToU32(Pack(val, 4, unused), unused) == val
  {
    FourOctetIdDecodes(Pack(val, 4, unused), unused);
    PackRoundTrip(val, 4, unused);
  }

  lemma MacroGnbIdRoundTrip(val: nat)
    requires val < TWO32
    ensures MacroGnbIdToU32(Pack(val, 4, 0)) == val
  {
    Pow2Values();
    MacroGnbIdDecodes(Pack(val, 4, 0));
    PackRoundTrip(val, 4, 0);
  }

  predicate Bit31(val: nat) { (val / 0x8000_0000) % 2 == 1 }

  // The NR cell identity survives exactly when bit 31 is clear; otherwise the upper word comes back all ones.
  lemma NrCellIdRoundTrip(val: nat)
    requires val < 0x10_0000_0000
    ensures NrCellIdToU64(Pack(val, 5, 4)) == val <==> !Bit31(val)
    ensures Bit31(val) ==> NrCellIdToU64(Pack(val, 5, 4)) / TWO32 == 0xFFFF_FFFF
    ensures NrCellIdToU64(Pack(val, 5, 4)) % TWO32 == val % TWO32
  {
    Pow2Values();
    Pow2Add(32, 4);
    var b := Pack(val, 5, 4);
    PackRoundTrip(val, 5, 4);
    PackOctet(val, 5, 4, 3);
    NrCellIdDecodes(b);
    Bit31OfOctet(val);
    LowWord(Unpack(b, 4));
  }

  // The least identity that is damaged, and what comes back.
  lemma NrCellIdDamaged()
    ensures NrCellIdToU64(Pack(0x8000_0000, 5, 4)) == 0xFFFF_FFFF_8000_0000
  {
    hide NrCellIdToU64, Pack;
    NrCellIdRoundTrip(0x8000_0000);
    var r := NrCellIdToU64(Pack(0x8000_0000, 5, 4));
    assert r == TWO32 * (r / TWO32) + r % TWO32;
  }

  lemma Bit31OfOctet(val: nat)
    ensures (val / 0x100_0000) % 256 < 128 <==> !Bit31(val)
  {
    var q := val / 0x100_0000;
    assert val / 0x8000_0000 == q / 128;
  }

  lemma LowWord(x: nat)
    ensures (0xFFFF_FFFF_0000_0000 + x % TWO32) % TWO32 == x % TWO32
    ensures (0xFFFF_FFFF_0000_0000 + x % TWO32) / TWO32 == 0xFFFF_FFFF
  {
  }
}
