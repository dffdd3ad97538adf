/** The macros that write integers and identities most significant octet first. */
module MsbCodecs {
  import opened Words
  import opened OctetStrings
  import opened IdentityCodecs

  // The layout of all of them: the value, shifted past the unused bits, in network octet order.
  function PackMsb(v: nat, size: nat, unused: nat): seq<octet> { BigEndian(Times(v, Pow2(unused)), size) }

  function UnpackMsb(bs: seq<octet>, unused: nat): nat { Shr(BigEndianValue(bs), unused) }

  lemma PackMsbRoundTrip(v: nat, size: nat, unused: nat)
    requires unused <= 8 * size && v < Pow2(8 * size - unused)
    ensures UnpackMsb(PackMsb(v, size, unused), unused) == v
  {
    var p, c := Pow2(unused), Pow2(8 * size - unused);
    Pow2Add(8 * size - unused, unused);
    BigEndianRoundTrip(Times(v, p), size);
    ScaledBelow(v, c, p);
    DivModUnique(v * p, c * p, 0, v * p);
    DivModUnique(v * p, p, v, 0);
  }

  lemma ScaledBelow(v: nat, c: nat, p: nat)
    requires v < c && p > 0
    ensures 0 <= v * p < c * p
  {
    MulAtLeast(p, c - v);
    MulNat(v, p);
  }

  // Conversely, octets whose unused low bits are clear are restored from the value they hold.
  lemma UnpackMsbRoundTrip(bs: seq<octet>, unused: nat)
    requires BigEndianValue(bs) % Pow2(unused) == 0
    ensures PackMsb(UnpackMsb(bs, unused), |bs|, unused) == bs
  {
    hide BigEndian, BigEndianValue, Pow2;
    var v, p := BigEndianValue(bs), Pow2(unused);
    assert v == p * (v / p);
    BigEndianOfValue(bs);
  }

  // ---------- INT16, INT24, INT32 ----------

  method Int16ToBuffer(x: nat, buf: array<octet>)
    requires buf.Length >= 2
    modifies buf
    ensures buf[..] == BigEndian(x, 2) + old(buf[2..])
  {
    BigEndianOctets(x);
    buf[0] := ToU8(Shr(x, 8));
    buf[1] := ToU8(x);
  }

  method Int24ToBuffer(x: nat, buf: array<octet>)
    requires buf.Length >= 3
    modifies buf
    ensures buf[..] == BigEndian(x, 3) + old(buf[3..])
  {
    BigEndianOctets(x);
    buf[0] := ToU8(Shr(x, 16));
    buf[1] := ToU8(Shr(x, 8));
    buf[2] := ToU8(x);
  }

  method Int32ToBuffer(x: nat, buf: array<octet>)
    requires buf.Length >= 4
    modifies buf
    ensures buf[..] == BigEndian(x, 4) + old(buf[4..])
  {
    BigEndianOctets(x);
    buf[0] := ToU8(Shr(x, 24));
    buf[1] := ToU8(Shr(x, 16));
    buf[2] := ToU8(Shr(x, 8));
    buf[3] := ToU8(x);
  }

  lemma BigEndianOctets(x: nat)
    ensures BigEndian(x, 2) == [ToU8(Shr(x, 8)), ToU8(x)]
    ensures BigEndian(x, 3) == [ToU8(Shr(x, 16)), ToU8(Shr(x, 8)), ToU8(x)]
    ensures BigEndian(x, 4) == [ToU8(Shr(x, 24)), ToU8(Shr(x, 16)), ToU8(Shr(x, 8)), ToU8(x)]
  {
    Pow2Values();
    OctetAt(x, 2, 1);
    OctetAt(x, 3, 1);
    OctetAt(x, 3, 2);
    OctetAt(x, 4, 1);
    OctetAt(x, 4, 2);
    OctetAt(x, 4, 3);
  }

  // The right-hand sides of the BUFFER_TO macros, read into an unsigned variable of 32 bits.
  function BufferToInt16(b: seq<octet>): nat
    requires |b| >= 2
  {
    ToU32(OrInt(ShlInt(b[0], 8), b[1]))
  }

  function BufferToInt24(b: seq<octet>): nat
    requires |b| >= 3
  {
    ToU32(OrInt(OrInt(ShlInt(b[0], 16), ShlInt(b[1], 8)), b[2]))
  }

  function BufferToInt32(b: seq<octet>): nat
    requires |b| >= 4
  {
    ToU32(OrInt(OrInt(OrInt(ShlInt(b[0], 24), ShlInt(b[1], 16)), ShlInt(b[2], 8)), b[3]))
  }

  // ---------- macro gNB and macro eNB ----------

  method MacroGnbIdToBitString(macro: nat) returns (dst: BitString)
    requires macro < 0x1000_0000
    ensures fresh(dst.buf) && dst.bitsUnused == 0
    ensures dst.buf[..] == PackMsb(macro, 4, 4)
  {
    var buf := new octet[4](_ => 0);
    MsbFour(macro);
    buf[0] := ToU8(Shr(macro, 20));
    buf[1] := ToU8(Shr(macro, 12));
    buf[2] := ToU8(Shr(macro, 4));
    buf[3] := ToU8(ShlInt(Bitop(And, macro, 0x0F), 4));
    dst := BitString(buf, 0);
  }

  method MacroEnbIdToBitString(macro: nat) returns (dst: BitString)
    requires macro < 0x10_0000
    ensures fresh(dst.buf) && dst.bitsUnused == 4
    ensures dst.buf[..] == PackMsb(macro, 3, 4)
  {
    var buf := new octet[3](_ => 0);
    MsbThree(macro);
    buf[0] := ToU8(Shr(macro, 12));
    buf[1] := ToU8(Shr(macro, 4));
    buf[2] := ToU8(ShlInt(Bitop(And, macro, 0x0F), 4));
    dst := BitString(buf, 4);
  }

  lemma MsbFour(v: nat)
    ensures PackMsb(v, 4, 4)
         == [ToU8(Shr(v, 20)), ToU8(Shr(v, 12)), ToU8(Shr(v, 4)), ToU8(ShlInt(Bitop(And, v, 0x0F), 4))]
  {
    BigEndianOctets(Times(v, 16));
    Pow2Values();
    ShiftedByNibble(v);
    LowNibble(v);
  }

  lemma MsbThree(v: nat)
    ensures PackMsb(v, 3, 4) == [ToU8(Shr(v, 12)), ToU8(Shr(v, 4)), ToU8(ShlInt(Bitop(And, v, 0x0F), 4))]
  {
    BigEndianOctets(Times(v, 16));
    Pow2Values();
    ShiftedByNibble(v);
    LowNibble(v);
  }

  lemma ShiftedByNibble(v: nat)
    ensures Shr(v * 16, 24) == Shr(v, 20) && Shr(v * 16, 16) == Shr(v, 12) && Shr(v * 16, 8) == Shr(v, 4)
  {
    Pow2Values();
  }

  lemma LowNibble(v: nat)
    ensures ToU8(ShlInt(Bitop(And, v, 0x0F), 4)) == ToU8(v * 16)
  {
    hide Bitop, ShlInt;
    Pow2Values();
    AndLowMask(v, 4);
    ShlNibble(v % 16);
    DivModUnique(v * 16, 256, v / 16, (v % 16) * 16);
  }

  lemma ShlNibble(x: nat)
    requires x < 0x100_0000
    ensures ShlInt(x, 4) == x * 16
  {
    Pow2Values();
    SmallInt(x * 16);
  }

  function BitStringToMacroGnbId(b: seq<octet>): int
    requires |b| == 4
  {
    OrInt(OrInt(OrInt(ShlInt(b[0], 20), ShlInt(b[1], 12)), ShlInt(b[2], 4)), Shr(b[3], 4))
  }

  function BitStringToMacroEnbId(b: seq<octet>): int
    requires |b| == 3
  {
    OrInt(OrInt(ShlInt(b[0], 12), ShlInt(b[1], 4)), Shr(b[2], 4))
  }

  // ---------- the decoders against the layout ----------

  function Two(b0: nat, b1: nat): nat { 0x100 * b0 + b1 }

  function Three(b0: nat, b1: nat, b2: nat): nat { 0x1_0000 * b0 + Two(b1, b2) }

  function Four(b0: nat, b1: nat, b2: nat, b3: nat): nat { 0x100_0000 * b0 + Three(b1, b2, b3) }

  lemma MsbValueTwo(b: seq<octet>)
    requires |b| == 2
    ensures BigEndianValue(b) == Two(b[0], b[1])
  {
    Pow2Values();
    BigEndianValueStep(b);
    BigEndianValueStep(b[1..]);
    assert b[1..][1..] == [];
  }

  lemma MsbValueThree(b: seq<octet>)
    requires |b| == 3
    ensures BigEndianValue(b) == Three(b[0], b[1], b[2])
  {
    Pow2Values();
    BigEndianValueStep(b);
    MsbValueTwo(b[1..]);
  }

  lemma MsbValueFour(b: seq<octet>)
    requires |b| == 4
    ensures BigEndianValue(b) == Four(b[0], b[1], b[2], b[3])
  {
    Pow2Values();
    BigEndianValueStep(b);
    MsbValueThree(b[1..]);
  }

  // `|` of a shifted int with a lower field, nothing reaching the sign bit.
  lemma JoinSmall(q: nat, low: nat, k: nat)
    requires low < Pow2(k) && q * Pow2(k) + low < 0x8000_0000
    ensures OrInt(q * Pow2(k), low) == q * Pow2(k) + low
  {
    var y := Times(q, Pow2(k));
    SmallWord(y);
    SmallWord(low);
    OrDisjoint(q, low, k);
    SmallInt(y + low);
  }

  lemma BufferToInt32Decodes(b: seq<octet>)
    requires |b| == 4
    ensures BufferToInt32(b) == BigEndianValue(b)
  {
    WordOctets(b[0], b[1], b[2], b[3]);
    MsbValueFour(b);
  }

  lemma ThreeJoined(x: nat, y: nat, z: nat)
    requires x < 256 && y < 256 && z < 256
    ensures OrInt(OrInt(ShlInt(x, 16), ShlInt(y, 8)), z) == Three(x, y, z)
    ensures OrInt(ShlInt(y, 8), z) == Two(y, z)
  {
    hide OrInt, ShlInt;
    Pow2Values();
    ShlOctet(x);
    ShlOctet(y);
    JoinSmall(x, y * 0x100, 16);
    JoinSmall(x * 0x100 + y, z, 8);
    JoinSmall(y, z, 8);
  }

  lemma BufferToInt16Decodes(b: seq<octet>)
    requires |b| == 2
    ensures BufferToInt16(b) == BigEndianValue(b)
  {
    MsbValueTwo(b);
    ThreeJoined(0, b[0], b[1]);
    SmallWord(BigEndianValue(b));
  }

  lemma BufferToInt24Decodes(b: seq<octet>)
    requires |b| == 3
    ensures BufferToInt24(b) == BigEndianValue(b)
  {
    MsbValueThree(b);
    ThreeJoined(b[0], b[1], b[2]);
    SmallWord(BigEndianValue(b));
  }

  // Octets y and z joined below q, as both macro identity decoders end.
  lemma NibbleTail(q: nat, y: nat, z: nat)
    requires q < 0x1_0000 && y < 256 && z < 16
    ensures OrInt(OrInt(q * 0x1000, ShlInt(y, 4)), z) == q * 0x1000 + y * 16 + z
  {
    hide OrInt, ShlInt;
    Pow2Values();
    ShlNibble(y);
    JoinSmall(q, y * 16, 12);
    JoinSmall(q * 0x100 + y, z, 4);
  }

  lemma ShlMacro(w: nat)
    requires w < 256
    ensures ShlInt(w, 20) == w * 0x10_0000 && ShlInt(w, 12) == w * 0x1000
  {
    Pow2Values();
    SmallInt(w * 0x10_0000);
    SmallInt(w * 0x1000);
  }

  lemma GnbHead(w: nat, x: nat)
    requires w < 256 && x < 256
    ensures OrInt(ShlInt(w, 20), ShlInt(x, 12)) == (w * 0x100 + x) * 0x1000
  {
    hide OrInt, ShlInt;
    Pow2Values();
    ShlMacro(w);
    ShlMacro(x);
    JoinSmall(w, x * 0x1000, 20);
  }

  lemma NibbleQuotient(q: nat, last: octet)
    ensures Shr(0x100 * q + last, 4) == 16 * q + Shr(last, 4) && Shr(last, 4) < 16
  {
    Pow2Values();
  }

  lemma MacroGnbIdMsbDecodes(b: seq<octet>)
    requires |b| == 4
    ensures BitStringToMacroGnbId(b) == UnpackMsb(b, 4)
  {
    hide OrInt, ShlInt, Bitop;
    MsbValueFour(b);
    GnbHead(b[0], b[1]);
    var q: nat := Two(b[0], b[1]);
    NibbleTail(q, b[2], Shr(b[3], 4));
    NibbleQuotient(Three(b[0], b[1], b[2]), b[3]);
  }

  lemma MacroEnbIdMsbDecodes(b: seq<octet>)
    requires |b| == 3
    ensures BitStringToMacroEnbId(b) == UnpackMsb(b, 4)
  {
    hide OrInt, ShlInt, Bitop;
    MsbValueThree(b);
    ShlMacro(b[0]);
    NibbleTail(b[0], b[1], Shr(b[2], 4));
    NibbleQuotient(Two(b[0], b[1]), b[2]);
  }

  lemma MacroIdRoundTrips(gnb: nat, enb: nat, word: nat)
    requires gnb < 0x1000_0000 && enb < 0x10_0000 && word < TWO32
    ensures BitStringToMacroGnbId(PackMsb(gnb, 4, 4)) == gnb
    ensures BitStringToMacroEnbId(PackMsb(enb, 3, 4)) == enb
    ensures BufferToInt32(BigEndian(word, 4)) == word
  {
    Pow2Values();
    Pow2Add(24, 4);
    PackMsbRoundTrip(gnb, 4, 4);
    MacroGnbIdMsbDecodes(PackMsb(gnb, 4, 4));
    PackMsbRoundTrip(enb, 3, 4);
    MacroEnbIdMsbDecodes(PackMsb(enb, 3, 4));
    BigEndianRoundTrip(word, 4);
    BufferToInt32Decodes(BigEndian(word, 4));
    SmallWord(word);
  }
}
