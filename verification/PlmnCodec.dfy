/** Packing of a PLMN identity, three BCD digit pairs, and the two decoders of it. */
module PlmnCodec {
  import opened Words
  import opened IdentityCodecs
  import opened MsbCodecs

  datatype Plmn = Plmn(mcc: nat, mnc: nat, mncDigits: nat)

  function MncHundreds(mnc: nat, mncDigits: nat): nat { if mncDigits == 2 then 15 else mnc / 100 }

  function MccMncDecimal(value: nat): nat { (value / 10) % 10 }

  // `(hi << 4) | lo`, stored in an octet.
  function NibblePair(hi: nat, lo: nat): octet { ToU8(OrInt(ShlInt(hi, 4), lo)) }

  // The macro MCC_MNC_TO_PLMNID, the TBCD macro and the in-class copy evaluate these same three expressions.
  method ToOctetString(mcc: nat, mnc: nat, mncDigits: nat) returns (buf: array<octet>)
    requires mcc < 0x1_0000 && mnc < 0x1_0000
    ensures fresh(buf) && buf[..] == Encode(Plmn(mcc, mnc, mncDigits))
  {
    buf := new octet[3](_ => 0);
    buf[0] := NibblePair(MccMncDecimal(mcc), mcc / 100);
    buf[1] := NibblePair(MncHundreds(mnc, mncDigits), mcc % 10);
    buf[2] := NibblePair(mnc % 10, MccMncDecimal(mnc));
  }

  function Encode(p: Plmn): (bs: seq<octet>)
    ensures |bs| == 3
  {
    [NibblePair(MccMncDecimal(p.mcc), p.mcc / 100),
     NibblePair(MncHundreds(p.mnc, p.mncDigits), p.mcc % 10),
     NibblePair(p.mnc % 10, MccMncDecimal(p.mnc))]
  }

  // PLMNID_TO_MCC_MNC.
  function Decode(b: seq<octet>): Plmn
    requires |b| == 3
  {
    var mcc := Bitop(And, b[0], 0x0F) * 100 + Bitop(And, Shr(b[0], 4), 0x0F) * 10 + Bitop(And, b[1], 0x0F);
    var digits := if Bitop(And, Shr(b[1], 4), 0x0F) == 0xF then 2 else 3;
    var mnc := (if digits == 2 then 0 else Bitop(And, Shr(b[1], 4), 0x0F) * 100)
               + Bitop(And, b[2], 0x0F) * 10 + Bitop(And, Shr(b[2], 4), 0x0F);
    Plmn(mcc, mnc, digits)
  }

  // TBCD_TO_MCC_MNC.
  function DecodeTbcd(b: seq<octet>): Plmn
    requires |b| == 3
  {
    var hundred := Shr(Bitop(And, b[1], 0xF0), 4);
    var mcc := Shr(Bitop(And, b[0], 0xF0), 4) * 10 + Bitop(And, b[0], 0x0F) * 100 + Bitop(And, b[1], 0x0F);
    var mnc := (if hundred == 0xF then 0 else hundred) * 100
               + Shr(Bitop(And, b[2], 0xF0), 4) + Bitop(And, b[2], 0x0F) * 10;
    Plmn(mcc, mnc, if hundred == 0xF then 2 else 3)
  }

  function Low(b: octet): (r: nat) ensures r < 16 { b % 16 }

  function High(b: octet): (r: nat) ensures r < 16 { b / 16 }

  lemma NibbleMasks(b: octet)
    ensures Bitop(And, b, 0x0F) == Low(b)
    ensures Bitop(And, Shr(b, 4), 0x0F) == High(b)
  {
    hide Bitop;
    Pow2Values();
    AndLowMask(b, 4);
    AndLowMask(b / 16, 4);
  }

  lemma HighNibbleMask(b: octet)
    ensures Shr(Bitop(And, b, 0xF0), 4) == High(b)
  {
    hide Bitop;
    AndHighMask(High(b), Low(b));
    Pow2Values();
  }

  lemma AndHighMask(hi: nat, lo: nat)
    requires hi < 16 && lo < 16
    ensures Bitop(And, hi * 16 + lo, 0xF0) == hi * 16
  {
    hide Bitop;
    Pow2Values();
    AndLowMask(hi, 4);
    BitopSplit(And, hi, lo, 15, 0, 4);
    AndZero(lo);
  }

  function Digits3(c: nat, d: nat, u: nat): nat { c * 100 + d * 10 + u }

  // What both decoders read, digit by digit.
  function Digits(b: seq<octet>): Plmn
    requires |b| == 3
  {
    var h := High(b[1]);
    Plmn(Digits3(Low(b[0]), High(b[0]), Low(b[1])),
         Digits3(if h == 15 then 0 else h, Low(b[2]), High(b[2])),
         if h == 15 then 2 else 3)
  }

  lemma DecodersReadDigits(b: seq<octet>)
    requires |b| == 3
    ensures Decode(b) == Digits(b) == DecodeTbcd(b)
  {
    NibbleMasks(b[0]);
    NibbleMasks(b[1]);
    NibbleMasks(b[2]);
    HighNibbleMask(b[0]);
    HighNibbleMask(b[1]);
    HighNibbleMask(b[2]);
  }

  // A digit pair keeps the low nibble of its second digit, and its first digit when the second is a nibble.
  lemma NibblePairParts(hi: nat, lo: nat)
    requires hi < 0x1000 && lo < 0x1000
    ensures Low(NibblePair(hi, lo)) == lo % 16
    ensures lo < 16 ==> High(NibblePair(hi, lo)) == hi % 16
  {
    hide Bitop;
    var j := Bitop(Or, hi, lo / 16);
    OrNibbles(hi, lo);
    OrZero(hi);
    JoinedBound(hi, lo / 16);
    ShlNibble(hi);
    SmallWord(hi * 16);
    SmallWord(lo);
    SmallInt(j * 16 + lo % 16);
    PairOctet(j, lo % 16);
  }

  lemma OrNibbles(hi: nat, lo: nat)
    ensures Bitop(Or, hi * 16, lo) == Bitop(Or, hi, lo / 16) * 16 + lo % 16
  {
    hide Bitop;
    Pow2Values();
    BitopSplit(Or, hi, 0, lo / 16, lo % 16, 4);
    OrZero(lo % 16);
  }

  lemma JoinedBound(x: nat, y: nat)
    requires x < 0x1000 && y < 0x1000
    ensures Bitop(Or, x, y) < 0x1000
  {
    Pow2Values();
    BitopBound(Or, x, y, 12);
  }

  lemma PairOctet(j: nat, low: nat)
    requires low < 16
    ensures Low(ToU8(j * 16 + low)) == low && High(ToU8(j * 16 + low)) == j % 16
  {
    DivModUnique(j * 16 + low, 256, j / 16, (j % 16) * 16 + low);
  }

  predicate Fits(p: Plmn) {
    && p.mcc < 1600
    && ((p.mncDigits == 2 && p.mnc < 100) || (p.mncDigits == 3 && p.mnc < 1500))
  }

  // Decoding restores the identity exactly on this domain, which contains every PLMN of TS 38.413
  // (MCC below 1000, and MNC below 100 with two digits or below 1000 with three) and is slightly larger.
  lemma PlmnRoundTrip(p: Plmn)
    requires p.mcc < 0x1_0000 && p.mnc < 0x1_0000
    ensures Decode(Encode(p)) == p <==> Fits(p)
    ensures DecodeTbcd(Encode(p)) == p <==> Fits(p)
  {
    hide *;
    DecodersReadDigits(Encode(p));
    DigitsRoundTrip(p, Encode(p));
  }

  lemma DigitsRoundTrip(p: Plmn, e: seq<octet>)
    requires p.mcc < 0x1_0000 && p.mnc < 0x1_0000 && e == Encode(p)
    ensures Digits(e) == p <==> Fits(p)
  {
    hide Encode, NibblePair, Bitop, Low, High;
    EncodedOctets(p);
    MccRestored(p.mcc, Low(e[0]), High(e[0]));
    MncRestored(p.mnc, High(e[1]), p.mncDigits);
  }

  // The six nibbles of an encoded identity.
  lemma EncodedOctets(p: Plmn)
    requires p.mcc < 0x1_0000 && p.mnc < 0x1_0000
    ensures var e := Encode(p);
      && Low(e[0]) == (p.mcc / 100) % 16 && (p.mcc < 1600 ==> High(e[0]) == (p.mcc / 10) % 10)
      && Low(e[1]) == p.mcc % 10 && High(e[1]) == MncHundreds(p.mnc, p.mncDigits) % 16
      && Low(e[2]) == (p.mnc / 10) % 10 && High(e[2]) == p.mnc % 10
  {
    FirstPair(p.mcc);
    SecondPair(MncHundreds(p.mnc, p.mncDigits), p.mcc);
    ThirdPair(p.mnc);
  }

  // The layout of TS 38.413, section 9.3.3.5: the MCC and then the MNC, two digits an octet with the earlier one in the
  // low nibble, and the filler 15 in front of a two-digit MNC.
  lemma EncodedDigits(p: Plmn, c: nat, d: nat, u: nat, h: nat, t: nat, v: nat)
    requires c < 10 && d < 10 && u < 10 && h < 10 && t < 10 && v < 10
    requires p.mcc == Digits3(c, d, u) && p.mnc == Digits3(h, t, v)
    ensures Encode(p) == [16 * d + c, 16 * (if p.mncDigits == 2 then 15 else h) + u, 16 * v + t]
  {
    hide Encode, Digits3;
    DigitsOf(c, d, u);
    DigitsOf(h, t, v);
    EncodedParts(p, if p.mncDigits == 2 then 15 else h);
  }

  lemma EncodedParts(p: Plmn, hundreds: nat)
    requires p.mcc < 1000 && p.mnc < 1000 && MncHundreds(p.mnc, p.mncDigits) == hundreds < 16
    ensures Encode(p) == [16 * ((p.mcc / 10) % 10) + p.mcc / 100, 16 * hundreds + p.mcc % 10,
                          16 * (p.mnc % 10) + (p.mnc / 10) % 10]
  {
    hide Encode, NibblePair, Bitop, Low, High, MncHundreds;
    assert (p.mcc / 100) % 16 == p.mcc / 100 && hundreds % 16 == hundreds;
    EncodedOctets(p);
    NibblesOf(Encode(p)[0], (p.mcc / 10) % 10, p.mcc / 100);
    NibblesOf(Encode(p)[1], hundreds, p.mcc % 10);
    NibblesOf(Encode(p)[2], p.mnc % 10, (p.mnc / 10) % 10);
  }

  lemma NibblesOf(b: octet, hi: nat, lo: nat)
    ensures High(b) == hi && Low(b) == lo ==> b == 16 * hi + lo
  {
  }

  lemma FirstPair(mcc: nat)
    requires mcc < 0x1_0000
    ensures Low(NibblePair(MccMncDecimal(mcc), mcc / 100)) == (mcc / 100) % 16
    ensures mcc < 1600 ==> High(NibblePair(MccMncDecimal(mcc), mcc / 100)) == (mcc / 10) % 10
  {
    hide NibblePair, Bitop, Low, High;
    var d, c := MccMncDecimal(mcc), mcc / 100;
    assert d < 10 && c < 0x1000 && (mcc < 1600 ==> c < 16);
    NibblePairParts(d, c);
  }

  lemma SecondPair(h: nat, mcc: nat)
    requires h < 0x1000
    ensures Low(NibblePair(h, mcc % 10)) == mcc % 10 && High(NibblePair(h, mcc % 10)) == h % 16
  {
    var d := mcc % 10;
    assert d % 16 == d;
    NibblePairParts(h, d);
  }

  lemma ThirdPair(mnc: nat)
    ensures Low(NibblePair(mnc % 10, MccMncDecimal(mnc))) == (mnc / 10) % 10
    ensures High(NibblePair(mnc % 10, MccMncDecimal(mnc))) == mnc % 10
  {
    var u, d := mnc % 10, MccMncDecimal(mnc);
    assert d % 16 == d && u % 16 == u;
    NibblePairParts(u, d);
  }

  lemma ThreeDigits(v: nat)
    ensures v == Digits3(v / 100, (v / 10) % 10, v % 10)
  {
    assert (v / 10) / 10 == v / 100;
  }

  lemma MccRestored(mcc: nat, lo: nat, hi: nat)
    requires lo == (mcc / 100) % 16 && hi < 16
    requires mcc < 1600 ==> hi == (mcc / 10) % 10
    ensures Digits3(lo, hi, mcc % 10) == mcc <==> mcc < 1600
  {
    ThreeDigits(mcc);
  }

  lemma MncRestored(mnc: nat, h: nat, digits: nat)
    requires h == (if digits == 2 then 15 else (mnc / 100) % 16)
    ensures Digits3(if h == 15 then 0 else h, (mnc / 10) % 10, mnc % 10) == mnc && (if h == 15 then 2 else 3) == digits
       <==> (digits == 2 && mnc < 100) || (digits == 3 && mnc < 1500)
  {
    ThreeDigits(mnc);
    HundredsDecide(mnc / 100, (mnc / 10) % 10, mnc % 10, h);
    assert mnc < 1500 <==> mnc / 100 < 15;
  }

  lemma HundredsDecide(c: nat, d: nat, u: nat, h: nat)
    ensures Digits3(h, d, u) == Digits3(c, d, u) <==> h == c
    ensures Digits3(0, d, u) == Digits3(c, d, u) <==> c == 0
    ensures c % 16 == c && c != 15 <==> c < 15
  {
  }

  predicate WellFormedBcd(b: seq<octet>)
    requires |b| == 3
  {
    && Low(b[0]) < 10 && High(b[0]) < 10
    && Low(b[1]) < 10 && (High(b[1]) < 10 || High(b[1]) == 15)
    && Low(b[2]) < 10 && High(b[2]) < 10
  }

  // Conversely a well-formed BCD triple is restored from the identity it stands for.
  lemma BcdRoundTrip(b: seq<octet>)
    requires |b| == 3 && WellFormedBcd(b)
    ensures Encode(Decode(b)) == b
    ensures Fits(Decode(b))
  {
    hide NibblePair, Bitop, Digits, Decode, DecodeTbcd, MncHundreds, MccMncDecimal;
    DecodersReadDigits(b);
    BcdDigits(b, Digits(b));
    EncodedOctets(Digits(b));
    SameTriple(Encode(Digits(b)), b);
  }

  lemma BcdDigits(b: seq<octet>, p: Plmn)
    requires |b| == 3 && WellFormedBcd(b) && p == Digits(b)
    ensures Fits(p)
    ensures p.mcc / 100 == Low(b[0]) && (p.mcc / 10) % 10 == High(b[0]) && p.mcc % 10 == Low(b[1])
    ensures MncHundreds(p.mnc, p.mncDigits) == High(b[1])
    ensures (p.mnc / 10) % 10 == Low(b[2]) && p.mnc % 10 == High(b[2])
  {
    var h := if High(b[1]) == 15 then 0 else High(b[1]);
    DigitsOf(Low(b[0]), High(b[0]), Low(b[1]));
    DigitsOf(h, Low(b[2]), High(b[2]));
  }

  lemma SameTriple(e: seq<octet>, b: seq<octet>)
    requires |e| == |b| == 3
    requires forall i :: 0 <= i < 3 ==> Low(e[i]) == Low(b[i]) && High(e[i]) == High(b[i])
    ensures e == b
  {
    forall i | 0 <= i < 3 ensures e[i] == b[i] {
      SameOctet(e[i], b[i]);
    }
  }

  lemma SameOctet(x: octet, y: octet)
    ensures Low(x) == Low(y) && High(x) == High(y) ==> x == y
  {
  }

  lemma DigitsOf(c: nat, d: nat, u: nat)
    requires c < 10 && d < 10 && u < 10
    ensures Digits3(c, d, u) / 100 == c && (Digits3(c, d, u) / 10) % 10 == d && Digits3(c, d, u) % 10 == u
    ensures Digits3(c, d, u) < 1000
  {
    assert Digits3(c, d, u) / 10 == c * 10 + d;
  }
}
