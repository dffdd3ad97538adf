/** The one layout behind all the identity codecs: octets least significant first, the last octet
    shifted left past the unused bits of the BIT STRING. */
module IdentityPacking {
  import opened Words
  import opened OctetStrings

  function Pack(v: nat, size: nat, unused: nat): (bs: seq<octet>)
    requires size >= 1
    ensures |bs| == size
  {
    if size == 1 then [ShiftedOctet(v, unused)] else [v % 256] + Pack(v / 256, size - 1, unused)
  }

  function Unpack(bs: seq<octet>, unused: nat): nat
    requires |bs| >= 1
  {
    if |bs| == 1 then Shr(bs[0], unused) else bs[0] + 256 * Unpack(bs[1..], unused)
  }

  // The unused low bits of the last octet are zero.
  predicate Padded(bs: seq<octet>, unused: nat)
    requires |bs| >= 1
  {
    bs[|bs| - 1] % Pow2(unused) == 0
  }

  lemma PowerOfOctet(unused: nat)
    requires unused < 8
    ensures Pow2(8 - unused) * Pow2(unused) == 256
  {
    Pow2Values();
    Pow2Add(8 - unused, unused);
  }

  lemma Capacity(size: nat, unused: nat)
    requires size > 1 && unused < 8
    ensures Pow2(8 * size - unused) == 256 * Pow2(8 * (size - 1) - unused)
  {
    Pow2Values();
    Pow2Add(8, 8 * (size - 1) - unused);
  }

  // The shifted last octet loses nothing.
  lemma ShiftFits(v: nat, c: nat, p: nat)
    requires c * p == 256 && v < c
    ensures ToU8(v * p) == v * p && (v * p) / p == v && (v * p) % p == 0
  {
    assert v * p <= (c - 1) * p == 256 - p;
    assert p > 0;
    DivModUnique(v * p, p, v, 0);
  }

  lemma ShiftBack(b: octet, c: nat, p: nat)
    requires c * p == 256 && p > 0 && b % p == 0
    ensures b / p < c && (b / p) * p == b
  {
    assert b == p * (b / p);
    QuotientBelow(b / p, c, p);
  }

  lemma PackLast(v: nat, unused: nat)
    requires unused < 8 && v < Pow2(8 - unused)
    ensures Unpack(Pack(v, 1, unused), unused) == v && Padded(Pack(v, 1, unused), unused)
  {
    PowerOfOctet(unused);
    ShiftFits(v, Pow2(8 - unused), Pow2(unused));
  }

  lemma UnpackLast(bs: seq<octet>, unused: nat)
    requires |bs| == 1 && unused < 8 && Padded(bs, unused)
    ensures Unpack(bs, unused) < Pow2(8 - unused)
    ensures Pack(Unpack(bs, unused), 1, unused) == bs
  {
    PowerOfOctet(unused);
    ShiftBack(bs[0], Pow2(8 - unused), Pow2(unused));
  }

  lemma PackStep(v: nat, size: nat, unused: nat)
    requires size > 1
    ensures Pack(v, size, unused)[1..] == Pack(v / 256, size - 1, unused)
    ensures Unpack(Pack(v, size, unused), unused) == v % 256 + 256 * Unpack(Pack(v / 256, size - 1, unused), unused)
    ensures Pack(v, size, unused)[size - 1] == Pack(v / 256, size - 1, unused)[size - 2]
  {
  }

  // Any identity of 8 * size - unused bits survives packing, and the padding bits are zero.
  lemma {:induction false} PackRoundTrip(v: nat, size: nat, unused: nat)
    requires size >= 1 && unused < 8 && v < Pow2(8 * size - unused)
    ensures Unpack(Pack(v, size, unused), unused) == v
    ensures Padded(Pack(v, size, unused), unused)
  {
    if size == 1 {
      PackLast(v, unused);
    } else {
      Capacity(size, unused);
      PackRoundTrip(v / 256, size - 1, unused);
      PackStep(v, size, unused);
    }
  }

  // Conversely every padded octet string is the packing of exactly one identity that fits.
  lemma {:induction false} UnpackRoundTrip(bs: seq<octet>, unused: nat)
    requires |bs| >= 1 && unused < 8 && Padded(bs, unused)
    ensures Unpack(bs, unused) < Pow2(8 * |bs| - unused)
    ensures Pack(Unpack(bs, unused), |bs|, unused) == bs
  {
    if |bs| == 1 {
      UnpackLast(bs, unused);
    } else {
      Capacity(|bs|, unused);
      UnpackRoundTrip(bs[1..], unused);
      LowestOctet(bs[0], Unpack(bs[1..], unused));
    }
  }

  lemma QuotientBelow(q: nat, c: nat, p: nat)
    requires p > 0 && q * p < c * p
    ensures q < c
  {
  }

  lemma PackInjective(v: nat, w: nat, size: nat, unused: nat)
    requires size >= 1 && unused < 8 && v < Pow2(8 * size - unused) && w < Pow2(8 * size - unused)
    ensures Pack(v, size, unused) == Pack(w, size, unused) <==> v == w
  {
    PackRoundTrip(v, size, unused);
    PackRoundTrip(w, size, unused);
  }

  // Octet i, written the way the encoders write it: the value shifted right by whole octets.
  lemma {:induction false} PackOctet(v: nat, size: nat, unused: nat, i: nat)
    requires i < size
    ensures Pack(v, size, unused)[i]
         == if i < size - 1 then ToU8(Shr(v, 8 * i)) else ShiftedOctet(Shr(v, 8 * i), unused)
  {
    if i == 0 {
      assert v / 1 == v;
    } else {
      PackOctet(v / 256, size - 1, unused, i - 1);
      ShrOctet(v, i);
    }
  }
}
