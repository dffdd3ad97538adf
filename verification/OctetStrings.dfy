/** Fixed-length octet strings as numbers, in both byte orders. */
module OctetStrings {
  import opened Words

  // The low 8 * size bits of v, least significant octet first: what memcpy takes from a little-endian host.
  function LittleEndian(v: nat, size: nat): (bs: seq<octet>)
    ensures |bs| == size
  {
    if size == 0 then [] else [v % 256] + LittleEndian(v / 256, size - 1)
  }

  lemma LittleEndianStep(v: nat, size: nat, low: octet, rest: nat)
    requires size > 0 && v == low + 256 * rest
    ensures LittleEndian(v, size) == [low] + LittleEndian(rest, size - 1)
  {
    LowestOctet(low, rest);
  }

  function LittleEndianValue(bs: seq<octet>): nat
  {
    if bs == [] then 0 else bs[0] + 256 * LittleEndianValue(bs[1..])
  }

  function Reverse(bs: seq<octet>): (r: seq<octet>)
    ensures |r| == |bs|
    ensures forall i :: 0 <= i < |bs| ==> r[i] == bs[|bs| - 1 - i]
  {
    if bs == [] then [] else Reverse(bs[1..]) + [bs[0]]
  }

  lemma {:induction false} ReverseTwice(bs: seq<octet>)
    ensures Reverse(Reverse(bs)) == bs
  {
    forall i | 0 <= i < |bs| ensures Reverse(Reverse(bs))[i] == bs[i] {
      assert Reverse(Reverse(bs))[i] == Reverse(bs)[|bs| - 1 - i];
    }
  }

  // Most significant octet first.
  function BigEndian(v: nat, size: nat): (bs: seq<octet>)
    ensures |bs| == size
  {
    Reverse(LittleEndian(v, size))
  }

  function BigEndianValue(bs: seq<octet>): nat
  {
    LittleEndianValue(Reverse(bs))
  }

  lemma {:induction false} ValueBound(bs: seq<octet>)
    ensures LittleEndianValue(bs) < Pow2(8 * |bs|)
  {
    if bs != [] {
      ValueBound(bs[1..]);
      Pow2Octet(|bs|);
    }
  }

  lemma Pow2Octet(n: nat)
    requires n > 0
    ensures Pow2(8 * n) == 256 * Pow2(8 * (n - 1))
  {
    Pow2Values();
    Pow2Add(8, 8 * (n - 1));
  }

  // Reading back what was written keeps exactly the bits that fit.
  lemma {:induction false} LittleEndianRoundTrip(v: nat, size: nat)
    ensures LittleEndianValue(LittleEndian(v, size)) == v % Pow2(8 * size)
  {
    if size == 0 {
      assert v % 1 == 0;
    } else {
      LittleEndianRoundTrip(v / 256, size - 1);
      Pow2Octet(size);
      ModStep(v, Pow2(8 * (size - 1)));
    }
  }

  lemma ModStep(v: nat, p: nat)
    requires p > 0
    ensures v % (256 * p) == v % 256 + 256 * ((v / 256) % p)
  {
    var q, r := (v / 256) / p, (v / 256) % p;
    assert v / 256 == p * q + r;
    assert v == (256 * p) * q + (256 * r + v % 256);
    DivModUnique(v, 256 * p, q, 256 * r + v % 256);
  }

  // Every octet string is the encoding of its own value, so encodings of a given length are unique.
  lemma {:induction false} LittleEndianOfValue(bs: seq<octet>)
    ensures LittleEndian(LittleEndianValue(bs), |bs|) == bs
  {
    if bs != [] {
      var rest := LittleEndianValue(bs[1..]);
      LittleEndianOfValue(bs[1..]);
      LowestOctet(bs[0], rest);
    }
  }

  lemma LowestOctet(low: octet, rest: nat)
    ensures (low + 256 * rest) % 256 == low && (low + 256 * rest) / 256 == rest
  {
  }

  lemma ShrOctet(v: nat, i: nat)
    requires i > 0
    ensures Shr(v, 8 * i) == Shr(v / 256, 8 * (i - 1))
  {
    Pow2Octet(i);
    var p := Pow2(8 * (i - 1));
    var q, r := (v / 256) / p, (v / 256) % p;
    assert v / 256 == p * q + r;
    assert v == (256 * p) * q + (256 * r + v % 256);
    DivModUnique(v, 256 * p, q, 256 * r + v % 256);
  }

  // Octet i of a value.
  lemma {:induction false} OctetAt(v: nat, size: nat, i: nat)
    requires i < size
    ensures LittleEndian(v, size)[i] == ToU8(Shr(v, 8 * i))
  {
    if i == 0 {
      assert v / 1 == v;
    } else {
      OctetAt(v / 256, size - 1, i - 1);
      ShrOctet(v, i);
    }
  }

  lemma BigEndianRoundTrip(v: nat, size: nat)
    ensures BigEndianValue(BigEndian(v, size)) == v % Pow2(8 * size)
  {
    ReverseTwice(LittleEndian(v, size));
    LittleEndianRoundTrip(v, size);
  }

  lemma BigEndianOfValue(bs: seq<octet>)
    ensures BigEndian(BigEndianValue(bs), |bs|) == bs
  {
    LittleEndianOfValue(Reverse(bs));
    ReverseTwice(bs);
  }

  // ---------- order ----------

  // Lexicographic order of octet strings of equal length, as memcmp compares them.
  predicate LexAtMost(a: seq<octet>, b: seq<octet>)
    requires |a| == |b|
  {
    a == [] || a[0] < b[0] || (a[0] == b[0] && LexAtMost(a[1..], b[1..]))
  }

  lemma {:induction false} ValueOfAppend(bs: seq<octet>, last: octet)
    ensures LittleEndianValue(bs + [last]) == LittleEndianValue(bs) + Pow2(8 * |bs|) * last
  {
    if bs == [] {
      assert [last][1..] == [];
    } else {
      assert (bs + [last])[1..] == bs[1..] + [last];
      ValueOfAppend(bs[1..], last);
      Pow2Octet(|bs|);
      var p := Pow2(8 * |bs[1..]|);
      assert 256 * (p * last) == (256 * p) * last;
    }
  }

  lemma BigEndianValueStep(bs: seq<octet>)
    requires bs != []
    ensures BigEndianValue(bs) == Pow2(8 * (|bs| - 1)) * bs[0] + BigEndianValue(bs[1..])
  {
    assert Reverse(bs) == Reverse(bs[1..]) + [bs[0]];
    ValueOfAppend(Reverse(bs[1..]), bs[0]);
  }

  // Comparing big-endian octets from the left compares the numbers.
  lemma {:induction false} LexIsNumericOrder(a: seq<octet>, b: seq<octet>)
    requires |a| == |b|
    ensures LexAtMost(a, b) <==> BigEndianValue(a) <= BigEndianValue(b)
  {
    if a != [] {
      var p := Pow2(8 * (|a| - 1));
      LexIsNumericOrder(a[1..], b[1..]);
      BigEndianValueStep(a);
      BigEndianValueStep(b);
      ValueBound(Reverse(a[1..]));
      ValueBound(Reverse(b[1..]));
      HeadDecides(p, a[0], b[0], BigEndianValue(a[1..]), BigEndianValue(b[1..]));
    }
  }

  lemma HeadDecides(p: nat, x: nat, y: nat, s: nat, t: nat)
    requires s < p && t < p
    ensures x < y ==> p * x + s < p * y + t
    ensures y < x ==> p * y + t < p * x + s
  {
    if x < y {
      assert p * y >= p * (x + 1);
    } else if y < x {
      assert p * x >= p * (y + 1);
    }
  }
}
