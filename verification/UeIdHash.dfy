/** The 64-bit hash of a UE identity: xor an octet in, multiply by the prime, modulo 2^64. */
module UeIdHash {
  import opened Words
  import opened OctetStrings

  const FNV_OFFSET: nat := 1469598103934665603
  const FNV_PRIME: nat := 1099511628211
  // The prime is odd, so it has an inverse modulo 2^64.
  const FNV_PRIME_INVERSE: nat := 0xce96_5057_aff6_957b

  function Step(h: nat, o: octet): (r: nat)
    ensures r < TWO64
  {
    ToU64(Bitop(Xor, h, o) * FNV_PRIME)
  }

  function Unstep(h: nat, o: octet): nat { Bitop(Xor, ToU64(h * FNV_PRIME_INVERSE), o) }

  function Fold(h: nat, id: seq<octet>): nat
    decreases |id|
  {
    if id == [] then h else Fold(Step(h, id[0]), id[1..])
  }

  function Hash(id: seq<octet>): nat { Fold(FNV_OFFSET, id) }

  // The eight octets of ran_UEID, as memcpy takes them from the little-endian host.
  function RanUeId(id: seq<octet>): seq<octet> { LittleEndian(Hash(id), 8) }

  method OsToRanUeId8Bytes(os: seq<octet>, out: array<octet>)
    requires out.Length == 8
    modifies out
    ensures out[..] == RanUeId(os)
  {
    var h := FNV_OFFSET;
    for i := 0 to |os|
      invariant h == Fold(FNV_OFFSET, os[..i])
    {
      FoldAppend(FNV_OFFSET, os[..i], [os[i]]);
      assert os[..i + 1] == os[..i] + [os[i]];
      assert Fold(h, [os[i]]) == Step(h, os[i]);
      h := Bitop(Xor, h, os[i]);
      h := ToU64(h * FNV_PRIME);
    }
    assert os[..|os|] == os;
    var bytes := LittleEndian(h, 8);
    forall i | 0 <= i < 8 {
      out[i] := bytes[i];
    }
  }

  lemma {:induction false} FoldAppend(h: nat, a: seq<octet>, b: seq<octet>)
    ensures Fold(h, a + b) == Fold(Fold(h, a), b)
    decreases |a|
  {
    if a == [] {
      assert a + b == b;
    } else {
      assert (a + b)[1..] == a[1..] + b;
      FoldAppend(Step(h, a[0]), a[1..], b);
    }
  }

  lemma XorWord(h: nat, o: octet)
    requires h < TWO64
    ensures Bitop(Xor, h, o) < TWO64
  {
    Pow2Values();
    BitopBound(Xor, h, o, 64);
  }

  // Multiplying by c and then by its inverse d modulo 2^64 is the identity on 64-bit words.
  lemma MulUndo(x: nat, c: nat, d: nat, k: nat)
    requires x < TWO64 && c * d == k * TWO64 + 1
    ensures ToU64(ToU64(x * c) * d) == x
  {
    var q, r := (x * c) / TWO64, ToU64(x * c);
    assert x * c == TWO64 * q + r;
    calc {
      r * d;
      (x * c - TWO64 * q) * d;
      x * (c * d) - TWO64 * (q * d);
      x * (k * TWO64 + 1) - TWO64 * (q * d);
      TWO64 * (x * k - q * d) + x;
    }
    DivModUnique(r * d, TWO64, x * k - q * d, x);
  }

  lemma PrimeUndo(x: nat)
    requires x < TWO64
    ensures ToU64(ToU64(x * FNV_PRIME) * FNV_PRIME_INVERSE) == x
    ensures ToU64(ToU64(x * FNV_PRIME_INVERSE) * FNV_PRIME) == x
  {
    var k := FNV_PRIME * FNV_PRIME_INVERSE / TWO64;
    assert FNV_PRIME * FNV_PRIME_INVERSE == k * TWO64 + 1;
    MulUndo(x, FNV_PRIME, FNV_PRIME_INVERSE, k);
    MulUndo(x, FNV_PRIME_INVERSE, FNV_PRIME, k);
  }

  // For every octet the step is a bijection on 64-bit words, and Unstep is its inverse.
  lemma StepBijective(h: nat, o: octet)
    requires h < TWO64
    ensures Step(h, o) < TWO64 && Unstep(h, o) < TWO64
    ensures Unstep(Step(h, o), o) == h
    ensures Step(Unstep(h, o), o) == h
  {
    var m := ToU64(h * FNV_PRIME_INVERSE);
    XorWord(h, o);
    XorCancels(h, o);
    PrimeUndo(Bitop(Xor, h, o));
    XorWord(m, o);
    XorCancels(m, o);
    PrimeUndo(h);
  }

  lemma {:induction false} FoldWord(h: nat, id: seq<octet>)
    requires h < TWO64
    ensures Fold(h, id) < TWO64
    decreases |id|
  {
    if id != [] {
      FoldWord(Step(h, id[0]), id[1..]);
    }
  }

  lemma StepInjective(g: nat, h: nat, o: octet)
    requires g < TWO64 && h < TWO64
    ensures Step(g, o) == Step(h, o) <==> g == h
  {
    StepBijective(g, o);
    StepBijective(h, o);
  }

  // Absorbing an octet string loses nothing about the state before it.
  lemma {:induction false} FoldInjective(g: nat, h: nat, id: seq<octet>)
    requires g < TWO64 && h < TWO64
    ensures Fold(g, id) == Fold(h, id) <==> g == h
    decreases |id|
  {
    if id != [] {
      StepInjective(g, h, id[0]);
      FoldInjective(Step(g, id[0]), Step(h, id[0]), id[1..]);
    }
  }

  // A common suffix neither creates nor hides a collision.
  lemma SuffixCancels(a: seq<octet>, b: seq<octet>, suffix: seq<octet>)
    ensures Hash(a + suffix) == Hash(b + suffix) <==> Hash(a) == Hash(b)
  {
    FoldAppend(FNV_OFFSET, a, suffix);
    FoldAppend(FNV_OFFSET, b, suffix);
    FoldWord(FNV_OFFSET, a);
    FoldWord(FNV_OFFSET, b);
    FoldInjective(Hash(a), Hash(b), suffix);
  }

  lemma XorSeparates(h: nat, x: octet, y: octet)
    requires x != y
    ensures Bitop(Xor, h, x) != Bitop(Xor, h, y)
  {
    XorCommutes(h, x);
    XorCommutes(h, y);
    XorCancels(x, h);
    XorCancels(y, h);
  }

  lemma StepSeparates(h: nat, x: octet, y: octet)
    requires h < TWO64 && x != y
    ensures Step(h, x) != Step(h, y)
  {
    XorSeparates(h, x, y);
    XorWord(h, x);
    XorWord(h, y);
    PrimeUndo(Bitop(Xor, h, x));
    PrimeUndo(Bitop(Xor, h, y));
  }

  // The octets carry the whole hash: ran_UEID values agree exactly when the hashes do.
  lemma RanUeIdIsHash(a: seq<octet>, b: seq<octet>)
    ensures RanUeId(a) == RanUeId(b) <==> Hash(a) == Hash(b)
  {
    Pow2Values();
    FoldWord(FNV_OFFSET, a);
    FoldWord(FNV_OFFSET, b);
    LittleEndianRoundTrip(Hash(a), 8);
    LittleEndianRoundTrip(Hash(b), 8);
    SmallWord(Hash(a));
    SmallWord(Hash(b));
  }

  // Two identities that differ in exactly one octet never share a ran_UEID.
  lemma OneOctetSeparates(id: seq<octet>, i: nat, y: octet)
    requires i < |id| && id[i] != y
    ensures RanUeId(id) != RanUeId(id[i := y])
  {
    var prefix, suffix := id[..i], id[i + 1..];
    var h := Hash(prefix);
    FoldWord(FNV_OFFSET, prefix);
    StepSeparates(h, id[i], y);
    FoldAppend(FNV_OFFSET, prefix, [id[i]]);
    FoldAppend(FNV_OFFSET, prefix, [y]);
    assert Fold(h, [id[i]]) == Step(h, id[i]) && Fold(h, [y]) == Step(h, y);
    assert id == (prefix + [id[i]]) + suffix && id[i := y] == (prefix + [y]) + suffix;
    SuffixCancels(prefix + [id[i]], prefix + [y], suffix);
    RanUeIdIsHash(id, id[i := y]);
  }

  // ---------- two identities worked out ----------

  // The start word, least significant octet first.
  lemma EmptyIdHash()
    ensures RanUeId([]) == [131, 3, 157, 115, 176, 15, 101, 20]
  {
    assert LittleEndian(0, 0) == [];
    hide LittleEndian;
    LittleEndianStep(20, 1, 20, 0);
    assert LittleEndian(20, 1) == [20];
    LittleEndianStep(5221, 2, 101, 20);
    assert LittleEndian(5221, 2) == [101, 20];
    LittleEndianStep(1336591, 3, 15, 5221);
    assert LittleEndian(1336591, 3) == [15, 101, 20];
    LittleEndianStep(342167472, 4, 176, 1336591);
    assert LittleEndian(342167472, 4) == [176, 15, 101, 20];
    LittleEndianStep(87594872947, 5, 115, 342167472);
    assert LittleEndian(87594872947, 5) == [115, 176, 15, 101, 20];
    LittleEndianStep(22424287474589, 6, 157, 87594872947);
    assert LittleEndian(22424287474589, 6) == [157, 115, 176, 15, 101, 20];
    LittleEndianStep(5740617593494787, 7, 3, 22424287474589);
    assert LittleEndian(5740617593494787, 7) == [3, 157, 115, 176, 15, 101, 20];
    LittleEndianStep(1469598103934665603, 8, 131, 5740617593494787);
  }

  // The identity "1": the octet is xored into the start word before the multiplication.
  lemma OneOctetIdHash()
    ensures RanUeId([49]) == [118, 71, 205, 115, 212, 90, 189, 68]
  {
    FirstXor();
    var x := 1469598103934665650;
    DivModUnique(x * FNV_PRIME, TWO64, 87594872982, 4953215033699813238);
    assert Fold(FNV_OFFSET, [49]) == Fold(Step(FNV_OFFSET, 49), [49][1..]);
    hide Bitop;
    assert Hash([49]) == 4953215033699813238;
    LastOctets();
  }

  lemma FirstXor()
    ensures Bitop(Xor, 1469598103934665603, 49) == 1469598103934665650
  {
    hide Bitop;
    assert Pow2(8) == 256 by {
      Pow2Values();
    }
    hide Pow2;
    LowXor();
    XorZero(5740617593494787);
    BitopSplit(Xor, 5740617593494787, 131, 0, 49, 8);
  }

  lemma LowXor()
    ensures Bitop(Xor, 131, 49) == 178
  {
    hide Bitop;
    BitopStep(Xor, 131, 49);
    BitopStep(Xor, 65, 24);
    BitopStep(Xor, 32, 12);
    BitopStep(Xor, 16, 6);
    BitopStep(Xor, 8, 3);
    BitopStep(Xor, 4, 1);
    XorZero(2);
  }

  lemma LastOctets()
    ensures LittleEndian(4953215033699813238, 8) == [118, 71, 205, 115, 212, 90, 189, 68]
  {
    assert LittleEndian(0, 0) == [];
    hide LittleEndian;
    LittleEndianStep(68, 1, 68, 0);
    assert LittleEndian(68, 1) == [68];
    LittleEndianStep(17597, 2, 189, 68);
    assert LittleEndian(17597, 2) == [189, 68];
    LittleEndianStep(4504922, 3, 90, 17597);
    assert LittleEndian(4504922, 3) == [90, 189, 68];
    LittleEndianStep(1153260244, 4, 212, 4504922);
    assert LittleEndian(1153260244, 4) == [212, 90, 189, 68];
    LittleEndianStep(295234622579, 5, 115, 1153260244);
    assert LittleEndian(295234622579, 5) == [115, 212, 90, 189, 68];
    LittleEndianStep(75580063380429, 6, 205, 295234622579);
    assert LittleEndian(75580063380429, 6) == [205, 115, 212, 90, 189, 68];
    LittleEndianStep(19348496225389895, 7, 71, 75580063380429);
    assert LittleEndian(19348496225389895, 7) == [71, 205, 115, 212, 90, 189, 68];
    LittleEndianStep(4953215033699813238, 8, 118, 19348496225389895);
  }

  // Every 64-bit word is the hash state after a given string, from exactly one state before it.
  function Rewind(h: nat, id: seq<octet>): nat
    decreases |id|
  {
    if id == [] then h else Unstep(Rewind(h, id[1..]), id[0])
  }

  lemma {:induction false} RewindThenFold(h: nat, id: seq<octet>)
    requires h < TWO64
    ensures Rewind(h, id) < TWO64 && Fold(Rewind(h, id), id) == h
    decreases |id|
  {
    if id != [] {
      RewindThenFold(h, id[1..]);
      StepBijective(Rewind(h, id[1..]), id[0]);
    }
  }

  lemma {:induction false} FoldThenRewind(h: nat, id: seq<octet>)
    requires h < TWO64
    ensures Rewind(Fold(h, id), id) == h
    decreases |id|
  {
    if id != [] {
      FoldThenRewind(Step(h, id[0]), id[1..]);
      StepBijective(h, id[0]);
    }
  }
}
