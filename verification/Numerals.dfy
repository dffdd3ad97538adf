/** Conversions the helpers rely on: a decimal numeral to long (std::stoll), and long to double. */
module Numerals {
  import opened Wrappers
  import opened Words

  const LONG_MIN: int := -0x8000_0000_0000_0000
  const LONG_MAX: int := 0x7FFF_FFFF_FFFF_FFFF

  datatype NumeralError = InvalidArgument | OutOfRange

  predicate IsSpace(c: octet) { c == 32 || 9 <= c <= 13 }

  predicate IsDigit(c: octet) { 48 <= c <= 57 }

  const PLUS: octet := 43
  const MINUS: octet := 45

  // Leading white space, an optional sign, then the longest run of digits; what follows is ignored.
  function Stoll(s: seq<octet>): Result<int, NumeralError>
  {
    if s != [] && IsSpace(s[0]) then Stoll(s[1..])
    else if s != [] && s[0] == MINUS then Signed(-1, s[1..])
    else if s != [] && s[0] == PLUS then Signed(1, s[1..])
    else Signed(1, s)
  }

  function Signed(sign: int, s: seq<octet>): Result<int, NumeralError>
  {
    if s == [] || !IsDigit(s[0]) then Err(InvalidArgument)
    else
      var v := sign * Accumulate(0, s);
      if LONG_MIN <= v <= LONG_MAX then Ok(v) else Err(OutOfRange)
  }

  function Accumulate(acc: nat, s: seq<octet>): nat
    decreases |s|
  {
    if s == [] || !IsDigit(s[0]) then acc else Accumulate(10 * acc + (s[0] - 48), s[1..])
  }

  // ---------- what the conversion reads ----------

  predicate AllDigits(ds: seq<octet>) { forall i :: 0 <= i < |ds| ==> 48 <= ds[i] <= 57 }

  // s is white space, an optional sign, a non-empty run of digits, and text that does not continue the run.
  predicate Reads(s: seq<octet>, space: seq<octet>, sign: seq<octet>, ds: seq<octet>, rest: seq<octet>)
  {
    && s == space + (sign + (ds + rest))
    && (forall i :: 0 <= i < |space| ==> space[i] == 32 || 9 <= space[i] <= 13)
    && (sign == [] || sign == [43] || sign == [45])
    && ds != [] && AllDigits(ds) && (rest == [] || rest[0] < 48 || rest[0] > 57)
  }

  // The number that a run of decimal digits stands for, by the place of each digit.
  function DecimalValue(ds: seq<octet>): int
  {
    if ds == [] then 0
    else
      var last: int := ds[|ds| - 1];
      10 * DecimalValue(ds[..|ds| - 1]) + (last - 48)
  }

  function Numeral(sign: seq<octet>, ds: seq<octet>): int
  {
    if sign == [45] then -DecimalValue(ds) else DecimalValue(ds)
  }

  predicate IsLong(v: int) { -0x8000_0000_0000_0000 <= v <= 0x7FFF_FFFF_FFFF_FFFF }

  lemma {:induction false} AccumulateAppend(acc: nat, ds: seq<octet>, t: seq<octet>)
    requires AllDigits(ds)
    ensures Accumulate(acc, ds + t) == Accumulate(Accumulate(acc, ds), t)
    decreases |ds|
  {
    if ds == [] {
      assert ds + t == t;
    } else {
      assert (ds + t)[1..] == ds[1..] + t;
      AccumulateAppend(10 * acc + (ds[0] - 48), ds[1..], t);
    }
  }

  // Reading digit by digit from the left gives the number that the places give.
  lemma {:induction false} AccumulateIsDecimal(ds: seq<octet>)
    requires AllDigits(ds)
    ensures Accumulate(0, ds) == DecimalValue(ds)
  {
    if ds != [] {
      var front, last := ds[..|ds| - 1], [ds[|ds| - 1]];
      AccumulateIsDecimal(front);
      assert ds == front + last && last[1..] == [];
      AccumulateAppend(0, front, last);
    }
  }

  lemma SignedReads(sign: int, ds: seq<octet>, rest: seq<octet>)
    requires ds != [] && AllDigits(ds) && (rest == [] || !IsDigit(rest[0]))
    ensures var v := sign * DecimalValue(ds);
      Signed(sign, ds + rest) == if IsLong(v) then Ok(v) else Err(OutOfRange)
  {
    AccumulateAppend(0, ds, rest);
    AccumulateIsDecimal(ds);
    assert (ds + rest)[0] == ds[0];
  }

  // Whatever it reads, it reads as the number of that sign and those digits, or throws when that is no long.
  lemma {:induction false} StollReads(s: seq<octet>, space: seq<octet>, sign: seq<octet>, ds: seq<octet>,
                                      rest: seq<octet>)
    requires Reads(s, space, sign, ds, rest)
    ensures Stoll(s) == if IsLong(Numeral(sign, ds)) then Ok(Numeral(sign, ds)) else Err(OutOfRange)
    decreases |space|
  {
    hide Accumulate, Signed, DecimalValue, IsLong;
    if space != [] {
      assert s[1..] == space[1..] + (sign + (ds + rest));
      StollReads(s[1..], space[1..], sign, ds, rest);
    } else if sign == [] {
      assert s == ds + rest && s[0] == ds[0];
      SignedReads(1, ds, rest);
    } else {
      assert s[0] == sign[0] && s[1..] == ds + rest;
      SignedReads(if sign == [MINUS] then -1 else 1, ds, rest);
    }
  }

  // The longest run of digits at the front.
  function DigitRun(s: seq<octet>): (n: nat)
    ensures n <= |s| && AllDigits(s[..n]) && (n == |s| || !IsDigit(s[n]))
  {
    if s == [] || !IsDigit(s[0]) then 0 else 1 + DigitRun(s[1..])
  }

  lemma SignedParts(s: seq<octet>) returns (ds: seq<octet>, rest: seq<octet>)
    requires s != [] && IsDigit(s[0])
    ensures s == ds + rest && ds != [] && AllDigits(ds) && (rest == [] || !IsDigit(rest[0]))
  {
    var n := DigitRun(s);
    ds, rest := s[..n], s[n..];
  }

  lemma {:induction false} StollParts(s: seq<octet>)
    returns (space: seq<octet>, sign: seq<octet>, ds: seq<octet>, rest: seq<octet>)
    requires Stoll(s) != Err(InvalidArgument)
    ensures Reads(s, space, sign, ds, rest)
  {
    hide Accumulate, AllDigits;
    if s != [] && IsSpace(s[0]) {
      space, sign, ds, rest := StollParts(s[1..]);
      space := [s[0]] + space;
      assert s == [s[0]] + s[1..];
    } else {
      space := [];
      sign := if s != [] && (s[0] == PLUS || s[0] == MINUS) then [s[0]] else [];
      ds, rest := SignedParts(s[|sign|..]);
      assert s == sign + (ds + rest);
    }
  }

  // Exactly when the conversion throws: invalid argument without a digit run in place, out of range when the
  // number read is no long.
  lemma StollThrows(s: seq<octet>)
    ensures Stoll(s) == Err(InvalidArgument) <==> !exists space, sign, ds, rest :: Reads(s, space, sign, ds, rest)
    ensures Stoll(s) == Err(OutOfRange) <==>
      exists space, sign, ds, rest :: Reads(s, space, sign, ds, rest) && !IsLong(Numeral(sign, ds))
  {
    hide Stoll, Reads, Numeral;
    forall space, sign, ds, rest | Reads(s, space, sign, ds, rest)
      ensures Stoll(s) == if IsLong(Numeral(sign, ds)) then Ok(Numeral(sign, ds)) else Err(OutOfRange)
    {
      StollReads(s, space, sign, ds, rest);
    }
    if Stoll(s) != Err(InvalidArgument) {
      var space, sign, ds, rest := StollParts(s);
      assert Reads(s, space, sign, ds, rest);
    }
  }

  // Leading zeros do not change the number.
  lemma {:induction false} LeadingZeros(zeros: seq<octet>, ds: seq<octet>)
    requires forall i :: 0 <= i < |zeros| ==> zeros[i] == 48
    ensures Accumulate(0, zeros + ds) == Accumulate(0, ds)
  {
    if zeros == [] {
      assert zeros + ds == ds;
    } else {
      assert (zeros + ds)[1..] == zeros[1..] + ds;
      LeadingZeros(zeros[1..], ds);
    }
  }

  // So a zero-padded identity reads like the unpadded one.
  lemma PaddingReadsSame(zeros: seq<octet>, ds: seq<octet>, rest: seq<octet>)
    requires forall i :: 0 <= i < |zeros| ==> zeros[i] == 48
    requires ds != [] && AllDigits(ds) && (rest == [] || !IsDigit(rest[0]))
    ensures Stoll(zeros + ds + rest) == Stoll(ds + rest)
  {
    hide Stoll, Accumulate, DecimalValue, IsLong;
    LeadingZeros(zeros, ds);
    AccumulateIsDecimal(zeros + ds);
    AccumulateIsDecimal(ds);
    assert zeros + ds + rest == [] + ([] + ((zeros + ds) + rest)) && ds + rest == [] + ([] + (ds + rest));
    StollReads(zeros + ds + rest, [], [], zeros + ds, rest);
    StollReads(ds + rest, [], [], ds, rest);
  }

  // ---------- the canonical numerals ----------

  function Digits(n: nat): (ds: seq<octet>)
    ensures |ds| >= 1 && AllDigits(ds)
  {
    if n < 10 then [48 + n] else Digits(n / 10) + [48 + n % 10]
  }

  function Decimal(n: int): seq<octet> { if n < 0 then [MINUS] + Digits(-n) else Digits(n) }

  lemma {:induction false} DigitsAccumulate(n: nat)
    ensures Accumulate(0, Digits(n)) == n
  {
    if n >= 10 {
      var last := [48 + n % 10];
      DigitsAccumulate(n / 10);
      AccumulateAppend(0, Digits(n / 10), last);
      assert last[1..] == [];
    } else {
      assert Digits(n)[1..] == [];
    }
  }

  // Every long is read back from its numeral, whatever non-digit text follows.
  lemma StollReadsDecimal(n: int, rest: seq<octet>)
    requires IsLong(n) && (rest == [] || !IsDigit(rest[0]))
    ensures Stoll(Decimal(n) + rest) == Ok(n)
  {
    hide Digits, Stoll, Accumulate, DecimalValue;
    var m: nat := if n < 0 then -n else n;
    var sign := if n < 0 then [MINUS] else [];
    DigitsAccumulate(m);
    AccumulateIsDecimal(Digits(m));
    assert Decimal(n) + rest == [] + (sign + (Digits(m) + rest));
    StollReads(Decimal(n) + rest, [], sign, Digits(m), rest);
  }

  // ---------- long to double ----------

  const TWO53: nat := 0x20_0000_0000_0000

  // The spacing of doubles around a: the least power of two, from ulp up, in which a has at most 53 bits.
  function Spacing(a: nat, ulp: nat): (u: nat)
    requires ulp >= 1
    ensures u >= ulp && a <= TWO53 * u
    ensures u == ulp || (u % 2 == 0 && a > TWO53 * (u / 2))
    decreases a - ulp
  {
    if a <= TWO53 * ulp then ulp else Spacing(a, 2 * ulp)
  }

  // Round half to even to a multiple of u.
  function RoundTo(v: int, u: nat): int
    requires u >= 1
  {
    var q, r := v / u, v % u;
    if 2 * r < u || (2 * r == u && q % 2 == 0) then q * u else (q + 1) * u
  }

  function Abs(v: int): nat { if v < 0 then -v else v }

  function ToDouble(v: int): real { RoundTo(v, Spacing(Abs(v), 1)) as real }

  // std::ceil followed by a cast back to long.
  function CeilToLong(r: real): int { -((-r).Floor) }

  // It is the least integer that is not below the number.
  lemma CeilIsLeast(r: real, k: int)
    ensures r <= CeilToLong(r) as real
    ensures r <= k as real <==> CeilToLong(r) <= k
  {
  }

  // A long survives the conversion exactly when it is a multiple of the spacing at its magnitude;
  // every long of at most 53 bits is.
  lemma ToDoubleExact(v: int)
    ensures ToDouble(v) == v as real <==> v % Spacing(Abs(v), 1) == 0
    ensures Abs(v) <= 0x20_0000_0000_0000 ==> ToDouble(v) == v as real
  {
    var u := Spacing(Abs(v), 1);
    var q, r := v / u, v % u;
    assert v == u * q + r;
    assert q * u == u * q && (q + 1) * u == u * q + u;
    if Abs(v) <= TWO53 {
      assert u == 1;
    }
  }

  lemma RoundToNearest(v: int, u: nat)
    requires u >= 1
    ensures var d := RoundTo(v, u);
      && d % u == 0 && 2 * (d - v) <= u && 2 * (v - d) <= u
      && ((2 * (d - v) == u || 2 * (v - d) == u) ==> (d / u) % 2 == 0)
  {
    var q, r := v / u, v % u;
    var e := if 2 * r < u || (2 * r == u && q % 2 == 0) then q else q + 1;
    assert RoundTo(v, u) == u * e && v == u * q + r;
    assert u * (q + 1) == u * q + u;
    hide RoundTo;
    DivModUnique(u * e, u, e, 0);
  }

  // The conversion gives a multiple of the spacing of the doubles around a long, at most half of it away; of two
  // that are equally near, the even one.
  lemma ToDoubleNearest(v: int)
    ensures var d, u := ToDouble(v).Floor, Spacing(Abs(v), 1);
      && ToDouble(v) == d as real && d % u == 0 && 2 * (d - v) <= u && 2 * (v - d) <= u
      && ((2 * (d - v) == u || 2 * (v - d) == u) ==> (d / u) % 2 == 0)
  {
    hide RoundTo, Spacing, Abs;
    RoundToNearest(v, Spacing(Abs(v), 1));
  }

  // Longs of at most 53 bits stay apart.
  lemma ToDoubleSmall(v: int, w: int)
    requires Abs(v) <= 0x20_0000_0000_0000 && Abs(w) <= 0x20_0000_0000_0000
    ensures ToDouble(v) == ToDouble(w) <==> v == w
  {
    ToDoubleExact(v);
    ToDoubleExact(w);
  }

  // Two different longs that one double stands for: past 53 bits the reported values can coincide.
  lemma ToDoubleMerges()
    ensures ToDouble(0x20_0000_0000_0001) == ToDouble(0x20_0000_0000_0000)
  {
    assert Spacing(TWO53 + 1, 1) == 2;
  }
}
