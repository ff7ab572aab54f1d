/** Numbers as bit strings, most significant bit first. */
module BitStrings {
  import Division

  type Bit = b: int | 0 <= b <= 1

  function Power2(n: nat): (r: nat)
    ensures r > 0
  {
    if n == 0 then 1 else 2 * Power2(n - 1)
  }

  function Value(bits: seq<Bit>): nat {
    if bits == [] then 0 else 2 * Value(bits[..|bits| - 1]) + bits[|bits| - 1]
  }

  /** The bit of v with weight 2 to the n. */
  function BitOf(v: nat, n: nat): Bit {
    v / Power2(n) % 2
  }

  lemma {:induction false} ValueBound(bits: seq<Bit>)
    ensures Value(bits) < Power2(|bits|)
  {
    if bits != [] {
      ValueBound(bits[..|bits| - 1]);
    }
  }

  lemma BitOfHalf(v: nat, n: nat)
    requires n > 0
    ensures BitOf(v, n) == BitOf(v / 2, n - 1)
  {
    Division.DivTwice(v, 2, Power2(n - 1));
  }

  /** Taking a value apart gives back its bits. */
  lemma {:induction false} BitOfValue(bits: seq<Bit>, i: nat)
    requires i < |bits|
    ensures BitOf(Value(bits), |bits| - 1 - i) == bits[i]
  {
    var init, last := bits[..|bits| - 1], bits[|bits| - 1];
    assert Value(bits) / 2 == Value(init) && Value(bits) % 2 == last;
    if i == |bits| - 1 {
      assert Power2(0) == 1;
    } else {
      BitOfHalf(Value(bits), |bits| - 1 - i);
      BitOfValue(init, i);
    }
  }

  /** Putting the bits of a number together gives it back. */
  lemma {:induction false} ValueOfBits(v: nat, bits: seq<Bit>)
    requires v < Power2(|bits|)
    requires forall i :: 0 <= i < |bits| ==> bits[i] == BitOf(v, |bits| - 1 - i)
    ensures Value(bits) == v
    decreases |bits|
  {
    if bits != [] {
      var init := bits[..|bits| - 1];
      forall i | 0 <= i < |init| ensures init[i] == BitOf(v / 2, |init| - 1 - i) {
        assert init[i] == bits[i] == BitOf(v, |bits| - 1 - i);
        BitOfHalf(v, |bits| - 1 - i);
      }
      ValueOfBits(v / 2, init);
      assert bits[|bits| - 1] == BitOf(v, 0) && Power2(0) == 1;
    }
  }

  /** Setting a clear bit adds its weight. */
  lemma {:induction false} ValueWithBit(bits: seq<Bit>, i: nat, b: Bit)
    requires i < |bits| && bits[i] == 0
    ensures Value(bits[i := b]) == Value(bits) + b * Power2(|bits| - 1 - i)
    decreases |bits|
  {
    var n := |bits| - 1;
    var after := bits[i := b];
    if i == n {
      assert after[..n] == bits[..n];
      assert Power2(0) == 1;
    } else {
      assert after[..n] == bits[..n][i := b];
      ValueWithBit(bits[..n], i, b);
      assert 2 * (b * Power2(n - 1 - i)) == b * Power2(n - i);
    }
  }

  // ---------------------------------------------------------------------------------------------
  // Other bases

  /** The number that these digits stand for, most significant first. */
  function Number(digits: seq<nat>, base: nat): nat {
    if digits == [] then 0 else base * Number(digits[..|digits| - 1], base) + digits[|digits| - 1]
  }

  lemma {:induction false} ValueAppend(a: seq<Bit>, b: seq<Bit>)
    ensures Value(a + b) == Value(a) * Power2(|b|) + Value(b)
    decreases |b|
  {
    if b == [] {
      assert a + b == a;
    } else {
      var init := b[..|b| - 1];
      assert (a + b)[..|a + b| - 1] == a + init;
      ValueAppend(a, init);
      assert 2 * (Value(a) * Power2(|init|)) == Value(a) * Power2(|b|);
    }
  }

  lemma NumberSnoc(digits: seq<nat>, d: nat, base: nat)
    ensures Number(digits + [d], base) == base * Number(digits, base) + d
  {
    assert (digits + [d])[..|digits|] == digits;
  }

  /** A group of bits at the end is a digit in the base it fills. */
  lemma GroupAppended(bits: seq<Bit>, group: seq<Bit>, digits: seq<nat>, base: nat)
    requires Power2(|group|) == base && Value(bits) == Number(digits, base)
    ensures Value(bits + group) == Number(digits + [Value(group)], base)
  {
    ValueAppend(bits, group);
    NumberSnoc(digits, Value(group), base);
  }

  lemma LastDigit(digits: seq<nat>, base: nat)
    requires digits != [] && digits[|digits| - 1] < base
    ensures base > 0 && Number(digits[..|digits| - 1], base) == Number(digits, base) / base
    ensures digits[|digits| - 1] == Number(digits, base) % base
  {
    Division.Quotient(Number(digits, base), base, Number(digits[..|digits| - 1], base), digits[|digits| - 1]);
  }

  /** Digits below the base are determined by their number. */
  lemma {:induction false} NumberTells(a: seq<nat>, b: seq<nat>, base: nat)
    requires |a| == |b| && base > 0 && Number(a, base) == Number(b, base)
    requires forall i :: 0 <= i < |a| ==> a[i] < base && b[i] < base
    ensures a == b
    decreases |a|
  {
    if a != [] {
      LastDigit(a, base);
      LastDigit(b, base);
      NumberTells(a[..|a| - 1], b[..|b| - 1], base);
      assert a == a[..|a| - 1] + [a[|a| - 1]] && b == b[..|b| - 1] + [b[|b| - 1]];
    }
  }
}
