/** Bit strings read as unsigned big-endian numbers (`to_number` in src/main.rs). */
module Bits {

  /** Two to the power `n`. */
  function Pow2(n: nat): (r: nat)
    ensures r >= 1
  {
    if n == 0 then 1 else 2 * Pow2(n - 1)
  }

  /** The numeric value of one bit. */
  function BitValue(b: bool): nat
  {
    if b then 1 else 0
  }

  /** The source sums `1 << base` over the set bits, where `base` is the
      bit's distance from the right end: the first bit of `bits` carries
      weight `2^(|bits| - 1)` and the last one weight 1. */
  function ToNumber(bits: seq<bool>): (r: nat)
    ensures r < Pow2(|bits|)
  {
    if |bits| == 0 then 0
    else (if bits[0] then Pow2(|bits| - 1) else 0) + ToNumber(bits[1..])
  }

  /** The `width` low-order bits of `n`, most significant first. */
  function FromNumber(n: nat, width: nat): (r: seq<bool>)
    ensures |r| == width
  {
    if width == 0 then [] else FromNumber(n / 2, width - 1) + [n % 2 == 1]
  }

  lemma {:induction false} Pow2Add(m: nat, n: nat)
    ensures Pow2(m + n) == Pow2(m) * Pow2(n)
  {
    if m > 0 {
      Pow2Add(m - 1, n);
      assert Pow2(m + n) == 2 * Pow2(m - 1 + n);
    }
  }

  /** Splitting a bit string: the left part is shifted past the right part. */
  lemma {:induction false} ToNumberAppend(a: seq<bool>, c: seq<bool>)
    ensures ToNumber(a + c) == ToNumber(a) * Pow2(|c|) + ToNumber(c)
  {
    if |a| == 0 {
      assert a + c == c;
    } else {
      assert (a + c)[1..] == a[1..] + c;
      ToNumberAppend(a[1..], c);
      Pow2Add(|a| - 1, |c|);
      var w := if a[0] then Pow2(|a| - 1) else 0;
      var p := Pow2(|c|);
      assert (if a[0] then Pow2(|a| + |c| - 1) else 0) == w * p;
      assert ToNumber(a + c) == w * p + (ToNumber(a[1..]) * p + ToNumber(c));
      Distribute(w, ToNumber(a[1..]), p);
    }
  }

  lemma Distribute(w: nat, t: nat, p: nat)
    ensures w * p + t * p == (w + t) * p
  {
  }

  /** Big-endian accumulation: appending a bit doubles the value and adds the bit. */
  lemma ToNumberSnoc(bits: seq<bool>, x: bool)
    ensures ToNumber(bits + [x]) == 2 * ToNumber(bits) + BitValue(x)
  {
    ToNumberAppend(bits, [x]);
    assert ToNumber([x]) == BitValue(x) by {
      assert [x][1..] == [];
    }
  }

  /** Decoding what `FromNumber` wrote gives back every number that fits the width. */
  lemma {:induction false} ToNumberFromNumber(n: nat, width: nat)
    requires n < Pow2(width)
    ensures ToNumber(FromNumber(n, width)) == n
  {
    if width > 0 {
      ToNumberFromNumber(n / 2, width - 1);
      ToNumberSnoc(FromNumber(n / 2, width - 1), n % 2 == 1);
    }
  }

  /** Writing a bit string's value back out at its own width gives the same bits. */
  lemma {:induction false} FromNumberToNumber(bits: seq<bool>)
    ensures FromNumber(ToNumber(bits), |bits|) == bits
  {
    if |bits| > 0 {
      var init := bits[..|bits| - 1];
      var x := bits[|bits| - 1];
      assert bits == init + [x];
      ToNumberSnoc(init, x);
      var n := ToNumber(bits);
      assert n / 2 == ToNumber(init) && (n % 2 == 1) == x;
      FromNumberToNumber(init);
    }
  }

  /** The sum as the source writes it: walking the bits from the right end,
      the bit `base` places from that end adds `1 << base`. Here the last bit
      of `bits` sits `base` places from the end. */
  function ShiftSum(bits: seq<bool>, base: nat): nat
  {
    if |bits| == 0 then 0
    else (if bits[|bits| - 1] then Pow2(base) else 0) + ShiftSum(bits[..|bits| - 1], base + 1)
  }

  lemma {:induction false} ShiftSumScales(bits: seq<bool>, base: nat)
    ensures ShiftSum(bits, base) == ToNumber(bits) * Pow2(base)
  {
    if |bits| > 0 {
      var init := bits[..|bits| - 1];
      var x := bits[|bits| - 1];
      assert bits == init + [x];
      ToNumberSnoc(init, x);
      ShiftSumScales(init, base + 1);
      var w := Pow2(base);
      assert Pow2(base + 1) == 2 * w;
      assert ShiftSum(bits, base) == BitValue(x) * w + ToNumber(init) * (2 * w);
      ScaleDouble(ToNumber(init), BitValue(x), w);
    }
  }

  lemma ScaleDouble(a: nat, b: nat, w: nat)
    ensures b * w + a * (2 * w) == (2 * a + b) * w
  {
  }

  /** The big-endian reading agrees with the source's sum of shifted bits. */
  lemma ToNumberIsShiftSum(bits: seq<bool>)
    ensures ToNumber(bits) == ShiftSum(bits, 0)
  {
    ShiftSumScales(bits, 0);
  }

  /** The two three-bit fields the decoder inspects, and the widths of its length fields. */
  lemma Pow2Widths()
    ensures Pow2(3) == 8 && Pow2(4) == 16 && Pow2(11) == 2048 && Pow2(15) == 32768
  {
    assert Pow2(4) == 16;
    assert Pow2(8) == 256;
    assert Pow2(11) == 2048;
    assert Pow2(15) == 32768;
  }
}
