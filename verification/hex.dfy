/** Expansion of the hexadecimal transmission into bits (`from_hex` and the
    fold in `main`, src/main.rs). */
module Hex {
  import opened Wrappers
  import opened Bits

  /** The sixteen accepted digits: `0`-`9` and upper-case `A`-`F` only. */
  predicate IsHexDigit(c: char)
  {
    ('0' <= c <= '9') || ('A' <= c <= 'F')
  }

  /** The value of a digit, from its character code. */
  function DigitValue(c: char): (v: nat)
    requires IsHexDigit(c)
    ensures v < 16
  {
    if c <= '9' then (c - '0') as nat else (c - 'A') as nat + 10
  }

  /** The table of `from_hex`: the four bits of each digit, big-endian, in
      digit order `0` to `F`. */
  const Nibbles: seq<seq<bool>> := [
    [false, false, false, false], [false, false, false, true],
    [false, false, true, false], [false, false, true, true],
    [false, true, false, false], [false, true, false, true],
    [false, true, true, false], [false, true, true, true],
    [true, false, false, false], [true, false, false, true],
    [true, false, true, false], [true, false, true, true],
    [true, true, false, false], [true, true, false, true],
    [true, true, true, false], [true, true, true, true]
  ]

  /** Row `k` of the table is the four-bit form of `k`. */
  lemma NibbleRow(k: nat)
    requires k < 16
    ensures |Nibbles[k]| == 4 && Nibbles[k] == FromNumber(k, 4)
  {
    if k < 8 {
      NibbleRowLow(k);
    } else {
      NibbleRowHigh(k);
    }
  }

  lemma NibbleRowLow(k: nat)
    requires k < 8
    ensures Nibbles[k] == FromNumber(k, 4)
  {
    if k == 0 {
      assert Nibbles[0] == FromNumber(0, 4);
    } else if k == 1 {
      assert Nibbles[1] == FromNumber(1, 4);
    } else if k == 2 {
      assert Nibbles[2] == FromNumber(2, 4);
    } else if k == 3 {
      assert Nibbles[3] == FromNumber(3, 4);
    } else if k == 4 {
      assert Nibbles[4] == FromNumber(4, 4);
    } else if k == 5 {
      assert Nibbles[5] == FromNumber(5, 4);
    } else if k == 6 {
      assert Nibbles[6] == FromNumber(6, 4);
    } else {
      assert Nibbles[7] == FromNumber(7, 4);
    }
  }

  lemma NibbleRowHigh(k: nat)
    requires 8 <= k < 16
    ensures Nibbles[k] == FromNumber(k, 4)
  {
    if k == 8 {
      assert Nibbles[8] == FromNumber(8, 4);
    } else if k == 9 {
      assert Nibbles[9] == FromNumber(9, 4);
    } else if k == 10 {
      assert Nibbles[10] == FromNumber(10, 4);
    } else if k == 11 {
      assert Nibbles[11] == FromNumber(11, 4);
    } else if k == 12 {
      assert Nibbles[12] == FromNumber(12, 4);
    } else if k == 13 {
      assert Nibbles[13] == FromNumber(13, 4);
    } else if k == 14 {
      assert Nibbles[14] == FromNumber(14, 4);
    } else {
      assert Nibbles[15] == FromNumber(15, 4);
    }
  }

  /** One character to its four bits; any other character is an error
      (`Err(())` in the source). */
  function FromHex(c: char): (r: Option<seq<bool>>)
    ensures r.Some? <==> IsHexDigit(c)
    ensures r.Some? ==> |r.value| == 4 && ToNumber(r.value) == DigitValue(c)
  {
    if IsHexDigit(c) then
      NibbleRow(DigitValue(c));
      Pow2Widths();
      ToNumberFromNumber(DigitValue(c), 4);
      Some(Nibbles[DigitValue(c)])
    else None
  }

  /** The digit whose value is `v`. */
  function Digit(v: nat): (c: char)
    requires v < 16
    ensures IsHexDigit(c) && DigitValue(c) == v
  {
    if v < 10 then ('0' as int + v) as char else ('A' as int + v - 10) as char
  }

  /** `Digit` inverts `DigitValue`. */
  lemma DigitOfValue(c: char)
    requires IsHexDigit(c)
    ensures Digit(DigitValue(c)) == c
  {
  }

  /** The digit's bits are the four-bit big-endian form of its value. */
  lemma FromHexIsFourBitValue(c: char)
    requires IsHexDigit(c)
    ensures FromHex(c) == Some(FromNumber(DigitValue(c), 4))
  {
    NibbleRow(DigitValue(c));
  }

  /** Every four-bit group is produced by exactly one digit. */
  lemma FromHexDigit(nibble: seq<bool>)
    requires |nibble| == 4
    ensures FromHex(Digit(ToNumber(nibble))) == Some(nibble)
  {
    Pow2Widths();
    var c := Digit(ToNumber(nibble));
    FromNumberToNumber(FromHex(c).value);
    FromNumberToNumber(nibble);
  }

  /** The fold in `main`: each character's four bits are appended in order;
      the first invalid character aborts the whole expansion. */
  function Expand(line: string): (r: Option<seq<bool>>)
    ensures r.Some? <==> forall i :: 0 <= i < |line| ==> IsHexDigit(line[i])
    ensures r.Some? ==> |r.value| == 4 * |line|
  {
    if |line| == 0 then Some([])
    else
      match Expand(line[..|line| - 1])
      case None => None
      case Some(acc) =>
        match FromHex(line[|line| - 1])
        case None => None
        case Some(nibble) => Some(acc + nibble)
  }

  /** The fold, one character at a time from the end. */
  lemma ExpandSnoc(init: string, c: char)
    ensures Expand(init + [c]) ==
      if Expand(init).Some? && FromHex(c).Some? then Some(Expand(init).value + FromHex(c).value) else None
  {
    assert (init + [c])[..|init + [c]| - 1] == init;
  }

  /** Bits `4i` to `4i + 4` of the expansion are the bits of character `i`. */
  lemma {:induction false} ExpandAt(line: string, i: nat)
    requires Expand(line).Some? && i < |line|
    ensures FromHex(line[i]) == Some(Expand(line).value[4 * i..4 * i + 4])
  {
    var init := line[..|line| - 1];
    var c := line[|line| - 1];
    SnocSplit(line);
    ExpandSnoc(init, c);
    var acc := Expand(init).value;
    var nibble := FromHex(c).value;
    if i < |init| {
      ExpandAt(init, i);
      SliceLeft(acc, nibble, 4 * i, 4 * i + 4);
    } else {
      SliceRight(acc, nibble);
    }
  }

  lemma SnocSplit<T>(s: seq<T>)
    requires |s| > 0
    ensures s == s[..|s| - 1] + [s[|s| - 1]]
  {
  }

  lemma TakeDrop<T>(s: seq<T>, n: nat)
    requires n <= |s|
    ensures s == s[..n] + s[n..]
  {
  }

  lemma SliceLeft<T>(a: seq<T>, b: seq<T>, lo: nat, hi: nat)
    requires lo <= hi <= |a|
    ensures (a + b)[lo..hi] == a[lo..hi]
  {
  }

  lemma SliceRight<T>(a: seq<T>, b: seq<T>)
    ensures (a + b)[|a|..|a| + |b|] == b
  {
  }

  /** The hexadecimal spelling of a bit string, one digit per four bits
      (bits short of a whole digit are not spelled). */
  function ToHex(bits: seq<bool>): string
  {
    if |bits| < 4 then ""
    else
      Pow2Widths();
      ToHex(bits[..|bits| - 4]) + [Digit(ToNumber(bits[|bits| - 4..]))]
  }

  /** Expanding the spelling of a bit string gives the bit string back. */
  lemma {:induction false} ExpandToHex(bits: seq<bool>)
    requires |bits| % 4 == 0
    ensures Expand(ToHex(bits)) == Some(bits)
  {
    if |bits| > 0 {
      var init := bits[..|bits| - 4];
      var last := bits[|bits| - 4..];
      TakeDrop(bits, |bits| - 4);
      ToHexSnoc(init, last);
      ExpandToHex(init);
      FromHexDigit(last);
      ExpandSnoc(ToHex(init), Digit(ToNumber(last)));
    }
  }

  /** A line that expands is the spelling of its expansion. */
  lemma {:induction false} ToHexExpand(line: string)
    requires Expand(line).Some?
    ensures ToHex(Expand(line).value) == line
  {
    if |line| > 0 {
      var init := line[..|line| - 1];
      var c := line[|line| - 1];
      assert line == init + [c];
      ExpandSnoc(init, c);
      ToHexExpand(init);
      var acc := Expand(init).value;
      var nibble := FromHex(c).value;
      ToHexSnoc(acc, nibble);
      DigitOfValue(c);
    }
  }

  /** Spelling one more nibble appends one digit. */
  lemma ToHexSnoc(bits: seq<bool>, nibble: seq<bool>)
    requires |nibble| == 4
    ensures ToHex(bits + nibble) == ToHex(bits) + [Digit(ToNumber(nibble))]
  {
    var all := bits + nibble;
    assert all[..|all| - 4] == bits;
    assert all[|all| - 4..] == nibble;
  }
}
