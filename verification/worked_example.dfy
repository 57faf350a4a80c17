/** The worked literal example of the puzzle, `D2FE28`, traced through the
    model. */
module WorkedExample {
  import opened Wrappers
  import opened Bits
  import opened Hex
  import opened Decoder
  import opened DecoderFacts
  import opened Transmission

  /** The bits of the worked literal example `D2FE28`. */
  const ExampleBits: seq<bool> := [
    true, true, false, true, false, false, true, false,
    true, true, true, true, true, true, true, false,
    false, false, true, false, true, false, false, false]

  /** The table rows of the first two digits. */
  lemma RowsD2()
    ensures FromHex('D') == Some([true, true, false, true])
    ensures FromHex('2') == Some([false, false, true, false])
  {
  }

  /** The table rows of the middle digits. */
  lemma RowsFE()
    ensures FromHex('F') == Some([true, true, true, true])
    ensures FromHex('E') == Some([true, true, true, false])
  {
  }

  /** The table row of the last digit. */
  lemma Rows8()
    ensures FromHex('8') == Some([true, false, false, false])
  {
  }

  /** The table rows of the payload `7E5`. */
  lemma Rows75()
    ensures FromHex('7') == Some([false, true, true, true])
    ensures FromHex('5') == Some([false, true, false, true])
  {
  }

  /** One step of the fold, on given values. */
  lemma ExpandStep(init: string, c: char, line: string, acc: seq<bool>, nibble: seq<bool>, bits: seq<bool>)
    requires line == init + [c] && bits == acc + nibble
    requires Expand(init) == Some(acc) && FromHex(c) == Some(nibble)
    ensures Expand(line) == Some(bits)
  {
    ExpandSnoc(init, c);
  }

  lemma ExampleExpands()
    ensures Expand("D2FE28") == Some(ExampleBits)
  {
    RowsD2();
    RowsFE();
    Rows8();
    ExpandStep("", 'D', "D", [], [true, true, false, true], [true, true, false, true]);
    ExpandStep("D", '2', "D2", [true, true, false, true], [false, false, true, false], [true, true, false, true, false, false, true, false]);
    ExpandStep("D2", 'F', "D2F", [true, true, false, true, false, false, true, false], [true, true, true, true], [true, true, false, true, false, false, true, false, true, true, true, true]);
    ExpandStep("D2F", 'E', "D2FE", [true, true, false, true, false, false, true, false, true, true, true, true], [true, true, true, false], [true, true, false, true, false, false, true, false, true, true, true, true, true, true, true, false]);
    ExpandStep("D2FE", '2', "D2FE2", [true, true, false, true, false, false, true, false, true, true, true, true, true, true, true, false], [false, false, true, false], [true, true, false, true, false, false, true, false, true, true, true, true, true, true, true, false, false, false, true, false]);
    ExpandStep("D2FE2", '8', "D2FE28", [true, true, false, true, false, false, true, false, true, true, true, true, true, true, true, false, false, false, true, false], [true, false, false, false], [true, true, false, true, false, false, true, false, true, true, true, true, true, true, true, false, false, false, true, false, true, false, false, false]);
  }

  /** The payload `7E5` of the example, whose value is 2021. */
  const ExamplePayload: seq<bool> := [false, true, true, true, true, true, true, false, false, true, false, true]

  lemma ExamplePayloadValue()
    ensures ToNumber(ExamplePayload) == 2021
  {
    Rows75();
    RowsFE();
    var a, b, c := FromHex('7').value, FromHex('E').value, FromHex('5').value;
    assert ExamplePayload == (a + b) + c;
    Pow2Widths();
    ToNumberAppend(a + b, c);
    ToNumberAppend(a, b);
  }

  /** The example's three groups: two with the continue flag set, one without. */
  lemma ExampleGroups()
    ensures EncodeNibbles(ExamplePayload) ==
      [true, false, true, true, true, true, true, true, true, false, false, false, true, false, true]
  {
    var p1 := ExamplePayload[4..];
    var p2 := p1[4..];
    assert EncodeNibbles(p2) == [false] + p2;
    assert EncodeNibbles(p1) == [true] + p1[..4] + EncodeNibbles(p2);
  }

  /** A literal laid out field by field decodes to its payload's value. */
  lemma DecodeLiteralParts(input: seq<bool>, version: seq<bool>, typeBits: seq<bool>, payload: seq<bool>, rest: seq<bool>)
    requires |version| == 3 && typeBits == [true, false, false]
    requires |payload| >= 4 && |payload| % 4 == 0
    requires input == version + typeBits + EncodeNibbles(payload) + rest
    ensures Parse(input) == Some((6 + |EncodeNibbles(payload)|, Literal(ToNumber(payload))))
  {
    var groups := EncodeNibbles(payload);
    assert input[3..6] == typeBits by {
      assert input == version + typeBits + (groups + rest);
    }
    assert input[6..6 + |groups|] == groups;
    assert ToNumber(typeBits) == 4 by {
      var t1 := typeBits[1..];
      assert ToNumber(t1[1..]) == 0 by {
        assert t1[1..][1..] == [];
      }
      assert Pow2(2) == 4;
    }
    LiteralComplete(input, payload);
  }

  lemma ExampleDecodes()
    ensures Parse(ExampleBits) == Some((21, Literal(2021)))
  {
    ExampleGroups();
    assert ExampleBits == [true, true, false] + [true, false, false] + EncodeNibbles(ExamplePayload) + [false, false, false];
    DecodeLiteralParts(ExampleBits, [true, true, false], [true, false, false], ExamplePayload, [false, false, false]);
    ExamplePayloadValue();
  }

  /** The worked literal example of the puzzle: `D2FE28` is a literal of
      value 2021 written in three groups, 21 bits, followed by three bits of
      padding. */
  lemma LiteralExample()
    ensures Parse(Expand("D2FE28").value) == Some((21, Literal(2021)))
    ensures Run("D2FE28") == Success(2021)
  {
    ExampleExpands();
    ExampleDecodes();
  }
}
