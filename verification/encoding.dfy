/** An encoder for packet trees, the inverse of the decoder in src/main.rs:
    every tree whose length fields fit their widths is written out and read
    back unchanged. The encoder writes a zero version field and uses one
    length mode for every operator. */
module Encoding {
  import opened Wrappers
  import opened Bits
  import opened Decoder
  import opened DecoderFacts

  /** The version bits the encoder writes; the decoder never reads them. */
  const Version: seq<bool> := [false, false, false]

  /** The number of nibbles a literal's value is written in: at least one,
      and enough to hold the value. */
  function NibbleCount(v: nat): (k: nat)
    ensures k >= 1 && v < Pow2(4 * k)
  {
    Pow2Widths();
    if v < 16 then 1
    else
      var k := NibbleCount(v / 16);
      Pow2Add(4, 4 * k);
      1 + k
  }

  /** The payload bits of a literal: its value, big-endian, in whole nibbles. */
  function LiteralPayload(v: nat): (payload: seq<bool>)
    ensures |payload| >= 4 && |payload| % 4 == 0
    ensures ToNumber(payload) == v
  {
    var k := NibbleCount(v);
    ToNumberFromNumber(v, 4 * k);
    WholeNibbles(k);
    FromNumber(v, 4 * k)
  }

  lemma WholeNibbles(k: nat)
    ensures (4 * k) % 4 == 0
  {
  }

  /** The length-type bit and the length or count field of an operator
      whose children are encoded as `body`. */
  function LengthField(mode: LengthType, count: nat, body: seq<bool>): (r: seq<bool>)
  {
    match mode
    case Bytes => [false] + FromNumber(|body|, 15)
    case Packets => [true] + FromNumber(count, 11)
  }

  /** A packet tree written in the format the decoder reads, every operator
      using length mode `mode`. */
  function Encode(p: Packet, mode: LengthType): (r: seq<bool>)
    decreases p
  {
    match p
    case Literal(v) => Version + FromNumber(LiteralType, 3) + EncodeNibbles(LiteralPayload(v))
    case Operator(kind, cs) =>
      var body := EncodeAll(cs, mode);
      Version + FromNumber(KindCode(kind), 3) + LengthField(mode, |cs|, body) + body
  }

  /** Each child encoded on its own. */
  function EncodeEach(cs: seq<Packet>, mode: LengthType): (r: seq<seq<bool>>)
    decreases cs, 0
  {
    if |cs| == 0 then [] else [Encode(cs[0], mode)] + EncodeEach(cs[1..], mode)
  }

  /** Children written back to back. */
  function EncodeAll(cs: seq<Packet>, mode: LengthType): (r: seq<bool>)
    decreases cs, 1
  {
    Flatten(EncodeEach(cs, mode))
  }

  /** Every operator's length field fits: fewer than 2^15 child bits in
      total-length mode, fewer than 2^11 children in child-count mode. */
  predicate Encodable(p: Packet, mode: LengthType)
    decreases p
  {
    match p
    case Literal(_) => true
    case Operator(_, cs) =>
      && (mode == Bytes ==> |EncodeAll(cs, mode)| < Pow2(15))
      && (mode == Packets ==> |cs| < Pow2(11))
      && AllEncodable(cs, mode)
  }

  predicate AllEncodable(cs: seq<Packet>, mode: LengthType)
    decreases cs
  {
    |cs| == 0 || (Encodable(cs[0], mode) && AllEncodable(cs[1..], mode))
  }

  /** Decoding an encoded tree gives it back and takes exactly its bits,
      whatever follows it. */
  lemma {:induction false} ParseEncode(p: Packet, mode: LengthType, rest: seq<bool>)
    requires Encodable(p, mode)
    ensures Parse(Encode(p, mode) + rest) == Some((|Encode(p, mode)|, p))
    decreases p, 1
  {
    match p
    case Literal(v) =>
      ParseEncodeLiteral(v, mode, rest);
    case Operator(kind, cs) =>
      var typeBits := FromNumber(KindCode(kind), 3);
      var body := EncodeAll(cs, mode);
      var field := LengthField(mode, |cs|, body);
      assert Encode(p, mode) == Version + typeBits + field + body;
      Concat4(Version, typeBits, field, body, rest);
      LengthFieldWidth(mode, |cs|, body);
      EncodeEachDecodes(cs, mode);
      ParseOperatorBits(kind, cs, EncodeEach(cs, mode), mode, rest);
  }

  /** Every child's encoding decodes to that child on its own. */
  lemma {:induction false} EncodeEachDecodes(cs: seq<Packet>, mode: LengthType)
    requires AllEncodable(cs, mode)
    ensures DecodesEach(EncodeEach(cs, mode), cs)
    decreases cs, 0
  {
    var pieces := EncodeEach(cs, mode);
    EncodeEachLength(cs, mode);
    forall i, after | 0 <= i < |cs|
      ensures Parse(pieces[i] + after) == Some((|pieces[i]|, cs[i]))
    {
      EncodeEachAt(cs, mode, i);
      AllEncodableAt(cs, mode, i);
      ParseEncode(cs[i], mode, after);
    }
  }

  /** Where an operator's first child starts in each length mode. */
  function FirstChild(mode: LengthType): nat
  {
    match mode
    case Bytes => BytesHeader
    case Packets => PacketsHeader
  }

  /** The length-type bit and the field after it fill the header up to the
      first child. */
  lemma LengthFieldWidth(mode: LengthType, count: nat, body: seq<bool>)
    ensures 6 + |LengthField(mode, count, body)| == FirstChild(mode)
  {
  }

  lemma Concat4<T>(a: seq<T>, b: seq<T>, c: seq<T>, d: seq<T>, e: seq<T>)
    ensures a + b + c + d + e == a + b + (c + (d + e))
  {
  }

  /** The third of four pieces, found where the first two end. */
  lemma BodyAt<T>(a: seq<T>, b: seq<T>, c: seq<T>, d: seq<T>)
    ensures |a + (b + (c + d))| == |a| + |b| + |c| + |d|
    ensures (a + (b + (c + d)))[|a| + |b|..|a| + |b| + |c|] == c
  {
    assert (a + (b + (c + d)))[|a| + |b|..] == c + d;
  }

  /** An operator header followed by pieces that each decode on their own
      decodes to the operator over those pieces' packets. */
  lemma ParseOperatorBits(kind: OpKind, cs: seq<Packet>, pieces: seq<seq<bool>>, mode: LengthType, rest: seq<bool>)
    requires DecodesEach(pieces, cs)
    requires mode == Bytes ==> |Flatten(pieces)| < Pow2(15)
    requires mode == Packets ==> |cs| < Pow2(11)
    ensures var body := Flatten(pieces);
      Parse(Version + FromNumber(KindCode(kind), 3) + (LengthField(mode, |cs|, body) + (body + rest)))
      == Some((FirstChild(mode) + |body|, Operator(kind, cs)))
  {
    var body := Flatten(pieces);
    var typeBits := FromNumber(KindCode(kind), 3);
    var field := LengthField(mode, |cs|, body);
    var input := Version + typeBits + (field + (body + rest));
    BodyAt(Version + typeBits, field, body, rest);
    LengthFieldWidth(mode, |cs|, body);
    TileFlatten(input, FirstChild(mode), pieces, cs);
    match mode
    case Bytes =>
      ParseBytesOperator(kind, cs, body, rest);
    case Packets =>
      ParsePacketsOperator(kind, cs, body, rest);
  }

  lemma ParseEncodeLiteral(v: nat, mode: LengthType, rest: seq<bool>)
    ensures Parse(Encode(Literal(v), mode) + rest) == Some((|Encode(Literal(v), mode)|, Literal(v)))
  {
    var payload := LiteralPayload(v);
    var typeBits := FromNumber(LiteralType, 3);
    var e := EncodeNibbles(payload);
    assert Encode(Literal(v), mode) == Version + typeBits + e;
    LiteralLayout(typeBits, e, rest);
    Pow2Widths();
    ToNumberFromNumber(LiteralType, 3);
    LiteralComplete(Version + typeBits + e + rest, payload);
  }

  /** Where the decoder finds the fields of a literal the encoder wrote. */
  lemma LiteralLayout(typeBits: seq<bool>, groups: seq<bool>, rest: seq<bool>)
    requires |typeBits| == 3
    ensures var input := Version + typeBits + groups + rest;
      && |input| == 6 + |groups| + |rest|
      && input[3..6] == typeBits
      && input[6..6 + |groups|] == groups
  {
    var input := Version + typeBits + groups + rest;
    assert input[6..] == groups + rest;
  }

  /** Where the decoder finds the fields of a header the encoder wrote. */
  lemma HeaderFields(typeBits: seq<bool>, flag: bool, field: seq<bool>, tail: seq<bool>)
    requires |typeBits| == 3
    ensures var input := Version + typeBits + ([flag] + field + tail);
      && |input| == 7 + |field| + |tail|
      && input[3..6] == typeBits
      && input[6] == flag
      && input[7..7 + |field|] == field
  {
    var input := Version + typeBits + ([flag] + field + tail);
    assert input[7..] == field + tail;
  }

  /** One operator in total-length mode, given that its children's bits
      `body` decode back to back to `cs`. */
  lemma ParseBytesOperator(kind: OpKind, cs: seq<Packet>, body: seq<bool>, rest: seq<bool>)
    requires |body| < Pow2(15)
    requires var input := Version + FromNumber(KindCode(kind), 3) + (LengthField(Bytes, |cs|, body) + (body + rest));
      TileEnd(input, BytesHeader, cs) == Some(BytesHeader + |body|)
    ensures Parse(Version + FromNumber(KindCode(kind), 3) + (LengthField(Bytes, |cs|, body) + (body + rest)))
      == Some((BytesHeader + |body|, Operator(kind, cs)))
  {
    assert LengthField(Bytes, |cs|, body) + (body + rest) == [false] + FromNumber(|body|, 15) + (body + rest);
    HeaderFields(FromNumber(KindCode(kind), 3), false, FromNumber(|body|, 15), body + rest);
    Pow2Widths();
    ToNumberFromNumber(KindCode(kind), 3);
    ToNumberFromNumber(|body|, 15);
    ParseBytesComplete(Version + FromNumber(KindCode(kind), 3) + (LengthField(Bytes, |cs|, body) + (body + rest)), kind, cs);
  }

  /** One operator in child-count mode, given that its children's bits
      `body` decode back to back to `cs`. */
  lemma ParsePacketsOperator(kind: OpKind, cs: seq<Packet>, body: seq<bool>, rest: seq<bool>)
    requires |cs| < Pow2(11)
    requires var input := Version + FromNumber(KindCode(kind), 3) + (LengthField(Packets, |cs|, body) + (body + rest));
      TileEnd(input, PacketsHeader, cs) == Some(PacketsHeader + |body|)
    ensures Parse(Version + FromNumber(KindCode(kind), 3) + (LengthField(Packets, |cs|, body) + (body + rest)))
      == Some((PacketsHeader + |body|, Operator(kind, cs)))
  {
    assert LengthField(Packets, |cs|, body) + (body + rest) == [true] + FromNumber(|cs|, 11) + (body + rest);
    HeaderFields(FromNumber(KindCode(kind), 3), true, FromNumber(|cs|, 11), body + rest);
    Pow2Widths();
    ToNumberFromNumber(KindCode(kind), 3);
    ToNumberFromNumber(|cs|, 11);
    ParsePacketsComplete(Version + FromNumber(KindCode(kind), 3) + (LengthField(Packets, |cs|, body) + (body + rest)), kind, cs);
  }


  lemma {:induction false} EncodeEachLength(cs: seq<Packet>, mode: LengthType)
    ensures |EncodeEach(cs, mode)| == |cs|
    decreases cs
  {
    if |cs| > 0 {
      EncodeEachLength(cs[1..], mode);
    }
  }

  lemma {:induction false} EncodeEachAt(cs: seq<Packet>, mode: LengthType, i: nat)
    requires i < |cs|
    ensures |EncodeEach(cs, mode)| == |cs|
    ensures EncodeEach(cs, mode)[i] == Encode(cs[i], mode)
    decreases cs
  {
    EncodeEachLength(cs, mode);
    if i > 0 {
      EncodeEachAt(cs[1..], mode, i - 1);
    }
  }

  lemma {:induction false} AllEncodableAt(cs: seq<Packet>, mode: LengthType, i: nat)
    requires AllEncodable(cs, mode) && i < |cs|
    ensures Encodable(cs[i], mode)
    decreases cs
  {
    if i > 0 {
      AllEncodableAt(cs[1..], mode, i - 1);
    }
  }
}
