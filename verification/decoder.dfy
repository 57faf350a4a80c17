/** The recursive packet decoder (`Packet`, `LengthType` and `parse_packet`
    in src/main.rs). A call decodes the packet at the start of a bit slice
    and reports how many bits it took; a child is decoded from the suffix
    slice that starts where its parent's cursor stands. */
module Decoder {
  import opened Wrappers
  import opened Bits

  /** The seven operator packet types. */
  datatype OpKind = Sum | Product | Min | Max | Gt | Lt | Eq

  /** A decoded packet. The version field is never read, so it is not kept. */
  datatype Packet = Literal(value: nat) | Operator(kind: OpKind, children: seq<Packet>)

  /** How an operator bounds its children: by their total length in bits
      (`Bytes`, the source's name for it) or by their number. */
  datatype LengthType = Bytes | Packets

  /** The type id of a literal packet. */
  const LiteralType: nat := 4

  /** Offset of the first child in each length mode: 3 version bits, 3 type
      bits, the length-type bit and a 15-bit length or an 11-bit count. */
  const BytesHeader: nat := 22
  const PacketsHeader: nat := 18

  /** The type id written for an operator kind. */
  function KindCode(k: OpKind): (code: nat)
    ensures code < 8 && code != LiteralType
  {
    match k
    case Sum => 0
    case Product => 1
    case Min => 2
    case Max => 3
    case Gt => 5
    case Lt => 6
    case Eq => 7
  }

  /** The final `match type_part` of the decoder: every three-bit id other
      than the literal id names an operator, so the panic arm is unreachable. */
  function KindOf(code: nat): (r: Option<OpKind>)
    ensures r.Some? <==> code < 8 && code != LiteralType
    ensures r.Some? ==> KindCode(r.value) == code
  {
    match code
    case 0 => Some(Sum)
    case 1 => Some(Product)
    case 2 => Some(Min)
    case 3 => Some(Max)
    case 5 => Some(Gt)
    case 6 => Some(Lt)
    case 7 => Some(Eq)
    case _ => None
  }

  /** The literal loop over `input[6..].chunks(5)`: each chunk is counted in
      full and its bits after the first are kept; the loop stops after the
      first chunk whose first bit is clear, or when the bits run out (the
      last chunk may then be shorter than five). Returns the bits consumed
      and the kept payload bits. */
  function LiteralGroups(rest: seq<bool>): (r: (nat, seq<bool>))
    ensures r.0 <= |rest|
    ensures r.0 == 0 <==> |rest| == 0
  {
    if |rest| == 0 then (0, [])
    else
      var size := if |rest| < 5 then |rest| else 5;
      var chunk := rest[..size];
      if !chunk[0] then (size, chunk[1..])
      else
        var (n, payload) := LiteralGroups(rest[size..]);
        (size + n, chunk[1..] + payload)
  }

  /** `parse_packet`: `None` where the source would index or slice past the
      end of its input. On success the reported length is at least the six
      header bits and never more than the input holds. */
  function Parse(input: seq<bool>): (r: Option<(nat, Packet)>)
    ensures r.Some? ==> 6 <= r.value.0 <= |input|
    decreases |input|, 2
  {
    if |input| < 6 then None
    else if ToNumber(input[3..6]) == LiteralType then Some(ParseLiteral(input))
    else ParseOperator(input)
  }

  /** The literal branch: five-bit groups from bit 6; the value is the
      big-endian reading of the kept payload bits. */
  function ParseLiteral(input: seq<bool>): (r: (nat, Packet))
    requires |input| >= 6
    ensures 6 <= r.0 <= |input| && r.1.Literal?
  {
    var (n, payload) := LiteralGroups(input[6..]);
    (6 + n, Literal(ToNumber(payload)))
  }

  /** The operator branch: bit 6 selects the length type, whose loop decodes
      the children; the type id then selects the operator kind. */
  function ParseOperator(input: seq<bool>): (r: Option<(nat, Packet)>)
    requires |input| >= 6
    ensures r.Some? ==> 6 <= r.value.0 <= |input| && r.value.1.Operator?
    ensures r.Some? ==> ToNumber(input[3..6]) != LiteralType && KindCode(r.value.1.kind) == ToNumber(input[3..6])
    decreases |input|, 1
  {
    if |input| < 7 then None
    else
      var typeId := ToNumber(input[3..6]);
      var lengthType := if input[6] then Packets else Bytes;
      var content: Option<(nat, seq<Packet>)> :=
        match lengthType
        case Bytes =>
          if |input| < BytesHeader then None
          else ParseByLength(input, ToNumber(input[7..BytesHeader]), 0, [])
        case Packets =>
          if |input| < PacketsHeader then None
          else ParseByCount(input, ToNumber(input[7..PacketsHeader]), PacketsHeader, []);
      match content
      case None => None
      case Some((n, children)) =>
        match KindOf(typeId)
        case Some(kind) => Some((n, Operator(kind, children)))
        case None => None  // the `panic!` arm; `TypeIdAlwaysMapped` shows it is never taken
  }

  /** Every type id read from three bits is either the literal id or an
      operator id, so decoding never reaches the panic arm. */
  lemma TypeIdAlwaysMapped(input: seq<bool>)
    requires |input| >= 6
    ensures ToNumber(input[3..6]) == LiteralType || KindOf(ToNumber(input[3..6])).Some?
  {
    Pow2Widths();
  }

  /** The total-length loop: children are decoded back to back from bit 22
      while the running total of their lengths is below `length`; the packet
      then reports `22 + length`, whatever the children took. */
  function ParseByLength(input: seq<bool>, length: nat, running: nat, acc: seq<Packet>): (r: Option<(nat, seq<Packet>)>)
    requires BytesHeader + running <= |input|
    ensures r.Some? ==> r.value.0 == BytesHeader + length <= |input|
    ensures r.Some? ==> |acc| <= |r.value.1| && r.value.1[..|acc|] == acc
    decreases |input|, 0, |input| - running
  {
    if running < length then
      match Parse(input[BytesHeader + running..])
      case None => None
      case Some((consumed, p)) => ParseByLength(input, length, running + consumed, acc + [p])
    else Some((BytesHeader + length, acc))
  }

  /** The child-count loop: children are decoded back to back from `index`
      until there are `count` of them; the packet reports where the cursor
      ends. */
  function ParseByCount(input: seq<bool>, count: nat, index: nat, acc: seq<Packet>): (r: Option<(nat, seq<Packet>)>)
    requires PacketsHeader <= index <= |input|
    ensures r.Some? ==> index <= r.value.0 <= |input|
    ensures r.Some? ==> |r.value.1| == if |acc| < count then count else |acc|
    ensures r.Some? ==> r.value.1[..|acc|] == acc
    decreases |input|, 0, |input| - index
  {
    if |acc| < count then
      match Parse(input[index..])
      case None => None
      case Some((consumed, p)) => ParseByCount(input, count, index + consumed, acc + [p])
    else Some((index, acc))
  }
}
