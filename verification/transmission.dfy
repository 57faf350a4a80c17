/** The whole pipeline of `main` in src/main.rs, without reading the input
    file or printing: a hexadecimal line is expanded to bits, the packet at
    bit 0 is decoded (bits after it are ignored) and evaluated. */
module Transmission {
  import opened Wrappers
  import opened Hex
  import opened Decoder
  import opened Encoding
  import opened Evaluator

  /** Why a line has no value; each is a panic in the source. */
  datatype Error =
    | InvalidDigit    // `from_hex(&c).unwrap()` on a character outside 0-9A-F
    | Truncated       // the decoder indexed or sliced past the end of the bits
    | MissingOperand  // a comparison without a first or second child

  function Run(line: string): (r: Result<nat, Error>)
    ensures r == Failure(InvalidDigit) <==> exists i :: 0 <= i < |line| && !IsHexDigit(line[i])
    ensures r == Failure(Truncated) <==> Expand(line).Some? && Parse(Expand(line).value).None?
    ensures r.Success? <==> Expand(line).Some? && Parse(Expand(line).value).Some? && Eval(Parse(Expand(line).value).value.1).Some?
    ensures r.Success? ==> Parse(Expand(line).value).Some? && Eval(Parse(Expand(line).value).value.1) == Some(r.value)
  {
    match Expand(line)
    case None => Failure(InvalidDigit)
    case Some(bits) =>
      match Parse(bits)
      case None => Failure(Truncated)
      case Some((_, packet)) =>
        match Eval(packet)
        case None => Failure(MissingOperand)
        case Some(v) => Success(v)
  }

  /** End to end: a well-formed tree, encoded, padded to whole hexadecimal
      digits and spelled in hexadecimal, runs to the tree's value. */
  lemma RunEncoded(p: Packet, mode: LengthType, padding: seq<bool>)
    requires Encodable(p, mode) && WellFormed(p)
    requires |Encode(p, mode) + padding| % 4 == 0
    ensures Eval(p).Some?
    ensures Run(ToHex(Encode(p, mode) + padding)) == Success(Eval(p).value)
  {
    var bits := Encode(p, mode) + padding;
    ExpandToHex(bits);
    ParseEncode(p, mode, padding);
    EvalWellFormed(p);
  }
}
