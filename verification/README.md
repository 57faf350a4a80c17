# BITS transmission decoder, modelled in Dafny

This project models `src/main.rs` of a puzzle solution ("Packet Decoder"). The program reads one line of hexadecimal text and does four things:

- It expands each digit into four bits (`from_hex`, and the fold in `main`).
- It decodes the packet that starts at bit 0 (`parse_packet`). A packet is a literal or an operator.
- A literal holds a number written in five-bit groups.
- An operator holds child packets. They are bounded either by their total length in bits or by their number.
- It evaluates the packet tree (`eval_packet`). The kinds are sum, product, minimum, maximum and three comparisons.

Modules:

- `Wrappers`: `Option` and `Result`.
- `Bits`: `to_number`, the big-endian reading of a bit slice (`ToNumber`). It also holds `FromNumber`, a fixed-width writer that acts as its inverse.
- `Hex`: `from_hex` is `FromHex`, driven by the same sixteen-row table as the source. The fold is `Expand`. `ToHex` is its inverse.
- `Decoder`: the `Packet` and `LengthType` data, and `parse_packet`. The decoder is `Parse`, with its branches `ParseLiteral` and `ParseOperator`, and the two child loops `ParseByLength` and `ParseByCount`.
  - The source panics on a slice or index past the end of its input. Here that is `None`.
  - The version field is never read, so `Packet` does not keep it.
- `DecoderFacts`: what the decoder promises, stated against two reference definitions:
  - `EncodeNibbles`, the literal group format;
  - `TileEnd`, where children decoded back to back end.
  
  It holds soundness and completeness for each branch, and shows the version bits are ignored. Literal soundness is against `EncodeNibbles` when the groups end on a clear flag. When they do not, `LiteralRunOut` states that the literal takes every remaining bit.
- `Encoding`: an encoder for packet trees, and the round trip. For every `p` and `mode` with `Encodable(p, mode)`, that is, each length field fits its width, `Parse(Encode(p, mode) + rest) == Some((|Encode(p, mode)|, p))`.
- `Evaluator`: `eval_packet` as `Eval`. It returns `None` where the source indexes a missing first or second child of a comparison. Each fold is related to an independent definition (sum, product, least, greatest).
- `Transmission`: `main` without the file and the printing: `Run` takes a line to a value or to the reason the source would panic.
- `WorkedExample`: the literal example `D2FE28` traced through the model.

Details of the code that the model keeps as they are:

- In total-length mode the code reads a 15-bit length `L` at bits 7..22. The first child starts at bit 22, and the packet reports `22 + L` bits.
- The total-length loop stops once the running total reaches `L`. It does not check that the children end exactly at `L`. The packet reports `22 + L` either way.
- The literal loop uses `chunks(5)`. If the bits run out while continue flags are still set, the literal takes every remaining bit, and the last group may be short; it is kept as it is. Six bits with no group at all decode to `Literal(0)`.

## Model

| member | source | states |
|---|---|---|
| Bits.ToNumber | src/main.rs:117-120 | the value of a bit string is below two to the power of its length |
| Bits.ToNumberIsShiftSum | src/main.rs:117-120 | the big-endian reading equals the source's sum of `1 << base` over the set bits, with `base` counted from the right end |
| Bits.ShiftSumScales | src/main.rs:117-120 | the shifted sum, started `base` places from the end, is the value times `2^base` |
| Bits.ToNumberAppend | src/main.rs:117-120 | the value of `a + c` is the value of `a` shifted past `c`, plus the value of `c` |
| Bits.ToNumberSnoc | src/main.rs:117-120 | appending a bit doubles the value and adds the bit |
| Bits.ToNumberFromNumber | src/main.rs:117-120 | every number below `2^w` is read back from its `w`-bit form |
| Bits.FromNumberToNumber | src/main.rs:117-120 | every bit string is rewritten exactly from its value at its own width |
| Hex.FromHex | src/main.rs:3-27 | a character has bits exactly when it is `0`-`9` or upper-case `A`-`F`; then it has four bits whose value is the digit's value |
| Hex.NibbleRow | src/main.rs:6-21 | row `k` of the table is the four-bit big-endian form of `k` |
| Hex.FromHexIsFourBitValue | src/main.rs:3-27 | a digit's bits are the four-bit form of its value |
| Hex.FromHexDigit | src/main.rs:3-27 | every four-bit group is the image of exactly the digit of its value |
| Hex.Expand | src/main.rs:142 | the expansion exists exactly when every character is a digit, and has four bits per character |
| Hex.ExpandAt | src/main.rs:142 | bits `4i` to `4i + 4` of the expansion are the bits of character `i` |
| Hex.ExpandToHex | src/main.rs:142 | expanding the hexadecimal spelling of a whole number of nibbles gives them back |
| Hex.ToHexExpand | src/main.rs:142 | a line that expands is the spelling of its expansion |
| Decoder.KindOf | src/main.rs:104-113 | an id maps to an operator kind exactly when it is a three-bit id other than 4, and the kind's code is that id |
| Decoder.TypeIdAlwaysMapped | src/main.rs:104-113 | a type id read from three bits is the literal id or an operator id, so the panic arm at line 112 is never reached |
| Decoder.LiteralGroups | src/main.rs:54-61 | the group loop consumes no more than the bits there are, and consumes nothing only when there is nothing |
| Decoder.Parse | src/main.rs:46-115 | a decoded packet takes at least the six header bits and no more bits than the input holds |
| Decoder.ParseLiteral | src/main.rs:50-66 | the literal branch yields a literal and takes between 6 and all bits |
| Decoder.ParseOperator | src/main.rs:68-113 | the operator branch yields an operator and takes between 6 and all bits; the type id in bits 3..6 is not the literal id, and it is the code of the decoded kind |
| Decoder.ParseByLength | src/main.rs:74-87 | in total-length mode the packet reports `22 + L`, which fits the input, and the children decoded so far are kept in order |
| Decoder.ParseByCount | src/main.rs:88-101 | in child-count mode exactly `N` children are collected, the cursor only moves forward, and earlier children are kept in order |
| DecoderFacts.LiteralGroupsEncoded | src/main.rs:54-61 | the group loop reads exactly the groups of a well-formed literal and keeps exactly its payload, whatever follows |
| DecoderFacts.LiteralGroupsSound | src/main.rs:54-61 | when the groups end on a clear flag, the bits read are a well-formed literal of the kept payload |
| DecoderFacts.LiteralComplete | src/main.rs:50-65 | a type-4 packet with well-formed groups decodes to the value of its payload and takes 6 bits plus 5 per group; its groups end on a clear flag, so the literal soundness statement applies to it |
| DecoderFacts.LiteralGroupsRunOut | src/main.rs:54-61 | when no group with a clear flag is reached, the group loop takes every remaining bit |
| DecoderFacts.LiteralRunOut | src/main.rs:50-65 | a type-4 packet whose groups never end on a clear flag decodes to a literal taking every bit of the input |
| DecoderFacts.LiteralSound | src/main.rs:50-65 | a decoded literal had type id 4; if its groups end on a clear flag, its value is that of the payload of the groups read |
| DecoderFacts.ByLengthSound | src/main.rs:77-86 | the total-length loop keeps its invariant: children back to back from bit 22, those before the last ending below `22 + L` so that every child starts below it, as the guard `running_length < length` demands, and the running total at least `L` on exit |
| DecoderFacts.ParseBytesSound | src/main.rs:74-87 | total-length mode yields the kind coded in bits 3..6 and reports `22 + L` for the 15-bit `L` at bits 7..22; children sit back to back from bit 22 and end at or after `22 + L`; the children before the last end below `22 + L`, so every child starts below it; there are no children exactly when `L` is 0 |
| DecoderFacts.ByCountSound | src/main.rs:91-100 | the child-count loop keeps its children back to back from bit 18 and ends where they end |
| DecoderFacts.ParsePacketsSound | src/main.rs:88-101 | child-count mode yields the kind coded in bits 3..6 and exactly `N` children for the 11-bit `N` at bits 7..18; they sit back to back from bit 18, and the packet reports where the last one ends |
| DecoderFacts.ByLengthComplete | src/main.rs:77-86 | children that tile the declared length are all decoded, in order |
| DecoderFacts.ByCountComplete | src/main.rs:91-100 | `N` children back to back are all decoded, in order, and the cursor ends after them |
| DecoderFacts.ParseBytesComplete | src/main.rs:74-87 | an operator header whose children tile exactly `L` bits decodes to those children and takes `22 + L` bits |
| DecoderFacts.ParsePacketsComplete | src/main.rs:88-101 | an operator header followed by `N` back-to-back children decodes to them and ends where they end |
| DecoderFacts.ByLengthIgnoresVersion | src/main.rs:77-86 | the total-length loop does not depend on bits 0..3 |
| DecoderFacts.ByCountIgnoresVersion | src/main.rs:91-100 | the child-count loop does not depend on bits 0..3 |
| DecoderFacts.ParseIgnoresVersion | src/main.rs:46-115 | inputs that differ only in the version bits decode identically |
| DecoderFacts.OperatorIgnoresVersion | src/main.rs:68-113 | the operator branch does not depend on the version bits |
| DecoderFacts.KindCodeRoundTrip | src/main.rs:104-111 | each operator kind is decoded from its own type id |
| Encoding.LiteralPayload | src/main.rs:117-120 | every value has a payload of whole nibbles whose big-endian reading is that value |
| Encoding.ParseEncodeLiteral | src/main.rs:50-65 | an encoded literal decodes to itself and takes exactly its encoding, whatever follows |
| Encoding.ParseBytesOperator | src/main.rs:74-87 | a total-length operator header with decodable children decodes to those children and takes exactly header and body |
| Encoding.ParsePacketsOperator | src/main.rs:88-101 | a child-count operator header with decodable children decodes to those children and takes exactly header and body |
| Encoding.ParseOperatorBits | src/main.rs:68-113 | an operator laid out as header, length field and back-to-back children decodes to its kind and children in either mode |
| Encoding.EncodeEachDecodes | src/main.rs:80-97 | each encoded child decodes to itself, taking exactly its own bits, whatever follows |
| Encoding.ParseEncode | src/main.rs:46-115 | for a tree whose length fields all fit their widths (11 bits for a count, 15 for a length), decoding its encoding gives it back and takes exactly its encoding, whatever follows |
| Evaluator.Compare | src/main.rs:130-132 | a comparison yields 1 exactly when it holds, else 0 |
| Evaluator.Eval | src/main.rs:122-134 | a literal evaluates to its value; a comparison evaluates only with two children and to at most 1 |
| Evaluator.EvalAll | src/main.rs:125-128 | the children's values exist exactly when every child evaluates, and are their values in order |
| Evaluator.FoldSnoc | src/main.rs:125-128 | folding one more value is one more step |
| Evaluator.EvalFoldSnoc | src/main.rs:125-128 | a fold operator with one more child takes one more left-to-right step from the value of the shorter list |
| Evaluator.FoldSum | src/main.rs:125 | the `Sum` fold adds the arithmetic total to its seed |
| Evaluator.FoldProduct | src/main.rs:126 | the `Product` fold multiplies its seed by the arithmetic product |
| Evaluator.ProdZero | src/main.rs:126 | a product is zero exactly when some factor is |
| Evaluator.FoldMin | src/main.rs:127 | the `Min` fold is at most its seed and every value, and is one of them |
| Evaluator.FoldMax | src/main.rs:128 | the `Max` fold is at least its seed and every value, and is one of them |
| Evaluator.EvalSum | src/main.rs:125 | a sum operator evaluates to the sum of its children's values |
| Evaluator.EvalProduct | src/main.rs:126 | a product operator evaluates to the product of its children's values, zero exactly when some child's is |
| Evaluator.EvalMin | src/main.rs:127 | a minimum operator is at most every child's value, with children whose values fit a `usize` it is one of them, and with no children it is `usize::MAX` |
| Evaluator.EvalMax | src/main.rs:128 | a maximum operator is at least every child's value and, with children, equals one of them; with none it is 0 |
| Evaluator.EvalComparison | src/main.rs:130-132 | a comparison evaluates its first two children only, to 1 exactly when the relation holds |
| Evaluator.EvalWellFormed | src/main.rs:122-134 | a tree whose comparisons all have two children always evaluates |
| Transmission.Run | src/main.rs:142-146 | a line fails on an invalid digit exactly when it has one, fails as truncated exactly when its bits do not decode, and succeeds exactly when its bits decode and the packet at bit 0 evaluates, with that packet's value |
| Transmission.RunEncoded | src/main.rs:142-146 | a well-formed tree, encoded, padded to whole digits and spelled in hexadecimal, runs to the tree's value |
| WorkedExample.ExampleExpands | src/main.rs:142 | `D2FE28` expands to its 24 bits |
| WorkedExample.ExamplePayloadValue | src/main.rs:117-120 | the payload `7E5` reads as 2021 |
| WorkedExample.ExampleDecodes | src/main.rs:50-65 | the example's bits decode to `Literal(2021)` taking 21 bits |
| WorkedExample.LiteralExample | src/main.rs:142-146 | `D2FE28` decodes to `Literal(2021)` taking 21 bits and runs to 2021 |

## Left out

- Reading `input.txt` and printing the result (lines 139-140 and 148) are left out. `Run` takes the first line as its argument and returns the value.
- Fixed-width integers: the model uses unbounded naturals throughout. So it does not model two things:
  - `1 << base` for a slice longer than 64 bits in `to_number`;
  - `usize` overflow in the `Sum` and `Product` folds or in the running totals.
- Bits.ToNumber: bits beyond the 64th are read as ordinary powers of two, whereas the source's `1 << base` overflows there.
- Evaluator.EvalSum: the sum is exact; the source's `+` on `usize` overflows past `usize::MAX`.
- Evaluator.EvalProduct: the product is exact; the source's `*` on `usize` overflows past `usize::MAX`.
- Evaluator.EvalMin: "is one of the children's values" is stated only when every value is at most `usize::MAX`. This is because the fold starts from `usize::MAX`, and unbounded naturals can exceed it.
- Panics are error values. Slicing or indexing past the end gives `None` in the decoder. A missing comparison operand gives `None` in the evaluator. An invalid digit gives `None` in the expansion. `Run` names each case.
- The `panic!` arm for an unknown type id is modelled as a `None` arm that `Decoder.TypeIdAlwaysMapped` shows is never taken.
- The version field (bits 0..3) is skipped by the source and not kept in `Packet`. `DecoderFacts.ParseIgnoresVersion` states that it has no effect.
- Encoding.ParseEncode: the round trip holds only for trees whose length fields fit their widths (`Encodable`); a wider count or length wraps in its field and decodes differently. The encoder writes version 0 and uses one length mode for the whole tree. The round trip therefore covers those encodings. Other versions are covered through `DecoderFacts.ParseIgnoresVersion`. Mixed-mode trees are covered by the per-mode completeness lemmas.
- `#[derive(Clone, Debug)]` on `Packet` has no counterpart.
