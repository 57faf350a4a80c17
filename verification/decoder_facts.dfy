/** What the decoder in src/main.rs promises, stated against two reference
    definitions: the literal group format, and where children decoded back
    to back in the bit string end. */
module DecoderFacts {
  import opened Wrappers
  import opened Bits
  import opened Decoder

  /** The literal group format: a payload of whole nibbles, each preceded by
      a continue flag that is set on every group but the last. */
  function EncodeNibbles(payload: seq<bool>): (r: seq<bool>)
    requires |payload| >= 4 && |payload| % 4 == 0
    ensures 4 * |r| == 5 * |payload|
  {
    if |payload| == 4 then [false] + payload
    else [true] + payload[..4] + EncodeNibbles(payload[4..])
  }

  /** The group loop reads exactly the groups of a well-formed literal and
      keeps exactly their payload, whatever follows. */
  lemma {:induction false} LiteralGroupsEncoded(payload: seq<bool>, rest: seq<bool>)
    requires |payload| >= 4 && |payload| % 4 == 0
    ensures LiteralGroups(EncodeNibbles(payload) + rest) == (|EncodeNibbles(payload)|, payload)
  {
    var input := EncodeNibbles(payload) + rest;
    assert input[..5] == EncodeNibbles(payload)[..5];
    if |payload| > 4 {
      assert input[5..] == EncodeNibbles(payload[4..]) + rest;
      LiteralGroupsEncoded(payload[4..], rest);
      assert input[..5][1..] + payload[4..] == payload;
    }
  }

  /** The groups of `rest` end with a full group whose continue flag is
      clear, rather than running out of bits first. */
  ghost predicate EndsOnClearFlag(rest: seq<bool>)
    decreases |rest|
  {
    |rest| >= 5 && (!rest[0] || EndsOnClearFlag(rest[5..]))
  }

  /** When the groups end on a clear continue flag, the bits the loop read
      are a well-formed literal of the payload it kept. */
  lemma {:induction false} LiteralGroupsSound(rest: seq<bool>)
    requires EndsOnClearFlag(rest)
    ensures var (n, payload) := LiteralGroups(rest);
      |payload| >= 4 && |payload| % 4 == 0 && rest[..n] == EncodeNibbles(payload)
  {
    var (n, payload) := LiteralGroups(rest);
    if rest[0] {
      var (m, tail) := LiteralGroups(rest[5..]);
      assert n == 5 + m && payload == rest[1..5] + tail;
      LiteralGroupsSound(rest[5..]);
      assert rest[..n] == [true] + rest[1..5] + rest[5..][..m];
      assert payload[..4] == rest[1..5] && payload[4..] == tail;
    } else {
      assert rest[..5] == [false] + payload;
    }
  }

  /** A well-formed literal ends on a clear flag. */
  lemma {:induction false} EncodedEndsOnClearFlag(payload: seq<bool>, rest: seq<bool>)
    requires |payload| >= 4 && |payload| % 4 == 0
    ensures EndsOnClearFlag(EncodeNibbles(payload) + rest)
  {
    if |payload| > 4 {
      var input := EncodeNibbles(payload) + rest;
      assert input[5..] == EncodeNibbles(payload[4..]) + rest;
      EncodedEndsOnClearFlag(payload[4..], rest);
    }
  }

  /** Decoding a type-4 header takes the literal branch. */
  lemma ParseTakesLiteralBranch(input: seq<bool>)
    requires |input| >= 6 && ToNumber(input[3..6]) == LiteralType
    ensures Parse(input) == Some(ParseLiteral(input))
  {
  }

  /** A type-4 packet whose groups form a well-formed literal decodes to the
      big-endian value of its payload and takes six header bits plus five
      bits for each of its `|payload| / 4` groups. Its groups end on a clear
      flag, so `LiteralSound` applies to it. */
  lemma LiteralComplete(input: seq<bool>, payload: seq<bool>)
    requires |payload| >= 4 && |payload| % 4 == 0
    requires 6 + |EncodeNibbles(payload)| <= |input|
    requires ToNumber(input[3..6]) == LiteralType
    requires input[6..6 + |EncodeNibbles(payload)|] == EncodeNibbles(payload)
    ensures Parse(input) == Some((6 + |EncodeNibbles(payload)|, Literal(ToNumber(payload))))
    ensures Parse(input).value.0 == 6 + 5 * (|payload| / 4)
    ensures EndsOnClearFlag(input[6..])
  {
    var groups := |payload| / 4;
    assert |payload| == 4 * groups;
    var k := |EncodeNibbles(payload)|;
    assert input[6..] == EncodeNibbles(payload) + input[6 + k..];
    LiteralGroupsEncoded(payload, input[6 + k..]);
    EncodedEndsOnClearFlag(payload, input[6 + k..]);
    ParseTakesLiteralBranch(input);
  }

  /** When the bits run out before a group with a clear flag, the group
      loop takes every remaining bit, the last group possibly short. */
  lemma {:induction false} LiteralGroupsRunOut(rest: seq<bool>)
    requires !EndsOnClearFlag(rest)
    ensures LiteralGroups(rest).0 == |rest|
    decreases |rest|
  {
    if |rest| >= 5 && rest[0] {
      LiteralGroupsRunOut(rest[5..]);
    }
  }

  /** A type-4 packet whose groups never end on a clear flag takes all the
      bits of its input. */
  lemma LiteralRunOut(input: seq<bool>)
    requires |input| >= 6 && ToNumber(input[3..6]) == LiteralType
    requires !EndsOnClearFlag(input[6..])
    ensures Parse(input).Some? && Parse(input).value.0 == |input| && Parse(input).value.1.Literal?
  {
    LiteralGroupsRunOut(input[6..]);
    ParseTakesLiteralBranch(input);
  }

  /** A decoded literal came from a type-4 header; if its groups end on a
      clear flag, the bits read are a well-formed literal of some payload
      whose big-endian value is the literal's value. */
  lemma LiteralSound(input: seq<bool>)
    requires Parse(input).Some? && Parse(input).value.1.Literal?
    ensures |input| >= 6 && ToNumber(input[3..6]) == LiteralType
    ensures var (n, p) := Parse(input).value;
      EndsOnClearFlag(input[6..]) ==>
        exists payload :: |payload| >= 4 && |payload| % 4 == 0 &&
          input[6..n] == EncodeNibbles(payload) && p.value == ToNumber(payload)
  {
    ParseTakesLiteralBranch(input);
    var (n, p) := Parse(input).value;
    if EndsOnClearFlag(input[6..]) {
      var rest := input[6..];
      var (m, payload) := LiteralGroups(rest);
      LiteralGroupsSound(rest);
      assert input[6..n] == rest[..m];
    }
  }

  /** Where decoding `cs` back to back from bit `from` ends, if each child
      decodes there as the given packet. */
  ghost function TileEnd(input: seq<bool>, from: nat, cs: seq<Packet>): Option<nat>
    decreases |cs|
  {
    if |cs| == 0 then Some(from)
    else if |input| < from then None
    else
      match Parse(input[from..])
      case None => None
      case Some((consumed, p)) => if p == cs[0] then TileEnd(input, from + consumed, cs[1..]) else None
  }

  /** Back-to-back children take at least six bits each and stay inside the input. */
  lemma {:induction false} TileEndBounds(input: seq<bool>, from: nat, cs: seq<Packet>)
    requires TileEnd(input, from, cs).Some?
    ensures from + 6 * |cs| <= TileEnd(input, from, cs).value
    ensures |cs| > 0 ==> TileEnd(input, from, cs).value <= |input|
    decreases |cs|
  {
    if |cs| > 0 {
      var (consumed, p) := Parse(input[from..]).value;
      TileEndBounds(input, from + consumed, cs[1..]);
    }
  }

  /** Decoding one more child where the others end extends the tiling. */
  lemma {:induction false} TileEndSnoc(input: seq<bool>, from: nat, cs: seq<Packet>, p: Packet)
    requires TileEnd(input, from, cs).Some?
    requires TileEnd(input, from, cs).value <= |input|
    requires Parse(input[TileEnd(input, from, cs).value..]).Some?
    requires Parse(input[TileEnd(input, from, cs).value..]).value.1 == p
    ensures TileEnd(input, from, cs + [p]) ==
      Some(TileEnd(input, from, cs).value + Parse(input[TileEnd(input, from, cs).value..]).value.0)
    decreases |cs|
  {
    if |cs| > 0 {
      var (consumed, q) := Parse(input[from..]).value;
      assert (cs + [p])[1..] == cs[1..] + [p];
      TileEndSnoc(input, from + consumed, cs[1..], p);
    }
  }

  /** Pieces of bits written back to back. */
  function Flatten(pieces: seq<seq<bool>>): seq<bool>
  {
    if |pieces| == 0 then [] else pieces[0] + Flatten(pieces[1..])
  }

  /** Each piece decodes to the matching packet and takes exactly its own
      bits, whatever follows it. */
  ghost predicate DecodesEach(pieces: seq<seq<bool>>, cs: seq<Packet>)
  {
    && |pieces| == |cs|
    && forall i, rest {:trigger Parse(pieces[i] + rest)} :: 0 <= i < |cs| ==> Parse(pieces[i] + rest) == Some((|pieces[i]|, cs[i]))
  }

  /** Pieces that each decode on their own, placed back to back at `from`,
      tile the input with their packets and end where the last piece ends. */
  lemma {:induction false} TileFlatten(input: seq<bool>, from: nat, pieces: seq<seq<bool>>, cs: seq<Packet>)
    requires DecodesEach(pieces, cs)
    requires from + |Flatten(pieces)| <= |input|
    requires input[from..from + |Flatten(pieces)|] == Flatten(pieces)
    ensures TileEnd(input, from, cs) == Some(from + |Flatten(pieces)|)
    decreases |cs|
  {
    if |cs| > 0 {
      var head := pieces[0];
      var tail := Flatten(pieces[1..]);
      SplitAt(input, from, head, tail);
      PrefixAt(input, from, head);
      assert Parse(head + input[from + |head|..]) == Some((|head|, cs[0]));
      assert Parse(input[from..]) == Some((|head|, cs[0]));
      assert DecodesEach(pieces[1..], cs[1..]) by {
        forall i, rest | 0 <= i < |cs| - 1
          ensures Parse(pieces[1..][i] + rest) == Some((|pieces[1..][i]|, cs[1..][i]))
        {
          assert pieces[1..][i] == pieces[i + 1];
        }
      }
      TileFlatten(input, from + |head|, pieces[1..], cs[1..]);
      TileEndCons(input, from, cs, |head|, from + |head| + |tail|);
    }
  }

  /** Unfolds `TileEnd` by one child. */
  lemma TileEndCons(input: seq<bool>, from: nat, cs: seq<Packet>, consumed: nat, end: nat)
    requires |cs| > 0 && from <= |input|
    requires Parse(input[from..]) == Some((consumed, cs[0]))
    requires TileEnd(input, from + consumed, cs[1..]) == Some(end)
    ensures TileEnd(input, from, cs) == Some(end)
  {
  }

  /** Two pieces found together at `from` are found one after the other. */
  lemma SplitAt(input: seq<bool>, from: nat, head: seq<bool>, tail: seq<bool>)
    requires from + |head| + |tail| <= |input|
    requires input[from..from + |head| + |tail|] == head + tail
    ensures input[from..from + |head|] == head
    ensures input[from + |head|..from + |head| + |tail|] == tail
  {
    var all := input[from..from + |head| + |tail|];
    assert input[from..from + |head|] == all[..|head|] == head;
    assert input[from + |head|..from + |head| + |tail|] == all[|head|..] == tail;
  }

  /** A piece found at `from` is followed by the rest of the input. */
  lemma PrefixAt(input: seq<bool>, from: nat, head: seq<bool>)
    requires from + |head| <= |input|
    requires input[from..from + |head|] == head
    ensures input[from..] == head + input[from + |head|..]
  {
  }

  /** Loop invariant of the total-length loop: the children so far sit back to
      back from bit 22 up to `22 + running`, and the children before the last
      end below `22 + length`, so every child started below `22 + length`,
      as the loop guard demands. */
  ghost predicate ByLengthState(input: seq<bool>, length: nat, running: nat, acc: seq<Packet>)
  {
    && TileEnd(input, BytesHeader, acc) == Some(BytesHeader + running)
    && (|acc| > 0 ==> exists m :: TileEnd(input, BytesHeader, acc[..|acc| - 1]) == Some(m) && m < BytesHeader + length)
    && (|acc| == 0 ==> running == 0)
  }

  lemma {:induction false} ByLengthSound(input: seq<bool>, length: nat, running: nat, acc: seq<Packet>)
    requires BytesHeader + running <= |input|
    requires ByLengthState(input, length, running, acc)
    requires ParseByLength(input, length, running, acc).Some?
    ensures var (n, cs) := ParseByLength(input, length, running, acc).value;
      exists total :: length <= total && ByLengthState(input, length, total, cs)
    decreases |input| - running
  {
    if running < length {
      var (consumed, p) := Parse(input[BytesHeader + running..]).value;
      TileEndSnoc(input, BytesHeader, acc, p);
      assert (acc + [p])[..|acc|] == acc;
      ByLengthSound(input, length, running + consumed, acc + [p]);
    } else {
      assert length <= running && ByLengthState(input, length, running, acc);
    }
  }

  /** Total-length mode, as decoded: the packet reports `22 + L` for the
      15-bit length `L` at bits 7..22; its children sit back to back from
      bit 22 and end at or after `22 + L`; the children before the last end
      below `22 + L`, so every child started below it; and there are no children exactly when `L` is 0. The
      kind is the one whose code sits in bits 3..6. */
  lemma ParseBytesSound(input: seq<bool>)
    requires Parse(input).Some? && Parse(input).value.1.Operator?
    requires |input| > 6 && !input[6]
    ensures |input| >= BytesHeader
    ensures var (n, p) := Parse(input).value;
      var length := ToNumber(input[7..BytesHeader]);
      && ToNumber(input[3..6]) != LiteralType && KindCode(p.kind) == ToNumber(input[3..6])
      && n == BytesHeader + length
      && (exists e :: BytesHeader + length <= e && TileEnd(input, BytesHeader, p.children) == Some(e))
      && (|p.children| > 0 ==> exists m :: TileEnd(input, BytesHeader, p.children[..|p.children| - 1]) == Some(m) && m < n)
      && (|p.children| == 0 <==> length == 0)
  {
    var length := ToNumber(input[7..BytesHeader]);
    var (n, p) := Parse(input).value;
    assert ByLengthState(input, length, 0, []);
    ByLengthSound(input, length, 0, []);
    var total :| length <= total && ByLengthState(input, length, total, p.children);
    if |p.children| > 0 {
      TileEndBounds(input, BytesHeader, p.children[..|p.children| - 1]);
    }
  }

  lemma {:induction false} ByCountSound(input: seq<bool>, count: nat, index: nat, acc: seq<Packet>)
    requires PacketsHeader <= index <= |input|
    requires TileEnd(input, PacketsHeader, acc) == Some(index)
    requires ParseByCount(input, count, index, acc).Some?
    ensures var (n, cs) := ParseByCount(input, count, index, acc).value;
      TileEnd(input, PacketsHeader, cs) == Some(n)
    decreases |input| - index
  {
    if |acc| < count {
      var (consumed, p) := Parse(input[index..]).value;
      TileEndSnoc(input, PacketsHeader, acc, p);
      ByCountSound(input, count, index + consumed, acc + [p]);
    }
  }

  /** Child-count mode, as decoded: exactly `N` children for the 11-bit count
      `N` at bits 7..18, back to back from bit 18, and the packet reports
      where the last of them ends, that is 18 plus their lengths. The kind is
      the one whose code sits in bits 3..6. */
  lemma ParsePacketsSound(input: seq<bool>)
    requires Parse(input).Some? && Parse(input).value.1.Operator?
    requires |input| > 6 && input[6]
    ensures |input| >= PacketsHeader
    ensures var (n, p) := Parse(input).value;
      && ToNumber(input[3..6]) != LiteralType && KindCode(p.kind) == ToNumber(input[3..6])
      && |p.children| == ToNumber(input[7..PacketsHeader])
      && TileEnd(input, PacketsHeader, p.children) == Some(n)
  {
    ByCountSound(input, ToNumber(input[7..PacketsHeader]), PacketsHeader, []);
  }

  lemma {:induction false} ByLengthComplete(input: seq<bool>, length: nat, running: nat, acc: seq<Packet>, cs: seq<Packet>)
    requires BytesHeader + running <= |input|
    requires TileEnd(input, BytesHeader + running, cs) == Some(BytesHeader + length)
    ensures ParseByLength(input, length, running, acc) == Some((BytesHeader + length, acc + cs))
    decreases |cs|
  {
    TileEndBounds(input, BytesHeader + running, cs);
    if |cs| == 0 {
      assert acc + cs == acc;
    } else {
      var (consumed, p) := Parse(input[BytesHeader + running..]).value;
      assert acc + cs == (acc + [p]) + cs[1..];
      ByLengthComplete(input, length, running + consumed, acc + [p], cs[1..]);
    }
  }

  lemma {:induction false} ByCountComplete(input: seq<bool>, count: nat, index: nat, acc: seq<Packet>, cs: seq<Packet>)
    requires PacketsHeader <= index <= |input|
    requires |acc| + |cs| == count
    requires TileEnd(input, index, cs).Some?
    ensures ParseByCount(input, count, index, acc) == Some((TileEnd(input, index, cs).value, acc + cs))
    decreases |cs|
  {
    if |cs| == 0 {
      assert acc + cs == acc;
    } else {
      TileEndBounds(input, index, cs);
      var (consumed, p) := Parse(input[index..]).value;
      assert acc + cs == (acc + [p]) + cs[1..];
      if |cs| > 1 {
        TileEndBounds(input, index + consumed, cs[1..]);
      }
      ByCountComplete(input, count, index + consumed, acc + [p], cs[1..]);
    }
  }

  /** Total-length mode, converse: an operator header with length `L`
      followed by children that tile exactly `L` bits decodes to those
      children and takes `22 + L` bits. */
  lemma ParseBytesComplete(input: seq<bool>, kind: OpKind, cs: seq<Packet>)
    requires |input| >= BytesHeader && !input[6]
    requires ToNumber(input[3..6]) == KindCode(kind)
    requires TileEnd(input, BytesHeader, cs) == Some(BytesHeader + ToNumber(input[7..BytesHeader]))
    ensures Parse(input) == Some((BytesHeader + ToNumber(input[7..BytesHeader]), Operator(kind, cs)))
  {
    ByLengthComplete(input, ToNumber(input[7..BytesHeader]), 0, [], cs);
    KindCodeRoundTrip(kind);
  }

  /** Child-count mode, converse: an operator header with count `N` followed
      by `N` back-to-back children decodes to them and ends where they end. */
  lemma ParsePacketsComplete(input: seq<bool>, kind: OpKind, cs: seq<Packet>)
    requires |input| >= PacketsHeader && input[6]
    requires ToNumber(input[3..6]) == KindCode(kind)
    requires |cs| == ToNumber(input[7..PacketsHeader])
    requires TileEnd(input, PacketsHeader, cs).Some?
    ensures Parse(input) == Some((TileEnd(input, PacketsHeader, cs).value, Operator(kind, cs)))
  {
    ByCountComplete(input, |cs|, PacketsHeader, [], cs);
    KindCodeRoundTrip(kind);
  }

  lemma {:induction false} ByLengthIgnoresVersion(a: seq<bool>, b: seq<bool>, length: nat, running: nat, acc: seq<Packet>)
    requires BytesHeader + running <= |a| == |b| && a[3..] == b[3..]
    ensures ParseByLength(a, length, running, acc) == ParseByLength(b, length, running, acc)
    decreases |a| - running
  {
    if running < length {
      assert a[BytesHeader + running..] == b[BytesHeader + running..];
      match Parse(a[BytesHeader + running..])
      case None =>
      case Some((consumed, p)) => ByLengthIgnoresVersion(a, b, length, running + consumed, acc + [p]);
    }
  }

  lemma {:induction false} ByCountIgnoresVersion(a: seq<bool>, b: seq<bool>, count: nat, index: nat, acc: seq<Packet>)
    requires PacketsHeader <= index <= |a| == |b| && a[3..] == b[3..]
    ensures ParseByCount(a, count, index, acc) == ParseByCount(b, count, index, acc)
    decreases |a| - index
  {
    if |acc| < count {
      assert a[index..] == b[index..];
      match Parse(a[index..])
      case None =>
      case Some((consumed, p)) => ByCountIgnoresVersion(a, b, count, index + consumed, acc + [p]);
    }
  }

  /** The version field, bits 0..3, is never read: inputs that differ only
      there decode identically. */
  lemma ParseIgnoresVersion(a: seq<bool>, b: seq<bool>)
    requires |a| == |b| && |a| >= 3 && a[3..] == b[3..]
    ensures Parse(a) == Parse(b)
  {
    if |a| >= 6 {
      assert a[3..6] == b[3..6];
      if ToNumber(a[3..6]) == LiteralType {
        assert a[6..] == b[6..];
        assert ParseLiteral(a) == ParseLiteral(b);
      } else {
        OperatorIgnoresVersion(a, b);
      }
    }
  }

  lemma OperatorIgnoresVersion(a: seq<bool>, b: seq<bool>)
    requires |a| == |b| && |a| >= 6 && a[3..] == b[3..]
    ensures ParseOperator(a) == ParseOperator(b)
  {
    assert a[3..6] == b[3..6];
    if |a| > 6 {
      assert a[6] == b[6];
    }
    if |a| >= BytesHeader {
      assert a[7..BytesHeader] == b[7..BytesHeader];
      ByLengthIgnoresVersion(a, b, ToNumber(a[7..BytesHeader]), 0, []);
    }
    if |a| >= PacketsHeader {
      assert a[7..PacketsHeader] == b[7..PacketsHeader];
      ByCountIgnoresVersion(a, b, ToNumber(a[7..PacketsHeader]), PacketsHeader, []);
    }
  }

  /** `KindCode` and `KindOf` are inverse on operator kinds. */
  lemma KindCodeRoundTrip(k: OpKind)
    ensures KindOf(KindCode(k)) == Some(k)
  {
  }
}
