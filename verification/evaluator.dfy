/** The expression evaluator (`eval_packet` in src/main.rs). */
module Evaluator {
  import opened Wrappers
  import opened Decoder

  /** `usize::MAX` on a 64-bit target, the seed of the `Min` fold. */
  const USIZE_MAX: nat := 0xFFFF_FFFF_FFFF_FFFF

  /** The kinds evaluated by folding over every child. */
  predicate IsFold(kind: OpKind)
  {
    kind == Sum || kind == Product || kind == Min || kind == Max
  }

  /** The fold's starting value. */
  function Seed(kind: OpKind): nat
    requires IsFold(kind)
  {
    match kind
    case Sum => 0
    case Product => 1
    case Min => USIZE_MAX
    case Max => 0
  }

  /** One step of the fold: the accumulator combined with one child's value. */
  function Step(kind: OpKind, acc: nat, v: nat): nat
    requires IsFold(kind)
  {
    match kind
    case Sum => acc + v
    case Product => acc * v
    case Min => if v < acc then v else acc
    case Max => if acc < v then v else acc
  }

  /** `children.iter().fold(acc, ...)`, over the children's values in order. */
  function Fold(kind: OpKind, acc: nat, vs: seq<nat>): nat
    requires IsFold(kind)
    decreases |vs|
  {
    if |vs| == 0 then acc else Fold(kind, Step(kind, acc, vs[0]), vs[1..])
  }

  /** A comparison of the first two children: 1 when it holds, else 0. */
  function Compare(kind: OpKind, a: nat, b: nat): (r: nat)
    requires !IsFold(kind)
    ensures r == 1 <==> (kind == Gt && a > b) || (kind == Lt && a < b) || (kind == Eq && a == b)
    ensures r <= 1
  {
    match kind
    case Gt => if a > b then 1 else 0
    case Lt => if a < b then 1 else 0
    case Eq => if a == b then 1 else 0
  }

  /** `eval_packet`: `None` where the source would index a missing first or
      second child of a comparison. A literal evaluates to its value, a
      comparison to 0 or 1. */
  function Eval(p: Packet): (r: Option<nat>)
    ensures p.Literal? ==> r == Some(p.value)
    ensures p.Operator? && !IsFold(p.kind) && r.Some? ==> |p.children| >= 2 && r.value <= 1
    decreases p
  {
    match p
    case Literal(v) => Some(v)
    case Operator(kind, cs) =>
      if IsFold(kind) then
        match EvalAll(cs)
        case None => None
        case Some(vs) => Some(Fold(kind, Seed(kind), vs))
      else if |cs| < 2 then None
      else
        match Eval(cs[0])
        case None => None
        case Some(a) =>
          match Eval(cs[1])
          case None => None
          case Some(b) => Some(Compare(kind, a, b))
  }

  /** Every child's value, in order, if every child evaluates. */
  function EvalAll(cs: seq<Packet>): (r: Option<seq<nat>>)
    ensures r.Some? <==> forall i :: 0 <= i < |cs| ==> Eval(cs[i]).Some?
    ensures r.Some? ==> |r.value| == |cs| && forall i :: 0 <= i < |cs| ==> r.value[i] == Eval(cs[i]).value
    decreases cs
  {
    if |cs| == 0 then Some([])
    else
      match Eval(cs[0])
      case None => None
      case Some(v) =>
        match EvalAll(cs[1..])
        case None => None
        case Some(vs) => Some([v] + vs)
  }

  /** Folding one more value is one more step. */
  lemma {:induction false} FoldSnoc(kind: OpKind, acc: nat, vs: seq<nat>, v: nat)
    requires IsFold(kind)
    ensures Fold(kind, acc, vs + [v]) == Step(kind, Fold(kind, acc, vs), v)
    decreases |vs|
  {
    if |vs| > 0 {
      assert (vs + [v])[1..] == vs[1..] + [v];
      FoldSnoc(kind, Step(kind, acc, vs[0]), vs[1..], v);
    }
  }

  /** The folds run left to right, as `iter().fold` does: a fold operator
      with one more child combines the value so far with that child's. */
  lemma EvalFoldSnoc(kind: OpKind, cs: seq<Packet>, c: Packet)
    requires IsFold(kind)
    requires Eval(Operator(kind, cs)).Some? && Eval(c).Some?
    ensures Eval(Operator(kind, cs + [c])) == Some(Step(kind, Eval(Operator(kind, cs)).value, Eval(c).value))
  {
    var vs := EvalAll(cs).value;
    var all := cs + [c];
    assert forall i :: 0 <= i < |all| ==> Eval(all[i]).Some? by {
      forall i | 0 <= i < |all|
        ensures Eval(all[i]).Some?
      {
        if i < |cs| {
          assert all[i] == cs[i];
        }
      }
    }
    assert EvalAll(all).value == vs + [Eval(c).value];
    FoldSnoc(kind, Seed(kind), vs, Eval(c).value);
  }

  /** The arithmetic sum of a sequence. */
  function Total(vs: seq<nat>): nat
  {
    if |vs| == 0 then 0 else vs[0] + Total(vs[1..])
  }

  /** The arithmetic product of a sequence. */
  function Prod(vs: seq<nat>): nat
  {
    if |vs| == 0 then 1 else vs[0] * Prod(vs[1..])
  }

  /** The `Sum` fold adds every value to its seed. */
  lemma {:induction false} FoldSum(acc: nat, vs: seq<nat>)
    ensures Fold(Sum, acc, vs) == acc + Total(vs)
    decreases |vs|
  {
    if |vs| > 0 {
      FoldSum(acc + vs[0], vs[1..]);
    }
  }

  /** The `Product` fold multiplies its seed by every value. */
  lemma {:induction false} FoldProduct(acc: nat, vs: seq<nat>)
    ensures Fold(Product, acc, vs) == acc * Prod(vs)
    decreases |vs|
  {
    if |vs| > 0 {
      FoldProduct(acc * vs[0], vs[1..]);
      assert acc * vs[0] * Prod(vs[1..]) == acc * (vs[0] * Prod(vs[1..]));
    }
  }

  /** A product is zero exactly when some factor is. */
  lemma {:induction false} ProdZero(vs: seq<nat>)
    ensures Prod(vs) == 0 <==> exists i :: 0 <= i < |vs| && vs[i] == 0
  {
    if |vs| > 0 {
      ProdZero(vs[1..]);
      if vs[0] != 0 && Prod(vs[1..]) != 0 {
        assert forall i :: 1 <= i < |vs| ==> vs[i] == vs[1..][i - 1];
      }
      assert forall i :: 0 <= i < |vs| - 1 ==> vs[1..][i] == vs[i + 1];
    }
  }

  /** The `Min` fold is at most its seed and every value, and is one of them. */
  lemma {:induction false} FoldMin(acc: nat, vs: seq<nat>)
    ensures var r := Fold(Min, acc, vs);
      && r <= acc
      && (forall i :: 0 <= i < |vs| ==> r <= vs[i])
      && (r == acc || exists i :: 0 <= i < |vs| && r == vs[i])
    decreases |vs|
  {
    if |vs| > 0 {
      FoldMin(Step(Min, acc, vs[0]), vs[1..]);
      var r := Fold(Min, acc, vs);
      assert forall i :: 1 <= i < |vs| ==> vs[i] == vs[1..][i - 1];
      if r != acc && r != vs[0] {
        var j :| 0 <= j < |vs[1..]| && r == vs[1..][j];
        assert r == vs[j + 1];
      }
    }
  }

  /** The `Max` fold is at least its seed and every value, and is one of them. */
  lemma {:induction false} FoldMax(acc: nat, vs: seq<nat>)
    ensures var r := Fold(Max, acc, vs);
      && acc <= r
      && (forall i :: 0 <= i < |vs| ==> vs[i] <= r)
      && (r == acc || exists i :: 0 <= i < |vs| && r == vs[i])
    decreases |vs|
  {
    if |vs| > 0 {
      FoldMax(Step(Max, acc, vs[0]), vs[1..]);
      var r := Fold(Max, acc, vs);
      assert forall i :: 1 <= i < |vs| ==> vs[i] == vs[1..][i - 1];
      if r != acc && r != vs[0] {
        var j :| 0 <= j < |vs[1..]| && r == vs[1..][j];
        assert r == vs[j + 1];
      }
    }
  }

  /** A `Sum` operator evaluates to the sum of its children's values
      (0 with no children). */
  lemma EvalSum(cs: seq<Packet>)
    requires EvalAll(cs).Some?
    ensures Eval(Operator(Sum, cs)) == Some(Total(EvalAll(cs).value))
  {
    FoldSum(0, EvalAll(cs).value);
  }

  /** A `Product` operator evaluates to the product of its children's values
      (1 with no children), which is zero exactly when some child's is. */
  lemma EvalProduct(cs: seq<Packet>)
    requires EvalAll(cs).Some?
    ensures Eval(Operator(Product, cs)) == Some(Prod(EvalAll(cs).value))
    ensures Prod(EvalAll(cs).value) == 0 <==> exists i :: 0 <= i < |cs| && Eval(cs[i]) == Some(0)
  {
    FoldProduct(1, EvalAll(cs).value);
    ProdZero(EvalAll(cs).value);
  }

  /** A `Min` operator evaluates to at most every child's value; with at
      least one child, all of whose values fit a `usize`, it is the least of
      them; with none it is the fold's seed `usize::MAX`. */
  lemma EvalMin(cs: seq<Packet>)
    requires Eval(Operator(Min, cs)).Some?
    ensures var r := Eval(Operator(Min, cs)).value;
      && (forall i :: 0 <= i < |cs| ==> Eval(cs[i]).Some? && r <= Eval(cs[i]).value)
      && (|cs| > 0 && (forall i :: 0 <= i < |cs| ==> Eval(cs[i]).value <= USIZE_MAX) ==>
            exists i :: 0 <= i < |cs| && r == Eval(cs[i]).value)
      && (|cs| == 0 ==> r == USIZE_MAX)
  {
    var vs := EvalAll(cs).value;
    FoldMin(USIZE_MAX, vs);
    var r := Fold(Min, USIZE_MAX, vs);
    if |cs| > 0 && (forall i :: 0 <= i < |cs| ==> Eval(cs[i]).value <= USIZE_MAX) && r == USIZE_MAX {
      assert r <= vs[0] <= USIZE_MAX;
      assert r == Eval(cs[0]).value;
    }
  }

  /** A `Max` operator evaluates to at least every child's value, and with at
      least one child it is the greatest of them (0 with none). */
  lemma EvalMax(cs: seq<Packet>)
    requires Eval(Operator(Max, cs)).Some?
    ensures var r := Eval(Operator(Max, cs)).value;
      && (forall i :: 0 <= i < |cs| ==> Eval(cs[i]).Some? && Eval(cs[i]).value <= r)
      && (|cs| > 0 ==> exists i :: 0 <= i < |cs| && r == Eval(cs[i]).value)
      && (|cs| == 0 ==> r == 0)
  {
    var vs := EvalAll(cs).value;
    FoldMax(0, vs);
    var r := Fold(Max, 0, vs);
    if |cs| > 0 && r == 0 {
      assert r <= vs[0] && vs[0] <= r;
      assert r == Eval(cs[0]).value;
    }
  }

  /** A comparison evaluates only its first two children, and to 1 exactly
      when the comparison holds between their values. */
  lemma EvalComparison(kind: OpKind, cs: seq<Packet>)
    requires !IsFold(kind)
    requires |cs| >= 2 && Eval(cs[0]).Some? && Eval(cs[1]).Some?
    ensures var a := Eval(cs[0]).value; var b := Eval(cs[1]).value;
      Eval(Operator(kind, cs)) == Some(if (kind == Gt && a > b) || (kind == Lt && a < b) || (kind == Eq && a == b) then 1 else 0)
  {
  }

  /** The tree shape the format guarantees: every comparison has exactly two
      children. */
  predicate WellFormed(p: Packet)
    decreases p
  {
    match p
    case Literal(_) => true
    case Operator(kind, cs) =>
      && (!IsFold(kind) ==> |cs| == 2)
      && forall i :: 0 <= i < |cs| ==> WellFormed(cs[i])
  }

  /** A well-formed tree always evaluates. */
  lemma {:induction false} EvalWellFormed(p: Packet)
    requires WellFormed(p)
    ensures Eval(p).Some?
    decreases p
  {
    match p
    case Literal(_) =>
    case Operator(kind, cs) =>
      forall i | 0 <= i < |cs|
        ensures Eval(cs[i]).Some?
      {
        EvalWellFormed(cs[i]);
      }
  }
}
