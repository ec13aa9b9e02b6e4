/**
 The bit operations of the flow classifier (tc/f_flow.c): `and`, `or` and `xor` options are folded into
 one mask and one xor value, and a stored pair is printed back as such options.
 */
module FlowOps {
  import Bits

  type Word = Bits.Word

  function All(): Word { Bits.Ones(32) }

  function None(): Word { Bits.Zeros(32) }

  datatype Op = And(w: Word) | Or(w: Word) | Xor(w: Word)

  function Apply(op: Op, v: Word): Word {
    match op
    case And(w) => Bits.And(v, w)
    case Or(w) => Bits.Or(v, w)
    case Xor(w) => Bits.Xor(v, w)
  }

  /** The options applied to a value in the order given. */
  function ApplyAll(ops: seq<Op>, v: Word): Word {
    if ops == [] then v else Apply(ops[|ops| - 1], ApplyAll(ops[..|ops| - 1], v))
  }

  datatype Pair = Pair(mask: Word, xor: Word)

  /** What the kernel does to a key with the pair. */
  function Act(p: Pair, v: Word): Word {
    Bits.Xor(Bits.And(v, p.mask), p.xor)
  }

  // ----- from options to a pair

  function Transfer(p: Pair, m: Word, x: Word): Pair {
    Pair(Bits.And(p.mask, m), Bits.Xor(x, Bits.And(p.xor, m)))
  }

  /** One more option folded in: `transfer_bitop` as `flow_parse_opt` calls it. */
  function Fold(p: Pair, op: Op): Pair {
    match op
    case And(w) => Transfer(p, w, None())
    case Or(w) => Transfer(p, Bits.Not(w), w)
    case Xor(w) => Transfer(p, All(), w)
  }

  function FoldAll(p: Pair, ops: seq<Op>): Pair {
    if ops == [] then p else Fold(FoldAll(p, ops[..|ops| - 1]), ops[|ops| - 1])
  }

  function Unchanged(): Pair {
    Pair(All(), None())
  }

  lemma FoldActs(p: Pair, op: Op, v: Word)
    ensures Act(Fold(p, op), v) == Apply(op, Act(p, v))
  {
    var a, b := Act(Fold(p, op), v), Apply(op, Act(p, v));
    assert forall i | 0 <= i < 32 :: a[i] == b[i];
  }

  lemma UnchangedActs(v: Word)
    ensures Act(Unchanged(), v) == v
  {
    assert forall i | 0 <= i < 32 :: Act(Unchanged(), v)[i] == v[i];
  }

  /** The pair acts on every value as the options do in their order. */
  lemma {:induction false} FoldedActs(ops: seq<Op>, v: Word)
    ensures Act(FoldAll(Unchanged(), ops), v) == ApplyAll(ops, v)
  {
    if ops == [] {
      UnchangedActs(v);
    } else {
      var front := ops[..|ops| - 1];
      FoldedActs(front, v);
      FoldActs(FoldAll(Unchanged(), front), ops[|ops| - 1], v);
    }
  }

  /** The option loop of `flow_parse_opt`. */
  method ParseOps(ops: seq<Op>) returns (mask: Word, xor: Word)
    ensures Pair(mask, xor) == FoldAll(Unchanged(), ops)
    ensures forall v: Word :: Act(Pair(mask, xor), v) == ApplyAll(ops, v)
  {
    mask, xor := All(), None();
    for i := 0 to |ops|
      invariant Pair(mask, xor) == FoldAll(Unchanged(), ops[..i])
    {
      assert ops[..i + 1][..i] == ops[..i];
      match ops[i] {
        case And(w) => mask, xor := TransferBitop(mask, xor, w, None());
        case Or(w) => mask, xor := TransferBitop(mask, xor, Bits.Not(w), w);
        case Xor(w) => mask, xor := TransferBitop(mask, xor, All(), w);
      }
    }
    assert ops[..|ops|] == ops;
    forall v: Word ensures Act(Pair(mask, xor), v) == ApplyAll(ops, v) {
      FoldedActs(ops, v);
    }
  }

  method TransferBitop(mask: Word, xor: Word, m: Word, x: Word) returns (mask': Word, xor': Word)
    ensures Pair(mask', xor') == Transfer(Pair(mask, xor), m, x)
  {
    xor' := Bits.Xor(x, Bits.And(xor, m));
    mask' := Bits.And(mask, m);
  }

  /** Two pairs that act alike on two values are equal: a pair is all there is to know about its options. */
  lemma PairIsCanonical(p: Pair, q: Pair)
    requires Act(p, None()) == Act(q, None()) && Act(p, All()) == Act(q, All())
    ensures p == q
  {
    forall i | 0 <= i < 32 ensures p.xor[i] == q.xor[i] && p.mask[i] == q.mask[i] {
      assert Act(p, None())[i] == p.xor[i] && Act(q, None())[i] == q.xor[i];
      assert Act(p, All())[i] == (p.mask[i] != p.xor[i]) && Act(q, All())[i] == (q.mask[i] != q.xor[i]);
    }
    assert p.xor == q.xor && p.mask == q.mask;
  }

  /**
   Option lists that do the same to every value are stored the same way, and only those: agreeing
   on no bits and on all bits is enough to agree on any value `v`.
   */
  lemma SameActionSamePair(a: seq<Op>, b: seq<Op>, v: Word)
    ensures FoldAll(Unchanged(), a) == FoldAll(Unchanged(), b)
       <==> ApplyAll(a, None()) == ApplyAll(b, None()) && ApplyAll(a, All()) == ApplyAll(b, All())
    ensures FoldAll(Unchanged(), a) == FoldAll(Unchanged(), b) ==> ApplyAll(a, v) == ApplyAll(b, v)
  {
    var p, q := FoldAll(Unchanged(), a), FoldAll(Unchanged(), b);
    FoldedAlike(a, b, None());
    FoldedAlike(a, b, All());
    FoldedAlike(a, b, v);
    if Act(p, None()) == Act(q, None()) && Act(p, All()) == Act(q, All()) {
      PairIsCanonical(p, q);
    }
  }

  lemma FoldedAlike(a: seq<Op>, b: seq<Op>, v: Word)
    ensures Act(FoldAll(Unchanged(), a), v) == Act(FoldAll(Unchanged(), b), v) <==> ApplyAll(a, v) == ApplyAll(b, v)
  {
    FoldedActs(a, v);
    FoldedActs(b, v);
  }

  // ----- from a pair to options

  /** The attributes sent: both or none. */
  datatype Stored = Nothing | Both(mask: Word, xor: Word)

  function Store(p: Pair): Stored {
    if p != Unchanged() then Both(p.mask, p.xor) else Nothing
  }

  function Load(s: Stored): Pair {
    match s
    case Nothing => Unchanged()
    case Both(m, x) => Pair(m, x)
  }

  function OrPart(p: Pair): Word {
    Bits.Xor(Bits.And(p.mask, p.xor), p.xor)
  }

  function XorPart(p: Pair): Word {
    Bits.And(p.mask, p.xor)
  }

  /** The options that `flow_print_opt` prints, in its order. */
  function Printed(p: Pair): seq<Op> {
    if p == Unchanged() then []
    else
      (if p.mask != All() then [And(p.mask)] else [])
      + (if XorPart(p) != None() then [Xor(XorPart(p))] else [])
      + (if OrPart(p) != None() then [Or(OrPart(p))] else [])
  }

  /** An option left out of the print-out is one that does nothing. */
  lemma FoldShown(p: Pair, ops: seq<Op>, op: Op, shown: bool)
    requires !shown ==> Fold(FoldAll(p, ops), op) == FoldAll(p, ops)
    ensures FoldAll(p, ops + if shown then [op] else []) == Fold(FoldAll(p, ops), op)
  {
    if shown {
      assert (ops + [op])[..|ops|] == ops;
    } else {
      assert ops + [] == ops;
    }
  }

  lemma AndFolds(m: Word)
    ensures Fold(Unchanged(), And(m)) == Pair(m, None())
  {
    var f := Fold(Unchanged(), And(m));
    assert forall i | 0 <= i < 32 :: f.mask[i] == m[i] && f.xor[i] == None()[i];
    assert f.mask == m && f.xor == None();
  }

  lemma XorFolds(m: Word, y: Word)
    ensures Fold(Pair(m, None()), Xor(y)) == Pair(m, y)
  {
    var f := Fold(Pair(m, None()), Xor(y));
    assert forall i | 0 <= i < 32 :: f.mask[i] == m[i] && f.xor[i] == y[i];
    assert f.mask == m && f.xor == y;
  }

  lemma OrFolds(p: Pair)
    ensures Fold(Pair(p.mask, XorPart(p)), Or(OrPart(p))) == p
    ensures OrPart(p) == None() ==> XorPart(p) == p.xor
  {
    var f := Fold(Pair(p.mask, XorPart(p)), Or(OrPart(p)));
    assert forall i | 0 <= i < 32 :: f.mask[i] == p.mask[i] && f.xor[i] == p.xor[i];
    assert f.mask == p.mask && f.xor == p.xor;
    if OrPart(p) == None() {
      forall i | 0 <= i < 32 ensures XorPart(p)[i] == p.xor[i] {
        assert OrPart(p)[i] == None()[i];
      }
      assert XorPart(p) == p.xor;
    }
  }

  /** Parsing what is printed gives the pair back. */
  lemma PrintParse(p: Pair)
    ensures FoldAll(Unchanged(), Printed(p)) == p
  {
    if p != Unchanged() {
      var m, y, o := p.mask, XorPart(p), OrPart(p);
      var a := if m != All() then [And(m)] else [];
      var b := if y != None() then [Xor(y)] else [];
      AndFolds(m);
      XorFolds(m, y);
      OrFolds(p);
      FoldShown(Unchanged(), [], And(m), m != All());
      assert [] + a == a;
      FoldShown(Unchanged(), a, Xor(y), y != None());
      FoldShown(Unchanged(), a + b, Or(o), o != None());
    }
  }

  /** Stored, loaded, printed and parsed again, options keep their action on every value. */
  lemma OptionsSurvive(ops: seq<Op>, v: Word)
    ensures ApplyAll(Printed(Load(Store(FoldAll(Unchanged(), ops)))), v) == ApplyAll(ops, v)
  {
    var p := FoldAll(Unchanged(), ops);
    assert Load(Store(p)) == p;
    FoldedActs(ops, v);
    FoldedActs(Printed(p), v);
    PrintParse(p);
  }
}
