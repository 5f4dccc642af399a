/** Symbol tags of expression-tree nodes.

    A NodeType is a 16-bit mask: each symbol is one bit, and enabled-symbol
    sets (the grammar's configuration and its Arithmetic / TypeCoherent / Full
    presets) are unions of bits. The enum itself lives in node.hpp, which is
    not part of this model; the bit positions below are a model assumption
    that keeps the order facts the modelled code relies on: binary symbols
    come before Log, unary symbols run from Log to Square, and the leaves
    Constant and Variable come after Square. */
module Symbols {

  type NodeType = bv16

  const Add: NodeType := 0x0001
  const Mul: NodeType := 0x0002
  const Sub: NodeType := 0x0004
  const Div: NodeType := 0x0008
  const Log: NodeType := 0x0010
  const Exp: NodeType := 0x0020
  const Sin: NodeType := 0x0040
  const Cos: NodeType := 0x0080
  const Tan: NodeType := 0x0100
  const Sqrt: NodeType := 0x0200
  const Cbrt: NodeType := 0x0400
  const Square: NodeType := 0x0800
  const Constant: NodeType := 0x1000
  const Variable: NodeType := 0x2000

  /** The arity the growth code assumes: two operands for the symbols before
      Log, one for the other function symbols, none for the leaves. */
  function DefaultArity(t: NodeType): (k: nat)
    ensures k <= 2
    ensures t < Log ==> k == 2
    ensures t == Constant || t == Variable ==> k == 0
  {
    if t < Log then 2 else if t <= Square then 1 else 0
  }

  /** An arity function agrees with the symbol order the growth code relies
      on: a function symbol needs at most as many operands as its minimum
      branch length (2 before Log, 1 after), and the two leaves take none. */
  ghost predicate ArityFits(arity: NodeType -> nat)
  {
    && (forall t: NodeType :: t <= Square ==> arity(t) <= (if t < Log then 2 else 1))
    && arity(Constant) == 0
    && arity(Variable) == 0
  }

  lemma DefaultArityFits()
    ensures ArityFits(DefaultArity)
  {
  }
}
