/** The grammar: which symbols tree growth may use, and how often
    (src/core/grammar.hpp).

    The configuration is a bitmask of enabled node types. The frequency table
    is a hash map in the source; its keys and values are the map
    `frequencies`, and the order in which the source iterates over it, which
    the standard leaves unspecified, is the explicit sequence `order`. */
module Grammars {
  import opened Symbols

  /** The three presets, written out for the bit values of the node types;
      `MasksNested` proves each equal to the union that defines it. */
  const Arithmetic: NodeType := 0x300F
  const TypeCoherent: NodeType := 0x30FF
  const Full: NodeType := 0x37FF

  /** The symbols of the default frequency table, as listed. Square is not
      among them. */
  const DefaultSymbols: seq<NodeType> :=
    [Add, Mul, Sub, Div, Exp, Log, Sin, Cos, Tan, Sqrt, Cbrt, Constant, Variable]

  /** Some bit of `t` is set in `config`. */
  predicate Enabled(config: NodeType, t: NodeType)
  {
    config & t != 0
  }

  /** Setting the bits of `t` sets all of them. */
  lemma OrSets(config: NodeType, t: NodeType)
    ensures (config | t) & t == t
  {
  }

  /** Setting the bits of `t` keeps every bit outside `t`. */
  lemma OrKeepsOthers(config: NodeType, t: NodeType, u: NodeType)
    requires u & t == 0
    ensures (config | t) & u == config & u
  {
  }

  /** Clearing the bits of `t` clears all of them. */
  lemma AndNotClears(config: NodeType, t: NodeType)
    ensures (config & !t) & t == 0
  {
  }

  /** Clearing the bits of `t` keeps every bit outside `t`. */
  lemma AndNotKeepsOthers(config: NodeType, t: NodeType, u: NodeType)
    requires u & t == 0
    ensures (config & !t) & u == config & u
  {
  }

  /** Enabling a non-empty `t` makes it enabled; every type whose bits are
      disjoint from `t` keeps its state. */
  lemma EnableEffect(config: NodeType, t: NodeType)
    ensures t != 0 ==> Enabled(config | t, t)
    ensures forall u :: u & t == 0 ==> (Enabled(config | t, u) <==> Enabled(config, u))
  {
    OrSets(config, t);
    forall u | u & t == 0
      ensures Enabled(config | t, u) <==> Enabled(config, u)
    {
      OrKeepsOthers(config, t, u);
    }
  }

  /** Disabling `t` makes it disabled; every type whose bits are disjoint
      from `t` keeps its state. */
  lemma DisableEffect(config: NodeType, t: NodeType)
    ensures !Enabled(config & !t, t)
    ensures forall u :: u & t == 0 ==> (Enabled(config & !t, u) <==> Enabled(config, u))
  {
    AndNotClears(config, t);
    forall u | u & t == 0
      ensures Enabled(config & !t, u) <==> Enabled(config, u)
    {
      AndNotKeepsOthers(config, t, u);
    }
  }

  /** The presets grow by inclusion: every Arithmetic symbol is TypeCoherent
      and every TypeCoherent symbol is in Full. */
  lemma MasksNested()
    ensures Arithmetic == Constant | Variable | Add | Sub | Mul | Div
    ensures TypeCoherent == Arithmetic | Exp | Log | Sin | Cos
    ensures Full == TypeCoherent | Tan | Sqrt | Cbrt
    ensures Arithmetic & TypeCoherent == Arithmetic
    ensures TypeCoherent & Full == TypeCoherent
    ensures Enabled(Arithmetic, Constant) && Enabled(Arithmetic, Variable)
    ensures !Enabled(Full, Square)
  {
  }

  /** The table entries whose symbol is enabled, in iteration order. */
  function EnabledEntries(order: seq<NodeType>, frequencies: map<NodeType, real>, config: NodeType): (r: seq<(NodeType, real)>)
    requires forall t :: t in order ==> t in frequencies
    ensures |r| <= |order|
    decreases |order|
  {
    if order == [] then []
    else
      var front := EnabledEntries(order[..|order| - 1], frequencies, config);
      var t := order[|order| - 1];
      if Enabled(config, t) then front + [(t, frequencies[t])] else front
  }

  /** The allowed entries are exactly the enabled symbols of the table, each
      with its own frequency. */
  lemma {:induction false} EnabledEntriesExact(order: seq<NodeType>, frequencies: map<NodeType, real>, config: NodeType, t: NodeType, f: real)
    requires forall u :: u in order ==> u in frequencies
    ensures (t, f) in EnabledEntries(order, frequencies, config)
      <==> t in order && Enabled(config, t) && f == frequencies[t]
    decreases |order|
  {
    if order != [] {
      var front := order[..|order| - 1];
      assert order == front + [order[|order| - 1]];
      EnabledEntriesExact(front, frequencies, config, t, f);
    }
  }

  /** A listed symbol's own entry is allowed exactly when the symbol is enabled. */
  lemma EnabledLookup(order: seq<NodeType>, frequencies: map<NodeType, real>, config: NodeType, t: NodeType)
    ensures (forall u :: u in order ==> u in frequencies) && t in order ==>
      ((t, frequencies[t]) in EnabledEntries(order, frequencies, config) <==> Enabled(config, t))
  {
    if (forall u :: u in order ==> u in frequencies) && t in order {
      EnabledEntriesExact(order, frequencies, config, t, frequencies[t]);
    }
  }

  /** The positions in the iteration order whose symbols are enabled: they
      strictly increase, and a position is listed exactly when its symbol is
      enabled. */
  function EnabledPositions(order: seq<NodeType>, config: NodeType): (ps: seq<nat>)
    ensures forall k :: 0 <= k < |ps| ==> ps[k] < |order|
    ensures forall k, l :: 0 <= k < l < |ps| ==> ps[k] < ps[l]
    ensures forall p :: 0 <= p < |order| ==> (p in ps <==> Enabled(config, order[p]))
    decreases |order|
  {
    if order == [] then []
    else
      var front := EnabledPositions(order[..|order| - 1], config);
      assert forall p :: 0 <= p < |order| - 1 ==> order[..|order| - 1][p] == order[p];
      if Enabled(config, order[|order| - 1]) then front + [|order| - 1] else front
  }

  /** The allowed entries keep the iteration order: entry k is the symbol at
      the k-th enabled position of the table (see `EnabledPositions`), with
      its frequency. */
  lemma {:induction false} EnabledEntriesOrdered(order: seq<NodeType>, frequencies: map<NodeType, real>, config: NodeType)
    requires forall u :: u in order ==> u in frequencies
    ensures var r := EnabledEntries(order, frequencies, config);
      var ps := EnabledPositions(order, config);
      && |ps| == |r|
      && (forall k :: 0 <= k < |ps| ==> order[ps[k]] == r[k].0 && r[k].1 == frequencies[r[k].0])
    decreases |order|
  {
    if order != [] {
      var front := order[..|order| - 1];
      assert forall u :: u in front ==> u in order;
      EnabledEntriesOrdered(front, frequencies, config);
      var pf := EnabledPositions(front, config);
      assert forall k :: 0 <= k < |pf| ==> front[pf[k]] == order[pf[k]];
    }
  }

  class Grammar {
    var config: NodeType
    var frequencies: map<NodeType, real>
    /** The iteration order of the frequency table. */
    var order: seq<NodeType>

    /** The iteration order lists every key of the table exactly once. */
    ghost predicate Valid()
      reads this
    {
      && (forall i, j :: 0 <= i < j < |order| ==> order[i] != order[j])
      && (forall t :: t in frequencies <==> t in order)
    }

    /** The default grammar: the Arithmetic preset and every listed symbol
        at frequency 1. */
    constructor ()
      ensures Valid()
      ensures config == Arithmetic
      ensures order == DefaultSymbols
      ensures forall t :: t in frequencies <==> t in DefaultSymbols
      ensures forall t :: t in frequencies ==> frequencies[t] == 1.0
    {
      config := Arithmetic;
      order := DefaultSymbols;
      frequencies := map t | t in DefaultSymbols :: 1.0;
    }

    /** Whether the configuration sets some bit of `t`: a type with no bits
        is never enabled, and a symbol of the table is enabled exactly when
        AllowedSymbols lists it with its frequency. */
    predicate IsEnabled(t: NodeType)
      reads this
      ensures IsEnabled(t) ==> t != 0
      ensures Valid() && t in frequencies ==>
        (IsEnabled(t) <==> (t, frequencies[t]) in EnabledEntries(order, frequencies, config))
    {
      EnabledLookup(order, frequencies, config, t);
      Enabled(config, t)
    }

    /** Sets or clears the bits of `t` and changes nothing else; what that
        does to each symbol's state is EnableEffect and DisableEffect. */
    method SetEnabled(t: NodeType, enabled: bool)
      modifies this
      ensures enabled ==> config == old(config) | t
      ensures !enabled ==> config == old(config) & !t
      ensures frequencies == old(frequencies) && order == old(order)
    {
      if enabled {
        config := config | t;
      } else {
        config := config & !t;
      }
    }

    /** Stores `f` for `t`, adding the key at the end of the iteration order
        when it is new, and changes nothing else. */
    method SetFrequency(t: NodeType, f: real)
      requires Valid()
      modifies this
      ensures Valid()
      ensures frequencies == old(frequencies)[t := f]
      ensures order == if t in old(frequencies) then old(order) else old(order) + [t]
      ensures config == old(config)
    {
      if t !in frequencies {
        order := order + [t];
      }
      frequencies := frequencies[t := f];
    }

    /** The frequency stored for `t`, the one AllowedSymbols reports when `t`
        is enabled; the source dereferences the lookup unchecked, so `t` must
        be in the table. */
    function GetFrequency(t: NodeType): (f: real)
      reads this
      requires t in frequencies
      ensures Valid() ==> (IsEnabled(t) <==> (t, f) in EnabledEntries(order, frequencies, config))
    {
      EnabledLookup(order, frequencies, config, t);
      frequencies[t]
    }

    /** Copies the enabled entries of the table in iteration order. */
    method AllowedSymbols() returns (allowed: seq<(NodeType, real)>)
      requires Valid()
      ensures allowed == EnabledEntries(order, frequencies, config)
      ensures forall e :: e in allowed <==> e.0 in order && IsEnabled(e.0) && e.1 == frequencies[e.0]
    {
      allowed := [];
      var k := 0;
      while k < |order|
        invariant 0 <= k <= |order|
        invariant allowed == EnabledEntries(order[..k], frequencies, config)
      {
        assert order[..k + 1][..k] == order[..k];
        var t := order[k];
        if IsEnabled(t) {
          allowed := allowed + [(t, frequencies[t])];
        }
        k := k + 1;
      }
      assert order[..k] == order;
      forall e
        ensures e in allowed <==> e.0 in order && IsEnabled(e.0) && e.1 == frequencies[e.0]
      {
        EnabledEntriesExact(order, frequencies, config, e.0, e.1);
      }
    }
  }
}
