/** The side-effect flag algebra of the reconciler
    (packages/react-reconciler/src/fiberFlags.ts).

    The source stores flags as bits of a JavaScript number and combines them
    with `|`, `&` and `~`. The model keeps the set of bits that are on: `|` is
    union, `&` is intersection and `f & ~bits` is difference. `Bits` gives the
    number the source would hold, and the lemmas at the end show that the set
    operations are exactly the source's bit operations on that number. */
module FiberFlags {

  /** One bit of the flag word, by position: 0, 1, 2 and 3. */
  datatype Bit = PerformedWorkBit | PlacementBit | UpdateBit | ChildDeletionBit

  type Flags = set<Bit>

  const NoFlags: Flags := {}
  const PerformedWork: Flags := {PerformedWorkBit}
  const Placement: Flags := {PlacementBit}
  const Update: Flags := {UpdateBit}
  const ChildDeletion: Flags := {ChildDeletionBit}

  /** The flags the commit mutation phase acts on. */
  const MutationMask: Flags := Placement + Update + ChildDeletion

  /** `(f & bits) !== NoFlags`: some bit of `bits` is set in `f`. */
  predicate HasAny(f: Flags, bits: Flags) {
    f * bits != NoFlags
  }

  /** `f &= ~bits`: the bits of `bits` are cleared, every other bit is kept. */
  function Clear(f: Flags, bits: Flags): (r: Flags)
    ensures !HasAny(r, bits)
    ensures r <= f && f <= r + bits
  {
    f - bits
  }

  /** The weight of one bit in the flag word. */
  function Weight(b: Bit): bv8 {
    match b
    case PerformedWorkBit => 1
    case PlacementBit => 2
    case UpdateBit => 4
    case ChildDeletionBit => 8
  }

  /** The number a flag set stands for in the source. */
  function Bits(f: Flags): (n: bv8)
    ensures n & 0xF0 == 0
  {
    (if PerformedWorkBit in f then Weight(PerformedWorkBit) else 0)
    | (if PlacementBit in f then Weight(PlacementBit) else 0)
    | (if UpdateBit in f then Weight(UpdateBit) else 0)
    | (if ChildDeletionBit in f then Weight(ChildDeletionBit) else 0)
  }

  /** The named flags have the values of fiberFlags.ts, and the mutation mask
      is `0b1110`. */
  lemma ConstantsMatchSource()
    ensures Bits(NoFlags) == 0 && Bits(PerformedWork) == 1 && Bits(Placement) == 2
    ensures Bits(Update) == 4 && Bits(ChildDeletion) == 8
    ensures Bits(MutationMask) == 14
  {
  }

  /** The four named flags are single bits, each a different one, so any two
      different ones have no bit in common. */
  lemma FlagsAreDistinctBits()
    ensures forall b: Bit :: Bits({b}) == Weight(b) && Weight(b) != 0 && Weight(b) & (Weight(b) - 1) == 0
    ensures forall b1: Bit, b2: Bit :: b1 != b2 ==> Weight(b1) & Weight(b2) == 0 && !HasAny({b1}, {b2})
  {
  }

  /** A bit is in `f` exactly when its weight is set in `Bits(f)`. */
  lemma BitsMembership(f: Flags, b: Bit)
    ensures b in f <==> Bits(f) & Weight(b) != 0
  {
  }

  /** Different flag sets are different numbers. */
  lemma BitsInjective(f: Flags, g: Flags)
    requires Bits(f) == Bits(g)
    ensures f == g
  {
    forall b: Bit
      ensures b in f <==> b in g
    {
      BitsMembership(f, b);
      BitsMembership(g, b);
    }
  }

  /** Union, intersection and difference are the source's `|`, `&` and `& ~`. */
  lemma BitsOfOperations(f: Flags, g: Flags)
    ensures Bits(f + g) == Bits(f) | Bits(g)
    ensures Bits(f * g) == Bits(f) & Bits(g)
    ensures Bits(f - g) == Bits(f) & !Bits(g)
    ensures HasAny(f, g) <==> Bits(f) & Bits(g) != 0
  {
    if Bits(f * g) == 0 {
      BitsInjective(f * g, NoFlags);
    }
  }

  /** A flag set has a mutation bit if and only if it has Placement, Update
      or ChildDeletion; PerformedWork alone is no mutation. */
  lemma MutationMaskIsTheThreeKinds(f: Flags)
    ensures HasAny(f, MutationMask) <==>
              HasAny(f, Placement) || HasAny(f, Update) || HasAny(f, ChildDeletion)
    ensures !HasAny(PerformedWork, MutationMask)
  {
    if HasAny(f, MutationMask) {
      var b :| b in f * MutationMask;
    }
  }

  /** Clearing the three mutation bits one after the other clears exactly the
      mutation mask. */
  lemma ClearingAllMutationKinds(f: Flags)
    ensures Clear(Clear(Clear(f, Placement), Update), ChildDeletion) == Clear(f, MutationMask)
  {
  }
}
