/**
  The block values the registry stores. The base `Block` class is not part of this model; a block
  is described by what the registry asks of it: its id, its variant, its state bitmask, the
  decoding of a meta into a state (which may fail), the state it encodes, and three property
  values the registry copies into its tables. A slab is one concrete kind of block.
*/
module Blocks {
  import opened Bits
  import opened Outcomes
  import SlabState

  /** Light filter, sky-light diffusion and blast resistance, copied through unchanged. */
  datatype Props = Props(lightFilter: int, diffusesSkyLight: bool, blastResistance: real)

  datatype Kind =
      /**
        A block whose states are the metas in `decode`'s domain: decoding `m` selects the state
        `decode[m]`, and a meta outside the domain is an invalid property combination. `state` is
        the meta its current state encodes to.
      */
    | Plain(mask: Meta, decode: map<Meta, Meta>, state: Meta)
      /** A slab (src/pocketmine/block/Slab.php) with its double id and current state. */
    | SlabBlock(doubleId: int, slabType: SlabState.SlabType)
      /** The placeholder `get` builds for an empty slot. */
    | Unknown

  datatype Block = Block(baseId: int, variant: Meta, kind: Kind, props: Props)
  {
    /** `getId`: a slab overrides it, every other block reports the id it was built with. */
    function Id(): int
    {
      if kind.SlabBlock? then SlabState.GetId(baseId, kind.doubleId, kind.slabType) else baseId
    }

    /**
      `getStateBitmask`: the bits of the meta a block's state occupies. A slab's is `0b1000` in
      every state, DOUBLE included, and covers what its state encodes to.
    */
    function StateBitmask(): (m: Meta)
      ensures kind.SlabBlock? ==> m == SlabState.SlabMask && WriteStateToMeta() & !m == 0
      ensures IsUnknown() ==> m == 0
    {
      match kind
      case Plain(mask, _, _) => mask
      case SlabBlock(_, _) => SlabState.SlabMask
      case Unknown => 0
    }

    /** `writeStateToMeta`. */
    function WriteStateToMeta(): Meta
    {
      match kind
      case Plain(_, _, state) => state
      case SlabBlock(_, t) => SlabState.WriteStateToMeta(t)
      case Unknown => 0
    }

    /**
      `getDamage`. The base class is not part of this model; the meta a block reports is taken
      to be its variant combined with the state it encodes.
    */
    function Damage(): (d: Meta)
      ensures d & variant == variant
      ensures d & !variant == WriteStateToMeta() & !variant
      ensures IsUnknown() ==> d == variant
    {
      variant | WriteStateToMeta()
    }

    predicate IsUnknown()
    {
      kind.Unknown?
    }

    /**
      `readStateFromMeta` on a clone: the clone with its state decoded from `meta`, or `None`
      where the source throws `InvalidBlockStateException`. Decoding changes only the state:
      the base id, the variant, the bitmask and the properties stay, and a slab never fails.
    */
    function ReadStateFromMeta(meta: Meta): (r: Option<Block>)
      ensures r.Some? ==> r.value.baseId == baseId && r.value.variant == variant &&
                          r.value.props == props && r.value.StateBitmask() == StateBitmask() &&
                          r.value.IsUnknown() == IsUnknown()
      ensures r.None? <==> kind.Plain? && meta !in kind.decode
      ensures kind.SlabBlock? ==> r.Some? && r.value.Id() == Id() && r.value.kind.SlabBlock? &&
                                   r.value.kind.slabType == SlabState.ReadStateFromMeta(kind.slabType, meta)
      ensures kind.Plain? && r.Some? ==> r.value.WriteStateToMeta() == kind.decode[meta] && r.value.Id() == Id()
    {
      match kind
      case Plain(mask, decode, _) =>
        if meta in decode then Some(this.(kind := Plain(mask, decode, decode[meta]))) else None
      case SlabBlock(doubleId, t) =>
        Some(this.(kind := SlabBlock(doubleId, SlabState.ReadStateFromMeta(t, meta))))
      case Unknown => Some(this)
    }
  }

  /**
    The properties of `UnknownBlock`. Its class is not part of this model; the values chosen
    are those of a transparent block without hardness.
  */
  const UnknownProps: Props := Props(0, false, 0.0)

  /** `new UnknownBlock($id, $meta)`: the meta becomes its variant. */
  function UnknownBlock(id: int, meta: Meta): (b: Block)
    ensures b.IsUnknown() && b.Id() == id && b.Damage() == meta && b.StateBitmask() == 0
  {
    Block(id, meta, Unknown, UnknownProps)
  }

  /** A slab block of the given ids, variant, properties and state. */
  function SlabOf(id: int, doubleId: int, variant: Meta, props: Props, t: SlabState.SlabType): (b: Block)
    ensures b.Id() == (if t == SlabState.Double then doubleId else id)
    ensures b.StateBitmask() == 0x8 && !b.IsUnknown()
    ensures b.Damage() == variant | SlabState.WriteStateToMeta(t)
  {
    Block(id, variant, SlabBlock(doubleId, t), props)
  }

  /**
    Decoding a half slab's own meta gives the same slab back; a half slab whose variant keeps
    bit 3 clear reports the meta `variant | 8` exactly when it is TOP.
  */
  lemma SlabDecodesOwnDamage(id: int, doubleId: int, variant: Meta, props: Props, t: SlabState.SlabType)
    requires variant & 0x8 == 0
    ensures SlabOf(id, doubleId, variant, props, t).ReadStateFromMeta(SlabOf(id, doubleId, variant, props, t).Damage() & 0x8)
            == Some(SlabOf(id, doubleId, variant, props, t))
    ensures SlabOf(id, doubleId, variant, props, t).Damage() == (if t == SlabState.Top then variant | 0x8 else variant)
  {
  }
}
