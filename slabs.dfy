/**
  The slab object of src/pocketmine/block/Slab.php: its ids and variant are fixed at
  construction, its state is updated in place by decoding, by `setSlabType` and by placement.
*/
module Slabs {
  import opened Bits
  import opened Outcomes
  import opened SlabState
  import opened Blocks

  class Slab {
    const id: int
    const doubleId: int
    const variant: Meta
    const props: Props
    var slabType: SlabType

    /** A new slab is a BOTTOM half. */
    constructor(id: int, doubleId: int, variant: Meta, props: Props)
      ensures this.id == id && this.doubleId == doubleId && this.variant == variant && this.props == props
      ensures slabType == Bottom
    {
      this.id := id;
      this.doubleId := doubleId;
      this.variant := variant;
      this.props := props;
      slabType := Bottom;
    }

    /** The block value this slab currently is. */
    function Descriptor(): Block
      reads this
    {
      SlabOf(id, doubleId, variant, props, slabType)
    }

    /** `clone`: a fresh slab in the same state. */
    method Clone() returns (c: Slab)
      ensures fresh(c)
      ensures c.Descriptor() == Descriptor()
    {
      c := new Slab(id, doubleId, variant, props);
      c.slabType := slabType;
    }

    /**
      `readStateFromMeta`: a DOUBLE slab keeps its state, a half slab takes TOP or BOTTOM from
      bit 3. The new block value is the decoding the registry performs on a clone.
    */
    method ReadStateFromMeta(meta: Meta)
      modifies this
      ensures slabType == SlabState.ReadStateFromMeta(old(slabType), meta)
      ensures old(Descriptor()).ReadStateFromMeta(meta) == Some(Descriptor())
      ensures old(slabType) == Double ==> slabType == Double
    {
      if slabType != Double {
        slabType := if meta & TopBit != 0 then Top else Bottom;
      }
    }

    /** `setSlabType`, which returns the slab itself for chaining. */
    method SetSlabType(t: SlabType) returns (self: Slab)
      modifies this
      ensures slabType == t && self == this
      ensures Descriptor().Id() == GetId(id, doubleId, t)
    {
      slabType := t;
      self := this;
    }

    /**
      `place`: decides the new state and where it is written. `clicked` and `replace` are the
      states of the clicked and replaced blocks when they are slabs, and the two flags are the
      base class's `isSameType` between each of them and this slab. The write itself (the
      level's `setBlock` or the base class's `place`) is outside this model; the result says
      which of the two the source calls. The branches are those of `SlabState.PlaceOutcome`,
      which specifies this method; the `ensures` keeps the two in step.
    */
    method Place(clicked: Option<SlabType>, clickedSameType: bool,
                 replace: Option<SlabType>, replaceSameType: bool,
                 face: Face, clickY: real) returns (target: Target)
      modifies this
      ensures (slabType, target) == PlaceOutcome(clicked, clickedSameType, replace, replaceSameType, face, clickY)
      ensures target == AtClicked ==> slabType == Double && Descriptor().Id() == doubleId
    {
      if clicked.Some? && clicked.value != Double && clickedSameType &&
         ((face == Down && clicked.value == Top) || (face == Up && clicked.value == Bottom)) {
        slabType := Double;
        return AtClicked;
      }
      if replace.Some? && replace.value != Double && replaceSameType &&
         ((replace.value == Top && (clickY <= 0.5 || face == Up)) ||
          (replace.value == Bottom && (clickY >= 0.5 || face == Down))) {
        slabType := Double;
      } else {
        slabType := if (face != Up && clickY > 0.5) || face == Down then Top else Bottom;
      }
      target := AtReplace;
    }
  }
}
