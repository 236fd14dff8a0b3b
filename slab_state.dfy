/**
  The slab's three placement states and the parts of its behaviour that only read its state
  (src/pocketmine/block/Slab.php). The mutable slab object is `Slabs.Slab`.
*/
module SlabState {
  import opened Bits
  import opened Outcomes

  datatype SlabType = Bottom | Top | Double

  /** The six block faces, in the order of the game's `Facing` constants. */
  datatype Face = Down | Up | North | South | West | East

  /** The one meta bit a slab owns; it is set for a TOP slab. */
  const TopBit: Meta := 0x8

  /** `getStateBitmask`: `0b1000` in every state, DOUBLE included. */
  const SlabMask: Meta := 0x8

  /** `getId`: a DOUBLE slab reports its double id, a half slab its own id. */
  function GetId(baseId: int, doubleId: int, t: SlabType): (id: int)
    ensures t == Double ==> id == doubleId
    ensures t != Double ==> id == baseId
  {
    if t == Double then doubleId else baseId
  }

  /** `writeStateToMeta`: the only state the meta records is TOP, and only within the slab's mask. */
  function WriteStateToMeta(t: SlabType): (m: Meta)
    ensures m & !SlabMask == 0
    ensures m != 0 <==> t == Top
  {
    if t != Double then (if t == Top then TopBit else 0) else 0
  }

  /**
    `readStateFromMeta`: a DOUBLE slab ignores the meta; a half slab becomes TOP exactly when bit 3
    is set. Writing the state back gives the meta's slab bit for a half slab and 0 for a double.
  */
  function ReadStateFromMeta(t: SlabType, meta: Meta): (r: SlabType)
    ensures t == Double ==> r == Double
    ensures t != Double ==> r != Double && (r == Top <==> meta & TopBit != 0)
    ensures WriteStateToMeta(r) == if t == Double then 0 else meta & SlabMask
  {
    if t != Double then (if meta & TopBit != 0 then Top else Bottom) else t
  }

  /** Decoding what a state encodes gives the state back, in all three states. */
  lemma MetaRoundTrip(t: SlabType)
    ensures ReadStateFromMeta(t, WriteStateToMeta(t)) == t
  {
  }

  /** When the two ids differ, the id together with the meta determines the slab's state. */
  lemma IdAndMetaDetermineState(baseId: int, doubleId: int, t1: SlabType, t2: SlabType)
    requires baseId != doubleId
    requires GetId(baseId, doubleId, t1) == GetId(baseId, doubleId, t2)
    requires WriteStateToMeta(t1) == WriteStateToMeta(t2)
    ensures t1 == t2
  {
  }

  /** `isTransparent`: only a double slab fills its block. */
  function IsTransparent(t: SlabType): (r: bool)
    ensures r <==> t != Double
  {
    t != Double
  }

  /** The count of the item `getDropsForCompatibleTool` returns: two for a double slab, else one. */
  function DropCount(t: SlabType): (n: nat)
    ensures n == 2 <==> t == Double
    ensures n == 1 <==> t != Double
  {
    if t == Double then 2 else 1
  }

  /** A slab drops two items exactly when it is not transparent. */
  lemma DropsTwoIffOpaque(t: SlabType)
    ensures DropCount(t) == 2 <==> !IsTransparent(t)
  {
  }

  /** A collision box: the whole unit cube, or the unit cube with `amount` cut off at `face`. */
  datatype Box = FullCube | Trimmed(face: Face, amount: real)

  /**
    `recalculateBoundingBox`: a double slab keeps the base class's full cube; a half slab loses
    half a block on the side it does not occupy: the bottom face for TOP, the top face for BOTTOM.
  */
  function BoundingBox(t: SlabType): (b: Box)
    ensures b == FullCube <==> t == Double
    ensures b.Trimmed? ==> b.amount == 0.5 && (b.face == Down <==> t == Top) && (b.face == Up <==> t == Bottom)
  {
    if t == Double then FullCube else Trimmed(if t == Top then Down else Up, 0.5)
  }

  /**
    The slab branch of `canBePlacedAt`: `generic` is the base class's answer, `replace` the state of
    the block being replaced when that block is a slab, `sameType` the base class's `isSameType`
    between it and this slab. Against a TOP slab the click must be in its lower half, or on the UP
    face of a block other than the clicked one; against a BOTTOM slab symmetrically.
  */
  function CanBePlacedAt(generic: bool, replace: Option<SlabType>, sameType: bool, clickY: real,
                         face: Face, isClickedBlock: bool): (r: bool)
    ensures generic ==> r
    ensures !generic && (replace.None? || replace == Some(Double) || !sameType) ==> !r
    ensures !generic && replace == Some(Top) && sameType ==>
              (r <==> clickY <= 0.5 || (!isClickedBlock && face == Up))
    ensures !generic && replace == Some(Bottom) && sameType ==>
              (r <==> clickY >= 0.5 || (!isClickedBlock && face == Down))
  {
    if generic then true
    else if replace.Some? && replace.value != Double && sameType then
      if replace.value == Top then clickY <= 0.5 || (!isClickedBlock && face == Up)
      else clickY >= 0.5 || (!isClickedBlock && face == Down)
    else false
  }

  /** Where `place` writes the new block. */
  datatype Target =
    | AtClicked  // the level's `setBlock` at the clicked block's position
    | AtReplace  // the base class's `place`, at the position being replaced

  /** The clicked block is a same-type half slab and the click is on its face toward the new half. */
  predicate MergesWithClicked(clicked: Option<SlabType>, clickedSameType: bool, face: Face)
  {
    clicked.Some? && clicked.value != Double && clickedSameType &&
    ((face == Down && clicked.value == Top) || (face == Up && clicked.value == Bottom))
  }

  /** The half a fresh slab takes: TOP for a click on a DOWN face or in the upper half of a side. */
  function FreshHalf(face: Face, clickY: real): (t: SlabType)
    ensures t != Double
    ensures face == Down ==> t == Top
    ensures face == Up ==> t == Bottom
    ensures face != Down && face != Up ==> (t == Top <==> clickY > 0.5)
  {
    if (face != Up && clickY > 0.5) || face == Down then Top else Bottom
  }

  /**
    The state decision of `place`: merge with the clicked half slab at its own position; else
    become DOUBLE when the replaced block is a same-type half slab clicked in its empty half; else
    take the half `FreshHalf` picks. The last two leave the write to the base class.
  */
  function PlaceOutcome(clicked: Option<SlabType>, clickedSameType: bool,
                        replace: Option<SlabType>, replaceSameType: bool,
                        face: Face, clickY: real): (r: (SlabType, Target))
    ensures r.1 == AtClicked <==> MergesWithClicked(clicked, clickedSameType, face)
    ensures r.1 == AtClicked ==> r.0 == Double
    ensures r.1 == AtReplace ==>
              (r.0 == Double <==>
                 replace.Some? && replace.value != Double && replaceSameType &&
                 ((replace.value == Top && (clickY <= 0.5 || face == Up)) ||
                  (replace.value == Bottom && (clickY >= 0.5 || face == Down))))
    ensures r.0 != Double ==> r == (FreshHalf(face, clickY), AtReplace)
  {
    if MergesWithClicked(clicked, clickedSameType, face) then
      (Double, AtClicked)
    else if replace.Some? && replace.value != Double && replaceSameType &&
            ((replace.value == Top && (clickY <= 0.5 || face == Up)) ||
             (replace.value == Bottom && (clickY >= 0.5 || face == Down))) then
      (Double, AtReplace)
    else
      (FreshHalf(face, clickY), AtReplace)
  }

  /**
    Whenever the slab branch of `canBePlacedAt` admits a placement into a same-type half slab,
    `place` turns the new slab into a DOUBLE one, whichever of its two merge rules fires.
  */
  lemma PlaceableIntoSlabBecomesDouble(replace: Option<SlabType>, sameType: bool, clickY: real, face: Face,
                                       isClickedBlock: bool, clicked: Option<SlabType>, clickedSameType: bool)
    requires CanBePlacedAt(false, replace, sameType, clickY, face, isClickedBlock)
    ensures PlaceOutcome(clicked, clickedSameType, replace, sameType, face, clickY).0 == Double
  {
  }

  /**
    Clicking the UP face of a same-type BOTTOM slab merges the two halves in the clicked block,
    and the double slab it makes drops two items.
  */
  lemma StackOnBottomSlab(replace: Option<SlabType>, replaceSameType: bool, clickY: real)
    ensures PlaceOutcome(Some(Bottom), true, replace, replaceSameType, Up, clickY) == (Double, AtClicked)
    ensures DropCount(PlaceOutcome(Some(Bottom), true, replace, replaceSameType, Up, clickY).0) == 2
  {
  }

  /**
    Clicking a DOWN face places a fresh TOP half at the replaced position, whatever the click
    height, whenever the slab does not become DOUBLE (by merging with a clicked TOP slab or by
    filling the empty upper half of a same-type BOTTOM slab).
  */
  lemma DownFaceGivesTop(clicked: Option<SlabType>, clickedSameType: bool,
                         replace: Option<SlabType>, replaceSameType: bool, clickY: real)
    requires PlaceOutcome(clicked, clickedSameType, replace, replaceSameType, Down, clickY).0 != Double
    ensures PlaceOutcome(clicked, clickedSameType, replace, replaceSameType, Down, clickY) == (Top, AtReplace)
  {
  }
}
