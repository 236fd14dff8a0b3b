/**
  The slab pattern of the registration catalogue (src/pocketmine/block/BlockFactory.php:376-379):
  every slab is registered as a half, then as a clone switched to DOUBLE. The half fills the
  keys `(id, v)` and `(id, v | 8)` as BOTTOM and TOP; the double fills only `(doubleId, v)`,
  because its `v | 8` candidate decodes to a double slab that re-encodes to `v` and is pruned.
*/
module SlabRegistration {
  import opened Bits
  import opened Outcomes
  import opened SlabState
  import opened Blocks
  import opened Registry

  /** The only candidates of a slab variant with bit 3 clear are `v` and `v | 8`. */
  lemma SlabCandidates(v: Meta, j: Meta)
    requires v & 0x8 == 0
    ensures IsCandidate(j, v, 0x8) <==> j == v || j == v | 0x8
  {
  }

  /** Registering a half slab whose two keys are free fills them with BOTTOM and TOP. */
  lemma RegisterHalfSlab(t: Tables, id: int, doubleId: int, v: Meta, p: Props)
    requires t.WellSized() && IdInRange(id) && v & 0x8 == 0
    requires !Registered(t, Key(id, v)) && !Registered(t, Key(id, v | 0x8))
    ensures Register(t, SlabOf(id, doubleId, v, p, Bottom), false).1 == Pass
    ensures Register(t, SlabOf(id, doubleId, v, p, Bottom), false).0.blocks[Key(id, v)] ==
              Some(SlabOf(id, doubleId, v, p, Bottom))
    ensures Register(t, SlabOf(id, doubleId, v, p, Bottom), false).0.blocks[Key(id, v | 0x8)] ==
              Some(SlabOf(id, doubleId, v, p, Top))
  {
    var half := SlabOf(id, doubleId, v, p, Bottom);
    KeyInRange(id, v);
    KeyInRange(id, v | 0x8);
    KeySplit(id, v);
    KeySplit(id, v | 0x8);
    assert Survivor(half, v) == Some(half);
    assert Survivor(half, v | 0x8) == Some(SlabOf(id, doubleId, v, p, Top));
    RegisterOutcome(t, half, false);
    if LoopConflict(t, half, false, v as int) {
      var j: Meta :| IsCandidate(j, v, 0x8) && Registered(t, Key(id, j));
      SlabCandidates(v, j);
    }
    RegisterSucceedsAt(t, half, false, Key(id, v));
    RegisterSucceedsAt(t, half, false, Key(id, v | 0x8));
  }

  /**
    Registering the DOUBLE clone fills `(doubleId, v)` with it and leaves `(doubleId, v | 8)`
    as it was: decoding `v | 8` keeps a double slab DOUBLE, it re-encodes to `v`, and the
    round-trip check prunes it.
  */
  lemma RegisterDoubleSlab(t: Tables, id: int, doubleId: int, v: Meta, p: Props)
    requires t.WellSized() && IdInRange(doubleId) && v & 0x8 == 0
    requires !Registered(t, Key(doubleId, v)) && !Registered(t, Key(doubleId, v | 0x8))
    ensures Register(t, SlabOf(id, doubleId, v, p, Double), false).1 == Pass
    ensures Register(t, SlabOf(id, doubleId, v, p, Double), false).0.blocks[Key(doubleId, v)] ==
              Some(SlabOf(id, doubleId, v, p, Double))
    ensures EntryAt(Register(t, SlabOf(id, doubleId, v, p, Double), false).0, Key(doubleId, v | 0x8)) ==
              EntryAt(t, Key(doubleId, v | 0x8))
  {
    var dbl := SlabOf(id, doubleId, v, p, Double);
    KeyInRange(doubleId, v);
    KeyInRange(doubleId, v | 0x8);
    KeySplit(doubleId, v);
    KeySplit(doubleId, v | 0x8);
    assert Survivor(dbl, v) == Some(dbl);
    assert Survivor(dbl, v | 0x8).None?;
    RegisterOutcome(t, dbl, false);
    if LoopConflict(t, dbl, false, v as int) {
      var j: Meta :| IsCandidate(j, v, 0x8) && Registered(t, Key(doubleId, j));
      SlabCandidates(v, j);
    }
    RegisterSucceedsAt(t, dbl, false, Key(doubleId, v));
    RegisterSucceedsAt(t, dbl, false, Key(doubleId, v | 0x8));
  }

  /**
    The catalogue's two registrations of one slab type into tables where its four keys are free
    and the two ids differ: both succeed, the half's keys hold BOTTOM and TOP, `(doubleId, v)`
    holds the double, and `(doubleId, v | 8)` stays as it was.
  */
  lemma RegisterSlabPair(t: Tables, id: int, doubleId: int, v: Meta, p: Props)
    requires t.WellSized() && IdInRange(id) && IdInRange(doubleId) && id != doubleId && v & 0x8 == 0
    requires !Registered(t, Key(id, v)) && !Registered(t, Key(id, v | 0x8))
    requires !Registered(t, Key(doubleId, v)) && !Registered(t, Key(doubleId, v | 0x8))
    ensures var r1 := Register(t, SlabOf(id, doubleId, v, p, Bottom), false);
            var r2 := Register(r1.0, SlabOf(id, doubleId, v, p, Double), false);
            r1.1 == Pass && r2.1 == Pass &&
            r2.0.blocks[Key(id, v)] == Some(SlabOf(id, doubleId, v, p, Bottom)) &&
            r2.0.blocks[Key(id, v | 0x8)] == Some(SlabOf(id, doubleId, v, p, Top)) &&
            r2.0.blocks[Key(doubleId, v)] == Some(SlabOf(id, doubleId, v, p, Double)) &&
            EntryAt(r2.0, Key(doubleId, v | 0x8)) == EntryAt(t, Key(doubleId, v | 0x8))
  {
    var half := SlabOf(id, doubleId, v, p, Bottom);
    var dbl := SlabOf(id, doubleId, v, p, Double);
    KeyInRange(id, v);
    KeyInRange(id, v | 0x8);
    KeyInRange(doubleId, v);
    KeyInRange(doubleId, v | 0x8);
    KeySplit(doubleId, v);
    KeySplit(doubleId, v | 0x8);
    KeySplit(id, v);
    KeySplit(id, v | 0x8);
    RegisterHalfSlab(t, id, doubleId, v, p);
    var t1 := Register(t, half, false).0;
    RegisterChangesAt(t, half, false, Key(doubleId, v));
    RegisterChangesAt(t, half, false, Key(doubleId, v | 0x8));
    RegisterDoubleSlab(t1, id, doubleId, v, p);
    RegisterChangesAt(t1, dbl, false, Key(id, v));
    RegisterChangesAt(t1, dbl, false, Key(id, v | 0x8));
  }

  /**
    `getStateMask` indexes its table with the id itself: after registering a slab with id 44
    into empty tables, block 44's state mask is 8, yet `getStateMask(44)` reads the slot of full
    key 44, block `(2, 12)`, which is empty, and answers 0.
  */
  lemma GetStateMaskMissesSlab(p: Props)
    ensures var t1 := Register(EmptyTables(), SlabOf(44, 43, 0, p, Bottom), false).0;
            t1.blocks[Key(44, 0)] == Some(SlabOf(44, 43, 0, p, Bottom)) &&
            SlabOf(44, 43, 0, p, Bottom).StateBitmask() == 8 &&
            GetStateMask(t1, 44) == 0
  {
    var half := SlabOf(44, 43, 0, p, Bottom);
    RegisterHalfSlab(EmptyTables(), 44, 43, 0, p);
    RegisterChangesAt(EmptyTables(), half, false, 44);
  }
}
