/**
  `BlockFactory` of src/pocketmine/block/BlockFactory.php. The source keeps its state in static
  fields; here they are the fields of one object. The five tables are fixed-size arrays, null
  until `init`; the runtime-id bridge is two maps and a running maximum. Every operation is
  proved to agree with its value-level counterpart in `Registry` or `RuntimeIds`, where the
  properties of the registry are proved.
*/
module Factory {
  import opened Bits
  import opened Outcomes
  import opened Blocks
  import opened Registry
  import opened RuntimeIds
  import SlabState
  import Slabs

  class BlockFactory {
    var fullList: array?<Option<Block>>
    var stateMasks: array?<Option<Meta>>
    var lightFilter: array?<int>
    var diffusesSkyLight: array?<bool>
    var blastResistance: array?<real>
    var staticRuntimeIdMap: map<int, int>
    var legacyIdMap: map<int, int>
    var lastRuntimeId: int

    /**
      The five tables are either all absent (before `init`) or all present with 8192 slots. The
      block list and the mask table are two arrays (the verifier does not tell their element
      types apart on its own).
    */
    ghost predicate Valid()
      reads this
    {
      (fullList == null && stateMasks == null && lightFilter == null &&
       diffusesSkyLight == null && blastResistance == null) ||
      (fullList != null && stateMasks != null && lightFilter != null &&
       diffusesSkyLight != null && blastResistance != null &&
       fullList.Length == Capacity && stateMasks.Length == Capacity && lightFilter.Length == Capacity &&
       diffusesSkyLight.Length == Capacity && blastResistance.Length == Capacity &&
       fullList as object != stateMasks as object)
    }

    /** `isInit`: the block list has been allocated, and with it every other table. */
    function IsInit(): (r: bool)
      reads this
      ensures Valid() ==> (r <==> fullList != null && stateMasks != null && lightFilter != null &&
                                  diffusesSkyLight != null && blastResistance != null)
    {
      fullList != null
    }

    /** The contents of the five tables. */
    function Tables(): (t: Tables)
      requires Valid() && IsInit()
      reads this, fullList, stateMasks, lightFilter, diffusesSkyLight, blastResistance
      ensures t.WellSized()
    {
      Registry.Tables(fullList[..], stateMasks[..], lightFilter[..], diffusesSkyLight[..], blastResistance[..])
    }

    /** The runtime-id bridge. */
    function Bridge(): Bridge
      reads this
    {
      RuntimeIds.Bridge(staticRuntimeIdMap, legacyIdMap, lastRuntimeId)
    }

    /** The table fields still name the same arrays. */
    twostate predicate SameArrays()
      reads this
    {
      fullList == old(fullList) && stateMasks == old(stateMasks) && lightFilter == old(lightFilter) &&
      diffusesSkyLight == old(diffusesSkyLight) && blastResistance == old(blastResistance)
    }

    /** The state before `init`: no tables and an empty bridge. */
    constructor()
      ensures Valid() && !IsInit()
      ensures Bridge() == EmptyBridge
    {
      fullList := null;
      stateMasks := null;
      lightFilter := null;
      diffusesSkyLight := null;
      blastResistance := null;
      staticRuntimeIdMap := map[];
      legacyIdMap := map[];
      lastRuntimeId := 0;
    }

    /**
      The allocation part of `init`: fresh tables, every slot empty, light filter 1, no sky-light
      diffusion, blast resistance 0. The bridge is not touched. Calling it again resets the tables.
    */
    method Init()
      modifies this
      ensures Valid() && IsInit()
      ensures fresh(fullList) && fresh(stateMasks) && fresh(lightFilter) &&
              fresh(diffusesSkyLight) && fresh(blastResistance)
      ensures Tables() == EmptyTables()
      ensures Bridge() == old(Bridge())
    {
      fullList := new Option<Block>[Capacity](_ => None);
      lightFilter := new int[Capacity](_ => 1);
      diffusesSkyLight := new bool[Capacity](_ => false);
      blastResistance := new real[Capacity](_ => 0.0);
      stateMasks := new Option<Meta>[Capacity](_ => None);
      assert fullList[..] == EmptyTables().blocks;
      assert stateMasks[..] == EmptyTables().masks;
      assert lightFilter[..] == EmptyTables().light;
      assert diffusesSkyLight[..] == EmptyTables().sky;
      assert blastResistance[..] == EmptyTables().blast;
    }

    /** `fillStaticArrays($index, $block)`: the five tables change at `index` and nowhere else. */
    method FillStaticArrays(index: int, b: Block)
      requires Valid() && IsInit() && 0 <= index < Capacity
      modifies fullList, stateMasks, lightFilter, diffusesSkyLight, blastResistance
      ensures Valid() && IsInit()
      ensures Tables() == Fill(old(Tables()), index, b)
    {
      fullList[index] := Some(b);
      stateMasks[index] := Some(b.StateBitmask());
      lightFilter[index] := if b.props.lightFilter + 1 < 15 then b.props.lightFilter + 1 else 15;
      diffusesSkyLight[index] := b.props.diffusesSkyLight;
      blastResistance[index] := b.props.blastResistance;
      var e := FilledEntry(b);
      assert fullList[..] == old(fullList[..])[index := e.block];
      assert stateMasks[..] == old(stateMasks[..])[index := e.mask];
      assert lightFilter[..] == old(lightFilter[..])[index := e.light];
      assert diffusesSkyLight[..] == old(diffusesSkyLight[..])[index := e.sky];
      assert blastResistance[..] == old(blastResistance[..])[index := e.blast];
    }

    /**
      `isRegistered($id, $meta)`: the slot of `(id, meta)` holds a block that is not an
      `UnknownBlock`; a key outside the tables is an error, as the fixed array's access throws.
    */
    method IsRegistered(id: int, meta: Meta) returns (r: Result<bool, Error>)
      requires Valid() && IsInit()
      ensures r == Registry.IsRegistered(Tables(), id, meta)
    {
      KeyInRange(id, meta);
      var index := Key(id, meta);
      if !(0 <= index < Capacity) {
        return Err(IndexOutOfRange);
      }
      var x := fullList[index];
      r := Ok(x.Some? && !x.value.IsUnknown());
    }

    /**
      `register($block, $override)`. Outside ids 0..511 every key lies outside the tables; the
      source throws at its first table access there, before anything is written, and this
      method returns that error up front.
    */
    method Register(b: Block, ov: bool) returns (o: Outcome<Error>)
      requires Valid() && IsInit()
      modifies fullList, stateMasks, lightFilter, diffusesSkyLight, blastResistance
      ensures Valid() && IsInit()
      ensures (Tables(), o) == Registry.Register(old(Tables()), b, ov)
    {
      ghost var t0 := Tables();
      var id := b.Id();
      var variant := b.variant;
      var stateMask := b.StateBitmask();
      if variant & stateMask != 0 {
        return Fail(VariantCollidesWithStateMask);
      }
      if !IdInRange(id) {
        return Fail(IndexOutOfRange);
      }
      KeyInRange(id, variant);
      if !ov {
        var taken := IsRegistered(id, variant);
        if taken == Ok(true) {
          assert Registered(t0, Key(id, variant));
          return Fail(RegistrationConflict);
        }
        assert !Registered(t0, Key(id, variant));
      }
      var conflict := RegisterStates(b, ov);
      ghost var t1 := Tables();
      if conflict {
        assert Registry.Register(t0, b, ov) == (t1, Fail(StateConflict));
        return Fail(StateConflict);
      }
      assert Registry.Register(t0, b, ov) == (AddFallback(t1, b), Pass);
      AddDefaultState(b);
      o := Pass;
    }

    /**
      The loop of `register`: one pass per meta from the variant up to `variant | stateMask`,
      stopping at the first taken state.
    */
    method RegisterStates(b: Block, ov: bool) returns (conflict: bool)
      requires Valid() && IsInit() && IdInRange(b.Id())
      modifies fullList, stateMasks, lightFilter, diffusesSkyLight, blastResistance
      ensures Valid() && IsInit()
      ensures RegisterFrom(old(Tables()), b, ov, b.variant as int) ==
              (Tables(), if conflict then Fail(StateConflict) else Pass)
    {
      ghost var t0 := Tables();
      var m := b.variant as int;
      while m <= (b.variant | b.StateBitmask()) as int
        invariant Valid() && IsInit()
        invariant 0 <= m <= 16
        invariant RegisterFrom(t0, b, ov, b.variant as int) == RegisterFrom(Tables(), b, ov, m)
        decreases 16 - m
      {
        ghost var t := Tables();
        conflict := RegisterStep(b, ov, m);
        RegisterFromByStep(t, b, ov, m);
        if conflict {
          return;
        }
        m := m + 1;
      }
      conflict := false;
    }

    /**
      The step after the loop: the prototype itself is stored under `(id, variant)` when that key
      is not registered, for blocks whose state 0 does not survive decoding.
    */
    method AddDefaultState(b: Block)
      requires Valid() && IsInit() && IdInRange(b.Id())
      modifies fullList, stateMasks, lightFilter, diffusesSkyLight, blastResistance
      ensures Valid() && IsInit()
      ensures Tables() == AddFallback(old(Tables()), b)
    {
      KeyInRange(b.Id(), b.variant);
      var present := IsRegistered(b.Id(), b.variant);
      if present == Ok(false) {
        FillStaticArrays(Key(b.Id(), b.variant), b);
      }
    }

    /**
      One pass of the `register` loop, for meta `m`: skip a meta outside the candidates, report a
      taken state unless overriding, and otherwise try to store the decoded clone.
    */
    method RegisterStep(b: Block, ov: bool, m: int) returns (conflict: bool)
      requires Valid() && IsInit() && IdInRange(b.Id()) && 0 <= m <= LoopEnd(b)
      modifies fullList, stateMasks, lightFilter, diffusesSkyLight, blastResistance
      ensures Valid() && IsInit()
      ensures conflict <==> LoopStep(old(Tables()), b, ov, m).None?
      ensures Tables() == if conflict then old(Tables()) else LoopStep(old(Tables()), b, ov, m).value
    {
      ghost var t := Tables();
      var meta := MetaOf(m);
      KeyInRange(b.Id(), meta);
      conflict := false;
      if meta & !b.StateBitmask() != b.variant {
        assert !IsCandidate(meta, b.variant, b.StateBitmask());
        assert LoopStep(t, b, ov, m) == Some(t);
        return;
      }
      assert IsCandidate(meta, b.variant, b.StateBitmask());
      if !ov {
        var taken := IsRegistered(b.Id(), meta);
        if taken == Ok(true) {
          assert Registered(t, Key(b.Id(), meta));
          return true;
        }
        assert !Registered(t, Key(b.Id(), meta));
      }
      StoreState(b, meta);
    }

    /**
      The rest of one pass: decode `meta & stateMask` on a clone and store the clone under
      `(id, meta)` unless decoding throws or the clone reports a different meta.
    */
    method StoreState(b: Block, meta: Meta)
      requires Valid() && IsInit() && IdInRange(b.Id()) && IsCandidate(meta, b.variant, b.StateBitmask())
      modifies fullList, stateMasks, lightFilter, diffusesSkyLight, blastResistance
      ensures Valid() && IsInit()
      ensures Survivor(b, meta).None? ==> Tables() == old(Tables())
      ensures Survivor(b, meta).Some? ==> Tables() == Fill(old(Tables()), Key(b.Id(), meta), Survivor(b, meta).value)
    {
      var stateMask := b.StateBitmask();
      var v := b.ReadStateFromMeta(meta & stateMask);
      if v.None? || v.value.Damage() != meta {
        return;
      }
      KeyInRange(b.Id(), meta);
      FillStaticArrays(Key(b.Id(), meta), v.value);
    }

    /**
      `get($id, $meta)` without a position. Its steps are those of `Registry.Get`, which specifies
      it; the two are kept in step by the `ensures`.
    */
    method Get(id: int, meta: int) returns (r: Result<Block, Error>)
      requires Valid() && IsInit()
      ensures r == Registry.Get(Tables(), id, meta)
    {
      if meta < 0 || meta > 0xf {
        return Err(MetaOutOfBounds);
      }
      var index := id * 16 + meta;
      if !(0 <= index < Capacity) {
        return Err(IdOutOfBounds);
      }
      var x := fullList[index];
      if x.Some? {
        r := Ok(x.value);
      } else {
        r := Ok(UnknownBlock(id, MetaOf(meta)));
      }
    }

    /** `fromFullBlock($fullState)` without a position. */
    method FromFullBlock(fullState: int) returns (r: Result<Block, Error>)
      requires Valid() && IsInit()
      ensures r == Registry.FromFullBlock(Tables(), fullState)
    {
      r := Get(fullState / 16, fullState % 16);
    }

    /** `getStateMask($id)`, indexed by `$id` as written; the steps of `Registry.GetStateMask`. */
    method GetStateMask(id: int) returns (r: Meta)
      requires Valid() && IsInit()
      ensures r == Registry.GetStateMask(Tables(), id)
    {
      r := 0;
      if 0 <= id < Capacity {
        var x := stateMasks[id];
        if x.Some? {
          r := x.value;
        }
      }
    }

    /**
      The slab pair of the catalogue: the half slab, then a clone set to DOUBLE. A failure of
      the first registration propagates before the second one starts. What the pair stores is
      `SlabRegistration.RegisterSlabPair`.
    */
    method RegisterSlabType(s: Slabs.Slab) returns (o: Outcome<Error>)
      requires Valid() && IsInit()
      modifies fullList, stateMasks, lightFilter, diffusesSkyLight, blastResistance
      ensures Valid() && IsInit()
      ensures var r1 := Registry.Register(old(Tables()), s.Descriptor(), false);
              if r1.1.Fail? then (Tables(), o) == r1
              else (Tables(), o) == Registry.Register(r1.0, SlabOf(s.id, s.doubleId, s.variant, s.props, SlabState.Double), false)
    {
      o := Register(s.Descriptor(), false);
      if o.Fail? {
        return;
      }
      var c := s.Clone();
      var d := c.SetSlabType(SlabState.Double);
      o := Register(d.Descriptor(), false);
    }

    /** `registerMapping`: records one pair in both directions. The tables are untouched. */
    method RegisterMapping(runtimeId: int, legacyId: int, legacyMeta: Meta)
      modifies this
      ensures Bridge() == RuntimeIds.RegisterMapping(old(Bridge()), runtimeId, legacyId, legacyMeta)
      ensures SameArrays()
    {
      var key := legacyId * 16 + legacyMeta as int;
      staticRuntimeIdMap := staticRuntimeIdMap[key := runtimeId];
      legacyIdMap := legacyIdMap[runtimeId := key];
      lastRuntimeId := if lastRuntimeId >= runtimeId then lastRuntimeId else runtimeId;
    }

    /**
      The loop of `registerStaticRuntimeIdMappings` over the decoded runtime-id table and the
      name-to-legacy-id map; reading and decoding the two JSON resources is not modelled.
    */
    method RegisterStaticRuntimeIdMappings(table: seq<RuntimeEntry>, names: map<string, int>)
      modifies this
      ensures Bridge() == LoadFrom(old(Bridge()), table, names, 0)
      ensures SameArrays()
    {
      var k := 0;
      while k < |table|
        invariant 0 <= k <= |table|
        invariant LoadFrom(old(Bridge()), table, names, 0) == LoadFrom(Bridge(), table, names, k)
        invariant SameArrays()
      {
        var obj := table[k];
        if obj.name in names {
          RegisterMapping(k, names[obj.name], obj.data);
        }
        k := k + 1;
      }
    }

    /** `toStaticRuntimeId($id, $meta)`: the three tiers of `RuntimeIds.ToStaticRuntimeId`, on the fields. */
    method ToStaticRuntimeId(id: int, meta: Meta) returns (r: Option<int>)
      ensures r == RuntimeIds.ToStaticRuntimeId(Bridge(), id, meta)
    {
      var exact := id * 16 + meta as int;
      if exact in staticRuntimeIdMap {
        return Some(staticRuntimeIdMap[exact]);
      }
      if id * 16 in staticRuntimeIdMap {
        return Some(staticRuntimeIdMap[id * 16]);
      }
      if InfoUpdate * 16 in staticRuntimeIdMap {
        return Some(staticRuntimeIdMap[InfoUpdate * 16]);
      }
      r := None;
    }

    /** `fromStaticRuntimeId($runtimeId)`: the steps of `RuntimeIds.FromStaticRuntimeId`, on the fields. */
    method FromStaticRuntimeId(runtimeId: int) returns (r: Option<(int, Meta)>)
      ensures r == RuntimeIds.FromStaticRuntimeId(Bridge(), runtimeId)
    {
      if runtimeId !in legacyIdMap {
        return None;
      }
      var v := legacyIdMap[runtimeId];
      r := Some((v / 16, MetaOf(v % 16)));
    }
  }
}
