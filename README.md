# Block registry and slabs of PocketMine-MP, in Dafny

This project models two parts of PocketMine-MP's block layer and proves properties of them.

1. **The block registry**, `BlockFactory`. It is modelled in two layers.
   - **The value layer.** Module `Registry` holds the five parallel 8192-slot tables. These are the block list, the state masks, the light filters, the sky-light flags and the blast resistances, indexed by the full key `(id << 4) | meta`. The module models `register` as functions on those tables: the pre-checks, the loop over candidate metas, the decode/re-encode filter and the fallback entry. It also models the lookups `get`, `fromFullBlock`, `isRegistered` and `getStateMask`.
   - **The runtime-id bridge.** Module `RuntimeIds` models it as a value: the forward map, the reverse map and the running maximum.
   - **The object layer.** Class `Factory.BlockFactory` keeps the same state as the source's static fields: five arrays that are null until `Init`, two maps and an integer. It runs the source's loops on them, and each method is proved equal to its value-level counterpart.
2. **The slab block**, `Slab`.
   - Module `SlabState` holds the pure parts. These are the id switch to `doubleId` when DOUBLE, the one-bit state codec (`0x08` for TOP), transparency, the drop count, the trimmed face, the slab branch of `canBePlacedAt` and the state decision of `place`.
   - Class `Slabs.Slab` is the object whose `slabType` changes in place.
   - Module `SlabRegistration` proves what registering a half slab and its DOUBLE clone stores.

Other supporting modules:
- `Bits` holds the 4-bit meta type, full keys, and the enumeration of candidate metas. Its bound is `2^popcount(mask)` candidates.
- `Blocks` describes a block by what the registry asks of it:
  - id, variant and state bitmask;
  - a decoding of a meta that may fail;
  - the meta its state encodes to;
  - three property values copied through.
- `Outcomes` holds `Option`, `Result` and a pass/fail `Outcome`.

Exceptions are results. Each distinct cause is one constructor of `Registry.Error`.

### Behaviour worth noting
The model keeps each of these as the code has it.
- A slab placed as a fresh half by clicking a DOWN face becomes TOP at any click height. It becomes DOUBLE instead when it merges with a clicked TOP slab or fills the empty upper half of a same-type BOTTOM slab. `DownFaceGivesTop` proves this.
- A slab's state bitmask is `0b1000` in every state, DOUBLE included.
- The fallback entry that `register` stores under `(id, variant)` is the prototype itself. It need not report the meta it is stored under.
- `getStateMask($id)` indexes the mask table with `$id` itself, although every write uses the full key `$id << 4 | meta`. The model keeps this as written.
  - `StateMaskReadsFullKey` says what the lookup actually reads.
  - `GetStateMaskMissesSlab` shows a registered slab whose mask the lookup does not return.
- `toStaticRuntimeId` tries the exact key, then `(id, 0)`, then the placeholder block's key, as its own comment at `src/pocketmine/block/BlockFactory.php:665-667` says. Its `int` return type promises an answer, but when even the placeholder block has no runtime id the last lookup is an undefined index. The model returns `None` there.

## Model

| member | source | states |
|---|---|---|
| Bits.KeySplit | src/pocketmine/block/BlockFactory.php:557 | the full key `(id << 4) \| m` splits back into `id` (`>> 4`) and `m` (`& 0xf`) for every id and 4-bit meta |
| Bits.KeyJoin | src/pocketmine/block/BlockFactory.php:621-623 | every integer `k` is the key of `(k >> 4, k & 0xf)`, negative ones included |
| Bits.KeyInRange | src/pocketmine/block/BlockFactory.php:602-608 | a key lies inside the 8192 slots exactly when its id lies in 0..511 |
| Bits.IsCandidate | src/pocketmine/block/BlockFactory.php:549-551 | a meta passes the loop's filter only when the variant and the mask share no bit; then it passes exactly when it keeps every variant bit and differs from the variant only in masked bits |
| Bits.CandidateBounds | src/pocketmine/block/BlockFactory.php:548-551 | every meta with `(m & ~mask) == variant` lies between `variant` and `variant \| mask`, the loop's range |
| Bits.CandidateListComplete | src/pocketmine/block/BlockFactory.php:548-551 | every candidate meta is in the enumerated list `variant \| s` over submasks `s` of the mask |
| Bits.CandidateListSound | src/pocketmine/block/BlockFactory.php:548-551 | every listed meta is a candidate when the variant and the mask share no bit |
| Bits.CandidateKeysMembers | src/pocketmine/block/BlockFactory.php:548-557 | a key is among the candidate keys exactly when its id is the block's and its meta is a candidate |
| Bits.CandidateKeysCount | src/pocketmine/block/BlockFactory.php:548-551 | a block has exactly `2^popcount(mask)` candidate keys |
| SlabState.GetId | src/pocketmine/block/Slab.php:46-48 | the id is `doubleId` exactly when DOUBLE, the base id otherwise |
| SlabState.WriteStateToMeta | src/pocketmine/block/Slab.php:50-55 | the encoded state lies within the mask `0b1000` and is nonzero exactly for TOP |
| SlabState.ReadStateFromMeta | src/pocketmine/block/Slab.php:57-61 | DOUBLE stays DOUBLE; a half slab becomes TOP exactly when bit 3 is set; re-encoding gives `meta & 8` for a half slab and 0 for a double |
| SlabState.MetaRoundTrip | src/pocketmine/block/Slab.php:50-61 | decoding the encoded state gives the state back, in all three states |
| SlabState.IdAndMetaDetermineState | src/pocketmine/block/Slab.php:46-55 | with distinct ids, the id and the meta together determine the state |
| SlabState.IsTransparent | src/pocketmine/block/Slab.php:67-69 | transparent exactly when not DOUBLE |
| SlabState.DropCount | src/pocketmine/block/Slab.php:137-139 | two items exactly when DOUBLE, one otherwise |
| SlabState.DropsTwoIffOpaque | src/pocketmine/block/Slab.php:67-69 | a slab drops two items exactly when it is not transparent |
| SlabState.BoundingBox | src/pocketmine/block/Slab.php:130-135 | full cube exactly when DOUBLE; otherwise trimmed by 0.5, on the DOWN face for TOP and the UP face for BOTTOM |
| SlabState.CanBePlacedAt | src/pocketmine/block/Slab.php:90-104 | the base class's approval always suffices; without it, only a same-type half slab can be replaced; against TOP iff `y <= 0.5` or (not the clicked block and face UP), against BOTTOM iff `y >= 0.5` or (not the clicked block and face DOWN) |
| SlabState.FreshHalf | src/pocketmine/block/Slab.php:124 | never DOUBLE; DOWN gives TOP, UP gives BOTTOM, a side face gives TOP iff `y > 0.5` |
| SlabState.PlaceOutcome | src/pocketmine/block/Slab.php:106-128 | the write goes to the clicked block exactly when it is a same-type half slab clicked on the complementary face, and then the slab is DOUBLE; when the write goes to the replaced position, the slab is DOUBLE exactly when that position holds a same-type half slab clicked in its empty half (TOP: `y <= 0.5` or face UP; BOTTOM: `y >= 0.5` or face DOWN); otherwise the fresh half |
| SlabState.PlaceableIntoSlabBecomesDouble | src/pocketmine/block/Slab.php:117-122 | whenever the slab branch of `canBePlacedAt` admits a placement, `place` makes the slab DOUBLE |
| SlabState.StackOnBottomSlab | src/pocketmine/block/Slab.php:109-115 | clicking the UP face of a same-type BOTTOM slab merges into a DOUBLE at the clicked block, which drops two items |
| SlabState.DownFaceGivesTop | src/pocketmine/block/Slab.php:124 | whenever the slab does not become DOUBLE, a click on a DOWN face places TOP at the replaced position whatever the click height and the neighbouring blocks |
| Blocks.Block.ReadStateFromMeta | src/pocketmine/block/BlockFactory.php:559-567 | decoding on a clone fails exactly for a meta outside the block's valid states; it keeps id, variant, mask, properties and unknown-ness; a slab decodes as the slab codec says |
| Blocks.Block.StateBitmask | src/pocketmine/block/Slab.php:63-65 | a slab's mask is `0b1000` in every state and covers what its state encodes to; the placeholder's is 0 |
| Blocks.Block.Damage | src/pocketmine/block/BlockFactory.php:562 | the reported meta keeps every variant bit, and its other bits are those the state encodes to; the placeholder reports its variant |
| Blocks.UnknownBlock | src/pocketmine/block/BlockFactory.php:610-612 | the placeholder is unknown, has the requested id, reports the requested meta and has no state bits |
| Blocks.SlabOf | src/pocketmine/block/Slab.php:40-65 | a slab block reports `doubleId` iff DOUBLE, mask 8, and meta `variant \| encoded state` |
| Blocks.SlabDecodesOwnDamage | src/pocketmine/block/BlockFactory.php:561-563 | a slab whose variant leaves bit 3 clear passes the registry's round-trip check, and reports `variant \| 8` exactly for TOP |
| Slabs.Slab.constructor | src/pocketmine/block/Slab.php:40-44 | a new slab keeps its ids, variant and properties and starts as BOTTOM |
| Slabs.Slab.Clone | src/pocketmine/block/BlockFactory.php:378 | a clone is a fresh object in the same state |
| Slabs.Slab.ReadStateFromMeta | src/pocketmine/block/Slab.php:57-61 | the new state is the codec's decoding of the old state and the meta, and the object now is the block value the registry's clone decoding produces |
| Slabs.Slab.SetSlabType | src/pocketmine/block/Slab.php:85-88 | sets the state, returns the same object, and the id follows the state |
| Slabs.Slab.Place | src/pocketmine/block/Slab.php:106-128 | the new state and the write target are `PlaceOutcome`'s; a write at the clicked block is a DOUBLE reporting `doubleId` |
| Registry.EmptyTables | src/pocketmine/block/BlockFactory.php:70-77 | every slot of the fresh tables is empty with light filter 1, no sky-light diffusion and blast resistance 0 |
| Registry.FilledEntry | src/pocketmine/block/BlockFactory.php:577-583 | the entry stores the block and its mask, a light filter of `min(15, filter + 1)`, and the other two properties |
| Registry.Fill | src/pocketmine/block/BlockFactory.php:577-583 | all five tables change at the index and nowhere else |
| Registry.Survivor | src/pocketmine/block/BlockFactory.php:557-567 | a stored clone comes from a candidate meta, reports exactly that meta, and keeps id, mask, unknown-ness and properties |
| Registry.RegisterFrom | src/pocketmine/block/BlockFactory.php:548-570 | the loop keeps the tables well-sized and can only fail with a state conflict |
| Registry.LoopStep | src/pocketmine/block/BlockFactory.php:549-569 | one pass throws exactly when, without override, its meta is a candidate already registered |
| Registry.RegisterFromByStep | src/pocketmine/block/BlockFactory.php:548-570 | the loop from `m` is one pass and then the loop from `m + 1`, or the throw of that pass |
| Registry.AddFallback | src/pocketmine/block/BlockFactory.php:572-574 | the prototype's entry is stored under `(id, variant)` exactly when that key is not registered, and no other slot changes; a known prototype's key is registered afterwards |
| Registry.Register | src/pocketmine/block/BlockFactory.php:534-575 | fails with a variant/mask collision iff they share a bit, with an out-of-range index iff the id is outside 0..511; every failure except a state conflict leaves the tables unchanged |
| Registry.RegisterFromFails | src/pocketmine/block/BlockFactory.php:548-555 | the loop throws exactly when, without override, some candidate from `m` on is already registered |
| Registry.RegisterFromAt | src/pocketmine/block/BlockFactory.php:548-570 | after the loop each key it writes holds its survivor's entry (or, after a throw, possibly the old one); every other key is unchanged |
| Registry.RegisterSucceedsAt | src/pocketmine/block/BlockFactory.php:534-575 | after a successful register, each key holds the fallback prototype, or its survivor, or its old entry, as `RegisteredEntry` decides |
| Registry.RegisterChangesAt | src/pocketmine/block/BlockFactory.php:534-575 | whatever the outcome, a key changes only if it is a surviving candidate key or the fallback key, and then to that block's entry |
| Registry.RegisterOutcome | src/pocketmine/block/BlockFactory.php:540-555 | register passes exactly when the pre-checks pass and no candidate conflicts; with override it passes iff the variant clears the mask and the id is in range; a taken `(id, variant)` fails with the tables untouched |
| Registry.RegisterMakesRegistered | src/pocketmine/block/BlockFactory.php:572-574 | after a successful register of a known block, `(id, variant)` is registered |
| Registry.ChangedKeyIsCandidate | src/pocketmine/block/BlockFactory.php:548-569 | every changed key has the block's id and a candidate meta within the loop range |
| Registry.RegisterChangesFewKeys | src/pocketmine/block/BlockFactory.php:548-551 | register changes at most `2^popcount(stateMask)` keys, all within `[variant, variant \| stateMask]` of the block's id |
| Registry.EmptyConsistent | src/pocketmine/block/BlockFactory.php:70-77 | fresh tables satisfy the table invariant |
| Registry.RegisterPreservesConsistent | src/pocketmine/block/BlockFactory.php:534-583 | register keeps the invariant: empty slots hold the defaults, filled slots the fill entry of a block stored under its own id |
| Registry.ConsistentLightBounded | src/pocketmine/block/BlockFactory.php:580 | under the invariant every light filter is at most 15 |
| Registry.Get | src/pocketmine/block/BlockFactory.php:594-619 | rejects a meta outside 0..15 and an id whose key is outside the tables; otherwise it always answers: the stored block, or for an empty slot a placeholder carrying the requested id and meta; the block is unknown exactly when the slot is not registered |
| Registry.GetGivesRequestedId | src/pocketmine/block/BlockFactory.php:594-619 | under the invariant `get` answers with a block of the requested id |
| Registry.FromFullBlock | src/pocketmine/block/BlockFactory.php:621-623 | never a meta error; fails exactly for keys outside the tables; a filled slot gives the stored block, an empty one the placeholder for `(k >> 4, k & 0xf)` |
| Registry.FromFullBlockOfKey | src/pocketmine/block/BlockFactory.php:621-623 | `fromFullBlock((id << 4) \| m) == get(id, m)` |
| Registry.IsRegistered | src/pocketmine/block/BlockFactory.php:637-640 | fails exactly for ids outside 0..511; otherwise true exactly when `get` gives a known block |
| Registry.GetAfterRegister | src/pocketmine/block/BlockFactory.php:562-563 | after a successful register, `get` of every surviving meta gives the decoded clone, which reports that meta |
| Registry.GetStateMask | src/pocketmine/block/BlockFactory.php:625-627 | the answer is the mask stored in slot `$id` when that slot holds one, and 0 otherwise |
| Registry.StateMaskReadsFullKey | src/pocketmine/block/BlockFactory.php:625-627 | under the invariant the answer is the mask of the block under full key `$id`, i.e. of block `($id >> 4, $id & 0xf)` |
| SlabRegistration.SlabCandidates | src/pocketmine/block/BlockFactory.php:548-551 | with mask 8 and bit 3 clear in the variant, the candidates are exactly `v` and `v \| 8` |
| SlabRegistration.RegisterHalfSlab | src/pocketmine/block/BlockFactory.php:377 | a half slab registers and stores BOTTOM under `(id, v)` and TOP under `(id, v \| 8)` |
| SlabRegistration.RegisterDoubleSlab | src/pocketmine/block/BlockFactory.php:378 | the DOUBLE clone registers, stores itself under `(doubleId, v)` and leaves `(doubleId, v \| 8)` as it was, because that candidate re-encodes to `v` |
| SlabRegistration.RegisterSlabPair | src/pocketmine/block/BlockFactory.php:376-379 | the pair registers both times and stores the BOTTOM, TOP and DOUBLE blocks under their three keys, leaving the fourth unchanged |
| SlabRegistration.GetStateMaskMissesSlab | src/pocketmine/block/BlockFactory.php:625-627 | after registering a slab with id 44 its slot holds mask 8, yet `getStateMask(44)` answers 0 |
| RuntimeIds.ToStaticRuntimeId | src/pocketmine/block/BlockFactory.php:663-670 | the answer is a recorded runtime id: that of the exact key when present, else that of `(id, 0)`, else that of the placeholder `(248, 0)`; it is missing exactly when all three keys are missing |
| RuntimeIds.FromStaticRuntimeId | src/pocketmine/block/BlockFactory.php:679-682 | succeeds exactly for recorded runtime ids and returns the id and meta whose key was recorded |
| RuntimeIds.RegisterMapping | src/pocketmine/block/BlockFactory.php:684-688 | both maps record the pair and nothing else changes in them; the maximum never decreases, covers the new id and is one of the two |
| RuntimeIds.MappingRoundTrip | src/pocketmine/block/BlockFactory.php:663-688 | after `registerMapping(r, id, meta)`, `fromStaticRuntimeId(r) == [id, meta]` and `toStaticRuntimeId(id, meta) == r` |
| RuntimeIds.LoadFrom | src/pocketmine/block/BlockFactory.php:646-652 | loading never lowers the running maximum |
| RuntimeIds.LoadReverseEntries | src/pocketmine/block/BlockFactory.php:646-652 | after loading, each resolvable entry's position maps back to its name's legacy id and its data, and the maximum covers it; every other runtime id keeps its reverse entry |
| RuntimeIds.LoadForwardEntries | src/pocketmine/block/BlockFactory.php:646-652 | loading gives a legacy key a forward entry exactly when a later resolvable entry records it, pointing at the last such position; any other key keeps its old forward entry |
| RuntimeIds.LoadedForwardMap | src/pocketmine/block/BlockFactory.php:642-653 | after loading into an empty bridge, a legacy key has a runtime id exactly when some resolvable entry records it, and that runtime id is the last such entry's position |
| RuntimeIds.LoadSkipsUnresolvable | src/pocketmine/block/BlockFactory.php:648-650 | an entry whose name has no legacy id leaves no reverse entry |
| RuntimeIds.LoadKeepsCoherent | src/pocketmine/block/BlockFactory.php:646-652 | loading fresh positions keeps every forward entry's reverse entry pointing back to it |
| RuntimeIds.LoadedBridgeRoundTrip | src/pocketmine/block/BlockFactory.php:646-682 | after loading into an empty bridge, the runtime id found for a recorded state converts back to that state |
| Factory.BlockFactory.IsInit | src/pocketmine/block/BlockFactory.php:517-519 | initialised exactly when all five tables exist |
| Factory.BlockFactory.constructor | src/pocketmine/block/BlockFactory.php:44-64 | before `init` there are no tables, both maps are empty and the maximum is 0 |
| Factory.BlockFactory.Init | src/pocketmine/block/BlockFactory.php:70-77 | allocates fresh tables equal to the empty tables and leaves the bridge alone |
| Factory.BlockFactory.FillStaticArrays | src/pocketmine/block/BlockFactory.php:577-583 | the arrays' contents become `Fill` of their old contents |
| Factory.BlockFactory.IsRegistered | src/pocketmine/block/BlockFactory.php:637-640 | answers as `Registry.IsRegistered` on the current tables |
| Factory.BlockFactory.Register | src/pocketmine/block/BlockFactory.php:534-575 | the new tables and the outcome are `Registry.Register` of the old tables |
| Factory.BlockFactory.RegisterStates | src/pocketmine/block/BlockFactory.php:548-570 | the loop leaves the tables and the outcome `Registry.RegisterFrom` gives from the variant |
| Factory.BlockFactory.RegisterStep | src/pocketmine/block/BlockFactory.php:549-569 | one pass reports a conflict exactly as `LoopStep` does and leaves the tables it gives |
| Factory.BlockFactory.StoreState | src/pocketmine/block/BlockFactory.php:557-569 | a candidate's clone is stored exactly when it survives decoding, and the tables are unchanged otherwise |
| Factory.BlockFactory.AddDefaultState | src/pocketmine/block/BlockFactory.php:572-574 | the tables become `AddFallback` of the old ones |
| Factory.BlockFactory.Get | src/pocketmine/block/BlockFactory.php:594-619 | answers as `Registry.Get` on the current tables |
| Factory.BlockFactory.FromFullBlock | src/pocketmine/block/BlockFactory.php:621-623 | answers as `Registry.FromFullBlock` on the current tables |
| Factory.BlockFactory.GetStateMask | src/pocketmine/block/BlockFactory.php:625-627 | answers as `Registry.GetStateMask` on the current tables |
| Factory.BlockFactory.RegisterSlabType | src/pocketmine/block/BlockFactory.php:376-379 | registers the half slab and, only if that passed, its DOUBLE clone, with the tables and outcome of the two `Registry.Register` steps |
| Factory.BlockFactory.RegisterMapping | src/pocketmine/block/BlockFactory.php:684-688 | the bridge becomes `RuntimeIds.RegisterMapping` of the old one, and the tables are untouched |
| Factory.BlockFactory.RegisterStaticRuntimeIdMappings | src/pocketmine/block/BlockFactory.php:642-653 | the bridge becomes `RuntimeIds.LoadFrom` of the old one over the whole table |
| Factory.BlockFactory.ToStaticRuntimeId | src/pocketmine/block/BlockFactory.php:663-670 | answers as `RuntimeIds.ToStaticRuntimeId` on the current bridge |
| Factory.BlockFactory.FromStaticRuntimeId | src/pocketmine/block/BlockFactory.php:679-682 | answers as `RuntimeIds.FromStaticRuntimeId` on the current bridge |

## Left out

- Reading and JSON-decoding the two resource files in `registerStaticRuntimeIdMappings` is I/O. The decoded runtime-id table and the name map are parameters.
- The ~300 concrete registrations in `init` are left out, because their block classes are not part of this model. So are the TODO list and the other slab types. The slab half/double pattern is kept.
- `init` re-runs allocation when called again. What the catalogue would then re-register is outside the model.
- The `Position` argument of `get` and `fromFullBlock` is world plumbing and is not modelled.
- `setBlock` on the level and the base class's `place` are not modelled. `Slabs.Slab.Place` returns which of the two the source calls.
- The base class's `isSameType` and `canBePlacedAt` are passed in as booleans.
- `AxisAlignedBB` geometry is reduced to the trimmed face and amount.
- The item of `getDropsForCompatibleTool` is reduced to its count.
- `getSlabType` is a plain read of the `slabType` field.
- Light filter, sky-light diffusion and blast resistance are values the registry copies through without reading them. Blast resistance is a `real`, not a float.
- `UnknownBlock`'s class is not part of this model. `Blocks.UnknownProps` picks its property values.
- The operations of `BlockFactory` require `init` to have run. Behaviour before `init`, which accesses null tables, is not modelled.
- The id constants class `BlockIds` is not part of this model. `RuntimeIds.InfoUpdate` carries its value 248.
- Blocks.Block.Damage: the base class's `getDamage` is outside this model, so the meta a block reports is taken to be `variant | writeStateToMeta()`.
- Registry.IsRegistered: metas are 4-bit values. A meta above 15, which PHP's `|` would merge into the id bits, is not modelled.
- Factory.BlockFactory.IsRegistered: as above, the meta is a 4-bit value.
- Registry.Register: a variant or state mask wider than 4 bits is not modelled, because both are `Meta` values.
- RuntimeIds.RegisterMapping: the legacy meta is a 4-bit value. The `data` field of a runtime-id table entry above 15 is not modelled.
- Factory.BlockFactory.Register: for an id outside 0..511 it returns `IndexOutOfRange` up front. The source throws at its first table access instead. Both write nothing; only the exception's class and message differ.
- RuntimeIds.FromStaticRuntimeId: the source reads an undefined index for an unrecorded runtime id. The error handler's exception is modelled as `None`.
- Bits.Key: keys are unbounded integers. PHP's `$id << 4` is a 64-bit shift that drops high bits, so for an id of magnitude 2^59 or more the source's key wraps around (id `2^60 + 3` gives key 48). The model has no wrap-around.
- Registry.Get: for an id of magnitude 2^59 or more it reports `IdOutOfBounds`. The source's wrapped key may land inside the tables and return another id's block.
- Registry.Register: for an id of magnitude 2^59 or more it reports `IndexOutOfRange`. The source may write the wrapped slots instead.
- RuntimeIds.ToStaticRuntimeId: the meta is a 4-bit value. A meta above 15, which PHP's `($id << 4) | $meta` would merge into the id bits, is not modelled.
- Registry.IsRegistered: as for `Registry.Get`, ids of magnitude 2^59 or more are not wrapped.
- RuntimeIds.RegisterMapping: as for `Bits.Key`, the legacy key of an id of magnitude 2^59 or more is not wrapped.
- The source's static fields are one object's fields. Concurrent access is not modelled.
