/**
  The block registry of src/pocketmine/block/BlockFactory.php as values: the five parallel
  8192-slot tables, what `register` does to them, and the lookups. The class `Factory.BlockFactory`
  runs the same operations on arrays and is proved to agree with the functions here.
*/
module Registry {
  import opened Bits
  import opened Outcomes
  import opened Blocks

  /** The exceptions the registry throws, one constructor per distinct cause. */
  datatype Error =
    | VariantCollidesWithStateMask  // `register`: the variant uses a bit of the state mask
    | RegistrationConflict          // `register`: `(id, variant)` is already taken
    | StateConflict                 // `register`: one of the enumerated states is already taken
    | IndexOutOfRange               // a key outside the fixed-size tables
    | MetaOutOfBounds               // `get`: a meta outside 0..15
    | IdOutOfBounds                 // `get`: an id whose key lies outside the tables

  /** `$fullList`, `$stateMasks`, `$lightFilter`, `$diffusesSkyLight` and `$blastResistance`. */
  datatype Tables = Tables(blocks: seq<Option<Block>>, masks: seq<Option<Meta>>,
                           light: seq<int>, sky: seq<bool>, blast: seq<real>)
  {
    predicate WellSized()
    {
      |blocks| == Capacity && |masks| == Capacity && |light| == Capacity &&
      |sky| == Capacity && |blast| == Capacity
    }
  }

  /** What the five tables hold at one index. */
  datatype Entry = Entry(block: Option<Block>, mask: Option<Meta>, light: int, sky: bool, blast: real)

  function EntryAt(t: Tables, i: int): Entry
    requires t.WellSized() && 0 <= i < Capacity
  {
    Entry(t.blocks[i], t.masks[i], t.light[i], t.sky[i], t.blast[i])
  }

  /** The tables `init` allocates: empty slots, light filter 1, no sky-light diffusion, blast 0. */
  function EmptyTables(): (t: Tables)
    ensures t.WellSized()
    ensures forall i :: 0 <= i < Capacity ==> EntryAt(t, i) == EmptyEntry
  {
    Tables(seq(Capacity, _ => None), seq(Capacity, _ => None), seq(Capacity, _ => 1),
           seq(Capacity, _ => false), seq(Capacity, _ => 0.0))
  }

  const EmptyEntry: Entry := Entry(None, None, 1, false, 0.0)

  /**
    What `fillStaticArrays` writes for a block: the block, its state bitmask, its light filter
    plus one capped at 15, and its two other properties.
  */
  function FilledEntry(b: Block): (e: Entry)
    ensures e.block == Some(b) && e.mask == Some(b.StateBitmask())
    ensures e.light <= 15 && (e.light == 15 || e.light == b.props.lightFilter + 1)
    ensures b.props.lightFilter + 1 <= 15 ==> e.light == b.props.lightFilter + 1
    ensures e.sky == b.props.diffusesSkyLight && e.blast == b.props.blastResistance
  {
    var l := b.props.lightFilter + 1;
    Entry(Some(b), Some(b.StateBitmask()), if l < 15 then l else 15,
          b.props.diffusesSkyLight, b.props.blastResistance)
  }

  /** `fillStaticArrays($index, $block)`: the five tables change at `i` and nowhere else. */
  function Fill(t: Tables, i: int, b: Block): (r: Tables)
    requires t.WellSized() && 0 <= i < Capacity
    ensures r.WellSized()
    ensures EntryAt(r, i) == FilledEntry(b)
    ensures forall j :: 0 <= j < Capacity && j != i ==> EntryAt(r, j) == EntryAt(t, j)
  {
    var e := FilledEntry(b);
    Tables(t.blocks[i := e.block], t.masks[i := e.mask], t.light[i := e.light],
           t.sky[i := e.sky], t.blast[i := e.blast])
  }

  /** `isRegistered` at a key inside the tables: the slot holds a block that is not Unknown. */
  predicate Registered(t: Tables, key: int)
    requires t.WellSized()
  {
    0 <= key < Capacity && t.blocks[key].Some? && !t.blocks[key].value.IsUnknown()
  }

  /**
    The block `register` stores for meta `m`, if any: `m` must be a candidate of `b`, decoding
    `m & stateMask` on a clone must succeed, and the decoded clone must report `m` back.
  */
  function Survivor(b: Block, m: Meta): (r: Option<Block>)
    ensures r.Some? ==> IsCandidate(m, b.variant, b.StateBitmask()) && r.value.Damage() == m
    ensures r.Some? ==> r.value.Id() == b.Id() && r.value.IsUnknown() == b.IsUnknown() &&
                        r.value.StateBitmask() == b.StateBitmask() && r.value.props == b.props
  {
    var mask := b.StateBitmask();
    if !IsCandidate(m, b.variant, mask) then None
    else match b.ReadStateFromMeta(m & mask)
      case None => None
      case Some(v) => if v.Damage() == m then Some(v) else None
  }

  /** The highest meta the `register` loop visits, `variant | stateMask`. */
  function LoopEnd(b: Block): int
  {
    (b.variant | b.StateBitmask()) as int
  }

  /** The ids whose sixteen keys all lie inside the tables. */
  predicate IdInRange(id: int)
  {
    0 <= id < Capacity / 16
  }

  /**
    The `register` loop from meta `m` on: skip non-candidates, throw on a taken state unless
    overriding, fill the tables for every survivor. A throw keeps what earlier steps wrote.
  */
  function RegisterFrom(t: Tables, b: Block, ov: bool, m: int): (r: (Tables, Outcome<Error>))
    requires t.WellSized() && IdInRange(b.Id()) && 0 <= m
    ensures r.0.WellSized()
    ensures r.1.Fail? ==> r.1.error == StateConflict
    decreases 16 - m
  {
    if m > LoopEnd(b) then (t, Pass)
    else
      var meta := MetaOf(m);
      var key := Key(b.Id(), meta);
      KeyInRange(b.Id(), meta);
      if !IsCandidate(meta, b.variant, b.StateBitmask()) then RegisterFrom(t, b, ov, m + 1)
      else if !ov && Registered(t, key) then (t, Fail(StateConflict))
      else match Survivor(b, meta)
        case None => RegisterFrom(t, b, ov, m + 1)
        case Some(v) => RegisterFrom(Fill(t, key, v), b, ov, m + 1)
  }

  /**
    One pass of the `register` loop at meta `m < 16`: the tables to go on with, or `None` when
    the pass throws because the state is taken.
  */
  function LoopStep(t: Tables, b: Block, ov: bool, m: int): (r: Option<Tables>)
    requires t.WellSized() && IdInRange(b.Id()) && 0 <= m < 16
    ensures r.Some? ==> r.value.WellSized()
    ensures r.None? <==> !ov && IsCandidate(MetaOf(m), b.variant, b.StateBitmask()) && Registered(t, Key(b.Id(), MetaOf(m)))
  {
    var meta := MetaOf(m);
    var key := Key(b.Id(), meta);
    KeyInRange(b.Id(), meta);
    if !IsCandidate(meta, b.variant, b.StateBitmask()) then Some(t)
    else if !ov && Registered(t, key) then None
    else match Survivor(b, meta)
      case None => Some(t)
      case Some(v) => Some(Fill(t, key, v))
  }

  /** The loop from `m` on is one pass followed by the loop from `m + 1` on. */
  lemma RegisterFromByStep(t: Tables, b: Block, ov: bool, m: int)
    requires t.WellSized() && IdInRange(b.Id()) && 0 <= m <= LoopEnd(b)
    ensures LoopStep(t, b, ov, m).None? ==> RegisterFrom(t, b, ov, m) == (t, Fail(StateConflict))
    ensures LoopStep(t, b, ov, m).Some? ==> RegisterFrom(t, b, ov, m) == RegisterFrom(LoopStep(t, b, ov, m).value, b, ov, m + 1)
  {
  }

  /**
    `register($block, $override)`: the two checks before the loop, the loop, and the fallback
    that stores the prototype itself under `(id, variant)` when the loop left that key free.
    An id outside 0..511 has every key outside the tables; the source's first table access
    throws there and nothing is written.
  */
  function Register(t: Tables, b: Block, ov: bool): (r: (Tables, Outcome<Error>))
    requires t.WellSized()
    ensures r.0.WellSized()
    ensures r.1 == Fail(VariantCollidesWithStateMask) <==> b.variant & b.StateBitmask() != 0
    ensures r.1 == Fail(IndexOutOfRange) <==> b.variant & b.StateBitmask() == 0 && !IdInRange(b.Id())
    ensures r.1.Fail? && r.1.error != StateConflict ==> r.0 == t
  {
    var id := b.Id();
    if b.variant & b.StateBitmask() != 0 then (t, Fail(VariantCollidesWithStateMask))
    else if !IdInRange(id) then (t, Fail(IndexOutOfRange))
    else if !ov && Registered(t, Key(id, b.variant)) then (t, Fail(RegistrationConflict))
    else
      KeyInRange(id, b.variant);
      var (t1, o) := RegisterFrom(t, b, ov, b.variant as int);
      if o.Fail? then (t1, o) else (AddFallback(t1, b), Pass)
  }

  /** The step after the loop: store the prototype under `(id, variant)` if that key is not registered. */
  function AddFallback(t: Tables, b: Block): (r: Tables)
    requires t.WellSized() && IdInRange(b.Id())
    ensures r.WellSized() && 0 <= Key(b.Id(), b.variant) < Capacity
    ensures EntryAt(r, Key(b.Id(), b.variant)) ==
              if Registered(t, Key(b.Id(), b.variant)) then EntryAt(t, Key(b.Id(), b.variant)) else FilledEntry(b)
    ensures forall i :: 0 <= i < Capacity && i != Key(b.Id(), b.variant) ==> EntryAt(r, i) == EntryAt(t, i)
    ensures !b.IsUnknown() ==> Registered(r, Key(b.Id(), b.variant))
  {
    KeyInRange(b.Id(), b.variant);
    if !Registered(t, Key(b.Id(), b.variant)) then Fill(t, Key(b.Id(), b.variant), b) else t
  }

  /** Key `i` is one the loop from meta `m` on fills: a key of the prototype's id whose meta, `m` or later, has a survivor. */
  predicate LoopWrites(b: Block, m: int, i: int)
  {
    KeyId(i) == b.Id() && KeyMeta(i) as int >= m && Survivor(b, KeyMeta(i)).Some?
  }

  /** Without override, some candidate from `m` on is already registered. */
  ghost predicate LoopConflict(t: Tables, b: Block, ov: bool, m: int)
    requires t.WellSized()
  {
    !ov && exists j: Meta :: j as int >= m && IsCandidate(j, b.variant, b.StateBitmask()) && Registered(t, Key(b.Id(), j))
  }

  /**
    What the loop from `m` on leaves at key `i` of tables that were `t`: a key it fills holds the
    survivor's entry (or, after a throw, possibly its old entry); every other key is unchanged.
  */
  predicate LoopEffect(t: Tables, u: Tables, b: Block, m: int, i: int, complete: bool)
    requires t.WellSized() && u.WellSized() && 0 <= i < Capacity
  {
    if LoopWrites(b, m, i) then
      EntryAt(u, i) == FilledEntry(Survivor(b, KeyMeta(i)).value) || (!complete && EntryAt(u, i) == EntryAt(t, i))
    else EntryAt(u, i) == EntryAt(t, i)
  }

  /** Within one id, meta `meta` picks out exactly the key `Key(id, meta)`. */
  lemma KeyOfMeta(id: int, meta: Meta, i: int)
    requires KeyId(i) == id
    ensures KeyMeta(i) == meta <==> i == Key(id, meta)
  {
    KeyJoin(i);
    KeySplit(id, meta);
  }

  /** A meta without a survivor adds no key to those the loop fills. */
  lemma SkippedMeta(b: Block, m: int, i: int)
    requires 0 <= m < 16 && Survivor(b, MetaOf(m)).None?
    ensures LoopWrites(b, m, i) == LoopWrites(b, m + 1, i)
  {
    if KeyId(i) == b.Id() && KeyMeta(i) as int == m {
      assert KeyMeta(i) == MetaOf(m);
    }
  }

  /** A meta that is not a taken candidate adds nothing to `LoopConflict`. */
  lemma ConflictStep(t: Tables, b: Block, ov: bool, m: int)
    requires t.WellSized() && 0 <= m < 16
    requires !(!ov && IsCandidate(MetaOf(m), b.variant, b.StateBitmask()) && Registered(t, Key(b.Id(), MetaOf(m))))
    ensures LoopConflict(t, b, ov, m) == LoopConflict(t, b, ov, m + 1)
  {
  }

  /** Filling the key of meta `m` leaves `LoopConflict` from `m + 1` on as it was. */
  lemma ConflictAfterFill(t: Tables, b: Block, ov: bool, m: int, v: Block)
    requires t.WellSized() && IdInRange(b.Id()) && 0 <= m < 16
    ensures LoopConflict(Fill(t, Key(b.Id(), MetaOf(m)), v), b, ov, m + 1) == LoopConflict(t, b, ov, m + 1)
  {
    var id := b.Id();
    var key := Key(id, MetaOf(m));
    KeyInRange(id, MetaOf(m));
    var t' := Fill(t, key, v);
    forall j: Meta | j as int >= m + 1
      ensures Registered(t', Key(id, j)) == Registered(t, Key(id, j))
    {
      KeyInRange(id, j);
      assert Key(id, j) != key;
      assert EntryAt(t', Key(id, j)) == EntryAt(t, Key(id, j));
    }
  }

  /** The `register` loop from `m` on throws exactly when, without override, a candidate from `m` on is taken. */
  lemma {:induction false} RegisterFromFails(t: Tables, b: Block, ov: bool, m: int)
    requires t.WellSized() && IdInRange(b.Id()) && 0 <= m
    ensures RegisterFrom(t, b, ov, m).1.Fail? <==> LoopConflict(t, b, ov, m)
    decreases 16 - m, 1
  {
    if m > LoopEnd(b) {
      forall j: Meta | IsCandidate(j, b.variant, b.StateBitmask())
        ensures j as int <= LoopEnd(b)
      {
        CandidateBounds(j, b.variant, b.StateBitmask());
      }
    } else if !ov && IsCandidate(MetaOf(m), b.variant, b.StateBitmask()) && Registered(t, Key(b.Id(), MetaOf(m))) {
      assert LoopConflict(t, b, ov, m);
    } else if Survivor(b, MetaOf(m)).None? {
      RegisterFromFailsSkip(t, b, ov, m);
    } else {
      RegisterFromFailsFill(t, b, ov, m);
    }
  }

  /** The step of `RegisterFromFails` at a meta without a survivor. */
  lemma {:induction false} RegisterFromFailsSkip(t: Tables, b: Block, ov: bool, m: int)
    requires t.WellSized() && IdInRange(b.Id()) && 0 <= m <= LoopEnd(b)
    requires !(!ov && IsCandidate(MetaOf(m), b.variant, b.StateBitmask()) && Registered(t, Key(b.Id(), MetaOf(m))))
    requires Survivor(b, MetaOf(m)).None?
    ensures RegisterFrom(t, b, ov, m).1.Fail? <==> LoopConflict(t, b, ov, m)
    decreases 16 - m, 0
  {
    KeyInRange(b.Id(), MetaOf(m));
    assert RegisterFrom(t, b, ov, m) == RegisterFrom(t, b, ov, m + 1);
    RegisterFromFails(t, b, ov, m + 1);
    ConflictStep(t, b, ov, m);
  }

  /** The step of `RegisterFromFails` at a meta whose survivor the loop writes. */
  lemma {:induction false} RegisterFromFailsFill(t: Tables, b: Block, ov: bool, m: int)
    requires t.WellSized() && IdInRange(b.Id()) && 0 <= m <= LoopEnd(b)
    requires !(!ov && IsCandidate(MetaOf(m), b.variant, b.StateBitmask()) && Registered(t, Key(b.Id(), MetaOf(m))))
    requires Survivor(b, MetaOf(m)).Some?
    ensures RegisterFrom(t, b, ov, m).1.Fail? <==> LoopConflict(t, b, ov, m)
    decreases 16 - m, 0
  {
    var key := Key(b.Id(), MetaOf(m));
    KeyInRange(b.Id(), MetaOf(m));
    var v := Survivor(b, MetaOf(m)).value;
    assert RegisterFrom(t, b, ov, m) == RegisterFrom(Fill(t, key, v), b, ov, m + 1);
    RegisterFromFails(Fill(t, key, v), b, ov, m + 1);
    ConflictAfterFill(t, b, ov, m, v);
    ConflictStep(t, b, ov, m);
  }

  /**
    The `register` loop from `m` on changes the tables only at keys it fills, each with the
    entry of the clone that decoded and re-encoded to that key's meta; when it finishes
    without throwing it has filled every such key.
  */
  lemma {:induction false} RegisterFromAt(t: Tables, b: Block, ov: bool, m: int, i: int)
    requires t.WellSized() && IdInRange(b.Id()) && 0 <= m && 0 <= i < Capacity
    ensures LoopEffect(t, RegisterFrom(t, b, ov, m).0, b, m, i, RegisterFrom(t, b, ov, m).1.Pass?)
    decreases 16 - m, 1
  {
    if m > LoopEnd(b) {
      if LoopWrites(b, m, i) {
        CandidateBounds(KeyMeta(i), b.variant, b.StateBitmask());
      }
    } else if Survivor(b, MetaOf(m)).None? {
      RegisterFromAtSkip(t, b, ov, m, i);
    } else if ov || !Registered(t, Key(b.Id(), MetaOf(m))) {
      RegisterFromAtFill(t, b, ov, m, i);
    }
  }

  /** The step of `RegisterFromAt` at a meta without a survivor. */
  lemma {:induction false} RegisterFromAtSkip(t: Tables, b: Block, ov: bool, m: int, i: int)
    requires t.WellSized() && IdInRange(b.Id()) && 0 <= m <= LoopEnd(b) && 0 <= i < Capacity
    requires Survivor(b, MetaOf(m)).None?
    ensures LoopEffect(t, RegisterFrom(t, b, ov, m).0, b, m, i, RegisterFrom(t, b, ov, m).1.Pass?)
    decreases 16 - m, 0
  {
    var meta := MetaOf(m);
    KeyInRange(b.Id(), meta);
    if !IsCandidate(meta, b.variant, b.StateBitmask()) || ov || !Registered(t, Key(b.Id(), meta)) {
      RegisterFromAt(t, b, ov, m + 1, i);
      SkippedMeta(b, m, i);
    }
  }

  /** The step of `RegisterFromAt` at a meta whose survivor the loop writes. */
  lemma {:induction false} RegisterFromAtFill(t: Tables, b: Block, ov: bool, m: int, i: int)
    requires t.WellSized() && IdInRange(b.Id()) && 0 <= m <= LoopEnd(b) && 0 <= i < Capacity
    requires Survivor(b, MetaOf(m)).Some?
    requires ov || !Registered(t, Key(b.Id(), MetaOf(m)))
    ensures LoopEffect(t, RegisterFrom(t, b, ov, m).0, b, m, i, RegisterFrom(t, b, ov, m).1.Pass?)
    decreases 16 - m, 0
  {
    var id := b.Id();
    var meta := MetaOf(m);
    var key := Key(id, meta);
    KeyInRange(id, meta);
    KeySplit(id, meta);
    var v := Survivor(b, meta).value;
    var t' := Fill(t, key, v);
    var r := RegisterFrom(t', b, ov, m + 1);
    assert RegisterFrom(t, b, ov, m) == r;
    RegisterFromAt(t', b, ov, m + 1, i);
    if i == key {
      WrittenKeyEffect(t, r.0, b, m, v, r.1.Pass?);
    } else {
      OtherKeyEffect(t, r.0, b, m, v, i, r.1.Pass?);
    }
  }

  /** At the key the step for meta `m` fills, the loop from `m` on leaves that meta's survivor. */
  lemma WrittenKeyEffect(t: Tables, u: Tables, b: Block, m: int, v: Block, complete: bool)
    requires t.WellSized() && u.WellSized() && IdInRange(b.Id()) && 0 <= m < 16
    requires Survivor(b, MetaOf(m)) == Some(v)
    requires LoopEffect(Fill(t, Key(b.Id(), MetaOf(m)), v), u, b, m + 1, Key(b.Id(), MetaOf(m)), complete)
    ensures LoopEffect(t, u, b, m, Key(b.Id(), MetaOf(m)), complete)
  {
    var key := Key(b.Id(), MetaOf(m));
    KeySplit(b.Id(), MetaOf(m));
    assert !LoopWrites(b, m + 1, key);
    assert LoopWrites(b, m, key);
  }

  /** At any other key, filling the key of meta `m` and then running from `m + 1` is running from `m`. */
  lemma OtherKeyEffect(t: Tables, u: Tables, b: Block, m: int, v: Block, i: int, complete: bool)
    requires t.WellSized() && u.WellSized() && IdInRange(b.Id()) && 0 <= m < 16
    requires 0 <= i < Capacity && i != Key(b.Id(), MetaOf(m))
    requires LoopEffect(Fill(t, Key(b.Id(), MetaOf(m)), v), u, b, m + 1, i, complete)
    ensures LoopEffect(t, u, b, m, i, complete)
  {
    assert EntryAt(Fill(t, Key(b.Id(), MetaOf(m)), v), i) == EntryAt(t, i);
    if KeyId(i) == b.Id() {
      KeyOfMeta(b.Id(), MetaOf(m), i);
    }
    assert LoopWrites(b, m, i) == LoopWrites(b, m + 1, i);
  }

  /**
    Whether the fallback after the loop fires on success: the loop left `(id, variant)` without
    a registered block, because it skipped that meta on a free slot or stored an Unknown clone.
  */
  predicate FallbackFills(t: Tables, b: Block)
    requires t.WellSized()
  {
    if Survivor(b, b.variant).Some? then b.IsUnknown() else !Registered(t, Key(b.Id(), b.variant))
  }

  /**
    The entry a successful `register` leaves at key `i`, in closed form: the prototype where the
    fallback fires, the survivor for any other key of the id whose meta survives, the old entry
    everywhere else.
  */
  function RegisteredEntry(t: Tables, b: Block, i: int): Entry
    requires t.WellSized() && 0 <= i < Capacity
  {
    if i == Key(b.Id(), b.variant) && FallbackFills(t, b) then FilledEntry(b)
    else if KeyId(i) == b.Id() && Survivor(b, KeyMeta(i)).Some? then FilledEntry(Survivor(b, KeyMeta(i)).value)
    else EntryAt(t, i)
  }

  /** A survivor's meta is one the loop from `variant` on reaches. */
  lemma SurvivorIsWritten(b: Block, i: int)
    ensures LoopWrites(b, b.variant as int, i) <==> KeyId(i) == b.Id() && Survivor(b, KeyMeta(i)).Some?
  {
    if KeyId(i) == b.Id() && Survivor(b, KeyMeta(i)).Some? {
      CandidateBounds(KeyMeta(i), b.variant, b.StateBitmask());
    }
  }

  /** A successful `register` leaves `RegisteredEntry` at every key. */
  lemma RegisterSucceedsAt(t: Tables, b: Block, ov: bool, i: int)
    requires t.WellSized() && 0 <= i < Capacity
    requires Register(t, b, ov).1.Pass?
    ensures EntryAt(Register(t, b, ov).0, i) == RegisteredEntry(t, b, i)
  {
    KeyInRange(b.Id(), b.variant);
    var r1 := RegisterFrom(t, b, ov, b.variant as int);
    assert r1.1.Pass? && Register(t, b, ov).0 == AddFallback(r1.0, b);
    if i == Key(b.Id(), b.variant) {
      SucceedsAtVariantKey(t, b, ov);
    } else {
      SucceedsAwayFromVariantKey(t, b, ov, i);
    }
  }

  /** The `RegisterSucceedsAt` case of the key `(id, variant)`. */
  lemma SucceedsAtVariantKey(t: Tables, b: Block, ov: bool)
    requires t.WellSized() && IdInRange(b.Id()) && b.variant & b.StateBitmask() == 0
    requires RegisterFrom(t, b, ov, b.variant as int).1.Pass?
    ensures EntryAt(AddFallback(RegisterFrom(t, b, ov, b.variant as int).0, b), Key(b.Id(), b.variant)) ==
              RegisteredEntry(t, b, Key(b.Id(), b.variant))
  {
    var key := Key(b.Id(), b.variant);
    KeyInRange(b.Id(), b.variant);
    KeySplit(b.Id(), b.variant);
    var r1 := RegisterFrom(t, b, ov, b.variant as int);
    RegisterFromAt(t, b, ov, b.variant as int, key);
    SurvivorIsWritten(b, key);
    assert Registered(r1.0, key) == !FallbackFills(t, b);
  }

  /** The `RegisterSucceedsAt` case of every key other than `(id, variant)`. */
  lemma SucceedsAwayFromVariantKey(t: Tables, b: Block, ov: bool, i: int)
    requires t.WellSized() && IdInRange(b.Id()) && b.variant & b.StateBitmask() == 0
    requires 0 <= i < Capacity && i != Key(b.Id(), b.variant)
    requires RegisterFrom(t, b, ov, b.variant as int).1.Pass?
    ensures EntryAt(AddFallback(RegisterFrom(t, b, ov, b.variant as int).0, b), i) == RegisteredEntry(t, b, i)
  {
    var r1 := RegisterFrom(t, b, ov, b.variant as int);
    KeyInRange(b.Id(), b.variant);
    assert EntryAt(AddFallback(r1.0, b), i) == EntryAt(r1.0, i);
    RegisterFromAt(t, b, ov, b.variant as int, i);
    SurvivorIsWritten(b, i);
    if KeyId(i) == b.Id() {
      KeyOfMeta(b.Id(), b.variant, i);
    }
  }
  /**
    Key `i` of tables `u` differs from `t` only as `register` of `b` may change it: at a
    candidate key of the prototype's id, to the entry of the clone that decoded and re-encoded to
    that key's meta, or at `(id, variant)` alone to the entry of the prototype itself.
  */
  predicate ChangedByRegister(t: Tables, u: Tables, b: Block, i: int)
    requires t.WellSized() && u.WellSized() && 0 <= i < Capacity
  {
    EntryAt(u, i) != EntryAt(t, i) ==>
      KeyId(i) == b.Id() && IsCandidate(KeyMeta(i), b.variant, b.StateBitmask()) &&
      ((i == Key(b.Id(), b.variant) && EntryAt(u, i) == FilledEntry(b)) ||
       (Survivor(b, KeyMeta(i)).Some? && EntryAt(u, i) == FilledEntry(Survivor(b, KeyMeta(i)).value)))
  }

  /** Whatever its outcome, `register` changes the tables only as `ChangedByRegister` allows. */
  lemma RegisterChangesAt(t: Tables, b: Block, ov: bool, i: int)
    requires t.WellSized() && 0 <= i < Capacity
    ensures ChangedByRegister(t, Register(t, b, ov).0, b, i)
  {
    var r := Register(t, b, ov);
    if r.1.Pass? {
      RegisterChangesOnSuccess(t, b, ov, i);
    } else if r.1 == Fail(StateConflict) {
      RegisterChangesOnConflict(t, b, ov, i);
    }
  }

  lemma RegisterChangesOnSuccess(t: Tables, b: Block, ov: bool, i: int)
    requires t.WellSized() && 0 <= i < Capacity
    requires Register(t, b, ov).1.Pass?
    ensures ChangedByRegister(t, Register(t, b, ov).0, b, i)
  {
    RegisterSucceedsAt(t, b, ov, i);
    if i == Key(b.Id(), b.variant) {
      KeySplit(b.Id(), b.variant);
    }
  }

  lemma RegisterChangesOnConflict(t: Tables, b: Block, ov: bool, i: int)
    requires t.WellSized() && 0 <= i < Capacity
    requires Register(t, b, ov).1 == Fail(StateConflict)
    ensures ChangedByRegister(t, Register(t, b, ov).0, b, i)
  {
    KeyInRange(b.Id(), b.variant);
    assert Register(t, b, ov) == RegisterFrom(t, b, ov, b.variant as int);
    RegisterFromAt(t, b, ov, b.variant as int, i);
  }

  /**
    When `register` succeeds and when it fails: it succeeds exactly when the variant keeps clear
    of the mask, the id is inside the tables and, without override, no candidate state is taken.
    Without override a taken `(id, variant)` is rejected before anything is written.
  */
  lemma RegisterOutcome(t: Tables, b: Block, ov: bool)
    requires t.WellSized()
    ensures Register(t, b, ov).1.Pass? <==>
              b.variant & b.StateBitmask() == 0 && IdInRange(b.Id()) && !LoopConflict(t, b, ov, b.variant as int)
    ensures ov ==> (Register(t, b, ov).1.Pass? <==> b.variant & b.StateBitmask() == 0 && IdInRange(b.Id()))
    ensures !ov && b.variant & b.StateBitmask() == 0 && IdInRange(b.Id()) && Registered(t, Key(b.Id(), b.variant)) ==>
              Register(t, b, ov) == (t, Fail(RegistrationConflict))
  {
    if b.variant & b.StateBitmask() == 0 && IdInRange(b.Id()) {
      KeyInRange(b.Id(), b.variant);
      RegisterFromFails(t, b, ov, b.variant as int);
      if !ov && Registered(t, Key(b.Id(), b.variant)) {
        assert LoopConflict(t, b, ov, b.variant as int);
      }
    }
  }

  /** After a successful `register` of a known block, `(id, variant)` is registered. */
  lemma RegisterMakesRegistered(t: Tables, b: Block, ov: bool)
    requires t.WellSized()
    requires Register(t, b, ov).1.Pass? && !b.IsUnknown()
    ensures Registered(Register(t, b, ov).0, Key(b.Id(), b.variant))
  {
    KeyInRange(b.Id(), b.variant);
    KeySplit(b.Id(), b.variant);
    RegisterSucceedsAt(t, b, ov, Key(b.Id(), b.variant));
  }

  /** The keys at which two tables differ. */
  function ChangedKeys(t: Tables, u: Tables): set<int>
    requires t.WellSized() && u.WellSized()
  {
    set i | 0 <= i < Capacity && EntryAt(t, i) != EntryAt(u, i)
  }

  lemma ChangedKeyIsCandidate(t: Tables, b: Block, ov: bool, i: int)
    requires t.WellSized() && b.variant & b.StateBitmask() == 0
    requires 0 <= i < Capacity && EntryAt(t, i) != EntryAt(Register(t, b, ov).0, i)
    ensures KeyId(i) == b.Id() && b.variant as int <= KeyMeta(i) as int <= LoopEnd(b)
    ensures i in CandidateKeyList(b.Id(), b.variant, b.StateBitmask())
  {
    RegisterChangesAt(t, b, ov, i);
    CandidateBounds(KeyMeta(i), b.variant, b.StateBitmask());
    CandidateKeysMembers(b.Id(), b.variant, b.StateBitmask(), i);
  }

  /**
    `register` changes at most `2^popcount(stateMask)` keys, all of them keys of the prototype's
    id whose meta lies in the loop range `[variant, variant | stateMask]`.
  */
  lemma RegisterChangesFewKeys(t: Tables, b: Block, ov: bool)
    requires t.WellSized()
    ensures forall i :: i in ChangedKeys(t, Register(t, b, ov).0) ==>
              KeyId(i) == b.Id() && b.variant as int <= KeyMeta(i) as int <= LoopEnd(b)
    ensures |ChangedKeys(t, Register(t, b, ov).0)| <= Pow2(PopCount(b.StateBitmask()))
  {
    var id := b.Id();
    var mask := b.StateBitmask();
    var c := ChangedKeys(t, Register(t, b, ov).0);
    if b.variant & mask != 0 {
      assert c == {};
    } else {
      forall i | i in c
        ensures KeyId(i) == id && b.variant as int <= KeyMeta(i) as int <= LoopEnd(b)
        ensures i in CandidateKeyList(id, b.variant, mask)
      {
        ChangedKeyIsCandidate(t, b, ov, i);
      }
      SubsetSize(c, CandidateKeyList(id, b.variant, mask));
      SubmasksBelowLength(mask, 4);
    }
  }

  /**
    The tables' invariant: an empty slot holds the defaults `init` wrote, and a stored block sits
    under its own id with the entry `fillStaticArrays` makes for it.
  */
  predicate EntryConsistent(e: Entry, i: int)
  {
    match e.block
    case None => e == EmptyEntry
    case Some(x) => e == FilledEntry(x) && x.Id() == KeyId(i)
  }

  predicate Consistent(t: Tables)
    requires t.WellSized()
  {
    forall i :: 0 <= i < Capacity ==> EntryConsistent(EntryAt(t, i), i)
  }

  lemma EmptyConsistent()
    ensures Consistent(EmptyTables())
  {
  }

  /** `register` keeps the tables consistent, whatever its outcome. */
  lemma RegisterPreservesConsistent(t: Tables, b: Block, ov: bool)
    requires t.WellSized() && Consistent(t)
    ensures Consistent(Register(t, b, ov).0)
  {
    var u := Register(t, b, ov).0;
    forall i | 0 <= i < Capacity
      ensures EntryConsistent(EntryAt(u, i), i)
    {
      RegisterChangesAt(t, b, ov, i);
    }
  }

  /** In consistent tables every light filter is at most 15. */
  lemma ConsistentLightBounded(t: Tables, i: int)
    requires t.WellSized() && Consistent(t) && 0 <= i < Capacity
    ensures t.light[i] <= 15
  {
    assert EntryConsistent(EntryAt(t, i), i);
  }

  /**
    `get($id, $meta)` without a position: a meta outside 0..15 and an id whose key falls outside
    the tables are rejected; an empty slot gives a new `UnknownBlock(id, meta)`, a filled one
    the stored block.
  */
  function Get(t: Tables, id: int, meta: int): (r: Result<Block, Error>)
    requires t.WellSized()
    ensures r == Err(MetaOutOfBounds) <==> !(0 <= meta < 16)
    ensures r == Err(IdOutOfBounds) <==> 0 <= meta < 16 && !IdInRange(id)
    ensures r.Ok? <==> 0 <= meta < 16 && IdInRange(id)
    ensures r.Ok? ==> (r.value.IsUnknown() <==> !Registered(t, Key(id, MetaOf(meta))))
    ensures r.Ok? ==> r.value == match t.blocks[Key(id, MetaOf(meta))]
                                  case Some(x) => x
                                  case None => UnknownBlock(id, MetaOf(meta))
  {
    if meta < 0 || meta > 0xf then Err(MetaOutOfBounds)
    else
      var index := id * 16 + meta;
      if !(0 <= index < Capacity) then Err(IdOutOfBounds)
      else match t.blocks[index]
        case Some(x) => Ok(x)
        case None => Ok(UnknownBlock(id, MetaOf(meta)))
  }

  /** In consistent tables, `get` always answers with a block of the id it was asked for. */
  lemma GetGivesRequestedId(t: Tables, id: int, meta: int)
    requires t.WellSized() && Consistent(t) && Get(t, id, meta).Ok?
    ensures Get(t, id, meta).value.Id() == id
  {
    var key := id * 16 + meta;
    assert EntryConsistent(EntryAt(t, key), key);
  }

  /** `fromFullBlock($k)`: the lookup of `(k >> 4, k & 0xf)`. A full key never has a bad meta. */
  function FromFullBlock(t: Tables, k: int): (r: Result<Block, Error>)
    requires t.WellSized()
    ensures r != Err(MetaOutOfBounds)
    ensures r.Err? <==> !(0 <= k < Capacity)
    ensures r.Ok? && t.blocks[k].Some? ==> r == Ok(t.blocks[k].value)
    ensures r.Ok? && t.blocks[k].None? ==> r == Ok(UnknownBlock(KeyId(k), KeyMeta(k)))
  {
    KeyJoin(k);
    Get(t, KeyId(k), k % 16)
  }

  /** Looking up a full key is looking up its id and meta. */
  lemma FromFullBlockOfKey(t: Tables, id: int, m: Meta)
    requires t.WellSized()
    ensures FromFullBlock(t, Key(id, m)) == Get(t, id, m as int)
  {
    KeySplit(id, m);
  }

  /**
    `isRegistered($id, $meta)` for a 4-bit meta: the table access throws outside the tables;
    inside, the answer is whether `get` would give a known block.
  */
  function IsRegistered(t: Tables, id: int, meta: Meta): (r: Result<bool, Error>)
    requires t.WellSized()
    ensures r.Err? <==> !IdInRange(id)
    ensures r.Ok? ==> (r.value <==> Get(t, id, meta as int).Ok? && !Get(t, id, meta as int).value.IsUnknown())
  {
    MetaOfValue(meta);
    KeyInRange(id, meta);
    var index := Key(id, meta);
    if !(0 <= index < Capacity) then Err(IndexOutOfRange) else Ok(Registered(t, index))
  }

  /**
    Reading back what `register` stored: for a known prototype, every meta that survives
    decoding is served by `get` as the decoded clone, and that clone reports the meta it was
    looked up with.
  */
  lemma GetAfterRegister(t: Tables, b: Block, ov: bool, m: Meta)
    requires t.WellSized()
    requires Register(t, b, ov).1.Pass? && !b.IsUnknown() && Survivor(b, m).Some?
    ensures Get(Register(t, b, ov).0, b.Id(), m as int) == Ok(Survivor(b, m).value)
    ensures Get(Register(t, b, ov).0, b.Id(), m as int).value.Damage() == m
  {
    var key := Key(b.Id(), m);
    KeyInRange(b.Id(), m);
    KeySplit(b.Id(), m);
    MetaOfValue(m);
    RegisterSucceedsAt(t, b, ov, key);
  }

  /**
    `getStateMask($id)` as written: it indexes the mask table with `$id` itself, not with the
    full key `$id << 4`, and gives 0 for an empty or missing slot.
  */
  function GetStateMask(t: Tables, id: int): (r: Meta)
    requires t.WellSized()
    ensures r != 0 ==> 0 <= id < Capacity && t.masks[id] == Some(r)
    ensures 0 <= id < Capacity && t.masks[id].Some? ==> r == t.masks[id].value
  {
    if 0 <= id < Capacity && t.masks[id].Some? then t.masks[id].value else 0
  }

  /**
    In consistent tables `getStateMask($id)` is the state mask of the block stored under the
    full key `$id`, i.e. of block `(id >> 4, id & 0xf)`, not of block `id`.
  */
  lemma StateMaskReadsFullKey(t: Tables, id: int)
    requires t.WellSized() && Consistent(t) && 0 <= id < Capacity
    ensures GetStateMask(t, id) == (if t.blocks[id].Some? then t.blocks[id].value.StateBitmask() else 0)
  {
    assert EntryConsistent(EntryAt(t, id), id);
  }
}
