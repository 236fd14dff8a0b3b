/**
  The legacy/runtime id bridge of src/pocketmine/block/BlockFactory.php: a forward map from full
  legacy keys `(id << 4) | meta` to network runtime ids, the reverse map, and the largest
  runtime id recorded so far. The class `Factory.BlockFactory` keeps the same three values in
  fields and is proved to agree with the functions here.
*/
module RuntimeIds {
  import opened Bits
  import opened Outcomes

  /**
    The id of the "info update" placeholder block, whose runtime id is the last resort of
    `toStaticRuntimeId`. The id constants (`BlockIds`) are not part of this model; this is the
    value that class gives it.
  */
  const InfoUpdate: int := 248

  datatype Bridge = Bridge(toRuntime: map<int, int>, toLegacy: map<int, int>, lastRuntimeId: int)

  /** The bridge before anything is loaded. */
  const EmptyBridge: Bridge := Bridge(map[], map[], 0)

  /**
    `toStaticRuntimeId($id, $meta)`: the runtime id of the exact key, else of `(id, 0)`, else of
    the placeholder block. When even the placeholder is missing the source's last lookup is an
    undefined index and its `int` return type is violated; that case is `None`.
  */
  function ToStaticRuntimeId(br: Bridge, id: int, meta: Meta): (r: Option<int>)
    ensures r.Some? ==> r.value in br.toRuntime.Values
    ensures r.None? <==> Key(id, meta) !in br.toRuntime && Key(id, 0) !in br.toRuntime &&
                         Key(InfoUpdate, 0) !in br.toRuntime
    ensures Key(id, meta) in br.toRuntime ==> r == Some(br.toRuntime[Key(id, meta)])
    ensures Key(id, meta) !in br.toRuntime && Key(id, 0) in br.toRuntime ==>
              r == Some(br.toRuntime[Key(id, 0)])
    ensures Key(id, meta) !in br.toRuntime && Key(id, 0) !in br.toRuntime && Key(InfoUpdate, 0) in br.toRuntime ==>
              r == Some(br.toRuntime[Key(InfoUpdate, 0)])
  {
    if Key(id, meta) in br.toRuntime then Some(br.toRuntime[Key(id, meta)])
    else if Key(id, 0) in br.toRuntime then Some(br.toRuntime[Key(id, 0)])
    else if Key(InfoUpdate, 0) in br.toRuntime then Some(br.toRuntime[Key(InfoUpdate, 0)])
    else None
  }

  /**
    `fromStaticRuntimeId($runtimeId)`: `[$v >> 4, $v & 0xf]` of the recorded legacy key, or
    `None` for an unrecorded runtime id, where the source reads an undefined index.
  */
  function FromStaticRuntimeId(br: Bridge, runtimeId: int): (r: Option<(int, Meta)>)
    ensures r.Some? <==> runtimeId in br.toLegacy
    ensures r.Some? ==> Key(r.value.0, r.value.1) == br.toLegacy[runtimeId]
  {
    if runtimeId in br.toLegacy then
      var v := br.toLegacy[runtimeId];
      KeyJoin(v);
      Some((KeyId(v), KeyMeta(v)))
    else None
  }

  /**
    `registerMapping`: both maps record the pair, every other entry stays, and the running
    maximum takes the new runtime id into account.
  */
  function RegisterMapping(br: Bridge, runtimeId: int, id: int, meta: Meta): (nb: Bridge)
    ensures nb.toRuntime == br.toRuntime[Key(id, meta) := runtimeId]
    ensures nb.toLegacy == br.toLegacy[runtimeId := Key(id, meta)]
    ensures nb.lastRuntimeId >= br.lastRuntimeId && nb.lastRuntimeId >= runtimeId
    ensures nb.lastRuntimeId == br.lastRuntimeId || nb.lastRuntimeId == runtimeId
  {
    var key := Key(id, meta);
    Bridge(br.toRuntime[key := runtimeId], br.toLegacy[runtimeId := key],
           if br.lastRuntimeId >= runtimeId then br.lastRuntimeId else runtimeId)
  }

  /** After `registerMapping(r, id, meta)` each direction of the bridge answers with the other. */
  lemma MappingRoundTrip(br: Bridge, runtimeId: int, id: int, meta: Meta)
    ensures FromStaticRuntimeId(RegisterMapping(br, runtimeId, id, meta), runtimeId) == Some((id, meta))
    ensures ToStaticRuntimeId(RegisterMapping(br, runtimeId, id, meta), id, meta) == Some(runtimeId)
  {
    KeySplit(id, meta);
  }

  /** One entry of the runtime-id table: a block name and a 4-bit legacy meta. */
  datatype RuntimeEntry = RuntimeEntry(name: string, data: Meta)

  /**
    The loop of `registerStaticRuntimeIdMappings` from entry `k` on: the position of an entry
    is its runtime id; an entry whose name has no legacy id is skipped, every other one is
    recorded with `registerMapping`.
  */
  function LoadFrom(br: Bridge, table: seq<RuntimeEntry>, names: map<string, int>, k: nat): (nb: Bridge)
    ensures nb.lastRuntimeId >= br.lastRuntimeId
    decreases |table| - k
  {
    if k >= |table| then br
    else if table[k].name !in names then LoadFrom(br, table, names, k + 1)
    else LoadFrom(RegisterMapping(br, k, names[table[k].name], table[k].data), table, names, k + 1)
  }

  /**
    Loading from `k` on leaves alone the reverse entry of a runtime id that is not the position of
    a resolvable entry from `k` on, and records the entry at every such position.
  */
  lemma {:induction false} LoadReverseEntries(br: Bridge, table: seq<RuntimeEntry>, names: map<string, int>, k: nat, j: int)
    ensures j < k || j >= |table| || table[j].name !in names ==>
              (j in LoadFrom(br, table, names, k).toLegacy <==> j in br.toLegacy) &&
              (j in br.toLegacy ==> LoadFrom(br, table, names, k).toLegacy[j] == br.toLegacy[j])
    ensures k <= j < |table| && table[j].name in names ==>
              FromStaticRuntimeId(LoadFrom(br, table, names, k), j) == Some((names[table[j].name], table[j].data))
    ensures k <= j < |table| && table[j].name in names ==> LoadFrom(br, table, names, k).lastRuntimeId >= j
    decreases |table| - k
  {
    if k < |table| {
      if table[k].name !in names {
        LoadReverseEntries(br, table, names, k + 1, j);
      } else {
        var br' := RegisterMapping(br, k, names[table[k].name], table[k].data);
        LoadReverseEntries(br', table, names, k + 1, j);
        if j == k {
          KeySplit(names[table[k].name], table[k].data);
          LoadReverseEntries(br', table, names, k + 1, k);
          assert j < k + 1;
        }
      }
    }
  }

  /** An entry whose name has no legacy id leaves no reverse entry for its runtime id. */
  lemma LoadSkipsUnresolvable(table: seq<RuntimeEntry>, names: map<string, int>, j: int)
    requires 0 <= j < |table| && table[j].name !in names
    ensures FromStaticRuntimeId(LoadFrom(EmptyBridge, table, names, 0), j) == None
  {
    LoadReverseEntries(EmptyBridge, table, names, 0, j);
  }

  /** The entry at position `j` resolves and records the legacy key `key`. */
  ghost predicate LoadsKeyAt(table: seq<RuntimeEntry>, names: map<string, int>, j: int, key: int)
  {
    0 <= j < |table| && table[j].name in names && Key(names[table[j].name], table[j].data) == key
  }

  /**
    Loading from `k` on gives the legacy key `key` a forward entry exactly when some entry from
    `k` on records it, and then the entry is the last such position; a key no such entry
    records keeps whatever forward entry it had.
  */
  lemma {:induction false} LoadForwardEntries(br: Bridge, table: seq<RuntimeEntry>, names: map<string, int>, k: nat, key: int)
    ensures var nb := LoadFrom(br, table, names, k);
            (exists j :: k <= j && LoadsKeyAt(table, names, j, key)) ==>
              key in nb.toRuntime && k <= nb.toRuntime[key] && LoadsKeyAt(table, names, nb.toRuntime[key], key) &&
              forall j :: nb.toRuntime[key] < j && LoadsKeyAt(table, names, j, key) ==> false
    ensures var nb := LoadFrom(br, table, names, k);
            (forall j :: k <= j && LoadsKeyAt(table, names, j, key) ==> false) ==>
              (key in nb.toRuntime <==> key in br.toRuntime) &&
              (key in br.toRuntime ==> nb.toRuntime[key] == br.toRuntime[key])
    decreases |table| - k
  {
    if k < |table| {
      var br' := if table[k].name !in names then br
                 else RegisterMapping(br, k, names[table[k].name], table[k].data);
      assert LoadFrom(br, table, names, k) == LoadFrom(br', table, names, k + 1);
      LoadForwardEntries(br', table, names, k + 1, key);
      if LoadsKeyAt(table, names, k, key) {
        assert br'.toRuntime[key] == k;
      } else {
        assert key in br'.toRuntime <==> key in br.toRuntime;
        assert key in br.toRuntime ==> br'.toRuntime[key] == br.toRuntime[key];
      }
    }
  }

  /**
    After loading the table into an empty bridge, a legacy key has a runtime id exactly when
    some resolvable entry records it, and its runtime id is the last such entry's position.
  */
  lemma LoadedForwardMap(table: seq<RuntimeEntry>, names: map<string, int>, key: int)
    ensures var br := LoadFrom(EmptyBridge, table, names, 0);
            (key in br.toRuntime <==> exists j :: LoadsKeyAt(table, names, j, key)) &&
            (key in br.toRuntime ==> LoadsKeyAt(table, names, br.toRuntime[key], key) &&
                                     forall j :: br.toRuntime[key] < j && LoadsKeyAt(table, names, j, key) ==> false)
  {
    LoadForwardEntries(EmptyBridge, table, names, 0, key);
  }

  /** Every forward entry points at a runtime id whose reverse entry leads back to it. */
  ghost predicate Coherent(br: Bridge)
  {
    forall key :: key in br.toRuntime ==> br.toRuntime[key] in br.toLegacy && br.toLegacy[br.toRuntime[key]] == key
  }

  /** All recorded runtime ids lie below `k`. */
  ghost predicate RecordedBelow(br: Bridge, k: int)
  {
    forall r :: r in br.toLegacy ==> r < k
  }

  /**
    Loading keeps the bridge coherent: each entry records a runtime id (its position) that
    nothing recorded before, so no earlier forward entry loses its reverse entry. A later entry
    may take over a legacy key; the forward map then follows the later one.
  */
  lemma {:induction false} LoadKeepsCoherent(br: Bridge, table: seq<RuntimeEntry>, names: map<string, int>, k: nat)
    requires Coherent(br) && RecordedBelow(br, k)
    ensures Coherent(LoadFrom(br, table, names, k))
    decreases |table| - k
  {
    if k < |table| {
      if table[k].name !in names {
        LoadKeepsCoherent(br, table, names, k + 1);
      } else {
        var br' := RegisterMapping(br, k, names[table[k].name], table[k].data);
        assert k !in br.toLegacy;
        forall key | key in br'.toRuntime
          ensures br'.toRuntime[key] in br'.toLegacy && br'.toLegacy[br'.toRuntime[key]] == key
        {
          if key != Key(names[table[k].name], table[k].data) {
            assert br'.toRuntime[key] == br.toRuntime[key];
            assert br.toRuntime[key] in br.toLegacy;
          }
        }
        LoadKeepsCoherent(br', table, names, k + 1);
      }
    }
  }

  /**
    After loading the table into an empty bridge, the two directions agree: the runtime id
    `toStaticRuntimeId` finds for a recorded state converts back to that same state.
  */
  lemma LoadedBridgeRoundTrip(table: seq<RuntimeEntry>, names: map<string, int>, id: int, meta: Meta)
    requires Key(id, meta) in LoadFrom(EmptyBridge, table, names, 0).toRuntime
    ensures var br := LoadFrom(EmptyBridge, table, names, 0);
            FromStaticRuntimeId(br, ToStaticRuntimeId(br, id, meta).value) == Some((id, meta))
  {
    LoadKeepsCoherent(EmptyBridge, table, names, 0);
    KeySplit(id, meta);
  }
}
