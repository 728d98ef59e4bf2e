/** Call sequences on a pool of two slots, following core/src/vram/test_pool.rs. Each
    method builds its own pool and reports what the test observes. */
module VramScenarios {
  import opened Wrappers
  import opened Vram
  import DataValues

  function Id(name: string): ModelId {
    DataValues.ModelId(name)
  }

  function TestModel(name: string): Model {
    Model(Id(name), name, 1024 * 1024, "1.0.0")
  }

  /** A new pool is empty, and looking up any model finds nothing. */
  method EmptyPool() returns (capacity: nat, usage: nat, status: seq<Option<ModelId>>, got: Option<Model>)
    ensures capacity == 2 && usage == 0 && status == [None, None] && got == None
  {
    var pool := new VramPool(2);
    capacity := pool.capacity;
    usage := pool.Usage();
    status := pool.GetSlotStatus();
    got := pool.Get(Id("non-existent"));
  }

  /** Two models fill the pool, one per slot. */
  method FillPool(m1: ModelId, m2: ModelId) returns (pool: VramPool)
    requires m1 != m2
    ensures fresh(pool) && fresh(pool.slots) && fresh(pool.lru)
    ensures pool.Valid() && pool.Consistent() && pool.capacity == 2
    ensures pool.Status() == [Some(m1), Some(m2)]
    ensures pool.lru.items.Keys == {m1, m2} && pool.lru.items[m1].1 < pool.lru.items[m2].1
  {
    pool := new VramPool(2);
    assert pool.Status() == [None, None];
    PlaceFirst(pool, m1, TestModel("first"));
    PlaceSecond(pool, m1, m2, TestModel("second"));
  }

  /** The first model inserted into an empty pool of two takes the first slot. */
  method PlaceFirst(pool: VramPool, m1: ModelId, model: Model)
    requires pool.Valid() && pool.Consistent() && pool.capacity == 2
    requires pool.Status() == [None, None] && pool.lru.items == map[]
    modifies pool, pool.slots, pool.lru
    ensures pool.Valid() && pool.Consistent() && pool.capacity == 2
    ensures pool.Status() == [Some(m1), None] && pool.lru.items.Keys == {m1}
  {
    PlaceNew(pool, m1, model);
    assert IndexOf<Option<ModelId>>([None, None], None) == 0;
  }

  /** A second, different model takes the second slot and is the newer one. */
  method PlaceSecond(pool: VramPool, m1: ModelId, m2: ModelId, model: Model)
    requires pool.Valid() && pool.Consistent() && pool.capacity == 2 && m1 != m2
    requires pool.Status() == [Some(m1), None] && pool.lru.items.Keys == {m1}
    modifies pool, pool.slots, pool.lru
    ensures pool.Valid() && pool.Consistent() && pool.capacity == 2
    ensures pool.Status() == [Some(m1), Some(m2)]
    ensures pool.lru.items.Keys == {m1, m2} && pool.lru.items[m1].1 < pool.lru.items[m2].1
  {
    assert |pool.lru.items| == 1 by {
      assert |pool.lru.items.Keys| == |{m1}|;
    }
    ghost var before := pool.Status();
    PlaceNew(pool, m2, model);
    assert IndexOf(before, None) == 1;
    assert pool.Status() == before[1 := Some(m2)];
  }

  /** A model that is not cached, inserted while there is room, goes into the first
      empty slot. */
  method PlaceNew(pool: VramPool, id: ModelId, model: Model)
    requires pool.Valid() && pool.Consistent()
    requires id !in pool.lru.items && |pool.lru.items| < pool.capacity
    modifies pool, pool.slots, pool.lru
    ensures pool.Valid() && pool.Consistent()
    ensures None in old(pool.Status())
    ensures pool.lru.items == old(pool.lru.items)[id := (model, old(pool.lru.clock))]
    ensures pool.Status() == old(pool.Status())[IndexOf(old(pool.Status()), None) := Some(id)]
  {
    var _, _, _ := pool.Insert(id, model);
  }

  /** A model that is not cached, inserted into a full pool, takes the slot of the
      oldest model, which leaves the cache. */
  method PlaceOverOldest(pool: VramPool, id: ModelId, model: Model) returns (ghost victim: ModelId)
    requires pool.Valid() && pool.Consistent() && pool.capacity > 0
    requires id !in pool.lru.items && |pool.lru.items| >= pool.capacity
    modifies pool, pool.slots, pool.lru
    ensures pool.Valid() && pool.Consistent()
    ensures IsOldest(old(pool.lru.items), victim) && Some(victim) in old(pool.Status())
    ensures pool.lru.items == (old(pool.lru.items) - {victim})[id := (model, old(pool.lru.clock))]
    ensures pool.Status() == old(pool.Status())[IndexOf(old(pool.Status()), Some(victim)) := Some(id)]
  {
    var _, _, _ := pool.Insert(id, model);
    victim :| && IsOldest(old(pool.lru.items), victim) && Some(victim) in old(pool.Status())
              && pool.lru.items == (old(pool.lru.items) - {victim})[id := (model, old(pool.lru.clock))]
              && pool.Status() == old(pool.Status())[IndexOf(old(pool.Status()), Some(victim)) := Some(id)];
  }

  /** Of two cached models, the one touched earlier is the oldest, and the only one. */
  lemma OlderOfTwo(items: map<ModelId, (Model, nat)>, a: ModelId, b: ModelId)
    requires items.Keys == {a, b} && items[b].1 < items[a].1
    ensures IsOldest(items, b) && |items| == 2
    ensures forall v | IsOldest(items, v) :: v == b
  {
    assert |items.Keys| == |{a, b}| == 2;
  }

  /** Replacing `b` by `c` among two cached models `a` and `b`. */
  lemma ReplacedKeys(items: map<ModelId, (Model, nat)>, a: ModelId, b: ModelId, c: ModelId, entry: (Model, nat))
    requires items.Keys == {a, b} && a != b
    ensures ((items - {b})[c := entry]).Keys == {a, c}
  {
  }

  /** A new model inserted into a full pool of two takes the slot of the older
      resident `b`; the newer resident `a` stays. */
  method ReplaceOldest(pool: VramPool, a: ModelId, b: ModelId, c: ModelId, model: Model)
    requires pool.Valid() && pool.Consistent() && pool.capacity == 2
    requires pool.lru.items.Keys == {a, b} && a != b && c != a && c != b
    requires pool.lru.items[b].1 < pool.lru.items[a].1
    modifies pool, pool.slots, pool.lru
    ensures pool.Valid() && pool.Consistent()
    ensures Some(b) in old(pool.Status())
    ensures pool.Status() == old(pool.Status())[IndexOf(old(pool.Status()), Some(b)) := Some(c)]
    ensures pool.lru.items.Keys == {a, c}
  {
    ghost var items := pool.lru.items;
    OlderOfTwo(items, a, b);
    ReplacedKeys(items, a, b, c, (model, pool.lru.clock));
    ghost var v := PlaceOverOldest(pool, c, model);
  }

  /** Touching the first model before a third arrives makes the second one the victim:
      the first and third stay resident and the second is gone. */
  method LruEviction() returns (usage: nat, status: seq<Option<ModelId>>, got1: Option<Model>,
                                got3: Option<Model>, got2: Option<Model>)
    ensures usage == 2
    ensures Some(Id("model1")) in status && Some(Id("model3")) in status && Some(Id("model2")) !in status
    ensures got1.Some? && got3.Some? && got2 == None
  {
    var m1, m2, m3 := Id("model1"), Id("model2"), Id("model3");
    var pool := TouchThenReplace(m1, m2, m3);
    usage, status, got1, got3, got2 := Observe(pool, m1, m3, m2);
  }

  /** Fill the pool with `m1` and `m2`, look up `m1`, then insert `m3`: `m3` takes the
      second slot. */
  method TouchThenReplace(m1: ModelId, m2: ModelId, m3: ModelId) returns (pool: VramPool)
    requires m1 != m2 && m3 != m1 && m3 != m2
    ensures fresh(pool) && fresh(pool.slots) && fresh(pool.lru)
    ensures pool.Valid() && pool.Consistent()
    ensures pool.Status() == [Some(m1), Some(m3)] && pool.lru.items.Keys == {m1, m3}
  {
    pool := FillPool(m1, m2);
    TouchFirst(pool, m1, m2);
    ReplaceSecond(pool, m1, m2, m3);
  }

  /** In a pool holding `a` then `b`, with `b` the older, a third model takes `b`'s slot. */
  method ReplaceSecond(pool: VramPool, a: ModelId, b: ModelId, c: ModelId)
    requires pool.Valid() && pool.Consistent() && pool.capacity == 2
    requires a != b && c != a && c != b
    requires pool.Status() == [Some(a), Some(b)]
    requires pool.lru.items.Keys == {a, b} && pool.lru.items[b].1 < pool.lru.items[a].1
    modifies pool, pool.slots, pool.lru
    ensures pool.Valid() && pool.Consistent()
    ensures pool.Status() == [Some(a), Some(c)] && pool.lru.items.Keys == {a, c}
  {
    ghost var before := pool.Status();
    assert IndexOf(before, Some(b)) == 1;
    ReplaceOldest(pool, a, b, c, TestModel("model3"));
  }

  /** Looking up the older of two residents makes it the newer one. */
  method TouchFirst(pool: VramPool, a: ModelId, b: ModelId)
    requires pool.Valid() && pool.Consistent() && pool.capacity == 2
    requires pool.lru.items.Keys == {a, b} && a != b && pool.lru.items[a].1 < pool.lru.items[b].1
    modifies pool, pool.slots, pool.lru
    ensures pool.Valid() && pool.Consistent() && pool.capacity == 2
    ensures pool.Status() == old(pool.Status())
    ensures pool.lru.items.Keys == {a, b} && pool.lru.items[b].1 < pool.lru.items[a].1
  {
    var touched := pool.Get(a);
  }

  /** What the test reads from a pool holding `a` and `c` in its two slots: usage two,
      both resident and found, and `gone` neither in a slot nor found. */
  method Observe(pool: VramPool, a: ModelId, c: ModelId, gone: ModelId)
    returns (usage: nat, status: seq<Option<ModelId>>, gotA: Option<Model>, gotC: Option<Model>,
             gotGone: Option<Model>)
    requires pool.Valid() && pool.Consistent()
    requires pool.Status() == [Some(a), Some(c)] && pool.lru.items.Keys == {a, c}
    requires a != c && gone != a && gone != c
    modifies pool, pool.slots, pool.lru
    ensures usage == 2
    ensures Some(a) in status && Some(c) in status && Some(gone) !in status
    ensures gotA.Some? && gotC.Some? && gotGone == None
  {
    usage, status := Readings(pool, a, c);
    assert Some(gone) !in status by {
      assert status[0] != Some(gone) && status[1] != Some(gone);
    }
    gotA, gotC, gotGone := Lookups(pool, a, c, gone);
  }

  /** The usage and the slot row of a pool holding `a` and `c` in its two slots. */
  method Readings(pool: VramPool, a: ModelId, c: ModelId) returns (usage: nat, status: seq<Option<ModelId>>)
    requires pool.Status() == [Some(a), Some(c)] && pool.lru.items.Keys == {a, c} && a != c
    ensures usage == 2 && status == [Some(a), Some(c)]
  {
    assert |pool.lru.items| == 2 by {
      assert |pool.lru.items.Keys| == |{a, c}| == 2;
    }
    usage := pool.Usage();
    status := pool.GetSlotStatus();
  }

  /** Looking up two residents finds them; looking up anything else finds nothing. */
  method Lookups(pool: VramPool, a: ModelId, c: ModelId, gone: ModelId)
    returns (gotA: Option<Model>, gotC: Option<Model>, gotGone: Option<Model>)
    requires pool.Valid() && pool.lru.items.Keys == {a, c} && gone != a && gone != c
    modifies pool, pool.slots, pool.lru
    ensures gotA.Some? && gotC.Some? && gotGone == None
  {
    gotA := pool.Get(a);
    gotC := pool.Get(c);
    gotGone := pool.Get(gone);
  }

  /** Without the intervening lookup the first model is the oldest and is the one whose
      slot the third model takes. */
  method SlotManagement() returns (status: seq<Option<ModelId>>)
    ensures status == [Some(Id("model3")), Some(Id("model2"))]
    ensures Some(Id("model1")) !in status
  {
    var m1, m2, m3 := Id("model1"), Id("model2"), Id("model3");
    var pool := FillPool(m1, m2);
    ReplaceOldest(pool, m2, m1, m3, TestModel("model3"));
    status := pool.GetSlotStatus();
    ReplaceFirstOfTwo(m1, m2, m3);
  }

  /** Putting `c` into the slot of `a` in the row `[a, b]`. */
  lemma ReplaceFirstOfTwo(a: ModelId, b: ModelId, c: ModelId)
    requires a != b
    ensures [Some(a), Some(b)][IndexOf([Some(a), Some(b)], Some(a)) := Some(c)] == [Some(c), Some(b)]
  {
    assert IndexOf([Some(a), Some(b)], Some(a)) == 0;
  }

  /** Inserting a resident model again evicts nothing and keeps the slots as they were. */
  method DuplicateInsert() returns (usage: nat, status: seq<Option<ModelId>>, got1: Option<Model>,
                                    got2: Option<Model>)
    ensures usage == 2 && status == [Some(Id("model1")), Some(Id("model2"))]
    ensures got1 == Some(TestModel("model1 updated")) && got2.Some?
  {
    var m1, m2 := Id("model1"), Id("model2");
    var pool := FillPool(m1, m2);
    var r, _, _ := pool.Insert(m1, TestModel("model1 updated"));
    assert pool.lru.items.Keys == {m1, m2};
    usage, status := Readings(pool, m1, m2);
    got1, got2 := LookupTwo(pool, m1, m2);
  }

  /** Looking up two cached models finds what is cached under them. */
  method LookupTwo(pool: VramPool, a: ModelId, b: ModelId) returns (gotA: Option<Model>, gotB: Option<Model>)
    requires pool.Valid() && a in pool.lru.items && b in pool.lru.items && a != b
    modifies pool, pool.slots, pool.lru
    ensures gotA == Some(old(pool.lru.items)[a].0) && gotB == Some(old(pool.lru.items)[b].0)
  {
    gotA := pool.Get(a);
    gotB := pool.Get(b);
  }

  /** The number of occupied slots in a slot row. */
  function CountOccupied(status: seq<Option<ModelId>>): (n: nat)
    ensures n <= |status|
    ensures n == 0 <==> forall i | 0 <= i < |status| :: status[i] == None
  {
    if |status| == 0 then 0
    else CountOccupied(status[..|status| - 1]) + (if status[|status| - 1].Some? then 1 else 0)
  }

  /** The public `evict` as written: usage drops to one, but both slots are still
      occupied, and the pool no longer agrees with its cache (test_pool.rs:157 expects a
      single occupied slot). */
  method EvictLeavesSlotOccupied() returns (evicted: Option<ModelId>, usage: nat, occupied: nat, consistent: bool)
    ensures evicted == Some(Id("model1")) && usage == 1 && occupied == 2 && !consistent
  {
    var m1, m2 := Id("model1"), Id("model2");
    var pool := FillPool(m1, m2);
    evicted, usage, occupied, consistent := EvictOlderOfTwo(pool, m1, m2);
  }

  /** The public `evict` on a pool holding `a` and the newer `b` in its two slots: `a`
      leaves the cache but keeps its slot. */
  method EvictOlderOfTwo(pool: VramPool, a: ModelId, b: ModelId)
    returns (evicted: Option<ModelId>, usage: nat, occupied: nat, consistent: bool)
    requires pool.Valid() && pool.Status() == [Some(a), Some(b)]
    requires pool.lru.items.Keys == {a, b} && a != b && pool.lru.items[a].1 < pool.lru.items[b].1
    modifies pool.lru
    ensures evicted == Some(a) && usage == 1 && occupied == 2 && !consistent
  {
    ghost var items := pool.lru.items;
    OlderOfTwo(items, b, a);
    evicted := pool.Evict();
    assert evicted == Some(a);
    assert pool.lru.items.Keys == {b};
    usage, occupied, consistent := Tally(pool, [Some(a), Some(b)], {b});
    assert a in Occupied([Some(a), Some(b)]);
  }

  /** The usage, the number of occupied slots and whether the slots and the cache agree,
      for a pool with the given slot row and cached models. */
  method Tally(pool: VramPool, status0: seq<Option<ModelId>>, keys: set<ModelId>)
    returns (usage: nat, occupied: nat, consistent: bool)
    requires pool.Status() == status0 && pool.lru.items.Keys == keys
    ensures usage == |keys| && occupied == CountOccupied(status0)
    ensures consistent <==> Occupied(status0) == keys
  {
    usage := pool.Usage();
    var status := pool.GetSlotStatus();
    occupied := CountOccupied(status);
    consistent := Occupied(status) == pool.lru.items.Keys;
  }

  /** Eviction that also frees the slot leaves one occupied slot and a consistent pool. */
  method EvictFreesSlot() returns (evicted: Option<ModelId>, usage: nat, occupied: nat, consistent: bool)
    ensures evicted == Some(Id("model1")) && usage == 1 && occupied == 1 && consistent
  {
    var m1, m2 := Id("model1"), Id("model2");
    var pool := FillPool(m1, m2);
    evicted, usage, occupied, consistent := FreeOlderOfTwo(pool, m1, m2);
  }

  /** Freeing eviction on a pool holding `a` and the newer `b` in its two slots leaves
      `b` alone in its slot and the pool consistent. */
  method FreeOlderOfTwo(pool: VramPool, a: ModelId, b: ModelId)
    returns (evicted: Option<ModelId>, usage: nat, occupied: nat, consistent: bool)
    requires pool.Valid() && pool.Consistent() && pool.Status() == [Some(a), Some(b)]
    requires pool.lru.items.Keys == {a, b} && a != b && pool.lru.items[a].1 < pool.lru.items[b].1
    modifies pool, pool.slots, pool.lru
    ensures evicted == Some(a) && usage == 1 && occupied == 1 && consistent
  {
    OlderOfTwo(pool.lru.items, b, a);
    FreeFirstOfTwo(a, b);
    evicted := pool.EvictAndFree();
    assert evicted == Some(a);
    usage, occupied, consistent := Tally(pool, [None, Some(b)], {b});
  }

  /** Freeing the slot of `a` in the row `[a, b]` leaves `b` as the only occupant. */
  lemma FreeFirstOfTwo(a: ModelId, b: ModelId)
    requires a != b
    ensures [Some(a), Some(b)][IndexOf([Some(a), Some(b)], Some(a)) := None] == [None, Some(b)]
    ensures CountOccupied([None, Some(b)]) == 1 && Occupied([None, Some(b)]) == {b}
  {
    assert IndexOf([Some(a), Some(b)], Some(a)) == 0;
    assert [None, Some(b)][..1] == [None];
  }
}
