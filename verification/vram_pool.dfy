/** The model-residency pool (core/src/vram/pool.rs): an LRU cache of loaded models and a
    fixed row of VRAM slots that hold them.

    `Instant::now()` is replaced by a logical clock that each object advances on every
    reading, so access times are strictly increasing and "the oldest entry" is always a
    single, well-defined entry. */
module Vram {
  import opened Wrappers
  import DataValues

  type ModelId = DataValues.ModelId

  /** A loaded model (`Arc<Model>` is shared by value here). */
  datatype Model = Model(id: ModelId, name: string, size: nat, version: string)

  // ---------------------------------------------------------------------------------------
  // The LRU cache.

  /** `k` is a present key whose access time is not later than any other's. */
  ghost predicate IsOldest<K, V>(items: map<K, (V, nat)>, k: K) {
    k in items && forall k' | k' in items :: items[k].1 <= items[k'].1
  }

  /** No two entries share an access time. */
  ghost predicate DistinctTimes<K, V>(items: map<K, (V, nat)>) {
    forall k1, k2 | k1 in items && k2 in items && k1 != k2 :: items[k1].1 != items[k2].1
  }

  /** With distinct access times the oldest entry is unique. */
  lemma OldestUnique<K, V>(items: map<K, (V, nat)>, a: K, b: K)
    requires DistinctTimes(items) && IsOldest(items, a) && IsOldest(items, b)
    ensures a == b
  {
  }

  /** Dropping one present key and adding an absent one leaves the size unchanged. */
  lemma ReplaceKeepsSize<K, V>(m: map<K, V>, victim: K, key: K, entry: V)
    requires victim in m && key !in m
    ensures |(m - {victim})[key := entry]| == |m|
  {
    var m' := m - {victim};
    assert m.Keys == m'.Keys + {victim};
    assert |m'.Keys| == |m.Keys| - 1;
    assert m'[key := entry].Keys == m'.Keys + {key};
  }

  /** Stamping an entry with a time later than every present time keeps times distinct
      and all below the next clock value. */
  lemma StampKeepsTimes<K, V>(items: map<K, (V, nat)>, key: K, value: V, now: nat)
    requires forall k | k in items :: items[k].1 < now
    requires DistinctTimes(items)
    ensures var items' := items[key := (value, now)];
      (forall k | k in items' :: items'[k].1 < now + 1) && DistinctTimes(items')
  {
  }

  /** `LruCache<K, V>`: entries with the time they were last touched. */
  class LruCache<K(==), V> {
    var items: map<K, (V, nat)>
    const capacity: nat
    var clock: nat

    ghost predicate Valid()
      reads this
    {
      (forall k | k in items :: items[k].1 < clock) && DistinctTimes(items)
    }

    constructor(capacity: nat)
      ensures Valid()
      ensures items == map[] && this.capacity == capacity && clock == 0
    {
      items := map[];
      this.capacity := capacity;
      clock := 0;
    }

    /** `get`: a present key is refreshed and its value returned; an absent key changes
        nothing. */
    method Get(key: K) returns (r: Option<V>)
      requires Valid()
      modifies this
      ensures Valid()
      ensures key in old(items) ==>
        && r == Some(old(items)[key].0)
        && items == old(items)[key := (old(items)[key].0, old(clock))]
        && clock == old(clock) + 1
      ensures key !in old(items) ==> r == None && unchanged(this)
    {
      if key in items {
        var value := items[key].0;
        items := items[key := (value, clock)];
        clock := clock + 1;
        r := Some(value);
      } else {
        r := None;
      }
    }

    /** `evict_oldest`: removes and returns the entry with the earliest access time, or
        None when the cache is empty. */
    method EvictOldest() returns (r: Option<K>)
      requires Valid()
      modifies this
      ensures Valid()
      ensures r.None? <==> |old(items)| == 0
      ensures r.Some? ==> IsOldest(old(items), r.value) && items == old(items) - {r.value}
      ensures r.None? ==> items == old(items)
      ensures clock == old(clock)
    {
      var unseen := items.Keys;
      var best: Option<K> := None;
      while unseen != {}
        invariant unseen <= items.Keys
        invariant best.None? ==> unseen == items.Keys
        invariant best.Some? ==> best.value in items && best.value !in unseen
        invariant best.Some? ==> forall k | k in items && k !in unseen :: items[best.value].1 <= items[k].1
        decreases unseen
      {
        var k :| k in unseen;
        if best.None? || items[k].1 < items[best.value].1 {
          best := Some(k);
        }
        unseen := unseen - {k};
      }
      if best.Some? {
        items := items - {best.value};
      } else {
        assert items.Keys == {};
        assert items == map[];
      }
      r := best;
    }

    /** `insert`: an existing key gets the new value and a fresh time and nothing is
        evicted; a new key first evicts the oldest entry when the cache is at capacity. */
    method Insert(key: K, value: V) returns (r: Option<V>)
      requires Valid()
      modifies this
      ensures Valid()
      ensures r == None
      ensures clock == old(clock) + 1
      ensures key in old(items) || |old(items)| < capacity ==>
        items == old(items)[key := (value, old(clock))]
      ensures key !in old(items) && |old(items)| >= capacity && |old(items)| == 0 ==>
        items == map[key := (value, old(clock))]
      ensures key !in old(items) && |old(items)| >= capacity && |old(items)| > 0 ==>
        exists victim :: IsOldest(old(items), victim)
          && items == (old(items) - {victim})[key := (value, old(clock))]
      ensures capacity > 0 && |old(items)| <= capacity ==> |items| <= capacity
    {
      if key !in items && |items| >= capacity {
        ghost var before := items;
        var victim := EvictOldest();
        if victim.Some? {
          ReplaceKeepsSize(before, victim.value, key, (value, clock));
        }
      }
      StampKeepsTimes(items, key, value, clock);
      items := items[key := (value, clock)];
      clock := clock + 1;
      r := None;
    }

    function Len(): (n: nat)
      reads this
      ensures n == |items|
    {
      |items|
    }
  }

  // ---------------------------------------------------------------------------------------
  // Slots.

  datatype Slot = Slot(modelId: Option<ModelId>, model: Option<Model>, lastAccess: nat)

  /** The model id of every slot, in slot order (`get_slot_status`). */
  function Ids(s: seq<Slot>): (r: seq<Option<ModelId>>)
    ensures |r| == |s|
    ensures forall i | 0 <= i < |s| :: r[i] == s[i].modelId
  {
    if |s| == 0 then [] else Ids(s[..|s| - 1]) + [s[|s| - 1].modelId]
  }

  /** No model occupies two slots. */
  predicate DistinctIds(s: seq<Option<ModelId>>) {
    forall i, j | 0 <= i < j < |s| && s[i].Some? :: s[i] != s[j]
  }

  /** The models that occupy some slot. */
  function Occupied(s: seq<Option<ModelId>>): (r: set<ModelId>)
    ensures forall id :: id in r <==> Some(id) in s
  {
    if |s| == 0 then {}
    else
      var rest := Occupied(s[..|s| - 1]);
      assert forall x :: x in s <==> x in s[..|s| - 1] || x == s[|s| - 1];
      if s[|s| - 1].Some? then rest + {s[|s| - 1].value} else rest
  }

  /** How many slots are occupied. */
  function OccupiedCount(s: seq<Option<ModelId>>): (n: nat)
    ensures n <= |s|
  {
    if |s| == 0 then 0
    else OccupiedCount(s[..|s| - 1]) + (if s[|s| - 1].Some? then 1 else 0)
  }

  /** With distinct ids there are exactly as many occupants as occupied slots, and a row
      with an empty slot holds fewer occupants than slots. */
  lemma {:induction false} OccupiedSize(s: seq<Option<ModelId>>)
    requires DistinctIds(s)
    ensures |Occupied(s)| == OccupiedCount(s)
    ensures OccupiedCount(s) == |s| <==> None !in s
  {
    if |s| > 0 {
      var u := s[..|s| - 1];
      assert DistinctIds(u);
      OccupiedSize(u);
      if s[|s| - 1].Some? {
        assert s[|s| - 1].value !in Occupied(u);
      }
      assert None in s <==> None in u || s[|s| - 1] == None;
    }
  }

  /** The first position of `x` in `s`. */
  function IndexOf<T(==)>(s: seq<T>, x: T): (k: nat)
    requires x in s
    ensures k < |s| && s[k] == x
    ensures forall j | 0 <= j < k :: s[j] != x
  {
    if s[0] == x then 0 else 1 + IndexOf(s[1..], x)
  }

  /** Writing one slot: distinctness survives when the written id is not already resident,
      and the occupants change by the id removed and the id written. */
  lemma SetSlot(s: seq<Option<ModelId>>, k: nat, x: Option<ModelId>)
    requires DistinctIds(s) && k < |s|
    requires x.Some? ==> x !in s
    ensures DistinctIds(s[k := x])
    ensures Occupied(s[k := x])
         == Occupied(s) - (if s[k].Some? then {s[k].value} else {}) + (if x.Some? then {x.value} else {})
  {
    SetSlotDistinct(s, k, x);
    forall id
      ensures Some(id) in s[k := x] <==> (Some(id) in s && s[k] != Some(id)) || x == Some(id)
    {
      SetSlotHolds(s, k, x, id);
    }
  }

  /** Writing an id that is not resident keeps the row free of repeats. */
  lemma SetSlotDistinct(s: seq<Option<ModelId>>, k: nat, x: Option<ModelId>)
    requires DistinctIds(s) && k < |s|
    requires x.Some? ==> x !in s
    ensures DistinctIds(s[k := x])
  {
    var t := s[k := x];
    forall i, j | 0 <= i < j < |t| && t[i].Some?
      ensures t[i] != t[j]
    {
      if i != k && j != k {
        assert s[i] == t[i] && s[j] == t[j];
      }
    }
  }

  /** After writing `x` into slot `k`, `id` is resident exactly when it was resident
      elsewhere than in slot `k`, or is `x`. */
  lemma SetSlotHolds(s: seq<Option<ModelId>>, k: nat, x: Option<ModelId>, id: ModelId)
    requires DistinctIds(s) && k < |s|
    ensures Some(id) in s[k := x] <==> (Some(id) in s && s[k] != Some(id)) || x == Some(id)
  {
    var t := s[k := x];
    if Some(id) in t && x != Some(id) {
      var i :| 0 <= i < |t| && t[i] == Some(id);
      assert i != k && s[i] == Some(id);
      if i < k {
        assert s[i] != s[k];
      } else {
        assert s[k] != s[i];
      }
    }
    if Some(id) in s && s[k] != Some(id) {
      var i :| 0 <= i < |s| && s[i] == Some(id);
      assert t[i] == Some(id);
    }
    if x == Some(id) {
      assert t[k] == x;
    }
  }

  /** Removing a cached model from the cache and emptying its slot keeps the slots and the
      cache in agreement. */
  lemma FreeKeepsAgreement(items0: map<ModelId, (Model, nat)>, status0: seq<Option<ModelId>>, v: ModelId,
                           items: map<ModelId, (Model, nat)>, status: seq<Option<ModelId>>)
    requires DistinctIds(status0) && Occupied(status0) == items0.Keys
    requires v in items0 && items == items0 - {v}
    requires Some(v) in status0 ==> status == status0[IndexOf(status0, Some(v)) := None]
    ensures Some(v) in status0
    ensures status == status0[IndexOf(status0, Some(v)) := None]
    ensures DistinctIds(status) && Occupied(status) == items.Keys
  {
    assert v in Occupied(status0);
    SetSlot(status0, IndexOf(status0, Some(v)), None);
  }

  lemma MapRemoveSize<K, V>(m: map<K, V>, k: K)
    requires k in m
    ensures |m - {k}| == |m| - 1
  {
    assert m.Keys == (m - {k}).Keys + {k};
  }

  lemma UpdateTwice<T>(s: seq<T>, k: nat, a: T, b: T)
    requires k < |s|
    ensures s[k := a][k := b] == s[k := b]
  {
  }

  lemma IdsUpdate(s: seq<Slot>, k: nat, x: Slot)
    requires k < |s|
    ensures Ids(s[k := x]) == Ids(s)[k := x.modelId]
  {
  }

  /** In a row without empty slots, the slot freed by removing a resident is the first
      empty one. */
  lemma FreedSlotIsFirstEmpty(s: seq<Option<ModelId>>, v: ModelId)
    requires None !in s && Some(v) in s
    ensures var k := IndexOf(s, Some(v));
      None in s[k := None] && IndexOf(s[k := None], None) == k
  {
    var k := IndexOf(s, Some(v));
    var t := s[k := None];
    assert t[k] == None;
    forall i | 0 <= i < k
      ensures t[i] != None
    {
      assert t[i] == s[i];
    }
  }

  /** A full, consistent row has no empty slot; a row with fewer residents than slots has
      one. */
  lemma EmptySlotExists(s: seq<Option<ModelId>>, residents: nat)
    requires DistinctIds(s) && |Occupied(s)| == residents
    ensures residents < |s| ==> None in s
    ensures residents >= |s| ==> None !in s && residents == |s|
  {
    OccupiedSize(s);
  }

  /** The value-level outcome of `insert` for a model that is not cached yet, in a
      consistent pool with at least one slot: after the eviction step (`status1`, `items1`)
      the model is cached and written into the first empty slot. */
  lemma InsertIntoRoom(capacity: nat, status0: seq<Option<ModelId>>, items0: map<ModelId, (Model, nat)>,
                       evicted: Option<ModelId>, status1: seq<Option<ModelId>>, items1: map<ModelId, (Model, nat)>,
                       k: nat, status2: seq<Option<ModelId>>, items2: map<ModelId, (Model, nat)>,
                       id: ModelId, model: Model, now: nat)
    requires capacity > 0 && id !in items0
    requires DistinctIds(status0) && Occupied(status0) == items0.Keys
    requires |items0| < capacity ==> evicted.None? && items1 == items0 && status1 == status0
    requires |items0| >= capacity ==>
      && evicted.Some?
      && IsOldest(items0, evicted.value) && items1 == items0 - {evicted.value}
      && Some(evicted.value) in status0
      && status1 == status0[IndexOf(status0, Some(evicted.value)) := None]
      && None in status1 && IndexOf(status1, None) == IndexOf(status0, Some(evicted.value))
    requires DistinctIds(status1) && Occupied(status1) == items1.Keys && |items1| < capacity && None in status1
    requires items2 == items1[id := (model, now)]
    requires k == IndexOf(status1, None) && status2 == status1[k := Some(id)]
    ensures DistinctIds(status2) && Occupied(status2) == items2.Keys
    ensures |items0| < capacity ==>
      None in status0 && items2 == items0[id := (model, now)] && status2 == status0[IndexOf(status0, None) := Some(id)]
    ensures |items0| >= capacity ==>
      exists victim ::
        && IsOldest(items0, victim)
        && Some(victim) in status0
        && items2 == (items0 - {victim})[id := (model, now)]
        && status2 == status0[IndexOf(status0, Some(victim)) := Some(id)]
  {
    assert id !in items1;
    SetSlot(status1, k, Some(id));
    if |items0| >= capacity {
      ReplaceVictim(status0, items0, evicted.value, k, id, model, now);
    }
  }

  /** Freeing the slot of the victim `v` and writing `id` into it amounts to writing `id`
      over `v`. */
  lemma ReplaceVictim(status0: seq<Option<ModelId>>, items0: map<ModelId, (Model, nat)>, v: ModelId,
                      k: nat, id: ModelId, model: Model, now: nat)
    requires IsOldest(items0, v) && Some(v) in status0 && k == IndexOf(status0, Some(v))
    ensures exists victim ::
        && IsOldest(items0, victim)
        && Some(victim) in status0
        && (items0 - {v})[id := (model, now)] == (items0 - {victim})[id := (model, now)]
        && status0[k := None][k := Some(id)] == status0[IndexOf(status0, Some(victim)) := Some(id)]
  {
    UpdateTwice(status0, k, None, Some(id));
  }

  /** The slots after `remove_from_slot(id)` at time `stamp`: the first slot holding `id`
      is emptied; without such a slot nothing changes. */
  function FreeSlot(s: seq<Slot>, id: ModelId, stamp: nat): (r: seq<Slot>)
    ensures |r| == |s|
    ensures Some(id) in Ids(s) ==> Ids(r) == Ids(s)[IndexOf(Ids(s), Some(id)) := None]
    ensures Some(id) !in Ids(s) ==> r == s
  {
    if Some(id) in Ids(s) then s[IndexOf(Ids(s), Some(id)) := Slot(None, None, stamp)] else s
  }

  /** `k` is the first slot with the earliest access time (`find_oldest_slot`). */
  predicate FirstOldest(s: seq<Slot>, k: nat) {
    && k < |s|
    && (forall j | 0 <= j < |s| :: s[k].lastAccess <= s[j].lastAccess)
    && (forall j | 0 <= j < k :: s[k].lastAccess < s[j].lastAccess)
  }

  /** What `insert` does with a model that is not cached yet, whatever the pool's state:
      from the cache `items0` (clock `now`) and the slots `slots0` (clock `stamp`) to
      `items` and `slots`. When the cache is full the oldest entry `evicted` leaves it and
      its slot is emptied; the new entry is cached with time `now`; the model is written
      into slot `index`, the first empty one, or else the first with the earliest access
      time, and no other slot changes; a pool without slots has no `index`. */
  ghost predicate InsertedNew(capacity: nat, items0: map<ModelId, (Model, nat)>, now: nat,
                              slots0: seq<Slot>, stamp: nat, id: ModelId, model: Model,
                              evicted: Option<ModelId>, index: Option<nat>,
                              items: map<ModelId, (Model, nat)>, slots: seq<Slot>)
  {
    && (evicted.Some? <==> |items0| >= capacity && |items0| > 0)
    && (evicted.Some? ==> IsOldest(items0, evicted.value))
    && (capacity > 0 ==>
          items == (if evicted.Some? then items0 - {evicted.value} else items0)[id := (model, now)])
    && (index.None? <==> |slots0| == 0)
    && var freed := if evicted.Some? then FreeSlot(slots0, evicted.value, stamp) else slots0;
       && (index.None? ==> slots == freed)
       && (index.Some? ==>
             && index.value < |freed| == |slots|
             && slots == freed[index.value := slots[index.value]]
             && slots[index.value].modelId == Some(id) && slots[index.value].model == Some(model))
       && (index.Some? && None in Ids(freed) ==> index.value == IndexOf(Ids(freed), None))
       && (index.Some? && None !in Ids(freed) ==> FirstOldest(freed, index.value))
  }

  /** The three steps of `insert` for a new model (make room, cache it, write a slot)
      compose to `InsertedNew`. */
  lemma InsertSteps(capacity: nat, items0: map<ModelId, (Model, nat)>, now: nat, slots0: seq<Slot>,
                    stamp: nat, id: ModelId, model: Model, removed: Option<ModelId>,
                    items1: map<ModelId, (Model, nat)>, slots1: seq<Slot>, placed: Option<nat>, written: nat,
                    items: map<ModelId, (Model, nat)>, slots: seq<Slot>)
    requires id !in items0 && (capacity > 0 ==> |items0| <= capacity) && |slots0| == capacity
    requires removed.Some? <==> |items0| >= capacity && |items0| > 0
    requires removed.Some? ==>
      && IsOldest(items0, removed.value) && items1 == items0 - {removed.value}
      && slots1 == FreeSlot(slots0, removed.value, stamp)
    requires removed.None? ==> items1 == items0 && slots1 == slots0
    requires id !in items1 && |items1| < capacity ==> items == items1[id := (model, now)]
    requires placed.None? <==> |slots1| == 0
    requires placed.None? ==> slots == slots1
    requires placed.Some? ==>
      placed.value < |slots1| && slots == slots1[placed.value := Slot(Some(id), Some(model), written)]
    requires None in Ids(slots1) ==> placed == Some(IndexOf(Ids(slots1), None))
    requires None !in Ids(slots1) && placed.Some? ==> FirstOldest(slots1, placed.value)
    ensures InsertedNew(capacity, items0, now, slots0, stamp, id, model, removed, placed, items, slots)
  {
    if removed.Some? {
      MapRemoveSize(items0, removed.value);
    }
  }

  /** The single failure of `VramPool::insert`: `find_oldest_slot` unwraps None on a pool
      without slots. */
  datatype PoolError = NoSlotToReuse

  /** `VramPool`: `capacity` slots and an LRU cache of the same capacity. */
  class VramPool {
    const capacity: nat
    const slots: array<Slot>
    const lru: LruCache<ModelId, Model>
    var clock: nat

    ghost predicate Valid()
      reads this, lru
    {
      && slots.Length == capacity && lru.capacity == capacity && lru.Valid()
      && (capacity > 0 ==> |lru.items| <= capacity)
    }

    /** The model id held by each slot. */
    function Status(): (status: seq<Option<ModelId>>)
      reads this, slots
      ensures |status| == slots.Length
      ensures forall i | 0 <= i < slots.Length :: status[i] == slots[i].modelId
    {
      Ids(slots[..])
    }

    /** The slots and the cache agree: no model occupies two slots, and the models in the
        slots are exactly the cached ones. */
    ghost predicate Consistent()
      reads this, slots, lru
    {
      DistinctIds(Status()) && Occupied(Status()) == lru.items.Keys
    }

    /** `VramPool::new`: `capacity` empty slots and an empty cache. */
    constructor(capacity: nat)
      ensures Valid() && Consistent()
      ensures this.capacity == capacity
      ensures |Status()| == capacity && forall i | 0 <= i < capacity :: Status()[i] == None
      ensures lru.items == map[]
      ensures fresh(slots) && fresh(lru)
    {
      this.capacity := capacity;
      slots := new Slot[capacity](i => Slot(None, None, i));
      lru := new LruCache(capacity);
      clock := capacity;
    }

    /** `usage`: the number of cached models. */
    function Usage(): (n: nat)
      reads this, lru
      ensures n == |lru.items|
    {
      lru.Len()
    }

    /** A consistent pool never caches more models than it has slots. */
    lemma UsageBounded()
      requires Valid() && Consistent()
      ensures Usage() <= capacity
    {
      OccupiedSize(Status());
    }

    /** `get_slot_status`: the model id of every slot, in order. */
    method GetSlotStatus() returns (status: seq<Option<ModelId>>)
      ensures status == Status()
    {
      status := [];
      var i := 0;
      while i < slots.Length
        invariant 0 <= i <= slots.Length
        invariant status == Ids(slots[..i])
      {
        assert slots[..i + 1][..i] == slots[..i];
        status := status + [slots[i].modelId];
        i := i + 1;
      }
      assert slots[..i] == slots[..];
    }

    /** `find_empty_slot`: the first slot that holds no model. */
    method FindEmptySlot() returns (r: Option<nat>)
      ensures r == if None in Status() then Some(IndexOf(Status(), None)) else None
    {
      var i := 0;
      while i < slots.Length
        invariant 0 <= i <= slots.Length
        invariant forall j | 0 <= j < i :: Status()[j] != None
      {
        if slots[i].modelId.None? {
          return Some(i);
        }
        i := i + 1;
      }
      return None;
    }

    /** `find_oldest_slot`: the first slot with the earliest access time; None stands for
        the `unwrap` on a pool without slots. */
    method FindOldestSlot() returns (r: Option<nat>)
      ensures r.None? <==> slots.Length == 0
      ensures r.Some? ==>
        && r.value < slots.Length
        && (forall j | 0 <= j < slots.Length :: slots[r.value].lastAccess <= slots[j].lastAccess)
        && (forall j | 0 <= j < r.value :: slots[r.value].lastAccess < slots[j].lastAccess)
    {
      if slots.Length == 0 {
        return None;
      }
      var best := 0;
      var i := 1;
      while i < slots.Length
        invariant 0 <= best < i <= slots.Length
        invariant forall j | 0 <= j < i :: slots[best].lastAccess <= slots[j].lastAccess
        invariant forall j | 0 <= j < best :: slots[best].lastAccess < slots[j].lastAccess
      {
        if slots[i].lastAccess < slots[best].lastAccess {
          best := i;
        }
        i := i + 1;
      }
      return Some(best);
    }

    /** `update_slot_access_time`: the first slot holding the model gets a fresh time. */
    method UpdateSlotAccessTime(id: ModelId)
      modifies this, slots
      ensures Some(id) !in old(Status()) ==> slots[..] == old(slots[..])
      ensures Some(id) in old(Status()) ==>
        var k := IndexOf(old(Status()), Some(id));
        slots[..] == old(slots[..])[k := old(slots[k]).(lastAccess := old(clock))]
      ensures Status() == old(Status())
    {
      var i := 0;
      while i < slots.Length
        invariant 0 <= i <= slots.Length
        invariant slots[..] == old(slots[..]) && clock == old(clock)
        invariant forall j | 0 <= j < i :: Status()[j] != Some(id)
      {
        if slots[i].modelId == Some(id) {
          slots[i] := slots[i].(lastAccess := clock);
          clock := clock + 1;
          assert Ids(slots[..]) == Ids(old(slots[..]));
          return;
        }
        i := i + 1;
      }
    }

    /** `remove_from_slot`: the first slot holding the model is emptied. */
    method RemoveFromSlot(id: ModelId)
      modifies this, slots
      ensures Some(id) !in old(Status()) ==> slots[..] == old(slots[..])
      ensures Some(id) in old(Status()) ==>
        var k := IndexOf(old(Status()), Some(id));
        slots[..] == old(slots[..])[k := Slot(None, None, old(clock))]
          && Status() == old(Status())[k := None]
    {
      var i := 0;
      while i < slots.Length
        invariant 0 <= i <= slots.Length
        invariant slots[..] == old(slots[..]) && clock == old(clock)
        invariant forall j | 0 <= j < i :: Status()[j] != Some(id)
      {
        if slots[i].modelId == Some(id) {
          slots[i] := Slot(None, None, clock);
          clock := clock + 1;
          return;
        }
        i := i + 1;
      }
    }

    /** `get`: a cached model is refreshed in the cache and in its slot and returned; an
        unknown id changes nothing. */
    method Get(id: ModelId) returns (r: Option<Model>)
      requires Valid()
      modifies this, slots, lru
      ensures Valid()
      ensures r == if id in old(lru.items) then Some(old(lru.items)[id].0) else None
      ensures id in old(lru.items) ==>
        lru.items == old(lru.items)[id := (old(lru.items)[id].0, old(lru.clock))]
      ensures id !in old(lru.items) ==> lru.items == old(lru.items) && slots[..] == old(slots[..])
      ensures id in old(lru.items) && Some(id) in old(Status()) ==>
        var k := IndexOf(old(Status()), Some(id));
        slots[..] == old(slots[..])[k := old(slots[k]).(lastAccess := old(clock))]
      ensures Some(id) !in old(Status()) ==> slots[..] == old(slots[..])
      ensures Status() == old(Status())
      ensures old(Consistent()) ==> Consistent()
    {
      r := lru.Get(id);
      if r.Some? {
        UpdateSlotAccessTime(id);
      }
    }

    /** `evict`, as written: the oldest model leaves the cache, but its slot stays
        occupied. */
    method Evict() returns (r: Option<ModelId>)
      requires Valid()
      modifies lru
      ensures Valid()
      ensures r.None? <==> |old(lru.items)| == 0
      ensures r.Some? ==> IsOldest(old(lru.items), r.value) && lru.items == old(lru.items) - {r.value}
      ensures r.None? ==> lru.items == old(lru.items)
      ensures lru.clock == old(lru.clock)
      ensures Status() == old(Status())
    {
      r := lru.EvictOldest();
    }

    /** Eviction that also frees the evicted model's slot, as `insert` does it: the oldest
        model leaves both the cache and its slot, keeping the pool consistent. */
    method EvictAndFree() returns (r: Option<ModelId>)
      requires Valid()
      modifies this, slots, lru
      ensures Valid()
      ensures r.None? <==> |old(lru.items)| == 0
      ensures r.Some? ==> IsOldest(old(lru.items), r.value) && lru.items == old(lru.items) - {r.value}
      ensures r.None? ==> lru.items == old(lru.items) && slots[..] == old(slots[..])
      ensures lru.clock == old(lru.clock)
      ensures r.Some? ==> slots[..] == FreeSlot(old(slots[..]), r.value, old(clock))
      ensures r.Some? && old(Consistent()) ==>
        Some(r.value) in old(Status())
        && Status() == old(Status())[IndexOf(old(Status()), Some(r.value)) := None]
      ensures old(Consistent()) ==> Consistent()
    {
      ghost var status, before := Status(), slots[..];
      r := lru.EvictOldest();
      if r.Some? {
        MapRemoveSize(old(lru.items), r.value);
        RemoveFromSlot(r.value);
        assert slots[..] == FreeSlot(before, r.value, old(clock));
        if old(Consistent()) {
          FreeKeepsAgreement(old(lru.items), status, r.value, lru.items, Status());
        }
      }
    }

    /** The eviction step of `insert`: when the cache is at capacity, the oldest model
        leaves the cache and its slot. In a consistent pool with at least one slot this
        always leaves an empty slot behind. */
    method MakeRoom() returns (evicted: Option<ModelId>)
      requires Valid()
      modifies this, slots, lru
      ensures Valid()
      ensures lru.clock == old(lru.clock)
      ensures |old(lru.items)| < capacity ==>
        evicted.None? && lru.items == old(lru.items) && slots[..] == old(slots[..])
      ensures |old(lru.items)| >= capacity ==>
        && (evicted.None? <==> |old(lru.items)| == 0)
        && (evicted.Some? ==> IsOldest(old(lru.items), evicted.value) && lru.items == old(lru.items) - {evicted.value})
        && (evicted.None? ==> lru.items == old(lru.items))
      ensures evicted.None? ==> slots[..] == old(slots[..])
      ensures evicted.Some? ==> slots[..] == FreeSlot(old(slots[..]), evicted.value, old(clock))
      ensures old(Consistent()) && capacity > 0 ==>
        Consistent() && |lru.items| < capacity && None in Status()
      ensures old(Consistent()) && capacity > 0 && |old(lru.items)| >= capacity ==>
        && evicted.Some?
        && Some(evicted.value) in old(Status())
        && Status() == old(Status())[IndexOf(old(Status()), Some(evicted.value)) := None]
        && IndexOf(Status(), None) == IndexOf(old(Status()), Some(evicted.value))
    {
      ghost var status0 := Status();
      ghost var items0 := lru.items;
      if old(Consistent()) {
        EmptySlotExists(status0, |items0|);
      }
      evicted := None;
      if lru.Len() >= capacity {
        evicted := EvictAndFree();
        if old(Consistent()) && evicted.Some? {
          FreedSlotIsFirstEmpty(status0, evicted.value);
          MapRemoveSize(items0, evicted.value);
        }
      }
    }

    /** The slot-writing tail of `insert`: the model goes into the first empty slot, or
        into the oldest slot when none is empty; None when the pool has no slot at all. */
    method PlaceInSlot(id: ModelId, model: Model) returns (index: Option<nat>)
      modifies this, slots
      ensures index.None? <==> slots.Length == 0
      ensures index.None? ==> slots[..] == old(slots[..])
      ensures index.Some? ==>
        && index.value < slots.Length
        && slots[..] == old(slots[..])[index.value := Slot(Some(id), Some(model), old(clock))]
        && Status() == old(Status())[index.value := Some(id)]
      ensures None in old(Status()) ==> index == Some(IndexOf(old(Status()), None))
      ensures None !in old(Status()) && index.Some? ==> FirstOldest(old(slots[..]), index.value)
    {
      var empty := FindEmptySlot();
      if empty.Some? {
        index := empty;
      } else {
        index := FindOldestSlot();
        if index.None? {
          return;
        }
      }
      ghost var before := slots[..];
      slots[index.value] := Slot(Some(id), Some(model), clock);
      clock := clock + 1;
      IdsUpdate(before, index.value, Slot(Some(id), Some(model), old(clock)));
    }

    /** `insert`. A resident model is replaced in the cache and its slot refreshed. A new
        model first evicts the oldest one (and frees its slot) when the cache is full, then
        goes into the first empty slot, or into the slot with the oldest access time when
        no slot is empty. */
    method Insert(id: ModelId, model: Model)
      returns (r: Result<(), PoolError>, ghost evicted: Option<ModelId>, ghost index: Option<nat>)
      requires Valid()
      modifies this, slots, lru
      ensures Valid()
      ensures r.Err? <==> id !in old(lru.items) && capacity == 0
      ensures id in old(lru.items) ==>
        && evicted.None? && index.None?
        && lru.items == old(lru.items)[id := (model, old(lru.clock))]
        && Status() == old(Status())
        && (old(Consistent()) ==> Consistent())
      ensures id in old(lru.items) && Some(id) in old(Status()) ==>
        var k := IndexOf(old(Status()), Some(id));
        slots[..] == old(slots[..])[k := old(slots[k]).(lastAccess := old(clock))]
      ensures id in old(lru.items) && Some(id) !in old(Status()) ==> slots[..] == old(slots[..])
      ensures id !in old(lru.items) ==>
        InsertedNew(capacity, old(lru.items), old(lru.clock), old(slots[..]), old(clock), id, model,
                    evicted, index, lru.items, slots[..])
      ensures id !in old(lru.items) && old(Consistent()) && capacity > 0 ==> Consistent()
      ensures id !in old(lru.items) && old(Consistent()) && |old(lru.items)| < capacity ==>
        && None in old(Status())
        && lru.items == old(lru.items)[id := (model, old(lru.clock))]
        && Status() == old(Status())[IndexOf(old(Status()), None) := Some(id)]
      ensures id !in old(lru.items) && old(Consistent()) && capacity > 0 && |old(lru.items)| >= capacity ==>
        exists victim ::
          && IsOldest(old(lru.items), victim)
          && Some(victim) in old(Status())
          && lru.items == (old(lru.items) - {victim})[id := (model, old(lru.clock))]
          && Status() == old(Status())[IndexOf(old(Status()), Some(victim)) := Some(id)]
    {
      if id in lru.items {
        var _ := lru.Insert(id, model);
        UpdateSlotAccessTime(id);
        r, evicted, index := Ok(()), None, None;
      } else {
        r, evicted, index := InsertNew(id, model);
      }
    }

    /** `insert` of a model that is not cached yet. */
    method InsertNew(id: ModelId, model: Model)
      returns (r: Result<(), PoolError>, ghost evicted: Option<ModelId>, ghost index: Option<nat>)
      requires Valid() && id !in lru.items
      modifies this, slots, lru
      ensures Valid()
      ensures r.Err? <==> capacity == 0
      ensures InsertedNew(capacity, old(lru.items), old(lru.clock), old(slots[..]), old(clock), id, model,
                          evicted, index, lru.items, slots[..])
      ensures old(Consistent()) && capacity > 0 ==> Consistent()
      ensures old(Consistent()) && |old(lru.items)| < capacity ==>
        && None in old(Status())
        && lru.items == old(lru.items)[id := (model, old(lru.clock))]
        && Status() == old(Status())[IndexOf(old(Status()), None) := Some(id)]
      ensures old(Consistent()) && capacity > 0 && |old(lru.items)| >= capacity ==>
        exists victim ::
          && IsOldest(old(lru.items), victim)
          && Some(victim) in old(Status())
          && lru.items == (old(lru.items) - {victim})[id := (model, old(lru.clock))]
          && Status() == old(Status())[IndexOf(old(Status()), Some(victim)) := Some(id)]
    {
      ghost var status0 := Status();
      ghost var items0 := lru.items;
      ghost var clock0 := lru.clock;
      ghost var cons0 := Consistent();
      ghost var slots0, stamp := slots[..], clock;
      var removed := MakeRoom();
      evicted := removed;
      ghost var status1 := Status();
      ghost var items1 := lru.items;
      ghost var slots1, written := slots[..], clock;
      var _ := lru.Insert(id, model);
      var placed := PlaceInSlot(id, model);
      index := placed;
      InsertSteps(capacity, items0, clock0, slots0, stamp, id, model, removed, items1, slots1, placed, written,
                  lru.items, slots[..]);
      if placed.None? {
        r := Err(NoSlotToReuse);
        return;
      }
      if cons0 && capacity > 0 {
        InsertIntoRoom(capacity, status0, items0, removed, status1, items1, placed.value, Status(), lru.items,
                       id, model, clock0);
      }
      r := Ok(());
    }
  }
}
