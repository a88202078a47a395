/** Collision resolution for hash tables: separate chaining with insertion
    at the head of a bucket, probe functions for open addressing, a generic
    probing insert, and Brent's reordering insert. An open-addressing table
    is an array of optional keys; a chaining table is an array of key
    lists, head first. */
module CollisionResolution {
  import opened Wrappers

  // ---------------------------------------------------------------------
  // Chaining
  // ---------------------------------------------------------------------

  /** The buckets after putting `key` at the head of its bucket,
      `key % capacity`. */
  ghost function ChainInserted(buckets: seq<seq<int32>>, key: int32, capacity: int32): seq<seq<int32>>
    requires capacity != 0 && 0 <= JavaRem(key as int, capacity as int) < |buckets|
  {
    var p := JavaRem(key as int, capacity as int);
    buckets[p := [key] + buckets[p]]
  }

  /** Head insertion: an empty bucket receives the element, a non-empty one
      gets it linked in front of its old head. */
  method InsertChaining(table: array<seq<int32>>, key: int32, capacity: int32)
    requires capacity != 0 && 0 <= JavaRem(key as int, capacity as int) < table.Length
    modifies table
    ensures table[..] == ChainInserted(old(table[..]), key, capacity)
  {
    var position := JavaRem(key as int, capacity as int);
    if table[position] == [] {
      assert [key] + table[position] == [key];
      table[position] := [key];
    } else {
      var currentHead := table[position];
      table[position] := [key] + currentHead;
    }
  }

  /** Every key sits in the bucket its hash names. */
  ghost predicate WellHashed(buckets: seq<seq<int32>>, capacity: int32)
    requires capacity != 0
  {
    forall b, x :: 0 <= b < |buckets| && x in buckets[b] ==> JavaRem(x as int, capacity as int) == b
  }

  /** All keys of a chaining table, as a multiset. */
  ghost function ChainKeys(buckets: seq<seq<int32>>): multiset<int32> {
    if buckets == [] then multiset{} else ChainKeys(buckets[..|buckets| - 1]) + multiset(buckets[|buckets| - 1])
  }

  /** Replacing one bucket changes the multiset of keys by exactly that
      bucket's difference. */
  lemma {:induction false} ChainKeysUpdate(buckets: seq<seq<int32>>, p: nat, chain: seq<int32>)
    requires p < |buckets|
    ensures ChainKeys(buckets[p := chain]) + multiset(buckets[p]) == ChainKeys(buckets) + multiset(chain)
    decreases |buckets|
  {
    var n := |buckets| - 1;
    if p < n {
      ChainKeysUpdate(buckets[..n], p, chain);
      assert buckets[p := chain][..n] == buckets[..n][p := chain];
      assert buckets[p := chain][n] == buckets[n];
      assert buckets[..n][p] == buckets[p];
      calc {
        ChainKeys(buckets[p := chain]) + multiset(buckets[p]);
        ChainKeys(buckets[..n][p := chain]) + multiset(buckets[n]) + multiset(buckets[..n][p]);
        ChainKeys(buckets[..n]) + multiset(chain) + multiset(buckets[n]);
        ChainKeys(buckets) + multiset(chain);
      }
    } else {
      var rest := ChainKeys(buckets[..n]);
      assert buckets[p := chain][..n] == buckets[..n];
      assert ChainKeys(buckets[p := chain]) == rest + multiset(chain);
      assert ChainKeys(buckets) == rest + multiset(buckets[p]);
    }
  }

  /** Head insertion adds exactly the new key, puts it at the head of its
      bucket and keeps every other bucket. */
  lemma ChainInsertKeys(buckets: seq<seq<int32>>, key: int32, capacity: int32)
    requires capacity != 0 && 0 <= JavaRem(key as int, capacity as int) < |buckets|
    ensures ChainKeys(ChainInserted(buckets, key, capacity)) == ChainKeys(buckets) + multiset{key}
    ensures ChainInserted(buckets, key, capacity)[JavaRem(key as int, capacity as int)][0] == key
    ensures forall b :: 0 <= b < |buckets| && b != JavaRem(key as int, capacity as int) ==>
      ChainInserted(buckets, key, capacity)[b] == buckets[b]
  {
    var p := JavaRem(key as int, capacity as int);
    var chain := [key] + buckets[p];
    ChainKeysUpdate(buckets, p, chain);
    var after, old_ := ChainKeys(buckets[p := chain]), multiset(buckets[p]);
    assert multiset(chain) == multiset{key} + old_;
    assert after + old_ == (ChainKeys(buckets) + multiset{key}) + old_;
    MultisetCancel(after, ChainKeys(buckets) + multiset{key}, old_);
  }

  /** Head insertion keeps every key in the bucket of its hash. */
  lemma ChainInsertKeepsHashing(buckets: seq<seq<int32>>, key: int32, capacity: int32)
    requires capacity != 0 && 0 <= JavaRem(key as int, capacity as int) < |buckets|
    requires WellHashed(buckets, capacity)
    ensures WellHashed(ChainInserted(buckets, key, capacity), capacity)
  {
    var p := JavaRem(key as int, capacity as int);
    var after := ChainInserted(buckets, key, capacity);
    forall b, x | 0 <= b < |after| && x in after[b]
      ensures JavaRem(x as int, capacity as int) == b
    {
      if b == p && x != key {
        assert x in buckets[p];
      }
    }
  }

  // ---------------------------------------------------------------------
  // Probe functions
  // ---------------------------------------------------------------------

  /** Linear probing, `((key % capacity) + i) % capacity` in `int`
      arithmetic. */
  function ProbeLinear(key: int32, i: int32, capacity: int32): (r: int32)
    requires capacity != 0
    ensures var m := if capacity > 0 then capacity as int else -(capacity as int); -m < r as int < m
    ensures 0 <= key && 0 <= i && 0 < capacity && JavaRem(key as int, capacity as int) + i as int <= INT_MAX ==> 0 <= r
  {
    var home := JavaRem(key as int, capacity as int);
    JavaRem(Wrap32(home + i as int) as int, capacity as int) as int32
  }

  /** Without wrap-around, linear probing gives the slot i after the key's
      home slot, cyclically, and so a slot of the table. */
  lemma ProbeLinearIsCyclicStep(key: int32, i: int32, capacity: int32)
    requires 0 <= key && 0 <= i && 0 < capacity && JavaRem(key as int, capacity as int) + i as int <= INT_MAX
    ensures 0 <= ProbeLinear(key, i, capacity) < capacity
    ensures ProbeLinear(key, i, capacity) as int == (key as int + i as int) % capacity as int
  {
    ModAddLeft(key as int, i as int, capacity as int);
  }

  /** The secondary hash `1 + key % 5`: between 1 and 5 for a non-negative
      key, so never zero there. */
  function SecondaryStep(key: int32): (r: int)
    ensures key >= 0 ==> 1 <= r <= 5
    ensures key < 0 ==> -3 <= r <= 1
  {
    1 + JavaRem(key as int, 5)
  }

  /** Double hashing, `(key % capacity + i * (1 + key % 5)) % capacity` in
      `int` arithmetic. */
  function ProbeDoubleHashing(key: int32, i: int32, capacity: int32): (r: int32)
    requires capacity != 0
    ensures var m := if capacity > 0 then capacity as int else -(capacity as int); -m < r as int < m
    ensures 0 <= key && 0 <= i && 0 < capacity && JavaRem(key as int, capacity as int) + i as int * SecondaryStep(key) <= INT_MAX ==> 0 <= r
  {
    var h1 := JavaRem(key as int, capacity as int);
    var h2 := SecondaryStep(key);
    JavaRem(Wrap32(h1 + Wrap32(i as int * h2) as int) as int, capacity as int) as int32
  }

  /** Without wrap-around, double hashing gives the slot i secondary steps
      after the key's home slot, cyclically, and so a slot of the table. */
  lemma ProbeDoubleHashingIsCyclicStep(key: int32, i: int32, capacity: int32)
    requires 0 <= key && 0 <= i && 0 < capacity
    requires JavaRem(key as int, capacity as int) + i as int * SecondaryStep(key) <= INT_MAX
    ensures 0 <= ProbeDoubleHashing(key, i, capacity) < capacity
    ensures ProbeDoubleHashing(key, i, capacity) as int == (key as int + i as int * SecondaryStep(key)) % capacity as int
  {
    var h2 := SecondaryStep(key);
    assert 0 <= i as int * h2 <= INT_MAX;
    ModAddLeft(key as int, i as int * h2, capacity as int);
  }

  // ---------------------------------------------------------------------
  // Generic probing insert
  // ---------------------------------------------------------------------

  /** A slot can take `key`: it is free or already holds key. */
  predicate Fits(slot: Option<int32>, key: int32) {
    slot.None? || slot.value == key
  }

  /** The probe sequence of `key` stays inside the table for its first
      `capacity` steps. */
  predicate ProbesInRange(n: int, probe: (int32, int32) -> int32, key: int32, capacity: int32) {
    forall i: int32 :: 0 <= i < capacity ==> 0 <= probe(key, i) as int < n
  }

  /** The first step, from `from` on, whose probed slot fits the key. */
  function FirstFit(slots: seq<Option<int32>>, probe: (int32, int32) -> int32, key: int32, capacity: int32, from: int32): (r: Option<int32>)
    requires ProbesInRange(|slots|, probe, key, capacity) && 0 <= from
    ensures r.Some? ==> from <= r.value < capacity && Fits(slots[probe(key, r.value)], key)
    ensures r.Some? ==> forall i: int32 :: from <= i < r.value ==> !Fits(slots[probe(key, i)], key)
    ensures r.None? ==> forall i: int32 :: from <= i < capacity ==> !Fits(slots[probe(key, i)], key)
    decreases capacity as int - from as int
  {
    if from >= capacity then None
    else if Fits(slots[probe(key, from)], key) then Some(from)
    else FirstFit(slots, probe, key, capacity, from + 1)
  }

  /** The table after the generic insert: key written at the first fitting
      probe, or the table unchanged when no probe fits. */
  ghost function Inserted(slots: seq<Option<int32>>, probe: (int32, int32) -> int32, key: int32, capacity: int32): seq<Option<int32>>
    requires ProbesInRange(|slots|, probe, key, capacity)
  {
    match FirstFit(slots, probe, key, capacity, 0)
    case Some(i) => slots[probe(key, i) := Some(key)]
    case None => slots
  }

  /** Probes i = 0 .. capacity-1 in order and writes the key into the first
      slot that is free or already holds it. */
  method Insert(table: array<Option<int32>>, probe: (int32, int32) -> int32, key: int32, capacity: int32)
    requires ProbesInRange(table.Length, probe, key, capacity)
    modifies table
    ensures table[..] == Inserted(old(table[..]), probe, key, capacity)
  {
    ghost var slots := table[..];
    var i: int32 := 0;
    while i < capacity
      invariant 0 <= i && (i <= capacity || capacity < 0)
      invariant table[..] == slots
      invariant FirstFit(slots, probe, key, capacity, 0) == FirstFit(slots, probe, key, capacity, i)
    {
      var position := probe(key, i);
      if table[position].None? {
        table[position] := Some(key);
        return;
      } else if table[position].value == key {
        // overwrite with the same key
        table[position] := Some(key);
        return;
      }
      i := i + 1;
    }
  }

  /** Inserting the same key twice changes nothing the first insert did not:
      the second run stops at the same probe, which now holds the key. */
  lemma InsertIdempotent(slots: seq<Option<int32>>, probe: (int32, int32) -> int32, key: int32, capacity: int32)
    requires ProbesInRange(|slots|, probe, key, capacity)
    ensures Inserted(Inserted(slots, probe, key, capacity), probe, key, capacity) == Inserted(slots, probe, key, capacity)
  {
    var once := Inserted(slots, probe, key, capacity);
    match FirstFit(slots, probe, key, capacity, 0)
    case Some(i) =>
      var p := probe(key, i);
      forall i': int32 | 0 <= i' < i
        ensures !Fits(once[probe(key, i')], key)
      {
        assert probe(key, i') != p;
      }
      FirstFitIs(once, probe, key, capacity, i);
    case None =>
  }

  /** `FirstFit` is determined by its contract: a fitting step with no
      fitting step before it is the first fit. */
  lemma {:induction false} FirstFitIs(slots: seq<Option<int32>>, probe: (int32, int32) -> int32, key: int32, capacity: int32, i: int32)
    requires ProbesInRange(|slots|, probe, key, capacity)
    requires 0 <= i < capacity && Fits(slots[probe(key, i)], key)
    requires forall i': int32 :: 0 <= i' < i ==> !Fits(slots[probe(key, i')], key)
    ensures FirstFit(slots, probe, key, capacity, 0) == Some(i)
  {
  }

  // ---------------------------------------------------------------------
  // Brent's method
  // ---------------------------------------------------------------------

  /** The state of Brent's loop: the table, the key in hand, the slot j it is
      looking at and the iteration count i. */
  datatype BrentState = BrentState(slots: seq<Option<int32>>, key: int32, j: int, i: int)

  /** What every state of Brent's loop satisfies: the table has `capacity`
      slots, j is one of them, and all keys, stored or in hand, are
      non-negative so every secondary step is 1..5. */
  ghost predicate BrentInvariant(st: BrentState, capacity: int32) {
    |st.slots| == capacity as int && 0 <= st.j < capacity as int && 0 <= st.i <= capacity as int && st.key >= 0 &&
    forall p :: 0 <= p < |st.slots| && st.slots[p].Some? ==> st.slots[p].value >= 0
  }

  /** Whether Brent's loop runs another iteration: iterations remain and
      the slot is occupied. */
  ghost predicate BrentContinues(st: BrentState, capacity: int32)
    requires BrentInvariant(st, capacity)
  {
    st.i < capacity as int && st.slots[st.j].Some?
  }

  /** One iteration of Brent's loop at an occupied slot: the new key moves
      one secondary step on, unless its next slot is occupied and the
      occupant's next slot is free; then the new key takes the slot and the
      occupant is carried on from its own next slot instead. */
  ghost function BrentStep(st: BrentState, capacity: int32): (r: BrentState)
    requires BrentInvariant(st, capacity) && BrentContinues(st, capacity)
    ensures BrentInvariant(r, capacity) && r.i == st.i + 1
  {
    var existingKey := st.slots[st.j].value;
    var nextPosNew := (st.j + SecondaryStep(st.key)) % capacity as int;
    var nextPosExisting := (st.j + SecondaryStep(existingKey)) % capacity as int;
    if st.slots[nextPosNew].None? || st.slots[nextPosExisting].Some? then
      st.(j := nextPosNew, i := st.i + 1)
    else
      BrentState(st.slots[st.j := Some(st.key)], existingKey, nextPosExisting, st.i + 1)
  }

  /** Brent's loop: iterate until a free slot or `capacity` iterations. */
  ghost function BrentLoop(st: BrentState, capacity: int32): (r: BrentState)
    requires BrentInvariant(st, capacity)
    ensures BrentInvariant(r, capacity) && !BrentContinues(r, capacity)
    decreases capacity as int - st.i
  {
    if BrentContinues(st, capacity) then BrentLoop(BrentStep(st, capacity), capacity) else st
  }

  /** The table after Brent's insert: the key in hand goes into the free slot
      the loop stopped at, or is dropped when the iterations ran out. */
  ghost function BrentInserted(slots: seq<Option<int32>>, key: int32, capacity: int32): seq<Option<int32>>
    requires capacity > 0 && |slots| == capacity as int && key >= 0
    requires forall p :: 0 <= p < |slots| && slots[p].Some? ==> slots[p].value >= 0
  {
    var st := BrentLoop(BrentState(slots, key, key as int % capacity as int, 0), capacity);
    if st.i < capacity as int then st.slots[st.j := Some(st.key)] else st.slots
  }

  /** Brent's insert, in place. The table has `capacity` slots and holds
      non-negative keys only, as the key does (a negative key would give a
      negative slot); `capacity + 5` must not wrap around. */
  method InsertBrentOptimized(table: array<Option<int32>>, key: int32, capacity: int32)
    requires capacity > 0 && table.Length == capacity as int && capacity as int + 5 <= INT_MAX && key >= 0
    requires forall p :: 0 <= p < table.Length && table[p].Some? ==> table[p].value >= 0
    modifies table
    ensures table[..] == BrentInserted(old(table[..]), key, capacity)
  {
    var j := JavaRem(key as int, capacity as int);
    var inHand, i;
    inHand, j, i := BrentRun(table, key, j, 0, capacity);
    if i < capacity as int {
      table[j] := Some(inHand);
    }
  }

  /** Brent's loop on the array, from slot j at iteration i: it ends in the
      state `BrentLoop` describes. */
  method BrentRun(table: array<Option<int32>>, key: int32, j: int, i: int, capacity: int32)
    returns (key': int32, j': int, i': int)
    requires capacity as int + 5 <= INT_MAX
    requires BrentInvariant(BrentState(table[..], key, j, i), capacity)
    modifies table
    ensures BrentState(table[..], key', j', i') == BrentLoop(BrentState(old(table[..]), key, j, i), capacity)
  {
    ghost var start := BrentState(table[..], key, j, i);
    key', j', i' := key, j, i;
    while i' < capacity as int && table[j'].Some?
      invariant BrentInvariant(BrentState(table[..], key', j', i'), capacity)
      invariant BrentLoop(BrentState(table[..], key', j', i'), capacity) == BrentLoop(start, capacity)
      decreases capacity as int - i'
    {
      ghost var st := BrentState(table[..], key', j', i');
      assert BrentLoop(st, capacity) == BrentLoop(BrentStep(st, capacity), capacity);
      key', j' := BrentIteration(table, key', j', i', capacity);
      i' := i' + 1;
    }
  }

  /** One pass of Brent's loop body on the array, at an occupied slot j. */
  method BrentIteration(table: array<Option<int32>>, key: int32, j: int, i: int, capacity: int32)
    returns (key': int32, j': int)
    requires capacity as int + 5 <= INT_MAX
    requires BrentInvariant(BrentState(table[..], key, j, i), capacity)
    requires BrentContinues(BrentState(table[..], key, j, i), capacity)
    modifies table
    ensures BrentState(table[..], key', j', i + 1) == BrentStep(BrentState(old(table[..]), key, j, i), capacity)
  {
    ghost var st := BrentState(table[..], key, j, i);
    var existingKey := table[j].value;
    var stepNew := SecondaryStep(key);
    var nextPosNew := JavaRem(j + stepNew, capacity as int);
    var stepExisting := SecondaryStep(existingKey);
    var nextPosExisting := JavaRem(j + stepExisting, capacity as int);
    assert nextPosNew == (j + SecondaryStep(key)) % capacity as int;
    assert nextPosExisting == (j + SecondaryStep(existingKey)) % capacity as int;
    if table[nextPosNew].None? || table[nextPosExisting].Some? {
      key', j' := key, nextPosNew;
      assert BrentStep(st, capacity) == BrentState(st.slots, key, nextPosNew, i + 1);
    } else {
      assert BrentStep(st, capacity) == BrentState(st.slots[j := Some(key)], existingKey, nextPosExisting, i + 1);
      table[j] := Some(key);
      key', j' := existingKey, nextPosExisting;
    }
  }

  /** The keys of one slot, as a multiset. */
  ghost function SlotKeys(o: Option<int32>): multiset<int32> {
    if o.Some? then multiset{o.value} else multiset{}
  }

  /** The keys stored in a slot table, as a multiset. */
  ghost function Stored(slots: seq<Option<int32>>): multiset<int32> {
    if slots == [] then multiset{} else Stored(slots[..|slots| - 1]) + SlotKeys(slots[|slots| - 1])
  }

  /** Overwriting one slot changes the stored keys by exactly that slot. */
  lemma {:induction false} StoredUpdate(slots: seq<Option<int32>>, p: nat, o: Option<int32>)
    requires p < |slots|
    ensures Stored(slots[p := o]) + SlotKeys(slots[p]) == Stored(slots) + SlotKeys(o)
    decreases |slots|
  {
    var n := |slots| - 1;
    if p < n {
      StoredUpdate(slots[..n], p, o);
      assert slots[p := o][..n] == slots[..n][p := o];
      assert slots[p := o][n] == slots[n];
      assert slots[..n][p] == slots[p];
      calc {
        Stored(slots[p := o]) + SlotKeys(slots[p]);
        Stored(slots[..n][p := o]) + SlotKeys(slots[n]) + SlotKeys(slots[..n][p]);
        Stored(slots[..n]) + SlotKeys(o) + SlotKeys(slots[n]);
        Stored(slots) + SlotKeys(o);
      }
    } else {
      var rest := Stored(slots[..n]);
      assert slots[p := o][..n] == slots[..n];
      assert Stored(slots[p := o]) == rest + SlotKeys(o);
      assert Stored(slots) == rest + SlotKeys(slots[p]);
    }
  }

  /** The generic insert adds the key to the stored keys exactly when it
      lands in a free slot; overwriting the same key, or finding no fitting
      probe, leaves the stored keys as they were. */
  lemma InsertKeys(slots: seq<Option<int32>>, probe: (int32, int32) -> int32, key: int32, capacity: int32)
    requires ProbesInRange(|slots|, probe, key, capacity)
    ensures |Inserted(slots, probe, key, capacity)| == |slots|
    ensures var f := FirstFit(slots, probe, key, capacity, 0);
      if f.None? then Inserted(slots, probe, key, capacity) == slots
      else if slots[probe(key, f.value)].None? then Stored(Inserted(slots, probe, key, capacity)) == Stored(slots) + multiset{key}
      else Stored(Inserted(slots, probe, key, capacity)) == Stored(slots)
  {
    var f := FirstFit(slots, probe, key, capacity, 0);
    if f.Some? {
      var p := probe(key, f.value) as int;
      var after := slots[p := Some(key)];
      assert Inserted(slots, probe, key, capacity) == after;
      StoredUpdate(slots, p, Some(key));
      if slots[p].Some? {
        assert slots[p] == Some(key);
        MultisetCancel(Stored(after), Stored(slots), multiset{key});
      } else {
        assert SlotKeys(slots[p]) == multiset{};
      }
    }
  }

  /** A step of Brent's loop keeps the keys, stored or in hand: a swap puts
      the key in hand into the table and takes the occupant in hand. */
  lemma BrentStepKeepsKeys(st: BrentState, capacity: int32)
    requires BrentInvariant(st, capacity) && BrentContinues(st, capacity)
    ensures Stored(BrentStep(st, capacity).slots) + multiset{BrentStep(st, capacity).key} == Stored(st.slots) + multiset{st.key}
  {
    var r := BrentStep(st, capacity);
    if r.slots != st.slots {
      StoredUpdate(st.slots, st.j, Some(st.key));
      assert r.key == st.slots[st.j].value;
    }
  }

  /** The whole loop keeps the keys, stored or in hand. */
  lemma {:induction false} BrentLoopKeepsKeys(st: BrentState, capacity: int32)
    requires BrentInvariant(st, capacity)
    ensures Stored(BrentLoop(st, capacity).slots) + multiset{BrentLoop(st, capacity).key} == Stored(st.slots) + multiset{st.key}
    decreases capacity as int - st.i
  {
    if BrentContinues(st, capacity) {
      BrentStepKeepsKeys(st, capacity);
      BrentLoopKeepsKeys(BrentStep(st, capacity), capacity);
    }
  }

  /** Brent's insert adds exactly the new key when the loop stops at a free
      slot; when the iterations run out, the key left in hand is the only
      one missing. Either way the table keeps its size. */
  lemma BrentInsertKeys(slots: seq<Option<int32>>, key: int32, capacity: int32)
    requires capacity > 0 && |slots| == capacity as int && key >= 0
    requires forall p :: 0 <= p < |slots| && slots[p].Some? ==> slots[p].value >= 0
    ensures |BrentInserted(slots, key, capacity)| == |slots|
    ensures var fin := BrentLoop(BrentState(slots, key, key as int % capacity as int, 0), capacity);
      if fin.i < capacity as int then Stored(BrentInserted(slots, key, capacity)) == Stored(slots) + multiset{key}
      else Stored(BrentInserted(slots, key, capacity)) + multiset{fin.key} == Stored(slots) + multiset{key}
  {
    var st := BrentState(slots, key, key as int % capacity as int, 0);
    var fin := BrentLoop(st, capacity);
    BrentLoopKeepsKeys(st, capacity);
    if fin.i < capacity as int {
      assert fin.slots[fin.j].None?;
      StoredUpdate(fin.slots, fin.j, Some(fin.key));
    }
  }
}
