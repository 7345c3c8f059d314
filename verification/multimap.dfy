/** The alias-aware `MultiMap` of src/multimap.rs.

    Keys resolve to storage slots (`Index`) in one hop through `keys`; values live
    in `data`, keyed by slot only. Each key entry carries a reference count: 0 marks
    an alias, anything else a canonical key. A monotone counter `uniqueKeys`
    supplies the slot of the next `Insert`.

    Every `&mut self` operation is a pure function returning the new map together
    with what the Rust method returns. */
module MultiMaps {
  import opened Wrappers

  /** The handle of one storage slot (`usize` in the source, unbounded here). */
  datatype Index = Index(raw: nat)

  /** What a key maps to: its slot and a reference count (0 = alias). */
  datatype Entry = Entry(idx: Index, refs: nat)

  datatype MultiMap<K(==, !new), V> = MultiMap(keys: map<K, Entry>, data: map<Index, V>, uniqueKeys: nat)

  /* ---------------------------------------------------------------------------
     Queries
     --------------------------------------------------------------------------- */

  /** `is_key`: the key is present with a non-zero count. */
  predicate IsKey<K(==, !new), V>(m: MultiMap<K, V>, k: K)
  {
    k in m.keys && m.keys[k].refs != 0
  }

  /** `is_alias`: the key is present with a count of zero. */
  predicate IsAlias<K(==, !new), V>(m: MultiMap<K, V>, k: K)
  {
    k in m.keys && m.keys[k].refs == 0
  }

  /** `next_index`: the slot the next `Insert` will use. */
  function NextIndex<K(==, !new), V>(m: MultiMap<K, V>): Index
  {
    Index(m.uniqueKeys)
  }

  /** `data_get`: the value stored in a slot, if any. */
  function DataGet<K(==, !new), V>(m: MultiMap<K, V>, i: Index): Option<V>
  {
    if i in m.data then Some(m.data[i]) else None
  }

  /** `keys_get`: the slot a key (canonical or alias) resolves to. */
  function KeysGet<K(==, !new), V>(m: MultiMap<K, V>, k: K): (r: Option<Index>)
    ensures r.Some? <==> IsKey(m, k) || IsAlias(m, k)
    ensures r.Some? ==> r.value == m.keys[k].idx
  {
    if k in m.keys then Some(m.keys[k].idx) else None
  }

  /** `get` (and `get_mut`): one-hop resolution key -> slot -> value. A key whose
      slot holds no value yields nothing, exactly like an unknown key. */
  function Get<K(==, !new), V>(m: MultiMap<K, V>, k: K): (r: Option<V>)
    ensures r.Some? <==> KeysGet(m, k).Some? && KeysGet(m, k).value in m.data
    ensures r.Some? ==> r == DataGet(m, KeysGet(m, k).value)
  {
    if k in m.keys && m.keys[k].idx in m.data then Some(m.data[m.keys[k].idx]) else None
  }

  /** `is_alias_of`: `other` is an alias of the canonical key `base`. The source
      unwraps both lookups, so both keys must be present. */
  predicate IsAliasOf<K(==, !new), V>(m: MultiMap<K, V>, base: K, other: K)
    requires base in m.keys && other in m.keys
  {
    IsKey(m, base) && IsAlias(m, other) && m.keys[base].idx == m.keys[other].idx
  }

  /** `len`: the number of key entries plus the number of stored values. */
  function Len<K(==, !new), V>(m: MultiMap<K, V>): nat
  {
    |m.keys| + |m.data|
  }

  /** `order`: the source marks every slot of `data` in a scratch map and counts
      the marked entries. */
  function Order<K(==, !new), V>(m: MultiMap<K, V>): nat
  {
    var marked := map i | i in m.data :: true;
    |set i | i in marked && marked[i]|
  }

  /* ---------------------------------------------------------------------------
     Construction
     --------------------------------------------------------------------------- */

  /** `with_capacity`: the capacity is only a sizing hint of the hash tables. */
  function WithCapacity<K(==, !new), V>(capacity: nat): (m: MultiMap<K, V>)
    ensures forall k :: !IsKey(m, k) && !IsAlias(m, k) && Get(m, k) == None
    ensures NextIndex(m) == Index(0) && Len(m) == 0
  {
    MultiMap(map[], map[], 0)
  }

  /** `clear`: forgets every key and value and restarts slot numbering. */
  function Clear<K(==, !new), V>(m: MultiMap<K, V>): (r: MultiMap<K, V>)
    ensures forall k :: !IsKey(r, k) && !IsAlias(r, k) && Get(r, k) == None
    ensures NextIndex(r) == Index(0) && Len(r) == 0
  {
    MultiMap(map[], map[], 0)
  }

  /* ---------------------------------------------------------------------------
     Insertion
     --------------------------------------------------------------------------- */

  /** `insert_key`: makes `k` canonical for slot `i` (count 1), replacing any
      previous entry of `k`, and returns the slot `k` had before. The counter is
      advanced even though `i` comes from the caller. */
  function InsertKey<K(==, !new), V>(m: MultiMap<K, V>, k: K, i: Index): (r: (MultiMap<K, V>, Option<Index>))
    ensures IsKey(r.0, k) && r.0.keys[k] == Entry(i, 1)
    ensures r.1 == KeysGet(m, k)
    ensures forall x :: x != k && x in m.keys ==> x in r.0.keys && r.0.keys[x] == m.keys[x]
    ensures r.0.keys.Keys == m.keys.Keys + {k}
    ensures r.0.data == m.data && r.0.uniqueKeys == m.uniqueKeys + 1
  {
    (m.(keys := m.keys[k := Entry(i, 1)], uniqueKeys := m.uniqueKeys + 1), KeysGet(m, k))
  }

  /** `insert`: binds `k` canonically to the slot `NextIndex(m)`, stores `v` there
      and returns whatever that slot held before. */
  function Insert<K(==, !new), V>(m: MultiMap<K, V>, k: K, v: V): (r: (MultiMap<K, V>, Option<V>))
    ensures IsKey(r.0, k) && KeysGet(r.0, k) == Some(NextIndex(m)) && Get(r.0, k) == Some(v)
    ensures r.0.keys[k].refs == 1
    ensures NextIndex(r.0).raw == NextIndex(m).raw + 1
    ensures r.1 == DataGet(m, NextIndex(m))
    ensures forall x :: x != k && x in m.keys ==> x in r.0.keys && r.0.keys[x] == m.keys[x]
    ensures forall i :: i != NextIndex(m) ==> DataGet(r.0, i) == DataGet(m, i)
    ensures r.0.data.Keys == m.data.Keys + {NextIndex(m)}
    ensures r.0.keys.Keys == m.keys.Keys + {k}
  {
    var i := NextIndex(m);
    var m1 := InsertKey(m, k, i).0;
    (m1.(data := m1.data[i := v]), DataGet(m1, i))
  }

  /** `insert_data`: overwrites the value in the slot of `k`, returning the old
      one. The source unwraps the key lookup, so `k` must be present. */
  function InsertData<K(==, !new), V>(m: MultiMap<K, V>, k: K, v: V): (r: (MultiMap<K, V>, Option<V>))
    requires k in m.keys
    ensures Get(r.0, k) == Some(v)
    ensures r.1 == Get(m, k)
    ensures r.0.keys == m.keys && r.0.uniqueKeys == m.uniqueKeys
    ensures forall i :: i != m.keys[k].idx ==> DataGet(r.0, i) == DataGet(m, i)
  {
    var i := m.keys[k].idx;
    (m.(data := m.data[i := v]), DataGet(m, i))
  }

  /* ---------------------------------------------------------------------------
     Removal
     --------------------------------------------------------------------------- */

  /** `remove_key`: deletes a canonical key's entry only; aliases and unknown
      keys are refused. */
  function RemoveKey<K(==, !new), V>(m: MultiMap<K, V>, k: K): (r: (MultiMap<K, V>, Option<Entry>))
    ensures r.1.Some? <==> IsKey(m, k)
    ensures IsKey(m, k) ==> r.1.value == m.keys[k] && r.0.keys.Keys == m.keys.Keys - {k}
    ensures !IsKey(m, k) ==> r.0 == m
    ensures forall x :: x != k && x in m.keys ==> x in r.0.keys && r.0.keys[x] == m.keys[x]
    ensures r.0.data == m.data && r.0.uniqueKeys == m.uniqueKeys
  {
    if IsKey(m, k) then (m.(keys := m.keys - {k}), Some(m.keys[k])) else (m, None)
  }

  /** `remove`: the cascading delete. A canonical key loses its entry AND its
      slot's value, which is returned; for an alias or an unknown key nothing
      changes. */
  function Remove<K(==, !new), V>(m: MultiMap<K, V>, k: K): (r: (MultiMap<K, V>, Option<V>))
    ensures IsKey(m, k) ==>
      && r.0.keys.Keys == m.keys.Keys - {k}
      && r.1 == Get(m, k)
      && r.0.data.Keys == m.data.Keys - {m.keys[k].idx}
      && (forall i :: i != m.keys[k].idx ==> DataGet(r.0, i) == DataGet(m, i))
      && (forall x :: x != k && x in m.keys ==> x in r.0.keys && r.0.keys[x] == m.keys[x])
    ensures !IsKey(m, k) ==> r == (m, None)
    ensures r.0.uniqueKeys == m.uniqueKeys
  {
    match RemoveKey(m, k)
    case (m1, None) => (m1, None)
    case (m1, Some(e)) => (m1.(data := m1.data - {e.idx}), DataGet(m1, e.idx))
  }

  /** `remove_alias`: the non-cascading delete; only an alias entry goes, the
      storage is never touched. */
  function RemoveAlias<K(==, !new), V>(m: MultiMap<K, V>, k: K): (r: MultiMap<K, V>)
    ensures IsAlias(m, k) ==> r.keys.Keys == m.keys.Keys - {k}
    ensures !IsAlias(m, k) ==> r == m
    ensures forall x :: x != k && x in m.keys ==> x in r.keys && r.keys[x] == m.keys[x]
    ensures r.data == m.data && r.uniqueKeys == m.uniqueKeys
  {
    if IsAlias(m, k) then m.(keys := m.keys - {k}) else m
  }

  /** `drop_key`: removes an entry whatever its kind, leaving the storage alone. */
  function DropKey<K(==, !new), V>(m: MultiMap<K, V>, k: K): (r: (MultiMap<K, V>, Option<Entry>))
    ensures r.1.Some? <==> IsKey(m, k) || IsAlias(m, k)
    ensures r.1.Some? ==> r.1.value == m.keys[k]
    ensures r.0.keys.Keys == m.keys.Keys - {k}
    ensures forall x :: x != k && x in m.keys ==> x in r.0.keys && r.0.keys[x] == m.keys[x]
    ensures r.0.data == m.data && r.0.uniqueKeys == m.uniqueKeys
  {
    if k in m.keys then (m.(keys := m.keys - {k}), Some(m.keys[k])) else (m, None)
  }

  /* ---------------------------------------------------------------------------
     Renaming and aliasing
     --------------------------------------------------------------------------- */

  /** `replace_key`: a canonical `old` hands its entry to `new` and disappears;
      the entry `new` had before is returned. Anything else is refused. */
  function ReplaceKey<K(==, !new), V>(m: MultiMap<K, V>, oldKey: K, newKey: K): (r: (MultiMap<K, V>, Option<Entry>))
    ensures IsKey(m, oldKey) ==>
      && newKey in r.0.keys && r.0.keys[newKey] == m.keys[oldKey]
      && r.0.keys.Keys == m.keys.Keys - {oldKey} + {newKey}
      && r.1 == (if newKey != oldKey && newKey in m.keys then Some(m.keys[newKey]) else None)
      && (forall x :: x != oldKey && x != newKey && x in m.keys ==> x in r.0.keys && r.0.keys[x] == m.keys[x])
    ensures !IsKey(m, oldKey) ==> r == (m, None)
    ensures r.0.data == m.data && r.0.uniqueKeys == m.uniqueKeys
  {
    if IsKey(m, oldKey) then
      var moved := m.keys[oldKey];
      var rest := m.keys - {oldKey};
      (m.(keys := rest[newKey := moved]), if newKey in rest then Some(rest[newKey]) else None)
    else
      (m, None)
  }

  /** `alias`: when `base` is not an alias, raises its count by one and binds `a`
      with count 0 to the same slot, returning the slot `a` had before. When
      `base` is an alias nothing changes, so an alias never points at an alias.
      The source unwraps the lookup of `base`, so it must be present. */
  function Alias<K(==, !new), V>(m: MultiMap<K, V>, base: K, a: K): (r: (MultiMap<K, V>, Option<Index>))
    requires base in m.keys
    ensures IsAlias(m, base) ==> r == (m, None)
    ensures IsKey(m, base) ==>
      && a in r.0.keys && base in r.0.keys
      && r.0.keys[a] == Entry(m.keys[base].idx, 0)
      && (a != base ==> r.0.keys[base] == Entry(m.keys[base].idx, m.keys[base].refs + 1))
      && Get(r.0, a) == Get(m, base)
      && r.1 == KeysGet(m, a)
      && r.0.keys.Keys == m.keys.Keys + {a}
      && (forall x :: x != a && x != base && x in m.keys ==> x in r.0.keys && r.0.keys[x] == m.keys[x])
    ensures r.0.data == m.data && r.0.uniqueKeys == m.uniqueKeys
  {
    if !IsAlias(m, base) then
      var e := m.keys[base];
      var bumped := m.keys[base := Entry(e.idx, e.refs + 1)];
      (m.(keys := bumped[a := Entry(e.idx, 0)]), if a in bumped then Some(bumped[a].idx) else None)
    else
      (m, None)
  }

  /** `unalias`: for a canonical `base`, removes every OTHER key resolving to its
      slot (aliases and duplicate canonical claims alike) and returns them; keys
      of other slots and all of `data` stay. On a non-canonical or unknown key
      nothing happens. The source returns the removed keys in hash-table order;
      the set of them is what is fixed. */
  function Unalias<K(==, !new), V>(m: MultiMap<K, V>, base: K): (r: (MultiMap<K, V>, set<K>))
    ensures !IsKey(m, base) ==> r == (m, {})
    ensures IsKey(m, base) ==>
      && base in r.0.keys && r.0.keys[base] == m.keys[base]
      && (forall x :: x in r.1 <==> x in m.keys && x != base && m.keys[x].idx == m.keys[base].idx)
      && (forall x :: x in r.0.keys <==> x in m.keys && x !in r.1)
      && (forall x :: x in r.0.keys ==> r.0.keys[x] == m.keys[x])
      && (forall x :: x in r.0.keys && x != base ==> r.0.keys[x].idx != m.keys[base].idx)
    ensures r.0.data == m.data && r.0.uniqueKeys == m.uniqueKeys
  {
    if !IsKey(m, base) then
      (m, {})
    else
      var idx := m.keys[base].idx;
      var kept := map x | x in m.keys && (m.keys[x].idx != idx || x == base) :: m.keys[x];
      var removed := set x | x in m.keys && m.keys[x].idx == idx && x != base;
      (m.(keys := kept), removed)
  }

  /** The linear scan `unalias` performs, one key at a time: every key is either
      kept or collected into the returned list. The list holds each removed key
      once, in an order the model leaves open, as the source's hash order does. */
  method UnaliasScan<K(==, !new), V>(m: MultiMap<K, V>, base: K) returns (r: MultiMap<K, V>, removed: seq<K>)
    ensures r == Unalias(m, base).0
    ensures forall x :: x in removed <==> x in Unalias(m, base).1
    ensures forall i, j :: 0 <= i < j < |removed| ==> removed[i] != removed[j]
  {
    if !IsKey(m, base) {
      return m, [];
    }
    var idx := m.keys[base].idx;
    var todo := m.keys.Keys;
    var kept: map<K, Entry> := map[];
    removed := [];
    while todo != {}
      invariant todo <= m.keys.Keys
      invariant forall x :: x in kept <==> x in m.keys && x !in todo && (m.keys[x].idx != idx || x == base)
      invariant forall x :: x in kept ==> kept[x] == m.keys[x]
      invariant forall x :: x in removed <==> x in m.keys && x !in todo && m.keys[x].idx == idx && x != base
      invariant forall i, j :: 0 <= i < j < |removed| ==> removed[i] != removed[j]
      decreases todo
    {
      var x :| x in todo;
      if m.keys[x].idx == idx && x != base {
        removed := removed + [x];
      } else {
        kept := kept[x := m.keys[x]];
      }
      todo := todo - {x};
    }
    r := m.(keys := kept);
    assert kept == Unalias(m, base).0.keys;
  }

  /* ---------------------------------------------------------------------------
     Properties
     --------------------------------------------------------------------------- */

  /** A key is canonical, an alias, or unknown: never two of these. */
  lemma KeyAliasExclusive<K(!new), V>(m: MultiMap<K, V>, k: K)
    ensures !(IsKey(m, k) && IsAlias(m, k))
    ensures !IsKey(m, k) && !IsAlias(m, k) <==> k !in m.keys
  {
  }

  /** `order` counts exactly the occupied slots. */
  lemma {:induction false} OrderCountsSlots<K(!new), V>(m: MultiMap<K, V>)
    ensures Order(m) == |m.data|
  {
    var marked := map i | i in m.data :: true;
    assert (set i | i in marked && marked[i]) == m.data.Keys;
  }

  /** `with_capacity` and `clear` produce the same empty map. */
  lemma ClearIsFresh<K(!new), V>(m: MultiMap<K, V>, capacity: nat)
    ensures Clear(m) == WithCapacity(capacity)
  {
  }

  /** Aliasing a canonical key under a new name makes that name an alias of it. */
  lemma AliasMakesAliasOf<K(!new), V>(m: MultiMap<K, V>, base: K, a: K)
    requires IsKey(m, base) && a != base
    ensures var r := Alias(m, base, a).0;
      base in r.keys && a in r.keys && IsAliasOf(r, base, a) && IsKey(r, base)
  {
  }

  /** No alias chain can form: an alias request through an alias is refused and
      leaves the map as it was; through a canonical key, the new alias resolves
      to the canonical key's slot directly. */
  lemma NoAliasChains<K(!new), V>(m: MultiMap<K, V>, base: K, a: K)
    requires base in m.keys
    ensures IsAlias(m, base) ==> Alias(m, base, a) == (m, None)
    ensures IsKey(m, base) ==> KeysGet(Alias(m, base, a).0, a) == KeysGet(m, base)
  {
  }

  /** Aliasing a canonical key to itself demotes it: the count is bumped and then
      overwritten with 0, so the key becomes an alias of its own slot and a
      later `remove` of it is refused. */
  lemma SelfAliasDemotes<K(!new), V>(m: MultiMap<K, V>, k: K)
    requires IsKey(m, k)
    ensures var r := Alias(m, k, k);
      IsAlias(r.0, k) && !IsKey(r.0, k) && r.1 == KeysGet(m, k)
      && Remove(r.0, k) == (r.0, None)
  {
  }

  /** After the cascading `remove` of a canonical key, its former aliases stay in
      the key table but resolve to nothing: their slot has no value any more. */
  lemma RemoveLeavesAliasesDangling<K(!new), V>(m: MultiMap<K, V>, base: K, a: K)
    requires IsKey(m, base) && a in m.keys && a != base && m.keys[a].idx == m.keys[base].idx
    ensures var r := Remove(m, base).0;
      a in r.keys && r.keys[a] == m.keys[a] && Get(r, a) == None
  {
  }

  /** The two removal forms are disjoint: `remove` refuses aliases and
      `remove_alias` refuses canonical keys. */
  lemma RemovalFormsDisjoint<K(!new), V>(m: MultiMap<K, V>, k: K)
    ensures IsAlias(m, k) ==> Remove(m, k) == (m, None) && Get(RemoveAlias(m, k), k) == None
    ensures IsKey(m, k) ==> RemoveAlias(m, k) == m
    ensures IsAlias(m, k) ==> forall x :: x != k ==> Get(RemoveAlias(m, k), x) == Get(m, x)
  {
  }

  /** Aliasing `base` as `a` and as `b` and then unaliasing `base` removes
      exactly `{a, b}` when no other key shared the slot, and leaves `base`
      canonical and resolving to the same slot and value. */
  lemma {:induction false} AliasTwiceThenUnalias<K(!new), V>(m: MultiMap<K, V>, base: K, a: K, b: K)
    requires IsKey(m, base)
    requires a != base && b != base && a != b
    requires forall x :: x in m.keys && m.keys[x].idx == m.keys[base].idx ==> x == base
    ensures var m1 := Alias(m, base, a).0;
      var m2 := Alias(m1, base, b).0;
      var r := Unalias(m2, base);
      r.1 == {a, b} && IsKey(r.0, base)
      && KeysGet(r.0, base) == KeysGet(m, base) && Get(r.0, base) == Get(m, base)
  {
    var idx := m.keys[base].idx;
    var m1 := Alias(m, base, a).0;
    assert IsKey(m1, base) && m1.keys[base].idx == idx && m1.keys[a].idx == idx;
    assert forall x :: x in m1.keys && m1.keys[x].idx == idx ==> x == base || x == a by {
      forall x | x in m1.keys && x != base && x != a
        ensures m1.keys[x].idx != idx
      {
        assert KeysGet(m1, x) == KeysGet(m, x);
      }
    }
    var m2 := Alias(m1, base, b).0;
    assert IsKey(m2, base) && m2.keys[base].idx == idx;
    assert m2.keys[a].idx == idx && m2.keys[b].idx == idx;
    assert forall x :: x in m2.keys && m2.keys[x].idx == idx ==> x == base || x == a || x == b by {
      forall x | x in m2.keys && x != base && x != a && x != b
        ensures m2.keys[x].idx != idx
      {
        assert KeysGet(m2, x) == KeysGet(m1, x);
      }
    }
    var r := Unalias(m2, base);
    assert a in r.1 && b in r.1;
    assert r.1 == {a, b};
  }

  /** Counterexample to "one canonical key per slot": `insert_key` with a slot
      taken from another key creates a second canonical claim on it. */
  lemma InsertKeyCanDuplicateCanonical()
    ensures var m0 := Insert(WithCapacity<int, int>(0), 1, 10).0;
      var m1 := InsertKey(m0, 2, Index(0)).0;
      IsKey(m1, 1) && IsKey(m1, 2) && KeysGet(m1, 1) == KeysGet(m1, 2)
  {
  }

  /* ---------------------------------------------------------------------------
     The freshness invariant: every slot in use lies below the counter
     --------------------------------------------------------------------------- */

  /** Every slot a key points at and every occupied slot lies below the counter,
      so `NextIndex` names a slot nobody uses yet. */
  ghost predicate Bounded<K(!new), V>(m: MultiMap<K, V>)
  {
    && (forall k :: k in m.keys ==> m.keys[k].idx.raw < m.uniqueKeys)
    && (forall i :: i in m.data ==> i.raw < m.uniqueKeys)
  }

  /** Inserting into a bounded map lands in an unused slot: nothing is
      overwritten, no other key changes what it resolves to, and the map stays
      bounded. */
  lemma InsertIntoBoundedIsFresh<K(!new), V>(m: MultiMap<K, V>, k: K, v: V)
    requires Bounded(m)
    ensures var r := Insert(m, k, v);
      r.1 == None && Bounded(r.0)
      && forall x :: x != k ==> Get(r.0, x) == Get(m, x)
  {
    var r := Insert(m, k, v);
    forall x | x != k
      ensures Get(r.0, x) == Get(m, x)
    {
      if x in m.keys {
        assert m.keys[x].idx != NextIndex(m);
      }
    }
  }

  /** `len` of a bounded map grows by two when a new key is inserted (one key
      entry, one value) and by one when an existing key is rebound. */
  lemma InsertGrowsLen<K(!new), V>(m: MultiMap<K, V>, k: K, v: V)
    requires Bounded(m)
    ensures Len(Insert(m, k, v).0) == Len(m) + (if k in m.keys then 1 else 2)
  {
    assert NextIndex(m) !in m.data;
  }

  /** Inserting keeps the map bounded, `insert_key` only when the slot it is
      given is at most the counter (the counter moves up by one). */
  lemma InsertionKeepsBounded<K(!new), V>(m: MultiMap<K, V>, k: K, i: Index, v: V)
    requires Bounded(m)
    ensures i.raw <= m.uniqueKeys ==> Bounded(InsertKey(m, k, i).0)
    ensures k in m.keys ==> Bounded(InsertData(m, k, v).0)
    ensures Bounded(Clear(m))
  {
  }

  /** Aliasing, unaliasing and renaming keep the map bounded. */
  lemma AliasingKeepsBounded<K(!new), V>(m: MultiMap<K, V>, k: K, k2: K)
    requires Bounded(m)
    ensures k in m.keys ==> Bounded(Alias(m, k, k2).0)
    ensures Bounded(Unalias(m, k).0)
    ensures Bounded(ReplaceKey(m, k, k2).0)
  {
  }

  /** Every form of removal keeps the map bounded. */
  lemma RemovalKeepsBounded<K(!new), V>(m: MultiMap<K, V>, k: K)
    requires Bounded(m)
    ensures Bounded(Remove(m, k).0) && Bounded(RemoveKey(m, k).0)
    ensures Bounded(RemoveAlias(m, k)) && Bounded(DropKey(m, k).0)
  {
  }

}
