# MUIZ registry core in Dafny

This project models the sequential core of MUIZ, a small Rust UI toolkit built on
raylib, and proves properties of that model.

- **`MultiMap`** (`multimap.dfy`, module `MultiMaps`). This is an alias-aware map.
  `keys` maps each key to an `(Index, refcount)` entry. A count of 0 marks an
  alias; any other count marks a canonical key. `data` maps each `Index` to a value,
  and a counter supplies the slot of the next `insert`. The module models `insert`,
  `insert_key`, `insert_data`, `get`, `keys_get`, `remove`, `remove_key`,
  `remove_alias`, `drop_key`, `replace_key`, `alias`, `unalias`, `is_key`,
  `is_alias`, `is_alias_of`, `len`, `order`, `with_capacity` and `clear`. Each
  `&mut self` method becomes a pure function that returns the new map together with
  the method's return value.
- **`UI`** (`ui.dfy`, module `Ui`). This is the widget registry: the index allocator
  (`next_index`, `try_next_index`), the last-write-wins tag table, the widget store,
  the ordered `drawables` sequence, the capability-filtered lookups and traversals,
  and `UIBuilder`.
- **Widgets and events** (`widgets.dfy`, module `Widgets`, for `src/widgets/mod.rs`;
  `events.dfy`, module `Events`, for `src/events.rs`). These cover the event kinds and
  their ranking, `WidgetEvent` equality and ordering, the frame-event constructors,
  capability queries, and the visibility gate of `render`. A widget is modelled as an
  id, the set of `try_as_*` queries it overrides (its capabilities), and a `visible`
  flag.
- `wrappers.dfy` holds `Option`. `orderings.dfy` holds Rust's `Ordering` and the
  `u8` comparison that both `cmp` implementations use.

Panics through `unwrap` become preconditions:
- `alias` needs `base` present;
- `insert_data` needs its key present;
- `is_alias_of` needs both keys present;
- `for_each_*` needs every listed index to hold a widget that offers the capability.

The panic of `UIBuilder::capacity` is a configuration error. It is modelled as a
`None` result.

Facts about the code that a reader might not expect:
- **One canonical key per slot is not enforced.** `insert_key` accepts a slot that
  another key already owns (`MultiMaps.InsertKeyCanDuplicateCanonical`). `alias(k, k)`
  turns the canonical `k` into an alias of its own slot, after which `remove(k)` is
  refused (`MultiMaps.SelfAliasDemotes`). Removing a canonical key leaves its aliases
  in place, resolving to nothing (`MultiMaps.RemoveLeavesAliasesDangling`).
- **`alias` panics when `base` is absent.** An absent key is not an alias, so the
  call reaches the `unwrap` at src/multimap.rs:198. The model makes `base` present a
  precondition.
- **`register_as_drawable` does not check the capability.** It never asks the widget
  whether it answers `try_as_drawable`. A widget that does not answer breaks the
  listing that `for_each_drawables` later unwraps (`Ui.RegisterAsDrawableKeepsValid`).
- **The capacity check is order-dependent.** It compares only against the counts
  configured before it (`Ui.CapacityNotRechecked`).
- **The two event files disagree.** `src/events.rs` has CUSTOM and no draw phases,
  and its equality ignores the payload. `src/widgets/mod.rs` has PREDRAW and POSTDRAW
  and no CUSTOM, and its equality includes the payload while its ordering does not
  (`Widgets.EqOrdInconsistent`).

## Model

| member | source | states |
|---|---|---|
| `Orderings.CmpNat` | src/events.rs:32-35 | comparing two discriminants gives `Less`, `Equal` or `Greater` exactly as the first is below, equal to or above the second |
| `Orderings.CmpNatAntisymmetric` | src/widgets/mod.rs:54-58 | swapping the two discriminants reverses the ordering |
| `MultiMaps.KeysGet` | src/multimap.rs:58-60 | a key resolves to a slot exactly when it is canonical or an alias, and the slot is the one stored in its entry |
| `MultiMaps.Get` | src/multimap.rs:50-52 | one-hop resolution: a value comes back exactly when the key resolves to a slot that holds one, and it is that slot's value |
| `MultiMaps.WithCapacity` | src/multimap.rs:24-30 | a new map has no canonical key, no alias and no value for any key, length 0, and next slot 0 |
| `MultiMaps.Clear` | src/multimap.rs:32-36 | after `clear`, no key is canonical or an alias or has a value, the length is 0, and slot numbering restarts at 0 |
| `MultiMaps.ClearIsFresh` | src/multimap.rs:24-36 | `clear` yields the same map as `with_capacity`, whatever the capacity |
| `MultiMaps.InsertKey` | src/multimap.rs:76-79 | the key becomes canonical for the given slot with count 1; its previous slot is returned; every other key keeps its entry, slot and count alike; `data` is untouched; the counter goes up by one |
| `MultiMaps.Insert` | src/multimap.rs:70-74 | the key becomes canonical (count 1) for the old next slot and `get` on it yields the value; the counter advances by exactly one; the slot's previous value is returned; every other key keeps its entry, slot and count alike, and no other slot changes |
| `MultiMaps.InsertData` | src/multimap.rs:81-84 | the key's slot now holds the new value, and the value `get` gave before is returned; keys and other slots are unchanged |
| `MultiMaps.RemoveKey` | src/multimap.rs:91-97 | an entry is returned and removed exactly when the key is canonical, every other key keeping its entry; otherwise the map is unchanged; `data` is never touched |
| `MultiMaps.Remove` | src/multimap.rs:86-89 | for a canonical key, both the key and its slot's value go and that value is returned, every other key keeping its entry and every other slot its value; an alias or unknown key leaves everything unchanged and yields nothing |
| `MultiMaps.RemoveAlias` | src/multimap.rs:99-103 | only an alias entry is removed, every other key keeping its entry; a canonical or unknown key leaves the map unchanged; `data` is never touched |
| `MultiMaps.DropKey` | src/multimap.rs:109-112 | removes the entry of a key of either kind and returns it; every other key keeps its entry; `data` is untouched |
| `MultiMaps.RemovalFormsDisjoint` | src/multimap.rs:86-103 | `remove` refuses aliases and `remove_alias` refuses canonical keys; dropping an alias changes what no other key resolves to |
| `MultiMaps.RemoveLeavesAliasesDangling` | src/multimap.rs:86-89 | after `remove` of a canonical key, its aliases keep their entries but `get` on them yields nothing |
| `MultiMaps.ReplaceKey` | src/multimap.rs:187-194 | a canonical old key hands its entry to the new key and disappears, and the new key's previous entry is returned (none when the two keys coincide); every other key keeps its entry; otherwise nothing changes |
| `MultiMaps.Alias` | src/multimap.rs:196-205 | through a canonical base, binds the alias to base's slot with count 0, raises base's count by one, makes `get` of the alias equal `get` of base, and returns the alias's previous slot, every other key keeping its entry; through an alias base, returns nothing and changes nothing |
| `MultiMaps.NoAliasChains` | src/multimap.rs:196-205 | aliasing through an alias leaves the map unchanged; aliasing through a canonical key makes the alias resolve directly to that key's slot |
| `MultiMaps.AliasMakesAliasOf` | src/multimap.rs:244-249 | after aliasing a canonical key under a new name, `is_alias_of(base, alias)` holds and base stays canonical |
| `MultiMaps.SelfAliasDemotes` | src/multimap.rs:196-205 | aliasing a canonical key to itself leaves it an alias of its own slot, and a later `remove` of it is refused |
| `MultiMaps.Unalias` | src/multimap.rs:207-226 | for a canonical base, returns exactly the other keys on base's slot and removes them; base keeps its entry; keys of other slots and all of `data` stay; for any other key, returns nothing and changes nothing |
| `MultiMaps.UnaliasScan` | src/multimap.rs:215-225 | the key-by-key linear scan produces the same map as `Unalias`, plus a list holding each removed key exactly once |
| `MultiMaps.AliasTwiceThenUnalias` | src/multimap.rs:196-226 | `alias(base, a)`, `alias(base, b)`, `unalias(base)` removes exactly `{a, b}`; base stays canonical, with the same slot and value |
| `MultiMaps.KeyAliasExclusive` | src/multimap.rs:228-242 | `is_key` and `is_alias` never both hold, and both fail exactly when the key is absent |
| `MultiMaps.OrderCountsSlots` | src/multimap.rs:251-259 | the marking-and-counting of `order` yields the number of occupied slots |
| `MultiMaps.InsertGrowsLen` | src/multimap.rs:167-169 | in a bounded map, `len` grows by two when `insert` adds a new key and by one when it rebinds an existing key |
| `MultiMaps.InsertKeyCanDuplicateCanonical` | src/multimap.rs:76-79 | `insert_key` with another key's slot creates two canonical keys for one slot |
| `MultiMaps.InsertIntoBoundedIsFresh` | src/multimap.rs:70-74 | when every slot in use is below the counter, `insert` overwrites nothing, keeps that bound, and changes no other key's `get` |
| `MultiMaps.InsertionKeepsBounded` | src/multimap.rs:76-84 | `insert_key` with a slot at most the counter, `insert_data` and `clear` keep every slot in use below the counter |
| `MultiMaps.AliasingKeepsBounded` | src/multimap.rs:187-226 | `alias`, `unalias` and `replace_key` keep every slot in use below the counter |
| `MultiMaps.RemovalKeepsBounded` | src/multimap.rs:86-112 | `remove`, `remove_key`, `remove_alias` and `drop_key` keep every slot in use below the counter |
| `Widgets.Discriminant` | src/widgets/mod.rs:18-29 | each of the seven kinds has a `u8` discriminant below 7 |
| `Widgets.KindsRanked` | src/widgets/mod.rs:18-29 | the ranks are IDLE < LOG < PREDRAW < DRAW < POSTDRAW < CLICK < QUIT, and distinct kinds have distinct ranks |
| `Widgets.PreDrawCall` | src/widgets/mod.rs:35-37 | `predrawcall` builds a PREDRAW event with an empty payload |
| `Widgets.DrawCall` | src/widgets/mod.rs:38-40 | `drawcall` builds a DRAW event with an empty payload |
| `Widgets.PostDrawCall` | src/widgets/mod.rs:41-43 | `postdrawcall` builds a POSTDRAW event with an empty payload |
| `Widgets.DrawPhasesInOrder` | src/widgets/mod.rs:35-43 | the predraw, draw and postdraw events compare strictly in that order |
| `Widgets.EqIsIdentity` | src/widgets/mod.rs:46-50 | two events are equal exactly when both kind and payload agree |
| `Widgets.Cmp` | src/widgets/mod.rs:54-58 | `cmp` returns `Equal` exactly when the kinds agree, and `Less` exactly when the first kind ranks lower; the payload plays no part |
| `Widgets.CmpIsTotalPreorder` | src/widgets/mod.rs:54-58 | `cmp` is reflexive, total and transitive; mutual `<=` forces equal kinds; swapping arguments reverses the result |
| `Widgets.PartialCmp` | src/widgets/mod.rs:60-64 | `partial_cmp` is always `Some` of `cmp` |
| `Widgets.PartialCmpAgrees` | src/widgets/mod.rs:60-64 | `partial_cmp` is never `None` and carries the result of `cmp` |
| `Widgets.EqOrdInconsistent` | src/widgets/mod.rs:46-58 | equal events compare `Equal`, but two DRAW events with different payloads compare `Equal` without being equal |
| `Widgets.TryAs` | src/widgets/mod.rs:102-132 | a `try_as_*` query returns the widget itself exactly when the widget offers that capability |
| `Widgets.DefaultQueriesAnswerNone` | src/widgets/mod.rs:102-132 | a widget that overrides no query answers `None` for every capability |
| `Widgets.Render` | src/widgets/mod.rs:72-76 | `render` adds exactly one draw call, for that widget, when it is visible, and leaves the frame unchanged otherwise |
| `Widgets.RenderAll` | src/widgets/mod.rs:72-76 | rendering widgets in turn only appends to the frame, at most one draw call per widget |
| `Widgets.VisibleIdsSnoc` | src/widgets/mod.rs:72-76 | one more widget adds its draw call exactly when it is visible |
| `Widgets.RenderAllDrawsVisible` | src/widgets/mod.rs:72-76 | rendering a sequence, such as the one `for_each_drawables` shows, appends exactly the draw calls of its visible widgets, in order; hidden widgets are never drawn |
| `Events.Discriminant` | src/events.rs:6-14 | each of the six kinds has a `u8` discriminant below 6 |
| `Events.KindsRanked` | src/events.rs:6-14 | the ranks are IDLE < LOG < DRAW < CLICK < CUSTOM < QUIT, and distinct kinds have distinct ranks |
| `Events.DrawEvent` | src/events.rs:20-21 | `DRAW_EVENT` has kind DRAW and an empty payload |
| `Events.EqIgnoresPayload` | src/events.rs:24-28 | events of one kind are equal whatever their payloads, and equality is reflexive, symmetric and transitive |
| `Events.Cmp` | src/events.rs:32-35 | `cmp` returns `Less` or `Greater` exactly as the first kind ranks below or above the second |
| `Events.CmpIsTotalOrder` | src/events.rs:32-35 | `cmp` is reflexive, total and transitive; it is antisymmetric up to equality; swapping arguments reverses the result |
| `Events.CmpConsistentWithEq` | src/events.rs:24-35 | `cmp` answers `Equal` exactly for equal events |
| `Events.PartialCmp` | src/events.rs:38-42 | `partial_cmp` is always `Some` of `cmp` |
| `Events.PartialCmpAgrees` | src/events.rs:38-42 | `partial_cmp` is never `None` and carries the result of `cmp` |
| `Ui.NextIndex` | src/ui.rs:34-38 | returns the current counter and leaves the registry identical except for the counter, now one higher |
| `Ui.TryNextIndex` | src/ui.rs:40-44 | yields nothing, with the registry unchanged, exactly when incrementing would pass `usize::MAX`; otherwise it agrees with `next_index` |
| `Ui.TagIndex` | src/ui.rs:51-53 | afterwards the tag names the given index; the index it named before is returned; no other tag and nothing else changes |
| `Ui.TagLastWriteWins` | src/ui.rs:51-53 | tagging a name twice returns the first index on the second call and leaves the name on the second index; other names stay as they were |
| `Ui.GetByTag` | src/ui.rs:55-79 | the lookup yields nothing exactly when the tag is unknown, its index holds no widget, or the widget lacks the capability; otherwise it yields that widget |
| `Ui.LookupNarrowsByCapability` | src/ui.rs:65-79 | a live tag on a stored widget still yields nothing for a capability the widget does not offer |
| `Ui.RegisterTagLookup` | src/ui.rs:51-113 | a registered drawable tagged under two names is found by both; retagging one name leaves the other on the widget |
| `Ui.Register` | src/ui.rs:81-85 | stores the widget at the old counter value and returns that index; the counter goes up by one; other widgets, tags, drawables and status are unchanged |
| `Ui.RegisterEachIndicesAscend` | src/ui.rs:81-85 | successive registrations return consecutive, strictly increasing indices, and each holds the widget registered under it |
| `Ui.RegisterEachKeepsEarlier` | src/ui.rs:81-85 | further registrations never change an index below the counter |
| `Ui.RegisterKeepsValid` | src/ui.rs:81-85 | in a valid registry, `register` takes an unused index and keeps the registry valid and every capability listing intact |
| `Ui.RegisterAsDrawable` | src/ui.rs:106-113 | `drawables` becomes the old sequence followed by the new index, and the widget store is exactly as after `register` |
| `Ui.RegisterAsDrawableKeepsValid` | src/ui.rs:106-113 | `register_as_drawable` keeps `drawables` in allocation order, and keeps a capability listed exactly when the new widget offers it |
| `Ui.ForEach` | src/ui.rs:88-120 | the visitor is shown, in `drawables` order, exactly the listed widgets, each offering the capability |
| `Ui.ForEachMut` | src/ui.rs:94-135 | the registry changes only in its store, which becomes `Visit` of the listing (a widget listed twice is rewritten twice) and keeps its indices and the listing; the widgets shown are `Seen` of the listing; unlisted widgets are unchanged; with distinct listed indices, each listed widget is shown as it was and replaced by the visitor's result |
| `Ui.Visit` | src/ui.rs:95-102 | rewriting the listed widgets in turn keeps the store's set of indices |
| `Ui.Seen` | src/ui.rs:95-102 | the visitor is shown one widget per listed index |
| `Ui.SeenAfterEarlierVisits` | src/ui.rs:95-102 | the j-th widget shown is the one at the j-th listed index after the first j rewrites, so a repeated index is shown its earlier rewrite |
| `Ui.VisitLeavesOthers` | src/ui.rs:95-102 | a widget whose index is not listed is left as it was |
| `Ui.VisitKeepsCaps` | src/ui.rs:95-102 | a visitor that keeps capabilities leaves every widget with its capabilities, so each later `try_as_*_mut().unwrap()` still succeeds |
| `Ui.VisitDistinct` | src/ui.rs:95-102 | with no index listed twice, each listed widget ends as the visitor's result on its original |
| `Ui.SeenDistinct` | src/ui.rs:95-102 | with no index listed twice, every widget is shown as it was before the traversal and rewritten exactly once |
| `Ui.VisitListed` | src/ui.rs:94-135 | a traversal keeps every listed index holding a widget with the capability, and leaves unlisted widgets alone |
| `Ui.VisitEach` | src/ui.rs:95-102 | the loop leaves the store as `Visit` describes and records the widgets as `Seen` describes |
| `Ui.OperationsKeepExitFlag` | src/ui.rs:30-53 | `should_exit` is unchanged by allocation, tagging and registration |
| `Ui.Capacity` | src/ui.rs:158-165 | `capacity(c)` fails exactly when `c` is below drawables plus tags; otherwise it records `c` and changes nothing else |
| `Ui.CapacityCheck` | src/ui.rs:147-175 | a fresh builder accepts any capacity; after configuring drawables and tags, the check fails exactly when they do not fit |
| `Ui.CapacityNotRechecked` | src/ui.rs:158-168 | counts configured after the capacity check are never compared with it |
| `Ui.Build` | src/ui.rs:177-187 | `build` gives a valid registry in the configured status, with counter 0 and empty drawables, tags and widgets |
| `Ui.BuildUsesStatusOnly` | src/ui.rs:177-187 | builders with the same status build the same registry, which wants to exit exactly when built in `UI_EXIT` |

## Left out

- `src/main.rs`: the raylib window and drawing loop is I/O over an external graphics library.
- `src/widgets.rs`: it repeats the traits and default queries of `src/widgets/mod.rs`. Its extra `DataObj::BaseHandler` variant is a closure with no checkable behaviour.
- Bodies of `draw`, `interact` and `call`, and the `show`/`hide`/`lock`/`ready` families: the traits declare them without bodies. `render` records a call to `draw` as one entry in the frame.
- No event queue or dispatch loop is modelled.
- Status transitions: no code in the source changes `status` after `build`.
- `MultiMap` accessors that forward straight to a hash table: `contains_key`, `contains_index`, `data_get_mut`, `get_mut` (same result as `get`), `remove_index`, `unique_keys_count`, `is_empty`, `keys_is_empty`, `data_is_empty`, `keys_len`, `data_len`, and `UI::indices`.
- `MultiMap` iterator and entry accessors (`keys`, `keys_mut`, `keys_values`, `keys_values_mut`, `data`, `data_mut`, `data_values`, `data_values_mut`, `keys_entry`, `data_entry`): they expose raw hash-table internals, and `keys_mut` can break the key/slot pairing.
- Capacity arguments of `with_capacity` and `UIBuilder`: they are allocation hints with no observable effect.
- Ui.TryNextIndex: `usize` is taken to be 64 bits wide, so `checked_add` fails exactly at 2^64 - 1. On a target with a narrower `usize` the bound is lower.
- Overflow of `usize`: the `MultiMap` counter, reference counts, `len`, `UI::next_index` and the builder's `drawables + tags` use unbounded naturals. `try_next_index` is the exception; its bound is modelled.
- MultiMaps.Unalias: it returns the removed keys as a set. The source returns a `Vec` in hash-table order, and `MultiMaps.UnaliasScan` returns a list whose order is left open.
- Ui.ForEach: the visitor's own effects are not modelled. The member returns the sequence of widgets the visitor is shown.
- Ui.ForEachMut: the visitor is a pure function from widget to widget that keeps capabilities. A `&mut dyn` visitor cannot change a widget's concrete type.
- Widgets.TryAs: `try_as_x` and `try_as_x_mut` are assumed to answer alike. Both are answered from one capability set.
- Widgets.EqIsIdentity: an `f32` payload is compared by bit pattern. Rust's `f32` equality (NaN, signed zero) is not modelled.
