/** The `UI` registry of src/ui.rs: an index allocator, a last-write-wins tag
    table, a widget store keyed by index, the ordered `drawables` sequence, and
    the `UIBuilder` that configures a fresh registry.

    Every `&mut self` operation is a pure function returning the new registry
    together with what the Rust method returns. */
module Ui {
  import opened Wrappers
  import opened Widgets

  /** `Index`, a plain `usize` here, unbounded in the model. */
  type Index = nat

  /** `usize::MAX` on a 64-bit target. */
  const UsizeMax: nat := 0xFFFF_FFFF_FFFF_FFFF

  /** `UiState`; only `UI_EXIT` means anything to the registry itself. */
  datatype UiState = UiIdle | UiLocked | UiDraw | UiCall | UiInteract | UiExit

  datatype UI = UI(
    status: UiState,
    drawables: seq<Index>,
    tags: map<string, Index>,
    widgets: map<Index, Widget>,
    indices: nat)

  /** `should_exit`. */
  predicate ShouldExit(ui: UI)
  {
    ui.status == UiExit
  }

  /* ---------------------------------------------------------------------------
     Index allocation
     --------------------------------------------------------------------------- */

  /** `next_index`: hands out the counter and moves it up by one. */
  function NextIndex(ui: UI): (r: (UI, Index))
    ensures r.1 == ui.indices && r.0.indices == r.1 + 1
    ensures r.0 == ui.(indices := r.0.indices)
  {
    (ui.(indices := ui.indices + 1), ui.indices)
  }

  /** `try_next_index`: as `next_index`, except that when the counter would
      overflow `usize` it yields nothing and leaves the counter where it is. */
  function TryNextIndex(ui: UI): (r: (UI, Option<Index>))
    ensures r.1.None? <==> ui.indices >= UsizeMax
    ensures r.1.None? ==> r.0 == ui
    ensures r.1.Some? ==> r.0 == NextIndex(ui).0 && r.1.value == NextIndex(ui).1
    ensures r.0.indices <= UsizeMax || r.0 == ui
  {
    if ui.indices + 1 > UsizeMax then (ui, None) else (ui.(indices := ui.indices + 1), Some(ui.indices))
  }

  /* ---------------------------------------------------------------------------
     Tags and lookup
     --------------------------------------------------------------------------- */

  /** `tag_index`: binds `tag` to `i`, silently replacing an earlier binding,
      and returns the index the tag named before. Nothing checks that `i` holds
      a widget. */
  function TagIndex(ui: UI, i: Index, tag: string): (r: (UI, Option<Index>))
    ensures tag in r.0.tags && r.0.tags[tag] == i
    ensures r.1.Some? <==> tag in ui.tags
    ensures r.1.Some? ==> r.1.value == ui.tags[tag]
    ensures forall t :: t != tag ==> (t in r.0.tags <==> t in ui.tags)
    ensures forall t :: t != tag && t in ui.tags ==> r.0.tags[t] == ui.tags[t]
    ensures r.0 == ui.(tags := r.0.tags)
  {
    (ui.(tags := ui.tags[tag := i]), if tag in ui.tags then Some(ui.tags[tag]) else None)
  }

  /** The shape shared by `get_by_tag` (capability `Base`), `get_drawable_by_tag`
      (capability `Drawable`) and their `_mut` forms: tag -> index -> widget ->
      capability view. Each step may come up empty, and then so does the
      lookup. */
  function GetByTag(ui: UI, tag: string, cap: Capability): (r: Option<Widget>)
    ensures r.None? <==>
      || tag !in ui.tags
      || ui.tags[tag] !in ui.widgets
      || cap !in ui.widgets[ui.tags[tag]].caps
    ensures r.Some? ==> r.value == ui.widgets[ui.tags[tag]] && cap in r.value.caps
  {
    if tag in ui.tags && ui.tags[tag] in ui.widgets then TryAs(ui.widgets[ui.tags[tag]], cap) else None
  }

  /* ---------------------------------------------------------------------------
     Registration
     --------------------------------------------------------------------------- */

  /** `register`: stores the widget under a freshly allocated index and returns
      that index; tags, drawables and status are untouched. */
  function Register(ui: UI, w: Widget): (r: (UI, Index))
    ensures r.1 == ui.indices && r.0.indices == ui.indices + 1
    ensures r.1 in r.0.widgets && r.0.widgets[r.1] == w
    ensures r.0.widgets.Keys == ui.widgets.Keys + {r.1}
    ensures forall i :: i in ui.widgets && i != r.1 ==> r.0.widgets[i] == ui.widgets[i]
    ensures r.0.status == ui.status && r.0.tags == ui.tags && r.0.drawables == ui.drawables
  {
    var (ui1, idx) := NextIndex(ui);
    (ui1.(widgets := ui1.widgets[idx := w]), idx)
  }

  /** `register_as_drawable`: `register`, then the new index goes to the end of
      `drawables`. The trait bound is the only check: whether the widget answers
      `try_as_drawable` is not looked at. */
  function RegisterAsDrawable(ui: UI, w: Widget): (r: (UI, Index))
    ensures r.0.drawables == ui.drawables + [r.1]
    ensures r.0.widgets == Register(ui, w).0.widgets && r.1 == Register(ui, w).1
    ensures r.0.status == ui.status && r.0.tags == ui.tags && r.0.indices == ui.indices + 1
  {
    var (ui1, idx) := Register(ui, w);
    (ui1.(drawables := ui1.drawables + [idx]), idx)
  }

  /** Registers the widgets one after the other, collecting the indices. */
  function RegisterEach(ui: UI, ws: seq<Widget>): (UI, seq<Index>)
    decreases |ws|
  {
    if ws == [] then (ui, [])
    else
      var (ui1, idx) := Register(ui, ws[0]);
      var (ui2, rest) := RegisterEach(ui1, ws[1..]);
      (ui2, [idx] + rest)
  }

  /* ---------------------------------------------------------------------------
     Invariants of a registry
     --------------------------------------------------------------------------- */

  /** Strictly increasing, hence free of repetitions. */
  predicate Ascending(s: seq<Index>)
  {
    forall j, k :: 0 <= j < k < |s| ==> s[j] < s[k]
  }

  /** No index occurs twice. */
  predicate Distinct(s: seq<Index>)
  {
    forall j, k :: 0 <= j < k < |s| ==> s[j] != s[k]
  }

  /** Every stored widget and every listed drawable sits below the counter, and
      drawables are listed in allocation order. */
  predicate Valid(ui: UI)
  {
    && (forall i :: i in ui.widgets ==> i < ui.indices)
    && (forall j :: 0 <= j < |ui.drawables| ==> ui.drawables[j] < ui.indices)
    && Ascending(ui.drawables)
  }

  /** What `for_each_*` unwraps: every listed index holds a widget that
      supports the capability. */
  predicate Listed(ui: UI, cap: Capability)
  {
    forall j :: 0 <= j < |ui.drawables| ==> ui.drawables[j] in ui.widgets && cap in ui.widgets[ui.drawables[j]].caps
  }

  /* ---------------------------------------------------------------------------
     Traversal
     --------------------------------------------------------------------------- */

  /** `for_each_widgets` (capability `Base`) and `for_each_drawables`
      (capability `Drawable`): the visitor is shown the widgets of `drawables`
      in sequence order; the sequence of widgets it is shown is returned. A
      missing index or an unsupported capability panics in the source. */
  method ForEach(ui: UI, cap: Capability) returns (visited: seq<Widget>)
    requires Listed(ui, cap)
    ensures |visited| == |ui.drawables|
    ensures forall j :: 0 <= j < |visited| ==> visited[j] == ui.widgets[ui.drawables[j]] && cap in visited[j].caps
  {
    visited := [];
    var i := 0;
    while i < |ui.drawables|
      invariant 0 <= i <= |ui.drawables|
      invariant |visited| == i
      invariant forall j :: 0 <= j < i ==> visited[j] == ui.widgets[ui.drawables[j]]
    {
      var w := TryAs(ui.widgets[ui.drawables[i]], cap);
      visited := visited + [w.value];
      i := i + 1;
    }
  }

  /** The widget store after a visitor `f` has rewritten the widgets at `ds`,
      one index after the other; an index listed twice is rewritten twice. */
  function Visit(ws: map<Index, Widget>, ds: seq<Index>, f: Widget -> Widget): (r: map<Index, Widget>)
    requires forall j :: 0 <= j < |ds| ==> ds[j] in ws
    ensures r.Keys == ws.Keys
    decreases |ds|
  {
    if ds == [] then ws
    else
      var before := Visit(ws, ds[..|ds| - 1], f);
      before[ds[|ds| - 1] := f(before[ds[|ds| - 1]])]
  }

  /** The widgets a visitor `f` is shown while rewriting the widgets at `ds`:
      each as the earlier rewrites left it. */
  function Seen(ws: map<Index, Widget>, ds: seq<Index>, f: Widget -> Widget): (r: seq<Widget>)
    requires forall j :: 0 <= j < |ds| ==> ds[j] in ws
    ensures |r| == |ds|
    decreases |ds|
  {
    if ds == [] then []
    else
      var init := ds[..|ds| - 1];
      Seen(ws, init, f) + [Visit(ws, init, f)[ds[|ds| - 1]]]
  }

  /** The `j`-th widget shown is the one at `ds[j]` after the first `j` visits. */
  lemma {:induction false} SeenAfterEarlierVisits(ws: map<Index, Widget>, ds: seq<Index>, f: Widget -> Widget, j: nat)
    requires forall k :: 0 <= k < |ds| ==> ds[k] in ws
    requires j < |ds|
    ensures Seen(ws, ds, f)[j] == Visit(ws, ds[..j], f)[ds[j]]
    decreases |ds|
  {
    var init := ds[..|ds| - 1];
    if j < |ds| - 1 {
      assert init[..j] == ds[..j] && init[j] == ds[j];
      SeenAfterEarlierVisits(ws, init, f, j);
    }
  }

  /** A widget whose index is not visited is left as it was. */
  lemma {:induction false} VisitLeavesOthers(ws: map<Index, Widget>, ds: seq<Index>, f: Widget -> Widget, x: Index)
    requires forall j :: 0 <= j < |ds| ==> ds[j] in ws
    requires x in ws && x !in ds
    ensures Visit(ws, ds, f)[x] == ws[x]
    decreases |ds|
  {
    if ds != [] {
      VisitLeavesOthers(ws, ds[..|ds| - 1], f, x);
    }
  }

  /** A visitor that keeps capabilities leaves every widget with the
      capabilities it had. */
  lemma {:induction false} VisitKeepsCaps(ws: map<Index, Widget>, ds: seq<Index>, f: Widget -> Widget, x: Index)
    requires forall j :: 0 <= j < |ds| ==> ds[j] in ws
    requires forall w :: f(w).caps == w.caps
    requires x in ws
    ensures Visit(ws, ds, f)[x].caps == ws[x].caps
    decreases |ds|
  {
    if ds != [] {
      VisitKeepsCaps(ws, ds[..|ds| - 1], f, x);
    }
  }

  /** With no index listed twice, each visited widget is rewritten exactly once. */
  lemma {:induction false} VisitDistinct(ws: map<Index, Widget>, ds: seq<Index>, f: Widget -> Widget, j: nat)
    requires forall k :: 0 <= k < |ds| ==> ds[k] in ws
    requires Distinct(ds) && j < |ds|
    ensures Visit(ws, ds, f)[ds[j]] == f(ws[ds[j]])
    decreases |ds|
  {
    var init := ds[..|ds| - 1];
    if j == |ds| - 1 {
      VisitLeavesOthers(ws, init, f, ds[j]);
    } else {
      assert init[j] == ds[j];
      VisitDistinct(ws, init, f, j);
    }
  }

  /** With no index listed twice, the visitor is shown every widget as it was
      before the traversal, and rewrites each exactly once. */
  lemma SeenDistinct(ws: map<Index, Widget>, ds: seq<Index>, f: Widget -> Widget)
    requires forall k :: 0 <= k < |ds| ==> ds[k] in ws
    requires Distinct(ds)
    ensures forall j :: 0 <= j < |ds| ==>
      Seen(ws, ds, f)[j] == ws[ds[j]] && Visit(ws, ds, f)[ds[j]] == f(ws[ds[j]])
  {
    forall j | 0 <= j < |ds|
      ensures Seen(ws, ds, f)[j] == ws[ds[j]]
      ensures Visit(ws, ds, f)[ds[j]] == f(ws[ds[j]])
    {
      SeenAfterEarlierVisits(ws, ds, f, j);
      assert ds[j] !in ds[..j];
      VisitLeavesOthers(ws, ds[..j], f, ds[j]);
      VisitDistinct(ws, ds, f, j);
    }
  }

  /** Visiting the listed widgets of a registry keeps its store's indices and
      every capability listing, and leaves unlisted widgets alone. */
  lemma VisitListed(ui: UI, cap: Capability, f: Widget -> Widget)
    requires Listed(ui, cap)
    requires forall w :: f(w).caps == w.caps
    ensures var ws := Visit(ui.widgets, ui.drawables, f);
      && Listed(ui.(widgets := ws), cap)
      && (forall x :: x in ui.widgets && x !in ui.drawables ==> ws[x] == ui.widgets[x])
  {
    var ds := ui.drawables;
    var ws := Visit(ui.widgets, ds, f);
    forall x | x in ui.widgets
      ensures ws[x].caps == ui.widgets[x].caps
    {
      VisitKeepsCaps(ui.widgets, ds, f, x);
    }
    forall x | x in ui.widgets && x !in ds
      ensures ws[x] == ui.widgets[x]
    {
      VisitLeavesOthers(ui.widgets, ds, f, x);
    }
  }

  /** The loop of the mutable visitors: rewrites the widgets at `ds` in turn,
      recording each as the visitor found it. */
  method VisitEach(ws: map<Index, Widget>, ds: seq<Index>, cap: Capability, f: Widget -> Widget)
      returns (ws': map<Index, Widget>, visited: seq<Widget>)
    requires forall j :: 0 <= j < |ds| ==> ds[j] in ws && cap in ws[ds[j]].caps
    requires forall w :: f(w).caps == w.caps
    ensures ws' == Visit(ws, ds, f)
    ensures visited == Seen(ws, ds, f)
  {
    ws' := ws;
    visited := [];
    var i := 0;
    while i < |ds|
      invariant 0 <= i <= |ds|
      invariant ws' == Visit(ws, ds[..i], f)
      invariant visited == Seen(ws, ds[..i], f)
    {
      var x := ds[i];
      VisitKeepsCaps(ws, ds[..i], f, x);
      visited := visited + [TryAs(ws'[x], cap).value];
      ws' := ws'[x := f(ws'[x])];
      assert ds[..i + 1][..i] == ds[..i];
      i := i + 1;
    }
    assert ds[..i] == ds;
  }

  /** `for_each_widgets_mut` and `for_each_drawables_mut`: the visitor `f`
      rewrites each listed widget in turn. A visitor holds a `&mut dyn` view, so
      it cannot change what the widget is, hence its capabilities. Returned are
      the new registry and the widgets as the visitor saw them. */
  method ForEachMut(ui: UI, cap: Capability, f: Widget -> Widget) returns (ui': UI, visited: seq<Widget>)
    requires Listed(ui, cap)
    requires forall w :: f(w).caps == w.caps
    ensures ui' == ui.(widgets := ui'.widgets)
    ensures ui'.widgets.Keys == ui.widgets.Keys
    ensures Listed(ui', cap)
    ensures ui'.widgets == Visit(ui.widgets, ui.drawables, f)
    ensures visited == Seen(ui.widgets, ui.drawables, f)
    ensures forall x :: x in ui.widgets && x !in ui.drawables ==> ui'.widgets[x] == ui.widgets[x]
    ensures Distinct(ui.drawables) ==> forall j :: 0 <= j < |ui.drawables| ==>
      visited[j] == ui.widgets[ui.drawables[j]] && ui'.widgets[ui.drawables[j]] == f(visited[j])
  {
    var ws;
    ws, visited := VisitEach(ui.widgets, ui.drawables, cap, f);
    ui' := ui.(widgets := ws);
    VisitListed(ui, cap, f);
    if Distinct(ui.drawables) {
      SeenDistinct(ui.widgets, ui.drawables, f);
    }
  }

  /* ---------------------------------------------------------------------------
     Builder
     --------------------------------------------------------------------------- */

  /** `UIBuilder`: the status to start in and three sizing hints. */
  datatype UIBuilder = UIBuilder(status: UiState, drawables: nat, tags: nat, capacity: nat)

  /** `UIBuilder::create`: everything at its default. */
  function Create(): UIBuilder
  {
    UIBuilder(UiIdle, 0, 0, 0)
  }

  /** `UIBuilder::status`. */
  function WithStatus(b: UIBuilder, s: UiState): UIBuilder
  {
    b.(status := s)
  }

  /** `UIBuilder::drawables`. */
  function WithDrawables(b: UIBuilder, n: nat): UIBuilder
  {
    b.(drawables := n)
  }

  /** `UIBuilder::tags`. */
  function WithTags(b: UIBuilder, n: nat): UIBuilder
  {
    b.(tags := n)
  }

  /** `UIBuilder::capacity`: fails (a panic in the source) when the capacity
      cannot hold the drawables and tags configured so far; otherwise records
      it and changes nothing else. */
  function Capacity(b: UIBuilder, c: nat): (r: Option<UIBuilder>)
    ensures r.None? <==> c < b.drawables + b.tags
    ensures r.Some? ==> r.value.capacity == c && r.value == b.(capacity := c)
  {
    if c < b.drawables + b.tags then None else Some(b.(capacity := c))
  }

  /** `UIBuilder::build`: a registry in the configured status with nothing in
      it and the counter at 0; the sizes are capacity hints only. */
  function Build(b: UIBuilder): (ui: UI)
    ensures ui.status == b.status && ui.indices == 0
    ensures ui.drawables == [] && ui.tags == map[] && ui.widgets == map[]
    ensures Valid(ui) && forall c :: Listed(ui, c)
  {
    UI(b.status, [], map[], map[], 0)
  }

  /* ---------------------------------------------------------------------------
     Properties
     --------------------------------------------------------------------------- */

  /** Successive registrations return consecutive, hence distinct and strictly
      increasing, indices, each holding the widget registered under it. */
  lemma {:induction false} RegisterEachIndicesAscend(ui: UI, ws: seq<Widget>)
    ensures var (ui', idxs) := RegisterEach(ui, ws);
      && |idxs| == |ws|
      && (forall j :: 0 <= j < |idxs| ==> idxs[j] == ui.indices + j)
      && Ascending(idxs)
      && ui'.indices == ui.indices + |ws|
      && (forall j :: 0 <= j < |ws| ==> idxs[j] in ui'.widgets && ui'.widgets[idxs[j]] == ws[j])
    decreases |ws|
  {
    if ws != [] {
      var (ui1, idx) := Register(ui, ws[0]);
      RegisterEachIndicesAscend(ui1, ws[1..]);
      var (ui2, rest) := RegisterEach(ui1, ws[1..]);
      assert ui2.widgets[idx] == ws[0] by {
        RegisterEachKeepsEarlier(ui1, ws[1..], idx);
      }
    }
  }

  /** Registering more widgets never disturbs an index below the counter. */
  lemma {:induction false} RegisterEachKeepsEarlier(ui: UI, ws: seq<Widget>, i: Index)
    requires i < ui.indices
    ensures var ui' := RegisterEach(ui, ws).0;
      (i in ui'.widgets <==> i in ui.widgets)
      && (i in ui.widgets ==> ui'.widgets[i] == ui.widgets[i])
      && ui'.indices == ui.indices + |ws|
    decreases |ws|
  {
    if ws != [] {
      var ui1 := Register(ui, ws[0]).0;
      RegisterEachKeepsEarlier(ui1, ws[1..], i);
    }
  }

  /** In a valid registry `register` takes an unused index, overwrites nothing,
      and keeps the registry valid and every capability listing intact. */
  lemma RegisterKeepsValid(ui: UI, w: Widget, cap: Capability)
    requires Valid(ui)
    ensures var (ui', idx) := Register(ui, w);
      idx !in ui.widgets && Valid(ui') && (Listed(ui, cap) ==> Listed(ui', cap))
  {
  }

  /** In a valid registry `register_as_drawable` keeps the registry valid
      (`drawables` stays in allocation order), and keeps a capability listed
      exactly when the new widget supports it: the missing check at
      registration surfaces only when `for_each_*` unwraps. */
  lemma RegisterAsDrawableKeepsValid(ui: UI, w: Widget, cap: Capability)
    requires Valid(ui) && Listed(ui, cap)
    ensures var ui' := RegisterAsDrawable(ui, w).0;
      Valid(ui') && (Listed(ui', cap) <==> cap in w.caps)
  {
    var (ui', idx) := RegisterAsDrawable(ui, w);
    assert ui'.drawables[|ui.drawables|] == idx;
  }

  /** Tags are last-write-wins: retagging returns the index the tag named
      before, the tag now names the new index, and no other tag moves. */
  lemma TagLastWriteWins(ui: UI, i: Index, j: Index, tag: string, other: string)
    requires other != tag
    ensures var ui1 := TagIndex(ui, i, tag).0;
      var r := TagIndex(ui1, j, tag);
      r.1 == Some(i) && r.0.tags[tag] == j
      && (other in r.0.tags <==> other in ui.tags)
      && (other in ui.tags ==> r.0.tags[other] == ui.tags[other])
  {
  }

  /** Register a drawable widget, tag it, tag it again under a second name:
      both names find it as a widget and as a drawable; tagging is plain
      binding and retagging one name leaves the other in place. */
  lemma RegisterTagLookup(ui: UI, w: Widget, t1: string, t2: string, j: Index)
    requires Base in w.caps && Drawable in w.caps && t1 != t2
    ensures var (ui1, idx) := RegisterAsDrawable(ui, w);
      var ui2 := TagIndex(ui1, idx, t1).0;
      var ui3 := TagIndex(ui2, idx, t2).0;
      && GetByTag(ui3, t1, Drawable) == Some(w) && GetByTag(ui3, t2, Drawable) == Some(w)
      && GetByTag(ui3, t1, Base) == Some(w)
      && GetByTag(TagIndex(ui3, j, t1).0, t2, Drawable) == Some(w)
  {
  }

  /** A lookup finds nothing for a capability the widget does not offer, even
      though the tag and the index are both live. */
  lemma LookupNarrowsByCapability(ui: UI, w: Widget, t: string, cap: Capability)
    requires cap !in w.caps
    ensures var (ui1, idx) := Register(ui, w);
      GetByTag(TagIndex(ui1, idx, t).0, t, cap) == None
  {
  }

  /** No registry operation touches the status, so none can make the registry
      start or stop wanting to exit. */
  lemma OperationsKeepExitFlag(ui: UI, w: Widget, i: Index, tag: string)
    ensures ShouldExit(NextIndex(ui).0) == ShouldExit(ui)
    ensures ShouldExit(TryNextIndex(ui).0) == ShouldExit(ui)
    ensures ShouldExit(TagIndex(ui, i, tag).0) == ShouldExit(ui)
    ensures ShouldExit(Register(ui, w).0) == ShouldExit(ui)
    ensures ShouldExit(RegisterAsDrawable(ui, w).0) == ShouldExit(ui)
  {
  }

  /** A builder straight from `create` accepts any capacity; counts make the
      check fail only when the capacity cannot hold them. */
  lemma CapacityCheck(c: nat, d: nat, t: nat)
    ensures Capacity(Create(), c).Some?
    ensures Capacity(WithTags(WithDrawables(Create(), d), t), c).None? <==> c < d + t
  {
  }

  /** The capacity check looks only at counts configured before it: raising the
      drawables count afterwards is never rechecked, and `build` succeeds. */
  lemma CapacityNotRechecked()
    ensures var b := Capacity(Create(), 1);
      b.Some? && WithDrawables(b.value, 5).capacity < WithDrawables(b.value, 5).drawables
      && Build(WithDrawables(b.value, 5)).indices == 0
  {
  }

  /** `build` ignores the sizing hints: two builders with the same status build
      the same registry, which wants to exit exactly when built in `UI_EXIT`. */
  lemma BuildUsesStatusOnly(b1: UIBuilder, b2: UIBuilder)
    requires b1.status == b2.status
    ensures Build(b1) == Build(b2)
    ensures ShouldExit(Build(b1)) <==> b1.status == UiExit
  {
  }

}
