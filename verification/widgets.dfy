/** The widget layer of src/widgets/mod.rs: the `DataObj` payload, the
    `EventType` ranking with its draw phases, `WidgetEvent` with an equality that
    looks at the payload and an ordering that does not, the capability queries
    every widget answers, and the visibility gate of `render`. */
module Widgets {
  import opened Wrappers
  import opened Orderings

  newtype int32 = x: int | -0x8000_0000 <= x < 0x8000_0000

  /** `DataObj`, the event payload. An `f32` is carried as its bit pattern and
      never interpreted. */
  datatype DataObj = Empty | I32(i: int32) | F32(bits: bv32) | Str(s: string) | List(items: seq<DataObj>)

  /* ---------------------------------------------------------------------------
     Events
     --------------------------------------------------------------------------- */

  /** `EventType`, a `#[repr(u8)]` enum whose declaration order is its rank. */
  datatype EventType = Idle | Log | PreDraw | Draw | PostDraw | Click | Quit

  /** The `u8` discriminant of a kind: its position in the declaration. */
  function Discriminant(t: EventType): (d: nat)
    ensures d < 7
  {
    match t
    case Idle => 0
    case Log => 1
    case PreDraw => 2
    case Draw => 3
    case PostDraw => 4
    case Click => 5
    case Quit => 6
  }

  datatype WidgetEvent = WidgetEvent(kind: EventType, payload: DataObj)

  /** `predrawcall`: the event opening a frame. */
  function PreDrawCall(): (e: WidgetEvent)
    ensures e.kind == PreDraw && e.payload == Empty
  {
    WidgetEvent(PreDraw, Empty)
  }

  /** `drawcall`: the event asking for a frame to be drawn. */
  function DrawCall(): (e: WidgetEvent)
    ensures e.kind == Draw && e.payload == Empty
  {
    WidgetEvent(Draw, Empty)
  }

  /** `postdrawcall`: the event closing a frame. */
  function PostDrawCall(): (e: WidgetEvent)
    ensures e.kind == PostDraw && e.payload == Empty
  {
    WidgetEvent(PostDraw, Empty)
  }

  /** `PartialEq::eq`: same kind AND same payload. */
  predicate Eq(a: WidgetEvent, b: WidgetEvent)
  {
    a.kind == b.kind && a.payload == b.payload
  }

  /** `Ord::cmp`: compares the discriminants of the kinds only. */
  function Cmp(a: WidgetEvent, b: WidgetEvent): (o: Ordering)
    ensures o == Equal <==> a.kind == b.kind
    ensures o == Less <==> Discriminant(a.kind) < Discriminant(b.kind)
  {
    CmpNat(Discriminant(a.kind), Discriminant(b.kind))
  }

  /** `PartialOrd::partial_cmp`: recomputes the same comparison, wrapped. */
  function PartialCmp(a: WidgetEvent, b: WidgetEvent): (o: Option<Ordering>)
    ensures o == Some(Cmp(a, b))
  {
    Some(CmpNat(Discriminant(a.kind), Discriminant(b.kind)))
  }

  /** `cmp(a, b) != Greater`, the order `Ord` induces. */
  predicate Le(a: WidgetEvent, b: WidgetEvent)
  {
    Cmp(a, b) != Greater
  }

  /** The kinds rank IDLE < LOG < PREDRAW < DRAW < POSTDRAW < CLICK < QUIT, and
      distinct kinds have distinct ranks. */
  lemma KindsRanked()
    ensures Discriminant(Idle) < Discriminant(Log) < Discriminant(PreDraw) < Discriminant(Draw)
    ensures Discriminant(Draw) < Discriminant(PostDraw) < Discriminant(Click) < Discriminant(Quit)
    ensures forall s, t :: Discriminant(s) == Discriminant(t) ==> s == t
  {
  }

  /** Equality is structural equality of events, hence an equivalence. */
  lemma EqIsIdentity(a: WidgetEvent, b: WidgetEvent)
    ensures Eq(a, b) <==> a == b
  {
  }

  /** `cmp` is a total preorder on events; two events are tied exactly when
      their kinds agree, and swapping the arguments reverses the result. */
  lemma CmpIsTotalPreorder()
    ensures forall a :: Le(a, a)
    ensures forall a, b :: Le(a, b) || Le(b, a)
    ensures forall a, b, c :: Le(a, b) && Le(b, c) ==> Le(a, c)
    ensures forall a, b :: Le(a, b) && Le(b, a) ==> a.kind == b.kind
    ensures forall a, b :: Cmp(b, a) == Reverse(Cmp(a, b))
  {
  }

  /** `partial_cmp` is never `None` and always agrees with `cmp`. */
  lemma PartialCmpAgrees(a: WidgetEvent, b: WidgetEvent)
    ensures PartialCmp(a, b).Some? && PartialCmp(a, b).value == Cmp(a, b)
  {
  }

  /** Equal events compare `Equal`, but the converse fails: two DRAW events
      that differ only in payload compare `Equal` without being `==`. The
      `Eq` and `Ord` implementations of this file disagree. */
  lemma EqOrdInconsistent()
    ensures forall a, b :: Eq(a, b) ==> Cmp(a, b) == Equal
    ensures Cmp(DrawCall(), WidgetEvent(Draw, I32(1))) == Equal
    ensures !Eq(DrawCall(), WidgetEvent(Draw, I32(1)))
  {
  }

  /** The three frame events sort in the order a frame is drawn. */
  lemma DrawPhasesInOrder()
    ensures Cmp(PreDrawCall(), DrawCall()) == Less
    ensures Cmp(DrawCall(), PostDrawCall()) == Less
  {
  }

  /* ---------------------------------------------------------------------------
     Widgets and their capabilities
     --------------------------------------------------------------------------- */

  /** The optional views a widget may offer: `try_as_widget`, `try_as_drawable`,
      `try_as_callable` and `try_as_collidable` (each with its `_mut` twin). */
  datatype Capability = Base | Drawable | Callable | Collidable

  /** A widget as the registry sees it: its `get_id`, the queries it overrides
      to answer `Some(self)`, and the `visible` flag of a drawable. */
  datatype Widget = Widget(id: string, caps: set<Capability>, visible: bool)

  /** The `try_as_*` query for one capability: the widget itself, viewed under
      the capability, or nothing. */
  function TryAs(w: Widget, c: Capability): (r: Option<Widget>)
    ensures r.Some? <==> c in w.caps
    ensures r.Some? ==> r.value == w
  {
    if c in w.caps then Some(w) else None
  }

  /** A widget that overrides none of the `try_as_*` queries gets the trait's
      defaults and supports no capability at all. */
  lemma DefaultQueriesAnswerNone(id: string, visible: bool)
    ensures forall c :: TryAs(Widget(id, {}, visible), c) == None
  {
  }

  /** One call of the foreign `draw`, recorded by the id of the widget drawn. */
  datatype DrawCallRecord = DrawCallRecord(id: string)

  /** `render`: calls `draw` (which appends one record to the frame) exactly when
      the widget is visible, and leaves the frame alone otherwise. */
  function Render(w: Widget, frame: seq<DrawCallRecord>): (r: seq<DrawCallRecord>)
    ensures w.visible ==> r == frame + [DrawCallRecord(w.id)]
    ensures !w.visible ==> r == frame
  {
    if w.visible then frame + [DrawCallRecord(w.id)] else frame
  }

  /** Rendering a sequence of widgets one after another, as a traversal of the
      drawables does: the frame only grows, by at most one call per widget. */
  function RenderAll(ws: seq<Widget>, frame: seq<DrawCallRecord>): (r: seq<DrawCallRecord>)
    ensures |frame| <= |r| <= |frame| + |ws|
    ensures r[..|frame|] == frame
    decreases |ws|
  {
    if ws == [] then frame
    else Render(ws[|ws| - 1], RenderAll(ws[..|ws| - 1], frame))
  }

  /** The draw call a widget contributes to a frame: one if visible, none otherwise. */
  function Drawn(w: Widget): seq<DrawCallRecord>
  {
    if w.visible then [DrawCallRecord(w.id)] else []
  }

  /** The draw calls of the visible widgets among `ws`, in their order. */
  function VisibleIds(ws: seq<Widget>): seq<DrawCallRecord>
    decreases |ws|
  {
    if ws == [] then [] else Drawn(ws[0]) + VisibleIds(ws[1..])
  }

  /** Appending a widget appends its draw call exactly when it is visible. */
  lemma {:induction false} VisibleIdsSnoc(ws: seq<Widget>, w: Widget)
    ensures VisibleIds(ws + [w]) == VisibleIds(ws) + Drawn(w)
    decreases |ws|
  {
    var v := ws + [w];
    if ws == [] {
      assert v[1..] == [];
    } else {
      assert v[0] == ws[0] && v[1..] == ws[1..] + [w];
      VisibleIdsSnoc(ws[1..], w);
      calc {
        VisibleIds(v);
        Drawn(ws[0]) + VisibleIds(ws[1..] + [w]);
        Drawn(ws[0]) + (VisibleIds(ws[1..]) + Drawn(w));
        (Drawn(ws[0]) + VisibleIds(ws[1..])) + Drawn(w);
      }
    }
  }

  /** Rendering a sequence appends to the frame exactly the draw calls of its
      visible widgets, in order: hidden widgets are never drawn. */
  lemma {:induction false} RenderAllDrawsVisible(ws: seq<Widget>, frame: seq<DrawCallRecord>)
    ensures RenderAll(ws, frame) == frame + VisibleIds(ws)
    decreases |ws|
  {
    if ws != [] {
      var init := ws[..|ws| - 1];
      var w := ws[|ws| - 1];
      RenderAllDrawsVisible(init, frame);
      assert ws == init + [w];
      VisibleIdsSnoc(init, w);
    }
  }

}
