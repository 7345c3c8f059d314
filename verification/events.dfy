/** The event type of src/events.rs: six kinds ranked by discriminant, and a
    `WidgetEvent` whose equality AND ordering both look at the kind only. */
module Events {
  import opened Wrappers
  import opened Orderings
  import Widgets

  /** `EventType`, a `#[repr(u8)]` enum whose declaration order is its rank. */
  datatype EventType = Idle | Log | Draw | Click | Custom | Quit

  /** The `u8` discriminant of a kind. */
  function Discriminant(t: EventType): (d: nat)
    ensures d < 6
  {
    match t
    case Idle => 0
    case Log => 1
    case Draw => 2
    case Click => 3
    case Custom => 4
    case Quit => 5
  }

  /** An event: its kind and a `DataObj` payload. */
  datatype WidgetEvent = WidgetEvent(kind: EventType, payload: Widgets.DataObj)

  /** `WidgetEvent::DRAW_EVENT`. */
  function DrawEvent(): (e: WidgetEvent)
    ensures e.kind == Draw && e.payload == Widgets.Empty
  {
    WidgetEvent(Draw, Widgets.Empty)
  }

  /** `PartialEq::eq`: the payload plays no part. */
  predicate Eq(a: WidgetEvent, b: WidgetEvent)
  {
    a.kind == b.kind
  }

  /** `Ord::cmp`: compares the discriminants of the kinds. */
  function Cmp(a: WidgetEvent, b: WidgetEvent): (o: Ordering)
    ensures o == Less <==> Discriminant(a.kind) < Discriminant(b.kind)
    ensures o == Greater <==> Discriminant(b.kind) < Discriminant(a.kind)
  {
    CmpNat(Discriminant(a.kind), Discriminant(b.kind))
  }

  /** `PartialOrd::partial_cmp`: recomputes the same comparison, wrapped. */
  function PartialCmp(a: WidgetEvent, b: WidgetEvent): (o: Option<Ordering>)
    ensures o == Some(Cmp(a, b))
  {
    Some(CmpNat(Discriminant(a.kind), Discriminant(b.kind)))
  }

  /** `cmp(a, b) != Greater`, the order `Ord` induces. */
  predicate Le(a: WidgetEvent, b: WidgetEvent)
  {
    Cmp(a, b) != Greater
  }

  /** The kinds rank IDLE < LOG < DRAW < CLICK < CUSTOM < QUIT, and distinct
      kinds have distinct ranks. */
  lemma KindsRanked()
    ensures Discriminant(Idle) < Discriminant(Log) < Discriminant(Draw)
    ensures Discriminant(Draw) < Discriminant(Click) < Discriminant(Custom) < Discriminant(Quit)
    ensures forall s, t :: Discriminant(s) == Discriminant(t) ==> s == t
  {
  }

  /** Two events are equal exactly when their kinds are, whatever the payloads;
      so equality is an equivalence relation. */
  lemma EqIgnoresPayload(k: EventType, p: Widgets.DataObj, q: Widgets.DataObj)
    ensures Eq(WidgetEvent(k, p), WidgetEvent(k, q))
    ensures forall a :: Eq(a, a)
    ensures forall a, b :: Eq(a, b) ==> Eq(b, a)
    ensures forall a, b, c :: Eq(a, b) && Eq(b, c) ==> Eq(a, c)
  {
  }

  /** `cmp` is a total order up to `Eq`: reflexive, total, transitive,
      antisymmetric modulo equality, and reversed by swapping its arguments. */
  lemma CmpIsTotalOrder()
    ensures forall a :: Le(a, a)
    ensures forall a, b :: Le(a, b) || Le(b, a)
    ensures forall a, b, c :: Le(a, b) && Le(b, c) ==> Le(a, c)
    ensures forall a, b :: Le(a, b) && Le(b, a) ==> Eq(a, b)
    ensures forall a, b :: Cmp(b, a) == Reverse(Cmp(a, b))
  {
  }

  /** `cmp` answers `Equal` exactly for equal events: `Eq` and `Ord` agree. */
  lemma CmpConsistentWithEq(a: WidgetEvent, b: WidgetEvent)
    ensures Cmp(a, b) == Equal <==> Eq(a, b)
  {
  }

  /** `partial_cmp` is never `None` and always agrees with `cmp`. */
  lemma PartialCmpAgrees(a: WidgetEvent, b: WidgetEvent)
    ensures PartialCmp(a, b).Some? && PartialCmp(a, b).value == Cmp(a, b)
  {
  }

}
