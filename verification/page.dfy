/**
 * The state of `ChronoLensPage` (src/app/page.tsx): the list of timelines
 * and the zoom factor, changed only by the page's handlers.
 */
module Page {
  import opened Wrappers
  import opened Text
  import opened Types

  const MinZoom: real := 0.1
  const MaxZoom: real := 20.0

  /** `Math.min(z * 1.5, 20)` */
  function ZoomedIn(z: real): (r: real)
    ensures r <= MaxZoom && r <= z * 1.5
    ensures r == z * 1.5 || r == MaxZoom
  {
    if z * 1.5 < MaxZoom then z * 1.5 else MaxZoom
  }

  /** `Math.max(z / 1.5, 0.1)` */
  function ZoomedOut(z: real): (r: real)
    ensures r >= MinZoom && r >= z / 1.5
    ensures r == z / 1.5 || r == MinZoom
  {
    if z / 1.5 > MinZoom then z / 1.5 else MinZoom
  }

  predicate ZoomInRange(z: real) { MinZoom <= z <= MaxZoom }

  /** Both handlers keep the zoom within [0.1, 20]. */
  lemma ZoomStepsStayInRange(z: real)
    requires ZoomInRange(z)
    ensures ZoomInRange(ZoomedIn(z)) && ZoomInRange(ZoomedOut(z))
  {
  }

  /** Within the range, the zoom-in button is enabled exactly when pressing it
      changes the zoom, and likewise for zoom-out. */
  lemma ButtonsEnabledWhenEffective(z: real)
    requires ZoomInRange(z)
    ensures z < MaxZoom <==> ZoomedIn(z) != z
    ensures z > MinZoom <==> ZoomedOut(z) != z
  {
  }

  /** A press of the zoom-in or the zoom-out button. */
  datatype ZoomPress = In | Out

  function ZoomAfter(z: real, presses: seq<ZoomPress>): real
    decreases |presses|
  {
    if presses == [] then z
    else
      var z' := if presses[0] == In then ZoomedIn(z) else ZoomedOut(z);
      ZoomAfter(z', presses[1..])
  }

  /** From any zoom in range, the initial 1 included, any sequence of
      presses stays in [0.1, 20]. */
  lemma {:induction false} ZoomAfterStaysInRange(z: real, presses: seq<ZoomPress>)
    requires ZoomInRange(z)
    ensures ZoomInRange(ZoomAfter(z, presses))
    decreases |presses|
  {
    if presses != [] {
      ZoomStepsStayInRange(z);
      var z' := if presses[0] == In then ZoomedIn(z) else ZoomedOut(z);
      ZoomAfterStaysInRange(z', presses[1..]);
    }
  }

  /** `Omit<Timeline, 'id'>` as the server action returns it. */
  datatype TimelineData = TimelineData(title: string, events: seq<TimelineEvent>)

  /** `{ data?, error? }` from `getTimelineForTopic`. */
  datatype FetchResponse = FetchResponse(data: Option<TimelineData>, error: Option<string>)

  /** What an add attempt did, including which toast it raised. */
  datatype AddOutcome =
    | Ignored            // empty topic: nothing happens
    | AlreadyShown       // duplicate title: the "Timeline exists" toast
    | Failed(message: string)  // the action reported an error: the "Error" toast
    | NoData             // neither data nor error
    | Added

  /** `timelines.some(t => t.title.toLowerCase() === topic.toLowerCase())` */
  predicate HasTitle(timelines: seq<Timeline>, topic: string)
  {
    exists i :: 0 <= i < |timelines| && Lower(timelines[i].title) == Lower(topic)
  }

  /** `prev.filter(timeline => timeline.id !== id)` */
  function WithoutId(timelines: seq<Timeline>, id: string): seq<Timeline>
  {
    if timelines == [] then []
    else (if timelines[0].id != id then [timelines[0]] else []) + WithoutId(timelines[1..], id)
  }

  /** Removing keeps exactly the timelines with another id, in their order:
      nothing with that id remains, and removing from a list that has no
      such id changes nothing. */
  lemma {:induction false} WithoutIdSpec(timelines: seq<Timeline>, id: string)
    ensures forall t :: t in WithoutId(timelines, id) <==> t in timelines && t.id != id
    ensures (forall i :: 0 <= i < |timelines| ==> timelines[i].id != id) ==> WithoutId(timelines, id) == timelines
  {
    if timelines != [] {
      WithoutIdSpec(timelines[1..], id);
      assert timelines == [timelines[0]] + timelines[1..];
    }
  }

  /** On one timeline the filter keeps it exactly when its id differs. */
  lemma WithoutIdSingle(t: Timeline, id: string)
    ensures WithoutId([t], id) == if t.id != id then [t] else []
  {
    assert [t][1..] == [];
  }

  /** The filter keeps the order: it distributes over `+`. With the empty and
      the one-element case this determines it completely. */
  lemma {:induction false} WithoutIdKeepsOrder(a: seq<Timeline>, b: seq<Timeline>, id: string)
    ensures WithoutId(a + b, id) == WithoutId(a, id) + WithoutId(b, id)
  {
    if a == [] {
      assert a + b == b;
    } else {
      var head := if a[0].id != id then [a[0]] else [];
      calc {
        WithoutId(a + b, id);
        { assert a + b == [a[0]] + (a[1..] + b);
          WithoutIdCons(a[0], a[1..] + b, id); }
        head + WithoutId(a[1..] + b, id);
        { WithoutIdKeepsOrder(a[1..], b, id); }
        head + (WithoutId(a[1..], id) + WithoutId(b, id));
        (head + WithoutId(a[1..], id)) + WithoutId(b, id);
        { assert a == [a[0]] + a[1..];
          WithoutIdCons(a[0], a[1..], id); }
        WithoutId(a, id) + WithoutId(b, id);
      }
    }
  }

  lemma WithoutIdCons(t: Timeline, rest: seq<Timeline>, id: string)
    ensures WithoutId([t] + rest, id) == (if t.id != id then [t] else []) + WithoutId(rest, id)
  {
    assert ([t] + rest)[0] == t;
    assert ([t] + rest)[1..] == rest;
  }

  /** Removing twice is removing once. */
  lemma WithoutIdIdempotent(timelines: seq<Timeline>, id: string)
    ensures WithoutId(WithoutId(timelines, id), id) == WithoutId(timelines, id)
  {
    var r := WithoutId(timelines, id);
    WithoutIdSpec(timelines, id);
    WithoutIdSpec(r, id);
    assert forall i :: 0 <= i < |r| ==> r[i] in r;
  }

  class ChronoLensPage {
    var timelines: seq<Timeline>
    var zoom: real

    ghost predicate Valid()
      reads this
    {
      ZoomInRange(zoom)
    }

    /** `useState<Timeline[]>([])` and `useState(1)` */
    constructor ()
      ensures Valid() && timelines == [] && zoom == 1.0
    {
      timelines := [];
      zoom := 1.0;
    }

    /** `canZoomIn={zoom < 20}` */
    function CanZoomIn(): bool
      reads this
    {
      zoom < MaxZoom
    }

    /** `canZoomOut={zoom > 0.1}` */
    function CanZoomOut(): bool
      reads this
    {
      zoom > MinZoom
    }

    /** `handleZoomIn` */
    method ZoomIn()
      requires Valid()
      modifies this
      ensures Valid() && zoom == ZoomedIn(old(zoom)) && timelines == old(timelines)
      ensures old(CanZoomIn()) <==> zoom != old(zoom)
    {
      ButtonsEnabledWhenEffective(zoom);
      zoom := if zoom * 1.5 < MaxZoom then zoom * 1.5 else MaxZoom;
    }

    /** `handleZoomOut` */
    method ZoomOut()
      requires Valid()
      modifies this
      ensures Valid() && zoom == ZoomedOut(old(zoom)) && timelines == old(timelines)
      ensures old(CanZoomOut()) <==> zoom != old(zoom)
    {
      ButtonsEnabledWhenEffective(zoom);
      zoom := if zoom / 1.5 > MinZoom then zoom / 1.5 else MinZoom;
    }

    /** `removeTimeline(id)` */
    method RemoveTimeline(id: string)
      requires Valid()
      modifies this
      ensures Valid() && timelines == WithoutId(old(timelines), id) && zoom == old(zoom)
    {
      timelines := WithoutId(timelines, id);
    }

    /** `handleClear` (the storage removal is not modelled) */
    method Clear()
      requires Valid()
      modifies this
      ensures Valid() && timelines == [] && zoom == old(zoom)
    {
      timelines := [];
    }

    /** `addTimeline(topic)` with the server action's answer `response` and
        `Date.now()` given as `now`, run to completion as one step. */
    method AddTimeline(topic: string, response: FetchResponse, now: nat) returns (outcome: AddOutcome)
      requires Valid()
      modifies this
      ensures Valid() && zoom == old(zoom)
      ensures outcome == AlreadyShown <==> HasTitle(old(timelines), topic)
      ensures outcome == Ignored <==> topic == [] && !HasTitle(old(timelines), topic)
      ensures outcome.Failed? <==>
                topic != [] && !HasTitle(old(timelines), topic)
                && response.error.Some? && response.error.value != []
      ensures outcome == Added ==>
                response.data.Some?
                && timelines == old(timelines)
                   + [Timeline(Lower(topic) + NatToString(now), response.data.value.title, response.data.value.events)]
      ensures outcome == Added ==> HasTitle(timelines, response.data.value.title)
      ensures outcome == Added && response.data.value.title == topic ==> HasTitle(timelines, topic)
      ensures outcome != Added ==> timelines == old(timelines)
      ensures outcome == Added <==>
                topic != [] && !HasTitle(old(timelines), topic)
                && !(response.error.Some? && response.error.value != []) && response.data.Some?
    {
      var duplicate := HasTitle(timelines, topic);
      if topic == [] || duplicate {
        if duplicate {
          return AlreadyShown;
        }
        return Ignored;
      }
      if response.error.Some? && response.error.value != [] {
        return Failed(response.error.value);
      } else if response.data.Some? {
        var data := response.data.value;
        timelines := timelines + [Timeline(Lower(topic) + NatToString(now), data.title, data.events)];
        assert timelines[|timelines| - 1].title == data.title;
        return Added;
      }
      return NoData;
    }
  }
}
