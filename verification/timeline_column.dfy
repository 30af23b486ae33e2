/**
 * `TimelineColumn` of src/components/timeline/timeline-column.tsx: drop the
 * events without a fractional year, sort the rest by it (a stable sort on a
 * copy), then give each card alternating sides, a pixel offset and a key.
 */
module TimelineColumn {
  import opened Wrappers
  import opened Text

  /** `TimelineEvent & { fractionalYear: number | null }` */
  datatype PositionedEvent = PositionedEvent(date: string, event: string, fractionalYear: Option<real>)

  /** `PositionedTimeline` */
  datatype PositionedTimeline = PositionedTimeline(id: string, title: string, events: seq<PositionedEvent>)

  predicate IsPlaced(e: PositionedEvent) { e.fractionalYear.Some? }

  predicate AllPlaced(s: seq<PositionedEvent>)
  {
    forall i :: 0 <= i < |s| ==> IsPlaced(s[i])
  }

  /** `fractionalYear as number` inside the comparator's subtraction, where
      JavaScript reads `null` as 0; the filter leaves no `null` to read. */
  function Key(e: PositionedEvent): real
  {
    match e.fractionalYear
    case Some(y) => y
    case None => 0.0
  }

  /** `.filter(event => event.fractionalYear !== null)` */
  function Placed(events: seq<PositionedEvent>): (r: seq<PositionedEvent>)
    ensures AllPlaced(r)
  {
    if events == [] then []
    else if IsPlaced(events[0]) then [events[0]] + Placed(events[1..])
    else Placed(events[1..])
  }

  predicate SortedByKey(s: seq<PositionedEvent>)
  {
    forall i, j :: 0 <= i < j < |s| ==> Key(s[i]) <= Key(s[j])
  }

  /** Puts `x` after every element whose key is at most its own. */
  function Insert(x: PositionedEvent, s: seq<PositionedEvent>): (r: seq<PositionedEvent>)
    ensures |r| == |s| + 1
  {
    if s == [] then [x]
    else if Key(x) < Key(s[0]) then [x] + s
    else [s[0]] + Insert(x, s[1..])
  }

  /** `.sort((a, b) => a.fractionalYear - b.fractionalYear)`, which is stable:
      an insertion sort taking the elements in order. */
  function Sort(s: seq<PositionedEvent>): (r: seq<PositionedEvent>)
    ensures |r| == |s|
  {
    if s == [] then []
    else Insert(s[|s| - 1], Sort(s[..|s| - 1]))
  }

  /** `sortedEvents` */
  function SortedEvents(events: seq<PositionedEvent>): seq<PositionedEvent>
  {
    Sort(Placed(events))
  }

  /** The events with key `k`, in order. */
  function WithKey(s: seq<PositionedEvent>, k: real): seq<PositionedEvent>
  {
    if s == [] then []
    else (if Key(s[0]) == k then [s[0]] else []) + WithKey(s[1..], k)
  }

  /** The filter keeps exactly the events with a fractional year, each as
      often as it occurs. */
  lemma {:induction false} PlacedCounts(events: seq<PositionedEvent>)
    ensures forall e :: multiset(Placed(events))[e] == if IsPlaced(e) then multiset(events)[e] else 0
  {
    if events != [] {
      PlacedCounts(events[1..]);
      assert events == [events[0]] + events[1..];
    }
  }

  /** Inserting adds `x` and nothing else. */
  lemma {:induction false} InsertPermutes(x: PositionedEvent, s: seq<PositionedEvent>)
    ensures multiset(Insert(x, s)) == multiset(s) + multiset{x}
  {
    if s != [] && Key(x) >= Key(s[0]) {
      InsertPermutes(x, s[1..]);
      assert s == [s[0]] + s[1..];
    }
  }

  lemma {:induction false} InsertSorted(x: PositionedEvent, s: seq<PositionedEvent>)
    requires SortedByKey(s)
    ensures SortedByKey(Insert(x, s))
  {
    if s != [] && Key(x) >= Key(s[0]) {
      var tail := s[1..];
      SortedTail(s);
      InsertSorted(x, tail);
      assert AtLeast(tail, Key(s[0]));
      InsertAtLeast(x, tail, Key(s[0]));
      assert Insert(x, s) == [s[0]] + Insert(x, tail);
    }
  }

  /** No key in `s` is below `lo`. */
  predicate AtLeast(s: seq<PositionedEvent>, lo: real)
  {
    forall i :: 0 <= i < |s| ==> lo <= Key(s[i])
  }

  lemma {:induction false} InsertAtLeast(x: PositionedEvent, s: seq<PositionedEvent>, lo: real)
    requires lo <= Key(x) && AtLeast(s, lo)
    ensures AtLeast(Insert(x, s), lo)
  {
    if s != [] && Key(x) >= Key(s[0]) {
      assert AtLeast(s[1..], lo);
      InsertAtLeast(x, s[1..], lo);
      assert Insert(x, s) == [s[0]] + Insert(x, s[1..]);
    }
  }

  /** The sort returns its input reordered, in ascending order. */
  lemma {:induction false} SortSortsPermutes(s: seq<PositionedEvent>)
    ensures SortedByKey(Sort(s)) && multiset(Sort(s)) == multiset(s)
  {
    if s != [] {
      var n := |s| - 1;
      var prefix, x := s[..n], s[n];
      assert Sort(s) == Insert(x, Sort(prefix));
      SortSortsPermutes(prefix);
      InsertSorted(x, Sort(prefix));
      InsertPermutes(x, Sort(prefix));
      assert s == prefix + [x];
      assert multiset(s) == multiset(prefix) + multiset{x};
    }
  }

  lemma {:induction false} WithKeyAppend(a: seq<PositionedEvent>, b: seq<PositionedEvent>, k: real)
    ensures WithKey(a + b, k) == WithKey(a, k) + WithKey(b, k)
  {
    if a == [] {
      assert a + b == b;
    } else {
      WithKeyAppend(a[1..], b, k);
      assert a + b == [a[0]] + (a[1..] + b);
      WithKeyCons(a[0], a[1..] + b, k);
      assert a == [a[0]] + a[1..];
      WithKeyCons(a[0], a[1..], k);
    }
  }

  lemma {:induction false} WithKeyAbove(s: seq<PositionedEvent>, k: real)
    requires SortedByKey(s) && s != [] && Key(s[0]) > k
    ensures WithKey(s, k) == []
  {
    if |s| > 1 {
      WithKeyAbove(s[1..], k);
    }
  }

  lemma {:induction false} InsertWithKey(x: PositionedEvent, s: seq<PositionedEvent>, k: real)
    requires SortedByKey(s)
    ensures WithKey(Insert(x, s), k) == WithKey(s, k) + (if Key(x) == k then [x] else [])
  {
    if s == [] {
      WithKeyCons(x, [], k);
    } else if Key(x) < Key(s[0]) {
      assert Insert(x, s) == [x] + s;
      WithKeyCons(x, s, k);
      if Key(x) == k {
        WithKeyAbove(s, k);
      }
    } else {
      var tail := s[1..];
      SortedTail(s);
      InsertWithKey(x, tail, k);
      assert Insert(x, s) == [s[0]] + Insert(x, tail);
      WithKeyCons(s[0], Insert(x, tail), k);
      assert s == [s[0]] + tail;
      WithKeyCons(s[0], tail, k);
    }
  }

  lemma WithKeyCons(e: PositionedEvent, rest: seq<PositionedEvent>, k: real)
    ensures WithKey([e] + rest, k) == (if Key(e) == k then [e] else []) + WithKey(rest, k)
  {
    assert ([e] + rest)[0] == e;
    assert ([e] + rest)[1..] == rest;
  }

  lemma SortedTail(s: seq<PositionedEvent>)
    requires SortedByKey(s) && s != []
    ensures SortedByKey(s[1..])
  {
    forall i, j | 0 <= i < j < |s| - 1 ensures Key(s[1..][i]) <= Key(s[1..][j]) {
      assert s[1..][i] == s[i + 1] && s[1..][j] == s[j + 1];
    }
  }

  /** Stability: events with equal years keep their input order. */
  lemma {:induction false} SortIsStable(s: seq<PositionedEvent>, k: real)
    ensures WithKey(Sort(s), k) == WithKey(s, k)
  {
    if s != [] {
      var n := |s| - 1;
      var prefix, x := s[..n], s[n];
      SortIsStable(prefix, k);
      SortSortsPermutes(prefix);
      StableStep(Sort(prefix), prefix, x, k);
      assert s == prefix + [x];
    }
  }

  /** Inserting the next element into a sorted, order-keeping prefix keeps order. */
  lemma StableStep(sorted: seq<PositionedEvent>, prefix: seq<PositionedEvent>, x: PositionedEvent, k: real)
    requires SortedByKey(sorted) && WithKey(sorted, k) == WithKey(prefix, k)
    ensures WithKey(Insert(x, sorted), k) == WithKey(prefix + [x], k)
  {
    InsertWithKey(x, sorted, k);
    WithKeyAppend(prefix, [x], k);
    WithKeySingle(x, k);
  }

  lemma WithKeySingle(x: PositionedEvent, k: real)
    ensures WithKey([x], k) == if Key(x) == k then [x] else []
  {
    assert [x][1..] == [];
  }

  /** `sortedEvents` holds exactly the events with a fractional year (as a
      multiset), ascending by it, with ties in input order. */
  lemma SortedEventsSpec(events: seq<PositionedEvent>)
    ensures AllPlaced(SortedEvents(events))
    ensures SortedByKey(SortedEvents(events))
    ensures forall e :: multiset(SortedEvents(events))[e] == if IsPlaced(e) then multiset(events)[e] else 0
    ensures forall k :: WithKey(SortedEvents(events), k) == WithKey(Placed(events), k)
  {
    SortSortsPermutes(Placed(events));
    PlacedCounts(events);
    var r := SortedEvents(events);
    forall i | 0 <= i < |r| ensures IsPlaced(r[i]) {
      assert r[i] in multiset(r);
    }
    forall k ensures WithKey(SortedEvents(events), k) == WithKey(Placed(events), k) {
      SortIsStable(Placed(events), k);
    }
  }

  datatype Side = Left | Right

  /** One rendered `TimelineEventCard`: its React key, event, offset and side. */
  datatype Card = Card(key: string, event: PositionedEvent, top: real, side: Side)

  /** `(year - minYear) * yAxisMultiplier * zoom` */
  function CardTop(year: real, minYear: real, zoom: real, yAxisMultiplier: real): real
  {
    (year - minYear) * yAxisMultiplier * zoom
  }

  /** The card for the `index`-th sorted event. */
  function CardAt(timeline: PositionedTimeline, sorted: seq<PositionedEvent>, index: nat,
                  minYear: real, zoom: real, yAxisMultiplier: real): Card
    requires index < |sorted|
  {
    var year := Key(sorted[index]);
    Card(timeline.id + "-" + NatToString(index), sorted[index],
         CardTop(year, minYear, zoom, yAxisMultiplier),
         if index % 2 == 0 then Left else Right)
  }

  /** `sortedEvents.map((event, index) => …)` */
  function Layout(timeline: PositionedTimeline, minYear: real, zoom: real, yAxisMultiplier: real): (cards: seq<Card>)
    ensures |cards| == |SortedEvents(timeline.events)|
    ensures forall i :: 0 <= i < |cards| ==> cards[i].event == SortedEvents(timeline.events)[i]
  {
    var sorted := SortedEvents(timeline.events);
    seq(|sorted|, i requires 0 <= i < |sorted| => CardAt(timeline, sorted, i, minYear, zoom, yAxisMultiplier))
  }

  /** The first card is on the left and consecutive cards alternate sides. */
  lemma SidesAlternate(timeline: PositionedTimeline, minYear: real, zoom: real, yAxisMultiplier: real)
    ensures var cards := Layout(timeline, minYear, zoom, yAxisMultiplier);
            (cards != [] ==> cards[0].side == Left)
            && forall i :: 0 <= i < |cards| - 1 ==> cards[i].side != cards[i + 1].side
  {
  }

  /** With a positive scale the offsets never decrease down the column, and
      an event not before `minYear` is not above the top. */
  lemma TopsDescendTheColumn(timeline: PositionedTimeline, minYear: real, zoom: real, yAxisMultiplier: real)
    requires yAxisMultiplier * zoom > 0.0
    ensures var cards := Layout(timeline, minYear, zoom, yAxisMultiplier);
            forall i, j :: 0 <= i < j < |cards| ==> cards[i].top <= cards[j].top
  {
    var sorted := SortedEvents(timeline.events);
    var cards := Layout(timeline, minYear, zoom, yAxisMultiplier);
    SortSortsPermutes(Placed(timeline.events));
    forall i, j | 0 <= i < j < |cards| ensures cards[i].top <= cards[j].top {
      assert cards[i] == CardAt(timeline, sorted, i, minYear, zoom, yAxisMultiplier);
      assert cards[j] == CardAt(timeline, sorted, j, minYear, zoom, yAxisMultiplier);
      TopKeepsOrder(Key(sorted[i]), Key(sorted[j]), minYear, zoom, yAxisMultiplier);
    }
  }

  lemma TopKeepsOrder(a: real, b: real, minYear: real, zoom: real, yAxisMultiplier: real)
    requires a <= b && yAxisMultiplier * zoom > 0.0
    ensures CardTop(a, minYear, zoom, yAxisMultiplier) <= CardTop(b, minYear, zoom, yAxisMultiplier)
    ensures a >= minYear ==> CardTop(a, minYear, zoom, yAxisMultiplier) >= 0.0
  {
    var p := yAxisMultiplier * zoom;
    assert (a - minYear) * yAxisMultiplier * zoom == (a - minYear) * p;
    assert (b - minYear) * yAxisMultiplier * zoom == (b - minYear) * p;
    assert (a - minYear) * p <= (b - minYear) * p;
  }

  /** A card whose year is not before `minYear` has a non-negative offset. */
  lemma TopNotAboveColumn(timeline: PositionedTimeline, minYear: real, zoom: real, yAxisMultiplier: real, i: nat)
    requires yAxisMultiplier * zoom > 0.0
    requires i < |SortedEvents(timeline.events)| && Key(SortedEvents(timeline.events)[i]) >= minYear
    ensures Layout(timeline, minYear, zoom, yAxisMultiplier)[i].top >= 0.0
  {
    var year := Key(SortedEvents(timeline.events)[i]);
    TopKeepsOrder(year, year, minYear, zoom, yAxisMultiplier);
  }

  /** The keys `${id}-${index}` of a column are pairwise distinct. */
  lemma KeysDistinct(timeline: PositionedTimeline, minYear: real, zoom: real, yAxisMultiplier: real)
    ensures var cards := Layout(timeline, minYear, zoom, yAxisMultiplier);
            forall i, j :: 0 <= i < j < |cards| ==> cards[i].key != cards[j].key
  {
    var cards := Layout(timeline, minYear, zoom, yAxisMultiplier);
    var sorted := SortedEvents(timeline.events);
    var prefix := timeline.id + "-";
    forall i, j | 0 <= i < j < |cards| ensures cards[i].key != cards[j].key {
      assert cards[i] == CardAt(timeline, sorted, i, minYear, zoom, yAxisMultiplier);
      assert cards[j] == CardAt(timeline, sorted, j, minYear, zoom, yAxisMultiplier);
      PrefixedIndicesDiffer(prefix, i, j);
    }
  }

  lemma PrefixedIndicesDiffer(prefix: string, i: nat, j: nat)
    requires i != j
    ensures prefix + NatToString(i) != prefix + NatToString(j)
  {
    assert (prefix + NatToString(i))[|prefix|..] == NatToString(i);
    assert (prefix + NatToString(j))[|prefix|..] == NatToString(j);
    NatToStringInjective(i, j);
  }
}
