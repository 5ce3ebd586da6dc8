/**
 * What the drawdown scan promises, proved about its specification `Scan`
 * (and therefore about `DrawdownsFromLastPeak`, which computes it).
 */
module DrawdownProperties {
  import opened Drawdown

  /*
   * Running extremes: after `n` points the peak is the first highest price
   * seen so far, and the trough is the first lowest price seen since that peak.
   */
  lemma {:induction false} RunningExtremes(s: seq<PricePoint>, n: nat) returns (pi: nat, ti: nat)
    requires 0 < n <= |s| && NonNegativePrices(s)
    ensures pi <= ti < n
    ensures StateAt(s, n) == ScanState(s[pi].date, s[pi].price, s[ti].date, s[ti].price)
    ensures forall k :: 0 <= k < n ==> s[k].price <= s[pi].price
    ensures forall k :: 0 <= k < pi ==> s[k].price < s[pi].price
    ensures forall k :: pi <= k < n ==> s[ti].price <= s[k].price
    ensures forall k :: pi <= k < ti ==> s[ti].price < s[k].price
  {
    if n == 1 {
      pi, ti := 0, 0;
    } else {
      var p, t := RunningExtremes(s, n - 1);
      var st := StateAt(s, n - 1);
      if s[n - 1].price > st.peakValue {
        pi, ti := n - 1, n - 1;
      } else if s[n - 1].price < st.troughValue {
        pi, ti := p, n - 1;
      } else {
        pi, ti := p, t;
      }
    }
  }

  /**
   * Event `e` describes the cycle that starts at index `i`, has its trough at
   * index `j` and ends before index `c`: `s[i]` is a new high, `s[j]` the
   * first lowest price of the cycle, no price of the cycle exceeds the peak,
   * and the cycle is closed by a higher price at `c` or by the end of the series.
   */
  ghost predicate IsCycle(s: seq<PricePoint>, e: Event, i: int, j: int, c: int) {
    && 0 <= i < j < c <= |s|
    && s[i] == PricePoint(e.peakDate, e.peakValue)
    && s[j] == PricePoint(e.troughDate, e.troughValue)
    && (c == |s| || e.peakValue < s[c].price)
    && (forall k :: 0 <= k < i ==> s[k].price < e.peakValue)
    && (forall k :: i <= k < c ==> e.troughValue <= s[k].price <= e.peakValue)
    && (forall k :: i <= k < j ==> e.troughValue < s[k].price)
  }

  /** Every event appended in the first `n` steps describes a cycle closed by a new high before `n`. */
  lemma {:induction false} EventsAtAreClosedCycles(s: seq<PricePoint>, n: nat, threshold: real)
    requires 0 < |s| && n <= |s| && NonNegativePrices(s)
    ensures forall e :: e in EventsAt(s, n, threshold) ==> exists i, j, c :: IsCycle(s, e, i, j, c) && c < n
  {
    if n > 0 {
      EventsAtAreClosedCycles(s, n - 1, threshold);
      var st := StateAt(s, n - 1);
      var added := Closed(st, s[n - 1], threshold);
      if added != [] {
        var pi, ti := RunningExtremes(s, n - 1);
        assert IsCycle(s, added[0], pi, ti, n - 1);
      }
    }
  }

  /**
   * Every event of the scan describes one peak-to-trough cycle of the series;
   * an event of the final check describes the cycle the series ends in.
   */
  lemma ScanEventsAreCycles(s: seq<PricePoint>, threshold: real)
    requires 0 < |s| && NonNegativePrices(s)
    ensures forall e :: e in Scan(s, threshold) ==> exists i, j, c :: IsCycle(s, e, i, j, c)
    ensures forall e :: e in Emit(StateAt(s, |s|), threshold) ==> exists i, j :: IsCycle(s, e, i, j, |s|)
  {
    EventsAtAreClosedCycles(s, |s|, threshold);
    var added := Emit(StateAt(s, |s|), threshold);
    if added != [] {
      var pi, ti := RunningExtremes(s, |s|);
      assert IsCycle(s, added[0], pi, ti, |s|);
    }
  }

  /** The events appended by the first `n` steps stay, in order, at the front of those of any later step. */
  lemma {:induction false} EventsAtGrows(s: seq<PricePoint>, n: nat, m: nat, threshold: real)
    requires 0 < |s| && n <= m <= |s| && NonNegativePrices(s)
    ensures EventsAt(s, n, threshold) <= EventsAt(s, m, threshold)
  {
    if n < m {
      EventsAtGrows(s, n, m - 1, threshold);
      assert EventsAt(s, m, threshold) == EventsAt(s, m - 1, threshold) + Closed(StateAt(s, m - 1), s[m - 1], threshold);
    }
  }

  /** The state just before index `c` is the state of the cycle `e` describes. */
  lemma CycleState(s: seq<PricePoint>, e: Event, i: int, j: int, c: int)
    requires NonNegativePrices(s) && IsCycle(s, e, i, j, c)
    ensures StateAt(s, c) == ScanState(e.peakDate, e.peakValue, e.troughDate, e.troughValue)
  {
    var pi, ti := RunningExtremes(s, c);
    assert pi == i;
    assert ti == j;
  }

  /**
   * Completeness: every cycle of the series whose decline reaches the
   * threshold is reported, from the step that closes it or from the final check.
   */
  lemma QualifyingCycleReported(s: seq<PricePoint>, e: Event, i: int, j: int, c: int, threshold: real)
    requires NonNegativePrices(s) && IsCycle(s, e, i, j, c)
    requires e.ddPct == DrawdownPct(e.peakValue, e.troughValue) && threshold <= e.ddPct
    ensures e in Scan(s, threshold)
  {
    CycleState(s, e, i, j, c);
    var st := StateAt(s, c);
    assert e.troughValue < e.peakValue by {
      assert e.troughValue < s[i].price;
    }
    assert Emit(st, threshold) == [e];
    if c < |s| {
      assert Closed(st, s[c], threshold) == [e];
      assert e in EventsAt(s, c + 1, threshold);
      EventsAtGrows(s, c + 1, |s|, threshold);
    }
  }

  /**
   * The scan's events are exactly the cycles of the series whose decline
   * reaches the threshold, each with its percentage.
   */
  lemma ScanIsQualifyingCycles(s: seq<PricePoint>, threshold: real)
    requires 0 < |s| && NonNegativePrices(s)
    ensures forall e :: e in Scan(s, threshold) <==> (exists i, j, c :: IsCycle(s, e, i, j, c)) && Qualifies(e, threshold)
  {
    ScanEventsAreCycles(s, threshold);
    EventsQualify(s, threshold);
    forall e | (exists i, j, c :: IsCycle(s, e, i, j, c)) && Qualifies(e, threshold)
      ensures e in Scan(s, threshold)
    {
      var i, j, c :| IsCycle(s, e, i, j, c);
      QualifyingCycleReported(s, e, i, j, c, threshold);
    }
  }

  /**
   * The final check adds at most one event; its peak is the highest price of
   * the whole series, while every closed cycle's peak is exceeded later on.
   */
  lemma FinalCheck(s: seq<PricePoint>, threshold: real)
    requires 0 < |s| && NonNegativePrices(s)
    ensures |Emit(StateAt(s, |s|), threshold)| <= 1
    ensures forall e, k :: e in Emit(StateAt(s, |s|), threshold) && 0 <= k < |s| ==> s[k].price <= e.peakValue
    ensures forall e :: e in EventsAt(s, |s|, threshold) ==> exists k :: 0 <= k < |s| && e.peakValue < s[k].price
  {
    ScanEventsAreCycles(s, threshold);
    EventsAtAreClosedCycles(s, |s|, threshold);
    forall e | e in EventsAt(s, |s|, threshold)
      ensures exists k :: 0 <= k < |s| && e.peakValue < s[k].price
    {
      var i, j, c :| IsCycle(s, e, i, j, c) && c < |s|;
      assert e.peakValue < s[c].price;
    }
  }

  /** Events in chronological order: peaks rise in date and in value, and each trough precedes the next peak. */
  predicate Chronological(events: seq<Event>) {
    forall a, b :: 0 <= a < b < |events| ==>
      && events[a].peakDate < events[b].peakDate
      && events[a].peakValue < events[b].peakValue
      && events[a].troughDate < events[b].peakDate
  }

  /** Every event appended so far lies before, and below, the current peak. */
  lemma {:induction false} EventsAtBeforePeak(s: seq<PricePoint>, n: nat, threshold: real)
    requires 0 < |s| && n <= |s| && NonNegativePrices(s) && StrictlyIncreasingDates(s)
    ensures Chronological(EventsAt(s, n, threshold))
    ensures forall e :: e in EventsAt(s, n, threshold) ==>
      && e.peakValue < StateAt(s, n).peakValue
      && e.peakDate < StateAt(s, n).peakDate
      && e.troughDate < StateAt(s, n).peakDate
  {
    if n > 0 {
      EventsAtBeforePeak(s, n - 1, threshold);
      var st := StateAt(s, n - 1);
      if n > 1 && s[n - 1].price > st.peakValue {
        var pi, ti := RunningExtremes(s, n - 1);
        assert st.peakDate < s[n - 1].date && st.troughDate < s[n - 1].date;
      }
    }
  }

  /**
   * For a date-ordered series, the scan's events come out in chronological
   * order with strictly rising peaks, and each trough comes after its peak.
   */
  lemma ScanChronological(s: seq<PricePoint>, threshold: real)
    requires 0 < |s| && NonNegativePrices(s) && StrictlyIncreasingDates(s)
    ensures Chronological(Scan(s, threshold))
    ensures forall e :: e in Scan(s, threshold) ==> e.peakDate < e.troughDate
  {
    EventsAtBeforePeak(s, |s|, threshold);
    ScanEventsAreCycles(s, threshold);
    forall e | e in Scan(s, threshold) ensures e.peakDate < e.troughDate {
      var i, j, c :| IsCycle(s, e, i, j, c);
    }
  }

  /** No price is lower than the one before it. */
  predicate NonDecreasing(s: seq<PricePoint>) {
    forall k :: 0 <= k < |s| - 1 ==> s[k].price <= s[k + 1].price
  }

  /** On a non-decreasing series the trough never leaves the peak's own point, whose value is the latest price. */
  lemma {:induction false} NonDecreasingStaysFlat(s: seq<PricePoint>, n: nat, threshold: real)
    requires 0 < n <= |s| && NonNegativePrices(s) && NonDecreasing(s)
    ensures StateAt(s, n).troughDate == StateAt(s, n).peakDate
    ensures StateAt(s, n).troughValue == StateAt(s, n).peakValue == s[n - 1].price
    ensures EventsAt(s, n, threshold) == []
  {
    if n > 1 {
      NonDecreasingStaysFlat(s, n - 1, threshold);
      assert s[n - 2].price <= s[n - 1].price;
    }
  }

  /** A non-decreasing series, a single point among them, yields no events whatever the threshold. */
  lemma NonDecreasingNoEvents(s: seq<PricePoint>, threshold: real)
    requires 0 < |s| && NonNegativePrices(s) && NonDecreasing(s)
    ensures Scan(s, threshold) == []
  {
    NonDecreasingStaysFlat(s, |s|, threshold);
  }

  /** Once a price has fallen below an earlier one, the scan has an event or an open decline. */
  lemma {:induction false} DeclineStaysReported(s: seq<PricePoint>, k: nat, n: nat, threshold: real)
    requires 0 < |s| && n <= |s| && NonNegativePrices(s) && threshold <= 0.0
    requires k + 2 <= n && s[k + 1].price < s[k].price
    ensures EventsAt(s, n, threshold) != [] || StateAt(s, n).troughValue < StateAt(s, n).peakValue
  {
    var st := StateAt(s, n - 1);
    if n == k + 2 {
      var pi, ti := RunningExtremes(s, k + 1);
      assert s[k].price <= st.peakValue;
    } else {
      DeclineStaysReported(s, k, n - 1, threshold);
      if EventsAt(s, n - 1, threshold) == [] && s[n - 1].price > st.peakValue {
        DrawdownPositive(st.peakValue, st.troughValue);
        assert Closed(st, s[n - 1], threshold) != [];
      }
    }
  }

  /**
   * With a threshold of zero or less, the scan reports nothing exactly when
   * the series never falls: every fall, however small, is an event.
   */
  lemma NoEventsIffNonDecreasing(s: seq<PricePoint>, threshold: real)
    requires 0 < |s| && NonNegativePrices(s) && threshold <= 0.0
    ensures Scan(s, threshold) == [] <==> NonDecreasing(s)
  {
    if NonDecreasing(s) {
      NonDecreasingNoEvents(s, threshold);
    } else {
      var k :| 0 <= k < |s| - 1 && s[k + 1].price < s[k].price;
      DeclineStaysReported(s, k, |s|, threshold);
      var st := StateAt(s, |s|);
      if st.troughValue < st.peakValue {
        DrawdownPositive(st.peakValue, st.troughValue);
      }
    }
  }

  /** The events whose percentage reaches `threshold`, in their original order. */
  function Filter(events: seq<Event>, threshold: real): seq<Event> {
    if events == [] then []
    else if events[0].ddPct >= threshold then [events[0]] + Filter(events[1..], threshold)
    else Filter(events[1..], threshold)
  }

  lemma {:induction false} FilterConcat(a: seq<Event>, b: seq<Event>, threshold: real)
    ensures Filter(a + b, threshold) == Filter(a, threshold) + Filter(b, threshold)
  {
    if a == [] {
      assert a + b == b;
    } else {
      assert (a + b)[0] == a[0];
      assert (a + b)[1..] == a[1..] + b;
      FilterConcat(a[1..], b, threshold);
      if a[0].ddPct >= threshold {
        calc {
          Filter(a + b, threshold);
          [a[0]] + Filter(a[1..] + b, threshold);
          [a[0]] + (Filter(a[1..], threshold) + Filter(b, threshold));
          ([a[0]] + Filter(a[1..], threshold)) + Filter(b, threshold);
        }
      }
    }
  }

  /** `sub` is `whole` with some elements removed, the rest kept in order. */
  predicate IsSubsequence(sub: seq<Event>, whole: seq<Event>) {
    sub == [] || (whole != [] && ((sub[0] == whole[0] && IsSubsequence(sub[1..], whole[1..])) || IsSubsequence(sub, whole[1..])))
  }

  lemma {:induction false} FilterIsSubsequence(events: seq<Event>, threshold: real)
    ensures IsSubsequence(Filter(events, threshold), events)
  {
    if events != [] {
      var rest := Filter(events[1..], threshold);
      FilterIsSubsequence(events[1..], threshold);
      if events[0].ddPct >= threshold {
        assert Filter(events, threshold) == [events[0]] + rest;
        assert ([events[0]] + rest)[1..] == rest;
      } else {
        assert Filter(events, threshold) == rest;
      }
    }
  }

  /** The event of one cycle under the higher threshold is its event under the lower one, if it reaches the higher. */
  lemma EmitThreshold(st: ScanState, t1: real, t2: real)
    requires 0.0 <= st.troughValue && t1 <= t2
    ensures Emit(st, t2) == Filter(Emit(st, t1), t2)
  {
    var e := Emit(st, t1);
    if e != [] {
      assert e[1..] == [];
    }
  }

  /** The same holds for what one step appends. */
  lemma ClosedThreshold(st: ScanState, p: PricePoint, t1: real, t2: real)
    requires 0.0 <= st.troughValue && t1 <= t2
    ensures Closed(st, p, t2) == Filter(Closed(st, p, t1), t2)
  {
    EmitThreshold(st, t1, t2);
  }

  /** Raising the threshold drops events of the lower threshold's list and changes no other. */
  lemma {:induction false} EventsAtThreshold(s: seq<PricePoint>, n: nat, t1: real, t2: real)
    requires 0 < |s| && n <= |s| && NonNegativePrices(s) && t1 <= t2
    ensures EventsAt(s, n, t2) == Filter(EventsAt(s, n, t1), t2)
  {
    if n > 0 {
      EventsAtThreshold(s, n - 1, t1, t2);
      var st := StateAt(s, n - 1);
      var before1, added1 := EventsAt(s, n - 1, t1), Closed(st, s[n - 1], t1);
      ClosedThreshold(st, s[n - 1], t1, t2);
      FilterConcat(before1, added1, t2);
    }
  }

  /**
   * Threshold monotonicity: the events for a higher threshold are exactly the
   * events for a lower one whose percentage reaches the higher threshold, so
   * they form an order-preserving subsequence of them.
   */
  lemma ThresholdMonotone(s: seq<PricePoint>, t1: real, t2: real)
    requires 0 < |s| && NonNegativePrices(s) && t1 <= t2
    ensures Scan(s, t2) == Filter(Scan(s, t1), t2)
    ensures IsSubsequence(Scan(s, t2), Scan(s, t1))
  {
    var st := StateAt(s, |s|);
    EventsAtThreshold(s, |s|, t1, t2);
    EmitThreshold(st, t1, t2);
    FilterConcat(EventsAt(s, |s|, t1), Emit(st, t1), t2);
    FilterIsSubsequence(Scan(s, t1), t2);
  }

  /** A decline of 20% from 100 to 80 that recovers to a new high at 120 is one closed-cycle event. */
  lemma RecoveredDeclineScenario()
    ensures Scan([PricePoint(1, 100.0), PricePoint(2, 90.0), PricePoint(3, 80.0), PricePoint(4, 95.0), PricePoint(5, 120.0)], 10.0)
      == [Event(1, 100.0, 3, 80.0, 20.0)]
    ensures Scan([PricePoint(1, 100.0), PricePoint(2, 90.0), PricePoint(3, 80.0), PricePoint(4, 95.0), PricePoint(5, 120.0)], 25.0)
      == []
  {
    var s := [PricePoint(1, 100.0), PricePoint(2, 90.0), PricePoint(3, 80.0), PricePoint(4, 95.0), PricePoint(5, 120.0)];
    assert StateAt(s, 4) == ScanState(1, 100.0, 3, 80.0);
    assert StateAt(s, 5) == Init(s[4]);
  }

  /** A series that ends mid-decline reports that decline through the final check. */
  lemma UnrecoveredDeclineScenario()
    ensures Scan([PricePoint(1, 100.0), PricePoint(2, 80.0)], 5.0) == [Event(1, 100.0, 2, 80.0, 20.0)]
  {
    var s := [PricePoint(1, 100.0), PricePoint(2, 80.0)];
    assert StateAt(s, 2) == ScanState(1, 100.0, 2, 80.0);
  }
}
