/**
 * The drawdown scanner of the drawdown tracker: one pass over a series of
 * closing prices that keeps a running peak and the trough that follows it,
 * and reports every peak-to-trough decline whose size, as a percentage of
 * the peak, reaches a threshold.
 *
 * The module gives the scan twice: as a pure specification (a fold over the
 * series, `StateAt`, `EventsAt` and `Scan`) and as the imperative loop the
 * program runs (`DrawdownsFromLastPeak`), which is proved to compute `Scan`.
 */
module Drawdown {

  /** One closing price; `date` is an ordinal standing for the trading day. */
  datatype PricePoint = PricePoint(date: int, price: real)

  /** A recorded decline from `peakValue` to `troughValue`, with its size in percent. */
  datatype Event = Event(peakDate: int, peakValue: real, troughDate: int, troughValue: real, ddPct: real)

  /** The four variables the scan carries from one point to the next. */
  datatype ScanState = ScanState(peakDate: int, peakValue: real, troughDate: int, troughValue: real)

  /** Closing prices are never negative. */
  predicate NonNegativePrices(s: seq<PricePoint>) {
    forall i :: 0 <= i < |s| ==> 0.0 <= s[i].price
  }

  /** The series is ordered by date without repeated dates, as after sorting the index. */
  predicate StrictlyIncreasingDates(s: seq<PricePoint>) {
    forall i, j :: 0 <= i < j < |s| ==> s[i].date < s[j].date
  }

  /** The decline from `peak` to `trough` as a percentage of `peak`. */
  function DrawdownPct(peak: real, trough: real): real
    requires peak != 0.0
  {
    (peak - trough) / peak * 100.0
  }

  /** A trough strictly below a positive peak is a positive decline. */
  lemma DrawdownPositive(peak: real, trough: real)
    requires 0.0 <= trough < peak
    ensures 0.0 < DrawdownPct(peak, trough)
  {
    assert 0.0 < (peak - trough) / peak;
  }

  /** Peak and trough both start at the first point. */
  function Init(p: PricePoint): ScanState {
    ScanState(p.date, p.price, p.date, p.price)
  }

  /**
   * The state update for one point: a strictly higher price starts a new
   * cycle at that point; otherwise only a strictly lower price moves the
   * trough. The threshold plays no part here.
   */
  function Step(st: ScanState, p: PricePoint): ScanState {
    if p.price > st.peakValue then Init(p)
    else if p.price < st.troughValue then st.(troughDate := p.date, troughValue := p.price)
    else st
  }

  /** The event for the cycle `st` describes, if its decline reaches the threshold. */
  function Emit(st: ScanState, threshold: real): seq<Event>
    requires 0.0 <= st.troughValue
  {
    if st.troughValue < st.peakValue && DrawdownPct(st.peakValue, st.troughValue) >= threshold then
      [Event(st.peakDate, st.peakValue, st.troughDate, st.troughValue, DrawdownPct(st.peakValue, st.troughValue))]
    else
      []
  }

  /** What processing `p` in state `st` appends: the closed cycle's event, if `p` is a new peak. */
  function Closed(st: ScanState, p: PricePoint, threshold: real): seq<Event>
    requires 0.0 <= st.troughValue
  {
    if p.price > st.peakValue then Emit(st, threshold) else []
  }

  /** The state after the loop has processed the first `n` points of `s`. */
  function StateAt(s: seq<PricePoint>, n: nat): (st: ScanState)
    requires 0 < |s| && n <= |s| && NonNegativePrices(s)
    ensures 0.0 <= st.troughValue <= st.peakValue
  {
    if n == 0 then Init(s[0]) else Step(StateAt(s, n - 1), s[n - 1])
  }

  /** The events the loop has appended after processing the first `n` points of `s`. */
  function EventsAt(s: seq<PricePoint>, n: nat, threshold: real): seq<Event>
    requires 0 < |s| && n <= |s| && NonNegativePrices(s)
  {
    if n == 0 then [] else EventsAt(s, n - 1, threshold) + Closed(StateAt(s, n - 1), s[n - 1], threshold)
  }

  /** The whole scan: the events of the closed cycles, then the unclosed last cycle's. */
  function Scan(s: seq<PricePoint>, threshold: real): seq<Event>
    requires 0 < |s| && NonNegativePrices(s)
  {
    EventsAt(s, |s|, threshold) + Emit(StateAt(s, |s|), threshold)
  }

  /**
   * `e` records a real decline that reaches `threshold`: its trough is below
   * a positive peak, and its percentage is the exact decline, positive and at
   * least the threshold.
   */
  predicate Qualifies(e: Event, threshold: real) {
    && e.troughValue < e.peakValue
    && 0.0 < e.peakValue
    && e.ddPct == DrawdownPct(e.peakValue, e.troughValue)
    && 0.0 < e.ddPct
    && threshold <= e.ddPct
  }

  /**
   * The scanner as the program runs it: four state variables updated point
   * by point and an event list appended to, followed by the final check of
   * the unclosed cycle.
   */
  method DrawdownsFromLastPeak(series: seq<PricePoint>, threshold: real) returns (events: seq<Event>)
    requires 0 < |series| && NonNegativePrices(series)
    ensures events == Scan(series, threshold)
    ensures forall k :: 0 <= k < |events| ==> Qualifies(events[k], threshold)
  {
    events := [];
    var peakDate, peakValue := series[0].date, series[0].price;
    var troughDate, troughValue := peakDate, peakValue;

    for i := 0 to |series|
      invariant ScanState(peakDate, peakValue, troughDate, troughValue) == StateAt(series, i)
      invariant events == EventsAt(series, i, threshold)
    {
      var date, price := series[i].date, series[i].price;
      if price > peakValue {
        if troughValue < peakValue {
          var maxDd := (peakValue - troughValue) / peakValue;
          if maxDd * 100.0 >= threshold {
            events := events + [Event(peakDate, peakValue, troughDate, troughValue, maxDd * 100.0)];
          }
        }
        peakDate, peakValue := date, price;
        troughDate, troughValue := date, price;
      } else if price < troughValue {
        troughDate, troughValue := date, price;
      }
    }

    // The final check of a cycle the series ends in.
    if troughValue < peakValue {
      var maxDd := (peakValue - troughValue) / peakValue;
      if maxDd * 100.0 >= threshold {
        events := events + [Event(peakDate, peakValue, troughDate, troughValue, maxDd * 100.0)];
      }
    }
    EventsQualify(series, threshold);
  }

  /** Every event appended by the first `n` steps qualifies under the threshold. */
  lemma {:induction false} EventsAtQualify(s: seq<PricePoint>, n: nat, threshold: real)
    requires 0 < |s| && n <= |s| && NonNegativePrices(s)
    ensures forall k :: 0 <= k < |EventsAt(s, n, threshold)| ==> Qualifies(EventsAt(s, n, threshold)[k], threshold)
  {
    if n > 0 {
      EventsAtQualify(s, n - 1, threshold);
      var st := StateAt(s, n - 1);
      var before, added := EventsAt(s, n - 1, threshold), Closed(st, s[n - 1], threshold);
      EmitQualifies(st, threshold);
      assert EventsAt(s, n, threshold) == before + added;
      forall k | 0 <= k < |before + added| ensures Qualifies((before + added)[k], threshold) {
        if k >= |before| {
          assert (before + added)[k] == added[k - |before|];
        }
      }
    }
  }

  /** The event of a cycle, if any, qualifies under the threshold it was tested against. */
  lemma EmitQualifies(st: ScanState, threshold: real)
    requires 0.0 <= st.troughValue
    ensures forall k :: 0 <= k < |Emit(st, threshold)| ==> Qualifies(Emit(st, threshold)[k], threshold)
  {
    if st.troughValue < st.peakValue {
      DrawdownPositive(st.peakValue, st.troughValue);
    }
  }

  /**
   * Every event the scan reports, closed or final, has its trough strictly
   * below its peak, a positive percentage, and a percentage at least the threshold.
   */
  lemma EventsQualify(s: seq<PricePoint>, threshold: real)
    requires 0 < |s| && NonNegativePrices(s)
    ensures forall k :: 0 <= k < |Scan(s, threshold)| ==> Qualifies(Scan(s, threshold)[k], threshold)
  {
    var closed, final := EventsAt(s, |s|, threshold), Emit(StateAt(s, |s|), threshold);
    EventsAtQualify(s, |s|, threshold);
    EmitQualifies(StateAt(s, |s|), threshold);
    forall k | 0 <= k < |closed + final| ensures Qualifies((closed + final)[k], threshold) {
      if k >= |closed| {
        assert (closed + final)[k] == final[k - |closed|];
      }
    }
  }
}
