# Drawdown scanner, modelled and verified in Dafny

The drawdown tracker downloads a symbol's closing prices and reports its
drawdowns. A drawdown is a fall from a running peak to the lowest price that
follows it, before a new peak. The one piece of logic is the scanner
`drawdowns_from_last_peak`. It makes one pass over the date-ordered
series and keeps a running peak and a running trough, both starting at the
first point. A price strictly above the peak closes the current cycle. The
closed cycle is reported if its trough lies below its peak and the decline
`(peak - trough) / peak * 100` reaches the threshold. Peak and trough then
restart at that point. Otherwise only a strictly lower price moves the
trough. When the series ends, the unclosed last cycle gets the same test.

Files:

- `drawdown.dfy`, module `Drawdown`, holds the data and the scan.
  - The data are `PricePoint`, `Event` and `ScanState` (the four scan variables).
  - The scan is first given as a pure fold over the series: `Step` updates
    the state, `StateAt` and `EventsAt` give the state and the events after
    `n` points, and `Scan` adds the final check.
  - `DrawdownsFromLastPeak` is the loop the program runs. It keeps the same
    four local variables and appends to an event list, and it is proved to
    return `Scan`.
- `drawdown_properties.dfy`, module `DrawdownProperties`, holds the proved
  properties of `Scan`:
  - the running maximum and minimum;
  - the events are exactly the cycles whose decline reaches the threshold;
  - the final check;
  - the order of the events;
  - when a series has no events;
  - threshold monotonicity;
  - two worked examples.

Conventions:

- Dates are integers that stand for trading days.
- Prices and percentages are mathematical reals.
- The percentage is kept exact, without rounding.

## Model

| member | source | states |
|---|---|---|
| `Drawdown.DrawdownsFromLastPeak` | drawdown_analysis.py:48-84 | The loop over the series with its four state variables and the final check returns exactly `Scan(series, threshold)`. Every returned event has its trough strictly below its peak and a positive percentage equal to (peak - trough) / peak * 100, at least the threshold. |
| `Drawdown.StateAt` | drawdown_analysis.py:49-70 | At every step of the scan, 0 <= trough value <= peak value. |
| `Drawdown.DrawdownPositive` | drawdown_analysis.py:56-57 | A trough strictly below the peak, at or above zero, gives a strictly positive percentage. |
| `Drawdown.EmitQualifies` | drawdown_analysis.py:73-82 | An event that passes the test of a cycle has trough < peak, a positive percentage equal to (peak - trough) / peak * 100, and percentage >= threshold. |
| `Drawdown.EventsAtQualify` | drawdown_analysis.py:55-65 | Every event appended for a closed cycle qualifies: trough < peak, positive percentage, percentage >= threshold. |
| `Drawdown.EventsQualify` | drawdown_analysis.py:55-82 | The closed-cycle events and the final-check event all qualify under the same threshold test. |
| `DrawdownProperties.RunningExtremes` | drawdown_analysis.py:49-70 | After n points the peak is the first occurrence of the highest price so far. The trough is the first occurrence of the lowest price from the peak's index up to the current one, and the trough index is not before the peak index. |
| `DrawdownProperties.EventsAtAreClosedCycles` | drawdown_analysis.py:54-70 | Each closed-cycle event describes a cycle from a new high at index i to its first lowest price at index j > i. The cycle ends before a strictly higher price at some index c. |
| `DrawdownProperties.ScanEventsAreCycles` | drawdown_analysis.py:54-82 | Every event of the scan describes such a cycle of the series. A final-check event describes the cycle that runs to the end of the series. |
| `DrawdownProperties.EventsAtGrows` | drawdown_analysis.py:59 | The event list is append-only. The events after n steps are a prefix of the events after any later step. |
| `DrawdownProperties.CycleState` | drawdown_analysis.py:49-70 | When the scan reaches the index that ends a cycle, its four variables hold exactly that cycle's peak and trough points. |
| `DrawdownProperties.QualifyingCycleReported` | drawdown_analysis.py:54-82 | Completeness: every cycle of the series whose decline reaches the threshold is in the scan's result. It comes from the step that closes the cycle or, for the last cycle, from the final check. |
| `DrawdownProperties.ScanIsQualifyingCycles` | drawdown_analysis.py:54-82 | An event is in the scan's result if and only if it describes a cycle of the series and qualifies under the threshold. |
| `DrawdownProperties.FinalCheck` | drawdown_analysis.py:72-82 | The final check adds at most one event. That event's peak is the highest price of the whole series. Every closed cycle's peak is exceeded by some price of the series. |
| `DrawdownProperties.EventsAtBeforePeak` | drawdown_analysis.py:55-67 | The events appended so far are chronological, and all of them lie before and below the running peak. |
| `DrawdownProperties.ScanChronological` | drawdown_analysis.py:54-82 | On a date-ordered series the events come out with strictly increasing peak dates and strictly increasing peak values. Each trough comes after its own peak and before the next event's peak. |
| `DrawdownProperties.NonDecreasingStaysFlat` | drawdown_analysis.py:55-70 | On a non-decreasing series the trough stays at the peak's own point, with the same date and value. That value is the latest price, and no event is appended. |
| `DrawdownProperties.NonDecreasingNoEvents` | drawdown_analysis.py:54-82 | A non-decreasing series, a single point included, yields no events for any threshold. |
| `DrawdownProperties.DeclineStaysReported` | drawdown_analysis.py:55-70 | Take a threshold <= 0. Once some price falls below the one before it, every later step has either appended an event or holds a trough strictly below the peak. |
| `DrawdownProperties.NoEventsIffNonDecreasing` | drawdown_analysis.py:54-82 | For a threshold <= 0, the scan returns no events if and only if the series is non-decreasing. |
| `DrawdownProperties.EmitThreshold` | drawdown_analysis.py:56-58 | For t1 <= t2, the event one cycle yields under t2 is its event under t1 if that event's percentage reaches t2, and nothing otherwise. |
| `DrawdownProperties.ClosedThreshold` | drawdown_analysis.py:55-65 | For t1 <= t2, what one point appends under t2 is what it appends under t1, kept only if its percentage reaches t2. |
| `DrawdownProperties.EventsAtThreshold` | drawdown_analysis.py:54-70 | For t1 <= t2, the closed-cycle events under t2 are exactly those under t1 whose percentage reaches t2, in the same order. |
| `DrawdownProperties.ThresholdMonotone` | drawdown_analysis.py:54-82 | For t1 <= t2, `Scan(s, t2)` is `Scan(s, t1)` filtered by percentage >= t2. It is therefore an order-preserving subsequence of `Scan(s, t1)`. |
| `DrawdownProperties.RecoveredDeclineScenario` | drawdown_analysis.py:54-70 | Prices 100, 90, 80, 95, 120 with threshold 10 give one event, peak 100, trough 80, 20%. Threshold 25 gives none. |
| `DrawdownProperties.UnrecoveredDeclineScenario` | drawdown_analysis.py:72-82 | Prices 100, 80 with threshold 5 give one event (peak 100, trough 80, 20%) from the final check. |

## Left out

- Data retrieval with `yf.download` and the cleaning `.dropna().sort_index()` (drawdown_analysis.py:45-46) are network and library calls. The model takes their result as its input sequence. It requires the sequence to be non-empty and its prices to be non-negative. Strictly increasing dates are required only by the ordering lemmas, since the scan itself never compares dates.
- An empty series makes the source fail with an index error at drawdown_analysis.py:49-50, which it does not handle. The model states this as the precondition `0 < |series|`.
- Prices are required to be non-negative. Then a trough below the peak implies a positive peak, so the division at drawdown_analysis.py:57 and 74 is defined. Negative prices are not modelled.
- Presentation is left out: `strftime` date strings, `round(..., 2)`, the `%` string, `pd.DataFrame` (drawdown_analysis.py:60-64, 77-81, 84), and the command-line parsing with HTML output (drawdown_analysis.py:86-97). Events keep raw dates, raw prices and the exact ratio.
- Floating-point rounding of prices and of the ratio is not modelled. Reals are used instead.
- All of tracker.py is left out. Logging setup, SMTP and config-file email, and the `__main__` glue are I/O. `last_drawdown` is a pandas `max`/`idxmax`/`iloc[-1]` wrapper around a network download. Its ratio uses the same formula as the final check, with the latest price in place of the trough.
- Idempotence (two scans of the same input agree) holds because `Scan` is a function, so no lemma states it.
- Input validation: the code validates nothing. It sorts the series itself (line 46) and accepts any threshold, negative included. The model does the same.

