# Real-time price monitor: the rolling price window

The `App` component of the real-time price monitor keeps three pieces of
state: the current `price`, the `priceHistory` drawn by the line chart, and
the `timeLabels` under the chart's x axis. It mounts with one seed entry
(price 100 and the time of mounting). On every one-second timer tick it takes
a new price. It stores that price in `price`, then pushes the price onto
`priceHistory` and the current time string onto `timeLabels`. Both pushes use
the same rule: when the sequence already holds more than 20 entries, drop the
oldest one, then append. The view colours the change green when the newest
retained price is strictly above the oldest retained one (`isPriceUp`).

This project models that window and proves its behaviour:

- `Window.dfy` (module `Window`) holds the pure part. `PushBounded` is the
  shared updater rule. `AppendThenEvict` states the same rule with
  the append done first. `LastN` is a reference definition, "the last n
  entries". `Feed` runs the updater once per tick over a list of ticks. `Zip`
  pairs two sequences index by index. `IsPriceUp` is the trend predicate.
  The lemmas relate these definitions to each other.
- `App.dfy` (module `App`) holds the stateful part. The class
  `PriceMonitor` has the component's three state variables as fields. It
  also has two ghost logs of every price and time label seen since mount.
  The constructor is the mount. `Tick` is one timer firing.
  `Valid()` is the invariant that every tick preserves: each window is the
  21 most recent observations, the windows have equal length, they are never
  empty, and `price` is the newest history entry.

The new price and the time string are inputs to `Tick`. In the component
they come from `Math.random` and from the clock.

Prices are modelled as `real`, because the window logic only uses `>` and
equality on them. The source's floating-point rounding happens only in the
price generator and the percentage display, and neither is part of this
model.

The updater drops the oldest entry when the window already holds more than
20 entries, and then appends. An alternative description of the same window
appends first and drops the oldest entry once the result holds more than 21.
The two orderings are the same rule on every window, whatever its length
(`PushBoundedIsAppendThenEvict`). Both drop at most one entry per tick, and
only when the window is already full. The reference "the 21 most recent
entries" (`LastN`) instead cuts any sequence down to 21, several entries at
once if need be. On a window of at most 21 entries the update matches that
reference. This covers every window reachable from the seed
(`PushBoundedIsLastN`). On a window of 22 or more entries the two differ,
which is why `PushBoundedIsLastN` and `FeedIsLastN` require the window to
hold at most 21 entries.

On an empty history, `isPriceUp` would compare two missing entries in the
source, which gives false. `IsPriceUp` returns false there too. Every reachable
history is non-empty anyway (`PriceMonitor.Valid`).

## Model

| member | source | states |
|---|---|---|
| `Window.PushBounded` | src/App.tsx:65-77 | the updated window has the old length when the old one held more than 20 entries and one more otherwise; the new value is its last entry; when full, the rest is the old window without its oldest entry, in order; otherwise the old window is an unchanged prefix |
| `Window.PushBoundedIsAppendThenEvict` | src/App.tsx:65-70 | on every window of any length, dropping the oldest entry when more than 20 are held and then appending is the same as appending and then dropping the oldest entry when more than 21 are held |
| `Window.PushBoundedIsLastN` | src/App.tsx:65-70 | on any window of at most 21 entries, the update yields exactly the 21 most recent entries of the old window followed by the new value |
| `Window.FeedIsLastN` | src/App.tsx:61-79 | after any run of ticks from a window of at most 21 entries, the window is the 21 most recent entries of everything observed, oldest first |
| `Window.FeedFromSeed` | src/App.tsx:51-70 | from the one-entry seed the window is never empty and never longer than 21; after k ticks it holds k+1 entries until it reaches 21 and then stays at 21; its last entry is the latest tick's value |
| `Window.PushBoundedAligned` | src/App.tsx:65-78 | updating the price window and the label window separately by the shared rule gives equal lengths, and the same result as updating one window of (price, label) pairs |
| `Window.FeedAligned` | src/App.tsx:51-78 | after any run of ticks, the price window and the label window have equal length, and entry i of each comes from the same tick |
| `Window.IsPriceUp` | src/App.tsx:97-99 | the newest retained price is strictly above the oldest retained one; false on an empty history; a rising trend needs at least two entries, so the one-entry seed never shows one |
| `Window.TrendAfterPush` | src/App.tsx:97-99 | after a tick, the trend is up exactly when the new price exceeds the baseline that survives the tick: the oldest entry while the window fills, the second-oldest once it is full |
| `Window.SeedThenOneTick` | src/App.tsx:51-69 | from the seed 100, one tick at 101.23 gives the history [100, 101.23], and its trend is up |
| `App.PriceMonitor.Valid` | src/App.tsx:50-52 | a valid state has two windows of equal length between 1 and 21, and `price` is the last entry of the history; entry i of the price window and entry i of the label window are the price and the time label of the same tick in the observation logs |
| `App.PriceMonitor.constructor` | src/App.tsx:50-52 | mounting sets price 100, history [100], and a single time label, and establishes the invariant |
| `App.PriceMonitor.Tick` | src/App.tsx:61-79 | a tick sets `price` to the new price and updates both windows by the shared rule; the invariant is kept (equal lengths, between 1 and 21 entries, `price` equal to the last history entry, each window the 21 most recent observations); a full window stays full |
| `App.PriceMonitor.PriceUp` | src/App.tsx:97-99 | on a valid state, the trend is up exactly when the current price is strictly above the oldest retained price |

## Left out

- `generateNewPrice` (src/App.tsx:54-58): it uses `Math.random` and rounds the float with `toFixed(2)`. The new price is an input to `Tick` instead.
- `getChange` (src/App.tsx:101-103): it does floating-point division and string formatting, and a zero baseline gives a non-finite result. Modelling it would mean modelling floating-point semantics.
- The time label (`new Date().toLocaleTimeString()`, src/App.tsx:52, 73): this is clock and locale I/O. The label is an opaque string input.
- The timer (`setInterval`/`clearInterval`), and the recreation of the effect whenever `price` changes (src/App.tsx:60-82): this is framework scheduling. A tick is modelled as one call to `Tick`.
- Chart.js registration and options, the `data` object passed to the chart, and the JSX markup and styling (src/App.tsx:14-47, 84-95, 105-137): this is configuration of a foreign library and rendering. The alignment of chart labels with chart data is covered by `FeedAligned`.
- The three state setters are modelled as running one after another within a tick. React's batching of these updates is not modelled.
