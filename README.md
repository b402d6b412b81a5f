# Cylinder history reconciliation, modelled in Dafny

The monitoring dashboard of the Festo digital twin polls a history service for
two proximity sensors per pneumatic cylinder: the "advanced" (extended) sensor
and the "retracted" sensor. Every three seconds the `CylinderHistoryChart`
component reconciles the two histories into one three-valued position series
and merges it into a rolling window of at most 20 chart points. This project
models that reconciliation and that window, and proves what they guarantee.

Files, one module each:

- `wrappers.dfy` (`Wrappers`): the `Option` type.
- `readings.dfy` (`Readings`): raw samples `{ts, valor}`, the position
  (`Extended`, `Retracted`, `Undefined`; plotted as 1, 0 and 0.5) and the
  reconciled points, plus the timestamp predicates both stages share.
- `reconcile.dfy` (`Reconciler`): stage one. It builds the distinct timestamp
  strings of both histories in `Set` insertion order. At each one it finds the
  first sample of each history and derives the position: an extended reading
  of 1 wins, then a retracted reading of 1, else undefined. It then drops the
  points whose timestamp does not parse.
- `window.dfy` (`RollingWindow`): stage two, the `setData` updater. New points
  whose timestamp string is already in the window are skipped. The rest are
  appended, the whole is sorted by parsed instant and the last 20 are kept.
- `chart.dfy` (`HistoryChart`): the component's `data` state as a class with
  a `window` field and a `Tick` method.
- `axis.dfy` (`AxisLabels`): the value-axis labels (`formatYAxis`).

Timestamps stay strings. `new Date(ts).getTime()` is a parameter
`parse: string -> Option<int>`, where `None` stands for NaN. Deduplication
compares strings. Ordering compares parsed instants through the comparator
`new Date(a.ts) - new Date(b.ts)`. A NaN difference counts as "equal", as the
JavaScript array sort treats it. That sort is stable (guaranteed since ES2019),
so the model sorts by an insertion sort, and `RollingWindow.SortStable` proves
it stable. Two different strings can denote the same instant, so
strings and instants are kept apart throughout.

Where the code and the obvious expectation differ:

- Merging is not idempotent. Two distinct strings for one instant, with the
  earlier one evicted by the first merge, trade places on a second merge of
  the same points (`RollingWindow.MergeNotIdempotent`). It is idempotent when
  the first merge evicted nothing (`RollingWindow.MergeTwiceWithoutEviction`).
- The merge filters new points only against the old window, not against each
  other. A batch with a repeated timestamp would add both points. The
  reconciled batch never repeats one (`Reconciler.Reconcile`), so the window
  stays duplicate-free (`HistoryChart.CylinderHistory.Valid`).
- The window size 20 and the three-second period are constants in the code,
  not configuration.

## Model

| member | source | states |
|---|---|---|
| `Reconciler.Dedup` | src/componentes/Dashboard/index.js:18-21 | the result holds exactly the strings of the input, none twice, in the order of their first occurrences |
| `Reconciler.AllTimestamps` | src/componentes/Dashboard/index.js:18-21 | the union of both histories' timestamp strings, each once |
| `Reconciler.FirstAt` | src/componentes/Dashboard/index.js:25-26 | `find` returns nothing iff no sample carries the timestamp; otherwise a sample at some index that carries it, with no earlier sample carrying it |
| `Reconciler.KeepValid` | src/componentes/Dashboard/index.js:37-41 | a point is kept iff its timestamp parses; distinct timestamps stay distinct |
| `Reconciler.Reconcile` | src/componentes/Dashboard/index.js:18-41 | at most one point per timestamp string; every point's timestamp parses; the timestamps are exactly the valid ones found in either history; each position derives from the first sample of each history there |
| `Reconciler.ReconciledPosition` | src/componentes/Dashboard/index.js:25-34 | the position derived at a timestamp (the one `Reconciler.Reconcile` gives its point) is extended iff the extended sensor's first sample there reads 1, whatever the retracted one says; retracted iff not that and the retracted sensor's first sample there reads 1; undefined iff neither (a missing sample, a 0, or a later duplicate reading 1 does not count) |
| `Reconciler.Derive` | src/componentes/Dashboard/index.js:27-34 | the sensor precedence (extended reading 1 wins, then retracted reading 1, else undefined); no contract of its own, characterised by `Reconciler.ReconciledPosition` |
| `Readings.Position.Valor` | src/componentes/Dashboard/index.js:27-33 | the plotted value lies in [0, 1]; which value each position gets (1, 0, 0.5) is pinned by `AxisLabels.PositionLabels` |
| `RollingWindow.Compare` | src/componentes/Dashboard/index.js:51 | the comparator `new Date(a.ts) - new Date(b.ts)`, with a NaN difference counted as 0; no contract of its own, characterised through `RollingWindow.NotAfterTransitive` and the sort lemmas |
| `RollingWindow.Insert` | src/componentes/Dashboard/index.js:51 | one step of the sort; no contract of its own, characterised by `RollingWindow.InsertPermutes`, `RollingWindow.InsertChronological` and `RollingWindow.InsertStable` |
| `RollingWindow.SortByInstant` | src/componentes/Dashboard/index.js:51 | `.sort` with that comparator; no contract of its own, characterised by `RollingWindow.SortPermutes`, `RollingWindow.SortChronological` and `RollingWindow.SortStable` |
| `RollingWindow.NewOnly` | src/componentes/Dashboard/index.js:45-46 | a new point survives iff its timestamp string is not in the old window; distinct inputs give distinct outputs |
| `RollingWindow.InsertPermutes` | src/componentes/Dashboard/index.js:51 | insertion adds exactly the one point |
| `RollingWindow.SortPermutes` | src/componentes/Dashboard/index.js:51 | the sort is a permutation of its input |
| `RollingWindow.InsertChronological` | src/componentes/Dashboard/index.js:51 | inserting a valid point into a sorted window keeps it sorted |
| `RollingWindow.SortChronological` | src/componentes/Dashboard/index.js:51 | when every timestamp parses, the sort is non-decreasing by instant |
| `RollingWindow.SortDistinct` | src/componentes/Dashboard/index.js:51 | sorting keeps timestamp strings distinct |
| `RollingWindow.SortOfChronological` | src/componentes/Dashboard/index.js:51 | the sort leaves an already sorted sequence unchanged |
| `RollingWindow.InsertStable` | src/componentes/Dashboard/index.js:51 | among the points at any one instant, insertion puts the inserted point first and keeps the others in their order |
| `RollingWindow.SortStable` | src/componentes/Dashboard/index.js:51 | the sort is stable: for every instant, the points at that instant come out in the order they went in |
| `RollingWindow.MergeStable` | src/componentes/Dashboard/index.js:44-54 | for every instant, the merged points at that instant are the last ones of the old window's points there followed by the unseen new ones, in that order; this decides which of two tied points is evicted |
| `RollingWindow.Merge` | src/componentes/Dashboard/index.js:44-54 | the merged window has at most 20 points, each from the old window or the new points |
| `RollingWindow.MergeChronological` | src/componentes/Dashboard/index.js:51 | the merged window is non-decreasing by parsed instant and holds only valid timestamps |
| `RollingWindow.MergeDistinct` | src/componentes/Dashboard/index.js:45-51 | if the old window and the new points each repeat no timestamp string, neither does the merged window |
| `RollingWindow.MergeKeepsExisting` | src/componentes/Dashboard/index.js:45-48 | a merged point stamped like an old point is that old point: its position is never overwritten |
| `RollingWindow.MergeKeepsLatest` | src/componentes/Dashboard/index.js:48-51 | the window keeps min(combined size, 20) points drawn from the old window plus the unseen new points, and every dropped point is not after any kept point |
| `RollingWindow.MergeKnownIsIdentity` | src/componentes/Dashboard/index.js:45-51 | re-observing only timestamps already in a sorted window leaves it unchanged |
| `RollingWindow.MergeTwiceWithoutEviction` | src/componentes/Dashboard/index.js:44-54 | when the first merge evicts nothing, merging the same points again changes nothing |
| `RollingWindow.MergeLatestPoint` | src/componentes/Dashboard/index.js:48-51 | a new point not before anything is appended; in a full window the earliest point is evicted and the size stays 20 |
| `RollingWindow.MergeIntoEmpty` | src/componentes/Dashboard/index.js:44-54 | from an empty window, a sorted batch is kept up to its last 20 points |
| `RollingWindow.MergeNotIdempotent` | src/componentes/Dashboard/index.js:44-54 | with two strings for one instant, a second merge of the same batch swaps the kept point for the evicted one |
| `HistoryChart.CylinderHistory.constructor` | src/componentes/Dashboard/index.js:6 | a chart starts with an empty window that satisfies the window invariant |
| `HistoryChart.CylinderHistory.Tick` | src/componentes/Dashboard/index.js:10-58 | if either fetch fails the error is reported and the window is unchanged; otherwise the window becomes the merge of the reconciled points; the window invariant (bounded, valid, distinct, sorted) is kept |
| `AxisLabels.FormatYAxis` | src/componentes/Dashboard/index.js:72-77 | a tick gets a non-empty label iff it is 1, 0 or 0.5 (which label each gets is stated by `AxisLabels.PositionLabels`) |
| `AxisLabels.LabelsDistinguishPositions` | src/componentes/Dashboard/index.js:72-77 | every position plots at a labelled tick, and different positions get different labels |
| `AxisLabels.PositionLabels` | src/componentes/Dashboard/index.js:72-77 | with the values 1, 0 and 0.5 that lines 27-33 plot for extended, retracted and undefined, an extended point is labelled "Avançado", a retracted one "Recuado" and an undefined one "Indefinido" |

## Left out

- React rendering, JSX, `useState`/`useEffect` wiring and the recharts configuration: these are UI.
- `fetch`, `res.json()` and the service URLs: network I/O. A fetch is an `Option` given to `Tick`. `None` covers a transport failure and a payload that is not a history.
- `Promise.all` ordering: both results are given to `Tick` together. `setInterval`/`clearInterval`, the initial call on mount and overlapping ticks are timers and concurrency. Each `Tick` runs to completion.
- `new Date` and `toLocaleTimeString`, including the X-axis tick formatter: a foreign library. The parser is a parameter.
- `console.error`: only the fact that the error path was taken is modelled, as `Tick`'s `reported` result.
- The status poller in `Dashboard` and its colour mapping: it copies two strings from a payload and has no logic to verify.
- `src/App.js`: page composition.
- Payload fields of other types (a `ts` that is not a string, a `valor` that is not an integer): samples are `(string, int)`.
- RollingWindow.SortByInstant: a window that holds an unparseable timestamp has an implementation-defined order in JavaScript, because the comparator is then inconsistent. The model fixes one order. Sortedness is proved only when every timestamp parses, which the window invariant guarantees.
- RollingWindow.MergeDistinct: requires the new points to be distinct as well, because the merge itself does not deduplicate within a batch.
- Reconciler.Reconcile: the contract does not state the order of the reconciled points. The function keeps the first-occurrence order of `Reconciler.Dedup`, which can matter for ties in the stable sort.
