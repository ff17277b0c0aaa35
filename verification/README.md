# city-mobility: a verified model of the map's data layer and time scrubber

This Dafny project models the logic of a browser map that shows time-stamped
points (timestamp, latitude, longitude, magnitude) as coloured hexagons. The map
lets the user scrub or animate through time. It covers the following pieces:

- **Ranking** (`getRankedDensity`). The records are sorted in place, stably, by
  magnitude with the largest first. Each record is then tagged with its 1-based
  position as its rank.
  - `StableSort` defines the reference stable descending sort.
  - It proves the sort ordered, a permutation and stable.
  - It proves that these three facts fix the result. Any stable sort, whatever
    algorithm the JavaScript engine uses, therefore gives the same array.
  - `Ranking.SortByMagnitude` is an in-place insertion sort over an `array`,
    proved equal to that reference.
- **Time range** (`getTimeRange`). This is a one-pass fold that starts from
  `[Infinity, -Infinity]`. `Bound` models the two infinities.
- **Time window** (`getFilteredData`). It keeps the records with
  `T - 900000 <= timestamp < T + 900000`, in order.
- **Colour** (`getLayerColor`). It computes the percentile
  `(N - (rank - 1)) / N * 100` as an exact `real`. It hides values outside
  `[0, 100]` and takes the first band of the 16-entry palette whose threshold is at
  or below the percentile.
- **Layer data** (`MapLayer`). For one filter time, the hexagon layer receives
  each shown record with its fill colour and elevation.
- **Scrubber** (`RangeController.Controller`). This is a class with:
  - the `isPlaying` flag;
  - `frameRef`;
  - the browser's outstanding animation frames (`pending`);
  - the log of `onChange` calls.

  Its methods model the render body, the play/pause button, a frame running, the
  slider and teardown.

Timestamps are whole milliseconds (`int`). Magnitudes and percentiles are exact
`real`s.

Where the specification and the code differ, the model follows the code:

- `getTimeRange` returns `null` only for absent data. An empty list gives the seed
  `[Infinity, -Infinity]`, not `null`.
- The scrubber wraps to `min` when `value + animationSpeed >= max`. So landing
  exactly on `max` also wraps, not only going past it.

## Model

| member | source | states |
|---|---|---|
| `StableSort.Insert` | src/Map.jsx:46 | one step of the reference sort: `x` goes after the last element whose key is at least its own (its position is pinned by `StableSort.InsertAt`) |
| `StableSort.SortDesc` | src/Map.jsx:82 | the reference stable sort, largest key first, as successive insertions; its meaning is given by the four lemmas below |
| `StableSort.SortDescSorted` | src/Map.jsx:82 | the sort's result is ordered by the key, largest first |
| `StableSort.SortDescPermutation` | src/Map.jsx:82 | the sort's result has the same elements as its input, each as often |
| `StableSort.SortDescStable` | src/Map.jsx:82 | elements with equal keys keep their input order |
| `StableSort.SortDescUnique` | src/Map.jsx:82 | any ordering that is sorted largest first and stable equals the reference sort |
| `StableSort.SortDescOfSorted` | src/Map.jsx:46 | sorting a list already in descending order leaves it unchanged |
| `Ranking.RankedOf` | src/Map.jsx:82 | the ranked list for the records: the sorted records, the i-th tagged with rank i + 1 (its properties are the `Ranking` lemmas below) |
| `Ranking.SortByMagnitude` | src/Map.jsx:82 | the array is reordered in place into the stable descending order of its old contents by magnitude |
| `Ranking.GetRankedDensity` | src/Map.jsx:81-85 | the input array is left sorted; the result is the ranked sorted records and their count N |
| `Ranking.RanksDense` | src/Map.jsx:82-84 | there are N ranked records, the i-th has rank i + 1, and their records are the sorted input |
| `Ranking.RankedByMagnitude` | src/Map.jsx:82 | a smaller rank never has a smaller magnitude |
| `Ranking.RankedPermutation` | src/Map.jsx:82 | the ranked records with `rank` dropped are a permutation of the input |
| `Ranking.RankedStable` | src/Map.jsx:82 | records of equal magnitude keep their input order in the ranking |
| `Ranking.RankOneIsLargest` | src/Map.jsx:82 | rank 1 holds a record whose magnitude is at least every input magnitude |
| `Ranking.RankOneIsFirstOfLargest` | src/Map.jsx:82 | among records tied for the largest magnitude, rank 1 goes to the first in input order |
| `Ranking.AnyStableSortAgrees` | src/Map.jsx:82 | any stable descending sort of the input is exactly what the ranking is built from |
| `Ranking.RankingExample` | src/Map.jsx:82 | magnitudes [5, 1, 3] get ranks 5 -> 1, 3 -> 2, 1 -> 3 |
| `TimeRange.MinWith` | src/Map.jsx:68 | `Math.min` of the accumulator and a timestamp: `-Infinity` stays `-Infinity`; `Infinity` gives the timestamp; a finite accumulator gives the smaller of the two, which stays finite |
| `TimeRange.MaxWith` | src/Map.jsx:69 | `Math.max` of the accumulator and a timestamp: `Infinity` stays `Infinity`; `-Infinity` gives the timestamp; a finite accumulator gives the larger of the two, which stays finite |
| `TimeRange.GetTimeRange` | src/Map.jsx:64-72 | null exactly for absent data; `[Infinity, -Infinity]` for an empty list; otherwise the smallest timestamp and the largest timestamp + TIME_GAP, each attained by a record and bounding all, so the end lies at least TIME_GAP beyond the start |
| `TimeFilter.InWindow` | src/Map.jsx:76-77 | the filter's test: T - 900000 <= timestamp < T + 900000 |
| `TimeFilter.GetFilteredData` | src/Map.jsx:75-78 | the result is no longer than the input and holds only records inside the half-open window |
| `TimeFilter.FilterMembers` | src/Map.jsx:77 | a record is in the result if and only if it is in the input and its timestamp is in the window |
| `TimeFilter.FilterCounts` | src/Map.jsx:77 | each record in the window is kept as often as it occurs in the input; every other record is dropped |
| `TimeFilter.FilterIsSubsequence` | src/Map.jsx:77 | the result is a subsequence of the input: input order is kept |
| `TimeFilter.FilterAppend` | src/Map.jsx:77 | filtering a concatenation is concatenating the filtered parts |
| `TimeFilter.FilterIdempotent` | src/Map.jsx:75-78 | filtering again with the same filter time changes nothing |
| `TimeFilter.FilterKeepsAll` | src/Map.jsx:77 | the filter returns its whole input if and only if every timestamp is in the window |
| `TimeFilter.WindowBoundaries` | src/Map.jsx:76-77 | a record at T - 900000 is kept and one at T + 900000 is dropped |
| `LayerColor.SortedColorPalette` | src/Map.jsx:46 | the palette sorted by threshold, largest first, with the reference stable sort |
| `LayerColor.SortedColorPaletteIsPalette` | src/Map.jsx:28-46 | sorting the palette by threshold leaves it as declared: 16 bands, the last with threshold 0 |
| `LayerColor.PaletteOpaque` | src/Map.jsx:28-45 | every palette colour has alpha 255 |
| `LayerColor.FindBand` | src/Map.jsx:58 | the band found is the first one whose threshold is at or below the percentile; none is found only when every threshold is above it |
| `LayerColor.FindBandIs` | src/Map.jsx:58 | the first band at or below the percentile is the one the search returns |
| `LayerColor.FindBandMonotone` | src/Map.jsx:46-58 | a higher percentile never selects a band at a later index |
| `LayerColor.GetLayerColor` | src/Map.jsx:48-61 | null or zero density gives transparent; otherwise a percentile outside [0, 100] gives transparent, and one inside gives the colour of the first palette band at or below it |
| `LayerColor.Percentile` | src/Map.jsx:54 | the percentile `(N - (rank - 1)) / N * 100` as an exact real; its bounds and order are the two lemmas below |
| `LayerColor.PercentileBounds` | src/Map.jsx:54 | for 1 <= rank <= N the percentile lies in (0, 100], and rank 1 gives exactly 100 |
| `LayerColor.PercentileAntitone` | src/Map.jsx:54 | a smaller rank never has a smaller percentile |
| `LayerColor.RankedDensityColor` | src/Map.jsx:53-58 | for non-zero density and 1 <= rank <= N the colour is never hidden: it is the first band at or below the percentile, and it is opaque |
| `LayerColor.RankOneIsWhite` | src/Map.jsx:54-58 | rank 1 with non-zero density gives [255, 255, 255, 255] |
| `LayerColor.BetterRankNoLaterBand` | src/Map.jsx:54-58 | for ranks 1 <= r1 <= r2 <= N, r1's band index is at most r2's |
| `LayerColor.ThreeRecordColors` | src/Map.jsx:54-58 | with N = 3, ranks 1, 2, 3 (percentiles 100, 66.7, 33.3) give white, the 61 band and the 33 band |
| `MapLayer.LayerCells` | src/Map.jsx:104-116 | the layer gets one cell per record in the time window, in order, with elevation equal to the magnitude |
| `MapLayer.ShownCellsColoured` | src/Map.jsx:104-116 | every shown cell is a ranked record with rank in 1..N; zero magnitude is transparent, any other magnitude gets its opaque palette colour |
| `RangeController.NextTime` | src/RangeController.jsx:16-17 | the time a frame moves to: either exactly min, or value + animationSpeed when that is still below max |
| `RangeController.NextTimeWraps` | src/RangeController.jsx:16-17 | when value + animationSpeed >= max, the next time is exactly min |
| `RangeController.NextTimeAdvances` | src/RangeController.jsx:16-17 | otherwise the next time is exactly value + animationSpeed |
| `RangeController.NextTimeInRange` | src/RangeController.jsx:16-17 | with min <= value, animationSpeed > 0 and min < max, the next time lies in [min, max) |
| `RangeController.MapStepAtMax` | src/Map.jsx:138 | the map's step is 120000 ms, and a step from max wraps to min |
| `RangeController.Controller.constructor` | src/RangeController.jsx:7-9 | the controller starts paused, with no frame requested and no onChange sent |
| `RangeController.Controller.Render` | src/RangeController.jsx:15-22 | while playing, a render requests one frame carrying the next time and records its handle in frameRef; while paused, nothing changes; earlier frames are not cancelled |
| `RangeController.Controller.Toggle` | src/RangeController.jsx:26 | the button flips isPlaying and changes nothing else |
| `RangeController.Controller.RunFrame` | src/RangeController.jsx:19-21 | a frame that runs sends its time to onChange, and the time becomes the new value; the frame is no longer pending |
| `RangeController.Controller.Slide` | src/RangeController.jsx:35 | the slider's value goes to onChange unchanged |
| `RangeController.Controller.Teardown` | src/RangeController.jsx:11-13 | unmounting cancels the frame frameRef names, so that frame can never send |
| `RangeController.StaleFrameAfterPause` | src/RangeController.jsx:15-26 | as written, a frame requested before a pause still sends its time after the pause |
| `RangeController.Controller.RenderCancelling` | src/RangeController.jsx:15-22 | corrected render: the outstanding frame is cancelled first, so only frameRef's frame can be pending, and none while paused; while playing one new frame gets the next handle, while paused frameRef and the handle counter are unchanged |
| `RangeController.Controller.ToggleCancelling` | src/RangeController.jsx:26 | corrected button: pausing cancels the outstanding frame, so nothing is pending while paused |
| `RangeController.NoFrameAfterPause` | src/RangeController.jsx:15-26 | in the run play, render, pause, render with the corrected render and button, nothing is pending after the pause (the general fact is `ToggleCancelling`'s `!isPlaying ==> pending == map[]`) |

## Findings

| source | as written | input that shows it | evidently intended | confidence | as-written member | corrected member |
|---|---|---|---|---|---|---|
| src/RangeController.jsx:15-26 | Pausing only stops new frame requests. The frame requested by the last render while playing is never cancelled, so it still calls `onChange` after the pause. | min 0, max 1800000, value 0, speed 120000. Press play and render; press pause and render. The outstanding frame then runs and sends 120000. | Once paused, the animation sends nothing more. | medium, not executed | `RangeController.StaleFrameAfterPause` | `RangeController.Controller.ToggleCancelling` |

## Left out

- Rendering is not modelled: DeckGL, the map tiles, the `H3HexagonLayer` options and the JSX markup (src/Map.jsx:104-146).
- `geoToH3`, the hexagon id of each cell, is foreign library code. `MapLayer.LayerCells` carries each record, not its cell id.
- React's `useMemo`/`useState`/`useEffect` scheduling is not modelled:
  - the reset of the filter time to the range start (src/Map.jsx:88-94);
  - the guard that hides the controller while the filter time is `Infinity` or falsy (src/Map.jsx:132).
- Browser scheduling is not modelled. Nothing says when the browser runs a frame or when React re-renders. The controller's methods can be called in any order their preconditions allow.
- The controller's `min` and `max` are fixed for its lifetime. A new dataset arriving while mounted is not modelled.
- Date display formatting with `toLocaleString` (src/Map.jsx:96-102) is locale-dependent library code.
- src/index.js is not part of this model: the HTTP fetch, the CSV parse, `Date` and `Number` parsing, and the root render.
- IEEE-754 behaviour is left out:
  - NaN magnitudes;
  - `-0`;
  - the rounding of the percentile at a band threshold;
  - infinities other than the time-range seed.

  Magnitudes and percentiles are exact reals.
- `LayerColor.GetLayerColor`: requires a non-zero dataset size for a non-zero density. In the source, N = 0 at rank 1 computes 0 / 0 = NaN, every comparison fails, and `find` returns `undefined`, whose `.rgba` throws; at any other rank it computes ±Infinity, which falls outside [0, 100] and gives `[0, 0, 0, 0]`. The map only calls the function with a record present, so the size is never zero there.
- `RangeController.Controller.Slide`: takes a value between `min` and `max`. The slider widget's clamping and its 1-hour step snapping are library code.
- `Ranking.SortByMagnitude`: the engine's sort algorithm is not visible. The model sorts by stable insertion. `Ranking.AnyStableSortAgrees` shows that every stable sort gives the same array.
- The spread `{...el, rank}` is modelled as the pair `Ranked(record, rank)`.
