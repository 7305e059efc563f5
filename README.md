# Hiking-trail metrics: a Dafny model

This project models the core of a pipeline that turns hiking-trail GPX
recordings into per-trail metrics and a difficulty class:

- **GPX ingestion** (`GpxReading`). Points lacking latitude, longitude or
  elevation are dropped. Timestamps are normalised to UTC, with an
  unparseable stamp kept as missing (NaT). The table is ordered by time,
  with missing times last. The elapsed real time runs from the first valid
  stamp to the last.
- **Trail metrics** (`TrailMetrics`):
  - geodesic distance, ignoring displacements under 1 m;
  - positive elevation gain, ignoring rises under 3 m;
  - active walking time, counting only the intervals whose speed lies
    between 0.5 and 7 km/h.
- **Time models** (`TimeModels`). Naismith's rule, and Tobler's hiking
  function floored at 0.1 km/h.
- **Per-trail analysis** (`TrailAnalysis`). The trail is named after its
  file. The origin, metrics, mean slope, both estimates and their errors
  against the real time are computed, then rounded for presentation.
- **Batch processing** (`BatchProcessing`). Every `.gpx` entry of a folder
  (in any letter case) is analysed. An entry whose analysis fails is
  reported and skipped.
- **Difficulty clustering** (`DifficultyClustering`). Only the rows with
  all three features present are clustered. Clusters are ranked by the sum
  of their centroid's coordinates, and the ranks are mapped to the labels
  "Leve" … "Extrema" (3, 4 or 5 of them).

`Sorting` holds the ordering used for `sort_values` and `argsort`: ascending,
with a missing key after every present one. `Foreign` holds the numeric
library functions the code calls: the ellipsoidal geodesic, exp, tan,
arctan and round. They are parameters of the model. Three ghost predicates
state the only facts about them that the proofs rely on:

- a geodesic length is never negative;
- exp is at most 1 on non-positive arguments;
- arctan maps 0 to 0 and the positive reals into (0, Pi/2], where `Pi` is
  numpy's double nearest π (for large arguments numpy returns exactly
  Pi/2).

Failures the code signals by exceptions are `Result` values in the model:

- `Unreadable`: the file cannot be opened or parsed;
- `EmptyTrack`: the `ValueError` raised for a file without valid points;
- `NoElapsedTime`: the `TypeError` from `None - float`;
- `NoCompleteRows`, `FitRejected`, `SilhouetteUndefined`: the `ValueError`s
  that StandardScaler, K-Means and the silhouette score raise on an empty
  sample, on fewer samples than clusters (or k < 1), and on a clustering
  that does not use between 2 and n - 1 distinct ids;
- `UnsupportedClusterCount`: the `ValueError` raised for an unsupported k.

Three behaviours of the code are worth stating on their own:

- A trail without two valid timestamps fails. `calcular_tempo_total_minutos`
  returns None, and `analisar_trilha` then subtracts a float from it
  (src/analise_trilha.py:72-73), which raises `TypeError`; the batch reports
  the trail and skips it. `Measure` models this as `NoElapsedTime`.
- Refining a ramp can lose elevation gain. Only steps of at least 3 m count
  (src/metricas_trilha.py:96), so `TrailMetrics.RefinedRampLosesGain` shows a
  6 m climb that counts fully as one step and not at all as three 2 m steps.
- The clustering writes the `cluster` column only on the complete rows
  (src/clustering_dificuldade.py:34). A table that already carried a
  `cluster` column keeps its old values on the incomplete rows, and those
  rows are labelled from them. `TrailTable.Classify` states this; the
  "incomplete rows get no label" property holds for a table without earlier
  clusters (`OnlyCompleteRowsLabelled`): on such a table the column `Classify`
  writes on success is, by its contract, `FreshDifficulty`.

## Model

| member | source | states |
|---|---|---|
| GpxReading.UtcSeconds | src/leitura_gpx.py:46 | a missing or unparseable time becomes NaT, and only those do; a parsed stamp becomes the UTC instant, its wall-clock time minus its offset |
| GpxReading.KeepMembers | src/leitura_gpx.py:23-36 | a row is kept exactly for the points with latitude, longitude and elevation present, whatever their time; nothing is kept exactly when no point is complete |
| GpxReading.KeepAppend | src/leitura_gpx.py:21-36 | the filter works point by point: filtering a concatenation is concatenating the filtered parts, so document order is kept |
| GpxReading.Keep | src/leitura_gpx.py:23-36 | the rows of the complete points, never more rows than points |
| GpxReading.Ingest | src/leitura_gpx.py:38-47 | the table is empty (ValueError) exactly when no point is complete; otherwise it has a time column, is non-empty, is a permutation of the kept rows and is ordered by time, with the rows without a time last and in document order |
| GpxReading.ReadGpx | src/leitura_gpx.py:5-49 | the loops over tracks, segments and points, the emptiness check and the sort compute exactly `Ingest` |
| GpxReading.UnparseableTimeKept | src/leitura_gpx.py:46 | `errors='coerce'`: a complete point with an unparseable time is kept, with a missing time |
| GpxReading.TimeOrderedPrefix | src/leitura_gpx.py:47 | every prefix of a time-ordered table is time-ordered |
| GpxReading.ValidTimes | src/leitura_gpx.py:62 | the valid times are exactly the present times of the rows, and there are no more of them than rows |
| GpxReading.ElapsedMinutes | src/leitura_gpx.py:52-70 | None exactly when there is no time column or fewer than two valid times |
| GpxReading.ValidTimesAppend | src/leitura_gpx.py:62 | dropna keeps order: the valid times of a concatenation are the concatenated valid times |
| GpxReading.ValidTimesCountPermutation | src/leitura_gpx.py:62-65 | the number of valid times does not depend on row order, so sorting does not change whether a real time exists |
| GpxReading.ValidTimesAscending | src/leitura_gpx.py:62-68 | on a time-ordered table the valid times are ascending, so the first and last are the earliest and latest |
| GpxReading.ElapsedNonNegative | src/leitura_gpx.py:67-70 | on a time-ordered table the elapsed time is never negative |
| TrailMetrics.TotalDistanceKm | src/metricas_trilha.py:50-77 | the loop's sum over consecutive pairs of the displacements at or above the threshold, in km; 0 for a table of at most one row |
| TrailMetrics.DistanceBounds | src/metricas_trilha.py:72-75 | the thresholded distance lies between 0 and the full path length |
| TrailMetrics.DistanceSplits | src/metricas_trilha.py:62-75 | the distance is additive: cutting the track at a shared row splits it into the distances of the two parts |
| TrailMetrics.DistanceAntitoneInThreshold | src/metricas_trilha.py:74 | raising the noise threshold never increases the distance |
| TrailMetrics.ElevationGainM | src/metricas_trilha.py:80-99 | the loop's sum of the rises of at least the threshold between consecutive altitudes |
| TrailMetrics.GainBounds | src/metricas_trilha.py:93-97 | for a non-negative threshold the gain lies between 0 and the total rise |
| TrailMetrics.NoRiseWhenNonIncreasing | src/metricas_trilha.py:93-97 | a non-increasing altitude profile has no rise at all |
| TrailMetrics.DescentGainsNothing | src/metricas_trilha.py:96-97 | a descent or a flat trail gains nothing |
| TrailMetrics.RefinedRampLosesGain | src/metricas_trilha.py:96-97 | one 6 m step counts 6 m, the same climb sampled as three 2 m steps counts 0 |
| TrailMetrics.ActiveTimeMin | src/metricas_trilha.py:7-48 | None exactly when there is no time column; otherwise the sum, rounded to 2 places, of the durations of the positive intervals between two timed rows whose speed lies in [vmin, vmax] |
| TrailMetrics.ActiveTimeBounds | src/metricas_trilha.py:27-46 | the active time lies between 0 and the total of the positive timed gaps |
| TrailMetrics.GapsTelescope | src/metricas_trilha.py:27-36 | on a time-ordered table the timed gaps add up to the span from the first to the last valid time |
| TrailMetrics.ActiveWithinElapsed | src/metricas_trilha.py:27-46 | on a time-ordered table the active time never exceeds the elapsed real time, and is 0 when there is no elapsed time |
| TimeModels.NaismithMin | src/modelos_tempo.py:3-12 | an hour per 5 km plus an hour per 600 m of gain is 12 min per km plus 1 min per 10 m |
| TimeModels.NaismithFlatTenKm | src/modelos_tempo.py:11-12 | 10 km on the flat take 120 minutes |
| TimeModels.NaismithMonotone | src/modelos_tempo.py:11-12 | more distance and more gain never take less time |
| TimeModels.ToblerSpeedKmh | src/modelos_tempo.py:29-35 | the speed is never below the 0.1 km/h floor |
| TimeModels.ToblerSpeedAtMostSix | src/modelos_tempo.py:32 | the speed never exceeds the 6 km/h peak of the curve |
| TimeModels.ToblerMin | src/modelos_tempo.py:18-39 | time × speed = 60 × distance; zero distance takes no time; a non-negative distance takes at most 600 min per km |
| TimeModels.ToblerTimeBounds | src/modelos_tempo.py:32-39 | a non-negative distance takes between 10 and 600 minutes per km |
| TrailAnalysis.MeanSlopeDeg | src/analise_trilha.py:22-31 | a non-positive distance gives a slope of 0 |
| TrailAnalysis.MeanSlopeRange | src/analise_trilha.py:27-31 | for a positive distance and a non-negative gain the slope lies in [0, 90], and is 0 exactly when there is no gain |
| TrailAnalysis.LastIndexOf | src/analise_trilha.py:43 | the index of the last occurrence of the character, -1 when it does not occur |
| TrailAnalysis.Basename | src/analise_trilha.py:43 | the basename has no '/', is a suffix of the path and is preceded there by a '/' unless it is the whole path |
| TrailAnalysis.LeadingDots | src/analise_trilha.py:43 | the length of the run of '.' that starts a name, which splitext does not treat as an extension |
| TrailAnalysis.StripExtension | src/analise_trilha.py:43 | splitext's root is a prefix of the name; it is the whole name exactly when no '.' follows a character other than '.'; otherwise it stops at the last '.' |
| TrailAnalysis.TrailName | src/analise_trilha.py:43 | the trail name has no '/' and is a prefix of the path's last component |
| TrailAnalysis.CutAtLastDot | src/analise_trilha.py:43 | when splitext cuts a name it cuts at the last '.', and what remains is not made of dots only |
| TrailAnalysis.TrailNameShape | src/analise_trilha.py:43 | the name is the whole basename exactly when the basename has no '.' after another character; otherwise it is the basename cut at its last '.', and not made of dots only |
| TrailAnalysis.TrailNameOfGpxPath | src/analise_trilha.py:43 | "d/Pico.gpx" is named "Pico" |
| TrailAnalysis.TrailNameOfDotName | src/analise_trilha.py:43 | "d/.gpx" is named ".gpx": a leading dot is not an extension |
| TrailAnalysis.MeasureTable | src/analise_trilha.py:49-73 | on an ingested table the measurement fails (TypeError) exactly when there is no elapsed time; otherwise the real time is non-negative and each error is real time minus estimate |
| TrailAnalysis.Measure | src/analise_trilha.py:34-73 | an unreadable file and a file without valid points fail with their own errors; a record is named after the path, has a non-negative real time and errors equal to real time minus estimate |
| TrailAnalysis.MeasureSucceedsIff | src/analise_trilha.py:46-73 | a trail is measured exactly when its file parses and at least two of its kept points have a valid time |
| TrailAnalysis.MeasureInputs | src/analise_trilha.py:49-55 | the origin is the first row of the time-ordered table; the distance, gain and real time are the metrics with thresholds 1 m and 3 m |
| TrailAnalysis.MeasureEstimates | src/analise_trilha.py:58-69 | the slope comes from distance and gain, Naismith from distance and gain, Tobler from distance and the mean slope |
| TrailAnalysis.EstimatesInRange | src/analise_trilha.py:58-69 | for a non-negative distance and gain Naismith is non-negative and Tobler lies between 10 and 600 min per km; with numpy's arctan the slope lies in [0, 90] and is 0 exactly without gain |
| TrailAnalysis.MeasureBounds | src/analise_trilha.py:49-69 | a successful analysis has non-negative distance, gain and Naismith time and a Tobler time of 10 to 600 min per km; with numpy's arctan its slope lies in [0, 90] |
| TrailAnalysis.Present | src/analise_trilha.py:75-87 | presentation keeps the trail's name |
| TrailAnalysis.PresentedErrors | src/analise_trilha.py:72-87 | the presented errors are the unrounded differences rounded to 2 places, not differences of rounded times; the name is unchanged |
| TrailAnalysis.AnalyseTrail | src/analise_trilha.py:34-87 | every failure of the measurement is the analysis's failure; a success is the measured record rounded for presentation and named after the path |
| BatchProcessing.Lower | src/processamento_lote.py:17 | lower-casing keeps the length and lower-cases each character |
| BatchProcessing.IsGpxName | src/processamento_lote.py:17 | an entry is selected exactly when its last four characters, lower-cased, are ".gpx" |
| BatchProcessing.Join | src/processamento_lote.py:18 | the joined path ends with the name; an absolute name replaces the folder; otherwise the path starts with the folder and adds one '/' only when the folder lacks a trailing one |
| BatchProcessing.GpxNameExamples | src/processamento_lote.py:17 | "X.GPX" is selected, "x.gpx.bak" is not |
| BatchProcessing.JoinedBasename | src/processamento_lote.py:16-18 | joining a listed name to the folder gives a path whose basename is that name, so the trail is named after the entry without its extension |
| BatchProcessing.AnalysedName | src/processamento_lote.py:18-21 | the record of a listed entry is named after the entry without its extension |
| BatchProcessing.ProcessFolder | src/processamento_lote.py:7-27 | the loop collects exactly the records of the successful `.gpx` entries, and reports exactly the failing ones, in listing order |
| BatchProcessing.BatchAccounting | src/processamento_lote.py:16-25 | every `.gpx` entry yields exactly one record or one reported failure, and other entries yield nothing |
| BatchProcessing.BatchAppend | src/processamento_lote.py:16-25 | the records of a listing are the records of its first part followed by those of the rest |
| BatchProcessing.FailingEntryIsolated | src/processamento_lote.py:20-25 | a failing or skipped entry leaves the records of all other entries exactly as without it |
| BatchProcessing.BatchRecordNames | src/processamento_lote.py:16-22 | when each analysis names its record after its entry, every record is named after a `.gpx` entry of the listing |
| BatchProcessing.FolderRecordNames | src/processamento_lote.py:16-22 | in a folder, every record is named after a `.gpx` entry of the listing, without its extension |
| DifficultyClustering.CompleteIndices | src/clustering_dificuldade.py:21 | the clustered rows are exactly the rows with all three features, in ascending order |
| DifficultyClustering.Vocabulary | src/clustering_dificuldade.py:51-73 | labels exist exactly for 3 to 5 clusters: k distinct labels from "Leve" to "Pesada" (k = 3) or "Extrema" |
| DifficultyClustering.Scores | src/clustering_dificuldade.py:47 | a cluster's score is the sum of its centroid's coordinates |
| DifficultyClustering.Range | src/clustering_dificuldade.py:76-77 | the cluster ids 0 to k-1 in order |
| DifficultyClustering.PositionOf | src/clustering_dificuldade.py:49 | a permutation lists every cluster id at some position |
| DifficultyClustering.RangeReordered | src/clustering_dificuldade.py:49 | a reordering of the ids 0 to k-1 lists each of them exactly once |
| DifficultyClustering.ArgSort | src/clustering_dificuldade.py:49 | argsort lists every cluster exactly once, by ascending score |
| DifficultyClustering.LabelMap | src/clustering_dificuldade.py:75-78 | the map's keys are exactly the clusters the order lists |
| DifficultyClustering.LabelMapAt | src/clustering_dificuldade.py:75-78 | the cluster ranked i-th gets the i-th label |
| DifficultyClustering.LabelMapBijective | src/clustering_dificuldade.py:49-78 | every cluster id below k gets a label, distinct clusters get distinct labels, and every label is used |
| DifficultyClustering.LabelsFollowScores | src/clustering_dificuldade.py:45-78 | a cluster with a lower score gets a lighter label than one with a higher score |
| DifficultyClustering.ExtremeClusters | src/clustering_dificuldade.py:45-78 | the cluster with the strictly lowest score is "Leve" and the one with the strictly highest score gets the heaviest label |
| DifficultyClustering.SortedPermutationUnique | src/clustering_dificuldade.py:49 | with distinct scores there is only one ascending order of the clusters |
| DifficultyClustering.Compose | src/clustering_dificuldade.py:49 | renaming the clusters of an order renames each entry |
| DifficultyClustering.ComposePermutation | src/clustering_dificuldade.py:49 | a renamed permutation of the clusters is a permutation |
| DifficultyClustering.PermutedDistinct | src/clustering_dificuldade.py:47 | renaming clusters keeps their scores distinct |
| DifficultyClustering.ArgSortRelabelled | src/clustering_dificuldade.py:45-49 | with distinct scores, renaming the clusters renames the argsort order |
| DifficultyClustering.RelabelledLabels | src/clustering_dificuldade.py:49-78 | with distinct scores, a renamed cluster gets the same label as before |
| DifficultyClustering.MapLabels | src/clustering_dificuldade.py:80 | a row gets a difficulty exactly when it has a cluster the map knows, and that difficulty is one of the map's labels |
| DifficultyClustering.UsedClusters | src/clustering_dificuldade.py:36-37 | the distinct cluster ids of a clustering, no more of them than samples |
| DifficultyClustering.Verdict | src/clustering_dificuldade.py:21-73 | the classification passes exactly when there are complete rows, K-Means accepts k, the silhouette score is defined and k is 3 to 5; it fails with NoCompleteRows exactly when no row is complete |
| DifficultyClustering.OneRowPerClusterRejected | src/clustering_dificuldade.py:32-37 | three complete rows in three clusters pass K-Means and make the silhouette score raise |
| DifficultyClustering.NoClusters | src/clustering_dificuldade.py:34 | a table without a cluster column has no cluster on any row |
| DifficultyClustering.ScatterClusters | src/clustering_dificuldade.py:34 | the clustered rows receive their cluster and every other row keeps its old value |
| DifficultyClustering.OnlyCompleteRowsLabelled | src/clustering_dificuldade.py:21-80 | on a table without earlier clusters, a row gets a difficulty exactly when its three features are present, and that difficulty is one of the labels |
| DifficultyClustering.ScatterRelabelled | src/clustering_dificuldade.py:34 | renaming the cluster ids renames the scattered cluster column |
| DifficultyClustering.MapLabelsRelabelled | src/clustering_dificuldade.py:80 | mapping renamed clusters through the renamed label map gives the same difficulties |
| DifficultyClustering.LabelColumnRelabelled | src/clustering_dificuldade.py:34-80 | renaming clusters, together with their scores, leaves the difficulty column unchanged |
| DifficultyClustering.RelabellingKeepsDifficulty | src/clustering_dificuldade.py:32-80 | with distinct centroid scores, a run of KMeans that numbers its clusters differently yields the same difficulty column |
| DifficultyClustering.TrailTable.constructor | src/clustering_dificuldade.py:13 | the table holds the features and the cluster and difficulty columns it is given |
| DifficultyClustering.TrailTable.Classify | src/clustering_dificuldade.py:21-80 | the outcome is the first failing check (empty sample, K-Means, silhouette, vocabulary); the cluster column is written on the complete rows once K-Means accepts the fit; on success the difficulty is the cluster mapped through the rank labels; on failure the difficulty column is unchanged |
| Sorting.Insert | src/leitura_gpx.py:47 | inserting into an ordered sequence keeps it ordered and adds exactly the element |
| Sorting.InsertBehindHead | src/leitura_gpx.py:47 | inserting behind a smaller head keeps the sequence ordered, with the same elements |
| Sorting.SortBy | src/leitura_gpx.py:47 | the result is ordered by key, missing keys last, and is a permutation of the input |
| Sorting.MissingKeyed | src/leitura_gpx.py:47 | the elements without a key, in order, never more than the input |
| Sorting.InsertMissingKeyed | src/leitura_gpx.py:47 | inserting an element without a key puts it before the keyless elements; inserting one with a key leaves them as they were |
| Sorting.SortByKeepsMissingOrder | src/leitura_gpx.py:47 | the sort keeps the elements without a key in their input order |
| Foreign.Radians | src/modelos_tempo.py:29 | converting degrees to radians and back gives the angle again |
| Foreign.Degrees | src/analise_trilha.py:31 | a radian angle in [0, Pi/2] is 0 to 90 degrees; 0 only for 0, and Pi/2 is exactly 90 |
| GpxReading.KeepPointStep | src/leitura_gpx.py:23-36 | one more point adds its row exactly when it is complete |
| GpxReading.SegmentStep | src/leitura_gpx.py:22 | the points of one more segment follow those of the earlier ones |
| GpxReading.TrackStep | src/leitura_gpx.py:21 | the points of one more track follow those of the earlier ones |
| TrailAnalysis.LastIndexOfAt | src/analise_trilha.py:43 | the last occurrence is at k when the character is at k and not after it |
| TimeModels.HoursWithinSpeedBand | src/modelos_tempo.py:35-38 | at a speed of at least 0.1 km/h a non-negative distance takes at most 10 h per km, and at most 6 km/h it takes at least 1/6 h per km |

## Left out

- Opening and parsing files is left out. The GPX XML parsing by `gpxpy` is
  not modelled: a file is the parsed `GpxFile` value, None when it cannot be
  opened or parsed. `load` maps a path to that value.
- The geodesic is a total function of two coordinates. geopy raises
  `ValueError` for a latitude beyond ±90° or a non-finite coordinate, so in
  the code such a trail fails and the batch skips it; the model measures it.
- The numeric library functions are parameters. These are geopy's geodesic
  and numpy's exp, tan, arctan and round. Floating point is modelled as
  exact reals, so no rounding error of the arithmetic itself is captured.
- The directory listing is a parameter (`entries`), in the order the
  operating system returns it. Paths use '/' only. Lower-casing covers the
  ASCII letters only.
- Sorting.SortBy: rows with equal timestamps keep their input order. pandas'
  default quicksort is not stable on equal keys, so for those rows only
  "ordered and a permutation" is promised. Rows without a timestamp are put
  last in their input order, as pandas does, and that is proved
  (`SortByKeepsMissingOrder`).
- DifficultyClustering.ArgSort: ties between equal scores are ordered by
  cluster id. numpy's default sort may order them otherwise.
- DifficultyClustering.RelabellingKeepsDifficulty: proved only for distinct
  centroid scores and a table without an earlier cluster column. With tied
  scores, the labels depend on the tie order.
- The numerics of StandardScaler, KMeans and the silhouette score are not
  modelled; only when each raises is (`Verdict`). The cluster assignment and
  the centroids are inputs of `Classify`. When KMeans accepts the fit it
  numbers its clusters 0 to k-1, one per complete row, with k centroids, and
  that is what `Classify` requires in that case.
- CSV reading and writing, and every `print`, are left out. The silhouette
  score's value is only printed; whether it can be computed is modelled
  (`SilhouetteDefined`). A failing batch entry's message is the
  `(entry, reason)` pair in `failures`.
- TrailMetrics.ActiveTimeMin: the speed test uses the geodesic through
  `lib` with exact real division. The code's `else 0` branch is unreachable
  after the `delta_t_h <= 0` guard and does not appear. The speed band is a
  parameter; the code's defaults are 0.5 and 7 km/h.
- `calcular_tempo_ativo_min` is not called by `analisar_trilha`. It is
  modelled on its own, over an ingested table.
- The geographic enrichment module, the scripts and `main.py` are not part
  of this model. The feature columns used by the clustering are produced
  outside the modelled core, and the model takes them as given.
