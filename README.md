# mapsheat core in Dafny

A model of the logic behind the mapsheat urban heat-island dashboard, with proofs about it. It covers three parts.

- **Hotspot detection** (`data_processing.dfy`, `dbscan.dfy`, `dbscan_algorithm.dfy`, `geo.dfy`):
  - Community temperature reports are filtered by a threshold.
  - The surviving (latitude, longitude) points are clustered with DBSCAN. Distance is planar Euclidean in degrees, compared as squared distance against `eps*eps`.
  - Noise is dropped.
  - Each cluster is summarised by the mean latitude, longitude and temperature of its members. Its severity (Moderate, High or Extreme) comes from the unrounded mean. The displayed temperature is that mean rounded to one decimal.
  - The same file models the generator of synthetic points in a disk around a city centre. The generator has a 20-city table with a New York fallback.
- **Report store** (`reports.dfy`):
  - The session's community reports are a class holding a sequence. `AddCommunityReport` appends one record to it.
  - Each record is stamped with the clock reading in `YYYY-MM-DD HH:MM:SS` form, and the reporter defaults to "Anonymous".
- **Map helpers** (`visualization.dfy`):
  - The five temperature colour bands of the colour-coded map.
  - The map-centre fallbacks of both maps.
  - The heat-layer point list. It holds one point per report. When there are fewer than ten reports, twenty simulated points follow, drawn around the weather reply's city.

DBSCAN is modelled directly, in the two layers below.

- **Specification** (`Dbscan.IsClustering`), stated over the `eps`-neighbourhood graph:
  - every point is noise or carries an id in `0 .. clusters-1`;
  - a point within `eps` of a core point is never noise;
  - core points within `eps` of each other share an id;
  - a clustered point takes the least id among the core points within `eps` of it;
  - ids are numbered in index order of each cluster's first core point;
  - every id has a core root from which each of its members is density-reachable.

  These conditions admit exactly one labelling of a given list of points (`Dbscan.ClusteringUnique`), so the hotspot table is determined by the reports.
- **Imperative labelling** (`DbscanAlgorithm.Cluster`), proved against that specification:
  - the neighbourhood matrix and core flags are computed first, with neighbourhoods including the point itself;
  - a label array is updated in place;
  - clusters are grown from a stack of seeds, starting a new cluster at each unlabelled core point in index order.

Randomness, the clock and the weather reply are inputs:
- the disk sampler's draws are `DiskSample` values;
- the temperature variations are a `seq<real>`;
- the clock reading is a `DateTime`;
- the weather reply is a `Weather` value with optional fields.

Two behaviours of the code worth noting:
- An empty report collection gives `None`, not an empty table (`utils/data_processing.py:20-21`).
- Simulated heat intensities lie in `[temp-2, temp+3)`, as `uniform(-2, 3)` added to the base temperature gives (`utils/visualization.py:45-50`).

## Model

| member | source | states |
|---|---|---|
| Geo.WithinSymmetric | utils/data_processing.py:33 | the `eps`-neighbour relation is symmetric |
| Geo.WithinSelf | utils/data_processing.py:13-14 | every point lies in its own neighbourhood |
| Dbscan.CountTrueIsSetSize | utils/data_processing.py:13-14 | counting a neighbour row gives the size of the set of neighbour indices |
| Dbscan.NearMatrixMeaning | utils/data_processing.py:13-14 | the matrix entry is true iff the two points are within `eps`; the core flag is set iff the neighbourhood (self included) has at least `min_samples` points |
| DbscanAlgorithm.NeighbourMatrix | utils/data_processing.py:33 | the loop builds exactly the neighbourhood matrix of the points |
| DbscanAlgorithm.NeighbourCount | utils/data_processing.py:33 | the loop counts exactly the neighbours in a row |
| Dbscan.FreshNeighboursMembers | utils/data_processing.py:33 | a point is among the fresh neighbours of a core point exactly when it is an unlabelled neighbour of it |
| Dbscan.VisitLabelsMeaning | utils/data_processing.py:33 | visiting a core point gives the current cluster id to exactly its unlabelled neighbours and changes no other label |
| DbscanAlgorithm.VisitNeighbours | utils/data_processing.py:33 | each unlabelled neighbour of the core point gets the current cluster id and every other label stays as it was; the stack gains exactly those neighbours, after the points already on it and in index order. The book-keeping holds afterwards: every labelled point stays reachable from its cluster's seed, only points on the stack may still have unfinished neighbours, and no point carries a larger id than a clustered core neighbour. Either fewer points are unlabelled, or nothing changed |
| DbscanAlgorithm.ExpandCluster | utils/data_processing.py:33 | grows one cluster from its seed until the stack is empty. Afterwards every labelled core point's neighbours are labelled, core ones with the same id. Every labelled point is reachable from its cluster's seed, no point carries a larger id than a clustered core neighbour, earlier labels stay, and every other point is unchanged or carries the new id |
| Dbscan.ReachedLabelled | utils/data_processing.py:33 | once every labelled core point has all its neighbours labelled, the end of a density path from a labelled point is labelled |
| Dbscan.GrownCluster | utils/data_processing.py:33 | when a cluster is grown to completion from a seed, the new id is carried by exactly the points that were unlabelled and are density-reachable from the seed |
| DbscanAlgorithm.GrowCluster | utils/data_processing.py:33 | starting a new cluster at an unlabelled core point and growing it gives the new id to exactly the points that were unlabelled and are density-reachable from that point; labels already set stay; the scan's book-keeping holds for the next point |
| DbscanAlgorithm.LabelGraph | utils/data_processing.py:33 | the labelling of the whole graph satisfies the DBSCAN clustering specification, including least ids for border points and ids numbered in index order |
| DbscanAlgorithm.Cluster | utils/data_processing.py:29-36 | the labels computed for the points form a DBSCAN clustering with radius `eps` and core threshold `min_samples`: border points take the least id among their core neighbours' clusters, and ids are numbered in index order of each cluster's first core point |
| Dbscan.CoreNeverNoise | utils/data_processing.py:13-14 | a point with at least `min_samples` points within `eps` is never noise |
| Dbscan.NearCoresShareCluster | utils/data_processing.py:33 | two core points within `eps` of each other get the same non-noise id |
| Dbscan.NoiseIffNoCoreNeighbour | utils/data_processing.py:39 | a point is noise exactly when no core point lies within `eps` of it |
| Dbscan.AllNoiseNoClusters | utils/data_processing.py:39-43 | if every point is noise there are no clusters |
| Dbscan.ClusterIdsInUse | utils/data_processing.py:46-50 | every cluster id below the count is carried by some core point |
| Dbscan.PathInCluster | utils/data_processing.py:33 | along a density path from a core point, the last core point carries the start's id |
| Dbscan.BorderTakesLeastId | utils/data_processing.py:33 | a clustered point has a core point within `eps` carrying its id, and no core point within `eps` carries a smaller id |
| Dbscan.ClusterIdsFollowIndexOrder | utils/data_processing.py:33 | if core point `p` has a smaller id than core point `q`, some core point of `p`'s cluster comes before `q` in index order |
| Dbscan.CorePathSameId | utils/data_processing.py:33 | a core point reached along a density path from a core point carries the start's id |
| Dbscan.SameCoreGrouping | utils/data_processing.py:33 | two core points that share an id in one clustering of the graph share an id in every other |
| Dbscan.ClusteredAgrees | utils/data_processing.py:33 | a point clustered by one clustering of the graph is clustered by every other |
| Dbscan.GraphClusteringUnique | utils/data_processing.py:33 | on a graph where every point neighbours itself, two clusterings have the same labels and the same cluster count |
| Dbscan.ClusteringUnique | utils/data_processing.py:29-36 | two DBSCAN labellings of the same points for the same `eps` and `min_samples` are identical, cluster count included |
| Dbscan.NoNoiseWhenMinSamplesOne | utils/data_processing.py:13-14 | with `min_samples` at most 1 no point is noise |
| Reports.Pad | utils/api_handlers.py:122 | a zero-padded field has exactly its width, all digits |
| Reports.PadRoundTrip | utils/api_handlers.py:122 | the padded digits read back as the number |
| Reports.FormatTimestamp | utils/api_handlers.py:122 | the timestamp is 19 characters with '-' at 4 and 7, ' ' at 10, ':' at 13 and 16, digits elsewhere |
| Reports.TimestampRoundTrip | utils/api_handlers.py:122 | parsing the timestamp gives back the clock reading |
| Reports.ReportStore.AddCommunityReport | utils/api_handlers.py:102-131 | the store grows by exactly one; earlier reports are unchanged and in order; the new last record carries the arguments and the formatted clock reading; the call returns true |
| Reports.AddAnonymousReport | utils/api_handlers.py:102 | a report added without a reporter is appended as the record of its arguments, the formatted clock reading and reporter "Anonymous"; earlier reports are unchanged |
| DataProcessing.CalculateSeverity | utils/data_processing.py:53-59 | Extreme iff mean >= 35, High iff 32 <= mean < 35, Moderate iff mean < 32 |
| DataProcessing.SeverityMonotone | utils/data_processing.py:53-59 | a hotter mean is never given a lower severity |
| DataProcessing.Round1 | utils/data_processing.py:62 | the rounded temperature is a whole number of tenths within 0.05 of the mean |
| DataProcessing.RoundedDisplayCanHideSeverityBand | utils/data_processing.py:59-62 | a mean of 34.96 is displayed as 35.0 yet is High, because severity is taken before rounding |
| DataProcessing.HighTemperatureReports | utils/data_processing.py:24 | a report is kept iff it is in the input and at or above the threshold; never more reports than the input |
| DataProcessing.HighTemperatureReportsCounts | utils/data_processing.py:24 | each report at or above the threshold is kept as many times as it occurs in the input; any other report not at all |
| DataProcessing.HighTemperatureReportsAppend | utils/data_processing.py:24 | filtering two lists one after the other gives the filtered first list followed by the filtered second, so the input order is kept |
| DataProcessing.HighTemperatureReportsSingle | utils/data_processing.py:24 | a single report is kept exactly when its temperature reaches the threshold |
| DataProcessing.HighTemperatureReportsIdempotent | utils/data_processing.py:24 | filtering the kept reports again with the same threshold changes nothing |
| DataProcessing.ClusterSizePositive | utils/data_processing.py:46-50 | a cluster id carried by some report has a non-zero member count |
| DataProcessing.ClusterSumAtLeast | utils/data_processing.py:46-50 | a cluster's sum is at least its size times a lower bound on its members |
| DataProcessing.ClusterSumAtMost | utils/data_processing.py:46-50 | a cluster's sum is at most its size times an upper bound on its members |
| DataProcessing.ClusterMeanAtLeast | utils/data_processing.py:46-50 | a cluster whose members all reach a bound has a mean of at least that bound |
| DataProcessing.ClusterMeanBounds | utils/data_processing.py:46-50 | a cluster mean lies between any bounds on exactly that cluster's members |
| DataProcessing.IdentifyHotspots | utils/data_processing.py:7-64 | `None` iff there are no reports; an empty table when fewer than `min_samples` reports qualify or all are noise; otherwise the table summarises a DBSCAN clustering of exactly the qualifying reports, and it is the only table that does, so repeated calls on the same reports give the same table |
| DataProcessing.HotspotTableUnique | utils/data_processing.py:24-62 | two hotspot tables of the same qualifying reports, `eps` and `min_samples` are equal, with equal labels and cluster counts |
| DataProcessing.OneHotspotPerCluster | utils/data_processing.py:39-50 | one row per cluster id; every non-noise report's id indexes a row; every row has a member |
| DataProcessing.HotspotTemperatures | utils/data_processing.py:24-62 | each row's mean temperature is at least the threshold; the shown temperature is within 0.05 of it; the severity bands follow the unrounded mean |
| DataProcessing.RowTemperature | utils/data_processing.py:53-62 | a row's unrounded mean is at least the threshold; its shown temperature is within 0.05 of that mean; its severity is that of the mean |
| DataProcessing.CentroidInBoundingBox | utils/data_processing.py:46-50 | each row's position lies in the bounding box of its cluster's members |
| DataProcessing.ExampleFilter | utils/data_processing.py:24 | in the worked example only the three New York reports reach 30 degrees |
| DataProcessing.ExampleGraph | utils/data_processing.py:33 | in the worked example the three points are mutual `eps`-neighbours and all core |
| DataProcessing.ExampleSingleCluster | utils/data_processing.py:33 | in the worked example the three points form one cluster, id 0 |
| DataProcessing.CompleteGraphSingleCluster | utils/data_processing.py:33 | points that are all core and all mutually adjacent form exactly one cluster, every point labelled 0 |
| DataProcessing.ExampleMeans | utils/data_processing.py:46-50 | the worked example's cluster has 3 members, mean position (40.701, -74.001) and mean temperature 35.0 |
| DataProcessing.ExampleHotspot | utils/data_processing.py:7-64 | any table the detector may return for the worked example is the single row (40.701, -74.001, 35.0, Extreme) |
| DataProcessing.UnknownCityIsNewYork | utils/data_processing.py:103-107 | a city not in the table resolves to New York's centre |
| DataProcessing.OffsetInDisk | utils/data_processing.py:112-122 | a point offset by a valid draw lies within `radius` of the centre |
| DataProcessing.GenerateCoordinatesAroundCity | utils/data_processing.py:66-126 | exactly `num_points` points (none if it is not positive), in draw order, each the resolved centre moved by its draw and within `radius` of that centre |
| Visualization.GetColor | utils/visualization.py:145-155 | blue below 20, green in [20, 25), yellow in [25, 30), orange in [30, 35), red from 35 |
| Visualization.BoundsReached | utils/visualization.py:145-155 | an independent count of the band boundaries a temperature has reached, the reference that `GetColorCountsBounds` ties the colour bands to; it never exceeds the number of boundaries |
| Visualization.GetColorCountsBounds | utils/visualization.py:145-155 | the band index is the number of the boundaries 20, 25, 30, 35 that the temperature has reached |
| Visualization.BoundsReachedMonotone | utils/visualization.py:145-155 | a warmer temperature reaches at least as many boundaries |
| Visualization.GetColorMonotone | utils/visualization.py:145-155 | the band index never decreases as the temperature rises |
| Visualization.HeatmapCenter | utils/visualization.py:22-26 | the reply's coordinates when present; (40.7128, -74.0060) without a reply or without coordinates |
| Visualization.FallbackCentresAgree | utils/visualization.py:22-43 | without a reply, or without its name and coordinates, the map centre is the centre of the simulated points' disk |
| Visualization.ColorMapCenter | utils/visualization.py:126-139 | the city's entry in the ten-city table, New York for any other name |
| Visualization.ColorMapCenterAgreesWithGenerator | utils/visualization.py:126-139 | the colour-coded map and the generator give the same centre for the ten US cities and for unknown names; the Indian cities are centred on New York |
| Visualization.MumbaiCentres | utils/visualization.py:139 | Mumbai is centred on New York by the colour-coded map but on Mumbai by the generator |
| Visualization.SimulationCity | utils/visualization.py:42 | the reply's name, or "New York" without a reply or without a name |
| Visualization.BaseTemperature | utils/visualization.py:45 | 25 without a reply or without `main`; otherwise `main`'s `temp`, absent when the lookup fails |
| Visualization.BuildHeatData | utils/visualization.py:32-52 | one point per report, in order. When there are fewer than ten reports, exactly twenty simulated points follow. Each lies within 0.05 degrees of the simulated city. Each intensity is the base plus its variation, in [base-2, base+3). The result is absent exactly when the base lookup fails |

## Left out

- The weather and forecast HTTP calls and the satellite-image URL (`utils/api_handlers.py:8-100`) are not part of this model. The heat map's reply is the `Weather` input.
- The folium map, marker, heat-layer and legend objects, and the plotly time series, are not modelled. Only the data they are built from is: centres, colours and heat points. The heat layer's `radius` argument only styles the layer.
- The Streamlit pages (`app.py`, `pages/`) are not part of this model. Their gating of callers (such as needing three reports before detection) is not a precondition here.
- Floating point: all arithmetic is on `real`. `Round1` rounds exact halves to even on exact values. numpy rounds binary floats, which can differ near a half (2.675 is stored just below 2.675).
- `sqrt`, `cos` and `sin` in the generator are not modelled. Each draw is a `DiskSample` whose offsets satisfy dx² + dy² = distance² with the distance between 0 and the radius.
- `random.random`, `np.random.uniform` and `datetime.now` are inputs: samples, variations and a `DateTime`.
- DbscanAlgorithm.Cluster: requires `eps > 0` and `min_samples >= 1`. The clustering library rejects other values with an error, and that error is not modelled.
- DataProcessing.IdentifyHotspots: requires `eps > 0` and `min_samples >= 1` on every path, including the early returns (no reports, too few qualifying reports) that never reach the clustering. Every caller passes the defaults 0.01 and 3 (`app.py:167`, `pages/analysis.py:123`).
- The library's neighbour search structures (ball tree, k-d tree) are not modelled. Neighbourhoods are computed by comparing every pair.
- Reports.ReportStore.AddCommunityReport: always returns true. The exception path (`utils/api_handlers.py:132-134`) depends on dataframe failures and is not modelled.
- Reports.FormatTimestamp: always pads the year to four digits. Some platforms' `strftime` does not pad years below 1000. Clock readings are only required to have fields in their printed ranges, not to be calendar dates.
- A weather reply whose `coord` lacks `lat` or `lon` raises a lookup error in the source. Coordinates are modelled as whole, so that error is not modelled. A `main` block without `temp` is modelled (as `None`).
- The report collection and the hotspot table are sequences of records, not dataframes. The helper `cluster` column and the index reset of the table are not modelled.

