/**
 * The hotspot detector and the synthetic coordinate generator.
 *
 * Detection keeps the reports at or above a temperature threshold, clusters their
 * (latitude, longitude) points with DBSCAN, drops the noise, and summarises each cluster
 * by the mean latitude, longitude and temperature of its members, with a severity read
 * off the unrounded mean temperature.
 *
 * Generation places points uniformly in a disk around a city centre; the square root,
 * cosine and sine of the sampler are an input (`DiskSample`), drawn by the caller.
 */
module DataProcessing {
  import opened Wrappers
  import opened Geo
  import opened Reports
  import Dbscan
  import DbscanAlgorithm

  datatype Severity = Moderate | High | Extreme

  /** One row of the hotspot table. */
  datatype Hotspot = Hotspot(latitude: real, longitude: real, temperature: real, severity: Severity)

  // ---------------------------------------------------------------------------
  // Severity and rounding

  /** Severity of a cluster from its mean temperature. */
  function CalculateSeverity(temp: real): (s: Severity)
    ensures s == Extreme <==> temp >= 35.0
    ensures s == High <==> 32.0 <= temp < 35.0
    ensures s == Moderate <==> temp < 32.0
  {
    if temp >= 35.0 then Extreme else if temp >= 32.0 then High else Moderate
  }

  function SeverityRank(s: Severity): nat
  {
    match s
    case Moderate => 0
    case High => 1
    case Extreme => 2
  }

  /** A hotter cluster is never less severe. */
  lemma SeverityMonotone(t1: real, t2: real)
    requires t1 <= t2
    ensures SeverityRank(CalculateSeverity(t1)) <= SeverityRank(CalculateSeverity(t2))
  {
  }

  /**
   * Rounding to one decimal as numpy does it: to the nearest tenth, a tie going to the even tenth.
   * The result is a whole number of tenths within 0.05 of `x`.
   */
  function Round1(x: real): (r: real)
    ensures -0.05 <= r - x <= 0.05
    ensures (r * 10.0).Floor as real == r * 10.0
  {
    var y := x * 10.0;
    var f := y.Floor;
    var frac := y - f as real;
    var n := if frac < 0.5 then f else if frac > 0.5 then f + 1 else if f % 2 == 0 then f else f + 1;
    n as real / 10.0
  }

  /** Severity is read before rounding: a mean of 34.96 is shown as 35.0 yet carries "High". */
  lemma RoundedDisplayCanHideSeverityBand()
    ensures Round1(34.96) == 35.0 && CalculateSeverity(34.96) == High
  {
    assert (34.96 * 10.0).Floor == 349;
  }

  // ---------------------------------------------------------------------------
  // Filtering and per-cluster aggregation

  /** The reports at or above the threshold, in their original order. */
  function HighTemperatureReports(reports: seq<Report>, threshold: real): (hot: seq<Report>)
    ensures |hot| <= |reports|
    ensures forall r :: r in hot <==> r in reports && r.temperature >= threshold
  {
    if reports == [] then []
    else
      var rest := HighTemperatureReports(reports[1..], threshold);
      if reports[0].temperature >= threshold then [reports[0]] + rest else rest
  }

  /** Every report at or above the threshold is kept as many times as it occurs; no other is kept. */
  lemma {:induction false} HighTemperatureReportsCounts(reports: seq<Report>, threshold: real, r: Report)
    ensures multiset(HighTemperatureReports(reports, threshold))[r]
         == if r.temperature >= threshold then multiset(reports)[r] else 0
  {
    if reports != [] {
      assert reports == [reports[0]] + reports[1..];
      HighTemperatureReportsCounts(reports[1..], threshold, r);
    }
  }

  /**
   * Filtering keeps the order: the hot reports of two report lists one after the other are
   * the hot reports of the first list followed by those of the second.
   */
  lemma {:induction false} HighTemperatureReportsAppend(a: seq<Report>, b: seq<Report>, threshold: real)
    ensures HighTemperatureReports(a + b, threshold)
         == HighTemperatureReports(a, threshold) + HighTemperatureReports(b, threshold)
  {
    if a == [] {
      assert a + b == b;
    } else {
      assert (a + b)[0] == a[0] && (a + b)[1..] == a[1..] + b;
      HighTemperatureReportsAppend(a[1..], b, threshold);
      if a[0].temperature >= threshold {
        assert HighTemperatureReports(a + b, threshold) == [a[0]] + HighTemperatureReports(a[1..] + b, threshold);
      }
    }
  }

  /** A single report is kept exactly when it reaches the threshold. */
  lemma HighTemperatureReportsSingle(r: Report, threshold: real)
    ensures HighTemperatureReports([r], threshold) == if r.temperature >= threshold then [r] else []
  {
    assert [r][1..] == [];
  }

  /** Filtering twice with the same threshold changes nothing. */
  lemma {:induction false} HighTemperatureReportsIdempotent(reports: seq<Report>, threshold: real)
    ensures HighTemperatureReports(HighTemperatureReports(reports, threshold), threshold)
         == HighTemperatureReports(reports, threshold)
  {
    if reports != [] {
      var rest := HighTemperatureReports(reports[1..], threshold);
      HighTemperatureReportsIdempotent(reports[1..], threshold);
      if reports[0].temperature >= threshold {
        assert ([reports[0]] + rest)[1..] == rest;
      }
    }
  }

  /** The (latitude, longitude) points the clustering runs on, one per report. */
  function Coordinates(rs: seq<Report>): seq<Coord>
  {
    seq(|rs|, i requires 0 <= i < |rs| => Coord(rs[i].latitude, rs[i].longitude))
  }

  datatype Field = Latitude | Longitude | Temperature

  function Get(r: Report, f: Field): real
  {
    match f
    case Latitude => r.latitude
    case Longitude => r.longitude
    case Temperature => r.temperature
  }

  /** Number of reports labelled `k`. */
  function ClusterSize(rs: seq<Report>, labels: seq<int>, k: int): nat
    requires |labels| == |rs|
  {
    if rs == [] then 0
    else ClusterSize(rs[1..], labels[1..], k) + (if labels[0] == k then 1 else 0)
  }

  /** Sum of field `f` over the reports labelled `k`. */
  function ClusterSum(rs: seq<Report>, labels: seq<int>, k: int, f: Field): real
    requires |labels| == |rs|
  {
    if rs == [] then 0.0
    else ClusterSum(rs[1..], labels[1..], k, f) + (if labels[0] == k then Get(rs[0], f) else 0.0)
  }

  /** Arithmetic mean of field `f` over exactly the reports labelled `k`. */
  function ClusterMean(rs: seq<Report>, labels: seq<int>, k: int, f: Field): real
    requires |labels| == |rs| && ClusterSize(rs, labels, k) > 0
  {
    ClusterSum(rs, labels, k, f) / ClusterSize(rs, labels, k) as real
  }

  /** A cluster with a member is not empty. */
  lemma {:induction false} ClusterSizePositive(rs: seq<Report>, labels: seq<int>, k: int, i: int)
    requires |labels| == |rs| && 0 <= i < |rs| && labels[i] == k
    ensures ClusterSize(rs, labels, k) > 0
  {
    if i > 0 {
      ClusterSizePositive(rs[1..], labels[1..], k, i - 1);
    }
  }

  /** A sum of `n` terms each at least `lo` is at least `lo * n`. */
  lemma {:induction false} ClusterSumAtLeast(rs: seq<Report>, labels: seq<int>, k: int, f: Field, lo: real)
    requires |labels| == |rs|
    requires forall i :: 0 <= i < |rs| && labels[i] == k ==> lo <= Get(rs[i], f)
    ensures lo * ClusterSize(rs, labels, k) as real <= ClusterSum(rs, labels, k, f)
  {
    if rs != [] {
      forall i | 0 <= i < |rs| - 1 && labels[1..][i] == k
        ensures lo <= Get(rs[1..][i], f)
      {
        assert rs[1..][i] == rs[i + 1] && labels[1..][i] == labels[i + 1];
      }
      ClusterSumAtLeast(rs[1..], labels[1..], k, f, lo);
      var n := ClusterSize(rs[1..], labels[1..], k) as real;
      assert lo * (n + 1.0) == lo * n + lo;
    }
  }

  /** A sum of `n` terms each at most `hi` is at most `hi * n`. */
  lemma {:induction false} ClusterSumAtMost(rs: seq<Report>, labels: seq<int>, k: int, f: Field, hi: real)
    requires |labels| == |rs|
    requires forall i :: 0 <= i < |rs| && labels[i] == k ==> Get(rs[i], f) <= hi
    ensures ClusterSum(rs, labels, k, f) <= hi * ClusterSize(rs, labels, k) as real
  {
    if rs != [] {
      forall i | 0 <= i < |rs| - 1 && labels[1..][i] == k
        ensures Get(rs[1..][i], f) <= hi
      {
        assert rs[1..][i] == rs[i + 1] && labels[1..][i] == labels[i + 1];
      }
      ClusterSumAtMost(rs[1..], labels[1..], k, f, hi);
      var n := ClusterSize(rs[1..], labels[1..], k) as real;
      assert hi * (n + 1.0) == hi * n + hi;
    }
  }

  lemma QuotientAtLeast(s: real, n: real, lo: real)
    requires n > 0.0 && lo * n <= s
    ensures lo <= s / n
  {
    assert s / n * n == s;
  }

  lemma QuotientAtMost(s: real, n: real, hi: real)
    requires n > 0.0 && s <= hi * n
    ensures s / n <= hi
  {
    assert s / n * n == s;
  }

  /** A mean lies between any bounds on its members: the centroid is inside the members' bounding box. */
  lemma ClusterMeanBounds(rs: seq<Report>, labels: seq<int>, k: int, f: Field, lo: real, hi: real)
    requires |labels| == |rs| && ClusterSize(rs, labels, k) > 0
    requires forall i :: 0 <= i < |rs| && labels[i] == k ==> lo <= Get(rs[i], f) <= hi
    ensures lo <= ClusterMean(rs, labels, k, f) <= hi
  {
    ClusterMeanAtLeast(rs, labels, k, f, lo);
    ClusterSumAtMost(rs, labels, k, f, hi);
    QuotientAtMost(ClusterSum(rs, labels, k, f), ClusterSize(rs, labels, k) as real, hi);
  }

  /** A cluster whose members all reach `lo` in field `f` has a mean of at least `lo`. */
  lemma ClusterMeanAtLeast(rs: seq<Report>, labels: seq<int>, k: int, f: Field, lo: real)
    requires |labels| == |rs| && ClusterSize(rs, labels, k) > 0
    requires forall i :: 0 <= i < |rs| && labels[i] == k ==> lo <= Get(rs[i], f)
    ensures lo <= ClusterMean(rs, labels, k, f)
  {
    ClusterSumAtLeast(rs, labels, k, f, lo);
    QuotientAtLeast(ClusterSum(rs, labels, k, f), ClusterSize(rs, labels, k) as real, lo);
  }

  /** The hotspot row of cluster `k`: mean position, mean temperature rounded, severity of the unrounded mean. */
  function ClusterHotspot(rs: seq<Report>, labels: seq<int>, k: int): Hotspot
    requires |labels| == |rs| && ClusterSize(rs, labels, k) > 0
  {
    var meanTemperature := ClusterMean(rs, labels, k, Temperature);
    Hotspot(ClusterMean(rs, labels, k, Latitude), ClusterMean(rs, labels, k, Longitude),
            Round1(meanTemperature), CalculateSeverity(meanTemperature))
  }

  /** One hotspot per cluster id 0 .. clusters-1 (the groupby over the non-noise labels). */
  function Summarise(rs: seq<Report>, labels: seq<int>, clusters: nat): seq<Hotspot>
    requires |labels| == |rs|
    requires forall k :: 0 <= k < clusters ==> ClusterSize(rs, labels, k) > 0
  {
    seq(clusters, k requires 0 <= k < clusters => ClusterHotspot(rs, labels, k))
  }

  lemma RowOfCluster(rs: seq<Report>, labels: seq<int>, clusters: nat, k: int)
    requires |labels| == |rs|
    requires forall k :: 0 <= k < clusters ==> ClusterSize(rs, labels, k) > 0
    requires 0 <= k < clusters
    ensures Summarise(rs, labels, clusters)[k] == ClusterHotspot(rs, labels, k)
  {
  }

  /**
   * `table` is the hotspot table of the qualifying reports `hot`: `labels` is a DBSCAN
   * labelling of their points, and the table holds one summary row per cluster.
   */
  ghost predicate IsHotspotTable(hot: seq<Report>, eps: real, minSamples: int,
                                 labels: seq<int>, clusters: nat, table: seq<Hotspot>)
  {
    Dbscan.IsClustering(Coordinates(hot), eps, minSamples, labels, clusters)
    && |labels| == |hot|
    && (forall k :: 0 <= k < clusters ==> ClusterSize(hot, labels, k) > 0)
    && table == Summarise(hot, labels, clusters)
  }

  // ---------------------------------------------------------------------------
  // The detector

  /**
   * Hotspots of a report collection. An empty collection gives `None`; too few qualifying
   * reports, or only noise, give an empty table; otherwise the table summarises a DBSCAN
   * clustering of the qualifying reports. The collection itself is a value and is not changed.
   */
  method IdentifyHotspots(reports: seq<Report>, eps: real := 0.01, minSamples: int := 3, threshold: real := 30.0)
    returns (result: Option<seq<Hotspot>>)
    requires eps > 0.0 && minSamples >= 1
    ensures result.None? <==> reports == []
    ensures reports != [] && |HighTemperatureReports(reports, threshold)| < minSamples ==> result == Some([])
    ensures result.Some? && |HighTemperatureReports(reports, threshold)| >= minSamples ==>
              exists labels, clusters ::
                IsHotspotTable(HighTemperatureReports(reports, threshold), eps, minSamples, labels, clusters, result.value)
    ensures result.Some? && |HighTemperatureReports(reports, threshold)| >= minSamples ==>
              forall labels, clusters, table ::
                IsHotspotTable(HighTemperatureReports(reports, threshold), eps, minSamples, labels, clusters, table) ==>
                table == result.value
  {
    if reports == [] {
      return None;
    }
    var hot := HighTemperatureReports(reports, threshold);
    if |hot| < minSamples {
      return Some([]);
    }
    var labels, clusters := DbscanAlgorithm.Cluster(Coordinates(hot), eps, minSamples);
    forall k | 0 <= k < clusters
      ensures ClusterSize(hot, labels, k) > 0
    {
      Dbscan.ClusterIdsInUse(Coordinates(hot), eps, minSamples, labels, clusters, k);
      var p :| Dbscan.IsCore(Coordinates(hot), eps, minSamples, p) && labels[p] == k;
      ClusterSizePositive(hot, labels, k, p);
    }
    var clustered := exists i :: 0 <= i < |labels| && labels[i] != Dbscan.Noise;
    if !clustered {
      Dbscan.AllNoiseNoClusters(Coordinates(hot), eps, minSamples, labels, clusters);
      result := Some([]);
    } else {
      result := Some(Summarise(hot, labels, clusters));
    }
    assert IsHotspotTable(hot, eps, minSamples, labels, clusters, result.value);
    forall labels', clusters', table | IsHotspotTable(hot, eps, minSamples, labels', clusters', table)
      ensures table == result.value
    {
      HotspotTableUnique(hot, eps, minSamples, labels, clusters, result.value, labels', clusters', table);
    }
  }

  /**
   * The hotspot table of a report collection is unique: any two labellings that satisfy the
   * clustering contract are the same, and so are their tables.
   */
  lemma HotspotTableUnique(hot: seq<Report>, eps: real, minSamples: int,
                           l1: seq<int>, c1: nat, t1: seq<Hotspot>, l2: seq<int>, c2: nat, t2: seq<Hotspot>)
    requires IsHotspotTable(hot, eps, minSamples, l1, c1, t1)
    requires IsHotspotTable(hot, eps, minSamples, l2, c2, t2)
    ensures l1 == l2 && c1 == c2 && t1 == t2
  {
    Dbscan.ClusteringUnique(Coordinates(hot), eps, minSamples, l1, c1, l2, c2);
  }

  /** Some point carries label `k`. */
  predicate HasMember(labels: seq<int>, k: int)
  {
    exists i :: 0 <= i < |labels| && labels[i] == k
  }

  /** Every non-noise point belongs to exactly one hotspot row, and every row has a member. */
  lemma OneHotspotPerCluster(hot: seq<Report>, eps: real, minSamples: int, labels: seq<int>, clusters: nat,
                             table: seq<Hotspot>)
    requires IsHotspotTable(hot, eps, minSamples, labels, clusters, table)
    ensures |table| == clusters
    ensures forall i :: 0 <= i < |hot| && labels[i] != Dbscan.Noise ==> 0 <= labels[i] < |table|
    ensures forall k :: 0 <= k < |table| ==> HasMember(labels, k)
  {
    forall k | 0 <= k < |table|
      ensures HasMember(labels, k)
    {
      Dbscan.ClusterIdsInUse(Coordinates(hot), eps, minSamples, labels, clusters, k);
    }
  }

  /**
   * Each row's mean temperature is at least the threshold, the displayed temperature is that
   * mean rounded to a tenth, and the severity bands follow the unrounded mean.
   */
  lemma HotspotTemperatures(reports: seq<Report>, threshold: real, eps: real, minSamples: int,
                            labels: seq<int>, clusters: nat, table: seq<Hotspot>, k: int)
    requires IsHotspotTable(HighTemperatureReports(reports, threshold), eps, minSamples, labels, clusters, table)
    requires 0 <= k < |table|
    ensures var hot := HighTemperatureReports(reports, threshold);
      var mean := ClusterMean(hot, labels, k, Temperature);
      threshold <= mean
      && -0.05 <= table[k].temperature - mean <= 0.05
      && (table[k].severity == Extreme <==> mean >= 35.0)
      && (table[k].severity == High <==> 32.0 <= mean < 35.0)
      && (table[k].severity == Moderate <==> threshold <= mean < 32.0)
  {
    var hot := HighTemperatureReports(reports, threshold);
    forall i | 0 <= i < |hot|
      ensures threshold <= hot[i].temperature
    {
      assert hot[i] in hot;
    }
    RowTemperature(hot, labels, clusters, k, threshold);
  }

  lemma RowTemperature(hot: seq<Report>, labels: seq<int>, clusters: nat, k: int, threshold: real)
    requires |labels| == |hot|
    requires forall k :: 0 <= k < clusters ==> ClusterSize(hot, labels, k) > 0
    requires 0 <= k < clusters
    requires forall i :: 0 <= i < |hot| ==> threshold <= hot[i].temperature
    ensures var mean := ClusterMean(hot, labels, k, Temperature);
      var row := Summarise(hot, labels, clusters)[k];
      threshold <= mean
      && -0.05 <= row.temperature - mean <= 0.05
      && row.severity == CalculateSeverity(mean)
  {
    var mean := ClusterMean(hot, labels, k, Temperature);
    RowOfCluster(hot, labels, clusters, k);
    assert Summarise(hot, labels, clusters)[k].temperature == Round1(mean);
    assert Summarise(hot, labels, clusters)[k].severity == CalculateSeverity(mean);
    ClusterMeanAtLeast(hot, labels, k, Temperature, threshold);
  }

  /** Each row's position is inside the bounding box of its cluster's members. */
  lemma CentroidInBoundingBox(hot: seq<Report>, eps: real, minSamples: int, labels: seq<int>, clusters: nat,
                              table: seq<Hotspot>, k: int, south: real, north: real, west: real, east: real)
    requires IsHotspotTable(hot, eps, minSamples, labels, clusters, table)
    requires 0 <= k < |table|
    requires forall i :: 0 <= i < |hot| && labels[i] == k ==>
               south <= hot[i].latitude <= north && west <= hot[i].longitude <= east
    ensures south <= table[k].latitude <= north && west <= table[k].longitude <= east
  {
    ClusterMeanBounds(hot, labels, k, Latitude, south, north);
    ClusterMeanBounds(hot, labels, k, Longitude, west, east);
  }

  /** Three hot reports a few hundred metres apart in New York and a cool one in Los Angeles. */
  function ExampleReports(): seq<Report>
  {
    [Report(40.70, -74.00, 36.0, "2024-07-01 12:00:00", "", "Anonymous"),
     Report(40.701, -74.001, 34.0, "2024-07-01 12:00:00", "", "Anonymous"),
     Report(40.702, -74.002, 35.0, "2024-07-01 12:00:00", "", "Anonymous"),
     Report(34.05, -118.24, 22.0, "2024-07-01 12:00:00", "", "Anonymous")]
  }

  /** With eps 0.01 the three New York points are mutual neighbours, and with min_samples 3 all of them are core. */
  lemma ExampleGraph()
    ensures var adj := Dbscan.NearMatrix(Coordinates(ExampleReports()[..3]), 0.01);
      adj == [[true, true, true], [true, true, true], [true, true, true]]
      && Dbscan.CoreFlags(adj, 3) == [true, true, true]
  {
    var pts := Coordinates(ExampleReports()[..3]);
    assert pts == [Coord(40.70, -74.00), Coord(40.701, -74.001), Coord(40.702, -74.002)];
    var adj := Dbscan.NearMatrix(pts, 0.01);
    forall p, q | 0 <= p < 3 && 0 <= q < 3
      ensures adj[p][q]
    {
      assert Within(pts[p], pts[q], 0.01);
    }
    var row := [true, true, true];
    assert adj[0] == row && adj[1] == row && adj[2] == row;
    assert [true][..0] == [] && [true, true][..1] == [true] && row[..2] == [true, true];
    assert Dbscan.CountTrue([true]) == 1;
    assert Dbscan.CountTrue([true, true]) == 2;
    assert Dbscan.CountTrue(row) == 3;
  }

  /** Three mutually adjacent core points form exactly one cluster, numbered 0. */
  lemma ExampleSingleCluster(labels: seq<int>, clusters: nat)
    requires Dbscan.IsClustering(Coordinates(ExampleReports()[..3]), 0.01, 3, labels, clusters)
    ensures clusters == 1 && labels == [0, 0, 0]
  {
    ExampleGraph();
    var row := [true, true, true];
    CompleteGraphSingleCluster([row, row, row], row, labels, clusters);
    assert labels == [0, 0, 0];
  }

  /** Points that are all core and all mutually adjacent form exactly one cluster, numbered 0. */
  lemma CompleteGraphSingleCluster(adj: seq<seq<bool>>, core: seq<bool>, labels: seq<int>, clusters: nat)
    requires |adj| > 0 && forall p, q :: 0 <= p < |adj| && 0 <= q < |adj| ==> Dbscan.Adjacent(adj, p, q)
    requires forall p :: 0 <= p < |adj| ==> Dbscan.IsCoreAt(core, p)
    requires Dbscan.IsGraphClustering(adj, core, labels, clusters)
    ensures clusters == 1 && forall p :: 0 <= p < |labels| ==> labels[p] == 0
  {
    assert Dbscan.IsCoreAt(core, 0) && Dbscan.Adjacent(adj, 0, 0);
    forall p | 0 <= p < |adj|
      ensures labels[p] == labels[0]
    {
      assert Dbscan.IsCoreAt(core, p) && Dbscan.Adjacent(adj, 0, p);
    }
    // every cluster id has a member, and the only label in use is labels[0]
    assert labels[0] == 0 by {
      assert Dbscan.HasRoot(adj, core, labels, 0);
    }
    assert clusters - 1 == labels[0] by {
      assert Dbscan.HasRoot(adj, core, labels, clusters - 1);
    }
  }

  /** Only the three New York reports reach 30 degrees. */
  lemma ExampleFilter()
    ensures HighTemperatureReports(ExampleReports(), 30.0) == ExampleReports()[..3]
  {
    var reports := ExampleReports();
    assert reports[1..][1..][1..][1..] == [];
    assert HighTemperatureReports(reports[3..], 30.0) == [];
  }

  /** The single cluster's means: position (40.701, -74.001), temperature 35.0. */
  lemma ExampleMeans()
    ensures var hot := ExampleReports()[..3];
      ClusterSize(hot, [0, 0, 0], 0) == 3
      && ClusterMean(hot, [0, 0, 0], 0, Latitude) == 40.701
      && ClusterMean(hot, [0, 0, 0], 0, Longitude) == -74.001
      && ClusterMean(hot, [0, 0, 0], 0, Temperature) == 35.0
  {
    var hot := ExampleReports()[..3];
    var labels := [0, 0, 0];
    assert hot[1..][1..] == [hot[2]] && labels[1..][1..] == [0] && [hot[2]][1..] == [] && [0][1..] == [];
  }

  /** The worked example: one hotspot at the mean of the three hot reports, mean 35.0, severity Extreme. */
  lemma ExampleHotspot(labels: seq<int>, clusters: nat, table: seq<Hotspot>)
    requires IsHotspotTable(HighTemperatureReports(ExampleReports(), 30.0), 0.01, 3, labels, clusters, table)
    ensures table == [Hotspot(40.701, -74.001, 35.0, Extreme)]
  {
    ExampleFilter();
    var hot := ExampleReports()[..3];
    ExampleSingleCluster(labels, clusters);
    ExampleMeans();
    assert Round1(35.0) == 35.0 by {
      assert (35.0 * 10.0).Floor == 350;
    }
    RowOfCluster(hot, labels, clusters, 0);
  }

  // ---------------------------------------------------------------------------
  // Synthetic coordinates around a city

  /** City centres for the generator: ten US and ten Indian cities. */
  const CityCenters: map<string, Coord> := map[
    "New York" := Coord(40.7128, -74.0060),
    "Los Angeles" := Coord(34.0522, -118.2437),
    "Chicago" := Coord(41.8781, -87.6298),
    "Houston" := Coord(29.7604, -95.3698),
    "Phoenix" := Coord(33.4484, -112.0740),
    "Philadelphia" := Coord(39.9526, -75.1652),
    "San Antonio" := Coord(29.4241, -98.4936),
    "San Diego" := Coord(32.7157, -117.1611),
    "Dallas" := Coord(32.7767, -96.7970),
    "San Jose" := Coord(37.3382, -121.8863),
    "Mumbai" := Coord(19.0760, 72.8777),
    "Delhi" := Coord(28.6139, 77.2090),
    "Bangalore" := Coord(12.9716, 77.5946),
    "Hyderabad" := Coord(17.3850, 78.4867),
    "Chennai" := Coord(13.0827, 80.2707),
    "Kolkata" := Coord(22.5726, 88.3639),
    "Pune" := Coord(18.5204, 73.8567),
    "Ahmedabad" := Coord(23.0225, 72.5714),
    "Jaipur" := Coord(26.9124, 75.7873),
    "Lucknow" := Coord(26.8467, 80.9462)
  ]

  /** The centre of a known city; any other name falls back to New York. */
  function CityCenter(cityName: string): Coord
  {
    if cityName in CityCenters then CityCenters[cityName] else CityCenters["New York"]
  }

  /** An unknown city name does not fail: it resolves to New York's centre. */
  lemma UnknownCityIsNewYork(cityName: string)
    requires cityName !in CityCenters
    ensures CityCenter(cityName) == Coord(40.7128, -74.0060)
  {
  }

  /** One draw of the disk sampler: a distance from the centre and its longitude and latitude offsets. */
  datatype DiskSample = DiskSample(distance: real, dx: real, dy: real)

  /**
   * What `radius * sqrt(U)` with U in [0, 1), and the cosine and sine of one angle, guarantee:
   * the distance lies between 0 and the radius, and the offsets split it as dx^2 + dy^2 = distance^2.
   */
  predicate ValidSample(s: DiskSample, radius: real)
  {
    ((0.0 <= s.distance <= radius) || (radius <= s.distance <= 0.0))
    && s.dx * s.dx + s.dy * s.dy == s.distance * s.distance
  }

  /** The point a draw places: the latitude moves by dy, the longitude by dx. */
  function Offset(center: Coord, s: DiskSample): Coord
  {
    Coord(center.lat + s.dy, center.lon + s.dx)
  }

  /** Every generated point lies in the disk of the given radius around the centre. */
  lemma OffsetInDisk(center: Coord, s: DiskSample, radius: real)
    requires ValidSample(s, radius)
    ensures SqDist(Offset(center, s), center) <= radius * radius
  {
    var d := s.distance;
    if 0.0 <= d {
      assert d * d <= d * radius <= radius * radius;
    } else {
      assert d * d <= d * radius <= radius * radius;
    }
    var p := Offset(center, s);
    assert p.lat - center.lat == s.dy && p.lon - center.lon == s.dx;
  }

  /**
   * `numPoints` points (none when it is not positive) around the resolved city centre, in
   * generation order, the i-th placed by the i-th draw.
   */
  method GenerateCoordinatesAroundCity(samples: seq<DiskSample>, cityName: string,
                                       numPoints: int := 20, radius: real := 0.05)
    returns (coordinates: seq<Coord>)
    requires numPoints <= |samples|
    requires forall i :: 0 <= i < numPoints ==> ValidSample(samples[i], radius)
    ensures |coordinates| == if numPoints > 0 then numPoints else 0
    ensures forall i :: 0 <= i < |coordinates| ==> coordinates[i] == Offset(CityCenter(cityName), samples[i])
    ensures forall i :: 0 <= i < |coordinates| ==> SqDist(coordinates[i], CityCenter(cityName)) <= radius * radius
  {
    var center := CityCenter(cityName);
    coordinates := [];
    var n := if numPoints > 0 then numPoints else 0;
    for i := 0 to n
      invariant |coordinates| == i
      invariant forall j :: 0 <= j < i ==> coordinates[j] == Offset(center, samples[j])
      invariant forall j :: 0 <= j < i ==> SqDist(coordinates[j], center) <= radius * radius
    {
      OffsetInDisk(center, samples[i], radius);
      coordinates := coordinates + [Offset(center, samples[i])];
    }
  }
}
