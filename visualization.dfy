/**
 * The map helpers: the temperature colour bands of the colour-coded map, the map centres
 * with their New York fallbacks, and the list of heat points the heat map is drawn from.
 * The map widgets themselves are not modelled; randomness is an input.
 */
module Visualization {
  import opened Wrappers
  import opened Geo
  import opened Reports
  import opened DataProcessing

  // ---------------------------------------------------------------------------
  // Colour bands

  datatype Color = Blue | Green | Yellow | Orange | Red

  /** Marker colour for a temperature: bands of five degrees from 20 to 35. */
  function GetColor(temp: real): (c: Color)
    ensures c == Blue <==> temp < 20.0
    ensures c == Green <==> 20.0 <= temp < 25.0
    ensures c == Yellow <==> 25.0 <= temp < 30.0
    ensures c == Orange <==> 30.0 <= temp < 35.0
    ensures c == Red <==> 35.0 <= temp
  {
    if temp < 20.0 then Blue
    else if temp < 25.0 then Green
    else if temp < 30.0 then Yellow
    else if temp < 35.0 then Orange
    else Red
  }

  /** Position of a colour on the cool-to-hot scale. */
  function Band(c: Color): nat
  {
    match c
    case Blue => 0
    case Green => 1
    case Yellow => 2
    case Orange => 3
    case Red => 4
  }

  /** The band boundaries, coolest first. */
  const ColorBounds: seq<real> := [20.0, 25.0, 30.0, 35.0]

  /** How many of `bounds` a temperature has reached. */
  function BoundsReached(temp: real, bounds: seq<real>): (n: nat)
    ensures n <= |bounds|
  {
    if bounds == [] then 0
    else (if bounds[0] <= temp then 1 else 0) + BoundsReached(temp, bounds[1..])
  }

  /** A temperature's band is the number of boundaries it has reached. */
  lemma GetColorCountsBounds(temp: real)
    ensures Band(GetColor(temp)) == BoundsReached(temp, ColorBounds)
  {
    assert [35.0][1..] == [];
    var n35 := BoundsReached(temp, [35.0]);
    assert [30.0, 35.0][1..] == [35.0];
    var n30 := BoundsReached(temp, [30.0, 35.0]);
    assert n30 == (if 30.0 <= temp then 1 else 0) + n35;
    assert [25.0, 30.0, 35.0][1..] == [30.0, 35.0];
    var n25 := BoundsReached(temp, [25.0, 30.0, 35.0]);
    assert n25 == (if 25.0 <= temp then 1 else 0) + n30;
    assert ColorBounds[1..] == [25.0, 30.0, 35.0];
  }

  /** Reaching is monotone: a warmer temperature has reached at least as many boundaries. */
  lemma {:induction false} BoundsReachedMonotone(t1: real, t2: real, bounds: seq<real>)
    requires t1 <= t2
    ensures BoundsReached(t1, bounds) <= BoundsReached(t2, bounds)
  {
    if bounds != [] {
      BoundsReachedMonotone(t1, t2, bounds[1..]);
    }
  }

  /** The colour never moves towards blue as the temperature rises. */
  lemma GetColorMonotone(t1: real, t2: real)
    requires t1 <= t2
    ensures Band(GetColor(t1)) <= Band(GetColor(t2))
  {
    GetColorCountsBounds(t1);
    GetColorCountsBounds(t2);
    BoundsReachedMonotone(t1, t2, ColorBounds);
  }

  // ---------------------------------------------------------------------------
  // Map centres

  /** The `main` block of a weather reply; `temp` is absent when the reply lacks it. */
  datatype MainBlock = MainBlock(temp: Option<real>)

  /** The parts of a weather-service reply the heat map reads; an absent key is `None`. */
  datatype Weather = Weather(coord: Option<Coord>, name: Option<string>, main: Option<MainBlock>)

  /**
   * Without a reply, or with one that names no city and gives no coordinates, both fallbacks
   * pick New York: the map is centred on the disk the simulated points are drawn in.
   */
  lemma FallbackCentresAgree(weather: Option<Weather>)
    requires weather.None? || (weather.value.coord.None? && weather.value.name.None?)
    ensures HeatmapCenter(weather) == CityCenter(SimulationCity(weather))
  {
  }

  /** Heat-map centre: the reply's coordinates, or New York without a reply or without coordinates. */
  function HeatmapCenter(weather: Option<Weather>): (c: Coord)
    ensures weather.Some? && weather.value.coord.Some? ==> c == weather.value.coord.value
    ensures weather.None? || weather.value.coord.None? ==> c == Coord(40.7128, -74.0060)
  {
    if weather.Some? && weather.value.coord.Some? then weather.value.coord.value
    else Coord(40.7128, -74.0060)
  }

  /** The colour-coded map's centres: the ten US cities only. */
  const ColorMapCities: map<string, Coord> := map[
    "New York" := Coord(40.7128, -74.0060),
    "Los Angeles" := Coord(34.0522, -118.2437),
    "Chicago" := Coord(41.8781, -87.6298),
    "Houston" := Coord(29.7604, -95.3698),
    "Phoenix" := Coord(33.4484, -112.0740),
    "Philadelphia" := Coord(39.9526, -75.1652),
    "San Antonio" := Coord(29.4241, -98.4936),
    "San Diego" := Coord(32.7157, -117.1611),
    "Dallas" := Coord(32.7767, -96.7970),
    "San Jose" := Coord(37.3382, -121.8863)
  ]

  /** Colour-coded map centre: the city's entry, New York for any city not in the table. */
  function ColorMapCenter(cityName: string): (c: Coord)
    ensures cityName in ColorMapCities ==> c == ColorMapCities[cityName]
    ensures cityName !in ColorMapCities ==> c == Coord(40.7128, -74.0060)
  {
    if cityName in ColorMapCities then ColorMapCities[cityName] else Coord(40.7128, -74.0060)
  }

  /**
   * The colour-coded map and the point generator agree on every US city and on unknown names;
   * they part only on the ten Indian cities, which the colour-coded map centres on New York.
   */
  lemma ColorMapCenterAgreesWithGenerator(cityName: string)
    ensures cityName in ColorMapCities || cityName !in CityCenters ==> ColorMapCenter(cityName) == CityCenter(cityName)
    ensures cityName !in ColorMapCities && cityName in CityCenters ==> ColorMapCenter(cityName) == Coord(40.7128, -74.0060)
  {
    assert ColorMapCities.Keys <= CityCenters.Keys;
  }

  /** Mumbai is known to the generator but centred on New York by the colour-coded map. */
  lemma MumbaiCentres()
    ensures ColorMapCenter("Mumbai") == Coord(40.7128, -74.0060)
    ensures CityCenter("Mumbai") == Coord(19.0760, 72.8777)
  {
  }

  // ---------------------------------------------------------------------------
  // Heat points

  /** One entry of the heat layer: position and intensity (a temperature). */
  datatype HeatPoint = HeatPoint(lat: real, lon: real, intensity: real)

  /** The city whose surroundings are simulated: the reply's name, else New York. */
  function SimulationCity(weather: Option<Weather>): (city: string)
    ensures weather.Some? && weather.value.name.Some? ==> city == weather.value.name.value
    ensures weather.None? || weather.value.name.None? ==> city == "New York"
  {
    if weather.Some? && weather.value.name.Some? then weather.value.name.value else "New York"
  }

  /**
   * The temperature simulated points vary around: 25 without a reply or without a `main` block,
   * the reply's temperature otherwise; `None` when `main` lacks `temp`, where the lookup fails.
   */
  function BaseTemperature(weather: Option<Weather>): (t: Option<real>)
    ensures weather.None? || weather.value.main.None? ==> t == Some(25.0)
    ensures weather.Some? && weather.value.main.Some? ==> t == weather.value.main.value.temp
  {
    if weather.None? || weather.value.main.None? then Some(25.0) else weather.value.main.value.temp
  }

  /** The heat point of one community report. */
  function ReportPoint(r: Report): HeatPoint
  {
    HeatPoint(r.latitude, r.longitude, r.temperature)
  }

  /**
   * The heat layer's points: one per report, in report order; then, when there are fewer than
   * ten reports, twenty simulated points in a 0.05-degree disk around the simulated city, each
   * with the base temperature plus its variation. `samples` and `variations` are the random
   * draws. `None` stands for the failed `temp` lookup.
   */
  method BuildHeatData(weather: Option<Weather>, reports: seq<Report>, samples: seq<DiskSample>, variations: seq<real>)
    returns (heatData: Option<seq<HeatPoint>>)
    requires |reports| < 10 ==> |samples| >= 20 && forall i :: 0 <= i < 20 ==> ValidSample(samples[i], 0.05)
    requires |reports| < 10 ==> |variations| >= 20 && forall i :: 0 <= i < 20 ==> -2.0 <= variations[i] < 3.0
    ensures heatData.None? <==> |reports| < 10 && BaseTemperature(weather).None?
    ensures heatData.Some? ==> |heatData.value| == |reports| + (if |reports| < 10 then 20 else 0)
    ensures heatData.Some? ==> forall i :: 0 <= i < |reports| ==> heatData.value[i] == ReportPoint(reports[i])
    ensures heatData.Some? ==> forall i :: |reports| <= i < |heatData.value| ==>
              var p := heatData.value[i];
              var center := CityCenter(SimulationCity(weather));
              var base := BaseTemperature(weather).value;
              Coord(p.lat, p.lon) == Offset(center, samples[i - |reports|])
              && SqDist(Coord(p.lat, p.lon), center) <= 0.05 * 0.05
              && p.intensity == base + variations[i - |reports|]
              && base - 2.0 <= p.intensity < base + 3.0
  {
    var points: seq<HeatPoint> := [];
    for i := 0 to |reports|
      invariant |points| == i
      invariant forall j :: 0 <= j < i ==> points[j] == ReportPoint(reports[j])
    {
      points := points + [ReportPoint(reports[i])];
    }
    if |points| < 10 {
      var city := SimulationCity(weather);
      var coords := GenerateCoordinatesAroundCity(samples, city, 20);
      var baseLookup := BaseTemperature(weather);
      if baseLookup.None? {
        return None;
      }
      var base := baseLookup.value;
      var center := CityCenter(city);
      for i := 0 to 20
        invariant |points| == |reports| + i
        invariant forall j :: 0 <= j < |reports| ==> points[j] == ReportPoint(reports[j])
        invariant forall j :: |reports| <= j < |points| ==>
                    var p := points[j];
                    Coord(p.lat, p.lon) == Offset(center, samples[j - |reports|])
                    && SqDist(Coord(p.lat, p.lon), center) <= 0.05 * 0.05
                    && p.intensity == base + variations[j - |reports|]
                    && base - 2.0 <= p.intensity < base + 3.0
      {
        points := points + [HeatPoint(coords[i].lat, coords[i].lon, base + variations[i])];
      }
    }
    heatData := Some(points);
  }
}
