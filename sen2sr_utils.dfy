/** Helpers of the SEN2SR super-resolution service: the band reordering of
    its exports, the UTM projection a point falls in, the mainland bounding
    box test and the choice of the least cloudy acquisitions. */
module Sen2srUtils {
  import opened Wrappers
  import opened Text
  import opened Assoc

  // ---------------------------------------------------------------------------
  // reorder_bands

  /** `band_order_tif`: the input holds NIR, B, G, R; the output R, G, B, NIR. */
  const BandOrder: seq<nat> := [3, 2, 1, 0]

  /** `array[band_order_tif]` along the band axis; fewer than four bands
      raise IndexError. */
  function Reorder<T>(bands: seq<T>): (r: Option<seq<T>>)
    ensures r.Some? <==> |bands| >= 4
    ensures r.Some? ==> |r.value| == 4 && forall k :: 0 <= k < 4 ==> r.value[k] == bands[BandOrder[k]]
  {
    if |bands| < 4 then None else Some([bands[3], bands[2], bands[1], bands[0]])
  }

  /** Both arrays reordered the same way. */
  function ReorderBands<T>(original: seq<T>, superX: seq<T>): (r: Option<(seq<T>, seq<T>)>)
  {
    match Reorder(original)
    case None => None
    case Some(o) =>
      match Reorder(superX)
      case None => None
      case Some(s) => Some((o, s))
  }

  /** Reordering is its own inverse on the four bands it keeps, and both
      arrays are reordered alike. */
  lemma {:induction false} ReorderInvolution<T>(original: seq<T>, superX: seq<T>)
    requires ReorderBands(original, superX).Some?
    ensures var (o, s) := ReorderBands(original, superX).value;
      Reorder(o) == Some(original[..4]) && Reorder(s) == Some(superX[..4])
  {
    var (o, s) := ReorderBands(original, superX).value;
    assert Reorder(o).value == original[..4];
    assert Reorder(s).value == superX[..4];
  }

  // ---------------------------------------------------------------------------
  // lonlat_to_utm_epsg

  /** The UTM zone: six-degree bands of longitude counted from 180 W. */
  function Zone(lon: real): int
  {
    ((lon + 180.0) / 6.0).Floor + 1
  }

  /** The EPSG code of WGS 84 / UTM: 326xx on and north of the equator,
      327xx south of it. */
  function EpsgCode(lon: real, lat: real): int
  {
    if lat >= 0.0 then 32600 + Zone(lon) else 32700 + Zone(lon)
  }

  function LonLatToUtmEpsg(lon: real, lat: real): string
  {
    "EPSG:" + IntToString(EpsgCode(lon, lat))
  }

  /** The zone is the six-degree band that contains the longitude; for a
      longitude in [-180, 180) it is 1 to 60, and the code is in 32601..32660
      for the northern hemisphere and 32701..32760 for the southern. */
  lemma {:induction false} ZoneSpec(lon: real, lat: real)
    ensures -180.0 + 6.0 * (Zone(lon) - 1) as real <= lon < -180.0 + 6.0 * Zone(lon) as real
    ensures -180.0 <= lon < 180.0 ==> 1 <= Zone(lon) <= 60
    ensures lat >= 0.0 ==> EpsgCode(lon, lat) - Zone(lon) == 32600
    ensures lat < 0.0 ==> EpsgCode(lon, lat) - Zone(lon) == 32700
  {
    var x := (lon + 180.0) / 6.0;
    assert x.Floor as real <= x < x.Floor as real + 1.0;
    assert lon == 6.0 * x - 180.0;
  }

  /** The code reads back from the text after "EPSG:". */
  lemma {:induction false} EpsgText(lon: real, lat: real)
    ensures var t := LonLatToUtmEpsg(lon, lat);
      |t| > 5 && t[..5] == "EPSG:" && ParseInt(t[5..]) == Some(EpsgCode(lon, lat))
  {
    var t := LonLatToUtmEpsg(lon, lat);
    var code := IntToString(EpsgCode(lon, lat));
    assert t[5..] == code;
    ParseIntToString(EpsgCode(lon, lat));
  }

  // ---------------------------------------------------------------------------
  // is_in_spain

  /** A longitude/latitude bounding box: min_lon, min_lat, max_lon, max_lat. */
  datatype BBox = BBox(minLon: real, minLat: real, maxLon: real, maxLat: real)

  predicate IsInSpain(lon: real, lat: real, mainland: BBox)
  {
    mainland.minLon <= lon <= mainland.maxLon && mainland.minLat <= lat <= mainland.maxLat
  }

  /** The bounds themselves are inside: the four corners of a non-empty box
      pass, and a point just outside any side does not. */
  lemma {:induction false} BoundsInclusive(b: BBox, lon: real, lat: real)
    requires b.minLon <= b.maxLon && b.minLat <= b.maxLat
    ensures IsInSpain(b.minLon, b.minLat, b) && IsInSpain(b.maxLon, b.maxLat, b)
    ensures IsInSpain(b.minLon, b.maxLat, b) && IsInSpain(b.maxLon, b.minLat, b)
    ensures lon < b.minLon || lon > b.maxLon || lat < b.minLat || lat > b.maxLat ==> !IsInSpain(lon, lat, b)
  {
  }

  // ---------------------------------------------------------------------------
  // get_cloudless_time_indices

  /** Scene classification values counted as cloud: medium and high
      probability cloud, thin cirrus and snow. */
  predicate IsCloud(v: int)
  {
    v == 7 || v == 8 || v == 9 || v == 10
  }

  function CloudCount(slice: seq<int>): (n: nat)
    ensures n <= |slice|
  {
    if slice == [] then 0 else CloudCount(slice[..|slice| - 1]) + if IsCloud(slice[|slice| - 1]) then 1 else 0
  }

  /** The cloudy share of one time slice; an empty slice divides zero by zero
      and gives NaN, which no comparison accepts, written here as `None`. */
  function CloudFraction(slice: seq<int>): (r: Option<real>)
    ensures r.Some? ==> 0.0 <= r.value <= 1.0
  {
    if slice == [] then None else Some(CloudCount(slice) as real / |slice| as real)
  }

  const DefaultCloudThreshold: real := 0.01

  /** The time indices whose fraction is at most the threshold, in order. */
  function Valid(fractions: seq<Option<real>>, threshold: real): (r: seq<nat>)
    ensures forall k :: 0 <= k < |r| ==> r[k] < |fractions|
  {
    if fractions == [] then []
    else
      var t := |fractions| - 1;
      Valid(fractions[..t], threshold) + if fractions[t].Some? && fractions[t].value <= threshold then [t] else []
  }

  /** The fallback scan: among the slices over the threshold, the first with
      the least fraction below 1. */
  function LeastCloudy(fractions: seq<Option<real>>, threshold: real): (r: Option<nat>)
    ensures r.Some? ==> r.value < |fractions| && fractions[r.value].Some?
    ensures r.Some? ==> threshold < fractions[r.value].value < 1.0
  {
    if fractions == [] then None
    else
      var t := |fractions| - 1;
      var best := LeastCloudy(fractions[..t], threshold);
      var f := fractions[t];
      var minThreshold := if best.None? then 1.0 else fractions[best.value].value;
      if f.Some? && !(f.value <= threshold) && f.value < minThreshold then Some(t) else best
  }

  /** `valid_indices` as returned. */
  function Cloudless(fractions: seq<Option<real>>, threshold: real): seq<nat>
  {
    var valid := Valid(fractions, threshold);
    var least := LeastCloudy(fractions, threshold);
    if valid == [] && least.Some? then [least.value] else valid
  }

  function Fractions(scl: seq<seq<int>>): (r: seq<Option<real>>)
    ensures |r| == |scl| && forall t :: 0 <= t < |scl| ==> r[t] == CloudFraction(scl[t])
  {
    MapSeq(CloudFraction, scl)
  }

  /** The loop over the time dimension (logging left out). */
  method GetCloudlessTimeIndices(scl: seq<seq<int>>, cloudThreshold: real) returns (validIndices: seq<nat>)
    ensures validIndices == Cloudless(Fractions(scl), cloudThreshold)
  {
    ghost var fractions := Fractions(scl);
    validIndices := [];
    var minThreshold := 1.0;
    var minIndex := -1;
    for t := 0 to |scl|
      invariant validIndices == Valid(fractions[..t], cloudThreshold)
      invariant Least(fractions[..t], cloudThreshold, minIndex, minThreshold)
    {
      var cloudFraction := CloudFraction(scl[t]);
      ghost var seen := fractions[..t + 1];
      assert seen[..t] == fractions[..t] && seen[t] == cloudFraction;
      assert Valid(seen, cloudThreshold) ==
        validIndices + if cloudFraction.Some? && cloudFraction.value <= cloudThreshold then [t] else [];
      LeastStep(seen, cloudThreshold);
      if cloudFraction.Some? && cloudFraction.value <= cloudThreshold {
        validIndices := validIndices + [t];
      } else if cloudFraction.Some? && cloudFraction.value < minThreshold {
        minThreshold := cloudFraction.value;
        minIndex := t;
      }
    }
    assert fractions[..|scl|] == fractions;
    if |validIndices| == 0 && minIndex > -1 {
      validIndices := validIndices + [minIndex];
    }
  }

  /** `min_index` and `min_threshold` hold the fallback scan so far. */
  ghost predicate Least(fractions: seq<Option<real>>, threshold: real, minIndex: int, minThreshold: real)
  {
    match LeastCloudy(fractions, threshold)
    case None => minIndex == -1 && minThreshold == 1.0
    case Some(m) => minIndex == m && minThreshold == fractions[m].value
  }

  lemma {:induction false} LeastStep(fractions: seq<Option<real>>, threshold: real)
    requires fractions != []
    ensures var t := |fractions| - 1;
      var best := LeastCloudy(fractions[..t], threshold);
      var minThreshold := if best.None? then 1.0 else fractions[..t][best.value].value;
      LeastCloudy(fractions, threshold) ==
        if fractions[t].Some? && !(fractions[t].value <= threshold) && fractions[t].value < minThreshold then Some(t) else best
  {
  }

  /** The valid indices are exactly the slices at or under the threshold,
      in ascending order. */
  lemma {:induction false} ValidSpec(fractions: seq<Option<real>>, threshold: real)
    ensures forall t :: t in Valid(fractions, threshold) <==>
      0 <= t < |fractions| && fractions[t].Some? && fractions[t].value <= threshold
    ensures forall i, j :: 0 <= i < j < |Valid(fractions, threshold)| ==>
      Valid(fractions, threshold)[i] < Valid(fractions, threshold)[j]
  {
    if fractions != [] {
      var init := fractions[..|fractions| - 1];
      ValidSpec(init, threshold);
      assert forall k :: 0 <= k < |init| ==> init[k] == fractions[k];
    }
  }

  /** When no slice is at or under the threshold, the fallback is the first
      slice with the least fraction, provided that fraction is below 1, and
      there is none when every slice is fully cloudy. */
  lemma {:induction false} LeastCloudySpec(fractions: seq<Option<real>>, threshold: real)
    requires forall t :: 0 <= t < |fractions| && fractions[t].Some? ==> fractions[t].value > threshold
    ensures LeastCloudy(fractions, threshold).None? <==>
      forall t :: 0 <= t < |fractions| && fractions[t].Some? ==> fractions[t].value >= 1.0
    ensures LeastCloudy(fractions, threshold).Some? ==>
      var m := LeastCloudy(fractions, threshold).value;
      forall t :: 0 <= t < |fractions| && fractions[t].Some? ==>
        fractions[m].value <= fractions[t].value && (t < m ==> fractions[m].value < fractions[t].value)
  {
    if fractions != [] {
      var init := fractions[..|fractions| - 1];
      assert forall k :: 0 <= k < |init| ==> init[k] == fractions[k];
      LeastCloudySpec(init, threshold);
    }
  }

  /** The result: the valid indices when there are any; otherwise the single
      least cloudy slice below 1, or nothing. */
  lemma {:induction false} CloudlessSpec(fractions: seq<Option<real>>, threshold: real)
    ensures var r := Cloudless(fractions, threshold);
      (Valid(fractions, threshold) != [] ==> r == Valid(fractions, threshold)) &&
      (Valid(fractions, threshold) == [] ==> |r| <= 1 && (r == [] <==>
         forall t :: 0 <= t < |fractions| && fractions[t].Some? ==> fractions[t].value >= 1.0))
  {
    ValidSpec(fractions, threshold);
    if Valid(fractions, threshold) == [] {
      forall t | 0 <= t < |fractions| && fractions[t].Some? ensures fractions[t].value > threshold {
        assert t !in Valid(fractions, threshold);
      }
      LeastCloudySpec(fractions, threshold);
    }
  }
}
