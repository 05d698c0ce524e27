/** The location-based switch selection of the Muhamud example: the device's
    geohash is compared with each switch's geohash using Java's
    `String.compareTo`, and the switch with the smallest result below 10
    wins, the first one on ties; when no result is below 10 the device stays
    on the default switch with latency 50. */
module SwitchSelection {
  import opened GeoHash

  /** Java's `String.compareTo`: the difference of the first two characters
      that differ, or else the difference of the lengths. */
  function CompareTo(a: string, b: string): int
  {
    if a == [] || b == [] then |a| - |b|
    else if a[0] != b[0] then a[0] as int - b[0] as int
    else CompareTo(a[1..], b[1..])
  }

  /** compareTo is zero exactly on equal strings. */
  lemma {:induction false} CompareToZero(a: string, b: string)
    ensures CompareTo(a, b) == 0 <==> a == b
  {
    if a != [] && b != [] && a[0] == b[0] {
      CompareToZero(a[1..], b[1..]);
      assert a == [a[0]] + a[1..] && b == [b[0]] + b[1..];
    }
  }

  /** Swapping the strings negates the result. */
  lemma {:induction false} CompareToAntisymmetric(a: string, b: string)
    ensures CompareTo(a, b) == -CompareTo(b, a)
  {
    if a != [] && b != [] && a[0] == b[0] {
      CompareToAntisymmetric(a[1..], b[1..]);
    }
  }

  /** A common prefix does not change the result. */
  lemma {:induction false} CompareToCommonPrefix(p: string, a: string, b: string)
    ensures CompareTo(p + a, p + b) == CompareTo(a, b)
  {
    if p != [] {
      assert (p + a)[1..] == p[1..] + a;
      assert (p + b)[1..] == p[1..] + b;
      CompareToCommonPrefix(p[1..], a, b);
    } else {
      assert p + a == a && p + b == b;
    }
  }

  /** Two digit strings whose lengths differ by less than the threshold
      always compare below it: their first differing characters are digits,
      at most 9 apart. */
  lemma {:induction false} DigitsCompareBelowThreshold(a: string, b: string)
    requires AllDigits(a) && AllDigits(b) && |a| - |b| < Threshold
    ensures CompareTo(a, b) < Threshold
  {
    if a != [] && b != [] && a[0] == b[0] {
      DigitsCompareBelowThreshold(a[1..], b[1..]);
    }
  }

  /** Because each 5-bit group is written as the decimal text of a
      character code, two geohashes of the same precision always compare
      below the threshold: the default switch and latency 50 are never
      chosen when there is at least one candidate. (A precision of 0 or
      less gives two empty geohashes, which compare equal.) */
  lemma GeoHashesCompareBelowThreshold(lat1: int, lon1: int, lat2: int, lon2: int, precision: int)
    ensures CompareTo(GeoHashSpec(lat1, lon1, precision), GeoHashSpec(lat2, lon2, precision)) < Threshold
  {
    GeoHashShape(lat1, lon1, precision);
    GeoHashShape(lat2, lon2, precision);
    DigitsCompareBelowThreshold(GeoHashSpec(lat1, lon1, precision), GeoHashSpec(lat2, lon2, precision));
  }

  /** When the device and every candidate switch carry geohashes of the
      same precision, some candidate compares below the threshold,
      so `SelectSwitch` takes its second case: latency 1, never the
      fallback. */
  lemma NearSwitchAlwaysFound(lat: int, lon: int, precision: int, sites: seq<Site>, coords: seq<(int, int)>)
    requires sites != [] && |coords| == |sites|
    requires forall i :: 0 <= i < |sites| ==> sites[i].geomap == GeoHashSpec(coords[i].0, coords[i].1, precision)
    ensures exists i :: 0 <= i < |sites| && CompareTo(GeoHashSpec(lat, lon, precision), sites[i].geomap) < Threshold
  {
    GeoHashesCompareBelowThreshold(lat, lon, coords[0].0, coords[0].1, precision);
  }

  /** A candidate switch: its id and its geohash. */
  datatype Site = Site(id: int, geomap: string)

  /** The threshold a comparison must stay below to win. */
  const Threshold := 10

  /** The latencies the loop assigns. */
  const DefaultLatency := 50
  const NearLatency := 1

  /** The loop over the switches: `diff` starts at the threshold, and a
      switch whose comparison is strictly below the current `diff` becomes
      the selection with latency 1. */
  method SelectSwitch(devGeomap: string, sites: seq<Site>, fallback: Site) returns (selected: Site, latency: int)
    ensures (forall i :: 0 <= i < |sites| ==> CompareTo(devGeomap, sites[i].geomap) >= Threshold) ==>
              selected == fallback && latency == DefaultLatency
    ensures (exists i :: 0 <= i < |sites| && CompareTo(devGeomap, sites[i].geomap) < Threshold) ==>
              latency == NearLatency &&
              exists k :: 0 <= k < |sites| && selected == sites[k]
                && CompareTo(devGeomap, sites[k].geomap) < Threshold
                && (forall j :: 0 <= j < |sites| ==> CompareTo(devGeomap, sites[k].geomap) <= CompareTo(devGeomap, sites[j].geomap))
                && (forall j :: 0 <= j < k ==> CompareTo(devGeomap, sites[k].geomap) < CompareTo(devGeomap, sites[j].geomap))
  {
    latency := DefaultLatency;
    var diff := Threshold;
    selected := fallback;
    ghost var chosen := -1;
    var i := 0;
    while i < |sites|
      invariant 0 <= i <= |sites|
      invariant -1 <= chosen < i
      invariant chosen == -1 ==> selected == fallback && latency == DefaultLatency && diff == Threshold
      invariant chosen == -1 ==> forall j :: 0 <= j < i ==> CompareTo(devGeomap, sites[j].geomap) >= Threshold
      invariant chosen >= 0 ==> selected == sites[chosen] && latency == NearLatency
                                && diff == CompareTo(devGeomap, sites[chosen].geomap) < Threshold
      invariant chosen >= 0 ==> forall j :: 0 <= j < chosen ==> diff < CompareTo(devGeomap, sites[j].geomap)
      invariant forall j :: 0 <= j < i ==> diff <= CompareTo(devGeomap, sites[j].geomap)
    {
      var diff1 := CompareTo(devGeomap, sites[i].geomap);
      if diff1 < diff {
        diff := diff1;
        selected := sites[i];
        latency := NearLatency;
        chosen := i;
      }
      i := i + 1;
    }
  }
}
