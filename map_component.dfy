/**
 * The hexagon logic of src/app/shared/modules/map/map.component.ts, with
 * Google Maps abstracted away: the zoom-to-resolution table, the
 * `zoom_changed` guard, the cache key, the per-feature cache-or-compute
 * loop of updateHexagons, and the drawing of one polygon per cell.
 *
 * The worker pool is the parameter `compute` (one awaited `pool.run`),
 * h3.cellToBoundary is the parameter `boundary`, and the injected cache
 * store is the field `cache`, a map from key to stored record.
 */
module HexMap {
  import opened Wrappers
  import Text
  import HexWorker
  import MapService

  const DefaultZoom := 7

  /** The `zoomToResolution` table. */
  const ZoomToResolution: map<int, nat> :=
    map[0 := 0, 1 := 1, 2 := 2, 3 := 2, 4 := 3, 5 := 3, 6 := 4, 7 := 4, 8 := 5, 9 := 5, 10 := 6,
        11 := 6, 12 := 7, 13 := 7, 14 := 8, 15 := 9, 16 := 10, 17 := 11, 18 := 12, 19 := 13, 20 := 14]

  /** getResolutionForZoom: the table entry, `undefined` (None) for a zoom not in the table. */
  function GetResolutionForZoom(zoom: int): (r: Option<nat>)
    ensures r.Some? <==> 0 <= zoom <= 20
    ensures r.Some? ==> r.value <= 14 && r.value <= zoom
  {
    if zoom in ZoomToResolution then Some(ZoomToResolution[zoom]) else None
  }

  /** One zoom step never lowers the resolution. */
  lemma ResolutionStep(zoom: int)
    requires 0 <= zoom < 20
    ensures GetResolutionForZoom(zoom).value <= GetResolutionForZoom(zoom + 1).value
  {
  }

  /**
   * The table is defined exactly for zooms 0 to 20, gives resolutions 0 to
   * 14 that never exceed the zoom, and is non-decreasing in the zoom.
   */
  lemma {:induction false} ResolutionTable(zoom: int, higher: int)
    ensures GetResolutionForZoom(zoom).Some? <==> 0 <= zoom <= 20
    ensures 0 <= zoom <= 20 ==> GetResolutionForZoom(zoom).value <= 14
    ensures 0 <= zoom <= 20 ==> GetResolutionForZoom(zoom).value <= zoom
    ensures 0 <= zoom <= higher <= 20 ==> GetResolutionForZoom(zoom).value <= GetResolutionForZoom(higher).value
    decreases higher - zoom
  {
    if 0 <= zoom < higher <= 20 {
      ResolutionStep(zoom);
      ResolutionTable(zoom + 1, higher);
    }
  }

  // ---------------------------------------------------------------------
  // Cache keys

  /** `${id}`: an absent id prints as "undefined". */
  function IdText(id: Option<string>): string {
    if id.Some? then id.value else "undefined"
  }

  /** `${resolution}`. */
  function ResolutionText(resolution: Option<nat>): (s: string)
    ensures '-' !in s
  {
    if resolution.Some? then Text.NatToString(resolution.value) else "undefined"
  }

  /** The key updateHexagons reads and writes: `feature-<id>-<resolution>`. */
  function CacheKey(id: Option<string>, resolution: Option<nat>): (key: string)
    ensures |key| == 9 + |IdText(id)| + |ResolutionText(resolution)|
    ensures key[..8] == "feature-" && key[8..8 + |IdText(id)|] == IdText(id)
    ensures key[8 + |IdText(id)|] == '-' && key[9 + |IdText(id)|..] == ResolutionText(resolution)
  {
    "feature-" + IdText(id) + "-" + ResolutionText(resolution)
  }

  lemma ResolutionTextInjective(a: Option<nat>, b: Option<nat>)
    requires ResolutionText(a) == ResolutionText(b)
    ensures a == b
  {
    var first := ResolutionText(a)[0];
    assert a.None? <==> first == 'u';
    assert b.None? <==> first == 'u';
    if a.Some? && b.Some? {
      Text.NatToStringInjective(a.value, b.value);
    }
  }

  /**
   * A key determines the printed id and the resolution: since a printed
   * resolution holds no '-', the last '-' of a key separates the two.
   */
  lemma CacheKeyInjective(a: Option<string>, ra: Option<nat>, b: Option<string>, rb: Option<nat>)
    requires CacheKey(a, ra) == CacheKey(b, rb)
    ensures IdText(a) == IdText(b) && ra == rb
  {
    var key := CacheKey(a, ra);
    var ta, tb := ResolutionText(ra), ResolutionText(rb);
    var pa, pb := "feature-" + IdText(a) + "-", "feature-" + IdText(b) + "-";
    assert key == pa + ta == pb + tb;
    assert key[|pa| - 1] == '-' && key[|pb| - 1] == '-';
    assert |pa| == |pb|;
    assert ta == key[|pa|..] == tb;
    ResolutionTextInjective(ra, rb);
    assert pa == key[..|pa|] == pb;
    assert IdText(a) == pa[8..|pa| - 1] == pb[8..|pb| - 1] == IdText(b);
  }

  // ---------------------------------------------------------------------
  // Drawing

  datatype LatLng = LatLng(lat: real, lng: real)

  /** h3.cellToBoundary followed by `([lat, lng]) => ({lat, lng})`. */
  type Boundary = string -> seq<LatLng>

  /** The options of one `new google.maps.Polygon` (its `map` is always the component's map). */
  datatype Polygon = Polygon(path: seq<LatLng>, strokeColor: string, strokeWeight: nat,
                             fillColor: string, fillOpacity: real)

  /** `polygonColor ? #<polygonColor> : #FF0000`; the empty string is falsy. */
  function StrokeColor(color: string): (c: string)
    ensures color != "" ==> c == "#" + color
    ensures color == "" ==> c == "#FF0000"
  {
    if color != "" then "#" + color else "#FF0000"
  }

  /** `polygonColor ? #<polygonColor> : #FFAAAA`. */
  function FillColor(color: string): (c: string)
    ensures color != "" ==> c == "#" + color
    ensures color == "" ==> c == "#FFAAAA"
  {
    if color != "" then "#" + color else "#FFAAAA"
  }

  /**
   * What drawHexes adds for one record: one polygon per cell id, in order;
   * nothing for an `{error}` record, which has no `cellIds`.
   */
  function HexPolygons(data: HexWorker.Reply, boundary: Boundary): (ps: seq<Polygon>)
    ensures |ps| == if data.Computed? then |data.cellIds| else 0
    ensures data.Computed? ==> forall i :: 0 <= i < |ps| ==>
              && ps[i].path == boundary(data.cellIds[i])
              && ps[i].strokeColor == StrokeColor(data.polygonColor)
              && ps[i].fillColor == FillColor(data.polygonColor)
  {
    if data.Failed? then []
    else seq(|data.cellIds|, i requires 0 <= i < |data.cellIds| =>
               Polygon(boundary(data.cellIds[i]), StrokeColor(data.polygonColor), 1,
                       FillColor(data.polygonColor), 0.5))
  }

  // ---------------------------------------------------------------------
  // The cache-or-compute pass of updateHexagons, as a function

  /** The data `pool.run` receives for a feature. */
  function RequestFor(feature: MapService.Feature, resolution: Option<nat>): HexWorker.Request {
    HexWorker.Request(feature.geometry.coordinates, resolution, feature.properties.colorHex)
  }

  /** The outcome of one pass: polygons drawn, the cache afterwards, and the pool calls made. */
  datatype Pass = Pass(polygons: seq<Polygon>, cache: map<string, HexWorker.Reply>,
                       requests: seq<HexWorker.Request>)
  {
    /** This pass followed by `next`, which started from this pass's cache. */
    function Then(next: Pass): Pass {
      Pass(polygons + next.polygons, next.cache, requests + next.requests)
    }
  }

  lemma ThenAssociative(a: Pass, b: Pass, c: Pass)
    ensures a.Then(b).Then(c) == a.Then(b.Then(c))
  {
    assert (a.polygons + b.polygons) + c.polygons == a.polygons + (b.polygons + c.polygons);
    assert (a.requests + b.requests) + c.requests == a.requests + (b.requests + c.requests);
  }

  /**
   * One feature: a cached record is drawn; otherwise the pool computes one,
   * it is drawn and then stored under the feature's key.
   */
  function RenderOne(feature: MapService.Feature, resolution: Option<nat>,
                     cache: map<string, HexWorker.Reply>,
                     compute: HexWorker.Request -> HexWorker.Reply, boundary: Boundary): (r: Pass)
    ensures var key := CacheKey(feature.id, resolution);
            && key in r.cache && (forall k :: k in cache ==> k in r.cache && r.cache[k] == cache[k])
            && r.cache.Keys == cache.Keys + {key}
            && r.polygons == HexPolygons(r.cache[key], boundary)
            && (key in cache ==> r.requests == [])
            && (key !in cache ==> r.requests == [RequestFor(feature, resolution)]
                                  && r.cache[key] == compute(RequestFor(feature, resolution)))
  {
    var key := CacheKey(feature.id, resolution);
    if key in cache then Pass(HexPolygons(cache[key], boundary), cache, [])
    else
      var request := RequestFor(feature, resolution);
      var result := compute(request);
      Pass(HexPolygons(result, boundary), cache[key := result], [request])
  }

  /** The features in order, each seeing the cache the previous ones left. */
  function Render(features: seq<MapService.Feature>, resolution: Option<nat>,
                  cache: map<string, HexWorker.Reply>,
                  compute: HexWorker.Request -> HexWorker.Reply, boundary: Boundary): (r: Pass)
    ensures |r.requests| <= |features|
    ensures cache.Keys <= r.cache.Keys
    decreases |features|
  {
    if features == [] then Pass([], cache, [])
    else
      var first := RenderOne(features[0], resolution, cache, compute, boundary);
      first.Then(Render(features[1..], resolution, first.cache, compute, boundary))
  }

  /** Render from position `i` on is the `i`-th feature followed by the rest. */
  lemma RenderFrom(features: seq<MapService.Feature>, i: nat, resolution: Option<nat>,
                   cache: map<string, HexWorker.Reply>,
                   compute: HexWorker.Request -> HexWorker.Reply, boundary: Boundary)
    requires i < |features|
    ensures var first := RenderOne(features[i], resolution, cache, compute, boundary);
            var rest := Render(features[i + 1..], resolution, first.cache, compute, boundary);
            Render(features[i..], resolution, cache, compute, boundary) == first.Then(rest)
  {
    assert features[i..][0] == features[i] && features[i..][1..] == features[i + 1..];
  }

  /** A pass keeps every entry it found and leaves an entry for every feature. */
  lemma {:induction false} RenderKeepsEntries(features: seq<MapService.Feature>, resolution: Option<nat>,
                                              cache: map<string, HexWorker.Reply>,
                                              compute: HexWorker.Request -> HexWorker.Reply, boundary: Boundary)
    ensures var after := Render(features, resolution, cache, compute, boundary).cache;
            && (forall k :: k in cache ==> k in after && after[k] == cache[k])
            && (forall i :: 0 <= i < |features| ==> CacheKey(features[i].id, resolution) in after)
    decreases |features|
  {
    if features != [] {
      var key := CacheKey(features[0].id, resolution);
      var next := RenderOne(features[0], resolution, cache, compute, boundary).cache;
      var after := Render(features[1..], resolution, next, compute, boundary).cache;
      assert Render(features, resolution, cache, compute, boundary).cache == after;
      RenderKeepsEntries(features[1..], resolution, next, compute, boundary);
      forall i | 0 <= i < |features| ensures CacheKey(features[i].id, resolution) in after {
        if i > 0 {
          assert features[i] == features[1..][i - 1];
        }
      }
    }
  }

  /**
   * Replaying a pass on a cache that holds, for every feature, the record
   * the pass left there draws the same polygons and calls the pool for
   * nothing.
   */
  lemma {:induction false} RenderReplay(features: seq<MapService.Feature>, resolution: Option<nat>,
                                        cache: map<string, HexWorker.Reply>, warm: map<string, HexWorker.Reply>,
                                        compute: HexWorker.Request -> HexWorker.Reply, boundary: Boundary)
    requires forall i :: 0 <= i < |features| ==>
               var key := CacheKey(features[i].id, resolution);
               key in warm && key in Render(features, resolution, cache, compute, boundary).cache
               && warm[key] == Render(features, resolution, cache, compute, boundary).cache[key]
    ensures Render(features, resolution, warm, compute, boundary)
            == Pass(Render(features, resolution, cache, compute, boundary).polygons, warm, [])
    decreases |features|
  {
    if features != [] {
      var key := CacheKey(features[0].id, resolution);
      var next := RenderOne(features[0], resolution, cache, compute, boundary).cache;
      RenderKeepsEntries(features[1..], resolution, next, compute, boundary);
      assert warm[key] == next[key];
      forall i | 0 <= i < |features[1..]|
        ensures var k := CacheKey(features[1..][i].id, resolution);
                k in warm && k in Render(features[1..], resolution, next, compute, boundary).cache
                && warm[k] == Render(features[1..], resolution, next, compute, boundary).cache[k]
      {
        assert features[1..][i] == features[i + 1];
      }
      RenderReplay(features[1..], resolution, next, warm, compute, boundary);
    }
  }

  /** A second pass over the cache the first one left draws the same and calls the pool for nothing. */
  lemma SecondPassIsCached(features: seq<MapService.Feature>, resolution: Option<nat>,
                           cache: map<string, HexWorker.Reply>,
                           compute: HexWorker.Request -> HexWorker.Reply, boundary: Boundary)
    ensures var first := Render(features, resolution, cache, compute, boundary);
            Render(features, resolution, first.cache, compute, boundary) == Pass(first.polygons, first.cache, [])
  {
    RenderKeepsEntries(features, resolution, cache, compute, boundary);
    RenderReplay(features, resolution, cache, Render(features, resolution, cache, compute, boundary).cache,
                 compute, boundary);
  }

  /** With every feature's key cached, the pool is never called and the cache is unchanged. */
  lemma AllCachedComputesNothing(features: seq<MapService.Feature>, resolution: Option<nat>,
                                 cache: map<string, HexWorker.Reply>,
                                 compute: HexWorker.Request -> HexWorker.Reply, boundary: Boundary)
    requires forall i :: 0 <= i < |features| ==> CacheKey(features[i].id, resolution) in cache
    ensures Render(features, resolution, cache, compute, boundary).requests == []
    ensures Render(features, resolution, cache, compute, boundary).cache == cache
  {
    RenderKeepsEntries(features, resolution, cache, compute, boundary);
    RenderReplay(features, resolution, cache, cache, compute, boundary);
  }

  /** Reference definition: the requests for the features whose key is not in `cache`, in order. */
  function Misses(features: seq<MapService.Feature>, resolution: Option<nat>,
                  cache: map<string, HexWorker.Reply>): seq<HexWorker.Request>
    decreases |features|
  {
    if features == [] then []
    else (if CacheKey(features[0].id, resolution) in cache then [] else [RequestFor(features[0], resolution)])
         + Misses(features[1..], resolution, cache)
  }

  predicate DistinctKeys(features: seq<MapService.Feature>, resolution: Option<nat>) {
    forall i, j :: 0 <= i < j < |features| ==>
      CacheKey(features[i].id, resolution) != CacheKey(features[j].id, resolution)
  }

  lemma {:induction false} MissesIgnoresOtherKey(features: seq<MapService.Feature>, resolution: Option<nat>,
                                                 cache: map<string, HexWorker.Reply>,
                                                 key: string, value: HexWorker.Reply)
    requires forall i :: 0 <= i < |features| ==> CacheKey(features[i].id, resolution) != key
    ensures Misses(features, resolution, cache[key := value]) == Misses(features, resolution, cache)
    decreases |features|
  {
    if features != [] {
      assert forall i :: 0 <= i < |features[1..]| ==> features[1..][i] == features[i + 1];
      MissesIgnoresOtherKey(features[1..], resolution, cache, key, value);
    }
  }

  /**
   * When no two features share a key, as after loadPolygonData, the pool
   * is called exactly once for each feature missing from the cache, in order.
   */
  lemma {:induction false} RenderComputesEachMissOnce(features: seq<MapService.Feature>, resolution: Option<nat>,
                                                      cache: map<string, HexWorker.Reply>,
                                                      compute: HexWorker.Request -> HexWorker.Reply,
                                                      boundary: Boundary)
    requires DistinctKeys(features, resolution)
    ensures Render(features, resolution, cache, compute, boundary).requests == Misses(features, resolution, cache)
    decreases |features|
  {
    if features != [] {
      var key := CacheKey(features[0].id, resolution);
      assert forall i :: 0 <= i < |features[1..]| ==> features[1..][i] == features[i + 1];
      if key in cache {
        RenderComputesEachMissOnce(features[1..], resolution, cache, compute, boundary);
      } else {
        var result := compute(RequestFor(features[0], resolution));
        RenderComputesEachMissOnce(features[1..], resolution, cache[key := result], compute, boundary);
        MissesIgnoresOtherKey(features[1..], resolution, cache, key, result);
      }
    }
  }

  /** Features as loadPolygonData delivers them never share a cache key. */
  lemma LoadedFeaturesHaveDistinctKeys(features: seq<MapService.Feature>, proj4: MapService.Proj4,
                                       resolution: Option<nat>)
    ensures DistinctKeys(MapService.LoadFeatures(features, proj4), resolution)
  {
    var loaded := MapService.LoadFeatures(features, proj4);
    MapService.LoadedIdsDistinct(features, proj4);
    forall i, j | 0 <= i < j < |loaded|
      ensures CacheKey(loaded[i].id, resolution) != CacheKey(loaded[j].id, resolution)
    {
      if CacheKey(loaded[i].id, resolution) == CacheKey(loaded[j].id, resolution) {
        CacheKeyInjective(loaded[i].id, resolution, loaded[j].id, resolution);
      }
    }
  }

  // ---------------------------------------------------------------------
  // The component

  /** `map.getZoom() || DEFAULT_ZOOM`: no zoom, or zoom 0, reads as the default. */
  function ReportedZoom(reported: Option<int>): (zoom: int)
    ensures reported.None? || reported.value == 0 ==> zoom == DefaultZoom
    ensures reported.Some? && reported.value != 0 ==> zoom == reported.value
  {
    if reported.Some? && reported.value != 0 then reported.value else DefaultZoom
  }

  class MapComponent {
    var hexPolygons: seq<Polygon>
    var currentZoom: int
    var currentResolution: Option<nat>
    /** The contents of the injected cache store. */
    var cache: map<string, HexWorker.Reply>
    /** The polygons taken off the map with `setMap(null)`, in order. */
    ghost var removed: seq<Polygon>
    /** The data handed to `pool.run`, in order. */
    ghost var poolRequests: seq<HexWorker.Request>

    /** The current resolution always belongs to the current zoom. */
    ghost predicate Valid()
      reads this
    {
      currentResolution == GetResolutionForZoom(currentZoom)
    }

    constructor (store: map<string, HexWorker.Reply>)
      ensures Valid()
      ensures currentZoom == DefaultZoom && currentResolution == Some(4)
      ensures hexPolygons == [] && cache == store && removed == [] && poolRequests == []
    {
      hexPolygons := [];
      currentZoom := DefaultZoom;
      currentResolution := GetResolutionForZoom(DefaultZoom);
      cache := store;
      removed := [];
      poolRequests := [];
    }

    /** clearHexPolygons: every drawn polygon is taken off the map, in order, and the list emptied. */
    method ClearHexPolygons()
      requires Valid()
      modifies this
      ensures Valid()
      ensures hexPolygons == [] && removed == old(removed) + old(hexPolygons)
      ensures cache == old(cache) && poolRequests == old(poolRequests)
      ensures currentZoom == old(currentZoom) && currentResolution == old(currentResolution)
    {
      for i := 0 to |hexPolygons|
        invariant removed == old(removed) + hexPolygons[..i]
        invariant hexPolygons == old(hexPolygons) && cache == old(cache) && poolRequests == old(poolRequests)
        invariant currentZoom == old(currentZoom) && currentResolution == old(currentResolution)
      {
        removed := removed + [hexPolygons[i]];
      }
      hexPolygons := [];
    }

    /**
     * drawHexes with renderHexagons: for a record with cell ids, one polygon
     * per cell, in order, is drawn and pushed onto `hexPolygons`.
     */
    method DrawHexes(data: HexWorker.Reply, boundary: Boundary)
      requires Valid()
      modifies this
      ensures Valid()
      ensures hexPolygons == old(hexPolygons) + HexPolygons(data, boundary)
      ensures cache == old(cache) && removed == old(removed) && poolRequests == old(poolRequests)
      ensures currentZoom == old(currentZoom) && currentResolution == old(currentResolution)
    {
      if data.Computed? && |data.cellIds| > 0 {
        var cellIds := data.cellIds;
        for i := 0 to |cellIds|
          invariant hexPolygons == old(hexPolygons) + HexPolygons(data, boundary)[..i]
          invariant cache == old(cache) && removed == old(removed) && poolRequests == old(poolRequests)
          invariant currentZoom == old(currentZoom) && currentResolution == old(currentResolution)
        {
          var path := boundary(cellIds[i]);
          var polygon := Polygon(path, StrokeColor(data.polygonColor), 1, FillColor(data.polygonColor), 0.5);
          hexPolygons := hexPolygons + [polygon];
        }
        assert HexPolygons(data, boundary)[..|cellIds|] == HexPolygons(data, boundary);
      }
    }

    /**
     * The body of updateHexagons' loop for one feature: a cached record is
     * drawn; otherwise the pool computes it, it is drawn, then stored.
     */
    method UpdateFeature(feature: MapService.Feature, resolution: Option<nat>,
                         compute: HexWorker.Request -> HexWorker.Reply, boundary: Boundary)
      requires Valid()
      modifies this
      ensures Valid()
      ensures State() == old(State()).Then(RenderOne(feature, resolution, old(cache), compute, boundary))
      ensures removed == old(removed)
      ensures currentZoom == old(currentZoom) && currentResolution == old(currentResolution)
    {
      var key := CacheKey(feature.id, resolution);
      if key in cache {
        // `if (cached)`: a stored record is always truthy
        DrawHexes(cache[key], boundary);
        return;
      }
      var request := RequestFor(feature, resolution);
      var result := compute(request);
      poolRequests := poolRequests + [request];
      DrawHexes(result, boundary);
      cache := cache[key := result];
    }

    /** What the component has drawn, stored and asked of the pool so far. */
    ghost function State(): Pass
      reads this
    {
      Pass(hexPolygons, cache, poolRequests)
    }

    /**
     * updateHexagons: nothing without a map; otherwise the old polygons are
     * cleared and the features are rendered in order as Render describes.
     */
    method UpdateHexagons(mapPresent: bool, features: seq<MapService.Feature>, resolution: Option<nat>,
                          compute: HexWorker.Request -> HexWorker.Reply, boundary: Boundary)
      requires Valid()
      modifies this
      ensures Valid()
      ensures !mapPresent ==> && hexPolygons == old(hexPolygons) && cache == old(cache)
                              && removed == old(removed) && poolRequests == old(poolRequests)
      ensures mapPresent ==> var pass := Render(features, resolution, old(cache), compute, boundary);
                             && removed == old(removed) + old(hexPolygons)
                             && hexPolygons == pass.polygons && cache == pass.cache
                             && poolRequests == old(poolRequests) + pass.requests
      ensures currentZoom == old(currentZoom) && currentResolution == old(currentResolution)
    {
      if !mapPresent {
        return;
      }
      ClearHexPolygons();
      ghost var start := State();
      ghost var total := Render(features, resolution, cache, compute, boundary);
      assert features[0..] == features;
      for i := 0 to |features|
        invariant Valid()
        invariant State().Then(Render(features[i..], resolution, cache, compute, boundary)) == start.Then(total)
        invariant removed == old(removed) + old(hexPolygons)
        invariant currentZoom == old(currentZoom) && currentResolution == old(currentResolution)
      {
        RenderFrom(features, i, resolution, cache, compute, boundary);
        ghost var before := State();
        ghost var one := RenderOne(features[i], resolution, cache, compute, boundary);
        ghost var rest := Render(features[i + 1..], resolution, one.cache, compute, boundary);
        UpdateFeature(features[i], resolution, compute, boundary);
        ThenAssociative(before, one, rest);
      }
      assert features[|features|..] == [];
      assert hexPolygons + [] == hexPolygons && poolRequests + [] == poolRequests;
      assert [] + total.polygons == total.polygons;
    }

    /**
     * The `zoom_changed` listener: the state is updated, and updateHexagons
     * started with the new resolution, only when both the zoom and its
     * resolution differ from the current ones. Since the current resolution
     * always belongs to the current zoom, that is exactly when the
     * resolution changes.
     */
    method OnZoomChanged(reported: Option<int>) returns (refresh: bool, resolution: Option<nat>)
      requires Valid()
      modifies this`currentZoom, this`currentResolution
      ensures Valid()
      ensures resolution == GetResolutionForZoom(ReportedZoom(reported))
      ensures refresh <==> ReportedZoom(reported) != old(currentZoom) && resolution != old(currentResolution)
      ensures refresh <==> resolution != old(currentResolution)
      ensures refresh ==> currentZoom == ReportedZoom(reported) && currentResolution == resolution
      ensures !refresh ==> currentZoom == old(currentZoom) && currentResolution == old(currentResolution)
    {
      var zoom := ReportedZoom(reported);
      resolution := GetResolutionForZoom(zoom);
      var isResolutionChanged := currentResolution != resolution;
      refresh := zoom != currentZoom && isResolutionChanged;
      if refresh {
        currentZoom := zoom;
        currentResolution := resolution;
      }
    }
  }
}
