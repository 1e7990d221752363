/**
 * The coordinate side of src/app/core/services/map/map.service.ts:
 * updatedCoords / convertCoordsNested, a recursive map over nested
 * coordinate arrays that reprojects every `[x, y]` pair, and the mapping
 * that loadPolygonData applies to every fetched feature. The reprojection
 * library proj4 is the parameter `proj4`.
 */
module MapService {
  import opened Wrappers
  import opened JsValues
  import Text

  const Epsg3857 := "EPSG:3857"
  const Epsg4326 := "EPSG:4326"

  /** `proj4(from, to, point)`. */
  type Proj4 = (string, string, Value) -> Value

  /** `fromType || epsg3857`: an absent or empty source name means EPSG:3857. */
  function SourceCrs(fromType: Option<string>): (crs: string)
    ensures fromType.Some? && fromType.value != "" ==> crs == fromType.value
    ensures fromType.None? || fromType.value == "" ==> crs == Epsg3857
  {
    if fromType.Some? && fromType.value != "" then fromType.value else Epsg3857
  }

  /**
   * updatedCoords(coords, fc): a pair goes to `fc`; any other array is
   * mapped element by element through convertCoordsNested WITHOUT the
   * source name; anything else comes back unchanged.
   */
  function UpdatedCoords(coords: Value, fc: Value -> Value, proj4: Proj4): (r: Value)
    ensures IsPair(coords) ==> r == fc(coords)
    ensures coords.Arr? && !IsPair(coords) ==>
              && r.Arr? && |r.items| == |coords.items|
              && forall i :: 0 <= i < |coords.items| ==> r.items[i] == ConvertCoordsNested(coords.items[i], None, proj4)
    ensures !coords.Arr? ==> r == coords
    decreases coords, 0
  {
    if IsPair(coords) then fc(coords)
    else if coords.Arr? then
      Arr(seq(|coords.items|, i requires 0 <= i < |coords.items| =>
                                ConvertCoordsNested(coords.items[i], None, proj4)))
    else coords
  }

  /** convertCoordsNested(coords, fromType): updatedCoords with the reprojection from the source name. */
  function ConvertCoordsNested(coords: Value, fromType: Option<string>, proj4: Proj4): (r: Value)
    ensures IsPair(coords) ==> r == proj4(SourceCrs(fromType), Epsg4326, coords)
    ensures coords.Arr? && !IsPair(coords) ==> r.Arr? && |r.items| == |coords.items|
    ensures !coords.Arr? ==> r == coords
    decreases coords, 1
  {
    UpdatedCoords(coords, v => proj4(SourceCrs(fromType), Epsg4326, v), proj4)
  }

  /** The reprojection from the default source, EPSG:3857, to EPSG:4326. */
  function DefaultLeaf(proj4: Proj4): Value -> Value {
    v => proj4(Epsg3857, Epsg4326, v)
  }

  /** Reference definition: apply `leaf` to every pair of a coordinate tree, keeping its shape. */
  function MapPairs(coords: Value, leaf: Value -> Value): Value
    decreases coords
  {
    if IsPair(coords) then leaf(coords)
    else if coords.Arr? then
      Arr(seq(|coords.items|, i requires 0 <= i < |coords.items| => MapPairs(coords.items[i], leaf)))
    else coords
  }

  /**
   * Only a top-level pair is reprojected from the given source; for any
   * other input every pair inside is reprojected from EPSG:3857, whatever
   * the source name.
   */
  lemma {:induction false} ConvertUsesDefaultBelowTop(coords: Value, fromType: Option<string>, proj4: Proj4)
    ensures ConvertCoordsNested(coords, fromType, proj4)
            == if IsPair(coords) then proj4(SourceCrs(fromType), Epsg4326, coords)
               else MapPairs(coords, DefaultLeaf(proj4))
    decreases coords
  {
    if !IsPair(coords) && coords.Arr? {
      var r := ConvertCoordsNested(coords, fromType, proj4);
      var m := MapPairs(coords, DefaultLeaf(proj4));
      forall i | 0 <= i < |coords.items|
        ensures r.items[i] == m.items[i]
      {
        var c := coords.items[i];
        ConvertUsesDefaultBelowTop(c, None, proj4);
        assert m.items[i] == MapPairs(c, DefaultLeaf(proj4));
        assert SourceCrs(None) == Epsg3857;
        assert IsPair(c) ==> MapPairs(c, DefaultLeaf(proj4)) == proj4(Epsg3857, Epsg4326, c);
      }
      assert r.items == m.items;
    }
  }

  /** The source name given at the top matters only when the top is itself a pair. */
  lemma SourceIgnoredUnlessPair(coords: Value, fromType: Option<string>, proj4: Proj4)
    requires !IsPair(coords)
    ensures ConvertCoordsNested(coords, fromType, proj4) == ConvertCoordsNested(coords, None, proj4)
  {
    ConvertUsesDefaultBelowTop(coords, fromType, proj4);
    ConvertUsesDefaultBelowTop(coords, None, proj4);
  }

  /** Some pair occurs somewhere in `coords`. */
  predicate HasPair(coords: Value)
    decreases coords
  {
    IsPair(coords) || (coords.Arr? && exists i :: 0 <= i < |coords.items| && HasPair(coords.items[i]))
  }

  /** Without a pair anywhere, e.g. `[x, y, z]`, nothing is converted. */
  lemma {:induction false} NoPairUnchanged(coords: Value, leaf: Value -> Value)
    requires !HasPair(coords)
    ensures MapPairs(coords, leaf) == coords
    decreases coords
  {
    if coords.Arr? {
      var m := MapPairs(coords, leaf);
      forall i | 0 <= i < |coords.items|
        ensures m.items[i] == coords.items[i]
      {
        NoPairUnchanged(coords.items[i], leaf);
      }
      assert m.items == coords.items;
    }
  }

  /** A numeric array of any length other than two comes back with its numbers unchanged. */
  lemma NumbersUnchanged(coords: Value, fromType: Option<string>, proj4: Proj4)
    requires coords.Arr? && |coords.items| != 2
    requires forall i :: 0 <= i < |coords.items| ==> coords.items[i].Num?
    ensures ConvertCoordsNested(coords, fromType, proj4) == coords
  {
    ConvertUsesDefaultBelowTop(coords, fromType, proj4);
    NoPairUnchanged(coords, DefaultLeaf(proj4));
  }

  /** The nesting of a coordinate tree with every number replaced by zero. */
  function Shape(coords: Value): Value
    decreases coords
  {
    match coords
    case Num(_) => Num(0.0)
    case Arr(items) => Arr(seq(|items|, i requires 0 <= i < |items| => Shape(items[i])))
    case _ => coords
  }

  /** If the reprojection maps pairs to pairs, the conversion keeps the nesting of its input. */
  lemma {:induction false} MapPairsKeepsShape(coords: Value, leaf: Value -> Value)
    requires forall v :: IsPair(v) ==> IsPair(leaf(v))
    ensures Shape(MapPairs(coords, leaf)) == Shape(coords)
    decreases coords
  {
    if IsPair(coords) {
      var p := leaf(coords);
      assert IsPair(p);
      assert Shape(p).items == Shape(coords).items;
    } else if coords.Arr? {
      var m := MapPairs(coords, leaf);
      forall i | 0 <= i < |coords.items|
        ensures Shape(m).items[i] == Shape(coords).items[i]
      {
        MapPairsKeepsShape(coords.items[i], leaf);
      }
      assert Shape(m).items == Shape(coords).items;
    }
  }

  lemma ConvertKeepsShape(coords: Value, fromType: Option<string>, proj4: Proj4)
    requires forall crs, v :: IsPair(v) ==> IsPair(proj4(crs, Epsg4326, v))
    ensures Shape(ConvertCoordsNested(coords, fromType, proj4)) == Shape(coords)
  {
    ConvertUsesDefaultBelowTop(coords, fromType, proj4);
    if IsPair(coords) {
      var p := proj4(SourceCrs(fromType), Epsg4326, coords);
      assert IsPair(p);
      assert Shape(p).items == Shape(coords).items;
    } else {
      MapPairsKeepsShape(coords, DefaultLeaf(proj4));
    }
  }

  // ---------------------------------------------------------------------
  // loadPolygonData

  datatype Properties = Properties(colorHex: string, number: int)   // COLOR_HEX and ID
  datatype Geometry = Geometry(kind: string, crsName: string, coordinates: Value)
  datatype Feature = Feature(featureType: string, id: Option<string>, properties: Properties, geometry: Geometry)

  /** The id loadPolygonData gives the feature at `index`. */
  function FeatureId(index: nat): (id: string)
    ensures |id| > 8 && id[..8] == "feature-"
    ensures forall k :: 8 <= k < |id| ==> '0' <= id[k] <= '9'
  {
    "feature-" + Text.NatToString(index)
  }

  /** One step of `features.map((feature, idx) => …)`. */
  function Loaded(feature: Feature, index: nat, proj4: Proj4): (r: Feature)
    ensures r.id == Some(FeatureId(index))
    ensures r.featureType == feature.featureType && r.properties == feature.properties
    ensures r.geometry.kind == feature.geometry.kind && r.geometry.crsName == feature.geometry.crsName
    ensures r.geometry.coordinates
            == ConvertCoordsNested(feature.geometry.coordinates, Some(feature.geometry.crsName), proj4)
  {
    feature.(id := Some(FeatureId(index)),
             geometry := feature.geometry.(coordinates := ConvertCoordsNested(
                           feature.geometry.coordinates, Some(feature.geometry.crsName), proj4)))
  }

  /**
   * The feature mapping of loadPolygonData: same number and order of
   * features, each with the id `feature-<index>` and its coordinates
   * converted from the source its CRS names; nothing else changes.
   */
  function LoadFeatures(features: seq<Feature>, proj4: Proj4): (r: seq<Feature>)
    ensures |r| == |features|
    ensures forall i :: 0 <= i < |r| ==>
              && r[i].id == Some(FeatureId(i))
              && r[i].featureType == features[i].featureType
              && r[i].properties == features[i].properties
              && r[i].geometry.kind == features[i].geometry.kind
              && r[i].geometry.crsName == features[i].geometry.crsName
              && r[i].geometry.coordinates
                 == ConvertCoordsNested(features[i].geometry.coordinates, Some(features[i].geometry.crsName), proj4)
  {
    seq(|features|, i requires 0 <= i < |features| => Loaded(features[i], i, proj4))
  }

  /** Different positions get different ids. */
  lemma FeatureIdInjective(i: nat, j: nat)
    requires FeatureId(i) == FeatureId(j)
    ensures i == j
  {
    var p := "feature-";
    assert Text.NatToString(i) == FeatureId(i)[|p|..] == FeatureId(j)[|p|..] == Text.NatToString(j);
    Text.NatToStringInjective(i, j);
  }

  /** Every loaded feature has an id, and no two share one. */
  lemma LoadedIdsDistinct(features: seq<Feature>, proj4: Proj4)
    ensures var r := LoadFeatures(features, proj4);
            forall i, j :: 0 <= i < j < |r| ==> r[i].id.Some? && r[i].id != r[j].id
  {
    var r := LoadFeatures(features, proj4);
    forall i, j | 0 <= i < j < |r| ensures r[i].id != r[j].id {
      if r[i].id == r[j].id {
        FeatureIdInjective(i, j);
      }
    }
  }
}
