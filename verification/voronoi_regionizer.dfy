/** The Voronoi regionizer: seed registration, the fail-fast seed checks and the
    keying of generated regions by seed index.

    Points are abstract (any type with equality); the centroid of a seed geometry,
    the spherical Voronoi generator and the clip to the mask are floating-point
    geometry and enter the model as function parameters. */
module Voronoi {
  import opened Results

  /** Default bound, in meters, on the distance between two consecutive points of a region. */
  const DefaultMaxMetersBetweenPoints: int := 10_000

  /** EPSG code of WGS84, the coordinate reference system of the generated regions. */
  const Wgs84: int := 4326

  /** One row of the seed table: its index value and its geometry. */
  datatype SeedRow<Id, G> = SeedRow(index: Id, geometry: G)

  /** The two ValueErrors raised by the constructor. */
  datatype SeedError = MinimumOneSeedRequired | DuplicateSeedsPresent {
    function Message(): string
    {
      match this
      case MinimumOneSeedRequired => "Minimum one seed is required."
      case DuplicateSeedsPresent => "Duplicate seeds present."
    }
  }

  /** Building the region table fails when the generator does not return one
      region per seed (pandas: "Length of values does not match length of index"). */
  datatype TransformError = LengthMismatch(regions: nat, ids: nat)

  /** The region table before and after clipping: row i holds the region of seed index index[i]. */
  datatype RegionFrame<Id, Rg> = RegionFrame(index: seq<Id>, geometry: seq<Rg>, crs: int)

  /** True when two distinct positions of `s` hold equal points. */
  ghost predicate SomePairEqual<P>(s: seq<P>)
  {
    exists i, j :: 0 <= i < j < |s| && s[i] == s[j]
  }

  /** `any(p1.equals(p2) for p1, p2 in combinations(s, r=2))`: the pairs are
      visited in the order `combinations` produces them, first element first. */
  function AnyPairEqual<P(==)>(s: seq<P>): (b: bool)
    ensures b <==> SomePairEqual(s)
  {
    if |s| < 2 then false
    else if s[0] in s[1..] then
      assert exists j :: 0 < j < |s| && s[0] == s[j];
      true
    else
      var rest := AnyPairEqual(s[1..]);
      if rest then
        ghost var i, j :| 0 <= i < j < |s[1..]| && s[1..][i] == s[1..][j];
        assert s[i + 1] == s[j + 1];
        true
      else
        assert forall i, j :: 0 <= i < j < |s| ==> s[i] != s[j] by {
          forall i, j | 0 <= i < j < |s| ensures s[i] != s[j] {
            if i == 0 {
              assert s[j] in s[1..];
            } else {
              assert s[1..][i - 1] == s[i] && s[1..][j - 1] == s[j];
            }
          }
        }
        false
  }

  /** The checks at the end of the constructor: the empty table first, then equal seeds. */
  function CheckSeeds<P(==)>(rowCount: nat, seeds: seq<P>): (e: Option<SeedError>)
    requires rowCount == |seeds|
    ensures rowCount == 0 <==> e == Some(MinimumOneSeedRequired)
    ensures e == Some(DuplicateSeedsPresent) <==> rowCount > 0 && SomePairEqual(seeds)
    ensures e == None <==> |seeds| > 0 && forall i, j :: 0 <= i < j < |seeds| ==> seeds[i] != seeds[j]
  {
    if rowCount == 0 then Some(MinimumOneSeedRequired)
    else if AnyPairEqual(seeds) then Some(DuplicateSeedsPresent)
    else None
  }

  /** The region table of `transform` before clipping: row i is keyed by `ids[i]`
      and holds `generated[i]`. */
  function BuildRegions<Id, Rg>(ids: seq<Id>, generated: seq<Rg>): (r: Result<RegionFrame<Id, Rg>, TransformError>)
    ensures r.Failure? <==> |generated| != |ids|
    ensures r.Failure? ==> r.error == LengthMismatch(|generated|, |ids|)
    ensures r.Success? ==> r.value.index == ids && |r.value.geometry| == |ids| && r.value.crs == Wgs84
    ensures r.Success? ==> forall i :: 0 <= i < |ids| ==> r.value.geometry[i] == generated[i]
  {
    if |generated| != |ids| then Failure(LengthMismatch(|generated|, |ids|))
    else Success(RegionFrame(ids, generated, Wgs84))
  }

  class VoronoiRegionizer<Id, G, P(==)> {
    var regionIds: seq<Id>
    var seeds: seq<P>
    var maxMetersBetweenPoints: int

    /** Walks the seed table in order, recording each row's index and its
        geometry's centroid. The checks are applied by `Create`. */
    constructor (seedTable: seq<SeedRow<Id, G>>, centroid: G -> P, maxMetersBetweenPoints: int := DefaultMaxMetersBetweenPoints)
      ensures this.maxMetersBetweenPoints == maxMetersBetweenPoints
      ensures |regionIds| == |seedTable| && |seeds| == |seedTable|
      ensures forall i :: 0 <= i < |seedTable| ==> regionIds[i] == seedTable[i].index
      ensures forall i :: 0 <= i < |seedTable| ==> seeds[i] == centroid(seedTable[i].geometry)
    {
      regionIds := [];
      seeds := [];
      this.maxMetersBetweenPoints := maxMetersBetweenPoints;
      new;
      for k := 0 to |seedTable|
        invariant this.maxMetersBetweenPoints == maxMetersBetweenPoints
        invariant |regionIds| == k && |seeds| == k
        invariant forall i :: 0 <= i < k ==> regionIds[i] == seedTable[i].index
        invariant forall i :: 0 <= i < k ==> seeds[i] == centroid(seedTable[i].geometry)
      {
        regionIds := regionIds + [seedTable[k].index];
        seeds := seeds + [centroid(seedTable[k].geometry)];
      }
    }

    /** `transform`: the generator's regions keyed by the recorded ids, in order,
        then clipped to the mask. */
    function Transform<Rg, M>(
      generate: (seq<P>, int) -> seq<Rg>,
      clip: (RegionFrame<Id, Rg>, M) -> RegionFrame<Id, Rg>,
      mask: M): (r: Result<RegionFrame<Id, Rg>, TransformError>)
      reads this
      ensures r.Failure? <==> |generate(seeds, maxMetersBetweenPoints)| != |regionIds|
      ensures r.Success? ==>
        var generated := generate(seeds, maxMetersBetweenPoints);
        r.value == clip(RegionFrame(regionIds, generated, Wgs84), mask)
    {
      var built := BuildRegions(regionIds, generate(seeds, maxMetersBetweenPoints));
      if built.Failure? then Failure(built.error)
      else Success(clip(built.value, mask))
    }
  }

  /** The call `VoronoiRegionizer(seeds, max_meters_between_points)`: the
      constructor followed by its two checks, which raise instead of returning. */
  method Create<Id, G, P(==)>(seedTable: seq<SeedRow<Id, G>>, centroid: G -> P, maxMetersBetweenPoints: int := DefaultMaxMetersBetweenPoints)
    returns (r: Result<VoronoiRegionizer<Id, G, P>, SeedError>)
    ensures |seedTable| == 0 <==> r == Failure(MinimumOneSeedRequired)
    ensures r == Failure(DuplicateSeedsPresent) <==>
      |seedTable| > 0 &&
      exists i, j :: 0 <= i < j < |seedTable| && centroid(seedTable[i].geometry) == centroid(seedTable[j].geometry)
    ensures r.Success? ==>
      && r.value.maxMetersBetweenPoints == maxMetersBetweenPoints
      && |r.value.regionIds| == |seedTable| > 0
      && |r.value.seeds| == |seedTable|
      && (forall i :: 0 <= i < |seedTable| ==> r.value.regionIds[i] == seedTable[i].index)
      && (forall i :: 0 <= i < |seedTable| ==> r.value.seeds[i] == centroid(seedTable[i].geometry))
      && (forall i, j :: 0 <= i < j < |seedTable| ==> r.value.seeds[i] != r.value.seeds[j])
  {
    var v := new VoronoiRegionizer(seedTable, centroid, maxMetersBetweenPoints);
    var e := CheckSeeds(|seedTable|, v.seeds);
    if e.Some? {
      r := Failure(e.value);
    } else {
      r := Success(v);
    }
  }
}
