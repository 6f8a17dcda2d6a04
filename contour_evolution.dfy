/** The bookkeeping of r.contour.evolution: the names of the temporary layers it
    creates in the GIS workspace, one chain of four per elevation raster and
    eight shared ones, and the loop that collects the space-time point layers
    of all years.

    The GIS commands the script runs on these layers are not modelled; the
    level is the text `str(level)` of the parsed floating-point option. */
module ContourEvolution {
  import opened Results

  const ModuleName: string := "rcontourevolution"

  /** `create_tmp_map_name(name)`: `'{mod}_{map_}'` with `mod = 'rcontourevolution'`. */
  function TmpMapName(name: string): string
  {
    ModuleName + "_" + name
  }

  /** The name a temporary name was made from, if it is one. */
  function TmpMapSource(tmp: string): Option<string>
  {
    var prefix := ModuleName + "_";
    if |tmp| >= |prefix| && tmp[..|prefix|] == prefix then Some(tmp[|prefix|..]) else None
  }

  /** Every temporary name carries the module prefix and gives back its source
      name, so two sources never share a temporary name. */
  lemma TmpMapNameRoundTrip(name: string)
    ensures TmpMapSource(TmpMapName(name)) == Some(name)
    ensures |TmpMapName(name)| == 18 + |name| && TmpMapName(name)[..18] == "rcontourevolution_"
  {
    assert (ModuleName + "_" + name)[..|ModuleName| + 1] == ModuleName + "_";
  }

  lemma TmpMapNameInjective(a: string, b: string)
    ensures TmpMapName(a) == TmpMapName(b) <==> a == b
  {
    if TmpMapName(a) == TmpMapName(b) {
      TmpMapNameRoundTrip(a);
      TmpMapNameRoundTrip(b);
    }
  }

  /** `level_str = str(level).replace('.', '_')`. */
  function Underscored(s: string): (r: string)
    ensures |r| == |s|
    ensures forall k :: 0 <= k < |s| ==> r[k] == (if s[k] == '.' then '_' else s[k])
  {
    if s == [] then [] else [if s[0] == '.' then '_' else s[0]] + Underscored(s[1..])
  }

  /** The level string has no dot left, and replacing again changes nothing. */
  lemma UnderscoredHasNoDot(s: string)
    ensures '.' !in Underscored(s)
    ensures Underscored(Underscored(s)) == Underscored(s)
  {
    var r := Underscored(s);
    assert forall k :: 0 <= k < |r| ==> r[k] != '.';
  }

  /** The text Python's `str()` gives a finite float ends in a digit. */
  ghost predicate EndsInDigit(s: string)
  {
    |s| > 0 && '0' <= s[|s| - 1] <= '9'
  }

  // ---------------------------------------------------------------------------
  // The four names of one elevation raster

  /** The layers the loop creates for one elevation raster, in order: its
      contours, the one contour at the level, that contour as points, and the
      points with the year as z (the space-time cube). */
  datatype Stage = Contours | ContoursLevel | ContoursLevelPoints | ContoursLevelPointsStc

  /** What the loop appends to the elevation's name for each stage. */
  function StageSuffix(stage: Stage, levelStr: string): string
  {
    match stage
    case Contours => "_contours"
    case ContoursLevel => "_contours_level_" + levelStr
    case ContoursLevelPoints => "_contours_level_" + levelStr + "_points"
    case ContoursLevelPointsStc => "_contours_level_" + levelStr + "_points_stc"
  }

  /** The temporary name of one stage of one elevation raster at one level. */
  function StageName(elevation: string, level: string, stage: Stage): string
  {
    TmpMapName(elevation + StageSuffix(stage, Underscored(level)))
  }

  ghost predicate ProperPrefix(a: string, b: string)
  {
    |a| < |b| && b[..|a|] == a
  }

  lemma ExtendedBy(a: string, b: string)
    requires b != []
    ensures ProperPrefix(a, a + b)
  {
    assert (a + b)[..|a|] == a;
  }

  lemma PrefixUnderSamePrefix(p: string, a: string, b: string)
    requires ProperPrefix(a, b)
    ensures ProperPrefix(p + a, p + b)
  {
    assert (p + b)[..|p + a|] == p + b[..|a|];
  }

  /** Each stage's suffix extends the one before it. */
  lemma StageSuffixChain(u: string)
    ensures ProperPrefix(StageSuffix(Contours, u), StageSuffix(ContoursLevel, u))
    ensures ProperPrefix(StageSuffix(ContoursLevel, u), StageSuffix(ContoursLevelPoints, u))
    ensures ProperPrefix(StageSuffix(ContoursLevelPoints, u), StageSuffix(ContoursLevelPointsStc, u))
  {
    var level := "_contours_level_" + u;
    assert level == "_contours" + ("_level_" + u);
    ExtendedBy("_contours", "_level_" + u);
    ExtendedBy(level, "_points");
    assert level + "_points_stc" == (level + "_points") + "_stc";
    ExtendedBy(level + "_points", "_stc");
  }

  /** Each name of an elevation's chain extends the one before it, so the four
      are pairwise distinct. */
  lemma StageChain(elevation: string, level: string)
    ensures ProperPrefix(StageName(elevation, level, Contours), StageName(elevation, level, ContoursLevel))
    ensures ProperPrefix(StageName(elevation, level, ContoursLevel), StageName(elevation, level, ContoursLevelPoints))
    ensures ProperPrefix(StageName(elevation, level, ContoursLevelPoints), StageName(elevation, level, ContoursLevelPointsStc))
  {
    var u := Underscored(level);
    var p := ModuleName + "_";
    StageSuffixChain(u);
    var a, b := StageSuffix(Contours, u), StageSuffix(ContoursLevel, u);
    var c, d := StageSuffix(ContoursLevelPoints, u), StageSuffix(ContoursLevelPointsStc, u);
    PrefixUnderSamePrefix(elevation, a, b);
    PrefixUnderSamePrefix(p, elevation + a, elevation + b);
    PrefixUnderSamePrefix(elevation, b, c);
    PrefixUnderSamePrefix(p, elevation + b, elevation + c);
    PrefixUnderSamePrefix(elevation, c, d);
    PrefixUnderSamePrefix(p, elevation + c, elevation + d);
  }

  // ---------------------------------------------------------------------------
  // The eight shared names

  /** The layers built from all years together: the patched points, the
      interpolated increasing surface with its slope and aspect, the inverted
      (decreasing) surface with its slope and aspect, and the inverted slope. */
  datatype Surface =
    | IncreasingPoints | IncreasingElevation | IncreasingSlope | IncreasingAspect
    | DecreasingElevation | DecreasingSlope | DecreasingAspect | DecreasingSlopeInverted

  /** Whether the shared layer belongs to the increasing surface (time going
      up the hill) or to its inversion. */
  function Trend(surface: Surface): string
  {
    if surface in {IncreasingPoints, IncreasingElevation, IncreasingSlope, IncreasingAspect}
    then "increasing" else "decreasing"
  }

  function Quantity(surface: Surface): string
  {
    match surface
    case IncreasingPoints => "points"
    case IncreasingElevation | DecreasingElevation => "elevation"
    case IncreasingSlope | DecreasingSlope => "slope"
    case IncreasingAspect | DecreasingAspect => "aspect"
    case DecreasingSlopeInverted => "slope_inverted"
  }

  /** The literal each shared name is made from, `stc_surface_increasing_points`
      through `stc_surface_decreasing_slope_inverted`. */
  function SurfaceSuffix(surface: Surface): string
  {
    "stc_surface_" + Trend(surface) + "_" + Quantity(surface)
  }

  function SurfaceName(surface: Surface): string
  {
    TmpMapName(SurfaceSuffix(surface))
  }

  /** The trend and the quantity tell the shared layers apart. */
  lemma TrendQuantityDistinct(a: Surface, b: Surface)
    requires Trend(a) == Trend(b) && Quantity(a) == Quantity(b)
    ensures a == b
  {
  }

  /** The eight shared names are pairwise distinct. */
  lemma SurfaceNamesDistinct(a: Surface, b: Surface)
    ensures SurfaceName(a) == SurfaceName(b) <==> a == b
  {
    var x, y := SurfaceSuffix(a), SurfaceSuffix(b);
    TmpMapNameInjective(x, y);
    if x == y {
      // both trends have ten letters, so the literals split at the same places
      assert Trend(a) == x[12..22] && Trend(b) == y[12..22];
      assert Quantity(a) == x[23..] && Quantity(b) == y[23..];
      TrendQuantityDistinct(a, b);
    }
  }

  // ---------------------------------------------------------------------------
  // Uniqueness of every name of one run

  /** The character `k` places before the end. */
  function FromEnd(s: string, k: nat): char
    requires k < |s|
  {
    s[|s| - 1 - k]
  }

  lemma FromEndOfAppend(a: string, b: string, k: nat)
    requires k < |b|
    ensures FromEnd(a + b, k) == FromEnd(b, k)
  {
  }

  lemma FromEndBeforeAppend(a: string, b: string, k: nat)
    requires k < |a|
    ensures FromEnd(a + b, |b| + k) == FromEnd(a, k)
  {
  }

  /** The closing characters of each stage's suffix: the last one, and for
      the two suffixes ending in 's' the seventh and eighth from the end. */
  lemma StageSuffixEnd(stage: Stage, u: string)
    requires EndsInDigit(u)
    ensures |StageSuffix(stage, u)| > 7
    ensures FromEnd(StageSuffix(stage, u), 0) ==
      match stage
      case Contours => 's'
      case ContoursLevel => FromEnd(u, 0)
      case ContoursLevelPoints => 's'
      case ContoursLevelPointsStc => 'c'
    ensures stage == Contours ==> FromEnd(StageSuffix(stage, u), 6) == 'o'
    ensures stage == ContoursLevelPoints ==>
      FromEnd(StageSuffix(stage, u), 6) == '_' && FromEnd(StageSuffix(stage, u), 7) == FromEnd(u, 0)
  {
    var level := "_contours_level_" + u;
    FromEndOfAppend("_contours_level_", u, 0);
    FromEndOfAppend(level, "_points", 0);
    FromEndOfAppend(level, "_points", 6);
    FromEndBeforeAppend(level, "_points", 0);
    FromEndOfAppend(level, "_points_stc", 0);
  }

  /** A stage name ends in its stage's suffix. */
  lemma StageNameEnd(elevation: string, level: string, stage: Stage, k: nat)
    requires k < |StageSuffix(stage, Underscored(level))|
    ensures FromEnd(StageName(elevation, level, stage), k) == FromEnd(StageSuffix(stage, Underscored(level)), k)
  {
    var suffix := StageSuffix(stage, Underscored(level));
    assert StageName(elevation, level, stage) == (ModuleName + "_" + elevation) + suffix;
    FromEndOfAppend(ModuleName + "_" + elevation, suffix, k);
  }

  /** With a level text ending in a digit, the names of one run are unique per
      (elevation raster, stage): two stage names agree exactly when both the
      raster and the stage do. */
  lemma StageNameInjective(e1: string, e2: string, level: string, s1: Stage, s2: Stage)
    requires EndsInDigit(level)
    ensures StageName(e1, level, s1) == StageName(e2, level, s2) <==> e1 == e2 && s1 == s2
  {
    var u := Underscored(level);
    assert FromEnd(u, 0) == FromEnd(level, 0);
    if s1 != s2 {
      // the last character tells the stages apart, except for the two
      // stages ending in 's', which differ six places before the end
      var k := if (s1 == Contours && s2 == ContoursLevelPoints) || (s1 == ContoursLevelPoints && s2 == Contours)
               then 6 else 0;
      StageSuffixEnd(s1, u);
      StageSuffixEnd(s2, u);
      StageNameEnd(e1, level, s1, k);
      StageNameEnd(e2, level, s2, k);
    } else if StageName(e1, level, s1) == StageName(e2, level, s2) {
      var x := StageSuffix(s1, u);
      TmpMapNameInjective(e1 + x, e2 + x);
      assert e1 == (e1 + x)[..|e1|] && e2 == (e2 + x)[..|e2|];
    }
  }

  /** `t` has no `_` directly followed by `c`. */
  ghost predicate NoContoursMark(t: string)
  {
    forall k :: 0 <= k < |t| - 1 && t[k] == '_' ==> t[k + 1] != 'c'
  }

  lemma NoContoursMarkAppend(a: string, b: string)
    requires NoContoursMark(a) && NoContoursMark(b)
    requires a == [] || b == [] || a[|a| - 1] != '_' || b[0] != 'c'
    ensures NoContoursMark(a + b)
  {
    var t := a + b;
    forall k | 0 <= k < |t| - 1 && t[k] == '_'
      ensures t[k + 1] != 'c'
    {
      if k + 1 < |a| {
        assert t[k] == a[k] && t[k + 1] == a[k + 1];
      } else if k >= |a| {
        assert t[k] == b[k - |a|] && t[k + 1] == b[k + 1 - |a|];
      }
    }
  }

  /** None of the shared literals has the `_c` that starts every stage suffix. */
  lemma SurfaceHasNoContoursMark(surface: Surface)
    ensures NoContoursMark(SurfaceSuffix(surface))
  {
    var trend, quantity := Trend(surface), Quantity(surface);
    assert NoContoursMark("stc_surface_") && NoContoursMark(trend) && NoContoursMark(quantity);
    NoContoursMarkAppend("stc_surface_", trend);
    NoContoursMarkAppend("stc_surface_" + trend, "_");
    NoContoursMarkAppend("stc_surface_" + trend + "_", quantity);
  }

  /** No stage name of any elevation raster is one of the shared names,
      whatever the level text: every stage name has `_c` right after the
      raster's name, and no shared literal has `_c` anywhere. */
  lemma StageNameNotSurface(elevation: string, level: string, stage: Stage, surface: Surface)
    ensures StageName(elevation, level, stage) != SurfaceName(surface)
  {
    var t := SurfaceSuffix(surface);
    var x := StageSuffix(stage, Underscored(level));
    SurfaceHasNoContoursMark(surface);
    assert (elevation + x)[|elevation|] == '_' && (elevation + x)[|elevation| + 1] == 'c';
    TmpMapNameInjective(elevation + x, t);
  }

  // ---------------------------------------------------------------------------
  // The loop over the elevation rasters

  /** `years[i]` read past the end of `years`. */
  datatype Failure = YearMissing(index: nat)

  /** The list `contours_level_points_stcs` after the loop: the space-time
      point layer of each elevation raster, in input order. */
  function StcNames(elevations: seq<string>, level: string): seq<string>
  {
    seq(|elevations|, i requires 0 <= i < |elevations| => StageName(elevations[i], level, ContoursLevelPointsStc))
  }

  /** The loop's outcome: `years[i]` is read for every raster `i`, so fewer
      years than rasters stops it at the first missing year; extra years are
      never read. */
  function CollectedStcNames(elevations: seq<string>, years: seq<string>, level: string)
    : Result<seq<string>, Failure>
  {
    if |years| < |elevations| then Err(YearMissing(|years|)) else Ok(StcNames(elevations, level))
  }

  /** The main loop: for each elevation raster, name its four layers, run the
      four commands (not modelled) with `years[i]` as the z shift of the last
      one, and append the space-time point layer's name. */
  method CollectStcNames(elevations: seq<string>, years: seq<string>, level: string)
    returns (res: Result<seq<string>, Failure>)
    ensures res.Ok? <==> |elevations| <= |years|
    ensures res.Err? ==> res.error == YearMissing(|years|)
    ensures res.Ok? ==>
      |res.value| == |elevations| &&
      forall i :: 0 <= i < |elevations| ==> res.value[i] == StageName(elevations[i], level, ContoursLevelPointsStc)
    ensures res == CollectedStcNames(elevations, years, level)
  {
    var stcs: seq<string> := [];
    for i := 0 to |elevations|
      invariant i <= |years|
      invariant |stcs| == i
      invariant forall k :: 0 <= k < i ==> stcs[k] == StageName(elevations[k], level, ContoursLevelPointsStc)
    {
      var levelStr := Underscored(level);
      var stc := TmpMapName(elevations[i] + "_contours_level_" + levelStr + "_points_stc");
      if i == |years| {
        return Err(YearMissing(i));
      }
      var zshift := years[i];
      stcs := stcs + [stc];
    }
    assert stcs == StcNames(elevations, level);
    return Ok(stcs);
  }

  /** One name per raster: two entries of the list agree exactly when their
      rasters do. */
  lemma StcNamesDistinct(elevations: seq<string>, level: string, i: nat, j: nat)
    requires i < |elevations| && j < |elevations|
    ensures StcNames(elevations, level)[i] == StcNames(elevations, level)[j] <==> elevations[i] == elevations[j]
  {
    // all entries share the suffix, so equal names leave equal rasters
    var e1, e2 := elevations[i], elevations[j];
    var x := StageSuffix(ContoursLevelPointsStc, Underscored(level));
    TmpMapNameInjective(e1 + x, e2 + x);
    if e1 + x == e2 + x {
      assert e1 == (e1 + x)[..|e1|] && e2 == (e2 + x)[..|e2|];
    }
  }

  // ---------------------------------------------------------------------------
  // Checking the count of years first

  datatype CheckedFailure = CountMismatch(rasters: nat, years: nat)

  /** The loop as the `years` option describes it ("must be same count of
      rasters"): a different count is refused before any raster is processed. */
  function CheckedStcNames(elevations: seq<string>, years: seq<string>, level: string)
    : (r: Result<seq<string>, CheckedFailure>)
    ensures r.Ok? <==> |years| == |elevations|
    ensures r.Ok? ==> CollectedStcNames(elevations, years, level) == Ok(r.value)
  {
    if |years| != |elevations| then Err(CountMismatch(|elevations|, |years|))
    else Ok(StcNames(elevations, level))
  }

  /** As written, the loop accepts more years than rasters and ignores the
      extra ones; the checked version refuses them. */
  lemma ExtraYearsIgnored()
    ensures CollectedStcNames(["elev_2001"], ["2001", "2002"], "2.0") == Ok(StcNames(["elev_2001"], "2.0"))
    ensures CheckedStcNames(["elev_2001"], ["2001", "2002"], "2.0") == Err(CountMismatch(1, 2))
  {
  }
}
