/** The waypoint navigator's inline state and parameter rules: the rangefinder
    terrain-offset tuple, the pause flag, and the parameter getters with their
    fallbacks. Quantities are real numbers; single-precision rounding is not
    modelled. */
module WPNav {

  /** WPNAV_ACCELERATION: the horizontal acceleration (cm/s/s) used when the
      acceleration parameter is not positive. */
  const WpnavAcceleration: real := 250.0

  /** FLT_EPSILON, 2^-23. */
  const FltEpsilon: real := 1.0 / 8388608.0

  /** is_positive: at least FLT_EPSILON, so tiny positive values count as zero. */
  predicate IsPositive(x: real) {
    x >= FltEpsilon
  }

  /** AP_Int8: a signed 8-bit parameter value. */
  type Int8 = x: int | -128 <= x < 128

  /** The user-settable parameters the inline getters read. */
  datatype Params = Params(
    wpSpeedCms: real,
    wpSpeedUpCms: real,
    wpSpeedDownCms: real,
    wpRadiusCm: real,
    wpAccelCmss: real,
    wpAccelCCmss: real,
    wpAccelZCmss: real,
    terrainMarginM: real,
    rangefinderUse: Int8  // non-zero means "use"
  )

  class WPNav {
    var params: Params

    var paused: bool
    var rangefinderAvailable: bool
    var rangefinderHealthy: bool
    var rangefinderTerrainOffsetCm: real

    /** A navigator with the given parameters, not paused and without rangefinder data. */
    constructor(p: Params)
      ensures params == p
      ensures !paused && !rangefinderAvailable && !rangefinderHealthy
      ensures rangefinderTerrainOffsetCm == 0.0
    {
      params := p;
      paused := false;
      rangefinderAvailable := false;
      rangefinderHealthy := false;
      rangefinderTerrainOffsetCm := 0.0;
    }

    // -------------------------------------------------------------------------
    // Rangefinder terrain offset

    /** Records whether a rangefinder is available, whether it is healthy and the
        terrain offset it measured; nothing else changes. */
    method SetRangefinderTerrainOffsetCm(use: bool, healthy: bool, terrainOffsetCm: real)
      modifies this`rangefinderAvailable, this`rangefinderHealthy, this`rangefinderTerrainOffsetCm
      ensures rangefinderAvailable == use
      ensures rangefinderHealthy == healthy
      ensures rangefinderTerrainOffsetCm == terrainOffsetCm
      // the `use` argument does not reach the "used and healthy" query
      ensures RangefinderUsedAndHealthy() <==> params.rangefinderUse != 0 && healthy
      ensures RangefinderUsed() == old(RangefinderUsed())
      ensures Paused() == old(Paused())
    {
      rangefinderAvailable := use;
      rangefinderHealthy := healthy;
      rangefinderTerrainOffsetCm := terrainOffsetCm;
    }

    /** The rangefinder may be used for terrain following: the parameter is non-zero. */
    function RangefinderUsed(): bool
      reads this
    {
      params.rangefinderUse != 0
    }

    /** The rangefinder parameter is on and the last reported reading was healthy;
        whether a rangefinder was reported available plays no part. */
    function RangefinderUsedAndHealthy(): bool
      reads this
    {
      RangefinderUsed() && rangefinderHealthy
    }

    /** The rangefinder queries see only the parameters and the health flag: two
        navigators that agree on those answer alike, whatever each was told about
        availability or terrain offset. */
    lemma RangefinderQueriesIgnoreAvailability(other: WPNav)
      requires other.params.rangefinderUse == params.rangefinderUse
      requires other.rangefinderHealthy == rangefinderHealthy
      ensures other.RangefinderUsed() == RangefinderUsed()
      ensures other.RangefinderUsedAndHealthy() == RangefinderUsedAndHealthy()
    {
    }

    // -------------------------------------------------------------------------
    // Terrain margin

    /** The terrain-following margin in metres, never below 0.1. */
    function TerrainMarginM(): (r: real)
      reads this
      ensures r >= 0.1 && r >= params.terrainMarginM
      ensures r == params.terrainMarginM || r == 0.1
    {
      if params.terrainMarginM > 0.1 then params.terrainMarginM else 0.1
    }

    // -------------------------------------------------------------------------
    // Pause

    /** Pauses waypoint navigation; pausing again changes nothing. */
    method SetPause()
      modifies this`paused
      ensures Paused()
      ensures old(paused) ==> unchanged(this)
      ensures RangefinderUsed() == old(RangefinderUsed())
      ensures RangefinderUsedAndHealthy() == old(RangefinderUsedAndHealthy())
    {
      paused := true;
    }

    /** Resumes waypoint navigation; resuming again changes nothing. */
    method SetResume()
      modifies this`paused
      ensures !Paused()
      ensures !old(paused) ==> unchanged(this)
      ensures RangefinderUsed() == old(RangefinderUsed())
      ensures RangefinderUsedAndHealthy() == old(RangefinderUsedAndHealthy())
    {
      paused := false;
    }

    function Paused(): bool
      reads this
    {
      paused
    }

    // -------------------------------------------------------------------------
    // Default speeds and accelerations

    function DefaultSpeedNECms(): real
      reads this
    {
      params.wpSpeedCms
    }

    function DefaultSpeedUpCms(): real
      reads this
    {
      params.wpSpeedUpCms
    }

    /** The descent rate, always reported as a magnitude. */
    function DefaultSpeedDownCms(): (r: real)
      reads this
      ensures r >= 0.0
      ensures r == params.wpSpeedDownCms || r == -params.wpSpeedDownCms
    {
      if params.wpSpeedDownCms < 0.0 then -params.wpSpeedDownCms else params.wpSpeedDownCms
    }

    function AccelUCmss(): real
      reads this
    {
      params.wpAccelZCmss
    }

    /** The waypoint acceleration: the parameter when it is positive, else 250. */
    function WpAccelerationCmss(): (r: real)
      reads this
      ensures IsPositive(r)
      ensures r == params.wpAccelCmss <==> IsPositive(params.wpAccelCmss)
      ensures r != params.wpAccelCmss ==> r == WpnavAcceleration
    {
      if IsPositive(params.wpAccelCmss) then params.wpAccelCmss else WpnavAcceleration
    }

    /** The cornering acceleration: the parameter when it is positive, else twice the
        waypoint acceleration. */
    function CornerAccelerationCmss(): (r: real)
      reads this
      ensures IsPositive(r)
      ensures r == params.wpAccelCCmss <==> IsPositive(params.wpAccelCCmss)
      ensures r != params.wpAccelCCmss ==> r == 2.0 * WpAccelerationCmss()
    {
      if IsPositive(params.wpAccelCCmss) then params.wpAccelCCmss else 2.0 * WpAccelerationCmss()
    }

    // -------------------------------------------------------------------------
    // Arrival

    /** Within the waypoint radius horizontally; the horizontal distance to the
        destination is supplied by the caller. */
    function ReachedWpDestinationNE(distanceCm: real): bool
      reads this
    {
      distanceCm < params.wpRadiusCm
    }

    /** With a zero radius no non-negative distance counts as arrival. */
    lemma ZeroRadiusNeverReached(distanceCm: real)
      requires params.wpRadiusCm == 0.0 && distanceCm >= 0.0
      ensures !ReachedWpDestinationNE(distanceCm)
    {
    }

    /** Arrival is closed downwards: a vehicle that has arrived at distance d has
        also arrived at any smaller distance. */
    lemma ReachedCloser(nearer: real, farther: real)
      requires nearer <= farther && ReachedWpDestinationNE(farther)
      ensures ReachedWpDestinationNE(nearer)
    {
    }

    /** Arrival is monotone in the radius: a navigator with a radius at least as
        large has arrived whenever this one has. */
    lemma ReachedWiderRadius(other: WPNav, distanceCm: real)
      requires params.wpRadiusCm <= other.params.wpRadiusCm
      requires ReachedWpDestinationNE(distanceCm)
      ensures other.ReachedWpDestinationNE(distanceCm)
    {
    }

    /** A vehicle standing on the waypoint has arrived exactly when the radius is positive. */
    lemma ReachedAtZero()
      ensures ReachedWpDestinationNE(0.0) <==> params.wpRadiusCm > 0.0
    {
    }
  }
}
