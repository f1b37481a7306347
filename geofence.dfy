/**
 * Geofence records and the proximity logic run on location samples: which geofences a
 * location is inside, the significant-change gate for new samples, and the status shown
 * for the feature.
 */
module Geofences {
  import opened Wrappers

  /** A position sample: degrees, accuracy in metres, timestamp in milliseconds. */
  datatype Location = Location(latitude: real, longitude: real, accuracy: real, timestamp: int)

  /** A stored geofence; `radius` is in metres. */
  datatype Geofence = Geofence(
    id: string, name: string, latitude: real, longitude: real, radius: int, createdAt: string)

  /** `calculateDistance(lat1, lon1, lat2, lon2)` in kilometres, supplied by the caller. */
  type Distance = (real, real, real, real) -> real

  /** A proximity alert: `triggerGeofenceAlert(geofence, distance)`. */
  datatype Alert = Alert(geofence: Geofence, distanceKm: real)

  function DistanceTo(dist: Distance, loc: Location, g: Geofence): real
  {
    dist(loc.latitude, loc.longitude, g.latitude, g.longitude)
  }

  /** The membership test: within the global radius (metres, converted to kilometres),
      boundary included. The geofence's own `radius` plays no part. */
  predicate IsNearby(dist: Distance, loc: Location, g: Geofence, radius: int)
  {
    DistanceTo(dist, loc, g) <= radius as real / 1000.0
  }

  /** The alerts raised for `gs`, in list order. */
  function NearbyAlerts(loc: Location, gs: seq<Geofence>, radius: int, dist: Distance): (r: seq<Alert>)
    ensures |r| <= |gs|
    ensures forall a :: a in r ==> a.geofence in gs && a.distanceKm == DistanceTo(dist, loc, a.geofence)
                                   && IsNearby(dist, loc, a.geofence, radius)
    ensures forall g :: g in gs && IsNearby(dist, loc, g, radius) ==> Alert(g, DistanceTo(dist, loc, g)) in r
    decreases |gs|
  {
    if gs == [] then []
    else
      var init := gs[..|gs| - 1];
      var g := gs[|gs| - 1];
      assert gs == init + [g];
      NearbyAlerts(loc, init, radius, dist)
      + (if IsNearby(dist, loc, g, radius) then [Alert(g, DistanceTo(dist, loc, g))] else [])
  }

  /** The `forEach` over the geofences in `checkGeofences`, collecting the alerts it raises. */
  method CollectAlerts(loc: Location, gs: seq<Geofence>, radius: int, dist: Distance) returns (alerts: seq<Alert>)
    ensures alerts == NearbyAlerts(loc, gs, radius, dist)
  {
    alerts := [];
    var i := 0;
    while i < |gs|
      invariant 0 <= i <= |gs|
      invariant alerts == NearbyAlerts(loc, gs[..i], radius, dist)
    {
      assert gs[..i + 1][..i] == gs[..i];
      var d := dist(loc.latitude, loc.longitude, gs[i].latitude, gs[i].longitude);
      if d <= radius as real / 1000.0 {
        alerts := alerts + [Alert(gs[i], d)];
      }
      i := i + 1;
    }
    assert gs[..i] == gs;
  }

  /** A geofence exactly at the radius raises an alert (the boundary is inclusive). */
  lemma BoundaryIsInside(loc: Location, gs: seq<Geofence>, g: Geofence, radius: int, dist: Distance)
    requires g in gs && DistanceTo(dist, loc, g) == radius as real / 1000.0
    ensures Alert(g, DistanceTo(dist, loc, g)) in NearbyAlerts(loc, gs, radius, dist)
  {
  }

  /** A geofence beyond the global radius raises no alert, however large its own radius. */
  lemma OwnRadiusIgnored(loc: Location, gs: seq<Geofence>, g: Geofence, radius: int, dist: Distance)
    requires g in gs && DistanceTo(dist, loc, g) > radius as real / 1000.0
    requires g.radius as real / 1000.0 >= DistanceTo(dist, loc, g)
    ensures forall a :: a in NearbyAlerts(loc, gs, radius, dist) ==> a.geofence != g
  {
  }

  /** `hasLocationChangedSignificantly`: no previous location, or a move of more than
      0.01 km (10 metres). */
  predicate HasLocationChangedSignificantly(current: Option<Location>, sample: Location, dist: Distance)
  {
    current.None?
    || dist(current.value.latitude, current.value.longitude, sample.latitude, sample.longitude) > 0.01
  }

  /** The first fix is always significant, and a fix repeating the current location is not
      when the distance of a point to itself is 0. */
  lemma SignificantChange(current: Option<Location>, sample: Location, dist: Distance)
    ensures current.None? ==> HasLocationChangedSignificantly(current, sample, dist)
    ensures current == Some(sample) && dist(sample.latitude, sample.longitude, sample.latitude, sample.longitude) == 0.0
            ==> !HasLocationChangedSignificantly(current, sample, dist)
  {
  }

  /** The text of the location stat card. */
  datatype LocationStatus = Active | Loading | Inactive

  /** `updateLocationStatus`: Active when enabled with a location, Loading when enabled
      without one, Inactive when disabled. */
  function StatusOf(enabled: bool, location: Option<Location>): (s: LocationStatus)
    ensures s == Active <==> enabled && location.Some?
    ensures s == Loading <==> enabled && location.None?
    ensures s == Inactive <==> !enabled
  {
    if enabled && location.Some? then Active else if enabled then Loading else Inactive
  }
}
