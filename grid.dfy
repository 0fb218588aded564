/** Nearest-grid-point lookup, the one rule of it the model keeps: the
    site longitude is moved into a 0..360 grid's convention. The
    nearest-point selection and spatial averaging themselves belong to
    xarray and are not modelled. */
module Grid {

  import opened Wrappers

  function MinOf(s: seq<real>): (m: real)
    requires |s| > 0
    ensures m in s
    ensures forall i :: 0 <= i < |s| ==> m <= s[i]
  {
    if |s| == 1 then s[0]
    else
      var rest := MinOf(s[1..]);
      if s[0] <= rest then s[0] else rest
  }

  datatype GridError = EmptyLongitudeAxis

  /** The longitude used to select the grid point: `lon + 360` when the
      grid's smallest longitude is non-negative (a 0..360 grid) and the
      site's is negative; otherwise the site longitude. `lons` is the
      grid's longitude axis, None when the data has no longitude
      coordinate; the minimum of an empty axis raises. */
  function LookupLongitude(lons: Option<seq<real>>, lon: real): (r: Result<real, GridError>)
    ensures lons.Some? && lons.value == [] <==> r.Err?
    ensures r.Ok? ==> r.value == lon || r.value == lon + 360.0
    ensures r.Ok? ==> (r.value == lon + 360.0 <==> lons.Some? && MinOf(lons.value) >= 0.0 && lon < 0.0)
    ensures r.Ok? && lons.Some? && MinOf(lons.value) >= 0.0 && lon >= -360.0 ==> r.value >= 0.0
  {
    match lons
    case None => Ok(lon)
    case Some(axis) =>
      if axis == [] then Err(EmptyLongitudeAxis)
      else if MinOf(axis) >= 0.0 && lon < 0.0 then Ok(lon + 360.0)
      else Ok(lon)
  }
}
