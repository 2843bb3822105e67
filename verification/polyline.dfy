/**
 The route line of `update_map_with_coordinates`. The routing service gives
 the route as a list of positions, each a JSON array `[longitude, latitude]`
 (possibly followed by more entries); the map library wants
 `(latitude, longitude)` pairs. The line is added only for a non-empty route.

 Coordinates are an opaque element type: the swap never computes with them.
 A position with fewer than two entries makes Python raise `IndexError` while
 building the list, which is modelled as an error carrying its index.
 */
module Polyline {

  datatype Option<T> = None | Some(value: T)

  /** A value, or the index of the first route position that is too short. */
  datatype Result<T> = Ok(value: T) | IndexError(index: nat)

  /** Every position of the route has a longitude and a latitude. */
  predicate WellFormed<T>(route: seq<seq<T>>)
  {
    forall i :: 0 <= i < |route| ==> |route[i]| >= 2
  }

  /** The list comprehension `[(coord[1], coord[0]) for coord in coordinates]`. */
  function ToLatLon<T>(route: seq<seq<T>>): (r: Result<seq<(T, T)>>)
    ensures r.Ok? <==> WellFormed(route)
    ensures r.Ok? ==>
              && |r.value| == |route|
              && forall i :: 0 <= i < |route| ==> r.value[i] == (route[i][1], route[i][0])
    ensures r.IndexError? ==>
              && r.index < |route|
              && |route[r.index]| < 2
              && forall i :: 0 <= i < r.index ==> |route[i]| >= 2
  {
    if |route| == 0 then Ok([])
    else if |route[0]| < 2 then IndexError(0)
    else
      match ToLatLon(route[1..])
      case Ok(rest) => Ok([(route[0][1], route[0][0])] + rest)
      case IndexError(k) => IndexError(k + 1)
  }

  /** The polyline the map gets: none for an empty route, otherwise the swapped points. */
  function RouteLine<T>(route: seq<seq<T>>): (r: Result<Option<seq<(T, T)>>>)
    ensures |route| == 0 ==> r == Ok(None)
    ensures |route| > 0 && WellFormed(route) ==>
              && r.Ok? && r.value.Some?
              && |r.value.value| == |route|
              && forall i :: 0 <= i < |route| ==> r.value.value[i] == (route[i][1], route[i][0])
    ensures r.IndexError? <==> !WellFormed(route)
  {
    if |route| == 0 then Ok(None)
    else
      match ToLatLon(route)
      case Ok(points) => Ok(Some(points))
      case IndexError(k) => IndexError(k)
  }

  /** Turns `(latitude, longitude)` pairs back into `[longitude, latitude]` positions. */
  function ToLonLat<T>(points: seq<(T, T)>): (route: seq<seq<T>>)
    ensures |route| == |points|
    ensures forall i :: 0 <= i < |points| ==> route[i] == [points[i].1, points[i].0]
  {
    if |points| == 0 then [] else [[points[0].1, points[0].0]] + ToLonLat(points[1..])
  }

  /** Swapping back recovers each position's longitude and latitude, and a route of
      plain `[longitude, latitude]` pairs is recovered exactly. */
  lemma {:induction false} SwapRoundTrip<T>(route: seq<seq<T>>)
    requires WellFormed(route)
    ensures forall i :: 0 <= i < |route| ==> ToLonLat(ToLatLon(route).value)[i] == route[i][..2]
    ensures (forall i :: 0 <= i < |route| ==> |route[i]| == 2) ==>
              ToLonLat(ToLatLon(route).value) == route
  {
    var back := ToLonLat(ToLatLon(route).value);
    forall i | 0 <= i < |route| ensures back[i] == route[i][..2] {
      assert route[i][..2] == [route[i][0], route[i][1]];
    }
    if forall i :: 0 <= i < |route| ==> |route[i]| == 2 {
      forall i | 0 <= i < |route| ensures back[i] == route[i] {
        assert route[i] == route[i][..2];
      }
    }
  }

  /** Swapping the other way round is undone by the polyline's swap. */
  lemma LonLatRoundTrip<T>(points: seq<(T, T)>)
    ensures ToLatLon(ToLonLat(points)) == Ok(points)
  {
    var route := ToLonLat(points);
    assert WellFormed(route);
    var swapped := ToLatLon(route).value;
    assert forall i :: 0 <= i < |points| ==> swapped[i] == points[i];
    assert swapped == points;
  }

  /** An error in the first part of a route is reported unchanged for the whole route. */
  lemma {:induction false} AppendErrorFirst<T>(a: seq<seq<T>>, b: seq<seq<T>>)
    requires ToLatLon(a).IndexError?
    ensures ToLatLon(a + b) == ToLatLon(a)
    decreases |a|
  {
    assert (a + b)[0] == a[0];
    if |a[0]| >= 2 {
      assert (a + b)[1..] == a[1..] + b;
      AppendErrorFirst(a[1..], b);
    }
  }

  /** An error in the second part of a route is reported at its index in the whole route. */
  lemma {:induction false} AppendErrorSecond<T>(a: seq<seq<T>>, b: seq<seq<T>>)
    requires ToLatLon(a).Ok? && ToLatLon(b).IndexError?
    ensures ToLatLon(a + b) == IndexError(|a| + ToLatLon(b).index)
    decreases |a|
  {
    if |a| == 0 {
      assert a + b == b;
    } else {
      assert (a + b)[0] == a[0];
      assert (a + b)[1..] == a[1..] + b;
      AppendErrorSecond(a[1..], b);
    }
  }

  /** Two well-formed parts give the points of the first followed by those of the second. */
  lemma AppendOk<T>(a: seq<seq<T>>, b: seq<seq<T>>)
    requires ToLatLon(a).Ok? && ToLatLon(b).Ok?
    ensures ToLatLon(a + b) == Ok(ToLatLon(a).value + ToLatLon(b).value)
  {
    var route := a + b;
    assert WellFormed(route) by {
      forall i | 0 <= i < |route| ensures |route[i]| >= 2 {
        if i < |a| {
          assert route[i] == a[i];
        } else {
          assert route[i] == b[i - |a|];
        }
      }
    }
    var points := ToLatLon(route).value;
    var pa, pb := ToLatLon(a).value, ToLatLon(b).value;
    assert points == pa + pb by {
      forall i | 0 <= i < |route| ensures points[i] == (pa + pb)[i] {
        if i < |a| {
          assert route[i] == a[i] && (pa + pb)[i] == pa[i];
        } else {
          assert route[i] == b[i - |a|] && (pa + pb)[i] == pb[i - |a|];
        }
      }
    }
  }

  /** The swap works position by position, in order: the points of a route made of two
      parts are the points of the first part followed by those of the second, and an
      error in either part is reported at its index in the whole route. */
  lemma ToLatLonAppend<T>(a: seq<seq<T>>, b: seq<seq<T>>)
    ensures ToLatLon(a).IndexError? ==> ToLatLon(a + b) == ToLatLon(a)
    ensures ToLatLon(a).Ok? && ToLatLon(b).IndexError? ==>
              ToLatLon(a + b) == IndexError(|a| + ToLatLon(b).index)
    ensures ToLatLon(a).Ok? && ToLatLon(b).Ok? ==>
              ToLatLon(a + b) == Ok(ToLatLon(a).value + ToLatLon(b).value)
  {
    if ToLatLon(a).IndexError? {
      AppendErrorFirst(a, b);
    } else if ToLatLon(b).IndexError? {
      AppendErrorSecond(a, b);
    } else {
      AppendOk(a, b);
    }
  }
}
