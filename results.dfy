/** Error conditions of the library (one constructor per distinct `ValueError` message;
    raise sites that share a message share a constructor) and the result type that
    carries either a value or one of them. */
module Results {

  datatype Error =
    | ZeroLengthVector        // projection_rejection_reflection, normalized
    | CirclesEqual            // circle_intersect: both circles are equal
    | NoIntersection          // circle_intersect: no intersection points
    | IdenticalBeacons        // 2D trilaterate: two beacons at the same location
    | CollinearBeacons        // 2D trilaterate: beacons on a straight line
    | NoSolution              // 2D trilaterate, variants 1 and 2: no solution found
    | CollinearCentres        // sphere_intersections: c1, c2, c3 collinear
    | SpheresDoNotIntersect   // sphere_intersections: a sphere pair does not intersect
    | CoplanarBeacons         // 3D trilaterate: beacons in one plane
    | SizeMismatch            // point_array_diff: arrays of different size

  datatype Result<T> = Ok(value: T) | Err(error: Error) {
    predicate IsFailure() { Err? }

    function PropagateFailure<U>(): Result<U>
      requires Err?
    {
      Err(error)
    }

    function Extract(): T
      requires Ok?
    {
      value
    }
  }
}
