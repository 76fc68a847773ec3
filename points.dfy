/** Model of src/point.rs: a grid coordinate pair of two `usize` values. */
module Points {
  import opened Wrappers

  /** Largest `isize` on a 64-bit target. */
  const ISIZE_MAX: int := 0x7FFF_FFFF_FFFF_FFFF
  /** Number of distinct `usize` values on a 64-bit target. */
  const USIZE_MODULUS: int := 0x1_0000_0000_0000_0000

  datatype Point = Point(x: nat, y: nat)

  /** Rust's `TryFromIntError`: it carries no information. */
  datatype TryFromIntError = TryFromIntError

  /** `Point::new(x, y)`. */
  function New(x: nat, y: nat): (p: Point)
    ensures p.x == x && p.y == y
  {
    Point(x, y)
  }

  /** `impl From<(usize, usize)> for Point`. */
  function From(value: (nat, nat)): (p: Point)
    ensures p.x == value.0 && p.y == value.1
  {
    Point(value.0, value.1)
  }

  /** `usize as isize`: the bits are kept, so values above ISIZE_MAX become negative. */
  function AsIsize(u: nat): (s: int)
    ensures -ISIZE_MAX - 1 <= s <= ISIZE_MAX
    ensures u <= ISIZE_MAX ==> s == u
    ensures ISIZE_MAX < u < USIZE_MODULUS ==> s < 0 && s == u - USIZE_MODULUS
  {
    var bits := u % USIZE_MODULUS;
    if bits <= ISIZE_MAX then bits else bits - USIZE_MODULUS
  }

  /** `isize::try_into::<usize>()`: fails exactly on negative values. */
  function UsizeFromIsize(v: int): (r: Result<nat, TryFromIntError>)
    ensures r.Success? <==> v >= 0
    ensures r.Success? ==> r.value == v
  {
    if v >= 0 then Success(v) else Failure(TryFromIntError)
  }

  /** `impl TryFrom<(isize, isize)> for Point`: converts `x`, then `y`, each with `?`. */
  function TryFrom(value: (int, int)): (r: Result<Point, TryFromIntError>)
    ensures r.Success? <==> value.0 >= 0 && value.1 >= 0
    ensures r.Success? ==> r.value.x == value.0 && r.value.y == value.1
  {
    var x :- UsizeFromIsize(value.0);
    var y :- UsizeFromIsize(value.1);
    Success(Point(x, y))
  }

  /** Both constructors build the same point. */
  lemma NewAgreesWithFrom(x: nat, y: nat)
    ensures New(x, y) == From((x, y))
  {
  }

  /** A negative first component fails at the first `?`, whatever the second one is. */
  lemma NegativeXFailsFirst(sx: int, sy: int)
    requires sx < 0
    ensures TryFrom((sx, sy)) == Failure(TryFromIntError)
    ensures TryFrom((sx, sy)) == UsizeFromIsize(sx).PropagateFailure()
  {
  }

  /** Round trip: casting a point's coordinates to `isize` and back gives the point again. */
  lemma TryFromRoundTrip(p: Point)
    requires p.x <= ISIZE_MAX && p.y <= ISIZE_MAX
    ensures TryFrom((AsIsize(p.x), AsIsize(p.y))) == Success(p)
  {
  }

  /** The coordinate `usize::MAX` casts to `-1`, so shifting it by `+1` converts to `0`. */
  lemma WrappedMaxShiftsToOrigin()
    ensures AsIsize(USIZE_MODULUS - 1) == -1
    ensures TryFrom((AsIsize(USIZE_MODULUS - 1) + 1, AsIsize(USIZE_MODULUS - 1) + 1)) == Success(Point(0, 0))
  {
  }

  /** A `usize` coordinate, either one, above ISIZE_MAX does not survive the round trip. */
  lemma TryFromRejectsWrappedCast(p: Point)
    requires ISIZE_MAX < p.x < USIZE_MODULUS || ISIZE_MAX < p.y < USIZE_MODULUS
    ensures TryFrom((AsIsize(p.x), AsIsize(p.y))).Failure?
  {
  }
}
