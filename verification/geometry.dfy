/**
 Plane geometry of normalised landmarks, without square roots.

 `calculateDistance` in gestures.ts returns the Euclidean distance
 `Math.sqrt(dx^2 + dy^2)`. Dafny has no real square root, so the model keeps
 the squared distance (`DistanceSq`) as the computed value and characterises
 the distance itself relationally: `d` is the distance from `p` to `q` when
 `IsDistance(p, q, d)` holds, that is, when `d` is the non-negative root of
 `DistanceSq(p, q)`. The lemmas below show that this value is unique and
 that it behaves as the classifier relies on: non-negative, symmetric, and
 zero exactly when the points coincide.
 */
module Geometry {

  /** A landmark in normalised image coordinates; `y` grows downwards. The depth `z` is not modelled. */
  datatype Point = Point(x: real, y: real)

  function Square(a: real): (s: real)
    ensures s >= 0.0
  {
    a * a
  }

  /** The square of the Euclidean distance between `p` and `q`. */
  function DistanceSq(p: Point, q: Point): (d: real)
    ensures d >= 0.0
  {
    Square(q.x - p.x) + Square(q.y - p.y)
  }

  /**
   `d` is the value `calculateDistance(p, q)` returns: the non-negative
   square root of `DistanceSq(p, q)`. Such a `d` is zero exactly when the
   two points coincide.
   */
  predicate IsDistance(p: Point, q: Point, d: real): (b: bool)
    ensures b ==> d >= 0.0
    ensures b ==> (d == 0.0 <==> p == q)
  {
    DistanceSqZeroIff(p, q);
    SquareZeroIff(d);
    d >= 0.0 && Square(d) == DistanceSq(p, q)
  }

  lemma ProductPositive(a: real, b: real)
    requires a > 0.0 && b > 0.0
    ensures a * b > 0.0
  {
    assert a * b > 0.0 * b;
  }

  /**
   The square of a non-zero real is strictly positive. The solver does not
   combine `Square(a) == a * a` with `a * a > 0.0` by itself, so each branch
   states the chain.
   */
  lemma SquarePositive(a: real)
    requires a != 0.0
    ensures Square(a) > 0.0
  {
    if a > 0.0 {
      ProductPositive(a, a);
      calc {
        Square(a);
      ==
        a * a;
      >
        0.0;
      }
    } else {
      ProductPositive(-a, -a);
      calc {
        Square(a);
      ==
        (-a) * (-a);
      >
        0.0;
      }
    }
  }

  /** Only zero squares to zero. */
  lemma SquareZeroIff(a: real)
    ensures Square(a) == 0.0 <==> a == 0.0
  {
    if a == 0.0 {
      assert Square(0.0) == 0.0;
    } else {
      SquarePositive(a);
    }
  }

  /** Squaring is strictly increasing on the non-negative reals. */
  lemma SquareLess(a: real, b: real)
    requires 0.0 <= a < b
    ensures Square(a) < Square(b)
  {
    var u, v := b - a, b + a;
    ProductPositive(u, v);
    calc {
      Square(b) - Square(a);
    ==
      u * v;
    >
      0.0;
    }
  }

  /** On the non-negative reals, squaring preserves and reflects strict order. */
  lemma SquareLessIff(a: real, b: real)
    requires a >= 0.0 && b >= 0.0
    ensures a < b <==> Square(a) < Square(b)
  {
    if a < b {
      SquareLess(a, b);
    } else if b < a {
      SquareLess(b, a);
    }
  }

  /** Two non-negative reals with the same square are equal. */
  lemma RootUnique(a: real, b: real)
    requires a >= 0.0 && b >= 0.0
    requires Square(a) == Square(b)
    ensures a == b
  {
    SquareLessIff(a, b);
    SquareLessIff(b, a);
  }

  /** `DistanceSq` is zero exactly when the two points coincide. */
  lemma DistanceSqZeroIff(p: Point, q: Point)
    ensures DistanceSq(p, q) == 0.0 <==> p == q
  {
    if p == q {
      assert Square(0.0) == 0.0;
    } else if q.x != p.x {
      SquarePositive(q.x - p.x);
    } else {
      SquarePositive(q.y - p.y);
    }
  }

  /** `calculateDistance` is a function of its arguments: at most one value qualifies. */
  lemma DistanceUnique(p: Point, q: Point, d1: real, d2: real)
    requires IsDistance(p, q, d1) && IsDistance(p, q, d2)
    ensures d1 == d2
  {
    RootUnique(d1, d2);
  }

  /** `calculateDistance` is symmetric in its arguments. */
  lemma DistanceSymmetric(p: Point, q: Point, d: real)
    ensures DistanceSq(p, q) == DistanceSq(q, p)
    ensures IsDistance(p, q, d) <==> IsDistance(q, p, d)
  {
    assert Square(q.x - p.x) == Square(p.x - q.x);
    assert Square(q.y - p.y) == Square(p.y - q.y);
  }

}
