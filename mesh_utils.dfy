/**
 * `RoundedRectangle` of `helpers/utils.ts`: the buffers of a triangle-fan
 * mesh for a rectangle with rounded corners. Vertex 0 is the centre and
 * vertices 1..n are the contour points, `s + 1` per corner.
 *
 * Only the integer structure is modelled: the segment count, the index
 * buffer, the buffer lengths and the quadrant and signs chosen for each
 * contour point. The floating-point coordinates (cosine and sine of the
 * corner angle, scaled by the width, height and radius) are kept as
 * symbolic values that record which contour point and which signs they
 * were computed from.
 */
module MeshUtils {
  import Arith

  /** A value pushed into the position or uv buffer. */
  datatype Num =
    | Lit(value: real)                // a constant such as 0 or 0.5
    | ContourX(sgx: int, j: nat)      // x of contour point j: sgx * (w / 2 - r) + r * cos(...)
    | ContourY(sgy: int, j: nat)      // y of contour point j: sgy * (h / 2 - r) + r * sin(...)
    | TexU(x: Num)                    // 0.5 + x / w
    | TexV(y: Num)                    // 0.5 + y / h

  /** The three buffers handed to the `BufferGeometry`. */
  datatype Geometry = Geometry(indices: seq<int>, positions: seq<Num>, uvs: seq<Num>)

  /** `n = (s + 1) * 4`, the number of segments (and of contour points). */
  function Segments(s: nat): nat
  {
    (s + 1) * 4
  }

  /** `qu = Math.trunc((4 * j) / n) + 1`; for non-negative operands truncation is floor division. */
  function Quadrant(j: nat, n: nat): int
    requires 0 < n
  {
    (4 * j) / n + 1
  }

  /** `sgx`: +1 on the right-hand corners (quadrants 1 and 4), -1 otherwise. */
  function SignX(qu: int): int
  {
    if qu == 1 || qu == 4 then 1 else -1
  }

  /** `sgy`: +1 on the upper corners (quadrants below 3), -1 otherwise. */
  function SignY(qu: int): int
  {
    if qu < 3 then 1 else -1
  }

  /** The triangles `(0, j, j + 1)` for `j = 1..m`, as the first loop pushes them. */
  function FanTriangles(m: nat): seq<int>
  {
    if m == 0 then [] else FanTriangles(m - 1) + [0, m, m + 1]
  }

  /** The position triple pushed by `contour(j)`. */
  function ContourPoint(j: nat, n: nat): seq<Num>
    requires 0 < n
  {
    var qu := Quadrant(j, n);
    [ContourX(SignX(qu), j), ContourY(SignY(qu), j), Lit(0.0)]
  }

  /** The uv pair pushed by `contour(j)`. */
  function ContourUv(j: nat, n: nat): seq<Num>
    requires 0 < n
  {
    var qu := Quadrant(j, n);
    [TexU(ContourX(SignX(qu), j)), TexV(ContourY(SignY(qu), j))]
  }

  /** Positions pushed by `contour(0)` .. `contour(m - 1)`. */
  function ContourPositions(m: nat, n: nat): seq<Num>
    requires 0 < n
  {
    if m == 0 then [] else ContourPositions(m - 1, n) + ContourPoint(m - 1, n)
  }

  /** Uvs pushed by `contour(0)` .. `contour(m - 1)`. */
  function ContourUvs(m: nat, n: nat): seq<Num>
    requires 0 < n
  {
    if m == 0 then [] else ContourUvs(m - 1, n) + ContourUv(m - 1, n)
  }

  /** The index buffer as written: the fan loop, then the closing triangle `(0, n, 1)`. */
  function IndexBuffer(n: nat): seq<int>
  {
    FanTriangles(n) + [0, n, 1]
  }

  /** The position buffer: the centre, then the contour points. */
  function PositionBuffer(n: nat): seq<Num>
    requires 0 < n
  {
    [Lit(0.0), Lit(0.0), Lit(0.0)] + ContourPositions(n, n)
  }

  /** The uv buffer: the centre, then the contour points. */
  function UvBuffer(n: nat): seq<Num>
    requires 0 < n
  {
    [Lit(0.5), Lit(0.5)] + ContourUvs(n, n)
  }

  /**
   * Builds the three buffers the way the source does: one loop pushes the
   * fan triangles, the centre vertex follows, and a second loop calls
   * `contour`, which overwrites `qu`, `sgx`, `sgy`, `x` and `y` and pushes
   * one position triple and one uv pair per contour point.
   */
  method RoundedRectangle(s: nat) returns (g: Geometry)
    ensures g.indices == IndexBuffer(Segments(s))
    ensures g.positions == PositionBuffer(Segments(s))
    ensures g.uvs == UvBuffer(Segments(s))
  {
    var n := (s + 1) * 4;
    var indices: seq<int> := [];
    var positions: seq<Num> := [];
    var uvs: seq<Num> := [];
    var qu: int, sgx: int, sgy: int, x: Num, y: Num;

    var j := 1;
    while j < n + 1
      invariant 1 <= j <= n + 1
      invariant indices == FanTriangles(j - 1)
    {
      indices := indices + [0, j, j + 1];
      j := j + 1;
    }
    indices := indices + [0, n, 1];
    positions := positions + [Lit(0.0), Lit(0.0), Lit(0.0)];
    uvs := uvs + [Lit(0.5), Lit(0.5)];

    j := 0;
    while j < n
      invariant 0 <= j <= n
      invariant positions == [Lit(0.0), Lit(0.0), Lit(0.0)] + ContourPositions(j, n)
      invariant uvs == [Lit(0.5), Lit(0.5)] + ContourUvs(j, n)
    {
      // contour(j)
      qu := (4 * j) / n + 1;
      sgx := if qu == 1 || qu == 4 then 1 else -1;
      sgy := if qu < 3 then 1 else -1;
      x := ContourX(sgx, j);
      y := ContourY(sgy, j);
      positions := positions + [x, y, Lit(0.0)];
      uvs := uvs + [TexU(x), TexV(y)];
      j := j + 1;
    }
    g := Geometry(indices, positions, uvs);
  }

  // ---------------------------------------------------------------------
  // The index buffer

  lemma {:induction false} FanTrianglesAt(m: nat, t: nat)
    requires t < m
    ensures |FanTriangles(m)| == 3 * m
    ensures FanTriangles(m)[3 * t] == 0
    ensures FanTriangles(m)[3 * t + 1] == t + 1
    ensures FanTriangles(m)[3 * t + 2] == t + 2
  {
    if t < m - 1 {
      FanTrianglesAt(m - 1, t);
    } else if m > 1 {
      FanTrianglesAt(m - 1, 0);
    }
  }

  lemma {:induction false} FanTrianglesBounds(m: nat)
    ensures |FanTriangles(m)| == 3 * m
    ensures forall k :: 0 <= k < 3 * m ==> 0 <= FanTriangles(m)[k] <= m + 1
  {
    if m > 0 {
      FanTrianglesBounds(m - 1);
    }
  }

  /**
   * The index buffer holds `n + 1` triangles: `(0, j, j + 1)` for `j = 1..n`
   * and then `(0, n, 1)`. Every triangle starts at the centre, and every
   * index lies in `0..n + 1`.
   */
  lemma IndexBufferShape(n: nat)
    ensures |IndexBuffer(n)| == 3 * (n + 1)
    ensures forall t :: 0 <= t <= n ==> IndexBuffer(n)[3 * t] == 0
    ensures forall t :: 0 <= t < n ==>
      IndexBuffer(n)[3 * t + 1] == t + 1 && IndexBuffer(n)[3 * t + 2] == t + 2
    ensures IndexBuffer(n)[3 * n + 1] == n && IndexBuffer(n)[3 * n + 2] == 1
    ensures forall k :: 0 <= k < |IndexBuffer(n)| ==> 0 <= IndexBuffer(n)[k] <= n + 1
  {
    FanTrianglesBounds(n);
    forall t | 0 <= t < n
      ensures IndexBuffer(n)[3 * t] == 0
      ensures IndexBuffer(n)[3 * t + 1] == t + 1 && IndexBuffer(n)[3 * t + 2] == t + 2
    {
      FanTrianglesAt(n, t);
    }
  }

  /**
   * The largest index written is `n + 1`, from the last fan triangle
   * `(0, n, n + 1)`, but only `n + 1` vertices (indices `0..n`) exist.
   */
  lemma IndexBeyondLastVertex(s: nat)
    ensures var n := Segments(s);
      |PositionBuffer(n)| == 3 * (n + 1) &&
      |IndexBuffer(n)| == 3 * (n + 1) &&
      IndexBuffer(n)[3 * n - 1] == n + 1 &&
      IndexBuffer(n)[3 * n - 1] * 3 == |PositionBuffer(n)|
  {
    var n := Segments(s);
    FanTrianglesAt(n, n - 1);
    PositionBufferShape(n);
  }

  /**
   * The fan as evidently intended: the loop stops at `j = n - 1` and the
   * closing triangle `(0, n, 1)` joins the last contour point to the first.
   */
  function ClosedFan(n: nat): seq<int>
    requires 0 < n
  {
    FanTriangles(n - 1) + [0, n, 1]
  }

  /**
   * The intended fan has one triangle per segment, each starting at the
   * centre, and every index names an existing vertex (`0..n`).
   */
  lemma ClosedFanInRange(n: nat)
    requires 0 < n
    ensures |ClosedFan(n)| == 3 * n
    ensures forall t :: 0 <= t < n ==> ClosedFan(n)[3 * t] == 0
    ensures forall k :: 0 <= k < |ClosedFan(n)| ==> 0 <= ClosedFan(n)[k] <= n
    ensures forall v :: 1 <= v <= n ==> v in ClosedFan(n)
  {
    FanTrianglesBounds(n - 1);
    forall t | 0 <= t < n - 1
      ensures ClosedFan(n)[3 * t] == 0 && ClosedFan(n)[3 * t + 1] == t + 1
    {
      FanTrianglesAt(n - 1, t);
    }
    forall v | 1 <= v <= n
      ensures v in ClosedFan(n)
    {
      if v < n {
        assert ClosedFan(n)[3 * (v - 1) + 1] == v;
      } else {
        assert ClosedFan(n)[3 * (n - 1) + 1] == n;
      }
    }
  }

  // ---------------------------------------------------------------------
  // The position and uv buffers

  lemma {:induction false} ContourPositionsAt(m: nat, n: nat, j: nat)
    requires 0 < n && j < m
    ensures |ContourPositions(m, n)| == 3 * m
    ensures var qu := Quadrant(j, n);
      ContourPositions(m, n)[3 * j] == ContourX(SignX(qu), j) &&
      ContourPositions(m, n)[3 * j + 1] == ContourY(SignY(qu), j) &&
      ContourPositions(m, n)[3 * j + 2] == Lit(0.0)
  {
    if j < m - 1 {
      ContourPositionsAt(m - 1, n, j);
    } else if m > 1 {
      ContourPositionsAt(m - 1, n, 0);
    }
  }

  lemma {:induction false} ContourUvsLength(m: nat, n: nat)
    requires 0 < n
    ensures |ContourUvs(m, n)| == 2 * m
  {
    if m > 0 {
      ContourUvsLength(m - 1, n);
    }
  }

  /** Vertex `j + 1` is contour point `j`, placed with the signs of its quadrant, at z = 0. */
  lemma ContourVertex(n: nat, j: nat)
    requires j < n
    ensures |PositionBuffer(n)| == 3 * (n + 1)
    ensures var qu := Quadrant(j, n);
      PositionBuffer(n)[3 * (j + 1)] == ContourX(SignX(qu), j) &&
      PositionBuffer(n)[3 * (j + 1) + 1] == ContourY(SignY(qu), j) &&
      PositionBuffer(n)[3 * (j + 1) + 2] == Lit(0.0)
  {
    ContourPositionsAt(n, n, j);
  }

  /**
   * Exactly `n + 1` vertices are emitted: 3 position components and 2 uv
   * components each. Vertex `j + 1` is contour point `j`, with the signs of
   * its quadrant, and every z component is 0.
   */
  lemma PositionBufferShape(n: nat)
    requires 0 < n
    ensures |PositionBuffer(n)| == 3 * (n + 1)
    ensures |UvBuffer(n)| == 2 * (n + 1)
    ensures forall v :: 0 <= v <= n ==> PositionBuffer(n)[3 * v + 2] == Lit(0.0)
  {
    ContourPositionsAt(n, n, 0);
    ContourUvsLength(n, n);
    forall v | 0 <= v <= n
      ensures PositionBuffer(n)[3 * v + 2] == Lit(0.0)
    {
      if v > 0 {
        ContourVertex(n, v - 1);
      }
    }
  }

  // ---------------------------------------------------------------------
  // Quadrants and signs

  /** Contour point `j` lies in quadrant 1 + (j div (s + 1)): the quadrants split the points into runs of `s + 1`. */
  lemma QuadrantOfPoint(s: nat, j: nat)
    requires j < Segments(s)
    ensures var m := s + 1;
      Quadrant(j, Segments(s)) ==
        if j < m then 1 else if j < 2 * m then 2 else if j < 3 * m then 3 else 4
  {
    var m, n := s + 1, Segments(s);
    var q: int := if j < m then 0 else if j < 2 * m then 1 else if j < 3 * m then 2 else 3;
    var r: int := if q == 0 then j else if q == 1 then j - m else if q == 2 then j - 2 * m else j - 3 * m;
    assert 0 <= r < m;
    assert 4 * j == q * n + 4 * r by {
      assert n == 4 * m;
      if q == 0 {
      } else if q == 1 {
        assert q * n == 4 * m;
      } else if q == 2 {
        assert q * n == 8 * m;
      } else {
        assert q * n == 12 * m;
      }
    }
    Arith.DivModUnique(4 * j, n, q, 4 * r);
  }

  /** Every contour point has a quadrant in 1..4, and quadrants never decrease along the contour. */
  lemma QuadrantOrdered(s: nat, j1: nat, j2: nat)
    requires j1 <= j2 < Segments(s)
    ensures 1 <= Quadrant(j1, Segments(s)) <= Quadrant(j2, Segments(s)) <= 4
  {
    QuadrantOfPoint(s, j1);
    QuadrantOfPoint(s, j2);
  }

  /** Quadrant `q` holds exactly the contour points `(q - 1) * (s + 1) .. q * (s + 1) - 1`. */
  lemma QuadrantMembers(s: nat, q: int, j: nat)
    requires 1 <= q <= 4 && j < Segments(s)
    ensures Quadrant(j, Segments(s)) == q <==> (q - 1) * (s + 1) <= j < q * (s + 1)
  {
    QuadrantOfPoint(s, j);
  }

  /** The number of contour points among `0..k - 1` that fall in quadrant `q`. */
  function CountInQuadrant(s: nat, q: int, k: nat): nat
    requires k <= Segments(s)
  {
    if k == 0 then 0
    else CountInQuadrant(s, q, k - 1) + (if Quadrant(k - 1, Segments(s)) == q then 1 else 0)
  }

  lemma {:induction false} CountInQuadrantUpTo(s: nat, q: int, k: nat)
    requires 1 <= q <= 4 && k <= Segments(s)
    ensures var lo, hi := (q - 1) * (s + 1), q * (s + 1);
      CountInQuadrant(s, q, k) == if k <= lo then 0 else if k <= hi then k - lo else s + 1
  {
    if k > 0 {
      CountInQuadrantUpTo(s, q, k - 1);
      QuadrantMembers(s, q, k - 1);
    }
  }

  /** Each of the four quadrants receives exactly `s + 1` contour points. */
  lemma QuadrantCount(s: nat, q: int)
    requires 1 <= q <= 4
    ensures CountInQuadrant(s, q, Segments(s)) == s + 1
  {
    CountInQuadrantUpTo(s, q, Segments(s));
  }

  /**
   * The four quadrants have four different sign pairs, i.e. four different
   * corners, and going from one quadrant to the next (and from 4 back to 1)
   * flips exactly one sign: the contour walks round the rectangle.
   */
  lemma CornerSigns(q1: int, q2: int)
    requires 1 <= q1 <= 4 && 1 <= q2 <= 4
    ensures SignX(q1) in {-1, 1} && SignY(q1) in {-1, 1}
    ensures (SignX(q1), SignY(q1)) == (SignX(q2), SignY(q2)) ==> q1 == q2
    ensures q2 == q1 % 4 + 1 ==> (SignX(q1) != SignX(q2)) != (SignY(q1) != SignY(q2))
  {
  }
}
