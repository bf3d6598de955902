/** The generation parameters (the GenData record) and the density stopping test. */
module GenParams {

  /** A probability or fraction, kept exact as num / den. */
  datatype Ratio = Ratio(num: int, den: int)

  datatype GenData = GenData(
    maxAttempts: int,
    density: Ratio,
    width: int,
    height: int,
    minArrowLength: int,
    maxArrowLength: int,
    minTurnProb: Ratio,
    maxTurnProb: Ratio,
    fromInsideProb: Ratio)

  /** What generation needs of its configuration: a non-empty grid and a well-formed
      density fraction. The settings screen guarantees more (sides up to 50, a density
      in (0, 1], 1 <= minimum length <= maximum length); nothing here relies on that. */
  predicate Usable(g: GenData) {
    g.width >= 1 && g.height >= 1 && g.density.den > 0
  }

  /** The loop's stopping test `occupied / (width * height) >= density`, on exact rationals. */
  function DensityReached(occupied: int, g: GenData): (reached: bool)
    requires Usable(g)
    ensures reached <==>
      (occupied as real) / ((g.width * g.height) as real) >= (g.density.num as real) / (g.density.den as real)
  {
    var cells := g.width * g.height;
    assert cells >= 1 by { MulPositive(g.width, g.height); }
    ScaleCompare(occupied, cells, g.density.num, g.density.den);
    occupied * g.density.den >= g.density.num * cells
  }

  lemma MulPositive(a: int, b: int)
    requires a >= 1 && b >= 1
    ensures a * b >= 1
  {}

  lemma ScaleCompare(a: int, b: int, c: int, d: int)
    requires b > 0 && d > 0
    ensures (a as real) / (b as real) >= (c as real) / (d as real) <==> a * d >= c * b
  {
    var ra, rb, rc, rd := a as real, b as real, c as real, d as real;
    assert ra / rb >= rc / rd <==> ra * rd >= rc * rb by {
      assert ra / rb * (rb * rd) == ra * rd;
      assert rc / rd * (rb * rd) == rc * rb;
    }
    assert (a * d) as real == ra * rd;
    assert (c * b) as real == rc * rb;
  }
}
