/**
 * The sampling lattice of `Scraper.generate_equidistant_points`: 70 latitudes
 * times 100 longitudes, 0.005 degrees apart, enumerated latitude-major, and
 * then filtered by a point-in-polygon test against the country boundary.
 * A candidate is identified by its two lattice indices rather than by its
 * floating-point degrees, and the polygon test is a parameter.
 */
module GridSampler {
  import opened Sequences

  /** Number of latitudes and of longitudes in the lattice. */
  const LatCount: nat := 70
  const LonCount: nat := 100

  /**
   * The lattice point at latitude 1.1607 + 0.005 * i and longitude
   * 103.6081 + 0.005 * j, named by its indices.
   */
  datatype Candidate = Candidate(i: nat, j: nat)

  predicate InLattice(c: Candidate) {
    c.i < LatCount && c.j < LonCount
  }

  /** Where a candidate sits in latitude-major, longitude-minor order. */
  function Position(c: Candidate): int {
    c.i * LonCount + c.j
  }

  /** One latitude row, longitudes ascending (the inner loop of the enumeration). */
  function Row(i: nat): seq<Candidate> {
    seq(LonCount, (j: nat) => Candidate(i, j))
  }

  /** The first `n` latitude rows, one after another (the outer loop of the enumeration). */
  function Rows(n: nat): seq<Candidate> {
    if n == 0 then [] else Rows(n - 1) + Row(n - 1)
  }

  /** All candidates, before the containment test. */
  function Lattice(): seq<Candidate> {
    Rows(LatCount)
  }

  lemma {:induction false} RowsLength(n: nat)
    ensures |Rows(n)| == n * LonCount
  {
    if n > 0 {
      RowsLength(n - 1);
    }
  }

  /** Entry `k` of the first `n` rows has latitude index `k / 100` and longitude index `k % 100`. */
  lemma {:induction false} RowsAt(n: nat, k: nat)
    requires k < n * LonCount
    ensures |Rows(n)| == n * LonCount
    ensures Rows(n)[k] == Candidate(k / LonCount, k % LonCount)
  {
    RowsLength(n);
    RowsLength(n - 1);
    if k < (n - 1) * LonCount {
      RowsAt(n - 1, k);
    } else {
      var j := k - (n - 1) * LonCount;
      assert Rows(n)[k] == Row(n - 1)[j];
      assert k / LonCount == n - 1 && k % LonCount == j;
    }
  }

  /**
   * The lattice has 70 * 100 = 7000 candidates and candidate `k` is
   * `(k / 100, k % 100)`: latitude-major, longitude-minor order.
   */
  lemma LatticeShape()
    ensures |Lattice()| == LatCount * LonCount == 7000
    ensures forall k :: 0 <= k < |Lattice()| ==> Lattice()[k] == Candidate(k / LonCount, k % LonCount)
  {
    RowsLength(LatCount);
    forall k | 0 <= k < |Lattice()| ensures Lattice()[k] == Candidate(k / LonCount, k % LonCount) {
      RowsAt(LatCount, k);
    }
  }

  /**
   * Every lattice index pair occurs in the lattice, nothing else does, and the
   * candidates appear in strictly increasing position (so each occurs once).
   */
  lemma LatticeMembersAndOrder()
    ensures forall c :: c in Lattice() <==> InLattice(c)
    ensures IncreasingBy(Lattice(), Position)
  {
    LatticeShape();
    forall c | InLattice(c) ensures c in Lattice() {
      var k := Position(c);
      assert k / LonCount == c.i && k % LonCount == c.j;
      assert Lattice()[k] == c;
    }
    forall k | 0 <= k < |Lattice()| ensures Position(Lattice()[k]) == k {
      assert Lattice()[k] == Candidate(k / LonCount, k % LonCount);
    }
  }

  /**
   * `generate_equidistant_points`: the candidates that `inside` (the polygon's
   * `contains`) accepts, in lattice order.
   */
  function GenerateEquidistantPoints(inside: Candidate -> bool): (r: seq<Candidate>)
    ensures |r| <= LatCount * LonCount
    ensures forall c :: c in r <==> InLattice(c) && inside(c)
    ensures IncreasingBy(r, Position)
    ensures IsSubsequence(r, Lattice())
  {
    LatticeShape();
    LatticeMembersAndOrder();
    KeepIsSubsequence(Lattice(), inside);
    SubsequenceKeepsIncreasing(Keep(Lattice(), inside), Lattice(), Position);
    Keep(Lattice(), inside)
  }
}
