/** Three-dimensional index arithmetic: vectors of three components, boxes of cells and the
    row-major numbering of the cells of a box. */
module Grid {
  import opened Arithmetic

  datatype Vec = Vec(i: int, j: int, k: int) {

    function Plus(that: Vec): Vec { Vec(i + that.i, j + that.j, k + that.k) }

    function Minus(that: Vec): Vec { Vec(i - that.i, j - that.j, k - that.k) }

    function Product(): int { i * j * k }
  }

  const ORIGIN := Vec(0, 0, 0)
  const ONES := Vec(1, 1, 1)

  function Min(a: int, b: int): int { if a < b then a else b }

  function MinVec(a: Vec, b: Vec): Vec { Vec(Min(a.i, b.i), Min(a.j, b.j), Min(a.k, b.k)) }

  predicate AtMost(a: Vec, b: Vec) { a.i <= b.i && a.j <= b.j && a.k <= b.k }

  /** The cell `c` lies in the half-open box from `lo` to `hi`. */
  predicate InBox(c: Vec, lo: Vec, hi: Vec) {
    && lo.i <= c.i < hi.i
    && lo.j <= c.j < hi.j
    && lo.k <= c.k < hi.k
  }

  /** The cell `c` is visited before `d` by three nested loops. */
  predicate Before(c: Vec, d: Vec) {
    c.i < d.i || (c.i == d.i && (c.j < d.j || (c.j == d.j && c.k < d.k)))
  }

  /** Row-major position of the cell `c` of a box of the size `s`. */
  function Index(s: Vec, c: Vec): int { (c.i * s.j + c.j) * s.k + c.k }

  /** The cell that has the row-major position `n`. */
  function CellOf(s: Vec, n: int): Vec
    requires s.j > 0 && s.k > 0
  {
    Vec((n / s.k) / s.j, (n / s.k) % s.j, n % s.k)
  }

  /** `CellOf` undoes `Index`, and the positions of a box are the numbers below its volume. */
  lemma CellOfIndex(s: Vec, c: Vec)
    requires InBox(c, ORIGIN, s)
    ensures 0 <= Index(s, c) < s.Product()
    ensures CellOf(s, Index(s, c)) == c
  {
    DivModUnique(c.i * s.j + c.j, c.k, s.k);
    DivModUnique(c.i, c.j, s.j);
    MulLess(c.i, s.i, s.j);
    MulLess(c.i * s.j + c.j, s.i * s.j, s.k);
  }

  /** `Index` undoes `CellOf`. */
  lemma IndexCellOf(s: Vec, n: int)
    requires AtMost(ONES, s) && 0 <= n < s.Product()
    ensures InBox(CellOf(s, n), ORIGIN, s) && Index(s, CellOf(s, n)) == n
  {
    DivLess(n, s.i * s.j, s.k);
    DivLess(n / s.k, s.i, s.j);
  }

  lemma IndexOrigin(s: Vec)
    ensures Index(s, ORIGIN) == 0 && Index(s, Vec(s.i, 0, 0)) == s.Product()
  {
  }

  lemma IndexNext(s: Vec, i: int, j: int, k: int)
    ensures Index(s, Vec(i, j, k + 1)) == Index(s, Vec(i, j, k)) + 1
  {
  }

  /** Running over the end of a row is the start of the next one. */
  lemma IndexCarry(s: Vec, i: int, j: int)
    ensures Index(s, Vec(i, j, s.k)) == Index(s, Vec(i, j + 1, 0))
    ensures Index(s, Vec(i, s.j, 0)) == Index(s, Vec(i + 1, 0, 0))
  {
    assert (i * s.j + j + 1) * s.k == (i * s.j + j) * s.k + s.k;
    assert i * s.j + s.j == (i + 1) * s.j;
  }

  /** The element of the flat array that belongs to the cell `c`. */
  function At<T>(a: array<T>, s: Vec, c: Vec): T
    requires a.Length == s.Product() && InBox(c, ORIGIN, s)
    reads a
  {
    CellOfIndex(s, c);
    a[Index(s, c)]
  }

  /** Writing one cell leaves all the other cells of the box alone. */
  method Put<T>(a: array<T>, s: Vec, c: Vec, value: T)
    requires a.Length == s.Product() && InBox(c, ORIGIN, s)
    modifies a
    ensures forall d | InBox(d, ORIGIN, s) :: At(a, s, d) == if d == c then value else old(At(a, s, d))
  {
    CellOfIndex(s, c);
    a[Index(s, c)] := value;
    forall d | InBox(d, ORIGIN, s) ensures At(a, s, d) == if d == c then value else old(At(a, s, d)) {
      CellOfIndex(s, d);
    }
  }
}
