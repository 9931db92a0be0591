/**
 * Facts about row-major numbering of a rectangular block of integers,
 * `x + w * y` for `0 <= x < w` and `0 <= y < h`, which the node numbering of
 * high-order Lagrange cells uses for every face and for the interior. They
 * are kept apart so that the solver sees each multiplication only once.
 */
module LatticeArithmetic {

  /** Multiplying by a non-negative factor keeps the order. */
  lemma MulMonotone(x: int, y: int, z: int)
    requires 0 <= x && y <= z
    ensures x * y <= x * z
  {
    var d := z - y;
    assert x * z == x * y + x * d;
  }

  /** A row-major position inside a `w` by `h` block lies below `w * h`. */
  lemma RowMajorBound(x: int, y: int, w: int, h: int)
    requires 0 <= x < w && 0 <= y < h
    ensures 0 <= x + w * y < w * h
  {
    MulMonotone(w, 0, y);
    MulMonotone(w, y, h - 1);
    assert w * (h - 1) == w * h - w;
  }

  /** Every position below `w * h` splits into a column below `w` and a row below `h`. */
  lemma RowMajorSplit(r: int, w: int, h: int)
    requires 1 <= w && 0 <= r < w * h
    ensures 0 <= r % w < w && 0 <= r / w < h
    ensures r == r % w + w * (r / w)
  {
    var q := r / w;
    if q >= h {
      MulMonotone(w, h, q);
      assert false;
    }
    if q < 0 {
      MulMonotone(w, q, -1);
      assert false;
    }
  }

  /** The column and the row of a row-major position are recovered by `%` and `/`. */
  lemma RowMajorUnique(x: int, y: int, w: int)
    requires 0 <= x < w && 0 <= y
    ensures (x + w * y) % w == x && (x + w * y) / w == y
  {
    var r := x + w * y;
    var q, s := r / w, r % w;
    assert w * (y - q) == s - x;
    if y > q {
      MulMonotone(w, 1, y - q);
      assert false;
    }
    if y < q {
      MulMonotone(w, 1, q - y);
      assert false;
    }
  }

  /** Doubling a product doubles either factor: a hint for the solver, which
      otherwise loses this step among the other products in a proof. */
  lemma DoubleProduct(x: int, y: int)
    ensures 2 * x * y == 2 * (x * y)
  {
  }

  /** The number of nodes of a quadrilateral lattice by stratum: 4 corners, 2(a + b) edge nodes, ab interior nodes. */
  lemma QuadCountSplit(a: int, b: int)
    ensures (a + 2) * (b + 2) == 4 + 2 * (a + b) + a * b
  {
  }

  /** The number of nodes of a hexahedral lattice by stratum: 8 corners, 4(a + b + c) edge nodes,
      2(bc + ca + ab) face nodes and abc interior nodes. */
  lemma HexCountSplit(a: int, b: int, c: int)
    ensures (a + 2) * (b + 2) * (c + 2)
         == 8 + 4 * (a + b + c) + 2 * (b * c + c * a + a * b) + a * (b * c)
  {
    QuadCountSplit(a, b);
    var s := (a + 2) * (b + 2);
    assert s * (c + 2) == s * c + 2 * s;
    assert s * c == 4 * c + 2 * (a * c + b * c) + (a * b) * c;
    assert (a * b) * c == a * (b * c);
  }
}
