/**
 * Products, quotients and remainders of naturals used by the buffer arithmetic.
 *
 * They are written as recursive functions so that the verifier treats them as
 * opaque terms unless a proof asks for their meaning; `MulSpec` and
 * `DivModSpec` tie them to Dafny's `*`, `/` and `%`, and the lemmas below state
 * the few facts about them that the grid geometry needs, each over plain
 * variables.
 */
module Arith {

  function Min(a: int, b: int): (r: int)
    ensures r <= a && r <= b && (r == a || r == b)
  {
    if a <= b then a else b
  }

  /** Product of `a` and `b`, by repeated addition. */
  function Mul(a: nat, b: nat): nat
    decreases a
  {
    if a == 0 then 0 else b + Mul(a - 1, b)
  }

  /** Quotient of `a` by `d`, by repeated subtraction. */
  function Div(a: nat, d: nat): nat
    requires 0 < d
    decreases a
  {
    if a < d then 0 else 1 + Div(a - d, d)
  }

  /** Remainder of `a` by `d`, by repeated subtraction. */
  function Mod(a: nat, d: nat): nat
    requires 0 < d
    decreases a
  {
    if a < d then a else Mod(a - d, d)
  }

  /** `Mul` is multiplication. */
  lemma {:induction false} MulSpec(a: nat, b: nat)
    ensures Mul(a, b) == a * b
    decreases a
  {
    if a > 0 {
      MulSpec(a - 1, b);
    }
  }

  /** Euclidean quotient and remainder are determined by the division equation. */
  lemma EuclidUnique(a: int, d: int, q: int, r: int)
    requires 0 < d && 0 <= r < d && a == q * d + r
    ensures a / d == q && a % d == r
  {
    var q', r' := a / d, a % d;
    assert a == q' * d + r';
    assert (q - q') * d == r' - r;
    if q > q' {
      MulMono(1, q - q', d);
    } else if q < q' {
      MulMono(1, q' - q, d);
    }
  }

  lemma MulMono(a: int, b: int, m: int)
    requires a <= b && 0 <= m
    ensures a * m <= b * m
  {
    assert b * m - a * m == (b - a) * m;
  }

  /** `Div` and `Mod` are Euclidean division and remainder. */
  lemma {:induction false} DivModSpec(a: nat, d: nat)
    requires 0 < d
    ensures Div(a, d) == a / d && Mod(a, d) == a % d
    decreases a
  {
    if a >= d {
      DivModSpec(a - d, d);
      EuclidUnique(a, d, (a - d) / d + 1, (a - d) % d);
    } else {
      EuclidUnique(a, d, 0, a);
    }
  }

  /** The division equation of `Div` and `Mod`. */
  lemma DivMod(a: nat, d: nat)
    requires 0 < d
    ensures Mod(a, d) < d && a == Mul(Div(a, d), d) + Mod(a, d)
  {
    DivModSpec(a, d);
    MulSpec(Div(a, d), d);
  }

  /** `Div` and `Mod` are determined by the division equation. */
  lemma DivModUnique(a: nat, d: nat, q: nat, r: nat)
    requires 0 < d && r < d && a == Mul(q, d) + r
    ensures Div(a, d) == q && Mod(a, d) == r
  {
    DivModSpec(a, d);
    MulSpec(q, d);
    EuclidUnique(a, d, q, r);
  }

  lemma MulPos(a: nat, b: nat)
    requires 0 < a && 0 < b
    ensures 0 < Mul(a, b)
  {
    MulSpec(a, b);
  }

  /** Distributivity over a sum in the first factor. */
  lemma MulAdd(a: nat, b: nat, w: nat)
    ensures Mul(a + b, w) == Mul(a, w) + Mul(b, w)
  {
    MulSpec(a + b, w);
    MulSpec(a, w);
    MulSpec(b, w);
  }

  lemma MulComm(a: nat, b: nat)
    ensures Mul(a, b) == Mul(b, a)
  {
    MulSpec(a, b);
    MulSpec(b, a);
  }

  lemma {:induction false} MulAssoc(a: nat, b: nat, c: nat)
    ensures Mul(Mul(a, b), c) == Mul(a, Mul(b, c))
    decreases a
  {
    if a > 0 {
      MulAdd(b, Mul(a - 1, b), c);
      MulAssoc(a - 1, b, c);
    }
  }

  /** Regrouping a product of four factors, `(a b)(c d) == (b c)(a d)`. */
  lemma MulRegroup(a: nat, b: nat, c: nat, d: nat)
    ensures Mul(Mul(a, b), Mul(c, d)) == Mul(Mul(b, c), Mul(a, d))
  {
    calc {
      Mul(Mul(a, b), Mul(c, d));
      { MulAssoc(a, b, Mul(c, d)); }
      Mul(a, Mul(b, Mul(c, d)));
      { MulAssoc(b, c, d); }
      Mul(a, Mul(Mul(b, c), d));
      { MulAssoc(a, Mul(b, c), d); }
      Mul(Mul(a, Mul(b, c)), d);
      { MulComm(a, Mul(b, c)); }
      Mul(Mul(Mul(b, c), a), d);
      { MulAssoc(Mul(b, c), a, d); }
      Mul(Mul(b, c), Mul(a, d));
    }
  }

  /** A product with a factor of four is four times the product with the other factor. */
  lemma MulFour(a: nat, b: nat)
    ensures Mul(a, b * 4) == Mul(a, b) * 4
  {
    MulSpec(a, b * 4);
    MulSpec(a, b);
  }

  /** A quotient by `d` of a number below `n * d` is below `n`. */
  lemma DivBelow(a: nat, d: nat, n: nat)
    requires 0 < d && a < Mul(n, d)
    ensures Div(a, d) < n
  {
    DivMod(a, d);
    RowMajorBound(n, d, Div(a, d), Mod(a, d));
  }

  /** A row-major index `q * n + r` with `r < n` is below `m * n` exactly when `q < m`. */
  lemma RowMajorBound(m: nat, n: nat, q: nat, r: nat)
    requires r < n
    ensures Mul(q, n) + r < Mul(m, n) <==> q < m
  {
    MulSpec(q, n);
    MulSpec(m, n);
    if q < m {
      MulMono(q + 1, m, n);
    } else {
      MulMono(m, q, n);
    }
  }

  /** In a grid of `rows` blocks of `h` lines of `w` bytes, position (block, line, col) lies before the end exactly when the block does. */
  lemma BlockBound(rows: nat, h: nat, w: nat, block: nat, line: nat, col: nat)
    requires line < h && col < w
    ensures Mul(Mul(block, h) + line, w) + col < Mul(Mul(rows, h), w) <==> block < rows
  {
    RowMajorBound(rows, h, block, line);
    RowMajorBound(Mul(rows, h), w, Mul(block, h) + line, col);
  }

  /**
   * In a buffer of lines of `w == cols * rw` bytes, grouped into blocks of `h`
   * lines and cells of `rw` bytes, byte `c` of line `i` of cell (kx, ky) is
   * recovered by division: its line is `ky * h + i`, its byte within the line
   * `kx * rw + c`, and these split back into (ky, i) and (kx, c).
   */
  lemma GridIndex(cols: nat, h: nat, rw: nat, w: nat, kx: nat, ky: nat, i: nat, c: nat)
    requires 0 < h && 0 < rw && w == Mul(cols, rw) && kx < cols && i < h && c < rw
    ensures var idx := Mul(i, w) + (Mul(kx, rw) + Mul(Mul(ky, h), w)) + c;
      && Div(idx, w) == Mul(ky, h) + i && Mod(idx, w) == Mul(kx, rw) + c
      && Div(Mul(ky, h) + i, h) == ky && Mod(Mul(ky, h) + i, h) == i
      && Div(Mul(kx, rw) + c, rw) == kx && Mod(Mul(kx, rw) + c, rw) == c
  {
    MulAdd(Mul(ky, h), i, w);
    RowMajorBound(cols, rw, kx, c);
    DivModUnique(Mul(i, w) + (Mul(kx, rw) + Mul(Mul(ky, h), w)) + c, w, Mul(ky, h) + i, Mul(kx, rw) + c);
    DivModUnique(Mul(ky, h) + i, h, ky, i);
    DivModUnique(Mul(kx, rw) + c, rw, kx, c);
  }

  /** The converse of `GridIndex`: every byte index splits into cell, line and byte. */
  lemma GridSplit(cols: nat, h: nat, rw: nat, w: nat, idx: nat)
    requires 0 < cols && 0 < h && 0 < rw && w == Mul(cols, rw)
    ensures 0 < w
    ensures var line, col := Div(idx, w), Mod(idx, w);
      var ky, i, kx, c := Div(line, h), Mod(line, h), Div(col, rw), Mod(col, rw);
      && i < h && c < rw && kx < cols
      && idx == Mul(i, w) + (Mul(kx, rw) + Mul(Mul(ky, h), w)) + c
  {
    MulPos(cols, rw);
    DivMod(idx, w);
    var line, col := Div(idx, w), Mod(idx, w);
    DivMod(line, h);
    DivMod(col, rw);
    DivBelow(col, rw, cols);
    MulAdd(Mul(Div(line, h), h), Mod(line, h), w);
  }

  /** Regrouping a product of three factors, `(a b) c == b (a c)`. */
  lemma Regroup3(a: nat, b: nat, c: nat)
    ensures a * b * c == b * (a * c)
  {
    assert a * b * c == a * (b * c);
  }

  /** Regrouping a product of four factors, `((n a) b) c == n (b (a c))`. */
  lemma Regroup4(n: nat, a: nat, b: nat, c: nat)
    ensures n * a * b * c == n * (b * (a * c))
  {
    assert n * a * b * c == n * (a * b * c);
    Regroup3(a, b, c);
  }

  /** Reassociating a product of four factors, `((q c) w) f == q ((c w) f)`. */
  lemma Assoc4(q: nat, c: nat, w: nat, f: nat)
    ensures q * c * w * f == q * (c * w * f)
  {
    assert q * c * w * f == (q * c) * (w * f);
  }
}
