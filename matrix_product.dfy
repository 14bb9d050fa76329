// The row-partitioned matrix product of hw2/111511141.c. The matrix is
// dim x dim, stored row-major in an array of unsigned ints, and multiplied
// by itself (A and B are the same block of memory). The forked children
// become a loop over the row blocks: each block reads only A and writes
// only its own rows of C, so running them one after another leaves the
// same C as running them side by side.
module MatrixProduct {
  /** unsigned int arithmetic wraps modulo 2^32. */
  const Word: nat := 0x1_0000_0000

  /** main runs the product with 1, 2, ..., 16 processes. */
  const Cases: nat := 16

  /**
   * The index arithmetic (i * dim + j, r * dim + k, j * dim) is done in
   * int: dim * dim has to fit in an int for it to be defined.
   */
  predicate DimOk(dim: nat)
  {
    dim * dim <= 0x7fff_ffff
  }

  /** Row i of a row-major dim x dim matrix ends inside it. */
  lemma {:induction false} RowFits(i: nat, dim: nat)
    requires i < dim
    ensures i * dim + dim <= dim * dim
    decreases dim - i
  {
    if i + 1 < dim {
      RowFits(i + 1, dim);
    }
    assert (i + 1) * dim == i * dim + dim;
  }

  lemma MulMono(a: nat, b: nat, k: nat)
    requires a <= b
    ensures a * k <= b * k
  {
  }

  // ---------------------------------------------------------------- ini_matrices

  /** What ini_matrices writes: every cell holds its own index. */
  function Initial(dim: nat): (m: seq<nat>)
    ensures |m| == dim * dim && forall p :: 0 <= p < |m| ==> m[p] == p
  {
    seq(dim * dim, p => p)
  }

  /** ini_matrices: A[i*dim+j] = i*dim+j, row by row. */
  method IniMatrices(a: array<nat>, dim: nat)
    requires a.Length == dim * dim && DimOk(dim)
    modifies a
    ensures a[..] == Initial(dim) && forall p :: 0 <= p < a.Length ==> a[p] < Word
  {
    for i := 0 to dim
      invariant forall p :: 0 <= p < i * dim ==> a[p] == p
    {
      var row := i * dim;
      RowFits(i, dim);
      for j := 0 to dim
        invariant forall p :: 0 <= p < row + j ==> a[p] == p
      {
        a[row + j] := row + j;
      }
      assert (i + 1) * dim == row + dim;
    }
  }

  // ---------------------------------------------------------------- getMatrixChecksum

  /** The plain sum of the entries. */
  function Total(s: seq<nat>): nat
  {
    if s == [] then 0 else Total(s[..|s| - 1]) + s[|s| - 1]
  }

  /** getMatrixChecksum: the entries added up with unsigned wrap-around. */
  method Checksum(m: array<nat>, dim: nat) returns (checksum: nat)
    requires m.Length == dim * dim
    ensures checksum == Total(m[..]) % Word
  {
    checksum := 0;
    for i := 0 to dim * dim
      invariant checksum == Total(m[..i]) % Word
    {
      assert m[..i + 1][..i] == m[..i];
      ModAdd(Total(m[..i]), m[i]);
      checksum := (checksum + m[i]) % Word;
    }
    assert m[..dim * dim] == m[..];
  }

  /** Reducing the running sum at each step gives the reduced total. */
  lemma ModAdd(x: nat, y: nat)
    ensures (x % Word + y) % Word == (x + y) % Word
  {
    var q := x / Word;
    assert x == q * Word + x % Word;
    assert x + y == q * Word + (x % Word + y);
  }

  /** ((x mod 2^32) + (y mod 2^32)) mod 2^32 is (x + y) mod 2^32. */
  lemma ModAddBoth(x: nat, y: nat)
    ensures (x % Word + y % Word) % Word == (x + y) % Word
  {
    ModAdd(x, y % Word);
    ModAdd(y, x);
    assert (y % Word + x) % Word == (x + y) % Word;
  }

  // ---------------------------------------------------------------- the product

  /** Σ_{k < n} A[r][k] * A[k][c], without wrap-around. */
  function Dot(m: seq<nat>, dim: nat, r: nat, c: nat, n: nat): nat
    requires |m| == dim * dim && r < dim && c < dim && n <= dim
  {
    if n == 0 then 0
    else
      RowFits(r, dim);
      RowFits(n - 1, dim);
      Dot(m, dim, r, c, n - 1) + m[r * dim + (n - 1)] * m[(n - 1) * dim + c]
  }

  /** Cell (r, c) of the product A * A in unsigned arithmetic. */
  function Entry(m: seq<nat>, dim: nat, r: nat, c: nat): nat
    requires |m| == dim * dim && r < dim && c < dim
  {
    Dot(m, dim, r, c, dim) % Word
  }

  /** The first n rows of the product, row-major. */
  function ProductRows(m: seq<nat>, dim: nat, n: nat): (p: seq<nat>)
    requires |m| == dim * dim && n <= dim
    ensures |p| == n * dim
  {
    if n == 0 then []
    else
      assert n * dim == (n - 1) * dim + dim;
      ProductRows(m, dim, n - 1) + seq(dim, c requires 0 <= c < dim => Entry(m, dim, n - 1, c))
  }

  /** A * A, row-major: what C holds once every block is done. */
  function Product(m: seq<nat>, dim: nat): (p: seq<nat>)
    requires |m| == dim * dim
    ensures |p| == dim * dim
  {
    ProductRows(m, dim, dim)
  }

  /** Cell (r, c) of the product sits at r * dim + c. */
  lemma {:induction false} ProductAt(m: seq<nat>, dim: nat, n: nat, r: nat, c: nat)
    requires |m| == dim * dim && r < n <= dim && c < dim
    ensures r * dim + c < n * dim && ProductRows(m, dim, n)[r * dim + c] == Entry(m, dim, r, c)
  {
    RowFits(r, dim);
    assert n * dim == (n - 1) * dim + dim;
    if r < n - 1 {
      ProductAt(m, dim, n - 1, r, c);
    } else {
      assert r * dim == (n - 1) * dim;
    }
  }

  /** The inner loop: the dot product of row r and column c, wrapping at each step. */
  method DotProduct(a: array<nat>, dim: nat, r: nat, c: nat) returns (sum: nat)
    requires a.Length == dim * dim && r < dim && c < dim
    ensures sum == Entry(a[..], dim, r, c)
  {
    sum := 0;
    RowFits(r, dim);
    for k := 0 to dim
      invariant sum == Dot(a[..], dim, r, c, k) % Word
    {
      RowFits(k, dim);
      var x := a[r * dim + k] * a[k * dim + c];
      ModAddBoth(Dot(a[..], dim, r, c, k), x);
      sum := (sum + x % Word) % Word;
    }
  }

  /** One row of the block: the middle loop over the columns. */
  method RowProduct(a: array<nat>, c: array<nat>, dim: nat, r: nat)
    requires a != c && a.Length == dim * dim && c.Length == dim * dim && r < dim
    modifies c
    ensures r * dim + dim <= dim * dim
    ensures forall p :: 0 <= p < c.Length ==>
              c[p] == if r * dim <= p < r * dim + dim then Product(a[..], dim)[p] else old(c[p])
  {
    ghost var P := Product(a[..], dim);
    RowFits(r, dim);
    var row := r * dim;
    for col := 0 to dim
      invariant forall p :: 0 <= p < c.Length ==> c[p] == if row <= p < row + col then P[p] else old(c[p])
    {
      var sum := DotProduct(a, dim, r, col);
      ProductAt(a[..], dim, dim, r, col);
      c[row + col] := sum;
    }
  }

  /**
   * What the child for rows [start, end) does: each of its cells gets the
   * product, and no cell outside its rows is written.
   */
  method MultiplyBlock(a: array<nat>, c: array<nat>, dim: nat, start: nat, end: nat)
    requires a != c && a.Length == dim * dim && c.Length == dim * dim && start <= end <= dim
    modifies c
    ensures forall p :: 0 <= p < c.Length ==>
              c[p] == if start * dim <= p < end * dim then Product(a[..], dim)[p] else old(c[p])
  {
    ghost var P := Product(a[..], dim);
    MulMono(start, end, dim);
    for r := start to end
      invariant start * dim <= r * dim
      invariant forall p :: 0 <= p < c.Length ==> c[p] == if start * dim <= p < r * dim then P[p] else old(c[p])
    {
      RowProduct(a, c, dim, r);
      assert (r + 1) * dim == r * dim + dim;
    }
  }

  // ---------------------------------------------------------------- the row partition

  /** The first row of block j out of n: j * dim / n. */
  function BlockStart(j: nat, dim: nat, n: nat): nat
    requires n >= 1
  {
    j * dim / n
  }

  lemma DivMono(x: nat, y: nat, n: nat)
    requires x <= y && n >= 1
    ensures x / n <= y / n
  {
    assert (y / n + 1) * n == (y / n) * n + n;
    if x / n > y / n {
      MulMono(y / n + 1, x / n, n);
      assert false;
    }
  }

  lemma DivExact(q: nat, n: nat)
    requires n >= 1
    ensures q * n / n == q
  {
    var d := q * n / n;
    assert (d + 1) * n == d * n + n;
    assert (q + 1) * n == q * n + n;
    if d < q {
      MulMono(d + 1, q, n);
      assert false;
    }
    if d > q {
      MulMono(q + 1, d, n);
      assert false;
    }
  }

  /**
   * The blocks [BlockStart(j), BlockStart(j + 1)) for j < n start at row 0,
   * end at row dim, and each starts where the one before ends, so every
   * row lies in exactly one block.
   */
  lemma Partition(dim: nat, n: nat, r: nat) returns (j: nat)
    requires n >= 1 && r < dim
    ensures BlockStart(0, dim, n) == 0 && BlockStart(n, dim, n) == dim
    ensures forall k :: 0 <= k < n ==> BlockStart(k, dim, n) <= BlockStart(k + 1, dim, n)
    ensures j < n && BlockStart(j, dim, n) <= r < BlockStart(j + 1, dim, n)
    ensures forall k :: 0 <= k < n && BlockStart(k, dim, n) <= r < BlockStart(k + 1, dim, n) ==> k == j
  {
    DivExact(0, n);
    DivExact(dim, n);
    assert n * dim == dim * n;
    forall k | 0 <= k < n
      ensures BlockStart(k, dim, n) <= BlockStart(k + 1, dim, n)
    {
      StartsRise(dim, n, k, k + 1);
    }
    j := FindBlock(dim, n, r, 0);
    forall k | 0 <= k < n && BlockStart(k, dim, n) <= r < BlockStart(k + 1, dim, n)
      ensures k == j
    {
      if k < j {
        StartsRise(dim, n, k + 1, j);
      } else if j < k {
        StartsRise(dim, n, j + 1, k);
      }
    }
  }

  lemma StartsRise(dim: nat, n: nat, k: nat, l: nat)
    requires n >= 1 && k <= l
    ensures BlockStart(k, dim, n) <= BlockStart(l, dim, n)
  {
    MulMono(k, l, dim);
    DivMono(k * dim, l * dim, n);
  }

  lemma {:induction false} FindBlock(dim: nat, n: nat, r: nat, i: nat) returns (j: nat)
    requires n >= 1 && r < dim && i < n && BlockStart(i, dim, n) <= r
    ensures i <= j < n && BlockStart(j, dim, n) <= r < BlockStart(j + 1, dim, n)
    decreases n - i
  {
    DivExact(dim, n);
    assert n * dim == dim * n;
    if r < BlockStart(i + 1, dim, n) {
      j := i;
    } else {
      j := FindBlock(dim, n, r, i + 1);
    }
  }

  // ---------------------------------------------------------------- main

  /**
   * One case of main's loop with n processes: C is reset to 0, the n
   * blocks are multiplied, and the checksum of C is taken. Whatever n is,
   * C ends up as the full product.
   */
  method RunCase(a: array<nat>, c: array<nat>, dim: nat, n: nat) returns (checksum: nat)
    requires a != c && a.Length == dim * dim && c.Length == dim * dim && n >= 1
    modifies c
    ensures c[..] == Product(a[..], dim)
    ensures checksum == Total(Product(a[..], dim)) % Word
  {
    ResetC(c);
    ghost var P := Product(a[..], dim);
    DivExact(0, n);
    for j := 0 to n
      invariant BlockStart(j, dim, n) <= dim
      invariant forall p :: 0 <= p < c.Length ==> c[p] == if p < BlockStart(j, dim, n) * dim then P[p] else 0
    {
      var startRow := j * dim / n;
      var endRow := (j + 1) * dim / n;
      Bounds(dim, n, j);
      MultiplyBlock(a, c, dim, startRow, endRow);
    }
    DivExact(dim, n);
    assert n * dim == dim * n;
    assert c[..] == P;
    checksum := Checksum(c, dim);
  }

  /** The reset before each case: every cell of C becomes 0. */
  method ResetC(c: array<nat>)
    modifies c
    ensures forall p :: 0 <= p < c.Length ==> c[p] == 0
  {
    for j := 0 to c.Length
      invariant forall p :: 0 <= p < j ==> c[p] == 0
    {
      c[j] := 0;
    }
  }

  /** Block j of n lies inside the matrix and its rows follow those of block j - 1. */
  lemma Bounds(dim: nat, n: nat, j: nat)
    requires n >= 1 && j < n
    ensures BlockStart(j, dim, n) <= BlockStart(j + 1, dim, n) <= dim
    ensures BlockStart(j, dim, n) * dim <= BlockStart(j + 1, dim, n) * dim
  {
    StartsRise(dim, n, j, j + 1);
    StartsRise(dim, n, j + 1, n);
    DivExact(dim, n);
    assert n * dim == dim * n;
    MulMono(BlockStart(j, dim, n), BlockStart(j + 1, dim, n), dim);
  }

  /**
   * main after reading dim: A is initialised, then the product is taken
   * with 1 to 16 processes and each case's checksum is reported. Every
   * reported checksum is that of A * A.
   */
  method AllCases(dim: nat) returns (checksums: seq<nat>)
    requires DimOk(dim)
    ensures |checksums| == Cases
    ensures forall k :: 0 <= k < Cases ==> checksums[k] == Total(Product(Initial(dim), dim)) % Word
  {
    var a := new nat[dim * dim];
    IniMatrices(a, dim);
    var c := new nat[dim * dim];
    checksums := [];
    for i := 1 to Cases + 1
      invariant a[..] == Initial(dim)
      invariant |checksums| == i - 1
      invariant forall k :: 0 <= k < i - 1 ==> checksums[k] == Total(Product(Initial(dim), dim)) % Word
    {
      var checksum := RunCase(a, c, dim, i);
      checksums := checksums + [checksum];
    }
  }
}
