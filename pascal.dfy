/** Pascal's triangle (src/main.py). */
module Pascal {

  import opened Wrappers

  /** The binomial coefficient "n choose k", by Pascal's rule. */
  function Binomial(n: nat, k: nat): nat
    decreases n
  {
    if k == 0 || k == n then 1
    else if k > n then 0
    else Binomial(n - 1, k - 1) + Binomial(n - 1, k)
  }

  function Fact(n: nat): nat
    ensures Fact(n) >= 1
  {
    if n == 0 then 1 else n * Fact(n - 1)
  }

  /** Row `r` of the triangle: `r + 1` entries, entry `c` being "r choose c". */
  predicate IsPascalRow(row: seq<Option<int>>, r: nat) {
    |row| == r + 1 && forall c :: 0 <= c <= r ==> row[c] == Some(Binomial(r, c))
  }

  /** `generate_pascals_triangle(n)`: the first `n` rows (none when `n` is
      not positive); every row is filled in place, starting as `None`s, its
      two ends set to 1 and each inner entry summed from the row above. */
  method GeneratePascalsTriangle(n: int) returns (triangle: seq<seq<Option<int>>>)
    ensures |triangle| == if n < 0 then 0 else n
    ensures forall r :: 0 <= r < |triangle| ==> IsPascalRow(triangle[r], r)
  {
    triangle := [];
    var i := 0;
    while i < n
      invariant 0 <= i <= (if n < 0 then 0 else n)
      invariant |triangle| == i
      invariant forall r :: 0 <= r < i ==> IsPascalRow(triangle[r], r)
    {
      var row := new Option<int>[i + 1](_ => None);
      row[0] := Some(1);
      row[i] := Some(1);
      var j := 1;
      while j < i
        invariant 1 <= j <= i + 1 && (i >= 1 ==> j <= i)
        invariant row[0] == Some(1) && row[i] == Some(1)
        invariant forall c :: 1 <= c < j ==> row[c] == Some(Binomial(i, c))
      {
        assert IsPascalRow(triangle[i - 1], i - 1);
        row[j] := Some(triangle[i - 1][j - 1].value + triangle[i - 1][j].value);
        j := j + 1;
      }
      triangle := triangle + [row[..]];
      i := i + 1;
    }
  }

  /** Every row reads the same from both ends. */
  lemma {:induction false} BinomialSymmetric(n: nat, k: nat)
    requires k <= n
    ensures Binomial(n, k) == Binomial(n, n - k)
    decreases n
  {
    if 0 < k < n {
      BinomialSymmetric(n - 1, k - 1);
      BinomialSymmetric(n - 1, k);
      assert n - 1 - (k - 1) == n - k;
      assert Binomial(n, n - k) == Binomial(n - 1, n - k - 1) + Binomial(n - 1, n - k);
    }
  }

  /** Pascal's rule computes the factorial formula n! / (k! (n - k)!). */
  lemma {:induction false} BinomialFactorial(n: nat, k: nat)
    requires k <= n
    ensures Binomial(n, k) * Fact(k) * Fact(n - k) == Fact(n)
    decreases n
  {
    if k == 0 || k == n {
    } else {
      BinomialFactorial(n - 1, k - 1);
      BinomialFactorial(n - 1, k);
      var a, b := Binomial(n - 1, k - 1), Binomial(n - 1, k);
      var f, fk, fk1, fnk, fnk1 := Fact(n - 1), Fact(k), Fact(k - 1), Fact(n - k), Fact(n - 1 - k);
      assert a * fk1 * fnk == f;
      assert b * fk * fnk1 == f;
      assert fk == k * fk1;
      assert fnk == (n - k) * fnk1;
      assert Fact(n) == n * f;
      ProductSplit(a, b, k, n - k, fk1, fnk1, f);
    }
  }

  /** The arithmetic step of `BinomialFactorial`. */
  lemma ProductSplit(a: int, b: int, k: int, m: int, x: int, y: int, f: int)
    requires a * x * (m * y) == f && b * (k * x) * y == f
    ensures (a + b) * (k * x) * (m * y) == (k + m) * f
  {
    calc {
      (a + b) * (k * x) * (m * y);
      a * (k * x) * (m * y) + b * (k * x) * (m * y);
      k * (a * x * (m * y)) + m * (b * (k * x) * y);
      k * f + m * f;
    }
  }

  /** Each inner entry of a row is the sum of the two entries above it. */
  lemma TriangleInterior(triangle: seq<seq<Option<int>>>, i: nat, j: nat)
    requires forall r :: 0 <= r < |triangle| ==> IsPascalRow(triangle[r], r)
    requires 0 < j < i < |triangle|
    ensures |triangle[i]| == i + 1 && |triangle[i - 1]| == i
    ensures triangle[i][j].Some? && triangle[i - 1][j - 1].Some? && triangle[i - 1][j].Some?
    ensures triangle[i][j].value == triangle[i - 1][j - 1].value + triangle[i - 1][j].value
  {
    assert IsPascalRow(triangle[i], i) && IsPascalRow(triangle[i - 1], i - 1);
  }

  /** Every row is symmetric and bounded by its ends. */
  lemma TriangleRowSymmetric(triangle: seq<seq<Option<int>>>, r: nat, c: nat)
    requires r < |triangle| && IsPascalRow(triangle[r], r) && c <= r
    ensures triangle[r][c] == triangle[r][r - c]
    ensures triangle[r][0] == Some(1) && triangle[r][r] == Some(1)
  {
    BinomialSymmetric(r, c);
  }
}
