/** The assignment generator: `generateCombinations` (main.ts:131-141). Row
    `i` holds the bits of `i`, most significant first, as the evaluator reads
    them, so the rows run through every assignment in ascending binary order,
    from all false to all true. */
module Combinations {

  /** `Math.pow(2, n)`, the number of rows. */
  function Pow2(n: nat): (p: nat)
    ensures p >= 1
  {
    if n == 0 then 1 else 2 * Pow2(n - 1)
  }

  /** Bit `j` of `x`, counted from the least significant. */
  function Bit(x: nat, j: nat): bool
  {
    if j == 0 then x % 2 == 1 else Bit(x / 2, j - 1)
  }

  /** `!!(i & (1 << j))`. JavaScript takes a shift count modulo 32, so
      `1 << j` is bit `j % 32`; for the row numbers of fewer than 33 columns
      this is bit `j` of `i`. */
  function BitTest(i: nat, j: nat): bool
  {
    Bit(i, j % 32)
  }

  /** The array the inner loop builds for row `i`: `j` runs from `n - 1` down
      to 0, so position `k` holds bit `n - 1 - k`. */
  function Row(n: nat, i: nat): (row: seq<bool>)
    ensures |row| == n
  {
    seq(n, k requires 0 <= k < n => BitTest(i, n - 1 - k))
  }

  /** All `Math.pow(2, n)` rows, row `i` at index `i`. */
  function Table(n: nat): (rows: seq<seq<bool>>)
    ensures |rows| == Pow2(n)
    ensures forall i :: 0 <= i < |rows| ==> |rows[i]| == n
  {
    seq(Pow2(n), i requires 0 <= i < Pow2(n) => Row(n, i))
  }

  /** `generateCombinations`: the two nested counting loops, pushing onto
      `combination` and then onto `combinations`. */
  method GenerateCombinations(n: nat) returns (combinations: seq<seq<bool>>)
    ensures combinations == Table(n)
  {
    combinations := [];
    var i := 0;
    while i < Pow2(n)
      invariant 0 <= i <= Pow2(n)
      invariant combinations == Table(n)[..i]
    {
      var combination := [];
      var j := n - 1;
      while j >= 0
        invariant -1 <= j <= n - 1
        invariant combination == Row(n, i)[..n - 1 - j]
      {
        combination := combination + [BitTest(i, j)];
        j := j - 1;
      }
      assert combination == Row(n, i);
      assert Table(n)[..i + 1] == Table(n)[..i] + [Row(n, i)];
      combinations := combinations + [combination];
      i := i + 1;
    }
  }

  /** The number whose binary digits, most significant first, are `v`. */
  function Index(v: seq<bool>): (x: nat)
    ensures x < Pow2(|v|)
  {
    if v == [] then 0 else 2 * Index(v[..|v| - 1]) + (if v[|v| - 1] then 1 else 0)
  }

  /** Dropping the last column of row `i` gives row `i / 2`, and the last
      column is the lowest bit of `i`. */
  lemma RowSnoc(n: nat, i: nat)
    requires 1 <= n <= 32
    ensures Row(n, i) == Row(n - 1, i / 2) + [i % 2 == 1]
  {
    var r, s := Row(n, i), Row(n - 1, i / 2) + [i % 2 == 1];
    forall k | 0 <= k < n ensures r[k] == s[k] {
      if k < n - 1 {
        assert r[k] == Bit(i, n - 1 - k);
        assert s[k] == Bit(i / 2, n - 2 - k);
      }
    }
  }

  /** Row `Index(v)` is `v`: every assignment of up to 32 variables has a row. */
  lemma {:induction false} RowOfIndex(v: seq<bool>)
    requires |v| <= 32
    ensures Row(|v|, Index(v)) == v
  {
    if v != [] {
      var u := v[..|v| - 1];
      var x := Index(v);
      RowOfIndex(u);
      RowSnoc(|v|, x);
      assert x / 2 == Index(u);
      assert v == u + [v[|v| - 1]];
    }
  }

  /** Reading row `i` back as a binary number gives `i`: no two rows are the
      same when there are at most 32 columns. */
  lemma {:induction false} IndexOfRow(n: nat, i: nat)
    requires n <= 32 && i < Pow2(n)
    ensures Index(Row(n, i)) == i
  {
    if n > 0 {
      RowSnoc(n, i);
      var r := Row(n, i);
      assert r[..n - 1] == Row(n - 1, i / 2);
      IndexOfRow(n - 1, i / 2);
    }
  }

  /** The rows are pairwise different, and every assignment of `n` truth
      values is one of them. */
  lemma TableEnumerates(n: nat)
    requires n <= 32
    ensures forall i, j :: 0 <= i < j < Pow2(n) ==> Table(n)[i] != Table(n)[j]
    ensures forall v :: |v| == n ==> v in Table(n)
  {
    forall i, j | 0 <= i < j < Pow2(n) ensures Table(n)[i] != Table(n)[j] {
      IndexOfRow(n, i);
      IndexOfRow(n, j);
    }
    forall v: seq<bool> | |v| == n ensures v in Table(n) {
      RowOfIndex(v);
      assert Table(n)[Index(v)] == v;
    }
  }

  /** The first row is all false and the last row all true. */
  lemma TableEnds(n: nat)
    requires n <= 32
    ensures Table(n)[0] == seq(n, k => false)
    ensures Table(n)[Pow2(n) - 1] == seq(n, k => true)
  {
    var zero, ones := seq(n, k => false), seq(n, k => true);
    AllOnes(ones);
    RowOfIndex(zero);
    RowOfIndex(ones);
    ZeroIndex(zero);
  }

  lemma {:induction false} ZeroIndex(v: seq<bool>)
    requires forall k :: 0 <= k < |v| ==> !v[k]
    ensures Index(v) == 0
  {
    if v != [] {
      ZeroIndex(v[..|v| - 1]);
    }
  }

  lemma {:induction false} AllOnes(v: seq<bool>)
    requires forall k :: 0 <= k < |v| ==> v[k]
    ensures Index(v) == Pow2(|v|) - 1
  {
    if v != [] {
      AllOnes(v[..|v| - 1]);
    }
  }
}
