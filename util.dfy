// Offset alignment shared by the reader and the writer (util.hpp).

module Util {

  /** The three `std::ios::seekdir` values both cursors take. */
  datatype SeekDir = Beg | Cur | End

  /** Rounds `value` up to the next multiple of `byteAlignment`, computed
      the way the source does it: divide the biased value and multiply back.
      A zero alignment divides by zero in the source, hence the precondition.
      Offsets are unbounded here: the 64-bit overflow of `value +
      (byteAlignment - 1)` near the top of the range is not modelled. */
  function Align(value: nat, byteAlignment: nat): (r: nat)
    requires byteAlignment > 0
    ensures r % byteAlignment == 0
    ensures value <= r < value + byteAlignment
  {
    var q := (value + (byteAlignment - 1)) / byteAlignment;
    MultipleOfFactor(q, byteAlignment);
    byteAlignment * q
  }

  lemma MultipleOfFactor(q: nat, n: nat)
    requires n > 0
    ensures (n * q) % n == 0
    ensures (n * ((q * n + n - 1) / n)) == n * q
  {
    var m := q * n + n - 1;
    assert m == q * n + (n - 1) && 0 <= n - 1 < n;
    DivMulUnique(m, n, q, n - 1);
    DivMulUnique(n * q, n, q, 0);
  }

  /** Division is determined by any quotient/remainder pair. */
  lemma DivMulUnique(m: nat, n: nat, q: nat, r: nat)
    requires n > 0 && r < n && m == q * n + r
    ensures m / n == q && m % n == r
  {
    var q', r' := m / n, m % n;
    assert m == q' * n + r';
    if q' < q {
      MulGap(q, q', n);
    } else if q' > q {
      MulGap(q', q, n);
    }
  }

  /** Two multiples of `n` with different factors lie at least `n` apart. */
  lemma {:induction false} MulGap(a: nat, b: nat, n: nat)
    requires b < a
    ensures a * n >= b * n + n
    decreases a - b
  {
    assert a * n == (a - 1) * n + n;
    if a - 1 > b {
      MulGap(a - 1, b, n);
    }
  }

  /** Align returns the least multiple of the alignment that is not below
      `value`: any other multiple at or above `value` is at or above it. */
  lemma AlignIsLeast(value: nat, n: nat, m: nat)
    requires n > 0 && m % n == 0 && value <= m
    ensures Align(value, n) <= m
  {
    var r := Align(value, n);
    if r > m {
      var k, j := r / n, m / n;
      assert r == k * n && m == j * n;
      if k < j {
        MulGap(j, k, n);
      } else if k > j {
        MulGap(k, j, n);
      }
    }
  }

  /** Aligning an aligned offset changes nothing. */
  lemma AlignIdempotent(value: nat, n: nat)
    requires n > 0
    ensures Align(Align(value, n), n) == Align(value, n)
  {
    var a := Align(value, n);
    AlignIsLeast(a, n, a);
  }

  /** An offset is a fixed point of Align exactly when it is already a
      multiple of the alignment. */
  lemma AlignFixedIff(value: nat, n: nat)
    requires n > 0
    ensures Align(value, n) == value <==> value % n == 0
  {
    if value % n == 0 {
      AlignIsLeast(value, n, value);
    }
  }

  /** The two corner cases used throughout: offset 0 stays 0, and
      alignment 1 is the identity. */
  lemma AlignZeroAndOne(value: nat, n: nat)
    requires n > 0
    ensures Align(0, n) == 0
    ensures Align(value, 1) == value
  {
    AlignFixedIff(0, n);
    AlignFixedIff(value, 1);
  }

  /** Align is monotone in the offset. */
  lemma AlignMonotone(x: nat, y: nat, n: nat)
    requires n > 0 && x <= y
    ensures Align(x, n) <= Align(y, n)
  {
    AlignIsLeast(x, n, Align(y, n));
  }
}
