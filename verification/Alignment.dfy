/** Powers of two and rounding up to them, as both the frame layout and the native bridge need. */
module Alignment {
  import opened Base

  predicate IsPowerOfTwo(n: nat) {
    n == 1 || (n > 0 && n % 2 == 0 && IsPowerOfTwo(n / 2))
  }

  predicate IsMultiple(n: nat, of: nat)
    requires of > 0
  {
    n % of == 0
  }

  function Pow2(k: nat): nat {
    if k == 0 then 1 else 2 * Pow2(k - 1)
  }

  /** The powers of two are the values 2^k. */
  lemma {:induction false} PowersAreExponents(n: nat)
    ensures IsPowerOfTwo(n) <==> exists k: nat :: Pow2(k) == n
  {
    if IsPowerOfTwo(n) {
      if n == 1 {
        assert Pow2(0) == n;
      } else {
        PowersAreExponents(n / 2);
        var k: nat :| Pow2(k) == n / 2;
        assert Pow2(k + 1) == n;
      }
    }
    forall k: nat | Pow2(k) == n ensures IsPowerOfTwo(n) {
      ExponentIsPower(k);
    }
  }

  lemma {:induction false} ExponentIsPower(k: nat)
    ensures IsPowerOfTwo(Pow2(k))
  {
    if k > 0 {
      ExponentIsPower(k - 1);
    }
  }

  lemma ScaledMultiple(q: int, n: nat)
    requires n > 0
    ensures (q * n) % n == 0
  {
    assert q * n == n * q + 0;
    ModUnique(q * n, n, q, 0);
  }

  lemma ModUnique(v: int, n: nat, q: int, r: int)
    requires n > 0 && v == n * q + r && 0 <= r < n
    ensures v % n == r && v / n == q
  {
    var d := v / n;
    assert v == n * d + v % n;
    MulGap(n, d, q);
    MulGap(n, q, d);
  }

  /** Different multiples of `n` are at least `n` apart. */
  lemma {:induction false} MulGap(n: nat, x: int, y: int)
    ensures x < y ==> n * x + n <= n * y
  {
    if n > 0 {
      MulGap(n - 1, x, y);
      assert n * x == (n - 1) * x + x && n * y == (n - 1) * y + y;
    }
  }

  /** A power of two divides every larger one. */
  lemma {:induction false} SmallerPowerDivides(a: nat, b: nat)
    requires IsPowerOfTwo(a) && IsPowerOfTwo(b) && a <= b
    ensures IsMultiple(b, a)
  {
    if a > 1 {
      SmallerPowerDivides(a / 2, b / 2);
      var q := (b / 2) / (a / 2);
      assert b / 2 == q * (a / 2);
      assert b == q * a by {
        assert 2 * (q * (a / 2)) == q * (2 * (a / 2));
      }
      ScaledMultiple(q, a);
    }
  }

  /** Divisibility is transitive. */
  lemma MultipleOfMultiple(n: nat, b: nat, a: nat)
    requires a > 0 && b > 0 && IsMultiple(n, b) && IsMultiple(b, a)
    ensures IsMultiple(n, a)
  {
    var q, p := n / b, b / a;
    assert n == q * b && b == p * a;
    assert n == (q * p) * a;
    ScaledMultiple(q * p, a);
  }

  lemma SumOfMultiples(m: nat, n: nat, a: nat)
    requires a > 0 && IsMultiple(m, a)
    ensures IsMultiple(m + n, a) <==> IsMultiple(n, a)
  {
    var q := m / a;
    assert m == a * q;
    assert m + n == a * (q + n / a) + n % a;
    ModUnique(m + n, a, q + n / a, n % a);
  }

  /** Rounding up to an alignment; fails on a bad alignment and when the result does not fit a word. */
  function AlignUp(value: usize, alignment: usize): Result<usize> {
    if alignment == 0 || !IsPowerOfTwo(alignment) then Err(InvalidArgument)
    else
      var remainder := value % alignment;
      if remainder == 0 then Ok(value) else CheckedAdd(value, alignment - remainder)
  }

  /** The next multiple of `a` at or above `v`: no smaller multiple is at or above `v`. */
  lemma NextMultiple(v: nat, a: nat, up: nat)
    requires a > 0
    requires up == if v % a == 0 then v else v + (a - v % a)
    ensures v <= up < v + a && IsMultiple(up, a)
    ensures forall m: nat :: v <= m && IsMultiple(m, a) ==> up <= m
  {
    var q := v / a;
    assert v == a * q + v % a;
    var u := if v % a == 0 then q else q + 1;
    assert up == a * u;
    ScaledMultiple(u, a);
    forall m: nat | v <= m && IsMultiple(m, a) ensures up <= m {
      assert m == a * (m / a);
      MulGap(a, m / a, u);
      MulGap(a, q, m / a);
    }
  }

  /** Rounding up gives the least multiple that is not below the value; it fails exactly when the
      alignment is no power of two or no word is such a multiple. */
  lemma AlignUpIsLeastMultiple(value: usize, alignment: usize)
    ensures var r := AlignUp(value, alignment);
            && (r.Ok? ==> IsPowerOfTwo(alignment) && value <= r.value < value + alignment
                          && IsMultiple(r.value, alignment)
                          && forall m: nat :: value <= m && IsMultiple(m, alignment) ==> r.value <= m)
            && (r.Err? ==> r.code == InvalidArgument
                           && (IsPowerOfTwo(alignment) ==>
                                 forall m: usize :: value <= m ==> !IsMultiple(m, alignment)))
  {
    if alignment != 0 && IsPowerOfTwo(alignment) {
      var remainder := value % alignment;
      NextMultiple(value, alignment, if remainder == 0 then value else value + (alignment - remainder));
    }
  }
}
