/** Small failure-carrying datatypes shared by every solver model. */
module Common {

  /** The conventional optional value: `None` stands for a missing result
      (a `null`, a Python `None`, an exhausted search). */
  datatype Option<+T> = None | Some(value: T)

  /** A value or the reason the original program aborts (an assertion, an
      exception, an `exit(EXIT_FAILURE)` or a read past the end of a buffer). */
  datatype Result<+T> = Ok(value: T) | Err(reason: string)

  /** Sum of a sequence of naturals. */
  function SumNat(s: seq<nat>): nat
  {
    if |s| == 0 then 0 else SumNat(s[..|s| - 1]) + s[|s| - 1]
  }

  /** Sum of a sequence of integers. */
  function SumInt(s: seq<int>): int
  {
    if |s| == 0 then 0 else SumInt(s[..|s| - 1]) + s[|s| - 1]
  }

  function Max(a: int, b: int): int
  {
    if a > b then a else b
  }

  function Min(a: int, b: int): int
  {
    if a < b then a else b
  }

  /** A subset is no larger than its superset. */
  lemma SubsetCard<T>(a: set<T>, b: set<T>)
    requires a <= b
    ensures |a| <= |b|
  {
    if a != {} {
      var x :| x in a;
      SubsetCard(a - {x}, b - {x});
    }
  }

  /** Growing `a` into a strictly larger `b` inside `w` shrinks what is left of `w`. */
  lemma ShrinkingRemainder<T>(w: set<T>, a: set<T>, b: set<T>)
    requires a < b <= w
    ensures |w - b| < |w - a|
  {
    var x :| x in b && x !in a;
    SubsetCard(w - b, (w - a) - {x});
  }

  /** The naturals below `n`. */
  function Range(n: nat): (r: set<nat>)
    ensures forall k: nat :: k in r <==> k < n
    ensures |r| == n
  {
    if n == 0 then {} else Range(n - 1) + {n - 1}
  }

  function Abs(a: int): nat
  {
    if a < 0 then -a else a
  }

  /** The remainder of C's, Java's and JavaScript's `%`, which truncates
      toward zero: it takes the sign of the dividend and is smaller than the
      divisor in magnitude. */
  function TruncRem(a: int, b: int): (r: int)
    requires b != 0
    ensures Abs(r) < Abs(b)
    ensures a >= 0 ==> 0 <= r
    ensures a < 0 ==> r <= 0
  {
    if a >= 0 then a % Abs(b) else -((-a) % Abs(b))
  }

  /** A remainder below the divisor is its own remainder. */
  lemma ModSmall(y: int, m: int)
    requires 0 <= y < m
    ensures y % m == y
  {
  }

  lemma MulAtLeast(d: int, m: nat)
    requires d >= 1
    ensures d * m >= m
  {
  }

  /** Quotient and remainder are the only pair that rebuilds the dividend
      with a remainder below the divisor. */
  lemma DivUnique(n: nat, m: nat, q: nat, r: nat)
    requires m > 0 && r < m && n == q * m + r
    ensures n % m == r && n / m == q
  {
    var q', r' := n / m, n % m;
    assert n == q' * m + r';
    assert (q - q') * m == r' - r by {
      assert q * m - q' * m == (q - q') * m;
    }
    if q > q' {
      MulAtLeast(q - q', m);
    } else if q' > q {
      MulAtLeast(q' - q, m);
    }
  }

  /** Adding whole multiples of the divisor leaves the remainder alone. */
  lemma ModAddMultiple(x: nat, m: nat, d: nat)
    requires d > 0
    ensures (x + m * d) % d == x % d
  {
    assert x + m * d == (x / d + m) * d + x % d;
    DivUnique(x + m * d, d, x / d + m, x % d);
  }

  /** The product of two naturals, as a natural. */
  function Times(a: nat, b: nat): nat
  {
    a * b
  }
}
