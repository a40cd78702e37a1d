/** Rust machine-integer semantics used by the colormap code: the panics a
    call can end in, the Result that carries them, the integer widths, and
    the rule for storing an exact arithmetic result into a fixed-width
    unsigned integer (a debug build panics on overflow, a release build
    wraps around). */
module Machine {

  /** The ways a call can abort, one per check in the source. */
  datatype Panic =
    | LengthMismatch          // assert_eq! of w*h against data.len()
    | EmptyReduction          // unwrap() of min()/max() over an empty slice
    | RangeInverted           // assert!(min <= max)
    | ArithmeticOverflow      // overflow of unsigned arithmetic in a debug build
    | SampleBelowMin          // debug_assert!(v >= min)
    | SampleAboveMax          // debug_assert!(v <= max)
    | DataIndexOutOfBounds    // bounds check of data[...]
    | ColorIndexOutOfBounds   // assert!(i < color_map.len())

  /** A value, or the panic that ended the computation. */
  datatype Result<+T> = Ok(value: T) | Err(error: Panic) {
    predicate IsFailure() { Err? }

    function PropagateFailure<U>(): Result<U>
      requires Err?
    {
      Err(error)
    }

    function Extract(): T
      requires Ok?
    {
      value
    }
  }

  /** The compilation profile: it decides whether overflow panics and
      whether debug_assert! is checked. */
  datatype Build = Debug | Release

  const U32_LIMIT: nat := 0x1_0000_0000
  /** usize is taken to be 64 bits wide. */
  const USIZE_LIMIT: nat := 0x1_0000_0000_0000_0000

  type U32 = x: nat | x < U32_LIMIT

  /** Stores the exact result of an operation on unsigned integers of
      `limit` values: unchanged when it fits, a panic in a debug build and
      the value modulo `limit` in a release build otherwise. */
  function FitTo(build: Build, limit: nat, exact: int): (r: Result<nat>)
    requires limit > 0
    ensures r.Err? <==> build == Debug && !(0 <= exact < limit)
    ensures r.Err? ==> r.error == ArithmeticOverflow
    ensures r.Ok? ==> r.value < limit && r.value == exact % limit
    ensures 0 <= exact < limit ==> r == Ok(exact)
  {
    if 0 <= exact < limit then Ok(exact)
    else if build == Debug then Err(ArithmeticOverflow)
    else Ok(exact % limit)
  }

  function Add(build: Build, limit: nat, x: nat, y: nat): Result<nat>
    requires limit > 0
  {
    FitTo(build, limit, x + y)
  }

  function Sub(build: Build, limit: nat, x: nat, y: nat): Result<nat>
    requires limit > 0
  {
    FitTo(build, limit, x - y)
  }

  function Mul(build: Build, limit: nat, x: nat, y: nat): Result<nat>
    requires limit > 0
  {
    FitTo(build, limit, x * y)
  }

  /** Wrap-around subtraction of two wrapped values is the wrapped
      difference: `(a % m - c % m) % m == (a - c) % m`. */
  lemma WrappedDifference(m: nat, a: int, c: int)
    requires m > 0
    ensures (a % m - c % m) % m == (a - c) % m
  {
    var qa, qc := a / m, c / m;
    var d := a % m - c % m;
    assert a - c == (qa - qc) * m + d;
    var k, r := d / m, d % m;
    assert a - c == (qa - qc + k) * m + r;
    DivModUnique(m, d, k, r);
    DivModUnique(m, a - c, qa - qc + k, r);
  }

  /** Euclidean division has one quotient and one remainder. */
  lemma DivModUnique(m: nat, x: int, n: int, r: int)
    requires m > 0 && 0 <= r < m && x == n * m + r
    ensures x / m == n && x % m == r
  {
    var q, s := x / m, x % m;
    assert x == q * m + s;
    assert (n - q) * m == n * m - q * m;
    if n > q {
      AtLeastOneMultiple(n - q, m);
    } else if n < q {
      assert (q - n) * m == q * m - n * m;
      AtLeastOneMultiple(q - n, m);
    }
  }

  lemma {:induction false} AtLeastOneMultiple(k: int, m: nat)
    requires k >= 1
    ensures k * m >= m
    decreases k
  {
    if k > 1 {
      AtLeastOneMultiple(k - 1, m);
      assert k * m == (k - 1) * m + m;
    }
  }

  /** Euclidean division by a positive number is monotone. */
  lemma DivMonotone(a: nat, b: nat, d: nat)
    requires d > 0 && a <= b
    ensures a / d <= b / d
  {
    var qa, ra := a / d, a % d;
    var rest: nat := ra + (b - a);
    var k, r := rest / d, rest % d;
    assert b == (qa + k) * d + r by {
      assert b == qa * d + rest && rest == k * d + r;
      assert (qa + k) * d == qa * d + k * d;
    }
    DivModUnique(d, b, qa + k, r);
  }

  /** A number at most `q * d` has quotient at most q. */
  lemma DivBelow(n: nat, d: nat, q: nat)
    requires d > 0 && n <= q * d
    ensures n / d <= q
  {
    DivMonotone(n, q * d, d);
    DivModUnique(d, q * d, q, 0);
  }
}
