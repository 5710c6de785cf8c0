/**
 * Python and numpy semantics the sweep engine relies on: the error outcomes of
 * its arithmetic, `round` (half to even), `int()` on a float (truncation),
 * negative indices and slices, and half-open `slice` objects.
 */
module PyCore {

  /** The exceptions the modelled code can raise. */
  datatype Error =
    | ZeroDivisionError
    | IndexError
    | ValueError
    | AssertionError(reason: string)

  datatype Result<T> = Ok(value: T) | Err(error: Error)

  datatype Option<T> = None | Some(value: T)

  /** Python's `round(r)`: the nearest integer, ties going to the even one. */
  function RoundHalfEven(r: real): (n: int)
    ensures -0.5 <= r - n as real <= 0.5
    ensures (r - n as real == 0.5 || r - n as real == -0.5) ==> n % 2 == 0
  {
    var f := r.Floor;
    var d := r - f as real;
    if d < 0.5 then f
    else if d > 0.5 then f + 1
    else if f % 2 == 0 then f
    else f + 1
  }

  /** Rounding an integral value gives it back. */
  lemma RoundOfIntegral(n: int)
    ensures RoundHalfEven(n as real) == n
  {
  }

  /** Python's `int(r)` on a float: truncation toward zero. */
  function Trunc(r: real): (n: int)
    ensures r >= 0.0 ==> n >= 0 && n as real <= r < n as real + 1.0
    ensures r < 0.0 ==> n <= 0 && n as real - 1.0 < r <= n as real
  {
    if r >= 0.0 then r.Floor else -((-r).Floor)
  }

  /** Python's `math.ceil` on a real. */
  function Ceil(r: real): (n: int)
    ensures n as real - 1.0 < r <= n as real
  {
    if r == r.Floor as real then r.Floor else r.Floor + 1
  }

  /** Where a Python slice bound `i` lands in a sequence of length `len`. */
  function SliceBound(i: int, len: nat): (k: nat)
    ensures k <= len
    ensures 0 <= i <= len ==> k == i
  {
    if i < 0 then (if i + len < 0 then 0 else i + len)
    else if i > len then len
    else i
  }

  /** Python's `s[lo:hi]` (step 1): negative bounds count from the end, bounds are clamped. */
  function PySlice<T>(s: seq<T>, lo: int, hi: int): (r: seq<T>)
    ensures 0 <= lo <= hi <= |s| ==> r == s[lo..hi]
    ensures |r| <= |s|
  {
    var a := SliceBound(lo, |s|);
    var b := SliceBound(hi, |s|);
    if a < b then s[a..b] else []
  }

  /** Python's `s[i]` for `-|s| <= i < |s|`. */
  function PyIndex(i: int, len: nat): (k: nat)
    requires -(len as int) <= i < len
    ensures k < len
    ensures i >= 0 ==> k == i
    ensures i < 0 ==> k == len + i
  {
    if i < 0 then len + i else i
  }

  /** A `slice(start, stop, 1)`: the half-open range [start, stop). */
  datatype Slice = Slice(start: int, stop: int) {
    function Width(): int { stop - start }
    predicate Contains(i: int) { start <= i < stop }
    /** The slice moved by `d`. */
    function Shift(d: int): (r: Slice)
      ensures r.Width() == Width()
      ensures forall i :: r.Contains(i + d) <==> Contains(i)
    {
      Slice(start + d, stop + d)
    }
  }

  /** `blocks` lie end to end from `lo` to `hi`. */
  predicate Tiles(blocks: seq<Slice>, lo: int, hi: int)
  {
    && |blocks| > 0
    && blocks[0].start == lo
    && blocks[|blocks| - 1].stop == hi
    && (forall i :: 0 <= i < |blocks| - 1 ==> blocks[i].stop == blocks[i + 1].start)
  }

  /** A region of the shared array: slices on the time, variable, x and y axes. */
  datatype Region = Region(t: Slice, v: Slice, x: Slice, y: Slice)

  /** If `q*m + r == q'*m + r'` with both remainders in [0, m), the quotients agree. */
  lemma MulBound(d: int, m: int)
    requires m > 0 && -m < d * m < m
    ensures d == 0
  {
  }

  lemma DivModUnique(q: int, r: int, m: int)
    requires 0 <= r < m
    ensures (q * m + r) / m == q && (q * m + r) % m == r
  {
    var n := q * m + r;
    var d := n / m - q;
    assert d * m == r - n % m;
    MulBound(d, m);
  }

  /** Multiplying by a positive real keeps the sign. */
  lemma RealMulSign(x: real, y: real)
    requires y > 0.0
    ensures x > 0.0 ==> x * y > 0.0
    ensures x <= 0.0 ==> x * y <= 0.0
    ensures x < 0.0 ==> x * y < 0.0
  {
  }

  /** `k` is the floor quotient of `n` by `m` when `k*m <= n < (k+1)*m`. */
  lemma FloorDivUnique(k: int, n: int, m: int)
    requires m > 0 && k * m <= n < (k + 1) * m
    ensures n / m == k && n % m == n - k * m
  {
    DivModUnique(k, n - k * m, m);
  }

  /** `a*m < b*m` with `m > 0` gives `a < b`. */
  lemma MulLessCancel(a: int, b: int, m: int)
    requires m > 0 && a * m < b * m
    ensures a < b
  {
  }

  /** `int(a / b)` for naturals is the floor quotient. */
  lemma TruncOfQuotient(a: nat, b: nat)
    requires b > 0
    ensures Trunc(a as real / b as real) == a / b
  {
    QuotientBracket(a, b);
    TruncUnique(a as real / b as real, a / b);
  }

  /** A non-negative real truncates to the one integer `k` with `k <= r < k + 1`. */
  lemma TruncUnique(r: real, k: int)
    requires 0.0 <= r && k as real <= r < k as real + 1.0
    ensures Trunc(r) == k
  {
  }

  /** The real quotient `a / b` lies in `[a // b, a // b + 1)`. */
  lemma QuotientBracket(a: nat, b: nat)
    requires b > 0
    ensures (a / b) as real <= a as real / b as real < (a / b) as real + 1.0
  {
    var q := a as real / b as real;
    var br := b as real;
    assert q * br == a as real;
    var k := a / b;
    var m := a % b;
    assert k * b + m == a && 0 <= m < b;
    RealMulSign(q, br);
    var d0 := q - k as real;
    RealMulSign(d0, br);
    assert d0 * br == m as real;
    var d1 := q - k as real - 1.0;
    RealMulSign(d1, br);
    assert d1 * br == m as real - br;
  }

  /** `ceil(a / b)` for naturals: zero exactly when `a` is. */
  lemma CeilOfQuotient(a: nat, b: nat)
    requires b > 0
    ensures Ceil(a as real / b as real) >= 0
    ensures Ceil(a as real / b as real) == 0 <==> a == 0
  {
    var q := a as real / b as real;
    assert q * b as real == a as real;
    RealMulSign(q, b as real);
  }

  lemma MixedRadixInjective(a: int, b: int, c: int, d: int, m: int)
    requires 0 <= b < m && 0 <= d < m
    requires a * m + b == c * m + d
    ensures a == c && b == d
  {
    DivModUnique(a, b, m);
    DivModUnique(c, d, m);
  }
}
