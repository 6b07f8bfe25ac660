/** Shared vocabulary of the model: optional values, results with an
    error, and the integer ranges Python uses for bytes and bits. */
module Common {

  datatype Option<+T> = None | Some(value: T)

  datatype Result<+T, +E> = Ok(value: T) | Err(error: E)
  {
    predicate IsFailure()
    {
      Err?
    }

    function PropagateFailure<U>(): Result<U, E>
      requires Err?
    {
      Err(error)
    }

    function Extract(): T
      requires Ok?
    {
      value
    }
  }

  /** The outcome of an operation that returns nothing but may raise. */
  datatype Outcome<+E> = Pass | Fail(error: E)

  /** A Python `int` taken from a `bytes` object. */
  type byte = x: int | 0 <= x < 256

  /** A single bit, as produced by `& 1`. */
  type bit = x: int | 0 <= x < 2

  /** 2 to the power n; `x >> n` on a non-negative int is `x / Pow2(n)`. */
  function Pow2(n: nat): (r: nat)
    ensures r >= 1
  {
    if n == 0 then 1 else 2 * Pow2(n - 1)
  }

  lemma ConcatAssoc<T>(a: seq<T>, b: seq<T>, c: seq<T>)
    ensures (a + b) + c == a + (b + c)
  {
  }

  /** A prefix stays a prefix when more is appended. */
  lemma PrefixExtend<T>(a: seq<T>, b: seq<T>, c: seq<T>)
    requires a <= b
    ensures a <= b + c
  {
    assert forall k :: 0 <= k < |a| ==> (b + c)[k] == b[k];
  }

  /** Whatever the second part of a prefix holds, the whole sequence holds. */
  lemma PrefixHas<T>(a: seq<T>, b: seq<T>, c: seq<T>)
    requires a + b <= c
    ensures forall x :: x in b ==> x in c
  {
    forall x | x in b
      ensures x in c
    {
      var k :| 0 <= k < |b| && b[k] == x;
      assert c[|a| + k] == (a + b)[|a| + k];
    }
  }

  // Integer division facts used by the bit and frame codecs

  lemma MulAtLeast(d: int, e: int)
    requires d > 0 && e >= 1
    ensures d * e >= d
  {
  }

  /** Quotient and remainder are determined by x == d*q + r with 0 <= r < d. */
  lemma DivUnique(x: nat, d: nat, q: nat, r: nat)
    requires d > 0 && r < d && x == d * q + r
    ensures x / d == q && x % d == r
  {
    var q', r' := x / d, x % d;
    var e := q - q';
    assert d * e == r' - r;
    if e >= 1 {
      MulAtLeast(d, e);
    } else if e <= -1 {
      MulAtLeast(d, -e);
    }
  }

  lemma MulSplit(p: nat, q: nat, b: nat)
    ensures p * (2 * q + b) == (2 * p) * q + p * b
  {
  }

  /** Shifting right by one more position halves the shifted value. */
  lemma DivHalf(x: nat, p: nat)
    requires p > 0
    ensures x / (2 * p) == (x / p) / 2
  {
    var q, r := x / p, x % p;
    var q2, b := q / 2, q % 2;
    MulSplit(p, q2, b);
    assert p * b + r < 2 * p by {
      if b == 1 { assert p * b == p; } else { assert p * b == 0; }
    }
    DivUnique(x, 2 * p, q2, p * b + r);
  }
}
