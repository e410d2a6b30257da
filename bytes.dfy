/** Fixed-width integers and the little-endian and bit-level helpers the codec is built from. */
module Bytes {

  /** Rust's `u8`. */
  newtype u8 = x: int | 0 <= x < 256

  /** Rust's `u16`. */
  newtype u16 = x: int | 0 <= x < 65536

  /** 2 to the power n, the value of `1 << n` when it does not overflow. */
  function Pow2(n: nat): (r: nat)
    ensures r >= 1
  {
    if n == 0 then 1 else 2 * Pow2(n - 1)
  }

  lemma {:induction false} Pow2Add(a: nat, b: nat)
    ensures Pow2(a + b) == Pow2(a) * Pow2(b)
  {
    if a > 0 {
      Pow2Add(a - 1, b);
    }
  }

  lemma {:induction false} Pow2Monotone(a: nat, b: nat)
    requires a <= b
    ensures Pow2(a) <= Pow2(b)
  {
    if a < b {
      Pow2Monotone(a, b - 1);
    }
  }

  lemma {:induction false} MulMonotone(a: nat, b: nat, p: nat)
    requires a <= b
    ensures a * p <= b * p
    decreases b - a
  {
    if a < b {
      MulMonotone(a, b - 1, p);
      MulSucc(b - 1, p);
    }
  }

  lemma MulSucc(a: nat, p: nat)
    ensures (a + 1) * p == a * p + p
  {
  }

  /** Euclidean division by a positive p: the quotient times p plus the remainder. */
  lemma DivModBasics(v: nat, p: nat)
    requires p > 0
    ensures v == (v / p) * p + v % p && 0 <= v % p < p
  {
  }

  /** Euclidean division of a natural number by a positive one is a natural number. */
  lemma DivNatural(v: nat, p: nat)
    requires p > 0
    ensures v / p >= 0
  {
  }

  /** A value q * p + r with r below p has quotient q and remainder r. */
  lemma DivModUnique(v: nat, p: nat, q: nat, r: nat)
    requires p > 0 && r < p && v == q * p + r
    ensures v % p == r && v / p == q
  {
    DivModBasics(v, p);
    var q' := v / p;
    if q' < q {
      MulMonotone(q' + 1, q, p);
      MulSucc(q', p);
      assert false;
    } else if q' > q {
      MulMonotone(q + 1, q', p);
      MulSucc(q, p);
      assert false;
    }
  }

  /** `u16::from_le_bytes([lo, hi])`. */
  function U16FromLe(lo: u8, hi: u8): u16
  {
    (lo as int + 256 * hi as int) as u16
  }

  /** `x.to_le_bytes()` for a `u16`: the low byte first. */
  function U16ToLe(x: u16): (r: seq<u8>)
    ensures |r| == 2
  {
    [(x as int % 256) as u8, (x as int / 256) as u8]
  }

  /** Writing a `u16` little-endian and reading it back gives the same value. */
  lemma U16LeRoundTrip(x: u16)
    ensures U16FromLe(U16ToLe(x)[0], U16ToLe(x)[1]) == x
  {
  }

  /** Reading two bytes as a little-endian `u16` and writing it back gives the same two bytes. */
  lemma U16LeRoundTripBytes(lo: u8, hi: u8)
    ensures U16ToLe(U16FromLe(lo, hi)) == [lo, hi]
  {
  }

  /** The concatenation of a sequence of byte strings (`Vec::extend` repeated, or `join("")`). */
  function Concat(parts: seq<seq<u8>>): (r: seq<u8>)
  {
    if parts == [] then [] else parts[0] + Concat(parts[1..])
  }

  lemma {:induction false} ConcatAppend(a: seq<seq<u8>>, b: seq<seq<u8>>)
    ensures Concat(a + b) == Concat(a) + Concat(b)
  {
    if a == [] {
      assert a + b == b;
    } else {
      assert (a + b)[1..] == a[1..] + b;
      ConcatAppend(a[1..], b);
    }
  }

  /** The bytes written for each element of xs, one after the other. */
  function FlatMap<T>(xs: seq<T>, f: T -> seq<u8>): (r: seq<u8>)
  {
    if xs == [] then [] else f(xs[0]) + FlatMap(xs[1..], f)
  }
}
