/** What the wrapping hash of a window is: a polynomial of its bytes, reduced once at the end. */
module WindowHashes {
  import opened Basics
  import opened Chunking

  function Power(n: nat): nat {
    if n == 0 then 1 else Power(n - 1) * 0x5bd1e995
  }

  /** The sum of the window's bytes, each times the multiplier to the power of the bytes after it. */
  function Polynomial(window: Bytes): nat {
    if window == [] then 0 else window[0] * Power(|window| - 1) + Polynomial(window[1..])
  }

  lemma TimesPower(first: int, power: int, rest: int)
    ensures (first * power + rest) * MULTIPLIER == first * (power * MULTIPLIER) + rest * MULTIPLIER
  {
  }

  /** One more byte moves the others up one power. */
  lemma {:induction false} PolynomialAppend(window: Bytes, b: byte)
    ensures Polynomial(window + [b]) == Polynomial(window) * MULTIPLIER + b
    decreases |window|
  {
    if window == [] {
      assert (window + [b])[1..] == [];
    } else {
      var n := |window| - 1;
      PolynomialAppend(window[1..], b);
      assert (window + [b])[1..] == window[1..] + [b];
      TimesPower(window[0], Power(n), Polynomial(window[1..]));
    }
  }

  lemma MultipleIsLarge(k: int, m: int)
    requires m > 0
    ensures k == 0 || k * m >= m || k * m <= -m
  {
    if k >= 1 {
      assert (k - 1) * m >= 0;
    } else if k <= -1 {
      assert (-k - 1) * m >= 0;
    }
  }

  lemma SameRemainder(a: int, k: int, m: int)
    requires m > 0
    ensures (a + k * m) % m == a % m
  {
    var q, r := a / m, a % m;
    var q', r' := (a + k * m) / m, (a + k * m) % m;
    assert (q + k - q') * m == r' - r;
    MultipleIsLarge(q + k - q', m);
  }

  /** Reducing in between changes nothing. */
  lemma ReducedOnce(x: nat, b: nat, m: int)
    requires m > 0
    ensures ((x % m) * MULTIPLIER % m + b) % m == (x * MULTIPLIER + b) % m
  {
    var r := x % m;
    var y := r * MULTIPLIER;
    assert x == r + x / m * m;
    assert x * MULTIPLIER + b == y + b + (x / m * MULTIPLIER) * m;
    SameRemainder(y + b, x / m * MULTIPLIER, m);
    assert y + b == y % m + b + y / m * m;
    SameRemainder(y % m + b, y / m, m);
  }

  /** The hash is the polynomial modulo 2 to the 64: wrapping at every step does not matter. */
  lemma {:induction false} HashIsPolynomial(window: Bytes)
    ensures WindowHash(window) == Polynomial(window) % 0x1_0000_0000_0000_0000
    decreases |window|
  {
    if window != [] {
      var n := |window| - 1;
      assert window == window[..n] + [window[n]];
      HashIsPolynomial(window[..n]);
      PolynomialAppend(window[..n], window[n]);
      ReducedOnce(Polynomial(window[..n]), window[n], WORD);
    }
  }
}
