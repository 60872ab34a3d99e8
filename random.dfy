/** The deterministic generator of site/app.js: the linear congruential
    generator `lcg` and the Box–Muller `gaussian` sampler built on it.

    A generator is a closure over one 32-bit state in the source; here it is a
    class with that state as its field. The ghost `seed` and `count` fields say
    where in the stream of its seed a generator stands, so that every draw can be
    named by its position: draw n of seed s is `Draw(s, n)`. */
module Random {

  const Modulus: nat := 0x1_0000_0000
  const Multiplier: nat := 1664525
  const Increment: nat := 1013904223

  /** One LCG transition, (1664525·s + 1013904223) mod 2³². The product stays below
      2⁵³, so the source's `>>> 0` on a double is this exact integer remainder. */
  function Step(s: int): (s': nat)
    ensures s' < Modulus
  {
    (Multiplier * s + Increment) % Modulus
  }

  /** The state after n draws from `seed`; the seed itself is first reduced mod 2³²
      (`seed >>> 0`, which for an integer seed is the non-negative remainder). */
  function StateAt(seed: int, n: nat): (s: nat)
    ensures s < Modulus
  {
    if n == 0 then seed % Modulus else Step(StateAt(seed, n - 1))
  }

  /** Draw number n (counting from 0) of the stream of `seed`: the new state over 2³². */
  function Draw(seed: int, n: nat): (x: real)
    ensures 0.0 <= x < 1.0
  {
    StateAt(seed, n + 1) as real / Modulus as real
  }

  /** The n draws of `seed` starting at draw number `start`. */
  function Draws(seed: int, start: nat, n: nat): (xs: seq<real>)
    ensures |xs| == n
    ensures forall t :: 0 <= t < n ==> xs[t] == Draw(seed, start + t)
  {
    seq(n, t requires 0 <= t < n => Draw(seed, start + t))
  }

  /** Drawing a + b values from `start` is drawing a values, then b more. */
  lemma DrawsSplit(seed: int, start: nat, a: nat, b: nat)
    ensures Draws(seed, start, a + b) == Draws(seed, start, a) + Draws(seed, start + a, b)
  {
    var whole, left, right := Draws(seed, start, a + b), Draws(seed, start, a), Draws(seed, start + a, b);
    forall t | a <= t < a + b
      ensures whole[t] == right[t - a]
    {
    }
    assert whole == left + right;
  }

  /** A generator: the source's closure `rng` over `state`. */
  class Lcg {
    var state: int
    ghost const seed: int
    ghost var count: nat

    /** The state is the one reached after `count` draws from `seed`. */
    ghost predicate Valid()
      reads this
    {
      state == StateAt(seed, count)
    }

    /** `lcg(seed)`. */
    constructor (seed: int)
      ensures Valid() && this.seed == seed && count == 0
      ensures state == seed % Modulus
    {
      state := seed % Modulus;
      this.seed := seed;
      count := 0;
    }

    /** One call of `rng()`: advance the state and return it over 2³². */
    method Next() returns (x: real)
      requires Valid()
      modifies this
      ensures Valid() && count == old(count) + 1
      ensures x == Draw(seed, old(count)) && 0.0 <= x < 1.0
      ensures state == Step(old(state))
    {
      state := (Multiplier * state + Increment) % Modulus;
      count := count + 1;
      x := state as real / Modulus as real;
    }
  }

  /** Two generators made from the same seed give the same n draws, and those are
      the first n draws of that seed. */
  method SameSeedSameDraws(seed: int, n: nat) returns (xs: seq<real>, ys: seq<real>)
    ensures xs == ys && xs == Draws(seed, 0, n)
  {
    var a := new Lcg(seed);
    var b := new Lcg(seed);
    xs, ys := [], [];
    for t := 0 to n
      invariant a.Valid() && b.Valid() && a.seed == seed && b.seed == seed
      invariant a.count == t && b.count == t
      invariant xs == ys == Draws(seed, 0, t)
    {
      var x := a.Next();
      var y := b.Next();
      xs, ys := xs + [x], ys + [y];
    }
  }

  /** A draw of 0 is always followed by a draw that is not 0: state 0 steps to
      1013904223. */
  lemma ZeroIsFollowedByNonZero(seed: int, n: nat)
    requires Draw(seed, n) == 0.0
    ensures Draw(seed, n + 1) != 0.0
  {
    assert StateAt(seed, n + 1) == 0;
    assert StateAt(seed, n + 2) == Step(0) == Increment;
  }

  /** The position of the first non-zero draw at or after draw n: n or n + 1. */
  function NonZeroFrom(seed: int, n: nat): (m: nat)
    ensures n <= m <= n + 1 && Draw(seed, m) != 0.0
    ensures m == n + 1 <==> Draw(seed, n) == 0.0
  {
    if Draw(seed, n) != 0.0 then n
    else
      ZeroIsFollowedByNonZero(seed, n);
      n + 1
  }

  /** The position of the stream after one `gaussian` call that starts at draw n:
      u is the first non-zero draw from n, v the first non-zero draw after u. */
  function GaussianNext(seed: int, n: nat): (m: nat)
    ensures n + 2 <= m <= n + 4
  {
    NonZeroFrom(seed, NonZeroFrom(seed, n) + 1) + 1
  }

  /** The value of one `gaussian(rng, mean, std)` call that starts at draw n; the
      transcendental part sqrt(-2 ln u)·cos(2πv) is the parameter `boxMuller`. It is
      only ever applied to u and v in (0, 1), where ln u is defined; a sample of
      standard deviation 0 is the mean. */
  function GaussianAt(seed: int, n: nat, mean: real, std: real, boxMuller: (real, real) -> real): (g: real)
    ensures exists u, v :: 0.0 < u < 1.0 && 0.0 < v < 1.0 && g == boxMuller(u, v) * std + mean
    ensures std == 0.0 ==> g == mean
  {
    var a := NonZeroFrom(seed, n);
    var b := NonZeroFrom(seed, a + 1);
    var u, v := Draw(seed, a), Draw(seed, b);
    assert 0.0 < u < 1.0 && 0.0 < v < 1.0;
    boxMuller(u, v) * std + mean
  }

  /** The position of the stream after k successive `gaussian` calls from draw n. */
  function GaussiansEnd(seed: int, n: nat, k: nat): (m: nat)
    ensures n + 2 * k <= m <= n + 4 * k
  {
    if k == 0 then n else GaussianNext(seed, GaussiansEnd(seed, n, k - 1))
  }

  /** The values of k successive `gaussian(rng, mean, std)` calls from draw n. */
  function Gaussians(seed: int, n: nat, k: nat, mean: real, std: real, boxMuller: (real, real) -> real): (gs: seq<real>)
    ensures |gs| == k
  {
    if k == 0 then []
    else Gaussians(seed, n, k - 1, mean, std, boxMuller) + [GaussianAt(seed, GaussiansEnd(seed, n, k - 1), mean, std, boxMuller)]
  }

  /** k + l calls from draw n are k calls, then l calls from where those stopped. */
  lemma {:induction false} GaussiansEndSplit(seed: int, n: nat, k: nat, l: nat)
    ensures GaussiansEnd(seed, n, k + l) == GaussiansEnd(seed, GaussiansEnd(seed, n, k), l)
  {
    if l > 0 {
      GaussiansEndSplit(seed, n, k, l - 1);
    }
  }

  /** `gaussian(rng, mean, std)`: draw u and v, each redrawn while it is exactly 0,
      then transform them. Each rejection loop runs at most twice, because the
      generator never yields 0 twice in a row. */
  method Gaussian(rng: Lcg, mean: real, std: real, boxMuller: (real, real) -> real) returns (g: real)
    requires rng.Valid()
    modifies rng
    ensures rng.Valid() && rng.count == GaussianNext(rng.seed, old(rng.count))
    ensures g == GaussianAt(rng.seed, old(rng.count), mean, std, boxMuller)
  {
    ghost var c0 := rng.count;
    var u := RedrawWhileZero(rng);
    ghost var c1 := rng.count;
    var v := RedrawWhileZero(rng);
    assert c1 == NonZeroFrom(rng.seed, c0) + 1;
    g := boxMuller(u, v) * std + mean;
  }

  /** One rejection loop of `gaussian`: starting from 0, draw again as long as the
      value held is exactly 0. */
  method RedrawWhileZero(rng: Lcg) returns (u: real)
    requires rng.Valid()
    modifies rng
    ensures rng.Valid() && rng.count == NonZeroFrom(rng.seed, old(rng.count)) + 1
    ensures u == Draw(rng.seed, NonZeroFrom(rng.seed, old(rng.count))) && u != 0.0
  {
    ghost var c0 := rng.count;
    ghost var stop := NonZeroFrom(rng.seed, c0);
    u := 0.0;
    while u == 0.0
      invariant rng.Valid()
      invariant c0 <= rng.count <= stop + 1
      invariant rng.count == c0 ==> u == 0.0
      invariant rng.count > c0 ==> u == Draw(rng.seed, rng.count - 1)
      decreases stop + 1 - rng.count
    {
      u := rng.Next();
    }
  }
}
