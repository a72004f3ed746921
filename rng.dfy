/** The renderer's random numbers: the SplitMix64 seed scrambler, the per-thread
    seed counter, the xorshift64* generator and the samplers built on it. */
module Rng {
  import opened Wrappers
  import opened Vec3Math

  /** The seed counter's first value; it then advances by the 64-bit golden ratio
      0x9e3779b97f4a7c15 per thread. */
  const SeedCounterStart: bv64 := 0x123456789abcdef0

  /** The xorshift64* multiplier 0x2545F4914F6CDD1D, also the seed used in place of a
      zero seed. The other constants appear as literals, which the solver folds. */
  const StarMul: bv64 := 0x2545F4914F6CDD1D

  /** 2^53: `random_double` keeps the top 53 bits of a draw. */
  const TwoPow53: int := 9007199254740992

  /** The first mixing round of `splitmix64`: `x = (x ^ (x >> 30)) * 0xbf58476d1ce4e5b9`. */
  function MixRound30(a: bv64): bv64 { (a ^ (a >> 30)) * 0xbf58476d1ce4e5b9 }

  /** The second mixing round: `x = (x ^ (x >> 27)) * 0x94d049bb133111eb`. */
  function MixRound27(b: bv64): bv64 { (b ^ (b >> 27)) * 0x94d049bb133111eb }

  /** The final `x ^ (x >> 31)`. */
  function FinalShift31(c: bv64): bv64 { c ^ (c >> 31) }

  /** `splitmix64`: add the golden ratio, then two xor-shift-multiply rounds and a final xor-shift. */
  function SplitMix64(x: bv64): bv64 {
    FinalShift31(MixRound27(MixRound30(x + 0x9e3779b97f4a7c15)))
  }

  // Each `x ^= x >> s` is undone by xoring in right shifts by `s`, `2s`, `4s`, ... until the
  // shift passes the word width, and each multiplier by its inverse modulo 2^64.

  function UnFinalShift31(y: bv64): bv64 {
    var c1 := y ^ (y >> 31);
    c1 ^ (c1 >> 62)
  }

  function UnMixRound27(c: bv64): bv64 {
    var b1 := c * 0x319642b2d24d8ec3;
    var b2 := b1 ^ (b1 >> 27);
    b2 ^ (b2 >> 54)
  }

  function UnMixRound30(b: bv64): bv64 {
    var a1 := b * 0x96de1b173f119089;
    var a2 := a1 ^ (a1 >> 30);
    a2 ^ (a2 >> 60)
  }

  /** SplitMix64 run backwards. */
  function UnSplitMix64(y: bv64): bv64 {
    UnMixRound30(UnMixRound27(UnFinalShift31(y))) - 0x9e3779b97f4a7c15
  }

  // Doubling steps: xoring `y >> s` into `y = x ^ (x >> s)` leaves `x ^ (x >> 2s)`, which is
  // `x` itself once `2s` reaches the word width. Each is proved from one distribution fact.

  lemma Double12(x: bv64) ensures var y := x ^ (x >> 12); y ^ (y >> 12) == x ^ (x >> 24) {
    ShrXor12(x, x >> 12);
    assert (x >> 12) >> 12 == x >> 24;
  }

  lemma Double24(x: bv64) ensures var y := x ^ (x >> 24); y ^ (y >> 24) == x ^ (x >> 48) {
    ShrXor24(x, x >> 24);
    assert (x >> 24) >> 24 == x >> 48;
  }

  lemma Double27(x: bv64) ensures var y := x ^ (x >> 27); y ^ (y >> 27) == x ^ (x >> 54) {
    ShrXor27(x, x >> 27);
    assert (x >> 27) >> 27 == x >> 54;
  }

  lemma Double30(x: bv64) ensures var y := x ^ (x >> 30); y ^ (y >> 30) == x ^ (x >> 60) {
    ShrXor30(x, x >> 30);
    assert (x >> 30) >> 30 == x >> 60;
  }

  lemma Double31(x: bv64) ensures var y := x ^ (x >> 31); y ^ (y >> 31) == x ^ (x >> 62) {
    ShrXor31(x, x >> 31);
    assert (x >> 31) >> 31 == x >> 62;
  }

  lemma DoubleLeft25(x: bv64) ensures var y := x ^ (x << 25); y ^ (y << 25) == x ^ (x << 50) {
    ShlXor25(x, x << 25);
    assert (x << 25) << 25 == x << 50;
  }

  lemma Last48(x: bv64) ensures var y := x ^ (x >> 48); y ^ (y >> 48) == x {
    ShrXor48(x, x >> 48);
    assert (x >> 48) >> 48 == 0;
  }

  lemma Last54(x: bv64) ensures var y := x ^ (x >> 54); y ^ (y >> 54) == x {
    ShrXor54(x, x >> 54);
    assert (x >> 54) >> 54 == 0;
  }

  lemma Last60(x: bv64) ensures var y := x ^ (x >> 60); y ^ (y >> 60) == x {
    ShrXor60(x, x >> 60);
    assert (x >> 60) >> 60 == 0;
  }

  lemma Last62(x: bv64) ensures var y := x ^ (x >> 62); y ^ (y >> 62) == x {
    ShrXor62(x, x >> 62);
    assert (x >> 62) >> 62 == 0;
  }

  lemma LastLeft50(x: bv64) ensures var y := x ^ (x << 50); y ^ (y << 50) == x {
    ShlXor50(x, x << 50);
    assert (x << 50) << 50 == 0;
  }

  lemma ShrXor12(a: bv64, b: bv64) ensures (a ^ b) >> 12 == (a >> 12) ^ (b >> 12) {}
  lemma ShrXor24(a: bv64, b: bv64) ensures (a ^ b) >> 24 == (a >> 24) ^ (b >> 24) {}
  lemma ShrXor27(a: bv64, b: bv64) ensures (a ^ b) >> 27 == (a >> 27) ^ (b >> 27) {}
  lemma ShrXor30(a: bv64, b: bv64) ensures (a ^ b) >> 30 == (a >> 30) ^ (b >> 30) {}
  lemma ShrXor31(a: bv64, b: bv64) ensures (a ^ b) >> 31 == (a >> 31) ^ (b >> 31) {}
  lemma ShrXor48(a: bv64, b: bv64) ensures (a ^ b) >> 48 == (a >> 48) ^ (b >> 48) {}
  lemma ShrXor54(a: bv64, b: bv64) ensures (a ^ b) >> 54 == (a >> 54) ^ (b >> 54) {}
  lemma ShrXor60(a: bv64, b: bv64) ensures (a ^ b) >> 60 == (a >> 60) ^ (b >> 60) {}
  lemma ShrXor62(a: bv64, b: bv64) ensures (a ^ b) >> 62 == (a >> 62) ^ (b >> 62) {}
  lemma ShlXor25(a: bv64, b: bv64) ensures (a ^ b) << 25 == (a << 25) ^ (b << 25) {}
  lemma ShlXor50(a: bv64, b: bv64) ensures (a ^ b) << 50 == (a << 50) ^ (b << 50) {}

  /** 0x96de1b173f119089 is the inverse of the first multiplier modulo 2^64. */
  lemma MulInverse30(x: bv64)
    ensures (x * 0xbf58476d1ce4e5b9) * 0x96de1b173f119089 == x
  {
    calc {
      (x * 0xbf58476d1ce4e5b9) * 0x96de1b173f119089;
      x * (0xbf58476d1ce4e5b9 * 0x96de1b173f119089);
    }
  }

  /** 0x319642b2d24d8ec3 is the inverse of the second multiplier modulo 2^64. */
  lemma MulInverse27(x: bv64)
    ensures (x * 0x94d049bb133111eb) * 0x319642b2d24d8ec3 == x
  {
    calc {
      (x * 0x94d049bb133111eb) * 0x319642b2d24d8ec3;
      x * (0x94d049bb133111eb * 0x319642b2d24d8ec3);
    }
  }

  // Each round is undone by its inverse. The proofs take the round's output as a plain
  // variable so that the solver never compares two unfoldings of the same round.

  lemma FinalShift31Inverts(c: bv64, y: bv64)
    requires y == c ^ (c >> 31)
    ensures UnFinalShift31(y) == c
  {
    Double31(c);
    Last62(c);
  }

  lemma MixRound27Inverts(b: bv64, c: bv64)
    requires c == (b ^ (b >> 27)) * 0x94d049bb133111eb
    ensures UnMixRound27(c) == b
  {
    MulInverse27(b ^ (b >> 27));
    Double27(b);
    Last54(b);
  }

  lemma MixRound30Inverts(a: bv64, b: bv64)
    requires b == (a ^ (a >> 30)) * 0xbf58476d1ce4e5b9
    ensures UnMixRound30(b) == a
  {
    MulInverse30(a ^ (a >> 30));
    Double30(a);
    Last60(a);
  }

  lemma FinalShift31RoundTrip(c: bv64) ensures UnFinalShift31(FinalShift31(c)) == c {
    FinalShift31Inverts(c, FinalShift31(c));
  }

  lemma MixRound27RoundTrip(b: bv64) ensures UnMixRound27(MixRound27(b)) == b {
    MixRound27Inverts(b, MixRound27(b));
  }

  lemma MixRound30RoundTrip(a: bv64) ensures UnMixRound30(MixRound30(a)) == a {
    MixRound30Inverts(a, MixRound30(a));
  }

  /** SplitMix64 is a bijection on 64-bit words: `UnSplitMix64` inverts it. */
  lemma SplitMixRoundTrip(x: bv64)
    ensures UnSplitMix64(SplitMix64(x)) == x
  {
    var a := x + 0x9e3779b97f4a7c15;
    FinalShift31RoundTrip(MixRound27(MixRound30(a)));
    MixRound27RoundTrip(MixRound30(a));
    MixRound30RoundTrip(a);
  }

  /** Distinct inputs give distinct SplitMix64 outputs. */
  lemma SplitMixInjective(x: bv64, y: bv64)
    requires x != y
    ensures SplitMix64(x) != SplitMix64(y)
  {
    SplitMixRoundTrip(x);
    SplitMixRoundTrip(y);
  }

  /** `init_thread_rng_state` after the counter has been fetched: the counter value mixed
      with the thread's hash, with a zero result replaced by a fixed non-zero seed. */
  function SeedFrom(counter: bv64, threadHash: bv64): (seed: bv64)
    ensures seed != 0
    ensures SplitMix64(counter ^ threadHash) != 0 ==> seed == SplitMix64(counter ^ threadHash)
  {
    var s := SplitMix64(counter ^ threadHash);
    if s == 0 then StarMul else s
  }

  /** Xoring with the same hash keeps different counter values different. */
  lemma XorKeepsDistinct(c1: bv64, c2: bv64, threadHash: bv64)
    requires c1 != c2
    ensures c1 ^ threadHash != c2 ^ threadHash
  {
  }

  /** Two threads with the same hash that fetch different counter values get different
      seeds, unless one of them hit the zero replacement. */
  lemma SeedsDistinct(c1: bv64, c2: bv64, threadHash: bv64)
    requires c1 != c2
    requires SplitMix64(c1 ^ threadHash) != 0 && SplitMix64(c2 ^ threadHash) != 0
    ensures SeedFrom(c1, threadHash) != SeedFrom(c2, threadHash)
  {
    XorKeepsDistinct(c1, c2, threadHash);
    SplitMixInjective(c1 ^ threadHash, c2 ^ threadHash);
  }

  /** The process-wide seed counter that `init_thread_rng_state` advances. */
  class SeedCounter {
    var next: bv64

    constructor ()
      ensures next == SeedCounterStart
    {
      next := SeedCounterStart;
    }

    /** `init_thread_rng_state`: fetch-and-add the counter, then derive a non-zero seed. */
    method InitThreadRngState(threadHash: bv64) returns (seed: bv64)
      modifies this
      ensures next == old(next) + 0x9e3779b97f4a7c15
      ensures seed == SeedFrom(old(next), threadHash)
      ensures seed != 0
    {
      var fetched := next;
      next := next + 0x9e3779b97f4a7c15;
      seed := SeedFrom(fetched, threadHash);
    }
  }

  /** The three in-place steps of `xorshift64star`. */
  function XorShr12(s: bv64): bv64 { s ^ (s >> 12) }
  function XorShl25(s: bv64): bv64 { s ^ (s << 25) }
  function XorShr27(s: bv64): bv64 { s ^ (s >> 27) }

  /** The state update of `xorshift64star`. */
  function XorShiftState(s: bv64): bv64 { XorShr27(XorShl25(XorShr12(s))) }

  /** The value `xorshift64star` returns from state `s`: the new state times the multiplier. */
  function XorShiftOutput(s: bv64): bv64 { Scramble(XorShiftState(s)) }

  /** The multiplication `xorshift64star` applies to its updated state. */
  function Scramble(t: bv64): bv64 { t * StarMul }

  function UnXorShr12(t: bv64): bv64 {
    var s1 := t ^ (t >> 12);
    var s2 := s1 ^ (s1 >> 24);
    s2 ^ (s2 >> 48)
  }

  function UnXorShl25(t: bv64): bv64 {
    var a1 := t ^ (t << 25);
    a1 ^ (a1 << 50)
  }

  function UnXorShr27(t: bv64): bv64 {
    var b1 := t ^ (t >> 27);
    b1 ^ (b1 >> 54)
  }

  /** The xorshift state update run backwards. */
  function UnXorShiftState(t: bv64): bv64 { UnXorShr12(UnXorShl25(UnXorShr27(t))) }

  lemma XorShr12Inverts(s: bv64, t: bv64)
    requires t == s ^ (s >> 12)
    ensures UnXorShr12(t) == s
  {
    Double12(s);
    Double24(s);
    Last48(s);
  }

  lemma XorShl25Inverts(s: bv64, t: bv64)
    requires t == s ^ (s << 25)
    ensures UnXorShl25(t) == s
  {
    DoubleLeft25(s);
    LastLeft50(s);
  }

  lemma XorShr27Inverts(s: bv64, t: bv64)
    requires t == s ^ (s >> 27)
    ensures UnXorShr27(t) == s
  {
    Double27(s);
    Last54(s);
  }

  /** The state update is a bijection, so a non-zero state never becomes zero: the generator
      cannot fall into the all-zero state, from which it would return 0 for ever. */
  lemma XorShiftRoundTrip(s: bv64)
    ensures UnXorShiftState(XorShiftState(s)) == s
    ensures s != 0 ==> XorShiftState(s) != 0
  {
    var a := XorShr12(s);
    var b := XorShl25(a);
    XorShr27Inverts(b, XorShr27(b));
    XorShl25Inverts(a, b);
    XorShr12Inverts(s, a);
    assert UnXorShiftState(0) == 0 by {
      XorShr12Inverts(0, 0);
      XorShl25Inverts(0, 0);
      XorShr27Inverts(0, 0);
    }
  }

  /** A non-zero state stays non-zero. */
  lemma XorShiftKeepsNonZero(s: bv64)
    requires s != 0
    ensures XorShiftState(s) != 0
  {
    XorShiftRoundTrip(s);
  }

  /** The top 53 bits of a draw, `r >> 11`, as a number. */
  function Top53(r: bv64): (k: int)
    ensures 0 <= k < TwoPow53
  {
    (r as int) / 2048
  }

  /** `random_double` applied to a raw draw: its top 53 bits scaled by 2^-53. */
  function RandomDouble(r: bv64): (d: real)
    ensures 0.0 <= d < 1.0
    ensures d * TwoPow53 as real == Top53(r) as real
  {
    Top53(r) as real / TwoPow53 as real
  }

  /** `min + (max - min) * u` for `u` in `[0, 1)` lies in `[min, max)`. */
  function Lerp(lo: real, hi: real, u: real): (d: real)
    requires 0.0 <= u < 1.0
    ensures lo < hi ==> lo <= d < hi
    ensures lo == hi ==> d == lo
  {
    ScaleUnitInterval(hi - lo, u, (hi - lo) * u);
    lo + (hi - lo) * u
  }

  lemma ScaleUnitInterval(w: real, u: real, p: real)
    requires 0.0 <= u < 1.0
    requires p == w * u
    ensures 0.0 < w ==> 0.0 <= p < w
    ensures w == 0.0 ==> p == 0.0
  {
    if 0.0 < w {
      assert w * u < w * 1.0;
    }
  }

  /** `random_double(min, max)` applied to a raw draw. */
  function RandomDoubleIn(lo: real, hi: real, r: bv64): (d: real)
    ensures lo < hi ==> lo <= d < hi
    ensures lo == hi ==> d == lo
  {
    Lerp(lo, hi, RandomDouble(r))
  }

  /** The state after `n` steps of `xorshift64star`. */
  function Advance(s: bv64, n: nat): bv64 {
    if n == 0 then s else XorShiftState(Advance(s, n - 1))
  }

  /** The state after `k` draws of `width` doubles each. */
  function DrawState(s: bv64, width: nat, k: nat): bv64 {
    if k == 0 then s else Advance(DrawState(s, width, k - 1), width)
  }

  /** The point `Vec3::random(-1, 1)` draws from state `s`: x, then y, then z. */
  function BallCandidate(s: bv64): Vec3 {
    Vec3(RandomDoubleIn(-1.0, 1.0, XorShiftOutput(s)),
         RandomDoubleIn(-1.0, 1.0, XorShiftOutput(XorShiftState(s))),
         RandomDoubleIn(-1.0, 1.0, XorShiftOutput(XorShiftState(XorShiftState(s)))))
  }

  /** The point `random_in_unit_disk` draws from state `s`: x, then y, with z at 0. */
  function DiskCandidate(s: bv64): Vec3 {
    Vec3(RandomDoubleIn(-1.0, 1.0, XorShiftOutput(s)),
         RandomDoubleIn(-1.0, 1.0, XorShiftOutput(XorShiftState(s))),
         0.0)
  }

  /** The `k`-th candidate (from 0) of each rejection loop started at state `s`. */
  function BallDraw(s: bv64, k: nat): Vec3 { BallCandidate(DrawState(s, 3, k)) }

  function DiskDraw(s: bv64, k: nat): Vec3 { DiskCandidate(DrawState(s, 2, k)) }

  /** The first `n` candidates all fail the `length_squared() >= 1` test. */
  ghost predicate BallRejectsAll(s: bv64, n: nat) {
    forall j: nat :: j < n ==> 1.0 <= LengthSquared(BallDraw(s, j))
  }

  ghost predicate DiskRejectsAll(s: bv64, n: nat) {
    forall j: nat :: j < n ==> 1.0 <= LengthSquared(DiskDraw(s, j))
  }

  /** Candidate `k` is the first one the loop returns. */
  ghost predicate BallFirstAccepted(s: bv64, k: nat) {
    BallRejectsAll(s, k) && LengthSquared(BallDraw(s, k)) < 1.0
  }

  ghost predicate DiskFirstAccepted(s: bv64, k: nat) {
    DiskRejectsAll(s, k) && LengthSquared(DiskDraw(s, k)) < 1.0
  }

  /** One more draw of `width` doubles is `width` more steps of the generator. */
  lemma DrawStateNext(s: bv64, width: nat, k: nat)
    ensures DrawState(s, width, k + 1) == Advance(DrawState(s, width, k), width)
  {
  }

  lemma AdvanceSmall(s: bv64)
    ensures Advance(s, 2) == XorShiftState(XorShiftState(s))
    ensures Advance(s, 3) == XorShiftState(XorShiftState(XorShiftState(s)))
  {
    assert Advance(s, 1) == XorShiftState(s);
  }

  /** The outcome of a bounded rejection loop is determined by its starting state: at most one
      candidate is the first accepted, and none is when the first `n` are all rejected. */
  lemma BallOutcomeDetermined(s: bv64, n: nat, k1: nat, k2: nat)
    ensures BallFirstAccepted(s, k1) && BallFirstAccepted(s, k2) ==> k1 == k2
    ensures BallRejectsAll(s, n) && k1 < n ==> !BallFirstAccepted(s, k1)
  {
  }



  lemma DiskOutcomeDetermined(s: bv64, n: nat, k1: nat, k2: nat)
    ensures DiskFirstAccepted(s, k1) && DiskFirstAccepted(s, k2) ==> k1 == k2
    ensures DiskRejectsAll(s, n) && k1 < n ==> !DiskFirstAccepted(s, k1)
  {
  }



  /** The thread-local generator state that `random_double` advances. */
  class RandomSource {
    var state: bv64

    ghost predicate Valid()
      reads this
    {
      state != 0
    }

    /** The state starts from a seed of `init_thread_rng_state`, which is never zero. */
    constructor (seed: bv64)
      requires seed != 0
      ensures Valid() && state == seed
    {
      state := seed;
    }

    /** `xorshift64star`: advance the state in place and return the scrambled value. */
    method NextU64() returns (r: bv64)
      requires Valid()
      modifies this
      ensures Valid()
      ensures state == XorShiftState(old(state))
      ensures r == XorShiftOutput(old(state))
    {
      var s := state;
      XorShiftKeepsNonZero(s);
      s := XorShr12(s);
      s := XorShl25(s);
      s := XorShr27(s);
      state := s;
      r := Scramble(s);
    }

    /** `random_double()`. */
    method NextDouble() returns (d: real)
      requires Valid()
      modifies this
      ensures Valid()
      ensures state == XorShiftState(old(state))
      ensures d == RandomDouble(XorShiftOutput(old(state)))
      ensures 0.0 <= d < 1.0
    {
      var r := NextU64();
      d := RandomDouble(r);
    }

    /** `random_double(min, max)`. */
    method NextDoubleIn(lo: real, hi: real) returns (d: real)
      requires Valid()
      modifies this
      ensures Valid()
      ensures state == XorShiftState(old(state))
      ensures d == RandomDoubleIn(lo, hi, XorShiftOutput(old(state)))
      ensures lo < hi ==> lo <= d < hi
    {
      var u := NextDouble();
      d := Lerp(lo, hi, u);
    }

    /** `Vec3::random(min, max)`, drawing x, then y, then z. */
    method NextVec3In(lo: real, hi: real) returns (v: Vec3)
      requires Valid()
      modifies this
      ensures Valid()
      ensures state == XorShiftState(XorShiftState(XorShiftState(old(state))))
      ensures v.x == RandomDoubleIn(lo, hi, XorShiftOutput(old(state)))
      ensures v.y == RandomDoubleIn(lo, hi, XorShiftOutput(XorShiftState(old(state))))
      ensures v.z == RandomDoubleIn(lo, hi, XorShiftOutput(XorShiftState(XorShiftState(old(state)))))
      ensures lo < hi ==> lo <= v.x < hi && lo <= v.y < hi && lo <= v.z < hi
    {
      var x := NextDoubleIn(lo, hi);
      var y := NextDoubleIn(lo, hi);
      var z := NextDoubleIn(lo, hi);
      v := Vec3(x, y, z);
    }

    /** `random_in_unit_sphere`: draw points of the cube `[-1, 1)^3` until one falls strictly
        inside the unit ball; at most `maxTries` draws are made. The result is the first
        accepted candidate and the state is the one just after it; `None` means all
        `maxTries` candidates were rejected. */
    method RandomInUnitSphere(maxTries: nat) returns (p: Option<Vec3>)
      requires Valid()
      modifies this
      ensures Valid()
      ensures p.Some? ==> LengthSquared(p.value) < 1.0
      ensures p.Some? ==> -1.0 <= p.value.x < 1.0 && -1.0 <= p.value.y < 1.0 && -1.0 <= p.value.z < 1.0
      ensures p.None? ==> BallRejectsAll(old(state), maxTries) && state == DrawState(old(state), 3, maxTries)
      ensures p.Some? ==> exists k: nat :: k < maxTries && BallFirstAccepted(old(state), k)
                            && p.value == BallDraw(old(state), k) && state == DrawState(old(state), 3, k + 1)
    {
      var tries := 0;
      while tries < maxTries
        invariant Valid()
        invariant tries <= maxTries
        invariant state == DrawState(old(state), 3, tries)
        invariant BallRejectsAll(old(state), tries)
        decreases maxTries - tries
      {
        ghost var before := state;
        var q := NextVec3In(-1.0, 1.0);
        DrawStateNext(old(state), 3, tries);
        AdvanceSmall(before);
        assert q == BallDraw(old(state), tries);
        tries := tries + 1;
        if LengthSquared(q) >= 1.0 {
          continue;
        }
        assert BallFirstAccepted(old(state), tries - 1);
        return Some(q);
      }
      return None;
    }

    /** `random_in_unit_disk`: like the sphere sampler but drawing only x and y, with z at 0. */
    method RandomInUnitDisk(maxTries: nat) returns (p: Option<Vec3>)
      requires Valid()
      modifies this
      ensures Valid()
      ensures p.Some? ==> LengthSquared(p.value) < 1.0 && p.value.z == 0.0
      ensures p.Some? ==> -1.0 <= p.value.x < 1.0 && -1.0 <= p.value.y < 1.0
      ensures p.None? ==> DiskRejectsAll(old(state), maxTries) && state == DrawState(old(state), 2, maxTries)
      ensures p.Some? ==> exists k: nat :: k < maxTries && DiskFirstAccepted(old(state), k)
                            && p.value == DiskDraw(old(state), k) && state == DrawState(old(state), 2, k + 1)
    {
      var tries := 0;
      while tries < maxTries
        invariant Valid()
        invariant tries <= maxTries
        invariant state == DrawState(old(state), 2, tries)
        invariant DiskRejectsAll(old(state), tries)
        decreases maxTries - tries
      {
        ghost var before := state;
        var x := NextDoubleIn(-1.0, 1.0);
        var y := NextDoubleIn(-1.0, 1.0);
        var q := Vec3(x, y, 0.0);
        DrawStateNext(old(state), 2, tries);
        AdvanceSmall(before);
        assert q == DiskDraw(old(state), tries);
        tries := tries + 1;
        if LengthSquared(q) >= 1.0 {
          continue;
        }
        assert DiskFirstAccepted(old(state), tries - 1);
        return Some(q);
      }
      return None;
    }

    /** `random_unit_vector`: a sphere sample scaled to length 1. A zero sample, which the
        source divides by, gives None, as does running out of tries. Otherwise the result is
        the `unit_vector` of the first accepted sphere candidate. */
    method RandomUnitVector(maxTries: nat, sqrt: real -> real) returns (u: Option<Vec3>)
      requires Valid()
      requires IsSqrt(sqrt)
      modifies this
      ensures Valid()
      ensures u.Some? ==> LengthSquared(u.value) == 1.0
      ensures u.Some? ==> exists k: nat :: k < maxTries && BallFirstAccepted(old(state), k)
                            && 0.0 < LengthSquared(BallDraw(old(state), k))
                            && u.value == UnitVector(BallDraw(old(state), k), sqrt)
                            && state == DrawState(old(state), 3, k + 1)
      ensures u.None? ==> (BallRejectsAll(old(state), maxTries) && state == DrawState(old(state), 3, maxTries))
                          || exists k: nat :: k < maxTries && BallFirstAccepted(old(state), k)
                               && LengthSquared(BallDraw(old(state), k)) == 0.0
                               && state == DrawState(old(state), 3, k + 1)
    {
      var p := RandomInUnitSphere(maxTries);
      if p.None? || !(0.0 < LengthSquared(p.value)) {
        if p.Some? {
          LengthSquaredNonNegative(p.value);
        }
        return None;
      }
      UnitVectorIsUnit(p.value, sqrt);
      u := Some(UnitVector(p.value, sqrt));
    }
  }
}
