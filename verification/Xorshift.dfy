/** The deterministic generator behind the fixture plan: 64-bit states, no two of which are ever drawn into the same one. */
module Xorshift {
  const WIDTH := 64

  /** A word is the set of the positions of its one-bits; bit `i` has weight 2^i. */
  type Word = w: set<nat> | forall i :: i in w ==> i < WIDTH

  const ZERO: Word := {}
  const UNIT: Word := {0}

  function Xor(x: Word, y: Word): Word {
    (x - y) + (y - x)
  }

  function Shl(x: Word, k: nat): Word {
    set i | i in x && i + k < WIDTH :: i + k
  }

  function Shr(x: Word, k: nat): Word {
    set i | i in x && i >= k :: i - k
  }

  function Left(x: Word, k: nat): Word {
    Xor(x, Shl(x, k))
  }

  function Right(x: Word, k: nat): Word {
    Xor(x, Shr(x, k))
  }

  function Step(x: Word): Word {
    Left(Right(Left(x, 13), 7), 17)
  }

  lemma LeftBits(x: Word, k: nat, i: nat)
    requires i < WIDTH
    ensures i in Left(x, k) <==> (i in x) != (i >= k && i - k in x)
  {
    if i >= k && i - k in x {
      assert i - k + k in Shl(x, k);
    }
  }

  lemma RightBits(x: Word, k: nat, i: nat)
    requires i < WIDTH
    ensures i in Right(x, k) <==> (i in x) != (i + k in x)
  {
    if i + k in x {
      assert i + k - k in Shr(x, k);
    }
  }

  /** From the lowest bit up, the result determines the argument. */
  lemma {:induction false} LeftBit(x: Word, y: Word, k: nat, i: nat)
    requires 0 < k && Left(x, k) == Left(y, k) && i < WIDTH
    ensures i in x <==> i in y
  {
    hide Left;
    if i >= k {
      LeftBit(x, y, k, i - k);
    }
    LeftBits(x, k, i);
    LeftBits(y, k, i);
  }

  /** And for right shifts from the highest bit down. */
  lemma {:induction false} RightBit(x: Word, y: Word, k: nat, i: nat)
    requires 0 < k && Right(x, k) == Right(y, k) && i < WIDTH
    ensures i in x <==> i in y
    decreases WIDTH - i
  {
    hide Right;
    if i + k < WIDTH {
      RightBit(x, y, k, i + k);
    }
    RightBits(x, k, i);
    RightBits(y, k, i);
  }

  lemma LeftInjective(x: Word, y: Word, k: nat)
    requires 0 < k && Left(x, k) == Left(y, k)
    ensures x == y
  {
    forall i | 0 <= i < WIDTH ensures i in x <==> i in y {
      LeftBit(x, y, k, i);
    }
  }

  lemma RightInjective(x: Word, y: Word, k: nat)
    requires 0 < k && Right(x, k) == Right(y, k)
    ensures x == y
  {
    forall i | 0 <= i < WIDTH ensures i in x <==> i in y {
      RightBit(x, y, k, i);
    }
  }

  /** Distinct states never merge. */
  lemma StepInjective(x: Word, y: Word)
    requires Step(x) == Step(y)
    ensures x == y
  {
    hide Left, Right;
    LeftInjective(Right(Left(x, 13), 7), Right(Left(y, 13), 7), 17);
    RightInjective(Left(x, 13), Left(y, 13), 7);
    LeftInjective(x, y, 13);
  }

  lemma StepKeepsNonZero(x: Word)
    ensures Step(x) == ZERO <==> x == ZERO
  {
    assert Left(ZERO, 13) == ZERO && Right(ZERO, 7) == ZERO && Left(ZERO, 17) == ZERO;
    if Step(x) == ZERO {
      StepInjective(x, ZERO);
    }
  }

  // ----- what a draw does to the bits -----

  /** The parity of the bits `i`, `i - 13`, `i + 7`, `i - 6`, `i - 17`, `i - 30`, `i - 10` and `i - 23`, as far as they
      take part. */
  ghost predicate DrawnBit(x: Word, i: nat) {
    ((((((((i in x)
    != (i >= 13 && i - 13 in x))
    != (i < 57 && i + 7 in x))
    != (6 <= i < 57 && i - 6 in x))
    != (i >= 17 && i - 17 in x))
    != (i >= 30 && i - 30 in x))
    != (i >= 17 && i - 10 in x))
    != (i >= 23 && i - 23 in x))
  }

  lemma StepBits(x: Word, i: nat)
    requires i < WIDTH
    ensures i in Step(x) <==> DrawnBit(x, i)
  {
    hide Left, Right;
    var l, r := Left(x, 13), Right(Left(x, 13), 7);
    LeftBits(r, 17, i);
    RightBits(l, 7, i);
    LeftBits(x, 13, i);
    if i + 7 < WIDTH {
      LeftBits(x, 13, i + 7);
    }
    if i >= 17 {
      RightBits(l, 7, i - 17);
      LeftBits(x, 13, i - 17);
      LeftBits(x, 13, i - 10);
    }
  }

  /** The first draw from seed 1 is 0x40822041. */
  lemma FirstDrawOfOne()
    ensures Step(UNIT) == {0, 6, 13, 17, 23, 30}
  {
    forall i | 0 <= i < 64 ensures i in Step(UNIT) <==> i in {0, 6, 13, 17, 23, 30} {
      StepBits(UNIT, i);
    }
  }

  ghost predicate Balanced(x: Word, i: nat) {
    DrawnBit(x, i) == (i in x)
  }

  /** What a draw that changes nothing says about the bits of its state: bits 0 to 6 determine all others. */
  ghost predicate Fixed(x: Word) {
    forall i :: 0 <= i < 64 ==> Balanced(x, i)
  }

  lemma FixedBits7To27(x: Word)
    requires Fixed(x)
    ensures 7 !in x && 8 !in x && 9 !in x && 10 !in x && 11 !in x && 12 !in x && (13 in x) == (0 in x) && (14 in x) == (1 in x)
    ensures (15 in x) == (2 in x) && (16 in x) == (3 in x) && (17 in x) == (4 in x) && (18 in x) == (5 in x)
    ensures (19 in x) == (6 in x) && (20 in x) == (0 in x) && (21 in x) == (1 in x) && (22 in x) == (2 in x)
    ensures (23 in x) == (3 in x) && (24 in x) == ((0 in x) != (4 in x)) && (25 in x) == ((1 in x) != (5 in x))
    ensures (26 in x) == (((0 in x) != (2 in x)) != (6 in x)) && (27 in x) == ((1 in x) != (3 in x))
  {
    assert Balanced(x, 0) && Balanced(x, 1) && Balanced(x, 2) && Balanced(x, 3) && Balanced(x, 4) && Balanced(x, 5) && Balanced(x, 6);
    assert Balanced(x, 7) && Balanced(x, 8) && Balanced(x, 9) && Balanced(x, 10) && Balanced(x, 11) && Balanced(x, 12) && Balanced(x, 13);
    assert Balanced(x, 14) && Balanced(x, 15) && Balanced(x, 16) && Balanced(x, 17) && Balanced(x, 18) && Balanced(x, 19) && Balanced(x, 20);
  }

  lemma FixedBits28To43(x: Word)
    requires Fixed(x)
    ensures (28 in x) == ((2 in x) != (4 in x)) && (29 in x) == ((3 in x) != (5 in x)) && (30 in x) == ((4 in x) != (6 in x))
    ensures (31 in x) == (5 in x) && (32 in x) == (6 in x) && 33 !in x && 34 !in x && 35 !in x && 36 !in x && 37 !in x
    ensures 38 !in x && (39 in x) == (0 in x) && (40 in x) == ((0 in x) != (1 in x))
    ensures (41 in x) == (((0 in x) != (1 in x)) != (2 in x)) && (42 in x) == (((1 in x) != (2 in x)) != (3 in x))
    ensures (43 in x) == (((2 in x) != (3 in x)) != (4 in x))
  {
    FixedBits7To27(x);
    assert Balanced(x, 21) && Balanced(x, 22) && Balanced(x, 23) && Balanced(x, 24) && Balanced(x, 25) && Balanced(x, 26) && Balanced(x, 27);
    assert Balanced(x, 28) && Balanced(x, 29) && Balanced(x, 30) && Balanced(x, 31) && Balanced(x, 32) && Balanced(x, 33) && Balanced(x, 34);
    assert Balanced(x, 35) && Balanced(x, 36);
  }

  lemma FixedBits44To53(x: Word)
    requires Fixed(x)
    ensures (44 in x) == (((3 in x) != (4 in x)) != (5 in x)) && (45 in x) == (((4 in x) != (5 in x)) != (6 in x))
    ensures (46 in x) == (((0 in x) != (5 in x)) != (6 in x)) && (47 in x) == ((1 in x) != (6 in x))
    ensures (48 in x) == ((0 in x) != (2 in x)) && (49 in x) == ((1 in x) != (3 in x))
    ensures (50 in x) == (((0 in x) != (2 in x)) != (4 in x)) && (51 in x) == (((1 in x) != (3 in x)) != (5 in x))
    ensures (52 in x) == ((((0 in x) != (2 in x)) != (4 in x)) != (6 in x))
    ensures (53 in x) == ((((0 in x) != (1 in x)) != (3 in x)) != (5 in x))
  {
    FixedBits7To27(x);
    FixedBits28To43(x);
    assert Balanced(x, 37) && Balanced(x, 38) && Balanced(x, 39) && Balanced(x, 40) && Balanced(x, 41) && Balanced(x, 42) && Balanced(x, 43);
    assert Balanced(x, 44) && Balanced(x, 45) && Balanced(x, 46);
  }

  lemma FixedBits54To63(x: Word)
    requires Fixed(x)
    ensures (54 in x) == ((((1 in x) != (2 in x)) != (4 in x)) != (6 in x)) && (55 in x) == (((2 in x) != (3 in x)) != (5 in x))
    ensures (56 in x) == (((3 in x) != (4 in x)) != (6 in x)) && (57 in x) == ((4 in x) != (5 in x))
    ensures (58 in x) == (((0 in x) != (5 in x)) != (6 in x)) && (59 in x) == ((1 in x) != (6 in x))
    ensures (60 in x) == ((0 in x) != (2 in x)) && (61 in x) == (((0 in x) != (1 in x)) != (3 in x))
    ensures (62 in x) == (((1 in x) != (2 in x)) != (4 in x)) && (63 in x) == (((2 in x) != (3 in x)) != (5 in x))
  {
    FixedBits7To27(x);
    FixedBits28To43(x);
    FixedBits44To53(x);
    assert Balanced(x, 47) && Balanced(x, 48) && Balanced(x, 49) && Balanced(x, 50) && Balanced(x, 51) && Balanced(x, 52) && Balanced(x, 53);
    assert Balanced(x, 54) && Balanced(x, 55) && Balanced(x, 56);
  }

  /** No draw repeats its state: the seven last bits leave no choice for the seven first ones. */
  lemma NoFixedPoint(x: Word)
    requires Step(x) == x
    ensures x == ZERO
  {
    hide Step;
    forall i | 0 <= i < 64 ensures Balanced(x, i) {
      StepBits(x, i);
    }
    FixedBits7To27(x);
    FixedBits28To43(x);
    FixedBits44To53(x);
    FixedBits54To63(x);
    assert Balanced(x, 57) && Balanced(x, 58) && Balanced(x, 59) && Balanced(x, 60) && Balanced(x, 61) && Balanced(x, 62) && Balanced(x, 63);
    assert 0 !in x && 1 !in x && 2 !in x && 3 !in x && 4 !in x && 5 !in x && 6 !in x;
  }

  function Seeded(seed: Word): (s: Word)
    ensures s != ZERO && s == if seed == {} then {0} else seed
  {
    if seed == ZERO then UNIT else seed
  }

  class Rng {
    var state: Word

    constructor (seed: Word)
      ensures state == Seeded(seed)
    {
      state := if seed == ZERO then UNIT else seed;
    }

    method NextU64() returns (x: Word)
      modifies this
      ensures x == state == Step(old(state))
      ensures forall i :: 0 <= i < 64 ==> (i in state <==> DrawnBit(old(state), i))
      ensures old(state) != ZERO ==> state != ZERO
    {
      StepKeepsNonZero(state);
      forall i | 0 <= i < 64 ensures i in Step(state) <==> DrawnBit(state, i) {
        StepBits(state, i);
      }
      x := state;
      x := Xor(x, Shl(x, 13));
      x := Xor(x, Shr(x, 7));
      x := Xor(x, Shl(x, 17));
      state := x;
    }
  }

  // ----- runs of draws -----

  /** The state after `n` draws. */
  function After(n: nat, s: Word): Word {
    if n == 0 then s else Step(After(n - 1, s))
  }

  /** Whatever the seed, no draw yields zero, from which the generator could never move on. */
  lemma {:induction false} NeverZero(n: nat, seed: Word)
    ensures After(n, Seeded(seed)) != ZERO
  {
    hide Step;
    if n > 0 {
      NeverZero(n - 1, seed);
      StepKeepsNonZero(After(n - 1, Seeded(seed)));
    }
  }

  /** Whatever the seed, no two draws in a row are the same. */
  lemma ConsecutiveDrawsDiffer(n: nat, seed: Word)
    ensures After(n + 1, Seeded(seed)) != After(n, Seeded(seed))
  {
    hide Step;
    NeverZero(n, seed);
    if After(n + 1, Seeded(seed)) == After(n, Seeded(seed)) {
      NoFixedPoint(After(n, Seeded(seed)));
      assert false;
    }
  }

  lemma {:induction false} NeverMerges(n: nat, s: Word, t: Word)
    requires After(n, s) == After(n, t)
    ensures s == t
  {
    hide Step;
    if n > 0 {
      StepInjective(After(n - 1, s), After(n - 1, t));
      NeverMerges(n - 1, s, t);
    }
  }

  lemma {:induction false} AfterSplits(m: nat, n: nat, s: Word)
    ensures After(n, After(m, s)) == After(m + n, s)
  {
    hide Step;
    if n > 0 {
      AfterSplits(m, n - 1, s);
    }
  }

  /** A repeated state means that the run has come full circle: the first state to come back is the initial one. */
  lemma {:induction false} RepeatsOnlyThroughStart(i: nat, j: nat, s: Word)
    requires i <= j && After(i, s) == After(j, s)
    ensures After(j - i, s) == s
  {
    hide Step;
    AfterSplits(j - i, i, s);
    NeverMerges(i, After(j - i, s), s);
  }
}
