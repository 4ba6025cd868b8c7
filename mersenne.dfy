/**
 * The Mersenne Twister of testp/TestScripts/shufflelist.cpp (`CRandomMersenne`, parameters
 * MT11213A) on values: the state is the word vector `mt[MERS_N]` and the index `mti`. Words are
 * `unsigned int`, so 32-bit bit-vectors, whose arithmetic wraps modulo 2^32 as the source's
 * does.
 */
module MersenneTwister {
  import opened Bits

  const MERS_N := 351
  const MERS_M := 175
  const MERS_R := 19
  const MERS_A: bv32 := 0xE4BD75F5
  const MERS_B: bv32 := 0x655E5280
  const MERS_C: bv32 := 0xFFD58000

  /** `(1LU << MERS_R) - 1`: the lower `MERS_R` bits. */
  const LowerMask: bv32 := (1 << MERS_R) - 1
  /** `0xFFFFFFFF << MERS_R`: the upper `32 - MERS_R` bits. */
  const UpperMask: bv32 := 0xFFFF_FFFF << MERS_R

  /** `mag01[y & 1]` of `y >> 1`: the twist of `(a & UPPER_MASK) | (b & LOWER_MASK)`. */
  function Mix(a: bv32, b: bv32): bv32 {
    var y := (a & UpperMask) | (b & LowerMask);
    (y >> 1) ^ (if y & 1 == 0 then 0 else MERS_A)
  }

  /** The new word `x ^ (y >> 1) ^ mag01[y & 1]` for the old words `a` and `b`. */
  function Twist(x: bv32, a: bv32, b: bv32): bv32 {
    x ^ Mix(a, b)
  }

  /**
   * Word `k` after the regeneration block of `BRandom`, from the old words `o`. The first loop
   * (`k < MERS_N - MERS_M`) reads words that are still old at `k + MERS_M`; the second reads
   * `k + (MERS_M - MERS_N)`, which it has already replaced; the last word takes the new
   * `mt[MERS_M - 1]` and the new `mt[0]`.
   */
  function NewWord(o: seq<bv32>, k: nat): bv32
    requires |o| == MERS_N && k < MERS_N
  {
    if k < MERS_N - MERS_M then Twist(o[k + MERS_M], o[k], o[k + 1])
    else if k < MERS_N - 1 then Twist(NewWord(o, k - (MERS_N - MERS_M)), o[k], o[k + 1])
    else Twist(NewWord(o, MERS_M - 1), o[k], NewWord(o, 0))
  }

  /** The state vector after the regeneration block. */
  function Regenerated(o: seq<bv32>): (n: seq<bv32>)
    requires |o| == MERS_N
    ensures |n| == MERS_N && forall k :: 0 <= k < MERS_N ==> n[k] == NewWord(o, k)
  {
    seq(MERS_N, k requires 0 <= k < MERS_N => NewWord(o, k))
  }

  /** Word `i` of the stream the generator defines: the old vector, then the new one. */
  function Stream(o: seq<bv32>, n: seq<bv32>, i: nat): bv32
    requires |o| == MERS_N && |n| == MERS_N && i < 2 * MERS_N
  {
    if i < MERS_N then o[i] else n[i - MERS_N]
  }

  /**
   * The linear recurrence of the Mersenne Twister, `x[k + N] = x[k + M] ^ twist(x[k], x[k + 1])`,
   * relating the old state vector `o` to `n`, the next one.
   */
  ghost predicate Recurrence(o: seq<bv32>, n: seq<bv32>)
    requires |o| == MERS_N && |n| == MERS_N
  {
    forall k :: 0 <= k < MERS_N ==>
      Stream(o, n, k + MERS_N) == Twist(Stream(o, n, k + MERS_M), Stream(o, n, k), Stream(o, n, k + 1))
  }

  /** The three loops of the regeneration block compute the recurrence. */
  lemma RegeneratedRecurrence(o: seq<bv32>)
    requires |o| == MERS_N
    ensures Recurrence(o, Regenerated(o))
  {
    var n := Regenerated(o);
    forall k | 0 <= k < MERS_N
      ensures Stream(o, n, k + MERS_N) == Twist(Stream(o, n, k + MERS_M), Stream(o, n, k), Stream(o, n, k + 1))
    {
      if k < MERS_N - MERS_M {
        assert Stream(o, n, k + MERS_M) == o[k + MERS_M];
      } else if k < MERS_N - 1 {
        assert Stream(o, n, k + MERS_M) == n[k - (MERS_N - MERS_M)];
      } else {
        assert Stream(o, n, k + MERS_M) == n[MERS_M - 1];
        assert Stream(o, n, k + 1) == n[0];
      }
    }
  }

  /** The recurrence leaves no choice: the regeneration block is the only vector that meets it. */
  lemma {:induction false} RecurrenceDetermines(o: seq<bv32>, n: seq<bv32>)
    requires |o| == MERS_N && |n| == MERS_N && Recurrence(o, n)
    ensures n == Regenerated(o)
  {
    forall k | 0 <= k < MERS_N
      ensures n[k] == NewWord(o, k)
    {
      RecurrenceAt(o, n, k);
    }
  }

  lemma {:induction false} RecurrenceAt(o: seq<bv32>, n: seq<bv32>, k: nat)
    requires |o| == MERS_N && |n| == MERS_N && Recurrence(o, n) && k < MERS_N
    ensures n[k] == NewWord(o, k)
    decreases k
  {
    RecurrenceStep(o, n, k);
    if k < MERS_N - MERS_M {
    } else if k < MERS_N - 1 {
      RecurrenceAt(o, n, k - (MERS_N - MERS_M));
    } else {
      RecurrenceAt(o, n, MERS_M - 1);
      RecurrenceAt(o, n, 0);
    }
  }

  /** The recurrence at `k + MERS_N`, read off in terms of the two vectors. */
  lemma RecurrenceStep(o: seq<bv32>, n: seq<bv32>, k: nat)
    requires |o| == MERS_N && |n| == MERS_N && Recurrence(o, n) && k < MERS_N
    ensures n[k] == Twist(if k < MERS_N - MERS_M then o[k + MERS_M] else n[k - (MERS_N - MERS_M)],
                          o[k], if k < MERS_N - 1 then o[k + 1] else n[0])
  {
    assert Stream(o, n, k + MERS_N) == Twist(Stream(o, n, k + MERS_M), Stream(o, n, k), Stream(o, n, k + 1));
  }

  // The four tempering steps of `BRandom`.

  /** `y ^= y >> MERS_U`. */
  function TemperU(y: bv32): bv32 { y ^ (y >> 11) }
  /** `y ^= (y << MERS_S) & MERS_B`. */
  function TemperS(y: bv32): bv32 { y ^ ((y << 7) & MERS_B) }
  /** `y ^= (y << MERS_T) & MERS_C`. */
  function TemperT(y: bv32): bv32 { y ^ ((y << 15) & MERS_C) }
  /** `y ^= y >> MERS_L`. */
  function TemperL(y: bv32): bv32 { y ^ (y >> 17) }

  /** The output word for state word `y`. */
  function Temper(y: bv32): bv32 {
    TemperL(TemperT(TemperS(TemperU(y))))
  }

  /** `factor * (w ^ (w >> 30)) + k` modulo 2^32: word `k` of `Init0` from word `k - 1`. */
  function InitStep(w: bv32, k: nat): bv32
    requires k < MERS_N
  {
    1812433253 * (w ^ (w >> 30)) + (k as bv32)
  }

  /** Word `k` of the vector `Init0(seed)` fills in. */
  function InitWord(seed: bv32, k: nat): bv32
    requires k < MERS_N
  {
    if k == 0 then seed else InitStep(InitWord(seed, k - 1), k)
  }

  /** The generator's state: the word vector and the index of the next word to deliver. */
  datatype Gen = Gen(mt: seq<bv32>, mti: int)

  /** `mti` stays in `[0, MERS_N]` and `mt` has its `MERS_N` words. */
  ghost predicate Valid(g: Gen) {
    |g.mt| == MERS_N && 0 <= g.mti <= MERS_N
  }

  /**
   * `Init0(seed)`: the seeded vector, with `mti == MERS_N` so that the next draw regenerates.
   * `mt[0] = seed` converts the `int` seed to `unsigned int`.
   */
  function Init0(seed: int): (g: Gen)
    ensures Valid(g) && g.mti == MERS_N
    ensures g.mt[0] == Unsigned32(seed) as bv32
    ensures forall k :: 1 <= k < MERS_N ==> g.mt[k] == InitStep(g.mt[k - 1], k)
  {
    var s := Unsigned32(seed) as bv32;
    Gen(seq(MERS_N, k requires 0 <= k < MERS_N => InitWord(s, k)), MERS_N)
  }

  /**
   * `BRandom()`: after regenerating the vector when all its words are used, the word at `mti`,
   * tempered, with `mti` moved past it.
   */
  function BRandom(g: Gen): (r: (Gen, bv32))
    requires Valid(g)
    ensures Valid(r.0) && 1 <= r.0.mti
    ensures g.mti < MERS_N ==> r.0.mt == g.mt && r.0.mti == g.mti + 1
    ensures g.mti >= MERS_N ==> Recurrence(g.mt, r.0.mt) && r.0.mti == 1
    ensures r.1 == Temper(r.0.mt[r.0.mti - 1])
  {
    var h := if g.mti >= MERS_N then Gen(Regenerated(g.mt), 0) else g;
    RegeneratedRecurrence(g.mt);
    (Gen(h.mt, h.mti + 1), Temper(h.mt[h.mti]))
  }

  /** `count` calls of `BRandom()` in a row: the state they leave and the words they return. */
  function Draws(g: Gen, count: nat): (r: (Gen, seq<bv32>))
    requires Valid(g)
    ensures Valid(r.0) && |r.1| == count
    decreases count
  {
    if count == 0 then (g, [])
    else
      var (h, y) := BRandom(g);
      var (h', ys) := Draws(h, count - 1);
      (h', [y] + ys)
  }

  /** One more draw after `count` of them. */
  lemma {:induction false} DrawsStep(g: Gen, count: nat)
    requires Valid(g)
    ensures Draws(g, count + 1).0 == BRandom(Draws(g, count).0).0
    decreases count
  {
    if count > 0 {
      DrawsStep(BRandom(g).0, count - 1);
    }
  }

  /**
   * Draws that stay within the current vector change only `mti` and deliver the words from
   * `mti` on, tempered, in order.
   */
  lemma DrawsInVector(g: Gen, count: nat)
    requires Valid(g) && g.mti + count <= MERS_N
    ensures Draws(g, count).0 == Gen(g.mt, g.mti + count)
    ensures forall i :: 0 <= i < count ==> Draws(g, count).1[i] == Temper(g.mt[g.mti + i])
  {
    DrawsKeepVector(g, count);
    DrawsWords(g, count);
    TemperedFromAt(g.mt, g.mti, count);
  }

  /** Draws within the vector only move the index; the vector stays as it is. */
  lemma {:induction false} DrawsKeepVector(g: Gen, count: nat)
    requires Valid(g) && g.mti + count <= MERS_N
    ensures Draws(g, count).0 == Gen(g.mt, g.mti + count)
    decreases count
  {
    if count > 0 {
      DrawInVector(g, count);
      DrawsKeepVector(Gen(g.mt, g.mti + 1), count - 1);
    }
  }

  /** The words `mt[a .. a + count)`, tempered, in order. */
  function TemperedFrom(mt: seq<bv32>, a: nat, count: nat): (ys: seq<bv32>)
    requires a + count <= |mt|
    ensures |ys| == count
    decreases count
  {
    if count == 0 then [] else [Temper(mt[a])] + TemperedFrom(mt, a + 1, count - 1)
  }

  /** Word `i` of `TemperedFrom(mt, a, count)` is `mt[a + i]`, tempered. */
  lemma {:induction false} TemperedFromAt(mt: seq<bv32>, a: nat, count: nat)
    requires a + count <= |mt|
    ensures forall i :: 0 <= i < count ==> TemperedFrom(mt, a, count)[i] == Temper(mt[a + i])
    decreases count
  {
    if count > 0 {
      TemperedFromAt(mt, a + 1, count - 1);
      var t := TemperedFrom(mt, a + 1, count - 1);
      forall i | 0 <= i < count
        ensures TemperedFrom(mt, a, count)[i] == Temper(mt[a + i])
      {
        if i > 0 {
          assert TemperedFrom(mt, a, count)[i] == t[i - 1];
        }
      }
    }
  }

  /** Draws within the vector return its next words, tempered, in order. */
  lemma {:induction false} DrawsWords(g: Gen, count: nat)
    requires Valid(g) && g.mti + count <= MERS_N
    ensures Draws(g, count).1 == TemperedFrom(g.mt, g.mti, count)
    decreases count
  {
    if count > 0 {
      DrawInVector(g, count);
      DrawsWords(Gen(g.mt, g.mti + 1), count - 1);
    }
  }

  /** The first of `count` draws within the vector, and the rest after it. */
  lemma DrawInVector(g: Gen, count: nat)
    requires Valid(g) && g.mti < MERS_N && count > 0
    ensures var h := Gen(g.mt, g.mti + 1);
      Draws(g, count) == (Draws(h, count - 1).0, [Temper(g.mt[g.mti])] + Draws(h, count - 1).1)
  {
    assert BRandom(g) == (Gen(g.mt, g.mti + 1), Temper(g.mt[g.mti]));
  }

  /**
   * `RandomInit(seed)`: `Init0(seed)` and 37 discarded draws. The first draw regenerates the
   * vector, so the generator is left with the regenerated seed vector and `mti == 37`.
   */
  function RandomInit(seed: int): (g: Gen)
    ensures Valid(g)
  {
    Draws(Init0(seed), 37).0
  }

  lemma RandomInitState(seed: int)
    ensures RandomInit(seed) == Gen(Regenerated(Init0(seed).mt), 37)
  {
    var g := Init0(seed);
    var h := BRandom(g).0;
    assert h == Gen(Regenerated(g.mt), 1);
    DrawsInVector(h, 36);
  }

  /** `0x80000000` returned as an `int`: the bit pattern of the smallest `int`. */
  const IntMin := -0x8000_0000

  /**
   * `IRandom(min, max)`, with the scaled random number it truncates given as `min + draw`:
   * `min` for an interval of one value, `0x80000000` for an empty one, and otherwise the draw,
   * cut down to `max` when it exceeds it.
   */
  function IRandom(min: int, max: int, draw: nat): (r: int)
    ensures max == min ==> r == min
    ensures max < min ==> r == IntMin
    ensures max > min ==> min <= r <= max
  {
    if max <= min then (if max == min then min else IntMin)
    else
      var r := min + draw;
      if r > max then max else r
  }

  /** Every value of a non-empty interval is the result of some draw. */
  lemma IRandomCovers(min: int, max: int, v: int)
    requires min <= v <= max
    ensures exists draw: nat :: IRandom(min, max, draw) == v
  {
    assert IRandom(min, max, v - min) == v;
  }
}
