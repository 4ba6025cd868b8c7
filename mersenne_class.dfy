/**
 * `CRandomMersenne` of testp/TestScripts/shufflelist.cpp as the object the source declares: the
 * state vector `mt[MERS_N]` updated in place and the index `mti`. Each method is proved to take
 * the object from state `Abs()` to the state the matching function of `MersenneTwister`
 * computes.
 */
module MersenneClass {
  import opened Bits
  import opened MersenneTwister

  /**
   * The loop `mt[kk] = mt[kk + MERS_M] ^ ...` (for `kk < MERS_N - MERS_M`) or
   * `mt[kk] = mt[kk + (MERS_M - MERS_N)] ^ ...` (after it), run for `kk` from `from` to `to`,
   * on a vector whose words below `from` are already new and the others still old.
   */
  method TwistWords(mt: array<bv32>, ghost o: seq<bv32>, from: nat, to: nat)
    requires mt.Length == MERS_N && |o| == MERS_N && from <= to < MERS_N
    requires forall k :: 0 <= k < from ==> mt[k] == NewWord(o, k)
    requires forall k :: from <= k < MERS_N ==> mt[k] == o[k]
    modifies mt
    ensures forall k :: 0 <= k < to ==> mt[k] == NewWord(o, k)
    ensures forall k :: to <= k < MERS_N ==> mt[k] == o[k]
  {
    var kk := from;
    while kk < to
      invariant from <= kk <= to
      invariant forall k :: 0 <= k < kk ==> mt[k] == NewWord(o, k)
      invariant forall k :: kk <= k < MERS_N ==> mt[k] == o[k]
    {
      TwistWord(mt, o, kk);
      kk := kk + 1;
    }
  }

  /** One pass of either loop: word `kk` replaced by its new value. */
  method TwistWord(mt: array<bv32>, ghost o: seq<bv32>, kk: nat)
    requires mt.Length == MERS_N && |o| == MERS_N && kk < MERS_N - 1
    requires forall k :: 0 <= k < kk ==> mt[k] == NewWord(o, k)
    requires forall k :: kk <= k < MERS_N ==> mt[k] == o[k]
    modifies mt
    ensures forall k :: 0 <= k <= kk ==> mt[k] == NewWord(o, k)
    ensures forall k :: kk < k < MERS_N ==> mt[k] == o[k]
  {
    var w;
    if kk < MERS_N - MERS_M {
      w := Twist(mt[kk + MERS_M], mt[kk], mt[kk + 1]);
    } else {
      assert mt[kk - (MERS_N - MERS_M)] == NewWord(o, kk - (MERS_N - MERS_M));
      w := Twist(mt[kk - (MERS_N - MERS_M)], mt[kk], mt[kk + 1]);
    }
    assert w == NewWord(o, kk);
    mt[kk] := w;
  }

  /** The regeneration block of `BRandom`: its two loops and the last word. */
  method Regenerate(mt: array<bv32>)
    requires mt.Length == MERS_N
    modifies mt
    ensures mt[..] == Regenerated(old(mt[..]))
  {
    ghost var o := mt[..];
    TwistWords(mt, o, 0, MERS_N - MERS_M);
    TwistWords(mt, o, MERS_N - MERS_M, MERS_N - 1);
    assert mt[MERS_M - 1] == NewWord(o, MERS_M - 1) && mt[0] == NewWord(o, 0);
    var w := Twist(mt[MERS_M - 1], mt[MERS_N - 1], mt[0]);
    assert w == NewWord(o, MERS_N - 1);
    mt[MERS_N - 1] := w;
  }

  class CRandomMersenne {
    /** `unsigned int mt[MERS_N]`. */
    const mt: array<bv32>
    var mti: int

    function Abs(): Gen
      reads this, mt
    {
      Gen(mt[..], mti)
    }

    ghost predicate Inv()
      reads this, mt
    {
      mt.Length == MERS_N && Valid(Abs())
    }

    /** `CRandomMersenne(seed)`: `RandomInit(seed)`. */
    constructor (seed: int)
      ensures Inv() && Abs() == MersenneTwister.RandomInit(seed) && fresh(mt)
    {
      mt := new bv32[MERS_N];
      mti := 0;
      new;
      RandomInit(seed);
    }

    /** `Init0(seed)`; each new word is `InitStep` of the one before it. */
    method Init0(seed: int)
      requires mt.Length == MERS_N
      modifies this, mt
      ensures Inv() && Abs() == MersenneTwister.Init0(seed)
    {
      mt[0] := Unsigned32(seed) as bv32;
      ghost var s := mt[0];
      mti := 1;
      while mti < MERS_N
        invariant 1 <= mti <= MERS_N
        invariant forall k :: 0 <= k < mti ==> mt[k] == InitWord(s, k)
      {
        var w := InitStep(mt[mti - 1], mti);
        assert w == InitWord(s, mti);
        mt[mti] := w;
        mti := mti + 1;
      }
      assert mt[..] == MersenneTwister.Init0(seed).mt;
    }

    method RandomInit(seed: int)
      requires mt.Length == MERS_N
      modifies this, mt
      ensures Inv() && Abs() == MersenneTwister.RandomInit(seed)
    {
      Init0(seed);
      var i := 0;
      while i < 37
        invariant 0 <= i <= 37 && Inv()
        invariant Draws(MersenneTwister.Init0(seed), i).0 == Abs()
      {
        var _ := BRandom();
        DrawsStep(MersenneTwister.Init0(seed), i);
        i := i + 1;
      }
    }

    method BRandom() returns (y: bv32)
      requires Inv()
      modifies this, mt
      ensures Inv()
      ensures (Abs(), y) == MersenneTwister.BRandom(old(Abs()))
    {
      if mti >= MERS_N {
        Regenerate(mt);
        mti := 0;
      }
      y := mt[mti];
      mti := mti + 1;
      y := TemperU(y);
      y := TemperS(y);
      y := TemperT(y);
      y := TemperL(y);
    }
  }
}
