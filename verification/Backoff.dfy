/** The retry backoff (iot_util_generator_backoff in iot_util.c). */
module Backoff {
  import opened Bytes
  import opened Arithmetic

  /** A 32-bit product by 1000. */
  function Millis(seconds: nat): (ms: nat)
    ensures ms < TWO_TO_THE_32
  {
    seconds * 1000 % TWO_TO_THE_32
  }

  /** The 32-bit counter after t doublings. */
  function Doubled(t: nat): (n: nat)
    ensures n < TWO_TO_THE_32
  {
    Pow2(t) % TWO_TO_THE_32
  }

  /** Doubling the counter t times has reached the maximum. */
  predicate Reached(t: nat, maximum: uint32) {
    Millis(Doubled(t)) >= Millis(maximum)
  }

  /** What the code returns, in 32-bit arithmetic. */
  ghost function Delay(t: nat, maximum: uint32, random: nat): nat {
    if exists i | 1 <= i <= t :: Reached(i, maximum) then Millis(maximum)
    else (Millis(Doubled(t)) + random % 1000) % TWO_TO_THE_32
  }

  lemma Doubling(i: nat)
    ensures Doubled(0) == 1 && Doubled(i + 1) == Doubled(i) * 2 % TWO_TO_THE_32
  {
    assert Pow2(0) == 1 && Pow2(i + 1) == 2 * Pow2(i);
  }

  /** iot_util_generator_backoff; random is what iot_bsp_random returns. */
  method Generate(tryCount: nat, maximum: uint32, random: nat) returns (ms: nat)
    ensures ms == Delay(tryCount, maximum, random)
  {
    hide Doubled, Pow2;
    var backoff := 1;
    var i := 0;
    Doubling(0);
    while i < tryCount
      invariant 0 <= i <= tryCount && backoff == Doubled(i)
      invariant forall k | 1 <= k <= i :: !Reached(k, maximum)
    {
      Doubling(i);
      backoff := backoff * 2 % TWO_TO_THE_32;
      i := i + 1;
      if backoff * 1000 % TWO_TO_THE_32 >= maximum as int * 1000 % TWO_TO_THE_32 {
        assert Reached(i, maximum);
        return maximum as int * 1000 % TWO_TO_THE_32;
      }
    }
    backoff := backoff * 1000 % TWO_TO_THE_32;
    backoff := (backoff + random % 1000) % TWO_TO_THE_32;
    return backoff;
  }

  /** The intended delay: doubling from one second, with jitter, up to the maximum. */
  function Intended(t: nat, maximum: nat, random: nat): (ms: nat) {
    if t >= 1 && Pow2(t) >= maximum then maximum * 1000 else Pow2(t) * 1000 + random % 1000
  }

  /** With a maximum of 64 seconds: one, two, four, eight, 16 and 32 seconds with jitter, then 64. */
  lemma SixRetries(t: nat, random: nat)
    ensures Intended(t, 64, random) == if t < 6 then [1, 2, 4, 8, 16, 32][t] * 1000 + random % 1000 else 64000
  {
    assert Pow2(3) == 8 && Pow2(6) == 64;
    if t >= 6 {
      Pow2Grows(6, t);
    }
  }

  lemma {:induction false} Pow2Grows(a: nat, b: nat)
    requires a <= b
    ensures 1 <= Pow2(a) <= Pow2(b)
    ensures a < b ==> 2 * Pow2(a) <= Pow2(b)
  {
    if a < b {
      Pow2Grows(a, b - 1);
    } else if a > 0 {
      Pow2Grows(a - 1, a - 1);
    }
  }

  const LARGEST: int := 0x40_0000

  lemma Pow2Of22()
    ensures Pow2(22) == LARGEST && Pow2(23) == 2 * LARGEST
  {
    Pow2Sum(4, 4);
    Pow2Sum(8, 8);
    Pow2Sum(16, 6);
    assert Pow2(4) == 16 && Pow2(6) == 64;
  }

  /** Up to 2^22 seconds no product overflows before the maximum is reached. */
  lemma ReachedInTime(t: nat, maximum: uint32)
    requires maximum <= LARGEST && t <= 22
    ensures Reached(t, maximum) == (Pow2(t) >= maximum)
  {
    hide Pow2;
    Pow2Of22();
    Pow2Grows(t, 22);
    assert Pow2(t) * 1000 < TWO_TO_THE_32;
  }

  lemma DelayIsIntended(t: nat, maximum: uint32, random: nat)
    requires maximum <= LARGEST
    ensures Delay(t, maximum, random) == Intended(t, maximum, random)
  {
    hide Pow2, Reached;
    Pow2Of22();
    assert Millis(maximum) == maximum * 1000;
    if t >= 1 && Pow2(t) >= maximum {
      var i := if t <= 22 then t else 22;
      ReachedInTime(i, maximum);
    } else {
      if t >= 22 {
        Pow2Grows(22, t);
      }
      Pow2Grows(t, 22);
      forall i | 1 <= i <= t ensures !Reached(i, maximum) {
        Pow2Grows(i, t);
        ReachedInTime(i, maximum);
      }
      assert Doubled(t) == Pow2(t) && Millis(Doubled(t)) == Pow2(t) * 1000;
    }
  }

  /** Beyond 2^22 seconds the product overflows at the 23rd try, which then comes out below the
      maximum and below what the 22nd can be. */
  lemma OverflowsBeyond(maximum: uint32, random: nat)
    requires LARGEST < maximum && maximum * 1000 < TWO_TO_THE_32
    ensures Delay(23, maximum, random) == 4093640704 + random % 1000
    ensures Intended(23, maximum, random) == maximum * 1000 > Delay(23, maximum, random)
    ensures Delay(22, maximum, random) == 4194304000 + random % 1000 > Delay(23, maximum, random)
  {
    hide Pow2;
    Pow2Of22();
    forall i | 1 <= i <= 23 ensures !Reached(i, maximum) {
      if i <= 22 {
        Pow2Grows(i, 22);
      }
    }
    assert Pow2(22) * 1000 == 4194304000;
  }

  /** From 2^32 milliseconds on the maximum is more than any delay that is returned. */
  lemma TooMuchFor32Bits(maximum: uint32)
    requires maximum * 1000 >= TWO_TO_THE_32
    ensures Intended(32, maximum, 0) == maximum * 1000 > Delay(32, maximum, 0)
  {
    hide Pow2;
    Pow2Sum(16, 16);
    Pow2Sum(8, 8);
    Pow2Of8();
  }

  lemma Pow2Of8()
    ensures Pow2(8) == 256
  {
    Pow2Sum(4, 4);
    assert Pow2(4) == 16;
  }

  /** The code meets the intention for every try count and random value if and only if the maximum
      is at most 2^22 seconds. */
  lemma IntendedIffSmall(maximum: uint32)
    ensures (forall t, random :: Delay(t, maximum, random) == Intended(t, maximum, random)) <==> maximum <= LARGEST
  {
    if maximum <= LARGEST {
      forall t, random ensures Delay(t, maximum, random) == Intended(t, maximum, random) {
        DelayIsIntended(t, maximum, random);
      }
    } else if maximum * 1000 < TWO_TO_THE_32 {
      OverflowsBeyond(maximum, 0);
    } else {
      TooMuchFor32Bits(maximum);
    }
  }

  /** Retries are never more than the maximum apart, and the delay never falls as the try count
      grows, whatever the random values. */
  lemma NeverFalls(t: nat, u: nat, maximum: uint32, random: nat, random': nat)
    requires 2 <= maximum <= LARGEST && t < u
    ensures Delay(t, maximum, random) <= Delay(u, maximum, random') <= maximum * 1000
  {
    hide Pow2, Delay;
    DelayIsIntended(t, maximum, random);
    DelayIsIntended(u, maximum, random');
    Pow2Grows(t, u);
    StartsAtOne();
  }

  lemma AtLeastASecond(t: nat, maximum: nat, random: nat)
    requires 2 <= maximum
    ensures Intended(t, maximum, random) >= 1000
  {
    Pow2Grows(0, t);
  }

  lemma StartsAtOne()
    ensures Pow2(0) == 1
  {
  }
}
