/**
 * The 32-bit wrapped range of <linux/wrange.h>: two u32 bounds `start` and
 * `end` describing the values met when walking the mod-2^32 circle clockwise
 * (by incrementing, with U32_MAX followed by 0) from `start` to `end`, both
 * included. `end < start` is allowed and means the walk passes U32_MAX.
 * The six accessors derive the wrap tests and the min/max bounds under the
 * unsigned and the signed reading of the same bits.
 */
module WRange {
  import opened Limits

  /** `struct wrange32`; no order between the bounds is required. */
  datatype WRange32 = WRange32(start: U32, end: U32)

  /** Clockwise distance from `start` to `end`: one less than the number of values on the arc. */
  function Width(w: WRange32): (n: nat)
    ensures n <= U32_MAX
    ensures (w.start + n) % MODULUS == w.end
  {
    (w.end - w.start) % MODULUS
  }

  /** `v` lies on the arc that runs clockwise from `start` to `end`, inclusive. */
  predicate Contains(w: WRange32, v: U32)
  {
    (v - w.start) % MODULUS <= Width(w)
  }

  // ---------------------------------------------------------------------------
  // The six accessors
  // ---------------------------------------------------------------------------

  /** `wrange32_uwrapping`: the range wraps under the unsigned reading. */
  predicate UWrapping(w: WRange32)
  {
    w.end < w.start
  }

  /** `wrange32_umin`: never above either bound, both of which are on the arc. */
  function UMin(w: WRange32): (r: U32)
    ensures r <= w.start && r <= w.end
  {
    if UWrapping(w) then U32_MIN else w.start
  }

  /** `wrange32_umax`: never below either bound. */
  function UMax(w: WRange32): (r: U32)
    ensures w.start <= r && w.end <= r
  {
    if UWrapping(w) then U32_MAX else w.end
  }

  /** `wrange32_swrapping`: the range wraps under the two's-complement reading. */
  predicate SWrapping(w: WRange32)
  {
    ToS32(w.end) < ToS32(w.start)
  }

  /** `wrange32_smin`: never above either bound read as signed. */
  function SMin(w: WRange32): (r: S32)
    ensures r <= ToS32(w.start) && r <= ToS32(w.end)
  {
    if SWrapping(w) then S32_MIN else ToS32(w.start)
  }

  /** `wrange32_smax`: never below either bound read as signed. */
  function SMax(w: WRange32): (r: S32)
    ensures ToS32(w.start) <= r && ToS32(w.end) <= r
  {
    if SWrapping(w) then S32_MAX else ToS32(w.end)
  }

  // ---------------------------------------------------------------------------
  // The arc as a walk: an independent definition of Contains
  // ---------------------------------------------------------------------------

  /** The values visited by `n` increments from `x`, `x` itself first. */
  function Walk(x: U32, n: nat): (s: seq<U32>)
    ensures |s| == n + 1
    ensures s[0] == x && s[n] == (x + n) % MODULUS
    decreases n
  {
    if n == 0 then [x] else SuccShift(x, n - 1); [x] + Walk(Succ(x), n - 1)
  }

  /** Stepping once and then `k` more times ends where `k + 1` steps do. */
  lemma SuccShift(x: U32, k: nat)
    ensures (Succ(x) + k) % MODULUS == (x + 1 + k) % MODULUS
  {
    if x == U32_MAX {
      assert Succ(x) == 0;
      assert x + 1 + k == k + MODULUS;
    }
  }

  /** Every value of the range, in the order a walk from `start` to `end` meets them. */
  function Arc(w: WRange32): (s: seq<U32>)
    ensures |s| == Width(w) + 1
    ensures s[0] == w.start && s[|s| - 1] == w.end
  {
    Walk(w.start, Width(w))
  }

  /** One increment brings a walk one step closer to every value other than its origin. */
  lemma SuccDistance(x: U32, v: U32)
    requires v != x
    ensures (v - Succ(x)) % MODULUS == (v - x) % MODULUS - 1
  {
    ModDifference(v - x);
    if x == U32_MAX {
      assert Succ(x) == 0;
    } else {
      assert Succ(x) == x + 1;
      ModDifference(v - (x + 1));
    }
  }

  /** A walk of `n` steps from `x` meets exactly the values at clockwise distance at most `n`. */
  lemma {:induction false} WalkMembers(x: U32, n: nat, v: U32)
    requires n <= U32_MAX
    ensures v in Walk(x, n) <==> (v - x) % MODULUS <= n
    decreases n
  {
    ModDifference(v - x);
    if n > 0 {
      WalkMembers(Succ(x), n - 1, v);
      if v != x {
        SuccDistance(x, v);
      }
    }
  }

  /** The modular definition of Contains agrees with walking the arc. */
  lemma ContainsIsOnArc(w: WRange32, v: U32)
    ensures Contains(w, v) <==> v in Arc(w)
  {
    WalkMembers(w.start, Width(w), v);
  }

  /** Without unsigned wrap the arc is the ordinary interval; with it, the two ends of the domain. */
  lemma ContainsCases(w: WRange32, v: U32)
    ensures !UWrapping(w) ==> (Contains(w, v) <==> w.start <= v <= w.end)
    ensures UWrapping(w) ==> (Contains(w, v) <==> w.start <= v || v <= w.end)
  {
    ModDifference(v - w.start);
    ModDifference(w.end - w.start);
  }

  // ---------------------------------------------------------------------------
  // Unsigned bounds
  // ---------------------------------------------------------------------------

  /** The unsigned accessors by cases, and their order. */
  lemma UnsignedBounds(w: WRange32)
    ensures !UWrapping(w) ==> UMin(w) == w.start && UMax(w) == w.end
    ensures UWrapping(w) ==> UMin(w) == U32_MIN && UMax(w) == U32_MAX
    ensures UMin(w) <= UMax(w)
  {
  }

  /** Unsigned soundness: every value on the arc lies within [UMin, UMax]. */
  lemma UnsignedSound(w: WRange32, v: U32)
    requires Contains(w, v)
    ensures UMin(w) <= v <= UMax(w)
  {
    ContainsCases(w, v);
  }

  /** The unsigned bounds are exact: both are values on the arc. */
  lemma UnsignedTight(w: WRange32)
    ensures Contains(w, UMin(w)) && Contains(w, UMax(w))
  {
    ContainsCases(w, UMin(w));
    ContainsCases(w, UMax(w));
  }

  /** Unsigned wrap means the walk steps from U32_MAX on to 0. */
  lemma UWrappingCrossesMax(w: WRange32)
    ensures UWrapping(w) <==> Contains(w, U32_MAX) && w.end != U32_MAX
  {
    ContainsCases(w, U32_MAX);
  }

  // ---------------------------------------------------------------------------
  // Signed bounds
  // ---------------------------------------------------------------------------

  /** The signed accessors by cases, and their order. */
  lemma SignedBounds(w: WRange32)
    ensures SWrapping(w) <==> ToS32(w.end) < ToS32(w.start)
    ensures SWrapping(w) ==> SMin(w) == S32_MIN && SMax(w) == S32_MAX
    ensures !SWrapping(w) ==> SMin(w) == ToS32(w.start) && SMax(w) == ToS32(w.end)
    ensures SMin(w) <= SMax(w)
  {
  }

  /** Signed soundness: every value on the arc, read as signed, lies within [SMin, SMax]. */
  lemma SignedSound(w: WRange32, v: U32)
    requires Contains(w, v)
    ensures SMin(w) <= ToS32(v) <= SMax(w)
  {
    ContainsCases(w, v);
    ToS32Order(w.start, v);
    ToS32Order(v, w.end);
    ToS32Order(w.start, w.end);
  }

  /** The signed bounds are exact: the patterns of both are values on the arc. */
  lemma SignedTight(w: WRange32)
    ensures Contains(w, ToU32(SMin(w))) && Contains(w, ToU32(SMax(w)))
  {
    ContainsCases(w, ToU32(SMin(w)));
    ContainsCases(w, ToU32(SMax(w)));
    ToS32Order(w.start, w.end);
  }

  /** Signed wrap means the walk steps from S32_MAX on to S32_MIN (0x7FFFFFFF to 0x80000000). */
  lemma SWrappingCrossesSignedMax(w: WRange32)
    ensures SWrapping(w) <==> Contains(w, S32_MAX) && w.end != S32_MAX
  {
    ContainsCases(w, S32_MAX);
    ToS32Order(w.start, w.end);
  }

  // ---------------------------------------------------------------------------
  // Particular ranges
  // ---------------------------------------------------------------------------

  /** A range with equal bounds holds one value, and every bound is that value. */
  lemma Degenerate(w: WRange32, v: U32)
    requires w.start == w.end
    ensures !UWrapping(w) && !SWrapping(w)
    ensures UMin(w) == UMax(w) == w.start
    ensures SMin(w) == SMax(w) == ToS32(w.start)
    ensures Contains(w, v) <==> v == w.start
  {
    ContainsCases(w, v);
  }

  /** From 0 to U32_MAX: every value, no unsigned wrap, the whole unsigned domain as bounds. */
  lemma FullDomain(v: U32)
    ensures Contains(WRange32(0, U32_MAX), v)
    ensures !UWrapping(WRange32(0, U32_MAX))
    ensures UMin(WRange32(0, U32_MAX)) == U32_MIN && UMax(WRange32(0, U32_MAX)) == U32_MAX
  {
  }

  /** Signed wrap without unsigned wrap: the arc from 0x7FFFFFFF to 0x80000000. */
  lemma SignedWrapOnly()
    ensures !UWrapping(WRange32(0x7FFF_FFFF, 0x8000_0000))
    ensures SWrapping(WRange32(0x7FFF_FFFF, 0x8000_0000))
    ensures UMin(WRange32(0x7FFF_FFFF, 0x8000_0000)) == 0x7FFF_FFFF
    ensures UMax(WRange32(0x7FFF_FFFF, 0x8000_0000)) == 0x8000_0000
    ensures SMin(WRange32(0x7FFF_FFFF, 0x8000_0000)) == S32_MIN
    ensures SMax(WRange32(0x7FFF_FFFF, 0x8000_0000)) == S32_MAX
  {
  }

  /** Unsigned wrap without signed wrap: the arc from 0xFFFFFFFF to 0, i.e. from -1 to 0. */
  lemma UnsignedWrapOnly()
    ensures UWrapping(WRange32(0xFFFF_FFFF, 0))
    ensures !SWrapping(WRange32(0xFFFF_FFFF, 0))
    ensures UMin(WRange32(0xFFFF_FFFF, 0)) == U32_MIN && UMax(WRange32(0xFFFF_FFFF, 0)) == U32_MAX
    ensures SMin(WRange32(0xFFFF_FFFF, 0)) == -1 && SMax(WRange32(0xFFFF_FFFF, 0)) == 0
  {
  }
}
