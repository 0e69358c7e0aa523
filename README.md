# wrange32: the 32-bit wrapped range, in Dafny

This project models the kernel header `include/linux/wrange.h`. The header
defines `struct wrange32`: two `u32` bounds `start` and `end`, where
`end < start` is allowed. The range stands for the arc of the mod-2^32 circle
that runs clockwise from `start` to `end`, both included; when `end < start`
the arc passes `U32_MAX` and goes on from 0. Six accessors are derived from
the pair:

- `wrange32_uwrapping` (`UWrapping`): does the range wrap under the unsigned reading?
- `wrange32_umin`, `wrange32_umax` (`UMin`, `UMax`): the unsigned bounds. They widen to
  `U32_MIN`/`U32_MAX` when the range wraps.
- `wrange32_swrapping` (`SWrapping`): does the range wrap under the two's-complement reading?
- `wrange32_smin`, `wrange32_smax` (`SMin`, `SMax`): the signed bounds. They widen to
  `S32_MIN`/`S32_MAX` when the range wraps under that reading.

Layout:

- `limits.dfy`, module `Limits`: `u32` and `s32` as bounded integer ranges
  (`U32`, `S32`), the four limits, the modulus 2^32, and the C conversions
  `(s32)` (`ToS32`) and `(u32)` (`ToU32`) between the two readings of one bit pattern.
- `wrange.dfy`, module `WRange`: the datatype `WRange32`, the arc semantics
  `Contains`, the six accessors, and the lemmas about them.

The meaning of a range is given twice, and the two are proved equal:

- `Contains(w, v)` is modular: the clockwise distance from `start` to `v` is at most the one from `start` to `end`.
- `Arc(w)` is the sequence of values met by incrementing from `start`, with
  wrap-around, until `end` is reached.

The main results are soundness and exactness. Every value on the arc lies
within `[UMin, UMax]`, and read as signed within `[SMin, SMax]`. Each of the
four bounds is itself a value of the arc, so the accessors return the exact
minimum and maximum under each reading. Each wrap test holds exactly when the
walk steps across the boundary of its reading: from `U32_MAX` to 0 for
`UWrapping`, from `0x7FFFFFFF` to `0x80000000` for `SWrapping`.

In C, `wrange32_smin` and `wrange32_smax` return the `u32` field through an
`s32` return type (lines 63 and 70). That implicit conversion is the same
two's-complement reinterpretation as the explicit `(s32)` casts at line 55,
and the model writes it as `ToS32`.

## Model

| member | source | states |
|---|---|---|
| `Limits.ToS32` | include/linux/wrange.h:55 | the `(s32)` reading of a u32 has the same residue mod 2^32 as the pattern, and is negative exactly when the top bit is set (above S32_MAX) |
| `Limits.ToU32ToS32` | include/linux/wrange.h:55 | `ToU32(ToS32(x)) == x`: the two readings round-trip |
| `Limits.ToS32Order` | include/linux/wrange.h:55 | the signed comparison agrees with the unsigned one inside each half of the domain, and every top-bit-set pattern compares below every other |
| `WRange.Width` | include/linux/wrange.h:19-22 | the clockwise distance from start to end is below 2^32 and, added to start mod 2^32, reaches end |
| `WRange.UMin` | include/linux/wrange.h:40-45 | the unsigned minimum is at most both bounds |
| `WRange.UMax` | include/linux/wrange.h:47-52 | the unsigned maximum is at least both bounds |
| `WRange.SMin` | include/linux/wrange.h:59-64 | the signed minimum is at most both bounds read as signed |
| `WRange.SMax` | include/linux/wrange.h:66-71 | the signed maximum is at least both bounds read as signed |
| `WRange.Walk` | include/linux/wrange.h:19-22 | n increments from x give n + 1 values, starting at x and ending at x + n mod 2^32 |
| `WRange.Arc` | include/linux/wrange.h:4-6 | the walk from start to end has width + 1 values, starts at start and ends at end |
| `WRange.WalkMembers` | include/linux/wrange.h:19-22 | a walk of n steps from x meets v exactly when the clockwise distance from x to v is at most n |
| `WRange.ContainsIsOnArc` | include/linux/wrange.h:4-6 | v is in the range exactly when the walk from start to end meets it |
| `WRange.ContainsCases` | include/linux/wrange.h:4-6 | without unsigned wrap the range is the interval [start, end]; with it, the values at least start or at most end |
| `WRange.UnsignedBounds` | include/linux/wrange.h:36-52 | without wrap umin = start and umax = end; with wrap umin = U32_MIN and umax = U32_MAX; always umin <= umax |
| `WRange.UnsignedSound` | include/linux/wrange.h:40-52 | every value in the range lies within [umin, umax] |
| `WRange.UnsignedTight` | include/linux/wrange.h:40-52 | umin and umax are themselves in the range, so they are its exact unsigned minimum and maximum |
| `WRange.UWrappingCrossesMax` | include/linux/wrange.h:36-38 | unsigned wrap holds exactly when the range contains U32_MAX and goes on past it (end is not U32_MAX) |
| `WRange.SignedBounds` | include/linux/wrange.h:54-71 | swrapping holds iff end < start as signed; then smin = S32_MIN and smax = S32_MAX, otherwise smin = (s32)start and smax = (s32)end; always smin <= smax |
| `WRange.SignedSound` | include/linux/wrange.h:59-71 | every value in the range, read as signed, lies within [smin, smax] |
| `WRange.SignedTight` | include/linux/wrange.h:59-71 | the bit patterns of smin and smax are in the range, so they are its exact signed minimum and maximum |
| `WRange.SWrappingCrossesSignedMax` | include/linux/wrange.h:54-56 | signed wrap holds exactly when the range contains S32_MAX (0x7FFFFFFF) and goes on past it to 0x80000000 |
| `WRange.Degenerate` | include/linux/wrange.h:36-71 | with start = end neither test wraps, umin = umax = start, smin = smax = (s32)start, and the range holds that one value only |
| `WRange.FullDomain` | include/linux/wrange.h:36-52 | the range from 0 to U32_MAX holds every value, does not wrap unsigned, and has bounds U32_MIN and U32_MAX |
| `WRange.SignedWrapOnly` | include/linux/wrange.h:36-56 | start 0x7FFFFFFF, end 0x80000000 wraps signed but not unsigned: unsigned bounds are the fields, signed bounds the signed extremes |
| `WRange.UnsignedWrapOnly` | include/linux/wrange.h:36-56 | start 0xFFFFFFFF, end 0 wraps unsigned but not signed: unsigned bounds are the extremes, signed bounds -1 and 0 |

## Left out

- The pseudo-code loop in the header comment (include/linux/wrange.h:10-12) is not modelled. It is illustration, not code. Its `i < end` excludes `end`, which contradicts the "inclusively" of lines 5 and 19-22. Its `bool[U32_MAX]` array also has no slot for index `U32_MAX`. The model follows the inclusive arc of the prose.
- `<linux/types.h>` and `<linux/limits.h>` are not part of this model. `u32`, `s32` and the four limits are written out in module `Limits` with their standard values.
- `UWrapping` and `SWrapping` carry no contract of their own. Each is a single comparison. `UWrappingCrossesMax`, `SWrappingCrossesSignedMax` and `SignedBounds` state what they mean.
- A non-wrapping variant of the range, where `start <= end` always holds, is not defined in this header. It is not modelled.
- Union, intersection and arithmetic on ranges are not defined in this header. They are not modelled.
- `static inline`, pass-by-value and the include guard have no counterpart in a pure model.
