# ssimd integer and boolean vectors in Dafny

ssimd is a small Rust crate of fixed-size SIMD-style vector types. Each type
is a packed tuple of N lanes of one primitive type, and a family of macros
gives them their methods:

- `basic_impls` gives the integer vectors (`u32x4`, `i16x8`, `u8x32`, ...)
  the following:
  - construction and lane access;
  - the six comparisons, which return a boolean vector;
  - `max` and `min`;
  - the operators `+ - * /`.
- `int_impls` adds `select`, the bitwise operators `& | ^ !` and the shifts
  `<< >>`.
- `bool_impls` gives the boolean vectors (`bool32x4`, ...) construction,
  lane access, `all`, `any` and `!`.
- `conv_impls` converts between vector types lane by lane with Rust's `as`.

The model describes every lane as the mathematical integer that the Rust
scalar denotes. A vector is a `Shapes.Vec`: a `Shape` (kind, lane width,
lane count) together with its lanes in index order. `Shapes.Shape.IsIntVector`
and `IsBoolVector` list the declared types. A boolean lane is a value of the
signed type of the same width: 0 is false and anything else is true. The
comparisons store 1 for true.

The bitwise operators are defined bit by bit on the two's-complement pattern
of the lane (`Lane.Pattern`, which is `x mod 2^W`). `+ - *` wrap modulo 2^W,
as in a release build. `/` rounds toward zero.

Panics become preconditions:

- `extract` or `replace` out of range;
- a slice index past the end in `load` or `store`;
- division by zero and `MIN / -1`;
- a shift amount outside `[0, W)` after the cast `sz as T`, which panics in a
  debug build (a release build masks the amount instead; see "Left out").

The boolean vector types get their own copies of `new`, `splat`, `extract`,
`replace`, `load` and `store` (src/lib.rs:475-517). They behave the same, so
one set of `Access` members models both.

`store` is the one operation that changes state. It is a method on an
`array<int>`, proved against the function `Access.Stored`.

Modules:

- `Bits`: natural-number bit patterns.
- `Lane`: the scalar types and their operators.
- `Shapes`: the vector types.
- `Access`: `new`, `splat`, `extract`, `replace`, `load` and `store`.
- `Arith`: comparisons, `max`/`min` and `+ - * /`.
- `IntOps`: `select`, `& | ^ !` and the shifts.
- `BoolOps`: `all`, `any` and `!` on boolean vectors.
- `Conv`: the conversions, and the interplay of comparisons with `select`.
- `Samples`: single expressions on the declared types, worked out.

## Model

| member | source | states |
|---|---|---|
| `Shapes.Shape.Elem` | src/lib.rs:312-350 | the lane type of a declared vector type is `uW` for an unsigned vector and `iW` for a signed or boolean one, with the declared width |
| `Shapes.Shape.BoolSibling` | src/lib.rs:312-350 | the comparisons of an integer type return the boolean type with the same width and lane count, and that type is declared |
| `Shapes.DeclaredShapes` | src/lib.rs:312-350 | each declared integer type's comparisons return the boolean type of the same width and count; `bool8x16` is declared while `u8x16` and `i8x16` get no methods |
| `Access.New` | src/lib.rs:181-183 | lane i of `new(x0, ..)` is the i-th argument |
| `Access.Splat` | src/lib.rs:187-189 | every lane of `splat(x)` is x |
| `Access.Extract` | src/lib.rs:193-199 | `extract(idx)` returns a value of the lane type; idx < N is required, because otherwise the assert panics |
| `Access.Replace` | src/lib.rs:203-211 | `replace(idx, x)` puts x in lane idx and leaves every other lane unchanged; idx < N is required |
| `Access.Load` | src/lib.rs:215-217 | lane k of `load(a, idx)` is a[idx + k]; idx + N <= len(a) is required |
| `Access.Stored` | src/lib.rs:221-223 | after `store(a, idx)` the buffer has the same length, holds lane k at idx + k, and is unchanged everywhere else |
| `Access.Store` | src/lib.rs:221-223 | the method writes the lanes into the array one at a time, and its final contents are `Stored` of the old contents |
| `Access.LoadAfterStore` | src/lib.rs:215-223 | loading at idx after storing v at idx gives back v |
| `Access.StoreAfterLoad` | src/lib.rs:215-223 | storing the vector just loaded from idx leaves the buffer as it was |
| `Access.ReplaceExtract` | src/lib.rs:193-211 | replacing a lane with its own value changes nothing; a second replace of the same lane overrides the first |
| `Arith.Mask` | src/lib.rs:227-259 | lane i of the boolean result is `flag as iW`, which is 1 for true and 0 for false |
| `Arith.Eq` | src/lib.rs:227-229 | lane i is 1 where a[i] == b[i] and 0 elsewhere |
| `Arith.Ne` | src/lib.rs:233-235 | lane i is 1 where a[i] != b[i] and 0 elsewhere |
| `Arith.Lt` | src/lib.rs:239-241 | lane i is 1 where a[i] < b[i] and 0 elsewhere |
| `Arith.Le` | src/lib.rs:245-247 | lane i is 1 where a[i] <= b[i] and 0 elsewhere |
| `Arith.Gt` | src/lib.rs:251-253 | lane i is 1 where a[i] > b[i] and 0 elsewhere |
| `Arith.Ge` | src/lib.rs:257-259 | lane i is 1 where a[i] >= b[i] and 0 elsewhere |
| `Arith.ComparisonsAgree` | src/lib.rs:227-259 | `lt(a,b) == gt(b,a)` and `le(a,b) == ge(b,a)`; each `ne` lane is 1 minus the `eq` lane; each `le` lane is the `lt` lane plus the `eq` lane |
| `Arith.Max` | src/lib.rs:263-265 | each lane of `max` is at least both operand lanes and equals one of them |
| `Arith.Min` | src/lib.rs:269-271 | each lane of `min` is at most both operand lanes and equals one of them |
| `Arith.MaxMinLaws` | src/lib.rs:263-271 | `max` and `min` are idempotent and commutative, and each absorbs the other |
| `Arith.Add` | src/lib.rs:278-280 | each lane of `a + b` agrees with a[i] + b[i] modulo 2^W, and equals it when the sum fits the lane type |
| `Arith.Sub` | src/lib.rs:287-289 | the same for `a - b` |
| `Arith.Mul` | src/lib.rs:296-298 | the same for `a * b` |
| `Arith.SubUndoesAdd` | src/lib.rs:278-289 | `(a + b) - b == a` for every a and b, including when the addition overflowed |
| `Arith.AddThenSub` | src/lib.rs:278-289 | the same round trip on one lane value |
| `Arith.AddMulCommute` | src/lib.rs:278-298 | `+` and `*` are commutative |
| `Arith.QuotientsInRange` | src/lib.rs:305-307 | when no lane divides by zero or divides MIN by -1, every quotient is a value of the lane type |
| `Arith.Div` | src/lib.rs:305-307 | lane i of `a / b` is a[i] / b[i] rounded toward zero: \|q\|·\|b\| <= \|a\| < (\|q\|+1)·\|b\|, and q is negative exactly when the signs differ (q nonzero); a zero divisor and MIN / -1 are excluded |
| `Arith.DivByOne` | src/lib.rs:305-307 | dividing by `splat(1)` is the identity, and it never panics |
| `Arith.DivUndoesMul` | src/lib.rs:296-307 | a product that did not overflow divides back to its left factor |
| `Arith.ExactQuotient` | src/lib.rs:305-307 | `(x * y) / y == x` for integer division rounded toward zero |
| `Lane.Wrap` | src/lib.rs:278-298 | the wrap-around of `+ - *` and of `as`: a value of the lane type that agrees with x modulo 2^W, and equals x when x fits |
| `Lane.WrapAdd` | src/lib.rs:278-289 | wrapping before an addition changes nothing modulo 2^W |
| `Lane.TruncDiv` | src/lib.rs:305-307 | Rust's integer `/` rounds toward zero, stated by the bounds on \|q\| and its sign |
| `Lane.TruncDivInRange` | src/lib.rs:305-307 | a division that does not panic has a quotient of the lane type |
| `Lane.FromPattern` | src/lib.rs:610 | the value of the lane type whose two's-complement pattern is p |
| `Lane.PatternInjective` | src/lib.rs:610 | a lane value is determined by its pattern |
| `Lane.EqualByBits` | src/lib.rs:376-406 | two lane values with the same bits are equal |
| `Lane.BitAnd` | src/lib.rs:376-378 | each bit of `x & y` is the product of the bits of x and y |
| `Lane.BitOr` | src/lib.rs:385-387 | each bit of `x \| y` is set when it is set in x or y |
| `Lane.BitXor` | src/lib.rs:394-396 | each bit of `x ^ y` is the sum of the bits of x and y modulo 2 |
| `Lane.BitNot` | src/lib.rs:404-406 | `!x` is -x - 1 on a signed type and MAX - x on an unsigned one |
| `Lane.ComplementValue` | src/lib.rs:404-406 | complementing every bit of the pattern gives -x - 1 or MAX - x |
| `Lane.BitBlend` | src/lib.rs:367-369 | each bit of `(m & t) \| (!m & e)` comes from t where m has a one and from e where it has a zero |
| `Lane.BitAndSelf` | src/lib.rs:376-378 | `x & x == x` |
| `Lane.BitOrSelf` | src/lib.rs:385-387 | `x \| x == x` |
| `Lane.BitXorTwice` | src/lib.rs:394-396 | `(x ^ y) ^ y == x` |
| `Lane.BitBlendSame` | src/lib.rs:367-369 | blending a value with itself gives that value, whatever the mask |
| `Bits.Blend` | src/lib.rs:367-369 | the same per-bit choice on natural-number patterns |
| `Bits.Pow2Add` | src/lib.rs:413-423 | 2^(a+b) == 2^a · 2^b, which the shift proofs use |
| `Bits.BitsEqual` | src/lib.rs:376-406 | two patterns below 2^n with the same n low bits are equal |
| `Bits.NotValue` | src/lib.rs:404-406 | complementing the n bits of p gives 2^n - 1 - p |
| `IntOps.And` | src/lib.rs:376-378 | each bit of lane i of `a & b` is set when it is set in both a[i] and b[i] |
| `IntOps.Or` | src/lib.rs:385-387 | each bit is set when it is set in a[i] or b[i] |
| `IntOps.Xor` | src/lib.rs:394-396 | each bit is set when it is set in exactly one of a[i] and b[i] |
| `IntOps.Not` | src/lib.rs:404-406 | lane i of `!a` is -a[i] - 1 on a signed type and MAX - a[i] on an unsigned one |
| `IntOps.Select` | src/lib.rs:367-369 | `m.select(t, e)` takes each bit of lane i from t[i] where m[i] has a one and from e[i] where it has a zero |
| `IntOps.XorTwice` | src/lib.rs:394-396 | `(a ^ b) ^ b == a` |
| `IntOps.AndIdempotent` | src/lib.rs:376-378 | `a & a == a` |
| `IntOps.OrIdempotent` | src/lib.rs:385-387 | `a \| a == a` |
| `IntOps.NotTwice` | src/lib.rs:404-406 | `!!a == a` |
| `IntOps.SelectSame` | src/lib.rs:367-369 | `m.select(x, x) == x` for every mask m |
| `IntOps.AllOnes` | src/lib.rs:367-369 | the lane value with every bit set; it is -1 on a signed type and MAX on an unsigned one |
| `IntOps.SelectIf` | src/lib.rs:360-365 | the choice that the documentation of `select` describes: lane i is t[i] where m[i] is nonzero and e[i] where it is zero |
| `IntOps.SelectOnCanonicalMask` | src/lib.rs:360-369 | on a mask whose lanes are all zeros or all ones, `select` is that choice |
| `IntOps.BlendCanonical` | src/lib.rs:367-369 | the same for one lane |
| `Lane.ShiftAmount` | src/lib.rs:414 | the amount `sz as T` is a value of the lane type |
| `Lane.ShiftAmountPeriodic` | src/lib.rs:414 | `(sz + 2^W) as T == sz as T` |
| `Lane.Shl` | src/lib.rs:414 | `x << k` agrees with x · 2^k modulo 2^W, and equals it when that fits |
| `Lane.Shr` | src/lib.rs:423 | `x >> k` is a value of the lane type; see `Lane.ShrIsFloorDiv` |
| `Lane.ShiftedPattern` | src/lib.rs:423 | the shifted pattern is p / 2^k with the sign fill above it, and it fits W bits |
| `Lane.ShrIsFloorDiv` | src/lib.rs:423 | `>>` is arithmetic on signed lanes and logical on unsigned ones: in both cases it is division by 2^k rounded toward negative infinity |
| `Lane.ShrNegative` | src/lib.rs:423 | the same for a negative lane, where the sign bit is copied in from the top |
| `Lane.ShrNonnegative` | src/lib.rs:423 | the same for a lane that is not negative |
| `IntOps.Shl` | src/lib.rs:413-415 | lane i of `v << sz` agrees with v[i] · 2^k modulo 2^W, where k = `sz as T` must lie in [0, W) |
| `IntOps.Shr` | src/lib.rs:422-424 | lane i of `v >> sz` is v[i] / 2^k rounded toward negative infinity, where k = `sz as T` must lie in [0, W) |
| `IntOps.ShlIsMul` | src/lib.rs:413-415 | a left shift by k is a wrapping multiplication by `splat(2^k)` when 2^k fits the lane type |
| `IntOps.ShlThenShr` | src/lib.rs:413-424 | on unsigned lanes `(v << sz) >> sz == v` when no set bit is shifted out |
| `IntOps.ShlShrLane` | src/lib.rs:413-424 | the same for one lane |
| `IntOps.ShiftAmountWraps` | src/lib.rs:413-424 | a shift by sz + 2^W is a shift by sz (for example `u8x32 << 257` is `<< 1`), for both `<<` and `>>` |
| `IntOps.ShlByAmount` | src/lib.rs:413-415 | `<<` depends on sz only through `sz as T` |
| `IntOps.ShrByAmount` | src/lib.rs:422-424 | `>>` depends on sz only through `sz as T` |
| `BoolOps.AllNonzero` | src/lib.rs:521-523 | the chain `l0 != 0 && l1 != 0 && ..` holds exactly when every lane is nonzero |
| `BoolOps.AnyNonzero` | src/lib.rs:527-529 | the chain `l0 != 0 \|\| ..` holds exactly when some lane is nonzero |
| `BoolOps.All` | src/lib.rs:521-523 | `all()` holds exactly when every lane is true |
| `BoolOps.Any` | src/lib.rs:527-529 | `any()` holds exactly when some lane is true |
| `BoolOps.Not` | src/lib.rs:537-539 | lane i of `!v` on a boolean vector is -v[i] - 1 |
| `BoolOps.AllImpliesAny` | src/lib.rs:521-529 | `all()` implies `any()`, since every boolean type has at least two lanes |
| `BoolOps.NotTwice` | src/lib.rs:537-539 | `!!v == v` on boolean vectors |
| `BoolOps.NotOfFlags` | src/lib.rs:537-539 | on comparison results `!` maps 1 to -2 and 0 to -1, so every lane of the result is true |
| `BoolOps.NotNegatesCanonical` | src/lib.rs:537-539 | `!` swaps true and false in a lane exactly when that lane holds 0 or -1 |
| `BoolOps.EqAllIffEqual` | src/lib.rs:227-229 | `a.eq(b).all()` holds exactly when a == b, so `a.eq(a).all()` always holds |
| `BoolOps.NeAnyIffDifferent` | src/lib.rs:233-235 | `a.ne(b).any()` holds exactly when a != b |
| `BoolOps.OrderAnyAll` | src/lib.rs:239-247 | `a.lt(b).any()` holds exactly when some lane of a is below the lane of b; `a.le(b).all()` holds exactly when every lane is at most the lane of b |
| `BoolOps.NotOfComparisonIsAllTrue` | src/lib.rs:537-539 | `!a.eq(b)` is all-true for every a and b |
| `BoolOps.LogicalNot` | src/lib.rs:537-539 | the intended negation: a lane is true exactly where the operand lane is false, and it is stored as 0 or 1 |
| `BoolOps.LogicalNotOfComparison` | src/lib.rs:227-259 | the logical negation of `eq`, `lt` or `gt` is `ne`, `ge` or `le` |
| `BoolOps.LogicalNotTwice` | src/lib.rs:537-539 | the logical negation is an involution on 0/1 vectors |
| `Conv.Cast` | src/lib.rs:609-611 | lane i of a conversion has the same low W bits as the source lane, and equals it when it fits the target lane type |
| `Conv.UnsignedAsSigned` | src/lib.rs:610 | `x as iW` on a `uW` value is x below 2^(W-1), and x - 2^W from there up |
| `Conv.SignedAsUnsigned` | src/lib.rs:610 | `x as uW` on an `iW` value is x + 2^W when x is negative, and x otherwise |
| `Conv.Widens` | src/lib.rs:664-671 | a value of a lane type is also a value of every wider lane type with the same signedness |
| `Conv.ToI` | src/lib.rs:618-660 | `to_i` reinterprets `uW` lanes as `iW`, and copies boolean lanes unchanged |
| `Conv.ToU` | src/lib.rs:618-661 | `to_u` reinterprets `iW` and boolean lanes as `uW`: a negative lane gains 2^W |
| `Conv.ToI32` | src/lib.rs:663-665 | `to_i32` keeps the low 32 bits of each `i64` lane |
| `Conv.ToI64` | src/lib.rs:664-666 | `to_i64` sign-extends, so the lanes are unchanged |
| `Conv.ToU32` | src/lib.rs:668-670 | `to_u32` takes each `u64` lane modulo 2^32 |
| `Conv.ToU64` | src/lib.rs:669-671 | `to_u64` zero-extends, so the lanes are unchanged |
| `Conv.SignedRoundTrip` | src/lib.rs:618-661 | `v.to_u().to_i() == v` on signed vectors |
| `Conv.SignedLaneRoundTrip` | src/lib.rs:610 | the same for one lane |
| `Conv.UnsignedRoundTrip` | src/lib.rs:618-661 | `v.to_i().to_u() == v` on unsigned vectors |
| `Conv.UnsignedLaneRoundTrip` | src/lib.rs:610 | the same for one lane |
| `Conv.BoolToU` | src/lib.rs:624-661 | `to_u` on a boolean vector equals `to_i` followed by `to_u` |
| `Conv.WidenThenNarrow` | src/lib.rs:663-671 | `v.to_i64().to_i32() == v` and `v.to_u64().to_u32() == v` |
| `Conv.NarrowThenWidenSigned` | src/lib.rs:663-666 | `v.to_i32().to_i64() == v` exactly when every lane is a value of `i32` |
| `Conv.NarrowThenWidenUnsigned` | src/lib.rs:668-671 | `v.to_u32().to_u64() == v` exactly when every lane is below 2^32 |
| `Conv.GreaterFlag` | src/lib.rs:251-253 | lane i of `a.gt(b).to_i()` is 1 when a[i] > b[i] and 0 otherwise |
| `Conv.OneBits` | src/lib.rs:367-369 | 1 has bit 0 set and every other bit clear |
| `Conv.NeitherZeroNorMinusOne` | src/lib.rs:367-369 | a lane with bit 0 clear and bit 1 set is neither 0 nor -1 |
| `Conv.BlendOfOneZeroMinusOne` | src/lib.rs:367-369 | blending 0 and -1 under the mask 1 gives a lane that is neither 0 nor -1 |
| `Conv.SelectWithComparisonMask` | src/lib.rs:360-369 | with the mask `a.gt(b).to_i()`, a lane where a[i] > b[i] makes `select(splat(0), splat(-1))` give a lane that is neither 0 nor -1 |
| `Conv.SelectIfWithComparison` | src/lib.rs:360-365 | the documented choice with a comparison mask picks t[i] where a[i] > b[i] and e[i] elsewhere |
| `Conv.NegatedFlags` | src/lib.rs:287-289 | `splat(0) - flags` turns 0/1 lanes into 0/-1 lanes, nonzero exactly where the flags are |
| `Conv.SelectWithNegatedComparison` | src/lib.rs:360-369 | `select` with the negated comparison `splat(0) - a.gt(b).to_i()` is the documented choice |
| `Samples.AddWraps` | src/lib.rs:278-280 | `250u8 + 10` is 4 in every lane of a `u8x32` |
| `Samples.DivRoundsTowardZero` | src/lib.rs:305-307 | `-7 / 2` is -3 in every lane of an `i32x4` |
| `Samples.ShlByTruncatedAmount` | src/lib.rs:413-415 | `splat(1) << 257` on a `u8x32` is `splat(2)`, because `257 as u8` is 1 |
| `Samples.ShrCopiesSign` | src/lib.rs:422-424 | `-128 >> 7` on an `i8x32` is -1 in every lane |
| `Samples.NotOfTrueIsStillTrue` | src/lib.rs:537-539 | `!splat(1)` on a `bool32x4` is `splat(-2)`, and `all` of it holds |

## Left out

- Floating-point vectors are left out. This covers `f32x2` to `f64x4`, `float_impls`, the `to_f`, `to_f32` and `to_f64` conversions, and float-to-integer `to_i`/`to_u`.
- `u8x16` and `i8x16` are left out. They are declared but receive none of the method sets. `bool8x16` is modelled.
- The packed tuple layout and the raw-pointer reads and writes of `extract` and `replace` are left out. A lane index is the index into the lane sequence.
- The derived `Debug`, `Clone` and `Copy` implementations are left out.
- The example kernels `axpy` and `dotprod` are left out.
- Arith.Add: models the release-build wrap-around. A debug build panics on overflow instead, and that panic is not modelled. The same holds for `Arith.Sub` and `Arith.Mul`.
- Access.Load: indices are unbounded naturals. The `usize` overflow of `idx + k` is not modelled, and an `extract`/`replace` index is a natural rather than a `u32`. The same holds for `Access.Store`.
- IntOps.Shl: the shift argument is a natural below 2^64, that is a `usize` on a 64-bit target. A 32-bit target is not modelled. The same holds for `IntOps.Shr`.
- IntOps.Shl: the precondition that `sz as T` lies in [0, W) is the debug-build overflow panic. A release build does not panic; it masks the amount to its low log2(W) bits, so `u32x4 << 33` is `<< 1`. Unlike `+ - *`, which follow the release build, the shifts follow the debug build.
- IntOps.Shr: the same debug-build precondition as `IntOps.Shl`; a release build masks the amount instead of panicking.
- Access.Store: the source writes and bounds-checks one lane at a time, so a `store` that runs past the end of the slice writes the lanes that fit and then panics. The precondition `idx + N <= len(a)` excludes that call, so the partial write before the panic is not modelled.
- Lane.Scalar: the scalar lemmas hold for every width of at least 8 bits. The vector types use 8, 16, 32 and 64.

## Findings

| source | as written | input that shows it | evidently intended | confidence | as-written member | corrected member |
|---|---|---|---|---|---|---|
| src/lib.rs:360-369 | `select` blends bits: `(m & t) \| (!m & e)`. The comparisons that would supply the mask store 1 for true. | `a.gt(b).to_i().select(splat(0), splat(-1))` with a[i] > b[i]: lane i takes bit 0 from 0 and all other bits from -1, so it is -2 | lane i is t[i] where the mask lane is true and e[i] where it is false, as the doc comment says | not executed | `Conv.SelectWithComparisonMask` | `IntOps.SelectIf` (with `Conv.SelectIfWithComparison` and `Conv.SelectWithNegatedComparison`) |
| src/lib.rs:537-539 | `!` on a boolean vector complements every bit of a lane. Comparisons store 1 for true, and `!1` is -2, which is still true. | `!a.eq(b)` for any a and b: every lane is -1 or -2, so `(!a.eq(b)).all()` holds even when a == b | `!` swaps true and false, so `!a.eq(b)` is `a.ne(b)` | not executed | `BoolOps.NotOfComparisonIsAllTrue` | `BoolOps.LogicalNot` (with `BoolOps.LogicalNotOfComparison`) |
