# Animation interpolation core, modelled in Dafny

This project models the core of a TypeScript scene-animation engine in the
tradition of manim. Users build a tree of geometric objects ("mobjects").
Animations remap a progress value `alpha` in [0, 1] onto those objects. A
scene keeps the ordered list of top-level mobjects.

The model covers, one Dafny module per source file:

- the list, index and real-arithmetic utilities (`src/util/array.ts`,
  `math_functions.ts`, `rate_functions.ts`);
- the Bezier helpers (`src/util/bezier.ts`), split into `Interpolation`
  (numeric `interpolate`, `integerInterpolate`) and `Bezier` (the rest);
- the value types `Vector3`, `Color`, `Complex` and the shape-checked
  matrix `MArray` (`src/util/vector.ts`, `color.ts`, `complex.ts`,
  `space_ops.ts`);
- the mobject tree and the vectorized path engine
  (`src/mobject/types/mobject.ts`, `vectorized_mobject.ts`);
- the animation lifecycle, the composition timing engine and the creation
  animations (`src/animation/animation.ts`, `composition.ts`, `creation.ts`);
- the scene's list restructuring (`src/scene/scene.ts`).

Every number is a Dafny `real`, so arithmetic is exact rather than IEEE.
Indices and counts are `int`. A thrown exception is an `Err` (or `Fail`)
carrying the source's message (module `Wrappers`). Immutable value classes
are datatypes and their methods are functions. Objects whose fields the source
updates in place are Dafny classes:

- the mobject graph is an arena, class `Mobjects.Arena`, whose `nodes`
  sequence holds every mobject and whose indices stand for object
  identity, so a mobject reachable from two parents is one index;
- animations, animation groups, `Succession`, the creation animations,
  the binomial cache and the scene are classes too.

User callbacks (updaters, rate functions, property functions) are Dafny
function values. Updaters are recorded as calls rather than run. The
children of an animation group are seen only through the calls the group
makes on them; whether each call returns or throws is a parameter (a
function from call to outcome), and a loop over the children stops at the
first call that throws, as the source's `for` loops do.

## Model

| member | source | states |
|---|---|---|
| `Interpolation.Interpolate` | src/util/bezier.ts:27-29 | numeric interpolation returns a at alpha 0 and b at alpha 1 |
| `Interpolation.InterpolateBetween` | src/util/bezier.ts:27-29 | for alpha in [0, 1] and a <= b the result lies in [a, b] |
| `Interpolation.InterpolateAffine` | src/util/bezier.ts:27-29 | the interpolation is affine: a + (b - a) alpha |
| `Interpolation.Trunc` | src/util/bezier.ts:69 | JavaScript truncation toward zero lies within one unit of x, on the side of 0 |
| `Interpolation.JsModOne` | src/util/bezier.ts:69 | `x % 1` lies in [0, 1) for x >= 0 and in (-1, 0] for x < 0 |
| `Interpolation.IntegerInterpolate` | src/util/bezier.ts:55-72 | alpha >= 1 saturates at (end - 1, 1); for start < end and 0 < alpha < 1 the index is in [start, end - 1], the residue in [0, 1), and index + residue = start + (end - start) alpha |
| `Interpolation.IntegerInterpolateBelow` | src/util/bezier.ts:64-66 | alpha <= 0 saturates at (start, 0) |
| `RateFunctions.Linear` | src/util/rate_functions.ts:3-5 | `linear` is the identity |
| `RateFunctions.SmoothIsQuintic` | src/util/rate_functions.ts:7-10 | `smooth` is the quintic 10t^3 - 15t^4 + 6t^5 |
| `RateFunctions.Smooth` | src/util/rate_functions.ts:7-10 | `smooth` sends 0 to 0 and 1 to 1 |
| `RateFunctions.SmoothEndpoints` | src/util/rate_functions.ts:7-10 | `smooth` fixes 0, 1/2 and 1 |
| `RateFunctions.SmoothSymmetric` | src/util/rate_functions.ts:7-10 | smooth(1 - t) = 1 - smooth(t) |
| `RateFunctions.SmoothInUnitInterval` | src/util/rate_functions.ts:7-10 | `smooth` maps [0, 1] into [0, 1] |
| `RateFunctions.SmoothNonNegative` | src/util/rate_functions.ts:7-10 | `smooth` is non-negative on [0, 1] |
| `RateFunctions.DoubleSmoothAnchors` | src/util/rate_functions.ts:12-14 | `doubleSmooth` is 0, 1/2 and 1 at 0, 1/2 and 1 |
| `RateFunctions.DoubleSmooth` | src/util/rate_functions.ts:12-14 | the first half of [0, 1] is eased into [0, 1/2] and the second half into [1/2, 1] |
| `RateFunctions.InvertRateFunc` | src/util/rate_functions.ts:16-18 | the inverted curve at t is f(1 - t) for every t |
| `RateFunctions.InvertRateFuncInvolution` | src/util/rate_functions.ts:16-18 | inverting twice gives back the curve |
| `RateFunctions.ThereAndBackAnchors` | src/util/rate_functions.ts:20-22 | `thereAndBack` is 0, 1 and 0 at 0, 1/2 and 1 |
| `RateFunctions.ThereAndBackMirror` | src/util/rate_functions.ts:20-22 | `thereAndBack` is symmetric about 1/2 |
| `RateFunctions.ThereAndBack` | src/util/rate_functions.ts:20-22 | on [0, 1] the eased progress stays in [0, 1] |
| `MathFunctions.Clip` | src/util/math_functions.ts:3-5 | with lower <= upper the result is in [lower, upper], equals val when val is inside and the nearer bound otherwise; with upper < lower it is upper |
| `MathFunctions.Factorial` | src/util/math_functions.ts:34 | the denominator reduce r! is at least 1 |
| `MathFunctions.FallingSelf` | src/util/math_functions.ts:34-37 | the numerator reduce for r = n equals n! |
| `MathFunctions.ChooseBelow` | src/util/math_functions.ts:26-28 | choose(n, r) = 0 when n < r |
| `MathFunctions.ChooseZero` | src/util/math_functions.ts:30-32 | choose(n, 0) = 1 |
| `MathFunctions.ChooseSelfAndOne` | src/util/math_functions.ts:34-37 | choose(n, n) = 1 and choose(n, 1) = n |
| `MathFunctions.Choose` | src/util/math_functions.ts:21-38 | never negative, and zero exactly when n < r (the falling product is at least r!) |
| `MathFunctions.ChooseCache.constructor` | src/util/math_functions.ts:7 | the cache starts empty |
| `MathFunctions.ChooseCache.ChooseCached` | src/util/math_functions.ts:9-19 | returns the uncached value, stores it under (n, r), never overwrites an entry and adds no other row |
| `MathFunctions.ChooseCache.ChooseWith` | src/util/math_functions.ts:21-24 | the cache is transparent: cached and uncached calls return the same value, and an uncached call leaves the cache alone |
| `MathFunctions.MapValue` | src/util/math_functions.ts:44-52 | sends start1 to start2 and stop1 to stop2 |
| `MathFunctions.ScaledIndexHit` | src/util/array.ts:107-109 | stretching c elements to t >= c slots hits every source index |
| `MathFunctions.RealPowOfOneAndZero` | src/util/bezier.ts:80 | `Math.pow(1, k)` = 1 and `Math.pow(0, k)` = 0 for k >= 1 (0^0 = 1) |
| `ArrayUtil.Range` | src/util/array.ts:5-21 | throws iff step = 0; element k is start + k step, all strictly before end, and the progression stops at the first value past end |
| `ArrayUtil.RangeEmptyIffNotBelow` | src/util/array.ts:10-13 | a positive-step range is empty iff start >= end |
| `ArrayUtil.Linspace` | src/util/array.ts:65-71 | `count` one-element rows, row i being interpolate(start, end, i / (count - 1)); count 1 divides 0 by 0 |
| `ArrayUtil.LinspaceEndpoints` | src/util/array.ts:65-71 | with count >= 2 the first row is start and the last is end |
| `ArrayUtil.Enumerate` | src/util/array.ts:23-35 | pairs every element with its index, in order |
| `ArrayUtil.SumConcat` | src/util/array.ts:49-55 | the sum of a concatenation is the sum of the sums |
| `ArrayUtil.Sum` | src/util/array.ts:49-55 | 0 for an empty list, the element for a single one; non-negative entries give a non-negative sum and non-positive entries a non-positive one |
| `ArrayUtil.Argmax` | src/util/array.ts:57-59 | the first index of a maximum; 0 for an empty array |
| `ArrayUtil.Argmin` | src/util/array.ts:61-63 | the first index of a minimum; 0 for an empty array |
| `ArrayUtil.StretchIndex` | src/util/array.ts:107-109 | the nearest-neighbour index floor(e cur / len) is a valid source index |
| `ArrayUtil.StretchIndexMonotone` | src/util/array.ts:107-109 | later slots read later (or the same) source elements |
| `ArrayUtil.StretchListToLength` | src/util/array.ts:94-110 | an empty list comes back unchanged; a shorter target throws; otherwise exactly `length` elements, all drawn from the list |
| `ArrayUtil.StretchToOwnLength` | src/util/array.ts:94-110 | stretching to the list's own length is the identity |
| `ArrayUtil.StretchKeepsEveryElementInOrder` | src/util/array.ts:94-110 | stretching up keeps every element, in order |
| `ArrayUtil.MakeEven` | src/util/array.ts:112-119 | both results have length the larger of the two lengths |
| `ArrayUtil.MakeEvenStretchesBoth` | src/util/array.ts:112-119 | each half is the stretch of its list to the common length; the longer list comes back unchanged |
| `ArrayUtil.KeepLastElements` | src/util/array.ts:129-140 | keeping last occurrences keeps the same element set |
| `ArrayUtil.KeepLastNoDuplicates` | src/util/array.ts:129-140 | keeping last occurrences leaves no duplicates |
| `ArrayUtil.FirstOccurrencesProperties` | src/util/array.ts:131-137 | the Set-guarded loop keeps each element once, the same element set, the first element first |
| `ArrayUtil.KeepLastByReversal` | src/util/array.ts:129-140 | reverse, keep first occurrences, reverse back = keep last occurrences in original order |
| `ArrayUtil.WithoutRedundancies` | src/util/array.ts:129-140 | the argument is left reversed in place and the result keeps the last occurrence of each element in original order |
| `ArrayUtil.ReverseInPlace` | src/util/array.ts:132 | the array afterwards holds its old contents in reverse order |
| `ArrayUtil.FirstOccurrencesOf` | src/util/array.ts:130-137 | the scan with a set of seen elements keeps exactly the first occurrence of each, in order |
| `ArrayUtil.CloseBatch` | src/util/array.ts:148-151 | closing a non-empty run of one property, different from the last batch's, extends the concatenation and keeps the batches labelled and maximal |
| `ArrayUtil.ExtendRun` | src/util/array.ts:164-166 | an item with the open run's property joins the run and the loop state still spells the prefix |
| `ArrayUtil.StartRun` | src/util/array.ts:160-163 | an item with another property closes the open run, if any, and opens its own |
| `ArrayUtil.EndRuns` | src/util/array.ts:169 | closing the last run leaves labelled maximal batches whose concatenation is the input |
| `ArrayUtil.AddItem` | src/util/array.ts:157-167 | one pass of the loop keeps its state: closed batches and open run spell the longer prefix |
| `ArrayUtil.BatchByProperty` | src/util/array.ts:142-172 | the batches concatenate to the input, each batch is non-empty and shares its label, adjacent batches differ |
| `ArrayUtil.AdjacentNTuples` | src/util/array.ts:174-178 | one tuple of n elements per object |
| `ArrayUtil.AdjacentNTuplesShift` | src/util/array.ts:174-178 | tuple i starts at objects[i] and shifted by one is tuple i + 1 (cyclically) |
| `ArrayUtil.Filter` | src/mobject/types/mobject.ts:73 | `filter` keeps exactly the elements passing the test, never more |
| `ArrayUtil.FilterConcat` | src/mobject/types/mobject.ts:73 | filtering distributes over concatenation, so relative order is kept |
| `ArrayUtil.FilterNoDuplicates` | src/mobject/types/mobject.ts:73 | filtering keeps a duplicate-free list duplicate-free |
| `ArrayUtil.FilterKeepAll` | src/mobject/types/mobject.ts:73 | a filter that passes every element is the identity |
| `Bezier.InterpolateValue` | src/util/bezier.ts:27-49 | succeeds iff the pair is of one supported kind (numbers, vectors, colours, same-shape matrices, equally long vector lists); numbers use the numeric formula, vector lists keep their length |
| `Bezier.InterpolateValueEndpoints` | src/util/bezier.ts:27-49 | every supported pair gives a at alpha 0 and b at alpha 1 |
| `Bezier.CoefficientAtEnds` | src/util/bezier.ts:79-80 | Bernstein weights at t = 0 select the first point and at t = 1 the last |
| `Bezier.BezierPrefixAtZero` | src/util/bezier.ts:78-82 | the reduce at t = 0 yields the first point |
| `Bezier.BezierPrefixAtOne` | src/util/bezier.ts:78-82 | at t = 1 every point before the last contributes nothing |
| `Bezier.BezierEndpoints` | src/util/bezier.ts:74-84 | bezier(P)(0) = P[0] and bezier(P)(1) = P[last] |
| `Bezier.BezierOfOnePoint` | src/util/bezier.ts:74-84 | one control point is a constant curve |
| `Bezier.PartialBezierPoints` | src/util/bezier.ts:86-102 | as many points as the input; a = 1 gives copies of the last point |
| `Bezier.PartialBezierWhole` | src/util/bezier.ts:86-102 | (a, b) = (0, 1) returns the input unchanged |
| `Bezier.PartialBezierStartsAtA` | src/util/bezier.ts:86-102 | the first output point is bezier(P)(a) |
| `Bezier.GetSmoothHandlePoints` | src/util/bezier.ts:104-111 | fewer than two anchors give one origin handle on each side |
| `Bezier.IsClosed` | src/util/bezier.ts:201-206 | throws exactly on an empty list |
| `Bezier.GapIsOrigin` | src/util/bezier.ts:203 | the difference of two points is the origin iff they coincide |
| `Bezier.EndsWhereItStartsIsClosed` | src/util/bezier.ts:201-206 | a path whose last point is its first is closed for every tolerance |
| `Bezier.ClosedWithoutTolerance` | src/util/bezier.ts:201-206 | with tolerance 0, closed iff the first point equals the last |
| `Bezier.OnlyOriginWithinZero` | src/util/bezier.ts:203-204 | only a zero gap is within tolerance 0 |
| `Bezier.InterpolateColorListAsWritten` | src/util/bezier.ts:9-25 | as written it always throws: the length check, then the positional `MArray` construction |
| `Bezier.InterpolateColorListAsWrittenThrows` | src/util/bezier.ts:17 | even two equal one-colour lists cannot be interpolated as written |
| `Bezier.InterpolateColorList` | src/util/bezier.ts:9-25 | throws iff the lengths differ; otherwise colour i is the lerp of the i-th colours |
| `Bezier.InterpolateColorListEndpoints` | src/util/bezier.ts:9-25 | the lists are reached at alpha 0 and 1 |
| `Colors.WithTransparency` | src/util/color.ts:30-32 | only alpha changes |
| `Colors.WithTransparencyLastWins` | src/util/color.ts:30-32 | setting alpha twice keeps the last value; setting the current alpha is the identity |
| `Colors.Add` | src/util/color.ts:34-42 | r, g, b are added channelwise (a number on all three), alpha is the receiver's |
| `Colors.Subtract` | src/util/color.ts:44-52 | r, g, b are subtracted channelwise, alpha is the receiver's |
| `Colors.Multiply` | src/util/color.ts:54-62 | r, g, b are multiplied channelwise, alpha is the receiver's |
| `Colors.Divide` | src/util/color.ts:64-72 | each r, g, b channel times the divisor's channel gives back the receiver's; alpha is the receiver's |
| `Colors.ArithmeticIgnoresOperandAlpha` | src/util/color.ts:34-62 | the other colour's alpha never matters |
| `Colors.Lerp` | src/util/color.ts:159-165 | reaches both endpoints, all four channels |
| `Colors.LerpInterpolatesAlpha` | src/util/color.ts:159-165 | alpha is interpolated like the other channels, and kept when equal |
| `Colors.ParseHexPair` | src/util/color.ts:240 | two hex digits parse to 16 hi + lo |
| `Colors.DoubleEach` | src/util/color.ts:229-234 | each character is doubled in place |
| `Colors.ExpandHex` | src/util/color.ts:229-238 | every allowed length expands to 8 hex characters |
| `Colors.FromHex` | src/util/color.ts:218-227 | throws when the length after an optional '#' is not 3, 4, 6 or 8 |
| `Colors.FromHexHashOptional` | src/util/color.ts:219-221 | a leading '#' does not change the colour |
| `Colors.FromHexShortForm` | src/util/color.ts:229-234 | "abc" parses like "aabbcc", 4 digits like the doubled 8 |
| `Colors.HexPairInRange` | src/util/color.ts:240 | a pair of hex digits parses into 0..255 |
| `Colors.FromHexChannelsInUnitInterval` | src/util/color.ts:236-247 | valid 6 and 8 digit strings give channels in [0, 1]; 6 digits give alpha 1 |
| `Colors.FromHexEightDigits` | src/util/color.ts:240-247 | eight characters are read two per channel, r g b a |
| `Colors.FromHexRoundTrip` | src/util/color.ts:218-248 | printing four bytes as hex and parsing gives byte / 255 per channel |
| `Colors.HexByteParses` | src/util/color.ts:240 | a byte printed as two hex digits parses back to itself |
| `Complexes.Equals` | src/util/complex.ts:18-25 | equality with a complex number is equality of both parts |
| `Complexes.EqualsNumber` | src/util/complex.ts:18-25 | equals(number) holds iff real = number and imaginary = 0 |
| `Complexes.Subtract` | src/util/complex.ts:34-36 | adding the subtrahend back gives the minuend |
| `Complexes.Add` | src/util/complex.ts:27-32 | the sum equals the first operand exactly when the second is 0 |
| `Complexes.Scale` | src/util/complex.ts:61-63 | multiplying by (k, 0) scales both parts by k |
| `Complexes.Multiply` | src/util/complex.ts:38-43 | the squared norm of the product is the product of the squared norms; multiplying by 1 changes nothing |
| `Complexes.NormSquaredSign` | src/util/complex.ts:69-71 | the squared norm is non-negative and zero exactly when the number equals 0 |
| `Complexes.Divide` | src/util/complex.ts:45-59 | throws exactly when the divisor equals 0 |
| `Complexes.AddMultiplyCommute` | src/util/complex.ts:27-43 | addition and multiplication commute |
| `Complexes.DivideThenMultiply` | src/util/complex.ts:45-59 | x.divide(y).multiply(y) = x for y != 0 |
| `Complexes.ConjugateInvolution` | src/util/complex.ts:65-67 | conjugating twice is the identity; z times its conjugate is its squared norm |
| `Complexes.Conjugate` | src/util/complex.ts:65-67 | z times its conjugate is the real number |z|^2, and conjugation keeps the squared norm |
| `Complexes.NormSquaredMultiplicative` | src/util/complex.ts:38-43 | the squared norm of a product is the product of squared norms |
| `Complexes.Pow` | src/util/complex.ts:96-100 | integer power succeeds iff k >= 1 (an empty reduce throws), and pow(1) is the number itself |
| `Complexes.PowSteps` | src/util/complex.ts:96-100 | each further power multiplies by z once more; the squared norm of z^k is the k-th power of the squared norm |
| `Vectors.EqualsV` | src/util/vector.ts:23-25 | equality iff all three coordinates agree |
| `Vectors.Add` | src/util/vector.ts:27-35 | componentwise, a number broadcast to all three; anything else throws |
| `Vectors.Subtract` | src/util/vector.ts:37-47 | componentwise for numbers and vectors; never throws |
| `Vectors.Multiply` | src/util/vector.ts:53-63 | componentwise product; anything else throws |
| `Vectors.Divide` | src/util/vector.ts:65-73 | componentwise quotient; anything else throws |
| `Vectors.NormSquaredSign` | src/util/vector.ts:79-81 | the squared norm is non-negative and zero only at the origin |
| `Vectors.ScalarIsBroadcast` | src/util/vector.ts:27-63 | a numeric operand acts as the vector repeating it |
| `Vectors.ScalarDivisorIsBroadcast` | src/util/vector.ts:65-73 | a numeric divisor acts as the vector repeating it |
| `Vectors.SubtractNullIsNegate` | src/util/vector.ts:42-51 | subtract(null) is negate(), which is 0 - v |
| `Vectors.AddUndoesSubtract` | src/util/vector.ts:27-47 | adding back what was subtracted restores the vector |
| `Vectors.DivideUndoesMultiply` | src/util/vector.ts:53-73 | dividing by k != 0 undoes multiplying by k |
| `Vectors.GetComponent` | src/util/vector.ts:95-106 | succeeds iff the index is 0, 1 or 2, with that coordinate |
| `Vectors.IntToString` | src/util/vector.ts:104 | the index in the message is written out, with a leading minus exactly for a negative index |
| `Vectors.NatToString` | src/util/vector.ts:104 | a non-negative index is written as a non-empty string of decimal digits |
| `Vectors.WithComponent` | src/util/vector.ts:140-150 | throws iff the index is outside 0..2 |
| `Vectors.WithComponentChangesOnlyIndex` | src/util/vector.ts:132-150 | the chosen coordinate is set and no other changes |
| `Vectors.Lerp` | src/util/vector.ts:108-114 | t = 0 gives a and t = 1 gives b |
| `Vectors.LerpIsAffine` | src/util/vector.ts:108-114 | lerp is (1 - t) a + t b, coordinatewise the numeric interpolation |
| `Vectors.Dot` | src/util/vector.ts:167-169 | a vector dotted with itself is never negative |
| `Vectors.Cross` | src/util/vector.ts:171-177 | the cross product is orthogonal to both operands |
| `Vectors.CrossProperties` | src/util/vector.ts:167-177 | the cross product is anti-commutative, orthogonal to both operands and zero on a repeated operand |
| `SpaceOps.Construct` | src/util/space_ops.ts:11-27 | the constructor succeeds iff it gets an options object whose rows all have the shape's column count (the row count is not checked); the values are kept and a given shape is kept |
| `SpaceOps.NewAcceptsRectangular` | src/util/space_ops.ts:11-27 | without a shape, exactly the rectangular lists are accepted, and the result is well formed |
| `SpaceOps.FromValue` | src/util/space_ops.ts:40-49 | an m x n matrix of `val`; a negative row count throws, and so does a negative column count once there is a row; a 0 x n shape with negative n gives an empty matrix that is not well formed |
| `SpaceOps.OperandArray` | src/util/space_ops.ts:52-53 | a number operand becomes a matrix of the receiver's shape |
| `SpaceOps.ZipWith` | src/util/space_ops.ts:109-117 | `map` keeps the shape and combines entries at the same position |
| `SpaceOps.Elementwise` | src/util/space_ops.ts:51-93 | throws iff a matrix operand has another shape; otherwise entry (i, j) combines the receiver's and the operand's entries |
| `SpaceOps.Add` | src/util/space_ops.ts:51-60 | elementwise sum, scalars broadcast, throws on a shape mismatch |
| `SpaceOps.Subtract` | src/util/space_ops.ts:62-71 | elementwise difference, scalars broadcast, throws on a shape mismatch |
| `SpaceOps.Multiply` | src/util/space_ops.ts:73-82 | elementwise product, scalars broadcast, throws on a shape mismatch |
| `SpaceOps.Divide` | src/util/space_ops.ts:84-93 | elementwise quotient (times the divisor gives back the receiver), throws on a shape mismatch |
| `SpaceOps.ScalarIsBroadcast` | src/util/space_ops.ts:51-82 | a number operand acts as the constant matrix of the receiver's shape |
| `SpaceOps.Extensionality` | src/util/space_ops.ts:7-9 | two well-formed matrices with equal shape and entries are equal |
| `SpaceOps.AddUndoesSubtract` | src/util/space_ops.ts:51-71 | adding back what was subtracted restores the matrix |
| `SpaceOps.DivideUndoesMultiply` | src/util/space_ops.ts:73-93 | dividing by a non-zero operand undoes multiplying by it |
| `SpaceOps.Identity` | src/util/space_ops.ts:150-160 | a size x size matrix with ones exactly on the diagonal |
| `SpaceOps.Product` | src/util/space_ops.ts:119-140 | the product of an m x n and an n x p matrix is m x p |
| `SpaceOps.MatMul` | src/util/space_ops.ts:119-140 | throws iff the inner dimensions differ; otherwise the triple loop computes the matrix product entry by entry |
| `SpaceOps.IdentityLeftPrefix` | src/util/space_ops.ts:131-137 | the partial sums of identity times a select a's entry |
| `SpaceOps.IdentityRightPrefix` | src/util/space_ops.ts:131-137 | the partial sums of a times identity select a's entry |
| `SpaceOps.IdentityNeutral` | src/util/space_ops.ts:119-160 | the identity is neutral on both sides of the product |
| `SpaceOps.Transpose` | src/util/space_ops.ts:355-360 | throws on a matrix with no rows; otherwise entry (i, j) moves to (j, i) and the dimensions swap |
| `SpaceOps.TransposeInvolution` | src/util/space_ops.ts:355-360 | transposing twice gives back any matrix with a row and a column |
| `SpaceOps.Flat` | src/util/space_ops.ts:200-202 | a matrix of empty rows flattens to nothing |
| `SpaceOps.ColumnMajor` | src/util/space_ops.ts:235-242 | the column-major filling is m rows of n entries |
| `SpaceOps.ColumnMajorPlaces` | src/util/space_ops.ts:237-242 | entry k goes to row k mod m, column k div m |
| `SpaceOps.PlaceNext` | src/util/space_ops.ts:237-242 | writing entry k keeps the earlier entries in place |
| `SpaceOps.PlacedIsColumnMajor` | src/util/space_ops.ts:237-244 | once every entry is written, the matrix is the column-major filling |
| `SpaceOps.Reshape` | src/util/space_ops.ts:230-245 | throws exactly when m n is not the entry count or m is negative; otherwise an m x n matrix filled column-major, and the empty 0 x n matrix (not well formed) when n is negative |
| `SpaceOps.DropAt` | src/util/space_ops.ts:349-350 | removing index j shifts the later entries down by one |
| `SpaceOps.SubMatrix` | src/util/space_ops.ts:346-353 | removing a row and a column of an n x n matrix leaves an (n-1) x (n-1) matrix |
| `SpaceOps.GetDeterminant` | src/util/space_ops.ts:247-264 | throws for a non-square matrix (and for sizes 0 and 1, which read a missing row); a 2 x 2 gives ad - bc |
| `SpaceOps.SubMatrixOfIdentity` | src/util/space_ops.ts:346-353 | the identity without row 0 and column 0 is the smaller identity |
| `SpaceOps.IdentityCofactorSum` | src/util/space_ops.ts:259-263 | along the identity's first row only the first cofactor contributes |
| `SpaceOps.IdentityDeterminant` | src/util/space_ops.ts:247-264 | the identity of every size >= 2 has determinant 1 |
| `SpaceOps.FlatOfColumn` | src/util/space_ops.ts:200-202 | flattening a one-column matrix gives its column |
| `SpaceOps.Cross` | src/util/space_ops.ts:387-405 | throws unless both operands are 3 x 1; otherwise the column of the vector cross product |
| `SpaceOps.CrossIsVectorCross` | src/util/space_ops.ts:387-405 | on columns, the matrix cross product is `Vector3.cross` |
| `SpaceOps.Lerp` | src/util/space_ops.ts:455-464 | throws iff the shapes differ; otherwise the entrywise numeric interpolation |
| `SpaceOps.LerpEndpoints` | src/util/space_ops.ts:455-464 | alpha 0 gives the receiver, alpha 1 the other matrix |
| `SpaceOps.QuatOfColumn` | src/util/space_ops.ts:523-526 | a well-formed 4 x 1 matrix is the column of its four entries |
| `SpaceOps.QuaternionMultiplication` | src/util/space_ops.ts:514-536 | throws unless both operands are 4 x 1; otherwise the Hamilton product |
| `SpaceOps.QuaternionConjugate` | src/util/space_ops.ts:549-559 | throws unless 4 x 1; otherwise negates x, y, z and keeps w |
| `SpaceOps.ConjugateInvolution` | src/util/space_ops.ts:549-559 | conjugating a quaternion twice gives it back |
| `SpaceOps.QuaternionIdentityNeutral` | src/util/space_ops.ts:514-536 | (0, 0, 0, 1) is neutral on both sides of the product |
| `SpaceOps.HamiltonConjugate` | src/util/space_ops.ts:528-535 | conjugation reverses the Hamilton formula |
| `SpaceOps.ConjugateOfProduct` | src/util/space_ops.ts:514-559 | the conjugate of a product is the product of the conjugates in reverse order |
| `SpaceOps.LineIntersection` | src/util/space_ops.ts:578-599 | throws iff a line lacks a second point or the direction determinant is 0 (parallel lines); the result lies in the plane z = 0 |
| `SpaceOps.IntersectionEquations` | src/util/space_ops.ts:590-596 | the undivided intersection formula satisfies both line equations |
| `SpaceOps.ScaledPointOnLine` | src/util/space_ops.ts:595-596 | dividing by a non-zero determinant keeps the line equation |
| `SpaceOps.IntersectionLiesOnBothLines` | src/util/space_ops.ts:578-599 | the returned point lies on both lines |
| `SpaceOps.Padded` | src/util/vector.ts:153-160 | the 3 x 3 identity with the matrix's own entries in its top-left block |
| `SpaceOps.FromArray` | src/util/vector.ts:13-21 | succeeds iff the matrix is 3 x 1, and then is the vector whose column is that matrix |
| `SpaceOps.VectorMatMul` | src/util/vector.ts:152-165 | `matMul` with the column built as intended multiplies v by the padded matrix |
| `SpaceOps.ToMArray` | src/util/vector.ts:120-126 | `toMArray` as intended: a well-formed 3 x 1 column |
| `SpaceOps.PaddedIdentity` | src/util/vector.ts:152-165 | padding an identity gives the 3 x 3 identity, which maps every vector to itself |
| `SpaceOps.ToMArrayAsWritten` | src/util/vector.ts:120-126 | as written, `toMArray` always throws |
| `SpaceOps.VectorMatMulAsWrittenThrows` | src/util/vector.ts:152-165 | as written, `matMul` by the identity throws instead of returning the vector |
| `Mobjects.AllInMembers` | src/mobject/types/mobject.ts:13 | a child list is within the arena exactly when each of its ids names a mobject |
| `Mobjects.EditKeepsLinked` | src/mobject/types/mobject.ts:13 | replacing one mobject by one whose children exist keeps every child link valid |
| `Mobjects.FamilyWithin` | src/mobject/types/mobject.ts:136-142 | a completed traversal starts with the mobject itself, stays in the arena and lists nobody twice |
| `Mobjects.GetFamily` | src/mobject/types/mobject.ts:136-142 | a family starts with the mobject itself, lists only mobjects of the arena and has no duplicates; `None` stands for the overflow of a cyclic child graph |
| `Mobjects.FamiliesWithin` | src/mobject/types/mobject.ts:138-140 | the children's families, concatenated, stay in the arena |
| `Mobjects.FamilyFuelMonotone` | src/mobject/types/mobject.ts:136-142 | once the traversal completes, more recursion budget gives the same family |
| `Mobjects.FamiliesFuelMonotone` | src/mobject/types/mobject.ts:138-140 | the same for the children's families |
| `Mobjects.MemberFamilyIncluded` | src/mobject/types/mobject.ts:138-140 | the family of every listed child is part of the combined family |
| `Mobjects.ChildFamilyIncluded` | src/mobject/types/mobject.ts:136-142 | a child of a mobject with a finite family has a finite family, contained in its parent's |
| `Mobjects.FamilyMembers` | src/mobject/types/mobject.ts:136-142 | every family member other than the mobject itself lies in the family of one of its children |
| `Mobjects.FamiliesMemberSource` | src/mobject/types/mobject.ts:138-140 | every member of the combined family comes from the family of one listed child |
| `Mobjects.FamilyBelow` | src/mobject/types/mobject.ts:136-142 | a family only reaches mobjects created before any bound the child links respect |
| `Mobjects.FamiliesBelow` | src/mobject/types/mobject.ts:138-140 | the same for the children's families |
| `Mobjects.FamilyWithPoints` | src/mobject/types/mobject.ts:128-130 | exactly the family members that have points, without repeats; defined exactly when the family is |
| `Mobjects.LeafFamily` | src/mobject/types/mobject.ts:136-142 | a mobject without children is its own family, and its own family with points when it has points |
| `Mobjects.VectorizedFamily` | src/mobject/types/vectorized_mobject.ts:990-994 | exactly the family members that are vectorized mobjects, without repeats |
| `Mobjects.BoundaryPoints` | src/mobject/types/mobject.ts:120-126 | the boundary points are defined exactly when the family is |
| `Mobjects.Smallest` | src/mobject/types/mobject.ts:150-151 | `Math.min` of a non-empty list is one of its values and below all of them |
| `Mobjects.Largest` | src/mobject/types/mobject.ts:156-158 | `Math.max` of a non-empty list is one of its values and above all of them |
| `Mobjects.Coords` | src/mobject/types/mobject.ts:149 | one coordinate per point |
| `Mobjects.CriticalPoint` | src/mobject/types/mobject.ts:106-118 | defined exactly when the family is; the origin when there are no boundary points |
| `Mobjects.CoordRange` | src/mobject/types/mobject.ts:144-160 | the smallest and largest coordinate along an axis are attained by some point and bound all points |
| `Mobjects.ExtremumBounds` | src/mobject/types/mobject.ts:144-160 | a negative key gives the minimum, a positive key the maximum, zero the midpoint of the two, all attained by points |
| `Mobjects.CriticalPointAxes` | src/mobject/types/mobject.ts:106-118 | each coordinate of the critical point is the extremum along that axis chosen by the sign of the direction's coordinate |
| `Mobjects.OwnCalls` | src/mobject/types/mobject.ts:178-180 | one call per updater of the mobject, in list order, each with the same dt |
| `Mobjects.FamilySameLinks` | src/mobject/types/mobject.ts:136-142 | families depend on the child links alone: changing points, style or updaters leaves them unchanged |
| `Mobjects.FamiliesSameLinks` | src/mobject/types/mobject.ts:138-140 | the same for the children's families |
| `Mobjects.LinkedSameLinks` | src/mobject/types/mobject.ts:13 | arenas with the same child links are equally well linked |
| `Mobjects.UpdateCompletes` | src/mobject/types/mobject.ts:173-187 | an update only overflows where the family traversal does |
| `Mobjects.Update` | src/mobject/types/mobject.ts:173-187 | only a recursive update of an unsuspended mobject can overflow, and never when its family is finite |
| `Mobjects.ChildrenUpdatesComplete` | src/mobject/types/mobject.ts:182-186 | the children's updates complete when their families do |
| `Mobjects.UpdateOrder` | src/mobject/types/mobject.ts:173-187 | a suspended mobject calls nothing; otherwise its own updaters run first in list order, and nothing else when not recursive |
| `Mobjects.SpliceIndex` | src/mobject/types/mobject.ts:205 | the insertion point `splice` uses lies within the list |
| `Mobjects.AddedUpdater` | src/mobject/types/mobject.ts:197-206 | one updater more; appended without an index, otherwise inserted at the splice position with the others kept around it |
| `Mobjects.RemovedUpdater` | src/mobject/types/mobject.ts:213-215 | the updater no longer occurs and every other updater occurs exactly when it did before |
| `Mobjects.RemoveUndoesAdd` | src/mobject/types/mobject.ts:197-215 | removing an updater that was absent before adding it restores the old list, wherever it was inserted |
| `Mobjects.Without` | src/mobject/types/mobject.ts:87-91 | the children that remain are exactly the old children not among the removed ones |
| `Mobjects.MergeMoves` | src/mobject/types/mobject.ts:66-85 | adding to the front or the back keeps every old child, gains the new ones and never lists a child twice |
| `Mobjects.ReAddExample` | src/mobject/types/mobject.ts:66-85 | re-adding an existing child moves it to the front or back rather than duplicating it |
| `Mobjects.RemoveKeepsOrder` | src/mobject/types/mobject.ts:87-91 | removal works part by part on a concatenation and leaves a list without removed children unchanged |
| `Mobjects.MovedPoints` | src/mobject/types/mobject.ts:100-104 | every point p becomes func(p - pivot) + pivot |
| `Mobjects.Apply` | src/mobject/types/mobject.ts:93-105 | a family-wide edit never changes child links |
| `Mobjects.Edited` | src/mobject/types/mobject.ts:100-104 | the arena keeps its size |
| `Mobjects.EditedLinked` | src/mobject/types/mobject.ts:100-104 | a family-wide edit keeps every child link valid |
| `Mobjects.ShiftIgnoresPivot` | src/mobject/types/mobject.ts:269-271 | shifting about any pivot adds the shift to every point |
| `Mobjects.ScaleAboutPivot` | src/mobject/types/mobject.ts:285-291 | scaling about a pivot scales every offset from it and leaves the pivot in place |
| `Mobjects.ScaleAlongUniform` | src/mobject/types/mobject.ts:273-291 | `scale` by a vector with the same factor on every axis moves points as `scaleUniformly` does |
| `Mobjects.Translated` | src/mobject/types/mobject.ts:269-271 | a translation keeps the arena's size and child links |
| `Mobjects.ShiftIsTranslation` | src/mobject/types/mobject.ts:269-271 | a shift moves every point of the family members by the same vector, whatever the pivot |
| `Mobjects.ScaleKeepsPivot` | src/mobject/types/mobject.ts:285-291 | after scaling, only the points of the listed members change, each offset from the pivot multiplied by the factor |
| `Mobjects.Arena.constructor` | src/mobject/types/mobject.ts:9-16 | an empty arena is well linked |
| `Mobjects.Arena.NewMobject` | src/mobject/types/mobject.ts:18-28 | a new mobject has the colour, no children, no updaters, no points and is not suspended |
| `Mobjects.Arena.NewVMobject` | src/mobject/types/vectorized_mobject.ts:26-88 | a new vectorized mobject also gets the colour as its fill and stroke colour, the default stroke width and no background colour |
| `Mobjects.Arena.AddToFront` | src/mobject/types/mobject.ts:66-75 | throws exactly when the mobject is among the added ones; otherwise its children become the added ones followed by the others |
| `Mobjects.Arena.Add` | src/mobject/types/mobject.ts:62-64 | the same as adding to the front |
| `Mobjects.Arena.AddToBack` | src/mobject/types/mobject.ts:77-85 | throws exactly when the mobject is among the added ones; otherwise the old children not added come first |
| `Mobjects.Arena.Remove` | src/mobject/types/mobject.ts:87-91 | only the listed children are dropped, the rest keep their order, nothing else changes |
| `Mobjects.Arena.ApplyToMembers` | src/mobject/types/mobject.ts:101-104 | each listed member is edited once and no other mobject changes |
| `Mobjects.Arena.ApplyOverPoints` | src/mobject/types/mobject.ts:93-105 | every point of every family member with points becomes func(p - pivot) + pivot, the pivot being the given point or the critical point; nothing else changes |
| `Mobjects.Arena.ApplyFunction` | src/mobject/types/mobject.ts:162-164 | the same with the origin as pivot |
| `Mobjects.Arena.Shift` | src/mobject/types/mobject.ts:269-271 | every point of the family members with points moves by delta and nothing else changes |
| `Mobjects.Arena.Scale` | src/mobject/types/mobject.ts:273-283 | every offset from the pivot is multiplied axis by axis by the factor |
| `Mobjects.Arena.ScaleUniformly` | src/mobject/types/mobject.ts:285-291 | every offset from the pivot is multiplied by the factor and the pivot stays put |
| `Mobjects.Arena.SetUpdating` | src/mobject/types/mobject.ts:238-256 | sets the suspension flag on the mobject and, when recursive, on its whole family, and changes nothing else |
| `Mobjects.Arena.SuspendUpdating` | src/mobject/types/mobject.ts:238-246 | the reached mobjects are suspended, the others unchanged, and a recursive update then calls nothing |
| `Mobjects.Arena.ResumeUpdating` | src/mobject/types/mobject.ts:248-256 | the reached mobjects are no longer suspended, the others unchanged |
| `Mobjects.Arena.ClearUpdaters` | src/mobject/types/mobject.ts:221-229 | the updater lists of the mobject and, when recursive, of its whole family become empty; nothing else changes |
| `Mobjects.Arena.AddUpdater` | src/mobject/types/mobject.ts:197-211 | inserts the updater; the returned calls are those of `update(0)` when asked for and none otherwise, and the family is unchanged |
| `Mobjects.Arena.MatchUpdaters` | src/mobject/types/mobject.ts:231-236 | the family's updaters are cleared and the mobject then holds the other mobject's updaters as they stand after the clearing; the invocations returned are those of one `update(0)` after each addition, none on a failure |
| `Mobjects.Arena.AddUpdaters` | src/mobject/types/mobject.ts:233-235 | the updaters are appended to the mobject's list in order; no child link changes; the invocations are those of one `update(0)` of the mobject after each addition, in order |
| `Mobjects.Arena.RemoveUpdater` | src/mobject/types/mobject.ts:213-215 | only the mobject's updater list changes, to the list without that updater |
| `Mobjects.Arena.CopyWithin` | src/mobject/types/mobject.ts:30-40 | none exactly when the original's family does not close within the budget; otherwise a deep copy (`IsCopy`): a new mobject with the original's colour, flag, points and style and no updaters, whose children are, in order, deep copies of the original's children, every copied mobject appended after the existing ones, which are untouched |
| `Mobjects.Arena.CopyChildren` | src/mobject/types/mobject.ts:32 | the submobjects mapped to their deep copies, in order; none exactly when one of their families does not close within the budget |
| `Mobjects.Arena.Copy` | src/mobject/types/mobject.ts:38-40 | none exactly when the family is cyclic; otherwise a deep copy of the whole family, whose own family is complete and made only of new mobjects |
| `Mobjects.CopyFamily` | src/mobject/types/mobject.ts:30-36 | a deep copy's family is complete and made only of mobjects appended by the copy, so it shares nothing with the original |
| `Mobjects.EditBesideCopy` | src/animation/animation.ts:52-56 | a family-wide edit of the original made after copying it changes the existing mobjects as it would have without the copy, and leaves the copy a complete deep copy |
| `VectorizedMobjects.CubicBezierTuples` | src/mobject/types/vectorized_mobject.ts:637-649 | the trailing remainder is dropped: floor(n / 4) curves, curve k being points 4k to 4k + 3 |
| `VectorizedMobjects.HasNewPathStarted` | src/mobject/types/vectorized_mobject.ts:453-455 | true exactly when the points are whole curves plus one |
| `VectorizedMobjects.NumCurves` | src/mobject/types/vectorized_mobject.ts:697-699 | the number of whole curves: floor(n / 4), with fewer than four points left over |
| `VectorizedMobjects.CubicBezierTuplesJoin` | src/mobject/types/vectorized_mobject.ts:637-649 | the curves joined in order give back the points up to the trailing remainder |
| `VectorizedMobjects.JsSliceIndex` | src/mobject/types/vectorized_mobject.ts:706 | the index `slice` resolves lies within the list |
| `VectorizedMobjects.GetNthCurvePoints` | src/mobject/types/vectorized_mobject.ts:701-707 | throws exactly when n is not below the number of curves; for a curve index it is that curve |
| `VectorizedMobjects.GetNthCurvePointsMinusOne` | src/mobject/types/vectorized_mobject.ts:701-707 | curve -1 passes the range check and reads an empty slice |
| `VectorizedMobjects.ConsiderPointsEqualsProperties` | src/mobject/types/vectorized_mobject.ts:601-629 | with a non-negative tolerance the test is reflexive, 3D equality implies 2D equality, and 2D equality plus a close z gives 3D equality |
| `VectorizedMobjects.ConsiderPointsEquals2D` | src/mobject/types/vectorized_mobject.ts:601-614 | with a non-negative tolerance, points with the same x and y are equal |
| `VectorizedMobjects.ConsiderPointsEquals` | src/mobject/types/vectorized_mobject.ts:616-629 | 3D equality implies 2D equality, and with a non-negative tolerance every point equals itself |
| `VectorizedMobjects.ConsiderPointsEqualsNotSymmetric` | src/mobject/types/vectorized_mobject.ts:601-629 | the tolerance is relative to the second point, so the test is not symmetric |
| `VectorizedMobjects.Multiples` | src/mobject/types/vectorized_mobject.ts:661-664 | exactly the multiples of four from 4 up to, not including, the length, in increasing order |
| `VectorizedMobjects.SplitIndices` | src/mobject/types/vectorized_mobject.ts:655-666 | starts at 0 and ends at the length, never decreases, and every inner index is a multiple of four where the predicate holds |
| `VectorizedMobjects.Piece` | src/mobject/types/vectorized_mobject.ts:668-674 | a slice is kept only when it holds at least one whole curve |
| `VectorizedMobjects.Pieces` | src/mobject/types/vectorized_mobject.ts:668-677 | every kept slice holds at least four points |
| `VectorizedMobjects.PiecesAreSlices` | src/mobject/types/vectorized_mobject.ts:668-677 | each kept slice lies between two consecutive split indices at least four apart |
| `VectorizedMobjects.SubpathsFromPoints` | src/mobject/types/vectorized_mobject.ts:655-677 | every subpath holds at least four points |
| `VectorizedMobjects.SubpathsAreSlices` | src/mobject/types/vectorized_mobject.ts:655-677 | every subpath is a contiguous slice that starts at 0 or at a cut multiple of four and ends at the length or at such a multiple |
| `VectorizedMobjects.PiecesJoin` | src/mobject/types/vectorized_mobject.ts:668-677 | when consecutive split indices are equal or a whole curve apart, the kept slices join to the points between the first and last index |
| `VectorizedMobjects.SubpathsJoin` | src/mobject/types/vectorized_mobject.ts:655-677 | for a list of whole curves, the subpaths joined in order are exactly the points |
| `VectorizedMobjects.GetSubpathsFromPoints` | src/mobject/types/vectorized_mobject.ts:679-684 | every subpath has at least four points, and for whole curves the subpaths joined in order are the points |
| `VectorizedMobjects.GetSubpathsFromPoints2D` | src/mobject/types/vectorized_mobject.ts:686-691 | the same for the 2D comparison |
| `VectorizedMobjects.SubpathsWithoutCuts` | src/mobject/types/vectorized_mobject.ts:655-677 | without any cut, a path of at least one curve is a single subpath |
| `VectorizedMobjects.FirstSubpath` | src/mobject/types/vectorized_mobject.ts:447-451 | a path of at least one curve has a first subpath, which starts at its first point |
| `VectorizedMobjects.SubpathsNonEmpty` | src/mobject/types/vectorized_mobject.ts:789-795 | every subpath has a last point to read |
| `VectorizedMobjects.SubpathWhole` | src/mobject/types/vectorized_mobject.ts:655-677 | a subpath of a whole-curve path holds whole curves, at least one |
| `VectorizedMobjects.SubpathsWhole` | src/mobject/types/vectorized_mobject.ts:655-677 | the same for every subpath |
| `VectorizedMobjects.RepeatIndices` | src/mobject/types/vectorized_mobject.ts:838-840 | one index per target curve, none for a target of zero or fewer |
| `VectorizedMobjects.RepeatIndicesBelow` | src/mobject/types/vectorized_mobject.ts:838-840 | every repeat index names an existing curve |
| `VectorizedMobjects.SplitFactors` | src/mobject/types/vectorized_mobject.ts:842-844 | one factor per existing curve |
| `VectorizedMobjects.SplitFactorsProperties` | src/mobject/types/vectorized_mobject.ts:836-844 | the factors sum to the target number of curves (zero when that is not positive), and each is at least 1 when no curve is removed |
| `VectorizedMobjects.InsertedPoints` | src/mobject/types/vectorized_mobject.ts:832-861 | fails exactly for a single point and a negative count; a single point gives 4n copies of itself |
| `VectorizedMobjects.CurvePiecesLength` | src/mobject/types/vectorized_mobject.ts:852-857 | cutting a curve into j pieces gives j times its points |
| `VectorizedMobjects.SplitCurvesLength` | src/mobject/types/vectorized_mobject.ts:848-858 | the cut curves hold four points per piece |
| `VectorizedMobjects.InsertedLength` | src/mobject/types/vectorized_mobject.ts:832-861 | c whole curves with n inserted give exactly 4 (c + n) points, none when c + n is not positive |
| `VectorizedMobjects.OnePiece` | src/mobject/types/vectorized_mobject.ts:852-857 | a split factor of 1 keeps the curve unchanged |
| `VectorizedMobjects.InsertNothing` | src/mobject/types/vectorized_mobject.ts:832-861 | inserting no curve returns the whole curves unchanged |
| `VectorizedMobjects.InsertNCurvesToPointList` | src/mobject/types/vectorized_mobject.ts:832-861 | the nested loops push exactly the pieces the specification function describes |
| `VectorizedMobjects.AppendPieces` | src/mobject/types/vectorized_mobject.ts:852-858 | the inner loop appends the sf pieces of one curve, from alpha j to alpha j + 1, to the points built so far |
| `VectorizedMobjects.CurveIndexInRange` | src/mobject/types/vectorized_mobject.ts:947-948 | for at least one curve the interpolated index names a curve and the residue lies in [0, 1] |
| `VectorizedMobjects.PointFromProportion` | src/mobject/types/vectorized_mobject.ts:713-717 | defined whenever the path has a curve |
| `VectorizedMobjects.PointFromProportionEnds` | src/mobject/types/vectorized_mobject.ts:713-717 | proportion 0 is the first point and proportion 1 the end anchor of the last curve |
| `VectorizedMobjects.PartialPath` | src/mobject/types/vectorized_mobject.ts:942-982 | a at most 0 and b at least 1 copies the source; otherwise a source without curves gives nothing |
| `VectorizedMobjects.JoinedCurveRange` | src/mobject/types/vectorized_mobject.ts:970-972 | the curves from lo to hi joined are the points from 4 lo to 4 hi |
| `VectorizedMobjects.PartialPathStart` | src/mobject/types/vectorized_mobject.ts:942-982 | the part starts at the point at proportion a |
| `VectorizedMobjects.PartialPathShape` | src/mobject/types/vectorized_mobject.ts:942-982 | within one curve the part has four points; across curves 4 (upper - lower + 1), the curves between copied verbatim; with the indices reversed only the two end pieces |
| `VectorizedMobjects.PartialPathPieces` | src/mobject/types/vectorized_mobject.ts:962-980 | across curves the part is the lower curve's tail, the curves between and the upper curve's head |
| `VectorizedMobjects.CurveTo` | src/mobject/types/vectorized_mobject.ts:385-399 | throws exactly on an empty path; otherwise the old points are kept, 3 points are appended on a pending new path and 4 otherwise, ending at the anchor |
| `VectorizedMobjects.CurveToAddsCurve` | src/mobject/types/vectorized_mobject.ts:385-399 | the path gains one curve, from the previous last point through both handles to the anchor |
| `VectorizedMobjects.LineTo` | src/mobject/types/vectorized_mobject.ts:401-409 | throws exactly on an empty path |
| `VectorizedMobjects.LineToIsStraight` | src/mobject/types/vectorized_mobject.ts:401-409 | the new curve holds the points at 0, 1/3, 2/3 and 1 of the segment from the last point to pt, and the path ends at pt |
| `VectorizedMobjects.LineToAsWritten` | src/mobject/types/vectorized_mobject.ts:401-409 | as written, throws exactly on an empty path |
| `VectorizedMobjects.InterpolateValueAsWritten` | src/util/bezier.ts:51-53 | as written, `interpolateValue` on two `Vector3` objects never yields a point |
| `VectorizedMobjects.LineToAsWrittenLosesEnd` | src/mobject/types/vectorized_mobject.ts:401-409 | as written, the path ends in an entry that is not a point, where the corrected path ends at pt |
| `VectorizedMobjects.QuadraticCurveTo` | src/mobject/types/vectorized_mobject.ts:438-445 | throws exactly on an empty path |
| `VectorizedMobjects.QuadraticHandles` | src/mobject/types/vectorized_mobject.ts:438-445 | each cubic handle lies two thirds of the way from its anchor to the quadratic control point |
| `VectorizedMobjects.ClosePath` | src/mobject/types/vectorized_mobject.ts:447-451 | an empty path throws; a path whose ends are already close is unchanged (corrected; see Findings) |
| `VectorizedMobjects.ClosePathCloses` | src/mobject/types/vectorized_mobject.ts:447-466 | a successful close keeps the old points and leaves the path closed; every path of at least one curve can be closed (corrected; see Findings) |
| `VectorizedMobjects.Popped` | src/mobject/types/vectorized_mobject.ts:549-553 | drops exactly the lone start point of a pending new path |
| `VectorizedMobjects.AppendedCurves` | src/mobject/types/vectorized_mobject.ts:549-554 | appending whole curves keeps the curves of both paths, in order |
| `VectorizedMobjects.ColorList` | src/mobject/types/vectorized_mobject.ts:99 | the requested colours followed by `color` when it is given |
| `VectorizedMobjects.ResizedColors` | src/mobject/types/vectorized_mobject.ts:108-116 | an empty request changes nothing; otherwise the new length is the request's when unset, and the larger of old and requested otherwise, and the list is the request stretched to that length |
| `VectorizedMobjects.ResizedColorsIdempotent` | src/mobject/types/vectorized_mobject.ts:108-116 | repeating the same request changes nothing more |
| `VectorizedMobjects.ResizedColorsKeepRequest` | src/mobject/types/vectorized_mobject.ts:108-116 | every requested colour appears in the new list |
| `VectorizedMobjects.ReadColors` | src/mobject/types/vectorized_mobject.ts:181-183 | one entry per index, undefined past the end of the list read |
| `VectorizedMobjects.StrokeColorsAsWrittenReadsPastEnd` | src/mobject/types/vectorized_mobject.ts:174-183 | as written, a two-colour stroke list given one colour becomes that colour followed by undefined |
| `VectorizedMobjects.StrokeColorsAsWritten` | src/mobject/types/vectorized_mobject.ts:166-183 | as written, unset only for an empty request on an unset list; entry i is the requested colour i, undefined past the request, and the length is the longer of the two lists |
| `VectorizedMobjects.StrokeColorsAsWrittenAgrees` | src/mobject/types/vectorized_mobject.ts:167-183 | when the request is at least as long as the old list, the code as written and the corrected update agree |
| `VectorizedMobjects.BackgroundStrokeAsWrittenChangesForeground` | src/mobject/types/vectorized_mobject.ts:148-165 | as written, a background stroke request overwrites the foreground stroke list |
| `VectorizedMobjects.BackgroundStrokeAsWritten` | src/mobject/types/vectorized_mobject.ts:148-165 | as written, throws exactly when the foreground list is unset; otherwise the foreground list keeps its length and entry i becomes the requested colour i, undefined past the request |
| `VectorizedMobjects.GetFillColors` | src/mobject/types/vectorized_mobject.ts:297-299 | the fill list, or [TRANSPARENT] when unset |
| `VectorizedMobjects.GetStrokeColors` | src/mobject/types/vectorized_mobject.ts:311-321 | the chosen stroke list, or [TRANSPARENT] when it is unset or empty, so never empty |
| `VectorizedMobjects.Painted` | src/mobject/types/vectorized_mobject.ts:89-194 | painting keeps a vectorized mobject vectorized and changes nothing but its style |
| `VectorizedMobjects.PaintedIdempotent` | src/mobject/types/vectorized_mobject.ts:89-194 | painting twice is painting once, and only the chosen colour list and width change |
| `VectorizedMobjects.Prepared` | src/mobject/types/vectorized_mobject.ts:770-777 | every prepared path has at least one point (corrected; see Findings) |
| `VectorizedMobjects.PreparedWhole` | src/mobject/types/vectorized_mobject.ts:770-777 | preparing a whole-curve, empty or pending path leaves at least one whole curve and nothing else (corrected; see Findings) |
| `VectorizedMobjects.NthSubpath` | src/mobject/types/vectorized_mobject.ts:787-796 | fails exactly when there are no subpaths; past the end it is four copies of the last subpath's last point |
| `VectorizedMobjects.NthSubpathWhole` | src/mobject/types/vectorized_mobject.ts:787-796 | every round takes a whole-curve subpath from each side |
| `VectorizedMobjects.AlignedPaths` | src/mobject/types/vectorized_mobject.ts:765-814 | equal point counts change nothing |
| `VectorizedMobjects.InsertedWhole` | src/mobject/types/vectorized_mobject.ts:832-861 | adding d curves to a whole-curve path adds 4 d points |
| `VectorizedMobjects.ExtraCurvesEqualize` | src/mobject/types/vectorized_mobject.ts:802-803 | giving the shorter of two whole-curve paths the missing curves makes them equally long |
| `VectorizedMobjects.AlignedRoundEqual` | src/mobject/types/vectorized_mobject.ts:798-810 | in each round both sides come out equally long |
| `VectorizedMobjects.AlignedRoundsEqual` | src/mobject/types/vectorized_mobject.ts:798-810 | after any number of rounds both new paths are equally long |
| `VectorizedMobjects.AlignedPathsEqualCounts` | src/mobject/types/vectorized_mobject.ts:765-814 | for whole-curve, empty or pending paths alignment succeeds and both sides get the same number of points (corrected; see Findings) |
| `VectorizedMobjects.AlignedPathsUnequal` | src/mobject/types/vectorized_mobject.ts:779-814 | with unequal counts the alignment is the rounds over the prepared paths' subpaths |
| `VectorizedMobjects.AlignedRoundsStep` | src/mobject/types/vectorized_mobject.ts:798-810 | each round appends its two subpaths to the new paths |
| `VectorizedMobjects.InsertedCurves` | src/mobject/types/vectorized_mobject.ts:816-830 | fails exactly for a single point and a negative count |
| `VectorizedMobjects.InsertedCurvesKeepPending` | src/mobject/types/vectorized_mobject.ts:816-830 | adding curves keeps a pending new path pending and whole curves whole |
| `VectorizedMobjects.WithPoints` | src/mobject/types/vectorized_mobject.ts:337-339 | only the one mobject's points change |
| `VectorizedMobjects.SetPoints` | src/mobject/types/vectorized_mobject.ts:337-339 | the mobject's points become the given list and nothing else changes |
| `VectorizedMobjects.ClearPoints` | src/mobject/types/vectorized_mobject.ts:345-347 | the mobject's points become empty and nothing else changes |
| `VectorizedMobjects.AppendPoints` | src/mobject/types/vectorized_mobject.ts:349-351 | the points are pushed at the end and nothing else changes |
| `VectorizedMobjects.StartNewPath` | src/mobject/types/vectorized_mobject.ts:372-374 | one point is appended; on a path of whole curves it starts a new path |
| `VectorizedMobjects.AddCubicBezierCurve` | src/mobject/types/vectorized_mobject.ts:376-383 | four points are appended; on a path of whole curves they become its last curve |
| `VectorizedMobjects.AddCubicBezierCurveTo` | src/mobject/types/vectorized_mobject.ts:385-399 | fails exactly on an empty path and then changes nothing; otherwise the points become those of the curve specification |
| `VectorizedMobjects.AddLineTo` | src/mobject/types/vectorized_mobject.ts:401-409 | fails exactly on an empty path; otherwise appends the straight curve to pt (corrected; see Findings) |
| `VectorizedMobjects.Corners` | src/mobject/types/vectorized_mobject.ts:468-472 | a non-empty path keeps its points as a prefix (corrected; see Findings) |
| `VectorizedMobjects.CornersAddCurves` | src/mobject/types/vectorized_mobject.ts:468-472 | lines to k corners add k whole curves and end at the last corner (corrected; see Findings) |
| `VectorizedMobjects.AddPointsAsCorners` | src/mobject/types/vectorized_mobject.ts:468-472 | fails exactly on an empty path with corners to add; otherwise adds a line to each corner in turn (corrected; see Findings) |
| `VectorizedMobjects.AddQuadraticBezierCurveTo` | src/mobject/types/vectorized_mobject.ts:438-445 | fails exactly on an empty path; otherwise appends the degree-raised cubic |
| `VectorizedMobjects.ClosePathOf` | src/mobject/types/vectorized_mobject.ts:447-451 | the mobject's points become the closed path, or nothing changes when closing throws (corrected; see Findings) |
| `VectorizedMobjects.AppendVectorizedMobject` | src/mobject/types/vectorized_mobject.ts:549-554 | a pending new path is dropped and then the other mobject's points, read afterwards, are appended |
| `VectorizedMobjects.InsertNCurves` | src/mobject/types/vectorized_mobject.ts:816-830 | the points become the inserted curves, with a pending new path's start point put back at the end |
| `VectorizedMobjects.AppendCurves` | src/mobject/types/vectorized_mobject.ts:970-972 | the curves between the two indices are pushed in order |
| `VectorizedMobjects.PointwiseBecomePartial` | src/mobject/types/vectorized_mobject.ts:942-982 | the mobject's points become the part of the other mobject's path between proportions a and b, even when the other is itself |
| `VectorizedMobjects.AppendPart` | src/mobject/types/vectorized_mobject.ts:965-981 | within one curve the curve's partial is appended; across curves the lower curve's tail, the curves between and the upper curve's head, in that order |
| `VectorizedMobjects.GetSubcurve` | src/mobject/types/vectorized_mobject.ts:984-988 | a fresh copy whose points are the part between a and b; existing mobjects are untouched |
| `VectorizedMobjects.PreparePath` | src/mobject/types/vectorized_mobject.ts:770-777 | the mobject's points become the prepared path (corrected; see Findings) |
| `VectorizedMobjects.PreparePaths` | src/mobject/types/vectorized_mobject.ts:770-777 | both mobjects are prepared, this one first (corrected; see Findings) |
| `VectorizedMobjects.AlignPoints` | src/mobject/types/vectorized_mobject.ts:765-814 | both mobjects end with the aligned paths, or with the prepared paths when the second loop throws; whole-curve inputs end equally long (corrected; see Findings) |
| `VectorizedMobjects.AlignUnequal` | src/mobject/types/vectorized_mobject.ts:779-814 | the same once the point counts differ (corrected; see Findings) |
| `VectorizedMobjects.AlignPointsAsWritten` | src/mobject/types/vectorized_mobject.ts:765-772 | as written, alignment passes exactly when the point counts are already equal, and otherwise throws at `hasNoPoints` |
| `VectorizedMobjects.AlignSubpaths` | src/mobject/types/vectorized_mobject.ts:798-810 | the loop builds exactly the rounds of the specification function |
| `VectorizedMobjects.AlignRound` | src/mobject/types/vectorized_mobject.ts:799-809 | one round extends both new paths to the aligned rounds up to the next subpath |
| `VectorizedMobjects.PaintedNodes` | src/mobject/types/vectorized_mobject.ts:101-105 | painting keeps every mobject's children, points and updaters, and keeps vectorized mobjects vectorized |
| `VectorizedMobjects.PaintMembers` | src/mobject/types/vectorized_mobject.ts:101-105 | each listed mobject is painted once and no other mobject changes |
| `VectorizedMobjects.PaintedNodesStep` | src/mobject/types/vectorized_mobject.ts:101-105 | painting the next listed mobject finds it unpainted and changes only its node |
| `VectorizedMobjects.PaintFamily` | src/mobject/types/vectorized_mobject.ts:101-116 | fails exactly on a cyclic family; otherwise paints the vectorized family, or only the mobject without `family` |
| `VectorizedMobjects.SetFill` | src/mobject/types/vectorized_mobject.ts:89-117 | the fill lists of the vectorized family (or the mobject) are resized by the request |
| `VectorizedMobjects.SetStroke` | src/mobject/types/vectorized_mobject.ts:120-194 | the stroke or background stroke lists and widths of the vectorized family (or the mobject) are updated (corrected; see Findings) |
| `VectorizedMobjects.SetBackgroundStroke` | src/mobject/types/vectorized_mobject.ts:196-214 | the same as a background stroke request (corrected; see Findings) |
| `VectorizedMobjects.ColorRepainted` | src/mobject/types/vectorized_mobject.ts:227-229 | the repaint of `setColor` moves no point and changes no child link |
| `VectorizedMobjects.SetColorAsWritten` | src/mobject/types/vectorized_mobject.ts:227-231 | as written, `setColor` always throws: with the stack overflow and nothing changed on a cyclic family, otherwise at `super.setColor` after the repaint |
| `VectorizedMobjects.PaintedNodesKeepsTheRest` | src/mobject/types/vectorized_mobject.ts:89-194 | mobjects off the list are unchanged and painting twice is painting once |
| `Animations.SubAlpha` | src/animation/animation.ts:119-124 | every sub-alpha lies in [0, 1] |
| `Animations.SubAlphaWithoutLag` | src/animation/animation.ts:119-124 | without lag every submobject follows the overall progress |
| `Animations.SubAlphaEndpoints` | src/animation/animation.ts:119-124 | with a non-negative lag every submobject is at 0 at the start and at 1 at the end |
| `Animations.SubAlphaNonIncreasing` | src/animation/animation.ts:119-124 | with a non-negative lag a later submobject is never ahead of an earlier one |
| `Animations.EasedProgress` | src/animation/animation.ts:97-100 | alpha is clipped to [0, 1] before the rate function is applied |
| `Animations.FamiliesWithPoints` | src/animation/animation.ts:81-83 | as written: one family with points per animated mobject, defined exactly when every family is |
| `Animations.Zip` | src/animation/animation.ts:81-83 | tuple k holds the k-th entry of every list, as many tuples as the shortest list is long |
| `Animations.ZippedFamilies` | src/animation/animation.ts:81-83 | as intended: tuple k pairs the k-th family member with points of each animated mobject |
| `Animations.FamiliesNotZipped` | src/animation/animation.ts:81-83 | for a mobject and its copy, as written there are two one-element lists where the zipped families give one pair |
| `Animations.HookCalls` | src/animation/animation.ts:106-113 | one hook call per tuple, in order, each with a sub-alpha in [0, 1] |
| `Animations.HookCallsEndpoints` | src/animation/animation.ts:106-124 | with a non-negative lag, progress 0 and 1 reach every tuple as 0 and 1 |
| `Animations.UpdatesOf` | src/animation/animation.ts:85-89 | throws exactly when some listed mobject is undefined or has a cyclic family; otherwise includes every listed mobject's updater calls |
| `Animations.UpdatesOfStep` | src/animation/animation.ts:85-89 | one more mobject appends its own updater calls to those of the prefix, unless the prefix or the mobject throws |
| `Animations.UpdatesOfStopsAtError` | src/animation/animation.ts:85-89 | once an update throws, the later mobjects are not reached |
| `Animations.Animation.constructor` | src/animation/animation.ts:21-34 | the given mobject, run time, rate function and lag ratio (defaults 1, smooth, 0), not suspending, not a remover, no starting mobject |
| `Animations.Animation.AllMobjects` | src/animation/animation.ts:77-79 | the target and its starting copy |
| `Animations.Animation.AllMobjectsToUpdate` | src/animation/animation.ts:91-95 | the target is left out exactly when its updating is suspended during the animation |
| `Animations.Animation.UpdateMobjects` | src/animation/animation.ts:85-89 | the updater calls of updating each mobject to update in order, or the error the first failing update raises |
| `Animations.Animation.InterpolateMobject` | src/animation/animation.ts:106-113 | one hook call per zipped family tuple with its sub-alpha; throws before `begin` (corrected; see Findings) |
| `Animations.Animation.InterpolateSubMobjects` | src/animation/animation.ts:109-112 | the hook is called once per tuple, in order, each with its own sub-alpha |
| `Animations.Animation.Interpolate` | src/animation/animation.ts:97-100 | interpolates the mobject at the clipped and eased progress |
| `Animations.Animation.CreateStartingMobject` | src/animation/animation.ts:74-76 | a deep copy of the target appended to the arena, none exactly when the target's family is cyclic; the target's family is the same afterwards and the copy's is complete |
| `Animations.Animation.Snapshot` | src/animation/animation.ts:52-56 | fails exactly on a cyclic family, leaving the existing mobjects as they were; otherwise `Begun`: the starting mobject is a deep copy of the target, and the target's whole family is suspended if asked and nothing else changes, so that a recursive update calls nothing |
| `Animations.Animation.Begin` | src/animation/animation.ts:52-58 | fails exactly on a cyclic family, with the existing mobjects and the hooks as they were; otherwise the snapshot's `Begun` state and the hooks run once per zipped tuple at rate(0) |
| `Animations.BegunHolds` | src/animation/animation.ts:52-56 | copying and then suspending the target's family, or not, gives `Begun`: the suspension stays below the copy, which remains a deep copy, and the two families zip |
| `Animations.Animation.Finish` | src/animation/animation.ts:60-65 | fails exactly when there is no starting mobject or a family is cyclic, changing nothing; otherwise the hooks run at rate(1), then, if it was suspended, the target's whole family resumes and nothing else changes; without suspension the arena is unchanged |
| `Compositions.Timings` | src/animation/composition.ts:88-101 | one window per child |
| `Compositions.TimingsWindows` | src/animation/composition.ts:88-101 | the windows follow the children in order, the first starts at the given time and each lasts its child's run time |
| `Compositions.TimingsCons` | src/animation/composition.ts:92-98 | the first window, then the others from the lagged start |
| `Compositions.TimingsStep` | src/animation/composition.ts:97 | each start lies the lag ratio of the previous window after the previous start |
| `Compositions.TimingsWithoutLag` | src/animation/composition.ts:88-101 | without lag every child starts at once |
| `Compositions.TimingsBackToBack` | src/animation/composition.ts:88-101 | with lag ratio 1 each child starts when the previous one ends |
| `Compositions.TimingsOrdered` | src/animation/composition.ts:88-101 | with non-negative run times and lag no window starts before the first or ends before it starts |
| `Compositions.GetAnimationsWithTimings` | src/animation/composition.ts:88-101 | the loop accumulating the current time builds exactly the windows from time 0 |
| `Compositions.Ends` | src/animation/composition.ts:80 | the end time of each window |
| `Compositions.SpreadMax` | src/animation/composition.ts:79-81 | the largest value, attained and bounding all; none (minus infinity) exactly for an empty list |
| `Compositions.ChildAlpha` | src/animation/composition.ts:107-113 | the child's progress lies in [0, 1] and is 0 for an empty window |
| `Compositions.ChildAlphaWindow` | src/animation/composition.ts:107-113 | within a proper window the progress is 0 at its start, 1 at its end and linear in between |
| `Compositions.GroupTime` | src/animation/composition.ts:104 | the group time is alpha times the latest end |
| `Compositions.GroupCalls` | src/animation/composition.ts:103-117 | every child is interpolated once, in window order, with its progress at the group time |
| `Compositions.GroupCallsEndpoints` | src/animation/composition.ts:103-117 | at group progress 0 every child is at 0, and at progress 1 every child with a positive run time is at 1 |
| `Compositions.EachChild` | src/animation/composition.ts:52-74 | the same call on every child, in list order |
| `Compositions.FirstFail` | src/animation/composition.ts:52-74 | a run of child calls ends normally exactly when every call returns; otherwise with the exception of one of its calls |
| `Compositions.UpToFail` | src/animation/composition.ts:52-74 | a loop over child calls makes a prefix of them: all of them when none throws, otherwise up to and including a call that throws with the run's exception, every earlier call returning |
| `Compositions.StopsAt` | src/animation/composition.ts:52-74 | when the calls before position i return and the call at i throws, the loop makes exactly the calls up to i and ends with that call's exception |
| `Compositions.Targets` | src/animation/composition.ts:37 | the target mobject of each child |
| `Compositions.AnimationGroup.constructor` | src/animation/composition.ts:18-42 | without a group, a fresh group mobject whose children are the targets once each; then the windows, the latest end, and a zero run time replaced by the latest end |
| `Compositions.AnimationGroup.NewGroup` | src/animation/composition.ts:32-39 | the new group holds every target exactly once, the last occurrence kept |
| `Compositions.AnimationGroup.InitRunTime` | src/animation/composition.ts:76-86 | recomputes the windows and the latest end; a zero run time becomes the latest end |
| `Compositions.AnimationGroup.AllMobjects` | src/animation/composition.ts:44-46 | in a valid arena the members of the group are mobjects of the arena |
| `Compositions.AnimationGroup.Visit` | src/animation/composition.ts:52-74 | the same call on every child, in list order, until a child throws; that call is made, no later one is, and its exception is the result |
| `Compositions.AnimationGroup.Begin` | src/animation/composition.ts:52-56 | every child begins, in order; the first child that throws stops the loop and its exception propagates |
| `Compositions.AnimationGroup.Finish` | src/animation/composition.ts:58-62 | every child finishes, in order; the first child that throws stops the loop and its exception propagates |
| `Compositions.AnimationGroup.CleanUpFromScene` | src/animation/composition.ts:64-68 | every child cleans up, in order; the first child that throws stops the loop and its exception propagates |
| `Compositions.AnimationGroup.UpdateMobjects` | src/animation/composition.ts:70-74 | every child updates with the same dt, in order; the first child that throws stops the loop and its exception propagates |
| `Compositions.AnimationGroup.Interpolate` | src/animation/composition.ts:103-117 | every child is interpolated with its progress through its window at alpha times the latest end, until a child throws, whose exception propagates; the group's rate function is not applied |
| `Compositions.LaggedStart` | src/animation/composition.ts:172-189 | a group whose lag ratio defaults to 0.05 |
| `Compositions.ActiveIndex` | src/animation/composition.ts:154-160 | always a valid child: the first at or below 0, the last at or above 1, and the floor of n alpha in between |
| `Compositions.SwitchCalls` | src/animation/composition.ts:162-168 | a change of child finishes the active one and begins the new one before interpolating it; otherwise only the interpolation |
| `Compositions.SwitchRun` | src/animation/composition.ts:162-168 | a switch of the active child ends at its finish if that throws, at its begin if that throws, and otherwise makes every call and ends with the interpolation's outcome |
| `Compositions.Succession.constructor` | src/animation/composition.ts:123-137 | the underlying group with no active child: the given group mobject with the arena unchanged, or a new group node of the targets (last occurrences kept) appended; the windows, the latest end and the run time as `initRunTime` sets them |
| `Compositions.Succession.Create` | src/animation/composition.ts:123-141 | the group is built first, so its new group node is appended to the arena even when the call then throws, which it does exactly for an empty list |
| `Compositions.Succession.Begin` | src/animation/composition.ts:143-147 | recomputes the windows and their latest end, replaces a zero run time by that end, and begins the first child, which becomes active; the result is that child's outcome |
| `Compositions.Succession.Finish` | src/animation/composition.ts:149-151 | finishes the active child, with that child's outcome; throws when none is active yet |
| `Compositions.Succession.Interpolate` | src/animation/composition.ts:153-169 | the child at the interpolated index becomes active, with a finish and begin on a change, and is interpolated with the residue; the first child call that throws ends it (a failed finish leaves the old child active); throws before `begin` |
| `Creation.GetBoundsWhole` | src/animation/creation.ts:45-47 | at progress 1 or more the bounds [0, alpha] select the whole path |
| `Creation.GetBounds` | src/animation/creation.ts:45-47 | the shown part starts at 0 and spans alpha; for alpha in [0, 1] it lies within [0, 1] |
| `Creation.Traces` | src/animation/creation.ts:25-30 | k hook calls leave as many nodes as before and change nothing but points |
| `Creation.Partials` | src/animation/creation.ts:25-30 | k `ShowCreation` hook calls leave as many nodes as before |
| `Creation.PartialsStep` | src/animation/creation.ts:25-30 | hook call k makes tuple k's submobject the part [0, sub-alpha k] of its counterpart's current path |
| `Creation.TracesUntouched` | src/animation/creation.ts:25-30 | a mobject that is no submobject of the first k tuples keeps its node |
| `Creation.TracesSeparate` | src/animation/creation.ts:25-30 | with distinct submobjects apart from the counterparts, each submobject ends as the trace of its counterpart's original path |
| `Creation.PartialsSeparate` | src/animation/creation.ts:25-30 | after a full `ShowCreation` step each submobject is its counterpart's path cut at its own sub-alpha (corrected; see Findings) |
| `Creation.ShowCreationEnds` | src/animation/creation.ts:25-47 | at progress 1 every submobject has its counterpart's whole path (corrected; see Findings) |
| `Creation.ZippedPairs` | src/animation/creation.ts:25-27 | the zipped families of the mobject and its starting copy are pairs of valid ids (corrected; see Findings) |
| `Creation.FirstPlain` | src/animation/creation.ts:25-30 | the first tuple with a member that is not a VMobject: every earlier tuple is a pair of VMobjects and that one is not |
| `Creation.FirstPlainAt` | src/animation/creation.ts:25-30 | up to the first plain tuple, a tuple is a pair of VMobjects exactly when it comes before it |
| `Creation.ShowCreation.constructor` | src/animation/creation.ts:35-43 | the base animation with the given run time, rate function and lag ratio, not a remover |
| `Creation.ShowCreation.Uncreate` | src/animation/creation.ts:50-60 | the same with the inverted rate function and the remover flag set |
| `Creation.ShowCreation.InterpolateSubMobject` | src/animation/creation.ts:25-30 | throws, changing nothing, exactly when the submobject or its counterpart is not a VMobject; otherwise the submobject becomes the part [0, alpha] of its counterpart's path and nothing else changes (corrected; see Findings) |
| `Creation.ShowCreation.InterpolateMobject` | src/animation/creation.ts:25-47 | throws without a starting copy or on a cyclic family, changing nothing; otherwise the pairs are traced to their sub-alphas in order up to the first pair with a plain mobject, where it throws (corrected; see Findings) |
| `Creation.ShowCreation.InterpolateSubMobjects` | src/animation/creation.ts:25-30 | the hook loop traces every pair before the first one with a plain mobject and throws exactly when there is such a pair (corrected; see Findings) |
| `Creation.ShowCreation.TraceTuple` | src/animation/creation.ts:25-30 | hook call i throws, changing nothing, exactly when pair i has a plain mobject; otherwise it turns the arena after i calls into the arena after i + 1 calls (corrected; see Findings) |
| `Creation.ShowCreation.Interpolate` | src/animation/creation.ts:25-47 | the same trace, with its throws, at the clipped, eased progress (corrected; see Findings) |
| `Creation.UncreateEasing` | src/animation/creation.ts:57 | an uncreate at progress alpha is eased to the given curve at 1 - alpha |
| `Creation.AdvancedTransitive` | src/animation/creation.ts:124-140 | a phase flag moves from 0 to 1 at most once over any run of calls |
| `Creation.SameFamilies` | src/animation/creation.ts:124-140 | restyling that keeps child links keeps families |
| `Creation.OutlinePaint` | src/animation/creation.ts:128-137 | one family-wide style copy from the outline keeps links, families and the submobject's points |
| `Creation.Restyled` | src/animation/creation.ts:124-137 | the phase-switch restyle changes no child link |
| `Creation.RestyledPoints` | src/animation/creation.ts:126 | after the restyle the submobject's path is the outline's and its family is unchanged |
| `Creation.RestyleMovesPath` | src/animation/creation.ts:126 | where the two paths differ, the corrected restyle changes the submobject's path, which the switch as written never does |
| `Creation.SubmobToIndexAsWritten` | src/animation/creation.ts:82-84 | as written, building the phase map always throws: at `getVectorizedFamily` on a plain mobject, on a cyclic family, and otherwise at `hashCode` |
| `Creation.MatchOutlineAsWritten` | src/animation/creation.ts:124-128 | as written, the phase switch always throws, keeping every link and every path |
| `Creation.DrawBorderThenFill.Init` | src/animation/creation.ts:62-85 | stores the animation, target, outline width and colour and the phase flags; no outline yet (corrected; see Findings) |
| `Creation.DrawBorderThenFill.Create` | src/animation/creation.ts:69-85 | throws exactly on a plain mobject or a cyclic family; otherwise every member of the vectorized family, and nothing else, starts in phase 0 (corrected; see Findings) |
| `Creation.ZeroFlags` | src/animation/creation.ts:82-84 | the phase map holds exactly the given submobjects, each at phase 0 |
| `Creation.DrawBorderThenFill.MatchOutline` | src/animation/creation.ts:124-137 | throws on a plain mobject or a cyclic family with nothing changed; otherwise the arena is the restyled one (corrected; see Findings) |
| `Creation.PaintLikeOutline` | src/animation/creation.ts:128-137 | the submobject takes the outline's fill, stroke or background stroke colours (and width for strokes) and nothing else changes |
| `Creation.DrawBorderThenFill.InterpolateSubMobject` | src/animation/creation.ts:117-147 | the first half throws on a plain submobject or outline and otherwise draws the outline up to the residue; the first second-half call for a phase-0 submobject restyles it and sets its flag to 1; flags only ever advance (corrected; see Findings) |
| `Creation.WriteRunTime` | src/animation/creation.ts:172 | an explicit run time wins; otherwise 1 below 15 members with points and 2 from 15 on |
| `Creation.WriteLagRatioDefault` | src/animation/creation.ts:173 | the default lag ratio is 0.2 up to 20 members with points and 4 / length beyond, always in (0, 0.2]; an explicit one wins |
| `Creation.WriteLagRatio` | src/animation/creation.ts:173 | an explicit lag ratio wins; the default lies in (0, 0.2] |
| `Creation.Write` | src/animation/creation.ts:162-183 | throws exactly on a plain mobject or a cyclic family; otherwise the drawing animation with the defaults computed from the family with points, and linear easing (corrected; see Findings) |
| `Scenes.Joined` | src/scene/scene.ts:159-179 | a partial list in sequence with another is defined exactly when both are |
| `Scenes.Intersect` | src/scene/scene.ts:168-170 | exactly the members of the family that are to be removed |
| `Scenes.SafeConcat` | src/scene/scene.ts:159-179 | restructuring a concatenation is restructuring each part in turn |
| `Scenes.SafeSplit` | src/scene/scene.ts:163-176 | the list splits around any one mobject: the prefix, its own contribution, then the rest |
| `Scenes.SafeAvoids` | src/scene/scene.ts:159-179 | every kept mobject has a family that avoids the removal set and lies inside a listed family |
| `Scenes.SafeKeepsAll` | src/scene/scene.ts:163-176 | a list whose every family avoids the removal set comes through whole |
| `Scenes.SafeInPlace` | src/scene/scene.ts:163-176 | a removed mobject leaves nothing, one with a clean family stays in place, one whose family meets the removal set is replaced in place by its restructured children |
| `Scenes.SafeOneWithinFuel` | src/scene/scene.ts:163-176 | where a mobject's family closes within the recursion budget, its restructuring closes within it too |
| `Scenes.SafeMobjectsComplete` | src/scene/scene.ts:152-181 | with every listed family complete, restructuring with one unit of budget per mobject never runs out: the budget stands only for the stack overflow of a cyclic graph |
| `Scenes.AddSafeMobjectsFromList` | src/scene/scene.ts:159-177 | the recursive loop appends exactly the restructured list to what was pushed before |
| `Scenes.AddSafeMobject` | src/scene/scene.ts:164-175 | one mobject pushes exactly its own restructured contribution onto what was pushed before |
| `Scenes.RemovalList` | src/scene/scene.ts:142-147 | every mobject to remove is in the list and, when families are extracted, so is every member of its family; only a cyclic family makes it fail |
| `Scenes.Ids` | src/scene/scene.ts:152-181 | exactly the ids of the arena |
| `Scenes.RestructuredAvoids` | src/scene/scene.ts:135-181 | what survives restructuring is an arena mobject whose family holds nothing to remove and, with families extracted, lies in no removed family |
| `Scenes.Holders` | src/scene/scene.ts:106-108 | the count of families holding the mobject is zero exactly when none holds it |
| `Scenes.HoldersTwo` | src/scene/scene.ts:106-108 | two holding families count at least two |
| `Scenes.HoldersOne` | src/scene/scene.ts:106-108 | a single holding family counts exactly one |
| `Scenes.Families` | src/scene/scene.ts:104 | the family of each listed mobject, in order; undefined exactly when one overflows |
| `Scenes.TopLevel` | src/scene/scene.ts:102-111 | the listed mobjects held by exactly one listed family, no more of them than were listed |
| `Scenes.TopLevelDropsContained` | src/scene/scene.ts:102-111 | a listed mobject inside another listed entry's family, or listed twice, is not top-level |
| `Scenes.TopLevelKeepsSole` | src/scene/scene.ts:102-111 | a mobject listed once and in no other listed family is top-level |
| `Scenes.RunTimes` | src/scene/scene.ts:220 | the run times of the animations, in order |
| `Scenes.GetRunTime` | src/scene/scene.ts:219-221 | the largest run time, attained and bounding all; none exactly for no animations |
| `Scenes.Scene.constructor` | src/scene/scene.ts:24-28 | the scene starts with no mobjects |
| `Scenes.Scene.GetTopLevelMobjects` | src/scene/scene.ts:102-111 | unknown exactly when some listed family overflows; otherwise no more than were listed, and a mobject is in the result exactly when it is listed and held by exactly one listed family (its own), so no other listed family contains it |
| `Scenes.Scene.GetRestructuredMobjectList` | src/scene/scene.ts:152-181 | the restructured list, every member of which has a family free of anything to remove |
| `Scenes.Scene.RestructureMobjects` | src/scene/scene.ts:135-150 | the scene list becomes the restructured list, or stays as it was on a cyclic family |
| `Scenes.Scene.AddToBack` | src/scene/scene.ts:117-120 | the restructured list followed by the new mobjects |
| `Scenes.Scene.AddToFront` | src/scene/scene.ts:126-129 | the new mobjects followed by the restructured list, none of which lies in a new mobject's family |
| `Scenes.Scene.Add` | src/scene/scene.ts:122-124 | the same as adding to the front |
| `Scenes.Scene.Remove` | src/scene/scene.ts:131-133 | the list restructured with the removed mobjects' families extracted |
| `Scenes.Scene.Clear` | src/scene/scene.ts:191-193 | the list becomes empty |
| `Scenes.Scene.BeginAnimation` | src/scene/scene.ts:223-232 | the drawn families are read first, and a cyclic one fails with nothing changed; then the animation begins (failing on a cyclic target family) and leaves the arena in its `Begun` state with the hooks run at rate(0); its mobject is added at the front only when it was not drawn already, and the call fails afterwards exactly when that addition does |
| `Scenes.CleanUpFromScene` | src/animation/animation.ts:67-71 | a remover takes its mobject out of the scene; any other animation leaves the scene list unchanged |

## Left out

- Trigonometry and rotation: `rotationMatrix`, `rotationAboutZ`, `zToVector`, `compassDirections`, `Vector3.rotate`, `applyQuaternion`, `angle`, `angleBetween`, `Mobject.rotate`, `Complex.exp`, `Complex.angle`, `addSmoothCurveTo` and `src/util/paths.ts`. Sine, cosine and arctangent have no exact counterpart over the reals in Dafny.
- Square roots, exponentials and logarithms: `norm`, `normalize`, `getArcLength`, `sigmoid`, the logarithmic helpers and the HSV conversions. Norms appear only as squared norms.
- The floating-point linear solves: `getInverse` (Gauss-Jordan with an exact zero test) and the banded solve behind `getSmoothHandlePoints` and `diagToMatrix`. Also left out are `makeSmooth`, `changeAnchorMode`, `setPointsSmoothly` and `setPointsAsCorners`, which depend on that solve.
- Bezier.GetSmoothHandlePoints: only the early return for fewer than two anchors is modelled. The result is `None` for two or more anchors.
- `setAnchorsAndHandles`: it indexes `vec[(j / nppc) % len]` without a floor (src/mobject/types/vectorized_mobject.ts:367), so a fractional index reads `undefined`. Only its callers in the smoothing code use it, and those are left out above.
- `alignColors`: its background getter reads the foreground list (src/mobject/types/vectorized_mobject.ts:892). Stretching the longer list down always throws (src/mobject/types/vectorized_mobject.ts:925-928 against src/util/array.ts:101-105). It is used only by `VMobject.interpolate`, which is not defined on the base `Mobject`.
- `colorGradient`: it calls `linspace` with an object argument (src/util/color.ts:176-180). Also left out are `getGradientStartAndEndPoints`, `scaleHandleToAnchorDistances` and `VMobject.applyFunction`'s handle rescaling.
- `Mobject.getCenter`, `hasNoPoints`, `setColor`, `interpolate` and `hashCode`: their callers use them, but they are not defined in `src/mobject/types/mobject.ts`, so as written those calls throw (see Findings). The corrected members assume the evident meaning of each call: the mobject itself stands for its `hashCode`, and a centre is given where `getCenter` is called.
- VectorizedMobjects.AlignPoints: the centres `getCenter` would give are parameters. As written the call throws for unequal counts (see Findings); the contract states the corrected alignment.
- VectorizedMobjects.AlignUnequal: the same corrected alignment, past the early return.
- Creation.DrawBorderThenFill.MatchOutline: the corrected switch records `setColor` as a `SetColor` call instead of repainting. Its argument as written is an options object rather than a colour, and the restyle that follows overwrites every colour it sets, up to the lengths the lists are stretched to.
- Creation.DrawBorderThenFill.InterpolateSubMobject: the second half calls `submob.interpolate(outline, start, subAlpha)`, which no mobject class defines, so as written it throws. The model records it as a `Blend` call and passes. The phase switch is the corrected one (see Findings).
- Creation.DrawBorderThenFill.Create: the flags are keyed by the mobject itself, the corrected constructor (see Findings); as written every construction throws at `hashCode`.
- Creation.DrawBorderThenFill.Init: builds the corrected state that `Create` computes; as written the constructor throws.
- Creation.Write: builds the corrected `DrawBorderThenFill`; as written the constructor it calls throws.
- `DrawBorderThenFill.begin`, `getOutline`, `getStrokeColor` and `getAllMobjects`: the outline is taken as given, as the third mobject of each tuple. Only the phase-flag hook is modelled.
- Mobject bookkeeping: the `name` and `target` fields, `generateTarget`, `applyToFamily`, `getFamilyUpdaters` and `Animation.copy`.
- The scene's I/O and asynchronous flow: `run`, `progressThroughAnimation`, `play`, `wait`, `continueRendering`, the event listeners, and the camera, display and renderer.
  - The camera's `extractMobjectFamilyMembers` is taken to return the members of the listed families.
- `src/animation/update.ts` (thin wrappers around user closures), `src/util/tuple.ts` (replaced by Dafny tuples) and `topo_sort.py` (a file-system script) are not part of this model.
- Field initialisers of `VMobject` run after the base constructor in the source. The model takes the declared defaults to hold once construction is over.
- Mobjects.GetFamily: the traversal is bounded by the number of mobjects in the arena, and `None` stands for the stack overflow a cyclic child graph causes. An acyclic graph never reaches the bound.
- Mobjects.Arena.SetUpdating: on a cyclic family the source has already set the flag on every mobject its recursion reached when the stack overflows (src/mobject/types/mobject.ts:238-256). The model reports the overflow and leaves the arena unchanged, because which mobjects are reached first depends on the engine's stack depth.
- Mobjects.Arena.SuspendUpdating: the same state after an overflow is not modelled, for the same reason.
- Mobjects.Arena.ResumeUpdating: the same state after an overflow is not modelled, for the same reason.
- Mobjects.Arena.ClearUpdaters: on a cyclic family the source has already emptied the updater lists its recursion reached when the stack overflows (src/mobject/types/mobject.ts:221-229); the model leaves the arena unchanged.
- Mobjects.Arena.Copy: on a cyclic family the partial copies made before the overflow stay appended in the model; only the existing mobjects are promised unchanged.
- ArrayUtil.MakeEven: it requires both lists to be empty or both non-empty. With exactly one list empty, the source stretches the empty list and reads `undefined`.
- ArrayUtil.Linspace: a count of 1 is an error. The source divides by zero there and yields a NaN row.
- MathFunctions.MapValue: it requires start1 to differ from stop1. The source divides by zero otherwise.
- Colors.Divide: it requires non-zero divisors. The source yields Infinity or NaN channels.
- Vectors.Divide: it requires non-zero divisors, for the same reason.
- SpaceOps.Divide: it requires non-zero divisors, for the same reason.
- Colors.FromHex: a channel that `parseInt` reads as NaN makes the whole parse an error, where the source builds a colour with a NaN channel.
- Complexes.Pow: only integer exponents are modelled. A non-integer exponent goes through `Complex.exp` and is left out with the trigonometry.
- VectorizedMobjects.AlignedPaths: its own contract covers only equal point counts. The unequal case is stated by `AlignedPathsEqualCounts` and `AlignedPathsUnequal`.

## Findings

| source | as written | input that shows it | evidently intended | confidence | as-written member | corrected member |
|---|---|---|---|---|---|---|
| src/util/bezier.ts:17-18 | `new MArray(rows)` passes the rows positionally to a constructor that destructures `{ values, shape }`, so it always throws | two equal one-colour lists | the lists interpolated row by row | not executed | `Bezier.InterpolateColorListAsWrittenThrows` | `Bezier.InterpolateColorList` |
| src/util/vector.ts:120-126 | `toMArray` builds its column positionally and always throws, so `matMul` does too | `matMul` by the 3 x 3 identity | the vector unchanged | not executed | `SpaceOps.VectorMatMulAsWrittenThrows` | `SpaceOps.VectorMatMul` |
| src/mobject/types/vectorized_mobject.ts:401-409 | `interpolateValue` multiplies two `Vector3` objects by numbers, which gives NaN rather than a point | any non-empty path and any point | the straight segment to the point, ending at it | not executed | `VectorizedMobjects.LineToAsWrittenLosesEnd` | `VectorizedMobjects.LineTo` |
| src/mobject/types/vectorized_mobject.ts:174-183 | after stretching the request, the list is rebuilt from the unstretched request, reading past its end | stroke colours [WHITE, WHITE] given [TRANSPARENT] | [TRANSPARENT, TRANSPARENT] | not executed | `VectorizedMobjects.StrokeColorsAsWrittenReadsPastEnd` | `VectorizedMobjects.ResizedColors` |
| src/mobject/types/vectorized_mobject.ts:163-165 | the background branch assigns the foreground `strokeColors` | a new VMobject with stroke [WHITE] given the background stroke TRANSPARENT | the foreground stroke stays [WHITE]; only the background list changes | not executed | `VectorizedMobjects.BackgroundStrokeAsWrittenChangesForeground` | `VectorizedMobjects.SetBackgroundStroke` |
| src/animation/animation.ts:81-83 | `getAllFamiliesZipped` maps each mobject to its family and does not zip | a mobject with points and its starting copy | one pair of the mobject and its copy | not executed | `Animations.FamiliesNotZipped` | `Animations.ZippedFamilies` |
| src/animation/creation.ts:82-84 | the constructor keys each member of the vectorized family by `submob.hashCode()`, which no mobject class defines; the family always holds the mobject itself, so every construction throws, `Write.create` included (the hook's own `hashCode` calls at lines 124 and 139 never get to run) | any VMobject without a cycle among its descendants | every vectorized family member keyed to phase 0 by its identity | not executed | `Creation.SubmobToIndexAsWritten` | `Creation.DrawBorderThenFill.Create` |
| src/mobject/types/vectorized_mobject.ts:227-231 | `VMobject.setColor` repaints fill and stroke and then calls `super.setColor`, which `Mobject` does not define, so the phase switch of `DrawBorderThenFill` (src/animation/creation.ts:125) throws before it copies the outline's points and styles | a submobject whose path differs from its outline's | the submobject takes the outline's path and styles and moves to phase 1 | not executed | `Creation.MatchOutlineAsWritten` with `VectorizedMobjects.SetColorAsWritten`; `Creation.RestyleMovesPath` shows the path the corrected switch moves | `Creation.DrawBorderThenFill.MatchOutline` |
| src/mobject/types/vectorized_mobject.ts:770-772 | `alignPoints` calls `m.hasNoPoints()` and `m.getCenter()`, which no mobject class defines, so it throws whenever the point counts differ | two whole-curve paths of 4 and 8 points | both paths realigned to equal length (`VectorizedMobjects.AlignedPathsEqualCounts`) | not executed | `VectorizedMobjects.AlignPointsAsWritten` | `VectorizedMobjects.AlignPoints` |
