# Marker selector, matrix and ternary-search model

This project is a Dafny model of three small programs from a course repository.

- **The rectangular-marker selector** (`dz5/main.cpp`). The image-processing front end yields contours and their convex hulls. The selector then:
  - keeps each hull whose area is close to its contour's area and above 2000;
  - enumerates every 4-point order-preserving subsequence of each kept hull with `getSubsequencesOfLength`;
  - commits the first subsequence that covers at least 90% of the hull and whose opposite sides are near-parallel (|cos| > 0.9);
  - drops a whole hull as soon as one of its candidates has a centroid within squared distance 100 of a centre already found.

  It is modelled in modules `Geometry`, `Enumeration` and `Markers`. Module `Scenarios` proves what the model does on concrete squares.
- **The dense matrix `Mat`** (`week4/main.cpp`). This covers its row-major addressing, `eye`/`zeros`, copy, `map`, `mul`, `_transpose`/`transpose`, `_swapRows`, `maxRowInCol`/`minRowInCol` and `equals`. It is modelled in module `Matrix` over `real` entries.
- **Ternary search** (`week3/main.cpp`, and its Rust twin `week3/main.rs`). Both are modelled in module `Ternary` over `real`, with the searched function as a parameter.

Modelling choices:

- **Area.** The image library's `contourArea` is the shoelace formula. `Geometry.Area2` is twice that area, as an exact integer, so every area threshold is doubled.
- **Ratio and cosine tests.** The source writes these as floating-point quotients. Here they are stated as the integer comparisons they stand for:
  - `10*|h-c| < h && h > 4000` for the pre-filter;
  - `10*A(q) >= 9*A(h)` for coverage;
  - `100*(a.b)^2 > 81*|a|^2*|b|^2` for the cosine test.

  Each has a lemma proving it equal to the written test evaluated over reals. For the cosine test that lemma is stated on the squared cosine, `(a.b)^2/(|a|^2|b|^2) > 0.81`, which is `|cos| > 0.9` with the square roots cleared. In that real form, a zero denominator makes the comparison false, which is how an infinite or NaN quotient compares.
- **Centroid.** The division by 4 (`Point / int` in the image library) is the function parameter `quarter`. No property depends on its rounding. The duplicate scenario needs only that it divides multiples of 4 exactly, which truncating, flooring and nearest rounding all do.
- **Matrices as values.** A `Mat` is an immutable value. `map` and `transpose` therefore leave their receiver unchanged by construction. Fresh storage (`new MatType[n]`) holds unspecified values, modelled by a `junk` argument. Each constructor's contract shows that the result does not depend on it.

## Model

| member | source | states |
|---|---|---|
| `Enumeration.Generate` | dz5/main.cpp:11-29 | one activation of `getSubsequencesOfLength`: a full builder is appended, an exhausted index appends nothing, otherwise the skip branch runs before the take branch; its properties are stated by `GenerateShape`, `GenerateAppends` and `GenerateByMasks` |
| `Enumeration.GenerateShape` | dz5/main.cpp:11-29 | one call keeps the incoming accumulator as a prefix and appends exactly C(N-idx, length-\|builder\|) entries, each with `length` elements |
| `Enumeration.Subsequences` | dz5/main.cpp:11-29 | the top-level call emits C(N, length) entries, all of length `length`; for length 0 it emits exactly one empty entry |
| `Enumeration.TooLongIsEmpty` | dz5/main.cpp:18-24 | asking for more elements than `vec` has emits nothing |
| `Enumeration.GenerateAppends` | dz5/main.cpp:11-29 | the call only appends: its output is the old accumulator followed by what the call emits on an empty one |
| `Enumeration.ChooseAbove` | dz5/main.cpp:18-24 | the count C(n, k) is zero when k > n, so a branch that cannot fill the builder emits nothing |
| `Enumeration.SubsequencesByMasks` | dz5/main.cpp:26-28 | the output equals an independent reference: all inclusion masks in lexicographic order (skip before take), filtered to those with `length` set bits, each applied to `vec` |
| `Enumeration.GenerateByMasks` | dz5/main.cpp:18-28 | from any activation, the entries appended are the builder extended by each mask selection of the remaining elements that completes it, masks in the reference order |
| `Enumeration.MaskSelectionEmitted` | dz5/main.cpp:11-29 | completeness: the selection of `vec` by any mask with `length` set bits is emitted |
| `Enumeration.EmittedIsMaskSelection` | dz5/main.cpp:11-29 | soundness: every emitted entry is the selection of `vec` by a mask with `length` set bits |
| `Enumeration.SubsequencesAreMaskSelections` | dz5/main.cpp:11-29 | a sequence is emitted if and only if it is the selection of `vec` by some mask with `length` set bits |
| `Enumeration.EntryIndices` | dz5/main.cpp:26-28 | every emitted entry has `length` elements taken from `vec` at strictly increasing indices |
| `Enumeration.MasksCountUp` | dz5/main.cpp:26-28 | the i-th reference mask is i in binary with index 0 as the most significant bit, so entries come out in increasing mask order |
| `Enumeration.FiveChooseFour` | dz5/main.cpp:26-28 | for [A,B,C,D,E] and length 4 the output is exactly BCDE, ACDE, ABDE, ABCE, ABCD |
| `Enumeration.Split` | dz5/main.cpp:26-28 | one recursion step emits the skip branch's entries before the take branch's |
| `Enumeration.Forced` | dz5/main.cpp:18-28 | when exactly as many elements remain as the builder still needs, the only entry emitted is the builder followed by all of them |
| `Enumeration.Dead` | dz5/main.cpp:18-24 | a branch with too few elements left to fill the builder emits nothing |
| `Geometry.Shoelace` | dz5/main.cpp:71-72 | the shoelace sum `contourArea` accumulates, twice the signed area; `DegenerateArea` and the square scenarios state its values |
| `Geometry.Area2` | dz5/main.cpp:71-72 | twice `contourArea`, as a non-negative integer, so every area threshold is doubled |
| `Geometry.DistSq` | dz5/main.cpp:102-103 | the squared distance `delta.x*delta.x + delta.y*delta.y` is non-negative and zero exactly when the two points coincide |
| `Geometry.NormSq` | dz5/main.cpp:102-103 | the squared length is non-negative and zero exactly for the zero vector |
| `Geometry.DistSqSymmetric` | dz5/main.cpp:102-103 | the squared distance between two centres does not depend on which one is subtracted |
| `Geometry.DegenerateArea` | dz5/main.cpp:71-73 | a polygon of at most two vertices has area zero |
| `Markers.HullAccepted` | dz5/main.cpp:73 | the pre-filter test for one contour and its hull, with doubled areas; `PreFilterDecision` proves it equal to the written ratio test |
| `Markers.DegenerateHullRejected` | dz5/main.cpp:71-73 | a hull of at most two points has area zero and is never accepted |
| `Markers.PreFilterDecision` | dz5/main.cpp:71-73 | the integer acceptance test holds exactly when `\|A(hull)-A(contour)\|/A(hull) < 0.1 && A(hull) > 2000` holds over reals, counting a zero-area hull as rejected |
| `Markers.SmallHullRejected` | dz5/main.cpp:73 | any hull of area at most 2000, including area 0, is rejected |
| `Markers.PreFilter` | dz5/main.cpp:69-79 | contour i becomes its hull if accepted and empty otherwise; i is among the recorded indices if and only if it was accepted; the indices are in range and strictly increasing |
| `Markers.Covers` | dz5/main.cpp:111-113 | the coverage test in integer form; `CoverageDecision` proves it passes exactly when the written `continue` does not fire |
| `Markers.CoverageDecision` | dz5/main.cpp:111-113 | the integer coverage test passes exactly when the written `A(quad)/A(hull) < 0.9` does not skip |
| `Markers.NearParallel` | dz5/main.cpp:118-125 | the cosine test for one pair of sides in integer form; `ParallelDecision` proves it equal to the squared cosine exceeding 0.81 |
| `Markers.SidesParallel` | dz5/main.cpp:114-125 | both opposite pairs, line1/line3 and line2/line4, are near-parallel; `RepeatedVertexFails` states that a repeated vertex fails it |
| `Markers.RectLike` | dz5/main.cpp:111-125 | a candidate is accepted when it covers the hull and both side pairs are near-parallel; `ScanFrom` states that the first such non-duplicate is committed |
| `Markers.ParallelDecision` | dz5/main.cpp:114-125 | the integer side test holds exactly when the squared cosine exceeds 0.81 over reals, with a zero-length side failing |
| `Markers.RepeatedVertexFails` | dz5/main.cpp:114-125 | a quadrilateral with a zero-length side never passes the parallelism test |
| `Markers.Centre` | dz5/main.cpp:99 | the centroid `(p1 + p2 + p3 + p4) / 4` with the division as the parameter `quarter`; `SelectRects` states that every stored centre is its rect's centroid |
| `Markers.AlreadyFound` | dz5/main.cpp:99-110 | a candidate's centre is a duplicate exactly when some stored centre is within squared distance 100 of it; `Duplicate` applies this to the centroid |
| `Markers.ScanFrom` | dz5/main.cpp:94-131 | the scan commits the first candidate that is not a duplicate and passes both tests, aborts at the first duplicate, and passes over every earlier candidate; exhausting means every candidate was neither |
| `Markers.StoppedScanIgnoresLater` | dz5/main.cpp:108-130 | once the scan stopped (commit or duplicate), further candidates cannot change the outcome |
| `Markers.ScanHull` | dz5/main.cpp:93-131 | a hull of fewer than four points ends exhausted; a commit is at a candidate that is not a duplicate and passes both tests; an abort is at a duplicate candidate |
| `Markers.CommitHull` | dz5/main.cpp:91-131 | one hull appends at most one rect and one centre and keeps everything stored before |
| `Markers.Candidates` | dz5/main.cpp:91-93 | a hull's candidates all have four points, and a hull of fewer than four points has none |
| `Markers.SelectRects` | dz5/main.cpp:88-132 | each accepted hull adds at most one quadrilateral; rects and centres have equal length; each centre is its quadrilateral's centroid; stored centres are pairwise at least squared distance 100 apart |
| `Markers.CommitHullPreserves` | dz5/main.cpp:99-129 | processing one hull preserves the pairing of rects with centres and the separation of centres |
| `Markers.SeparationKept` | dz5/main.cpp:100-110 | a centre that passed the distance check against all stored centres keeps them pairwise separated when appended |
| `Markers.CommitHullOutcome` | dz5/main.cpp:108-130 | one hull either leaves the selection unchanged or appends one quadrilateral that is an enumerated 4-subsequence of that hull and passes both tests |
| `Markers.SelectedProvenance` | dz5/main.cpp:90-131 | every selected quadrilateral traces back to a distinct processed hull, in processing order, as one of that hull's 4-subsequences passing both tests |
| `Markers.DetectMarkers` | dz5/main.cpp:69-132 | end to end: at most one quadrilateral per accepted hull, rects and centres paired, centres pairwise separated |
| `Markers.DetectedFromAcceptedHull` | dz5/main.cpp:69-132 | every reported quadrilateral comes from a hull that passed the pre-filter and passes both tests against it |
| `Scenarios.WholeSequence` | dz5/main.cpp:11-29 | asking for all elements emits exactly the sequence itself |
| `Scenarios.SquareMarkerDetected` | dz5/main.cpp:69-131 | an axis-aligned 100x100 square whose contour is its own hull is reported as itself |
| `Scenarios.ShiftedSquareAborts` | dz5/main.cpp:99-110 | under any centroid division exact on multiples of 4 (e.g. C++ truncation), a square one pixel away from a stored centre aborts its hull at the first candidate |
| `Scenarios.DuplicateMarkerReportedOnce` | dz5/main.cpp:88-131 | under any centroid division exact on multiples of 4, two copies of a square one pixel apart yield a single marker |
| `Scenarios.DuplicateFromCentres` | dz5/main.cpp:88-131 | for any division that puts the first square's centre at (50, 50) and aborts the shifted square against it, only the first square is reported |
| `Matrix.SetAt` | week4/main.cpp:113-125 | after `set(idx, v)`, `get(idx)` reads `v`; `set` returns `v` and every other cell keeps its value |
| `Matrix.GetAddressesFlatCell` | week4/main.cpp:109-111 | `get(r,c)` reads flat cell `c + r*cols`, and that index is in range |
| `Matrix.Set` | week4/main.cpp:117-120 | the two-index mutator returns `v`, makes `get(r,c)` read `v`, and leaves every other cell's `get` unchanged |
| `Matrix.SetAddressesFlatCell` | week4/main.cpp:109-125 | `set(r,c,v)` is `set(c + r*cols, v)`, and that flat index is in range |
| `Matrix.Identity` | week4/main.cpp:71-79 | the n x n identity has 1 exactly on the diagonal and 0 elsewhere |
| `Matrix.Zero` | week4/main.cpp:91-99 | the rows x cols zero matrix has 0 in every cell |
| `Matrix.Product` | week4/main.cpp:175-187 | the product is `rows x other.cols` with (i,j) the sum over k < cols of this(i,k)*other(k,j) |
| `Matrix.Transposed` | week4/main.cpp:263-279 | the transpose swaps the dimensions and has the input's (j,i) at (i,j) |
| `Matrix.RowsSwapped` | week4/main.cpp:189-196 | row a shows the old row b, row b the old row a, every other row is unchanged |
| `Matrix.Mapped` | week4/main.cpp:127-137 | every cell is the mapper applied to the input's cell at the same position |
| `Matrix.TransposeInvolution` | week4/main.cpp:263-273 | transposing twice restores the matrix |
| `Matrix.SwapInvolution` | week4/main.cpp:189-196 | swapping the same two rows twice restores the matrix |
| `Matrix.IdentityLeftUnit` | week4/main.cpp:175-187 | `eye(rows).mul(b)` is `b` |
| `Matrix.Fill` | week4/main.cpp:71-99 | writing every cell in row-major order overwrites all of the allocated storage |
| `Matrix.Eye` | week4/main.cpp:71-79 | `eye(n)` yields the identity, whatever the fresh storage held |
| `Matrix.Zeros` | week4/main.cpp:91-99 | `zeros(rows, cols)` yields the zero matrix, whatever the fresh storage held |
| `Matrix.Copy` | week4/main.cpp:56-63 | the copy has the same dimensions and entries as the source |
| `Matrix.MapInPlace` | week4/main.cpp:127-131 | `_map` replaces every cell by the mapper's value on it |
| `Matrix.Map` | week4/main.cpp:133-137 | `map` yields the mapped matrix; the receiver is a value and is unchanged |
| `Matrix.DotRowCol` | week4/main.cpp:179-182 | the inner loop of `mul` accumulates the sum over k < cols of this(i,k)*other(k,j) |
| `Matrix.Mul` | week4/main.cpp:175-187 | `mul` yields the reference product, whenever the reads of `other` are in range |
| `Matrix.TransposeInPlace` | week4/main.cpp:263-273 | on a square matrix, swapping each below-diagonal cell with its mirror yields the transpose |
| `Matrix.Transpose` | week4/main.cpp:275-279 | `transpose` yields the transpose of a copy; the receiver is unchanged |
| `Matrix.SwapRows` | week4/main.cpp:189-196 | `_swapRows(a,b)` exchanges rows a and b and leaves the rest unchanged |
| `Matrix.SwapRowsWith` | week4/main.cpp:198-201 | the three-argument overload performs the same exchange on both matrices |
| `Matrix.MaxRowInCol` | week4/main.cpp:203-216 | a negative `maxRow` searches [minRow, rows); returns a row in the range whose preprocessed value is maximal and strictly above every earlier row's, so the earliest maximum wins; returns minRow for an empty range |
| `Matrix.MinRowInCol` | week4/main.cpp:218-231 | a negative `maxRow` searches [minRow, rows); returns a row in the range whose preprocessed value is minimal and strictly below every earlier row's, so the earliest minimum wins; returns minRow for an empty range |
| `Matrix.Equals` | week4/main.cpp:338-348 | true if and only if the dimensions match and every entry is equal (so reflexive) |
| `Ternary.LowerThird` | week3/main.cpp:21 | `ml` lies one third of the width above `left` |
| `Ternary.UpperThird` | week3/main.cpp:22 | `mr` lies one third of the width below `right` |
| `Ternary.Step` | week3/main.cpp:21-31 | if f(ml) < f(mr) the right end moves to mr, otherwise (ties included) the left end moves to ml; the width becomes exactly 2/3 of the old one and the bracket stays inside the old one |
| `Ternary.Iterate` | week3/main.cpp:19-33 | after any number of steps the bracket lies inside the initial one |
| `Ternary.IterateWidth` | week3/main.cpp:21-31 | after k steps the width is the initial width scaled by 2/3, k times |
| `Ternary.HaltedUnique` | week3/main.cpp:19 | the loop condition determines a single stopping step count |
| `Ternary.Search` | week3/main.cpp:18-33 | runs at most max(0, maxIterations) steps; the loop condition held before every step taken; on exit the width is at most eps or the cap is reached; an initial width at most eps means no step; the final bracket lies inside the initial one |
| `Ternary.Midpoint` | week3/main.cpp:40 | the midpoint of a bracket lies inside it |
| `Ternary.TernarySearch` | week3/main.cpp:11-41 | returns the midpoint of the bracket at which the loop stops, inside the initial bracket, and the initial midpoint when the initial width is at most eps |
| `Ternary.TernarySearchRs` | week3/main.rs:8-33 | returns the midpoint of the final bracket, the function's value at exactly that point, and the number of steps taken, at most the cap |
| `Ternary.StepKeepsMinimiser` | week3/main.cpp:24-31 | for a unimodal function, a step never discards the minimiser |
| `Ternary.IterateKeepsMinimiser` | week3/main.cpp:18-33 | for a unimodal function, the bracket keeps the minimiser through every step |
| `Ternary.ResultNearMinimiser` | week3/main.cpp:19-40 | for a unimodal function with its minimiser in the initial bracket, a search stopped by the width test returns a point within eps/2 of it |

## Left out

- Image I/O and the image library calls: `imread`, blurring, edge detection, `findContours`, `convexHull`, drawing, windows, `randomColor` and the `findText` stub. The selector takes the contours and hulls as parameters.
- The rounding of `Point / 4` in the centroid. It is the parameter `quarter`. The duplicate scenario needs only exact division of multiples of 4.
- Floating point. Areas, ratios and cosines are exact here. A double-precision quotient can land on the other side of a threshold that the exact value does not cross. The NaN from a zero-length side is modelled only through the real-valued reference predicates.
- Integer overflow. This covers `delta.x * delta.x + delta.y * delta.y` in the distance check, `rows * cols` in `Mat`, and `int` iteration counters. All integers here are unbounded.
- `Mat` element arithmetic is over `real`. C++ `double` rounding in `mul`, and the `i == j ? 1 : 0` conversion, are not modelled.
- Matrix.TransposeInPlace: modelled for square matrices only. On a non-square matrix `_transpose` permutes the flat storage without producing a transpose.
- Matrix.Transpose: requires a square matrix for the same reason, although `transpose()` itself accepts any shape; its one call in week4/main.cpp is on a 4x4 matrix.
- Matrix.Eye: the size is a natural number. A negative size in the C++ `eye` allocates `n * n` cells and then leaves it unwritten.
- Matrix.Zeros: the dimensions are natural numbers. With one negative and one positive dimension the C++ `new MatType[rows * cols]` gets a negative size and throws; with both negative, or one of them zero, it allocates (possibly empty) storage and writes nothing, leaving a `Mat` whose dimensions do not describe it.
- Matrix.Mul: requires `a.cols <= b.rows`. That is sufficient for every read of `other` to stay inside its storage (when `a.rows` or `b.cols` is zero nothing is read at all); `mul` itself performs no check.
- Matrix.SwapRowsWith: the two matrices are separate values. When `attached` is the receiver itself, the C++ swaps the same rows twice, which leaves the matrix unchanged; that aliasing case is not modelled.
- The remaining `Mat` members are not modelled:
  - `eyeLike` and the `_mapRow` overloads, used only by the elimination code; `zerosLike`, unused; the array constructor, used only by `main` to build its example matrices;
  - `_triangulate`, `_diagonalize`, `_toOnes`, `inv` and `det`, which are floating-point elimination with a NaN-dependent pivot choice; `det` also ignores the sign change on row swaps;
  - `isnan`, `isinf`, `print` and `input`, which are NaN checks and console I/O;
  - `maxColInRow` and `minColInRow`, which read `get(c, i)` and ignore `minCol`;
  - `_mapCol`, whose loop is bounded by `cols`;
  - `add`, which returns a value from a `void` function;
  - the destructor.
- The `Result` class in week4/main.cpp: unused.
- The `log` flag of `TernarySearch` and the printing in both `main` functions: console output only.
- The concrete polynomial `f` in week3: the search takes any `real -> real` function.
- Ternary.TernarySearch: the C++ midpoint `(left + right) / 2` and the Rust midpoint `left / 2 + right / 2` are equal over reals. They can differ in floating point.
- week-whatever-dz2 (gradient descent, RANSAC, plotting) and week-whatever-dz3 (numerical integration, plotting) are not part of this model.
