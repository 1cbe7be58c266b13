# sfizz test helpers: verified model of `approxEqual` and `sortAll`

This project models two helpers from the test support header of the sfizz
sampler library:

- `approxEqual`, the tolerance-based comparator for numeric spans. It answers
  `false` at once when the spans differ in length. Otherwise it scans left to
  right and stops at the first index whose pair lies outside the margin
  (default `1e-3`). Only for such an element mismatch does it write a
  diagnostic: the index, the two values and their distance, then a preview
  of both spans. A span shorter than 16 elements is listed in full. A span of
  16 or more elements is listed as its first 8 elements, `...`, and its last
  8. At exactly 16 elements the `...` marker is printed even though nothing is
  left out. An empty span shows as `{ }`.
- `sortAll`, the variadic helper that sorts each container it is given.

Files:

- `preview.dfy` (module `Preview`): the `print_span` preview as tokens
  (`Elem(v)` or `Ellipsis`), both as a function and as a method following the
  source's loops. Also lemmas on what a preview shows.
- `comparator.dfy` (module `Comparator`): the comparator as a pure function
  returning a `Verdict` (boolean, number of pairs compared, optional
  `Report`), the source's early-exit loop as a method proved equal to it,
  and lemmas: reflexivity, symmetry, monotonicity in the margin, and
  short-circuiting. Worked examples use the default margin.
- `sorting.dfy` (module `Sorting`): per-container sorting, and the
  uniqueness of a sorted permutation, from which the independence of the
  containers follows.

Elements are exact `real`s and "within margin" is `|rhs[i] - lhs[i]| <= eps`.
The diagnostic is returned as a value instead of being written to the error
stream. Its `compared` field counts the element pairs the scan examined. This
makes "no element is compared on a length mismatch" and "no later index is
examined" statable.

A length mismatch writes nothing: `approxEqual` returns `false` at
tests/TestHelpers.h:155-156 before any output, so `ApproxEqual` gives no
report for it.

## Model

| member | source | states |
|---|---|---|
| Comparator.Close | tests/TestHelpers.h:160 | A pair is within the margin iff `lhs[i] + eps >= rhs[i]` and `rhs[i] + eps >= lhs[i]`. This is the two-sided margin test of Catch2's `Approx(lhs[i]).margin(eps)`, without its relative tolerance. |
| Comparator.ApproxEqualDefault | tests/TestHelpers.h:153 | With no margin given, the comparator is `ApproxEqual` at margin 0.001. For equally long spans it answers true iff every pair differs by at most 0.001. |
| Comparator.ApproxEqual | tests/TestHelpers.h:152-199 | Different lengths give false, no pair compared, no report. Equal lengths give true iff every pair is within the margin. A report exists iff the result is false with equal lengths. It names the least mismatching index, both values and their distance (which exceeds the margin), and both previews. Exactly index+1 pairs were compared. |
| Comparator.FirstMismatch | tests/TestHelpers.h:158-164 | The scan from a start index returns nothing iff all later pairs are within the margin. Otherwise it returns an index whose pair is outside the margin, with all earlier pairs inside it. |
| Comparator.ApproxEqualScan | tests/TestHelpers.h:155-198 | The source's loop with the `different` flag and `break`, followed by the previews printed only when the loop broke, returns exactly the comparator's verdict. |
| Comparator.FirstMismatchIsLeast | tests/TestHelpers.h:159-163 | If k is the least index outside the margin, the scan stops at k and at no other index. |
| Comparator.Reflexive | tests/TestHelpers.h:158-198 | With a non-negative margin, comparing a span with itself gives true, compares every pair and writes no report. |
| Comparator.Symmetric | tests/TestHelpers.h:160-161 | Swapping lhs and rhs keeps the result and the compared count. A report keeps its index and distance, with the two values exchanged. |
| Comparator.MonotoneInMargin | tests/TestHelpers.h:160 | A wider margin never turns true into false. A mismatch under a wider margin is never reported before the one under the narrower margin. |
| Comparator.LaterPairsNotExamined | tests/TestHelpers.h:159-163 | Pairs after the reported index do not matter. Equally long spans that agree up to that index get the same index, values, distance and compared count. |
| Comparator.DefaultMarginAcceptsSmallDelta | tests/TestHelpers.h:153-164 | With the default margin 1e-3, [1.0, 2.0, 3.0] against [1.0005, 2.0, 3.0] is true, with all 3 pairs compared and no report. |
| Comparator.DefaultMarginReportsIndexOne | tests/TestHelpers.h:153-163 | With the default margin, [1.0, 2.0, 3.0] against [1.0, 2.5, 3.0] is false. The mismatch is reported at index 1 with distance 0.5, after 2 comparisons. |
| Comparator.LengthMismatchExample | tests/TestHelpers.h:155-156 | Spans of lengths 2 and 3 give false with no pair compared and no report. |
| Preview.PrintSpan | tests/TestHelpers.h:166-187 | An empty span gives the empty marker and only an empty span does. A span of 1 to 15 elements is listed as all its elements in order. A span of 16 or more is listed as 17 tokens: elements 0..7, the ellipsis, then elements size-8 .. size-1. |
| Preview.RenderSpan | tests/TestHelpers.h:172-186 | The source's loops, with bounds `size - 1` and `size - 8`, and the last element printed after them, build exactly that preview (with unbounded counters; see "## Left out"). |
| Preview.PreviewRoundTrip | tests/TestHelpers.h:166-186 | For a span of at most 16 elements, the values the preview shows are exactly the span. |
| Preview.LongPreviewShown | tests/TestHelpers.h:177-186 | For a span of 16 or more elements, the preview shows exactly its first 8 and last 8 values, in order. |
| Preview.EllipsisIffLong | tests/TestHelpers.h:173-185 | The ellipsis marker appears iff the span has 16 or more elements. |
| Preview.LongPreviewDeterminedByEnds | tests/TestHelpers.h:177-186 | Two spans of 16 or more elements get the same preview iff they agree on their first 8 and last 8 elements. |
| Sorting.Sort | tests/TestHelpers.h:48 | The sorted container is ascending and a permutation of the original. |
| Sorting.SortAll | tests/TestHelpers.h:45-56 | Every given container comes back ascending, as a permutation of its own former contents, with the number of containers unchanged. |
| Sorting.SortedPermutationUnique | tests/TestHelpers.h:48 | Two ascending sequences with the same elements are equal, so the result does not depend on the sorting algorithm. |
| Sorting.SortIdempotent | tests/TestHelpers.h:48 | Sorting an already sorted container changes nothing. |
| Sorting.SortIsTheSortedPermutation | tests/TestHelpers.h:48 | Any ascending rearrangement of a container is the result of sorting it. |
| Sorting.SortAllIndependent | tests/TestHelpers.h:51-56 | Each container's result depends only on that container's contents. It is that container sorted, whatever the other containers hold. |

## Left out

- Comparator.Close: does not model the relative tolerance of Catch2's `Approx`, which also accepts a pair within a small relative epsilon scaled by `lhs[i]`. The model uses the absolute margin only, so it accepts fewer pairs than the source.
- Preview.PrintSpan: the preview loops count with a 32-bit `unsigned` while `span.size()` is a `size_t` (tests/TestHelpers.h:174, 178, 182). For a span of more than 2^32 elements the tail loop at tests/TestHelpers.h:182 wraps from the largest `unsigned` back to 0 and never ends, and from 2^32 + 8 elements on its start value `span.size() - 8` is truncated as well. The model counts with unbounded integers, so it always returns the 17-token listing; it is faithful only for spans of at most 2^32 elements.
- Preview.RenderSpan: uses unbounded loop counters for the same reason, so it does not model the non-terminating tail loop for spans of more than 2^32 elements.
- Comparator.Symmetric: holds for the absolute margin of the model only. In the source, the relative part of `Approx` is scaled by the lhs value, so swapping the spans can change a borderline answer.
- Negative margin: Catch2 rejects a negative margin by throwing. The model has no such error path; a negative margin makes every pair a mismatch.
- Number formatting and stream output: `setprecision(3)`, `fixed`, the text "Differences between spans" and the separators are not modelled. A preview is a sequence of tokens; a diagnostic is a `Report` value.
- Floating point: elements and the margin are exact reals, and the distance is exact.
- Element types: `approxEqual` is generic over its element type, and the model fixes it to `real`. `sortAll` is generic over containers, and the model fixes them to sequences of `int`. `std::sort` takes no stability promise, and for integers none is needed.
- `sortAll` with no arguments does not compile in the source, so `Sorting.SortAll` requires at least one container.
- `RegionCCView` (tests/TestHelpers.h:18-36): only declarations are present, so its matching and lookup behaviour has no visible body to model.
- `createDefaultGraph` and `createModulationDotGraph` (tests/TestHelpers.h:143-150): declarations only; the graph template is not part of this model.
- Voice queries such as `getActiveVoices` and `playingNotes` (tests/TestHelpers.h:64-137): declarations over engine state that is not part of this model.
- `almostEqualRanges` (tests/TestHelpers.h:38-43): a thin wrapper over test-framework assertions.
- `simpleMessageReceiver` (tests/TestHelpers.h:204): a callback into the messaging layer, which is not part of this model.
- src/sfizz/Debug.h: build-time assertion and debug-print macros that abort the process or write to the error stream; no logic to verify.
