# ts-util core, modelled in Dafny

ts-util is a grab-bag of TypeScript utilities. This project models its computational core:

- **bezier**: the quadratic and cubic easing curves with fixed end points (0,0) and (1,1):
  - `solveX` and `solveY`;
  - the fixed-iteration bisection `solveTForX` and `solveYForX` built on them;
  - the `QuadraticBezier` and `CubicBezier` classes. These check their control points, turn `accuracy` into a scale `10 ** accuracy` (or keep `-1`, which disables caching), and memoise `solveYForX` in a cache keyed by `Math.round(x * accuracy)`.
- **string**: the `String.prototype` additions `removePrefix`, `removeSuffix`, `removeAllPrefixes`, `removeAllSuffixes`, `toCamelCase` and `toKebabCase`.
- **uri / url**: the path joiner, in five stages:
  1. drop empty fragments;
  2. strip the single slashes at the joints and split at single inner slashes;
  3. flatten;
  4. resolve `.` and `..` on a stack;
  5. glue the stack with `/` where no slash is already present.
  
  `URI.join` in `url.ts` is a line-for-line copy of `uri.join`, and is modelled as the same stages.
- **css**: `rule`, `selector`, `at` and `join`, which assemble CSS text.
- **enum (two versions)**:
  - `defineEnum` and the first `Enum` wrapper, with `keys` and `includes`;
  - the second `Enum`, which maps the uppercase form of every value to the value and adds `values` and `includes`.
- **object**: `hasKeys` and `inKeys`.
- **class**:
  - `isDirectSubclass` and `isSubclass` (a walk up the prototype chain that stops at `Function.prototype`);
  - `isDirectInstance`, over a heap of functions and objects linked by their prototypes.

Modules, one per file:
- `Wrappers`: Option and Result.
- `BezierCurve`: the curve functions and the bisection.
- `BezierEasing`: the two classes and their cache.
- `Strings`
- `Uri`, and `UriExamples`: the test table and the documented examples.
- `Url`
- `Css`
- `EnumV1`
- `EnumV2`
- `ObjectKeys`
- `ClassHierarchy`

Numbers are modelled as mathematical reals and integers, as described under "Left out". Strings are sequences of characters. Regular expressions are written out as predicates on string positions.

## Model

| member | source | states |
|---|---|---|
| BezierCurve.QuadraticSolveX | src/bezier.ts:12-18 | the x-coordinate starts at 0 for t = 0 and ends at 1 for t = 1 (end points (0,0) and (1,1)) |
| BezierCurve.QuadraticSolveY | src/bezier.ts:26-30 | the y-coordinate is 0 at t = 0 and 1 at t = 1 |
| BezierCurve.CubicSolveX | src/bezier.ts:83-91 | the cubic x-coordinate is 0 at t = 0 and 1 at t = 1 |
| BezierCurve.CubicSolveY | src/bezier.ts:99-105 | the cubic y-coordinate is 0 at t = 0 and 1 at t = 1 |
| BezierCurve.QuadraticSolveXMonotone | src/bezier.ts:12-18 | with the control x in [0,1], x(t) is non-decreasing on [0,1], which the bisection's comparison relies on |
| BezierCurve.CubicSolveXMonotone | src/bezier.ts:83-91 | with both control x in [0,1], the cubic x(t) is non-decreasing on [0,1] |
| BezierCurve.Curve.SolveX | src/bezier.ts:176-178 | the x-coordinate of either curve kind runs from 0 to 1 |
| BezierCurve.Curve.SolveY | src/bezier.ts:183-185 | the y-coordinate of either curve kind runs from 0 to 1 |
| BezierCurve.SolveXMonotone | src/bezier.ts:165-167 | whenever the constructor's control-point check holds, the curve's x(t) is non-decreasing on [0,1] |
| BezierCurve.CurveSolveXMonotone | src/bezier.ts:220-225 | under the control-point checks, x is monotone on [0,1] with x(0) = 0 and x(1) = 1, so the bisection is well founded |
| BezierCurve.Halved | src/bezier.ts:49 | halving a positive width n times keeps it positive and no larger |
| BezierCurve.HalvedOfHalf | src/bezier.ts:49 | halving first and then n times equals halving n times and then once |
| BezierCurve.Bisect | src/bezier.ts:48-56 | every step keeps the bracket, with x(tMin) < x <= x(tMax), and stays inside the previous interval |
| BezierCurve.BisectWidth | src/bezier.ts:48-56 | after n steps the interval is exactly (tMax - tMin) / 2^n wide |
| BezierCurve.TForX | src/bezier.ts:40-58 | x <= 0 gives t = 0, x >= 1 gives t = 1, and every result lies in [0,1] |
| BezierCurve.YForX | src/bezier.ts:68-71 | x <= 0 gives y = 0 and x >= 1 gives y = 1 |
| BezierCurve.BracketSeparates | src/bezier.ts:51-55 | for a monotone x(t), every t left of the bracket has x(t) < x, and every t right of it has x <= x(t) |
| BezierCurve.TForXLocatesCrossing | src/bezier.ts:40-58 | the returned t is within half the final width, 2^-(n+1), of where x(t) reaches x: x(t) < x to the left of that window and x <= x(t) to its right |
| BezierCurve.CurveTForXLocatesCrossing | src/bezier.ts:115-133 | the same bound holds for either curve whose control points pass the checks |
| BezierCurve.SolveTForX | src/bezier.ts:115-133 | the loop with tMin and tMax returns the bisection result TForX, in [0,1] |
| BezierCurve.SolveYForX | src/bezier.ts:143-146 | the method returns y(t) at the t from the bisection |
| BezierEasing.Pow10 | src/bezier.ts:169 | 10 ** e is positive, and at least 1 for e >= 0 |
| BezierEasing.Pow10Step | src/bezier.ts:169 | 10 ** (e + 1) = 10 * 10 ** e, for negative exponents too |
| BezierEasing.Scale | src/bezier.ts:168-170 | the stored accuracy is -1 exactly when -1 was passed, and otherwise the positive 10 ** accuracy |
| BezierEasing.DefaultScale | src/bezier.ts:163 | the default accuracy 4 gives the scale 10000 |
| BezierEasing.RoundNearest | src/bezier.ts:193 | Math.round(r) = n exactly when r - 1/2 < n <= r + 1/2 (halves round up) |
| BezierEasing.Round | src/bezier.ts:193 | Math.round(r) lies within a half of r: r - 1/2 < result <= r + 1/2 |
| BezierEasing.CacheKey | src/bezier.ts:193 | the key `Math.round(x * accuracy)` lies within a half of x * accuracy |
| BezierEasing.SameKeyClose | src/bezier.ts:193-194 | two inputs share a cache key only when their scaled values differ by less than 1 |
| BezierEasing.CacheStoreExplained | src/bezier.ts:195-196 | storing the freshly solved y under its key keeps every cached value the solver's answer for some input with that key |
| BezierEasing.CheckQuadratic | src/bezier.ts:165-167 | the constructor's check passes exactly when p1.x is in [0,1], and otherwise reports the P1 error |
| BezierEasing.CheckCubic | src/bezier.ts:220-225 | p1 is checked before p2; the error names P1 exactly when p1.x is outside [0,1], P2 exactly when p1.x is inside and p2.x is outside |
| BezierEasing.QuadraticBezier.constructor | src/bezier.ts:161-171 | a checked control point gives a valid instance with an empty cache and accuracy rewritten to the scale |
| BezierEasing.QuadraticBezier.Create | src/bezier.ts:161-171 | construction fails (the thrown TypeError) exactly when the check fails; otherwise the instance is fresh and valid, holds p1, the scale and an empty cache |
| BezierEasing.QuadraticBezier.SolveX | src/bezier.ts:176-178 | delegates to the quadratic x-coordinate of the stored control point |
| BezierEasing.QuadraticBezier.SolveY | src/bezier.ts:183-185 | delegates to the quadratic y-coordinate |
| BezierEasing.QuadraticBezier.SolveYForX | src/bezier.ts:190-200 | three cases. Accuracy -1: solves directly and leaves the cache alone. A key already cached: returns the cached value unchanged. A new key: stores the solver's answer under Math.round(x * accuracy) and returns it. Every cached value stays the answer for an input with its key |
| BezierEasing.CubicBezier.constructor | src/bezier.ts:215-229 | checked control points give a valid instance with an empty cache and the scale as accuracy |
| BezierEasing.CubicBezier.Create | src/bezier.ts:215-229 | fails with the first failing check's error, P1 before P2; otherwise a fresh valid instance with empty cache |
| BezierEasing.CubicBezier.SolveX | src/bezier.ts:234-236 | delegates to the cubic x-coordinate of the stored control points |
| BezierEasing.CubicBezier.SolveY | src/bezier.ts:241-243 | delegates to the cubic y-coordinate |
| BezierEasing.CubicBezier.SolveYForX | src/bezier.ts:248-258 | the same bypass/hit/miss contract as the quadratic class, for the cubic solver |
| Strings.UpperChar | src/string.ts:85 | a lowercase ASCII letter becomes its uppercase letter, which lowercases back; anything else is unchanged |
| Strings.LowerChar | src/string.ts:92 | an uppercase ASCII letter becomes lowercase; anything else is unchanged |
| Strings.ToLower | src/string.ts:92 | toLowerCase keeps the length |
| Strings.ToLowerAt | src/string.ts:92 | toLowerCase maps character by character |
| Strings.ToLowerProperties | src/string.ts:92 | the result has no uppercase letter, and a string without one is unchanged |
| Strings.ToLowerAppend | src/string.ts:92 | toLowerCase distributes over concatenation |
| Strings.ToUpper | src/string.ts:85 | toUpperCase keeps the length; the characters are given by ToUpperAt |
| Strings.ToUpperAt | src/string.ts:85 | each character of toUpperCase is the uppercase of the input character at the same place |
| Strings.ToUpperHasNoLower | src/string.ts:85 | the result of toUpperCase has no lowercase letter |
| Strings.SplitOn | src/css.ts:79 | splitting at a character always gives at least one part |
| Strings.SplitOnPart | src/css.ts:79 | a part without the separator splits as itself, and a leading part is split off at the first separator |
| Strings.SplitOnJoinWith | src/css.ts:79 | joining parts that contain no separator and then splitting gives back the parts |
| Strings.SliceIndex | src/string.ts:54 | a negative slice index counts from the end; the index is clamped to [0, length] |
| Strings.Slice | src/string.ts:54 | String.prototype.slice is the ordinary substring for in-range indices, and never longer than its input |
| Strings.SliceDropsLast | src/string.ts:54 | slice(0, -n) drops the last n characters when n > 0, but slice(0, -0) is empty |
| Strings.RemovePrefix | src/string.ts:46-47 | when s starts with the prefix, s = prefix + result; otherwise the result is s |
| Strings.RemoveEmptySuffixAsWritten | src/string.ts:53-55 | as written, every string ends with "", and removeSuffix("") then returns "" instead of the string |
| Strings.RemoveSuffixAsWritten | src/string.ts:53-55 | as written: for a non-empty suffix that s ends with, s = result + suffix; without the suffix, s is returned; an empty suffix gives "" |
| Strings.RemoveSuffix | src/string.ts:53-55 | corrected: when s ends with the suffix, s = result + suffix; otherwise, or for an empty suffix, the result is s |
| Strings.RemoveSuffixAgrees | src/string.ts:53-55 | for every non-empty suffix the corrected and as-written removeSuffix agree |
| Strings.Repeat | src/string.ts:63-65 | k copies of p have k times its length |
| Strings.RepeatSnoc | src/string.ts:63-65 | one more copy at the end is the next repetition |
| Strings.StrippedPrefixes | src/string.ts:60-67 | an empty prefix returns the string; otherwise the result no longer starts with the prefix |
| Strings.StrippedPrefixesSplit | src/string.ts:60-67 | the input is some number of prefix copies followed by the result |
| Strings.StrippedPrefixesUnique | src/string.ts:60-67 | any split into copies of the prefix plus a rest not starting with it has the result as that rest |
| Strings.StrippedPrefixesIdempotent | src/string.ts:60-67 | removing all prefixes twice is the same as once |
| Strings.RemoveAllPrefixes | src/string.ts:60-67 | the while loop computes StrippedPrefixes |
| Strings.StrippedSuffixes | src/string.ts:72-79 | an empty suffix returns the string; otherwise the result no longer ends with the suffix |
| Strings.StrippedSuffixesSplit | src/string.ts:72-79 | the input is the result followed by some number of suffix copies |
| Strings.StrippedSuffixesUnique | src/string.ts:72-79 | any split into a rest not ending with the suffix plus copies of it has the result as that rest |
| Strings.StrippedSuffixesIdempotent | src/string.ts:72-79 | removing all suffixes twice is the same as once |
| Strings.RemoveAllSuffixes | src/string.ts:72-79 | the while loop computes StrippedSuffixes |
| Strings.ToCamelCase | src/string.ts:85 | a string with no "-" before a lowercase letter is unchanged; the result has no such pair; the first character stays lowercase or not |
| Strings.ToCamelCaseIdempotent | src/string.ts:85 | camel-casing twice is the same as once |
| Strings.HyphenateBoundaries | src/string.ts:92 | a string without uppercase letters has no boundary and is unchanged |
| Strings.ToKebabCase | src/string.ts:92 | the result has no uppercase letter, and a string without uppercase letters is unchanged |
| Strings.CaseInverse | src/string.ts:85 | uppercasing the lowercase form of an uppercase letter gives it back |
| Strings.CamelKeeps | src/string.ts:85 | a character other than "-" passes through camel-casing |
| Strings.CamelJoins | src/string.ts:85 | "-" followed by a lowercase letter becomes that letter uppercased |
| Strings.CamelKebabRoundTrip | src/string.ts:85-92 | for a camel-case word (lowercase start, each capital after a lowercase letter or digit, no "-"), toCamelCase(toKebabCase(s)) == s |
| Strings.HyphenateAtBoundary | src/string.ts:92 | a lowercase letter or digit followed by a capital gets "-" between them |
| Strings.KebabAtBoundary | src/string.ts:92 | at a boundary, kebab-casing emits the letter, "-" and the capital lowercased |
| Strings.KebabPlain | src/string.ts:92 | away from a boundary, a non-capital character is emitted as it is |
| Strings.RoundTripAtBoundary | src/string.ts:85-92 | the round trip extends over one boundary |
| Strings.RoundTripPlain | src/string.ts:85-92 | the round trip extends over one plain character |
| Uri.StripLeft | src/uri.ts:3 | a single leading slash followed by a non-slash is removed, leaving a string that starts with a non-slash; otherwise the string is unchanged |
| Uri.StripRight | src/uri.ts:5 | a single trailing slash preceded by a non-slash is removed; otherwise the string is unchanged |
| Uri.StripKeepsSlashRuns | src/uri.ts:3-5 | a run of two slashes at either end, and a lone "/", are left alone |
| Uri.SplitFrom | src/uri.ts:7 | splitting at inner slashes always gives at least one piece |
| Uri.Split | src/uri.ts:7 | splitting a fragment at inner slashes always gives at least one piece |
| Uri.SplitFromJoins | src/uri.ts:7 | joining the pieces with "/" gives back the string: only the lone inner slashes are consumed |
| Uri.SplitFromPieces | src/uri.ts:7 | the pieces of a non-empty string are non-empty and contain no inner slash |
| Uri.SplitFromEdges | src/uri.ts:7 | every piece but the last ends with a non-slash, and every piece but the first starts with one |
| Uri.SplitFromPrefix | src/uri.ts:7 | the first piece is a prefix of the string |
| Uri.SplitFromHead | src/uri.ts:7 | a fragment that starts with a non-slash has a first piece that does too |
| Uri.SplitFromNonEmptyHead | src/uri.ts:7 | a non-empty string has a non-empty first piece |
| Uri.SplitFromSkips | src/uri.ts:7 | positions without an inner slash do not change the split |
| Uri.SplitWhole | src/uri.ts:7 | a string without an inner slash splits as itself |
| Uri.SplitCut | src/uri.ts:7 | the split cuts at the first inner slash and continues after it |
| Uri.Fragments | src/uri.ts:32 | the kept fragments are non-empty and at most as many as the arguments |
| Uri.Prepare | src/uri.ts:33-57 | a non-empty fragment stays non-empty after its slashes are stripped |
| Uri.PrepareKeepsEnds | src/uri.ts:33-57 | preparing drops at most one character at each end; the first fragment keeps its start, the last fragment keeps its end |
| Uri.SegmentsFrom | src/uri.ts:33-59 | the flat list of the split prepared fragments from index i on; stated case by case by SegmentsOfOne to SegmentsOfFour |
| Uri.Segments | src/uri.ts:33-59 | map and flat over all fragments, as SegmentsOfOne to SegmentsOfFour state for one to four fragments |
| Uri.FragmentsAppend | src/uri.ts:32 | the filter distributes over concatenation |
| Uri.Step | src/uri.ts:60-70 | ".", "/." and "./" keep the stack; "..", "/.." and "../" pop (nothing on an empty stack); anything else is pushed |
| Uri.ResolveFrom | src/uri.ts:60-70 | the reduce from a given stack never yields more segments than the stack plus the input; ResolveFromAppend and ResolveCancels give its laws |
| Uri.Resolve | src/uri.ts:60-70 | the resolved stack is no longer than the segment list; ResolveDots computes it with push and pop |
| Uri.ResolveFromPlain | src/uri.ts:60-70 | the stack only ever holds segments that are not dot segments |
| Uri.ResolveFromNoDots | src/uri.ts:60-70 | without dot segments, resolution only appends |
| Uri.ResolveFromAppend | src/uri.ts:60-70 | resolving a + b is resolving a and then b |
| Uri.ResolveCancels | src/uri.ts:60-70 | a segment followed by ".." cancels, and a leading ".." is ignored |
| Uri.ResolveDots | src/uri.ts:60-70 | the loop with push and pop computes Resolve |
| Uri.SlashTests | src/uri.ts:74 | the slash tests of the glue step are endsWith("/") and startsWith("/") |
| Uri.GlueStep | src/uri.ts:71-79 | first segment as is; concatenate when a slash is already at the joint; otherwise insert "/" |
| Uri.GlueFrom | src/uri.ts:71-79 | the reduce never shortens the path built so far; GlueFromExtends states it is a prefix |
| Uri.Glue | src/uri.ts:71-79 | no segments glue to ""; GlueSplit gives the inverse with the split |
| Uri.GlueFromExtends | src/uri.ts:71-79 | gluing only appends to the path built so far |
| Uri.GlueFromEndsWithLast | src/uri.ts:71-79 | the glued path ends with the last segment |
| Uri.GlueFromSlashFree | src/uri.ts:71-79 | pieces without slashes at their joints are glued with exactly one "/" each |
| Uri.GlueSlashFree | src/uri.ts:71-79 | such pieces glue to their join with "/" |
| Uri.GlueSplit | src/uri.ts:7 | gluing the pieces of a split gives back the string |
| Uri.Join | src/uri.ts:30-80 | the four stages in sequence compute Joined |
| Uri.Joined | src/uri.ts:30-80 | with no non-empty fragment the join is ""; the stages are stated by JoinedOne to JoinedFour and the table cases |
| Uri.FragmentsOfNonEmpty | src/uri.ts:32 | non-empty arguments all survive the filter |
| Uri.SegmentsOfOne | src/uri.ts:34-40 | a single fragment is treated as the first and loses only a lone trailing slash before it is split |
| Uri.SegmentsOfTwo | src/uri.ts:34-47 | the first of two fragments loses a lone trailing slash and the last a lone leading slash before both are split and flattened |
| Uri.SegmentsOfThree | src/uri.ts:33-59 | a middle fragment loses both lone end slashes, the leading one first |
| Uri.SegmentsOfFour | src/uri.ts:33-59 | with four fragments both middle ones lose both lone end slashes |
| Uri.JoinedOne | src/uri.ts:34-40 | a single fragment is treated as the first: only its trailing slash is stripped |
| Uri.JoinedTwo | src/uri.ts:34-47 | of two fragments, the first loses its trailing and the last its leading slash |
| Uri.JoinedThree | src/uri.ts:33-58 | a middle fragment loses both |
| Uri.JoinedFour | src/uri.ts:33-58 | with four fragments both middle ones lose both slashes |
| Uri.JoinedIgnoresEmpty | src/uri.ts:32 | an empty argument anywhere changes nothing |
| Uri.JoinedOfEmpties | src/uri.ts:32 | only empty arguments join to "" |
| Uri.EmptiesFilteredOut | src/uri.ts:32 | only empty arguments give no fragments |
| Uri.JoinedSingle | src/uri.ts:34-40 | one fragment without dot segments joins to itself minus a lone trailing slash |
| Uri.JoinedEndsWithLastSegment | src/uri.ts:71-79 | when the last flattened segment is a plain segment, the joined path ends with it |
| UriExamples.ResolveOne | src/uri.ts:66-68 | a single plain segment is pushed |
| UriExamples.ResolveTwo | src/uri.ts:66-68 | two plain segments are pushed in order |
| UriExamples.ResolveThree | src/uri.ts:66-68 | three plain segments are pushed in order |
| UriExamples.ResolveDropDot | src/uri.ts:61-62 | a "." form between plain segments is dropped |
| UriExamples.ResolveFirst | src/uri.ts:60-70 | a plain first segment is pushed, and the rest resolves on top of it |
| UriExamples.ResolvePopped | src/uri.ts:63-65 | in a, b, "..", c the ".." takes b off, leaving a, c |
| UriExamples.ResolveUpLast | src/uri.ts:63-65 | a trailing ".." takes the segment before it off |
| UriExamples.ResolveUpFirst | src/uri.ts:63-65 | in a, "..", b only b remains |
| UriExamples.ResolveUpOnEmpty | src/uri.ts:63-65 | a ".." form on the empty stack is dropped |
| UriExamples.ResolveUpTwice | src/uri.ts:63-65 | two ".." forms after a, b take both off |
| UriExamples.ResolveUpPastEmpty | src/uri.ts:63-65 | a second ".." past the start of the stack is dropped |
| UriExamples.GlueOne | src/uri.ts:72-73 | a single segment is the whole path |
| UriExamples.GlueTwo | src/uri.ts:76-77 | two segments without a slash at the joint are glued with one "/" |
| UriExamples.GlueTwoAtSlash | src/uri.ts:74-75 | with a slash already at the joint, the two are concatenated |
| UriExamples.GlueThree | src/uri.ts:71-79 | three segments without slashes at their joints are glued with a "/" at each joint |
| UriExamples.TrailingSlashOfLastKept | test/url.test.ts:4 | join("a", "/b/") == "a/b/" |
| UriExamples.LeadingSlashOfFirstKept | test/url.test.ts:5 | join("/a", "b") == "/a/b" |
| UriExamples.ProtocolRelativeHead | test/url.test.ts:6 | join("//domain", "a/") == "//domain/a/" |
| UriExamples.ProtocolRelativeHeadThreeFragments | test/url.test.ts:7 | join("//domain/", "/a/", "b") == "//domain/a/b" |
| UriExamples.ThreePlainFragments | test/url.test.ts:10 | join("a", "b", "c") == "a/b/c" |
| UriExamples.TrailingSlashesDropped | test/url.test.ts:11 | join("a/", "b/", "c") == "a/b/c" |
| UriExamples.SlashesOnBothSides | test/url.test.ts:12 | join("/a/", "/b/", "/c") == "/a/b/c" |
| UriExamples.DoubleSlashInsideKept | test/url.test.ts:15 | join("a//b", "c") == "a//b/c" |
| UriExamples.DoubleSlashHeadsKept | test/url.test.ts:16 | join("//a", "//b") == "//a//b" |
| UriExamples.DotFragmentDropped | test/url.test.ts:19 | join("a", ".", "b") == "a/b" |
| UriExamples.DotPieceDropped | test/url.test.ts:20 | join("a", "./b") == "a/b" |
| UriExamples.DotDotPopsFragment | test/url.test.ts:21 | join("a", "b", "..", "c") == "a/c" |
| UriExamples.DotDotPieceGoesUp | test/url.test.ts:22 | join("a", "../b") == "b" |
| UriExamples.DotDotLast | test/url.test.ts:23 | join("/a", "b", "..") == "/a" |
| UriExamples.TwoLevelsUp | test/url.test.ts:24 | join("a", "b", "../../c") == "c" |
| UriExamples.DotDotOnEmptyStack | test/url.test.ts:27 | join("..", "a") == "a" |
| UriExamples.DotDotTwiceOnOneSegment | test/url.test.ts:28 | join("a", "..", "..", "b") == "b" |
| UriExamples.RootedDotDotOnEmptyStack | test/url.test.ts:29 | join("/..", "a") == "a" |
| UriExamples.RootAlone | test/url.test.ts:32 | join("/") == "/" |
| UriExamples.RootThenSegment | test/url.test.ts:33 | join("/", "a") == "/a" |
| UriExamples.SegmentThenRoot | test/url.test.ts:34 | join("a", "/") == "a/" |
| UriExamples.HttpHeadKept | test/url.test.ts:37 | join("http://a", "b") == "http://a/b" |
| UriExamples.FileHeadKept | test/url.test.ts:38 | join("file:///a", "b") == "file:///a/b" |
| UriExamples.DocBasicJoin | src/uri.ts:20 | join('/a/', 'b', '/c') == "/a/b/c" |
| UriExamples.DocResolution | src/uri.ts:24 | join('/a/b/../c') == "/a/c" |
| UriExamples.DocProtocolHead | src/uri.ts:28 | join("http://example.com", "a") == "http://example.com/a" |
| UriExamples.EmptyFragmentIgnored | src/uri.ts:32 | a leading empty argument is filtered out before the first fragment is chosen |
| Url.Join | src/url.ts:8-58 | URI.join returns exactly what uri.join returns, on every input |
| Css.Line | src/css.ts:24 | each declaration line is the kebab-cased key, ": ", the value unchanged and ";", with its length exactly the sum of those parts |
| Css.Lines | src/css.ts:23-24 | one line per entry, in entry order |
| Css.Rule | src/css.ts:22-26 | no entries give "", one entry gives its line |
| Css.KebabAddsNoNewline | src/css.ts:24 | kebab-casing a key introduces no line break |
| Css.HyphenateKeepsCharacters | src/string.ts:92 | hyphenation adds only "-" characters |
| Css.RuleLines | src/css.ts:22-26 | when no key or value holds a line break, splitting the rule at line breaks gives exactly the entries' lines |
| Css.Selector | src/css.ts:42-44 | the block is the selector, "{", the rule and "}", with no spaces added |
| Css.At | src/css.ts:69-71 | a missing or empty rule (falsy) leaves the identifier alone; any other rule is wrapped in braces after it |
| Css.Join | src/css.ts:78-80 | no blocks give "", one block gives itself |
| Css.JoinSplits | src/css.ts:78-80 | blocks without line breaks come apart again at the line breaks |
| Css.AtOfEmptyRule | src/css.ts:69-71 | an at-rule around an empty rule() is the bare identifier |
| Css.AtOfSelector | src/css.ts:61-71 | an at-rule around a selector block nests the braces, with no spaces |
| Css.KebabBackgroundColor | src/css.ts:17 | backgroundColor kebab-cases to background-color |
| Css.KebabFontSize | src/css.ts:18 | fontSize kebab-cases to font-size |
| Css.KebabCustomProperty | src/css.ts:19 | a custom property name passes through unchanged |
| Css.BackgroundColorLine | src/css.ts:17 | the entry backgroundColor: "red" gives "background-color: red;" |
| Css.FontSizeLine | src/css.ts:18 | the entry fontSize: "16px" gives "font-size: 16px;" |
| Css.CustomPropertyLine | src/css.ts:19 | the custom entry gives "--my-custom-var: blue;" |
| Css.RuleOfThree | src/css.ts:22-26 | a three-entry rule is its three lines separated by line breaks |
| Css.RuleExample | src/css.ts:16-20 | the documented rule example is the three kebab-cased declaration lines, one per line |
| Css.SelectorExampleBody | src/css.ts:37-39 | rule({color: "blue"}) is "color: blue;" |
| Css.SelectorExample | src/css.ts:35-40 | the documented selector example yields "#my-element{color: blue;}", not the commented "#my-element { color: blue; }" |
| Css.KebabOfCamel | src/string.ts:92 | a lowercase word, one capital and a lowercase tail kebab-case to word + "-" + lowercase letter + tail |
| EnumV1.Assign | src/enum_v1.ts:17 | property assignment updates the entry; a new key is appended to the key order, an existing key keeps its place; the order stays duplicate-free and complete |
| EnumV1.DefineEnum | src/enum_v1.ts:14-19 | the reduce builds EnumOf(keys), a record whose key order is complete and duplicate-free |
| EnumV1.EnumOf | src/enum_v1.ts:14-19 | the reduce records no more keys than it is given; EnumOfEntries and EnumOfOrder state the keys and their order |
| EnumV1.EnumOfEntries | src/enum_v1.ts:14-19 | the defined keys are exactly the arguments and each maps to itself; no arguments give {} |
| EnumV1.AssignSelf | src/enum_v1.ts:17 | one `acc[key] = key` keeps every key mapped to itself |
| EnumV1.EnumOfOrder | src/enum_v1.ts:14-19 | the key order lists only arguments, ordered by their first occurrence |
| EnumV1.OrderStep | src/enum_v1.ts:16-18 | one more key keeps the order by first occurrence |
| EnumV1.FirstIndex | src/enum_v1.ts:16-18 | the index of the first occurrence of a key, or the length when it is absent |
| EnumV1.FirstIndexOfInit | src/enum_v1.ts:16-18 | appending a key does not move the first occurrence of an earlier key |
| EnumV1.FirstIndexOfLast | src/enum_v1.ts:16-18 | a new key's first occurrence is where it is appended |
| EnumV1.Keys | src/enum_v1.ts:37 | keys() lists exactly the object's keys, each once |
| EnumV1.Includes | src/enum_v1.ts:38 | includes(key) holds exactly when key is one of the object's keys |
| EnumV1.EnumOfAB | src/enum_v1.ts:14-19 | defineEnum("A", "B") is { A: "A", B: "B" } with keys in that order |
| EnumV1.DefineEnumExample | src/enum_v1.ts:7-12 | defineEnum("A", "B", "C") is { A: "A", B: "B", C: "C" } |
| EnumV1.EnumExample | src/enum_v1.ts:27-34 | keys() of the documented enum is ["对", "不对"], and includes("对") is true while includes("错") is false |
| EnumV2.MakeEnum | src/enum_v2.ts:32-38 | the forEach fills the uppercase-key entries, and values() returns the arguments unchanged |
| EnumV2.Includes | src/enum_v2.ts:36 | includes(value) holds exactly when value is one of the arguments |
| EnumV2.UpperEntries | src/enum_v2.ts:34 | the last value written is stored under its uppercase form; UpperEntriesKeys and UpperEntriesLastWins cover the rest |
| EnumV2.EnumOf | src/enum_v2.ts:32-38 | values() of the enum is the argument list, and includes holds exactly for its members |
| EnumV2.Values | src/enum_v2.ts:35 | values() lists exactly the values for which includes holds |
| EnumV2.UpperEntriesKeys | src/enum_v2.ts:34 | the keys are exactly the uppercase forms of the arguments, and each key holds an argument whose uppercase form it is |
| EnumV2.UpperEntriesLastWins | src/enum_v2.ts:34 | when two values share an uppercase form, the later one wins |
| EnumV2.UpperKeysHaveNoLower | src/enum_v2.ts:34 | no key holds a lowercase letter |
| EnumV2.MethodNamesFree | src/enum_v2.ts:34-36 | the keys never collide with the names values and includes |
| EnumV2.UpperExamples | src/enum_v2.ts:23-26 | value_a and value_b uppercase to VALUE_A and VALUE_B |
| EnumV2.EnumExample | src/enum_v2.ts:22-29 | Enum("value_a", "value_b") has exactly the entries VALUE_A and VALUE_B; values() lists the two; includes tests values, not keys |
| ObjectKeys.EveryOwn | src/object.ts:20 | every(hasOwnProperty) holds exactly when every key is an own property |
| ObjectKeys.EveryIn | src/object.ts:30 | every(in) holds exactly when every key is an own or inherited property |
| ObjectKeys.HasKeys | src/object.ts:18-21 | no keys give false; otherwise true exactly when all keys are own properties |
| ObjectKeys.InKeys | src/object.ts:28-31 | no keys give false; otherwise true exactly when all keys are own or inherited properties |
| ObjectKeys.HasKeysImpliesInKeys | src/object.ts:18-31 | hasKeys implies inKeys |
| ObjectKeys.KeysOrderFree | src/object.ts:18-31 | both results depend only on the set of keys given, not their order or repetition |
| ObjectKeys.NoInheritedSame | src/object.ts:18-31 | for an object without inherited properties the two agree |
| ClassHierarchy.ProtoDecreases | src/class.ts:61 | a prototype step goes down the chain to null or another cell |
| ClassHierarchy.IsDirectSubclass | src/class.ts:40-45 | false unless both are functions; between functions, true exactly when the child's prototype is the class |
| ClassHierarchy.IsSubclass | src/class.ts:51-66 | the prototype walk returns true exactly when the class is met before Function.prototype, which only holds between functions |
| ClassHierarchy.WalkShape | src/class.ts:56-64 | the walk starts at the input, visits only functions, steps from each to its prototype, and visits Function.prototype at most as its start |
| ClassHierarchy.Walk | src/class.ts:56-64 | the walk is non-empty exactly for a function, and starts at it |
| ClassHierarchy.Subclass | src/class.ts:51-66 | isSubclass holds only between two functions |
| ClassHierarchy.SubclassReflexive | src/class.ts:58 | every function is a subclass of itself |
| ClassHierarchy.DirectIsSubclass | src/class.ts:61-63 | a direct subclass is a subclass, unless the parent is Function.prototype, where the walk stops before comparing |
| ClassHierarchy.FunctionPrototypeOnlyItself | src/class.ts:63 | Function.prototype is a subclass only of itself |
| ClassHierarchy.WalkSuffix | src/class.ts:56-64 | the walk from a function met on a walk stays within that walk |
| ClassHierarchy.SubclassTransitive | src/class.ts:51-66 | isSubclass is transitive |
| ClassHierarchy.NullPrototypeThrows | src/class.ts:77 | an object with a null prototype makes isDirectInstance, as written, throw a TypeError |
| ClassHierarchy.IsDirectInstance | src/class.ts:72-78 | corrected: true exactly when the class is a function and the object's prototype is an object whose constructor is the class |
| ClassHierarchy.IsDirectInstanceAsWritten | src/class.ts:72-78 | as written: it throws exactly for a function and an object whose prototype is null, and returns true only for a function and an object |
| ClassHierarchy.DirectInstanceAgrees | src/class.ts:72-78 | wherever the code as written returns, it returns the corrected answer, and it throws exactly for a null-prototype object |
| ClassHierarchy.DirectInstanceUnique | src/class.ts:77 | an object is a direct instance of at most one class |

## Left out

- **Floating-point arithmetic.** `number` is a mathematical real. Rounding error, NaN and infinities are not modelled, so the claims about iteration counts (src/bezier.ts:48 and 123) are not modelled either. Cache hits are modelled on equal rounded keys, as in the code.
- **Exact `10 ** accuracy` and `Math.round`.** Both are exact operations on reals: `Math.round` is floor(r + 1/2). Non-integer accuracy and non-integer iteration counts are not modelled; both are integers here.
- **Control-point errors.** The check returns an error value; the model does not throw an exception. The fields are private and read-only; the model makes them plain fields.
- **BezierEasing.QuadraticBezier.SolveYForX** and **BezierEasing.CubicBezier.SolveYForX**: the cache is a map field. The model does not capture the identity of the JavaScript `Map` object, or its insertion order.
- **ASCII only.** `toUpperCase`, `toLowerCase` and the regex classes `[a-z]`, `[A-Z]` and `[0-9]` are modelled on ASCII letters and digits. Unicode case mapping is not modelled.
- **Regular expressions.** They are written as predicates on string positions, and a global replace as a left-to-right scan. Lookbehind is read on the original string, as JavaScript does.
- **The `defineProperty` mechanics.** The `writable`, `configurable` and `enumerable` flags are not modelled. The functions are modelled as plain functions of their `this`.
- **Object key order.** `Object.entries` and `Object.keys` are modelled as insertion order. The JavaScript rule that integer-like keys come first is not modelled.
- **Values and arguments.** CSS values are strings: the template conversion of non-string values is not modelled. `Enum(...).includes` with a non-string argument is not modelled either.
- **isInstance (src/class.ts:84-88).** It is `instanceof`, whose semantics (Symbol.hasInstance, bound functions) is outside the heap model.
- **`constructor` and chain depth.** The `constructor` property is a field of each heap cell, not a property lookup through the chain. The chain length is stored in each cell, as the termination measure.
- **Types only.** The TypeScript-only types are not modelled: `EnumOf`, `EnumKeyValue`, the Vue `CSSProperties` type and the csstype `AtRules` type.
- **Non-core files.** src/task.ts, src/time.ts, src/error.ts and src/type.ts are not part of this model.
- **The test file's import.** test/url.test.ts:42 imports `URI` from src/uri, which exports `uri`. The expectations of that table are stated about Uri.Joined, and Url.Join returns the same on every input.
- **Css.SelectorExample.** The comment at src/css.ts:40 shows spaces inside the braces. The code adds none, and the model follows the code. The same applies to the `at` examples at src/css.ts:58 and 67.
- EnumV1.DefineEnum: the key `"__proto__"` is an ordinary map key here. In JavaScript, `acc["__proto__"] = "__proto__"` runs the prototype setter and creates no own key.
- BezierCurve.SolveTForX: iteration counts are natural numbers. A negative count, which the source loop accepts, runs zero times and returns 0.5 for 0 < x < 1. The model does not cover that call.

## Findings

| source | as written | input that shows it | evidently intended | confidence | as-written member | corrected member |
|---|---|---|---|---|---|---|
| src/string.ts:54 | `removeSuffix("")` slices `0, -0`, which is `slice(0, 0)` | `"abc".removeSuffix("")` returns `""` | the string unchanged, as documented at src/string.ts:11 | not executed | Strings.RemoveEmptySuffixAsWritten | Strings.RemoveSuffixAgrees |
| src/class.ts:77 | reads `.constructor` of the prototype without a null check | `Foo.isDirectInstance(Object.create(null))` throws TypeError | false for an object without a prototype | not executed | ClassHierarchy.NullPrototypeThrows | ClassHierarchy.DirectInstanceAgrees |
