# CyclingCalculator core, modelled in Dafny

CyclingCalculator estimates a cyclist's power from recorded ride samples. For
each sample it evaluates a physical power model. That model has three parts:
rolling resistance, the slope component of the weight, and aerodynamic drag in
air whose density comes from temperature, altitude and humidity. The program
can also invert the model: it finds the speed a given power sustains, by
solving a cubic and selecting its unique positive root.

This project models that core:

| module | file | models |
|---|---|---|
| `Results` | `results.dfy` | `Result` and `Option` wrappers; `Err` stands for a thrown `std::runtime_error` |
| `Transcendental` | `libm.dfy` | `exp`, `sqrt`, `cbrt`, `acos`, `cos` as fields of a `Libm` value; `Ideal(lib)` states the only facts used (`exp > 0`, and `sqrt(x) ≥ 0` with `sqrt(x)² = x` for `x ≥ 0`) |
| `RootSelection` | `roots.dfy` | `GetUniquePositiveRoot` |
| `CubicSolver` | `cubic.dfy` | `SolveCubic`: branch selection, root counts, the linear and quadratic closed forms, the repeated-root branch |
| `PhysicsParams` | `physics_params.dfy` | `CyclistParams` (a value), `EnvironmentParams` (a class whose `GetAirDensity` caches into a field) |
| `Physics` | `physics.dfy` | `PowerEval`, `PowerEvalByDynamics`, `SpeedEval` |
| `PowerEstimation` | `estimate_power.dfy` | `FitData` (a class of parallel columns), `EstimatePower`, `RecalcGradient` |
| `CommandLine` | `getopt.dfy` | `GetOpt` |
| `TextSplit` | `io.dfy` | `splitByDelimiter` |

Floating-point numbers are exact reals. The `eps` and `tolerance`
comparisons are kept literally, with 1e-6 read as the decimal 0.000001.
Every method that loops or updates state is proved against a pure
specification function, for example `SolveCubic` against `CubicRoots` and
`GetOpt` against `ParseOptions`. The lemmas state what the source promises
about those functions.

## Model

| member | source | states |
|---|---|---|
| RootSelection.CollectPositives | src/math.cpp:20-26 | the filtering loop keeps exactly the strictly positive roots, in input order |
| RootSelection.PositivesSnoc | src/math.cpp:22-26 | one more input root adds itself to the positive roots exactly when it is > 0 (0 counts as non-positive) |
| RootSelection.PositivesCount | src/math.cpp:22-26 | each positive value occurs among the kept roots as often as in the input; non-positive values never |
| RootSelection.SortAscending | src/math.cpp:32 | `std::sort` yields an ascending permutation of the positive roots |
| RootSelection.SortedPermutationUnique | src/math.cpp:32 | two ascending permutations of the same multiset are equal, so the sorted vector is determined |
| RootSelection.SortedPositives | src/math.cpp:22-32 | the sorted vector is ascending and a permutation of the positive roots |
| RootSelection.SortedPositivesMembers | src/math.cpp:22-32 | a value is in the sorted vector exactly when it is an input root > 0 |
| RootSelection.GetUniquePositiveRoot | src/math.cpp:18-41 | returns or throws exactly as `UniquePositiveRoot`: no positive root gives NoPositiveRoot; a sorted positive root more than `tolerance` from the first gives MultipleRoots; otherwise the smallest positive root |
| RootSelection.SelectRootFar | src/math.cpp:34-37 | a root at index ≥ 1 farther than `tolerance` from the first one makes the scan throw MultipleRoots |
| RootSelection.SelectRootNear | src/math.cpp:34-40 | if every root is within `tolerance` of the first, the first is returned |
| RootSelection.NoPositiveRootIff | src/math.cpp:22-30 | it throws "No positive real roots found" if and only if no input root is > 0 |
| RootSelection.MultipleRootsIff | src/math.cpp:32-38 | for tolerance ≥ 0 it throws "Multiple distinct positive real roots" if and only if two positive input roots lie more than `tolerance` apart |
| RootSelection.MultipleRootsHasSpread | src/math.cpp:32-38 | the "only if" half: that error implies two positive roots farther apart than `tolerance` |
| RootSelection.SpreadIsMultipleRoots | src/math.cpp:32-38 | the "if" half: such a pair makes it throw that error |
| RootSelection.UniquePositiveRootValue | src/math.cpp:32-40 | a returned value is an input root, is > 0, and every positive root lies in [value, value + tolerance] |
| RootSelection.PositivesPermutation | src/math.cpp:22-26 | reordering the input only reorders the kept positive roots |
| RootSelection.UniquePositiveRootOrderIndependent | src/math.cpp:32 | the returned value or error does not depend on the order of the input roots |
| CubicSolver.SolveCubic | src/math.cpp:55-104 | corrected: returns exactly `CubicRoots`: the low-degree cases when abs(a) < eps, otherwise the normalised cubic's Cardano, trigonometric or corrected repeated-root branch, selected by D |
| CubicSolver.CubicRoots | src/math.cpp:55-104 | never more than 3 roots |
| CubicSolver.LowDegreeRoots | src/math.cpp:59-76 | the linear and quadratic cases return at most 2 roots |
| CubicSolver.TrigRoots | src/math.cpp:92-94 | the loop's n roots are, in order, r·cos((φ + 2πk)/3) − b/3 for k = 0 … n−1 |
| CubicSolver.TrigBranchNegativeCube | src/math.cpp:89-91 | D < −eps forces p³ < 0, the sign the square roots in φ and r rely on |
| CubicSolver.LinearBranch | src/math.cpp:59-66 | with abs(a), abs(b) < eps: no root if abs(c) < eps, otherwise exactly [−d/c], which solves c·x + d = 0 |
| CubicSolver.QuadraticFormula | src/math.cpp:67-70 | (s − c)/(2b) solves b·x² + c·x + d = 0 whenever s² = c² − 4bd |
| CubicSolver.QuadraticTwoRootsShape | src/math.cpp:67-71 | disc > eps returns (−c + √disc)/(2b) then (−c − √disc)/(2b) |
| CubicSolver.SqrtRoots | src/math.cpp:67-70 | both signs of √disc give a root of the quadratic, and the two differ |
| CubicSolver.QuadraticTwoRoots | src/math.cpp:67-71 | disc > eps: two distinct roots, each solving b·x² + c·x + d = 0 |
| CubicSolver.QuadraticOneRoot | src/math.cpp:72-74 | abs(disc) < eps: the single root −c/(2b), an exact root when disc = 0 |
| CubicSolver.QuadraticNoRoot | src/math.cpp:67-75 | otherwise no root: disc ≤ −eps, or disc exactly eps |
| CubicSolver.GeneralBranch | src/math.cpp:84-101 | abs(a) ≥ eps: 1 root when D > eps, 3 otherwise, the last two equal when abs(D) ≤ eps |
| CubicSolver.NormalizeCubic | src/math.cpp:78 | dividing b, c, d by a ≠ 0 keeps the roots |
| CubicSolver.DepressionIdentity | src/math.cpp:80-81 | x = t − b/3 turns x³ + bx² + cx + d into t³ + pt + q with the code's p and q |
| CubicSolver.ShiftedRootSolves | src/math.cpp:78-82 | a root t of the depressed cubic gives the root t − b/(3a) of the original cubic |
| CubicSolver.DoubleRootDepressed | src/math.cpp:96-101 | with D = 0 and p ≠ 0, 3q/p and −3q/(2p) solve t³ + pt + q = 0 |
| CubicSolver.TripleRootDepressed | src/math.cpp:96-101 | with D = 0 and p = 0, q = 0 too, so t = 0 is the triple root |
| CubicSolver.RepeatedRootDepressed | src/math.cpp:96-101 | with D = 0, every root of the corrected branch, shifted by b/3, solves t³ + pt + q = 0 |
| CubicSolver.RepeatedRoots | src/math.cpp:96-101 | the corrected branch returns three roots, the last two equal |
| CubicSolver.RepeatedRootsAsWritten | src/math.cpp:96-101 | the branch as written is defined only for p ≠ 0 and repeats its second root |
| CubicSolver.RepeatedRootsSolveCubic | src/math.cpp:96-101 | with D = 0, every root the corrected branch returns solves a·x³ + b·x² + c·x + d = 0 |
| CubicSolver.RepeatedRootsAsWrittenMissesSimpleRoot | src/math.cpp:97-100 | for x³ − 3x + 2 the branch as written returns 1, −0.5, −0.5, and −0.5 is not a root; the corrected one returns −2, 1, 1 |
| CubicSolver.RepeatedRootsAsWrittenDividesByZero | src/math.cpp:97 | for (x − 1)³ the branch as written divides by 2p = 0; the corrected one returns 1, 1, 1 |
| PhysicsParams.NewCyclist | src/physics.h:12-14 | mass, CdA and rolling coefficient as given; drivetrain penalty 0.02 |
| PhysicsParams.NewCyclistWithPenalty | src/physics.h:15 | all four fields as given |
| PhysicsParams.EnvironmentParams.constructor | src/physics.h:23-33 | gradient, headwind, altitude, humidity and temperature as given; density starts at 1.22 |
| PhysicsParams.EnvironmentParams.WithDefaults | src/physics.h:23-34 | gradient, altitude and temperature as given; headwind 0, humidity 50, density 1.22 |
| PhysicsParams.EnvironmentParams.GetAirDensity | src/physics.cpp:14-29 | returns the dry-air partial pressure over R_spec·T_K, stores that same value in `airDensityKgm3`, and changes no other field |
| PhysicsParams.GetAirDensityTwice | src/physics.cpp:14-29 | two calls return the same value, which the cache then holds |
| PhysicsParams.VapourPressureMonotone | src/physics.cpp:23-24 | water-vapour pressure is non-decreasing in humidity, since the saturation pressure is positive |
| PhysicsParams.AirDensityHumidityMonotone | src/physics.cpp:21-27 | with T_K > 0, raising the humidity never raises the density |
| Physics.Power | src/physics.cpp:44-55 | the reported power is ≥ 0; it equals (rolling + gradient + aero drag) · speed · (1 + penalty) whenever that is ≥ 0, and is 0 whenever that is negative |
| Physics.PowerAtRest | src/physics.cpp:44-55 | at speed 0 the power is 0, whatever the slope or wind |
| Physics.PowerClampedDownhill | src/physics.cpp:53-55 | for any headwind and a drivetrain penalty > −1: a negative total resisting force (rolling + gradient + aero drag at the air speed) at positive speed gives power 0 |
| Physics.PowerEval | src/physics.cpp:42-56 | returns `Power` for the fields of `ep` and the density just computed, and refreshes the density cache |
| Physics.PowerEvalByDynamics | src/physics.cpp:58-74 | returns `Power` at the mean of the two speeds, whatever `beforeEp` and `dt` are |
| Physics.ExpandSpeedPolynomial | src/physics.cpp:90-94 | (m + k(x + h)²)·x = kx³ + 2kh·x² + (kh² + m)·x |
| Physics.SpeedCubicIdentity | src/physics.cpp:90-108 | for every x, a·x³ + b·x² + c·x + d = (rolling + gradient + aero drag at air speed x + h)·x − P/(1 + penalty) |
| Physics.SpeedCubicRootIffPower | src/physics.cpp:90-108 | x is a root of the speed cubic if and only if the unclamped power at x m/s equals P |
| Physics.DragFreeSpeedCubic | src/physics.cpp:101-106 | with CdA = 0 the speed cubic has a = b = 0, so SolveCubic takes its linear branch |
| Physics.SpeedEval | src/physics.cpp:87-114 | corrected: returns 3.6 × the unique positive root of the speed cubic as `SolveCubic` (corrected repeated-root branch) finds it, or the root-selection error; refreshes the density cache |
| Physics.SpeedFromPowerPositive | src/physics.cpp:110-113 | a returned speed is > 0, is 3.6 × a root the solver found, and every positive root found lies within `tolerance` above it |
| Physics.SpeedFromPowerWithoutDragIsExact | src/physics.cpp:101-113 | with CdA = 0, at a returned speed the unclamped power (RawPower) equals P, and for P ≥ 0 the forward model's clamped `Power` gives back P |
| Physics.SpeedFromPowerRepeatedRootIsExact | src/physics.cpp:101-113 | when the normalised speed cubic has D = 0 (corrected repeated-root branch), at a returned speed the unclamped power equals P, and for P ≥ 0 the clamped `Power` gives back P |
| PowerEstimation.FitData.constructor | src/io.h:6-21 | a ride starts with every column empty |
| PowerEstimation.IntegerTemperatureAboveAbsoluteZero | src/estimate_power.cpp:28 | a whole-degree temperature never makes T_K zero |
| PowerEstimation.SamplePowerEval | src/estimate_power.cpp:28-29 | PowerEval in the environment built from sample i at speed_mps[i]·3.6 |
| PowerEstimation.EstimateSample | src/estimate_power.cpp:28-34 | one pass for a sample at non-negative distance sets entry i to `EstimateAt`, the spike replaced by entry i−1, and leaves the other entries alone |
| PowerEstimation.Estimates | src/estimate_power.cpp:20-35 | one estimate per sample |
| PowerEstimation.EstimatePowerAsWritten | src/estimate_power.cpp:16-38 | as written, assuming its write at :25 stays in bounds: `estimatedPowerW` becomes `Estimates` for all samples (length = power_w's); no other column changes |
| PowerEstimation.EstimatePower | src/estimate_power.cpp:16-38 | corrected: the same result with no requirement on the old `estimatedPowerW` |
| PowerEstimation.NegativeDistanceWriteOutOfBounds | src/estimate_power.cpp:23-25 | with no estimates yet and a first sample at distance −1, the write at :25 is out of bounds |
| PowerEstimation.EstimatesPrefix | src/estimate_power.cpp:21-35 | a longer run extends a shorter one: the first m estimates of an n-sample run are the estimates of the m-sample run |
| PowerEstimation.EstimateRule | src/estimate_power.cpp:23-34 | output i is 0 for negative distance; otherwise the sample's power; but a spike above 2000 W after the first sample repeats output i−1 |
| PowerEstimation.FirstEstimateKept | src/estimate_power.cpp:31 | output 0 is never replaced, even above 2000 W |
| PowerEstimation.EstimatesBounded | src/estimate_power.cpp:29-34 | every output is ≥ 0 and either ≤ 2000 W or equal to output 0 |
| PowerEstimation.RecalcedGradient | src/estimate_power.cpp:42-60 | the new gradient column is as long as the old one |
| PowerEstimation.RecalcGradient | src/estimate_power.cpp:40-61 | the gradient column becomes `RecalcedGradient` of altitude and distance; no other column changes |
| PowerEstimation.RecalcedGradientZeros | src/estimate_power.cpp:42-44 | entries 0–4, and entries past the distance column, are 0 |
| PowerEstimation.GradientRecoversClimb | src/estimate_power.cpp:56 | where written, gradient × distance covered over five samples = 100 × altitude gained |
| PowerEstimation.GradientSkipped | src/estimate_power.cpp:46-53 | a window starting or ending at altitude 0, or covering no distance, gives 0 |
| CommandLine.SizeT | src/getopt.cpp:16-27 | an `int` count becomes a `size_t`: unchanged when non-negative, plus 2^64 when negative |
| CommandLine.Step | src/getopt.cpp:23-38 | an argument is rejected if and only if it is not an option and no values are pending |
| CommandLine.GetOpt | src/getopt.cpp:13-43 | returns exactly `ParseOptions`: the arguments after argv[0], read one at a time, or the "Invalid options" error |
| CommandLine.RunAppend | src/getopt.cpp:21-40 | reading xs then ys equals reading xs + ys |
| CommandLine.ErrorPersists | src/getopt.cpp:35-38 | once an argument is rejected, the whole call fails |
| CommandLine.StepConsistent | src/getopt.cpp:24-34 | one argument keeps the invariant: only options have lists, lists hold non-options within their counts, pending count = count − list length |
| CommandLine.RunConsistent | src/getopt.cpp:21-40 | any prefix of the arguments keeps that invariant |
| CommandLine.ParseOptionsConsistent | src/getopt.cpp:24-33 | every key returned is a declared option, with at most its count of values, none of them an option |
| CommandLine.ProgramNameIgnored | src/getopt.cpp:15-21 | argv[0] is never examined |
| CommandLine.OptionRestarts | src/getopt.cpp:24-29 | a declared option always starts afresh, even while values are pending |
| CommandLine.LeadingValueRejected | src/getopt.cpp:30-38 | a non-option right after argv[0] is rejected |
| CommandLine.OptionWithValues | src/getopt.cpp:24-34 | an option followed by at most its count of non-options gets exactly those values; fewer than the count is no error |
| CommandLine.TooManyValues | src/getopt.cpp:30-38 | more non-options than the count is an error |
| CommandLine.RunRendered | src/getopt.cpp:21-42 | writing out options with their values and reading them back gives their lists, a later use replacing an earlier |
| CommandLine.ParseRendered | src/getopt.cpp:13-43 | GetOpt reads back exactly what was written out, whatever argv[0] is |
| TextSplit.Find | src/io.cpp:29 | `find` returns an occurrence at or after the start position |
| TextSplit.FindFirst | src/io.cpp:29-31 | it is the first such occurrence, and `npos` means there is none |
| TextSplit.PieceEnd | src/io.cpp:29-31 | the piece ends within the string, no earlier than it starts |
| TextSplit.FindPieceEnd | src/io.cpp:29-31 | `find`, with `npos` replaced by the string length |
| TextSplit.PushToken | src/io.cpp:33-36 | a piece is appended as is; an empty piece is appended as an empty string |
| TextSplit.SplitByDelimiter | src/io.cpp:23-40 | returns exactly `Split`: the pieces between delimiters, front to back |
| TextSplit.SplitAccStep | src/io.cpp:29-37 | one iteration appends the next piece and moves past its delimiter |
| TextSplit.SplitAccIsSplitFrom | src/io.cpp:27-38 | the loop run to the end appends the remaining pieces to those found |
| TextSplit.EmptyDelimiterStalls | src/io.cpp:29-37 | with an empty delimiter `find` matches at the start position, so `prev` never advances |
| TextSplit.JoinSplitFrom | src/io.cpp:27-38 | from any position, the joined pieces give back the rest of the string, up to one final delimiter |
| TextSplit.JoinSplit | src/io.cpp:27-38 | joining the pieces with the delimiter gives back the string, or the string minus a final delimiter |
| TextSplit.SplitWithoutDelimiter | src/io.cpp:27-32 | an empty string gives no piece; a non-empty string without the delimiter gives itself |
| TextSplit.NoPieceHoldsDelimiter | src/io.cpp:29-32 | no piece contains the delimiter |
| TextSplit.SplitKeepsInnerEmptyPiece | src/io.cpp:32-36 | "a,,b" splits into "a", "", "b" |
| TextSplit.SplitKeepsLeadingEmptyPiece | src/io.cpp:32-36 | ",a" splits into "", "a" |
| TextSplit.SplitDropsPieceAfterFinalDelimiter | src/io.cpp:27-37 | "a," splits into just "a" |

## Left out

- Numeric accuracy of `exp`, `sqrt`, `cbrt`, `acos` and `cos`. They are opaque fields of `Libm`, so the model does not show that Cardano's or the trigonometric roots solve the cubic. It also leaves out the barometric and Magnus values, and any forward/inverse speed round trip through those branches.
- Float rounding, NaN and infinity: numbers are exact reals. Literals such as `1e-6f` and `0.02f` are read as their decimal values.
- CubicSolver.SolveCubic: uses the corrected repeated-root branch (`RepeatedRoots`), not the one at src/math.cpp:96-101 (`RepeatedRootsAsWritten`). When abs(D) ≤ eps it therefore returns different roots from the source. For (x − 2)(x + 1)² the source returns −1, 0.5, 0.5 and the model returns 2, −1, −1. The two findings below give the reasons.
- CubicSolver.CubicRoots: specifies the corrected repeated-root branch, like SolveCubic.
- Physics.SpeedEval: inherits the corrected branch through SolveCubic. For a speed cubic with abs(D) ≤ eps it can return a different speed from the source. One example is h = 0, m = −3k and P = 2k(1 + penalty): the source picks the root 0.5 (1.8 km/h) and the model picks 2 (7.2 km/h).
- Physics.PowerEval: requires a temperature other than −273.15 °C (T_K ≠ 0). There the source divides by zero in floating point.
- Physics.PowerEvalByDynamics: requires T_K ≠ 0 like PowerEval. The acceleration computed at src/physics.cpp:60 is never used and is not modelled, so a zero `dt` is not modelled either.
- Physics.SpeedEval: requires T_K ≠ 0 and 1 + drivetrain penalty ≠ 0, the two floating-point divisions by zero. It also requires `Ideal(lib)`.
- PhysicsParams.EnvironmentParams.GetAirDensity: requires T_K ≠ 0, for the same reason.
- RootSelection.MultipleRootsIff: stated for a non-negative tolerance only. With a negative tolerance even equal roots are rejected, which the "two roots farther apart" reading does not describe.
- PowerEstimation.EstimatePower: requires the distance, gradient, altitude, temperature and speed columns to be at least as long as `power_w`. The source indexes them unchecked.
- PowerEstimation.RecalcGradient: requires the altitude column to be at least as long as the distance column. It also requires every entry it writes to fall inside the old gradient column. The source indexes and writes without checks.
- TextSplit.SplitByDelimiter: requires a non-empty delimiter unless the string is empty. With an empty delimiter the loop never ends (see `TextSplit.EmptyDelimiterStalls`).
- CommandLine.GetOpt: counts are unbounded integers converted to `size_t` modulo 2^64. A negative count therefore lets an option take up to 2^64 + count values. The 32-bit range of `int` is not enforced.
- `parseJsonData`, `InterpidsportFitService` and `WriteCallback` (src/io.cpp) are not part of this model. They do file I/O, JSON parsing through rapidjson, and an HTTP request through libcurl.
- src/main.cpp is not part of this model. It is the command-line driver, with filename handling, `std::stof` and CSV output.

## Findings

| source | as written | input that shows it | evidently intended | confidence | as-written member | corrected member |
|---|---|---|---|---|---|---|
| src/math.cpp:96-101 | with r = 3q/(2p), returns −r − b/3 once and r/2 − b/3 twice | x³ − 3x + 2 (a=1, b=0, c=−3, d=2): D = 0, returns 1, −0.5, −0.5, and −0.5 gives 3.375 | the simple root 3q/p − b/3 once and the double root −3q/(2p) − b/3 twice: −2, 1, 1 | not executed | CubicSolver.RepeatedRootsAsWrittenMissesSimpleRoot | CubicSolver.RepeatedRootsSolveCubic |
| src/math.cpp:97 | computes 3q/(2p) also when p = 0 | x³ − 3x² + 3x − 1 = (x − 1)³: p = q = 0, so 0/0 | the triple root −b/3: 1, 1, 1 | not executed | CubicSolver.RepeatedRootsAsWrittenDividesByZero | CubicSolver.RepeatedRootsSolveCubic |
| src/estimate_power.cpp:25 | a negative-distance sample writes 0 into `data.estimated_power_w[i]`, the field, which the JSON reader leaves empty | a ride whose `estimated_power_w` is empty and whose first sample has distance −1 | write the local `estimated_power_w[i]`, which already holds 0 | not executed | PowerEstimation.NegativeDistanceWriteOutOfBounds | PowerEstimation.EstimatePower |
