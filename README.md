# G79.29+0.46 segmented-spacetime analysis scripts, in Dafny

This project models the analysis core of the G79 "segmented spacetime" test
scripts. Every script is built around one radial profile of the nebula
G79.29+0.46:

    gamma_seg(r) = 1 - alpha * exp(-(r / r_c)^2)

Here r is in parsecs, and the paper's values are alpha = 0.12 and r_c = 1.9 pc.
The scripts derive several quantities from this profile:

- temperatures T0 * gamma and T0 / gamma;
- the velocity excess v0 (1/gamma - 1);
- the redshifted radio frequency nu0 * gamma;
- boundary velocity boosts and energy-release velocities;
- the dual-frame energy densities;
- the core mass, as a calibrated trapezoid integral of gamma over radius.

They also do the bookkeeping around these:

- bin catalog sources and image pixels into half-open radial rings;
- fit the profile to measured temperatures, falling back to the initial guess when the optimiser fails;
- classify radio bands, Mach domains and g1/g2 regimes;
- print sigma-verdict ladders;
- build preview, repeat and slow variants of animated GIFs.

Each script is one Dafny module, named after what it computes. Shared pieces
are modelled once:

- `Profile`: the gamma_seg profile and the laws derived from it.
- `Trapezoid`: `np.trapz`.
- `Rings`: the half-open ring masks.
- `Stats`: the numpy and pandas summary statistics.
- `Grid`: `np.linspace` and `np.arange`.
- `Ladder`: the `if x < t0 ... elif ...` verdict ladders.
- `Floats`: numpy's infinities and NaN.
- `Fitting`: `curve_fit`, which is a parameter here.
- `Text`: `str.split`, `str.strip` and `str(n)`.
- `Paths`: `Path.stem`.
- `Sorting`: `np.argsort` and `sorted`.
- `Gifs`: a PIL animation as a frame sequence.

Some things are parameters of the model rather than part of it:

- `np.exp`, `np.sqrt` and the radio power law x^-0.7 are function parameters. The laws the proofs use are stated as predicates in `RealMath`: `IsExp`, `IsSqrt` and `IsNegativePower`.
- The optimiser of `scipy.optimize.curve_fit` is a parameter that returns the fitted parameters or `None` when it raises. `Fitting.IsCurveFit` states what a returned fit guarantees, including that there was data and, without bounds, at least as many points as parameters.
- The file system, FITS readers and GIF decoders are parameters.
- The radii of pixels and sources are inputs, as the WCS or the catalog gives them.
- Whether a CSV radius column holds integers is an input of `CoreMass.CalculateCumulativeMass`, because the array it fills takes that column's dtype.

Real numbers are exact reals. Where numpy produces infinities or NaN, the
model produces them too, through `Floats.Float`. Where Python raises, the
model returns `Result.Err`, or a script outcome that names the exception.
Two ring scripts fail in their closing summary after the CSV is already
written; there the model returns the written rows with exit status 1, the
status of an uncaught exception.

Loops that update state in place are methods proved equal to a recursive
specification function, and the properties are lemmas about that function.
These loops are:

- the ring loops;
- the cumulative mass array;
- the radial binning of a FITS image;
- the regime classification;
- the frame-loading loops and the script loops over GIF files.

## Model

A function that only computes a value has no row of its own when a lemma states its contract: the row of that lemma, usually named after the function with `Spec` appended, cites the same source lines and stands for both.

| member | source | states |
|---|---|---|
| Profile.GammaSegs | scripts/fit_gamma_seg_profile.py:66-80 | gamma_seg broadcast over an array of radii has one value per radius, the profile at that radius |
| Profile.ProfileExpInUnit | scripts/energy_release_model.py:31-37 | the exponential factor exp(-(r/r_c)^2) lies in (0, 1] at every radius |
| Profile.GammaAtCentre | scripts/energy_release_model.py:31-37 | gamma_seg(0) = 1 - alpha |
| Profile.GammaBounds | scripts/fit_gamma_seg_profile.py:66-80 | for alpha >= 0 every gamma_seg lies in [1 - alpha, 1] |
| Profile.GammaPositive | TEST_THREE_PHASE_DECOUPLING.py:67-74 | for alpha < 1 gamma_seg is strictly positive, so the scripts' divisions by gamma are defined |
| Profile.GammaMonotone | scripts/energy_release_model.py:31-37 | for alpha >= 0 gamma_seg never decreases with distance from the centre |
| Profile.TemperatureBounds | scripts/test_segmented_spacetime_full.py:99-117 | T0 gamma_seg(r) lies in [(1 - alpha) T0, T0] and reaches (1 - alpha) T0 at the centre |
| Profile.VelocityExcessSpec | GENERATE_ALL_PAPER_FIGURES.py:91-99 | the excess v0 (1/gamma - 1) is 0 at gamma = 1 and non-negative on (0, 1], and the observed velocity v0/gamma is v0 plus the excess |
| Trapezoid.TrapzShift | scripts/calculate_core_mass.py:182-193 | raising every sample by c raises the trapezoid integral by c (x_last - x_first) |
| Trapezoid.TrapzNonNegative | scripts/calculate_core_mass.py:128 | non-negative samples on an ascending grid integrate to a non-negative value |
| Trapezoid.TrapzPositive | scripts/test_segmented_spacetime_full.py:150-164 | positive samples on a strictly ascending grid of two or more points integrate to a positive value |
| Trapezoid.TrapzZero | scripts/calculate_core_mass.py:128 | all-zero samples integrate to 0 |
| Trapezoid.TrapzPrefixStep | scripts/calculate_core_mass.py:161-164 | the integral over the first i+1 samples is the integral over the first i plus panel i-1 |
| Stats.MinMaxBound | scripts/fits_to_ring_profile.py:131-135 | the minimum is at most, and the maximum at least, every value of a non-empty sample |
| Stats.MinMaxAttained | scripts/fits_to_ring_profile.py:131-135 | the minimum and the maximum are values of the sample |
| Stats.MeanBetweenMinAndMax | scripts/fits_to_ring_profile.py:131-135 | the mean lies between the minimum and the maximum |
| Stats.MedianBetweenMinAndMax | scripts/fetch_and_extract_complete.py:205-207 | the median, the middle element or the average of the two middle elements of the sorted sample, lies between the minimum and the maximum |
| Stats.SortedCopyBounded | scripts/fetch_and_extract_complete.py:207 | every element of the sorted copy the median reads lies between the sample's extremes |
| Stats.PopulationStdNonNegative | scripts/fetch_and_extract_complete.py:206 | the population standard deviation (ddof = 0) of a non-empty sample is defined and non-negative |
| Stats.SampleStdDefinedFromTwo | RUN_COMPLETE_IR_ANALYSIS.py:185-186 | the pandas standard deviation (ddof = 1) is a non-negative number exactly when there are at least two values, NaN otherwise |
| Sorting.SortBy | scripts/calculate_core_mass.py:100-103 | sorting by a key gives a permutation of the input that is ordered by the key |
| Sorting.InsertBySorted | scripts/calculate_core_mass.py:100-103 | inserting into a key-ordered sequence keeps it key-ordered |
| Sorting.SortNames | CREATE_ANIMATION_VARIANTS_FINAL.py:32 | `sorted` on names gives a permutation of the input in ascending string order |
| Sorting.InsertNameSorted | CREATE_ANIMATION_VARIANTS_FINAL.py:32 | inserting a name into an ordered list keeps it ordered |
| Sorting.LexTotal | CREATE_ANIMATION_VARIANTS_FINAL.py:32 | Python's string order is total |
| Sorting.LexTrans | CREATE_ANIMATION_VARIANTS_FINAL.py:32 | Python's string order is transitive |
| Paths.RFind | scripts/catalog_to_rings.py:83-86 | the index of the last occurrence of a character, or -1 when there is none |
| Paths.StemOfName | scripts/catalog_to_rings.py:83-86 | `Path.stem` is a prefix of the name |
| Paths.StemOfSuffixed | scripts/catalog_to_rings.py:83-86 | the stem of stem + ".ext" is the stem again, so an output named stem + ".csv" has that stem |
| Text.SplitOn | scripts/catalog_to_rings.py:78 | `str.split` always returns at least one piece |
| Text.SplitPiecesFree | scripts/catalog_to_rings.py:78 | no piece of a split contains the separator, and every character of a piece comes from the string |
| Text.JoinSplit | scripts/catalog_to_rings.py:78 | joining the pieces of a split with the separator gives back the string |
| Text.SplitJoin | scripts/catalog_to_rings.py:78 | splitting a join of separator-free pieces gives back the pieces |
| Text.SplitOfFree | scripts/catalog_to_rings.py:78 | a separator-free prefix followed by the separator becomes the first piece of the split |
| Text.TrimSpec | scripts/catalog_to_rings.py:78 | `strip()` returns a contiguous piece of the input; everything cut off at either end is whitespace, and the result neither starts nor ends with whitespace |
| Text.TrimPiece | scripts/catalog_to_rings.py:78 | the stripped string is the piece of the input that starts where the left strip stopped |
| Text.TrimCutRight | scripts/catalog_to_rings.py:78 | everything after the stripped piece is whitespace |
| Text.TrimLeftSpec | scripts/catalog_to_rings.py:78 | `lstrip` returns a suffix of the input; what it removes is whitespace, and the result does not start with whitespace |
| Text.TrimRightSpec | scripts/catalog_to_rings.py:78 | `rstrip` returns a prefix of the input; what it removes is whitespace, and the result does not end with whitespace |
| Text.TrimNothing | scripts/catalog_to_rings.py:78 | a string without whitespace is its own strip |
| Text.TrimIdempotent | scripts/catalog_to_rings.py:78 | stripping twice is stripping once |
| Text.DecimalString | scripts/extract_radial_profile_from_fits.py:281 | `str(i)` for a natural number is a non-empty string of digits with no leading zero |
| Text.ParseDecimalString | scripts/extract_radial_profile_from_fits.py:281 | reading back the digits written for n gives n |
| Text.DecimalStringInjective | scripts/extract_radial_profile_from_fits.py:281 | two numbers are written the same exactly when they are equal, so the ring indices of the CSV lines are distinct |
| Floats.Scale | scripts/analyze_nh3_velocities.py:47 | multiplying by a positive constant keeps finiteness, scales a finite value and leaves infinities and NaN as they are |
| Floats.Div | scripts/analyze_nh3_velocities.py:61 | numpy division: x/y for y != 0, and for y = 0 an infinity, or NaN exactly when x = 0 |
| Floats.TimesInf | scripts/fit_gamma_seg_profile.py:139 | x * inf is NaN exactly for x = 0 and +inf exactly for x > 0 |
| Floats.SqrtF | scripts/fit_gamma_seg_profile.py:156 | `np.sqrt` is finite exactly on finite non-negative values, where it is the square root; NaN and -inf give NaN |
| Gifs.Frames | CREATE_ANIMATION_VARIANTS_FINAL.py:39-46 | an animation has at least one frame, the one `Image.open` shows first |
| Gifs.Pictures | CREATE_ANIMATION_VARIANTS_FINAL.py:39-46 | the frame images, one per frame and in frame order |
| Grid.Linspace | TEST_THREE_PHASE_DECOUPLING.py:81 | `np.linspace(a, b, n)` has n samples |
| Grid.LinspaceEnds | TEST_THREE_PHASE_DECOUPLING.py:81 | the grid starts at a, ends at b and is evenly spaced by (b - a)/(n - 1) |
| Grid.LinspaceStrictlyAscending | GENERATE_ALL_PAPER_FIGURES.py:107 | for a < b the grid strictly ascends |
| Grid.LinspaceAscending | scripts/test_segmented_spacetime_full.py:154 | for a <= b the grid ascends and never drops below a |
| Grid.Ceil | RUN_COMPLETE_IR_ANALYSIS.py:149 | the ceiling of q lies in [q, q + 1) |
| Grid.Arange | RUN_COMPLETE_IR_ANALYSIS.py:149 | `np.arange(start, stop, step)` has ceil((stop - start)/step) elements (none if negative), element i being start + i step |
| Grid.ArangeBelowStop | RUN_COMPLETE_IR_ANALYSIS.py:149 | for a positive step every element lies below stop, the next one would not, and the elements strictly ascend |
| Grid.ScaleGrid | scripts/test_segmented_spacetime_full.py:158 | a unit conversion multiplies every grid point by the factor |
| Grid.ScaleGridStrictlyAscending | scripts/test_segmented_spacetime_full.py:158 | a positive factor keeps a grid strictly ascending |
| Ladder.Rung | scripts/fit_gamma_seg_profile.py:179-200 | an `if/elif` threshold ladder ends on one of |t| + 1 rungs |
| Ladder.RungSpec | scripts/fit_gamma_seg_profile.py:179-200 | the value has passed every threshold below its rung and lies under the threshold of its rung |
| Ladder.RungMonotone | scripts/fit_gamma_seg_profile.py:179-200 | a larger value never lands on a lower rung |
| Ladder.SigmaRung | scripts/fit_gamma_seg_profile.py:179-200 | the sigma ladder `< 1`, `< 2`, `< 3`, else has four rungs |
| Ladder.SigmaRungSpec | scripts/fit_gamma_seg_profile.py:179-200 | each rung of the sigma ladder holds on exactly one band of deviations |
| Fitting.InfCovariance | scripts/fit_gamma_seg_profile.py:139 | `np.eye(n) * np.inf` is n by n, with +inf on the diagonal and NaN (0 * inf) off it |
| Fitting.InfRow | scripts/fit_gamma_seg_profile.py:139 | row i of that matrix is 1 * inf on the diagonal and 0 * inf elsewhere |
| Fitting.FitOrGuessSpec | scripts/fit_gamma_seg_profile.py:126-139 | the parameters have p0's shape and a square covariance, and lie inside the bounds whenever p0 does; a failed fit gives exactly p0 with +inf on the diagonal, and a fit without data, or unbounded with fewer points than parameters, always fails |
| Fitting.StdErrors | scripts/fit_gamma_seg_profile.py:146-156 | the standard errors are `np.sqrt` of the covariance diagonal, one per parameter |
| Fitting.StdErrorsSpec | scripts/fit_gamma_seg_profile.py:146-156 | a failed fit reports every error as +inf; a returned fit reports the square root of each finite non-negative variance, and NaN for a negative or NaN one |
| Gas.SoundSpeedSpec | scripts/analyze_nh3_velocities.py:36-48 | c_s is NaN exactly for T < 0; otherwise it is a non-negative number in km/s whose square, in m/s, is k_B T / (mu m_H), and it is positive for T > 0 |
| Gas.SoundSpeedMonotone | scripts/analyze_nh3_velocities.py:36-48 | a hotter gas never has a slower sound speed |
| Gas.MachNumberSpec | scripts/analyze_nh3_velocities.py:50-63 | for T > 0, M times c_s gives v back, M >= 0 for v >= 0, and M < 0.3 exactly when v < 0.3 c_s; at T = 0 M is v/0 (an infinity or NaN), and below 0 it is NaN |
| CoreMass.Radii | scripts/calculate_core_mass.py:92 | the radius column of the loaded pairs, one per pair |
| CoreMass.Gammas | scripts/calculate_core_mass.py:93 | the gamma column of the loaded pairs, one per pair |
| CoreMass.FinitePairs | scripts/calculate_core_mass.py:95-98 | the finite mask keeps at most as many pairs as there are rows |
| CoreMass.FinitePairsMembership | scripts/calculate_core_mass.py:95-98 | a (radius, gamma) pair survives exactly when some row holds it with both values finite |
| CoreMass.LoadProfile | scripts/calculate_core_mass.py:70-105 | loading fails exactly when the radius column or the gamma column is missing |
| CoreMass.LoadProfileSpec | scripts/calculate_core_mass.py:95-103 | a loaded profile is a permutation of the finite pairs, each pair kept together, with ascending radii |
| CoreMass.CoreMassNonNegative | scripts/calculate_core_mass.py:107-136 | 2.02 times the trapezoid integral in pc is non-negative for a non-negative profile on ascending radii |
| CoreMass.CoreMassShift | scripts/calculate_core_mass.py:107-136 | raising gamma by c everywhere adds 2.02 c (r_last - r_first) to the core mass |
| CoreMass.Cumulative | scripts/calculate_core_mass.py:139-164 | the cumulative mass array has one element per radius |
| CoreMass.CalculateCumulativeMass | scripts/calculate_core_mass.py:155-164 | the loop fills a fresh array of the input's length with the cumulative masses of the specification, as an array of the radius column's dtype stores them |
| CoreMass.TruncateTowardZero | scripts/calculate_core_mass.py:159-164 | storing a float into the int64 array of an integer radius column gives an integer of the value's sign, less than 1 closer to 0 |
| CoreMass.StoredCumulative | scripts/calculate_core_mass.py:159-164 | one stored mass per radius |
| CoreMass.StoredCumulativeSpec | scripts/calculate_core_mass.py:159-164 | a float radius column stores the cumulative masses exactly; an integer one stores whole numbers less than 1 below each non-negative mass, still never decreasing on an ascending non-negative profile |
| CoreMass.CumulativeNonNegative | scripts/calculate_core_mass.py:159-164 | every cumulative mass of a non-negative profile on ascending radii is non-negative |
| CoreMass.IntegerRadiiTruncate | scripts/calculate_core_mass.py:159-164 | radii 0, 1, 2 pc in an integer column with gamma = 0.9 store 1 for the mass out to 1 pc, which is 1.818 |
| CoreMass.CumulativeSpec | scripts/calculate_core_mass.py:159-164 | the cumulative mass starts at 0, ends at the core mass of the whole profile, and each step adds 2.02 times one trapezoid panel |
| CoreMass.CumulativeNonDecreasing | scripts/calculate_core_mass.py:159-164 | on ascending radii with non-negative gamma the cumulative mass never decreases |
| CoreMass.PanelNonNegative | scripts/calculate_core_mass.py:163 | a panel between ascending radii with non-negative gamma is non-negative |
| CoreMass.UncertaintyClosedForm | scripts/calculate_core_mass.py:168-193 | the +-delta-gamma uncertainty does not depend on gamma: it is 2.02 abs(d (r_last - r_first)), 0 for an empty profile |
| CoreMass.Within | scripts/calculate_core_mass.py:374-376 | the limit mask keeps at most every point |
| CoreMass.WithinSpec | scripts/calculate_core_mass.py:374-376 | a point is kept exactly when it is in the profile with r_min <= r <= r_max, and ascending radii stay ascending |
| CoreMass.ApplyLimitsSpec | scripts/calculate_core_mass.py:370-376 | without limits the profile is unchanged; with them a point is kept exactly when it lies within the limits given (a missing one defaults to the data's minimum or maximum and excludes nothing), and ascending radii stay ascending |
| CoreMass.PaperVerdictSpec | scripts/calculate_core_mass.py:401-418 | each verdict holds on exactly one band of the deviation abs(M - 8.7)/err |
| CoreMass.CombinedErrorPositive | scripts/calculate_core_mass.py:216-228 | the combined uncertainty sqrt(M_core_err^2 + 2^2) is at least 2, and exactly 2 for M_core_err = 0 |
| CoreMass.ObservationDeviationSpec | scripts/calculate_core_mass.py:211-228 | the observed total is 1.5 + 0.02 + 6.0 = 7.52; the deviation is non-negative, 0 exactly at 7.52, times the combined uncertainty gives abs(M_core - 7.52), and never exceeds abs(M_core - 7.52)/2 |
| CoreMass.QuotientBounds | scripts/calculate_core_mass.py:228 | a/c for a >= 0 and c >= 2 is non-negative, 0 exactly for a = 0, at most a/2, and below 1 exactly when a < c |
| CoreMass.ObservationVerdictSpec | scripts/calculate_core_mass.py:228-243 | each of the four verdicts holds on exactly one band of the deviation, and EXCELLENT means abs(M_core - 7.52) is below the combined uncertainty |
| CoreMass.MassBreakdown | scripts/calculate_core_mass.py:426-447 | the zone breakdown raises exactly on an empty profile (`r_pc.max()`) |
| CoreMass.MassBreakdownSpec | scripts/calculate_core_mass.py:426-447 | there are three zones; a zone has a mass exactly when some point lies in its closed range, and that mass is non-negative on an ascending non-negative profile |
| CoreMassEmpirical.CoreMassEmpiricalSpec | scripts/core_mass_empirical.py:28-54 | the mass is exactly 8.7 at (0.12, 1.9 pc), does not depend on the boundary radius or the calibration mass, and is non-negative for alpha >= 0 |
| CoreMassEmpirical.CoreMassEmpiricalScaling | scripts/core_mass_empirical.py:52 | the mass is linear in alpha and scales by k^2 when r_c is scaled by k |
| EnergyRelease.ReleaseVelocitySpec | scripts/energy_release_model.py:40-74 | for alpha_E >= 0 and gamma <= 1 v_obs is finite and at least abs(v_launch); it is exactly abs(v_launch) at gamma = 1; a negative radicand gives NaN |
| EnergyRelease.ReleaseVelocityMonotone | scripts/energy_release_model.py:68-72 | for fixed v_launch a smaller gamma never gives a smaller v_obs |
| EnergyRelease.Minus | scripts/energy_release_model.py:88-89 | subtracting a constant from a finite value is finite and subtracts; infinities and NaN stay |
| EnergyRelease.ExcessSpec | scripts/energy_release_model.py:77-89 | for v_launch >= 0 and gamma <= 1 the excess v_obs - v_launch is finite and non-negative, and 0 at gamma = 1 |
| EnergyRelease.MatchingMembership | scripts/energy_release_model.py:209-212 | a row is reported as a match exactly when it is a scanned row meeting abs(delta_v - 5) < 0.5 |
| EnergyRelease.ScanGammaSegRange | scripts/energy_release_model.py:182-216 | the scan has one row per gamma, in order, each the row for that gamma, and the matches are the matching rows |
| EnergyRelease.ScanSpec | scripts/energy_release_model.py:196-212 | over gammas <= 1 every excess is finite and non-negative and v_obs = v_launch + delta_v; a row matches exactly when abs(delta_v - 5) < 0.5 |
| BoundaryBoost.VelocityBoostSpec | scripts/test_boundary_velocity_boost.py:34-58 | the boost is never negative or NaN; it is 0 for gamma >= 1 (a negative term) and +inf only at gamma = 0; for 0 < gamma < 1 it is positive and its square is 2c^2(1/gamma - 1) |
| BoundaryBoost.VelocityBoostMonotone | scripts/test_boundary_velocity_boost.py:34-58 | on (0, 1] a smaller gamma never gives a smaller boost |
| BoundaryBoost.TotalVelocitySpec | scripts/test_boundary_velocity_boost.py:95 | a finite boost gives a finite total of at least abs(v_launch), and exactly abs(v_launch) without a boost |
| BoundaryBoost.BoundaryVerdictSpec | scripts/test_boundary_velocity_boost.py:130-138 | each verdict holds on exactly one band of residuals: below err, 2 err, 3 err, or beyond (a non-finite residual is a discrepancy) |
| BoundaryBoost.G79BoundaryDiscrepancy | scripts/test_boundary_velocity_boost.py:60-138 | for a boundary gamma in (0, 0.9] the relativistic boost exceeds 100,000 km/s, so the verdict is a discrepancy |
| BoundaryBoost.BoundaryProfile | scripts/test_boundary_velocity_boost.py:213-225 | the loop fills a fresh array, one velocity per radius, each the piecewise profile at that radius |
| BoundaryBoost.ProfileVelocityStep | scripts/test_boundary_velocity_boost.py:213-225 | the profile is v_inner inside the boundary and one finite value of at least v_inner outside, so it never decreases outwards |
| BoundaryRealistic.VelocityBoostRealisticSign | scripts/test_boundary_v_realistic.py:27-48 | the boost 42 (1/gamma - 1) is 0 at gamma = 1, positive on (0, 1) and negative above 1 |
| BoundaryRealistic.VelocityBoostRealisticDecreasing | scripts/test_boundary_v_realistic.py:27-48 | on (0, inf) the boost strictly decreases in gamma |
| BoundaryRealistic.PredictedTotalSpec | scripts/test_boundary_v_realistic.py:75 | the total sqrt(v_launch^2 + v_boost^2) is at least abs(v_launch) and abs(v_boost), and abs(v_launch) without a boost |
| BoundaryRealistic.RealisticVerdictSpec | scripts/test_boundary_v_realistic.py:101-107 | excellent exactly when abs(boost - 5) < 1, good when it is in [1, 2), needs refinement otherwise |
| BoundaryRealistic.G79Realistic | scripts/test_boundary_v_realistic.py:50-119 | at gamma = 0.88 the boost is 63/11 km/s, the verdict is excellent and the total is at least the 10 km/s launch speed |
| TwoMetric.IsBoundSpec | scripts/two_metric_model.py:38-66 | 'velocity' is v < 3; an unknown criterion is never bound; above 0 K 'mach' is 1000 v < 0.3 c_s and 'pressure' 1000 v < c_s, so Mach-bound implies pressure-bound |
| TwoMetric.TemperatureG2Monotone | scripts/two_metric_model.py:69-78 | T0 gamma_seg(r) never decreases outwards |
| TwoMetric.TemperatureG1ClassicalSpec | scripts/two_metric_model.py:81-90 | the classical temperature is T_inner at the shock radius, T r^2 is the constant T_inner r_shock^2, and it falls with radius for T_inner >= 0 |
| TwoMetric.InverseSquare | scripts/two_metric_model.py:90 | T r^2 = T_inner r_shock^2 |
| TwoMetric.VelocityG1MomentumSpec | scripts/two_metric_model.py:106-117 | the g1 velocity is v_launch whatever the radius and the launch radius |
| TwoMetric.ClassifyRegime | scripts/two_metric_model.py:120-153 | one label per row, 'g2' exactly when the row is bound: Mach-bound with a velocity column, r < 1 and T < 100 without one |
| TwoMetric.RegimeCounts | scripts/two_metric_model.py:172-173 | n_g1 + n_g2 is the number of rows |
| TwoMetric.RegimeCountsOfRows | scripts/two_metric_model.py:172-173 | n_g2 is the number of bound rows and n_g1 the rest |
| Nh3Velocities.DataFileSpec | scripts/analyze_nh3_velocities.py:72-83 | the table read is one that exists, the copy under data/ is preferred, and the script finds nothing exactly when neither copy exists |
| Nh3Velocities.CenterWidthSpec | scripts/analyze_nh3_velocities.py:96-97 | centre -+ width/2 gives v_min and v_max back; for v_min <= v_max the width is non-negative and the centre lies in the range |
| Nh3Velocities.VMins | scripts/analyze_nh3_velocities.py:112 | the v_min column, one value per component |
| Nh3Velocities.VMaxs | scripts/analyze_nh3_velocities.py:113 | the v_max column, one value per component |
| Nh3Velocities.TotalSpreadSpec | scripts/analyze_nh3_velocities.py:112-114 | the total spread is NaN exactly for an empty table; otherwise it is at least every component's width and is some v_max minus some v_min |
| Nh3Velocities.SpreadMatchSpec | scripts/analyze_nh3_velocities.py:127-132 | an excellent match exactly when abs(spread - 5) < 1, good when it is in [1, 2), a discrepancy otherwise (NaN included) |
| Nh3Velocities.EntrySpec | scripts/analyze_nh3_velocities.py:146-162 | a component with T_rot is in the g2 domain exactly when T_rot > 0 and abs(v_center) < 0.3 c_s(T_rot) |
| Nh3Velocities.AnalyzeMach | scripts/analyze_nh3_velocities.py:141-165 | the loop reports, in table order, the Mach entries of exactly the components whose T_rot is present |
| Nh3Velocities.MachAnalysisSpec | scripts/analyze_nh3_velocities.py:141-165 | one entry per component with a temperature; every entry is the entry of such a component and every such component has its entry |
| PaperPredictions.FitModelToDataSpec | scripts/verify_paper_predictions_FIXED.py:42-81 | the fits succeed exactly when both curve_fit calls return, which needs data; method 1's T0 is what the first fit found and method 2's parameters lie in the bounds [10, 100] x [0.01, 0.5] x [0.5, 5] |
| PaperPredictions.Predictions | scripts/verify_paper_predictions_FIXED.py:119-120 | one predicted temperature per observed radius, T0 gamma_seg(r) at that radius |
| PaperPredictions.Residuals | scripts/verify_paper_predictions_FIXED.py:122 | one residual T_obs - T_pred per point |
| PaperPredictions.AbsValues | scripts/verify_paper_predictions_FIXED.py:123 | `np.abs`, element by element |
| PaperPredictions.Squares | scripts/verify_paper_predictions_FIXED.py:124 | `residuals**2`, element by element |
| PaperPredictions.SumOfNonNegativeZero | scripts/verify_paper_predictions_FIXED.py:123-124 | a sum of non-negative values is non-negative, and 0 exactly when every value is 0 |
| PaperPredictions.MeanOfNonNegative | scripts/verify_paper_predictions_FIXED.py:123-124 | the mean of non-negative values is non-negative, and 0 exactly when every value is 0 |
| PaperPredictions.MaeSpec | scripts/verify_paper_predictions_FIXED.py:123 | the MAE is NaN exactly without data; otherwise it is non-negative, 0 exactly when every residual is 0, and at most the largest absolute residual |
| PaperPredictions.RmseSpec | scripts/verify_paper_predictions_FIXED.py:124 | the RMSE is NaN exactly without data; otherwise it is non-negative, its square is the mean squared residual, and it is 0 exactly when every residual is 0 |
| PaperPredictions.RangeSpec | scripts/verify_paper_predictions_FIXED.py:155-165 | alpha passes exactly within 0.03 of 0.12 and r_c exactly within 0.4 of 1.9 pc; the paper's values pass |
| PaperPredictions.MaeVerdictSpec | scripts/verify_paper_predictions_FIXED.py:194-199 | excellent exactly when MAE < 5 K, good when it is in [5, 10), fair otherwise (NaN included) |
| PaperPredictions.VerifyPaperClaimsSpec | scripts/verify_paper_predictions_FIXED.py:84-206 | a report exists exactly when both fits succeed, which needs data, and then all four errors are non-negative numbers; alpha and r_c are judged against the paper's ranges; the verdict is excellent exactly when the full fit's MAE is below 5 K, and a full fit through every point has MAE 0 |
| ThreePhase.GammaRange | TEST_THREE_PHASE_DECOUPLING.py:58-59 | gamma_seg lies in [1 - alpha, 1] |
| ThreePhase.VInternalSpec | TEST_THREE_PHASE_DECOUPLING.py:61-65 | v_internal lies in [0, 0.1 c_s alpha], is subsonic (Mach at most 0.012), is largest at the centre and falls off outwards |
| ThreePhase.VTransitionSpec | TEST_THREE_PHASE_DECOUPLING.py:67-74 | v_transition is the base 10 km/s plus its velocity excess, lies in [10, 10/(1 - alpha)] km/s, has Mach number at least 20 and falls off outwards |
| ThreePhase.VExternalSpec | TEST_THREE_PHASE_DECOUPLING.py:76-79 | v_external lies in [10, 10 + 6 alpha] km/s, peaks at the centre and falls off outwards |
| ThreePhase.RRange | TEST_THREE_PHASE_DECOUPLING.py:81 | the radius grid has 200 points |
| ThreePhase.Phase1Mask | TEST_THREE_PHASE_DECOUPLING.py:95 | one flag per radius, set exactly for r < 1.5 |
| ThreePhase.Phase2Mask | TEST_THREE_PHASE_DECOUPLING.py:96 | one flag per radius, set exactly for 1.5 <= r <= 2.5 |
| ThreePhase.Phase3Mask | TEST_THREE_PHASE_DECOUPLING.py:97 | one flag per radius, set exactly for r > 2.5 |
| ThreePhase.MasksPartition | TEST_THREE_PHASE_DECOUPLING.py:81-97 | every radius is in exactly one phase; along an ascending grid the phases never go backwards; on r_range the first point is subsonic and the last supersonic |
| ThreePhase.TObsSpec | TEST_THREE_PHASE_DECOUPLING.py:168-169 | T_obs lies in [T_local, T_local/(1 - alpha)] and T_obs gamma gives T_local back |
| ThreePhase.DeltaTRecoupleSpec | TEST_THREE_PHASE_DECOUPLING.py:210 | the released temperature lies in [0, alpha T_local] and peaks at the centre; v_internal and v_external are fixed multiples of it above their floors |
| ThreePhase.EKineticSpec | TEST_THREE_PHASE_DECOUPLING.py:211 | the specific kinetic energy is at least that of the 10 km/s base flow, 5e7 J/kg |
| TemperatureEquations.BasicSpec | TEST_TEMPERATURE_EQUATIONS_COMPLETE.py:119-124 | the basic profile T_0 gamma_seg(r) lies in [211.2 K, 240 K], is 211.2 K at the centre, equals T_local_g2 of T_0, and seen from the g1 frame gives T_0 back |
| TemperatureEquations.DualFrameRoundTrip | TEST_TEMPERATURE_EQUATIONS_COMPLETE.py:164-176 | T_observed_g1 and T_local_g2 undo each other: each applied to the other's result returns the input |
| TemperatureEquations.Pow4 | TEST_TEMPERATURE_EQUATIONS_COMPLETE.py:229-241 | gamma^4 is non-negative, and positive for gamma != 0 |
| TemperatureEquations.EnergyDensitySpec | TEST_TEMPERATURE_EQUATIONS_COMPLETE.py:229-254 | the g2 and g1 densities multiply to u_local^2, their ratio is gamma^8, and for 0 < gamma <= 1 and u_local >= 0 the g2 density never exceeds u_local and the g1 density never falls below it |
| TemperatureEquations.Pow4AtMostOne | TEST_TEMPERATURE_EQUATIONS_COMPLETE.py:229-241 | 0 < gamma <= 1 gives gamma^4 <= 1 |
| TemperatureEquations.DensityLaws | TEST_TEMPERATURE_EQUATIONS_COMPLETE.py:229-254 | for a positive factor p, (p u)(u/p) = u^2, their ratio is p^2, and p <= 1 puts u between them |
| TemperatureEquations.DeltaTRecoupleSpec | TEST_TEMPERATURE_EQUATIONS_COMPLETE.py:283-288 | Delta_T_recouple is what T_local_g2 takes away from T; for T, alpha >= 0 it lies in [0, alpha T] and is alpha T at the centre |
| PaperFigures.RedshiftZSpec | GENERATE_ALL_PAPER_FIGURES.py:376-377 | for nu0 > 0 and 0 <= alpha < 1 the shifted frequency lies in (0, nu0] and z = (nu0 - nu)/nu is a finite, non-negative 1/gamma - 1, independent of nu0 |
| PaperFigures.ZOfGamma | GENERATE_ALL_PAPER_FIGURES.py:377 | (nu0 - nu0 g)/(nu0 g) is the number 1/g - 1, non-negative for 0 < g <= 1 |
| PaperFigures.CoreIntegrand | GENERATE_ALL_PAPER_FIGURES.py:108-110 | one integrand value (1 - gamma_seg(r)) r^2 per grid radius |
| PaperFigures.IntegrandSign | GENERATE_ALL_PAPER_FIGURES.py:110 | at r > 0 the integrand has alpha's sign: positive for alpha > 0, non-negative for alpha >= 0 |
| PaperFigures.MassScaledSign | GENERATE_ALL_PAPER_FIGURES.py:107-111 | on the grid from 0.01 pc the integral is non-negative for alpha >= 0 and positive for alpha > 0 and r_max > 0.01 |
| PaperFigures.MassScaledZero | GENERATE_ALL_PAPER_FIGURES.py:107-111 | for alpha = 0 the integral is 0 for every r_max |
| PaperFigures.MCoreIntegralSpec | GENERATE_ALL_PAPER_FIGURES.py:105-118 | for alpha > 0 the mass at 4.5 pc is exactly 8.7 M_sun and for r_max >= 0.01 it is finite and non-negative; for alpha = 0 it is 0/0, NaN |
| PaperFigures.ScaledRatio | GENERATE_ALL_PAPER_FIGURES.py:118 | (m/ref) 8.7 for ref > 0 is finite, non-negative for m >= 0 and 8.7 for m = ref |
| PaperFigures.EnergyReleaseVelocitySpec | GENERATE_ALL_PAPER_FIGURES.py:120-124 | for alpha >= 0 the velocity is finite and at least abs(v_launch), and exactly abs(v_launch) for alpha = 0 |
| RadioRedshift.RedshiftSpec | scripts/radio_redshift_prediction.py:111-124 | the shift and the redshifted frequency add up to nu0; for nu0 > 0 and 0 < gamma <= 1 the redshifted frequency lies in (0, nu0] and the shift is non-negative, 0 exactly at gamma = 1 |
| RadioRedshift.FrequencyToWavelength | scripts/radio_redshift_prediction.py:126-152 | the conversion raises exactly for a unit outside the table |
| RadioRedshift.WavelengthSpec | scripts/radio_redshift_prediction.py:126-152 | every listed unit converts; for nu != 0 the wavelength is c/nu times the unit's factor (cm = 100 m, mm = 10 cm); nu = 0 gives +inf |
| RadioRedshift.ClassifyRadioBandSpec | scripts/radio_redshift_prediction.py:154-173 | each band holds exactly on its frequency interval, and a higher frequency never lands in a longer-wavelength band |
| RadioRedshift.Normalize | scripts/radio_redshift_prediction.py:205-206 | division by the maximum keeps one value per sample |
| RadioRedshift.NormalizeSpec | scripts/radio_redshift_prediction.py:205-206 | with a positive maximum every value becomes a finite number at most 1 (non-negative for non-negative input) and some value becomes exactly 1 |
| RadioRedshift.DivByMax | scripts/radio_redshift_prediction.py:206 | x/m for 0 < m and x <= m is finite, at most 1, non-negative for x >= 0 and 1 for x = m |
| RadioRedshift.ThermalAt | scripts/radio_redshift_prediction.py:197-199 | (1 - gamma)^2 is non-negative and 0 exactly at gamma = 1 |
| RadioRedshift.Thermal | scripts/radio_redshift_prediction.py:197-199 | one thermal value per gamma |
| RadioRedshift.PowerLaw | scripts/radio_redshift_prediction.py:190-195 | one value per gamma, the power law at nu'/nu0 = gamma |
| RadioRedshift.PredictRadioEmission | scripts/radio_redshift_prediction.py:175-208 | the prediction raises exactly for an unknown law or an empty profile |
| RadioRedshift.ThermalPredictionSpec | scripts/radio_redshift_prediction.py:197-206 | when some gamma differs from 1 the thermal prediction lies in [0, 1] and reaches 1; when every gamma is 1 every value is NaN |
| RadioRedshift.ThermalPeak | scripts/radio_redshift_prediction.py:197-206 | one gamma other than 1 suffices for values in [0, 1] with a 1 among them |
| RadioRedshift.ThermalFlat | scripts/radio_redshift_prediction.py:197-206 | a flat gamma = 1 profile normalises to NaN everywhere |
| RadioRedshift.PowerPredictionSpec | scripts/radio_redshift_prediction.py:190-206 | the power prediction is the law at each gamma over the largest value; with a positive law it lies in [0, 1] and reaches 1 |
| RadioRedshift.PowerPredictionDecreasing | scripts/radio_redshift_prediction.py:190-206 | with `pw` a negative power (1^p = 1, positive, strictly decreasing) and positive gammas, the normalised power prediction strictly falls as gamma grows, and a point reaches 1 exactly when its gamma is the profile's smallest |
| RadioRedshift.LawPeak | scripts/radio_redshift_prediction.py:194-195 | the largest power-law value is the law at the smallest gamma, and every larger gamma gives a strictly smaller value |
| RadioRedshift.NormalizeByPeak | scripts/radio_redshift_prediction.py:205-206 | dividing by a positive maximum keeps the strict order of the values and gives 1 exactly for the values equal to the maximum |
| RadioRedshift.RadioMask | scripts/radio_redshift_prediction.py:430 | one flag per wavelength |
| RadioRedshift.RadioMaskSpec | scripts/radio_redshift_prediction.py:430 | a point is a radio point exactly when its wavelength is a finite number in [0.1, 100] cm |
| RadioRedshift.EffelsbergVerdictSpec | scripts/radio_redshift_prediction.py:250-258 | excellent exactly on [4, 8] cm, good on the rest of [2, 10] cm, a difference elsewhere (NaN and infinities included) |
| RadioRedshift.DefaultComparisonDiffers | scripts/radio_redshift_prediction.py:210-258 | with the defaults (3e12 Hz, gamma = 0.92) the wavelength is below 0.02 cm and the verdict is a difference |
| SegmentedSpacetime.CoreMassPositive | scripts/test_segmented_spacetime_full.py:136-164 | for r_max > 0, at least two grid points and alpha < 1 the core mass is positive |
| SegmentedSpacetime.RadioRedshiftOfSpec | scripts/test_segmented_spacetime_full.py:166-184 | the shifted frequency and the shift add up to nu0, and both are non-negative for nu0 > 0 and 0 <= alpha < 1 |
| SegmentedSpacetime.FitModelToData | scripts/test_segmented_spacetime_full.py:186-234 | the fit raises exactly when T0 is to be fitted and T_data is empty (`T_data.max()`) |
| SegmentedSpacetime.FitModelToDataSpec | scripts/test_segmented_spacetime_full.py:186-234 | three parameters with T0 free, two with T0 given; the model takes alpha, r_c and T0 from them; a failed fit returns p0 with +inf variances; the parameters respect the bounds [0, 0.5] x [0.1, 5] |
| SegmentedSpacetime.OverallSpec | scripts/test_segmented_spacetime_full.py:511-515 | EXCELLENT exactly when all three deviations are below 2, GOOD when all are below 3 but one is not below 2, MARGINAL otherwise |
| SegmentedSpacetime.Run | scripts/test_segmented_spacetime_full.py:350-540 | without the temperature file `main` returns 1; with it, it raises exactly when the file has no rows |
| SegmentedSpacetime.FitRequestBounds | scripts/test_segmented_spacetime_full.py:202-225 | the fitted alpha lies in [0, 0.5] and r_c is not 0 |
| SegmentedSpacetime.RunSpec | scripts/test_segmented_spacetime_full.py:405-540 | with data the summary reports three standard errors, a positive core mass, radio parts adding up to 100 GHz, and EXCELLENT exactly when all three deviations are below 2 |
| Rings.Pick | RUN_COMPLETE_IR_ANALYSIS.py:179 | `col[mask]` keeps one entry per point in [lo, hi) |
| Rings.PixelRadii | scripts/fetch_and_extract_complete.py:200 | one radius per pixel, NaN for a pixel whose value is not finite, so the ring mask also tests `np.isfinite(data)` |
| Rings.RingPixels | scripts/fetch_and_extract_complete.py:200-203 | `data[mask]` keeps one value per finite pixel in the ring |
| Rings.RingPixelsMembership | scripts/fetch_and_extract_complete.py:200-203 | a value is selected exactly when some finite pixel of that value has r_min <= r < r_max |
| Rings.CountSplit | scripts/fetch_and_extract_complete.py:200 | the points in [lo, hi) are those in [lo, mid) plus those in [mid, hi) |
| Rings.RingsDisjoint | scripts/fetch_and_extract_complete.py:199-200 | on ascending edges two different rings share no point |
| Rings.OccupiedSpec | scripts/fetch_and_extract_complete.py:199-202 | the rings that get a row are listed in strictly increasing order, and a ring gets one exactly when it holds a point |
| Rings.EmitIsOccupiedMap | scripts/fetch_and_extract_complete.py:199-220 | the emitted rows are the rows of the occupied rings, one each, in ring order |
| Rings.EmitSizesCover | scripts/fetch_and_extract_complete.py:199-220 | when each row records its ring's count, the counts add up to the number of points with edges[0] <= r < edges[last] |
| RingAverages.Radii | scripts/fetch_and_extract_complete.py:200 | one radius per pixel of the flattened image |
| RingAverages.Values | scripts/fetch_and_extract_complete.py:200 | one value per pixel of the flattened image |
| RingAverages.AverageRings | scripts/fetch_and_extract_complete.py:198-220 | the ring loop appends exactly the rows of the specification: one per ring with a finite pixel, in ring order |
| RingAverages.RowsOrder | scripts/fetch_and_extract_complete.py:199-202 | ring numbers strictly increase down the rows, and a ring has a row exactly when one of its pixels is finite |
| RingAverages.RowsFacts | scripts/fetch_and_extract_complete.py:203-218 | each row carries its ring's edges and midpoint, n_pixels >= 1, a mean and a median between the smallest and largest selected value, a non-negative std and err = std/sqrt(n_pixels) |
| RingAverages.AverageFacts | scripts/extract_akari_rings.py:127-141 | the row of an occupied ring has the facts above |
| RingAverages.TotalPixelsCover | scripts/extract_akari_rings.py:121-141 | over ascending edges the rows' n_pixels add up to the number of finite pixels between the first and the last edge |
| RadialProfile.DataHdu | scripts/extract_radial_profile_from_fits.py:73-79 | the HDU described is one of the file's HDUs |
| RadialProfile.FileTypeSpec | scripts/extract_radial_profile_from_fits.py:73-90 | HDU 1 is described exactly when the primary HDU has no data and an extension exists; the type is "2D image", "3D cube" or "4D cube" exactly for data of 2, 3 or 4 axes, and "Unknown" otherwise |
| RadialProfile.DispatchSpec | scripts/extract_radial_profile_from_fits.py:339-358 | the type name contains "2D" exactly for 2-axis data and "3D" exactly for 3-axis data |
| RadialProfile.BinsPartition | scripts/extract_radial_profile_from_fits.py:157-161 | on strictly ascending bin radii every radius below the last lies in exactly one bin |
| RadialProfile.BinPixelsMembership | scripts/extract_radial_profile_from_fits.py:159-164 | a value is in bin i exactly when a finite pixel of that value lies in the bin |
| RadialProfile.BinSpec | scripts/extract_radial_profile_from_fits.py:163-171 | a bin's value and error are NaN exactly when it holds no finite pixel; otherwise the value lies between the bin's extremes and error * sqrt(n) = std >= 0 |
| RadialProfile.ProfileOf | scripts/extract_radial_profile_from_fits.py:147-175 | the radii, values and errors have n_bins entries each |
| RadialProfile.ExtractRadialProfile2D | scripts/extract_radial_profile_from_fits.py:147-175 | the loop fills fresh value and error arrays with exactly the profile of the specification |
| RadialProfile.Extract2DSpec | scripts/extract_radial_profile_from_fits.py:97-175 | the 2-D path succeeds exactly on 2-axis data and a positive bin count, and then bin i's value is NaN exactly when no finite pixel lies in it |
| RadialProfile.Zeros | scripts/extract_radial_profile_from_fits.py:219-220 | `np.zeros_like` gives n zeros |
| RadialProfile.Extract3DSpec | scripts/extract_radial_profile_from_fits.py:177-222 | the 3-D path succeeds exactly on 3-axis data and a positive bin count; its intensity is the moment-0 map's profile and its velocity arrays are zeros of that length |
| RadialProfile.ProfileCsv | scripts/extract_radial_profile_from_fits.py:255-283 | five comment lines, the column header and one line per bin |
| RadialProfile.ProfileCsvSpec | scripts/extract_radial_profile_from_fits.py:277-281 | line 6 is "ring,radius_pc,{name},{name}_err"; data line i splits into four fields, the first reading back as i and the others bin i's radius, value and error |
| RadialProfile.DispatchOutcome | scripts/extract_radial_profile_from_fits.py:339-364 | a type that is neither 2-D nor 3-D returns 1; a handed-over HDU without data raises; one with data of the type writes one CSV line per bin |
| RadialProfile.MainAsWrittenMissesExtension | scripts/extract_radial_profile_from_fits.py:339-348 | a file with an empty primary HDU and a 2-D first extension is typed "2D image", yet `main` as written raises on it, while handing over the classified HDU writes the profile |
| RadialProfile.MainSpec | scripts/extract_radial_profile_from_fits.py:285-381 | with the classified HDU handed over, `main` returns 1 for a missing file and for data neither 2-D nor 3-D, and otherwise (positive bin count) writes the CSV with one line per bin |
| CatalogRings.RingBinsSpec | RUN_COMPLETE_IR_ANALYSIS.py:147-149 | for a positive width the edges start at 0, are `width` apart, strictly increase, and the last one reaches max_radius without passing it by a whole width |
| CatalogRings.Dropna | RUN_COMPLETE_IR_ANALYSIS.py:179 | `dropna` keeps at most every cell |
| CatalogRings.DropnaMembership | RUN_COMPLETE_IR_ANALYSIS.py:179 | a value survives `dropna` exactly when some cell holds it |
| CatalogRings.BandSummarySpec | RUN_COMPLETE_IR_ANALYSIS.py:181-192 | with valid fluxes the band's mean and median lie between their extremes, the std is NaN for one value and non-negative from two, err = std/sqrt(n) and n counts them; without any, every statistic is NaN and n is 0 |
| CatalogRings.RingFluxes | RUN_COMPLETE_IR_ANALYSIS.py:179 | a ring's valid fluxes are at most its source count |
| CatalogRings.BandColumns | RUN_COMPLETE_IR_ANALYSIS.py:175-192 | a row has statistics for exactly the requested bands that are columns, each the summary of that band's valid fluxes in the ring |
| CatalogRings.AggregateBands | RUN_COMPLETE_IR_ANALYSIS.py:175-192 | the band loop builds exactly those statistics |
| CatalogRings.BinSourcesIntoRings | RUN_COMPLETE_IR_ANALYSIS.py:151-196 | the ring loop appends exactly the rows of the specification: one per ring holding a source, in ring order |
| CatalogRings.SourceRowsOrder | RUN_COMPLETE_IR_ANALYSIS.py:160-165 | ring numbers strictly increase down the rows, and a ring has a row exactly when a source lies in it |
| CatalogRings.SourceRowSpec | RUN_COMPLETE_IR_ANALYSIS.py:167-194 | the row of an occupied ring has its edges, midpoint and source count, and band statistics as above |
| CatalogRings.SourceRowsFacts | RUN_COMPLETE_IR_ANALYSIS.py:160-194 | every row has its ring's edges and midpoint, n_sources >= 1, and statistics for exactly the requested band columns, each over at most n_sources values |
| CatalogRings.SourcesCover | RUN_COMPLETE_IR_ANALYSIS.py:160-194 | over ascending edges the rows' n_sources add up to the number of sources between the first and the last edge: none counted twice, none lost |
| CatalogToRings.EdgesSpec | scripts/catalog_to_rings.py:52 | ten rings of width 0.2 pc from 0 to 2 pc |
| CatalogToRings.ParseBands | scripts/catalog_to_rings.py:78 | one band per comma-separated piece |
| CatalogToRings.ParseBandsSpec | scripts/catalog_to_rings.py:78 | the band list is never empty, no band holds a comma or has whitespace at either end, and without whitespace in `--bands` the bands joined with commas give the argument back |
| CatalogToRings.OutputCsvSpec | scripts/catalog_to_rings.py:83-86 | a non-empty `--output` is used as given; otherwise the output's stem is the catalog's stem + "_rings" |
| CatalogToRings.Missing | scripts/catalog_to_rings.py:155 | a required column is reported missing exactly when the catalog lacks it |
| CatalogToRings.Run | scripts/catalog_to_rings.py:72-272 | a missing column or a coordinate failure returns 1; an empty catalog raises at `r_pc.min()` before anything is written; otherwise the rows of the 0..2 pc rings are written, each with statistics for every requested band, and the status is 1 exactly when no source lies inside 2 pc (the summary then fails on `radius_pc`) |
| FitsRingProfile.CreateRingProfile2D | scripts/fits_to_ring_profile.py:104-159 | the ring loop appends exactly the rows of the specification |
| FitsRingProfile.ProfileRowSpec | scripts/fits_to_ring_profile.py:126-152 | the row of a ring with a finite pixel satisfies the row facts below |
| FitsRingProfile.ProfileRowRange | scripts/fits_to_ring_profile.py:131-135 | I_min and I_max are selected values bracketing every selected value, I_mean and I_median |
| FitsRingProfile.ProfileRowSem | scripts/fits_to_ring_profile.py:132-138 | n_pixels >= 1, I_std >= 0, and I_sem = I_std/sqrt(n) for n > 1 but I_std for n = 1 |
| FitsRingProfile.ProfileRowsOrder | scripts/fits_to_ring_profile.py:122-126 | ring numbers strictly increase down the rows, and a ring has a row exactly when a finite pixel lies in it |
| FitsRingProfile.ProfileRowsFacts | scripts/fits_to_ring_profile.py:122-152 | every row has the extremes, mean, median and standard error facts above |
| FitsRingProfile.Run | scripts/fits_to_ring_profile.py:326-391 | a zero step or an empty edge list raises; a missing file returns 1; a profile without rows returns 1; otherwise exactly the profile rows over `np.arange(r_min, r_max + r_step, r_step)` are written to the output |
| FetchExtract.DefaultEdgesSpec | scripts/fetch_and_extract_complete.py:85 | the default edges are 0.2 i pc for i = 0..10, strictly ascending, from 0 to 2 pc |
| FetchExtract.DefaultOutputNamedAfterImage | scripts/fetch_and_extract_complete.py:449-452 | without `--output` the output's stem is the image's stem + "_rings" |
| FetchExtract.ProcessLocal | scripts/fetch_and_extract_complete.py:440-472 | a missing file returns 1, a reader failure raises, and otherwise exactly the ring rows over the default edges are extracted; they are written to the output when its name is not empty, and with `--output ""` nothing is saved |
| AkariRings.OutputNamedAfterImage | scripts/extract_akari_rings.py:75 | the output's stem is the image's stem + "_rings_REAL" |
| AkariRings.Run | scripts/extract_akari_rings.py:58-195 | fewer than two arguments, a missing file or a reader failure return 1; otherwise exactly the ring rows over the 0..2 pc edges are written, and the status is 1 exactly when no ring has a finite pixel (the summary then fails on `radius_pc`) |
| FitProfile.Clip | scripts/fit_gamma_seg_profile.py:100 | `np.clip` lands in [lo, hi] and leaves a value already inside unchanged |
| FitProfile.TemperatureModelSpec | scripts/fit_gamma_seg_profile.py:82-102 | the clipped divisor lies in [0.01, 1], so T0/gamma is always defined and lies in [T0, 100 T0] for T0 >= 0; for 0 <= alpha <= 0.99 the clip never acts and T gamma_seg = T0 |
| FitProfile.DivByUnitInterval | scripts/fit_gamma_seg_profile.py:100-102 | t/g for t >= 0 and g in [0.01, 1] lies in [t, 100 t] |
| FitProfile.FitGammaSegSpec | scripts/fit_gamma_seg_profile.py:104-144 | a returned fit lies in the bounds [0, 1] x [0.1, 10]; a failed one is the initial guess (the paper's values by default) with +inf variances; gamma_fit is the profile at the parameters, one value per radius |
| FitProfile.DeviationSpec | scripts/fit_gamma_seg_profile.py:158-169 | deviations are non-negative, 0 exactly at the paper's values, and below k sigma exactly within 0.03 k of 0.12 (alpha) or 0.19 k of 1.9 pc (r_c) |
| FitProfile.ScaledBelow | scripts/fit_gamma_seg_profile.py:165-169 | for c > 0, x < k exactly when c x < c k |
| FitProfile.VerdictSpec | scripts/fit_gamma_seg_profile.py:179-200 | each verdict holds on exactly one band of deviations, and a larger deviation never earns a better verdict |
| FitProfile.OverallAgreementSpec | scripts/fit_gamma_seg_profile.py:484-489 | the overall line is EXCELLENT exactly when neither verdict is worse than GOOD, GOOD exactly when the worse one is MARGINAL, and MARGINAL when either is POOR |
| FitProfile.ValidPoints | scripts/fit_gamma_seg_profile.py:394-396 | the mask keeps at most every row |
| FitProfile.ValidPointsMembership | scripts/fit_gamma_seg_profile.py:394-396 | a point is kept exactly when some row holds it with a finite radius and a finite positive temperature |
| FitProfile.Radii | scripts/fit_gamma_seg_profile.py:395 | the radii of the kept points, in order |
| FitProfile.Temperatures | scripts/fit_gamma_seg_profile.py:396 | the temperatures of the kept points, in order |
| FitProfile.ModelTemperatures | scripts/fit_gamma_seg_profile.py:414 | one model temperature per radius |
| FitProfile.SquaredResiduals | scripts/fit_gamma_seg_profile.py:416 | the sum of squared residuals is non-negative, and 0 when the model reproduces every point |
| FitProfile.ChiSquaredReducedSpec | scripts/fit_gamma_seg_profile.py:416 | chi2_red is finite and non-negative from three points on; with two it is +inf, or NaN for a perfect fit; with fewer it is at most 0 |
| FitProfile.Analyse | scripts/fit_gamma_seg_profile.py:394-424 | `main` raises exactly when no usable point is left (`r_data.min()`) |
| FitProfile.AnalyseSpec | scripts/fit_gamma_seg_profile.py:394-424 | the report covers exactly the usable points; model temperatures lie in [T0, 100 T0]; chi2_red is finite from three points; a returned fit is in bounds; a failed fit reports the paper's values with infinite errors, so both verdicts and the overall line read EXCELLENT |
| AnimationVariants.Durations | CREATE_ANIMATION_VARIANTS.py:53 | one duration per frame, in frame order, each the frame's `duration` or 100 ms when it has none |
| AnimationVariants.LoadFrames | CREATE_ANIMATION_VARIANTS.py:45-56 | the seek loop collects exactly the animation's pictures and their durations, in lockstep |
| AnimationVariants.Average | CREATE_ANIMATION_VARIANTS.py:59 | the average times the frame count is the total duration, and it is positive when the total is |
| AnimationVariants.TargetFramesSpec | CREATE_ANIMATION_VARIANTS.py:65 | `int(5000 / avg)` is the largest frame count lasting at most 5000 ms at the average duration, never negative, and 0 exactly when the average frame lasts longer than 5 s |
| AnimationVariants.DivPositive | CREATE_ANIMATION_VARIANTS.py:65 | a positive numerator over a positive divisor is positive |
| AnimationVariants.FloorOfDivision | CREATE_ANIMATION_VARIANTS.py:65 | floor(c/d) for c >= 0 and d > 0 is the largest integer f with f d <= c |
| AnimationVariants.FloorOfDivisionZero | CREATE_ANIMATION_VARIANTS.py:65-66 | floor(c/d) is 0 exactly when c < d |
| AnimationVariants.QuotientBelowOne | CREATE_ANIMATION_VARIANTS.py:65 | c/d for c >= 0 and d > 0 is non-negative, and below 1 exactly when c < d |
| AnimationVariants.FloorBelowOne | CREATE_ANIMATION_VARIANTS.py:65 | a non-negative q has floor 0 exactly when q < 1 |
| AnimationVariants.Repeat3Spec | CREATE_ANIMATION_VARIANTS.py:80-81 | `x * 3` has length 3 n and element i is element i mod n of x |
| AnimationVariants.Slowed | CREATE_ANIMATION_VARIANTS.py:94 | one tripled duration per frame |
| AnimationVariants.SlowedTotal | CREATE_ANIMATION_VARIANTS.py:94 | tripling every duration triples the playing time |
| AnimationVariants.VariantsAsWrittenFails | CREATE_ANIMATION_VARIANTS.py:59-70 | as written, the variants fail exactly when every duration is 0 or the average frame lasts longer than 5 s (empty preview, `frames_5s[0]`) |
| AnimationVariants.LongFramePreview | CREATE_ANIMATION_VARIANTS.py:65-70 | one frame of 6000 ms makes the code as written fail, while the corrected preview is that frame |
| AnimationVariants.VariantsSpec | CREATE_ANIMATION_VARIANTS.py:58-103 | the corrected variants fail only for all-zero durations and agree with the code as written wherever it succeeds; they are the three named variants: a non-empty prefix preview of min(target, n) frames with their durations, the animation three times over, and the same frames at triple durations and triple playing time |
| AnimationVariants.CreateVariants | CREATE_ANIMATION_VARIANTS.py:37-103 | `create_variants` on an opened GIF gives exactly the code-as-written variants of its frames and durations, including its exceptions for all-zero durations and for an empty preview |
| AnimationVariants.Originals | CREATE_ANIMATION_VARIANTS.py:107-109 | the originals are at most the listed files |
| AnimationVariants.OriginalsSpec | CREATE_ANIMATION_VARIANTS.py:107-109 | a file is processed exactly when it is a listed GIF whose stem contains neither "_5s" nor "_30s" |
| AnimationVariants.StemOfVariant | CREATE_ANIMATION_VARIANTS.py:69-96 | the stem of stem + marker + ".gif" is stem + marker |
| AnimationVariants.VariantNamesNotOriginal | CREATE_ANIMATION_VARIANTS.py:69-109 | each written variant is a GIF that a later run does not take for an original |
| AnimationVariants.Run | CREATE_ANIMATION_VARIANTS.py:106-118 | the module-level loop gives exactly the specified outcome of the code as written: exit 1 without originals, the first exception, or every original's variants |
| AnimationVariants.ProcessAllStops | CREATE_ANIMATION_VARIANTS.py:117-118 | the first exception ends the loop: nothing after a failing file is processed |
| AnimationVariants.ProcessAllFails | CREATE_ANIMATION_VARIANTS.py:117-118 | the loop raises exactly when some file has only zero durations or an average frame longer than 5 s |
| AnimationVariants.ProcessAllCreates | CREATE_ANIMATION_VARIANTS.py:117-118 | a completed loop has one entry per file, in order, each that file's variants as written, which are also its corrected variants |
| AnimationVariants.RunOutcomeSpec | CREATE_ANIMATION_VARIANTS.py:106-118 | without originals the exit status is 1; otherwise the run raises exactly when some original has only zero durations or an average frame longer than 5 s, and a completed run has one entry per original |
| AnimationVariantsFinal.AnimFiles | CREATE_ANIMATION_VARIANTS_FINAL.py:32 | the matches are at most the listed files |
| AnimationVariantsFinal.AnimFilesSpec | CREATE_ANIMATION_VARIANTS_FINAL.py:32 | a file matches exactly when it is listed and named Anim*.gif |
| AnimationVariantsFinal.InputsSpec | CREATE_ANIMATION_VARIANTS_FINAL.py:32 | the inputs are the matching files, each as often as listed, in ascending name order |
| AnimationVariantsFinal.LoadPictures | CREATE_ANIMATION_VARIANTS_FINAL.py:39-46 | the seek loop collects exactly the animation's pictures |
| AnimationVariantsFinal.SampleIndex | CREATE_ANIMATION_VARIANTS_FINAL.py:56-57 | `int(i * step)` for i < 50 and n > 50 frames is a frame index, at least i |
| AnimationVariantsFinal.SampleBounds | CREATE_ANIMATION_VARIANTS_FINAL.py:56-57 | i <= i n/50 < n for i < 50 < n |
| AnimationVariantsFinal.StepAboveOne | CREATE_ANIMATION_VARIANTS_FINAL.py:56 | step = n/50 exceeds 1 for n > 50 and 50 steps make n |
| AnimationVariantsFinal.SampleIndexIncreasing | CREATE_ANIMATION_VARIANTS_FINAL.py:57 | a later sample comes from a strictly later frame |
| AnimationVariantsFinal.PreviewSpec | CREATE_ANIMATION_VARIANTS_FINAL.py:53-59 | the preview has min(50, n) frames, at most 5 s at 100 ms; a short animation is kept whole; a long one gives 50 distinct frames in order, starting with the first |
| AnimationVariantsFinal.VariantsSpec | CREATE_ANIMATION_VARIANTS_FINAL.py:53-77 | three variants: a preview of at most 5 s, the frames three times over, and the frames at 300 ms; the last two play three times as long as the original at 100 ms |
| AnimationVariantsFinal.VariantsMatchInputPattern | CREATE_ANIMATION_VARIANTS_FINAL.py:32-75 | every variant of an Anim* file is itself named Anim*.gif, so a later run takes it as an input |
| AnimationVariantsFinal.Created | CREATE_ANIMATION_VARIANTS_FINAL.py:35-77 | one list of variants per input |
| AnimationVariantsFinal.Run | CREATE_ANIMATION_VARIANTS_FINAL.py:32-77 | the script loop gives exactly the variants of every input, in sorted order |

## Left out

- Plotting: the matplotlib halves of every script and the figure-only scripts draw pictures and compute nothing the model could state.
- Printed reports: formatted numbers, banners, dates and `pd.Timestamp.now()` headers are output text; the model keeps the values they print.
- File writes: CSV, markdown, PNG and GIF files are not written; the model returns their rows, line layouts, variants or exit status.
- File reads: FITS, CSV and GIF readers are parameters; a table is given as its columns and a GIF as its frame list.
- PIL decoding: frame images are opaque values, and the `info` dictionary is taken per frame, so a duration carried over from an earlier frame is not modelled.
- Directory listings: the `glob` listing is an input in listing order; its order on disk is not modelled.
- The existence check in CREATE_ANIMATION_VARIANTS.py:39-41: every file comes from the listing, so it always exists there.
- Randomness: the Monte Carlo bands and the `np.random` synthetic catalogs of scripts/catalog_to_rings.py depend on a random generator.
- Network clients: the `query_*` functions of scripts/fetch_and_extract_complete.py and the archive fetchers need the network.
- Test runners: the subprocess and `os.system` suites orchestrate processes and tally exit codes.
- GENERATE_PAPER_FIGURES_PART2.py: it takes its definitions from another file's text through `exec`, so it is not a unit of its own.
- `curve_fit` internals: the optimiser is a parameter that returns parameters and a covariance or fails; only its bounds, p0 and fallback are modelled.
- `quad` integration: scripts/fix_core_mass_integration.py and scripts/core_mass_ssz_pure_integration.py rest on scipy's adaptive quadrature.
- Sky coordinates: the WCS and SkyCoord radius computation is not modelled; pixel and source radii in pc are inputs.
- Spectral cubes: the 3-D and 4-D cube paths, the velocity moments and the Gaussian fits of the FITS scripts are not modelled; the model keeps only the dispatch to them and the zero velocity arrays of the 3-D extractor.
- Floating point: values are exact reals, so IEEE rounding, overflow and the concrete digits the scripts print are not modelled.
- AnimationVariantsFinal.SampleIndex: the sampled frame is the exact floor(i n / 50); Python's `int(i * step)` with the float step n / 50 can land one frame lower (n = 58, i = 25 gives 28.999999999999996, so frame 28 rather than 29).
- `exp`, `sqrt` and the -0.7 power law: these are parameters, not computed. Their laws are stated where the proofs use them: exp(0) = 1, positive and monotone (`IsExp`); sqrt(y) >= 0 and sqrt(y)^2 = y (`IsSqrt`); 1^p = 1, positive and strictly decreasing on positive reals (`IsNegativePower`, assumed by RadioRedshift.PowerPredictionDecreasing).
- RadioRedshift.PowerPredictionSpec: assumes only that the law is positive at every gamma; the ordering that the -0.7 exponent gives is stated separately, by RadioRedshift.PowerPredictionDecreasing for positive gammas (a gamma <= 0 would make numpy return NaN or inf).
- `np.log`: the logarithmic R_boundary of scripts/test_boundary_velocity_boost.py:74 is replaced by an input boundary gamma.
- `velocity_g2` (scripts/two_metric_model.py:93-103): it raises a temperature ratio to a real power, and no script of the core calls it.
- The literature masses of `compare_with_observations` (scripts/calculate_core_mass.py:218-226) are printed text; the model keeps their total, the deviation and the verdict, which `main` only prints (lines 421, 464).
- The NH3 printout: the table printing and the temperature-inversion paragraph of scripts/analyze_nh3_velocities.py are text output.
- Infinite catalog fluxes: a band cell is a number or NaN; pandas would keep +-inf cells, which the model does not represent.
- `np.argsort` tie order: the sort is stated as ordered and as a permutation that keeps pairs together; which of two equal radii comes first is not promised.
- Profile.GammaSeg: requires r_c != 0. A scalar `r / r_c` raises there and a numpy one gives inf or NaN; every member built on the profile carries this requires.
- TemperatureEquations.ObservedG1: requires gamma_seg != 0, like TemperatureEquations.EnergyDensityG1; numpy would return inf or NaN there instead.
- Profile.VelocityExcess: requires gamma != 0, like Profile.ObservedVelocity, SegmentedSpacetime.VelocityExcess, BoundaryBoost.BoostTerm and BoundaryRealistic.VelocityBoostRealistic; gamma = 0 makes numpy return inf, except that BoundaryBoost.VelocityBoost models gamma = 0 as +inf itself.
- TwoMetric.TemperatureG1Classical: requires r != 0; no script evaluates the classical profile at the centre.
- RadioRedshift.PowerLaw: requires nu0 != 0, and so does the power branch of RadioRedshift.PredictRadioEmission; with nu0 = 0 numpy would divide 0 by 0.
- RadioRedshift.Normalize: requires a non-empty profile; RadioRedshift.PredictRadioEmission handles the empty profile itself, as the error `np.max` raises.
- CoreMass.ApplyLimits: requires a non-empty profile when exactly one limit is given; the data's minimum or maximum of an empty profile raises in the script.
- SegmentedSpacetime.FitRequestOf: requires measured temperatures when T0 is fitted, since `np.max` of an empty array raises.

## Findings

| source | as written | input that shows it | evidently intended | confidence | as-written member | corrected member |
|---|---|---|---|---|---|---|
| scripts/extract_radial_profile_from_fits.py:339-348 | `load_fits_file` picks HDU 1 when the primary HDU has no data, but `main` then hands `hdu_list[0]` to the extractors | a file whose primary HDU has no data and whose HDU 1 is a 2-D image | extract from the HDU whose data were classified | not executed | RadialProfile.MainAsWrittenMissesExtension | RadialProfile.MainSpec |
| CREATE_ANIMATION_VARIANTS.py:65-70 | the preview keeps `int(5000 / avg)` frames, which is 0 when the average frame lasts over 5 s, and `frames_5s[0]` then raises IndexError | one frame lasting 6000 ms | a preview of at least one frame | not executed | AnimationVariants.LongFramePreview | AnimationVariants.VariantsSpec |
