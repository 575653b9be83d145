# Python-Pumping-Sim in Dafny

`Python-Pumping-Sim.py` simulates a variable-speed pumping system. A pump
curve (flow against differential pressure, or head) and a system curve are
given at the same flow samples. Each speed of an rpm range is turned into a
fraction of the top speed. The affinity laws rescale the pump curve to that
speed: flow is multiplied by the fraction and head by its square. The
rescaled pump curve is then intersected with the system curve by
`interpolated_intercept`. The crossing flows, collected speed after speed,
are the samples that the rpm-to-flow and flow-to-rpm polynomial fits use.

This project models two things:

- module `Intercept` (`intercept.dfy`) models `interpolated_intercept` with
  its nested `line`, `intersection` and `intercept`. It covers the
  sign-change scan that picks the brackets and the Cramer's-rule
  intersection of the two segments on each bracket.
- module `Affinity` (`affinity.dfy`) models the speed-fraction and
  flow-accumulation part of `pumpingSim` and `Flow_to_RPM`: `np.max` of the
  range, the division by it, the affinity rescaling, the loop that appends
  the crossing flows, and the `vfd_range * Max_RPM` abscissa given to the
  fit.

Arithmetic is exact (`real`). A division by a zero determinant, which
produces `nan`/`inf` in NumPy, is modelled as `None`. `np.sign` is modelled
as `Sign`, with three values: zero is a sign of its own. `np.append`
flattens, so the flow samples form one sequence holding every crossing of
every speed, in order.

## Model

| member | source | states |
|---|---|---|
| Intercept.LineThroughEndpoints | Python-Pumping-Sim.py:54-58 | `line` (`LineThrough`): both points satisfy a*x + b*y == c for the returned coefficients. The line is non-degenerate when the points differ. |
| Intercept.LineThroughIsCollinear | Python-Pumping-Sim.py:54-58 | `line` (`LineThrough`): a point lies on the line exactly when it is collinear with the two points. |
| Intercept.CommonPointSolvesCramer | Python-Pumping-Sim.py:60-63 | A point on both lines satisfies x*D == Dx and y*D == Dy. |
| Intercept.CramerSolutionOnBoth | Python-Pumping-Sim.py:60-67 | When D != 0, the point (Dx/D, Dy/D) lies on both lines. |
| Intercept.Intersection | Python-Pumping-Sim.py:60-67 | A defined result exists exactly when D != 0. The result lies on both lines. |
| Intercept.IntersectionUnique | Python-Pumping-Sim.py:60-67 | When D != 0, any common point of the two lines is the result. |
| Intercept.InterceptAt | Python-Pumping-Sim.py:42-74 | `intercept` (`Intercept`): when D != 0, the point collinear with both pairs of points is its result. |
| Intercept.InterceptDocExample | Python-Pumping-Sim.py:48-49 | `intercept((0,0),(1,1),(0,1),(1,0)) = (0.5, 0.5)`, the docstring example. |
| Intercept.Sign | Python-Pumping-Sim.py:76 | `np.sign` is 1, 0 or -1. It is 1 exactly for positive values and -1 exactly for negative values. |
| Intercept.Difference | Python-Pumping-Sim.py:76 | `y1 - y2`: same length, each element is the difference of the samples. |
| Intercept.Brackets | Python-Pumping-Sim.py:76 | `argwhere(diff(sign(y1 - y2)) != 0)`: index i is in the result exactly when the sign differs between samples i and i+1. The indices are strictly increasing and in range. The result is empty exactly when the sign never changes. |
| Intercept.BracketIntercept | Python-Pumping-Sim.py:77 | The intercept of the two segments on bracket i. When x[i] < x[i+1] and the sign of y1 - y2 changes there, the intercept is defined, its x lies in [x[i], x[i+1]], and both linearly interpolated curves take its y there. |
| Intercept.InterpolatedIntercept | Python-Pumping-Sim.py:39-78 | "Find the intercept of two curves": one result per bracket, in bracket order. On a strictly increasing x axis every result is defined, lies inside its bracket, and is a point where the two interpolated curves meet. |
| Intercept.BracketDeterminant | Python-Pumping-Sim.py:61 | On a bracket, D is (x[i+1]-x[i]) times the change in the difference. On an increasing axis with a sign change, D is non-zero. |
| Intercept.SegmentCrossing | Python-Pumping-Sim.py:69-74 | Two segments over one x interval whose difference changes sign meet at a point inside the interval, lying on both segments. |
| Intercept.SegmentMeetingAt | Python-Pumping-Sim.py:69-74 | Two segments whose difference vanishes a fraction t in [0, 1] of the way along meet there, at a point on both segments. |
| Intercept.InterceptsInIncreasingOrder | Python-Pumping-Sim.py:76-78 | On a strictly increasing x axis, the returned x values are non-decreasing. |
| Intercept.NoSignChangeNoIntercept | Python-Pumping-Sim.py:76-78 | When the difference keeps one sign, nothing is returned. |
| Intercept.SegmentsMeetAtRightEnd | Python-Pumping-Sim.py:69-74 | Segments that differ at the left end and agree at the right end meet at the right end. |
| Intercept.SegmentsMeetAtLeftEnd | Python-Pumping-Sim.py:69-74 | Segments that agree at the left end and differ at the right end meet at the left end. |
| Intercept.ConsecutiveBrackets | Python-Pumping-Sim.py:76 | Sign changes on both sides of sample j give two consecutive brackets, j-1 and j. |
| Intercept.MeetingAtSampleReportedTwice | Python-Pumping-Sim.py:76-78 | A curve that touches the other at an interior sample and differs next to it is reported twice, as two equal consecutive points. |
| Affinity.Max | Python-Pumping-Sim.py:100 | `np.max`: no speed lies above it. |
| Affinity.MaxAttained | Python-Pumping-Sim.py:100 | The maximum is one of the speeds of the range. |
| Affinity.DivideBy | Python-Pumping-Sim.py:101 | Each fraction times the divisor is the speed. The divisor itself gives 1. Speeds in (0, m] give fractions in (0, 1]. |
| Affinity.SpeedFractions | Python-Pumping-Sim.py:101 | `vfd_range`: one fraction per speed. Its values are stated by TopSpeedIsFull, FractionsInUnitInterval and SpeedsRecovered. |
| Affinity.TopSpeedIsFull | Python-Pumping-Sim.py:100-101 | The top speed has fraction 1, and some fraction is 1. |
| Affinity.FractionsInUnitInterval | Python-Pumping-Sim.py:100-101 | With positive speeds, every fraction lies in (0, 1]. |
| Affinity.Scale | Python-Pumping-Sim.py:106 | Element-wise product by a scalar: same length, and each element is multiplied. |
| Affinity.ScaleKeepsIncreasing | Python-Pumping-Sim.py:106 | A positive factor keeps the flow axis strictly increasing. |
| Affinity.AffinityFlow | Python-Pumping-Sim.py:106 | `PCurve_Flow * vfd_spd`: each flow is multiplied by the speed fraction. |
| Affinity.AffinityHead | Python-Pumping-Sim.py:106 | `PCurve_dkPa * vfd_spd**2`: each head is multiplied by the square of the speed fraction. |
| Affinity.AffinityAtTopSpeed | Python-Pumping-Sim.py:106 | At fraction 1, the rescaled curves are the pump curve itself. |
| Affinity.AffinityHeadFalls | Python-Pumping-Sim.py:106 | At a positive fraction, a strictly falling head curve stays strictly falling after rescaling. |
| Affinity.Abscissae | Python-Pumping-Sim.py:106 | `flow, yc = ...` keeps the x of every intercept. Undefined stays undefined. |
| Affinity.SpeedFlows | Python-Pumping-Sim.py:106 | The crossing flows at one fraction: one per bracket of the rescaled pump head against the system head. |
| Affinity.AccumulateAppend | Python-Pumping-Sim.py:104-107 | Appending per element over two runs gives the first run's output followed by the second's. |
| Affinity.AccumulateSingletons | Python-Pumping-Sim.py:104-107 | One output per element gives outputs aligned with the elements. |
| Affinity.AccumulatedFlowsAppend | Python-Pumping-Sim.py:104-107 | The flows of two runs of speeds are the first run's flows followed by the second's. |
| Affinity.AccumulatedFlows | Python-Pumping-Sim.py:104-107 | `flow_arr` after the loop. When every speed crosses once, it has one flow per speed, aligned index for index with the speeds. |
| Affinity.SpeedFlowIsOperatingPoint | Python-Pumping-Sim.py:106 | With increasing pump flows and a positive fraction, every crossing flow lies inside its rescaled bracket. There the rescaled pump head equals the system head. |
| Affinity.OneCrossingWhenHeadFalls | Python-Pumping-Sim.py:106 | Consider a strictly falling pump head against a non-falling system head that starts below and ends above it. If the two never meet at a sample, there is exactly one crossing. |
| Affinity.OneBracketWhenDifferenceFalls | Python-Pumping-Sim.py:76 | A strictly falling difference that starts positive and ends negative, and is never zero at a sample, has exactly one bracket. |
| Affinity.FlowLoop | Python-Pumping-Sim.py:104-107 | The loop's `flow_arr` is the in-order concatenation of the crossing flows of every fraction. |
| Affinity.PumpingSimFlows | Python-Pumping-Sim.py:100-109 | The flow samples of `pumpingSim` are the accumulated crossing flows at the speed fractions. The abscissa `vfd_range * Max_RPM` of its fit is the rpm range again. |
| Affinity.SpeedsRecovered | Python-Pumping-Sim.py:109 | `vfd_range * Max_RPM` equals `RPM_range`. |
| Affinity.DivideThenScale | Python-Pumping-Sim.py:101 | Dividing by a non-zero scalar and multiplying back gives the array again. |
| Affinity.FlowToRpmFlows | Python-Pumping-Sim.py:129-136 | The flow samples of `Flow_to_RPM` are the same accumulated crossing flows as those of `pumpingSim`. |

## Left out

- `np.polyfit` / `np.poly1d` (lines 109, 119, 138) are not modelled. A least-squares polynomial fit is floating-point linear algebra, so the fitted rpm-to-flow, rpm-to-kW and flow-to-rpm polynomials are not modelled. The model stops at the samples handed to the fits.
- The kW loop of `pumpingSim` (lines 112-119) is not modelled, including the affinity power law `PCurve_kW * vfd_spd**3`. It exists only as input to a cubic fit and to the evaluation of fitted polynomials.
- Floating point is not modelled: rounding, and `nan`/`inf` propagation beyond the single `None` of a zero determinant.
- `yc`, the second output of `interpolated_intercept`, is computed but never used by either caller. The model returns whole points and the callers keep only x.
- Broadcasting is not modelled. `interpolated_intercept` would also accept an x axis longer than `y1` and `y2`, since it reads x only at bracket indices. The model excludes that case by requiring equal lengths, because pump flow and pump head are one curve. Unequal pump and system curves are excluded in the same way.
- An empty rpm range, where `np.max` raises, and a top speed of 0, where the division gives `inf`/`nan`, are preconditions of `SpeedFractions`, `PumpingSimFlows` and `FlowToRpmFlows`.
- The error kinds a redesign of this program would add (`DegenerateIntersectionError`, `NoIntersectionError`, `InputShapeError`, `InsufficientDataError`, `UnderdeterminedFitError`) are not in the code, and the model follows the code. A zero determinant gives an undefined value (`None`, NumPy's `nan`/`inf`). A speed with no crossing appends nothing. No shape or monotonicity check is made. On a strictly increasing x axis a bracket never has a zero determinant (`BracketDeterminant`), so the undefined value only arises when x repeats.
- Multiple crossings at one speed are all appended, and nothing chooses between them. Alignment of flows with speeds is proved only under the one-crossing hypothesis (`AccumulatedFlows`, `OneCrossingWhenHeadFalls`).
- SpeedFractions: its own contract states only the length. The division facts are stated on `DivideBy`, `TopSpeedIsFull`, `FractionsInUnitInterval` and `SpeedsRecovered`.
- Max: its own contract states only the upper bound. That the maximum is attained is the separate lemma `MaxAttained`.
- The module-level docstring example (lines 9-26) calls the functions with names that do not match their parameters. It is documentation, not part of the core.
