# Single-car parking controller — a Dafny model

This project models the parking controller of the Qt parking-lot demo
(`MainWindow` in `mainwindow.cpp` / `mainwindow.h`). The lot has five fixed
spots. On *start* the car is put at a random position, `closestPark` picks
the nearest spot that passes a conflict filter, and a 100 ms timer drives
`moveCarToSpot`. That slot first straightens the car's angle (phase 0) and
then moves it a tenth of the remaining distance per firing (phase 1) until
it is within 1 of the centred pose in the spot. The arrow keys move the car
by 10, clamped to the lot.

The model is functional. `ParkingWindow.Window` is an immutable record of the
window's controller fields. Each slot is a pure function over it:
`NewWindow`, `StartParkingProcess`, `StopParkingProcess`, `ClosestPark`,
`MoveCarToSpot` and `KeyPressEvent`. `Run(w, n)` is `n` firings of the timer.

Modules:

- `Numbers`: small integer and real helpers.
- `Geometry`: QRect arithmetic (right and bottom edges, `adjusted`, `intersects`, centre).
- `Lot`: the spot layout and the nearest-spot selector.
- `Motion`: per-axis arithmetic of a tick, meaning the angle correction and the truncating position update.
- `ParkingWindow`: the window state machine and its lemmas.
- `ContinuousTranslation`: the translate phase with real-valued positions, the repair described under Findings.

Exactness choices:

- Car coordinates stay integers, as in `mainwindow.h:43-44`. Every float written back into them is truncated toward zero (`Motion.TruncToInt`).
- Floats are idealised as exact reals. `0.1` is exactly one tenth.
- `sqrt` is dropped: the selector compares squared distances, and a monotone square root decides the same way.

The layout's spot centres and targets are integral, so the translate step
on valid windows is exact integer division (`Motion.StepTowardIntegral`).

No slot ever gives the car a nonzero angle: the constructor sets it to 0,
start and the arrow keys never write it, and the timer slot only shrinks it
or sets it to 0. The invariant `ParkingWindow.Valid` therefore includes
`carAngle == 0`, and in the program the rotate phase is a single firing
that only switches to translating (`ParkingWindow.StraightensInOneTick`).
The general rotation, for an angle the program never produces, is still
modelled and proved (`ParkingWindow.RotationCompletes`).

The main result concerns translation. It converges only from at or past the
target on both axes, meaning `carX >= targetX` and `carY >= targetY`. A car
short of its target on either axis stalls and the timer never stops.
`ParkingWindow.ParksIffStartedAtOrPastTarget` states this exactly. Read as a
continuous exponential decay, the controller would converge from any start.
The code stores the position in `int`, and this model follows the code.

## Model

| member | source | states |
|---|---|---|
| Lot.LayoutPrefix | mainwindow.cpp:35-37 | the constructor's loop appends spot i = (60 + 140 i, 60, 120, 200) at index i |
| Lot.LayoutFacts | mainwindow.cpp:35-37 | exactly five spots; spot i is (60 + 140 i, 60, 120, 200), centred at (120 + 140 i, 160), with target (70 + 140 i, 70); every spot passes the conflict filter |
| Lot.LayoutAlwaysHasSpot | mainwindow.cpp:206-222 | on the fixed layout the selector always finds a spot, so closestIndex is never -1 |
| Lot.ClosestAmong | mainwindow.cpp:185-220 | after scanning spots 0..n-1 the candidate is None exactly when none was eligible, else an eligible spot at minimal distance with every earlier eligible spot strictly farther (strict `<`: ties go to the lowest index) |
| Lot.NearestIsUnique | mainwindow.cpp:216-219 | the nearest-with-lowest-index condition has at most one solution, so the selector's contract fixes its answer |
| Lot.TargetPose | mainwindow.cpp:226-228 | the target places the 100 × 180 car with its centre on the spot's centre |
| Lot.CloserColumnIsNearer | mainwindow.cpp:197-203 | all spots share their centre's y, so a spot whose column is nearer the car in x is nearer in Euclidean distance (weakly and strictly) |
| Lot.NearestColumnNoFarther | mainwindow.cpp:197-203 | spot NearestColumn(carX) is no farther from the car than any spot j, and strictly nearer than every spot to its left |
| Lot.NearestColumnIsNearest | mainwindow.cpp:197-203 | on the layout, column NearestColumn(carX) is at least as near as every spot and strictly nearer than every spot to its left |
| Lot.LayoutSelectsNearestColumn | mainwindow.cpp:189-219 | on the layout the selector returns exactly NearestColumn(carX), an independent closed form |
| Geometry.IntersectsIffCommonPixel | mainwindow.cpp:209 | the rectangle overlap test used by the conflict filter holds exactly when some pixel lies in both rectangles |
| Motion.TruncToInt | mainwindow.h:43-44 | storing a float into the int car coordinate gives the integer within 1 of it that is nearest zero |
| Motion.RotateAngle | mainwindow.cpp:154-156 | a rotate correction shrinks the angle's magnitude by exactly rotationSpeed and keeps its sign |
| Motion.StepTowardIntegral | mainwindow.cpp:164-167 | with non-negative coordinate and integral target the truncated update is floor((9 x + t) / 10) |
| Motion.StepFromAbove | mainwindow.cpp:164-167 | from at or past the target a step never overshoots and gains at least one unit until the target is reached |
| Motion.GapFromAbove | mainwindow.cpp:164-167 | from at or past the target the remaining distance becomes exactly the floor of nine tenths of itself |
| Motion.StepFromBelow | mainwindow.cpp:164-167 | from short of the target a step never reaches it, and with under 10 to go it does not move |
| Motion.StepStaysBetween | mainwindow.cpp:164-167 | the coordinate after a step lies between the old coordinate and the target |
| ParkingWindow.NewWindow | mainwindow.cpp:13-16 | the constructed window has the car at (150, 50) with angle 0, an empty log, no target (-1), not parking and timer off, and is valid; a tick leaves it unchanged, so the uninitialised phase and target are never read |
| ParkingWindow.StopParkingProcess | mainwindow.cpp:141-146 | stop clears the parking flag and the timer and nothing else; a tick afterwards changes nothing |
| ParkingWindow.ClosestPark | mainwindow.cpp:182-240 | with no eligible spot: the search and the error are logged and parking and timer stop, target untouched; otherwise the nearest eligible spot becomes the target with its centred pose, phase 0, and the choice is logged |
| ParkingWindow.StartParkingProcess | mainwindow.cpp:128-139 | start places the car at the given position, keeps the angle, clears the log to exactly the search and its outcome (the chosen spot and target, or the error), starts the timer even when no spot was found, and leaves parking on exactly when a spot was found |
| ParkingWindow.MoveCarToSpot | mainwindow.cpp:148-180 | a tick is a no-op unless parking with a target; rotation shrinks the angle with its sign, or snaps it to 0 and enters translation, without moving the car; the phase only goes from 0 to 1; a straight car stays straight; translation keeps the angle; the timer stops only on arrival, with the car put on the (truncated) target and the arrival logged |
| ParkingWindow.Clamp | mainwindow.cpp:89-96 | the clamped value lies in [lo, hi] and equals the input exactly when the input already did |
| ParkingWindow.KeyPressEvent | mainwindow.cpp:67-100 | after any key the car lies in [50, 650] × [50, 270]; only the position changes (the angle is untouched); from inside the lot it moves at most one step, and exactly the key's step when that stays inside |
| ParkingWindow.ClampIsNearest | mainwindow.cpp:89-96 | the clamped coordinate is the point of the range nearest to the unclamped one |
| ParkingWindow.OppositeKeyUndoes | mainwindow.cpp:71-96 | an arrow key followed by the opposite one restores the window when the first move was not clamped |
| ParkingWindow.TranslateMovesToward | mainwindow.cpp:163-175 | a translate tick moves each coordinate toward its target without overshooting and keeps the angle; something is logged (the arrival) exactly when the car ends on the target |
| ParkingWindow.KeyPressPreservesValid | mainwindow.cpp:88-96 | a key press keeps the window's invariant |
| ParkingWindow.ValidTarget | mainwindow.cpp:222-235 | in every valid window with a target assigned, the target is the integral pose (70 + 140 i, 70) of spot i |
| ParkingWindow.TickPreservesValid | mainwindow.cpp:148-180 | a tick keeps the layout, keeps the car inside the lot and straight, and keeps the phase in {0, 1} with the target matching the assigned spot |
| ParkingWindow.RunPreservesValid | mainwindow.cpp:148-180 | any number of timer firings keeps the window's invariant |
| ParkingWindow.ArrivalTicks | mainwindow.cpp:163-175 | the number of translate firings from residual g is at least 1 and never more than g |
| ParkingWindow.TickFromAbove | mainwindow.cpp:163-175 | one translate firing from at or past the target either parks the car (car on target, timer off, arrival logged) or only moves it, keeping it at or past the target with the residual cut to the floor of nine tenths |
| ParkingWindow.ArrivalTicksMonotone | mainwindow.cpp:163-175 | a larger residual never needs fewer firings |
| ParkingWindow.SmallResidualTicks | mainwindow.cpp:163-175 | with a residual of at most 10 every firing gains exactly one unit |
| ParkingWindow.SevenTicksHalve | mainwindow.cpp:163-175 | from a residual of 10 upwards seven firings at least halve it |
| ParkingWindow.ArrivalTicksLogarithmic | mainwindow.cpp:163-175 | a residual below 2^m is cleared within 7 m + 10 firings: arrival time is logarithmic in the distance |
| ParkingWindow.StartSelectsNearestColumn | mainwindow.cpp:128-139 | from a valid window and a random start position, start selects the nearest column, aims at (70 + 140 k, 70), enters phase 0 with the timer running, logs exactly the search and the choice, and changes nothing else |
| ParkingWindow.RestartForgetsPreviousRun | mainwindow.cpp:128-139 | pressing start twice gives the same window as pressing it once |
| ParkingWindow.RotationCompletes | mainwindow.cpp:153-161 | for any angle, the rotate phase ends after exactly RotationTicks(angle) firings with angle 0, phase 1 and nothing else changed (the program only ever starts it at angle 0) |
| ParkingWindow.StraightensInOneTick | mainwindow.cpp:153-161 | in every valid window the rotate phase is one firing that only switches to translating, so it costs exactly one tick |
| ParkingWindow.RotationThenRun | mainwindow.cpp:153-161 | for any angle, n firings from the start of the rotate phase equal the rotation followed by the remaining firings from the straightened car |
| ParkingWindow.ArrivesFromAbove | mainwindow.cpp:163-175 | translating from at or past the target on both axes, ArrivalTicks(residual) firings leave the car exactly on the target with the timer stopped and the arrival logged, and nothing else changed |
| ParkingWindow.TickStaysShort | mainwindow.cpp:163-175 | a firing short of the target on some axis keeps the car short of it on every axis it was short on, logs nothing and leaves the timer running |
| ParkingWindow.NeverArrivesShortOfTarget | mainwindow.cpp:163-175 | short of the target on some axis, no number of firings stops the timer, logs arrival or brings the car to the target on any axis it started short on |
| ParkingWindow.StallIsFixedPoint | mainwindow.cpp:164-170 | within 10 of the target from below on both axes, but not on it, a firing changes nothing |
| ParkingWindow.RotateThenArrive | mainwindow.cpp:153-175 | from the start of the rotate phase at or past the target on both axes, one straightening firing plus ArrivalTicks(residual) firings end in the arrival state: car on the target, timer stopped, arrival logged |
| ParkingWindow.ArrivesFromStart | mainwindow.cpp:153-175 | a window just started towards column k at or past its target ends, after one plus ArrivalTicks(residual) firings, exactly as started but in phase 1 with the car on (70 + 140 k, 70), the timer off and the arrival logged |
| ParkingWindow.ParksIfStartedAtOrPastTarget | mainwindow.cpp:128-175 | a run started at or past the nearest column's target ends, within one plus ArrivalTicks(residual) firings, in exactly one window: the car straight on (70 + 140 k, 70), timer off, and the log the search, the choice and the arrival |
| ParkingWindow.ParksWithin81Ticks | mainwindow.cpp:128-175 | from any random start at or past its target the timer has stopped after 81 firings |
| ParkingWindow.StallsIfStartedShortOfTarget | mainwindow.cpp:128-175 | a run started short of the nearest column's target on some axis never stops its timer, never logs arrival, and stays short on every axis it started short on |
| ParkingWindow.ParksIffStartedAtOrPastTarget | mainwindow.cpp:128-175 | some number of firings stops the timer exactly when the start is at or past the nearest column's target on both axes |
| ParkingWindow.StallExample | mainwindow.cpp:132-175 | started at (100, 60) the car aims at (70, 70) and never parks; the car at (70, 61) in phase 1 is a fixed point of a tick |
| ContinuousTranslation.CorrectedStep | mainwindow.cpp:163-175 | with real positions a non-arriving firing shrinks the larger gap to exactly nine tenths and leaves it at least 1; arrival puts the car on the target |
| ContinuousTranslation.CorrectedArrives | mainwindow.cpp:163-175 | with real positions the translate phase reaches the target from any side within floor(10 · gap) + 1 firings |

## Left out

- Painting is left out because it is rendering only. This covers `paintEvent`, `drawParkingLot`, `drawCar`, the rotation matrix and `update()`.
- The window and buttons are left out as UI plumbing. This covers `setFixedSize`, the buttons and their signal wiring, and the destructor. The log text box is a sequence of abstract `Event`s; the message texts are not modelled.
- The QTimer is a boolean `timerActive`. Its 100 ms period and the event loop are not modelled. `Run` counts firings.
- The random generator in `startParkingProcess` is replaced by the start position, given as inputs. The range it draws from is the predicate `StartPosition`.
- Floating point is idealised as exact reals. The `float` rounding of `0.1`, of the products and of `sqrt` is not modelled. The initial `minDistance` of the largest float is modelled as "no candidate yet".
- QRect is part of Qt, which is not part of this model. Its `intersects` is modelled for rectangles with positive sides only, which are the only ones the controller builds.
- `steeringAngle`, `steeringRadius` and `movementSpeed` are declared in `mainwindow.h:57-62`. No logic reads them, so they are omitted.
- 32-bit overflow of `carX`/`carY` is not modelled. Every valid window keeps them within the lot, so the int range is never approached.
- The multi-car fleet, occupied-spot set, trajectory sampling and vehicle collision checks are absent from the modelled source. They are not modelled.
- Motion.StepTowardIntegral: stated for non-negative coordinates and integral targets only. Every valid window has both. Negative coordinates, where truncation rounds up, are not covered.
- Motion.StepFromAbove: stated for integral non-negative targets only, for the same reason.
- Motion.StepFromBelow: stated for integral non-negative targets only, for the same reason.
- ParkingWindow.ArrivesFromAbove: stated for valid windows, whose targets come from the fixed layout. Targets with a fractional part are not covered.
- ParkingWindow.ParksWithin81Ticks: the bound 81 follows from the general logarithmic bound; the exact worst case over the lot is smaller and is not computed.
- ParkingWindow.ParksIffStartedAtOrPastTarget: stated for start positions in the random generator's range only.

## Findings

| source | as written | input that shows it | evidently intended | confidence | as-written member | corrected member |
|---|---|---|---|---|---|---|
| mainwindow.cpp:164-167 | a tenth of the remaining distance is added to the `int` carX/carY, so the sum is truncated; short of the target a remaining distance under 10 gives no movement, and the arrival test never passes | start at (100, 60): spot 0 is chosen with target (70, 70); the car never parks and the timer never stops; with the car at (70, 61) a firing changes nothing | the car reaches the centred pose from any start and parking ends | high; not executed (floats idealised as exact reals) | ParkingWindow.StallsIfStartedShortOfTarget | ContinuousTranslation.CorrectedArrives |

`ContinuousTranslation` is the corrected translate phase. It keeps the
position in real precision, and it arrives from every start. `ParkingWindow`
deliberately keeps the step as written, so that its lemmas describe the
program as it behaves.
