/**
  The single-car parking controller of MainWindow as an immutable state
  record: the constructor, startParkingProcess, stopParkingProcess,
  closestPark, the timer slot moveCarToSpot and the arrow-key handler.
  The QTimer is a boolean; the log text box is a sequence of events.
*/
module ParkingWindow {
  import opened Optional
  import opened Numbers
  import opened Geometry
  import opened Lot
  import opened Motion

  /** Distance one arrow key moves the car. */
  const MoveStep: int := 10

  /** The lot drawn at (50, 50), 700 wide and 400 high; the arrow keys keep
      the car's top-left corner where the whole car fits in it. */
  const LotLeft: int := 50
  const LotTop: int := 50
  const LotWidth: int := 700
  const LotHeight: int := 400
  const MaxCarX: int := LotLeft + LotWidth - CarWidth
  const MaxCarY: int := LotTop + LotHeight - CarLength

  datatype Key = KeyUp | KeyDown | KeyLeft | KeyRight | OtherKey

  /** What the controller appends to its log text box. */
  datatype Event =
    | SearchStarted
    | SpotChosen(index: nat, targetX: real, targetY: real)
    | NoSpotFound
    | Parked

  /** The window's controller state. currentTargetSpot is -1 while no spot is
      assigned; parkingState is 0 while rotating and 1 while translating. */
  datatype Window = Window(
    carX: int,
    carY: int,
    carAngle: real,
    spots: seq<Rect>,
    isParking: bool,
    timerActive: bool,
    currentTargetSpot: int,
    targetX: real,
    targetY: real,
    parkingState: int,
    log: seq<Event>)

  /** The car's top-left corner is where the arrow keys may put it. */
  predicate InLot(x: int, y: int) {
    LotLeft <= x <= MaxCarX && LotTop <= y <= MaxCarY
  }

  /** The range QRandomGenerator::bounded gives the start position. */
  predicate StartPosition(x: int, y: int) {
    50 <= x < 650 && 50 <= y < 250
  }

  /** The invariant of every reachable window: the layout never changes, the
      car stays in the lot and is never turned (no slot gives it an angle
      other than 0), and once a spot is assigned the phase is 0 or 1 and the
      target is that spot's centred pose. */
  predicate Valid(w: Window) {
    && w.spots == Layout()
    && InLot(w.carX, w.carY)
    && w.carAngle == 0.0
    && -1 <= w.currentTargetSpot < |w.spots|
    && (w.currentTargetSpot >= 0 ==>
          && (w.parkingState == 0 || w.parkingState == 1)
          && (w.targetX, w.targetY) == TargetPose(w.spots[w.currentTargetSpot]))
  }

  /** The timer is running and the controller is driving the car to a spot. */
  predicate Active(w: Window) {
    w.isParking && w.timerActive && w.currentTargetSpot >= 0
  }

  /** The constructor. parkingState and targetX/targetY are left
      uninitialised by the source, so their initial values are parameters. */
  function NewWindow(state0: int, targetX0: real, targetY0: real): (w: Window)
    ensures Valid(w)
    ensures w.carX == 150 && w.carY == 50 && w.carAngle == 0.0 && w.log == []
    ensures !w.isParking && !w.timerActive && w.currentTargetSpot == -1
    ensures MoveCarToSpot(w) == w
  {
    LayoutFacts();
    Window(150, 50, 0.0, Layout(), false, false, -1, targetX0, targetY0, state0, [])
  }

  /** stopParkingProcess: afterwards a tick changes nothing. */
  function StopParkingProcess(w: Window): (r: Window)
    ensures !r.isParking && !r.timerActive
    ensures MoveCarToSpot(r) == r
    ensures r.(isParking := w.isParking, timerActive := w.timerActive) == w
  {
    w.(isParking := false, timerActive := false)
  }

  /** closestPark: picks the nearest eligible spot and aims for its centred
      pose, or logs an error and stops when there is none. */
  function ClosestPark(w: Window): (r: Window)
    ensures r.carX == w.carX && r.carY == w.carY && r.carAngle == w.carAngle && r.spots == w.spots
    ensures NoEligibleSpot(w.spots) ==>
              r == w.(isParking := false, timerActive := false, log := w.log + [SearchStarted, NoSpotFound])
    ensures !NoEligibleSpot(w.spots) ==>
              && IsNearest(w.spots, w.carX, w.carY, |w.spots|, r.currentTargetSpot)
              && (r.targetX, r.targetY) == TargetPose(w.spots[r.currentTargetSpot])
              && r.parkingState == 0
              && r.isParking == w.isParking && r.timerActive == w.timerActive
              && r.log == w.log + [SearchStarted, SpotChosen(r.currentTargetSpot, r.targetX, r.targetY)]
  {
    var log := w.log + [SearchStarted];
    match ClosestSpot(w.spots, w.carX, w.carY)
    case Some(i) =>
      var (tx, ty) := TargetPose(w.spots[i]);
      w.(currentTargetSpot := i, targetX := tx, targetY := ty, parkingState := 0,
         log := log + [SpotChosen(i, tx, ty)])
    case None =>
      StopParkingProcess(w.(log := log + [NoSpotFound]))
  }

  /** startParkingProcess with the random start position (x, y) as input:
      clears the log, places the car, selects a spot and starts the timer
      (the timer is started even when no spot was found). */
  function StartParkingProcess(w: Window, x: int, y: int): (r: Window)
    ensures r.timerActive && r.carX == x && r.carY == y && r.carAngle == w.carAngle
    ensures |r.log| == 2 && r.log[0] == SearchStarted
    ensures r.isParking ==> r.currentTargetSpot >= 0
    ensures r.log[1] == if r.isParking then SpotChosen(r.currentTargetSpot, r.targetX, r.targetY) else NoSpotFound
    ensures r.isParking <==> !NoEligibleSpot(w.spots)
  {
    ClosestPark(w.(log := [], carX := x, carY := y, isParking := true)).(timerActive := true)
  }

  /** moveCarToSpot, the timer slot: one rotate or translate step. */
  function MoveCarToSpot(w: Window): (r: Window)
    // A tick with no parking in progress or no spot assigned changes nothing.
    ensures !w.isParking || w.currentTargetSpot < 0 ==> r == w
    // A tick never changes the spot, the target or the parking flag.
    ensures r.spots == w.spots && r.isParking == w.isParking
    ensures r.currentTargetSpot == w.currentTargetSpot && r.targetX == w.targetX && r.targetY == w.targetY
    // Rotating: the magnitude of the angle shrinks by RotationSpeed with its
    // sign kept, or the angle snaps to 0 and translation begins; the car does
    // not move.
    ensures w.parkingState == 0 ==> r.carX == w.carX && r.carY == w.carY && r.log == w.log && r.timerActive == w.timerActive
    ensures w.isParking && w.currentTargetSpot >= 0 && w.parkingState == 0 && AbsReal(w.carAngle) > RotationSpeed ==>
              AbsReal(r.carAngle) == AbsReal(w.carAngle) - RotationSpeed && (r.carAngle > 0.0 <==> w.carAngle > 0.0)
              && r.parkingState == 0
    // The phase changes only from rotating to translating, and only once the
    // angle is within RotationSpeed of 0, which it then becomes.
    ensures r.parkingState != w.parkingState ==>
              w.parkingState == 0 && r.parkingState == 1 && AbsReal(w.carAngle) <= RotationSpeed && r.carAngle == 0.0
    // A straight car stays straight.
    ensures w.carAngle == 0.0 ==> r.carAngle == 0.0
    // Translating: the angle is kept; the timer stops only on arrival, with
    // the car put on the target and the arrival logged.
    ensures w.parkingState == 1 ==> r.carAngle == w.carAngle
    ensures r.log == w.log || (
              && w.parkingState == 1 && !r.timerActive
              && r.carX == TruncToInt(w.targetX) && r.carY == TruncToInt(w.targetY)
              && r.log == w.log + [Parked])
    ensures r.timerActive <==> w.timerActive && r.log == w.log
  {
    if !w.isParking || w.currentTargetSpot < 0 then w
    else if w.parkingState == 0 then
      if AbsReal(w.carAngle) > RotationSpeed then
        w.(carAngle := RotateAngle(w.carAngle))
      else
        w.(carAngle := 0.0, parkingState := 1)
    else if w.parkingState == 1 then
      var x := StepToward(w.carX, w.targetX);
      var y := StepToward(w.carY, w.targetY);
      if AbsReal(x as real - w.targetX) < 1.0 && AbsReal(y as real - w.targetY) < 1.0 then
        w.(carX := TruncToInt(w.targetX), carY := TruncToInt(w.targetY),
           log := w.log + [Parked], timerActive := false)
      else
        w.(carX := x, carY := y)
    else w
  }

  /** min(max(v, lo), hi), as the key handler's pairs of ifs compute it. */
  function Clamp(v: int, lo: int, hi: int): (r: int)
    requires lo <= hi
    ensures lo <= r <= hi
    ensures (lo <= v <= hi) <==> r == v
  {
    if v < lo then lo else if v > hi then hi else v
  }

  /** The displacement an arrow key asks for. */
  function KeyOffset(key: Key): (int, int) {
    match key
    case KeyUp => (0, -MoveStep)
    case KeyDown => (0, MoveStep)
    case KeyLeft => (-MoveStep, 0)
    case KeyRight => (MoveStep, 0)
    case OtherKey => (0, 0)
  }

  /** The arrow key undoing another one. */
  function Opposite(key: Key): Key {
    match key
    case KeyUp => KeyDown
    case KeyDown => KeyUp
    case KeyLeft => KeyRight
    case KeyRight => KeyLeft
    case OtherKey => OtherKey
  }

  /** keyPressEvent: moves the car one step and clamps it into the lot. Only
      the position changes, and it always ends inside the lot. */
  function KeyPressEvent(w: Window, key: Key): (r: Window)
    ensures InLot(r.carX, r.carY)
    ensures r == w.(carX := r.carX, carY := r.carY)
    ensures InLot(w.carX, w.carY) ==> Abs(r.carX - w.carX) + Abs(r.carY - w.carY) <= MoveStep
    ensures InLot(w.carX + KeyOffset(key).0, w.carY + KeyOffset(key).1) ==>
              r.carX == w.carX + KeyOffset(key).0 && r.carY == w.carY + KeyOffset(key).1
  {
    var (dx, dy) := KeyOffset(key);
    w.(carX := Clamp(w.carX + dx, LotLeft, MaxCarX), carY := Clamp(w.carY + dy, LotTop, MaxCarY))
  }

  /** n firings of the timer; once the timer has stopped nothing fires. */
  function Run(w: Window, n: nat): Window
    decreases n
  {
    if n == 0 || !w.timerActive then w else Run(MoveCarToSpot(w), n - 1)
  }

  /** Ticks needed to bring an angle to 0 and enter the translate phase. */
  function RotationTicks(a: real): (n: nat)
    ensures n >= 1
    decreases AbsReal(a).Floor
  {
    if AbsReal(a) > RotationSpeed then 1 + RotationTicks(RotateAngle(a)) else 1
  }

  /** How far the car still is from its target, measured on the worse axis. */
  function Residual(w: Window): int {
    Max(w.carX - TruncToInt(w.targetX), w.carY - TruncToInt(w.targetY))
  }

  /** Firings the translate phase needs from at or past the target with
      residual g: each firing takes g to the floor of 9 g / 10, and the one
      that brings it to 0 is the arrival. The count is logarithmic in g for
      large g and never exceeds g itself. */
  function ArrivalTicks(g: int): (n: nat)
    ensures 1 <= n && (g >= 1 ==> n <= g)
    decreases g
  {
    if g <= 1 then 1 else 1 + ArrivalTicks((9 * g) / 10)
  }

  /** Shrinking both gaps to nine tenths shrinks the larger one likewise. */
  lemma ShrinkOfMax(a: int, b: int)
    ensures Max((9 * a) / 10, (9 * b) / 10) == (9 * Max(a, b)) / 10
  {
    if a < b {
      assert (9 * a) / 10 <= (9 * b) / 10;
    } else {
      assert (9 * b) / 10 <= (9 * a) / 10;
    }
  }

  /** In the program the car is never turned, so the rotate phase is a
      single firing that only switches to translating. */
  lemma StraightensInOneTick(w: Window, n: nat)
    requires Valid(w) && Active(w) && w.parkingState == 0
    ensures RotationTicks(w.carAngle) == 1
    ensures MoveCarToSpot(w) == w.(parkingState := 1)
    ensures Valid(w.(parkingState := 1)) && Active(w.(parkingState := 1))
    ensures n >= 1 ==> Run(w, n) == Run(w.(parkingState := 1), n - 1)
  {
  }

  /** In a valid window with a spot assigned, the target is the integral
      pose (70 + 140 i, 70) of spot i. */
  lemma ValidTarget(w: Window)
    requires Valid(w) && w.currentTargetSpot >= 0
    ensures w.targetX == (70 + 140 * w.currentTargetSpot) as real && w.targetY == 70.0
    ensures TruncToInt(w.targetX) == 70 + 140 * w.currentTargetSpot && TruncToInt(w.targetY) == 70
  {
    LayoutFacts();
  }

  /** A tick keeps the window valid: in particular the car stays between
      its position and its target, hence inside the lot. */
  lemma TickPreservesValid(w: Window)
    requires Valid(w)
    ensures Valid(MoveCarToSpot(w))
  {
    if w.isParking && w.currentTargetSpot >= 0 && w.parkingState == 1 {
      ValidTarget(w);
      LayoutFacts();
      StepStaysBetween(w.carX, 70 + 140 * w.currentTargetSpot);
      StepStaysBetween(w.carY, 70);
    }
  }

  /** A translate tick moves each coordinate toward its target without
      overshooting, leaves the angle alone, and stops the timer exactly
      when both coordinates have reached the target, which is where it
      leaves the car. */
  lemma TranslateMovesToward(w: Window)
    requires Valid(w) && w.isParking && w.currentTargetSpot >= 0 && w.parkingState == 1
    ensures var r := MoveCarToSpot(w);
      var tx, ty := 70 + 140 * w.currentTargetSpot, 70;
      && (w.carX <= tx ==> w.carX <= r.carX <= tx) && (tx <= w.carX ==> tx <= r.carX <= w.carX)
      && (w.carY <= ty ==> w.carY <= r.carY <= ty) && (ty <= w.carY ==> ty <= r.carY <= w.carY)
      && r.carAngle == w.carAngle && r.parkingState == 1
      && (r.log != w.log <==> r.carX == tx && r.carY == ty)
  {
    ValidTarget(w);
    StepStaysBetween(w.carX, 70 + 140 * w.currentTargetSpot);
    StepStaysBetween(w.carY, 70);
  }

  /** Pressing a key keeps the window valid. */
  lemma KeyPressPreservesValid(w: Window, key: Key)
    requires Valid(w)
    ensures Valid(KeyPressEvent(w, key))
  {
  }

  /** Starting a run from a valid window at a random start position selects
      the nearest column, aims for its centred pose and starts the rotate
      phase with the timer running. */
  lemma StartSelectsNearestColumn(w: Window, x: int, y: int)
    requires Valid(w) && StartPosition(x, y)
    ensures var r := StartParkingProcess(w, x, y);
      var k := NearestColumn(x);
      && Valid(r) && Active(r) && r.parkingState == 0
      && r.currentTargetSpot == k
      && r.targetX == (70 + 140 * k) as real && r.targetY == 70.0
      && r.log == [SearchStarted, SpotChosen(k, r.targetX, r.targetY)]
      && r == w.(carX := x, carY := y, isParking := true, timerActive := true,
                 currentTargetSpot := k, targetX := r.targetX, targetY := r.targetY,
                 parkingState := 0, log := r.log)
  {
    LayoutFacts();
    LayoutSelectsNearestColumn(x, y);
  }

  /** Pressing start twice in a row is the same as pressing it once: no
      trace of the first run survives. */
  lemma RestartForgetsPreviousRun(w: Window, x0: int, y0: int, x: int, y: int)
    ensures StartParkingProcess(StartParkingProcess(w, x0, y0), x, y) == StartParkingProcess(w, x, y)
  {
  }

  /** An arrow key followed by the opposite one returns the car to where it
      was, as long as the first move was not clamped. */
  lemma OppositeKeyUndoes(w: Window, key: Key)
    requires InLot(w.carX, w.carY)
    requires InLot(w.carX + KeyOffset(key).0, w.carY + KeyOffset(key).1)
    ensures KeyPressEvent(KeyPressEvent(w, key), Opposite(key)) == w
  {
  }

  /** The clamped coordinate is the point of [lo, hi] nearest to v. */
  lemma ClampIsNearest(v: int, lo: int, hi: int, u: int)
    requires lo <= u <= hi
    ensures Abs(Clamp(v, lo, hi) - v) <= Abs(u - v)
  {
  }

  /** Timer firings compose. */
  lemma {:induction false} RunSplit(w: Window, a: nat, b: nat)
    ensures Run(w, a + b) == Run(Run(w, a), b)
    decreases a
  {
    if a == 0 || !w.timerActive {
    } else {
      RunSplit(MoveCarToSpot(w), a - 1, b);
    }
  }

  /** Any number of timer firings keeps the window valid. */
  lemma {:induction false} RunPreservesValid(w: Window, n: nat)
    requires Valid(w)
    ensures Valid(Run(w, n))
    decreases n
  {
    if n > 0 && w.timerActive {
      TickPreservesValid(w);
      RunPreservesValid(MoveCarToSpot(w), n - 1);
    }
  }

  /** The rotate phase ends after exactly RotationTicks(angle) firings, with
      the angle 0, the translate phase entered and nothing else changed. */
  lemma {:induction false} RotationCompletes(w: Window)
    requires Active(w) && w.parkingState == 0
    ensures Run(w, RotationTicks(w.carAngle)) == w.(carAngle := 0.0, parkingState := 1)
    decreases AbsReal(w.carAngle).Floor
  {
    if AbsReal(w.carAngle) > RotationSpeed {
      var w' := MoveCarToSpot(w);
      assert w' == w.(carAngle := RotateAngle(w.carAngle));
      RotationCompletes(w');
    }
  }

  /** The window the arrival firing leaves behind: the car on the
      (truncated) target, the timer stopped, the arrival logged. */
  function ArrivedAt(w: Window): Window {
    w.(carX := TruncToInt(w.targetX), carY := TruncToInt(w.targetY),
       log := w.log + [Parked], timerActive := false)
  }

  /** One translate firing from at or past the target on both axes either
      parks the car on the target, or only moves it, keeping it at or past
      the target with the residual cut to the floor of nine tenths, which
      is still at least 1. */
  lemma TickFromAbove(w: Window)
    requires Valid(w) && Active(w) && w.parkingState == 1
    requires w.carX as real >= w.targetX && w.carY as real >= w.targetY
    ensures var r := MoveCarToSpot(w);
      && Valid(r)
      && (r.timerActive ==>
            && r == w.(carX := r.carX, carY := r.carY)
            && r.carX as real >= w.targetX && r.carY as real >= w.targetY
            && Residual(w) >= 2 && Residual(r) == (9 * Residual(w)) / 10)
      && (!r.timerActive ==> r == ArrivedAt(w))
  {
    ValidTarget(w);
    var tx := 70 + 140 * w.currentTargetSpot;
    StepFromAbove(w.carX, tx);
    StepFromAbove(w.carY, 70);
    GapFromAbove(w.carX, tx);
    GapFromAbove(w.carY, 70);
    ShrinkOfMax(w.carX - tx, w.carY - 70);
    TickPreservesValid(w);
  }

  /** Translating from at or past the target on both axes (carX >= targetX
      and carY >= targetY), the car arrives: every firing shrinks the
      residual to the floor of nine tenths of itself, so after
      ArrivalTicks(g) firings, g being the residual, it stands exactly on
      the target, the timer is stopped, the arrival is logged and nothing
      else has changed. */
  lemma {:induction false} ArrivesFromAbove(w: Window, g: int, n: nat)
    requires Valid(w) && Active(w) && w.parkingState == 1
    requires w.carX as real >= w.targetX && w.carY as real >= w.targetY
    requires g == Max(w.carX - (70 + 140 * w.currentTargetSpot), w.carY - 70) && n >= ArrivalTicks(g)
    ensures Run(w, n) == ArrivedAt(w)
    ensures Run(w, n).carX as real == w.targetX && Run(w, n).carY as real == w.targetY
    decreases n
  {
    var w' := MoveCarToSpot(w);
    TickFromAbove(w);
    ValidTarget(w);
    if w'.timerActive {
      ArrivesFromAbove(w', (9 * g) / 10, n - 1);
      assert ArrivedAt(w') == ArrivedAt(w);
    }
  }

  /** One firing short of the target on some axis keeps the car short of
      it on each such axis, so the arrival test fails and the timer keeps
      running. */
  lemma TickStaysShort(w: Window)
    requires Valid(w) && Active(w)
    requires w.carX as real < w.targetX || w.carY as real < w.targetY
    ensures var r := MoveCarToSpot(w);
      && Valid(r) && Active(r)
      && r.targetX == w.targetX && r.targetY == w.targetY && r.log == w.log
      && (w.carX as real < w.targetX ==> r.carX as real < w.targetX)
      && (w.carY as real < w.targetY ==> r.carY as real < w.targetY)
  {
    ValidTarget(w);
    var tx := 70 + 140 * w.currentTargetSpot;
    if w.carX < tx {
      StepFromBelow(w.carX, tx);
    }
    if w.carY < 70 {
      StepFromBelow(w.carY, 70);
    }
    TickPreservesValid(w);
  }

  /** Short of the target on some axis (carX < targetX or carY < targetY),
      the car never arrives: the truncated step on such an axis can never
      reach the target, so however often the timer fires it keeps running,
      the car stays short of the target on every axis it started short on,
      and nothing more is logged. */
  lemma {:induction false} NeverArrivesShortOfTarget(w: Window, n: nat)
    requires Valid(w) && Active(w)
    requires w.carX as real < w.targetX || w.carY as real < w.targetY
    ensures var r := Run(w, n);
      && Valid(r) && Active(r)
      && r.targetX == w.targetX && r.targetY == w.targetY && r.log == w.log
      && (w.carX as real < w.targetX ==> r.carX as real < w.targetX)
      && (w.carY as real < w.targetY ==> r.carY as real < w.targetY)
    decreases n
  {
    if n > 0 {
      TickStaysShort(w);
      NeverArrivesShortOfTarget(MoveCarToSpot(w), n - 1);
    }
  }

  /** Once the car is within 10 of the target from below on both axes, but
      not on it, a firing changes nothing at all: the controller is stuck. */
  lemma StallIsFixedPoint(w: Window)
    requires Valid(w) && w.isParking && w.currentTargetSpot >= 0 && w.parkingState == 1
    requires 0.0 <= w.targetX - w.carX as real < 10.0 && 0.0 <= w.targetY - w.carY as real < 10.0
    requires w.carX as real != w.targetX || w.carY as real != w.targetY
    ensures MoveCarToSpot(w) == w
  {
    ValidTarget(w);
    var tx := 70 + 140 * w.currentTargetSpot;
    StepTowardIntegral(w.carX, tx);
    StepTowardIntegral(w.carY, 70);
  }

  /** Firing the timer n times from the start of the rotate phase is the
      same as firing it through the whole rotate phase and then the
      remaining times from the straightened car. */
  lemma RotationThenRun(s: Window, n: nat)
    requires Active(s) && s.parkingState == 0
    requires n >= RotationTicks(s.carAngle)
    ensures Run(s, n) == Run(s.(carAngle := 0.0, parkingState := 1), n - RotationTicks(s.carAngle))
  {
    var rt := RotationTicks(s.carAngle);
    RotationCompletes(s);
    RunSplit(s, rt, n - rt);
    assert rt + (n - rt) == n;
  }

  /** From the start of the rotate phase at or past the target on both
      axes, the straightening firing and then ArrivalTicks(g) translate
      firings, g being the residual, park the car on the target. */
  lemma RotateThenArrive(s: Window, g: int, n: nat)
    requires Valid(s) && Active(s) && s.parkingState == 0
    requires s.carX as real >= s.targetX && s.carY as real >= s.targetY
    requires g == Max(s.carX - (70 + 140 * s.currentTargetSpot), s.carY - 70) && n >= 1 + ArrivalTicks(g)
    ensures Run(s, n) == ArrivedAt(s.(parkingState := 1))
  {
    var s1 := s.(parkingState := 1);
    StraightensInOneTick(s, n);
    assert s1.carX == s.carX && s1.carY == s.carY && s1.currentTargetSpot == s.currentTargetSpot;
    ArrivesFromAbove(s1, g, n - 1);
  }

  /** RotateThenArrive for a window just started towards column k, with
      the residual written out from the start position. */
  lemma ArrivesFromStart(s: Window, k: int, g: int, n: nat)
    requires Valid(s) && Active(s) && s.parkingState == 0 && s.currentTargetSpot == k
    requires s.targetX == (70 + 140 * k) as real && s.targetY == 70.0
    requires s.carX >= 70 + 140 * k && s.carY >= 70
    requires g == Max(s.carX - (70 + 140 * k), s.carY - 70) && n >= 1 + ArrivalTicks(g)
    ensures Run(s, n) == s.(parkingState := 1, carX := 70 + 140 * k, carY := 70,
                            log := s.log + [Parked], timerActive := false)
  {
    RotateThenArrive(s, g, n);
  }

  /** A run started at or past the nearest column's target on both axes
      parks: after the one straightening firing and ArrivalTicks(Residual)
      translate firings the car stands on (70 + 140 k, 70), straightened,
      with the timer stopped and the arrival logged. */
  lemma ParksIfStartedAtOrPastTarget(w: Window, x: int, y: int, n: nat)
    requires Valid(w) && StartPosition(x, y)
    requires x >= 70 + 140 * NearestColumn(x) && y >= 70
    requires n >= 1 + ArrivalTicks(Max(x - (70 + 140 * NearestColumn(x)), y - 70))
    ensures var r := Run(StartParkingProcess(w, x, y), n);
      var k := NearestColumn(x);
      r == w.(carX := 70 + 140 * k, carY := 70, isParking := true, timerActive := false,
              currentTargetSpot := k, targetX := (70 + 140 * k) as real, targetY := 70.0, parkingState := 1,
              log := [SearchStarted, SpotChosen(k, (70 + 140 * k) as real, 70.0), Parked])
  {
    var s := StartParkingProcess(w, x, y);
    StartSelectsNearestColumn(w, x, y);
    ArrivesFromStart(s, NearestColumn(x), Max(x - (70 + 140 * NearestColumn(x)), y - 70), n);
  }

  /** A larger residual never needs fewer firings. */
  lemma {:induction false} ArrivalTicksMonotone(a: int, b: int)
    requires a <= b
    ensures ArrivalTicks(a) <= ArrivalTicks(b)
    decreases b
  {
    if a > 1 {
      ArrivalTicksMonotone((9 * a) / 10, (9 * b) / 10);
    }
  }

  /** Up to 10 each firing gains exactly one unit. */
  lemma {:induction false} SmallResidualTicks(g: int)
    requires g <= 10
    ensures ArrivalTicks(g) == Max(g, 1)
    decreases g
  {
    if g > 1 {
      assert (9 * g) / 10 == g - 1;
      SmallResidualTicks(g - 1);
    }
  }

  /** One firing on a residual of at least 2: it costs one tick and
      leaves the floor of nine tenths. */
  lemma ShrinkStep(a: int)
    requires a >= 2
    ensures ArrivalTicks(a) == 1 + ArrivalTicks((9 * a) / 10)
    ensures 9 * a - 10 < 10 * ((9 * a) / 10) <= 9 * a
  {
  }

  /** From 10 upwards seven firings at least halve the residual. */
  lemma SevenTicksHalve(g: int)
    requires g >= 10
    ensures ArrivalTicks(g) <= 7 + ArrivalTicks(g / 2)
  {
    var s1 := (9 * g) / 10;
    ShrinkStep(g);
    var s2 := (9 * s1) / 10;
    ShrinkStep(s1);
    var s3 := (9 * s2) / 10;
    ShrinkStep(s2);
    var s4 := (9 * s3) / 10;
    ShrinkStep(s3);
    var s5 := (9 * s4) / 10;
    ShrinkStep(s4);
    var s6 := (9 * s5) / 10;
    ShrinkStep(s5);
    var s7 := (9 * s6) / 10;
    ShrinkStep(s6);
    assert 100 * s2 <= 81 * g;
    assert 1000 * s3 <= 729 * g;
    assert 10000 * s4 <= 6561 * g;
    assert 100000 * s5 <= 59049 * g;
    assert 1000000 * s6 <= 531441 * g;
    assert 2 * s7 <= g;
    ArrivalTicksMonotone(s7, g / 2);
  }

  /** The firings needed grow with the logarithm of the residual: below
      2^m they are at most 7 m + 10. */
  lemma {:induction false} ArrivalTicksLogarithmic(g: int, m: nat)
    requires g < Pow2(m)
    ensures ArrivalTicks(g) <= 7 * m + 10
    decreases m
  {
    if g <= 10 {
      SmallResidualTicks(g);
    } else {
      SevenTicksHalve(g);
      ArrivalTicksLogarithmic(g / 2, m - 1);
    }
  }

  /** From any random start at or past its target, the car is parked after
      at most 81 firings: one to straighten and at most 80 to translate,
      the residual being below 2^10. */
  lemma ParksWithin81Ticks(w: Window, x: int, y: int, n: nat)
    requires Valid(w) && StartPosition(x, y)
    requires x >= 70 + 140 * NearestColumn(x) && y >= 70
    requires n >= 81
    ensures !Run(StartParkingProcess(w, x, y), n).timerActive
  {
    assert Pow2(10) == 1024;
    ArrivalTicksLogarithmic(Max(x - (70 + 140 * NearestColumn(x)), y - 70), 10);
    ParksIfStartedAtOrPastTarget(w, x, y, n);
  }

  /** A run started short of the nearest column's target on some axis never
      parks: the timer keeps firing forever and the arrival is never logged. */
  lemma StallsIfStartedShortOfTarget(w: Window, x: int, y: int, n: nat)
    requires Valid(w) && StartPosition(x, y)
    requires x < 70 + 140 * NearestColumn(x) || y < 70
    ensures var r := Run(StartParkingProcess(w, x, y), n);
      && r.timerActive && r.isParking && Parked !in r.log
      && (x < 70 + 140 * NearestColumn(x) ==> r.carX < 70 + 140 * NearestColumn(x))
      && (y < 70 ==> r.carY < 70)
  {
    var s := StartParkingProcess(w, x, y);
    StartSelectsNearestColumn(w, x, y);
    NeverArrivesShortOfTarget(s, n);
  }

  /** The whole behaviour of a run in one statement: it eventually stops
      the timer exactly when the start position is at or past the target of
      the nearest column on both axes. */
  lemma ParksIffStartedAtOrPastTarget(w: Window, x: int, y: int)
    requires Valid(w) && StartPosition(x, y)
    ensures (exists n: nat :: !Run(StartParkingProcess(w, x, y), n).timerActive)
            <==> x >= 70 + 140 * NearestColumn(x) && y >= 70
  {
    var k := NearestColumn(x);
    if x >= 70 + 140 * k && y >= 70 {
      var n := 1 + ArrivalTicks(Max(x - (70 + 140 * k), y - 70));
      ParksIfStartedAtOrPastTarget(w, x, y, n);
    } else {
      forall n: nat
        ensures Run(StartParkingProcess(w, x, y), n).timerActive
      {
        StallsIfStartedShortOfTarget(w, x, y, n);
      }
    }
  }

  /** A concrete stall: started at (100, 60) the car heads for spot 0 with
      target (70, 70) and never parks, and the window with the car at
      (70, 61) in the translate phase is left unchanged by every firing. */
  lemma StallExample(n: nat)
    ensures var s := StartParkingProcess(NewWindow(0, 0.0, 0.0), 100, 60);
      && s.currentTargetSpot == 0 && s.targetX == 70.0 && s.targetY == 70.0
      && Run(s, n).timerActive && Parked !in Run(s, n).log
      && MoveCarToSpot(s.(carX := 70, carY := 61, parkingState := 1)) == s.(carX := 70, carY := 61, parkingState := 1)
  {
    var w := NewWindow(0, 0.0, 0.0);
    StartSelectsNearestColumn(w, 100, 60);
    StallsIfStartedShortOfTarget(w, 100, 60, n);
    var s := StartParkingProcess(w, 100, 60);
    StallIsFixedPoint(s.(carX := 70, carY := 61, parkingState := 1));
  }
}
