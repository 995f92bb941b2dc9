/**
  The parking lot's spot layout and the nearest-spot selector
  (MainWindow's constructor loop and MainWindow::closestPark).
*/
module Lot {
  import opened Optional
  import opened Numbers
  import opened Geometry

  /** Number of spots the constructor lays out. */
  const SpotCount: nat := 5

  /** The car's footprint is 100 wide and 180 long; its centre is at
      (carX + 50, carY + 90). */
  const CarWidth: int := 100
  const CarLength: int := 180

  /** Margin by which every other spot is grown before the conflict test. */
  const ConflictMargin: int := 10

  /** Spot i: 120 × 200 pixels, top edge at 60, the first one at x = 60 and
      each next one 140 further right. */
  function Spot(i: int): Rect { Rect(60 + i * 140, 60, 120, 200) }

  /** The first n spots, appended left to right as the constructor's loop does. */
  function LayoutPrefix(n: nat): (r: seq<Rect>)
    ensures |r| == n
    ensures forall i :: 0 <= i < n ==> r[i] == Spot(i)
  {
    if n == 0 then [] else LayoutPrefix(n - 1) + [Spot(n - 1)]
  }

  /** The lot: the spot list the window owns for its whole lifetime. */
  function Layout(): seq<Rect> { LayoutPrefix(SpotCount) }

  /** Spot i overlaps some other spot grown by ConflictMargin on every side
      (the inner loop of closestPark, which stops at the first such spot). */
  predicate Conflicts(spots: seq<Rect>, i: int)
    requires 0 <= i < |spots|
  {
    exists j :: 0 <= j < |spots| && j != i
      && spots[i].Intersects(spots[j].Adjusted(-ConflictMargin, -ConflictMargin, ConflictMargin, ConflictMargin))
  }

  /** Spot i exists and passes the conflict filter. */
  predicate Eligible(spots: seq<Rect>, i: int) {
    0 <= i < |spots| && !Conflicts(spots, i)
  }

  /** No spot of the list passes the conflict filter. */
  predicate NoEligibleSpot(spots: seq<Rect>) {
    forall j :: 0 <= j < |spots| ==> !Eligible(spots, j)
  }

  /** Square of the Euclidean distance between the spot's centre and the
      centre of a car whose top-left corner is (carX, carY). closestPark
      compares square roots of this value; the square root is monotone, so
      comparing squares decides the same way. */
  function SquaredDistance(spot: Rect, carX: int, carY: int): real {
    var dx := spot.CenterX() - (carX + 50) as real;
    var dy := spot.CenterY() - (carY + 90) as real;
    dx * dx + dy * dy
  }

  /** k is the spot closestPark settles on after scanning the first n spots:
      it is eligible, no eligible spot among them is strictly nearer, and
      every eligible spot before it is strictly farther (the scan replaces
      its candidate only on a strictly smaller distance). */
  predicate IsNearest(spots: seq<Rect>, carX: int, carY: int, n: int, k: int)
    requires n <= |spots|
  {
    && 0 <= k < n
    && Eligible(spots, k)
    && (forall j :: 0 <= j < n && Eligible(spots, j) ==>
          SquaredDistance(spots[k], carX, carY) <= SquaredDistance(spots[j], carX, carY))
    && (forall j :: 0 <= j < k && Eligible(spots, j) ==>
          SquaredDistance(spots[k], carX, carY) < SquaredDistance(spots[j], carX, carY))
  }

  /** The candidate closestPark holds after its loop has visited spots
      0 .. n-1: None while no visited spot was eligible. */
  function ClosestAmong(spots: seq<Rect>, carX: int, carY: int, n: nat): (r: Option<nat>)
    requires n <= |spots|
    ensures r.None? <==> forall j :: 0 <= j < n ==> !Eligible(spots, j)
    ensures r.Some? ==> IsNearest(spots, carX, carY, n, r.value)
  {
    if n == 0 then None
    else
      var best := ClosestAmong(spots, carX, carY, n - 1);
      var i := n - 1;
      if Eligible(spots, i)
         && (best.None? || SquaredDistance(spots[i], carX, carY) < SquaredDistance(spots[best.value], carX, carY))
      then Some(i)
      else best
  }

  /** The index closestPark chooses, or None when it reports that no valid
      spot exists. */
  function ClosestSpot(spots: seq<Rect>, carX: int, carY: int): Option<nat>
  {
    ClosestAmong(spots, carX, carY, |spots|)
  }

  /** At most one index satisfies IsNearest, so the selector's contract
      determines its result. */
  lemma NearestIsUnique(spots: seq<Rect>, carX: int, carY: int, n: int, k1: int, k2: int)
    requires n <= |spots|
    requires IsNearest(spots, carX, carY, n, k1) && IsNearest(spots, carX, carY, n, k2)
    ensures k1 == k2
  {
  }

  /** The pose closestPark aims for inside a spot: the 100 × 180 car placed
      so that its centre is the spot's centre. */
  function TargetPose(spot: Rect): (t: (real, real))
    ensures t.0 + (CarWidth as real) / 2.0 == spot.CenterX()
    ensures t.1 + (CarLength as real) / 2.0 == spot.CenterY()
  {
    (spot.x as real + (spot.width - CarWidth) as real / 2.0,
     spot.y as real + (spot.height - CarLength) as real / 2.0)
  }

  /** The column of the lot nearest to a car at x-coordinate carX, with a tie
      going to the left-hand column; an independent closed form of the
      selector on the fixed layout. */
  function NearestColumn(carX: int): (k: nat)
    ensures k < SpotCount
  {
    var c := (carX - 1) / 140;
    if c < 0 then 0 else if c > 4 then 4 else c
  }

  /** The constructor's layout: exactly five spots, spot i at
      (60 + 140 i, 60) of size 120 × 200, each centred at (120 + 140 i, 160)
      with target pose (70 + 140 i, 70), and no spot overlapping another one
      grown by 10, so the conflict filter never rejects anything. */
  lemma LayoutFacts()
    ensures |Layout()| == SpotCount
    ensures forall i :: 0 <= i < SpotCount ==> Layout()[i] == Rect(60 + 140 * i, 60, 120, 200)
    ensures forall i :: 0 <= i < SpotCount ==>
              Layout()[i].CenterX() == (120 + 140 * i) as real && Layout()[i].CenterY() == 160.0
    ensures forall i :: 0 <= i < SpotCount ==> TargetPose(Layout()[i]) == ((70 + 140 * i) as real, 70.0)
    ensures forall i :: 0 <= i < SpotCount ==> Eligible(Layout(), i)
  {
    var spots := Layout();
    forall i | 0 <= i < SpotCount
      ensures Eligible(spots, i)
    {
      forall j | 0 <= j < SpotCount && j != i
        ensures !spots[i].Intersects(spots[j].Adjusted(-ConflictMargin, -ConflictMargin, ConflictMargin, ConflictMargin))
      {
      }
    }
  }

  /** On the fixed layout the selector never fails. */
  lemma LayoutAlwaysHasSpot(carX: int, carY: int)
    ensures ClosestSpot(Layout(), carX, carY).Some?
  {
    LayoutFacts();
    assert Eligible(Layout(), 0);
  }

  /** Squares are ordered as magnitudes are. */
  lemma SquaresOrdered(a: real, b: real)
    ensures AbsReal(a) < AbsReal(b) ==> a * a < b * b
    ensures AbsReal(a) <= AbsReal(b) ==> a * a <= b * b
  {
    var pa, pb := AbsReal(a), AbsReal(b);
    assert a * a == pa * pa && b * b == pb * pb;
    var d, e := pb - pa, pb + pa;
    assert b * b - a * a == d * e;
    if pa < pb {
      assert d > 0.0 && e > 0.0;
      assert d * e > 0.0;
    } else if pa == pb {
      assert d == 0.0;
    }
  }

  /** The squared distance from a car at (carX, carY) to spot j depends
      only on how far carX is from 70 + 140 j and carY from 70. */
  lemma SpotDistance(carX: int, carY: int, j: int)
    ensures var dx := (140 * j + 70 - carX) as real;
            var dy := (70 - carY) as real;
            SquaredDistance(Spot(j), carX, carY) == dx * dx + dy * dy
  {
    var dx := (140 * j + 70 - carX) as real;
    var dy := (70 - carY) as real;
    assert Spot(j).CenterX() - (carX + 50) as real == dx;
    assert Spot(j).CenterY() - (carY + 90) as real == dy;
  }

  /** NearestColumn(carX) is the column whose target x is closest to carX,
      ties going to the left. */
  lemma ColumnGap(carX: int, j: int)
    requires 0 <= j < SpotCount
    ensures var k := NearestColumn(carX);
      && Abs(140 * k + 70 - carX) <= Abs(140 * j + 70 - carX)
      && (j < k ==> Abs(140 * k + 70 - carX) < Abs(140 * j + 70 - carX))
  {
  }

  /** A spot whose target column is nearer the car in x is nearer the car. */
  lemma CloserColumnIsNearer(carX: int, carY: int, k: int, j: int)
    ensures Abs(140 * k + 70 - carX) <= Abs(140 * j + 70 - carX) ==>
              SquaredDistance(Spot(k), carX, carY) <= SquaredDistance(Spot(j), carX, carY)
    ensures Abs(140 * k + 70 - carX) < Abs(140 * j + 70 - carX) ==>
              SquaredDistance(Spot(k), carX, carY) < SquaredDistance(Spot(j), carX, carY)
  {
    SpotDistance(carX, carY, j);
    SpotDistance(carX, carY, k);
    SquaresOrdered((140 * k + 70 - carX) as real, (140 * j + 70 - carX) as real);
  }

  /** Spot NearestColumn(carX) is no farther than spot j, and strictly
      nearer when j lies to its left. */
  lemma NearestColumnNoFarther(carX: int, carY: int, j: int)
    requires 0 <= j < SpotCount
    ensures var k := NearestColumn(carX);
      && SquaredDistance(Spot(k), carX, carY) <= SquaredDistance(Spot(j), carX, carY)
      && (j < k ==> SquaredDistance(Spot(k), carX, carY) < SquaredDistance(Spot(j), carX, carY))
  {
    ColumnGap(carX, j);
    CloserColumnIsNearer(carX, carY, NearestColumn(carX), j);
  }

  /** On the fixed layout the spot nearest the car is NearestColumn(carX):
      columns left of it are strictly farther, columns right of it at least
      as far. */
  lemma NearestColumnIsNearest(carX: int, carY: int)
    ensures IsNearest(Layout(), carX, carY, SpotCount, NearestColumn(carX))
  {
    LayoutFacts();
    var k := NearestColumn(carX);
    forall j | 0 <= j < SpotCount
      ensures SquaredDistance(Layout()[k], carX, carY) <= SquaredDistance(Layout()[j], carX, carY)
      ensures j < k ==> SquaredDistance(Layout()[k], carX, carY) < SquaredDistance(Layout()[j], carX, carY)
    {
      NearestColumnNoFarther(carX, carY, j);
    }
  }

  /** The selector, run on the constructor's layout, returns exactly the
      nearest column. */
  lemma LayoutSelectsNearestColumn(carX: int, carY: int)
    ensures ClosestSpot(Layout(), carX, carY) == Some(NearestColumn(carX))
  {
    LayoutFacts();
    LayoutAlwaysHasSpot(carX, carY);
    NearestColumnIsNearest(carX, carY);
    var r := ClosestSpot(Layout(), carX, carY);
    NearestIsUnique(Layout(), carX, carY, SpotCount, r.value, NearestColumn(carX));
  }
}
