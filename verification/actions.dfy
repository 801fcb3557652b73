/**
 * Turning one sample of the controls into an action: three active-low buttons
 * take priority in a fixed order, then the accelerometer tilt picks a direction
 * outside a dead zone.
 */
module Actions {

  /** The action codes `NO_ACTION` .. `OMNI_BUTTON`. */
  const NO_ACTION: int := 0
  const ACTION_BUTTON: int := 1
  const MENU_BUTTON: int := 2
  const GO_LEFT: int := 3
  const GO_RIGHT: int := 4
  const GO_UP: int := 5
  const GO_DOWN: int := 6
  const OMNI_BUTTON: int := 7

  /** The tilt a reading must reach on some axis before it counts as movement. */
  const NO_ACTION_LIMIT: int := 200

  /** One sample of the inputs: buttons read 0 while pressed; raw accelerometer axes. */
  datatype Inputs = Inputs(b1: int, b2: int, b3: int, ax: int, ay: int, az: int)

  function Abs(v: int): (r: int)
    ensures r >= 0 && (r == v || r == -v)
  {
    if v < 0 then -v else v
  }

  /** The tilt stays inside the dead zone on both axes. */
  predicate Level(i: Inputs)
  {
    Abs(i.ax) < NO_ACTION_LIMIT && Abs(i.ay) < NO_ACTION_LIMIT
  }

  /** No button is pressed. */
  predicate NoButton(i: Inputs)
  {
    i.b1 != 0 && i.b2 != 0 && i.b3 != 0
  }

  /** `get_action`. */
  function GetAction(i: Inputs): (a: int)
    ensures NO_ACTION <= a <= OMNI_BUTTON
    ensures a == ACTION_BUTTON <==> i.b1 == 0
    ensures a == MENU_BUTTON <==> i.b1 != 0 && i.b2 == 0
    ensures a == OMNI_BUTTON <==> i.b1 != 0 && i.b2 != 0 && i.b3 == 0
    ensures a == NO_ACTION <==> NoButton(i) && Level(i)
    ensures a == GO_RIGHT <==> NoButton(i) && !Level(i) && Abs(i.ax) > Abs(i.ay) && i.ax > 0
    ensures a == GO_LEFT <==> NoButton(i) && !Level(i) && Abs(i.ax) > Abs(i.ay) && i.ax <= 0
    ensures a == GO_UP <==> NoButton(i) && !Level(i) && Abs(i.ax) <= Abs(i.ay) && i.ay > 0
    ensures a == GO_DOWN <==> NoButton(i) && !Level(i) && Abs(i.ax) <= Abs(i.ay) && i.ay <= 0
  {
    if i.b1 == 0 then ACTION_BUTTON
    else if i.b2 == 0 then MENU_BUTTON
    else if i.b3 == 0 then OMNI_BUTTON
    else if Abs(i.ax) < NO_ACTION_LIMIT && Abs(i.ay) < NO_ACTION_LIMIT then NO_ACTION
    else if Abs(i.ax) > Abs(i.ay) then (if i.ax > 0 then GO_RIGHT else GO_LEFT)
    else (if i.ay > 0 then GO_UP else GO_DOWN)
  }

  /** The inputs mirrored left-to-right and top-to-bottom. */
  function Mirror(i: Inputs): Inputs
  {
    i.(ax := -i.ax, ay := -i.ay)
  }

  /** The action pointing the opposite way (other actions are their own opposite). */
  function Opposite(a: int): int
  {
    if a == GO_LEFT then GO_RIGHT
    else if a == GO_RIGHT then GO_LEFT
    else if a == GO_UP then GO_DOWN
    else if a == GO_DOWN then GO_UP
    else a
  }

  /**
   * Mirroring the tilt reverses the direction, except on the boundary: a tilt
   * of exactly 0 on the deciding axis reads as left or down both ways.
   */
  lemma MirrorReverses(i: Inputs)
    requires (Abs(i.ax) > Abs(i.ay) ==> i.ax != 0) && (Abs(i.ax) <= Abs(i.ay) ==> i.ay != 0)
    ensures GetAction(Mirror(i)) == Opposite(GetAction(i))
  {
  }

  /** Buttons pressed together: the first in the order b1, b2, b3 wins, whatever the tilt. */
  lemma ButtonPriority(i: Inputs, j: Inputs)
    requires i.b1 == j.b1 && i.b2 == j.b2 && i.b3 == j.b3
    requires !NoButton(i)
    ensures GetAction(i) == GetAction(j)
  {
  }
}
