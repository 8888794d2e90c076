/** Pointer hit-testing and drag moves over the emitter list. The drag target
    is an index into the list rather than a reference to a live record. */
module InputController {
  import opened SourceSet

  datatype Option<T> = None | Some(value: T)

  /** The hit radius is 10 pixels; comparing squared distances avoids a root. */
  const HitRadiusSquared: real := 100.0

  /** Squared Euclidean distance from `src` to the point (px, py). */
  function SquaredDistance(src: Source, px: real, py: real): real
  {
    (px - src.x) * (px - src.x) + (py - src.y) * (py - src.y)
  }

  /** The pointer at (px, py) lies strictly within the hit radius of `src`;
      so in particular within 10 pixels of it along each axis. */
  function Hit(src: Source, px: real, py: real): (hit: bool)
    ensures hit ==> -10.0 < px - src.x < 10.0 && -10.0 < py - src.y < 10.0
  {
    var dx := px - src.x;
    var dy := py - src.y;
    if SquaredDistance(src, px, py) < HitRadiusSquared then
      SquareBelow(dx, dy * dy);
      SquareBelow(dy, dx * dx);
      true
    else false
  }

  /** A number whose square stays below 100 (even with a non-negative extra
      term added) lies strictly between -10 and 10. */
  lemma SquareBelow(d: real, extra: real)
    requires extra >= 0.0 && d * d + extra < 100.0
    ensures -10.0 < d < 10.0
  {
  }

  /** The source's test `Math.sqrt(dx * dx + dy * dy) < 10`: for the root r of
      the squared distance, the pointer hits exactly when r is below 10. */
  lemma HitIffRootBelowRadius(src: Source, px: real, py: real, r: real)
    requires r >= 0.0 && r * r == SquaredDistance(src, px, py)
    ensures Hit(src, px, py) <==> r < 10.0
  {
    if r < 10.0 {
      assert r * r <= 10.0 * r;
    } else {
      assert r * r >= 10.0 * r;
    }
  }

  /** The drag target a mouse-down picks: the highest-index emitter that the
      pointer hits, since the scan visits every emitter and each hit overwrites
      the previous one. */
  function LastHit(s: seq<Source>, px: real, py: real): (r: Option<nat>)
    ensures r.Some? ==>
      r.value < |s| && Hit(s[r.value], px, py) &&
      forall j :: r.value < j < |s| ==> !Hit(s[j], px, py)
    ensures r.None? ==> forall j :: 0 <= j < |s| ==> !Hit(s[j], px, py)
  {
    if |s| == 0 then None
    else if Hit(s[|s| - 1], px, py) then Some(|s| - 1)
    else
      var r := LastHit(s[..|s| - 1], px, py);
      assert forall j :: 0 <= j < |s| - 1 ==> s[..|s| - 1][j] == s[j];
      r
  }

  /** The list after the dragged emitter `i` follows the pointer to (px, py):
      only its position changes. */
  function Moved(s: seq<Source>, i: nat, px: real, py: real): (r: seq<Source>)
    requires i < |s|
    ensures |r| == |s|
    ensures r[i] == Source(px, py, s[i].frequency)
    ensures forall j :: 0 <= j < |s| && j != i ==> r[j] == s[j]
  {
    s[i := s[i].(x := px, y := py)]
  }

  /** After a move the dragged emitter lies under the pointer, so a new
      mouse-down at the same point picks it or an emitter after it. */
  lemma MovedUnderPointer(s: seq<Source>, i: nat, px: real, py: real)
    requires i < |s|
    ensures LastHit(Moved(s, i, px, py), px, py).Some?
    ensures LastHit(Moved(s, i, px, py), px, py).value >= i
  {
    var m := Moved(s, i, px, py);
    assert SquaredDistance(m[i], px, py) == 0.0;
  }

  /** Moving the dragged emitter back to where it was restores the list. */
  lemma MoveBack(s: seq<Source>, i: nat, px: real, py: real)
    requires i < |s|
    ensures Moved(Moved(s, i, px, py), i, s[i].x, s[i].y) == s
  {
  }
}
