/** The page's mutable state (the emitter list and the drag session) and the
    event handlers that update it in place. */
module WaveCanvas {
  import opened SourceSet
  import opened InputController

  class Scene {
    var waveSources: seq<Source>
    var isDragging: bool
    /** Index of the emitter being dragged, or None when there is no target. */
    var draggedSource: Option<nat>

    ghost predicate Valid()
      reads this
    {
      MinSources <= |waveSources| <= MaxSources
    }

    constructor ()
      ensures Valid()
      ensures waveSources == InitialSources
      ensures !isDragging && draggedSource == None
    {
      waveSources := InitialSources;
      isDragging := false;
      draggedSource := None;
    }

    /** "Add" button: push a staggered emitter unless six already exist. */
    method AddWaveSource()
      requires Valid()
      modifies this
      ensures Valid()
      ensures waveSources == Added(old(waveSources))
      ensures isDragging == old(isDragging) && draggedSource == old(draggedSource)
    {
      if |waveSources| < MaxSources {
        waveSources := waveSources + [NewSource(|waveSources|)];
      }
    }

    /** "Remove" button: pop the last emitter unless only one is left. */
    method RemoveWaveSource()
      requires Valid()
      modifies this
      ensures Valid()
      ensures waveSources == Removed(old(waveSources))
      ensures isDragging == old(isDragging) && draggedSource == old(draggedSource)
    {
      if |waveSources| > MinSources {
        waveSources := waveSources[..|waveSources| - 1];
      }
    }

    /** Mouse-down at canvas point (px, py): every emitter within the hit
        radius in turn becomes the drag target, so the last one wins; when
        none is hit the drag session is left as it was. */
    method OnMouseDown(px: real, py: real)
      requires Valid()
      modifies this
      ensures Valid()
      ensures waveSources == old(waveSources)
      ensures LastHit(waveSources, px, py).Some? ==>
        isDragging && draggedSource == LastHit(waveSources, px, py)
      ensures LastHit(waveSources, px, py).None? ==>
        isDragging == old(isDragging) && draggedSource == old(draggedSource)
    {
      var i := 0;
      while i < |waveSources|
        invariant 0 <= i <= |waveSources|
        invariant waveSources == old(waveSources)
        invariant LastHit(waveSources[..i], px, py).Some? ==>
          isDragging && draggedSource == LastHit(waveSources[..i], px, py)
        invariant LastHit(waveSources[..i], px, py).None? ==>
          isDragging == old(isDragging) && draggedSource == old(draggedSource)
      {
        if Hit(waveSources[i], px, py) {
          isDragging := true;
          draggedSource := Some(i);
        }
        assert waveSources[..i + 1][..i] == waveSources[..i];
        i := i + 1;
      }
      assert waveSources[..i] == waveSources;
    }

    /** Mouse-move to canvas point (px, py): while a drag with a target is in
        progress, the target's position follows the pointer. */
    method OnMouseMove(px: real, py: real)
      requires Valid()
      modifies this
      ensures Valid()
      ensures isDragging == old(isDragging) && draggedSource == old(draggedSource)
      ensures isDragging && draggedSource.Some? && draggedSource.value < |old(waveSources)| ==>
        waveSources == Moved(old(waveSources), draggedSource.value, px, py)
      ensures !(isDragging && draggedSource.Some? && draggedSource.value < |old(waveSources)|) ==>
        waveSources == old(waveSources)
    {
      if isDragging && draggedSource.Some? && draggedSource.value < |waveSources| {
        var i := draggedSource.value;
        waveSources := waveSources[i := waveSources[i].(x := px, y := py)];
      }
    }

    /** Mouse-up: the drag session ends and its target is cleared. */
    method OnMouseUp()
      requires Valid()
      modifies this
      ensures Valid()
      ensures !isDragging && draggedSource == None
      ensures waveSources == old(waveSources)
    {
      isDragging := false;
      draggedSource := None;
    }
  }
}
