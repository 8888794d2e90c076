# Wave interference canvas — verified model of its state and pixel pass

The page shows point emitters of circular waves on a canvas. The user can add
and remove emitters with two buttons and drag them with the mouse. In each
frame the page overlays an interference map: every pixel whose summed wave
amplitude is near zero is painted blue (destructive), every pixel whose
absolute sum is above 1.9 red (constructive), and every other pixel stays
transparent.

This project models the logic behind that page in Dafny and proves what it
does. There are four modules:

- `SourceSet` models the emitter list (`waveSources`). It has three entries
  at load. "Add" appends an emitter at x = 100 + 100 · count, y = 300 while
  fewer than six exist. "Remove" pops the last one while more than one is
  left. The list operations are functions on `seq<Source>`, and lemmas prove
  the 1..6 bound for any series of clicks.
- `InputController` models the hit test and the drag move. The test is a
  squared distance below 100, that is, a 10-pixel radius. `LastHit` is the
  drag target a mouse-down picks: the highest-index hit emitter, or none.
  `Moved` is the list once the target follows the pointer.
- `WaveCanvas` models the page's globals as the class `Scene`, with fields
  `waveSources`, `isDragging` and `draggedSource`. The click handlers and the
  three mouse handlers are methods that update those fields in place. Each
  method's `ensures` ties its new state to the functions above. Mouse-down
  keeps the scan loop of script.js, with the invariants that make it equal
  `LastHit`.
- `FieldRenderer` models the interference pass as imperative code over an
  `array<byte>`. It allocates a zero-filled buffer of w·h·4 bytes, as
  `createImageData` does; for a zero width or height `createImageData`
  throws an IndexSizeError and nothing is painted, which the model returns as
  `null`. It then runs the nested row and column loops. At
  index (y·w + x)·4 it writes opaque blue, writes opaque red, or leaves the
  four bytes alone. The method is proved to leave exactly `Field(w, h, sum)`
  in the buffer. Lemmas about `Field` show that each pixel's slot holds the
  colour its thresholds select and that distinct pixels own disjoint slots.

The per-pixel wave sum is a parameter of the pass, `sum: (int, int) -> real`.
In script.js it is a sum of sines of distances to every emitter. Pointer
coordinates arrive already relative to the canvas. Positions and sums are
`real`, so floating-point rounding is not modelled.

A drag target is an index into the list, `Option<nat>`; script.js holds a
reference to the emitter object. Mouse-move acts only when that index is
still inside the list.

The mouse-down handler (script.js:152-159) runs `forEach` with no early exit
and overwrites the target on each hit, so the LAST emitter in range wins;
`LastHit` states exactly that.

## Model

| member | source | states |
|---|---|---|
| `SourceSet.Added` | script.js:31-36 | with fewer than 6 emitters, exactly one emitter {100 + 100·oldCount, 300, 1} is appended and every earlier entry is kept; with 6 the list is unchanged |
| `SourceSet.Removed` | script.js:38-43 | with more than 1 emitter, exactly the last entry is dropped and the rest kept in order; with 1 the list is unchanged |
| `SourceSet.AddThenRemove` | script.js:31-43 | on a non-empty list with room, a remove undoes an add |
| `SourceSet.RemoveThenAdd` | script.js:31-43 | an add after a popping remove restores the count and the kept prefix, with the new emitter at the staggered position for that count |
| `SourceSet.ApplyAllStaysInBounds` | script.js:31-43 | any series of add/remove clicks keeps a list of 1..6 emitters within 1..6 |
| `SourceSet.InitialStaysInBounds` | script.js:10-14 | from the three initial emitters, every series of clicks leaves between 1 and 6 |
| `InputController.Hit` | script.js:153-155 | a hit (squared distance below 100) puts the pointer within 10 pixels of the emitter along each axis |
| `InputController.HitIffRootBelowRadius` | script.js:153-155 | for the non-negative root r of the squared distance, the pointer hits exactly when r < 10, which is the test `Math.sqrt(dx * dx + dy * dy) < 10` |
| `InputController.LastHit` | script.js:152-159 | the chosen index is in range, hit (squared distance < 100), and no later emitter is hit; None means no emitter at all is hit |
| `InputController.Moved` | script.js:162-167 | the target gets the pointer's x and y and keeps its frequency; length and every other emitter are unchanged |
| `InputController.MovedUnderPointer` | script.js:152-167 | after a move the dragged emitter lies under the pointer: a mouse-down there picks it or a later emitter |
| `InputController.MoveBack` | script.js:165-166 | moving the target back to its old position restores the list |
| `WaveCanvas.Scene.constructor` | script.js:10-14 | the initial three emitters, no drag in progress and no target (the drag globals are initialised at lines 144-145) |
| `WaveCanvas.Scene.AddWaveSource` | script.js:31-36 | the list becomes `Added` of the old list, the drag state is untouched, and 1..6 is kept |
| `WaveCanvas.Scene.RemoveWaveSource` | script.js:38-43 | the list becomes `Removed` of the old list, the drag state is untouched, and 1..6 is kept |
| `WaveCanvas.Scene.OnMouseDown` | script.js:147-160 | the list is unchanged; if some emitter is hit, dragging is on and the target is `LastHit`; otherwise both drag fields keep their old values |
| `WaveCanvas.Scene.OnMouseMove` | script.js:162-168 | while dragging with an in-range target, the list becomes `Moved` to the pointer; otherwise nothing changes; the drag fields never change |
| `WaveCanvas.Scene.OnMouseUp` | script.js:170-173 | dragging off, no target, list unchanged |
| `FieldRenderer.PixelColours` | script.js:111-121 | a pixel's four bytes are opaque blue exactly when the absolute sum is below 0.1, opaque red exactly when it is above 1.9, and transparent zeros exactly when it lies from 0.1 to 1.9 |
| `FieldRenderer.PixelIndex` | script.js:110 | the index (y·w + x)·4 of an in-range pixel is a multiple of 4, and its slot's last byte lies below w·h·4 |
| `FieldRenderer.PixelSlotsDisjoint` | script.js:110 | two distinct pixels own disjoint 4-byte slots |
| `FieldRenderer.FieldLength` | script.js:97 | the finished buffer is w·h·4 bytes long |
| `FieldRenderer.FieldSlot` | script.js:99-123 | the 4-byte slot at (y·w + x)·4 of the finished buffer holds that pixel's classification |
| `FieldRenderer.FieldPixel` | script.js:111-121 | at each pixel the finished buffer holds (0,0,255,255) when the absolute sum is below 0.1; (255,0,0,255) when it is above 1.9; the initial zeros otherwise |
| `FieldRenderer.CreateImageData` | script.js:97 | a zero width or height gives no buffer (the IndexSizeError); otherwise a fresh buffer of w·h·4 bytes, all zero (transparent black) |
| `FieldRenderer.PaintPixel` | script.js:110-121 | only the pixel's own four bytes change: they become its classification bytes, and everything before and after is untouched |
| `FieldRenderer.PaintRow` | script.js:100-122 | painting row y extends the rows above it by row y and leaves the bytes below still zero |
| `FieldRenderer.PaintField` | script.js:99-123 | painting every row of a still transparent buffer, top to bottom, leaves exactly `Field(w, h, sum)` |
| `FieldRenderer.DrawInterference` | script.js:96-123 | with a zero width or height the pass stops at the throwing allocation and paints nothing; otherwise it returns a fresh buffer equal to `Field(w, h, sum)` |

## Left out

- DOM and canvas plumbing is not modelled. It is browser API with no logic of its own: element lookup, listener registration, the count and wavelength readouts, `getBoundingClientRect`, `putImageData`, and the drawing calls (script.js:1-8, 20-29, 45-74, 125-127, 140-142).
- The wave sum (script.js:101-108) is a parameter. Its `Math.sqrt`/`Math.sin` floating-point numerics are not modelled. So is symmetry of the sum under reordering of the emitters.
- The ring overlay `drawWaves` (script.js:76-94) is not modelled. It depends on wall-clock time and float steps and keeps no state.
- The animation loop `animate` (script.js:130-138) is frame scheduling, not logic.
- The wavelength slider and the overlay toggle (script.js:16-27) are not modelled; they only set a number and a flag.
- Floating-point rounding is not modelled. Coordinates and sums are reals. The hit test is squared distance < 100, which equals `sqrt(d) < 10` over the reals.
- `WaveCanvas.Scene.OnMouseMove`: the target is an index, not an object reference. After a remove pops the dragged emitter, script.js keeps writing to the popped object, which is no longer drawn. The model does nothing in that case, because the index is out of range. If an add follows the pop, the index names the new emitter, which the model moves but script.js does not.
- `FieldRenderer.DrawInterference` runs its outer loop as the separate method `PaintField`, its inner loop as `PaintRow`, and each pixel's write as `PaintPixel`. Together they execute the statements of the nested loops at script.js:99-123, in the same order.
- `FieldRenderer.DrawInterference`: a thrown IndexSizeError is modelled as a `null` result. Exception propagation out of `drawInterference` and the animation frame is not modelled.
