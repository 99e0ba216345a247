# DND Fog of War — a verified model of the frame loop

DND Fog of War shows a map image under a black "fog" layer. The game master
reveals parts of the map by painting with the left mouse button and hides
them again with the right button. The arrow keys pan the view and the mouse
wheel zooms. This project models the application's per-frame state machine
and proves what each step does to the state:

- the event queue sets the button flags, zooms, stops the loop and resizes the window;
- the held arrow keys pan;
- the brush writes into the fog;
- the run loop composes these steps in a fixed order.

Three modules:

- `FogLayer` (`fog_layer.dfy`) — the fog raster. `Mask` is the fog as a
  value: a width, a height and one alpha per pixel. It comes with the three
  operations the application applies to the fog:
  - `Filled`: a fresh surface, then `fill`;
  - `Brush`: `pygame.draw.circle` with a filled disc that writes its colour;
  - `Resampled`: `pygame.transform.scale`, a nearest-neighbour rescale.

  The same three operations are also methods (`Fill`, `Paint`, `Resample`)
  over the `array2` that holds the pixels. Each method is proved to produce
  the value its function gives.
- `AppSpec` (`app_spec.dfy`) — the application state as a value (`View`) and
  one function per step of the loop: `AfterEvent`, `AfterEvents`, `AfterKeys`,
  `AfterBrush`, `AfterFrame`, `AfterSession`. The lemmas state the
  application's guarantees in terms of these functions.
- `FogOfWar` (`fog_of_war_app.dfy`) — class `FogOfWarApp`. It holds the
  fields of the application state and of the application object: run flag,
  button flags, offsets, image size, window size, and the fog surface as an
  `array2`. It has one method per step of the source (`HandleEvent`,
  `HandleEvents`, `HandlePressedKeys`, `UpdateSurfaces`, `Frame`, `Run`).
  Each method's postcondition ties the new state `Model()` to the `AppSpec`
  function of the old state.

Abstractions:

- **Pointer, keyboard and event queue.** These come from the windowing
  library. Each frame receives them as a `FrameInput`: the pending events, the
  held arrow keys, and the pointer position.
- **Zoom target size.** The source multiplies by 1.1 or 0.9 in floating
  point, and the library then truncates the result. Here the target size is an
  abstract `DimScale` function: any `nat -> nat` that maps 0 to 0. The model
  applies it to the image's own size and, separately, to the fog's own size,
  as the source does. A `Zoom` value supplies the two functions.
- **Brush.** The disc is an ideal Euclidean disc of radius 30. It is tested at
  integer pixel coordinates around the real-valued centre (pointer minus pan
  offset).
- **Pan step.** The step is the real number 500 / 60. The offsets are reals.

Facts about the program that the model keeps:

- LEFT and UP *add* the pan step to the x and y offsets; RIGHT and DOWN
  subtract it.
- The wheel rescales by a factor. There is no zoom clamp and no zoom ladder.
- The program has no brush-size change, no rotation and no legend.

## Model

| member | source | states |
|---|---|---|
| FogLayer.Filled | main.py:42-45 | a freshly created fog has the image's width and height and every pixel at alpha 255 (fully hidden) |
| FogLayer.Fill | main.py:45 | after `fill`, the surface's mask is the uniform mask of its own size |
| FogLayer.BrushPixel | main.py:142-155 | one brush stroke: a pixel the disc covers gets the stroke's alpha, and every other pixel keeps its alpha (write, not blend; clipped at the edges) |
| FogLayer.LastStrokeWins | main.py:141-155 | two strokes over the same disc give the mask of the second stroke alone |
| FogLayer.BrushIdempotent | main.py:141-155 | painting the same disc twice with the same alpha gives the same mask as painting it once |
| FogLayer.Brush | main.py:142-155 | a stroke keeps the mask's width and height; its pixels are stated by `BrushPixel`, and `LastStrokeWins` and `BrushIdempotent` are proved about it |
| FogLayer.Paint | main.py:142-155 | the in-place circle draw leaves the array holding exactly `Brush` of its old mask |
| FogLayer.SourceIndex | main.py:88-96 | the nearest-neighbour source coordinate always lies inside the source raster |
| FogLayer.Resampled | main.py:88-113 | a rescaled fog has exactly the requested width and height |
| FogLayer.ResampledUniform | main.py:88-113 | rescaling a uniform fog (all hidden or all revealed) gives a uniform fog with the same alpha, at any size |
| FogLayer.Resample | main.py:88-113 | the rescale builds a fresh array holding `Resampled` of the old mask and leaves the old array untouched |
| AppSpec.Initial | main.py:6-47 | the state after start-up; its properties are stated by `InitialState`, and the constructor is proved to produce it |
| AppSpec.InitialState | main.py:6-47 | at start the app is running with no button held, offsets 0 and the fog aligned with the image and fully opaque; the window is exactly `min(image width, 1920)` x `min(image height, 1080)` |
| AppSpec.Rescaled | main.py:80-113 | a wheel step gives the image the scale function of the image's size and the fog the scale function of the fog's own size; see `WheelRescales` |
| AppSpec.AfterEvent | main.py:73-123 | one event of the queue; no event changes the pan offset; its cases are stated by `ButtonDownFlags`, `ButtonUpFlags`, `WheelRescales`, `VideoResizeOnlyScreen` and `QuitOnlyClearsRunning` |
| AppSpec.AfterEvents | main.py:71-123 | the queue handled in order; no queue changes the pan offset; see `AlignedAfterEvents`, `QuitOnlyClearsRunning` and `RepeatedZoomIn` |
| AppSpec.AfterKeys | main.py:125-136 | the keyboard poll changes nothing but the two offsets; see `EachKeyMovesOneOffset` |
| AppSpec.AfterBrush | main.py:138-155 | the brush changes nothing but the fog, and keeps its width and height; see `FrameBrush`, `BothButtonsHide` and `BrushTwiceIsOnce` |
| AppSpec.AfterFrame | main.py:168-173 | events, then keys, then brush; see `FrameBrush`, `QuitFrameRunsToTheEnd`, `AlignedAfterFrame` and `RunningAfterFrame` |
| AppSpec.AfterSession | main.py:166-174 | frames while the run flag is set; see `SessionEndsAfterQuitFrame`, `SessionWithoutQuit` and `AlignedAfterSession` |
| AppSpec.ButtonDownFlags | main.py:75-118 | button-down sets `left_mouse_down` exactly for button 1 and `right_mouse_down` exactly for button 3; for buttons 1 and 3 nothing else changes; buttons other than 1, 3, 4 and 5 change nothing; no button-down touches the run flag |
| AppSpec.ButtonUpFlags | main.py:114-118 | button-up clears the flag of button 1 or 3, changes nothing else, and other buttons change nothing |
| AppSpec.WheelRescales | main.py:80-113 | wheel up or down resizes the image and the fog, each from its own size, by the same scale function with no clamp; flags, offsets, run flag and window are unchanged; the fog stays aligned with the image; a uniform fog stays uniform |
| AppSpec.RepeatedZoomIn | main.py:80-96 | n wheel-up events resize the image and the fog to the n-fold application of the zoom-in function to their sizes |
| AppSpec.VideoResizeOnlyScreen | main.py:119-123 | a window resize sets the window size to the event's size and leaves the image, fog, offsets, flags and run flag unchanged |
| AppSpec.AlignedAfterEvent | main.py:73-123 | every single event keeps the fog's dimensions equal to the image's |
| AppSpec.AlignedAfterEvents | main.py:71-123 | every sequence of events keeps the fog's dimensions equal to the image's |
| AppSpec.RunFlagIgnored | main.py:71-123 | events other than QUIT neither read nor write the run flag |
| AppSpec.QuitOnlyClearsRunning | main.py:72-74 | the run flag after the queue is false iff it was false already or the queue held a QUIT; everything else is as if the QUIT events were absent, so the events after a QUIT are still handled |
| AppSpec.EachKeyMovesOneOffset | main.py:125-136 | LEFT alone adds exactly one pan step to x, RIGHT alone subtracts it, UP alone adds it to y, DOWN alone subtracts it; no key changes nothing; for any held keys, x depends only on LEFT/RIGHT and y only on UP/DOWN (four independent checks), so LEFT+UP pans one step on each axis; the poll changes nothing but the two offsets |
| AppSpec.HoldLeftPans | main.py:125-130 | n keyboard polls in a row with LEFT alone held move x by n pan steps, without any bound, and change nothing else |
| AppSpec.HoldLeftFramesPan | main.py:125-172 | n whole frames with an empty event queue and LEFT alone held move x by n pan steps, without any bound; y, the flags, the run flag, the image size and the window are unchanged, and only the fog can change (by the brush) |
| AppSpec.FrameBrush | main.py:138-172 | after a frame, every fog pixel inside the disc of radius 30 around (pointer − the offsets already moved by this frame's keys) is 255 if the right button is held, else 0 if the left button is held; every other pixel, and the rest of the state, is as events and keys left them |
| AppSpec.BothButtonsHide | main.py:141-155 | with both buttons held the fog ends as if only hide were painted: hide is written after reveal |
| AppSpec.BrushTwiceIsOnce | main.py:141-155 | the brush step applied twice at the same pointer position and flags gives the same state as applying it once |
| AppSpec.QuitFrameRunsToTheEnd | main.py:166-173 | a frame whose queue holds QUIT still runs its keys and brush; it equals the same frame without the QUIT except for the run flag |
| AppSpec.AlignedAfterFrame | main.py:166-173 | a whole frame keeps the fog aligned with the image |
| AppSpec.RunningAfterFrame | main.py:168-174 | the loop keeps running after a frame iff it was running and that frame's queue held no QUIT |
| AppSpec.SessionEndsAfterQuitFrame | main.py:166-174 | the loop runs exactly up to and including the first frame whose queue holds QUIT, and its final state is that of those frames run in order |
| AppSpec.SessionWithoutQuit | main.py:166-174 | without a QUIT the loop runs every frame it is given, in order |
| AppSpec.AlignedAfterSession | main.py:166-174 | after any run of the loop the fog's dimensions equal the image's |
| FogOfWar.FogOfWarApp.constructor | main.py:32-47 | the new object's state is `Initial` of the loaded image's size; the fog surface is fresh and fully opaque |
| FogOfWar.FogOfWarApp.Rescale | main.py:80-113 | the image takes the scaled size; the fog surface is replaced by a fresh rescaled copy (`Rescaled` of the old state) |
| FogOfWar.FogOfWarApp.HandleEvent | main.py:73-123 | one event takes the state to `AfterEvent` of the old state |
| FogOfWar.FogOfWarApp.HandleEvents | main.py:71-123 | draining the queue in order takes the state to `AfterEvents` of the old state |
| FogOfWar.FogOfWarApp.HandlePressedKeys | main.py:125-136 | the keyboard poll takes the state to `AfterKeys` of the old state and keeps the same fog surface |
| FogOfWar.FogOfWarApp.UpdateSurfaces | main.py:138-155 | painting in place takes the state to `AfterBrush` of the old state |
| FogOfWar.FogOfWarApp.Frame | main.py:168-173 | events, then keys, then brush take the state to `AfterFrame` of the old state and keep the fog aligned with the image |
| FogOfWar.FogOfWarApp.Run | main.py:166-174 | the loop ends in `AfterSession` of the old state after `FramesRun` frames, with the fog still aligned |

## Left out

- Image loading through the file dialog, and the exit when nothing is chosen (main.py:28-30, 50-61). This is I/O. The constructor takes the loaded image's width and height.
- `cleanup`, `pygame.quit` and `sys.exit` after the loop (main.py:63-65, 174). These are process lifecycle.
- `redraw_all` (main.py:157-164): filling, blitting and flipping the display. This is rendering and changes no modelled state.
- `clock.tick` (main.py:169). This is timing.
- `resize_obj` (main.py:67-69). It is unused.
- The `screen` surface is modelled as its width and height only. `pygame.display.set_mode` and `set_caption` are display calls.
- The wheel's `pygame.transform.smoothscale` (main.py:81-87, 98-104) only accepts 24- or 32-bit surfaces. For any other image, such as a palettised GIF that the file dialog offers, it raises `ValueError`. Nothing catches that error, so the program ends on the first wheel event. The model assumes a 24- or 32-bit image: its wheel step always succeeds, and it does not model this crash.
- AppSpec.RepeatedZoomIn: sizes are unbounded naturals and every wheel-up succeeds. The program asks `smoothscale` and `scale` (main.py:81-96) for a larger surface on each step. Surface sizes are C integers and need memory, so pygame raises `pygame.error` once the surface cannot be created, and nothing catches it. The model does not capture running out of surface size or memory on repeated zoom-in.
- The image's pixels and `smoothscale`'s resampling of them are not modelled. Only the image's width and height are tracked.
- Wheel zoom target size: the float products with 1.1 and 0.9, and how the library truncates them, are foreign numerics. They are abstracted as an arbitrary `DimScale` with `f(0) == 0`.
- FogLayer.Resampled: nearest-neighbour sampling at source coordinate `x * srcWidth / dstWidth`. pygame's fixed-point stepping may choose a neighbouring source pixel. The proved properties (size, uniform stays uniform) do not depend on which pixel is chosen.
- FogLayer.Covers: an ideal Euclidean disc tested at integer pixel coordinates. It does not reproduce `pygame.draw.circle`'s own rasterisation, or how it rounds a fractional centre.
- AppSpec.HoldLeftPans: the offsets are exact reals. The source's floating-point offsets can drift by rounding, so n pan steps equal `n * 500/60` only up to that rounding.
- FogOfWar.FogOfWarApp.Run: the source loops until QUIT with no limit. The model runs for at most the frames whose input it is given.
- Only the event kinds the source handles are distinguished. Every other event is `OtherEvent`, which the loop ignores.
