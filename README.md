# SDL window backend of go.wde, modelled in Dafny

This project models the sequential core of the SDL backend of the go.wde window-driver library. It has four modules.

- **Keymap** models the scancode table (`sdl/sdl_keymap.go`).
  - `Table()` is the 256-entry table that package initialisation leaves behind.
  - `Init` rebuilds that table in an array: it copies the 77-entry literal, pads it with blank names and writes the five modifier slots.
- **Events** models `ConvertKeyCode` and the translation switch of `collectEvents` (`sdl/sdl_window.go`).
  - `Translate` is one pass of the switch. It takes a native SDL event and the window's key-chord map, and returns the portable events emitted plus the new map.
  - `TranslateAll` folds `Translate` over a finite run of polled events.
- **Surface** models `SdlBuffer` (`sdl/sdl_surfacecopier.go`).
  - The buffer is a class over a fixed-size `array2` of RGBA bytes.
  - `CopyRGBA` and `Clear` are the source's nested loops over `Set`. Each is proved against a function on the pixel grid.
- **SdlWindow** models the window.
  - `Window` is a class holding the `closed` and `lock` flags, the creation-time width and height, the buffer and the native window's state.
  - It also holds the key-chord map and the delivered events as plain fields, and the renderer calls as a ghost trace.
  - The public methods carry the source's guards. The managing thread's commands (size, title, show, flush) run as direct method calls.

The code is followed wherever it differs from what one might expect was meant:

- `Show` has no `closed` guard, so it reaches the native window even after `Close`.
- `NewWindow` always returns a nil error.
- Key events are not guarded when the key's name is blank (`Blank`, the empty name). A key-down for an unmapped scancode therefore still emits `KeyDownEvent(Blank)` and puts `Blank` into the chord map.
- A `RESIZED` window event puts `Data1` into the height and `Data2` into the width.
- The button mask is `1 << button` on Go's 64-bit `int`. SDL numbers its buttons from 1, so the left button gives 2. Button 63 gives the sign bit, and 64 or more gives 0.
- Rectangle sizes and coordinate sums are computed on Go's 64-bit `int` and wrap around. `CopyRGBA` writes the points `(Wrap64(r.Min.X + x), Wrap64(r.Min.Y + y))` for `0 <= x < r.Dx()` and `0 <= y < r.Dy()`, where `Dx` and `Dy` are themselves wrapped. For example, a rectangle from `MinInt64` to `MaxInt64` has width -1, so nothing is copied.
- `image.Rect` reorders its corners, so `NewSdlBuffer(w, h)` with a negative size has bounds from `(min(0, w), min(0, h))` to `(max(0, w), max(0, h))`.
- `Clear` sets the absolute points `0 <= x < Dx`, `0 <= y < Dy` through the bounds-checked `Set`. The whole buffer is cleared only when its bounds start at the origin, which is the case for every buffer a window makes with non-negative sizes.
- A second `Close` destroys the native window again and then panics, because it closes a channel that is already closed. `Close` reports that panic as its result.

Calls into SDL are modelled as state changes:

- On the native window (`NativeWindow`): size, title, shown, and a destroy count.
- On the renderer: entries appended to the ghost `trace` (`SetDrawColor`, `DrawPoint`, `Present`).

The chord construction `wde.ConstructChord` is not part of this model. It appears as the parameter `construct`, a function from the chord map to a string. The `wde.Key*` name constants are the constructors of the datatype `Key`. They are taken to be distinct and different from the empty name.

The operations themselves are the functions and methods the lemmas below speak about.
- `Keymap.Literal` is the table literal (sdl/sdl_keymap.go:7-85) and `Keymap.Table` the table after `init` (sdl/sdl_keymap.go:87-95).
- `Events.Translate` is one pass of the switch (sdl/sdl_window.go:135-202), `Events.WindowEvents` its inner switch on the window-event subtype (sdl/sdl_window.go:164-202), `Events.TranslateAll` its fold over a run, and `Events.ButtonMask` the shift at sdl/sdl_window.go:155.
- `Events.KeyName` is the lookup the window does on the initialised table (sdl/sdl_window.go:138 and 146).
- `Surface.CopyGrid` and `Surface.ClearGrid` give the pixels after a copy and after a clear.

## Model

| member | source | states |
|---|---|---|
| Keymap.Init | sdl/sdl_keymap.go:87-95 | initialisation produces an array of exactly 256 entries equal to `Table()`: the literal copied, blank padding, then the five modifier writes |
| Keymap.TableLength | sdl/sdl_keymap.go:88 | after initialisation the table has 256 entries |
| Keymap.ReservedLowCodes | sdl/sdl_keymap.go:8-11 | scancodes 0 to 3 have the blank name |
| Keymap.LettersAndDigits | sdl/sdl_keymap.go:12-47 | entries 4..29 are A..Z in order, 30..38 are 1..9 and 39 is 0 |
| Keymap.FunctionAndEditingKeys | sdl/sdl_keymap.go:66-84 | entries 58..69 are F1..F12, 73 is Insert and 76 is Delete |
| Keymap.ReservedLiteralSlots | sdl/sdl_keymap.go:58-83 | the literal's reserved slots 50, 57, 70, 71, 72, 74 and 75 are blank |
| Keymap.ModifierSlots | sdl/sdl_keymap.go:88-93 | slots 224, 225, 226, 229 and 230 hold the five modifiers; every other index from 77 to 255, 227 and 228 included, is blank |
| Keymap.InitKeepsLiteral | sdl/sdl_keymap.go:87-95 | the first 77 entries are the literal, and outside the modifier slots each entry is the literal's entry or blank |
| Events.ConvertKeyCode | sdl/sdl_window.go:243-253 | a scancode below 4 or at least the table length yields the blank name; any other scancode yields the table entry at that index; the lookup is total |
| Events.KeyDownStep | sdl/sdl_window.go:136-143 | a key-down emits exactly the key-down event for `ConvertKeyCode(scancode)` and one chord event built from the updated map; that key's entry becomes true, the map gains at most that key, and every other entry is unchanged; a blank key is not excluded |
| Events.KeyUpStep | sdl/sdl_window.go:144-151 | a key-up emits exactly the key-up event and one chord event; the entry becomes false and is kept, not deleted; every other entry is unchanged |
| Events.MouseButtonStep | sdl/sdl_window.go:152-158 | a button press or release emits one button event with mask `1 << button` and the pointer position |
| Events.ButtonMasksDistinct | sdl/sdl_window.go:155 | buttons 0..63 get distinct, non-zero masks |
| Events.ButtonMaskRange | sdl/sdl_window.go:155 | buttons below 63 give a positive mask that fits in a signed 64-bit int; buttons 64 and above give 0 |
| Events.WindowAndQuitSteps | sdl/sdl_window.go:162-193 | quit and the close subtype each emit one close event; enter and leave emit the crossing events; resized emits one resize event with height Data1 and width Data2 |
| Events.SilentSteps | sdl/sdl_window.go:159-201 | motion, wheel, unhandled event types and every window subtype other than enter, leave, resized and close emit nothing |
| Events.NonKeyStepKeepsChords | sdl/sdl_window.go:152-202 | no event other than a key transition changes the chord map |
| Events.StepSize | sdl/sdl_window.go:135-202 | a step emits two events exactly when the event is a key transition, and never more than two |
| Events.ChordsFollowLastTransition | sdl/sdl_window.go:128-151 | after any run of events, a key's entry is the direction of its last transition in the run (true for down, false for up); with no transition, the entry is the old one, including being absent |
| Events.PressRelease | sdl/sdl_window.go:136-151 | pressing then releasing a key emits exactly key-down, chord with the key held, key-up, chord with it released; the map ends with the key's entry false |
| Events.TranslateAllAppend | sdl/sdl_window.go:128-135 | one more polled event appends its own emission after the run's, translated against the map the run left |
| Events.TranslateAllSplit | sdl/sdl_window.go:128-202 | the events of a run are delivered in order: for any split of a run into a then b, its emission is a's followed by b's translated from the map a left, and its final map is the one b leaves |
| Events.TranslateAllLength | sdl/sdl_window.go:135-202 | how many events a run emits does not depend on the chord map or on the chord construction |
| Surface.RectOf | sdl/sdl_surfacecopier.go:14 | `image.Rect` keeps the given corners and orders each axis so that the minimum is at most the maximum |
| Surface.SdlBuffer.constructor | sdl/sdl_surfacecopier.go:12-16 | a new buffer has the corners of `image.Rect(0, 0, width, height)` (exactly (0,0)-(width,height) for non-negative sizes) and every pixel is transparent black |
| Surface.Image.At | sdl/sdl_surfacecopier.go:25 | reading the source image at a point it contains gives the stored pixel; a point outside it reads transparent black |
| Surface.SdlBuffer.At | sdl/sdl_window.go:232 | reading a point gives the stored pixel; reading off the buffer gives transparent black |
| Surface.SdlBuffer.Set | sdl/sdl_surfacecopier.go:25 | writes the one pixel at an absolute point if it is within the bounds; no other pixel changes |
| Surface.SdlBuffer.CopyRGBA | sdl/sdl_surfacecopier.go:18-28 | the new pixels are `CopyGrid` of the old ones: each destination point `(Wrap64(r.Min.X + x), Wrap64(r.Min.Y + y))` with `0 <= x < r.Dx()`, `0 <= y < r.Dy()` (64-bit sizes) takes the source's pixel at `(x, y)`; all other pixels are kept; the dimensions are fixed |
| Surface.SdlBuffer.CopyColumn | sdl/sdl_surfacecopier.go:24-26 | the inner loop of CopyRGBA writes the source column x onto the points of destination column `Wrap64(r.Min.X + x)` and nothing else |
| Surface.Rect.Dx | sdl/sdl_surfacecopier.go:19 | the width is a 64-bit `int` congruent to `Max.X - Min.X` modulo 2^64, so it wraps around, and it is exact when the difference fits |
| Surface.WrapHits | sdl/sdl_surfacecopier.go:25 | the wrapped sum `r.Min.X + x`, for `0 <= x < 2^63`, is the point p exactly when p is a 64-bit int whose distance from `r.Min.X`, counted modulo 2^64, is x |
| Surface.CopyInside | sdl/sdl_surfacecopier.go:23-26 | each written point holds the source pixel read from the source's own origin, not from `r.Min` |
| Surface.CopyOutside | sdl/sdl_surfacecopier.go:23-27 | every pixel the loops do not write is unchanged |
| Surface.CopyOverwrites | sdl/sdl_surfacecopier.go:25 | the previous destination pixel has no bearing on the result at a written point |
| Surface.CoversWithoutWrap | sdl/sdl_surfacecopier.go:19-26 | when neither size of r overflows, the written points are exactly the points of r, each read from its offset to `r.Min` |
| Surface.CopyEmptyRect | sdl/sdl_surfacecopier.go:19-24 | a rectangle with no width or no height, after wrap-around, leaves the buffer unchanged |
| Surface.WrappedWidthCopiesNothing | sdl/sdl_surfacecopier.go:19-23 | a rectangle from `MinInt64` to `MaxInt64` wide has width -1 and copies nothing |
| Surface.SdlBuffer.Clear | sdl/sdl_surfacecopier.go:30-38 | the new pixels are `ClearGrid` of the old ones: every pixel whose absolute point has `0 <= x < Dx` and `0 <= y < Dy` becomes transparent black and every other pixel is kept; the dimensions are fixed |
| Surface.SdlBuffer.ClearColumn | sdl/sdl_surfacecopier.go:34-36 | the inner loop of Clear clears the in-bounds points of one absolute column and nothing else |
| Surface.ClearFromOrigin | sdl/sdl_surfacecopier.go:30-38 | for a buffer whose bounds start at the origin, every pixel is transparent black after Clear |
| Surface.ClearIdempotent | sdl/sdl_surfacecopier.go:30-38 | clearing twice is clearing once |
| SdlWindow.Window.constructor | sdl/sdl_window.go:47-66 | a new window is open and unlocked, keeps width and height, has a native window of that size that was shown once and never destroyed, an empty trace, an empty chord map, and a transparent buffer; the error result is not modelled because it is always nil |
| SdlWindow.Window.SetTitle | sdl/sdl_window.go:72-77 | a closed window drops the request; otherwise the native title becomes the given one |
| SdlWindow.Window.SetSize | sdl/sdl_window.go:79-84 | the native size changes exactly when the window is neither closed nor locked; width and height never change |
| SdlWindow.Window.Size | sdl/sdl_window.go:86-91 | a closed window reports (0, 0); an open one reports the native size |
| SdlWindow.Window.LockSize | sdl/sdl_window.go:93-95 | sets the flag and nothing else |
| SdlWindow.Window.Close | sdl/sdl_window.go:101-108 | the native window is destroyed once more and the window is closed; the call panics exactly when the window was already closed |
| SdlWindow.Window.Show | sdl/sdl_window.go:121-123 | the native window is shown once more, whether or not the window is closed |
| SdlWindow.Window.FlushImage | sdl/sdl_window.go:110-115 | a closed window changes nothing; otherwise the trace gains the draw calls of the pixels as they were, then one `Present`, and the buffer is cleared, so all transparent for non-negative sizes |
| SdlWindow.Window.Draw | sdl/sdl_window.go:230-236 | the nested flush loops append exactly `DrawCalls` of the buffer at the creation-time width and height |
| SdlWindow.Window.DrawColumn | sdl/sdl_window.go:231-235 | the inner flush loop appends the draw-color and draw-point calls for the points of one column |
| SdlWindow.DrawCallsShape | sdl/sdl_window.go:230-236 | a flush of a w-by-h window issues exactly w*h (draw-color, draw-point) pairs, x in the outer loop and y in the inner; the pair for (x, y) is at position 2(x*h + y) and carries that point's pixel |
| SdlWindow.DrawCallsEmpty | sdl/sdl_window.go:230-231 | a window with no width or no height draws nothing |
| SdlWindow.Window.CollectEvents | sdl/sdl_window.go:128-204 | the collection loop over a finite run of polled events leaves the chord map and the delivered events of `TranslateAll` |
| SdlWindow.ResizeScenario | sdl/sdl_window.go:79-95 | an 800x600 window asked for 1024x768 reports the new size, unless it was locked first |
| SdlWindow.CloseScenario | sdl/sdl_window.go:72-123 | after Close, Size reports (0, 0); the native window keeps its 640x480 size and empty title; a flush draws nothing; and Show still reaches the native window, which has been shown twice and destroyed once |

## Left out

- Goroutines, channels, `select`, `runtime.LockOSThread` and the backend's Run/Stop channel are not modelled, because they exist only for concurrency. Each command the managing thread handles is one sequential method call on `Window`.
- The unsynchronised reads of `closed` are not modelled, nor sends on closed channels, because they are concurrency effects. Neither is the detail that after `Close` the managing thread keeps receiving zero values from the closed size and title channels.
- The SDL calls are not modelled beyond their effect on the `NativeWindow` record and the renderer trace. This covers window and renderer creation, event polling, size, title, show, size query, drawing, present, destroy, and SDL init and quit. Creation is assumed to succeed with the initial title empty. `GetSize` is assumed to report the size last set.
- The busy-polling loop of `collectEvents` is not modelled: it polls forever and skips empty polls. The model translates a finite run of polled events.
- The channel sends of translated events become a sequence of delivered events.
- The chord construction and the key-name string constants are foreign. The first is a parameter; the second are the `Key` constructors.
- `fmt` and `log` output is left out; it has no effect on state.
- The 16-bit conversion of `color.RGBA.RGBA()` followed by the `uint8` truncation is left out. For the 8-bit pixels an `image.RGBA` stores, it gives back the stored bytes, so the draw-color call carries the pixel itself.
- `CopyRGBA` reads a source image passed by value. Aliasing between the source and the buffer is not modelled.
- `Surface.SdlBuffer.Clear`: the loop bounds are the buffer's extents. Go's `Bounds().Size()` would wrap them only for an extent of 2^63, and `image.NewRGBA` cannot allocate such a buffer. Failed allocation of huge buffers is not modelled.
- `Screen` and `EventChan` are left out. They only return the buffer and the event channel.
- `SdlWindow.Window.Size`: the native width and height are whatever the last applied size command set. No resizing by the user through the window system is modelled.
