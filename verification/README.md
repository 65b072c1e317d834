# rainbowgif, modelled in Dafny

`rainbowgif` tints every frame of an animated GIF with an overlay colour. The overlay shifts along a gradient over the length of the animation. The animation can be looped several times, so the gradient spreads over more frames. This project models the processing core of `main.go` and proves properties of it. The core has three parts:

- **Palette remap** (`prepareFrame`). An output frame shares the source frame's pixel buffer, stride and bounds. It gets a freshly allocated palette of the same length. Transparent entries, and entries the colour library cannot convert, are copied unchanged. Every other entry becomes the opaque (alpha 255) blend of the overlay colour and that entry.
- **Gradient colour parsing** (`parseGradientColors`). An empty string gives the built-in rainbow: red, orange, yellow, green, blue, violet. Otherwise the string is split on `,` and each piece, with `#` in front, must parse as a hex colour. Parsing is all or nothing: the first bad piece is named in the error.
- **Looping and the worker loop** (the processing part of `main`). There are `len(frames) * loop_count` output slots. Slot `i` is filled from source frame `i mod len(frames)` with overlay colour `i`. The delay and disposal arrays are cycled to the new length.

Modules, one per component, all from `main.go`:

- `Colors`: the types for palette entries and colours. It also holds `ColorLib`, the go-colorful operations and the program's `blendColor`, each passed in as a function.
- `Frames`: the paletted frame (a class) and the remap.
- `Gradient`: `strings.Split`, the default colours and the parser.
- `Scheduler`: the worker loop's counters, as written and as corrected. Each loop records the `prepareFrame` calls it would make.
- `Animation`: the GIF (a class), metadata cycling and the processing step `Transform`.

The floating-point colour maths is not modelled. `colorful.MakeColor`, `Clamped`, `RGB255`, `colorful.Hex`, `blendColor` and the gradient generator (`newGradient(...).generate`) become function-valued parameters. The model proves what the program does around them. It proves nothing about the colours they compute.

Two details of the code shape the model:

- All workers share the counters `frameIndex` and `normalizedFrameIndex` (main.go:153-174). They do not work on fixed, disjoint slot ranges. `Scheduler.ScheduleAsWritten` models these shared counters, read serially (one worker after another).
- Which hex strings are valid colours is decided by `colorful.Hex` (main.go:63), not by the program. Here that is the `hex` field of `ColorLib`, and nothing is assumed about which strings it accepts.

## Model

| member | source | states |
|---|---|---|
| `Colors.Alpha` | main.go:30 | The 16-bit alpha that `RGBA()` reports is zero exactly when the 8-bit alpha is zero, and it is 0xffff for alpha 255. |
| `Frames.Paletted.constructor` | main.go:141-144 | `new(image.Paletted)` gives an empty frame: no pixels, no palette, zero stride, zero bounds. |
| `Frames.Blended` | main.go:38-48 | A blended entry is always an NRGBA colour with alpha 255, whatever the blend computes. |
| `Frames.RemapEntry` | main.go:29-48 | An entry with alpha 0, or one the library cannot convert, is kept as it is. Any other entry becomes the opaque blend of the overlay with its clamped conversion. So the result is the old entry or an opaque one, and it is transparent exactly when the old entry was. |
| `Frames.RemapPalette` | main.go:27-49 | The new palette has the old palette's length, and entry i is the remap of old entry i. |
| `Frames.RemapKeepsTransparency` | main.go:30-48 | Across a whole palette, an entry becomes transparent exactly when it was transparent before. Every other entry is unchanged or fully opaque. |
| `Frames.PrepareFrame` | main.go:23-50 | The destination gets the source's pixel buffer (the same array), stride and bounds. Its palette is freshly allocated, as long as the source's, and equal to the remapped source palette. The source frame and its palette are unchanged. |
| `Gradient.Split` | main.go:60 | Splitting on `,` gives one piece per comma plus one, and no piece contains a comma. |
| `Gradient.JoinSplit` | main.go:60 | Joining the pieces of a split with the separator gives back the original string, so no character is lost or reordered. |
| `Gradient.SplitJoin` | main.go:60 | Splitting a join of comma-free pieces gives back exactly those pieces, empty ones included. |
| `Gradient.DefaultColors` | main.go:69-78 | The built-in gradient has six colours, all inside the unit colour cube. |
| `Gradient.DefaultColorsAreRainbow` | main.go:70-78 | The six default colours are, in order, the 8-bit colours (255,0,0), (255,127,0), (255,255,0), (0,255,0), (0,0,255) and (139,0,255). |
| `Gradient.ParseGradientColors` | main.go:56-82 | An empty string gives exactly the six default colours. Otherwise parsing succeeds exactly when every piece parses as a hex colour. On success there is one colour per piece, in input order. On failure no colours are returned, and the error names the first piece that did not parse, as "Invalid color: " followed by that piece. |
| `Scheduler.Budget` | main.go:149 | Each worker's budget is at least one slot, and the budgets of all workers together exceed the counted frames. |
| `Scheduler.ScheduleAsWritten` | main.go:149-175 | Read serially, the loop as written makes one `prepareFrame` call per output slot, in slot order, never past the last slot. Slot i reads source frame i mod n, because the wrapped counter equals the frame index mod n. All calls are made by the first worker. |
| `Scheduler.AsWrittenBudgetOverrun` | main.go:149-175 | Example: 3 source frames, loop count 2, 2 workers. The budget is 2 slots per worker, yet the first worker processes all 6 slots. |
| `Scheduler.Schedule` | main.go:149-175 | The corrected loop processes every slot exactly once, in order, and slot i reads source frame i mod n. Each job runs on a worker below `threads`. Worker w only gets slots in [w·b, w·b + b), where b is its budget, so it processes at most b slots. |
| `Animation.RepeatLength` | main.go:140 | Repeating the metadata k times multiplies its length by k. |
| `Animation.RepeatAt` | main.go:187-195 | Entry i of a sequence repeated k times is entry i mod its length. |
| `Animation.CycledIsRepeated` | main.go:187-199 | Filling `len(frames) * loopCount` slots with `old[i % len(old)]` gives the old metadata repeated `loopCount` times. |
| `Animation.Cycle` | main.go:187-195 | The rebuilt delay or disposal array has the requested length, and entry i is old entry i mod the old length. |
| `Animation.NewFrames` | main.go:141-144 | The new frame slice has the requested length, and its entries are freshly allocated frames, no two the same. |
| `Animation.PrepareAll` | main.go:149-185 | Running every job of the corrected schedule leaves output slot i holding source frame i mod n, tinted with overlay colour i. The output frames must be distinct from one another and from the source frames. |
| `Animation.WrapInt` | main.go:140 | Go's `int` arithmetic: the result lies in the 64-bit range, differs from the exact value by a multiple of 2^64, and equals it whenever the exact value is in range. |
| `Animation.FrameCountWraps` | main.go:140-141 | Example: 4 frames looped 2^62 + 1 times give a frame count of 4, and 3 frames looped 2^62 times give a negative frame count. |
| `Animation.Transform` | main.go:140-199 | The frame count is `len(frames) * loopCount`, wrapped as Go's `int`. When it is negative, `make` fails: the result is false and nothing changes. Otherwise the animation gets that many frames, each freshly allocated and all distinct. Slot i holds source frame i mod n tinted with gradient colour i, and delay and disposal entry i are old entry i mod n. When the product does not wrap, there are exactly `len(frames) * loopCount` frames, and the delays and disposal codes are the old ones repeated `loopCount` times. |

## Findings

| source | as written | input that shows it | evidently intended | confidence | as-written member | corrected member |
|---|---|---|---|---|---|---|
| main.go:149-175 | `processed` is never incremented, so the budget `framesPerThread` never stops a worker. Read serially, the first worker processes every slot and the other workers find nothing left. | 3 source frames, `loop_count` 2, `threads` 2: the budget is 3/2+1 = 2, yet worker 0 processes all 6 slots. | Each worker counts its slots and stops at its budget. The budget is taken from the output slot count, `len(newFrames)/threads + 1`, so the budgets still cover every slot. | not executed; medium | `Scheduler.ScheduleAsWritten`, `Scheduler.AsWrittenBudgetOverrun` | `Scheduler.Schedule` |

Why the corrected budget is computed from the output slot count: if only the increment were added, the budget would still come from `len(img.Image)`. With more than one loop, the slots past `threads * budget` would then never be processed. Example: 3 frames, `loop_count` 2, 1 thread: the budget is 4, but there are 6 slots.

## Left out

- Goroutines, the channel and the barrier (main.go:150-185). All workers increment the shared counters without synchronisation, which is a data race. Only the serial reading of the loop is modelled, one worker after another.
- Colour maths (`colorful.MakeColor`, `Clamped`, `RGB255`, `colorful.Hex`, `blendColor`, `newGradient`/`generate`, main.go:31-42, 63, 146-147). This is floating-point code in a library or in files not part of this model. These operations are parameters, and nothing is proved about their numeric results.
- Palette entry types other than `color.RGBA` and `color.NRGBA`. The GIF decoder fills palettes with `color.RGBA` only.
- Command-line handling: flags, the thread-count, loop-count and argument checks, and `os.Exit` (main.go:90-125). Format registration (main.go:86-88) is left out too. `Transform` requires what those checks establish: `threads >= 1` and `loopCount >= 1`.
- File and codec I/O (main.go:127-138, 201-215), including clearing `ColorModel` and `BackgroundIndex` before encoding (main.go:207-208). `Gif.Valid` states what the decoder guarantees: at least one frame, and one delay and one disposal code per frame.
- `staticImageTransform` (main.go:52-54) is an empty function.
- Transform: it uses the corrected `Schedule` rather than the loop as written. Both assign slot i to source frame i mod n and overlay colour i, so the frames produced are the same. Which worker handles which slot differs. `PrepareAll` also collects the jobs first and then calls `PrepareFrame` for each one, instead of interleaving the counters with the calls.
- Transform: when the wrapped frame count is negative, Go's `make` panics and the process stops. The model returns false and leaves the animation unchanged instead. A count that wraps to 0 leaves an animation with no frames, which the encoder would then be given. That encoding step is outside the model.
- Transform: it requires that the gradient generator returns exactly one colour per output slot. The program indexes `overlayColors[frameIndex]` and would fail otherwise.
- Transform: the output frames are built as a sequence of fresh objects rather than a slice that is allocated and then filled. A zero frame has empty arrays where Go has nil slices; their length (0) is the same.
- go-colorful's float64 colour components are modelled as exact reals. The default colours are exact fractions of 255, and no proved property depends on rounding.
- Go strings are byte strings; here they are `seq<char>`. Splitting on the one-byte separator `,` gives the same pieces either way.
