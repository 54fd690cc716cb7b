# wl-ambilight colour core in Dafny

wl-ambilight drives an 85-LED strip glued around a monitor bezel. Once per
tick it captures the screen and calls `computeColors`. That routine cuts a
band of `Depth` pixels along the screen border into one sampling window per
LED, in the order the strip is wired. It averages each window channel by
channel and writes the averages as R, G, B bytes into the colour region of
the process-wide serial frame `|Header|RGBRGB...|Footer|`. Header and footer
are copied in once at startup.

The model has four modules:

- `LedLayout` (`led_layout.dfy`): the LED counts of the five runs, their
  total, the framing text, and the wiring order. It also maps slots
  (run, position on the run) to strip indices.
- `Geometry` (`geometry.dfy`): the two pitches `Width / (LedsTop + 2)` and
  `Height / (LedsLeft + 2)`, and the window formula of every run's loop
  (`ZoneWindow`). It proves that every window lies inside the image and that
  each loop walks its run in the strip's direction.
  - Windows are pairwise disjoint when the band is shallow (`ShallowBand`).
    At the program's band depth this holds on 4:3 screens such as
    1024 x 768.
  - On wide screens, such as every 16:9 screen of at least 1280 x 720, the
    program's band is deeper than both pitches. There the last bottom-right
    window and the first right window share pixels.
  - The 1920 x 1080 instance is worked out.
- `Reduce` (`reduce.dfy`): channel extraction from a 32-bit pixel (R bits
  0-7, G 8-15, B 16-23) and the window's pixels in loop order.
  - The truncating average `Average`, black for an empty window.
  - The nested row/column summing loops, as the methods `SumWindow` and
    `AddRow`, proved against the channel sums.
  - `Colors`, the colour of every slot in wiring order.
- `Frame` (`frame.dfy`): the frame buffer as the class `SerialFrame`,
  holding a fixed `array` of bytes.
  - `ComputeAverageAndPush` (the lambda), `PushSlot` (one loop iteration),
    `PushRun` (one run's loop) and `ComputeColors` write in place through a
    cursor.
  - Each method's contract states the new frame as the old frame with
    `Overwrite` applied at the cursor. `ComputeAverageAndPush` and
    `PushSlot` write one colour's triple. `PushRun` writes the encoding of
    one run's colours. `ComputeColors` writes `Encode(Colors(...))` over the
    whole colour region.
  - `Encode` and `Decode` are the byte layout of the colour region and its
    reading back.

The header and footer are as long as a pointer in the source, because
`sizeof` is applied to `char const *`. The model therefore keeps their
lengths as the symbolic constants `headerLen` and `footerLen`, chosen when
the frame is constructed. Every placement property is stated relative to
them.

## Model

| member | source | states |
|---|---|---|
| LedLayout.LedsTotalIs85 | arduino/led_layout.hpp:15-21 | the total is the sum of the five run counts in wiring order, and it is 85 |
| LedLayout.LayoutSymmetric | arduino/led_layout.hpp:15-19 | left and right runs have equal counts, and so do the two bottom runs (the consumer's static asserts) |
| LedLayout.FooterReversesHeader | arduino/led_layout.hpp:23-25 | the footer text "BMAW" is the character reverse of the header text "WAMB", and the reverse of the footer is the header |
| LedLayout.ZoneOffsets | arduino/led_layout.hpp:3-21 | along the strip the runs come bottom-right, right, top, left, bottom-left; each run starts where the previous one ends, and the last one ends at LedsTotal |
| LedLayout.SlotAt | arduino/led_layout.hpp:13-21 | every strip index below LedsTotal is the index of a valid slot |
| LedLayout.SlotRoundTrip | arduino/led_layout.hpp:13-21 | a valid slot's strip index is below LedsTotal and maps back to that slot: slots and indices correspond one to one |
| Geometry.HorizontalPixelsPerLed | src/service.cpp:58 | the horizontal pitch p is the largest with LedsTop + 2 = 37 pitches fitting in the width: 37p <= Width < 37(p + 1) |
| Geometry.VerticalPixelsPerLed | src/service.cpp:61 | the vertical pitch p is the largest with LedsLeft + 2 = 21 pitches fitting in the height: 21p <= Height < 21(p + 1) |
| Geometry.ZoneWindow | src/service.cpp:63-94 | when the band fits the image, every window of every run lies inside it, so no coordinate subtraction underflows and every index Row * Width + Col read is below Width * Height |
| Geometry.ZoneWindows | src/service.cpp:63-94 | one run's loop yields one window per LED of the run |
| Geometry.Partition | src/service.cpp:63-94 | the five loops yield LedsTotal windows, every one inside the image |
| Geometry.PartitionAt | src/service.cpp:63-94 | the window at strip position SlotIndex(s) of the partition is slot s's window from its run's formula |
| Geometry.RunDirection | src/service.cpp:63-94 | for i < j on one run, window j comes after window i in the direction of the loop's comment: bottom runs left to right, right run bottom to top, top run right to left, left run top to bottom (RunWindowsDisjoint draws the no-shared-pixel consequence) |
| Geometry.RunWindowsDisjoint | src/service.cpp:63-94 | two different LEDs of the same run never share a pixel, whatever the band depth, even on screens where the corner windows of neighbouring runs overlap |
| Geometry.InsideRunBox | src/service.cpp:63-94 | every window of a run lies in that run's strip of the border |
| Geometry.BoxesSeparated | src/service.cpp:63-94 | when the band is no deeper than the vertical pitch and at most half the width, or no deeper than the horizontal pitch and at most half the height, the strips of two different runs are apart |
| Geometry.WindowsDisjoint | src/service.cpp:63-94 | under the same shallow-band condition, the windows of two different slots share no pixel |
| Geometry.CornerOverlap | src/service.cpp:63-76 | when the band is deeper than both pitches and neither pitch is 0, the band is not shallow and the last bottom-right window and the first right window share a pixel |
| Geometry.WideScreenOverlap | src/service.cpp:22-23 | with the program's band of 0.02 * (Width + Height) pixels, truncated, on a screen with 21 Width > 29 Height + 1050 and 37 Height > 13 Width + 1850, the band is not shallow and those corner windows overlap |
| Geometry.XgaDisjoint | src/service.cpp:22-94 | at 1024 x 768 with the program's band of 35 pixels the pitches are 27 and 36, and no two slots share a pixel |
| Geometry.FullHdWindows | src/service.cpp:58-94 | at 1920 x 1080 with a 60-pixel band both pitches are 51; bottom-right slot 0 samples columns [1563, 1614) of rows [1020, 1080); the first windows of the other runs are given too |
| Geometry.FullHdCornerOverlap | src/service.cpp:64-77 | at 1920 x 1080 the 60-pixel band is deeper than a pitch, and bottom-right slot 5 and right slot 0 both sample pixel (1020, 1860) |
| Reduce.ChannelBits | src/service.cpp:39-41 | a channel extracted by shift and mask is at most 0xFF |
| Reduce.ChannelValue | src/service.cpp:39-41 | the value added to a channel sum for one pixel is below 256 |
| Reduce.PackBits | src/service.cpp:39-41 | shifting a packed word right by 0, 8 or 16 and masking with 0xFF gives back the byte packed at bits 0-7, 8-15 or 16-23 |
| Reduce.PackRoundTrip | src/service.cpp:38-41 | the colour read from a word packed from R, G, B and any top byte is (R, G, B): R is bits 0-7, G bits 8-15, B bits 16-23, and the top byte is ignored |
| Reduce.TopByteIgnored | src/service.cpp:38-41 | pixels equal in their low 24 bits have equal R, G and B |
| Reduce.ColorsIgnoreTopByte | src/service.cpp:38-41 | images equal in the low 24 bits of every pixel give the same colour for every LED |
| Reduce.RowSliceInBounds | src/service.cpp:38 | a row segment inside the image has all of its indices Row * Width + Col below Width * Height |
| Reduce.RowSegment | src/service.cpp:36-38 | the column loop of one row reads ColCount pixels |
| Reduce.WindowPixelsLength | src/service.cpp:34-44 | the loops visit RowCount * ColCount pixels |
| Reduce.WindowPixelsAt | src/service.cpp:34-38 | the pixel read at row i, column j of the window comes i * ColCount + j pixels into the loops' order and is Img[(RowStart + i) * Width + ColStart + j] |
| Reduce.RowSliceAt | src/service.cpp:36-38 | the j-th pixel read on a row is the image pixel at that row and column ColStart + j |
| Reduce.WindowPixelsInside | src/service.cpp:34-38 | every pixel the loops read lies inside the window: if all of the window has colour c, so has every pixel read |
| Reduce.RowsSumIsChannelSum | src/service.cpp:34-44 | summing row by row, then column by column, gives each channel's sum over the window's pixels |
| Reduce.AddRow | src/service.cpp:36-43 | the column loop adds the channel values of the ColCount pixels of one row to R, G, B and adds ColCount to TotalPixels |
| Reduce.SumWindow | src/service.cpp:30-44 | after the row loop R, G and B are the channel sums over the window's pixels and TotalPixels is their number |
| Reduce.Mean | src/service.cpp:46-51 | for a non-empty window a channel's value m is the truncated quotient of the channel sum by the pixel count: m * n <= sum < (m + 1) * n |
| Reduce.Average | src/service.cpp:46-51 | a window with no pixels yields black, as no division happens; the contract states only this empty case; the non-empty case, each channel being its Mean, comes from the body and is used through AverageOfSums and AverageBySums |
| Reduce.AverageWindow | src/service.cpp:30-51 | the sums of the row loop divided by TotalPixels, when it is not zero, are the window's average colour |
| Reduce.AverageBySums | src/service.cpp:46-51 | each channel of the LED colour is the row-by-row sum divided by RowCount * ColCount, truncated; the sum is 0 and no division happens when the window is empty |
| Reduce.AverageBetween | src/service.cpp:46-55 | each channel of the average lies between the least and the greatest value of that channel in the window; in particular it fits the byte it is stored in |
| Reduce.AverageOfUniform | src/service.cpp:39-51 | a non-empty sequence of pixels of one colour averages to exactly that colour |
| Reduce.UniformWindow | src/service.cpp:27-51 | a non-empty window whose every pixel has colour c yields c |
| Reduce.AverageOfEmpty | src/service.cpp:46-55 | a window with no rows or no columns yields (0, 0, 0) |
| Reduce.ZeroDepthIsBlack | src/service.cpp:46-55 | with a band of depth 0 every LED is black |
| Reduce.NarrowImageBlackRuns | src/service.cpp:58-69 | an image narrower than LedsTop + 2 pixels has horizontal pitch 0, so every LED of the bottom and top runs is black |
| Reduce.RunColors | src/service.cpp:63-94 | each run's loop yields one colour per LED of the run |
| Reduce.Colors | src/service.cpp:63-94 | the five loops yield exactly LedsTotal colours |
| Reduce.ColorsAt | src/service.cpp:63-94 | the colour at strip index SlotIndex(s) is the average of slot s's window: its run's formula, and the partition's window at that index |
| Frame.Triple | src/service.cpp:53-55 | one colour is stored as three bytes |
| Frame.Encode | src/service.cpp:53-55 | the colour region holds three bytes per colour |
| Frame.DecodeEncode | arduino/led_layout.hpp:23 | reading the colour region back as RGB triples gives the colours that were written |
| Frame.EncodeAt | src/service.cpp:53-55 | slot k's colour occupies bytes [3k, 3k + 3) of the colour region, in R, G, B order |
| Frame.EncodeAppend | src/service.cpp:63-94 | the encoding of the runs one after another is the runs' encodings one after another |
| Frame.OverwriteParts | src/service.cpp:25-55 | writing the colour region from the cursor leaves every byte before and after it as it was |
| Frame.OverwriteTwice | src/service.cpp:53-55 | filling the colour region twice leaves only the second fill; filling it twice with the same colours equals filling it once |
| Frame.SlotBytes | src/service.cpp:25 | after the colour region at headerLen is filled, slot k's triple is at headerLen + 3k |
| Frame.SlotInFrame | src/service.cpp:20-95 | after computeColors, the three bytes at headerLen + 3 * SlotIndex(s) are the average colour of slot s's window |
| Frame.PayloadDecodes | src/service.cpp:20-95 | the colour region after computeColors decodes to the LedsTotal slot colours in wiring order |
| Frame.SerialFrame.constructor | src/service.cpp:18 | the buffer holds header, 3 * LedsTotal colour bytes and footer, and is zero-filled like static storage |
| Frame.SerialFrame.WriteFraming | src/service.cpp:183-186 | the header is copied to the front and the footer to the back, and the colour region is untouched |
| Frame.SerialFrame.ComputeAverageAndPush | src/service.cpp:27-56 | the three bytes at the cursor become the window's average colour, nothing else changes, and the cursor advances by 3 |
| Frame.SerialFrame.PushSlot | src/service.cpp:63-94 | one iteration of a run's loop writes LED id's colour, the average of the run's window for id, as the triple at the cursor; nothing else changes and the cursor advances by 3 |
| Frame.SerialFrame.PushRun | src/service.cpp:63-94 | one run's loop writes the run's colours as consecutive triples from the cursor, nothing else changes, and the cursor advances by 3 per LED |
| Frame.SerialFrame.ComputeColors | src/service.cpp:20-95 | the colour region becomes the encoding of all LedsTotal colours in wiring order; header and footer are unchanged, so they stay as main wrote them across any number of ticks |

## Left out

- The float computation of `Depth` as `0.02f * (Width + Height)`,
  truncated. `depth` is a parameter. The methods require
  `depth <= width && depth <= height`. The source behaves differently in
  the two excluded cases (the band is at most `(Width + Height) / 50`, so
  at most one of them can occur):
  - `Depth > Height`: `Height - Depth` wraps, and `RowStart + RowCount`
    wraps back to `Height`, so the bottom runs' row loop runs zero times
    and their LEDs are black. The top run reads rows `[0, Depth)`, past the
    last row, beyond `Width * Height`.
  - `Depth > Width` (which needs `Height > 49 * Width`): `Width - Depth`
    wraps, and `ColStart + ColCount` wraps back to `Width`, so the right
    run's column loop runs zero times and its LEDs are black. The left
    run's columns `[0, Depth)` run on into the next row's pixels. When
    `Width >= 1` they stay inside the image. When `Width == 0` the image
    is empty, and these reads are out of bounds.
  `WideScreenOverlap` assumes only `Width + Height <= 50 * depth + 50`.
  The float product can fall just short of a whole number, so this bound
  allows for it.
- `uint32_t` wrap-around of the accumulators `R`, `G`, `B` and
  `TotalPixels`, and of `Width + Height`. Sums are unbounded naturals.
  Wrap-around needs a window of more than about 16.8 million pixels.
- The byte contents of the header and footer. `main` copies pointer-size
  bytes out of the 5-byte literals "WAMB" and "BMAW", which reads past their
  end. `WriteFraming` takes the copied bytes as arguments of the right
  length. The model proves only that `ComputeColors` never touches them.
- Reading and writing the frame through raw pointers. The image is a
  `seq<bv32>` of `Width * Height` words. The pixel format, row stride and
  memory mapping of the capture are not part of this model.
- The capture session (`wayland/capture.cpp`, `wayland/capture.hpp`), serial
  port setup and locking, argument parsing, the tick timer and the `write`
  of the frame to the serial port (`src/service.cpp:97-205`, apart from the
  header/footer copy). These are I/O and foreign calls.
- The five zone loops are one method, `PushRun`, parameterised by the run.
  Each run's window formula is the matching case of `Geometry.ZoneWindow`.
- The column loop of the lambda is the separate method `AddRow`. The row
  loop, `SumWindow`, calls it once per row.
- Frame.SerialFrame.ComputeColors: the write cursor `It` is local to the
  method and is not returned. How far it advances is stated by `PushRun`'s
  `next`.
