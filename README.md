# Batch image processor core, modelled in Dafny

This project models the pixel-level core of `main0.c`, a batch image
processor. Three things are modelled. The first is the transforms on an
interleaved byte buffer of `width * height * channels` bytes: grayscale,
horizontal flip and vertical flip. The second is the console loop that
toggles the greyscale, sepia, horizontal-flip and vertical-flip flags. The
third is the per-image decisions in `main`: which buffer and channel count
reach the writer, and which writer the file name selects.

Modules, one per concern:

- `Layout`: the `Byte` type, pixel offsets `Idx(w, c, y, x, ch) = (y*w + x)*c + ch`, and `Coords`, which inverts `Idx`.
- `Flips`: `ApplyHFlip` and `ApplyVFlip` work in place on an `array<Byte>`. Each is proved equal to a specification function: `HFlipped` or `VFlipped`, each an index map on the bytes. Lemmas give the position mapping, the involutions, and that the two flips commute.
- `Grayscale`: `ApplyGrayscale` works out of place. It is proved equal to `Grayscaled`, with per-pixel lemmas (the average of red, green and blue; alpha kept).
- `Selection`: the flag-toggle loop. `SelectOperations` is the loop over a token sequence. `Step` and `Selected` are its specification.
- `Output`: the file extension, as `strrchr` finds it, and the choice between the PNG writer, the JPEG writer and no writer.
- `Pipeline`: one image's processing from the decoded buffer to the buffer handed to the writer (`ProcessImage`, specified by `Processed`).

Console input is a `seq<string>` of tokens. The decoded image is an
`array<Byte>` with its width, height and channel count. The sepia filter's
output is a parameter.

## Model

| member | source | states |
|---|---|---|
| Layout.Coords | main0.c:50-51 | every byte offset below `w*h*c` is `(y*w + x)*c + ch` for some row `y < h`, column `x < w`, channel `ch < c` |
| Layout.CoordsOfIdx | main0.c:50-51 | the offset of an in-range (row, column, channel) lies inside the buffer, and `Coords` recovers that triple, so distinct pixels occupy distinct bytes |
| Flips.HMirror | main0.c:50-51 | the byte mirrored onto byte `k` is in the buffer and sits in the same row and channel, at column `w - 1 - x` |
| Flips.HMirrorTwice | main0.c:48-57 | mirroring a byte position twice returns it |
| Flips.HFlipped | main0.c:46-59 | a horizontally flipped buffer has the length of the original |
| Flips.HFlippedAt | main0.c:48-57 | after a horizontal flip, pixel (y, x) holds old pixel (y, w-1-x), in every channel |
| Flips.HFlipKeepsCentre | main0.c:49 | for an odd width, the centre column is unchanged |
| Flips.HFlipInvolution | main0.c:46-59 | flipping horizontally twice restores the buffer |
| Flips.ApplyHFlip | main0.c:46-59 | the nested row, pixel-pair and channel swap loops leave the array equal to `HFlipped` of its old contents; the length is unchanged |
| Flips.VMirror | main0.c:65-67 | the byte moved onto byte `k` is in the buffer and sits at the same column and channel, in row `h - 1 - y` |
| Flips.VMirrorTwice | main0.c:65-67 | reversing the row order of a position twice returns it |
| Flips.VFlipped | main0.c:62-71 | a vertically flipped buffer has the length of the original |
| Flips.VMirrorRow | main0.c:66-67 | byte `i` of row `y` comes from byte `i` of row `h - 1 - y`, and both are in the buffer |
| Flips.VFlippedRow | main0.c:65-69 | after a vertical flip, row `y` equals old row `h-1-y` byte for byte |
| Flips.VFlippedAt | main0.c:65-69 | after a vertical flip, pixel (y, x) holds old pixel (h-1-y, x), in every channel |
| Flips.VFlipInvolution | main0.c:62-71 | flipping vertically twice restores the buffer |
| Flips.FlipsCommute | main0.c:149-150 | the horizontal and the vertical flip commute |
| Flips.ApplyVFlip | main0.c:62-71 | copying rows bottom-up into a scratch array and back leaves the array equal to `VFlipped` of its old contents |
| Grayscale.GrayChannels | main0.c:138 | grayscale output has 1 or 2 channels, and has 2 exactly when the input has 4 |
| Grayscale.Average | main0.c:27 | the gray value is the mean of red, green and blue rounded down; it lies between their minimum and maximum, and equals `v` when all three are `v` |
| Grayscale.Grayscaled | main0.c:22-30 | the grayscale buffer of `n` pixels has `n * GrayChannels(c)` bytes |
| Grayscale.GrayscaleAt | main0.c:24-29 | output pixel `i` holds `(R+G+B)/3` of input pixel `i` and, for 4-channel input, its alpha |
| Grayscale.GrayscaleOfUniform | main0.c:27-28 | a buffer whose pixels all have R=G=B=v turns into gray value v at every pixel, and for RGBA input each pixel keeps its alpha |
| Grayscale.ApplyGrayscale | main0.c:22-30 | the per-pixel loop fills the output array with `Grayscaled` of the input; the input array is not modified |
| Selection.Step | main0.c:86-96 | "gs" and "sp" leave greyscale and sepia not both set; "gs" toggles greyscale and clears sepia only when greyscale becomes set, "sp" likewise the other way round; "hf" and "vf" flip only their own flag; an unrecognised command changes nothing |
| Selection.SelectedExclusive | main0.c:85-98 | after any command sequence, greyscale and sepia are not both selected |
| Selection.SelectedStopsAtConfirm | main0.c:85 | commands after the first "confirm" have no effect |
| Selection.SelectedFlipParity | main0.c:94-95 | each flip flag ends up set exactly when its command occurred an odd number of times before "confirm" |
| Selection.SelectOperations | main0.c:80-98 | the loop over the tokens yields `Selected(NoOperations, tokens)`, in which greyscale and sepia are exclusive |
| Selection.EndOfInputKeepsLoopingAsWritten | main0.c:85 | the guard as written stays true when `scanf` returns EOF and the last token was not "confirm" |
| Selection.EndOfInputTogglesForever | main0.c:85-95 | once the input has ended with "hf" as the last token, each further pass of the loop body toggles the horizontal flip again, so the flags never settle |
| Selection.EndOfInputStops | main0.c:85 | the intended guard is false at EOF and agrees with the written one when a token was read |
| Output.LastIndexOf | main0.c:17 | the result is the position of the last occurrence of the character, or none when the character does not occur |
| Output.FileExtension | main0.c:16-19 | the extension is a dot-free suffix of the name. It is empty when the name has no dot after its first character. Otherwise the character before it is a dot that is not the first character |
| Output.ExtensionOfJoined | main0.c:16-19 | `base + "." + ext`, with a non-empty base and a dot-free `ext`, has extension `ext` |
| Output.FormatFor | main0.c:164-169 | "png" selects PNG; "jpg" and "jpeg" select JPEG; any other extension selects no writer |
| Output.WriteFor | main0.c:164-169 | the writer is chosen by the name's extension and gets the processed width, height and channel count; PNG gets stride `w * oc`, JPEG gets quality 100 |
| Output.WriteForJoined | main0.c:160-169 | the writer of `base + "." + ext` is the one `FormatFor(ext)` selects |
| Output.WriterOfPngName | main0.c:164-165 | a `.png` name gets the PNG writer with stride width times output channels |
| Output.WriterOfUpperPngName | main0.c:164-169 | a `.PNG` name gets no writer, because the comparison is case-sensitive |
| Output.WriterOfJpegNames | main0.c:167-168 | a name ending in `.jpg` or `.jpeg` (any non-empty base) gets the JPEG writer with the processed width, height and channel count at quality 100 |
| Pipeline.ColourStageOverrunsAsWritten | main0.c:137-147 | as written, greyscale on a 1- or 2-channel image reads the last pixel's blue byte at or past the end of the buffer |
| Pipeline.RecolourReadsInBounds | main0.c:24-27 | with the colour stage limited to 3 or 4 channels, every red, green and blue read is inside the buffer |
| Pipeline.OutputChannels | main0.c:128-138 | the output channel count is between 1 and the input count. It differs from the input count only when greyscale applies. Greyscale gives 2 channels for RGBA input and 1 for RGB input |
| Pipeline.Flipped | main0.c:149-150 | applying the selected flips keeps the buffer length |
| Pipeline.FlippedAt | main0.c:149-150 | the selected flips move pixel (sy, sx) to (y, x); each coordinate is mirrored exactly when its flip is selected |
| Pipeline.Processed | main0.c:127-150 | the buffer handed to the writer has `w * h * OutputChannels` bytes |
| Pipeline.ProcessedGrayPixel | main0.c:137-150 | with greyscale, the written gray value at (y, x) is the gray value of the decoded pixel that the flips move there |
| Pipeline.ProcessedAlphaPixel | main0.c:137-150 | with greyscale on RGBA input, the written alpha at (y, x) is the alpha of the decoded pixel that the flips move there |
| Pipeline.ProcessedWithoutColour | main0.c:127-128 | without greyscale or sepia the channel count is unchanged; with no operation at all the buffer is unchanged |
| Pipeline.FlipsOnlyUndo | main0.c:149-150 | with only flips selected, processing the result again restores the decoded buffer |
| Pipeline.ProcessImage | main0.c:127-150 | the result equals `Processed` of the old decoded buffer, with `OutputChannels` channels. Without a colour stage it is the decoded array itself. Otherwise it is a fresh array, and the decoded array is unchanged |

## Left out

- `apply_sepia` (main0.c:33-43) computes in floating point with `fmin`. Its output buffer is a parameter of `Pipeline.Processed` and `Pipeline.ProcessImage`; its values are not modelled.
- The OpenMP constructs are modelled by the sequential meaning of each loop: the parallel loops, the task loops, the thread count and the timers. Concurrency is not modelled.
- The batch loop over the command-line names is not modelled, and neither are path building, `stbi_load`, its failure branch, `stbi_write_png`, `stbi_write_jpg` or `stbi_image_free`. Only the choice of writer and its arguments is modelled (`Output.WriteFor`). The encoding itself is not.
- Console output is not modelled: the prompts, "Invalid operation." and the chosen-flags line.
- `malloc` failure is not modelled, for example a NULL scratch buffer in `apply_vflip`. Allocation in Dafny does not fail.
- Integer overflow of `width * height * channels` in C `int` is not modelled. Integers are unbounded, and every buffer length is stated as that product.
- `char input[8]` overflows for tokens of eight or more characters. This is not modelled: a token is any string.
- Grayscale.ApplyGrayscale: takes 3 or 4 input channels and `GrayChannels(c)` output channels, which is what `main` passes. Other output channel counts would leave bytes unwritten and are not modelled.
- Rotation and transposition are not in main0.c and are not modelled.

## Findings

| source | as written | input that shows it | evidently intended | confidence | as-written member | corrected member |
|---|---|---|---|---|---|---|
| main0.c:85 | The loop continues while `scanf` returns non-zero. EOF is -1, so at end of input the loop keeps the previous token and toggles that flag forever | console input `hf` followed by end of input, with no "confirm" | stop reading at end of input | high; not executed | Selection.EndOfInputTogglesForever | Selection.SelectOperations |
| main0.c:137-147 | Greyscale or sepia runs for any channel count. `apply_grayscale` reads the red, green and blue bytes of every pixel | a 1-channel (gray) PNG of one pixel, with "gs" selected: the blue byte is read at offset 2 of a 1-byte buffer | run the colour stage only on RGB or RGBA input, and otherwise keep the decoded buffer | medium; not executed | Pipeline.ColourStageOverrunsAsWritten | Pipeline.ProcessImage |
