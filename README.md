# ascii-studio text pipeline, modelled in Dafny

ascii-studio is a browser tool that traces an image as ASCII art. It has two
ways of making text:

- The magic wand analyses the active character set into a table of glyphs
  sorted by density. It then walks the RGBA raster of the traced image in text
  cells and picks one glyph per cell. It can diffuse each cell's quantisation
  error into later pixels with Floyd-Steinberg or truncated Stucki weights.
- The fill action repeats a literal pattern. It builds the longest line that
  fits the image width and writes one copy of it per text row.

Around the two generators sit some small pieces of editor state:

- the custom character-set field, which de-duplicates itself and keeps the caret in place;
- the overwrite mode of the text layer;
- the eye button and opacity slider of the trace image;
- the wheel handler of the smooth scroller.

The model has one module per concern.

| module | what it models |
|---|---|
| `Numeric` | A byte type for raster channels. `Math.round`. The clamped store of a `Uint8ClampedArray`. Two arithmetic lemmas. |
| `Charset` | Set-based de-duplication. The caret remap loop. The custom character-set field as a class. |
| `Density` | The preset character sets and the empty-set fallback. The density table as a stable ascending sort. |
| `Dither` | `addError` as an in-place update of a byte array. The two kernels. The reconstructed value and the quantisation error. |
| `Compositor` | Glyph selection and the grid walk. The outer loop is `GenerateAscii`, the inner loop is `WalkRow` and the cell body is `CellStep`, all three working in place on the raster array. They are specified by the functions `Cell`, `Row` and `Grid`. |
| `Fill` | The greedy line builder and the row loop of `fillPattern`. |
| `Editor` | Overwrite mode, the opacity toggle and the scroll-target clamp. |

Numbers are exact `real`s. Raster channels are bytes, and every `+=` into the
raster goes through `ToUint8Clamp`: values at or below 0 become 0, values at
or above 255 become 255, and other values round to nearest with ties to even.
`measureText` is a parameter `advance: char -> real`, and the width of a
string is the sum of its characters' advances. Glyph densities are a parameter
`density: char -> real`. The line height is a positive integer.

Five behaviours of the code are easy to misread:

- `Math.round` sends halves up, so a luminance exactly between two ranks
  picks the higher rank, not the lower one (`Numeric.JsRound`,
  `Compositor.GlyphIndexNearest`).
- The empty-set fallback `"@# "` has three characters: `@`, `#` and a space
  (`Density.ActiveCharSet`).
- Horizontal kernel offsets are whole pixels (`xInt + 1`, `xInt + 2`), not
  cell widths. Only the offsets going down are one line height.
- The Stucki kernel keeps only the current row and the next text row. Its
  weights sum to 32/42, so 10/42 of the error is dropped (`Dither.KernelWeights`).
- The super-extended preset holds the space twice, so its table has two
  entries for it (`Density.SuperExtendedRepeatsSpace`).

## Model

| member | source | states |
|---|---|---|
| Numeric.JsRound | script.js:237 | `Math.round`: the result is within one half of its argument, and an exact half rounds up |
| Numeric.ToUint8Clamp | script.js:190-192 | a store into the clamped raster: at most 0 gives 0, at least 255 gives 255, otherwise the nearest integer, with an exact half going to the even neighbour |
| Charset.Dedup | script.js:133 | `[...new Set(val)].join('')`: each character is kept only when it is not kept already; it carries no contract of its own, and the lemmas below state what it computes |
| Charset.DedupSameChars | script.js:133 | the de-duplicated text has exactly the characters of the input and is never longer |
| Charset.DedupDistinct | script.js:133 | the de-duplicated text never repeats a character |
| Charset.DedupFirstOccurrenceOrder | script.js:133 | the kept characters appear in the order of their first occurrences in the input |
| Charset.DedupOfDistinct | script.js:133-135 | a text without repeats is its own de-duplication, so the field is rewritten only when it holds a repeat |
| Charset.DedupIdempotent | script.js:133 | de-duplicating twice gives the same as de-duplicating once |
| Charset.DedupPrefix | script.js:133 | the de-duplication of a prefix is a prefix of the de-duplication of the whole text |
| Charset.DedupCountsDistinct | script.js:133 | the de-duplicated length is the number of distinct characters |
| Charset.DedupExample | script.js:133 | `"aabc a"` de-duplicates to `"abc "` |
| Charset.CaretAfterDedup | script.js:142-149 | the caret count is the number of distinct characters before the old caret; it is at most the old caret and at most the new length; the new text up to the new caret is the de-duplication of the old text up to the old caret |
| Charset.CustomCharsInput.OnInput | script.js:128-152 | the field ends de-duplicated and free of repeats; with no repeat the selection is untouched; otherwise the selection collapses onto the remapped caret, with the same text in front of it as before, de-duplicated |
| Density.PresetChars | script.js:25-32 | every built-in preset is a non-empty character set |
| Density.SuperExtendedRepeatsSpace | script.js:28 | the super-extended preset has a space at positions 62 and 232 |
| Density.ActiveCharSet | script.js:197-198 | the preset's characters, or the custom text; `"@# "` when that is empty; never empty |
| Density.Entries | script.js:164-182 | one entry per character in set order: each entry is a set character with its own density, and every character has its entry |
| Density.SortByDensity | script.js:183 | the sort keeps the number of entries |
| Density.InsertByDensitySorted | script.js:183 | inserting into a sorted table keeps it sorted |
| Density.InsertByDensityPermutes | script.js:183 | inserting adds exactly that entry |
| Density.InsertByDensityTies | script.js:183 | an entry goes after every earlier entry of equal density |
| Density.SortByDensityIsStableSort | script.js:183 | the table is sorted ascending by density, is a permutation of its input, and lists entries of equal density in input order |
| Density.AnalyzeCharacters | script.js:155-184 | one entry per character of the set; sorted ascending; a permutation of the unsorted entries with ties in character-set order; each entry carries its character's density |
| Dither.InRasterInteger | script.js:188 | the guard written with the fractional row count `data.length / (4 * width)` accepts the same pixels as its integer form |
| Dither.AddAt | script.js:190-192 | a clamped `+=` at one index keeps the raster's length |
| Dither.AddErrorSpec | script.js:187-193 | `addError` on the raster's contents keeps its length |
| Dither.AddErrorFrame | script.js:187-193 | a pixel outside the raster, including one on a negative row, leaves it unchanged; only the three colour bytes of the target pixel can change; every alpha byte is kept |
| Dither.AddErrorWrites | script.js:189-192 | inside the raster: bytes `idx`, `idx + 1` and `idx + 2`, with `idx = (y * width + x) * 4`, each receive the clamped sum of their old value and `err * factor` |
| Dither.AddError | script.js:187-193 | the in-place update leaves the array equal to `AddErrorSpec` of its old contents |
| Dither.AddClamped | script.js:190-192 | one clamped `+=` into the array; a write outside the array changes nothing |
| Dither.Kernel | script.js:245-258 | "none" and only "none" has no taps; every tap has a positive weight and a column offset of at most two pixels |
| Dither.KernelWeights | script.js:245-258 | the Floyd-Steinberg weights sum to 1, the Stucki weights to 32/42, and "none" has no taps |
| Dither.KernelsForward | script.js:245-258 | every tap of both kernels points right on the same row or onto the next text row |
| Dither.DiffuseFrame | script.js:245-258 | diffusing from a cell keeps the raster's length and every alpha byte, and never changes a pixel at or before the cell |
| Dither.DiffuseTap | script.js:246 | one `addError` call of a kernel |
| Dither.DiffuseSpec | script.js:245-258 | the chained `addError` calls of a kernel keep the raster's length |
| Dither.Diffuse | script.js:239-259 | the `addError` calls of the selected kernel, in source order, leave the raster equal to `DiffuseSpec` of its old contents |
| Dither.Reconstruct | script.js:240-242 | `charVal`: the least dense glyph of the table stands for luminance 0 |
| Dither.ReconstructRange | script.js:240-242 | for a sorted table the reconstructed value lies in [0, 255]; it is 0 for every entry when all densities are equal (divisor 1); otherwise the least dense glyph reconstructs to 0 and the densest to 255 |
| Dither.QuantErrorRange | script.js:243 | the quantisation error of a luminance in [0, 255] lies in [-255, 255] |
| Compositor.Luminance | script.js:234 | the Rec. 709 luma of a pixel lies in [0, 255], and a grey pixel gives its own level |
| Compositor.GlyphIndex | script.js:236-237 | the chosen rank is always an index of the table |
| Compositor.GlyphIndexNearest | script.js:236-237 | for a luminance in [0, 255] the clamp never applies: the rank is `Math.round(gray / 255 * (N - 1))`, within a half of the exact position |
| Compositor.GlyphIndexEnds | script.js:236-237 | black picks the first (least dense) glyph and white the last |
| Compositor.GlyphIndexMonotone | script.js:236-237 | a brighter pixel never picks a lower rank |
| Compositor.GlyphIndexSingle | script.js:237 | a one-glyph table always picks that glyph |
| Compositor.Cell | script.js:227-260 | a cell's glyph is an entry of the table, and the raster keeps its length |
| Compositor.Step | script.js:264-265 | the cursor advances by at least one pixel |
| Compositor.Row | script.js:226-267 | the rest of one text row and the raster it leaves, of unchanged length |
| Compositor.Grid | script.js:222-269 | the rows from a row origin down and the raster they leave, of unchanged length |
| Compositor.GridRowCount | script.js:222-223 | from row origin y there are k rows, where k line heights fit in the remaining height and k + 1 do not: a partial last row is dropped |
| Compositor.RowCountIsQuotient | script.js:222-223 | the text has height / lineHeight rows |
| Compositor.RowLength | script.js:226-266 | a row starting at column x has at most as many glyphs as whole pixels remain, so the inner loop terminates |
| Compositor.RowLengthUnitSteps | script.js:226-266 | with every step exactly one pixel, a row from column k has width - k glyphs |
| Compositor.RowChars | script.js:226-262 | every character of a row is a glyph of the table |
| Compositor.GridRows | script.js:222-268 | every row has at most width glyphs, all of them from the table |
| Compositor.Text | script.js:262-268 | every row followed by `"\n"`; no contract of its own, see TextAppend and LinesOfText |
| Compositor.TextAppend | script.js:262-268 | the text of two lists of rows is their two texts one after the other |
| Compositor.LinesOfText | script.js:262-268 | joining rows that contain no line break, each followed by `"\n"`, and splitting the result at the breaks gives the rows back |
| Compositor.RowNoDitherKeepsRaster | script.js:239 | with dithering off a row leaves the raster unchanged |
| Compositor.GridNoDitherKeepsRaster | script.js:239 | with dithering off the whole walk leaves the raster unchanged |
| Compositor.CellKeepsAlpha | script.js:239-259 | a cell never alters an alpha byte |
| Compositor.RowKeepsAlpha | script.js:226-267 | a row never alters an alpha byte |
| Compositor.GridKeepsAlpha | script.js:222-269 | the walk never alters an alpha byte |
| Compositor.RowOfBlack | script.js:231-237 | on a black raster without dithering every glyph of a row is the least dense one |
| Compositor.GridStep | script.js:222-268 | the rows from y are the row at y followed by the rows from y + lineHeight, on the raster that row leaves |
| Compositor.CellStep | script.js:227-262 | the cell body returns the cell's glyph and leaves the raster as the cell's dithering leaves it |
| Compositor.WalkRow | script.js:224-267 | the inner loop builds exactly the row's text and leaves the raster as the row leaves it |
| Compositor.GenerateAscii | script.js:220-270 | the result is the rows of the grid, each ended by `"\n"`, and the raster ends as the whole walk leaves it |
| Compositor.MagicWand | script.js:196-270 | the table analysed from the active set has one entry per character: it is sorted, a permutation of the set's entries, with ties in character-set order; the text and the raster are those of the grid walk with that table |
| Fill.Cycle | script.js:307 | the first k characters of the endless repetition of the pattern |
| Fill.PatternOrDefault | script.js:286 | an empty pattern field falls back to `"-#"`; any other text is used as typed |
| Fill.OrDefault | script.js:287-288 | a zero natural size falls back to 800 by 600 |
| Fill.Copies | script.js:319-322 | k rows, each the fill line |
| Fill.TextWidth | script.js:299-308 | `measureText` of a string as the sum of its characters' advances; no contract of its own, see TextWidthAppend and TextWidthNonNegative |
| Fill.TextWidthAppend | script.js:299 | the width of two strings side by side is the sum of their widths |
| Fill.TextWidthNonNegative | script.js:299 | a string of characters with non-negative advances measures at least zero |
| Fill.CycleWidthMonotone | script.js:306-317 | a longer repetition is never narrower |
| Fill.FitBelowBound | script.js:306-317 | every repetition that fits is shorter than a bound, so the `while (true)` loop ends |
| Fill.FitCount | script.js:306-317 | the line length counted from any fitting start: the repetition of that length fits and one character more overshoots |
| Fill.FitLineIsLongest | script.js:306-317 | the fill line is the longest repetition that fits: every shorter repetition fits and every longer one overshoots |
| Fill.FitLine | script.js:304-317 | a repetition of the pattern that fits in the width, while one character more would not |
| Fill.FillLine | script.js:304-317 | the loop builds the fill line; it is a repetition of the pattern, fits in the width, and one more character would not fit |
| Fill.RepeatRows | script.js:319-322 | one copy of the line with a line break per whole line height that fits, so height / lineHeight copies |
| Fill.FillPattern | script.js:285-326 | a pattern of width 0 aborts with no text; otherwise the text is height / lineHeight copies of the fill line, each with a line break, using the default pattern and size where the inputs are empty |
| Fill.FillShape | script.js:306-322 | splitting the fill text at line breaks gives the copies back; the line fits and is the pattern repeated |
| Fill.DefaultPatternExample | script.js:286-317 | the default pattern with a 6-pixel `-` and an 8-pixel `#` in a 21-pixel width gives `"-#-"`: it stops where the next glyph would overshoot |
| Editor.SetRangeText | script.js:414 | the range is replaced by the text and the rest of the value is kept |
| Editor.OverwriteOneCharacter | script.js:412-414 | replacing the single character at the caret keeps the length and changes only that position |
| Editor.TakesOver | script.js:407-412 | a key the handler takes over is at a caret before the end of the text, and replacing one character with it keeps the length |
| Editor.TextLayer.constructor | script.js:403 | overwrite mode starts off, with the selection inside the text |
| Editor.TextLayer.OnKeyDown | script.js:403-417 | "Insert" flips the mode and changes nothing else; the key is taken over exactly when the mode is on and it is a single character without modifiers, at a collapsed caret before the end and not on a line break; then that one character is replaced and the caret moves past it; otherwise the text and the selection are untouched |
| Editor.Toggled | script.js:423-443 | a click flips visibility; hiding saves the current opacity and shows 0; showing restores the saved value |
| Editor.SliderMoved | script.js:449-457 | moving the slider shows the image at the new value and keeps the saved value |
| Editor.HideThenShow | script.js:428-437 | hiding and showing again restores the opacity the image had |
| Editor.ShowThenHide | script.js:428-437 | from hidden at 0, showing and hiding again returns to the same state |
| Editor.HiddenAtZeroKept | script.js:419-457 | every click and every slider move keeps the invariant "hidden means opacity 0" |
| Editor.OpacityControl.constructor | script.js:419-420 | starts visible, with the saved value equal to the slider's |
| Editor.OpacityControl.OnToggleClick | script.js:423-447 | the click handler moves the state exactly as `Toggled`, and the image shows the slider's value |
| Editor.OpacityControl.OnOpacityInput | script.js:449-457 | the input handler moves the state exactly as `SliderMoved`, and the image shows the slider's value |
| Editor.ClampScroll | script.js:500-501 | the target never goes below 0 nor past the maximum when the maximum is not negative; a target already in range is kept |
| Editor.ClampScrollIdempotent | script.js:500-501 | clamping twice is clamping once |
| Editor.ClampScrollMonotone | script.js:500-501 | clamping keeps the order of targets |
| Editor.WheelPixels | script.js:480-482 | a line counts 40 pixels, a page counts one client height, a pixel counts itself |
| Editor.WheelTargets | script.js:484-501 | both targets end in the scrollable range; Shift moves the horizontal target by the delta, otherwise the vertical one; the other axis is only clamped; the targets start from the current ones while animating and from the scroll position otherwise |
| Editor.WheelDownMonotone | script.js:480-501 | while an animation runs, from a vertical target in range, scrolling down by a non-negative delta never moves the target up |
| Editor.SmoothScroller.constructor | script.js:461-467 | the targets start at the element's scroll position, with no animation running |
| Editor.SmoothScroller.OnWheel | script.js:476-507 | the targets become those of `WheelTargets` and the animation is running |

## Left out

- Browser drawing: `fillText`, `getImageData`, `drawImage` with the brightness, contrast and blur filter, and `measureText` are calls the model cannot see. The densities, the filtered RGBA raster and the per-character advances are inputs.
- The density measurement of `analyzeCharacters` (script.js:156-181): the analysis canvas, its size `ceil(fontSize * 1.5)` and the luminance average over it. `density` is an input function.
- Floating point: all arithmetic is on exact reals, so rounding error in the luminance, the index and the widths is not modelled. `NaN` (a `parseFloat` of a non-number spacing) is not modelled either.
- Compositor.Step: measureText on a single character is the `advance` parameter.
- Fill.TextWidth: a string's width is the sum of its characters' advances, so kerning is not modelled. Fill.FillPattern's zero-width abort (script.js:299-300) therefore fires exactly when every pattern character has advance 0, advances being non-negative.
- Charset.Dedup, Compositor.Text and Fill.TextWidth carry no contract of their own, because an ensures on them makes the proofs about literal strings and long rows too costly; what they compute is stated by the Dedup lemmas, LinesOfText, TextAppend, TextWidthAppend and TextWidthNonNegative.
- Compositor.GenerateAscii: the line height is a positive integer. A fractional line height, whose writes to non-integer typed-array indices the browser drops, is not modelled.
- Dither.AddError: the guard `y >= data.length / (4 * width)` is modelled by its integer form `InRaster`. `InRasterInteger` proves the two equal, and `InRasterAsWritten` keeps the fractional form.
- Compositor.GlyphIndex: the product `gray / 255 * (N - 1)` is written as a repeated sum `Scaled`, and `ScaledIsProduct` proves it equal to the product.
- Strings are sequences of code points. The UTF-16 indexing of `val[i]` and `pattern[pIdx % pattern.length]` against the code-point iteration of `new Set(val)` is not modelled.
- Density.AnalyzeCharacters: the host's `Array.prototype.sort` is replaced by an insertion sort with the same contract, stable and ascending by density.
- Editor.TextLayer.OnKeyDown: when the handler does not cancel the key, the browser's own editing (the default insertion) is not modelled; the contract only says the handler leaves the text alone.
- Editor.OpacityControl.OnToggleClick: the eye icon, the `btn-toggled-off` class, the `val-opacity` label and the lucide redraw are DOM output and are not modelled.
- Editor.SmoothScroller.OnWheel: `preventDefault` and `requestAnimationFrame` are not modelled; the `animate` and `lerp` easing loop (script.js:509-529) is timer-driven float convergence and is not part of the model.
- DOM and event wiring, CSS-variable bindings and zoom sizing (script.js:56-126), FileReader image loading (script.js:96-113), the confirmation modal and `isoOverWriteNeeded` (script.js:328-362), clipboard, download, icons and timers (script.js:365-398), and the character-count readout are UI and I/O plumbing.
