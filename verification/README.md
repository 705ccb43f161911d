# PDF tools: page selection, watermark placement and file-name display

This project models the part of the browser PDF toolkit (`js/script.js`) that
makes its own decisions instead of delegating to pdf-lib, jsPDF or the DOM:

- **Watermark placement** (`Placement`): the text footprint is estimated as
  `length × size × 0.5` wide and `size` high. The position drop-down then
  fixes the draw origin. The four corners sit a 20-unit margin in from the
  page edges they name. Every other value, `"center"` included, centres the
  footprint on the page.
- **Watermark colour** (`Colour`): `#rrggbb` is cut into three
  two-character slices, each read with `parseInt(…, 16)` and divided by 255.
- **Page numbers** (`Pages`): split and delete read the typed page number
  with `parseInt`. They reject `NaN`, 0 and negatives before loading the
  file, and numbers past the page count after loading it. An accepted
  number `n` selects index `n - 1`.
- **Page effects** (`Pages`): merge concatenates the pages of at least two
  files in selection order. Split keeps the one requested page. Delete
  drops it and keeps every other page in order. Rotate adds the chosen
  angle to each page's recorded angle. Watermark draws the trimmed text
  once on every page.
- **Selection line** (`Display`): the "Selected: …" text. Names are joined
  with `", "`. If the result is longer than 50 characters it is cut to 50
  characters plus `"..."`. The merge tool also appends ` (n files)`.

The JavaScript built-ins these pieces rely on are modelled in `JsText`:
`parseInt` with and without radix 16, `trim`, `substring`, and the decimal
text of a count. pdf-lib is opaque. A loaded document is a sequence of
`Page` values. A file pdf-lib cannot load is `Unreadable`, and the tool
then ends in its `catch` arm (`LoadFailed`).

Files: `wrappers.dfy` (Option/Result), `js_text.dfy`, `colour.dfy`,
`placement.dfy`, `pages.dfy`, `display.dfy`.

The watermark code checks only that the trimmed text is non-empty
(js/script.js:599-604). It computes a placement for any page size and font
size, so `Placement.Place` is total.

## Model

| member | source | states |
|---|---|---|
| Placement.Place | js/script.js:624-654 | Left anchors put the footprint's left edge at the margin and right anchors put its right edge one margin from the page's right edge. Bottom anchors put its bottom at the margin and top anchors put its top one margin below the page top. Every other position puts the footprint's centre on the page centre. |
| Placement.BottomLeftIsFixed | js/script.js:641-644 | Bottom-left is (20, 20) for every page size, text length and font size. |
| Placement.TopRightExample | js/script.js:637-640 | On a 200×300 page, 6 characters at size 40 anchored top-right give the origin (60, 240). |
| Placement.AnchorsShareEdges | js/script.js:632-648 | Both top anchors share one y and both bottom anchors another. Both left anchors share one x and both right anchors another. |
| Placement.AnchorsMirror | js/script.js:633-648 | Left and right placements mirror each other about the vertical centre line. Top and bottom placements mirror each other about the horizontal one. |
| Placement.UnknownPositionIsCentred | js/script.js:649-653 | Any drop-down value other than the four corner names, `"center"` included, gives the same origin as `"center"`. |
| Placement.FootprintOnPage | js/script.js:626-653 | If the footprint plus two margins fits across and up the page, then for every position the footprint lies on the page. |
| Placement.PositionNameParse | js/script.js:632-650 | Reading the drop-down value loses nothing: the value can be recovered from the parsed position. |
| Placement.ParsePositionName | js/script.js:632-650 | Every position the reader can produce reads back as itself. |
| Colour.DecodeHex | js/script.js:614-616 | For `#` plus six hex digits, the three channels are the bytes spelled by characters 1-2, 3-4 and 5-6. For any other text, each channel is still `NaN` or in -15..255. |
| Colour.ToRgb | js/script.js:614-616 | For a well-formed colour, each value handed to `rgb` is the byte its digit pair spells divided by 255, so all three lie in [0, 1]. For any text, each value is `NaN` exactly when its channel is. |
| Colour.PureRed | js/script.js:614-616 | `#ff0000` is drawn with red 1, green 0 and blue 0. |
| Colour.WellFormedChannels | js/script.js:614-616 | For `#` plus six hex digits, each channel is present and equals the byte spelled by its two characters, so it is in 0..255. |
| Colour.ChannelDependsOnItsPair | js/script.js:614-616 | A channel depends only on its own two characters. |
| Colour.ChannelBounds | js/script.js:614-616 | For every input string, each channel is `NaN` or in -15..255. A sign leaves room for one digit and a `0x` prefix for none. |
| Colour.ParseHexPair | js/script.js:614-616 | `parseInt` of two hex digits in base 16 is 16 × the first digit's value + the second's. |
| Colour.DecodeEncode | js/script.js:614-616 | Decoding the `#rrggbb` text of three bytes gives back those bytes. |
| Colour.EncodeDecode | js/script.js:614-616 | A well-formed lower-case colour is the encoding of the bytes it decodes to. |
| JsText.Trim | js/script.js:599 | `trim` keeps the contiguous slice of its input that starts after the leading whitespace. A non-empty result neither starts nor ends with whitespace. |
| JsText.TrimDropsWhiteSpace | js/script.js:599 | Everything `trim` drops, on either side, is whitespace. |
| JsText.TrimEmptyIff | js/script.js:599-604 | The trimmed watermark text is empty, and so rejected, exactly when the input is all whitespace. |
| JsText.TrimIdempotent | js/script.js:599 | Trimming twice is trimming once. |
| JsText.ParseInt | js/script.js:508-510 | `parseInt` gives `NaN` for blank text. Once leading whitespace is skipped, it gives a negative number only when the text starts with `-`. Text starting with `-` never gives a positive number, so the page guards reject it. |
| JsText.ParseIntUnsigned | js/script.js:614 | Text that starts with a letter or digit is read with no sign and no whitespace skipped. |
| JsText.MagnitudeOfDigits | js/script.js:614 | A whole run of digits in the radix, with no `0x` prefix, is read as the number it spells. |
| JsText.ParseIntSkipsWhiteSpace | js/script.js:508 | Leading whitespace never changes the number `parseInt` reads. |
| JsText.DecimalDigitsThenRest | js/script.js:717 | A run of decimal digits is read as its value whatever non-digit text follows, unless it forms a `0x` prefix. |
| JsText.DecimalString | js/script.js:258 | The text a template literal gives a count is a non-empty run of decimal digits with no leading zero, except for 0 itself. |
| JsText.DecimalStringRoundTrip | js/script.js:258 | `parseInt` reads back exactly the count a template literal printed. |
| JsText.DigitsValue | js/script.js:614 | A run of `n` digits in radix `b` denotes a number below `b`^`n`. |
| JsText.Substring | js/script.js:614-616 | `substring` with in-range indices is the slice between them, whichever index is given first. The result is never longer than the span asked for. |
| Pages.CheckPageNumber | js/script.js:508-513 | The first guard accepts exactly a parsed number of at least 1. `NaN`, 0 and negatives give `InvalidPageNumber`. |
| Pages.PageIndex | js/script.js:518-527 | The second guard accepts exactly the page numbers up to the page count and maps number `n` to index `n - 1` < count. Otherwise the result is `PageExceedsTotal(count)`. |
| Pages.PageGuardsAcceptExactlyValid | js/script.js:508-527 | Together the guards accept exactly 1 ≤ n ≤ count and give index n - 1. |
| Pages.SplitPdf | js/script.js:502-528 | The guards run in the source's order. With no file the result is `NoFileSelected`, with a bad number `InvalidPageNumber`, then with an unloadable file `LoadFailed`, and with a number past the end `PageExceedsTotal(count)`. Split succeeds exactly for a loadable file and a valid page number `n`, and then yields the one page `pages[n-1]`. |
| Pages.DeletePage | js/script.js:711-735 | The same guards as split. On success the result has one page fewer and is `pages[..n-1] + pages[n..]`. |
| Pages.SplitDeleteReassemble | js/script.js:527 | The page split extracts is the page delete removes. Putting it back at its index restores the document. |
| Pages.DecimalPageNumber | js/script.js:717-735 | Typing page `n` in decimal splits out, or deletes, page `n` whenever it exists. |
| Pages.MergePdfs | js/script.js:468-486 | Fewer than two files gives `TooFewFiles` and an unloadable file gives `LoadFailed`. Otherwise the result is every page of every file, in selection order. |
| Pages.ConcatLength | js/script.js:479-486 | The merged document has as many pages as the files together. |
| Pages.ConcatAt | js/script.js:479-486 | Page `j` of file `k` sits at the merged position (pages in files before `k`) + `j`. |
| Pages.ConcatAppend | js/script.js:479-486 | Merging a selection equals merging its two halves and joining the results. |
| Pages.RotatePages | js/script.js:693-696 | Each page's angle grows by exactly the chosen degree. Nothing else about any page changes. |
| Pages.RotatePdf | js/script.js:679-696 | Rotation succeeds exactly for a loadable file. The errors are `NoFileSelected` and `LoadFailed`. On success, page `i` of the result is page `i` of the file with its angle increased by the chosen degree, and the page count is kept. |
| Pages.RotateCompose | js/script.js:693-696 | Rotating by `a` and then by `b` is rotating by `a + b`. |
| Pages.RotateInverse | js/script.js:693-696 | Rotating back by the opposite angle restores the document. |
| Pages.AddWatermark | js/script.js:593-664 | With no file the result is `NoFileSelected`, with blank text `NoWatermarkText`, and with an unloadable file `LoadFailed`. On success every page keeps all it had and gains exactly one mark carrying the trimmed text. |
| Pages.WatermarkOnPage | js/script.js:624-663 | If the trimmed text at the chosen size fits on a page with a 20-unit margin each side, then the watermark drawn there lies within that page, for every position. |
| Pages.WatermarkTextTrimmed | js/script.js:599-604 | The drawn text is never empty and never starts or ends with whitespace. |
| Display.Truncate | js/script.js:183-185 | Text of at most 50 characters is shown unchanged. Longer text becomes its first 50 characters plus `"..."` (53 in all). |
| Display.TruncateKeepsPrefix | js/script.js:237-238 | What is shown is the start of the full text, possibly followed by the ellipsis. No character is altered. |
| Display.TruncateIdempotent | js/script.js:189-192 | Cutting an already cut text changes nothing. |
| Display.JoinNamesLength | js/script.js:182 | The joined text has the length of all the names plus two characters per separator. |
| Display.JoinNamesAppend | js/script.js:182 | Joining a selection is joining its two parts with one `", "` between them. So every name appears, in order, and nothing else does. |
| Display.JoinNamesStartsWithFirst | js/script.js:189 | The joined text starts with the first name. |
| Display.DropInfo | js/script.js:175-222 | Dropping files shows the same line as picking them: the image and merge lines for those tools, and `"Selected: "` + the first name for the others. |
| Display.ImageInfo | js/script.js:236-243 | An empty pick clears the image line. Otherwise the line is `"Selected: "` followed by all the joined names when they fit in 50 characters, and by their first 50 characters plus `"..."` when they do not. |
| Display.MergeInfo | js/script.js:255-262 | An empty pick clears the merge line. Otherwise it is the image tool's line for the same names followed by ` (n files)`. |
| Display.CountNoteReadsBack | js/script.js:258 | The `n` in ` (n files)` reads back, with `parseInt`, as exactly the number of files chosen. |

Helper functions without a row of their own:
- `Display.JoinNames` is `join(', ')` (js/script.js:182, 237, 256). `JoinNamesLength`, `JoinNamesAppend` and `JoinNamesStartsWithFirst` state what it does.
- `Display.SingleInfo` is the line of the single-file tools (js/script.js:270-349). `DropInfo` relates it to a drop.
- `Placement.ParsePosition` is the `switch` on the drop-down value (js/script.js:632-650). `PositionNameParse`, `ParsePositionName` and `UnknownPositionIsCentred` state what it does.
- `Placement.TextWidth` is the footprint estimate (js/script.js:626). `Place` and `FootprintOnPage` are stated with it.
- `Display.CountNote` is the ` (${n} files)` template literal (js/script.js:193, 258). `MergeInfo` and `CountNoteReadsBack` state what it gives.
- `Colour.Channel`, `Colour.Scale`, `Colour.Share` and `Pages.WatermarkMark` are the expression steps of js/script.js:614-616 and 656-663. `DecodeHex`, `ToRgb` and `AddWatermark` state them.

## Left out

- Theme toggling, local storage, toasts, drag-over styling and the watermark preview (js/script.js:45-168, 374-385, 542-587). They are DOM glue and produce nothing but styles and messages.
- File reading, `arrayBuffer`, Blob creation and download (js/script.js:360-367, 793-800). These are asynchronous browser I/O. A selected file is given directly as its loaded pages, or as `Unreadable`.
- PDF parsing, saving, `copyPages`, `drawText` rendering and object-stream re-saving. These are pdf-lib calls. Pages are abstract values, and a drawn text is recorded as a `Mark`.
- Text to PDF and image to PDF (js/script.js:395-462). They only call jsPDF. The image aspect ratio is floating-point scaling with no decision of the repository's own.
- Compression (js/script.js:751-782). It is a pdf-lib re-save, and the reported sizes and ratio are `toFixed` display strings.
- `pdf.js`: an older copy of the tools with fixed watermark coordinates and no page-number checks.
- Placement.Place: page sizes, font size and positions are exact reals, not IEEE doubles. The computation only halves, multiplies by 0.5 and subtracts, so rounding does not arise for page-sized values. A `NaN` font size (an empty size field) is not modelled.
- Pages.AddWatermark: size, rotation and opacity are taken as already-read numbers. A `NaN` from an empty field is not modelled. The colour does keep `NaN` channels, as `None`. pdf-lib's `rgb` and `drawText` are treated as calls that never fail. In the program a throw from either ends in the catch arm (js/script.js:656-663, 669-671). `rgb` throws on a component outside [0, 1], such as the -15/255 red of `#-f0000`. `drawText` throws on text the Helvetica font cannot encode, such as `機密`. For those inputs the model reports success where the program shows "Error adding watermark!".
- Colour.ToRgb: the division by 255 is exact rational division. JavaScript gives the nearest double, for example of 1/255. The [0, 1] bound and the `NaN` rule hold either way.
- Pages.RotatePdf: the angle is taken as an already-read integer, so a `NaN` from an empty field (js/script.js:685) is not modelled. The summed angle is stored as is. pdf-lib's own check that the angle is a multiple of 90, and any reduction modulo 360, happen inside the library.
- JsText.ParseInt: integers are unbounded. A JavaScript number loses precision beyond 2^53, so page numbers with more than 15 digits are read exactly here. Negative zero is folded into 0; the page guards reject both alike.
- JsText: strings are sequences of Unicode scalar values. JavaScript `length`, `substring` and the 50-character cut count UTF-16 code units, so the two agree only on text within the Basic Multilingual Plane.
- Display.DropInfo: the file-info update is only reached after a drop of at least one file (js/script.js:127), so it requires a non-empty name list.
