# font-to-svg: a Dafny model of the glyph exporter

`font-to-svg.py` reads a TrueType/OpenType font and saves one SVG file per
character of a fixed 64-character set (A–Z, a–z, 0–9, `.`, `,`) that the
font has a glyph for, skipping the others, each glyph
scaled so that the font's total height (`ascent - descent`) fills the
canvas height, with its baseline at nine tenths of the canvas. While it
works it updates a progress bar and a status label.

This project models the exporter, `export_glyphs_to_svg`, and the
character set `CHARS`:

- `charset.dfy` (module `Charset`): `CHARS` and the output file name of a
  character (`!A.svg` for upper-case letters, `a.svg` otherwise).
- `cmap.dfy` (module `Cmap`): the search for the first Unicode cmap
  subtable, as a loop proved against the function `ChosenCmap`.
- `decimal.dfy` (module `Decimal`): decimal text of integers, as the
  f-strings write them into the size attributes, viewBox and label.
- `svg.dfy` (module `Svg`): the SVG document saved for one glyph, as a
  record of its attributes: file name, `width`/`height` in pixels, viewBox,
  and one path with its fill and transform.
- `exporter.dfy` (module `Exporter`): the class `ExportSession`, whose
  fields are the state a run changes (progress value, label text, every
  status reported, whether the run has created the output directory
  (`os.makedirs`), the documents
  saved). Its method `ExportGlyphsToSvg` is proved to do exactly what the
  function `Export` describes. The loop over `CHARS` is the method
  `ExportAll`, and one pass of its body is `ExportGlyph`. The loop's
  invariant is the predicate `LoopInvariant` on the observable state.
- `export_properties.dfy` (module `ExportProperties`): what a run
  promises, proved about `Export`. These are the failure cases and what
  they leave behind, one file per mapped character, distinct file names,
  a uniform canvas and scale, and a progress value that rises strictly and
  stays within (0, 100].

The font is reduced to what the exporter reads from it: the cmap subtables
(each with its `isUnicode()` answer and its code-point-to-glyph-name map)
and the `hhea` ascent and descent. The fontTools pen that turns a glyph into
SVG path data is a parameter `trace` (glyph name to path text).

Behaviour worth knowing at the edges, as the code has it:

- A font with no Unicode cmap raises `RuntimeError("No Unicode cmap found in
  the font.")`, modelled as `NoUnicodeCmap`.
- An empty first Unicode mapping also fails the `if not cmap` test. Later
  Unicode subtables are not consulted (`EmptyFirstUnicodeNotRescued`).
- Degenerate metrics are not rejected up front. A total height of zero
  raises `ZeroDivisionError` at the first character that has a glyph. By
  then the output directory already exists, and no file has been saved. A
  zero-height font with no glyph for any character of `CHARS` finishes
  normally. A negative total height is accepted, giving a negative scale.

## Model

| member | source | states |
|---|---|---|
| Charset.CharsLiteral | font-to-svg.py:9 | `CHARS` is exactly the 64-character literal of the source |
| Charset.CharsLayout | font-to-svg.py:9 | `CHARS` has 64 characters: A–Z at 0–25, a–z at 26–51, 0–9 at 52–61, then `.` and `,` |
| Charset.CharsDistinct | font-to-svg.py:9 | no character occurs twice in `CHARS` |
| Charset.UpperLettersFirst | font-to-svg.py:9 | `CHARS` opens with A–Z, and a character of `CHARS` is upper case exactly when its index is below 26 |
| Charset.FileName | font-to-svg.py:49 | the file name is `!` + c + `.svg` for an upper-case letter and c + `.svg` otherwise; the character sits fifth from the end |
| Charset.PrefixExactlyOnUpperLetters | font-to-svg.py:49 | within `CHARS`, a file name starts with `!` exactly for indices below 26, and every upper-case letter is among those |
| Charset.FileNameInjective | font-to-svg.py:49 | distinct characters get distinct file names |
| Charset.FileNamesDifferIgnoringCase | font-to-svg.py:49 | distinct characters get names that still differ when case is ignored |
| Charset.UnprefixedNamesCollide | font-to-svg.py:49 | without the `!` prefix, an upper-case letter and its lower-case partner would get names equal up to case |
| Cmap.FindUnicodeCmap | font-to-svg.py:18-22 | the search loop returns the mapping `ChosenCmap` chooses |
| Cmap.ChosenIsFirstUnicode | font-to-svg.py:18-22 | the choice is the mapping of the first Unicode subtable, and there is none exactly when no subtable is Unicode |
| Cmap.LaterTablesIgnored | font-to-svg.py:19-22 | subtables after the first Unicode one do not affect the choice |
| Cmap.EmptyFirstUnicodeNotRescued | font-to-svg.py:18-24 | an empty first Unicode mapping fails the `if not cmap` test, even when a later Unicode subtable has glyphs |
| Decimal.NatToDecimal | font-to-svg.py:66 | the decimal text of a natural number is non-empty, all digits, and has no leading zero |
| Decimal.IntToDecimal | font-to-svg.py:54-55 | the text of an integer is a numeral, with a minus sign exactly when the integer is negative |
| Decimal.IntToDecimalCanonical | font-to-svg.py:54-55 | the text is Python's canonical `str(int)`: no leading zero after a minus sign, and a leading zero only in "0" itself |
| Decimal.DecimalRoundTrip | font-to-svg.py:66 | reading the decimal text of n back gives n |
| Decimal.IntRoundTrip | font-to-svg.py:54-55 | reading the text of an integer back gives the integer |
| Decimal.IntToDecimalInjective | font-to-svg.py:54-55 | distinct integers are written differently |
| Svg.Scale | font-to-svg.py:47 | the scale maps the total height onto the canvas height: scale × total height = canvas height |
| Svg.PixelsRoundTrip | font-to-svg.py:54 | a size attribute ends in `px` and the number before it reads back as the requested size |
| Svg.GlyphDocument | font-to-svg.py:52-60 | the document keeps the file name and path data, fills black, and translates by (0, 0.9·H) then scales by (s, −s) |
| Svg.GlyphDocumentCanvas | font-to-svg.py:52-56 | the document is `w`px by `h`px and its viewBox is `0 0 w h`, in the same numbers |
| Svg.GlyphDocumentPlacement | font-to-svg.py:47-59 | with a scale that maps `ascent - descent` onto the canvas height h, the baseline lands at 0.9·h and the descent line sits exactly h pixels below the ascent line; for positive heights the descent line passes the bottom edge exactly when the descent is deeper than a tenth of the total height |
| Svg.Canvas500 | font-to-svg.py:52-56 | on a 500-pixel canvas the size reads `500px` by `500px` and the viewBox `0 0 500 500` |
| Exporter.ErrorMessagesDistinct | font-to-svg.py:23-24 | the missing-cmap failure carries the RuntimeError's text, and the two failures are told apart by their messages |
| Exporter.MappedComplete | font-to-svg.py:35-39 | every character below n that has a glyph is among the characters the loop does not skip |
| Exporter.Reports | font-to-svg.py:63-66 | one status is reported per character that has a glyph |
| Exporter.Written | font-to-svg.py:41-61 | one document is saved per character that has a glyph |
| Exporter.NoneMappedKeepsStatus | font-to-svg.py:35-66 | when no character has a glyph, the progress and label keep their initial values |
| Exporter.LoopStepKeeps | font-to-svg.py:35-67 | a pass over one character that does not fail keeps the loop invariant: skipped characters change nothing, a mapped one appends its document and its status |
| Exporter.LoopFailsAtGlyph | font-to-svg.py:36-47 | a zero total height stops the loop at the first character with a glyph, with the state as it was before the loop |
| Exporter.LoopFinished | font-to-svg.py:33-67 | once every character is processed, the state is the one `ExportCharacters` gives |
| Exporter.ExportSession.constructor | font-to-svg.py:111-114 | a fresh progress window shows 0 and "Starting export...", with nothing reported, the output directory not yet created by the run, and no file |
| Exporter.ExportSession.ExportGlyph | font-to-svg.py:36-67 | one loop pass: a character without a glyph changes nothing; with one, a zero total height fails before anything changes; otherwise the character's document is saved and its progress and label are set and reported |
| Exporter.ExportSession.ExportAll | font-to-svg.py:33-67 | the loop over `CHARS` leaves the state `ExportCharacters` describes |
| Exporter.ExportSession.ExportGlyphsToSvg | font-to-svg.py:11-69 | a run returns the outcome and leaves the state that `Export` describes |
| ExportProperties.MappedSound | font-to-svg.py:35-39 | the characters not skipped are below n, have glyphs, and come in increasing order |
| ExportProperties.MappedExactly | font-to-svg.py:35-39 | a character of `CHARS` is exported if and only if it has a glyph |
| ExportProperties.SomeGlyphIffMapped | font-to-svg.py:35-39 | some character of `CHARS` has a glyph if and only if at least one is exported |
| ExportProperties.NoCmapFailsFirst | font-to-svg.py:18-32 | a run fails for want of a cmap if and only if the first Unicode mapping is missing or empty, and then changes nothing, not even the directory |
| ExportProperties.ZeroHeightFailsOnFirstGlyph | font-to-svg.py:30-47 | with a usable mapping the directory is created, and the run fails with division by zero if and only if the total height is zero and some character of `CHARS` has a glyph; otherwise it succeeds |
| ExportProperties.FailureSavesNothing | font-to-svg.py:23-47 | a failed run saves no file and leaves progress, label and reports unchanged; only the zero-height failure creates the directory |
| ExportProperties.SuccessAppends | font-to-svg.py:32-67 | a successful run creates the directory and appends exactly one file and one report per character with a glyph |
| ExportProperties.WrittenInOrder | font-to-svg.py:35-61 | the k-th document saved is the one for the k-th character with a glyph |
| ExportProperties.DocumentsDescribeGlyphs | font-to-svg.py:41-61 | every saved document is named after a character of `CHARS` that has a glyph, holds that glyph's path, and has the common size, viewBox, fill and transform |
| ExportProperties.FileExactlyForMappedCharacters | font-to-svg.py:35-61 | a character of `CHARS` gets a file if and only if the font has a glyph for it |
| ExportProperties.FileNamesDistinct | font-to-svg.py:49-50 | no two documents of a run share a file name, even ignoring case, so none overwrites another |
| ExportProperties.ScaleFillsCanvas | font-to-svg.py:47-59 | every document of a successful run is scaled by `SVG_HEIGHT / total_height` in x and by its negation in y |
| ExportProperties.ProgressBounds | font-to-svg.py:33-64 | progress after index i is in (0, 100], grows strictly with i, and is 100 after the last character |
| ExportProperties.ReportsInOrder | font-to-svg.py:63-66 | the k-th status reported is the one for the k-th character with a glyph |
| ExportProperties.ProgressRises | font-to-svg.py:64-65 | reported progress values rise strictly and stay within (0, 100] |
| ExportProperties.LastStatusIsLastReport | font-to-svg.py:63-66 | the progress and label left on screen are the last ones reported |
| ExportProperties.FullBarIffLastCharacterMapped | font-to-svg.py:35-64 | the bar ends at 100 if and only if the last character of `CHARS`, the comma, has a glyph |
| ExportProperties.LabelNamesCharacter | font-to-svg.py:66 | the label shows the character being exported and the total `/64)`, so distinct characters have distinct labels |

## Left out

- The tkinter user interface (`main`: file and folder pickers, the size
  dialog, window setup, its cancellation and error message boxes) is not
  modelled. The exception message shown on failure is `ExportError.Message`.
- Parsing the font file is not modelled. `isUnicode()` is a boolean per
  subtable. A font without a `cmap` or `hhea` table (a `KeyError`) is not
  modelled. The unused `head` lookup is dropped.
- The glyph-to-path conversion (`SVGPathPen`, `glyph.draw`) is the opaque
  total function `trace`. A glyph name missing from the glyph set (a
  `KeyError`) is not modelled.
- Writing to disk is not modelled: `os.makedirs` becomes the `dirCreated`
  flag, and `dwg.save()` appends the document to `written`. The output
  directory path and `os.path.join` are left out, and documents carry
  only their bare file names. I/O errors are not modelled.
- `svgwrite` serialisation is not modelled. A document is a record of its
  attributes, and the transform is four numbers rather than the text
  `translate(0,…) scale(…,-…)`. When the scale is negative the text
  `-{scale}` begins with two minus signs, and the model does not show it.
- Floating point is not modelled. `scale` and `SVG_HEIGHT * 0.9` are exact
  reals, and how Python prints them is left out. The progress value
  `(i + 1) / 64 * 100` is exact in binary floating point, so the real
  numbers agree with it.
- The success message box at the end of `export_glyphs_to_svg`
  (`messagebox.showinfo("Done", …)`, font-to-svg.py line 69) is left out;
  the `Done` outcome stands in for it.
- The `print` of a skipped character and `update_idletasks` are left out.
- Charset.IsUpper: only the ASCII letters A–Z count as upper case, not all
  of Python's `str.isupper`. The two agree on every character of `CHARS`.
