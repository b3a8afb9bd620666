# unicodify_pdf: the encoding remap, modelled in Dafny

`unicodify_pdf` rewrites a PDF whose simple fonts use custom byte codes, so
that the text can be extracted. Such a font has an `/Encoding` dictionary
whose `/Differences` array gives glyph names to custom codes. The font
program is a CFF font with a built-in encoding, and that encoding gives each
glyph name a standard code. For every page the tool does four things:

- It builds a *registry*: for each font, a map from custom code to standard code.
- It rewrites the page's content stream through that registry. Every string
  shown by `Tj` or `TJ` is reencoded byte by byte through the map of the
  font that the last `Tf` selected.
- It drops `Tw`. In a `TJ` array it turns word spacing into explicit
  adjustments after each space byte (0x20).
- It switches every font of the page to `/Identity-H` with a fixed
  ToUnicode CMap. For a font of the registry it also rebuilds `/Widths`,
  `/FirstChar` and `/LastChar` over the standard codes.

The project models this core on already-parsed objects, in six modules:

- `PdfTypes` (`pdf_types.dfy`): operands, operators, fonts, maps and errors.
- `Differences` (`differences.dfy`):
  - the glyph table of the built-in encoding;
  - the walk over a `/Differences` array;
  - the per-page registry.
- `Reencode` (`reencode.dfy`):
  - byte reencoding;
  - the split after spaces;
  - the insertion of word spacing.
- `ContentStream` (`content_stream.dfy`): the pass over the operators of a
  content stream, and its guard for pages without fonts.
- `Widths` (`widths.dfy`):
  - the width-table remap;
  - the font update.
- `Page` (`page.dfy`): one iteration of the page loop. It also proves that
  the remap is idempotent and works a complete example through.

Each loop of the original is a method. Each method is proved equal to a
specification function, and the properties are proved about those functions.
The methods are `GlyphCodeTable`, `BuildDiffMap`, `BuildRegistry`,
`AddSpacing`, `ApplyEncMap` and its three helpers, `CodeRange`,
`GetNewWidths` (over an `array`), `UpdateFonts` and `ProcessPage`.
An exception of the original is an `Err` of a `Result`.

## Model

| member | source | states |
|---|---|---|
| Differences.GlyphTableOfSpec | unicodify_pdf.py:112-115 | The glyph table holds exactly the names, with a leading slash, of the codes whose glyph is not `.notdef`. A name that appears at several codes maps to the highest of them. |
| Differences.GlyphCodeTable | unicodify_pdf.py:112-115 | The loop over the built-in encoding builds exactly the glyph table `GlyphTableOf`. |
| Differences.LastOffset | unicodify_pdf.py:142-146 | Gives the position of the last integer entry of a `/Differences` prefix, or -1 when there is none. No integer entry follows it. |
| Differences.DiffWalkCounters | unicodify_pdf.py:139-155 | After any prefix of `/Differences`, the walk's first index is the last integer seen (0 before any). Its offset is the number of names found in the glyph table since then. |
| Differences.DiffMapAssignments | unicodify_pdf.py:139-155 | A code is in the difference map iff some found name was assigned to it, at the code given by the last integer plus the names found since. The code holds the standard code of the last name assigned to it. Unknown names are skipped without advancing the offset. |
| Differences.DiffMapEmptyTable | unicodify_pdf.py:150-152 | When there is no glyph table, every name is skipped and the difference map is empty. |
| Differences.DiffMapExample | unicodify_pdf.py:139-155 | `[3 /A /B 10 /C]` over a table with A, B and C gives `{3: A, 4: B, 10: C}`. |
| Differences.BuildDiffMap | unicodify_pdf.py:134-156 | The loop with its two counters computes exactly `DiffMapOf`. |
| Differences.RegistryOf | unicodify_pdf.py:122-158 | A font has a registry entry iff its `/Encoding` is a dictionary. A Name encoding, `/WinAnsiEncoding` or another, is skipped. A dictionary without `/Differences` gives an empty map. With `/Differences`, the entry is their difference map (`DiffMapOf`) over the font's glyph table. |
| Differences.RegistryWithoutProgram | unicodify_pdf.py:86-95 | A font without a CFF built-in encoding gets an empty entry, whatever its `/Differences` say. |
| Differences.BuildRegistry | unicodify_pdf.py:122-158 | The loop over the font keys computes exactly `RegistryOf`. |
| Reencode.ReencodeOperand | unicodify_pdf.py:160-177 | A string operand under a registered font is reencoded byte by byte. A mapped byte becomes its standard code and any other byte is kept. The length is kept. With no font selected, an unregistered font or a non-string operand, the operand is returned unchanged. |
| Reencode.ReencodeBytesConcat | unicodify_pdf.py:174 | Reencoding commutes with concatenation. |
| Reencode.ReencodeBytesUnmapped | unicodify_pdf.py:160-166 | A string none of whose bytes is mapped is unchanged. |
| Reencode.JoinReencodeAll | unicodify_pdf.py:168-177 | The bytes of the reencoded elements are the reencoded bytes of the elements. |
| Reencode.SplitAfterSpaces | unicodify_pdf.py:179-181 | The split always gives at least one part. |
| Reencode.SplitAfterSpacesCount | unicodify_pdf.py:179-181 | The split after each space gives one part more than there are space bytes. |
| Reencode.SplitAfterSpacesFlatten | unicodify_pdf.py:179-181 | The parts concatenate back to the original string. |
| Reencode.SplitAfterSpacesPieces | unicodify_pdf.py:179-181 | Every part but the last ends in a space and has no other space. The last part has no space and may be empty. |
| Reencode.Interleave | unicodify_pdf.py:194-204 | The parts come in order, with the spacing between each two consecutive parts and nowhere else. |
| Reencode.Spaced | unicodify_pdf.py:183-204 | A non-string element, a zero word spacing or a string without a space gives the element alone. Failure occurs exactly when a string with a space must be split under a non-numeric word spacing. |
| Reencode.SpacedShape | unicodify_pdf.py:194-204 | A string with spaces, under a nonzero numeric word spacing, becomes twice as many elements as it has spaces, plus one. The parts of the split sit at the even positions and `word_spacing * -1000` at the odd ones. |
| Reencode.SpacedJoin | unicodify_pdf.py:183-204 | Adding spacing never changes the bytes shown. |
| Reencode.JoinInterleave | unicodify_pdf.py:194-204 | The strings of the interleaved list concatenate to the parts' bytes. |
| Reencode.SpacedExample | unicodify_pdf.py:183-204 | `(A B)` with word spacing 0.2 becomes `(A )`, -200, `(B)`. |
| Reencode.AddSpacing | unicodify_pdf.py:183-204 | The loop over the parts computes exactly `Spaced`. |
| ContentStream.TJElems | unicodify_pdf.py:239-244 | A `TJ` array never shrinks. Its rewrite fails exactly when one of its elements must be split under a non-numeric word spacing. |
| ContentStream.TJElemsElement | unicodify_pdf.py:239-244 | A string with a space, under a nonzero numeric word spacing, is split on its original bytes, whatever the font's map. Each piece is then reencoded, with `ws * -1000` between each two pieces, and there is one number per space. Any other string is only reencoded. A number or other non-string element is kept as it is. A split under a non-numeric word spacing fails. |
| ContentStream.TJElemsExample | unicodify_pdf.py:239-244 | Under a map sending 0x41 to the space byte and word spacing 1, `<4142>` is not split and is shown as `<2042>`. |
| ContentStream.TJElemsConcat | unicodify_pdf.py:239-244 | An array is rewritten element by element, in order. The rewrite of a concatenation is the first part's rewrite followed by the second's, or the first error. |
| ContentStream.TJOperands | unicodify_pdf.py:234-248 | A `TJ` fails exactly when one of its operands is not an array or its array's rewrite fails. Otherwise output `i` is the array whose elements are the rewrite of operand `i`'s elements. |
| ContentStream.TJElemsJoin | unicodify_pdf.py:236-245 | Under a registered font, the bytes shown by a rewritten `TJ` array are the reencoded bytes of the original array. |
| ContentStream.TransformOp | unicodify_pdf.py:215-250 | An instruction fails exactly when it is `Tw` with no operand, `Tf` with fewer than two, or a `TJ` whose operands cannot be rewritten. A `TJ` operand cannot be rewritten when it is not an array, or when one of its strings must be split under a non-numeric word spacing. `Tw` emits nothing and sets the word spacing. Every other operator emits one instruction with the same operator. `Tf` selects the font named by its second-to-last operand, and nothing else changes the font or the spacing. |
| ContentStream.TransformOpOut | unicodify_pdf.py:215-250 | What one instruction emits. `Tw` emits nothing and records its first operand as the word spacing. `Tf` is emitted with its last two operands. `Tj` is emitted with its operands reencoded through the map of the current font. `TJ` is emitted with its arrays rewritten by `TJOperands`. Any other operator is emitted unchanged. |
| ContentStream.RunPrefixErrSticky | unicodify_pdf.py:214-247 | Once an operator fails, the whole stream fails with that error. |
| ContentStream.RunPrefixState | unicodify_pdf.py:211-224 | The active font is the one named by the last `Tf`. The word spacing is the operand of the last `Tw`, 0 before any. |
| ContentStream.RunPrefixOutput | unicodify_pdf.py:206-253 | The pass succeeds iff every operator succeeds in the state its predecessors leave. The output is then the concatenation, in order, of what each operator emits. |
| ContentStream.TransformEmits | unicodify_pdf.py:206-253 | For each input instruction other than `Tw`, the output holds, at the position given by the instructions before it, one of these: the `Tf` with its last two operands; the `Tj` with its strings reencoded through the map of the font selected by the last `Tf` before it; the `TJ` with its arrays rewritten under that font and the last `Tw`'s spacing; or the instruction itself. |
| ContentStream.CountNonTwTw | unicodify_pdf.py:215-219 | Each operator other than `Tw` gives one output instruction, so the output is shorter than the input by the number of `Tw`. |
| ContentStream.RunPrefixSettled | unicodify_pdf.py:215-248 | No emitted instruction is `Tw`. Every `Tf` has exactly two operands, and every `TJ` has only array operands. |
| ContentStream.RunPrefixSettledFixed | unicodify_pdf.py:206-253 | A settled stream under an empty registry passes through unchanged. With no `Tw`, the word spacing stays 0 and no `TJ` string is split. |
| ContentStream.TransformIdempotent | unicodify_pdf.py:206-253 | Rewriting an already rewritten stream with an empty registry changes nothing. |
| ContentStream.ReencodeTjOperands | unicodify_pdf.py:226-232 | The loop over the operands of `Tj` reencodes each of them. |
| ContentStream.ReencodeTJArray | unicodify_pdf.py:237-245 | The loop over the elements of one `TJ` array computes `TJElems`. |
| ContentStream.ReencodeTJOperands | unicodify_pdf.py:234-248 | The loop over the operands of `TJ` computes `TJOperands`. |
| ContentStream.ApplyEncMap | unicodify_pdf.py:206-253 | The loop over the content stream computes exactly `Transform`. |
| ContentStream.TransformContents | unicodify_pdf.py:256-263 | A page without fonts keeps its own instructions (see "Left out") and gets an empty registry. Otherwise the registry of its fonts is built and the stream is rewritten through it. |
| Widths.HighestSource | unicodify_pdf.py:296-302 | Finds the highest original code in a range that the map sends to a given standard code, or reports that there is none. |
| Widths.NewWidthTable | unicodify_pdf.py:267-304 | An empty map gives `[]`, 0, 0. Otherwise the call fails iff `/Widths` is shorter than the range from `/FirstChar` to `/LastChar`. On success the new bounds are the least and greatest standard code of the map, and the table covers exactly that range. |
| Widths.NewWidthTableSlot | unicodify_pdf.py:296-302 | A code from `/FirstChar` to `/LastChar` carries its width to the slot of its standard code. The highest such code wins a collision. |
| Widths.NewWidthTableGap | unicodify_pdf.py:292-294 | A slot that no code of the range reaches holds the default width 0. |
| Widths.NewWidthTableExample | unicodify_pdf.py:267-304 | Widths `[10 20 30]` of codes 65 to 67 under `{65: 200, 67: 201}` become `[10 30]` over 200 to 201. |
| Widths.CodeRange | unicodify_pdf.py:285-289 | The scan of the map's values finds their least and greatest element. |
| Widths.GetNewWidths | unicodify_pdf.py:267-304 | The zero-filled array and the pass over the original codes compute exactly `NewWidthTable`, defaults included. |
| Widths.UpdatedFonts | unicodify_pdf.py:307-323 | Absent fonts stay absent. Otherwise every font keeps its key and its other entries, and gets `/Identity-H` and the fixed ToUnicode. Its widths are replaced by the remapped table iff it is in the registry. The update fails iff one of those tables fails. |
| Widths.UpdateFonts | unicodify_pdf.py:307-323 | The loop over the fonts computes exactly `UpdatedFonts`. |
| Page.ProcessedPage | unicodify_pdf.py:340-351 | A page without fonts is left as it is (see "Left out"). Otherwise the page succeeds iff both the stream rewrite through its fonts' registry and the font update with that registry succeed. Its new stream is the rewritten stream, and its fonts are the updated fonts, with the same keys. A failing page gives the stream's error first, then the fonts'. |
| Page.ProcessPage | unicodify_pdf.py:340-351 | One iteration of the page loop computes exactly `ProcessedPage`. |
| Page.UpdatedFontsLeaveNoRegistry | unicodify_pdf.py:128-132 | Updated fonts declare `/Identity-H`, so they give an empty registry. |
| Page.UpdatedFontsFixed | unicodify_pdf.py:307-323 | Updating already updated fonts with an empty registry changes nothing. |
| Page.ProcessedPageIdempotent | unicodify_pdf.py:340-351 | Processing a processed page again gives the same page. |
| Page.ExampleGlyphTable | unicodify_pdf.py:112-115 | A built-in encoding with /space at 0x20, /A at 0x41 and `.notdef` everywhere else below 0x42 gives the table `{/space: 0x20, /A: 0x41}`. |
| Page.ExampleRegistry | unicodify_pdf.py:134-156 | Under that encoding, `/Differences [100 /space /A]` gives `{100: 0x20, 101: 0x41}`. |
| Page.ExampleStream | unicodify_pdf.py:206-253 | `/F1 12 Tf <6465> Tj` becomes `/F1 12 Tf <2041> Tj`, a space and an A. |
| Page.ExampleWidths | unicodify_pdf.py:267-304 | The widths of codes 100 and 101 move to codes 0x20 and 0x41. The 32 slots between them hold 0. |
| Page.ProcessedPageExample | unicodify_pdf.py:340-351 | The three steps above make the whole page: stream, encoding, ToUnicode and widths. |

## Left out

- Content-stream parsing and unparsing (`pikepdf.parse_content_stream`, `unparse_content_stream`): the stream is a sequence of already-parsed instructions.
- ContentStream.TransformContents: the guard for a page without fonts (unicodify_pdf.py:258) is modelled by its evident intent, returning the page's own instructions. The source calls `contents.unparse()`, which is pikepdf's `Object.unparse`, not `unparse_content_stream`. For a `/Contents` stored as an indirect object, that call gives a reference such as `4 0 R`, and line 345 would store that text as the page's new content stream. That result is not modelled.
- Page.ProcessedPage and Page.ProcessedPageIdempotent: for a page without fonts they rest on the same reading of line 258. Keeping the page unchanged is the intended behaviour, not what `Object.unparse` produces.
- Decoding of the CFF font program (`fontTools`), including the warning printed for a font set with more than one font: the built-in encoding is the `program` field of a font, and it is absent when there is no `/FontDescriptor`, no `/FontFile3` or no CFF encoding.
- The text of the ToUnicode CMap: it is the opaque value `FixedCMap`.
- pikepdf object plumbing: the difference between `Name` and `str`, the copy of the font dictionary, and the attribute error for a font without `/Encoding`. Every font is given an encoding.
- The command-line interface, opening and saving the file, and the loop over the pages of `main`: `Page.ProcessPage` models one iteration.
- Operand kinds other than strings, numbers, names and arrays (booleans, dictionaries, null) are not modelled.
- A `Tf` font operand that is not a name never matches a registry key.
- Reencode.Spaced: numbers are exact reals. The word spacing is multiplied by -1000 as written, without division by the font size, and without the rounding of Python floats or pikepdf decimals.
- Widths.NewWidthTable: `/Widths`, `/FirstChar` and `/LastChar` are integers. Non-integer widths and non-integer bounds, which would make `range` fail, are not modelled.

Two behaviours of the code worth noting:

- A `TJ` array element that is neither a string nor a number, such as a name, is passed through unchanged rather than rejected.
- Any Name encoding, not only `/WinAnsiEncoding`, is skipped, because the dictionary test that follows rejects it too.
