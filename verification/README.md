# Template parser of lcd-image-converter, modelled in Dafny

lcd-image-converter turns images and fonts into C source text by filling in
a template. The class `Parser` drives this. Its core has four parts:

- **Markers.** A tag is written `@name@` or `$(name)`. A block runs from
  `@start_block_name@` to `@end_block_name@`, and either spelling may be used.
  These are the `TagName` and `Content` regular expressions of
  `Parser::expression`. They are matched leftmost first, shortest match.
- **`Parser::parse`.** It walks the template and copies the text between
  markers. Each tag is replaced by its value from the tag map, or by
  `<value not defined>`. Each block is rendered from its trimmed content:
  either recursively, or, for the block named `images_table`, once per image.
- **`Parser::parseImagesTable` and `Parser::parseSimple`.** For every image,
  these set the per-image tags (`width`, `height`, `blocksCount`,
  `imageData`, `charCode`, `comma`, `charText`) and rewrite the block
  content until no marker is left.
- **`Parser::hexCode` and `Parser::addMatrixInfo`.** The first writes a
  character's encoded bytes as hexadecimal text, reordering bytes for
  UTF-16 and UTF-32. The second fills the tags that describe the conversion
  settings, including the bits-per-pixel count of the used mask.

Modules:

- `Markers` (markers.dfy) finds tags and blocks.
- `Substitution` (substitution.dfy) holds the tag map, the lookup and
  `parseSimple`.
- `Parser` (parser.dfy) holds `parse` and the renderer with the images table.
- `ImagesTable` (imagestable.dfy) holds `parseImagesTable`.
- `CharCode` (charcode.dfy) holds `hexCode`.
- `MatrixInfo` (config.dfy) holds `addMatrixInfo`.
- `Text`, `Format` and `Wrappers` are supporting modules: string search and
  replacement, trimming, hexadecimal and decimal text, and `Option`.

`Parser.Render` takes a `Variant`. `AsWritten` follows the code line by line.
`Corrected` repairs the first two slips listed under "## Findings". Most
properties are stated for both variants. `Parser.RenderFlat` differs between
them only in the text after the last marker. The members named in
"## Findings" set the two variants side by side. The third slip, in
`hexCode`, has its corrected definition beside the source's in `CharCode`.

## Model

| member | source | states |
|---|---|---|
| Markers.FindMarkerLeftmost | classes/parser/parser.cpp:489-493 | the marker found starts at the leftmost position where a tag matches and is the shortest match there; no marker means no tag matches anywhere from the start offset |
| Markers.MarkerAtShortest | classes/parser/parser.cpp:489-493 | at a given position a marker is reported exactly when a tag matches there, and it is the shortest such match |
| Markers.FirstClose | classes/parser/parser.cpp:492 | the name of a tag ends at the first `@` or `)` after the opener, and no closing character lies before it |
| Markers.FindMarkerInSuffix | classes/parser/parser.cpp:114 | searching the template from an index gives the same marker as searching only the text from that index on, shifted back by the index |
| Markers.FindBlockNearest | classes/parser/parser.cpp:485-488 | a block found is closed by the nearest end marker of the same name after the start marker; none found means no end marker of that name follows |
| Markers.FindBlockExists | classes/parser/parser.cpp:125-127 | a block is found exactly when the content expression matches somewhere at or after the start marker |
| Markers.ContentAfterMarker | classes/parser/parser.cpp:485-488 | a content match after a start marker leaves at least one character of content after that marker |
| Markers.FindBlockInSuffix | classes/parser/parser.cpp:125-129 | the block and its content are the same whether searched in the whole template or only in the text from an index on |
| Markers.EndMarkerPlaced | classes/parser/parser.cpp:478-480 | an end marker written in either spelling is recognised at its position, with its full length |
| Substitution.Simple | classes/parser/parser.cpp:280-298 | after the rewriting no marker is left, a text without markers comes back unchanged, and the number of marker characters never grows, which is why the loop ends |
| Substitution.SimpleSingleTag | classes/parser/parser.cpp:289-297 | a text with a single tag amid marker-free text becomes that text with the tag replaced by its value, or by `<value not defined>` when the map has no entry |
| Substitution.SimpleFlat | classes/parser/parser.cpp:280-298 | on a separated template of literals and tags whose names hold no `@` or `$`, the result is every literal copied and every tag replaced by its value or `<value not defined>`, in order; separated means no `@` closer, followed by the substituted rest, spells the name of an `@`-opened tag |
| Substitution.SimpleStraddle | classes/parser/parser.cpp:289-297 | in `@n@@x@n@z@` the replacement of `@n@` also matches from the closer of `@x@` to the opener of `@z@`, so the result is the value of `n` followed by the value of the tag named `x`, value of `n`, `z` |
| Substitution.StraddleNotSeparated | classes/parser/parser.cpp:289-297 | the template `@n@@x@n@z@` is not separated: the closer of `@x@` is followed by the name `n` |
| Substitution.StraddleDiffers | classes/parser/parser.cpp:289-297 | when `x` and the merged name have no entry, that result differs from the template with each tag replaced by its own value |
| Parser.SimpleAgreesWithParse | classes/parser/parser.cpp:280-298 | on a separated template of literals and tags with such names, `parseSimple` writes the same text as the corrected `parse` |
| Substitution.SingleMarkerFound | classes/parser/parser.cpp:489-493 | a tag placed after marker-free text is the first marker, at the end of that text, with the written name |
| Text.Trim | classes/parser/parser.cpp:130 | the trimmed content is a slice of the content with only white space removed at both ends, and it neither starts nor ends with white space |
| Text.ReplaceAllChar | classes/parser/parser.cpp:249 | replacing a one-character text writes the replacement at every occurrence of that character and copies every other character in order |
| Text.Contains | classes/parser/parser.cpp:314 | the encoding test holds exactly when the name occurs somewhere in the encoding |
| Parser.RenderNoMarkers | classes/parser/parser.cpp:156-160 | a template without marker characters keeps its tag map; as written it is copied only when it is at least two UTF-16 code units long, and corrected it is always copied |
| Parser.ScanTagFirst | classes/parser/parser.cpp:117-153 | the text before the first tag is copied, the tag is replaced by its value or `<value not defined>`, and the rest of the template is rendered after it with the same map |
| Parser.RenderFlat | classes/parser/parser.cpp:114-160 | a template made of literals and tags renders to the same text with every tag replaced by its lookup, and the map unchanged; the text after the last tag is kept whole when corrected, and as written only when it is at least two UTF-16 code units long |
| Parser.BlockFound | classes/parser/parser.cpp:121-127 | a start marker followed by content and its end marker is found as the first marker, and its block spans exactly up to the end of the end marker |
| Parser.ScanBlockFirst | classes/parser/parser.cpp:122-146 | a block renders to the rendering of its trimmed content; the text after its end marker is rendered with the map that content left behind |
| Parser.ScanUnmatchedFirst | classes/parser/parser.cpp:122-146 | a start marker with no end marker produces nothing; as written, the copying point stays before the text that precedes it, so that text is copied again later, together with the marker; corrected, nothing is left waiting to be copied |
| Parser.ParseImagesTable | classes/parser/parser.cpp:133-136 | the `images_table` block is replaced by the images-table expansion of its trimmed content, and the rest is rendered with the map the expansion leaves |
| Parser.Parse | classes/parser/parser.cpp:104-161 | the rendering leaves tag values free of marker characters, and it changes no entry of the map except the per-image tags and `imagesCount` |
| Parser.RenderKeepsOthers | classes/parser/parser.cpp:104-161 | when the images table only touches the per-image tags, the rendering keeps every other entry, recursively through nested blocks |
| Parser.RenderKeepsFree | classes/parser/parser.cpp:104-161 | when the images table keeps tag values marker-free, so does the rendering, through nested blocks |
| Parser.ImagesKeepsOthers | classes/parser/parser.cpp:201-278 | the images-table expansion changes only `imagesCount` and the per-image tags |
| Parser.OneCharacterLost | classes/parser/parser.cpp:156-157 | as written, a template of one character of the Basic Multilingual Plane, not a marker character, renders to empty text; corrected, it renders to itself |
| Parser.SurrogatePairKept | classes/parser/parser.cpp:156-157 | as written, a template of one character outside the Basic Multilingual Plane, two UTF-16 code units long, is kept |
| Parser.LastCharacterAfterTagLost | classes/parser/parser.cpp:156-157 | as written, a single character of the Basic Multilingual Plane after the last tag is dropped; corrected, it is kept |
| Parser.UnmatchedStartRepeatsText | classes/parser/parser.cpp:122-160 | as written, the text before a start marker that has no end appears twice, followed by the marker and the rest; corrected, the marker is dropped and the text around it appears once |
| Parser.CorrectedUnmatchedDropped | classes/parser/parser.cpp:122-146 | corrected, a start marker without an end renders as nothing: the text before it, then the rendering of the rest |
| Parser.CorrectedCopiesPendingOnce | classes/parser/parser.cpp:114-120 | corrected, text waiting to be copied is copied exactly once, in front of the rendering of what follows |
| ImagesTable.ExpandImages | classes/parser/parser.cpp:201-278 | `imagesCount` is set to the number of images; with no image the text is empty and only `imagesCount` changes; otherwise the map ends with the tags of the last image; every other entry is kept and values stay marker-free |
| ImagesTable.ExpandImagesIsExpansions | classes/parser/parser.cpp:211-277 | the text is, for each image in order, a newline followed by the content rewritten with that image's tags |
| ImagesTable.ItemTagsDescribeItem | classes/parser/parser.cpp:217-272 | the per-image tags hold the width, the height and the count of converted words in decimal. They also hold the image data with the indentation written after every newline and every other character copied, the hexadecimal code of the key's first character, a comma for every image but the last and an empty text for the last, and the character text: the whole key with every `@` written `(a)` when it has an `@`, otherwise its first character |
| ImagesTable.ItemsFinalTags | classes/parser/parser.cpp:211-277 | after the loop the map holds the tags of the last image |
| ImagesTable.Comma | classes/parser/parser.cpp:261-264 | the separator is empty exactly for the last image, and a comma otherwise |
| ImagesTable.CharText | classes/parser/parser.cpp:266-272 | the character text never holds `@`; for a key with an `@` it is the whole key with every `@` written `(a)` and every other character copied; for a key without one it is the key's first character |
| ImagesTable.ImageDataUnbroken | classes/parser/parser.cpp:249 | image data on a single line is written unchanged |
| CharCode.FoldIsBigEndian | classes/parser/parser.cpp:307-312 | the accumulated code is the big-endian value of the encoded bytes and stays below 256 to the power of their count |
| CharCode.Swap16 | classes/parser/parser.cpp:317-321 | the two low bytes are exchanged and the upper 48 bits are kept |
| CharCode.Reverse32 | classes/parser/parser.cpp:338-344 | the four low bytes are reversed and the upper 32 bits are kept |
| CharCode.Utf16Hex | classes/parser/parser.cpp:314-333 | with a byte-order mark the whole reordered code is written in 8 digits, or in as many as it needs when that is more; without one, exactly 4 digits of its low 16 bits |
| CharCode.Utf32Hex | classes/parser/parser.cpp:335-357 | with a byte-order mark the reordered code is written in 16 digits; without one, exactly 8 digits of its low 32 bits |
| CharCode.PlainHex | classes/parser/parser.cpp:358-361 | other encodings write the big-endian value of at most the first 8 bytes, in two digits per byte and at least one digit |
| CharCode.HexCode | classes/parser/parser.cpp:300-365 | the code is hexadecimal text. For an encoding whose name contains `UTF-16` it is the byte-swapped code: its low 16 bits in 4 digits without a byte-order mark, all of it in at least 8 digits with one. Otherwise, for a name containing `UTF-32`, it is the byte-reversed code: its low 32 bits in 8 digits, or all of it in 16 digits with a mark. Any other encoding gives the big-endian value of at most the first 8 bytes, in two digits per byte |
| CharCode.Utf16CodeUnit | classes/parser/parser.cpp:314-333 | for UTF-16 without a byte-order mark, the four digits are the code unit assembled from its little-endian bytes |
| CharCode.Utf16Example | classes/parser/parser.cpp:314-333 | for the bytes `ff fe 41 00` of `A` under a UTF-16 codec that writes little-endian units, the code is `0041` without a byte-order mark and `fffe0041` with one: the mark is printed with its bytes in the order the codec wrote them |
| CharCode.Utf32Example | classes/parser/parser.cpp:335-357 | for the bytes `ff fe 00 00 41 00 00 00` of `A` under a UTF-32 codec that writes little-endian units, the code is `00000041` without a byte-order mark and `fffe000000000041` with one |
| CharCode.SwapUnits16 | classes/parser/parser.cpp:316-325 | the reorder the comment at line 325 expects: in every 16-bit unit, the mark's as well as the character's, the two bytes are exchanged |
| CharCode.ReverseUnits32 | classes/parser/parser.cpp:337-348 | the reorder the comment at line 348 expects: in every 32-bit unit the four bytes are reversed |
| CharCode.UnitsReorderTwice | classes/parser/parser.cpp:316-348 | reordering every unit twice gives the code back |
| CharCode.LowUnitsAgree | classes/parser/parser.cpp:316-348 | in the character's unit, the lowest, the source's reorder and the reorder of every unit agree |
| CharCode.HexCodeCorrected | classes/parser/parser.cpp:300-365 | `hexCode` with every unit reordered: with a byte-order mark the mark reads as the codec's `feff`; without one, and for every other encoding, it prints exactly what the source prints |
| CharCode.Utf16HexCorrected | classes/parser/parser.cpp:314-333 | the UTF-16 branch with every unit reordered; without a mark it equals the source's branch |
| CharCode.Utf32HexCorrected | classes/parser/parser.cpp:335-357 | the UTF-32 branch with every unit reordered; without a mark it equals the source's branch |
| CharCode.CorrectedBomExamples | classes/parser/parser.cpp:325-348 | with every unit reordered, `A` prints as `feff0041` under UTF-16 and `0000feff00000041` under UTF-32, the values the comments at lines 325 and 348 give for `Á` written the same way |
| Format.Hex | classes/parser/parser.cpp:326 | the hexadecimal text reads back as the number and is as wide as asked, or wider when the number needs it |
| Format.DecimalRoundTrip | classes/parser/parser.cpp:210 | decimal text written for a number reads back as that number |
| MatrixInfo.BitsPerPixel | classes/parser/parser.cpp:457-465 | the loop counts the set bits of the used mask, at most 32 |
| MatrixInfo.AddMatrixInfo | classes/parser/parser.cpp:367-466 | the map gains exactly the settings keys, with bits per pixel counted from the mask; other entries are kept, and marker-free values stay marker-free |
| MatrixInfo.InfoSwitches | classes/parser/parser.cpp:370-436 | each yes/no or two-way setting is written as its label, and the label determines the setting; the main scan direction label reads back as the direction |
| MatrixInfo.ScanLabelRoundTrip | classes/parser/parser.cpp:380-394 | each main scan direction has its own label, which reads back as that direction |
| MatrixInfo.InfoNumbers | classes/parser/parser.cpp:376-465 | the data block size in bits, the band width and the bits per pixel are written in decimal that reads back as those numbers |
| MatrixInfo.InfoTexts | classes/parser/parser.cpp:424-454 | the encoding, the preset name and the conversion type are copied; the monochrome type and edge are written only for monochrome conversion, otherwise `not used` |

## Left out

- Reading the template file, choosing the preset and the fallback to the built-in templates: this is file and settings I/O outside the core.
- Replacing the `imageDataIndent` tag and `Parser::parseBlocks`: these are separate steps around `parse`, outside the core.
- The image conversion chain of `ConverterHelper` (prepare, pixel data, pack, reorder, compress, to string): it is a parameter, `Source.convert`, giving the converted words and their text.
- The text codec: `QTextCodec::fromUnicode` is a parameter, `Source.codec`, giving the bytes of a character. The case where no codec is found for the encoding name is not modelled.
- The order of the images is the order of `Source.items`. How the data container orders its keys is not modelled.
- Regular-expression metacharacters inside block names: names are matched literally.
- The content expression is searched from the position of the start marker. The model looks only for the nearest end marker, because a match starting later implies one at the start marker (`Markers.FindBlockExists`).
- Parser.Parse: requires tag values without `@` or `$`, and a source whose per-image values are free of them too. Otherwise the rewriting of `parseSimple` could run forever, and a total model cannot express that.
- Substitution.Simple: requires marker-free tag values for the same reason.
- Parser.Images: a map or source outside these conditions leaves the text empty. Such input does not reach it from `Parser.Parse`.
- Parser.Render, Parser.Scan and Parser.Step carry no contract of their own. What they compute is stated by the lemmas about them.
- Unicode: characters are Dafny `char`, whole Unicode scalar values. `QString` stores UTF-16 code units. The length test at the end of `parse` is modelled in code units (`Text.Utf16Length`). `key.at(0)` and `key.left(1)` are not: for a key that starts with a character outside the Basic Multilingual Plane they give a lone high surrogate, while the model takes the whole first character for the codec and for `charText`.
- ImagesTable.SourceOk: excludes keys whose character text holds `$`, for instance the key `$` itself, so a font that covers printable ASCII lies outside it, and `Parser.Images` then renders the images table as empty text. A lone `$` opens no tag in the source. The model still counts it, because the count of `@` and `$` is the measure that shows the rewriting of `parseSimple` ends.
- ImagesTable.Source: its `encoding` and `bom` are separate fields. They are not tied to `MatrixInfo.Config`, although both read them from the preset's font settings.
- Markers.OpensBlock: assumes that the optional `(start_block_)?` group of the minimal tag expression captures whenever the name starts with `start_block_`. The model does not derive this from how `QRegExp` resolves optional groups.
- Substitution.SimpleFlat: stated only for separated templates. `Substitution.SimpleStraddle` shows what `parseSimple` does to one that is not.

## Findings

| source | as written | input that shows it | evidently intended | confidence | as-written member | corrected member |
|---|---|---|---|---|---|---|
| classes/parser/parser.cpp:156-157 | the trailing text is copied only when `last < templateString.length() - 1`, so a single UTF-16 code unit after the last marker is dropped | the template `x` renders to empty text; `@a@;` renders without the `;` | copy the trailing text whenever any is left (`last < length`) | high, not executed | Parser.LastCharacterAfterTagLost | Parser.RenderNoMarkers |
| classes/parser/parser.cpp:122-146 | a start marker with no matching end leaves `prevIndex` where it was, so the text before the marker is copied again at the next copy | `A@start_block_x@B` renders to `AA@start_block_x@B` | a start block without an end renders as nothing, and the text before it is not repeated: `A@start_block_x@B` renders to `AB` | medium, not executed | Parser.UnmatchedStartRepeatsText | Parser.CorrectedUnmatchedDropped |
| classes/parser/parser.cpp:314-350 | only the lowest 16-bit unit (UTF-16) or 32-bit unit (UTF-32) of the code is reordered, so the byte-order mark a codec writing little-endian units puts first stays reversed | `A` as UTF-16 `ff fe 41 00` with the mark prints `fffe0041`; as UTF-32 `ff fe 00 00 41 00 00 00` prints `fffe000000000041` | every unit reordered, so the mark reads `feff`: `feff0041` and `0000feff00000041`, matching the comments at lines 325 and 348 | medium, not executed | CharCode.Utf16Example | CharCode.HexCodeCorrected |

The second row concerns a start marker without an end. Such a marker
opens no block, so there is no content to render. The code copies the
marker as text, and it also repeats the text in front of it. The corrected
variant drops the marker and does not repeat the text, and
`Parser.CorrectedCopiesPendingOnce` states that no pending text is copied
twice. The first row is also shown for a one-character template by
`Parser.OneCharacterLost`, and `Parser.RenderFlat` states the corrected
behaviour for whole templates of literals and tags.

The third row concerns the byte-order mark. A codec that writes
little-endian units, as Qt's UTF-16 and UTF-32 codecs do on a
little-endian host, writes the mark as `ff fe` and `ff fe 00 00`; the code
reorders only the character's unit, so the mark stays reversed, while the
comments beside the two mark branches show it as `feff`.
`CharCode.HexCodeCorrected` reorders every unit and prints the same as the
source whenever no mark is asked for. The images table keeps the source's
`CharCode.HexCode`, so the model of `parseImagesTable` prints the code as
the program does.
