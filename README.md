# segme in Dafny

A model of the string-processing core of segme (`src/lib.rs`). The core has two parts.

- **The HTML escaper:** `entity_escape_char` and `html_escape`.
  - An allow-listed character is copied unchanged. The allow-list is `'0'..='9'`, `'A'..='z'` and the space.
  - Every other character becomes a hexadecimal numeric character reference: `&#x`, the code point in upper-case hexadecimal, then `;`. This is the form of the WHATWG HTML Living Standard, section 13.1.4 "Character references".
- **The segment-table builder:** `segment_table`. It builds one HTML table with three rows, in this order:
  - the text's extended grapheme clusters;
  - its code points;
  - its UTF-8 bytes.

  Each cell spans as many byte columns as it covers, so the three rows line up.

How it is laid out:

- `html_escape` and `segment_table` append to a mutable string in loops, so they are methods with loops (`Escaper.HtmlEscape`, `Segments.SegmentTable` and its three `Push…Cells` loops).
- Each method is proved equal to a specification function: `Escaper.Escaped`, and for the table `Segments.RenderTable` applied to the three rows.
- A row is a sequence of `Cell` values. Each row is a function of the input: `ClusterRow`, `CodePointRow` and `ByteRow`.
- The properties the source promises are lemmas about those functions:
  - escaping safety and its round trip (`Escaper`);
  - row alignment (`Alignment`);
  - UTF-8 lengths and decoding (`Utf8`);
  - digit rendering (`Radix`);
  - small worked inputs (`Scenarios`).

Choices made in the model:

- A `char` is a Dafny `char`. Like a Rust `char`, it is a Unicode scalar value.
- Strings are `seq<char>`. Bytes are `Utf8.byte` (0..255).
- Two collaborators are parameters:
  - `graphemes: seq<string>` is what `t.graphemes(true)` yields. The lemmas that need it require `Concat(graphemes) == t`, and `Segments.IsSegmentation` also asks for non-empty pieces.
  - `name: char -> Option<string>` is `unicode_names2::name`.
- The row functions, the render functions and a few predicates are definitions. They carry no contracts of their own: their rows below say what each renders, and the lemmas state what they promise.

Three facts of the code that the model keeps as they are:

- **Byte cells:** `{:x}` (src/lib.rs:58) prints a byte in lower-case hexadecimal with no zero padding. So byte `0x0a` is shown as `a`, and a byte cell holds one or two digits.
- **Family emoji:** MAN, ZERO WIDTH JOINER, WOMAN, ZERO WIDTH JOINER, GIRL encodes to 4 + 3 + 4 + 3 + 4 = 18 bytes. Its cluster cell spans 18 columns.
- **Raw insertion:** the cluster text, the code-point glyph and the character's name go into the markup unescaped (src/lib.rs:36, 44, 49).

## Model

| member | source | states |
|---|---|---|
| Escaper.IsAllowed | src/lib.rs:20-22 | Definition: the allow-list, `'0'..='9'`, `'A'..='z'` (which holds `[ \ ] ^ _` and the backtick) and the space. |
| Escaper.Escaped | src/lib.rs:16-27 | Definition: the output of `html_escape`, the pieces `EscapeOne` of the characters joined in input order. |
| Radix.Format | src/lib.rs:6 | Definition: the numeral of `n`, most significant digit first, no padding, a single zero digit for zero. It serves `{:X}` at line 6, `{}` at line 34 and `{:x}` at line 58. |
| Utf8.Encode | src/lib.rs:57 | Definition: the bytes `t.bytes()` yields, the encodings of the characters joined in order. |
| Segments.IsAsciiAlphanumeric | src/lib.rs:45 | Definition: `char::is_ascii_alphanumeric`, `'0'..='9'`, `'A'..='Z'` or `'a'..='z'`. |
| Segments.Concat | src/lib.rs:32 | Definition: the clusters joined back into one string, used to state that the grapheme iterator partitions the text. |
| Segments.ClusterRow | src/lib.rs:32-37 | Definition: one cluster cell per grapheme, in order, with colspan `grapheme.len()` and the grapheme as its text. |
| Segments.CodePointRow | src/lib.rs:40-55 | Definition: one code-point cell per character, in order, with colspan `len_utf8`, the glyph and `NameAnnotation`. |
| Segments.ByteRow | src/lib.rs:57-59 | Definition: one byte cell per byte, in order. |
| Segments.RenderCell | src/lib.rs:33-58 | Definition: the three cell templates. A cluster cell is `<td colspan="N"><span class="char">G</span></td>` (line 34). A code-point cell is `<td colspan="N"><span class="char">C</span><div class="name">A</div></td>` (line 42). A byte cell is `<td>H</td>` (line 58). N is `ColspanText`, H is `ByteText`. |
| Segments.RenderRow | src/lib.rs:33-37 | Definition: a row's cells rendered and joined in order, as each loop pushes them. |
| Segments.RenderRows | src/lib.rs:31-60 | Definition: the constants `ClustersHeader` `<tr><th>Grapheme clusters</th>` (line 31), `CodePointsHeader` `</tr><tr><th>Code points</th>` (line 39), `BytesHeader` `</tr><tr class="bytes-row"><th>UTF-8 bytes</th>` (line 56) and `RowEnd` `</tr>` (line 60), in that order, each header followed by its rendered row. |
| Segments.RenderTable | src/lib.rs:61 | Definition: `TableStart` `<table class="segmented">`, the rows, then `TableEnd` `</table>`. |
| Escaper.EntityEscapeChar | src/lib.rs:5-7 | The reference is `&#x`, then a canonical upper-case hex numeral (no leading zero) whose value is the code point, then `;`. No character after the leading `&` is `<`, `>`, `"`, `'` or `&`. |
| Radix.FormatOfValue | src/lib.rs:6 | A canonical numeral is the rendering of its own value. So the digits in `EntityEscapeChar` are the only canonical hex spelling of the code point. |
| Radix.ValueOfFormat | src/lib.rs:6 | Reading back the `{:X}`, `{:x}` or `{}` rendering of a number gives the number. |
| Radix.CanonicalInjective | src/lib.rs:6 | Two canonical numerals with the same value are equal. |
| Radix.FormatBelowSquare | src/lib.rs:58 | A number below `b*b` renders with one digit when below `b`, otherwise two. |
| Escaper.EscapeOne | src/lib.rs:19-23 | A character's piece is the character itself exactly when it is in `'0'..='9'`, `'A'..='z'` or is the space. |
| Escaper.HtmlEscape | src/lib.rs:16-27 | The loop's result equals `Escaped(text)`, the pieces of the characters joined in input order. The invariant is that `result` is the escape of the prefix read so far. |
| Escaper.EscapedAt | src/lib.rs:18-24 | Character `i` contributes its own piece, after the pieces of the characters before it and before those after it. |
| Escaper.EscapedLength | src/lib.rs:16-27 | The output is never shorter than the input. It has the same length exactly when every character is allowed. |
| Escaper.EscapedIsIdentityIff | src/lib.rs:18-24 | `html_escape(t) == t` if and only if every character of `t` is on the allow-list. |
| Escaper.EscapedIsSafe | src/lib.rs:9-15 | The output contains no `<`, `>`, `"` or `'`. Every `&` in it starts a well-formed reference. |
| Escaper.ReadEntity | src/lib.rs:5-7 | An emitted reference, followed by anything, reads back as the escaped character and has the reference's length. |
| Escaper.UnescapeEscaped | src/lib.rs:16-27 | Decoding the references in `html_escape(t)` gives back `t`, so escaping loses nothing. |
| Utf8.LenUtf8 | src/lib.rs:43 | `char::len_utf8` lies in 1..4, with the RFC 3629 thresholds 0x80, 0x800 and 0x10000. |
| Utf8.EncodeChar | src/lib.rs:57 | A character encodes to `len_utf8` bytes, and every byte after the first is a continuation byte. |
| Utf8.EncodeLength | src/lib.rs:35 | `str::len` equals the sum of `len_utf8` over the characters. |
| Utf8.DecodeEncodeChar | src/lib.rs:57 | Decoding the bytes of one character, whatever follows them, gives the character and its length. |
| Utf8.DecodeEncode | src/lib.rs:57 | The bytes `t.bytes()` yields decode back to `t`. |
| Segments.NameAnnotation | src/lib.rs:45-53 | The annotation is empty for an ASCII letter or digit. Otherwise it is the character's name, or `?` when it has none. It is empty only for an alphanumeric or for an empty name. |
| Segments.ColspanText | src/lib.rs:34-35 | The colspan is printed as the canonical decimal numeral of the length. |
| Segments.ByteText | src/lib.rs:58 | A byte is printed as canonical lower-case hex of its value: one digit below 16, two digits otherwise, with no padding. |
| Segments.ClusterRowSnoc | src/lib.rs:32-37 | One more grapheme adds its cell, of span `grapheme.len()`, at the end of the cluster row. |
| Segments.CodePointRowSnoc | src/lib.rs:40-55 | One more character adds its cell, of span `len_utf8` with glyph and annotation, at the end of the code-point row. |
| Segments.ByteRowSnoc | src/lib.rs:57-59 | One more byte adds its cell at the end of the byte row. |
| Segments.PushClusterCells | src/lib.rs:32-38 | The first loop appends exactly the rendered cluster row to `rows`. |
| Segments.PushCodePointCells | src/lib.rs:40-55 | The second loop appends exactly the rendered code-point row to `rows`. |
| Segments.PushByteCells | src/lib.rs:57-59 | The third loop appends exactly the rendered byte row to `rows`. |
| Segments.SegmentTable | src/lib.rs:30-62 | The output is `<table class="segmented">` wrapping the three header cells and the three rendered rows, in the order clusters, code points, bytes, then `</tr>` and `</table>`. |
| Alignment.CodePointSpanSum | src/lib.rs:40-43 | The code-point row has one cell per character. Its colspans add up to the text's UTF-8 length. |
| Alignment.CodePointColumns | src/lib.rs:40-45 | Code-point cell `i` shows character `i` and its annotation, with a colspan `len_utf8` in 1..4. The byte columns it covers hold exactly that character's encoding. |
| Alignment.ByteRowSpans | src/lib.rs:57-58 | The byte row has exactly one cell per byte, in order, and each cell spans one column (no colspan). |
| Alignment.ClusterSpanSum | src/lib.rs:32-37 | The cluster row's colspans add up to the UTF-8 length of the clusters joined together. |
| Alignment.RowsSpanTheBytes | src/lib.rs:32-59 | When the clusters partition the text, all three rows span the text's byte count. |
| Alignment.ClusterColumns | src/lib.rs:32-43 | When the clusters partition the text, cluster cell `k` starts at the column where its characters' code-point cells start. Its colspan is the sum of their `len_utf8`. |
| Alignment.EmptyText | src/lib.rs:31-61 | For empty input, the table holds only the three header cells. |
| Scenarios.HiFiveUnchanged | src/lib.rs:16-27 | `html_escape("Hi 5")` is `"Hi 5"`. |
| Scenarios.HiFiveBytes | src/lib.rs:57 | `"Hi 5"` is the bytes 0x48 0x69 0x20 0x35. |
| Scenarios.HiFiveClusters | src/lib.rs:32-37 | Four one-character clusters partition `"Hi 5"`, and each gets a cell of span 1. |
| Scenarios.HiFiveCodePoints | src/lib.rs:40-55 | Each code point of `"Hi 5"` spans 1. Only the space gets a name annotation. |
| Scenarios.HiFiveByteRow | src/lib.rs:57-59 | The byte row of `"Hi 5"` is its four bytes. |
| Scenarios.FamilyCharBytes | src/lib.rs:57 | The encodings of U+1F468, U+200D, U+1F469 and U+1F467. |
| Scenarios.FamilyBytes | src/lib.rs:57 | The family emoji is 18 bytes long. |
| Scenarios.FamilyRows | src/lib.rs:32-58 | As one cluster, the family emoji gets one cell of span 18, above five code-point cells of spans 4, 3, 4, 3, 4 and 18 byte cells. |
| Scenarios.LessThanPieces | src/lib.rs:5-7 | `a` and `b` are copied, and `<` becomes `&#x3C;`. |

## Left out

- `version()` and its `include_str!("version.html")` template (src/lib.rs:64-70). It is a constant built from a file that is not part of this model.
- The `wasm_bindgen` attributes and the JavaScript/WebAssembly boundary (src/lib.rs:3, 29, 64). They are transport, not logic.
- The UAX #29 grapheme-boundary algorithm of `unicode_segmentation` (Unicode Standard Annex #29, section 3.1). It is a parameter, `graphemes`. Its only assumed property is that the non-empty pieces join back into the text, and only the lemmas that need that property require it. `SegmentTable` does not check it.
- The `unicode_names2::name` table. It is the parameter `name`.
- Rust's `format!` machinery beyond what the code uses: decimal `{}` for colspans, `{:X}` for references and `{:x}` for bytes. Each is modelled by `Radix.Format`. Inserting `{}` of a `&str`, a `char` or a `String` is concatenation.
- `String::with_capacity` (src/lib.rs:17). It is an allocation hint with no effect on the result.
- `Escaper.Unescape` is a partner written only to state the round trip. It reads the upper-case `&#x…;` form that `entity_escape_char` emits, not every reference HTML allows. The source has no decoder.
- Rust's `u32` cast in `entity_escape_char` (src/lib.rs:6) cannot overflow, because a scalar value is below 0x110000. The model uses `c as int`.
