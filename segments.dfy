/**
  `segment_table` of src/lib.rs: three rows of one HTML table, the text's extended grapheme
  clusters, its code points and its UTF-8 bytes, each cell spanning as many byte columns as
  it covers so that the rows line up.

  The rows are first described as sequences of `Cell`s (what each cell shows and how many
  columns it spans); rendering turns cells into the markup the source writes with `format!`.
  Two collaborators are parameters: `graphemes`, the clusters that `str::graphemes(true)`
  yields (Unicode Standard Annex #29, section 3.1), and `name`, the lookup of
  `unicode_names2::name`.
 */
module Segments {
  import opened Wrappers
  import opened Radix
  import opened Utf8
  import opened Seqs

  /** `char::is_ascii_alphanumeric`. */
  predicate IsAsciiAlphanumeric(c: char) {
    ('0' <= c <= '9') || ('A' <= c <= 'Z') || ('a' <= c <= 'z')
  }

  /** A cluster as the piece it contributes to the joined text: itself. */
  function ClusterText(c: string): string {
    c
  }

  /** The clusters joined back into one string. */
  function Concat(cs: seq<string>): string {
    FlatMap(ClusterText, cs)
  }

  /** What the grapheme iterator guarantees: non-empty pieces that, joined in order, give back the text. */
  predicate IsSegmentation(cs: seq<string>, t: string) {
    Concat(cs) == t && forall i :: 0 <= i < |cs| ==> cs[i] != []
  }

  /** One data cell of the table. A byte cell has no `colspan` attribute. */
  datatype Cell =
    | ClusterCell(colspan: nat, text: string)
    | CodePointCell(colspan: nat, glyph: char, name: string)
    | ByteCell(value: byte)

  /** The number of byte columns a cell covers: its colspan, or one for a byte cell. */
  function Span(c: Cell): nat {
    match c
    case ClusterCell(n, _) => n
    case CodePointCell(n, _, _) => n
    case ByteCell(_) => 1
  }

  /** The columns a row covers. */
  function SpanSum(row: seq<Cell>): nat {
    Sum(Span, row)
  }

  /** The annotation under a code point: empty for an ASCII letter or digit, else its name, or `?` when it has none. */
  function NameAnnotation(c: char, name: char -> Option<string>): (r: string)
    ensures IsAsciiAlphanumeric(c) ==> r == ""
    ensures !IsAsciiAlphanumeric(c) ==> r == (if name(c).Some? then name(c).value else "?")
    ensures r == "" ==> IsAsciiAlphanumeric(c) || name(c) == Some("")
  {
    if IsAsciiAlphanumeric(c) then ""
    else
      match name(c)
      case Some(x) => x
      case None => "?"
  }

  /** The grapheme-cluster row: one cell per cluster, spanning the cluster's UTF-8 length (`str::len`). */
  function ClusterRow(cs: seq<string>): seq<Cell> {
    seq(|cs|, i requires 0 <= i < |cs| => ClusterCell(|Encode(cs[i])|, cs[i]))
  }

  /** The code-point row: one cell per character, spanning its `char::len_utf8`, annotated with its name. */
  function CodePointRow(t: string, name: char -> Option<string>): seq<Cell> {
    seq(|t|, i requires 0 <= i < |t| => CodePointCell(LenUtf8(t[i]), t[i], NameAnnotation(t[i], name)))
  }

  /** The byte row: one cell per byte. */
  function ByteRow(bs: seq<byte>): seq<Cell> {
    seq(|bs|, i requires 0 <= i < |bs| => ByteCell(bs[i]))
  }

  /** The `{}` rendering of a colspan: its canonical decimal numeral. */
  function ColspanText(n: nat): (d: string)
    ensures IsCanonical(d, DecimalDigits) && Value(d, DecimalDigits) == n
  {
    AlphabetsAreAlphabets();
    ValueOfFormat(n, DecimalDigits);
    Format(n, DecimalDigits)
  }

  /** The `{:x}` rendering of a byte: lower-case hexadecimal without zero padding, so one or two digits. */
  function ByteText(b: byte): (h: string)
    ensures IsCanonical(h, LowerHexDigits) && Value(h, LowerHexDigits) == b
    ensures |h| == if b < 16 then 1 else 2
  {
    AlphabetsAreAlphabets();
    ValueOfFormat(b, LowerHexDigits);
    FormatBelowSquare(b, LowerHexDigits);
    Format(b, LowerHexDigits)
  }

  /** The markup of one cell, as the three `format!` templates of `segment_table` write it. */
  function RenderCell(c: Cell): string {
    match c
    case ClusterCell(n, g) =>
      "<td colspan=\"" + ColspanText(n) + "\"><span class=\"char\">" + g + "</span></td>"
    case CodePointCell(n, k, nm) =>
      "<td colspan=\"" + ColspanText(n) + "\"><span class=\"char\">" + [k] + "</span><div class=\"name\">" + nm + "</div></td>"
    case ByteCell(b) =>
      "<td>" + ByteText(b) + "</td>"
  }

  /** The markup of a row's data cells, in order. */
  function RenderRow(row: seq<Cell>): string {
    FlatMap(RenderCell, row)
  }

  const ClustersHeader: string := "<tr><th>Grapheme clusters</th>"
  const CodePointsHeader: string := "</tr><tr><th>Code points</th>"
  const BytesHeader: string := "</tr><tr class=\"bytes-row\"><th>UTF-8 bytes</th>"
  const RowEnd: string := "</tr>"
  const TableStart: string := "<table class=\"segmented\">"
  const TableEnd: string := "</table>"

  /** The three rows in their fixed order: clusters, code points, bytes, each opened by its header cell. */
  function RenderRows(clusters: seq<Cell>, codePoints: seq<Cell>, bytes: seq<Cell>): string {
    ClustersHeader + RenderRow(clusters) + CodePointsHeader + RenderRow(codePoints)
      + BytesHeader + RenderRow(bytes) + RowEnd
  }

  /** The whole fragment: the rows inside `<table class="segmented">`. */
  function RenderTable(clusters: seq<Cell>, codePoints: seq<Cell>, bytes: seq<Cell>): string {
    TableStart + RenderRows(clusters, codePoints, bytes) + TableEnd
  }

  /** The cluster row of one more cluster ends with that cluster's cell. */
  lemma ClusterRowSnoc(cs: seq<string>, i: nat)
    requires i < |cs|
    ensures ClusterRow(cs[..i + 1]) == ClusterRow(cs[..i]) + [ClusterCell(|Encode(cs[i])|, cs[i])]
  {
    var a := ClusterRow(cs[..i + 1]);
    var b := ClusterRow(cs[..i]) + [ClusterCell(|Encode(cs[i])|, cs[i])];
    forall j | 0 <= j < |a|
      ensures a[j] == b[j]
    {
      if j < i {
        assert cs[..i + 1][j] == cs[..i][j];
      }
    }
  }

  /** The byte row of one more byte ends with that byte's cell. */
  lemma ByteRowSnoc(bs: seq<byte>, i: nat)
    requires i < |bs|
    ensures ByteRow(bs[..i + 1]) == ByteRow(bs[..i]) + [ByteCell(bs[i])]
  {
    var a := ByteRow(bs[..i + 1]);
    var b := ByteRow(bs[..i]) + [ByteCell(bs[i])];
    forall j | 0 <= j < |a|
      ensures a[j] == b[j]
    {
      if j < i {
        assert bs[..i + 1][j] == bs[..i][j];
      }
    }
  }

  /** The code-point row of one more character ends with that character's cell. */
  lemma CodePointRowSnoc(t: string, name: char -> Option<string>, i: nat)
    requires i < |t|
    ensures CodePointRow(t[..i + 1], name)
      == CodePointRow(t[..i], name) + [CodePointCell(LenUtf8(t[i]), t[i], NameAnnotation(t[i], name))]
  {
    var a := CodePointRow(t[..i + 1], name);
    var b := CodePointRow(t[..i], name) + [CodePointCell(LenUtf8(t[i]), t[i], NameAnnotation(t[i], name))];
    forall j | 0 <= j < |a|
      ensures a[j] == b[j]
    {
      if j < i {
        assert t[..i + 1][j] == t[..i][j];
      }
    }
  }

  /** The first loop of `segment_table`: appends one cluster cell per grapheme to `rows`. */
  method PushClusterCells(rows: string, graphemes: seq<string>) returns (out: string)
    ensures out == rows + RenderRow(ClusterRow(graphemes))
  {
    out := rows;
    var i := 0;
    while i < |graphemes|
      invariant i <= |graphemes|
      invariant out == rows + RenderRow(ClusterRow(graphemes[..i]))
    {
      var grapheme := graphemes[i];
      var cell := ClusterCell(|Encode(grapheme)|, grapheme);
      ClusterRowSnoc(graphemes, i);
      FlatMapSnoc(RenderCell, ClusterRow(graphemes[..i]), cell);
      AppendAssoc(rows, RenderRow(ClusterRow(graphemes[..i])), RenderCell(cell));
      out := out + RenderCell(cell);
      i := i + 1;
    }
    assert graphemes[..i] == graphemes;
  }

  /** The second loop of `segment_table`: appends one code-point cell per character of `t` to `rows`. */
  method PushCodePointCells(rows: string, t: string, name: char -> Option<string>) returns (out: string)
    ensures out == rows + RenderRow(CodePointRow(t, name))
  {
    out := rows;
    var i := 0;
    while i < |t|
      invariant i <= |t|
      invariant out == rows + RenderRow(CodePointRow(t[..i], name))
    {
      var khar := t[i];
      var cell := CodePointCell(LenUtf8(khar), khar, NameAnnotation(khar, name));
      CodePointRowSnoc(t, name, i);
      FlatMapSnoc(RenderCell, CodePointRow(t[..i], name), cell);
      AppendAssoc(rows, RenderRow(CodePointRow(t[..i], name)), RenderCell(cell));
      out := out + RenderCell(cell);
      i := i + 1;
    }
    assert t[..i] == t;
  }

  /** The third loop of `segment_table`: appends one byte cell per byte of `bytes` to `rows`. */
  method PushByteCells(rows: string, bytes: seq<byte>) returns (out: string)
    ensures out == rows + RenderRow(ByteRow(bytes))
  {
    out := rows;
    var i := 0;
    while i < |bytes|
      invariant i <= |bytes|
      invariant out == rows + RenderRow(ByteRow(bytes[..i]))
    {
      var cell := ByteCell(bytes[i]);
      ByteRowSnoc(bytes, i);
      FlatMapSnoc(RenderCell, ByteRow(bytes[..i]), cell);
      AppendAssoc(rows, RenderRow(ByteRow(bytes[..i])), RenderCell(cell));
      out := out + RenderCell(cell);
      i := i + 1;
    }
    assert bytes[..i] == bytes;
  }

  /** `segment_table`: the header cells and the three loops in their fixed order, then the wrapping table element. */
  method SegmentTable(t: string, graphemes: seq<string>, name: char -> Option<string>) returns (html: string)
    ensures html == RenderTable(ClusterRow(graphemes), CodePointRow(t, name), ByteRow(Encode(t)))
  {
    var rows := ClustersHeader;
    rows := PushClusterCells(rows, graphemes);
    rows := rows + CodePointsHeader;
    rows := PushCodePointCells(rows, t, name);
    rows := rows + BytesHeader;
    rows := PushByteCells(rows, Encode(t));
    rows := rows + RowEnd;
    html := TableStart + rows + TableEnd;
  }
}
