/**
  Why the three rows of `segment_table` line up: every row spans the text's UTF-8 byte
  count, each code-point cell sits over exactly the bytes of its character, and each cluster
  cell sits over exactly the code-point cells of its characters.
 */
module Alignment {
  import opened Wrappers
  import opened Utf8
  import opened Seqs
  import opened Segments

  lemma CodePointRowSlice(t: string, name: char -> Option<string>, lo: nat, hi: nat)
    requires lo <= hi <= |t|
    ensures CodePointRow(t, name)[lo..hi] == CodePointRow(t[lo..hi], name)
  {
  }

  lemma ClusterRowPrefix(cs: seq<string>, k: nat)
    requires k <= |cs|
    ensures ClusterRow(cs)[..k] == ClusterRow(cs[..k])
  {
  }

  /** The code-point row spans the text's UTF-8 length: the colspans `char::len_utf8` add up to `str::len`. */
  lemma {:induction false} CodePointSpanSum(t: string, name: char -> Option<string>)
    ensures |CodePointRow(t, name)| == |t|
    ensures SpanSum(CodePointRow(t, name)) == |Encode(t)|
    decreases |t|
  {
    if t != [] {
      var row := CodePointRow(t, name);
      assert row[1..] == CodePointRow(t[1..], name);
      CodePointSpanSum(t[1..], name);
    }
  }

  /** Code-point cell `i` shows character `i`, spans `len_utf8` (one to four) columns, and those columns hold exactly that character's bytes. */
  lemma CodePointColumns(t: string, name: char -> Option<string>, i: nat)
    requires i < |t|
    ensures var row := CodePointRow(t, name);
      var lo := SpanSum(row[..i]);
      && row[i] == CodePointCell(LenUtf8(t[i]), t[i], NameAnnotation(t[i], name))
      && 1 <= row[i].colspan <= 4
      && lo + row[i].colspan <= |Encode(t)|
      && Encode(t)[lo..lo + row[i].colspan] == EncodeChar(t[i])
  {
    var row := CodePointRow(t, name);
    CodePointRowSlice(t, name, 0, i);
    assert t[0..i] == t[..i] && row[0..i] == row[..i];
    CodePointSpanSum(t[..i], name);
    assert t == t[..i] + ([t[i]] + t[i + 1..]);
    FlatMapAppend(EncodeChar, t[..i], [t[i]] + t[i + 1..]);
    assert Encode([t[i]] + t[i + 1..]) == EncodeChar(t[i]) + Encode(t[i + 1..]) by {
      assert ([t[i]] + t[i + 1..])[1..] == t[i + 1..];
    }
  }

  /** The byte row has one cell per byte, each spanning one column. */
  lemma {:induction false} ByteRowSpans(bs: seq<byte>)
    ensures |ByteRow(bs)| == |bs| == SpanSum(ByteRow(bs))
    ensures forall i :: 0 <= i < |bs| ==> ByteRow(bs)[i] == ByteCell(bs[i])
    decreases |bs|
  {
    if bs != [] {
      assert ByteRow(bs)[1..] == ByteRow(bs[1..]);
      ByteRowSpans(bs[1..]);
    }
  }

  /** A cluster row spans the UTF-8 length of the clusters joined together. */
  lemma {:induction false} ClusterSpanSum(cs: seq<string>)
    ensures SpanSum(ClusterRow(cs)) == |Encode(Concat(cs))|
    decreases |cs|
  {
    if cs != [] {
      assert ClusterRow(cs)[1..] == ClusterRow(cs[1..]);
      ClusterSpanSum(cs[1..]);
      FlatMapAppend(EncodeChar, cs[0], Concat(cs[1..]));
    }
  }

  /** When the clusters make up the text, the three rows span the same number of columns: the number of UTF-8 bytes. */
  lemma RowsSpanTheBytes(cs: seq<string>, t: string, name: char -> Option<string>)
    requires Concat(cs) == t
    ensures SpanSum(ClusterRow(cs)) == |Encode(t)|
    ensures SpanSum(CodePointRow(t, name)) == |Encode(t)|
    ensures SpanSum(ByteRow(Encode(t))) == |Encode(t)| == |ByteRow(Encode(t))|
  {
    ClusterSpanSum(cs);
    CodePointSpanSum(t, name);
    ByteRowSpans(Encode(t));
  }

  /** Cluster cell `k` starts at the column where the code-point cells of its characters start, and spans exactly those cells: the sum of its characters' `len_utf8`. */
  lemma ClusterColumns(cs: seq<string>, t: string, name: char -> Option<string>, k: nat)
    requires Concat(cs) == t && k < |cs|
    ensures var lo := |Concat(cs[..k])|;
      var hi := lo + |cs[k]|;
      && hi <= |t| && t[lo..hi] == cs[k]
      && SpanSum(ClusterRow(cs)[..k]) == SpanSum(CodePointRow(t, name)[..lo])
      && ClusterRow(cs)[k].colspan == SpanSum(CodePointRow(t, name)[lo..hi])
  {
    var before := Concat(cs[..k]);
    var lo := |before|;
    var hi := lo + |cs[k]|;
    assert cs == cs[..k] + cs[k..];
    FlatMapAppend(ClusterText, cs[..k], cs[k..]);
    assert Concat(cs[k..]) == cs[k] + Concat(cs[k + 1..]) by {
      assert cs[k..][1..] == cs[k + 1..];
    }
    assert t == before + cs[k] + Concat(cs[k + 1..]);
    assert t[..lo] == before;
    assert t[lo..hi] == cs[k];

    ClusterRowPrefix(cs, k);
    ClusterSpanSum(cs[..k]);
    CodePointRowSlice(t, name, 0, lo);
    assert t[0..lo] == t[..lo] && CodePointRow(t, name)[0..lo] == CodePointRow(t, name)[..lo];
    CodePointSpanSum(t[..lo], name);

    CodePointRowSlice(t, name, lo, hi);
    CodePointSpanSum(cs[k], name);
  }

  /** Empty text gives three rows holding only their header cells. */
  lemma EmptyText(cs: seq<string>, name: char -> Option<string>)
    requires IsSegmentation(cs, [])
    ensures RenderTable(ClusterRow(cs), CodePointRow([], name), ByteRow(Encode([])))
      == TableStart + ClustersHeader + CodePointsHeader + BytesHeader + RowEnd + TableEnd
  {
    assert ClusterRow(cs) == [] && CodePointRow([], name) == [] && ByteRow(Encode([])) == [];
    assert RenderRows([], [], []) == ClustersHeader + CodePointsHeader + BytesHeader + RowEnd;
  }
}
