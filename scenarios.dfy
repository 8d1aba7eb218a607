/** Concrete inputs worked through the model. */
module Scenarios {
  import opened Wrappers
  import opened Utf8
  import opened Escaper
  import opened Segments

  /** ASCII letters, a digit and a space: `html_escape` leaves `"Hi 5"` as it is. */
  lemma HiFiveUnchanged()
    ensures Escaped("Hi 5") == "Hi 5"
  {
    var t := "Hi 5";
    assert forall i :: 0 <= i < |t| ==> IsAllowed(t[i]);
    EscapedIsIdentityIff(t);
  }

  /** `"Hi 5"` is four one-byte characters. */
  lemma HiFiveBytes()
    ensures Encode("Hi 5") == [0x48, 0x69, 0x20, 0x35]
  {
    assert Encode("Hi 5") == EncodeChar('H') + Encode("i 5");
    assert Encode("i 5") == EncodeChar('i') + Encode(" 5");
    assert Encode(" 5") == EncodeChar(' ') + Encode("5");
  }

  /** Four one-character clusters make up `"Hi 5"`, and each gets a cluster cell of span one. */
  lemma HiFiveClusters()
    ensures IsSegmentation(["H", "i", " ", "5"], "Hi 5")
    ensures ClusterRow(["H", "i", " ", "5"]) == [ClusterCell(1, "H"), ClusterCell(1, "i"), ClusterCell(1, " "), ClusterCell(1, "5")]
  {
    assert Concat(["H", "i", " ", "5"]) == "Hi 5";
    assert Encode("H") == [0x48] && Encode("i") == [0x69] && Encode(" ") == [0x20] && Encode("5") == [0x35];
  }

  /** The code points of `"Hi 5"` span one column each, and only the space, not being a letter or digit, is annotated. */
  lemma HiFiveCodePoints(name: char -> Option<string>)
    ensures CodePointRow("Hi 5", name)
      == [CodePointCell(1, 'H', ""), CodePointCell(1, 'i', ""), CodePointCell(1, ' ', NameAnnotation(' ', name)), CodePointCell(1, '5', "")]
  {
  }

  /** The byte row of `"Hi 5"`: one cell per byte. */
  lemma HiFiveByteRow()
    ensures ByteRow(Encode("Hi 5")) == [ByteCell(0x48), ByteCell(0x69), ByteCell(0x20), ByteCell(0x35)]
  {
    HiFiveBytes();
  }

  /** The UTF-8 encodings of the family emoji's three people and of the joiner between them. */
  lemma FamilyCharBytes()
    ensures EncodeChar('\U{1F468}') == [0xF0, 0x9F, 0x91, 0xA8]
    ensures EncodeChar('\U{200D}') == [0xE2, 0x80, 0x8D]
    ensures EncodeChar('\U{1F469}') == [0xF0, 0x9F, 0x91, 0xA9]
    ensures EncodeChar('\U{1F467}') == [0xF0, 0x9F, 0x91, 0xA7]
  {
  }

  /** The family emoji MAN, ZERO WIDTH JOINER, WOMAN, ZERO WIDTH JOINER, GIRL is eighteen bytes long. */
  lemma FamilyBytes()
    ensures Encode("\U{1F468}\U{200D}\U{1F469}\U{200D}\U{1F467}")
      == [0xF0, 0x9F, 0x91, 0xA8, 0xE2, 0x80, 0x8D, 0xF0, 0x9F, 0x91, 0xA9, 0xE2, 0x80, 0x8D, 0xF0, 0x9F, 0x91, 0xA7]
  {
    FamilyCharBytes();
  }

  /** As one cluster, the family emoji gets a single cluster cell over all eighteen bytes, above five code-point cells of widths 4, 3, 4, 3, 4. */
  lemma FamilyRows(name: char -> Option<string>)
    ensures var t := "\U{1F468}\U{200D}\U{1F469}\U{200D}\U{1F467}";
      && ClusterRow([t]) == [ClusterCell(18, t)]
      && |CodePointRow(t, name)| == 5
      && (forall i :: 0 <= i < 5 ==> CodePointRow(t, name)[i].colspan == [4, 3, 4, 3, 4][i])
      && |ByteRow(Encode(t))| == 18
  {
    FamilyBytes();
  }

  /** The pieces of `a`, `<` and `b`: the letters are copied, and `<` (code point 0x3C) becomes a reference. */
  lemma LessThanPieces()
    ensures EscapeOne('a') == "a" && EscapeOne('b') == "b"
    ensures EscapeOne('<') == "&#x3C;"
  {
    Radix.AlphabetsAreAlphabets();
    assert Radix.Format(3, Radix.UpperHexDigits) == "3";
    assert Radix.Format(0x3C, Radix.UpperHexDigits) == "3C";
  }
}
