/**
  The HTML escaper of src/lib.rs: `entity_escape_char` and `html_escape`. An allow-listed
  character is copied; every other character becomes a hexadecimal numeric character
  reference (`&#x`, upper-case hex digits, `;`), the form of the WHATWG HTML Living Standard,
  section 13.1.4 "Character references".
 */
module Escaper {
  import opened Wrappers
  import opened Radix
  import Utf8
  import opened Seqs

  /** The allow-list of `html_escape`: `'0'..='9'`, `'A'..='z'` (which also holds `[ \ ] ^ _` and the backtick) and the space. */
  predicate IsAllowed(c: char) {
    ('0' <= c <= '9') || ('A' <= c <= 'z') || c == ' '
  }

  /** A character that could open or close a tag or close a quoted attribute value. */
  predicate IsTagOrQuote(c: char) {
    c == '<' || c == '>' || c == '"' || c == '\''
  }

  /** A character with a meaning in HTML markup: the four above and `&`, which opens a reference. */
  predicate IsMarkup(c: char) {
    IsTagOrQuote(c) || c == '&'
  }

  /** `entity_escape_char`: `&#x`, the code point in canonical upper-case hexadecimal, then `;`. */
  function EntityEscapeChar(c: char): (r: string)
    ensures |r| >= 4 && r[..3] == "&#x" && r[|r| - 1] == ';'
    ensures IsCanonical(r[3..|r| - 1], UpperHexDigits)
    ensures Value(r[3..|r| - 1], UpperHexDigits) == c as int
    ensures forall i :: 0 < i < |r| ==> !IsMarkup(r[i])
  {
    AlphabetsAreAlphabets();
    var digits := Format(c as int, UpperHexDigits);
    ValueOfFormat(c as int, UpperHexDigits);
    ReferenceShape(digits);
    "&#x" + digits + ";"
  }

  lemma ReferenceShape(digits: string)
    requires IsCanonical(digits, UpperHexDigits)
    ensures var r := "&#x" + digits + ";";
      && r[..3] == "&#x" && r[3..|r| - 1] == digits
      && forall i :: 0 < i < |r| ==> !IsMarkup(r[i])
  {
    var r := "&#x" + digits + ";";
    assert r[3..|r| - 1] == digits;
    forall i | 0 < i < |r| ensures !IsMarkup(r[i]) {
      if 3 <= i < |r| - 1 {
        assert r[i] == digits[i - 3];
        UpperHexDigitRange(digits[i - 3]);
      }
    }
  }

  /** What `html_escape` writes for one character of its input. */
  function EscapeOne(c: char): (r: string)
    ensures r == [c] <==> IsAllowed(c)
  {
    if IsAllowed(c) then [c] else EntityEscapeChar(c)
  }

  /** The whole output of `html_escape`: the pieces of the characters, in input order. */
  function Escaped(t: string): string {
    FlatMap(EscapeOne, t)
  }

  /** `html_escape`: one pass over the characters, appending each one's piece to `result`. */
  method HtmlEscape(text: string) returns (result: string)
    ensures result == Escaped(text)
  {
    result := [];
    var i := 0;
    while i < |text|
      invariant i <= |text|
      invariant result == Escaped(text[..i])
    {
      var c := text[i];
      FlatMapSnoc(EscapeOne, text[..i], c);
      assert text[..i + 1] == text[..i] + [c];
      result := result + EscapeOne(c);
      i := i + 1;
    }
    assert text[..i] == text;
  }

  /** Each input character contributes its own piece, after the pieces of the characters before it. */
  lemma EscapedAt(t: string, i: nat)
    requires i < |t|
    ensures Escaped(t) == Escaped(t[..i]) + EscapeOne(t[i]) + Escaped(t[i + 1..])
  {
    FlatMapAt(EscapeOne, t, i);
  }

  /** The output grows by at least three characters for every character that is not allowed. */
  lemma {:induction false} EscapedLength(t: string)
    ensures |Escaped(t)| >= |t|
    ensures |Escaped(t)| == |t| <==> forall i :: 0 <= i < |t| ==> IsAllowed(t[i])
    decreases |t|
  {
    if t != [] {
      EscapedLength(t[1..]);
      assert forall i :: 1 <= i < |t| ==> t[i] == t[1..][i - 1];
    }
  }

  /** `html_escape` returns its input unchanged exactly when every character is on the allow-list. */
  lemma {:induction false} EscapedIsIdentityIff(t: string)
    ensures Escaped(t) == t <==> forall i :: 0 <= i < |t| ==> IsAllowed(t[i])
    decreases |t|
  {
    EscapedLength(t);
    if t != [] && forall i :: 0 <= i < |t| ==> IsAllowed(t[i]) {
      EscapedIsIdentityIff(t[1..]);
      assert forall i :: 0 <= i < |t[1..]| ==> t[1..][i] == t[i + 1];
      assert [t[0]] + t[1..] == t;
    }
  }

  /** Number of leading upper-case hexadecimal digits of `s`. */
  function HexRun(s: string): (k: nat)
    ensures k <= |s| && AllDigits(s[..k], UpperHexDigits)
    ensures k < |s| ==> s[k] !in UpperHexDigits
    decreases |s|
  {
    if s != [] && s[0] in UpperHexDigits then
      var k := 1 + HexRun(s[1..]);
      assert forall i :: 1 <= i < k ==> s[..k][i] == s[1..][..k - 1][i - 1];
      k
    else 0
  }

  /** Reads a reference `&#x` hex-digits `;` from the front of `s`: the character it denotes and its length. */
  function ReadReference(s: string): Option<(char, nat)> {
    if |s| < 3 || s[..3] != "&#x" then None
    else
      var rest := s[3..];
      var k := HexRun(rest);
      if k == 0 || k >= |rest| || rest[k] != ';' then None
      else
        var v := Value(rest[..k], UpperHexDigits);
        if Utf8.IsScalarValue(v) then Some((v as char, 4 + k)) else None
  }

  /** Replaces every reference by the character it denotes; `None` when an `&` does not start one. */
  function Unescape(s: string): Option<string>
    decreases |s|
  {
    if s == [] then Some([])
    else if s[0] != '&' then
      match Unescape(s[1..])
      case None => None
      case Some(rest) => Some([s[0]] + rest)
    else
      match ReadReference(s)
      case None => None
      case Some((c, k)) =>
        if 0 < k <= |s| then
          match Unescape(s[k..])
          case None => None
          case Some(rest) => Some([c] + rest)
        else None
  }

  lemma {:induction false} HexRunOfDigits(d: string, z: string)
    requires AllDigits(d, UpperHexDigits)
    requires z != [] && z[0] !in UpperHexDigits
    ensures HexRun(d + z) == |d|
    decreases |d|
  {
    if d != [] {
      assert (d + z)[1..] == d[1..] + z;
      HexRunOfDigits(d[1..], z);
    }
  }

  /** A well-formed reference at the front of `s`: its digits, then `;`, then anything. */
  lemma ReadWellFormed(s: string, rest: string, digits: string, z: string)
    requires |s| >= 3 && s[..3] == "&#x" && s[3..] == rest && rest == digits + ([';'] + z)
    requires digits != [] && HexRun(rest) == |digits| && AllDigits(digits, UpperHexDigits)
    requires Utf8.IsScalarValue(Value(digits, UpperHexDigits))
    ensures ReadReference(s) == Some((Value(digits, UpperHexDigits) as char, |digits| + 4))
  {
    assert rest[|digits|] == ';';
    assert rest[..|digits|] == digits;
  }

  /** A reference of the shape `entity_escape_char` emits, followed by `z`: `&#x`, its digits, `;`, then `z`. */
  lemma ReferenceParts(e: string, z: string)
    requires |e| >= 4 && e[..3] == "&#x" && e[|e| - 1] == ';'
    ensures var s := e + z;
      && |s| >= 3 && s[..3] == "&#x" && s[3..] == e[3..|e| - 1] + ([';'] + z)
  {
    AppendCut(e, z, 3);
    assert e[3..] == e[3..|e| - 1] + [e[|e| - 1]];
    AppendAssoc(e[3..|e| - 1], [';'], z);
  }

  /** The run of hexadecimal digits stops at the `;` that closes a reference. */
  lemma HexRunStopsAtSemicolon(digits: string, z: string)
    requires AllDigits(digits, UpperHexDigits)
    ensures HexRun(digits + ([';'] + z)) == |digits|
  {
    if ';' in UpperHexDigits {
      UpperHexDigitRange(';');
    }
    HexRunOfDigits(digits, [';'] + z);
  }

  /** A reference with canonical digits of value `c`, followed by anything, reads back as `c`. */
  lemma ReadReferenceShape(e: string, z: string, c: char)
    requires |e| >= 4 && e[..3] == "&#x" && e[|e| - 1] == ';'
    requires IsCanonical(e[3..|e| - 1], UpperHexDigits) && Value(e[3..|e| - 1], UpperHexDigits) == c as int
    ensures ReadReference(e + z) == Some((c, |e|))
  {
    var digits := e[3..|e| - 1];
    var s := e + z;
    ReferenceParts(e, z);
    HexRunStopsAtSemicolon(digits, z);
    ReadWellFormed(s, s[3..], digits, z);
    assert Value(digits, UpperHexDigits) as char == c;
  }

  /** An emitted reference reads back as the escaped character, whatever follows it. */
  lemma ReadEntity(c: char, z: string)
    ensures ReadReference(EntityEscapeChar(c) + z) == Some((c, |EntityEscapeChar(c)|))
  {
    ReadReferenceShape(EntityEscapeChar(c), z, c);
  }

  /** Decoding one piece: the character comes back and decoding goes on right after the piece. */
  lemma UnescapePiece(c: char, rest: string)
    ensures Unescape(EscapeOne(c) + rest) == match Unescape(rest)
      case None => None
      case Some(r) => Some([c] + r)
  {
    var p := EscapeOne(c);
    var s := p + rest;
    if IsAllowed(c) {
      assert s[0] == c && s[1..] == rest;
    } else {
      ReadEntity(c, rest);
      assert s[0] == '&';
      assert s[|p|..] == rest;
    }
  }

  /** Decoding the references in the output of `html_escape` gives back its input: escaping loses nothing. */
  lemma {:induction false} UnescapeEscaped(t: string)
    ensures Unescape(Escaped(t)) == Some(t)
    decreases |t|
  {
    if t != [] {
      assert Escaped(t) == EscapeOne(t[0]) + Escaped(t[1..]);
      UnescapePiece(t[0], Escaped(t[1..]));
      UnescapeEscaped(t[1..]);
      assert [t[0]] + t[1..] == t;
    }
  }

  /** The piece of one character: no tag or quote character, and an `&` only where a reference starts. */
  lemma EscapeOneIsSafe(c: char, z: string, i: nat)
    requires i < |EscapeOne(c)|
    ensures !IsTagOrQuote(EscapeOne(c)[i])
    ensures EscapeOne(c)[i] == '&' ==> ReadReference((EscapeOne(c) + z)[i..]).Some?
  {
    var p := EscapeOne(c);
    if !IsAllowed(c) {
      assert !IsMarkup(p[i]) || i == 0;
      if i == 0 {
        ReadEntity(c, z);
        assert (p + z)[0..] == p + z;
      }
    }
  }

  /** The output of `html_escape` holds no raw `<`, `>`, `"` or `'`, and every `&` in it starts a well-formed reference. */
  lemma {:induction false} EscapedIsSafe(t: string)
    ensures forall i :: 0 <= i < |Escaped(t)| ==> !IsTagOrQuote(Escaped(t)[i])
    ensures forall i :: 0 <= i < |Escaped(t)| && Escaped(t)[i] == '&' ==> ReadReference(Escaped(t)[i..]).Some?
    decreases |t|
  {
    if t != [] {
      var p := EscapeOne(t[0]);
      var rest := Escaped(t[1..]);
      var s := Escaped(t);
      assert s == p + rest;
      EscapedIsSafe(t[1..]);
      forall i | 0 <= i < |s|
        ensures !IsTagOrQuote(s[i])
        ensures s[i] == '&' ==> ReadReference(s[i..]).Some?
      {
        if i < |p| {
          EscapeOneIsSafe(t[0], rest, i);
        } else {
          assert s[i] == rest[i - |p|];
          assert s[i..] == rest[i - |p|..];
        }
      }
    }
  }
}
