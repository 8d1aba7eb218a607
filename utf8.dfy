/**
  UTF-8 as RFC 3629 defines it (section 3): the bytes Rust stores for a `str`, which
  `segment_table` reads back with `str::bytes` and measures with `char::len_utf8` and
  `str::len`. A Dafny `char` is a Unicode scalar value, as a Rust `char` is.
 */
module Utf8 {
  import opened Wrappers
  import opened Seqs

  type byte = x: int | 0 <= x < 0x100

  /** The values a Rust `char` (and a Dafny `char`) may hold: every code point except the surrogates. */
  predicate IsScalarValue(n: int) {
    0 <= n < 0xD800 || 0xE000 <= n < 0x11_0000
  }

  /** `char::len_utf8`: the number of bytes of the character's encoding (RFC 3629, section 3, table of ranges). */
  function LenUtf8(c: char): (n: nat)
    ensures 1 <= n <= 4
  {
    var v := c as int;
    if v < 0x80 then 1
    else if v < 0x800 then 2
    else if v < 0x1_0000 then 3
    else 4
  }

  /** A continuation byte `10xxxxxx`. */
  predicate IsContinuation(b: byte) {
    0x80 <= b < 0xC0
  }

  /** The encoding of one character: a lead byte announcing the length, then continuation bytes of six bits each. */
  function EncodeChar(c: char): (bs: seq<byte>)
    ensures |bs| == LenUtf8(c)
    ensures forall i :: 1 <= i < |bs| ==> IsContinuation(bs[i])
  {
    var v := c as int;
    if v < 0x80 then [v]
    else if v < 0x800 then [0xC0 + v / 0x40, 0x80 + v % 0x40]
    else if v < 0x1_0000 then [0xE0 + v / 0x1000, 0x80 + (v / 0x40) % 0x40, 0x80 + v % 0x40]
    else [0xF0 + v / 0x4_0000, 0x80 + (v / 0x1000) % 0x40, 0x80 + (v / 0x40) % 0x40, 0x80 + v % 0x40]
  }

  /** The UTF-8 encoding of a whole string (`str::as_bytes`), character after character. */
  function Encode(s: string): seq<byte> {
    FlatMap(EncodeChar, s)
  }

  /** The sum of the characters' encoded lengths. */
  function ByteLength(s: string): nat {
    Sum(LenUtf8, s)
  }

  /** `str::len` equals the sum of `char::len_utf8` over the string's characters. */
  lemma EncodeLength(s: string)
    ensures |Encode(s)| == ByteLength(s)
  {
    FlatMapLength(EncodeChar, LenUtf8, s);
  }

  /** Reads one character from the front of `bs`: the character and the number of bytes it took, or `None` on a malformed sequence. */
  function DecodeChar(bs: seq<byte>): Option<(char, nat)> {
    if |bs| == 0 then None
    else
      var b0: int := bs[0];
      if b0 < 0x80 then Some((b0 as char, 1))
      else if 0xC2 <= b0 < 0xE0 then
        if |bs| >= 2 && IsContinuation(bs[1]) then
          Some((((b0 - 0xC0) * 0x40 + (bs[1] as int - 0x80)) as char, 2))
        else None
      else if 0xE0 <= b0 < 0xF0 then
        if |bs| >= 3 && IsContinuation(bs[1]) && IsContinuation(bs[2]) then
          var v := (b0 - 0xE0) * 0x1000 + (bs[1] as int - 0x80) * 0x40 + (bs[2] as int - 0x80);
          if 0x800 <= v && IsScalarValue(v) then Some((v as char, 3)) else None
        else None
      else if 0xF0 <= b0 < 0xF5 then
        if |bs| >= 4 && IsContinuation(bs[1]) && IsContinuation(bs[2]) && IsContinuation(bs[3]) then
          var v := (b0 - 0xF0) * 0x4_0000 + (bs[1] as int - 0x80) * 0x1000 + (bs[2] as int - 0x80) * 0x40 + (bs[3] as int - 0x80);
          if 0x1_0000 <= v < 0x11_0000 then Some((v as char, 4)) else None
        else None
      else None
  }

  /** Decodes a whole byte sequence, or `None` if it is not well-formed UTF-8. */
  function Decode(bs: seq<byte>): Option<string>
    decreases |bs|
  {
    if bs == [] then Some([])
    else
      match DecodeChar(bs)
      case None => None
      case Some((c, k)) =>
        if 0 < k <= |bs| then
          match Decode(bs[k..])
          case None => None
          case Some(rest) => Some([c] + rest)
        else None
  }

  lemma SplitTwo(v: int)
    requires 0 <= v
    ensures (v / 0x40) * 0x40 + v % 0x40 == v
  {
  }

  lemma SplitThree(v: int)
    requires 0 <= v
    ensures (v / 0x1000) * 0x1000 + ((v / 0x40) % 0x40) * 0x40 + v % 0x40 == v
  {
    var q := v / 0x40;
    assert q == (q / 0x40) * 0x40 + q % 0x40;
    assert q / 0x40 == v / 0x1000;
  }

  lemma SplitFour(v: int)
    requires 0 <= v
    ensures (v / 0x4_0000) * 0x4_0000 + ((v / 0x1000) % 0x40) * 0x1000 + ((v / 0x40) % 0x40) * 0x40 + v % 0x40 == v
  {
    var q := v / 0x1000;
    assert q == (q / 0x40) * 0x40 + q % 0x40;
    assert q / 0x40 == v / 0x4_0000;
    SplitThree(v);
  }

  /** The decoder reads back exactly the character that was encoded, whatever follows it. */
  lemma DecodeEncodeChar(c: char, rest: seq<byte>)
    ensures DecodeChar(EncodeChar(c) + rest) == Some((c, LenUtf8(c)))
  {
    var v := c as int;
    var bs := EncodeChar(c) + rest;
    if v < 0x80 {
    } else if v < 0x800 {
      SplitTwo(v);
    } else if v < 0x1_0000 {
      SplitThree(v);
    } else {
      SplitFour(v);
    }
  }

  /** Encoding loses nothing: decoding the bytes of a string gives the string back. */
  lemma {:induction false} DecodeEncode(s: string)
    ensures Decode(Encode(s)) == Some(s)
    decreases |s|
  {
    if s != [] {
      var head := EncodeChar(s[0]);
      var bs := Encode(s);
      assert bs == head + Encode(s[1..]);
      DecodeEncodeChar(s[0], Encode(s[1..]));
      assert bs[|head|..] == Encode(s[1..]);
      DecodeEncode(s[1..]);
      assert [s[0]] + s[1..] == s;
    }
  }
}
