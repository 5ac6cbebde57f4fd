/** Python `bytes` values and `str.encode("utf-8")` (section 3 of RFC 3629),
    used when text is stored as an artifact. */
module Bytes {
  import opened Outcomes

  type byte = b: int | 0 <= b < 0x100

  /** The UTF-8 encoding of one Unicode scalar value. */
  function EncodeChar(c: char): (bs: seq<byte>)
    ensures 1 <= |bs| <= 4
  {
    var cp := c as int;
    if cp < 0x80 then [cp]
    else if cp < 0x800 then [0xC0 + cp / 0x40, 0x80 + cp % 0x40]
    else if cp < 0x10000 then [0xE0 + cp / 0x1000, 0x80 + (cp / 0x40) % 0x40, 0x80 + cp % 0x40]
    else [0xF0 + cp / 0x40000, 0x80 + (cp / 0x1000) % 0x40, 0x80 + (cp / 0x40) % 0x40, 0x80 + cp % 0x40]
  }

  /** `s.encode("utf-8")`. */
  function Utf8Encode(s: string): (bs: seq<byte>)
    ensures |s| <= |bs| <= 4 * |s|
  {
    if s == [] then [] else EncodeChar(s[0]) + Utf8Encode(s[1..])
  }

  predicate IsContinuation(b: byte)
  {
    0x80 <= b < 0xC0
  }

  /** The length of the sequence a leading byte announces, 0 if it cannot lead. */
  function SequenceLength(lead: byte): nat
  {
    if lead < 0x80 then 1
    else if 0xC0 <= lead < 0xE0 then 2
    else if 0xE0 <= lead < 0xF0 then 3
    else if 0xF0 <= lead < 0xF8 then 4
    else 0
  }

  predicate IsScalarValue(cp: int)
  {
    (0 <= cp < 0xD800) || (0xE000 <= cp < 0x11_0000)
  }

  /** Decodes the first character of a UTF-8 byte sequence, rejecting
      truncated, overlong and surrogate forms. */
  function DecodeFirst(bs: seq<byte>): Option<(char, nat)>
  {
    if bs == [] then None
    else
      var n := SequenceLength(bs[0]);
      if n == 0 || |bs| < n || exists i :: 1 <= i < n && !IsContinuation(bs[i]) then None
      else
        var cp := CodePoint(bs[..n]);
        var minimum: int := if n == 1 then 0 else if n == 2 then 0x80 else if n == 3 then 0x800 else 0x10000;
        if IsScalarValue(cp) && minimum <= cp then Some((cp as char, n)) else None
  }

  /** The code point a well-formed sequence of one to four bytes carries. */
  function CodePoint(bs: seq<byte>): int
    requires 1 <= |bs| <= 4
  {
    var b0: int := bs[0];
    if |bs| == 1 then b0
    else if |bs| == 2 then (b0 - 0xC0) * 0x40 + Low6(bs[1])
    else if |bs| == 3 then (b0 - 0xE0) * 0x1000 + Low6(bs[1]) * 0x40 + Low6(bs[2])
    else (b0 - 0xF0) * 0x40000 + Low6(bs[1]) * 0x1000 + Low6(bs[2]) * 0x40 + Low6(bs[3])
  }

  /** The six payload bits of a continuation byte. */
  function Low6(b: byte): int
  {
    b as int - 0x80
  }

  /** `bs.decode("utf-8")`, or None where Python raises UnicodeDecodeError. */
  function Utf8Decode(bs: seq<byte>): Option<string>
    decreases |bs|
  {
    if bs == [] then Some("")
    else
      match DecodeFirst(bs)
      case None => None
      case Some((c, n)) =>
        if n == 0 then None
        else
          match Utf8Decode(bs[n..])
          case None => None
          case Some(rest) => Some([c] + rest)
  }

  /** The bytes `EncodeChar` writes carry the character's code point, after a
      leading byte that announces their number. */
  lemma EncodeCharFields(c: char)
    ensures SequenceLength(EncodeChar(c)[0]) == |EncodeChar(c)|
    ensures forall i :: 1 <= i < |EncodeChar(c)| ==> IsContinuation(EncodeChar(c)[i])
    ensures CodePoint(EncodeChar(c)) == c as int
  {
    var cp := c as int;
    if cp < 0x80 {
    } else if cp < 0x800 {
      TwoBytes(cp);
    } else if cp < 0x10000 {
      ThreeBytes(cp);
    } else {
      FourBytes(cp);
    }
  }

  lemma TwoBytes(cp: int)
    requires 0x80 <= cp < 0x800
    ensures (cp / 0x40) * 0x40 + cp % 0x40 == cp && 2 <= cp / 0x40 < 0x20
  {
  }

  lemma ThreeBytes(cp: int)
    requires 0x800 <= cp < 0x10000
    ensures (cp / 0x1000) * 0x1000 + ((cp / 0x40) % 0x40) * 0x40 + cp % 0x40 == cp
    ensures cp / 0x1000 < 0x10
  {
    var q := cp / 0x40;
    assert cp == q * 0x40 + cp % 0x40;
    assert q == (cp / 0x1000) * 0x40 + q % 0x40;
  }

  lemma FourBytes(cp: int)
    requires 0x10000 <= cp < 0x110000
    ensures (cp / 0x40000) * 0x40000 + ((cp / 0x1000) % 0x40) * 0x1000
            + ((cp / 0x40) % 0x40) * 0x40 + cp % 0x40 == cp
    ensures cp / 0x40000 < 0x8
  {
    var q := cp / 0x40;
    var r := cp / 0x1000;
    assert cp == q * 0x40 + cp % 0x40;
    assert q == r * 0x40 + q % 0x40;
    assert r == (cp / 0x40000) * 0x40 + r % 0x40;
  }

  lemma DecodeEncodeChar(c: char, rest: seq<byte>)
    ensures DecodeFirst(EncodeChar(c) + rest) == Some((c, |EncodeChar(c)|))
  {
    var head := EncodeChar(c);
    var bs := head + rest;
    EncodeCharFields(c);
    assert bs[..|head|] == head;
    assert bs[0] == head[0];
    assert forall i :: 1 <= i < |head| ==> bs[i] == head[i];
  }

  /** Decoding what `encode("utf-8")` produced gives the text back. */
  lemma {:induction false} Utf8RoundTrip(s: string)
    ensures Utf8Decode(Utf8Encode(s)) == Some(s)
  {
    if s != [] {
      var head := EncodeChar(s[0]);
      DecodeEncodeChar(s[0], Utf8Encode(s[1..]));
      assert (head + Utf8Encode(s[1..]))[|head|..] == Utf8Encode(s[1..]);
      Utf8RoundTrip(s[1..]);
      assert [s[0]] + s[1..] == s;
    }
  }
}
