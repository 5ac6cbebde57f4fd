/** `base64.b64encode` (the standard alphabet and `=` padding of section 4 of
    RFC 4648), used to inline image artifacts into the comparison page, and
    its inverse. */
module Base64 {
  import opened Outcomes
  import opened Bytes

  /** The character of a six-bit value: `A`-`Z`, `a`-`z`, `0`-`9`, `+`, `/`. */
  function SextetChar(v: nat): (c: char)
    requires v < 64
    ensures SextetValue(c) == Some(v)
  {
    if v < 26 then ('A' as int + v) as char
    else if v < 52 then ('a' as int + (v - 26)) as char
    else if v < 62 then ('0' as int + (v - 52)) as char
    else if v == 62 then '+'
    else '/'
  }

  /** The six-bit value of an alphabet character, or None for any other. */
  function SextetValue(c: char): (r: Option<nat>)
    ensures r.Some? ==> r.value < 64
  {
    if 'A' <= c <= 'Z' then Some(c as int - 'A' as int)
    else if 'a' <= c <= 'z' then Some(c as int - 'a' as int + 26)
    else if '0' <= c <= '9' then Some(c as int - '0' as int + 52)
    else if c == '+' then Some(62)
    else if c == '/' then Some(63)
    else None
  }

  predicate IsBase64Char(c: char)
  {
    SextetValue(c).Some? || c == '='
  }

  /** Three bytes, or the one or two that end the input, as four characters. */
  function EncodeGroup(bs: seq<byte>): (s: string)
    requires 1 <= |bs| <= 3
    ensures |s| == 4
    ensures forall i :: 0 <= i < 4 ==> IsBase64Char(s[i])
  {
    var b0: int := bs[0];
    if |bs| == 1 then
      [SextetChar(b0 / 4), SextetChar((b0 % 4) * 16), '=', '=']
    else
      var b1: int := bs[1];
      if |bs| == 2 then
        [SextetChar(b0 / 4), SextetChar((b0 % 4) * 16 + b1 / 16), SextetChar((b1 % 16) * 4), '=']
      else
        var b2: int := bs[2];
        [SextetChar(b0 / 4), SextetChar((b0 % 4) * 16 + b1 / 16), SextetChar((b1 % 16) * 4 + b2 / 64), SextetChar(b2 % 64)]
  }

  /** `base64.b64encode(bs).decode("utf-8")`. */
  function Base64Encode(bs: seq<byte>): (s: string)
    ensures |s| == 4 * ((|bs| + 2) / 3)
    ensures forall i :: 0 <= i < |s| ==> IsBase64Char(s[i])
    decreases |bs|
  {
    if bs == [] then ""
    else if |bs| <= 3 then
      assert (|bs| + 2) / 3 == 1;
      EncodeGroup(bs)
    else
      var g := EncodeGroup(bs[..3]);
      var rest := Base64Encode(bs[3..]);
      assert (|bs| + 2) / 3 == (|bs[3..]| + 2) / 3 + 1;
      assert forall i :: 4 <= i < |g + rest| ==> (g + rest)[i] == rest[i - 4];
      g + rest
  }

  /** Four characters back into the one to three bytes they carry. */
  function DecodeGroup(s: string): Option<seq<byte>>
    requires |s| == 4
  {
    var c0 := SextetValue(s[0]);
    var c1 := SextetValue(s[1]);
    if c0.None? || c1.None? then None
    else
      var v0 := c0.value;
      var v1 := c1.value;
      var b0: byte := v0 * 4 + v1 / 16;
      if s[2] == '=' && s[3] == '=' then
        if v1 % 16 == 0 then Some([b0]) else None
      else
        match SextetValue(s[2])
        case None => None
        case Some(v2) =>
          var b1: byte := (v1 % 16) * 16 + v2 / 4;
          if s[3] == '=' then
            if v2 % 4 == 0 then Some([b0, b1]) else None
          else
            match SextetValue(s[3])
            case None => None
            case Some(v3) => Some([b0, b1, (v2 % 4) * 64 + v3])
  }

  /** `base64.b64decode` on strict input: padding only at the very end. */
  function Base64Decode(s: string): Option<seq<byte>>
    decreases |s|
  {
    if s == "" then Some([])
    else if |s| < 4 then None
    else
      match DecodeGroup(s[..4])
      case None => None
      case Some(g) =>
        if |g| < 3 && |s| > 4 then None
        else
          match Base64Decode(s[4..])
          case None => None
          case Some(rest) => Some(g + rest)
  }

  /** The first byte comes back from the first two characters, and the
      bits of the second character left over are the top of the next byte. */
  lemma SplitFirst(b0: int, b1: int)
    requires 0 <= b0 < 256 && 0 <= b1 < 256
    ensures var v1 := (b0 % 4) * 16 + b1 / 16;
            (b0 / 4) * 4 + v1 / 16 == b0 && v1 % 16 == b1 / 16
  {
  }

  lemma SplitSecond(b1: int, b2: int)
    requires 0 <= b1 < 256 && 0 <= b2 < 256
    ensures var v2 := (b1 % 16) * 4 + b2 / 64;
            (b1 / 16) * 16 + v2 / 4 == b1 && v2 % 4 == b2 / 64
  {
  }

  lemma DecodeEncodeOne(bs: seq<byte>)
    requires |bs| == 1
    ensures DecodeGroup(EncodeGroup(bs)) == Some(bs)
  {
    var b0: int := bs[0];
    SplitFirst(b0, 0);
    assert [bs[0]] == bs;
  }

  lemma DecodeEncodeTwo(bs: seq<byte>)
    requires |bs| == 2
    ensures DecodeGroup(EncodeGroup(bs)) == Some(bs)
  {
    var b0: int := bs[0];
    var b1: int := bs[1];
    SplitFirst(b0, b1);
    SplitSecond(b1, 0);
    assert [bs[0], bs[1]] == bs;
  }

  lemma DecodeEncodeThree(bs: seq<byte>)
    requires |bs| == 3
    ensures DecodeGroup(EncodeGroup(bs)) == Some(bs)
  {
    var b0: int := bs[0];
    var b1: int := bs[1];
    var b2: int := bs[2];
    SplitFirst(b0, b1);
    SplitSecond(b1, b2);
    assert (b2 / 64) * 64 + b2 % 64 == b2;
    var s := EncodeGroup(bs);
    assert SextetValue(s[0]) == Some(b0 / 4);
    assert SextetValue(s[1]) == Some((b0 % 4) * 16 + b1 / 16);
    assert SextetValue(s[2]) == Some((b1 % 16) * 4 + b2 / 64);
    assert SextetValue(s[3]) == Some(b2 % 64);
    assert [bs[0], bs[1], bs[2]] == bs;
  }

  lemma DecodeEncodeGroup(bs: seq<byte>)
    requires 1 <= |bs| <= 3
    ensures DecodeGroup(EncodeGroup(bs)) == Some(bs)
  {
    if |bs| == 1 {
      DecodeEncodeOne(bs);
    } else if |bs| == 2 {
      DecodeEncodeTwo(bs);
    } else {
      DecodeEncodeThree(bs);
    }
  }

  /** Decoding what `b64encode` wrote gives the bytes back. */
  lemma {:induction false} Base64RoundTrip(bs: seq<byte>)
    ensures Base64Decode(Base64Encode(bs)) == Some(bs)
    decreases |bs|
  {
    if bs == [] {
    } else if |bs| <= 3 {
      DecodeEncodeGroup(bs);
      assert Base64Encode(bs)[..4] == EncodeGroup(bs);
      assert Base64Encode(bs)[4..] == "";
      assert bs + [] == bs;
    } else {
      var s := Base64Encode(bs);
      DecodeEncodeGroup(bs[..3]);
      assert s[..4] == EncodeGroup(bs[..3]);
      assert s[4..] == Base64Encode(bs[3..]);
      Base64RoundTrip(bs[3..]);
      assert bs[..3] + bs[3..] == bs;
    }
  }
}
