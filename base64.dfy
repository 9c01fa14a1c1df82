/** base64.b64encode, the standard Base 64 encoding of section 4 of RFC 4648:
    each 3 bytes become 4 characters of the alphabet A-Z a-z 0-9 + /, and a
    final group of 1 or 2 bytes is padded with '='. A decoder is written
    alongside to state that the encoding loses nothing. */
module Base64 {
  import opened PyText
  import opened Utf8

  /** The character of a 6-bit value; Value reads it back. */
  function Char(v: nat): (c: char)
    requires v < 64
    ensures Value(c) == Some(v)
  {
    if v < 26 then ('A' as int + v) as char
    else if v < 52 then ('a' as int + (v - 26)) as char
    else if v < 62 then ('0' as int + (v - 52)) as char
    else if v == 62 then '+'
    else '/'
  }

  /** The 6-bit value of an alphabet character, None for any other character. */
  function Value(c: char): (r: Option<nat>)
    ensures r.Some? ==> r.value < 64
  {
    if 'A' <= c <= 'Z' then Some(c as int - 'A' as int)
    else if 'a' <= c <= 'z' then Some(c as int - 'a' as int + 26)
    else if '0' <= c <= '9' then Some(c as int - '0' as int + 52)
    else if c == '+' then Some(62)
    else if c == '/' then Some(63)
    else None
  }

  /** The characters b64encode can produce. */
  predicate IsBase64Char(c: char)
  {
    Value(c).Some? || c == '='
  }

  function Encode(b: seq<byte>): (r: string)
    ensures |r| == (|b| + 2) / 3 * 4
    decreases |b|
  {
    if |b| >= 3 then
      var b0, b1, b2 := b[0], b[1], b[2];
      [Char(b0 / 4), Char((b0 % 4) * 16 + b1 / 16), Char((b1 % 16) * 4 + b2 / 64), Char(b2 % 64)]
        + Encode(b[3..])
    else if |b| == 2 then
      var b0, b1 := b[0], b[1];
      [Char(b0 / 4), Char((b0 % 4) * 16 + b1 / 16), Char((b1 % 16) * 4), '=']
    else if |b| == 1 then
      var b0 := b[0];
      [Char(b0 / 4), Char((b0 % 4) * 16), '=', '=']
    else []
  }

  /** Reads 4-character groups back into bytes; None for text b64encode cannot produce. */
  function Decode(s: string): (r: Option<seq<byte>>)
    decreases |s|
  {
    if s == [] then Some([])
    else if |s| < 4 then None
    else
      var v0, v1, v2, v3 := Value(s[0]), Value(s[1]), Value(s[2]), Value(s[3]);
      if v0.None? || v1.None? then None
      else if s[2] == '=' && s[3] == '=' && |s| == 4 then
        if v1.value % 16 == 0 then Some([v0.value * 4 + v1.value / 16]) else None
      else if v2.None? then None
      else if s[3] == '=' && |s| == 4 then
        if v2.value % 4 == 0 then
          Some([v0.value * 4 + v1.value / 16, (v1.value % 16) * 16 + v2.value / 4])
        else None
      else if v3.None? then None
      else
        match Decode(s[4..])
        case None => None
        case Some(rest) =>
          Some([v0.value * 4 + v1.value / 16, (v1.value % 16) * 16 + v2.value / 4,
                (v2.value % 4) * 64 + v3.value] + rest)
  }

  /** Decoding what b64encode produced gives the bytes back. */
  lemma {:induction false} DecodeEncode(b: seq<byte>)
    ensures Decode(Encode(b)) == Some(b)
    decreases |b|
  {
    var e := Encode(b);
    if |b| >= 3 {
      Regroup(b[0], b[1], b[2]);
      assert e[4..] == Encode(b[3..]);
      DecodeEncode(b[3..]);
      assert b == [b[0], b[1], b[2]] + b[3..];
    } else if |b| == 2 {
      Regroup(b[0], b[1], 0);
      assert e[2] != '=';
      assert b == [b[0], b[1]];
    } else if |b| == 1 {
      Regroup(b[0], 0, 0);
      assert b == [b[0]];
    }
  }

  /** Three bytes cut into four 6-bit values and put back together. */
  lemma Regroup(b0: byte, b1: byte, b2: byte)
    ensures var v0, v1, v2, v3 := b0 / 4, (b0 % 4) * 16 + b1 / 16, (b1 % 16) * 4 + b2 / 64, b2 % 64;
      && v1 % 16 == b1 / 16 && v1 / 16 == b0 % 4
      && v2 % 4 == b2 / 64 && v2 / 4 == b1 % 16
      && v0 * 4 + v1 / 16 == b0
      && (v1 % 16) * 16 + v2 / 4 == b1
      && (v2 % 4) * 64 + v3 == b2
  {
  }

  /** Every character of the encoding is from the alphabet or padding. */
  lemma {:induction false} EncodeChars(b: seq<byte>)
    ensures forall k :: 0 <= k < |Encode(b)| ==> IsBase64Char(Encode(b)[k])
    decreases |b|
  {
    if |b| >= 3 {
      EncodeChars(b[3..]);
      var e := Encode(b);
      forall k | 0 <= k < |e| ensures IsBase64Char(e[k]) {
        if k >= 4 {
          assert e[k] == Encode(b[3..])[k - 4];
        }
      }
    }
  }

  /** b64encode never produces whitespace, so the strip() the handshake applies
      to it changes nothing. */
  lemma StripEncode(b: seq<byte>)
    ensures Strip(Encode(b)) == Encode(b)
  {
    var e := Encode(b);
    EncodeChars(b);
    if e != [] {
      assert IsBase64Char(e[0]) && IsBase64Char(e[|e| - 1]);
    }
    StripNoSpaceAtEnds(e);
  }

  /** Input whose length is not a multiple of 3 ends in padding: a 20-byte SHA-1
      digest encodes to 28 characters, the last of them '='. */
  lemma {:induction false} EndsWithPad(b: seq<byte>)
    requires |b| % 3 != 0
    ensures Encode(b) != [] && Encode(b)[|Encode(b)| - 1] == '='
    decreases |b|
  {
    if |b| >= 3 {
      EndsWithPad(b[3..]);
    }
  }
}
