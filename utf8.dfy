/** UTF-8 as Python's str.encode() and bytes.decode('utf-8') implement it
    (RFC 3629): encoding never fails on a Dafny char (a Unicode scalar value);
    decoding rejects stray continuation bytes, overlong forms, surrogates and
    code points above U+10FFFF. */
module Utf8 {
  import opened PyText

  /** A byte of a Python bytes object. */
  type byte = x: int | 0 <= x < 256

  /** The one to four bytes of a code point. */
  function EncodeChar(c: char): (r: seq<byte>)
    ensures 1 <= |r| <= 4
    ensures |r| == 1 <==> c as int < 0x80
  {
    var n := c as int;
    if n < 0x80 then [n]
    else if n < 0x800 then [0xC0 + n / 64, 0x80 + n % 64]
    else if n < 0x10000 then [0xE0 + n / 4096, 0x80 + (n / 64) % 64, 0x80 + n % 64]
    else [0xF0 + n / 262144, 0x80 + (n / 4096) % 64, 0x80 + (n / 64) % 64, 0x80 + n % 64]
  }

  /** str.encode('utf-8') */
  function Encode(s: string): (r: seq<byte>)
    ensures |r| >= |s|
  {
    if s == [] then [] else EncodeChar(s[0]) + Encode(s[1..])
  }

  predicate IsContinuation(b: byte)
  {
    0x80 <= b < 0xC0
  }

  function Code2(b0: int, b1: int): int { (b0 - 0xC0) * 64 + (b1 - 0x80) }
  function Code3(b0: int, b1: int, b2: int): int { (b0 - 0xE0) * 4096 + (b1 - 0x80) * 64 + (b2 - 0x80) }
  function Code4(b0: int, b1: int, b2: int, b3: int): int
  {
    (b0 - 0xF0) * 262144 + (b1 - 0x80) * 4096 + (b2 - 0x80) * 64 + (b3 - 0x80)
  }

  /** The code point at the start of b and the number of bytes it takes, if b starts
      with a well-formed sequence. */
  function DecodeChar(b: seq<byte>): (r: Option<(char, nat)>)
    ensures r.Some? ==> 1 <= r.value.1 <= |b|
  {
    if b == [] then None
    else
      var b0 := b[0];
      if b0 < 0x80 then Some((b0 as char, 1))
      else if 0xC2 <= b0 < 0xE0 then
        if |b| >= 2 && IsContinuation(b[1]) then Some((Code2(b0, b[1]) as char, 2))
        else None
      else if 0xE0 <= b0 < 0xF0 then
        if |b| >= 3 && IsContinuation(b[1]) && IsContinuation(b[2]) then
          var n := Code3(b0, b[1], b[2]);
          if 0x800 <= n && !(0xD800 <= n < 0xE000) then Some((n as char, 3)) else None
        else None
      else if 0xF0 <= b0 < 0xF5 then
        if |b| >= 4 && IsContinuation(b[1]) && IsContinuation(b[2]) && IsContinuation(b[3]) then
          var n := Code4(b0, b[1], b[2], b[3]);
          if 0x10000 <= n <= 0x10FFFF then Some((n as char, 4)) else None
        else None
      else None
  }

  /** bytes.decode('utf-8'): None where Python raises UnicodeDecodeError. */
  function Decode(b: seq<byte>): (r: Option<string>)
    decreases |b|
  {
    if b == [] then Some([])
    else match DecodeChar(b)
      case None => None
      case Some((c, k)) =>
        match Decode(b[k..])
        case None => None
        case Some(rest) => Some([c] + rest)
  }

  lemma Split2(n: int)
    requires 0x80 <= n < 0x800
    ensures 0xC2 <= 0xC0 + n / 64 < 0xE0 && 0 <= n % 64 < 64
    ensures Code2(0xC0 + n / 64, 0x80 + n % 64) == n
  {
  }

  lemma Split3(n: int)
    requires 0x800 <= n < 0x10000
    ensures 0xE0 <= 0xE0 + n / 4096 < 0xF0
    ensures Code3(0xE0 + n / 4096, 0x80 + (n / 64) % 64, 0x80 + n % 64) == n
  {
    assert n == (n / 4096) * 4096 + ((n / 64) % 64) * 64 + n % 64;
  }

  lemma Split4(n: int)
    requires 0x10000 <= n <= 0x10FFFF
    ensures 0xF0 <= 0xF0 + n / 262144 < 0xF5
    ensures Code4(0xF0 + n / 262144, 0x80 + (n / 4096) % 64, 0x80 + (n / 64) % 64, 0x80 + n % 64) == n
  {
    assert n == (n / 262144) * 262144 + ((n / 4096) % 64) * 4096 + ((n / 64) % 64) * 64 + n % 64;
  }

  lemma DecodeEncodeChar(c: char, rest: seq<byte>)
    ensures DecodeChar(EncodeChar(c) + rest) == Some((c, |EncodeChar(c)|))
  {
    var n := c as int;
    if 0x80 <= n < 0x800 {
      Split2(n);
    } else if 0x800 <= n < 0x10000 {
      Split3(n);
    } else if 0x10000 <= n {
      Split4(n);
    }
  }

  /** Decoding what str.encode() produced gives the text back. */
  lemma {:induction false} DecodeEncode(s: string)
    ensures Decode(Encode(s)) == Some(s)
  {
    if s != [] {
      var e := EncodeChar(s[0]);
      var rest := Encode(s[1..]);
      DecodeEncodeChar(s[0], rest);
      assert (e + rest)[|e|..] == rest;
      DecodeEncode(s[1..]);
      assert s == [s[0]] + s[1..];
    }
  }

  lemma Join2(x: int, y: int)
    requires 2 <= x < 32 && 0 <= y < 64
    ensures var n := x * 64 + y; 0x80 <= n < 0x800 && n / 64 == x && n % 64 == y
  {
  }

  lemma Join3(x: int, y: int, z: int)
    requires 0 <= x < 16 && 0 <= y < 64 && 0 <= z < 64
    ensures var n := x * 4096 + y * 64 + z; n / 4096 == x && (n / 64) % 64 == y && n % 64 == z
  {
    var n := x * 4096 + y * 64 + z;
    assert n / 64 == x * 64 + y;
  }

  lemma Join4(w: int, x: int, y: int, z: int)
    requires 0 <= w < 5 && 0 <= x < 64 && 0 <= y < 64 && 0 <= z < 64
    ensures var n := w * 262144 + x * 4096 + y * 64 + z;
      n / 262144 == w && (n / 4096) % 64 == x && (n / 64) % 64 == y && n % 64 == z
  {
    var n := w * 262144 + x * 4096 + y * 64 + z;
    assert n / 64 == w * 4096 + x * 64 + y;
    assert n / 4096 == w * 64 + x;
  }

  lemma EncodeDecodeChar(b: seq<byte>)
    requires DecodeChar(b).Some?
    ensures EncodeChar(DecodeChar(b).value.0) == b[..DecodeChar(b).value.1]
  {
    var b0 := b[0];
    if 0xC2 <= b0 < 0xE0 {
      Join2(b0 - 0xC0, b[1] - 0x80);
    } else if 0xE0 <= b0 < 0xF0 {
      Join3(b0 - 0xE0, b[1] - 0x80, b[2] - 0x80);
    } else if 0xF0 <= b0 {
      Join4(b0 - 0xF0, b[1] - 0x80, b[2] - 0x80, b[3] - 0x80);
    }
  }

  /** Encoding what decoded successfully gives the bytes back. */
  lemma {:induction false} EncodeDecode(b: seq<byte>)
    requires Decode(b).Some?
    ensures Encode(Decode(b).value) == b
    decreases |b|
  {
    if b != [] {
      var k := DecodeChar(b).value.1;
      EncodeDecodeChar(b);
      EncodeDecode(b[k..]);
      assert b == b[..k] + b[k..];
    }
  }

  /** Text whose code points are all below 0x80 encodes one byte per character. */
  lemma {:induction false} EncodeAscii(s: string)
    requires forall i :: 0 <= i < |s| ==> s[i] as int < 0x80
    ensures |Encode(s)| == |s|
    ensures forall i :: 0 <= i < |s| ==> Encode(s)[i] == s[i] as int
  {
    if s != [] {
      EncodeAscii(s[1..]);
    }
  }

  /** Encoding distributes over concatenation: key.encode() + GUID.encode()
      is (key + GUID).encode(). */
  lemma {:induction false} EncodeAppend(a: string, b: string)
    ensures Encode(a + b) == Encode(a) + Encode(b)
    decreases |a|
  {
    if a != [] {
      assert (a + b)[1..] == a[1..] + b;
      EncodeAppend(a[1..], b);
    } else {
      assert a + b == b;
    }
  }
}
