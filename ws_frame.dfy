/** The websocket frame codec of websocket_server.py: the header byte layout,
    the big-endian extended payload length, the 4-byte client mask, the frame a
    server sends (send_text) and the way a client frame is taken off the input
    stream (read_next_message), together with the round trips between them. */
module WsFrame {
  import opened PyText
  import opened Utf8
  import opened Bits

  const FIN: nat := 0x80
  const OPCODE: nat := 0x0f
  const MASKED: nat := 0x80
  const PAYLOAD_LEN: nat := 0x7f
  const PAYLOAD_LEN_EXT16: nat := 0x7e
  const PAYLOAD_LEN_EXT64: nat := 0x7f

  const OPCODE_CONTINUATION: nat := 0x0
  const OPCODE_TEXT: nat := 0x1
  const OPCODE_BINARY: nat := 0x2
  const OPCODE_CLOSE_CONN: nat := 0x8
  const OPCODE_PING: nat := 0x9
  const OPCODE_PONG: nat := 0xA

  /** 2^16 and 2^64: the first lengths that no longer fit the 16-bit and the
      64-bit extended length field. */
  const LIMIT16: nat := 65536
  const LIMIT64: nat := 18446744073709551616

  /** 256^k: the number of values k bytes can hold. */
  function Pow256(k: nat): (p: nat)
    ensures p >= 1
  {
    if k == 0 then 1 else 256 * Pow256(k - 1)
  }

  lemma Pow256Values()
    ensures Pow256(2) == LIMIT16 && Pow256(8) == LIMIT64
  {
  }

  /** struct.pack('>H' / '>Q', n): the k low bytes of n, most significant first. */
  function BigEndian(n: nat, k: nat): (r: seq<byte>)
    ensures |r| == k
  {
    if k == 0 then [] else BigEndian(n / 256, k - 1) + [n % 256]
  }

  /** struct.unpack('>H' / '>Q', bs)[0] */
  function FromBigEndian(bs: seq<byte>): (n: nat)
  {
    if bs == [] then 0 else FromBigEndian(bs[..|bs| - 1]) * 256 + bs[|bs| - 1]
  }

  lemma {:induction false} FromBigEndianBound(bs: seq<byte>)
    ensures FromBigEndian(bs) < Pow256(|bs|)
  {
    if bs != [] {
      var init := bs[..|bs| - 1];
      FromBigEndianBound(init);
      assert FromBigEndian(init) <= Pow256(|init|) - 1;
      assert FromBigEndian(bs) <= (Pow256(|init|) - 1) * 256 + 255;
    }
  }

  /** Unpacking what was packed gives the number back when it fits the k bytes. */
  lemma {:induction false} UnpackPack(n: nat, k: nat)
    requires n < Pow256(k)
    ensures FromBigEndian(BigEndian(n, k)) == n
  {
    if k > 0 {
      var bs := BigEndian(n, k);
      assert bs[..k - 1] == BigEndian(n / 256, k - 1);
      assert n / 256 < Pow256(k - 1);
      UnpackPack(n / 256, k - 1);
    }
  }

  /** Packing what was unpacked gives the bytes back. */
  lemma {:induction false} PackUnpack(bs: seq<byte>)
    ensures BigEndian(FromBigEndian(bs), |bs|) == bs
  {
    if bs != [] {
      var init := bs[..|bs| - 1];
      var n := FromBigEndian(bs);
      assert n / 256 == FromBigEndian(init) && n % 256 == bs[|bs| - 1];
      PackUnpack(init);
      assert bs == init + [bs[|bs| - 1]];
    }
  }

  /** byte ^ byte, as the Python int it is. */
  function XorByte(a: byte, b: byte): (r: byte)
  {
    Pow2Byte();
    XorBelow(a, b, 8);
    BitXor(a, b)
  }

  lemma Pow2Byte()
    ensures Pow2(4) == 16 && Pow2(7) == 128 && Pow2(8) == 256
  {
  }

  /** Masking with the 4-byte key: byte i is exclusive-or'ed with key[i % 4]. The
      key may be short only when there is no data (the stream ran out). */
  function Mask(data: seq<byte>, key: seq<byte>): (r: seq<byte>)
    requires data != [] ==> |key| == 4
    ensures |r| == |data|
  {
    if data == [] then [] else Mask(data[..|data| - 1], key) + [XorByte(data[|data| - 1], key[(|data| - 1) % 4])]
  }

  lemma {:induction false} MaskAt(data: seq<byte>, key: seq<byte>, i: nat)
    requires data != [] ==> |key| == 4
    requires i < |data|
    ensures Mask(data, key)[i] == BitXor(data[i], key[i % 4])
  {
    if i < |data| - 1 {
      MaskAt(data[..|data| - 1], key, i);
    }
  }

  /** Unmasking what was masked with the same key gives the data back. */
  lemma MaskMask(data: seq<byte>, key: seq<byte>)
    requires data != [] ==> |key| == 4
    ensures Mask(Mask(data, key), key) == data
  {
    var m := Mask(data, key);
    forall i | 0 <= i < |data|
      ensures Mask(m, key)[i] == data[i]
    {
      MaskAt(data, key, i);
      MaskAt(m, key, i);
      XorXor(data[i], key[i % 4]);
    }
  }

  /** The length field of a frame (the 7-bit length and the extended length
      bytes), as send_text writes it; None when the length needs more than 64 bits. */
  function LengthField(n: nat): Option<seq<byte>>
  {
    if n <= 125 then Some([n])
    else if 126 <= n <= 65535 then Some([PAYLOAD_LEN_EXT16] + BigEndian(n, 2))
    else if n < LIMIT64 then Some([PAYLOAD_LEN_EXT64] + BigEndian(n, 8))
    else None
  }

  /** The first header byte, FIN | opcode: the FIN bit on top of a 4-bit opcode
      (FirstByteIsOr). */
  function FirstByte(opcode: nat): (b: byte)
    requires opcode < 16
  {
    FIN + opcode
  }

  lemma FirstByteIsOr(opcode: nat)
    requires opcode < 16
    ensures BitOr(FIN, opcode) == FirstByte(opcode)
  {
    Pow2Byte();
    OrDisjointHigh(opcode, 7);
  }

  /** The frame send_text writes for an encoded payload, or None when it raises
      "Message is too big". */
  function ServerFrame(opcode: nat, payload: seq<byte>): (r: Option<seq<byte>>)
    requires opcode < 16
    ensures r.Some? <==> |payload| < LIMIT64
  {
    match LengthField(|payload|)
    case None => None
    case Some(lf) => Some([FirstByte(opcode)] + lf + payload)
  }

  /** The second header byte of a client frame, MASKED | len7: the mask bit on top
      of a 7-bit length (SecondByteIsOr). */
  function SecondByte(len7: nat): (b: byte)
    requires len7 < 128
  {
    MASKED + len7
  }

  lemma SecondByteIsOr(len7: nat)
    requires len7 < 128
    ensures BitOr(MASKED, len7) == SecondByte(len7)
  {
    Pow2Byte();
    OrDisjointHigh(len7, 7);
  }

  /** The header of a frame a client sends: like a server header but with the
      MASKED bit set in the second byte. */
  function ClientHeader(opcode: nat, n: nat): (h: seq<byte>)
    requires opcode < 16 && n < LIMIT64
    ensures |h| >= 2
  {
    var lf := LengthField(n).value;
    [FirstByte(opcode), SecondByte(lf[0])] + lf[1..]
  }

  /** The frame a client sends: its header, the 4-byte key, and the payload masked
      with the key. */
  function ClientFrame(opcode: nat, payload: seq<byte>, key: seq<byte>): (r: seq<byte>)
    requires opcode < 16 && |key| == 4 && |payload| < LIMIT64
  {
    ClientHeader(opcode, |payload|) + key + Mask(payload, key)
  }

  /** rfile.read(n) at position pos of the input: at most n bytes, fewer when the
      input ends first. */
  function Read(s: seq<byte>, pos: nat, n: nat): (r: seq<byte>)
    requires pos <= |s|
    ensures |r| <= n && pos + |r| <= |s|
    ensures |r| == n || pos + |r| == |s|
  {
    if pos + n <= |s| then s[pos..pos + n] else s[pos..]
  }

  /** The payload length, given the 7-bit length field, and the position after any
      extended length bytes; None where struct.unpack raises because the input ended
      inside the extended length. */
  function ReadLength(s: seq<byte>, pos: nat, len7: nat): (r: Option<(nat, nat)>)
    requires pos <= |s|
    ensures r.Some? ==> pos <= r.value.1 <= |s|
  {
    if len7 == 126 then
      var d := Read(s, pos, 2);
      if |d| == 2 then Some((FromBigEndian(d), pos + 2)) else None
    else if len7 == 127 then
      var d := Read(s, pos, 8);
      if |d| == 8 then Some((FromBigEndian(d), pos + 8)) else None
    else Some((len7, pos))
  }

  /** b1 & OPCODE, b & FIN (= b & MASKED) and b2 & PAYLOAD_LEN, in arithmetic terms
      (HeaderFields proves them equal). */
  function OpcodeOf(b1: nat): nat { b1 % 16 }
  function HighBitOf(b2: nat): nat { (b2 / 128) % 2 * 128 }
  function LengthOf(b2: nat): nat { b2 % 128 }

  /** What read_next_message takes off the input. */
  datatype Frame =
    | ConnectionClosed              // no header, or a zero first byte: keep_alive is cleared
    | CloseRequested                // a close frame: keep_alive is cleared
    | NotMasked                     // a client frame without the mask bit: keep_alive is cleared
    | Unsupported(opcode: nat)      // continuation and binary frames: dropped, the connection stays
    | UnknownOpcode(opcode: nat)    // the warning line itself raises a TypeError
    | LengthCutShort                // struct.unpack raises on a short extended length
    | Data(opcode: nat, payload: seq<byte>)  // text, ping or pong, with the payload unmasked

  /** The outcomes after which handle() stops reading. */
  predicate EndsConnection(f: Frame)
  {
    !(f.Unsupported? || f.Data?)
  }

  /** The checks of read_next_message in the order the source makes them, on the
      header at pos; the result carries the position after everything it read. */
  function ReadFrame(s: seq<byte>, pos: nat): (r: (Frame, nat))
    requires pos <= |s|
    ensures pos <= r.1 <= |s|
    ensures !EndsConnection(r.0) ==> r.1 >= pos + 2
  {
    var hdr := Read(s, pos, 2);
    var p1 := pos + |hdr|;
    var b1: nat := if |hdr| == 2 then hdr[0] else 0;
    var b2: nat := if |hdr| == 2 then hdr[1] else 0;
    var opcode := OpcodeOf(b1);
    var masked := HighBitOf(b2);
    var len7 := LengthOf(b2);
    if b1 == 0 then (ConnectionClosed, p1)
    else if opcode == OPCODE_CLOSE_CONN then (CloseRequested, p1)
    else if masked == 0 then (NotMasked, p1)
    else if opcode == OPCODE_CONTINUATION || opcode == OPCODE_BINARY then (Unsupported(opcode), p1)
    else if !(opcode == OPCODE_TEXT || opcode == OPCODE_PING || opcode == OPCODE_PONG) then
      (UnknownOpcode(opcode), p1)
    else ReadBody(s, p1, opcode, len7)
  }

  /** The rest of a text, ping or pong frame after its two header bytes: the
      extended length, the masking key and the payload, and the position after
      them. */
  function ReadBody(s: seq<byte>, pos: nat, opcode: nat, len7: nat): (r: (Frame, nat))
    requires pos <= |s|
    ensures pos <= r.1 <= |s|
  {
    match ReadLength(s, pos, len7)
    case None => (LengthCutShort, |s|)
    case Some((n, p2)) =>
      var key := Read(s, p2, 4);
      var p3 := p2 + |key|;
      var data := Read(s, p3, n);
      (Data(opcode, Mask(data, key)), p3 + |data|)
  }

  /** The header fields the source extracts with &, in arithmetic terms. */
  lemma HeaderFields(b: nat)
    ensures BitAnd(b, OPCODE) == OpcodeOf(b)
    ensures BitAnd(b, MASKED) == HighBitOf(b)
    ensures BitAnd(b, PAYLOAD_LEN) == LengthOf(b)
  {
    Pow2Byte();
    AndLowMask(b, 4);
    AndBit(b, 7);
    AndLowMask(b, 7);
  }

  /** The length field read back where it was written: the extended length
      bytes that follow the 7-bit length decode to the length. */
  lemma {:induction false} ReadLengthField(s: seq<byte>, pos: nat, n: nat)
    requires n < LIMIT64
    requires var lf := LengthField(n).value; pos + |lf| - 1 <= |s| && s[pos..pos + |lf| - 1] == lf[1..]
    ensures var lf := LengthField(n).value;
      lf[0] < 128 && ReadLength(s, pos, lf[0]) == Some((n, pos + |lf| - 1))
  {
    Pow256Values();
    var lf := LengthField(n).value;
    if 126 <= n <= 65535 {
      assert Read(s, pos, 2) == BigEndian(n, 2);
      UnpackPack(n, 2);
    } else if n > 65535 {
      assert Read(s, pos, 8) == BigEndian(n, 8);
      UnpackPack(n, 8);
    }
  }

  /** A server frame carries FIN and the opcode in its first byte, never sets the
      mask bit, and its length field gives back the payload length, which the
      payload then fills to the end of the frame. */
  lemma {:induction false} ServerFrameLayout(opcode: nat, payload: seq<byte>)
    requires opcode < 16 && |payload| < LIMIT64
    ensures var f := ServerFrame(opcode, payload).value;
      && |f| >= 2
      && OpcodeOf(f[0]) == opcode && HighBitOf(f[0]) == FIN
      && HighBitOf(f[1]) == 0
      && ReadLength(f, 2, LengthOf(f[1])) == Some((|payload|, |f| - |payload|))
      && f[|f| - |payload|..] == payload
  {
    var f := ServerFrame(opcode, payload).value;
    var lf := LengthField(|payload|).value;
    assert f == [FirstByte(opcode)] + lf + payload;
    assert f[2..2 + |lf| - 1] == lf[1..];
    ReadLengthField(f, 2, |payload|);
  }

  /** Reading a frame a client built, wherever it sits in the input, gives back its
      opcode and its unmasked payload and moves past the frame exactly. */
  lemma {:induction false} ReadClientFrame(pre: seq<byte>, opcode: nat, payload: seq<byte>, key: seq<byte>, post: seq<byte>)
    requires opcode == OPCODE_TEXT || opcode == OPCODE_PING || opcode == OPCODE_PONG
    requires |key| == 4 && |payload| < LIMIT64
    ensures var f := ClientFrame(opcode, payload, key);
      && ReadFrame(pre + f + post, |pre|).0 == Data(opcode, payload)
      && ReadFrame(pre + f + post, |pre|).1 == |pre| + |f|
  {
    var f := ClientFrame(opcode, payload, key);
    var s := pre + f + post;
    assert s[|pre|..|pre| + |f|] == f;
    ReadClientFrameAt(s, |pre|, opcode, payload, key);
  }

  lemma {:induction false} ReadClientFrameAt(s: seq<byte>, p: nat, opcode: nat, payload: seq<byte>, key: seq<byte>)
    requires opcode == OPCODE_TEXT || opcode == OPCODE_PING || opcode == OPCODE_PONG
    requires |key| == 4 && |payload| < LIMIT64
    requires var f := ClientFrame(opcode, payload, key); p + |f| <= |s| && s[p..p + |f|] == f
    ensures ReadFrame(s, p).0 == Data(opcode, payload)
    ensures ReadFrame(s, p).1 == p + |ClientFrame(opcode, payload, key)|
  {
    var n := |payload|;
    var h := ClientHeader(opcode, n);
    var m := Mask(payload, key);
    assert ClientFrame(opcode, payload, key) == h + key + m;
    FrameParts(s, p, h, key, m);
    var p2 := p + |h|;
    ClientHeaderFields(s, p, opcode, n);
    ReadDataFrame(s, p, p2, n, opcode, key, m);
    MaskMask(payload, key);
    var len := |ClientFrame(opcode, payload, key)|;
    assert p2 + 4 + n == p + len;
    var r := ReadFrame(s, p);
    assert r == (Data(opcode, Mask(m, key)), p2 + 4 + n);
    assert Mask(m, key) == payload;
  }

  /** The three pieces of a frame h + key + m that sits at p in s. */
  lemma {:induction false} FrameParts(s: seq<byte>, p: nat, h: seq<byte>, key: seq<byte>, m: seq<byte>)
    requires var f := h + key + m; p + |f| <= |s| && s[p..p + |f|] == f
    ensures s[p..p + |h|] == h
    ensures s[p + |h|..p + |h| + |key|] == key
    ensures s[p + |h| + |key|..p + |h| + |key| + |m|] == m
  {
    var f := h + key + m;
    assert f[..|h|] == h && f[|h|..|h| + |key|] == key && f[|h| + |key|..] == m;
    Within(s, p, f, 0, |h|);
    Within(s, p, f, |h|, |h| + |key|);
    Within(s, p, f, |h| + |key|, |f|);
  }

  /** A piece of f, where f sits at p in s. */
  lemma {:induction false} Within(s: seq<byte>, p: nat, f: seq<byte>, i: nat, j: nat)
    requires p + |f| <= |s| && s[p..p + |f|] == f && i <= j <= |f|
    ensures s[p + i..p + j] == f[i..j]
  {
    forall k | 0 <= k < j - i
      ensures s[p + i..p + j][k] == f[i..j][k]
    {
      assert s[p + i + k] == s[p..p + |f|][i + k];
    }
  }

  /** The header fields of a client header read where the header sits. */
  lemma {:induction false} ClientHeaderFields(s: seq<byte>, p: nat, opcode: nat, n: nat)
    requires opcode < 16 && n < LIMIT64
    requires var h := ClientHeader(opcode, n); p + |h| <= |s| && s[p..p + |h|] == h
    ensures s[p] != 0 && OpcodeOf(s[p]) == opcode
    ensures HighBitOf(s[p + 1]) != 0
    ensures ReadLength(s, p + 2, LengthOf(s[p + 1])) == Some((n, p + |ClientHeader(opcode, n)|))
  {
    var h := ClientHeader(opcode, n);
    var lf := LengthField(n).value;
    assert s[p] == h[0] == FirstByte(opcode);
    assert s[p + 1] == h[1] == SecondByte(lf[0]);
    assert s[p + 2..p + |h|] == h[2..] == lf[1..];
    ReadLengthField(s, p + 2, n);
  }

  /** A text, ping or pong header with the mask bit set, read at p, followed by a
      length that ends at p2, a key and n payload bytes. */
  lemma {:induction false} ReadDataFrame(s: seq<byte>, p: nat, p2: nat, n: nat, opcode: nat, key: seq<byte>, m: seq<byte>)
    requires p + 2 <= p2 && p2 + 4 + n <= |s|
    requires s[p] != 0 && OpcodeOf(s[p]) == opcode
    requires opcode == OPCODE_TEXT || opcode == OPCODE_PING || opcode == OPCODE_PONG
    requires HighBitOf(s[p + 1]) != 0
    requires ReadLength(s, p + 2, LengthOf(s[p + 1])) == Some((n, p2))
    requires s[p2..p2 + 4] == key && s[p2 + 4..p2 + 4 + n] == m
    ensures ReadFrame(s, p) == (Data(opcode, Mask(m, key)), p2 + 4 + n)
  {
    assert Read(s, p, 2) == [s[p], s[p + 1]];
    ReadBodyData(s, p + 2, p2, n, opcode, LengthOf(s[p + 1]), key, m);
  }

  lemma ReadBodyData(s: seq<byte>, pos: nat, p2: nat, n: nat, opcode: nat, len7: nat, key: seq<byte>, m: seq<byte>)
    requires pos <= p2 && p2 + 4 + n <= |s|
    requires ReadLength(s, pos, len7) == Some((n, p2))
    requires s[p2..p2 + 4] == key && s[p2 + 4..p2 + 4 + n] == m
    ensures ReadBody(s, pos, opcode, len7) == (Data(opcode, Mask(m, key)), p2 + 4 + n)
  {
    assert Read(s, p2, 4) == key;
    assert Read(s, p2 + 4, n) == m;
  }

  /** A close frame ends the connection whatever its second byte says: the close
      check comes before the mask check. */
  lemma CloseBeforeMask(s: seq<byte>, pos: nat)
    requires pos + 2 <= |s| && s[pos] != 0 && OpcodeOf(s[pos]) == OPCODE_CLOSE_CONN
    ensures ReadFrame(s, pos) == (CloseRequested, pos + 2)
  {
    assert Read(s, pos, 2) == [s[pos], s[pos + 1]];
  }

  /** Continuation and binary frames are dropped after their two header bytes:
      their length, key and payload stay in the input and are read as the next
      header. */
  lemma UnsupportedReadsHeaderOnly(s: seq<byte>, pos: nat)
    requires pos + 2 <= |s| && s[pos] != 0 && HighBitOf(s[pos + 1]) != 0
    requires OpcodeOf(s[pos]) == OPCODE_CONTINUATION || OpcodeOf(s[pos]) == OPCODE_BINARY
    ensures ReadFrame(s, pos) == (Unsupported(OpcodeOf(s[pos])), pos + 2)
  {
    assert Read(s, pos, 2) == [s[pos], s[pos + 1]];
  }

  /** The unmasked payload of a text or ping frame reaches the handler as a str with
      one character per byte (chr of each byte). */
  function Latin1(b: seq<byte>): (r: string)
    ensures |r| == |b|
  {
    if b == [] then [] else Latin1(b[..|b| - 1]) + [b[|b| - 1] as char]
  }
}
