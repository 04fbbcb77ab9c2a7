// libsrc/webserver/WebSocketClient.cpp: frame headers, fragmentation and reassembly after
// sections 5.2 to 5.4 of RFC 6455.

module WebSocketSpec {
  import opened Wrappers
  import opened Colors
  import opened Arithmetic
  import opened Sequences

  type Bytes = seq<Byte>

  const CONTINUATION := 0
  const TEXT := 1
  const BINARY := 2
  const CLOSE := 8
  const PING := 9
  const PONG := 10

  const FRAME_SIZE_IN_BYTES := 512 * 512 * 2
  const MAX_PAYLOAD := 0x7FFF_FFFF_FFFF_FFFF

  type Key = k: seq<Byte> | |k| == 4 witness [0, 0, 0, 0]

  datatype Header = Header(fin: bool, opCode: nat, masked: bool, payloadLength: nat, key: Key)

  // ---------------------------------------------------------------- exclusive or

  function Pow2(n: nat): nat {
    if n == 0 then 1 else 2 * Pow2(n - 1)
  }

  // Bit by bit, the n low bits.
  function XorBits(a: nat, b: nat, n: nat): (r: nat)
    ensures r < Pow2(n)
  {
    if n == 0 then 0 else 2 * XorBits(a / 2, b / 2, n - 1) + (a % 2 + b % 2) % 2
  }

  lemma Halves(high: nat, bit: nat)
    requires bit < 2
    ensures (2 * high + bit) / 2 == high && (2 * high + bit) % 2 == bit
  {
  }

  lemma FlipTwice(a: nat, b: nat)
    requires a < 2 && b < 2
    ensures (a + b) % 2 < 2 && ((a + b) % 2 + b) % 2 == a
  {
  }

  lemma {:induction false} XorTwice(a: nat, b: nat, n: nat)
    requires a < Pow2(n)
    ensures XorBits(XorBits(a, b, n), b, n) == a
  {
    if n > 0 {
      var high := XorBits(a / 2, b / 2, n - 1);
      FlipTwice(a % 2, b % 2);
      Halves(high, (a % 2 + b % 2) % 2);
      XorTwice(a / 2, b / 2, n - 1);
    }
  }

  function Xor(a: Byte, b: Byte): Byte {
    assert Pow2(8) == 256 by { assert Pow2(4) == 16; }
    XorBits(a, b, 8)
  }

  function Bit(a: nat, i: nat): nat {
    if i == 0 then a % 2 else Bit(a / 2, i - 1)
  }

  // Each bit of the result is set exactly if the two bits differ.
  lemma {:induction false} XorByBit(a: nat, b: nat, n: nat, i: nat)
    requires i < n
    ensures Bit(XorBits(a, b, n), i) == (Bit(a, i) + Bit(b, i)) % 2
  {
    Halves(XorBits(a / 2, b / 2, n - 1), (a % 2 + b % 2) % 2);
    if i > 0 {
      XorByBit(a / 2, b / 2, n - 1, i - 1);
    }
  }

  function Mask(data: Bytes, key: Key): (r: Bytes)
    ensures |r| == |data| && forall i :: 0 <= i < |data| ==> r[i] == Xor(data[i], key[i % 4])
  {
    seq(|data|, i requires 0 <= i < |data| => Xor(data[i], key[i % 4]))
  }

  // Main result: unmasking with the same key undoes masking, section 5.3 of RFC 6455.
  lemma MaskTwice(data: Bytes, key: Key)
    ensures Mask(Mask(data, key), key) == data
  {
    forall i | 0 <= i < |data|
      ensures Mask(Mask(data, key), key)[i] == data[i]
    {
      assert Pow2(8) == 256 by { assert Pow2(4) == 16; }
      XorTwice(data[i], key[i % 4], 8);
    }
  }

  // ---------------------------------------------------------------- big-endian lengths

  function Pow256(n: nat): (p: nat)
    ensures p > 0
  {
    if n == 0 then 1 else 256 * Pow256(n - 1)
  }

  function BigEndian(n: nat, width: nat): (r: Bytes)
    ensures |r| == width
  {
    if width == 0 then [] else BigEndian(n / 256, width - 1) + [n % 256]
  }

  function FromBigEndian(s: Bytes): nat {
    if s == [] then 0 else 256 * FromBigEndian(s[..|s| - 1]) + s[|s| - 1]
  }

  lemma {:induction false} BigEndianRoundTrip(n: nat, width: nat)
    requires n < Pow256(width)
    ensures FromBigEndian(BigEndian(n, width)) == n
  {
    if width > 0 {
      BigEndianRoundTrip(n / 256, width - 1);
      var s := BigEndian(n, width);
      assert s[..|s| - 1] == BigEndian(n / 256, width - 1);
    }
  }

  // ---------------------------------------------------------------- headers

  // How many bytes of extended length follow the 7-bit code.
  function ExtraLength(code: nat): nat {
    if code == 126 then 2 else if code == 127 then 8 else 0
  }

  function LengthCode(length: nat): nat {
    if length <= 125 then length else if length <= 0xFFFF then 126 else 127
  }

  // A header of section 5.2 of RFC 6455 in its shortest form, with or without a key.
  function HeaderBytes(opCode: nat, length: nat, fin: bool, mask: Option<Key>): Bytes {
    [opCode % 16 + (if fin then 128 else 0), LengthCode(length) + (if mask.Some? then 128 else 0)]
    + BigEndian(length, ExtraLength(LengthCode(length)))
    + (if mask.Some? then mask.value else [])
  }

  // makeFrameHeader: a longer payload gets no header at all.
  function FrameHeader(opCode: nat, length: nat, lastFrame: bool): Bytes {
    if length <= MAX_PAYLOAD then HeaderBytes(opCode, length, lastFrame, None) else []
  }

  // getWsFrameHeader: the header and what is left in the socket; None while bytes are missing.
  // A header without mask leaves the key of the frame before in place.
  function ParseHeader(s: Bytes, oldKey: Key): Option<(Header, Bytes)> {
    if |s| < 2 then None
    else
      var code := s[1] % 128;
      var at := 2 + ExtraLength(code);
      var masked := s[1] >= 128;
      if |s| < at + (if masked then 4 else 0) then None
      else
        var length := if code < 126 then code else FromBigEndian(s[2..at]);
        if masked then Some((Header(s[0] >= 128, s[0] % 16, true, length, s[at..at + 4]), s[at + 4..]))
        else Some((Header(s[0] >= 128, s[0] % 16, false, length, oldKey), s[at..]))
  }

  lemma PowersOf256()
    ensures Pow256(2) == 0x1_0000 && Pow256(8) > MAX_PAYLOAD && Pow256(0) == 1
  {
    assert Pow256(4) == 0x1_0000_0000;
  }

  // Main result: parsing a built header returns what it was built from and consumes exactly it.
  lemma HeaderRoundTrip(opCode: nat, length: nat, fin: bool, mask: Option<Key>, rest: Bytes, oldKey: Key)
    requires opCode < 16 && length <= MAX_PAYLOAD
    ensures ParseHeader(HeaderBytes(opCode, length, fin, mask) + rest, oldKey) ==
            Some((Header(fin, opCode, mask.Some?, length, if mask.Some? then mask.value else oldKey), rest))
  {
    hide BigEndian, FromBigEndian, Pow256;
    var code := LengthCode(length);
    var ext := BigEndian(length, ExtraLength(code));
    PowersOf256();
    if code >= 126 { BigEndianRoundTrip(length, ExtraLength(code)); }
    var b0, b1 := opCode % 16 + (if fin then 128 else 0), code + (if mask.Some? then 128 else 0);
    assert b0 % 16 == opCode && b1 % 128 == code;
    Pieces(b0, b1, ext, if mask.Some? then mask.value else [], rest);
  }

  lemma Pieces(b0: Byte, b1: Byte, ext: Bytes, key: Bytes, rest: Bytes)
    ensures var s, at := [b0, b1] + ext + key + rest, 2 + |ext|;
            && s[0] == b0 && s[1] == b1 && s[2..at] == ext
            && s[at..at + |key|] == key && s[at + |key|..] == rest
  {
  }

  // ---------------------------------------------------------------- the wire form

  // The bits of a number put together from two.
  lemma {:induction false} BitsOfTwo(high: nat, low: nat, n: nat, i: nat)
    requires low < Pow2(n)
    ensures Bit(high * Pow2(n) + low, i) == if i < n then Bit(low, i) else Bit(high, i - n)
    decreases n
  {
    var a := high * Pow2(n) + low;
    if n > 0 {
      var half := high * Pow2(n - 1);
      assert high * Pow2(n) == 2 * half;
      assert a / 2 == half + low / 2 && a % 2 == low % 2;
      if i > 0 { BitsOfTwo(high, low / 2, n - 1, i - 1); }
    }
  }

  lemma {:induction false} NoBits(i: nat)
    ensures Bit(0, i) == 0
  {
    if i > 0 {
      NoBits(i - 1);
    }
  }

  lemma Powers()
    ensures Pow2(4) == 16 && Pow2(7) == 128
  {
  }

  // The flag and the four low bits of a byte, the three bits in between being clear.
  lemma FirstByteBits(low: nat, flag: bool, i: nat)
    requires low < 16 && i < 8
    ensures Bit(low + (if flag then 128 else 0), i) ==
            if i < 4 then Bit(low, i) else if i < 7 then 0 else if flag then 1 else 0
  {
    hide Pow2;
    Powers();
    BitsOfTwo(if flag then 1 else 0, low, 7, i);
    if 4 <= i < 7 {
      BitsOfTwo(0, low, 4, i);
      NoBits(i - 4);
    }
  }

  // The bits of any byte that a header is read from.
  lemma ByteBits(b: Byte, i: nat)
    ensures i < 4 ==> Bit(b % 16, i) == Bit(b, i)
    ensures Bit(b, 7) == if b >= 128 then 1 else 0
  {
    hide Pow2;
    Powers();
    BitsOfTwo(b / 16, b % 16, 4, i);
    BitsOfTwo(b / 128, b % 128, 7, 7);
  }

  lemma QuotientIs(a: nat, d: nat, q: nat, r: nat)
    requires 0 < d && a == q * d + r && r < d
    ensures a / d == q && a % d == r
  {
    var q', r' := a / d, a % d;
    assert a == q' * d + r';
    assert (q + 1) * d == q * d + d && (q' + 1) * d == q' * d + d;
    DivideLt(q, q' + 1, d);
    DivideLt(q', q + 1, d);
  }

  lemma DivideTwice(a: nat, c: nat)
    requires 0 < c
    ensures a / 256 / c == a / (256 * c)
  {
    var half := a / 256;
    var q, r := half / c, half % c;
    assert half == q * c + r;
    assert q * (256 * c) == 256 * (q * c);
    QuotientIs(a, 256 * c, q, 256 * r + a % 256);
  }

  lemma {:induction false} BigEndianByte(n: nat, width: nat, j: nat)
    requires j < width
    ensures BigEndian(n, width)[j] == LengthByte(n, width, j)
  {
    if j < width - 1 {
      BigEndianByte(n / 256, width - 1, j);
      DivideTwice(n, Pow256(width - 2 - j));
    }
  }

  // The j-th of so many bytes of a length, counted from the highest.
  function LengthByte(n: nat, width: nat, j: nat): nat
    requires j < width
  {
    n / Pow256(width - 1 - j) % 256
  }

  lemma {:induction false} FromBigEndianBack(s: Bytes)
    ensures FromBigEndian(s) < Pow256(|s|) && BigEndian(FromBigEndian(s), |s|) == s
  {
    if s != [] {
      var n := |s| - 1;
      FromBigEndianBack(s[..n]);
      QuotientIs(FromBigEndian(s), 256, FromBigEndian(s[..n]), s[n]);
      assert s == s[..n] + [s[n]];
    }
  }

  // The bytes of section 5.2 of RFC 6455, for one header: flags and opcode by their bits, the
  // length code, the n bytes of the extended length from the highest down, and the key.
  ghost predicate OnTheWire(s: Bytes, fin: bool, opCode: nat, masked: bool, length: nat, key: Key, n: nat) {
    && |s| == 2 + n + (if masked then 4 else 0)
    && Bit(s[0], 7) == (if fin then 1 else 0) && (forall i :: 0 <= i < 4 ==> Bit(s[0], i) == Bit(opCode, i))
    && Bit(s[1], 7) == (if masked then 1 else 0)
    && s[1] % 128 == (if n == 2 then 126 else if n == 8 then 127 else length)
    && (n == 0 ==> length < 126) && (n > 0 ==> (n == 2 || n == 8) && length < Pow256(n))
    && (forall j :: 0 <= j < n ==> s[2..2 + n][j] == LengthByte(length, n, j))
    && (masked ==> s[2 + n..] == key)
  }

  // Main result: what is built has the wire form, in its shortest length, with clear reserved bits.
  lemma HeaderOnTheWire(opCode: nat, length: nat, fin: bool, mask: Option<Key>)
    requires opCode < 16 && length <= MAX_PAYLOAD
    ensures var n := if length < 126 then 0 else if length < 0x1_0000 then 2 else 8;
            var s := HeaderBytes(opCode, length, fin, mask);
            && OnTheWire(s, fin, opCode, mask.Some?, length, if mask.Some? then mask.value else NO_KEY, n)
            && forall i :: 4 <= i < 7 ==> Bit(s[0], i) == 0
    ensures FrameHeader(opCode, length, fin) == HeaderBytes(opCode, length, fin, None)
  {
    hide BigEndian, Pow256, Bit, LengthByte;
    var code := LengthCode(length);
    var n := ExtraLength(code);
    var ext, key := BigEndian(length, n), if mask.Some? then mask.value else [];
    var b0, b1 := opCode % 16 + (if fin then 128 else 0), code + if mask.Some? then 128 else 0;
    forall i | 0 <= i < 8
      ensures Bit(b0, i) == if i < 4 then Bit(opCode, i) else if i < 7 then 0 else if fin then 1 else 0
    {
      FirstByteBits(opCode, fin, i);
    }
    ByteBits(b1, 0);
    PowersOf256();
    forall j | 0 <= j < n
      ensures ext[j] == LengthByte(length, n, j)
    {
      BigEndianByte(length, n, j);
    }
    Pieces(b0, b1, ext, key, []);
    AppendNone([b0, b1] + ext + key);
    AppendNone(HeaderBytes(opCode, length, fin, mask));
  }

  // Main result: what is read from any bytes is what they say on the wire, up to the reserved bits,
  // and the header is complete exactly if all its bytes are there.
  lemma ParsedFromTheWire(s: Bytes, oldKey: Key)
    ensures var n := if |s| < 2 then 0 else if s[1] % 128 == 126 then 2 else if s[1] % 128 == 127 then 8 else 0;
            && (ParseHeader(s, oldKey).Some? <==> |s| >= 2 && |s| >= 2 + n + 4 * Bit(s[1], 7))
            && (ParseHeader(s, oldKey).Some? ==>
                  var (h, rest) := ParseHeader(s, oldKey).value;
                  && h.opCode < 16 && (!h.masked ==> h.key == oldKey) && |rest| <= |s|
                  && OnTheWire(s[..|s| - |rest|], h.fin, h.opCode, h.masked, h.payloadLength, h.key, n)
                  && rest == s[|s| - |rest|..])
  {
    hide FromBigEndian, BigEndian, Pow256, Bit, LengthByte;
    if |s| >= 2 {
      ByteBits(s[1], 0);
      forall i: nat
        ensures i < 4 ==> Bit(s[0] % 16, i) == Bit(s[0], i)
        ensures Bit(s[0], 7) == if s[0] >= 128 then 1 else 0
      {
        ByteBits(s[0], i);
      }
      var at := 2 + ExtraLength(s[1] % 128);
      if ParseHeader(s, oldKey).Some? {
        ReadsLength(s, at);
        var (h, rest) := ParseHeader(s, oldKey).value;
        var end := |s| - |rest|;
        assert end == at + if h.masked then 4 else 0;
        assert s[..end][2..at] == s[2..at] && s[..end][at..] == s[at..end];
      }
    }
  }

  lemma ReadsLength(s: Bytes, at: nat)
    requires 2 <= at <= |s|
    ensures var ext, n := s[2..at], at - 2;
            FromBigEndian(ext) < Pow256(n) && forall j :: 0 <= j < n ==> ext[j] == LengthByte(FromBigEndian(ext), n, j)
  {
    hide FromBigEndian, BigEndian, Pow256, LengthByte;
    var ext := s[2..at];
    FromBigEndianBack(ext);
    forall j | 0 <= j < |ext|
      ensures ext[j] == LengthByte(FromBigEndian(ext), |ext|, j)
    {
      BigEndianByte(FromBigEndian(ext), |ext|, j);
    }
  }

  // Bit b of byte i is masked by bit b of key byte i mod 4, section 5.3 of RFC 6455.
  lemma MaskedByKeyByte(data: Bytes, key: Key, i: nat, b: nat)
    requires i < |data| && b < 8
    ensures Bit(Mask(data, key)[i], b) == (Bit(data[i], b) + Bit(key[i % 4], b)) % 2
  {
    XorByBit(data[i], key[i % 4], 8, b);
  }

  // The header length is the smallest one the length allows; a length of 2^63 or more gets none.
  lemma ShortestForm(opCode: nat, length: nat, fin: bool)
    ensures |FrameHeader(opCode, length, fin)| ==
            if length < 126 then 2 else if length < 0x1_0000 then 4
            else if length < 0x8000_0000_0000_0000 then 10 else 0
  {
  }

  // More bytes in the socket do not change a header that is complete.
  lemma ParseMore(s: Bytes, more: Bytes, oldKey: Key)
    requires ParseHeader(s, oldKey).Some?
    ensures var (h, rest) := ParseHeader(s, oldKey).value;
            ParseHeader(s + more, oldKey) == Some((h, rest + more))
  {
    var at := 2 + ExtraLength(s[1] % 128);
    SliceMore(s, more, 2, at);
    if s[1] >= 128 {
      SliceMore(s, more, at, at + 4);
    }
  }

  // ---------------------------------------------------------------- sending

  datatype Frame = Frame(header: Header, payload: Bytes)

  const NO_KEY: Key := [0, 0, 0, 0]

  // What sendMessage writes for a message: full frames and a last one, all marked as text.
  function Sent(data: Bytes): Bytes {
    if data == [] then []
    else if |data| <= FRAME_SIZE_IN_BYTES then FrameHeader(TEXT, |data|, true) + data
    else FrameHeader(TEXT, FRAME_SIZE_IN_BYTES, false) + data[..FRAME_SIZE_IN_BYTES] + Sent(data[FRAME_SIZE_IN_BYTES..])
  }

  // All frames of a byte stream.
  function ParseFrames(s: Bytes): Option<seq<Frame>>
    decreases |s|
  {
    if s == [] then Some([])
    else
      match ParseHeader(s, NO_KEY)
      case None => None
      case Some((h, rest)) =>
        if |rest| < h.payloadLength then None
        else
          match ParseFrames(rest[h.payloadLength..])
          case None => None
          case Some(frames) => Some([Frame(h, rest[..h.payloadLength])] + frames)
  }

  function Payloads(frames: seq<Frame>): Bytes {
    if frames == [] then [] else frames[0].payload + Payloads(frames[1..])
  }

  lemma ParseSentFrame(data: Bytes, fin: bool, rest: Bytes)
    requires |data| <= MAX_PAYLOAD
    ensures var s := FrameHeader(TEXT, |data|, fin) + data + rest;
            ParseFrames(s) ==
            match ParseFrames(rest)
            case None => None
            case Some(frames) => Some([Frame(Header(fin, TEXT, false, |data|, NO_KEY), data)] + frames)
  {
    var s := FrameHeader(TEXT, |data|, fin) + data + rest;
    assert s == FrameHeader(TEXT, |data|, fin) + (data + rest);
    HeaderRoundTrip(TEXT, |data|, fin, None, data + rest, NO_KEY);
    assert (data + rest)[..|data|] == data && (data + rest)[|data|..] == rest;
  }

  // Main result: the stream sent for a message parses into frames whose payloads add up to the
  // message, none above the frame limit, unmasked, with FIN on the last one only.
  lemma {:induction false} SentParsesBack(data: Bytes)
    requires |data| <= MAX_PAYLOAD
    ensures var r := ParseFrames(Sent(data));
            && r.Some? && Payloads(r.value) == data && (data != [] ==> r.value != [])
            && forall i :: 0 <= i < |r.value| ==>
                 var f := r.value[i];
                 && f.header.opCode == 1 && !f.header.masked
                 && f.header.payloadLength == |f.payload| && 0 < |f.payload| <= FRAME_SIZE_IN_BYTES
                 && (f.header.fin <==> i == |r.value| - 1)
                 && (i < |r.value| - 1 ==> |f.payload| == 524288)
    decreases |data|
  {
    if data == [] {
    } else if |data| <= FRAME_SIZE_IN_BYTES {
      assert Sent(data) == FrameHeader(TEXT, |data|, true) + data + [];
      ParseSentFrame(data, true, []);
      assert data + [] == data;
    } else {
      var head, tail := data[..FRAME_SIZE_IN_BYTES], data[FRAME_SIZE_IN_BYTES..];
      SentParsesBack(tail);
      ParseSentFrame(head, false, Sent(tail));
      assert head + tail == data;
    }
  }

  // ---------------------------------------------------------------- receiving

  // A message handed to the JSON API or to the binary handler.
  datatype Message = Message(text: bool, data: Bytes)

  datatype Receiver = Receiver(
    socket: Bytes, notEnoughData: bool, header: Header, onContinuation: bool, buffer: Bytes,
    delivered: seq<Message>, written: Bytes, closed: bool)

  function Accept(r: Receiver, h: Header, buf: Bytes): Receiver {
    if h.opCode <= BINARY then
      var isContinuation := h.opCode == CONTINUATION;
      if r.onContinuation && !isContinuation then r.(closed := true)
      else if !h.masked && h.opCode == TEXT then r.(closed := true)
      else
        var buffer := (if h.fin && !isContinuation then [] else r.buffer) + Mask(buf, h.key);
        if h.fin then
          r.(onContinuation := false, buffer := [], delivered := r.delivered + [Message(h.opCode == TEXT, buffer)])
        else r.(onContinuation := true, buffer := buffer)
    else if h.opCode == CLOSE then r.(closed := true)
    else if h.opCode == PING then r.(written := r.written + [PONG, 0])
    else r
  }

  // handleWebSocketFrame, called with a complete header in the socket or one read before.
  predicate HeaderReady(r: Receiver) {
    r.notEnoughData || ParseHeader(r.socket, r.header.key).Some?
  }

  function ReadHeader(r: Receiver): Receiver
    requires HeaderReady(r)
  {
    if r.notEnoughData then r
    else
      var (h, rest) := ParseHeader(r.socket, r.header.key).value;
      r.(header := h, socket := rest)
  }

  // The payload bytes waited for and read: as a qint64 a length of 2^63 or more is negative.
  function Expected(h: Header): nat {
    if h.payloadLength <= MAX_PAYLOAD then h.payloadLength else 0
  }

  function Handle(r: Receiver): Receiver
    requires HeaderReady(r)
  {
    var r1 := ReadHeader(r);
    var n := Expected(r1.header);
    if |r1.socket| < n then r1.(notEnoughData := true)
    else Accept(r1.(notEnoughData := false, socket := r1.socket[n..]), r1.header, r1.socket[..n])
  }

  function Arrive(r: Receiver, more: Bytes): Receiver {
    r.(socket := r.socket + more)
  }

  // The payload of the frame at hand is not all there.
  predicate Waits(r: Receiver)
    requires HeaderReady(r)
  {
    |ReadHeader(r).socket| < Expected(ReadHeader(r).header)
  }

  // Handling a frame whose payload is not all there, and again once more has arrived, is handling
  // it once with everything there.
  lemma WaitOnce(r: Receiver, more: Bytes)
    requires HeaderReady(r) && Waits(r)
    ensures HeaderReady(Arrive(r, more)) && HeaderReady(Arrive(Handle(r), more))
    ensures Handle(Arrive(Handle(r), more)) == Handle(Arrive(r, more))
    ensures Waits(Arrive(Handle(r), more)) == Waits(Arrive(r, more))
  {
    if !r.notEnoughData {
      ParseMore(r.socket, more, r.header.key);
    }
  }

  function Concat(chunks: seq<Bytes>): Bytes {
    if chunks == [] then [] else Concat(chunks[..|chunks| - 1]) + chunks[|chunks| - 1]
  }

  // A call before the chunks and one after each of them, all but the last finding too little.
  ghost predicate WaitsThrough(r: Receiver, chunks: seq<Bytes>) {
    HeaderReady(r) && forall k :: 0 <= k < |chunks| ==>
      HeaderReady(Arrive(r, Concat(chunks[..k]))) && Waits(Arrive(r, Concat(chunks[..k])))
  }

  function HandleChunks(r: Receiver, chunks: seq<Bytes>): Option<Receiver> {
    if chunks == [] then if HeaderReady(r) then Some(Handle(r)) else None
    else
      match HandleChunks(r, chunks[..|chunks| - 1])
      case None => None
      case Some(before) =>
        var now := Arrive(before, chunks[|chunks| - 1]);
        if HeaderReady(now) then Some(Handle(now)) else None
  }

  // Main result: however the payload of a frame is split into chunks, being called after every
  // chunk is being called once with everything there.
  lemma {:induction false} WaitingIsHarmless(r: Receiver, chunks: seq<Bytes>)
    requires WaitsThrough(r, chunks)
    ensures var all := Arrive(r, Concat(chunks));
            HeaderReady(all) && HandleChunks(r, chunks) == Some(Handle(all))
    decreases |chunks|
  {
    hide Handle, HeaderReady, Waits;
    if chunks == [] {
      AppendNone(r.socket);
    } else {
      var n := |chunks| - 1;
      assert forall k :: 0 <= k <= n ==> chunks[..n][..k] == chunks[..k];
      WaitingIsHarmless(r, chunks[..n]);
      var before := Arrive(r, Concat(chunks[..n]));
      WaitOnce(before, chunks[n]);
      Assoc(r.socket, Concat(chunks[..n]), chunks[n]);
    }
  }

  // A length of 2^63 or more is never waited for: the frame is handled with no payload at all, and
  // what follows the header is read as the next header.
  lemma HugeLengthReadsNothing(r: Receiver)
    requires HeaderReady(r) && ReadHeader(r).header.payloadLength > MAX_PAYLOAD
    ensures Handle(r) == Accept(ReadHeader(r).(notEnoughData := false), ReadHeader(r).header, [])
  {
  }

  // ---------------------------------------------------------------- what clients send

  // A masked frame with its data before masking.
  datatype ClientFrame = ClientFrame(fin: bool, opCode: nat, key: Key, data: Bytes)

  predicate Sendable(f: ClientFrame) {
    f.opCode < 16 && |f.data| <= MAX_PAYLOAD
  }

  function Encode(f: ClientFrame): Bytes {
    HeaderBytes(f.opCode, |f.data|, f.fin, Some(f.key)) + Mask(f.data, f.key)
  }

  function EncodeAll(frames: seq<ClientFrame>): Bytes {
    if frames == [] then [] else Encode(frames[0]) + EncodeAll(frames[1..])
  }

  // One call handles one masked frame and leaves the rest of the socket alone.
  lemma HandleEncoded(r: Receiver, f: ClientFrame, rest: Bytes)
    requires !r.notEnoughData && Sendable(f) && r.socket == Encode(f) + rest
    ensures HeaderReady(r)
    ensures var h := Header(f.fin, f.opCode, true, |f.data|, f.key);
            Handle(r) == Accept(r.(header := h, socket := rest), h, Mask(f.data, f.key))
  {
    var m := Mask(f.data, f.key);
    assert r.socket == HeaderBytes(f.opCode, |f.data|, f.fin, Some(f.key)) + (m + rest);
    HeaderRoundTrip(f.opCode, |f.data|, f.fin, Some(f.key), m + rest, r.header.key);
    assert (m + rest)[..|m|] == m && (m + rest)[|m|..] == rest;
  }

  // A new message inside an unfinished one, and a text frame that is not masked, close the
  // connection and deliver nothing.
  lemma ViolationsClose(r: Receiver, f: ClientFrame, data: Bytes, rest: Bytes)
    requires !r.notEnoughData && Sendable(f) && |data| <= MAX_PAYLOAD
    ensures r.onContinuation && (f.opCode == TEXT || f.opCode == BINARY) && r.socket == Encode(f) + rest ==>
              HeaderReady(r) && Handle(r).closed && Handle(r).delivered == r.delivered
    ensures r.socket == HeaderBytes(TEXT, |data|, f.fin, None) + data + rest ==>
              HeaderReady(r) && Handle(r).closed && Handle(r).delivered == r.delivered
  {
    hide ParseHeader, HeaderBytes, Mask;
    if r.socket == Encode(f) + rest {
      HandleEncoded(r, f, rest);
    }
    if r.socket == HeaderBytes(TEXT, |data|, f.fin, None) + data + rest {
      assert r.socket == HeaderBytes(TEXT, |data|, f.fin, None) + (data + rest);
      HeaderRoundTrip(TEXT, |data|, f.fin, None, data + rest, r.header.key);
    }
  }

  // A close frame closes; a pong or a reserved opcode is read and has no effect.
  lemma OtherFramesHandled(r: Receiver, f: ClientFrame, rest: Bytes)
    requires !r.notEnoughData && Sendable(f) && r.socket == Encode(f) + rest && f.opCode > 2 && f.opCode != 9
    ensures HeaderReady(r)
    ensures var h := Header(f.fin, f.opCode, true, |f.data|, f.key);
            Handle(r) == r.(header := h, socket := rest, closed := r.closed || f.opCode == 8)
  {
    hide ParseHeader, Encode, Mask;
    HandleEncoded(r, f, rest);
  }

  lemma {:induction false} XorKeepsIff(a: nat, b: nat, n: nat)
    requires a < Pow2(n) && b < Pow2(n)
    ensures XorBits(a, b, n) == a <==> b == 0
  {
    if n > 0 {
      XorKeepsIff(a / 2, b / 2, n - 1);
      Halves(XorBits(a / 2, b / 2, n - 1), (a % 2 + b % 2) % 2);
    }
  }

  lemma MaskKeepsIff(data: Bytes, key: Key)
    ensures Mask(data, key) == data <==> forall i :: 0 <= i < |data| ==> key[i % 4] == 0
  {
    assert Pow2(8) == 256 by { assert Pow2(4) == 16; }
    hide Pow2;
    var m := Mask(data, key);
    forall i | 0 <= i < |data|
      ensures m[i] == data[i] <==> key[i % 4] == 0
    {
      XorKeepsIff(data[i], key[i % 4], 8);
    }
    if m == data {
      forall i | 0 <= i < |data|
        ensures key[i % 4] == 0
      {
        assert m[i] == data[i];
      }
    }
  }

  // An unmasked binary message is not refused but unmasked with the key of the frame before: it
  // arrives as sent if and only if the key bytes it meets are zero.
  lemma UnmaskedBinaryIff(r: Receiver, data: Bytes, rest: Bytes)
    requires Expects(r, BINARY) && |data| <= MAX_PAYLOAD
    requires r.socket == HeaderBytes(BINARY, |data|, true, None) + data + rest
    ensures HeaderReady(r)
    ensures Handle(r).delivered == r.delivered + [Message(false, data)] <==>
            forall i :: 0 <= i < |data| ==> r.header.key[i % 4] == 0
  {
    hide ParseHeader, HeaderBytes, Mask;
    assert r.socket == HeaderBytes(BINARY, |data|, true, None) + (data + rest);
    HeaderRoundTrip(BINARY, |data|, true, None, data + rest, r.header.key);
    assert (data + rest)[..|data|] == data && (data + rest)[|data|..] == rest;
    MaskKeepsIff(data, r.header.key);
    var got := Mask(data, r.header.key);
    assert [] + got == got;
    assert Handle(r).delivered == r.delivered + [Message(false, got)];
    assert (r.delivered + [Message(false, got)])[|r.delivered|].data == got;
    assert (r.delivered + [Message(false, data)])[|r.delivered|].data == data;
  }

  // One handler call per frame.
  predicate CallsReady(r: Receiver, calls: nat)
    decreases calls
  {
    calls == 0 || (HeaderReady(r) && CallsReady(Handle(r), calls - 1))
  }

  function HandleTimes(r: Receiver, calls: nat): Receiver
    requires CallsReady(r, calls)
    decreases calls
  {
    if calls == 0 then r else HandleTimes(Handle(r), calls - 1)
  }

  lemma {:induction false} HandleMore(r: Receiver, a: nat, b: nat)
    requires CallsReady(r, a) && CallsReady(HandleTimes(r, a), b)
    ensures CallsReady(r, a + b) && HandleTimes(r, a + b) == HandleTimes(HandleTimes(r, a), b)
    decreases a
  {
    if a > 0 {
      HandleMore(Handle(r), a - 1, b);
    }
  }

  // A fragment of a message, with the control frames sent just before it.
  datatype Fragment = Fragment(pings: seq<ClientFrame>, key: Key, data: Bytes)

  predicate FragmentOk(f: Fragment) {
    |f.data| <= MAX_PAYLOAD && forall p :: p in f.pings ==> p.opCode == PING && |p.data| <= MAX_PAYLOAD
  }

  // The frames of section 5.4 of RFC 6455: the first carries the type, the last carries FIN.
  function FramesOf(fragments: seq<Fragment>, opCode: nat): seq<ClientFrame> {
    if fragments == [] then []
    else
      fragments[0].pings + [ClientFrame(|fragments| == 1, opCode, fragments[0].key, fragments[0].data)]
      + FramesOf(fragments[1..], CONTINUATION)
  }

  function Joined(fragments: seq<Fragment>): Bytes {
    if fragments == [] then [] else fragments[0].data + Joined(fragments[1..])
  }

  lemma {:induction false} EncodeConcat(a: seq<ClientFrame>, b: seq<ClientFrame>)
    ensures EncodeAll(a + b) == EncodeAll(a) + EncodeAll(b)
  {
    if a == [] {
      assert a + b == b;
    } else {
      assert (a + b)[1..] == a[1..] + b;
      EncodeConcat(a[1..], b);
    }
  }

  // What may differ between two receivers that agree on messages: replies and the last header.
  predicate Agree(a: Receiver, b: Receiver) {
    && a.socket == b.socket && !a.notEnoughData && !b.notEnoughData && a.closed == b.closed
    && a.onContinuation == b.onContinuation && a.buffer == b.buffer && a.delivered == b.delivered
  }

  // The replies to n pings: an empty pong each, written without FIN.
  function Pongs(n: nat): Bytes {
    if n == 0 then [] else [0x0A, 0x00] + Pongs(n - 1)
  }

  lemma {:induction false} PingsChangeNothing(r: Receiver, pings: seq<ClientFrame>, rest: Bytes)
    requires !r.notEnoughData && r.socket == EncodeAll(pings) + rest
    requires forall p :: p in pings ==> p.opCode == PING && |p.data| <= MAX_PAYLOAD
    ensures CallsReady(r, |pings|) && Agree(HandleTimes(r, |pings|), r.(socket := rest))
    ensures HandleTimes(r, |pings|).written == r.written + Pongs(|pings|)
    decreases |pings|
  {
    if pings == [] {
      assert r.socket == rest;
    } else {
      var p := pings[0];
      assert p in pings;
      var after := EncodeAll(pings[1..]) + rest;
      assert r.socket == Encode(p) + after;
      HandleEncoded(r, p, after);
      PingsChangeNothing(Handle(r), pings[1..], rest);
      Assoc(r.written, [0x0A, 0x00], Pongs(|pings| - 1));
    }
  }

  // The receiver takes a frame of this type: one that starts a message, or a continuation, which
  // is not refused even when there is nothing to continue.
  predicate Expects(r: Receiver, opCode: nat) {
    && !r.notEnoughData && !r.closed && opCode <= BINARY
    && (opCode != CONTINUATION ==> !r.onContinuation && r.buffer == [])
  }

  lemma DataFrame(r: Receiver, f: ClientFrame, rest: Bytes)
    requires Expects(r, f.opCode) && |f.data| <= MAX_PAYLOAD && r.socket == Encode(f) + rest
    ensures HeaderReady(r)
    ensures var r' := Handle(r);
            && !r'.notEnoughData && !r'.closed && r'.socket == rest && r'.written == r.written
            && r'.onContinuation == !f.fin
            && r'.buffer == (if f.fin then [] else r.buffer + f.data)
            && r'.delivered == r.delivered + (if f.fin then [Message(f.opCode == TEXT, r.buffer + f.data)] else [])
  {
    hide ParseHeader, HeaderBytes, Mask;
    HandleEncoded(r, f, rest);
    MaskTwice(f.data, f.key);
    assert [] + f.data == f.data;
  }

  // The control frames before a fragment and the fragment itself.
  lemma FragmentHandled(r: Receiver, f: Fragment, opCode: nat, fin: bool, rest: Bytes)
    requires FragmentOk(f) && Expects(r, opCode)
    requires r.socket == EncodeAll(f.pings + [ClientFrame(fin, opCode, f.key, f.data)]) + rest
    ensures CallsReady(r, |f.pings| + 1)
    ensures var r' := HandleTimes(r, |f.pings| + 1);
            && !r'.notEnoughData && !r'.closed && r'.socket == rest && r'.onContinuation == !fin
            && r'.buffer == (if fin then [] else r.buffer + f.data)
            && r'.delivered == r.delivered + (if fin then [Message(opCode == TEXT, r.buffer + f.data)] else [])
  {
    hide Handle, HeaderReady, Encode;
    var frame := ClientFrame(fin, opCode, f.key, f.data);
    EncodeConcat(f.pings, [frame]);
    assert EncodeAll([frame]) == Encode(frame) + [] && Encode(frame) + [] == Encode(frame);
    assert r.socket == EncodeAll(f.pings) + (Encode(frame) + rest);
    PingsChangeNothing(r, f.pings, Encode(frame) + rest);
    var r1 := HandleTimes(r, |f.pings|);
    DataFrame(r1, frame, rest);
    assert CallsReady(r1, 1) && HandleTimes(r1, 1) == Handle(r1);
    HandleMore(r, |f.pings|, 1);
  }

  // Main result for one message: its frames, with pings in between, deliver exactly its bytes.
  lemma {:induction false} MessageDelivered(r: Receiver, fragments: seq<Fragment>, opCode: nat, rest: Bytes)
    requires fragments != [] && (forall f :: f in fragments ==> FragmentOk(f)) && Expects(r, opCode)
    requires r.socket == EncodeAll(FramesOf(fragments, opCode)) + rest
    ensures var n := |FramesOf(fragments, opCode)|;
            && CallsReady(r, n)
            && var r' := HandleTimes(r, n);
               && !r'.notEnoughData && !r'.closed && r'.socket == rest
               && !r'.onContinuation && r'.buffer == []
               && r'.delivered == r.delivered
                                  + [Message(opCode == TEXT && |fragments| == 1, r.buffer + Joined(fragments))]
    decreases |fragments|
  {
    hide Handle, HeaderReady, FragmentOk, EncodeAll, CallsReady, HandleTimes;
    var f, later := fragments[0], FramesOf(fragments[1..], CONTINUATION);
    assert f in fragments;
    var first := f.pings + [ClientFrame(|fragments| == 1, opCode, f.key, f.data)];
    EncodeConcat(first, later);
    Assoc(EncodeAll(first), EncodeAll(later), rest);
    FragmentHandled(r, f, opCode, |fragments| == 1, EncodeAll(later) + rest);
    var r2 := HandleTimes(r, |first|);
    if |fragments| > 1 {
      AppendNone(r.delivered);
      MessageDelivered(r2, fragments[1..], CONTINUATION, rest);
      Assoc(r.buffer, f.data, Joined(fragments[1..]));
      HandleMore(r, |first|, |later|);
    } else {
      NothingLater(f, rest);
      AppendNone(first);
    }
  }

  lemma NothingLater(f: Fragment, rest: Bytes)
    ensures Joined([f]) == f.data && EncodeAll([]) + rest == rest
  {
    AppendNone(f.data);
    assert [f][1..] == [];
  }

  // A message of a client: a text or binary type and at least one fragment.
  datatype ClientMessage = ClientMessage(text: bool, fragments: seq<Fragment>)

  predicate MessageOk(m: ClientMessage) {
    m.fragments != [] && forall f :: f in m.fragments ==> FragmentOk(f)
  }

  function MessageFrames(m: ClientMessage): seq<ClientFrame> {
    FramesOf(m.fragments, if m.text then TEXT else BINARY)
  }

  function AllFrames(messages: seq<ClientMessage>): seq<ClientFrame> {
    if messages == [] then [] else MessageFrames(messages[0]) + AllFrames(messages[1..])
  }

  // What is delivered for a message: its bytes, and as text only if it was text in one frame.
  function Delivery(m: ClientMessage): Message {
    Message(m.text && |m.fragments| == 1, Joined(m.fragments))
  }

  function Deliveries(messages: seq<ClientMessage>): seq<Message> {
    if messages == [] then [] else [Delivery(messages[0])] + Deliveries(messages[1..])
  }

  // Main result: for any sequence of masked messages, however fragmented and interleaved with
  // pings, one call per frame delivers exactly the messages' bytes in order, and between messages
  // the buffer is empty and no continuation is pending.
  lemma {:induction false} StreamDelivered(r: Receiver, messages: seq<ClientMessage>, rest: Bytes)
    requires forall m :: m in messages ==> MessageOk(m)
    requires Expects(r, TEXT) && r.socket == EncodeAll(AllFrames(messages)) + rest
    ensures var n := |AllFrames(messages)|;
            && CallsReady(r, n)
            && var r' := HandleTimes(r, n);
               Expects(r', TEXT) && r'.socket == rest && r'.delivered == r.delivered + Deliveries(messages)
    decreases |messages|
  {
    hide Handle, HeaderReady, Encode, FramesOf, EncodeAll, CallsReady, HandleTimes, Joined;
    if messages == [] {
      NothingSent(r, rest);
    } else {
      var m := messages[0];
      assert m in messages;
      var frames, later := MessageFrames(m), AllFrames(messages[1..]);
      EncodeConcat(frames, later);
      var after := EncodeAll(later) + rest;
      Assoc(EncodeAll(frames), EncodeAll(later), rest);
      MessageDelivered(r, m.fragments, if m.text then TEXT else BINARY, after);
      assert [] + Joined(m.fragments) == Joined(m.fragments);
      StreamDelivered(HandleTimes(r, |frames|), messages[1..], rest);
      HandleMore(r, |frames|, |later|);
      Assoc(r.delivered, [Delivery(m)], Deliveries(messages[1..]));
    }
  }

  lemma NothingSent(r: Receiver, rest: Bytes)
    ensures CallsReady(r, 0) && HandleTimes(r, 0) == r
    ensures EncodeAll([]) + rest == rest && r.delivered + [] == r.delivered
  {
    AppendNone(r.delivered);
  }

  // A continuation without a beginning is delivered as a binary message of its own.
  lemma StrayContinuationDelivered(r: Receiver, f: Fragment, rest: Bytes)
    requires Expects(r, TEXT) && FragmentOk(f) && f.pings == []
    requires r.socket == Encode(ClientFrame(true, CONTINUATION, f.key, f.data)) + rest
    ensures HeaderReady(r) && !Handle(r).closed && Handle(r).delivered == r.delivered + [Message(false, f.data)]
  {
    hide Handle, Encode;
    DataFrame(r, ClientFrame(true, CONTINUATION, f.key, f.data), rest);
    assert [] + f.data == f.data;
  }

  // The failing case is reachable: a text message in two frames is delivered, but not as text.
  lemma FragmentedTextIsBinary(r: Receiver, first: Fragment, last: Fragment)
    requires Expects(r, TEXT) && FragmentOk(first) && FragmentOk(last)
    requires r.socket == EncodeAll(FramesOf([first, last], TEXT))
    ensures var n := |FramesOf([first, last], TEXT)|;
            && CallsReady(r, n)
            && HandleTimes(r, n).delivered == r.delivered + [Message(false, first.data + last.data)]
  {
    hide CallsReady, HandleTimes, FramesOf, EncodeAll;
    AppendNone(r.socket);
    MessageDelivered(r, [first, last], TEXT, []);
    assert [first, last][1..] == [last] && [last][1..] == [];
    assert Joined([last]) == last.data + Joined([]) && Joined([first, last]) == first.data + Joined([last]);
    AppendNone(last.data);
    assert [] + (first.data + last.data) == first.data + last.data;
  }
}

module WebSocket {
  import opened Wrappers
  import opened Colors
  import opened Arithmetic
  import opened Sequences
  import opened WebSocketSpec

  class WebSocketClient {
    // Received and not yet read bytes, bytes written, and whether the connection was closed.
    var socket: Bytes
    var written: Bytes
    var closed: bool
    var delivered: seq<Message>

    var wsReceiveBuffer: Bytes
    var onContinuation: bool
    var notEnoughData: bool
    var wsh: Header

    constructor ()
      ensures Expects(Model(), TEXT) && socket == [] && delivered == [] && written == []
    {
      socket, written, closed, delivered := [], [], false, [];
      wsReceiveBuffer, onContinuation, notEnoughData := [], false, false;
      wsh := Header(false, 0, false, 0, NO_KEY);
    }

    ghost function Model(): Receiver
      reads this
    {
      Receiver(socket, notEnoughData, wsh, onContinuation, wsReceiveBuffer, delivered, written, closed)
    }

    static method MakeFrameHeader(opCode: Byte, payloadLength: nat, lastFrame: bool) returns (header: Bytes)
      ensures header == FrameHeader(opCode, payloadLength, lastFrame)
    {
      header := [];
      if payloadLength <= MAX_PAYLOAD {
        header := header + [opCode % 16 + (if lastFrame then 0x80 else 0x00)];
        if payloadLength <= 125 {
          header := header + [payloadLength];
        } else if payloadLength <= 0xFFFF {
          header := header + [126];
          header := header + BigEndian(payloadLength, 2);
        } else {
          header := header + [127];
          header := header + BigEndian(payloadLength, 8);
        }
      }
    }

    // The bytes sendMessage writes, for a socket that takes all of them.
    static method SendMessage(data: Bytes) returns (stream: Bytes)
      requires |data| < TWO32
      ensures stream == Sent(data)
    {
      hide Sent, FrameHeader, Min;
      stream := [];
      var payloadSize := |data|;
      var numFrames := payloadSize / FRAME_SIZE_IN_BYTES + (if payloadSize % FRAME_SIZE_IN_BYTES > 0 then 1 else 0);
      FramesCover(payloadSize);
      var i := 0;
      while i < numFrames
        invariant 0 <= i <= numFrames
        invariant 0 <= Min(i * FRAME_SIZE_IN_BYTES, payloadSize) <= payloadSize
        invariant stream + Sent(data[Min(i * FRAME_SIZE_IN_BYTES, payloadSize)..]) == Sent(data)
      {
        var isLastFrame := i == numFrames - 1;
        var position := i * FRAME_SIZE_IN_BYTES;
        FramePosition(payloadSize, i);
        var frameSize := if payloadSize - position >= FRAME_SIZE_IN_BYTES then FRAME_SIZE_IN_BYTES
                         else payloadSize - position;
        var buf := MakeFrameHeader(TEXT, frameSize, isLastFrame);
        SentStep(data, position, frameSize, isLastFrame);
        stream := stream + buf;
        stream := stream + data[position..position + frameSize];
        i := i + 1;
      }
      SentNothing();
      assert data[payloadSize..] == [];
      AppendNone(stream);
    }

    // Where the i-th frame lies, where the next one starts, and when it is the last.
    static lemma FramePosition(size: nat, i: nat)
      requires i < size / FRAME_SIZE_IN_BYTES + (if size % FRAME_SIZE_IN_BYTES > 0 then 1 else 0)
      ensures var position := i * FRAME_SIZE_IN_BYTES;
              var frameSize := if size - position >= FRAME_SIZE_IN_BYTES then FRAME_SIZE_IN_BYTES else size - position;
              && position < size && Min(position, size) == position
              && Min((i + 1) * FRAME_SIZE_IN_BYTES, size) == position + frameSize
              && frameSize == Min(FRAME_SIZE_IN_BYTES, size - position)
              && (i == size / FRAME_SIZE_IN_BYTES + (if size % FRAME_SIZE_IN_BYTES > 0 then 1 else 0) - 1
                  <==> size - position <= FRAME_SIZE_IN_BYTES)
    {
    }

    static lemma FramesCover(size: nat)
      ensures var n := size / FRAME_SIZE_IN_BYTES + (if size % FRAME_SIZE_IN_BYTES > 0 then 1 else 0);
              Min(n * FRAME_SIZE_IN_BYTES, size) == size
      ensures Min(0, size) == 0
    {
    }

    static lemma SentNothing()
      ensures Sent([]) == []
    {
    }

    static lemma SentStep(data: Bytes, position: nat, frameSize: nat, last: bool)
      requires position < |data| && frameSize == Min(FRAME_SIZE_IN_BYTES, |data| - position)
      requires last <==> |data| - position <= FRAME_SIZE_IN_BYTES
      ensures Sent(data[position..]) ==
              FrameHeader(TEXT, frameSize, last) + data[position..position + frameSize]
              + Sent(data[position + frameSize..])
    {
      var ahead := data[position..];
      assert ahead[..frameSize] == data[position..position + frameSize];
      assert ahead[frameSize..] == data[position + frameSize..];
      if last { assert ahead[..frameSize] == ahead; }
    }

    // Reads the extended length byte by byte.
    method GetWsFrameHeader()
      requires !notEnoughData && ParseHeader(socket, wsh.key).Some?
      modifies `socket, `wsh
      ensures Model() == ReadHeader(old(Model()))
    {
      hide FromBigEndian;
      var s := socket;
      var fin, opCode := s[0] >= 0x80, s[0] % 16;
      var masked, payloadLength: nat := s[1] >= 0x80, s[1] % 128;
      s := s[2..];
      if payloadLength == 126 {
        var buf := s[..2];
        SliceAgain(socket, 2, 2);
        s := s[2..];
        TwoBytes(buf);
        payloadLength := 256 * (buf[0] as int) + buf[1] as int;
      } else if payloadLength == 127 {
        var buf := s[..8];
        SliceAgain(socket, 2, 8);
        s := s[8..];
        payloadLength := EightBytes(buf);
      }
      var key := wsh.key;
      if masked {
        ghost var at := |socket| - |s|;
        assert s == socket[at..];
        SliceAgain(socket, at, 4);
        key := s[..4];
        s := s[4..];
      }
      wsh := Header(fin, opCode, masked, payloadLength, key);
      socket := s;
    }

    static lemma TwoBytes(buf: Bytes)
      requires |buf| == 2
      ensures FromBigEndian(buf) == 256 * (buf[0] as int) + buf[1] as int
    {
      assert buf[..1] == [buf[0]] && [buf[0]][..0] == [];
      assert FromBigEndian([buf[0]]) == buf[0] as int;
    }

    static method EightBytes(buf: Bytes) returns (n: nat)
      requires |buf| == 8
      ensures n == FromBigEndian(buf)
    {
      hide FromBigEndian, Pow256;
      EmptyLength();
      n := 0;
      for i := 0 to 8
        invariant n == FromBigEndian(buf[..i]) * Pow256(8 - i)
      {
        assert buf[..i + 1] == buf[..i] + [buf[i]];
        NextByte(buf[..i], buf[i]);
        AddByte(FromBigEndian(buf[..i]), buf[i], 7 - i);
        n := n + buf[i] * Pow256(7 - i);
      }
      assert buf[..8] == buf;
    }

    static lemma EmptyLength()
      ensures FromBigEndian([]) == 0 && Pow256(0) == 1
    {
    }

    static lemma NextByte(s: Bytes, b: Byte)
      ensures FromBigEndian(s + [b]) == 256 * FromBigEndian(s) + b
    {
      assert (s + [b])[..|s|] == s;
    }

    static lemma AddByte(n: nat, b: nat, k: nat)
      ensures n * Pow256(k + 1) + b * Pow256(k) == (256 * n + b) * Pow256(k)
    {
    }

    method HandleWebSocketFrame()
      requires HeaderReady(Model())
      modifies this
      ensures Model() == Handle(old(Model()))
    {
      hide ParseHeader;
      if !notEnoughData {
        GetWsFrameHeader();
      }
      // the cast to qint64
      var length: int := if wsh.payloadLength <= MAX_PAYLOAD then wsh.payloadLength
                         else wsh.payloadLength % TWO64 - TWO64;
      if |socket| < length {
        notEnoughData := true;
        return;
      }
      notEnoughData := false;
      // read with a negative size returns nothing
      var size := Max(length, 0);
      var buf := socket[..size];
      socket := socket[size..];
      AcceptFrame(buf);
    }

    method AcceptFrame(data: Bytes)
      modifies `closed, `onContinuation, `wsReceiveBuffer, `delivered, `written
      ensures Model() == Accept(old(Model()), wsh, data)
    {
      hide Mask;
      if wsh.opCode == CONTINUATION || wsh.opCode == BINARY || wsh.opCode == TEXT {
        var isContinuation := wsh.opCode == CONTINUATION;
        if onContinuation && !isContinuation {
          closed := true;
          return;
        }
        if !wsh.masked && wsh.opCode == TEXT {
          closed := true;
          return;
        }
        var buf := Unmask(data, wsh.key);
        onContinuation := !wsh.fin || isContinuation;
        if wsh.fin && !isContinuation {
          wsReceiveBuffer := [];
        }
        wsReceiveBuffer := wsReceiveBuffer + buf;
        if wsh.fin {
          onContinuation := false;
          delivered := delivered + [Message(wsh.opCode == TEXT, wsReceiveBuffer)];
          wsReceiveBuffer := [];
        }
      } else if wsh.opCode == CLOSE {
        closed := true;
      } else if wsh.opCode == PING {
        written := written + [PONG, 0];
      }
    }

    // In place, byte by byte.
    static method Unmask(data: Bytes, key: Key) returns (buf: Bytes)
      ensures buf == Mask(data, key)
    {
      hide Xor;
      buf := data;
      var i := 0;
      while i < |buf|
        invariant 0 <= i <= |buf| == |data|
        invariant forall k :: 0 <= k < i ==> buf[k] == Xor(data[k], key[k % 4])
        invariant forall k :: i <= k < |buf| ==> buf[k] == data[k]
      {
        buf := buf[i := Xor(buf[i], key[i % 4])];
        i := i + 1;
      }
    }
  }
}
