/**
 WebSocket frames: what WebsocketContext::Write sends (websocketContext.cc), and a decoder
 written from sections 5.2 and 5.4 of RFC 6455.
 */
module WebSocketFrames {
  import opened Wrappers

  type Byte = x: nat | x < 256

  const MAX_FRAME: nat := 4294967295

  const CONTINUATION: Byte := 0x00
  const FINAL: Byte := 0x80

  /** Text, binary, and the opcodes kept for further data frames. */
  predicate IsDataOpCode(opcode: Byte) {
    1 <= opcode <= 7
  }

  // ----- byte order -----

  function LittleEndian(v: nat, n: nat): (s: seq<Byte>)
    ensures |s| == n
  {
    if n == 0 then [] else [v % 256] + LittleEndian(v / 256, n - 1)
  }

  function BigEndian(v: nat, n: nat): (s: seq<Byte>)
    ensures |s| == n
  {
    if n == 0 then [] else BigEndian(v / 256, n - 1) + [v % 256]
  }

  /** How the host keeps an integer of n bytes in memory. */
  function Memory(v: nat, n: nat, little: bool): seq<Byte> {
    if little then LittleEndian(v, n) else BigEndian(v, n)
  }

  function FromLittleEndian(s: seq<Byte>): nat {
    if s == [] then 0 else s[0] + 256 * FromLittleEndian(s[1..])
  }

  function FromBigEndian(s: seq<Byte>): nat {
    if s == [] then 0 else FromBigEndian(s[..|s| - 1]) * 256 + s[|s| - 1]
  }

  function Htons(v: nat, little: bool): nat {
    if little then FromLittleEndian(BigEndian(v, 2)) else v
  }

  function Htonl(v: nat, little: bool): nat {
    if little then FromLittleEndian(BigEndian(v, 4)) else v
  }

  const TWO_32: nat := 0x1_0000_0000

  /** htonll, put together from two halves. */
  function Htonll(v: nat, little: bool): nat {
    if little then
      var high := Htonl(v / TWO_32, little);
      var low := Htonl(v % TWO_32, little);
      low * TWO_32 + high
    else v
  }

  lemma {:induction false} LittleEndianRoundTrip(s: seq<Byte>)
    ensures LittleEndian(FromLittleEndian(s), |s|) == s
  {
    if s != [] {
      LittleEndianRoundTrip(s[1..]);
      var rest := FromLittleEndian(s[1..]);
      assert (s[0] + 256 * rest) % 256 == s[0] && (s[0] + 256 * rest) / 256 == rest;
    }
  }

  lemma {:induction false} FromLittleEndianBound(s: seq<Byte>)
    requires |s| == 4
    ensures FromLittleEndian(s) < TWO_32
  {
    var a, b, c := s[1..], s[2..], s[3..];
    assert a[1..] == b && b[1..] == c && c[1..] == [];
    assert FromLittleEndian(c) < 0x100;
    assert FromLittleEndian(b) < 0x1_0000;
    assert FromLittleEndian(a) < 0x100_0000;
  }

  /** 256 to the power k. */
  function Power(k: nat): (p: nat)
    ensures p > 0
  {
    if k == 0 then 1 else 256 * Power(k - 1)
  }

  lemma LastByte(high: nat, low: nat, k: nat)
    requires k > 0 && low < Power(k)
    ensures var v := high * Power(k) + low;
      v % 256 == low % 256 && v / 256 == high * Power(k - 1) + low / 256 && low / 256 < Power(k - 1)
  {
    var x := high * Power(k - 1);
    assert high * Power(k) == 256 * x;
  }

  lemma {:induction false} LittleEndianSplit(high: nat, low: nat, k: nat, n: nat)
    requires k <= n && low < Power(k)
    ensures LittleEndian(high * Power(k) + low, n) == LittleEndian(low, k) + LittleEndian(high, n - k)
  {
    if k > 0 {
      LastByte(high, low, k);
      LittleEndianSplit(high, low / 256, k - 1, n - 1);
    }
  }

  lemma {:induction false} BigEndianSplit(high: nat, low: nat, k: nat, n: nat)
    requires k <= n && low < Power(k)
    ensures BigEndian(high * Power(k) + low, n) == BigEndian(high, n - k) + BigEndian(low, k)
  {
    if k > 0 {
      LastByte(high, low, k);
      BigEndianSplit(high, low / 256, k - 1, n - 1);
    }
  }

  lemma PowerIs()
    ensures Power(4) == TWO_32
  {
    assert Power(2) == 0x1_0000;
    assert Power(3) == 0x100_0000;
  }

  lemma BigEndianHalves(v: nat)
    ensures BigEndian(v, 8) == BigEndian(v / TWO_32, 4) + BigEndian(v % TWO_32, 4)
  {
    hide BigEndian, Power;
    PowerIs();
    BigEndianSplit(v / TWO_32, v % TWO_32, 4, 8);
  }

  /** Whatever the host's byte order, the bytes of a length go out with the greatest first. */
  lemma NetworkOrder(v: nat, little: bool)
    ensures Memory(Htons(v, little), 2, little) == BigEndian(v, 2)
    ensures Memory(Htonll(v, little), 8, little) == BigEndian(v, 8)
  {
    if little {
      LittleEndianRoundTrip(BigEndian(v, 2));
      var high, low := BigEndian(v / TWO_32, 4), BigEndian(v % TWO_32, 4);
      LittleEndianRoundTrip(high);
      LittleEndianRoundTrip(low);
      FromLittleEndianBound(high);
      PowerIs();
      LittleEndianSplit(FromLittleEndian(low), FromLittleEndian(high), 4, 8);
      BigEndianHalves(v);
    }
  }

  lemma {:induction false} BigEndianRoundTrip(v: nat, n: nat)
    requires v < Power(n)
    ensures FromBigEndian(BigEndian(v, n)) == v
  {
    if n > 0 {
      LastByte(0, v, n);
      BigEndianRoundTrip(v / 256, n - 1);
      assert BigEndian(v, n)[..n - 1] == BigEndian(v / 256, n - 1);
    }
  }

  lemma FirstByteIsZero(v: nat)
    requires v < TWO_32
    ensures BigEndian(v, 8)[0] == 0
  {
    BigEndianHalves(v);
    assert BigEndian(0, 1) == [0];
    assert BigEndian(0, 2) == [0, 0];
    assert BigEndian(0, 3) == [0, 0, 0];
    assert BigEndian(0, 4) == [0, 0, 0, 0];
  }

  // ----- what is sent -----

  function Or(b: Byte, control: Byte): Byte {
    if control == FINAL && b < 128 then b + 128 else b
  }

  function LengthBytes(size: nat): seq<Byte> {
    if size < 126 then [size]
    else if size < 65536 then [126] + BigEndian(size, 2)
    else [127] + BigEndian(size, 8)
  }

  function FrameBytes(first: Byte, payload: seq<Byte>): seq<Byte> {
    [first] + LengthBytes(|payload|) + payload
  }

  /** The frames of a message; first is the opcode of the first of them. */
  function Frames(first: Byte, buffer: seq<Byte>): seq<Byte> {
    if buffer == [] then []
    else if |buffer| <= MAX_FRAME then FrameBytes(Or(first, FINAL), buffer)
    else FrameBytes(first, buffer[..MAX_FRAME]) + Frames(CONTINUATION, buffer[MAX_FRAME..])
  }

  // ----- RFC 6455 -----

  datatype Frame = Frame(fin: bool, opcode: nat, payload: seq<Byte>)

  /** Section 5.2: the payload length, in the least number of bytes, and what follows it. */
  function DecodeLength(s: seq<Byte>): Option<(nat, seq<Byte>)> {
    if |s| < 1 then None
    else if s[0] < 126 then Some((s[0], s[1..]))
    else if s[0] == 126 then
      if |s| < 3 || FromBigEndian(s[1..3]) < 126 then None else Some((FromBigEndian(s[1..3]), s[3..]))
    else if s[0] == 127 then
      if |s| < 9 || s[1] >= 128 || FromBigEndian(s[1..9]) < 65536 then None
      else Some((FromBigEndian(s[1..9]), s[9..]))
    else None // masked, which a server's frames are not
  }

  /** Section 5.2: one unmasked frame with no reserved bit set, and what follows it. */
  function DecodeFrame(s: seq<Byte>): Option<(Frame, seq<Byte>)> {
    if |s| < 1 || s[0] % 128 >= 16 then None
    else
      match DecodeLength(s[1..])
      case None => None
      case Some((size, rest)) =>
        if |rest| < size then None else Some((Frame(s[0] >= 128, s[0] % 128, rest[..size]), rest[size..]))
  }

  /** Section 5.4: the rest of a message, in frames of opcode 0, the last with FIN set. */
  function DecodeFragments(s: seq<Byte>): Option<(seq<Byte>, seq<Byte>)>
    decreases |s|
  {
    match DecodeFrame(s)
    case None => None
    case Some((f, rest)) =>
      if f.opcode != 0 then None
      else if f.fin then Some((f.payload, rest))
      else if |rest| >= |s| then None
      else
        match DecodeFragments(rest)
        case None => None
        case Some((data, after)) => Some((f.payload + data, after))
  }

  datatype Message = Message(opcode: nat, data: seq<Byte>)

  /** Section 5.4: a whole message, and what follows it. */
  function DecodeMessage(s: seq<Byte>): Option<(Message, seq<Byte>)> {
    match DecodeFrame(s)
    case None => None
    case Some((f, rest)) =>
      if !(1 <= f.opcode <= 7) then None
      else if f.fin then Some((Message(f.opcode, f.payload), rest))
      else
        match DecodeFragments(rest)
        case None => None
        case Some((data, after)) => Some((Message(f.opcode, f.payload + data), after))
  }

  lemma LengthDecodes(size: nat, rest: seq<Byte>)
    requires size <= MAX_FRAME
    ensures DecodeLength(LengthBytes(size) + rest) == Some((size, rest))
  {
    var s := LengthBytes(size) + rest;
    if 126 <= size < 65536 {
      BigEndianRoundTrip(size, 2);
      assert s[1..3] == BigEndian(size, 2) && s[3..] == rest;
    } else if size >= 65536 {
      BigEndianRoundTrip(size, 8);
      FirstByteIsZero(size);
      assert s[1..9] == BigEndian(size, 8) && s[9..] == rest;
      assert s[1] == BigEndian(size, 8)[0];
    }
  }

  lemma FrameDecodes(first: Byte, payload: seq<Byte>, rest: seq<Byte>)
    requires |payload| <= MAX_FRAME && first % 128 < 16
    ensures DecodeFrame(FrameBytes(first, payload) + rest) == Some((Frame(first >= 128, first % 128, payload), rest))
  {
    hide DecodeLength, LengthBytes;
    var s := FrameBytes(first, payload) + rest;
    LengthDecodes(|payload|, payload + rest);
    assert s[1..] == LengthBytes(|payload|) + (payload + rest);
    assert (payload + rest)[..|payload|] == payload && (payload + rest)[|payload|..] == rest;
  }

  lemma {:induction false} FragmentsDecode(buffer: seq<Byte>, rest: seq<Byte>)
    requires buffer != []
    ensures DecodeFragments(Frames(CONTINUATION, buffer) + rest) == Some((buffer, rest))
    decreases |buffer|
  {
    hide DecodeFrame;
    if |buffer| <= MAX_FRAME {
      FrameDecodes(FINAL, buffer, rest);
    } else {
      var payload, more := buffer[..MAX_FRAME], buffer[MAX_FRAME..];
      var after := Frames(CONTINUATION, more) + rest;
      FrameDecodes(CONTINUATION, payload, after);
      FragmentsDecode(more, rest);
      assert Frames(CONTINUATION, buffer) + rest == FrameBytes(CONTINUATION, payload) + after;
      assert payload + more == buffer;
    }
  }

  /** A message is received as it was sent: one message, its opcode and exactly its bytes. */
  lemma MessageDecodes(opcode: Byte, buffer: seq<Byte>, rest: seq<Byte>)
    requires IsDataOpCode(opcode) && buffer != []
    ensures DecodeMessage(Frames(opcode, buffer) + rest) == Some((Message(opcode, buffer), rest))
  {
    hide DecodeFrame, FrameBytes, DecodeFragments;
    assert Or(opcode, FINAL) % 128 == opcode;
    if |buffer| <= MAX_FRAME {
      FrameDecodes(Or(opcode, FINAL), buffer, rest);
    } else {
      var payload, more := buffer[..MAX_FRAME], buffer[MAX_FRAME..];
      var after := Frames(CONTINUATION, more) + rest;
      FrameDecodes(opcode, payload, after);
      FragmentsDecode(more, rest);
      assert Frames(opcode, buffer) + rest == FrameBytes(opcode, payload) + after;
      assert payload + more == buffer;
    }
  }

  /** A message of no bytes is not sent at all, so that it cannot be received. */
  lemma EmptyMessageIsLost(opcode: Byte)
    ensures Frames(opcode, []) == [] && DecodeMessage(Frames(opcode, [])) == None
  {
  }
}
