/** The loop that writes a message frame by frame (websocketContext.cc). */
module WebSocketWriter {
  import opened Wrappers
  import opened WebSocketFrames

  class WebsocketContext {
    /** Everything the socket has taken. */
    var sent: seq<Byte>
    var closes: nat
    var writes: nat
    /** Whether the socket takes what the nth raw_write gives it; it fails otherwise. */
    const takes: nat -> bool
    /** The byte order of the host. */
    const little: bool

    constructor (takes: nat -> bool, little: bool)
      ensures sent == [] && closes == 0 && writes == 0 && this.takes == takes && this.little == little
    {
      sent, closes, writes := [], 0, 0;
      this.takes, this.little := takes, little;
    }

    method RawWrite(data: seq<Byte>) returns (ok: bool)
      modifies this`sent, this`writes
      ensures ok == takes(old(writes)) && writes == old(writes) + 1
      ensures sent == if ok then old(sent) + data else old(sent)
    {
      ok := takes(writes);
      writes := writes + 1;
      if ok {
        sent := sent + data;
      }
    }

    method Close()
      modifies this`closes
      ensures closes == old(closes) + 1
    {
      closes := closes + 1;
    }

    /** The header of a frame, as it is put together in the array of ten bytes. */
    method FillHeader(header: array<Byte>, size: nat) returns (headerLen: nat)
      requires header.Length == 10 && size <= MAX_FRAME
      modifies header
      ensures 2 <= headerLen <= 10 && header[0] == old(header[0])
      ensures header[..headerLen] == [header[0]] + LengthBytes(size)
    {
      if size < 126 {
        headerLen := 2;
        header[1] := size;
      } else if size < 65536 {
        headerLen := 4;
        header[1] := 126;
        CopyBytes(header, Memory(Htons(size, little), 2, little));
        NetworkOrder(size, little);
      } else {
        headerLen := 10;
        header[1] := 127;
        CopyBytes(header, Memory(Htonll(size, little), 8, little));
        NetworkOrder(size, little);
      }
      assert header[..headerLen] == [header[0]] + header[1..headerLen];
    }

    /** memcpy to the bytes after the first two. */
    method CopyBytes(header: array<Byte>, data: seq<Byte>)
      requires header.Length == 10 && |data| <= 8
      modifies header
      ensures header[..2] == old(header[..2]) && header[2..2 + |data|] == data
    {
      for i := 0 to |data|
        invariant header[..2] == old(header[..2])
        invariant forall k :: 0 <= k < i ==> header[2 + k] == data[k]
      {
        header[2 + i] := data[i];
      }
    }

    ghost predicate TakesAll(from: nat, to: nat) {
      forall n :: from <= n < to ==> takes(n)
    }

    /** A frame's header and payload; the connection is closed when either is not taken. */
    method SendFrame(header: seq<Byte>, payload: seq<Byte>) returns (ok: bool)
      requires payload != []
      modifies this`sent, this`closes, this`writes
      ensures ok ==> sent == old(sent) + (header + payload) && closes == old(closes)
      ensures !ok ==> closes == old(closes) + 1 && StoppedWithin(old(sent), sent, header + payload)
      ensures ok <==> takes(old(writes)) && takes(old(writes) + 1)
      ensures ok ==> writes == old(writes) + 2
    {
      ok := RawWrite(header);
      if ok {
        ok := RawWrite(payload);
      } else {
        assert old(sent) + [] == old(sent) && [] < header + payload;
      }
      if !ok {
        Close();
        assert header < header + payload;
      } else {
        assert old(sent) + header + payload == old(sent) + (header + payload);
      }
    }

    /**
     Everything is sent and nothing closed when the socket takes all the writes, two for each frame;
     else a proper part of it is sent and the connection closed once.
     */
    method Write(buffer: seq<Byte>, opcode: Byte)
      requires opcode < FINAL
      modifies this`sent, this`closes, this`writes
      ensures closes == old(closes) || closes == old(closes) + 1
      ensures closes == old(closes) ==> sent == old(sent) + Frames(opcode, buffer)
      ensures closes != old(closes) ==> StoppedWithin(old(sent), sent, Frames(opcode, buffer))
      ensures closes == old(closes) <==> TakesAll(old(writes), old(writes) + 2 * FrameCount(|buffer|))
    {
      hide StoppedWithin, FrameBytes, LengthBytes;
      var header := new Byte[10];
      header[0] := opcode;
      var pos := 0;
      ghost var all := Frames(opcode, buffer);
      ghost var done := [];
      assert buffer[0..] == buffer && sent + [] == sent && [] + all == all;
      while pos < |buffer|
        invariant pos <= |buffer| && header[0] < FINAL && closes == old(closes)
        invariant sent == old(sent) + done && all == done + Frames(header[0], buffer[pos..])
        invariant old(writes) <= writes && TakesAll(old(writes), writes)
        invariant writes + 2 * FrameCount(|buffer| - pos) == old(writes) + 2 * FrameCount(|buffer|)
        decreases |buffer| - pos
      {
        var left := |buffer| - pos;
        var sendSize := if left > MAX_FRAME then MAX_FRAME else left;
        ghost var first := header[0];
        left := left - sendSize;
        header[0] := Or(header[0], if left == 0 then FINAL else CONTINUATION);
        ghost var control := header[0];
        var headerLen := FillHeader(header, sendSize);
        var payload := buffer[pos..pos + sendSize];
        FirstFrame(first, buffer[pos..], sendSize);
        assert buffer[pos..][..sendSize] == payload && buffer[pos..][sendSize..] == buffer[pos + sendSize..];
        ghost var rest := Frames(CONTINUATION, buffer[pos + sendSize..]);
        HeaderAndPayload(header[..headerLen], control, payload);
        var ok := SendFrame(header[..headerLen], payload);
        if !ok {
          StoppedLater(old(sent), done, FrameBytes(control, payload), rest, sent);
          return;
        }
        Joined(old(sent), done, FrameBytes(control, payload), rest);
        done := done + FrameBytes(control, payload);
        pos := pos + sendSize;
        header[0] := 0;
      }
      assert done + [] == done;
    }
  }

  lemma HeaderAndPayload(header: seq<Byte>, control: Byte, payload: seq<Byte>)
    requires |payload| <= MAX_FRAME && header == [control] + LengthBytes(|payload|)
    ensures header + payload == FrameBytes(control, payload)
  {
  }

  /** How many frames a buffer of n bytes is cut into. */
  function FrameCount(n: nat): nat {
    if n == 0 then 0 else 1 + FrameCount(if n > MAX_FRAME then n - MAX_FRAME else 0)
  }

  /** Of all that was to be sent after before, a proper part has been. */
  ghost predicate StoppedWithin(before: seq<Byte>, after: seq<Byte>, all: seq<Byte>) {
    exists part :: part < all && after == before + part
  }

  lemma StoppedLater(start: seq<Byte>, done: seq<Byte>, frame: seq<Byte>, rest: seq<Byte>, after: seq<Byte>)
    requires StoppedWithin(start + done, after, frame)
    ensures StoppedWithin(start, after, done + (frame + rest))
  {
    var part :| part < frame && after == start + done + part;
    assert after == start + (done + part);
    assert done + part < done + (frame + rest);
  }

  lemma Joined(start: seq<Byte>, done: seq<Byte>, frame: seq<Byte>, rest: seq<Byte>)
    ensures start + done + frame == start + (done + frame)
    ensures done + (frame + rest) == done + frame + rest
  {
  }

  lemma FirstFrame(first: Byte, buffer: seq<Byte>, size: nat)
    requires buffer != [] && size == (if |buffer| > MAX_FRAME then MAX_FRAME else |buffer|)
    ensures Frames(first, buffer) ==
      FrameBytes(Or(first, if |buffer| == size then FINAL else CONTINUATION), buffer[..size])
      + Frames(CONTINUATION, buffer[size..])
  {
    if |buffer| == size {
      assert buffer[..size] == buffer && buffer[size..] == [];
      assert FrameBytes(Or(first, FINAL), buffer) + [] == FrameBytes(Or(first, FINAL), buffer);
    }
  }
}
