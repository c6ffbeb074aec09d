/**
 The response writer (outgoing/Message.cc, outgoing/Response.cc): the state machine that
 turns headers and payload writes into bytes, buffering the payload or sending it in chunks.
 A method returns false where the source throws.
 */
module HttpWriter {
  import opened Strings
  import opened Numerals
  import opened HttpMessages

  lemma EmptyLineAndLastChunk(before: string)
    ensures before + "\r\n0\r\n\r\n" == before + CRLF + LAST_CHUNK
  {
    Associate(before, CRLF, LAST_CHUNK);
    assert CRLF + LAST_CHUNK == "\r\n0\r\n\r\n";
  }

  class OMessageWriter {
    var state: StreamState
    var bodyType: BodyType
    const chunked: bool
    const contentSize: nat
    var buffer: string
    var status: Status
    /** Everything handed to WriteData, in order. */
    var sent: string

    constructor (status: Status, chunked: bool, contentSize: nat)
      ensures state == START_LINE && bodyType == UNKNOWN && buffer == "" && sent == ""
      ensures this.status == status && this.chunked == chunked && this.contentSize == contentSize
    {
      state, bodyType, buffer, sent := START_LINE, UNKNOWN, "", "";
      this.status, this.chunked, this.contentSize := status, chunked, contentSize;
    }

    method WriteData(data: string)
      modifies this`sent
      ensures sent == old(sent) + data
    {
      sent := sent + data;
    }

    method WriteStartLine()
      modifies this`sent
      ensures sent == old(sent) + StartLine(status)
    {
      ghost var line := Print(status.code, 10) + " " + status.name;
      WriteData("HTTP/1.1 ");
      WriteData(Print(status.code, 10) + " " + status.name + CRLF);
      assert old(sent) + "HTTP/1.1 " + (line + CRLF) == old(sent) + ("HTTP/1.1 " + line + CRLF);
    }

    method WriteHeader(h: Header) returns (ok: bool)
      modifies this`state, this`sent
      ensures ok <==> old(state) == START_LINE || old(state) == HEADERS
      ensures ok ==> state == HEADERS
      ensures ok ==> sent == old(sent) + (if old(state) == START_LINE then StartLine(status) else "") + HeaderLine(h)
      ensures !ok ==> state == old(state) && sent == old(sent)
    {
      if state == START_LINE {
        WriteStartLine();
        state := HEADERS;
      }
      if state != HEADERS {
        return false;
      }
      ghost var before := sent;
      WriteData(h.name);
      WriteData(": ");
      WriteData(h.value);
      WriteData(CRLF);
      assert before + h.name + ": " + h.value + CRLF == before + HeaderLine(h);
      return true;
    }

    /** What a payload write sends ahead of the data itself. */
    static function HeadBytes(state: StreamState, bodyType: BodyType, status: Status): string {
      (if state == START_LINE then StartLine(status) else "")
      + (if state == BODY || bodyType == BUFFERING then "" else CRLF)
    }

    static function DataBytes(bodyType: BodyType, p: string): string {
      if bodyType == BUFFERING then "" else if bodyType == CHUNKED then Chunk(p) else p
    }

    /** BodyType::From, with a body of no known size buffered. */
    static function BodyTypeFor(contentSize: nat, chunked: bool): BodyType {
      if BodyTypeFrom(contentSize, chunked) == NONE then BUFFERING else BodyTypeFrom(contentSize, chunked)
    }

    /** The part of WritePayloadData that moves the state machine to the body. */
    method EnterBody()
      requires state != FINISHED
      modifies this`state, this`bodyType, this`sent
      ensures state == BODY
      ensures bodyType == (if old(state) == BODY then old(bodyType) else BodyTypeFor(contentSize, chunked))
      ensures sent == old(sent) + HeadBytes(old(state), bodyType, status)
    {
      ghost var before := sent;
      NothingAdded(before);
      if state == START_LINE {
        WriteStartLine();
        Associate(before, StartLine(status), CRLF);
        NothingAdded(StartLine(status));
      }
      if state != BODY {
        NothingAdded(CRLF);
        bodyType := BodyTypeFor(contentSize, chunked);
        state := BODY;
        if bodyType != BUFFERING {
          WriteData(CRLF);
        }
      }
    }

    method WritePayloadData(p: string) returns (ok: bool)
      modifies this`state, this`bodyType, this`buffer, this`sent
      ensures ok <==> old(state) != FINISHED && (old(state) == BODY ==> old(bodyType) !in {UNKNOWN, NONE})
      ensures ok ==> state == BODY
      ensures ok ==> bodyType == (if old(state) == BODY then old(bodyType) else BodyTypeFor(contentSize, chunked))
      ensures ok ==> sent == old(sent) + HeadBytes(old(state), bodyType, status) + DataBytes(bodyType, p)
      ensures ok ==> buffer == old(buffer) + (if bodyType == BUFFERING then p else "")
      ensures !ok ==> state == old(state) && bodyType == old(bodyType) && sent == old(sent) && buffer == old(buffer)
    {
      if state == FINISHED {
        return false;
      }
      EnterBody();
      NothingAdded(sent);
      NothingAdded(buffer);
      match bodyType {
        case BUFFERING =>
          buffer := buffer + p;
        case CHUNKED =>
          Assoc4(sent, Print(|p|, 16) + CRLF, p, CRLF);
          Associate(Print(|p|, 16) + CRLF, p, CRLF);
          WriteData(Print(|p|, 16) + CRLF);
          WriteData(p);
          WriteData(CRLF);
        case KNOWN_SIZE =>
          WriteData(p);
        case _ =>
          return false;
      }
      return true;
    }

    /** Done, as far as the state it is called in allows. */
    method Done() returns (ok: bool)
      modifies this`state, this`sent
      ensures old(state) == BODY && bodyType == BUFFERING ==>
        ok && sent == old(sent) + HeaderLine(ContentLength(|buffer|)) + CRLF + buffer
      ensures old(state) == BODY && bodyType == CHUNKED ==> ok && sent == old(sent) + LAST_CHUNK
      ensures old(state) in {START_LINE, HEADERS} && contentSize == NPOS && !chunked ==>
        ok && sent == old(sent) + (if old(state) == START_LINE then StartLine(status) else "")
                      + HeaderLine(ContentLength(0)) + CRLF
      ensures old(state) in {START_LINE, HEADERS} && chunked ==>
        ok && sent == old(sent) + (if old(state) == START_LINE then StartLine(status) else "") + CRLF + LAST_CHUNK
      ensures old(state) == FINISHED ==> ok && sent == old(sent)
      ensures contentSize != NPOS && !chunked && bodyType in {UNKNOWN, KNOWN_SIZE} && old(state) != FINISHED ==> !ok
      ensures old(state) in {START_LINE, HEADERS} && contentSize != NPOS && !chunked && bodyType == UNKNOWN ==>
        sent == old(sent) + (if old(state) == START_LINE then StartLine(status) else "") + CRLF
      ensures old(state) == BODY && bodyType !in {BUFFERING, CHUNKED} ==>
        sent == old(sent) && (ok <==> bodyType == NONE)
      ensures state == if old(state) == START_LINE || (old(state) == BODY && bodyType == BUFFERING) then HEADERS
                       else old(state)
    {
      hide HeaderLine, StartLine;
      if state == START_LINE {
        WriteStartLine();
        state := HEADERS;
      }
      if state == HEADERS {
        if contentSize == NPOS && !chunked {
          ok := WriteHeader(Header("Content-Length", "0"));
          WriteData(CRLF);
          return;
        } else if chunked {
          EmptyLineAndLastChunk(sent);
          WriteData("\r\n0\r\n\r\n");
          return true;
        }
        WriteData(CRLF);
        if contentSize != 0 {
          return false;
        }
      }
      if state == FINISHED {
        return true;
      }
      match bodyType {
        case CHUNKED =>
          WriteData(LAST_CHUNK);
        case BUFFERING =>
          state := HEADERS;
          ok := WriteHeader(ContentLength(|buffer|));
          WriteData(CRLF);
          WriteData(buffer);
        case NONE =>
        case _ =>
          return false;
      }
      return true;
    }
  }

  function Head(status: Status, hs: seq<Header>): string {
    StartLine(status) + HeaderLines(hs)
  }

  lemma HeadGrows(status: Status, hs: seq<Header>, h: Header)
    ensures Head(status, hs + [h]) == Head(status, hs) + HeaderLine(h)
  {
    HeaderLinesAppend(hs, h);
    Associate(StartLine(status), HeaderLines(hs), HeaderLine(h));
  }

  /** The headers are out; with none of them the start line is still to come. */
  ghost predicate HeadSent(w: OMessageWriter, hs: seq<Header>)
    reads w
  {
    && w.bodyType == UNKNOWN && w.buffer == ""
    && (if hs == [] then w.state == START_LINE && w.sent == ""
        else w.state == HEADERS && w.sent == Head(w.status, hs))
  }

  lemma NoHeaders(status: Status)
    ensures Head(status, []) == StartLine(status)
  {
  }

  method SendHeaders(w: OMessageWriter, hs: seq<Header>)
    requires HeadSent(w, [])
    modifies w
    ensures HeadSent(w, hs) && w.status == old(w.status)
  {
    for i := 0 to |hs|
      invariant HeadSent(w, hs[..i]) && w.status == old(w.status)
    {
      assert hs[..i + 1] == hs[..i] + [hs[i]];
      HeadGrows(w.status, hs[..i], hs[i]);
      NothingAdded(w.sent);
      NothingAdded(StartLine(w.status));
      NoHeaders(w.status);
      var ok := w.WriteHeader(hs[i]);
    }
    assert hs[..|hs|] == hs;
  }

  /** The bytes before the body: what is sent, with the start line if it is still missing. */
  ghost function SoFar(w: OMessageWriter): string
    reads w
  {
    w.sent + (if w.state == START_LINE then StartLine(w.status) else "")
  }

  lemma HeadSentIsHead(w: OMessageWriter, hs: seq<Header>)
    requires HeadSent(w, hs)
    ensures SoFar(w) == Head(w.status, hs)
  {
    NothingAdded(w.sent);
    NothingAdded(StartLine(w.status));
    NoHeaders(w.status);
  }

  /** Header writes, then payload writes, then one Done, on a writer that buffers its body. */
  method RespondBuffered(status: Status, hs: seq<Header>, ps: seq<string>) returns (sent: string)
    ensures sent == SizedMessage(status, hs, Concat(ps))
  {
    var w := new OMessageWriter(status, false, NPOS);
    SendHeaders(w, hs);
    HeadSentIsHead(w, hs);
    for i := 0 to |ps|
      invariant w.status == status && !w.chunked && w.contentSize == NPOS && w.buffer == Concat(ps[..i])
      invariant SoFar(w) == Head(status, hs)
      invariant if i == 0 then w.state != BODY && w.state != FINISHED else w.state == BODY && w.bodyType == BUFFERING
    {
      assert ps[..i + 1] == ps[..i] + [ps[i]];
      ConcatAppend(ps[..i], ps[i]);
      NothingAdded(SoFar(w));
      NothingAdded(w.sent);
      NothingAdded(StartLine(status));
      var ok := w.WritePayloadData(ps[i]);
    }
    assert ps[..|ps|] == ps;
    HeadGrows(status, hs, ContentLength(|w.buffer|));
    NothingAdded(SoFar(w));
    NothingAdded(w.sent);
    var ok := w.Done();
    sent := w.sent;
    NothingAdded(sent);
    HeadGrows(status, hs, ContentLength(|Concat(ps)|));
  }

  /** Payload writes on a writer that knows the size of its body: they are sent as they come, chunks or not. */
  method RespondSized(status: Status, hs: seq<Header>, ps: seq<string>, chunked: bool, size: nat)
    returns (sent: string)
    requires size != NPOS && ps != []
    ensures sent == StartLine(status) + HeaderLines(hs) + CRLF + Concat(ps)
  {
    var w := new OMessageWriter(status, chunked, size);
    SendHeaders(w, hs);
    HeadSentIsHead(w, hs);
    ghost var start := Head(status, hs) + CRLF;
    for i := 0 to |ps|
      invariant w.status == status && w.contentSize == size && w.chunked == chunked
      invariant if i == 0 then w.state != BODY && w.state != FINISHED && SoFar(w) == Head(status, hs)
                else w.state == BODY && w.bodyType == KNOWN_SIZE && w.sent == start + Concat(ps[..i])
    {
      assert ps[..i + 1] == ps[..i] + [ps[i]];
      ConcatAppend(ps[..i], ps[i]);
      Associate(start, Concat(ps[..i]), ps[i]);
      NothingAdded(w.sent);
      NothingAdded(ps[i]);
      NothingAdded(CRLF);
      Associate(w.sent, StartLine(status), CRLF);
      var ok := w.WritePayloadData(ps[i]);
    }
    assert ps[..|ps|] == ps;
    sent := w.sent;
  }

  /** The same calls on a writer told to send its body in chunks. */
  method RespondChunked(status: Status, hs: seq<Header>, ps: seq<string>) returns (sent: string)
    ensures sent == ChunkedMessage(status, hs, ps)
  {
    var w := new OMessageWriter(status, true, NPOS);
    SendHeaders(w, hs);
    HeadSentIsHead(w, hs);
    ghost var start := Head(status, hs) + CRLF;
    for i := 0 to |ps|
      invariant w.status == status && w.chunked && w.contentSize == NPOS
      invariant if i == 0 then w.state != BODY && w.state != FINISHED && SoFar(w) == Head(status, hs)
                else w.state == BODY && w.bodyType == CHUNKED && w.sent == start + Chunks(ps[..i])
    {
      assert ps[..i + 1] == ps[..i] + [ps[i]];
      ChunksAppend(ps[..i], ps[i]);
      Associate(start, Chunks(ps[..i]), Chunk(ps[i]));
      NothingAdded(w.sent);
      NothingAdded(Chunk(ps[i]));
      NothingAdded(CRLF);
      Associate(w.sent, StartLine(status), CRLF);
      var ok := w.WritePayloadData(ps[i]);
    }
    assert ps[..|ps|] == ps;
    Associate(start, Chunks(ps), LAST_CHUNK);
    NothingAdded(LAST_CHUNK);
    var ok := w.Done();
    sent := w.sent;
  }
}
