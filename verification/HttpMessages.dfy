/** The entities of an HTTP message and its bytes on the wire (RFC 7230, sections 3 and 4.1). */
module HttpMessages {
  import opened Numerals

  datatype Header = Header(name: string, value: string)

  datatype Status = Status(code: nat, name: string)

  datatype StreamState = START_LINE | HEADERS | BODY | FINISHED

  datatype BodyType = UNKNOWN | NONE | BUFFERING | KNOWN_SIZE | CHUNKED

  /** (size_t)-1, the content length of a message that does not say. */
  const NPOS: nat := 0xFFFF_FFFF_FFFF_FFFF

  const CRLF := "\r\n"

  function BodyTypeFrom(length: nat, chunked: bool): BodyType {
    if length != NPOS then KNOWN_SIZE else if chunked then CHUNKED else NONE
  }

  function StartLine(status: Status): string {
    "HTTP/1.1 " + (Print(status.code, 10) + " " + status.name) + CRLF
  }

  function HeaderLine(h: Header): string {
    h.name + ": " + h.value + CRLF
  }

  function HeaderLines(hs: seq<Header>): string {
    if hs == [] then "" else HeaderLine(hs[0]) + HeaderLines(hs[1..])
  }

  function ContentLength(size: nat): Header {
    Header("Content-Length", Print(size, 10))
  }

  /** A message whose body is sent whole after its length. */
  function SizedMessage(status: Status, hs: seq<Header>, body: string): string {
    StartLine(status) + HeaderLines(hs + [ContentLength(|body|)]) + CRLF + body
  }

  function Concat(ps: seq<string>): string {
    if ps == [] then "" else ps[0] + Concat(ps[1..])
  }

  function Chunk(p: string): string {
    Print(|p|, 16) + CRLF + (p + CRLF)
  }

  function Chunks(ps: seq<string>): string {
    if ps == [] then "" else Chunk(ps[0]) + Chunks(ps[1..])
  }

  const LAST_CHUNK := "0\r\n\r\n"

  function ChunkedMessage(status: Status, hs: seq<Header>, ps: seq<string>): string {
    StartLine(status) + HeaderLines(hs) + CRLF + (Chunks(ps) + LAST_CHUNK)
  }

  lemma {:induction false} HeaderLinesAppend(hs: seq<Header>, h: Header)
    ensures HeaderLines(hs + [h]) == HeaderLines(hs) + HeaderLine(h)
  {
    if hs != [] {
      HeaderLinesAppend(hs[1..], h);
      assert (hs + [h])[1..] == hs[1..] + [h];
    } else {
      assert hs + [h] == [h];
      assert HeaderLines([h]) == HeaderLine(h) + "";
    }
  }

  lemma {:induction false} ConcatAppend(ps: seq<string>, p: string)
    ensures Concat(ps + [p]) == Concat(ps) + p
  {
    if ps != [] {
      ConcatAppend(ps[1..], p);
      assert (ps + [p])[1..] == ps[1..] + [p];
    } else {
      assert ps + [p] == [p];
      assert Concat([p]) == p + "";
    }
  }

  lemma {:induction false} ChunksAppend(ps: seq<string>, p: string)
    ensures Chunks(ps + [p]) == Chunks(ps) + Chunk(p)
  {
    if ps != [] {
      ChunksAppend(ps[1..], p);
      assert (ps + [p])[1..] == ps[1..] + [p];
    } else {
      assert ps + [p] == [p];
      assert Chunks([p]) == Chunk(p) + "";
    }
  }

  lemma Assoc4(a: string, b: string, c: string, d: string)
    ensures a + b + c + d == a + (b + c + d)
    ensures a + b + c + d == a + b + (c + d)
  {
  }

  lemma NothingAdded(a: string)
    ensures a + "" == a && "" + a == a
  {
  }
}
