module ChunkedCoding {
  // The chunked transfer coding of RFC 7230, section 4.1: a decoder written from its grammar,
  // and what it makes of the body OMessageWriter sends.

  import opened Wrappers
  import opened Strings
  import opened Numerals
  import opened HttpMessages

  /** The length of the first line, or None when no CRLF ends it. */
  function LineLength(s: string): (r: Option<nat>)
    ensures r.Some? ==> r.value + 2 <= |s| && s[r.value] == '\r' && s[r.value + 1] == '\n'
  {
    if |s| < 2 then None
    else if s[0] == '\r' && s[1] == '\n' then Some(0)
    else
      match LineLength(s[1..])
      case None => None
      case Some(k) => Some(k + 1)
  }

  /** trailer-part CRLF: header lines up to an empty one.  What follows it. */
  function SkipTrailer(s: string): Option<string>
    decreases |s|
  {
    match LineLength(s)
    case None => None
    case Some(k) => if k == 0 then Some(s[2..]) else SkipTrailer(s[k + 2..])
  }

  /** chunk-size [ chunk-ext ]. */
  function ChunkSize(line: string): Option<nat> {
    var k := DigitRun(line, 16);
    if k == 0 || (k < |line| && line[k] != ';') then None
    else
      RunIsDigits(line, 16);
      Some(Value(line[..k], 16))
  }

  /** chunked-body = *chunk last-chunk trailer-part CRLF: the data, and what follows the body. */
  function Decode(s: string): Option<(string, string)>
    decreases |s|
  {
    match LineLength(s)
    case None => None
    case Some(k) =>
      var after := s[k + 2..];
      match ChunkSize(s[..k])
      case None => None
      case Some(size) =>
        if size == 0 then
          match SkipTrailer(after)
          case None => None
          case Some(rest) => Some(("", rest))
        else if |after| < size + 2 || after[size..size + 2] != CRLF then None
        else
          match Decode(after[size + 2..])
          case None => None
          case Some(r) => Some((after[..size] + r.0, r.1))
  }

  lemma {:induction false} LineLengthIs(line: string, rest: string)
    requires '\r' !in line
    ensures LineLength(line + CRLF + rest) == Some(|line|)
  {
    var s := line + CRLF + rest;
    if line != "" {
      LineLengthIs(line[1..], rest);
      assert s[1..] == line[1..] + CRLF + rest;
      assert s[0] == line[0];
    } else {
      assert s == CRLF + rest;
    }
  }

  lemma DigitLineParses(s: string)
    requires AllDigits(s, 16) && s != ""
    ensures ChunkSize(s) == Some(Value(s, 16))
  {
    DigitRunIs(s, "", 16);
    NothingAdded(s);
    assert s[..|s|] == s;
  }

  lemma HexLineParses(n: nat)
    ensures '\r' !in Print(n, 16) && ChunkSize(Print(n, 16)) == Some(n)
  {
    PrintRoundTrip(n, 16);
    DigitLineParses(Print(n, 16));
  }

  lemma SplitFirstLine(line: string, rest: string)
    requires '\r' !in line
    ensures var s := line + CRLF + rest;
      LineLength(s) == Some(|line|) && s[..|line|] == line && s[|line| + 2..] == rest
  {
    LineLengthIs(line, rest);
  }

  lemma ChunkDecodes(p: string, rest: string)
    requires p != ""
    ensures Decode(Chunk(p) + rest) ==
      match Decode(rest) case None => None case Some(r) => Some((p + r.0, r.1))
  {
    var line, after := Print(|p|, 16), p + CRLF + rest;
    HexLineParses(|p|);
    SplitFirstLine(line, after);
    ChunkSplits(p, rest);
    assert after[..|p|] == p && after[|p|..|p| + 2] == CRLF && after[|p| + 2..] == rest;
  }

  lemma ChunkSplits(p: string, rest: string)
    ensures Chunk(p) + rest == Print(|p|, 16) + CRLF + (p + CRLF + rest)
  {
    Associate(Print(|p|, 16) + CRLF, p + CRLF, rest);
  }

  /** A chunk of no data reads as the last chunk. */
  lemma EmptyChunkEndsBody(rest: string)
    ensures Chunk("") == LAST_CHUNK && Decode(LAST_CHUNK + rest) == Some(("", rest))
  {
    HexLineParses(0);
    var after := CRLF + rest;
    SplitFirstLine("0", after);
    assert LAST_CHUNK + rest == "0" + CRLF + after;
    assert LineLength(after) == Some(0) && after[2..] == rest;
  }

  lemma {:induction false} NonemptyChunksDecode(ps: seq<string>, rest: string)
    requires "" !in ps
    ensures Decode(Chunks(ps) + (LAST_CHUNK + rest)) == Some((Concat(ps), rest))
  {
    if ps == [] {
      EmptyChunkEndsBody(rest);
      NothingAdded(LAST_CHUNK + rest);
    } else {
      NonemptyChunksDecode(ps[1..], rest);
      ChunkDecodes(ps[0], Chunks(ps[1..]) + (LAST_CHUNK + rest));
      Associate(Chunk(ps[0]), Chunks(ps[1..]), LAST_CHUNK + rest);
    }
  }

  /** The payloads before the first empty one, and those after it. */
  lemma {:induction false} SplitAtEmpty(ps: seq<string>) returns (before: seq<string>, after: seq<string>)
    requires "" in ps
    ensures ps == before + [""] + after && "" !in before
    ensures Chunks(ps) == Chunks(before) + (LAST_CHUNK + Chunks(after))
  {
    EmptyChunkEndsBody("");
    if ps[0] == "" {
      before, after := [], ps[1..];
      NothingAdded(LAST_CHUNK + Chunks(after));
    } else {
      before, after := SplitAtEmpty(ps[1..]);
      Associate(Chunk(ps[0]), Chunks(before), LAST_CHUNK + Chunks(after));
      before := [ps[0]] + before;
    }
  }

  /**
   The body decodes to the payloads with nothing left over exactly when no payload write was
   empty; an empty write ends the body early.
   */
  lemma ChunkedBodyDecodes(ps: seq<string>)
    ensures Decode(Chunks(ps) + LAST_CHUNK) == Some((Concat(ps), "")) <==> "" !in ps
  {
    if "" !in ps {
      NonemptyChunksDecode(ps, "");
      NothingAdded(LAST_CHUNK);
    } else {
      var before, after := SplitAtEmpty(ps);
      var rest := Chunks(after) + LAST_CHUNK;
      NonemptyChunksDecode(before, rest);
      Associate(Chunks(before), LAST_CHUNK + Chunks(after), LAST_CHUNK);
      Associate(LAST_CHUNK, Chunks(after), LAST_CHUNK);
      assert rest != "";
    }
  }

  /** Every chunked message the writer sends, zero payload writes included. */
  lemma ChunkedMessageDecodes(status: Status, hs: seq<Header>, ps: seq<string>)
    requires "" !in ps
    ensures var head := StartLine(status) + HeaderLines(hs) + CRLF;
      var m := ChunkedMessage(status, hs, ps);
      head <= m && Decode(m[|head|..]) == Some((Concat(ps), ""))
  {
    ChunkedBodyDecodes(ps);
    var head := StartLine(status) + HeaderLines(hs) + CRLF;
    assert ChunkedMessage(status, hs, ps)[|head|..] == Chunks(ps) + LAST_CHUNK;
  }
}
