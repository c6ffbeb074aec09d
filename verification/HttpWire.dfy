module HttpWire {
  // The head of a response as RFC 7230, section 3, lays it down: a reader written from its grammar,
  // and what it makes of the bytes OMessageWriter sends.

  import opened Wrappers
  import opened Strings
  import opened Numerals
  import opened HttpMessages
  import opened ChunkedCoding

  datatype ResponseHead = ResponseHead(version: string, status: Status, headers: seq<Header>)

  // ----- the grammar -----

  /** OWS: spaces and tabs. */
  predicate IsOws(c: char) {
    c == ' ' || c == '\t'
  }

  function TrimFront(s: string): string {
    if s != "" && IsOws(s[0]) then TrimFront(s[1..]) else s
  }

  function TrimBack(s: string): string {
    if s != "" && IsOws(s[|s| - 1]) then TrimBack(s[..|s| - 1]) else s
  }

  predicate IsDecimal(c: char) {
    '0' <= c <= '9'
  }

  /** HTTP-version SP status-code SP reason-phrase, where HTTP-version is "HTTP/" DIGIT "." DIGIT. */
  function ReadStatusLine(line: string): Option<(string, Status)> {
    if |line| < 9 || line[..5] != "HTTP/" || !IsDecimal(line[5]) || line[6] != '.' || !IsDecimal(line[7])
       || line[8] != ' ' then None
    else
      var k := DigitRun(line[9..], 10);
      if k == 0 || k == |line| - 9 || line[9 + k] != ' ' then None
      else
        RunIsDigits(line[9..], 10);
        Some((line[..8], Status(Value(line[9..][..k], 10), line[9 + k + 1..])))
  }

  /** The first colon, or the length. */
  function Colon(line: string): (k: nat)
    ensures k <= |line|
  {
    if line == "" || line[0] == ':' then 0 else 1 + Colon(line[1..])
  }

  /** field-name ":" OWS field-value OWS, with no white space in the name. */
  function ReadField(line: string): Option<Header> {
    var k := Colon(line);
    if k == 0 || k == |line| || exists i :: 0 <= i < k && IsOws(line[i]) then None
    else Some(Header(line[..k], TrimBack(TrimFront(line[k + 1..]))))
  }

  /** *( header-field CRLF ) CRLF, and what follows it. */
  function ReadFields(s: string): Option<(seq<Header>, string)>
    decreases |s|
  {
    match LineLength(s)
    case None => None
    case Some(k) =>
      if k == 0 then Some(([], s[2..]))
      else
        match (ReadField(s[..k]), ReadFields(s[k + 2..]))
        case (Some(h), Some(r)) => Some(([h] + r.0, r.1))
        case _ => None
  }

  function ReadHead(s: string): Option<(ResponseHead, string)> {
    match LineLength(s)
    case None => None
    case Some(k) =>
      match (ReadStatusLine(s[..k]), ReadFields(s[k + 2..]))
      case (Some(line), Some(r)) => Some((ResponseHead(line.0, line.1, r.0), r.1))
      case _ => None
  }

  // ----- what may be sent -----

  predicate LegalStatus(s: Status) {
    '\r' !in s.name
  }

  /** A name without white space, colons or line ends; a value without those or white space at its ends. */
  predicate LegalHeader(h: Header) {
    && h.name != "" && (forall i :: 0 <= i < |h.name| ==> !IsOws(h.name[i]) && h.name[i] != ':' && h.name[i] != '\r')
    && '\r' !in h.value && (h.value != "" ==> !IsOws(h.value[0]) && !IsOws(h.value[|h.value| - 1]))
  }

  predicate LegalHeaders(hs: seq<Header>) {
    forall i :: 0 <= i < |hs| ==> LegalHeader(hs[i])
  }

  // ----- reading what is sent -----

  lemma StatusLineReads(s: Status)
    ensures ReadStatusLine("HTTP/1.1 " + (Print(s.code, 10) + " " + s.name)) == Some(("HTTP/1.1", s))
  {
    var digits, tail := Print(s.code, 10), " " + s.name;
    var line := "HTTP/1.1 " + (digits + " " + s.name);
    assert digits + " " + s.name == digits + tail;
    assert line[..8] == "HTTP/1.1" && line[..5] == "HTTP/" && line[9..] == digits + tail;
    assert line[5] == '1' && line[6] == '.' && line[7] == '1' && line[8] == ' ';
    CodeReads(s, digits, tail);
    hide Print, DigitRun, Value;
    assert line[9 + |digits|] == line[9..][|digits|] && line[9 + |digits| + 1..] == line[9..][|digits| + 1..];
  }

  lemma CodeReads(s: Status, digits: string, tail: string)
    requires digits == Print(s.code, 10) && tail == " " + s.name
    ensures DigitRun(digits + tail, 10) == |digits| > 0 && (digits + tail)[..|digits|] == digits
    ensures AllDigits(digits, 10) && Value(digits, 10) == s.code
    ensures (digits + tail)[|digits|] == ' ' && (digits + tail)[|digits| + 1..] == s.name
  {
    PrintRoundTrip(s.code, 10);
    DigitRunIs(digits, tail, 10);
    assert (digits + tail)[|digits| + 1..] == tail[1..];
  }

  lemma {:induction false} ColonIs(name: string, rest: string)
    requires ':' !in name
    ensures Colon(name + (":" + rest)) == |name|
  {
    var line := name + (":" + rest);
    if name != "" {
      assert line[0] == name[0] && line[1..] == name[1..] + (":" + rest);
      ColonIs(name[1..], rest);
    }
  }

  lemma ValueIsTrimmed(value: string)
    requires value != "" ==> !IsOws(value[0]) && !IsOws(value[|value| - 1])
    ensures TrimBack(TrimFront(" " + value)) == value
  {
    assert (" " + value)[1..] == value;
  }

  lemma FieldReads(h: Header)
    requires LegalHeader(h)
    ensures ReadField(h.name + ": " + h.value) == Some(h)
  {
    var line, rest := h.name + ": " + h.value, " " + h.value;
    assert line == h.name + (":" + rest);
    ColonIs(h.name, rest);
    var k := |h.name|;
    assert line[..k] == h.name && line[k + 1..] == rest;
    assert forall i :: 0 <= i < k ==> line[i] == h.name[i];
    ValueIsTrimmed(h.value);
  }

  lemma LineThenRest(line: string, rest: string)
    requires '\r' !in line
    ensures var s := line + CRLF + rest;
      LineLength(s) == Some(|line|) && s[..|line|] == line && s[|line| + 2..] == rest
  {
    SplitFirstLine(line, rest);
  }

  lemma LegalLine(h: Header)
    requires LegalHeader(h)
    ensures '\r' !in h.name + ": " + h.value && h.name + ": " + h.value != ""
  {
    forall c | c in h.name + ": " + h.value ensures c != '\r' {
      assert c in h.name || c in ": " || c in h.value;
    }
  }

  /** One header line in front of others. */
  lemma FieldsStep(h: Header, rest: string)
    requires LegalHeader(h) && ReadFields(rest).Some?
    ensures ReadFields(HeaderLine(h) + rest) == Some(([h] + ReadFields(rest).value.0, ReadFields(rest).value.1))
  {
    LegalLine(h);
    FieldReads(h);
    hide LegalHeader, ReadField;
    LineThenRest(h.name + ": " + h.value, rest);
  }

  lemma {:induction false} FieldsRead(hs: seq<Header>, body: string)
    requires LegalHeaders(hs)
    ensures ReadFields(HeaderLines(hs) + (CRLF + body)) == Some((hs, body))
  {
    hide LegalHeader, HeaderLine;
    if hs == [] {
      LineThenRest("", body);
      assert "" + (CRLF + body) == "" + CRLF + body;
    } else {
      hide ReadFields;
      FieldsRead(hs[1..], body);
      FieldsStep(hs[0], HeaderLines(hs[1..]) + (CRLF + body));
      Associate(HeaderLine(hs[0]), HeaderLines(hs[1..]), CRLF + body);
      assert [hs[0]] + hs[1..] == hs;
    }
  }

  lemma HeadReads(status: Status, hs: seq<Header>, body: string)
    requires LegalStatus(status) && LegalHeaders(hs)
    ensures ReadHead(StartLine(status) + (HeaderLines(hs) + (CRLF + body)))
         == Some((ResponseHead("HTTP/1.1", status, hs), body))
  {
    var line, rest := "HTTP/1.1 " + (Print(status.code, 10) + " " + status.name), HeaderLines(hs) + (CRLF + body);
    StatusLineReads(status);
    StatusLineIsLine(status);
    FieldsRead(hs, body);
    hide ReadStatusLine, ReadFields, HeaderLines, LegalHeaders, LegalStatus;
    LineThenRest(line, rest);
  }

  lemma StatusLineIsLine(status: Status)
    requires LegalStatus(status)
    ensures '\r' !in "HTTP/1.1 " + (Print(status.code, 10) + " " + status.name)
  {
    NumeralIsPlain(status.code);
    forall c | c in "HTTP/1.1 " + (Print(status.code, 10) + " " + status.name) ensures c != '\r' {
      assert c in "HTTP/1.1 " || c in Print(status.code, 10) || c in " " || c in status.name;
    }
  }

  lemma NumeralIsPlain(n: nat)
    ensures forall c :: c in Print(n, 10) ==> c != '\r' && !IsOws(c)
  {
    PrintIsLeast(n, 10);
  }

  /** A sized response is read as its status, its headers and the length of its body, and its body follows. */
  lemma SizedMessageReads(status: Status, hs: seq<Header>, body: string)
    requires LegalStatus(status) && LegalHeaders(hs)
    ensures var r := ReadHead(SizedMessage(status, hs, body));
      && r.Some? && r.value.1 == body && r.value.0.version == "HTTP/1.1" && r.value.0.status == status
      && |r.value.0.headers| == |hs| + 1 && r.value.0.headers[..|hs|] == hs
      && var last := r.value.0.headers[|hs|];
        last.name == "Content-Length" && AllDigits(last.value, 10) && Value(last.value, 10) == |body|
  {
    var all := hs + [ContentLength(|body|)];
    PrintRoundTrip(|body|, 10);
    NumeralIsPlain(|body|);
    HeadReads(status, all, body);
    Associate(StartLine(status) + HeaderLines(all), CRLF, body);
    Associate(StartLine(status), HeaderLines(all), CRLF + body);
  }

  /** A chunked one is read as its status and its headers, and its body decodes to the payloads. */
  lemma ChunkedMessageReads(status: Status, hs: seq<Header>, ps: seq<string>)
    requires LegalStatus(status) && LegalHeaders(hs) && "" !in ps
    ensures var r := ReadHead(ChunkedMessage(status, hs, ps));
      && r.Some? && r.value.0 == ResponseHead("HTTP/1.1", status, hs)
      && Decode(r.value.1) == Some((Concat(ps), ""))
  {
    var body := Chunks(ps) + LAST_CHUNK;
    HeadReads(status, hs, body);
    Associate(StartLine(status) + HeaderLines(hs), CRLF, body);
    Associate(StartLine(status), HeaderLines(hs), CRLF + body);
    NonemptyChunksDecode(ps, "");
    NothingAdded(LAST_CHUNK);
  }
}
