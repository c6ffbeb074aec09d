/**
 The incremental response reader (incoming/Message.cc, Response.cc, parsing/Utils.h, Header.cc):
 what one call of OnData does to the reader, as a function of the bytes it is given.
 Fault stands for the exception on unexpected input, for an undefined C++ operation, and for
 the inbound chunked branch, which is not part of this model.
 */
module HttpReader {
  import opened Wrappers
  import opened Strings
  import opened Numerals
  import opened HttpMessages

  /** The buffer modes reached outside the chunked branch. */
  datatype BufferMode = NEWLINE | WHOLE

  datatype Reader = Reader(
    state: StreamState, bodyType: BodyType, mode: BufferMode, buffer: string, expected: nat,
    status: Status, headers: map<string, string>, body: string)

  const FRESH := Reader(START_LINE, UNKNOWN, NEWLINE, "", NPOS, Status(200, "OK"), map[], "")

  predicate IsBlank(c: char) {
    c == ' ' || c == '\t'
  }

  predicate IsEol(c: char) {
    c == '\r' || c == '\n'
  }

  predicate IsColon(c: char) {
    c == ':'
  }

  predicate NotColon(c: char) {
    c != ':'
  }

  predicate NotEol(c: char) {
    !IsEol(c)
  }

  predicate NotNul(c: char) {
    c != '\0'
  }

  predicate NotSpace(c: char) {
    c != ' '
  }

  predicate InName(c: char) {
    !IsSpace(c) && c != ':'
  }

  /** What strpbrk passes over while it looks for the end of a line. */
  predicate InLine(c: char) {
    NotEol(c) && NotNul(c)
  }

  /** The first index from i on whose character is not in the class p. */
  function Skip(s: string, i: nat, p: char -> bool): (j: nat)
    requires i <= |s|
    ensures i <= j <= |s|
    decreases |s| - i
  {
    if i < |s| && p(s[i]) then Skip(s, i + 1, p) else i
  }

  /** s as the C string it is read as. */
  function CString(s: string): string {
    s[..Skip(s, 0, NotNul)]
  }

  const LONG_MAX := 0x7FFF_FFFF_FFFF_FFFF

  function Clamp(v: int): int {
    if v > LONG_MAX then LONG_MAX else if v < -LONG_MAX - 1 then -LONG_MAX - 1 else v
  }

  /** Where the digits of a signed number start: past white space and one sign. */
  function DigitsStart(s: string): (i: nat)
    ensures i <= |s|
  {
    var i := Skip(s, 0, IsSpace);
    if i < |s| && (s[i] == '-' || s[i] == '+') then i + 1 else i
  }

  function Magnitude(s: string): nat {
    var digits := s[DigitsStart(s)..];
    RunIsDigits(digits, 10);
    Value(digits[..DigitRun(digits, 10)], 10)
  }

  predicate IsNegative(s: string) {
    DigitsStart(s) > 0 && s[DigitsStart(s) - 1] == '-'
  }

  /** strtol to base ten: the number and the index it ends at, 0 when there is none. */
  function Strtol(s: string): (r: (int, nat))
    ensures r.1 <= |s|
  {
    var start := DigitsStart(s);
    var n := DigitRun(s[start..], 10);
    if n == 0 then (0, 0) else (Clamp(if IsNegative(s) then 0 - Magnitude(s) else Magnitude(s)), start + n)
  }

  /** Extraction of a size_t from a stream: 0 without digits, the greatest value on overflow. */
  function ExtractSize(s: string): nat {
    if Magnitude(s) > NPOS then NPOS
    else if IsNegative(s) && Magnitude(s) > 0 then NPOS + 1 - Magnitude(s)
    else Magnitude(s)
  }

  /** The code, one character, and the name without the white space at its end. */
  function ReadStatus(s: string): Checked<Status> {
    var (code, end) := Strtol(s);
    if end == |s| then Fault
    else
      var name := TrimEnd(s[end + 1..]);
      if name == "" then Fault else Ok(Status(code % 0x1_0000, name))
  }

  /** Response::SetStartline: undefined when nothing follows the number, or only white space. */
  function SetStartline(line: string): Checked<Status> {
    var pos := Skip(line, 0, NotSpace);
    ReadStatus(if pos < |line| then line[pos + 1..] else line)
  }

  function NameEnd(line: string): (i: nat)
    ensures i <= |line|
  {
    Skip(line, 0, InName)
  }

  function ValueStart(line: string): (i: nat)
    ensures i <= |line|
  {
    Skip(line, Skip(line, Skip(line, NameEnd(line), NotColon), IsColon), IsBlank)
  }

  function ValueEnd(line: string): (i: nat)
    ensures ValueStart(line) <= i <= |line|
  {
    Skip(line, ValueStart(line), NotEol)
  }

  function ParseHeader(line: string): Header {
    Header(CString(line[..NameEnd(line)]), CString(line[ValueStart(line)..ValueEnd(line)]))
  }

  /** HeaderCollection::Add: repeated headers are joined with a comma. */
  function Add(headers: map<string, string>, h: Header): map<string, string> {
    var current := if h.name in headers then headers[h.name] else "";
    headers[h.name := (if current != "" then current + ", " else current) + h.value]
  }

  function AddAll(headers: map<string, string>, hs: seq<Header>): map<string, string>
    decreases hs
  {
    if hs == [] then headers else AddAll(Add(headers, hs[0]), hs[1..])
  }

  function LengthOf(headers: map<string, string>): nat {
    if "Content-Length" in headers then ExtractSize(headers["Content-Length"]) else NPOS
  }

  predicate NotWhite(c: char) {
    !IsSpace(c)
  }

  /** Extraction of a word from a stream. */
  function FirstWord(s: string): string {
    var i := Skip(s, 0, IsSpace);
    s[i..Skip(s, i, NotWhite)]
  }

  predicate IsChunked(headers: map<string, string>) {
    "Transfer-Encoding" in headers && FirstWord(headers["Transfer-Encoding"]) == "chunked"
  }

  /** The empty line after the headers. */
  function EndHeaders(r: Reader): Reader {
    var length := LengthOf(r.headers);
    r.(bodyType := BodyTypeFrom(length, IsChunked(r.headers)),
       state := if length == 0 then FINISHED else BODY,
       mode := if IsChunked(r.headers) then NEWLINE else WHOLE,
       expected := length)
  }

  function OnBody(r: Reader, data: string): Checked<Reader> {
    match r.bodyType
    case CHUNKED => Fault
    case KNOWN_SIZE =>
      var left := if |data| <= r.expected then r.expected - |data| else 0;
      Ok(r.(mode := WHOLE, body := r.body + data, expected := left,
            state := if left == 0 then FINISHED else BODY))
    case NONE => Ok(r)
    case _ => Ok(r.(body := r.body + data))
  }

  /** IMessage::OnBufferedData; it returns true when the new state is FINISHED. */
  function OnBufferedData(r: Reader, data: string): Checked<Reader>
    requires data != ""
  {
    match r.state
    case START_LINE =>
      var status :- SetStartline(CString(data));
      Ok(r.(status := status, state := HEADERS))
    case HEADERS =>
      if IsEol(data[0]) then Ok(EndHeaders(r))
      else Ok(r.(headers := Add(r.headers, ParseHeader(data))))
    case BODY => OnBody(r, data)
    case FINISHED => Fault
  }

  /** Past the first line end, one or two characters of it, or None when there is none. */
  function LineEnd(d: string): (r: Option<nat>)
    ensures r.Some? ==> 0 < r.value <= |d|
  {
    var i := Skip(d, 0, InLine);
    if i == |d| || d[i] == '\0' then None
    else Some(if i + 1 < |d| && IsEol(d[i + 1]) then i + 2 else i + 1)
  }

  /** A whole line, or all the data there is, given to OnBufferedData. */
  function ReadLine(r: Reader, line: string): Checked<Reader>
    requires line != ""
  {
    OnBufferedData(r.(buffer := "", expected := |line|), line)
  }

  /** BufferedReader::OnData. */
  function Feed(r: Reader, d: string): Checked<Reader>
    decreases |d|
  {
    if d == "" then Ok(r)
    else if r.mode == WHOLE then OnBufferedData(r, d)
    else
      match LineEnd(d)
      case None => Ok(r.(buffer := r.buffer + d))
      case Some(k) =>
        var next :- ReadLine(r, r.buffer + d[..k]);
        if next.state == FINISHED then Ok(next) else Feed(next, d[k..])
  }

  /** Fragment after fragment until OnData has returned true. */
  function FeedAll(r: Reader, fs: seq<string>): Checked<Reader>
    decreases fs
  {
    if fs == [] || r.state == FINISHED then Ok(r)
    else
      var next :- Feed(r, fs[0]);
      FeedAll(next, fs[1..])
  }

  /** Reading d from r goes on as reading rest from next. */
  ghost predicate Leads(r: Reader, d: string, next: Reader, rest: string) {
    Feed(r, d) == Feed(next, rest)
  }

  /** Reading d from r ends in next. */
  ghost predicate Settles(r: Reader, d: string, next: Reader) {
    Feed(r, d) == Ok(next)
  }

  lemma {:induction false} SkipIs(s: string, i: nat, j: nat, p: char -> bool)
    requires i <= j <= |s|
    requires forall k :: i <= k < j ==> p(s[k])
    requires j == |s| || !p(s[j])
    ensures Skip(s, i, p) == j
    decreases j - i
  {
    if i < j {
      SkipIs(s, i + 1, j, p);
    }
  }

  lemma {:induction false} SkipPasses(s: string, i: nat, p: char -> bool)
    requires i <= |s|
    ensures var j := Skip(s, i, p); (forall k :: i <= k < j ==> p(s[k])) && (j == |s| || !p(s[j]))
    decreases |s| - i
  {
    if i < |s| && p(s[i]) {
      SkipPasses(s, i + 1, p);
    }
  }

  lemma CStringIs(s: string)
    requires forall k :: 0 <= k < |s| ==> NotNul(s[k])
    ensures CString(s) == s
  {
    SkipIs(s, 0, |s|, NotNul);
  }

  /** One line of the head, its end included in the data. */
  lemma FeedOneLine(r: Reader, piece: string, eol: string, rest: string)
    requires r.mode == NEWLINE
    requires forall k :: 0 <= k < |piece| ==> InLine(piece[k])
    requires 0 < |eol| <= 2 && (forall k :: 0 <= k < |eol| ==> IsEol(eol[k]))
    requires |eol| == 2 || rest == "" || !IsEol(rest[0])
    ensures var next := ReadLine(r, r.buffer + (piece + eol));
      Feed(r, piece + eol + rest) ==
        if next.Fault? || next.value.state == FINISHED then next else Feed(next.value, rest)
  {
    hide ReadLine;
    var d := piece + eol + rest;
    assert d[|piece|] == eol[0];
    SkipIs(d, 0, |piece|, InLine);
    assert |eol| == 2 ==> d[|piece| + 1] == eol[1];
    assert |eol| == 1 && rest != "" ==> d[|piece| + 1] == rest[0];
    assert LineEnd(d) == Some(|piece| + |eol|);
    assert d[..|piece| + |eol|] == piece + eol;
    assert d[|piece| + |eol|..] == rest;
  }

  /** A piece of a line waits for the rest of it. */
  lemma FeedPart(r: Reader, piece: string)
    requires r.mode == NEWLINE
    requires forall k :: 0 <= k < |piece| ==> InLine(piece[k])
    ensures Feed(r, piece) == Ok(r.(buffer := r.buffer + piece))
  {
    SkipIs(piece, 0, |piece|, InLine);
    NothingAdded(r.buffer);
  }
}
