/**
 The reader as the class of the source: its loops over the data and its fields, each method
 proved to do what HttpReader says of the reader's state.
 */
module HttpMethods {
  import opened Wrappers
  import opened Strings
  import opened Numerals
  import opened HttpMessages
  import opened HttpReader

  /** The run of characters of the class p from start on. */
  method SkipWhile(data: string, start: nat, p: char -> bool) returns (end: nat)
    requires start <= |data|
    ensures end == Skip(data, start, p)
  {
    end := start;
    while end < |data| && p(data[end])
      invariant start <= end <= |data|
      invariant forall k :: start <= k < end ==> p(data[k])
    {
      end := end + 1;
    }
    SkipIs(data, start, end, p);
  }

  method ReadHeaderName(data: string) returns (name: string, next: nat)
    ensures name == data[..NameEnd(data)] && next == ValueStart(data)
  {
    var br := SkipWhile(data, 0, InName);
    name := data[..br];
    br := SkipWhile(data, br, NotColon);
    br := SkipWhile(data, br, IsColon);
    next := SkipWhile(data, br, IsBlank);
  }

  method ReadHeaderValue(data: string, start: nat) returns (value: string)
    requires start <= |data|
    ensures value == data[start..Skip(data, start, NotEol)]
  {
    var br := SkipWhile(data, start, NotEol);
    value := data[start..br];
  }

  method PopSpaces(s: string) returns (trimmed: string)
    ensures trimmed == TrimEnd(s)
  {
    trimmed := s;
    while trimmed != "" && IsSpace(trimmed[|trimmed| - 1])
      invariant TrimEnd(trimmed) == TrimEnd(s)
      decreases |trimmed|
    {
      trimmed := trimmed[..|trimmed| - 1];
    }
  }

  class IMessage {
    var state: StreamState
    var bodyType: BodyType
    var mode: BufferMode
    var buffer: string
    var expected: nat
    var status: Status
    var headers: map<string, string>
    var body: string

    function Abs(): Reader
      reads this
    {
      Reader(state, bodyType, mode, buffer, expected, status, headers, body)
    }

    constructor ()
      ensures Abs() == FRESH
    {
      state, bodyType, mode, buffer, expected := START_LINE, UNKNOWN, NEWLINE, "", NPOS;
      status, headers, body := Status(200, "OK"), map[], "";
    }

    /** Response::SetStartline. */
    method SetStartline(startline: string) returns (ok: bool)
      modifies this`status
      ensures match HttpReader.SetStartline(startline)
        case Ok(s) => ok && status == s
        case Fault => !ok && status == old(status)
    {
      hide Strtol, TrimEnd, Skip;
      var pos := SkipWhile(startline, 0, NotSpace);
      var str := if pos < |startline| then startline[pos + 1..] else startline;
      var code, pos2 := Strtol(str).0, Strtol(str).1;
      if pos2 == |str| {
        return false;
      }
      var statusString := PopSpaces(str[pos2 + 1..]);
      if statusString == "" {
        return false;
      }
      status := Status(code % 0x1_0000, statusString);
      return true;
    }

    /** HeaderCollection::Add. */
    method AddHeader(name: string, value: string)
      modifies this`headers
      ensures headers == Add(old(headers), Header(name, value))
    {
      var current := if name in headers then headers[name] else "";
      if |current| > 0 {
        current := current + ", ";
      }
      headers := headers[name := current + value];
    }

    method OnHeaderLine(data: string)
      modifies this`headers
      ensures headers == Add(old(headers), ParseHeader(data))
    {
      var name, next := ReadHeaderName(data);
      var value := ReadHeaderValue(data, next);
      AddHeader(CString(name), CString(value));
    }

    method OnBlankLine()
      requires state == HEADERS
      modifies this`state, this`bodyType, this`mode, this`expected
      ensures Abs() == EndHeaders(old(Abs()))
    {
      var length := LengthOf(headers);
      bodyType := BodyTypeFrom(length, IsChunked(headers));
      state := if length == 0 then FINISHED else BODY;
      mode := if IsChunked(headers) then NEWLINE else WHOLE;
      expected := length;
    }

    method OnBodyData(data: string) returns (ok: bool)
      requires state == BODY && data != ""
      modifies this`state, this`mode, this`expected, this`body
      ensures match OnBody(old(Abs()), data)
        case Ok(r) => ok && Abs() == r
        case Fault => !ok
    {
      match bodyType {
        case CHUNKED =>
          return false;
        case KNOWN_SIZE =>
          mode := WHOLE;
          body := body + data;
          if |data| <= expected {
            expected := expected - |data|;
          } else {
            expected := 0;
          }
          if expected == 0 {
            state := FINISHED;
          }
        case NONE =>
        case _ =>
          body := body + data;
      }
      return true;
    }

    /** The result is the one of the source, whether the message is finished. */
    method OnBufferedData(data: string) returns (done: bool, ok: bool)
      requires data != ""
      modifies this
      ensures Did(old(Abs()), data, Abs(), done, ok)
    {
      ok := true;
      match state {
        case START_LINE =>
          ok := SetStartline(CString(data));
          state := HEADERS;
        case HEADERS =>
          if IsEol(data[0]) {
            OnBlankLine();
          } else {
            OnHeaderLine(data);
          }
        case BODY =>
          ok := OnBodyData(data);
        case FINISHED =>
          ok := false;
      }
      done := state == FINISHED;
    }

    /** BufferedReader::OnData. */
    method OnData(data: string) returns (done: bool, ok: bool)
      modifies this
      ensures Outcome(old(Abs()), data, Abs(), done, ok)
    {
      hide Leads, Settles, Outcome;
      var pos := 0;
      ghost var start := Abs();
      done, ok := false, true;
      StartsWith(start, data);
      while pos < |data|
        invariant pos <= |data| && ok && !done
        invariant Leads(start, data, Abs(), data[pos..])
        invariant start.state != FINISHED ==> state != FINISHED
        decreases |data| - pos
      {
        var rest := data[pos..];
        ghost var before := Abs();
        if mode == WHOLE {
          done, ok := OnBufferedData(rest);
          WholeOutcome(start, data, before, rest, Abs(), done, ok);
          return;
        }
        var newLine := LineEnd(rest);
        if newLine == None {
          buffer := buffer + rest;
          WaitOutcome(start, data, before, rest, Abs());
          return;
        }
        var line := buffer + rest[..newLine.value];
        expected, buffer, pos := |line|, "", pos + newLine.value;
        assert rest[newLine.value..] == data[pos..];
        done, ok := OnBufferedData(line);
        LineOutcome(start, data, before, rest, newLine.value, Abs(), done, ok);
        if done || !ok {
          return;
        }
      }
      assert data[pos..] == "";
      EndOutcome(start, data, Abs());
    }
  }

  /** What the two results and the new state of OnData(data) say. */
  ghost predicate Outcome(r: Reader, data: string, q: Reader, done: bool, ok: bool) {
    match Feed(r, data)
    case Ok(next) => ok && q == next && (r.state != FINISHED ==> done == (next.state == FINISHED))
    case Fault => !ok
  }

  ghost predicate Did(r: Reader, data: string, q: Reader, done: bool, ok: bool)
    requires data != ""
  {
    match HttpReader.OnBufferedData(r, data)
    case Ok(next) => ok && q == next && done == (next.state == FINISHED)
    case Fault => !ok
  }

  lemma StartsWith(r: Reader, data: string)
    ensures Leads(r, data, r, data[0..])
  {
    assert data[0..] == data;
  }

  lemma WholeOutcome(start: Reader, data: string, r: Reader, rest: string, q: Reader, done: bool, ok: bool)
    requires Leads(start, data, r, rest) && rest != "" && r.mode == WHOLE && Did(r, rest, q, done, ok)
    ensures Outcome(start, data, q, done, ok)
  {
  }

  lemma WaitOutcome(start: Reader, data: string, r: Reader, rest: string, q: Reader)
    requires Leads(start, data, r, rest) && rest != "" && r.mode == NEWLINE && LineEnd(rest) == None
    requires q == r.(buffer := r.buffer + rest) && (start.state != FINISHED ==> r.state != FINISHED)
    ensures Outcome(start, data, q, false, true)
  {
  }

  lemma LineOutcome(start: Reader, data: string, r: Reader, rest: string, k: nat, q: Reader, done: bool, ok: bool)
    requires Leads(start, data, r, rest) && rest != "" && r.mode == NEWLINE && LineEnd(rest) == Some(k)
    requires var line := r.buffer + rest[..k]; Did(r.(buffer := "", expected := |line|), line, q, done, ok)
    ensures if done || !ok then Outcome(start, data, q, done, ok) else Leads(start, data, q, rest[k..])
  {
    assert ReadLine(r, r.buffer + rest[..k]).Ok? <==> ok;
  }

  lemma EndOutcome(start: Reader, data: string, q: Reader)
    requires Leads(start, data, q, "") && (start.state != FINISHED ==> q.state != FINISHED)
    ensures Outcome(start, data, q, false, true)
  {
  }

  /** Reading a message fragment by fragment. */
  method ReadFragments(fs: seq<string>) returns (m: IMessage, ok: bool)
    ensures fresh(m)
    ensures match FeedAll(FRESH, fs)
      case Ok(r) => ok && m.Abs() == r
      case Fault => !ok
  {
    m := new IMessage();
    var done, i := false, 0;
    ok := true;
    while i < |fs| && !done
      invariant i <= |fs| && ok && fresh(m)
      invariant FeedAll(FRESH, fs) == FeedAll(m.Abs(), fs[i..])
      invariant done <==> m.state == FINISHED
    {
      done, ok := m.OnData(fs[i]);
      if !ok {
        return;
      }
      assert fs[i..][1..] == fs[i + 1..];
      i := i + 1;
    }
  }
}
