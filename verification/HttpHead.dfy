/**
 The head of a message as the reader takes it in: every line undoes what the writer printed,
 and however the bytes are cut into fragments, reading either gets through the whole head or
 stops at the first line end that a fragment splits.
 */
module HttpHead {
  import opened Wrappers
  import opened Strings
  import opened Numerals
  import opened HttpMessages
  import opened HttpReader

  predicate LegalStatus(s: Status) {
    && s.code < 0x1_0000 && s.name != "" && !IsSpace(s.name[|s.name| - 1])
    && forall k :: 0 <= k < |s.name| ==> InLine(s.name[k])
  }

  predicate LegalHeader(h: Header) {
    && (forall k :: 0 <= k < |h.name| ==> InName(h.name[k]) && NotNul(h.name[k]))
    && (forall k :: 0 <= k < |h.value| ==> InLine(h.value[k]))
    && (h.value != "" ==> !IsBlank(h.value[0]))
  }

  /** A header the user may add to a sized message. */
  predicate LegalUserHeader(h: Header) {
    LegalHeader(h) && h.name != "Content-Length" && h.name != "Transfer-Encoding"
  }

  predicate IsLine(s: string) {
    s != "" && forall k :: 0 <= k < |s| ==> InLine(s[k])
  }

  function StatusText(s: Status): string {
    StatusLine(Print(s.code, 10), s.name)
  }

  function HeaderText(h: Header): string {
    h.name + ": " + h.value
  }

  // ---- parsing one line ----

  lemma {:induction false} TrimEndIs(s: string, t: string)
    requires s != "" && !IsSpace(s[|s| - 1])
    requires forall k :: 0 <= k < |t| ==> IsSpace(t[k])
    ensures TrimEnd(s + t) == s
  {
    if t == "" {
      assert s + t == s;
    } else {
      TrimEndIs(s, t[..|t| - 1]);
      assert (s + t)[..|s + t| - 1] == s + t[..|t| - 1];
    }
  }

  lemma DigitsAreInLine(s: string)
    requires AllDigits(s, 10)
    ensures forall k :: 0 <= k < |s| ==> InLine(s[k]) && !IsSpace(s[k]) && s[k] != '-' && s[k] != '+'
  {
  }

  lemma MagnitudeIs(n: nat, rest: string)
    requires rest != "" ==> !IsDigit(rest[0], 10)
    ensures var s := Print(n, 10) + rest;
      DigitsStart(s) == 0 && Magnitude(s) == n && DigitRun(s, 10) == |Print(n, 10)|
  {
    var digits := Print(n, 10);
    var s := digits + rest;
    PrintRoundTrip(n, 10);
    DigitsAreInLine(digits);
    assert s[0] == digits[0];
    SkipIs(s, 0, 0, IsSpace);
    DigitRunIs(digits, rest, 10);
    assert s[0..] == s && s[..|digits|] == digits;
  }

  lemma StrtolIs(n: nat, rest: string)
    requires n < 0x1_0000 && (rest != "" ==> !IsDigit(rest[0], 10))
    ensures Strtol(Print(n, 10) + rest) == (n, |Print(n, 10)|)
  {
    var s := Print(n, 10) + rest;
    MagnitudeIs(n, rest);
    assert s[0..] == s;
  }

  lemma ExtractSizeIs(n: nat)
    requires n < NPOS
    ensures ExtractSize(Print(n, 10)) == n
  {
    NothingAdded(Print(n, 10));
    MagnitudeIs(n, "");
  }

  /** A line of the head with its end, or with as much of it as a fragment has brought. */
  predicate IsEnd(eol: string) {
    eol == "\r" || eol == CRLF
  }

  lemma AfterVersion(t: string)
    requires forall k :: 0 <= k < |t| ==> NotNul(t[k])
    ensures var line := "HTTP/1.1 " + t; CString(line) == line && Skip(line, 0, NotSpace) == 8 && line[9..] == t
  {
    var line := "HTTP/1.1 " + t;
    CStringIs(line);
    SkipIs(line, 0, 8, NotSpace);
  }

  lemma AfterCode(digits: string, name: string, eol: string)
    ensures StatusLine(digits, name) + eol == "HTTP/1.1 " + (digits + (" " + name + eol))
    ensures (digits + (" " + name + eol))[|digits| + 1..] == name + eol
  {
  }

  function StatusLine(digits: string, name: string): string {
    "HTTP/1.1 " + (digits + " " + name)
  }

  lemma NoNul(digits: string, name: string, eol: string)
    requires AllDigits(digits, 10) && IsEnd(eol) && (forall k :: 0 <= k < |name| ==> InLine(name[k]))
    ensures var t := digits + (" " + name + eol); forall k :: 0 <= k < |t| ==> NotNul(t[k])
  {
    DigitsAreInLine(digits);
  }

  lemma ReadStatusIs(str: string, n: nat, end: nat, name: string)
    requires n < 0x1_0000 && name != ""
    requires Strtol(str) == (n, end) && end < |str| && TrimEnd(str[end + 1..]) == name
    ensures ReadStatus(str) == Ok(Status(n, name))
  {
  }

  lemma StatusReads(s: Status, eol: string)
    requires LegalStatus(s) && IsEnd(eol)
    ensures ReadStatus(Print(s.code, 10) + (" " + s.name + eol)) == Ok(s)
  {
    var digits, rest := Print(s.code, 10), " " + s.name + eol;
    StrtolIs(s.code, rest);
    AfterCode(digits, s.name, eol);
    TrimEndIs(s.name, eol);
    ReadStatusIs(digits + rest, s.code, |digits|, s.name);
  }

  lemma StartLineParses(s: Status, eol: string)
    requires LegalStatus(s) && IsEnd(eol)
    ensures SetStartline(CString(StatusText(s) + eol)) == Ok(s)
  {
    var digits := Print(s.code, 10);
    PrintRoundTrip(s.code, 10);
    AfterCode(digits, s.name, eol);
    NoNul(digits, s.name, eol);
    AfterVersion(digits + (" " + s.name + eol));
    StatusReads(s, eol);
  }

  lemma ValueStartIs(h: Header, eol: string)
    requires LegalHeader(h) && IsEnd(eol)
    ensures var line := HeaderText(h) + eol; NameEnd(line) == |h.name| && ValueStart(line) == |h.name| + 2
  {
    var line := HeaderText(h) + eol;
    var n := |h.name|;
    assert line[n] == ':' && line[n + 1] == ' ';
    assert forall k :: 0 <= k < n ==> line[k] == h.name[k];
    SkipIs(line, 0, n, InName);
    SkipIs(line, n, n, NotColon);
    SkipIs(line, n, n + 1, IsColon);
    assert line[n + 2] == (if h.value != "" then h.value[0] else eol[0]);
    SkipIs(line, n + 1, n + 2, IsBlank);
  }

  lemma HeaderParses(h: Header, eol: string)
    requires LegalHeader(h) && IsEnd(eol)
    ensures ParseHeader(HeaderText(h) + eol) == h
  {
    var line := HeaderText(h) + eol;
    var v := |h.name| + 2;
    ValueStartIs(h, eol);
    assert line[v..] == h.value + eol;
    assert line[v + |h.value|] == eol[0];
    assert forall k :: v <= k < v + |h.value| ==> line[k] == h.value[k - v];
    SkipIs(line, v, v + |h.value|, NotEol);
    assert line[..|h.name|] == h.name && line[v..v + |h.value|] == h.value;
    CStringIs(h.name);
    CStringIs(h.value);
  }

  /** A status that keeps to its line reads back exactly when it is legal. */
  lemma StartLineReadsBackIff(s: Status, eol: string)
    requires IsEnd(eol) && forall k :: 0 <= k < |s.name| ==> InLine(s.name[k])
    ensures SetStartline(CString(StatusText(s) + eol)) == Ok(s) <==> LegalStatus(s)
  {
    if LegalStatus(s) {
      StartLineParses(s, eol);
    }
  }

  lemma CStringHas(s: string)
    ensures forall k :: 0 <= k < |CString(s)| ==> NotNul(CString(s)[k]) && CString(s)[k] == s[k]
  {
    SkipPasses(s, 0, NotNul);
  }

  lemma ParsedName(line: string)
    ensures forall k :: 0 <= k < |ParseHeader(line).name| ==>
      InName(ParseHeader(line).name[k]) && NotNul(ParseHeader(line).name[k])
  {
    var end := NameEnd(line);
    SkipPasses(line, 0, InName);
    CStringHas(line[..end]);
    assert forall k :: 0 <= k < end ==> line[..end][k] == line[k];
  }

  lemma ParsedValue(line: string)
    ensures forall k :: 0 <= k < |ParseHeader(line).value| ==> InLine(ParseHeader(line).value[k])
    ensures ParseHeader(line).value != "" ==> !IsBlank(ParseHeader(line).value[0])
  {
    var start, end := ValueStart(line), ValueEnd(line);
    SkipPasses(line, start, NotEol);
    SkipPasses(line, Skip(line, Skip(line, NameEnd(line), NotColon), IsColon), IsBlank);
    CStringHas(line[start..end]);
    hide ValueStart, ValueEnd;
    assert forall k :: 0 <= k < end - start ==> line[start..end][k] == line[start + k];
  }

  /** A header reads back exactly when it is legal, whatever characters are in it. */
  lemma HeaderReadsBackIff(h: Header, eol: string)
    requires IsEnd(eol)
    ensures ParseHeader(HeaderText(h) + eol) == h <==> LegalHeader(h)
  {
    hide ParseHeader;
    if LegalHeader(h) {
      HeaderParses(h, eol);
    } else {
      ParsedName(HeaderText(h) + eol);
      ParsedValue(HeaderText(h) + eol);
    }
  }

  // ---- the head, line by line ----

  datatype HeadLine = Start(status: Status) | Field(header: Header)

  function Text(l: HeadLine): string {
    match l
    case Start(status) => StatusText(status)
    case Field(header) => HeaderText(header)
  }

  function Lines(ls: seq<HeadLine>): string {
    if ls == [] then "" else Text(ls[0]) + CRLF + Lines(ls[1..])
  }

  predicate LegalLine(state: StreamState, l: HeadLine) {
    match l
    case Start(status) => state == START_LINE && LegalStatus(status)
    case Field(header) => state == HEADERS && LegalHeader(header)
  }

  predicate LegalLines(state: StreamState, ls: seq<HeadLine>)
    decreases ls
  {
    ls != [] ==> LegalLine(state, ls[0]) && LegalLines(HEADERS, ls[1..])
  }

  /** The reader after a line of n characters in all. */
  function AfterLine(r: Reader, l: HeadLine, n: nat): Reader {
    var next := r.(buffer := "", expected := n, state := HEADERS);
    match l
    case Start(status) => next.(status := status)
    case Field(header) => next.(headers := Add(r.headers, header))
  }

  function AfterLines(r: Reader, ls: seq<HeadLine>): Reader
    decreases ls
  {
    if ls == [] then r else AfterLines(AfterLine(r, ls[0], |Text(ls[0])| + 2), ls[1..])
  }

  lemma TextIsLine(state: StreamState, l: HeadLine)
    requires LegalLine(state, l)
    ensures IsLine(Text(l))
  {
    match l
    case Start(status) =>
      PrintRoundTrip(status.code, 10);
      DigitsAreInLine(Print(status.code, 10));
    case Field(header) =>
  }

  lemma StatusIsRead(r: Reader, s: Status, eol: string)
    requires r.state == START_LINE && LegalStatus(s) && IsEnd(eol)
    ensures var line := StatusText(s) + eol; ReadLine(r, line) == Ok(AfterLine(r, Start(s), |line|))
  {
    StartLineParses(s, eol);
  }

  lemma HeaderIsRead(r: Reader, h: Header, eol: string)
    requires r.state == HEADERS && LegalHeader(h) && IsEnd(eol)
    ensures var line := HeaderText(h) + eol; ReadLine(r, line) == Ok(AfterLine(r, Field(h), |line|))
  {
    var line := HeaderText(h) + eol;
    assert line[0] == (HeaderText(h))[0] == (if h.name != "" then h.name[0] else ':');
    HeaderParses(h, eol);
  }

  lemma LineIsRead(r: Reader, l: HeadLine, eol: string, line: string)
    requires LegalLine(r.state, l) && IsEnd(eol) && line == Text(l) + eol
    ensures ReadLine(r, line) == Ok(AfterLine(r, l, |line|))
  {
    if l.Start? {
      StatusIsRead(r, l.status, eol);
    } else {
      HeaderIsRead(r, l.header, eol);
    }
  }

  /** A fragment that ends before the end of the line. */
  lemma CutInLine(b: string, d: string, t: string, line: string, rest: string)
    requires b + (d + t) == line + CRLF + rest && |b| + |d| <= |line|
    ensures b + d <= line && (IsLine(line) ==> forall k :: 0 <= k < |d| ==> InLine(d[k]))
    ensures b + d + t == line + CRLF + rest
  {
    var s := b + (d + t);
    assert s == b + d + t;
    assert forall k :: 0 <= k < |b + d| ==> (b + d)[k] == s[k] == line[k];
    assert forall k :: 0 <= k < |d| ==> d[k] == (b + d)[|b| + k];
  }

  /** A fragment that ends between the two characters of the line's end. */
  lemma CutInEol(b: string, d: string, t: string, line: string, rest: string)
    requires b + (d + t) == line + CRLF + rest && |b| <= |line| && |b| + |d| == |line| + 1
    ensures b <= line && d == line[|b|..] + "\r" && t == "\n" + rest
  {
    var s := line + CRLF + rest;
    assert b == s[..|b|] == line[..|b|];
    assert d == s[|b|..|line| + 1];
    assert t == s[|line| + 1..];
  }

  /** A fragment that holds the end of the line. */
  lemma CutAfterLine(b: string, d: string, t: string, line: string, rest: string)
    requires b + (d + t) == line + CRLF + rest && |b| <= |line| && |b| + |d| >= |line| + 2
    ensures var k := |line| + 2 - |b|;
      b <= line && d == line[|b|..] + CRLF + d[k..] && d[k..] + t == rest
  {
    var s := line + CRLF + rest;
    var k := |line| + 2 - |b|;
    assert b == s[..|b|] == line[..|b|];
    assert d[..k] == s[|b|..|line| + 2] == line[|b|..] + CRLF;
    assert d[k..] + t == (b + (d + t))[|line| + 2..];
  }

  /** The reader waits in the head: the lines ls and then tail are still to come, in part read. */
  ghost predicate Pending(r: Reader, ls: seq<HeadLine>, tail: string, t: string) {
    && r.mode == NEWLINE && (if ls == [] then r.state == HEADERS else r.state == START_LINE || r.state == HEADERS)
    && LegalLines(r.state, ls)
    && |r.buffer| <= (if ls == [] then 0 else |Text(ls[0])|)
    && r.buffer + t == Lines(ls) + tail
  }

  lemma LinesUnfold(ls: seq<HeadLine>, tail: string)
    requires ls != []
    ensures Lines(ls) + tail == Text(ls[0]) + CRLF + (Lines(ls[1..]) + tail)
  {
    Associate(Text(ls[0]) + CRLF, Lines(ls[1..]), tail);
  }

  lemma LeadsNowhere(r: Reader, d: string, next: Reader)
    requires Leads(r, d, next, "")
    ensures Settles(r, d, next)
  {
  }

  /** The rest of a line, with its end or the first half of it, and more. */
  lemma FeedRestOfLine(r: Reader, l: HeadLine, piece: string, eol: string, rest: string)
    requires r.mode == NEWLINE && LegalLine(r.state, l) && IsEnd(eol) && (eol == "\r" ==> rest == "")
    requires r.buffer + piece == Text(l)
    ensures Leads(r, piece + eol + rest, AfterLine(r, l, |Text(l) + eol|), rest)
  {
    TextIsLine(r.state, l);
    Associate(r.buffer, piece, eol);
    assert forall k :: 0 <= k < |piece| ==> piece[k] == (r.buffer + piece)[|r.buffer| + k];
    FeedOneLine(r, piece, eol, rest);
    LineIsRead(r, l, eol, Text(l) + eol);
  }

  /** What is left of a fragment after the first line. */
  function AfterFirst(b: string, d: string, line: string): string
    requires |b| <= |line| && |b| + |d| >= |line| + 2
  {
    d[|line| + 2 - |b|..]
  }

  lemma PendingNext(r: Reader, ls: seq<HeadLine>, tail: string, d: string, t: string)
    requires ls != [] && Pending(r, ls, tail, d + t) && |r.buffer| + |d| >= |Text(ls[0])| + 2
    ensures Pending(AfterLine(r, ls[0], |Text(ls[0])| + 2), ls[1..], tail, AfterFirst(r.buffer, d, Text(ls[0])) + t)
  {
    LinesUnfold(ls, tail);
    CutAfterLine(r.buffer, d, t, Text(ls[0]), Lines(ls[1..]) + tail);
    NothingAdded(AfterFirst(r.buffer, d, Text(ls[0])) + t);
  }

  /** A fragment with the end of the first line in it. */
  lemma FeedFirstLine(r: Reader, ls: seq<HeadLine>, tail: string, d: string, t: string)
    requires ls != [] && Pending(r, ls, tail, d + t) && |r.buffer| + |d| >= |Text(ls[0])| + 2
    ensures Leads(r, d, AfterLine(r, ls[0], |Text(ls[0])| + 2), AfterFirst(r.buffer, d, Text(ls[0])))
  {
    hide Leads, AfterLine, Text, Lines, LegalLine;
    var line := Text(ls[0]);
    var piece, rest := line[|r.buffer|..], AfterFirst(r.buffer, d, line);
    assert d == piece + CRLF + rest && r.buffer + piece == line by {
      LinesUnfold(ls, tail);
      CutAfterLine(r.buffer, d, t, line, Lines(ls[1..]) + tail);
    }
    FeedRestOfLine(r, ls[0], piece, CRLF, rest);
    assert |line + CRLF| == |line| + 2;
  }

  // ---- fragments ----

  /** Of the fragments that end within the first h bytes, none ends in a carriage return. */
  predicate Clean(fs: seq<string>, h: int)
    decreases fs
  {
    fs == [] || |fs[0]| >= h
    || ((fs[0] != "" ==> fs[0][|fs[0]| - 1] != '\r') && Clean(fs[1..], h - |fs[0]|))
  }

  /** A fragment ends after k bytes. */
  predicate EndsAt(fs: seq<string>, k: int)
    decreases fs
  {
    fs != [] && (k == |fs[0]| || EndsAt(fs[1..], k - |fs[0]|))
  }

  lemma {:induction false} EndsWithin(fs: seq<string>, k: int)
    requires EndsAt(fs, k)
    ensures 0 <= k <= |Concat(fs)|
    decreases fs
  {
    if k != |fs[0]| {
      EndsWithin(fs[1..], k - |fs[0]|);
    }
  }

  /** The fragments gs are what is left of fs after n bytes. */
  ghost predicate SameEnds(fs: seq<string>, gs: seq<string>, n: int) {
    forall k: int :: k > 0 ==> (EndsAt(gs, k) <==> EndsAt(fs, k + n))
  }

  lemma EndsAfterFirst(fs: seq<string>)
    requires fs != []
    ensures SameEnds(fs, fs[1..], |fs[0]|)
  {
    forall k: int | k > 0 ensures EndsAt(fs[1..], k) <==> EndsAt(fs, k + |fs[0]|) {
    }
  }

  lemma EndsRefragmented(fs: seq<string>, rest: string)
    requires fs != [] && |rest| <= |fs[0]|
    ensures SameEnds(fs, [rest] + fs[1..], |fs[0]| - |rest|)
  {
    var gs := [rest] + fs[1..];
    assert gs[1..] == fs[1..];
    forall k: int | k > 0 ensures EndsAt(gs, k) <==> EndsAt(fs, k + |fs[0]| - |rest|) {
    }
  }

  /** Reading the fragments fs from r comes to the same as reading left, what is left of them, from next. */
  ghost predicate Reaches(r: Reader, fs: seq<string>, next: Reader, left: seq<string>) {
    && FeedAll(r, fs) == FeedAll(next, left)
    && |Concat(left)| <= |Concat(fs)| && SameEnds(fs, left, |Concat(fs)| - |Concat(left)|)
  }

  lemma SameEndsOn(fs: seq<string>, gs: seq<string>, left: seq<string>, m: nat, n: nat)
    requires SameEnds(fs, gs, m) && SameEnds(gs, left, n)
    ensures SameEnds(fs, left, m + n)
  {
    hide EndsAt;
    forall k: int | k > 0 ensures EndsAt(left, k) <==> EndsAt(fs, k + (m + n)) {
      assert EndsAt(gs, k + n) <==> EndsAt(fs, k + n + m);
    }
  }

  lemma ReachesOn(r: Reader, fs: seq<string>, q: Reader, gs: seq<string>, next: Reader, left: seq<string>)
    requires Reaches(r, fs, q, gs) && Reaches(q, gs, next, left)
    ensures Reaches(r, fs, next, left)
  {
    hide SameEnds, FeedAll, Concat;
    SameEndsOn(fs, gs, left, |Concat(fs)| - |Concat(gs)|, |Concat(gs)| - |Concat(left)|);
  }

  lemma FedInPart(r: Reader, fs: seq<string>, next: Reader, rest: string)
    requires fs != [] && r.state != FINISHED
    requires if next.state == FINISHED then Settles(r, fs[0], next) else Leads(r, fs[0], next, rest)
    ensures FeedAll(r, fs) == FeedAll(next, [rest] + fs[1..])
  {
    assert ([rest] + fs[1..])[1..] == fs[1..];
  }

  /** A fragment read in part is a fragment read and a shorter one to come. */
  lemma Refragment(r: Reader, fs: seq<string>, next: Reader, rest: string)
    requires fs != [] && r.state != FINISHED && |rest| <= |fs[0]|
    requires if next.state == FINISHED then Settles(r, fs[0], next) else Leads(r, fs[0], next, rest)
    ensures Reaches(r, fs, next, [rest] + fs[1..])
  {
    hide SameEnds, FeedAll, Settles, Leads;
    FedInPart(r, fs, next, rest);
    EndsRefragmented(fs, rest);
    ConcatRefragmented(fs, rest);
  }

  lemma ReadWhole(r: Reader, fs: seq<string>, next: Reader)
    requires fs != [] && r.state != FINISHED && Settles(r, fs[0], next)
    ensures Reaches(r, fs, next, fs[1..])
  {
    hide SameEnds;
    EndsAfterFirst(fs);
  }

  /** The fragments gs are fs without its first n bytes, and cut at the same places. */
  ghost predicate SameCuts(fs: seq<string>, gs: seq<string>, n: nat) {
    |Concat(fs)| == |Concat(gs)| + n && forall h: int :: Clean(fs, h) <==> Clean(gs, h - n)
  }

  lemma PartCuts(fs: seq<string>, rest: string, n: nat)
    requires fs != [] && |fs[0]| == n + |rest| && n > 0
    requires rest != "" ==> rest[|rest| - 1] == fs[0][|fs[0]| - 1]
    requires rest == "" ==> fs[0][|fs[0]| - 1] != '\r'
    ensures SameCuts(fs, [rest] + fs[1..], n)
  {
    ConcatRefragmented(fs, rest);
    forall h: int ensures Clean(fs, h) <==> Clean([rest] + fs[1..], h - n) {
    }
  }

  lemma ConcatRefragmented(fs: seq<string>, rest: string)
    requires fs != []
    ensures Concat([rest] + fs[1..]) == rest + Concat(fs[1..])
  {
    assert ([rest] + fs[1..])[1..] == fs[1..];
  }

  /** The reader after the split of the line ends of fs, if any is split. */
  datatype HeadOutcome = HeadOutcome(next: Reader, left: seq<string>, split: bool, line: nat)

  /** How far into the stream the outcome is. */
  ghost function Consumed(fs: seq<string>, o: HeadOutcome): int {
    |Concat(fs)| - |Concat(o.left)|
  }

  ghost predicate HeadRead(r: Reader, ls: seq<HeadLine>, body: string, fs: seq<string>, o: HeadOutcome) {
    && Reaches(r, fs, o.next, o.left)
    && o.line <= |ls|
    && (!o.split ==> Concat(o.left) == body)
    && (o.split ==> Concat(o.left) == "\n" + (if o.line < |ls| then Lines(ls[o.line + 1..]) + (CRLF + body) else body))
    && (if o.split && o.line < |ls|
        then o.next == AfterLines(r, ls[..o.line + 1]).(expected := o.next.expected)
        else o.next == EndHeaders(AfterLines(r, ls)))
    && (o.split ==> Consumed(fs, o) > 0 && EndsAt(fs, Consumed(fs, o)))
  }

  /** A line end of the first h bytes is split exactly when reading stopped at one. */
  ghost predicate CleanUpTo(fs: seq<string>, o: HeadOutcome, h: int) {
    && (Clean(fs, h) <==> !o.split)
    && (forall e :: e <= h ==> (Clean(fs, e) <==> !o.split || e <= Consumed(fs, o)))
  }

  lemma CleanUpToPast(fs: seq<string>, gs: seq<string>, n: nat, o: HeadOutcome, h: int)
    requires SameCuts(fs, gs, n) && CleanUpTo(gs, o, h - n)
    ensures CleanUpTo(fs, o, h)
  {
    forall e | e <= h ensures Clean(fs, e) <==> !o.split || e <= Consumed(fs, o) {
      assert Clean(fs, e) <==> Clean(gs, e - n);
    }
  }

  function HeadLeft(r: Reader, ls: seq<HeadLine>): int {
    |Lines(ls)| + 2 - |r.buffer|
  }

  /** A fragment that ends before the end of its line is kept. */
  lemma PartStep(r: Reader, ls: seq<HeadLine>, tail: string, d: string, t: string)
    requires ls != [] && Pending(r, ls, tail, d + t) && |r.buffer| + |d| <= |Text(ls[0])|
    ensures var next := r.(buffer := r.buffer + d);
      Settles(r, d, next) && Pending(next, ls, tail, t) && AfterLines(next, ls) == AfterLines(r, ls)
    ensures d != "" ==> d[|d| - 1] != '\r'
  {
    LinesUnfold(ls, tail);
    TextIsLine(r.state, ls[0]);
    CutInLine(r.buffer, d, t, Text(ls[0]), Lines(ls[1..]) + tail);
    FeedPart(r, d);
  }

  /** A fragment that ends between the two characters of the line's end. */
  lemma SplitStep(r: Reader, ls: seq<HeadLine>, tail: string, d: string, t: string)
    requires ls != [] && Pending(r, ls, tail, d + t) && |r.buffer| + |d| == |Text(ls[0])| + 1
    ensures Settles(r, d, AfterLine(r, ls[0], |Text(ls[0])| + 1))
    ensures d[|d| - 1] == '\r' && t == "\n" + (Lines(ls[1..]) + tail)
  {
    hide Settles, Leads, AfterLine, LegalLine, Text, Lines;
    var line := Text(ls[0]);
    var piece := line[|r.buffer|..];
    assert d == piece + "\r" && t == "\n" + (Lines(ls[1..]) + tail) && r.buffer + piece == line by {
      LinesUnfold(ls, tail);
      CutInEol(r.buffer, d, t, line, Lines(ls[1..]) + tail);
    }
    NothingAdded(piece + "\r");
    FeedRestOfLine(r, ls[0], piece, "\r", "");
    assert |line + "\r"| == |line| + 1;
    LeadsNowhere(r, d, AfterLine(r, ls[0], |line| + 1));
  }

  lemma AfterFirstEnds(b: string, d: string, t: string, line: string, rest: string)
    requires |b| <= |line| && |b| + |d| >= |line| + 2 && b + (d + t) == line + CRLF + rest
    ensures var left := AfterFirst(b, d, line);
      if left != "" then left[|left| - 1] == d[|d| - 1] else d[|d| - 1] == '\n'
  {
    CutAfterLine(b, d, t, line, rest);
  }

  /** The empty line, or the first half of its end. */
  lemma BlankStep(r: Reader, eol: string, rest: string)
    requires r.mode == NEWLINE && r.state == HEADERS && r.buffer == ""
    requires 0 < |eol| <= 2 && (forall k :: 0 <= k < |eol| ==> IsEol(eol[k]))
    requires |eol| == 2 || rest == "" || !IsEol(rest[0])
    ensures var next := EndHeaders(r);
      if next.state == FINISHED then Settles(r, eol + rest, next) else Leads(r, eol + rest, next, rest)
  {
    NothingAdded(eol);
    FeedOneLine(r, "", eol, rest);
    assert ReadLine(r, eol) == Ok(EndHeaders(r));
  }

  lemma SplitIsAtEnd(r: Reader, fs: seq<string>, q: Reader, gs: seq<string>, o: HeadOutcome)
    requires Reaches(r, fs, q, gs) && Consumed(gs, o) > 0 && EndsAt(gs, Consumed(gs, o))
    ensures Consumed(fs, o) > 0 && EndsAt(fs, Consumed(fs, o))
  {
    hide EndsAt, FeedAll, Concat;
    assert EndsAt(gs, Consumed(gs, o));
  }

  /** The outcome from a later reader is the outcome from here. */
  lemma OutcomeFromNext(r: Reader, ls: seq<HeadLine>, body: string, fs: seq<string>,
                        q: Reader, gs: seq<string>, o: HeadOutcome)
    requires HeadRead(q, ls, body, gs, o) && Reaches(r, fs, q, gs)
    requires ls != [] ==> AfterLine(q, ls[0], |Text(ls[0])| + 2) == AfterLine(r, ls[0], |Text(ls[0])| + 2)
    requires ls == [] ==> q == r
    ensures HeadRead(r, ls, body, fs, o)
  {
    hide Reaches, EndHeaders, Lines, AfterLine, Concat, Text;
    ReachesOn(r, fs, q, gs, o.next, o.left);
    if o.split {
      SplitIsAtEnd(r, fs, q, gs, o);
    }
    if o.split && o.line < |ls| {
      assert ls[..o.line + 1][0] == ls[0];
    }
  }

  lemma OutcomePastLine(r: Reader, ls: seq<HeadLine>, body: string, fs: seq<string>,
                        q: Reader, gs: seq<string>, o: HeadOutcome)
    requires ls != [] && q == AfterLine(r, ls[0], |Text(ls[0])| + 2)
    requires HeadRead(q, ls[1..], body, gs, o) && Reaches(r, fs, q, gs)
    ensures HeadRead(r, ls, body, fs, o.(line := o.line + 1))
  {
    hide Reaches, EndHeaders, Lines, AfterLine, Concat, Text;
    ReachesOn(r, fs, q, gs, o.next, o.left);
    if o.split {
      SplitIsAtEnd(r, fs, q, gs, o);
    }
    if o.split && o.line + 1 < |ls| {
      assert ls[..o.line + 2][1..] == ls[1..][..o.line + 1];
      assert ls[1..][o.line + 1..] == ls[o.line + 2..];
    }
  }

  /** The empty line at the end of the head. */
  lemma {:induction false} ReadBlank(r: Reader, body: string, fs: seq<string>) returns (o: HeadOutcome)
    requires Pending(r, [], CRLF + body, Concat(fs))
    ensures HeadRead(r, [], body, fs, o) && CleanUpTo(fs, o, HeadLeft(r, []))
    decreases |fs|
  {
    NothingAdded(Concat(fs));
    NothingAdded(CRLF + body);
    assert fs != [];
    var d, t := fs[0], Concat(fs[1..]);
    NothingAdded(d + t);
    NothingAdded(CRLF);
    var next := EndHeaders(r);
    if d == "" {
      NothingAdded(t);
      o := ReadBlank(r, body, fs[1..]);
      ReadWhole(r, fs, r);
      OutcomeFromNext(r, [], body, fs, r, fs[1..], o);
      CleanUpToPast(fs, fs[1..], 0, o, 2);
    } else if |d| == 1 {
      CutInEol("", d, t, "", body);
      NothingAdded(d);
      BlankStep(r, d, "");
      ReadWhole(r, fs, next);
      o := HeadOutcome(next, fs[1..], true, 0);
    } else {
      var rest := d[2..];
      CutAfterLine("", d, t, "", body);
      BlankStep(r, CRLF, rest);
      Refragment(r, fs, next, rest);
      ConcatRefragmented(fs, rest);
      o := HeadOutcome(next, [rest] + fs[1..], false, 0);
    }
  }

  /** The next place to read from, n bytes on: fewer lines are left there or fewer fragments. */
  ghost predicate StepsTo(r: Reader, ls: seq<HeadLine>, tail: string, fs: seq<string>,
                          q: Reader, ks: seq<HeadLine>, gs: seq<string>, n: nat) {
    && Pending(q, ks, tail, Concat(gs)) && Reaches(r, fs, q, gs) && SameCuts(fs, gs, n)
    && HeadLeft(r, ls) == HeadLeft(q, ks) + n
  }

  lemma PartOutcome(r: Reader, ls: seq<HeadLine>, tail: string, fs: seq<string>) returns (q: Reader)
    requires Pending(r, ls, tail, Concat(fs)) && ls != [] && fs != []
    requires |r.buffer| + |fs[0]| <= |Text(ls[0])|
    ensures StepsTo(r, ls, tail, fs, q, ls, fs[1..], |fs[0]|)
    ensures q == r.(buffer := q.buffer)
  {
    q := r.(buffer := r.buffer + fs[0]);
    PartStep(r, ls, tail, fs[0], Concat(fs[1..]));
    ReadWhole(r, fs, q);
  }

  lemma SplitOutcome(r: Reader, ls: seq<HeadLine>, body: string, fs: seq<string>) returns (o: HeadOutcome)
    requires Pending(r, ls, CRLF + body, Concat(fs)) && ls != [] && fs != []
    requires |r.buffer| + |fs[0]| == |Text(ls[0])| + 1
    ensures HeadRead(r, ls, body, fs, o) && CleanUpTo(fs, o, HeadLeft(r, ls))
  {
    hide Settles, Reaches, AfterLine, LegalLines;
    SplitStep(r, ls, CRLF + body, fs[0], Concat(fs[1..]));
    var next := AfterLine(r, ls[0], |Text(ls[0])| + 1);
    ReadWhole(r, fs, next);
    o := HeadOutcome(next, fs[1..], true, 0);
    AfterOneLine(r, ls, next);
  }

  lemma AfterOneLine(r: Reader, ls: seq<HeadLine>, next: Reader)
    requires ls != [] && next == AfterLine(r, ls[0], |Text(ls[0])| + 1)
    ensures next == AfterLines(r, ls[..1]).(expected := next.expected)
  {
    assert ls[..1] == [ls[0]];
    assert AfterLines(r, [ls[0]]) == AfterLine(r, ls[0], |Text(ls[0])| + 2);
  }

  lemma LineOutcome(r: Reader, ls: seq<HeadLine>, tail: string, fs: seq<string>) returns (gs: seq<string>, n: nat)
    requires Pending(r, ls, tail, Concat(fs)) && ls != [] && fs != []
    requires |r.buffer| + |fs[0]| >= |Text(ls[0])| + 2
    ensures StepsTo(r, ls, tail, fs, AfterLine(r, ls[0], |Text(ls[0])| + 2), ls[1..], gs, n)
  {
    hide Reaches, Leads, Settles, SameCuts, AfterLine, Lines, LegalLine, LegalLines, Text;
    var d, t := fs[0], Concat(fs[1..]);
    LinesUnfold(ls, tail);
    var q, rest := AfterLine(r, ls[0], |Text(ls[0])| + 2), AfterFirst(r.buffer, d, Text(ls[0]));
    gs := [rest] + fs[1..];
    n := |Text(ls[0])| + 2 - |r.buffer|;
    FeedFirstLine(r, ls, tail, d, t);
    PendingNext(r, ls, tail, d, t);
    AfterFirstEnds(r.buffer, d, t, Text(ls[0]), Lines(ls[1..]) + tail);
    Refragment(r, fs, q, rest);
    ConcatRefragmented(fs, rest);
    PartCuts(fs, rest, n);
  }

  /** What the fragments of a message do to the reader in the head, whichever way they are cut. */
  lemma {:induction false} ReadHead(r: Reader, ls: seq<HeadLine>, body: string, fs: seq<string>)
    returns (o: HeadOutcome)
    requires Pending(r, ls, CRLF + body, Concat(fs))
    ensures HeadRead(r, ls, body, fs, o) && CleanUpTo(fs, o, HeadLeft(r, ls))
    decreases |ls|, |fs|
  {
    hide Reaches, SameCuts, LegalLine;
    if ls == [] {
      o := ReadBlank(r, body, fs);
      return;
    }
    var line := |Text(ls[0])|;
    if |r.buffer| + |fs[0]| <= line {
      var q := PartOutcome(r, ls, CRLF + body, fs);
      o := ReadHead(q, ls, body, fs[1..]);
      OutcomeFromNext(r, ls, body, fs, q, fs[1..], o);
      CleanUpToPast(fs, fs[1..], |fs[0]|, o, HeadLeft(r, ls));
    } else if |r.buffer| + |fs[0]| == line + 1 {
      o := SplitOutcome(r, ls, body, fs);
    } else {
      var q := AfterLine(r, ls[0], line + 2);
      var gs, n := LineOutcome(r, ls, CRLF + body, fs);
      o := ReadHead(q, ls[1..], body, gs);
      OutcomePastLine(r, ls, body, fs, q, gs, o);
      CleanUpToPast(fs, gs, n, o, HeadLeft(r, ls));
      o := o.(line := o.line + 1);
    }
  }
}
