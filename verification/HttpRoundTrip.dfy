module HttpRoundTrip {
  // The reader undoes the writer: a sized message arrives whole in whatever fragments it comes,
  // as long as no fragment ends between the two characters of a line end of the head.

  import opened Wrappers
  import opened Strings
  import opened Numerals
  import opened HttpMessages
  import opened HttpReader
  import opened HttpHead
  import HttpMethods
  import HttpWriter

  /** The reader counts down the bytes of a body of known size. */
  ghost predicate InBody(r: Reader) {
    r.state == BODY && r.mode == WHOLE && r.bodyType == KNOWN_SIZE && r.expected > 0
  }

  /** The end of the first fragment that reaches the n-th byte. */
  function FirstEnd(fs: seq<string>, n: int): (e: nat)
    ensures e <= |Concat(fs)|
    decreases fs
  {
    if fs == [] || n <= 0 then 0 else |fs[0]| + FirstEnd(fs[1..], n - |fs[0]|)
  }

  lemma {:induction false} FirstEndIs(fs: seq<string>, n: int)
    requires 0 < n <= |Concat(fs)|
    ensures n <= FirstEnd(fs, n) && EndsAt(fs, FirstEnd(fs, n))
    ensures forall k: int :: n <= k < FirstEnd(fs, n) ==> !EndsAt(fs, k)
    decreases fs
  {
    var d := fs[0];
    if |d| < n {
      FirstEndIs(fs[1..], n - |d|);
      forall k: int | n <= k < FirstEnd(fs, n) ensures !EndsAt(fs, k) {
        assert !EndsAt(fs[1..], k - |d|);
      }
    } else {
      assert FirstEnd(fs[1..], n - |d|) == 0;
      forall k: int | n <= k < |d| ensures !EndsAt(fs, k) {
        if EndsAt(fs[1..], k - |d|) {
          EndsWithin(fs[1..], k - |d|);
        }
      }
    }
  }

  /** The first end in what is left of fs is the first end in fs. */
  lemma FirstEndLeft(fs: seq<string>, left: seq<string>, p: nat, n: nat)
    requires SameEnds(fs, left, p) && |Concat(fs)| == p + |Concat(left)| && 0 < n <= |Concat(left)|
    ensures FirstEnd(fs, p + n) == p + FirstEnd(left, n)
  {
    hide FirstEnd, EndsAt;
    FirstEndIs(fs, p + n);
    FirstEndIs(left, n);
    var e, l := FirstEnd(fs, p + n), FirstEnd(left, n);
    assert EndsAt(left, l) <==> EndsAt(fs, l + p);
    assert EndsAt(left, e - p) <==> EndsAt(fs, e - p + p);
  }

  lemma {:induction false} ReadBody(r: Reader, fs: seq<string>)
    requires InBody(r) && |Concat(fs)| >= r.expected
    ensures FeedAll(r, fs) ==
      Ok(r.(state := FINISHED, expected := 0, body := r.body + Concat(fs)[..FirstEnd(fs, r.expected)]))
    decreases fs
  {
    var d, t := fs[0], Concat(fs[1..]);
    if d == "" {
      ReadBody(r, fs[1..]);
      NothingAdded(t);
    } else {
      assert OnBufferedData(r, d) == OnBody(r, d);
      var next := OnBody(r, d).value;
      assert Feed(r, d) == Ok(next);
      var e := FirstEnd(fs[1..], r.expected - |d|);
      assert (d + t)[..|d| + e] == d + t[..e];
      Associate(r.body, d, t[..e]);
      if |d| < r.expected {
        ReadBody(next, fs[1..]);
      } else {
        assert e == 0 && t[..0] == "";
        NothingAdded(d);
        NothingAdded(r.body + d);
      }
    }
  }

  /** Without a length the body is never read and the message never ends. */
  lemma {:induction false} NeverFinishes(r: Reader, fs: seq<string>)
    requires r.state == BODY && r.mode == WHOLE && r.bodyType == NONE
    ensures FeedAll(r, fs) == Ok(r)
    decreases fs
  {
    if fs != [] {
      NeverFinishes(r, fs[1..]);
    }
  }

  lemma EndsAtOne(fs: seq<string>)
    requires fs != [] && fs[0] != ""
    ensures EndsAt(fs, 1) <==> |fs[0]| == 1
  {
    if |fs[0]| > 1 && EndsAt(fs[1..], 1 - |fs[0]|) {
      EndsWithin(fs[1..], 1 - |fs[0]|);
    }
  }

  /** The second half of a line end, with a line end's character that follows it in its fragment. */
  function HalfLine(d: string): (n: nat)
    requires d != ""
    ensures 1 <= n <= |d|
  {
    if |d| > 1 && IsEol(d[1]) then 2 else 1
  }

  lemma FeedHalfLine(r: Reader, fs: seq<string>) returns (left: seq<string>)
    requires r.state == HEADERS && r.mode == NEWLINE && r.buffer == ""
    requires fs != [] && fs[0] != "" && fs[0][0] == '\n'
    ensures Reaches(r, fs, EndHeaders(r), left)
    ensures Concat(left) == fs[0][HalfLine(fs[0])..] + Concat(fs[1..])
  {
    hide Reaches, EndHeaders, Settles, Leads;
    var n := HalfLine(fs[0]);
    var eol, rest := fs[0][..n], fs[0][n..];
    assert fs[0] == eol + rest;
    BlankStep(r, eol, rest);
    Refragment(r, fs, EndHeaders(r), rest);
    ConcatRefragmented(fs, rest);
    left := [rest] + fs[1..];
  }

  /** From the second half of a line end on, the reader takes the head to be over. */
  lemma {:induction false} AfterSplit(r: Reader, fs: seq<string>) returns (left: seq<string>)
    requires r.state == HEADERS && r.mode == NEWLINE && r.buffer == ""
    requires Concat(fs) != "" && Concat(fs)[0] == '\n'
    ensures Reaches(r, fs, EndHeaders(r), left)
    ensures var n := |Concat(fs)| - |Concat(left)|;
      && 1 <= n <= 2 && Concat(left) == Concat(fs)[n..]
      && (n == 2 <==> |Concat(fs)| > 1 && IsEol(Concat(fs)[1]) && !EndsAt(fs, 1))
    decreases fs
  {
    hide Reaches, EndHeaders;
    var d, t := fs[0], Concat(fs[1..]);
    if d == "" {
      NothingAdded(t);
      ReadWhole(r, fs, r);
      left := AfterSplit(r, fs[1..]);
      ReachesOn(r, fs, r, fs[1..], EndHeaders(r), left);
    } else {
      assert d[0] == (d + t)[0] && (|d| > 1 ==> d[1] == (d + t)[1]);
      left := FeedHalfLine(r, fs);
      EndsAtOne(fs);
      assert (d + t)[HalfLine(d)..] == d[HalfLine(d)..] + t;
    }
  }

  function Fields(hs: seq<Header>): seq<HeadLine> {
    if hs == [] then [] else [Field(hs[0])] + Fields(hs[1..])
  }

  lemma {:induction false} FieldsLength(hs: seq<Header>)
    ensures |Fields(hs)| == |hs|
    ensures Lines(Fields(hs)) == HeaderLines(hs)
  {
    if hs != [] {
      FieldsLength(hs[1..]);
      assert Fields(hs)[1..] == Fields(hs[1..]);
    }
  }

  lemma {:induction false} FieldsPrefix(hs: seq<Header>, k: nat)
    requires k <= |hs|
    ensures k <= |Fields(hs)| && Fields(hs)[..k] == Fields(hs[..k]) && Fields(hs)[k..] == Fields(hs[k..])
  {
    FieldsLength(hs);
    if k > 0 {
      FieldsPrefix(hs[1..], k - 1);
      assert hs[..k][1..] == hs[1..][..k - 1];
      assert Fields(hs)[1..] == Fields(hs[1..]);
      assert Fields(hs)[..k] == [Field(hs[0])] + Fields(hs[1..])[..k - 1];
    } else {
      assert hs[..0] == [] && hs[0..] == hs;
    }
  }

  lemma {:induction false} FieldsAreLegal(hs: seq<Header>)
    requires forall h :: h in hs ==> LegalHeader(h)
    ensures LegalLines(HEADERS, Fields(hs))
  {
    if hs != [] {
      FieldsAreLegal(hs[1..]);
      assert Fields(hs)[1..] == Fields(hs[1..]);
    }
  }

  lemma {:induction false} AfterFields(r: Reader, hs: seq<Header>)
    requires r.state == HEADERS && r.buffer == ""
    ensures AfterLines(r, Fields(hs)) ==
      r.(headers := AddAll(r.headers, hs), expected := AfterLines(r, Fields(hs)).expected)
    decreases hs
  {
    if hs != [] {
      var next := AfterLine(r, Field(hs[0]), |HeaderText(hs[0])| + 2);
      AfterFields(next, hs[1..]);
      assert Fields(hs)[1..] == Fields(hs[1..]);
    }
  }

  function HeadOf(status: Status, hs: seq<Header>): seq<HeadLine> {
    [Start(status)] + Fields(hs)
  }

  lemma HeadOfIs(status: Status, hs: seq<Header>)
    ensures Lines(HeadOf(status, hs)) == StartLine(status) + HeaderLines(hs)
    ensures |HeadOf(status, hs)| == |hs| + 1
  {
    var ls := HeadOf(status, hs);
    FieldsLength(hs);
    assert ls[1..] == Fields(hs);
    assert Text(ls[0]) + CRLF == StartLine(status);
  }

  lemma AfterHead(status: Status, hs: seq<Header>)
    ensures var r := AfterLines(FRESH, HeadOf(status, hs));
      r == Reader(HEADERS, UNKNOWN, NEWLINE, "", r.expected, status, AddAll(map[], hs), "")
  {
    var ls := HeadOf(status, hs);
    assert ls[1..] == Fields(hs);
    AfterFields(AfterLine(FRESH, ls[0], |Text(ls[0])| + 2), hs);
  }

  lemma {:induction false} OthersKeepHeader(headers: map<string, string>, hs: seq<Header>, name: string)
    requires forall h :: h in hs ==> h.name != name
    ensures name in AddAll(headers, hs) <==> name in headers
    ensures name in headers ==> AddAll(headers, hs)[name] == headers[name]
    decreases hs
  {
    if hs != [] {
      OthersKeepHeader(Add(headers, hs[0]), hs[1..], name);
    }
  }

  lemma {:induction false} AddAllAppend(headers: map<string, string>, hs: seq<Header>, h: Header)
    ensures AddAll(headers, hs + [h]) == Add(AddAll(headers, hs), h)
    decreases hs
  {
    if hs != [] {
      AddAllAppend(Add(headers, hs[0]), hs[1..], h);
      assert (hs + [h])[1..] == hs[1..] + [h];
    } else {
      assert hs + [h] == [h];
    }
  }

  /** The length is the one the writer gave, and the transfer encoding is not set. */
  lemma LengthIsRead(hs: seq<Header>, n: nat)
    requires n < NPOS && forall h :: h in hs ==> LegalUserHeader(h)
    ensures var headers := AddAll(map[], hs + [ContentLength(n)]); LengthOf(headers) == n && !IsChunked(headers)
  {
    AddAllAppend(map[], hs, ContentLength(n));
    OthersKeepHeader(map[], hs, "Content-Length");
    OthersKeepHeader(map[], hs, "Transfer-Encoding");
    NothingAdded(Print(n, 10));
    ExtractSizeIs(n);
  }

  /** The part of the head before the content length. */
  function EarlyHead(status: Status, hs: seq<Header>): string {
    StartLine(status) + HeaderLines(hs)
  }

  /** Everything before the body. */
  function WholeHead(status: Status, hs: seq<Header>, body: string): string {
    StartLine(status) + HeaderLines(hs + [ContentLength(|body|)]) + CRLF
  }

  /** A message the writer can be asked for and the reader can tell apart from its own lines. */
  ghost predicate Sendable(status: Status, hs: seq<Header>, body: string) {
    LegalStatus(status) && |body| < NPOS && forall h :: h in hs ==> LegalUserHeader(h)
  }

  /** The reader is done and has status, headers and body as they were sent. */
  ghost predicate ReadsBack(status: Status, hs: seq<Header>, body: string, r: Checked<Reader>) {
    && r.Ok? && r.value.state == FINISHED
    && r.value.status == status && r.value.body == body
    && r.value.headers == AddAll(map[], hs + [ContentLength(|body|)])
  }

  lemma ContentLengthIsLegal(n: nat)
    ensures LegalHeader(ContentLength(n))
  {
    PrintRoundTrip(n, 10);
    DigitsAreInLine(Print(n, 10));
  }

  /** Where the reader of a whole message stands when it leaves the head. */
  lemma ReadMessageHead(status: Status, hs: seq<Header>, body: string, fs: seq<string>) returns (o: HeadOutcome)
    requires Sendable(status, hs, body) && Concat(fs) == SizedMessage(status, hs, body)
    ensures HeadRead(FRESH, HeadOf(status, hs + [ContentLength(|body|)]), body, fs, o)
    ensures CleanUpTo(fs, o, |WholeHead(status, hs, body)|)
  {
    var all := hs + [ContentLength(|body|)];
    var ls := HeadOf(status, all);
    ContentLengthIsLegal(|body|);
    FieldsAreLegal(all);
    HeadOfIs(status, all);
    assert ls[1..] == Fields(all);
    Associate(Lines(ls), CRLF, body);
    NothingAdded(Concat(fs));
    o := ReadHead(FRESH, ls, body, fs);
  }

  /** Past the head of a message with a body of n bytes. */
  function AtBody(status: Status, headers: map<string, string>, n: nat): Reader {
    Reader(if n == 0 then FINISHED else BODY, KNOWN_SIZE, WHOLE, "", n, status, headers, "")
  }

  /** The bytes taken for a body of n bytes that starts after p: whole fragments until there are enough. */
  function Taken(fs: seq<string>, p: int, n: nat): string {
    if n == 0 || !(0 <= p <= FirstEnd(fs, p + n)) then "" else Concat(fs)[p..FirstEnd(fs, p + n)]
  }

  /** Done, with these bytes for a body. */
  ghost predicate Done(status: Status, hs: seq<Header>, n: nat, taken: string, r: Checked<Reader>) {
    && r.Ok? && r.value.state == FINISHED && r.value.status == status
    && r.value.headers == AddAll(map[], hs + [ContentLength(n)]) && r.value.body == taken
  }

  /** The outcome of reading what is left after p bytes from the place where the body starts. */
  lemma ReadAtBody(status: Status, hs: seq<Header>, n: nat, fs: seq<string>, left: seq<string>, p: nat)
    requires SameEnds(fs, left, p) && p <= |Concat(fs)| && Concat(left) == Concat(fs)[p..] && |Concat(left)| >= n
    ensures Done(status, hs, n, Taken(fs, p, n),
                 FeedAll(AtBody(status, AddAll(map[], hs + [ContentLength(n)]), n), left))
  {
    hide FirstEnd, SameEnds, FeedAll, AddAll, Concat;
    if n > 0 {
      ReadBody(AtBody(status, AddAll(map[], hs + [ContentLength(n)]), n), left);
      FirstEndLeft(fs, left, p, n);
      SliceOfRest(Concat(fs), p, FirstEnd(left, n));
      NothingAdded(Concat(left)[..FirstEnd(left, n)]);
    } else {
      DoneAtOnce(AtBody(status, AddAll(map[], hs + [ContentLength(n)]), n), left);
    }
  }

  lemma SliceOfRest(s: string, p: nat, e: nat)
    requires p + e <= |s|
    ensures s[p..][..e] == s[p..p + e]
  {
  }

  lemma DoneAtOnce(r: Reader, fs: seq<string>)
    requires r.state == FINISHED
    ensures FeedAll(r, fs) == Ok(r)
  {
  }

  lemma HeadEnds(status: Status, hs: seq<Header>, n: nat, r: Reader)
    requires n < NPOS && forall h :: h in hs ==> LegalUserHeader(h)
    requires r == AfterLines(FRESH, HeadOf(status, hs + [ContentLength(n)])).(expected := r.expected)
    ensures EndHeaders(r) == AtBody(status, AddAll(map[], hs + [ContentLength(n)]), n)
    ensures r.state == HEADERS && r.mode == NEWLINE && r.buffer == ""
  {
    AfterHead(status, hs + [ContentLength(n)]);
    LengthIsRead(hs, n);
  }

  lemma WholeHeadIs(status: Status, hs: seq<Header>, body: string)
    ensures WholeHead(status, hs, body) ==
      EarlyHead(status, hs) + (HeaderLine(ContentLength(|body|)) + CRLF)
    ensures |HeaderLine(ContentLength(|body|))| > 2
  {
    HeaderLinesAppend(hs, ContentLength(|body|));
    Associate(StartLine(status), HeaderLines(hs), HeaderLine(ContentLength(|body|)));
    Associate(EarlyHead(status, hs), HeaderLine(ContentLength(|body|)), CRLF);
  }

  lemma LinesAfter(status: Status, hs: seq<Header>, k: nat)
    requires k <= |hs|
    ensures k + 1 <= |HeadOf(status, hs)|
    ensures HeadOf(status, hs)[..k + 1] == HeadOf(status, hs[..k])
    ensures Lines(HeadOf(status, hs)[k + 1..]) == HeaderLines(hs[k..])
  {
    HeadOfIs(status, hs);
    FieldsPrefix(hs, k);
    FieldsLength(hs[k..]);
    assert HeadOf(status, hs)[k + 1..] == Fields(hs)[k..];
  }

  /** The bytes behind a split in the line after k headers. */
  lemma BytesAfterSplit(hs: seq<Header>, cl: Header, k: nat)
    requires k <= |hs|
    ensures (hs + [cl])[..k] == hs[..k]
    ensures |HeaderLines((hs + [cl])[k..])| == |HeaderLines(hs[k..])| + |HeaderLine(cl)|
  {
    assert (hs + [cl])[k..] == hs[k..] + [cl];
    HeaderLinesAppend(hs[k..], cl);
  }

  /** A split in the start line or a user header comes before the content length, and only it does. */
  lemma SplitIsEarly(status: Status, hs: seq<Header>, body: string, fs: seq<string>, o: HeadOutcome)
    requires Concat(fs) == SizedMessage(status, hs, body) && o.split
    requires HeadRead(FRESH, HeadOf(status, hs + [ContentLength(|body|)]), body, fs, o)
    ensures Consumed(fs, o) < |EarlyHead(status, hs)| <==> o.line <= |hs|
  {
    hide Reaches, HeadOf, AfterLines, HeaderLine, EndHeaders;
    var cl := ContentLength(|body|);
    var all := hs + [cl];
    HeadOfIs(status, all);
    WholeHeadIs(status, hs, body);
    if o.line <= |all| {
      LinesAfter(status, all, o.line);
      if o.line <= |hs| {
        BytesAfterSplit(hs, cl, o.line);
      }
    }
  }

  lemma EarlyIsWithin(status: Status, hs: seq<Header>, body: string)
    ensures |EarlyHead(status, hs)| <= |WholeHead(status, hs, body)|
  {
    WholeHeadIs(status, hs, body);
  }

  /** Without the content length the second half of a line end ends the head for good. */
  lemma HeadLost(status: Status, hs: seq<Header>, r: Reader)
    requires forall h :: h in hs ==> LegalUserHeader(h)
    requires r == AfterLines(FRESH, HeadOf(status, hs)).(expected := r.expected)
    ensures r.state == HEADERS && r.mode == NEWLINE && r.buffer == ""
    ensures var q := EndHeaders(r); q.state == BODY && q.mode == WHOLE && q.bodyType == NONE && q.body == ""
  {
    AfterHead(status, hs);
    OthersKeepHeader(map[], hs, "Content-Length");
    OthersKeepHeader(map[], hs, "Transfer-Encoding");
  }

  /**
   A fragment that splits the start line's end or a user header's makes a message that never
   ends: nothing of the body is read, and whatever comes later changes nothing.
   */
  lemma EarlySplitNeverFinishes(status: Status, hs: seq<Header>, body: string, fs: seq<string>)
    requires Sendable(status, hs, body) && Concat(fs) == SizedMessage(status, hs, body)
    requires !Clean(fs, |EarlyHead(status, hs)|)
    ensures var r := FeedAll(FRESH, fs);
      r.Ok? && r.value.state == BODY && r.value.body == "" && forall more :: FeedAll(r.value, more) == r
  {
    hide HeadOf, AfterLines, EndHeaders, LegalUserHeader, EarlyHead, WholeHead, SizedMessage;
    var cl := ContentLength(|body|);
    var o := ReadMessageHead(status, hs, body, fs);
    EarlyIsWithin(status, hs, body);
    SplitIsEarly(status, hs, body, fs, o);
    LinesAfter(status, hs + [cl], o.line);
    BytesAfterSplit(hs, cl, o.line);
    HeadLost(status, hs[..o.line], o.next);
    var left := AfterSplit(o.next, o.left);
    NeverFinishes(EndHeaders(o.next), left);
    forall more ensures FeedAll(EndHeaders(o.next), more) == Ok(EndHeaders(o.next)) {
      NeverFinishes(EndHeaders(o.next), more);
    }
  }

  /** Where the reader takes a head of h bytes to end, when only its last two line ends may be split. */
  function HeadEnd(fs: seq<string>, h: nat): int {
    if Clean(fs, h) then h else if EndsAt(fs, h - 3) && EndsAt(fs, h - 2) then h - 2 else h - 1
  }

  /** Fragments that end in a clean part do not end in a carriage return. */
  lemma {:induction false} CleanEnd(fs: seq<string>, h: int, k: int)
    requires Clean(fs, h) && 0 < k < h && EndsAt(fs, k)
    ensures k <= |Concat(fs)| && Concat(fs)[k - 1] != '\r'
    decreases fs
  {
    EndsWithin(fs, k);
    if k != |fs[0]| {
      EndsWithin(fs[1..], k - |fs[0]|);
      if k > |fs[0]| {
        CleanEnd(fs[1..], h - |fs[0]|, k - |fs[0]|);
      }
    }
  }

  /** The last bytes of the head, and the body. */
  lemma HeadTail(status: Status, hs: seq<Header>, body: string)
    ensures var h := |WholeHead(status, hs, body)|;
      && h >= 4 && |SizedMessage(status, hs, body)| == h + |body|
      && SizedMessage(status, hs, body)[h - 4..] == CRLF + (CRLF + body)
      && SizedMessage(status, hs, body)[h - 3..] == "\n" + (CRLF + body)
      && SizedMessage(status, hs, body)[h - 2..] == CRLF + body
      && SizedMessage(status, hs, body)[h - 1..] == "\n" + body
      && SizedMessage(status, hs, body)[h..] == body
  {
    var cl := ContentLength(|body|);
    var line := cl.name + ": " + cl.value;
    WholeHeadIs(status, hs, body);
    var m, h := SizedMessage(status, hs, body), |WholeHead(status, hs, body)|;
    assert m == WholeHead(status, hs, body) + body;
    assert HeaderLine(cl) == HeaderText(cl) + CRLF;
    assert WholeHead(status, hs, body) == EarlyHead(status, hs) + HeaderText(cl) + CRLF + CRLF;
    assert m[h - 4..] == CRLF + (CRLF + body);
  }

  /** The head ended after p bytes, and left is what of the fragments is left there. */
  ghost predicate AtBodyAfter(status: Status, hs: seq<Header>, body: string, fs: seq<string>, p: int,
                              left: seq<string>) {
    && 0 <= p <= |Concat(fs)| && Concat(left) == Concat(fs)[p..]
    && Reaches(FRESH, fs, AtBody(status, AddAll(map[], hs + [ContentLength(|body|)]), |body|), left)
  }

  /** A split in the last header line: what comes of its end ends the head, with a CR that follows at once. */
  lemma AfterLastLine(status: Status, hs: seq<Header>, body: string, fs: seq<string>, o: HeadOutcome)
    returns (left: seq<string>)
    requires Sendable(status, hs, body) && Concat(fs) == SizedMessage(status, hs, body)
    requires HeadRead(FRESH, HeadOf(status, hs + [ContentLength(|body|)]), body, fs, o)
    requires o.split && o.line == |hs| + 1
    ensures var h := |WholeHead(status, hs, body)|;
      EndsAt(fs, h - 3) && AtBodyAfter(status, hs, body, fs, if EndsAt(fs, h - 2) then h - 2 else h - 1, left)
  {
    hide AfterLines, EndHeaders, LegalUserHeader, EarlyHead, WholeHead, SizedMessage, AtBody, EndsAt, FeedAll, HeadOf,
      Lines;
    var all := hs + [ContentLength(|body|)];
    var ls := HeadOf(status, all);
    var h := |WholeHead(status, hs, body)|;
    HeadTail(status, hs, body);
    HeadOfIs(status, all);
    assert ls[..o.line + 1] == ls && ls[o.line + 1..] == [];
    NoLines(CRLF + body);
    HeadEnds(status, hs, |body|, o.next);
    assert |Concat(o.left)| == |body| + 3;
    left := AfterSplit(o.next, o.left);
    ReachesOn(FRESH, fs, o.next, o.left, EndHeaders(o.next), left);
    EndsOn(FRESH, fs, o.next, o.left, 1);
    assert Concat(o.left)[1] == '\r';
    assert Concat(left) == Concat(fs)[|Concat(fs)| - |Concat(left)|..];
  }

  lemma NoLines(tail: string)
    ensures Lines([]) + tail == tail
  {
    NothingAdded(tail);
  }

  /** A split in the empty line: the other half of its end is left. */
  lemma AfterBlankLine(status: Status, hs: seq<Header>, body: string, fs: seq<string>, o: HeadOutcome)
    requires Sendable(status, hs, body) && Concat(fs) == SizedMessage(status, hs, body)
    requires HeadRead(FRESH, HeadOf(status, hs + [ContentLength(|body|)]), body, fs, o)
    requires CleanUpTo(fs, o, |WholeHead(status, hs, body)|)
    requires o.split && o.line == |hs| + 2
    ensures var h := |WholeHead(status, hs, body)|;
      !EndsAt(fs, h - 3) && AtBodyAfter(status, hs, body, fs, h - 1, o.left)
  {
    hide AfterLines, EndHeaders, LegalUserHeader, EarlyHead, WholeHead, SizedMessage, AtBody, EndsAt, FeedAll, HeadOf,
      Lines, Clean;
    var all := hs + [ContentLength(|body|)];
    var h := |WholeHead(status, hs, body)|;
    HeadTail(status, hs, body);
    HeadOfIs(status, all);
    HeadEnds(status, hs, |body|, AfterLines(FRESH, HeadOf(status, all)));
    assert Consumed(fs, o) == h - 1 && Clean(fs, h - 1);
    assert Concat(fs)[h - 4..][0] == '\r';
    if EndsAt(fs, h - 3) {
      CleanEnd(fs, h - 1, h - 3);
    }
  }

  /** Where the head ended, and what of the fragments is left there. */
  lemma LateHead(status: Status, hs: seq<Header>, body: string, fs: seq<string>) returns (left: seq<string>)
    requires Sendable(status, hs, body) && Concat(fs) == SizedMessage(status, hs, body)
    requires Clean(fs, |EarlyHead(status, hs)|)
    ensures AtBodyAfter(status, hs, body, fs, HeadEnd(fs, |WholeHead(status, hs, body)|), left)
  {
    hide AfterLines, EndHeaders, LegalUserHeader, EarlyHead, WholeHead, SizedMessage, AtBody, EndsAt, Reaches, HeadOf,
      Lines, Clean;
    var all := hs + [ContentLength(|body|)];
    var o := ReadMessageHead(status, hs, body, fs);
    HeadTail(status, hs, body);
    HeadOfIs(status, all);
    EarlyIsWithin(status, hs, body);
    if !o.split {
      HeadEnds(status, hs, |body|, AfterLines(FRESH, HeadOf(status, all)));
      left := o.left;
    } else {
      SplitIsEarly(status, hs, body, fs, o);
      if o.line == |hs| + 1 {
        left := AfterLastLine(status, hs, body, fs, o);
      } else {
        AfterBlankLine(status, hs, body, fs, o);
        left := o.left;
      }
    }
  }

  lemma EndsOn(r: Reader, fs: seq<string>, next: Reader, left: seq<string>, k: int)
    requires Reaches(r, fs, next, left) && k > 0
    ensures EndsAt(left, k) <==> EndsAt(fs, k + (|Concat(fs)| - |Concat(left)|))
  {
    hide EndsAt, FeedAll;
  }

  /**
   Whenever no line end before the content length is split, the message is read to its end, and
   the body is exactly this: the bytes after the place where the head was taken to end, up to the
   end of the fragment with which there are enough of them.
   */
  lemma ReadsTaken(status: Status, hs: seq<Header>, body: string, fs: seq<string>)
    requires Sendable(status, hs, body) && Concat(fs) == SizedMessage(status, hs, body)
    requires Clean(fs, |EarlyHead(status, hs)|)
    ensures Done(status, hs, |body|, Taken(fs, HeadEnd(fs, |WholeHead(status, hs, body)|), |body|), FeedAll(FRESH, fs))
  {
    hide EarlyHead, WholeHead, SizedMessage, AtBody, Taken, Clean, Done, SameEnds, EndsAt;
    var p := HeadEnd(fs, |WholeHead(status, hs, body)|);
    var left := LateHead(status, hs, body, fs);
    HeadTail(status, hs, body);
    assert |Concat(left)| == |Concat(fs)| - p;
    ReadAtBody(status, hs, |body|, fs, left, p);
  }

  lemma TakenWhole(fs: seq<string>, p: nat, n: nat)
    requires p + n <= |Concat(fs)| && n > 0
    ensures Taken(fs, p, n) == Concat(fs)[p..p + n] <==> EndsAt(fs, p + n)
    ensures |Taken(fs, p, n)| == n <==> EndsAt(fs, p + n)
    ensures p + n == |Concat(fs)| ==> EndsAt(fs, p + n)
  {
    FirstEndIs(fs, p + n);
  }

  /** Every message is read back whole, in whatever fragments that split no line end of the head. */
  lemma RoundTrip(status: Status, hs: seq<Header>, body: string, fs: seq<string>)
    requires Sendable(status, hs, body) && Concat(fs) == SizedMessage(status, hs, body)
    requires Clean(fs, |WholeHead(status, hs, body)|)
    ensures ReadsBack(status, hs, body, FeedAll(FRESH, fs))
  {
    hide SizedMessage, WholeHead, EarlyHead, EndsAt, Taken;
    var h := |WholeHead(status, hs, body)|;
    var o := ReadMessageHead(status, hs, body, fs);
    EarlyIsWithin(status, hs, body);
    assert Clean(fs, |EarlyHead(status, hs)|);
    ReadsTaken(status, hs, body, fs);
    HeadTail(status, hs, body);
    TakesWholeBody(fs, h, body);
  }

  lemma TakesWholeBody(fs: seq<string>, p: nat, body: string)
    requires p + |body| == |Concat(fs)| && Concat(fs)[p..] == body
    ensures Taken(fs, p, |body|) == body
  {
    if body != "" {
      TakenWhole(fs, p, |body|);
      assert Concat(fs)[p..p + |body|] == Concat(fs)[p..];
    }
  }

  /** A fragment that splits one of the last two line ends: the rest of it is read as body. */
  lemma LateSplitGarblesBody(status: Status, hs: seq<Header>, body: string, fs: seq<string>)
    requires Sendable(status, hs, body) && Concat(fs) == SizedMessage(status, hs, body)
    requires Clean(fs, |EarlyHead(status, hs)|) && !Clean(fs, |WholeHead(status, hs, body)|)
    ensures var h := |WholeHead(status, hs, body)|;
      var p := if EndsAt(fs, h - 3) && EndsAt(fs, h - 2) then h - 2 else h - 1;
      && 0 <= p <= |Concat(fs)| && Concat(fs)[p..] == (if p == h - 2 then CRLF else "\n") + body
      && Done(status, hs, |body|, Taken(fs, p, |body|), FeedAll(FRESH, fs))
  {
    hide SizedMessage, WholeHead, EarlyHead, EndsAt, Taken, Done, Clean;
    ReadsTaken(status, hs, body, fs);
    HeadTail(status, hs, body);
  }

  /**
   Exactly which cuts a message survives: none of the head's line ends is split, or there is no
   body, or the body is all line ends, so that it equals the part of the head and of itself that
   is taken in its place, and a fragment ends with that part.
   */
  lemma ReadsBackExactly(status: Status, hs: seq<Header>, body: string, fs: seq<string>)
    requires Sendable(status, hs, body) && Concat(fs) == SizedMessage(status, hs, body)
    ensures var h := |WholeHead(status, hs, body)|;
      var p := HeadEnd(fs, h);
      ReadsBack(status, hs, body, FeedAll(FRESH, fs)) <==>
        && Clean(fs, |EarlyHead(status, hs)|)
        && (body == "" || Clean(fs, h)
            || (EndsAt(fs, p + |body|) && ((if p == h - 2 then CRLF else "\n") + body)[..|body|] == body))
  {
    hide SizedMessage, WholeHead, EarlyHead, EndsAt, Taken, Clean, HeadEnd;
    if Clean(fs, |WholeHead(status, hs, body)|) {
      var o := ReadMessageHead(status, hs, body, fs);
      EarlyIsWithin(status, hs, body);
      RoundTrip(status, hs, body, fs);
    } else if Clean(fs, |EarlyHead(status, hs)|) {
      LateReadsBack(status, hs, body, fs);
    } else {
      EarlySplitNeverFinishes(status, hs, body, fs);
    }
  }

  lemma LateReadsBack(status: Status, hs: seq<Header>, body: string, fs: seq<string>)
    requires Sendable(status, hs, body) && Concat(fs) == SizedMessage(status, hs, body)
    requires Clean(fs, |EarlyHead(status, hs)|) && !Clean(fs, |WholeHead(status, hs, body)|)
    ensures var h := |WholeHead(status, hs, body)|;
      var p := HeadEnd(fs, h);
      ReadsBack(status, hs, body, FeedAll(FRESH, fs)) <==>
        body == "" || (EndsAt(fs, p + |body|) && ((if p == h - 2 then CRLF else "\n") + body)[..|body|] == body)
  {
    hide SizedMessage, WholeHead, EarlyHead, EndsAt, Taken, Clean, Concat, FeedAll, Sendable;
    var p := HeadEnd(fs, |WholeHead(status, hs, body)|);
    LateSplitGarblesBody(status, hs, body, fs);
    TakenIs(fs, p, Concat(fs)[p..], body);
  }

  lemma TakenIs(fs: seq<string>, p: nat, tail: string, body: string)
    requires p <= |Concat(fs)| && Concat(fs)[p..] == tail && |tail| >= |body|
    ensures Taken(fs, p, |body|) == body <==> body == "" || (EndsAt(fs, p + |body|) && tail[..|body|] == body)
  {
    hide EndsAt, Concat;
    if body != "" {
      TakenWhole(fs, p, |body|);
      SliceOfRest(Concat(fs), p, |body|);
    }
  }

  /** The writer's calls and the reader's, with any transport between them that cuts no line end. */
  method Exchange(status: Status, hs: seq<Header>, ps: seq<string>, fs: seq<string>)
    returns (sent: string, m: HttpMethods.IMessage, ok: bool)
    requires Sendable(status, hs, Concat(ps))
    requires Concat(fs) == SizedMessage(status, hs, Concat(ps)) && Clean(fs, |WholeHead(status, hs, Concat(ps))|)
    ensures sent == Concat(fs) && ok && m.state == FINISHED && m.status == status && m.body == Concat(ps)
    ensures m.headers == AddAll(map[], hs + [ContentLength(|Concat(ps)|)])
  {
    sent := HttpWriter.RespondBuffered(status, hs, ps);
    m, ok := HttpMethods.ReadFragments(fs);
    RoundTrip(status, hs, Concat(ps), fs);
    assert ok && ReadsBack(status, hs, Concat(ps), Ok(m.Abs()));
  }

  /** The values of the headers with a name, in order. */
  function Values(hs: seq<Header>, name: string): seq<string> {
    if hs == [] then [] else (if hs[0].name == name then [hs[0].value] else []) + Values(hs[1..], name)
  }

  function Join(vs: seq<string>): string {
    if vs == [] then "" else if |vs| == 1 then vs[0] else vs[0] + ", " + Join(vs[1..])
  }

  function SkipEmpty(vs: seq<string>): seq<string> {
    if vs != [] && vs[0] == "" then SkipEmpty(vs[1..]) else vs
  }

  /** The values of a header after those that come to current, which may be empty. */
  function Joined(current: string, vs: seq<string>): string {
    if current != "" then Join([current] + vs) else Join(SkipEmpty(vs))
  }

  lemma JoinTwo(a: string, b: string, vs: seq<string>)
    ensures Join([a] + ([b] + vs)) == Join([a + ", " + b] + vs)
  {
    assert ([a] + ([b] + vs))[1..] == [b] + vs;
    assert ([b] + vs)[1..] == vs && ([a + ", " + b] + vs)[1..] == vs;
    if vs != [] {
      Assoc4(a, ", ", b + ", ", Join(vs));
      Assoc4(a, ", ", b, ", ");
    }
  }

  function Current(headers: map<string, string>, name: string): string {
    if name in headers then headers[name] else ""
  }

  lemma JoinedNext(current: string, v: string, vs: seq<string>)
    ensures Joined(current, [v] + vs) == Joined(if current != "" then current + ", " + v else v, vs)
  {
    if current != "" {
      JoinTwo(current, v, vs);
    } else {
      assert ([v] + vs)[1..] == vs;
    }
  }

  /** What a repeated header comes to: its values joined by commas, empty ones in front left out. */
  lemma {:induction false} RepeatedHeadersAreJoined(headers: map<string, string>, hs: seq<Header>, name: string)
    ensures name in AddAll(headers, hs) <==> name in headers || Values(hs, name) != []
    ensures Current(AddAll(headers, hs), name) == Joined(Current(headers, name), Values(hs, name))
    decreases hs
  {
    if hs == [] {
      assert [Current(headers, name)] + [] == [Current(headers, name)];
    } else {
      var next, vs := Add(headers, hs[0]), Values(hs[1..], name);
      RepeatedHeadersAreJoined(next, hs[1..], name);
      NothingAdded(hs[0].value);
      JoinedNext(Current(headers, name), hs[0].value, vs);
      assert [] + vs == vs;
    }
  }
}
