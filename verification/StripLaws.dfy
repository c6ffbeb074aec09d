/**
 What stripping does to each line of a template (template.cc, InsertLine and StripBuffer): which
 lines go, what stays of them, and which delimiters are looked for in the next one.
 */
module StripLaws {
  import opened Wrappers
  import opened Strings
  import opened TemplateTokens
  import opened TemplateScripts
  import opened TemplateStrip

  predicate AllSpace(s: string) {
    forall i :: 0 <= i < |s| ==> IsSpace(s[i])
  }

  // ----- one line -----

  lemma {:induction false} TrimEndIs(s: string)
    ensures AllSpace(s[|TrimEnd(s)|..])
  {
    if s != "" && IsSpace(s[|s| - 1]) {
      var rest := s[..|s| - 1];
      TrimEndIs(rest);
      assert forall i :: 0 <= i < |s| - 1 - |TrimEnd(s)| ==> s[|TrimEnd(s)|..][i] == rest[|TrimEnd(s)|..][i];
    }
  }

  lemma {:induction false} TrimStartIs(s: string)
    ensures AllSpace(s[..|s| - |TrimStart(s)|])
  {
    if s != "" && IsSpace(s[0]) {
      var rest := s[1..];
      TrimStartIs(rest);
      var n := |s| - |TrimStart(s)|;
      assert forall i :: 1 <= i < n ==> s[..n][i] == rest[..n - 1][i - 1];
    }
  }

  /** A text is trimmed of all the white space at its ends, and of no more. */
  lemma TrimIs(s: string) returns (before: string, after: string)
    ensures s == before + Trim(s) + after && AllSpace(before) && AllSpace(after)
    ensures Trim(s) != "" ==> !IsSpace(Trim(s)[0]) && !IsSpace(Trim(s)[|Trim(s)| - 1])
  {
    var e, t := TrimEnd(s), Trim(s);
    TrimEndIs(s);
    TrimStartIs(e);
    after, before := s[|e|..], e[..|e| - |t|];
    assert s == e + after && e == before + t;
    assert t != "" ==> t[|t| - 1] == e[|e| - 1];
  }

  /** One marker that begins with such a character, and nothing besides. */
  ghost predicate IsOneMarker(s: string, c: char, text: string, ds: Delimiters) {
    c in "#/>!%=\0" && s == ds.start + ([c] + text + ds.end) && EndsAtEnd([c] + text, ds.end)
  }

  /** A line may go when it is blank or holds just one marker that writes nothing itself. */
  lemma RemovableIff(clean: string, ds: Delimiters)
    ensures IsRemovable(clean, ds) <==> clean == "" || exists c, text :: IsOneMarker(clean, c, text, ds)
  {
    if clean != "" && IsRemovable(clean, ds) {
      var inner := clean[|ds.start|..];
      var n := Find(inner, ds.end).value;
      FindMeets(inner, ds.end);
      MarkerAlone(clean, inner, n, ds);
    }
    forall c, text | IsOneMarker(clean, c, text, ds) ensures IsRemovable(clean, ds) {
      MarkerIsRemovable(clean, c, text, ds);
    }
  }

  lemma MarkerAlone(clean: string, inner: string, n: nat, ds: Delimiters)
    requires ds.start <= clean && inner == clean[|ds.start|..] && |ds.start| < |clean|
    requires IsRemovableMark(clean[|ds.start|]) && n > 0
    requires MatchAt(inner, n, ds.end) && n + |ds.end| == |inner|
    requires forall j :: 0 <= j < n ==> !MatchAt(inner, j, ds.end)
    ensures exists c, text :: IsOneMarker(clean, c, text, ds)
  {
    var c, text := inner[0], inner[1..n];
    assert inner == [c] + text + ds.end;
    assert clean == ds.start + inner;
    assert IsOneMarker(clean, c, text, ds);
  }

  lemma MarkerIsRemovable(clean: string, c: char, text: string, ds: Delimiters)
    requires IsOneMarker(clean, c, text, ds)
    ensures IsRemovable(clean, ds)
  {
    var inner := [c] + text + ds.end;
    assert clean[|ds.start|..] == inner && clean[..|ds.start|] == ds.start;
    assert inner[|text| + 1..] == ds.end;
    FindIs(inner, ds.end, |text| + 1);
    assert clean[|ds.start|] == c;
  }

  /** What is written for a line: trimmed or, of a line that may go, its marker; else the line. */
  lemma LineWrites(text: string, newline: bool, strip: Strip, ds: Delimiters)
    requires '\n' !in text
    ensures var line := if newline then text + "\n" else text;
      InsertLine(line, strip, ds) ==
        match strip
        case DO_NOT_STRIP => line
        case STRIP_BLANK_LINES =>
          if Trim(text) == "" || exists c, marker :: IsOneMarker(Trim(text), c, marker, ds) then Trim(text) else line
        case STRIP_WHITESPACE => Trim(text)
  {
    RemovableIff(Trim(text), ds);
    hide IsRemovable, Trim, IsOneMarker;
    assert newline ==> (text + "\n")[..|text|] == text;
    assert text != "" ==> text[|text| - 1] in text;
  }

  // ----- lines one after the other -----

  /** A line that ends, and what comes after it, with the delimiters that are in force there. */
  lemma FirstLineThenRest(text: string, rest: string, strip: Strip, ds: Delimiters)
    requires '\n' !in text && strip != DO_NOT_STRIP
    ensures var line := text + "\n";
      var next := DelimitersAfter(line, ds);
      StripLines(line + rest, strip, ds) ==
        if next.None? || StripLines(rest, strip, next.value).None? then None
        else Some(InsertLine(line, strip, ds) + StripLines(rest, strip, next.value).value)
  {
    hide DelimitersAfter, InsertLine;
    LineLengthIs(text, rest);
    var s := text + "\n" + rest;
    assert s[..|text| + 1] == text + "\n" && s[|text| + 1..] == rest;
  }

  /** The last line, when no newline ends it. */
  lemma LastLineAlone(text: string, strip: Strip, ds: Delimiters)
    requires '\n' !in text && text != "" && strip != DO_NOT_STRIP
    ensures StripLines(text, strip, ds) ==
      if DelimitersAfter(text, ds).None? then None else Some(InsertLine(text, strip, ds))
  {
    hide DelimitersAfter, InsertLine;
    LineHasNoNewline(text);
    assert text[..|text|] == text && text[|text|..] == "";
    var next := DelimitersAfter(text, ds);
    if next.Some? {
      assert StripLines("", strip, next.value) == Some("");
      assert InsertLine(text, strip, ds) + "" == InsertLine(text, strip, ds);
    }
  }

  // ----- the delimiters after a line -----

  /** The first start marker of the line, the first end marker after that, and the text in between. */
  ghost predicate BeginsWithMarker(line: string, before: string, text: string, more: string, ds: Delimiters) {
    && line == before + (ds.start + (text + (ds.end + more)))
    && (forall j :: 0 <= j < |before| ==> !MatchAt(line, j, ds.start))
    && EndsAtEnd(text, ds.end)
  }

  lemma StandsAt(all: string, before: string, n: string, rest: string)
    requires all == before + (n + rest)
    ensures MatchAt(all, |before|, n) && all[|before| + |n|..] == rest
  {
    assert all[|before|..|before| + |n|] == n;
  }

  /** The marker found from i on with text, and more after it. */
  lemma NextMarkerIs(line: string, i: nat, text: string, more: string, ds: Delimiters)
    requires Find(line, ds.start) == Some(i) && i + |ds.start| + |text| + |ds.end| <= |line|
    requires Find(line[i + |ds.start|..], ds.end) == Some(|text|)
    requires line[i + |ds.start|..i + |ds.start| + |text|] == text && line[i + |ds.start| + |text| + |ds.end|..] == more
    ensures NextMarker(line, ds).Some?
    ensures var (k, next) := NextMarker(line, ds).value;
      && line[k..] == more && (k == 0 <==> more == line)
      && next == if ParseDelimiters(text).Some? then ParseDelimiters(text).value else ds
  {
    hide Find, ParseDelimiters, MatchAt;
    var k := i + |ds.start| + |text| + |ds.end|;
    RestIsAll(line, k, more);
    assert NextMarker(line, ds).value.0 == k;
  }

  lemma SliceInFront(line: string, after: nat, text: string, rest: string)
    requires after <= |line| && line[after..] == text + rest
    ensures after + |text| <= |line| && line[after..after + |text|] == text && line[after + |text|..] == rest
  {
    assert line[after..][..|text|] == line[after..after + |text|];
    assert line[after..][|text|..] == line[after + |text|..];
  }

  lemma MarkerIsNext(line: string, before: string, text: string, more: string, ds: Delimiters)
    requires BeginsWithMarker(line, before, text, more, ds)
    ensures NextMarker(line, ds).Some?
    ensures var (k, next) := NextMarker(line, ds).value;
      && line[k..] == more && (k == 0 <==> more == line)
      && next == if ParseDelimiters(text).Some? then ParseDelimiters(text).value else ds
  {
    hide BeginsWithMarker, Find, ParseDelimiters, NextMarker;
    MarkerPlaces(line, before, text, more, ds);
    NextMarkerIs(line, |before|, text, more, ds);
  }

  lemma RestIsAll(line: string, k: nat, more: string)
    requires k <= |line| && line[k..] == more
    ensures k == 0 <==> more == line
  {
  }

  lemma StartPlace(line: string, before: string, rest: string, start: string)
    requires line == before + (start + rest) && forall j :: 0 <= j < |before| ==> !MatchAt(line, j, start)
    ensures |before| + |start| <= |line| && line[|before| + |start|..] == rest && Find(line, start) == Some(|before|)
  {
    StandsAt(line, before, start, rest);
    FindIs(line, start, |before|);
  }

  lemma MarkerPlaces(line: string, before: string, text: string, more: string, ds: Delimiters)
    requires BeginsWithMarker(line, before, text, more, ds)
    ensures var after := |before| + |ds.start|;
      && after + |text| + |ds.end| <= |line|
      && Find(line, ds.start) == Some(|before|) && Find(line[after..], ds.end) == Some(|text|)
      && line[after..after + |text|] == text && line[after + |text| + |ds.end|..] == more
  {
    hide MatchAt, EndsAtEnd, Find;
    var after, rest := |before| + |ds.start|, text + (ds.end + more);
    StartPlace(line, before, rest, ds.start);
    FindEnd(text, ds.end, more);
    SliceInFront(line, after, text, ds.end + more);
    SliceInFront(line, after + |text|, ds.end, more);
  }

  /** A directive on the line changes them for what follows it. */
  lemma DirectiveChanges(line: string, before: string, to: Delimiters, more: string, ds: Delimiters)
    requires BeginsWithMarker(line, before, DirectiveText(to), more, ds) && NoSeparators(to)
    ensures DelimitersAfter(line, ds) == DelimitersAfter(more, to)
  {
    hide ParseDelimiters, NextMarker;
    var text := DirectiveText(to);
    ParseDelimitersIff(text, to);
    MarkerIsNext(line, before, text, more, ds);
  }

  /** Any other marker leaves them; two empty markers are found again and again. */
  lemma OtherMarkerKeeps(line: string, before: string, text: string, more: string, ds: Delimiters)
    requires BeginsWithMarker(line, before, text, more, ds)
    requires forall to :: NoSeparators(to) ==> text != DirectiveText(to)
    ensures DelimitersAfter(line, ds) == if more == line then None else DelimitersAfter(more, ds)
  {
    hide NextMarker;
    if ParseDelimiters(text).Some? {
      ParseDelimitersIff(text, ParseDelimiters(text).value);
    }
    MarkerIsNext(line, before, text, more, ds);
  }

  /** A line without a marker, or with one that does not end on it, leaves them too. */
  lemma NoMarkerKeeps(line: string, before: string, text: string, ds: Delimiters)
    requires NoStart(line, ds.start)
          || (line == before + (ds.start + text) && NoStart(text, ds.end)
              && forall j :: 0 <= j < |before| ==> !MatchAt(line, j, ds.start))
    ensures DelimitersAfter(line, ds) == Some(ds)
  {
    if NoStart(line, ds.start) {
      FindIsNone(line, ds.start);
    } else {
      StandsAt(line, before, ds.start, text);
      FindIs(line, ds.start, |before|);
      FindIsNone(text, ds.end);
      hide MatchAt, NoStart, Find, ParseDelimiters;
      NoEndIs(line, |before|, text, ds);
    }
  }

  lemma NoEndIs(line: string, i: nat, text: string, ds: Delimiters)
    requires Find(line, ds.start) == Some(i) && i + |ds.start| <= |line| && line[i + |ds.start|..] == text
    requires Find(text, ds.end).None?
    ensures DelimitersAfter(line, ds) == Some(ds)
  {
    hide Find, ParseDelimiters;
  }
}
