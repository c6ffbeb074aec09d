/**
 Stripping a template's text before it is parsed (template.cc, StripBuffer and InsertLine):
 line by line, minding where the delimiters change.
 */
module TemplateStrip {
  import opened Wrappers
  import opened Strings
  import opened TemplateTokens

  function TrimStart(s: string): (t: string)
    ensures |t| <= |s| && t == s[|s| - |t|..] && (t != "" ==> !IsSpace(t[0]))
  {
    if s != "" && IsSpace(s[0]) then TrimStart(s[1..]) else s
  }

  /** StripTemplateWhiteSpace. */
  function Trim(s: string): (t: string)
    ensures |t| <= |s|
  {
    TrimStart(TrimEnd(s))
  }

  /** strchr finds the NUL at the end of the list as well. */
  predicate IsRemovableMark(c: char) {
    c in {'#', '/', '>', '!', '%', '=', '\0'}
  }

  /** IsBlankOrOnlyHasOneRemovableMarker, of a line without its white space. */
  predicate IsRemovable(clean: string, delims: Delimiters) {
    clean == "" ||
    (&& |clean| >= |delims.start| + |delims.end| + 1
     && delims.start <= clean && IsRemovableMark(clean[|delims.start|])
     && var found := Find(clean[|delims.start|..], delims.end);
        found.Some? && |delims.start| + found.value + |delims.end| == |clean|)
  }

  /** What is written for a line, its newline included. */
  function InsertLine(line: string, strip: Strip, delims: Delimiters): string {
    var newline := line != "" && line[|line| - 1] == '\n';
    var text := if newline then line[..|line| - 1] else line;
    if strip == STRIP_WHITESPACE || (strip == STRIP_BLANK_LINES && IsRemovable(Trim(text), delims)) then Trim(text)
    else line
  }

  /** Past the marker a line has first, the delimiters it leaves; None when it has none. */
  function NextMarker(line: string, delims: Delimiters): (r: Option<(nat, Delimiters)>)
    ensures r.Some? ==> |delims.start| + |delims.end| <= r.value.0 <= |line|
  {
    match Find(line, delims.start)
    case None => None
    case Some(i) =>
      var after := i + |delims.start|;
      match Find(line[after..], delims.end)
      case None => None
      case Some(j) =>
        var next := ParseDelimiters(line[after..after + j]);
        Some((after + j + |delims.end|, if next.Some? then next.value else delims))
  }

  /** The delimiters after a line; None when the markers are empty and the search never ends. */
  function DelimitersAfter(line: string, delims: Delimiters): Option<Delimiters>
    decreases |line|
  {
    match NextMarker(line, delims)
    case None => Some(delims)
    case Some((k, next)) => if k == 0 then None else DelimitersAfter(line[k..], next)
  }

  function LineLength(s: string): (n: nat)
    requires s != ""
    ensures 0 < n <= |s|
  {
    if s[0] == '\n' || |s| == 1 then 1 else 1 + LineLength(s[1..])
  }

  /** StripBuffer: None when it never ends.  Without stripping it returns at once. */
  function StripLines(s: string, strip: Strip, delims: Delimiters): Option<string>
    decreases |s|
  {
    if s == "" || strip == DO_NOT_STRIP then Some(s)
    else
      var line := s[..LineLength(s)];
      match DelimitersAfter(line, delims)
      case None => None
      case Some(next) =>
        match StripLines(s[|line|..], strip, next)
        case None => None
        case Some(rest) => Some(InsertLine(line, strip, delims) + rest)
  }

  // ----- what stripping takes away -----

  lemma InsertedFits(line: string, strip: Strip, delims: Delimiters)
    ensures |InsertLine(line, strip, delims)| <= |line|
  {
  }

  lemma {:induction false} StrippedFits(s: string, strip: Strip, delims: Delimiters)
    ensures StripLines(s, strip, delims).Some? ==> |StripLines(s, strip, delims).value| <= |s|
    decreases |s|
  {
    if s != "" && strip != DO_NOT_STRIP {
      var line := s[..LineLength(s)];
      var next := DelimitersAfter(line, delims);
      if next.Some? {
        InsertedFits(line, strip, delims);
        StrippedFits(s[|line|..], strip, next.value);
      }
    }
  }

  /** The characters that are not white space. */
  function Visible(s: string): string {
    if s == "" then "" else (if IsSpace(s[0]) then "" else [s[0]]) + Visible(s[1..])
  }

  lemma {:induction false} VisibleConcat(a: string, b: string)
    ensures Visible(a + b) == Visible(a) + Visible(b)
  {
    if a == "" {
      assert a + b == b;
    } else {
      VisibleConcat(a[1..], b);
      assert (a + b)[1..] == a[1..] + b && (a + b)[0] == a[0];
      Associate(if IsSpace(a[0]) then "" else [a[0]], Visible(a[1..]), Visible(b));
    }
  }

  lemma {:induction false} TrimStartVisible(s: string)
    ensures Visible(TrimStart(s)) == Visible(s)
  {
    if s != "" && IsSpace(s[0]) {
      TrimStartVisible(s[1..]);
    }
  }

  lemma {:induction false} TrimEndVisible(s: string)
    ensures Visible(TrimEnd(s)) == Visible(s)
  {
    if s != "" && IsSpace(s[|s| - 1]) {
      TrimEndVisible(s[..|s| - 1]);
      var last := [s[|s| - 1]];
      assert s == s[..|s| - 1] + last;
      VisibleConcat(s[..|s| - 1], last);
      assert Visible(last) == "";
    }
  }

  lemma TrimVisible(s: string)
    ensures Visible(Trim(s)) == Visible(s)
  {
    TrimEndVisible(s);
    TrimStartVisible(TrimEnd(s));
  }

  lemma NewlineIsNotVisible(text: string)
    ensures Visible(text + "\n") == Visible(text)
  {
    VisibleConcat(text, "\n");
    assert Visible("\n") == "" + Visible("") == "";
    assert Visible(text) + "" == Visible(text);
  }

  lemma InsertedVisible(line: string, strip: Strip, delims: Delimiters)
    ensures Visible(InsertLine(line, strip, delims)) == Visible(line)
  {
    hide IsRemovable, Visible, Trim;
    var newline := line != "" && line[|line| - 1] == '\n';
    var text := if newline then line[..|line| - 1] else line;
    TrimVisible(text);
    NewlineIsNotVisible(text);
    assert newline ==> line == text + "\n";
  }

  /** Nothing but white space is lost, whatever the mode and wherever the delimiters change. */
  lemma {:induction false} VisibleIsKept(s: string, strip: Strip, delims: Delimiters)
    requires StripLines(s, strip, delims).Some?
    ensures Visible(StripLines(s, strip, delims).value) == Visible(s)
    decreases |s|
  {
    hide Visible, InsertLine, DelimitersAfter;
    if s != "" && strip != DO_NOT_STRIP {
      var n := LineLength(s);
      var line, more := s[..n], s[n..];
      var next := DelimitersAfter(line, delims).value;
      VisibleIsKept(more, strip, next);
      InsertedVisible(line, strip, delims);
      VisibleConcat(InsertLine(line, strip, delims), StripLines(more, strip, next).value);
      VisibleConcat(line, more);
      assert s == line + more;
    }
  }

  // ----- stripping twice -----

  /** No white space at the ends, and no newline anywhere. */
  predicate IsStripped(s: string) {
    '\n' !in s && (s != "" ==> !IsSpace(s[0]) && !IsSpace(s[|s| - 1]))
  }

  lemma {:induction false} LineHasNoNewline(s: string)
    requires s != ""
    ensures '\n' !in s[..LineLength(s) - 1]
    ensures '\n' !in s ==> LineLength(s) == |s|
  {
    if s[0] != '\n' && |s| > 1 {
      LineHasNoNewline(s[1..]);
      assert s[..LineLength(s) - 1] == [s[0]] + s[1..][..LineLength(s[1..]) - 1];
    }
  }

  lemma TrimIsStripped(text: string)
    requires '\n' !in text
    ensures IsStripped(Trim(text))
  {
    var e := TrimEnd(text);
    var t := TrimStart(e);
    assert t != "" ==> t[|t| - 1] == e[|e| - 1];
  }

  lemma LineIsStripped(line: string, delims: Delimiters)
    requires line != "" && '\n' !in line[..|line| - 1]
    ensures IsStripped(InsertLine(line, STRIP_WHITESPACE, delims))
  {
    hide IsRemovable, Trim;
    var text := if line[|line| - 1] == '\n' then line[..|line| - 1] else line;
    assert line == line[..|line| - 1] + [line[|line| - 1]];
    TrimIsStripped(text);
  }

  lemma StrippedConcat(a: string, b: string)
    requires IsStripped(a) && IsStripped(b)
    ensures IsStripped(a + b)
  {
    assert a == "" ==> a + b == b;
    assert b == "" ==> a + b == a;
  }

  lemma {:induction false} OutputIsStripped(s: string, delims: Delimiters)
    requires StripLines(s, STRIP_WHITESPACE, delims).Some?
    ensures IsStripped(StripLines(s, STRIP_WHITESPACE, delims).value)
    decreases |s|
  {
    hide IsStripped, InsertLine, DelimitersAfter;
    if s == "" {
      NothingIsStripped();
    } else {
      var line := s[..LineLength(s)];
      LineHasNoNewline(s);
      assert line[..|line| - 1] == s[..LineLength(s) - 1];
      LineIsStripped(line, delims);
      var rest := s[|line|..];
      var next := DelimitersAfter(line, delims).value;
      OutputIsStripped(rest, next);
      StrippedConcat(InsertLine(line, STRIP_WHITESPACE, delims), StripLines(rest, STRIP_WHITESPACE, next).value);
    }
  }

  lemma NothingIsStripped()
    ensures IsStripped("")
  {
  }

  lemma StrippedLineStays(line: string, delims: Delimiters)
    requires line != "" && '\n' !in line && !IsSpace(line[0]) && !IsSpace(line[|line| - 1])
    ensures InsertLine(line, STRIP_WHITESPACE, delims) == line
  {
    assert Trim(line) == line;
  }

  /** Stripping white space a second time, if that ends, changes nothing. */
  lemma StripIsIdempotent(s: string, delims: Delimiters, again: Delimiters)
    requires StripLines(s, STRIP_WHITESPACE, delims).Some?
    ensures var once := StripLines(s, STRIP_WHITESPACE, delims).value;
      var twice := StripLines(once, STRIP_WHITESPACE, again);
      twice.Some? ==> twice.value == once
  {
    var once := StripLines(s, STRIP_WHITESPACE, delims).value;
    OutputIsStripped(s, delims);
    if once != "" {
      LineHasNoNewline(once);
      assert once[..|once|] == once && once[|once|..] == "";
      StrippedLineStays(once, again);
      assert once + "" == once;
    }
  }

  // ----- markers that name empty delimiters -----

  const NO_DELIMITERS := Delimiters("", "")

  lemma NoDelimitersAreNamed(text: string)
    ensures ParseDelimiters(text) == Some(NO_DELIMITERS) <==> text == "= ="
  {
    if ParseDelimiters(text) == Some(NO_DELIMITERS) {
      var space := IndexOf(text, ' ');
      assert text[1..space] == "" && text[space + 1..|text| - 1] == "";
      assert space == 1 && |text| == 3;
    }
    var t := "= =";
    IndexOfIs(t, ' ', 1);
    assert t[1..1] == "" && t[2..2] == "" && t[1..2] == " ";
  }

  /** The text of the marker a line has first, when NextMarker finds one. */
  function FirstMarker(line: string, delims: Delimiters): string
    requires NextMarker(line, delims).Some?
  {
    var after := Find(line, delims.start).value + |delims.start|;
    line[after..after + Find(line[after..], delims.end).value]
  }

  /** One of a line's markers is the directive "= =". */
  predicate NamesEmpty(line: string, delims: Delimiters)
    decreases |line|
  {
    var marker := NextMarker(line, delims);
    && marker.Some?
    && (FirstMarker(line, delims) == "= ="
        || (marker.value.0 > 0 && NamesEmpty(line[marker.value.0..], marker.value.1)))
  }

  lemma {:induction false} FindNothing(s: string)
    ensures Find(s, "") == Some(0)
  {
    FindIs(s, "", 0);
  }

  /** Once both delimiters are empty, the search for the next marker stands still. */
  lemma StandsStill(line: string)
    ensures DelimitersAfter(line, NO_DELIMITERS) == None
  {
    FindNothing(line);
    assert line[0..] == line;
  }

  lemma MarkerNamesEmpty(line: string, delims: Delimiters)
    requires NextMarker(line, delims).Some? && delims != NO_DELIMITERS
    ensures NextMarker(line, delims).value.0 > 0
    ensures NextMarker(line, delims).value.1 == NO_DELIMITERS <==> FirstMarker(line, delims) == "= ="
  {
    hide ParseDelimiters;
    NoDelimitersAreNamed(FirstMarker(line, delims));
  }

  lemma {:induction false} LineEndsIff(line: string, delims: Delimiters)
    requires delims != NO_DELIMITERS
    ensures DelimitersAfter(line, delims).None? <==> NamesEmpty(line, delims)
    ensures DelimitersAfter(line, delims) != Some(NO_DELIMITERS)
    decreases |line|
  {
    hide NextMarker, FirstMarker;
    var marker := NextMarker(line, delims);
    if marker.Some? {
      MarkerNamesEmpty(line, delims);
      var k := marker.value.0;
      if marker.value.1 == NO_DELIMITERS {
        StandsStill(line[k..]);
      } else {
        LineEndsIff(line[k..], marker.value.1);
      }
    }
  }

  /** Some line has a marker "= =", with the delimiters that are in force where it stands. */
  predicate TextNamesEmpty(s: string, delims: Delimiters)
    decreases |s|
  {
    s != "" &&
    var n := LineLength(s);
    NamesEmpty(s[..n], delims)
    || (DelimitersAfter(s[..n], delims).Some? && TextNamesEmpty(s[n..], DelimitersAfter(s[..n], delims).value))
  }

  /** Stripping runs for ever exactly when there is some to do and a directive names two empty markers. */
  lemma {:induction false} StripEndsIff(s: string, strip: Strip, delims: Delimiters)
    requires delims != NO_DELIMITERS
    ensures StripLines(s, strip, delims).None? <==> strip != DO_NOT_STRIP && TextNamesEmpty(s, delims)
    decreases |s|
  {
    hide DelimitersAfter, NamesEmpty, InsertLine;
    if s != "" && strip != DO_NOT_STRIP {
      var n := LineLength(s);
      LineEndsIff(s[..n], delims);
      var next := DelimitersAfter(s[..n], delims);
      if next.Some? {
        StripEndsIff(s[n..], strip, next.value);
      }
    }
  }

  /** Stripping white space a second time either changes nothing or never ends, and when is known. */
  lemma StripTwice(s: string, delims: Delimiters, again: Delimiters)
    requires StripLines(s, STRIP_WHITESPACE, delims).Some? && again != NO_DELIMITERS
    ensures var once := StripLines(s, STRIP_WHITESPACE, delims).value;
      StripLines(once, STRIP_WHITESPACE, again) == if TextNamesEmpty(once, again) then None else Some(once)
  {
    hide TextNamesEmpty, StripLines;
    var once := StripLines(s, STRIP_WHITESPACE, delims).value;
    StripIsIdempotent(s, delims, again);
    StripEndsIff(once, STRIP_WHITESPACE, again);
  }

  // ----- texts that nowhere say "= =" -----

  ghost predicate Occurs(s: string, t: string) {
    exists i :: 0 <= i && MatchAt(s, i, t)
  }

  lemma SliceOfSlice(s: string, a: nat, b: nat, i: nat, j: nat)
    requires a <= b <= |s| && i <= j <= b - a
    ensures s[a..b][i..j] == s[a + i..a + j]
  {
    var l, r := s[a..b][i..j], s[a + i..a + j];
    assert |l| == |r|;
    forall k | 0 <= k < j - i ensures l[k] == r[k] {
      assert l[k] == s[a..b][i + k] == s[a + i + k] == r[k];
    }
  }

  lemma OccursWithin(s: string, a: nat, b: nat, t: string)
    requires a <= b <= |s| && Occurs(s[a..b], t)
    ensures Occurs(s, t)
  {
    var i :| 0 <= i && MatchAt(s[a..b], i, t);
    SliceOfSlice(s, a, b, i, i + |t|);
    assert MatchAt(s, a + i, t);
  }

  lemma FirstMarkerOccurs(line: string, delims: Delimiters)
    requires NextMarker(line, delims).Some?
    ensures Occurs(line, FirstMarker(line, delims))
  {
    hide ParseDelimiters;
    assert MatchAt(line, Find(line, delims.start).value + |delims.start|, FirstMarker(line, delims));
  }

  lemma {:induction false} NamedInLine(line: string, delims: Delimiters)
    requires NamesEmpty(line, delims)
    ensures Occurs(line, "= =")
    decreases |line|
  {
    hide NextMarker, FirstMarker, Occurs;
    FirstMarkerOccurs(line, delims);
    if FirstMarker(line, delims) != "= =" {
      var marker := NextMarker(line, delims).value;
      NamedInLine(line[marker.0..], marker.1);
      assert line[marker.0..|line|] == line[marker.0..];
      OccursWithin(line, marker.0, |line|, "= =");
    }
  }

  lemma {:induction false} NamedInText(s: string, delims: Delimiters)
    requires TextNamesEmpty(s, delims)
    ensures Occurs(s, "= =")
    decreases |s|
  {
    hide Occurs, DelimitersAfter, NamesEmpty;
    var n := LineLength(s);
    assert s[0..n] == s[..n] && s[n..|s|] == s[n..];
    if NamesEmpty(s[..n], delims) {
      NamedInLine(s[..n], delims);
      OccursWithin(s, 0, n, "= =");
    } else {
      NamedInText(s[n..], DelimitersAfter(s[..n], delims).value);
      OccursWithin(s, n, |s|, "= =");
    }
  }

  /** Stripping ends for every text that nowhere says "= =". */
  lemma StripEnds(s: string, strip: Strip, delims: Delimiters)
    requires !Occurs(s, "= =") && delims != NO_DELIMITERS
    ensures StripLines(s, strip, delims).Some?
  {
    StripEndsIff(s, strip, delims);
    if TextNamesEmpty(s, delims) {
      NamedInText(s, delims);
    }
  }

  lemma EndIsFound()
    ensures Find("= =}}", "}}") == Some(3)
  {
    var t := "= =}}";
    forall j | 0 <= j < 3 ensures !MatchAt(t, j, "}}") {
      assert t[j..j + 2][0] != '}';
    }
    FindIs(t, "}}", 3);
  }

  lemma DirectiveNamesEmpty()
    ensures NamesEmpty("{{= =}}", DEFAULT_DELIMITERS)
  {
    hide ParseDelimiters, Find;
    var s := "{{= =}}";
    FindIs(s, "{{", 0);
    assert s[2..] == "= =}}" && s[2..5] == "= =";
    EndIsFound();
  }

  /** For instance: a text that is one such directive, when it is to be stripped. */
  lemma EmptyMarkersNeverEnd(strip: Strip)
    ensures StripLines("{{= =}}", strip, DEFAULT_DELIMITERS) == if strip == DO_NOT_STRIP then Some("{{= =}}") else None
  {
    hide NamesEmpty, DelimitersAfter, InsertLine;
    var s := "{{= =}}";
    DirectiveNamesEmpty();
    LineHasNoNewline(s);
    assert s[..7] == s;
    assert TextNamesEmpty(s, DEFAULT_DELIMITERS);
    StripEndsIff(s, strip, DEFAULT_DELIMITERS);
  }

  lemma NewlineIsDropped(text: string, delims: Delimiters)
    requires text != "" && !IsSpace(text[0]) && !IsSpace(text[|text| - 1])
    ensures InsertLine(text + "\n", STRIP_WHITESPACE, delims) == text
  {
    assert (text + "\n")[..|text|] == text;
    assert Trim(text) == text;
  }

  lemma OpeningLine()
    ensures DelimitersAfter("{{\n", DEFAULT_DELIMITERS) == Some(DEFAULT_DELIMITERS)
    ensures InsertLine("{{\n", STRIP_WHITESPACE, DEFAULT_DELIMITERS) == "{{"
  {
    hide ParseDelimiters, Find, InsertLine;
    var first := "{{\n";
    FindIs(first, "{{", 0);
    FindIsNone(first[2..], "}}");
    assert first == "{{" + "\n";
    NewlineIsDropped("{{", DEFAULT_DELIMITERS);
  }

  lemma ClosingLine()
    ensures StripLines("= =}}", STRIP_WHITESPACE, DEFAULT_DELIMITERS) == Some("= =}}")
  {
    hide ParseDelimiters, Find, InsertLine, IsStripped;
    var second := "= =}}";
    forall j | 0 <= j <= |second| ensures !MatchAt(second, j, "{{") {
      assert j < |second| ==> second[j] != '{';
    }
    FindIsNone(second, "{{");
    LineHasNoNewline(second);
    StrippedLineStays(second, DEFAULT_DELIMITERS);
    assert second[..5] == second && second[5..] == "" && second + "" == second;
    assert StripLines("", STRIP_WHITESPACE, DEFAULT_DELIMITERS) == Some("");
  }

  lemma {:induction false} LineLengthIs(text: string, rest: string)
    requires '\n' !in text
    ensures LineLength(text + "\n" + rest) == |text| + 1
  {
    var s := text + "\n" + rest;
    if text != "" {
      assert s[0] == text[0];
      LineLengthIs(text[1..], rest);
      assert s[1..] == text[1..] + "\n" + rest;
    }
  }

  lemma FirstLineStripped(text: string, rest: string, strip: Strip, delims: Delimiters, end: string, ended: string)
    requires strip != DO_NOT_STRIP && '\n' !in text && DelimitersAfter(text + "\n", delims) == Some(delims)
    requires InsertLine(text + "\n", strip, delims) == end && StripLines(rest, strip, delims) == Some(ended)
    ensures StripLines(text + "\n" + rest, strip, delims) == Some(end + ended)
  {
    hide DelimitersAfter, InsertLine;
    var s := text + "\n" + rest;
    LineLengthIs(text, rest);
    assert s[..|text| + 1] == text + "\n" && s[|text| + 1..] == rest;
  }

  /** A directive may come about only as lines are joined: this text strips, its result does not. */
  lemma JoinedLinesNameEmpty()
    ensures StripLines("{{\n= =}}", STRIP_WHITESPACE, DEFAULT_DELIMITERS) == Some("{{= =}}")
    ensures StripLines("{{= =}}", STRIP_WHITESPACE, DEFAULT_DELIMITERS) == None
  {
    hide *;
    OpeningLine();
    ClosingLine();
    assert "{{" + "\n" == "{{\n" && "{{\n" + "= =}}" == "{{\n= =}}" && "{{" + "= =}}" == "{{= =}}";
    FirstLineStripped("{{", "= =}}", STRIP_WHITESPACE, DEFAULT_DELIMITERS, "{{", "= =}}");
    EmptyMarkersNeverEnd(STRIP_WHITESPACE);
  }
}
