/** StripBuffer as it runs (template.cc): one buffer read line by line, another written. */
module StripMethods {
  import opened Wrappers
  import opened Strings
  import opened TemplateTokens
  import opened TemplateParser
  import opened TemplateStrip

  lemma TrimEndStep(s: string, len: nat)
    requires 0 < len <= |s|
    ensures TrimEnd(s[..len]) == if IsSpace(s[len - 1]) then TrimEnd(s[..len - 1]) else s[..len]
  {
    assert s[..len][..len - 1] == s[..len - 1];
  }

  lemma TrimStartStep(s: string, str: nat)
    requires str < |s|
    ensures TrimStart(s[str..]) == if IsSpace(s[str]) then TrimStart(s[str + 1..]) else s[str..]
  {
    assert s[str..][1..] == s[str + 1..];
  }

  /** Trailing white space is stripped off. */
  method DropTrailing(s: string) returns (len: nat)
    ensures len <= |s| && s[..len] == TrimEnd(s)
  {
    hide TrimEnd, IsSpace;
    len := |s|;
    assert s[..|s|] == s;
    while len > 0 && IsSpace(s[len - 1])
      invariant len <= |s| && TrimEnd(s[..len]) == TrimEnd(s)
    {
      TrimEndStep(s, len);
      len := len - 1;
    }
    if len > 0 {
      TrimEndStep(s, len);
    }
    assert s[..0] == "";
  }

  /** Leading white space is stripped off. */
  method DropLeading(s: string) returns (str: nat)
    ensures str <= |s| && s[str..] == TrimStart(s)
  {
    hide TrimStart, IsSpace;
    str := 0;
    assert s[0..] == s;
    while str < |s| && IsSpace(s[str])
      invariant str <= |s| && TrimStart(s[str..]) == TrimStart(s)
    {
      TrimStartStep(s, str);
      str := str + 1;
    }
    if str < |s| {
      TrimStartStep(s, str);
    }
    assert s[|s|..] == "";
  }

  /** StripTemplateWhiteSpace: str moves on and len shrinks. */
  method StripTemplateWhiteSpace(s: string) returns (str: nat, len: nat)
    ensures str + len <= |s| && s[str..str + len] == Trim(s)
  {
    hide TrimEnd, TrimStart;
    var end := DropTrailing(s);
    str := DropLeading(s[..end]);
    len := end - str;
    assert s[..end][str..] == s[str..str + len];
  }

  method IsBlankOrOnlyHasOneRemovableMarker(line: string, delims: Delimiters)
    returns (removable: bool, str: nat, len: nat)
    ensures str + len <= |line|
    ensures removable == IsRemovable(Trim(line), delims)
    ensures line[str..str + len] == if removable then Trim(line) else line
  {
    hide Trim, Find;
    var cleanStr, newLen := StripTemplateWhiteSpace(line);
    removable := HasOneRemovableMarker(line[cleanStr..cleanStr + newLen], delims);
    str, len := if removable then cleanStr else 0, if removable then newLen else |line|;
    assert line[0..|line|] == line;
  }

  method HasOneRemovableMarker(clean: string, delims: Delimiters) returns (removable: bool)
    ensures removable == IsRemovable(clean, delims)
  {
    hide Find;
    if |clean| == 0 {
      return true;
    }
    if |clean| < |delims.start| + |delims.end| + 1 {
      return false;
    }
    if clean[..|delims.start|] != delims.start || !IsRemovableMark(clean[|delims.start|]) {
      return false;
    }
    var found := MemMatch(clean[|delims.start|..], delims.end);
    return found.Some? && |delims.start| + found.value + |delims.end| == |clean|;
  }

  lemma SliceOfFront(line: string, n: nat, str: nat, len: nat)
    requires str + len <= n <= |line|
    ensures line[..n][str..str + len] == line[str..str + len]
  {
  }

  /** The part of the line that is kept, and whether its newline is. */
  method LineToInsert(line: string, strip: Strip, delims: Delimiters) returns (str: nat, len: nat, addNewline: bool)
    ensures str + len <= |line| && (addNewline ==> len < |line|)
    ensures TemplateStrip.InsertLine(line, strip, delims) == line[str..str + len] + if addNewline then "\n" else ""
  {
    hide IsRemovable, Trim, IsSpace;
    addNewline := |line| > 0 && line[|line| - 1] == '\n';
    ghost var newline := addNewline;
    var text := if addNewline then line[..|line| - 1] else line;
    str, len := 0, |text|;
    if strip == STRIP_WHITESPACE {
      str, len := StripTemplateWhiteSpace(text);
      addNewline := false;
    } else if strip == STRIP_BLANK_LINES {
      var removable;
      removable, str, len := IsBlankOrOnlyHasOneRemovableMarker(text, delims);
      if removable {
        addNewline := false;
      }
    }
    assert text == line[..|text|];
    assert newline ==> line == text + "\n";
    SliceOfFront(line, |text|, str, len);
    assert line[str..str + len] + "" == line[str..str + len];
  }

  method MemCpy(buffer: array<char>, at: nat, text: string)
    requires at + |text| <= buffer.Length
    modifies buffer
    ensures buffer[..at + |text|] == old(buffer[..at]) + text
  {
    for i := 0 to |text|
      invariant buffer[..at] == old(buffer[..at])
      invariant forall k :: 0 <= k < i ==> buffer[at + k] == text[k]
    {
      buffer[at + i] := text[i];
    }
    assert buffer[at..at + |text|] == text;
    assert buffer[..at + |text|] == buffer[..at] + buffer[at..at + |text|];
  }

  /** Writes a line to the buffer at a place where it fits. */
  method InsertLine(line: string, strip: Strip, delims: Delimiters, buffer: array<char>, at: nat) returns (len: nat)
    requires at + |line| <= buffer.Length
    modifies buffer
    ensures len == |TemplateStrip.InsertLine(line, strip, delims)| <= |line|
    ensures buffer[..at + len] == old(buffer[..at]) + TemplateStrip.InsertLine(line, strip, delims)
  {
    hide TemplateStrip.InsertLine;
    var str, addNewline;
    str, len, addNewline := LineToInsert(line, strip, delims);
    MemCpy(buffer, at, line[str..str + len]);
    ghost var before := buffer[..at + len];
    if addNewline {
      buffer[at + len] := '\n';
      len := len + 1;
      assert buffer[..at + len] == before + "\n";
    }
  }

  /** The next marker from a place in the line on, and the delimiters it leaves. */
  method MarkerFrom(line: string, marker: nat, delims: Delimiters) returns (r: Option<(nat, Delimiters)>)
    requires marker <= |line|
    ensures r == NextMarker(line[marker..], delims)
  {
    hide Find, ParseDelimiters;
    var rest := line[marker..];
    var start := MemMatch(rest, delims.start);
    if start.None? {
      return None;
    }
    var after := start.value + |delims.start|;
    var end := MemMatch(rest[after..], delims.end);
    if end.None? {
      return None;
    }
    var parsed := ParseDelimiters(rest[after..after + end.value]);
    return Some((after + end.value + |delims.end|, if parsed.Some? then parsed.value else delims));
  }

  /** The delimiters after a line; ended is false where the source's loop stands still for ever. */
  method FollowDelimiters(line: string, delims: Delimiters) returns (next: Delimiters, ended: bool)
    ensures match DelimitersAfter(line, delims)
      case None => !ended
      case Some(d) => ended && next == d
  {
    hide NextMarker;
    next := delims;
    var marker := 0;
    assert line[0..] == line;
    while true
      invariant marker <= |line| && DelimitersAfter(line[marker..], next) == DelimitersAfter(line, delims)
      decreases |line| - marker
    {
      var found := MarkerFrom(line, marker, next);
      if found.None? {
        return next, true;
      }
      if found.value.0 == 0 {
        return next, false;
      }
      assert line[marker..][found.value.0..] == line[marker + found.value.0..];
      next, marker := found.value.1, marker + found.value.0;
    }
  }

  /** memchr for the newline, which is taken in. */
  method LineEnd(s: string, from: nat) returns (next: nat)
    requires from < |s|
    ensures next == from + LineLength(s[from..])
  {
    next := from;
    while next < |s| - 1 && s[next] != '\n'
      invariant from <= next < |s|
      invariant LineLength(s[from..]) == next - from + LineLength(s[next..])
    {
      assert s[next..][1..] == s[next + 1..];
      next := next + 1;
    }
    next := next + 1;
  }

  /**
   StripBuffer: the new buffer is as long as the old one, and what is written to it is never
   more than what has been read.  Without stripping the buffer stays as it is.
   */
  method StripBuffer(buffer: string, strip: Strip) returns (retval: array<char>, len: nat, ended: bool)
    ensures match StripLines(buffer, strip, DEFAULT_DELIMITERS)
      case None => !ended
      case Some(t) => ended && len <= retval.Length == |buffer| && retval[..len] == t
  {
    hide StripLines, DelimitersAfter, TemplateStrip.InsertLine, LineLength, After;
    if strip == DO_NOT_STRIP {
      retval := new char[|buffer|](i requires 0 <= i < |buffer| => buffer[i]);
      len, ended := |buffer|, true;
      NothingToStrip(buffer);
      assert retval[..] == buffer;
      return;
    }
    retval := new char[|buffer|];
    var delims, prev := DEFAULT_DELIMITERS, 0;
    len, ended := 0, true;
    ghost var done := "";
    ghost var all := StripLines(buffer, strip, delims);
    assert buffer[0..] == buffer;
    Nothing(all);
    while prev < |buffer|
      invariant len <= prev <= |buffer| && ended && fresh(retval) && retval.Length == |buffer|
      invariant retval[..len] == done && all == After(done, StripLines(buffer[prev..], strip, delims))
      decreases |buffer| - prev
    {
      ghost var rest := buffer[prev..];
      var next := LineEnd(buffer, prev);
      var line := buffer[prev..next];
      assert rest[..LineLength(rest)] == line && rest[|line|..] == buffer[next..];
      StripUnfold(rest, strip, delims);
      var n := InsertLine(line, strip, delims, retval, len);
      ghost var text := TemplateStrip.InsertLine(line, strip, delims);
      var d;
      d, ended := FollowDelimiters(line, delims);
      NotEnded(done);
      if !ended {
        return;
      }
      Grows(done, text, StripLines(buffer[next..], strip, d));
      done := done + text;
      len, prev, delims := len + n, next, d;
    }
    Finished(done, strip, delims);
    assert buffer[|buffer|..] == "";
  }

  lemma NothingToStrip(s: string)
    ensures StripLines(s, DO_NOT_STRIP, DEFAULT_DELIMITERS) == Some(s)
  {
  }

  lemma NotEnded(done: string)
    ensures After(done, None) == None
  {
  }

  lemma Finished(done: string, strip: Strip, delims: Delimiters)
    ensures After(done, StripLines("", strip, delims)) == Some(done)
  {
    assert done + "" == done;
  }

  /** One line, and the rest with the delimiters it leaves. */
  lemma StripUnfold(s: string, strip: Strip, delims: Delimiters)
    requires s != "" && strip != DO_NOT_STRIP
    ensures var line := s[..LineLength(s)];
      var next := DelimitersAfter(line, delims);
      StripLines(s, strip, delims) ==
        if next.None? then None
        else After(TemplateStrip.InsertLine(line, strip, delims), StripLines(s[|line|..], strip, next.value))
  {
  }

  ghost function After(done: string, rest: Option<string>): Option<string> {
    if rest.None? then None else Some(done + rest.value)
  }

  lemma Nothing(rest: Option<string>)
    ensures rest == After("", rest)
  {
    if rest.Some? {
      assert "" + rest.value == rest.value;
    }
  }

  lemma Grows(done: string, text: string, rest: Option<string>)
    ensures After(done, After(text, rest)) == After(done + text, rest)
  {
    if rest.Some? {
      assert done + (text + rest.value) == done + text + rest.value;
    }
  }
}
