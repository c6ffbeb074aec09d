/**
 The percent-encoder and the form decoder as the source carries them out: runs of safe bytes
 emitted at once, and a buffer walked and patched in place.
 */
module FormMethods {
  import opened Wrappers
  import opened Strings
  import opened Numerals
  import opened FormContents

  lemma {:induction false} EscapeConcat(a: string, b: string)
    requires AllBytes(a) && AllBytes(b)
    ensures Escape(a + b) == Escape(a) + Escape(b)
  {
    hide EscapeChar;
    if a != "" {
      EscapeConcat(a[1..], b);
      assert (a + b)[1..] == a[1..] + b;
      assert EscapeChar(a[0]) + (Escape(a[1..]) + Escape(b)) == EscapeChar(a[0]) + Escape(a[1..]) + Escape(b);
    } else {
      assert a + b == b;
    }
  }

  lemma {:induction false} SafeRun(s: string)
    requires AllSafe(s)
    ensures AllBytes(s) && Escape(s) == s
  {
    if s != "" {
      SafeRun(s[1..]);
      assert s == [s[0]] + s[1..];
    }
  }

  lemma EscapeMore(s: string, pos: nat, run: string, next: nat)
    requires AllBytes(s) && pos <= next <= |s| && s[pos..next] == run
    ensures Escape(s[..next]) == Escape(s[..pos]) + Escape(run)
  {
    assert s[..next] == s[..pos] + run;
    EscapeConcat(s[..pos], run);
  }

  /** An initial run of safe characters. */
  method SafeRunEnd(s: string, start: nat) returns (pos: nat)
    requires start <= |s|
    ensures start <= pos <= |s| && AllSafe(s[start..pos]) && (pos < |s| ==> !IsSafe(s[pos]))
  {
    pos := start;
    while pos < |s| && IsSafe(s[pos])
      invariant start <= pos <= |s| && forall k :: start <= k < pos ==> IsSafe(s[k])
    {
      pos := pos + 1;
    }
  }

  lemma EscapeOne(s: string, pos: nat)
    requires AllBytes(s) && pos < |s|
    ensures Escape(s[..pos + 1]) == Escape(s[..pos]) + EscapeChar(s[pos])
  {
    EscapeMore(s, pos, [s[pos]], pos + 1);
    assert [s[pos]][1..] == "" && EscapeChar(s[pos]) + "" == EscapeChar(s[pos]);
  }

  /** UrlQueryEscape::Modify. */
  method UrlQueryEscape(s: string) returns (out: string)
    requires AllBytes(s)
    ensures out == Escape(s)
  {
    hide Escape, AllSafe, IsSafe;
    out := "";
    var pos := 0;
    NothingEscaped(s);
    while true
      invariant pos <= |s| && out == Escape(s[..pos])
      decreases |s| - pos
    {
      var start := pos;
      pos := SafeRunEnd(s, start);
      SafeRun(s[start..pos]);
      EscapeMore(s, start, s[start..pos], pos);
      out := out + s[start..pos];
      if pos == |s| {
        break;
      }
      var c := s[pos];
      EscapeOne(s, pos);
      if c == ' ' {
        out := out + "+";
      } else {
        out := out + "%";
        out := out + [HexDigit(c as nat / 16)];
        out := out + [HexDigit(c as nat % 16)];
      }
      pos := pos + 1;
    }
    assert s[..|s|] == s;
  }

  lemma NothingEscaped(s: string)
    ensures s[..0] == "" && Escape("") == ""
  {
  }

  /** The C string that starts at from, as far as its NUL or the end of the buffer. */
  function CStringFrom(s: string, from: nat): string
    requires from <= |s|
    decreases |s| - from
  {
    if from == |s| || s[from] == '\0' then "" else [s[from]] + CStringFrom(s, from + 1)
  }

  /** A NUL that stands in the way does not change what strtol reads. */
  lemma HexByteOfCString(a: char, b: char)
    ensures HexByte(CStringFrom([a, b, '\0'], 0)) == HexByte([a, b])
  {
    var s := [a, b, '\0'];
    assert CStringFrom(s, 2) == "";
    assert CStringFrom(s, 1) == if b == '\0' then "" else [b];
    assert CStringFrom(s, 0) == if a == '\0' then "" else if b == '\0' then [a] else [a, b];
    if a == '\0' {
      StopsAt("", [a, b]);
    } else if b == '\0' {
      StopsAt([a], [b]);
      assert [a] + [b] == [a, b];
    }
  }

  /** What follows a NUL is not read. */
  lemma StopsAt(s: string, t: string)
    requires |s| <= 1 && t != "" && t[0] == '\0'
    ensures HexByte(s) == HexByte(s + t)
  {
    assert !IsDigit('\0', 16);
    if s == "" {
      assert s + t == t;
      assert SkipSpaces(t) == t;
      assert t[..0] == "" && ""[..0] == "";
    } else if IsSpace(s[0]) {
      assert SkipSpaces(s) == "" && (s + t)[1..] == t;
      assert SkipSpaces(s + t) == SkipSpaces(t) == t;
      assert t[..0] == "" && ""[..0] == "";
    } else if s[0] == '-' || s[0] == '+' {
      assert SkipSpaces(s) == s && SkipSpaces(s + t) == s + t;
      assert s[1..] == "" && (s + t)[1..] == t;
      assert t[..0] == "" && ""[..0] == "";
    } else {
      assert SkipSpaces(s) == s && SkipSpaces(s + t) == s + t;
      assert (s + t)[1..] == t && s[1..] == "";
      assert DigitRun(t, 16) == 0 && DigitRun("", 16) == 0;
      assert s[..DigitRun(s, 16)] == (s + t)[..DigitRun(s + t, 16)];
    }
  }

  lemma StepEscape(all: string, s: nat, end: nat)
    requires s + 2 < end <= |all| && all[s] == '%'
    ensures Unescape(all[s..end]) == [HexByte([all[s + 1], all[s + 2]])] + Unescape(all[s + 3..end])
  {
    hide HexByte;
    var rest := all[s..end];
    assert rest[1..3] == [all[s + 1], all[s + 2]] && rest[3..] == all[s + 3..end];
  }

  lemma StepPlain(all: string, s: nat, end: nat)
    requires s < end <= |all| && !(all[s] == '%' && s + 2 < end)
    ensures Unescape(all[s..end]) == [all[s]] + Unescape(all[s + 1..end])
  {
    hide HexByte;
    assert all[s..end][1..] == all[s + 1..end];
  }

  /** The two digits after a percent sign, with the character after them a NUL while they are read. */
  method ReadEscape(buffer: array<char>, s: nat) returns (byte: char)
    requires s + 3 < buffer.Length
    modifies buffer
    ensures buffer[..] == old(buffer[..])
    ensures byte == HexByte([buffer[s + 1], buffer[s + 2]])
  {
    hide HexByte;
    var z := buffer[s + 3];
    buffer[s + 3] := '\0';
    byte := HexByte(CStringFrom([buffer[s + 1], buffer[s + 2], buffer[s + 3]], 0));
    HexByteOfCString(buffer[s + 1], buffer[s + 2]);
    buffer[s + 3] := z;
  }

  /** unescapeString on the buffer between start and end, where there is one more character. */
  method UnescapeString(buffer: array<char>, start: nat, end: nat) returns (value: string, ok: bool)
    requires start <= end < buffer.Length
    modifies buffer
    ensures buffer[..] == old(buffer[..])
    ensures ok <==> start < end
    ensures ok ==> value == Unescape(buffer[start..end])
  {
    hide Unescape, HexByte;
    value, ok := "", start < end;
    if !ok {
      return;
    }
    ghost var all := buffer[..];
    var s: nat := start;
    while s < end
      invariant start <= s <= end && buffer[..] == all
      invariant value + Unescape(all[s..end]) == Unescape(all[start..end])
      decreases end - s
    {
      if buffer[s] == '%' && s + 2 < end {
        StepEscape(all, s, end);
        var byte := ReadEscape(buffer, s);
        value := value + [byte];
        s := s + 3;
      } else {
        StepPlain(all, s, end);
        value := value + [buffer[s]];
        s := s + 1;
      }
    }
    NothingLeft(all, end, value);
  }

  lemma NothingLeft(all: string, end: nat, value: string)
    requires end <= |all|
    ensures value + Unescape(all[end..end]) == value
  {
  }

  /** std::replace of '+' by ' '. */
  method ReplacePlusIn(buffer: array<char>)
    modifies buffer
    ensures buffer[..] == ReplacePlus(old(buffer[..]))
  {
    var i := 0;
    while i < buffer.Length
      invariant i <= buffer.Length
      invariant forall k :: 0 <= k < i ==> buffer[k] == ReplacePlus(old(buffer[..]))[k]
      invariant forall k :: i <= k < buffer.Length ==> buffer[k] == old(buffer[k])
    {
      if buffer[i] == '+' {
        buffer[i] := ' ';
      }
      i := i + 1;
    }
  }

  /** mapContents: false where the source's assertion fails. */
  method MapPosted(raw: string) returns (post: Post, ok: bool)
    ensures match MapContents(raw)
      case Ok(p) => ok && post == p
      case Fault => !ok
  {
    post, ok := map[], true;
    if |raw| == 0 {
      return;
    }
    var content := if raw[|raw| - 1] != '&' then raw + "&" else raw;
    hide Unescape, HexByte, Insert;
    var buffer := new char[|content|](i requires 0 <= i < |content| => content[i]);
    assert buffer[..] == content;
    ReplacePlusIn(buffer);
    ghost var all := ReplacePlus(content);
    assert all[0..] == all && all[0..0] == "";
    var l, it, name := 0, 0, "";
    while it < buffer.Length
      invariant l <= it <= buffer.Length && buffer[..] == all && ok
      invariant Scan("", all, "", map[]) == Scan(all[l..it], all[it..], name, post)
      invariant '&' !in all[l..it]
    {
      assert all[it..][1..] == all[it + 1..] && all[it + 1..it + 1] == "";
      if buffer[it] == '=' {
        name := buffer[l..it];
        l := it + 1;
      } else if buffer[it] == '&' {
        var value;
        value, ok := UnescapeString(buffer, l, it);
        if !ok {
          return;
        }
        post := Insert(post, name, value);
        l := it + 1;
      } else {
        assert all[l..it] + [all[it]] == all[l..it + 1];
      }
      it := it + 1;
    }
  }
}
