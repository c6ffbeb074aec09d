/** The open-tag array and the escaping loop of the source (template_modifiers.cc). */
module SnippetMethods {
  import opened Wrappers
  import opened SnippetEscapes

  lemma {:induction false} WithoutAt(open: OpenTags, k: nat)
    requires k < |open| && open[k] !in open[..k]
    ensures Without(open, open[k]) == open[..k] + open[k + 1..]
  {
    if k > 0 {
      assert open[0] == open[..k][0];
      assert open[1..][..k - 1] == open[..k][1..];
      WithoutAt(open[1..], k - 1);
      assert open[..k] == [open[0]] + open[1..][..k - 1] && open[1..][k..] == open[k + 1..];
    }
  }

  lemma {:induction false} WithoutAbsent(open: OpenTags, tag: Tag)
    requires tag !in open
    ensures Without(open, tag) == open
  {
    if open != [] {
      WithoutAbsent(open[1..], tag);
    }
  }

  /** There are four kinds of tag, so no more than four are open at a time. */
  lemma AtMostFour(open: OpenTags)
    requires Distinct(open)
    ensures |open| <= 4 && (|open| == 4 ==> Tags(open) == {'b', 'i', 'e', 's'})
  {
    SizeOfTags(open);
    var all: set<Tag> := {'b', 'i', 'e', 's'};
    assert Tags(open) <= all && |all| == 4;
    SubsetSize(Tags(open), all);
  }

  lemma {:induction false} SizeOfTags(open: OpenTags)
    requires Distinct(open)
    ensures |Tags(open)| == |open|
  {
    if open != [] {
      SizeOfTags(open[1..]);
      assert Tags(open) == Tags(open[1..]) + {open[0]};
    }
  }

  lemma {:induction false} SubsetSize(a: set<Tag>, b: set<Tag>)
    requires a <= b
    ensures |a| <= |b| && (|a| == |b| ==> a == b)
  {
    if a != {} {
      var x :| x in a;
      SubsetSize(a - {x}, b - {x});
    }
  }

  lemma RoomForOne(open: OpenTags, tag: Tag)
    requires Distinct(open) && tag !in open
    ensures |open| < 4
  {
    AtMostFour(open);
    assert tag !in Tags(open);
  }

  lemma ClosingUnfold(open: OpenTags, k: nat)
    requires k < |open|
    ensures ClosingTags(open[..k + 1]) == ClosingTag(open[k]) + ClosingTags(open[..k])
  {
    assert open[..k + 1][..k] == open[..k];
  }

  class UnclosedSnippetTags {
    const tags: array<char>
    var tagLength: nat

    /** A NUL-terminated string of at most four letters, none twice. */
    ghost predicate Valid()
      reads this, tags
    {
      && tags.Length == 5 && tagLength <= 4
      && (forall i :: 0 <= i < tagLength ==> tags[i] in {'b', 'i', 'e', 's'})
      && (forall i :: tagLength <= i < 5 ==> tags[i] == '\0')
      && (forall i, j :: 0 <= i < j < tagLength ==> tags[i] != tags[j])
    }

    ghost function Open(): (open: OpenTags)
      requires Valid()
      reads this, tags
      ensures Distinct(open)
    {
      tags[..tagLength]
    }

    constructor ()
      ensures Valid() && Open() == [] && fresh(tags)
    {
      tags := new char[5](_ => '\0');
      tagLength := 0;
    }

    /** strchr: where the letter stands, or the terminating NUL. */
    method StrChr(tag: Tag) returns (at: nat)
      requires Valid()
      ensures at <= tagLength && (at < tagLength <==> tag in Open())
      ensures at < tagLength ==> tags[at] == tag
      ensures tag !in Open()[..at]
    {
      at := 0;
      while tags[at] != '\0' && tags[at] != tag
        invariant at <= tagLength && tag !in tags[..at]
        decreases tagLength - at
      {
        at := at + 1;
      }
    }

    method MaybeAdd(tag: Tag) returns (added: bool)
      requires Valid()
      modifies this`tagLength, tags
      ensures Valid() && added == (tag !in old(Open()))
      ensures Open() == if added then old(Open()) + [tag] else old(Open())
    {
      var at := StrChr(tag);
      if at < tagLength {
        return false;
      }
      RoomForOne(Open(), tag);
      tags[tagLength] := tag;
      tagLength := tagLength + 1;
      return true;
    }

    method MaybeRemove(tag: Tag) returns (removed: bool)
      requires Valid()
      modifies this`tagLength, tags
      ensures Valid() && removed == (tag in old(Open()))
      ensures Open() == Without(old(Open()), tag)
    {
      var at := StrChr(tag);
      ghost var open := Open();
      if at == tagLength {
        WithoutAbsent(open, tag);
        return false;
      }
      WithoutAt(open, at);
      ghost var before := tags[..];
      var c := at;
      while tags[c] != '\0'
        invariant at <= c <= tagLength && tagLength == old(tagLength)
        invariant tags[..at] == before[..at]
        invariant forall i :: at <= i < c ==> tags[i] == before[i + 1]
        invariant forall i :: c <= i < 5 ==> tags[i] == before[i]
        decreases tagLength - c
      {
        tags[c] := tags[c + 1];
        c := c + 1;
      }
      assert c == tagLength;
      tagLength := tagLength - 1;
      ghost var left: OpenTags := open[..at] + open[at + 1..];
      forall i | 0 <= i < tagLength ensures tags[i] == left[i] {
        if i < at {
          assert tags[..at][i] == before[..at][i];
        }
      }
      assert tags[..tagLength] == left;
      WithoutIs(open, tag);
      return true;
    }

    /** The closing tags, from the terminating NUL down to the first letter. */
    method PrintClosingTags() returns (text: string)
      requires Valid()
      ensures text == ClosingTags(Open())
    {
      text := "";
      ghost var open := Open();
      var i := tagLength;
      assert open[..tagLength] == open && "" + ClosingTags(open) == ClosingTags(open);
      while i >= 0
        invariant -1 <= i <= tagLength
        invariant text + ClosingTags(open[..if i == tagLength then i else i + 1]) == ClosingTags(open)
        decreases i + 1
      {
        if i < tagLength {
          ClosingUnfold(open, i);
        }
        text := EmitClosing(text, tags[i], if i < tagLength then ClosingTags(open[..i]) else "");
        i := i - 1;
      }
      assert text + "" == text;
    }
  }

  /** One turn of the switch: nothing is written for the terminating NUL. */
  method EmitClosing(text: string, tag: char, ghost rest: string) returns (out: string)
    requires tag in {'b', 'i', 'e', 's', '\0'}
    ensures tag == '\0' ==> out == text
    ensures tag != '\0' ==> out == text + ClosingTag(tag)
    ensures tag != '\0' ==> out + rest == text + (ClosingTag(tag) + rest)
  {
    match tag {
      case 'b' => out := text + "</b>";
      case 'i' => out := text + "</i>";
      case 'e' => out := text + "</em>";
      case 's' => out := text + "</span>";
      case _ => out := text;
    }
    assert tag != '\0' ==> text + ClosingTag(tag) + rest == text + (ClosingTag(tag) + rest);
  }

  method HasAt(s: string, pos: nat, t: string) returns (has: bool)
    requires pos <= |s|
    ensures has == Has(s[pos..], t)
  {
    has := |s| - pos >= |t| && s[pos..pos + |t|] == t;
  }

  /** The first kinds of tag, those that open. */
  method LetOpen(s: string, pos: nat, unclosed: UnclosedSnippetTags, t: string, tag: Tag) returns (ok: bool)
    requires pos <= |s| && unclosed.Valid()
    modifies unclosed`tagLength, unclosed.tags
    ensures unclosed.Valid() && ok == (Has(s[pos..], t) && tag !in old(unclosed.Open()))
    ensures unclosed.Open() == if ok then old(unclosed.Open()) + [tag] else old(unclosed.Open())
  {
    ok := HasAt(s, pos, t);
    if ok {
      ok := unclosed.MaybeAdd(tag);
    }
  }

  method LetClose(s: string, pos: nat, unclosed: UnclosedSnippetTags, t: string, tag: Tag) returns (ok: bool)
    requires pos <= |s| && unclosed.Valid()
    modifies unclosed`tagLength, unclosed.tags
    ensures unclosed.Valid() && ok == (Has(s[pos..], t) && tag in old(unclosed.Open()))
    ensures unclosed.Open() == if ok then Without(old(unclosed.Open()), tag) else old(unclosed.Open())
  {
    ok := HasAt(s, pos, t);
    if ok {
      ghost var open := unclosed.Open();
      ok := unclosed.MaybeRemove(tag);
      if !ok {
        WithoutAbsent(open, tag);
      }
    }
  }

  /** The length of the permitted tag at pos, or 0. */
  method LetThrough(s: string, pos: nat, unclosed: UnclosedSnippetTags) returns (n: nat)
    requires pos < |s| && unclosed.Valid()
    modifies unclosed`tagLength, unclosed.tags
    ensures unclosed.Valid()
    ensures var step := TagStep(s[pos..], old(unclosed.Open()));
      unclosed.Open() == step.open && n == if step.length > 1 then step.length else 0
  {
    hide Has, Without;
    var ok := LetOpen(s, pos, unclosed, "<b>", 'b');
    if ok { return 3; }
    ok := LetOpen(s, pos, unclosed, "<i>", 'i');
    if ok { return 3; }
    ok := LetOpen(s, pos, unclosed, "<em>", 'e');
    if ok { return 4; }
    ok := LetOpen(s, pos, unclosed, "<span dir=ltr>", 's');
    if ok { return 14; }
    ok := LetOpen(s, pos, unclosed, "<span dir=rtl>", 's');
    if ok { return 14; }
    ok := LetClose(s, pos, unclosed, "</b>", 'b');
    if ok { return 4; }
    ok := LetClose(s, pos, unclosed, "</i>", 'i');
    if ok { return 4; }
    ok := LetClose(s, pos, unclosed, "</em>", 'e');
    if ok { return 5; }
    ok := LetClose(s, pos, unclosed, "</span>", 's');
    if ok { return 7; }
    ok := HasAt(s, pos, "<br>");
    if ok { return 4; }
    ok := HasAt(s, pos, "<wbr>");
    if ok { return 5; }
    return 0;
  }

  /** A tag let through is left as it is. */
  lemma TagIsKept(s: string, open: OpenTags)
    requires s != ""
    ensures var step := TagStep(s, open);
      if step.length > 1 then step.text == s[..step.length] else step == Step("&lt;", 1, open)
  {
  }

  /** All that is written: what has been, then the run, then what becomes of the rest. */
  ghost predicate SoFar(total: string, s: string, out: string, start: nat, pos: nat, open: OpenTags)
    requires start <= pos <= |s|
  {
    total == out + s[start..pos] + Escape(s[pos..], open)
  }

  lemma Kept(total: string, s: string, out: string, start: nat, pos: nat, open: OpenTags)
    requires start <= pos < |s| && SoFar(total, s, out, start, pos, open)
    requires var step := EscapeStep(s[pos..], open); step.text == s[pos..][..step.length]
    ensures var step := EscapeStep(s[pos..], open); SoFar(total, s, out, start, pos + step.length, step.open)
  {
    hide EscapeStep;
    var step := EscapeStep(s[pos..], open);
    var next := pos + step.length;
    assert s[pos..][step.length..] == s[next..] && s[start..next] == s[start..pos] + step.text;
  }

  lemma Replaced(total: string, s: string, out: string, start: nat, pos: nat, open: OpenTags)
    requires start <= pos < |s| && SoFar(total, s, out, start, pos, open) && EscapeStep(s[pos..], open).length == 1
    ensures var step := EscapeStep(s[pos..], open);
      SoFar(total, s, out + s[start..pos] + step.text, pos + 1, pos + 1, step.open)
  {
    hide EscapeStep;
    var step := EscapeStep(s[pos..], open);
    assert s[pos..][1..] == s[pos + 1..] && s[pos + 1..pos + 1] == "";
    assert out + s[start..pos] + step.text + "" == out + s[start..pos] + step.text;
  }

  lemma Start(s: string)
    ensures SoFar(Escape(s, []), s, "", 0, 0, [])
  {
    assert s[0..] == s && s[0..0] == "" && "" + "" + Escape(s, []) == Escape(s, []);
  }

  lemma End(total: string, s: string, out: string, start: nat, open: OpenTags)
    requires start <= |s| && SoFar(total, s, out, start, |s|, open)
    ensures total == out + s[start..|s|] + ClosingTags(open)
  {
  }

  /** What is written for one character that is no tag, or nothing when it stays in the run. */
  method EntityAt(s: string, pos: nat) returns (text: string)
    requires pos < |s| && s[pos] != '<'
    ensures forall open: OpenTags :: EscapeStep(s[pos..], open) == Step(if text == "" then [s[pos]] else text, 1, open)
  {
    match s[pos] {
      case '&' =>
        if pos + 1 < |s| && s[pos + 1] == '{' {
          text := "&amp;";
        } else {
          text := "&";
        }
        assert |s[pos..]| > 1 ==> s[pos..][1] == s[pos + 1];
      case '"' => text := "&quot;";
      case '\'' => text := "&#39;";
      case '>' => text := "&gt;";
      case c => text := if '\t' <= c <= '\r' then " " else "";
    }
    assert s[pos..][0] == s[pos];
  }

  /** SnippetEscape::Modify. */
  method Modify(s: string) returns (out: string)
    ensures out == Escape(s, [])
    ensures IsSnippet(out, {})
  {
    hide Escape, EscapeStep, TagStep, SoFar, Distinct;
    ghost var total := Escape(s, []);
    var unclosed := new UnclosedSnippetTags();
    out := "";
    var pos: nat, start: nat := 0, 0;
    Start(s);
    while pos < |s|
      invariant start <= pos <= |s| && unclosed.Valid() && fresh(unclosed) && fresh(unclosed.tags)
      invariant SoFar(total, s, out, start, pos, unclosed.Open())
      decreases |s| - pos
    {
      ghost var open := unclosed.Open();
      var n, text := 1, "";
      if s[pos] == '<' {
        TagAtStart(s[pos..], open);
        n := LetThrough(s, pos, unclosed);
        if n == 0 {
          n, text := 1, "&lt;";
        }
      } else {
        text := EntityAt(s, pos);
      }
      if text == "" {
        assert s[pos..][..1] == [s[pos]];
        Kept(total, s, out, start, pos, open);
        pos := pos + n;
      } else {
        Replaced(total, s, out, start, pos, open);
        out := out + s[start..pos];
        out := out + text;
        pos := pos + 1;
        start := pos;
      }
    }
    End(total, s, out, start, unclosed.Open());
    out := out + s[start..pos];
    var closing := unclosed.PrintClosingTags();
    out := out + closing;
    Balanced(s);
  }

  lemma TagAtStart(s: string, open: OpenTags)
    requires s != "" && s[0] == '<'
    ensures EscapeStep(s, open) == TagStep(s, open)
    ensures var step := TagStep(s, open);
      if step.length > 1 then step.text == s[..step.length] else step == Step("&lt;", 1, open)
  {
    TagIsKept(s, open);
  }

  lemma Balanced(s: string)
    ensures IsSnippet(Escape(s, []), {})
  {
    EscapeIsSnippet(s, []);
    assert Tags([]) == {};
  }
}
