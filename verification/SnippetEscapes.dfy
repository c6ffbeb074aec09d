/**
 Escaping a snippet that may hold a few harmless tags (template_modifiers.cc, SnippetEscape and
 UnclosedSnippetTags): each tag is let through only while that leaves it balanced.
 */
module SnippetEscapes {
  import opened Wrappers

  /** b, i, e for em, s for span: the letters the open tags are kept as. */
  type Tag = c: char | c in {'b', 'i', 'e', 's'} witness 'b'

  /** s goes on at i with t. */
  predicate Has(s: string, t: string) {
    t <= s
  }

  /** The open tags, the last opened last. */
  type OpenTags = seq<Tag>

  ghost predicate Distinct(open: OpenTags) {
    forall i, j :: 0 <= i < j < |open| ==> open[i] != open[j]
  }

  function Without(open: OpenTags, tag: Tag): OpenTags {
    if open == [] then []
    else if open[0] == tag then open[1..]
    else [open[0]] + Without(open[1..], tag)
  }

  /** What is written for the start of the input, how much of it that is, and the tags open then. */
  datatype Step = Step(text: string, length: nat, open: OpenTags)

  function OpenStep(text: string, open: OpenTags, tag: Tag): Step {
    Step(text, |text|, open + [tag])
  }

  function CloseStep(text: string, open: OpenTags, tag: Tag): Step {
    Step(text, |text|, Without(open, tag))
  }

  /** The case of '<': a permitted tag, or an entity. */
  function TagStep(s: string, open: OpenTags): (r: Step)
    requires s != ""
    ensures 1 <= r.length <= |s|
  {
    if Has(s, "<b>") && 'b' !in open then OpenStep("<b>", open, 'b')
    else if Has(s, "<i>") && 'i' !in open then OpenStep("<i>", open, 'i')
    else if Has(s, "<em>") && 'e' !in open then OpenStep("<em>", open, 'e')
    else if Has(s, "<span dir=ltr>") && 's' !in open then OpenStep("<span dir=ltr>", open, 's')
    else if Has(s, "<span dir=rtl>") && 's' !in open then OpenStep("<span dir=rtl>", open, 's')
    else if Has(s, "</b>") && 'b' in open then CloseStep("</b>", open, 'b')
    else if Has(s, "</i>") && 'i' in open then CloseStep("</i>", open, 'i')
    else if Has(s, "</em>") && 'e' in open then CloseStep("</em>", open, 'e')
    else if Has(s, "</span>") && 's' in open then CloseStep("</span>", open, 's')
    else if Has(s, "<br>") then Step("<br>", 4, open)
    else if Has(s, "<wbr>") then Step("<wbr>", 5, open)
    else Step("&lt;", 1, open)
  }

  function EscapeStep(s: string, open: OpenTags): (r: Step)
    requires s != ""
    ensures 1 <= r.length <= |s|
  {
    match s[0]
    case '<' => TagStep(s, open)
    case '&' => Step(if |s| > 1 && s[1] == '{' then "&amp;" else "&", 1, open)
    case '"' => Step("&quot;", 1, open)
    case '\'' => Step("&#39;", 1, open)
    case '>' => Step("&gt;", 1, open)
    case c => Step(if '\t' <= c <= '\r' then " " else [c], 1, open)
  }

  function ClosingTag(tag: Tag): string {
    if tag == 'b' then "</b>" else if tag == 'i' then "</i>" else if tag == 'e' then "</em>" else "</span>"
  }

  /** PrintClosingTags: the last opened first. */
  function ClosingTags(open: OpenTags): string {
    if open == [] then "" else ClosingTag(open[|open| - 1]) + ClosingTags(open[..|open| - 1])
  }

  function Escape(s: string, open: OpenTags): string
    decreases |s|
  {
    if s == "" then ClosingTags(open)
    else
      var step := EscapeStep(s, open);
      step.text + Escape(s[step.length..], step.open)
  }

  // ----- what the output may hold -----

  datatype Event = Open(tag: Tag) | Close(tag: Tag) | Void

  /** The permitted tags. */
  function EventOf(tag: string): Option<Event> {
    if tag == "<b>" then Some(Open('b'))
    else if tag == "<i>" then Some(Open('i'))
    else if tag == "<em>" then Some(Open('e'))
    else if tag == "<span dir=ltr>" || tag == "<span dir=rtl>" then Some(Open('s'))
    else if tag == "</b>" then Some(Close('b'))
    else if tag == "</i>" then Some(Close('i'))
    else if tag == "</em>" then Some(Close('e'))
    else if tag == "</span>" then Some(Close('s'))
    else if tag == "<br>" || tag == "<wbr>" then Some(Void)
    else None
  }

  /** Past the first '>', or past the end. */
  function TagEnd(t: string): (n: nat)
    requires t != ""
    ensures 0 < n <= |t|
  {
    if t[0] == '>' || |t| == 1 then 1 else 1 + TagEnd(t[1..])
  }

  /**
   Every '<' begins a permitted tag; of each kind, tags open and close by turns, and none is
   open at the end.  Outside tags there are no quotes, no '>', no white space but spaces, and
   no ampersand before an opening brace.
   */
  predicate IsSnippet(t: string, open: set<Tag>)
    decreases |t|
  {
    if t == "" then open == {}
    else if t[0] == '<' then
      var n := TagEnd(t);
      match EventOf(t[..n])
      case None => false
      case Some(Open(tag)) => tag !in open && IsSnippet(t[n..], open + {tag})
      case Some(Close(tag)) => tag in open && IsSnippet(t[n..], open - {tag})
      case Some(Void) => IsSnippet(t[n..], open)
    else
      && t[0] !in {'>', '"', '\''} && !('\t' <= t[0] <= '\r')
      && (t[0] == '&' && |t| > 1 ==> t[1] != '{')
      && IsSnippet(t[1..], open)
  }

  function Tags(open: OpenTags): set<Tag> {
    set tag | tag in open
  }

  lemma {:induction false} TagEndIs(tag: string, rest: string)
    requires tag != "" && tag[|tag| - 1] == '>' && '>' !in tag[..|tag| - 1]
    ensures TagEnd(tag + rest) == |tag|
  {
    if |tag| > 1 {
      assert tag[0] == tag[..|tag| - 1][0];
      assert tag[1..][..|tag| - 2] == tag[..|tag| - 1][1..];
      TagEndIs(tag[1..], rest);
      assert (tag + rest)[1..] == tag[1..] + rest;
    }
  }

  lemma EventsAreTags(tag: string)
    requires EventOf(tag).Some?
    ensures tag != "" && tag[0] == '<' && tag[|tag| - 1] == '>' && '>' !in tag[..|tag| - 1]
  {
  }

  /** rest may follow a permitted tag. */
  predicate GoesOn(event: Event, rest: string, open: set<Tag>) {
    match event
    case Open(x) => x !in open && IsSnippet(rest, open + {x})
    case Close(x) => x in open && IsSnippet(rest, open - {x})
    case Void => IsSnippet(rest, open)
  }

  lemma TagIsSnippet(tag: string, rest: string, open: set<Tag>)
    requires EventOf(tag).Some?
    ensures IsSnippet(tag + rest, open) <==> GoesOn(EventOf(tag).value, rest, open)
  {
    hide EventOf;
    EventsAreTags(tag);
    TagEndIs(tag, rest);
    var t := tag + rest;
    assert t[0] == '<' && t[..|tag|] == tag && t[|tag|..] == rest;
  }

  lemma {:induction false} WithoutIs(open: OpenTags, tag: Tag)
    requires Distinct(open) && tag in open
    ensures Distinct(Without(open, tag)) && Tags(Without(open, tag)) == Tags(open) - {tag}
    ensures |Without(open, tag)| == |open| - 1
  {
    if open[0] == tag {
      assert forall i :: 0 <= i < |open[1..]| ==> open[1..][i] == open[i + 1];
    } else {
      var rest := open[1..];
      WithoutIs(rest, tag);
      assert open == [open[0]] + rest;
      forall x ensures x in Without(open, tag) <==> x in open && x != tag {
        assert x in Without(rest, tag) <==> x in Tags(Without(rest, tag));
      }
      forall i | 0 <= i < |Without(rest, tag)| ensures Without(rest, tag)[i] != open[0] {
        assert Without(rest, tag)[i] in Tags(Without(rest, tag));
      }
    }
  }

  /** The others stay in order. */
  lemma {:induction false} WithoutKeepsOrder(before: OpenTags, tag: Tag, after: OpenTags)
    requires tag !in before
    ensures Without(before + [tag] + after, tag) == before + after
  {
    var open := before + [tag] + after;
    if before == [] {
      assert open[0] == tag && open[1..] == after && before + after == after;
    } else {
      assert open[0] == before[0] && open[1..] == before[1..] + [tag] + after;
      WithoutKeepsOrder(before[1..], tag, after);
      assert [before[0]] + (before[1..] + after) == before + after;
    }
  }

  lemma {:induction false} ClosingIsSnippet(open: OpenTags)
    requires Distinct(open)
    ensures IsSnippet(ClosingTags(open), Tags(open))
  {
    if open == [] {
      assert Tags(open) == {};
    } else {
      var last, rest := open[|open| - 1], open[..|open| - 1];
      ClosingIsSnippet(rest);
      assert Tags(rest) == Tags(open) - {last};
      TagIsSnippet(ClosingTag(last), ClosingTags(rest), Tags(open));
    }
  }

  /** The text of a step that is no tag is plain. */
  lemma {:induction false} PlainIsSnippet(text: string, rest: string, open: set<Tag>)
    requires IsSnippet(rest, open)
    requires forall i :: 0 <= i < |text| ==> text[i] !in {'<', '>', '"', '\''} && !('\t' <= text[i] <= '\r')
    requires forall i :: 0 <= i < |text| && text[i] == '&' && i + 1 < |text + rest| ==> (text + rest)[i + 1] != '{'
    ensures IsSnippet(text + rest, open)
  {
    if text == "" {
      assert text + rest == rest;
    } else {
      var t := text + rest;
      assert t[1..] == text[1..] + rest && t[0] == text[0];
      forall i | 0 <= i < |text[1..]| && text[1..][i] == '&' && i + 1 < |text[1..] + rest|
        ensures (text[1..] + rest)[i + 1] != '{'
      {
        assert t[i + 2] == (text[1..] + rest)[i + 1];
      }
      PlainIsSnippet(text[1..], rest, open);
    }
  }

  lemma TagEvents()
    ensures EventOf("<b>") == Some(Open('b')) && EventOf("</b>") == Some(Close('b'))
    ensures EventOf("<i>") == Some(Open('i')) && EventOf("</i>") == Some(Close('i'))
    ensures EventOf("<em>") == Some(Open('e')) && EventOf("</em>") == Some(Close('e'))
    ensures EventOf("<span dir=ltr>") == Some(Open('s')) && EventOf("<span dir=rtl>") == Some(Open('s'))
    ensures EventOf("</span>") == Some(Close('s'))
    ensures EventOf("<br>") == Some(Void) && EventOf("<wbr>") == Some(Void) && EventOf("&lt;") == None
  {
  }

  /** A tag let through takes the open tags from one list to the next. */
  ghost predicate Balances(event: Event, open: OpenTags, next: OpenTags) {
    match event
    case Open(x) => x !in Tags(open) && Tags(next) == Tags(open) + {x}
    case Close(x) => x in Tags(open) && Tags(next) == Tags(open) - {x}
    case Void => next == open
  }

  /** A step that lets a tag through, or writes an entity. */
  ghost predicate IsTagStep(step: Step, open: OpenTags) {
    && Distinct(step.open)
    && if EventOf(step.text).Some? then Balances(EventOf(step.text).value, open, step.open)
       else step == Step("&lt;", 1, open)
  }

  lemma OpenStepIs(text: string, open: OpenTags, tag: Tag)
    requires Distinct(open) && tag !in open && EventOf(text) == Some(Open(tag))
    ensures IsTagStep(OpenStep(text, open, tag), open)
  {
    hide EventOf;
  }

  lemma CloseStepIs(text: string, open: OpenTags, tag: Tag)
    requires Distinct(open) && tag in open && EventOf(text) == Some(Close(tag))
    ensures IsTagStep(CloseStep(text, open, tag), open)
  {
    hide EventOf;
    WithoutIs(open, tag);
  }

  lemma OtherStepIs(text: string, open: OpenTags)
    requires Distinct(open) && (EventOf(text) == Some(Void) || (text == "&lt;" && EventOf(text) == None))
    ensures IsTagStep(Step(text, if text == "&lt;" then 1 else |text|, open), open)
  {
    hide EventOf;
  }

  lemma TagStepIs(s: string, open: OpenTags)
    requires s != "" && Distinct(open)
    ensures IsTagStep(TagStep(s, open), open)
  {
    hide EventOf, IsTagStep, Has, OpenStep, CloseStep, Distinct;
    TagEvents();
    if 'b' in open { CloseStepIs("</b>", open, 'b'); } else { OpenStepIs("<b>", open, 'b'); }
    if 'i' in open { CloseStepIs("</i>", open, 'i'); } else { OpenStepIs("<i>", open, 'i'); }
    if 'e' in open { CloseStepIs("</em>", open, 'e'); } else { OpenStepIs("<em>", open, 'e'); }
    if 's' in open { CloseStepIs("</span>", open, 's'); }
    else { OpenStepIs("<span dir=ltr>", open, 's'); OpenStepIs("<span dir=rtl>", open, 's'); }
    OtherStepIs("<br>", open);
    OtherStepIs("<wbr>", open);
    OtherStepIs("&lt;", open);
  }

  /** A step that starts with a brace passes one on. */
  lemma BraceStep(s: string, open: OpenTags)
    requires s != ""
    ensures var text := EscapeStep(s, open).text; text != "" && (text[0] == '{' ==> s[0] == '{')
  {
    hide Has;
  }

  /** An opening brace starts the output only where it starts the input. */
  lemma BraceIsRaw(s: string, open: OpenTags)
    requires Escape(s, open) != "" && Escape(s, open)[0] == '{'
    ensures s != "" && s[0] == '{'
  {
    hide EscapeStep;
    if s != "" {
      BraceStep(s, open);
    }
  }

  /** What is written for a character that is no tag. */
  lemma OtherStepIsPlain(s: string, open: OpenTags)
    requires s != "" && s[0] != '<'
    ensures var step := EscapeStep(s, open);
      && step.open == open && step.length == 1
      && (forall i :: 0 <= i < |step.text| ==>
            step.text[i] !in {'<', '>', '"', '\''} && !('\t' <= step.text[i] <= '\r'))
      && (forall i :: 0 <= i < |step.text| - 1 && step.text[i] == '&' ==> step.text[i + 1] != '{')
      && (step.text[|step.text| - 1..] == "&" ==> |s| == 1 || s[1] != '{')
  {
    assert |EscapeStep(s, open).text| == 1 ==> EscapeStep(s, open).text[0..] == EscapeStep(s, open).text;
  }

  lemma PlainStepIsSnippet(s: string, open: OpenTags, rest: string)
    requires s != "" && s[0] != '<' && IsSnippet(rest, Tags(open))
    requires rest != "" && rest[0] == '{' ==> |s| > 1 && s[1] == '{'
    ensures IsSnippet(EscapeStep(s, open).text + rest, Tags(open))
  {
    hide EscapeStep;
    OtherStepIsPlain(s, open);
    var text := EscapeStep(s, open).text;
    forall i | 0 <= i < |text| && text[i] == '&' && i + 1 < |text + rest| ensures (text + rest)[i + 1] != '{' {
      if i == |text| - 1 {
        assert text[i..] == "&" && (text + rest)[i + 1] == rest[0];
      }
    }
    PlainIsSnippet(text, rest, Tags(open));
  }

  /** Whatever comes in, the output is balanced and harmless. */
  lemma {:induction false} EscapeIsSnippet(s: string, open: OpenTags)
    requires Distinct(open)
    ensures IsSnippet(Escape(s, open), Tags(open))
    decreases |s|
  {
    hide TagStep, EventOf, IsSnippet;
    if s == "" {
      ClosingIsSnippet(open);
    } else if s[0] == '<' {
      var step := TagStep(s, open);
      var rest := Escape(s[step.length..], step.open);
      TagStepIs(s, open);
      EscapeIsSnippet(s[step.length..], step.open);
      if EventOf(step.text).Some? {
        TagIsSnippet(step.text, rest, Tags(open));
      } else {
        PlainIsSnippet("&lt;", rest, Tags(open));
      }
    } else {
      OtherStepIsPlain(s, open);
      var rest := Escape(s[1..], open);
      EscapeIsSnippet(s[1..], open);
      if rest != "" && rest[0] == '{' {
        BraceIsRaw(s[1..], open);
      }
      PlainStepIsSnippet(s, open, rest);
    }
  }
}
