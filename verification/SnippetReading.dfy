module SnippetReading {
  // What an escaped snippet means to a reader of HTML (template_modifiers.cc, SnippetEscape): the
  // text is that of the input, the tags are the permitted ones of the input that keep the balance,
  // and the tags left open are closed at the end, the last opened first.

  import opened Wrappers
  import opened SnippetEscapes
  import opened Strings

  // ----- a reader of text -----

  datatype Unit = Unit(c: char, length: nat)

  /** One character of text: an entity or a character as it stands. */
  function FirstUnit(t: string): (r: Unit)
    requires t != ""
    ensures 1 <= r.length <= |t|
  {
    if "&lt;" <= t then Unit('<', 4)
    else if "&gt;" <= t then Unit('>', 4)
    else if "&amp;" <= t then Unit('&', 5)
    else if "&quot;" <= t then Unit('"', 6)
    else if "&#39;" <= t then Unit('\'', 5)
    else Unit(t[0], 1)
  }

  function Decode(t: string): string
    decreases |t|
  {
    if t == "" then "" else [FirstUnit(t).c] + Decode(t[FirstUnit(t).length..])
  }

  /** White space other than a space becomes a space. */
  function Blank(s: string): (r: string)
    ensures |r| == |s|
    ensures forall i :: 0 <= i < |s| ==> r[i] == if '\t' <= s[i] <= '\r' then ' ' else s[i]
  {
    if s == "" then "" else [if '\t' <= s[0] <= '\r' then ' ' else s[0]] + Blank(s[1..])
  }

  // ----- a reader of tags -----

  predicate Fits(event: Event, open: OpenTags) {
    match event
    case Open(x) => x !in open
    case Close(x) => x in open
    case Void => true
  }

  /** The tags open after one that fits. */
  function After(event: Event, open: OpenTags): OpenTags {
    match event
    case Open(x) => open + [x]
    case Close(x) => Without(open, x)
    case Void => open
  }

  /** A permitted tag that keeps the balance stands at the start. */
  predicate TagHere(s: string, open: OpenTags) {
    && s != "" && s[0] == '<'
    && EventOf(s[..TagEnd(s)]).Some? && Fits(EventOf(s[..TagEnd(s)]).value, open)
  }

  /** The tags of the input that keep the balance, in order. */
  function KeptTags(s: string, open: OpenTags): seq<string>
    decreases |s|
  {
    if s == "" then []
    else if TagHere(s, open) then
      var n := TagEnd(s);
      [s[..n]] + KeptTags(s[n..], After(EventOf(s[..n]).value, open))
    else KeptTags(s[1..], open)
  }

  /** The tags open after all of the input. */
  function LeftOpen(s: string, open: OpenTags): OpenTags
    decreases |s|
  {
    if s == "" then open
    else if TagHere(s, open) then
      var n := TagEnd(s);
      LeftOpen(s[n..], After(EventOf(s[..n]).value, open))
    else LeftOpen(s[1..], open)
  }

  /** What stands between '<' and '>' in a text, in order, with both. */
  function TagsIn(t: string): seq<string>
    decreases |t|
  {
    if t == "" then []
    else if t[0] == '<' then [t[..TagEnd(t)]] + TagsIn(t[TagEnd(t)..])
    else TagsIn(t[1..])
  }

  // ----- the escaping of one piece -----

  lemma HasTag(s: string, tag: string)
    requires EventOf(tag).Some? && s != ""
    ensures Has(s, tag) <==> s[..TagEnd(s)] == tag
  {
    hide EventOf;
    EventsAreTags(tag);
    if Has(s, tag) {
      assert s == tag + s[|tag|..];
      TagEndIs(tag, s[|tag|..]);
    }
  }

  /** A tag is let through exactly when it is permitted and keeps the balance. */
  lemma TagStepExactly(s: string, open: OpenTags)
    requires s != "" && s[0] == '<'
    ensures TagStep(s, open) ==
      if TagHere(s, open) then Step(s[..TagEnd(s)], TagEnd(s), After(EventOf(s[..TagEnd(s)]).value, open))
      else Step("&lt;", 1, open)
  {
    hide Has, Without;
    TagEvents();
    HasTag(s, "<b>");
    HasTag(s, "<i>");
    HasTag(s, "<em>");
    HasTag(s, "<span dir=ltr>");
    HasTag(s, "<span dir=rtl>");
    HasTag(s, "</b>");
    HasTag(s, "</i>");
    HasTag(s, "</em>");
    HasTag(s, "</span>");
    HasTag(s, "<br>");
    HasTag(s, "<wbr>");
  }

  // ----- text that no entity touches -----

  predicate PlainChar(c: char) {
    c !in {'<', '>', '&', '"', '\'', ' ', '{'} && !('\t' <= c <= '\r')
  }

  predicate Plain(x: string) {
    forall i :: 0 <= i < |x| ==> PlainChar(x[i])
  }

  lemma PlainStep(s: string, open: OpenTags)
    requires s != "" && PlainChar(s[0])
    ensures EscapeStep(s, open) == Step([s[0]], 1, open)
  {
  }

  lemma {:induction false} PlainPasses(x: string, s: string, open: OpenTags)
    requires Plain(x) && x <= s
    ensures Escape(s, open) == x + Escape(s[|x|..], open)
  {
    hide EscapeStep;
    if x == "" {
      assert s[0..] == s;
    } else {
      assert x[0] == s[0];
      PlainStep(s, open);
      PlainPasses(x[1..], s[1..], open);
      assert s[1..][|x[1..]|..] == s[|x|..];
      assert x == [x[0]] + x[1..];
      Associate([x[0]], x[1..], Escape(s[|x|..], open));
    }
  }

  /** Only a plain character of the input is written as one. */
  lemma PlainCameFromStep(s: string, open: OpenTags)
    requires Escape(s, open) != "" && PlainChar(Escape(s, open)[0])
    ensures s != "" && s[0] == Escape(s, open)[0] && Escape(s, open)[1..] == Escape(s[1..], open)
  {
    if s != "" {
      var step := EscapeStep(s, open);
      FirstOfStep(s, open);
      assert Escape(s, open)[0] == step.text[0];
      assert step.text == [s[0]];
    }
  }

  lemma {:induction false} PlainCameFromInput(x: string, s: string, open: OpenTags)
    requires Plain(x) && x <= Escape(s, open)
    ensures x <= s
  {
    hide EscapeStep, Escape, PlainChar;
    if x != "" {
      assert x[0] == Escape(s, open)[0];
      PlainCameFromStep(s, open);
      assert x[1..] <= Escape(s, open)[1..];
      PlainCameFromInput(x[1..], s[1..], open);
    }
  }

  lemma FirstOfStep(s: string, open: OpenTags)
    requires s != ""
    ensures var step := EscapeStep(s, open);
      step.text != "" && (PlainChar(step.text[0]) ==> step == Step([s[0]], 1, open))
  {
    hide Has;
  }

  // ----- reading text with and without entities -----

  lemma OtherUnit(t: string)
    requires t != "" && t[0] != '&'
    ensures FirstUnit(t) == Unit(t[0], 1)
  {
  }

  lemma {:induction false} DecodeUntouched(p: string, rest: string)
    requires '&' !in p
    ensures Decode(p + rest) == p + Decode(rest)
  {
    hide FirstUnit;
    if p == "" {
      assert p + rest == rest;
    } else {
      var t := p + rest;
      assert t[0] == p[0] && t[1..] == p[1..] + rest;
      OtherUnit(t);
      DecodeUntouched(p[1..], rest);
      assert p == [p[0]] + p[1..];
      Associate([p[0]], p[1..], Decode(rest));
    }
  }

  /** The entities. */
  predicate IsEntity(e: string) {
    e == "&lt;" || e == "&gt;" || e == "&amp;" || e == "&quot;" || e == "&#39;"
  }

  lemma EntityIs(t: string, e: string)
    requires IsEntity(e) && e <= t
    ensures FirstUnit(t).length == |e| > 1 && FirstUnit(t) == FirstUnit(e)
    ensures e[0] == '&' && Plain(e[1..])
  {
    assert t[..|e|] == e && t[1] == e[1];
  }

  lemma NoEntityIs(t: string)
    requires t != "" && FirstUnit(t).length > 1
    ensures IsEntity(t[..FirstUnit(t).length])
  {
  }

  /** An entity of the input is passed on, and is read as it was. */
  lemma EntityPasses(s: string, e: string, open: OpenTags)
    requires IsEntity(e) && e <= s
    ensures Escape(s, open) == e + Escape(s[|e|..], open)
    ensures Decode(Escape(s, open)) == [FirstUnit(e).c] + Decode(Escape(s[|e|..], open))
  {
    hide FirstUnit, IsEntity;
    EntityIs(s, e);
    var rest := Escape(s[|e|..], open);
    assert s[1..][|e[1..]|..] == s[|e|..] && e[1..] <= s[1..];
    PlainPasses(e[1..], s[1..], open);
    assert s[..|e|] == e && e[1..][0] == e[1] == s[1];
    assert e == "&" + e[1..];
    Associate("&", e[1..], rest);
    assert e <= e + rest && (e + rest)[|e|..] == rest;
    EntityIs(e + rest, e);
  }

  lemma BlankPrefix(s: string, e: string)
    requires forall i :: 0 <= i < |e| ==> e[i] != ' ' && !('\t' <= e[i] <= '\r')
    ensures e <= Blank(s) <==> e <= s
  {
    if e <= Blank(s) {
      assert forall i :: 0 <= i < |e| ==> e[i] == Blank(s)[i];
    }
    if e <= s {
      assert forall i :: 0 <= i < |e| ==> e[i] == s[i];
    }
  }

  lemma EntityInBlank(s: string, e: string)
    requires IsEntity(e)
    ensures e <= Blank(s) <==> e <= s
  {
    EntityIs(e, e);
    assert forall i :: 1 <= i < |e| ==> e[i] == e[1..][i - 1];
    BlankPrefix(s, e);
  }

  lemma BlankRest(s: string, n: nat)
    requires n <= |s|
    ensures Blank(s)[n..] == Blank(s[n..])
  {
    hide Blank;
    assert forall i :: 0 <= i < |s| - n ==> Blank(s)[n..][i] == Blank(s)[n + i] && s[n..][i] == s[n + i];
  }

  lemma EntityCameFromInput(s: string, e: string, open: OpenTags)
    requires IsEntity(e) && e <= "&" + Escape(s, open)
    ensures e <= "&" + s
  {
    hide FirstUnit, IsEntity, Escape;
    var t := "&" + Escape(s, open);
    EntityIs(t, e);
    assert e[1..] <= t[1..] == Escape(s, open);
    PlainCameFromInput(e[1..], s, open);
    assert e == "&" + e[1..];
  }

  /** An ampersand before what is written for s begins an entity only where one stands in the input. */
  lemma NoNewEntity(s: string, open: OpenTags)
    requires forall e :: IsEntity(e) ==> !(e <= "&" + s)
    ensures Decode("&" + Escape(s, open)) == "&" + Decode(Escape(s, open))
  {
    hide FirstUnit, IsEntity, Escape, Plain;
    var t := "&" + Escape(s, open);
    assert t[0] == '&' && t[1..] == Escape(s, open);
    if FirstUnit(t).length > 1 {
      NoEntityIs(t);
      EntityCameFromInput(s, t[..FirstUnit(t).length], open);
    } else {
      UnitOfOne(t);
    }
  }

  lemma UnitOfOne(t: string)
    requires t != "" && FirstUnit(t).length == 1
    ensures FirstUnit(t).c == t[0]
  {
  }

  /** An ampersand that begins no entity is read as one after escaping as well. */
  lemma AmpersandPasses(s: string, open: OpenTags)
    requires s != "" && s[0] == '&' && forall e :: IsEntity(e) ==> !(e <= s)
    ensures Decode(Escape(s, open)) == "&" + Decode(Escape(s[1..], open))
  {
    hide FirstUnit, IsEntity;
    var rest := Escape(s[1..], open);
    assert s == "&" + s[1..];
    NoNewEntity(s[1..], open);
    if |s| > 1 && s[1] == '{' {
      var t := "&amp;" + rest;
      assert Escape(s, open) == t && t[5..] == rest;
      AmpIsEntity(t);
    }
  }

  lemma AmpIsEntity(t: string)
    requires "&amp;" <= t
    ensures FirstUnit(t) == Unit('&', 5)
  {
    EntityIs(t, "&amp;");
  }

  lemma {:induction false} ClosingHasNoAmpersand(open: OpenTags)
    ensures '&' !in ClosingTags(open)
  {
    if open != [] {
      ClosingHasNoAmpersand(open[..|open| - 1]);
    }
  }

  // ----- the meaning of the output -----

  /** What a written entity is read as. */
  lemma WrittenEntity(s: string, open: OpenTags)
    requires s != "" && (s[0] == '"' || s[0] == '\'' || s[0] == '>' || (s[0] == '<' && !TagHere(s, open)))
    ensures Decode(Escape(s, open)) == [s[0]] + Decode(Escape(s[1..], open))
  {
    var e := EscapeStep(s, open).text;
    if s[0] == '<' {
      TagStepExactly(s, open);
    }
    UnitsOfEntities();
    WrittenAs(s[0], e, Escape(s[1..], open));
  }

  lemma UnitsOfEntities()
    ensures FirstUnit("&lt;").c == '<' && FirstUnit("&gt;").c == '>'
    ensures FirstUnit("&quot;").c == '"' && FirstUnit("&#39;").c == '\''
  {
    assert "&lt;"[1] == 'l' && "&gt;"[1] == 'g' && "&quot;"[1] == 'q' && "&#39;"[1] == '#' && "&amp;"[1] == 'a';
  }

  lemma WrittenAs(c: char, e: string, rest: string)
    requires IsEntity(e) && FirstUnit(e).c == c
    ensures Decode(e + rest) == [c] + Decode(rest)
  {
    hide FirstUnit, IsEntity;
    EntityIs(e + rest, e);
    assert (e + rest)[|e|..] == rest;
  }

  lemma OtherPasses(s: string, open: OpenTags)
    requires s != "" && s[0] !in {'<', '>', '&', '"', '\''}
    ensures Decode(Escape(s, open)) == [Blank(s)[0]] + Decode(Escape(s[1..], open))
  {
    assert EscapeStep(s, open) == Step([Blank(s)[0]], 1, open);
    DecodeUntouched([Blank(s)[0]], Escape(s[1..], open));
  }

  lemma TagPasses(s: string, open: OpenTags)
    requires TagHere(s, open)
    ensures var n := TagEnd(s);
      && EventOf(s[..n]).Some? && LeftOpen(s, open) == LeftOpen(s[n..], After(EventOf(s[..n]).value, open))
      && Escape(s, open) == s[..n] + Escape(s[n..], After(EventOf(s[..n]).value, open))
      && Decode(Escape(s, open)) == s[..n] + Decode(Escape(s[n..], After(EventOf(s[..n]).value, open)))
      && Decode(Blank(s)) == s[..n] + Decode(Blank(s[n..]))
  {
    hide EventOf, TagEnd, Fits, After;
    TagStepExactly(s, open);
    var n := TagEnd(s);
    TagIsBlank(s[..n]);
    assert Blank(s) == s[..n] + Blank(s[n..]);
    DecodeUntouched(s[..n], Escape(s[n..], After(EventOf(s[..n]).value, open)));
    DecodeUntouched(s[..n], Blank(s[n..]));
  }

  lemma TagIsBlank(tag: string)
    requires EventOf(tag).Some?
    ensures '&' !in tag && Blank(tag) == tag
  {
    hide Blank;
    assert forall i :: 0 <= i < |tag| ==> tag[i] != '&' && !('\t' <= tag[i] <= '\r');
  }

  lemma {:induction false} LeftOpenSkips(x: string, s: string, open: OpenTags)
    requires x <= s && '<' !in x
    ensures LeftOpen(s, open) == LeftOpen(s[|x|..], open)
  {
    if x == "" {
      assert s[0..] == s;
    } else {
      assert x[0] == s[0];
      LeftOpenSkips(x[1..], s[1..], open);
      assert s[1..][|x[1..]|..] == s[|x|..];
    }
  }

  lemma EntityReadsAsInput(s: string, e: string, open: OpenTags)
    requires IsEntity(e) && e <= s
    ensures |e| > 0 && Decode(Escape(s, open)) == [FirstUnit(e).c] + Decode(Escape(s[|e|..], open))
    ensures Decode(Blank(s)) == [FirstUnit(e).c] + Decode(Blank(s[|e|..]))
    ensures LeftOpen(s, open) == LeftOpen(s[|e|..], open)
  {
    hide FirstUnit, IsEntity, Escape;
    EntityIs(s, e);
    EntityPasses(s, e, open);
    EntityInBlank(s, e);
    EntityIs(Blank(s), e);
    BlankRest(s, |e|);
    assert forall i :: 1 <= i < |e| ==> e[i] == e[1..][i - 1];
    LeftOpenSkips(e, s, open);
  }

  /** A character that begins neither an entity nor a tag that is let through. */
  lemma CharacterReadsAsInput(s: string, open: OpenTags)
    requires s != "" && !TagHere(s, open) && forall e :: IsEntity(e) ==> !(e <= s)
    ensures Decode(Escape(s, open)) == [Blank(s)[0]] + Decode(Escape(s[1..], open))
    ensures Decode(Blank(s)) == [Blank(s)[0]] + Decode(Blank(s[1..]))
    ensures LeftOpen(s, open) == LeftOpen(s[1..], open)
  {
    hide FirstUnit, IsEntity, Escape, TagHere;
    if s[0] == '&' {
      AmpersandPasses(s, open);
    } else if s[0] in {'<', '>', '"', '\''} {
      WrittenEntity(s, open);
    } else {
      OtherPasses(s, open);
    }
    BlankRest(s, 1);
    if FirstUnit(Blank(s)).length > 1 {
      NoEntityIs(Blank(s));
      EntityInBlank(s, Blank(s)[..FirstUnit(Blank(s)).length]);
    } else {
      UnitOfOne(Blank(s));
    }
  }

  /**
   The output means the input: read by a reader that decodes entities, it is the input read so,
   with blanks for white space, and then the closing tags of the tags left open.
   */
  lemma {:induction false} ReadsAsInput(s: string, open: OpenTags)
    ensures Decode(Escape(s, open)) == Decode(Blank(s)) + ClosingTags(LeftOpen(s, open))
    decreases |s|
  {
    hide FirstUnit, IsEntity, TagHere, EscapeStep, TagEnd, EventOf, After;
    if s == "" {
      ClosingHasNoAmpersand(open);
      DecodeUntouched(ClosingTags(open), "");
      assert ClosingTags(open) + "" == ClosingTags(open);
    } else if TagHere(s, open) {
      var n := TagEnd(s);
      TagPasses(s, open);
      var next := After(EventOf(s[..n]).value, open);
      ReadsAsInput(s[n..], next);
      Associate(s[..n], Decode(Blank(s[n..])), ClosingTags(LeftOpen(s[n..], next)));
    } else {
      if e :| IsEntity(e) && e <= s {
        EntityReadsAsInput(s, e, open);
        ReadsAsInput(s[|e|..], open);
        Associate([FirstUnit(e).c], Decode(Blank(s[|e|..])), ClosingTags(LeftOpen(s, open)));
      } else {
        CharacterReadsAsInput(s, open);
        ReadsAsInput(s[1..], open);
        Associate([Blank(s)[0]], Decode(Blank(s[1..])), ClosingTags(LeftOpen(s, open)));
      }
    }
  }

  lemma {:induction false} DecodeShortens(t: string)
    ensures |Decode(t)| <= |t|
  {
    hide FirstUnit;
    if t != "" {
      DecodeShortens(t[FirstUnit(t).length..]);
    }
  }

  /** Somewhere in t an entity begins. */
  ghost predicate HoldsEntity(t: string) {
    exists i, e :: 0 <= i <= |t| && IsEntity(e) && e <= t[i..]
  }

  lemma {:induction false} DecodeKeepsIff(t: string)
    ensures Decode(t) == t <==> !HoldsEntity(t)
    decreases |t|
  {
    hide FirstUnit, IsEntity;
    if t == "" {
      forall e | IsEntity(e) ensures e != "" { EntityIs(e, e); }
    } else if e :| IsEntity(e) && e <= t {
      EntityIs(t, e);
      DecodeShortens(t[|e|..]);
      assert t[0..] == t;
    } else {
      if FirstUnit(t).length > 1 {
        NoEntityIs(t);
      } else {
        UnitOfOne(t);
        DecodeKeepsIff(t[1..]);
        assert t == [t[0]] + t[1..];
        assert HoldsEntity(t) == HoldsEntity(t[1..]) by {
          assert forall i :: 0 < i <= |t| ==> t[i..] == t[1..][i - 1..];
        }
      }
    }
  }

  lemma BlankHoldsNoMore(s: string)
    ensures HoldsEntity(Blank(s)) == HoldsEntity(s)
  {
    hide IsEntity, Blank;
    forall i, e | 0 <= i <= |s| && IsEntity(e) ensures e <= Blank(s)[i..] <==> e <= s[i..] {
      BlankRest(s, i);
      EntityInBlank(s[i..], e);
    }
  }

  /** An input that holds no entity comes out as it was, but for white space and closing tags. */
  lemma KeepsTextIff(s: string)
    ensures Decode(Escape(s, [])) == Blank(s) + ClosingTags(LeftOpen(s, [])) <==> !HoldsEntity(s)
  {
    hide HoldsEntity, LeftOpen, ClosingTags, Escape, Decode;
    ReadsAsInput(s, []);
    DecodeKeepsIff(Blank(s));
    BlankHoldsNoMore(s);
    var closing := ClosingTags(LeftOpen(s, []));
    if Decode(Blank(s)) + closing == Blank(s) + closing {
      assert |Decode(Blank(s))| == |Blank(s)|;
      assert (Decode(Blank(s)) + closing)[..|s|] == Decode(Blank(s));
      assert (Blank(s) + closing)[..|s|] == Blank(s);
    }
  }

  // ----- the tags of the output -----

  lemma {:induction false} NoTagsIn(p: string, rest: string)
    requires '<' !in p
    ensures TagsIn(p + rest) == TagsIn(rest)
  {
    if p == "" {
      assert p + rest == rest;
    } else {
      assert (p + rest)[0] == p[0] && (p + rest)[1..] == p[1..] + rest;
      NoTagsIn(p[1..], rest);
    }
  }

  lemma NoTagsInNothing()
    ensures TagsIn("") == []
  {
  }

  lemma TagInFront(tag: string, rest: string)
    requires EventOf(tag).Some?
    ensures TagsIn(tag + rest) == [tag] + TagsIn(rest)
  {
    hide EventOf;
    EventsAreTags(tag);
    TagEndIs(tag, rest);
    var t := tag + rest;
    assert t[0] == '<' && t[..|tag|] == tag && t[|tag|..] == rest;
  }

  lemma StepWithoutTag(s: string, open: OpenTags)
    requires s != "" && !TagHere(s, open)
    ensures EscapeStep(s, open).length == 1 && EscapeStep(s, open).open == open && '<' !in EscapeStep(s, open).text
  {
    hide TagStep;
    if s[0] == '<' {
      TagStepExactly(s, open);
    }
  }

  lemma NothingKept(open: OpenTags)
    ensures KeptTags("", open) == [] && LeftOpen("", open) == open
  {
  }

  lemma KeptHere(s: string, open: OpenTags)
    requires TagHere(s, open)
    ensures var n := TagEnd(s);
      && EventOf(s[..n]).Some?
      && KeptTags(s, open) == [s[..n]] + KeptTags(s[n..], After(EventOf(s[..n]).value, open))
  {
    hide EventOf, TagEnd, After;
  }

  lemma NotKeptHere(s: string, open: OpenTags)
    requires s != "" && !TagHere(s, open)
    ensures KeptTags(s, open) == KeptTags(s[1..], open) && LeftOpen(s, open) == LeftOpen(s[1..], open)
  {
    hide TagHere;
  }

  /** The tags of the output are those of the input that keep the balance, and the closing ones. */
  lemma {:induction false} TagsLetThrough(s: string, open: OpenTags)
    ensures TagsIn(Escape(s, open)) == KeptTags(s, open) + TagsIn(ClosingTags(LeftOpen(s, open)))
    decreases |s|
  {
    hide TagHere, EscapeStep, TagEnd, EventOf, After, TagsIn, KeptTags, LeftOpen;
    if s == "" {
      NothingKept(open);
    } else if TagHere(s, open) {
      TagPasses(s, open);
      var n := TagEnd(s);
      var next := After(EventOf(s[..n]).value, open);
      TagsLetThrough(s[n..], next);
      TagInFront(s[..n], Escape(s[n..], next));
      KeptHere(s, open);
    } else {
      StepWithoutTag(s, open);
      NotKeptHere(s, open);
      TagsLetThrough(s[1..], open);
      NoTagsIn(EscapeStep(s, open).text, Escape(s[1..], open));
    }
  }

  /** One closing tag for each open one, the last opened first. */
  lemma {:induction false} ClosersInReverse(open: OpenTags)
    ensures |TagsIn(ClosingTags(open))| == |open|
    ensures forall i :: 0 <= i < |open| ==> EventOf(TagsIn(ClosingTags(open))[i]) == Some(Close(open[|open| - 1 - i]))
  {
    hide EventOf, TagsIn, ClosingTag;
    if open == [] {
      NoTagsInNothing();
    } else {
      var last, rest := open[|open| - 1], open[..|open| - 1];
      ClosersInReverse(rest);
      ClosingTagCloses(last);
      TagInFront(ClosingTag(last), ClosingTags(rest));
    }
  }

  lemma ClosingTagCloses(tag: Tag)
    ensures EventOf(ClosingTag(tag)) == Some(Close(tag))
  {
    hide EventOf;
    TagEvents();
  }
}
