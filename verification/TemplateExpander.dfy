/**
 Expansion as the source carries it out (template.cc): loops over nodes and dictionaries that
 write to an emitter, each proved to write what Expansion says.
 */
module TemplateExpander {
  import opened Wrappers
  import opened Strings
  import opened TemplateTokens
  import opened TemplateTrees
  import opened Dictionaries
  import opened Expansion
  import opened DictionaryMethods

  class ExpandEmitter {
    var text: string

    constructor ()
      ensures text == ""
    {
      text := "";
    }

    method Emit(s: string)
      modifies this
      ensures text == old(text) + s
    {
      text := text + s;
    }
  }

  /** What a call wrote after before, and returned, is the output r; it did not end when r is None. */
  ghost predicate Emitted(before: string, after: string, r: Option<Output>, ended: bool, ok: bool) {
    match r
    case None => !ended
    case Some(o) => ended && ok == o.ok && after == before + o.text
  }

  /** The calls of a loop so far wrote after before; rest is the output of those to come. */
  ghost predicate PartEmitted(before: string, after: string, ok: bool, total: Option<Output>, rest: Option<Output>) {
    if rest.None? then total.None?
    else exists o: Output :: after == before + o.text && ok == o.ok && total == Then(Some(o), rest)
  }

  lemma EmitsNothingYet(text: string, total: Option<Output>)
    ensures PartEmitted(text, text, true, total, total)
  {
    if total.Some? {
      var o := NOTHING;
      ThenNothing(total);
      assert text == text + o.text && total == Then(Some(o), total);
    }
  }

  lemma EmitsNext(before: string, mid: string, ok: bool, total: Option<Output>,
                  first: Option<Output>, rest: Option<Output>, after: string, ended: bool, ok1: bool)
    requires PartEmitted(before, mid, ok, total, Then(first, rest)) && Emitted(mid, after, first, ended, ok1)
    ensures if ended then PartEmitted(before, after, ok && ok1, total, rest) else total.None?
  {
    if first.Some? && rest.Some? {
      var o: Output :| mid == before + o.text && ok == o.ok && total == Then(Some(o), Then(first, rest));
      var p := Output(o.text + first.value.text, o.ok && first.value.ok);
      assert o.text + (first.value.text + rest.value.text) == p.text + rest.value.text;
      assert after == before + p.text && total == Then(Some(p), rest);
    }
  }

  lemma EmitsAll(before: string, after: string, ok: bool, total: Option<Output>)
    requires PartEmitted(before, after, ok, total, Some(NOTHING))
    ensures Emitted(before, after, total, true, ok)
  {
    var o: Output :| after == before + o.text && ok == o.ok && total == Then(Some(o), Some(NOTHING));
    assert o.text + "" == o.text;
  }

  lemma ThenNothing(a: Option<Output>)
    ensures Then(Some(NOTHING), a) == a && Then(a, Some(NOTHING)) == a
  {
    if a.Some? {
      assert "" + a.value.text == a.value.text && a.value.text + "" == a.value.text;
    }
  }

  function SeparatorFrom(sep: Option<nat>, i: nat): Option<nat> {
    if sep.Some? && sep.value >= i then Some(sep.value - i) else None
  }

  /** A node, and once more the separator section if it is the one and a separator is due. */
  function WithSeparator(env: Env, s: Store, fuel: nat, n: Node, separate: bool, d: nat): Option<Output>
    requires In(s, d) && (separate ==> n.SectionNode?)
  {
    Then(ExpandNode(env, s, fuel, n, d),
         if separate then ExpandOnce(env, s, fuel, n.name, n.children, d, true) else Some(NOTHING))
  }

  lemma OnceFromStart(env: Env, s: Store, fuel: nat, name: string, nodes: seq<Node>, d: nat, last: bool)
    requires In(s, d)
    ensures ExpandOnce(env, s, fuel, name, nodes, d, last) ==
      ExpandAll(env, s, fuel, nodes[0..], SeparatorFrom(Separator(name, nodes), 0), d, last)
  {
    assert nodes[0..] == nodes && SeparatorFrom(Separator(name, nodes), 0) == Separator(name, nodes);
  }

  lemma AllUnfold(env: Env, s: Store, fuel: nat, nodes: seq<Node>, sep: Option<nat>, d: nat, last: bool, i: nat)
    requires In(s, d) && i < |nodes| && (sep.Some? ==> sep.value < |nodes| && nodes[sep.value].SectionNode?)
    ensures ExpandAll(env, s, fuel, nodes[i..], SeparatorFrom(sep, i), d, last) ==
      Then(WithSeparator(env, s, fuel, nodes[i], sep == Some(i) && !last, d),
           ExpandAll(env, s, fuel, nodes[i + 1..], SeparatorFrom(sep, i + 1), d, last))
  {
    assert nodes[i..][1..] == nodes[i + 1..];
  }

  lemma NothingLeft(env: Env, s: Store, fuel: nat, nodes: seq<Node>, sep: Option<nat>, d: nat, last: bool)
    requires In(s, d) && (sep.Some? ==> sep.value < |nodes|)
    ensures ExpandAll(env, s, fuel, nodes[|nodes|..], SeparatorFrom(sep, |nodes|), d, last) == Some(NOTHING)
  {
    assert nodes[|nodes|..] == [];
  }

  /** TemplateNode::Expand; ended is false when inclusion went deeper than fuel. */
  method Expand(env: Env, dicts: TemplateDictionaries, fuel: nat, n: Node, d: nat, out: ExpandEmitter)
    returns (ended: bool, ok: bool)
    requires In(dicts.store, d) && env.globals == dicts.globals
    modifies out
    ensures Emitted(old(out.text), out.text, ExpandNode(env, dicts.store, fuel, n, d), ended, ok)
    decreases fuel, 1, n, 0
  {
    ended, ok := true, true;
    assert out.text == out.text + "";
    match n {
      case TextNode(text) =>
        out.Emit(text);
      case VariableNode(name, ms) =>
        var value := dicts.GetValue(d, name);
        if env.mightModify(ms) {
          value := env.applyModifiers(ms, value);
        }
        out.Emit(value);
      case PragmaNode(_) =>
      case SectionNode(name, children) =>
        var hidden := dicts.IsHiddenSection(d, name);
        if !hidden {
          SectionsAreIn(dicts.store, d, name);
          var ds := dicts.CreateSectionIterator(d, name);
          if |ds| == 0 {
            ended, ok := ExpandSectionOnce(env, dicts, fuel, name, children, d, true, out);
          } else {
            ended, ok := ExpandSectionEach(env, dicts, fuel, name, children, ds, out);
          }
        }
      case IncludeNode(name, ms, indent) =>
        var hidden := dicts.IsHiddenTemplate(d, name);
        if !hidden {
          IncludesAreIn(dicts.store, d, name);
          var ds := dicts.CreateTemplateIterator(d, name);
          ended, ok := ExpandIncludes(env, dicts, fuel, ms, indent, ds, out);
        }
    }
  }

  method ExpandNext(env: Env, dicts: TemplateDictionaries, fuel: nat, n: Node, separate: bool, d: nat,
                    out: ExpandEmitter) returns (ended: bool, ok: bool)
    requires In(dicts.store, d) && env.globals == dicts.globals && (separate ==> n.SectionNode?)
    modifies out
    ensures Emitted(old(out.text), out.text, WithSeparator(env, dicts.store, fuel, n, separate, d), ended, ok)
    decreases fuel, 1, n, 1
  {
    ghost var s, before := dicts.store, out.text;
    ended, ok := Expand(env, dicts, fuel, n, d, out);
    ThenNothing(ExpandNode(env, s, fuel, n, d));
    if ended && separate {
      ghost var mid, first := out.text, ExpandNode(env, s, fuel, n, d);
      var ok1;
      ended, ok1 := ExpandSectionOnce(env, dicts, fuel, n.name, n.children, d, true, out);
      ok := ok && ok1;
    }
  }

  /** SectionTemplateNode::ExpandOnce. */
  method ExpandSectionOnce(env: Env, dicts: TemplateDictionaries, fuel: nat, name: string, nodes: seq<Node>, d: nat,
                           last: bool, out: ExpandEmitter) returns (ended: bool, ok: bool)
    requires In(dicts.store, d) && env.globals == dicts.globals
    modifies out
    ensures Emitted(old(out.text), out.text, ExpandOnce(env, dicts.store, fuel, name, nodes, d, last), ended, ok)
    decreases fuel, 1, nodes, 1
  {
    hide WithSeparator, PartEmitted, Then, ExpandAll, ExpandOnce, ExpandNode;
    ghost var s, before := dicts.store, out.text;
    ghost var total := ExpandOnce(env, s, fuel, name, nodes, d, last);
    var sep := Separator(name, nodes);
    ended, ok := true, true;
    EmitsNothingYet(before, total);
    OnceFromStart(env, s, fuel, name, nodes, d, last);
    for i := 0 to |nodes|
      invariant PartEmitted(before, out.text, ok, total,
                            ExpandAll(env, s, fuel, nodes[i..], SeparatorFrom(sep, i), d, last))
    {
      AllUnfold(env, s, fuel, nodes, sep, d, last, i);
      ghost var mid := out.text;
      var ok1;
      ended, ok1 := ExpandNext(env, dicts, fuel, nodes[i], sep == Some(i) && !last, d, out);
      EmitsNext(before, mid, ok, total, WithSeparator(env, s, fuel, nodes[i], sep == Some(i) && !last, d),
                ExpandAll(env, s, fuel, nodes[i + 1..], SeparatorFrom(sep, i + 1), d, last), out.text, ended, ok1);
      if !ended {
        return;
      }
      ok := ok && ok1;
    }
    NothingLeft(env, s, fuel, nodes, sep, d, last);
    EmitsAll(before, out.text, ok, total);
  }

  method ExpandSectionEach(env: Env, dicts: TemplateDictionaries, fuel: nat, name: string, nodes: seq<Node>,
                           ds: seq<nat>, out: ExpandEmitter) returns (ended: bool, ok: bool)
    requires env.globals == dicts.globals && forall i :: 0 <= i < |ds| ==> In(dicts.store, ds[i])
    modifies out
    ensures Emitted(old(out.text), out.text, ExpandEach(env, dicts.store, fuel, name, nodes, ds), ended, ok)
    decreases fuel, 1, nodes, 2
  {
    ghost var s, before := dicts.store, out.text;
    ghost var total := ExpandEach(env, s, fuel, name, nodes, ds);
    ended, ok := true, true;
    EmitsNothingYet(before, total);
    assert ds[0..] == ds;
    for i := 0 to |ds|
      invariant PartEmitted(before, out.text, ok, total, ExpandEach(env, s, fuel, name, nodes, ds[i..]))
    {
      assert ds[i..][1..] == ds[i + 1..];
      ghost var mid := out.text;
      var ok1;
      ended, ok1 := ExpandSectionOnce(env, dicts, fuel, name, nodes, ds[i], i + 1 == |ds|, out);
      EmitsNext(before, mid, ok, total, ExpandOnce(env, s, fuel, name, nodes, ds[i], i + 1 == |ds|),
                ExpandEach(env, s, fuel, name, nodes, ds[i + 1..]), out.text, ended, ok1);
      if !ended {
        return;
      }
      ok := ok && ok1;
    }
    EmitsAll(before, out.text, ok, total);
  }

  /** Template::ExpandLocked, reached by way of the cache. */
  method ExpandFile(env: Env, dicts: TemplateDictionaries, fuel: nat, filename: string, d: nat, out: ExpandEmitter)
    returns (ended: bool, ok: bool)
    requires In(dicts.store, d) && env.globals == dicts.globals
    modifies out
    ensures Emitted(old(out.text), out.text, ExpandTemplate(env, dicts.store, fuel, filename, d), ended, ok)
    decreases fuel, 0, 0
  {
    assert out.text == out.text + "";
    if filename !in env.templates {
      return true, false;
    }
    if fuel == 0 {
      return false, false;
    }
    var value := new ExpandEmitter();
    ended, ok := ExpandSectionOnce(env, dicts, fuel - 1, MAIN.name, env.templates[filename], d, true, value);
    if ended {
      ghost var inside := ExpandOnce(env, dicts.store, fuel - 1, MAIN.name, env.templates[filename], d, true);
      assert "" + inside.value.text == inside.value.text;
      out.Emit(env.applyTemplateModifier(filename, value.text));
    }
  }

  lemma PrefixAfterEnd(end: string, rest: string, prefix: string)
    requires end == "\n" || end == "\r\n" || (end == "\r" && (rest == "" || rest[0] != '\n'))
    ensures PrefixLines(end + rest, prefix) == end + (prefix + PrefixLines(rest, prefix))
  {
    var text, last := end + rest, PrefixLines(rest, prefix);
    if |end| == 1 {
      assert text[1..] == rest && [text[0]] == end;
      Associate(end, prefix, last);
    } else {
      assert text[1..] == "\n" + rest && text[1..][1..] == rest;
      Associate("\r", "\n", prefix + last);
      Associate("\n", prefix, last);
      assert "\r" + "" == "\r" && "\r" + "\n" == end;
    }
  }

  lemma {:induction false} PrefixOneLine(line: string, more: string, prefix: string)
    requires '\n' !in line && '\r' !in line
    ensures PrefixLines(line + more, prefix) == line + PrefixLines(more, prefix)
  {
    if line == "" {
      assert line + more == more && line + PrefixLines(more, prefix) == PrefixLines(more, prefix);
    } else {
      var text := line + more;
      assert text[0] == line[0] && text[1..] == line[1..] + more;
      PrefixOneLine(line[1..], more, prefix);
      Associate([line[0]], line[1..], PrefixLines(more, prefix));
      assert [line[0]] + "" == [line[0]] && [line[0]] + line[1..] == line;
    }
  }

  lemma LastLinePrefixed(line: string, prefix: string)
    requires '\n' !in line && '\r' !in line
    ensures PrefixLines(line, prefix) == line
  {
    PrefixOneLine(line, "", prefix);
    assert line + "" == line;
  }

  /** The first place of c from start on, or end; memchr. */
  method FirstOf(s: string, c: char, start: nat, end: nat) returns (i: nat)
    requires start <= end <= |s|
    ensures start <= i <= end && (i < end ==> s[i] == c) && forall j :: start <= j < i ==> s[j] != c
  {
    i := start;
    while i < end && s[i] != c
      invariant start <= i <= end && forall j :: start <= j < i ==> s[j] != c
    {
      i := i + 1;
    }
  }

  lemma PrefixFirstLine(s: string, pos: nat, cr: nat, after: nat, prefix: string)
    requires pos <= cr < after <= |s| && '\n' !in s[pos..cr] && '\r' !in s[pos..cr]
    requires s[cr..after] == "\n" || s[cr..after] == "\r\n"
      || (s[cr..after] == "\r" && (s[after..] == "" || s[after..][0] != '\n'))
    ensures PrefixLines(s[pos..], prefix) == s[pos..after] + (prefix + PrefixLines(s[after..], prefix))
  {
    hide PrefixLines;
    PrefixOneLine(s[pos..cr], s[cr..], prefix);
    PrefixAfterEnd(s[cr..after], s[after..], prefix);
    Associate(s[pos..cr], s[cr..after], prefix + PrefixLines(s[after..], prefix));
    assert s[pos..cr] + s[cr..] == s[pos..] && s[cr..after] + s[after..] == s[cr..];
    assert s[pos..cr] + s[cr..after] == s[pos..after];
  }

  /** One past the first line end from pos on, or None when there is no line end left. */
  method LineEnd(s: string, pos: nat) returns (end: Option<nat>)
    requires pos <= |s|
    ensures end.None? ==> '\n' !in s[pos..] && '\r' !in s[pos..]
    ensures end.Some? ==> pos < end.value <= |s|
    ensures end.Some? ==> forall prefix ::
      PrefixLines(s[pos..], prefix) == s[pos..end.value] + (prefix + PrefixLines(s[end.value..], prefix))
  {
    hide PrefixLines;
    var nl := FirstOf(s, '\n', pos, |s|);
    var cr := FirstOf(s, '\r', pos, nl);
    if nl == |s| && cr == nl {
      return None;
    }
    var after := if cr == nl || (nl < |s| && nl == cr + 1) then nl + 1 else cr + 1;
    end := Some(after);
    forall prefix ensures PrefixLines(s[pos..], prefix) == s[pos..after] + (prefix + PrefixLines(s[after..], prefix)) {
      PrefixFirstLine(s, pos, cr, after, prefix);
    }
  }

  /** PrefixLine::Modify. */
  method PrefixLine(s: string, arg: string, out: ExpandEmitter)
    modifies out
    ensures out.text == old(out.text) + PrefixLines(s, arg)
  {
    hide PrefixLines;
    var pos := 0;
    assert s[0..] == s;
    while pos < |s|
      invariant pos <= |s| && out.text + PrefixLines(s[pos..], arg) == old(out.text) + PrefixLines(s, arg)
    {
      var end := LineEnd(s, pos);
      if end.None? {
        LastLinePrefixed(s[pos..], arg);
        out.Emit(s[pos..]);
        return;
      }
      ghost var before, line, last := out.text, s[pos..end.value], PrefixLines(s[end.value..], arg);
      out.Emit(s[pos..end.value]);
      out.Emit(arg);
      Associate(before + line, arg, last);
      Associate(before, line, arg + last);
      pos := end.value;
    }
    LastLinePrefixed(s[pos..], arg);
    assert out.text + "" == out.text;
  }

  /** TemplateTemplateNode::Expand and ExpandOnce. */
  method ExpandIncludes(env: Env, dicts: TemplateDictionaries, fuel: nat, ms: seq<Modifier>, indent: string,
                        ds: seq<nat>, out: ExpandEmitter) returns (ended: bool, ok: bool)
    requires env.globals == dicts.globals && forall i :: 0 <= i < |ds| ==> In(dicts.store, ds[i])
    modifies out
    ensures Emitted(old(out.text), out.text, IncludeEach(env, dicts.store, fuel, ms, indent, ds), ended, ok)
    decreases fuel, 0, 2
  {
    ghost var s, before := dicts.store, out.text;
    ghost var total := IncludeEach(env, s, fuel, ms, indent, ds);
    ended, ok := true, true;
    EmitsNothingYet(before, total);
    assert ds[0..] == ds;
    for i := 0 to |ds|
      invariant PartEmitted(before, out.text, ok, total, IncludeEach(env, s, fuel, ms, indent, ds[i..]))
    {
      assert ds[i..][1..] == ds[i + 1..];
      ghost var mid := out.text;
      var ok1;
      ended, ok1 := ExpandInclude(env, dicts, fuel, ms, indent, ds[i], out);
      EmitsNext(before, mid, ok, total, IncludeOnce(env, s, fuel, ms, indent, ds[i]),
                IncludeEach(env, s, fuel, ms, indent, ds[i + 1..]), out.text, ended, ok1);
      if !ended {
        return;
      }
      ok := ok && ok1;
    }
    EmitsAll(before, out.text, ok, total);
  }

  method ExpandInclude(env: Env, dicts: TemplateDictionaries, fuel: nat, ms: seq<Modifier>, indent: string, d: nat,
                       out: ExpandEmitter) returns (ended: bool, ok: bool)
    requires In(dicts.store, d) && env.globals == dicts.globals
    modifies out
    ensures Emitted(old(out.text), out.text, IncludeOnce(env, dicts.store, fuel, ms, indent, d), ended, ok)
    decreases fuel, 0, 1
  {
    assert out.text == out.text + "";
    var filename := Filename(dicts.store, d);
    if filename == "" {
      return true, true;
    }
    if !env.mightModify(ms) && indent == "" {
      ended, ok := ExpandFile(env, dicts, fuel, filename, d, out);
      return;
    }
    var buffer := new ExpandEmitter();
    ended, ok := ExpandFile(env, dicts, fuel, filename, d, buffer);
    if ended && ok {
      ghost var inside := ExpandTemplate(env, dicts.store, fuel, filename, d);
      assert "" + inside.value.text == inside.value.text;
      var modified := buffer.text;
      if |ms| > 0 {
        modified := env.applyModifiers(ms, modified);
      }
      if indent == "" {
        out.Emit(modified);
      } else {
        PrefixLine(modified, indent, out);
      }
    }
  }
}
