/**
 Form contents: the percent-encoder of the template modifiers (template_modifiers.cc,
 UrlQueryEscape), the decoder of posted forms (connContext.cc, mapContents and
 unescapeString), and the round trip from the one to the other.  A char below 256 is a byte.
 */
module FormContents {
  import opened Wrappers
  import opened Strings
  import opened Numerals

  // ----- encoding -----

  /** [0-9a-zA-Z.,_*\/~!()-] */
  predicate IsSafe(c: char) {
    '0' <= c <= '9' || 'a' <= c <= 'z' || 'A' <= c <= 'Z'
    || c == '.' || c == ',' || c == '_' || c == '*' || c == '/' || c == '~' || c == '!' || c == '(' || c == ')'
    || c == '-'
  }

  predicate IsByte(c: char) {
    c as nat < 256
  }

  predicate AllSafe(s: string) {
    forall i :: 0 <= i < |s| ==> IsSafe(s[i])
  }

  predicate AllBytes(s: string) {
    forall i :: 0 <= i < |s| ==> IsByte(s[i])
  }

  function HexDigit(d: nat): char
    requires d < 16
  {
    if d < 10 then d as char + '0' else (d - 10) as char + 'A'
  }

  function EscapeChar(c: char): string
    requires IsByte(c)
  {
    if IsSafe(c) then [c]
    else if c == ' ' then "+"
    else ['%', HexDigit(c as nat / 16), HexDigit(c as nat % 16)]
  }

  function Escape(s: string): string
    requires AllBytes(s)
  {
    if s == "" then "" else EscapeChar(s[0]) + Escape(s[1..])
  }

  // ----- decoding -----

  function SkipSpaces(s: string): string {
    if s != "" && IsSpace(s[0]) then SkipSpaces(s[1..]) else s
  }

  /** strtol to base sixteen of at most two characters, as it is stored in a char. */
  function HexByte(s: string): char {
    var t := SkipSpaces(s);
    var signed := t != "" && (t[0] == '-' || t[0] == '+');
    var digits := if signed then t[1..] else t;
    RunIsDigits(digits, 16);
    var v := Value(digits[..DigitRun(digits, 16)], 16) % 256;
    (if signed && t[0] == '-' then (256 - v) % 256 else v) as char
  }

  /** unescapeString: a percent sign counts when two more characters follow. */
  function Unescape(s: string): string {
    if s == "" then ""
    else if s[0] == '%' && |s| > 2 then [HexByte(s[1..3])] + Unescape(s[3..])
    else [s[0]] + Unescape(s[1..])
  }

  function ReplacePlus(s: string): string {
    seq(|s|, i requires 0 <= i < |s| => if s[i] == '+' then ' ' else s[i])
  }

  /** The values under each name, in the order they came. */
  type Post = map<string, seq<string>>

  function Insert(post: Post, name: string, value: string): Post {
    post[name := (if name in post then post[name] else []) + [value]]
  }

  /** pending is what has been read since the last '=' or '&'; no value may be empty. */
  function Scan(pending: string, rest: string, name: string, post: Post): Checked<Post>
    decreases |rest|
  {
    if rest == "" then Ok(post)
    else if rest[0] == '=' then Scan("", rest[1..], pending, post)
    else if rest[0] == '&' then
      if pending == "" then Fault else Scan("", rest[1..], name, Insert(post, name, Unescape(pending)))
    else Scan(pending + [rest[0]], rest[1..], name, post)
  }

  function MapContents(raw: string): Checked<Post> {
    if raw == "" then Ok(map[])
    else Scan("", ReplacePlus(if raw[|raw| - 1] != '&' then raw + "&" else raw), "", map[])
  }

  // ----- what is escaped -----

  /** Safe characters stay and spaces become plus signs. */
  lemma {:induction false} SafeIsKept(s: string)
    requires AllBytes(s) && forall i :: 0 <= i < |s| ==> IsSafe(s[i]) || s[i] == ' '
    ensures |Escape(s)| == |s|
    ensures forall i :: 0 <= i < |s| ==> Escape(s)[i] == if s[i] == ' ' then '+' else s[i]
  {
    if s != "" {
      SafeIsKept(s[1..]);
    }
  }

  const HEX_DIGITS := "0123456789ABCDEF"

  /** Safe characters, plus signs, and percent signs with two upper-case digits after each. */
  ghost predicate IsEscaped(e: string) {
    && (forall c :: c in e ==> IsSafe(c) || c == '+' || c == '%')
    && (forall i :: 0 <= i < |e| && e[i] == '%' ==> i + 2 < |e| && e[i + 1] in HEX_DIGITS && e[i + 2] in HEX_DIGITS)
  }

  lemma IsEscapedConcat(a: string, b: string)
    requires IsEscaped(a) && IsEscaped(b)
    ensures IsEscaped(a + b)
  {
    hide IsSafe;
    var e := a + b;
    forall i | 0 <= i < |e| && e[i] == '%' ensures i + 2 < |e| && e[i + 1] in HEX_DIGITS && e[i + 2] in HEX_DIGITS {
      if i >= |a| {
        assert e[i + 1] == b[i - |a| + 1] && e[i + 2] == b[i - |a| + 2];
      }
    }
  }

  lemma {:induction false} OnlySafeComesOut(s: string)
    requires AllBytes(s)
    ensures IsEscaped(Escape(s))
  {
    if s != "" {
      OnlySafeComesOut(s[1..]);
      EscapeOfOne(s[0]);
      IsEscapedConcat(EscapeChar(s[0]), Escape(s[1..]));
    }
  }

  lemma EscapeOfOne(c: char)
    requires IsByte(c)
    ensures IsEscaped(EscapeChar(c))
  {
    hide IsEscaped, IsSafe;
    var high, low := c as nat / 16, c as nat % 16;
    if EscapeChar(c) == ['%', HexDigit(high), HexDigit(low)] {
      PercentIsEscaped(high, low);
    } else if IsSafe(c) {
      SafeIsEscaped(c);
    } else {
      SafeIsEscaped('+');
    }
  }

  lemma SafeIsEscaped(c: char)
    requires IsSafe(c) || c == '+'
    ensures IsEscaped([c])
  {
  }

  lemma PercentIsEscaped(high: nat, low: nat)
    requires high < 16 && low < 16
    ensures IsEscaped(['%', HexDigit(high), HexDigit(low)])
  {
    HexDigitUpper(high);
    HexDigitUpper(low);
    hide HexDigit, IsSafe;
  }

  lemma HexDigitUpper(d: nat)
    requires d < 16
    ensures HexDigit(d) in HEX_DIGITS && IsSafe(HexDigit(d)) && HexDigit(d) != '%'
  {
    assert HEX_DIGITS[d] == HexDigit(d);
  }

  // ----- round trip -----

  datatype Pair = Pair(name: string, value: string)

  predicate LegalPair(p: Pair) {
    AllSafe(p.name) && AllBytes(p.value)
  }

  predicate LegalPairs(ps: seq<Pair>) {
    forall i :: 0 <= i < |ps| ==> LegalPair(ps[i])
  }

  function EncodePair(p: Pair): string
    requires LegalPair(p)
  {
    p.name + "=" + Escape(p.value)
  }

  /** name=value&...&name=value */
  function Encode(ps: seq<Pair>): string
    requires LegalPairs(ps)
  {
    if ps == [] then ""
    else if |ps| == 1 then EncodePair(ps[0])
    else EncodePair(ps[0]) + "&" + Encode(ps[1..])
  }

  /** The values of the pairs with a name, in order. */
  function Values(ps: seq<Pair>, name: string): seq<string> {
    if ps == [] then [] else (if ps[0].name == name then [ps[0].value] else []) + Values(ps[1..], name)
  }

  /** post has, for each name, exactly the values of the pairs. */
  ghost predicate Holds(post: Post, ps: seq<Pair>) {
    forall name :: (if name in post then post[name] else []) == Values(ps, name) && (name in post ==> post[name] != [])
  }

  /** What becomes of a char's escape once plus signs have been replaced. */
  function Sent(c: char): string
    requires IsByte(c)
  {
    if c == ' ' then " " else EscapeChar(c)
  }

  function SentAll(s: string): string
    requires AllBytes(s)
  {
    if s == "" then "" else Sent(s[0]) + SentAll(s[1..])
  }

  lemma ReplaceConcat(a: string, b: string)
    ensures ReplacePlus(a + b) == ReplacePlus(a) + ReplacePlus(b)
  {
  }

  lemma NoPlus(s: string)
    requires '+' !in s
    ensures ReplacePlus(s) == s
  {
  }

  lemma HexDigitIs(d: nat)
    requires d < 16
    ensures IsDigit(HexDigit(d), 16) && DigitValue(HexDigit(d), 16) == d
    ensures IsSafe(HexDigit(d)) && !IsSpace(HexDigit(d)) && HexDigit(d) !in {'+', '-', '=', '&', '%'}
  {
  }

  lemma {:induction false} EscapeIsSent(s: string)
    requires AllBytes(s)
    ensures ReplacePlus(Escape(s)) == SentAll(s)
  {
    if s != "" {
      EscapeIsSent(s[1..]);
      ReplaceConcat(EscapeChar(s[0]), Escape(s[1..]));
      var c := s[0];
      HexDigitIs(c as nat / 16);
      HexDigitIs(c as nat % 16);
    }
  }

  lemma RunOfTwo(a: char, b: char)
    ensures DigitRun([a, b], 16) == if !IsDigit(a, 16) then 0 else if IsDigit(b, 16) then 2 else 1
    ensures DigitRun([b], 16) == if IsDigit(b, 16) then 1 else 0
    ensures DigitRun([], 16) == 0
  {
    assert [a, b][1..] == [b] && [b][1..] == [];
  }

  lemma ValueOfTwo(a: char, b: char)
    ensures Value("", 16) == 0
    ensures IsDigit(a, 16) ==> Value([a], 16) == DigitValue(a, 16)
    ensures IsDigit(a, 16) && IsDigit(b, 16) ==> Value([a, b], 16) == DigitValue(a, 16) * 16 + DigitValue(b, 16)
  {
    assert [a][..0] == "" && [a, b][..1] == [a];
  }

  /** What two characters after a percent sign stand for, digits or not: as much as strtol reads of them. */
  lemma TwoCharactersAre(a: char, b: char)
    ensures HexByte([a, b]) as nat ==
      if IsDigit(a, 16) then
        (if IsDigit(b, 16) then DigitValue(a, 16) * 16 + DigitValue(b, 16) else DigitValue(a, 16))
      else if (IsSpace(a) || a == '+') && IsDigit(b, 16) then DigitValue(b, 16)
      else if a == '-' && IsDigit(b, 16) then (256 - DigitValue(b, 16)) % 256
      else 0
  {
    RunOfTwo(a, b);
    ValueOfTwo(a, b);
    ValueOfTwo(b, b);
    assert [a, b][1..] == [b] && [b][1..] == [] && [a, b][..2] == [a, b] && [a, b][..1] == [a];
    assert [b][..1] == [b] && [b][..0] == [] && [a, b][..0] == [];
    SpacesSkipped(a, b);
  }

  lemma SpacesSkipped(a: char, b: char)
    ensures SkipSpaces([a, b]) == if !IsSpace(a) then [a, b] else if !IsSpace(b) then [b] else []
  {
    assert [a, b][1..] == [b] && [b][1..] == [];
    assert SkipSpaces([]) == [];
    assert SkipSpaces([b]) == if IsSpace(b) then [] else [b];
  }

  lemma HexByteIs(a: nat, b: nat)
    requires a < 16 && b < 16
    ensures HexByte([HexDigit(a), HexDigit(b)]) == (a * 16 + b) as char
  {
    var s := [HexDigit(a), HexDigit(b)];
    HexDigitIs(a);
    HexDigitIs(b);
    assert SkipSpaces(s) == s;
    DigitRunIs(s, "", 16);
    assert s + "" == s && s[..2] == s;
    assert s[..1] == [HexDigit(a)] && [HexDigit(a)][..0] == "";
    assert Value([HexDigit(a)], 16) == a;
    assert Value(s, 16) == a * 16 + b;
  }

  lemma {:induction false} UnescapeIsInverse(s: string)
    requires AllBytes(s)
    ensures Unescape(SentAll(s)) == s
  {
    if s != "" {
      var c, rest := s[0], SentAll(s[1..]);
      UnescapeIsInverse(s[1..]);
      if !IsSafe(c) && c != ' ' {
        HexByteIs(c as nat / 16, c as nat % 16);
        var t := Sent(c) + rest;
        assert t[1..3] == [HexDigit(c as nat / 16), HexDigit(c as nat % 16)] && t[3..] == rest;
      } else {
        assert (Sent(c) + rest)[1..] == rest;
      }
    }
  }

  predicate IsRun(s: string) {
    '=' !in s && '&' !in s
  }

  lemma {:induction false} SentIsRun(s: string)
    requires AllBytes(s)
    ensures IsRun(SentAll(s)) && (s == "" <==> SentAll(s) == "")
  {
    if s != "" {
      SentIsRun(s[1..]);
      HexDigitIs(s[0] as nat / 16);
      HexDigitIs(s[0] as nat % 16);
      assert IsRun(Sent(s[0]));
    }
  }

  lemma {:induction false} ScanRun(pending: string, run: string, rest: string, name: string, post: Post)
    requires IsRun(run)
    ensures Scan(pending, run + rest, name, post) == Scan(pending + run, rest, name, post)
    decreases run
  {
    if run == "" {
      assert run + rest == rest && pending + run == pending;
    } else {
      assert (run + rest)[0] == run[0] && (run + rest)[1..] == run[1..] + rest;
      assert pending + [run[0]] + run[1..] == pending + run;
      assert run[0] in run;
      ScanRun(pending + [run[0]], run[1..], rest, name, post);
    }
  }

  lemma ScanTo(run: string, stop: char, rest: string, name: string, post: Post)
    requires IsRun(run) && (stop == '=' || stop == '&')
    ensures Scan("", run + ([stop] + rest), name, post) ==
      if stop == '=' then Scan("", rest, run, post)
      else if run == "" then Fault else Scan("", rest, name, Insert(post, name, Unescape(run)))
  {
    ScanRun("", run, [stop] + rest, name, post);
    assert "" + run == run && ([stop] + rest)[1..] == rest;
  }

  lemma ScanPair(p: Pair, rest: string, name: string, post: Post)
    requires LegalPair(p)
    ensures Scan("", p.name + ("=" + (SentAll(p.value) + ("&" + rest))), name, post) ==
      if p.value == "" then Fault else Scan("", rest, p.name, Insert(post, p.name, p.value))
  {
    SentIsRun(p.value);
    UnescapeIsInverse(p.value);
    ScanTo(p.name, '=', SentAll(p.value) + ("&" + rest), name, post);
    ScanTo(SentAll(p.value), '&', rest, p.name, post);
  }

  /** Every pair followed by '&', as it is scanned. */
  function Wire(ps: seq<Pair>): string
    requires LegalPairs(ps)
  {
    if ps == [] then "" else ps[0].name + ("=" + (SentAll(ps[0].value) + ("&" + Wire(ps[1..]))))
  }

  function InsertAll(post: Post, ps: seq<Pair>): Post
    decreases ps
  {
    if ps == [] then post else InsertAll(Insert(post, ps[0].name, ps[0].value), ps[1..])
  }

  predicate HasEmptyValue(ps: seq<Pair>) {
    exists i :: 0 <= i < |ps| && ps[i].value == ""
  }

  lemma {:induction false} ScanWire(ps: seq<Pair>, name: string, post: Post)
    requires LegalPairs(ps)
    ensures Scan("", Wire(ps), name, post) == if HasEmptyValue(ps) then Fault else Ok(InsertAll(post, ps))
    decreases ps
  {
    if ps != [] {
      var q, rest := ps[0], ps[1..];
      ScanPair(q, Wire(rest), name, post);
      if q.value != "" {
        ScanWire(rest, q.name, Insert(post, q.name, q.value));
        assert HasEmptyValue(ps) <==> HasEmptyValue(rest) by {
          if HasEmptyValue(ps) {
            var i :| 0 <= i < |ps| && ps[i].value == "";
            assert rest[i - 1].value == "";
          }
          if HasEmptyValue(rest) {
            var i :| 0 <= i < |rest| && rest[i].value == "";
            assert ps[i + 1].value == "";
          }
        }
      }
    }
  }

  lemma PairOnWire(p: Pair, rest: string)
    requires LegalPair(p)
    ensures ReplacePlus(EncodePair(p) + ("&" + rest)) == p.name + ("=" + (SentAll(p.value) + ("&" + ReplacePlus(rest))))
  {
    EscapeIsSent(p.value);
    NoPlus(p.name);
    ReplaceConcat(EncodePair(p), "&" + rest);
    ReplaceConcat("&", rest);
    ReplaceConcat(p.name + "=", Escape(p.value));
    ReplaceConcat(p.name, "=");
    assert ReplacePlus("=") == "=" && ReplacePlus("&") == "&";
    Regroup(p.name, SentAll(p.value), ReplacePlus(rest));
  }

  lemma Regroup(a: string, b: string, c: string)
    ensures a + "=" + b + ("&" + c) == a + ("=" + (b + ("&" + c)))
  {
  }

  lemma {:induction false} EncodeOnWire(ps: seq<Pair>)
    requires LegalPairs(ps) && ps != []
    ensures ReplacePlus(Encode(ps) + "&") == Wire(ps)
    ensures Encode(ps) != "" && Encode(ps)[|Encode(ps)| - 1] != '&'
  {
    EncodedEnd(ps[0]);
    if |ps| == 1 {
      PairOnWire(ps[0], "");
      assert Wire(ps[1..]) == "" && "&" + "" == "&" && ReplacePlus("") == "";
    } else {
      EncodeOnWire(ps[1..]);
      PairOnWire(ps[0], Encode(ps[1..]) + "&");
      assert Encode(ps) + "&" == EncodePair(ps[0]) + ("&" + (Encode(ps[1..]) + "&"));
    }
  }

  lemma EncodedEnd(p: Pair)
    requires LegalPair(p)
    ensures EncodePair(p) != "" && EncodePair(p)[|EncodePair(p)| - 1] != '&'
  {
    EscapeIsSent(p.value);
    SentIsRun(p.value);
    var e := Escape(p.value);
    if e != "" {
      assert ReplacePlus(e)[|e| - 1] in ReplacePlus(e);
    }
  }

  lemma InsertHolds(post: Post, done: seq<Pair>, p: Pair)
    requires Holds(post, done)
    ensures Holds(Insert(post, p.name, p.value), done + [p])
  {
    var next := Insert(post, p.name, p.value);
    forall name
      ensures (if name in next then next[name] else []) == Values(done + [p], name)
      ensures name in next ==> next[name] != []
    {
      ValuesAppend(done, p, name);
      assert (if name in post then post[name] else []) == Values(done, name);
      assert Values(done, name) + [] == Values(done, name);
    }
  }

  lemma {:induction false} InsertAllHolds(post: Post, done: seq<Pair>, ps: seq<Pair>)
    requires Holds(post, done)
    ensures Holds(InsertAll(post, ps), done + ps)
    decreases ps
  {
    hide Holds;
    if ps == [] {
      assert done + ps == done;
    } else {
      InsertHolds(post, done, ps[0]);
      InsertAllHolds(Insert(post, ps[0].name, ps[0].value), done + [ps[0]], ps[1..]);
      assert done + [ps[0]] + ps[1..] == done + ps;
    }
  }

  lemma {:induction false} ValuesAppend(ps: seq<Pair>, p: Pair, name: string)
    ensures Values(ps + [p], name) == Values(ps, name) + (if p.name == name then [p.value] else [])
  {
    if ps != [] {
      ValuesAppend(ps[1..], p, name);
      assert (ps + [p])[1..] == ps[1..] + [p];
    } else {
      assert ps + [p] == [p] && [p][1..] == [];
    }
  }

  /**
   Decoding undoes encoding: the posted values are the ones that were encoded, in order under
   each name, exactly when none is empty; an empty one fails the assertion of unescapeString.
   */
  lemma EncodeRoundTrip(ps: seq<Pair>)
    requires LegalPairs(ps)
    ensures MapContents(Encode(ps)).Ok? <==> !HasEmptyValue(ps)
    ensures !HasEmptyValue(ps) ==> Holds(MapContents(Encode(ps)).value, ps)
  {
    InsertAllHolds(map[], [], ps);
    assert [] + ps == ps;
    if ps != [] {
      EncodeOnWire(ps);
      ScanWire(ps, "", map[]);
    }
  }
}
