/**
 Escaping text for a JavaScript string literal (template_modifiers.cc, UTF8CodeUnit and
 JavascriptEscape), against the string literals of ECMA-262, 3rd edition, section 7.8.4.
 A char below 256 is a byte.
 */
module JavascriptEscapes {
  import opened Wrappers

  /** The length a first byte announces; bytes that start no unit of up to three stand alone. */
  function CodeLength(c: char): (n: nat)
    ensures 1 <= n <= 3
  {
    if 0xC0 <= c as nat < 0xE0 then 2 else if 0xE0 <= c as nat < 0xF0 then 3 else 1
  }

  predicate IsTail(c: char) {
    0x80 <= c as nat < 0xC0
  }

  datatype Unit = Unit(code: nat, length: nat)

  const MALFORMED := Unit(0xFFFD, 1)

  /** UTF8CodeUnit: the code unit at the start of s and how many bytes it takes. */
  function CodeUnit(s: string): (u: Unit)
    requires s != ""
    ensures 1 <= u.length <= |s|
  {
    var first := s[0] as nat;
    if CodeLength(s[0]) == 1 then Unit(first, 1)
    else if CodeLength(s[0]) > |s| then MALFORMED
    else if CodeLength(s[0]) == 2 then
      if IsTail(s[1]) then Unit((first % 0x20) * 0x40 + s[1] as nat % 0x40, 2) else MALFORMED
    else if IsTail(s[1]) && IsTail(s[2]) then
      Unit((first % 0x10) * 0x1000 + (s[1] as nat % 0x40) * 0x40 + s[2] as nat % 0x40, 3)
    else MALFORMED
  }

  /** What stands for a code unit, or nothing when its bytes may stay. */
  function EscapeOf(code: nat): string {
    if code == 0x2028 then "\\u2028"
    else if code == 0x2029 then "\\u2029"
    else if code >= 0x100 then ""
    else
      match code as char
      case '\0' => "\\x00"
      case '"' => "\\x22"
      case '\'' => "\\x27"
      case '\\' => "\\\\"
      case '\t' => "\\t"
      case '\r' => "\\r"
      case '\n' => "\\n"
      case '&' => "\\x26"
      case '<' => "\\x3c"
      case '>' => "\\x3e"
      case '=' => "\\x3d"
      case _ => if code == 8 then "\\b" else if code == 12 then "\\f" else if code == 11 then "\\x0b" else ""
  }

  function Escape(s: string): string
    decreases |s|
  {
    if s == "" then ""
    else
      var u := CodeUnit(s);
      (if EscapeOf(u.code) != "" then EscapeOf(u.code) else s[..u.length]) + Escape(s[u.length..])
  }

  /** What becomes of the code unit at pos. */
  function Piece(s: string, pos: nat): string
    requires pos < |s|
  {
    var u := CodeUnit(s[pos..]);
    if EscapeOf(u.code) != "" then EscapeOf(u.code) else s[pos..pos + u.length]
  }

  /** All of s comes to out, then the run, then what the rest comes to. */
  ghost predicate SoFar(s: string, out: string, start: nat, pos: nat)
    requires start <= pos <= |s|
  {
    Escape(s) == out + s[start..pos] + Escape(s[pos..])
  }

  lemma Kept(s: string, out: string, start: nat, pos: nat)
    requires start <= pos < |s| && SoFar(s, out, start, pos) && EscapeOf(CodeUnit(s[pos..]).code) == ""
    ensures SoFar(s, out, start, pos + CodeUnit(s[pos..]).length)
  {
    hide CodeUnit, EscapeOf;
    var next := pos + CodeUnit(s[pos..]).length;
    assert s[start..next] == s[start..pos] + s[pos..next];
    Regroup(out, s[start..pos], s[pos..next], Escape(s[next..]));
  }

  lemma Replaced(s: string, out: string, start: nat, pos: nat)
    requires start <= pos < |s| && SoFar(s, out, start, pos) && EscapeOf(CodeUnit(s[pos..]).code) != ""
    ensures var u := CodeUnit(s[pos..]);
      SoFar(s, out + s[start..pos] + EscapeOf(u.code), pos + u.length, pos + u.length)
  {
    hide CodeUnit, EscapeOf;
    var next, text := pos + CodeUnit(s[pos..]).length, EscapeOf(CodeUnit(s[pos..]).code);
    assert s[next..next] == "";
    Regroup(out, s[start..pos], text, Escape(s[next..]));
    assert out + s[start..pos] + text + "" == out + s[start..pos] + text;
  }

  lemma Regroup(a: string, b: string, c: string, d: string)
    ensures a + b + (c + d) == a + (b + c) + d
    ensures a + b + (c + d) == a + b + c + d
  {
  }

  /** The bits of the first byte and k tails of a unit of n bytes. */
  function Bits(s: string, n: nat, k: nat): (code: nat)
    requires k < n <= |s| && 2 <= n <= 3 && CodeLength(s[0]) == n
    ensures code < (if k == 0 then 0x20 else if k == 1 then 0x800 else 0x2_0000)
  {
    if k == 0 then s[0] as nat % (if n == 2 then 0x40 else 0x20)
    else Bits(s, n, k - 1) * 0x40 + s[k] as nat % 0x40
  }

  lemma BitsAre(s: string, n: nat)
    requires 2 <= n <= 3 && n <= |s| && CodeLength(s[0]) == n
    ensures n == 2 ==> Bits(s, n, 1) == (s[0] as nat % 0x20) * 0x40 + s[1] as nat % 0x40
    ensures n == 3 ==> Bits(s, n, 2) == ((s[0] as nat % 0x10) * 0x40 + s[1] as nat % 0x40) * 0x40 + s[2] as nat % 0x40
    ensures Bits(s, n, n - 1) < 0x1_0000
  {
    assert Bits(s, n, 0) == s[0] as nat % (if n == 2 then 0x20 else 0x10);
    assert Bits(s, n, 1) == Bits(s, n, 0) * 0x40 + s[1] as nat % 0x40;
  }

  lemma UnitIsBits(s: string, n: nat)
    requires 2 <= n <= 3 && n <= |s| && CodeLength(s[0]) == n
    ensures (forall k :: 1 <= k < n ==> IsTail(s[k])) ==> CodeUnit(s) == Unit(Bits(s, n, n - 1), n)
    ensures (exists k :: 1 <= k < n && !IsTail(s[k])) ==> CodeUnit(s) == MALFORMED
    ensures Bits(s, n, n - 1) < 0x1_0000
  {
    hide Bits, IsTail;
    BitsAre(s, n);
    if forall k :: 1 <= k < n ==> IsTail(s[k]) {
      assert IsTail(s[1]) && (n == 3 ==> IsTail(s[2]));
    }
  }

  lemma BitsStep(s: string, n: nat, k: nat)
    requires 0 < k < n <= |s| && 2 <= n <= 3 && CodeLength(s[0]) == n
    ensures (Bits(s, n, k - 1) * 0x40 + s[k] as nat % 0x40) % 0x1_0000 == Bits(s, n, k)
  {
    if k == 2 {
      UnitIsBits(s, 3);
    }
  }

  lemma BitsStart(s: string, n: nat)
    requires 2 <= n <= 3 && n <= |s| && CodeLength(s[0]) == n
    ensures Bits(s, n, 0) == s[0] as nat % (if n == 2 then 0x40 else 0x20)
  {
  }

  lemma UnitIsOneByte(s: string)
    requires s != "" && (CodeLength(s[0]) == 1 || CodeLength(s[0]) > |s|)
    ensures CodeUnit(s) == if CodeLength(s[0]) == 1 then Unit(s[0] as nat, 1) else MALFORMED
  {
  }

  /** UTF8CodeUnit, tail by tail in sixteen bits: the unit, and the address past it. */
  method ReadCodeUnit(s: string, start: nat) returns (code: nat, next: nat)
    requires start < |s|
    ensures start < next && Unit(code, next - start) == CodeUnit(s[start..])
  {
    hide CodeUnit, IsTail, Bits;
    ghost var rest := s[start..];
    var length := CodeLength(s[start]);
    if length == 1 {
      UnitIsOneByte(rest);
      return s[start] as nat, start + 1;
    }
    if start + length > |s| {
      UnitIsOneByte(rest);
      return 0xFFFD, start + 1;
    }
    UnitIsBits(rest, length);
    BitsStart(rest, length);
    var pos := start;
    code := s[pos] as nat % (if length == 2 then 0x40 else 0x20);
    var left := length - 1;
    while left > 0
      invariant 0 <= left < length && pos == start + length - 1 - left
      invariant forall k :: 1 <= k <= length - 1 - left ==> IsTail(rest[k])
      invariant code == Bits(rest, length, length - 1 - left)
      decreases left
    {
      pos := pos + 1;
      var tail := s[pos];
      assert tail == rest[length - left];
      if !IsTail(tail) {
        return 0xFFFD, start + 1;
      }
      BitsStep(rest, length, length - left);
      left := left - 1;
      code := (code * 0x40 + tail as nat % 0x40) % 0x1_0000;
    }
    next := start + length;
  }

  /** JavascriptEscape::Modify: units that may stay are emitted in runs. */
  method Modify(s: string) returns (out: string)
    ensures out == Escape(s)
  {
    hide Escape, CodeUnit, EscapeOf, SoFar;
    out := "";
    var pos: nat, start: nat := 0, 0;
    Start(s);
    while pos < |s|
      invariant start <= pos <= |s| && SoFar(s, out, start, pos)
      decreases |s| - pos
    {
      var code, next := ReadCodeUnit(s, pos);
      if EscapeOf(code) != "" {
        Replaced(s, out, start, pos);
        out := out + s[start..pos];
        out := out + EscapeOf(code);
        start := next;
      } else {
        Kept(s, out, start, pos);
      }
      pos := next;
    }
    End(s, out, start);
    out := out + s[start..pos];
  }

  lemma Start(s: string)
    ensures SoFar(s, "", 0, 0)
  {
    assert s[0..] == s && s[0..0] == "" && "" + "" + Escape(s) == Escape(s);
  }

  lemma End(s: string, out: string, start: nat)
    requires start <= |s| && SoFar(s, out, start, |s|)
    ensures out + s[start..|s|] == Escape(s)
  {
    assert s[|s|..] == "" && out + s[start..|s|] + "" == out + s[start..|s|];
  }

  // ----- the output is safe inside a literal -----

  /** U+2028 or U+2029 in UTF-8. */
  predicate IsSeparator(s: string) {
    |s| >= 3 && s[0] == 0xE2 as char && s[1] == 0x80 as char && (s[2] == 0xA8 as char || s[2] == 0xA9 as char)
  }

  predicate MayStandRaw(c: char) {
    c !in {'\0', '"', '\'', '\\', '\t', '\r', '\n', '&', '<', '>', '='}
  }

  predicate IsHex(c: char) {
    '0' <= c <= '9' || 'a' <= c <= 'f'
  }

  /** The length of the escape sequence s starts with, or 0. */
  function EscapeLength(s: string): (n: nat)
    ensures n <= |s|
  {
    if |s| < 2 || s[0] != '\\' then 0
    else if s[1] in {'\\', 't', 'r', 'n', 'b', 'f'} then 2
    else if s[1] == 'x' && |s| >= 4 && IsHex(s[2]) && IsHex(s[3]) then 4
    else if s[1] == 'u' && |s| >= 6 && IsHex(s[2]) && IsHex(s[3]) && IsHex(s[4]) && IsHex(s[5]) then 6
    else 0
  }

  /** Escape sequences and characters that may stand by themselves. */
  predicate IsLiteralText(s: string)
    decreases |s|
  {
    s == "" ||
    (if s[0] == '\\' then EscapeLength(s) > 0 && IsLiteralText(s[EscapeLength(s)..])
     else MayStandRaw(s[0]) && !IsSeparator(s) && IsLiteralText(s[1..]))
  }

  lemma EscapesAreWhole(code: nat, rest: string)
    requires EscapeOf(code) != ""
    ensures EscapeLength(EscapeOf(code) + rest) == |EscapeOf(code)|
    ensures forall i :: 0 <= i < |EscapeOf(code)| ==> EscapeOf(code)[i] as nat < 0x80
  {
  }

  /** A longer unit never takes in an ASCII byte, and a lone byte is its own code. */
  lemma UnitIsOwnOrTails(s: string)
    requires s != ""
    ensures var u := CodeUnit(s);
      && (u.length == 1 ==> u.code == s[0] as nat || (u.code == 0xFFFD && s[0] as nat >= 0xC0))
      && (u.length > 1 ==> s[0] as nat >= 0xC0 && forall i :: 1 <= i < u.length ==> IsTail(s[i]))
  {
  }

  lemma SeparatorIsUnit(s: string)
    requires s != "" && IsSeparator(s)
    ensures CodeUnit(s).length == 3 && (CodeUnit(s).code == 0x2028 || CodeUnit(s).code == 0x2029)
  {
  }

  /** Bytes that are not ASCII come straight from the input. */
  lemma StartsRaw(s: string)
    requires Escape(s) != "" && Escape(s)[0] as nat >= 0x80
    ensures s != "" && Escape(s)[0] == s[0]
    ensures |Escape(s)| > 1 && Escape(s)[1] as nat >= 0x80 ==> |s| > 1 && Escape(s)[1] == s[1]
  {
    var u := CodeUnit(s);
    if u.length == 1 && s[1..] != "" {
      assert s[1..][0] == s[1];
    }
  }

  /** The bytes of a unit that stays never make up a separator with what follows them. */
  lemma NoSeparatorAcross(s: string, i: nat)
    requires s != "" && EscapeOf(CodeUnit(s).code) == "" && i < CodeUnit(s).length
    ensures !IsSeparator(s[i..CodeUnit(s).length] + Escape(s[CodeUnit(s).length..]))
  {
    var n := CodeUnit(s).length;
    var rest := Escape(s[n..]);
    var t := s[i..n] + rest;
    UnitIsOwnOrTails(s);
    if IsSeparator(t) {
      assert t[0] == s[i];
      assert i == 0;
      if n < 3 {
        assert t[n] == rest[0];
        StartsRaw(s[n..]);
        assert s[n..][0] == s[n] == t[n];
        if n == 1 {
          assert t[2] == rest[1] && s[n..][1] == s[2];
        }
      }
      assert IsSeparator(s);
      SeparatorIsUnit(s);
    }
  }

  lemma RawMayStand(s: string, i: nat)
    requires s != "" && EscapeOf(CodeUnit(s).code) == "" && i < CodeUnit(s).length
    ensures MayStandRaw(s[i])
  {
    UnitIsOwnOrTails(s);
  }

  lemma {:induction false} RawUnitIsText(s: string, i: nat)
    requires s != "" && EscapeOf(CodeUnit(s).code) == "" && i <= CodeUnit(s).length
    requires IsLiteralText(Escape(s[CodeUnit(s).length..]))
    ensures IsLiteralText(s[i..CodeUnit(s).length] + Escape(s[CodeUnit(s).length..]))
    decreases CodeUnit(s).length - i
  {
    hide CodeUnit, EscapeOf, Escape, IsSeparator;
    var n := CodeUnit(s).length;
    var rest := Escape(s[n..]);
    if i == n {
      assert s[i..n] + rest == rest;
    } else {
      RawUnitIsText(s, i + 1);
      RawMayStand(s, i);
      NoSeparatorAcross(s, i);
      var t := s[i..n] + rest;
      assert t[0] == s[i] && t[1..] == s[i + 1..n] + rest;
    }
  }

  /** The output is text of a string literal, in which every backslash starts an escape. */
  lemma {:induction false} EscapeIsLiteralText(s: string)
    ensures IsLiteralText(Escape(s))
    decreases |s|
  {
    hide CodeUnit, EscapeOf;
    if s != "" {
      var u := CodeUnit(s);
      EscapeIsLiteralText(s[u.length..]);
      if EscapeOf(u.code) == "" {
        RawUnitIsText(s, 0);
        assert s[0..u.length] == s[..u.length];
      } else {
        var rest := Escape(s[u.length..]);
        EscapesAreWhole(u.code, rest);
        assert (EscapeOf(u.code) + rest)[|EscapeOf(u.code)|..] == rest;
      }
    }
  }

  predicate IsForbidden(c: char) {
    c in {'"', '\'', '\r', '\n', '<', '>', '&', '='}
  }

  lemma {:induction false} LiteralTextIsSafe(s: string, i: nat)
    requires IsLiteralText(s) && i < |s|
    ensures !IsForbidden(s[i]) && !IsSeparator(s[i..])
    decreases |s|
  {
    var n := if s[0] == '\\' then EscapeLength(s) else 1;
    if i < n {
      assert s[i..][0] == s[i];
      assert i == 0 ==> s[i..] == s;
    } else {
      LiteralTextIsSafe(s[n..], i - n);
      assert s[n..][i - n..] == s[i..] && s[n..][i - n] == s[i];
    }
  }

  /** No character that could end the literal or open a tag, whatever bytes came in. */
  lemma OutputIsSafe(s: string, i: nat)
    requires i < |Escape(s)|
    ensures !IsForbidden(Escape(s)[i]) && !IsSeparator(Escape(s)[i..])
  {
    EscapeIsLiteralText(s);
    LiteralTextIsSafe(Escape(s), i);
  }

  // ----- what the literal denotes -----

  function HexValue(c: char): nat {
    if '0' <= c <= '9' then c as nat - '0' as nat
    else if 'a' <= c <= 'f' then c as nat - 'a' as nat + 10
    else 0
  }

  /** The bytes of a code unit of at most three bytes in UTF-8, or the byte itself. */
  function Bytes(code: nat): string {
    if 0x800 <= code < 0xD800 then
      [(0xE0 + code / 0x1000) as char, (0x80 + code / 0x40 % 0x40) as char, (0x80 + code % 0x40) as char]
    else [(code % 0x100) as char]
  }

  /** The bytes an escape sequence stands for. */
  function EscapeValue(s: string): string
    requires EscapeLength(s) > 0
  {
    match s[1]
    case 't' => "\t"
    case 'r' => "\r"
    case 'n' => "\n"
    case 'b' => [8 as char]
    case 'f' => [12 as char]
    case 'x' => Bytes(HexValue(s[2]) * 16 + HexValue(s[3]))
    case 'u' => Bytes(HexValue(s[2]) * 0x1000 + HexValue(s[3]) * 0x100 + HexValue(s[4]) * 16 + HexValue(s[5]))
    case _ => "\\"
  }

  /** The value of a string literal's text, as bytes. */
  function Decode(s: string): string
    decreases |s|
  {
    if s == "" then ""
    else if EscapeLength(s) > 0 then EscapeValue(s) + Decode(s[EscapeLength(s)..])
    else [s[0]] + Decode(s[1..])
  }

  lemma EscapeStandsFor(code: nat, rest: string)
    requires EscapeOf(code) != ""
    ensures Decode(EscapeOf(code) + rest) == Bytes(code) + Decode(rest)
    ensures |Bytes(code)| == if code >= 0x100 then 3 else 1
  {
    var t := EscapeOf(code) + rest;
    EscapesAreWhole(code, rest);
    assert t[|EscapeOf(code)|..] == rest;
    EscapeHasValue(code, rest);
  }

  function LetterCode(c: char): nat {
    match c case 't' => 9 case 'r' => 13 case 'n' => 10 case 'b' => 8 case 'f' => 12 case _ => 92
  }

  lemma LetterEscapeValue(c: char)
    requires c in {'\\', 't', 'r', 'n', 'b', 'f'}
    ensures EscapeLength(['\\', c]) == 2
    ensures EscapeValue(['\\', c]) == Bytes(LetterCode(c))
  {
  }

  lemma SeparatorEscapeValue(code: nat)
    requires code == 0x2028 || code == 0x2029
    ensures EscapeLength(EscapeOf(code)) == 6 && EscapeValue(EscapeOf(code)) == Bytes(code)
  {
  }

  /** The escapes by the character and the two digits or the letter they are written with. */
  lemma ShapeOfEscape(code: nat) returns (a: char, b: char, hex: bool)
    requires EscapeOf(code) != "" && code < 0x100
    ensures hex ==> EscapeOf(code) == ['\\', 'x', a, b] && IsHex(a) && IsHex(b)
    ensures hex ==> HexValue(a) * 16 + HexValue(b) == code
    ensures !hex ==> EscapeOf(code) == ['\\', a] && a in {'\\', 't', 'r', 'n', 'b', 'f'} && code == LetterCode(a)
  {
    var e := EscapeOf(code);
    hex := |e| == 4;
    if hex {
      a, b := e[2], e[3];
      assert e == ['\\', 'x', a, b];
    } else {
      a, b := e[1], ' ';
      assert e == ['\\', a];
    }
  }

  lemma ValueOfEscape(code: nat)
    requires EscapeOf(code) != ""
    ensures EscapeLength(EscapeOf(code)) == |EscapeOf(code)| && EscapeValue(EscapeOf(code)) == Bytes(code)
  {
    hide Bytes;
    if code >= 0x100 {
      SeparatorEscapeValue(code);
    } else {
      hide EscapeOf, EscapeValue, EscapeLength;
      var a, b, hex := ShapeOfEscape(code);
      if hex {
      } else {
        LetterEscapeValue(a);
      }
    }
  }

  lemma EscapeHasValue(code: nat, rest: string)
    requires EscapeOf(code) != ""
    ensures EscapeLength(EscapeOf(code) + rest) > 0 && EscapeValue(EscapeOf(code) + rest) == Bytes(code)
  {
    ValueOfEscape(code);
  }

  lemma {:induction false} RawStandsForItself(raw: string, rest: string)
    requires '\\' !in raw
    ensures Decode(raw + rest) == raw + Decode(rest)
  {
    if raw == "" {
      assert raw + rest == rest && raw + Decode(rest) == Decode(rest);
    } else {
      var t := raw + rest;
      assert t[0] == raw[0] && t[1..] == raw[1..] + rest;
      assert raw[0] in raw;
      RawStandsForItself(raw[1..], rest);
      assert [raw[0]] + (raw[1..] + Decode(rest)) == raw + Decode(rest);
    }
  }

  /** An ASCII character that is escaped is written in more bytes than one: never so in UTF-8. */
  predicate HasOverlong(s: string)
    decreases |s|
  {
    s != "" &&
    (var u := CodeUnit(s); (u.length > 1 && u.code < 0x100 && EscapeOf(u.code) != "") || HasOverlong(s[u.length..]))
  }

  lemma UnitBytes(s: string)
    requires s != "" && EscapeOf(CodeUnit(s).code) != "" && s[0] as nat < 0x100
    ensures var u := CodeUnit(s);
      && (u.length == 1 || u.code >= 0x100 ==> s[..u.length] == Bytes(u.code))
      && (u.code >= 0x100 ==> u.length == 3)
  {
    var u := CodeUnit(s);
    if u.code >= 0x100 {
      assert u.code == 0x2028 || u.code == 0x2029;
      assert u.length == 3;
      assert s[0] == 0xE2 as char && s[1] == 0x80 as char;
      assert s[..3] == [s[0], s[1], s[2]];
    } else {
      assert u.length == 1 ==> s[..1] == [s[0]];
    }
  }

  lemma {:induction false} DecodedLength(s: string)
    requires forall i :: 0 <= i < |s| ==> s[i] as nat < 0x100
    ensures |Decode(Escape(s))| <= |s|
    ensures HasOverlong(s) ==> |Decode(Escape(s))| < |s|
    ensures !HasOverlong(s) ==> Decode(Escape(s)) == s
    decreases |s|
  {
    hide CodeUnit, EscapeOf, Bytes;
    if s != "" {
      var u := CodeUnit(s);
      var rest := s[u.length..];
      DecodedLength(rest);
      assert s == s[..u.length] + rest;
      if EscapeOf(u.code) != "" {
        EscapeStandsFor(u.code, Escape(rest));
        UnitBytes(s);
      } else {
        forall i | 0 <= i < u.length ensures MayStandRaw(s[i]) {
          RawMayStand(s, i);
        }
        RawStandsForItself(s[..u.length], Escape(rest));
      }
    }
  }

  /**
   The literal denotes the bytes that came in exactly when no escaped character came in an
   overlong form; UTF-8 has none, and every other malformed byte is kept.
   */
  lemma LiteralDenotesInput(s: string)
    requires forall i :: 0 <= i < |s| ==> s[i] as nat < 0x100
    ensures Decode(Escape(s)) == s <==> !HasOverlong(s)
  {
    DecodedLength(s);
  }

  /** The bytes of a code unit written with so many bytes, overlong forms included. */
  function InBytes(code: nat, n: nat): string
    requires (n == 2 && code < 0x800) || (n == 3 && code < 0x1_0000)
  {
    if n == 2 then [(0xC0 + code / 0x40) as char, (0x80 + code % 0x40) as char]
    else [(0xE0 + code / 0x1000) as char, (0x80 + code / 0x40 % 0x40) as char, (0x80 + code % 0x40) as char]
  }

  lemma UnitOfTwoBytes(s: string, high: nat, low: nat)
    requires |s| >= 2 && high < 0x20 && low < 0x40 && s[0] as nat == 0xC0 + high && s[1] as nat == 0x80 + low
    ensures CodeUnit(s) == Unit(high * 0x40 + low, 2)
  {
  }

  lemma UnitOfThreeBytes(s: string, high: nat, mid: nat, low: nat)
    requires |s| >= 3 && high < 0x10 && mid < 0x40 && low < 0x40
    requires s[0] as nat == 0xE0 + high && s[1] as nat == 0x80 + mid && s[2] as nat == 0x80 + low
    ensures CodeUnit(s) == Unit(high * 0x1000 + mid * 0x40 + low, 3)
  {
  }

  /** A code unit is read from its bytes, whatever follows. */
  lemma UnitOfItsBytes(code: nat, n: nat, rest: string)
    requires (n == 2 && code < 0x800) || (n == 3 && code < 0x1_0000)
    ensures CodeUnit(InBytes(code, n) + rest) == Unit(code, n)
  {
    hide CodeUnit;
    var s := InBytes(code, n) + rest;
    if n == 2 {
      assert s[0] == InBytes(code, n)[0] && s[1] == InBytes(code, n)[1];
      UnitOfTwoBytes(s, code / 0x40, code % 0x40);
    } else {
      assert s[0] == InBytes(code, n)[0] && s[1] == InBytes(code, n)[1] && s[2] == InBytes(code, n)[2];
      UnitOfThreeBytes(s, code / 0x1000, code / 0x40 % 0x40, code % 0x40);
      ThreeParts(code);
    }
  }

  lemma ThreeParts(code: nat)
    requires code < 0x1_0000
    ensures code / 0x1000 * 0x1000 + code / 0x40 % 0x40 * 0x40 + code % 0x40 == code
  {
    assert code == code / 0x40 * 0x40 + code % 0x40;
    assert code / 0x40 == code / 0x40 / 0x40 * 0x40 + code / 0x40 % 0x40;
    assert code / 0x40 / 0x40 == code / 0x1000;
  }

  /** A byte that begins none is its own unit; one whose tails are missing is malformed. */
  lemma UnitOfOneByte(s: string)
    requires s != ""
    ensures var first := s[0] as nat;
      var n := if 0xC0 <= first < 0xE0 then 2 else if 0xE0 <= first < 0xF0 then 3 else 1;
      && (n == 1 ==> CodeUnit(s) == Unit(first, 1))
      && (n > 1 && (|s| < n || exists k :: 1 <= k < n && !(0x80 <= s[k] as nat < 0xC0)) ==> CodeUnit(s) == MALFORMED)
  {
  }

  /** The code units that must not stand in a literal in a page: quotes, mark-up, controls, separators. */
  predicate IsTouched(code: nat) {
    || code in {0x2028, 0x2029, 0, 8, 9, 10, 11, 12, 13}
    || code in {0x22, 0x26, 0x27, 0x3c, 0x3d, 0x3e, 0x5c}
  }

  lemma TouchedIff(code: nat)
    ensures EscapeOf(code) != "" <==> IsTouched(code)
  {
  }

  /** Nothing else is escaped: a text without such units comes out as it came in. */
  lemma {:induction false} HarmlessIsKept(s: string)
    requires forall i :: 0 <= i < |s| ==> !IsTouched(CodeUnit(s[i..]).code)
    ensures Escape(s) == s
    decreases |s|
  {
    hide CodeUnit, EscapeOf, IsTouched;
    if s != "" {
      var u := CodeUnit(s);
      assert s[0..] == s;
      TouchedIff(u.code);
      var rest := s[u.length..];
      assert forall i :: 0 <= i < |rest| ==> rest[i..] == s[i + u.length..];
      HarmlessIsKept(rest);
      assert s == s[..u.length] + rest;
    }
  }
}
