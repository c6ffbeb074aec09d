/**
 Fitting the modifiers an author gave to those the auto-escaper computed (template.cc,
 FindLongestMatch and TemplateToken::UpdateModifier; template_modifiers.cc,
 IsSafeXSSAlternative).
 */
module EscapeModifiers {
  datatype XssClass = XSS_UNUSED | XSS_WEB_STANDARD | XSS_UNIQUE | XSS_SAFE

  /** A modifier with its value; escaper stands for the escaping function. */
  datatype Modifier = Modifier(longName: string, xssClass: XssClass, escaper: nat, value: string)

  /** The built-in modifiers and the names of their safe alternatives. */
  type Alternatives = seq<(string, seq<string>)>

  predicate IsSafeAlternative(table: Alternatives, ours: Modifier, candidate: Modifier) {
    ours.escaper == candidate.escaper
    || exists i :: 0 <= i < |table| && table[i].0 == ours.longName && candidate.longName in table[i].1
  }

  /** A modifier that does no harm where ours is still to be found. */
  predicate IsNeutral(ours: Modifier, m: Modifier) {
    m.xssClass == ours.xssClass && m.xssClass != XSS_UNIQUE
  }

  /** The scan backwards through both lists gets through all of auto. */
  predicate Scan(table: Alternatives, man: seq<Modifier>, auto: seq<Modifier>)
    decreases |man|
  {
    if auto == [] then true
    else if man == [] then false
    else
      var m, a := man[|man| - 1], auto[|auto| - 1];
      if IsSafeAlternative(table, a, m) then Scan(table, man[..|man| - 1], auto[..|auto| - 1])
      else IsNeutral(a, m) && Scan(table, man[..|man| - 1], auto)
  }

  /** What a successful scan means: auto occurs in man, with nothing but neutral ones in the gaps. */
  ghost predicate Occurs(table: Alternatives, man: seq<Modifier>, auto: seq<Modifier>, at: seq<nat>) {
    && |at| == |auto|
    && (forall i :: 0 <= i < |at| ==> at[i] < |man| && IsSafeAlternative(table, auto[i], man[at[i]]))
    && (forall i, j :: 0 <= i < j < |at| ==> at[i] < at[j])
    && (forall i, k :: 0 <= i < |at| && at[i] < k < (if i + 1 < |at| then at[i + 1] else |man|) ==>
          IsNeutral(auto[i], man[k]))
  }

  lemma MatchLast(table: Alternatives, man: seq<Modifier>, auto: seq<Modifier>, at: seq<nat>)
    requires man != [] && auto != [] && IsSafeAlternative(table, auto[|auto| - 1], man[|man| - 1])
    requires Occurs(table, man[..|man| - 1], auto[..|auto| - 1], at)
    ensures Occurs(table, man, auto, at + [|man| - 1])
  {
    hide IsSafeAlternative, IsNeutral;
    var bt := at + [|man| - 1];
    forall i, k | 0 <= i < |bt| && bt[i] < k < (if i + 1 < |bt| then bt[i + 1] else |man|)
      ensures IsNeutral(auto[i], man[k])
    {
      if i < |at| {
        assert bt[i] == at[i] && k < (if i + 1 < |at| then at[i + 1] else |man| - 1);
        assert IsNeutral(auto[..|auto| - 1][i], man[..|man| - 1][k]);
      }
    }
  }

  lemma SkipLast(table: Alternatives, man: seq<Modifier>, auto: seq<Modifier>, at: seq<nat>)
    requires man != [] && auto != [] && IsNeutral(auto[|auto| - 1], man[|man| - 1])
    requires Occurs(table, man[..|man| - 1], auto, at)
    ensures Occurs(table, man, auto, at)
  {
    hide IsSafeAlternative, IsNeutral;
    forall i, k | 0 <= i < |at| && at[i] < k < (if i + 1 < |at| then at[i + 1] else |man|)
      ensures IsNeutral(auto[i], man[k])
    {
      if k < |man| - 1 {
        assert IsNeutral(auto[i], man[..|man| - 1][k]);
      }
    }
  }

  lemma NoneOccur(table: Alternatives, man: seq<Modifier>)
    ensures Occurs(table, man, [], [])
  {
  }

  lemma {:induction false} ScanFindsOccurrence(table: Alternatives, man: seq<Modifier>, auto: seq<Modifier>)
    returns (at: seq<nat>)
    requires Scan(table, man, auto)
    ensures Occurs(table, man, auto, at)
    decreases |man|
  {
    hide Occurs, IsSafeAlternative, IsNeutral;
    if auto == [] {
      at := [];
      NoneOccur(table, man);
    } else if IsSafeAlternative(table, auto[|auto| - 1], man[|man| - 1]) {
      at := ScanFindsOccurrence(table, man[..|man| - 1], auto[..|auto| - 1]);
      MatchLast(table, man, auto, at);
      at := at + [|man| - 1];
    } else {
      at := ScanFindsOccurrence(table, man[..|man| - 1], auto);
      SkipLast(table, man, auto, at);
    }
  }

  /** FindLongestMatch: the longest prefix of auto whose scan succeeds. */
  function LongestMatch(table: Alternatives, man: seq<Modifier>, auto: seq<Modifier>): (n: nat)
    ensures n <= |auto|
    decreases |auto|
  {
    if auto == [] || Scan(table, man, auto) then |auto| else LongestMatch(table, man, auto[..|auto| - 1])
  }

  /** No longer prefix would do. */
  lemma {:induction false} LongestMatchIsGreatest(table: Alternatives, man: seq<Modifier>, auto: seq<Modifier>, k: nat)
    requires k <= |auto|
    ensures var n := LongestMatch(table, man, auto);
      Scan(table, man, auto[..n]) && (Scan(table, man, auto[..k]) ==> k <= n)
    decreases |auto|
  {
    assert auto[..|auto|] == auto;
    if auto != [] && !Scan(table, man, auto) {
      var shorter := auto[..|auto| - 1];
      var j := if k < |auto| then k else 0;
      LongestMatchIsGreatest(table, man, shorter, j);
      assert shorter[..j] == auto[..j];
      var n := LongestMatch(table, man, shorter);
      assert shorter[..n] == auto[..n];
    }
  }

  ghost predicate HasSafe(man: seq<Modifier>) {
    exists i :: 0 <= i < |man| && man[i].xssClass == XSS_SAFE
  }

  ghost function Updated(table: Alternatives, man: seq<Modifier>, auto: seq<Modifier>): seq<Modifier> {
    if man == [] then auto
    else if HasSafe(man) then man
    else man + auto[LongestMatch(table, man, auto)..]
  }

  /** The author's modifiers stay, in their order and in front. */
  lemma UpdateKeepsAuthors(table: Alternatives, man: seq<Modifier>, auto: seq<Modifier>)
    ensures man <= Updated(table, man, auto)
  {
  }

  /** Modifiers that have been appended are found again. */
  lemma {:induction false} ScanAppended(table: Alternatives, man: seq<Modifier>, auto: seq<Modifier>, n: nat)
    requires n <= |auto|
    ensures Scan(table, man + auto[n..], auto) <==> Scan(table, man, auto[..n])
    decreases |auto|
  {
    if n == |auto| {
      assert man + auto[n..] == man && auto[..n] == auto;
    } else {
      var all, last := man + auto[n..], |auto| - 1;
      assert all[|all| - 1] == auto[last];
      assert all[..|all| - 1] == man + auto[..last][n..];
      assert auto[..last][..n] == auto[..n];
      ScanAppended(table, man, auto[..last], n);
    }
  }

  /** After the update the whole automatic list is found, exactly unless a safe modifier stood in for it. */
  lemma UpdateIsComplete(table: Alternatives, man: seq<Modifier>, auto: seq<Modifier>)
    ensures Scan(table, Updated(table, man, auto), auto) <==> !HasSafe(man) || Scan(table, man, auto)
    ensures !HasSafe(man) ==> LongestMatch(table, Updated(table, man, auto), auto) == |auto|
  {
    var n := LongestMatch(table, man, auto);
    LongestMatchIsGreatest(table, man, auto, 0);
    ScanAppended(table, man, auto, n);
    if man == [] {
      ScanAppended(table, [], auto, 0);
      assert [] + auto[0..] == auto;
    }
  }

  /** A second update changes nothing. */
  lemma UpdateIsIdempotent(table: Alternatives, man: seq<Modifier>, auto: seq<Modifier>)
    ensures Updated(table, Updated(table, man, auto), auto) == Updated(table, man, auto)
  {
    var once := Updated(table, man, auto);
    UpdateIsComplete(table, man, auto);
    if once != [] && !HasSafe(once) {
      assert HasSafe(man) ==> once == man;
      assert once + auto[|auto|..] == once;
    }
  }

  // ----- the loops -----

  /** The scan of a prefix, from the ends of both lists. */
  method ScanBackwards(table: Alternatives, man: seq<Modifier>, prefix: seq<Modifier>) returns (full: bool)
    ensures full == Scan(table, man, prefix)
  {
    hide IsSafeAlternative;
    var currAuto, currMan := |prefix|, |man|;
    assert prefix[..|prefix|] == prefix && man[..|man|] == man;
    while currAuto > 0 && currMan > 0
      invariant 0 <= currAuto <= |prefix| && 0 <= currMan <= |man|
      invariant Scan(table, man[..currMan], prefix[..currAuto]) == Scan(table, man, prefix)
      decreases currMan
    {
      var m, a := man[currMan - 1], prefix[currAuto - 1];
      assert man[..currMan][..currMan - 1] == man[..currMan - 1];
      assert prefix[..currAuto][..currAuto - 1] == prefix[..currAuto - 1];
      if IsSafeAlternative(table, a, m) {
        currAuto, currMan := currAuto - 1, currMan - 1;
      } else if m.xssClass == a.xssClass && m.xssClass != XSS_UNIQUE {
        currMan := currMan - 1;
      } else {
        break;
      }
    }
    full := currAuto == 0;
  }

  method FindLongestMatch(table: Alternatives, man: seq<Modifier>, auto: seq<Modifier>) returns (longest: nat)
    ensures longest == LongestMatch(table, man, auto)
  {
    if |auto| == 0 {
      return 0;
    }
    var endOfPrefix := |auto|;
    assert auto[..|auto|] == auto;
    while endOfPrefix > 0
      invariant 0 <= endOfPrefix <= |auto|
      invariant LongestMatch(table, man, auto[..endOfPrefix]) == LongestMatch(table, man, auto)
    {
      var full := ScanBackwards(table, man, auto[..endOfPrefix]);
      if full {
        return endOfPrefix;
      }
      assert auto[..endOfPrefix][..endOfPrefix - 1] == auto[..endOfPrefix - 1];
      endOfPrefix := endOfPrefix - 1;
    }
    assert auto[..0] == [];
    return 0;
  }

  class TemplateToken {
    var modvals: seq<Modifier>

    method UpdateModifier(table: Alternatives, auto: seq<Modifier>)
      modifies this
      ensures modvals == Updated(table, old(modvals), auto)
    {
      if |modvals| == 0 {
        var i := 0;
        while i < |auto|
          invariant 0 <= i <= |auto| && modvals == auto[..i]
        {
          modvals := modvals + [auto[i]];
          i := i + 1;
        }
        assert auto[..|auto|] == auto;
        return;
      }
      var i := 0;
      while i < |modvals|
        invariant 0 <= i <= |modvals| && modvals == old(modvals)
        invariant forall j :: 0 <= j < i ==> modvals[j].xssClass != XSS_SAFE
      {
        if modvals[i].xssClass == XSS_SAFE {
          return;
        }
        i := i + 1;
      }
      var longest := FindLongestMatch(table, modvals, auto);
      ghost var man := modvals;
      i := longest;
      assert man + auto[longest..longest] == man;
      while i < |auto|
        invariant longest <= i <= |auto| && modvals == man + auto[longest..i]
      {
        assert auto[longest..i] + [auto[i]] == auto[longest..i + 1];
        modvals := modvals + [auto[i]];
        i := i + 1;
      }
      assert auto[longest..|auto|] == auto[longest..];
    }
  }
}
