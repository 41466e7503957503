/** Whitespace tokenising in the LDML compiler: the `validSubLocales`
    membership test of `start_collations` and the token popper
    `str_pop_token`.  Positions inside a string stand for the C pointers
    into it. */
module LocaleTokens {
  import opened CText

  /** First position at or after `i` that is not whitespace, or `|s|`. */
  function SkipSpaces(s: seq<char>, i: nat): (p: nat)
    requires i <= |s|
    ensures i <= p <= |s|
    ensures forall j :: i <= j < p ==> IsSpace(s[j])
    ensures p < |s| ==> !IsSpace(s[p])
    decreases |s| - i
  {
    if i == |s| || !IsSpace(s[i]) then i else SkipSpaces(s, i + 1)
  }

  /** First position at or after `i` that is whitespace, or `|s|`. */
  function SkipWord(s: seq<char>, i: nat): (e: nat)
    requires i <= |s|
    ensures i <= e <= |s|
    ensures forall j :: i <= j < e ==> !IsSpace(s[j])
    ensures e < |s| ==> IsSpace(s[e])
    decreases |s| - i
  {
    if i == |s| || IsSpace(s[i]) then i else SkipWord(s, i + 1)
  }

  lemma {:induction false} SkipWordAt(s: seq<char>, i: nat, e: nat)
    requires i <= e <= |s| && (e == |s| || IsSpace(s[e]))
    requires forall j :: i <= j < e ==> !IsSpace(s[j])
    ensures SkipWord(s, i) == e
    decreases e - i
  {
    if i < e {
      SkipWordAt(s, i + 1, e);
    }
  }

  lemma {:induction false} SkipSpacesAt(s: seq<char>, i: nat, p: nat)
    requires i <= p <= |s| && (p == |s| || !IsSpace(s[p]))
    requires forall j :: i <= j < p ==> IsSpace(s[j])
    ensures SkipSpaces(s, i) == p
    decreases p - i
  {
    if i < p {
      SkipSpacesAt(s, i + 1, p);
    }
  }

  /** The fields of `s[i..]` separated by single whitespace characters; two
      adjacent separators delimit an empty field. */
  function Fields(s: seq<char>, i: nat): (fs: seq<seq<char>>)
    requires i <= |s|
    ensures |fs| > 0
    decreases |s| - i
  {
    var k := SkipWord(s, i);
    if k == |s| then [s[i..]] else [s[i..k]] + Fields(s, k + 1)
  }

  /** Status of `start_collations`: 0 enters the element, 1 skips it. */
  const Enter: int := 0
  const Skip: int := 1

  /** `start_collations`: scans `validSubLocales` field by field and enters
      the collations element only when the locale name is one of the fields;
      an absent attribute skips it. */
  method StartCollations(localeName: seq<char>, validSubLocales: Option<seq<char>>) returns (r: int)
    requires validSubLocales.Some? ==> NoNul(validSubLocales.value)
    ensures r == Enter || r == Skip
    ensures r == Enter <==> validSubLocales.Some? && localeName in Fields(validSubLocales.value, 0)
  {
    if validSubLocales.None? {
      return Skip;
    }
    var s := validSubLocales.value;
    var tStart, tEnd := 0, 0;
    ghost var done: seq<seq<char>> := [];
    var found := false;
    while true
      invariant 0 <= tStart <= tEnd <= |s|
      invariant forall j :: tStart <= j < tEnd ==> !IsSpace(s[j])
      invariant Fields(s, 0) == done + Fields(s, tStart)
      invariant localeName !in done
      decreases |s| - tEnd
    {
      if tEnd == |s| || IsSpace(s[tEnd]) {
        // a field ends here
        SkipWordAt(s, tStart, tEnd);
        if tEnd == |s| {
          assert s[tStart..] == s[tStart..tEnd];
        }
        assert Fields(s, tStart)[0] == s[tStart..tEnd];
        if s[tStart..tEnd] == localeName {
          assert localeName in Fields(s, 0);
          found := true;
          break;
        }
        if tEnd == |s| {
          assert Fields(s, 0) == done + [s[tStart..tEnd]];
          break;
        }
        done := done + [s[tStart..tEnd]];
        tEnd := tEnd + 1;
        tStart := tEnd;
      } else {
        tEnd := tEnd + 1;
      }
    }
    r := if found then Enter else Skip;
  }

  /** `str_pop_token` on the text starting at position `i`: skips leading
      whitespace and returns the maximal run of non-whitespace characters
      that follows, with the position just past it; when that run is empty
      both results are NULL. */
  function StrPopToken(s: seq<char>, i: nat): (r: (Option<seq<char>>, Option<nat>))
    requires i <= |s|
    ensures r.0.None? <==> r.1.None?
    ensures r.0.None? <==> forall j :: i <= j < |s| ==> IsSpace(s[j])
    ensures r.0.Some? ==>
              var t, n := r.0.value, r.1.value;
              0 < |t| && i + |t| <= n <= |s| && s[n - |t|..n] == t && NoSpace(t)
              && (forall j :: i <= j < n - |t| ==> IsSpace(s[j]))
              && (n == |s| || IsSpace(s[n]))
  {
    var p := SkipSpaces(s, i);
    var e := SkipWord(s, p);
    if e > p then (Some(s[p..e]), Some(e)) else (None, None)
  }

  /** Popping from whitespace, then a word, then text that starts with
      whitespace (or nothing) yields exactly that word and the position
      after it. */
  lemma PopTokenRoundTrip(w: seq<char>, t: seq<char>, rest: seq<char>)
    requires AllSpace(w) && |t| > 0 && NoSpace(t)
    requires |rest| == 0 || IsSpace(rest[0])
    ensures StrPopToken(w + t + rest, 0) == (Some(t), Some(|w| + |t|))
  {
    var s := w + t + rest;
    assert forall j :: 0 <= j < |w| ==> s[j] == w[j];
    assert forall j :: |w| <= j < |w| + |t| ==> s[j] == t[j - |w|];
    SkipSpacesAt(s, 0, |w|);
    SkipWordAt(s, |w|, |w| + |t|);
    assert s[|w|..|w| + |t|] == t;
  }

  /** All tokens of `s[i..]`, popped one after the other, each pop starting
      where the previous one left off (the same bounds `StrPopToken`
      computes). */
  function Tokens(s: seq<char>, i: nat): seq<seq<char>>
    requires i <= |s|
    decreases |s| - i
  {
    var p := SkipSpaces(s, i);
    var e := SkipWord(s, p);
    if e == p then [] else [s[p..e]] + Tokens(s, e)
  }

  /** `Tokens` is what repeated `str_pop_token` calls return. */
  lemma TokensArePopped(s: seq<char>, i: nat)
    requires i <= |s|
    ensures StrPopToken(s, i).0.None? ==> Tokens(s, i) == []
    ensures StrPopToken(s, i).0.Some? ==>
              Tokens(s, i) == [StrPopToken(s, i).0.value] + Tokens(s, StrPopToken(s, i).1.value)
  {
  }

  /** The non-empty members of a list of fields. */
  function NonEmpty(fs: seq<seq<char>>): seq<seq<char>> {
    if |fs| == 0 then []
    else if |fs[0]| == 0 then NonEmpty(fs[1..])
    else [fs[0]] + NonEmpty(fs[1..])
  }

  /** A blank at position `i` changes neither the token popped from `i`
      nor the tokens listed from there. */
  lemma TokensSkipBlank(s: seq<char>, i: nat)
    requires i < |s| && IsSpace(s[i])
    ensures Tokens(s, i) == Tokens(s, i + 1)
  {
    assert SkipSpaces(s, i) == SkipSpaces(s, i + 1);
  }

  lemma NonEmptyCons(x: seq<char>, rest: seq<seq<char>>)
    ensures |x| == 0 ==> NonEmpty([x] + rest) == NonEmpty(rest)
    ensures |x| > 0 ==> NonEmpty([x] + rest) == [x] + NonEmpty(rest)
  {
    assert ([x] + rest)[1..] == rest;
  }

  /** The last field, when it is the only thing left. */
  lemma TokensLastField(s: seq<char>, i: nat)
    requires i <= |s| && SkipWord(s, i) == |s|
    ensures Tokens(s, i) == NonEmpty(Fields(s, i))
  {
    assert s[i..] == s[i..|s|];
    NonEmptyCons(s[i..], []);
    if i < |s| {
      SkipSpacesAt(s, i, i);
      assert Tokens(s, |s|) == [];
    }
  }

  /** A word that ends on a blank is the next token. */
  lemma TokensWord(s: seq<char>, i: nat, k: nat)
    requires i < k < |s| && SkipWord(s, i) == k
    ensures Tokens(s, i) == [s[i..k]] + Tokens(s, k + 1)
  {
    SkipSpacesAt(s, i, i);
    TokensSkipBlank(s, k);
  }

  /** One field further: a field that ends on a blank contributes itself to
      the tokens when it is non-empty and nothing when it is empty. */
  lemma TokensFieldStep(s: seq<char>, i: nat, k: nat)
    requires i <= k < |s| && SkipWord(s, i) == k
    requires Tokens(s, k + 1) == NonEmpty(Fields(s, k + 1))
    ensures Tokens(s, i) == NonEmpty(Fields(s, i))
  {
    assert Fields(s, i) == [s[i..k]] + Fields(s, k + 1);
    NonEmptyCons(s[i..k], Fields(s, k + 1));
    if k == i {
      TokensSkipBlank(s, i);
    } else {
      TokensWord(s, i, k);
    }
  }

  /** The tokens `str_pop_token` yields are exactly the non-empty fields, in
      order. */
  lemma {:induction false} TokensAreNonEmptyFields(s: seq<char>, i: nat)
    requires i <= |s|
    ensures Tokens(s, i) == NonEmpty(Fields(s, i))
    decreases |s| - i
  {
    var k := SkipWord(s, i);
    if k == |s| {
      TokensLastField(s, i);
    } else {
      TokensAreNonEmptyFields(s, k + 1);
      TokensFieldStep(s, i, k);
    }
  }

  lemma {:induction false} InNonEmpty(fs: seq<seq<char>>, x: seq<char>)
    requires |x| > 0
    ensures x in NonEmpty(fs) <==> x in fs
    decreases |fs|
  {
    if |fs| > 0 {
      InNonEmpty(fs[1..], x);
      assert fs == [fs[0]] + fs[1..];
    }
  }

  /** For a non-empty locale name, `start_collations` matches it against
      the fields exactly as it would against the tokens `str_pop_token`
      extracts. */
  lemma SubLocaleMatchesToken(name: seq<char>, s: seq<char>)
    requires |name| > 0
    ensures name in Fields(s, 0) <==> name in Tokens(s, 0)
  {
    TokensAreNonEmptyFields(s, 0);
    InNonEmpty(Fields(s, 0), name);
  }

  /** An empty field exists as soon as two separators are adjacent, so an
      empty locale name is accepted by such a list. */
  lemma EmptyNameMatchesDoubleBlank(a: seq<char>, b: seq<char>)
    requires NoSpace(a)
    ensures [] in Fields(a + "  " + b, 0)
  {
    var s := a + "  " + b;
    assert forall j :: 0 <= j < |a| ==> s[j] == a[j];
    SkipWordAt(s, 0, |a|);
    SkipWordAt(s, |a| + 1, |a| + 1);
    assert Fields(s, 0) == [s[0..|a|]] + Fields(s, |a| + 1);
    assert Fields(s, |a| + 1)[0] == s[|a| + 1..|a| + 1] == [];
  }
}
