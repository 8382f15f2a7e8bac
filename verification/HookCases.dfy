/** Which mkinitcpio configurations the hook can be put into and taken out of. */
module HookCases {
  import opened Text
  import opened Hooks

  // ---- HOOKS lines ----

  predicate HooksForm(l: string, a: string, rest: string) { Blank(a) && l == a + "HOOKS=" + rest }

  lemma HooksWhen(l: string, a: string, rest: string)
    requires HooksForm(l, a, rest)
    ensures IsHooks(l)
  {
    forall k | 0 <= k < |a| ensures IsSpace(l[k]) { assert l[k] == a[k] && a[k] in a; }
    assert l[|a|..] == "HOOKS=" + rest;
    assert l[|a|] == ("HOOKS=" + rest)[0] == 'H';
    SkipsAll(l, 0, |a|, IsSpace);
  }

  lemma HooksHas(l: string) returns (a: string, rest: string)
    requires IsHooks(l)
    ensures HooksForm(l, a, rest)
  {
    var i := SkipWhile(l, 0, IsSpace);
    a, rest := l[..i], l[i..][6..];
    assert l[i..] == "HOOKS=" + rest;
    assert l == a + l[i..];
  }

  /** Blanks, then `HOOKS=`. */
  ghost predicate Listing(l: string) { exists a, rest :: HooksForm(l, a, rest) }

  lemma ListingIff(l: string)
    ensures Listing(l) <==> IsHooks(l)
  {
    if Listing(l) {
      var a, rest :| HooksForm(l, a, rest);
      HooksWhen(l, a, rest);
    }
    if IsHooks(l) { var a, rest := HooksHas(l); }
  }

  ghost predicate SomeListing(ls: seq<string>) { exists i :: 0 <= i < |ls| && Listing(ls[i]) }

  lemma SawIff(ls: seq<string>)
    ensures SawHooks(ls) <==> SomeListing(ls)
  {
    forall i | 0 <= i < |ls| ensures Listing(ls[i]) <==> IsHooks(ls[i]) { ListingIff(ls[i]); }
    if SawHooks(ls) {
      var i :| 0 <= i < |ls| && IsHooks(ls[i]);
      assert Listing(ls[i]);
    }
    if SomeListing(ls) {
      var i :| 0 <= i < |ls| && Listing(ls[i]);
      assert IsHooks(ls[i]);
    }
  }

  // ---- insertion ----

  /** The line names encrypt, and does not name the hook for the first time behind it. */
  predicate Insertable(l: string) {
    var d, e := Find(l, "deathstroke"), Find(l, "encrypt");
    e.Some? && (d.Some? ==> d.value <= e.value)
  }

  ghost predicate AllInsertable(ls: seq<string>) { forall i :: 0 <= i < |ls| ==> Listing(ls[i]) ==> Insertable(ls[i]) }

  lemma EnsureLineIff(l: string)
    ensures EnsureLine(l).Ok? <==> (Listing(l) ==> Insertable(l))
  {
    ListingIff(l);
  }

  /** It goes in front of the first `encrypt`, with a space; a line that names it already stays as it is. */
  lemma InsertionIs(l: string, a: string, b: string)
    requires Listing(l) && l == a + "encrypt" + b && Find(l, "encrypt") == Some(|a|)
    ensures !Contains(l, "deathstroke") ==> EnsureLine(l) == Ok(a + ("deathstroke" + " ") + ("encrypt" + b))
    ensures Contains(l, "deathstroke") && EnsureLine(l).Ok? ==> EnsureLine(l).value == l
  {
    ListingIff(l);
    assert l[..|a|] == a && l[|a|..] == "encrypt" + b;
  }

  /** The hook can be inserted if and only if the file has a HOOKS line and every one names encrypt, with no hook behind it. */
  lemma EnsuredIff(text: string)
    ensures Ensured(text).Ok? <==> SomeListing(Lines(text)) && AllInsertable(Lines(text))
    ensures Ensured(text) == Err(NoHooks) <==> !SomeListing(Lines(text))
  {
    var ls := Lines(text);
    SawIff(ls);
    forall i | 0 <= i < |ls| ensures EnsureLine(ls[i]).Ok? <==> (Listing(ls[i]) ==> Insertable(ls[i])) { EnsureLineIff(ls[i]); }
    if !SomeListing(ls) {
      assert forall i :: 0 <= i < |ls| ==> EnsureLine(ls[i]).Ok?;
    } else {
      NeverNoHooks(ls);
    }
  }

  lemma {:induction false} NeverNoHooks(ls: seq<string>)
    ensures MapLines(ls, EnsureLine) != Err(NoHooks)
    decreases |ls|
  {
    if ls != [] { NeverNoHooks(ls[..|ls| - 1]); }
  }

  // ---- removal ----

  predicate TokenStart(a: string) { a == "" || IsSpace(a[|a| - 1]) || a[|a| - 1] == '(' || a[|a| - 1] == '\"' }

  predicate TokenEnd(b: string) { b == "" || IsSpace(b[0]) || b[0] == ')' || b[0] == '\"' }

  function WithoutToken(a: string, b: string): string { a + (if b != "" && IsSpace(b[0]) then b[1..] else b) }

  /** The first occurrence of the hook is cut out, with one white space behind it, if and only if it is a token of its own, and
      removal goes on with what is left. */
  lemma RemovalStep(s: string, a: string, b: string)
    requires s == a + "deathstroke" + b && Find(s, "deathstroke") == Some(|a|)
    ensures Stripped(s) == if TokenStart(a) && TokenEnd(b) then Stripped(WithoutToken(a, b)) else Err(UnsafeToken)
  {
    var end := |a| + 11;
    assert a != "" ==> s[|a| - 1] == a[|a| - 1];
    assert b != "" ==> s[end] == b[0];
    assert s[..|a|] == a && s[end..] == b;
    assert b != "" ==> s[end + 1..] == b[1..];
    assert SafeAt(s, |a|) <==> TokenStart(a) && TokenEnd(b);
    assert Cut(s, |a|) == WithoutToken(a, b);
  }

  lemma RemovalEnd(s: string)
    requires !Contains(s, "deathstroke")
    ensures Stripped(s) == Ok(s)
  {
  }

  ghost predicate AllStrippable(ls: seq<string>) { forall i :: 0 <= i < |ls| ==> Listing(ls[i]) ==> Stripped(ls[i]).Ok? }

  /** The hook can be removed if and only if the file has a HOOKS line and it can be removed from every one. */
  lemma WithoutIff(text: string)
    ensures Without(text).Ok? <==> SomeListing(Lines(text)) && AllStrippable(Lines(text))
  {
    var ls := Lines(text);
    SawIff(ls);
    forall i | 0 <= i < |ls|
      ensures StripLine(ls[i]).Ok? <==> (Listing(ls[i]) ==> Stripped(ls[i]).Ok?)
    {
      ListingIff(ls[i]);
    }
  }
}
