/** From text to behaviour: the armed configuration simulates the stock one. */
module PamTheorem {
  import opened Text
  import opened Sequences
  import opened PamSyntax
  import opened PamRun
  import opened PamArm
  import opened PamExact

  /** What the rewriting relies on in one auth rule of a stack of `n`: libpam can parse it, the `success=` that dsctl finds is
      the rule's own and its only one, and its jump is a plain number far from overflowing. Jumps on other codes and by
      default are not restricted. */
  ghost predicate CleanLine(line: string, n: nat) {
    && Meaning(line).Some?
    && SuccessInControl(line) && JumpEndsEntry(line)
    && var control := Meaning(line).value.control;
    && (control.Bracket? ==> OneSuccess(control.entries))
    && (if SuccessJump(line).Some? then SuccessJump(line).value + n < U64
        else NamesSuccess(control) ==> !ActionOn(control, "success").Jump?)
  }

  ghost predicate CleanLines(auth: seq<string>) {
    forall i :: 0 <= i < |auth| ==> CleanLine(auth[i], |auth|)
  }

  ghost predicate CleanText(content: string) { CleanLines(Select(Lines(content), IsAuth)) }

  ghost predicate Reads(auth: seq<string>, stack: seq<Option<Rule>>) {
    |stack| == |auth| && forall i :: 0 <= i < |auth| ==> stack[i] == Meaning(auth[i])
  }

  lemma RulesRead(ls: seq<string>)
    ensures Reads(Select(ls, IsAuth), Rules(ls))
  {
  }

  ghost predicate Parsed(stack: seq<Option<Rule>>) {
    forall i :: 0 <= i < |stack| ==> stack[i].Some?
  }

  ghost function Controls(stack: seq<Option<Rule>>): (cs: seq<Control>)
    requires Parsed(stack)
    ensures |cs| == |stack| && forall i :: 0 <= i < |cs| ==> cs[i] == stack[i].value.control
  {
    seq(|stack|, i requires 0 <= i < |stack| => stack[i].value.control)
  }

  lemma PatchedMeaning(line: string, k: nat, f: nat, n: nat)
    requires CleanLine(line, n) && k < n && f < n
    ensures var out := if k < f then PatchedLine(line, k, f) else line;
            && Meaning(out).Some?
            && PatchedControl(Meaning(line).value.control, Meaning(out).value.control, k, f)
  {
    var c := Meaning(line).value.control;
    if k >= f {
      ShiftNothing(c, k, f);
    } else if SuccessJump(line).Some? {
      LengthenedMeaning(line, k, f, n, SuccessJump(line).value);
    } else {
      ShiftNothing(c, k, f);
    }
  }

  lemma LengthenedMeaning(line: string, k: nat, f: nat, n: nat, j: nat)
    requires CleanLine(line, n) && k < f < n && SuccessJump(line) == Some(j)
    ensures var out := PatchedLine(line, k, f);
            && Meaning(out).Some?
            && PatchedControl(Meaning(line).value.control, Meaning(out).value.control, k, f)
  {
    EditedMeaning(line, j + 1);
    PatchedWhen(line, j, k, f);
    if k + j < f { ShiftNothing(Meaning(line).value.control, k, f); }
  }

  lemma PatchedWhen(line: string, j: nat, k: nat, f: nat)
    requires SuccessJump(line) == Some(j) && k + j + 1 < U64 && ReplaceSuccessJump(line, j + 1).Ok?
    ensures PatchedLine(line, k, f) == if k + j >= f then ReplaceSuccessJump(line, j + 1).value else line
  {
    assert Crosses(k, j, f) == (k + j >= f);
    LengthenedIs(line, j);
  }

  lemma LengthenedIs(line: string, j: nat)
    requires j + 1 < U64 && ReplaceSuccessJump(line, j + 1).Ok?
    ensures Lengthened(line, j) == ReplaceSuccessJump(line, j + 1).value
  {
    assert (j + 1) % U64 == j + 1;
  }

  lemma ShiftNothing(c: Control, k: nat, f: nat)
    requires NamesSuccess(c) && ActionOn(c, "success").Jump? ==> k >= f || k + ActionOn(c, "success").skip < f
    ensures PatchedControl(c, c, k, f)
  {
  }

  /** The auth stack libpam reads from the armed text is the stock stack with its crossing jumps
      lengthened and the three pam_ds rules in their places. */
  lemma ArmedTextStack(content: string)
    requires Armed(content).Ok? && CleanText(content)
    ensures PlanOf(Lines(content)).Ok?
    ensures Parsed(Stack(content)) && Parsed(Stack(Armed(content).value))
    ensures var p := PlanOf(Lines(content)).value;
            ArmedStack(Controls(Stack(content)), Controls(Stack(Armed(content).value)), p.fail, p.succ)
  {
    var ls := Lines(content);
    var p := PlanOf(ls).value;
    var out := ArmedLines(ls, p);
    ArmedAuthLines(ls, p);
    OneLineEach(ls, p);
    ArmedStackLines(content, ls, out, p.fail, p.succ);
  }

  lemma ArmedStackLines(content: string, ls: seq<string>, out: seq<string>, f: nat, s: nat)
    requires CleanText(content) && ls == Lines(content)
    requires out != [] && forall l :: l in out ==> '\n' !in l
    requires ArmedAuth(Select(ls, IsAuth), Select(out, IsAuth), f, s)
    ensures Parsed(Stack(content)) && Parsed(Stack(Unlines(out)))
    ensures ArmedStack(Controls(Stack(content)), Controls(Stack(Unlines(out))), f, s)
  {
    StackOfLines(content);
    StackOfUnlines(out);
    RulesRead(ls);
    RulesRead(out);
    StackFromLines(Select(ls, IsAuth), Select(out, IsAuth), f, s, Rules(ls), Rules(out));
  }

  lemma StackFromLines(a: seq<string>, b: seq<string>, f: nat, s: nat, sa: seq<Option<Rule>>, sb: seq<Option<Rule>>)
    requires ArmedAuth(a, b, f, s) && Reads(a, sa) && Reads(b, sb) && CleanLines(a)
    ensures Parsed(sa) && Parsed(sb) && ArmedStack(Controls(sa), Controls(sb), f, s)
  {
    PreauthMeaning();
    FailMeaning();
    SuccMeaning();
    forall k | 0 <= k < |a|
      ensures sb[Pos(k, f, s)].Some?
      ensures PatchedControl(sa[k].value.control, sb[Pos(k, f, s)].value.control, k, f)
    {
      PatchedMeaning(a[k], k, f, |a|);
    }
    AllParsed(sb, |a|, f, s);
  }

  lemma AllParsed(sb: seq<Option<Rule>>, n: nat, f: nat, s: nat)
    requires f < n && s < n && |sb| == n + 3 && sb[0].Some? && sb[FailPos(f, s)].Some? && sb[SuccPos(f, s)].Some?
    requires forall k :: 0 <= k < n ==> sb[Pos(k, f, s)].Some?
    ensures Parsed(sb)
  {
    forall i | 0 <= i < |sb|
      ensures sb[i].Some?
    {
      if i != 0 && i != FailPos(f, s) && i != SuccPos(f, s) {
        var k := Back(i, f, s);
        assert Pos(k, f, s) == i;
      }
    }
  }

  lemma OneLineEach(ls: seq<string>, p: Plan)
    requires PlanOf(ls) == Ok(p) && forall l :: l in ls ==> '\n' !in l
    ensures forall l :: l in ArmedLines(ls, p) ==> '\n' !in l
  {
    var ps := AuthPositions(ls);
    OneLineEachRule(ls, ps[0], ps[p.fail], ps[p.succ], p.fail);
  }

  lemma OneLineEachRule(ls: seq<string>, first: nat, fail: nat, succ: nat, f: nat)
    requires first < |ls| && fail < |ls| && succ < |ls| && forall l :: l in ls ==> '\n' !in l
    ensures forall l :: l in WithRules(Patched(ls, f), first, fail, succ) ==> '\n' !in l
  {
    var P := Patched(ls, f);
    forall i | 0 <= i < |P|
      ensures '\n' !in P[i]
    {
      assert ls[i] in ls;
      NoNewlinePatched(ls[i], Rank(ls, IsAuth, i), f);
    }
    InsertedOneLine();
    forall l | l in WithRules(P, first, fail, succ)
      ensures '\n' !in l
    {
      ElementsOfThree(P, first, fail, succ, PREAUTH_LINE, FAIL_LINE, SUCC_LINE, l);
    }
  }

  lemma InsertedOneLine()
    ensures '\n' !in FAIL_LINE && '\n' !in SUCC_LINE && '\n' !in PREAUTH_LINE
  {
    FailOneLine();
    SuccOneLine();
    PreauthOneLine();
  }

  lemma FailOneLine()
    ensures '\n' !in FAIL_LINE
  {
  }

  lemma SuccOneLine()
    ensures '\n' !in SUCC_LINE
  {
  }

  lemma PreauthOneLine()
    ensures '\n' !in PREAUTH_LINE
  {
  }

  lemma NoNewlinePatched(l: string, k: nat, f: nat)
    requires '\n' !in l
    ensures '\n' !in PatchedLine(l, k, f)
  {
    var out := PatchedLine(l, k, f);
    if out != l {
      var v := (SuccessJump(l).value + 1) % U64;
      var start := SuccessStart(l).value;
      assert out == l[..start] + PrintNat(v) + l[SkipWhile(l, start, IsDigit)..];
      assert '\n' !in PrintNat(v);
    }
  }

  lemma ElementsOfThree<T>(s: seq<T>, first: nat, i: nat, j: nat, x: T, y: T, z: T, e: T)
    requires first < |s| && i < |s| && j < |s|
    requires e in InsertThree(s, first, i, j, x, y, z)
    ensures e in s || e == x || e == y || e == z
  {
  }

  /** For every accepted configuration whose auth rules are clean, every choice of module results, and either treatment of
      jumps, when the preauth rule sees no duress code: if and only if the login takes no jump that goes astray before
      authfail, it runs the same stock modules in the same order to the same verdict if it skips the stock authfail, and
      reaches the module's authfail instead and is denied if it would reach it. */
  lemma ArmingPreservesLogin(content: string, r: nat -> Code, r': nat -> Code, credits: bool)
    requires Armed(content).Ok? && CleanText(content)
    requires PlanOf(Lines(content)).Ok? && Parsed(Stack(content)) && Parsed(Stack(Armed(content).value))
    requires var p := PlanOf(Lines(content)).value;
             SameModules(|Stack(content)|, r, r', p.fail, p.succ) && r'(0) == "ignore"
    ensures var p, n := PlanOf(Lines(content)).value, |Stack(content)|;
            var o := Run(Controls(Stack(content)), r, 0, FRESH, credits);
            var a := Run(Controls(Stack(Armed(content).value)), r', 0, FRESH, credits);
            && a.trace != [] && a.trace[0] == 0
            && (Simulates(o, a.(trace := a.trace[1..]), n, p.fail, p.succ)
                <==> !Strays(Controls(Stack(content)), r, 0, p.fail, p.succ, FRESH, credits))
  {
    ArmedTextStack(content);
    var p := PlanOf(Lines(content)).value;
    SimulationIff(Controls(Stack(content)), Controls(Stack(Armed(content).value)), p.fail, p.succ, r, r', credits);
  }

  // ---- arming twice ----

  lemma {:induction false} UnlinesHolds(ls: seq<string>, i: nat, pat: string)
    requires i < |ls| && Contains(ls[i], pat)
    ensures Contains(Unlines(ls), pat)
    decreases |ls|
  {
    var text := Unlines(ls);
    if i == 0 {
      var k := Find(ls[0], pat).value;
      var l := ls[0];
      assert text[..|l|] == l;
      assert text[k..k + |pat|] == l[k..k + |pat|];
      assert At(text, pat, k);
    } else {
      UnlinesHolds(ls[1..], i - 1, pat);
      var rest := Unlines(ls[1..]);
      var k, m := Find(rest, pat).value, |ls[0]| + 1;
      assert text[m..] == rest;
      assert text[m + k..m + k + |pat|] == rest[k..k + |pat|];
      assert At(text, pat, m + k);
    }
  }

  /** The armed text carries the marker, so it is recognised and never armed again. */
  lemma ArmedIsMarked(content: string)
    requires Armed(content).Ok?
    ensures !Contains(content, ARM_MARKER) && Contains(Armed(content).value, ARM_MARKER)
    ensures Armed(Armed(content).value) == Err(AlreadyArmed)
  {
    var ls := Lines(content);
    var p := PlanOf(ls).value;
    var out := ArmedLines(ls, p);
    var i := AuthPositions(ls)[0];
    assert out[i] == PREAUTH_LINE;
    ContainsMid("auth" + "       " + "[" + "success=ignore" + " " + "ignore=ignore" + " " + "default=die" + "]" + " " + PAM_MODULE
                + " " + "# ", ARM_MARKER, "");
    assert PREAUTH_LINE == "auth" + "       " + "[" + "success=ignore" + " " + "ignore=ignore" + " " + "default=die" + "]" + " "
           + PAM_MODULE + " " + "# " + ARM_MARKER + "";
    UnlinesHolds(out, i, ARM_MARKER);
  }
}
