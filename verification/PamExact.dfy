/** Exactly which logins arming leaves alone. */
module PamExact {
  import opened PamSyntax
  import opened PamRun

  lemma SuccIff(o: Outcome, a: Outcome, f: nat, s: nat)
    ensures SameWork(o, a.(trace := [SuccPos(f, s)] + a.trace), f, s) ==> SameWork(o, a, f, s)
  {
    OriginalsCons(SuccPos(f, s), a.trace, f, s);
    assert SuccPos(f, s) != FailPos(f, s);
  }

  /** An armed run that starts at the place of stock rule `q` executes that rule. */
  lemma RunsRule(cs': seq<Control>, r': nat -> Code, n: nat, q: nat, f: nat, s: nat, st: Standing, credits: bool)
    requires |cs'| == n + 3 && q < n
    ensures var x := Originals(Run(cs', r', Pos(q, f, s), st, credits).trace, f, s); x != [] && x[0] == q
  {
    var p := Pos(q, f, s);
    var a := Run(cs', r', p, st, credits);
    assert a.trace != [] && a.trace[0] == p;
    OriginalsCons(p, a.trace[1..], f, s);
    assert a.trace == [p] + a.trace[1..];
    assert p != 0 && p != FailPos(f, s) && p != SuccPos(f, s);
    assert Back(p, f, s) == q;
  }

  /** The two runs are no simulation; started behind authsucc, they do not even do the same work. */
  ghost predicate Differs(o: Outcome, a: Outcome, n: nat, f: nat, s: nat, i: nat) {
    if i <= s then !Simulates(o, a, n, f, s) else !SameWork(o, a, f, s)
  }

  /** Where a jump that is not carried arrives: at the end, at one of the module's rules, or at an original rule in between. */
  lemma LandsShort(n: nat, f: nat, s: nat, longer: bool, k: nat, j: nat) returns (m: nat)
    requires f < n && s < n && k < n && !Carried(n, f, s, longer, k, j)
    ensures var l := Landing(longer, k, j, f, s);
            || (l == n + 3 && k + j >= n)
            || (l == FailPos(f, s) && k + j == f)
            || (l == SuccPos(f, s) && k + j == s + 1 && k <= s)
            || (l == Pos(m, f, s) && k < m < n && m <= k + j)
  {
    FallsShort(n, f, s, longer, k, j);
    m := k + j + 1 - Short(longer, k, j, f, s);
  }

  /** After a jump that goes astray. */
  lemma AstrayDiffers(cs: seq<Control>, cs': seq<Control>, f: nat, s: nat, r: nat -> Code, r': nat -> Code,
                      i: nat, st: Standing, credits: bool)
    requires ArmedStack(cs, cs', f, s) && SameModules(|cs|, r, r', f, s) && i < |cs| && i != f
    requires Astray(cs, r, i, f, s, st, credits)
    ensures Differs(Run(cs, r, i, st, credits), Run(cs', r', Pos(i, f, s), st, credits), |cs|, f, s, i)
  {
    var j := ActionOn(cs[i], r(i)).skip;
    var l := Landing(Lengthens(cs[i], r(i)), i, j, f, s);
    JumpSteps(cs, cs', f, s, r, r', i, st, credits);
    var m := LandsShort(|cs|, f, s, Lengthens(cs[i], r(i)), i, j);
    Lands(cs, cs', f, s, r, r', i, i + 1 + j, l, m, st, Jumped(st, r(i), credits), credits);
  }

  lemma Lands(cs: seq<Control>, cs': seq<Control>, f: nat, s: nat, r: nat -> Code, r': nat -> Code,
              i: nat, t: nat, l: nat, m: nat, st: Standing, next: Standing, credits: bool)
    requires f < |cs| && s < |cs| && |cs'| == |cs| + 3 && i < |cs| && i != f && i < t && l <= |cs'|
    requires StepAt(cs[i], r(i), i, |cs|, st, credits) == if t > |cs| then Stop(DENIED) else Goto(t, next)
    requires var p := Pos(i, f, s); StepAt(cs'[p], r'(p), p, |cs'|, st, credits) == Goto(l, next)
    requires (l == |cs'| && t > |cs| && next != DENIED) || Misses(f, s, i, |cs|, t, l, m)
    ensures Differs(Run(cs, r, i, st, credits), Run(cs', r', Pos(i, f, s), st, credits), |cs|, f, s, i)
  {
    if t <= |cs| {
      LandsInside(cs, cs', f, s, r, r', i, t, l, m, next, credits);
      GoneFrom(cs, cs', r, r', f, s, i, Pos(i, f, s), t, l, st, next, credits);
    } else if l == |cs'| && next != DENIED {
      LandsAtEnd(cs, cs', f, s, r, r', i, st, next, credits);
    } else {
      GoesOn(cs, cs', f, s, r, r', i, m, l, st, next, credits);
    }
  }

  /** A place `l` that is not that of target `t`. */
  predicate Misses(f: nat, s: nat, i: nat, n: nat, t: nat, l: nat, m: nat) {
    || (l == FailPos(f, s) && t == f + 1)
    || (l == SuccPos(f, s) && t == s + 2 && i <= s)
    || (l == Pos(m, f, s) && i < m < n && m < t)
  }

  lemma LandsInside(cs: seq<Control>, cs': seq<Control>, f: nat, s: nat, r: nat -> Code, r': nat -> Code,
                    i: nat, t: nat, l: nat, m: nat, next: Standing, credits: bool)
    requires f < |cs| && s < |cs| && |cs'| == |cs| + 3 && t <= |cs| && l <= |cs'| && Misses(f, s, i, |cs|, t, l, m)
    ensures var o, a := Run(cs, r, t, next, credits), Run(cs', r', l, next, credits);
            !SameWork(o, a, f, s) || (i <= s && !Simulates(o, a, |cs|, f, s))
  {
    if l == FailPos(f, s) && t == f + 1 {
      LandsOnFail(cs, cs', f, s, r, r', t, l, next, credits);
    } else if l == SuccPos(f, s) && t == s + 2 {
      LandsOnSucc(cs, cs', f, s, r, r', t, l, next, credits);
    } else {
      TooEarly(cs, cs', f, s, r, r', m, t, l, next, credits);
    }
  }

  /** Behind authfail the stock run never comes to it. */
  lemma LandsOnFail(cs: seq<Control>, cs': seq<Control>, f: nat, s: nat, r: nat -> Code, r': nat -> Code,
                    t: nat, l: nat, st: Standing, credits: bool)
    requires |cs'| == |cs| + 3 && t == f + 1 <= |cs| && l == FailPos(f, s)
    ensures !SameWork(Run(cs, r, t, st, credits), Run(cs', r', l, st, credits), f, s)
  {
    Forward(cs, r, t, st, credits);
    assert l in Run(cs', r', l, st, credits).trace;
  }

  /** Behind the rule after authsucc the stock run has not come past authsucc. */
  lemma LandsOnSucc(cs: seq<Control>, cs': seq<Control>, f: nat, s: nat, r: nat -> Code, r': nat -> Code,
                    t: nat, l: nat, st: Standing, credits: bool)
    requires |cs'| == |cs| + 3 && t == s + 2 <= |cs| && l == SuccPos(f, s)
    ensures !Simulates(Run(cs, r, t, st, credits), Run(cs', r', l, st, credits), |cs|, f, s)
  {
    Forward(cs, r, t, st, credits);
    assert l in Run(cs', r', l, st, credits).trace;
  }

  /** Two steps alike in front of runs that differ. */
  lemma GoneFrom(cs: seq<Control>, cs': seq<Control>, r: nat -> Code, r': nat -> Code, f: nat, s: nat,
                 i: nat, p: nat, k: nat, e: nat, st: Standing, next: Standing, credits: bool)
    requires i < |cs| && i != f && p == Pos(i, f, s) && p < |cs'|
    requires StepAt(cs[i], r(i), i, |cs|, st, credits) == Goto(k, next)
    requires StepAt(cs'[p], r'(p), p, |cs'|, st, credits) == Goto(e, next)
    requires var o, a := Run(cs, r, k, next, credits), Run(cs', r', e, next, credits);
             !SameWork(o, a, f, s) || (i <= s && !Simulates(o, a, |cs|, f, s))
    ensures Differs(Run(cs, r, i, st, credits), Run(cs', r', p, st, credits), |cs|, f, s, i)
  {
    RunGoto(cs, r, i, k, st, next, credits);
    RunGoto(cs', r', p, e, st, next, credits);
    PrependIff(Run(cs, r, k, next, credits), Run(cs', r', e, next, credits), |cs|, f, s, i, p);
  }

  lemma LandsAtEnd(cs: seq<Control>, cs': seq<Control>, f: nat, s: nat, r: nat -> Code, r': nat -> Code,
                   i: nat, st: Standing, next: Standing, credits: bool)
    requires |cs'| == |cs| + 3 && i < |cs| && i != f && next != DENIED
    requires StepAt(cs[i], r(i), i, |cs|, st, credits) == Stop(DENIED)
    requires var p := Pos(i, f, s); StepAt(cs'[p], r'(p), p, |cs'|, st, credits) == Goto(|cs'|, next)
    ensures !SameWork(Run(cs, r, i, st, credits), Run(cs', r', Pos(i, f, s), st, credits), f, s)
  {
    var p := Pos(i, f, s);
    RunOff(cs', r', p, |cs'|, st, next, credits);
    RunStop(cs, r, i, st, DENIED, credits);
    OtherVerdict(Run(cs, r, i, st, credits), Run(cs', r', p, st, credits), f, s, i);
  }

  /** The stock run ends here and the armed one executes a further rule. */
  lemma GoesOn(cs: seq<Control>, cs': seq<Control>, f: nat, s: nat, r: nat -> Code, r': nat -> Code,
               i: nat, m: nat, l: nat, st: Standing, next: Standing, credits: bool)
    requires f < |cs| && |cs'| == |cs| + 3 && i < |cs| && i != f
    requires StepAt(cs[i], r(i), i, |cs|, st, credits) == Stop(DENIED)
    requires var p := Pos(i, f, s); StepAt(cs'[p], r'(p), p, |cs'|, st, credits) == Goto(l, next)
    requires (l == SuccPos(f, s) && i <= s && s + 1 == |cs|) || (l == Pos(m, f, s) && m < |cs|)
    ensures Differs(Run(cs, r, i, st, credits), Run(cs', r', Pos(i, f, s), st, credits), |cs|, f, s, i)
  {
    var p := Pos(i, f, s);
    var a := Run(cs', r', l, next, credits);
    RunStop(cs, r, i, st, DENIED, credits);
    RunGoto(cs', r', p, l, st, next, credits);
    if l == SuccPos(f, s) {
      assert l in a.trace;
    } else {
      RunsRule(cs', r', |cs|, m, f, s, next, credits);
      OneMore(a, f, s, i, p, DENIED);
    }
  }

  lemma OneMore(a: Outcome, f: nat, s: nat, i: nat, p: nat, st: Standing)
    requires i != f && p == Pos(i, f, s) && Originals(a.trace, f, s) != []
    ensures !SameWork(Outcome([i], st, false), a.(trace := [p] + a.trace), f, s)
  {
    OriginalsCons(p, a.trace, f, s);
    assert p != 0 && p != FailPos(f, s) && p != SuccPos(f, s);
  }

  /** Arriving at a rule before the target is different work. */
  lemma TooEarly(cs: seq<Control>, cs': seq<Control>, f: nat, s: nat, r: nat -> Code, r': nat -> Code,
                 m: nat, t: nat, l: nat, st: Standing, credits: bool)
    requires |cs'| == |cs| + 3 && m < t <= |cs| && l == Pos(m, f, s)
    ensures !SameWork(Run(cs, r, t, st, credits), Run(cs', r', l, st, credits), f, s)
  {
    var o := Run(cs, r, t, st, credits);
    RunsRule(cs', r', |cs|, m, f, s, st, credits);
    Forward(cs, r, t, st, credits);
    var b := Before(o.trace, f);
    assert b != [] ==> b[0] == o.trace[0] && o.trace[0] in o.trace;
  }

  lemma RunGoto(cs: seq<Control>, r: nat -> Code, i: nat, k: nat, st: Standing, next: Standing, credits: bool)
    requires i < |cs| && StepAt(cs[i], r(i), i, |cs|, st, credits) == Goto(k, next)
    ensures var o := Run(cs, r, k, next, credits); Run(cs, r, i, st, credits) == o.(trace := [i] + o.trace)
  {
  }

  lemma RunStop(cs: seq<Control>, r: nat -> Code, i: nat, st: Standing, last: Standing, credits: bool)
    requires i < |cs| && StepAt(cs[i], r(i), i, |cs|, st, credits) == Stop(last)
    ensures Run(cs, r, i, st, credits) == Outcome([i], last, false)
  {
  }

  lemma OtherVerdict(o: Outcome, a: Outcome, f: nat, s: nat, i: nat)
    requires o.trace == [i] && i != f && a.standing != o.standing
    ensures !SameWork(o, a, f, s)
  {
  }

  lemma RunOff(cs: seq<Control>, r: nat -> Code, p: nat, n: nat, st: Standing, next: Standing, credits: bool)
    requires p < |cs| == n && StepAt(cs[p], r(p), p, n, st, credits) == Goto(n, next)
    ensures Run(cs, r, p, st, credits).standing == next
  {
    assert Run(cs, r, n, next, credits) == Outcome([], next, true);
  }

  lemma {:induction false} StrayFrom(cs: seq<Control>, cs': seq<Control>, f: nat, s: nat,
                                     r: nat -> Code, r': nat -> Code, i: nat, st: Standing, credits: bool)
    requires ArmedStack(cs, cs', f, s) && SameModules(|cs|, r, r', f, s) && i <= |cs|
    requires Strays(cs, r, i, f, s, st, credits)
    ensures Differs(Run(cs, r, i, st, credits), Run(cs', r', Enter(i, f, s), st, credits), |cs|, f, s, i)
    decreases |cs| - i
  {
    StrayHere(cs, cs', f, s, r, r', i, st, credits);
    EnterPlace(i, f, s);
    if i == s + 1 { StrayBehind(Run(cs, r, i, st, credits), cs', r', SuccPos(f, s), |cs|, f, s, i, st, credits); }
  }

  /** The rule inserted after authsucc comes first, and changes nothing. */
  lemma StrayBehind(o: Outcome, cs': seq<Control>, r': nat -> Code, e: nat, n: nat, f: nat, s: nat, i: nat, st: Standing,
                    credits: bool)
    requires e == SuccPos(f, s) && e < |cs'| && cs'[e] == SUCC_CONTROL && r'(e) in {"ignore", "auth_err"} && i > s
    requires Differs(o, Run(cs', r', e + 1, st, credits), n, f, s, i)
    ensures Differs(o, Run(cs', r', e, st, credits), n, f, s, i)
  {
    SkipsSucc(cs', r', e, st, credits);
    DiffersBehind(o, Run(cs', r', e + 1, st, credits), Run(cs', r', e, st, credits), n, f, s, i);
  }

  lemma EnterPlace(i: nat, f: nat, s: nat)
    requires i != f
    ensures if i == s + 1 then Enter(i, f, s) == SuccPos(f, s) && Pos(i, f, s) == SuccPos(f, s) + 1
            else Enter(i, f, s) == Pos(i, f, s)
  {
  }

  lemma SkipsSucc(cs': seq<Control>, r': nat -> Code, e: nat, st: Standing, credits: bool)
    requires e < |cs'| && cs'[e] == SUCC_CONTROL && r'(e) in {"ignore", "auth_err"}
    ensures var a := Run(cs', r', e + 1, st, credits); Run(cs', r', e, st, credits) == a.(trace := [e] + a.trace)
  {
    SuccIgnored(r'(e));
    RunIgnores(cs', r', e, st, credits);
  }

  lemma DiffersBehind(o: Outcome, a: Outcome, b: Outcome, n: nat, f: nat, s: nat, i: nat)
    requires i > s && Differs(o, a, n, f, s, i) && b == a.(trace := [SuccPos(f, s)] + a.trace)
    ensures Differs(o, b, n, f, s, i)
  {
    SuccIff(o, a, f, s);
  }

  lemma {:induction false} StrayHere(cs: seq<Control>, cs': seq<Control>, f: nat, s: nat,
                                     r: nat -> Code, r': nat -> Code, i: nat, st: Standing, credits: bool)
    requires ArmedStack(cs, cs', f, s) && SameModules(|cs|, r, r', f, s) && i <= |cs|
    requires Strays(cs, r, i, f, s, st, credits)
    ensures Differs(Run(cs, r, i, st, credits), Run(cs', r', Pos(i, f, s), st, credits), |cs|, f, s, i)
    decreases |cs| - i, 0
  {
    if Astray(cs, r, i, f, s, st, credits) {
      AstrayDiffers(cs, cs', f, s, r, r', i, st, credits);
    } else {
      var step := StepAt(cs[i], r(i), i, |cs|, st, credits);
      StrayFrom(cs, cs', f, s, r, r', step.next, step.standing, credits);
      StrayStep(cs, cs', f, s, r, r', i, st, credits);
    }
  }

  /** A step that is taken alike in front of runs that differ. A jump that is not carried and does not go astray ends the
      stock run, so there is nothing behind it. */
  lemma StrayStep(cs: seq<Control>, cs': seq<Control>, f: nat, s: nat, r: nat -> Code, r': nat -> Code,
                  i: nat, st: Standing, credits: bool)
    requires ArmedStack(cs, cs', f, s) && SameModules(|cs|, r, r', f, s) && i < |cs| && i != f
    requires !Astray(cs, r, i, f, s, st, credits)
    requires var o := StepAt(cs[i], r(i), i, |cs|, st, credits);
             o.Goto? && Differs(Run(cs, r, o.next, o.standing, credits),
                                Run(cs', r', Enter(o.next, f, s), o.standing, credits), |cs|, f, s, o.next)
    ensures Differs(Run(cs, r, i, st, credits), Run(cs', r', Pos(i, f, s), st, credits), |cs|, f, s, i)
  {
    var act, o := ActionOn(cs[i], r(i)), StepAt(cs[i], r(i), i, |cs|, st, credits);
    if act.Jump? { FallsShort(|cs|, f, s, Lengthens(cs[i], r(i)), i, act.skip); }
    StepAgrees(cs, cs', f, s, r, r', i, st, credits);
    GoneFrom(cs, cs', r, r', f, s, i, Pos(i, f, s), o.next, Enter(o.next, f, s), st, o.standing, credits);
  }

  /** A login, with no duress code seen, is left alone if and only if the stock run takes no jump that goes astray before it
      comes to authfail. */
  lemma SimulationIff(cs: seq<Control>, cs': seq<Control>, f: nat, s: nat, r: nat -> Code, r': nat -> Code, credits: bool)
    requires ArmedStack(cs, cs', f, s) && SameModules(|cs|, r, r', f, s) && r'(0) == "ignore"
    ensures var o, a := Run(cs, r, 0, FRESH, credits), Run(cs', r', 0, FRESH, credits);
            && a.trace != [] && a.trace[0] == 0
            && (Simulates(o, a.(trace := a.trace[1..]), |cs|, f, s) <==> !Strays(cs, r, 0, f, s, FRESH, credits))
  {
    BehindPreauth(cs', r', credits);
    if Strays(cs, r, 0, f, s, FRESH, credits) {
      StrayFrom(cs, cs', f, s, r, r', 0, FRESH, credits);
    } else {
      Simulation(cs, cs', f, s, r, r', credits);
    }
  }
}
