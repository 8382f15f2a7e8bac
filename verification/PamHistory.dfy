/** The counter of pam_ds over logins through the armed configuration of Arch Linux. */
module PamHistory {
  import opened PamSyntax
  import opened PamRun
  import opened PamExact
  import opened PamArm
  import opened PamTheorem
  import opened PamLines
  import opened PamArch
  import opened PamModule

  // ---- failures in a row ----

  predicate AllFail(cs: seq<Control>, f: nat, h: seq<Login>, credits: bool) {
    forall i :: 0 <= i < |h| ==> Fails(cs, f, h[i], credits)
  }

  lemma {:induction false} FailedStreak(cs: seq<Control>, f: nat, s: nat, h: seq<Login>, credits: bool)
    requires AllFail(cs, f, h, credits)
    ensures Streak(cs, f, s, h, credits) == |h|
    ensures Triggers(cs, f, s, h, credits) == if |h| < 5 then 0 else |h| - 4
    decreases |h|
  {
    if h != [] {
      var n := |h| - 1;
      assert Fails(cs, f, h[n], credits);
      FailedStreak(cs, f, s, h[..n], credits);
    }
  }

  /** With authsucc behind authfail, and logins that all fail and take no jump astray: the count is their number, and the fifth
      and each one after it launches the eraser. */
  lemma FifthLaunches(cs: seq<Control>, cs': seq<Control>, f: nat, s: nat, h: seq<Login>, credits: bool)
    requires ArmedStack(cs, cs', f, s) && f <= s && AllKeep(cs, f, s, h, credits) && AllFail(cs, f, h, credits)
    ensures var e := AfterLogins(cs', f, s, h, credits);
            CountOf(e.attempts) == AtMostU32(|h|) && e.launched == if |h| < 5 then 0 else |h| - 4
  {
    HistoryCounts(cs, cs', f, s, h, credits);
    FailedStreak(cs, f, s, h, credits);
  }

  // ---- Arch Linux ----

  /** Without the duress code: neither the home directory's nor the password module says yes. */
  predicate Refuses(login: Login) { !login.duress && login.results(1) != "success" && login.results(2) != "success" }

  predicate Admits(login: Login) { !login.duress && (login.results(1) == "success" || login.results(2) == "success") }

  /** The standing after the first rule. */
  function Opened(login: Login): Standing {
    var code := login.results(0);
    if KeywordAction("required", code) == Credit then Credited(FRESH, code)
    else if KeywordAction("required", code) == Ignore then FRESH
    else Blamed(FRESH, code)
  }

  lemma FirstRule(login: Login, credits: bool)
    ensures StepAt(STOCK[0], login.results(0), 0, 7, FRESH, credits) == Goto(1, Opened(login))
  {
  }

  lemma HomeStep(r: nat -> Code, st: Standing, credits: bool)
    ensures StepAt(STOCK[1], r(1), 1, 7, st, credits)
            == if r(1) == "success" then Goto(4, Jumped(st, r(1), credits)) else Goto(2, st)
  {
    StockJumps(r(1));
  }

  lemma PasswordStep(r: nat -> Code, st: Standing, credits: bool)
    ensures StepAt(STOCK[2], r(2), 2, 7, st, credits)
            == if r(2) == "success" then Goto(4, Jumped(st, r(2), credits)) else Goto(3, Blamed(st, r(2)))
  {
    StockJumps(r(2));
  }

  lemma ArchFails(login: Login, credits: bool)
    requires Refuses(login)
    ensures Fails(STOCK, 3, login, credits)
  {
    var r, st := login.results, Opened(login);
    FirstRule(login, credits);
    HomeStep(r, st, credits);
    PasswordStep(r, st, credits);
    MeetsFourth(STOCK, r, st, Blamed(st, r(2)), credits);
  }

  /** Four rules one after the other. */
  lemma MeetsFourth(cs: seq<Control>, r: nat -> Code, st: Standing, bad: Standing, credits: bool)
    requires |cs| == 7 && StepAt(cs[0], r(0), 0, 7, FRESH, credits) == Goto(1, st)
    requires StepAt(cs[1], r(1), 1, 7, st, credits) == Goto(2, st) && StepAt(cs[2], r(2), 2, 7, st, credits) == Goto(3, bad)
    ensures 3 in Run(cs, r, 0, FRESH, credits).trace
  {
    RunGoto(cs, r, 0, 1, FRESH, st, credits);
    RunGoto(cs, r, 1, 2, st, st, credits);
    RunGoto(cs, r, 2, 3, st, bad, credits);
    assert 3 in Run(cs, r, 3, bad, credits).trace;
  }

  /** Keywords other than sufficient and requisite never end a run. */
  lemma {:induction false} RunsOn(cs: seq<Control>, r: nat -> Code, i: nat, st: Standing, credits: bool)
    requires i <= |cs| && forall k :: i <= k < |cs| ==> cs[k] in {REQUIRED, OPTIONAL}
    ensures var o := Run(cs, r, i, st, credits); o.fell && forall k :: k in o.trace ==> k >= i
    decreases |cs| - i
  {
    if i < |cs| {
      var step := StepAt(cs[i], r(i), i, |cs|, st, credits);
      assert cs[i] in {REQUIRED, OPTIONAL};
      assert step.Goto? && step.next == i + 1;
      RunsOn(cs, r, i + 1, step.standing, credits);
    }
  }

  /** A run that comes to rule `i` and goes on from there at the fifth. */
  lemma JumpsOver(cs: seq<Control>, r: nat -> Code, i: nat, st: Standing, on: Standing, credits: bool)
    requires |cs| == 7 && i < 3 && StepAt(cs[i], r(i), i, 7, st, credits) == Goto(4, on)
    requires cs[4] == OPTIONAL && cs[5] == REQUIRED && cs[6] == REQUIRED
    ensures var o := Run(cs, r, i, st, credits); o.fell && 3 !in o.trace
  {
    RunGoto(cs, r, i, 4, st, on, credits);
    RunsOn(cs, r, 4, on, credits);
  }

  lemma GoesOn(cs: seq<Control>, r: nat -> Code, i: nat, st: Standing, next: Standing, credits: bool)
    requires |cs| == 7 && i < 3 && StepAt(cs[i], r(i), i, 7, st, credits) == Goto(i + 1, next)
    requires var o := Run(cs, r, i + 1, next, credits); o.fell && 3 !in o.trace
    ensures var o := Run(cs, r, i, st, credits); o.fell && 3 !in o.trace
  {
    RunGoto(cs, r, i, i + 1, st, next, credits);
  }

  lemma ArchPasses(login: Login, credits: bool)
    requires Admits(login)
    ensures Passes(STOCK, 3, 6, login, credits)
  {
    var r, st := login.results, Opened(login);
    FirstRule(login, credits);
    HomeStep(r, st, credits);
    PasswordStep(r, st, credits);
    if r(1) == "success" {
      JumpsOver(STOCK, r, 1, st, Jumped(st, r(1), credits), credits);
    } else {
      JumpsOver(STOCK, r, 2, st, Jumped(st, r(2), credits), credits);
      GoesOn(STOCK, r, 1, st, st, credits);
    }
    GoesOn(STOCK, r, 0, FRESH, st, credits);
  }

  /** Through the armed text: the count is the number of refused logins, and the eraser is launched at the fifth and
      each after it. */
  lemma ArchHistory(text: string, head: seq<string>, ls: seq<RuleLine>, tail: seq<string>, h: seq<Login>, credits: bool)
    requires IsArchText(text, head, ls, tail) && forall i :: 0 <= i < |h| ==> Refuses(h[i])
    ensures Armed(text).Ok? && Parsed(Stack(Armed(text).value))
    ensures var e := AfterLogins(Controls(Stack(Armed(text).value)), 3, 6, h, credits);
            CountOf(e.attempts) == AtMostU32(|h|) && e.launched == if |h| < 5 then 0 else |h| - 4
  {
    ArchArms(text, head, ls, tail);
    ArmedTextStack(text);
    FitKeeps(STOCK, 3, 6, h, credits);
    forall i | 0 <= i < |h| ensures Fails(STOCK, 3, h[i], credits) { ArchFails(h[i], credits); }
    FifthLaunches(STOCK, Controls(Stack(Armed(text).value)), 3, 6, h, credits);
  }

  /** After any logins, one that is admitted clears the count and launches nothing. */
  lemma ArchForgets(text: string, head: seq<string>, ls: seq<RuleLine>, tail: seq<string>, h: seq<Login>, last: Login,
                    credits: bool)
    requires IsArchText(text, head, ls, tail) && Admits(last)
    ensures Armed(text).Ok? && Parsed(Stack(Armed(text).value))
    ensures var armed := Controls(Stack(Armed(text).value));
            && CountOf(AfterLogins(armed, 3, 6, h + [last], credits).attempts) == 0
            && AfterLogins(armed, 3, 6, h + [last], credits).launched == AfterLogins(armed, 3, 6, h, credits).launched
  {
    ArchArms(text, head, ls, tail);
    ArmedTextStack(text);
    var armed, all := Controls(Stack(Armed(text).value)), h + [last];
    FitKeeps(STOCK, 3, 6, all, credits);
    FitKeeps(STOCK, 3, 6, h, credits);
    ArchPasses(last, credits);
    assert all[..|all| - 1] == h;
    HistoryCounts(STOCK, armed, 3, 6, all, credits);
    HistoryCounts(STOCK, armed, 3, 6, h, credits);
  }
}
