/** Configurations the rewriter accepts, on which arming changes what a login or the counter does. */
module PamShutOut {
  import opened Text
  import opened PamSyntax
  import opened PamRun
  import opened PamExact
  import opened PamArm
  import opened PamTheorem
  import opened PamLines
  import opened PamTexts
  import opened PamArch
  import opened PamModule

  const UNIX3 := Bracket(["success=3", "default=bad"])
  const REQUISITE := Keyword("requisite")

  const JUMPING := RuleLine("auth", "       ", UNIX3, "     ", ["pam_unix.so"], [])
  const PLAIN := RuleLine("auth", "       ", REQUIRED, WIDE, ["pam_unix.so"], [])
  const NOLOGIN := RuleLine("auth", "       ", REQUISITE, WIDE, ["pam_nologin.so"], [])
  const OPTIONAL_SUCC := RuleLine("auth", "       ", OPTIONAL, WIDE, ["pam_faillock.so", "authsucc"], ["      "])

  /** The password rule jumps over authsucc and the rule after it. */
  const LONG: seq<RuleLine> := [JUMPING, AUTHFAIL, AUTHSUCC, NOLOGIN, ENVIRONMENT]
  const LONG_STACK := [UNIX3, DIE, REQUIRED, REQUISITE, REQUIRED]

  /** The password rule jumps one past the end. */
  const PAST: seq<RuleLine> := [ENVIRONMENT, JUMPING, AUTHFAIL, AUTHSUCC]
  const PAST_STACK := [REQUIRED, UNIX3, DIE, REQUIRED]

  /** Authsucc before authfail. */
  const EARLY: seq<RuleLine> := [PLAIN, OPTIONAL_SUCC, AUTHFAIL]
  const EARLY_STACK := [REQUIRED, OPTIONAL, DIE]

  const RENEWAL: Code := "new_authtok_reqd"
  const TOKEN := Bracket(["success=1", "new_authtok_reqd=1"])
  const RENEWING := RuleLine("auth", "       ", TOKEN, "     ", ["pam_unix.so"], [])

  /** The password rule jumps over authfail on a code other than success too. */
  const OTHER: seq<RuleLine> := [RENEWING, AUTHFAIL, AUTHSUCC]
  const OTHER_STACK := [TOKEN, DIE, REQUIRED]

  predicate IsText(text: string, none: seq<string>, ls: seq<RuleLine>)
    requires forall i :: 0 <= i < |ls| ==> Shaped(ls[i])
  {
    none == [] && ls != [] && text == Unlines(ConfigLines(none, ls, none))
  }

  // ---- the lines ----

  lemma NologinWord()
    ensures PlainWord("pam_nologin.so")
  {
  }

  lemma LinesUsual(n: nat)
    requires n < 100
    ensures UsualLine(JUMPING, n) && UsualLine(PLAIN, n) && UsualLine(NOLOGIN, n) && UsualLine(OPTIONAL_SUCC, n)
  {
    Keywords();
    Modules();
    NologinWord();
    Arguments();
    Entries();
    Gaps();
    Defaults();
    Jumps(n);
    BlockUsual(JUMPING, n);
    KeywordUsual(PLAIN, n);
    KeywordUsual(NOLOGIN, n);
    KeywordUsual(OPTIONAL_SUCC, n);
  }

  lemma LinesLack()
    ensures Lacks(JUMPING, '0') && Lacks(PLAIN, '0') && Lacks(NOLOGIN, '0') && Lacks(OPTIONAL_SUCC, '0')
  {
  }

  lemma AllSound()
    ensures Sound(JUMPING) && Sound(PLAIN) && Sound(OPTIONAL_SUCC) && Sound(AUTHFAIL) && Sound(AUTHSUCC) && Sound(ENVIRONMENT)
  {
    LinesUsual(5);
    ArchKeywords(5);
    ArchBlocks(5);
  }

  lemma LineNames()
    requires Sound(JUMPING) && Sound(PLAIN) && Sound(OPTIONAL_SUCC) && Sound(AUTHFAIL) && Sound(ENVIRONMENT)
    ensures "authfail" !in AllWords(JUMPING) && "authfail" !in AllWords(PLAIN) && "authfail" !in AllWords(OPTIONAL_SUCC)
    ensures "authfail" !in AllWords(ENVIRONMENT)
    ensures "authsucc" !in AllWords(JUMPING) && "authsucc" !in AllWords(PLAIN) && "authsucc" !in AllWords(AUTHFAIL)
    ensures "authsucc" !in AllWords(ENVIRONMENT)
  {
    Names();
    NotAWord(JUMPING, "authfail");
    NotAWord(PLAIN, "authfail");
    assert "authfail" != "optional" by { assert "authfail"[0] == 'a' && "optional"[0] == 'o'; }
    NotAWord(OPTIONAL_SUCC, "authfail");
    NotAWord(ENVIRONMENT, "authfail");
    NotAWord(JUMPING, "authsucc");
    NotAWord(PLAIN, "authsucc");
    NotAWord(AUTHFAIL, "authsucc");
    NotAWord(ENVIRONMENT, "authsucc");
  }

  /** A text without a zero has no marker, and is accepted. */
  lemma TextAccepted(text: string, none: seq<string>, ls: seq<RuleLine>, cs: seq<Control>, u: nat, f: nat, s: nat)
    requires UsualLines(ls) && Planned(ls, u, f, s) && ControlsOf(ls) == cs && IsText(text, none, ls)
    requires forall i :: 0 <= i < |ls| ==> Lacks(ls[i], '0')
    ensures Accepts(text, cs, f, s)
  {
    TextLacks(text, none, ls);
    ConfigAccepted(text, none, ls, none, cs, u, f, s);
  }

  lemma LongUsual(ls: seq<RuleLine>)
    requires ls == LONG
    ensures UsualLines(ls)
  {
    LinesUsual(5);
    ArchKeywords(5);
    ArchBlocks(5);
  }

  lemma LongLacks(ls: seq<RuleLine>)
    requires ls == LONG
    ensures forall i :: 0 <= i < |ls| ==> Lacks(ls[i], '0')
  {
    LinesLack();
    KeywordZeros();
    BlockZeros();
  }

  lemma LongPlanned(ls: seq<RuleLine>)
    requires ls == LONG && UsualLines(ls)
    ensures Planned(ls, 0, 1, 2)
  {
    AllSound();
    LineNames();
  }

  lemma LongControls(ls: seq<RuleLine>)
    requires ls == LONG
    ensures ControlsOf(ls) == LONG_STACK
  {
  }

  lemma LongAccepted(text: string, none: seq<string>, ls: seq<RuleLine>)
    requires ls == LONG && IsText(text, none, ls)
    ensures Accepts(text, LONG_STACK, 1, 2)
  {
    LongUsual(ls);
    LongLacks(ls);
    LongPlanned(ls);
    LongControls(ls);
    TextAccepted(text, none, ls, LONG_STACK, 0, 1, 2);
  }

  lemma PastUsual(ls: seq<RuleLine>)
    requires ls == PAST
    ensures UsualLines(ls)
  {
    LinesUsual(4);
    ArchKeywords(4);
    ArchBlocks(4);
  }

  lemma PastLacks(ls: seq<RuleLine>)
    requires ls == PAST
    ensures forall i :: 0 <= i < |ls| ==> Lacks(ls[i], '0')
  {
    LinesLack();
    KeywordZeros();
    BlockZeros();
  }

  lemma PastPlanned(ls: seq<RuleLine>)
    requires ls == PAST && UsualLines(ls)
    ensures Planned(ls, 1, 2, 3)
  {
    AllSound();
    EnvironmentLacks();
    LineNames();
  }

  lemma PastControls(ls: seq<RuleLine>)
    requires ls == PAST
    ensures ControlsOf(ls) == PAST_STACK
  {
  }

  lemma PastAccepted(text: string, none: seq<string>, ls: seq<RuleLine>)
    requires ls == PAST && IsText(text, none, ls)
    ensures Accepts(text, PAST_STACK, 2, 3)
  {
    PastUsual(ls);
    PastLacks(ls);
    PastPlanned(ls);
    PastControls(ls);
    TextAccepted(text, none, ls, PAST_STACK, 1, 2, 3);
  }

  lemma EarlyUsual(ls: seq<RuleLine>)
    requires ls == EARLY
    ensures UsualLines(ls)
  {
    LinesUsual(3);
    ArchKeywords(3);
    ArchBlocks(3);
  }

  lemma EarlyLacks(ls: seq<RuleLine>)
    requires ls == EARLY
    ensures forall i :: 0 <= i < |ls| ==> Lacks(ls[i], '0')
  {
    LinesLack();
    KeywordZeros();
    BlockZeros();
  }

  lemma EarlyPlanned(ls: seq<RuleLine>)
    requires ls == EARLY && UsualLines(ls)
    ensures Planned(ls, 0, 2, 1)
  {
    AllSound();
    LineNames();
  }

  lemma EarlyAccepted(text: string, none: seq<string>, ls: seq<RuleLine>)
    requires ls == EARLY && IsText(text, none, ls)
    ensures Accepts(text, EARLY_STACK, 2, 1)
  {
    EarlyUsual(ls);
    EarlyLacks(ls);
    EarlyPlanned(ls);
    assert ControlsOf(ls) == EARLY_STACK;
    TextAccepted(text, none, ls, EARLY_STACK, 0, 2, 1);
  }

  // ---- a jump over authsucc: granted before arming, denied after ----

  lemma Unix3(code: Code)
    ensures ActionOn(UNIX3, code) == if code == "success" then Jump(3) else Blame
    ensures NamesSuccess(UNIX3)
  {
    assert "success=3" == "success" + "=" + "3" && "default=bad" == "default" + "=" + "bad";
    assert "3"[..0] == "" && DecimalValue("3") == 3;
    JumpOrElse("3", "bad", code);
  }

  lemma LongStock(r: nat -> Code, credits: bool)
    requires r(0) == "success" && r(4) == "success"
    ensures Granted(Run(LONG_STACK, r, 0, FRESH, credits))
  {
    Unix3("success");
    var next := Jumped(FRESH, "success", credits);
    assert StepAt(LONG_STACK[0], r(0), 0, 5, FRESH, credits) == Goto(4, next);
    RunGoto(LONG_STACK, r, 0, 4, FRESH, next, credits);
    assert StepAt(LONG_STACK[4], r(4), 4, 5, next, credits) == Goto(5, Standing(Positive, "success"));
    RunGoto(LONG_STACK, r, 4, 5, next, Standing(Positive, "success"), credits);
    assert Run(LONG_STACK, r, 5, Standing(Positive, "success"), credits).standing == Standing(Positive, "success");
  }

  lemma LongArmed(armed: seq<Control>, r: nat -> Code, r': nat -> Code, credits: bool)
    requires ArmedStack(LONG_STACK, armed, 1, 2) && SameModules(5, r, r', 1, 2) && r'(0) == "ignore"
    requires r(0) == "success" && r(3) == "auth_err"
    ensures !Granted(Run(armed, r', 0, FRESH, credits))
  {
    Unix3("success");
    BehindPreauth(armed, r', credits);
    var next := Jumped(FRESH, "success", credits);
    JumpSteps(LONG_STACK, armed, 1, 2, r, r', 0, FRESH, credits);
    RunGoto(armed, r', 1, 6, FRESH, next, credits);
    assert PatchedControl(LONG_STACK[3], armed[Pos(3, 1, 2)], 3, 1);
    assert r'(Pos(3, 1, 2)) == "auth_err";
    RunStop(armed, r', 6, next, Blamed(next, "auth_err"), credits);
  }

  /** Every login in which the password is right, the module in the gap refuses, and the last one accepts. */
  lemma LongJumpChangesLogin(text: string, none: seq<string>, ls: seq<RuleLine>, r: nat -> Code, r': nat -> Code, credits: bool)
    requires ls == LONG && IsText(text, none, ls) && SameModules(5, r, r', 1, 2) && r'(0) == "ignore"
    requires r(0) == "success" && r(3) == "auth_err" && r(4) == "success"
    ensures Accepts(text, LONG_STACK, 1, 2)
    ensures Granted(Run(LONG_STACK, r, 0, FRESH, credits)) && ArmedAnswers(text, r', credits, false)
  {
    LongAccepted(text, none, ls);
    ArmedTextStack(text);
    LongStock(r, credits);
    LongArmed(Controls(Stack(Armed(text).value)), r, r', credits);
  }

  // ---- a jump one past the end: denied before arming, granted after ----

  lemma PastStock(r: nat -> Code, credits: bool)
    requires r(0) == "success" && r(1) == "success"
    ensures Run(PAST_STACK, r, 0, FRESH, credits).standing == Standing(Negative, MUST_FAIL)
  {
    Unix3("success");
    var up := Standing(Positive, "success");
    assert StepAt(PAST_STACK[0], r(0), 0, 4, FRESH, credits) == Goto(1, up);
    RunGoto(PAST_STACK, r, 0, 1, FRESH, up, credits);
    RunStop(PAST_STACK, r, 1, up, Standing(Negative, MUST_FAIL), credits);
  }

  lemma PastArmed(armed: seq<Control>, r: nat -> Code, r': nat -> Code, credits: bool)
    requires ArmedStack(PAST_STACK, armed, 2, 3) && SameModules(4, r, r', 2, 3) && r'(0) == "ignore"
    requires r(0) == "success" && r(1) == "success"
    ensures Granted(Run(armed, r', 0, FRESH, credits))
  {
    Unix3("success");
    BehindPreauth(armed, r', credits);
    var up := Standing(Positive, "success");
    StepAgrees(PAST_STACK, armed, 2, 3, r, r', 0, FRESH, credits);
    RunGoto(armed, r', 1, 2, FRESH, up, credits);
    JumpSteps(PAST_STACK, armed, 2, 3, r, r', 1, up, credits);
    RunOff(armed, r', 2, 7, up, up, credits);
  }

  /** Every login in which the first module and the password are right. */
  lemma PastEndChangesLogin(text: string, none: seq<string>, ls: seq<RuleLine>, r: nat -> Code, r': nat -> Code, credits: bool)
    requires ls == PAST && IsText(text, none, ls) && SameModules(4, r, r', 2, 3) && r'(0) == "ignore"
    requires r(0) == "success" && r(1) == "success"
    ensures Accepts(text, PAST_STACK, 2, 3)
    ensures !Granted(Run(PAST_STACK, r, 0, FRESH, credits)) && ArmedAnswers(text, r', credits, true)
  {
    PastAccepted(text, none, ls);
    ArmedTextStack(text);
    PastStock(r, credits);
    PastArmed(Controls(Stack(Armed(text).value)), r, r', credits);
  }

  // ---- a jump on another code: granted before arming, denied after ----

  lemma RenewalWord()
    ensures Inked("new_authtok_reqd=1") && !EntryFor("new_authtok_reqd=1", "success")
  {
    assert "new_authtok_reqd=1"[0] == 'n' && ("success" + "=")[0] == 's';
  }

  lemma RenewingUsual(n: nat)
    requires n < 100
    ensures UsualLine(RENEWING, n)
  {
    Keywords();
    Modules();
    Entries();
    RenewalWord();
    Gaps();
    Jumps(n);
    BlockUsual(RENEWING, n);
  }

  lemma RenewingLacks()
    ensures Lacks(RENEWING, '0')
  {
  }

  lemma OtherUsual(ls: seq<RuleLine>)
    requires ls == OTHER
    ensures UsualLines(ls)
  {
    RenewingUsual(3);
    ArchKeywords(3);
    ArchBlocks(3);
  }

  lemma OtherLacks(ls: seq<RuleLine>)
    requires ls == OTHER
    ensures forall i :: 0 <= i < |ls| ==> Lacks(ls[i], '0')
  {
    RenewingLacks();
    KeywordZeros();
    BlockZeros();
  }

  lemma OtherPlanned(ls: seq<RuleLine>)
    requires ls == OTHER && UsualLines(ls)
    ensures Planned(ls, 0, 1, 2)
  {
    AllSound();
    LineNames();
    Names();
    assert Sound(ls[0]);
    NotAWord(RENEWING, "authfail");
    NotAWord(RENEWING, "authsucc");
  }

  lemma OtherAccepted(text: string, none: seq<string>, ls: seq<RuleLine>)
    requires ls == OTHER && IsText(text, none, ls)
    ensures Accepts(text, OTHER_STACK, 1, 2)
  {
    OtherUsual(ls);
    OtherLacks(ls);
    OtherPlanned(ls);
    assert ControlsOf(ls) == OTHER_STACK;
    TextAccepted(text, none, ls, OTHER_STACK, 0, 1, 2);
  }

  lemma RenewalJumps()
    ensures ActionOn(TOKEN, RENEWAL) == Jump(1)
  {
    assert "new_authtok_reqd=1" == RENEWAL + "=" + "1";
    NamesOnly(RENEWAL, "1", RENEWAL);
    assert LastEntry(TOKEN.entries, RENEWAL) == Some("1");
    assert "1"[..0] == "" && DecimalValue("1") == 1;
    DigitsAreJumps("1");
  }

  lemma OtherStock(r: nat -> Code, credits: bool)
    requires r(0) == RENEWAL && r(2) == "success"
    ensures Granted(Run(OTHER_STACK, r, 0, FRESH, credits))
  {
    RenewalJumps();
    var next, up := Jumped(FRESH, RENEWAL, credits), Standing(Positive, "success");
    assert StepAt(OTHER_STACK[0], r(0), 0, 3, FRESH, credits) == Goto(2, next);
    RunGoto(OTHER_STACK, r, 0, 2, FRESH, next, credits);
    assert StepAt(OTHER_STACK[2], r(2), 2, 3, next, credits) == Goto(3, up);
    RunGoto(OTHER_STACK, r, 2, 3, next, up, credits);
    assert Run(OTHER_STACK, r, 3, up, credits).standing == up;
  }

  /** The jump is not lengthened for the module's authfail, so it comes to the stock one. */
  lemma OtherArmed(armed: seq<Control>, r: nat -> Code, r': nat -> Code, credits: bool)
    requires ArmedStack(OTHER_STACK, armed, 1, 2) && SameModules(3, r, r', 1, 2) && r'(0) == "ignore" && r(0) == RENEWAL
    ensures !Granted(Run(armed, r', 0, FRESH, credits))
  {
    RenewalJumps();
    BehindPreauth(armed, r', credits);
    var next := Jumped(FRESH, RENEWAL, credits);
    JumpSteps(OTHER_STACK, armed, 1, 2, r, r', 0, FRESH, credits);
    RunGoto(armed, r', 1, 3, FRESH, next, credits);
    FailDies(r(1));
    assert PatchedControl(OTHER_STACK[1], armed[Pos(1, 1, 2)], 1, 1) && r'(Pos(1, 1, 2)) == r(1);
    RunStop(armed, r', 3, next, Blamed(next, r(1)), credits);
  }

  /** Every login in which the password is right but due for renewal, and the last module accepts. */
  lemma OtherJumpChangesLogin(text: string, none: seq<string>, ls: seq<RuleLine>, r: nat -> Code, r': nat -> Code, credits: bool)
    requires ls == OTHER && IsText(text, none, ls) && SameModules(3, r, r', 1, 2) && r'(0) == "ignore"
    requires r(0) == RENEWAL && r(2) == "success"
    ensures Accepts(text, OTHER_STACK, 1, 2)
    ensures Granted(Run(OTHER_STACK, r, 0, FRESH, credits)) && ArmedAnswers(text, r', credits, false)
  {
    OtherAccepted(text, none, ls);
    ArmedTextStack(text);
    OtherStock(r, credits);
    OtherArmed(Controls(Stack(Armed(text).value)), r, r', credits);
  }

  // ---- authsucc before authfail: the limit is never reached ----

  function Refused(now: nat): Login { Login(k => "auth_err", false, now) }

  lemma EarlyFails(now: nat, credits: bool)
    ensures Fails(EARLY_STACK, 2, Refused(now), credits)
  {
    var r := Refused(now).results;
    var st := Blamed(FRESH, "auth_err");
    assert StepAt(EARLY_STACK[0], r(0), 0, 3, FRESH, credits) == Goto(1, st);
    RunGoto(EARLY_STACK, r, 0, 1, FRESH, st, credits);
    RunIgnores(EARLY_STACK, r, 1, st, credits);
    FailDies(r(2));
    RunStop(EARLY_STACK, r, 2, st, Blamed(st, "auth_err"), credits);
  }

  lemma {:induction false} EarlyStreak(h: seq<Login>, credits: bool)
    requires forall i :: 0 <= i < |h| ==> h[i] == Refused(h[i].now)
    ensures Streak(EARLY_STACK, 2, 1, h, credits) == |h| && Duresses(h) == 0
    decreases |h|
  {
    if h != [] {
      var n := |h| - 1;
      EarlyStreak(h[..n], credits);
      EarlyFails(h[n].now, credits);
    }
  }

  lemma EarlyFits()
    ensures JumpsFit(EARLY_STACK, 2, 1)
  {
    FailAll();
  }

  /** After any number of refused logins through the armed text, the count is one and nothing was launched. */
  lemma EarlySuccessForgets(text: string, none: seq<string>, ls: seq<RuleLine>, h: seq<Login>, credits: bool)
    requires ls == EARLY && IsText(text, none, ls)
    requires h != [] && forall i :: 0 <= i < |h| ==> h[i] == Refused(h[i].now)
    ensures Accepts(text, EARLY_STACK, 2, 1) && Parsed(Stack(Armed(text).value))
    ensures var armed := Controls(Stack(Armed(text).value));
            && ArmedStack(EARLY_STACK, armed, 2, 1)
            && CountOf(AfterLogins(armed, 2, 1, h, credits).attempts) == 1
            && AfterLogins(armed, 2, 1, h, credits).launched == 0
            && Streak(EARLY_STACK, 2, 1, h, credits) == |h|
  {
    EarlyAccepted(text, none, ls);
    ArmedTextStack(text);
    EarlyFits();
    EarlyStreak(h, credits);
    FitKeeps(EARLY_STACK, 2, 1, h, credits);
    HistoryCounts(EARLY_STACK, Controls(Stack(Armed(text).value)), 2, 1, h, credits);
  }
}
