/** The stock login configuration of Arch Linux, and what arming makes of it. */
module PamArch {
  import opened Text
  import opened PamSyntax
  import opened PamRun
  import opened PamArm
  import opened PamLines
  import opened PamTexts

  const HEADER: string := "#%PAM-1.0"
  const REQUIRED := Keyword("required")
  const OPTIONAL := Keyword("optional")
  const HOME := Bracket(["success=2", "default=ignore"])
  const UNIX := Bracket(["success=1", "default=bad"])
  const DIE := Bracket(["default=die"])

  /** After a keyword. */
  const WIDE: string := "                    "

  const PREAUTH := RuleLine("auth", "       ", REQUIRED, WIDE, ["pam_faillock.so", "preauth"], ["      "])
  const SYSTEMD := RuleLine("-auth", "      ", HOME, "  ", ["pam_systemd_home.so"], [])
  const PASSWORD := RuleLine("auth", "       ", UNIX, "     ", ["pam_unix.so", "try_first_pass", "nullok"], ["          ", " "])
  const AUTHFAIL := RuleLine("auth", "       ", DIE, "               ", ["pam_faillock.so", "authfail"], ["      "])
  const PERMIT := RuleLine("auth", "       ", OPTIONAL, WIDE, ["pam_permit.so"], [])
  const ENVIRONMENT := RuleLine("auth", "       ", REQUIRED, WIDE, ["pam_env.so"], [])
  const AUTHSUCC := RuleLine("auth", "       ", REQUIRED, WIDE, ["pam_faillock.so", "authsucc"], ["      "])

  const ARCH: seq<RuleLine> := [PREAUTH, SYSTEMD, PASSWORD, AUTHFAIL, PERMIT, ENVIRONMENT, AUTHSUCC]

  const ACCOUNT: string := "account" + "    " + "required" + WIDE + "pam_unix.so"

  // ---- the words of the configuration ----

  predicate LocalGap(g: string) { Gap(g) && '\n' !in g }

  predicate PlainWord(w: string) { Inked(w) && '=' !in w }

  lemma KeywordUsual(l: RuleLine, n: nat)
    requires l.control.Keyword? && l.kind in {"auth", "-auth"} && Inked(l.kind) && LocalGap(l.gap) && LocalGap(l.space)
    requires PlainWord(l.control.name) && |l.words| == |l.gaps| + 1
    requires forall i :: 0 <= i < |l.words| ==> PlainWord(l.words[i])
    requires forall i :: 0 <= i < |l.gaps| ==> LocalGap(l.gaps[i])
    ensures UsualLine(l, n)
  {
  }

  lemma BlockUsual(l: RuleLine, n: nat)
    requires l.control.Bracket? && l.kind in {"auth", "-auth"} && Inked(l.kind) && LocalGap(l.gap) && LocalGap(l.space)
    requires 1 <= |l.control.entries| <= 2 && AllInked(l.control.entries)
    requires if |l.control.entries| == 1 then DefaultEntry(l.control.entries[0])
             else JumpEntry(l.control.entries[0], n) && !EntryFor(l.control.entries[1], "success")
    requires |l.words| == |l.gaps| + 1
    requires forall i :: 0 <= i < |l.words| ==> PlainWord(l.words[i])
    requires forall i :: 0 <= i < |l.gaps| ==> LocalGap(l.gaps[i])
    ensures UsualLine(l, n)
  {
  }

  lemma Keywords()
    ensures PlainWord("required") && PlainWord("optional") && PlainWord("requisite") && Inked("auth") && Inked("-auth")
  {
  }

  lemma Modules()
    ensures PlainWord("pam_faillock.so") && PlainWord("pam_unix.so")
  {
  }

  lemma MoreModules()
    ensures PlainWord("pam_permit.so") && PlainWord("pam_env.so")
  {
  }

  lemma HomeModule()
    ensures PlainWord("pam_systemd_home.so")
  {
  }

  lemma Arguments()
    ensures PlainWord("preauth") && PlainWord("authfail") && PlainWord("authsucc")
    ensures PlainWord("try_first_pass") && PlainWord("nullok")
  {
  }

  lemma Entries()
    ensures Inked("success=1") && Inked("success=2") && Inked("success=3")
    ensures Inked("default=ignore") && Inked("default=bad") && Inked("default=die")
  {
  }

  lemma Gaps()
    ensures LocalGap(" ") && LocalGap("  ") && LocalGap("     ") && LocalGap("      ") && LocalGap("       ")
    ensures LocalGap("          ") && LocalGap("               ") && LocalGap(WIDE)
  {
  }

  lemma Defaults()
    ensures DefaultEntry("default=die")
    ensures !EntryFor("default=ignore", "success") && !EntryFor("default=bad", "success")
  {
    assert "default=die"[8..] == "die";
    assert "default=ignore"[0] == 'd' && "default=bad"[0] == 'd' && ("success" + "=")[0] == 's';
  }

  lemma Jumps(n: nat)
    requires n < 100
    ensures JumpEntry("success=1", n) && JumpEntry("success=2", n) && JumpEntry("success=3", n)
  {
    assert "success=1"[8..] == "1" && "success=2"[8..] == "2" && "success=3"[8..] == "3";
    assert "1"[..0] == "" && "2"[..0] == "" && "3"[..0] == "";
    assert DecimalValue("1") == 1 && DecimalValue("2") == 2 && DecimalValue("3") == 3;
  }

  lemma ArchKeywords(n: nat)
    ensures UsualLine(PREAUTH, n) && UsualLine(PERMIT, n) && UsualLine(ENVIRONMENT, n) && UsualLine(AUTHSUCC, n)
  {
    Keywords();
    Modules();
    MoreModules();
    Arguments();
    Gaps();
    KeywordUsual(PREAUTH, n);
    KeywordUsual(PERMIT, n);
    KeywordUsual(ENVIRONMENT, n);
    KeywordUsual(AUTHSUCC, n);
  }

  lemma ArchBlocks(n: nat)
    requires n < 100
    ensures UsualLine(SYSTEMD, n) && UsualLine(PASSWORD, n) && UsualLine(AUTHFAIL, n)
  {
    Keywords();
    Modules();
    HomeModule();
    Arguments();
    Entries();
    Gaps();
    Defaults();
    Jumps(n);
    BlockUsual(SYSTEMD, n);
    BlockUsual(PASSWORD, n);
    BlockUsual(AUTHFAIL, n);
  }

  lemma ArchUsual()
    ensures UsualLines(ARCH)
  {
    ArchKeywords(7);
    ArchBlocks(7);
  }

  // ---- the rewriter on it ----

  lemma NotAuth(l: string)
    requires |l| >= 2 && !IsSpace(l[0]) && l[0] != '-' && (l[0] != 'a' || l[1] != 'u')
    ensures !IsAuth(l)
  {
    assert AuthStart(l) == 0;
    if |l| >= 4 { assert l[0..4][0] == l[0] && l[0..4][1] == l[1]; }
  }

  lemma HeaderLine()
    ensures OneLine(HEADER) && !IsAuth(HEADER)
  {
    NotAuth(HEADER);
  }

  lemma AccountLacks()
    ensures '0' !in ACCOUNT
  {
  }

  lemma OtherLines()
    ensures NoRules([HEADER]) && NoRules([ACCOUNT]) && '0' !in ACCOUNT
  {
    HeaderLine();
    AccountLacks();
    AccountLine("account", "    " + "required" + WIDE, "pam_unix.so");
    assert ACCOUNT == "account" + ("    " + "required" + WIDE) + "pam_unix.so";
  }

  lemma AccountLine(a: string, b: string, c: string)
    requires |a| >= 2 && a[0] == 'a' && a[1] == 'c' && '\n' !in a && '\n' !in b && '\n' !in c && c != "" && c[|c| - 1] == 'o'
    ensures OneLine(a + b + c) && !IsAuth(a + b + c)
  {
    var l := a + b + c;
    assert l[0] == a[0] && l[1] == a[1] && l[|l| - 1] == c[|c| - 1];
    NotAuth(l);
  }

  lemma ArchLacks()
    ensures Lacks(PREAUTH, 'x') && Lacks(SYSTEMD, 'x')
  {
  }

  lemma EnvironmentLacks()
    ensures Lacks(ENVIRONMENT, 'x')
  {
  }

  lemma Names()
    ensures '[' !in "authfail" && ']' !in "authfail" && '[' !in "authsucc" && ']' !in "authsucc"
    ensures |"authfail"| == 8 && |"authsucc"| == 8 && "authfail" != "authsucc"
    ensures "authfail" != "required" && "authsucc" != "required" && "authsucc" != "optional"
  {
    assert "authfail"[4] == 'f' && "authsucc"[4] == 's' && "required"[0] == 'r' && "optional"[0] == 'o';
  }

  lemma NotFails()
    requires Sound(PREAUTH) && Sound(SYSTEMD) && Sound(PASSWORD)
    ensures "authfail" !in AllWords(PREAUTH) && "authfail" !in AllWords(SYSTEMD) && "authfail" !in AllWords(PASSWORD)
  {
    Names();
    NotAWord(PREAUTH, "authfail");
    NotAWord(SYSTEMD, "authfail");
    NotAWord(PASSWORD, "authfail");
  }

  lemma NotSuccs()
    requires Sound(PREAUTH) && Sound(SYSTEMD) && Sound(PASSWORD) && Sound(AUTHFAIL) && Sound(PERMIT) && Sound(ENVIRONMENT)
    ensures "authsucc" !in AllWords(PREAUTH) && "authsucc" !in AllWords(SYSTEMD) && "authsucc" !in AllWords(PASSWORD)
    ensures "authsucc" !in AllWords(AUTHFAIL) && "authsucc" !in AllWords(PERMIT) && "authsucc" !in AllWords(ENVIRONMENT)
  {
    Names();
    NotAWord(PREAUTH, "authsucc");
    NotAWord(SYSTEMD, "authsucc");
    NotAWord(PASSWORD, "authsucc");
    NotAWord(AUTHFAIL, "authsucc");
    NotAWord(PERMIT, "authsucc");
    NotAWord(ENVIRONMENT, "authsucc");
  }

  lemma ArchPlanned(ls: seq<RuleLine>)
    requires ls == ARCH && forall i :: 0 <= i < |ls| ==> Sound(ls[i])
    ensures Planned(ls, 2, 3, 6)
  {
    ArchSound(ls);
    ArchLacks();
    NotFails();
    NotSuccs();
    PlannedAt(ls);
  }

  lemma ArchSound(ls: seq<RuleLine>)
    requires ls == ARCH && forall i :: 0 <= i < |ls| ==> Sound(ls[i])
    ensures Sound(PREAUTH) && Sound(SYSTEMD) && Sound(PASSWORD) && Sound(AUTHFAIL) && Sound(PERMIT) && Sound(ENVIRONMENT)
  {
    assert Sound(ls[0]) && Sound(ls[1]) && Sound(ls[2]) && Sound(ls[3]) && Sound(ls[4]) && Sound(ls[5]);
  }

  /** Seven lines, the third naming the password module, the fourth authfail, the last authsucc. */
  lemma PlannedAt(ls: seq<RuleLine>)
    requires |ls| == 7 && forall i :: 0 <= i < |ls| ==> Sound(ls[i])
    requires Module(ls[2]) == "pam_unix.so" && Lacks(ls[0], 'x') && Lacks(ls[1], 'x')
    requires Module(ls[3]) == "pam_faillock.so" && "authfail" in ls[3].words
    requires "authfail" !in AllWords(ls[0]) && "authfail" !in AllWords(ls[1]) && "authfail" !in AllWords(ls[2])
    requires Module(ls[6]) == "pam_faillock.so" && "authsucc" in ls[6].words
    requires "authsucc" !in AllWords(ls[0]) && "authsucc" !in AllWords(ls[1]) && "authsucc" !in AllWords(ls[2])
    requires "authsucc" !in AllWords(ls[3]) && "authsucc" !in AllWords(ls[4]) && "authsucc" !in AllWords(ls[5])
    ensures Planned(ls, 2, 3, 6)
  {
  }

  lemma KeywordZeros()
    ensures Lacks(PREAUTH, '0') && Lacks(PERMIT, '0') && Lacks(ENVIRONMENT, '0') && Lacks(AUTHSUCC, '0')
  {
  }

  lemma BlockZeros()
    ensures Lacks(SYSTEMD, '0') && Lacks(PASSWORD, '0') && Lacks(AUTHFAIL, '0')
  {
  }

  lemma NoZeros()
    ensures forall l :: l in ARCH ==> Lacks(l, '0')
  {
    KeywordZeros();
    BlockZeros();
  }

  /** The header has the only zero of the text, and no marker around it. */
  lemma OnlyZero(rest: string)
    requires '0' !in rest
    ensures !Contains(HEADER + "\n" + rest, ARM_MARKER)
  {
    var s := HEADER + "\n" + rest;
    assert ARM_MARKER[8] == '0' && ARM_MARKER[0] == 'd';
    forall i: nat
      ensures !At(s, ARM_MARKER, i)
    {
      if i + |ARM_MARKER| <= |s| {
        assert s[i..i + |ARM_MARKER|][8] == s[i + 8] && s[i..i + |ARM_MARKER|][0] == s[i];
        if i == 0 { assert s[0] == '#'; } else if i + 8 == 9 { assert s[9] == '\n'; } else {
          assert s[i + 8] == rest[i - 2] && rest[i - 2] in rest;
        }
      }
    }
  }

  lemma ArchUnmarked(text: string, head: seq<string>, ls: seq<RuleLine>, tail: seq<string>)
    requires IsArchText(text, head, ls, tail) && UsualLines(ls)
    ensures !Contains(text, ARM_MARKER)
  {
    NoZeros();
    OtherLines();
    forall i | 0 <= i < |ls| ensures '0' !in LineTexts(ls)[i] {
      assert ls[i] in ARCH;
      LineLacks(ls[i], '0');
    }
    var rest := LineTexts(ls) + tail;
    UnlinesLacks(rest, '0');
    assert ConfigLines(head, ls, tail) == [HEADER] + rest;
    assert ([HEADER] + rest)[1..] == rest;
    OnlyZero(Unlines(rest));
  }

  const STOCK := [REQUIRED, HOME, UNIX, DIE, OPTIONAL, REQUIRED, REQUIRED]

  /** A jump on success and one action for everything else. */
  lemma JumpOrElse(d: string, v: string, code: Code)
    requires d != "" && AllDigits(d)
    ensures ActionOn(Bracket(["success" + "=" + d, "default" + "=" + v]), code)
            == if code == "success" then Jump(DecimalValue(d)) else ParseAction(v)
    ensures NamesSuccess(Bracket(["success" + "=" + d, "default" + "=" + v]))
  {
    var first, last := "success" + "=" + d, "default" + "=" + v;
    var es := [first, last];
    assert es[..1] == [first] && es[..1][..0] == [] && es[1..] == [last];
    NamesOnly("success", d, code);
    NamesOnly("default", v, code);
    NamesOnly("success", d, "default");
    NamesOnly("default", v, "default");
    assert first[8..] == d && last[8..] == v;
    assert FirstEntry([last], "default") == Some(v);
    assert FirstEntry(es, "default") == Some(v);
    assert LastEntry([first], code) == if code == "success" then Some(d) else None;
    assert LastEntry(es, code) == if code == "default" then Some(v) else LastEntry([first], code);
    assert LastEntry(es, "success") == Some(d);
    DigitsAreJumps(d);
  }

  lemma StockJumps(code: Code)
    ensures ActionOn(HOME, code) == if code == "success" then Jump(2) else Ignore
    ensures ActionOn(UNIX, code) == if code == "success" then Jump(1) else Blame
    ensures NamesSuccess(HOME) && NamesSuccess(UNIX)
  {
    assert "success=1" == "success" + "=" + "1" && "success=2" == "success" + "=" + "2";
    assert "default=ignore" == "default" + "=" + "ignore" && "default=bad" == "default" + "=" + "bad";
    assert "1"[..0] == "" && "2"[..0] == "";
    assert DecimalValue("1") == 1 && DecimalValue("2") == 2;
    JumpOrElse("2", "ignore", code);
    JumpOrElse("1", "bad", code);
  }

  lemma StockFits()
    ensures JumpsFit(STOCK, 3, 6)
  {
    FailAll();
    forall k, code: Code | 0 <= k < 7
      ensures ActionOn(STOCK[k], code).Jump? ==>
                Carried(7, 3, 6, Lengthens(STOCK[k], code), k, ActionOn(STOCK[k], code).skip)
    {
      StockJumps(code);
      if ActionOn(STOCK[k], code).Jump? { LandingIff(7, 3, 6, k, ActionOn(STOCK[k], code).skip); }
    }
  }

  // ---- the login theorem applied ----

  /** The text of the configuration, its lines made of their words. */
  predicate IsArchText(text: string, head: seq<string>, ls: seq<RuleLine>, tail: seq<string>) {
    head == [HEADER] && ls == ARCH && tail == [ACCOUNT] && text == Unlines(ConfigLines(head, ls, tail))
  }

  lemma ArchFacts(ls: seq<RuleLine>)
    requires ls == ARCH
    ensures UsualLines(ls) && Planned(ls, 2, 3, 6) && ControlsOf(ls) == STOCK
  {
    ArchUsual();
    ArchPlan();
    assert ControlsOf(ls) == STOCK;
  }

  lemma ArchPlan()
    ensures (forall i :: 0 <= i < |ARCH| ==> Sound(ARCH[i])) && Planned(ARCH, 2, 3, 6)
  {
    ArchUsual();
    assert forall i :: 0 <= i < |ARCH| ==> Sound(ARCH[i]);
    ArchPlanned(ARCH);
  }

  /** The configuration meets every condition of the login theorem, with authfail at 3 and authsucc at 6. */
  lemma ArchArms(text: string, head: seq<string>, ls: seq<RuleLine>, tail: seq<string>)
    requires IsArchText(text, head, ls, tail)
    ensures Accepts(text, STOCK, 3, 6) && JumpsFit(STOCK, 3, 6)
  {
    ArchFacts(ls);
    OtherLines();
    ArchUnmarked(text, head, ls, tail);
    StockFits();
    ConfigAccepted(text, head, ls, tail, STOCK, 2, 3, 6);
  }

  /** Arming Arch Linux's configuration leaves every login alone. */
  lemma ArchLogin(text: string, head: seq<string>, ls: seq<RuleLine>, tail: seq<string>,
                  r: nat -> Code, r': nat -> Code, credits: bool)
    requires IsArchText(text, head, ls, tail) && SameModules(7, r, r', 3, 6) && r'(0) == "ignore"
    ensures LoginKept(text, STOCK, 3, 6, r, r', credits)
  {
    ArchArms(text, head, ls, tail);
    FitNeverStrays(STOCK, r, 0, 3, 6, FRESH, credits);
    AcceptedLogin(text, STOCK, 3, 6, r, r', credits);
  }

  /** Its systemd rule then jumps by three and its password rule by two, to the modules they jumped to. */
  lemma LongerJumps(armed: seq<Control>)
    requires ArmedStack(STOCK, armed, 3, 6)
    ensures ActionOn(armed[2], "success") == Jump(3) && ActionOn(armed[3], "success") == Jump(2)
  {
    StockJumps("success");
    assert PatchedControl(STOCK[1], armed[Pos(1, 3, 6)], 1, 3) && PatchedControl(STOCK[2], armed[Pos(2, 3, 6)], 2, 3);
  }
}
