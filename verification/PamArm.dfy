/** Arming a PAM stack: the rewriting of the text, and the stack libpam reads afterwards. */
module PamArm {
  import opened Text
  import opened PamSyntax
  import opened PamRun
  import opened Sequences

  const PAM_MODULE: string := "/usr/lib/security/pam_ds.so"
  const ARM_MARKER: string := "deathstr0ke-arm"

  const FAIL_LINE: string :=
    "auth" + "       " + "[" + "default=die" + "]" + "               " + PAM_MODULE + " " + "authfail" + " " + "# " + ARM_MARKER
  const SUCC_LINE: string :=
    "auth" + "       " + "optional" + "                    " + PAM_MODULE + " " + "authsucc" + " " + "# " + ARM_MARKER
  const PREAUTH_LINE: string :=
    "auth" + "       " + "[" + "success=ignore" + " " + "ignore=ignore" + " " + "default=die" + "]" + " " + PAM_MODULE
    + " " + "# " + ARM_MARKER

  datatype ArmError = AlreadyArmed | NoAuthRules | NoPamUnix | NoAuthfail | NoAuthsucc | BadOrder

  // ---- what the rewriting computes ----

  function AuthPositions(ls: seq<string>): seq<nat> { Positions(ls, IsAuth) }

  predicate IsUnix(l: string) { Contains(l, "pam_unix.so") }
  predicate IsAuthfail(l: string) { Contains(l, "pam_faillock.so") && "authfail" in Words(l) }
  predicate IsAuthsucc(l: string) { Contains(l, "pam_faillock.so") && "authsucc" in Words(l) }

  /** Among the auth rules: the stock authfail rule and the stock authsucc rule. */
  datatype Plan = Plan(fail: nat, succ: nat)

  function PlanOf(ls: seq<string>): (r: Result<Plan, ArmError>)
    ensures r.Ok? ==> 0 < r.value.fail < |AuthPositions(ls)| && r.value.succ < |AuthPositions(ls)|
  {
    var ps := AuthPositions(ls);
    if ps == [] then Err(NoAuthRules)
    else
      match (FirstWhere(ls, ps, IsUnix, 0), FirstWhere(ls, ps, IsAuthfail, 0), FirstWhere(ls, ps, IsAuthsucc, 0))
      case (None, _, _) => Err(NoPamUnix)
      case (_, None, _) => Err(NoAuthfail)
      case (_, _, None) => Err(NoAuthsucc)
      case (Some(u), Some(f), Some(s)) => if f <= u then Err(BadOrder) else Ok(Plan(f, s))
  }

  /** Rule `k` with its crossing jump lengthened; `usize` sums wrap. */
  function PatchedLine(line: string, k: nat, f: nat): string {
    match SuccessJump(line)
    case None => line
    case Some(j) => if Crosses(k, j, f) then Lengthened(line, j) else line
  }

  predicate Crosses(k: nat, j: nat, f: nat) { (k + j) % U64 >= f }

  /** A jump from before authfail crosses it if and only if it aims at it or past it and the sum fits 64 bits. */
  lemma CrossesIff(k: nat, j: nat, f: nat)
    requires k < f && k < 0x1_0000_0000_0000_0000 && j < 0x1_0000_0000_0000_0000
    ensures Crosses(k, j, f) <==> f <= k + j < 0x1_0000_0000_0000_0000
  {
    if k + j >= U64 { assert (k + j) % U64 == k + j - U64 < f; }
  }

  function Lengthened(line: string, j: nat): string {
    match ReplaceSuccessJump(line, (j + 1) % U64)
    case Ok(out) => out
    case Err(_) => line
  }

  function Patcher(f: nat): (string, nat) -> string { (line: string, k: nat) => PatchedLine(line, k, f) }

  /** The lines with the jumps of the rules before authfail patched. */
  function Patched(ls: seq<string>, f: nat): (out: seq<string>)
    ensures |out| == |ls|
  {
    EditSelected(ls, IsAuth, f, Patcher(f))
  }

  /** The three rules inserted one after the other, each at the index the earlier insertions leave it. */
  function WithRules(ls: seq<string>, first: nat, fail: nat, succ: nat): (out: seq<string>)
    requires first < |ls| && fail < |ls| && succ < |ls|
    ensures |out| == |ls| + 3
  {
    InsertThree(ls, first, fail, succ, PREAUTH_LINE, FAIL_LINE, SUCC_LINE)
  }

  function ArmedLines(ls: seq<string>, p: Plan): (out: seq<string>)
    requires PlanOf(ls) == Ok(p)
    ensures |out| == |ls| + 3
  {
    var ps := AuthPositions(ls);
    WithRules(Patched(ls, p.fail), ps[0], ps[p.fail], ps[p.succ])
  }

  function Armed(content: string): Result<string, ArmError> {
    if Contains(content, ARM_MARKER) then Err(AlreadyArmed)
    else
      match PlanOf(Lines(content))
      case Err(e) => Err(e)
      case Ok(p) => Ok(Unlines(ArmedLines(Lines(content), p)))
  }

  /** `arm_pam_stack`: jumps patched and rules inserted in place, in the vector of lines. */
  method ArmPamStack(content: string) returns (r: Result<string, ArmError>)
    ensures r == Armed(content)
  {
    if Contains(content, ARM_MARKER) { return Err(AlreadyArmed); }
    var lines := Lines(content);
    var auth, plan := FindRules(lines);
    if plan.Err? { return Err(plan.error); }
    lines := PatchJumps(lines, IsAuth, auth, plan.value.fail);
    lines := InsertRules(lines, auth[0], auth[plan.value.fail], auth[plan.value.succ]);
    return Ok(Unlines(lines));
  }

  /** The three `Vec::insert` calls of `arm_pam_stack`. */
  method InsertRules(ls: seq<string>, first: nat, fail: nat, succ: nat) returns (lines: seq<string>)
    requires first <= fail < |ls| && first <= succ < |ls|
    ensures lines == WithRules(ls, first, fail, succ)
    ensures |lines| == |ls| + 3 && lines[first] == PREAUTH_LINE
    ensures lines[MovedTo(fail, first, fail, succ) - 1] == FAIL_LINE
    ensures lines[MovedTo(succ, first, fail, succ) + 1] == SUCC_LINE
    ensures forall k :: 0 <= k < |ls| ==> lines[MovedTo(k, first, fail, succ)] == ls[k]
  {
    lines := InsertEach(ls, first, fail, succ, PREAUTH_LINE, FAIL_LINE, SUCC_LINE);
    assert lines == WithRules(ls, first, fail, succ);
  }

  method InsertEach<T>(ls: seq<T>, first: nat, fail: nat, succ: nat, x: T, y: T, z: T) returns (lines: seq<T>)
    requires first <= fail < |ls| && first <= succ < |ls|
    ensures lines == InsertThree(ls, first, fail, succ, x, y, z)
    ensures |lines| == |ls| + 3 && lines[first] == x
    ensures lines[MovedTo(fail, first, fail, succ) - 1] == y
    ensures lines[MovedTo(succ, first, fail, succ) + 1] == z
    ensures forall k :: 0 <= k < |ls| ==> lines[MovedTo(k, first, fail, succ)] == ls[k]
  {
    lines := Insert(ls, fail, y);
    var succRaw := if succ >= fail then succ + 1 else succ;
    lines := Insert(lines, succRaw + 1, z);
    lines := Insert(lines, first, x);
    RulesStand(ls, first, fail, succ, x, y, z);
  }

  /** Where line `k` goes: behind the new first rule, behind the new rule in front of authfail, and, past authsucc, behind
      the new rule after it. */
  function MovedTo(k: nat, first: nat, fail: nat, succ: nat): nat {
    k + (if k >= first then 1 else 0) + (if k >= fail then 1 else 0) + (if k > succ then 1 else 0)
  }

  lemma RulesStand<T>(ls: seq<T>, first: nat, fail: nat, succ: nat, x: T, y: T, z: T)
    requires first <= fail < |ls| && first <= succ < |ls|
    ensures var lines := InsertThree(ls, first, fail, succ, x, y, z);
            && lines[first] == x
            && lines[MovedTo(fail, first, fail, succ) - 1] == y
            && lines[MovedTo(succ, first, fail, succ) + 1] == z
            && forall k :: 0 <= k < |ls| ==> lines[MovedTo(k, first, fail, succ)] == ls[k]
  {
    var l1 := Insert(ls, fail, y);
    var l2 := Insert(l1, (if succ >= fail then succ + 1 else succ) + 1, z);
    var lines := InsertThree(ls, first, fail, succ, x, y, z);
    assert lines == Insert(l2, first, x);
    var f, g := MovedTo(fail, first, fail, succ) - 1, MovedTo(succ, first, fail, succ) + 1;
    assert lines[f] == l2[f - 1] == y;
    assert lines[g] == l2[g - 1] == z;
    forall k | 0 <= k < |ls|
      ensures lines[MovedTo(k, first, fail, succ)] == ls[k]
    {
      var m := MovedTo(k, first, fail, succ);
      assert l1[if k >= fail then k + 1 else k] == ls[k];
      if k >= first { assert lines[m] == l2[m - 1]; } else { assert lines[m] == l2[m]; }
    }
  }

  /** The scan of `arm_pam_stack` for the rules it works on. */
  method FindRules(lines: seq<string>) returns (auth: seq<nat>, plan: Result<Plan, ArmError>)
    ensures auth == AuthPositions(lines) && plan == PlanOf(lines)
  {
    auth := CollectPositions(lines, IsAuth);
    if auth == [] { return auth, Err(NoAuthRules); }
    var unix := FirstWhere(lines, auth, IsUnix, 0);
    if unix.None? { return auth, Err(NoPamUnix); }
    var fail := FirstWhere(lines, auth, IsAuthfail, 0);
    if fail.None? { return auth, Err(NoAuthfail); }
    var succ := FirstWhere(lines, auth, IsAuthsucc, 0);
    if succ.None? { return auth, Err(NoAuthsucc); }
    if fail.value <= unix.value { return auth, Err(BadOrder); }
    return auth, Ok(Plan(fail.value, succ.value));
  }

  method CollectPositions(lines: seq<string>, p: string -> bool) returns (ps: seq<nat>)
    ensures ps == Positions(lines, p)
  {
    ps := [];
    for i := 0 to |lines|
      invariant ps == Positions(lines[..i], p)
    {
      assert lines[..i + 1][..i] == lines[..i];
      if p(lines[i]) { ps := ps + [i]; }
    }
    assert lines[..|lines|] == lines;
  }

  /** The loop of `arm_pam_stack` over the auth rules before authfail. */
  method PatchJumps(ls: seq<string>, p: string -> bool, auth: seq<nat>, f: nat) returns (lines: seq<string>)
    requires auth == Positions(ls, p) && f < |auth|
    ensures lines == EditSelected(ls, p, f, Patcher(f))
  {
    lines := ls;
    ghost var edit := Patcher(f);
    assert EditSelected(ls, p, 0, edit) == lines;
    for k := 0 to f
      invariant lines == EditSelected(ls, p, k, edit)
    {
      EditStep(ls, p, k, edit);
      var raw := auth[k];
      var line := PatchJump(lines[raw], k, f);
      lines := lines[raw := line];
    }
  }

  method PatchJump(line: string, k: nat, f: nat) returns (out: string)
    ensures out == PatchedLine(line, k, f)
    ensures SuccessJump(line).None? || !Crosses(k, SuccessJump(line).value, f) ==> out == line
    ensures SuccessJump(line).Some? && Crosses(k, SuccessJump(line).value, f) ==>
              OtherJump(line, out, (SuccessJump(line).value + 1) % U64)
  {
    var jump := SuccessJump(line);
    if jump.None? || !Crosses(k, jump.value, f) { return line; }
    out := Lengthen(line, jump.value);
    PatchedCrossing(line, k, f, jump.value, out);
  }

  method Lengthen(line: string, j: nat) returns (out: string)
    requires SuccessJump(line) == Some(j)
    ensures ReplaceSuccessJump(line, (j + 1) % U64) == Ok(out) && OtherJump(line, out, (j + 1) % U64)
  {
    NumericJump(line, (j + 1) % U64);
    JumpReplaced(line, (j + 1) % U64);
    out := ReplaceSuccessJump(line, (j + 1) % U64).value;
  }

  lemma PatchedCrossing(line: string, k: nat, f: nat, j: nat, out: string)
    requires SuccessJump(line) == Some(j) && Crosses(k, j, f) && ReplaceSuccessJump(line, (j + 1) % U64) == Ok(out)
    ensures PatchedLine(line, k, f) == out
  {
  }

  /** The line has this jump now, and the text around its digits is the same. */
  predicate OtherJump(line: string, out: string, value: nat) {
    && SuccessJump(out) == Some(value) && SuccessStart(line).Some? && SuccessStart(out) == SuccessStart(line)
    && var start := SuccessStart(line).value;
    && out[..start] == line[..start]
    && out[SkipWhile(out, start, IsDigit)..] == line[SkipWhile(line, start, IsDigit)..]
  }

  lemma NumericJump(line: string, value: nat)
    requires SuccessJump(line).Some?
    ensures ReplaceSuccessJump(line, value).Ok?
  {
  }

  lemma JumpReplaced(line: string, value: nat)
    requires ReplaceSuccessJump(line, value).Ok? && value < U64
    ensures OtherJump(line, ReplaceSuccessJump(line, value).value, value)
  {
    ReplacedJumpReadsBack(line, value);
  }

  // ---- the stack libpam reads ----

  /** libpam reads a configuration file line by line; a carriage return is white space to it. */
  function Split(s: string): (ls: seq<string>)
    ensures forall l :: l in ls ==> '\n' !in l
    decreases |s|
  {
    var i := SkipWhile(s, 0, NotNewline);
    if i == |s| then [s] else [s[..i]] + Split(s[i + 1..])
  }

  /** The auth rules among some lines, in order; `None` for one libpam cannot parse. */
  function Rules(ls: seq<string>): seq<Option<Rule>> {
    var auth := Select(ls, IsAuth);
    seq(|auth|, i requires 0 <= i < |auth| => Meaning(auth[i]))
  }

  /** The auth stack of a configuration text. */
  function Stack(content: string): seq<Option<Rule>> { Rules(Split(content)) }

  lemma RulesAppend(a: seq<string>, b: seq<string>)
    ensures Rules(a + b) == Rules(a) + Rules(b)
  {
    SelectAppend(a, b, IsAuth);
  }

  lemma RulesOne(l: string)
    ensures Rules([l]) == if IsAuth(l) then [Meaning(l)] else []
  {
    assert [l][..0] == [];
    assert Select([l], IsAuth) == if IsAuth(l) then [l] else [];
  }

  lemma SameRules(l: string, m: string)
    requires IsAuth(l) == IsAuth(m) && Meaning(l) == Meaning(m)
    ensures Rules([l]) == Rules([m])
  {
    RulesOne(l);
    RulesOne(m);
  }

  lemma BlankLine()
    ensures !IsAuth("") && Rules([""]) == []
  {
    RulesOne("");
  }

  /** dsctl's reading of the text finds the same auth rules as libpam's. */
  lemma {:induction false} StackOfLines(content: string)
    ensures Stack(content) == Rules(Lines(content))
    decreases |content|
  {
    BlankLine();
    var i := SkipWhile(content, 0, NotNewline);
    if i < |content| {
      var l, rest := content[..i], content[i + 1..];
      StackOfLines(rest);
      CarriageReturn(l);
      SameRules(l, StripCr(l));
      RulesAppend([l], Split(rest));
      RulesAppend([StripCr(l)], Lines(rest));
    }
  }

  lemma {:induction false} SplitUnlines(ls: seq<string>)
    requires ls != [] && forall l :: l in ls ==> '\n' !in l
    ensures Split(Unlines(ls)) == ls + [""]
    decreases |ls|
  {
    if |ls| == 1 {
      SplitCons(ls[0], "");
      assert ls[0] + "\n" + "" == Unlines(ls);
    } else {
      SplitCons(ls[0], Unlines(ls[1..]));
      SplitUnlines(ls[1..]);
      assert [ls[0]] + (ls[1..] + [""]) == ls + [""];
    }
  }

  lemma SplitCons(l: string, rest: string)
    requires '\n' !in l
    ensures Split(l + "\n" + rest) == [l] + Split(rest)
  {
    var s := l + "\n" + rest;
    assert s[|l|] == '\n';
    assert forall k :: 0 <= k < |l| ==> s[k] == l[k];
    assert SkipWhile(s, 0, NotNewline) == |l|;
    assert s[..|l|] == l && s[|l| + 1..] == rest;
  }

  lemma StackOfUnlines(ls: seq<string>)
    requires ls != [] && forall l :: l in ls ==> '\n' !in l
    ensures Stack(Unlines(ls)) == Rules(ls)
  {
    SplitUnlines(ls);
    RulesAppend(ls, [""]);
    BlankLine();
  }

  lemma CarriageReturn(l: string)
    ensures IsAuth(StripCr(l)) == IsAuth(l) && Meaning(StripCr(l)) == Meaning(l)
  {
    var m := StripCr(l);
    if m != l {
      assert l == m + "\r";
      LexAppend(START, m, "\r");
      var x := Lex(START, m);
      assert Lex(x, "\r") == LexChar(x, '\r') by { assert "\r"[1..] == ""; }
      assert Flush(LexChar(x, '\r')) == Flush(x);
      CarriageReturnAuth(m);
    }
  }

  lemma {:induction false} SkipThrough(m: string, c: char, i: nat, p: char -> bool)
    requires i <= |m|
    ensures var j, j' := SkipWhile(m, i, p), SkipWhile(m + [c], i, p);
            j' == if j == |m| && p(c) then |m| + 1 else j
    decreases |m| - i
  {
    var l := m + [c];
    if i < |m| {
      assert l[i] == m[i];
      if p(m[i]) { SkipThrough(m, c, i + 1, p); }
    } else {
      assert l[i] == c;
    }
  }

  lemma AllSpace(m: string)
    requires SkipWhile(m, 0, IsSpace) == |m|
    ensures !IsAuth(m)
  {
    assert SkipWhile(m, |m|, IsDash) == |m| && SkipWhile(m, |m|, IsSpace) == |m|;
    assert !At(m, "auth", |m|);
  }

  lemma CarriageReturnAuth(m: string)
    ensures IsAuth(m + "\r") == IsAuth(m)
  {
    var l := m + "\r";
    var i0 := SkipWhile(m, 0, IsSpace);
    SkipThrough(m, '\r', 0, IsSpace);
    if i0 == |m| {
      AllSpace(m);
      AllSpace(l);
    } else {
      var i1 := SkipWhile(m, i0, IsDash);
      SkipThrough(m, '\r', i0, IsDash);
      assert SkipWhile(l, i0, IsDash) == i1;
      var k := SkipWhile(m, i1, IsSpace);
      SkipThrough(m, '\r', i1, IsSpace);
      AtThrough(m, '\r', k);
      if k < |m| { assert AuthStart(l) == k; } else { assert AuthStart(l) == |l|; }
    }
  }

  lemma AtThrough(m: string, c: char, k: nat)
    requires k <= |m| && IsSpace(c)
    ensures k + 4 <= |m| ==>
              && At(m + [c], "auth", k) == At(m, "auth", k)
              && (m + [c])[k + 4] == (if k + 4 < |m| then m[k + 4] else c)
    ensures k + 4 == |m| + 1 ==> !At(m + [c], "auth", k)
  {
    var l := m + [c];
    if k + 4 <= |m| {
      assert l[k..k + 4] == m[k..k + 4];
    } else if k + 4 == |m| + 1 {
      assert l[k..k + 4][3] == c && "auth"[3] == 'h';
    }
  }

  // ---- the inserted rules, as libpam reads them ----

  predicate Inked(w: string) { w != "" && forall i :: 0 <= i < |w| ==> Ink(w[i]) }

  predicate Gap(g: string) { g != "" && forall i :: 0 <= i < |g| ==> IsSpace(g[i]) }

  /** What the lexer has read so far, between words. */
  predicate ReadTo(a: string, mode: Mode, toks: seq<Token>) { Lex(START, a) == Lexer(mode, "", toks) }

  /** One more word and the white space after it. */
  lemma LexCell(a: string, mode: Mode, toks: seq<Token>, w: string, gap: string)
    requires ReadTo(a, mode, toks) && !mode.Comment? && Inked(w) && Gap(gap)
    ensures ReadTo(a + w + gap, mode, toks + [Word(w)])
  {
    var x := Lexer(mode, "", toks);
    LexAppend(START, a + w, gap);
    LexAppend(START, a, w);
    LexInk(x, w);
    assert x.cur + w == w;
    LexSpaces(x.(cur := w), gap);
  }

  lemma LexOpen(a: string, toks: seq<Token>)
    requires ReadTo(a, Plain, toks)
    ensures ReadTo(a + "[", Bracketed, toks + [Open])
  {
    LexAppend(START, a, "[");
    LexOne(Lex(START, a), '[');
  }

  /** The last word of a control block, the closing bracket, and the white space after it. */
  lemma LexClose(a: string, toks: seq<Token>, w: string, gap: string)
    requires ReadTo(a, Bracketed, toks) && Inked(w) && Gap(gap)
    ensures ReadTo(a + w + "]" + gap, Plain, toks + [Word(w)] + [Close])
  {
    var x := Lexer(Bracketed, "", toks);
    LexAppend(START, a + w + "]", gap);
    LexAppend(START, a + w, "]");
    LexAppend(START, a, w);
    LexInk(x, w);
    assert x.cur + w == w;
    LexOne(x.(cur := w), ']');
    LexSpaces(Lexer(Plain, "", toks + [Word(w)] + [Close]), gap);
  }

  lemma LexOne(x: Lexer, c: char)
    ensures Lex(x, [c]) == LexChar(x, c)
  {
    assert [c][1..] == "";
  }

  lemma {:induction false} LexComment(x: Lexer, s: string)
    requires x.mode.Comment?
    ensures Lex(x, s) == x
    decreases |s|
  {
    if s != "" { LexComment(x, s[1..]); }
  }

  lemma LexTail(a: string, toks: seq<Token>, mark: string)
    requires ReadTo(a, Plain, toks)
    ensures Tokens(a + "# " + mark) == toks
  {
    LexAppend(START, a + "# ", mark);
    LexAppend(START, a, "# ");
    var x := Lex(START, a);
    assert "# "[1..] == " ";
    LexOne(LexChar(x, '#'), ' ');
    LexComment(LexChar(x, '#'), mark);
  }

  lemma FirstCell(w: string, gap: string)
    requires Inked(w) && Gap(gap)
    ensures ReadTo(w + gap, Plain, [Word(w)])
  {
    LexCell("", Plain, [], w, gap);
    assert "" + w + gap == w + gap;
    assert [] + [Word(w)] == [Word(w)];
  }

  lemma FailShape(t: string, g: string, e: string, h: string, m: string, arg: string, mark: string)
    requires Inked(t) && Gap(g) && Inked(e) && Gap(h) && Inked(m) && Inked(arg)
    ensures Tokens(t + g + "[" + e + "]" + h + m + " " + arg + " " + "# " + mark)
            == [Word(t)] + [Open] + [Word(e)] + [Close] + [Word(m)] + [Word(arg)]
  {
    var a := t + g;
    FirstCell(t, g);
    LexOpen(a, [Word(t)]);
    LexClose(a + "[", [Word(t)] + [Open], e, h);
    var b, ts := a + "[" + e + "]" + h, [Word(t)] + [Open] + [Word(e)] + [Close];
    LexCell(b, Plain, ts, m, " ");
    LexCell(b + m + " ", Plain, ts + [Word(m)], arg, " ");
    LexTail(b + m + " " + arg + " ", ts + [Word(m)] + [Word(arg)], mark);
  }

  lemma FailMeaning()
    ensures Meaning(FAIL_LINE) == Some(Rule(Bracket(["default=die"]), "/usr/lib/security/pam_ds.so", [Word("authfail")]))
  {
    FailShape("auth", "       ", "default=die", "               ", PAM_MODULE, "authfail", ARM_MARKER);
    FailRule("auth", "default=die", PAM_MODULE, "authfail");
  }

  lemma FailRule(t: string, e: string, m: string, arg: string)
    ensures RuleOf([Word(t)] + [Open] + [Word(e)] + [Close] + [Word(m)] + [Word(arg)])
            == Some(Rule(Bracket([e]), m, [Word(arg)]))
  {
    var ts := [Word(t)] + [Open] + [Word(e)] + [Close] + [Word(m)] + [Word(arg)];
    assert CloseFrom(ts, 2) == 3;
    assert Texts(ts[2..3]) == [e];
    assert ts[5..] == [Word(arg)];
  }

  lemma SuccShape(t: string, g: string, k: string, h: string, m: string, arg: string, mark: string)
    requires Inked(t) && Gap(g) && Inked(k) && Gap(h) && Inked(m) && Inked(arg)
    ensures Tokens(t + g + k + h + m + " " + arg + " " + "# " + mark) == [Word(t)] + [Word(k)] + [Word(m)] + [Word(arg)]
  {
    var a := t + g;
    FirstCell(t, g);
    LexCell(a, Plain, [Word(t)], k, h);
    var b, ts := a + k + h, [Word(t)] + [Word(k)];
    LexCell(b, Plain, ts, m, " ");
    LexCell(b + m + " ", Plain, ts + [Word(m)], arg, " ");
    LexTail(b + m + " " + arg + " ", ts + [Word(m)] + [Word(arg)], mark);
  }

  lemma SuccMeaning()
    ensures Meaning(SUCC_LINE) == Some(Rule(Keyword("optional"), "/usr/lib/security/pam_ds.so", [Word("authsucc")]))
  {
    SuccInk();
    SuccGaps();
    SuccShape("auth", "       ", "optional", "                    ", PAM_MODULE, "authsucc", ARM_MARKER);
    SuccRule("auth", "optional", PAM_MODULE, "authsucc");
  }

  lemma SuccInk()
    ensures Inked("auth") && Inked("optional") && Inked("authsucc")
  {
  }

  lemma SuccGaps()
    ensures Gap("       ") && Gap("                    ")
  {
  }

  lemma SuccRule(t: string, k: string, m: string, arg: string)
    ensures RuleOf([Word(t)] + [Word(k)] + [Word(m)] + [Word(arg)]) == Some(Rule(Keyword(k), m, [Word(arg)]))
  {
    var ts := [Word(t)] + [Word(k)] + [Word(m)] + [Word(arg)];
    assert ts[3..] == [Word(arg)];
  }

  lemma PreauthShape(t: string, g: string, e1: string, e2: string, e3: string, m: string, mark: string)
    requires Inked(t) && Gap(g) && Inked(e1) && Inked(e2) && Inked(e3) && Inked(m)
    ensures Tokens(t + g + "[" + e1 + " " + e2 + " " + e3 + "]" + " " + m + " " + "# " + mark)
            == [Word(t)] + [Open] + [Word(e1)] + [Word(e2)] + [Word(e3)] + [Close] + [Word(m)]
  {
    var a := t + g;
    FirstCell(t, g);
    LexOpen(a, [Word(t)]);
    LexCell(a + "[", Bracketed, [Word(t)] + [Open], e1, " ");
    var b, us := a + "[" + e1 + " ", [Word(t)] + [Open] + [Word(e1)];
    LexCell(b, Bracketed, us, e2, " ");
    LexClose(b + e2 + " ", us + [Word(e2)], e3, " ");
    var c, ts := b + e2 + " " + e3 + "]" + " ", us + [Word(e2)] + [Word(e3)] + [Close];
    LexCell(c, Plain, ts, m, " ");
    LexTail(c + m + " ", ts + [Word(m)], mark);
  }

  lemma PreauthMeaning()
    ensures Meaning(PREAUTH_LINE)
            == Some(Rule(Bracket(["success=ignore", "ignore=ignore", "default=die"]), "/usr/lib/security/pam_ds.so", []))
  {
    PreauthInk();
    PreauthShape("auth", "       ", "success=ignore", "ignore=ignore", "default=die", PAM_MODULE, ARM_MARKER);
    PreauthRule("auth", "success=ignore", "ignore=ignore", "default=die", PAM_MODULE);
  }

  lemma PreauthInk()
    ensures Inked("success=ignore") && Inked("ignore=ignore") && Inked("default=die")
  {
  }

  lemma PreauthRule(t: string, e1: string, e2: string, e3: string, m: string)
    ensures RuleOf([Word(t)] + [Open] + [Word(e1)] + [Word(e2)] + [Word(e3)] + [Close] + [Word(m)])
            == Some(Rule(Bracket([e1, e2, e3]), m, []))
  {
    var ts := [Word(t)] + [Open] + [Word(e1)] + [Word(e2)] + [Word(e3)] + [Close] + [Word(m)];
    assert forall k :: 2 <= k < 5 ==> ts[k] != Close;
    assert ts[5] == Close && CloseFrom(ts, 2) == 5;
    assert Texts(ts[2..5]) == [e1, e2, e3];
    assert ts[7..] == [];
  }

  // ---- the armed stack ----

  lemma InsertedAreAuth()
    ensures IsAuth(PREAUTH_LINE) && IsAuth(FAIL_LINE) && IsAuth(SUCC_LINE)
  {
    StartsWithAuth(PREAUTH_LINE);
    StartsWithAuth(FAIL_LINE);
    StartsWithAuth(SUCC_LINE);
  }

  lemma StartsWithAuth(l: string)
    requires "auth " <= l
    ensures IsAuth(l)
  {
    assert l[0] == 'a' && l[4] == ' ';
    assert l[0..4] == "auth";
  }

  /** The auth lines of the armed text: the stock ones in order, patched before authfail, with the three
      new rules before all of them, before authfail, and after authsucc. */
  ghost predicate ArmedAuth(a: seq<string>, b: seq<string>, f: nat, s: nat) {
    && f < |a| && s < |a| && |b| == |a| + 3
    && b[0] == PREAUTH_LINE && b[FailPos(f, s)] == FAIL_LINE && b[SuccPos(f, s)] == SUCC_LINE
    && forall k :: 0 <= k < |a| ==> b[Pos(k, f, s)] == if k < f then PatchedLine(a[k], k, f) else a[k]
  }

  lemma PatchedIsAuth(l: string, k: nat, f: nat)
    requires IsAuth(l)
    ensures IsAuth(PatchedLine(l, k, f))
  {
    var out := PatchedLine(l, k, f);
    if out != l {
      var v := (SuccessJump(l).value + 1) % U64;
      assert ReplaceSuccessJump(l, v) == Ok(out);
      EditedIsAuth(l, v);
    }
  }

  lemma PlacedThree<T>(e: seq<T>, f: nat, s: nat, x: T, y: T, z: T)
    requires f < |e| && s < |e|
    ensures var b := InsertThree(e, 0, f, s, x, y, z);
            && b[0] == x && b[FailPos(f, s)] == y && b[SuccPos(f, s)] == z
            && forall k :: 0 <= k < |e| ==> b[Pos(k, f, s)] == e[k]
  {
    var l1 := Insert(e, f, y);
    var l2 := Insert(l1, (if s >= f then s + 1 else s) + 1, z);
    var b := InsertThree(e, 0, f, s, x, y, z);
    assert b == Insert(l2, 0, x);
    assert b[FailPos(f, s)] == l2[FailPos(f, s) - 1] == y;
    assert b[SuccPos(f, s)] == l2[SuccPos(f, s) - 1] == z;
    forall k | 0 <= k < |e|
      ensures b[Pos(k, f, s)] == e[k]
    {
      assert b[Pos(k, f, s)] == l2[Pos(k, f, s) - 1];
      assert l1[if k >= f then k + 1 else k] == e[k];
    }
  }

  lemma PlacedRules(a: seq<string>, e: seq<string>, f: nat, s: nat)
    requires f < |a| && s < |a| && |e| == |a|
    requires forall k :: 0 <= k < |a| ==> e[k] == if k < f then PatchedLine(a[k], k, f) else a[k]
    ensures ArmedAuth(a, InsertThree(e, 0, f, s, PREAUTH_LINE, FAIL_LINE, SUCC_LINE), f, s)
  {
    PlacedThree(e, f, s, PREAUTH_LINE, FAIL_LINE, SUCC_LINE);
  }

  lemma PatchedAuth(ls: seq<string>, f: nat)
    ensures var a, e := Select(ls, IsAuth), Select(Patched(ls, f), IsAuth);
            |e| == |a| && forall k :: 0 <= k < |a| ==> e[k] == if k < f then PatchedLine(a[k], k, f) else a[k]
    ensures AuthPositions(Patched(ls, f)) == AuthPositions(ls)
  {
    var P, edit := Patched(ls, f), Patcher(f);
    forall x, i: nat | x in ls && IsAuth(x)
      ensures IsAuth(edit(x, i))
    {
      PatchedIsAuth(x, i, f);
    }
    SelectEdited(ls, IsAuth, f, edit, |ls|);
    assert ls[..|ls|] == ls && P[..|ls|] == P;
    EditedPositions(ls, IsAuth, f, edit);
  }

  lemma ArmedAuthLines(ls: seq<string>, p: Plan)
    requires PlanOf(ls) == Ok(p)
    ensures ArmedAuth(Select(ls, IsAuth), Select(ArmedLines(ls, p), IsAuth), p.fail, p.succ)
  {
    WithRulesAuth(ls, p.fail, p.succ);
  }

  lemma WithRulesAuth(ls: seq<string>, f: nat, s: nat)
    requires f < |AuthPositions(ls)| && s < |AuthPositions(ls)|
    ensures var ps := AuthPositions(ls);
            ArmedAuth(Select(ls, IsAuth), Select(WithRules(Patched(ls, f), ps[0], ps[f], ps[s]), IsAuth), f, s)
  {
    PatchedAuth(ls, f);
    SelectedRules(Patched(ls, f), AuthPositions(ls), f, s);
    PlacedRules(Select(ls, IsAuth), Select(Patched(ls, f), IsAuth), f, s);
  }

  lemma SelectedRules(P: seq<string>, ps: seq<nat>, f: nat, s: nat)
    requires ps == AuthPositions(P) && f < |ps| && s < |ps|
    ensures ps[0] < |P| && ps[f] < |P| && ps[s] < |P| && |Select(P, IsAuth)| == |ps|
    ensures Select(WithRules(P, ps[0], ps[f], ps[s]), IsAuth)
            == InsertThree(Select(P, IsAuth), 0, f, s, PREAUTH_LINE, FAIL_LINE, SUCC_LINE)
  {
    SelectPositions(P, IsAuth);
    InsertedAreAuth();
    SelectInsertThree(P, IsAuth, ps, f, s, PREAUTH_LINE, FAIL_LINE, SUCC_LINE);
  }
}
