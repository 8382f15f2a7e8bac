/** Which login configurations the rewriter takes, and which error it reports for the others. */
module PamRefused {
  import opened Text
  import opened Sequences
  import opened PamSyntax
  import opened PamArm
  import opened PamLines
  import opened PamTexts
  import opened PamArch

  // ---- auth rules ----

  predicate Dashes(s: string) { forall c :: c in s ==> c == '-' }

  /** Blanks, dashes, and blanks may stand in front of the word `auth`. */
  predicate AuthForm(l: string, a: string, d: string, g: string, rest: string) {
    Blank(a) && Dashes(d) && Blank(g) && l == a + d + g + "auth" + rest && (rest == "" || IsSpace(rest[0]))
  }

  lemma AuthWhen(l: string, a: string, d: string, g: string, rest: string)
    requires AuthForm(l, a, d, g, rest)
    ensures IsAuth(l)
  {
    var i, j, k := |a|, |a| + |d|, |a| + |d| + |g|;
    Letters(l, a + d + g, rest);
    forall x | 0 <= x < i ensures IsSpace(l[x]) { assert l[x] == a[x] && a[x] in a; }
    forall x | i <= x < j ensures IsDash(l[x]) { assert l[x] == d[x - i] && d[x - i] in d; }
    forall x | j <= x < k ensures IsSpace(l[x]) { assert l[x] == g[x - j] && g[x - j] in g; }
    StartsAt(l, i, j, k);
  }

  lemma Letters(l: string, front: string, rest: string)
    requires l == front + "auth" + rest
    ensures At(l, "auth", |front|) && !IsSpace(l[|front|]) && !IsDash(l[|front|])
  {
    assert l[|front|..|front| + 4] == "auth" && l[|front|] == "auth"[0];
  }

  lemma StartsAt(l: string, i: nat, j: nat, k: nat)
    requires i <= j <= k < |l| && !IsSpace(l[k]) && !IsDash(l[k])
    requires (forall x :: 0 <= x < i ==> IsSpace(l[x])) && (forall x :: i <= x < j ==> IsDash(l[x]))
    requires forall x :: j <= x < k ==> IsSpace(l[x])
    ensures AuthStart(l) == k
  {
    if i == j {
      SkipsAll(l, 0, k, IsSpace);
      SkipsAll(l, k, k, IsDash);
      SkipsAll(l, k, k, IsSpace);
    } else {
      SkipsAll(l, 0, i, IsSpace);
      SkipsAll(l, i, j, IsDash);
      SkipsAll(l, j, k, IsSpace);
    }
  }

  lemma AuthHas(l: string) returns (a: string, d: string, g: string, rest: string)
    requires IsAuth(l)
    ensures AuthForm(l, a, d, g, rest)
  {
    var i := SkipWhile(l, 0, IsSpace);
    var j := SkipWhile(l, i, IsDash);
    var k := SkipWhile(l, j, IsSpace);
    a, d, g, rest := l[..i], l[i..j], l[j..k], l[k + 4..];
    var word := "auth";
    InFive(l, i, j, k, word);
    Skipped(l, 0, i, IsSpace);
    Skipped(l, i, j, IsDash);
    Skipped(l, j, k, IsSpace);
  }

  lemma InFive(l: string, i: nat, j: nat, k: nat, word: string)
    requires i <= j <= k <= k + |word| <= |l| && l[k..k + |word|] == word
    ensures l == l[..i] + l[i..j] + l[j..k] + word + l[k + |word|..]
  {
  }

  lemma Skipped(l: string, i: nat, j: nat, p: char -> bool)
    requires i <= j <= |l| && forall k :: i <= k < j ==> p(l[k])
    ensures forall c :: c in l[i..j] ==> p(c)
  {
  }

  // ---- acceptance ----

  function AuthLines(content: string): seq<string> { Select(Lines(content), IsAuth) }

  predicate Unix(l: string) { Contains(l, "pam_unix.so") }

  predicate Faillock(l: string, word: string) { Contains(l, "pam_faillock.so") && word in Words(l) }

  predicate FirstFaillock(auth: seq<string>, word: string, k: nat) {
    k < |auth| && Faillock(auth[k], word) && forall i :: 0 <= i < k ==> !Faillock(auth[i], word)
  }

  predicate SomeUnix(auth: seq<string>, k: nat)
    requires k <= |auth|
  {
    exists i :: 0 <= i < k && Unix(auth[i])
  }

  predicate SomeFaillock(auth: seq<string>, word: string) { exists i :: 0 <= i < |auth| && Faillock(auth[i], word) }

  predicate FirstOf(auth: seq<string>, p: string -> bool, k: nat) {
    k < |auth| && p(auth[k]) && forall i :: 0 <= i < k ==> !p(auth[i])
  }

  predicate NoneOf(auth: seq<string>, p: string -> bool) { forall i :: 0 <= i < |auth| ==> !p(auth[i]) }

  /** The search of the rewriter over the positions of the auth rules is one over the auth lines. */
  lemma Searched(ls: seq<string>, auth: seq<string>, p: string -> bool)
    requires auth == Select(ls, IsAuth)
    ensures |AuthPositions(ls)| == |auth|
    ensures var k := FirstWhere(ls, AuthPositions(ls), p, 0); if k.None? then NoneOf(auth, p) else FirstOf(auth, p, k.value)
  {
    SelectPositions(ls, IsAuth);
    var ps := AuthPositions(ls);
    var r := FirstWhere(ls, ps, p, 0);
    assert forall i :: 0 <= i < |ps| ==> ls[ps[i]] == auth[i];
  }

  /** What the rewriter finds: positions among the auth lines. */
  datatype Search = Search(unix: Option<nat>, fail: Option<nat>, succ: Option<nat>)

  lemma Searches(content: string) returns (x: Search)
    ensures var auth := AuthLines(content);
            && (if x.unix.None? then NoneOf(auth, IsUnix) else FirstOf(auth, IsUnix, x.unix.value))
            && (if x.fail.None? then NoneOf(auth, IsAuthfail) else FirstOf(auth, IsAuthfail, x.fail.value))
            && (if x.succ.None? then NoneOf(auth, IsAuthsucc) else FirstOf(auth, IsAuthsucc, x.succ.value))
    ensures var auth := AuthLines(content);
            PlanOf(Lines(content)) ==
              if auth == [] then Err(NoAuthRules) else if x.unix.None? then Err(NoPamUnix)
              else if x.fail.None? then Err(NoAuthfail) else if x.succ.None? then Err(NoAuthsucc)
              else if x.fail.value <= x.unix.value then Err(BadOrder) else Ok(Plan(x.fail.value, x.succ.value))
  {
    var ls, auth := Lines(content), AuthLines(content);
    var ps := AuthPositions(ls);
    Searched(ls, auth, IsUnix);
    Searched(ls, auth, IsAuthfail);
    Searched(ls, auth, IsAuthsucc);
    x := Search(FirstWhere(ls, ps, IsUnix, 0), FirstWhere(ls, ps, IsAuthfail, 0), FirstWhere(ls, ps, IsAuthsucc, 0));
  }

  lemma UnixFound(auth: seq<string>, u: Option<nat>, k: nat)
    requires k <= |auth| && if u.None? then NoneOf(auth, IsUnix) else FirstOf(auth, IsUnix, u.value)
    ensures SomeUnix(auth, k) <==> u.Some? && u.value < k
  {
    if u.Some? && u.value < k { assert Unix(auth[u.value]); }
    if SomeUnix(auth, k) {
      var i :| 0 <= i < k && Unix(auth[i]);
      assert IsUnix(auth[i]);
    }
  }

  lemma FailFound(auth: seq<string>, f: Option<nat>, k: nat)
    requires if f.None? then NoneOf(auth, IsAuthfail) else FirstOf(auth, IsAuthfail, f.value)
    ensures FirstFaillock(auth, "authfail", k) <==> f == Some(k)
    ensures SomeFaillock(auth, "authfail") <==> f.Some?
  {
    FaillockSame(auth, f, IsAuthfail, "authfail", k);
  }

  lemma SuccFound(auth: seq<string>, s: Option<nat>, k: nat)
    requires if s.None? then NoneOf(auth, IsAuthsucc) else FirstOf(auth, IsAuthsucc, s.value)
    ensures FirstFaillock(auth, "authsucc", k) <==> s == Some(k)
    ensures SomeFaillock(auth, "authsucc") <==> s.Some?
  {
    FaillockSame(auth, s, IsAuthsucc, "authsucc", k);
  }

  lemma FirstOnly(auth: seq<string>, w: string, f: nat, k: nat)
    requires FirstFaillock(auth, w, f)
    ensures FirstFaillock(auth, w, k) <==> k == f
  {
  }

  lemma FaillockSame(auth: seq<string>, f: Option<nat>, p: string -> bool, w: string, k: nat)
    requires if f.None? then NoneOf(auth, p) else FirstOf(auth, p, f.value)
    requires forall l :: p(l) == Faillock(l, w)
    ensures FirstFaillock(auth, w, k) <==> f == Some(k)
    ensures SomeFaillock(auth, w) <==> f.Some?
  {
    assert forall i :: 0 <= i < |auth| ==> p(auth[i]) == Faillock(auth[i], w);
    if f.Some? {
      assert Faillock(auth[f.value], w);
      FirstOnly(auth, w, f.value, k);
    }
  }

  /** A configuration is accepted, with its rules at `f` and `s`, if and only if it carries no marker, its first authfail and
      authsucc rules are these, and some rule of pam_unix stands before authfail. */
  lemma AcceptedIff(content: string, f: nat, s: nat)
    ensures var auth := AuthLines(content);
            Armed(content).Ok? && PlanOf(Lines(content)) == Ok(Plan(f, s)) <==>
              && !Contains(content, "deathstr0ke-arm")
              && FirstFaillock(auth, "authfail", f) && FirstFaillock(auth, "authsucc", s) && SomeUnix(auth, f)
  {
    var auth := AuthLines(content);
    var x := Searches(content);
    FailFound(auth, x.fail, f);
    SuccFound(auth, x.succ, s);
    if f <= |auth| { UnixFound(auth, x.unix, f); }
    ArmedBy(content);
  }

  lemma ArmedBy(content: string)
    ensures Armed(content).Ok? <==> !Contains(content, "deathstr0ke-arm") && PlanOf(Lines(content)).Ok?
    ensures Contains(content, "deathstr0ke-arm") ==> Armed(content) == Err(AlreadyArmed)
    ensures !Contains(content, "deathstr0ke-arm") && PlanOf(Lines(content)).Err? ==>
              Armed(content) == Err(PlanOf(Lines(content)).error)
  {
  }

  /** The error of every other configuration. */
  lemma RefusedIff(content: string)
    ensures Armed(content) == Err(AlreadyArmed) <==> Contains(content, "deathstr0ke-arm")
    ensures var auth, r := AuthLines(content), Armed(content);
            !Contains(content, "deathstr0ke-arm") ==>
              && (r == Err(NoAuthRules) <==> auth == [])
              && (r == Err(NoPamUnix) <==> auth != [] && !SomeUnix(auth, |auth|))
              && (r == Err(NoAuthfail) <==> SomeUnix(auth, |auth|) && !SomeFaillock(auth, "authfail"))
              && (r == Err(NoAuthsucc) <==>
                    SomeUnix(auth, |auth|) && SomeFaillock(auth, "authfail") && !SomeFaillock(auth, "authsucc"))
              && (r == Err(BadOrder) <==>
                    && SomeUnix(auth, |auth|) && SomeFaillock(auth, "authsucc")
                    && exists f :: FirstFaillock(auth, "authfail", f) && !SomeUnix(auth, f))
  {
    var auth := AuthLines(content);
    var x := Searches(content);
    ArmedBy(content);
    UnixFound(auth, x.unix, |auth|);
    SuccFound(auth, x.succ, 0);
    EarlyFound(auth, x);
  }

  lemma EarlyFound(auth: seq<string>, x: Search)
    requires if x.unix.None? then NoneOf(auth, IsUnix) else FirstOf(auth, IsUnix, x.unix.value)
    requires if x.fail.None? then NoneOf(auth, IsAuthfail) else FirstOf(auth, IsAuthfail, x.fail.value)
    ensures SomeFaillock(auth, "authfail") <==> x.fail.Some?
    ensures (exists f :: FirstFaillock(auth, "authfail", f) && !SomeUnix(auth, f)) <==>
              x.fail.Some? && !(x.unix.Some? && x.unix.value < x.fail.value)
  {
    forall f: nat ensures FirstFaillock(auth, "authfail", f) <==> x.fail == Some(f) { FailFound(auth, x.fail, f); }
    FailFound(auth, x.fail, 0);
    if x.fail.Some? { UnixFound(auth, x.unix, x.fail.value); }
  }

  // ---- files of usual lines ----

  /** A file of usual lines without a marker. */
  ghost predicate IsConfig(text: string, head: seq<string>, ls: seq<RuleLine>, tail: seq<string>) {
    && UsualLines(ls) && ls != [] && NoRules(head) && NoRules(tail)
    && text == Unlines(ConfigLines(head, ls, tail)) && !Contains(text, ARM_MARKER)
  }

  /** Its auth lines are its lines, and each names the modules and words it was made of. */
  lemma ConfigAuth(text: string, head: seq<string>, ls: seq<RuleLine>, tail: seq<string>)
    requires IsConfig(text, head, ls, tail)
    ensures AuthLines(text) == LineTexts(ls)
    ensures forall k :: 0 <= k < |ls| ==> Reads(ls[k], LineTexts(ls)[k])
  {
    ConfigStack(head, ls, tail);
    ConfigSelects(head, ls, tail);
    forall k | 0 <= k < |ls|
      ensures Reads(ls[k], LineTexts(ls)[k])
    {
      LineReads(ls[k]);
    }
  }

  /** The line names the module and the words it was made of. */
  predicate Reads(l: RuleLine, text: string)
    requires Sound(l)
  {
    && (Module(l) == "pam_unix.so" ==> Unix(text))
    && (Module(l) == "pam_faillock.so" && "authfail" in l.words ==> Faillock(text, "authfail"))
    && (Module(l) == "pam_faillock.so" && "authsucc" in l.words ==> Faillock(text, "authsucc"))
    && ("authfail" !in AllWords(l) ==> !Faillock(text, "authfail"))
    && ("authsucc" !in AllWords(l) ==> !Faillock(text, "authsucc"))
  }

  lemma LineReads(l: RuleLine)
    requires Sound(l)
    ensures Reads(l, LineText(l))
  {
    LineWords(l);
    NamesModule(l);
  }

  predicate NoneNames(ls: seq<RuleLine>, w: string, k: nat)
    requires k <= |ls| && forall i :: 0 <= i < |ls| ==> Sound(ls[i])
  {
    forall i :: 0 <= i < k ==> w !in AllWords(ls[i])
  }

  /** No rule of the first `k` mentions pam_unix. */
  predicate NoUnix(ls: seq<RuleLine>, k: nat)
    requires k <= |ls| && forall i :: 0 <= i < |ls| ==> Shaped(ls[i])
  {
    forall i :: 0 <= i < k ==> !Contains(LineTexts(ls)[i], "pam_unix.so")
  }

  predicate NamesFaillock(l: RuleLine, w: string)
    requires Sound(l)
  {
    Module(l) == "pam_faillock.so" && w in l.words
  }

  lemma UnixMissing(text: string, head: seq<string>, ls: seq<RuleLine>, tail: seq<string>)
    requires IsConfig(text, head, ls, tail) && NoUnix(ls, |ls|)
    ensures Armed(text) == Err(NoPamUnix)
  {
    ConfigAuth(text, head, ls, tail);
    RefusedIff(text);
  }

  lemma AuthfailMissing(text: string, head: seq<string>, ls: seq<RuleLine>, tail: seq<string>, u: nat)
    requires IsConfig(text, head, ls, tail) && u < |ls| && Module(ls[u]) == "pam_unix.so" && NoneNames(ls, "authfail", |ls|)
    ensures Armed(text) == Err(NoAuthfail)
  {
    ConfigAuth(text, head, ls, tail);
    RefusedIff(text);
    assert Unix(AuthLines(text)[u]);
  }

  lemma AuthsuccMissing(text: string, head: seq<string>, ls: seq<RuleLine>, tail: seq<string>, u: nat, f: nat)
    requires IsConfig(text, head, ls, tail) && u < |ls| && Module(ls[u]) == "pam_unix.so" && NoneNames(ls, "authsucc", |ls|)
    requires f < |ls| && NamesFaillock(ls[f], "authfail")
    ensures Armed(text) == Err(NoAuthsucc)
  {
    ConfigAuth(text, head, ls, tail);
    RefusedIff(text);
    assert Unix(AuthLines(text)[u]) && Faillock(AuthLines(text)[f], "authfail");
  }

  /** The first authfail rule has no rule of pam_unix before it. */
  lemma AuthfailTooEarly(text: string, head: seq<string>, ls: seq<RuleLine>, tail: seq<string>, u: nat, f: nat, s: nat)
    requires IsConfig(text, head, ls, tail) && u < |ls| && f < |ls| && s < |ls|
    requires Module(ls[u]) == "pam_unix.so" && NamesFaillock(ls[s], "authsucc")
    requires NamesFaillock(ls[f], "authfail") && NoneNames(ls, "authfail", f) && NoUnix(ls, f)
    ensures Armed(text) == Err(BadOrder)
  {
    ConfigAuth(text, head, ls, tail);
    EarlyBy(text, AuthLines(text), u, f, s);
  }

  lemma EarlyBy(text: string, auth: seq<string>, u: nat, f: nat, s: nat)
    requires auth == AuthLines(text) && !Contains(text, ARM_MARKER) && u < |auth| && f < |auth| && s < |auth|
    requires Unix(auth[u]) && Faillock(auth[s], "authsucc") && FirstFaillock(auth, "authfail", f)
    requires forall i :: 0 <= i < f ==> !Unix(auth[i])
    ensures Armed(text) == Err(BadOrder)
  {
    RefusedIff(text);
    assert !SomeUnix(auth, f);
  }

  // ---- a text in the wrong order ----

  /** Authfail before the password rule. */
  const MISORDERED: seq<RuleLine> := [ENVIRONMENT, AUTHFAIL, PASSWORD, AUTHSUCC]

  lemma MisorderedRefused(text: string, none: seq<string>, ls: seq<RuleLine>)
    requires ls == MISORDERED && none == [] && text == Unlines(ConfigLines(none, ls, none))
    ensures Armed(text) == Err(BadOrder)
  {
    MisorderedLines(ls);
    MisorderedUnmarked(text, none, ls);
    MisorderedNames(ls);
    AuthfailTooEarly(text, none, ls, none, 2, 1, 3);
  }

  lemma MisorderedLines(ls: seq<RuleLine>)
    requires ls == MISORDERED
    ensures UsualLines(ls)
  {
    ArchKeywords(4);
    ArchBlocks(4);
  }

  lemma MisorderedUnmarked(text: string, none: seq<string>, ls: seq<RuleLine>)
    requires ls == MISORDERED && UsualLines(ls) && none == [] && text == Unlines(ConfigLines(none, ls, none))
    ensures !Contains(text, ARM_MARKER)
  {
    MisorderedLacks(ls);
    TextLacks(text, none, ls);
  }

  lemma MisorderedLacks(ls: seq<RuleLine>)
    requires ls == MISORDERED
    ensures forall i :: 0 <= i < |ls| ==> Lacks(ls[i], '0')
  {
    KeywordZeros();
    BlockZeros();
  }

  lemma MisorderedNames(ls: seq<RuleLine>)
    requires ls == MISORDERED && UsualLines(ls)
    ensures NoneNames(ls, "authfail", 1) && NoUnix(ls, 1) && NamesFaillock(ls[1], "authfail") && NamesFaillock(ls[3], "authsucc")
    ensures Module(ls[2]) == "pam_unix.so"
  {
    assert Sound(ls[0]);
    Names();
    NotAWord(ENVIRONMENT, "authfail");
    EnvironmentLacks();
    LineLacks(ls[0], 'x');
    LacksPattern(LineText(ls[0]), "pam_unix.so", 7);
  }
}
