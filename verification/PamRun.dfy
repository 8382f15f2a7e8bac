/** The run of a PAM stack, and what inserting the three pam_ds rules does to it.
    Positions are indices among the auth rules of the stack. */
module PamRun {
  import opened Text
  import opened PamSyntax

  // ---- libpam's dispatch loop ----

  datatype Impression = Undecided | Positive | Negative

  datatype Standing = Standing(impression: Impression, status: Code)

  const MUST_FAIL: Code := "perm_denied"

  const FRESH := Standing(Undecided, MUST_FAIL)

  /** A jump past the end. */
  const DENIED := Standing(Negative, MUST_FAIL)

  function Credited(s: Standing, code: Code): Standing {
    if code != "ignore" && (s.impression.Undecided? || (s.impression.Positive? && s.status == "success"))
    then Standing(if s.impression.Undecided? && code == "success" then Positive else s.impression, code)
    else s
  }

  function Blamed(s: Standing, code: Code): Standing {
    if s.impression.Negative? then s else Standing(Negative, if code == "ignore" then MUST_FAIL else code)
  }

  datatype Step = Stop(standing: Standing) | Goto(next: nat, standing: Standing)

  /** One rule at position `i` of `n`. Whether a jump also credits the stack differs between libpam
      versions; `credits` chooses. A jump past the end is an error. */
  function StepAt(c: Control, code: Code, i: nat, n: nat, s: Standing, credits: bool): (r: Step)
    requires i < n
    ensures r.Goto? ==> i < r.next <= n
  {
    match ActionOn(c, code)
    case Credit => Goto(i + 1, Credited(s, code))
    case Done =>
      var s' := Credited(s, code);
      if s'.impression.Positive? then Stop(s') else Goto(i + 1, s')
    case Blame => Goto(i + 1, Blamed(s, code))
    case Die => Stop(Blamed(s, code))
    case Ignore => Goto(i + 1, s)
    case Reset => Goto(i + 1, FRESH)
    case Jump(skip) =>
      if i + 1 + skip > n then Stop(DENIED)
      else Goto(i + 1 + skip, if credits then Credited(s, code) else s)
  }

  /** The rules executed in order, the final standing, and whether control ran off the end. */
  datatype Outcome = Outcome(trace: seq<nat>, standing: Standing, fell: bool)

  function Run(cs: seq<Control>, r: nat -> Code, i: nat, s: Standing, credits: bool): Outcome
    requires i <= |cs|
    decreases |cs| - i
  {
    if i == |cs| then Outcome([], s, true)
    else
      match StepAt(cs[i], r(i), i, |cs|, s, credits)
      case Stop(s') => Outcome([i], s', false)
      case Goto(k, s') =>
        var o := Run(cs, r, k, s', credits);
        Outcome([i] + o.trace, o.standing, o.fell)
  }

  predicate Granted(o: Outcome) { o.standing == Standing(Positive, "success") }

  /** Control arrived at position `t` of a stack of `n` rules. */
  predicate Reached(o: Outcome, n: nat, t: nat) { t in o.trace || (t == n && o.fell) }

  // ---- the armed stack ----

  const PREAUTH_CONTROL := Bracket(["success=ignore", "ignore=ignore", "default=die"])
  const FAIL_CONTROL := Bracket(["default=die"])
  const SUCC_CONTROL := Keyword("optional")

  /** Where rule `k` goes when authfail is stock rule `f` and authsucc is stock rule `s`. */
  function Pos(k: nat, f: nat, s: nat): nat {
    k + 1 + (if k >= f then 1 else 0) + (if k > s then 1 else 0)
  }

  function FailPos(f: nat, s: nat): nat { Pos(f, f, s) - 1 }

  function SuccPos(f: nat, s: nat): nat { Pos(s, f, s) + 1 }

  /** Where the armed stack continues when the stock stack continues at rule `t`. */
  function Enter(t: nat, f: nat, s: nat): nat {
    if t == 0 then 1 else Pos(t - 1, f, s) + 1
  }

  function Shift(a: Action, k: nat, f: nat): Action {
    match a
    case Jump(j) => Jump(if k < f && k + j >= f then j + 1 else j)
    case _ => a
  }

  /** dsctl only reads jumps written behind `success=`. */
  predicate Lengthens(c: Control, code: Code) { code == "success" && NamesSuccess(c) }

  ghost predicate PatchedControl(c: Control, c': Control, k: nat, f: nat) {
    forall code: Code ::
      ActionOn(c', code) == if Lengthens(c, code) then Shift(ActionOn(c, code), k, f) else ActionOn(c, code)
  }

  ghost predicate ArmedStack(cs: seq<Control>, cs': seq<Control>, f: nat, s: nat) {
    && f < |cs| && s < |cs| && |cs'| == |cs| + 3
    && cs'[0] == PREAUTH_CONTROL
    && cs'[FailPos(f, s)] == FAIL_CONTROL
    && cs'[SuccPos(f, s)] == SUCC_CONTROL
    && forall k :: 0 <= k < |cs| ==> PatchedControl(cs[k], cs'[Pos(k, f, s)], k, f)
  }

  /** A jump that starts at authsucc or before it and aims past the rule after it, at most one past the end. */
  predicate Straddles(n: nat, s: nat, k: nat, j: nat) { k <= s < k + j <= n }

  /** Where the armed stack arrives by the jump of stock rule `k`, lengthened or not. */
  function Landing(longer: bool, k: nat, j: nat, f: nat, s: nat): nat {
    Pos(k, f, s) + 1 + (if longer then Shift(Jump(j), k, f).skip else j)
  }

  /** The jump still leads to the place of its target, or is past the end in both stacks. */
  predicate Carried(n: nat, f: nat, s: nat, longer: bool, k: nat, j: nat) {
    if k + 1 + j <= n then Landing(longer, k, j, f, s) == Enter(k + 1 + j, f, s) else Landing(longer, k, j, f, s) > n + 3
  }

  /** Every jump of the stack, on any code, is carried. */
  ghost predicate JumpsFit(cs: seq<Control>, f: nat, s: nat) {
    forall k, code: Code :: 0 <= k < |cs| && ActionOn(cs[k], code).Jump? ==>
      Carried(|cs|, f, s, Lengthens(cs[k], code), k, ActionOn(cs[k], code).skip)
  }

  /** How many inserted rules a jump crosses without being lengthened for them. */
  function Short(longer: bool, k: nat, j: nat, f: nat, s: nat): nat {
    (if !longer && k < f <= k + j then 1 else 0) + (if k <= s < k + j then 1 else 0)
  }

  /** A jump falls short by those rules, so it is carried if it crosses none or clears the end by as many. */
  lemma FallsShort(n: nat, f: nat, s: nat, longer: bool, k: nat, j: nat)
    requires f < n && s < n && k < n
    ensures Landing(longer, k, j, f, s) + Short(longer, k, j, f, s) == Enter(k + 1 + j, f, s)
    ensures Carried(n, f, s, longer, k, j) <==> k + j >= n + Short(longer, k, j, f, s) || Short(longer, k, j, f, s) == 0
  {
    assert Enter(k + 1 + j, f, s) == Pos(k + j, f, s) + 1;
  }

  /** A jump dsctl reads is carried exactly when it does not straddle. */
  lemma LandingIff(n: nat, f: nat, s: nat, k: nat, j: nat)
    requires f < n && s < n && k < n
    ensures Carried(n, f, s, true, k, j) <==> !Straddles(n, s, k, j)
    ensures Straddles(n, s, k, j) ==> Landing(true, k, j, f, s) == if k + j < n then Pos(k + j, f, s) else n + 3
  {
    FallsShort(n, f, s, true, k, j);
  }

  /** A jump on another code, or by default, is not lengthened: one inside the stack is carried exactly when it crosses neither the
      authfail rule nor the place after authsucc, one past the end when it clears the insertions behind it too. */
  lemma OtherLandingIff(n: nat, f: nat, s: nat, k: nat, j: nat)
    requires f < n && s < n && k < n
    ensures Carried(n, f, s, false, k, j)
            <==> if k + 1 + j <= n then !(k < f <= k + j) && !(k <= s < k + j)
                 else k + j + (if k >= f then 1 else 0) + (if k > s then 1 else 0) > n + 1
  {
    FallsShort(n, f, s, false, k, j);
  }

  /** Original rules keep their results; the module's authsucc reports success with `ignore`, a failed
      reset with `auth_err`. */
  ghost predicate SameModules(n: nat, r: nat -> Code, r': nat -> Code, f: nat, s: nat) {
    && (forall k :: 0 <= k < n ==> r'(Pos(k, f, s)) == r(k))
    && r'(SuccPos(f, s)) in {"ignore", "auth_err"}
  }

  /** Which original rule sits at a position that is none of the module's. */
  function Back(q: nat, f: nat, s: nat): nat
    requires q != 0
  {
    q - 1 - (if q > FailPos(f, s) then 1 else 0) - (if q > SuccPos(f, s) then 1 else 0)
  }

  /** The original rules among the executed positions of the armed stack. */
  function Originals(trace: seq<nat>, f: nat, s: nat): seq<nat> {
    if trace == [] then []
    else
      var q, rest := trace[0], Originals(trace[1..], f, s);
      if q == 0 || q == FailPos(f, s) || q == SuccPos(f, s) then rest
      else [Back(q, f, s)] + rest
  }

  function Before(trace: seq<nat>, f: nat): (b: seq<nat>)
    ensures f !in trace ==> b == trace
    ensures b <= trace && f !in b
  {
    if trace == [] || trace[0] == f then [] else [trace[0]] + Before(trace[1..], f)
  }

  ghost predicate SameWork(o: Outcome, a: Outcome, f: nat, s: nat) {
    && Originals(a.trace, f, s) == Before(o.trace, f)
    && (f !in o.trace ==> a.standing == o.standing && FailPos(f, s) !in a.trace)
    && (f in o.trace ==>
         && a.standing.impression == Negative
         && a.trace != [] && a.trace[|a.trace| - 1] == FailPos(f, s))
  }

  ghost predicate Simulates(o: Outcome, a: Outcome, n: nat, f: nat, s: nat) {
    && SameWork(o, a, f, s)
    && (SuccPos(f, s) in a.trace <==> Reached(o, n, s + 1) && (f <= s ==> f !in o.trace))
  }

  lemma {:induction false} Forward(cs: seq<Control>, r: nat -> Code, i: nat, s: Standing, credits: bool)
    requires i <= |cs|
    ensures forall p :: p in Run(cs, r, i, s, credits).trace ==> i <= p < |cs|
    decreases |cs| - i
  {
    if i < |cs| {
      match StepAt(cs[i], r(i), i, |cs|, s, credits)
      case Stop(_) =>
      case Goto(k, s') => Forward(cs, r, k, s', credits);
    }
  }

  lemma OriginalsCons(q: nat, trace: seq<nat>, f: nat, s: nat)
    ensures Originals([q] + trace, f, s) ==
            if q == 0 || q == FailPos(f, s) || q == SuccPos(f, s) then Originals(trace, f, s)
            else [Back(q, f, s)] + Originals(trace, f, s)
  {
    assert ([q] + trace)[1..] == trace;
  }

  // ---- runs that go astray ----

  function Jumped(st: Standing, code: Code, credits: bool): Standing { if credits then Credited(st, code) else st }

  /** Rule `i` takes a jump that is not carried. One past the end of the stock stack, denied there, may come to the end of the
      armed one exactly and fall off it; that is no difference if the standing is that of the denial already. */
  predicate Astray(cs: seq<Control>, r: nat -> Code, i: nat, f: nat, s: nat, st: Standing, credits: bool)
    requires i < |cs|
  {
    var act := ActionOn(cs[i], r(i));
    && act.Jump? && !Carried(|cs|, f, s, Lengthens(cs[i], r(i)), i, act.skip)
    && (Landing(Lengthens(cs[i], r(i)), i, act.skip, f, s) == |cs| + 3 ==> Jumped(st, r(i), credits) != DENIED)
  }

  /** The stock run from rule `i` takes such a jump before it comes to authfail. */
  predicate Strays(cs: seq<Control>, r: nat -> Code, i: nat, f: nat, s: nat, st: Standing, credits: bool)
    requires i <= |cs|
    decreases |cs| - i
  {
    && i < |cs| && i != f
    && (|| Astray(cs, r, i, f, s, st, credits)
        || match StepAt(cs[i], r(i), i, |cs|, st, credits)
           case Stop(_) => false
           case Goto(k, st') => Strays(cs, r, k, f, s, st', credits))
  }

  lemma {:induction false} FitNeverStrays(cs: seq<Control>, r: nat -> Code, i: nat, f: nat, s: nat, st: Standing, credits: bool)
    requires JumpsFit(cs, f, s) && i <= |cs|
    ensures !Strays(cs, r, i, f, s, st, credits)
    decreases |cs| - i
  {
    if i < |cs| {
      match StepAt(cs[i], r(i), i, |cs|, st, credits)
      case Stop(_) =>
      case Goto(k, st') => FitNeverStrays(cs, r, k, f, s, st', credits);
    }
  }

  /** Where a jump takes the two runs. */
  lemma JumpSteps(cs: seq<Control>, cs': seq<Control>, f: nat, s: nat, r: nat -> Code, r': nat -> Code,
                  i: nat, st: Standing, credits: bool)
    requires ArmedStack(cs, cs', f, s) && SameModules(|cs|, r, r', f, s) && i < |cs| && ActionOn(cs[i], r(i)).Jump?
    ensures var p, t, next := Pos(i, f, s), i + 1 + ActionOn(cs[i], r(i)).skip, Jumped(st, r(i), credits);
            var l := Landing(Lengthens(cs[i], r(i)), i, ActionOn(cs[i], r(i)).skip, f, s);
            && StepAt(cs[i], r(i), i, |cs|, st, credits) == (if t > |cs| then Stop(DENIED) else Goto(t, next))
            && StepAt(cs'[p], r'(p), p, |cs'|, st, credits) == if l > |cs'| then Stop(DENIED) else Goto(l, next)
  {
    assert PatchedControl(cs[i], cs'[Pos(i, f, s)], i, f);
  }

  /** At its own position in the armed stack an original rule whose jump, if it takes one, is carried takes the same step. */
  lemma StepAgrees(cs: seq<Control>, cs': seq<Control>, f: nat, s: nat, r: nat -> Code, r': nat -> Code,
                   i: nat, st: Standing, credits: bool)
    requires ArmedStack(cs, cs', f, s) && SameModules(|cs|, r, r', f, s) && i < |cs|
    requires var act := ActionOn(cs[i], r(i)); act.Jump? ==> Carried(|cs|, f, s, Lengthens(cs[i], r(i)), i, act.skip)
    ensures var p := Pos(i, f, s);
            var a := StepAt(cs'[p], r'(p), p, |cs'|, st, credits);
            var o := StepAt(cs[i], r(i), i, |cs|, st, credits);
            a == if o.Stop? then o else Goto(Enter(o.next, f, s), o.standing)
  {
    if ActionOn(cs[i], r(i)).Jump? {
      JumpSteps(cs, cs', f, s, r, r', i, st, credits);
    } else {
      assert PatchedControl(cs[i], cs'[Pos(i, f, s)], i, f);
    }
  }

  lemma SuccIgnored(code: Code)
    requires code in {"ignore", "auth_err"}
    ensures ActionOn(SUCC_CONTROL, code) == Ignore
  {
  }

  lemma FailDies(code: Code)
    ensures ActionOn(FAIL_CONTROL, code) == Die
  {
    var e := "default=die";
    var es := [e];
    assert e[8..] == "die" && "default" + "=" == e[..8];
    assert FirstEntry(es, "default") == Some("die");
    assert es[..0] == [];
    if EntryFor(e, code) {
      assert e[|code|] == (code + "=")[|code|] == '=';
      assert |code| == 7;
      assert LastEntry(es, code) == Some("die");
    } else {
      assert LastEntry(es, code) == None;
    }
  }

  /** Running the armed stack from the place of rule `i` simulates running the stock stack from rule `i`. */
  lemma {:induction false} SimulateFrom(cs: seq<Control>, cs': seq<Control>, f: nat, s: nat,
                                        r: nat -> Code, r': nat -> Code, i: nat, st: Standing, credits: bool)
    requires ArmedStack(cs, cs', f, s) && SameModules(|cs|, r, r', f, s) && i <= |cs|
    requires !Strays(cs, r, i, f, s, st, credits)
    ensures Simulates(Run(cs, r, i, st, credits), Run(cs', r', Enter(i, f, s), st, credits), |cs|, f, s)
    decreases |cs| - i
  {
    var e := Enter(i, f, s);
    if i == s + 1 {
      var p := e + 1;
      assert e == SuccPos(f, s);
      SimulateHere(cs, cs', f, s, r, r', i, p, st, credits);
      PassesSucc(cs, cs', f, s, r, r', i, e, p, st, credits);
    } else {
      Forward(cs', r', e, st, credits);
      SimulateHere(cs, cs', f, s, r, r', i, e, st, credits);
    }
  }

  /** Past authsucc the module's rule runs first and leaves the standing alone. */
  lemma PassesSucc(cs: seq<Control>, cs': seq<Control>, f: nat, s: nat, r: nat -> Code, r': nat -> Code,
                   i: nat, e: nat, p: nat, st: Standing, credits: bool)
    requires f < |cs| && s < |cs| && |cs'| == |cs| + 3 && i == s + 1 && e == SuccPos(f, s) && p == e + 1
    requires cs'[e] == SUCC_CONTROL && r'(e) in {"ignore", "auth_err"}
    requires SameWork(Run(cs, r, i, st, credits), Run(cs', r', p, st, credits), f, s)
    ensures Simulates(Run(cs, r, i, st, credits), Run(cs', r', e, st, credits), |cs|, f, s)
  {
    SuccIgnored(r'(e));
    RunIgnores(cs', r', e, st, credits);
    ArrivesAt(cs, f, r, i, st, credits);
    PastSucc(Run(cs, r, i, st, credits), Run(cs', r', p, st, credits), |cs|, f, s);
  }

  /** A run has reached the rule it starts at, and none before. */
  lemma ArrivesAt(cs: seq<Control>, f: nat, r: nat -> Code, i: nat, st: Standing, credits: bool)
    requires i <= |cs|
    ensures var o := Run(cs, r, i, st, credits); Reached(o, |cs|, i) && (f < i ==> f !in o.trace)
  {
    Forward(cs, r, i, st, credits);
    var o := Run(cs, r, i, st, credits);
    assert i < |cs| ==> i in o.trace;
  }

  lemma PastSucc(o: Outcome, a: Outcome, n: nat, f: nat, s: nat)
    requires SameWork(o, a, f, s) && Reached(o, n, s + 1) && (f <= s ==> f !in o.trace)
    ensures var e := SuccPos(f, s); Simulates(o, a.(trace := [e] + a.trace), n, f, s)
  {
    OriginalsCons(SuccPos(f, s), a.trace, f, s);
  }

  /** The same with the module's authsucc already behind. */
  lemma {:induction false} SimulateHere(cs: seq<Control>, cs': seq<Control>, f: nat, s: nat,
                                        r: nat -> Code, r': nat -> Code, i: nat, p: nat, st: Standing, credits: bool)
    requires ArmedStack(cs, cs', f, s) && SameModules(|cs|, r, r', f, s) && i <= |cs|
    requires !Strays(cs, r, i, f, s, st, credits)
    requires p == Enter(i, f, s) + (if i == s + 1 then 1 else 0)
    ensures var o, a := Run(cs, r, i, st, credits), Run(cs', r', p, st, credits);
            && SameWork(o, a, f, s)
            && (i != s + 1 ==> Simulates(o, a, |cs|, f, s))
    decreases |cs| - i, 0
  {
    if i == f {
      assert p == FailPos(f, s);
      AtAuthfail(cs, cs', f, s, r, r', p, st, credits);
    } else if i < |cs| {
      assert p == Pos(i, f, s);
      var step := StepAt(cs[i], r(i), i, |cs|, st, credits);
      var act := ActionOn(cs[i], r(i));
      if act.Jump? && !Carried(|cs|, f, s, Lengthens(cs[i], r(i)), i, act.skip) {
        AtEdge(cs, cs', f, s, r, r', i, st, credits);
      } else {
        if step.Goto? { SimulateFrom(cs, cs', f, s, r, r', step.next, step.standing, credits); }
        TakesStep(cs, cs', f, s, r, r', i, st, credits);
      }
    } else {
      AtEnd(cs, cs', f, s, r, r', st, credits);
    }
  }

  /** A jump past the end with nothing left to lose: both runs end here, denied alike. */
  lemma AtEdge(cs: seq<Control>, cs': seq<Control>, f: nat, s: nat, r: nat -> Code, r': nat -> Code,
               i: nat, st: Standing, credits: bool)
    requires ArmedStack(cs, cs', f, s) && SameModules(|cs|, r, r', f, s) && i < |cs| && i != f
    requires !Astray(cs, r, i, f, s, st, credits)
    requires var act := ActionOn(cs[i], r(i)); act.Jump? && !Carried(|cs|, f, s, Lengthens(cs[i], r(i)), i, act.skip)
    ensures var o, a := Run(cs, r, i, st, credits), Run(cs', r', Pos(i, f, s), st, credits);
            SameWork(o, a, f, s) && (i != s + 1 ==> Simulates(o, a, |cs|, f, s))
  {
    var p := Pos(i, f, s);
    FallsShort(|cs|, f, s, Lengthens(cs[i], r(i)), i, ActionOn(cs[i], r(i)).skip);
    JumpSteps(cs, cs', f, s, r, r', i, st, credits);
    assert Run(cs', r', |cs'|, DENIED, credits) == Outcome([], DENIED, true);
    assert [p] + [] == [p];
    assert Run(cs, r, i, st, credits) == Outcome([i], DENIED, false);
    assert Run(cs', r', p, st, credits) == Outcome([p], DENIED, true);
    Alone(i, p, DENIED, |cs|, f, s);
  }

  lemma Alone(i: nat, p: nat, st: Standing, n: nat, f: nat, s: nat)
    requires i < n && i != f && p == Pos(i, f, s)
    ensures var o, a := Outcome([i], st, false), Outcome([p], st, true);
            SameWork(o, a, f, s) && (i != s + 1 ==> Simulates(o, a, n, f, s))
  {
    OriginalsCons(p, [], f, s);
    assert [p] + [] == [p] && [i][1..] == [];
    assert p != 0 && p != FailPos(f, s) && p != SuccPos(f, s);
    assert Back(p, f, s) == i;
  }

  /** Behind the last rule both runs are over. */
  lemma AtEnd(cs: seq<Control>, cs': seq<Control>, f: nat, s: nat, r: nat -> Code, r': nat -> Code, st: Standing, credits: bool)
    requires f < |cs| && s < |cs| && |cs'| == |cs| + 3
    ensures Run(cs, r, |cs|, st, credits) == Outcome([], st, true) == Run(cs', r', |cs'|, st, credits)
    ensures SameWork(Outcome([], st, true), Outcome([], st, true), f, s)
    ensures Enter(|cs|, f, s) + (if |cs| == s + 1 then 1 else 0) == |cs'|
  {
  }

  /** An ignored rule leaves its position in the trace and nothing else. */
  lemma RunIgnores(cs: seq<Control>, r: nat -> Code, i: nat, st: Standing, credits: bool)
    requires i < |cs| && ActionOn(cs[i], r(i)) == Ignore
    ensures var o := Run(cs, r, i + 1, st, credits); Run(cs, r, i, st, credits) == o.(trace := [i] + o.trace)
  {
  }

  /** A rule other than authfail, when the runs after its step are related. */
  lemma TakesStep(cs: seq<Control>, cs': seq<Control>, f: nat, s: nat, r: nat -> Code, r': nat -> Code,
                  i: nat, st: Standing, credits: bool)
    requires ArmedStack(cs, cs', f, s) && SameModules(|cs|, r, r', f, s) && i < |cs| && i != f
    requires var act := ActionOn(cs[i], r(i)); act.Jump? ==> Carried(|cs|, f, s, Lengthens(cs[i], r(i)), i, act.skip)
    requires var o := StepAt(cs[i], r(i), i, |cs|, st, credits);
             o.Goto? ==> Simulates(Run(cs, r, o.next, o.standing, credits),
                                   Run(cs', r', Enter(o.next, f, s), o.standing, credits), |cs|, f, s)
    ensures var o, a := Run(cs, r, i, st, credits), Run(cs', r', Pos(i, f, s), st, credits);
            SameWork(o, a, f, s) && (i != s + 1 ==> Simulates(o, a, |cs|, f, s))
  {
    StepAgrees(cs, cs', f, s, r, r', i, st, credits);
    AtOriginal(cs, cs', f, s, r, r', i, st, credits);
  }

  /** Authfail: the module's rule, standing before it, ends the run. */
  lemma AtAuthfail(cs: seq<Control>, cs': seq<Control>, f: nat, s: nat, r: nat -> Code, r': nat -> Code,
                   p: nat, st: Standing, credits: bool)
    requires ArmedStack(cs, cs', f, s) && p == FailPos(f, s)
    ensures var o, a := Run(cs, r, f, st, credits), Run(cs', r', p, st, credits);
            SameWork(o, a, f, s) && a.trace == [p] && (f != s + 1 ==> Simulates(o, a, |cs|, f, s))
  {
    FailDies(r'(p));
    var last := Blamed(st, r'(p));
    assert StepAt(cs'[p], r'(p), p, |cs'|, st, credits) == Stop(last);
    Forward(cs, r, f, st, credits);
    EndsAtFail(Run(cs, r, f, st, credits), Run(cs', r', p, st, credits), last, |cs|, f, s, p);
  }

  lemma EndsAtFail(o: Outcome, a: Outcome, last: Standing, n: nat, f: nat, s: nat, p: nat)
    requires o.trace != [] && o.trace[0] == f < n && p == FailPos(f, s) && s < n
    requires forall q :: q in o.trace ==> f <= q < n
    requires a == Outcome([p], last, false) && last.impression == Negative
    ensures SameWork(o, a, f, s) && (f != s + 1 ==> Simulates(o, a, n, f, s))
  {
    assert [p][1..] == [];
    assert f in o.trace;
  }

  /** Any other original rule: the same step, and then two related runs. */
  lemma AtOriginal(cs: seq<Control>, cs': seq<Control>, f: nat, s: nat, r: nat -> Code, r': nat -> Code,
                   i: nat, st: Standing, credits: bool)
    requires f < |cs| && s < |cs| && |cs'| == |cs| + 3 && i < |cs| && i != f
    requires var p := Pos(i, f, s);
             var a := StepAt(cs'[p], r'(p), p, |cs'|, st, credits);
             var o := StepAt(cs[i], r(i), i, |cs|, st, credits);
             if o.Stop? then a == o
             else
               && a == Goto(Enter(o.next, f, s), o.standing)
               && Simulates(Run(cs, r, o.next, o.standing, credits),
                            Run(cs', r', Enter(o.next, f, s), o.standing, credits), |cs|, f, s)
    ensures var o, a := Run(cs, r, i, st, credits), Run(cs', r', Pos(i, f, s), st, credits);
            SameWork(o, a, f, s) && (i != s + 1 ==> Simulates(o, a, |cs|, f, s))
  {
    var p := Pos(i, f, s);
    match StepAt(cs[i], r(i), i, |cs|, st, credits)
    case Stop(st') =>
      var e := Outcome([], st', false);
      PrependIff(e, e, |cs|, f, s, i, p);
      assert [i] + [] == [i] && [p] + [] == [p];
    case Goto(k, st') =>
      PrependIff(Run(cs, r, k, st', credits), Run(cs', r', Enter(k, f, s), st', credits), |cs|, f, s, i, p);
  }

  /** One more original rule in front, other than authfail. */
  lemma PrependTraces(o: seq<nat>, a: seq<nat>, f: nat, s: nat, i: nat, p: nat)
    requires i != f && p == Pos(i, f, s)
    ensures Originals([p] + a, f, s) == [i] + Originals(a, f, s) && Before([i] + o, f) == [i] + Before(o, f)
    ensures Originals([p] + a, f, s)[1..] == Originals(a, f, s) && Before([i] + o, f)[1..] == Before(o, f)
    ensures p != FailPos(f, s) && p != SuccPos(f, s)
  {
    OriginalsCons(p, a, f, s);
    assert ([i] + o)[1..] == o;
    assert Back(p, f, s) == i;
  }

  lemma PrependWork(o: Outcome, a: Outcome, f: nat, s: nat, i: nat, p: nat)
    requires i != f && p == Pos(i, f, s)
    ensures SameWork(o.(trace := [i] + o.trace), a.(trace := [p] + a.trace), f, s) <==> SameWork(o, a, f, s)
  {
    PrependTraces(o.trace, a.trace, f, s, i, p);
  }

  /** It decides nothing. */
  lemma PrependIff(o: Outcome, a: Outcome, n: nat, f: nat, s: nat, i: nat, p: nat)
    requires i < n && i != f && p == Pos(i, f, s)
    ensures var o', a' := o.(trace := [i] + o.trace), a.(trace := [p] + a.trace);
            && (SameWork(o', a', f, s) <==> SameWork(o, a, f, s))
            && (i != s + 1 ==> (Simulates(o', a', n, f, s) <==> Simulates(o, a, n, f, s)))
  {
    PrependWork(o, a, f, s, i, p);
  }

  lemma PreauthIgnores()
    ensures ActionOn(PREAUTH_CONTROL, "ignore") == Ignore
  {
    var es := ["success=ignore", "ignore=ignore", "default=die"];
    assert es[..2] == ["success=ignore", "ignore=ignore"];
    assert es[2][0] == 'd' && ("ignore" + "=")[0] == 'i';
    assert "ignore" + "=" == es[1][..7];
    assert es[1][7..] == "ignore";
  }

  /** When the module's preauth rule sees no duress code, the run goes on behind it. */
  lemma BehindPreauth(cs': seq<Control>, r': nat -> Code, credits: bool)
    requires cs' != [] && cs'[0] == PREAUTH_CONTROL && r'(0) == "ignore"
    ensures var a, b := Run(cs', r', 0, FRESH, credits), Run(cs', r', 1, FRESH, credits);
            a.trace == [0] + b.trace && a.(trace := a.trace[1..]) == b
  {
    PreauthIgnores();
    var a, b := Run(cs', r', 0, FRESH, credits), Run(cs', r', 1, FRESH, credits);
    assert a.trace == [0] + b.trace;
    assert a.trace[1..] == b.trace;
  }

  /** The whole run, when the module's preauth rule sees no duress code. */
  lemma Simulation(cs: seq<Control>, cs': seq<Control>, f: nat, s: nat, r: nat -> Code, r': nat -> Code, credits: bool)
    requires ArmedStack(cs, cs', f, s) && SameModules(|cs|, r, r', f, s)
    requires r'(0) == "ignore" && !Strays(cs, r, 0, f, s, FRESH, credits)
    ensures var o, a := Run(cs, r, 0, FRESH, credits), Run(cs', r', 0, FRESH, credits);
            && a.trace != [] && a.trace[0] == 0
            && Simulates(o, a.(trace := a.trace[1..]), |cs|, f, s)
  {
    BehindPreauth(cs', r', credits);
    SimulateFrom(cs, cs', f, s, r, r', 0, FRESH, credits);
  }

  lemma FailAll()
    ensures forall code: Code :: ActionOn(FAIL_CONTROL, code) == Die
  {
    forall code: Code ensures ActionOn(FAIL_CONTROL, code) == Die { FailDies(code); }
  }
}
