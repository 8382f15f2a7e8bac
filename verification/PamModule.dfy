/** pam_ds: the module behind the inserted rules, and its counter over a history of logins. */
module PamModule {
  import opened Text
  import opened PamSyntax
  import opened PamRun
  import Verifier
  import AttemptPolicy

  /** The attempts file. */
  datatype AttemptFile = Absent | Corrupt | Stored(count: nat, lastFail: nat)

  const WIPE_AT: nat := AttemptPolicy.DEFAULT_WIPE_AT

  function CountOf(file: AttemptFile): nat {
    if file.Stored? then file.count else 0
  }

  /** The file after one recorded failure. */
  function Recorded(file: AttemptFile, now: nat): AttemptFile
    requires !file.Corrupt?
  {
    Stored(SaturatingInc(CountOf(file)), now)
  }

  datatype Mode = Preauth(token: Option<string>) | Authfail | Authsucc

  const IGNORE: Code := "ignore"
  const AUTH_ERR: Code := "auth_err"

  class PamDs {
    var marker: bool
    var verifier: Option<string>
    var attempts: AttemptFile
    var launched: nat

    /** The code the preauth rule looks for is the one entered. */
    predicate Duress(kdf: Verifier.Kdf, token: Option<string>)
      reads this
    {
      && verifier.Some? && Verifier.Parse(verifier.value).Ok? && token.Some?
      && Verifier.Verifies(kdf, Verifier.Parse(verifier.value).value, token.value)
    }

    predicate Enrolled()
      reads this
    {
      verifier.Some? && Verifier.Parse(verifier.value).Ok?
    }

    /** `authenticate`. `durable` says whether the state directory accepts writes during the call. */
    method Authenticate(kdf: Verifier.Kdf, mode: Mode, now: nat, durable: bool) returns (code: Code)
      modifies this
      ensures marker == old(marker) && verifier == old(verifier)
      ensures !marker ==> code == "ignore" && attempts == old(attempts) && launched == old(launched)
      ensures marker && mode.Preauth? ==>
                && attempts == old(attempts)
                && launched == old(launched) + (if Duress(kdf, mode.token) then 1 else 0)
                && (code == "ignore" <==> Enrolled() && mode.token.Some? && !Duress(kdf, mode.token))
                && code in {"ignore", "auth_err"}
      ensures marker && mode.Authfail? ==>
                && code == "auth_err"
                && (durable && !old(attempts).Corrupt? ==>
                     && attempts == Recorded(old(attempts), now)
                     && launched == old(launched) + (if CountOf(attempts) >= WIPE_AT then 1 else 0))
                && (old(attempts).Corrupt? ==> attempts == old(attempts) && launched == old(launched))
      ensures marker && mode.Authsucc? ==>
                && launched == old(launched) && code in {"ignore", "auth_err"}
                && (durable ==> attempts == Absent && code == "ignore")
                && (code == "ignore" ==> attempts == Absent)
    {
      if !marker { return IGNORE; }
      match mode
      case Authfail => code := OnAuthfail(now, durable);
      case Authsucc =>
        var removed: bool := *;
        if durable || removed { attempts := Absent; code := IGNORE; } else { code := AUTH_ERR; }
      case Preauth(token) =>
        if verifier.None? { return AUTH_ERR; }
        var parsed := Verifier.Parse(verifier.value);
        if parsed.Err? { return AUTH_ERR; }
        if token.None? { return AUTH_ERR; }
        if Verifier.Verifies(kdf, parsed.value, token.value) {
          Fire();
          return AUTH_ERR;
        }
        return IGNORE;
    }

    /** `on_authfail`, on top of `record_failure`. */
    method OnAuthfail(now: nat, durable: bool) returns (code: Code)
      modifies this`attempts, this`launched
      ensures code == "auth_err"
      ensures durable && !old(attempts).Corrupt? ==>
                && attempts == Recorded(old(attempts), now)
                && launched == old(launched) + (if CountOf(attempts) >= WIPE_AT then 1 else 0)
      ensures old(attempts).Corrupt? ==> attempts == old(attempts) && launched == old(launched)
    {
      code := AUTH_ERR;
      if attempts.Corrupt? { return; }
      var count := SaturatingInc(CountOf(attempts));
      var written: bool := *;
      var renamed: bool := *;
      if durable || written {
        attempts := Stored(count, now);
      } else {
        // a write that reports an error may still have replaced the file
        if renamed { attempts := Stored(count, now); }
        return;
      }
      if count >= WIPE_AT { Fire(); }
    }

    method Fire()
      modifies this`launched
      ensures launched == old(launched) + 1
    {
      launched := launched + 1;
    }

    function State(): Ds
      reads this
    {
      Ds(attempts, launched)
    }

    /** An enrolled module on an armed machine, its attempts file readable, and the code entered in this login. */
    predicate Ready(kdf: Verifier.Kdf, token: string, login: Login)
      reads this
    {
      marker && Enrolled() && !attempts.Corrupt? && login.duress == Duress(kdf, Some(token))
    }

    /** The module called by the inserted rule at position `q`. */
    method Rule(kdf: Verifier.Kdf, token: string, q: nat, f: nat, s: nat, login: Login) returns (code: Code)
      requires Ready(kdf, token, login) && q in {0, FailPos(f, s), SuccPos(f, s)}
      modifies this
      ensures Ready(kdf, token, login) && State() == Effect(old(State()), q, f, s, login)
      ensures code == ResultAt(login, f, s, q)
    {
      var mode := if q == 0 then Preauth(Some(token)) else if q == FailPos(f, s) then Authfail else Authsucc;
      code := Authenticate(kdf, mode, login.now, true);
    }

    /** One login through the armed stack: the module's rules among those executed, in their order. */
    method LogIn(kdf: Verifier.Kdf, token: string, cs': seq<Control>, f: nat, s: nat, login: Login, credits: bool)
      requires Ready(kdf, token, login)
      modifies this
      ensures Ready(kdf, token, login) && State() == AfterLogin(cs', f, s, old(State()), login, credits)
    {
      var trace := Run(cs', ArmedResults(login, f, s), 0, FRESH, credits).trace;
      for i := 0 to |trace|
        invariant Ready(kdf, token, login)
        invariant Effects(State(), trace[i..], f, s, login) == Effects(old(State()), trace, f, s, login)
      {
        assert trace[i..][1..] == trace[i + 1..];
        if trace[i] in {0, FailPos(f, s), SuccPos(f, s)} {
          var code := Rule(kdf, token, trace[i], f, s, login);
        }
      }
    }
  }

  // ---- a history of logins through the armed stack ----

  /** One login: what the stock modules answer, and whether the duress code was entered. */
  datatype Login = Login(results: nat -> Code, duress: bool, now: nat)

  /** The module's state, with the attempts file readable. */
  datatype Ds = Ds(attempts: AttemptFile, launched: nat)

  /** What the module does when its rule at position `q` runs; state writes succeed. */
  function Effect(d: Ds, q: nat, f: nat, s: nat, login: Login): Ds
    requires !d.attempts.Corrupt?
  {
    if q == 0 then d.(launched := d.launched + (if login.duress then 1 else 0))
    else if q == FailPos(f, s) then
      var file := Recorded(d.attempts, login.now);
      Ds(file, d.launched + (if CountOf(file) >= WIPE_AT then 1 else 0))
    else if q == SuccPos(f, s) then d.(attempts := Absent)
    else d
  }

  function Effects(d: Ds, trace: seq<nat>, f: nat, s: nat, login: Login): (e: Ds)
    requires !d.attempts.Corrupt?
    ensures !e.attempts.Corrupt?
    decreases |trace|
  {
    if trace == [] then d else Effects(Effect(d, trace[0], f, s, login), trace[1..], f, s, login)
  }

  /** The results of the armed stack's rules: the module's own, and the stock ones in their new places. */
  function ResultAt(login: Login, f: nat, s: nat, q: nat): Code {
    if q == 0 then (if login.duress then "auth_err" else "ignore")
    else if q == FailPos(f, s) then "auth_err"
    else if q == SuccPos(f, s) then "ignore"
    else login.results(Back(q, f, s))
  }

  function ArmedResults(login: Login, f: nat, s: nat): nat -> Code {
    (q: nat) => ResultAt(login, f, s, q)
  }

  function AfterLogin(cs': seq<Control>, f: nat, s: nat, d: Ds, login: Login, credits: bool): (e: Ds)
    requires !d.attempts.Corrupt?
    ensures !e.attempts.Corrupt?
  {
    Effects(d, Run(cs', ArmedResults(login, f, s), 0, FRESH, credits).trace, f, s, login)
  }

  function AfterLogins(cs': seq<Control>, f: nat, s: nat, h: seq<Login>, credits: bool): (e: Ds)
    ensures !e.attempts.Corrupt?
  {
    if h == [] then Ds(Absent, 0)
    else AfterLogin(cs', f, s, AfterLogins(cs', f, s, h[..|h| - 1], credits), h[|h| - 1], credits)
  }

  /** In the stock stack this login reaches the authfail rule. */
  predicate Fails(cs: seq<Control>, f: nat, login: Login, credits: bool) {
    !login.duress && f in Run(cs, login.results, 0, FRESH, credits).trace
  }

  /** In the stock stack this login avoids authfail and passes the authsucc rule. */
  predicate Passes(cs: seq<Control>, f: nat, s: nat, login: Login, credits: bool) {
    var o := Run(cs, login.results, 0, FRESH, credits);
    !login.duress && f !in o.trace && Reached(o, |cs|, s + 1)
  }

  /** Failed logins since the last one that passed. */
  function Streak(cs: seq<Control>, f: nat, s: nat, h: seq<Login>, credits: bool): nat {
    if h == [] then 0
    else
      var before := Streak(cs, f, s, h[..|h| - 1], credits);
      if Fails(cs, f, h[|h| - 1], credits) then before + 1
      else if Passes(cs, f, s, h[|h| - 1], credits) then 0
      else before
  }

  function AtMostU32(n: nat): nat { if n < U32 then n else U32 - 1 }

  /** Logins with the duress code, and failed logins whose streak is at least the wipe threshold. */
  function Triggers(cs: seq<Control>, f: nat, s: nat, h: seq<Login>, credits: bool): nat {
    if h == [] then 0
    else
      Triggers(cs, f, s, h[..|h| - 1], credits)
      + (if h[|h| - 1].duress || (Fails(cs, f, h[|h| - 1], credits) && Streak(cs, f, s, h, credits) >= WIPE_AT)
         then 1 else 0)
  }

  ghost predicate Ordered(t: seq<nat>, i: nat) {
    (forall j :: 0 <= j < |t| ==> i <= t[j]) && forall j, k :: 0 <= j < k < |t| ==> t[j] < t[k]
  }

  lemma {:induction false} Increasing(cs: seq<Control>, r: nat -> Code, i: nat, st: Standing, credits: bool)
    requires i <= |cs|
    ensures Ordered(Run(cs, r, i, st, credits).trace, i)
    decreases |cs| - i
  {
    if i < |cs| {
      var step := StepAt(cs[i], r(i), i, |cs|, st, credits);
      if step.Goto? {
        Increasing(cs, r, step.next, step.standing, credits);
        var rest := Run(cs, r, step.next, step.standing, credits).trace;
        var t := [i] + rest;
        assert forall j :: 1 <= j < |t| ==> t[j] == rest[j - 1];
        assert Ordered(t, i);
      }
    }
  }

  lemma {:induction false} EffectsAppend(d: Ds, a: seq<nat>, q: nat, f: nat, s: nat, login: Login)
    requires !d.attempts.Corrupt?
    ensures Effects(d, a + [q], f, s, login) == Effect(Effects(d, a, f, s, login), q, f, s, login)
    decreases |a|
  {
    if a == [] {
      assert a + [q] == [q] && [q][1..] == [];
    } else {
      assert (a + [q])[1..] == a[1..] + [q];
      EffectsAppend(Effect(d, a[0], f, s, login), a[1..], q, f, s, login);
    }
  }

  /** Without the module's authfail, a run resets the file if it includes authsucc, and does nothing else. */
  lemma {:induction false} QuietEffects(d: Ds, t: seq<nat>, f: nat, s: nat, login: Login)
    requires !d.attempts.Corrupt? && 0 !in t && FailPos(f, s) !in t
    ensures Effects(d, t, f, s, login) == if SuccPos(f, s) in t then d.(attempts := Absent) else d
    decreases |t|
  {
    if t != [] {
      var e := Effect(d, t[0], f, s, login);
      QuietEffects(e, t[1..], f, s, login);
      assert SuccPos(f, s) in t <==> t[0] == SuccPos(f, s) || SuccPos(f, s) in t[1..];
    }
  }

  lemma DuressDies(cs': seq<Control>, r: nat -> Code, credits: bool)
    requires cs' != [] && cs'[0] == PREAUTH_CONTROL && r(0) == "auth_err"
    ensures Run(cs', r, 0, FRESH, credits) == Outcome([0], Standing(Negative, "auth_err"), false)
  {
    var es := ["success=ignore", "ignore=ignore", "default=die"];
    assert "auth_err" + "=" == "auth_err=";
    assert es[0][0] == 's' && es[1][0] == 'i' && es[2][0] == 'd' && "auth_err="[0] == 'a';
    assert es[..2] == [es[0], es[1]] && es[..2][..1] == [es[0]] && es[..2][..1][..0] == [];
    assert LastEntry([es[0]], "auth_err") == None;
    assert LastEntry([es[0], es[1]], "auth_err") == None;
    assert LastEntry(es, "auth_err") == None;
    assert "default" + "=" == es[2][..8] && es[2][8..] == "die";
    assert ("default" + "=")[0] == 'd';
    assert es[1..] == [es[1], es[2]] && es[1..][1..] == [es[2]];
    assert FirstEntry([es[2]], "default") == Some("die");
    assert FirstEntry([es[1], es[2]], "default") == Some("die");
    assert FirstEntry(es, "default") == Some("die");
    assert ActionOn(PREAUTH_CONTROL, "auth_err") == Die;
  }

  lemma SameResults(n: nat, f: nat, s: nat, login: Login)
    requires f < n && s < n
    ensures SameModules(n, login.results, ArmedResults(login, f, s), f, s)
  {
    var r' := ArmedResults(login, f, s);
    assert SuccPos(f, s) != 0 && SuccPos(f, s) != FailPos(f, s);
    forall k | 0 <= k < n
      ensures r'(Pos(k, f, s)) == login.results(k)
    {
      assert Back(Pos(k, f, s), f, s) == k;
    }
  }

  /** The state in front of the module's authfail rule: with authsucc before authfail the run has just cleared the count. */
  function Cleared(d: Ds, f: nat, s: nat): Ds { if f <= s then d else d.(attempts := Absent) }

  /** The login takes no jump that goes astray before authfail. */
  predicate Keeps(cs: seq<Control>, f: nat, s: nat, login: Login, credits: bool) {
    login.duress || !Strays(cs, login.results, 0, f, s, FRESH, credits)
  }

  /** One such login, on the module's state: with the duress code one launch; a login that reaches the stock
      authfail is counted, and launches at the threshold; one that passes authsucc clears the count. */
  lemma LoginEffect(cs: seq<Control>, cs': seq<Control>, f: nat, s: nat, d: Ds, login: Login, credits: bool)
    requires ArmedStack(cs, cs', f, s) && Keeps(cs, f, s, login, credits) && !d.attempts.Corrupt?
    ensures var e := AfterLogin(cs', f, s, d, login, credits);
            if login.duress then e == d.(launched := d.launched + 1)
            else if Fails(cs, f, login, credits) then
              e == Effect(Cleared(d, f, s), FailPos(f, s), f, s, login)
            else if Passes(cs, f, s, login, credits) then e == d.(attempts := Absent)
            else e == d
  {
    var a := Run(cs', ArmedResults(login, f, s), 0, FRESH, credits);
    if login.duress {
      DuressDies(cs', ArmedResults(login, f, s), credits);
      EffectsAppend(d, [], 0, f, s, login);
      assert [] + [0] == [0];
    } else {
      ArmedTrace(cs, cs', f, s, login, credits);
      TraceEffects(d, a.trace, f, s, login);
    }
  }

  /** Preauth that sees no duress code has no effect. */
  lemma TraceEffects(d: Ds, a: seq<nat>, f: nat, s: nat, login: Login)
    requires !d.attempts.Corrupt? && !login.duress && a != [] && a[0] == 0 && Ordered(a[1..], 1)
    requires FailPos(f, s) in a[1..] ==> a[|a| - 1] == FailPos(f, s)
    ensures var e := if SuccPos(f, s) in a[1..] then d.(attempts := Absent) else d;
            Effects(d, a, f, s, login) == if FailPos(f, s) in a[1..] then Effect(e, FailPos(f, s), f, s, login) else e
  {
    assert Effect(d, 0, f, s, login) == d;
    assert a[1..] != [] ==> a[1..][|a| - 2] == a[|a| - 1];
    RunEffects(d, a[1..], f, s, login);
  }

  /** Behind preauth the armed run meets the module's rules as the stock run meets the stock ones. */
  lemma ArmedTrace(cs: seq<Control>, cs': seq<Control>, f: nat, s: nat, login: Login, credits: bool)
    requires ArmedStack(cs, cs', f, s) && Keeps(cs, f, s, login, credits) && !login.duress
    ensures var a := Run(cs', ArmedResults(login, f, s), 0, FRESH, credits).trace;
            && a != [] && a[0] == 0 && Ordered(a[1..], 1)
            && (FailPos(f, s) in a[1..] <==> Fails(cs, f, login, credits))
            && (SuccPos(f, s) in a[1..] <==>
                  if Fails(cs, f, login, credits) then s < f else Passes(cs, f, s, login, credits))
            && (FailPos(f, s) in a[1..] ==> a[|a| - 1] == FailPos(f, s))
  {
    var r, r' := login.results, ArmedResults(login, f, s);
    SameResults(|cs|, f, s, login);
    Simulation(cs, cs', f, s, r, r', credits);
    Increasing(cs', r', 0, FRESH, credits);
    if s < f && Fails(cs, f, login, credits) { PassesEarly(cs, r, 0, f, s, FRESH, credits); }
    TraceOf(Run(cs, r, 0, FRESH, credits), Run(cs', r', 0, FRESH, credits), |cs|, f, s);
  }

  lemma TraceOf(o: Outcome, a: Outcome, n: nat, f: nat, s: nat)
    requires a.trace != [] && Ordered(a.trace, 0) && Simulates(o, a.(trace := a.trace[1..]), n, f, s)
    requires s < f && f in o.trace ==> s + 1 in o.trace
    ensures var t := a.trace[1..];
            && Ordered(t, 1)
            && (FailPos(f, s) in t <==> f in o.trace)
            && (SuccPos(f, s) in t <==> if f in o.trace then s < f else Reached(o, n, s + 1))
            && (FailPos(f, s) in t ==> a.trace[|a.trace| - 1] == FailPos(f, s))
  {
    var t := a.trace[1..];
    forall j | 0 <= j < |t|
      ensures t[j] == a.trace[j + 1] && 1 <= t[j]
    {
      assert a.trace[0] < a.trace[j + 1];
    }
    assert t != [] ==> t[|t| - 1] == a.trace[|a.trace| - 1];
    if f in o.trace { assert FailPos(f, s) == t[|t| - 1]; }
    assert SuccPos(f, s) in t <==> Reached(o, n, s + 1) && (f <= s ==> f !in o.trace);
    assert s < f && f in o.trace ==> Reached(o, n, s + 1);
  }

  /** With authsucc before authfail, a run that does not stray comes to authfail only past authsucc. */
  lemma {:induction false} PassesEarly(cs: seq<Control>, r: nat -> Code, i: nat, f: nat, s: nat, st: Standing, credits: bool)
    requires i <= s + 1 <= f < |cs| && !Strays(cs, r, i, f, s, st, credits) && f in Run(cs, r, i, st, credits).trace
    ensures s + 1 in Run(cs, r, i, st, credits).trace
    decreases |cs| - i
  {
    if i <= s {
      var step := StepAt(cs[i], r(i), i, |cs|, st, credits);
      var act := ActionOn(cs[i], r(i));
      if act.Jump? { FallsShort(|cs|, f, s, Lengthens(cs[i], r(i)), i, act.skip); }
      assert step.Goto? && step.next <= s + 1;
      PassesEarly(cs, r, step.next, f, s, step.standing, credits);
    }
  }

  /** The effects of an ordered run behind preauth that ends at authfail if it meets it. */
  lemma RunEffects(d: Ds, t: seq<nat>, f: nat, s: nat, login: Login)
    requires !d.attempts.Corrupt? && Ordered(t, 1)
    requires FailPos(f, s) in t ==> t[|t| - 1] == FailPos(f, s)
    ensures var e := if SuccPos(f, s) in t then d.(attempts := Absent) else d;
            Effects(d, t, f, s, login) == if FailPos(f, s) in t then Effect(e, FailPos(f, s), f, s, login) else e
  {
    var fp := FailPos(f, s);
    if fp in t {
      var init := t[..|t| - 1];
      assert t == init + [fp];
      assert forall k :: 0 <= k < |init| ==> init[k] == t[k] < t[|t| - 1];
      assert SuccPos(f, s) in t <==> SuccPos(f, s) in init;
      QuietEffects(d, init, f, s, login);
      EffectsAppend(d, init, fp, f, s, login);
    } else {
      QuietEffects(d, t, f, s, login);
    }
  }

  /** Logins with the duress code. */
  function Duresses(h: seq<Login>): nat {
    if h == [] then 0 else Duresses(h[..|h| - 1]) + if h[|h| - 1].duress then 1 else 0
  }

  predicate AllKeep(cs: seq<Control>, f: nat, s: nat, h: seq<Login>, credits: bool) {
    forall i :: 0 <= i < |h| ==> Keeps(cs, f, s, h[i], credits)
  }

  /** A stack all of whose jumps are carried. */
  lemma FitKeeps(cs: seq<Control>, f: nat, s: nat, h: seq<Login>, credits: bool)
    requires JumpsFit(cs, f, s)
    ensures AllKeep(cs, f, s, h, credits)
  {
    forall i | 0 <= i < |h| ensures Keeps(cs, f, s, h[i], credits) {
      FitNeverStrays(cs, h[i].results, 0, f, s, FRESH, credits);
    }
  }

  /** Over every history of logins through an armed stack, none of which strays. With authsucc after authfail the stored count
      is the number of failed logins since the last one that passed, and the eraser was launched once for every duress code
      and every failed login at or past the threshold. In the other order every failed login first clears the count: it never
      passes one, and only duress codes launch. */
  lemma {:induction false} HistoryCounts(cs: seq<Control>, cs': seq<Control>, f: nat, s: nat, h: seq<Login>, credits: bool)
    requires ArmedStack(cs, cs', f, s) && AllKeep(cs, f, s, h, credits)
    ensures var e, streak := AfterLogins(cs', f, s, h, credits), Streak(cs, f, s, h, credits);
            && CountOf(e.attempts) == (if f <= s then AtMostU32(streak) else if streak == 0 then 0 else 1)
            && e.launched == if f <= s then Triggers(cs, f, s, h, credits) else Duresses(h)
    decreases |h|
  {
    if h != [] {
      HistoryCounts(cs, cs', f, s, h[..|h| - 1], credits);
      LoginEffect(cs, cs', f, s, AfterLogins(cs', f, s, h[..|h| - 1], credits), h[|h| - 1], credits);
    }
  }

  /** Some failed login of the history has a streak at or past the wipe threshold. */
  predicate ReachesLimit(cs: seq<Control>, f: nat, s: nat, h: seq<Login>, credits: bool) {
    && h != []
    && (|| (Fails(cs, f, h[|h| - 1], credits) && Streak(cs, f, s, h, credits) >= WIPE_AT)
        || ReachesLimit(cs, f, s, h[..|h| - 1], credits))
  }

  lemma {:induction false} TriggersSplit(cs: seq<Control>, f: nat, s: nat, h: seq<Login>, credits: bool)
    ensures Triggers(cs, f, s, h, credits) >= Duresses(h)
    ensures Triggers(cs, f, s, h, credits) == Duresses(h) <==> !ReachesLimit(cs, f, s, h, credits)
    decreases |h|
  {
    if h != [] { TriggersSplit(cs, f, s, h[..|h| - 1], credits); }
  }

  /** The promise of the counter, and when it is kept: the count is that of the failed logins since the last that passed if and
      only if authsucc does not come before authfail or at most one login has failed; the eraser is launched at the
      threshold if and only if authsucc does not come before authfail or no failed login reaches it. */
  lemma HistoryIff(cs: seq<Control>, cs': seq<Control>, f: nat, s: nat, h: seq<Login>, credits: bool)
    requires ArmedStack(cs, cs', f, s) && AllKeep(cs, f, s, h, credits)
    ensures var e := AfterLogins(cs', f, s, h, credits);
            && (CountOf(e.attempts) == AtMostU32(Streak(cs, f, s, h, credits)) <==>
                  f <= s || Streak(cs, f, s, h, credits) <= 1)
            && (e.launched == Triggers(cs, f, s, h, credits) <==> f <= s || !ReachesLimit(cs, f, s, h, credits))
  {
    HistoryCounts(cs, cs', f, s, h, credits);
    TriggersSplit(cs, f, s, h, credits);
  }

  /** Such a login executes both the module's authfail and its authsucc if and only if it fails and stock authsucc comes before
      authfail. */
  lemma BothIff(cs: seq<Control>, cs': seq<Control>, f: nat, s: nat, login: Login, credits: bool)
    requires ArmedStack(cs, cs', f, s) && Keeps(cs, f, s, login, credits)
    ensures var t := Run(cs', ArmedResults(login, f, s), 0, FRESH, credits).trace;
            FailPos(f, s) in t && SuccPos(f, s) in t <==> s < f && Fails(cs, f, login, credits)
  {
    if login.duress {
      DuressDies(cs', ArmedResults(login, f, s), credits);
    } else {
      ArmedTrace(cs, cs', f, s, login, credits);
      var t := Run(cs', ArmedResults(login, f, s), 0, FRESH, credits).trace;
      assert t == [0] + t[1..];
    }
  }
}
