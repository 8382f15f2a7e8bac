/** ds-unlock itself: one boot after another. With `faults` any effect may fail or be cut, the test for the pending journal
    may fail and so say no, and cryptsetup may fail on a right code. */
module UnlockActor {
  import opened Text
  import opened AttemptPolicy
  import opened Journaling
  import opened Erasing
  import opened Sequences
  import opened EraseActor
  import opened Faulting
  import opened HeaderScan
  import opened Unlocking
  import Runs
  import Verifier

  datatype Fault = IoError | EraserFailed | ChecksFailed(why: StartError)

  datatype Exit = Unlocked(slot: nat) | Wiped | Errored(fault: Fault) | TooMany | CutOff

  /** The kernel command line and the surroundings of a boot. */
  datatype Setting = Setting(env: Env, kdf: Verifier.Kdf, device: string, esp: string, mapName: string)

  function Ended(e: Effect): Exit
    requires !e.Done?
  {
    if e.Cut? then CutOff else Errored(IoError)
  }

  /** A boot that no fault disturbs ends as the codes typed demand; a trigger that is admitted is carried out. */
  predicate Answers(x: Exit, prompts: nat, r: Reaction, slots: map<nat, Secret>, typed: nat -> string, canWipe: bool) {
    match r
    case Opens(p) => x.Unlocked? && prompts == p && p > 0 && x.slot in Matching(slots, typed(p - 1))
    case Triggers(p) => !x.Unlocked? && prompts == p && (canWipe ==> x == Wiped)
    case RunsOut => false
  }

  /** How the session goes on from every prompt and count. */
  type Plan = (nat, nat) -> Reaction

  ghost predicate IsPlan(plan: Plan, st: Start, kdf: Verifier.Kdf, slots: map<nat, Secret>, typed: nat -> string) {
    forall i: nat, c: nat {:trigger Session(st, kdf, slots, typed, i, c)} :: plan(i, c) == Session(st, kdf, slots, typed, i, c)
  }

  ghost function SessionPlan(st: Start, kdf: Verifier.Kdf, slots: map<nat, Secret>, typed: nat -> string): (plan: Plan)
    ensures IsPlan(plan, st, kdf, slots, typed)
  {
    (i: nat, c: nat) => Session(st, kdf, slots, typed, i, c)
  }

  type Admission = Result<Journal, FireError>

  /** What the trigger of this boot is told by the checks of `--fire`. */
  function Trigger(setting: Setting, st: Start): Admission {
    Admit(setting.env, WipeArgs(setting.device, setting.esp, setting.mapName, st.daily, st.recovery), false)
  }

  ghost predicate IsTrigger(w: Admission, setting: Setting, st: Start) {
    forall args: FireArgs {:trigger Admit(setting.env, args, false)} ::
      args == WipeArgs(setting.device, setting.esp, setting.mapName, st.daily, st.recovery) ==> Admit(setting.env, args, false) == w
  }

  /** A trigger now would be admitted, the scan fits its budget, and the recovery slot is active. */
  ghost predicate WipePossible(w: Admission, at: Locator, d: Disk, st: Start) {
    && d.journal.None? && w.Ok?
    && TotalWeight(d.tree, Roots(at, w.value)) <= MAX_SCAN_ENTRIES
    && st.recovery in d.slots
  }

  /** Triggers of this machine are admitted, the scan fits its budget, the recovery slot is active, and a pending journal, if
      there is one, was written by such a trigger. */
  ghost predicate ReadyAt(w: Admission, at: Locator, d: Disk, st: Start) {
    && w.Ok? && st.recovery in d.slots
    && TotalWeight(d.tree, Roots(at, w.value)) <= MAX_SCAN_ENTRIES
    && (d.journal.Some? ==> SameJob(w.value, d.journal.value))
  }

  class Boots {
    const m: Machine
    const baked: Files
    const setting: Setting
    ghost const a: Armed
    /** What `--fire` says of a trigger before boot. */
    ghost const wipe: Admission
    var files: Files
    ghost var count: nat
    ghost var stage: Stage
    ghost var wrong: nat
    ghost var lost: nat
    ghost var run: seq<Sys>

    ghost function Now(): Sys
      reads this, m
    {
      Sys(m.Now(), files, count, stage, wrong, lost)
    }

    /** A wipe was completed. */
    ghost predicate DailyGone()
      reads m
    {
      m.journal.None? && a.start.daily !in m.slots
    }

    /** The pre-boot resume does not accept this journal, stored in so many bytes. */
    ghost predicate ResumeRefused(j: Journal, bytes: nat) {
      var expected := WipeExpectation(setting.device, setting.mapName, a.start.daily, a.start.recovery);
      ResumeChecks(setting.env, setting.esp, JOURNAL_NAME, j, bytes, expected).Err?
    }

    ghost predicate CanWipe()
      reads m
    {
      WipePossible(wipe, m.at, m.Now(), a.start)
    }

    /** A trigger would be admitted and carried out now, or the journal of one is pending. */
    ghost predicate Ready()
      reads m
    {
      ReadyAt(wipe, m.at, m.Now(), a.start)
    }

    /** A pending journal that is accepted, whose scan, if it is still to come, fits its budget, and whose recovery slot
        is active. */
    ghost predicate CanResume(bytes: nat)
      reads m
    {
      && m.journal.Some? && !ResumeRefused(m.journal.value, bytes) && a.start.recovery in m.slots
      && (m.journal.value.phase == Prepared ==> TotalWeight(m.tree, Roots(m.at, m.journal.value)) <= MAX_SCAN_ENTRIES)
    }

    /** The start-up checks of this machine fail, or deliver the armed values. */
    ghost predicate Checked() {
      CheckStart(a.files, a.baked).Err? || CheckStart(a.files, a.baked) == Ok(a.start)
    }

    /** What does not change from boot to boot. */
    ghost predicate Fixed() {
      && m.at == a.at && m.job == TheJob(a) && a.baked == baked
      && a.start.daily <= 31 && a.start.recovery <= 31 && IsTrigger(wipe, setting, a.start)
    }

    ghost predicate Recorded()
      reads this
    {
      run != [] && SysRun(a, run) && Good(a, run[|run| - 1])
    }

    /** The recorded boots are a run of the machine relation and end in the present state. */
    ghost predicate Valid()
      reads this, m
    {
      m.Valid() && Fixed() && Recorded() && run[|run| - 1] == Now()
    }

    constructor (m: Machine, baked: Files, setting: Setting, files: Files, n: nat, ghost start: Start)
      requires m.Valid() && m.journal.None? && m.job == KillJob(start.daily, start.recovery)
      requires CheckStart(files, baked).Err? || CheckStart(files, baked) == Ok(start)
      requires Validates(start.policy) && start.daily <= 31 && start.recovery <= 31
      requires files == WithCount(files, n) && n < U32
      ensures Checked() && Valid() && stage == Off && this.m == m && this.files == files && a == Armed(m.at, files, start, baked)
      ensures count == n && run == [Now()] && this.setting == setting && wipe == Trigger(setting, start)
    {
      this.m, this.baked, this.setting, this.files := m, baked, setting, files;
      this.a := Armed(m.at, files, start, baked);
      this.wipe := Trigger(setting, start);
      this.count, this.stage, this.wrong, this.lost := n, Off, 0, 0;
      this.run := [Sys(m.Now(), files, n, Off, 0, 0)];
    }

    ghost method Note()
      requires m.Valid() && Fixed() && Recorded() && SysStep(a, run[|run| - 1], Now())
      modifies this`run
      ensures Valid() && run == old(run) + [Now()]
    {
      StepGood(a, run[|run| - 1], Now());
      Runs.Extend(Next(a), run, Now());
      run := run + [Now()];
    }

    /** The durable states ds-erase went through become states of the machine. */
    ghost method NoteTxns(before: seq<Disk>)
      requires m.Valid() && Fixed() && Recorded()
      requires before != [] && before <= m.trail && stage == Off
      requires run[|run| - 1] == Sys(before[|before| - 1], files, count, Off, wrong, lost)
      modifies this`run
      ensures Valid() && old(run) <= run
    {
      var k := |before|;
      while k < |m.trail|
        invariant |before| <= k <= |m.trail|
        invariant old(run) <= run && Recorded()
        invariant run[|run| - 1] == Sys(m.trail[k - 1], files, count, Off, wrong, lost)
      {
        HistoryStep(m.at, m.job, m.trail, k);
        ghost var sofar := run;
        NoteTxn(m.trail[k]);
        PrefixesChain(old(run), sofar, run);
        k := k + 1;
      }
    }

    ghost method NoteTxn(d: Disk)
      requires Fixed() && Recorded() && run[|run| - 1].stage == Off
      requires Step(a.at, run[|run| - 1].disk, d) && DoesJob(d, TheJob(a))
      modifies this`run
      ensures Recorded() && old(run) <= run && run[|run| - 1] == old(run[|run| - 1]).(disk := d)
    {
      TxnExtends(a, run, d);
      run := run + [run[|run| - 1].(disk := d)];
    }

    /** The boot ends at the prompt or with the device open. */
    ghost method LeavePrompt()
      requires Valid() && (stage == Prompting || stage.Opened?)
      modifies this`stage, this`run
      ensures Valid() && stage == Off && old(run) <= run
    {
      stage := Off;
      Note();
    }

    /** `read_count` */
    method ReadCounter() returns (n: nat)
      requires Valid()
      ensures n == count
    {
      CountAfter(a.files, count);
      n := Count(files).value;
    }

    /** `bump_count` after a wrong guess. */
    method BumpCount(faults: bool) returns (e: Effect, n: nat)
      requires Valid() && stage == Guessed
      modifies this`files, this`count, this`stage, this`lost, this`run
      ensures Valid() && old(run) <= run
      ensures e.Done? ==>
                && n == old(count) + 1 && count == n && lost == old(lost)
                && stage == if n >= a.start.policy.wipeAt then Off else Prompting
      ensures !e.Done? ==> faults && stage == Off && lost == old(lost) + 1 && count <= old(count) + 1
    {
      n := ReadCounter();
      n := SaturatingInc(n);
      var renamed: bool := *;
      e := Command(faults);
      if e.Done? {
        files, count := WithCount(files, n), n;
        stage := if n >= a.start.policy.wipeAt then Off else Prompting;
      } else {
        if renamed { files, count := WithCount(files, n), n; }
        stage, lost := Off, lost + 1;
        assert LoseGuess(old(Now()), Now());
      }
      assert e.Done? ==> Bump(a, old(Now()), Now());
      Note();
    }

    /** `reset_count` after the device opened. */
    method ResetCounter(faults: bool) returns (e: Effect)
      requires Valid() && stage.Opened?
      modifies this`files, this`count, this`stage, this`wrong, this`lost, this`run
      ensures Valid() && stage == Off && old(run) <= run
      ensures e.Done? ==> count == 0 && wrong == 0
      ensures !e.Done? ==> faults && count <= old(count)
    {
      var renamed: bool := *;
      e := Command(faults);
      if e.Done? || renamed {
        files, count := WithCount(files, 0), 0;
        wrong, lost := 0, 0;
      }
      stage := Off;
      assert ResetCount(old(Now()), Now()) || Leave(old(Now()), Now());
      Note();
    }

    /** The eraser, fired with arguments whose job is the recorded one; its durable states become states of the machine. */
    method FireEraser(env: Env, args: FireArgs, faults: bool) returns (r: FireResult, seen: bool)
      requires Valid() && stage == Off
      requires Admit(env, args, false).Ok? ==> JobOf(Admit(env, args, false).value) == TheJob(a)
      modifies this`run, m
      ensures Valid() && old(run) <= run
      ensures (seen ==> old(m.journal).Some?) && (!faults ==> seen == old(m.journal).Some?)
      ensures r.Rejected? <==> Admit(env, args, seen).Err?
      ensures r.Rejected? ==> m.Now() == old(m.Now())
      ensures r.Fired? && r.effect.Done? ==> DailyGone()
      ensures r.Fired? && m.journal.Some? ==> SameJob(Admit(env, args, seen).value, m.journal.value) || m.journal == old(m.journal)
      ensures !faults && r.Fired? && !r.effect.Done? ==>
                var j := Admit(env, args, seen).value;
                TotalWeight(old(m.tree), Roots(m.at, j)) > MAX_SCAN_ENTRIES || j.recovery.value !in old(m.slots)
      ensures r.Fired? ==>
                var j := Admit(env, args, seen).value;
                && TotalWeight(m.tree, Roots(m.at, j)) <= TotalWeight(old(m.tree), Roots(m.at, j))
                && (m.slots == old(m.slots) || m.slots == old(m.slots) - {a.start.daily})
    {
      ghost var before, d := m.trail, m.Now();
      ghost var left;
      r, seen, left := m.Fire(env, args, false, faults);
      if r.Fired? { FireEnds(m.at, d, Admit(env, args, seen).value, left, a.start.daily, a.start.recovery); }
      NoteTxns(before);
    }

    /** `do_wipe` */
    method DoWipe(daily: nat, recovery: nat, faults: bool) returns (x: Exit)
      requires Valid() && daily == a.start.daily && recovery == a.start.recovery && stage == Off
      modifies this`run, m
      ensures Valid() && old(run) <= run && x != TooMany && !x.Unlocked?
      ensures x == Wiped ==> DailyGone()
      ensures !faults && old(CanWipe()) ==> x == Wiped
      ensures x == Errored(IoError) ==> faults
      ensures old(Ready()) ==> Ready()
    {
      var args := WipeArgs(setting.device, setting.esp, setting.mapName, daily, recovery);
      WipeJob(setting.env, setting.device, setting.esp, setting.mapName, daily, recovery);
      var fired, _ := FireEraser(setting.env, args, faults);
      if fired.Rejected? { return Errored(EraserFailed); }
      return if fired.effect.Done? then Wiped else if fired.effect.Cut? then CutOff else Errored(EraserFailed);
    }

    /** The fire of pam_ds, without flags, on the running system: the recorded slots are the job. A pending journal it does
        not see it overwrites. */
    method FireFromLogin(os: Env, faults: bool) returns (r: FireResult, seen: bool)
      requires Valid() && stage == Off
      requires RecordedSlot(os.dailySlot) == Some(a.start.daily) && RecordedSlot(os.recoverySlot) == Some(a.start.recovery)
      modifies this`run, m
      ensures Valid() && old(run) <= run
      ensures (seen ==> old(m.journal).Some?) && (!faults ==> seen == old(m.journal).Some?)
      ensures r.Rejected? <==> Admit(os, ModuleArgs(), seen).Err?
      ensures r.Fired? && r.effect.Done? ==> DailyGone()
      ensures r.Fired? && m.journal.Some? ==> m.journal.value.mapName.None? || m.journal == old(m.journal)
      ensures r.Rejected? ==> m.Now() == old(m.Now())
    {
      ModuleJob(os, a.start.daily, a.start.recovery);
      r, seen := FireEraser(os, ModuleArgs(), faults);
    }

    /** `resume_wipe`; `bytes` is the size of the journal file. */
    method ResumeWipe(bytes: nat, daily: nat, recovery: nat, faults: bool) returns (x: Exit)
      requires Valid() && daily == a.start.daily && recovery == a.start.recovery && stage == Off && m.journal.Some?
      modifies this`run, m
      ensures Valid() && old(run) <= run && x != TooMany && !x.Unlocked?
      ensures x == Wiped ==> DailyGone()
      ensures x == Errored(IoError) ==> faults
      ensures ResumeRefused(old(m.journal).value, bytes) ==>
                m.Now() == old(m.Now()) && run == old(run) && x == Errored(EraserFailed)
      ensures !faults && old(CanResume(bytes)) ==> x == Wiped
      ensures x == Wiped ==> old(a.start.recovery in m.slots)
      ensures old(Ready()) ==> Ready()
    {
      ghost var before := m.trail;
      var expected := WipeExpectation(setting.device, setting.mapName, daily, recovery);
      var r, _ := m.Resume(setting.env, setting.esp, JOURNAL_NAME, bytes, expected, false, faults);
      if r.Refused? { return Errored(EraserFailed); }
      NoteTxns(before);
      return if r.outcome.Done? then Wiped else if r.outcome.Cut? then CutOff else Errored(EraserFailed);
    }

    /** One turn of the prompt loop. `None` asks for another prompt. */
    method Turn(start: Start, secret: string, faults: bool) returns (done: Option<Exit>)
      requires Valid() && stage == Prompting && start == a.start
      modifies this`files, this`count, this`stage, this`wrong, this`lost, this`run, m
      ensures Valid() && old(run) <= run
      ensures done.None? ==> stage == Prompting && count == old(count) + 1 < start.policy.wipeAt
      ensures done.Some? ==> stage == Off && done.value != TooMany && (done.value == Wiped ==> DailyGone())
      ensures done.Some? && done.value == Errored(IoError) ==> faults
      ensures done.Some? && done.value.Unlocked? ==>
                && done.value.slot in Matching(old(m.slots), secret) && count == 0
                && !Verifier.Verifies(setting.kdf, start.verifier, secret)
      ensures done.None? ==> m.Now() == old(m.Now()) && !Verifier.Verifies(setting.kdf, start.verifier, secret)
      ensures count <= old(count) + 1
      ensures done.None? && !faults ==> Wrong(start, setting.kdf, m.slots, secret)
      ensures !faults ==>
                if Verifier.Verifies(setting.kdf, start.verifier, secret) then
                  done.Some? && !done.value.Unlocked? && (old(CanWipe()) ==> done.value == Wiped)
                else if Matching(old(m.slots), secret) != {} then
                  done.Some? && done.value.Unlocked?
                else if old(count) + 1 >= start.policy.wipeAt then
                  done.Some? && !done.value.Unlocked? && (old(CanWipe()) ==> done.value == Wiped)
                else done.None?
      ensures old(Ready()) ==> Ready()
    {
      var asked := Command(faults);
      if !asked.Done? {
        LeavePrompt();
        return Some(Ended(asked));
      }
      if Verifier.Verifies(setting.kdf, start.verifier, secret) {
        LeavePrompt();
        var x := DoWipe(start.daily, start.recovery, faults);
        return Some(x);
      }
      var tried := Command(faults);
      if !tried.Done? {
        LeavePrompt();
        return Some(Ended(tried));
      }
      var slot := LuksOpen(secret, faults);
      if slot.Some? {
        var x := OpenDevice(slot.value, faults);
        return Some(x);
      }
      done := CountWrong(start, faults);
    }

    /** `luks_open`: whatever the reason, when cryptsetup ends with an error the code counts as wrong. */
    method LuksOpen(secret: string, faults: bool) returns (slot: Option<nat>)
      ensures slot.Some? ==> slot.value in Matching(m.slots, secret)
      ensures slot.None? ==> faults || Matching(m.slots, secret) == {}
    {
      var matching, refused: bool := Matching(m.slots, secret), *;
      if matching == {} || (faults && refused) { return None; }
      var k :| k in matching;
      return Some(k);
    }

    /** The secret opened a slot. */
    method OpenDevice(slot: nat, faults: bool) returns (x: Exit)
      requires Valid() && stage == Prompting && slot in m.slots
      modifies this`files, this`count, this`stage, this`wrong, this`lost, this`run
      ensures Valid() && stage == Off && old(run) <= run
      ensures (x.Unlocked? ==> x.slot == slot && count == 0) && count <= old(count)
      ensures x != TooMany && x != Wiped && (x == Errored(IoError) ==> faults) && (!faults ==> x.Unlocked?)
    {
      stage := Opened(slot);
      assert Open(old(Now()), Now());
      Note();
      ghost var sofar := run;
      var cleared := ResetCounter(faults);
      PrefixesChain(old(run), sofar, run);
      return if cleared.Done? then Unlocked(slot) else Ended(cleared);
    }

    /** The secret was wrong: count it, and trigger at the threshold. */
    method CountWrong(start: Start, faults: bool) returns (done: Option<Exit>)
      requires Valid() && stage == Prompting && start == a.start
      modifies this`files, this`count, this`stage, this`wrong, this`lost, this`run, m
      ensures Valid() && old(run) <= run
      ensures done.None? ==> stage == Prompting && count == old(count) + 1 < start.policy.wipeAt && m.Now() == old(m.Now())
      ensures done.Some? ==> stage == Off && done.value != TooMany && !done.value.Unlocked?
      ensures count <= old(count) + 1
      ensures !faults ==> (done.Some? <==> old(count) + 1 >= start.policy.wipeAt)
      ensures !faults && done.Some? && old(CanWipe()) ==> done.value == Wiped
      ensures done.Some? && done.value == Wiped ==> DailyGone()
      ensures done.Some? && done.value == Errored(IoError) ==> faults
      ensures old(Ready()) ==> Ready()
    {
      stage, wrong := Guessed, wrong + 1;
      assert WrongGuess(old(Now()), Now());
      Note();
      ghost var t1 := run;
      var counted, n := BumpCount(faults);
      ghost var t2 := run;
      PrefixesChain(old(run), t1, t2);
      if !counted.Done? { return Some(Ended(counted)); }
      if n < start.policy.wipeAt { return None; }
      var x := DoWipe(start.daily, start.recovery, faults);
      PrefixesChain(old(run), t2, run);
      return Some(x);
    }

    /** The boot before prompt `i` of a session that ends as `goal`, or at its end with `done`; it began with a count of `c0`. */
    ghost predicate Course(done: Option<Exit>, i: nat, start: Start, typed: nat -> string, plan: Plan, goal: Reaction, d: Disk,
                           c0: nat, canWipe: bool, faults: bool)
      reads this, m
    {
      count <= c0 + i &&
      match done
      case None =>
        && stage == Prompting && d == m.Now() && i <= count && i < start.policy.maxPrompts
        && (!faults ==> goal == plan(i, count))
      case Some(x) =>
        && stage == Off && x != TooMany && i <= start.policy.maxPrompts && (x == Wiped ==> DailyGone())
        && (x == Errored(IoError) ==> faults)
        && (!faults ==> Answers(x, i, goal, d.slots, typed, canWipe))
    }

    /** One turn, as a step of the session. */
    method Round(start: Start, typed: nat -> string, i: nat, ghost plan: Plan, ghost goal: Reaction, ghost d: Disk,
                 ghost c0: nat, ghost canWipe: bool, ghost past: seq<Sys>, faults: bool)
      returns (done: Option<Exit>)
      requires Valid() && start == a.start && Validates(start.policy) && past <= run
      requires IsPlan(plan, start, setting.kdf, d.slots, typed) && (canWipe ==> WipePossible(wipe, m.at, d, start))
      requires Course(None, i, start, typed, plan, goal, d, c0, canWipe, faults)
      modifies this`files, this`count, this`stage, this`wrong, this`lost, this`run, m
      ensures Valid() && past <= run && Course(done, i + 1, start, typed, plan, goal, d, c0, canWipe, faults)
      ensures old(Ready()) ==> Ready()
    {
      ghost var here := Session(start, setting.kdf, d.slots, typed, i, count);
      done := Turn(start, typed(i), faults);
      PrefixesChain(past, old(run), run);
      ghost var next := Session(start, setting.kdf, d.slots, typed, i + 1, count);
    }

    /** The prompt loop of `run`. */
    method Prompts(start: Start, typed: nat -> string, ghost plan: Plan, ghost goal: Reaction, ghost d: Disk, ghost c0: nat,
                   ghost canWipe: bool, faults: bool)
      returns (x: Exit, prompts: nat)
      requires Valid() && start == a.start && Validates(start.policy)
      requires IsPlan(plan, start, setting.kdf, d.slots, typed) && (canWipe ==> WipePossible(wipe, m.at, d, start))
      requires Course(None, 0, start, typed, plan, goal, d, c0, canWipe, faults)
      modifies this`files, this`count, this`stage, this`wrong, this`lost, this`run, m
      ensures Valid() && old(run) <= run && Course(Some(x), prompts, start, typed, plan, goal, d, c0, canWipe, faults)
      ensures old(Ready()) ==> Ready()
    {
      prompts := 0;
      var done := None;
      while prompts < start.policy.maxPrompts && done.None?
        invariant Valid() && old(run) <= run && Course(done, prompts, start, typed, plan, goal, d, c0, canWipe, faults)
        invariant old(Ready()) ==> Ready()
      {
        done := Round(start, typed, prompts, plan, goal, d, c0, canWipe, old(run), faults);
        prompts := prompts + 1;
      }
      // a validated policy triggers no later than at the last prompt, so the error behind the loop is never met
      return done.value, prompts;
    }

    /** `run`: one boot of the machine. `overlooked`: the test for the pending journal failed. */
    method Boot(bytes: nat, typed: nat -> string, faults: bool) returns (x: Exit, prompts: nat, overlooked: bool)
      requires Valid() && stage == Off && Checked()
      modifies this`files, this`count, this`stage, this`wrong, this`lost, this`run, m
      ensures Valid() && stage == Off && old(run) <= run
      ensures CheckStart(old(files), baked).Err? ==> Unmoved() && prompts == 0 && x.Errored? && !overlooked
      ensures CheckStart(old(files), baked).Ok? ==> Booted(x, prompts, overlooked, bytes, typed, faults)
      ensures old(Ready()) ==> Ready()
    {
      prompts, overlooked := 0, false;
      CheckStartSame(a.files, files, baked);
      var checks := CheckStart(files, baked);
      if checks.Err? { return Errored(ChecksFailed(checks.error)), 0, false; }
      x, prompts, overlooked := BootChecked(checks.value, bytes, typed, faults);
    }

    /** What a boot whose start-up checks pass comes to. */
    twostate predicate Booted(x: Exit, prompts: nat, overlooked: bool, bytes: nat, typed: nat -> string, faults: bool)
      reads this, m
    {
      && (overlooked ==> faults && old(m.journal).Some?)
      && x != TooMany && prompts <= a.start.policy.maxPrompts && (x == Wiped ==> DailyGone())
      && (x == Errored(IoError) ==> faults) && count <= old(count) + prompts
      && ((old(m.journal).Some? && !overlooked) || old(count) >= a.start.policy.wipeAt ==> prompts == 0 && !x.Unlocked?)
      && (old(m.journal).Some? && !overlooked && ResumeRefused(old(m.journal).value, bytes) ==>
            Unmoved() && (x.Errored? || x == CutOff))
      && (!faults && old(CanResume(bytes)) ==> x == Wiped)
      && (!faults && old(m.journal).None? && old(count) >= a.start.policy.wipeAt && old(CanWipe()) ==> x == Wiped)
      && (!faults && old(m.journal).None? && old(count) < a.start.policy.wipeAt ==>
            Answers(x, prompts, Session(a.start, setting.kdf, old(m.slots), typed, 0, old(count)),
                    old(m.slots), typed, old(CanWipe())))
    }

    /** `run`, behind its checks. */
    method BootChecked(start: Start, bytes: nat, typed: nat -> string, faults: bool)
      returns (x: Exit, prompts: nat, overlooked: bool)
      requires Valid() && stage == Off && start == a.start && Validates(start.policy)
      modifies this`files, this`count, this`stage, this`wrong, this`lost, this`run, m
      ensures Valid() && stage == Off && old(run) <= run
      ensures overlooked ==> faults && old(m.journal).Some?
      ensures x != TooMany && prompts <= a.start.policy.maxPrompts && (x == Wiped ==> DailyGone())
      ensures count <= old(count) + prompts && (x == Errored(IoError) ==> faults)
      ensures (old(m.journal).Some? && !overlooked) || old(count) >= a.start.policy.wipeAt ==> prompts == 0 && !x.Unlocked?
      ensures old(m.journal).Some? && !overlooked && ResumeRefused(old(m.journal).value, bytes) ==>
                Unmoved() && (x.Errored? || x == CutOff)
      ensures !faults && old(CanResume(bytes)) ==> x == Wiped
      ensures !faults && old(m.journal).None? && old(count) >= a.start.policy.wipeAt && old(CanWipe()) ==> x == Wiped
      ensures !faults && old(m.journal).None? && old(count) < a.start.policy.wipeAt ==>
                Answers(x, prompts, Session(a.start, setting.kdf, old(m.slots), typed, 0, old(count)),
                        old(m.slots), typed, old(CanWipe()))
      ensures old(Ready()) ==> Ready()
    {
      prompts, overlooked := 0, false;
      var read := Command(faults);
      if !read.Done? { return Ended(read), 0, false; }
      var seen := m.JournalExists(faults);
      if seen {
        x := ResumeWipe(bytes, start.daily, start.recovery, faults);
        return x, 0, false;
      }
      overlooked := m.journal.Some?;
      var counter := Command(faults);
      if !counter.Done? { return Ended(counter), 0, overlooked; }
      var n := ReadCounter();
      if n >= start.policy.wipeAt {
        x := DoWipe(start.daily, start.recovery, faults);
        return x, 0, overlooked;
      }
      x, prompts := Ask(start, typed, faults);
    }

    /** Neither the disk nor the counter has changed, and the machine went through no state. */
    twostate predicate Unmoved()
      reads this, m
    {
      m.Now() == old(m.Now()) && files == old(files) && count == old(count) && run == old(run)
    }

    /** Boots of a machine whose pending journal names no mapping, such as every one pam_ds starts: however often it
        boots, until a boot overlooks the journal it never comes to a prompt, and disk, slots, and counter stay as
        they are. Without faults none does. */
    method StuckBoots(boots: nat, faults: bool) returns (prompts: nat, overlooked: bool)
      requires Valid() && stage == Off && Checked()
      requires m.journal.Some? && m.journal.value.mapName.None?
      modifies this`files, this`count, this`stage, this`wrong, this`lost, this`run, m
      ensures Valid() && stage == Off && (overlooked ==> faults)
      ensures !overlooked ==> Unmoved() && prompts == 0
    {
      prompts, overlooked := 0, false;
      var i := 0;
      while i < boots && !overlooked
        invariant Valid() && stage == Off && (overlooked ==> faults)
        invariant !overlooked ==> Unmoved() && prompts == 0
      {
        var bytes: nat := *;
        var typed: nat -> string := *;
        var x, p, o := Boot(bytes, typed, faults);
        prompts, overlooked, i := prompts + p, o, i + 1;
      }
    }

    /** With the journal of a trigger of its own pending, a boot that no fault disturbs completes the wipe, whatever is typed. */
    method ResumingBoot(bytes: nat, typed: nat -> string) returns (x: Exit)
      requires Valid() && stage == Off && Checked() && CheckStart(a.files, baked).Ok?
      requires Ready() && m.journal.Some? && TextField(setting.esp) && bytes <= MAX_JOURNAL_BYTES
      modifies this`files, this`count, this`stage, this`wrong, this`lost, this`run, m
      ensures Valid() && Ready() && old(run) <= run && x == Wiped && DailyGone()
    {
      CheckStartSame(a.files, files, baked);
      CanResumeNow(bytes);
      var prompts, overlooked;
      x, prompts, overlooked := Boot(bytes, typed, false);
    }

    lemma CanResumeNow(bytes: nat)
      requires Fixed() && Ready() && m.journal.Some? && TextField(setting.esp) && bytes <= MAX_JOURNAL_BYTES
      ensures CanResume(bytes)
    {
      assert Trigger(setting, a.start) == wipe;
      ReadyResumes(setting, m.at, m.Now(), a.start, bytes);
    }

    /** A boot stopped anywhere, by a failing step or a power cut, that leaves a journal, and an undisturbed boot after it: the
        second one completes the wipe. */
    method CutThenBooted(bytes: nat, first: nat -> string, second: nat -> string) returns (pending: bool, x: Exit)
      requires Valid() && stage == Off && Checked() && CheckStart(a.files, baked).Ok?
      requires Ready() && TextField(setting.esp) && bytes <= MAX_JOURNAL_BYTES
      modifies this`files, this`count, this`stage, this`wrong, this`lost, this`run, m
      ensures Valid() && Ready() && old(run) <= run
      ensures if pending then x == Wiped && DailyGone() else m.journal.None?
    {
      var prompts, overlooked;
      x, prompts, overlooked := Boot(bytes, first, true);
      pending := m.journal.Some?;
      if pending {
        ghost var sofar := run;
        x := ResumingBoot(bytes, second);
        PrefixesChain(old(run), sofar, run);
      }
    }

    /** The first prompt and the loop. */
    method Ask(start: Start, typed: nat -> string, faults: bool) returns (x: Exit, prompts: nat)
      requires Valid() && stage == Off && start == a.start && Validates(start.policy) && count < start.policy.wipeAt
      modifies this`files, this`count, this`stage, this`wrong, this`lost, this`run, m
      ensures Valid() && stage == Off && old(run) <= run
      ensures x != TooMany && prompts <= start.policy.maxPrompts && (x == Wiped ==> DailyGone())
      ensures count <= old(count) + prompts && (x == Errored(IoError) ==> faults)
      ensures !faults ==> Answers(x, prompts, Session(start, setting.kdf, old(m.slots), typed, 0, old(count)),
                                  old(m.slots), typed, old(CanWipe()))
      ensures old(Ready()) ==> Ready()
    {
      stage := Prompting;
      Note();
      ghost var sofar := run;
      ghost var plan, canWipe := SessionPlan(start, setting.kdf, m.slots, typed), CanWipe();
      x, prompts := Prompts(start, typed, plan, plan(0, count), m.Now(), count, canWipe, faults);
      PrefixesChain(old(run), sofar, run);
    }

  }

  /** The journal of a machine's own trigger is accepted by its boots. */
  lemma ReadyResumes(setting: Setting, at: Locator, d: Disk, st: Start, bytes: nat)
    requires ReadyAt(Trigger(setting, st), at, d, st) && d.journal.Some? && st.daily <= 31 && st.recovery <= 31
    requires TextField(setting.esp) && bytes <= MAX_JOURNAL_BYTES
    ensures var expected := WipeExpectation(setting.device, setting.mapName, st.daily, st.recovery);
            ResumeChecks(setting.env, setting.esp, JOURNAL_NAME, d.journal.value, bytes, expected).Ok?
    ensures TotalWeight(d.tree, Roots(at, d.journal.value)) <= MAX_SCAN_ENTRIES
  {
    var j := Trigger(setting, st).value;
    WipeResumesIff(setting.env, setting.device, setting.esp, setting.mapName, st.daily, st.recovery, j, d.journal.value, bytes);
    assert Roots(at, j) == Roots(at, d.journal.value);
  }

  /** With the default directory and mapping, a disk whose state directory holds no more entries than a scan may visit. */
  lemma PreBootReady(setting: Setting, at: Locator, d: Disk, st: Start)
    requires setting.env == PreBoot() && setting.device == DISK && setting.esp == BOOT_DIR && setting.mapName == ROOT_NAME
    requires st.daily <= 31 && st.recovery <= 31 && st.daily != st.recovery && st.recovery in d.slots && d.journal.None?
    requires Weight(d.tree, at(setting.esp)) <= 10000
    ensures ReadyAt(Trigger(setting, st), at, d, st) && WipePossible(Trigger(setting, st), at, d, st) && TextField(setting.esp)
  {
    PreBootAdmits(setting.env, setting.device, setting.esp, setting.mapName, st.daily, st.recovery);
    BootDirText(setting.esp);
    RootAlone(at, d.tree, setting.esp, Journal(1, Prepared, setting.device, KillSlot, Some(st.daily), Some(st.recovery),
                                               Some(setting.mapName), [setting.esp]));
  }

  lemma RootAlone(at: Locator, t: Tree, esp: string, j: Journal)
    requires j.scan == [esp]
    ensures TotalWeight(t, Roots(at, j)) == Weight(t, at(esp))
  {
    assert Roots(at, j) == [] + [at(esp)];
    WeightAppend(t, [], at(esp));
  }

  lemma HistoryStep(at: Locator, job: Job, trail: seq<Disk>, k: nat)
    requires History(at, job, trail) && 0 < k < |trail|
    ensures Step(at, trail[k - 1], trail[k]) && DoesJob(trail[k], job)
  {
    HistoryIsRun(at, job, trail);
    RunStep(at, trail, k - 1);
  }

  lemma ModuleJob(os: Env, d: nat, r: nat)
    requires RecordedSlot(os.dailySlot) == Some(d) && RecordedSlot(os.recoverySlot) == Some(r) && d <= 31 && r <= 31
    ensures var admitted := Admit(os, ModuleArgs(), false);
            admitted.Ok? ==> JobOf(admitted.value) == KillJob(d, r) && admitted.value.mapName.None?
  {
    DefaultPlace();
    FlaglessFire(os, ModuleArgs(), d, r);
  }

  lemma FireEnds(at: Locator, d: Disk, j: Journal, left: set<Path>, daily: nat, recovery: nat)
    requires JobOf(j) == KillJob(daily, recovery)
    ensures var e := Final(at, d.(journal := Some(j)), left); e.journal.None? && daily !in e.slots
  {
  }

  lemma WipeJob(env: Env, device: string, esp: string, map_: string, slot: nat, recovery: nat)
    requires slot <= 31 && recovery <= 31
    ensures var r := Admit(env, WipeArgs(device, esp, map_, slot, recovery), false);
            r.Ok? ==> JobOf(r.value) == KillJob(slot, recovery)
  {
    ParsePrint(slot, U8);
    ParsePrint(recovery, U8);
  }
}
