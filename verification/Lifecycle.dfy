/** From enrolment to a completed wipe: the tools one after another on one machine. */
module Lifecycle {
  import opened Text
  import opened HeaderScan
  import opened Hooks
  import opened HookTheorems
  import opened Journaling
  import opened Erasing
  import opened EraseActor
  import opened AttemptPolicy
  import opened Unlocking
  import opened UnlockActor
  import opened Enrolling
  import opened Arming
  import opened ArmActor
  import Verifier

  /** The slots that two secrets open. `unseen` are those of the daily secret besides `d`, `hidden` those of the recovery secret
      besides `r`, that enrolment did not notice. */
  datatype Pair = Pair(daily: Secret, recovery: Secret, d: nat, r: nat, unseen: set<nat>, hidden: set<nat>)

  predicate Enrolled(slots: map<nat, Secret>, p: Pair) {
    && p.d != p.r && p.d !in p.unseen && p.r !in p.unseen && p.r !in p.hidden
    && Matching(slots, p.daily) == {p.d} + p.unseen + (if p.daily == p.recovery then {p.r} else {})
    && Matching(slots, p.recovery) == {p.r} + p.hidden
  }

  predicate SlotsOnRecord(files: Files, d: nat, r: nat) {
    && Field(files, "daily.slot", ReadSlot) == Some(d)
    && Field(files, "recovery.slot", ReadSlot) == Some(r)
  }

  lemma RecordedSlots(files: Files, device: string, d: nat, r: nat)
    requires d <= 31 && r <= 31
    ensures SlotsOnRecord(Recorded(files, device, d, r), d, r)
  {
    SlotReadsBack(d);
    SlotReadsBack(r);
    LastWrites(files, "recovery.device", "target.device", device + "\n", "daily.slot", NumberLine(d), "recovery.slot",
               NumberLine(r), "known.slots", PrintKnown({d, r}));
    SlotTexts(Recorded(files, device, d, r), NumberLine(d), NumberLine(r), d, r);
  }

  lemma LastWrites(files: Files, n1: string, n2: string, v: string, n3: string, a: string, n4: string, b: string,
                   n5: string, c: string)
    requires n3 != n4 && n3 != n5 && n4 != n5
    ensures var out := files[n1 := v][n2 := v][n3 := a][n4 := b][n5 := c];
            n3 in out && out[n3] == a && n4 in out && out[n4] == b
  {
  }

  lemma SlotTexts(files: Files, a: string, b: string, d: nat, r: nat)
    requires "daily.slot" in files && files["daily.slot"] == a && ReadSlot(a) == Some(d)
    requires "recovery.slot" in files && files["recovery.slot"] == b && ReadSlot(b) == Some(r)
    ensures SlotsOnRecord(files, d, r)
  {
  }

  lemma EnrolledSlots(slots: map<nat, Secret>, files: Files, slots': map<nat, Secret>, files': Files, device: string, p: Pair)
    requires EnrolledAs(slots, files, slots', files', device, p.daily, p.recovery, p.d, p.r, p.unseen, p.hidden) && InRange(slots')
    ensures Enrolled(slots', p) && SlotsOnRecord(files', p.d, p.r)
  {
    assert p.d in Matching(slots, p.daily) && p.r in Matching(slots', p.recovery);
    assert forall k :: k in p.unseen ==> k in Matching(slots, p.daily);
    MatchingAfterAdd(slots, slots', p.r, p.recovery);
    RecordedSlots(files, device, p.d, p.r);
  }

  lemma OnRecordStill(files: Files, files': Files, d: nat, r: nat)
    requires SlotsOnRecord(files, d, r) && OtherFiles(files') == OtherFiles(files)
    ensures SlotsOnRecord(files', d, r)
  {
    forall name | name in {"daily.slot", "recovery.slot"}
      ensures SameName(files, files', name)
    {
      assert name in files ==> OtherFiles(files)[name] == files[name];
      assert name in files' ==> OtherFiles(files')[name] == files'[name];
      assert name in OtherFiles(files) <==> name in files;
      assert name in OtherFiles(files') <==> name in files';
    }
    FieldSame(files, files', "daily.slot", ReadSlot);
    FieldSame(files, files', "recovery.slot", ReadSlot);
  }

  lemma ArmedSlots(files: Files, st: Start, d: nat, r: nat)
    requires SlotsOnRecord(files, d, r) && Records(files) == Ok(st)
    ensures st.daily == d && st.recovery == r
  {
  }

  /** A further key with another secret. */
  lemma FactorAdded(slots: map<nat, Secret>, k: nat, factor: Secret, p: Pair)
    requires Enrolled(slots, p) && k !in slots && factor != p.daily && factor != p.recovery
    ensures Enrolled(slots[k := factor], p)
  {
    MatchingAfterAdd(slots, slots[k := factor], k, factor);
  }

  /** What a completed wipe leaves of the key slots. The daily secret opens none if and only if enrolment missed no slot of it
      and the secrets differ; the recovery secret opens just its own if and only if enrolment missed no other slot of it. */
  predicate WipedFrom(slots: map<nat, Secret>, slots': map<nat, Secret>, p: Pair) {
    && slots' == slots - {p.d} && slots'.Keys == slots.Keys - {p.d}
    && p.r in Matching(slots', p.recovery)
    && (Matching(slots', p.daily) == {} <==> p.unseen == {} && p.daily != p.recovery)
    && (Matching(slots', p.recovery) == {p.r} <==> p.hidden <= {p.d})
  }

  /** As they were, or after the one removal. */
  predicate KilledAtMost(slots: map<nat, Secret>, left: map<nat, Secret>, d: nat, r: nat) {
    left == slots || AtomicKill(slots, left, d, r)
  }

  lemma AfterKill(slots: map<nat, Secret>, slots': map<nat, Secret>, p: Pair)
    requires Enrolled(slots, p)
    requires KilledAtMost(slots, slots', p.d, p.r)
    requires p.d !in slots'
    ensures WipedFrom(slots, slots', p)
    ensures Matching(slots', p.daily) == p.unseen + (if p.daily == p.recovery then {p.r} else {})
    ensures Matching(slots', p.recovery) == {p.r} + (p.hidden - {p.d})
  {
    assert p.d in Matching(slots, p.daily);
    assert slots' == slots - {p.d};
    assert Matching(slots', p.daily) == Matching(slots, p.daily) - {p.d};
    assert Matching(slots', p.recovery) == Matching(slots, p.recovery) - {p.d};
    Leftover(p, Matching(slots', p.daily), Matching(slots', p.recovery));
  }

  lemma Leftover(p: Pair, daily: set<nat>, recovery: set<nat>)
    requires daily == p.unseen + (if p.daily == p.recovery then {p.r} else {}) && recovery == {p.r} + (p.hidden - {p.d})
    requires p.r !in p.hidden
    ensures daily == {} <==> p.unseen == {} && p.daily != p.recovery
    ensures recovery == {p.r} <==> p.hidden <= {p.d}
  {
    if p.daily == p.recovery { assert p.r in daily; }
    if p.hidden <= {p.d} {
      assert p.hidden - {p.d} == {};
    } else {
      var k :| k in p.hidden && k !in {p.d};
      assert k in recovery;
    }
  }

  /** Where the run of tools ended. */
  datatype Ending = NotEnrolled | NotArmed | StillArmed | WipeDone(active: map<nat, Secret>, daily: nat, recovery: nat)

  /** The factors, each enrolled through the registry; one that fails may leave its slot active. */
  method EnrolFactors(reg: Registry, factors: seq<Secret>, ghost p: Pair, faults: bool)
    requires InRange(reg.slots) && Enrolled(reg.slots, p) && SlotsOnRecord(reg.files, p.d, p.r)
    requires p.daily !in factors && p.recovery !in factors
    modifies reg
    ensures InRange(reg.slots) && Enrolled(reg.slots, p) && SlotsOnRecord(reg.files, p.d, p.r)
  {
    for i := 0 to |factors|
      invariant InRange(reg.slots) && Enrolled(reg.slots, p) && SlotsOnRecord(reg.files, p.d, p.r)
    {
      assert factors[i] in factors;
      ghost var slots, files := reg.slots, reg.files;
      var ok, k, _, _, _ := reg.RecordAddedSlots(factors[i], faults);
      OnRecordStill(files, reg.files, p.d, p.r);
      if reg.slots != slots { FactorAdded(slots, k, factors[i], p); }
    }
  }

  /** The running system, as the eraser started by pam_ds sees it: its recorded slots are the local files. */
  function Running(canon: string -> Option<Path>, luks: string -> bool, files: Files): Env {
    Env(canon, luks, Stored(files, "target.device"), Stored(files, "daily.slot"), Stored(files, "recovery.slot"))
  }

  function Stored(files: Files, name: string): Option<string> { if name in files then Some(files[name]) else None }

  lemma RunningSlots(canon: string -> Option<Path>, luks: string -> bool, files: Files, d: nat, r: nat)
    requires SlotsOnRecord(files, d, r)
    ensures var os := Running(canon, luks, files);
            RecordedSlot(os.dailySlot) == Some(d) && RecordedSlot(os.recoverySlot) == Some(r)
  {
  }

  /** Switched off, with checks that pass and the recorded slots in the running system. */
  ghost predicate Bootable(b: Boots, os: Env)
    reads b, b.m
  {
    && b.Valid() && b.stage == Off && CheckStart(b.a.files, b.a.baked) == Ok(b.a.start)
    && RecordedSlot(os.dailySlot) == Some(b.a.start.daily) && RecordedSlot(os.recoverySlot) == Some(b.a.start.recovery)
  }

  /** The boots recorded began with these slots. */
  ghost predicate Began(b: Boots, slots: map<nat, Secret>)
    reads b
  {
    b.run != [] && b.run[0].disk.slots == slots
  }

  /** Boots of the armed machine, and fires of pam_ds between them, until a wipe is complete or `limit` of them have gone by. */
  method BootRepeatedly(b: Boots, os: Env, limit: nat, bytes: nat, ghost slots: map<nat, Secret>, faults: bool)
    returns (wiped: bool)
    requires Bootable(b, os) && Began(b, slots)
    modifies b`files, b`count, b`stage, b`wrong, b`lost, b`run, b.m
    ensures b.Valid() && Began(b, slots)
    ensures wiped ==> b.DailyGone()
  {
    wiped := false;
    var i := 0;
    while i < limit && !wiped
      invariant Bootable(b, os) && Began(b, slots)
      invariant wiped ==> b.DailyGone()
    {
      wiped := BootOrFire(b, os, bytes, slots, faults);
      i := i + 1;
    }
  }

  /** One boot, or one fire of pam_ds. */
  method BootOrFire(b: Boots, os: Env, bytes: nat, ghost slots: map<nat, Secret>, faults: bool) returns (wiped: bool)
    requires Bootable(b, os) && Began(b, slots)
    modifies b`files, b`count, b`stage, b`wrong, b`lost, b`run, b.m
    ensures Bootable(b, os) && Began(b, slots)
    ensures wiped ==> b.DailyGone()
  {
    var login: bool := *;
    if login {
      var fired, _ := b.FireFromLogin(os, faults);
      return fired.Fired? && fired.effect.Done?;
    }
    var typed: nat -> string := *;
    CheckStartSame(b.a.files, b.files, b.a.baked);
    var x, _, _ := b.Boot(bytes, typed, faults);
    return x == Wiped;
  }

  lemma SlotsNow(b: Boots, slots: map<nat, Secret>)
    requires b.Valid() && Began(b, slots)
    ensures KilledAtMost(slots, b.m.slots, b.a.start.daily, b.a.start.recovery)
  {
    SlotsLeft(b.a, b.run, slots, b.m.slots);
  }

  /** The slots at the end of a run, from those at its start. */
  lemma SlotsLeft(a: Armed, run: seq<Sys>, slots: map<nat, Secret>, left: map<nat, Secret>)
    requires SysRun(a, run) && run[0].disk.slots == slots && run[|run| - 1].disk.slots == left
    ensures KilledAtMost(slots, left, a.start.daily, a.start.recovery)
  {
    SlotsOverBoots(a, run, |run| - 1);
  }

  /** A fire of pam_ds that leaves its journal behind, stopped by a failing step or a power cut, leaves a machine that does not
      come to a prompt again by booting until a boot overlooks the journal: neither the daily secret nor the recovery
      secret is asked for. */
  method FiredThenStuck(b: Boots, os: Env, boots: nat, faults: bool) returns (pending: bool, prompts: nat, overlooked: bool)
    requires b.Valid() && b.stage == Off && CheckStart(b.a.files, b.a.baked) == Ok(b.a.start) && b.m.journal.None?
    requires RecordedSlot(os.dailySlot) == Some(b.a.start.daily) && RecordedSlot(os.recoverySlot) == Some(b.a.start.recovery)
    modifies b`files, b`count, b`stage, b`wrong, b`lost, b`run, b.m
    ensures b.Valid() && (overlooked ==> pending && faults)
    ensures !overlooked ==> pending == b.m.journal.Some?
    ensures pending && !overlooked ==> prompts == 0 && b.stage == Off && b.count == old(b.count)
  {
    var fired, _ := b.FireFromLogin(os, faults);
    pending, prompts, overlooked := b.m.journal.Some?, 0, false;
    if pending { prompts, overlooked := b.StuckBoots(boots, faults); }
  }

  /** After a completed wipe, a boot that no fault disturbs, at which the recovery secret is typed and is not the duress code,
      opens the recovery slot if and only if the stored count is below the threshold. */
  method RecoveryBoot(b: Boots, recovery: Secret, r: nat, bytes: nat) returns (x: Exit, prompts: nat)
    requires b.Valid() && b.stage == Off && CheckStart(b.a.files, b.a.baked) == Ok(b.a.start)
    requires b.DailyGone() && Matching(b.m.slots, recovery) == {r}
    requires !Verifier.Verifies(b.setting.kdf, b.a.start.verifier, recovery)
    modifies b`files, b`count, b`stage, b`wrong, b`lost, b`run, b.m
    ensures b.Valid()
    ensures x == Unlocked(r) <==> old(b.count) < b.a.start.policy.wipeAt
    ensures x.Unlocked? ==> x.slot == r && prompts == 1
  {
    var typed: nat -> string := _ => recovery;
    ghost var goal := Session(b.a.start, b.setting.kdf, b.m.slots, typed, 0, b.count);
    OpensAtOnce(b.a.start, b.setting.kdf, b.m.slots, typed, b.count);
    CheckStartSame(b.a.files, b.files, b.a.baked);
    ghost var open := b.count < b.a.start.policy.wipeAt;
    assert b.m.journal.None? && goal == Opens(1);
    x, prompts := UndisturbedBoot(b, bytes, typed, goal);
    if open { assert typed(0) == recovery; }
  }

  /** A boot without faults and without a pending journal. */
  method UndisturbedBoot(b: Boots, bytes: nat, typed: nat -> string, ghost goal: Reaction) returns (x: Exit, prompts: nat)
    requires b.Valid() && b.stage == Off && b.m.journal.None? && CheckStart(b.files, b.baked).Ok? && b.Checked()
    requires goal == Session(b.a.start, b.setting.kdf, b.m.slots, typed, 0, b.count)
    modifies b`files, b`count, b`stage, b`wrong, b`lost, b`run, b.m
    ensures b.Valid() && b.stage == Off && old(b.run) <= b.run && b.count <= old(b.count) + prompts
    ensures x == Wiped ==> b.DailyGone()
    ensures old(b.count) >= b.a.start.policy.wipeAt ==> prompts == 0 && !x.Unlocked?
    ensures old(b.count) < b.a.start.policy.wipeAt ==> Answers(x, prompts, goal, old(b.m.slots), typed, old(b.CanWipe()))
  {
    var overlooked;
    x, prompts, overlooked := b.Boot(bytes, typed, false);
  }

  lemma OpensAtOnce(st: Start, kdf: Verifier.Kdf, slots: map<nat, Secret>, typed: nat -> string, count: nat)
    requires Validates(st.policy) && Matching(slots, typed(0)) != {} && !Verifier.Verifies(kdf, st.verifier, typed(0))
    ensures Session(st, kdf, slots, typed, 0, count) == Opens(1)
  {
  }

  /** The armed machine, switched off, with a count of zero. */
  method FirstBoot(slots: map<nat, Secret>, files: Files, baked: Files, at: Locator, tree: Tree, setting: Setting,
                   ghost st: Start)
    returns (b: Boots)
    requires CheckStart(files, baked) == Ok(st) && files == WithCount(files, 0)
    ensures fresh(b) && fresh(b.m) && b.Valid() && b.stage == Off && b.count == 0
    ensures b.a == Armed(at, files, st, baked) && b.m.slots == slots && b.run[|b.run| - 1] == b.Now()
    ensures |b.run| == 1 && b.setting == setting && b.wipe == Trigger(setting, st) && b.baked == baked
    ensures b.m.at == at && b.m.tree == tree && b.m.journal.None? && b.files == files
  {
    var m := new Machine(at, KillJob(st.daily, st.recovery), slots, tree);
    b := new Boots(m, baked, setting, files, 0, st);
  }

  /** Boots of a machine armed with files that pass the start-up checks, until a wipe is complete. */
  method BootUntilWiped(slots: map<nat, Secret>, files: Files, baked: Files, at: Locator, tree: Tree, setting: Setting, os: Env,
                        ghost st: Start, limit: nat, bytes: nat, faults: bool)
    returns (wiped: bool, left: map<nat, Secret>)
    requires RecordedSlot(os.dailySlot) == Some(st.daily) && RecordedSlot(os.recoverySlot) == Some(st.recovery)
    requires CheckStart(files, baked) == Ok(st) && files == WithCount(files, 0)
    ensures KilledAtMost(slots, left, st.daily, st.recovery)
    ensures wiped ==> st.daily !in left
  {
    var b := ArmedMachine(slots, files, baked, at, tree, setting, os, st);
    wiped, left := BootsLeave(b, os, limit, bytes, slots, faults);
  }

  /** The armed machine at its first boot. */
  method ArmedMachine(slots: map<nat, Secret>, files: Files, baked: Files, at: Locator, tree: Tree, setting: Setting, os: Env,
                      ghost st: Start)
    returns (b: Boots)
    requires RecordedSlot(os.dailySlot) == Some(st.daily) && RecordedSlot(os.recoverySlot) == Some(st.recovery)
    requires CheckStart(files, baked) == Ok(st) && files == WithCount(files, 0)
    ensures fresh(b) && fresh(b.m) && Bootable(b, os) && Began(b, slots) && b.a.start == st
  {
    b := FirstBoot(slots, files, baked, at, tree, setting, st);
  }

  /** What repeated boots leave of the slots. */
  method BootsLeave(b: Boots, os: Env, limit: nat, bytes: nat, ghost slots: map<nat, Secret>, faults: bool)
    returns (wiped: bool, left: map<nat, Secret>)
    requires Bootable(b, os) && Began(b, slots)
    modifies b`files, b`count, b`stage, b`wrong, b`lost, b`run, b.m
    ensures KilledAtMost(slots, left, b.a.start.daily, b.a.start.recovery)
    ensures wiped ==> b.a.start.daily !in left
  {
    wiped := BootRepeatedly(b, os, limit, bytes, slots, faults);
    left := b.m.slots;
    SlotsNow(b, slots);
  }

  /** Arming, then booting until a wipe is complete. */
  method ArmAndBoot(host: Host, ghost d: nat, ghost r: nat, at: Locator, tree: Tree, setting: Setting,
                    canon: string -> Option<Path>, luks: string -> bool, limit: nat, bytes: nat, faults: bool)
    returns (armed: bool, wiped: bool, left: map<nat, Secret>)
    requires host.Valid() && SlotsOnRecord(host.reg.files, d, r)
    modifies host, host.reg`files
    ensures armed ==> KilledAtMost(host.reg.slots, left, d, r)
    ensures armed ==> host.reg.slots.Keys <= Known(host.reg.files)
    ensures wiped ==> armed && d !in left
    ensures wiped ==> left.Keys <= host.reg.slots.Keys
  {
    armed, wiped, left := false, false, map[];
    ghost var records := host.reg.files;
    var result, seen := host.Arm(faults);
    if !result.ArmDone? { return; }
    armed := true;
    ArmedSlots(records, result.start, d, r);
    ArmedHost(seen, host.fs, records, host.reg.slots, result.start);
    OnRecordStill(records, host.reg.files, d, r);
    RunningSlots(canon, luks, host.reg.files, d, r);
    var os := Running(canon, luks, host.reg.files);
    wiped, left := BootUntilWiped(host.reg.slots, host.fs.esp, host.fs.image.files, at, tree, setting, os, result.start,
                                  limit, bytes, faults);
  }

  /** What a successful `arm` leaves passes every start-up check of the pre-boot tool. */
  lemma ArmedHost(s: HostState, s': HostState, files: Files, slots: map<nat, Secret>, st: Start)
    requires ArmedFrom(s, s', files, slots, st)
    ensures s'.image.WithHook? && CheckStart(s'.esp, s'.image.files) == Ok(st) && s'.esp == WithCount(s'.esp, 0)
  {
    var verifier := files["duress.hash"];
    RecordsHold(files, st);
    ArmedFilesAccepted(s.esp, verifier, st);
  }

  lemma RecordsHold(files: Files, st: Start)
    requires Records(files) == Ok(st) && "duress.hash" in files
    ensures Verifier.Parse(files["duress.hash"]) == Ok(st.verifier)
  {
  }

  /** End to end: after recovery enrolment, any further factors with other secrets, and a fresh arm, once any of the following
      boots, or any fire of pam_ds with the recorded slots, completes a wipe, the survivors are the slots that were active
      less the daily one, all of them registered. The daily secret opens none of them, and the recovery secret exactly its
      own, if and only if enrolment missed no slot of theirs; without faults it misses none. */
  method EndToEnd(host: Host, device: string, daily: Secret, recovery: Secret, factors: seq<Secret>, at: Locator, tree: Tree,
                  setting: Setting, canon: string -> Option<Path>, luks: string -> bool, limit: nat, bytes: nat, faults: bool)
    returns (end: Ending, left: map<nat, Secret>, ghost p: Pair)
    requires host.Valid() && InRange(host.reg.slots)
    requires daily !in factors && recovery !in factors
    modifies host, host.reg
    ensures end.WipeDone? ==>
              && p.daily == daily && p.recovery == recovery && p.d == end.daily && p.r == end.recovery
              && WipedFrom(end.active, left, p) && left.Keys <= Known(host.reg.files)
              && (!faults ==> Matching(left, daily) == {} && Matching(left, recovery) == {end.recovery})
  {
    left := map[];
    var slots;
    slots, p := Enrol(host, device, daily, recovery, factors, faults);
    if slots.None? { return NotEnrolled, left, p; }
    var armed, wiped;
    armed, wiped, left := ArmAndBoot(host, p.d, p.r, at, tree, setting, canon, luks, limit, bytes, faults);
    end := if !armed then NotArmed else if !wiped then StillArmed
           else WipeDone(host.reg.slots, slots.value.0, slots.value.1);
    if wiped { AfterKill(host.reg.slots, left, p); }
  }

  /** Recovery enrolment, then the factors. */
  method Enrol(host: Host, device: string, daily: Secret, recovery: Secret, factors: seq<Secret>, faults: bool)
    returns (slots: Option<(nat, nat)>, ghost p: Pair)
    requires host.Valid() && InRange(host.reg.slots)
    requires daily !in factors && recovery !in factors
    modifies host.reg
    ensures host.Valid()
    ensures slots.Some? ==>
              && p == Pair(daily, recovery, slots.value.0, slots.value.1, p.unseen, p.hidden)
              && Enrolled(host.reg.slots, p) && SlotsOnRecord(host.reg.files, p.d, p.r)
              && (!faults ==> p.unseen == {} && p.hidden == {} && daily != recovery)
  {
    p := Pair(daily, recovery, 0, 1, {}, {});
    var reg := host.reg;
    var enrolled, unseen, hidden := reg.EnrollRecovery(host.fs.local, device, daily, recovery, faults);
    if enrolled.Err? { return None, p; }
    p := Pair(daily, recovery, enrolled.value.0, enrolled.value.1, unseen, hidden);
    EnrolledSlots(old(reg.slots), old(reg.files), reg.slots, reg.files, device, p);
    if !faults { TwoSecrets(reg.slots, p); }
    EnrolFactors(reg, factors, p, faults);
    return Some((enrolled.value.0, enrolled.value.1)), p;
  }

  lemma TwoSecrets(slots: map<nat, Secret>, p: Pair)
    requires Enrolled(slots, p) && p.hidden == {}
    ensures p.daily != p.recovery
  {
    assert p.d in Matching(slots, p.daily);
  }

  /** `arm`, then `disarm`: whatever fails in between, when both report success the login stack is the old one
      byte for byte, and so is an LF configuration that did not name the hook. */
  method ArmThenDisarm(host: Host, faults: bool) returns (armed: ArmResult, disarmed: DisarmResult)
    requires host.Valid() && !host.fs.undoing
    modifies host, host.reg`files
    ensures armed.ArmDone? && disarmed.Disarmed? ==> host.fs.pam == old(host.fs).pam && host.fs.backup == None
    ensures armed.ArmDone? && disarmed.Disarmed? && LfText(old(host.fs).conf) && NoDeath(old(host.fs).conf) ==>
              host.fs.conf == old(host.fs).conf
    ensures armed.ArmDone? && !faults && LfText(old(host.fs).conf) && NoDeath(old(host.fs).conf) ==>
              (disarmed.Disarmed? <==> EncryptStartsTokens(old(host.fs).conf))
  {
    disarmed := DisarmResult.Refused;
    ghost var was, files := host.fs, host.reg.files;
    ghost var seen;
    armed, seen := host.Arm(faults);
    if !armed.ArmDone? { return; }
    ghost var t := host.fs;
    assert ArmedFrom(seen, t, files, host.reg.slots, armed.start);
    var local, esp;
    disarmed, local, esp := host.Disarm(faults);
    StackBack(seen, files["duress.hash"], armed.start, host.fs);
    if LfText(was.conf) && NoDeath(was.conf) { ConfBack(seen, files["duress.hash"], armed.start, host.fs); }
  }

  lemma StackBack(s: HostState, verifier: string, st: Start, u: HostState)
    requires CanArm(s)
    ensures var t := ArmedState(s, verifier, st);
            Marked(t.pam) && t.backup == Some(s.pam) && (DisarmedFrom(t, u) ==> u.pam == s.pam)
  {
    ArmedConsistent(s, verifier, st);
    BackupBack(ArmedState(s, verifier, st), s.pam, u);
  }

  lemma BackupBack(t: HostState, pam: string, u: HostState)
    requires Marked(t.pam) && t.backup == Some(pam)
    ensures DisarmedFrom(t, u) ==> u.pam == pam
  {
  }

  lemma ConfBack(s: HostState, verifier: string, st: Start, u: HostState)
    requires CanArm(s) && LfText(s.conf) && NoDeath(s.conf)
    ensures var t := ArmedState(s, verifier, st);
            (Without(t.conf).Ok? <==> EncryptStartsTokens(s.conf)) && (DisarmedFrom(t, u) ==> u.conf == s.conf)
  {
    Arming.ArmThenDisarm(s, verifier, st);
    if DisarmedFrom(ArmedState(s, verifier, st), u) { assert Unarmed(s, u); }
  }
}
