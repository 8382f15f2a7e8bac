/** A whole life in which nothing fails: enrolment, arming, the duress code before boot, and recovery. */
module CleanLife {
  import opened Text
  import opened HeaderScan
  import opened Journaling
  import opened Erasing
  import opened AttemptPolicy
  import opened Unlocking
  import opened UnlockActor
  import opened Enrolling
  import opened AuditCases
  import opened Arming
  import opened ArmActor
  import opened ArmCases
  import opened Lifecycle
  import Verifier

  // ---- enrolment ----

  /** Recovery enrolment on a target with one key slot. */
  method EnrolClean(host: Host, device: string, d: nat, daily: Secret, recovery: Secret) returns (r: nat)
    requires host.Valid() && !host.fs.local && host.reg.slots == map[d := daily] && d <= 31 && daily != recovery
    modifies host.reg
    ensures host.Valid() && host.reg.files == Recorded(old(host.reg.files), device, d, r)
    ensures HasTwo(host.reg.slots, d, daily, r, recovery)
  {
    OneSlot(host.reg.slots, d, daily, recovery);
    var enrolled, unseen, hidden := host.reg.EnrollRecovery(host.fs.local, device, daily, recovery, false);
    r := enrolled.value.1;
    TwoSlots(old(host.reg.slots), host.reg.slots, d, daily, r, recovery);
  }

  lemma OneSlot(slots: map<nat, Secret>, d: nat, daily: Secret, other: Secret)
    requires slots == map[d := daily] && d <= 31 && daily != other
    ensures Matching(slots, daily) == {d} && |Matching(slots, daily)| == 1 && Matching(slots, other) == {}
    ensures InRange(slots) && FreeSlot(slots)
  {
    assert Matching(slots, daily) == {d};
    var k: nat := if d == 0 then 1 else 0;
    assert k <= 31 && k !in slots;
  }

  lemma TwoSlots(slots: map<nat, Secret>, slots': map<nat, Secret>, d: nat, daily: Secret, r: nat, recovery: Secret)
    requires slots == map[d := daily] && slots' == slots[r := recovery] && r !in slots && InRange(slots')
    ensures HasTwo(slots', d, daily, r, recovery)
  {
    assert r in slots' && d in slots';
  }

  /** One slot for the daily secret and one for the recovery secret. */
  predicate HasTwo(slots: map<nat, Secret>, d: nat, daily: Secret, r: nat, recovery: Secret) {
    d <= 31 && r <= 31 && d != r && slots == map[d := daily, r := recovery]
  }

  ghost predicate JustThese(slots: map<nat, Secret>, d: nat, r: nat) { forall k :: k in slots <==> k == d || k == r }

  lemma TwoKeys(slots: map<nat, Secret>, d: nat, daily: Secret, r: nat, recovery: Secret)
    requires HasTwo(slots, d, daily, r, recovery)
    ensures JustThese(slots, d, r)
  {
  }

  /** The values the machine is armed with. */
  function Values(h: Verifier.DuressHash, d: nat, r: nat): Start { Start(Policy(3, 5, 0, 5), h, d, r) }

  /** A readable verifier on file, and no policy of its own. */
  predicate HasVerifier(files: Files, h: Verifier.DuressHash) {
    "config" !in files && Field(files, "duress.hash", ReadVerifier) == Some(h)
  }

  /** The verifier as `dsctl` derives and writes it. */
  lemma DerivedOnFile(files: Files, kdf: Verifier.Kdf, code: string, iterations: nat, salt: seq<Verifier.Byte>,
                      h: Verifier.DuressHash)
    requires Verifier.Derive(kdf, code, iterations, salt) == Some(h) && Verifier.WellFormed(h)
    requires "config" !in files && "duress.hash" in files && files["duress.hash"] == Verifier.Serialize(h) + "\n"
    ensures HasVerifier(files, h) && Verifier.Verifies(kdf, h, code)
  {
    Verifier.ParseSerialized(h);
  }

  lemma EnrolledInOrder(files: Files, files': Files, device: string, slots: map<nat, Secret>, h: Verifier.DuressHash,
                        d: nat, r: nat)
    requires HasVerifier(files, h) && !Blank(device) && d <= 31 && r <= 31 && d != r && JustThese(slots, d, r)
    requires files' == Recorded(files, device, d, r)
    ensures InOrder(files', slots, Values(h, d, r))
  {
    RecordedIs(files, device, d, r, files');
    RecordedElse(files, device, d, r, "config");
    RecordedElse(files, device, d, r, "duress.hash");
    FieldSame(files, files', "duress.hash", ReadVerifier);
    RecordsInOrder(files', device, slots, h, d, r);
  }

  lemma RecordsInOrder(files: Files, device: string, slots: map<nat, Secret>, h: Verifier.DuressHash, d: nat, r: nat)
    requires HasVerifier(files, h) && !Blank(device) && d <= 31 && r <= 31 && d != r && JustThese(slots, d, r)
    requires "target.device" in files && files["target.device"] == device + "\n"
    requires IsRecord(files, "daily.slot", d) && IsRecord(files, "recovery.slot", r)
    ensures InOrder(files, slots, Values(h, d, r))
  {
    StillInk(device);
    OnFileAll(files, Values(h, d, r), device);
  }

  lemma StillInk(device: string)
    requires !Blank(device)
    ensures !Blank(device + "\n")
  {
    var c :| c in device && !IsSpace(c);
    assert c in device + "\n";
  }

  lemma OnFileAll(files: Files, st: Start, device: string)
    requires "duress.hash" in files && Verifier.Parse(files["duress.hash"]) == Ok(st.verifier)
    requires "config" !in files && st.policy == Policy(3, 5, 0, 5)
    requires "target.device" in files && files["target.device"] == device + "\n" && !Blank(device + "\n")
    requires IsRecord(files, "daily.slot", st.daily) && IsRecord(files, "recovery.slot", st.recovery)
    ensures OnFile(files, st)
  {
  }

  // ---- arming ----

  /** What the next boot finds passes its checks, with a count of zero. */
  ghost predicate ReadyToBoot(s: HostState, st: Start) {
    s.image.WithHook? && CheckStart(s.esp, s.image.files) == Ok(st) && s.esp == WithCount(s.esp, 0)
  }

  /** What has to hold of records and host for the slots and values at hand. */
  type Condition = (Files, HostState) -> bool

  ghost predicate IsArmable(p: Condition, slots: map<nat, Secret>, st: Start) {
    forall files: Files, s: HostState {:trigger Armable(files, slots, s, st)} :: p(files, s) == Armable(files, slots, s, st)
  }

  ghost function ArmableFor(slots: map<nat, Secret>, st: Start): (p: Condition)
    ensures IsArmable(p, slots, st)
  {
    (files, s) => Armable(files, slots, s, st)
  }

  method ArmClean(host: Host, ghost st: Start, ghost p: Condition)
    requires host.Valid() && IsArmable(p, host.reg.slots, st) && p(host.reg.files, host.fs)
    modifies host, host.reg`files
    ensures host.Valid() && ReadyToBoot(host.fs, st)
  {
    ghost var files, s := host.reg.files, host.fs;
    assert Armable(files, host.reg.slots, s, st);
    var armed, was := host.Arm(false);
    ArmableIff(files, host.reg.slots, s, st, armed);
    ArmedHost(was, host.fs, files, host.reg.slots, armed.start);
  }

  // ---- before boot ----

  /** The default directory and mapping before boot, with no more entries there than a scan may visit. */
  ghost predicate DefaultSetting(setting: Setting) {
    setting.env == PreBoot() && setting.device == DISK && setting.esp == BOOT_DIR && setting.mapName == ROOT_NAME
  }

  lemma DuressTriggers(st: Start, kdf: Verifier.Kdf, slots: map<nat, Secret>, typed: nat -> string, count: nat)
    requires Validates(st.policy) && Verifier.Verifies(kdf, st.verifier, typed(0))
    ensures Session(st, kdf, slots, typed, 0, count) == Triggers(1)
  {
  }

  /** The duress code at the first prompt of an armed machine. */
  method DuressBoot(b: Boots, code: string, ghost slots: map<nat, Secret>, bytes: nat) returns (x: Exit)
    requires b.Valid() && b.stage == Off && b.count == 0 && b.CanWipe() && Began(b, slots) && Passes(b)
    requires Verifier.Verifies(b.setting.kdf, b.a.start.verifier, code)
    modifies b`files, b`count, b`stage, b`wrong, b`lost, b`run, b.m
    ensures b.Valid() && b.stage == Off && Began(b, slots) && b.count <= 1
    ensures x == Wiped && b.DailyGone()
  {
    var typed: nat -> string := _ => code;
    ghost var goal := Session(b.a.start, b.setting.kdf, b.m.slots, typed, 0, b.count);
    DuressTriggers(b.a.start, b.setting.kdf, b.m.slots, typed, b.count);
    var prompts;
    x, prompts := UndisturbedBoot(b, bytes, typed, goal);
  }

  lemma RecoveryLeft(slots: map<nat, Secret>, left: map<nat, Secret>, d: nat, daily: Secret, r: nat, recovery: Secret)
    requires HasTwo(slots, d, daily, r, recovery) && daily != recovery && d !in left
    requires KilledAtMost(slots, left, d, r)
    ensures left == map[r := recovery] && Matching(left, recovery) == {r} && Matching(left, daily) == {}
  {
    assert d in slots;
    assert left == slots - {d};
  }

  /** The machine as armed, switched off, with the slots of enrolment. */
  ghost predicate Fresh(b: Boots, daily: Secret, r: nat, recovery: Secret)
    reads b, b.m
  {
    && b.Valid() && b.stage == Off && b.count == 0 && b.CanWipe() && |b.run| == 1
    && r == b.a.start.recovery && HasTwo(b.m.slots, b.a.start.daily, daily, r, recovery) && daily != recovery
  }

  /** What the start-up checks say, now and of the armed values. */
  ghost predicate Passes(b: Boots)
    reads b
  {
    && CheckStart(b.files, b.baked).Ok? && CheckStart(b.a.files, b.a.baked) == Ok(b.a.start)
    && b.a.start.policy == Policy(3, 5, 0, 5)
  }

  /** The duress code wipes. */
  method WipeFirst(b: Boots, code: string, daily: Secret, r: nat, recovery: Secret, bytes: nat)
    returns (wiped: Exit, left: map<nat, Secret>)
    requires Fresh(b, daily, r, recovery) && Passes(b) && Verifier.Verifies(b.setting.kdf, b.a.start.verifier, code)
    modifies b`files, b`count, b`stage, b`wrong, b`lost, b`run, b.m
    ensures b.Valid() && b.stage == Off && b.count <= 1 && b.DailyGone() && wiped == Wiped
    ensures left == map[r := recovery] && b.m.slots == left && Matching(left, recovery) == {r}
  {
    ghost var slots := b.m.slots;
    wiped, left := WipeLeaves(b, code, slots, bytes);
    RecoveryLeft(slots, left, b.a.start.daily, daily, r, recovery);
  }

  method WipeLeaves(b: Boots, code: string, ghost slots: map<nat, Secret>, bytes: nat)
    returns (wiped: Exit, left: map<nat, Secret>)
    requires b.Valid() && b.stage == Off && b.count == 0 && b.CanWipe() && Began(b, slots) && Passes(b)
    requires Verifier.Verifies(b.setting.kdf, b.a.start.verifier, code)
    modifies b`files, b`count, b`stage, b`wrong, b`lost, b`run, b.m
    ensures b.Valid() && b.stage == Off && b.count <= 1 && b.DailyGone() && wiped == Wiped && left == b.m.slots
    ensures KilledAtMost(slots, left, b.a.start.daily, b.a.start.recovery)
  {
    wiped := DuressBoot(b, code, slots, bytes);
    left := b.m.slots;
    SlotsNow(b, slots);
  }

  /** Then the recovery secret opens what is left. */
  method BootTwice(b: Boots, code: string, daily: Secret, r: nat, recovery: Secret, first: nat, second: nat)
    returns (wiped: Exit, reopened: Exit, left: map<nat, Secret>)
    requires Fresh(b, daily, r, recovery) && Passes(b) && Verifier.Verifies(b.setting.kdf, b.a.start.verifier, code)
    requires !Verifier.Verifies(b.setting.kdf, b.a.start.verifier, recovery)
    modifies b`files, b`count, b`stage, b`wrong, b`lost, b`run, b.m
    ensures wiped == Wiped && left == map[r := recovery] && reopened == Unlocked(r)
  {
    wiped, left := WipeFirst(b, code, daily, r, recovery, first);
    var prompts;
    reopened, prompts := RecoveryBoot(b, recovery, r, second);
  }

  /** The stack can be armed, there is no marker, and the hook can be inserted. */
  ghost predicate Unmarked(s: HostState) { Begins(s) && TakesHook(s.conf) }

  lemma ArmableBy(files: Files, slots: map<nat, Secret>, s: HostState, st: Start)
    requires InOrder(files, slots, st) && Unmarked(s)
    ensures Armable(files, slots, s, st)
  {
  }

  /** Enrolment, after which `arm` can do its work. */
  method EnrolInOrder(host: Host, device: string, d: nat, daily: Secret, recovery: Secret, ghost h: Verifier.DuressHash)
    returns (r: nat, ghost st: Start, ghost p: Condition)
    requires host.Valid() && Unmarked(host.fs) && HasVerifier(host.reg.files, h)
    requires host.reg.slots == map[d := daily] && d <= 31 && daily != recovery && !Blank(device)
    modifies host.reg
    ensures host.Valid() && HasTwo(host.reg.slots, d, daily, r, recovery)
    ensures st == Values(h, d, r) && IsArmable(p, host.reg.slots, st) && p(host.reg.files, host.fs)
  {
    r := EnrolClean(host, device, d, daily, recovery);
    TwoKeys(host.reg.slots, d, daily, r, recovery);
    EnrolledInOrder(old(host.reg.files), host.reg.files, device, host.reg.slots, h, d, r);
    st := Values(h, d, r);
    p := ArmableFor(host.reg.slots, st);
    ArmableBy(host.reg.files, host.reg.slots, host.fs, st);
  }

  /** Enrolment and arming, on a host in order. */
  method EnrolAndArm(host: Host, device: string, d: nat, daily: Secret, recovery: Secret, ghost h: Verifier.DuressHash)
    returns (r: nat, ghost st: Start)
    requires host.Valid() && Unmarked(host.fs) && HasVerifier(host.reg.files, h)
    requires host.reg.slots == map[d := daily] && d <= 31 && daily != recovery && !Blank(device)
    modifies host, host.reg
    ensures HasTwo(host.reg.slots, d, daily, r, recovery) && st == Values(h, d, r) && ReadyToBoot(host.fs, st)
  {
    ghost var p;
    r, st, p := EnrolInOrder(host, device, d, daily, recovery, h);
    ArmClean(host, st, p);
  }

  /** The armed machine from its first boot on. */
  method BootFresh(slots: map<nat, Secret>, files: Files, baked: Files, ghost st: Start, code: string, daily: Secret, r: nat,
                   recovery: Secret, at: Locator, tree: Tree, setting: Setting, first: nat, second: nat)
    returns (wiped: Exit, reopened: Exit, left: map<nat, Secret>)
    requires CheckStart(files, baked) == Ok(st) && files == WithCount(files, 0) && st.policy == Policy(3, 5, 0, 5)
    requires Verifier.Verifies(setting.kdf, st.verifier, code) && !Verifier.Verifies(setting.kdf, st.verifier, recovery)
    requires r == st.recovery && HasTwo(slots, st.daily, daily, r, recovery) && daily != recovery
    requires DefaultSetting(setting) && Weight(tree, at(BOOT_DIR)) <= 10000
    ensures wiped == Wiped && left == map[r := recovery] && reopened == Unlocked(r)
  {
    var b := FirstBoot(slots, files, baked, at, tree, setting, st);
    PreBootReady(setting, at, b.m.Now(), st);
    assert b.a.start == st && b.a.files == files && b.a.baked == baked;
    wiped, reopened, left := BootTwice(b, code, daily, r, recovery, first, second);
  }

  /** On a host in order, with one key slot, the default policy, a HOOKS line that takes the hook, and no more than 10,000 entries
      in the state directory before boot, when nothing fails: recovery is enrolled, the host is armed, the duress code at the first
      prompt completes the wipe, the daily secret is gone, and the recovery secret opens the slot left at the next boot. */
  method WholeLife(host: Host, device: string, d: nat, daily: Secret, recovery: Secret, code: string, h: Verifier.DuressHash,
                   iterations: nat, salt: seq<Verifier.Byte>, at: Locator, tree: Tree, setting: Setting, first: nat, second: nat)
    returns (r: nat, wiped: Exit, reopened: Exit, left: map<nat, Secret>)
    requires host.Valid() && Unmarked(host.fs)
    requires host.reg.slots == map[d := daily] && d <= 31 && daily != recovery && !Blank(device)
    requires |salt| == 16 && |setting.kdf(code, salt, iterations)| == 32
    requires Verifier.Derive(setting.kdf, code, iterations, salt) == Some(h) && "config" !in host.reg.files
    requires "duress.hash" in host.reg.files && host.reg.files["duress.hash"] == Verifier.Serialize(h) + "\n"
    requires setting.kdf(recovery, salt, iterations) != setting.kdf(code, salt, iterations)
    requires DefaultSetting(setting) && Weight(tree, at(BOOT_DIR)) <= 10000
    modifies host, host.reg
    ensures wiped == Wiped && r != d && left == map[r := recovery] && reopened == Unlocked(r)
  {
    DerivedOnFile(host.reg.files, setting.kdf, code, iterations, salt, h);
    ghost var st;
    r, st := EnrolAndArm(host, device, d, daily, recovery, h);
    wiped, reopened, left := BootFresh(host.reg.slots, host.fs.esp, host.fs.image.files, st, code, daily, r, recovery, at, tree,
                                       setting, first, second);
  }
}
