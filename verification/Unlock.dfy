/** The pre-boot unlock manager over many boots: start-up checks, and the machine as a relation. */
module Unlocking {
  import opened Text
  import opened Journaling
  import opened Erasing
  import opened AttemptPolicy
  import Runs
  import Verifier

  /** The files of the state directory on the ESP, by name; also the copies baked into the initramfs. */
  type Files = map<string, string>

  const BAKED_NAMES: seq<string> := ["duress.hash", "config", "daily.slot", "recovery.slot"]

  // ---- start-up checks ----

  datatype Start = Start(policy: Policy, verifier: Verifier.DuressHash, daily: nat, recovery: nat)

  datatype StartError = MarkerMissing | Tampered | PolicyInvalid | VerifierInvalid | SlotInvalid | SlotsEqual

  /** `verify_against_baked` for one file: a missing baked copy is skipped. */
  predicate MatchesBaked(files: Files, baked: Files, name: string) {
    name in baked ==> name in files && Trim(baked[name]) == Trim(files[name])
  }

  function Field<T>(files: Files, name: string, read: string -> Option<T>): Option<T> {
    if name in files then read(files[name]) else None
  }

  function ReadPolicy(text: string): Option<Policy> {
    match Parsed(text)
    case Ok(p) => Some(p)
    case Err(_) => None
  }

  function ReadVerifier(text: string): Option<Verifier.DuressHash> {
    match Verifier.Parse(text)
    case Ok(h) => Some(h)
    case Err(_) => None
  }

  predicate AnyTampered(files: Files, baked: Files) {
    exists i :: 0 <= i < |BAKED_NAMES| && !MatchesBaked(files, baked, BAKED_NAMES[i])
  }

  function ReadStart(files: Files): (r: Result<Start, StartError>)
    ensures r.Ok? ==> Validates(r.value.policy) && r.value.daily != r.value.recovery
                      && r.value.daily <= 31 && r.value.recovery <= 31
  {
    var policy := Field(files, "config", ReadPolicy);
    var verifier := Field(files, "duress.hash", ReadVerifier);
    var daily, recovery := Field(files, "daily.slot", ReadSlot), Field(files, "recovery.slot", ReadSlot);
    if policy.None? || !Validates(policy.value) then Err(PolicyInvalid)
    else if verifier.None? then Err(VerifierInvalid)
    else if daily.None? || recovery.None? || daily.value > 31 || recovery.value > 31 then Err(SlotInvalid)
    else if daily.value == recovery.value then Err(SlotsEqual)
    else Ok(Start(policy.value, verifier.value, daily.value, recovery.value))
  }

  /** The checks `run` makes before it looks at the journal. */
  function CheckStart(files: Files, baked: Files): (r: Result<Start, StartError>)
    ensures r.Ok? ==> Validates(r.value.policy) && r.value.daily != r.value.recovery
                      && r.value.daily <= 31 && r.value.recovery <= 31
  {
    if "armed" !in files then Err(MarkerMissing)
    else if AnyTampered(files, baked) then Err(Tampered)
    else ReadStart(files)
  }

  /** The file on the ESP is missing, or its text is not that of the copy in the initramfs. */
  predicate Altered(files: Files, baked: Files, name: string) {
    name in baked && (name !in files || Trim(files[name]) != Trim(baked[name]))
  }

  /** The records the checks deliver. */
  predicate Delivers(files: Files, st: Start) {
    && "config" in files && Parsed(files["config"]) == Ok(st.policy)
    && "duress.hash" in files && Verifier.Parse(files["duress.hash"]) == Ok(st.verifier)
    && "daily.slot" in files && ParseUnsigned(Trim(files["daily.slot"]), U8) == Some(st.daily) && st.daily < 32
    && "recovery.slot" in files && ParseUnsigned(Trim(files["recovery.slot"]), U8) == Some(st.recovery) && st.recovery < 32
  }

  lemma TamperedIff(files: Files, baked: Files)
    ensures AnyTampered(files, baked) <==>
              || Altered(files, baked, "duress.hash") || Altered(files, baked, "config")
              || Altered(files, baked, "daily.slot") || Altered(files, baked, "recovery.slot")
  {
    assert BAKED_NAMES[0] == "duress.hash" && BAKED_NAMES[1] == "config";
    assert BAKED_NAMES[2] == "daily.slot" && BAKED_NAMES[3] == "recovery.slot";
    assert !MatchesBaked(files, baked, BAKED_NAMES[0]) <==> Altered(files, baked, "duress.hash");
    assert !MatchesBaked(files, baked, BAKED_NAMES[1]) <==> Altered(files, baked, "config");
    assert !MatchesBaked(files, baked, BAKED_NAMES[2]) <==> Altered(files, baked, "daily.slot");
    assert !MatchesBaked(files, baked, BAKED_NAMES[3]) <==> Altered(files, baked, "recovery.slot");
  }

  lemma RecordsIff(files: Files, st: Start)
    ensures ReadStart(files) == Ok(st) <==> Delivers(files, st) && st.daily != st.recovery
  {
    var policy, verifier := Field(files, "config", ReadPolicy), Field(files, "duress.hash", ReadVerifier);
    assert policy == Some(st.policy) <==> "config" in files && Parsed(files["config"]) == Ok(st.policy);
    assert policy == Some(st.policy) ==> Validates(st.policy);
    assert verifier == Some(st.verifier) <==> "duress.hash" in files && Verifier.Parse(files["duress.hash"]) == Ok(st.verifier);
    var daily, recovery := Field(files, "daily.slot", ReadSlot), Field(files, "recovery.slot", ReadSlot);
    assert (daily == Some(st.daily) && st.daily < 32) <==>
             "daily.slot" in files && ParseUnsigned(Trim(files["daily.slot"]), U8) == Some(st.daily) && st.daily < 32;
    assert (recovery == Some(st.recovery) && st.recovery < 32) <==>
             "recovery.slot" in files && ParseUnsigned(Trim(files["recovery.slot"]), U8) == Some(st.recovery) && st.recovery < 32;
  }

  /** The checks pass, with the values in the files, if and only if the marker is there, none of the four files with a copy in the
      initramfs is missing or altered, the four are readable, and the two slots differ. */
  lemma CheckStartIff(files: Files, baked: Files, st: Start)
    ensures CheckStart(files, baked) == Ok(st) <==>
              && "armed" in files
              && !Altered(files, baked, "duress.hash") && !Altered(files, baked, "config")
              && !Altered(files, baked, "daily.slot") && !Altered(files, baked, "recovery.slot")
              && Delivers(files, st) && st.daily != st.recovery
  {
    TamperedIff(files, baked);
    RecordsIff(files, st);
  }

  /** An altered file is reported as such, whatever the others hold. */
  lemma AlteredRefused(files: Files, baked: Files, name: string)
    requires name in {"duress.hash", "config", "daily.slot", "recovery.slot"} && Altered(files, baked, name) && "armed" in files
    ensures CheckStart(files, baked) == Err(Tampered)
  {
    TamperedIff(files, baked);
  }

  function Count(files: Files): Option<nat> { Field(files, "counter", ReadCount) }

  function WithCount(files: Files, n: nat): Files { files["counter" := NumberLine(n)] }

  predicate SameName(files: Files, g: Files, name: string) {
    (name in g <==> name in files) && (name in files ==> g[name] == files[name])
  }

  lemma FieldSame<T>(files: Files, g: Files, name: string, read: string -> Option<T>)
    requires SameName(files, g, name)
    ensures Field(g, name, read) == Field(files, name, read)
  {
  }

  /** The start-up checks do not depend on the counter. */
  lemma CheckStartSame(files: Files, g: Files, baked: Files)
    requires SameConfig(files, g)
    ensures CheckStart(g, baked) == CheckStart(files, baked)
  {
    assert SameName(files, g, "armed");
    FieldSame(files, g, "config", ReadPolicy);
    FieldSame(files, g, "duress.hash", ReadVerifier);
    FieldSame(files, g, "daily.slot", ReadSlot);
    FieldSame(files, g, "recovery.slot", ReadSlot);
    forall i | 0 <= i < |BAKED_NAMES|
      ensures MatchesBaked(g, baked, BAKED_NAMES[i]) == MatchesBaked(files, baked, BAKED_NAMES[i])
    {
      assert BAKED_NAMES[i] != "counter";
      assert SameName(files, g, BAKED_NAMES[i]);
    }
  }

  lemma CountAfter(files: Files, n: nat)
    requires n < U32
    ensures Count(WithCount(files, n)) == Some(n)
  {
    CountReadsBack(n);
  }

  /** Two directories that agree on everything but the counter. */
  ghost predicate SameConfig(files: Files, g: Files) {
    forall name :: name != "counter" ==> SameName(files, g, name)
  }

  lemma WithCountTwice(files: Files, n: nat, k: nat)
    ensures WithCount(WithCount(files, n), k) == WithCount(files, k)
  {
  }

  // ---- one boot at the prompt ----

  /** How a boot in which no effect fails answers the codes typed: a slot opens at a prompt, the trigger is
      pulled at a prompt, or the prompts run out. */
  datatype Reaction = Opens(prompt: nat) | Triggers(prompt: nat) | RunsOut

  /** The codes typed at prompts `i`, `i + 1`, and so on, with a stored count. */
  function Session(st: Start, kdf: Verifier.Kdf, slots: map<nat, Secret>, typed: nat -> string, i: nat, count: nat): Reaction
    decreases st.policy.maxPrompts - i
  {
    if i >= st.policy.maxPrompts then RunsOut
    else if Verifier.Verifies(kdf, st.verifier, typed(i)) then Triggers(i + 1)
    else if Matching(slots, typed(i)) != {} then Opens(i + 1)
    else if SaturatingInc(count) >= st.policy.wipeAt then Triggers(i + 1)
    else Session(st, kdf, slots, typed, i + 1, SaturatingInc(count))
  }

  /** Under any policy that validates the prompts never run out, whatever the stored count and the codes. */
  lemma {:induction false} NeverRunsOut(st: Start, kdf: Verifier.Kdf, slots: map<nat, Secret>,
                                        typed: nat -> string, i: nat, count: nat)
    requires Validates(st.policy) && i <= count && i < st.policy.maxPrompts
    ensures !Session(st, kdf, slots, typed, i, count).RunsOut?
    decreases st.policy.maxPrompts - i
  {
    if SaturatingInc(count) < st.policy.wipeAt { NeverRunsOut(st, kdf, slots, typed, i + 1, SaturatingInc(count)); }
  }

  /** Neither the duress code nor the secret of a slot. */
  predicate Wrong(st: Start, kdf: Verifier.Kdf, slots: map<nat, Secret>, code: string) {
    !Verifier.Verifies(kdf, st.verifier, code) && Matching(slots, code) == {}
  }

  /** A slot opens at prompt `p` exactly when the code there opens one and is not the duress code, all codes
      before it were wrong, and the count stayed below the threshold. */
  lemma {:induction false} OpensIff(st: Start, kdf: Verifier.Kdf, slots: map<nat, Secret>,
                                    typed: nat -> string, i: nat, count: nat, p: nat)
    requires Validates(st.policy) && count < st.policy.wipeAt && i < p
    ensures Session(st, kdf, slots, typed, i, count) == Opens(p) <==>
              && p <= st.policy.maxPrompts && count + (p - 1 - i) < st.policy.wipeAt
              && (forall k :: i <= k < p - 1 ==> Wrong(st, kdf, slots, typed(k)))
              && !Verifier.Verifies(kdf, st.verifier, typed(p - 1)) && Matching(slots, typed(p - 1)) != {}
    decreases p - i
  {
    if i < st.policy.maxPrompts && i + 1 < p {
      if Wrong(st, kdf, slots, typed(i)) && count + 1 < st.policy.wipeAt {
        OpensIff(st, kdf, slots, typed, i + 1, count + 1, p);
      }
    } else if i + 1 == p {
      OpensLater(st, kdf, slots, typed, p, SaturatingInc(count));
    }
  }

  /** The trigger is pulled at prompt `p` exactly when the code there is the duress code, or is wrong and brings the count to the
      threshold, and all codes before it were wrong. */
  lemma {:induction false} TriggersIff(st: Start, kdf: Verifier.Kdf, slots: map<nat, Secret>,
                                       typed: nat -> string, i: nat, count: nat, p: nat)
    requires Validates(st.policy) && count < st.policy.wipeAt && i < p
    ensures Session(st, kdf, slots, typed, i, count) == Triggers(p) <==>
              && p <= st.policy.maxPrompts && count + (p - 1 - i) < st.policy.wipeAt
              && (forall k :: i <= k < p - 1 ==> Wrong(st, kdf, slots, typed(k)))
              && (|| Verifier.Verifies(kdf, st.verifier, typed(p - 1))
                  || (Matching(slots, typed(p - 1)) == {} && count + (p - i) >= st.policy.wipeAt))
    decreases p - i
  {
    if i < st.policy.maxPrompts && i + 1 < p {
      if Wrong(st, kdf, slots, typed(i)) && count + 1 < st.policy.wipeAt {
        TriggersIff(st, kdf, slots, typed, i + 1, count + 1, p);
      }
    } else if i + 1 == p {
      OpensLater(st, kdf, slots, typed, p, SaturatingInc(count));
    }
  }

  lemma {:induction false} OpensLater(st: Start, kdf: Verifier.Kdf, slots: map<nat, Secret>,
                                      typed: nat -> string, i: nat, count: nat)
    ensures var r := Session(st, kdf, slots, typed, i, count); r.RunsOut? || r.prompt > i
    decreases st.policy.maxPrompts - i
  {
    if i < st.policy.maxPrompts { OpensLater(st, kdf, slots, typed, i + 1, SaturatingInc(count)); }
  }

  // ---- the machine over boots ----

  /** An armed machine: where scan roots lie, the state directory, what the start-up checks deliver from
      it, the baked copies. */
  datatype Armed = Armed(at: Locator, files: Files, start: Start, baked: Files)

  function TheJob(a: Armed): Job { KillJob(a.start.daily, a.start.recovery) }

  /** Off, or halted, or running the eraser; waiting at the prompt; a wrong guess not yet counted; a slot opened. */
  datatype Stage = Off | Prompting | Guessed | Opened(slot: nat)

  /** `count`: the number in the counter file; `wrong`: wrong guesses since the counter was last reset;
      `lost`: boots interrupted between a wrong guess and its completed count. */
  datatype Sys = Sys(disk: Disk, files: Files, count: nat, stage: Stage, wrong: nat, lost: nat)

  ghost predicate Txn(a: Armed, s: Sys, s': Sys) {
    s.stage == Off && Step(a.at, s.disk, s'.disk) && DoesJob(s'.disk, TheJob(a)) && s' == s.(disk := s'.disk)
  }

  /** With no journal seen. */
  predicate Prompt(a: Armed, s: Sys, s': Sys) {
    s.stage == Off && s.count < a.start.policy.wipeAt && s' == s.(stage := Prompting)
  }

  /** The boot took a pending journal for absent: the test for the file failed. */
  predicate Overlooks(s: Sys, s': Sys) { s.stage == Off && s'.stage == Prompting && s.disk.journal.Some? }

  predicate WrongGuess(s: Sys, s': Sys) {
    s.stage == Prompting && s' == s.(stage := Guessed, wrong := s.wrong + 1)
  }

  function Counted(s: Sys, n: nat): Sys { s.(files := WithCount(s.files, n), count := n) }

  predicate Bump(a: Armed, s: Sys, s': Sys) {
    var n := SaturatingInc(s.count);
    s.stage == Guessed && s' == Counted(s, n).(stage := if n >= a.start.policy.wipeAt then Off else Prompting)
  }

  /** The boot ends between the wrong guess and the completed count; the file is the old or the new one. */
  predicate LoseGuess(s: Sys, s': Sys) {
    && s.stage == Guessed
    && var t := s.(stage := Off, lost := s.lost + 1);
    s' == t || s' == Counted(t, SaturatingInc(s.count))
  }

  predicate Leave(s: Sys, s': Sys) {
    (s.stage == Prompting || s.stage.Opened?) && s' == s.(stage := Off)
  }

  predicate Open(s: Sys, s': Sys) {
    s.stage == Prompting && s'.stage.Opened? && s'.stage.slot in s.disk.slots && s' == s.(stage := s'.stage)
  }

  predicate ResetCount(s: Sys, s': Sys) {
    s.stage.Opened? && s' == Counted(s, 0).(stage := Off, wrong := 0, lost := 0)
  }

  ghost predicate SysStep(a: Armed, s: Sys, s': Sys) {
    || s' == s || Txn(a, s, s') || Prompt(a, s, s') || WrongGuess(s, s') || Bump(a, s, s') || LoseGuess(s, s')
    || Leave(s, s') || Open(s, s') || ResetCount(s, s')
  }

  ghost predicate Good(a: Armed, s: Sys) {
    && Sound(s.disk) && DoesJob(s.disk, TheJob(a))
    && s.files == WithCount(a.files, s.count) && s.count < U32
    && (s.stage != Off ==> s.count < a.start.policy.wipeAt)
    && s.wrong <= s.count + s.lost + (if s.stage == Guessed then 1 else 0)
  }

  lemma DiskStep(a: Armed, s: Sys, s': Sys)
    requires SysStep(a, s, s')
    ensures s'.disk == s.disk || (Step(a.at, s.disk, s'.disk) && DoesJob(s'.disk, TheJob(a)))
  {
  }

  ghost function Next(a: Armed): (Sys, Sys) -> bool { (s, s') => SysStep(a, s, s') }

  /** Any sequence of boots, guesses, cuts, failures, and resumes. */
  ghost predicate SysRun(a: Armed, run: seq<Sys>) {
    Runs.IsRun(Next(a), run) && Good(a, run[0]) && Validates(a.start.policy)
  }

  lemma StepGood(a: Armed, s: Sys, s': Sys)
    requires Good(a, s) && SysStep(a, s, s')
    requires Validates(a.start.policy)
    ensures Good(a, s')
  {
    WithCountTwice(a.files, s.count, 0);
    WithCountTwice(a.files, s.count, SaturatingInc(s.count));
    if Txn(a, s, s') { StepSound(a.at, s.disk, s'.disk); }
  }

  lemma RunGood(a: Armed, run: seq<Sys>, k: nat)
    requires SysRun(a, run) && k < |run|
    ensures Good(a, run[k])
  {
    var inv := (s: Sys) => Good(a, s);
    forall s, s' | inv(s) && Next(a)(s, s') ensures inv(s') { StepGood(a, s, s'); }
    Runs.Holds(Next(a), inv, run, 0, k);
  }

  /** A durable step of the eraser, with the machine off, extends a run. */
  lemma TxnExtends(a: Armed, run: seq<Sys>, d: Disk)
    requires run != [] && SysRun(a, run) && Good(a, run[|run| - 1])
    requires run[|run| - 1].stage == Off && Step(a.at, run[|run| - 1].disk, d) && DoesJob(d, TheJob(a))
    ensures var longer := run + [run[|run| - 1].(disk := d)];
            SysRun(a, longer) && Good(a, longer[|run|]) && longer[0] == run[0]
  {
    var s := run[|run| - 1];
    var s' := s.(disk := d);
    assert Txn(a, s, s');
    StepGood(a, s, s');
    Runs.Extend(Next(a), run, s');
  }

  // ---- properties of every run ----

  /** The step that began the boot a state belongs to. Nothing durable but the counter changes within a boot. */
  lemma {:induction false} BootOf(a: Armed, run: seq<Sys>, i: nat, k: nat) returns (p: nat)
    requires SysRun(a, run) && i <= k < |run| && run[i].stage == Off && run[k].stage != Off
    ensures i <= p < k && run[p].stage == Off && run[p + 1].stage == Prompting && run[p].disk == run[k].disk
    decreases k
  {
    Runs.StepAt(Next(a), run, k - 1);
    if run[k - 1].stage == Off { p := k - 1; } else { p := BootOf(a, run, i, k - 1); }
  }

  /** At every prompt, in a run that starts with the machine off, the durable counter is below the wipe threshold, and no
      transaction is pending if and only if the boot did not overlook one. */
  lemma PromptsBelowLimit(a: Armed, run: seq<Sys>, k: nat) returns (p: nat)
    requires SysRun(a, run) && k < |run| && run[0].stage == Off && run[k].stage == Prompting
    ensures p < k && run[p].stage == Off && run[p + 1].stage == Prompting
    ensures run[k].disk.journal.None? <==> !Overlooks(run[p], run[p + 1])
    ensures Count(run[k].files) == Some(run[k].count) && run[k].count < a.start.policy.wipeAt
  {
    RunGood(a, run, k);
    CountAfter(a.files, run[k].count);
    p := BootOf(a, run, 0, k);
  }

  /** Wrong guesses since the last reset never exceed the durable counter by more than one for each boot
      that was interrupted before its count completed, and one for a guess just made. */
  lemma GuessesAreCounted(a: Armed, run: seq<Sys>, k: nat)
    requires SysRun(a, run) && k < |run|
    ensures Count(run[k].files) == Some(run[k].count)
    ensures run[k].wrong <= run[k].count + run[k].lost + (if run[k].stage == Guessed then 1 else 0)
  {
    RunGood(a, run, k);
    CountAfter(a.files, run[k].count);
  }

  /** Every start-up check keeps passing, with the armed values, and the counter stays readable. */
  lemma ChecksKeepPassing(a: Armed, run: seq<Sys>, k: nat)
    requires SysRun(a, run) && k < |run| && CheckStart(a.files, a.baked) == Ok(a.start)
    ensures CheckStart(run[k].files, a.baked) == Ok(a.start) && Count(run[k].files).Some?
  {
    RunGood(a, run, k);
    CountAfter(a.files, run[k].count);
    CheckStartSame(a.files, run[k].files, a.baked);
  }

  /** A journal is there, or the daily slot is gone. */
  predicate Disarmed(a: Armed, s: Sys) {
    s.disk.journal.Some? || a.start.daily !in s.disk.slots
  }

  lemma DisarmedStays(a: Armed, s: Sys, s': Sys)
    requires Good(a, s) && Disarmed(a, s) && SysStep(a, s, s')
    ensures Disarmed(a, s')
  {
    DiskStep(a, s, s');
    if s'.disk != s.disk {
      StepRefines(a.at, s.disk, s'.disk, a.start.daily, a.start.recovery);
      StepAdvances(a.at, s.disk, s'.disk);
    }
  }

  /** Once a killslot journal is durable, at every later state one is there or the daily slot is gone. */
  lemma StaysDisarmed(a: Armed, run: seq<Sys>, i: nat, k: nat)
    requires SysRun(a, run) && i <= k < |run| && run[i].disk.journal.Some?
    ensures Disarmed(a, run[k])
  {
    var inv := (s: Sys) => Good(a, s) && Disarmed(a, s);
    forall s, s' | inv(s) && Next(a)(s, s')
      ensures inv(s')
    {
      StepGood(a, s, s');
      DisarmedStays(a, s, s');
    }
    RunGood(a, run, i);
    Runs.Holds(Next(a), inv, run, i, k);
  }

  /** The machine is up, and the daily slot could be opened. */
  predicate DailyOffered(a: Armed, s: Sys) { s.stage != Off && a.start.daily in s.disk.slots }

  /** A boot overlooks a pending journal while the daily slot is still active. */
  predicate OverlooksDaily(a: Armed, s: Sys, s': Sys) { Overlooks(s, s') && a.start.daily in s.disk.slots }

  ghost predicate SomeBootOverlooks(a: Armed, run: seq<Sys>, i: nat, k: nat)
    requires k < |run|
  {
    exists m :: i <= m < k && OverlooksDaily(a, run[m], run[m + 1])
  }

  /** Once a trigger's journal is durable, the daily slot is never offered for opening again, over every later mix of boots,
      cuts, failures, and resumes, if and only if no boot overlooks the pending journal while the slot is active. */
  lemma DailyNeverOpensAgain(a: Armed, run: seq<Sys>, i: nat, k: nat)
    requires SysRun(a, run) && i <= k < |run| && run[i].disk.journal.Some? && run[i].stage == Off
    ensures (forall m :: i <= m <= k ==> !DailyOffered(a, run[m])) <==> !SomeBootOverlooks(a, run, i, k)
  {
    forall m | i <= m <= k && DailyOffered(a, run[m])
      ensures SomeBootOverlooks(a, run, i, k)
    {
      var p := BootOf(a, run, i, m);
      StaysDisarmed(a, run, i, p);
      assert OverlooksDaily(a, run[p], run[p + 1]);
    }
    if SomeBootOverlooks(a, run, i, k) {
      var m :| i <= m < k && OverlooksDaily(a, run[m], run[m + 1]);
      Runs.StepAt(Next(a), run, m);
      assert DailyOffered(a, run[m + 1]);
    }
  }

  /** Such a boot is possible on every armed machine with a pending journal and a count below the threshold, and the daily
      slot opens. */
  lemma OverlookedThenOpened(a: Armed, s: Sys) returns (run: seq<Sys>)
    requires Good(a, s) && Validates(a.start.policy) && s.stage == Off && s.disk.journal.Some?
    requires s.count < a.start.policy.wipeAt && a.start.daily in s.disk.slots
    ensures SysRun(a, run) && |run| == 3 && run[0] == s && SomeBootOverlooks(a, run, 0, 2)
    ensures run[2] == s.(stage := Opened(a.start.daily))
  {
    var up := s.(stage := Prompting);
    var open := s.(stage := Opened(a.start.daily));
    assert Prompt(a, s, up) && Open(up, open);
    run := [s];
    Runs.Extend(Next(a), run, up);
    Runs.Extend(Next(a), run + [up], open);
    run := run + [up] + [open];
    assert OverlooksDaily(a, run[0], run[1]);
  }

  /** A slot is opened only from a prompt, and it is one that was active there. */
  lemma OpensActiveSlot(a: Armed, run: seq<Sys>, k: nat)
    requires SysRun(a, run) && 0 < k < |run| && run[k].stage.Opened? && run[k].stage != run[k - 1].stage
    ensures run[k - 1].stage == Prompting && run[k].stage.slot in run[k - 1].disk.slots
  {
    Runs.StepAt(Next(a), run, k - 1);
    OpenStep(a, run[k - 1], run[k]);
  }

  lemma OpenStep(a: Armed, s: Sys, s': Sys)
    requires SysStep(a, s, s') && s'.stage.Opened? && s'.stage != s.stage
    ensures s.stage == Prompting && s'.stage.slot in s.disk.slots
  {
  }

  /** Once the counter has reached the threshold, no prompt is ever offered again on this machine. */
  lemma NoPromptPastLimit(a: Armed, run: seq<Sys>, i: nat, k: nat)
    requires SysRun(a, run) && i <= k < |run| && run[i].count >= a.start.policy.wipeAt
    ensures run[k].stage == Off && run[k].count == run[i].count
  {
    var count := run[i].count;
    var inv := (s: Sys) => s.stage == Off && s.count == count && count >= a.start.policy.wipeAt;
    RunGood(a, run, i);
    Runs.Holds(Next(a), inv, run, i, k);
  }

  /** The key slots are those of the start, or those without the daily slot. */
  predicate SlotsFrom(a: Armed, slots: map<nat, Secret>, s: Sys) {
    s.disk.slots == slots || AtomicKill(slots, s.disk.slots, a.start.daily, a.start.recovery)
  }

  /** Over every run of the armed machine the recovery slot and all others but the daily one keep their
      secrets, and the daily one is removed at most, while the recovery slot is there. */
  lemma SlotsOverBoots(a: Armed, run: seq<Sys>, k: nat)
    requires SysRun(a, run) && k < |run|
    ensures SlotsFrom(a, run[0].disk.slots, run[k])
  {
    var slots := run[0].disk.slots;
    var inv := (s: Sys) => Good(a, s) && SlotsFrom(a, slots, s);
    forall s, s' | inv(s) && Next(a)(s, s')
      ensures inv(s')
    {
      StepGood(a, s, s');
      DiskStep(a, s, s');
      if s'.disk != s.disk { StepRefines(a.at, s.disk, s'.disk, a.start.daily, a.start.recovery); }
    }
    Runs.Holds(Next(a), inv, run, 0, k);
  }
}
