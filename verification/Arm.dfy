/** The files that arming touches, as one state; what is consistent, what arming leaves, what the initramfs build does. */
module Arming {
  import opened Text
  import opened Hooks
  import opened HookTheorems
  import opened AttemptPolicy
  import opened Unlocking
  import PamArm
  import PamTheorem
  import Verifier

  const ARMED_TEXT: string := "armed=1\n"

  /** The six files of the state directory on the ESP that `arm` snapshots, in its order. */
  const SIX: seq<string> := ["duress.hash", "config", "counter", "daily.slot", "recovery.slot", "armed"]

  /** An initramfs without the hook, one with the hook and its trusted copies, or one whose build failed. */
  datatype Image = Plain | WithHook(files: Files) | Damaged

  /** `undoing` tells that a failed `disarm` is putting things back. */
  datatype HostState = HostState(pam: string, conf: string, local: bool, esp: Files, backup: Option<string>, image: Image,
                                 undoing: bool)

  predicate Marked(pam: string) { Contains(pam, PamArm.ARM_MARKER) }

  function Taken(esp: Files): Files { map name | name in esp && name in BAKED_NAMES :: esp[name] }

  predicate AllThere(esp: Files) { forall i :: 0 <= i < |BAKED_NAMES| ==> BAKED_NAMES[i] in esp }

  /** `mkinitcpio -P` with the install script of the hook: listed, it demands the local marker and the four files. */
  function Bake(conf: string, local: bool, esp: Files): Option<Image> {
    if !HookListed(conf) then Some(Plain)
    else if local && AllThere(esp) then Some(WithHook(Taken(esp)))
    else None
  }

  /** A login stack that is armed has both markers, and an image built from the present files; the backup
      to go back to is not armed. */
  predicate Consistent(s: HostState) {
    Marked(s.pam) ==>
      && s.local && "armed" in s.esp
      && (s.undoing || Bake(s.conf, s.local, s.esp) == Some(s.image))
      && (s.backup.Some? ==> !Marked(s.backup.value))
  }

  ghost predicate AllConsistent(trail: seq<HostState>) {
    trail == [] || (Consistent(trail[|trail| - 1]) && AllConsistent(trail[..|trail| - 1]))
  }

  lemma {:induction false} ConsistentAt(trail: seq<HostState>, i: nat)
    requires AllConsistent(trail) && i < |trail|
    ensures Consistent(trail[i])
    decreases |trail|
  {
    if i < |trail| - 1 { ConsistentAt(trail[..|trail| - 1], i); }
  }

  lemma TrailGrows(trail: seq<HostState>, s: HostState)
    requires AllConsistent(trail) && Consistent(s)
    ensures AllConsistent(trail + [s])
  {
    assert (trail + [s])[..|trail|] == trail;
  }

  // ---- arm ----

  datatype StackProblem = NotArmable(error: PamArm.ArmError) | MarkersInconsistent | MarkerAlone

  /** The checks of `arm` on the login stack and the markers: nothing to do, or the stack to write. */
  function Gate(s: HostState): Result<Option<string>, StackProblem> {
    if Marked(s.pam) then
      if s.local && "armed" in s.esp then Ok(None) else Err(MarkersInconsistent)
    else if s.local || "armed" in s.esp then Err(MarkerAlone)
    else
      match PamArm.Armed(s.pam)
      case Err(e) => Err(NotArmable(e))
      case Ok(updated) => Ok(Some(updated))
  }

  /** The host as `arm` takes it to be: the test for a marker that is there may have failed. */
  predicate TakenAs(s: HostState, was: HostState) {
    && was == s.(local := was.local, esp := was.esp) && (was.local ==> s.local)
    && (was.esp == s.esp || was.esp == s.esp - {"armed"})
  }

  predicate CanArm(s: HostState) { Gate(s).Ok? && Gate(s).value.Some? && Ensured(s.conf).Ok? }

  /** `sync_esp_state` */
  function Synced(esp: Files, verifier: string, st: Start): Files {
    esp["duress.hash" := verifier]["config" := Printed(st.policy)]["counter" := NumberLine(0)]
       ["daily.slot" := NumberLine(st.daily)]["recovery.slot" := NumberLine(st.recovery)]
  }

  function ArmedFiles(esp: Files, verifier: string, st: Start): Files {
    Synced(esp, verifier, st)["armed" := ARMED_TEXT]
  }

  /** What the steps of `arm` leave when they write `updated` as the login stack. */
  function ArmedWith(s: HostState, updated: string, verifier: string, st: Start): HostState
    requires Ensured(s.conf).Ok?
  {
    s.(pam := updated, conf := Ensured(s.conf).value, local := true, esp := ArmedFiles(s.esp, verifier, st),
       backup := Some(s.pam), image := WithHook(Taken(Synced(s.esp, verifier, st))))
  }

  /** What a successful `arm` leaves. */
  function ArmedState(s: HostState, verifier: string, st: Start): HostState
    requires PamArm.Armed(s.pam).Ok? && Ensured(s.conf).Ok?
  {
    ArmedWith(s, PamArm.Armed(s.pam).value, verifier, st)
  }

  lemma ArmedSame(s: HostState, was: HostState, verifier: string, st: Start)
    requires TakenAs(s, was) && PamArm.Armed(s.pam).Ok? && Ensured(s.conf).Ok?
    ensures ArmedState(was, verifier, st) == ArmedState(s, verifier, st)
  {
    if was.esp != s.esp {
      SyncedLess(s.esp, verifier, st);
      PutAnyway(Synced(s.esp, verifier, st), "armed", ARMED_TEXT);
      TakenLess(Synced(s.esp, verifier, st));
    }
  }

  lemma SyncedLess(esp: Files, verifier: string, st: Start)
    ensures Synced(esp - {"armed"}, verifier, st) == Synced(esp, verifier, st) - {"armed"}
  {
    OtherNames("armed");
    WritesLess(esp, "armed", "duress.hash", verifier, "config", Printed(st.policy), "counter", NumberLine(0),
               "daily.slot", NumberLine(st.daily), "recovery.slot", NumberLine(st.recovery));
  }

  lemma OtherNames(a: string)
    requires a == "armed"
    ensures a != "duress.hash" && a != "config" && a != "counter" && a != "daily.slot" && a != "recovery.slot"
  {
  }

  lemma WritesLess(f: Files, a: string, n1: string, v1: string, n2: string, v2: string, n3: string, v3: string,
                   n4: string, v4: string, n5: string, v5: string)
    requires a != n1 && a != n2 && a != n3 && a != n4 && a != n5
    ensures (f - {a})[n1 := v1][n2 := v2][n3 := v3][n4 := v4][n5 := v5]
            == f[n1 := v1][n2 := v2][n3 := v3][n4 := v4][n5 := v5] - {a}
  {
    WriteLess(f, a, n1, v1);
    WriteLess(f[n1 := v1], a, n2, v2);
    WriteLess(f[n1 := v1][n2 := v2], a, n3, v3);
    WriteLess(f[n1 := v1][n2 := v2][n3 := v3], a, n4, v4);
    WriteLess(f[n1 := v1][n2 := v2][n3 := v3][n4 := v4], a, n5, v5);
  }

  lemma WriteLess(f: Files, a: string, n: string, v: string)
    requires a != n
    ensures (f - {a})[n := v] == f[n := v] - {a}
  {
  }

  lemma PutAnyway(f: Files, a: string, v: string)
    ensures (f - {a})[a := v] == f[a := v]
  {
  }

  lemma TakenLess(f: Files)
    ensures Taken(f - {"armed"}) == Taken(f)
  {
    assert "armed" !in BAKED_NAMES;
  }

  /** Everything `arm` promises to put back. */
  predicate SameFiles(s: HostState, s': HostState) {
    s'.pam == s.pam && s'.conf == s.conf && s'.local == s.local && s'.esp == s.esp
  }

  ghost predicate SameOutside(was: Files, esp: Files, left: seq<string>) {
    forall name :: name !in left ==> SameName(was, esp, name)
  }

  ghost predicate OnlySix(esp: Files, esp': Files) { SameOutside(esp, esp', SIX) }

  lemma SyncedImage(esp: Files, verifier: string, st: Start)
    ensures AllThere(Synced(esp, verifier, st)) && AllThere(ArmedFiles(esp, verifier, st))
    ensures Taken(ArmedFiles(esp, verifier, st)) == Taken(Synced(esp, verifier, st))
  {
  }

  /** Everything `arm` writes for the pre-boot tool passes its start-up checks and reads back as the
      values armed, with a count of zero. */
  lemma ArmedFilesAccepted(esp: Files, verifier: string, st: Start)
    requires Verifier.Parse(verifier) == Ok(st.verifier)
    requires Validates(st.policy) && st.daily <= 31 && st.recovery <= 31 && st.daily != st.recovery
    ensures var files := ArmedFiles(esp, verifier, st);
            && CheckStart(files, Taken(Synced(esp, verifier, st))) == Ok(st)
            && Count(files) == Some(0) && files == WithCount(files, 0)
  {
    var files := ArmedFiles(esp, verifier, st);
    ArmedReads(esp, verifier, st);
    BakedMatches(esp, verifier, st);
    Accepted(files, Taken(Synced(esp, verifier, st)), st);
    SyncedFields(esp, verifier, st);
    assert files == WithCount(files, 0);
    CountAfter(files, 0);
  }

  lemma Accepted(files: Files, baked: Files, st: Start)
    requires "armed" in files && !AnyTampered(files, baked) && ReadStart(files) == Ok(st)
    ensures CheckStart(files, baked) == Ok(st)
  {
  }

  lemma PolicyReads(p: Policy)
    requires Validates(p)
    ensures ReadPolicy(Printed(p)) == Some(p)
  {
    PrintedParses(p);
  }

  lemma ArmedReads(esp: Files, verifier: string, st: Start)
    requires ReadVerifier(verifier) == Some(st.verifier)
    requires Validates(st.policy) && st.daily <= 31 && st.recovery <= 31 && st.daily != st.recovery
    ensures ReadStart(ArmedFiles(esp, verifier, st)) == Ok(st)
  {
    PolicyReads(st.policy);
    SlotReadsBack(st.daily);
    SlotReadsBack(st.recovery);
    SyncedFields(esp, verifier, st);
    StartFrom(ArmedFiles(esp, verifier, st), verifier, Printed(st.policy), NumberLine(st.daily), NumberLine(st.recovery), st);
  }

  lemma BakedMatches(esp: Files, verifier: string, st: Start)
    ensures !AnyTampered(ArmedFiles(esp, verifier, st), Taken(Synced(esp, verifier, st)))
  {
    forall i | 0 <= i < |BAKED_NAMES|
      ensures MatchesBaked(ArmedFiles(esp, verifier, st), Taken(Synced(esp, verifier, st)), BAKED_NAMES[i])
    {
      assert BAKED_NAMES[i] != "armed";
    }
  }

  lemma StartFrom(files: Files, verifier: string, policy: string, daily: string, recovery: string, st: Start)
    requires "duress.hash" in files && files["duress.hash"] == verifier && ReadVerifier(verifier) == Some(st.verifier)
    requires "config" in files && files["config"] == policy && ReadPolicy(policy) == Some(st.policy)
    requires "daily.slot" in files && files["daily.slot"] == daily && ReadSlot(daily) == Some(st.daily)
    requires "recovery.slot" in files && files["recovery.slot"] == recovery && ReadSlot(recovery) == Some(st.recovery)
    requires Validates(st.policy) && st.daily <= 31 && st.recovery <= 31 && st.daily != st.recovery
    ensures ReadStart(files) == Ok(st)
  {
  }

  lemma SyncedFields(esp: Files, verifier: string, st: Start)
    ensures var files := ArmedFiles(esp, verifier, st);
            && "armed" in files
            && "duress.hash" in files && files["duress.hash"] == verifier
            && "config" in files && files["config"] == Printed(st.policy)
            && "counter" in files && files["counter"] == NumberLine(0)
            && "daily.slot" in files && files["daily.slot"] == NumberLine(st.daily)
            && "recovery.slot" in files && files["recovery.slot"] == NumberLine(st.recovery)
  {
  }

  // ---- disarm ----

  /** What a successful `disarm` leaves, except for the backup. */
  predicate DisarmedFrom(s: HostState, s': HostState) {
    && s'.pam == (if Marked(s.pam) && s.backup.Some? then s.backup.value else s.pam)
    && Without(s.conf) == Ok(s'.conf)
    && !s'.local && s'.esp == s.esp - {"armed"} && s'.image == Plain
  }

  /** What a failed `disarm` puts back: stack, configuration, and each marker that was there and seen. */
  predicate PutBackSeen(s: HostState, s': HostState, seenLocal: bool, seenEsp: bool) {
    && s'.pam == s.pam && s'.conf == s.conf && s'.backup == s.backup && s'.esp - {"armed"} == s.esp - {"armed"}
    && (s'.local ==> s.local) && ("armed" in s'.esp ==> "armed" in s.esp)
    && (seenLocal ==> s'.local) && (seenEsp ==> "armed" in s'.esp)
  }

  /** Every marker of the first state is there in the second. */
  predicate MarkersKept(s: HostState, s': HostState) { (s.local ==> s'.local) && ("armed" in s.esp ==> "armed" in s'.esp) }

  /** Stack, configuration, and markers are as they were. */
  predicate PutBack(s: HostState, s': HostState) {
    && s'.pam == s.pam && s'.conf == s.conf && s'.local == s.local && s'.backup == s.backup
    && ("armed" in s'.esp <==> "armed" in s.esp) && s'.esp - {"armed"} == s.esp - {"armed"}
  }

  /** A rollback that puts back the markers it saw puts back everything if and only if no other marker is missing. */
  lemma PutBackIff(s: HostState, s': HostState, seenLocal: bool, seenEsp: bool)
    requires PutBackSeen(s, s', seenLocal, seenEsp)
    ensures PutBack(s, s') <==> MarkersKept(s, s')
  {
  }

  // ---- arm, then disarm ----

  /** The stack, the configuration, and both markers are as they were. */
  predicate Unarmed(s: HostState, u: HostState) {
    u.pam == s.pam && u.conf == s.conf && u.local == s.local && ("armed" in u.esp <==> "armed" in s.esp)
  }

  /** Disarming what arming left gives back the login stack byte for byte; the configuration comes back
      exactly when the first `encrypt` of every HOOKS line starts a token, and otherwise disarming fails. */
  lemma ArmThenDisarm(s: HostState, verifier: string, st: Start)
    requires CanArm(s)
    requires LfText(s.conf) && NoDeath(s.conf)
    ensures var t := ArmedState(s, verifier, st);
            && Marked(t.pam) && Consistent(t)
            && (Without(t.conf).Ok? <==> EncryptStartsTokens(s.conf))
            && forall u :: DisarmedFrom(t, u) ==> Unarmed(s, u)
  {
    FileRoundTrip(s.conf);
    ArmedConsistent(s, verifier, st);
    StackComesBack(s, ArmedState(s, verifier, st));
  }

  lemma StackComesBack(s: HostState, t: HostState)
    requires Marked(t.pam) && t.backup == Some(s.pam) && !s.local && "armed" !in s.esp
    requires Without(t.conf).Ok? ==> Without(t.conf).value == s.conf
    ensures forall u :: DisarmedFrom(t, u) ==> Unarmed(s, u)
  {
  }

  lemma ArmedWithConsistent(s: HostState, updated: string, verifier: string, st: Start)
    requires Ensured(s.conf).Ok? && !Marked(s.pam)
    ensures var t := ArmedWith(s, updated, verifier, st); Consistent(t) && Bake(t.conf, t.local, t.esp) == Some(t.image)
  {
    EnsuredNamesHook(s.conf);
    SyncedImage(s.esp, verifier, st);
  }

  lemma ArmedConsistent(s: HostState, verifier: string, st: Start)
    requires PamArm.Armed(s.pam).Ok? && Ensured(s.conf).Ok?
    ensures var t := ArmedState(s, verifier, st);
            Marked(t.pam) && !Marked(s.pam) && Consistent(t) && Bake(t.conf, t.local, t.esp) == Some(t.image)
  {
    PamTheorem.ArmedIsMarked(s.pam);
    ArmedWithConsistent(s, PamArm.Armed(s.pam).value, verifier, st);
  }
}
