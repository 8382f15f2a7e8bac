/** How `arm` ends, in terms of what is on the host, and when the initramfs can be built. */
module ArmCases {
  import opened Text
  import opened Hooks
  import opened HookTheorems
  import opened HookCases
  import opened Erasing
  import opened Unlocking
  import opened Enrolling
  import opened AuditCases
  import opened Arming
  import opened ArmActor
  import PamArm

  /** The stack carries the marker of `arm`. */
  predicate StackArmed(s: HostState) { Contains(s.pam, "deathstr0ke-arm") }

  predicate BothMarkers(s: HostState) { s.local && "armed" in s.esp }

  predicate NoMarkers(s: HostState) { !s.local && "armed" !in s.esp }

  /** What the checks on stack and markers say, case by case. */
  lemma GateIff(s: HostState, updated: string, e: PamArm.ArmError)
    ensures Gate(s) == Ok(None) <==> StackArmed(s) && BothMarkers(s)
    ensures Gate(s) == Err(MarkersInconsistent) <==> StackArmed(s) && !BothMarkers(s)
    ensures Gate(s) == Err(MarkerAlone) <==> !StackArmed(s) && !NoMarkers(s)
    ensures Gate(s) == Ok(Some(updated)) <==> !StackArmed(s) && NoMarkers(s) && PamArm.Armed(s.pam) == Ok(updated)
    ensures Gate(s) == Err(NotArmable(e)) <==> !StackArmed(s) && NoMarkers(s) && PamArm.Armed(s.pam) == Err(e)
  {
  }

  // ---- the image ----

  /** Some HOOKS line names the hook. */
  ghost predicate NamesHook(conf: string) {
    exists i :: 0 <= i < |Lines(conf)| && Listing(Lines(conf)[i]) && Contains(Lines(conf)[i], "deathstroke")
  }

  lemma NamesHookIff(conf: string)
    ensures HookListed(conf) <==> NamesHook(conf)
  {
    var ls := Lines(conf);
    forall i | 0 <= i < |ls| ensures Listing(ls[i]) <==> IsHooks(ls[i]) { ListingIff(ls[i]); }
    if HookListed(conf) {
      var i :| 0 <= i < |ls| && IsHooks(ls[i]) && Contains(ls[i], DEATH);
      assert Listing(ls[i]);
    }
    if NamesHook(conf) {
      var i :| 0 <= i < |ls| && Listing(ls[i]) && Contains(ls[i], "deathstroke");
      assert IsHooks(ls[i]);
    }
  }

  predicate FourThere(esp: Files) {
    "duress.hash" in esp && "config" in esp && "daily.slot" in esp && "recovery.slot" in esp
  }

  /** The image holds just these four files as they are. */
  ghost predicate Copies(files: Files, esp: Files) {
    forall name :: (name in files <==> name in {"duress.hash", "config", "daily.slot", "recovery.slot"})
                   && (name in files && name in esp ==> files[name] == esp[name])
  }

  lemma FourIff(esp: Files)
    ensures AllThere(esp) <==> FourThere(esp)
    ensures FourThere(esp) ==> Copies(Taken(esp), esp)
  {
    assert BAKED_NAMES[0] == "duress.hash" && BAKED_NAMES[1] == "config";
    assert BAKED_NAMES[2] == "daily.slot" && BAKED_NAMES[3] == "recovery.slot";
  }

  /** Without the hook the image can always be built, and is plain; with it, if and only if the local marker and the four files
      are there, and then it holds copies of these. */
  lemma BakeIff(conf: string, local: bool, esp: Files)
    ensures !NamesHook(conf) ==> Bake(conf, local, esp) == Some(Plain)
    ensures NamesHook(conf) ==> (Bake(conf, local, esp).Some? <==> local && FourThere(esp))
    ensures NamesHook(conf) && Bake(conf, local, esp).Some? ==>
              Bake(conf, local, esp).value.WithHook? && Copies(Bake(conf, local, esp).value.files, esp)
  {
    NamesHookIff(conf);
    FourIff(esp);
  }

  // ---- the end of `arm` ----

  /** Records and slots are in order. */
  predicate InOrder(files: Files, slots: map<nat, Secret>, st: Start) {
    && OnFile(files, st) && st.daily != st.recovery && st.daily in slots && st.recovery in slots
    && forall k :: k in slots ==> k in Known(files) || k == st.daily || k == st.recovery
  }

  /** The transaction begins. */
  predicate Begins(s: HostState) { !StackArmed(s) && NoMarkers(s) && PamArm.Armed(s.pam).Ok? }

  /** Every HOOKS line takes the hook, and there is one. */
  ghost predicate TakesHook(conf: string) { SomeListing(Lines(conf)) && AllInsertable(Lines(conf)) }

  lemma AttemptIff(s: HostState, st: Start)
    requires NoMarkers(s)
    ensures Attempt(s, st) == if TakesHook(s.conf) then ArmDone(st) else if NamesHook(s.conf) then ArmIncomplete else RolledBack
  {
    EnsuredIff(s.conf);
    BakeIff(s.conf, s.local, s.esp);
  }

  lemma StackVerdictIff(s: HostState, st: Start)
    ensures var r := StackVerdict(s, st);
            && (r == ArmDone(st) <==> Begins(s) && TakesHook(s.conf))
            && (r == RolledBack <==> Begins(s) && !TakesHook(s.conf) && !NamesHook(s.conf))
            && (r == ArmIncomplete <==> Begins(s) && !TakesHook(s.conf) && NamesHook(s.conf))
            && (r == ArmResult.AlreadyArmed <==> StackArmed(s) && BothMarkers(s))
            && !r.RecordsRefused? && (r.ArmDone? ==> r.start == st)
  {
    var armed := PamArm.Armed(s.pam);
    GateIff(s, if armed.Ok? then armed.value else "", if armed.Err? then armed.error else PamArm.BadOrder);
    if NoMarkers(s) { AttemptIff(s, st); }
  }

  /** Every ending of an `arm` in which nothing fails: done if and only if records and slots are in order, the stack can be armed,
      no marker is there, and every HOOKS line takes the hook; rolled back if only the last of these fails and none names the hook,
      incomplete if one does. */
  lemma VerdictIff(files: Files, slots: map<nat, Secret>, s: HostState, st: Start)
    ensures Verdict(files, slots, s) == ArmDone(st) <==> InOrder(files, slots, st) && Begins(s) && TakesHook(s.conf)
    ensures InOrder(files, slots, st) ==>
              && (Verdict(files, slots, s) == RolledBack <==> Begins(s) && !TakesHook(s.conf) && !NamesHook(s.conf))
              && (Verdict(files, slots, s) == ArmIncomplete <==> Begins(s) && !TakesHook(s.conf) && NamesHook(s.conf))
              && (Verdict(files, slots, s) == ArmResult.AlreadyArmed <==> StackArmed(s) && BothMarkers(s))
    ensures Verdict(files, slots, s).RecordsRefused? <==> Audited(files, slots, Known(files)).Err?
  {
    AuditedIff(files, slots, Known(files), st);
    StackVerdictIff(s, st);
    var audited := Audited(files, slots, Known(files));
    if audited.Ok? && audited.value != st { StackVerdictIff(s, audited.value); }
    if audited.Ok? { StackVerdictIff(s, audited.value); }
  }

  /** Everything is in place for `arm`. */
  ghost predicate Armable(files: Files, slots: map<nat, Secret>, s: HostState, st: Start) {
    InOrder(files, slots, st) && Begins(s) && TakesHook(s.conf)
  }

  lemma ArmableIff(files: Files, slots: map<nat, Secret>, s: HostState, st: Start, r: ArmResult)
    requires r == Verdict(files, slots, s)
    ensures r == ArmDone(st) <==> Armable(files, slots, s, st)
  {
    VerdictIff(files, slots, s, st);
  }

  /** The same of the tool itself. */
  method ArmUndisturbed(host: Host, ghost st: Start) returns (r: ArmResult)
    requires host.Valid()
    modifies host, host.reg`files
    ensures host.Valid()
    ensures r == ArmDone(st) <==> old(Armable(host.reg.files, host.reg.slots, host.fs, st))
    ensures r.ArmDone? ==> BothMarkers(host.fs) && host.fs.image.WithHook? && FourThere(host.fs.image.files)
    ensures !r.ArmDone? && !r.RolledBack? && !r.ArmIncomplete? ==> SameFiles(old(host.fs), host.fs)
  {
    ghost var files, s := host.reg.files, host.fs;
    ghost var was;
    r, was := host.Arm(false);
    ArmableIff(files, host.reg.slots, s, st, r);
    if r.ArmDone? { ArmedHas(was, host.fs, files, host.reg.slots, r.start); }
  }

  lemma ArmedHas(s: HostState, s': HostState, files: Files, slots: map<nat, Secret>, st: Start)
    requires ArmedFrom(s, s', files, slots, st)
    ensures BothMarkers(s') && s'.image.WithHook? && FourThere(s'.image.files)
  {
    var verifier := files["duress.hash"];
    SyncedImage(s.esp, verifier, st);
    FourIff(Synced(s.esp, verifier, st));
  }
}
