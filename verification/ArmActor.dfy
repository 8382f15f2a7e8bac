/** dsctl's `arm` and `disarm` on a host whose every write may fail, and whose tests for a marker may fail and so say no. */
module ArmActor {
  import opened Text
  import opened Sequences
  import opened Hooks
  import opened HookTheorems
  import opened AttemptPolicy
  import opened Unlocking
  import opened Enrolling
  import opened Arming
  import PamArm
  import opened Erasing

  datatype ArmResult =
    | ArmDone(start: Start) | AlreadyArmed | IoError | RecordsRefused(why: Refusal) | StackRefused(problem: StackProblem)
    | RolledBack | ArmIncomplete

  datatype DisarmResult = Disarmed | BackupLeft | Refused | Restored | DisarmIncomplete

  /** Put back one file of the snapshot: its old content, or its absence. */
  function WithName(esp: Files, was: Files, name: string): Files {
    if name in was then esp[name := was[name]] else esp - {name}
  }

  class Host {
    const reg: Registry
    var fs: HostState
    /** A rollback could not be completed, or has put the armed stack back without a marker. */
    ghost var broken: bool
    ghost var trail: seq<HostState>

    /** Every state recorded so far is consistent, until a rollback is reported incomplete. */
    ghost predicate Valid()
      reads this
    {
      && trail != [] && trail[|trail| - 1] == fs
      && (broken || AllConsistent(trail))
    }

    constructor (reg: Registry, fs: HostState)
      requires Consistent(fs)
      ensures Valid() && this.reg == reg && this.fs == fs && !broken && trail == [fs]
    {
      this.reg, this.fs, this.broken, this.trail := reg, fs, false, [fs];
    }

    /** One write or removal: on an error the old or the new content is in place. */
    method Commit(next: HostState, faults: bool) returns (ok: bool)
      requires Valid() && (broken || Consistent(next))
      modifies this`fs, this`trail
      ensures Valid() && trail == old(trail) + [fs]
      ensures ok ==> fs == next
      ensures !ok ==> faults && (fs == next || fs == old(fs))
    {
      var fault: bool, renamed: bool := *, *;
      ok := !(faults && fault);
      if ok || renamed { fs := next; }
      if !broken {
        LastConsistent(trail);
        TrailGrows(trail, fs);
      }
      trail := trail + [fs];
    }

    /** `mkinitcpio -P`: when it fails, with or without a fault, the image is anything. */
    method Rebuild(faults: bool) returns (ok: bool)
      requires Valid() && (broken || !Marked(fs.pam) || fs.undoing)
      modifies this`fs, this`trail
      ensures Valid() && trail == old(trail) + [fs] && fs == old(fs).(image := fs.image)
      ensures ok ==> Bake(fs.conf, fs.local, fs.esp) == Some(fs.image)
      ensures !ok ==> faults || Bake(fs.conf, fs.local, fs.esp).None?
    {
      if !broken { LastConsistent(trail); }
      var image := Bake(fs.conf, fs.local, fs.esp);
      var left: Image := *;
      if image.Some? { ok := Commit(fs.(image := image.value), faults); }
      if image.None? || !ok {
        ok := false;
        fs := fs.(image := left);
        if !broken { TrailGrows(old(trail), fs); }
        trail := old(trail) + [fs];
      }
    }

    // ---- arm ----

    /** A file of the ESP, written while the login stack is not armed. */
    method PutEsp(name: string, text: string, faults: bool) returns (ok: bool)
      requires Valid() && (broken || !Marked(fs.pam)) && name in SIX
      modifies this`fs, this`trail
      ensures Valid() && old(trail) <= trail && fs == old(fs).(esp := fs.esp)
      ensures OnlySix(old(fs).esp, fs.esp)
      ensures if ok then fs.esp == old(fs).esp[name := text] else faults
    {
      ok := Commit(fs.(esp := fs.esp[name := text]), faults);
    }

    /** `sync_esp_state`: five files, in this order. */
    method SyncEsp(verifier: string, st: Start, faults: bool) returns (ok: bool)
      requires Valid() && !Marked(fs.pam)
      modifies this`fs, this`trail
      ensures Valid() && old(trail) <= trail && fs == old(fs).(esp := fs.esp)
      ensures OnlySix(old(fs).esp, fs.esp)
      ensures if ok then fs.esp == Synced(old(fs).esp, verifier, st) else faults
    {
      ok := PutEsp("duress.hash", verifier, faults);
      ghost var t1 := trail;
      if ok { ok := PutEsp("config", Printed(st.policy), faults); }
      PrefixesChain(old(trail), t1, trail);
      ghost var t2 := trail;
      if ok { ok := PutEsp("counter", NumberLine(0), faults); }
      PrefixesChain(old(trail), t2, trail);
      ghost var t3 := trail;
      if ok { ok := PutEsp("daily.slot", NumberLine(st.daily), faults); }
      PrefixesChain(old(trail), t3, trail);
      ghost var t4 := trail;
      if ok { ok := PutEsp("recovery.slot", NumberLine(st.recovery), faults); }
      PrefixesChain(old(trail), t4, trail);
    }

    /** `ensure_deathstroke_hook_before_encrypt` on the file. */
    method AddHook(faults: bool) returns (ok: bool)
      requires Valid() && !Marked(fs.pam)
      modifies this`fs, this`trail
      ensures Valid() && old(trail) <= trail && fs == old(fs).(conf := fs.conf)
      ensures ok ==> Ensured(old(fs).conf) == Result.Ok(fs.conf)
      ensures !ok ==> faults || Ensured(old(fs).conf).Err?
    {
      var fault: bool := *;
      if faults && fault { return false; }
      var updated := EnsureHook(fs.conf);
      if updated.Err? { return false; }
      ok := true;
      if updated.value != fs.conf { ok := Commit(fs.(conf := updated.value), faults); }
    }

    method SyncAndMark(verifier: string, st: Start, faults: bool) returns (ok: bool)
      requires Valid() && !Marked(fs.pam)
      modifies this`fs, this`trail
      ensures Valid() && old(trail) <= trail && fs == old(fs).(esp := fs.esp, local := fs.local)
      ensures OnlySix(old(fs).esp, fs.esp)
      ensures if ok then fs.esp == Synced(old(fs).esp, verifier, st) && fs.local else faults
    {
      ok := SyncEsp(verifier, st, faults);
      ghost var t := trail;
      if ok { ok := SetLocal(true, faults); }
      PrefixesChain(old(trail), t, trail);
    }

    /** The steps of `arm` up to the ESP marker. */
    method Prepare(verifier: string, st: Start, faults: bool) returns (ok: bool)
      requires Valid() && !Marked(fs.pam)
      modifies this`fs, this`trail
      ensures Valid() && old(trail) <= trail
      ensures OnlySix(old(fs).esp, fs.esp)
      ensures fs == old(fs).(esp := fs.esp, local := fs.local, conf := fs.conf, image := fs.image)
      ensures ok ==> Ensured(old(fs).conf) == Result.Ok(fs.conf) && fs.local && fs.esp == ArmedFiles(old(fs).esp, verifier, st)
                     && fs.image == WithHook(Taken(Synced(old(fs).esp, verifier, st)))
      ensures !faults ==> (ok <==> Ensured(old(fs).conf).Ok?)
    {
      SyncedImage(fs.esp, verifier, st);
      ok := SyncAndMark(verifier, st, faults);
      ghost var t := trail;
      if ok { ok := AddHook(faults); }
      PrefixesChain(old(trail), t, trail);
      t := trail;
      if ok {
        BakeHooked(old(fs).conf, fs.conf, fs.esp);
        ok := Rebuild(faults);
      }
      PrefixesChain(old(trail), t, trail);
      t := trail;
      if ok { ok := PutEsp("armed", ARMED_TEXT, faults); }
      PrefixesChain(old(trail), t, trail);
    }

    /** The steps of `arm` after its checks. The login stack comes last. */
    method ArmSteps(verifier: string, st: Start, updated: string, faults: bool) returns (ok: bool)
      requires Valid() && !Marked(fs.pam) && fs.backup == Some(fs.pam)
      modifies this`fs, this`trail
      ensures Valid() && old(trail) <= trail
      ensures OnlySix(old(fs).esp, fs.esp) && fs.backup == old(fs).backup && fs.undoing == old(fs).undoing
      ensures ok ==> Ensured(old(fs).conf).Ok? && fs == ArmedWith(old(fs), updated, verifier, st)
      ensures !faults ==> (ok <==> Ensured(old(fs).conf).Ok?)
    {
      ArmedConsistentIf(fs, updated, verifier, st);
      ok := Prepare(verifier, st, faults);
      ghost var t := trail;
      if ok { ok := Commit(fs.(pam := updated), faults); }
      PrefixesChain(old(trail), t, trail);
    }

    method SetLocal(there: bool, faults: bool) returns (ok: bool)
      requires Valid() && (broken || !Marked(fs.pam))
      modifies this`fs, this`trail
      ensures Valid() && old(trail) <= trail && |trail| == |old(trail)| + 1 && fs == old(fs).(local := fs.local)
      ensures if ok then fs.local == there else faults && (fs.local == there || fs.local == old(fs).local)
    {
      ok := Commit(fs.(local := there), faults);
    }

    method SetConf(text: string, faults: bool) returns (ok: bool)
      requires Valid() && (broken || !Marked(fs.pam))
      modifies this`fs, this`trail
      ensures Valid() && old(trail) <= trail && |trail| == |old(trail)| + 1 && fs == old(fs).(conf := fs.conf)
      ensures if ok then fs.conf == text else faults
    {
      ok := Commit(fs.(conf := text), faults);
    }

    /** The first step of the rollback. Without it, nothing is promised any more. */
    method RestorePam(pam: string, faults: bool) returns (ok: bool)
      requires Valid() && !Marked(pam)
      modifies this`fs, this`trail, this`broken
      ensures Valid() && old(trail) <= trail && |trail| == |old(trail)| + 1 && fs == old(fs).(pam := fs.pam)
      ensures broken || !Marked(fs.pam)
      ensures if ok then fs.pam == pam && broken == old(broken) else faults
    {
      ok := Commit(fs.(pam := pam), faults);
      if !ok { broken := true; }
    }

    /** Every file of the snapshot is put back, or removed if it was absent. */
    method RestoreEsp(was: Files, faults: bool) returns (clean: bool)
      requires Valid() && (broken || !Marked(fs.pam)) && OnlySix(was, fs.esp)
      modifies this`fs, this`trail
      ensures Valid() && old(trail) <= trail && fs == old(fs).(esp := fs.esp)
      ensures |trail| == |old(trail)| + 6
      ensures if clean then fs.esp == was else faults
    {
      clean := true;
      for i := 0 to |SIX|
        invariant Valid() && old(trail) <= trail && |trail| == |old(trail)| + i && fs == old(fs).(esp := fs.esp)
        invariant if clean then SameOutside(was, fs.esp, SIX[i..]) else faults
      {
        ghost var esp, t := fs.esp, trail;
        var ok := Commit(fs.(esp := WithName(fs.esp, was, SIX[i])), faults);
        PrefixesChain(old(trail), t, trail);
        if clean { OneMore(was, esp, i); }
        clean := clean && ok;
      }
      if clean { AllBack(was, fs.esp); }
    }

    /** The rollback of `arm`: each of its ten steps is tried, whatever became of the others. */
    method ArmRollback(was: HostState, faults: bool) returns (clean: bool)
      requires Valid() && !Marked(was.pam) && OnlySix(was.esp, fs.esp)
      modifies this`fs, this`trail, this`broken
      ensures Valid() && old(trail) <= trail && |trail| == |old(trail)| + 10
      ensures clean ==> SameFiles(was.(local := false), fs) && broken == old(broken)
                        && Bake(fs.conf, fs.local, fs.esp) == Some(fs.image)
      ensures !clean ==> faults || Bake(was.conf, false, was.esp).None?
    {
      clean := RestorePam(was.pam, faults);
      ghost var t := trail;
      var ok := SetConf(was.conf, faults);
      clean := clean && ok;
      PrefixesChain(old(trail), t, trail);
      t := trail;
      ok := SetLocal(false, faults);
      clean := clean && ok;
      PrefixesChain(old(trail), t, trail);
      t := trail;
      ok := RestoreEsp(was.esp, faults);
      clean := clean && ok;
      PrefixesChain(old(trail), t, trail);
      t := trail;
      ok := Rebuild(faults);
      clean := clean && ok;
      PrefixesChain(old(trail), t, trail);
    }

    /** `Path::is_file` on a marker. */
    method SeesMarker(there: bool, faults: bool) returns (seen: bool)
      ensures (seen ==> there) && (!faults ==> seen == there)
    {
      var failed: bool := *;
      seen := there && !(faults && failed);
    }

    method CheckStack(faults: bool) returns (gate: Result<Option<string>, StackProblem>, ghost was: HostState)
      ensures TakenAs(fs, was) && (!faults ==> was == fs) && gate == Gate(was)
    {
      var local := SeesMarker(fs.local, faults);
      var esp := SeesMarker("armed" in fs.esp, faults);
      was := fs.(local := local, esp := if esp then fs.esp else fs.esp - {"armed"});
      assert !faults ==> was.esp == fs.esp;
      if Contains(fs.pam, PamArm.ARM_MARKER) {
        if local && esp { return Ok(None), was; }
        return Err(MarkersInconsistent), was;
      }
      if local || esp { return Err(MarkerAlone), was; }
      var updated := PamArm.ArmPamStack(fs.pam);
      return if updated.Err? then Err(NotArmable(updated.error)) else Ok(Some(updated.value)), was;
    }

    /** The steps, and the rollback when one of them fails. */
    method Transact(verifier: string, st: Start, updated: string, faults: bool) returns (r: ArmResult)
      requires Valid() && fs.backup == Some(fs.pam) && !Marked(fs.pam)
      modifies this`fs, this`trail, this`broken
      ensures Valid() && old(trail) <= trail
      ensures r == ArmDone(st) || r == RolledBack || r == ArmIncomplete
      ensures r.ArmDone? ==> Ensured(old(fs).conf).Ok? && fs == ArmedWith(old(fs), updated, verifier, st)
      ensures r.RolledBack? ==> SameFiles(old(fs).(local := false), fs)
      ensures !r.ArmIncomplete? ==> broken == old(broken)
      ensures !faults ==> r == Attempt(old(fs).(local := false), st)
    {
      var was := fs;
      var ok := ArmSteps(verifier, st, updated, faults);
      if ok { return ArmDone(st); }
      ghost var t := trail;
      var clean := ArmRollback(was, faults);
      PrefixesChain(old(trail), t, trail);
      return if clean then RolledBack else ArmIncomplete;
    }

    /** Backup, snapshot, transaction. */
    method BackUpAndTransact(verifier: string, st: Start, updated: string, faults: bool) returns (r: ArmResult)
      requires Valid() && !Marked(fs.pam)
      modifies this`fs, this`trail, this`broken
      ensures Valid() && old(trail) <= trail
      ensures r == ArmDone(st) || r == RolledBack || r == ArmIncomplete || r == IoError
      ensures r.ArmDone? ==> Ensured(old(fs).conf).Ok? && fs == ArmedWith(old(fs), updated, verifier, st)
      ensures r.RolledBack? ==> SameFiles(old(fs).(local := false), fs)
      ensures r.IoError? ==> SameFiles(old(fs), fs)
      ensures !r.ArmIncomplete? ==> broken == old(broken)
      ensures !faults ==> r == Attempt(old(fs).(local := false), st)
    {
      var ok := BackUp(faults);
      if !ok { return IoError; }
      ghost var t := trail;
      r := Transact(verifier, st, updated, faults);
      PrefixesChain(old(trail), t, trail);
    }

    /** The backup of the login stack, and the snapshot of the other files. */
    method BackUp(faults: bool) returns (ok: bool)
      requires Valid() && !Marked(fs.pam)
      modifies this`fs, this`trail
      ensures Valid() && old(trail) <= trail && fs == old(fs).(backup := fs.backup)
      ensures if ok then fs.backup == Some(fs.pam) else faults
    {
      ok := Commit(fs.(backup := Some(fs.pam)), faults);
      var unreadable: bool := *;
      ok := ok && !(faults && unreadable);
    }

    /** The checks on the login stack and the markers, then the transaction. `was` is the host with the markers seen. */
    method ArmStack(verifier: string, st: Start, faults: bool) returns (r: ArmResult, ghost was: HostState)
      requires Valid()
      modifies this`fs, this`trail, this`broken
      ensures Valid() && old(trail) <= trail && !r.RecordsRefused?
      ensures TakenAs(old(fs), was) && (!faults ==> was == old(fs))
      ensures fs != old(fs) || r.ArmDone? ==> GateOpen(was)
      ensures r.ArmDone? ==> CanArm(was) && fs == ArmedState(was, verifier, st) && r.start == st
      ensures r.RolledBack? ==> SameFiles(old(fs).(local := was.local), fs)
      ensures !r.ArmDone? && !r.RolledBack? && !r.ArmIncomplete? ==> SameFiles(old(fs), fs)
      ensures !r.ArmIncomplete? ==> broken == old(broken)
      ensures !faults ==> r == StackVerdict(old(fs), st)
    {
      var gate;
      gate, was := CheckStack(faults);
      if gate.Err? { return StackRefused(gate.error), was; }
      if gate.value.None? { return AlreadyArmed, was; }
      r := BackUpAndTransact(verifier, st, gate.value.value, faults);
      if r.ArmDone? { ArmedSame(old(fs), was, verifier, st); }
    }

    /** `arm`. A local marker that was there and not seen does not come back when it is rolled back. */
    method Arm(faults: bool) returns (r: ArmResult, ghost was: HostState)
      requires Valid()
      modifies this`fs, this`trail, this`broken, reg`files
      ensures Valid() && old(trail) <= trail
      ensures OtherFiles(reg.files) == OtherFiles(old(reg.files))
      ensures TakenAs(old(fs), was) && (!faults ==> was == old(fs))
      ensures fs != old(fs) || r.ArmDone? ==> GateOpen(was)
      ensures r.ArmDone? ==> ArmedFrom(was, fs, old(reg.files), reg.slots, r.start) && reg.slots.Keys <= Known(reg.files)
      ensures r.RolledBack? ==> SameFiles(old(fs).(local := was.local), fs)
      ensures !r.ArmDone? && !r.RolledBack? && !r.ArmIncomplete? ==> SameFiles(old(fs), fs)
      ensures !r.ArmIncomplete? ==> broken == old(broken)
      ensures !faults ==> r == Verdict(old(reg.files), reg.slots, old(fs))
    {
      was := fs;
      ghost var before := reg.files;
      var audited := reg.Audit(faults);
      if audited.Err? { return RecordsRefused(audited.error), was; }
      VerifierKept(before, reg.files, reg.slots, audited.value);
      var unreadable: bool := *;
      if faults && unreadable { return IoError, was; }
      r, was := ArmStack(reg.files["duress.hash"], audited.value, faults);
    }

    // ---- disarm ----

    /** `remove_deathstroke_hook` on the file. */
    method RemoveHook(faults: bool) returns (ok: bool)
      requires Valid() && (broken || !Marked(fs.pam))
      modifies this`fs, this`trail
      ensures Valid() && old(trail) <= trail && fs == old(fs).(conf := fs.conf)
      ensures ok ==> Without(old(fs).conf) == Result.Ok(fs.conf)
      ensures !ok ==> faults || Without(old(fs).conf).Err?
    {
      var fault: bool := *;
      if faults && fault { return false; }
      var updated := WithoutHook(fs.conf);
      if updated.Err? { return false; }
      ok := true;
      if updated.value != fs.conf { ok := SetConf(updated.value, faults); }
    }

    method DropMarkers(faults: bool) returns (ok: bool)
      requires Valid() && (broken || !Marked(fs.pam))
      modifies this`fs, this`trail
      ensures Valid() && old(trail) <= trail && fs == old(fs).(local := fs.local, esp := fs.esp)
      ensures OnlyMarker(old(fs).esp, fs.esp)
      ensures (fs.local ==> old(fs).local) && ("armed" in fs.esp ==> "armed" in old(fs).esp)
      ensures if ok then !fs.local && fs.esp == old(fs).esp - {"armed"} else faults
    {
      ok := SetLocal(false, faults);
      ghost var t := trail;
      if ok { ok := Commit(fs.(esp := fs.esp - {"armed"}), faults); }
      PrefixesChain(old(trail), t, trail);
    }

    /** The markers, the hook, and the image, once the login stack is stock. */
    method Unmark(faults: bool) returns (ok: bool)
      requires Valid() && (broken || !Marked(fs.pam))
      modifies this`fs, this`trail
      ensures Valid() && old(trail) <= trail
      ensures OnlyMarker(old(fs).esp, fs.esp)
      ensures (fs.local ==> old(fs).local) && ("armed" in fs.esp ==> "armed" in old(fs).esp)
      ensures fs == old(fs).(local := fs.local, esp := fs.esp, conf := fs.conf, image := fs.image)
      ensures ok ==> Without(old(fs).conf) == Result.Ok(fs.conf) && !fs.local && fs.image == Plain
                     && fs.esp == old(fs).esp - {"armed"}
      ensures !faults ==> (ok <==> Without(old(fs).conf).Ok?)
    {
      ok := DropMarkers(faults);
      ghost var t := trail;
      if ok { ok := RemoveHook(faults); }
      PrefixesChain(old(trail), t, trail);
      t := trail;
      if ok {
        BakePlain(old(fs).conf, fs.conf, fs.esp);
        ok := Rebuild(faults);
      }
      PrefixesChain(old(trail), t, trail);
    }

    /** Configuration and the markers seen as they were; every step is tried. */
    method RestoreMarkers(was: HostState, seenLocal: bool, seenEsp: bool, faults: bool) returns (clean: bool)
      requires Valid() && fs.undoing && Unmarking(was, fs, seenLocal, seenEsp)
      modifies this`fs, this`trail
      ensures Valid() && old(trail) <= trail && fs == old(fs).(conf := fs.conf, local := fs.local, esp := fs.esp)
      ensures |trail| == |old(trail)| + 1 + (if seenLocal then 1 else 0) + (if seenEsp then 1 else 0)
      ensures Unmarking(was, fs, seenLocal, seenEsp)
      ensures if clean then fs.conf == was.conf && (seenLocal ==> fs.local) && (seenEsp ==> "armed" in fs.esp) else faults
    {
      if !broken { LastConsistent(trail); }
      clean := Commit(fs.(conf := was.conf), faults);
      ghost var t := trail;
      if seenLocal {
        if !broken { LastConsistent(trail); }
        var ok := Commit(fs.(local := true), faults);
        clean := clean && ok;
      }
      PrefixesChain(old(trail), t, trail);
      t := trail;
      if seenEsp {
        if !broken { LastConsistent(trail); }
        var ok := Commit(fs.(esp := fs.esp["armed" := ARMED_TEXT]), faults);
        clean := clean && ok;
      }
      PrefixesChain(old(trail), t, trail);
    }

    /** The markers, then the stack. */
    method BringBack(was: HostState, marked: bool, seenLocal: bool, seenEsp: bool, faults: bool) returns (clean: bool)
      requires Valid() && (broken || Consistent(was)) && marked == Marked(was.pam) && fs.backup == was.backup
      requires Unmarking(was, fs, seenLocal, seenEsp) && !fs.undoing && (!marked ==> fs.pam == was.pam)
      modifies this`fs, this`trail, this`broken
      ensures Valid() && old(trail) <= trail && fs.undoing && fs.backup == was.backup
      ensures |trail| == |old(trail)| + 2 + (if seenLocal then 1 else 0) + (if seenEsp then 1 else 0) + (if marked then 1 else 0)
      ensures Unmarking(was, fs, seenLocal, seenEsp)
      ensures clean ==> fs.pam == was.pam && fs.conf == was.conf && (seenLocal ==> fs.local) && (seenEsp ==> "armed" in fs.esp)
      ensures clean && MarkersKept(was, fs) ==> broken == old(broken)
      ensures !clean ==> faults
    {
      if !broken { LastConsistent(trail); }
      var start := Commit(fs.(undoing := true), false);
      ghost var t := trail;
      clean := RestoreMarkers(was, seenLocal, seenEsp, faults);
      PrefixesChain(old(trail), t, trail);
      t := trail;
      if !clean || !MarkersKept(was, fs) { broken := true; }
      if marked {
        var ok := Commit(fs.(pam := was.pam), faults);
        clean := clean && ok;
      }
      PrefixesChain(old(trail), t, trail);
    }

    /** The markers and the stack as they were, the stack only after the markers; then the image. Each step is tried, whatever
        became of the others; the first and the last entry of the trail only note that things are put back. */
    method DisarmRollback(was: HostState, marked: bool, seenLocal: bool, seenEsp: bool, faults: bool) returns (clean: bool)
      requires Valid() && (broken || Consistent(was)) && marked == Marked(was.pam) && fs.backup == was.backup
      requires Unmarking(was, fs, seenLocal, seenEsp) && !fs.undoing && (!marked ==> fs.pam == was.pam)
      modifies this`fs, this`trail, this`broken
      ensures Valid() && old(trail) <= trail && !fs.undoing
      ensures |trail| == |old(trail)| + 4 + (if seenLocal then 1 else 0) + (if seenEsp then 1 else 0) + (if marked then 1 else 0)
      ensures clean ==> PutBackSeen(was, fs, seenLocal, seenEsp) && Bake(was.conf, fs.local, was.esp).Some?
      ensures clean && PutBack(was, fs) ==> broken == old(broken)
      ensures (fs.local ==> was.local) && (!faults && seenLocal ==> fs.local)
      ensures !clean ==> faults || Bake(was.conf, fs.local, was.esp).None?
    {
      clean := BringBack(was, marked, seenLocal, seenEsp, faults);
      ghost var t := trail;
      var ok := RebuildRestored(was, clean, faults);
      clean := clean && ok;
      PrefixesChain(old(trail), t, trail);
    }

    /** The last step of the rollback. */
    method RebuildRestored(was: HostState, clean: bool, faults: bool) returns (ok: bool)
      requires Valid() && fs.undoing && (!clean ==> broken || faults) && OnlyMarker(was.esp, fs.esp)
      requires clean ==> fs.conf == was.conf
      modifies this`fs, this`trail, this`broken
      ensures Valid() && old(trail) <= trail && |trail| == |old(trail)| + 2 && fs == old(fs).(image := fs.image, undoing := false)
      ensures ok && clean ==> broken == old(broken) && Bake(was.conf, fs.local, was.esp).Some?
      ensures !ok && clean ==> faults || Bake(was.conf, fs.local, was.esp).None?
    {
      BakeSame(fs.conf, fs.local, was.esp, fs.esp);
      ok := Rebuild(faults);
      if !ok || !clean { broken := true; }
      ghost var t := trail;
      if !broken { LastConsistent(trail); }
      var end := Commit(fs.(undoing := false), false);
      PrefixesChain(old(trail), t, trail);
    }

    /** `disarm`. A rollback reported complete has put back everything but a marker whose test failed (`seenLocal`, `seenEsp`). */
    method Disarm(faults: bool) returns (r: DisarmResult, seenLocal: bool, seenEsp: bool)
      requires Valid() && !fs.undoing
      modifies this`fs, this`trail, this`broken
      ensures Valid() && old(trail) <= trail && !fs.undoing
      ensures r.Disarmed? || r.BackupLeft? ==> DisarmedFrom(old(fs), fs)
      ensures r.Disarmed? ==> fs.backup == if Marked(old(fs).pam) then None else old(fs).backup
      ensures r.Refused? ==> fs == old(fs)
      ensures (seenLocal ==> old(fs).local) && (seenEsp ==> "armed" in old(fs).esp)
      ensures r.Restored? ==> PutBackSeen(old(fs), fs, seenLocal, seenEsp)
      ensures !faults && r.Restored? ==> PutBack(old(fs), fs)
      ensures !r.DisarmIncomplete? && (r.Restored? ==> PutBack(old(fs), fs)) ==> broken == old(broken)
      ensures !faults ==> r == DisarmVerdict(old(fs))
      ensures !faults ==> (r.Refused? <==> Contains(old(fs).pam, "deathstr0ke-arm") && old(fs).backup.None?)
      ensures !faults ==> (r.Disarmed? <==> !r.Refused? && Without(old(fs).conf).Ok?)
    {
      seenLocal, seenEsp := false, false;
      var fault: bool := *;
      if faults && fault { return Refused, seenLocal, seenEsp; }
      var marked := Marked(fs.pam);
      if marked && fs.backup.None? { return Refused, seenLocal, seenEsp; }
      seenLocal := SeesMarker(fs.local, faults);
      seenEsp := SeesMarker("armed" in fs.esp, faults);
      r := DisarmSteps(marked, seenLocal, seenEsp, faults);
    }

    /** The end of `disarm`: the backup goes, or everything comes back. */
    method Conclude(was: HostState, marked: bool, seenLocal: bool, seenEsp: bool, ok: bool, faults: bool) returns (r: DisarmResult)
      requires Valid() && (broken || Consistent(was)) && marked == Marked(was.pam) && fs.backup == was.backup
      requires Unmarking(was, fs, seenLocal, seenEsp) && !fs.undoing && (!marked ==> fs.pam == was.pam)
      requires ok && !broken ==> !Marked(fs.pam)
      modifies this`fs, this`trail, this`broken
      ensures Valid() && old(trail) <= trail && !fs.undoing
      ensures if ok then r.Disarmed? || r.BackupLeft? else r.Restored? || r.DisarmIncomplete?
      ensures ok ==> fs == old(fs).(backup := fs.backup) && (r.Disarmed? ==> fs.backup == if marked then None else was.backup)
      ensures r.Restored? ==> PutBackSeen(was, fs, seenLocal, seenEsp) && Bake(was.conf, fs.local, was.esp).Some?
      ensures !r.DisarmIncomplete? && (r.Restored? ==> PutBack(was, fs)) ==> broken == old(broken)
      ensures r.BackupLeft? ==> faults
      ensures !ok ==> (fs.local ==> was.local) && (!faults && seenLocal ==> fs.local)
      ensures r.DisarmIncomplete? ==> faults || Bake(was.conf, fs.local, was.esp).None?
    {
      if !ok {
        var clean := DisarmRollback(was, marked, seenLocal, seenEsp, faults);
        r := if clean then Restored else DisarmIncomplete;
      } else {
        var removed := true;
        if marked { removed := Commit(fs.(backup := None), faults); }
        r := if removed then Disarmed else BackupLeft;
      }
    }

    method DisarmSteps(marked: bool, seenLocal: bool, seenEsp: bool, faults: bool) returns (r: DisarmResult)
      requires Valid() && !fs.undoing && marked == Marked(fs.pam) && (marked ==> fs.backup.Some?)
      requires Unmarking(fs, fs, seenLocal, seenEsp) && (!faults ==> seenLocal == fs.local && (seenEsp <==> "armed" in fs.esp))
      modifies this`fs, this`trail, this`broken
      ensures Valid() && old(trail) <= trail && !fs.undoing && !r.Refused?
      ensures r.Disarmed? || r.BackupLeft? ==> DisarmedFrom(old(fs), fs)
      ensures r.Disarmed? ==> fs.backup == if marked then None else old(fs).backup
      ensures r.Restored? ==> PutBackSeen(old(fs), fs, seenLocal, seenEsp)
      ensures !r.DisarmIncomplete? && (r.Restored? ==> PutBack(old(fs), fs)) ==> broken == old(broken)
      ensures !faults ==> r == UnmarkVerdict(old(fs))
    {
      if !broken { LastConsistent(trail); }
      var was := fs;
      var ok := true;
      if marked { ok := Commit(fs.(pam := fs.backup.value), faults); }
      ghost var t := trail;
      if ok { ok := Unmark(faults); }
      PrefixesChain(old(trail), t, trail);
      t := trail;
      r := Conclude(was, marked, seenLocal, seenEsp, ok, faults);
      PrefixesChain(old(trail), t, trail);
    }
  }

  /** On the way from `was`, markers can only have gone; those seen were there. */
  ghost predicate Unmarking(was: HostState, s: HostState, seenLocal: bool, seenEsp: bool) {
    && OnlyMarker(was.esp, s.esp) && (s.local ==> was.local) && ("armed" in s.esp ==> "armed" in was.esp)
    && (seenLocal ==> was.local) && (seenEsp ==> "armed" in was.esp)
  }

  /** The checks on stack and markers let the transaction begin. */
  predicate GateOpen(s: HostState) { Gate(s).Ok? && Gate(s).value.Some? }

  /** The result of `disarm` when nothing fails. */
  function DisarmVerdict(s: HostState): DisarmResult {
    if Marked(s.pam) && s.backup.None? then Refused else UnmarkVerdict(s)
  }

  function UnmarkVerdict(s: HostState): DisarmResult {
    if Without(s.conf).Ok? then Disarmed
    else if Bake(s.conf, s.local, s.esp).Some? then Restored
    else DisarmIncomplete
  }

  /** What a successful `arm` has seen and left. */
  predicate ArmedFrom(s: HostState, s': HostState, files: Files, slots: map<nat, Secret>, st: Start) {
    && CanArm(s)
    && Records(files) == Ok(st) && st.daily != st.recovery && st.daily in slots && st.recovery in slots
    && "duress.hash" in files && s' == ArmedState(s, files["duress.hash"], st)
  }

  /** The end of the transaction when nothing fails. Rolling back is incomplete if the configuration already
      listed the hook: the image cannot be built without the marker. */
  function Attempt(s: HostState, st: Start): ArmResult {
    if Ensured(s.conf).Ok? then ArmDone(st)
    else if Bake(s.conf, s.local, s.esp).Some? then RolledBack
    else ArmIncomplete
  }

  /** The result of `arm` when nothing fails. */
  function Verdict(files: Files, slots: map<nat, Secret>, s: HostState): ArmResult {
    var audited := Audited(files, slots, Known(files));
    if audited.Err? then RecordsRefused(audited.error)
    else StackVerdict(s, audited.value)
  }

  function StackVerdict(s: HostState, st: Start): ArmResult {
    match Gate(s)
    case Err(problem) => StackRefused(problem)
    case Ok(None) => AlreadyArmed
    case Ok(Some(_)) => Attempt(s, st)
  }

  /** Without faults a transaction that has passed its checks ends incomplete if and only if the hook cannot be inserted and some
      HOOKS line names it already. */
  lemma IncompleteIff(s: HostState, st: Start)
    requires Gate(s).Ok? && Gate(s).value.Some?
    ensures Attempt(s, st) == ArmIncomplete <==> Ensured(s.conf).Err? && HookListed(s.conf)
  {
  }

  lemma VerifierKept(files: Files, files': Files, slots: map<nat, Secret>, st: Start)
    requires OtherFiles(files') == OtherFiles(files) && exists known :: Audited(files, slots, known) == Ok(st)
    ensures "duress.hash" in files && "duress.hash" in files' && files'["duress.hash"] == files["duress.hash"]
    ensures Records(files) == Ok(st) && st.daily != st.recovery && st.daily in slots && st.recovery in slots
  {
    assert "duress.hash" in OtherFiles(files) && "duress.hash" in OtherFiles(files');
    assert OtherFiles(files)["duress.hash"] == files["duress.hash"];
    assert OtherFiles(files')["duress.hash"] == files'["duress.hash"];
  }

  lemma OneMore(was: Files, esp: Files, i: nat)
    requires i < |SIX| && SameOutside(was, esp, SIX[i..])
    ensures SameOutside(was, WithName(esp, was, SIX[i]), SIX[i + 1..])
  {
    assert SIX[i..] == [SIX[i]] + SIX[i + 1..];
    forall name | name !in SIX[i + 1..]
      ensures SameName(was, WithName(esp, was, SIX[i]), name)
    {
      if name != SIX[i] { assert name !in SIX[i..] && SameName(was, esp, name); }
    }
  }

  lemma AllBack(was: Files, esp: Files)
    requires SameOutside(was, esp, [])
    ensures esp == was
  {
    var none: seq<string> := [];
    forall name: string
      ensures (name in was <==> name in esp) && (name in was ==> esp[name] == was[name])
    {
      assert name !in none && SameName(was, esp, name);
    }
  }

  lemma BakeHooked(original: string, conf: string, esp: Files)
    requires Ensured(original) == Result.Ok(conf) && AllThere(esp)
    ensures Bake(conf, true, esp) == Some(WithHook(Taken(esp)))
  {
    EnsuredNamesHook(original);
  }

  lemma ArmedConsistentIf(s: HostState, updated: string, verifier: string, st: Start)
    requires !Marked(s.pam)
    ensures Ensured(s.conf).Ok? ==>
              var t := ArmedWith(s, updated, verifier, st);
              Consistent(t)
  {
    if Ensured(s.conf).Ok? { ArmedWithConsistent(s, updated, verifier, st); }
  }

  lemma BakePlain(original: string, conf: string, esp: Files)
    requires Without(original) == Result.Ok(conf)
    ensures Bake(conf, false, esp) == Some(Plain)
  {
    RemovedNamesNoHook(original);
  }

  lemma BakeSame(conf: string, local: bool, esp: Files, esp': Files)
    requires OnlyMarker(esp, esp')
    ensures Bake(conf, local, esp') == Bake(conf, local, esp)
  {
    forall name | name in BAKED_NAMES
      ensures name in esp <==> name in esp'
      ensures name in esp ==> esp'[name] == esp[name]
    {
      assert name != "armed";
      assert name in esp <==> name in esp - {"armed"};
      assert name in esp' <==> name in esp' - {"armed"};
      assert name in esp ==> (esp - {"armed"})[name] == esp[name];
      assert name in esp' ==> (esp' - {"armed"})[name] == esp'[name];
    }
    assert Taken(esp') == Taken(esp);
  }

  ghost predicate OnlyMarker(esp: Files, esp': Files) { esp' - {"armed"} == esp - {"armed"} }

  lemma LastConsistent(trail: seq<HostState>)
    requires trail != [] && AllConsistent(trail)
    ensures Consistent(trail[|trail| - 1])
  {
  }
}
