/** A host that cannot be armed, and whose failed arming cannot be rolled back although nothing fails. */
module ArmShutOut {
  import opened Hooks
  import opened HookTheorems
  import opened Unlocking
  import opened Arming
  import opened ArmActor
  import opened PamLines
  import opened Enrolling
  import opened Text
  import PamArm
  import PamArch
  import PamRefused
  import PamTexts

  /** The hook behind `encrypt`, with any start and end of the HOOKS line. */
  function LateConf(a: string, b: string): string { a + ENCRYPT + (" " + DEATH + b) + "\n" }

  lemma LateHookIncomplete(s: HostState, st: Start, a: string, b: string)
    requires Gate(s).Ok? && Gate(s).value.Some? && s.conf == LateConf(a, b)
    requires "HOOKS=" <= a && 'y' !in a && 'k' !in a && '\n' !in a && '\n' !in b && b != "" && b[|b| - 1] != '\r'
    ensures Attempt(s, st) == ArmIncomplete
  {
    HookTooLate(a, b);
    IncompleteIff(s, st);
  }

  /** Such a host: Arch Linux's login configuration, no markers, and the line `HOOKS=(encrypt deathstroke)`. */
  lemma StuckHost(text: string, head: seq<string>, ls: seq<RuleLine>, tail: seq<string>, a: string, b: string,
                  s: HostState, st: Start)
    requires PamArch.IsArchText(text, head, ls, tail) && a == "HOOKS=(" && b == ")"
    requires s.pam == text && s.conf == LateConf(a, b) && !s.local && s.esp == map[]
    ensures Gate(s).Ok? && Gate(s).value.Some? && Attempt(s, st) == ArmIncomplete
  {
    ArchArmable(text, head, ls, tail);
    HostOpen(s);
    LineEnds(a, b);
    LateHookIncomplete(s, st, a, b);
  }

  lemma LineEnds(a: string, b: string)
    requires a == "HOOKS=(" && b == ")"
    ensures "HOOKS=" <= a && 'y' !in a && 'k' !in a && '\n' !in a && '\n' !in b && b != "" && b[|b| - 1] != '\r'
  {
    assert a[..6] == "HOOKS=";
  }

  lemma ArchArmable(text: string, head: seq<string>, ls: seq<RuleLine>, tail: seq<string>)
    requires PamArch.IsArchText(text, head, ls, tail)
    ensures PamArm.Armed(text).Ok?
  {
    PamArch.ArchArms(text, head, ls, tail);
  }

  lemma HostOpen(s: HostState)
    requires PamArm.Armed(s.pam).Ok? && !s.local && s.esp == map[]
    ensures Gate(s).Ok? && Gate(s).value.Some?
  {
  }

  /** With authfail before the password rule, no call of `arm` changes anything, whatever fails; without faults, records in order,
      and no markers, it reports the order. */
  method MisorderedHost(host: Host, text: string, none: seq<string>, ls: seq<RuleLine>, faults: bool) returns (r: ArmResult)
    requires host.Valid() && host.fs.pam == text
    requires ls == PamRefused.MISORDERED && none == [] && text == Unlines(PamTexts.ConfigLines(none, ls, none))
    modifies host, host.reg`files
    ensures host.Valid() && host.fs == old(host.fs) && !r.ArmDone?
    ensures !faults && old(Audited(host.reg.files, host.reg.slots, Known(host.reg.files)).Ok?)
            && !old(host.fs).local && "armed" !in old(host.fs).esp ==>
              r == StackRefused(NotArmable(PamArm.BadOrder))
  {
    ghost var was;
    r, was := host.Arm(faults);
    MisorderedGate(was, text, none, ls);
    MisorderedGate(old(host.fs), text, none, ls);
  }

  lemma MisorderedGate(s: HostState, text: string, none: seq<string>, ls: seq<RuleLine>)
    requires s.pam == text
    requires ls == PamRefused.MISORDERED && none == [] && text == Unlines(PamTexts.ConfigLines(none, ls, none))
    ensures !GateOpen(s) && (!s.local && "armed" !in s.esp ==> Gate(s) == Err(NotArmable(PamArm.BadOrder)))
  {
    PamRefused.MisorderedRefused(text, none, ls);
    PamRefused.RefusedIff(text);
    BadOrderGate(s);
  }

  lemma BadOrderGate(s: HostState)
    requires PamArm.Armed(s.pam) == Result.Err(PamArm.BadOrder)
    ensures !GateOpen(s) && (!s.local && "armed" !in s.esp && !Marked(s.pam) ==> Gate(s) == Err(NotArmable(PamArm.BadOrder)))
  {
  }

  // ---- a marker left behind ----

  /** An unarmed stack with a marker left: `arm` refuses it. Disarming it without faults takes both markers and the hook away, with
      a plain image, and leaves stack and backup alone, if and only if the hook can be removed; then `arm` no longer objects. */
  method Reconcile(host: Host) returns (r: DisarmResult)
    requires host.Valid() && !host.fs.undoing && !Contains(host.fs.pam, "deathstr0ke-arm")
    requires host.fs.local || "armed" in host.fs.esp
    modifies host
    ensures host.Valid() && Gate(old(host.fs)) == Err(MarkerAlone)
    ensures r.Disarmed? <==> Without(old(host.fs).conf).Ok?
    ensures r.Disarmed? ==>
              && !host.fs.local && host.fs.esp == old(host.fs).esp - {"armed"} && host.fs.image == Plain
              && host.fs.pam == old(host.fs).pam && host.fs.backup == old(host.fs).backup
              && Without(old(host.fs).conf) == Result.Ok(host.fs.conf)
              && Gate(host.fs) != Err(MarkerAlone) && (GateOpen(host.fs) <==> PamArm.Armed(host.fs.pam).Ok?)
  {
    var local, esp;
    r, local, esp := host.Disarm(false);
  }
}
