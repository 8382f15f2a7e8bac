/** The in-progress journal: what `--fire` admits and writes, and what `--resume` accepts. */
module Journaling {
  import opened Text
  import opened HeaderScan
  import opened Sequences

  datatype Phase = Prepared | BackupsHandled | KeyslotsDestroyed

  datatype EraseMode = KillSlot | Erase

  const JOURNAL_VERSION: nat := 1
  const JOURNAL_NAME: string := "inprogress"
  const MAX_JOURNAL_BYTES: nat := 65536

  datatype Journal = Journal(version: nat, phase: Phase, device: string, mode: EraseMode, slot: Option<nat>,
                             recovery: Option<nat>, mapName: Option<string>, scan: seq<string>)

  /** The file system and block layer as the checks see them: canonical paths, LUKS block devices, and the
      state files next to the protected configuration. */
  datatype Env = Env(canon: string -> Option<Path>, luks: string -> bool,
                     target: Option<string>, dailySlot: Option<string>, recoverySlot: Option<string>)

  // ---- validators ----

  /** `validate_mode_slots` */
  predicate SlotsFit(mode: EraseMode, slot: Option<nat>, recovery: Option<nat>) {
    match mode
    case KillSlot =>
      slot.Some? && recovery.Some? && slot.value <= 31 && recovery.value <= 31 && slot.value != recovery.value
    case Erase => slot.None? && recovery.None?
  }

  predicate TextField(s: string) {
    s != "" && Utf8Length(s) <= 4096 && '\n' !in s && '\r' !in s && '\0' !in s
  }

  predicate MapChar(c: char) {
    '0' <= c <= '9' || 'a' <= c <= 'z' || 'A' <= c <= 'Z' || c == '+' || c == '_' || c == '.' || c == '-'
  }

  predicate MapName(s: string) {
    s != "" && |s| <= 127 && forall i :: 0 <= i < |s| ==> MapChar(s[i])
  }

  predicate Target(env: Env, device: string) {
    && TextField(device)
    && env.canon(device).Some? && ["dev"] <= env.canon(device).value && env.luks(device)
  }

  predicate IsSlash(c: char) { c == '/' }

  predicate NotDot(s: string) { s != "." }

  /** The components of an absolute path. */
  function Components(path: string): seq<string> { Select(Pieces(path, IsSlash), NotDot) }

  /** `validate_journal_path`, of the directory and the file name. */
  predicate JournalPlace(dir: string, name: string) {
    && dir != "" && dir[0] == '/' && name == JOURNAL_NAME
    && Components(dir) != [] && Components(dir)[|Components(dir)| - 1] == "deathstroke"
  }

  predicate RootsInside(env: Env, dir: string, roots: seq<string>) {
    && env.canon(dir).Some?
    && forall i :: 0 <= i < |roots| ==> env.canon(roots[i]).Some? && env.canon(dir).value <= env.canon(roots[i]).value
  }

  // ---- --fire ----

  datatype FireArgs = FireArgs(device: Option<string>, mode: Option<string>, slot: Option<string>,
                               recovery: Option<string>, destroyRecovery: bool, dir: string, name: string,
                               mapName: Option<string>, scan: seq<string>)

  datatype FireError = NoTarget | BadTarget | BadMode | BadJournalPath | JournalExists | BadScanRoots | BadMapName

  function ParseSlotFlag(flag: Option<string>): Result<Option<nat>, FireError> {
    match flag
    case None => Ok(None)
    case Some(text) => if ParseUnsigned(text, U8).Some? then Ok(ParseUnsigned(text, U8)) else Err(BadMode)
  }

  function RecordedSlot(file: Option<string>): Option<nat> {
    match file
    case None => None
    case Some(text) => ParseUnsigned(Trim(text), U8)
  }

  datatype Choice = Choice(mode: EraseMode, slot: Option<nat>, recovery: Option<nat>)

  function Chosen(mode: EraseMode, slot: Option<nat>, recovery: Option<nat>): Result<Choice, FireError> {
    if SlotsFit(mode, slot, recovery) then Ok(Choice(mode, slot, recovery)) else Err(BadMode)
  }

  /** `parse_mode`: without a mode the recorded slots are used; full erasure must be acknowledged. */
  function ParseMode(env: Env, a: FireArgs): (r: Result<Choice, FireError>)
    ensures r.Ok? ==> SlotsFit(r.value.mode, r.value.slot, r.value.recovery)
    ensures r.Ok? && r.value.mode == Erase ==> a.mode == Some("erase") && a.destroyRecovery
  {
    var slot, recovery := ParseSlotFlag(a.slot), ParseSlotFlag(a.recovery);
    if slot.Err? || recovery.Err? then Err(BadMode)
    else if a.mode.None? then
      if slot.value.Some? || recovery.value.Some? then Err(BadMode)
      else Chosen(KillSlot, RecordedSlot(env.dailySlot), RecordedSlot(env.recoverySlot))
    else if a.mode.value == "killslot" then
      Chosen(KillSlot, slot.value, if recovery.value.Some? then recovery.value else RecordedSlot(env.recoverySlot))
    else if a.mode.value == "erase" && a.destroyRecovery then Chosen(Erase, slot.value, recovery.value)
    else Err(BadMode)
  }

  function ConfiguredTarget(env: Env): Option<string> {
    match env.target
    case None => None
    case Some(text) => if Trim(text) == "" then None else Some(Trim(text))
  }

  /** `fire` up to the first journal write. */
  function Admit(env: Env, a: FireArgs, journalExists: bool): (r: Result<Journal, FireError>)
    ensures r.Ok? ==> r.value.phase == Prepared && SlotsFit(r.value.mode, r.value.slot, r.value.recovery)
    ensures r.Ok? ==> !journalExists && r.value.mapName == a.mapName
  {
    var device := if a.device.Some? then a.device else ConfiguredTarget(env);
    if device.None? then Err(NoTarget)
    else if !Target(env, device.value) then Err(BadTarget)
    else if ParseMode(env, a).Err? then Err(BadMode)
    else if !JournalPlace(a.dir, a.name) then Err(BadJournalPath)
    else if journalExists then Err(JournalExists)
    else
      var scan := if a.scan == [] then [a.dir] else a.scan;
      if !RootsInside(env, a.dir, scan) then Err(BadScanRoots)
      else if a.mapName.Some? && !MapName(a.mapName.value) then Err(BadMapName)
      else
        var c := ParseMode(env, a).value;
        Ok(Journal(JOURNAL_VERSION, Prepared, device.value, c.mode, c.slot, c.recovery, a.mapName, scan))
  }

  // ---- --resume ----

  datatype ResumeError = BadExpectation | BadPlace | Unreadable | OtherSlots | OtherDevice | OtherMapping | BadDevice

  /** `read_journal`; `bytes` is the size of the encoded journal. */
  predicate Readable(env: Env, dir: string, j: Journal, bytes: nat) {
    && bytes <= MAX_JOURNAL_BYTES
    && j.version == JOURNAL_VERSION
    && SlotsFit(j.mode, j.slot, j.recovery)
    && |j.scan| <= 32
    && (forall i :: 0 <= i < |j.scan| ==> TextField(j.scan[i]))
    && RootsInside(env, dir, j.scan)
    && TextField(j.device)
    && (j.mapName.Some? ==> MapName(j.mapName.value))
  }

  datatype Expectation = Expectation(device: string, slot: nat, recovery: nat, mapName: Option<string>)

  /** `resume` up to the transaction. */
  function ResumeChecks(env: Env, dir: string, name: string, j: Journal, bytes: nat, e: Expectation): Result<(), ResumeError> {
    if !SlotsFit(KillSlot, Some(e.slot), Some(e.recovery)) then Err(BadExpectation)
    else if !JournalPlace(dir, name) then Err(BadPlace)
    else if !Readable(env, dir, j, bytes) then Err(Unreadable)
    else if j.mode != KillSlot || j.slot != Some(e.slot) || j.recovery != Some(e.recovery) then Err(OtherSlots)
    else if env.canon(j.device).None? || env.canon(e.device) != env.canon(j.device) then Err(OtherDevice)
    else if e.mapName.Some? && (!MapName(e.mapName.value) || j.mapName != e.mapName) then Err(OtherMapping)
    else if !Target(env, j.device) then Err(BadDevice)
    else Ok(())
  }

  /** What a journal is to destroy and to keep. */
  datatype Job = Job(mode: EraseMode, slot: Option<nat>, recovery: Option<nat>)

  function JobOf(j: Journal): Job { Job(j.mode, j.slot, j.recovery) }

  function KillJob(daily: nat, recovery: nat): Job { Job(KillSlot, Some(daily), Some(recovery)) }

  /** The same journal at a later phase. */
  predicate SameJob(j: Journal, k: Journal) { k == j.(phase := k.phase) }

  predicate PlainRoots(roots: seq<string>) { |roots| <= 32 && forall i :: 0 <= i < |roots| ==> TextField(roots[i]) }

  /** An admitted journal read back elsewhere. */
  lemma ReadBackIff(env: Env, a: FireArgs, j: Journal, k: Journal, boot: Env, dir: string, bytes: nat)
    requires Admit(env, a, false) == Ok(j) && SameJob(j, k)
    ensures Readable(boot, dir, k, bytes) <==> bytes <= MAX_JOURNAL_BYTES && PlainRoots(j.scan) && RootsInside(boot, dir, j.scan)
  {
  }

  /** An admitted journal can be read back, at every phase, exactly when it has at most 32 scan roots, all
      of them plain text, and fits the size limit: `--fire` itself checks none of the three. */
  lemma ReadableIff(env: Env, a: FireArgs, j: Journal, k: Journal, bytes: nat)
    requires Admit(env, a, false) == Ok(j) && SameJob(j, k)
    ensures Readable(env, a.dir, k, bytes) <==>
            bytes <= MAX_JOURNAL_BYTES && |j.scan| <= 32 && forall i :: 0 <= i < |j.scan| ==> TextField(j.scan[i])
  {
  }

  /** The arguments `do_wipe` passes. */
  function WipeArgs(device: string, esp: string, map_: string, slot: nat, recovery: nat): FireArgs {
    FireArgs(Some(device), Some("killslot"), Some(PrintNat(slot)), Some(PrintNat(recovery)), false,
             esp, JOURNAL_NAME, Some(map_), [esp])
  }

  /** What `resume_wipe` expects. */
  function WipeExpectation(device: string, map_: string, slot: nat, recovery: nat): Expectation {
    Expectation(device, slot, recovery, Some(map_))
  }

  /** Every journal the pre-boot trigger writes passes, at every phase, all checks of the pre-boot resume
      with the same device, slots, and mapping, exactly when its state directory is a plain text field and
      the encoding fits. */
  lemma WipeResumesIff(env: Env, device: string, esp: string, map_: string, slot: nat, recovery: nat,
                       j: Journal, k: Journal, bytes: nat)
    requires slot <= 31 && recovery <= 31
    requires Admit(env, WipeArgs(device, esp, map_, slot, recovery), false) == Ok(j) && SameJob(j, k)
    ensures j.mode == KillSlot && j.slot == Some(slot) && j.recovery == Some(recovery) && j.scan == [esp]
    ensures ResumeChecks(env, esp, JOURNAL_NAME, k, bytes, WipeExpectation(device, map_, slot, recovery)).Ok? <==>
            TextField(esp) && bytes <= MAX_JOURNAL_BYTES
  {
    ParsePrint(slot, U8);
    ParsePrint(recovery, U8);
    ReadableIff(env, WipeArgs(device, esp, map_, slot, recovery), j, k, bytes);
    assert j.scan[0] == esp;
  }

  lemma LastComponent(a: string, c: string)
    requires c != "" && c != "." && '/' !in c
    ensures var cs := Components(a + "/" + c); cs != [] && cs[|cs| - 1] == c
  {
    var b := a + "/";
    assert b[|b| - 1] == '/';
    PiecesAppend(b, c, IsSlash);
    InkHead(c, "", IsSlash);
    assert c + "" == c;
    assert Pieces(c, IsSlash) == [c];
    SelectAppend(Pieces(b, IsSlash), [c], NotDot);
    assert Select([c], NotDot) == [c] by { assert [c][..0] == []; }
  }

  /** A directory is a place for the journal if and only if its path is absolute and its last component is `deathstroke`. */
  lemma PlaceIff(a: string, c: string)
    requires c != "" && c != "." && '/' !in c
    ensures JournalPlace(a + "/" + c, "inprogress") <==> (a == "" || a[0] == '/') && c == "deathstroke"
  {
    LastComponent(a, c);
    assert a != "" ==> (a + "/" + c)[0] == a[0];
  }

  /** `--fire` as the pre-boot trigger calls it, with a state directory as mounted there: admitted if and only if the slots differ,
      the device is a LUKS block device below /dev and named in plain text, the directory resolves, and the mapping name
      is one that dm-crypt takes. The journal then names just these. */
  lemma WipeAdmittedIff(env: Env, device: string, a: string, esp: string, map_: string, slot: nat, recovery: nat)
    requires slot <= 31 && recovery <= 31 && (a == "" || a[0] == '/') && esp == a + "/" + "deathstroke"
    ensures Admit(env, WipeArgs(device, esp, map_, slot, recovery), false).Ok? <==>
              && slot != recovery && PlainText(device) && BlockDevice(env, device) && env.canon(esp).Some? && Mapping(map_)
    ensures Admit(env, WipeArgs(device, esp, map_, slot, recovery), false).Ok? ==>
              Admit(env, WipeArgs(device, esp, map_, slot, recovery), false).value
              == Journal(1, Prepared, device, KillSlot, Some(slot), Some(recovery), Some(map_), [esp])
  {
    assert '/' !in "deathstroke";
    PlaceIff(a, "deathstroke");
    RootsSelf(env, esp);
    MappingIff(map_);
    TargetIff(env, device);
    KillMode(env, device, esp, map_, slot, recovery);
    AdmitsIff(env, WipeArgs(device, esp, map_, slot, recovery));
  }

  predicate PlainText(s: string) { s != "" && Utf8Length(s) < 4097 && forall c :: c in s ==> c != '\n' && c != '\r' && c != '\0' }

  predicate BlockDevice(env: Env, device: string) {
    env.canon(device).Some? && env.luks(device) && env.canon(device).value != [] && env.canon(device).value[0] == "dev"
  }

  predicate Mapping(s: string) {
    && 0 < |s| < 128
    && forall c :: c in s ==> '0' <= c <= '9' || 'a' <= c <= 'z' || 'A' <= c <= 'Z' || c in {'+', '_', '.', '-'}
  }

  lemma MappingIff(s: string)
    ensures MapName(s) <==> Mapping(s)
  {
    if Mapping(s) { forall i | 0 <= i < |s| ensures MapChar(s[i]) { assert s[i] in s; } }
  }

  lemma TargetIff(env: Env, device: string)
    ensures Target(env, device) <==> PlainText(device) && BlockDevice(env, device)
  {
    if BlockDevice(env, device) {
      var p := env.canon(device).value;
      assert p[..1] == ["dev"];
    } else if env.canon(device).Some? && ["dev"] <= env.canon(device).value {
      assert env.canon(device).value[0] == ["dev"][0];
    }
  }

  lemma KillMode(env: Env, device: string, esp: string, map_: string, slot: nat, recovery: nat)
    requires slot <= 31 && recovery <= 31
    ensures ParseMode(env, WipeArgs(device, esp, map_, slot, recovery))
            == if slot == recovery then Err(BadMode) else Ok(Choice(KillSlot, Some(slot), Some(recovery)))
  {
    ParsePrint(slot, U8);
    ParsePrint(recovery, U8);
  }

  /** What `--fire` demands. */
  lemma AdmitsIff(env: Env, a: FireArgs)
    requires a.device.Some? && a.scan != []
    ensures Admit(env, a, false).Ok? <==>
              && Target(env, a.device.value) && ParseMode(env, a).Ok? && JournalPlace(a.dir, a.name)
              && RootsInside(env, a.dir, a.scan) && (a.mapName.Some? ==> MapName(a.mapName.value))
    ensures Admit(env, a, false).Ok? ==>
              var c := ParseMode(env, a).value;
              Admit(env, a, false).value == Journal(1, Prepared, a.device.value, c.mode, c.slot, c.recovery, a.mapName, a.scan)
  {
  }

  /** The three ways to name the slots: recorded, by flags, or none for the acknowledged full erasure. */
  lemma ModeIff(env: Env, a: FireArgs, slot: Option<nat>, recovery: Option<nat>)
    requires slot == Number(a.slot) && recovery == Number(a.recovery)
    ensures ParseMode(env, a).Ok? <==>
              && (a.slot.Some? ==> slot.Some?) && (a.recovery.Some? ==> recovery.Some?)
              && (|| (&& a.mode.None? && a.slot.None? && a.recovery.None?
                      && Apart(RecordedSlot(env.dailySlot), RecordedSlot(env.recoverySlot)))
                  || (a.mode == Some("killslot")
                      && Apart(slot, if recovery.Some? then recovery else RecordedSlot(env.recoverySlot)))
                  || (a.mode == Some("erase") && a.destroyRecovery && a.slot.None? && a.recovery.None?))
  {
  }

  function Number(flag: Option<string>): Option<nat> { if flag.None? then None else ParseUnsigned(flag.value, 256) }

  predicate Apart(daily: Option<nat>, recovery: Option<nat>) {
    daily.Some? && recovery.Some? && daily.value < 32 && recovery.value < 32 && daily != recovery
  }

  const DEFAULT_DIR: string := "/boot/efi/deathstroke"

  /** The arguments pam_ds passes: none. The journal directory is ds-erase's default. */
  function ModuleArgs(): FireArgs { FireArgs(None, None, None, None, false, DEFAULT_DIR, JOURNAL_NAME, None, []) }

  /** What the resume checks say does not depend on the phase, nor on the size within its limit. */
  lemma ChecksSame(env: Env, dir: string, name: string, j: Journal, k: Journal, bytes: nat, later: nat, e: Expectation)
    requires SameJob(j, k) && ResumeChecks(env, dir, name, j, bytes, e).Ok? && later <= MAX_JOURNAL_BYTES
    ensures ResumeChecks(env, dir, name, k, later, e).Ok?
  {
  }

  /** What `--resume` demands of a journal of whatever origin. */
  lemma ResumeIff(env: Env, dir: string, name: string, j: Journal, bytes: nat, e: Expectation)
    ensures ResumeChecks(env, dir, name, j, bytes, e).Ok? <==>
              && Apart(Some(e.slot), Some(e.recovery)) && JournalPlace(dir, name)
              && bytes <= 65536 && j.version == 1
              && j.mode == KillSlot && j.slot == Some(e.slot) && j.recovery == Some(e.recovery)
              && |j.scan| <= 32 && RootsInside(env, dir, j.scan) && (forall i :: 0 <= i < |j.scan| ==> PlainText(j.scan[i]))
              && PlainText(j.device) && BlockDevice(env, j.device) && env.canon(e.device) == env.canon(j.device)
              && (j.mapName.Some? ==> Mapping(j.mapName.value))
              && (e.mapName.Some? ==> Mapping(e.mapName.value) && j.mapName == e.mapName)
  {
    TargetIff(env, j.device);
    if j.mapName.Some? { MappingIff(j.mapName.value); }
    if e.mapName.Some? { MappingIff(e.mapName.value); }
  }

  /** An admitted journal, at every phase, is accepted by the pre-boot resume if and only if the job and the mapping are those
      expected, it can be read back, its roots lie inside the state directory as mounted there, and its device is
      the one expected. Fired and resumed, the directories may be mounted in different places. */
  lemma AdmittedResumesIff(env: Env, a: FireArgs, j: Journal, k: Journal, boot: Env, bytes: nat,
                           esp: string, device: string, map_: string, slot: nat, recovery: nat)
    requires Admit(env, a, false) == Ok(j) && SameJob(j, k)
    ensures ResumeChecks(boot, esp, JOURNAL_NAME, k, bytes, WipeExpectation(device, map_, slot, recovery)).Ok? <==>
              && JobOf(j) == KillJob(slot, recovery) && a.mapName == Some(map_)
              && bytes <= MAX_JOURNAL_BYTES && PlainRoots(j.scan)
              && JournalPlace(esp, JOURNAL_NAME) && RootsInside(boot, esp, j.scan)
              && boot.canon(device) == boot.canon(j.device) && Target(boot, j.device)
  {
    ReadBackIff(env, a, j, k, boot, esp, bytes);
  }

  /** A journal that names other slots than those the machine is armed with, such as one left by an earlier arming, is refused
      by every boot, whatever its size and wherever it lies; and while it is seen, so is every fire. */
  lemma StaleNeverResumes(k: Journal, boot: Env, esp: string, name: string, bytes: nat, device: string, map_: string, slot: nat,
                          recovery: nat, env: Env, a: FireArgs)
    requires JobOf(k) != KillJob(slot, recovery)
    ensures ResumeChecks(boot, esp, name, k, bytes, WipeExpectation(device, map_, slot, recovery)).Err?
    ensures Admit(env, a, true).Err?
  {
  }

  /** In the place where it was fired, with its own device and slots: if and only if the mapping was named, and it can be
      read back. */
  lemma SamePlaceResumesIff(env: Env, a: FireArgs, j: Journal, k: Journal, bytes: nat, map_: string)
    requires Admit(env, a, false) == Ok(j) && SameJob(j, k) && j.mode == KillSlot
    ensures ResumeChecks(env, a.dir, JOURNAL_NAME, k, bytes, WipeExpectation(j.device, map_, j.slot.value, j.recovery.value)).Ok?
            <==> a.mapName == Some(map_) && bytes <= MAX_JOURNAL_BYTES && PlainRoots(j.scan)
  {
    AdmittedResumesIff(env, a, j, k, env, bytes, a.dir, j.device, map_, j.slot.value, j.recovery.value);
  }

  // ---- the fire without flags ----

  lemma RecordReads(n: nat)
    ensures RecordedSlot(Some(PrintNat(n) + "\n")) == if n < U8 then Some(n) else None
  {
    var s := PrintNat(n);
    assert IsDigit(s[0]) && IsDigit(s[|s| - 1]);
    TrimLine(s);
    ParsePrint(n, U8);
  }

  lemma RootsSelf(env: Env, dir: string)
    ensures RootsInside(env, dir, [dir]) <==> env.canon(dir).Some?
  {
  }

  /** Without flags the recorded slots are the job: admitted if and only if they differ, the configured target is good, and the
      default directory is there. */
  lemma RecordedFire(env: Env, d: nat, r: nat)
    requires env.dailySlot == Some(PrintNat(d) + "\n") && env.recoverySlot == Some(PrintNat(r) + "\n") && d <= 31 && r <= 31
    ensures var admitted := Admit(env, ModuleArgs(), false);
            && (admitted.Ok? <==> d != r && ConfiguredTarget(env).Some? && Target(env, ConfiguredTarget(env).value)
                                  && env.canon(DEFAULT_DIR).Some?)
            && (admitted.Ok? ==> JobOf(admitted.value) == KillJob(d, r) && admitted.value.mapName.None?
                                 && admitted.value.scan == [DEFAULT_DIR])
  {
    RecordReads(d);
    RecordReads(r);
    DefaultPlace();
    RootsSelf(env, DEFAULT_DIR);
    FlaglessFire(env, ModuleArgs(), d, r);
  }

  /** The same in any good directory, and with roots of one's own. */
  lemma FlaglessFire(env: Env, a: FireArgs, d: nat, r: nat)
    requires RecordedSlot(env.dailySlot) == Some(d) && RecordedSlot(env.recoverySlot) == Some(r) && d <= 31 && r <= 31
    requires a.device.None? && a.mode.None? && a.slot.None? && a.recovery.None? && a.mapName.None? && JournalPlace(a.dir, a.name)
    ensures var admitted := Admit(env, a, false);
            var scan := if a.scan == [] then [a.dir] else a.scan;
            && (admitted.Ok? <==> d != r && ConfiguredTarget(env).Some? && Target(env, ConfiguredTarget(env).value)
                                  && RootsInside(env, a.dir, scan))
            && (admitted.Ok? ==> JobOf(admitted.value) == KillJob(d, r) && admitted.value.mapName.None?
                                 && admitted.value.scan == scan)
  {
  }

  lemma DefaultPlace()
    ensures JournalPlace(DEFAULT_DIR, JOURNAL_NAME)
  {
    assert DEFAULT_DIR == "/boot/efi" + "/" + "deathstroke" && '/' !in "deathstroke";
    PlaceIff("/boot/efi", "deathstroke");
  }

  // ---- journals that no boot resumes ----

  const DISK: string := "/dev/sda2"

  /** A machine with the slots `d` and `r` recorded; every name below the state directory exists. */
  function Example(d: nat, r: nat): Env {
    Env(s => Some(if s == DISK then ["dev", "sda2"] else ["boot", "efi", "deathstroke"]), s => s == DISK,
        Some(DISK + "\n"), Some(PrintNat(d) + "\n"), Some(PrintNat(r) + "\n"))
  }

  lemma ExampleTarget(d: nat, r: nat)
    ensures ConfiguredTarget(Example(d, r)) == Some(DISK) && Target(Example(d, r), DISK)
  {
    DiskTrims(DISK);
    DiskIsText(DISK);
    var env := Example(d, r);
    assert env.canon(DISK) == Some(["dev", "sda2"]) && ["dev"] <= ["dev", "sda2"] && env.luks(DISK);
  }

  const BOOT_DIR: string := "/ds-esp/deathstroke"
  const ROOT_NAME: string := "cryptroot"

  /** The same disk before boot, with the state directory as mounted there. */
  function PreBoot(): Env {
    Env(s => Some(if s == DISK then ["dev", "sda2"] else ["ds-esp", "deathstroke"]), s => s == DISK, None, None, None)
  }

  lemma PreBootTarget(env: Env, disk: string)
    requires env == PreBoot() && disk == DISK
    ensures PlainText(disk) && BlockDevice(env, disk) && env.canon(BOOT_DIR).Some?
  {
    DiskIsText(disk);
    TargetIff(env, disk);
    assert env.canon(disk) == Some(["dev", "sda2"]) && ["dev", "sda2"][0] == "dev";
  }

  lemma RootNamed(name: string)
    requires name == ROOT_NAME
    ensures Mapping(name)
  {
  }

  lemma BootDirIs()
    ensures BOOT_DIR == "/ds-esp" + "/" + "deathstroke"
  {
  }

  lemma BootDirText(dir: string)
    requires dir == BOOT_DIR
    ensures TextField(dir)
  {
    BootDirChars(dir);
    ShortText(dir);
  }

  lemma BootDirChars(dir: string)
    requires dir == BOOT_DIR
    ensures dir != "" && |dir| <= 1024 && '\n' !in dir && '\r' !in dir && '\0' !in dir
  {
  }

  lemma ShortText(s: string)
    requires s != "" && |s| <= 1024 && '\n' !in s && '\r' !in s && '\0' !in s
    ensures TextField(s)
  {
    Utf8Bounds(s);
  }

  /** There every trigger with two slots is admitted under the default directory and mapping. */
  lemma PreBootAdmits(env: Env, device: string, esp: string, name: string, d: nat, r: nat)
    requires env == PreBoot() && device == DISK && esp == BOOT_DIR && name == ROOT_NAME && d <= 31 && r <= 31 && d != r
    ensures var admitted := Admit(env, WipeArgs(device, esp, name, d, r), false);
            admitted == Ok(Journal(1, Prepared, device, KillSlot, Some(d), Some(r), Some(name), [esp]))
  {
    PreBootTarget(env, device);
    RootNamed(name);
    BootDirIs();
    var a := "/ds-esp";
    assert a[0] == '/';
    WipeAdmittedIff(env, device, a, esp, name, d, r);
  }

  /** Its journal, at every phase, is accepted by the resume of a later boot. */
  lemma PreBootResumes(env: Env, device: string, esp: string, name: string, d: nat, r: nat, k: Journal, bytes: nat)
    requires env == PreBoot() && device == DISK && esp == BOOT_DIR && name == ROOT_NAME && d <= 31 && r <= 31 && d != r
    requires SameJob(Journal(1, Prepared, device, KillSlot, Some(d), Some(r), Some(name), [esp]), k) && bytes <= 65536
    ensures ResumeChecks(env, esp, "inprogress", k, bytes, WipeExpectation(device, name, d, r)).Ok?
  {
    PreBootAdmits(env, device, esp, name, d, r);
    BootDirText(esp);
    WipeResumesIff(env, device, esp, name, d, r, Admit(env, WipeArgs(device, esp, name, d, r), false).value, k, bytes);
  }

  lemma DiskTrims(disk: string)
    requires disk == DISK
    ensures disk != "" && Trim(disk + "\n") == disk
  {
    TrimLine(disk);
  }

  lemma DiskIsText(disk: string)
    requires disk == DISK
    ensures TextField(disk)
  {
    Utf8Bounds(disk);
  }

  /** On that machine the fire of pam_ds is admitted, and no boot, whatever it expects, accepts its journal. */
  lemma UnmappedNeverResumes(d: nat, r: nat, k: Journal, boot: Env, bytes: nat, esp: string, device: string, map_: string,
                             slot: nat, recovery: nat)
    requires d <= 31 && r <= 31 && d != r
    ensures Admit(Example(d, r), ModuleArgs(), false).Ok?
    ensures SameJob(Admit(Example(d, r), ModuleArgs(), false).value, k) ==>
              ResumeChecks(boot, esp, JOURNAL_NAME, k, bytes, WipeExpectation(device, map_, slot, recovery)).Err?
  {
    var env := Example(d, r);
    ExampleTarget(d, r);
    RecordedFire(env, d, r);
    if SameJob(Admit(env, ModuleArgs(), false).value, k) {
      var j := Admit(env, ModuleArgs(), false).value;
      AdmittedResumesIff(env, ModuleArgs(), j, k, boot, bytes, esp, device, map_, slot, recovery);
    }
  }

  function Repeated(n: nat, root: string): (roots: seq<string>)
    ensures |roots| == n && forall i :: 0 <= i < n ==> roots[i] == root
  {
    seq(n, _ => root)
  }

  /** On that machine roots other than the disk are admitted; only plain ones can be read back. */
  lemma AdmittedWithRoots(d: nat, r: nat, roots: seq<string>, k: Journal, bytes: nat)
    requires d <= 31 && r <= 31 && d != r && roots != []
    ensures var admitted := Admit(Example(d, r), ModuleArgs().(scan := roots), false);
            && (admitted.Ok? <==> DISK !in roots)
            && (admitted.Ok? && SameJob(admitted.value, k) ==>
                  (Readable(Example(d, r), DEFAULT_DIR, k, bytes) <==> PlainRoots(roots) && bytes <= MAX_JOURNAL_BYTES))
  {
    var env, a := Example(d, r), ModuleArgs().(scan := roots);
    ExampleTarget(d, r);
    RecordReads(d);
    RecordReads(r);
    DefaultPlace();
    InsideExample(d, r, DEFAULT_DIR, roots);
    FlaglessFire(env, a, d, r);
    var admitted := Admit(env, a, false);
    if admitted.Ok? && SameJob(admitted.value, k) { ReadableIff(env, a, admitted.value, k, bytes); }
  }

  lemma InsideExample(d: nat, r: nat, dir: string, roots: seq<string>)
    requires dir != DISK
    ensures RootsInside(Example(d, r), dir, roots) <==> DISK !in roots
  {
    assert ["boot", "efi", "deathstroke"][0] == "boot" && ["dev", "sda2"][0] == "dev" && "boot"[0] != "dev"[0];
  }

  /** On that machine a fire with 33 roots is admitted, and one with a line break in a root; neither journal can be read back. */
  lemma UnreadableAdmitted(d: nat, r: nat, roots: seq<string>, k: Journal, bytes: nat)
    requires d <= 31 && r <= 31 && d != r && (roots == Repeated(33, DEFAULT_DIR) || roots == [DEFAULT_DIR + "\n"])
    ensures Admit(Example(d, r), ModuleArgs().(scan := roots), false).Ok?
    ensures SameJob(Admit(Example(d, r), ModuleArgs().(scan := roots), false).value, k) ==>
              !Readable(Example(d, r), DEFAULT_DIR, k, bytes)
  {
    NotPlain(DEFAULT_DIR);
    assert |DISK| < |DEFAULT_DIR|;
    assert DISK !in roots;
    AdmittedWithRoots(d, r, roots, k, bytes);
  }

  lemma NotPlain(root: string)
    ensures !PlainRoots(Repeated(33, root)) && !PlainRoots([root + "\n"])
  {
    var last := root + "\n";
    assert last[|root|] == '\n' && last[|root|] in last;
    assert [last][0] == last;
  }
}
