# A verified model of the DEATHSTROKE tools

DEATHSTROKE gives a LUKS disk a duress trigger: a second code, or too many wrong guesses, removes the key
slot of daily use and keeps a recovery slot. Four programs and a PAM module share the work, and this project
models the logic underneath their calls to `cryptsetup`, `shred`, `mkinitcpio` and `poweroff`:

- **The PAM stack rewriter** (`PamSyntax`, `PamArm`, `PamRun`, `PamExact`, `PamTheorem`, `PamLines`, `PamTexts`,
  `PamArch`, `PamRefused`, `PamShutOut`). `dsctl arm` puts three rules into
  `system-auth` and lengthens the numeric jumps that cross the insertion. Configuration lines are strings, read
  by a lexer for the syntax of the Linux-PAM System Administrators' Guide, section 4.1; the stacks run in an
  interpreter for the same section, in which a jump may count as success or not (`credits`). The main theorem is
  a simulation between the stock text and the armed text, with the exact condition on the login under which it
  holds. `PamLines` and `PamTexts` read lines and whole files in their usual form, so that `PamArch` can apply the
  theorem to the text of Arch Linux's own configuration, and `PamShutOut` to texts on which arming changes something.
  `PamRefused` says which texts are taken and which error the others get; `PamLibpam` compares the interpreter with the Guide.
- **The module behind the rules** (`PamModule`, `PamHistory`): `pam_ds` and its attempt counter, over histories of logins.
- **The destruction transaction** (`HeaderScan`, `Journaling`, `Erasing`, `EraseActor`): `ds-erase` with its
  journal. `Erasing` is a relation over durable states (key slots, file tree, journal); the class `Machine` is
  the program itself, whose every effect may fail or be cut, and whose recorded history is shown to be a run of
  that relation. Every run refines one atomic removal of the daily slot.
- **The pre-boot unlocker** (`Unlocking`, `UnlockActor`): `ds-unlock` over any number of boots, again a relation
  and a class (`Boots`) whose history is a run of it.
- **Enrolment, arm and disarm** (`Enrolling`, `AuditCases`, `Hooks`, `HookTheorems`, `HookCases`, `Arming`, `ArmActor`, `ArmCases`,
  `ArmShutOut`): the recovery
  enrolment, the registry of known slots, the reversible edits of `mkinitcpio.conf`, and the multi-file
  transactions with rollback, in which every write may fail.
- **The formats and the file write** (`Verifier`, `AttemptPolicy`, `PolicyLines`, `AtomicWriting`): the duress verifier, the
  policy and slot files, and `atomic_write` on a file system that may lose power between any two calls.
- **All of it together** (`Lifecycle`, `CleanLife`): enrolment, arming, boots, fires from the running system and a completed
  wipe on one machine, and one such life in which nothing fails.

What is refused is stated beside what is accepted: the modules whose names end in `Refused`, `Cases` or `Lines`, and the lemmas
whose names end in `Iff`, spell out, with the names, numbers and words of the sources, when each check passes and what it says
otherwise, independently of the functions the programs are checked against.

`Text`, `Sequences`, `Faulting` and `Runs` hold what the others share: the string operations of Rust's standard library that
the sources use, sequence surgery, effects that may fail, and runs of a step relation.

Conventions. A parameter `faults` says whether effects may fail; with `faults` false a method's contract states the
result outright. With it, a failing `atomic_write` leaves the old or the new content, which `AtomicWriting` proves, a failing
command may report an error or be cut, and a test whose failure the program does not notice may say no: `exists` on the journal
(`ds-unlock/src/main.rs:51`, `ds-erase/src/main.rs:231`), the first bytes of a file (`ds-erase/src/main.rs:179-183`), the exit of
`cryptsetup open` (`ds-unlock/src/main.rs:168`) and of a slot test (`dsctl/src/main.rs:365-369`), `is_file` and `exists` on the
markers (`dsctl/src/main.rs:492`, `580-581`, `708-710`), and the listings around an enrolment and the reading of the registry
(`dsctl/src/main.rs:386`, `412-415`). The theorems about runs hold for every interleaving of boots, cuts, failing steps, such
tests and resumes of one actor; where one of them decides a guarantee, the theorem says which.

## What turned out not to hold, and exactly when it does

- Arming leaves a login alone if and only if the login takes no jump that goes astray before it comes to authfail
  (`PamExact.SimulationIff`, and for texts `PamTheorem.ArmingPreservesLogin`, for every accepted clean text and jumps on every
  code). A jump goes astray if in the armed stack it does not lead to the place of its target, or is not past the end where
  it was; one that comes to the end exactly is no difference if the standing is that of a denial already. Only jumps behind
  `success=` are lengthened, and only for authfail: such a jump goes right if and only if it does not straddle the place
  after authsucc (`PamRun.LandingIff`), any other if and only if it crosses neither authfail nor that place, or clears the end
  by as many rules as it crosses (`PamRun.OtherLandingIff`). Accepted texts on which logins change: granted before and denied
  after, by a jump over authsucc (`PamShutOut.LongJumpChangesLogin`) or by a jump on `new_authtok_reqd` over authfail
  (`PamShutOut.OtherJumpChangesLogin`); denied before, by a jump one past the end, and granted after
  (`PamShutOut.PastEndChangesLogin`).
- The rewriter accepts stacks with authsucc before authfail. The count of `pam_ds` is that of the failed logins since the last
  that passed if and only if authsucc does not come first or at most one login has failed, and the eraser is launched at the
  threshold if and only if authsucc does not come first or no failed login reaches it (`PamModule.HistoryIff`). In that order every
  failed login first clears the count, which never passes one, and only duress codes launch (`PamModule.HistoryCounts`);
  `PamShutOut.EarlySuccessForgets` has an accepted text.
- An admitted killslot journal is accepted by the pre-boot resume, with its own device, slots and place, if and only if its mapping
  was named on the command line and it can be read back (`Journaling.SamePlaceResumesIff`; for other places and devices
  `Journaling.AdmittedResumesIff`), and it can be read back if and only if it has at most 32 scan roots, all plain text, and
  fits 64 KiB (`Journaling.ReadableIff`). `pam_ds` names no mapping: its fire is admitted and its journal never accepted
  (`Journaling.UnmappedNeverResumes`), so a machine with such a journal pending never comes to a prompt and never finishes the
  removal, however often it boots (`UnlockActor.Boots.StuckBoots`). Fires with 33 roots or a line break in a root are admitted too
  (`Journaling.UnreadableAdmitted`).
- A journal that names other slots than the machine is armed with, such as one left by an earlier arming, is refused by every boot
  (`Journaling.StaleNeverResumes`). `arm` does not look for one; `Lifecycle.FirstBoot` starts a machine without.
- Once a journal is durable, the daily slot is never offered for opening again if and only if no boot overlooks the pending journal,
  its test for the file having failed, while the slot is active (`Unlocking.DailyNeverOpensAgain`, with a run that opens it in
  `Unlocking.OverlookedThenOpened`). A prompt with a transaction pending means such a boot (`Unlocking.PromptsBelowLimit`). That
  a journal is there or the daily slot gone holds in any case (`Unlocking.StaysDisarmed`).
- The durable phase of a journal in place only advances if and only if no fire overwrites it, its test for the file having failed
  (`Erasing.PhaseAdvances`, with a run in `Erasing.SetBack`).
- A completed scan leaves exactly the header files it could not read, and reports success
  (`EraseActor.Machine.DestroyHeaderBackups`). Completing a transaction from a cut leads to the same disk and file tree if and only if no
  scan before ended with such a file left (`Erasing.RunKeepsFinal`); when the daily slot goes, a header file is in reach if and only if
  the scan that ended last left one (`Erasing.RemovedAfterScan`, with a run that leaves them all in `Erasing.LeftBehind`).
- A right code at a prompt counts as a wrong guess when `cryptsetup` fails on it (`UnlockActor.Boots.LuksOpen`).
- After a wipe the daily secret opens nothing if and only if recovery enrolment missed no slot that it opens and the two secrets
  differ, and the recovery secret opens just its own slot if and only if enrolment missed no other slot of it but the daily one; a
  slot test that fails makes enrolment miss one (`Lifecycle.AfterKill`, `Enrolling.Registry.EnrollRecovery`).
- A `disarm` that reports everything restored has put back everything if and only if no marker is missing, and only one whose test
  failed can be (`ArmActor.Host.Disarm`, `Arming.PutBackIff`). An `arm` that rolls back does not bring back a local marker it did not
  see (`ArmActor.Host.Arm`).
- Around an enrolment the registry gains just the new slot when both listings succeed; when the earlier one fails it gains every active
  slot, and with it the audit of `arm` accepts slots that dsctl did not enrol; when the later one fails it gains none
  (`Enrolling.Registry.RecordAddedSlots`).
- Removing the hook undoes inserting it exactly when the first `encrypt` on every HOOKS line starts a token
  (`HookTheorems.FileRoundTrip`); otherwise removal fails, as for `sd-encrypt` (`HookTheorems.SdEncryptStays`), and `disarm` with it.
- When nothing fails but the hook cannot be inserted, `arm` can roll back completely exactly when no HOOKS line names the hook already:
  the image cannot be rebuilt without the marker (`ArmActor.IncompleteIff`, with a host in `ArmShutOut.StuckHost`).
- Re-printing a parsed verifier gives the text back exactly for canonical numbers and lower-case digits; leading zeros, a plus sign and
  upper-case digits parse too (`Verifier.ReprintIff`).
- Once a limit has been reached before boot, the counter keeps the machine from ever prompting again, also after the wipe is
  complete (`Unlocking.NoPromptPastLimit`).

## Model

| member | source | states |
|---|---|---|
| PamSyntax.ReplacedJumpReadsBack | dsctl/src/main.rs:909-922 | a jump that was written reads back as the written value, and every character outside its digits is unchanged |
| PamSyntax.EditedMeaning | dsctl/src/main.rs:915-922 | libpam reads the edited line as the same rule, module and arguments, with only the action on `success` changed from one jump to the other |
| PamSyntax.EditedIsAuth | dsctl/src/main.rs:904-922 | replacing a jump never turns an auth rule into something else |
| PamArm.ArmPamStack | dsctl/src/main.rs:866-902 | the vector surgery on lines computes the specified armed text, or the specified error in the specified order |
| PamArm.FindRules | dsctl/src/main.rs:869-881 | the auth positions and the plan, or the error of the first check that fails |
| PamArm.PatchJumps | dsctl/src/main.rs:883-892 | in place, exactly the auth rules before authfail are patched, each as its rank among the auth rules demands |
| PamArm.PatchJump | dsctl/src/main.rs:887-891 | a line whose jump crosses the stock authfail reads back with the jump longer by one and the text around its digits unchanged; any other line is unchanged |
| PamArm.CrossesIff | dsctl/src/main.rs:885-892 | a jump from before authfail is lengthened if and only if it aims at it or past it, and the sum fits the machine word |
| PamArm.InsertRules | dsctl/src/main.rs:893-900 | the new rules stand first, directly in front of authfail and directly behind authsucc, and every old line keeps its content and order |
| PamArm.FailMeaning | dsctl/src/main.rs:894 | libpam reads the inserted authfail line as `[default=die]` on pam_ds with its argument |
| PamArm.SuccMeaning | dsctl/src/main.rs:897 | libpam reads the inserted authsucc line as an optional rule |
| PamArm.PreauthMeaning | dsctl/src/main.rs:899 | libpam reads the inserted preauth line as success and ignore ignored, everything else fatal |
| PamArm.ArmedAuthLines | dsctl/src/main.rs:883-901 | the auth lines of the armed text are the stock auth lines, patched, with the three rules at their places, whatever other lines lie between |
| PamArm.StackOfUnlines | dsctl/src/main.rs:868-901 | joining the lines again gives a text in which libpam reads exactly those lines |
| PamTheorem.ArmedTextStack | dsctl/src/main.rs:866-902 | the stack libpam reads from the armed text is the stock stack, jumps patched, with the three controls inserted |
| PamRun.LandingIff | dsctl/src/main.rs:883-900 | a jump behind `success=`, inside the stack or past its end, is carried right if and only if it does not straddle the place after authsucc, and lands one rule early if it does |
| PamRun.OtherLandingIff | dsctl/src/main.rs:886-892 | a jump on another code or by default, which is never lengthened, is carried right if and only if it crosses none of the insertions, or clears the end by as many |
| PamRun.FitNeverStrays | dsctl/src/main.rs:883-900 | on a stack whose jumps are all carried right no login takes one that goes astray |
| PamRun.Simulation | dsctl/src/main.rs:866-902 | for every stack, jumps on every code, all module results and both readings of jumps, a login that takes no jump that goes astray: same stock modules in the same order and same verdict unless the stock authfail is reached, and then the module's authfail ends the run in a denial |
| PamExact.SimulationIff | dsctl/src/main.rs:866-902 | for every stack and jumps on every code: the simulation holds for a login if and only if it takes no jump that goes astray before authfail |
| PamTheorem.ArmingPreservesLogin | dsctl/src/main.rs:866-902 | the same, stated of the configuration text before and after arming |
| PamLines.LineMeaning | dsctl/src/main.rs:1140-1148 | a line in the usual form is read by libpam as the rule it was made from |
| PamTexts.UsualClean | dsctl/src/main.rs:904-922 | a usual line is an auth rule in which the jump dsctl finds is the rule's own |
| PamTexts.ConfigAccepted | dsctl/src/main.rs:866-881 | a file of usual lines is accepted, with authfail and authsucc where they stand, and its stack is the controls of its lines |
| PamRefused.AuthWhen | dsctl/src/main.rs:904-907 | a line of blanks, dashes, blanks and the word `auth` is an auth rule |
| PamRefused.AuthHas | dsctl/src/main.rs:904-907 | every auth rule has that form |
| PamRefused.AcceptedIff | dsctl/src/main.rs:866-881 | a text is accepted, with authfail and authsucc at given places, if and only if it carries no marker, these are its first rules naming pam_faillock and the word, and a rule naming pam_unix stands before authfail |
| PamRefused.RefusedIff | dsctl/src/main.rs:866-881 | each error is reported if and only if its own condition on the auth lines holds: marker, no auth rule, no pam_unix, no authfail, no authsucc, no pam_unix before authfail |
| PamRefused.UnixMissing | dsctl/src/main.rs:872-873 | a file of usual lines none of which names pam_unix is refused for that |
| PamRefused.AuthfailMissing | dsctl/src/main.rs:874-876 | one with pam_unix and without authfail is refused for that |
| PamRefused.AuthsuccMissing | dsctl/src/main.rs:877-879 | one with pam_unix and authfail and without authsucc is refused for that |
| PamRefused.AuthfailTooEarly | dsctl/src/main.rs:880 | one whose first authfail has no rule naming pam_unix before it is refused for the order |
| PamRefused.MisorderedRefused | dsctl/src/main.rs:880 | such a text |
| PamArch.ArchArms | dsctl/src/main.rs:1140-1148 | Arch Linux's text is accepted, with authfail at 3 and authsucc at 6; it is clean and its jumps fit |
| PamArch.ArchLogin | dsctl/src/main.rs:1140-1164 | arming that text leaves every login alone |
| PamArch.LongerJumps | dsctl/src/main.rs:1152-1156 | its two jumps become three and two |
| PamShutOut.LongJumpChangesLogin | dsctl/src/main.rs:885-898 | an accepted text on which every login of a family is granted before arming and denied after |
| PamShutOut.PastEndChangesLogin | dsctl/src/main.rs:885-898 | an accepted text on which every login of a family is denied before arming and granted after |
| PamShutOut.OtherJumpChangesLogin | dsctl/src/main.rs:885-898 | an accepted text with a jump on `new_authtok_reqd` on which every login of a family is granted before arming and denied after |
| PamTheorem.ArmedIsMarked | dsctl/src/main.rs:867 | an armed text carries the marker, the stock text did not, and arming it again is refused |
| PamModule.PamDs.Authenticate | pam_ds/src/lib.rs:36-84 | the code returned, the attempts file and the launches, for every mode, marker, verifier and entered code |
| PamModule.PamDs.OnAuthfail | pam_ds/src/lib.rs:85-103 | a failure is stored and the eraser launched exactly at or past the threshold; a corrupt file is left alone |
| PamModule.PamDs.LogIn | pam_ds/src/lib.rs:36-103 | a login through the armed stack leaves the module in the state the history theorems speak of |
| PamModule.LoginEffect | pam_ds/src/lib.rs:37-102 | what one login that does not stray does to count and launches, in terms of the stock stack: duress launches, reaching authfail counts, passing authsucc clears |
| PamModule.HistoryCounts | ds-core/src/lib.rs:230-265 | for every history of logins none of which strays: with authsucc after authfail the stored count is the failures since the last success, capped at the width of the counter, and the launches are the duress codes and the failures at or past the threshold; in the other order the count is at most one and only duress codes launch |
| PamModule.HistoryIff | dsctl/src/main.rs:876-881 | the count and the launches are those promised if and only if authsucc does not come before authfail, or the history is too short to tell |
| PamModule.BothIff | dsctl/src/main.rs:893-900 | a login that does not stray executes both of the module's authfail and authsucc if and only if it fails and authsucc comes first |
| PamModule.PassesEarly | dsctl/src/main.rs:876-881 | with authsucc first no login that does not stray comes to authfail but past it |
| PamHistory.FifthLaunches | ds-core/src/lib.rs:149-152 | with authsucc behind authfail and logins that all fail without straying, the count is their number, and the fifth and each one after it launches the eraser |
| PamHistory.ArchHistory | pam_ds/src/lib.rs:85-103 | so through the armed text of Arch Linux, for all logins that neither the home directory nor the password module admits |
| PamHistory.ArchForgets | pam_ds/src/lib.rs:37-44 | after any logins through that text, one that is admitted clears the count and launches nothing |
| PamShutOut.EarlySuccessForgets | dsctl/src/main.rs:876-881 | an accepted text on which, after any number of refused logins, the count is one and nothing was launched |
| HeaderScan.ScanIsIdempotent | ds-erase/src/main.rs:188-211 | after a scan nothing is left to find |
| HeaderScan.ScanResumes | ds-erase/src/main.rs:188-211 | a scan of a partly scanned tree ends where the whole scan would have ended |
| HeaderScan.PopDir | ds-erase/src/main.rs:199-206 | replacing a directory by its entries loses no file that is still to be found and adds no path outside the roots |
| EraseActor.Machine.PushChildren | ds-erase/src/main.rs:199-206 | every entry is pushed, and the remaining work strictly decreases |
| EraseActor.Machine.DestroyHeaderBackups | ds-erase/src/main.rs:188-211 | with overlapping roots and links: of the reachable header files exactly those go that it could read, each counted once, and without faults all; a scan stopped early removed only such files; it comes to its end only if at most 10,000 entries are in reach, and the budget stops it only if the roots hold more |
| EraseActor.Machine.EraseHeaderFile | ds-erase/src/main.rs:213-221 | one file goes, or nothing changes |
| EraseActor.Machine.VerifyOutcome | ds-erase/src/main.rs:534-553 | passes only if the slots are as the mode demands, and, when the listings succeed, whenever they are |
| EraseActor.Machine.HandleBackups | ds-erase/src/main.rs:292-303 | the phase advances only after a scan that came to its end, and the end of the transaction is the one it was heading for but for the files that scan could not read |
| EraseActor.Machine.DestroyKeyslots | ds-erase/src/main.rs:304-312 | the daily slot goes only with recovery seen active, and the phase advances only after the outcome was verified |
| EraseActor.Machine.RunTransaction | ds-erase/src/main.rs:286-329 | from any phase the transaction, if it completes, ends in the one final state but for the header files its scan could not read; if not, no other step changed where it will end |
| EraseActor.Machine.Fire | ds-erase/src/main.rs:223-248 | refused exactly when a check fails, the journal counting as absent when it is not seen, changing nothing; completed, it leaves the final state but for files its scan could not read, and no journal; admitted, it does not complete only by a fault, past the scan budget, or without the recovery slot |
| EraseActor.Machine.Resume | ds-erase/src/main.rs:250-284 | refused exactly when the journal is unreadable or does not match, changing nothing; completed, it leaves the final state but for files its scan could not read; accepted, it does not complete only by a fault, past the scan budget with the scan still to come, or without the recovery slot |
| EraseActor.Machine.StoppedThenCompleted | ds-erase/src/main.rs:250-327 | a resume stopped anywhere and another one without a fault end as an uninterrupted transaction if and only if the first did not end its scan with a header file it could not read, and otherwise exactly those are left |
| Erasing.FinalMeans | ds-erase/src/main.rs:286-327 | a completed transaction has dropped its journal and exactly the slot it names, in erase mode every slot, and left in reach just the given files |
| Erasing.StepRefines | ds-erase/src/main.rs:292-327 | every durable step leaves the slots alone or removes exactly the daily slot while recovery is active and the scan has ended |
| Erasing.RunRefines | ds-erase/src/main.rs:286-327 | over every run the slots are those of the start or those after one atomic removal |
| Erasing.RemovedAfterScan | ds-erase/src/main.rs:179-211 | when a step of a run removes the daily slot, the step that ended the last scan lies before it, and a header file is in reach if and only if that scan left one |
| Erasing.LeftBehind | ds-erase/src/main.rs:179-183 | from every disk with such files: a run whose scan reads none of them completes, the daily slot gone and all of them left |
| Erasing.PhaseAdvances | ds-erase/src/main.rs:130-147 | over a stretch with a journal in place, it is one journal whose phase only advances if and only if nothing overwrites it |
| Erasing.SetBack | ds-erase/src/main.rs:231 | from every disk with a journal past its scan: a fire that does not see it sets it back |
| Erasing.JournalOrGone | ds-erase/src/main.rs:286-327 | once the journal is durable, at every later point it is there or the daily slot is gone |
| Erasing.RunKeepsFinal | ds-erase/src/main.rs:286-327 | from a cut, completing the transaction leads to the same slots and file tree if and only if no scan before ended with a header file left |
| Journaling.ReadableIff | ds-erase/src/main.rs:149-161 | an admitted journal can be read back, at every phase, if and only if it has at most 32 plain scan roots and fits the size limit |
| Journaling.PlaceIff | ds-erase/src/main.rs:499-507 | a directory is a place for the journal if and only if its path is absolute and its last component is `deathstroke` |
| Journaling.MappingIff | ds-erase/src/main.rs:525-530 | a mapping name is good if and only if it has 1 to 127 letters, digits or `+_.-` |
| Journaling.TargetIff | ds-erase/src/main.rs:489-498 | a target is good if and only if it is named in plain text and resolves to a LUKS device below /dev |
| Journaling.ModeIff | ds-erase/src/main.rs:440-488 | which modes and slot flags are taken: the recorded slots without flags, those given with `killslot`, and erase only when acknowledged |
| Journaling.AdmitsIff | ds-erase/src/main.rs:223-248 | a fire is admitted if and only if each of its checks holds, and then writes just this journal |
| Journaling.ResumeIff | ds-erase/src/main.rs:250-284 | a journal is accepted if and only if it is readable there and names the slots, device and mapping expected |
| Journaling.WipeAdmittedIff | ds-unlock/src/main.rs:171-189 | the pre-boot trigger, in any absolute directory `deathstroke`, is admitted if and only if the slots differ, target and mapping name are good and the directory resolves; its journal names just these |
| Journaling.PreBootAdmits | ds-unlock/src/main.rs:34-36 | so with the default directory and mapping, for any two different slots |
| Journaling.PreBootResumes | ds-unlock/src/main.rs:191-203 | and every boot accepts that journal, at every phase |
| Journaling.WipeResumesIff | ds-unlock/src/main.rs:171-203 | every journal the pre-boot wipe starts passes all resume checks at every phase if and only if the state directory's name is plain and the encoding fits |
| Journaling.AdmittedResumesIff | ds-erase/src/main.rs:250-284 | an admitted journal, at every phase, is accepted by the pre-boot resume if and only if job, mapping, roots, place and device are those expected and it can be read back |
| Journaling.StaleNeverResumes | ds-erase/src/main.rs:266-271 | a journal that names other slots than those expected is refused at every phase, size and place, and while it is seen every fire is |
| Journaling.SamePlaceResumesIff | ds-erase/src/main.rs:276-281 | with its own place, device and slots: if and only if the mapping was named, and it can be read back |
| Journaling.RecordedFire | ds-erase/src/main.rs:440-475 | a fire without flags is admitted if and only if the recorded slots differ and target and default directory are good, and its job is the recorded slots |
| Journaling.UnmappedNeverResumes | pam_ds/src/lib.rs:105-120 | on an example machine with any two different slots recorded the fire of pam_ds is admitted, and no boot accepts its journal |
| Journaling.AdmittedWithRoots | ds-erase/src/main.rs:149-161 | on that machine every list of roots without the disk is admitted, and exactly the plain ones can be read back |
| Journaling.UnreadableAdmitted | ds-erase/src/main.rs:223-248 | a fire with 33 roots, or with a line break in one, is admitted and its journal cannot be read back |
| Unlocking.CheckStartSame | ds-unlock/src/main.rs:38-47 | the start-up checks do not depend on the counter |
| Unlocking.CheckStartIff | ds-unlock/src/main.rs:39-47 | the start-up checks pass, with given values, if and only if the marker is there, none of the four files with a baked copy is missing or altered, all four are readable, and the slots differ |
| Unlocking.AlteredRefused | ds-unlock/src/main.rs:133-149 | for each of the four names, a file that is missing or differs from its baked copy is refused as tampered |
| Unlocking.NeverRunsOut | ds-core/src/lib.rs:176-190 | under any policy that validates, whatever the stored count and the codes typed, the prompts never run out |
| Unlocking.OpensIff | ds-unlock/src/main.rs:61-89 | a boot opens at a prompt if and only if the code there opens a slot and is not the duress code, all earlier codes were wrong, and the count stayed below the threshold |
| Unlocking.TriggersIff | ds-unlock/src/main.rs:61-89 | the trigger is pulled at a prompt if and only if the code there is the duress code, or is wrong and fills the count, and all codes before it were wrong |
| Unlocking.PromptsBelowLimit | ds-unlock/src/main.rs:49-60 | at every prompt the durable counter is below the threshold, and no transaction is pending if and only if the boot did not overlook one |
| Unlocking.GuessesAreCounted | ds-unlock/src/main.rs:76-111 | wrong guesses since the last reset never exceed the stored count plus the boots interrupted before the count completed |
| Unlocking.ChecksKeepPassing | ds-unlock/src/main.rs:38-47 | over every run every start-up check keeps passing with the armed values, and the counter stays readable |
| Unlocking.DailyNeverOpensAgain | ds-unlock/src/main.rs:49-76 | once a trigger's journal is durable the daily slot is never offered for opening again if and only if no boot overlooks the pending journal while that slot is active |
| Unlocking.OverlookedThenOpened | ds-unlock/src/main.rs:49-76 | on every armed machine with a journal pending, a count below the threshold and the daily slot active: a run that overlooks the journal and opens that slot |
| Unlocking.StaysDisarmed | ds-unlock/src/main.rs:49-53 | once a journal is durable, at every later state one is there or the daily slot is gone |
| Unlocking.OpensActiveSlot | ds-unlock/src/main.rs:66-75 | a device is opened only from a prompt and by a slot active there |
| Unlocking.NoPromptPastLimit | ds-unlock/src/main.rs:55-59 | at or past the threshold no prompt is ever offered again |
| Unlocking.SlotsOverBoots | ds-unlock/src/main.rs:32-90 | over any number of boots no slot but the daily one is lost, and that one only with recovery present |
| UnlockActor.Boots.BumpCount | ds-unlock/src/main.rs:105-110 | the wrong guess is durable in the counter, or the boot ends with one guess lost |
| UnlockActor.Boots.ResetCounter | ds-unlock/src/main.rs:111 | the counter is zero, or the boot ends |
| UnlockActor.Boots.DoWipe | ds-unlock/src/main.rs:171-189 | a wipe reported complete left no journal and no daily slot; without faults it completes whenever the trigger is admitted, within the scan budget and with recovery active |
| UnlockActor.Boots.ResumeWipe | ds-unlock/src/main.rs:191-203 | a resumed wipe reported complete left no journal and no daily slot, and recovery was active; a journal that is not accepted changes nothing; without faults one that is accepted, within the scan budget and with recovery active, completes |
| UnlockActor.Boots.StuckBoots | ds-unlock/src/main.rs:49-53 | with a journal pending that names no mapping, however many boots, until one overlooks it: no prompt, and disk, slots and counter unchanged |
| UnlockActor.Boots.FireFromLogin | pam_ds/src/lib.rs:105-120 | the fire without flags is a stretch of a run of the machine, refused exactly when a check fails; completed, it left no journal and no daily slot |
| UnlockActor.Boots.Turn | ds-unlock/src/main.rs:61-88 | for every code typed: a duress code triggers, one that opens a slot and is not failed by cryptsetup unlocks exactly such a slot and resets the count, any other is counted and triggers at the threshold or prompts again |
| UnlockActor.Boots.LuksOpen | ds-unlock/src/main.rs:157-169 | a slot that the code opens, or none; none for a right code only if cryptsetup failed |
| UnlockActor.Boots.Prompts | ds-unlock/src/main.rs:61-89 | the loop ends within the allowed prompts, never by the exit for too many attempts, and without faults exactly as the session of the codes typed demands |
| UnlockActor.Boots.Boot | ds-unlock/src/main.rs:32-90 | checks that fail give no prompt and change nothing; a pending journal that is seen, or a full counter, gives no prompt; each prompt costs at most one count; without faults there is no error, an accepted journal or a full counter wipes, and otherwise the boot ends as its session demands; the boot is a stretch of a run of the relation |
| UnlockActor.PreBootReady | ds-unlock/src/main.rs:34-36 | on an example machine with the default directory and mapping, any two slots and at most 10,000 entries, a trigger is admitted and carried out |
| UnlockActor.Boots.ResumingBoot | ds-unlock/src/main.rs:49-53 | with the journal of its own trigger pending, a boot without faults completes the wipe, whatever is typed |
| UnlockActor.Boots.CutThenBooted | ds-unlock/src/main.rs:49-53 | a boot stopped anywhere that leaves a journal, and one without faults after it: the second completes the wipe |
| Verifier.ParseSerialized | ds-core/src/lib.rs:83-106 | every verifier with full-length fields and a count in range is read back from its text |
| Verifier.Parse | ds-core/src/lib.rs:87-106 | every successful parse yields full-length fields and a count in range |
| Verifier.UnhexHex | ds-core/src/lib.rs:122-129 | decoding undoes encoding for every byte string |
| Verifier.HexUnhex | ds-core/src/lib.rs:122-129 | encoding undoes decoding if and only if the digits are lower-case |
| Verifier.ReprintIff | ds-core/src/lib.rs:83-106 | printing a parsed verifier gives the trimmed text back if and only if its fields are canonical |
| Verifier.ParseIff | ds-core/src/lib.rs:87-106 | a text is a verifier if and only if it has the four fields, each in its form and range |
| Verifier.PairsIff | ds-core/src/lib.rs:123-129 | hexadecimal text stands for given bytes if and only if each pair is two digits of either case, or a plus sign and one, of that value |
| Verifier.DerivedVerifies | ds-core/src/lib.rs:66-81 | a verifier is derived exactly for counts in range; written and read back it accepts its code, and another one if and only if the derived keys agree |
| AttemptPolicy.ParsePolicy | ds-core/src/lib.rs:192-215 | the line loop computes the parsed policy, and every policy it accepts validates |
| AttemptPolicy.ValidatesIff | ds-core/src/lib.rs:176-190 | exactly which policies validate |
| PolicyLines.LineBlank | ds-core/src/lib.rs:195-198 | a blank line does nothing |
| PolicyLines.LineComment | ds-core/src/lib.rs:195-198 | a line whose first ink is `#` does nothing |
| PolicyLines.PairSets | ds-core/src/lib.rs:199-203 | a key and a value with blanks around them and the sign between them act as the two alone |
| PolicyLines.LineRefused | ds-core/src/lib.rs:199-201 | any other line without an equals sign is an error |
| PolicyLines.KeySets | ds-core/src/lib.rs:204-212 | each of the four keys sets its own number if the value is one of its width, and is an error otherwise, as is any other key |
| PolicyLines.LinesInOrder | ds-core/src/lib.rs:193-214 | the lines act one after the other up to the first error |
| PolicyLines.DefaultsParsed | ds-core/src/lib.rs:149-173 | an empty file gives 3, 5, 0 and 5 |
| PolicyLines.CountIff | ds-unlock/src/main.rs:95-104 | a count is read if and only if the file is one word and blanks, and the word a number of 32 bits |
| Text.UnsignedIff | ds-unlock/src/main.rs:101-102 | a number is read if and only if the text is decimal digits, with a plus sign or without, whose value fits |
| AttemptPolicy.PrintedParses | dsctl/src/main.rs:777-781 | every policy that validates is read back from the printed configuration |
| AttemptPolicy.CountReadsBack | ds-unlock/src/main.rs:94-111 | a count is read back from its line if and only if it fits 32 bits |
| AttemptPolicy.SlotReadsBack | dsctl/src/main.rs:765-785 | a slot is read back from its line if and only if it is at most 31 |
| AtomicWriting.AfterCut | ds-core/src/lib.rs:275-311 | after a power cut a name holds one of the contents it might hold, durably |
| AtomicWriting.CutIsAtomic | ds-core/src/lib.rs:275-311 | cut in any state of the write, the target holds its old or its new bytes |
| AtomicWriting.Volume.WriteTemp | ds-core/src/lib.rs:291-301 | the temporary file is written and synced without touching any other name; an existing one is an error |
| AtomicWriting.Volume.RenameOver | ds-core/src/lib.rs:302 | the renaming is atomic, seen and after a cut |
| AtomicWriting.Volume.AtomicWrite | ds-core/src/lib.rs:277-311 | every state on the way is old or new; success means durable; a stale temporary file never alters the target; other names are untouched |
| AtomicWriting.WriteTwice | ds-core/src/lib.rs:291-311 | a stale temporary file costs at most one failed write |
| Hooks.EnsureHook | dsctl/src/main.rs:788-820 | the line loop computes the specified text or the first line's error |
| Hooks.WithoutHook | dsctl/src/main.rs:822-864 | the line loop computes the specified text or the first line's error |
| Hooks.StripTokens | dsctl/src/main.rs:841-857 | the loop over one line ends and computes its stripped form |
| HookTheorems.EnsureTwice | dsctl/src/main.rs:788-820 | for all inputs a second insertion changes nothing |
| HookTheorems.EnsuredNamesHook | dsctl/src/main.rs:788-820 | for all inputs every HOOKS line then names the hook, ahead of `encrypt` |
| HookTheorems.RemovalKeepsTheRest | dsctl/src/main.rs:833-864 | for all inputs removal keeps every other line and, on HOOKS lines, every other token in its order |
| HookTheorems.RemovedNamesNoHook | dsctl/src/main.rs:833-864 | for all inputs no HOOKS line of the resulting file names the hook |
| HookTheorems.LineRoundTrip | dsctl/src/main.rs:795-857 | on one line removal undoes insertion if and only if `encrypt` starts a token |
| HookTheorems.FileRoundTrip | dsctl/src/main.rs:788-864 | on a whole LF file insertion changes the text, and removal gives it back if and only if `encrypt` starts a token on every HOOKS line, and fails otherwise |
| HookTheorems.PrefixedEncrypt | dsctl/src/main.rs:795-857 | for every line whose `encrypt` continues a word, insertion succeeds and removal fails |
| HookTheorems.SdEncryptStays | dsctl/src/main.rs:795-857 | so for `sd-encrypt` |
| HookTheorems.HookTooLate | dsctl/src/main.rs:799-801 | a hook behind `encrypt` is refused, and stays listed |
| HookCases.EnsuredIff | dsctl/src/main.rs:788-820 | the hook can be inserted if and only if there is a HOOKS line and every one names `encrypt`, with no hook behind it; the missing line has its own error |
| HookCases.InsertionIs | dsctl/src/main.rs:797-806 | it goes in front of the first `encrypt`, with a space; a line that names it stays |
| HookCases.RemovalStep | dsctl/src/main.rs:841-856 | the first occurrence is cut out, with one white space behind it, if and only if it is a token between white space, parentheses and quotes |
| HookCases.RemovalEnd | dsctl/src/main.rs:841 | a line without the hook stays |
| HookCases.WithoutIff | dsctl/src/main.rs:833-864 | the hook can be removed if and only if there is a HOOKS line and it can be removed from every one |
| Enrolling.KnownReadsBack | dsctl/src/main.rs:384-398 | every set of slots is read back from the registry text |
| AuditCases.KnownIff | dsctl/src/main.rs:384-392 | a slot is registered if and only if its number stands in the text between commas or white space |
| AuditCases.RecordedIs | dsctl/src/main.rs:516-529 | after enrolment the two slots are on record, the registry holds just these, and the target is the device |
| Enrolling.Registry.MatchingSlots | dsctl/src/main.rs:361-372 | the active slots the secret opens, less those whose test failed; without faults exactly those it opens |
| Enrolling.Registry.EnrollRecovery | dsctl/src/main.rs:489-537 | succeeds, when nothing fails, if and only if the daily secret opens one slot, the new one opens none, a slot is free and the machine is not armed; then, whatever failed, the records and slots are exactly these, and other slots the two secrets open are exactly those whose tests failed |
| Enrolling.Registry.RecordAddedSlots | dsctl/src/main.rs:411-419 | at most one slot is added, and only the registry is written; it gains exactly that slot, or all active ones if the listing before failed, or none if the one after did, and keeps what it held if that could be read |
| Enrolling.Registry.AddKnown | dsctl/src/main.rs:402-407 | the registry grows by the new slots, or starts over from them when it could not be read |
| Enrolling.Registry.Audit | dsctl/src/main.rs:546-581 | passing means every active slot is registered and the records hold; when nothing fails the result is the specified one |
| AuditCases.AuditedIff | dsctl/src/main.rs:546-578 | the audit passes, with given values, if and only if they are on file, the two slots differ and are active, and every other active slot is registered |
| Arming.ArmedFilesAccepted | dsctl/src/main.rs:773-786 | what arm writes passes every start-up check of the pre-boot tool and reads back as the armed values, with a count of zero |
| Arming.ConsistentAt | dsctl/src/main.rs:610-651 | at every recorded state an armed login stack has both markers, an image built from the present files, and an unarmed backup |
| ArmCases.BakeIff | mkinitcpio/install/deathstroke:38-61 | without the hook the image is plain; with it, it can be built if and only if the local marker and the four files are there, and holds copies of these |
| ArmCases.GateIff | dsctl/src/main.rs:579-592 | each answer of the checks on stack and markers is given if and only if its own condition on the three holds |
| Arming.ArmThenDisarm | dsctl/src/main.rs:593-750 | disarming what arming left restores stack, markers and configuration, or fails, if and only if `encrypt` starts a token |
| ArmActor.Host.ArmSteps | dsctl/src/main.rs:610-619 | the order of the writes keeps every intermediate state consistent, and success leaves exactly the armed state |
| ArmActor.Host.RestoreEsp | dsctl/src/main.rs:632-641 | all six files are back, or an error was reported |
| ArmActor.Host.ArmRollback | dsctl/src/main.rs:620-651 | each of its ten steps is tried, whatever became of the others; a clean rollback has put everything back but the local marker, which is gone, and rebuilt the image; without faults it is unclean only if the old configuration cannot be built |
| ArmActor.Host.Arm | dsctl/src/main.rs:541-657 | armed exactly as specified, or everything as before the call but for a local marker it did not see, or reported incomplete; nothing changes unless the checks on stack and markers pass; when nothing fails the result is the specified one |
| ArmActor.IncompleteIff | dsctl/src/main.rs:620-651 | without faults a transaction that passed its checks ends incomplete if and only if the hook cannot be inserted and is listed already |
| ArmCases.VerdictIff | dsctl/src/main.rs:541-657 | when nothing fails: done if and only if records and slots are in order, the stack can be armed, no marker is there and every HOOKS line takes the hook; rolled back, incomplete, already armed and refused each if and only if its own condition holds |
| ArmCases.ArmUndisturbed | dsctl/src/main.rs:541-657 | the same of the tool, which then leaves both markers and an image with the four copies |
| ArmShutOut.MisorderedHost | dsctl/src/main.rs:592 | with authfail before pam_unix no call of `arm` changes anything, whatever fails, and the order is what it reports |
| ArmShutOut.StuckHost | dsctl/src/main.rs:799-801 | such a host, with Arch Linux's login text |
| ArmActor.Host.DisarmRollback | dsctl/src/main.rs:720-748 | each of its steps is tried, whatever became of the others; a clean rollback has the stack, configuration and the markers seen back, the stack only after the markers |
| ArmActor.Host.Disarm | dsctl/src/main.rs:695-754 | disarmed as specified, or put back but for a marker whose test failed, or refused unchanged, or reported incomplete; when nothing fails, refused if and only if the stack is marked and its backup is missing, and otherwise disarmed if and only if the hook can be removed |
| ArmShutOut.Reconcile | dsctl/src/main.rs:698-719 | an unarmed stack with a marker left, which `arm` refuses: without faults both markers and the hook go, the image is plain, and stack and backup stay, if and only if the hook can be removed; then `arm` no longer objects |
| Arming.PutBackIff | dsctl/src/main.rs:720-748 | what a rollback puts back is everything if and only if no marker is missing |
| Lifecycle.ArmedHost | dsctl/src/main.rs:610-619 | the state after a successful arm passes every start-up check |
| Lifecycle.AfterKill | ds-erase/src/main.rs:304-327 | after the removal the daily secret opens nothing if and only if enrolment missed no slot of it and the secrets differ, the recovery secret its one slot if and only if enrolment missed no other but the daily one, and the rest survives |
| Lifecycle.FiredThenStuck | pam_ds/src/lib.rs:105-120 | a fire of pam_ds that leaves its journal behind leaves a machine on which no later boot comes to a prompt, until one overlooks the journal |
| Lifecycle.RecoveryBoot | ds-unlock/src/main.rs:55-76 | after a completed wipe a boot without faults opens the recovery slot with its code if and only if the stored count is below the threshold |
| Lifecycle.EndToEnd | dsctl/src/main.rs:489-657 | from enrolment over arming to a wipe completed by a boot or by a fire with the recorded slots: survivors are the active slots less daily and all registered; daily opens nothing and recovery exactly its slot if and only if enrolment missed none of theirs, and without faults it misses none |
| CleanLife.WholeLife | ds-unlock/src/main.rs:61-76 | on a host in order with one key slot, when nothing fails: recovery is enrolled, the host armed, the duress code at the first prompt completes the wipe, the daily secret is gone, and the recovery secret opens the one slot left at the next boot |
| Lifecycle.ArmThenDisarm | dsctl/src/main.rs:541-754 | arm and then disarm, both successful with whatever faults, give back the login stack and the LF configuration byte for byte |

## Left out

- PBKDF2, salts, constant-time comparison and zeroizing: the key derivation is an uninterpreted function.
- The JSON encoding of the journal: it is taken to read back, and its length is a parameter.
- The two `luksDump` formats: the active slots are given; a listing may fail.
- Path resolution, symbolic-link and permission checks, root and disposable-machine guards, the presence of the
  PAM module file, and the check that the target is a LUKS block device: assumed to pass (`ds-erase`'s textual checks
  on them are modelled).
- `shred` interrupted midway leaves a file that is no longer a header but is still there: the model removes a
  file in one step.
- Erase mode appears in the relation and the transaction, but the theorems about runs are for the killslot mode;
  the triggers on one machine are taken to start the same recorded job, so journals of other jobs are not mixed in.
- PamArm.StackOfLines: libpam's auth rules are taken to be those dsctl finds; it also reads `AUTH`, and does not read `- auth`
  or `--auth`, as the type.
- PamTexts.ConfigAccepted: usual lines have a keyword, a default entry, or a success jump and one more entry; other
  controls are covered by the theorems on clean texts.
- Lines continued with a backslash, `include`, `substack` and `@include` in PAM files, and `setcred`: the stack is the auth
  lines of one file.
- `cryptsetup close`, network shutdown and session termination: best effort in the source, no effect on the modelled state.
- The dead-man switch, panic command, lockout delay, audits, TPM and FIDO2 commands, prompts and Plymouth, the
  boot-image sealer: wrappers and easy members.
- How mkinitcpio's shell evaluates its configuration: the hook counts as listed when some HOOKS line names it.
- Concurrent processes, an attacker who edits the disk, and other edits between the modelled calls; what a boot makes of an edited ESP
  is `Unlocking.CheckStartIff` and, for the boot itself, `UnlockActor.Boots.Boot`.
- PamModule.PamDs.Authenticate: the marker is a parameter as the module sees it; when its test fails (`pam_ds/src/lib.rs:34`) the module
  acts as unmarked, and answers `ignore`.
- Unlocking.ChecksKeepPassing: a baked copy whose `is_file` fails is skipped (`ds-unlock/src/main.rs:138`); the copies agree with the
  files on every modelled machine, so the checks pass either way.
- Journaling.AdmittedResumesIff: what the file system and the block layer answer to a check is a parameter (`Env`), as is the text of the
  recorded files; a call for which one of them fails is a call with another such parameter.
- Lifecycle.FirstBoot: the state directory holds no journal when the machine is armed; one of other slots stops every boot
  (`Journaling.StaleNeverResumes`), and runs with journals of two jobs are not followed.
- EraseActor.Machine.Fire: whether the machine is switched off at the end is not part of the state.
- Unlocking.GuessesAreCounted: the counter file is the one the tools write; other texts that read as numbers are not followed.
- ArmActor.Host.Arm: the snapshot and read errors before the first write are one fault; the installed image after a
  failed build may be anything.
- Enrolling.Registry.EnrollRecovery: the header has 32 slots, the capacity of LUKS2.
- PamModule.HistoryCounts: no login of the history strays (the exact condition of `PamExact.SimulationIff`; a stack whose jumps are all
  carried right has none, `PamModule.FitKeeps`); writes of the attempts file succeed, as its claim demands; failing ones are in `PamModule.PamDs.OnAuthfail`.
- PamTheorem.ArmingPreservesLogin: each numeric jump behind `success=` is the one `success` entry of its control and its value
  fits the machine word, as on every line the rewriter reads the way libpam does.
