/** The journaled destruction transaction as a relation between durable states. */
module Erasing {
  import opened Text
  import opened HeaderScan
  import opened Journaling
  import Runs

  type Secret = string

  /** The key slots a secret opens. */
  function Matching(slots: map<nat, Secret>, secret: Secret): set<nat> {
    set k | k in slots && slots[k] == secret
  }

  /** What survives a power cut: the LUKS key slots, the files under the state directory, the journal. */
  datatype Disk = Disk(slots: map<nat, Secret>, tree: Tree, journal: Option<Journal>)

  /** Where a scan root given as text lies in the tree. */
  type Locator = string -> Path

  function Roots(at: Locator, j: Journal): (r: seq<Path>)
    ensures |r| == |j.scan| && forall i :: 0 <= i < |r| ==> r[i] == at(j.scan[i])
  {
    seq(|j.scan|, i requires 0 <= i < |j.scan| => at(j.scan[i]))
  }

  /** `verify_keyslot_outcome` */
  predicate OutcomeHolds(slots: map<nat, Secret>, j: Journal) {
    match j.mode
    case KillSlot => j.slot.Some? && j.recovery.Some? && j.slot.value !in slots && j.recovery.value in slots
    case Erase => slots == map[]
  }

  // ---- one durable step ----

  /** A new journal: over none, or over a pending one that `fire` took for absent. */
  ghost predicate Begin(d: Disk, d': Disk) {
    && d'.journal.Some? && d'.journal.value.phase == Prepared
    && SlotsFit(d'.journal.value.mode, d'.journal.value.slot, d'.journal.value.recovery)
    && d' == d.(journal := d'.journal)
  }

  ghost predicate Unlink(at: Locator, d: Disk, d': Disk) {
    && d.journal.Some? && d.journal.value.phase == Prepared
    && exists p :: p in Found(d.tree, Roots(at, d.journal.value)) && d' == d.(tree := d.tree - {p})
  }

  /** The scan is over. A file whose first bytes it could not read it took for no header and left. */
  ghost predicate Handle(d: Disk, d': Disk) {
    && d.journal.Some? && d.journal.value.phase == Prepared
    && d' == d.(journal := Some(d.journal.value.(phase := BackupsHandled)))
  }

  ghost predicate Kill(d: Disk, d': Disk) {
    && d.journal.Some? && d.journal.value.phase == BackupsHandled
    && var j := d.journal.value;
    match j.mode
    case KillSlot =>
      && j.slot.Some? && j.recovery.Some? && j.recovery.value in d.slots
      && d' == d.(slots := d.slots - {j.slot.value})
    case Erase => d' == d.(slots := map[])
  }

  ghost predicate Confirm(d: Disk, d': Disk) {
    && d.journal.Some? && d.journal.value.phase == BackupsHandled
    && OutcomeHolds(d.slots, d.journal.value)
    && d' == d.(journal := Some(d.journal.value.(phase := KeyslotsDestroyed)))
  }

  ghost predicate Finish(d: Disk, d': Disk) {
    && d.journal.Some? && d.journal.value.phase == KeyslotsDestroyed
    && OutcomeHolds(d.slots, d.journal.value)
    && d' == d.(journal := None)
  }

  ghost predicate Step(at: Locator, d: Disk, d': Disk) {
    d' == d || Begin(d, d') || Unlink(at, d, d') || Handle(d, d') || Kill(d, d') || Confirm(d, d') || Finish(d, d')
  }

  /** A pending journal gives way to another one, or to itself at an earlier phase. */
  predicate Overwrites(d: Disk, d': Disk) {
    d.journal.Some? && d'.journal.Some? && d'.journal != d.journal && d'.journal.value.phase == Prepared
  }

  /** The header backups the pending transaction can still come across. */
  ghost function InReach(at: Locator, d: Disk): set<Path>
    requires d.journal.Some?
  {
    Found(d.tree, Roots(at, d.journal.value))
  }

  /** The scan ends with a header backup left. */
  ghost predicate Skips(at: Locator, d: Disk, d': Disk) { Handle(d, d') && InReach(at, d) != {} }

  ghost function Steps(at: Locator): (Disk, Disk) -> bool { (d, d') => Step(at, d, d') }

  /** A history of durable states, over any number of boots, cuts, and resumes. */
  ghost predicate IsRun(at: Locator, run: seq<Disk>) { Runs.IsRun(Steps(at), run) }

  lemma RunStep(at: Locator, run: seq<Disk>, k: nat)
    requires IsRun(at, run) && k + 1 < |run|
    ensures Step(at, run[k], run[k + 1])
  {
    Runs.StepAt(Steps(at), run, k);
  }

  /** What the journal guarantees about the disk. */
  ghost predicate Sound(d: Disk) {
    d.journal.Some? ==>
      var j := d.journal.value;
      && SlotsFit(j.mode, j.slot, j.recovery)
      && (j.phase == KeyslotsDestroyed ==> OutcomeHolds(d.slots, j))
  }

  /** A run whose every state is sound and whose transactions all do one job. */
  ghost predicate History(at: Locator, job: Job, run: seq<Disk>)
    decreases |run|
  {
    && run != []
    && Sound(run[|run| - 1]) && DoesJob(run[|run| - 1], job)
    && (|run| > 1 ==> Step(at, run[|run| - 2], run[|run| - 1]) && History(at, job, run[..|run| - 1]))
  }

  lemma {:induction false} HistoryIsRun(at: Locator, job: Job, run: seq<Disk>)
    requires History(at, job, run)
    ensures IsRun(at, run) && Sound(run[0]) && OnlyJob(run, job)
    decreases |run|
  {
    if |run| > 1 {
      HistoryIsRun(at, job, run[..|run| - 1]);
      assert forall i :: 0 <= i < |run| - 1 ==> run[i] == run[..|run| - 1][i];
    }
  }

  lemma HistoryGrows(at: Locator, job: Job, run: seq<Disk>, d: Disk)
    requires History(at, job, run) && Step(at, run[|run| - 1], d) && DoesJob(d, job)
    ensures History(at, job, run + [d])
  {
    StepSound(at, run[|run| - 1], d);
    assert (run + [d])[..|run|] == run;
  }

  lemma StepSound(at: Locator, d: Disk, d': Disk)
    requires Sound(d) && Step(at, d, d')
    ensures Sound(d')
  {
  }

  lemma RunSound(at: Locator, run: seq<Disk>, k: nat)
    requires IsRun(at, run) && Sound(run[0]) && k < |run|
    ensures Sound(run[k])
  {
    var inv := (d: Disk) => Sound(d);
    forall d, d' | inv(d) && Steps(at)(d, d') ensures inv(d') { StepSound(at, d, d'); }
    Runs.Holds(Steps(at), inv, run, 0, k);
  }

  // ---- refinement of one atomic removal ----

  ghost predicate DoesJob(d: Disk, job: Job) { d.journal.Some? ==> JobOf(d.journal.value) == job }

  /** All transactions of the run do the same job. */
  ghost predicate OnlyJob(run: seq<Disk>, job: Job) {
    forall i :: 0 <= i < |run| ==> DoesJob(run[i], job)
  }

  /** The specification: remove the daily slot while the recovery slot is there. */
  predicate AtomicKill(s: map<nat, Secret>, s': map<nat, Secret>, daily: nat, recovery: nat) {
    recovery in s && recovery != daily && s' == s - {daily}
  }

  /** Every durable step either leaves the key slots alone or is the atomic removal, after the header scan has ended. */
  lemma StepRefines(at: Locator, d: Disk, d': Disk, daily: nat, recovery: nat)
    requires Sound(d) && Step(at, d, d') && DoesJob(d, KillJob(daily, recovery))
    ensures d'.slots != d.slots ==>
              && AtomicKill(d.slots, d'.slots, daily, recovery)
              && d.journal.Some? && d.journal.value.phase == BackupsHandled
  {
  }

  /** Over any run the key slots are those of the start, or those of the start after one atomic removal:
      the recovery slot and every other slot keep their secrets. */
  lemma {:induction false} RunRefines(at: Locator, run: seq<Disk>, daily: nat, recovery: nat, k: nat)
    requires IsRun(at, run) && Sound(run[0]) && OnlyJob(run, KillJob(daily, recovery)) && k < |run|
    ensures run[k].slots == run[0].slots || AtomicKill(run[0].slots, run[k].slots, daily, recovery)
  {
    if k > 0 {
      RunRefines(at, run, daily, recovery, k - 1);
      RunSound(at, run, k - 1);
      RunStep(at, run, k - 1);
      StepRefines(at, run[k - 1], run[k], daily, recovery);
    }
  }

  function Rank(d: Disk): nat {
    match d.journal
    case None => 0
    case Some(j) => if j.phase == Prepared then 1 else if j.phase == BackupsHandled then 2 else 3
  }

  /** While a journal stays in place, a step keeps its job and does not take its phase back if and only if it does not
      overwrite it; a journal is removed only after the outcome was verified. */
  lemma StepAdvances(at: Locator, d: Disk, d': Disk)
    requires Step(at, d, d')
    ensures d.journal.Some? && d'.journal.Some? ==>
              (Rank(d) <= Rank(d') && SameJob(d.journal.value, d'.journal.value) <==> !Overwrites(d, d'))
    ensures d.journal.Some? && d'.journal.None? ==> Rank(d) == 3 && OutcomeHolds(d.slots, d.journal.value) && d'.slots == d.slots
  {
  }

  ghost predicate InPlace(run: seq<Disk>, i: nat, k: nat)
    requires k < |run|
  {
    forall m :: i <= m <= k ==> run[m].journal.Some?
  }

  /** The journal of state `k` is that of state `i`, advanced. */
  predicate Advanced(run: seq<Disk>, i: nat, k: nat)
    requires i < |run| && k < |run| && run[i].journal.Some? && run[k].journal.Some?
  {
    Rank(run[i]) <= Rank(run[k]) && SameJob(run[i].journal.value, run[k].journal.value)
  }

  ghost predicate Overwritten(run: seq<Disk>, i: nat, k: nat)
    requires k < |run|
  {
    exists m :: i <= m < k && Overwrites(run[m], run[m + 1])
  }

  /** Over a stretch of a run with a journal in place: nothing overwrites it if and only if it is one journal all along, its
      phase only advancing. */
  lemma {:induction false} PhaseAdvances(at: Locator, run: seq<Disk>, i: nat, k: nat)
    requires IsRun(at, run) && i <= k < |run| && InPlace(run, i, k)
    ensures !Overwritten(run, i, k) <==> forall m, n :: i <= m <= n <= k ==> Advanced(run, m, n)
    decreases k - i
  {
    if i < k {
      PhaseAdvances(at, run, i, k - 1);
      RunStep(at, run, k - 1);
      StepAdvances(at, run[k - 1], run[k]);
      if !Overwritten(run, i, k) {
        assert !Overwritten(run, i, k - 1);
        forall m, n | i <= m <= n <= k ensures Advanced(run, m, n) {
          if n == k && m < k { assert Advanced(run, m, k - 1); }
        }
      } else if Overwrites(run[k - 1], run[k]) {
        assert !Advanced(run, k - 1, k);
      } else {
        assert Overwritten(run, i, k - 1);
      }
    }
  }

  /** Once a killslot journal is durable, at every later point either a journal is there or the daily slot
      is gone, whatever boots, cuts, failures, and resumes come between. */
  lemma {:induction false} JournalOrGone(at: Locator, run: seq<Disk>, daily: nat, recovery: nat, k: nat)
    requires IsRun(at, run) && Sound(run[0]) && OnlyJob(run, KillJob(daily, recovery)) && k < |run|
    requires run[0].journal.Some?
    ensures run[k].journal.Some? || daily !in run[k].slots
  {
    if k > 0 {
      JournalOrGone(at, run, daily, recovery, k - 1);
      RunSound(at, run, k - 1);
      RunStep(at, run, k - 1);
      StepRefines(at, run[k - 1], run[k], daily, recovery);
      StepAdvances(at, run[k - 1], run[k]);
    }
  }

  // ---- where a transaction ends ----

  /** The state a completion of the journal leads to, if its scan, when it is still to come, leaves the files in `left`. */
  ghost function Final(at: Locator, d: Disk, left: set<Path>): Disk {
    match d.journal
    case None => d
    case Some(j) =>
      Disk(if j.mode == KillSlot && j.slot.Some? then d.slots - {j.slot.value} else map[],
           if j.phase == Prepared then d.tree - (InReach(at, d) - left) else d.tree, None)
  }

  /** A completed transaction has dropped its journal, taken away the slot it names or, in erase mode, every slot, and, from the
      first phase on, left just the given files in reach. */
  lemma FinalMeans(at: Locator, d: Disk, left: set<Path>, j: Journal)
    requires d.journal == Some(j) && SlotsFit(j.mode, j.slot, j.recovery) && left <= InReach(at, d)
    ensures var e := Final(at, d, left);
            && e.journal.None?
            && (forall k :: k in e.slots <==> j.mode == KillSlot && k in d.slots && j.slot != Some(k))
            && (forall k :: k in e.slots ==> e.slots[k] == d.slots[k])
            && (j.phase == Prepared ==> Found(e.tree, Roots(at, j)) == left)
            && (j.phase != Prepared ==> e.tree == d.tree)
  {
    if j.phase == Prepared { FoundAfter(d.tree, Roots(at, j), InReach(at, d) - left); }
  }

  /** Of the files in reach, each one left makes a difference. */
  lemma FinalIff(at: Locator, d: Disk, left: set<Path>)
    requires d.journal.Some? && left <= InReach(at, d) && (d.journal.value.phase != Prepared ==> left == {})
    ensures Final(at, d, left) == Final(at, d, {}) <==> left == {}
  {
    if p :| p in left { assert p in Final(at, d, left).tree && p !in Final(at, d, {}).tree; }
  }

  /** A step of a transaction changes where it ends if and only if it ends the scan with a header backup left. */
  lemma StepKeepsFinal(at: Locator, d: Disk, d': Disk)
    requires Sound(d) && Step(at, d, d') && d.journal.Some? && !Overwrites(d, d')
    ensures Final(at, d', {}) == Final(at, d, {}) <==> !Skips(at, d, d')
  {
    var j := d.journal.value;
    var roots := Roots(at, j);
    if d'.journal.Some? { assert Roots(at, d'.journal.value) == roots; }
    if Unlink(at, d, d') {
      var p :| p in Found(d.tree, roots) && d' == d.(tree := d.tree - {p});
      ScanResumes(d.tree, roots, {p});
    } else if Handle(d, d') {
      HandleEnds(at, d, d');
    } else if Finish(d, d') {
      assert j.mode == KillSlot ==> d.slots - {j.slot.value} == d.slots;
    } else if Kill(d, d') && j.mode == KillSlot {
      assert (d.slots - {j.slot.value}) - {j.slot.value} == d.slots - {j.slot.value};
    }
  }

  lemma HandleEnds(at: Locator, d: Disk, d': Disk)
    requires Handle(d, d')
    ensures Final(at, d', {}) == Final(at, d, {}) <==> InReach(at, d) == {}
  {
    if p :| p in InReach(at, d) { assert p in Final(at, d', {}).tree && p !in Final(at, d, {}).tree; }
    assert d.tree - {} == d.tree;
  }

  ghost predicate Skipped(at: Locator, run: seq<Disk>, k: nat)
    requires k < |run|
  {
    exists m :: 0 <= m < k && Skips(at, run[m], run[m + 1])
  }

  /** From a cut of a transaction, completing it leads to the disk and file tree it was heading for if and only if no scan
      before has ended with a header backup left. */
  lemma {:induction false} RunKeepsFinal(at: Locator, run: seq<Disk>, k: nat)
    requires IsRun(at, run) && Sound(run[0]) && k < |run| && !Overwritten(run, 0, k)
    requires forall m :: 0 <= m < k ==> run[m].journal.Some?
    ensures Final(at, run[k], {}) == Final(at, run[0], {}) <==> !Skipped(at, run, k)
  {
    if k > 0 {
      assert !Overwritten(run, 0, k - 1);
      RunKeepsFinal(at, run, k - 1);
      RunSound(at, run, k - 1);
      RunStep(at, run, k - 1);
      StepKeepsFinal(at, run[k - 1], run[k]);
      if Skips(at, run[k - 1], run[k]) { EndsOnce(at, run, k - 1); }
    }
  }

  /** A scan still to end has not ended before. */
  lemma EndsOnce(at: Locator, run: seq<Disk>, k: nat)
    requires IsRun(at, run) && k < |run| && InPlace(run, 0, k) && !Overwritten(run, 0, k)
    requires run[k].journal.value.phase == Prepared
    ensures !Skipped(at, run, k)
  {
    PhaseAdvances(at, run, 0, k);
    forall m | 0 <= m < k ensures !Skips(at, run[m], run[m + 1]) {
      assert Advanced(run, m + 1, k);
    }
  }

  // ---- what is left when the key slots go ----

  /** Behind every journal past its scan there is the step that ended the scan. The tree has not changed since, so the header
      backups left are those left there. */
  lemma {:induction false} ScanBefore(at: Locator, run: seq<Disk>, k: nat) returns (h: nat)
    requires IsRun(at, run) && k < |run| && run[k].journal.Some? && run[k].journal.value.phase != Prepared
    requires run[0].journal.Some? ==> run[0].journal.value.phase == Prepared
    ensures h < k && Handle(run[h], run[h + 1]) && run[k].tree == run[h].tree
    ensures InReach(at, run[k]) == InReach(at, run[h]) && (InReach(at, run[k]) == {} <==> !Skips(at, run[h], run[h + 1]))
  {
    RunStep(at, run, k - 1);
    h := k - 1;
    if !Handle(run[k - 1], run[k]) { h := ScanBefore(at, run, k - 1); }
    assert Roots(at, run[k].journal.value) == Roots(at, run[k - 1].journal.value);
  }

  /** When a step of a run removes the daily slot, no header backup is in reach if and only if the scan that ended last had left
      none. */
  lemma RemovedAfterScan(at: Locator, run: seq<Disk>, daily: nat, recovery: nat, k: nat) returns (h: nat)
    requires IsRun(at, run) && Sound(run[0]) && OnlyJob(run, KillJob(daily, recovery)) && k + 1 < |run|
    requires run[0].journal.Some? ==> run[0].journal.value.phase == Prepared
    requires run[k + 1].slots != run[k].slots
    ensures AtomicKill(run[k].slots, run[k + 1].slots, daily, recovery) && run[k].journal.Some?
    ensures h < k && Handle(run[h], run[h + 1]) && (InReach(at, run[k]) == {} <==> !Skips(at, run[h], run[h + 1]))
  {
    RunSound(at, run, k);
    RunStep(at, run, k);
    StepRefines(at, run[k], run[k + 1], daily, recovery);
    h := ScanBefore(at, run, k);
  }

  // ---- runs in which a test said no ----

  lemma Grows(at: Locator, run: seq<Disk>, d: Disk)
    requires IsRun(at, run) && Step(at, run[|run| - 1], d)
    ensures IsRun(at, run + [d])
  {
    Runs.Extend(Steps(at), run, d);
  }

  /** A scan that could read none of the header files in reach: the transaction completes, the daily slot is gone, and they
      are all left, with nothing pending. */
  lemma LeftBehind(at: Locator, d: Disk, j: Journal, daily: nat, recovery: nat) returns (run: seq<Disk>)
    requires d.journal == Some(j) && j.phase == Prepared && JobOf(j) == KillJob(daily, recovery)
    requires SlotsFit(j.mode, j.slot, j.recovery) && recovery in d.slots && InReach(at, d) != {}
    ensures IsRun(at, run) && Sound(run[0]) && OnlyJob(run, KillJob(daily, recovery)) && run[0] == d
    ensures !Overwritten(run, 0, |run| - 1) && run[|run| - 1] == Disk(d.slots - {daily}, d.tree, None)
    ensures Final(at, d, {}) != run[|run| - 1]
  {
    var d1 := d.(journal := Some(j.(phase := BackupsHandled)));
    var d2 := d1.(slots := d.slots - {daily});
    var d3 := d2.(journal := Some(j.(phase := KeyslotsDestroyed)));
    var d4 := d3.(journal := None);
    run := [d];
    Grows(at, run, d1);
    Grows(at, run + [d1], d2);
    Grows(at, run + [d1] + [d2], d3);
    Grows(at, run + [d1] + [d2] + [d3], d4);
    run := run + [d1] + [d2] + [d3] + [d4];
    FinalIff(at, d, InReach(at, d));
    assert d.tree - {} == d.tree;
  }

  /** A fire that does not see the pending journal sets its transaction back. */
  lemma SetBack(at: Locator, d: Disk, j: Journal) returns (run: seq<Disk>)
    requires d.journal == Some(j) && j.phase != Prepared && SlotsFit(j.mode, j.slot, j.recovery)
    ensures IsRun(at, run) && |run| == 2 && run[0] == d && InPlace(run, 0, 1)
    ensures Overwritten(run, 0, 1) && !Advanced(run, 0, 1)
  {
    var d1 := d.(journal := Some(j.(phase := Prepared)));
    run := [d];
    Grows(at, run, d1);
    run := run + [d1];
    assert Overwrites(run[0], run[1]);
  }
}
