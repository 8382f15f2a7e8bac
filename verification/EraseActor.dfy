/** ds-erase itself, working on the durable state step by step. A call with `faults` may meet a failing
    command or a power cut at any effect, and a test for a file or for its first bytes may fail and so say no;
    every durable state it passes is recorded in `trail`. */
module EraseActor {
  import opened Text
  import opened HeaderScan
  import opened Journaling
  import opened Erasing
  import opened Faulting
  import opened Sequences

  datatype ScanResult = Removed(count: nat) | OverBudget | Stopped(effect: Effect)

  datatype FireResult = Rejected(error: FireError) | Fired(effect: Effect)

  datatype ResumeResult = Refused(reason: ResumeError) | Resumed(outcome: Effect)

  class Machine {
    const at: Locator
    /** The machine's recorded slots: every trigger on it starts this job. */
    ghost const job: Job
    var slots: map<nat, Secret>
    var tree: Tree
    var journal: Option<Journal>
    ghost var trail: seq<Disk>

    ghost function Now(): Disk
      reads this
    {
      Disk(slots, tree, journal)
    }

    /** The recorded history is one of the transaction relation and ends in the present state. */
    ghost predicate Valid()
      reads this
    {
      && trail != [] && trail[|trail| - 1] == Now()
      && History(at, job, trail)
    }

    /** Everything recorded before is still recorded. */
    twostate predicate Extends()
      reads this
    {
      old(trail) <= trail
    }

    constructor (at: Locator, ghost job: Job, slots: map<nat, Secret>, tree: Tree)
      ensures Valid() && this.at == at && this.job == job && Now() == Disk(slots, tree, None)
    {
      this.at, this.job, this.slots, this.tree, this.journal := at, job, slots, tree, None;
      trail := [Disk(slots, tree, None)];
    }

    ghost method Record()
      requires trail != [] && History(at, job, trail)
      requires Step(at, trail[|trail| - 1], Now()) && DoesJob(Now(), job)
      modifies this`trail
      ensures Valid() && trail == old(trail) + [Now()]
    {
      HistoryGrows(at, job, trail, Now());
      trail := trail + [Now()];
    }

    // ---- single effects ----

    /** `write_journal`: on an error or a cut the old or the new journal is in place. */
    method WriteJournal(j: Journal, faults: bool) returns (e: Effect)
      requires Valid() && Step(at, Now(), Now().(journal := Some(j))) && JobOf(j) == job
      modifies this`journal, this`trail
      ensures Valid() && Extends()
      ensures e.Done? ==> journal == Some(j)
      ensures !e.Done? ==> faults && (journal == Some(j) || journal == old(journal))
    {
      var fault: bool, renamed: bool, cut: bool := *, *, *;
      if faults && fault {
        if renamed {
          journal := Some(j);
          Record();
        }
        return if cut then Cut else Failed;
      }
      journal := Some(j);
      Record();
      return Done;
    }

    /** `remove_journal` */
    method RemoveJournal(faults: bool) returns (e: Effect)
      requires Valid() && journal.Some? && Step(at, Now(), Now().(journal := None))
      modifies this`journal, this`trail
      ensures Valid() && Extends() && SameEnd({})
      ensures e.Done? ==> journal == None
      ensures !e.Done? ==> faults && (journal == None || journal == old(journal))
    {
      var fault: bool, unlinked: bool, cut: bool := *, *, *;
      StepKeepsFinal(at, Now(), Now().(journal := None));
      if faults && fault {
        if unlinked {
          journal := None;
          Record();
        }
        return if cut then Cut else Failed;
      }
      journal := None;
      Record();
      return Done;
    }

    /** `erase_header_file` */
    method EraseHeaderFile(p: Path, faults: bool) returns (e: Effect)
      requires Valid() && journal.Some? && journal.value.phase == Prepared
      requires p in Found(tree, Roots(at, journal.value))
      modifies this`tree, this`trail
      ensures Valid() && Extends()
      ensures e.Done? ==> tree == old(tree) - {p}
      ensures !e.Done? ==> faults && (tree == old(tree) - {p} || tree == old(tree))
    {
      var fault: bool, unlinked: bool, cut: bool := *, *, *;
      if faults && fault && !unlinked { return if cut then Cut else Failed; }
      tree := tree - {p};
      assert Unlink(at, old(Now()), Now());
      Record();
      return if faults && fault then (if cut then Cut else Failed) else Done;
    }

    /** `luks_kill_slot` in killslot mode, `luks_erase` in erase mode. */
    method DestroySlots(slot: Option<nat>, faults: bool) returns (e: Effect)
      requires Valid() && journal.Some? && journal.value.phase == BackupsHandled
      requires journal.value.slot == slot && (journal.value.mode == KillSlot <==> slot.Some?)
      requires slot.Some? ==> journal.value.recovery.Some? && journal.value.recovery.value in slots
      modifies this`slots, this`trail
      ensures Valid() && Extends()
      ensures e.Done? ==> slots == if slot.Some? then old(slots) - {slot.value} else map[]
      ensures !e.Done? ==> faults && (slots == old(slots) || slots == if slot.Some? then old(slots) - {slot.value} else map[])
    {
      var fault: bool, wiped: bool, cut: bool := *, *, *;
      if faults && fault && !wiped { return if cut then Cut else Failed; }
      slots := if slot.Some? then slots - {slot.value} else map[];
      Record();
      return if faults && fault then (if cut then Cut else Failed) else Done;
    }

    /** `active_slot_set`: the dump may fail. */
    method ActiveSlots(faults: bool) returns (e: Effect, active: set<nat>)
      ensures e.Done? ==> active == slots.Keys
      ensures !e.Done? ==> faults
    {
      e := Command(faults);
      active := slots.Keys;
    }

    /** Where only files to be found are gone. */
    lemma PartlyEnds(t0: Tree, roots: seq<Path>, t: Tree, removed: set<Path>)
      requires removed <= Found(t0, roots) && t == t0 - removed
      ensures Scanned(t, roots) == Scanned(t0, roots)
      ensures TotalWeight(t, roots) <= TotalWeight(t0, roots)
    {
      ScanResumes(t0, roots, removed);
      WeightShrinks(t0, removed, roots);
    }

    lemma SameRoots(j: Journal, k: Journal)
      requires SameJob(j, k)
      ensures Roots(at, k) == Roots(at, j)
    {
    }

    // ---- the header scan ----

    /** The entries of a directory, pushed in whatever order the directory gives them. */
    method PushChildren(p: Path, stack: seq<Path>, ghost t0: Tree) returns (longer: seq<Path>)
      requires tree.Keys <= t0.Keys && p in t0
      ensures stack <= longer
      ensures forall c :: c in Children(tree, p) ==> c in longer
      ensures forall i :: |stack| <= i < |longer| ==> longer[i] in Children(tree, p)
      ensures TotalWeight(t0, longer) < TotalWeight(t0, stack) + Weight(t0, p)
    {
      longer := stack;
      var kids := Children(tree, p);
      ghost var rem := Subtree(t0, p) - {p};
      SubtreeCounts(t0, p);
      assert p in Subtree(t0, p);
      forall c | c in kids
        ensures c in Children(t0, p) && Subtree(t0, c) <= rem
      {
        assert p <= c;
      }
      while kids != {}
        invariant kids <= Children(tree, p) && kids <= Children(t0, p)
        invariant stack <= longer
        invariant forall c :: c in Children(tree, p) ==> c in kids || c in longer
        invariant forall i :: |stack| <= i < |longer| ==> longer[i] in Children(tree, p)
        invariant forall c :: c in kids ==> Subtree(t0, c) <= rem
        invariant TotalWeight(t0, longer) + |rem| < TotalWeight(t0, stack) + Weight(t0, p)
        decreases kids
      {
        var c :| c in kids;
        rem := TakeChild(t0, p, c, kids, rem);
        WeightAppend(t0, longer, c);
        longer := longer + [c];
        kids := kids - {c};
      }
    }

    method EraseFound(p: Path, roots: seq<Path>, ghost t0: Tree, ghost removed: set<Path>, faults: bool) returns (e: Effect)
      requires Valid() && journal.Some? && journal.value.phase == Prepared && roots == Roots(at, journal.value)
      requires removed <= Found(t0, roots) && tree == t0 - removed && p in tree && p in Found(t0, roots)
      modifies this`tree, this`trail
      ensures Valid() && Extends()
      ensures e.Done? ==> tree == t0 - (removed + {p})
      ensures !e.Done? ==> faults && (tree == t0 - (removed + {p}) || tree == t0 - removed)
    {
      FoundAfter(t0, roots, removed);
      e := EraseHeaderFile(p, faults);
      assert t0 - removed - {p} == t0 - (removed + {p});
    }

    /** `is_luks_header_file`: a file that cannot be opened or read counts as none. */
    method BeginsWithMagic(p: Path, faults: bool) returns (header: bool)
      requires p in tree && tree[p].File?
      ensures header ==> tree[p].luks
      ensures !faults ==> header == tree[p].luks
    {
      var unread: bool := *;
      header := tree[p].luks && !(faults && unread);
    }

    /** One path of the walk: skipped, replaced by its entries, or erased. `unread` grows by a header file taken for none. */
    method Visit(whole: seq<Path>, destroyed: nat, roots: seq<Path>, ghost t0: Tree, ghost removed: set<Path>,
                 ghost unread: set<Path>, ghost all: set<Path>, ghost seen: set<Path>, faults: bool)
      returns (e: Effect, longer: seq<Path>, total: nat, ghost gone: set<Path>, ghost missed: set<Path>)
      requires Valid() && journal.Some? && journal.value.phase == Prepared && roots == Roots(at, journal.value)
      requires removed <= Found(t0, roots) && tree == t0 - removed && destroyed == |removed|
      requires unread <= Found(t0, roots) && (!faults ==> unread == {})
      requires whole != [] && Covered(t0, Found(t0, roots), removed + unread, whole) && Rooted(t0, roots, whole)
      requires all <= t0.Keys && Covered(t0, all, seen, whole) && removed <= seen
      modifies this`tree, this`trail
      ensures Valid() && Extends()
      ensures gone <= Found(t0, roots) && tree == t0 - gone
      ensures missed <= Found(t0, roots) && (!faults ==> missed == {})
      ensures e.Done? ==>
                && total == |gone|
                && Covered(t0, Found(t0, roots), gone + missed, longer) && Rooted(t0, roots, longer)
                && Covered(t0, all, seen + {whole[|whole| - 1]}, longer) && gone <= seen + {whole[|whole| - 1]}
                && TotalWeight(t0, longer) < TotalWeight(t0, whole)
      ensures !e.Done? ==> faults
    {
      var path, stack := whole[|whole| - 1], whole[..|whole| - 1];
      assert whole == stack + [path];
      WeightAppend(t0, stack, path);
      longer, total, gone, missed := stack, destroyed, removed, unread;
      ghost var found := Found(t0, roots);
      StillRooted(t0, roots, stack, path);
      if path !in t0 || t0[path] != Dir { PopSeen(t0, all, seen, stack, path); }
      e := Command(faults);
      if !e.Done? { return; }
      if path !in tree || tree[path] == Link || tree[path] == Special {
        PopLeaf(t0, found, removed + unread, stack, path);
      } else if tree[path] == Dir {
        e := Command(faults);
        if !e.Done? { return; }
        longer := PushChildren(path, stack, t0);
        PopDir(t0, found, removed, removed + unread, stack, path, longer);
        PopDir(t0, all, removed, seen + {path}, stack, path, longer);
        RootedDir(t0, roots, removed, stack, path, longer);
      } else {
        var header := BeginsWithMagic(path, faults);
        if !header {
          if tree[path] == File(true) {
            PopFile(t0, roots, removed + unread, stack, path);
            missed := unread + {path};
            assert removed + unread + {path} == gone + missed;
          } else {
            PopLeaf(t0, found, removed + unread, stack, path);
          }
        } else {
          PopFile(t0, roots, removed + unread, stack, path);
          assert removed + unread + {path} == removed + {path} + unread;
          e := EraseFound(path, roots, t0, removed, faults);
          total := destroyed + 1;
          if tree != t0 - removed { gone := removed + {path}; }
        }
      }
    }

    /** What a finished walk leaves. */
    lemma Rest(t0: Tree, roots: seq<Path>, removed: set<Path>, unread: set<Path>) returns (left: set<Path>)
      requires Covered(t0, Found(t0, roots), removed + unread, []) && removed <= Found(t0, roots) && unread <= Found(t0, roots)
      ensures left == Found(t0, roots) - removed && (unread == {} ==> left == {})
    {
      AllRemoved(t0, roots, removed + unread);
      left := unread - removed;
    }

    /** `destroy_header_backups`: a walk over a stack of paths, bounded by the entry budget. A walk that comes to its end
        leaves exactly those of the files to be found that it could not read. */
    method DestroyHeaderBackups(roots: seq<Path>, faults: bool)
      returns (r: ScanResult, ghost removed: set<Path>, ghost left: set<Path>)
      requires Valid() && journal.Some? && journal.value.phase == Prepared && roots == Roots(at, journal.value)
      modifies this`tree, this`trail
      ensures Valid() && Extends()
      ensures removed <= Found(old(tree), roots) && tree == old(tree) - removed
      ensures r.Removed? ==> left == Found(old(tree), roots) - removed && r.count == |removed|
      ensures r.Removed? && !faults ==> left == {}
      ensures r.OverBudget? ==> TotalWeight(old(tree), roots) > MAX_SCAN_ENTRIES
      ensures r.Removed? ==> |Reach(old(tree), roots)| <= 10000
      ensures r.Stopped? ==> faults && !r.effect.Done?
    {
      ghost var t0 := tree;
      ghost var unread: set<Path> := {};
      ghost var all, seen: set<Path> := Reach(t0, roots), {};
      removed, left := {}, {};
      var stack := roots;
      var visited, destroyed := 0, 0;
      assert tree == t0 - removed;
      StartScan(t0, roots);
      while stack != []
        invariant Valid() && Extends()
        invariant removed <= Found(t0, roots) && tree == t0 - removed && destroyed == |removed|
        invariant unread <= Found(t0, roots) && (!faults ==> unread == {})
        invariant Covered(t0, Found(t0, roots), removed + unread, stack) && Rooted(t0, roots, stack)
        invariant Covered(t0, all, seen, stack) && removed <= seen && |seen| <= visited
        invariant visited + TotalWeight(t0, stack) <= TotalWeight(t0, roots)
        invariant visited <= MAX_SCAN_ENTRIES
        decreases MAX_SCAN_ENTRIES - visited
      {
        visited := visited + 1;
        if visited > MAX_SCAN_ENTRIES {
          StackWeighs(t0, stack);
          return OverBudget, removed, left;
        }
        ghost var before := trail;
        var e, longer, total, gone, missed := Visit(stack, destroyed, roots, t0, removed, unread, all, seen, faults);
        PrefixesChain(old(trail), before, trail);
        removed, unread, seen := gone, missed, seen + {stack[|stack| - 1]};
        if !e.Done? { return Stopped(e), removed, left; }
        stack, destroyed := longer, total;
      }
      left := Rest(t0, roots, removed, unread);
      SubsetCount(all, seen);
      return Removed(destroyed), removed, left;
    }

    // ---- the transaction ----

    /** `verify_keyslot_outcome` */
    method VerifyOutcome(j: Journal, faults: bool) returns (e: Effect)
      requires SlotsFit(j.mode, j.slot, j.recovery)
      ensures e.Done? ==> OutcomeHolds(slots, j)
      ensures !e.Done? ==> faults || !OutcomeHolds(slots, j)
      ensures e.Done? ==> if j.mode == Erase then slots == map[] else j.slot.value !in slots && j.recovery.value in slots
      ensures !e.Done? && !faults ==>
                if j.mode == Erase then slots != map[] else j.slot.value in slots || j.recovery.value !in slots
    {
      var dumped, active := ActiveSlots(faults);
      if !dumped.Done? { return dumped; }
      match j.mode
      case KillSlot =>
        if j.slot.value in active { return Failed; }
        dumped, active := ActiveSlots(faults);
        if !dumped.Done? { return dumped; }
        if j.recovery.value !in active { return Failed; }
        return Done;
      case Erase =>
        if active != {} { return Failed; }
        return Done;
    }

    /** The key-slot phase of `run_transaction`. */
    method DestroyPhase(j: Journal, faults: bool) returns (e: Effect)
      requires Valid() && journal == Some(j) && j.phase == BackupsHandled
      modifies this`slots, this`trail
      ensures Valid() && Extends() && SameEnd({})
      ensures slots == old(slots) || slots == Final(at, old(Now()), {}).slots
      ensures j.mode == KillSlot && j.recovery.value !in old(slots) ==> slots == old(slots) && !e.Done?
      ensures e.Done? ==> slots == Final(at, old(Now()), {}).slots
      ensures !e.Done? ==> faults || (j.mode == KillSlot && j.recovery.value !in old(slots))
    {
      var dumped, active := ActiveSlots(faults);
      if !dumped.Done? { return dumped; }
      if j.mode == KillSlot {
        if j.recovery.value !in active { return Failed; }
        dumped, active := ActiveSlots(faults);
        if !dumped.Done? { return dumped; }
        if j.slot.value in active { e := DestroySlots(j.slot, faults); } else { e := Done; }
        assert j.slot.value !in old(slots) ==> old(slots) - {j.slot.value} == old(slots);
      } else {
        if active != {} { e := DestroySlots(None, faults); } else { e := Done; }
      }
    }

    /** The state this transaction is heading for is the one it was heading for before, but for the files in `left`. */
    twostate predicate SameEnd(left: set<Path>)
      reads this
    {
      Final(at, Now(), {}) == Final(at, old(Now()), left)
    }

    /** A scan that has removed `gone`, its end recorded or not. */
    lemma ScanEnds(d: Disk, d': Disk, gone: set<Path>, left: set<Path>)
      requires d.journal.Some? && d.journal.value.phase == Prepared && gone <= InReach(at, d)
      requires d'.journal.Some? && SameJob(d.journal.value, d'.journal.value)
      requires d' == Disk(d.slots, d.tree - gone, d'.journal)
      requires if d'.journal.value.phase == Prepared then left == {} else left == InReach(at, d) - gone
      ensures Final(at, d', {}) == Final(at, d, left) && left <= InReach(at, d)
      ensures TotalWeight(d'.tree, Roots(at, d.journal.value)) <= TotalWeight(d.tree, Roots(at, d.journal.value))
    {
      var j := d.journal.value;
      SameRoots(j, d'.journal.value);
      PartlyEnds(d.tree, Roots(at, j), d'.tree, gone);
      assert InReach(at, d) - (InReach(at, d) - gone) == gone;
    }

    /** The first phase of `run_transaction`: scan, then record that the backups are handled. `left` are the header backups in
        reach when that is recorded. */
    method HandleBackups(j: Journal, faults: bool) returns (e: Effect, ghost left: set<Path>)
      requires Valid() && journal == Some(j) && j.phase == Prepared
      modifies this`tree, this`journal, this`trail
      ensures Valid() && Extends() && SameEnd(left) && left <= InReach(at, old(Now()))
      ensures !faults ==> left == {}
      ensures TotalWeight(tree, Roots(at, j)) <= TotalWeight(old(tree), Roots(at, j))
      ensures journal.Some? && SameJob(j, journal.value)
      ensures e.Done? ==> journal == Some(j.(phase := BackupsHandled)) && |Reach(old(tree), Roots(at, j))| <= 10000
      ensures !e.Done? ==> faults || TotalWeight(old(tree), Roots(at, j)) > MAX_SCAN_ENTRIES
    {
      var scan, gone, unread := DestroyHeaderBackups(Roots(at, j), faults);
      left := {};
      if !scan.Removed? {
        ScanEnds(old(Now()), Now(), gone, left);
        return if scan.OverBudget? then Failed else scan.effect, left;
      }
      var next := j.(phase := BackupsHandled);
      assert Handle(Now(), Now().(journal := Some(next)));
      e := WriteJournal(next, faults);
      if journal == Some(next) { left := unread; }
      ScanEnds(old(Now()), Now(), gone, left);
    }

    /** The second phase: destroy the key slots, verify, and record it. */
    method DestroyKeyslots(j: Journal, faults: bool) returns (e: Effect)
      requires Valid() && journal == Some(j) && j.phase == BackupsHandled
      modifies this`slots, this`journal, this`trail
      ensures Valid() && Extends() && SameEnd({})
      ensures journal.Some? && SameJob(j, journal.value)
      ensures slots == old(slots) || slots == Final(at, old(Now()), {}).slots
      ensures j.mode == KillSlot && j.recovery.value !in old(slots) ==> slots == old(slots) && !e.Done?
      ensures e.Done? ==> journal == Some(j.(phase := KeyslotsDestroyed)) && slots == Final(at, old(Now()), {}).slots
      ensures !e.Done? ==> faults || (j.mode == KillSlot && j.recovery.value !in old(slots))
    {
      e := DestroyPhase(j, faults);
      if !e.Done? { return; }
      e := VerifyOutcome(j, faults);
      if !e.Done? { return; }
      var next := j.(phase := KeyslotsDestroyed);
      assert Confirm(Now(), Now().(journal := Some(next)));
      StepKeepsFinal(at, Now(), Now().(journal := Some(next)));
      e := WriteJournal(next, faults);
    }

    /** The last phase: verify again, power off, and only then drop the journal. */
    method PowerOffAndForget(j: Journal, noPoweroff: bool, faults: bool) returns (e: Effect)
      requires Valid() && journal == Some(j) && j.phase == KeyslotsDestroyed
      modifies this`journal, this`trail
      ensures Valid() && Extends() && SameEnd({})
      ensures journal == Some(j) || journal == None
      ensures e.Done? ==> journal == None
      ensures !e.Done? ==> faults
    {
      e := VerifyOutcome(j, faults);
      if !e.Done? { return; }
      if !noPoweroff {
        e := Command(faults);
        if !e.Done? { return; }
      }
      e := RemoveJournal(faults);
    }

    /** `run_transaction`, from whatever phase the journal is in. `left` are the header backups its scan, if it is still to come
        and ends, could not read. */
    method RunTransaction(j0: Journal, noPoweroff: bool, faults: bool) returns (e: Effect, ghost left: set<Path>)
      requires Valid() && journal == Some(j0)
      modifies this`slots, this`tree, this`journal, this`trail
      ensures Valid() && Extends() && SameEnd(left)
      ensures left <= InReach(at, old(Now())) && (j0.phase != Prepared || !faults ==> left == {})
      ensures e.Done? ==> Now() == Final(at, old(Now()), left)
      ensures e.Done? && j0.phase == Prepared ==> |Reach(old(tree), Roots(at, j0))| <= 10000
      ensures journal.Some? ==> SameJob(j0, journal.value)
      ensures slots == old(slots) || slots == Final(at, old(Now()), left).slots
      ensures TotalWeight(tree, Roots(at, j0)) <= TotalWeight(old(tree), Roots(at, j0))
      ensures !e.Done? ==>
                || faults
                || (j0.phase == Prepared && TotalWeight(old(tree), Roots(at, j0)) > MAX_SCAN_ENTRIES)
                || (j0.mode == KillSlot && j0.recovery.value !in old(slots))
      ensures j0.mode == KillSlot && j0.recovery.value !in old(slots) ==> slots == old(slots) && !e.Done?
    {
      var j := j0;
      left := {};
      ghost var t1, t2 := trail, trail;
      if j.phase == Prepared {
        e, left := HandleBackups(j, faults);
        t1 := trail;
        if !e.Done? { return; }
        j := j.(phase := BackupsHandled);
      }
      SameRoots(j0, j);
      if j.phase == BackupsHandled {
        e := DestroyKeyslots(j, faults);
        t2 := trail;
        PrefixesChain(old(trail), t1, t2);
        if !e.Done? { return; }
        j := j.(phase := KeyslotsDestroyed);
      }
      t2 := trail;
      e := PowerOffAndForget(j, noPoweroff, faults);
      PrefixesChain(old(trail), t2, trail);
    }

    /** `Path::exists` on the journal: a test that fails says no. */
    method JournalExists(faults: bool) returns (seen: bool)
      ensures seen ==> journal.Some?
      ensures !faults ==> seen == journal.Some?
    {
      var failed: bool := *;
      seen := journal.Some? && !(faults && failed);
    }

    /** `fire`. A pending journal it does not see (`seen`) it overwrites. */
    method Fire(env: Env, args: FireArgs, noPoweroff: bool, faults: bool)
      returns (r: FireResult, seen: bool, ghost left: set<Path>)
      requires Valid()
      requires Admit(env, args, false).Ok? ==> JobOf(Admit(env, args, false).value) == job
      modifies this`slots, this`tree, this`journal, this`trail
      ensures Valid() && Extends()
      ensures (seen ==> old(journal).Some?) && (!faults ==> seen == old(journal).Some?)
      ensures r.Rejected? <==> Admit(env, args, seen).Err?
      ensures r.Rejected? ==> Now() == old(Now())
      ensures r.Fired? ==>
                var d := old(Now()).(journal := Some(Admit(env, args, seen).value));
                && left <= InReach(at, d) && (!faults ==> left == {})
                && (r.effect.Done? ==> Now() == Final(at, d, left) && |Reach(old(tree), Roots(at, d.journal.value))| <= 10000)
                && TotalWeight(tree, Roots(at, d.journal.value)) <= TotalWeight(old(tree), Roots(at, d.journal.value))
                && (slots == old(slots) || slots == Final(at, d, {}).slots)
      ensures r.Fired? && journal.Some? ==> SameJob(Admit(env, args, seen).value, journal.value) || journal == old(journal)
      ensures r.Fired? && !r.effect.Done? ==>
                var j := Admit(env, args, seen).value;
                || faults
                || TotalWeight(old(tree), Roots(at, j)) > MAX_SCAN_ENTRIES
                || (j.mode == KillSlot && j.recovery.value !in old(slots))
    {
      left := {};
      seen := JournalExists(faults);
      var admitted := Admit(env, args, seen);
      if admitted.Err? { return Rejected(admitted.error), seen, left; }
      var j := admitted.value;
      assert Begin(Now(), Now().(journal := Some(j)));
      var e := WriteJournal(j, faults);
      if e.Done? {
        ghost var sofar := trail;
        e, left := RunTransaction(j, noPoweroff, faults);
        PrefixesChain(old(trail), sofar, trail);
      }
      return Fired(e), seen, left;
    }

    /** `resume`; `bytes` is the size of the journal file. */
    method Resume(env: Env, dir: string, name: string, bytes: nat, expected: Expectation, noPoweroff: bool, faults: bool)
      returns (r: ResumeResult, ghost left: set<Path>)
      requires Valid()
      modifies this`slots, this`tree, this`journal, this`trail
      ensures Valid() && Extends()
      ensures r.Refused? <==> old(journal).None? || ResumeChecks(env, dir, name, old(journal).value, bytes, expected).Err?
      ensures r.Refused? ==> Now() == old(Now())
      ensures r.Resumed? ==>
                && SameEnd(left) && left <= InReach(at, old(Now()))
                && (old(journal).value.phase != Prepared || !faults ==> left == {})
                && (r.outcome.Done? ==> Now() == Final(at, old(Now()), left))
                && (r.outcome.Done? && old(journal).value.phase == Prepared ==>
                      |Reach(old(tree), Roots(at, old(journal).value))| <= 10000)
                && (journal.Some? ==> SameJob(old(journal).value, journal.value))
      ensures r.Resumed? && !r.outcome.Done? ==>
                var j := old(journal).value;
                || faults
                || (j.phase == Prepared && TotalWeight(old(tree), Roots(at, j)) > MAX_SCAN_ENTRIES)
                || (j.mode == KillSlot && j.recovery.value !in old(slots))
      ensures r.Resumed? ==>
                && TotalWeight(tree, Roots(at, old(journal).value)) <= TotalWeight(old(tree), Roots(at, old(journal).value))
                && (slots == old(slots) || slots == Final(at, old(Now()), {}).slots)
      ensures r.Resumed? && old(journal).value.mode == KillSlot && old(journal).value.recovery.value !in old(slots) ==>
                !r.outcome.Done? && slots == old(slots)
    {
      left := {};
      if journal.None? { return Refused(Unreadable), left; }
      var checks := ResumeChecks(env, dir, name, journal.value, bytes, expected);
      if checks.Err? { return Refused(checks.error), left; }
      var e;
      e, left := RunTransaction(journal.value, noPoweroff, faults);
      return Resumed(e), left;
    }

    /** A resume stopped anywhere, by a failing step or a power cut, and completed by one undisturbed
        resume ends in the state an undisturbed transaction ends in if and only if the first did not end its scan
        with a header file it could not read; those are then all that is left. The journal may have another size
        at the second resume. */
    method StoppedThenCompleted(env: Env, dir: string, name: string, bytes: nat, later: nat, expected: Expectation,
                                noPoweroff: bool)
      returns (ghost left: set<Path>)
      requires Valid() && journal.Some?
      requires ResumeChecks(env, dir, name, journal.value, bytes, expected).Ok? && later <= MAX_JOURNAL_BYTES
      requires TotalWeight(tree, Roots(at, journal.value)) <= MAX_SCAN_ENTRIES
      requires journal.value.mode == KillSlot ==> journal.value.recovery.value in slots
      modifies this`slots, this`tree, this`journal, this`trail
      ensures Valid() && Now() == Final(at, old(Now()), left) && left <= InReach(at, old(Now()))
      ensures Now() == Final(at, old(Now()), {}) <==> left == {}
    {
      var first;
      first, left := Resume(env, dir, name, bytes, expected, noPoweroff, true);
      FinalIff(at, old(Now()), left);
      if journal.Some? {
        SameRoots(old(journal).value, journal.value);
        ChecksSame(env, dir, name, old(journal).value, journal.value, bytes, later, expected);
        var second, none := Resume(env, dir, name, later, expected, noPoweroff, false);
      }
    }
  }
}
