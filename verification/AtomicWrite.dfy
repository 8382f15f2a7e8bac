/** `atomic_write` on a file system that may lose power at any moment. */
module AtomicWriting {
  import opened Text
  import opened Faulting

  /** The bytes of a file, and whether they have reached the disk. */
  datatype Inode = Inode(data: string, synced: bool)

  /** One directory: the names as processes see them, the files behind them, and for each name the earlier
      bindings (`None`: no entry) that may be the ones on the disk. */
  datatype Fs = Fs(dir: map<string, nat>, inodes: map<nat, Inode>, pending: map<string, set<Option<nat>>>)

  function Bound(fs: Fs, name: string): Option<nat> {
    if name in fs.dir then Some(fs.dir[name]) else None
  }

  /** What the disk may say about a name. */
  function Candidates(fs: Fs, name: string): set<Option<nat>> {
    {Bound(fs, name)} + if name in fs.pending then fs.pending[name] else {}
  }

  ghost predicate Valid(fs: Fs) {
    forall name, i :: Some(i) in Candidates(fs, name) ==> i in fs.inodes
  }

  function Content(fs: Fs, b: Option<nat>): Option<string> {
    if b.Some? && b.value in fs.inodes then Some(fs.inodes[b.value].data) else None
  }

  function Visible(fs: Fs, name: string): Option<string> { Content(fs, Bound(fs, name)) }

  /** After a power cut this binding may read `c`: unsynced bytes may read as anything. */
  predicate Reads(fs: Fs, b: Option<nat>, c: Option<string>) {
    if b.None? then c.None?
    else b.value in fs.inodes && c.Some? && (fs.inodes[b.value].synced ==> c.value == fs.inodes[b.value].data)
  }

  /** What a name may hold after a power cut now. */
  predicate MayHold(fs: Fs, name: string, c: Option<string>) {
    exists b :: b in Candidates(fs, name) && Reads(fs, b, c)
  }

  /** The power goes and comes back: every name has one of its candidates, every file is on the disk. */
  ghost predicate Crash(fs: Fs, fs': Fs) {
    && fs'.pending == map[]
    && fs'.inodes.Keys == fs.inodes.Keys
    && (forall i :: i in fs.inodes ==> fs'.inodes[i].synced && (fs.inodes[i].synced ==> fs'.inodes[i] == fs.inodes[i]))
    && forall name :: Bound(fs', name) in Candidates(fs, name)
  }

  /** What is seen after a power cut is one of the contents the name might hold, and it is then durable. */
  lemma AfterCut(fs: Fs, fs': Fs, name: string)
    requires Valid(fs) && Crash(fs, fs')
    ensures Valid(fs') && MayHold(fs, name, Visible(fs', name))
    ensures forall c :: MayHold(fs', name, c) <==> c == Visible(fs', name)
  {
    var b := Bound(fs', name);
    assert b in Candidates(fs, name);
    assert Reads(fs, b, Visible(fs', name));
    forall c ensures MayHold(fs', name, c) <==> c == Visible(fs', name) {
      assert Reads(fs', b, c) <==> c == Visible(fs', name);
      assert Candidates(fs', name) == {b};
    }
  }

  // ---- system calls ----

  function Bind(fs: Fs, name: string, b: Option<nat>): Fs {
    fs.(dir := if b.Some? then fs.dir[name := b.value] else fs.dir - {name}, pending := fs.pending[name := Candidates(fs, name)])
  }

  function Fill(fs: Fs, i: nat, data: string): Fs { fs.(inodes := fs.inodes[i := Inode(data, false)]) }

  function SyncFile(fs: Fs, i: nat): Fs
    requires i in fs.inodes
  {
    fs.(inodes := fs.inodes[i := fs.inodes[i].(synced := true)])
  }

  function Rename(fs: Fs, from: string, to: string): Fs
    requires from in fs.dir
  {
    Bind(Bind(fs, to, Some(fs.dir[from])), from, None)
  }

  function SyncDir(fs: Fs): Fs { fs.(pending := map[]) }

  /** `.{name}.tmp.{pid}` */
  function TempName(name: string, pid: nat): (tmp: string)
    ensures tmp != name
  {
    "." + name + ".tmp." + PrintNat(pid)
  }

  // ---- what each step may change ----

  /** A name means what it meant: the same bytes seen, nothing new after a cut. */
  ghost predicate Untouched(fs: Fs, fs': Fs, name: string) {
    Visible(fs', name) == Visible(fs, name) && forall c :: MayHold(fs', name, c) ==> MayHold(fs, name, c)
  }

  /** The target has its old bytes or the new ones, seen and after any cut. */
  ghost predicate Atomic(fs: Fs, fs': Fs, target: string, data: string) {
    && (Visible(fs', target) == Visible(fs, target) || Visible(fs', target) == Some(data))
    && forall c :: MayHold(fs', target, c) ==> MayHold(fs, target, c) || c == Some(data)
  }

  ghost predicate Durable(fs: Fs, name: string, data: string) {
    Visible(fs, name) == Some(data) && forall c :: MayHold(fs, name, c) <==> c == Some(data)
  }

  /** The file is behind no name but `tmp`. */
  ghost predicate Private(fs: Fs, tmp: string, i: nat) {
    i in fs.inodes && forall name :: name != tmp ==> Some(i) !in Candidates(fs, name)
  }

  lemma BindElsewhere(fs: Fs, name: string, b: Option<nat>, other: string)
    requires Valid(fs) && name != other && (b.Some? ==> b.value in fs.inodes)
    ensures Valid(Bind(fs, name, b)) && Candidates(Bind(fs, name, b), other) == Candidates(fs, other)
    ensures Candidates(Bind(fs, name, b), name) == Candidates(fs, name) + {b}
    ensures Untouched(fs, Bind(fs, name, b), other)
  {
    var fs' := Bind(fs, name, b);
    assert Bound(fs', name) == b;
    forall n, i | Some(i) in Candidates(fs', n)
      ensures i in fs'.inodes
    {
      if n != name { assert Candidates(fs', n) == Candidates(fs, n); }
    }
    SameCandidates(fs, fs', other);
  }

  lemma SameCandidates(fs: Fs, fs': Fs, name: string)
    requires Bound(fs', name) == Bound(fs, name) && Candidates(fs', name) <= Candidates(fs, name)
    requires forall i :: Some(i) in Candidates(fs, name) ==> (i in fs'.inodes <==> i in fs.inodes)
    requires forall i :: Some(i) in Candidates(fs, name) && i in fs.inodes ==> fs'.inodes[i] == fs.inodes[i]
    ensures Untouched(fs, fs', name)
  {
    forall c | MayHold(fs', name, c)
      ensures MayHold(fs, name, c)
    {
      var b :| b in Candidates(fs', name) && Reads(fs', b, c);
      assert Reads(fs, b, c);
    }
  }

  ghost predicate OthersUntouched(fs: Fs, fs': Fs, tmp: string) {
    forall name :: name != tmp ==> Untouched(fs, fs', name)
  }

  lemma CreateSafe(fs: Fs, tmp: string, i: nat)
    requires Valid(fs) && i !in fs.inodes
    ensures var fs' := Bind(Fill(fs, i, ""), tmp, Some(i));
            Valid(fs') && OthersUntouched(fs, fs', tmp) && Private(fs', tmp, i) && Bound(fs', tmp) == Some(i)
  {
    var filled := Fill(fs, i, "");
    var fs' := Bind(filled, tmp, Some(i));
    forall name
      ensures Candidates(filled, name) == Candidates(fs, name)
    {
    }
    BindElsewhere(filled, tmp, Some(i), TempName(tmp, 0));
    forall name | name != tmp
      ensures Untouched(fs, fs', name) && Some(i) !in Candidates(fs', name)
    {
      BindElsewhere(filled, tmp, Some(i), name);
      SameCandidates(fs, fs', name);
    }
  }

  /** Changing a file that only `tmp` names. */
  lemma PrivateChange(fs: Fs, tmp: string, i: nat, n: Inode)
    requires Valid(fs) && Private(fs, tmp, i)
    ensures var fs' := fs.(inodes := fs.inodes[i := n]);
            Valid(fs') && OthersUntouched(fs, fs', tmp) && Private(fs', tmp, i) && Bound(fs', tmp) == Bound(fs, tmp)
  {
    var fs' := fs.(inodes := fs.inodes[i := n]);
    forall name ensures Candidates(fs', name) == Candidates(fs, name) {}
    forall name | name != tmp ensures Untouched(fs, fs', name) { SameCandidates(fs, fs', name); }
  }

  lemma RenameSafe(fs: Fs, tmp: string, target: string, i: nat, data: string)
    requires Valid(fs) && tmp != target && Bound(fs, tmp) == Some(i) && Private(fs, tmp, i) && fs.inodes[i] == Inode(data, true)
    ensures var fs' := Rename(fs, tmp, target);
            && Valid(fs') && Atomic(fs, fs', target, data)
            && Visible(fs', target) == Some(data) && tmp !in fs'.dir && Bound(fs', target) == Some(i) && fs'.inodes == fs.inodes
            && forall name :: name != tmp && name != target ==> Untouched(fs, fs', name)
  {
    var mid := Bind(fs, target, Some(i));
    var fs' := Bind(mid, tmp, None);
    BindElsewhere(fs, target, Some(i), tmp);
    BindElsewhere(mid, tmp, None, target);
    assert Bound(fs', target) == Some(i);
    forall c | MayHold(fs', target, c)
      ensures MayHold(fs, target, c) || c == Some(data)
    {
      var b :| b in Candidates(fs', target) && Reads(fs', b, c);
      if b != Some(i) { assert b in Candidates(fs, target) && Reads(fs, b, c); }
    }
    forall name | name != tmp && name != target
      ensures Untouched(fs, fs', name)
    {
      BindElsewhere(fs, target, Some(i), name);
      BindElsewhere(mid, tmp, None, name);
    }
  }

  lemma SyncDirSafe(fs: Fs)
    requires Valid(fs)
    ensures Valid(SyncDir(fs)) && forall name :: Untouched(fs, SyncDir(fs), name)
  {
    forall name
      ensures Candidates(SyncDir(fs), name) <= Candidates(fs, name)
    {
    }
    forall name ensures Untouched(fs, SyncDir(fs), name) { SameCandidates(fs, SyncDir(fs), name); }
  }

  lemma SyncedTarget(fs: Fs, target: string, i: nat, data: string)
    requires fs.pending == map[] && Bound(fs, target) == Some(i) && i in fs.inodes && fs.inodes[i] == Inode(data, true)
    ensures Durable(fs, target, data)
  {
    assert Candidates(fs, target) == {Some(i)};
    assert Reads(fs, Some(i), Some(data));
  }

  lemma UnlinkSafe(fs: Fs, tmp: string)
    requires Valid(fs)
    ensures Valid(Bind(fs, tmp, None)) && OthersUntouched(fs, Bind(fs, tmp, None), tmp)
  {
    BindElsewhere(fs, tmp, None, TempName(tmp, 0));
    forall name | name != tmp ensures Untouched(fs, Bind(fs, tmp, None), name) { BindElsewhere(fs, tmp, None, name); }
  }

  lemma UntouchedThen(a: Fs, b: Fs, c: Fs, tmp: string)
    requires OthersUntouched(a, b, tmp) && OthersUntouched(b, c, tmp)
    ensures OthersUntouched(a, c, tmp)
  {
    forall name | name != tmp ensures Untouched(a, c, name) {
      assert Untouched(a, b, name) && Untouched(b, c, name);
    }
  }

  lemma AtomicAfter(a: Fs, b: Fs, c: Fs, target: string, data: string)
    requires Untouched(a, b, target) && Atomic(b, c, target, data)
    ensures Atomic(a, c, target, data)
  {
  }

  lemma StillAtomic(a: Fs, b: Fs, c: Fs, target: string, data: string)
    requires Atomic(a, b, target, data) && Untouched(b, c, target)
    ensures Atomic(a, c, target, data)
  {
  }

  class Volume {
    var fs: Fs

    constructor (fs: Fs)
      ensures this.fs == fs
    {
      this.fs := fs;
    }

    /** One system call that either happens or not; after a cut, too. */
    method Call(next: Fs, faults: bool) returns (e: Effect)
      modifies this
      ensures e.Done? ==> fs == next
      ensures e.Failed? ==> fs == old(fs) && faults
      ensures e.Cut? ==> (fs == old(fs) || fs == next) && faults
    {
      var fault: bool, cut: bool, happened: bool := *, *, *;
      e := if faults && fault then (if cut then Cut else Failed) else Done;
      if e.Done? || (e.Cut? && happened) { fs := next; }
    }

    /** `create_new`: an existing name is an error. */
    method CreateNew(tmp: string, faults: bool) returns (e: Effect, i: nat)
      requires Valid(fs)
      modifies this
      ensures Valid(fs) && OthersUntouched(old(fs), fs, tmp)
      ensures e.Done? ==> tmp !in old(fs).dir && Bound(fs, tmp) == Some(i) && Private(fs, tmp, i)
      ensures !e.Done? ==> faults || tmp in old(fs).dir
      ensures tmp in old(fs).dir ==> e == Failed
      ensures e.Failed? ==> fs == old(fs)
    {
      assert Above(fs.inodes.Keys) !in fs.inodes.Keys;
      i :| i !in fs.inodes;
      if tmp in fs.dir { return Failed, i; }
      CreateSafe(fs, tmp, i);
      e := Call(Bind(Fill(fs, i, ""), tmp, Some(i)), faults);
    }

    /** `write_all`: on an error or a cut any part may have been written. */
    method WriteAll(tmp: string, i: nat, data: string, faults: bool) returns (e: Effect)
      requires Valid(fs) && Bound(fs, tmp) == Some(i) && Private(fs, tmp, i)
      modifies this
      ensures Valid(fs) && OthersUntouched(old(fs), fs, tmp) && Bound(fs, tmp) == Some(i) && Private(fs, tmp, i)
      ensures if e.Done? then fs.inodes[i].data == data else faults
    {
      var part: string := *;
      var was := fs;
      PrivateChange(fs, tmp, i, Inode(part, false));
      PrivateChange(fs, tmp, i, Inode(data, false));
      e := Call(Fill(fs, i, data), faults);
      if !e.Done? { fs := Fill(was, i, part); }
    }

    method SyncAll(tmp: string, i: nat, data: string, faults: bool) returns (e: Effect)
      requires Valid(fs) && Bound(fs, tmp) == Some(i) && Private(fs, tmp, i) && fs.inodes[i].data == data
      modifies this
      ensures Valid(fs) && OthersUntouched(old(fs), fs, tmp) && Bound(fs, tmp) == Some(i) && Private(fs, tmp, i)
      ensures if e.Done? then fs.inodes[i] == Inode(data, true) else faults
    {
      PrivateChange(fs, tmp, i, Inode(data, true));
      e := Call(SyncFile(fs, i), faults);
    }

    method RenameOver(tmp: string, target: string, i: nat, data: string, faults: bool) returns (e: Effect)
      requires Valid(fs) && tmp != target
      requires Bound(fs, tmp) == Some(i) && Private(fs, tmp, i) && fs.inodes[i] == Inode(data, true)
      modifies this
      ensures Valid(fs) && Atomic(old(fs), fs, target, data)
      ensures forall name :: name != tmp && name != target ==> Untouched(old(fs), fs, name)
      ensures e.Done? ==> Bound(fs, target) == Some(i) && tmp !in fs.dir && i in fs.inodes && fs.inodes[i] == Inode(data, true)
      ensures !e.Done? ==> faults
    {
      RenameSafe(fs, tmp, target, i, data);
      e := Call(Rename(fs, tmp, target), faults);
    }

    method SyncParent(faults: bool) returns (e: Effect)
      requires Valid(fs)
      modifies this
      ensures Valid(fs) && (forall name :: Untouched(old(fs), fs, name)) && fs == old(fs).(pending := fs.pending)
      ensures if e.Done? then fs.pending == map[] else faults
    {
      SyncDirSafe(fs);
      e := Call(SyncDir(fs), faults);
    }

    /** The temporary file, written and synced. */
    method WriteTemp(tmp: string, data: string, faults: bool) returns (e: Effect, i: nat, ghost states: seq<Fs>)
      requires Valid(fs)
      modifies this
      ensures Valid(fs) && fs in states && forall s :: s in states ==> Valid(s) && OthersUntouched(old(fs), s, tmp)
      ensures e.Done? ==> tmp !in old(fs).dir
                          && Bound(fs, tmp) == Some(i) && Private(fs, tmp, i) && fs.inodes[i] == Inode(data, true)
      ensures !e.Done? ==> faults || tmp in old(fs).dir
      ensures tmp in old(fs).dir ==> e == Failed && fs == old(fs)
    {
      e, i := CreateNew(tmp, faults);
      states := [fs];
      ghost var created := fs;
      if e.Done? {
        e := WriteAll(tmp, i, data, faults);
        UntouchedThen(old(fs), created, fs, tmp);
        states := states + [fs];
      }
      ghost var written := fs;
      if e.Done? {
        e := SyncAll(tmp, i, data, faults);
        UntouchedThen(old(fs), written, fs, tmp);
        states := states + [fs];
      }
      if e.Done? {
        var chmod := Call(fs, faults);
        e := chmod;
      }
    }

    /** `atomic_write`. `states` are the states it went through. */
    method AtomicWrite(target: string, pid: nat, data: string, faults: bool) returns (e: Effect, ghost states: seq<Fs>)
      requires Valid(fs)
      modifies this
      ensures Valid(fs) && fs in states && forall s :: s in states ==> Valid(s) && Atomic(old(fs), s, target, data)
      ensures forall name :: name != target && name != TempName(target, pid) ==> Untouched(old(fs), fs, name)
      ensures e.Done? ==> Durable(fs, target, data)
      ensures TempName(target, pid) in old(fs).dir ==> !e.Done? && Untouched(old(fs), fs, target)
      ensures !faults ==> TempName(target, pid) !in fs.dir
                          && e == if TempName(target, pid) in old(fs).dir then Failed else Done
    {
      var tmp := TempName(target, pid);
      var i;
      e, i, states := WriteTemp(tmp, data, faults);
      assert forall s :: s in states ==> OthersUntouched(old(fs), s, tmp) && Untouched(old(fs), s, target);
      ghost var t1 := fs;
      if e.Done? {
        e := RenameOver(tmp, target, i, data, faults);
        AtomicAfter(old(fs), t1, fs, target, data);
        states := states + [fs];
      }
      ghost var t2 := fs;
      if e.Done? {
        e := SyncParent(faults);
        StillAtomic(old(fs), t2, fs, target, data);
        states := states + [fs];
        if e.Done? { SyncedTarget(fs, target, i, data); }
      }
      ghost var t3 := fs;
      if e.Failed? && tmp in fs.dir {
        UnlinkSafe(fs, tmp);
        var removed := Call(Bind(fs, tmp, None), faults);
        StillAtomic(old(fs), t3, fs, target, data);
        states := states + [fs];
        if removed.Cut? { e := Cut; }
      }
      forall name | name != target && name != tmp
        ensures Untouched(old(fs), fs, name)
      {
        assert Untouched(old(fs), t1, name) && Untouched(t1, t2, name) && Untouched(t2, t3, name) && Untouched(t3, fs, name);
      }
    }
  }

  /** A temporary file left by an earlier cut costs one failed write; the next one succeeds. */
  method WriteTwice(v: Volume, target: string, pid: nat, data: string) returns (e: Effect)
    requires Valid(v.fs)
    modifies v
    ensures Durable(v.fs, target, data)
    ensures e == (if TempName(target, pid) in old(v.fs).dir then Failed else Done)
  {
    ghost var states;
    e, states := v.AtomicWrite(target, pid, data, false);
    if !e.Done? {
      var again;
      again, states := v.AtomicWrite(target, pid, data, false);
    }
  }

  /** Old bytes or new bytes, whatever state the power is lost in: where the target could only hold `was`
      before, it holds `was` or the new bytes when the power comes back, and durably. */
  lemma CutIsAtomic(fs: Fs, s: Fs, fs': Fs, target: string, was: Option<string>, data: string)
    requires Valid(s) && Atomic(fs, s, target, data) && Crash(s, fs')
    requires forall c :: MayHold(fs, target, c) ==> c == was
    ensures Visible(fs', target) == was || Visible(fs', target) == Some(data)
    ensures forall c :: MayHold(fs', target, c) <==> c == Visible(fs', target)
  {
    AfterCut(s, fs', target);
  }

  ghost function Above(used: set<nat>): (i: nat)
    ensures forall k :: k in used ==> k < i
  {
    if used == {} then 0
    else
      var k :| k in used;
      assert forall n :: n in used ==> n == k || n in used - {k};
      var rest := Above(used - {k});
      if k < rest then rest else k + 1
  }
}
