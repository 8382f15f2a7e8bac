/** Key slots and their records: recovery enrolment, the registry of known slots, the audit before arming. */
module Enrolling {
  import opened Text
  import opened AttemptPolicy
  import opened Erasing
  import opened Unlocking
  import Verifier

  // ---- the registry text ----

  predicate KnownDelim(c: char) { c == ',' || IsSpace(c) }

  /** `read_known_slots`: what does not parse as a `u8` is skipped. */
  function ParseKnown(text: string): set<nat> {
    set t | t in Pieces(text, KnownDelim) && ParseUnsigned(t, U8).Some? :: ParseUnsigned(t, U8).value
  }

  /** The order of a `BTreeSet<u8>`. */
  function Ascending(s: set<nat>, from: nat): seq<nat>
    decreases U8 - from
  {
    if from >= U8 then [] else (if from in s then [from] else []) + Ascending(s, from + 1)
  }

  function Digits(ns: seq<nat>): (ds: seq<string>)
    ensures |ds| == |ns| && forall i :: 0 <= i < |ns| ==> ds[i] == PrintNat(ns[i])
  {
    seq(|ns|, i requires 0 <= i < |ns| => PrintNat(ns[i]))
  }

  /** `write_known_slots` */
  function PrintKnown(s: set<nat>): string {
    var ds := Digits(Ascending(s, 0));
    (if ds == [] then "" else Verifier.JoinWith(ds, ',')) + "\n"
  }

  lemma {:induction false} AscendingHas(s: set<nat>, from: nat, n: nat)
    ensures n in Ascending(s, from) <==> n in s && from <= n < U8
    decreases U8 - from
  {
    if from < U8 { AscendingHas(s, from + 1, n); }
  }

  predicate IsPiece(d: string) { d != "" && forall i :: 0 <= i < |d| ==> !KnownDelim(d[i]) }

  lemma LineEnd()
    ensures Pieces("\n", KnownDelim) == []
  {
    assert SkipWhile("\n", 0, KnownDelim) == 1;
  }

  lemma Glued(x: string, y: string)
    ensures (x + [','] + y) + "\n" == x + ([','] + (y + "\n"))
  {
  }

  lemma {:induction false} JoinedPieces(ds: seq<string>)
    requires ds != [] && forall i :: 0 <= i < |ds| ==> IsPiece(ds[i])
    ensures Pieces(Verifier.JoinWith(ds, ',') + "\n", KnownDelim) == ds
    decreases |ds|
  {
    if |ds| == 1 {
      LineEnd();
      InkHead(ds[0], "\n", KnownDelim);
    } else {
      JoinedPieces(ds[1..]);
      MorePieces(ds[0], Verifier.JoinWith(ds[1..], ','));
    }
  }

  lemma MorePieces(d: string, rest: string)
    requires IsPiece(d)
    ensures Pieces((d + [','] + rest) + "\n", KnownDelim) == [d] + Pieces(rest + "\n", KnownDelim)
  {
    Glued(d, rest);
    DelimHead(',', rest + "\n", KnownDelim);
    InkHead(d, [','] + (rest + "\n"), KnownDelim);
  }

  lemma DigitsArePiece(n: nat)
    ensures IsPiece(PrintNat(n))
  {
    var d := PrintNat(n);
    forall i | 0 <= i < |d| ensures !KnownDelim(d[i]) { assert IsDigit(d[i]); }
  }

  lemma ReadNumbers(text: string, ds: seq<string>, ns: seq<nat>, n: nat)
    requires Pieces(text, KnownDelim) == ds && |ds| == |ns|
    requires forall i :: 0 <= i < |ds| ==> ParseUnsigned(ds[i], U8) == Some(ns[i])
    ensures n in ParseKnown(text) <==> n in ns
  {
    if n in ns {
      var i :| 0 <= i < |ns| && ns[i] == n;
      assert ds[i] in ds;
    }
  }

  lemma DigitsParse(ns: seq<nat>)
    requires forall i :: 0 <= i < |ns| ==> ns[i] < U8
    ensures forall i :: 0 <= i < |ns| ==> IsPiece(Digits(ns)[i]) && ParseUnsigned(Digits(ns)[i], U8) == Some(ns[i])
  {
    forall i | 0 <= i < |ns|
      ensures IsPiece(Digits(ns)[i]) && ParseUnsigned(Digits(ns)[i], U8) == Some(ns[i])
    {
      DigitsArePiece(ns[i]);
      ParsePrint(ns[i], U8);
    }
  }

  lemma AscendingSet(s: set<nat>)
    ensures forall n: nat :: n in Ascending(s, 0) <==> n in s && n < U8
  {
    forall n: nat ensures n in Ascending(s, 0) <==> n in s && n < U8 { AscendingHas(s, 0, n); }
  }

  /** Every set of slot numbers is read back from what is written for it. */
  lemma KnownReadsBack(s: set<nat>)
    requires s != {} && forall n :: n in s ==> n < U8
    ensures ParseKnown(PrintKnown(s)) == s
  {
    AscendingSet(s);
    ReadsAs(s, Ascending(s, 0), PrintKnown(s));
  }

  lemma ReadsAs(s: set<nat>, ns: seq<nat>, text: string)
    requires s != {} && (forall n :: n in s ==> n < U8) && forall n: nat :: n in ns <==> n in s && n < U8
    requires text == (if Digits(ns) == [] then "" else Verifier.JoinWith(Digits(ns), ',')) + "\n"
    ensures ParseKnown(text) == s
  {
    var m :| m in s;
    assert m in ns;
    forall i | 0 <= i < |ns| ensures ns[i] < U8 { assert ns[i] in ns; }
    SameNumbers(ns, text);
  }

  lemma SameNumbers(ns: seq<nat>, text: string)
    requires ns != [] && text == Verifier.JoinWith(Digits(ns), ',') + "\n"
    requires forall i :: 0 <= i < |ns| ==> ns[i] < U8
    ensures forall n: nat :: n in ParseKnown(text) <==> n in ns
  {
    DigitsParse(ns);
    JoinedPieces(Digits(ns));
    forall n: nat ensures n in ParseKnown(text) <==> n in ns { ReadNumbers(text, Digits(ns), ns, n); }
  }

  // ---- what arming requires of the records and the key slots ----

  datatype Refusal =
    | ReadFailed | AlreadyProtected | BadVerifier | BadPolicy | NoTarget | BadSlot | SameSlots | SlotsNotActive
    | UnknownSlots(slots: set<nat>) | NotOneDaily(slots: set<nat>) | AddFailed | NotVerified(added: nat) | WriteFailed

  function Known(files: Files): set<nat> {
    if "known.slots" in files then ParseKnown(files["known.slots"]) else {}
  }

  predicate HasTarget(files: Files) { "target.device" in files && Trim(files["target.device"]) != "" }

  /** The local verifier, policy, and recorded slots. A missing policy file means the defaults. */
  function Records(files: Files): (r: Result<Start, Refusal>)
    ensures r.Ok? ==> Validates(r.value.policy) && r.value.daily <= 31 && r.value.recovery <= 31
  {
    var verifier := Field(files, "duress.hash", ReadVerifier);
    var policy := if "config" in files then ReadPolicy(files["config"]) else Some(DEFAULT);
    var daily, recovery := Field(files, "daily.slot", ReadSlot), Field(files, "recovery.slot", ReadSlot);
    if verifier.None? then Err(BadVerifier)
    else if policy.None? then Err(BadPolicy)
    else if !HasTarget(files) then Err(NoTarget)
    else if daily.None? || recovery.None? then Err(BadSlot)
    else Ok(Start(policy.value, verifier.value, daily.value, recovery.value))
  }

  /** The registry, or that with the two recorded slots added when one of them is missing from it. */
  function Repaired(known: set<nat>, st: Start): set<nat> {
    if st.daily in known && st.recovery in known then known else known + {st.daily, st.recovery}
  }

  /** What is wrong with the slots of these records, given the registry as read. */
  function SlotProblem(slots: map<nat, Secret>, known: set<nat>, st: Start): Option<Refusal> {
    if st.daily == st.recovery then Some(SameSlots)
    else if st.daily !in slots || st.recovery !in slots then Some(SlotsNotActive)
    else
      var unknown := slots.Keys - Repaired(known, st);
      if unknown != {} then Some(UnknownSlots(unknown)) else None
  }

  /** The checks of `arm` on records and slots. */
  function Audited(files: Files, slots: map<nat, Secret>, known: set<nat>): (r: Result<Start, Refusal>)
    ensures r.Ok? ==> Validates(r.value.policy) && r.value.daily <= 31 && r.value.recovery <= 31
  {
    var r := Records(files);
    if r.Err? || SlotProblem(slots, known, r.value).None? then r
    else Err(SlotProblem(slots, known, r.value).value)
  }

  predicate InRange(slots: map<nat, Secret>) { forall k :: k in slots ==> k <= 31 }

  predicate FreeSlot(slots: map<nat, Secret>) { exists k: nat :: k <= 31 && k !in slots }

  /** The LUKS header of the target and the local state directory. */
  class Registry {
    var slots: map<nat, Secret>
    var files: Files

    constructor (slots: map<nat, Secret>, files: Files)
      ensures this.slots == slots && this.files == files
    {
      this.slots, this.files := slots, files;
    }

    /** `atomic_write` of a state file: on an error the old or the new content is in place. */
    method Write(name: string, text: string, faults: bool) returns (ok: bool)
      modifies this`files
      ensures ok ==> files == old(files)[name := text]
      ensures !ok ==> faults && (files == old(files) || files == old(files)[name := text])
    {
      var fault: bool, renamed: bool := *, *;
      ok := !(faults && fault);
      if ok || renamed { files := files[name := text]; }
    }

    /** A registry that cannot be read counts as empty. */
    method ReadKnown(faults: bool) returns (known: set<nat>, ghost read: bool)
      ensures known == (if read then Known(files) else {}) && (!faults ==> read)
    {
      var fault: bool := *;
      known, read := if faults && fault then {} else Known(files), !(faults && fault);
    }

    /** `active_keyslots` */
    method ActiveSlots(faults: bool) returns (active: Option<set<nat>>)
      ensures active == Some(slots.Keys) || (faults && active.None?)
    {
      var fault: bool := *;
      active := if faults && fault then None else Some(slots.Keys);
    }

    /** The test of one slot: an error, whatever it is, counts as no match. */
    method Opens(k: nat, secret: Secret, faults: bool) returns (opens: bool)
      requires k in slots
      ensures opens ==> slots[k] == secret
      ensures !faults ==> opens == (slots[k] == secret)
    {
      var fault: bool := *;
      opens := slots[k] == secret && !(faults && fault);
    }

    /** `matching_keyslots`: each active slot is tried with the secret. `missed` are the slots it opens whose test failed. */
    method MatchingSlots(secret: Secret, faults: bool) returns (matches: Option<set<nat>>, ghost missed: set<nat>)
      ensures matches.Some? ==> matches.value !! missed && matches.value + missed == Matching(slots, secret)
      ensures matches.None? ==> faults
      ensures !faults ==> missed == {}
    {
      missed := {};
      var active := ActiveSlots(faults);
      if active.None? { return None, missed; }
      var todo, found := active.value, {};
      while todo != {}
        invariant todo <= slots.Keys && found !! missed
        invariant found + missed == Matching(slots, secret) - todo
        invariant !faults ==> missed == {}
        decreases todo
      {
        var k :| k in todo;
        var opens := Opens(k, secret, faults);
        if opens { found := found + {k}; } else if slots[k] == secret { missed := missed + {k}; }
        todo := todo - {k};
      }
      assert found + missed == Matching(slots, secret);
      return Some(found), missed;
    }

    /** `luksAddKey`: a free slot takes the secret; an error may come after that. */
    method AddKey(secret: Secret, faults: bool) returns (ok: bool, ghost k: nat)
      requires InRange(slots)
      modifies this`slots
      ensures InRange(slots)
      ensures ok ==> k <= 31 && k !in old(slots) && slots == old(slots)[k := secret]
      ensures !ok ==> (faults || !FreeSlot(old(slots)))
                      && (slots == old(slots) || (k !in old(slots) && slots == old(slots)[k := secret]))
    {
      k := 0;
      var free := set i: nat | i <= 31 && i !in slots;
      if free == {} {
        assert forall i: nat | i <= 31 && i !in slots :: i in free;
        return false, 0;
      }
      var fault: bool, added: bool, slot: nat := *, *, *;
      if slot !in free { slot :| slot in free; }
      ok, k := !(faults && fault), slot;
      if ok || added { slots := slots[slot := secret]; }
    }

    /** `enroll_recovery`. `unseen`: other slots the daily secret opens, `hidden`: other slots the new key opens, each behind
        a slot test that failed. */
    method EnrollRecovery(armed: bool, device: string, existing: Secret, newKey: Secret, faults: bool)
      returns (r: Result<(nat, nat), Refusal>, ghost unseen: set<nat>, ghost hidden: set<nat>)
      requires InRange(slots)
      modifies this
      ensures InRange(slots)
      ensures r.Ok? ==>
                && (armed ==> faults)
                && EnrolledAs(old(slots), old(files), slots, files, device, existing, newKey, r.value.0, r.value.1, unseen, hidden)
      ensures !faults ==> unseen == {} && hidden == {}
      ensures r.Err? ==> slots == old(slots) || exists k: nat :: k !in old(slots) && slots == old(slots)[k := newKey]
      ensures !faults ==> (r.Ok? <==> !armed && |Matching(old(slots), existing)| == 1
                                      && Matching(old(slots), newKey) == {} && FreeSlot(old(slots)))
    {
      unseen, hidden := {}, {};
      var unread: bool := *;
      if armed && !(faults && unread) { return Err(AlreadyProtected), unseen, hidden; }
      var was := slots;
      var daily;
      daily, unseen := MatchingSlots(existing, faults);
      if daily.None? { return Err(ReadFailed), unseen, hidden; }
      if |daily.value| != 1 { return Err(NotOneDaily(daily.value)), unseen, hidden; }
      var d :| d in daily.value;
      TheOnlyOne(daily.value, d);
      var before := ActiveSlots(faults);
      if before.None? { return Err(ReadFailed), unseen, hidden; }
      var ok, k := AddKey(newKey, faults);
      if !ok { return Err(AddFailed), unseen, hidden; }
      MatchingAfterAdd(was, slots, k, newKey);
      var after := ActiveSlots(faults);
      if after.None? { return Err(ReadFailed), unseen, hidden; }
      var added := after.value - before.value;
      assert added == {k};
      var new_ :| new_ in added;
      var matches;
      matches, hidden := MatchingSlots(newKey, faults);
      if matches.None? { return Err(ReadFailed), unseen, hidden; }
      if matches.value != added { return Err(NotVerified(new_)), unseen, hidden; }
      var written := Baseline(device, d, new_, faults);
      return if written then Ok((d, new_)) else Err(WriteFailed), unseen, hidden;
    }

    /** The records of an enrolment; the registry starts over from the two slots. */
    method Baseline(device: string, d: nat, r: nat, faults: bool) returns (ok: bool)
      modifies this`files
      ensures ok ==> files == Recorded(old(files), device, d, r)
      ensures !ok ==> faults
    {
      ok := Write("recovery.device", device + "\n", faults);
      if !ok { return; }
      ok := Write("target.device", device + "\n", faults);
      if !ok { return; }
      ok := Write("daily.slot", NumberLine(d), faults);
      if !ok { return; }
      ok := Write("recovery.slot", NumberLine(r), faults);
      if !ok { return; }
      ok := Write("known.slots", PrintKnown({d, r}), faults);
    }

    /** `record_added_slots` around an operation that adds a key. When the registry is written it gains the new slot, or, if the
        listing before failed (`listed`), every active slot; it keeps what it held if that could be read (`read`).
        When the listing afterwards fails (`seen`), nothing is recorded. */
    method RecordAddedSlots(secret: Secret, faults: bool)
      returns (ok: bool, ghost k: nat, ghost listed: bool, ghost seen: bool, ghost read: bool)
      requires InRange(slots)
      modifies this
      ensures InRange(slots)
      ensures slots == old(slots) || (k !in old(slots) && slots == old(slots)[k := secret])
      ensures OtherFiles(files) == OtherFiles(old(files))
      ensures ok ==> slots == old(slots)[k := secret] && k !in old(slots)
      ensures !faults ==> listed && seen && read && (ok <==> FreeSlot(old(slots)))
      ensures ok && seen ==>
                Known(files) == (if read then Known(old(files)) else {}) + if listed then {k} else slots.Keys
      ensures ok && !seen ==> files == old(files)
    {
      read := true;
      var before := ActiveSlots(faults);
      ok, k := AddKey(secret, faults);
      listed, seen := before.Some?, true;
      if !ok { return; }
      var after := ActiveSlots(faults);
      seen := after.Some?;
      if after.Some? {
        var added := after.value - if before.Some? then before.value else {};
        assert added == if listed then {k} else slots.Keys;
        assert k in added;
        ok, read := AddKnown(added, faults);
      }
    }

    /** `write_known_slots` */
    method WriteKnown(known: set<nat>, faults: bool) returns (ok: bool)
      requires known != {} && forall n :: n in known ==> n < U8
      modifies this`files
      ensures OtherFiles(files) == OtherFiles(old(files))
      ensures if ok then Known(files) == known else faults
    {
      KnownWritten(files, known);
      ok := Write("known.slots", PrintKnown(known), faults);
    }

    /** `add_known_slots` */
    method AddKnown(added: set<nat>, faults: bool) returns (ok: bool, ghost read: bool)
      requires added != {} && forall n :: n in added ==> n < U8
      modifies this`files
      ensures OtherFiles(files) == OtherFiles(old(files))
      ensures (!ok ==> faults) && (!faults ==> read)
      ensures ok ==> Known(files) == (if read then Known(old(files)) else {}) + added
    {
      var known;
      known, read := ReadKnown(faults);
      KnownInRange(files);
      ok := WriteKnown(known + added, faults);
    }

    /** The checks of `arm` up to the unknown-slot audit; the registry may be rebuilt on the way. */
    method Audit(faults: bool) returns (r: Result<Start, Refusal>)
      modifies this`files
      ensures OtherFiles(files) == OtherFiles(old(files))
      ensures r.Ok? ==> (Audited(old(files), slots, Known(old(files))) == r || (faults && Audited(old(files), slots, {}) == r))
      ensures r.Ok? ==> slots.Keys <= Known(files)
      ensures !faults ==> r == Audited(old(files), slots, Known(old(files)))
    {
      var fault: bool := *;
      if faults && fault { return Err(ReadFailed); }
      r := Records(files);
      if r.Err? { return; }
      var problem := AuditSlots(r.value, faults);
      if problem.Some? { return Err(problem.value); }
    }

    method AuditSlots(st: Start, faults: bool) returns (problem: Option<Refusal>)
      requires st.daily <= 31 && st.recovery <= 31
      modifies this`files
      ensures OtherFiles(files) == OtherFiles(old(files))
      ensures problem.None? ==> slots.Keys <= Known(files)
      ensures problem.None? ==> SlotProblem(slots, Known(old(files)), st).None?
                                || (faults && SlotProblem(slots, {}, st).None?)
      ensures !faults ==> problem == SlotProblem(slots, Known(old(files)), st)
    {
      if st.daily == st.recovery { return Some(SameSlots); }
      var active := ActiveSlots(faults);
      if active.None? { return Some(ReadFailed); }
      if st.daily !in active.value || st.recovery !in active.value { return Some(SlotsNotActive); }
      var known, _ := ReadKnown(faults);
      var repaired := Repaired(known, st);
      assert st.daily in repaired;
      if repaired != known {
        KnownInRange(files);
        var ok := WriteKnown(repaired, faults);
        if !ok { return Some(WriteFailed); }
      }
      assert Known(files) == repaired;
      var unknown := active.value - repaired;
      assert slots.Keys <= repaired + unknown;
      return if unknown != {} then Some(UnknownSlots(unknown)) else None;
    }
  }

  lemma KnownWritten(files: Files, known: set<nat>)
    requires known != {} && forall n :: n in known ==> n < U8
    ensures var files' := files["known.slots" := PrintKnown(known)];
            Known(files') == known && OtherFiles(files') == OtherFiles(files)
  {
    KnownReadsBack(known);
  }

  function OtherFiles(files: Files): Files { files - {"known.slots"} }

  lemma KnownInRange(files: Files)
    ensures forall n :: n in Known(files) ==> n < U8
  {
  }

  function Recorded(files: Files, device: string, d: nat, r: nat): Files {
    files["recovery.device" := device + "\n"]["target.device" := device + "\n"]
         ["daily.slot" := NumberLine(d)]["recovery.slot" := NumberLine(r)]["known.slots" := PrintKnown({d, r})]
  }

  /** A successful recovery enrolment: the daily secret opened `d` and what was not seen, the new one opens the new slot `r`
      and what stays hidden. */
  predicate EnrolledAs(slots: map<nat, Secret>, files: Files, slots': map<nat, Secret>, files': Files, device: string,
                       existing: Secret, newKey: Secret, d: nat, r: nat, unseen: set<nat>, hidden: set<nat>) {
    && r !in slots && slots' == slots[r := newKey] && d != r && d !in unseen && r !in hidden
    && Matching(slots, existing) == {d} + unseen && Matching(slots', newKey) == {r} + hidden
    && files' == Recorded(files, device, d, r)
  }

  lemma TheOnlyOne(s: set<nat>, d: nat)
    requires d in s && |s| == 1
    ensures s == {d}
  {
    assert |s - {d}| == 0;
    assert s == (s - {d}) + {d};
  }

  lemma MatchingAfterAdd(slots: map<nat, Secret>, slots': map<nat, Secret>, k: nat, secret: Secret)
    requires k !in slots && slots' == slots[k := secret]
    ensures slots'.Keys - slots.Keys == {k}
    ensures forall x :: Matching(slots', x) == Matching(slots, x) + if x == secret then {k} else {}
  {
  }
}
