/** What arming demands of the records and the key slots, and how it ends when nothing fails. */
module AuditCases {
  import opened Text
  import opened AttemptPolicy
  import opened Erasing
  import opened Unlocking
  import opened Enrolling
  import Verifier

  // ---- the registry ----

  predicate Separates(c: char) { c == ',' || IsSpace(c) }

  /** A slot number between commas or blanks. */
  ghost predicate Registered(text: string, n: nat) {
    exists i: nat, j: nat :: PieceAt(text, Separates, i, j) && ParseUnsigned(text[i..j], 0x100) == Some(n)
  }

  lemma SamePieceAt(text: string, i: nat, j: nat)
    ensures PieceAt(text, Separates, i, j) == PieceAt(text, KnownDelim, i, j)
  {
  }

  lemma KnownIff(text: string, n: nat)
    ensures n in ParseKnown(text) <==> Registered(text, n)
  {
    if n in ParseKnown(text) {
      var t :| t in Pieces(text, KnownDelim) && ParseUnsigned(t, U8) == Some(n);
      PieceIff(text, KnownDelim, t);
      var i: nat, j: nat :| PieceAt(text, KnownDelim, i, j) && t == text[i..j];
      SamePieceAt(text, i, j);
    }
    if Registered(text, n) {
      var i: nat, j: nat :| PieceAt(text, Separates, i, j) && ParseUnsigned(text[i..j], 0x100) == Some(n);
      SamePieceAt(text, i, j);
      PieceIff(text, KnownDelim, text[i..j]);
    }
  }

  // ---- the records ----

  predicate IsRecord(files: Files, name: string, slot: nat) {
    name in files && ParseUnsigned(Trim(files[name]), 0x100) == Some(slot) && slot < 32
  }

  /** A readable verifier, a policy or the defaults in its place, a target that is not blank, and the two slots. */
  predicate OnFile(files: Files, st: Start) {
    && "duress.hash" in files && Verifier.Parse(files["duress.hash"]) == Ok(st.verifier)
    && (if "config" in files then Parsed(files["config"]) == Ok(st.policy) else st.policy == Policy(3, 5, 0, 5))
    && "target.device" in files && !Blank(files["target.device"])
    && IsRecord(files, "daily.slot", st.daily) && IsRecord(files, "recovery.slot", st.recovery)
  }

  lemma SlotIff(files: Files, name: string, slot: nat)
    ensures Field(files, name, ReadSlot) == Some(slot) <==> IsRecord(files, name, slot)
  {
  }

  /** What enrolment leaves on file: the two slots, a registry of just these, and the device. */
  lemma RecordedIs(files: Files, device: string, d: nat, r: nat, out: Files)
    requires d < 32 && r < 32 && out == Recorded(files, device, d, r)
    ensures IsRecord(out, "daily.slot", d) && IsRecord(out, "recovery.slot", r) && Known(out) == {d, r}
    ensures "target.device" in out && out["target.device"] == device + "\n"
  {
    RecordedTexts(files, device, d, r, out);
    WrittenSlot(out, "daily.slot", d);
    WrittenSlot(out, "recovery.slot", r);
    KnownFrom(out, d, r);
  }

  /** Every other file stays as it is. */
  lemma RecordedElse(files: Files, device: string, d: nat, r: nat, name: string)
    requires name !in {"recovery.device", "target.device", "daily.slot", "recovery.slot", "known.slots"}
    ensures SameName(files, Recorded(files, device, d, r), name)
  {
  }

  predicate Holds(files: Files, name: string, text: string) { name in files && files[name] == text }

  lemma RecordedTexts(files: Files, device: string, d: nat, r: nat, out: Files)
    requires out == Recorded(files, device, d, r)
    ensures Holds(out, "target.device", device + "\n") && Holds(out, "daily.slot", NumberLine(d))
    ensures Holds(out, "recovery.slot", NumberLine(r)) && Holds(out, "known.slots", PrintKnown({d, r}))
  {
    LastWritten(files["recovery.device" := device + "\n"], "target.device", device + "\n", "daily.slot", NumberLine(d),
                "recovery.slot", NumberLine(r), "known.slots", PrintKnown({d, r}));
  }

  lemma WrittenSlot(files: Files, name: string, n: nat)
    requires Holds(files, name, NumberLine(n)) && n < 32
    ensures IsRecord(files, name, n)
  {
    SlotReadsBack(n);
    SlotIff(files, name, n);
  }

  lemma LastWritten(files: Files, n1: string, v1: string, n2: string, v2: string, n3: string, v3: string, n4: string, v4: string)
    requires n1 != n2 && n1 != n3 && n1 != n4 && n2 != n3 && n2 != n4 && n3 != n4
    ensures var out := files[n1 := v1][n2 := v2][n3 := v3][n4 := v4];
            Holds(out, n1, v1) && Holds(out, n2, v2) && Holds(out, n3, v3) && Holds(out, n4, v4)
  {
  }

  lemma KnownFrom(files: Files, d: nat, r: nat)
    requires Holds(files, "known.slots", PrintKnown({d, r})) && d < 32 && r < 32
    ensures Known(files) == {d, r}
  {
    KnownReadsBack({d, r});
  }

  lemma TargetIff(files: Files)
    ensures HasTarget(files) <==> "target.device" in files && !Blank(files["target.device"])
  {
    if "target.device" in files { TrimBlank(files["target.device"]); }
  }

  lemma PolicyIff(files: Files, p: Policy)
    ensures (if "config" in files then ReadPolicy(files["config"]) else Some(DEFAULT)) == Some(p) <==>
              if "config" in files then Parsed(files["config"]) == Ok(p) else p == Policy(3, 5, 0, 5)
  {
  }

  lemma VerifierIff(files: Files, v: Verifier.DuressHash)
    ensures Field(files, "duress.hash", ReadVerifier) == Some(v) <==>
              "duress.hash" in files && Verifier.Parse(files["duress.hash"]) == Ok(v)
  {
  }

  lemma OnFileIff(files: Files, st: Start)
    ensures Enrolling.Records(files) == Ok(st) <==> OnFile(files, st)
  {
    VerifierIff(files, st.verifier);
    PolicyIff(files, st.policy);
    TargetIff(files);
    SlotIff(files, "daily.slot", st.daily);
    SlotIff(files, "recovery.slot", st.recovery);
  }

  /** The audit passes, with the values on file, if and only if the two recorded slots differ and are active, and every other
      active slot is registered. */
  lemma AuditedIff(files: Files, slots: map<nat, Secret>, known: set<nat>, st: Start)
    ensures Audited(files, slots, known) == Ok(st) <==>
              && OnFile(files, st) && st.daily != st.recovery && st.daily in slots && st.recovery in slots
              && forall k :: k in slots ==> k in known || k == st.daily || k == st.recovery
  {
    OnFileIff(files, st);
    ProblemIff(slots, known, st);
  }

  lemma ProblemIff(slots: map<nat, Secret>, known: set<nat>, st: Start)
    ensures SlotProblem(slots, known, st).None? <==>
              && st.daily != st.recovery && st.daily in slots && st.recovery in slots
              && forall k :: k in slots ==> k in known || k == st.daily || k == st.recovery
  {
    var unknown := slots.Keys - Repaired(known, st);
    if unknown != {} {
      var k :| k in unknown;
      assert k in slots && k !in Repaired(known, st);
    } else {
      forall k | k in slots ensures k in Repaired(known, st) { assert k !in unknown; }
    }
  }
}
