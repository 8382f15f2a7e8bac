/** The model of libpam against its documentation (Linux-PAM System Administrators' Guide, section 4.1). */
module PamLibpam {
  import opened Text
  import opened PamSyntax
  import opened PamRun

  // ---- keywords stand for control blocks ----

  const RENEWAL: Code := "new_authtok_reqd"
  const IGNORE: Code := "ignore"

  function Entry(name: Code, v: string): string { name + "=" + v }

  lemma EntryValue(name: Code, v: string)
    ensures Entry(name, v)[|name| + 1..] == v
  {
  }

  /** The four entries of the expansions: success, renewal, ignore where it is given, and the default. */
  lemma Block(a: string, b: string, c: string, d: string, code: Code)
    ensures ActionOn(Bracket([Entry("success", a), Entry(RENEWAL, b), Entry(IGNORE, c), Entry("default", d)]), code)
            == ParseAction(if code == "success" then a else if code == RENEWAL then b else if code == IGNORE then c else d)
  {
    var es := [Entry("success", a), Entry(RENEWAL, b), Entry(IGNORE, c), Entry("default", d)];
    var x, y, z: Code := "success", RENEWAL, IGNORE;
    Distinct(x, y, z, "default");
    FourEntries(es, x, y, z, "default", a, b, c, d, code);
  }

  lemma Distinct(x: Code, y: Code, z: Code, w: Code)
    requires x == "success" && y == RENEWAL && z == IGNORE && w == "default"
    ensures x != y && x != z && x != w && y != z && y != w && z != w
  {
  }

  lemma FourEntries(es: seq<string>, x: Code, y: Code, z: Code, w: Code, a: string, b: string, c: string, d: string, code: Code)
    requires w == "default" && x != y && x != z && x != w && y != z && y != w && z != w
    requires es == [Entry(x, a), Entry(y, b), Entry(z, c), Entry(w, d)]
    ensures ActionOn(Bracket(es), code)
            == ParseAction(if code == x then a else if code == y then b else if code == z then c else d)
  {
    assert es[..3] == [es[0], es[1], es[2]] && es[..3][..2] == [es[0], es[1]] && es[..3][..2][..1] == [es[0]];
    assert es[..3][..2][..1][..0] == [];
    assert es[1..] == [es[1], es[2], es[3]] && es[1..][1..] == [es[2], es[3]] && es[1..][1..][1..] == [es[3]];
    Names(x, a, code, w);
    Names(y, b, code, w);
    Names(z, c, code, w);
    Names(w, d, code, w);
    assert LastEntry([es[0]], code) == if code == x then Some(a) else None;
    assert LastEntry([es[0], es[1]], code) == if code == y then Some(b) else LastEntry([es[0]], code);
    assert LastEntry([es[0], es[1], es[2]], code) == if code == z then Some(c) else LastEntry([es[0], es[1]], code);
    assert LastEntry(es, code) == if code == w then Some(d) else LastEntry([es[0], es[1], es[2]], code);
    assert FirstEntry([es[3]], w) == Some(d);
    assert FirstEntry([es[2], es[3]], w) == Some(d);
    assert FirstEntry([es[1], es[2], es[3]], w) == Some(d);
    assert FirstEntry(es, w) == Some(d);
  }

  lemma Names(name: Code, v: string, code: Code, other: Code)
    ensures EntryFor(Entry(name, v), code) <==> code == name
    ensures EntryFor(Entry(name, v), other) <==> other == name
    ensures Entry(name, v)[|name| + 1..] == v
  {
    NamesOnly(name, v, code);
    NamesOnly(name, v, other);
    EntryValue(name, v);
  }

  /** An action by its name; a number is a jump over that many rules. */
  lemma ActionNames(n: nat)
    ensures ParseAction("ok") == Credit && ParseAction("bad") == Blame && ParseAction("die") == Die && ParseAction("done") == Done
    ensures ParseAction("ignore") == Ignore && ParseAction("reset") == Reset && ParseAction(PrintNat(n)) == Jump(n)
  {
    DecimalPrint(n);
    assert IsDigit(PrintNat(n)[0]);
    assert !IsDigit("ok"[0]) && !IsDigit("die"[0]) && !IsDigit("done"[0]) && !IsDigit("ignore"[0]) && !IsDigit("reset"[0]);
    assert !IsDigit("bad"[0]);
  }

  /** Of several values for a code the last one counts, and values for other codes do not. */
  lemma LastValueCounts(es: seq<string>, name: Code, v: string, code: Code)
    requires name != "default"
    ensures ActionOn(Bracket(es + [Entry(name, v)]), code) == if code == name then ParseAction(v) else ActionOn(Bracket(es), code)
  {
    var more, other: Code := es + [Entry(name, v)], "default";
    Names(name, v, code, other);
    assert more[..|es|] == es;
    DefaultKept(es, Entry(name, v));
  }

  lemma {:induction false} DefaultKept(es: seq<string>, e: string)
    requires !EntryFor(e, "default")
    ensures FirstEntry(es + [e], "default") == FirstEntry(es, "default")
    decreases |es|
  {
    if es == [] {
      assert [] + [e] == [e] && [e][1..] == [];
    } else {
      assert (es + [e])[1..] == es[1..] + [e];
      DefaultKept(es[1..], e);
    }
  }

  /** A default counts for the codes without a value of their own, and of several the first one does. */
  lemma FirstDefaultCounts(es: seq<string>, v: string, code: Code)
    requires code != "default" && LastEntry(es, code).None?
    ensures ActionOn(Bracket([Entry("default", v)] + es), code) == ParseAction(v)
  {
    var name: Code := "default";
    Names(name, v, code, name);
    var more := [Entry(name, v)] + es;
    assert more[0] == Entry(name, v);
    StillNone(es, Entry(name, v), code);
  }

  lemma {:induction false} StillNone(es: seq<string>, e: string, code: string)
    requires LastEntry(es, code).None? && !EntryFor(e, code)
    ensures LastEntry([e] + es, code).None?
    decreases |es|
  {
    if es == [] {
      assert [e] + es == [e] && [e][..0] == [];
    } else {
      assert ([e] + es)[..|es|] == [e] + es[..|es| - 1];
      StillNone(es[..|es| - 1], e, code);
    }
  }

  /** The keywords, as the Guide expands them. Where it names no action on ignore, the default stands for it. */
  lemma KeywordsExpand(code: Code)
    ensures ActionOn(Keyword("required"), code) == ActionOn(
              Bracket([Entry("success", "ok"), Entry(RENEWAL, "ok"), Entry(IGNORE, "ignore"), Entry("default", "bad")]), code)
    ensures ActionOn(Keyword("requisite"), code) == ActionOn(
              Bracket([Entry("success", "ok"), Entry(RENEWAL, "ok"), Entry(IGNORE, "ignore"), Entry("default", "die")]), code)
    ensures ActionOn(Keyword("sufficient"), code) == ActionOn(
              Bracket([Entry("success", "done"), Entry(RENEWAL, "done"), Entry(IGNORE, "ignore"), Entry("default", "ignore")]),
              code)
    ensures ActionOn(Keyword("optional"), code) == ActionOn(
              Bracket([Entry("success", "ok"), Entry(RENEWAL, "ok"), Entry(IGNORE, "ignore"), Entry("default", "ignore")]), code)
  {
    Block("ok", "ok", "ignore", "bad", code);
    Block("ok", "ok", "ignore", "die", code);
    Block("done", "done", "ignore", "ignore", code);
    Block("ok", "ok", "ignore", "ignore", code);
    ActionNames(0);
    KeywordCases(code);
  }

  lemma KeywordCases(code: Code)
    ensures KeywordAction("required", code)
            == if code == "success" || code == RENEWAL then Credit else if code == IGNORE then Ignore else Blame
    ensures KeywordAction("requisite", code)
            == if code == "success" || code == RENEWAL then Credit else if code == IGNORE then Ignore else Die
    ensures KeywordAction("sufficient", code) == if code == "success" || code == RENEWAL then Done else Ignore
    ensures KeywordAction("optional", code) == if code == "success" || code == RENEWAL then Credit else Ignore
  {
  }

  // ---- what stacks of one keyword decide ----

  predicate All(cs: seq<Control>, name: string) { forall k :: 0 <= k < |cs| ==> cs[k] == Keyword(name) }

  ghost predicate Plain(r: nat -> Code) { forall k: nat :: r(k) in {"success", "auth_err"} }

  /** A stack of required modules grants if and only if there is one and all succeed, and it runs them all. */
  lemma RequiredGrants(cs: seq<Control>, r: nat -> Code, credits: bool)
    requires All(cs, "required") && Plain(r)
    ensures Granted(Run(cs, r, 0, FRESH, credits)) <==> cs != [] && forall k :: 0 <= k < |cs| ==> r(k) == "success"
    ensures |Run(cs, r, 0, FRESH, credits).trace| == |cs|
  {
    RequiredFrom(cs, r, 0, FRESH, credits);
  }

  lemma {:induction false} RequiredFrom(cs: seq<Control>, r: nat -> Code, i: nat, st: Standing, credits: bool)
    requires i <= |cs| && All(cs, "required") && Plain(r)
    requires st in {FRESH, Standing(Positive, "success")} || st.impression == Negative
    ensures Granted(Run(cs, r, i, st, credits)) <==>
              && !st.impression.Negative? && (st.impression.Positive? || i < |cs|)
              && forall k :: i <= k < |cs| ==> r(k) == "success"
    ensures |Run(cs, r, i, st, credits).trace| == |cs| - i
    decreases |cs| - i
  {
    if i < |cs| {
      RequiredStep(r(i));
      var next := if r(i) == "success" then Credited(st, "success") else Blamed(st, r(i));
      assert StepAt(cs[i], r(i), i, |cs|, st, credits) == Goto(i + 1, next);
      RequiredFrom(cs, r, i + 1, next, credits);
    }
  }

  lemma RequiredStep(code: Code)
    requires code in {"success", "auth_err"}
    ensures ActionOn(Keyword("required"), code) == if code == "success" then Credit else Blame
  {
  }

  /** A stack of sufficient modules grants if and only if one succeeds, and runs none behind the first that does. */
  lemma {:induction false} SufficientGrants(cs: seq<Control>, r: nat -> Code, i: nat, credits: bool)
    requires i <= |cs| && All(cs, "sufficient") && Plain(r)
    ensures var o := Run(cs, r, i, FRESH, credits);
            && (Granted(o) <==> exists k :: i <= k < |cs| && r(k) == "success")
            && forall k :: i <= k < |cs| && r(k) == "success" ==> forall p :: p in o.trace ==> p <= k
    decreases |cs| - i
  {
    if i < |cs| {
      SufficientStep(r(i));
      if r(i) != "success" {
        SufficientGrants(cs, r, i + 1, credits);
        assert Run(cs, r, i, FRESH, credits).trace == [i] + Run(cs, r, i + 1, FRESH, credits).trace;
      }
    }
  }

  lemma SufficientStep(code: Code)
    requires code in {"success", "auth_err"}
    ensures ActionOn(Keyword("sufficient"), code) == if code == "success" then Done else Ignore
  {
  }

  /** A requisite module that fails ends the run in a denial, whatever came before and whatever is behind. */
  lemma RequisiteStops(cs: seq<Control>, r: nat -> Code, i: nat, st: Standing, credits: bool)
    requires i < |cs| && cs[i] == Keyword("requisite") && r(i) == "auth_err"
    ensures var o := Run(cs, r, i, st, credits); o.trace == [i] && !Granted(o) && !o.fell
  {
    RequisiteStep(r(i));
    assert StepAt(cs[i], r(i), i, |cs|, st, credits) == Stop(Blamed(st, r(i)));
  }

  lemma RequisiteStep(code: Code)
    requires code == "auth_err"
    ensures ActionOn(Keyword("requisite"), code) == Die
  {
  }
}
