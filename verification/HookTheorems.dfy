/** What inserting and removing the hook does to mkinitcpio.conf. */
module HookTheorems {
  import opened Text
  import opened Sequences
  import opened Hooks

  // ---- tokens of a HOOKS line ----

  predicate Delim(c: char) { IsSpace(c) || c == '(' || c == ')' || c == '"' }

  function Toks(s: string): seq<string> { Pieces(s, Delim) }

  predicate NotDeath(t: string) { t != DEATH }

  function Others(ts: seq<string>): seq<string> { Select(ts, NotDeath) }

  lemma OthersAppend(a: seq<string>, b: seq<string>)
    ensures Others(a + b) == Others(a) + Others(b)
  {
    SelectAppend(a, b, NotDeath);
  }

  lemma DeathToken()
    ensures Toks(DEATH) == [DEATH] && Others([DEATH]) == []
  {
    InkHead(DEATH, "", Delim);
    assert DEATH + "" == DEATH;
    assert [DEATH][..0] == [];
    assert Select([DEATH], NotDeath) == Select([DEATH][..0], NotDeath);
  }

  /** Cutting one occurrence removes one deathstroke token and no other. */
  lemma CutTokens(s: string, start: nat)
    requires At(s, DEATH, start) && SafeAt(s, start)
    ensures Others(Toks(Cut(s, start))) == Others(Toks(s))
  {
    CutEnds(s, start);
    var end := start + |DEATH|;
    if end < |s| && IsSpace(s[end]) {
      CutBefore(s[..start], s[end], s[end + 1..]);
    } else {
      CutParts(s[..start], s[end..], s[end..]);
    }
  }

  /** The text around an occurrence. */
  lemma CutEnds(s: string, start: nat)
    requires At(s, DEATH, start) && SafeAt(s, start)
    ensures var end := start + |DEATH|;
            && s == s[..start] + (DEATH + s[end..])
            && (start == 0 || Delim(s[..start][start - 1]))
            && (end == |s| || (Delim(s[end]) && s[end..] == [s[end]] + s[end + 1..]))
  {
  }

  lemma CutBefore(a: string, c: char, rest: string)
    requires (a == "" || Delim(a[|a| - 1])) && Delim(c)
    ensures Others(Toks(a + rest)) == Others(Toks(a + (DEATH + ([c] + rest))))
  {
    DelimHead(c, rest, Delim);
    CutParts(a, [c] + rest, rest);
  }

  lemma CutParts(a: string, b: string, b': string)
    requires (a == "" || Delim(a[|a| - 1])) && (b == "" || Delim(b[0]))
    requires Toks(b') == Toks(b)
    ensures Others(Toks(a + b')) == Others(Toks(a + (DEATH + b)))
  {
    PiecesAppend(DEATH, b, Delim);
    PiecesAppend(a, DEATH + b, Delim);
    PiecesAppend(a, b', Delim);
    DeathToken();
    OthersAppend(Toks(a), [DEATH] + Toks(b));
    OthersAppend([DEATH], Toks(b));
    OthersAppend(Toks(a), Toks(b));
    assert [] + Others(Toks(b)) == Others(Toks(b));
  }

  /** When removal succeeds on a line, no occurrence is left and every other token keeps its place. */
  lemma {:induction false} StrippedTokens(s: string)
    requires Stripped(s).Ok?
    ensures Find(Stripped(s).value, DEATH).None?
    ensures Others(Toks(Stripped(s).value)) == Others(Toks(s))
    decreases |s|
  {
    if Find(s, DEATH).Some? {
      var start := Find(s, DEATH).value;
      CutTokens(s, start);
      StrippedTokens(Cut(s, start));
    }
  }

  /** For all inputs: removal keeps the number of lines and every line that is not a HOOKS line, and
      leaves on every HOOKS line the other tokens in their order and no `deathstroke`. */
  lemma RemovalKeepsTheRest(original: string)
    requires Without(original).Ok?
    ensures var ls := Lines(original);
            exists out: seq<string> ::
              && |out| == |ls| && Without(original).value == Rewritten(original, out)
              && forall i :: 0 <= i < |ls| ==>
                   if IsHooks(ls[i]) then Find(out[i], DEATH).None? && Others(Toks(out[i])) == Others(Toks(ls[i]))
                   else out[i] == ls[i]
  {
    var ls := Lines(original);
    var out := MapLines(ls, StripLine).value;
    forall i | 0 <= i < |ls|
      ensures if IsHooks(ls[i]) then Find(out[i], DEATH).None? && Others(Toks(out[i])) == Others(Toks(ls[i]))
              else out[i] == ls[i]
    {
      assert StripLine(ls[i]) == Ok(out[i]);
      if IsHooks(ls[i]) { StrippedTokens(ls[i]); }
    }
  }

  // ---- insertion, then removal ----

  /** The first `encrypt` of the line begins a token. */
  predicate EncryptStartsToken(line: string) {
    match Find(line, ENCRYPT)
    case None => true
    case Some(e) => e == 0 || OkBefore(line[e - 1])
  }

  function Inserted(line: string, e: nat): string
    requires e <= |line|
  {
    line[..e] + (DEATH + " ") + line[e..]
  }

  /** `d` occurs in the hook's name only at its start, so the inserted name is the first occurrence. */
  lemma InsertedFound(line: string, e: nat)
    requires e <= |line| && Find(line, DEATH).None?
    ensures Find(Inserted(line, e), DEATH) == Some(e)
    ensures Cut(Inserted(line, e), e) == line
    ensures SafeAt(Inserted(line, e), e) <==> e == 0 || OkBefore(line[e - 1])
  {
    var s := Inserted(line, e);
    assert s[e..e + 11] == DEATH;
    assert s[e + 11] == ' ';
    assert s[e + 12..] == line[e..] && s[..e] == line[..e];
    assert e > 0 ==> s[e - 1] == line[e - 1];
    forall k: nat | k < e
      ensures !At(s, DEATH, k)
    {
      InsertedBefore(line, DEATH, e, k);
    }
    FindIs(s, DEATH, e);
    assert line == line[..e] + line[e..];
  }

  /** A word with no `d` after its first letter cannot run across the place of insertion. */
  lemma InsertedBefore(line: string, pat: string, e: nat, k: nat)
    requires e <= |line| && k < e && pat != "" && !At(line, pat, k)
    requires forall i :: 0 < i < |pat| ==> pat[i] != 'd'
    ensures !At(Inserted(line, e), pat, k)
  {
    var s := Inserted(line, e);
    assert s[e] == 'd';
    if k + |pat| <= e {
      assert s[k..k + |pat|] == line[k..k + |pat|];
    } else if k + |pat| <= |s| {
      assert s[k..k + |pat|][e - k] == s[e];
    }
  }

  /** Removing what was inserted gives the line back exactly when `encrypt` starts a token. */
  lemma LineRoundTrip(line: string)
    requires IsHooks(line) && Find(line, DEATH).None? && Find(line, ENCRYPT).Some?
    ensures var s := Inserted(line, Find(line, ENCRYPT).value);
            && EnsureLine(line) == Ok(s)
            && Stripped(s) == (if EncryptStartsToken(line) then Ok(line) else Err(UnsafeToken))
  {
    var e := Find(line, ENCRYPT).value;
    InsertedFound(line, e);
  }

  lemma InsertedIsHooks(line: string)
    requires IsHooks(line) && Find(line, ENCRYPT).Some?
    ensures IsHooks(Inserted(line, Find(line, ENCRYPT).value))
  {
    var e := Find(line, ENCRYPT).value;
    EncryptAfterHooks(line, e);
    HooksFromPrefix(line, Inserted(line, e), e);
  }

  lemma EncryptAfterHooks(line: string, e: nat)
    requires IsHooks(line) && At(line, ENCRYPT, e)
    ensures SkipWhile(line, 0, IsSpace) + 6 <= e
  {
    var k := SkipWhile(line, 0, IsSpace);
    var t := TrimStart(line);
    assert line[e] == line[e..e + 7][0] == 'e';
    assert t[..6] == "HOOKS=";
    assert forall i :: 0 <= i < 6 ==> "HOOKS="[i] != 'e';
    forall j | k <= j < k + 6
      ensures line[j] != 'e'
    {
      assert line[j] == t[j - k] == t[..6][j - k];
    }
  }

  lemma HooksFromPrefix(line: string, s: string, n: nat)
    requires IsHooks(line) && n <= |line| && n <= |s| && forall i :: 0 <= i < n ==> s[i] == line[i]
    requires SkipWhile(line, 0, IsSpace) + 6 <= n
    ensures IsHooks(s)
  {
    var k := SkipWhile(line, 0, IsSpace);
    SkipPrefix(line, s, 0, n, IsSpace);
    assert TrimStart(line)[..6] == line[k..k + 6] == s[k..k + 6] == TrimStart(s)[..6];
  }

  lemma {:induction false} SkipPrefix(a: string, b: string, i: nat, n: nat, p: char -> bool)
    requires i <= n <= |a| && n <= |b| && forall k :: 0 <= k < n ==> b[k] == a[k]
    requires SkipWhile(a, i, p) < n
    ensures SkipWhile(b, i, p) == SkipWhile(a, i, p)
    decreases n - i
  {
    if p(a[i]) { SkipPrefix(a, b, i + 1, n, p); }
  }

  // ---- inserting twice ----

  lemma StrippedCrFind(s: string, pat: string)
    requires pat != "" && '\r' !in pat
    ensures Find(StripCr(s), pat) == Find(s, pat)
  {
    var t := StripCr(s);
    forall k: nat
      ensures At(t, pat, k) == At(s, pat, k)
    {
      if k + |pat| <= |t| {
        assert t[k..k + |pat|] == s[k..k + |pat|];
      } else if k + |pat| <= |s| {
        assert s[k..k + |pat|][|pat| - 1] == s[k + |pat| - 1];
        assert pat[|pat| - 1] in pat;
      }
    }
    if Find(s, pat).Some? { FindIs(t, pat, Find(s, pat).value); }
  }

  lemma StrippedCrHooks(s: string)
    ensures IsHooks(StripCr(s)) == IsHooks(s)
  {
    var t, k := StripCr(s), SkipWhile(s, 0, IsSpace);
    assert forall i :: 0 <= i < |t| ==> t[i] == s[i];
    if k < |t| {
      SkipPrefix(s, t, 0, |t|, IsSpace);
      assert TrimStart(s)[..|t| - k] == TrimStart(t);
      if k + 6 <= |s| { assert TrimStart(s)[5] == s[k + 5]; }
    } else {
      assert |TrimStart(s)| <= 1;
      assert forall i :: 0 <= i < |t| ==> IsSpace(t[i]);
    }
  }

  lemma InsertedEncrypt(line: string, e: nat)
    requires Find(line, ENCRYPT) == Some(e)
    ensures Find(Inserted(line, e), ENCRYPT) == Some(e + 12)
  {
    var s := Inserted(line, e);
    InsertedParts(line, e);
    forall k: nat | k < e + 12
      ensures !At(s, ENCRYPT, k)
    {
      if k < e { InsertedBefore(line, ENCRYPT, e, k); } else { NotInside(s, e, k); }
    }
    FindIs(s, ENCRYPT, e + 12);
  }

  lemma InsertedParts(line: string, e: nat)
    requires At(line, ENCRYPT, e)
    ensures var s := Inserted(line, e); s[e..e + 12] == DEATH + " " && At(s, ENCRYPT, e + 12)
  {
    var s := Inserted(line, e);
    assert s[e + 12..][..7] == line[e..][..7];
    assert s[e + 12..][..7] == s[e + 12..e + 12 + 7] && line[e..][..7] == line[e..e + 7];
  }

  /** The name of the hook has no `encrypt` in it, nor begins one. */
  lemma NotInside(s: string, e: nat, k: nat)
    requires e + 12 <= |s| && s[e..e + 12] == DEATH + " " && e <= k < e + 12
    ensures !At(s, ENCRYPT, k)
  {
    assert s[k] == (DEATH + " ")[k - e];
    if k < e + 11 { assert s[k + 1] == (DEATH + " ")[k + 1 - e]; }
    if k + 7 <= |s| { assert s[k..k + 7][0] == s[k] && s[k..k + 7][1] == s[k + 1]; }
  }

  lemma EnsuredLineStays(line: string)
    requires EnsureLine(line).Ok?
    ensures var s := StripCr(EnsureLine(line).value); EnsureLine(s) == Ok(s)
  {
    var v := EnsureLine(line).value;
    StrippedCrHooks(v);
    StrippedCrFind(v, DEATH);
    StrippedCrFind(v, ENCRYPT);
    if IsHooks(line) && Find(line, DEATH).None? {
      var e := Find(line, ENCRYPT).value;
      InsertedFound(line, e);
      InsertedEncrypt(line, e);
      InsertedIsHooks(line);
    }
  }

  lemma {:induction false} LinesOfUnlines(ls: seq<string>)
    requires ls != [] && forall l :: l in ls ==> '\n' !in l
    ensures |Lines(Unlines(ls))| == |ls|
    ensures forall i :: 0 <= i < |ls| ==> Lines(Unlines(ls))[i] == StripCr(ls[i])
  {
    if |ls| == 1 {
      LinesCons(ls[0], "");
      assert ls[0] + "\n" + "" == Unlines(ls);
    } else {
      LinesCons(ls[0], Unlines(ls[1..]));
      LinesOfUnlines(ls[1..]);
    }
  }

  lemma NothingToDo(text: string, edit: string -> Result<string, HookError>)
    requires SawHooks(Lines(text)) && forall i :: 0 <= i < |Lines(text)| ==> edit(Lines(text)[i]) == Ok(Lines(text)[i])
    ensures Edited(text, edit) == Ok(text)
  {
    var out := MapLines(Lines(text), edit).value;
    assert forall i :: 0 <= i < |out| ==> edit(Lines(text)[i]) == Ok(out[i]);
    assert out == Lines(text);
  }

  /** Some HOOKS line names the hook. */
  predicate HookListed(conf: string) {
    exists i :: 0 <= i < |Lines(conf)| && IsHooks(Lines(conf)[i]) && Contains(Lines(conf)[i], DEATH)
  }

  predicate AllEnsured(ls: seq<string>) { forall i :: 0 <= i < |ls| ==> EnsureLine(ls[i]) == Ok(ls[i]) }

  lemma EnsuredLines(text: string)
    requires Ensured(text).Ok?
    ensures var ls := Lines(Ensured(text).value); SawHooks(ls) && AllEnsured(ls)
  {
    var ls := Lines(text);
    var out := MapLines(ls, EnsureLine).value;
    var h :| 0 <= h < |ls| && IsHooks(ls[h]);
    if out == ls {
      assert AllEnsured(ls);
    } else {
      NoNewlines(ls, out);
      LinesOfUnlines(out);
      EnsuredStays(ls, out, Lines(Unlines(out)));
      assert IsHooks(Lines(Unlines(out))[h]);
    }
  }

  lemma EnsuredStays(ls: seq<string>, out: seq<string>, v: seq<string>)
    requires |v| == |out| == |ls| && forall i :: 0 <= i < |ls| ==> EnsureLine(ls[i]) == Ok(out[i]) && v[i] == StripCr(out[i])
    ensures AllEnsured(v) && forall i :: 0 <= i < |ls| && IsHooks(ls[i]) ==> IsHooks(v[i])
  {
    forall i | 0 <= i < |v|
      ensures EnsureLine(v[i]) == Ok(v[i])
      ensures IsHooks(ls[i]) ==> IsHooks(v[i])
    {
      EnsuredLineStays(ls[i]);
      StrippedCrHooks(out[i]);
      if IsHooks(ls[i]) && out[i] != ls[i] { InsertedIsHooks(ls[i]); }
    }
  }

  /** For all inputs: after insertion every HOOKS line names the hook, ahead of `encrypt`. */
  lemma EnsuredNamesHook(text: string)
    requires Ensured(text).Ok?
    ensures var ls := Lines(Ensured(text).value);
            && HookListed(Ensured(text).value)
            && forall i :: 0 <= i < |ls| && IsHooks(ls[i]) ==>
                 Find(ls[i], DEATH).Some? && Find(ls[i], ENCRYPT).Some? && Find(ls[i], DEATH).value < Find(ls[i], ENCRYPT).value
  {
    var ls := Lines(Ensured(text).value);
    EnsuredLines(text);
    forall i | 0 <= i < |ls| && IsHooks(ls[i])
      ensures Find(ls[i], DEATH).Some? && Find(ls[i], ENCRYPT).Some? && Find(ls[i], DEATH).value < Find(ls[i], ENCRYPT).value
    {
      NamedBefore(ls[i]);
    }
    var h :| 0 <= h < |ls| && IsHooks(ls[h]);
    assert Contains(ls[h], DEATH);
  }

  lemma NamedBefore(line: string)
    requires IsHooks(line) && EnsureLine(line) == Ok(line)
    ensures Find(line, DEATH).Some? && Find(line, ENCRYPT).Some? && Find(line, DEATH).value < Find(line, ENCRYPT).value
  {
    var e := Find(line, ENCRYPT).value;
    InsertedEnd(line, e);
    assert line[e..e + 7][0] == line[e];
    if Find(line, DEATH).Some? {
      var d := Find(line, DEATH).value;
      assert line[d..d + 11][0] == line[d];
    }
  }

  /** For all inputs: a second insertion changes nothing. */
  lemma EnsureTwice(text: string)
    requires Ensured(text).Ok?
    ensures Ensured(Ensured(text).value) == Ensured(text)
  {
    EnsuredLines(text);
    NothingToDo(Ensured(text).value, EnsureLine);
  }

  predicate Hookless(ls: seq<string>) { forall i :: 0 <= i < |ls| && IsHooks(ls[i]) ==> Find(ls[i], DEATH).None? }

  lemma HooklessFile(out: seq<string>)
    requires out != [] && Hookless(out) && forall l :: l in out ==> '\n' !in l
    ensures Hookless(Lines(Unlines(out)))
  {
    LinesOfUnlines(out);
    StillHookless(out, Lines(Unlines(out)));
  }

  lemma StillHookless(out: seq<string>, ls: seq<string>)
    requires Hookless(out) && |ls| == |out| && forall i :: 0 <= i < |out| ==> ls[i] == StripCr(out[i])
    ensures Hookless(ls)
  {
    forall i | 0 <= i < |ls| && IsHooks(ls[i])
      ensures Find(ls[i], DEATH).None?
    {
      StrippedCrHooks(out[i]);
      StrippedCrFind(out[i], DEATH);
    }
  }

  lemma StrippedLine(line: string)
    requires StripLine(line).Ok? && '\n' !in line
    ensures var out := StripLine(line).value; '\n' !in out && (IsHooks(out) ==> Find(out, DEATH).None?)
  {
    if IsHooks(line) {
      StrippedTokens(line);
      StrippedOneLine(line);
    }
  }

  /** For all inputs: after removal no HOOKS line names the hook. */
  lemma RemovedNamesNoHook(text: string)
    requires Without(text).Ok?
    ensures !HookListed(Without(text).value)
  {
    var ls := Lines(text);
    var out := MapLines(ls, StripLine).value;
    forall i | 0 <= i < |ls|
      ensures '\n' !in out[i] && (IsHooks(out[i]) ==> Find(out[i], DEATH).None?)
    {
      assert StripLine(ls[i]) == Ok(out[i]) && ls[i] in ls;
      StrippedLine(ls[i]);
    }
    HooklessFile(out);
  }

  lemma {:induction false} StrippedOneLine(s: string)
    requires Stripped(s).Ok? && '\n' !in s
    ensures '\n' !in Stripped(s).value
    decreases |s|
  {
    if Find(s, DEATH).Some? { StrippedOneLine(Cut(s, Find(s, DEATH).value)); }
  }

  lemma NoNewlines(ls: seq<string>, out: seq<string>)
    requires MapLines(ls, EnsureLine) == Ok(out) && forall l :: l in ls ==> '\n' !in l
    ensures forall l :: l in out ==> '\n' !in l
  {
    forall i | 0 <= i < |out|
      ensures '\n' !in out[i]
    {
      assert EnsureLine(ls[i]) == Ok(out[i]) && ls[i] in ls;
    }
  }

  // ---- the whole file ----

  lemma {:induction false} LfLines(text: string)
    requires LfText(text)
    ensures forall l :: l in Lines(text) ==> StripCr(l) == l
    decreases |text|
  {
    if text != "" {
      var i := SkipWhile(text, 0, NotNewline);
      assert !NotNewline(text[|text| - 1]);
      var l, rest := text[..i], text[i + 1..];
      assert text == l + "\n" + rest;
      LfCons(l, rest);
      LfLines(rest);
    }
  }

  predicate NoDeath(text: string) {
    forall l :: l in Lines(text) && IsHooks(l) ==> Find(l, DEATH).None?
  }

  predicate EncryptStartsTokens(text: string) {
    forall l :: l in Lines(text) && IsHooks(l) ==> EncryptStartsToken(l)
  }

  predicate LineBack(line: string, s: string) {
    && StripCr(s) == s && IsHooks(s) == IsHooks(line)
    && (IsHooks(line) ==> s != line)
    && StripLine(s) == (if IsHooks(line) && !EncryptStartsToken(line) then Err(UnsafeToken) else Ok(line))
  }

  lemma LineThere(line: string)
    requires EnsureLine(line).Ok? && StripCr(line) == line && (IsHooks(line) ==> Find(line, DEATH).None?)
    ensures LineBack(line, EnsureLine(line).value)
  {
    if IsHooks(line) {
      InsertedIsHooks(line);
      LineRoundTrip(line);
      InsertedEnd(line, Find(line, ENCRYPT).value);
    }
  }

  lemma InsertedEnd(line: string, e: nat)
    requires e < |line|
    ensures StripCr(line) == line ==> StripCr(Inserted(line, e)) == Inserted(line, e)
    ensures Inserted(line, e) != line
  {
    var s := Inserted(line, e);
    assert s[|s| - 1] == line[|line| - 1] && |s| > |line|;
  }

  /** Insertion and removal are inverse on the whole file exactly when the first `encrypt` of every
      HOOKS line starts a token; otherwise removal fails. */
  lemma FileRoundTrip(text: string)
    requires LfText(text) && NoDeath(text) && Ensured(text).Ok?
    ensures Ensured(text).value != text
    ensures Without(Ensured(text).value) == (if EncryptStartsTokens(text) then Ok(text) else Err(UnsafeToken))
  {
    var ls := Lines(text);
    var out := MapLines(ls, EnsureLine).value;
    LfLines(text);
    NoNewlines(ls, out);
    forall i | 0 <= i < |ls|
      ensures LineBack(ls[i], out[i])
    {
      assert ls[i] in ls;
      LineThere(ls[i]);
    }
    LinesUnlines(out);
    UnlinesLines(text);
    HooksKept(ls, out);
    assert forall i :: 0 <= i < |ls| ==> LineBack(ls[i], out[i]);
    BackAgain(ls, out, StripLine, Removable);
    Answer(text, out);
  }

  lemma HooksKept(ls: seq<string>, out: seq<string>)
    requires |out| == |ls| && SawHooks(ls) && forall i :: 0 <= i < |ls| ==> LineBack(ls[i], out[i])
    ensures out != ls && SawHooks(out)
  {
    var h :| 0 <= h < |ls| && IsHooks(ls[h]);
    assert LineBack(ls[h], out[h]);
  }

  lemma Answer(text: string, out: seq<string>)
    requires out != [] && out != Lines(text) && Lines(Unlines(out)) == out && SawHooks(out)
    requires text != "" && Unlines(Lines(text)) == text
    requires MapLines(out, StripLine).Ok? ==> MapLines(out, StripLine).value == Lines(text)
    ensures Unlines(out) != text
    ensures Without(Unlines(out)) ==
      if MapLines(out, StripLine).Ok? then Ok(text) else Err(MapLines(out, StripLine).error)
  {
    assert Lines(text) != Lines(Unlines(out));
  }

  predicate Removable(line: string) { IsHooks(line) ==> EncryptStartsToken(line) }

  lemma BackAgain(ls: seq<string>, out: seq<string>, edit: string -> Result<string, HookError>, good: string -> bool)
    requires |out| == |ls|
    requires forall i :: 0 <= i < |ls| ==> edit(out[i]) == if good(ls[i]) then Ok(ls[i]) else Err(UnsafeToken)
    ensures MapLines(out, edit) == if forall l :: l in ls ==> good(l) then Ok(ls) else Err(UnsafeToken)
  {
    var r := MapLines(out, edit);
    if r.Ok? {
      assert forall i :: 0 <= i < |ls| ==> edit(out[i]) == Ok(r.value[i]) && good(ls[i]);
      assert r.value == ls;
    } else {
      ErrorOf(out, edit);
      var i :| 0 <= i < |out| && edit(out[i]).Err?;
      assert ls[i] in ls;
    }
  }

  lemma {:induction false} ErrorOf(ls: seq<string>, edit: string -> Result<string, HookError>)
    requires MapLines(ls, edit).Err? && forall i :: 0 <= i < |ls| ==> edit(ls[i]).Ok? || edit(ls[i]).error == UnsafeToken
    ensures MapLines(ls, edit) == Err(UnsafeToken)
    decreases |ls|
  {
    var n := |ls| - 1;
    if MapLines(ls[..n], edit).Err? { ErrorOf(ls[..n], edit); }
  }

  // ---- lines that do not come back ----

  /** Where the first `encrypt` is: only its own `y` can be that of an occurrence. */
  lemma FirstEncrypt(a: string, b: string)
    requires 'y' !in a
    ensures Find(a + ENCRYPT + b, ENCRYPT) == Some(|a|)
  {
    var s := a + ENCRYPT + b;
    assert s[|a|..|a| + 7] == ENCRYPT;
    assert ENCRYPT[0] == 'e' && ENCRYPT[1] == 'n' && ENCRYPT[2] == 'c' && ENCRYPT[3] == 'r' && ENCRYPT[4] == 'y';
    forall k: nat | k < |a|
      ensures !At(s, ENCRYPT, k)
    {
      assert s[k..k + 7][4] == s[k + 4];
      if k + 4 < |a| {
        assert s[k + 4] == a[k + 4] && a[k + 4] in a;
      } else {
        assert s[k + 4] == ENCRYPT[k + 4 - |a|] && k + 4 - |a| < 4;
      }
    }
    FindIs(s, ENCRYPT, |a|);
  }

  lemma NoHook(s: string)
    requires 'k' !in s
    ensures Find(s, DEATH).None?
  {
    forall i: nat
      ensures !At(s, DEATH, i)
    {
      if i + 11 <= |s| {
        assert s[i..i + 11][9] == s[i + 9];
        assert s[i + 9] in s;
      }
    }
  }

  /** A file of one line. */
  lemma OneLineFile(line: string)
    requires line != "" && '\n' !in line && StripCr(line) == line
    ensures Lines(line + "\n") == [line] && LfText(line + "\n")
  {
    LinesCons(line, "");
    assert line + "\n" + "" == line + "\n";
    assert Unlines([line]) == line + "\n";
    UnlinesLines(line + "\n");
  }

  lemma SameHead(a: string, b: string)
    requires "HOOKS=" <= a
    ensures IsHooks(a + b)
  {
    assert (a + b)[0] == 'H' && (a + b)[..6] == a[..6];
    assert TrimStart(a + b) == a + b;
  }

  /** `encrypt` behind something that is no white space, parenthesis, or quote, as in `sd-encrypt`: insertion succeeds,
      and removal fails. */
  lemma PrefixedEncrypt(a: string, b: string)
    requires "HOOKS=" <= a && !OkBefore(a[|a| - 1]) && 'y' !in a && 'k' !in a && 'k' !in b && '\n' !in a && '\n' !in b
    requires b != "" && b[|b| - 1] != '\r'
    ensures var text := a + ENCRYPT + b + "\n";
            Ensured(text).Ok? && Without(Ensured(text).value) == Err(UnsafeToken)
  {
    var line := a + ENCRYPT + b;
    PrefixedLine(a, b, line);
    assert line[|line| - 1] == b[|b| - 1];
    OneLineFile(line);
    PrefixedFile(line + "\n", line);
  }

  lemma PrefixedLine(a: string, b: string, line: string)
    requires "HOOKS=" <= a && !OkBefore(a[|a| - 1]) && 'y' !in a && 'k' !in a && 'k' !in b && line == a + ENCRYPT + b
    ensures IsHooks(line) && Find(line, DEATH).None? && Find(line, ENCRYPT).Some? && !EncryptStartsToken(line)
  {
    assert line == a + (ENCRYPT + b);
    SameHead(a, ENCRYPT + b);
    FirstEncrypt(a, b);
    NoHook(line);
    assert line[|a| - 1] == a[|a| - 1];
  }

  lemma PrefixedFile(text: string, line: string)
    requires Lines(text) == [line] && LfText(text) && IsHooks(line) && Find(line, DEATH).None? && Find(line, ENCRYPT).Some?
    requires !EncryptStartsToken(line)
    ensures Ensured(text).Ok? && Without(Ensured(text).value) == Err(UnsafeToken)
  {
    assert line in Lines(text) && SawHooks([line]) by { assert IsHooks([line][0]); }
    FileRoundTrip(text);
  }

  /** The systemd hook. */
  lemma SdEncryptStays()
    ensures var text := "HOOKS=(base sd-" + ENCRYPT + ")" + "\n";
            Ensured(text).Ok? && Without(Ensured(text).value) == Err(UnsafeToken)
  {
    assert "HOOKS=(base sd-"[..6] == "HOOKS=";
    PrefixedEncrypt("HOOKS=(base sd-", ")");
  }

  /** A hook named behind `encrypt`: insertion fails, and the file lists the hook. */
  lemma HookTooLate(a: string, b: string)
    requires "HOOKS=" <= a && 'y' !in a && 'k' !in a && '\n' !in a && '\n' !in b && b != "" && b[|b| - 1] != '\r'
    ensures var text := a + ENCRYPT + (" " + DEATH + b) + "\n"; Ensured(text).Err? && HookListed(text)
  {
    var rest := " " + DEATH + b;
    SameHead(a, ENCRYPT + rest);
    assert a + ENCRYPT + rest == a + (ENCRYPT + rest);
    FirstEncrypt(a, rest);
    LateHook(a + ENCRYPT + " ", b, a + ENCRYPT + rest);
    NotEarlier(a, rest);
    LateLine(a + ENCRYPT, " " + DEATH, b);
    LateFile(a + ENCRYPT + rest + "\n", a + ENCRYPT + rest);
  }

  lemma LateLine(a: string, m: string, b: string)
    requires a != "" && '\n' !in a && '\n' !in m && '\n' !in b && b != "" && b[|b| - 1] != '\r'
    ensures Lines(a + (m + b) + "\n") == [a + (m + b)]
  {
    var line := a + (m + b);
    assert line[|line| - 1] == b[|b| - 1];
    OneLineFile(line);
  }

  lemma LateHook(a: string, b: string, line: string)
    requires line == a + DEATH + b
    ensures Find(line, DEATH).Some?
  {
    ContainsMid(a, DEATH, b);
  }

  /** No hook begins before the end of a text without its `k`. */
  lemma NotEarlier(a: string, rest: string)
    requires 'k' !in a && |rest| >= 1
    ensures var line := a + ENCRYPT + rest; Find(line, DEATH).Some? ==> Find(line, DEATH).value > |a|
  {
    var line := a + ENCRYPT + rest;
    if Find(line, DEATH).Some? {
      var d := Find(line, DEATH).value;
      assert line[d..d + 11][9] == line[d + 9] == 'k';
      assert forall i :: 0 <= i < |a| ==> line[i] == a[i] && a[i] in a;
      assert forall i :: |a| <= i < |a| + 7 ==> line[i] == ENCRYPT[i - |a|];
      assert line[d..d + 11][0] == line[d] == 'd' && line[d..d + 11][2] == line[d + 2] == 'a';
      assert line[|a|] == 'e' && line[|a| + 1] == 'n';
    }
  }

  lemma LateFile(text: string, line: string)
    requires Lines(text) == [line] && IsHooks(line)
    requires Find(line, DEATH).Some? && Find(line, ENCRYPT).Some? && Find(line, DEATH).value > Find(line, ENCRYPT).value
    ensures Ensured(text).Err? && HookListed(text)
  {
    assert EnsureLine(Lines(text)[0]).Err?;
    assert IsHooks(Lines(text)[0]) && Contains(Lines(text)[0], DEATH);
  }
}
