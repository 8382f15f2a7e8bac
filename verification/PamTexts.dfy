/** Whole configurations of usual lines: that the rewriter accepts them, and what stack they are. */
module PamTexts {
  import opened Text
  import opened Sequences
  import opened PamSyntax
  import opened PamRun
  import opened PamArm
  import opened PamTheorem
  import opened PamLines

  // ---- a line, as dsctl reads it ----

  predicate Solid(ws: seq<string>) { forall i :: 0 <= i < |ws| ==> ws[i] != "" && NoSpace(ws[i]) }

  lemma GapPieces(g: string)
    requires Gap(g)
    ensures Words(g) == []
  {
    assert SkipWhile(g, 0, IsSpace) == |g|;
  }

  lemma OneWord(w: string)
    requires w != "" && NoSpace(w)
    ensures Words(w) == [w]
  {
    InkHead(w, "", IsSpace);
    assert w + "" == w;
  }

  /** Two texts with a gap between them. */
  lemma GapBetween(a: string, g: string, b: string)
    requires Gap(g)
    ensures Words(a + g + b) == Words(a) + Words(b)
  {
    GapPieces(g);
    assert IsSpace(g[0]) && IsSpace(g[|g| - 1]);
    assert (a + g)[|a + g| - 1] == g[|g| - 1];
    PiecesAppend(a, g, IsSpace);
    PiecesAppend(a + g, b, IsSpace);
    assert Words(a) + [] == Words(a);
  }

  lemma {:induction false} SpreadWords(ws: seq<string>, gs: seq<string>)
    requires |ws| == |gs| + 1 && Solid(ws) && AllGaps(gs)
    ensures Words(Spread(ws, gs)) == ws
    decreases |ws|
  {
    var n := |gs|;
    OneWord(ws[n]);
    if n > 0 {
      SpreadWords(ws[..n], gs[..n - 1]);
      GapBetween(Spread(ws[..n], gs[..n - 1]), gs[n - 1], ws[n]);
      assert ws[..n] + [ws[n]] == ws;
    }
  }

  lemma InkedIsSolid(w: string)
    requires Inked(w)
    ensures w != "" && NoSpace(w) && NoSpace("[" + w) && NoSpace(w + "]") && NoSpace("[" + w + "]")
  {
  }

  lemma ControlSolid(l: RuleLine)
    requires Sound(l)
    ensures Solid(ControlWords(l.control)) && Solid(l.words) && AllGaps(Blanks(|ControlWords(l.control)| - 1))
  {
    forall i | 0 <= i < |l.words| ensures l.words[i] != "" && NoSpace(l.words[i]) { InkedIsSolid(l.words[i]); }
    if l.control.Keyword? {
      InkedIsSolid(l.control.name);
    } else {
      var es := l.control.entries;
      forall i | 0 <= i < |es|
        ensures NoSpace("[" + es[i]) && NoSpace(es[i] + "]") && NoSpace("[" + es[i] + "]")
      {
        InkedIsSolid(es[i]);
      }
    }
  }

  function AllWords(l: RuleLine): seq<string>
    requires Sound(l)
  {
    [l.kind] + ControlWords(l.control) + l.words
  }

  lemma LineWords(l: RuleLine)
    requires Sound(l)
    ensures Words(LineText(l)) == AllWords(l)
  {
    ControlSolid(l);
    InkedIsSolid(l.kind);
    OneWord(l.kind);
    SpreadWords(ControlWords(l.control), Blanks(|ControlWords(l.control)| - 1));
    SpreadWords(l.words, l.gaps);
    GapBetween(l.kind, l.gap, ControlText(l.control));
    GapBetween(l.kind + l.gap + ControlText(l.control), l.space, Spread(l.words, l.gaps));
  }

  lemma AuthLine(l: RuleLine)
    requires Sound(l) && l.kind in {"auth", "-auth"}
    ensures IsAuth(LineText(l))
  {
    var k := if l.kind == "auth" then 0 else 1;
    var rest := ControlText(l.control) + l.space + Spread(l.words, l.gaps);
    var line := LineText(l);
    assert line == l.kind + (l.gap + rest);
    AuthHead(l.kind, l.gap + rest);
  }

  lemma AuthHead(kind: string, rest: string)
    requires kind in {"auth", "-auth"} && rest != "" && IsSpace(rest[0])
    ensures IsAuth(kind + rest)
  {
    var line, k := kind + rest, if kind == "auth" then 0 else 1;
    assert forall i :: 0 <= i < |kind| ==> line[i] == kind[i];
    assert line[|kind|] == rest[0];
    assert line[k] == 'a';
    assert k == 1 ==> line[0] == '-';
    assert SkipWhile(line, 0, IsSpace) == 0;
    assert SkipWhile(line, 0, IsDash) == k;
    assert SkipWhile(line, k, IsSpace) == k;
    assert line[k..k + 4] == "auth";
  }

  lemma {:induction false} SpreadFirst(ws: seq<string>, gs: seq<string>)
    requires |ws| == |gs| + 1
    ensures ws[0] <= Spread(ws, gs)
    decreases |ws|
  {
    if |gs| > 0 { SpreadFirst(ws[..|gs|], gs[..|gs| - 1]); }
  }

  lemma NamesModule(l: RuleLine)
    requires Sound(l)
    ensures Contains(LineText(l), l.words[0])
  {
    SpreadFirst(l.words, l.gaps);
    var tail := Spread(l.words, l.gaps);
    var a, n := l.kind + l.gap + ControlText(l.control) + l.space, |l.words[0]|;
    assert tail == l.words[0] + tail[n..];
    assert LineText(l) == a + l.words[0] + tail[n..];
    ContainsMid(a, l.words[0], tail[n..]);
  }

  // ---- characters that do not occur ----

  predicate NoneHas(ws: seq<string>, c: char) { forall i :: 0 <= i < |ws| ==> c !in ws[i] }

  predicate Lacks(l: RuleLine, c: char) {
    && !IsSpace(c) && c != '[' && c != ']' && c !in l.kind && NoneHas(l.words, c)
    && if l.control.Keyword? then c !in l.control.name else NoneHas(l.control.entries, c)
  }

  lemma {:induction false} SpreadLacks(ws: seq<string>, gs: seq<string>, c: char)
    requires |ws| == |gs| + 1 && NoneHas(ws, c) && AllGaps(gs) && !IsSpace(c)
    ensures c !in Spread(ws, gs)
    decreases |ws|
  {
    if |gs| > 0 { SpreadLacks(ws[..|gs|], gs[..|gs| - 1], c); }
  }

  lemma ControlLacks(l: RuleLine, c: char)
    requires Sound(l) && Lacks(l, c)
    ensures c !in ControlText(l.control)
  {
    ControlSolid(l);
    assert NoneHas(ControlWords(l.control), c);
    SpreadLacks(ControlWords(l.control), Blanks(|ControlWords(l.control)| - 1), c);
  }

  lemma LineLacks(l: RuleLine, c: char)
    requires Sound(l) && Lacks(l, c)
    ensures c !in LineText(l)
  {
    ControlLacks(l, c);
    SpreadLacks(l.words, l.gaps, c);
  }

  lemma LacksPattern(s: string, pat: string, k: nat)
    requires k < |pat| && pat[k] !in s
    ensures !Contains(s, pat)
  {
    forall i: nat
      ensures !At(s, pat, i)
    {
      if i + |pat| <= |s| {
        assert s[i..i + |pat|][k] == s[i + k];
        assert s[i + k] in s;
      }
    }
  }

  // ---- clean lines ----

  predicate DefaultEntry(e: string) { "default=" <= e && '=' !in e[8..] }

  predicate JumpEntry(e: string, n: nat) {
    SUCCESS <= e && e != SUCCESS && AllDigits(e[8..]) && DecimalValue(e[8..]) + n < U64
  }

  /** An auth rule with a keyword, a default action, or a jump on success and one more entry. */
  predicate Usual(l: RuleLine, n: nat) {
    && Sound(l) && l.kind in {"auth", "-auth"} && NoneHas(l.words, '=')
    && match l.control
       case Keyword(name) => '=' !in name
       case Bracket(es) =>
         if |es| == 1 then DefaultEntry(es[0]) else JumpEntry(es[0], n) && !EntryFor(es[1], "success")
  }

  lemma KindLacksEquals(l: RuleLine, n: nat)
    requires Usual(l, n)
    ensures '=' !in l.kind + l.gap && '=' !in l.space + Spread(l.words, l.gaps)
  {
    SpreadLacks(l.words, l.gaps, '=');
  }

  lemma KeywordClean(l: RuleLine, n: nat)
    requires Usual(l, n) && l.control.Keyword?
    ensures CleanLine(LineText(l), n)
  {
    LineMeaning(l);
    LineLacks(l, '=');
    LacksPattern(LineText(l), SUCCESS, 7);
  }

  /** The only equals sign is not behind `success`. */
  lemma NoSuccess(a: string, b: string)
    requires '=' !in a && '=' !in b && |a| >= 1 && a[|a| - 1] != 's'
    ensures !Contains(a + "=" + b, SUCCESS)
  {
    var s := a + "=" + b;
    forall i: nat
      ensures !At(s, SUCCESS, i)
    {
      if i + 8 <= |s| {
        assert s[i..i + 8][7] == s[i + 7] && s[i..i + 8][6] == s[i + 6];
        if i + 7 < |a| {
          assert s[i + 7] == a[i + 7] && a[i + 7] in a;
        } else if i + 7 > |a| {
          assert s[i + 7] == b[i + 6 - |a|] && b[i + 6 - |a|] in b;
        } else {
          assert s[i + 6] == a[|a| - 1];
        }
      }
    }
  }

  lemma DefaultForm(e: string)
    requires DefaultEntry(e)
    ensures e == "default" + "=" + e[8..]
  {
    assert e[..8] == "default=";
  }

  lemma DefaultClean(l: RuleLine, n: nat)
    requires Usual(l, n) && l.control.Bracket? && |l.control.entries| == 1
    ensures CleanLine(LineText(l), n)
  {
    LineMeaning(l);
    DefaultParts(l, n);
    DefaultAction(l.control.entries[0]);
  }

  lemma DefaultParts(l: RuleLine, n: nat)
    requires Usual(l, n) && l.control.Bracket? && |l.control.entries| == 1
    ensures !Contains(LineText(l), SUCCESS)
  {
    var e := l.control.entries[0];
    KindLacksEquals(l, n);
    DefaultForm(e);
    BlockForm(l.control.entries);
    DefaultLine(l.kind + l.gap, e[8..], l.space, Spread(l.words, l.gaps), LineText(l));
  }

  lemma DefaultLine(k: string, v: string, g: string, t: string, line: string)
    requires line == k + ("[" + ("default" + "=" + v) + "]") + g + t && '=' !in k && '=' !in v && '=' !in g + t
    ensures !Contains(line, SUCCESS)
  {
    DefaultText(k, v, g, t);
    var a, b := k + "[" + "default", v + "]" + (g + t);
    assert a[|a| - 1] == 't';
    NoSuccess(a, b);
  }

  lemma DefaultText(k: string, v: string, g: string, t: string)
    ensures k + ("[" + ("default" + "=" + v) + "]") + g + t == (k + "[" + "default") + "=" + (v + "]" + (g + t))
  {
  }

  lemma DefaultAction(e: string)
    requires DefaultEntry(e)
    ensures !NamesSuccess(Bracket([e]))
  {
    assert "default" + "=" == "default=" && e[0] == 'd' && ("success" + "=")[0] == 's';
    assert [e][..0] == [];
    assert !EntryFor(e, "success");
    assert LastEntry([e], "success") == None;
  }

  /** The first equals sign is the one behind `success`. */
  lemma FirstSuccess(a: string, b: string)
    requires '=' !in a
    ensures Find(a + SUCCESS + b, SUCCESS) == Some(|a|)
  {
    var s := a + SUCCESS + b;
    assert s[|a|..|a| + 8] == SUCCESS;
    forall k: nat | k < |a|
      ensures !At(s, SUCCESS, k)
    {
      assert s[k..k + 8][7] == s[k + 7];
      if k + 7 < |a| {
        assert s[k + 7] == a[k + 7] && a[k + 7] in a;
      } else {
        assert s[k + 7] == SUCCESS[k + 7 - |a|] && k + 7 - |a| < 7;
      }
    }
    assert At(s, SUCCESS, |a|);
    FindIs(s, SUCCESS, |a|);
  }

  lemma JumpForm(l: RuleLine, n: nat)
    requires Usual(l, n) && l.control.Bracket? && |l.control.entries| == 2
    ensures var es := l.control.entries;
            LineText(l) == (l.kind + l.gap + "[") + SUCCESS
                           + (es[0][8..] + (" " + es[1] + "]" + l.space + Spread(l.words, l.gaps)))
  {
    var es := l.control.entries;
    BlockForm(es);
    assert es[0] == SUCCESS + es[0][8..] by { assert es[0][..8] == SUCCESS; }
    JumpText(l.kind + l.gap, es[0][8..], es[1], l.space, Spread(l.words, l.gaps));
  }

  lemma JumpText(k: string, d: string, e: string, g: string, t: string)
    ensures k + ("[" + (SUCCESS + d) + " " + e + "]") + g + t == (k + "[") + SUCCESS + (d + (" " + e + "]" + g + t))
  {
  }

  lemma JumpReads(a: string, d: string, b: string)
    requires '=' !in a && d != "" && AllDigits(d) && DecimalValue(d) < U64 && b != "" && b[0] == ' '
    ensures var line := a + SUCCESS + (d + b);
            && Find(line, SUCCESS) == Some(|a|) && line[..|a|] == a
            && SuccessStart(line) == Some(|a| + 8)
            && SkipWhile(line, |a| + 8, IsDigit) == |a| + 8 + |d| < |line| && line[|a| + 8 + |d|] == ' '
            && SuccessJump(line) == Some(DecimalValue(d))
  {
    var line := a + SUCCESS + (d + b);
    FirstSuccess(a, d + b);
    DigitsEnd(a + SUCCESS, d, b);
    assert line == (a + SUCCESS) + d + b;
    assert line[|a| + 8..|a| + 8 + |d|] == d;
    assert IsDigit(d[0]);
  }

  lemma JumpClean(l: RuleLine, n: nat)
    requires Usual(l, n) && l.control.Bracket? && |l.control.entries| == 2
    ensures CleanLine(LineText(l), n)
  {
    LineMeaning(l);
    JumpParts(l, n);
  }

  lemma JumpParts(l: RuleLine, n: nat)
    requires Usual(l, n) && l.control.Bracket? && |l.control.entries| == 2
    ensures var line := LineText(l);
            && SuccessInControl(line) && JumpEndsEntry(line)
            && SuccessJump(line) == Some(DecimalValue(l.control.entries[0][8..]))
  {
    var es := l.control.entries;
    KindLacksEquals(l, n);
    JumpForm(l, n);
    FirstCell(l.kind, l.gap);
    LexOpen(l.kind + l.gap, [Word(l.kind)]);
    JumpInLine(l.kind + l.gap + "[", es[0][8..], " " + es[1] + "]" + l.space + Spread(l.words, l.gaps), [Word(l.kind)] + [Open]);
  }

  lemma JumpInLine(a: string, d: string, b: string, toks: seq<Token>)
    requires '=' !in a && d != "" && AllDigits(d) && DecimalValue(d) < U64 && b != "" && b[0] == ' '
    requires ReadTo(a, Bracketed, toks) && |toks| == 2 && toks[0].Word? && toks[1] == Open
    ensures var line := a + SUCCESS + (d + b);
            SuccessInControl(line) && JumpEndsEntry(line) && SuccessJump(line) == Some(DecimalValue(d))
  {
    var line := a + SUCCESS + (d + b);
    JumpReads(a, d, b);
    BlockOpen(line, |a|, toks);
    JumpEnds(line, |a| + 8, |a| + 8 + |d|);
  }

  lemma JumpEnds(line: string, start: nat, end: nat)
    requires SuccessStart(line) == Some(start) && SkipWhile(line, start, IsDigit) == end < |line| && line[end] == ' '
    ensures JumpEndsEntry(line)
  {
  }

  lemma BlockOpen(line: string, p: nat, toks: seq<Token>)
    requires Find(line, SUCCESS) == Some(p) && ReadTo(line[..p], Bracketed, toks)
    requires |toks| == 2 && toks[0].Word? && toks[1] == Open
    ensures SuccessInControl(line)
  {
    assert toks == [toks[0], Open];
  }

  lemma UsualClean(l: RuleLine, n: nat)
    requires Usual(l, n)
    ensures CleanLine(LineText(l), n) && IsAuth(LineText(l))
  {
    AuthLine(l);
    if l.control.Keyword? {
      KeywordClean(l, n);
    } else if |l.control.entries| == 1 {
      DefaultClean(l, n);
    } else {
      JumpClean(l, n);
    }
  }

  // ---- whole configurations ----

  function LineTexts(ls: seq<RuleLine>): (ts: seq<string>)
    requires forall i :: 0 <= i < |ls| ==> Shaped(ls[i])
    ensures |ts| == |ls| && forall i :: 0 <= i < |ls| ==> ts[i] == LineText(ls[i])
  {
    seq(|ls|, i requires 0 <= i < |ls| => LineText(ls[i]))
  }

  function ControlsOf(ls: seq<RuleLine>): (cs: seq<Control>)
    ensures |cs| == |ls| && forall i :: 0 <= i < |ls| ==> cs[i] == ls[i].control
  {
    seq(|ls|, i requires 0 <= i < |ls| => ls[i].control)
  }

  /** A usual auth line whose gaps stay on the line. */
  predicate UsualLine(l: RuleLine, n: nat) {
    Usual(l, n) && '\n' !in l.gap && '\n' !in l.space && NoneHas(l.gaps, '\n')
  }

  predicate UsualLines(ls: seq<RuleLine>) { forall i :: 0 <= i < |ls| ==> UsualLine(ls[i], |ls|) }

  predicate NoRules(ls: seq<string>) { forall i :: 0 <= i < |ls| ==> OneLine(ls[i]) && !IsAuth(ls[i]) }

  function ConfigLines(head: seq<string>, ls: seq<RuleLine>, tail: seq<string>): seq<string>
    requires forall i :: 0 <= i < |ls| ==> Shaped(ls[i])
  {
    head + LineTexts(ls) + tail
  }

  lemma {:induction false} SpreadOneLine(ws: seq<string>, gs: seq<string>)
    requires |ws| == |gs| + 1 && NoneHas(ws, '\n') && NoneHas(gs, '\n') && ws[|gs|] != ""
    ensures '\n' !in Spread(ws, gs) && Spread(ws, gs) != ""
    ensures Spread(ws, gs)[|Spread(ws, gs)| - 1] == ws[|gs|][|ws[|gs|]| - 1]
    decreases |ws|
  {
    var n := |gs|;
    if n > 0 {
      var init, w := Spread(ws[..n], gs[..n - 1]) + gs[n - 1], ws[n];
      NewlineFree(ws[..n], gs[..n - 1]);
      assert Spread(ws, gs) == init + w;
      assert (init + w)[|init + w| - 1] == w[|w| - 1];
    }
  }

  lemma {:induction false} NewlineFree(ws: seq<string>, gs: seq<string>)
    requires |ws| == |gs| + 1 && NoneHas(ws, '\n') && NoneHas(gs, '\n')
    ensures '\n' !in Spread(ws, gs)
    decreases |ws|
  {
    var n := |gs|;
    if n > 0 { NewlineFree(ws[..n], gs[..n - 1]); }
  }

  lemma InkedNoNewline(w: string)
    requires Inked(w)
    ensures '\n' !in w && !IsSpace(w[|w| - 1])
  {
    assert Ink(w[|w| - 1]);
    forall c | c in w ensures c != '\n' {
      var i :| 0 <= i < |w| && w[i] == c;
      assert Ink(w[i]);
    }
  }

  lemma WordsNoNewline(ws: seq<string>)
    requires AllInked(ws)
    ensures NoneHas(ws, '\n')
  {
    forall i | 0 <= i < |ws| ensures '\n' !in ws[i] { InkedNoNewline(ws[i]); }
  }

  lemma ControlOneLine(c: Control)
    requires if c.Keyword? then Inked(c.name) else 1 <= |c.entries| <= 2 && AllInked(c.entries)
    ensures '\n' !in ControlText(c)
  {
    if c.Keyword? {
      InkedNoNewline(c.name);
    } else {
      WordsNoNewline(c.entries);
      BlockForm(c.entries);
    }
  }

  lemma LineOneLine(l: RuleLine)
    requires Sound(l) && '\n' !in l.gap && '\n' !in l.space && NoneHas(l.gaps, '\n')
    ensures OneLine(LineText(l))
  {
    InkedNoNewline(l.kind);
    ControlOneLine(l.control);
    WordsNoNewline(l.words);
    var last, tail := l.words[|l.gaps|], Spread(l.words, l.gaps);
    InkedNoNewline(last);
    SpreadOneLine(l.words, l.gaps);
    var a := l.kind + l.gap + ControlText(l.control) + l.space;
    assert LineText(l) == a + tail;
    assert (a + tail)[|a + tail| - 1] == tail[|tail| - 1];
  }

  lemma {:induction false} SelectAll(ls: seq<string>, p: string -> bool)
    requires forall i :: 0 <= i < |ls| ==> p(ls[i])
    ensures Select(ls, p) == ls
    decreases |ls|
  {
    if ls != [] {
      SelectAll(ls[..|ls| - 1], p);
      assert ls == ls[..|ls| - 1] + [ls[|ls| - 1]];
    }
  }

  lemma {:induction false} SelectNone(ls: seq<string>, p: string -> bool)
    requires forall i :: 0 <= i < |ls| ==> !p(ls[i])
    ensures Select(ls, p) == []
    decreases |ls|
  {
    if ls != [] { SelectNone(ls[..|ls| - 1], p); }
  }

  lemma ConfigSelects(head: seq<string>, ls: seq<RuleLine>, tail: seq<string>)
    requires UsualLines(ls) && NoRules(head) && NoRules(tail)
    ensures Select(ConfigLines(head, ls, tail), IsAuth) == LineTexts(ls)
    ensures forall l :: l in ConfigLines(head, ls, tail) ==> OneLine(l)
  {
    TextsAreAuth(ls);
    SelectMiddle(head, LineTexts(ls), tail, IsAuth);
  }

  lemma TextsAreAuth(ls: seq<RuleLine>)
    requires UsualLines(ls)
    ensures forall i :: 0 <= i < |ls| ==> IsAuth(LineTexts(ls)[i]) && OneLine(LineTexts(ls)[i])
  {
    forall i | 0 <= i < |ls| ensures IsAuth(LineTexts(ls)[i]) && OneLine(LineTexts(ls)[i]) {
      AuthLine(ls[i]);
      LineOneLine(ls[i]);
    }
  }

  lemma SelectMiddle(a: seq<string>, b: seq<string>, c: seq<string>, p: string -> bool)
    requires (forall i :: 0 <= i < |a| ==> !p(a[i])) && (forall i :: 0 <= i < |b| ==> p(b[i]))
    requires forall i :: 0 <= i < |c| ==> !p(c[i])
    ensures Select(a + b + c, p) == b
  {
    SelectAll(b, p);
    SelectNone(a, p);
    SelectNone(c, p);
    SelectAppend(a, b, p);
    SelectAppend(a + b, c, p);
  }

  /** A configuration of usual lines is clean, and its stack is the controls of its lines. */
  lemma ConfigStack(head: seq<string>, ls: seq<RuleLine>, tail: seq<string>)
    requires UsualLines(ls) && NoRules(head) && NoRules(tail) && ls != []
    ensures var lines := ConfigLines(head, ls, tail);
            && Lines(Unlines(lines)) == lines && CleanText(Unlines(lines))
            && Parsed(Stack(Unlines(lines))) && Controls(Stack(Unlines(lines))) == ControlsOf(ls)
  {
    var lines := ConfigLines(head, ls, tail);
    ConfigSelects(head, ls, tail);
    LinesUnlines(lines);
    StackOfUnlines(lines);
    forall i | 0 <= i < |ls|
      ensures CleanLine(LineText(ls[i]), |ls|) && Meaning(LineText(ls[i])).Some?
      ensures Meaning(LineText(ls[i])).value.control == ls[i].control
    {
      UsualClean(ls[i], |ls|);
      LineMeaning(ls[i]);
    }
    StackIs(lines, LineTexts(ls), Rules(lines), ControlsOf(ls));
  }

  lemma StackIs(lines: seq<string>, auth: seq<string>, stack: seq<Option<Rule>>, cs: seq<Control>)
    requires Select(lines, IsAuth) == auth && stack == Rules(lines) && |cs| == |auth|
    requires forall i :: 0 <= i < |auth| ==> Meaning(auth[i]).Some? && Meaning(auth[i]).value.control == cs[i]
    ensures Parsed(stack) && Controls(stack) == cs
  {
  }

  function Module(l: RuleLine): string
    requires Sound(l)
  {
    l.words[0]
  }

  /** Which line is the first of its kind. */
  predicate Planned(ls: seq<RuleLine>, u: nat, f: nat, s: nat)
    requires forall i :: 0 <= i < |ls| ==> Sound(ls[i])
  {
    && u < f < |ls| && s < |ls|
    && Module(ls[u]) == "pam_unix.so" && (forall k :: 0 <= k < u ==> Lacks(ls[k], 'x'))
    && Module(ls[f]) == "pam_faillock.so" && "authfail" in ls[f].words
    && (forall k :: 0 <= k < f ==> "authfail" !in AllWords(ls[k]))
    && Module(ls[s]) == "pam_faillock.so" && "authsucc" in ls[s].words
    && (forall k :: 0 <= k < s ==> "authsucc" !in AllWords(ls[k]))
  }

  lemma PlanIs(lines: seq<string>, auth: seq<string>, u: nat, f: nat, s: nat)
    requires auth == Select(lines, IsAuth) && u < f < |auth| && s < |auth|
    requires IsUnix(auth[u]) && IsAuthfail(auth[f]) && IsAuthsucc(auth[s])
    requires forall k :: 0 <= k < u ==> !IsUnix(auth[k])
    requires forall k :: 0 <= k < f ==> !IsAuthfail(auth[k])
    requires forall k :: 0 <= k < s ==> !IsAuthsucc(auth[k])
    ensures PlanOf(lines) == Ok(Plan(f, s))
  {
    SelectPositions(lines, IsAuth);
    var ps := AuthPositions(lines);
    FirstIs(lines, ps, auth, IsUnix, u);
    FirstIs(lines, ps, auth, IsAuthfail, f);
    FirstIs(lines, ps, auth, IsAuthsucc, s);
  }

  lemma FirstIs(lines: seq<string>, ps: seq<nat>, auth: seq<string>, p: string -> bool, k: nat)
    requires |ps| == |auth| && k < |auth| && forall i :: 0 <= i < |ps| ==> ps[i] < |lines| && lines[ps[i]] == auth[i]
    requires p(auth[k]) && forall i :: 0 <= i < k ==> !p(auth[i])
    ensures FirstWhere(lines, ps, p, 0) == Some(k)
  {
    var r := FirstWhere(lines, ps, p, 0);
    assert p(lines[ps[k]]);
    assert forall i :: 0 <= i < k ==> !p(lines[ps[i]]);
  }

  lemma LineFacts(l: RuleLine)
    requires Sound(l)
    ensures l.words[0] == "pam_unix.so" ==> IsUnix(LineText(l))
    ensures Lacks(l, 'x') ==> !IsUnix(LineText(l))
    ensures l.words[0] == "pam_faillock.so" && "authfail" in l.words ==> IsAuthfail(LineText(l))
    ensures "authfail" !in AllWords(l) ==> !IsAuthfail(LineText(l))
    ensures l.words[0] == "pam_faillock.so" && "authsucc" in l.words ==> IsAuthsucc(LineText(l))
    ensures "authsucc" !in AllWords(l) ==> !IsAuthsucc(LineText(l))
  {
    NamesModule(l);
    LineWords(l);
    if Lacks(l, 'x') {
      LineLacks(l, 'x');
      LacksPattern(LineText(l), "pam_unix.so", 7);
    }
  }

  /** The rewriter accepts such a configuration, at the planned rules. */
  lemma ConfigArms(head: seq<string>, ls: seq<RuleLine>, tail: seq<string>, u: nat, f: nat, s: nat)
    requires UsualLines(ls) && NoRules(head) && NoRules(tail) && Planned(ls, u, f, s)
    requires !Contains(Unlines(ConfigLines(head, ls, tail)), ARM_MARKER)
    ensures var lines := ConfigLines(head, ls, tail);
            Lines(Unlines(lines)) == lines && PlanOf(lines) == Ok(Plan(f, s)) && Armed(Unlines(lines)).Ok?
  {
    ConfigStack(head, ls, tail);
    ConfigSelects(head, ls, tail);
    forall k | 0 <= k < |ls| ensures LineTexts(ls)[k] == LineText(ls[k]) {}
    LineFacts(ls[u]);
    LineFacts(ls[f]);
    LineFacts(ls[s]);
    forall k | 0 <= k < u ensures !IsUnix(LineTexts(ls)[k]) { LineFacts(ls[k]); }
    forall k | 0 <= k < f ensures !IsAuthfail(LineTexts(ls)[k]) { LineFacts(ls[k]); }
    forall k | 0 <= k < s ensures !IsAuthsucc(LineTexts(ls)[k]) { LineFacts(ls[k]); }
    PlanIs(ConfigLines(head, ls, tail), LineTexts(ls), u, f, s);
  }

  /** The rewriter accepts the text, with authfail at `f` and authsucc at `s`; it is clean, and its stack is `cs`. */
  ghost predicate Accepts(text: string, cs: seq<Control>, f: nat, s: nat) {
    && Armed(text).Ok? && PlanOf(Lines(text)) == Ok(Plan(f, s)) && CleanText(text)
    && Parsed(Stack(text)) && Controls(Stack(text)) == cs
  }

  lemma ConfigAccepted(text: string, head: seq<string>, ls: seq<RuleLine>, tail: seq<string>, cs: seq<Control>,
                       u: nat, f: nat, s: nat)
    requires UsualLines(ls) && NoRules(head) && NoRules(tail) && Planned(ls, u, f, s)
    requires text == Unlines(ConfigLines(head, ls, tail)) && !Contains(text, ARM_MARKER) && cs == ControlsOf(ls)
    ensures Accepts(text, cs, f, s)
  {
    ConfigArms(head, ls, tail, u, f, s);
    ConfigStack(head, ls, tail);
  }

  /** The armed text has the armed form of the stack, and the login runs in it as it runs in the stock one. */
  ghost predicate LoginKept(text: string, cs: seq<Control>, f: nat, s: nat, r: nat -> Code, r': nat -> Code, credits: bool) {
    && Armed(text).Ok? && Parsed(Stack(Armed(text).value))
    && var cs' := Controls(Stack(Armed(text).value));
    && ArmedStack(cs, cs', f, s)
    && var o, a := Run(cs, r, 0, FRESH, credits), Run(cs', r', 0, FRESH, credits);
    a.trace != [] && Simulates(o, a.(trace := a.trace[1..]), |cs|, f, s)
  }

  /** The armed text is a stack, and it grants the login, or not. */
  ghost predicate ArmedAnswers(text: string, r': nat -> Code, credits: bool, granted: bool) {
    && Armed(text).Ok? && Parsed(Stack(Armed(text).value))
    && (Granted(Run(Controls(Stack(Armed(text).value)), r', 0, FRESH, credits)) <==> granted)
  }

  /** What the login theorem says of an accepted text. */
  lemma AcceptedLogin(text: string, cs: seq<Control>, f: nat, s: nat, r: nat -> Code, r': nat -> Code, credits: bool)
    requires Accepts(text, cs, f, s) && SameModules(|cs|, r, r', f, s) && r'(0) == "ignore"
    ensures LoginKept(text, cs, f, s, r, r', credits) <==> !Strays(cs, r, 0, f, s, FRESH, credits)
  {
    ArmedTextStack(text);
    ArmingPreservesLogin(text, r, r', credits);
  }

  // ---- no marker ----

  lemma {:induction false} UnlinesLacks(ls: seq<string>, c: char)
    requires ls != [] && NoneHas(ls, c) && c != '\n'
    ensures c !in Unlines(ls)
    decreases |ls|
  {
    if |ls| > 1 { UnlinesLacks(ls[1..], c); }
  }

  lemma TextLacks(text: string, none: seq<string>, ls: seq<RuleLine>)
    requires none == [] && ls != [] && UsualLines(ls) && forall i :: 0 <= i < |ls| ==> Lacks(ls[i], '0')
    requires text == Unlines(ConfigLines(none, ls, none))
    ensures !Contains(text, ARM_MARKER)
  {
    var ts := LineTexts(ls);
    forall i | 0 <= i < |ls| ensures '0' !in ts[i] { LineLacks(ls[i], '0'); }
    assert none + ts + none == ts;
    UnlinesLacks(ts, '0');
    NoMarker(text);
  }

  lemma NoMarker(text: string)
    requires '0' !in text
    ensures !Contains(text, ARM_MARKER)
  {
    LacksPattern(text, ARM_MARKER, 8);
  }

  lemma NotAWord(l: RuleLine, w: string)
    requires Sound(l) && w != l.kind && w !in l.words && '[' !in w && ']' !in w
    requires l.control.Keyword? ==> w != l.control.name
    ensures w !in AllWords(l)
  {
    if l.control.Bracket? {
      var es := l.control.entries;
      if |es| == 1 {
        HasBrackets("[", es[0] + "]", w);
        assert "[" + (es[0] + "]") == "[" + es[0] + "]";
      } else {
        assert es[1..1] == [];
        HasBrackets("[", es[0], w);
        HasBrackets(es[1], "]", w);
        assert Wrapped(es) == ["[" + es[0], es[1] + "]"];
      }
    }
  }

  lemma HasBrackets(a: string, b: string, w: string)
    requires '[' !in w && ']' !in w && (a == "[" || b == "]")
    ensures a + b != w
  {
    if a == "[" { assert (a + b)[0] == '['; } else { assert (a + b)[|a + b| - 1] == ']'; }
  }
}
