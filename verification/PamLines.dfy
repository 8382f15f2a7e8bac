/** Configuration lines in their usual form, and how libpam and dsctl read them. */
module PamLines {
  import opened Text
  import opened PamSyntax
  import opened PamArm

  /** Words with gaps between them. */
  function Spread(ws: seq<string>, gs: seq<string>): string
    requires |ws| == |gs| + 1
  {
    if |ws| == 1 then ws[0] else Spread(ws[..|gs|], gs[..|gs| - 1]) + gs[|gs| - 1] + ws[|gs|]
  }

  function Blanks(n: nat): (gs: seq<string>)
    ensures |gs| == n && forall i :: 0 <= i < n ==> gs[i] == " "
  {
    seq(n, _ => " ")
  }

  /** The entries of a control block with its brackets: on the first and on the last of them. */
  function Wrapped(es: seq<string>): (ws: seq<string>)
    requires es != []
    ensures |ws| == |es|
  {
    if |es| == 1 then ["[" + es[0] + "]"] else ["[" + es[0]] + es[1..|es| - 1] + [es[|es| - 1] + "]"]
  }

  function ControlWords(c: Control): (ws: seq<string>)
    requires c.Bracket? ==> c.entries != []
    ensures ws != []
  {
    match c
    case Keyword(name) => [name]
    case Bracket(es) => Wrapped(es)
  }

  function ControlText(c: Control): string
    requires c.Bracket? ==> c.entries != []
  {
    Spread(ControlWords(c), Blanks(|ControlWords(c)| - 1))
  }

  /** `kind`, white space, the control, white space, the module and its arguments. */
  datatype RuleLine = RuleLine(kind: string, gap: string, control: Control, space: string, words: seq<string>, gaps: seq<string>)

  predicate AllInked(ws: seq<string>) { forall i :: 0 <= i < |ws| ==> Inked(ws[i]) }

  predicate AllGaps(gs: seq<string>) { forall i :: 0 <= i < |gs| ==> Gap(gs[i]) }

  predicate Shaped(l: RuleLine) {
    (l.control.Bracket? ==> l.control.entries != []) && |l.words| == |l.gaps| + 1
  }

  /** One or two entries, or a keyword. */
  predicate Sound(l: RuleLine) {
    && Shaped(l) && Inked(l.kind) && Gap(l.gap) && Gap(l.space)
    && (if l.control.Keyword? then Inked(l.control.name)
        else 1 <= |l.control.entries| <= 2 && AllInked(l.control.entries))
    && AllInked(l.words) && AllGaps(l.gaps)
  }

  function LineText(l: RuleLine): string
    requires Shaped(l)
  {
    l.kind + l.gap + ControlText(l.control) + l.space + Spread(l.words, l.gaps)
  }

  // ---- as libpam reads it ----

  function WordTokens(ws: seq<string>): (ts: seq<Token>)
    ensures |ts| == |ws| && forall i :: 0 <= i < |ws| ==> ts[i] == Word(ws[i])
  {
    seq(|ws|, i requires 0 <= i < |ws| => Word(ws[i]))
  }

  lemma MoreTokens(ws: seq<string>)
    requires ws != []
    ensures WordTokens(ws) == WordTokens(ws[..|ws| - 1]) + [Word(ws[|ws| - 1])]
  {
  }

  lemma {:induction false} SpreadRead(a: string, toks: seq<Token>, ws: seq<string>, gs: seq<string>, end: string)
    requires ReadTo(a, Plain, toks) && |ws| == |gs| + 1 && AllInked(ws) && AllGaps(gs) && Gap(end)
    ensures ReadTo(a + Spread(ws, gs) + end, Plain, toks + WordTokens(ws))
    decreases |ws|
  {
    var n := |gs|;
    MoreTokens(ws);
    if n == 0 {
      LexCell(a, Plain, toks, ws[0], end);
      assert ws[..0] == [] && toks + WordTokens(ws) == toks + [Word(ws[0])];
    } else {
      SpreadRead(a, toks, ws[..n], gs[..n - 1], gs[n - 1]);
      var b := a + Spread(ws[..n], gs[..n - 1]) + gs[n - 1];
      LexCell(b, Plain, toks + WordTokens(ws[..n]), ws[n], end);
      Joined(a, Spread(ws[..n], gs[..n - 1]), gs[n - 1], ws[n], end);
      assert toks + WordTokens(ws[..n]) + [Word(ws[n])] == toks + WordTokens(ws);
    }
  }

  lemma Joined(a: string, b: string, c: string, d: string, e: string)
    ensures (a + b + c) + d + e == a + (b + c + d) + e
  {
  }

  function ControlTokens(c: Control): seq<Token> {
    match c
    case Keyword(name) => [Word(name)]
    case Bracket(es) => [Open] + WordTokens(es) + [Close]
  }

  lemma ControlRead(a: string, toks: seq<Token>, c: Control, end: string)
    requires ReadTo(a, Plain, toks) && Gap(end)
    requires if c.Keyword? then Inked(c.name) else 1 <= |c.entries| <= 2 && AllInked(c.entries)
    ensures ReadTo(a + ControlText(c) + end, Plain, toks + ControlTokens(c))
  {
    match c
    case Keyword(name) =>
      LexCell(a, Plain, toks, name, end);
    case Bracket(es) =>
      if |es| == 1 { OneEntry(a, toks, es[0], end); } else { TwoEntries(a, toks, es[0], es[1], end); }
      BlockForm(es);
  }

  lemma BlockForm(es: seq<string>)
    requires 1 <= |es| <= 2
    ensures ControlText(Bracket(es)) == if |es| == 1 then "[" + es[0] + "]" else "[" + es[0] + " " + es[1] + "]"
    ensures ControlTokens(Bracket(es)) ==
            if |es| == 1 then [Open] + [Word(es[0])] + [Close] else [Open] + [Word(es[0])] + [Word(es[1])] + [Close]
  {
    var ws, gs := Wrapped(es), Blanks(|es| - 1);
    if |es| == 2 {
      assert es[1..1] == [];
      assert ws == ["[" + es[0], es[1] + "]"];
      assert ws[..1] == [ws[0]] && gs[..0] == [] && gs[0] == " ";
      assert Spread(ws[..1], gs[..0]) == ws[0];
      assert ("[" + es[0]) + " " + (es[1] + "]") == "[" + es[0] + " " + es[1] + "]";
    }
  }

  lemma OneEntry(a: string, toks: seq<Token>, e: string, end: string)
    requires ReadTo(a, Plain, toks) && Inked(e) && Gap(end)
    ensures ReadTo(a + ("[" + e + "]") + end, Plain, toks + ([Open] + [Word(e)] + [Close]))
  {
    LexOpen(a, toks);
    LexClose(a + "[", toks + [Open], e, end);
    assert (a + "[") + e + "]" + end == a + ("[" + e + "]") + end;
    assert toks + [Open] + [Word(e)] + [Close] == toks + ([Open] + [Word(e)] + [Close]);
  }

  lemma TwoEntries(a: string, toks: seq<Token>, e: string, d: string, end: string)
    requires ReadTo(a, Plain, toks) && Inked(e) && Inked(d) && Gap(end)
    ensures ReadTo(a + ("[" + e + " " + d + "]") + end, Plain, toks + ([Open] + [Word(e)] + [Word(d)] + [Close]))
  {
    LexOpen(a, toks);
    LexCell(a + "[", Bracketed, toks + [Open], e, " ");
    LexClose(a + "[" + e + " ", toks + [Open] + [Word(e)], d, end);
    assert (a + "[" + e + " ") + d + "]" + end == a + ("[" + e + " " + d + "]") + end;
    assert toks + [Open] + [Word(e)] + [Word(d)] + [Close] == toks + ([Open] + [Word(e)] + [Word(d)] + [Close]);
  }

  lemma LineTokens(l: RuleLine)
    requires Sound(l)
    ensures Tokens(LineText(l)) == [Word(l.kind)] + ControlTokens(l.control) + WordTokens(l.words)
  {
    var a := l.kind + l.gap;
    FirstCell(l.kind, l.gap);
    ControlRead(a, [Word(l.kind)], l.control, l.space);
    var b := a + ControlText(l.control) + l.space;
    SpreadRead(b, [Word(l.kind)] + ControlTokens(l.control), l.words, l.gaps, " ");
    ReadWhole(LineText(l), [Word(l.kind)] + ControlTokens(l.control) + WordTokens(l.words));
  }

  lemma ReadWhole(line: string, toks: seq<Token>)
    requires ReadTo(line + " ", Plain, toks)
    ensures Tokens(line) == toks
  {
    LexAppend(START, line, " ");
    LexOne(Lex(START, line), ' ');
  }

  /** A line in the usual form is read as the rule it was made from. */
  lemma LineMeaning(l: RuleLine)
    requires Sound(l)
    ensures Meaning(LineText(l)) == Some(Rule(l.control, l.words[0], WordTokens(l.words[1..])))
  {
    LineTokens(l);
    var ts := [Word(l.kind)] + ControlTokens(l.control) + WordTokens(l.words);
    if l.control.Keyword? {
      assert ts[2..] == WordTokens(l.words);
      assert ts[3..] == WordTokens(l.words[1..]);
    } else {
      BlockMeaning(l.kind, l.control.entries, l.words);
    }
  }

  lemma BlockMeaning(kind: string, es: seq<string>, ws: seq<string>)
    requires ws != []
    ensures RuleOf([Word(kind)] + ([Open] + WordTokens(es) + [Close]) + WordTokens(ws))
            == Some(Rule(Bracket(es), ws[0], WordTokens(ws[1..])))
  {
    var ts, c := [Word(kind)] + ([Open] + WordTokens(es) + [Close]) + WordTokens(ws), |es| + 2;
    assert forall k :: 2 <= k < c ==> ts[k] == Word(es[k - 2]);
    assert ts[c] == Close && ts[1] == Open && ts[c + 1] == Word(ws[0]);
    assert CloseFrom(ts, 2) == c;
    assert ts[2..c] == WordTokens(es);
    assert Texts(WordTokens(es)) == es;
    assert ts[c + 2..] == WordTokens(ws[1..]);
  }
}
