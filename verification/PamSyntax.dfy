/** PAM configuration lines as text: how libpam reads a line, and the line helpers of dsctl. */
module PamSyntax {
  import opened Text

  // ---- libpam's reading of a line (Linux-PAM System Administrators' Guide, section 4.1) ----

  datatype Token = Word(text: string) | Open | Close

  datatype Mode = Plain | Bracketed | Comment

  datatype Lexer = Lexer(mode: Mode, cur: string, toks: seq<Token>)

  const START := Lexer(Plain, "", [])

  function Flush(x: Lexer): Lexer {
    if x.cur == "" then x else x.(cur := "", toks := x.toks + [Word(x.cur)])
  }

  /** Words end at white space; `[` opens a control block, `]` closes it; `#` starts a comment. */
  function LexChar(x: Lexer, c: char): Lexer {
    if x.mode.Comment? then x
    else if c == '#' then Flush(x).(mode := Comment)
    else if IsSpace(c) then Flush(x)
    else if x.mode.Plain? && x.cur == "" && c == '[' then x.(mode := Bracketed, toks := x.toks + [Open])
    else if x.mode.Bracketed? && c == ']' then Flush(x).(mode := Plain, toks := Flush(x).toks + [Close])
    else x.(cur := x.cur + [c])
  }

  function Lex(x: Lexer, s: string): Lexer
    decreases |s|
  {
    if s == "" then x else Lex(LexChar(x, s[0]), s[1..])
  }

  function Tokens(line: string): seq<Token> { Flush(Lex(START, line)).toks }

  datatype Control = Keyword(name: string) | Bracket(entries: seq<string>)

  datatype Rule = Rule(control: Control, target: string, args: seq<Token>)

  function CloseFrom(toks: seq<Token>, i: nat): (c: nat)
    requires i <= |toks|
    ensures i <= c <= |toks| && (c < |toks| ==> toks[c] == Close)
    ensures forall k :: i <= k < c ==> toks[k] != Close
    decreases |toks| - i
  {
    if i == |toks| || toks[i] == Close then i else CloseFrom(toks, i + 1)
  }

  function Texts(toks: seq<Token>): (ts: seq<string>)
    ensures |ts| == |toks|
    ensures forall i :: 0 <= i < |ts| ==> ts[i] == (if toks[i].Word? then toks[i].text else "")
  {
    seq(|toks|, i requires 0 <= i < |toks| => if toks[i].Word? then toks[i].text else "")
  }

  /** `type control module-path module-arguments` */
  function RuleOf(toks: seq<Token>): Option<Rule> {
    if |toks| < 3 || !toks[0].Word? then None
    else if toks[1].Word? then
      if toks[2].Word? then Some(Rule(Keyword(toks[1].text), toks[2].text, toks[3..])) else None
    else if toks[1] == Open then
      var c := CloseFrom(toks, 2);
      if c + 1 < |toks| && toks[c + 1].Word?
      then Some(Rule(Bracket(Texts(toks[2..c])), toks[c + 1].text, toks[c + 2..]))
      else None
    else None
  }

  function Meaning(line: string): Option<Rule> { RuleOf(Tokens(line)) }

  // ---- control values ----

  datatype Action = Credit | Blame | Die | Done | Ignore | Reset | Jump(skip: nat)

  /** A PAM return value by its configuration name. */
  type Code = c: string | '=' !in c witness ""

  function ParseAction(v: string): Action {
    if v == "ok" then Credit
    else if v == "die" then Die
    else if v == "done" then Done
    else if v == "ignore" then Ignore
    else if v == "reset" then Reset
    else if v != "" && AllDigits(v) then Jump(DecimalValue(v))
    else Blame
  }

  predicate EntryFor(e: string, code: string) { code + "=" <= e }

  /** An explicit value for a code: the last one given counts. */
  function LastEntry(entries: seq<string>, code: string): Option<string> {
    if entries == [] then None
    else if EntryFor(entries[|entries| - 1], code) then Some(entries[|entries| - 1][|code| + 1..])
    else LastEntry(entries[..|entries| - 1], code)
  }

  /** The default reaches only values not set yet, so the first one given counts. */
  function FirstEntry(entries: seq<string>, code: string): Option<string> {
    if entries == [] then None
    else if EntryFor(entries[0], code) then Some(entries[0][|code| + 1..])
    else FirstEntry(entries[1..], code)
  }

  function KeywordAction(name: string, code: Code): Action {
    var success := code == "success" || code == "new_authtok_reqd";
    if name == "required" then (if success then Credit else if code == "ignore" then Ignore else Blame)
    else if name == "requisite" then (if success then Credit else if code == "ignore" then Ignore else Die)
    else if name == "sufficient" then (if success then Done else Ignore)
    else if name == "optional" then (if success then Credit else Ignore)
    else Blame
  }

  function ActionOn(c: Control, code: Code): Action {
    match c
    case Keyword(name) => KeywordAction(name, code)
    case Bracket(entries) =>
      match LastEntry(entries, code)
      case Some(v) => ParseAction(v)
      case None =>
        match FirstEntry(entries, "default")
        case Some(v) => ParseAction(v)
        case None => Blame
  }

  /** The control has an entry of its own for `success`. */
  predicate NamesSuccess(c: Control) { c.Bracket? && LastEntry(c.entries, "success").Some? }

  lemma NamesOnly(name: Code, v: string, code: Code)
    ensures EntryFor(name + "=" + v, code) <==> code == name
  {
    var e := name + "=" + v;
    assert e[|name|] == '=' && e[..|name|] == name && e[..|name| + 1] == name + "=";
    if EntryFor(e, code) {
      assert (code + "=")[|code|] == '=';
      assert forall i :: 0 <= i < |name| ==> e[i] == name[i];
      assert forall i :: 0 <= i < |code| ==> e[i] == (code + "=")[i] == code[i];
      assert |code| == |name|;
      assert code == e[..|name|];
    }
  }

  // ---- dsctl's line helpers ----

  predicate IsDash(c: char) { c == '-' }

  function AuthStart(line: string): nat {
    SkipWhile(line, SkipWhile(line, SkipWhile(line, 0, IsSpace), IsDash), IsSpace)
  }

  /** `is_auth_rule`: leading white space and dashes aside, the first word is `auth`. */
  predicate IsAuth(line: string) {
    var k := AuthStart(line);
    At(line, "auth", k) && (k + 4 == |line| || IsSpace(line[k + 4]))
  }

  const SUCCESS: string := "success="

  function SuccessStart(line: string): (r: Option<nat>)
    ensures r.Some? ==> 8 <= r.value <= |line|
  {
    match Find(line, SUCCESS)
    case None => None
    case Some(p) => Some(p + 8)
  }

  /** `success_jump`: the digits after the first `success=`, when they fit a `usize`. */
  function SuccessJump(line: string): Option<nat> {
    match SuccessStart(line)
    case None => None
    case Some(start) => ParseUnsigned(line[start..SkipWhile(line, start, IsDigit)], U64)
  }

  datatype JumpError = NoSuccessControl | NotNumeric

  /** `replace_success_jump` */
  function ReplaceSuccessJump(line: string, value: nat): Result<string, JumpError> {
    match SuccessStart(line)
    case None => Err(NoSuccessControl)
    case Some(start) =>
      var end := SkipWhile(line, start, IsDigit);
      if end == start then Err(NotNumeric) else Ok(line[..start] + PrintNat(value) + line[end..])
  }

  /** What is between the two ends of a text does not matter to an occurrence inside the common prefix. */
  lemma FindPrefix(a: string, b: string, pat: string, n: nat)
    requires n <= |a| && n <= |b| && a[..n] == b[..n]
    requires Find(a, pat).Some? && Find(a, pat).value + |pat| <= n
    ensures Find(b, pat) == Find(a, pat)
  {
    var p := Find(a, pat).value;
    forall k: nat | k <= p
      ensures At(a, pat, k) == At(b, pat, k)
    {
      assert a[k..k + |pat|] == a[..n][k..k + |pat|];
      assert b[k..k + |pat|] == b[..n][k..k + |pat|];
    }
    FindIs(b, pat, p);
  }

  /** Reading a jump that was written gives the written value; the text around it is untouched. */
  lemma ReplacedJumpReadsBack(line: string, value: nat)
    requires ReplaceSuccessJump(line, value).Ok? && value < U64
    ensures var out := ReplaceSuccessJump(line, value).value;
            var start := SuccessStart(line).value;
            var end := SkipWhile(line, start, IsDigit);
            && SuccessStart(out) == SuccessStart(line)
            && SuccessJump(out) == Some(value)
            && SkipWhile(out, start, IsDigit) == start + |PrintNat(value)|
            && out[..start] == line[..start]
            && out[SkipWhile(out, start, IsDigit)..] == line[end..]
  {
    var out := ReplaceSuccessJump(line, value).value;
    var start := SuccessStart(line).value;
    var end := SkipWhile(line, start, IsDigit);
    var d := PrintNat(value);
    assert out[..start] == line[..start];
    FindPrefix(line, out, SUCCESS, start);
    DigitsEnd(line[..start], d, line[end..]);
    assert out == line[..start] + d + line[end..];
    assert out[start..start + |d|] == d;
    ParsePrint(value, U64);
  }

  lemma DigitsEnd(a: string, d: string, b: string)
    requires AllDigits(d) && (b == "" || !IsDigit(b[0]))
    ensures SkipWhile(a + d + b, |a|, IsDigit) == |a| + |d|
    ensures (a + d + b)[|a| + |d|..] == b
  {
    var s, e := a + d + b, SkipWhile(a + d + b, |a|, IsDigit);
    assert forall k :: |a| <= k < |a| + |d| ==> s[k] == d[k - |a|];
    assert b != "" ==> s[|a| + |d|] == b[0];
  }

  // ---- an edited jump, as libpam reads it ----

  lemma {:induction false} LexAppend(x: Lexer, a: string, b: string)
    ensures Lex(x, a + b) == Lex(Lex(x, a), b)
    decreases |a|
  {
    if a == "" {
      assert a + b == b;
    } else {
      assert (a + b)[1..] == a[1..] + b;
      LexAppend(LexChar(x, a[0]), a[1..], b);
    }
  }

  function Prefixed(ts: seq<Token>, x: Lexer): Lexer { x.(toks := ts + x.toks) }

  /** Tokens already produced do not influence the rest of the line. */
  lemma {:induction false} LexFrame(ts: seq<Token>, x: Lexer, s: string)
    ensures Lex(Prefixed(ts, x), s) == Prefixed(ts, Lex(x, s))
    decreases |s|
  {
    if s != "" {
      var c := s[0];
      assert ts + (x.toks + [Word(x.cur)]) == ts + x.toks + [Word(x.cur)];
      assert ts + (x.toks + [Open]) == ts + x.toks + [Open];
      assert ts + (Flush(x).toks + [Close]) == ts + Flush(x).toks + [Close];
      assert LexChar(Prefixed(ts, x), c) == Prefixed(ts, LexChar(x, c));
      LexFrame(ts, LexChar(x, c), s[1..]);
    }
  }

  predicate Ink(c: char) { !IsSpace(c) && c != '#' && c != '[' && c != ']' }

  lemma {:induction false} LexInk(x: Lexer, w: string)
    requires !x.mode.Comment? && forall i :: 0 <= i < |w| ==> Ink(w[i])
    ensures Lex(x, w) == x.(cur := x.cur + w)
    decreases |w|
  {
    if w == "" {
      assert x.cur + w == x.cur;
    } else {
      LexInk(LexChar(x, w[0]), w[1..]);
      assert x.cur + [w[0]] + w[1..] == x.cur + w;
    }
  }

  lemma {:induction false} LexSpaces(x: Lexer, s: string)
    requires s != "" && !x.mode.Comment? && forall i :: 0 <= i < |s| ==> IsSpace(s[i])
    ensures Lex(x, s) == Flush(x)
    decreases |s|
  {
    if |s| > 1 { LexSpaces(LexChar(x, s[0]), s[1..]); }
  }

  /** The first `success=` of the line begins an entry of the rule's control block. */
  predicate SuccessInControl(line: string) {
    match Find(line, SUCCESS)
    case None => true
    case Some(p) =>
      var x := Lex(START, line[..p]);
      && x.mode.Bracketed? && x.cur == ""
      && |x.toks| >= 2 && x.toks[0].Word? && x.toks[1] == Open && Close !in x.toks
  }

  /** The digits of a jump make up the rest of their entry. */
  predicate JumpEndsEntry(line: string) {
    SuccessJump(line).Some? ==>
      var end := SkipWhile(line, SuccessStart(line).value, IsDigit);
      end < |line| && (IsSpace(line[end]) || line[end] == ']')
  }

  ghost predicate EditedAt(before: seq<Token>, after: seq<Token>, k: nat, jump: nat, value: nat) {
    && |before| == |after| && 2 <= k < |before|
    && before[0].Word? && before[1] == Open && Close !in before[..k]
    && before[k].Word? && SUCCESS <= before[k].text
    && AllDigits(before[k].text[8..]) && before[k].text != SUCCESS
    && DecimalValue(before[k].text[8..]) == jump
    && after == before[k := Word(SUCCESS + PrintNat(value))]
  }

  lemma TokensAround(a: string, d: string, c: char, rest: string) returns (tail: seq<Token>)
    requires var x := Lex(START, a); x.mode.Bracketed? && x.cur == ""
    requires AllDigits(d) && (IsSpace(c) || c == ']')
    ensures forall d' :: AllDigits(d') ==>
              Tokens(a + (SUCCESS + d') + [c] + rest) == Lex(START, a).toks + [Word(SUCCESS + d')] + tail
  {
    var x := Lex(START, a);
    var y := LexChar(x, c);
    var base := Lexer(y.mode, "", y.toks[|x.toks|..]);
    tail := Flush(Lex(base, rest)).toks;
    forall d' | AllDigits(d')
      ensures Tokens(a + (SUCCESS + d') + [c] + rest) == x.toks + [Word(SUCCESS + d')] + tail
    {
      var w := SUCCESS + d';
      forall i | 0 <= i < |w| ensures Ink(w[i]) {}
      LexAppend(START, a, w);
      LexInk(x, w);
      var z := x.(cur := w);
      assert x.cur + w == w;
      assert Lex(START, a + w) == z;
      LexAppend(START, a + w, [c]);
      var z' := LexChar(z, c);
      assert Lex(z, [c]) == z' by { assert [c][1..] == ""; }
      var pre := x.toks + [Word(w)];
      assert z' == Prefixed(pre, base);
      LexAppend(START, a + w + [c], rest);
      LexFrame(pre, base, rest);
      assert Lex(START, a + w + [c] + rest) == Prefixed(pre, Lex(base, rest));
    }
  }

  lemma SplitAt(line: string, p: nat, start: nat, end: nat)
    requires p <= start <= end < |line|
    ensures line == line[..p] + (line[p..start] + line[start..end]) + [line[end]] + line[end + 1..]
  {
  }

  lemma EditedTokens(line: string, value: nat) returns (k: nat)
    requires SuccessJump(line).Some? && SuccessInControl(line) && JumpEndsEntry(line)
    ensures ReplaceSuccessJump(line, value).Ok?
    ensures EditedAt(Tokens(line), Tokens(ReplaceSuccessJump(line, value).value), k, SuccessJump(line).value, value)
  {
    var p := Find(line, SUCCESS).value;
    var start := p + 8;
    var end := SkipWhile(line, start, IsDigit);
    var a, d, c, rest := line[..p], line[start..end], line[end], line[end + 1..];
    assert AllDigits(d);
    var tail := TokensAround(a, d, c, rest);
    SplitAt(line, p, start, end);
    var out := ReplaceSuccessJump(line, value).value;
    Rejoin(line, p, end, PrintNat(value));
    var ts := Lex(START, a).toks;
    k := |ts|;
    WordInPlace(ts, d, PrintNat(value), tail);
    DecimalPrint(value);
  }

  lemma Rejoin(line: string, p: nat, end: nat, v: string)
    requires p + 8 <= end < |line| && line[p..p + 8] == SUCCESS
    ensures line[..p + 8] + v + line[end..] == line[..p] + (SUCCESS + v) + [line[end]] + line[end + 1..]
  {
    assert line[..p + 8] == line[..p] + SUCCESS;
    assert line[end..] == [line[end]] + line[end + 1..];
  }

  lemma WordInPlace(ts: seq<Token>, d: string, v: string, tail: seq<Token>)
    ensures var before := ts + [Word(SUCCESS + d)] + tail;
            && ts + [Word(SUCCESS + v)] + tail == before[|ts| := Word(SUCCESS + v)]
            && before[..|ts|] == ts && before[|ts|] == Word(SUCCESS + d)
            && (SUCCESS + d)[8..] == d && SUCCESS <= SUCCESS + d
            && (SUCCESS + d == SUCCESS <==> d == "")
            && forall i :: 0 <= i < |ts| ==> before[i] == ts[i]
  {
    var before := ts + [Word(SUCCESS + d)] + tail;
    assert before[..|ts|] == ts;
    assert |SUCCESS + d| == 8 + |d|;
  }

  /** At most one entry of the control names the code `success`. */
  predicate OneSuccess(entries: seq<string>) {
    forall i, j :: 0 <= i < j < |entries| ==> !(EntryFor(entries[i], "success") && EntryFor(entries[j], "success"))
  }

  /** Changing one entry can only change the action of the code that entry names. */
  lemma {:induction false} OtherCodesKeep(entries: seq<string>, k: nat, e: string, code: string)
    requires k < |entries| && !EntryFor(entries[k], code) && !EntryFor(e, code)
    ensures LastEntry(entries[k := e], code) == LastEntry(entries, code)
    ensures FirstEntry(entries[k := e], code) == FirstEntry(entries, code)
    decreases |entries|
  {
    var es, n := entries[k := e], |entries|;
    if k < n - 1 {
      OtherCodesKeep(entries[..n - 1], k, e, code);
      assert es[..n - 1] == entries[..n - 1][k := e];
    } else {
      assert es[..n - 1] == entries[..n - 1];
    }
    if k > 0 {
      OtherCodesKeep(entries[1..], k - 1, e, code);
      assert es[1..] == entries[1..][k - 1 := e];
    } else {
      assert es[1..] == entries[1..];
    }
  }

  lemma {:induction false} SoleEntryCounts(entries: seq<string>, k: nat, code: string)
    requires k < |entries| && EntryFor(entries[k], code)
    requires forall i :: 0 <= i < |entries| && i != k ==> !EntryFor(entries[i], code)
    ensures LastEntry(entries, code) == Some(entries[k][|code| + 1..])
    decreases |entries|
  {
    if k < |entries| - 1 { SoleEntryCounts(entries[..|entries| - 1], k, code); }
  }

  /** The two controls agree on every code but `success`, where they jump as given. */
  ghost predicate SameButJump(before: Control, after: Control, jump: nat, value: nat) {
    && NamesSuccess(before) && ActionOn(before, "success") == Jump(jump)
    && ActionOn(after, "success") == Jump(value)
    && forall code: Code :: code != "success" ==> ActionOn(after, code) == ActionOn(before, code)
  }

  lemma EditedControl(entries: seq<string>, k: nat, d: string, value: nat)
    requires k < |entries| && OneSuccess(entries)
    requires d != "" && AllDigits(d) && entries[k] == SUCCESS + d
    ensures SameButJump(Bracket(entries), Bracket(entries[k := SUCCESS + PrintNat(value)]), DecimalValue(d), value)
  {
    var e := SUCCESS + PrintNat(value);
    var es := entries[k := e];
    assert "success" + "=" == SUCCESS;
    assert EntryFor(entries[k], "success") && EntryFor(e, "success");
    SoleEntryCounts(entries, k, "success");
    SoleEntryCounts(es, k, "success");
    DecimalPrint(value);
    assert entries[k][8..] == d && e[8..] == PrintNat(value);
    DigitsAreJumps(d);
    DigitsAreJumps(PrintNat(value));
    forall code: Code | code != "success"
      ensures ActionOn(Bracket(es), code) == ActionOn(Bracket(entries), code)
    {
      NamesOnlySuccess(d, code);
      NamesOnlySuccess(PrintNat(value), code);
      OtherCodesKeep(entries, k, e, code);
      NamesOnlySuccess(d, "default");
      NamesOnlySuccess(PrintNat(value), "default");
      OtherCodesKeep(entries, k, e, "default");
    }
  }

  lemma DigitsAreJumps(d: string)
    requires d != "" && AllDigits(d)
    ensures ParseAction(d) == Jump(DecimalValue(d))
  {
    assert IsDigit(d[0]);
  }

  lemma NamesOnlySuccess(d: string, code: Code)
    ensures EntryFor(SUCCESS + d, code) ==> code == "success"
  {
    var e := SUCCESS + d;
    assert e[..7] == "success";
    assert forall i :: 0 <= i < 8 ==> e[i] == SUCCESS[i];
    if EntryFor(e, code) {
      assert e[|code|] == (code + "=")[|code|] == '=';
      assert forall i :: 0 <= i < |code| ==> e[i] == (code + "=")[i] == code[i];
      assert forall i :: 0 <= i < 7 ==> SUCCESS[i] != '=';
      assert e[7] == '=' && forall i :: 0 <= i < |code| ==> code[i] != '=';
      assert |code| == 7;
      assert code == e[..7];
    }
  }

  /** Replacing the jump of a line changes the `success` action of its rule to the new jump, and nothing else. */
  lemma EditedMeaning(line: string, value: nat)
    requires SuccessJump(line).Some? && SuccessInControl(line) && JumpEndsEntry(line)
    requires Meaning(line).Some? && (Meaning(line).value.control.Bracket? ==> OneSuccess(Meaning(line).value.control.entries))
    ensures ReplaceSuccessJump(line, value).Ok?
    ensures var out := Meaning(ReplaceSuccessJump(line, value).value);
            var rule := Meaning(line).value;
            && out.Some? && out.value.target == rule.target && out.value.args == rule.args
            && SameButJump(rule.control, out.value.control, SuccessJump(line).value, value)
  {
    var k := EditedTokens(line, value);
    EditedRule(Tokens(line), Tokens(ReplaceSuccessJump(line, value).value), k, SuccessJump(line).value, value);
  }

  lemma EditedRule(before: seq<Token>, after: seq<Token>, k: nat, jump: nat, value: nat)
    requires EditedAt(before, after, k, jump, value) && RuleOf(before).Some?
    requires RuleOf(before).value.control.Bracket? ==> OneSuccess(RuleOf(before).value.control.entries)
    ensures var rule, out := RuleOf(before).value, RuleOf(after);
            && out.Some? && out.value.target == rule.target && out.value.args == rule.args
            && SameButJump(rule.control, out.value.control, jump, value)
  {
    var c := EditedClose(before, after, k, jump, value);
    var t := SUCCESS + PrintNat(value);
    EditedTexts(before, after, k, c, t);
    var d := before[k].text[8..];
    assert before[k].text == SUCCESS + d by { assert before[k].text[..8] == SUCCESS; }
    EditedControl(Texts(before[2..c]), k - 2, d, value);
  }

  /** The edited entry lies inside the control block; what follows the block is untouched. */
  lemma EditedClose(before: seq<Token>, after: seq<Token>, k: nat, jump: nat, value: nat) returns (c: nat)
    requires EditedAt(before, after, k, jump, value) && RuleOf(before).Some?
    ensures k < c && c + 1 < |before| && before[c + 1].Word?
    ensures RuleOf(before) == Some(Rule(Bracket(Texts(before[2..c])), before[c + 1].text, before[c + 2..]))
    ensures RuleOf(after) == Some(Rule(Bracket(Texts(after[2..c])), before[c + 1].text, before[c + 2..]))
  {
    c := CloseFrom(before, 2);
    assert forall i :: 0 <= i < k ==> before[i] == before[..k][i];
    assert k < c;
    assert forall i :: 0 <= i < |before| && i != k ==> after[i] == before[i];
    assert CloseFrom(after, 2) == c;
    assert after[c + 2..] == before[c + 2..];
  }

  lemma EditedTexts(before: seq<Token>, after: seq<Token>, k: nat, c: nat, t: string)
    requires 2 <= k < c <= |before| && before[k].Word? && after == before[k := Word(t)]
    ensures var es := Texts(before[2..c]); es[k - 2] == before[k].text && Texts(after[2..c]) == es[k - 2 := t]
  {
    assert after[2..c] == before[2..c][k - 2 := after[k]];
  }

  /** A line whose `success=` entry is sound keeps being an auth rule when its jump is replaced. */
  lemma EditedIsAuth(line: string, value: nat)
    requires IsAuth(line) && ReplaceSuccessJump(line, value).Ok?
    ensures IsAuth(ReplaceSuccessJump(line, value).value)
  {
    var out := ReplaceSuccessJump(line, value).value;
    var start := SuccessStart(line).value;
    AuthBeforeSuccess(line);
    assert forall i :: 0 <= i < start ==> out[i] == line[i];
    AuthFromPrefix(line, out, start);
  }

  lemma AuthFromPrefix(line: string, out: string, n: nat)
    requires n <= |line| && n <= |out| && forall i :: 0 <= i < n ==> out[i] == line[i]
    requires IsAuth(line) && AuthStart(line) + 4 < n
    ensures IsAuth(out)
  {
    AuthStartSame(line, out, n);
    var k := AuthStart(line);
    assert out[k..k + 4] == line[k..k + 4];
  }

  lemma AuthStartSame(line: string, out: string, n: nat)
    requires n <= |line| && n <= |out| && forall i :: 0 <= i < n ==> out[i] == line[i]
    requires AuthStart(line) < n
    ensures AuthStart(out) == AuthStart(line)
  {
    var i0 := SkipWhile(line, 0, IsSpace);
    var i1 := SkipWhile(line, i0, IsDash);
    SkipSame(line, out, 0, n, IsSpace);
    SkipSame(line, out, i0, n, IsDash);
    SkipSame(line, out, i1, n, IsSpace);
  }

  lemma {:induction false} SkipSame(a: string, b: string, i: nat, n: nat, p: char -> bool)
    requires i <= n <= |a| && n <= |b| && forall k :: 0 <= k < n ==> b[k] == a[k]
    requires SkipWhile(a, i, p) < n
    ensures SkipWhile(b, i, p) == SkipWhile(a, i, p)
    decreases n - i
  {
    if p(a[i]) { SkipSame(a, b, i + 1, n, p); }
  }

  lemma AuthBeforeSuccess(line: string)
    requires IsAuth(line) && SuccessStart(line).Some?
    ensures AuthStart(line) + 4 <= SuccessStart(line).value - 8
  {
    var p := SuccessStart(line).value - 8;
    var k := AuthStart(line);
    assert line[p] == line[p..p + 8][0] == 's';
    var a := line[k..k + 4];
    assert a[0] == 'a' && a[1] == 'u' && a[2] == 't' && a[3] == 'h';
    assert line[k] == a[0] && line[k + 1] == a[1] && line[k + 2] == a[2] && line[k + 3] == a[3];
    assert forall i :: 0 <= i < k ==> IsSpace(line[i]) || IsDash(line[i]);
  }
}
