/** The HOOKS line of mkinitcpio.conf: inserting the deathstroke hook before encrypt, and taking it out. */
module Hooks {
  import opened Text

  const DEATH: string := "deathstroke"
  const ENCRYPT: string := "encrypt"

  datatype HookError = NoHooks | NoEncrypt | WrongOrder | UnsafeToken

  predicate IsHooks(line: string) { "HOOKS=" <= TrimStart(line) }

  // ---- insertion ----

  /** What becomes of one line, and whether it changed. `sd-encrypt` contains `encrypt`, so the first
      search decides for both. */
  function EnsureLine(line: string): Result<string, HookError> {
    if !IsHooks(line) then Ok(line)
    else
      match (Find(line, DEATH), Find(line, ENCRYPT))
      case (_, None) => Err(NoEncrypt)
      case (Some(d), Some(e)) => if d > e then Err(WrongOrder) else Ok(line)
      case (None, Some(e)) => Ok(line[..e] + (DEATH + " ") + line[e..])
  }

  function MapLines(ls: seq<string>, edit: string -> Result<string, HookError>): (r: Result<seq<string>, HookError>)
    ensures r.Ok? ==> |r.value| == |ls| && forall i :: 0 <= i < |ls| ==> edit(ls[i]) == Ok(r.value[i])
    ensures r.Ok? <==> forall i :: 0 <= i < |ls| ==> edit(ls[i]).Ok?
  {
    if ls == [] then Ok([])
    else
      var init := MapLines(ls[..|ls| - 1], edit);
      if init.Err? then init
      else
        match edit(ls[|ls| - 1])
        case Err(e) => Err(e)
        case Ok(l) => Ok(init.value + [l])
  }

  predicate SawHooks(ls: seq<string>) { exists i :: 0 <= i < |ls| && IsHooks(ls[i]) }

  /** The new text of the file: rewritten only if some line changed. */
  function Rewritten(original: string, out: seq<string>): string {
    if out == Lines(original) || out == [] then original else Unlines(out)
  }

  function Edited(original: string, edit: string -> Result<string, HookError>): Result<string, HookError> {
    match MapLines(Lines(original), edit)
    case Err(e) => Err(e)
    case Ok(out) => if !SawHooks(Lines(original)) then Err(NoHooks) else Ok(Rewritten(original, out))
  }

  function Ensured(original: string): Result<string, HookError> { Edited(original, EnsureLine) }

  // ---- removal ----

  predicate OkBefore(c: char) { IsSpace(c) || c == '(' || c == '"' }

  predicate OkAfter(c: char) { IsSpace(c) || c == ')' || c == '"' }

  predicate SafeAt(s: string, start: nat)
    requires start + |DEATH| <= |s|
  {
    && (start == 0 || OkBefore(s[start - 1]))
    && (start + |DEATH| == |s| || OkAfter(s[start + |DEATH|]))
  }

  /** One occurrence cut out, with the white space right after it. */
  function Cut(s: string, start: nat): (r: string)
    requires start + |DEATH| <= |s|
    ensures |r| < |s|
  {
    var end := start + |DEATH|;
    s[..start] + s[if end < |s| && IsSpace(s[end]) then end + 1 else end..]
  }

  function Stripped(s: string): Result<string, HookError>
    decreases |s|
  {
    match Find(s, DEATH)
    case None => Ok(s)
    case Some(start) => if !SafeAt(s, start) then Err(UnsafeToken) else Stripped(Cut(s, start))
  }

  function StripLine(line: string): Result<string, HookError> {
    if IsHooks(line) then Stripped(line) else Ok(line)
  }

  function Without(original: string): Result<string, HookError> { Edited(original, StripLine) }

  /** The `while let` loop over the occurrences in one line. */
  method StripTokens(line: string) returns (r: Result<string, HookError>)
    ensures r == Stripped(line)
  {
    var updated := line;
    var start := Find(updated, DEATH);
    while start.Some?
      invariant start == Find(updated, DEATH) && Stripped(updated) == Stripped(line)
      decreases |updated|
    {
      if !SafeAt(updated, start.value) { return Err(UnsafeToken); }
      updated := Cut(updated, start.value);
      start := Find(updated, DEATH);
    }
    return Ok(updated);
  }

  /** `without_deathstroke_hook` and the write that follows it: the text the file then has. */
  method WithoutHook(original: string) returns (r: Result<string, HookError>)
    ensures r == Without(original)
  {
    var lines := Lines(original);
    var out: seq<string> := [];
    var sawHooks, changed := false, false;
    for i := 0 to |lines|
      invariant MapLines(lines[..i], StripLine) == Ok(out) && |out| == i
      invariant sawHooks == SawHooks(lines[..i])
      invariant changed <==> out != lines[..i]
    {
      MapOneMore(lines, StripLine, i, out);
      SawOneMore(lines, i);
      var l := lines[i];
      if IsHooks(lines[i]) {
        sawHooks := true;
        var stripped := StripTokens(lines[i]);
        if stripped.Err? {
          FirstError(lines, StripLine, i);
          return Err(stripped.error);
        }
        l := stripped.value;
      }
      if l != lines[i] { changed := true; }
      SameSoFar(lines, out, l);
      out := out + [l];
    }
    assert lines[..|lines|] == lines;
    if !sawHooks { return Err(NoHooks); }
    return Ok(if changed then Unlines(out) else original);
  }

  /** `ensure_deathstroke_hook_before_encrypt`: the text the file then has. */
  method EnsureHook(original: string) returns (r: Result<string, HookError>)
    ensures r == Ensured(original)
  {
    var lines := Lines(original);
    var out: seq<string> := [];
    var sawHooks, changed := false, false;
    for i := 0 to |lines|
      invariant MapLines(lines[..i], EnsureLine) == Ok(out) && |out| == i
      invariant sawHooks == SawHooks(lines[..i])
      invariant changed <==> out != lines[..i]
    {
      MapOneMore(lines, EnsureLine, i, out);
      SawOneMore(lines, i);
      if IsHooks(lines[i]) { sawHooks := true; }
      var step := EnsureLine(lines[i]);
      if step.Err? {
        FirstError(lines, EnsureLine, i);
        return Err(step.error);
      }
      if step.value != lines[i] { changed := true; }
      SameSoFar(lines, out, step.value);
      out := out + [step.value];
    }
    assert lines[..|lines|] == lines;
    if !sawHooks { return Err(NoHooks); }
    return Ok(if changed then Unlines(out) else original);
  }

  lemma SameSoFar(lines: seq<string>, out: seq<string>, l: string)
    requires |out| < |lines|
    ensures out + [l] == lines[..|out| + 1] <==> out == lines[..|out|] && l == lines[|out|]
  {
    var n := |out|;
    assert lines[..n + 1] == lines[..n] + [lines[n]];
    if out + [l] == lines[..n + 1] {
      assert (out + [l])[..n] == out && lines[..n + 1][..n] == lines[..n];
      assert (out + [l])[n] == l;
    }
  }

  lemma MapOneMore(ls: seq<string>, edit: string -> Result<string, HookError>, i: nat, out: seq<string>)
    requires i < |ls| && MapLines(ls[..i], edit) == Ok(out)
    ensures edit(ls[i]).Ok? ==> MapLines(ls[..i + 1], edit) == Ok(out + [edit(ls[i]).value])
  {
    assert ls[..i + 1][..i] == ls[..i];
  }

  lemma SawOneMore(ls: seq<string>, i: nat)
    requires i < |ls|
    ensures SawHooks(ls[..i + 1]) == (SawHooks(ls[..i]) || IsHooks(ls[i]))
  {
    var a, b := ls[..i], ls[..i + 1];
    assert b[i] == ls[i];
    assert forall k :: 0 <= k < i ==> b[k] == a[k];
  }

  /** The first line in error decides the error of the whole. */
  lemma {:induction false} FirstError(ls: seq<string>, edit: string -> Result<string, HookError>, i: nat)
    requires i < |ls| && MapLines(ls[..i], edit).Ok? && edit(ls[i]).Err?
    ensures MapLines(ls, edit) == Err(edit(ls[i]).error)
    decreases |ls|
  {
    var n := |ls| - 1;
    if i < n {
      assert ls[..n][..i] == ls[..i];
      FirstError(ls[..n], edit, i);
    }
  }
}
