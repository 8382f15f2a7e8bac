/** The attempt policy and the small numeric files: what dsctl prints, ds-unlock reads back. */
module AttemptPolicy {
  import opened Text

  const DEFAULT_LOCKOUT_AT: nat := 3
  const DEFAULT_WIPE_AT: nat := 5
  const DEFAULT_MAX_PROMPTS: nat := 5
  const MAX_WIPE_AT: nat := 20
  const MAX_LOCKOUT_DELAY_SECS: nat := 3600

  datatype Policy = Policy(lockoutAt: nat, wipeAt: nat, lockoutDelay: nat, maxPrompts: nat)

  const DEFAULT := Policy(DEFAULT_LOCKOUT_AT, DEFAULT_WIPE_AT, 0, DEFAULT_MAX_PROMPTS)

  /** `Policy::validate` */
  predicate Validates(p: Policy) {
    !(|| p.lockoutAt == 0
      || p.lockoutAt >= p.wipeAt
      || p.wipeAt > MAX_WIPE_AT
      || p.maxPrompts == 0
      || p.maxPrompts > MAX_WIPE_AT
      || p.wipeAt > p.maxPrompts
      || p.lockoutDelay > MAX_LOCKOUT_DELAY_SECS)
  }

  /** The limits of a policy: lock-out before the wipe, the wipe no later than the twentieth failure and than the last prompt, and
      a delay of at most an hour. */
  lemma ValidatesIff(p: Policy)
    ensures Validates(p) <==> 1 <= p.lockoutAt < p.wipeAt <= p.maxPrompts <= 20 && p.lockoutDelay <= 3600
  {
  }

  datatype PolicyError = NotKeyValue | BadNumber(key: string) | UnknownKey(key: string) | Invalid

  function SetKey(p: Policy, key: string, value: string): Result<Policy, PolicyError> {
    var bound := if key == "lockout_delay" then U64 else U32;
    if key !in {"lockout_at", "wipe_at", "lockout_delay", "max_prompts"} then Err(UnknownKey(key))
    else
      match ParseUnsigned(value, bound)
      case None => Err(BadNumber(key))
      case Some(n) =>
        Ok(if key == "lockout_at" then p.(lockoutAt := n)
           else if key == "wipe_at" then p.(wipeAt := n)
           else if key == "lockout_delay" then p.(lockoutDelay := n)
           else p.(maxPrompts := n))
  }

  function ReadLine(p: Policy, raw: string): Result<Policy, PolicyError> {
    var line := Trim(raw);
    if line == "" || line[0] == '#' then Ok(p)
    else
      match Find(line, "=")
      case None => Err(NotKeyValue)
      case Some(i) => SetKey(p, Trim(line[..i]), Trim(line[i + 1..]))
  }

  function ReadLines(p: Policy, ls: seq<string>): Result<Policy, PolicyError>
    decreases |ls|
  {
    if ls == [] then Ok(p)
    else
      match ReadLine(p, ls[0])
      case Err(e) => Err(e)
      case Ok(q) => ReadLines(q, ls[1..])
  }

  function Parsed(text: string): (r: Result<Policy, PolicyError>)
    ensures r.Ok? ==> Validates(r.value)
  {
    match ReadLines(DEFAULT, Lines(text))
    case Err(e) => Err(e)
    case Ok(p) => if Validates(p) then Ok(p) else Err(Invalid)
  }

  /** `Policy::parse`: a local policy updated line by line, then validated. */
  method ParsePolicy(text: string) returns (r: Result<Policy, PolicyError>)
    ensures r == Parsed(text)
    ensures r.Ok? ==> Validates(r.value)
  {
    var policy := DEFAULT;
    var lines := Lines(text);
    for i := 0 to |lines|
      invariant ReadLines(policy, lines[i..]) == ReadLines(DEFAULT, lines)
    {
      assert lines[i..][1..] == lines[i + 1..];
      var step := ReadLine(policy, lines[i]);
      if step.Err? { return Err(step.error); }
      policy := step.value;
    }
    if !Validates(policy) { return Err(Invalid); }
    return Ok(policy);
  }

  /** The configuration text `dsctl` writes: four lines. */
  function Printed(p: Policy): string {
    Unlines(["lockout_at" + "=" + PrintNat(p.lockoutAt), "wipe_at" + "=" + PrintNat(p.wipeAt),
             "lockout_delay" + "=" + PrintNat(p.lockoutDelay), "max_prompts" + "=" + PrintNat(p.maxPrompts)])
  }

  lemma DigitsTrim(n: nat)
    ensures Trim(PrintNat(n)) == PrintNat(n)
  {
    var s := PrintNat(n);
    assert IsDigit(s[0]) && IsDigit(s[|s| - 1]);
    TrimLine(s);
  }

  lemma PrintedLine(p: Policy, key: string, n: nat)
    requires key in {"lockout_at", "wipe_at", "lockout_delay", "max_prompts"} && n < U32
    ensures var line := key + "=" + PrintNat(n);
            && '\n' !in line && StripCr(line) == line
            && ReadLine(p, line) == SetKey(p, key, PrintNat(n))
            && SetKey(p, key, PrintNat(n)).Ok?
  {
    var d := PrintNat(n);
    KeyInk(key);
    LineParts(key, d);
    TrimLine(key);
    DigitsTrim(n);
    ParsePrint(n, U32);
    ParsePrint(n, U64);
    ReadParts(p, key, d);
  }

  /** A key and digits joined by an equals sign come apart again at the sign. */
  lemma LineParts(key: string, d: string)
    requires key != "" && !IsSpace(key[0]) && key[0] != '#' && '=' !in key && '\n' !in key
    requires d != "" && AllDigits(d)
    ensures var line := key + "=" + d;
            && Trim(line) == line && line != "" && line[0] != '#'
            && Find(line, "=") == Some(|key|) && line[..|key|] == key && line[|key| + 1..] == d
            && '\n' !in line && StripCr(line) == line
  {
    var line := key + "=" + d;
    assert line[0] == key[0];
    assert line[|line| - 1] == d[|d| - 1] && IsDigit(d[|d| - 1]);
    TrimLine(line);
    EqualsFound(key, d);
    forall i | 0 <= i < |d| ensures d[i] != '\n' { assert IsDigit(d[i]); }
  }

  lemma EqualsFound(key: string, d: string)
    requires '=' !in key
    ensures var line := key + "=" + d;
            Find(line, "=") == Some(|key|) && line[..|key|] == key && line[|key| + 1..] == d
  {
    var line := key + "=" + d;
    assert line[|key|..|key| + 1] == "=";
    forall k: nat | k < |key|
      ensures !At(line, "=", k)
    {
      assert line[k..k + 1][0] == key[k];
      assert key[k] in key;
    }
    FindIs(line, "=", |key|);
  }

  lemma ReadParts(p: Policy, key: string, d: string)
    requires var line := key + "=" + d;
             && Trim(line) == line && line != "" && line[0] != '#'
             && Find(line, "=") == Some(|key|) && line[..|key|] == key && line[|key| + 1..] == d
    requires Trim(key) == key && Trim(d) == d
    ensures ReadLine(p, key + "=" + d) == SetKey(p, key, d)
  {
  }

  lemma KeyInk(key: string)
    requires key in {"lockout_at", "wipe_at", "lockout_delay", "max_prompts"}
    ensures key != "" && !IsSpace(key[0]) && !IsSpace(key[|key| - 1]) && key[0] != '#' && '=' !in key && '\n' !in key
  {
  }

  /** One printed line sets one number of the policy. */
  lemma SetLine(p: Policy, key: string, n: nat, q: Policy)
    requires key in {"lockout_at", "wipe_at", "lockout_delay", "max_prompts"} && n < U32
    requires q == if key == "lockout_at" then p.(lockoutAt := n) else if key == "wipe_at" then p.(wipeAt := n)
                  else if key == "lockout_delay" then p.(lockoutDelay := n) else p.(maxPrompts := n)
    ensures var line := key + "=" + PrintNat(n); OneLine(line) && ReadLine(p, line) == Ok(q)
  {
    PrintedLine(p, key, n);
    ParsePrint(n, U32);
    ParsePrint(n, U64);
  }

  /** Every policy that validates is read back from its printed text. */
  lemma PrintedParses(p: Policy)
    requires Validates(p)
    ensures Parsed(Printed(p)) == Ok(p)
  {
    var p1 := DEFAULT.(lockoutAt := p.lockoutAt);
    var p2 := p1.(wipeAt := p.wipeAt);
    var p3 := p2.(lockoutDelay := p.lockoutDelay);
    SetLine(DEFAULT, "lockout_at", p.lockoutAt, p1);
    SetLine(p1, "wipe_at", p.wipeAt, p2);
    SetLine(p2, "lockout_delay", p.lockoutDelay, p3);
    SetLine(p3, "max_prompts", p.maxPrompts, p);
    FourRead("lockout_at" + "=" + PrintNat(p.lockoutAt), "wipe_at" + "=" + PrintNat(p.wipeAt),
             "lockout_delay" + "=" + PrintNat(p.lockoutDelay), "max_prompts" + "=" + PrintNat(p.maxPrompts), p1, p2, p3, p);
  }

  lemma FourRead(a: string, b: string, c: string, d: string, p1: Policy, p2: Policy, p3: Policy, p: Policy)
    requires OneLine(a) && OneLine(b) && OneLine(c) && OneLine(d) && Validates(p)
    requires ReadLine(DEFAULT, a) == Ok(p1) && ReadLine(p1, b) == Ok(p2) && ReadLine(p2, c) == Ok(p3) && ReadLine(p3, d) == Ok(p)
    ensures Parsed(Unlines([a, b, c, d])) == Ok(p)
  {
    LinesUnlines([a, b, c, d]);
    ReadFour(DEFAULT, a, b, c, d, p1, p2, p3, p);
  }

  lemma ReadFour(p0: Policy, a: string, b: string, c: string, d: string, p1: Policy, p2: Policy, p3: Policy, p4: Policy)
    requires ReadLine(p0, a) == Ok(p1) && ReadLine(p1, b) == Ok(p2) && ReadLine(p2, c) == Ok(p3) && ReadLine(p3, d) == Ok(p4)
    ensures ReadLines(p0, [a, b, c, d]) == Ok(p4)
  {
    assert [a, b, c, d][1..] == [b, c, d] && [b, c, d][1..] == [c, d] && [c, d][1..] == [d] && [d][1..] == [];
    assert ReadLines(p3, [d]) == Ok(p4);
    assert ReadLines(p2, [c, d]) == Ok(p4);
    assert ReadLines(p1, [b, c, d]) == Ok(p4);
  }

  // ---- one-number files ----

  /** `format!("{n}\n")` */
  function NumberLine(n: nat): string { PrintNat(n) + "\n" }

  /** `read_count`: exactly one field, a `u32`. */
  function ReadCount(text: string): Option<nat> {
    var ws := Words(text);
    if |ws| != 1 then None else ParseUnsigned(ws[0], U32)
  }

  /** `read_slot`: a trimmed `u8` no greater than 31. */
  function ReadSlot(text: string): (r: Option<nat>)
    ensures r.Some? ==> r.value <= 31
  {
    match ParseUnsigned(Trim(text), U8)
    case Some(n) => if n > 31 then None else Some(n)
    case None => None
  }

  lemma CountReadsBack(n: nat)
    ensures ReadCount(NumberLine(n)) == if n < U32 then Some(n) else None
  {
    var s := PrintNat(n);
    forall i | 0 <= i < |s| ensures !IsSpace(s[i]) { assert IsDigit(s[i]); }
    WordsOfLine(s);
    ParsePrint(n, U32);
  }

  lemma SlotReadsBack(n: nat)
    ensures ReadSlot(NumberLine(n)) == if n <= 31 then Some(n) else None
  {
    var s := PrintNat(n);
    assert IsDigit(s[0]) && IsDigit(s[|s| - 1]);
    TrimLine(s);
    ParsePrint(n, U8);
  }
}
