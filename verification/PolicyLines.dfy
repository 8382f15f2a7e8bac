/** What each line of a policy file does. */
module PolicyLines {
  import opened Text
  import opened AttemptPolicy

  lemma LineBlank(p: Policy, raw: string)
    requires Blank(raw)
    ensures ReadLine(p, raw) == Ok(p)
  {
    TrimBlank(raw);
  }

  lemma LineComment(p: Policy, a: string, rest: string)
    requires Blank(a)
    ensures ReadLine(p, a + "#" + rest) == Ok(p)
  {
    var raw := a + "#" + rest;
    var x, y := TrimHas(raw);
    TrimBlank(raw);
    assert raw[|a|] == '#' && !IsSpace('#');
    assert '#' in raw;
    var t := Trim(raw);
    FirstInk(raw, a, x, t, y);
  }

  /** The first character that is not blank is the first one that trimming leaves. */
  lemma FirstInk(raw: string, a: string, x: string, t: string, y: string)
    requires Blank(a) && Blank(x) && raw == x + t + y && t != "" && t == Trim(raw) && a < raw && !IsSpace(raw[|a|])
    ensures t[0] == raw[|a|]
  {
    forall k | 0 <= k < |a| ensures IsSpace(raw[k]) { assert raw[k] == a[k] && a[k] in a; }
    SkipsAll(raw, 0, |a|, IsSpace);
    assert t <= raw[|a|..];
  }

  /** A key or value as written: ink at both ends. */
  predicate Ink(s: string) { s != "" && !IsSpace(s[0]) && !IsSpace(s[|s| - 1]) }

  /** `key = value`, with any blanks around the two. */
  predicate IsPair(raw: string, key: string, value: string, a: string, b: string, c: string, d: string) {
    && Ink(key) && Ink(value) && '=' !in key && key[0] != '#' && Blank(a) && Blank(b) && Blank(c) && Blank(d)
    && raw == a + (key + b + "=" + c + value) + d
  }

  lemma PairSets(p: Policy, raw: string, key: string, value: string, a: string, b: string, c: string, d: string)
    requires IsPair(raw, key, value, a, b, c, d)
    ensures ReadLine(p, raw) == SetKey(p, key, value)
  {
    var front, back := key + b, c + value;
    var line := front + "=" + back;
    PairLine(raw, line, key, value, a, b, c, d);
    NoEquals(key, b);
    EqualsAt(line, front, back);
    TrimHalves(key, b, c, value);
  }

  lemma PairLine(raw: string, line: string, key: string, value: string, a: string, b: string, c: string, d: string)
    requires IsPair(raw, key, value, a, b, c, d) && line == (key + b) + "=" + (c + value)
    ensures Trim(raw) == line && line != "" && line[0] == key[0]
  {
    assert line == key + b + "=" + c + value;
    assert line[|line| - 1] == value[|value| - 1];
    TrimIs(a, line, d);
  }

  lemma TrimHalves(key: string, b: string, c: string, value: string)
    requires Ink(key) && Ink(value) && Blank(b) && Blank(c)
    ensures Trim(key + b) == key && Trim(c + value) == value
  {
    TrimIs("", key, b);
    assert "" + key + b == key + b;
    TrimIs(c, value, "");
    assert c + value + "" == c + value;
  }

  lemma NoEquals(key: string, b: string)
    requires '=' !in key && Blank(b)
    ensures '=' !in key + b
  {
    assert !IsSpace('=');
  }

  lemma EqualsAt(line: string, front: string, back: string)
    requires '=' !in front && line == front + "=" + back
    ensures Find(line, "=") == Some(|front|) && line[..|front|] == front && line[|front| + 1..] == back
  {
    var n := |front|;
    assert line[n..n + 1] == "=";
    forall k: nat | k < n
      ensures !At(line, "=", k)
    {
      assert line[k..k + 1][0] == front[k] && front[k] in front;
    }
    FindIs(line, "=", n);
  }

  /** Anything else that is neither blank nor a comment is an error. */
  lemma LineRefused(p: Policy, raw: string)
    requires '=' !in raw && Trim(raw) != "" && Trim(raw)[0] != '#'
    ensures ReadLine(p, raw) == Err(NotKeyValue)
  {
    var a, b := TrimHas(raw);
    var line := Trim(raw);
    forall k: nat | k < |line| ensures line[k] != '=' { assert raw[|a| + k] == line[k] && raw[|a| + k] in raw; }
    forall k: nat ensures !At(line, "=", k) { if k < |line| { NotAt(line, k); } }
  }

  lemma NotAt(line: string, k: nat)
    requires k < |line| && line[k] != '='
    ensures !At(line, "=", k)
  {
    assert line[k..k + 1] == [line[k]];
  }

  /** Each of the four keys sets its own number, of 32 bits, the delay of 64; any other key is an error. */
  lemma KeySets(p: Policy, key: string, value: string, n: nat)
    ensures ParseUnsigned(value, 0x1_0000_0000) == Some(n) ==>
              && SetKey(p, "lockout_at", value) == Ok(Policy(n, p.wipeAt, p.lockoutDelay, p.maxPrompts))
              && SetKey(p, "wipe_at", value) == Ok(Policy(p.lockoutAt, n, p.lockoutDelay, p.maxPrompts))
              && SetKey(p, "max_prompts", value) == Ok(Policy(p.lockoutAt, p.wipeAt, p.lockoutDelay, n))
    ensures ParseUnsigned(value, 0x1_0000_0000_0000_0000) == Some(n) ==>
              SetKey(p, "lockout_delay", value) == Ok(Policy(p.lockoutAt, p.wipeAt, n, p.maxPrompts))
    ensures ParseUnsigned(value, 0x1_0000_0000).None? && key in {"lockout_at", "wipe_at", "max_prompts"} ==>
              SetKey(p, key, value) == Err(BadNumber(key))
    ensures ParseUnsigned(value, 0x1_0000_0000_0000_0000).None? ==>
              SetKey(p, "lockout_delay", value) == Err(BadNumber("lockout_delay"))
    ensures key !in {"lockout_at", "wipe_at", "lockout_delay", "max_prompts"} ==> SetKey(p, key, value) == Err(UnknownKey(key))
  {
  }

  /** The lines act one after the other, up to the first error. */
  lemma {:induction false} LinesInOrder(p: Policy, ls: seq<string>, l: string)
    ensures ReadLines(p, ls + [l]) ==
              if ReadLines(p, ls).Err? then ReadLines(p, ls) else ReadLine(ReadLines(p, ls).value, l)
    decreases |ls|
  {
    if ls == [] {
      assert [] + [l] == [l] && [l][1..] == [];
    } else {
      assert (ls + [l])[1..] == ls[1..] + [l];
      if ReadLine(p, ls[0]).Ok? { LinesInOrder(ReadLine(p, ls[0]).value, ls[1..], l); }
    }
  }

  /** An empty file gives the defaults: lock-out after three failures, wipe after five, no delay, five prompts. */
  lemma DefaultsParsed(text: string)
    requires text == ""
    ensures Parsed(text) == Ok(Policy(3, 5, 0, 5))
  {
  }

  /** A count is one word, wherever it stands in the file, that is a number of 32 bits. */
  lemma CountIff(text: string, n: nat)
    ensures ReadCount(text) == Some(n) ==>
              Ink(Trim(text)) && NoSpace(Trim(text)) && ParseUnsigned(Trim(text), 0x1_0000_0000) == Some(n)
    ensures Ink(Trim(text)) && NoSpace(Trim(text)) ==> ReadCount(text) == ParseUnsigned(Trim(text), 0x1_0000_0000)
  {
    var a, b := TrimHas(text);
    var w := Trim(text);
    if Ink(w) && NoSpace(w) { OneWord(text, a, w, b); }
    if ReadCount(text) == Some(n) { OnlyWord(text, Words(text)[0]); }
  }

  lemma BlankWords(s: string)
    requires Blank(s)
    ensures Words(s) == []
  {
    forall k | 0 <= k < |s| ensures IsSpace(s[k]) { assert s[k] in s; }
    SkipsAll(s, 0, |s|, IsSpace);
  }

  lemma OneWord(text: string, a: string, w: string, b: string)
    requires text == a + w + b && Blank(a) && Blank(b) && w != "" && NoSpace(w)
    ensures Words(text) == [w]
  {
    BlankWords(a);
    BlankWords(b);
    assert b != "" ==> b[0] in b;
    assert a != "" ==> a[|a| - 1] in a;
    InkHead(w, b, IsSpace);
    PiecesAppend(a, w + b, IsSpace);
    assert a + (w + b) == text;
  }

  /** A text with just one word is that word and blanks. */
  lemma OnlyWord(text: string, w: string)
    requires Words(text) == [w]
    ensures Trim(text) == w && Ink(w) && NoSpace(w)
  {
    var i, j := FirstWord(text, w);
    NoWords(text[j..]);
    InThree(text, i, j);
    TrimIs(text[..i], w, text[j..]);
  }

  lemma InThree(text: string, i: nat, j: nat)
    requires i <= j <= |text|
    ensures text == text[..i] + text[i..j] + text[j..]
  {
  }

  lemma FirstWord(text: string, w: string) returns (i: nat, j: nat)
    requires Words(text) == [w]
    ensures i < j <= |text| && w == text[i..j] && Blank(text[..i]) && Words(text[j..]) == [] && NoSpace(w) && Ink(w)
  {
    i := SkipWhile(text, 0, IsSpace);
    j := SkipWhile(text, i, Not(IsSpace));
    var rest := Pieces(text[j..], IsSpace);
    assert i < |text| && Pieces(text, IsSpace) == [text[i..j]] + rest;
    assert ([text[i..j]] + rest)[0] == text[i..j] && |[text[i..j]] + rest| == 1 + |rest|;
  }

  lemma NoWords(s: string)
    requires Words(s) == []
    ensures Blank(s)
  {
  }
}
