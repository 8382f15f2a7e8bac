/** Options, results, and the string operations of Rust's standard library that the tools are
    written with: `find`, `trim`, `split_whitespace`, `lines`, `split`, and decimal integers. */
module Text {

  datatype Option<+T> = None | Some(value: T)

  datatype Result<+T, +E> = Ok(value: T) | Err(error: E)

  // ---- characters ----

  /** `char::is_whitespace`: the Unicode White_Space property. */
  predicate IsSpace(c: char) {
    var n := c as int;
    || 9 <= n <= 13 || n == 32 || n == 0x85 || n == 0xA0 || n == 0x1680
    || 0x2000 <= n <= 0x200A || n == 0x2028 || n == 0x2029 || n == 0x202F || n == 0x205F || n == 0x3000
  }

  predicate IsDigit(c: char) { '0' <= c <= '9' }

  /** First index at or after `i` whose character fails `p`. */
  function SkipWhile(s: string, i: nat, p: char -> bool): (j: nat)
    requires i <= |s|
    ensures i <= j <= |s|
    ensures forall k :: i <= k < j ==> p(s[k])
    ensures j < |s| ==> !p(s[j])
    decreases |s| - i
  {
    if i < |s| && p(s[i]) then SkipWhile(s, i + 1, p) else i
  }

  lemma {:induction false} SkipsAll(s: string, i: nat, j: nat, p: char -> bool)
    requires i <= j <= |s| && (forall k :: i <= k < j ==> p(s[k])) && (j == |s| || !p(s[j]))
    ensures SkipWhile(s, i, p) == j
    decreases j - i
  {
    if i < j { SkipsAll(s, i + 1, j, p); }
  }

  predicate Blank(s: string) { forall c :: c in s ==> IsSpace(c) }

  // ---- bytes ----

  function Utf8Width(c: char): nat {
    if c as int < 0x80 then 1 else if c as int < 0x800 then 2 else if c as int < 0x1_0000 then 3 else 4
  }

  /** `str::len`: the number of bytes. */
  function Utf8Length(s: string): nat {
    if s == "" then 0 else Utf8Width(s[0]) + Utf8Length(s[1..])
  }

  lemma {:induction false} Utf8Bounds(s: string)
    ensures |s| <= Utf8Length(s) <= 4 * |s|
    decreases |s|
  {
    if s != "" { Utf8Bounds(s[1..]); }
  }

  // ---- substrings ----

  predicate At(s: string, pat: string, i: nat) {
    i + |pat| <= |s| && s[i..i + |pat|] == pat
  }

  function FindFrom(s: string, pat: string, i: nat): (r: Option<nat>)
    requires i <= |s|
    ensures r.Some? ==> i <= r.value && At(s, pat, r.value) && forall k: nat :: i <= k < r.value ==> !At(s, pat, k)
    ensures r.None? ==> forall k: nat :: i <= k ==> !At(s, pat, k)
    decreases |s| - i
  {
    if At(s, pat, i) then Some(i)
    else if i == |s| then None
    else FindFrom(s, pat, i + 1)
  }

  /** `str::find`: the first occurrence. */
  function Find(s: string, pat: string): (r: Option<nat>)
    ensures r.Some? ==> At(s, pat, r.value) && forall k: nat :: k < r.value ==> !At(s, pat, k)
    ensures r.None? ==> forall k: nat :: !At(s, pat, k)
  {
    FindFrom(s, pat, 0)
  }

  predicate Contains(s: string, pat: string) { Find(s, pat).Some? }

  lemma ContainsMid(a: string, pat: string, b: string)
    ensures Contains(a + pat + b, pat)
  {
    assert At(a + pat + b, pat, |a|);
  }

  /** The position of an occurrence decides the prefix before it. */
  lemma FindIs(s: string, pat: string, i: nat)
    requires At(s, pat, i) && forall k: nat :: k < i ==> !At(s, pat, k)
    ensures Find(s, pat) == Some(i)
  {
  }

  // ---- decimal numbers ----

  predicate AllDigits(s: string) { forall i :: 0 <= i < |s| ==> IsDigit(s[i]) }

  function DigitChar(d: nat): (c: char)
    requires d < 10
    ensures IsDigit(c) && c as int == '0' as int + d
  {
    (d + '0' as int) as char
  }

  /** `n.to_string()` */
  function PrintNat(n: nat): (s: string)
    ensures |s| >= 1 && AllDigits(s)
  {
    if n < 10 then [DigitChar(n)] else PrintNat(n / 10) + [DigitChar(n % 10)]
  }

  function DecimalValue(s: string): nat
    requires AllDigits(s)
  {
    if s == "" then 0
    else 10 * DecimalValue(s[..|s| - 1]) + (s[|s| - 1] as int - '0' as int)
  }

  /** `str::parse::<uN>()` with `bound == 2^N`: an optional plus sign, then decimal digits in range. */
  function ParseUnsigned(s: string, bound: nat): (r: Option<nat>)
    ensures r.Some? ==> r.value < bound
  {
    var t := if s != "" && s[0] == '+' then s[1..] else s;
    if t != "" && AllDigits(t) && DecimalValue(t) < bound then Some(DecimalValue(t)) else None
  }

  const U8: nat := 0x100
  const U32: nat := 0x1_0000_0000
  const U64: nat := 0x1_0000_0000_0000_0000

  lemma {:induction false} DecimalPrint(n: nat)
    ensures DecimalValue(PrintNat(n)) == n
  {
    if n < 10 {
      assert PrintNat(n)[..0] == "";
    } else {
      DecimalPrint(n / 10);
      assert PrintNat(n)[..|PrintNat(n)| - 1] == PrintNat(n / 10);
    }
  }

  /** `saturating_add(1)` on a `u32` */
  function SaturatingInc(n: nat): nat { if n + 1 < U32 then n + 1 else U32 - 1 }

  lemma ParsePrint(n: nat, bound: nat)
    ensures ParseUnsigned(PrintNat(n), bound) == if n < bound then Some(n) else None
  {
    DecimalPrint(n);
    assert IsDigit(PrintNat(n)[0]);
  }

  /** Decimal digits, a plus sign before them or not, whose value fits. */
  lemma UnsignedIff(s: string, bound: nat, n: nat)
    ensures ParseUnsigned(s, bound) == Some(n) <==>
              exists d :: (s == d || s == "+" + d) && d != "" && AllDigits(d) && DecimalValue(d) == n && n < bound
  {
    if ParseUnsigned(s, bound) == Some(n) {
      var d := if s[0] == '+' then s[1..] else s;
      assert s == d || s == "+" + d;
    }
    if d :| (s == d || s == "+" + d) && d != "" && AllDigits(d) && DecimalValue(d) == n && n < bound {
      assert IsDigit(d[0]);
      assert s != d ==> s[1..] == d;
    }
  }

  // ---- trimming and words ----

  function TrimStart(s: string): string { s[SkipWhile(s, 0, IsSpace)..] }

  function TrimEnd(s: string): (t: string)
    ensures t <= s
    ensures t != "" ==> !IsSpace(t[|t| - 1])
  {
    if s != "" && IsSpace(s[|s| - 1]) then TrimEnd(s[..|s| - 1]) else s
  }

  function Trim(s: string): string { TrimEnd(TrimStart(s)) }

  predicate NoSpace(s: string) { forall i :: 0 <= i < |s| ==> !IsSpace(s[i]) }

  /** Trimming a text that starts and ends with ink drops exactly the trailing newline. */
  lemma TrimLine(s: string)
    requires s != "" && !IsSpace(s[0]) && !IsSpace(s[|s| - 1])
    ensures Trim(s) == s && Trim(s + "\n") == s
  {
    assert TrimStart(s) == s;
    var t := s + "\n";
    assert t[0] == s[0];
    assert TrimStart(t) == t;
    assert t[..|t| - 1] == s;
    assert TrimEnd(s) == s;
  }

  lemma {:induction false} TrimEndIs(w: string, b: string)
    requires w != "" && !IsSpace(w[|w| - 1]) && Blank(b)
    ensures TrimEnd(w + b) == w
    decreases |b|
  {
    if b == "" {
      assert w + b == w;
    } else {
      assert b[|b| - 1] in b;
      assert (w + b)[..|w + b| - 1] == w + b[..|b| - 1];
      TrimEndIs(w, b[..|b| - 1]);
    }
  }

  /** Blanks before and after a text that starts and ends with ink. */
  lemma TrimIs(a: string, w: string, b: string)
    requires Blank(a) && w != "" && !IsSpace(w[0]) && !IsSpace(w[|w| - 1]) && Blank(b)
    ensures Trim(a + w + b) == w
  {
    var s := a + w + b;
    forall k | 0 <= k < |a| ensures IsSpace(s[k]) { assert s[k] == a[k] && a[k] in a; }
    assert s[|a|] == w[0];
    SkipsAll(s, 0, |a|, IsSpace);
    assert s[|a|..] == w + b;
    TrimEndIs(w, b);
  }

  lemma {:induction false} TrimEndRest(s: string)
    ensures Blank(s[|TrimEnd(s)|..])
    decreases |s|
  {
    if s != "" && IsSpace(s[|s| - 1]) {
      var t := s[..|s| - 1];
      TrimEndRest(t);
      assert s[|TrimEnd(t)|..] == t[|TrimEnd(t)|..] + [s[|s| - 1]];
    }
  }

  /** What trimming takes away is blank. */
  lemma TrimHas(s: string) returns (a: string, b: string)
    ensures s == a + Trim(s) + b && Blank(a) && Blank(b)
  {
    var t := TrimStart(s);
    a, b := s[..SkipWhile(s, 0, IsSpace)], t[|Trim(s)|..];
    TrimEndRest(t);
    assert t == Trim(s) + b && s == a + t;
  }

  lemma TrimBlank(s: string)
    ensures Trim(s) == "" <==> Blank(s)
  {
    var a, b := TrimHas(s);
    if Trim(s) != "" {
      var c := Trim(s)[|Trim(s)| - 1];
      assert s[|a| + |Trim(s)| - 1] == c;
    }
  }

  // ---- pieces between delimiters ----

  function Not(p: char -> bool): char -> bool { c => !p(c) }

  /** The maximal runs free of delimiters. */
  function Pieces(s: string, delim: char -> bool): seq<string>
    decreases |s|
  {
    var i := SkipWhile(s, 0, delim);
    if i == |s| then []
    else
      var j := SkipWhile(s, i, Not(delim));
      [s[i..j]] + Pieces(s[j..], delim)
  }

  lemma DelimHead(c: char, s: string, delim: char -> bool)
    requires delim(c)
    ensures Pieces([c] + s, delim) == Pieces(s, delim)
  {
    var t := [c] + s;
    assert t[1..] == s && t[0] == c;
    assert SkipWhile(t, 0, delim) == SkipWhile(t, 1, delim);
    SkipShift(t, s, 0, delim);
    SamePieces(t, s, SkipWhile(s, 0, delim), delim);
  }

  lemma SamePieces(t: string, s: string, i: nat, delim: char -> bool)
    requires |t| == |s| + 1 && t[1..] == s && i == SkipWhile(s, 0, delim) && SkipWhile(t, 0, delim) == i + 1
    ensures Pieces(t, delim) == Pieces(s, delim)
  {
    if i < |s| {
      SkipShift(t, s, i, Not(delim));
      var j := SkipWhile(s, i, Not(delim));
      ShiftedParts(t, s, i, j);
    }
  }

  lemma ShiftedParts(t: string, s: string, i: nat, j: nat)
    requires |t| == |s| + 1 && t[1..] == s && i <= j <= |s|
    ensures t[i + 1..j + 1] == s[i..j] && t[j + 1..] == s[j..]
  {
  }

  /** Skipping in a text with one more character in front. */
  lemma {:induction false} SkipShift(t: string, s: string, i: nat, p: char -> bool)
    requires |t| == |s| + 1 && i <= |s| && t[1..] == s
    ensures SkipWhile(t, i + 1, p) == SkipWhile(s, i, p) + 1
    decreases |s| - i
  {
    if i < |s| {
      assert t[i + 1] == s[i];
      if p(s[i]) { SkipShift(t, s, i + 1, p); }
    }
  }

  /** One run of ink, and what follows it. */
  lemma InkHead(w: string, s: string, delim: char -> bool)
    requires w != "" && (forall k :: 0 <= k < |w| ==> !delim(w[k])) && (s == "" || delim(s[0]))
    ensures Pieces(w + s, delim) == [w] + Pieces(s, delim)
  {
    var t := w + s;
    assert t[0] == w[0];
    assert SkipWhile(t, 0, delim) == 0;
    var j := SkipWhile(t, 0, Not(delim));
    assert forall k :: 0 <= k < |w| ==> t[k] == w[k];
    assert s != "" ==> t[|w|] == s[0];
    assert j == |w|;
    assert t[0..j] == w && t[j..] == s;
  }

  /** From `i` to `j` no delimiter, and a delimiter or an end of the text on both sides. */
  predicate PieceAt(s: string, delim: char -> bool, i: nat, j: nat) {
    && i < j <= |s| && (forall k :: i <= k < j ==> !delim(s[k]))
    && (i == 0 || delim(s[i - 1])) && (j == |s| || delim(s[j]))
  }

  ghost predicate IsStretch(s: string, delim: char -> bool, t: string) {
    exists i: nat, j: nat :: PieceAt(s, delim, i, j) && t == s[i..j]
  }

  /** The pieces are just the stretches between delimiters. */
  lemma {:induction false} PieceIff(s: string, delim: char -> bool, t: string)
    ensures t in Pieces(s, delim) <==> IsStretch(s, delim, t)
    decreases |s|
  {
    var i0 := SkipWhile(s, 0, delim);
    if i0 < |s| {
      var j0 := SkipWhile(s, i0, Not(delim));
      assert PieceAt(s, delim, i0, j0);
      PieceIff(s[j0..], delim, t);
      StretchRest(s, delim, i0, j0, t);
    } else {
      forall i: nat, j: nat ensures !PieceAt(s, delim, i, j) { assert i < |s| ==> delim(s[i]); }
    }
  }

  /** A stretch is the first one or lies behind it. */
  lemma StretchRest(s: string, delim: char -> bool, i0: nat, j0: nat, t: string)
    requires PieceAt(s, delim, i0, j0) && forall k :: 0 <= k < i0 ==> delim(s[k])
    ensures IsStretch(s, delim, t) <==> t == s[i0..j0] || IsStretch(s[j0..], delim, t)
  {
    if IsStretch(s[j0..], delim, t) {
      var i: nat, j: nat :| PieceAt(s[j0..], delim, i, j) && t == s[j0..][i..j];
      LaterPiece(s, delim, j0, i, j);
    }
    if IsStretch(s, delim, t) {
      var i: nat, j: nat :| PieceAt(s, delim, i, j) && t == s[i..j];
      if i == i0 { SamePiece(s, delim, i, j, j0); } else { EarlierPiece(s, delim, i0, j0, i, j); }
    }
  }

  lemma SamePiece(s: string, delim: char -> bool, i: nat, j: nat, k: nat)
    requires PieceAt(s, delim, i, j) && PieceAt(s, delim, i, k)
    ensures j == k
  {
    if j < k { assert false; }
    if k < j { assert false; }
  }

  lemma LaterPiece(s: string, delim: char -> bool, j0: nat, i: nat, j: nat)
    requires j0 <= |s| && PieceAt(s[j0..], delim, i, j) && (j0 < |s| ==> delim(s[j0]))
    ensures PieceAt(s, delim, j0 + i, j0 + j) && s[j0 + i..j0 + j] == s[j0..][i..j]
  {
    var t := s[j0..];
    assert t[i] == s[j0 + i];
    forall k | j0 + i <= k < j0 + j ensures !delim(s[k]) { assert s[k] == t[k - j0]; }
    assert i > 0 && t[i - 1] == s[j0 + i - 1];
    assert j < |t| ==> t[j] == s[j0 + j];
  }

  lemma EarlierPiece(s: string, delim: char -> bool, i0: nat, j0: nat, i: nat, j: nat)
    requires PieceAt(s, delim, i0, j0) && PieceAt(s, delim, i, j) && i != i0 && forall k :: 0 <= k < i0 ==> delim(s[k])
    ensures j0 < i && PieceAt(s[j0..], delim, i - j0, j - j0) && s[j0..][i - j0..j - j0] == s[i..j]
  {
    assert !delim(s[i]) && delim(s[i - 1]);
    assert i0 < i;
    assert j0 <= i - 1;
    var t := s[j0..];
    forall k | i - j0 <= k < j - j0 ensures !delim(t[k]) { assert t[k] == s[j0 + k]; }
    assert t[i - j0 - 1] == s[i - 1];
    assert j < |s| ==> t[j - j0] == s[j];
  }

  /** Texts meeting at a delimiter are tokenised separately. */
  lemma {:induction false} PiecesAppend(a: string, b: string, delim: char -> bool)
    requires a == "" || delim(a[|a| - 1]) || b == "" || delim(b[0])
    ensures Pieces(a + b, delim) == Pieces(a, delim) + Pieces(b, delim)
    decreases |a|
  {
    if a == "" {
      assert a + b == b;
    } else {
      var j := if delim(a[0]) then 1 else SkipWhile(a, 0, Not(delim));
      var w, rest := a[..j], a[j..];
      Parted(a, j);
      PiecesAppend(rest, b, delim);
      if delim(a[0]) {
        assert w == [a[0]];
        DelimAppend(a[0], rest, b, delim);
      } else {
        InkAppend(w, rest, b, delim);
      }
    }
  }

  lemma DelimAppend(c: char, rest: string, b: string, delim: char -> bool)
    requires delim(c) && Pieces(rest + b, delim) == Pieces(rest, delim) + Pieces(b, delim)
    ensures Pieces(([c] + rest) + b, delim) == Pieces([c] + rest, delim) + Pieces(b, delim)
  {
    DelimHead(c, rest, delim);
    DelimHead(c, rest + b, delim);
    Regroup([c], rest, b, (x: string) => Pieces(x, delim));
  }

  lemma InkAppend(w: string, rest: string, b: string, delim: char -> bool)
    requires w != "" && forall k :: 0 <= k < |w| ==> !delim(w[k])
    requires if rest == "" then b == "" || delim(b[0]) else delim(rest[0])
    requires Pieces(rest + b, delim) == Pieces(rest, delim) + Pieces(b, delim)
    ensures Pieces((w + rest) + b, delim) == Pieces(w + rest, delim) + Pieces(b, delim)
  {
    HeadOf(rest, b);
    InkHead(w, rest, delim);
    InkHead(w, rest + b, delim);
    Regroup(w, rest, b, (x: string) => Pieces(x, delim));
    Reassociate([w], Pieces(rest, delim), Pieces(b, delim));
  }

  lemma Parted(a: string, j: nat)
    requires 0 < j <= |a|
    ensures a == a[..j] + a[j..] && |a[j..]| < |a|
    ensures a[j..] != "" ==> a[j..][|a[j..]| - 1] == a[|a| - 1] && a[j..][0] == a[j]
  {
  }

  lemma HeadOf(rest: string, b: string)
    ensures rest + b == "" || (rest + b)[0] == if rest == "" then b[0] else rest[0]
  {
  }

  lemma Regroup(x: string, y: string, z: string, f: string -> seq<string>)
    ensures f((x + y) + z) == f(x + (y + z))
  {
    assert (x + y) + z == x + (y + z);
  }

  lemma Reassociate(x: seq<string>, y: seq<string>, z: seq<string>)
    ensures (x + y) + z == x + (y + z)
  {
  }

  /** `split_whitespace().collect()` */
  function Words(s: string): seq<string> { Pieces(s, IsSpace) }

  lemma WordsOfLine(w: string)
    requires w != "" && NoSpace(w)
    ensures Words(w + "\n") == [w]
  {
    InkHead(w, "\n", IsSpace);
    assert SkipWhile("\n", 0, IsSpace) == 1;
  }

  // ---- lines ----

  function StripCr(s: string): string {
    if s != "" && s[|s| - 1] == '\r' then s[..|s| - 1] else s
  }

  /** A line as `lines()` gives it, when it has no carriage return at its end. */
  predicate OneLine(l: string) { '\n' !in l && StripCr(l) == l }

  predicate NotNewline(c: char) { c != '\n' }

  /** `str::lines()`: split at `\n`, dropping one `\r` before each `\n` and an empty last piece. */
  function Lines(s: string): (ls: seq<string>)
    ensures s == "" <==> ls == []
    ensures forall l :: l in ls ==> '\n' !in l
    decreases |s|
  {
    if s == "" then []
    else
      var i := SkipWhile(s, 0, NotNewline);
      if i == |s| then [s] else [StripCr(s[..i])] + Lines(s[i + 1..])
  }

  /** `lines.join("\n") + "\n"` */
  function Unlines(ls: seq<string>): (s: string)
    requires ls != []
    ensures s != "" && s[|s| - 1] == '\n'
    decreases |ls|
  {
    if |ls| == 1 then ls[0] + "\n" else ls[0] + "\n" + Unlines(ls[1..])
  }

  lemma LinesCons(l: string, rest: string)
    requires '\n' !in l
    ensures Lines(l + "\n" + rest) == [StripCr(l)] + Lines(rest)
  {
    var s := l + "\n" + rest;
    var i := SkipWhile(s, 0, NotNewline);
    assert s[|l|] == '\n';
    assert forall k :: 0 <= k < |l| ==> s[k] == l[k];
    assert i == |l|;
    assert s[..i] == l && s[i + 1..] == rest;
  }

  lemma {:induction false} LinesUnlines(ls: seq<string>)
    requires ls != [] && forall l :: l in ls ==> '\n' !in l && StripCr(l) == l
    ensures Lines(Unlines(ls)) == ls
  {
    if |ls| == 1 {
      LinesCons(ls[0], "");
      assert ls[0] + "\n" + "" == Unlines(ls);
    } else {
      LinesCons(ls[0], Unlines(ls[1..]));
      LinesUnlines(ls[1..]);
    }
  }

  /** Newline-terminated, with no carriage return before a newline. */
  predicate LfText(s: string) {
    && (s == "" || s[|s| - 1] == '\n')
    && forall i :: 0 <= i < |s| - 1 ==> !(s[i] == '\r' && s[i + 1] == '\n')
  }

  lemma LfCons(l: string, rest: string)
    requires '\n' !in l
    ensures LfText(l + "\n" + rest) <==> StripCr(l) == l && LfText(rest)
  {
    var s, i := l + "\n" + rest, |l|;
    assert s[i] == '\n';
    assert l != "" ==> s[i - 1] == l[i - 1];
    if LfText(s) {
      forall k | 0 <= k < |rest| - 1
        ensures !(rest[k] == '\r' && rest[k + 1] == '\n')
      {
        var m := i + 1 + k;
        assert s[m] == rest[k] && s[m + 1] == rest[k + 1];
      }
    }
    if StripCr(l) == l && LfText(rest) {
      forall k | 0 <= k < |s| - 1
        ensures !(s[k] == '\r' && s[k + 1] == '\n')
      {
        if k > i {
          var m := k - i - 1;
          assert s[k] == rest[m] && s[k + 1] == rest[m + 1];
        } else if k < i {
          assert s[k] == l[k];
          if k < i - 1 { assert s[k + 1] == l[k + 1]; }
        }
      }
    }
  }

  /** Splitting into lines and joining them again gives the text back exactly for LF texts. */
  lemma {:induction false} UnlinesLines(s: string)
    requires s != ""
    ensures Unlines(Lines(s)) == s <==> LfText(s)
    decreases |s|
  {
    var i := SkipWhile(s, 0, NotNewline);
    if i < |s| {
      var l, rest := s[..i], s[i + 1..];
      assert s == l + "\n" + rest;
      LfCons(l, rest);
      var head := StripCr(l) + "\n";
      if rest == "" {
        assert Unlines(Lines(s)) == head;
        assert |head| == |s| ==> head == s;
      } else {
        UnlinesLines(rest);
        var out := Unlines(Lines(rest));
        assert Lines(s) == [StripCr(l)] + Lines(rest);
        assert Unlines(Lines(s)) == head + out;
        SameLine(l, rest, out);
      }
    }
  }

  /** A first line put back gives the text back if it lost no carriage return and the rest is back. */
  lemma SameLine(l: string, rest: string, out: string)
    requires '\n' !in l
    ensures StripCr(l) + "\n" + out == l + "\n" + rest <==> StripCr(l) == l && out == rest
  {
    var a, b, n := StripCr(l) + "\n" + out, l + "\n" + rest, |l|;
    if StripCr(l) != l {
      assert a[n - 1] == '\n' && b[n - 1] == l[n - 1] == '\r';
    } else if a == b {
      assert a[n + 1..] == out && b[n + 1..] == rest;
    }
  }
}
