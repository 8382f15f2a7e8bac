/** The duress verifier: its text form and the check of a candidate code. */
module Verifier {
  import opened Text

  type Byte = b: nat | b < 256

  const MIN_ITERATIONS: nat := 100_000
  const MAX_ITERATIONS: nat := 5_000_000
  const SALT_LEN: nat := 16
  const HASH_LEN: nat := 32
  const SCHEME: string := "pbkdf2_sha256"

  // ---- hexadecimal ----

  function HexDigit(n: nat): char
    requires n < 16
  {
    if n < 10 then ('0' as int + n) as char else ('a' as int + (n - 10)) as char
  }

  function HexVal(c: char): (r: Option<nat>)
    ensures r.Some? ==> r.value < 16
  {
    if '0' <= c <= '9' then Some(c as int - '0' as int)
    else if 'a' <= c <= 'f' then Some(c as int - 'a' as int + 10)
    else if 'A' <= c <= 'F' then Some(c as int - 'A' as int + 10)
    else None
  }

  /** `format!("{x:02x}")` for each byte. */
  function Hex(bs: seq<Byte>): (s: string)
    ensures |s| == 2 * |bs|
  {
    if bs == [] then "" else [HexDigit(bs[0] / 16), HexDigit(bs[0] % 16)] + Hex(bs[1..])
  }

  /** `u8::from_str_radix` of two characters: a leading plus sign is accepted. */
  function PairValue(a: char, b: char): (r: Option<Byte>) {
    match (HexVal(a), HexVal(b))
    case (Some(x), Some(y)) => Some(16 * x + y)
    case (None, Some(y)) => if a == '+' then Some(y) else None
    case _ => None
  }

  predicate IsAscii(s: string) { forall i :: 0 <= i < |s| ==> s[i] as int < 128 }

  function Pairs(s: string): (r: Option<seq<Byte>>)
    requires |s| % 2 == 0
    ensures r.Some? ==> 2 * |r.value| == |s|
  {
    if s == "" then Some([])
    else
      match (PairValue(s[0], s[1]), Pairs(s[2..]))
      case (Some(b), Some(bs)) => Some([b] + bs)
      case _ => None
  }

  function Unhex(s: string): (r: Option<seq<Byte>>)
    ensures r.Some? ==> 2 * |r.value| == |s|
  {
    if !IsAscii(s) || |s| % 2 != 0 then None else Pairs(s)
  }

  predicate LowerHex(s: string) {
    forall i :: 0 <= i < |s| ==> '0' <= s[i] <= '9' || 'a' <= s[i] <= 'f'
  }

  lemma {:induction false} HexIsLower(bs: seq<Byte>)
    ensures LowerHex(Hex(bs))
  {
    if bs != [] { HexIsLower(bs[1..]); }
  }

  lemma {:induction false} PairsOfHex(bs: seq<Byte>)
    ensures Pairs(Hex(bs)) == Some(bs)
  {
    if bs != [] {
      PairsOfHex(bs[1..]);
      assert HexVal(HexDigit(bs[0] / 16)) == Some(bs[0] / 16) && HexVal(HexDigit(bs[0] % 16)) == Some(bs[0] % 16);
      assert [bs[0]] + bs[1..] == bs;
      assert Hex(bs)[2..] == Hex(bs[1..]);
    }
  }

  lemma UnhexHex(bs: seq<Byte>)
    ensures Unhex(Hex(bs)) == Some(bs)
  {
    HexIsLower(bs);
    PairsOfHex(bs);
    LowerIsAscii(Hex(bs));
  }

  lemma LowerIsAscii(s: string)
    requires LowerHex(s)
    ensures IsAscii(s)
  {
  }

  /** Re-encoding decoded digits gives them back exactly when they are lower-case digits. */
  lemma {:induction false} HexUnhex(s: string)
    requires |s| % 2 == 0 && Pairs(s).Some?
    ensures Hex(Pairs(s).value) == s <==> LowerHex(s)
  {
    HexIsLower(Pairs(s).value);
    if s != "" {
      HexUnhex(s[2..]);
      var bs := Pairs(s).value;
      assert bs[1..] == Pairs(s[2..]).value;
      assert LowerHex(s) ==> LowerHex(s[2..]);
      if LowerHex(s) {
        assert Hex(bs)[0] == s[0] && Hex(bs)[1] == s[1];
        assert s == [s[0], s[1]] + s[2..];
      }
    }
  }

  /** One hexadecimal digit of either case. */
  predicate IsDigitOf(c: char, x: nat) {
    x < 16 && (c == "0123456789abcdef"[x] || c == "0123456789ABCDEF"[x])
  }

  /** Two digits, or a plus sign and one. */
  predicate IsByteOf(a: char, b: char, v: nat) {
    || (exists x: nat, y: nat :: x < 16 && y < 16 && IsDigitOf(a, x) && IsDigitOf(b, y) && v == 16 * x + y)
    || (a == '+' && IsDigitOf(b, v))
  }

  lemma DigitIff(c: char, x: nat)
    ensures HexVal(c) == Some(x) <==> IsDigitOf(c, x)
  {
  }

  lemma ByteIff(a: char, b: char, v: nat)
    ensures PairValue(a, b) == Some(v) <==> IsByteOf(a, b, v)
  {
    forall x: nat ensures HexVal(a) == Some(x) <==> IsDigitOf(a, x) { DigitIff(a, x); }
    forall x: nat ensures HexVal(b) == Some(x) <==> IsDigitOf(b, x) { DigitIff(b, x); }
    assert HexVal('+') == None;
  }

  predicate Decodes(s: string, bs: seq<Byte>, i: nat)
    requires |s| == 2 * |bs| && i < |bs|
  {
    IsByteOf(s[2 * i], s[2 * i + 1], bs[i])
  }

  /** A text of hexadecimal digits stands for just the bytes its pairs stand for. */
  lemma {:induction false} PairsIff(s: string, bs: seq<Byte>)
    requires |s| == 2 * |bs|
    ensures Pairs(s) == Some(bs) <==> forall i :: 0 <= i < |bs| ==> Decodes(s, bs, i)
    decreases |s|
  {
    if s != "" {
      var t, cs := s[2..], bs[1..];
      PairsIff(t, cs);
      ByteIff(s[0], s[1], bs[0]);
      assert bs == [bs[0]] + cs;
      forall i | 0 <= i < |cs| ensures Decodes(t, cs, i) == Decodes(s, bs, i + 1) {
        assert t[2 * i] == s[2 * (i + 1)] && t[2 * i + 1] == s[2 * (i + 1) + 1];
      }
      AllAfterFirst(s, bs, t, cs);
      PairsStep(s, bs, t, cs);
    }
  }

  lemma PairsStep(s: string, bs: seq<Byte>, t: string, cs: seq<Byte>)
    requires |s| == 2 * |bs| && s != "" && t == s[2..] && cs == bs[1..]
    ensures Pairs(s) == Some(bs) <==> PairValue(s[0], s[1]) == Some(bs[0]) && Pairs(t) == Some(cs)
  {
    if Pairs(t).Some? && PairValue(s[0], s[1]).Some? {
      var all := [PairValue(s[0], s[1]).value] + Pairs(t).value;
      assert all[0] == PairValue(s[0], s[1]).value && all[1..] == Pairs(t).value;
      assert bs == [bs[0]] + cs;
    }
  }

  lemma AllAfterFirst(s: string, bs: seq<Byte>, t: string, cs: seq<Byte>)
    requires |s| == 2 * |bs| && |t| == 2 * |cs| && |bs| == |cs| + 1
    requires forall i :: 0 <= i < |cs| ==> Decodes(t, cs, i) == Decodes(s, bs, i + 1)
    ensures (forall i :: 0 <= i < |bs| ==> Decodes(s, bs, i)) <==>
              Decodes(s, bs, 0) && forall i :: 0 <= i < |cs| ==> Decodes(t, cs, i)
  {
    if Decodes(s, bs, 0) && forall i :: 0 <= i < |cs| ==> Decodes(t, cs, i) {
      forall i | 0 <= i < |bs| ensures Decodes(s, bs, i) {
        if i > 0 { assert Decodes(t, cs, i - 1); }
      }
    }
  }

  // ---- fields ----

  function Other(c: char): char -> bool { (x: char) => x != c }

  /** `split(c).collect()` */
  function SplitOn(s: string, c: char): (fs: seq<string>)
    ensures |fs| >= 1
    decreases |s|
  {
    var i := SkipWhile(s, 0, Other(c));
    if i == |s| then [s] else [s[..i]] + SplitOn(s[i + 1..], c)
  }

  function JoinWith(fs: seq<string>, c: char): string
    requires fs != []
  {
    if |fs| == 1 then fs[0] else fs[0] + [c] + JoinWith(fs[1..], c)
  }

  lemma {:induction false} JoinSplit(s: string, c: char)
    ensures JoinWith(SplitOn(s, c), c) == s
    decreases |s|
  {
    var i := SkipWhile(s, 0, Other(c));
    if i < |s| {
      var rest := SplitOn(s[i + 1..], c);
      JoinSplit(s[i + 1..], c);
      assert ([s[..i]] + rest)[1..] == rest;
      assert s == s[..i] + [c] + s[i + 1..];
    }
  }

  lemma {:induction false} SplitJoin(fs: seq<string>, c: char)
    requires fs != [] && forall f :: f in fs ==> c !in f
    ensures SplitOn(JoinWith(fs, c), c) == fs
    decreases |fs|
  {
    var s := JoinWith(fs, c);
    var i := SkipWhile(s, 0, Other(c));
    assert fs[0] in fs;
    assert forall k :: 0 <= k < |fs[0]| ==> s[k] == fs[0][k] && s[k] in fs[0];
    if |fs| > 1 {
      var rest := JoinWith(fs[1..], c);
      assert s[|fs[0]|] == c;
      assert i == |fs[0]|;
      assert s[..i] == fs[0] && s[i + 1..] == rest;
      SplitJoin(fs[1..], c);
    }
  }

  // ---- the verifier ----

  datatype DuressHash = DuressHash(iterations: nat, salt: seq<Byte>, hash: seq<Byte>)

  predicate InRange(iterations: nat) { MIN_ITERATIONS <= iterations <= MAX_ITERATIONS }

  predicate WellFormed(h: DuressHash) {
    InRange(h.iterations) && |h.salt| == SALT_LEN && |h.hash| == HASH_LEN
  }

  function Fields(h: DuressHash): seq<string> {
    [SCHEME, PrintNat(h.iterations), Hex(h.salt), Hex(h.hash)]
  }

  function Serialize(h: DuressHash): string {
    JoinWith(Fields(h), '$')
  }

  datatype VerifierError = NotVerifier | BadIterations | UnsafeIterations | BadHex | BadSaltLength | BadHashLength

  function FromFields(fs: seq<string>): (r: Result<DuressHash, VerifierError>) {
    if |fs| != 4 || fs[0] != SCHEME then Err(NotVerifier)
    else
      match ParseUnsigned(fs[1], U32)
      case None => Err(BadIterations)
      case Some(n) =>
        if !InRange(n) then Err(UnsafeIterations)
        else
          match (Unhex(fs[2]), Unhex(fs[3]))
          case (Some(salt), Some(hash)) =>
            if |salt| != SALT_LEN then Err(BadSaltLength)
            else if |hash| != HASH_LEN then Err(BadHashLength)
            else Ok(DuressHash(n, salt, hash))
          case _ => Err(BadHex)
  }

  /** `DuressHash::parse` */
  function Parse(s: string): (r: Result<DuressHash, VerifierError>)
    ensures r.Ok? ==> WellFormed(r.value)
  {
    FromFields(SplitOn(Trim(s), '$'))
  }

  lemma NoDollar(s: string)
    requires AllDigits(s) || LowerHex(s)
    ensures '$' !in s
  {
  }

  lemma SerializedInk(h: DuressHash)
    requires WellFormed(h)
    ensures var s := Serialize(h); s != "" && !IsSpace(s[0]) && !IsSpace(s[|s| - 1])
  {
    var a, b, c, d := SCHEME, PrintNat(h.iterations), Hex(h.salt), Hex(h.hash);
    var fs := Fields(h);
    assert fs[1..] == [b, c, d] && [b, c, d][1..] == [c, d] && [c, d][1..] == [d];
    var t := JoinWith([c, d], '$');
    assert JoinWith([d], '$') == d;
    assert t == c + ['$'] + d;
    var u := JoinWith([b, c, d], '$');
    assert u == b + ['$'] + t;
    var s := Serialize(h);
    assert s == a + ['$'] + u;
    assert s[0] == a[0] == 'p';
    HexIsLower(h.hash);
    assert s[|s| - 1] == u[|u| - 1] == t[|t| - 1] == d[|d| - 1];
  }

  /** Every well-formed verifier is read back from its text, with or without a final newline. */
  lemma ParseSerialized(h: DuressHash)
    requires WellFormed(h)
    ensures Parse(Serialize(h)) == Ok(h) && Parse(Serialize(h) + "\n") == Ok(h)
  {
    SerializedInk(h);
    TrimLine(Serialize(h));
    SplitSerialized(h);
    ParsePrint(h.iterations, U32);
    UnhexHex(h.salt);
    UnhexHex(h.hash);
  }

  // ---- which texts are the printed form ----

  /** Decimal digits without plus sign or leading zero, and lower-case hexadecimal fields. */
  predicate CanonicalFields(fs: seq<string>) {
    |fs| == 4 && fs[1] != "" && fs[1][0] != '+' && fs[1][0] != '0' && LowerHex(fs[2]) && LowerHex(fs[3])
  }

  lemma {:induction false} PrintStartsNonzero(n: nat)
    requires n > 0
    ensures PrintNat(n)[0] != '0'
  {
    if n >= 10 { PrintStartsNonzero(n / 10); }
  }

  lemma {:induction false} ValueBounds(s: string)
    requires AllDigits(s) && s != "" && s[0] != '0'
    ensures DecimalValue(s) > 0
    decreases |s|
  {
    if |s| > 1 { ValueBounds(s[..|s| - 1]); }
    else { assert s[..0] == ""; }
  }

  lemma {:induction false} PrintValue(s: string)
    requires AllDigits(s) && s != "" && s[0] != '0'
    ensures PrintNat(DecimalValue(s)) == s
    decreases |s|
  {
    var n := |s| - 1;
    var d := s[n] as int - '0' as int;
    assert s == s[..n] + [s[n]];
    if n > 0 {
      PrintValue(s[..n]);
      ValueBounds(s[..n]);
      var v := DecimalValue(s);
      assert v / 10 == DecimalValue(s[..n]) && v % 10 == d;
    } else {
      assert s[..0] == "";
    }
  }

  /** A text that parses is the printed form of what it denotes exactly when its fields are canonical;
      other spellings (a plus sign, leading zeros, upper case) parse as well. */
  lemma ReprintIff(s: string)
    requires Parse(s).Ok?
    ensures Serialize(Parse(s).value) == Trim(s) <==> CanonicalFields(SplitOn(Trim(s), '$'))
  {
    var t, h := Trim(s), Parse(s).value;
    JoinSplit(t, '$');
    FieldsReprint(SplitOn(t, '$'), h);
    SplitSerialized(h);
  }

  lemma SplitSerialized(h: DuressHash)
    ensures SplitOn(Serialize(h), '$') == Fields(h)
  {
    HexIsLower(h.salt);
    HexIsLower(h.hash);
    forall f | f in Fields(h)
      ensures '$' !in f
    {
      if f != SCHEME { NoDollar(f); }
    }
    SplitJoin(Fields(h), '$');
  }

  lemma FieldsReprint(fs: seq<string>, h: DuressHash)
    requires FromFields(fs) == Ok(h)
    ensures fs == Fields(h) <==> CanonicalFields(fs)
  {
    HexUnhex(fs[2]);
    HexUnhex(fs[3]);
    HexIsLower(h.salt);
    HexIsLower(h.hash);
    PrintStartsNonzero(h.iterations);
    if CanonicalFields(fs) { PrintValue(fs[1]); }
  }

  // ---- checking a candidate ----

  /** PBKDF2 (RFC 8018, section 5.2), left uninterpreted: candidate, salt, iterations. */
  type Kdf = (string, seq<Byte>, nat) -> seq<Byte>

  predicate Verifies(kdf: Kdf, h: DuressHash, candidate: string) {
    kdf(candidate, h.salt, h.iterations) == h.hash
  }

  /** `DuressHash::derive`, with the salt drawn. */
  function Derive(kdf: Kdf, code: string, iterations: nat, salt: seq<Byte>): Option<DuressHash> {
    if InRange(iterations) then Some(DuressHash(iterations, salt, kdf(code, salt, iterations))) else None
  }

  /** A verifier is derived for iteration counts in the safe range. Written out and read back it accepts its code, and another one
      if and only if the two have the same key. */
  lemma DerivedVerifies(kdf: Kdf, code: string, iterations: nat, salt: seq<Byte>, other: string)
    requires |salt| == 16 && |kdf(code, salt, iterations)| == 32
    ensures var d := Derive(kdf, code, iterations, salt);
            && (d.Some? <==> 100_000 <= iterations <= 5_000_000)
            && (d.Some? ==>
                  var r := Parse(Serialize(d.value) + "\n");
                  && r.Ok? && Verifies(kdf, r.value, code)
                  && (Verifies(kdf, r.value, other) <==> kdf(other, salt, iterations) == kdf(code, salt, iterations)))
  {
    var d := Derive(kdf, code, iterations, salt);
    if d.Some? { ParseSerialized(d.value); }
  }

  /** A text is a verifier if and only if it has the four fields: the scheme, an iteration count in the safe range, a salt of 16
      bytes and a hash of 32 bytes in hexadecimal. */
  lemma ParseIff(s: string, h: DuressHash)
    ensures Parse(s) == Ok(h) <==>
              var fs := SplitOn(Trim(s), '$');
              && |fs| == 4 && fs[0] == "pbkdf2_sha256"
              && ParseUnsigned(fs[1], 0x1_0000_0000) == Some(h.iterations) && 100_000 <= h.iterations <= 5_000_000
              && Unhex(fs[2]) == Some(h.salt) && |h.salt| == 16 && Unhex(fs[3]) == Some(h.hash) && |h.hash| == 32
  {
  }
}
