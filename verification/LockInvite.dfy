/** Lock invite codes: a Crockford base-32 numeral with a two-digit checksum (src/lock-invite.ts), and the
    router that reads what a player typed (components/pact-discovery.tsx). */
module LockInvite {
  import opened Prelude
  import opened Text

  const MAX_UINT256: int := 0xFFFF_FFFF_FFFF_FFFF_FFFF_FFFF_FFFF_FFFF_FFFF_FFFF_FFFF_FFFF_FFFF_FFFF_FFFF_FFFF
  const MIN_BODY_LENGTH := 4
  const MAX_BODY_LENGTH := 52

  /** keccak256 of the body under its domain prefix, left uninterpreted. */
  type Digest = string -> nat

  // --- the numeral -------------------------------------------------------------------------------------

  /** The Crockford alphabet: the digits, then the capitals without I, L, O and U. */
  function DigitChar(d: nat): char
    requires d < 32
  {
    if d < 10 then ('0' as int + d) as char
    else if d < 18 then ('A' as int + d - 10) as char
    else if d < 20 then ('J' as int + d - 18) as char
    else if d < 22 then ('M' as int + d - 20) as char
    else if d < 27 then ('P' as int + d - 22) as char
    else ('V' as int + d - 27) as char
  }

  /** `CROCKFORD_ALPHABET.indexOf`. */
  function IndexOf(c: char): (i: int)
    ensures i == -1 || (0 <= i < 32 && DigitChar(i) == c)
    ensures forall d :: 0 <= d < 32 && DigitChar(d) == c ==> i == d
  {
    if '0' <= c <= '9' then c as int - '0' as int
    else if 'A' <= c <= 'H' then c as int - 'A' as int + 10
    else if 'J' <= c <= 'K' then c as int - 'J' as int + 18
    else if 'M' <= c <= 'N' then c as int - 'M' as int + 20
    else if 'P' <= c <= 'T' then c as int - 'P' as int + 22
    else if 'V' <= c <= 'Z' then c as int - 'V' as int + 27
    else -1
  }

  lemma AlphabetSpelledOut()
    ensures seq(32, i requires 0 <= i < 32 => DigitChar(i)) == "0123456789ABCDEFGHJKMNPQRSTVWXYZ"
  {
  }

  function Crockford(value: nat): (s: string)
    ensures |s| > 0
  {
    if value < 32 then [DigitChar(value)] else Crockford(value / 32) + [DigitChar(value % 32)]
  }

  /** `encodeCrockford`: digits are put in front as the value is divided down. */
  method EncodeCrockford(value: nat) returns (encoded: string)
    ensures encoded == Crockford(value)
  {
    if value == 0 { return "0"; }
    var remaining := value;
    encoded := "";
    while remaining > 0
      invariant (if remaining > 0 then Crockford(remaining) else "") + encoded == Crockford(value)
    {
      CrockfordStep(remaining, encoded);
      encoded := [DigitChar(remaining % 32)] + encoded;
      remaining := remaining / 32;
    }
  }

  lemma CrockfordStep(value: nat, tail: string)
    requires value > 0
    ensures Crockford(value) + tail
            == (if value / 32 > 0 then Crockford(value / 32) else "") + ([DigitChar(value % 32)] + tail)
  {
  }

  predicate IsCrockford(s: string) {
    forall i :: 0 <= i < |s| ==> IndexOf(s[i]) >= 0
  }

  function ValueOf(s: string): nat
    requires IsCrockford(s)
  {
    if s == "" then 0 else ValueOf(s[..|s| - 1]) * 32 + IndexOf(s[|s| - 1])
  }

  // --- codes -------------------------------------------------------------------------------------------

  /** `padStart(width, "0")`. */
  function PadStart(s: string, width: nat): (r: string)
    ensures |r| == if |s| >= width then |s| else width
  {
    if |s| >= width then s else Zeros(width - |s|) + s
  }

  function Zeros(n: nat): (z: string)
    ensures |z| == n
  {
    seq(n, _ => '0')
  }

  /** Two digits of the low ten bits of the body's digest. */
  function Checksum(digest: Digest, body: string): string {
    PadStart(Crockford(digest(body) % 1024), 2)
  }

  function Code(body: string, checksum: string): string {
    "LOCK-" + body + "-" + checksum
  }

  function Body(pactId: nat): string {
    PadStart(Crockford(pactId), MIN_BODY_LENGTH)
  }

  function EncodeInvite(digest: Digest, pactId: int): Result<string, string> {
    if pactId < 1 || pactId > MAX_UINT256 then Err("Lock ID must be a positive uint256")
    else Ok(Code(Body(pactId), Checksum(digest, Body(pactId))))
  }

  /** The pattern a code must match: its body and checksum, when it does. */
  function MatchCode(code: string): Option<(string, string)> {
    if |code| < 12 || |code| > 60 || code[..5] != "LOCK-" || code[|code| - 3] != '-' then None
    else
      var body, sum := code[5..|code| - 3], code[|code| - 2..];
      if !IsCrockford(body) || !IsCrockford(sum) then None else Some((body, sum))
  }

  /** The value of a body, or nothing as soon as a prefix of it exceeds uint256. */
  function BoundedValue(body: string): Option<nat>
    requires IsCrockford(body)
  {
    if body == "" then Some(0)
    else match BoundedValue(body[..|body| - 1])
      case None => None
      case Some(v) =>
        var next := v * 32 + IndexOf(body[|body| - 1]);
        if next > MAX_UINT256 then None else Some(next)
  }

  /** What a strict decoder accepts, as a function of the code. */
  function DecodeInvite(digest: Digest, code: string): Option<nat> {
    match MatchCode(code)
    case None => None
    case Some((body, sum)) =>
      match BoundedValue(body)
      case None => None
      case Some(pactId) =>
        if pactId < 1 || sum != Checksum(digest, body) then None
        else if EncodeInvite(digest, pactId) == Ok(code) then Some(pactId) else None
  }

  /** `decodeLockInviteCode`: the body is read digit by digit and given up as soon as it overflows. */
  method DecodeLockInviteCode(digest: Digest, code: string) returns (r: Option<nat>)
    ensures r == DecodeInvite(digest, code)
  {
    var matched := MatchCode(code);
    if matched.None? { return None; }
    var (body, sum) := matched.value;
    var pactId := 0;
    var i := 0;
    while i < |body|
      invariant 0 <= i <= |body|
      invariant BoundedValue(body[..i]) == Some(pactId)
    {
      assert body[..i + 1][..i] == body[..i];
      pactId := pactId * 32 + IndexOf(body[i]);
      i := i + 1;
      if pactId > MAX_UINT256 {
        OverflowSticks(body, i);
        return None;
      }
    }
    assert body[..|body|] == body;
    if pactId < 1 || sum != Checksum(digest, body) { return None; }
    if EncodeInvite(digest, pactId) == Ok(code) { return Some(pactId); }
    return None;
  }

  lemma {:induction false} OverflowSticks(body: string, n: nat)
    requires IsCrockford(body) && n <= |body| && BoundedValue(body[..n]).None?
    ensures BoundedValue(body).None?
    decreases |body|
  {
    if n < |body| {
      var front := body[..|body| - 1];
      assert front[..n] == body[..n];
      OverflowSticks(front, n);
    } else {
      assert body[..n] == body;
    }
  }

  // --- numeral lemmas ----------------------------------------------------------------------------------

  function Pow32(n: nat): nat {
    if n == 0 then 1 else 32 * Pow32(n - 1)
  }

  /** Reading back what was printed. */
  lemma {:induction false} CrockfordValue(value: nat)
    ensures IsCrockford(Crockford(value)) && ValueOf(Crockford(value)) == value
    ensures value > 0 ==> Crockford(value)[0] != '0'
    ensures value == 0 ==> Crockford(value) == "0"
  {
    var s := Crockford(value);
    if value < 32 {
      assert s[..0] == "";
    } else {
      CrockfordValue(value / 32);
      assert s[..|s| - 1] == Crockford(value / 32);
    }
  }

  /** Leading zeros do not change a value. */
  lemma {:induction false} ZerosValue(n: nat, s: string)
    requires IsCrockford(s)
    ensures IsCrockford(Zeros(n) + s) && ValueOf(Zeros(n) + s) == ValueOf(s)
  {
    var p := Zeros(n) + s;
    if s == "" {
      if n > 0 {
        ZerosValue(n - 1, "");
        assert p[..|p| - 1] == Zeros(n - 1) + "";
      }
    } else {
      ZerosValue(n, s[..|s| - 1]);
      assert p[..|p| - 1] == Zeros(n) + s[..|s| - 1];
    }
  }

  /** A numeral without a leading zero is the only one of its value. */
  lemma {:induction false} CanonicalNumeral(s: string)
    requires IsCrockford(s) && s != "" && s[0] != '0'
    ensures ValueOf(s) > 0 && Crockford(ValueOf(s)) == s
  {
    var n := |s| - 1;
    if n == 0 {
      assert s[..0] == "";
      assert s == [DigitChar(IndexOf(s[0]))];
    } else {
      CanonicalNumeral(s[..n]);
      assert s == s[..n] + [s[n]];
      assert ValueOf(s) / 32 == ValueOf(s[..n]) && ValueOf(s) % 32 == IndexOf(s[n]);
    }
  }

  lemma {:induction false} LengthBound(value: nat, n: nat)
    requires n >= 1 && value < Pow32(n)
    ensures |Crockford(value)| <= n
  {
    if value < 32 {
    } else {
      LengthBound(value / 32, n - 1);
    }
  }

  lemma {:induction false} LengthAtLeast(value: nat, n: nat)
    requires value >= Pow32(n)
    ensures |Crockford(value)| > n
  {
    if n == 0 {
    } else {
      LengthAtLeast(value / 32, n - 1);
    }
  }

  /** A uint256 needs at most 52 digits, and a ten-bit checksum at most two. */
  lemma DigitCounts(pactId: nat, sum: nat)
    requires pactId <= MAX_UINT256 && sum < 1024
    ensures |Crockford(pactId)| <= MAX_BODY_LENGTH
    ensures |PadStart(Crockford(sum), 2)| == 2
  {
    PowersMeet();
    LengthBound(pactId, 52);
    LengthBound(sum, 2);
  }

  lemma PowersMeet()
    ensures Pow32(2) == 1024 && 16 * (MAX_UINT256 + 1) == Pow32(52)
  {
    var p10 := 0x4_0000_0000_0000;
    assert Pow32(2) == 1024 && Pow32(10) == p10;
    PowAdd(10, 10);
    assert Pow32(20) == p10 * p10;
    PowAdd(20, 20);
    assert Pow32(40) == p10 * p10 * (p10 * p10);
    PowAdd(40, 10);
    PowAdd(50, 2);
    assert Pow32(52) == p10 * p10 * (p10 * p10) * p10 * 1024;
  }

  lemma {:induction false} PowAdd(m: nat, n: nat)
    ensures Pow32(m + n) == Pow32(m) * Pow32(n)
  {
    if m == 0 {
    } else {
      PowAdd(m - 1, n);
      assert Pow32(m) * Pow32(n) == 32 * (Pow32(m - 1) * Pow32(n));
    }
  }

  /** The early exit never turns down a body whose value fits. */
  lemma {:induction false} BoundedValueIsValue(body: string)
    requires IsCrockford(body)
    ensures BoundedValue(body) == if ValueOf(body) > MAX_UINT256 then None else Some(ValueOf(body))
  {
    if body == "" {
    } else {
      BoundedValueIsValue(body[..|body| - 1]);
    }
  }

  // --- codes and ids are in bijection ------------------------------------------------------------------

  lemma BodyFacts(pactId: nat)
    requires 1 <= pactId <= MAX_UINT256
    ensures IsCrockford(Body(pactId)) && ValueOf(Body(pactId)) == pactId
    ensures MIN_BODY_LENGTH <= |Body(pactId)| <= MAX_BODY_LENGTH
  {
    CrockfordValue(pactId);
    DigitCounts(pactId, 0);
    PadValue(Crockford(pactId), MIN_BODY_LENGTH);
  }

  lemma PadValue(s: string, width: nat)
    requires IsCrockford(s)
    ensures IsCrockford(PadStart(s, width)) && ValueOf(PadStart(s, width)) == ValueOf(s)
  {
    if |s| < width { ZerosValue(width - |s|, s); }
  }

  lemma ChecksumFacts(digest: Digest, body: string)
    ensures IsCrockford(Checksum(digest, body)) && |Checksum(digest, body)| == 2
    ensures ValueOf(Checksum(digest, body)) == digest(body) % 1024
  {
    var sum := digest(body) % 1024;
    CrockfordValue(sum);
    DigitCounts(1, sum);
    PadValue(Crockford(sum), 2);
  }

  lemma MatchedCode(body: string, sum: string)
    requires IsCrockford(body) && IsCrockford(sum) && |sum| == 2
    requires MIN_BODY_LENGTH <= |body| <= MAX_BODY_LENGTH
    ensures MatchCode(Code(body, sum)) == Some((body, sum))
  {
    var code := Code(body, sum);
    assert code[..5] == "LOCK-";
    assert code[5..|code| - 3] == body;
    assert code[|code| - 2..] == sum;
  }

  /** Every id survives the round trip. */
  lemma DecodeEncoded(digest: Digest, pactId: int)
    requires 1 <= pactId <= MAX_UINT256
    ensures EncodeInvite(digest, pactId).Ok?
    ensures DecodeInvite(digest, EncodeInvite(digest, pactId).value) == Some(pactId)
  {
    BodyFacts(pactId);
    ChecksumFacts(digest, Body(pactId));
    MatchedCode(Body(pactId), Checksum(digest, Body(pactId)));
    BoundedValueIsValue(Body(pactId));
  }

  /** A code is accepted exactly when it is the code of some id, and that id is the answer. */
  lemma DecodeIsInverse(digest: Digest, code: string, pactId: int)
    ensures pactId >= 0 && DecodeInvite(digest, code) == Some(pactId) <==> EncodeInvite(digest, pactId) == Ok(code)
  {
    if EncodeInvite(digest, pactId) == Ok(code) { DecodeEncoded(digest, pactId); }
    if DecodeInvite(digest, code).Some? {
      var (body, _) := MatchCode(code).value;
      BoundedValueIsValue(body);
    }
  }

  /** Codes exist for the positive numbers of 256 bits, and no others. */
  lemma CodedExactly(digest: Digest, pactId: int)
    ensures EncodeInvite(digest, pactId).Ok? <==> 1 <= pactId < 2 * Pow32(51)
  {
    PowersMeet();
    assert Pow32(52) == 32 * Pow32(51);
  }

  /** A code in so many words: `LOCK`, a body that denotes the id, and two digits of the body's digest. Ids below 32^4
      have four digits, padded if need be, and larger ones as many as they need. */
  lemma CodeSpelledOut(digest: Digest, pactId: int)
    requires 1 <= pactId <= MAX_UINT256
    ensures EncodeInvite(digest, pactId).Ok?
    ensures var code := EncodeInvite(digest, pactId).value;
            && |code| >= 12 && code[..5] == "LOCK-" && code[|code| - 3] == '-'
            && (var body, sum := code[5..|code| - 3], code[|code| - 2..];
                && IsCrockford(body) && ValueOf(body) == pactId
                && (if pactId < 1048576 then |body| == 4 else |body| > 4 && body[0] != '0')
                && IsCrockford(sum) && ValueOf(sum) == digest(body) % 1024)
  {
    BodyFacts(pactId);
    ChecksumFacts(digest, Body(pactId));
    CodeParts(Body(pactId), Checksum(digest, Body(pactId)));
    BodyLength(pactId);
  }

  lemma CodeParts(body: string, sum: string)
    requires |sum| == 2
    ensures var code := Code(body, sum);
            && |code| == |body| + 8 && code[..5] == "LOCK-" && code[|code| - 3] == '-'
            && code[5..|code| - 3] == body && code[|code| - 2..] == sum
  {
  }

  lemma BodyLength(pactId: nat)
    requires pactId >= 1
    ensures if pactId < 1048576 then |Body(pactId)| == 4 else |Body(pactId)| > 4 && Body(pactId)[0] != '0'
  {
    assert Pow32(4) == 1048576;
    if pactId < 1048576 {
      LengthBound(pactId, 4);
    } else {
      LengthAtLeast(pactId, 4);
      CrockfordValue(pactId);
    }
  }

  /** Two different ids never share a code. */
  lemma CodesAreDistinct(digest: Digest, a: int, b: int)
    requires EncodeInvite(digest, a).Ok? && EncodeInvite(digest, a) == EncodeInvite(digest, b)
    ensures a == b
  {
    DecodeEncoded(digest, a);
    DecodeEncoded(digest, b);
  }

  /** Zero padding is the only alias: a code with a good checksum and an in-range value is turned down
      exactly when its body has more than four digits and starts with a zero. */
  lemma PaddingIsTheOnlyAlias(digest: Digest, body: string, sum: string)
    requires IsCrockford(body) && IsCrockford(sum) && |sum| == 2
    requires MIN_BODY_LENGTH <= |body| <= MAX_BODY_LENGTH
    requires 1 <= ValueOf(body) <= MAX_UINT256 && sum == Checksum(digest, body)
    ensures DecodeInvite(digest, Code(body, sum)).None? <==> |body| > MIN_BODY_LENGTH && body[0] == '0'
  {
    MatchedCode(body, sum);
    BoundedValueIsValue(body);
    CanonicalBody(body);
    if Body(ValueOf(body)) != body && EncodeInvite(digest, ValueOf(body)) == Ok(Code(body, sum)) {
      ChecksumFacts(digest, Body(ValueOf(body)));
      SameBody(Body(ValueOf(body)), Checksum(digest, Body(ValueOf(body))), body, sum);
    }
  }

  /** A body is the one an encoder would write unless it is padded beyond four digits. */
  lemma CanonicalBody(body: string)
    requires IsCrockford(body) && |body| >= MIN_BODY_LENGTH && ValueOf(body) > 0
    ensures Body(ValueOf(body)) == body <==> !(|body| > MIN_BODY_LENGTH && body[0] == '0')
  {
    var value := ValueOf(body);
    var digits := Crockford(value);
    assert |digits| <= |body| && body == Zeros(|body| - |digits|) + digits by { StripZeros(body); }
    assert digits[0] != '0' by { CrockfordValue(value); }
    PadIsShortest(digits, body);
  }

  lemma PadIsShortest(digits: string, body: string)
    requires digits != "" && digits[0] != '0' && |digits| <= |body| && MIN_BODY_LENGTH <= |body|
    requires body == Zeros(|body| - |digits|) + digits
    ensures PadStart(digits, MIN_BODY_LENGTH) == body <==> !(|body| > MIN_BODY_LENGTH && body[0] == '0')
  {
    if |digits| < |body| { assert body[0] == Zeros(|body| - |digits|)[0]; } else { assert body == digits; }
  }

  lemma SameBody(body: string, sum: string, body': string, sum': string)
    requires Code(body, sum) == Code(body', sum') && |sum| == |sum'|
    ensures body == body'
  {
    var code := Code(body, sum);
    assert |code| == 5 + |body| + 1 + |sum| == 5 + |body'| + 1 + |sum'|;
    assert code[5..5 + |body|] == body;
    assert Code(body', sum')[5..5 + |body'|] == body';
  }

  /** A body is its own canonical numeral behind some zeros. */
  lemma {:induction false} StripZeros(body: string)
    requires IsCrockford(body) && body != "" && ValueOf(body) > 0
    ensures |Crockford(ValueOf(body))| <= |body|
    ensures body == Zeros(|body| - |Crockford(ValueOf(body))|) + Crockford(ValueOf(body))
  {
    if body[0] != '0' {
      CanonicalNumeral(body);
    } else {
      var rest := body[1..];
      assert body == Zeros(1) + rest;
      ZerosValue(1, rest);
      if rest == "" { assert false; }
      StripZeros(rest);
      var digits := Crockford(ValueOf(body));
      assert Zeros(1) + Zeros(|rest| - |digits|) == Zeros(|body| - |digits|);
    }
  }
}
