/**
 * The request handling of the verification API: the signed upload URL it
 * issues and the guard chain that checks such a URL on upload, the
 * constant-time signature comparison, the mock verification result derived
 * from the image size, and the audit read-back.
 *
 * HMAC-SHA256 is not modelled: `hmac` stands for the keyed digest of a payload
 * under the server's upload secret. Time is counted in ticks of 100 ns since
 * the Unix epoch, the unit of .NET's clock.
 */
module VerificationApi {
  import opened Wrappers
  import opened IntMath
  import opened Audit
  import Decimal

  const TicksPerSecond: int := 10_000_000
  /** `DateTimeOffset.FromUnixTimeSeconds` accepts years 0001 to 9999 only. */
  const MinUnixSeconds: int := -62_135_596_800
  const MaxUnixSeconds: int := 253_402_300_799
  const LongMin: int := -0x8000_0000_0000_0000
  const LongMax: int := 0x7FFF_FFFF_FFFF_FFFF
  /** A signed URL is valid for five minutes. */
  const UrlLifetimeSeconds: int := 5 * 60
  /** The multipart body limit configured for the form reader (50 MB). */
  const MaxMultipartBytes: int := 50 * 1024 * 1024

  // ---------------------------------------------------------------------------
  // Signatures
  // ---------------------------------------------------------------------------

  predicate IsLowerHex(c: char) { '0' <= c <= '9' || 'a' <= c <= 'f' }

  function HexDigit(v: nat): (c: char)
    requires v < 16
    ensures IsLowerHex(c) && HexValue(c) == v
  {
    "0123456789abcdef"[v]
  }

  /** The value of a lower-case hex digit. */
  function HexValue(c: char): int
  {
    if '0' <= c <= '9' then c as int - '0' as int else c as int - 'a' as int + 10
  }

  /** `Convert.ToHexString(bytes).ToLowerInvariant()`: two digits per byte, high nibble first. */
  function LowerHex(bytes: seq<bv8>): (s: string)
    ensures |s| == 2 * |bytes|
    ensures forall i :: 0 <= i < |s| ==> IsLowerHex(s[i])
  {
    if |bytes| == 0 then ""
    else [HexDigit(bytes[0] as int / 16), HexDigit(bytes[0] as int % 16)] + LowerHex(bytes[1..])
  }

  /** The byte values spelled by a string of hex digit pairs. */
  function HexBytes(s: string): (r: seq<int>)
    requires |s| % 2 == 0
    ensures |r| == |s| / 2
  {
    if |s| == 0 then [] else [16 * HexValue(s[0]) + HexValue(s[1])] + HexBytes(s[2..])
  }

  /** Reading the hex text back gives the value of every byte. */
  lemma {:induction false} HexBytesOfLowerHex(bytes: seq<bv8>)
    ensures HexBytes(LowerHex(bytes)) == seq(|bytes|, i requires 0 <= i < |bytes| => bytes[i] as int)
  {
    if |bytes| > 0 {
      HexBytesOfLowerHex(bytes[1..]);
      assert LowerHex(bytes)[2..] == LowerHex(bytes[1..]);
    }
  }

  /** Two digests have the same hex text exactly when they are the same bytes. */
  lemma LowerHexInjective(a: seq<bv8>, b: seq<bv8>)
    ensures LowerHex(a) == LowerHex(b) <==> a == b
  {
    if LowerHex(a) == LowerHex(b) {
      HexBytesOfLowerHex(a);
      HexBytesOfLowerHex(b);
      assert |a| == |b|;
      forall i | 0 <= i < |a|
        ensures a[i] == b[i]
      {
        assert HexBytes(LowerHex(a))[i] == a[i] as int;
        assert HexBytes(LowerHex(b))[i] == b[i] as int;
      }
    }
  }

  /** `Sign(payload, secret)`: the keyed digest of the payload in lower-case hex. */
  function Sign(hmac: string -> seq<bv8>, payload: string): (sig: string)
    ensures |sig| == 2 * |hmac(payload)|
    ensures forall i :: 0 <= i < |sig| ==> IsLowerHex(sig[i])
  {
    LowerHex(hmac(payload))
  }

  /** Two payloads have the same signature exactly when their digests agree. */
  lemma SameSignatureSameDigest(hmac: string -> seq<bv8>, p1: string, p2: string)
    ensures Sign(hmac, p1) == Sign(hmac, p2) <==> hmac(p1) == hmac(p2)
  {
    LowerHexInjective(hmac(p1), hmac(p2));
  }

  /** The signed text of an upload URL, `"{key}:{exp}"`. */
  function Payload(key: string, exp: int): (p: string)
    ensures |p| == |key| + 1 + |Decimal.IntToString(exp)|
    ensures p[..|key|] == key && p[|key|] == ':' && p[|key| + 1..] == Decimal.IntToString(exp)
  {
    key + ":" + Decimal.IntToString(exp)
  }

  /** C#'s `^` on non-negative integers: bitwise exclusive or. */
  function Xor(x: nat, y: nat): nat
    decreases x + y
  {
    if x == 0 then y
    else if y == 0 then x
    else 2 * Xor(x / 2, y / 2) + (if x % 2 != y % 2 then 1 else 0)
  }

  /** C#'s `|` on non-negative integers: bitwise or. */
  function Or(x: nat, y: nat): nat
    decreases x + y
  {
    if x == 0 then y
    else if y == 0 then x
    else 2 * Or(x / 2, y / 2) + (if x % 2 == 1 || y % 2 == 1 then 1 else 0)
  }

  /** Two codes differ in no bit exactly when they are equal. */
  lemma {:induction false} XorZero(x: nat, y: nat)
    ensures Xor(x, y) == 0 <==> x == y
    decreases x + y
  {
    if x != 0 && y != 0 {
      XorZero(x / 2, y / 2);
    }
  }

  lemma OrZero(x: nat, y: nat)
    ensures Or(x, y) == 0 <==> x == 0 && y == 0
  {
  }

  /**
   * The constant-time comparison: strings of different lengths differ at once;
   * otherwise the XOR of every pair of character codes is OR-ed into `diff`,
   * and the strings are equal iff `diff` stays zero.
   */
  method CryptographicEquals(a: string, b: string) returns (eq: bool)
    ensures eq <==> a == b
  {
    if |a| != |b| {
      return false;
    }
    var diff: nat := 0;
    for i := 0 to |a|
      invariant diff == 0 <==> a[..i] == b[..i]
    {
      var x := Xor(a[i] as int, b[i] as int);
      XorZero(a[i] as int, b[i] as int);
      OrZero(diff, x);
      assert a[..i + 1] == a[..i] + [a[i]] && b[..i + 1] == b[..i] + [b[i]];
      diff := Or(diff, x);
    }
    assert a[..|a|] == a && b[..|b|] == b;
    eq := diff == 0;
  }

  // ---------------------------------------------------------------------------
  // Reading `exp`
  // ---------------------------------------------------------------------------

  /** White space that .NET's integer parsing skips before and after the number. */
  predicate IsDotnetWhite(c: char) { c == ' ' || '\U{9}' <= c <= '\U{D}' }

  predicate AllDotnetWhite(s: string) { forall i :: 0 <= i < |s| ==> IsDotnetWhite(s[i]) }

  function DropLeadingWhite(s: string): (r: string)
    ensures |r| <= |s| && r == s[|s| - |r|..] && AllDotnetWhite(s[..|s| - |r|])
    ensures |r| > 0 ==> !IsDotnetWhite(r[0])
  {
    if |s| > 0 && IsDotnetWhite(s[0]) then DropLeadingWhite(s[1..]) else s
  }

  function DropTrailingWhite(s: string): (r: string)
    ensures |r| <= |s| && r == s[..|r|] && AllDotnetWhite(s[|r|..])
    ensures |r| > 0 ==> !IsDotnetWhite(r[|r| - 1])
  {
    if |s| > 0 && IsDotnetWhite(s[|s| - 1]) then DropTrailingWhite(s[..|s| - 1]) else s
  }

  /**
   * `long.TryParse(s, out v)`: optional white space around an optional sign
   * and at least one decimal digit, within the range of a 64-bit integer.
   */
  function ParseLong(s: string): (r: Option<int>)
    ensures r.Some? ==> LongMin <= r.value <= LongMax
  {
    ParseSigned(DropTrailingWhite(DropLeadingWhite(s)))
  }

  /** An optional sign and the digits after it. */
  function ParseSigned(t: string): (r: Option<int>)
    ensures r.Some? ==> LongMin <= r.value <= LongMax
  {
    if |t| > 0 && t[0] == '-' then
      match ParseDigits(t[1..])
      case Some(d) => if d <= -LongMin then Some(-(d as int)) else None
      case None => None
    else
      var digits := if |t| > 0 && t[0] == '+' then t[1..] else t;
      match ParseDigits(digits)
      case Some(d) => if d <= LongMax then Some(d) else None
      case None => None
  }

  /** A non-empty run of decimal digits, read as its value. */
  function ParseDigits(digits: string): (r: Option<nat>)
    ensures r.Some? <==> |digits| > 0 && Decimal.AllDigits(digits)
  {
    if |digits| == 0 || !Decimal.AllDigits(digits) then None else Some(Decimal.DigitsValue(digits))
  }

  predicate IsSign(sign: string) { sign == "" || sign == "+" || sign == "-" }

  /** The value of `digits` under an optional sign. */
  function SignedValue(sign: string, digits: string): int
    requires Decimal.AllDigits(digits)
  {
    if sign == "-" then -(Decimal.DigitsValue(digits) as int) else Decimal.DigitsValue(digits)
  }

  /** `s` is white space `lead`, an optional `sign`, one or more `digits` and white space `trail`. */
  predicate LongTextParts(s: string, lead: string, sign: string, digits: string, trail: string)
  {
    && AllDotnetWhite(lead) && IsSign(sign) && |digits| > 0 && Decimal.AllDigits(digits) && AllDotnetWhite(trail)
    && s == lead + sign + digits + trail
  }

  lemma {:induction false} DropLeadingWhiteOf(lead: string, rest: string)
    requires AllDotnetWhite(lead) && (|rest| == 0 || !IsDotnetWhite(rest[0]))
    ensures DropLeadingWhite(lead + rest) == rest
    decreases |lead|
  {
    if |lead| > 0 {
      assert (lead + rest)[1..] == lead[1..] + rest;
      DropLeadingWhiteOf(lead[1..], rest);
    } else {
      assert lead + rest == rest;
    }
  }

  lemma {:induction false} DropTrailingWhiteOf(rest: string, trail: string)
    requires AllDotnetWhite(trail) && (|rest| == 0 || !IsDotnetWhite(rest[|rest| - 1]))
    ensures DropTrailingWhite(rest + trail) == rest
    decreases |trail|
  {
    var s := rest + trail;
    if |trail| > 0 {
      assert s[..|s| - 1] == rest + trail[..|trail| - 1];
      DropTrailingWhiteOf(rest, trail[..|trail| - 1]);
    } else {
      assert s == rest;
    }
  }

  /** A sign followed by digits reads as their signed value, when it fits 64 bits. */
  lemma ParseSignedOfParts(sign: string, digits: string)
    requires IsSign(sign) && |digits| > 0 && Decimal.AllDigits(digits)
    ensures ParseSigned(sign + digits) ==
      if LongMin <= SignedValue(sign, digits) <= LongMax then Some(SignedValue(sign, digits)) else None
  {
    var t := sign + digits;
    if sign == "" {
      assert t == digits;
      assert Decimal.IsDigit(digits[0]);
    } else {
      assert t[0] == sign[0];
      assert t[1..] == digits;
    }
  }

  /** Whatever ParseSigned reads is a sign followed by digits, read as their signed value. */
  lemma SignedParts(t: string) returns (sign: string, digits: string)
    requires ParseSigned(t).Some?
    ensures IsSign(sign) && |digits| > 0 && Decimal.AllDigits(digits) && t == sign + digits
    ensures ParseSigned(t).value == SignedValue(sign, digits)
  {
    sign := if t[0] == '-' || t[0] == '+' then t[..1] else "";
    digits := t[|sign|..];
    assert t == sign + digits;
  }

  lemma ConcatFour(w: string, x: string, y: string, z: string)
    ensures w + (x + y + z) == w + x + y + z
  {
  }

  /**
   * Every text of the accepted shape parses, to its signed value, whenever
   * that value fits 64 bits.
   */
  lemma ParseLongAcceptsLongText(s: string, lead: string, sign: string, digits: string, trail: string)
    requires LongTextParts(s, lead, sign, digits, trail)
    ensures ParseLong(s) ==
      if LongMin <= SignedValue(sign, digits) <= LongMax then Some(SignedValue(sign, digits)) else None
  {
    var core := sign + digits;
    assert core[|core| - 1] == digits[|digits| - 1];
    assert Decimal.IsDigit(digits[|digits| - 1]);
    assert core[0] == (if sign == "" then digits[0] else sign[0]);
    assert Decimal.IsDigit(digits[0]);
    assert s == lead + (core + trail);
    assert (core + trail)[0] == core[0];
    DropLeadingWhiteOf(lead, core + trail);
    DropTrailingWhiteOf(core, trail);
    assert DropTrailingWhite(DropLeadingWhite(s)) == core;
    ParseSignedOfParts(sign, digits);
  }

  /** A text is its leading white space, what ParseSigned reads, and its trailing white space. */
  lemma WhiteSplit(s: string) returns (lead: string, t: string, trail: string)
    ensures AllDotnetWhite(lead) && AllDotnetWhite(trail)
    ensures t == DropTrailingWhite(DropLeadingWhite(s)) && s == lead + (t + trail)
  {
    var a := DropLeadingWhite(s);
    t := DropTrailingWhite(a);
    lead, trail := s[..|s| - |a|], a[|t|..];
    SplitAt(a, |t|);
    SplitAt(s, |s| - |a|);
  }

  lemma SplitAt(s: string, k: nat)
    requires k <= |s|
    ensures s == s[..k] + s[k..]
  {
  }

  /** Only texts of the accepted shape parse, and they parse to their signed value. */
  lemma ParseLongReadsOnlyLongText(s: string)
    requires ParseLong(s).Some?
    ensures exists lead, sign, digits, trail ::
      LongTextParts(s, lead, sign, digits, trail) && ParseLong(s).value == SignedValue(sign, digits)
  {
    var lead, t, trail := WhiteSplit(s);
    var sign, digits := SignedParts(t);
    ConcatFour(lead, sign, digits, trail);
    assert LongTextParts(s, lead, sign, digits, trail);
  }

  /** White space is dropped only from the ends; text without it at either end is kept whole. */
  lemma DropWhiteOfUnpadded(s: string)
    requires |s| > 0 && !IsDotnetWhite(s[0]) && !IsDotnetWhite(s[|s| - 1])
    ensures DropTrailingWhite(DropLeadingWhite(s)) == s
  {
  }

  /** An unsigned run of digits reads as its value. */
  lemma ParseLongOfDigits(digits: string)
    requires |digits| > 0 && Decimal.AllDigits(digits) && Decimal.DigitsValue(digits) <= LongMax
    ensures ParseLong(digits) == Some(Decimal.DigitsValue(digits))
  {
    DropWhiteOfUnpadded(digits);
  }

  /** A minus sign before a run of digits negates its value. */
  lemma ParseLongOfNegated(digits: string)
    requires |digits| > 0 && Decimal.AllDigits(digits) && Decimal.DigitsValue(digits) <= -LongMin
    ensures ParseLong("-" + digits) == Some(-(Decimal.DigitsValue(digits) as int))
  {
    var s := "-" + digits;
    assert s[0] == '-' && s[1..] == digits;
    assert ParseSigned(s) == Some(-(Decimal.DigitsValue(digits) as int));
    assert !IsDotnetWhite(s[|s| - 1]) by {
      assert s[|s| - 1] == digits[|digits| - 1];
      assert Decimal.IsDigit(digits[|digits| - 1]);
    }
    DropWhiteOfUnpadded(s);
  }

  /** Parsing back the decimal text of a 64-bit integer gives the integer. */
  lemma ParseLongOfIntToString(n: int)
    requires LongMin <= n <= LongMax
    ensures ParseLong(Decimal.IntToString(n)) == Some(n)
  {
    if n < 0 {
      var digits := Decimal.NatToString(-n);
      assert Decimal.IntToString(n) == "-" + digits;
      Decimal.DigitsValueOfNatToString(-n);
      ParseLongOfNegated(digits);
    } else {
      var digits := Decimal.NatToString(n);
      assert Decimal.IntToString(n) == digits;
      Decimal.DigitsValueOfNatToString(n);
      ParseLongOfDigits(digits);
    }
  }

  // ---------------------------------------------------------------------------
  // PUT /api/upload and GET /api/upload-url
  // ---------------------------------------------------------------------------

  datatype UploadStatus =
    | MissingParams     // 400 "Missing signed parameters"
    | InvalidExp        // 400 "Invalid exp"
    | ExpOutOfRange     // 500: FromUnixTimeSeconds throws
    | Expired           // 410 Gone
    | BadSignature      // 401 Unauthorized
    | Accepted          // 200, the body is read but not kept

  function StatusCode(s: UploadStatus): int
  {
    match s
    case MissingParams => 400
    case InvalidExp => 400
    case ExpOutOfRange => 500
    case Expired => 410
    case BadSignature => 401
    case Accepted => 200
  }

  /**
   * The guard chain of `PUT /api/upload` on the query values `key`, `exp` and
   * `sig` at time `nowTicks`, in its order: missing values, an unreadable
   * `exp`, an expired `exp` (whatever the signature), then the signature of
   * `"{key}:{exp}"` with `exp` as parsed.
   */
  function UploadVerdict(key: string, expStr: string, sig: string, nowTicks: int,
                         hmac: string -> seq<bv8>): (v: UploadStatus)
    ensures v == MissingParams <==> key == "" || expStr == "" || sig == ""
    ensures v == InvalidExp <==> key != "" && expStr != "" && sig != "" && ParseLong(expStr).None?
    ensures v == ExpOutOfRange <==>
      && key != "" && expStr != "" && sig != "" && ParseLong(expStr).Some?
      && !(MinUnixSeconds <= ParseLong(expStr).value <= MaxUnixSeconds)
    ensures v == Expired <==>
      && key != "" && expStr != "" && sig != "" && ParseLong(expStr).Some?
      && MinUnixSeconds <= ParseLong(expStr).value <= MaxUnixSeconds
      && ParseLong(expStr).value * TicksPerSecond < nowTicks
    ensures v == Accepted <==>
      && key != "" && expStr != "" && sig != "" && ParseLong(expStr).Some?
      && MinUnixSeconds <= ParseLong(expStr).value <= MaxUnixSeconds
      && nowTicks <= ParseLong(expStr).value * TicksPerSecond
      && sig == Sign(hmac, Payload(key, ParseLong(expStr).value))
    ensures v == BadSignature <==>
      && key != "" && expStr != "" && sig != "" && ParseLong(expStr).Some?
      && MinUnixSeconds <= ParseLong(expStr).value <= MaxUnixSeconds
      && nowTicks <= ParseLong(expStr).value * TicksPerSecond
      && sig != Sign(hmac, Payload(key, ParseLong(expStr).value))
  {
    if key == "" || expStr == "" || sig == "" then MissingParams
    else match ParseLong(expStr)
      case None => InvalidExp
      case Some(exp) =>
        if exp < MinUnixSeconds || exp > MaxUnixSeconds then ExpOutOfRange
        else if exp * TicksPerSecond < nowTicks then Expired
        else if Sign(hmac, Payload(key, exp)) != sig then BadSignature
        else Accepted
  }

  /** An expired URL is refused as expired whatever its signature. */
  lemma ExpiredWhateverSignature(key: string, expStr: string, sig: string, forged: string,
                                 nowTicks: int, hmac: string -> seq<bv8>)
    requires UploadVerdict(key, expStr, sig, nowTicks, hmac) == Expired && forged != ""
    ensures UploadVerdict(key, expStr, forged, nowTicks, hmac) == Expired
  {
  }

  /**
   * The upload handler: the guard chain with the signature compared in
   * constant time, and on success the number of body bytes received.
   */
  method HandleUpload(key: string, expStr: string, sig: string, nowTicks: int,
                      hmac: string -> seq<bv8>, body: seq<bv8>)
    returns (status: UploadStatus, bytes: Option<nat>)
    ensures status == UploadVerdict(key, expStr, sig, nowTicks, hmac)
    ensures bytes.Some? <==> status == Accepted
    ensures bytes.Some? ==> bytes.value == |body|
  {
    bytes := None;
    if key == "" || expStr == "" || sig == "" {
      return MissingParams, None;
    }
    var parsed := ParseLong(expStr);
    if parsed.None? {
      return InvalidExp, None;
    }
    var exp := parsed.value;
    if exp < MinUnixSeconds || exp > MaxUnixSeconds {
      return ExpOutOfRange, None;
    }
    if exp * TicksPerSecond < nowTicks {
      return Expired, None;
    }
    var expected := Sign(hmac, Payload(key, exp));
    var same := CryptographicEquals(expected, sig);
    if !same {
      return BadSignature, None;
    }
    status, bytes := Accepted, Some(|body|);
  }

  datatype SignedUrl = SignedUrl(url: string, key: string, expiresAt: int, sig: string)

  /** `DateTimeOffset.ToUnixTimeSeconds`: whole seconds, rounded down. */
  function UnixSeconds(ticks: int): int
  {
    ticks / TicksPerSecond
  }

  /**
   * `GET /api/upload-url`: `key` (a fresh identifier) expires five minutes
   * after `nowTicks`; the URL carries the key, the expiry and the signature of
   * `"{key}:{exp}"`.
   */
  function IssueUploadUrl(scheme: string, host: string, key: string, nowTicks: int,
                          hmac: string -> seq<bv8>): (u: SignedUrl)
    ensures u.key == key && u.sig == Sign(hmac, Payload(key, u.expiresAt))
    ensures u.url == scheme + "://" + host + "/api/upload?key=" + u.key
      + "&exp=" + Decimal.IntToString(u.expiresAt) + "&sig=" + u.sig
    ensures u.expiresAt * TicksPerSecond <= nowTicks + UrlLifetimeSeconds * TicksPerSecond
      < (u.expiresAt + 1) * TicksPerSecond
  {
    var exp := UnixSeconds(nowTicks + UrlLifetimeSeconds * TicksPerSecond);
    var sig := Sign(hmac, Payload(key, exp));
    SignedUrl(scheme + "://" + host + "/api/upload?key=" + key + "&exp=" + Decimal.IntToString(exp) + "&sig=" + sig,
              key, exp, sig)
  }

  /**
   * Issue and upload agree: the key, expiry text and signature of an issued
   * URL pass every guard until its expiry second, because both sides sign
   * the same `"{key}:{exp}"`.
   */
  lemma IssuedUrlIsAccepted(scheme: string, host: string, key: string, issuedTicks: int, nowTicks: int,
                            hmac: string -> seq<bv8>)
    requires key != ""
    requires MinUnixSeconds * TicksPerSecond <= issuedTicks <= (MaxUnixSeconds - UrlLifetimeSeconds) * TicksPerSecond
    requires nowTicks <= IssueUploadUrl(scheme, host, key, issuedTicks, hmac).expiresAt * TicksPerSecond
    requires |hmac(Payload(key, IssueUploadUrl(scheme, host, key, issuedTicks, hmac).expiresAt))| > 0
    ensures var u := IssueUploadUrl(scheme, host, key, issuedTicks, hmac);
      UploadVerdict(u.key, Decimal.IntToString(u.expiresAt), u.sig, nowTicks, hmac) == Accepted
  {
    var u := IssueUploadUrl(scheme, host, key, issuedTicks, hmac);
    ParseLongOfIntToString(u.expiresAt);
  }

  /** Once its expiry second has passed, an issued URL is refused as expired. */
  lemma IssuedUrlExpires(scheme: string, host: string, key: string, issuedTicks: int, nowTicks: int,
                         hmac: string -> seq<bv8>)
    requires key != ""
    requires MinUnixSeconds * TicksPerSecond <= issuedTicks <= (MaxUnixSeconds - UrlLifetimeSeconds) * TicksPerSecond
    requires nowTicks > IssueUploadUrl(scheme, host, key, issuedTicks, hmac).expiresAt * TicksPerSecond
    requires |hmac(Payload(key, IssueUploadUrl(scheme, host, key, issuedTicks, hmac).expiresAt))| > 0
    ensures var u := IssueUploadUrl(scheme, host, key, issuedTicks, hmac);
      UploadVerdict(u.key, Decimal.IntToString(u.expiresAt), u.sig, nowTicks, hmac) == Expired
  {
    var u := IssueUploadUrl(scheme, host, key, issuedTicks, hmac);
    ParseLongOfIntToString(u.expiresAt);
  }

  /**
   * The payload fixes both the key and the expiry: the decimal expiry holds no
   * colon, so the last colon of `"{key}:{exp}"` separates the two.
   */
  lemma {:induction false} PayloadInjective(k1: string, e1: int, k2: string, e2: int)
    requires LongMin <= e1 <= LongMax && LongMin <= e2 <= LongMax
    requires Payload(k1, e1) == Payload(k2, e2)
    ensures k1 == k2 && e1 == e2
  {
    var s1, s2 := Decimal.IntToString(e1), Decimal.IntToString(e2);
    var p := Payload(k1, e1);
    NoColonInIntToString(e1);
    NoColonInIntToString(e2);
    LastColonBeforeTail(k1, s1);
    LastColonBeforeTail(k2, s2);
    assert s1 == p[|p| - |s1|..] == s2;
    assert k1 == p[..|k1|] == k2;
    ParseLongOfIntToString(e1);
    ParseLongOfIntToString(e2);
  }

  /** Position of the last colon in `p`, or -1 when there is none. */
  function LastColon(p: string): (j: int)
    ensures -1 <= j < |p| && (j >= 0 ==> p[j] == ':')
  {
    if |p| == 0 then -1
    else if p[|p| - 1] == ':' then |p| - 1
    else LastColon(p[..|p| - 1])
  }

  /** Behind a colon-free tail, the last colon is the one after `k`. */
  lemma {:induction false} LastColonBeforeTail(k: string, s: string)
    requires forall i :: 0 <= i < |s| ==> s[i] != ':'
    ensures LastColon(k + ":" + s) == |k|
    decreases |s|
  {
    var p := k + ":" + s;
    if |s| > 0 {
      assert p[|p| - 1] == s[|s| - 1];
      assert p[..|p| - 1] == k + ":" + s[..|s| - 1];
      LastColonBeforeTail(k, s[..|s| - 1]);
    }
  }

  lemma NoColonInIntToString(n: int)
    ensures forall i :: 0 <= i < |Decimal.IntToString(n)| ==> Decimal.IntToString(n)[i] != ':'
  {
    var m := if n < 0 then -n else n;
    var digits := Decimal.NatToString(m);
    assert Decimal.IntToString(n) == (if n < 0 then "-" else "") + digits;
  }

  // ---------------------------------------------------------------------------
  // POST /api/verify (mock)
  // ---------------------------------------------------------------------------

  /** An unchecked `(int)` cast of a 64-bit value: the low 32 bits, read as signed. */
  function ToInt32(x: int): (r: int)
    ensures -0x8000_0000 <= r < 0x8000_0000
    ensures -0x8000_0000 <= x < 0x8000_0000 ==> r == x
  {
    (x + 0x8000_0000) % 0x1_0000_0000 - 0x8000_0000
  }

  /** C#'s `%`: the remainder takes the sign of the dividend. */
  function CsRem(a: int, b: int): (r: int)
    requires b > 0
    ensures a >= 0 ==> 0 <= r < b && r == a % b
    ensures a < 0 ==> -b < r <= 0
  {
    if a >= 0 then a % b else -((-a) % b)
  }

  /** `(int)(file.Length / 1024)`. */
  function SizeKb(length: nat): (kb: int)
    ensures -0x8000_0000 <= kb < 0x8000_0000
    ensures length / 1024 < 0x8000_0000 ==> kb == length / 1024
  {
    ToInt32(length / 1024)
  }

  datatype MockResult = MockResult(
    documentType: string, country: string,
    firstName: string, lastName: string, dateOfBirth: string, expires: string, documentNumber: string,
    glareDetected: bool, isScreenshotSuspected: bool, frameQuality: string,
    confidencePercent: int)

  function DocumentNumberValue(sizeKb: int): int
  {
    100000 + CsRem(sizeKb, 900000)
  }

  /** The mock recognition result, derived from the image size in KiB only. */
  function Mock(sizeKb: int): (m: MockResult)
    ensures m.documentType == "ID" && m.country == "RS"
    ensures m.documentNumber == "RS-" + Decimal.IntToString(DocumentNumberValue(sizeKb))
    ensures 78 <= m.confidencePercent <= 95
    ensures m.frameQuality == "medium" || m.frameQuality == "good"
  {
    MockResult(
      "ID", "RS", "Miljan", "Jankovi\U{107}", "1990-06-12", "2030-06-12",
      "RS-" + Decimal.IntToString(DocumentNumberValue(sizeKb)),
      CsRem(sizeKb, 3) == 0, CsRem(sizeKb, 7) == 0,
      if CsRem(sizeKb, 5) == 0 then "medium" else "good",
      Clamp(78 + CsRem(sizeKb, 11), 78, 95))
  }

  /** Uploads the form reader accepts have a size in KiB that fits an `int` unchanged. */
  lemma SizeKbOfAcceptedUpload(length: nat)
    requires length <= MaxMultipartBytes
    ensures SizeKb(length) == length / 1024 && 0 <= SizeKb(length) <= 51200
  {
  }

  /**
   * For a non-negative size the mock document number has exactly six digits,
   * glare, screenshot and medium quality follow divisibility by 3, 7 and 5,
   * and the confidence stays within 0.78 to 0.88.
   */
  lemma MockFields(sizeKb: int)
    requires sizeKb >= 0
    ensures var m := Mock(sizeKb);
      && 100000 <= DocumentNumberValue(sizeKb) <= 999999
      && |m.documentNumber| == 9 && m.documentNumber[..3] == "RS-"
      && (m.glareDetected <==> sizeKb % 3 == 0)
      && (m.isScreenshotSuspected <==> sizeKb % 7 == 0)
      && (m.frameQuality == "medium" <==> sizeKb % 5 == 0)
      && m.confidencePercent == 78 + sizeKb % 11
      && 78 <= m.confidencePercent <= 88
  {
    var v := DocumentNumberValue(sizeKb);
    assert Decimal.Pow10(6) == 1000000 && Decimal.Pow10(5) == 100000;
    Decimal.NatToStringLength(v, 6);
  }

  datatype VerifyResponse = VerifyBadRequest(error: string) | VerifyOk(result: MockResult)

  /**
   * `POST /api/verify`: refuse a request without form content or without a
   * non-empty `image` file; otherwise answer with the mock result and audit
   * the verification under its document number. `image` is the length of the
   * uploaded file, absent when there is none.
   */
  method HandleVerify(hasFormContent: bool, image: Option<nat>, audit: InMemoryAuditLog,
                      eventId: string, nowTicks: int, user: Option<string>)
    returns (resp: VerifyResponse)
    modifies audit
    ensures !hasFormContent ==>
      resp == VerifyBadRequest("Expected multipart/form-data") && audit.events == old(audit.events)
    ensures hasFormContent && (image.None? || image.value == 0) ==>
      resp == VerifyBadRequest("Missing image file (field name 'image')") && audit.events == old(audit.events)
    ensures hasFormContent && image.Some? && image.value > 0 ==>
      && resp == VerifyOk(Mock(SizeKb(image.value)))
      && audit.events == Retained(old(audit.events),
           AuditEvent(eventId, nowTicks, if user.Some? then user.value else "unknown", "Verify",
                      Some("doc=" + resp.result.documentNumber), Some(0.0)))
  {
    if !hasFormContent {
      return VerifyBadRequest("Expected multipart/form-data");
    }
    if image.None? || image.value == 0 {
      return VerifyBadRequest("Missing image file (field name 'image')");
    }
    var result := Mock(SizeKb(image.value));
    var actor := if user.Some? then user.value else "unknown";
    audit.Write(AuditEvent(eventId, nowTicks, actor, "Verify", Some("doc=" + result.documentNumber), Some(0.0)));
    resp := VerifyOk(result);
  }

  // ---------------------------------------------------------------------------
  // GET /api/audit
  // ---------------------------------------------------------------------------

  /**
   * `GET /api/audit?take=n`: the log's size and its newest entries, newest
   * first, with `n` clamped to 1..500.
   */
  method HandleAudit(audit: InMemoryAuditLog, take: int) returns (count: int, items: seq<AuditEvent>)
    ensures count == |audit.events|
    ensures |items| == Min(Clamp(take, 1, 500), count)
    ensures 1 <= take <= 500 ==> |items| == Min(take, count)
    ensures |items| <= 500 && (count > 0 ==> |items| >= 1)
    ensures forall i :: 0 <= i < |items| ==> items[i] == audit.events[count - 1 - i]
  {
    count := audit.Count();
    items := audit.Read(Clamp(take, 1, 500));
  }
}
