/**
 * app/totp.js: the seed's keying material, and time-stepped codes
 * (RFC 6238 over RFC 4226) generated and checked against it.
 *
 * HMAC-SHA1 and the dynamic truncation of section 5.3 of RFC 4226 are not
 * modelled: they are the injected `Hotp`, which yields the truncated
 * 31-bit value for a key and a counter. The key is the keying-material
 * text itself, as app/totp.js hands it to the library. The wall clock is
 * the injected `now`, in Unix seconds.
 */
module Totp {

  import opened Wrappers
  import opened JsText
  import Hex
  import Base32

  datatype HashAlgorithm = Sha1 | Sha256 | Sha512

  datatype TotpOptions = TotpOptions(step: nat, digits: nat, algorithm: HashAlgorithm)

  /** The options app/totp.js fixes for every code: 30-second steps, 6 digits, HMAC-SHA1. */
  const Options := TotpOptions(30, 6, Sha1)

  const Step: nat := Options.step

  const Digits: nat := Options.digits

  /** Every code is made and checked with 30-second steps, 6 digits and HMAC-SHA1. */
  lemma ConfiguredOptions()
    ensures Step == 30 && Digits == 6 && Options.algorithm == Sha1
    ensures Pow10(Digits) == 1000000
  {
  }

  const MissingHexSeed := "Missing hex seed"

  /** HMAC over the counter keyed by the key text, then dynamic truncation. */
  type Hotp = (string, int) -> nat

  /**
   * `hexToBase32`: a missing, non-string (None) or empty seed is refused
   * before any decoding; otherwise the seed's bytes, base32-encoded, with
   * the trailing `=` stripped, so the result uses only the base32 alphabet
   * and never ends in `=` (KeyingMaterialRoundTrip gives the bytes back).
   */
  function HexToBase32(hexSeed: Option<string>): (r: Result<string, string>)
    ensures r.Failure? <==> hexSeed.None? || hexSeed.value == ""
    ensures r.Failure? ==> r.error == MissingHexSeed
    ensures r.Success? ==> Base32.AllSymbols(r.value) && (r.value == [] || r.value[|r.value| - 1] != Base32.Pad)
  {
    if hexSeed.None? || hexSeed.value == "" then Failure(MissingHexSeed)
    else Success(Base32.Unpadded(Hex.DecodeHex(hexSeed.value)))
  }

  /** Re-padding the keying material and base32-decoding it gives back the bytes of the hex seed. */
  lemma KeyingMaterialRoundTrip(hexSeed: string)
    requires hexSeed != ""
    ensures Base32.Decode(Base32.Repad(HexToBase32(Some(hexSeed)).value)) == Some(Hex.DecodeHex(hexSeed))
  {
    Base32.UnpaddedRoundTrip(Hex.DecodeHex(hexSeed));
  }

  /**
   * A seed that passes the gate has 52 characters of keying material
   * (56 padded, less 4 `=`), and is never refused.
   */
  lemma SeedKeyingMaterialLength(seed: string)
    requires Hex.IsSeedFormat(seed)
    ensures HexToBase32(Some(seed)).Success?
    ensures |HexToBase32(Some(seed)).value| == 52
  {
    Hex.SeedDecodesTo32Bytes(seed);
    Base32.UnpaddedRoundTrip(Hex.DecodeHex(seed));
  }

  /**
   * Two gated seeds give the same keying material exactly when they spell
   * the same hex digits up to case: upper- and lower-case spellings agree,
   * and distinct seeds never collide.
   */
  lemma KeyingMaterialIffSameSeed(s: string, t: string)
    requires Hex.IsSeedFormat(s) && Hex.IsSeedFormat(t)
    ensures HexToBase32(Some(s)) == HexToBase32(Some(t)) <==> Hex.SameIgnoringCase(s, t)
  {
    Hex.SeedBytesIffSameIgnoringCase(s, t);
    Base32.UnpaddedInjective(Hex.DecodeHex(s), Hex.DecodeHex(t));
  }

  /** The time-step counter `floor(now / 30)`: the window that contains `now`. */
  function Counter(now: int): (t: int)
    ensures Step * t <= now < Step * t + Step
  {
    now / Step
  }

  /** JavaScript's `%` on integers: the remainder takes the sign of the dividend. */
  function JsRemainder(a: int, b: int): (r: int)
    requires b > 0
    ensures a >= 0 ==> r == a % b
    ensures a < 0 ==> -b < r <= 0 && a == b * -((-a) / b) + r
  {
    if a >= 0 then a % b else -((-a) % b)
  }

  /**
   * `valid_for = 30 - now % 30`: from a clock at or after the epoch, the
   * seconds left until the next window starts, between 1 and 30, and 30
   * exactly on a window boundary.
   */
  function ValidFor(now: int): (v: int)
    ensures now >= 0 ==> v == Step * (Counter(now) + 1) - now
    ensures now >= 0 ==> 1 <= v <= Step
    ensures now >= 0 ==> (v == Step <==> now % Step == 0)
  {
    Step - JsRemainder(now, Step)
  }

  /** A code: exactly 6 decimal digits. */
  predicate IsCode(s: string) {
    |s| == Digits && AllDigits(s)
  }

  /**
   * A code sent as a JSON number is spelt by `String` without leading zeros,
   * so it has the 6 characters of a code only from 100000 to 999999: a code
   * such as "012345" can never be matched by the number 12345.
   */
  lemma NumberCodeSpelling(n: nat)
    ensures IsCode(ToJsString(Number(n))) <==> 100000 <= n < 1000000
  {
    assert Pow10(5) == 100000 && Pow10(6) == 1000000 && Pow10(7) == 10000000;
    DecimalLength(n, 5);
    DecimalLength(n, 6);
    DecimalLength(n, 7);
  }

  /** `Snum mod 10^6`, zero-padded to 6 digits: a code whose value is that remainder. */
  function FormatCode(snum: nat): (code: string)
    ensures IsCode(code)
    ensures DecimalValue(code) == snum % Pow10(Digits)
  {
    var m := snum % Pow10(Digits);
    PaddedDecimal(m, Digits);
    PadStart(NatToDecimal(m), Digits, '0')
  }

  /** The code of the window numbered `counter` under `key`. */
  function CodeAt(hotp: Hotp, key: string, counter: int): (code: string)
    ensures IsCode(code)
  {
    FormatCode(hotp(key, counter))
  }

  datatype Generated = Generated(code: string, validFor: int)

  /**
   * `generateTotp`: refused like `hexToBase32` for an empty seed; otherwise
   * the 6-digit code of the window containing `now` under the seed's keying
   * material, with the seconds that window has left.
   */
  function GenerateTotp(hexSeed: string, now: int, hotp: Hotp): (r: Result<Generated, string>)
    ensures r.Failure? <==> hexSeed == ""
    ensures r.Failure? ==> r.error == MissingHexSeed
    ensures r.Success? ==> IsCode(r.value.code)
    ensures r.Success? ==> r.value.code == CodeAt(hotp, HexToBase32(Some(hexSeed)).value, Counter(now))
    ensures r.Success? ==> r.value.validFor == ValidFor(now)
    ensures r.Success? && now >= 0 ==> 1 <= r.value.validFor <= Step
  {
    match HexToBase32(Some(hexSeed))
    case Failure(e) => Failure(e)
    case Success(key) =>
      Success(Generated(CodeAt(hotp, key, Counter(now)), ValidFor(now)))
  }

  /** `code` is the code of some time step from `lo` to `hi`, both included. */
  predicate IssuedWithin(hotp: Hotp, key: string, code: string, lo: int, hi: int) {
    exists c :: lo <= c <= hi && code == CodeAt(hotp, key, c)
  }

  /** Whether `code` is the code of one of the `n` windows from `lo` on, tried in order. */
  function MatchesAny(hotp: Hotp, key: string, code: string, lo: int, n: nat): (b: bool)
    ensures b <==> IssuedWithin(hotp, key, code, lo, lo + n - 1)
    decreases n
  {
    if n == 0 then false
    else
      IssuedWithinSplit(hotp, key, code, lo, lo + n - 1);
      code == CodeAt(hotp, key, lo) || MatchesAny(hotp, key, code, lo + 1, n - 1)
  }

  /** A non-empty range of steps is its first step and the rest. */
  lemma IssuedWithinSplit(hotp: Hotp, key: string, code: string, lo: int, hi: int)
    requires lo <= hi
    ensures IssuedWithin(hotp, key, code, lo, hi)
            <==> code == CodeAt(hotp, key, lo) || IssuedWithin(hotp, key, code, lo + 1, hi)
  {
    if IssuedWithin(hotp, key, code, lo, hi) {
      var c :| lo <= c <= hi && code == CodeAt(hotp, key, c);
      if c != lo {
        assert lo + 1 <= c <= hi;
      }
    }
  }

  /**
   * `verifyTotp`, as section 5.2 of RFC 6238 describes checking with a
   * tolerance: `code` is accepted exactly when it is the code of some window
   * in `[T - window, T + window]` around the current window `T`. A mismatch
   * is a normal `false`, never an error.
   */
  function VerifyTotp(hexSeed: string, code: string, window: nat, now: int, hotp: Hotp): (r: Result<bool, string>)
    ensures r.Failure? <==> hexSeed == ""
    ensures r.Failure? ==> r.error == MissingHexSeed
    ensures r.Success? ==>
              (r.value <==> IssuedWithin(hotp, HexToBase32(Some(hexSeed)).value, code,
                                         Counter(now) - window, Counter(now) + window))
  {
    match HexToBase32(Some(hexSeed))
    case Failure(e) => Failure(e)
    case Success(key) =>
      Success(MatchesAny(hotp, key, code, Counter(now) - window, 2 * window + 1))
  }

  /** Widening the window never rejects a code that was accepted. */
  lemma VerifyMonotoneInWindow(hexSeed: string, code: string, w: nat, w': nat, now: int, hotp: Hotp)
    requires w <= w'
    requires VerifyTotp(hexSeed, code, w, now, hotp) == Success(true)
    ensures VerifyTotp(hexSeed, code, w', now, hotp) == Success(true)
  {
    var key := HexToBase32(Some(hexSeed)).value;
    var t := Counter(now);
    IssuedWithinWiden(hotp, key, code, t - w, t + w, t - w', t + w');
  }

  /** A code issued within a range of steps is issued within any range around it. */
  lemma IssuedWithinWiden(hotp: Hotp, key: string, code: string, lo: int, hi: int, lo': int, hi': int)
    requires lo' <= lo && hi <= hi'
    requires IssuedWithin(hotp, key, code, lo, hi)
    ensures IssuedWithin(hotp, key, code, lo', hi')
  {
    var c :| lo <= c <= hi && code == CodeAt(hotp, key, c);
    assert lo' <= c <= hi';
  }

  /** With no tolerance only the current window's code is accepted. */
  lemma VerifyWindowZero(hexSeed: string, code: string, now: int, hotp: Hotp)
    requires hexSeed != ""
    ensures VerifyTotp(hexSeed, code, 0, now, hotp)
            == Success(code == CodeAt(hotp, HexToBase32(Some(hexSeed)).value, Counter(now)))
  {
  }

  /**
   * A code generated at `t` is accepted, with any tolerance `w`, at every
   * time `t'` whose window is at most `w` windows away; in particular at
   * `t` itself, and with `w = 0` throughout the window of `t`.
   */
  lemma GeneratedCodeVerifies(hexSeed: string, t: int, t': int, w: nat, hotp: Hotp)
    requires hexSeed != ""
    requires Counter(t) - w <= Counter(t') <= Counter(t) + w
    ensures VerifyTotp(hexSeed, GenerateTotp(hexSeed, t, hotp).value.code, w, t', hotp) == Success(true)
  {
    var key := HexToBase32(Some(hexSeed)).value;
    var c := Counter(t);
    assert Counter(t') - w <= c <= Counter(t') + w;
    assert GenerateTotp(hexSeed, t, hotp).value.code == CodeAt(hotp, key, c);
  }

  /** Every time in `[30k, 30k + 29]` falls in window `k`. */
  lemma WindowSpan(k: int, t: int)
    requires Step * k <= t <= Step * k + Step - 1
    ensures Counter(t) == k
  {
  }

  // ---------------------------------------------------------------------
  // The tolerance argument as app/totp.js:28 passes it.
  //
  // otplib's `totp.check(token, secret)` takes two arguments: the
  // `{ window }` object is ignored and the instance's options apply. Those
  // set at app/totp.js:4 name no window, and the library's default window
  // is 0.

  /** The library's window when its options name none. */
  const LibraryDefaultWindow: nat := 0

  /** `verifyTotp` as written: whatever `window` is passed, only the current window is checked. */
  function VerifyTotpAsWritten(hexSeed: string, code: string, window: nat, now: int, hotp: Hotp): (r: Result<bool, string>)
    ensures r.Failure? <==> hexSeed == ""
    ensures r.Success? ==>
              (r.value <==> code == CodeAt(hotp, HexToBase32(Some(hexSeed)).value, Counter(now)))
  {
    match HexToBase32(Some(hexSeed))
    case Failure(e) => Failure(e)
    case Success(key) =>
      Success(MatchesAny(hotp, key, code, Counter(now) - LibraryDefaultWindow, 2 * LibraryDefaultWindow + 1))
  }

  lemma FormatZeroAndOne()
    ensures FormatCode(0) == "000000" && FormatCode(1) == "000001"
  {
    assert Pow10(Digits) == 1000000;
    assert PadStart("1", Digits, '0') == "000001";
    assert PadStart("0", Digits, '0') == "000000";
  }

  /**
   * For any seed, a code from the previous window passes the ±1 check the
   * handler asks for, but not the check as written: the skew tolerance is
   * lost. Here the truncated HMAC is 1 for window 0 and 0 elsewhere, and
   * the check runs in window 1.
   */
  lemma {:induction false} WindowArgumentIgnored(hexSeed: string, hotp: Hotp)
    requires hexSeed != ""
    requires forall key, counter :: hotp(key, counter) == if counter == 0 then 1 else 0
    ensures VerifyTotp(hexSeed, "000001", 1, 30, hotp) == Success(true)
    ensures VerifyTotpAsWritten(hexSeed, "000001", 1, 30, hotp) == Success(false)
  {
    var key := HexToBase32(Some(hexSeed)).value;
    FormatZeroAndOne();
    assert Counter(30) == 1;
    assert CodeAt(hotp, key, 0) == "000001";
    assert CodeAt(hotp, key, 1) == "000000";
    assert Counter(30) - 1 <= 0 <= Counter(30) + 1;
  }
}
