/**
 * The few JavaScript built-ins the service relies on:
 * `String.prototype.trim`, `String.prototype.padStart` with a one-character
 * fill, `String(v)`, and the truthiness of a value read from a JSON body.
 */
module JsText {

  /** WhiteSpace and LineTerminator code points as ECMAScript's `trim` removes them. */
  predicate IsJsWhitespace(c: char) {
    var k := c as int;
    k == 0x09 || k == 0x0A || k == 0x0B || k == 0x0C || k == 0x0D || k == 0x20
    || k == 0xA0 || k == 0x1680 || (0x2000 <= k <= 0x200A) || k == 0x2028
    || k == 0x2029 || k == 0x202F || k == 0x205F || k == 0x3000 || k == 0xFEFF
  }

  /** `s` neither starts nor ends with whitespace. */
  predicate IsTrimmed(s: string) {
    s == [] || (!IsJsWhitespace(s[0]) && !IsJsWhitespace(s[|s| - 1]))
  }

  /** Drops leading whitespace: the result is a suffix of `s` and all that was dropped is whitespace. */
  function TrimStart(s: string): (r: string)
    ensures |r| <= |s| && forall i :: 0 <= i < |r| ==> r[i] == s[|s| - |r| + i]
    ensures r == [] || !IsJsWhitespace(r[0])
    ensures forall i :: 0 <= i < |s| - |r| ==> IsJsWhitespace(s[i])
  {
    if s != [] && IsJsWhitespace(s[0]) then TrimStart(s[1..]) else s
  }

  /** Drops trailing whitespace: the result is a prefix of `s` and all that was dropped is whitespace. */
  function TrimEnd(s: string): (r: string)
    ensures |r| <= |s| && r == s[..|r|]
    ensures r == [] || !IsJsWhitespace(r[|r| - 1])
    ensures forall i :: |r| <= i < |s| ==> IsJsWhitespace(s[i])
  {
    if s != [] && IsJsWhitespace(s[|s| - 1]) then TrimEnd(s[..|s| - 1]) else s
  }

  /** `s.trim()`: whitespace removed from both ends (TrimIsSlice says exactly what is kept). */
  function Trim(s: string): (r: string)
    ensures IsTrimmed(r)
    ensures |r| <= |s|
  {
    TrimEnd(TrimStart(s))
  }

  /**
   * Trimming keeps the slice `s[lo..hi]` and removes only whitespace
   * before `lo` and after `hi`.
   */
  lemma TrimIsSlice(s: string) returns (lo: nat, hi: nat)
    ensures lo <= hi <= |s| && Trim(s) == s[lo..hi]
    ensures forall i :: 0 <= i < lo ==> IsJsWhitespace(s[i])
    ensures forall i :: hi <= i < |s| ==> IsJsWhitespace(s[i])
  {
    var t := TrimStart(s);
    var r := TrimEnd(t);
    lo := |s| - |t|;
    hi := lo + |r|;
    forall i | hi <= i < |s| ensures IsJsWhitespace(s[i]) {
      assert s[i] == t[i - lo];
    }
  }

  /** A string with no whitespace at either end survives trimming unchanged. */
  lemma TrimOfTrimmed(s: string)
    requires IsTrimmed(s)
    ensures Trim(s) == s
  {
  }

  /** Trimming is idempotent. */
  lemma TrimIdempotent(s: string)
    ensures Trim(Trim(s)) == Trim(s)
  {
    TrimOfTrimmed(Trim(s));
  }

  /** `s.padStart(n, fill)` for a one-character fill string. */
  function PadStart(s: string, n: nat, fill: char): (r: string)
    ensures |r| == if |s| < n then n else |s|
    ensures forall i :: 0 <= i < |s| ==> r[|r| - |s| + i] == s[i]
    ensures forall i :: 0 <= i < |r| - |s| ==> r[i] == fill
  {
    if |s| < n then seq(n - |s|, _ => fill) + s else s
  }

  predicate IsDigit(c: char) {
    '0' <= c <= '9'
  }

  predicate AllDigits(s: string) {
    forall i :: 0 <= i < |s| ==> IsDigit(s[i])
  }

  function DigitChar(d: nat): (c: char)
    requires d < 10
    ensures IsDigit(c)
  {
    ('0' as int + d) as char
  }

  function DigitValue(c: char): (d: nat)
    requires IsDigit(c)
    ensures d < 10 && DigitChar(d) == c
  {
    c as int - '0' as int
  }

  /** The value of a string of decimal digits, most significant first. */
  function DecimalValue(s: string): nat
    requires AllDigits(s)
  {
    if s == [] then 0 else DecimalValue(s[..|s| - 1]) * 10 + DigitValue(s[|s| - 1])
  }

  function Pow10(k: nat): (p: nat)
    ensures p >= 1
  {
    if k == 0 then 1 else 10 * Pow10(k - 1)
  }

  /**
   * The canonical decimal spelling of `n` (what `String(n)` gives for a
   * non-negative integral Number): digits only, no leading zero, and its value is `n`.
   */
  function NatToDecimal(n: nat): (r: string)
    ensures |r| >= 1 && AllDigits(r)
    ensures DecimalValue(r) == n
    ensures r[0] == '0' ==> n == 0
  {
    if n < 10 then [DigitChar(n)]
    else
      var r := NatToDecimal(n / 10) + [DigitChar(n % 10)];
      assert r[..|r| - 1] == NatToDecimal(n / 10);
      r
  }

  /** `String(n)` for an integral Number. */
  function IntToString(n: int): (r: string)
    ensures n >= 0 ==> r == NatToDecimal(n)
    ensures n < 0 ==> r == "-" + NatToDecimal(-n)
  {
    if n < 0 then "-" + NatToDecimal(-n) else NatToDecimal(n)
  }

  /** A number below 10^k has at most k decimal digits, and one at least 10^(k-1) at least k. */
  lemma {:induction false} DecimalLength(n: nat, k: nat)
    requires k >= 1
    ensures n < Pow10(k) ==> |NatToDecimal(n)| <= k
    ensures Pow10(k - 1) <= n ==> |NatToDecimal(n)| >= k
  {
    if n >= 10 && k >= 2 {
      DecimalLength(n / 10, k - 1);
    }
  }

  /** Leading zeros do not change a decimal value. */
  lemma {:induction false} LeadingZerosValue(z: nat, s: string)
    requires AllDigits(s)
    ensures AllDigits(seq(z, _ => '0') + s)
    ensures DecimalValue(seq(z, _ => '0') + s) == DecimalValue(s)
  {
    var t := seq(z, _ => '0') + s;
    if s == [] {
      assert t == seq(z, _ => '0');
      ZerosValue(z);
    } else {
      var s' := s[..|s| - 1];
      LeadingZerosValue(z, s');
      assert t[..|t| - 1] == seq(z, _ => '0') + s';
    }
  }

  lemma {:induction false} ZerosValue(z: nat)
    ensures AllDigits(seq(z, _ => '0'))
    ensures DecimalValue(seq(z, _ => '0')) == 0
  {
    if z > 0 {
      ZerosValue(z - 1);
      assert seq(z, _ => '0')[..z - 1] == seq(z - 1, _ => '0');
    }
  }

  /**
   * Zero-padding the decimal spelling of `n < 10^w` to width `w` gives
   * exactly `w` digits whose value is still `n`.
   */
  lemma PaddedDecimal(n: nat, w: nat)
    requires w >= 1 && n < Pow10(w)
    ensures |PadStart(NatToDecimal(n), w, '0')| == w
    ensures AllDigits(PadStart(NatToDecimal(n), w, '0'))
    ensures DecimalValue(PadStart(NatToDecimal(n), w, '0')) == n
  {
    var d := NatToDecimal(n);
    DecimalLength(n, w);
    if |d| < w {
      LeadingZerosValue(w - |d|, d);
    }
  }

  /**
   * A field read from a parsed JSON request body. `Absent` is a field the
   * body does not have (JavaScript's `undefined`); `Composite` is an array
   * or object, carried with the text `String()` gives for it.
   */
  datatype JsonValue =
    | Absent
    | Null
    | Bool(b: bool)
    | Number(n: int)
    | Str(s: string)
    | Composite(text: string)

  /** JavaScript truthiness: `undefined`, `null`, `false`, `0` and `""` are falsy. */
  predicate Truthy(v: JsonValue) {
    match v
    case Absent => false
    case Null => false
    case Bool(b) => b
    case Number(n) => n != 0
    case Str(s) => s != ""
    case Composite(_) => true
  }

  /** `String(v)`; a string is returned as it is. */
  function ToJsString(v: JsonValue): (r: string)
    ensures v.Str? ==> r == v.s
    ensures v.Number? && v.n >= 0 ==> AllDigits(r) && DecimalValue(r) == v.n
    ensures v.Number? && v.n >= 0 ==> |r| >= 1 && (r[0] == '0' ==> v.n == 0)
    ensures v.Number? && v.n < 0 ==> |r| >= 2 && r[0] == '-'
  {
    match v
    case Absent => "undefined"
    case Null => "null"
    case Bool(b) => if b then "true" else "false"
    case Number(n) => IntToString(n)
    case Str(s) => s
    case Composite(text) => text
  }
}
