/**
 * The 64-hex seed gate `/^[0-9a-fA-F]{64}$/` shared by app/index.js and
 * scripts/log_2fa_cron.js, and Node's `Buffer.from(text, 'hex')` as
 * app/totp.js uses it to turn a seed into its 32 raw bytes.
 */
module Hex {

  import opened Bytes

  const SeedLength := 64

  predicate IsHexDigit(c: char) {
    '0' <= c <= '9' || 'a' <= c <= 'f' || 'A' <= c <= 'F'
  }

  /** The gate: exactly 64 characters, each a hexadecimal digit of either case. */
  predicate IsSeedFormat(s: string) {
    |s| == SeedLength && forall i :: 0 <= i < |s| ==> IsHexDigit(s[i])
  }

  function HexValue(c: char): (v: nat)
    requires IsHexDigit(c)
    ensures v < 16
  {
    if '0' <= c <= '9' then c as int - '0' as int
    else if 'a' <= c <= 'f' then c as int - 'a' as int + 10
    else c as int - 'A' as int + 10
  }

  /** ASCII lower-casing, enough to compare hex digits without regard to case. */
  function ToLower(c: char): char {
    if 'A' <= c <= 'Z' then (c as int - 'A' as int + 'a' as int) as char else c
  }

  predicate SameIgnoringCase(s: string, t: string) {
    |s| == |t| && forall i :: 0 <= i < |s| ==> ToLower(s[i]) == ToLower(t[i])
  }

  /** Two hex digits denote the same nibble exactly when they are the same letter up to case. */
  lemma HexValueCase(c: char, d: char)
    requires IsHexDigit(c) && IsHexDigit(d)
    ensures HexValue(c) == HexValue(d) <==> ToLower(c) == ToLower(d)
  {
  }

  /** The byte a pair of hex digits denotes: high nibble first. */
  function PairByte(hi: char, lo: char): (b: Byte)
    requires IsHexDigit(hi) && IsHexDigit(lo)
  {
    ((HexValue(hi) as Byte) << 4) | (HexValue(lo) as Byte)
  }

  lemma NibbleInjective(a: nat, b: nat)
    requires a < 16 && b < 16 && a as Byte == b as Byte
    ensures a == b
  {
    assert (a as Byte) as int == a;
    assert (b as Byte) as int == b;
  }

  lemma NibblesOfByte(h: Byte, l: Byte)
    requires h < 16 && l < 16
    ensures ((h << 4) | l) >> 4 == h && ((h << 4) | l) & 15 == l
  {
  }

  /** Both nibbles can be read back from the byte a hex pair denotes. */
  lemma PairByteInjective(hi: char, lo: char, hi': char, lo': char)
    requires IsHexDigit(hi) && IsHexDigit(lo) && IsHexDigit(hi') && IsHexDigit(lo')
    requires PairByte(hi, lo) == PairByte(hi', lo')
    ensures HexValue(hi) == HexValue(hi') && HexValue(lo) == HexValue(lo')
  {
    var a, b, a', b' := HexValue(hi), HexValue(lo), HexValue(hi'), HexValue(lo');
    var h, l, h', l' := a as Byte, b as Byte, a' as Byte, b' as Byte;
    NibblesOfByte(h, l);
    NibblesOfByte(h', l');
    NibbleInjective(a, a');
    NibbleInjective(b, b');
  }

  /**
   * `Buffer.from(s, 'hex')`: decodes consecutive hex pairs from the start and
   * stops, without error, at the first pair that is not two hex digits or
   * at a lone final character (DecodeHexAt and DecodeHexStops).
   */
  function DecodeHex(s: string): (bytes: seq<Byte>)
    ensures |bytes| <= |s| / 2
    decreases |s|
  {
    if |s| >= 2 && IsHexDigit(s[0]) && IsHexDigit(s[1]) then
      [PairByte(s[0], s[1])] + DecodeHex(s[2..])
    else []
  }

  /** Byte `i` of the decoding is the pair of hex digits at `2i`, `2i+1`. */
  lemma {:induction false} DecodeHexAt(s: string, i: nat)
    requires i < |DecodeHex(s)|
    ensures IsHexDigit(s[2 * i]) && IsHexDigit(s[2 * i + 1])
    ensures DecodeHex(s)[i] == PairByte(s[2 * i], s[2 * i + 1])
    decreases |s|
  {
    if i > 0 {
      DecodeHexAt(s[2..], i - 1);
      assert s[2..][2 * (i - 1)] == s[2 * i];
      assert s[2..][2 * (i - 1) + 1] == s[2 * i + 1];
    }
  }

  /** Decoding stops early only where the next pair is not two hex digits. */
  lemma {:induction false} DecodeHexStops(s: string)
    ensures var n := |DecodeHex(s)|;
            n < |s| / 2 ==> !(IsHexDigit(s[2 * n]) && IsHexDigit(s[2 * n + 1]))
    decreases |s|
  {
    if |s| >= 2 && IsHexDigit(s[0]) && IsHexDigit(s[1]) {
      DecodeHexStops(s[2..]);
      var n := |DecodeHex(s)|;
      if n < |s| / 2 {
        assert s[2..][2 * (n - 1)] == s[2 * n];
        assert s[2..][2 * (n - 1) + 1] == s[2 * n + 1];
      }
    }
  }

  /** Every seed that passes the gate decodes to exactly 32 bytes. */
  lemma SeedDecodesTo32Bytes(s: string)
    requires IsSeedFormat(s)
    ensures |DecodeHex(s)| == 32
  {
    DecodeHexStops(s);
  }

  /**
   * Two seeds that pass the gate decode to the same bytes exactly when they
   * spell the same hex digits up to case.
   */
  lemma SeedBytesIffSameIgnoringCase(s: string, t: string)
    requires IsSeedFormat(s) && IsSeedFormat(t)
    ensures DecodeHex(s) == DecodeHex(t) <==> SameIgnoringCase(s, t)
  {
    SeedDecodesTo32Bytes(s);
    SeedDecodesTo32Bytes(t);
    var a, b := DecodeHex(s), DecodeHex(t);
    if a == b {
      forall i | 0 <= i < |s| ensures ToLower(s[i]) == ToLower(t[i]) {
        var k := i / 2;
        DecodeHexAt(s, k);
        DecodeHexAt(t, k);
        PairByteInjective(s[2 * k], s[2 * k + 1], t[2 * k], t[2 * k + 1]);
        assert i == 2 * k || i == 2 * k + 1;
        HexValueCase(s[i], t[i]);
      }
    }
    if SameIgnoringCase(s, t) {
      forall k | 0 <= k < 32 ensures a[k] == b[k] {
        DecodeHexAt(s, k);
        DecodeHexAt(t, k);
        HexValueCase(s[2 * k], t[2 * k]);
        HexValueCase(s[2 * k + 1], t[2 * k + 1]);
      }
    }
  }
}
