/**
 * Base32 as section 6 of RFC 4648 defines it: each group of 5 bytes (40 bits)
 * becomes 8 symbols from the alphabet A-Z, 2-7; a final group of 1, 2, 3 or
 * 4 bytes yields 2, 4, 5 or 7 symbols and is padded with `=` to 8
 * characters. app/totp.js delegates this encoding to the `hi-base32`
 * library and strips the trailing `=` afterwards.
 */
module Base32 {

  import opened Wrappers
  import opened Bytes

  const Pad := '='

  predicate IsSymbol(c: char) {
    'A' <= c <= 'Z' || '2' <= c <= '7'
  }

  predicate AllSymbols(s: string) {
    forall i :: 0 <= i < |s| ==> IsSymbol(s[i])
  }

  /** The alphabet of section 6 of RFC 4648: values 0-25 map to A-Z, 26-31 to 2-7. */
  function Symbol(v: bv8): (c: char)
    requires v < 32
    ensures IsSymbol(c)
  {
    if v < 26 then ('A' as int + v as int) as char else ('2' as int + v as int - 26) as char
  }

  function SymbolValue(c: char): (v: bv8)
    requires IsSymbol(c)
    ensures v < 32 && Symbol(v) == c
  {
    if 'A' <= c <= 'Z' then SmallByte(c as int - 'A' as int) else SmallByte(c as int - '2' as int + 26)
  }

  /** A number below 32 as a byte. */
  function SmallByte(n: int): (v: bv8)
    requires 0 <= n < 32
    ensures v as int == n
  {
    n as bv8
  }

  lemma SymbolValueOfSymbol(v: bv8)
    requires v < 32
    ensures SymbolValue(Symbol(v)) == v
  {
    assert (v as int) as bv8 == v;
  }

  /** Number of symbols a final group of `k` bytes yields: 2, 4, 5, 7 or 8. */
  function SymbolCount(k: nat): nat
    requires 1 <= k <= 5
  {
    (8 * k + 4) / 5
  }

  /** Number of bytes a group with `d` symbols carries; only 2, 4, 5, 7 and 8 are allowed. */
  function ByteCount(d: nat): nat {
    (5 * d) / 8
  }

  predicate IsValidSymbolCount(d: nat) {
    d == 2 || d == 4 || d == 5 || d == 7 || d == 8
  }

  /** The `i`-th of the eight 5-bit values of a 40-bit group, most significant first. */
  function Quintet(b: seq<Byte>, i: nat): (v: bv8)
    requires |b| == 5 && i < 8
    ensures v < 32
  {
    if i == 0 then b[0] >> 3
    else if i == 1 then ((b[0] & 7) << 2) | (b[1] >> 6)
    else if i == 2 then (b[1] >> 1) & 31
    else if i == 3 then ((b[1] & 1) << 4) | (b[2] >> 4)
    else if i == 4 then ((b[2] & 15) << 1) | (b[3] >> 7)
    else if i == 5 then (b[3] >> 2) & 31
    else if i == 6 then ((b[3] & 3) << 3) | (b[4] >> 5)
    else b[4] & 31
  }

  /** The `j`-th of the five bytes that eight 5-bit values stand for. */
  function Octet(q: seq<bv8>, j: nat): Byte
    requires |q| == 8 && j < 5
  {
    if j == 0 then (q[0] << 3) | (q[1] >> 2)
    else if j == 1 then (q[1] << 6) | (q[2] << 1) | (q[3] >> 4)
    else if j == 2 then (q[3] << 4) | (q[4] >> 1)
    else if j == 3 then (q[4] << 7) | (q[5] << 2) | (q[6] >> 3)
    else (q[6] << 5) | q[7]
  }

  /** A group of 1 to 5 bytes filled up with zero bytes to 5. */
  function ZeroFilled(group: seq<Byte>): (b: seq<Byte>)
    requires |group| <= 5
    ensures |b| == 5 && b[..|group|] == group
    ensures forall j :: |group| <= j < 5 ==> b[j] == 0
  {
    group + seq(5 - |group|, _ => 0 as Byte)
  }

  /**
   * The symbols of a group of 1 to 5 bytes, without padding: the group is
   * filled up with zero bits to 40 bits and only the symbols that carry
   * input bits are kept.
   */
  function GroupSymbols(group: seq<Byte>): (s: string)
    requires 1 <= |group| <= 5
    ensures |s| == SymbolCount(|group|) && AllSymbols(s)
  {
    var full := ZeroFilled(group);
    seq(SymbolCount(|group|), i requires 0 <= i < SymbolCount(|group|) => Symbol(Quintet(full, i)))
  }

  function Padding(n: nat): (s: string)
    ensures |s| == n && forall i :: 0 <= i < n ==> s[i] == Pad
  {
    seq(n, _ => Pad)
  }

  /** The size of the next group: 5 bytes, or what is left. */
  function GroupSize(n: nat): nat {
    if n < 5 then n else 5
  }

  /** One group's symbols padded to 8 characters. */
  function EncodeGroup(group: seq<Byte>): (s: string)
    requires 1 <= |group| <= 5
    ensures |s| == 8
  {
    GroupSymbols(group) + Padding(8 - SymbolCount(|group|))
  }

  /** The padded encoding, as `hi-base32`'s `encode` returns it. */
  function Encode(bytes: seq<Byte>): (s: string)
    ensures |s| % 8 == 0 && (s == [] <==> bytes == [])
    decreases |bytes|
  {
    if bytes == [] then ""
    else
      var k := GroupSize(|bytes|);
      EncodeGroup(bytes[..k]) + Encode(bytes[k..])
  }

  /** The symbols of the encoding alone, with no padding anywhere. */
  function Symbols(bytes: seq<Byte>): (s: string)
    ensures AllSymbols(s)
    decreases |bytes|
  {
    if bytes == [] then ""
    else
      var k := GroupSize(|bytes|);
      GroupSymbols(bytes[..k]) + Symbols(bytes[k..])
  }

  /** `n` bytes give `ceil(8n / 5)` symbols. */
  lemma {:induction false} SymbolsLength(bytes: seq<Byte>)
    ensures |Symbols(bytes)| == (8 * |bytes| + 4) / 5
    decreases |bytes|
  {
    if |bytes| > 5 {
      SymbolsLength(bytes[5..]);
      DivShift(8 * (|bytes| - 5) + 4);
    }
  }

  /** Padding needed after the symbols of `n` bytes to reach a multiple of 8. */
  function PadLength(n: nat): nat {
    if n > 5 then PadLength(n - 5) else if n == 0 || n == 5 then 0 else 8 - SymbolCount(n)
  }

  /**
   * The padded encoding is the symbols followed by the padding of the last
   * group, and its length is 8 characters per started group of 5 bytes.
   */
  lemma {:induction false} EncodeIsSymbolsThenPadding(bytes: seq<Byte>)
    ensures Encode(bytes) == Symbols(bytes) + Padding(PadLength(|bytes|))
    decreases |bytes|
  {
    if bytes == [] {
    } else if |bytes| <= 5 {
      LastGroupEncoding(bytes);
    } else {
      var g := GroupSymbols(bytes[..5]);
      EncodeIsSymbolsThenPadding(bytes[5..]);
      assert EncodeGroup(bytes[..5]) == g;
      assert Encode(bytes) == g + Encode(bytes[5..]);
      assert Symbols(bytes) == g + Symbols(bytes[5..]);
    }
  }

  lemma LastGroupEncoding(bytes: seq<Byte>)
    requires 1 <= |bytes| <= 5
    ensures Encode(bytes) == Symbols(bytes) + Padding(PadLength(|bytes|))
  {
    EncodeLastGroup(bytes);
    SymbolsLastGroup(bytes);
    LastPadLength(|bytes|);
  }

  lemma EncodeLastGroup(bytes: seq<Byte>)
    requires 1 <= |bytes| <= 5
    ensures Encode(bytes) == EncodeGroup(bytes)
  {
    var k := |bytes|;
    assert bytes[..k] == bytes by {
      assert |bytes[..k]| == k;
    }
    calc {
      Encode(bytes);
      EncodeGroup(bytes[..k]) + Encode(bytes[k..]);
      { assert bytes[k..] == []; }
      EncodeGroup(bytes) + "";
    }
  }

  lemma SymbolsLastGroup(bytes: seq<Byte>)
    requires 1 <= |bytes| <= 5
    ensures Symbols(bytes) == GroupSymbols(bytes)
  {
    var k := |bytes|;
    assert bytes[..k] == bytes by {
      assert |bytes[..k]| == k;
    }
    calc {
      Symbols(bytes);
      GroupSymbols(bytes[..k]) + Symbols(bytes[k..]);
      { assert bytes[k..] == []; }
      GroupSymbols(bytes) + "";
    }
  }

  lemma LastPadLength(k: nat)
    requires 1 <= k <= 5
    ensures 8 - SymbolCount(k) == PadLength(k)
  {
    if k == 1 {} else if k == 2 {} else if k == 3 {} else if k == 4 {} else {}
  }

  /** The padded encoding has 8 characters per started group of 5 bytes. */
  lemma EncodeLength(bytes: seq<Byte>)
    ensures |Encode(bytes)| == 8 * ((|bytes| + 4) / 5)
  {
    EncodeIsSymbolsThenPadding(bytes);
    SymbolsLength(bytes);
    LengthArithmetic(|bytes|);
  }

  lemma DivShift(m: nat)
    ensures (m + 40) / 5 == m / 5 + 8
  {
  }

  lemma ModShift(x: nat)
    ensures (x + 8) % 8 == x % 8
  {
  }

  lemma GroupShift(n: nat)
    requires n >= 5
    ensures (n + 4) / 5 == (n - 5 + 4) / 5 + 1 && n % 5 == (n - 5) % 5
  {
  }

  lemma LengthArithmeticBase(n: nat)
    requires n < 5
    ensures (8 * n + 4) / 5 + PadLength(n) == 8 * ((n + 4) / 5)
    ensures (8 - ((8 * n + 4) / 5) % 8) % 8 == PadLength(n)
  {
    if n == 0 {
    } else if n == 1 {
    } else if n == 2 {
    } else if n == 3 {
    } else {
    }
  }

  /** (8n + 4) / 5 symbols and PadLength(n) padding make 8 characters per started group. */
  lemma {:induction false} LengthArithmetic(n: nat)
    ensures (8 * n + 4) / 5 + PadLength(n) == 8 * ((n + 4) / 5)
    ensures (8 - ((8 * n + 4) / 5) % 8) % 8 == PadLength(n)
  {
    if n >= 5 {
      LengthArithmetic(n - 5);
      var m := 8 * (n - 5) + 4;
      DivShift(m);
      ModShift(m / 5);
      GroupShift(n);
    } else {
      LengthArithmeticBase(n);
    }
  }

  /** `s.replace(/=+$/g, '')`: removes the whole trailing run of `=`. */
  function StripPadding(s: string): (r: string)
    ensures |r| <= |s| && forall i :: 0 <= i < |r| ==> r[i] == s[i]
    ensures r == [] || r[|r| - 1] != Pad
    ensures forall i :: |r| <= i < |s| ==> s[i] == Pad
  {
    if s != [] && s[|s| - 1] == Pad then StripPadding(s[..|s| - 1]) else s
  }

  /** Stripping the padding after a string that does not end in `=` gives that string back. */
  lemma {:induction false} StripPaddingAfter(s: string, n: nat)
    requires s == [] || s[|s| - 1] != Pad
    ensures StripPadding(s + Padding(n)) == s
  {
    if n > 0 {
      var shorter := s + Padding(n - 1);
      assert s + Padding(n) == shorter + [Pad];
      assert (shorter + [Pad])[..|shorter|] == shorter;
      StripPaddingAfter(s, n - 1);
    }
  }

  /** Appends `=` up to the next multiple of 8 characters, undoing StripPadding. */
  function Repad(s: string): (r: string)
    ensures |r| >= |s| && |r| % 8 == 0 && r[..|s|] == s
  {
    s + Padding((8 - |s| % 8) % 8)
  }

  /** The result of stripping the padding from an encoding, as app/totp.js returns it. */
  function Unpadded(bytes: seq<Byte>): (s: string)
    ensures AllSymbols(s)
    ensures s == [] || s[|s| - 1] != Pad
  {
    UnpaddedIsSymbols(bytes);
    StripPadding(Encode(bytes))
  }

  /** Stripping the padding leaves the symbols alone, and re-padding them gives the encoding back. */
  lemma UnpaddedIsSymbols(bytes: seq<Byte>)
    ensures StripPadding(Encode(bytes)) == Symbols(bytes)
    ensures Symbols(bytes) == [] || Symbols(bytes)[|Symbols(bytes)| - 1] != Pad
    ensures Repad(Symbols(bytes)) == Encode(bytes)
  {
    EncodeIsSymbolsThenPadding(bytes);
    StripPaddingAfter(Symbols(bytes), PadLength(|bytes|));
    RepadSymbols(bytes);
  }

  /** Re-padding the unpadded symbols restores the padded encoding. */
  lemma RepadSymbols(bytes: seq<Byte>)
    ensures Repad(Symbols(bytes)) == Encode(bytes)
  {
    EncodeIsSymbolsThenPadding(bytes);
    SymbolsLength(bytes);
    LengthArithmetic(|bytes|);
    assert (8 - |Symbols(bytes)| % 8) % 8 == PadLength(|bytes|);
  }

  /**
   * One 8-character group: its symbols followed only by padding, with an
   * allowed symbol count, decoded to the bytes those symbols carry.
   */
  function DecodeGroup(g: string): (r: Option<seq<Byte>>)
    requires |g| == 8
    ensures r.Some? ==> 1 <= |r.value| <= 5
  {
    var data := StripPadding(g);
    var d := |data|;
    if !IsValidSymbolCount(d) || !AllSymbols(data) then None
    else
      Some(OctetsOf(SymbolValues(data), ByteCount(d)))
  }

  /** The 5-bit values of up to 8 symbols, filled up with zero values to 8. */
  function SymbolValues(data: string): (q: seq<bv8>)
    requires |data| <= 8 && AllSymbols(data)
    ensures |q| == 8
    ensures forall i :: 0 <= i < |data| ==> q[i] == SymbolValue(data[i])
    ensures forall i :: |data| <= i < 8 ==> q[i] == 0
  {
    seq(8, i requires 0 <= i < 8 => if i < |data| then SymbolValue(data[i]) else 0 as bv8)
  }

  /** The first `n` of the five bytes that eight 5-bit values stand for. */
  function OctetsOf(q: seq<bv8>, n: nat): (b: seq<Byte>)
    requires |q| == 8 && n <= 5
    ensures |b| == n && forall j :: 0 <= j < n ==> b[j] == Octet(q, j)
  {
    seq(n, j requires 0 <= j < n => Octet(q, j))
  }

  /**
   * Strict decoding of padded base32: the length is a multiple of 8, every
   * group decodes, and only the last group may be short.
   */
  function Decode(s: string): (r: Option<seq<Byte>>)
    decreases |s|
  {
    if s == "" then Some([])
    else if |s| < 8 then None
    else
      match DecodeGroup(s[..8])
      case None => None
      case Some(g) =>
        if |s| > 8 && |g| < 5 then None
        else
          match Decode(s[8..])
          case None => None
          case Some(rest) => Some(g + rest)
  }

  /** The eight 5-bit values of a 40-bit group. */
  function QuintetsOf(b: seq<Byte>): (q: seq<bv8>)
    requires |b| == 5
    ensures |q| == 8 && forall i :: 0 <= i < 8 ==> q[i] == Quintet(b, i)
  {
    seq(8, i requires 0 <= i < 8 => Quintet(b, i))
  }

  /** The eight 5-bit values of a 40-bit group give back its bytes. */
  lemma QuintetsRoundTrip(b: seq<Byte>, j: nat)
    requires |b| == 5 && j < 5
    ensures Octet(QuintetsOf(b), j) == b[j]
  {
  }

  /** Symbols past the ones a short group keeps carry only the zero fill bits. */
  lemma FillQuintetsAreZero(group: seq<Byte>, i: nat)
    requires 1 <= |group| <= 5 && SymbolCount(|group|) <= i < 8
    ensures Quintet(ZeroFilled(group), i) == 0
  {
  }

  /** Stripping the padding of one encoded group leaves its symbols. */
  lemma StripEncodedGroup(group: seq<Byte>)
    requires 1 <= |group| <= 5
    ensures StripPadding(EncodeGroup(group)) == GroupSymbols(group)
  {
    StripPaddingAfter(GroupSymbols(group), 8 - SymbolCount(|group|));
  }

  /** Reading the symbols of a group back, with zero fill, gives all eight 5-bit values. */
  lemma GroupQuintets(group: seq<Byte>)
    requires 1 <= |group| <= 5
    ensures SymbolValues(GroupSymbols(group)) == QuintetsOf(ZeroFilled(group))
  {
    var syms := GroupSymbols(group);
    var full := ZeroFilled(group);
    var q := QuintetsOf(full);
    var q' := SymbolValues(syms);
    forall i | 0 <= i < 8 ensures q'[i] == q[i] {
      if i < |syms| {
        SymbolValueOfSymbol(Quintet(full, i));
      } else {
        FillQuintetsAreZero(group, i);
      }
    }
  }

  /** Decoding one encoded group gives the group back. */
  lemma GroupRoundTrip(group: seq<Byte>)
    requires 1 <= |group| <= 5
    ensures DecodeGroup(EncodeGroup(group)) == Some(group)
  {
    var k := |group|;
    StripEncodedGroup(group);
    GroupQuintets(group);
    var full := ZeroFilled(group);
    assert ByteCount(SymbolCount(k)) == k;
    var bytes := OctetsOf(QuintetsOf(full), k);
    forall j | 0 <= j < k ensures bytes[j] == group[j] {
      QuintetsRoundTrip(full, j);
      assert full[j] == full[..k][j];
    }
    assert bytes == group;
  }

  /** Decoding the padded encoding gives the bytes back. */
  lemma {:induction false} DecodeEncode(bytes: seq<Byte>)
    ensures Decode(Encode(bytes)) == Some(bytes)
    decreases |bytes|
  {
    if bytes != [] {
      var k := GroupSize(|bytes|);
      EncodeFirstGroup(bytes);
      GroupRoundTrip(bytes[..k]);
      DecodeEncode(bytes[k..]);
      assert bytes[..k] + bytes[k..] == bytes;
    }
  }

  /** The padded encoding starts with the first group's 8 characters; a full group is needed for more. */
  lemma EncodeFirstGroup(bytes: seq<Byte>)
    requires bytes != []
    ensures |Encode(bytes)| >= 8
    ensures Encode(bytes)[..8] == EncodeGroup(bytes[..GroupSize(|bytes|)])
    ensures Encode(bytes)[8..] == Encode(bytes[GroupSize(|bytes|)..])
    ensures |Encode(bytes)| > 8 ==> |bytes| > 5
  {
    var k := GroupSize(|bytes|);
    var s := Encode(bytes);
    assert s == EncodeGroup(bytes[..k]) + Encode(bytes[k..]);
    if |s| > 8 {
      assert bytes[k..] != [];
    }
  }

  /**
   * The padding-stripped encoding uses only the alphabet, never ends in `=`,
   * and re-padding and decoding it gives the bytes back; hence it is injective.
   */
  lemma UnpaddedRoundTrip(bytes: seq<Byte>)
    ensures AllSymbols(Unpadded(bytes))
    ensures |Unpadded(bytes)| == (8 * |bytes| + 4) / 5
    ensures Decode(Repad(Unpadded(bytes))) == Some(bytes)
  {
    UnpaddedIsSymbols(bytes);
    DecodeEncode(bytes);
    SymbolsLength(bytes);
  }

  lemma UnpaddedInjective(a: seq<Byte>, b: seq<Byte>)
    ensures Unpadded(a) == Unpadded(b) <==> a == b
  {
    UnpaddedRoundTrip(a);
    UnpaddedRoundTrip(b);
  }
}
