/**
 * The textual form of an on-chain contract address: `0x` followed by forty
 * hexadecimal digits of either case, two per byte, twenty bytes in all.
 * `AddressBytes` is the reading of that text as bytes; the resolver's results
 * are proved to be readable this way.
 */
module Address {
  import opened Wrappers

  /** Number of bytes in a contract address. */
  const AddressLength: nat := 20

  /** The all-zero address, returned when a chain has no deployment. */
  const ZeroAddress: string := "0x0000000000000000000000000000000000000000"

  predicate IsHexDigit(c: char) {
    '0' <= c <= '9' || 'a' <= c <= 'f' || 'A' <= c <= 'F'
  }

  /**
   * The value of one hexadecimal digit: `0`-`9` are 0-9, `a`-`f` are 10-15,
   * and an upper-case letter has the value of its lower-case form.
   */
  function HexDigitValue(c: char): (v: nat)
    requires IsHexDigit(c)
    ensures v < 16
    ensures '0' <= c <= '9' ==> v == c as int - '0' as int
    ensures 'a' <= c <= 'f' ==> v == 10 + (c as int - 'a' as int)
    ensures 'a' <= c <= 'f' ==> v == HexDigitValue(c - 'a' as char + 'A' as char)
  {
    if '0' <= c <= '9' then c as int - '0' as int
    else if 'a' <= c <= 'f' then c as int - 'a' as int + 10
    else c as int - 'A' as int + 10
  }

  /** `0x`, then exactly forty hexadecimal digits. */
  predicate IsAddress(s: string) {
    && |s| == 2 + 2 * AddressLength
    && s[0] == '0' && s[1] == 'x'
    && forall i | 2 <= i < |s| :: IsHexDigit(s[i])
  }

  /**
   * Reads a string of hexadecimal digit pairs as bytes, most significant
   * digit first; fails on an odd length or on any other character.
   */
  function DecodeHex(s: string): (r: Option<seq<nat>>)
    ensures r.Some? <==> |s| % 2 == 0 && forall i | 0 <= i < |s| :: IsHexDigit(s[i])
    ensures r.Some? ==> |r.value| == |s| / 2
    ensures r.Some? ==> forall j | 0 <= j < |r.value| ::
      r.value[j] == 16 * HexDigitValue(s[2 * j]) + HexDigitValue(s[2 * j + 1])
    ensures r.Some? ==> forall j | 0 <= j < |r.value| :: r.value[j] < 256
    decreases |s|
  {
    if |s| == 0 then Some([])
    else if |s| == 1 || !IsHexDigit(s[0]) || !IsHexDigit(s[1]) then None
    else
      match DecodeHex(s[2..])
      case None => None
      case Some(rest) => Some([16 * HexDigitValue(s[0]) + HexDigitValue(s[1])] + rest)
  }

  /** The twenty bytes an address string denotes, or None if it is not one. */
  function AddressBytes(s: string): (r: Option<seq<nat>>)
    ensures r.Some? <==> IsAddress(s)
    ensures r.Some? ==> |r.value| == AddressLength
    ensures r.Some? ==> forall j | 0 <= j < AddressLength :: r.value[j] < 256
  {
    if |s| == 2 + 2 * AddressLength && s[0] == '0' && s[1] == 'x' then
      assert forall i | 0 <= i < |s| - 2 :: s[2..][i] == s[i + 2];
      DecodeHex(s[2..])
    else None
  }

  /** Two strings whose characters are, position by position, digits of equal value. */
  predicate SameHexDigits(s: string, t: string) {
    && |s| == |t|
    && forall i | 0 <= i < |s| ::
      IsHexDigit(s[i]) && IsHexDigit(t[i]) && HexDigitValue(s[i]) == HexDigitValue(t[i])
  }

  /** Decoding only sees digit values, so spellings that differ in case decode alike. */
  lemma {:induction false} SameHexDigitsDecodeAlike(s: string, t: string)
    requires |s| % 2 == 0
    requires SameHexDigits(s, t)
    ensures DecodeHex(s).Some? && DecodeHex(s) == DecodeHex(t)
  {
    var a, b := DecodeHex(s), DecodeHex(t);
    assert a.Some? && b.Some?;
    assert |a.value| == |b.value|;
    forall j | 0 <= j < |a.value| ensures a.value[j] == b.value[j] {
      var k := 2 * j;
      assert k + 1 < |s|;
      assert HexDigitValue(s[k]) == HexDigitValue(t[k]);
      assert HexDigitValue(s[k + 1]) == HexDigitValue(t[k + 1]);
    }
    assert a.value == b.value;
  }

  /** Two addresses with the same digit values denote the same twenty bytes. */
  lemma SameDigitAddressesAlike(s: string, t: string)
    requires IsAddress(s) && |t| == |s| && t[0] == '0' && t[1] == 'x'
    requires forall i | 2 <= i < |s| :: IsHexDigit(t[i]) && HexDigitValue(s[i]) == HexDigitValue(t[i])
    ensures AddressBytes(s).Some? && AddressBytes(s) == AddressBytes(t)
  {
    var ds, dt := s[2..], t[2..];
    assert forall i | 0 <= i < |ds| :: ds[i] == s[i + 2] && dt[i] == t[i + 2];
    SameHexDigitsDecodeAlike(ds, dt);
  }

  /** A string of an even number of `0` digits reads as bytes that are all zero. */
  lemma ZeroDigitsDecodeToZeroBytes(s: string)
    requires |s| % 2 == 0
    requires forall i | 0 <= i < |s| :: s[i] == '0'
    ensures DecodeHex(s).Some?
    ensures forall j | 0 <= j < |DecodeHex(s).value| :: DecodeHex(s).value[j] == 0
  {
  }

  /** `0x` followed by forty `0` digits reads as twenty zero bytes. */
  lemma ZeroDigitAddressIsZeroBytes(s: string)
    requires |s| == 2 + 2 * AddressLength && s[0] == '0' && s[1] == 'x'
    requires forall i | 2 <= i < |s| :: s[i] == '0'
    ensures AddressBytes(s).Some?
    ensures forall j | 0 <= j < AddressLength :: AddressBytes(s).value[j] == 0
  {
    var digits := s[2..];
    assert forall i | 0 <= i < |digits| :: digits[i] == s[i + 2];
    ZeroDigitsDecodeToZeroBytes(digits);
  }

  /** The sentinel is an address, and every one of its twenty bytes is zero. */
  lemma ZeroAddressIsZeroBytes()
    ensures AddressBytes(ZeroAddress).Some?
    ensures forall j | 0 <= j < AddressLength :: AddressBytes(ZeroAddress).value[j] == 0
  {
    ZeroDigitAddressIsZeroBytes(ZeroAddress);
  }
}
