/** Bytes as hexadecimal text, and the transaction-id argument of the command line
    (crates/razerd/src/main.rs). Bytes are numbers below 256 here. */
module HexText {
  import opened Wrappers

  type U8 = n: nat | n < 256

  /** The value of a hexadecimal digit, either case. */
  function DigitValue(c: char): Option<nat> {
    if '0' <= c <= '9' then Some((c - '0') as nat)
    else if 'a' <= c <= 'f' then Some((c - 'a') as nat + 10)
    else if 'A' <= c <= 'F' then Some((c - 'A') as nat + 10)
    else None
  }

  /** Both cases, and nothing else. */
  lemma DigitsExactly(c: char, n: nat)
    ensures DigitValue(c) == Some(n) <==> n < 16 && ("0123456789abcdef"[n] == c || "0123456789ABCDEF"[n] == c)
  {
  }

  predicate IsHex(s: string) {
    forall i :: 0 <= i < |s| ==> DigitValue(s[i]).Some?
  }

  /** The positional value of a digit string. */
  function HexValue(s: string): nat
    requires IsHex(s)
  {
    if s == [] then 0 else HexValue(s[..|s| - 1]) * 16 + DigitValue(s[|s| - 1]).value
  }

  lemma {:induction false} HexValueGrows(s: string, i: nat)
    requires IsHex(s) && i <= |s|
    ensures HexValue(s[..i]) <= HexValue(s)
  {
    if i < |s| {
      HexValueGrows(s[..|s| - 1], i);
      assert s[..|s| - 1][..i] == s[..i];
    } else {
      assert s[..i] == s;
    }
  }

  /** `u8::from_str_radix(digits, 16)`, stopping at the first overflow: nothing is lost by
      stopping early, whatever number of leading zeros comes first. */
  method FromStrRadix16(digits: string) returns (r: Option<U8>)
    requires IsHex(digits) && digits != []
    ensures r == if HexValue(digits) < 256 then Some(HexValue(digits)) else None
  {
    var acc: nat := 0;
    for i := 0 to |digits|
      invariant acc == HexValue(digits[..i]) && acc < 256
    {
      assert digits[..i + 1][..i] == digits[..i];
      HexValueGrows(digits, i + 1);
      acc := acc * 16 + DigitValue(digits[i]).value;
      if acc >= 256 {
        return None;
      }
    }
    assert digits[..|digits|] == digits;
    r := Some(acc);
  }

  datatype IdError = LooksLikeFlag | NotAHexByte | Overflow

  /** One optional prefix, stripped once. */
  function StripPrefix(raw: string): string {
    if |raw| >= 2 && raw[0] == '0' && (raw[1] == 'x' || raw[1] == 'X') then raw[2..] else raw
  }

  /** The grammar, without the parser: one optional prefix and hexadecimal digits. */
  predicate Reads(raw: string, prefix: string, digits: string) {
    && raw == prefix + digits && (prefix == "" || prefix == "0x" || prefix == "0X")
    && digits != [] && IsHex(digits)
  }

  /** What the argument means. */
  predicate Denotes(raw: string, prefix: string, digits: string, id: U8) {
    Reads(raw, prefix, digits) && HexValue(digits) == id
  }

  method ParseTransactionId(raw: string) returns (r: Result<U8, IdError>)
    ensures forall id: U8 :: r == Success(id) <==> exists prefix, digits :: Denotes(raw, prefix, digits, id)
    ensures r == Failure(LooksLikeFlag) <==> raw != [] && raw[0] == '-'
    ensures r == Failure(Overflow) <==> exists prefix, digits :: Reads(raw, prefix, digits) && HexValue(digits) >= 256
  {
    forall prefix, digits | Reads(raw, prefix, digits)
      ensures digits == StripPrefix(raw) && raw[0] != '-'
    {
      OnlyReading(raw, prefix, digits);
    }
    if raw != [] && raw[0] == '-' {
      return Failure(LooksLikeFlag);
    }
    var digits := StripPrefix(raw);
    if digits == [] || !IsHex(digits) {
      return Failure(NotAHexByte);
    }
    assert Reads(raw, raw[..|raw| - |digits|], digits);
    var id := FromStrRadix16(digits);
    if id.None? {
      return Failure(Overflow);
    }
    assert Denotes(raw, raw[..|raw| - |digits|], digits, id.value);
    r := Success(id.value);
  }

  /** The grammar is unambiguous, so stripping one prefix is the only reading: a repeated
      prefix such as `0x0x` is never accepted. */
  lemma OnlyReading(raw: string, prefix: string, digits: string)
    requires Reads(raw, prefix, digits)
    ensures digits == StripPrefix(raw) && raw[0] != '-'
  {
    if prefix == "" {
      assert raw == digits;
      assert DigitValue(raw[0]).Some?;
      assert |raw| >= 2 ==> DigitValue(raw[1]).Some?;
    } else {
      assert raw[0] == '0' && (raw[1] == 'x' || raw[1] == 'X') && raw[2..] == digits;
    }
  }

  // ---------------------------------------------------------------- printing

  function LowerDigit(n: nat): char
    requires n < 16
  {
    if n < 10 then '0' + n as char else 'a' + (n - 10) as char
  }

  /** `{:02x}` for every byte. */
  function Hex(bytes: seq<U8>): string {
    if bytes == [] then []
    else Hex(bytes[..|bytes| - 1]) + [LowerDigit(bytes[|bytes| - 1] / 16), LowerDigit(bytes[|bytes| - 1] % 16)]
  }

  /** A digit as it is printed: letters in lower case. */
  predicate IsLower(c: char) {
    '0' <= c <= '9' || 'a' <= c <= 'f'
  }

  /** Twice the length, in lower case, and reading the digits in pairs restores every byte. */
  lemma {:induction false} HexReadsBack(bytes: seq<U8>)
    ensures |Hex(bytes)| == 2 * |bytes| && IsHex(Hex(bytes))
    ensures forall i :: 0 <= i < |Hex(bytes)| ==> IsLower(Hex(bytes)[i])
    ensures forall i :: 0 <= i < |bytes| ==> PairValue(Hex(bytes), i) == Some(bytes[i])
  {
    hide LowerDigit, DigitValue;
    if bytes != [] {
      var most, last := bytes[..|bytes| - 1], bytes[|bytes| - 1];
      HexReadsBack(most);
      DigitsReadBack(last);
      var hex := Hex(bytes);
      assert hex == Hex(most) + [LowerDigit(last / 16), LowerDigit(last % 16)];
      forall i | 0 <= i < |bytes| ensures PairValue(hex, i) == Some(bytes[i]) {
        if i < |most| {
          assert PairValue(hex, i) == PairValue(Hex(most), i);
        }
      }
    }
  }

  lemma DigitsReadBack(b: U8)
    ensures DigitValue(LowerDigit(b / 16)) == Some(b / 16) && DigitValue(LowerDigit(b % 16)) == Some(b % 16)
    ensures IsLower(LowerDigit(b / 16)) && IsLower(LowerDigit(b % 16))
  {
  }

  /** The golden fixture's reader: digits `2i` and `2i + 1` in base 16. */
  function PairValue(s: string, i: nat): Option<nat> {
    if 2 * i + 1 < |s| && DigitValue(s[2 * i]).Some? && DigitValue(s[2 * i + 1]).Some?
    then Some(DigitValue(s[2 * i]).value * 16 + DigitValue(s[2 * i + 1]).value)
    else None
  }
}
