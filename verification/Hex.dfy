/** bytes_to_hex: two lower-case hexadecimal digits per byte. */
module Hex {
  import opened ByteStrings

  const DIGITS := "0123456789abcdef"

  function HexByte(b: Byte): string { [DIGITS[b / 16], DIGITS[b % 16]] }

  function ToHex(data: Bytes): string { if data == [] then "" else HexByte(data[0]) + ToHex(data[1..]) }

  /** The digit of a half-byte, by its character code. */
  predicate IsDigit(c: char, d: nat) { if d < 10 then c as int == 48 + d else c as int == 97 + d - 10 }

  lemma {:induction false} HexDigits(data: Bytes)
    ensures |ToHex(data)| == 2 * |data|
    ensures forall i :: 0 <= i < |data| ==>
      IsDigit(ToHex(data)[2 * i], data[i] / 16) && IsDigit(ToHex(data)[2 * i + 1], data[i] % 16)
    decreases |data|
  {
    if data != [] {
      var rest := data[1..];
      HexDigits(rest);
      var out := ToHex(data);
      assert out[2..] == ToHex(rest);
      hide ToHex;
      assert IsDigit(out[0], data[0] / 16) && IsDigit(out[1], data[0] % 16);
      forall i | 0 <= i < |data|
        ensures IsDigit(out[2 * i], data[i] / 16) && IsDigit(out[2 * i + 1], data[i] % 16)
      {
        if i > 0 {
          assert out[2 * i] == out[2..][2 * (i - 1)] && out[2 * i + 1] == out[2..][2 * (i - 1) + 1];
          assert data[i] == rest[i - 1];
        }
      }
    }
  }

  method BytesToHex(data: Bytes) returns (out: string)
    ensures out == ToHex(data)
    ensures |out| == 2 * |data|
    ensures forall i :: 0 <= i < |data| ==> IsDigit(out[2 * i], data[i] / 16) && IsDigit(out[2 * i + 1], data[i] % 16)
  {
    hide HexByte, IsDigit;
    HexDigits(data);
    out := "";
    for i := 0 to |data|
      invariant out + ToHex(data[i..]) == ToHex(data)
    {
      assert data[i..][1..] == data[i + 1..];
      assert out + (HexByte(data[i]) + ToHex(data[i + 1..])) == out + HexByte(data[i]) + ToHex(data[i + 1..]);
      out := out + HexByte(data[i]);
    }
  }

  lemma DigitsDiffer(i: nat, j: nat)
    requires i < 16 && j < 16 && DIGITS[i] == DIGITS[j]
    ensures i == j
  {}

  lemma {:induction false} HexInjective(a: Bytes, b: Bytes)
    requires ToHex(a) == ToHex(b)
    ensures a == b
    decreases |a|
  {
    HexLength(a);
    HexLength(b);
    if a != [] {
      var x, y := ToHex(a), ToHex(b);
      assert x[0] == DIGITS[a[0] / 16] && y[0] == DIGITS[b[0] / 16];
      assert x[1] == DIGITS[a[0] % 16] && y[1] == DIGITS[b[0] % 16];
      DigitsDiffer(a[0] / 16, b[0] / 16);
      DigitsDiffer(a[0] % 16, b[0] % 16);
      assert x[2..] == ToHex(a[1..]) && y[2..] == ToHex(b[1..]);
      HexInjective(a[1..], b[1..]);
      assert a == [a[0]] + a[1..] && b == [b[0]] + b[1..];
    }
  }

  lemma {:induction false} HexLength(a: Bytes)
    ensures |ToHex(a)| == 2 * |a|
    decreases |a|
  {
    if a != [] { HexLength(a[1..]); }
  }
}
