/** The variable-length integers of section 5.2.2 of the WebAssembly Core Specification 1.0. */
module Leb128 {
  import opened ByteStrings

  datatype Parse<+T> = Reject | Accept(value: T, next: nat)

  function Pow2(n: nat): nat { if n == 0 then 1 else 2 * Pow2(n - 1) }

  /** The values of a signed number of the given width. */
  predicate Signed(v: int, bits: nat)
    requires bits > 0
  {
    0 <= v + Pow2(bits - 1) && v < Pow2(bits - 1)
  }

  // ---------- what the emitter writes

  function Uleb(v: nat): (bs: Bytes)
    ensures bs != []
  {
    if v < 128 then [v] else [v % 128 + 128] + Uleb(v / 128)
  }

  /** The last byte has the sign of the number in its bit 6. */
  predicate LastSigned(v: int) { -64 <= v < 64 }

  function Sleb(v: int): (bs: Bytes)
    ensures bs != []
    decreases if v < 0 then -v else v
  {
    if LastSigned(v) then [v % 128] else [v % 128 + 128] + Sleb(v / 128)
  }

  // ---------- the grammar's decoders

  /** uN: one byte below 128 and below 2^N, or a byte from 128 on and a u(N-7). */
  function DecodeU(bits: nat, data: Bytes, pos: nat): Parse<nat>
    decreases bits
  {
    if pos >= |data| then Reject
    else
      var n: int := data[pos];
      if n < 128 then (if n < Pow2(bits) then Accept(n, pos + 1) else Reject)
      else if bits <= 7 then Reject
      else match DecodeU(bits - 7, data, pos + 1)
        case Reject => Reject
        case Accept(m, next) => Accept(128 * m + (n - 128), next)
  }

  /** sN: a last byte is non-negative below 64 and stands for itself less 128 from 64 on. */
  function DecodeS(bits: nat, data: Bytes, pos: nat): Parse<int>
    requires bits > 0
    decreases bits
  {
    if pos >= |data| then Reject
    else
      var n: int := data[pos];
      if n < 64 then (if n < Pow2(bits - 1) then Accept(n, pos + 1) else Reject)
      else if n < 128 then (if n >= 128 - Pow2(bits - 1) then Accept(n - 128, pos + 1) else Reject)
      else if bits <= 7 then Reject
      else match DecodeS(bits - 7, data, pos + 1)
        case Reject => Reject
        case Accept(m, next) => Accept(128 * m + (n - 128), next)
  }

  // ---------- powers of two

  lemma Pow2By7(n: nat)
    requires n >= 7
    ensures Pow2(n) == 128 * Pow2(n - 7)
  {
    assert Pow2(n) == 4 * Pow2(n - 2);
    assert Pow2(n - 2) == 4 * Pow2(n - 4);
    assert Pow2(n - 4) == 4 * Pow2(n - 6);
  }

  lemma {:induction false} Pow2Monotone(m: nat, n: nat)
    requires m <= n
    ensures Pow2(m) <= Pow2(n)
    decreases n
  {
    if m < n { Pow2Monotone(m, n - 1); }
  }

  lemma Pow2Values()
    ensures Pow2(0) == 1 && Pow2(6) == 64 && Pow2(7) == 128 && Pow2(32) == MAX32 && Pow2(64) == MAX64
    ensures Pow2(31) == MAX32 / 2 && Pow2(63) == MAX64 / 2
  {
    assert Pow2(6) == 64;
    Pow2By7(7);
    Pow2By7(14);
    Pow2By7(21);
    Pow2By7(28);
    assert Pow2(31) == 8 * Pow2(28);
    Pow2By7(35);
    Pow2By7(42);
    Pow2By7(49);
    Pow2By7(56);
    Pow2By7(63);
  }

  // ---------- unsigned

  /** The decoder reads back every value of its width, whatever follows, and stops at what follows. */
  lemma {:induction false} UlebRoundTrip(v: nat, bits: nat, data: Bytes, pos: nat)
    requires v < Pow2(bits) && At(data, pos, Uleb(v))
    ensures DecodeU(bits, data, pos) == Accept(v, pos + |Uleb(v)|)
    decreases v
  {
    AtByte(data, pos, Uleb(v), 0);
    hide At, Pow2;
    if v >= 128 {
      AtSplit(data, pos, [v % 128 + 128], Uleb(v / 128));
      Pow2Values();
      if bits <= 7 {
        Pow2Monotone(bits, 7);
        assert false;
      }
      Pow2By7(bits);
      UlebRoundTrip(v / 128, bits - 7, data, pos + 1);
    }
  }

  /** No byte string that decodes to a value is shorter than the one written; decoded values fit the width. */
  lemma {:induction false} UlebShortest(bits: nat, data: Bytes, pos: nat)
    requires DecodeU(bits, data, pos).Accept?
    ensures var p := DecodeU(bits, data, pos);
      p.value < Pow2(bits) && pos + |Uleb(p.value)| <= p.next <= |data|
    decreases bits
  {
    var n: int := data[pos];
    if n >= 128 {
      UlebShortest(bits - 7, data, pos + 1);
      Pow2By7(bits);
      var m := DecodeU(bits - 7, data, pos + 1).value;
      assert (128 * m + (n - 128)) / 128 == m;
    }
  }

  /** k bytes are exactly enough for the values below 2^(7k). */
  lemma {:induction false} UlebLength(v: nat, k: nat)
    requires k > 0
    ensures |Uleb(v)| <= k <==> v < Pow2(7 * k)
    decreases k
  {
    Pow2By7(7 * k);
    if v >= 128 {
      if k == 1 {
        Pow2Values();
      } else {
        UlebLength(v / 128, k - 1);
      }
    } else {
      Pow2Monotone(0, 7 * k - 7);
    }
  }

  lemma {:induction false} Pow2Above(n: nat)
    ensures n < Pow2(n)
  {
    if n > 0 { Pow2Above(n - 1); }
  }

  /** The unsigned form is prefix-free at any size: what follows it cannot be mistaken for a part of it. */
  lemma UlebSplits(v: nat, x: Bytes, w: nat, y: Bytes)
    requires Uleb(v) + x == Uleb(w) + y
    ensures v == w && x == y
  {
    hide Uleb, Pow2;
    var data := Uleb(v) + x;
    var bits := v + w;
    Pow2Above(bits);
    AtEmbed([], Uleb(v), x);
    AtEmbed([], Uleb(w), y);
    assert [] + Uleb(v) + x == data && [] + Uleb(w) + y == data;
    UlebRoundTrip(v, bits, data, 0);
    UlebRoundTrip(w, bits, data, 0);
    assert x == data[|Uleb(v)|..] && y == data[|Uleb(w)|..];
  }

  // ---------- signed

  /** What is left after seven bits is a signed number seven bits narrower. */
  lemma SignedTail(v: int, bits: nat)
    requires bits > 0 && Signed(v, bits) && !LastSigned(v)
    ensures bits > 7 && Signed(v / 128, bits - 7)
  {
    Pow2Values();
    hide Pow2;
    if bits <= 7 {
      Pow2Monotone(bits - 1, 6);
      assert false;
    }
    Pow2By7(bits - 1);
  }

  lemma {:induction false} SlebRoundTrip(v: int, bits: nat, data: Bytes, pos: nat)
    requires bits > 0 && Signed(v, bits) && At(data, pos, Sleb(v))
    ensures DecodeS(bits, data, pos) == Accept(v, pos + |Sleb(v)|)
    decreases if v < 0 then -v else v
  {
    AtByte(data, pos, Sleb(v), 0);
    hide At, Pow2;
    if !LastSigned(v) {
      hide Signed;
      SignedTail(v, bits);
      AtSplit(data, pos, [v % 128 + 128], Sleb(v / 128));
      SlebRoundTrip(v / 128, bits - 7, data, pos + 1);
    }
  }

  lemma {:induction false} SlebShortest(bits: nat, data: Bytes, pos: nat)
    requires bits > 0 && DecodeS(bits, data, pos).Accept?
    ensures var p := DecodeS(bits, data, pos);
      Signed(p.value, bits) && pos + |Sleb(p.value)| <= p.next <= |data|
    decreases bits
  {
    var n: int := data[pos];
    if n >= 128 {
      SlebShortest(bits - 7, data, pos + 1);
      Pow2By7(bits - 1);
      var m := DecodeS(bits - 7, data, pos + 1).value;
      assert (128 * m + (n - 128)) / 128 == m;
    } else {
      Pow2Monotone(0, bits - 1);
    }
  }

  lemma {:induction false} SlebLength(v: int, k: nat)
    requires k > 0
    ensures |Sleb(v)| <= k <==> Signed(v, 7 * k)
    decreases k
  {
    Pow2Values();
    hide Pow2;
    if LastSigned(v) {
      Pow2Monotone(6, 7 * k - 1);
    } else if k > 1 {
      Pow2By7(7 * k - 1);
      SlebLength(v / 128, k - 1);
      assert 7 * (k - 1) == 7 * k - 7;
    }
  }

  /** Any 64-bit value takes at most ten bytes. */
  lemma TenBytes(v: nat, i: int)
    requires v < MAX64 && Int64(i)
    ensures |Uleb(v)| <= 10 && |Sleb(i)| <= 10
  {
    Pow2Values();
    Pow2Monotone(64, 70);
    Pow2Monotone(63, 69);
    UlebLength(v, 10);
    SlebLength(i, 10);
  }

  /** The worked examples every description of the encoding gives. */
  lemma Samples()
    ensures Uleb(624485) == [0xE5, 0x8E, 0x26]
    ensures Sleb(-123456) == [0xC0, 0xBB, 0x78]
    ensures Sleb(63) == [0x3F] && Sleb(64) == [0xC0, 0x00] && Sleb(-64) == [0x40] && Sleb(-65) == [0xBF, 0x7F]
  {
    assert Uleb(38) == [0x26];
    assert Uleb(4878) == [0x8E] + Uleb(38);
    assert Sleb(-8) == [0x78];
    assert Sleb(-965) == [0xBB] + Sleb(-8);
    assert Sleb(0) == [0] && Sleb(-1) == [0x7F];
  }

  // ---------- the emitter's buffers

  class Buffer {
    var bytes: Bytes

    constructor ()
      ensures bytes == []
    {
      bytes := [];
    }

    method WriteByte(b: Byte)
      modifies this
      ensures bytes == old(bytes) + [b]
    {
      bytes := bytes + [b];
    }

    method WriteBytes(data: Bytes)
      modifies this
      ensures bytes == old(bytes) + data
    {
      bytes := bytes + data;
    }

    /** Seven bits a round, low end first, with the continuation bit while anything is left. */
    method WriteUleb(val: nat)
      modifies this
      ensures bytes == old(bytes) + Uleb(val)
    {
      var v := val;
      var more := true;
      while more
        invariant if more then bytes + Uleb(v) == old(bytes) + Uleb(val) else bytes == old(bytes) + Uleb(val)
        decreases more, v
      {
        var b := v % 128;
        Regroup(bytes, [b + 128], Uleb(v / 128));
        v := v / 128;
        more := v != 0;
        if more {
          b := b + 128;
        }
        bytes := bytes + [b];
      }
    }

    /** The arithmetic shift of a negative number rounds towards minus infinity. */
    method WriteSleb(val: int)
      modifies this
      ensures bytes == old(bytes) + Sleb(val)
    {
      var v := val;
      var more := true;
      while more
        invariant if more then bytes + Sleb(v) == old(bytes) + Sleb(val) else bytes == old(bytes) + Sleb(val)
        decreases more, if v < 0 then -v else v
      {
        var b := v % 128;
        var rest := v / 128;
        var signBit := b >= 64;
        Regroup(bytes, [b + 128], Sleb(rest));
        more := !((rest == 0 && !signBit) || (rest == -1 && signBit));
        assert more <==> !LastSigned(v);
        if more {
          b := b + 128;
        }
        bytes := bytes + [b];
        v := rest;
      }
    }
  }
}
