/**
 The CBOR encoder and decoder (RFC 7049, definite lengths only).
 Every decoding function gives the outcome and where the decoder then stands, also after an error.
 */
module Cbor {
  import opened Results
  import opened ByteStrings

  datatype Step<+T> = Step(res: Result<T>, pos: nat)

  datatype HeadValue = HeadValue(major: nat, val: nat)

  // ---------- heads

  function Head(major: nat, val: nat): (bs: Bytes)
    requires major < 8
  {
    if val <= 23 then [major * 32 + val]
    else if val <= 0xFF then [major * 32 + 24] + BigEndian(val, 1)
    else if val <= 0xFFFF then [major * 32 + 25] + BigEndian(val, 2)
    else if val <= 0xFFFF_FFFF then [major * 32 + 26] + BigEndian(val, 4)
    else [major * 32 + 27] + BigEndian(val, 8)
  }

  /** How many argument bytes follow an initial byte with additional information ai, if it is not reserved. */
  function ExtraBytes(ai: nat): nat
    requires ai < 32
  {
    if ai == 24 then 1 else if ai == 25 then 2 else if ai == 26 then 4 else if ai == 27 then 8 else 0
  }

  function HeadAt(data: Bytes, pos: nat): (s: Step<HeadValue>)
    requires pos <= |data|
    ensures pos <= s.pos <= |data|
    ensures pos < |data| ==> pos < s.pos
    ensures s.res.Ok? ==> pos < |data| && s.res.value.major == data[pos] / 32 && s.res.value.major < 8
  {
    if pos >= |data| then Step(Err(700), pos)
    else
      var major, ai := data[pos] / 32, data[pos] % 32;
      var extra := ExtraBytes(ai);
      if ai <= 23 then Step(Ok(HeadValue(major, ai)), pos + 1)
      else if ai > 27 then Step(Err(701), pos + 1)
      else if pos + 1 + extra > |data| then Step(Err(700), pos + 1)
      else Step(Ok(HeadValue(major, FromBigEndian(data[pos + 1..pos + 1 + extra]))), pos + 1 + extra)
  }

  lemma HeadAtBound(data: Bytes, pos: nat)
    requires pos <= |data|
    ensures var s := HeadAt(data, pos); s.res.Ok? ==> s.res.value.val < MAX64
  {
    if pos < |data| {
      var extra := ExtraBytes(data[pos] % 32);
      if pos + 1 + extra <= |data| {
        FromBigEndianBound(data[pos + 1..pos + 1 + extra]);
        Powers();
      }
    }
  }

  lemma HeadRoundTrip(data: Bytes, pos: nat, major: nat, val: nat)
    requires major < 8 && val < MAX64 && At(data, pos, Head(major, val))
    ensures HeadAt(data, pos) == Step(Ok(HeadValue(major, val)), pos + |Head(major, val)|)
  {
    hide BigEndian, FromBigEndian, Pow256;
    var h := Head(major, val);
    AtByte(data, pos, h, 0);
    Powers();
    if val > 23 {
      var k := |h| - 1;
      assert h == [h[0]] + BigEndian(val, k);
      AtSplit(data, pos, [h[0]], BigEndian(val, k));
      BigEndianRoundTrip(val, k);
    }
  }

  /** Section 3.9 of RFC 7049: no head that decodes to the same number is shorter. */
  lemma HeadIsShortest(data: Bytes, pos: nat)
    requires pos <= |data| && HeadAt(data, pos).res.Ok?
    ensures var s := HeadAt(data, pos);
            |Head(s.res.value.major, s.res.value.val)| <= s.pos - pos
  {
    hide BigEndian, FromBigEndian, Pow256;
    Powers();
    var extra := ExtraBytes(data[pos] % 32);
    FromBigEndianBound(data[pos + 1..pos + 1 + extra]);
  }

  /** The bytes of every head, as section 2.1 of RFC 7049 lays them out. */
  lemma HeadLayout(major: nat, val: nat)
    requires major < 8 && val < 0x1_0000_0000_0000_0000
    ensures val <= 23 ==> Head(major, val) == [32 * major + val]
    ensures 24 <= val < 0x100 ==> Head(major, val) == [32 * major + 24, val]
    ensures 0x100 <= val < 0x1_0000 ==> Head(major, val) == [32 * major + 25, val / 0x100, val % 256]
    ensures 0x1_0000 <= val < 0x1_0000_0000 ==>
      Head(major, val) == [32 * major + 26, val / 0x100_0000, val / 0x1_0000 % 256, val / 0x100 % 256, val % 256]
    ensures 0x1_0000_0000 <= val ==>
      Head(major, val) == [32 * major + 27, val / 0x100_0000_0000_0000, val / 0x1_0000_0000_0000 % 256,
                           val / 0x100_0000_0000 % 256, val / 0x1_0000_0000 % 256, val / 0x100_0000 % 256,
                           val / 0x1_0000 % 256, val / 0x100 % 256, val % 256]
  {
    hide BigEndian;
    if 24 <= val < 0x100 {
      BigEndian1(val);
    } else if 0x100 <= val < 0x1_0000 {
      BigEndian2(val);
    } else if 0x1_0000 <= val < 0x1_0000_0000 {
      BigEndian4(val);
    } else if 0x1_0000_0000 <= val {
      BigEndian8(val);
    }
  }

  /** Reading a head from any bytes: the number, the two errors, and where the reader then stands. */
  lemma HeadOutcome(data: Bytes, pos: nat)
    requires pos <= |data|
    ensures pos == |data| ==> HeadAt(data, pos) == Step(Err(700), pos)
    ensures pos < |data| && data[pos] % 32 <= 23 ==>
      HeadAt(data, pos) == Step(Ok(HeadValue(data[pos] / 32, data[pos] % 32)), pos + 1)
    ensures pos < |data| && data[pos] % 32 >= 28 ==> HeadAt(data, pos) == Step(Err(701), pos + 1)
    ensures pos < |data| && data[pos] % 32 == 24 ==> HeadAt(data, pos) == LongHead(data, pos, 1)
    ensures pos < |data| && data[pos] % 32 == 25 ==> HeadAt(data, pos) == LongHead(data, pos, 2)
    ensures pos < |data| && data[pos] % 32 == 26 ==> HeadAt(data, pos) == LongHead(data, pos, 4)
    ensures pos < |data| && data[pos] % 32 == 27 ==> HeadAt(data, pos) == LongHead(data, pos, 8)
  {}

  /** A head with its number in the n bytes that follow, if they are there. */
  function LongHead(data: Bytes, pos: nat, n: nat): Step<HeadValue>
    requires pos < |data|
  {
    if pos + 1 + n > |data| then Step(Err(700), pos + 1)
    else Step(Ok(HeadValue(data[pos] / 32, FromBigEndian(data[pos + 1..pos + 1 + n]))), pos + 1 + n)
  }

  // ---------- typed items

  /** A head that must have the given major type; the type is checked after the head is consumed. */
  function TypedAt(data: Bytes, pos: nat, major: nat, code: nat): (s: Step<nat>)
    requires pos <= |data|
    ensures pos <= s.pos <= |data|
    ensures pos < |data| ==> pos < s.pos
    ensures s.res.Ok? ==> pos < s.pos && data[pos] / 32 == major
  {
    var h := HeadAt(data, pos);
    if h.res.Err? then Step(Err(h.res.code), h.pos)
    else if h.res.value.major != major then Step(Err(code), h.pos)
    else Step(Ok(h.res.value.val), h.pos)
  }

  function UintAt(data: Bytes, pos: nat): Step<nat> requires pos <= |data| { TypedAt(data, pos, 0, 702) }
  function ArraySizeAt(data: Bytes, pos: nat): Step<nat> requires pos <= |data| { TypedAt(data, pos, 4, 706) }
  function MapSizeAt(data: Bytes, pos: nat): Step<nat> requires pos <= |data| { TypedAt(data, pos, 5, 707) }

  /** A length head of the given major type, then that many bytes. */
  function BlobAt(data: Bytes, pos: nat, major: nat, code: nat): (s: Step<Bytes>)
    requires pos <= |data|
    ensures pos <= s.pos <= |data|
    ensures pos < |data| ==> pos < s.pos
    ensures s.res.Ok? ==> pos < s.pos && data[pos] / 32 == major
  {
    var n := TypedAt(data, pos, major, code);
    if n.res.Err? then Step(Err(n.res.code), n.pos)
    else if n.pos + n.res.value > |data| then Step(Err(700), n.pos)
    else Step(Ok(data[n.pos..n.pos + n.res.value]), n.pos + n.res.value)
  }

  function BytesAt(data: Bytes, pos: nat): Step<Bytes> requires pos <= |data| { BlobAt(data, pos, 2, 704) }
  function StringAt(data: Bytes, pos: nat): Step<Bytes> requires pos <= |data| { BlobAt(data, pos, 3, 705) }

  function IntAt(data: Bytes, pos: nat): (s: Step<int>)
    requires pos <= |data|
  {
    var h := HeadAt(data, pos);
    HeadAtBound(data, pos);
    if h.res.Err? then Step(Err(h.res.code), h.pos)
    else if h.res.value.major == 0 then Step(Ok(ToInt64(h.res.value.val)), h.pos)
    else if h.res.value.major == 1 then Step(Ok(-1 - ToInt64(h.res.value.val)), h.pos)
    else Step(Err(703), h.pos)
  }

  function UintItem(n: nat): Bytes { Head(0, n) }

  function IntItem(i: int): Bytes { if i >= 0 then Head(0, i) else Head(1, -1 - i) }

  function BytesItem(b: Bytes): Bytes { Head(2, |b|) + b }

  function StringItem(b: Bytes): Bytes { Head(3, |b|) + b }

  lemma TypedRoundTrip(data: Bytes, pos: nat, major: nat, val: nat, code: nat)
    requires major < 8 && val < MAX64 && At(data, pos, Head(major, val))
    ensures TypedAt(data, pos, major, code) == Step(Ok(val), pos + |Head(major, val)|)
  {
    hide Head;
    HeadRoundTrip(data, pos, major, val);
  }

  /** A head of another type is consumed and refused. */
  lemma WrongType(data: Bytes, pos: nat, major: nat, val: nat, expected: nat, code: nat)
    requires major < 8 && major != expected && val < MAX64 && At(data, pos, Head(major, val))
    ensures TypedAt(data, pos, expected, code) == Step(Err(code), pos + |Head(major, val)|)
  {
    hide Head;
    HeadRoundTrip(data, pos, major, val);
  }

  lemma BlobRoundTrip(data: Bytes, pos: nat, major: nat, b: Bytes, code: nat)
    requires major < 8 && |b| < MAX64 && At(data, pos, Head(major, |b|) + b)
    ensures BlobAt(data, pos, major, code) == Step(Ok(b), pos + |Head(major, |b|) + b|)
  {
    hide Head, TypedAt;
    AtSplit(data, pos, Head(major, |b|), b);
    TypedRoundTrip(data, pos, major, |b|, code);
  }

  // ---------- skip

  /** Decoder::skip. Errors in the head of an integer or a simple value are not reported. */
  function SkipAt(data: Bytes, pos: nat): (s: Step<()>)
    requires pos <= |data|
    ensures pos <= s.pos <= |data|
    ensures s.res.Ok? ==> pos < s.pos
    decreases |data| - pos, 0
  {
    if pos >= |data| then Step(Err(700), pos)
    else
      var major := data[pos] / 32;
      if major == 0 || major == 1 || major == 7 then Step(Ok(()), HeadAt(data, pos).pos)
      else if major == 2 then
        var b := BytesAt(data, pos);
        Step(if b.res.Ok? then Ok(()) else Err(b.res.code), b.pos)
      else if major == 3 then
        var b := StringAt(data, pos);
        Step(if b.res.Ok? then Ok(()) else Err(b.res.code), b.pos)
      else if major == 4 then
        var n := ArraySizeAt(data, pos);
        if n.res.Err? then Step(Err(n.res.code), n.pos) else SkipManyAt(data, n.pos, n.res.value)
      else if major == 5 then
        var n := MapSizeAt(data, pos);
        if n.res.Err? then Step(Err(n.res.code), n.pos) else SkipManyAt(data, n.pos, 2 * n.res.value)
      else Step(Err(708), pos)
  }

  function SkipManyAt(data: Bytes, pos: nat, n: nat): (s: Step<()>)
    requires pos <= |data|
    ensures pos <= s.pos <= |data|
    decreases |data| - pos, 1
  {
    if n == 0 then Step(Ok(()), pos)
    else
      var one := SkipAt(data, pos);
      if one.res.Err? then one else SkipManyAt(data, one.pos, n - 1)
  }

  lemma SkipUint(data: Bytes, pos: nat, n: nat)
    requires n < MAX64 && At(data, pos, UintItem(n))
    ensures SkipAt(data, pos) == Step(Ok(()), pos + |UintItem(n)|)
  {
    hide Head;
    HeadRoundTrip(data, pos, 0, n);
  }

  /** Every typed read in terms of the head it consumes: what is accepted, each refusal, and the position. */
  lemma ReadOutcomes(data: Bytes, pos: nat)
    requires pos <= |data|
    ensures var h := HeadAt(data, pos);
      h.res.Err? ==>
        && UintAt(data, pos) == ArraySizeAt(data, pos) == MapSizeAt(data, pos) == Step(Err(h.res.code), h.pos)
        && BytesAt(data, pos) == StringAt(data, pos) == Step(Err(h.res.code), h.pos)
        && IntAt(data, pos) == Step(Err(h.res.code), h.pos)
    ensures var h := HeadAt(data, pos);
      h.res.Ok? ==>
        var HeadValue(major, val) := h.res.value;
        && UintAt(data, pos) == Step(if major == 0 then Ok(val) else Err(702), h.pos)
        && ArraySizeAt(data, pos) == Step(if major == 4 then Ok(val) else Err(706), h.pos)
        && MapSizeAt(data, pos) == Step(if major == 5 then Ok(val) else Err(707), h.pos)
        && (major == 0 && val < 0x8000_0000_0000_0000 ==> IntAt(data, pos) == Step(Ok(val), h.pos))
        && (major == 0 && val >= 0x8000_0000_0000_0000 ==>
              IntAt(data, pos) == Step(Ok(val - 0x1_0000_0000_0000_0000), h.pos))
        && (major == 1 && val < 0x8000_0000_0000_0000 ==> IntAt(data, pos) == Step(Ok(-1 - val), h.pos))
        && (major == 1 && val >= 0x8000_0000_0000_0000 ==>
              IntAt(data, pos) == Step(Ok(0xFFFF_FFFF_FFFF_FFFF - val), h.pos))
        && (major > 1 ==> IntAt(data, pos) == Step(Err(703), h.pos))
        && (major != 2 ==> BytesAt(data, pos) == Step(Err(704), h.pos))
        && (major != 3 ==> StringAt(data, pos) == Step(Err(705), h.pos))
        && (h.pos + val > |data| ==>
              && (major == 2 ==> BytesAt(data, pos) == Step(Err(700), h.pos))
              && (major == 3 ==> StringAt(data, pos) == Step(Err(700), h.pos)))
        && (h.pos + val <= |data| ==>
              && (major == 2 ==> BytesAt(data, pos) == Step(Ok(data[h.pos..h.pos + val]), h.pos + val))
              && (major == 3 ==> StringAt(data, pos) == Step(Ok(data[h.pos..h.pos + val]), h.pos + val)))
  {
    hide HeadAt;
    HeadAtBound(data, pos);
  }

  /** Positions at which items follow one another as skip sees them. */
  ghost predicate SkipsThrough(data: Bytes, ps: seq<nat>) {
    && ps != [] && ps[0] <= |data|
    && forall i :: 0 <= i < |ps| - 1 ==> ps[i] <= |data| && SkipAt(data, ps[i]) == Step(Ok(()), ps[i + 1])
  }

  lemma {:induction false} ManyFollow(data: Bytes, ps: seq<nat>, n: nat)
    requires SkipsThrough(data, ps) && |ps| - 1 <= n
    ensures ps[|ps| - 1] <= |data|
    ensures SkipManyAt(data, ps[0], n) == SkipManyAt(data, ps[|ps| - 1], n - (|ps| - 1))
    decreases |ps|
  {
    hide SkipAt;
    if |ps| > 1 {
      assert ps[1..][0] == ps[1];
      assert SkipAt(data, ps[0]) == Step(Ok(()), ps[1]);
      assert ps[1] <= |data|;
      ManyFollow(data, ps[1..], n - 1);
    }
  }

  /**
   Skip on any bytes. Before an integer or a simple value it always succeeds; a string is read; an array of n
   skips n items and a map of n skips 2n, up to the first that fails; nothing else can be skipped.
   */
  lemma SkipOutcome(data: Bytes, pos: nat, ps: seq<nat>)
    requires pos <= |data|
    ensures pos == |data| ==> SkipAt(data, pos) == Step(Err(700), pos)
    ensures pos < |data| && data[pos] / 32 in {0, 1, 7} ==> SkipAt(data, pos) == Step(Ok(()), HeadAt(data, pos).pos)
    ensures pos < |data| && data[pos] / 32 == 2 ==>
      SkipAt(data, pos).pos == BytesAt(data, pos).pos && (SkipAt(data, pos).res.Ok? <==> BytesAt(data, pos).res.Ok?)
      && (SkipAt(data, pos).res.Err? ==> SkipAt(data, pos).res.code == BytesAt(data, pos).res.code)
    ensures pos < |data| && data[pos] / 32 == 3 ==>
      SkipAt(data, pos).pos == StringAt(data, pos).pos && (SkipAt(data, pos).res.Ok? <==> StringAt(data, pos).res.Ok?)
      && (SkipAt(data, pos).res.Err? ==> SkipAt(data, pos).res.code == StringAt(data, pos).res.code)
    ensures pos < |data| && data[pos] / 32 == 6 ==> SkipAt(data, pos) == Step(Err(708), pos)
    ensures pos < |data| && data[pos] / 32 in {4, 5} && HeadAt(data, pos).res.Err? ==>
      SkipAt(data, pos) == Step(Err(HeadAt(data, pos).res.code), HeadAt(data, pos).pos)
    ensures (pos < |data| && data[pos] / 32 in {4, 5} && HeadAt(data, pos).res.Ok? && SkipsThrough(data, ps)
             && ps[0] == HeadAt(data, pos).pos) ==>
        var items := if data[pos] / 32 == 4 then HeadAt(data, pos).res.value.val else 2 * HeadAt(data, pos).res.value.val;
        && (|ps| - 1 == items ==> SkipAt(data, pos) == Step(Ok(()), ps[|ps| - 1]))
        && (|ps| - 1 < items && ps[|ps| - 1] <= |data| && SkipAt(data, ps[|ps| - 1]).res.Err? ==>
              SkipAt(data, pos) == SkipAt(data, ps[|ps| - 1]))
  {
    hide HeadAt, BlobAt;
    if pos < |data| && data[pos] / 32 in {4, 5} && HeadAt(data, pos).res.Ok? && SkipsThrough(data, ps)
       && ps[0] == HeadAt(data, pos).pos {
      var items := if data[pos] / 32 == 4 then HeadAt(data, pos).res.value.val else 2 * HeadAt(data, pos).res.value.val;
      if |ps| - 1 <= items {
        ManyFollow(data, ps, items);
      }
    }
  }

  // ---------- the classes

  class Encoder {
    var buf: Bytes

    constructor ()
      ensures buf == []
    {
      buf := [];
    }

    method PushByte(b: Byte)
      modifies this
      ensures buf == old(buf) + [b]
    {
      buf := buf + [b];
    }

    method EncodeHead(major: nat, val: nat)
      requires major < 8 && val < MAX64
      modifies this
      ensures buf == old(buf) + Head(major, val)
    {
      hide BigEndian;
      // Each branch appends its bytes with one push_back per byte.
      if val <= 23 {
        buf := buf + [major * 32 + val];
      } else if val <= 0xFF {
        BigEndian1(val);
        buf := buf + ([major * 32 + 24] + [val]);
      } else if val <= 0xFFFF {
        BigEndian2(val);
        buf := buf + ([major * 32 + 25] + [val / 0x100 % 256, val % 256]);
      } else if val <= 0xFFFF_FFFF {
        BigEndian4(val);
        buf := buf + ([major * 32 + 26] +
                      [val / 0x100_0000 % 256, val / 0x1_0000 % 256, val / 0x100 % 256, val % 256]);
      } else {
        BigEndian8(val);
        buf := buf + ([major * 32 + 27] +
                      [val / 0x100_0000_0000_0000 % 256, val / 0x1_0000_0000_0000 % 256,
                       val / 0x100_0000_0000 % 256, val / 0x1_0000_0000 % 256, val / 0x100_0000 % 256,
                       val / 0x1_0000 % 256, val / 0x100 % 256, val % 256]);
      }
    }

    method EncodeUint(val: nat)
      requires val < MAX64
      modifies this
      ensures buf == old(buf) + UintItem(val)
    {
      EncodeHead(0, val);
    }

    method EncodeInt(val: int)
      requires Int64(val)
      modifies this
      ensures buf == old(buf) + IntItem(val)
    {
      if val >= 0 {
        EncodeUint(val);
      } else {
        EncodeHead(1, -1 - val);
      }
    }

    method EncodeBytes(data: Bytes)
      requires |data| < MAX64
      modifies this
      ensures buf == old(buf) + BytesItem(data)
    {
      EncodeHead(2, |data|);
      buf := buf + data;
    }

    method EncodeString(s: Bytes)
      requires |s| < MAX64
      modifies this
      ensures buf == old(buf) + StringItem(s)
    {
      EncodeHead(3, |s|);
      buf := buf + s;
    }

    method EncodeArray(count: nat)
      requires count < MAX64
      modifies this
      ensures buf == old(buf) + Head(4, count)
    {
      EncodeHead(4, count);
    }

    method EncodeMap(count: nat)
      requires count < MAX64
      modifies this
      ensures buf == old(buf) + Head(5, count)
    {
      EncodeHead(5, count);
    }
  }

  class Decoder {
    const data: Bytes
    var pos: nat

    ghost predicate Valid()
      reads this
    {
      pos <= |data|
    }

    constructor (data: Bytes)
      ensures this.data == data && pos == 0 && Valid()
    {
      this.data := data;
      pos := 0;
    }

    method DecodeHead() returns (r: Result<HeadValue>)
      requires Valid()
      modifies this
      ensures Valid() && Step(r, pos) == HeadAt(data, old(pos))
    {
      if pos >= |data| {
        return Err(700);
      }
      var ib := data[pos];
      pos := pos + 1;
      var major, ai := ib / 32, ib % 32;
      if ai <= 23 {
        return Ok(HeadValue(major, ai));
      }
      var val: nat, extra: nat := 0, 0;
      if ai == 24 {
        extra := 1;
      } else if ai == 25 {
        extra := 2;
      } else if ai == 26 {
        extra := 4;
      } else if ai == 27 {
        extra := 8;
      } else {
        return Err(701);
      }
      if pos + extra > |data| {
        return Err(700);
      }
      for i := 0 to extra
        invariant pos == old(pos) + 1 + i
        invariant val == FromBigEndian(data[old(pos) + 1..old(pos) + 1 + i])
      {
        assert data[old(pos) + 1..pos + 1][..i] == data[old(pos) + 1..pos];
        val := val * 256 + data[pos];
        pos := pos + 1;
      }
      return Ok(HeadValue(major, val));
    }

    method DecodeUint() returns (r: Result<nat>)
      requires Valid()
      modifies this
      ensures Valid() && Step(r, pos) == UintAt(data, old(pos))
    {
      hide HeadAt;
      var h := DecodeHead();
      if h.Err? {
        return Err(h.code);
      }
      if h.value.major != 0 {
        return Err(702);
      }
      return Ok(h.value.val);
    }

    method DecodeInt() returns (r: Result<int>)
      requires Valid()
      modifies this
      ensures Valid() && Step(r, pos) == IntAt(data, old(pos))
    {
      hide HeadAt;
      HeadAtBound(data, pos);
      var h := DecodeHead();
      if h.Err? {
        return Err(h.code);
      }
      if h.value.major == 0 {
        return Ok(ToInt64(h.value.val));
      } else if h.value.major == 1 {
        return Ok(-1 - ToInt64(h.value.val));
      }
      return Err(703);
    }

    method DecodeBytes() returns (r: Result<Bytes>)
      requires Valid()
      modifies this
      ensures Valid() && Step(r, pos) == BytesAt(data, old(pos))
    {
      hide HeadAt;
      var h := DecodeHead();
      if h.Err? {
        return Err(h.code);
      }
      if h.value.major != 2 {
        return Err(704);
      }
      var n := h.value.val;
      if pos + n > |data| {
        return Err(700);
      }
      r := Ok(data[pos..pos + n]);
      pos := pos + n;
    }

    method DecodeString() returns (r: Result<Bytes>)
      requires Valid()
      modifies this
      ensures Valid() && Step(r, pos) == StringAt(data, old(pos))
    {
      hide HeadAt;
      var h := DecodeHead();
      if h.Err? {
        return Err(h.code);
      }
      if h.value.major != 3 {
        return Err(705);
      }
      var n := h.value.val;
      if pos + n > |data| {
        return Err(700);
      }
      r := Ok(data[pos..pos + n]);
      pos := pos + n;
    }

    method DecodeArraySize() returns (r: Result<nat>)
      requires Valid()
      modifies this
      ensures Valid() && Step(r, pos) == ArraySizeAt(data, old(pos))
    {
      hide HeadAt;
      var h := DecodeHead();
      if h.Err? {
        return Err(h.code);
      }
      if h.value.major != 4 {
        return Err(706);
      }
      return Ok(h.value.val);
    }

    method DecodeMapSize() returns (r: Result<nat>)
      requires Valid()
      modifies this
      ensures Valid() && Step(r, pos) == MapSizeAt(data, old(pos))
    {
      hide HeadAt;
      var h := DecodeHead();
      if h.Err? {
        return Err(h.code);
      }
      if h.value.major != 5 {
        return Err(707);
      }
      return Ok(h.value.val);
    }

    method Skip() returns (r: Result<()>)
      requires Valid()
      modifies this
      ensures Valid() && Step(r, pos) == SkipAt(data, old(pos))
      decreases |data| - pos
    {
      hide HeadAt, TypedAt, BlobAt;
      if pos >= |data| {
        return Err(700);
      }
      var major := data[pos] / 32;
      if major == 0 || major == 1 || major == 7 {
        var ignored := DecodeHead();
        return Ok(());
      } else if major == 2 {
        var b := DecodeBytes();
        return if b.Ok? then Ok(()) else Err(b.code);
      } else if major == 3 {
        var b := DecodeString();
        return if b.Ok? then Ok(()) else Err(b.code);
      } else if major == 4 {
        var n := DecodeArraySize();
        if n.Err? {
          return Err(n.code);
        }
        for i := 0 to n.value
          invariant Valid() && old(pos) < pos
          invariant SkipManyAt(data, pos, n.value - i) == SkipAt(data, old(pos))
        {
          r := Skip();
          if r.Err? {
            return;
          }
        }
        return Ok(());
      } else if major == 5 {
        var n := DecodeMapSize();
        if n.Err? {
          return Err(n.code);
        }
        for i := 0 to 2 * n.value
          invariant Valid() && old(pos) < pos
          invariant SkipManyAt(data, pos, 2 * n.value - i) == SkipAt(data, old(pos))
        {
          r := Skip();
          if r.Err? {
            return;
          }
        }
        return Ok(());
      }
      return Err(708);
    }
  }
}
