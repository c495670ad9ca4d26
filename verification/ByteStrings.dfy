/** Byte strings, big-endian numbers and the casts between signed and unsigned 64-bit words. */
module ByteStrings {

  type Byte = x: int | 0 <= x < 256

  type Bytes = seq<Byte>

  const MAX32: nat := 0x1_0000_0000
  const MAX64: nat := 0x1_0000_0000_0000_0000

  predicate Int64(i: int) { -(MAX64 / 2) <= i < MAX64 / 2 }

  function ToInt64(n: nat): int
    requires n < MAX64
  {
    if n < MAX64 / 2 then n else n - MAX64
  }

  function ToUint64(i: int): (n: nat)
    requires Int64(i)
    ensures n < MAX64 && ToInt64(n) == i
  {
    if i >= 0 then i else i + MAX64
  }

  /** The k low-order bytes of n, most significant first. */
  function BigEndian(n: nat, k: nat): (bs: Bytes)
    ensures |bs| == k
    decreases k
  {
    if k == 0 then [] else BigEndian(n / 256, k - 1) + [n % 256]
  }

  function FromBigEndian(bs: Bytes): nat {
    if bs == [] then 0 else 256 * FromBigEndian(bs[..|bs| - 1]) + bs[|bs| - 1]
  }

  ghost function Pow256(k: nat): nat { if k == 0 then 1 else 256 * Pow256(k - 1) }

  lemma Powers()
    ensures Pow256(1) == 0x100 && Pow256(2) == 0x1_0000 && Pow256(4) == 0x1_0000_0000
    ensures Pow256(8) == 0x1_0000_0000_0000_0000
  {
    assert Pow256(2) == 0x1_0000;
    assert Pow256(4) == 256 * (256 * Pow256(2));
    assert Pow256(6) == 256 * (256 * Pow256(4));
    assert Pow256(8) == 256 * (256 * Pow256(6));
  }

  lemma {:induction false} BigEndianRoundTrip(n: nat, k: nat)
    requires n < Pow256(k)
    ensures FromBigEndian(BigEndian(n, k)) == n
    decreases k
  {
    if k > 0 {
      BigEndianRoundTrip(n / 256, k - 1);
      var bs := BigEndian(n, k);
      assert bs[..k - 1] == BigEndian(n / 256, k - 1);
    }
  }

  lemma {:induction false} BigEndianInverse(bs: Bytes)
    ensures BigEndian(FromBigEndian(bs), |bs|) == bs
    decreases |bs|
  {
    if bs != [] {
      var n := |bs| - 1;
      BigEndianInverse(bs[..n]);
      assert bs == bs[..n] + [bs[n]];
    }
  }

  // The bytes that fixed-width writers push one by one.

  lemma BigEndian1(n: nat)
    requires n < 256
    ensures BigEndian(n, 1) == [n]
  {
    assert BigEndian(n, 1) == BigEndian(n / 256, 0) + [n % 256];
  }

  lemma BigEndian2(n: nat)
    ensures BigEndian(n, 2) == [n / 0x100 % 256, n % 256]
  {
    assert BigEndian(n / 256, 1) == BigEndian(n / 256 / 256, 0) + [n / 256 % 256];
  }

  lemma BigEndianSplit(n: nat, k: nat)
    requires k >= 2
    ensures BigEndian(n, k) == BigEndian(n / 0x1_0000, k - 2) + [n / 0x100 % 256, n % 256]
  {
    assert n / 256 / 256 == n / 0x1_0000;
    assert BigEndian(n, k) == BigEndian(n / 256, k - 1) + [n % 256];
    assert BigEndian(n / 256, k - 1) == BigEndian(n / 256 / 256, k - 2) + [n / 256 % 256];
  }

  lemma DivDiv(n: nat)
    ensures n / 0x1_0000 / 0x100 == n / 0x100_0000
    ensures n / 0x1_0000 / 0x1_0000 == n / 0x1_0000_0000
    ensures n / 0x1_0000_0000 / 0x100 == n / 0x100_0000_0000
    ensures n / 0x1_0000_0000 / 0x1_0000 == n / 0x1_0000_0000_0000
    ensures n / 0x1_0000_0000 / 0x100_0000 == n / 0x100_0000_0000_0000
  {}

  lemma BigEndian4(n: nat)
    ensures BigEndian(n, 4) == [n / 0x100_0000 % 256, n / 0x1_0000 % 256, n / 0x100 % 256, n % 256]
  {
    hide BigEndian;
    BigEndianSplit(n, 4);
    BigEndian2(n / 0x1_0000);
    DivDiv(n);
  }

  lemma BigEndian8(n: nat)
    ensures BigEndian(n, 8) == [n / 0x100_0000_0000_0000 % 256, n / 0x1_0000_0000_0000 % 256, n / 0x100_0000_0000 % 256,
                                n / 0x1_0000_0000 % 256, n / 0x100_0000 % 256, n / 0x1_0000 % 256, n / 0x100 % 256, n % 256]
  {
    hide BigEndian;
    BigEndianSplit(n, 8);
    BigEndianSplit(n / 0x1_0000, 6);
    BigEndian4(n / 0x1_0000_0000);
    DivDiv(n);
  }

  lemma {:induction false} FromBigEndianBound(bs: Bytes)
    ensures FromBigEndian(bs) < Pow256(|bs|)
    decreases |bs|
  {
    if bs != [] { FromBigEndianBound(bs[..|bs| - 1]); }
  }

  /** The byte string bs stands in data at position pos. */
  ghost predicate At(data: Bytes, pos: nat, bs: Bytes) {
    pos + |bs| <= |data| && data[pos..pos + |bs|] == bs
  }

  lemma AtSplit(data: Bytes, pos: nat, a: Bytes, b: Bytes)
    requires At(data, pos, a + b)
    ensures At(data, pos, a) && At(data, pos + |a|, b)
  {
    var s := data[pos..pos + |a + b|];
    assert s[..|a|] == a && s[|a|..] == b;
    assert data[pos..pos + |a|] == s[..|a|];
    assert data[pos + |a|..pos + |a| + |b|] == s[|a|..];
  }

  lemma AtByte(data: Bytes, pos: nat, bs: Bytes, i: nat)
    requires At(data, pos, bs) && i < |bs|
    ensures data[pos + i] == bs[i]
  {
    assert data[pos..pos + |bs|][i] == bs[i];
  }

  lemma Regroup(a: Bytes, b: Bytes, c: Bytes)
    ensures a + b + c == a + (b + c)
  {}

  lemma AtEmbed(pre: Bytes, bs: Bytes, post: Bytes)
    ensures At(pre + bs + post, |pre|, bs)
  {
    assert (pre + bs + post)[|pre|..|pre| + |bs|] == bs;
  }

  function Zeros(n: nat): (bs: Bytes)
    ensures |bs| == n
  {
    seq(n, i => 0)
  }

  // ---------- the order of std::string

  predicate Less(a: Bytes, b: Bytes) {
    b != [] && (a == [] || a[0] < b[0] || (a[0] == b[0] && Less(a[1..], b[1..])))
  }

  lemma {:induction false} LessIrreflexive(a: Bytes)
    ensures !Less(a, a)
    decreases |a|
  {
    if a != [] { LessIrreflexive(a[1..]); }
  }

  lemma {:induction false} LessTransitive(a: Bytes, b: Bytes, c: Bytes)
    requires Less(a, b) && Less(b, c)
    ensures Less(a, c)
    decreases |a|
  {
    if a != [] && a[0] == b[0] && b[0] == c[0] { LessTransitive(a[1..], b[1..], c[1..]); }
  }

  lemma {:induction false} LessTotal(a: Bytes, b: Bytes)
    ensures Less(a, b) || a == b || Less(b, a)
    decreases |a|
  {
    if a != [] && b != [] && a[0] == b[0] {
      LessTotal(a[1..], b[1..]);
      assert a == [a[0]] + a[1..] && b == [b[0]] + b[1..];
    }
  }

  /** The first byte in which two strings differ decides their order, and a proper prefix comes first. */
  lemma {:induction false} LessMeaning(a: Bytes, b: Bytes)
    ensures Less(a, b) <==>
      exists k :: 0 <= k <= |a| && k < |b| && a[..k] == b[..k] && (k == |a| || a[k] < b[k])
    decreases |a|
  {
    if a != [] && b != [] && a[0] == b[0] {
      LessMeaning(a[1..], b[1..]);
      if Less(a[1..], b[1..]) {
        var k :| 0 <= k <= |a[1..]| && k < |b[1..]| && a[1..][..k] == b[1..][..k] && (k == |a[1..]| || a[1..][k] < b[1..][k]);
        assert a[..k + 1] == [a[0]] + a[1..][..k] && b[..k + 1] == [b[0]] + b[1..][..k];
        assert k + 1 == |a| || a[k + 1] < b[k + 1];
      }
      if k :| 0 <= k <= |a| && k < |b| && a[..k] == b[..k] && (k == |a| || a[k] < b[k]) {
        assert k > 0;
        assert a[1..][..k - 1] == a[..k][1..] && b[1..][..k - 1] == b[..k][1..];
        assert k - 1 == |a[1..]| || a[1..][k - 1] < b[1..][k - 1];
      }
    } else if Less(a, b) {
      assert a[..0] == b[..0];
    } else {
      forall k | 0 <= k <= |a| && k < |b| && (k == |a| || a[k] < b[k]) ensures a[..k] != b[..k] {
        assert a[..k][0] == a[0] && b[..k][0] == b[0];
      }
    }
  }

  function Joined(parts: seq<Bytes>): Bytes {
    if parts == [] then [] else parts[0] + Joined(parts[1..])
  }
}
