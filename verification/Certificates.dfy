/** Certificates and signing requests: length-prefixed serialisation. */
module Certificates {
  import opened Results
  import opened ByteStrings

  // ---------- records as lists of items

  datatype Kind = KBlob | KByte | KU64

  datatype Item = Blob(b: Bytes) | Octet(v: Byte) | U64(n: nat)

  function KindOf(i: Item): Kind { if i.Blob? then KBlob else if i.Octet? then KByte else KU64 }

  function Kinds(items: seq<Item>): (ks: seq<Kind>)
    ensures |ks| == |items|
  {
    seq(|items|, i requires 0 <= i < |items| => KindOf(items[i]))
  }

  /** static_cast<uint32_t> of a size. */
  function Low32(n: nat): (r: nat)
    ensures r <= n && r < MAX32 && (r == n <==> n < MAX32)
  {
    n % 0x1_0000_0000
  }

  /** append_bytes, push_back and append_u64. The length prefix is cut to 32 bits. */
  function Write(i: Item): Bytes {
    match i
    case Blob(b) => BigEndian(Low32(|b|), 4) + b
    case Octet(v) => [v]
    case U64(n) => BigEndian(n / MAX32 % MAX32, 4) + BigEndian(n % MAX32, 4)
  }

  function WriteAll(items: seq<Item>): Bytes {
    if items == [] then [] else Write(items[0]) + WriteAll(items[1..])
  }

  /** What fits its slot: lengths below 2^32, numbers below 2^64. */
  ghost predicate Fits(i: Item) {
    match i
    case Blob(b) => |b| < MAX32
    case Octet(_) => true
    case U64(n) => n < MAX64
  }

  datatype Read<+T> = Fail | Read(value: T, pos: nat)

  function ReadU32(data: Bytes, pos: nat): (r: Read<nat>)
    ensures r.Read? ==> r.pos == pos + 4 <= |data|
  {
    if pos + 4 > |data| then Fail else Read(FromBigEndian(data[pos..pos + 4]), pos + 4)
  }

  function ReadItem(kind: Kind, data: Bytes, pos: nat): (r: Read<Item>)
    ensures r.Read? ==> pos < r.pos <= |data| && KindOf(r.value) == kind
  {
    match kind
    case KBlob =>
      var n := ReadU32(data, pos);
      if n.Fail? || n.pos + n.value > |data| then Fail
      else Read(Blob(data[n.pos..n.pos + n.value]), n.pos + n.value)
    case KByte => if pos >= |data| then Fail else Read(Octet(data[pos]), pos + 1)
    case KU64 =>
      var hi := ReadU32(data, pos);
      if hi.Fail? then Fail
      else
        var lo := ReadU32(data, hi.pos);
        if lo.Fail? then Fail else Read(U64(hi.value * MAX32 + lo.value), lo.pos)
  }

  function ReadAll(kinds: seq<Kind>, data: Bytes, pos: nat): (r: Read<seq<Item>>)
    ensures r.Read? ==> |r.value| == |kinds| && (pos <= |data| ==> pos <= r.pos <= |data|)
    ensures r.Read? ==> forall i :: 0 <= i < |kinds| ==> KindOf(r.value[i]) == kinds[i]
  {
    if kinds == [] then Read([], pos)
    else
      var i := ReadItem(kinds[0], data, pos);
      if i.Fail? then Fail
      else
        var rest := ReadAll(kinds[1..], data, i.pos);
        if rest.Fail? then Fail else Read([i.value] + rest.value, rest.pos)
  }

  // ---------- reading inverts writing

  lemma ReadU32Back(data: Bytes, pos: nat, n: nat)
    requires n < MAX32 && At(data, pos, BigEndian(n, 4))
    ensures ReadU32(data, pos) == Read(n, pos + 4)
  {
    hide BigEndian, FromBigEndian;
    Powers();
    BigEndianRoundTrip(n, 4);
  }

  lemma Prefix(data: Bytes, pos: nat, m: nat, n: nat)
    requires n <= m && pos + m <= |data|
    ensures data[pos..pos + n] == data[pos..pos + m][..n]
  {}

  /** A blob comes back cut to its length modulo 2^32: in full exactly when it fits. */
  lemma ReadBlobBack(data: Bytes, pos: nat, b: Bytes)
    requires At(data, pos, Write(Blob(b)))
    ensures ReadItem(KBlob, data, pos) == Read(Blob(b[..Low32(|b|)]), pos + 4 + Low32(|b|))
  {
    hide BigEndian, FromBigEndian, Low32;
    var n := Low32(|b|);
    AtSplit(data, pos, BigEndian(n, 4), b);
    ReadU32Back(data, pos, n);
    Prefix(data, pos + 4, |b|, n);
  }

  lemma ReadItemBack(data: Bytes, pos: nat, i: Item)
    requires Fits(i) && At(data, pos, Write(i))
    ensures ReadItem(KindOf(i), data, pos) == Read(i, pos + |Write(i)|)
  {
    hide BigEndian, FromBigEndian;
    match i
    case Blob(b) =>
      ReadBlobBack(data, pos, b);
      assert b[..|b|] == b;
    case Octet(v) => AtByte(data, pos, [v], 0);
    case U64(n) =>
      assert n / MAX32 % MAX32 == n / MAX32;
      AtSplit(data, pos, BigEndian(n / MAX32, 4), BigEndian(n % MAX32, 4));
      ReadU32Back(data, pos, n / MAX32);
      ReadU32Back(data, pos + 4, n % MAX32);
  }

  lemma {:induction false} ReadAllBack(data: Bytes, pos: nat, items: seq<Item>)
    requires (forall i :: 0 <= i < |items| ==> Fits(items[i])) && At(data, pos, WriteAll(items))
    ensures ReadAll(Kinds(items), data, pos) == Read(items, pos + |WriteAll(items)|)
    decreases |items|
  {
    hide Fits, Write, At, ReadItem;
    if items != [] {
      AtSplit(data, pos, Write(items[0]), WriteAll(items[1..]));
      ReadItemBack(data, pos, items[0]);
      ReadAllBack(data, pos + |Write(items[0])|, items[1..]);
      assert Kinds(items)[1..] == Kinds(items[1..]);
      assert [items[0]] + items[1..] == items;
    }
  }

  ghost predicate NumbersFit(items: seq<Item>) {
    forall i :: 0 <= i < |items| ==> items[i].Blob? || Fits(items[i])
  }

  ghost predicate SameBlobs(items: seq<Item>, items': seq<Item>) {
    |items| == |items'| && forall i :: 0 <= i < |items| && items[i].Blob? ==> items'[i] == items[i]
  }

  lemma FirstFits(data: Bytes, pos: nat, item: Item)
    requires (item.Blob? || Fits(item)) && At(data, pos, Write(item))
    requires item.Blob? ==> ReadItem(KBlob, data, pos).Read? && ReadItem(KBlob, data, pos).value == item
    ensures Fits(item)
  {
    hide Write, At, ReadItem, Low32;
    if item.Blob? {
      ReadBlobBack(data, pos, item.b);
      assert |item.b| == Low32(|item.b|);
    }
  }

  lemma SameBlobsTail(item: Item, rest: seq<Item>, items: seq<Item>)
    requires items != [] && SameBlobs(items, [item] + rest)
    ensures SameBlobs(items[1..], rest) && (items[0].Blob? ==> item == items[0])
  {
    var all := [item] + rest;
    assert items[0].Blob? ==> all[0] == items[0];
    forall i | 0 <= i < |items| - 1 && items[1..][i].Blob? ensures rest[i] == items[1..][i] {
      assert items[i + 1].Blob? && all[i + 1] == rest[i];
    }
  }

  /** And a list with a blob that does not fit is not read back. */
  lemma {:induction false} ReadAllOnlyIfFits(data: Bytes, pos: nat, items: seq<Item>)
    requires NumbersFit(items) && At(data, pos, WriteAll(items))
    requires ReadAll(Kinds(items), data, pos).Read? && SameBlobs(items, ReadAll(Kinds(items), data, pos).value)
    ensures forall i :: 0 <= i < |items| ==> Fits(items[i])
    decreases |items|
  {
    hide Write, At, ReadItem, SameBlobs, Fits;
    if items != [] {
      AtSplit(data, pos, Write(items[0]), WriteAll(items[1..]));
      var one := ReadItem(KindOf(items[0]), data, pos);
      assert Kinds(items)[1..] == Kinds(items[1..]);
      var rest := ReadAll(Kinds(items[1..]), data, one.pos);
      SameBlobsTail(one.value, rest.value, items);
      FirstFits(data, pos, items[0]);
      ReadItemBack(data, pos, items[0]);
      ReadAllOnlyIfFits(data, pos + |Write(items[0])|, items[1..]);
      forall i | 0 <= i < |items| ensures Fits(items[i]) {
        if i > 0 { assert items[i] == items[1..][i - 1]; }
      }
    }
  }

  /** Lists of the same kinds that fit have different serialisations, none a prefix of another. */
  lemma WriteAllInjective(items: seq<Item>, items': seq<Item>)
    requires (forall i :: 0 <= i < |items| ==> Fits(items[i])) && (forall i :: 0 <= i < |items'| ==> Fits(items'[i]))
    requires Kinds(items) == Kinds(items') && WriteAll(items) <= WriteAll(items')
    ensures items == items'
  {
    hide WriteAll, ReadAll, Kinds, Fits;
    var data := WriteAll(items');
    assert data == WriteAll(items) + data[|WriteAll(items)|..];
    AtEmbed([], WriteAll(items), data[|WriteAll(items)|..]);
    assert [] + WriteAll(items) + data[|WriteAll(items)|..] == data;
    AtEmbed([], data, []);
    assert [] + data + [] == data;
    ReadAllBack(data, 0, items);
    ReadAllBack(data, 0, items');
  }

  // ---------- certificates

  datatype Certificate = Certificate(
    subjectPubkey: Bytes, issuerPubkey: Bytes, meshId: Bytes, role: Byte, displayName: Bytes, capabilities: Bytes,
    epoch: nat, notBefore: int, notAfter: int, signature: Bytes)

  ghost predicate WellTyped(c: Certificate) { c.epoch < MAX64 && Int64(c.notBefore) && Int64(c.notAfter) }

  const CERT_KINDS := [KBlob, KBlob, KBlob, KByte, KBlob, KBlob, KU64, KU64, KU64]

  function BodyItems(c: Certificate): seq<Item>
    requires WellTyped(c)
  {
    [Blob(c.meshId), Blob(c.subjectPubkey), Blob(c.issuerPubkey), Octet(c.role), Blob(c.displayName),
     Blob(c.capabilities), U64(c.epoch), U64(ToUint64(c.notBefore)), U64(ToUint64(c.notAfter))]
  }

  /** The signed body: every field but the signature. */
  function Body(c: Certificate): Bytes
    requires WellTyped(c)
  {
    WriteAll(BodyItems(c))
  }

  function Full(c: Certificate): Bytes
    requires WellTyped(c)
  {
    Body(c) + Write(Blob(c.signature))
  }

  function AsBlob(i: Item): Bytes { if i.Blob? then i.b else [] }

  function AsByte(i: Item): Byte { if i.Octet? then i.v else 0 }

  function AsWord(i: Item): (n: nat)
    ensures n < MAX64
  {
    if i.U64? then i.n % MAX64 else 0
  }

  function FromItems(items: seq<Item>, signature: Bytes): Certificate
    requires |items| == 9
  {
    Certificate(AsBlob(items[1]), AsBlob(items[2]), AsBlob(items[0]), AsByte(items[3]), AsBlob(items[4]),
                AsBlob(items[5]), AsWord(items[6]), ToInt64(AsWord(items[7])), ToInt64(AsWord(items[8])), signature)
  }

  /** Certificate::deserialize; a missing signature is accepted, every other shortfall is error 203. */
  function Deserialize(data: Bytes): Result<Certificate> {
    var body := ReadAll(CERT_KINDS, data, 0);
    if body.Fail? then Err(203)
    else if body.pos >= |data| then Ok(FromItems(body.value, []))
    else
      var sig := ReadItem(KBlob, data, body.pos);
      if sig.Fail? then Err(203) else Ok(FromItems(body.value, AsBlob(sig.value)))
  }

  /** Every byte-string field is shorter than 2^32. */
  ghost predicate LengthsFit(c: Certificate) {
    && |c.meshId| < MAX32 && |c.subjectPubkey| < MAX32 && |c.issuerPubkey| < MAX32
    && |c.displayName| < MAX32 && |c.capabilities| < MAX32
  }

  lemma BodyFits(c: Certificate)
    requires WellTyped(c)
    ensures NumbersFit(BodyItems(c)) && Kinds(BodyItems(c)) == CERT_KINDS
    ensures (forall i :: 0 <= i < 9 ==> Fits(BodyItems(c)[i])) <==> LengthsFit(c)
    ensures forall sig :: FromItems(BodyItems(c), sig) == c.(signature := sig)
  {
    hide Kinds, NumbersFit, Fits, LengthsFit, BodyItems, FromItems;
    BodyKinds(c);
    BodyLengths(c);
    forall sig ensures FromItems(BodyItems(c), sig) == c.(signature := sig) { BodyFields(c, sig); }
  }

  lemma BodyFields(c: Certificate, sig: Bytes)
    requires WellTyped(c)
    ensures FromItems(BodyItems(c), sig) == c.(signature := sig)
  {}

  lemma BodyKinds(c: Certificate)
    requires WellTyped(c)
    ensures NumbersFit(BodyItems(c)) && Kinds(BodyItems(c)) == CERT_KINDS
  {}

  lemma BodyLengths(c: Certificate)
    requires WellTyped(c)
    ensures (forall i :: 0 <= i < 9 ==> Fits(BodyItems(c)[i])) <==> LengthsFit(c)
  {
    var items := BodyItems(c);
    if forall i :: 0 <= i < 9 ==> Fits(items[i]) {
      assert Fits(items[0]) && Fits(items[1]) && Fits(items[2]) && Fits(items[4]) && Fits(items[5]);
    }
  }

  lemma ReadBodyBack(c: Certificate, trailer: Bytes)
    requires WellTyped(c) && LengthsFit(c)
    ensures ReadAll(CERT_KINDS, Body(c) + trailer, 0) == Read(BodyItems(c), |Body(c)|)
  {
    hide WriteAll, ReadAll, BodyItems, Fits, LengthsFit, FromItems;
    BodyFits(c);
    AtEmbed([], Body(c), trailer);
    assert [] + Body(c) + trailer == Body(c) + trailer;
    ReadAllBack(Body(c) + trailer, 0, BodyItems(c));
  }

  lemma AtTail(a: Bytes, b: Bytes)
    ensures At(a + b, |a|, b)
  {
    AtEmbed(a, b, []);
    assert a + b + [] == a + b;
  }

  /** The wire form gives the certificate back exactly when all its byte strings are shorter than 2^32. */
  lemma CertificateRoundTrip(c: Certificate)
    requires WellTyped(c)
    ensures Deserialize(Full(c)) == Ok(c) <==> LengthsFit(c) && |c.signature| < MAX32
  {
    hide WriteAll, ReadAll, BodyItems, Fits, LengthsFit, FromItems, At, Write;
    BodyFits(c);
    var data, sig := Full(c), Blob(c.signature);
    if LengthsFit(c) {
      ReadBodyBack(c, Write(sig));
      AtTail(Body(c), Write(sig));
      ReadBlobBack(data, |Body(c)|, c.signature);
      WriteBlobNonempty(c.signature);
      if |c.signature| < MAX32 {
        assert c.signature[..|c.signature|] == c.signature;
      } else {
        assert |c.signature[..Low32(|c.signature|)]| != |c.signature|;
        SignatureOf(BodyItems(c), c.signature[..Low32(|c.signature|)]);
      }
    } else if Deserialize(data) == Ok(c) {
      OversizeLost(c, data);
    }
  }

  lemma WriteBlobNonempty(b: Bytes)
    ensures |Write(Blob(b))| >= 4
  {}

  lemma SignatureOf(items: seq<Item>, sig: Bytes)
    requires |items| == 9
    ensures FromItems(items, sig).signature == sig
  {}

  lemma SameFields(items: seq<Item>, sig: Bytes, c: Certificate)
    requires WellTyped(c) && |items| == 9 && FromItems(items, sig) == c
    requires forall i :: 0 <= i < 9 ==> KindOf(items[i]) == CERT_KINDS[i]
    ensures SameBlobs(BodyItems(c), items)
  {
    assert KindOf(items[0]) == CERT_KINDS[0] && KindOf(items[1]) == CERT_KINDS[1] && KindOf(items[2]) == CERT_KINDS[2];
    assert KindOf(items[4]) == CERT_KINDS[4] && KindOf(items[5]) == CERT_KINDS[5];
  }

  lemma OversizeLost(c: Certificate, data: Bytes)
    requires WellTyped(c) && data == Full(c) && Deserialize(data) == Ok(c)
    ensures LengthsFit(c)
  {
    hide WriteAll, ReadAll, Fits, At, Write, FromItems, BodyItems, LengthsFit;
    BodyFits(c);
    AtEmbed([], Body(c), Write(Blob(c.signature)));
    assert [] + Body(c) + Write(Blob(c.signature)) == data;
    var body := ReadAll(CERT_KINDS, data, 0);
    SameFields(body.value, c.signature, c) by { SignatureField(data, c); }
    ReadAllOnlyIfFits(data, 0, BodyItems(c));
  }

  lemma SignatureField(data: Bytes, c: Certificate)
    requires Deserialize(data) == Ok(c)
    ensures ReadAll(CERT_KINDS, data, 0).Read? && FromItems(ReadAll(CERT_KINDS, data, 0).value, c.signature) == c
  {
    hide ReadAll, ReadItem;
  }

  /** A body without a signature is a certificate without a signature. */
  lemma UnsignedRoundTrip(c: Certificate)
    requires WellTyped(c) && LengthsFit(c)
    ensures Deserialize(Body(c)) == Ok(c.(signature := []))
  {
    hide WriteAll, ReadAll, BodyItems, Fits, LengthsFit, FromItems;
    BodyFits(c);
    ReadBodyBack(c, []);
    assert Body(c) + [] == Body(c);
  }

  /** Certificates that differ in any signed field have different signing bodies, none a prefix of another. */
  lemma BodyInjective(c: Certificate, d: Certificate)
    requires WellTyped(c) && WellTyped(d) && LengthsFit(c) && LengthsFit(d) && Body(c) <= Body(d)
    ensures c.(signature := []) == d.(signature := [])
  {
    hide WriteAll, BodyItems, Fits, LengthsFit, FromItems;
    BodyFits(c);
    BodyFits(d);
    WriteAllInjective(BodyItems(c), BodyItems(d));
    assert FromItems(BodyItems(c), []) == FromItems(BodyItems(d), []);
  }

  // ---------- signing requests

  datatype SigningRequest = SigningRequest(
    newPublicKey: Bytes, meshId: Bytes, oldCertHash: Bytes, displayName: Bytes, platform: Bytes, version: Bytes,
    timestamp: int, signature: Bytes)

  const CSR_KINDS := [KBlob, KBlob, KBlob, KBlob, KBlob, KBlob, KU64, KBlob]

  function CsrBodyItems(r: SigningRequest): seq<Item>
    requires Int64(r.timestamp)
  {
    [Blob(r.newPublicKey), Blob(r.meshId), Blob(r.oldCertHash), Blob(r.displayName), Blob(r.platform),
     Blob(r.version), U64(ToUint64(r.timestamp))]
  }

  function CsrBody(r: SigningRequest): Bytes
    requires Int64(r.timestamp)
  {
    WriteAll(CsrBodyItems(r))
  }

  function CsrFull(r: SigningRequest): Bytes
    requires Int64(r.timestamp)
  {
    CsrBody(r) + Write(Blob(r.signature))
  }

  function CsrFromItems(items: seq<Item>): SigningRequest
    requires |items| == 8
  {
    SigningRequest(AsBlob(items[0]), AsBlob(items[1]), AsBlob(items[2]), AsBlob(items[3]), AsBlob(items[4]),
                   AsBlob(items[5]), ToInt64(AsWord(items[6])), AsBlob(items[7]))
  }

  function CsrDeserialize(data: Bytes): Result<SigningRequest> {
    var items := ReadAll(CSR_KINDS, data, 0);
    if items.Fail? then Err(209) else Ok(CsrFromItems(items.value))
  }

  ghost predicate CsrLengthsFit(r: SigningRequest) {
    && |r.newPublicKey| < MAX32 && |r.meshId| < MAX32 && |r.oldCertHash| < MAX32 && |r.displayName| < MAX32
    && |r.platform| < MAX32 && |r.version| < MAX32
  }

  lemma {:induction false} WriteAllSnoc(items: seq<Item>, last: Item)
    ensures WriteAll(items + [last]) == WriteAll(items) + Write(last)
    decreases |items|
  {
    hide Write;
    var all := items + [last];
    if items == [] {
      assert all[1..] == [];
    } else {
      assert all[1..] == items[1..] + [last];
      WriteAllSnoc(items[1..], last);
    }
  }

  lemma CsrFits(r: SigningRequest, all: seq<Item>)
    requires Int64(r.timestamp) && all == CsrBodyItems(r) + [Blob(r.signature)]
    ensures NumbersFit(all) && Kinds(all) == CSR_KINDS && CsrFromItems(all) == r
    ensures (forall i :: 0 <= i < 8 ==> Fits(all[i])) <==> CsrLengthsFit(r) && |r.signature| < MAX32
  {
    if forall i :: 0 <= i < 8 ==> Fits(all[i]) {
      assert Fits(all[0]) && Fits(all[1]) && Fits(all[2]) && Fits(all[3]) && Fits(all[4]) && Fits(all[5]) && Fits(all[7]);
    }
  }

  lemma CsrSameFields(items: seq<Item>, r: SigningRequest)
    requires Int64(r.timestamp) && |items| == 8 && CsrFromItems(items) == r
    requires forall i :: 0 <= i < 8 ==> KindOf(items[i]) == CSR_KINDS[i]
    ensures SameBlobs(CsrBodyItems(r) + [Blob(r.signature)], items)
  {
    assert KindOf(items[0]) == CSR_KINDS[0] && KindOf(items[1]) == CSR_KINDS[1] && KindOf(items[2]) == CSR_KINDS[2];
    assert KindOf(items[3]) == CSR_KINDS[3] && KindOf(items[4]) == CSR_KINDS[4] && KindOf(items[5]) == CSR_KINDS[5];
    assert KindOf(items[7]) == CSR_KINDS[7];
  }

  lemma SigningRequestRoundTrip(r: SigningRequest)
    requires Int64(r.timestamp)
    ensures CsrDeserialize(CsrFull(r)) == Ok(r) <==> CsrLengthsFit(r) && |r.signature| < MAX32
  {
    hide WriteAll, ReadAll, CsrBodyItems, Fits, CsrLengthsFit, CsrFromItems, Write, At;
    var all, data := CsrBodyItems(r) + [Blob(r.signature)], CsrFull(r);
    WriteAllSnoc(CsrBodyItems(r), Blob(r.signature));
    CsrFits(r, all);
    AtEmbed([], data, []);
    assert [] + data + [] == data;
    if CsrLengthsFit(r) && |r.signature| < MAX32 {
      ReadAllBack(data, 0, all);
    } else if CsrDeserialize(data) == Ok(r) {
      CsrSameFields(ReadAll(CSR_KINDS, data, 0).value, r);
      ReadAllOnlyIfFits(data, 0, all);
    }
  }

  lemma CsrBodyInjective(r: SigningRequest, s: SigningRequest)
    requires Int64(r.timestamp) && Int64(s.timestamp) && CsrLengthsFit(r) && CsrLengthsFit(s)
    requires CsrBody(r) <= CsrBody(s)
    ensures r.(signature := []) == s.(signature := [])
  {
    hide WriteAll, Fits;
    WriteAllInjective(CsrBodyItems(r), CsrBodyItems(s)) by { CsrBodyFits(r); CsrBodyFits(s); }
    var a, b := CsrBodyItems(r), CsrBodyItems(s);
    assert a[0] == b[0] && a[1] == b[1] && a[2] == b[2] && a[3] == b[3] && a[4] == b[4] && a[5] == b[5] && a[6] == b[6];
  }

  lemma CsrBodyFits(r: SigningRequest)
    requires Int64(r.timestamp) && CsrLengthsFit(r)
    ensures forall i :: 0 <= i < 7 ==> Fits(CsrBodyItems(r)[i])
    ensures Kinds(CsrBodyItems(r)) == CSR_KINDS[..7]
  {}

  // ---------- exactly what is read

  lemma U32Writes(data: Bytes, pos: nat)
    requires pos + 4 <= |data|
    ensures var n := FromBigEndian(data[pos..pos + 4]); n < MAX32 && BigEndian(n, 4) == data[pos..pos + 4]
  {
    hide BigEndian, FromBigEndian;
    FromBigEndianBound(data[pos..pos + 4]);
    Powers();
    BigEndianInverse(data[pos..pos + 4]);
  }

  lemma Halves(hi: nat, lo: nat)
    requires hi < MAX32 && lo < MAX32
    ensures var n := hi * MAX32 + lo; n < MAX64 && n / MAX32 % MAX32 == hi && n % MAX32 == lo
  {}

  lemma Slices(data: Bytes, a: nat, b: nat, c: nat)
    requires a <= b <= c <= |data|
    ensures data[a..c] == data[a..b] + data[b..c]
  {}

  /** What is read fits, and is there in its written form. */
  lemma ReadItemWrites(kind: Kind, data: Bytes, pos: nat)
    requires ReadItem(kind, data, pos).Read?
    ensures var r := ReadItem(kind, data, pos);
      Fits(r.value) && At(data, pos, Write(r.value)) && r.pos == pos + |Write(r.value)|
  {
    hide BigEndian, FromBigEndian;
    var r := ReadItem(kind, data, pos);
    match kind
    case KBlob =>
      U32Writes(data, pos);
      var n := FromBigEndian(data[pos..pos + 4]);
      Slices(data, pos, pos + 4, pos + 4 + n);
    case KByte =>
      assert data[pos..pos + 1] == [data[pos]];
    case KU64 =>
      U32Writes(data, pos);
      U32Writes(data, pos + 4);
      Halves(FromBigEndian(data[pos..pos + 4]), FromBigEndian(data[pos + 4..pos + 8]));
      Slices(data, pos, pos + 4, pos + 8);
  }

  lemma AtJoin(data: Bytes, pos: nat, a: Bytes, b: Bytes)
    requires At(data, pos, a) && At(data, pos + |a|, b)
    ensures At(data, pos, a + b)
  {
    assert data[pos..pos + |a + b|] == data[pos..pos + |a|] + data[pos + |a|..pos + |a| + |b|];
  }

  lemma {:induction false} ReadAllWrites(kinds: seq<Kind>, data: Bytes, pos: nat)
    requires pos <= |data| && ReadAll(kinds, data, pos).Read?
    ensures var r := ReadAll(kinds, data, pos);
      && Kinds(r.value) == kinds && (forall i :: 0 <= i < |r.value| ==> Fits(r.value[i]))
      && At(data, pos, WriteAll(r.value)) && r.pos == pos + |WriteAll(r.value)|
    decreases |kinds|
  {
    hide Fits, Write, At, ReadItem;
    if kinds == [] {
      assert At(data, pos, []) by { AtNothing(data, pos); }
    } else {
      var one := ReadItem(kinds[0], data, pos);
      ReadItemWrites(kinds[0], data, pos);
      ReadAllWrites(kinds[1..], data, one.pos);
      var rest := ReadAll(kinds[1..], data, one.pos);
      var all := [one.value] + rest.value;
      assert all[1..] == rest.value;
      AtJoin(data, pos, Write(one.value), WriteAll(rest.value));
    }
  }

  lemma AtNothing(data: Bytes, pos: nat)
    requires pos <= |data|
    ensures At(data, pos, [])
  {}

  lemma AtStart(data: Bytes, bs: Bytes)
    ensures At(data, 0, bs) <==> bs <= data
  {
    if At(data, 0, bs) { assert data[..|bs|] == data[0..0 + |bs|]; }
    if bs <= data { assert data[0..0 + |bs|] == data[..|bs|]; }
  }

  lemma FieldsOf(items: seq<Item>, sig: Bytes)
    requires |items| == 9 && Kinds(items) == CERT_KINDS && forall i :: 0 <= i < 9 ==> Fits(items[i])
    ensures var c := FromItems(items, sig); WellTyped(c) && LengthsFit(c) && BodyItems(c) == items && c.signature == sig
  {
    var ks := Kinds(items);
    assert ks[0] == CERT_KINDS[0] && ks[1] == CERT_KINDS[1] && ks[2] == CERT_KINDS[2] && ks[3] == CERT_KINDS[3];
    assert ks[4] == CERT_KINDS[4] && ks[5] == CERT_KINDS[5] && ks[6] == CERT_KINDS[6] && ks[7] == CERT_KINDS[7];
    assert ks[8] == CERT_KINDS[8];
    assert Fits(items[0]) && Fits(items[1]) && Fits(items[2]) && Fits(items[4]) && Fits(items[5]);
    assert Fits(items[6]) && Fits(items[7]) && Fits(items[8]);
  }

  /**
   Deserialisation accepts exactly the bodies, read as unsigned, and the full serialisations followed by
   anything; everything else gets 203.
   */
  lemma CertificateAcceptedIff(data: Bytes, c: Certificate)
    ensures Deserialize(data) == Ok(c) <==>
      && WellTyped(c) && LengthsFit(c) && |c.signature| < MAX32
      && ((c.signature == [] && data == Body(c)) || Full(c) <= data)
    ensures Deserialize(data).Err? ==> Deserialize(data) == Err(203)
  {
    hide ReadAll, ReadItem, WriteAll, Write, FromItems, LengthsFit, BodyItems, Fits, At, WellTyped;
    if Deserialize(data) == Ok(c) {
      AcceptedIsWritten(data, c);
    }
    if WellTyped(c) && LengthsFit(c) && c.signature == [] && data == Body(c) {
      UnsignedRoundTrip(c);
      assert c.(signature := []) == c;
    }
    if WellTyped(c) && LengthsFit(c) && |c.signature| < MAX32 && Full(c) <= data {
      FullIsAccepted(data, c);
    }
  }

  lemma AcceptedIsWritten(data: Bytes, c: Certificate)
    requires Deserialize(data) == Ok(c)
    ensures WellTyped(c) && LengthsFit(c) && |c.signature| < MAX32
    ensures (c.signature == [] && data == Body(c)) || Full(c) <= data
  {
    hide ReadAll, ReadItem, WriteAll, Write, FromItems, LengthsFit, BodyItems, Fits, At, WellTyped;
    var body := ReadAll(CERT_KINDS, data, 0);
    ReadAllWrites(CERT_KINDS, data, 0);
    FieldsOf(body.value, c.signature) by { assert FromItems(body.value, c.signature) == c by { SignatureField(data, c); } }
    SignatureField(data, c);
    AtStart(data, Body(c));
    if body.pos >= |data| {
      assert data == Body(c);
      UnsignedSignature(data, c);
    } else {
      ReadItemWrites(KBlob, data, body.pos);
      SignedSignature(data, c);
      AtJoin(data, 0, Body(c), Write(Blob(c.signature)));
      AtStart(data, Full(c));
    }
  }

  lemma UnsignedSignature(data: Bytes, c: Certificate)
    requires Deserialize(data) == Ok(c) && ReadAll(CERT_KINDS, data, 0).pos >= |data|
    ensures c.signature == []
  {
    hide ReadAll, ReadItem, FromItems;
    SignatureOf(ReadAll(CERT_KINDS, data, 0).value, []);
  }

  lemma SignedSignature(data: Bytes, c: Certificate)
    requires Deserialize(data) == Ok(c) && ReadAll(CERT_KINDS, data, 0).pos < |data|
    ensures var s := ReadItem(KBlob, data, ReadAll(CERT_KINDS, data, 0).pos);
      s.Read? && s.value == Blob(c.signature) && (Fits(s.value) ==> |c.signature| < MAX32)
  {
    hide ReadAll, ReadItem, FromItems;
    var body := ReadAll(CERT_KINDS, data, 0);
    var s := ReadItem(KBlob, data, body.pos);
    if s.Read? { SignatureOf(body.value, AsBlob(s.value)); }
  }

  lemma FullIsAccepted(data: Bytes, c: Certificate)
    requires WellTyped(c) && LengthsFit(c) && |c.signature| < MAX32 && Full(c) <= data
    ensures Deserialize(data) == Ok(c)
  {
    hide ReadAll, ReadItem, WriteAll, Write, FromItems, LengthsFit, BodyItems, Fits, At, WellTyped;
    AtStart(data, Full(c));
    AtSplit(data, 0, Body(c), Write(Blob(c.signature)));
    BodyFits(c);
    ReadAllBack(data, 0, BodyItems(c));
    ReadItemBack(data, |Body(c)|, Blob(c.signature)) by { SmallFits(c.signature); }
    WriteBlobNonempty(c.signature);
    AtInside(data, |Body(c)|, Write(Blob(c.signature)));
    assert FromItems(BodyItems(c), c.signature) == c;
  }

  lemma SmallFits(b: Bytes)
    requires |b| < MAX32
    ensures Fits(Blob(b))
  {}

  lemma AtInside(data: Bytes, pos: nat, bs: Bytes)
    requires At(data, pos, bs)
    ensures pos + |bs| <= |data|
  {}

  lemma CsrFieldsOf(items: seq<Item>)
    requires |items| == 8 && Kinds(items) == CSR_KINDS && forall i :: 0 <= i < 8 ==> Fits(items[i])
    ensures var r := CsrFromItems(items);
      Int64(r.timestamp) && CsrLengthsFit(r) && |r.signature| < MAX32 && CsrBodyItems(r) + [Blob(r.signature)] == items
  {
    var ks := Kinds(items);
    assert ks[0] == CSR_KINDS[0] && ks[1] == CSR_KINDS[1] && ks[2] == CSR_KINDS[2] && ks[3] == CSR_KINDS[3];
    assert ks[4] == CSR_KINDS[4] && ks[5] == CSR_KINDS[5] && ks[6] == CSR_KINDS[6] && ks[7] == CSR_KINDS[7];
    assert Fits(items[0]) && Fits(items[1]) && Fits(items[2]) && Fits(items[3]) && Fits(items[4]) && Fits(items[5]);
    assert Fits(items[6]) && Fits(items[7]);
  }

  /** A signing request is accepted exactly when its serialisation opens the data; everything else gets 209. */
  lemma RequestAcceptedIff(data: Bytes, r: SigningRequest)
    ensures CsrDeserialize(data) == Ok(r) <==>
      Int64(r.timestamp) && CsrLengthsFit(r) && |r.signature| < MAX32 && CsrFull(r) <= data
    ensures CsrDeserialize(data).Err? ==> CsrDeserialize(data) == Err(209)
  {
    hide ReadAll, WriteAll, Write, CsrFromItems, CsrLengthsFit, CsrBodyItems, Fits, At;
    if CsrDeserialize(data) == Ok(r) {
      ReadAllWrites(CSR_KINDS, data, 0);
      CsrFieldsOf(ReadAll(CSR_KINDS, data, 0).value);
      WriteAllSnoc(CsrBodyItems(r), Blob(r.signature));
      AtStart(data, CsrFull(r));
    }
    if Int64(r.timestamp) && CsrLengthsFit(r) && |r.signature| < MAX32 && CsrFull(r) <= data {
      var all := CsrBodyItems(r) + [Blob(r.signature)];
      WriteAllSnoc(CsrBodyItems(r), Blob(r.signature));
      CsrFits(r, all);
      AtStart(data, CsrFull(r));
      ReadAllBack(data, 0, all);
    }
  }

  // ---------- the bytes that are signed

  /** A length in four bytes, most significant first and cut to 32 bits, then the string. */
  function Framed(b: Bytes): Bytes {
    [|b| / 0x100_0000 % 256, |b| / 0x1_0000 % 256, |b| / 0x100 % 256, |b| % 256] + b
  }

  /** A 64-bit number in eight bytes, most significant first; negative numbers in two's complement. */
  function Word(i: int): Bytes {
    var n := if i < 0 then i + 0x1_0000_0000_0000_0000 else i;
    [n / 0x100_0000_0000_0000 % 256, n / 0x1_0000_0000_0000 % 256, n / 0x100_0000_0000 % 256, n / 0x1_0000_0000 % 256,
     n / 0x100_0000 % 256, n / 0x1_0000 % 256, n / 0x100 % 256, n % 256]
  }

  lemma BlobLayout(b: Bytes)
    ensures Write(Blob(b)) == Framed(b)
  {
    hide BigEndian;
    BigEndian4(Low32(|b|));
    Low32Bytes(|b|);
  }

  lemma DropHigh(q: nat, r: nat)
    ensures (0x1_0000_0000 * q + r) / 0x100_0000 == 0x100 * q + r / 0x100_0000
    ensures (0x1_0000_0000 * q + r) / 0x1_0000 == 0x1_0000 * q + r / 0x1_0000
    ensures (0x1_0000_0000 * q + r) / 0x100 == 0x100_0000 * q + r / 0x100
  {}

  lemma SameByte(q: nat, x: nat)
    ensures (0x100 * q + x) % 256 == x % 256 && (0x1_0000 * q + x) % 256 == x % 256
    ensures (0x100_0000 * q + x) % 256 == x % 256 && (0x1_0000_0000 * q + x) % 256 == x % 256
  {
    assert 0x1_0000 * q == 0x100 * (0x100 * q) && 0x100_0000 * q == 0x100 * (0x1_0000 * q);
    assert 0x1_0000_0000 * q == 0x100 * (0x100_0000 * q);
  }

  /** The bytes of n below 2^32 are those of its remainder. */
  lemma Low32Bytes(n: nat)
    ensures Low32(n) / 0x100_0000 % 256 == n / 0x100_0000 % 256 && Low32(n) / 0x1_0000 % 256 == n / 0x1_0000 % 256
    ensures Low32(n) / 0x100 % 256 == n / 0x100 % 256 && Low32(n) % 256 == n % 256
  {
    var q, r := n / 0x1_0000_0000, Low32(n);
    assert n == 0x1_0000_0000 * q + r;
    hide Low32;
    DropHigh(q, r);
    SameByte(q, r / 0x100_0000);
    SameByte(q, r / 0x1_0000);
    SameByte(q, r / 0x100);
    SameByte(q, r);
  }

  lemma WordLayout(i: int)
    requires -0x8000_0000_0000_0000 <= i < 0x1_0000_0000_0000_0000
    ensures var n := if i < 0 then i + 0x1_0000_0000_0000_0000 else i; Write(U64(n)) == Word(i)
  {
    hide BigEndian;
    var n := if i < 0 then i + 0x1_0000_0000_0000_0000 else i;
    hide Low32;
    WordBytes(n);
    BigEndian4(n / 0x1_0000_0000);
    BigEndian4(Low32(n));
    Low32Bytes(n);
  }

  lemma WordBytes(n: nat)
    requires n < 0x1_0000_0000_0000_0000
    ensures n / MAX32 % MAX32 == n / 0x1_0000_0000 && n % MAX32 == Low32(n)
    ensures var hi := n / 0x1_0000_0000;
      && hi / 0x100_0000 == n / 0x100_0000_0000_0000 && hi / 0x1_0000 == n / 0x1_0000_0000_0000
      && hi / 0x100 == n / 0x100_0000_0000
  {
    hide Low32;
    DivDiv(n);
    assert n / 0x1_0000_0000 < 0x1_0000_0000;
    LowIs(n);
  }

  lemma LowIs(n: nat)
    ensures n % MAX32 == Low32(n)
  {}

  lemma {:induction false} ItemsJoined(items: seq<Item>, parts: seq<Bytes>)
    requires |parts| == |items| && forall i :: 0 <= i < |items| ==> parts[i] == Write(items[i])
    ensures WriteAll(items) == Joined(parts)
    decreases |items|
  {
    hide Write;
    if items != [] { ItemsJoined(items[1..], parts[1..]); }
  }

  /** The signed bytes of a certificate, field by field. */
  lemma BodyLayout(c: Certificate)
    requires WellTyped(c)
    ensures Body(c) == Joined([Framed(c.meshId), Framed(c.subjectPubkey), Framed(c.issuerPubkey), [c.role],
                               Framed(c.displayName), Framed(c.capabilities), Word(c.epoch), Word(c.notBefore),
                               Word(c.notAfter)])
    ensures Full(c) == Body(c) + Framed(c.signature)
  {
    hide Write, Framed, Word, Joined, WriteAll;
    BlobLayout(c.meshId);
    BlobLayout(c.subjectPubkey);
    BlobLayout(c.issuerPubkey);
    BlobLayout(c.displayName);
    BlobLayout(c.capabilities);
    BlobLayout(c.signature);
    WordLayout(c.epoch);
    WordLayout(c.notBefore);
    WordLayout(c.notAfter);
    WriteOctet(c.role);
    ItemsJoined(BodyItems(c), [Framed(c.meshId), Framed(c.subjectPubkey), Framed(c.issuerPubkey), [c.role],
                               Framed(c.displayName), Framed(c.capabilities), Word(c.epoch), Word(c.notBefore),
                               Word(c.notAfter)]);
  }

  /** The signed bytes of a request, field by field. */
  lemma RequestLayout(r: SigningRequest)
    requires Int64(r.timestamp)
    ensures CsrBody(r) == Joined([Framed(r.newPublicKey), Framed(r.meshId), Framed(r.oldCertHash), Framed(r.displayName),
                                  Framed(r.platform), Framed(r.version), Word(r.timestamp)])
    ensures CsrFull(r) == CsrBody(r) + Framed(r.signature)
  {
    hide Write, Framed, Word, Joined, WriteAll;
    BlobLayout(r.newPublicKey);
    BlobLayout(r.meshId);
    BlobLayout(r.oldCertHash);
    BlobLayout(r.displayName);
    BlobLayout(r.platform);
    BlobLayout(r.version);
    BlobLayout(r.signature);
    WordLayout(r.timestamp);
    ItemsJoined(CsrBodyItems(r), [Framed(r.newPublicKey), Framed(r.meshId), Framed(r.oldCertHash), Framed(r.displayName),
                                  Framed(r.platform), Framed(r.version), Word(r.timestamp)]);
  }

  // ---------- the procedures

  method AppendU32(out: Bytes, v: nat) returns (out': Bytes)
    requires v < MAX32
    ensures out' == out + BigEndian(v, 4)
  {
    BigEndian4(v);
    out' := out + [v / 0x100_0000 % 256, v / 0x1_0000 % 256, v / 0x100 % 256, v % 256];
  }

  method AppendU64(out: Bytes, v: nat) returns (out': Bytes)
    requires v < MAX64
    ensures out' == out + Write(U64(v))
  {
    hide BigEndian;
    out' := AppendU32(out, v / MAX32 % MAX32);
    out' := AppendU32(out', v % MAX32);
  }

  method AppendBytes(out: Bytes, data: Bytes) returns (out': Bytes)
    ensures out' == out + Write(Blob(data))
  {
    hide BigEndian;
    out' := AppendU32(out, Low32(|data|));
    out' := out' + data;
  }

  /** The serialisers spell out one append per field. */
  method WriteItems(items: seq<Item>) returns (out: Bytes)
    requires NumbersFit(items)
    ensures out == WriteAll(items)
  {
    hide Write;
    out := [];
    for i := 0 to |items|
      invariant out + WriteAll(items[i..]) == WriteAll(items)
    {
      assert items[i..][1..] == items[i + 1..];
      Regroup(out, Write(items[i]), WriteAll(items[i + 1..]));
      match items[i] {
        case Blob(b) => out := AppendBytes(out, b);
        case Octet(v) => out := out + [v]; WriteOctet(v);
        case U64(n) => assert Fits(items[i]); out := AppendU64(out, n);
      }
    }
  }

  lemma WriteOctet(v: Byte)
    ensures Write(Octet(v)) == [v]
  {}

  method Serialize(c: Certificate) returns (out: Bytes)
    requires WellTyped(c)
    ensures out == Body(c)
  {
    hide WriteAll, FromItems, LengthsFit;
    BodyFits(c);
    out := WriteItems(BodyItems(c));
  }

  method SerializeFull(c: Certificate) returns (out: Bytes)
    requires WellTyped(c)
    ensures out == Full(c)
  {
    out := Serialize(c);
    out := AppendBytes(out, c.signature);
  }

  method ReadU32At(data: Bytes, offset: nat) returns (r: Read<nat>)
    ensures r == ReadU32(data, offset)
  {
    if offset + 4 > |data| {
      return Fail;
    }
    var four := data[offset..offset + 4];
    FourBytes(four);
    var b0: nat, b1: nat, b2: nat, b3: nat := data[offset], data[offset + 1], data[offset + 2], data[offset + 3];
    return Read(b0 * 0x100_0000 + b1 * 0x1_0000 + b2 * 0x100 + b3, offset + 4);
  }

  lemma FourBytes(bs: Bytes)
    requires |bs| == 4
    ensures FromBigEndian(bs) == bs[0] as int * 0x100_0000 + bs[1] as int * 0x1_0000 + bs[2] as int * 0x100 + bs[3]
  {
    assert bs[..3][..2] == bs[..2] && bs[..2][..1] == bs[..1] && bs[..1][..0] == [];
    assert FromBigEndian(bs[..1]) == bs[0];
    assert FromBigEndian(bs[..2]) == 256 * FromBigEndian(bs[..1]) + bs[1];
    assert FromBigEndian(bs[..3]) == 256 * FromBigEndian(bs[..2]) + bs[2];
  }

  method ReadItemAt(kind: Kind, data: Bytes, offset: nat) returns (r: Read<Item>)
    ensures r == ReadItem(kind, data, offset)
  {
    hide FromBigEndian;
    match kind
    case KBlob =>
      var n := ReadU32At(data, offset);
      if n.Fail? || n.pos + n.value > |data| {
        return Fail;
      }
      return Read(Blob(data[n.pos..n.pos + n.value]), n.pos + n.value);
    case KByte =>
      return if offset >= |data| then Fail else Read(Octet(data[offset]), offset + 1);
    case KU64 =>
      var hi := ReadU32At(data, offset);
      if hi.Fail? {
        return Fail;
      }
      var lo := ReadU32At(data, hi.pos);
      return if lo.Fail? then Fail else Read(U64(hi.value * MAX32 + lo.value), lo.pos);
  }

  function Prepend(items: seq<Item>, r: Read<seq<Item>>): Read<seq<Item>> {
    if r.Fail? then Fail else Read(items + r.value, r.pos)
  }

  lemma ReadAllStep(kinds: seq<Kind>, i: nat, data: Bytes, offset: nat, items: seq<Item>)
    requires i < |kinds|
    ensures var one := ReadItem(kinds[i], data, offset);
            Prepend(items, ReadAll(kinds[i..], data, offset))
            == if one.Fail? then Fail else Prepend(items + [one.value], ReadAll(kinds[i + 1..], data, one.pos))
  {
    hide ReadItem;
    assert kinds[i..][0] == kinds[i] && kinds[i..][1..] == kinds[i + 1..];
    var one := ReadItem(kinds[i], data, offset);
    if one.Read? {
      var rest := ReadAll(kinds[i + 1..], data, one.pos);
      if rest.Read? { assert items + ([one.value] + rest.value) == items + [one.value] + rest.value; }
    }
  }

  lemma ReadAllEnds(kinds: seq<Kind>, data: Bytes, offset: nat, items: seq<Item>)
    ensures Prepend(items, ReadAll(kinds[|kinds|..], data, offset)) == Read(items, offset)
    ensures Prepend([], ReadAll(kinds[0..], data, offset)) == ReadAll(kinds, data, offset)
  {
    assert kinds[|kinds|..] == [] && kinds[0..] == kinds && items + [] == items;
    var all := ReadAll(kinds, data, offset);
    if all.Read? { assert [] + all.value == all.value; }
  }

  /** The deserialisers spell out one read per field and stop at the first that fails. */
  method ReadItems(kinds: seq<Kind>, data: Bytes) returns (r: Read<seq<Item>>)
    ensures r == ReadAll(kinds, data, 0)
  {
    hide ReadItem, ReadAll, Prepend;
    var offset := 0;
    var items: seq<Item> := [];
    ReadAllEnds(kinds, data, 0, []);
    for i := 0 to |kinds|
      invariant Prepend(items, ReadAll(kinds[i..], data, offset)) == ReadAll(kinds, data, 0)
    {
      ReadAllStep(kinds, i, data, offset, items);
      var one := ReadItemAt(kinds[i], data, offset);
      if one.Fail? {
        return Fail;
      }
      items := items + [one.value];
      offset := one.pos;
    }
    ReadAllEnds(kinds, data, offset, items);
    return Read(items, offset);
  }

  method DeserializeCertificate(data: Bytes) returns (r: Result<Certificate>)
    ensures r == Deserialize(data)
  {
    hide ReadAll, ReadItem, FromItems;
    var body := ReadItems(CERT_KINDS, data);
    if body.Fail? {
      return Err(203);
    }
    if body.pos < |data| {
      var sig := ReadItemAt(KBlob, data, body.pos);
      if sig.Fail? {
        return Err(203);
      }
      return Ok(FromItems(body.value, AsBlob(sig.value)));
    }
    return Ok(FromItems(body.value, []));
  }

  method SerializeRequest(q: SigningRequest) returns (out: Bytes)
    requires Int64(q.timestamp)
    ensures out == CsrFull(q)
  {
    hide WriteAll, Write;
    out := WriteItems(CsrBodyItems(q));
    out := AppendBytes(out, q.signature);
  }

  method DeserializeRequest(data: Bytes) returns (r: Result<SigningRequest>)
    ensures r == CsrDeserialize(data)
  {
    hide ReadAll;
    var items := ReadItems(CSR_KINDS, data);
    return if items.Fail? then Err(209) else Ok(CsrFromItems(items.value));
  }
}
