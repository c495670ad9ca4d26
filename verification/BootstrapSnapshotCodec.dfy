/** The encoder and decoder procedures of the bootstrap snapshot, against the functions of BootstrapSnapshots. */
module BootstrapSnapshotCodec {
  import opened Results
  import opened ByteStrings
  import opened Cbor
  import opened BootstrapSnapshots

  method EncodeAuthority(enc: Encoder, a: Authority)
    requires AuthorityRanges(a)
    modifies enc
    ensures enc.buf == old(enc.buf) + AuthorityBytes(a)
  {
    hide Head;
    ghost var b0 := enc.buf;
    enc.EncodeMap(2);
    enc.EncodeUint(1);
    enc.EncodeString(a.nodeId);
    enc.EncodeUint(2);
    enc.EncodeString(a.endpoint);
    TwoEntries(b0, Head(5, 2), UintItem(1), StringItem(a.nodeId), UintItem(2), StringItem(a.endpoint));
  }

  lemma TwoEntries(b: Bytes, h: Bytes, k1: Bytes, v1: Bytes, k2: Bytes, v2: Bytes)
    ensures b + h + k1 + v1 + k2 + v2 == b + (h + (k1 + v1) + (k2 + v2))
  {
    Regroup(b + h, k1, v1);
    Regroup(b + h + (k1 + v1), k2, v2);
    Regroup(b, h, k1 + v1);
    Regroup(b, h + (k1 + v1), k2 + v2);
  }

  method EncodeHealth(enc: Encoder, h: Health)
    requires |h.level| < MAX64
    modifies enc
    ensures enc.buf == old(enc.buf) + HealthBytes(h)
  {
    hide Head;
    ghost var b0 := enc.buf;
    enc.EncodeMap(2);
    enc.EncodeUint(1);
    enc.EncodeString(h.level);
    enc.EncodeUint(2);
    enc.EncodeUint(if h.operational then 1 else 0);
    TwoEntries(b0, Head(5, 2), UintItem(1), StringItem(h.level), UintItem(2), UintItem(if h.operational then 1 else 0));
  }

  method EncodeSeedEntry(enc: Encoder, s: Seed, key: nat)
    requires SeedRanges(s) && 1 <= key <= 4
    modifies enc
    ensures enc.buf == old(enc.buf) + (UintItem(key) + SeedPayload(s, key))
  {
    hide Head;
    ghost var b0 := enc.buf;
    enc.EncodeUint(key);
    if key == 1 {
      enc.EncodeString(s.endpoint);
    } else if key == 2 {
      enc.EncodeString(s.region);
    } else if key == 3 {
      enc.EncodeUint(s.weight);
    } else {
      enc.EncodeUint(s.healthScore);
    }
    Regroup(b0, UintItem(key), SeedPayload(s, key));
  }

  lemma SeedEmitted(before: Bytes, s: Seed, keys: seq<nat>, k: nat)
    requires k < |keys|
    ensures before + (UintItem(keys[k]) + SeedPayload(s, keys[k])) + SeedEntries(s, keys[k + 1..])
         == before + SeedEntries(s, keys[k..])
  {
    hide Head, SeedPayload;
    assert keys[k..][1..] == keys[k + 1..];
    Regroup(before, UintItem(keys[k]) + SeedPayload(s, keys[k]), SeedEntries(s, keys[k + 1..]));
  }

  method EncodeSeed(enc: Encoder, s: Seed)
    requires SeedRanges(s)
    modifies enc
    ensures enc.buf == old(enc.buf) + SeedBytes(s)
  {
    hide Head, SeedEntries, SeedPayload;
    ghost var b0, keys := enc.buf, SeedKeys(s);
    enc.EncodeMap(4);
    ghost var b1 := enc.buf;
    assert keys[0..] == keys;
    SeedEmitted(enc.buf, s, keys, 0);
    EncodeSeedEntry(enc, s, 1);
    ghost var k := 1;
    if s.region != [] {
      SeedEmitted(enc.buf, s, keys, 1);
      EncodeSeedEntry(enc, s, 2);
      k := 2;
    }
    SeedEmitted(enc.buf, s, keys, k);
    EncodeSeedEntry(enc, s, 3);
    SeedEmitted(enc.buf, s, keys, k + 1);
    EncodeSeedEntry(enc, s, 4);
    assert keys[|keys|..] == [];
    NoSeedEntries(s);
    assert enc.buf + [] == enc.buf;
    Regroup(b0, Head(5, 4), SeedEntries(s, keys));
  }

  lemma NoSeedEntries(s: Seed)
    ensures SeedEntries(s, []) == []
  {}

  method EncodeAuthorities(enc: Encoder, auths: seq<Authority>)
    requires |auths| < MAX64 && forall a :: a in auths ==> AuthorityRanges(a)
    modifies enc
    ensures enc.buf == old(enc.buf) + (Head(4, |auths|) + AuthoritiesBytes(auths))
  {
    hide Head, AuthorityBytes, AuthorityRanges;
    enc.EncodeArray(|auths|);
    Regroup(old(enc.buf), Head(4, |auths|), AuthoritiesBytes(auths));
    for i := 0 to |auths|
      invariant enc.buf + AuthoritiesBytes(auths[i..]) == old(enc.buf) + (Head(4, |auths|) + AuthoritiesBytes(auths))
    {
      assert auths[i..][1..] == auths[i + 1..];
      Regroup(enc.buf, AuthorityBytes(auths[i]), AuthoritiesBytes(auths[i + 1..]));
      EncodeAuthority(enc, auths[i]);
    }
  }

  method EncodeSeeds(enc: Encoder, seeds: seq<Seed>)
    requires |seeds| < MAX64 && forall d :: d in seeds ==> SeedRanges(d)
    modifies enc
    ensures enc.buf == old(enc.buf) + (Head(4, |seeds|) + SeedsBytes(seeds))
  {
    hide Head, SeedBytes, SeedRanges;
    enc.EncodeArray(|seeds|);
    Regroup(old(enc.buf), Head(4, |seeds|), SeedsBytes(seeds));
    for i := 0 to |seeds|
      invariant enc.buf + SeedsBytes(seeds[i..]) == old(enc.buf) + (Head(4, |seeds|) + SeedsBytes(seeds))
    {
      assert seeds[i..][1..] == seeds[i + 1..];
      Regroup(enc.buf, SeedBytes(seeds[i]), SeedsBytes(seeds[i + 1..]));
      EncodeSeed(enc, seeds[i]);
    }
  }

  method EncodeOpcodes(enc: Encoder, opcodes: seq<nat>)
    requires |opcodes| < MAX64 && forall i :: 0 <= i < |opcodes| ==> opcodes[i] < 256
    modifies enc
    ensures enc.buf == old(enc.buf) + (Head(4, |opcodes|) + OpcodesBytes(opcodes))
  {
    hide Head;
    enc.EncodeArray(|opcodes|);
    Regroup(old(enc.buf), Head(4, |opcodes|), OpcodesBytes(opcodes));
    for i := 0 to |opcodes|
      invariant enc.buf + OpcodesBytes(opcodes[i..]) == old(enc.buf) + (Head(4, |opcodes|) + OpcodesBytes(opcodes))
    {
      assert opcodes[i..][1..] == opcodes[i + 1..];
      Regroup(enc.buf, UintItem(opcodes[i]), OpcodesBytes(opcodes[i + 1..]));
      enc.EncodeUint(opcodes[i]);
    }
  }

  method EncodePayload(enc: Encoder, s: Snapshot, key: nat)
    requires WellFormed(s) && 1 <= key <= 14
    modifies enc
    ensures enc.buf == old(enc.buf) + Payload(s, key)
  {
    hide Head, AuthoritiesBytes, SeedsBytes, OpcodesBytes, HealthBytes;
    match key
    case 1 => enc.EncodeString(s.meshId);
    case 2 => enc.EncodeString(s.meshState);
    case 3 => enc.EncodeUint(ToUint64(s.epoch));
    case 4 => enc.EncodeBytes(s.genesisManifest);
    case 5 => EncodeAuthorities(enc, s.authorities);
    case 6 => EncodeSeeds(enc, s.seeds);
    case 7 => enc.EncodeUint(ToUint64(s.policyVersion));
    case 8 => enc.EncodeUint(ToUint64(s.governanceVersion));
    case 9 => enc.EncodeBytes(s.crlDigest);
    case 10 => enc.EncodeUint(s.crlCount);
    case 11 => EncodeHealth(enc, s.health);
    case 12 => enc.EncodeUint(s.cipherSuite);
    case 13 => EncodeOpcodes(enc, s.opcodes);
    case _ => enc.EncodeUint(s.activeProposals);
  }

  lemma FieldEmitted(before: Bytes, s: Snapshot, key: nat)
    requires WellFormed(s) && 1 <= key <= 14
    ensures before + UintItem(key) + Payload(s, key) + FieldsFrom(s, key + 1) == before + FieldsFrom(s, key)
  {
    hide Head, Payload, WellFormed;
    Regroup(before, UintItem(key), Payload(s, key));
    Regroup(before, UintItem(key) + Payload(s, key), FieldsFrom(s, key + 1));
  }

  /** The source writes the fourteen entries one after the other, in key order. */
  method EncodeSnapshot(s: Snapshot) returns (bytes: Bytes)
    requires WellFormed(s)
    ensures bytes == Encode(s)
  {
    hide Head, Payload, WellFormed, FieldsFrom;
    var enc := new Encoder();
    enc.EncodeMap(14);
    for key := 1 to 15
      invariant enc.buf + FieldsFrom(s, key) == Encode(s)
    {
      FieldEmitted(enc.buf, s, key);
      enc.EncodeUint(key);
      EncodePayload(enc, s, key);
    }
    FieldsEnd([], 0, s, s);
    bytes := enc.buf;
  }

  method DecodeAuthority(dec: Decoder) returns (r: Result<Authority>)
    requires dec.Valid()
    modifies dec
    ensures dec.Valid() && Step(r, dec.pos) == AuthorityAt(dec.data, old(dec.pos))
  {
    hide TypedAt, BlobAt, SkipAt;
    var n := dec.DecodeMapSize();
    if n.Err? {
      return Err(n.code);
    }
    var info := Authority([], []);
    ghost var all := AuthorityFieldsAt(dec.data, dec.pos, n.value, info);
    for i := 0 to n.value
      invariant dec.Valid() && AuthorityFieldsAt(dec.data, dec.pos, n.value - i, info) == all
    {
      var key := dec.DecodeUint();
      if key.Err? {
        return Err(key.code);
      }
      if key.value == 1 {
        var v := dec.DecodeString();
        if v.Err? {
          return Err(v.code);
        }
        info := info.(nodeId := v.value);
      } else if key.value == 2 {
        var v := dec.DecodeString();
        if v.Err? {
          return Err(v.code);
        }
        info := info.(endpoint := v.value);
      } else {
        var v := dec.Skip();
        if v.Err? {
          return Err(v.code);
        }
      }
    }
    return Ok(info);
  }

  method DecodeHealth(dec: Decoder) returns (r: Result<Health>)
    requires dec.Valid()
    modifies dec
    ensures dec.Valid() && Step(r, dec.pos) == HealthAt(dec.data, old(dec.pos))
  {
    hide TypedAt, BlobAt, SkipAt;
    var n := dec.DecodeMapSize();
    if n.Err? {
      return Err(n.code);
    }
    var info := Health([], false);
    ghost var all := HealthFieldsAt(dec.data, dec.pos, n.value, info);
    for i := 0 to n.value
      invariant dec.Valid() && HealthFieldsAt(dec.data, dec.pos, n.value - i, info) == all
    {
      var key := dec.DecodeUint();
      if key.Err? {
        return Err(key.code);
      }
      if key.value == 1 {
        var v := dec.DecodeString();
        if v.Err? {
          return Err(v.code);
        }
        info := info.(level := v.value);
      } else if key.value == 2 {
        var v := dec.DecodeUint();
        if v.Err? {
          return Err(v.code);
        }
        info := info.(operational := v.value != 0);
      } else {
        var v := dec.Skip();
        if v.Err? {
          return Err(v.code);
        }
      }
    }
    return Ok(info);
  }

  method DecodeSeedField(dec: Decoder, key: nat, s: Seed) returns (r: Seed)
    requires dec.Valid()
    modifies dec
    ensures dec.Valid() && Stop(r, dec.pos) == SeedFieldAt(dec.data, old(dec.pos), key, s)
  {
    hide TypedAt, BlobAt, SkipAt;
    r := s;
    match key
    case 1 =>
      var v := dec.DecodeString();
      if v.Ok? {
        r := r.(endpoint := v.value);
      }
    case 2 =>
      var v := dec.DecodeString();
      if v.Ok? {
        r := r.(region := v.value);
      }
    case 3 =>
      var v := dec.DecodeUint();
      if v.Ok? {
        r := r.(weight := v.value % MAX32);
      }
    case 4 =>
      var v := dec.DecodeUint();
      if v.Ok? {
        r := r.(healthScore := v.value);
      }
    case _ =>
      var ignored := dec.Skip();
  }

  method DecodeSeeds(dec: Decoder, n: nat, acc: seq<Seed>) returns (seeds: seq<Seed>)
    requires dec.Valid()
    modifies dec
    ensures dec.Valid() && Stop(seeds, dec.pos) == SeedsAt(dec.data, old(dec.pos), n, acc)
  {
    hide TypedAt, SeedFieldAt;
    seeds := acc;
    for j := 0 to n
      invariant dec.Valid() && SeedsAt(dec.data, dec.pos, n - j, seeds) == SeedsAt(dec.data, old(dec.pos), n, acc)
    {
      var si := NEW_SEED;
      ghost var start := dec.pos;
      var m := dec.DecodeMapSize();
      if m.Err? {
        seeds := seeds + [si];
        return;
      }
      si := DecodeSeedFields(dec, m.value);
      seeds := seeds + [si];
    }
  }

  method DecodeSeedFields(dec: Decoder, n: nat) returns (si: Seed)
    requires dec.Valid()
    modifies dec
    ensures dec.Valid() && Stop(si, dec.pos) == SeedFieldsAt(dec.data, old(dec.pos), n, NEW_SEED)
  {
    hide TypedAt, SeedFieldAt;
    si := NEW_SEED;
    for k := 0 to n
      invariant dec.Valid()
      invariant SeedFieldsAt(dec.data, dec.pos, n - k, si) == SeedFieldsAt(dec.data, old(dec.pos), n, NEW_SEED)
    {
      var key := dec.DecodeUint();
      if key.Err? {
        return;
      }
      si := DecodeSeedField(dec, key.value, si);
    }
  }

  method DecodeAuthorities(dec: Decoder, n: nat, acc: seq<Authority>) returns (r: Result<seq<Authority>>)
    requires dec.Valid()
    modifies dec
    ensures dec.Valid() && Step(r, dec.pos) == AuthoritiesAt(dec.data, old(dec.pos), n, acc)
  {
    hide AuthorityAt;
    var auths := acc;
    for j := 0 to n
      invariant dec.Valid()
      invariant AuthoritiesAt(dec.data, dec.pos, n - j, auths) == AuthoritiesAt(dec.data, old(dec.pos), n, acc)
    {
      var a := DecodeAuthority(dec);
      if a.Err? {
        return Err(a.code);
      }
      auths := auths + [a.value];
    }
    return Ok(auths);
  }

  method DecodeOpcodes(dec: Decoder, n: nat, acc: seq<nat>) returns (r: Result<seq<nat>>)
    requires dec.Valid()
    modifies dec
    ensures dec.Valid() && Step(r, dec.pos) == OpcodesAt(dec.data, old(dec.pos), n, acc)
  {
    hide TypedAt;
    var opcodes := acc;
    for j := 0 to n
      invariant dec.Valid()
      invariant OpcodesAt(dec.data, dec.pos, n - j, opcodes) == OpcodesAt(dec.data, old(dec.pos), n, acc)
    {
      var v := dec.DecodeUint();
      if v.Err? {
        return Err(v.code);
      }
      opcodes := opcodes + [v.value % 256];
    }
    return Ok(opcodes);
  }

  method DecodeField(dec: Decoder, key: nat, s: Snapshot) returns (r: Result<Snapshot>)
    requires dec.Valid()
    modifies dec
    ensures dec.Valid() && Step(r, dec.pos) == FieldAt(dec.data, old(dec.pos), key, s)
  {
    hide HeadAt, BlobAt, SkipAt, AuthoritiesAt, SeedsAt, HealthAt, OpcodesAt;
    if key == 1 || key == 2 {
      var v := dec.DecodeString();
      return if v.Err? then Err(v.code)
             else Ok(if key == 1 then s.(meshId := v.value) else s.(meshState := v.value));
    } else if key == 4 || key == 9 {
      var v := dec.DecodeBytes();
      return if v.Err? then Err(v.code)
             else Ok(if key == 4 then s.(genesisManifest := v.value)
                     else if |v.value| == 32 then s.(crlDigest := v.value) else s);
    } else if key in {3, 7, 8, 10, 12, 14} {
      HeadAtBound(dec.data, dec.pos);
      var v := dec.DecodeUint();
      return if v.Err? then Err(v.code) else Ok(SetNumber(s, key, v.value));
    } else if key == 5 {
      var n := dec.DecodeArraySize();
      if n.Err? {
        return Err(n.code);
      }
      var v := DecodeAuthorities(dec, n.value, s.authorities);
      return if v.Err? then Err(v.code) else Ok(s.(authorities := v.value));
    } else if key == 6 {
      var n := dec.DecodeArraySize();
      if n.Err? {
        return Err(n.code);
      }
      var v := DecodeSeeds(dec, n.value, s.seeds);
      return Ok(s.(seeds := v));
    } else if key == 11 {
      var h := DecodeHealth(dec);
      return if h.Err? then Err(h.code) else Ok(s.(health := h.value));
    } else if key == 13 {
      var n := dec.DecodeArraySize();
      if n.Err? {
        return Err(n.code);
      }
      var v := DecodeOpcodes(dec, n.value, s.opcodes);
      return if v.Err? then Err(v.code) else Ok(s.(opcodes := v.value));
    } else {
      var v := dec.Skip();
      return if v.Err? then Err(v.code) else Ok(s);
    }
  }

  method DecodeSnapshot(data: Bytes) returns (r: Result<Snapshot>)
    ensures r == Decode(data)
  {
    hide TypedAt, FieldAt;
    var dec := new Decoder(data);
    var n := dec.DecodeMapSize();
    if n.Err? {
      return Err(n.code);
    }
    var snap := NEW_SNAPSHOT;
    ghost var all := FieldsAt(data, dec.pos, n.value, snap);
    for i := 0 to n.value
      invariant dec.Valid() && dec.data == data
      invariant FieldsAt(data, dec.pos, n.value - i, snap) == all
    {
      var key := dec.DecodeUint();
      if key.Err? {
        return Err(key.code);
      }
      var f := DecodeField(dec, key.value, snap);
      if f.Err? {
        return f;
      }
      snap := f.value;
    }
    if snap.meshId == [] {
      return Err(900);
    }
    return Ok(snap);
  }
}
