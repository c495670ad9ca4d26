/** The mesh snapshot inside a bootstrap response. */
module BootstrapSnapshots {
  import opened Results
  import opened ByteStrings
  import opened Cbor

  datatype Authority = Authority(nodeId: Bytes, endpoint: Bytes)

  datatype Health = Health(level: Bytes, operational: bool)

  /** health_score is the 64-bit pattern of the double. */
  datatype Seed = Seed(endpoint: Bytes, region: Bytes, weight: nat, healthScore: nat)

  datatype Snapshot = Snapshot(
    schemaVersion: nat, meshId: Bytes, meshState: Bytes, epoch: int, genesisManifest: Bytes,
    authorities: seq<Authority>, seeds: seq<Seed>, policyVersion: int, governanceVersion: int,
    crlDigest: Bytes, crlCount: nat, health: Health, cipherSuite: nat, opcodes: seq<nat>, activeProposals: nat)

  const NEW_SEED := Seed([], [], 100, 0x3FF0_0000_0000_0000)

  const NEW_SNAPSHOT :=
    Snapshot(1, [], [], 1, [], [], [], 1, 1, Zeros(32), 0, Health([], false), 3, [], 0)

  ghost predicate SeedRanges(s: Seed) {
    |s.endpoint| < MAX64 && |s.region| < MAX64 && s.weight < MAX32 && s.healthScore < MAX64
  }

  ghost predicate AuthorityRanges(a: Authority) { |a.nodeId| < MAX64 && |a.endpoint| < MAX64 }

  /** What the C++ field types can hold. */
  ghost predicate WellFormed(s: Snapshot) {
    && s.schemaVersion < 256 && |s.meshId| < MAX64 && |s.meshState| < MAX64 && Int64(s.epoch)
    && |s.genesisManifest| < MAX64
    && |s.authorities| < MAX64 && (forall a :: a in s.authorities ==> AuthorityRanges(a))
    && |s.seeds| < MAX64 && (forall d :: d in s.seeds ==> SeedRanges(d))
    && Int64(s.policyVersion) && Int64(s.governanceVersion) && |s.crlDigest| == 32 && s.crlCount < MAX32
    && |s.health.level| < MAX64 && s.cipherSuite < 256
    && |s.opcodes| < MAX64 && (forall i :: 0 <= i < |s.opcodes| ==> s.opcodes[i] < 256) && s.activeProposals < MAX32
  }

  // ---------- encoding

  function AuthorityBytes(a: Authority): Bytes {
    Head(5, 2) + (UintItem(1) + StringItem(a.nodeId)) + (UintItem(2) + StringItem(a.endpoint))
  }

  function AuthoritiesBytes(auths: seq<Authority>): Bytes {
    if auths == [] then [] else AuthorityBytes(auths[0]) + AuthoritiesBytes(auths[1..])
  }

  function HealthBytes(h: Health): Bytes {
    Head(5, 2) + (UintItem(1) + StringItem(h.level)) + (UintItem(2) + UintItem(if h.operational then 1 else 0))
  }

  function SeedPayload(s: Seed, key: nat): Bytes {
    if key == 1 then StringItem(s.endpoint) else if key == 2 then StringItem(s.region)
    else if key == 3 then UintItem(s.weight) else UintItem(s.healthScore)
  }

  function SeedEntries(s: Seed, keys: seq<nat>): Bytes {
    if keys == [] then [] else UintItem(keys[0]) + SeedPayload(s, keys[0]) + SeedEntries(s, keys[1..])
  }

  /** An empty region is left out, but the map head in front always says four entries. */
  function SeedKeys(s: Seed): seq<nat> { if s.region == [] then [1, 3, 4] else [1, 2, 3, 4] }

  function SeedBytes(s: Seed): Bytes { Head(5, 4) + SeedEntries(s, SeedKeys(s)) }

  function SeedsBytes(seeds: seq<Seed>): Bytes {
    if seeds == [] then [] else SeedBytes(seeds[0]) + SeedsBytes(seeds[1..])
  }

  function OpcodesBytes(opcodes: seq<nat>): Bytes {
    if opcodes == [] then [] else UintItem(opcodes[0]) + OpcodesBytes(opcodes[1..])
  }

  function Payload(s: Snapshot, key: nat): Bytes
    requires 1 <= key <= 14 && WellFormed(s)
  {
    if key == 1 then StringItem(s.meshId)
    else if key == 2 then StringItem(s.meshState)
    else if key == 3 then UintItem(ToUint64(s.epoch))
    else if key == 4 then BytesItem(s.genesisManifest)
    else if key == 5 then Head(4, |s.authorities|) + AuthoritiesBytes(s.authorities)
    else if key == 6 then Head(4, |s.seeds|) + SeedsBytes(s.seeds)
    else if key == 7 then UintItem(ToUint64(s.policyVersion))
    else if key == 8 then UintItem(ToUint64(s.governanceVersion))
    else if key == 9 then BytesItem(s.crlDigest)
    else if key == 10 then UintItem(s.crlCount)
    else if key == 11 then HealthBytes(s.health)
    else if key == 12 then UintItem(s.cipherSuite)
    else if key == 13 then Head(4, |s.opcodes|) + OpcodesBytes(s.opcodes)
    else UintItem(s.activeProposals)
  }

  /** The entries with keys key, ..., 14. */
  function FieldsFrom(s: Snapshot, key: nat): Bytes
    requires 1 <= key <= 15 && WellFormed(s)
    decreases 15 - key
  {
    if key == 15 then [] else UintItem(key) + Payload(s, key) + FieldsFrom(s, key + 1)
  }

  function Encode(s: Snapshot): Bytes
    requires WellFormed(s)
  {
    Head(5, 14) + FieldsFrom(s, 1)
  }

  // ---------- decoding authorities and health

  function AuthorityFieldsAt(data: Bytes, pos: nat, n: nat, a: Authority): (s: Step<Authority>)
    requires pos <= |data|
    ensures pos <= s.pos <= |data|
    decreases n
  {
    if n == 0 then Step(Ok(a), pos)
    else
      var k := UintAt(data, pos);
      if k.res.Err? then Step(Err(k.res.code), k.pos)
      else if k.res.value == 1 then
        var v := StringAt(data, k.pos);
        if v.res.Err? then Step(Err(v.res.code), v.pos)
        else AuthorityFieldsAt(data, v.pos, n - 1, a.(nodeId := v.res.value))
      else if k.res.value == 2 then
        var v := StringAt(data, k.pos);
        if v.res.Err? then Step(Err(v.res.code), v.pos)
        else AuthorityFieldsAt(data, v.pos, n - 1, a.(endpoint := v.res.value))
      else
        var v := SkipAt(data, k.pos);
        if v.res.Err? then Step(Err(v.res.code), v.pos) else AuthorityFieldsAt(data, v.pos, n - 1, a)
  }

  function AuthorityAt(data: Bytes, pos: nat): (s: Step<Authority>)
    requires pos <= |data|
    ensures pos <= s.pos <= |data|
    ensures s.res.Ok? ==> pos < s.pos
  {
    var n := MapSizeAt(data, pos);
    if n.res.Err? then Step(Err(n.res.code), n.pos)
    else AuthorityFieldsAt(data, n.pos, n.res.value, Authority([], []))
  }

  function AuthoritiesAt(data: Bytes, pos: nat, n: nat, acc: seq<Authority>): (s: Step<seq<Authority>>)
    requires pos <= |data|
    ensures pos <= s.pos <= |data|
    decreases n
  {
    if n == 0 then Step(Ok(acc), pos)
    else
      var a := AuthorityAt(data, pos);
      if a.res.Err? then Step(Err(a.res.code), a.pos) else AuthoritiesAt(data, a.pos, n - 1, acc + [a.res.value])
  }

  function HealthFieldsAt(data: Bytes, pos: nat, n: nat, h: Health): (s: Step<Health>)
    requires pos <= |data|
    ensures pos <= s.pos <= |data|
    decreases n
  {
    if n == 0 then Step(Ok(h), pos)
    else
      var k := UintAt(data, pos);
      if k.res.Err? then Step(Err(k.res.code), k.pos)
      else if k.res.value == 1 then
        var v := StringAt(data, k.pos);
        if v.res.Err? then Step(Err(v.res.code), v.pos)
        else HealthFieldsAt(data, v.pos, n - 1, h.(level := v.res.value))
      else if k.res.value == 2 then
        var v := UintAt(data, k.pos);
        if v.res.Err? then Step(Err(v.res.code), v.pos)
        else HealthFieldsAt(data, v.pos, n - 1, h.(operational := v.res.value != 0))
      else
        var v := SkipAt(data, k.pos);
        if v.res.Err? then Step(Err(v.res.code), v.pos) else HealthFieldsAt(data, v.pos, n - 1, h)
  }

  function HealthAt(data: Bytes, pos: nat): (s: Step<Health>)
    requires pos <= |data|
    ensures pos <= s.pos <= |data|
  {
    var n := MapSizeAt(data, pos);
    if n.res.Err? then Step(Err(n.res.code), n.pos)
    else HealthFieldsAt(data, n.pos, n.res.value, Health([], false))
  }

  function OpcodesAt(data: Bytes, pos: nat, n: nat, acc: seq<nat>): (s: Step<seq<nat>>)
    requires pos <= |data|
    ensures pos <= s.pos <= |data|
    decreases n
  {
    if n == 0 then Step(Ok(acc), pos)
    else
      var v := UintAt(data, pos);
      if v.res.Err? then Step(Err(v.res.code), v.pos)
      else OpcodesAt(data, v.pos, n - 1, acc + [v.res.value % 256])
  }

  // ---------- decoding seeds: nothing in here is an error, the loops just stop

  datatype Stop<+T> = Stop(value: T, pos: nat)

  function SeedFieldAt(data: Bytes, pos: nat, key: nat, s: Seed): (r: Stop<Seed>)
    requires pos <= |data|
    ensures pos <= r.pos <= |data|
  {
    if key == 1 then
      var v := StringAt(data, pos);
      Stop(if v.res.Ok? then s.(endpoint := v.res.value) else s, v.pos)
    else if key == 2 then
      var v := StringAt(data, pos);
      Stop(if v.res.Ok? then s.(region := v.res.value) else s, v.pos)
    else if key == 3 then
      var v := UintAt(data, pos);
      Stop(if v.res.Ok? then s.(weight := v.res.value % MAX32) else s, v.pos)
    else if key == 4 then
      var v := UintAt(data, pos);
      Stop(if v.res.Ok? then s.(healthScore := v.res.value) else s, v.pos)
    else Stop(s, SkipAt(data, pos).pos)
  }

  function SeedFieldsAt(data: Bytes, pos: nat, n: nat, s: Seed): (r: Stop<Seed>)
    requires pos <= |data|
    ensures pos <= r.pos <= |data|
    decreases n
  {
    if n == 0 then Stop(s, pos)
    else
      var k := UintAt(data, pos);
      if k.res.Err? then Stop(s, k.pos)
      else
        var f := SeedFieldAt(data, k.pos, k.res.value, s);
        SeedFieldsAt(data, f.pos, n - 1, f.value)
  }

  function SeedsAt(data: Bytes, pos: nat, n: nat, acc: seq<Seed>): (r: Stop<seq<Seed>>)
    requires pos <= |data|
    ensures pos <= r.pos <= |data|
    decreases n
  {
    if n == 0 then Stop(acc, pos)
    else
      var m := MapSizeAt(data, pos);
      if m.res.Err? then Stop(acc + [NEW_SEED], m.pos)
      else
        var s := SeedFieldsAt(data, m.pos, m.res.value, NEW_SEED);
        SeedsAt(data, s.pos, n - 1, acc + [s.value])
  }

  // ---------- decoding the snapshot

  function FieldAt(data: Bytes, pos: nat, key: nat, s: Snapshot): (r: Step<Snapshot>)
    requires pos <= |data|
    ensures pos <= r.pos <= |data|
  {
    if key in {1, 2} then
      var v := StringAt(data, pos);
      if v.res.Err? then Step(Err(v.res.code), v.pos)
      else Step(Ok(if key == 1 then s.(meshId := v.res.value) else s.(meshState := v.res.value)), v.pos)
    else if key in {4, 9} then
      var v := BytesAt(data, pos);
      if v.res.Err? then Step(Err(v.res.code), v.pos)
      else Step(Ok(if key == 4 then s.(genesisManifest := v.res.value)
                   else if |v.res.value| == 32 then s.(crlDigest := v.res.value) else s), v.pos)
    else if key in {3, 7, 8, 10, 12, 14} then
      var v := UintAt(data, pos);
      HeadAtBound(data, pos);
      if v.res.Err? then Step(Err(v.res.code), v.pos) else Step(Ok(SetNumber(s, key, v.res.value)), v.pos)
    else if key == 5 then
      var n := ArraySizeAt(data, pos);
      if n.res.Err? then Step(Err(n.res.code), n.pos)
      else
        var v := AuthoritiesAt(data, n.pos, n.res.value, s.authorities);
        if v.res.Err? then Step(Err(v.res.code), v.pos) else Step(Ok(s.(authorities := v.res.value)), v.pos)
    else if key == 6 then
      var n := ArraySizeAt(data, pos);
      if n.res.Err? then Step(Err(n.res.code), n.pos)
      else
        var v := SeedsAt(data, n.pos, n.res.value, s.seeds);
        Step(Ok(s.(seeds := v.value)), v.pos)
    else if key == 11 then
      var h := HealthAt(data, pos);
      if h.res.Err? then Step(Err(h.res.code), h.pos) else Step(Ok(s.(health := h.res.value)), h.pos)
    else if key == 13 then
      var n := ArraySizeAt(data, pos);
      if n.res.Err? then Step(Err(n.res.code), n.pos)
      else
        var v := OpcodesAt(data, n.pos, n.res.value, s.opcodes);
        if v.res.Err? then Step(Err(v.res.code), v.pos) else Step(Ok(s.(opcodes := v.res.value)), v.pos)
    else
      var v := SkipAt(data, pos);
      if v.res.Err? then Step(Err(v.res.code), v.pos) else Step(Ok(s), v.pos)
  }

  /** The casts of the numeric fields. */
  function SetNumber(s: Snapshot, key: nat, v: nat): Snapshot
    requires v < MAX64
  {
    if key == 3 then s.(epoch := ToInt64(v))
    else if key == 7 then s.(policyVersion := ToInt64(v))
    else if key == 8 then s.(governanceVersion := ToInt64(v))
    else if key == 10 then s.(crlCount := v % MAX32)
    else if key == 12 then s.(cipherSuite := v % 256)
    else s.(activeProposals := v % MAX32)
  }

  function FieldsAt(data: Bytes, pos: nat, n: nat, s: Snapshot): (r: Step<Snapshot>)
    requires pos <= |data|
    ensures pos <= r.pos <= |data|
    decreases n
  {
    if n == 0 then Step(Ok(s), pos)
    else
      var k := UintAt(data, pos);
      if k.res.Err? then Step(Err(k.res.code), k.pos)
      else
        var f := FieldAt(data, k.pos, k.res.value, s);
        if f.res.Err? then f else FieldsAt(data, f.pos, n - 1, f.res.value)
  }

  function Decode(data: Bytes): Result<Snapshot> {
    var n := MapSizeAt(data, 0);
    if n.res.Err? then Err(n.res.code)
    else
      var f := FieldsAt(data, n.pos, n.res.value, NEW_SNAPSHOT);
      if f.res.Err? then f.res
      else if f.res.value.meshId == [] then Err(900)
      else f.res
  }

  // ---------- lists and nested maps round-trip

  lemma AuthorityField(data: Bytes, pos: nat, key: nat, text: Bytes, n: nat, a: Authority)
    requires |text| < MAX64 && key in {1, 2} && At(data, pos, UintItem(key) + StringItem(text))
    ensures AuthorityFieldsAt(data, pos, n + 1, a)
         == AuthorityFieldsAt(data, pos + |UintItem(key) + StringItem(text)|, n,
                              if key == 1 then a.(nodeId := text) else a.(endpoint := text))
  {
    hide Head, TypedAt, BlobAt, At, SkipAt;
    AtSplit(data, pos, UintItem(key), StringItem(text));
    TypedRoundTrip(data, pos, 0, key, 702);
    BlobRoundTrip(data, pos + |UintItem(key)|, 3, text, 705);
  }

  lemma AuthorityRun(data: Bytes, pos: nat, a: Authority)
    requires AuthorityRanges(a) && At(data, pos, AuthorityBytes(a))
    ensures AuthorityAt(data, pos) == Step(Ok(a), pos + |AuthorityBytes(a)|)
  {
    hide Head, TypedAt, At, AuthorityFieldsAt;
    var h, e1, e2 := Head(5, 2), UintItem(1) + StringItem(a.nodeId), UintItem(2) + StringItem(a.endpoint);
    AtSplit(data, pos, h + e1, e2);
    AtSplit(data, pos, h, e1);
    TypedRoundTrip(data, pos, 5, 2, 707);
    AuthorityField(data, pos + |h|, 1, a.nodeId, 1, Authority([], []));
    AuthorityField(data, pos + |h + e1|, 2, a.endpoint, 0, Authority(a.nodeId, []));
    AuthorityEnd(data, pos + |h + e1 + e2|, a);
  }

  lemma AuthorityEnd(data: Bytes, pos: nat, a: Authority)
    requires pos <= |data|
    ensures AuthorityFieldsAt(data, pos, 0, a) == Step(Ok(a), pos)
  {}

  lemma HealthLevel(data: Bytes, pos: nat, level: Bytes, n: nat, h: Health)
    requires |level| < MAX64 && At(data, pos, UintItem(1) + StringItem(level))
    ensures HealthFieldsAt(data, pos, n + 1, h)
         == HealthFieldsAt(data, pos + |UintItem(1) + StringItem(level)|, n, h.(level := level))
  {
    hide Head, TypedAt, BlobAt, At, SkipAt;
    AtSplit(data, pos, UintItem(1), StringItem(level));
    TypedRoundTrip(data, pos, 0, 1, 702);
    BlobRoundTrip(data, pos + |UintItem(1)|, 3, level, 705);
  }

  lemma HealthFlag(data: Bytes, pos: nat, flag: nat, n: nat, h: Health)
    requires flag <= 1 && At(data, pos, UintItem(2) + UintItem(flag))
    ensures HealthFieldsAt(data, pos, n + 1, h)
         == HealthFieldsAt(data, pos + |UintItem(2) + UintItem(flag)|, n, h.(operational := flag != 0))
  {
    hide Head, TypedAt, BlobAt, At, SkipAt;
    AtSplit(data, pos, UintItem(2), UintItem(flag));
    TypedRoundTrip(data, pos, 0, 2, 702);
    TypedRoundTrip(data, pos + |UintItem(2)|, 0, flag, 702);
  }

  lemma HealthEnd(data: Bytes, pos: nat, h: Health)
    requires pos <= |data|
    ensures HealthFieldsAt(data, pos, 0, h) == Step(Ok(h), pos)
  {}

  lemma HealthRun(data: Bytes, pos: nat, h: Health)
    requires |h.level| < MAX64 && At(data, pos, HealthBytes(h))
    ensures HealthAt(data, pos) == Step(Ok(h), pos + |HealthBytes(h)|)
  {
    hide Head, TypedAt, At, HealthFieldsAt;
    var flag := if h.operational then 1 else 0;
    var m, e1, e2 := Head(5, 2), UintItem(1) + StringItem(h.level), UintItem(2) + UintItem(flag);
    AtSplit(data, pos, m + e1, e2);
    AtSplit(data, pos, m, e1);
    TypedRoundTrip(data, pos, 5, 2, 707);
    HealthLevel(data, pos + |m|, h.level, 1, Health([], false));
    HealthFlag(data, pos + |m + e1|, flag, 0, Health(h.level, false));
    HealthEnd(data, pos + |m + e1 + e2|, h);
  }

  lemma {:induction false} AuthoritiesRun(data: Bytes, pos: nat, auths: seq<Authority>, acc: seq<Authority>)
    requires (forall a :: a in auths ==> AuthorityRanges(a)) && At(data, pos, AuthoritiesBytes(auths))
    ensures AuthoritiesAt(data, pos, |auths|, acc) == Step(Ok(acc + auths), pos + |AuthoritiesBytes(auths)|)
    decreases |auths|
  {
    hide AuthorityBytes, AuthorityAt, At;
    if auths == [] {
      assert acc + auths == acc;
    } else {
      AtSplit(data, pos, AuthorityBytes(auths[0]), AuthoritiesBytes(auths[1..]));
      AuthorityRun(data, pos, auths[0]);
      AuthoritiesRun(data, pos + |AuthorityBytes(auths[0])|, auths[1..], acc + [auths[0]]);
      assert acc + [auths[0]] + auths[1..] == acc + auths;
    }
  }

  lemma {:induction false} OpcodesRun(data: Bytes, pos: nat, opcodes: seq<nat>, acc: seq<nat>)
    requires (forall i :: 0 <= i < |opcodes| ==> opcodes[i] < 256) && At(data, pos, OpcodesBytes(opcodes))
    ensures OpcodesAt(data, pos, |opcodes|, acc) == Step(Ok(acc + opcodes), pos + |OpcodesBytes(opcodes)|)
    decreases |opcodes|
  {
    hide Head, TypedAt, At;
    if opcodes == [] {
      assert acc + opcodes == acc;
    } else {
      AtSplit(data, pos, UintItem(opcodes[0]), OpcodesBytes(opcodes[1..]));
      TypedRoundTrip(data, pos, 0, opcodes[0], 702);
      OpcodesRun(data, pos + |UintItem(opcodes[0])|, opcodes[1..], acc + [opcodes[0]]);
      assert acc + [opcodes[0]] + opcodes[1..] == acc + opcodes;
    }
  }

  function SetSeed(t: Seed, s: Seed, key: nat): Seed {
    if key == 1 then t.(endpoint := s.endpoint) else if key == 2 then t.(region := s.region)
    else if key == 3 then t.(weight := s.weight) else t.(healthScore := s.healthScore)
  }

  function SetSeedKeys(t: Seed, s: Seed, keys: seq<nat>): Seed
    decreases |keys|
  {
    if keys == [] then t else SetSeedKeys(SetSeed(t, s, keys[0]), s, keys[1..])
  }

  lemma SeedFieldRun(data: Bytes, pos: nat, s: Seed, key: nat, t: Seed)
    requires SeedRanges(s) && 1 <= key <= 4 && At(data, pos, SeedPayload(s, key))
    ensures SeedFieldAt(data, pos, key, t) == Stop(SetSeed(t, s, key), pos + |SeedPayload(s, key)|)
  {
    hide Head, TypedAt, BlobAt, At, SkipAt;
    if key == 1 { BlobRoundTrip(data, pos, 3, s.endpoint, 705); }
    else if key == 2 { BlobRoundTrip(data, pos, 3, s.region, 705); }
    else if key == 3 { TypedRoundTrip(data, pos, 0, s.weight, 702); }
    else { TypedRoundTrip(data, pos, 0, s.healthScore, 702); }
  }

  lemma SeedFieldsStep(data: Bytes, pos: nat, s: Seed, keys: seq<nat>, n: nat, t: Seed)
    requires SeedRanges(s) && keys != [] && 1 <= keys[0] <= 4 && 1 <= n && At(data, pos, SeedEntries(s, keys))
    ensures At(data, pos + |UintItem(keys[0]) + SeedPayload(s, keys[0])|, SeedEntries(s, keys[1..]))
    ensures SeedFieldsAt(data, pos, n, t)
         == SeedFieldsAt(data, pos + |UintItem(keys[0]) + SeedPayload(s, keys[0])|, n - 1, SetSeed(t, s, keys[0]))
  {
    hide Head, TypedAt, At, SeedFieldAt, SeedPayload, SeedRanges, SetSeed;
    var k := keys[0];
    AtSplit(data, pos, UintItem(k) + SeedPayload(s, k), SeedEntries(s, keys[1..]));
    AtSplit(data, pos, UintItem(k), SeedPayload(s, k));
    TypedRoundTrip(data, pos, 0, k, 702);
    SeedFieldRun(data, pos + |UintItem(k)|, s, k, t);
  }

  lemma {:induction false} SeedFieldsRun(data: Bytes, pos: nat, s: Seed, keys: seq<nat>, n: nat, t: Seed)
    requires SeedRanges(s) && (forall i :: 0 <= i < |keys| ==> 1 <= keys[i] <= 4) && |keys| <= n
    requires At(data, pos, SeedEntries(s, keys))
    ensures SeedFieldsAt(data, pos, n, t)
         == SeedFieldsAt(data, pos + |SeedEntries(s, keys)|, n - |keys|, SetSeedKeys(t, s, keys))
    decreases |keys|
  {
    hide At, SeedFieldsAt, SeedPayload, SeedRanges, SetSeed, Head;
    if keys != [] {
      var k := keys[0];
      SeedFieldsStep(data, pos, s, keys, n, t);
      SeedFieldsRun(data, pos + |UintItem(k) + SeedPayload(s, k)|, s, keys[1..], n - 1, SetSeed(t, s, k));
    }
  }

  lemma AllKeysSet(s: Seed)
    ensures SetSeedKeys(NEW_SEED, s, SeedKeys(s)) == s
  {
    var ks := SeedKeys(s);
    var t := SetSeed(NEW_SEED, s, 1);
    var t' := SetSeed(t, s, 2);
    if s.region == [] {
      assert ks[1..] == [3, 4] && t == t';
    } else {
      assert ks[1..] == [2, 3, 4] && [2, 3, 4][1..] == [3, 4];
      assert SetSeedKeys(t, s, [2, 3, 4]) == SetSeedKeys(t', s, [3, 4]);
    }
    assert [3, 4][1..] == [4] && [4][1..] == [];
    assert SetSeedKeys(t', s, [3, 4]) == SetSeedKeys(SetSeed(t', s, 3), s, [4]);
    assert SetSeedKeys(SetSeed(t', s, 3), s, [4]) == SetSeedKeys(SetSeed(SetSeed(t', s, 3), s, 4), s, []);
  }

  ghost predicate RegionsPresent(seeds: seq<Seed>) {
    forall i :: 0 <= i < |seeds| ==> seeds[i].region != []
  }

  /** A seed whose region is present is read back in full. */
  lemma SeedRun(data: Bytes, pos: nat, s: Seed)
    requires SeedRanges(s) && s.region != [] && At(data, pos, SeedBytes(s))
    ensures MapSizeAt(data, pos) == Step(Ok(4), pos + |Head(5, 4)|)
    ensures SeedFieldsAt(data, pos + |Head(5, 4)|, 4, NEW_SEED) == Stop(s, pos + |SeedBytes(s)|)
  {
    hide Head, TypedAt, At, SeedEntries, SetSeedKeys;
    AtSplit(data, pos, Head(5, 4), SeedEntries(s, SeedKeys(s)));
    TypedRoundTrip(data, pos, 5, 4, 707);
    SeedFieldsRun(data, pos + |Head(5, 4)|, s, SeedKeys(s), 4, NEW_SEED);
    AllKeysSet(s);
  }

  lemma {:induction false} SeedsRun(data: Bytes, pos: nat, seeds: seq<Seed>, acc: seq<Seed>)
    requires (forall d :: d in seeds ==> SeedRanges(d)) && RegionsPresent(seeds)
    requires At(data, pos, SeedsBytes(seeds))
    ensures SeedsAt(data, pos, |seeds|, acc) == Stop(acc + seeds, pos + |SeedsBytes(seeds)|)
    decreases |seeds|
  {
    hide Head, TypedAt, At, SeedBytes, SeedFieldsAt, SeedRanges;
    if seeds == [] {
      assert acc + seeds == acc;
    } else {
      AtSplit(data, pos, SeedBytes(seeds[0]), SeedsBytes(seeds[1..]));
      SeedRun(data, pos, seeds[0]);
      SeedsRun(data, pos + |SeedBytes(seeds[0])|, seeds[1..], acc + [seeds[0]]);
      assert acc + [seeds[0]] + seeds[1..] == acc + seeds;
    }
  }

  // ---------- running over the fields of an encoded snapshot

  /** What reading field `key` of the encoding of s does to a snapshot under construction. */
  function SetField(t: Snapshot, s: Snapshot, key: nat): Snapshot
    requires 1 <= key <= 14
  {
    if key == 1 then t.(meshId := s.meshId)
    else if key == 2 then t.(meshState := s.meshState)
    else if key == 3 then t.(epoch := s.epoch)
    else if key == 4 then t.(genesisManifest := s.genesisManifest)
    else if key == 5 then t.(authorities := t.authorities + s.authorities)
    else if key == 6 then t.(seeds := t.seeds + s.seeds)
    else if key == 7 then t.(policyVersion := s.policyVersion)
    else if key == 8 then t.(governanceVersion := s.governanceVersion)
    else if key == 9 then t.(crlDigest := s.crlDigest)
    else if key == 10 then t.(crlCount := s.crlCount)
    else if key == 11 then t.(health := s.health)
    else if key == 12 then t.(cipherSuite := s.cipherSuite)
    else if key == 13 then t.(opcodes := t.opcodes + s.opcodes)
    else t.(activeProposals := s.activeProposals)
  }

  function SetFields(t: Snapshot, s: Snapshot, lo: nat, hi: nat): Snapshot
    requires 1 <= lo <= hi <= 15
    decreases hi - lo
  {
    if lo == hi then t else SetFields(SetField(t, s, lo), s, lo + 1, hi)
  }

  lemma TextFieldRun(data: Bytes, pos: nat, key: nat, s: Snapshot, t: Snapshot)
    requires WellFormed(s) && key in {1, 2, 4, 9} && At(data, pos, Payload(s, key))
    ensures FieldAt(data, pos, key, t) == Step(Ok(SetField(t, s, key)), pos + |Payload(s, key)|)
  {
    hide Head, TypedAt, BlobAt, At, SkipAt, AuthoritiesAt, SeedsAt, HealthAt, OpcodesAt;
    if key == 1 { BlobRoundTrip(data, pos, 3, s.meshId, 705); }
    else if key == 2 { BlobRoundTrip(data, pos, 3, s.meshState, 705); }
    else if key == 4 { BlobRoundTrip(data, pos, 2, s.genesisManifest, 704); }
    else { BlobRoundTrip(data, pos, 2, s.crlDigest, 704); }
  }

  lemma NumberFieldRun(data: Bytes, pos: nat, key: nat, s: Snapshot, t: Snapshot)
    requires WellFormed(s) && key in {3, 7, 8, 10, 12, 14} && At(data, pos, Payload(s, key))
    ensures FieldAt(data, pos, key, t) == Step(Ok(SetField(t, s, key)), pos + |Payload(s, key)|)
  {
    hide Head, TypedAt, BlobAt, At, SkipAt, AuthoritiesAt, SeedsAt, HealthAt, OpcodesAt;
    if key == 3 { TypedRoundTrip(data, pos, 0, ToUint64(s.epoch), 702); }
    else if key == 7 { TypedRoundTrip(data, pos, 0, ToUint64(s.policyVersion), 702); }
    else if key == 8 { TypedRoundTrip(data, pos, 0, ToUint64(s.governanceVersion), 702); }
    else if key == 10 { TypedRoundTrip(data, pos, 0, s.crlCount, 702); }
    else if key == 12 { TypedRoundTrip(data, pos, 0, s.cipherSuite, 702); }
    else { TypedRoundTrip(data, pos, 0, s.activeProposals, 702); }
  }

  lemma ListFieldRun(data: Bytes, pos: nat, key: nat, s: Snapshot, t: Snapshot)
    requires WellFormed(s) && key in {5, 6, 11, 13} && At(data, pos, Payload(s, key))
    requires key == 6 ==> RegionsPresent(s.seeds)
    ensures FieldAt(data, pos, key, t) == Step(Ok(SetField(t, s, key)), pos + |Payload(s, key)|)
  {
    hide Head, TypedAt, BlobAt, At, SkipAt, AuthoritiesAt, SeedsAt, HealthAt, OpcodesAt;
    hide AuthoritiesBytes, SeedsBytes, OpcodesBytes, HealthBytes;
    if key == 5 {
      AtSplit(data, pos, Head(4, |s.authorities|), AuthoritiesBytes(s.authorities));
      TypedRoundTrip(data, pos, 4, |s.authorities|, 706);
      AuthoritiesRun(data, pos + |Head(4, |s.authorities|)|, s.authorities, t.authorities);
    } else if key == 6 {
      AtSplit(data, pos, Head(4, |s.seeds|), SeedsBytes(s.seeds));
      TypedRoundTrip(data, pos, 4, |s.seeds|, 706);
      SeedsRun(data, pos + |Head(4, |s.seeds|)|, s.seeds, t.seeds);
    } else if key == 11 {
      HealthRun(data, pos, s.health);
    } else {
      AtSplit(data, pos, Head(4, |s.opcodes|), OpcodesBytes(s.opcodes));
      TypedRoundTrip(data, pos, 4, |s.opcodes|, 706);
      OpcodesRun(data, pos + |Head(4, |s.opcodes|)|, s.opcodes, t.opcodes);
    }
  }

  lemma FieldRun(data: Bytes, pos: nat, key: nat, s: Snapshot, t: Snapshot)
    requires WellFormed(s) && 1 <= key <= 14 && At(data, pos, Payload(s, key))
    requires key == 6 ==> RegionsPresent(s.seeds)
    ensures FieldAt(data, pos, key, t) == Step(Ok(SetField(t, s, key)), pos + |Payload(s, key)|)
  {
    hide WellFormed, Payload, FieldAt, SetField, At;
    if key in {1, 2, 4, 9} { TextFieldRun(data, pos, key, s, t); }
    else if key in {5, 6, 11, 13} { ListFieldRun(data, pos, key, s, t); }
    else { NumberFieldRun(data, pos, key, s, t); }
  }

  function EntrySize(s: Snapshot, key: nat): nat
    requires 1 <= key <= 14 && WellFormed(s)
  {
    |UintItem(key) + Payload(s, key)|
  }

  lemma FieldsStep(data: Bytes, pos: nat, key: nat, n: nat, s: Snapshot, t: Snapshot)
    requires WellFormed(s) && 1 <= key <= 14 && 1 <= n && At(data, pos, FieldsFrom(s, key))
    requires key == 6 ==> RegionsPresent(s.seeds)
    ensures |FieldsFrom(s, key)| == EntrySize(s, key) + |FieldsFrom(s, key + 1)|
    ensures At(data, pos + EntrySize(s, key), FieldsFrom(s, key + 1))
    ensures FieldsAt(data, pos, n, t) == FieldsAt(data, pos + EntrySize(s, key), n - 1, SetField(t, s, key))
  {
    hide Head, TypedAt, At, WellFormed, Payload, FieldAt, SetField;
    AtSplit(data, pos, UintItem(key) + Payload(s, key), FieldsFrom(s, key + 1));
    AtSplit(data, pos, UintItem(key), Payload(s, key));
    TypedRoundTrip(data, pos, 0, key, 702);
    FieldRun(data, pos + |UintItem(key)|, key, s, t);
  }

  /** Reading the entries lo, ..., hi - 1 leaves the decoder in front of entry `hi`. */
  lemma {:induction false} FieldsRun(data: Bytes, pos: nat, lo: nat, hi: nat, n: nat, s: Snapshot, t: Snapshot)
    requires WellFormed(s) && 1 <= lo <= hi <= 15 && hi - lo <= n && At(data, pos, FieldsFrom(s, lo))
    requires lo <= 6 < hi ==> RegionsPresent(s.seeds)
    ensures |FieldsFrom(s, hi)| <= |FieldsFrom(s, lo)|
    ensures At(data, pos + |FieldsFrom(s, lo)| - |FieldsFrom(s, hi)|, FieldsFrom(s, hi))
    ensures FieldsAt(data, pos, n, t)
         == FieldsAt(data, pos + |FieldsFrom(s, lo)| - |FieldsFrom(s, hi)|, n - (hi - lo), SetFields(t, s, lo, hi))
    decreases hi - lo
  {
    hide At, WellFormed, FieldsFrom, FieldsAt, SetField, EntrySize, RegionsPresent;
    if lo < hi {
      FieldsStep(data, pos, lo, n, s, t);
      FieldsRun(data, pos + EntrySize(s, lo), lo + 1, hi, n - 1, s, SetField(t, s, lo));
    }
  }

  // ---------- round trip

  // The fourteen updates in four groups.

  function Group1(t: Snapshot, s: Snapshot): Snapshot { t.(meshId := s.meshId, meshState := s.meshState) }

  function Group3(t: Snapshot, s: Snapshot): Snapshot {
    t.(epoch := s.epoch, genesisManifest := s.genesisManifest, authorities := t.authorities + s.authorities,
       seeds := t.seeds + s.seeds)
  }

  function Group7(t: Snapshot, s: Snapshot): Snapshot {
    t.(policyVersion := s.policyVersion, governanceVersion := s.governanceVersion, crlDigest := s.crlDigest,
       crlCount := s.crlCount)
  }

  function Group11(t: Snapshot, s: Snapshot): Snapshot {
    t.(health := s.health, cipherSuite := s.cipherSuite, opcodes := t.opcodes + s.opcodes,
       activeProposals := s.activeProposals)
  }

  lemma SetGroups(t: Snapshot, s: Snapshot)
    ensures SetFields(t, s, 11, 15) == Group11(t, s)
    ensures SetFields(t, s, 7, 15) == SetFields(Group7(t, s), s, 11, 15)
    ensures SetFields(t, s, 3, 15) == SetFields(Group3(t, s), s, 7, 15)
    ensures SetFields(t, s, 1, 15) == SetFields(Group1(t, s), s, 3, 15)
  {
    assert SetFields(t, s, 11, 15) == SetFields(SetField(SetField(t, s, 11), s, 12), s, 13, 15);
    assert SetFields(t, s, 7, 15) == SetFields(SetField(SetField(t, s, 7), s, 8), s, 9, 15);
    assert SetFields(t, s, 3, 15) == SetFields(SetField(SetField(t, s, 3), s, 4), s, 5, 15);
  }

  lemma AllFieldsSet(s: Snapshot)
    ensures SetFields(NEW_SNAPSHOT, s, 1, 15) == s.(schemaVersion := 1)
  {
    GroupsMakeAll(s);
    hide SetFields, Group1, Group3, Group7, Group11;
    var t3 := Group1(NEW_SNAPSHOT, s);
    var t7 := Group3(t3, s);
    SetGroups(NEW_SNAPSHOT, s);
    SetGroups(t3, s);
    SetGroups(t7, s);
    SetGroups(Group7(t7, s), s);
  }

  lemma GroupsMakeAll(s: Snapshot)
    ensures Group11(Group7(Group3(Group1(NEW_SNAPSHOT, s), s), s), s) == s.(schemaVersion := 1)
  {
    assert [] + s.authorities == s.authorities && [] + s.seeds == s.seeds && [] + s.opcodes == s.opcodes;
  }

  lemma FieldsEnd(data: Bytes, pos: nat, s: Snapshot, t: Snapshot)
    requires WellFormed(s) && pos <= |data|
    ensures FieldsFrom(s, 15) == [] && FieldsAt(data, pos, 0, t) == Step(Ok(t), pos)
  {}

  lemma EncodedFields(s: Snapshot)
    requires WellFormed(s)
    ensures MapSizeAt(Encode(s), 0) == Step(Ok(14), |Head(5, 14)|)
    ensures At(Encode(s), |Head(5, 14)|, FieldsFrom(s, 1))
  {
    hide Head, TypedAt, FieldsFrom, WellFormed, At;
    var data := Encode(s);
    AtEmbed([], data, []);
    assert [] + data + [] == data;
    AtSplit(data, 0, Head(5, 14), FieldsFrom(s, 1));
    TypedRoundTrip(data, 0, 5, 14, 707);
  }

  lemma FieldsWithRegions(data: Bytes, pos: nat, s: Snapshot)
    requires WellFormed(s) && RegionsPresent(s.seeds) && At(data, pos, FieldsFrom(s, 1))
    ensures FieldsAt(data, pos, 14, NEW_SNAPSHOT) == Step(Ok(s.(schemaVersion := 1)), pos + |FieldsFrom(s, 1)|)
  {
    hide FieldsFrom, FieldsAt, WellFormed, SetFields;
    FieldsRun(data, pos, 1, 15, 14, s, NEW_SNAPSHOT);
    FieldsEnd(data, pos + |FieldsFrom(s, 1)|, s, SetFields(NEW_SNAPSHOT, s, 1, 15));
    AllFieldsSet(s);
  }

  /** With every region present the snapshot is read back, except that schema_version is not on the wire. */
  lemma DecodeWithRegions(s: Snapshot)
    requires WellFormed(s) && RegionsPresent(s.seeds)
    ensures Decode(Encode(s)) == if s.meshId == [] then Err(900) else Ok(s.(schemaVersion := 1))
  {
    hide Encode, FieldsFrom, FieldsAt, WellFormed, At, TypedAt, Head;
    EncodedFields(s);
    FieldsWithRegions(Encode(s), |Head(5, 14)|, s);
  }

  // ---------- an empty region derails the decoder

  /** A seed without its region: the three entries are read and a fourth is still expected. */
  lemma ShortSeed(data: Bytes, pos: nat, s: Seed)
    requires SeedRanges(s) && s.region == [] && At(data, pos, SeedBytes(s))
    ensures MapSizeAt(data, pos) == Step(Ok(4), pos + |Head(5, 4)|)
    ensures SeedFieldsAt(data, pos + |Head(5, 4)|, 4, NEW_SEED) == SeedFieldsAt(data, pos + |SeedBytes(s)|, 1, s)
  {
    hide Head, TypedAt, At, SeedEntries, SetSeedKeys, SeedFieldsAt;
    AtSplit(data, pos, Head(5, 4), SeedEntries(s, SeedKeys(s)));
    TypedRoundTrip(data, pos, 5, 4, 707);
    SeedFieldsRun(data, pos + |Head(5, 4)|, s, SeedKeys(s), 4, NEW_SEED);
    AllKeysSet(s);
  }

  lemma PolicyEntry(s: Snapshot)
    requires WellFormed(s)
    ensures Int64(s.policyVersion)
    ensures FieldsFrom(s, 7) == UintItem(7) + UintItem(ToUint64(s.policyVersion)) + FieldsFrom(s, 8)
    ensures EntrySize(s, 7) == |UintItem(7) + UintItem(ToUint64(s.policyVersion))|
  {
    hide Head;
  }

  /** Behind the last seed the missing entry is taken from the snapshot: key 7 and its value are skipped. */
  lemma EatsPolicyVersion(data: Bytes, pos: nat, s: Snapshot, t: Seed)
    requires WellFormed(s) && At(data, pos, FieldsFrom(s, 7))
    ensures SeedFieldsAt(data, pos, 1, t) == Stop(t, pos + EntrySize(s, 7))
    ensures At(data, pos + EntrySize(s, 7), FieldsFrom(s, 8))
    ensures |FieldsFrom(s, 7)| == EntrySize(s, 7) + |FieldsFrom(s, 8)|
  {
    hide Head, TypedAt, At, SkipAt, WellFormed, FieldsFrom, EntrySize;
    PolicyEntry(s);
    var n := ToUint64(s.policyVersion);
    AtSplit(data, pos, UintItem(7) + UintItem(n), FieldsFrom(s, 8));
    AtSplit(data, pos, UintItem(7), UintItem(n));
    TypedRoundTrip(data, pos, 0, 7, 702);
    SkipUint(data, pos + |UintItem(7)|, n);
    assert SeedFieldAt(data, pos + |UintItem(7)|, 7, t) == Stop(t, pos + EntrySize(s, 7));
  }

  /** Between seeds it is the next map head, then the next key, then a string where a key should be. */
  lemma StumblesOverSeed(data: Bytes, pos: nat, t: Seed, next: Seed)
    requires SeedRanges(next) && At(data, pos, SeedBytes(next))
    ensures SeedFieldsAt(data, pos, 1, t) == Stop(t, pos + |Head(5, 4)|)
    ensures MapSizeAt(data, pos + |Head(5, 4)|).res == Err(707)
    ensures UintAt(data, MapSizeAt(data, pos + |Head(5, 4)|).pos).res == Err(702)
  {
    hide Head, TypedAt, At;
    var keys := SeedKeys(next);
    AtSplit(data, pos, Head(5, 4), SeedEntries(next, keys));
    WrongType(data, pos, 5, 4, 0, 702);
    var p := pos + |Head(5, 4)|;
    AtSplit(data, p, UintItem(1) + SeedPayload(next, 1), SeedEntries(next, keys[1..]));
    AtSplit(data, p, UintItem(1), SeedPayload(next, 1));
    WrongType(data, p, 0, 1, 5, 707);
    AtSplit(data, p + |UintItem(1)|, Head(3, |next.endpoint|), next.endpoint);
    WrongType(data, p + |UintItem(1)|, 3, |next.endpoint|, 0, 702);
  }

  /** Either the decoder stands one entry too far, or in front of something that is not a key. */
  ghost predicate Derailed(data: Bytes, s: Snapshot, pos: nat)
    requires WellFormed(s)
  {
    || (At(data, pos, FieldsFrom(s, 8)) && pos + |FieldsFrom(s, 8)| == |data|)
    || (pos <= |data| && UintAt(data, pos).res == Err(702))
  }

  lemma SeedsStep(data: Bytes, pos: nat, n: nat, acc: seq<Seed>, m: nat, p: nat)
    requires pos <= |data| && p <= |data| && 0 < n && MapSizeAt(data, pos) == Step(Ok(m), p)
    ensures SeedsAt(data, pos, n, acc)
         == SeedsAt(data, SeedFieldsAt(data, p, m, NEW_SEED).pos, n - 1, acc + [SeedFieldsAt(data, p, m, NEW_SEED).value])
  {
    hide SeedFieldsAt, TypedAt;
  }

  lemma SeedsGiveUp(data: Bytes, pos: nat, n: nat, acc: seq<Seed>)
    requires pos <= |data| && 0 < n && MapSizeAt(data, pos).res.Err?
    ensures SeedsAt(data, pos, n, acc).pos == MapSizeAt(data, pos).pos
  {
    hide SeedFieldsAt, TypedAt;
  }

  lemma DerailAtSeed(data: Bytes, pos: nat, seeds: seq<Seed>, acc: seq<Seed>, s: Snapshot)
    requires WellFormed(s) && seeds != [] && (forall d :: d in seeds ==> SeedRanges(d)) && seeds[0].region == []
    requires At(data, pos, SeedsBytes(seeds) + FieldsFrom(s, 7))
    requires pos + |SeedsBytes(seeds) + FieldsFrom(s, 7)| == |data|
    ensures Derailed(data, s, SeedsAt(data, pos, |seeds|, acc).pos)
  {
    hide Head, TypedAt, At, WellFormed, FieldsFrom, SeedBytes, SeedFieldsAt, SeedRanges, EntrySize, SeedsAt;
    AtSplit(data, pos, SeedsBytes(seeds), FieldsFrom(s, 7));
    AtSplit(data, pos, SeedBytes(seeds[0]), SeedsBytes(seeds[1..]));
    ShortSeed(data, pos, seeds[0]);
    SeedsStep(data, pos, |seeds|, acc, 4, pos + |Head(5, 4)|);
    var p := pos + |SeedBytes(seeds[0])|;
    if |seeds| == 1 {
      assert SeedsBytes(seeds[1..]) == [];
      EatsPolicyVersion(data, p, s, seeds[0]);
      SeedsDone(data, p + EntrySize(s, 7), acc + [seeds[0]]);
    } else {
      assert seeds[1..][0] == seeds[1];
      AtSplit(data, p, SeedBytes(seeds[1]), SeedsBytes(seeds[1..][1..]));
      StumblesOverSeed(data, p, seeds[0], seeds[1]);
      SeedsGiveUp(data, p + |Head(5, 4)|, |seeds| - 1, acc + [seeds[0]]);
    }
  }

  lemma SeedsDone(data: Bytes, pos: nat, acc: seq<Seed>)
    requires pos <= |data|
    ensures SeedsAt(data, pos, 0, acc) == Stop(acc, pos)
  {}

  lemma {:induction false} SeedsDerail(data: Bytes, pos: nat, seeds: seq<Seed>, acc: seq<Seed>, s: Snapshot)
    requires WellFormed(s) && (forall d :: d in seeds ==> SeedRanges(d)) && !RegionsPresent(seeds)
    requires At(data, pos, SeedsBytes(seeds) + FieldsFrom(s, 7))
    requires pos + |SeedsBytes(seeds) + FieldsFrom(s, 7)| == |data|
    ensures Derailed(data, s, SeedsAt(data, pos, |seeds|, acc).pos)
    decreases |seeds|
  {
    hide Head, TypedAt, At, WellFormed, FieldsFrom, SeedBytes, SeedFieldsAt, SeedRanges, Derailed;
    if seeds[0].region == [] {
      DerailAtSeed(data, pos, seeds, acc, s);
    } else {
      var h, t, f := SeedBytes(seeds[0]), SeedsBytes(seeds[1..]), FieldsFrom(s, 7);
      assert h + t + f == h + (t + f);
      AtSplit(data, pos, h, t + f);
      SeedRun(data, pos, seeds[0]);
      SeedsDerail(data, pos + |h|, seeds[1..], acc + [seeds[0]], s);
    }
  }

  lemma SeedsEntry(s: Snapshot)
    requires WellFormed(s)
    ensures FieldsFrom(s, 6)
         == UintItem(6) + (Head(4, |s.seeds|) + (SeedsBytes(s.seeds) + FieldsFrom(s, 7)))
    ensures |s.seeds| < MAX64 && forall d :: d in s.seeds ==> SeedRanges(d)
  {
    hide Head, SeedsBytes, SeedRanges;
    var a, h, b, f := UintItem(6), Head(4, |s.seeds|), SeedsBytes(s.seeds), FieldsFrom(s, 7);
    assert a + (h + b) + f == a + (h + (b + f));
  }

  lemma FieldsCons(data: Bytes, pos: nat, n: nat, t: Snapshot, key: nat, p: nat)
    requires pos <= |data| && p <= |data| && 0 < n && UintAt(data, pos) == Step(Ok(key), p)
    ensures var f := FieldAt(data, p, key, t);
            FieldsAt(data, pos, n, t) == if f.res.Err? then f else FieldsAt(data, f.pos, n - 1, f.res.value)
  {
    hide FieldAt, TypedAt;
  }

  lemma SeedsField(data: Bytes, pos: nat, t: Snapshot, n: nat, p: nat)
    requires pos <= |data| && p <= |data| && ArraySizeAt(data, pos) == Step(Ok(n), p)
    ensures FieldAt(data, pos, 6, t)
         == Step(Ok(t.(seeds := SeedsAt(data, p, n, t.seeds).value)), SeedsAt(data, p, n, t.seeds).pos)
  {
    hide SeedsAt, TypedAt;
  }

  lemma FieldsDerail(data: Bytes, pos: nat, s: Snapshot, t: Snapshot)
    requires WellFormed(s) && !RegionsPresent(s.seeds)
    requires At(data, pos, FieldsFrom(s, 6)) && pos + |FieldsFrom(s, 6)| == |data|
    ensures FieldsAt(data, pos, 9, t).res.Err?
  {
    hide Head, TypedAt, At, SeedsBytes, SeedsAt, FieldsFrom, WellFormed, FieldAt, FieldsAt, Derailed, RegionsPresent;
    SeedsEntry(s);
    var a, h, rest := UintItem(6), Head(4, |s.seeds|), SeedsBytes(s.seeds) + FieldsFrom(s, 7);
    AtSplit(data, pos, a, h + rest);
    TypedRoundTrip(data, pos, 0, 6, 702);
    AtSplit(data, pos + |a|, h, rest);
    TypedRoundTrip(data, pos + |a|, 4, |s.seeds|, 706);
    var p := pos + |a| + |h|;
    FieldsCons(data, pos, 9, t, 6, pos + |a|);
    SeedsField(data, pos + |a|, t, |s.seeds|, p);
    SeedsDerail(data, p, s.seeds, t.seeds, s);
    var stop := SeedsAt(data, p, |s.seeds|, t.seeds);
    AfterDerail(data, stop.pos, s, t.(seeds := stop.value));
  }

  lemma FieldsStuck(data: Bytes, pos: nat, n: nat, t: Snapshot)
    requires pos <= |data| && 0 < n && UintAt(data, pos).res.Err?
    ensures FieldsAt(data, pos, n, t).res.Err?
  {
    hide FieldAt, TypedAt;
  }

  lemma NoKeyAtEnd(data: Bytes)
    ensures UintAt(data, |data|).res == Err(700)
  {}

  lemma AfterDerail(data: Bytes, pos: nat, s: Snapshot, t: Snapshot)
    requires WellFormed(s) && pos <= |data| && Derailed(data, s, pos)
    ensures FieldsAt(data, pos, 8, t).res.Err?
  {
    hide Head, At, WellFormed, FieldsAt, FieldsFrom, SetFields, TypedAt;
    if At(data, pos, FieldsFrom(s, 8)) && pos + |FieldsFrom(s, 8)| == |data| {
      FieldsRun(data, pos, 8, 15, 8, s, t);
      FieldsEnd(data, |data|, s, t);
      NoKeyAtEnd(data);
      FieldsStuck(data, |data|, 1, SetFields(t, s, 8, 15));
    } else {
      FieldsStuck(data, pos, 8, t);
    }
  }

  /** A snapshot with a seed that has no region cannot be decoded from its own encoding. */
  lemma DecodeWithoutRegion(s: Snapshot)
    requires WellFormed(s) && !RegionsPresent(s.seeds)
    ensures Decode(Encode(s)).Err?
  {
    hide Head, TypedAt, At, WellFormed, FieldsFrom, FieldsAt, SetFields, RegionsPresent;
    var data, pos := Encode(s), |Head(5, 14)|;
    EncodedFields(s);
    FieldsRun(data, pos, 1, 6, 14, s, NEW_SNAPSHOT);
    FieldsDerail(data, pos + |FieldsFrom(s, 1)| - |FieldsFrom(s, 6)|, s, SetFields(NEW_SNAPSHOT, s, 1, 6));
  }

  /** The exact condition under which a snapshot survives the wire. */
  lemma SnapshotRoundTrip(s: Snapshot)
    requires WellFormed(s)
    ensures Decode(Encode(s)) == Ok(s) <==> s.schemaVersion == 1 && s.meshId != [] && RegionsPresent(s.seeds)
  {
    hide Decode, Encode, WellFormed;
    if RegionsPresent(s.seeds) {
      DecodeWithRegions(s);
    } else {
      DecodeWithoutRegion(s);
    }
  }
}
