/** The bootstrap response: version, echoed nonce and the snapshot as a nested byte string. */
module BootstrapResponses {
  import opened Results
  import opened ByteStrings
  import opened Cbor
  import Snap = BootstrapSnapshots
  import Codec = BootstrapSnapshotCodec

  datatype Response = Response(version: nat, nonce: Bytes, snapshot: Snap.Snapshot)

  const NEW_RESPONSE := Response(1, [0, 0, 0, 0, 0, 0, 0, 0], Snap.NEW_SNAPSHOT)

  ghost predicate WellFormed(r: Response) {
    r.version < 256 && |r.nonce| == 8 && Snap.WellFormed(r.snapshot) && |Snap.Encode(r.snapshot)| < MAX64
  }

  function Encode(r: Response): Bytes
    requires WellFormed(r)
  {
    Head(5, 3) + (UintItem(1) + UintItem(r.version)) + (UintItem(2) + BytesItem(r.nonce))
    + (UintItem(3) + BytesItem(Snap.Encode(r.snapshot)))
  }

  function FieldAt(data: Bytes, pos: nat, key: nat, r: Response): (s: Step<Response>)
    requires pos <= |data|
    ensures pos <= s.pos <= |data|
  {
    if key == 1 then
      var v := UintAt(data, pos);
      if v.res.Err? then Step(Err(v.res.code), v.pos) else Step(Ok(r.(version := v.res.value % 256)), v.pos)
    else if key == 2 then
      var v := BytesAt(data, pos);
      if v.res.Err? then Step(Err(v.res.code), v.pos)
      else Step(Ok(if |v.res.value| == 8 then r.(nonce := v.res.value) else r), v.pos)
    else if key == 3 then
      var v := BytesAt(data, pos);
      if v.res.Err? then Step(Err(v.res.code), v.pos)
      else
        var snap := Snap.Decode(v.res.value);
        if snap.Err? then Step(Err(snap.code), v.pos) else Step(Ok(r.(snapshot := snap.value)), v.pos)
    else
      var v := SkipAt(data, pos);
      if v.res.Err? then Step(Err(v.res.code), v.pos) else Step(Ok(r), v.pos)
  }

  function FieldsAt(data: Bytes, pos: nat, n: nat, r: Response): (s: Step<Response>)
    requires pos <= |data|
    ensures pos <= s.pos <= |data|
    decreases n
  {
    if n == 0 then Step(Ok(r), pos)
    else
      var k := UintAt(data, pos);
      if k.res.Err? then Step(Err(k.res.code), k.pos)
      else
        var f := FieldAt(data, k.pos, k.res.value, r);
        if f.res.Err? then f else FieldsAt(data, f.pos, n - 1, f.res.value)
  }

  function Decode(data: Bytes): Result<Response> {
    var n := MapSizeAt(data, 0);
    if n.res.Err? then Err(n.res.code) else FieldsAt(data, n.pos, n.res.value, NEW_RESPONSE).res
  }

  // ---------- round trip

  lemma FieldsCons(data: Bytes, pos: nat, key: nat, payload: Bytes, n: nat, r: Response)
    requires key < MAX64 && 0 < n && At(data, pos, UintItem(key) + payload)
    ensures At(data, pos + |UintItem(key)|, payload)
    ensures var f := FieldAt(data, pos + |UintItem(key)|, key, r);
            FieldsAt(data, pos, n, r) == if f.res.Err? then f else FieldsAt(data, f.pos, n - 1, f.res.value)
  {
    hide Head, TypedAt, At, FieldAt;
    AtSplit(data, pos, UintItem(key), payload);
    TypedRoundTrip(data, pos, 0, key, 702);
  }

  lemma VersionRun(data: Bytes, pos: nat, version: nat, r: Response)
    requires version < 256 && At(data, pos, UintItem(version))
    ensures FieldAt(data, pos, 1, r) == Step(Ok(r.(version := version)), pos + |UintItem(version)|)
  {
    hide Head, TypedAt, BlobAt, SkipAt, At;
    TypedRoundTrip(data, pos, 0, version, 702);
  }

  lemma NonceRun(data: Bytes, pos: nat, nonce: Bytes, r: Response)
    requires |nonce| == 8 && At(data, pos, BytesItem(nonce))
    ensures FieldAt(data, pos, 2, r) == Step(Ok(r.(nonce := nonce)), pos + |BytesItem(nonce)|)
  {
    hide Head, TypedAt, BlobAt, SkipAt, At;
    BlobRoundTrip(data, pos, 2, nonce, 704);
  }

  lemma SnapshotRun(data: Bytes, pos: nat, bytes: Bytes, r: Response)
    requires |bytes| < MAX64 && At(data, pos, BytesItem(bytes))
    ensures var snap := Snap.Decode(bytes);
            FieldAt(data, pos, 3, r)
            == Step(if snap.Err? then Err(snap.code) else Ok(r.(snapshot := snap.value)), pos + |BytesItem(bytes)|)
  {
    hide Head, TypedAt, BlobAt, SkipAt, At, Snap.Decode;
    BlobRoundTrip(data, pos, 2, bytes, 704);
  }

  lemma EntriesRun(data: Bytes, pos: nat, r: Response)
    requires WellFormed(r)
    requires At(data, pos, UintItem(1) + UintItem(r.version))
    requires var p2 := pos + |UintItem(1) + UintItem(r.version)|;
             && At(data, p2, UintItem(2) + BytesItem(r.nonce))
             && At(data, p2 + |UintItem(2) + BytesItem(r.nonce)|, UintItem(3) + BytesItem(Snap.Encode(r.snapshot)))
    ensures var snap := Snap.Decode(Snap.Encode(r.snapshot));
            FieldsAt(data, pos, 3, NEW_RESPONSE).res
            == if snap.Err? then Err(snap.code) else Ok(r.(snapshot := snap.value))
  {
    hide Head, At, FieldAt, FieldsAt, Snap.Decode, Snap.Encode, Snap.WellFormed;
    var bytes := Snap.Encode(r.snapshot);
    FieldsCons(data, pos, 1, UintItem(r.version), 3, NEW_RESPONSE);
    VersionRun(data, pos + |UintItem(1)|, r.version, NEW_RESPONSE);
    var p2 := pos + |UintItem(1) + UintItem(r.version)|;
    var r1 := NEW_RESPONSE.(version := r.version);
    FieldsCons(data, p2, 2, BytesItem(r.nonce), 2, r1);
    NonceRun(data, p2 + |UintItem(2)|, r.nonce, r1);
    var p3 := p2 + |UintItem(2) + BytesItem(r.nonce)|;
    var r2 := r1.(nonce := r.nonce);
    FieldsCons(data, p3, 3, BytesItem(bytes), 1, r2);
    SnapshotRun(data, p3 + |UintItem(3)|, bytes, r2);
    var snap := Snap.Decode(bytes);
    if snap.Ok? { FieldsEnd(data, p3 + |UintItem(3)| + |BytesItem(bytes)|, r2.(snapshot := snap.value)); }
  }

  /** The response decodes to itself with whatever its snapshot decodes to, and fails where the snapshot does. */
  lemma DecodeEncoded(r: Response)
    requires WellFormed(r)
    ensures var snap := Snap.Decode(Snap.Encode(r.snapshot));
            Decode(Encode(r)) == if snap.Err? then Err(snap.code) else Ok(r.(snapshot := snap.value))
  {
    hide Head, TypedAt, At, FieldsAt, Snap.Decode, Snap.Encode, Snap.WellFormed;
    var data, bytes := Encode(r), Snap.Encode(r.snapshot);
    var h, e1, e2 := Head(5, 3), UintItem(1) + UintItem(r.version), UintItem(2) + BytesItem(r.nonce);
    AtEmbed([], data, []);
    assert [] + data + [] == data;
    AtSplit(data, 0, h + e1 + e2, UintItem(3) + BytesItem(bytes));
    AtSplit(data, 0, h + e1, e2);
    AtSplit(data, 0, h, e1);
    TypedRoundTrip(data, 0, 5, 3, 707);
    EntriesRun(data, |h|, r);
  }

  lemma FieldsEnd(data: Bytes, pos: nat, r: Response)
    requires pos <= |data|
    ensures FieldsAt(data, pos, 0, r) == Step(Ok(r), pos)
  {}

  /** A response round-trips exactly when its snapshot has schema 1, a mesh id, and a region on every seed. */
  lemma ResponseRoundTrip(r: Response)
    requires WellFormed(r)
    ensures Decode(Encode(r)) == Ok(r)
       <==> r.snapshot.schemaVersion == 1 && r.snapshot.meshId != [] && Snap.RegionsPresent(r.snapshot.seeds)
  {
    hide Decode, Encode, Snap.WellFormed, Snap.Decode, Snap.Encode, Snap.RegionsPresent;
    DecodeEncoded(r);
    Snap.SnapshotRoundTrip(r.snapshot);
  }

  // ---------- the handler

  /** The seeds handle_bootstrap_request derives from the configured endpoints: the region is never set. */
  function HandlerSeeds(endpoints: seq<Bytes>): (seeds: seq<Snap.Seed>)
    ensures |seeds| == |endpoints|
  {
    seq(|endpoints|, i requires 0 <= i < |endpoints| => Snap.Seed(endpoints[i], [], 100, 0x3FF0_0000_0000_0000))
  }

  /** A response the handler builds is undecodable as soon as one bootstrap endpoint is configured. */
  lemma HandlerResponseUndecodable(r: Response, endpoints: seq<Bytes>)
    requires WellFormed(r) && r.snapshot.seeds == HandlerSeeds(endpoints) && endpoints != []
    ensures Decode(Encode(r)).Err?
  {
    hide Decode, Encode, Snap.WellFormed, Snap.Decode, Snap.Encode;
    DecodeEncoded(r);
    assert r.snapshot.seeds[0].region == [];
    Snap.DecodeWithoutRegion(r.snapshot);
  }

  /** The response to a node of mesh "m" when the one configured endpoint is "h". */
  function OneEndpoint(): Response {
    NEW_RESPONSE.(snapshot := Snap.NEW_SNAPSHOT.(meshId := [109], seeds := HandlerSeeds([[104]])))
  }

  lemma HeadLength(major: nat, val: nat)
    requires major < 8
    ensures |Head(major, val)| <= 9
  {}

  lemma EntriesLength(d: Snap.Seed, keys: seq<nat>)
    requires keys != []
    ensures |Snap.SeedEntries(d, keys)| ==
      |UintItem(keys[0])| + |Snap.SeedPayload(d, keys[0])| + |Snap.SeedEntries(d, keys[1..])|
  {}

  lemma SeedLength(d: Snap.Seed)
    requires d.region == [] && |d.endpoint| <= 1
    ensures |Snap.SeedBytes(d)| <= 100
  {
    hide Head;
    HeadLength(5, 4);
    HeadLength(3, |d.endpoint|);
    HeadLength(0, d.weight);
    HeadLength(0, d.healthScore);
    HeadLength(0, 1);
    HeadLength(0, 3);
    HeadLength(0, 4);
    EntriesLength(d, [4]);
    EntriesLength(d, [3, 4]);
    EntriesLength(d, [1, 3, 4]);
    assert [4][1..] == [] && [3, 4][1..] == [4] && [1, 3, 4][1..] == [3, 4];
  }

  lemma PayloadLength(s: Snap.Snapshot, key: nat)
    requires 1 <= key <= 14 && Snap.WellFormed(s) && s == OneEndpoint().snapshot
    ensures |Snap.Payload(s, key)| <= 200
  {
    hide Head, Snap.SeedBytes;
    forall major: nat, val: nat | major < 8 ensures |Head(major, val)| <= 9 { HeadLength(major, val); }
    SeedLength(s.seeds[0]);
    assert Snap.SeedsBytes(s.seeds) == Snap.SeedBytes(s.seeds[0]) + Snap.SeedsBytes(s.seeds[1..]);
  }

  lemma {:induction false} FieldsLength(s: Snap.Snapshot, key: nat)
    requires 1 <= key <= 15 && Snap.WellFormed(s) && s == OneEndpoint().snapshot
    ensures |Snap.FieldsFrom(s, key)| <= 300 * (15 - key)
    decreases 15 - key
  {
    if key < 15 {
      hide Head, Snap.Payload, Snap.WellFormed;
      PayloadLength(s, key);
      HeadLength(0, key);
      FieldsLength(s, key + 1);
    }
  }

  /** A concrete case: this response is well-formed, and does not decode. */
  lemma OneEndpointFails()
    ensures WellFormed(OneEndpoint()) && Decode(Encode(OneEndpoint())).Err?
  {
    hide Decode, Encode, Head, Snap.FieldsFrom, Snap.Payload;
    var r := OneEndpoint();
    assert Snap.WellFormed(r.snapshot);
    FieldsLength(r.snapshot, 1);
    HeadLength(5, 14);
    HandlerResponseUndecodable(r, [[104]]);
  }

  // ---------- the procedures

  method EncodeResponse(r: Response) returns (bytes: Bytes)
    requires WellFormed(r)
    ensures bytes == Encode(r)
  {
    hide Head, Snap.Encode, Snap.WellFormed;
    var enc := new Encoder();
    enc.EncodeMap(3);
    enc.EncodeUint(1);
    enc.EncodeUint(r.version);
    Regroup(Head(5, 3), UintItem(1), UintItem(r.version));
    ghost var b1 := enc.buf;
    enc.EncodeUint(2);
    enc.EncodeBytes(r.nonce);
    Regroup(b1, UintItem(2), BytesItem(r.nonce));
    ghost var b2 := enc.buf;
    enc.EncodeUint(3);
    var snap := Codec.EncodeSnapshot(r.snapshot);
    enc.EncodeBytes(snap);
    Regroup(b2, UintItem(3), BytesItem(snap));
    bytes := enc.buf;
  }

  method DecodeField(dec: Decoder, key: nat, r: Response) returns (res: Result<Response>)
    requires dec.Valid()
    modifies dec
    ensures dec.Valid() && Step(res, dec.pos) == FieldAt(dec.data, old(dec.pos), key, r)
  {
    hide TypedAt, BlobAt, SkipAt, Snap.Decode;
    match key
    case 1 =>
      var v := dec.DecodeUint();
      return if v.Err? then Err(v.code) else Ok(r.(version := v.value % 256));
    case 2 =>
      var v := dec.DecodeBytes();
      return if v.Err? then Err(v.code) else Ok(if |v.value| == 8 then r.(nonce := v.value) else r);
    case 3 =>
      var v := dec.DecodeBytes();
      if v.Err? {
        return Err(v.code);
      }
      var snap := Codec.DecodeSnapshot(v.value);
      return if snap.Err? then Err(snap.code) else Ok(r.(snapshot := snap.value));
    case _ =>
      var v := dec.Skip();
      return if v.Err? then Err(v.code) else Ok(r);
  }

  method DecodeResponse(data: Bytes) returns (res: Result<Response>)
    ensures res == Decode(data)
  {
    hide TypedAt, FieldAt;
    var dec := new Decoder(data);
    var n := dec.DecodeMapSize();
    if n.Err? {
      return Err(n.code);
    }
    var resp := NEW_RESPONSE;
    ghost var all := FieldsAt(data, dec.pos, n.value, resp);
    for i := 0 to n.value
      invariant dec.Valid() && dec.data == data
      invariant FieldsAt(data, dec.pos, n.value - i, resp) == all
    {
      var key := dec.DecodeUint();
      if key.Err? {
        return Err(key.code);
      }
      var f := DecodeField(dec, key.value, resp);
      if f.Err? {
        return f;
      }
      resp := f.value;
    }
    return Ok(resp);
  }
}
