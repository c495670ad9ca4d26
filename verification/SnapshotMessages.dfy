/**
 Snapshot messages as lists of entries: any keys in any order, repeated or unknown, with nested maps that are
 such lists themselves. What a message means is read off its entries field by field.
 */
module SnapshotMessages {
  import opened Results
  import opened ByteStrings
  import opened Cbor
  import opened S = BootstrapSnapshots
  import CV = ContextValues

  // ---------- the last entry that says something, and all that entries contribute

  function Or<T>(o: Option<T>, d: T): T { if o.Some? then o.value else d }

  function LastOr<E, T>(es: seq<E>, f: E -> Option<T>, d: T): T
    decreases |es|
  {
    if es == [] then d else LastOr(es[1..], f, Or(f(es[0]), d))
  }

  function Gather<E, T>(es: seq<E>, f: E -> seq<T>): seq<T> {
    if es == [] then [] else f(es[0]) + Gather(es[1..], f)
  }


  // ---------- authorities

  datatype AuthorityEntry = NodeId(s: Bytes) | Endpoint(s: Bytes) | OtherA(key: nat, value: CV.Value)

  ghost predicate EncodableA(e: AuthorityEntry) {
    match e
    case NodeId(s) => |s| < MAX64
    case Endpoint(s) => |s| < MAX64
    case OtherA(k, v) => (k == 0 || 2 < k < MAX64) && CV.WellFormed(v)
  }

  function EntryA(e: AuthorityEntry): Bytes {
    match e
    case NodeId(s) => Head(0, 1) + StringItem(s)
    case Endpoint(s) => Head(0, 2) + StringItem(s)
    case OtherA(k, v) => Head(0, k) + CV.Encode(v)
  }

  function EntriesA(es: seq<AuthorityEntry>): Bytes { if es == [] then [] else EntryA(es[0]) + EntriesA(es[1..]) }

  function MapA(es: seq<AuthorityEntry>): Bytes { Head(5, |es|) + EntriesA(es) }

  function NodeIdOf(e: AuthorityEntry): Option<Bytes> { if e.NodeId? then Some(e.s) else None }
  function EndpointOf(e: AuthorityEntry): Option<Bytes> { if e.Endpoint? then Some(e.s) else None }

  function AuthorityFrom(es: seq<AuthorityEntry>, a: Authority): Authority {
    Authority(LastOr(es, NodeIdOf, a.nodeId), LastOr(es, EndpointOf, a.endpoint))
  }

  function SetA(e: AuthorityEntry, a: Authority): Authority {
    Authority(Or(NodeIdOf(e), a.nodeId), Or(EndpointOf(e), a.endpoint))
  }

  lemma StepA(data: Bytes, pos: nat, e: AuthorityEntry, n: nat, a: Authority)
    requires EncodableA(e) && At(data, pos, EntryA(e)) && n > 0
    ensures AuthorityFieldsAt(data, pos, n, a) == AuthorityFieldsAt(data, pos + |EntryA(e)|, n - 1, SetA(e, a))
  {
    hide Head, TypedAt, BlobAt, At, SkipAt, CV.WellFormed, CV.Encode;
    match e
    case NodeId(s) =>
      AtSplit(data, pos, Head(0, 1), StringItem(s));
      TypedRoundTrip(data, pos, 0, 1, 702);
      BlobRoundTrip(data, pos + |Head(0, 1)|, 3, s, 705);
    case Endpoint(s) =>
      AtSplit(data, pos, Head(0, 2), StringItem(s));
      TypedRoundTrip(data, pos, 0, 2, 702);
      BlobRoundTrip(data, pos + |Head(0, 2)|, 3, s, 705);
    case OtherA(k, v) =>
      AtSplit(data, pos, Head(0, k), CV.Encode(v));
      TypedRoundTrip(data, pos, 0, k, 702);
      CV.SkipExact(data, pos + |Head(0, k)|, v);
  }

  lemma {:induction false} RunA(data: Bytes, pos: nat, es: seq<AuthorityEntry>, n: nat, a: Authority)
    requires (forall e :: e in es ==> EncodableA(e)) && At(data, pos, EntriesA(es)) && |es| <= n
    ensures AuthorityFieldsAt(data, pos, n, a)
         == AuthorityFieldsAt(data, pos + |EntriesA(es)|, n - |es|, AuthorityFrom(es, a))
    decreases |es|
  {
    hide At, EntryA, EncodableA, AuthorityFieldsAt;
    if es != [] {
      AtSplit(data, pos, EntryA(es[0]), EntriesA(es[1..]));
      StepA(data, pos, es[0], n, a);
      RunA(data, pos + |EntryA(es[0])|, es[1..], n - 1, SetA(es[0], a));
    }
  }

  /** A map of authority entries: the last node id and the last endpoint count, other keys do not. */
  lemma AuthorityMap(data: Bytes, pos: nat, es: seq<AuthorityEntry>)
    requires |es| < MAX64 && (forall e :: e in es ==> EncodableA(e)) && At(data, pos, MapA(es))
    ensures AuthorityAt(data, pos)
         == Step(Ok(Authority(LastOr(es, NodeIdOf, []), LastOr(es, EndpointOf, []))), pos + |MapA(es)|)
  {
    hide Head, TypedAt, At, EntriesA, AuthorityFieldsAt, EncodableA, LastOr;
    AtSplit(data, pos, Head(5, |es|), EntriesA(es));
    TypedRoundTrip(data, pos, 5, |es|, 707);
    RunA(data, pos + |Head(5, |es|)|, es, |es|, Authority([], []));
    AuthorityEnd(data, pos + |MapA(es)|, AuthorityFrom(es, Authority([], [])));
  }

  // ---------- health

  datatype HealthEntry = Level(s: Bytes) | Operational(n: nat) | OtherH(key: nat, value: CV.Value)

  ghost predicate EncodableH(e: HealthEntry) {
    match e
    case Level(s) => |s| < MAX64
    case Operational(n) => n < MAX64
    case OtherH(k, v) => (k == 0 || 2 < k < MAX64) && CV.WellFormed(v)
  }

  function EntryH(e: HealthEntry): Bytes {
    match e
    case Level(s) => Head(0, 1) + StringItem(s)
    case Operational(n) => Head(0, 2) + Head(0, n)
    case OtherH(k, v) => Head(0, k) + CV.Encode(v)
  }

  function EntriesH(es: seq<HealthEntry>): Bytes { if es == [] then [] else EntryH(es[0]) + EntriesH(es[1..]) }

  function MapH(es: seq<HealthEntry>): Bytes { Head(5, |es|) + EntriesH(es) }

  function LevelOf(e: HealthEntry): Option<Bytes> { if e.Level? then Some(e.s) else None }
  function OperationalOf(e: HealthEntry): Option<bool> { if e.Operational? then Some(e.n != 0) else None }

  function HealthFrom(es: seq<HealthEntry>, h: Health): Health {
    Health(LastOr(es, LevelOf, h.level), LastOr(es, OperationalOf, h.operational))
  }

  function SetH(e: HealthEntry, h: Health): Health {
    Health(Or(LevelOf(e), h.level), Or(OperationalOf(e), h.operational))
  }

  lemma StepH(data: Bytes, pos: nat, e: HealthEntry, n: nat, h: Health)
    requires EncodableH(e) && At(data, pos, EntryH(e)) && n > 0
    ensures HealthFieldsAt(data, pos, n, h) == HealthFieldsAt(data, pos + |EntryH(e)|, n - 1, SetH(e, h))
  {
    hide Head, TypedAt, BlobAt, At, SkipAt, CV.WellFormed, CV.Encode;
    match e
    case Level(s) =>
      AtSplit(data, pos, Head(0, 1), StringItem(s));
      TypedRoundTrip(data, pos, 0, 1, 702);
      BlobRoundTrip(data, pos + |Head(0, 1)|, 3, s, 705);
    case Operational(v) =>
      AtSplit(data, pos, Head(0, 2), Head(0, v));
      TypedRoundTrip(data, pos, 0, 2, 702);
      TypedRoundTrip(data, pos + |Head(0, 2)|, 0, v, 702);
    case OtherH(k, v) =>
      AtSplit(data, pos, Head(0, k), CV.Encode(v));
      TypedRoundTrip(data, pos, 0, k, 702);
      CV.SkipExact(data, pos + |Head(0, k)|, v);
  }

  lemma {:induction false} RunH(data: Bytes, pos: nat, es: seq<HealthEntry>, n: nat, h: Health)
    requires (forall e :: e in es ==> EncodableH(e)) && At(data, pos, EntriesH(es)) && |es| <= n
    ensures HealthFieldsAt(data, pos, n, h)
         == HealthFieldsAt(data, pos + |EntriesH(es)|, n - |es|, HealthFrom(es, h))
    decreases |es|
  {
    hide At, EntryH, EncodableH, HealthFieldsAt;
    if es != [] {
      AtSplit(data, pos, EntryH(es[0]), EntriesH(es[1..]));
      StepH(data, pos, es[0], n, h);
      RunH(data, pos + |EntryH(es[0])|, es[1..], n - 1, SetH(es[0], h));
    }
  }

  /** A map of health entries: any nonzero number means operational. */
  lemma HealthMap(data: Bytes, pos: nat, es: seq<HealthEntry>)
    requires |es| < MAX64 && (forall e :: e in es ==> EncodableH(e)) && At(data, pos, MapH(es))
    ensures HealthAt(data, pos)
         == Step(Ok(Health(LastOr(es, LevelOf, []), LastOr(es, OperationalOf, false))), pos + |MapH(es)|)
  {
    hide Head, TypedAt, At, EntriesH, HealthFieldsAt, EncodableH, LastOr;
    AtSplit(data, pos, Head(5, |es|), EntriesH(es));
    TypedRoundTrip(data, pos, 5, |es|, 707);
    RunH(data, pos + |Head(5, |es|)|, es, |es|, Health([], false));
    HealthEnd(data, pos + |MapH(es)|, HealthFrom(es, Health([], false)));
  }

  // ---------- seeds

  /** Mistyped is a known key with a number of the wrong kind, which the decoder drops. */
  datatype SeedEntry =
    | SeedEndpoint(s: Bytes)
    | Region(s: Bytes)
    | Weight(n: nat)
    | Score(n: nat)
    | OtherS(key: nat, value: CV.Value)
    | Mistyped(key: nat, n: nat)

  ghost predicate EncodableS(e: SeedEntry) {
    match e
    case SeedEndpoint(s) => |s| < MAX64
    case Region(s) => |s| < MAX64
    case Weight(n) => n < MAX64
    case Score(n) => n < MAX64
    case OtherS(k, v) => (k == 0 || 4 < k < MAX64) && CV.WellFormed(v)
    case Mistyped(k, n) => 1 <= k <= 4 && n < MAX64
  }

  function KeyS(e: SeedEntry): nat {
    match e
    case SeedEndpoint(_) => 1
    case Region(_) => 2
    case Weight(_) => 3
    case Score(_) => 4
    case OtherS(k, _) => k
    case Mistyped(k, _) => k
  }

  function PayloadS(e: SeedEntry): Bytes {
    match e
    case SeedEndpoint(s) => StringItem(s)
    case Region(s) => StringItem(s)
    case Weight(n) => Head(0, n)
    case Score(n) => Head(0, n)
    case OtherS(_, v) => CV.Encode(v)
    case Mistyped(_, n) => Head(1, n)
  }

  function EntryS(e: SeedEntry): Bytes { Head(0, KeyS(e)) + PayloadS(e) }

  function EntriesS(es: seq<SeedEntry>): Bytes { if es == [] then [] else EntryS(es[0]) + EntriesS(es[1..]) }

  function MapS(es: seq<SeedEntry>): Bytes { Head(5, |es|) + EntriesS(es) }

  function SeedEndpointOf(e: SeedEntry): Option<Bytes> { if e.SeedEndpoint? then Some(e.s) else None }
  function RegionOf(e: SeedEntry): Option<Bytes> { if e.Region? then Some(e.s) else None }
  function WeightOf(e: SeedEntry): Option<nat> { if e.Weight? then Some(e.n % 0x1_0000_0000) else None }
  function ScoreOf(e: SeedEntry): Option<nat> { if e.Score? then Some(e.n) else None }

  function SeedFrom(es: seq<SeedEntry>, d: Seed): Seed {
    Seed(LastOr(es, SeedEndpointOf, d.endpoint), LastOr(es, RegionOf, d.region),
         LastOr(es, WeightOf, d.weight), LastOr(es, ScoreOf, d.healthScore))
  }

  lemma SeedFieldsCons(data: Bytes, pos: nat, key: nat, payload: Bytes, n: nat, d: Seed)
    requires key < MAX64 && n > 0 && At(data, pos, Head(0, key) + payload)
    ensures At(data, pos + |Head(0, key)|, payload)
    ensures var f := SeedFieldAt(data, pos + |Head(0, key)|, key, d);
      SeedFieldsAt(data, pos, n, d) == SeedFieldsAt(data, f.pos, n - 1, f.value)
  {
    hide Head, TypedAt, At, SeedFieldAt;
    AtSplit(data, pos, Head(0, key), payload);
    TypedRoundTrip(data, pos, 0, key, 702);
  }

  function SetS(e: SeedEntry, d: Seed): Seed {
    Seed(Or(SeedEndpointOf(e), d.endpoint), Or(RegionOf(e), d.region), Or(WeightOf(e), d.weight),
         Or(ScoreOf(e), d.healthScore))
  }

  lemma ValueS(data: Bytes, pos: nat, e: SeedEntry, d: Seed)
    requires EncodableS(e) && At(data, pos, PayloadS(e))
    ensures SeedFieldAt(data, pos, KeyS(e), d) == Stop(SetS(e, d), pos + |PayloadS(e)|)
  {
    hide Head, TypedAt, At, SkipAt, CV.WellFormed, CV.Encode;
    match e
    case SeedEndpoint(s) => BlobRoundTrip(data, pos, 3, s, 705);
    case Region(s) => BlobRoundTrip(data, pos, 3, s, 705);
    case Weight(v) => TypedRoundTrip(data, pos, 0, v, 702);
    case Score(v) => TypedRoundTrip(data, pos, 0, v, 702);
    case OtherS(k, v) => CV.SkipExact(data, pos, v);
    case Mistyped(k, v) =>
      WrongType(data, pos, 1, v, 3, 705);
      WrongType(data, pos, 1, v, 0, 702);
  }

  lemma StepS(data: Bytes, pos: nat, e: SeedEntry, n: nat, d: Seed)
    requires EncodableS(e) && At(data, pos, EntryS(e)) && n > 0
    ensures SeedFieldsAt(data, pos, n, d) == SeedFieldsAt(data, pos + |EntryS(e)|, n - 1, SetS(e, d))
  {
    hide Head, At, SeedFieldAt, SeedFieldsAt, PayloadS, SetS;
    assert KeyS(e) < MAX64;
    SeedFieldsCons(data, pos, KeyS(e), PayloadS(e), n, d);
    ValueS(data, pos + |Head(0, KeyS(e))|, e, d);
  }

  lemma {:induction false} RunS(data: Bytes, pos: nat, es: seq<SeedEntry>, n: nat, d: Seed)
    requires (forall e :: e in es ==> EncodableS(e)) && At(data, pos, EntriesS(es)) && |es| <= n
    ensures SeedFieldsAt(data, pos, n, d) == SeedFieldsAt(data, pos + |EntriesS(es)|, n - |es|, SeedFrom(es, d))
    decreases |es|
  {
    hide At, EntryS, EncodableS, SeedFieldsAt;
    if es != [] {
      AtSplit(data, pos, EntryS(es[0]), EntriesS(es[1..]));
      StepS(data, pos, es[0], n, d);
      RunS(data, pos + |EntryS(es[0])|, es[1..], n - 1, SetS(es[0], d));
    }
  }

  lemma SeedMap(data: Bytes, pos: nat, es: seq<SeedEntry>)
    requires |es| < MAX64 && (forall e :: e in es ==> EncodableS(e)) && At(data, pos, MapS(es))
    ensures MapSizeAt(data, pos) == Step(Ok(|es|), pos + |Head(5, |es|)|)
    ensures SeedFieldsAt(data, pos + |Head(5, |es|)|, |es|, NEW_SEED) == Stop(SeedFrom(es, NEW_SEED), pos + |MapS(es)|)
  {
    hide Head, TypedAt, At, EntriesS, SeedFieldsAt, EncodableS, LastOr;
    AtSplit(data, pos, Head(5, |es|), EntriesS(es));
    TypedRoundTrip(data, pos, 5, |es|, 707);
    RunS(data, pos + |Head(5, |es|)|, es, |es|, NEW_SEED);
    SeedFieldsDone(data, pos + |MapS(es)|, SeedFrom(es, NEW_SEED));
  }

  lemma SeedFieldsDone(data: Bytes, pos: nat, d: Seed)
    requires pos <= |data|
    ensures SeedFieldsAt(data, pos, 0, d) == Stop(d, pos)
  {}

  // ---------- lists

  ghost predicate EncodableMapA(es: seq<AuthorityEntry>) { |es| < MAX64 && forall e :: e in es ==> EncodableA(e) }

  ghost predicate EncodableMapS(es: seq<SeedEntry>) { |es| < MAX64 && forall e :: e in es ==> EncodableS(e) }

  function ListA(ms: seq<seq<AuthorityEntry>>): Bytes { if ms == [] then [] else MapA(ms[0]) + ListA(ms[1..]) }

  function ListS(ms: seq<seq<SeedEntry>>): Bytes { if ms == [] then [] else MapS(ms[0]) + ListS(ms[1..]) }

  function ListO(ns: seq<nat>): Bytes { if ns == [] then [] else Head(0, ns[0]) + ListO(ns[1..]) }

  /** The authority each map describes: its last node id and endpoint, both empty by default. */
  function AuthoritiesIn(ms: seq<seq<AuthorityEntry>>): seq<Authority> {
    seq(|ms|, i requires 0 <= i < |ms| => Authority(LastOr(ms[i], NodeIdOf, []), LastOr(ms[i], EndpointOf, [])))
  }

  /** The seed each map describes; without an entry the weight is 100 and the score the bits of 1.0. */
  function SeedsIn(ms: seq<seq<SeedEntry>>): seq<Seed> {
    seq(|ms|, i requires 0 <= i < |ms| =>
      Seed(LastOr(ms[i], SeedEndpointOf, []), LastOr(ms[i], RegionOf, []), LastOr(ms[i], WeightOf, 100),
           LastOr(ms[i], ScoreOf, 0x3FF0_0000_0000_0000)))
  }

  function OpcodesIn(ns: seq<nat>): seq<nat> { seq(|ns|, i requires 0 <= i < |ns| => ns[i] % 256) }

  lemma {:induction false} AuthorityList(data: Bytes, pos: nat, ms: seq<seq<AuthorityEntry>>, acc: seq<Authority>)
    requires (forall i :: 0 <= i < |ms| ==> EncodableMapA(ms[i])) && At(data, pos, ListA(ms))
    ensures AuthoritiesAt(data, pos, |ms|, acc) == Step(Ok(acc + AuthoritiesIn(ms)), pos + |ListA(ms)|)
    decreases |ms|
  {
    hide At, MapA, AuthorityAt, LastOr;
    if ms == [] {
      assert acc + AuthoritiesIn(ms) == acc;
    } else {
      AtSplit(data, pos, MapA(ms[0]), ListA(ms[1..]));
      assert EncodableMapA(ms[0]);
      AuthorityMap(data, pos, ms[0]);
      var a := AuthorityAt(data, pos).res.value;
      AuthorityList(data, pos + |MapA(ms[0])|, ms[1..], acc + [a]);
      assert acc + [a] + AuthoritiesIn(ms[1..]) == acc + AuthoritiesIn(ms);
    }
  }

  lemma {:induction false} SeedList(data: Bytes, pos: nat, ms: seq<seq<SeedEntry>>, acc: seq<Seed>)
    requires (forall i :: 0 <= i < |ms| ==> EncodableMapS(ms[i])) && At(data, pos, ListS(ms))
    ensures SeedsAt(data, pos, |ms|, acc) == Stop(acc + SeedsIn(ms), pos + |ListS(ms)|)
    decreases |ms|
  {
    hide At, MapS, SeedFieldsAt, LastOr, TypedAt, Head;
    if ms == [] {
      assert acc + SeedsIn(ms) == acc;
    } else {
      AtSplit(data, pos, MapS(ms[0]), ListS(ms[1..]));
      assert EncodableMapS(ms[0]);
      SeedMap(data, pos, ms[0]);
      var d := SeedFrom(ms[0], NEW_SEED);
      SeedList(data, pos + |MapS(ms[0])|, ms[1..], acc + [d]);
      assert acc + [d] + SeedsIn(ms[1..]) == acc + SeedsIn(ms);
    }
  }

  lemma {:induction false} OpcodeList(data: Bytes, pos: nat, ns: seq<nat>, acc: seq<nat>)
    requires (forall i :: 0 <= i < |ns| ==> ns[i] < MAX64) && At(data, pos, ListO(ns))
    ensures OpcodesAt(data, pos, |ns|, acc) == Step(Ok(acc + OpcodesIn(ns)), pos + |ListO(ns)|)
    decreases |ns|
  {
    hide Head, TypedAt, At;
    if ns == [] {
      assert acc + OpcodesIn(ns) == acc;
    } else {
      AtSplit(data, pos, Head(0, ns[0]), ListO(ns[1..]));
      TypedRoundTrip(data, pos, 0, ns[0], 702);
      OpcodeList(data, pos + |Head(0, ns[0])|, ns[1..], acc + [ns[0] % 256]);
      assert acc + [ns[0] % 256] + OpcodesIn(ns[1..]) == acc + OpcodesIn(ns);
    }
  }

  // ---------- the message

  datatype Entry =
    | MeshId(s: Bytes)
    | MeshState(s: Bytes)
    | Epoch(n: nat)
    | Genesis(s: Bytes)
    | Authorities(authorities: seq<seq<AuthorityEntry>>)
    | Seeds(seeds: seq<seq<SeedEntry>>)
    | PolicyVersion(n: nat)
    | GovernanceVersion(n: nat)
    | CrlDigest(s: Bytes)
    | CrlCount(n: nat)
    | HealthInfo(health: seq<HealthEntry>)
    | CipherSuite(n: nat)
    | Opcodes(opcodes: seq<nat>)
    | ActiveProposals(n: nat)
    | Other(key: nat, value: CV.Value)

  ghost predicate Encodable(e: Entry) {
    match e
    case MeshId(s) => |s| < MAX64
    case MeshState(s) => |s| < MAX64
    case Epoch(n) => n < MAX64
    case Genesis(s) => |s| < MAX64
    case Authorities(ms) => |ms| < MAX64 && forall i :: 0 <= i < |ms| ==> EncodableMapA(ms[i])
    case Seeds(ms) => |ms| < MAX64 && forall i :: 0 <= i < |ms| ==> EncodableMapS(ms[i])
    case PolicyVersion(n) => n < MAX64
    case GovernanceVersion(n) => n < MAX64
    case CrlDigest(s) => |s| < MAX64
    case CrlCount(n) => n < MAX64
    case HealthInfo(es) => |es| < MAX64 && forall h :: h in es ==> EncodableH(h)
    case CipherSuite(n) => n < MAX64
    case Opcodes(ns) => |ns| < MAX64 && forall i :: 0 <= i < |ns| ==> ns[i] < MAX64
    case ActiveProposals(n) => n < MAX64
    case Other(k, v) => (k == 0 || 14 < k < MAX64) && CV.WellFormed(v)
  }

  function KeyOf(e: Entry): nat {
    match e
    case MeshId(_) => 1
    case MeshState(_) => 2
    case Epoch(_) => 3
    case Genesis(_) => 4
    case Authorities(_) => 5
    case Seeds(_) => 6
    case PolicyVersion(_) => 7
    case GovernanceVersion(_) => 8
    case CrlDigest(_) => 9
    case CrlCount(_) => 10
    case HealthInfo(_) => 11
    case CipherSuite(_) => 12
    case Opcodes(_) => 13
    case ActiveProposals(_) => 14
    case Other(k, _) => k
  }

  function Item(e: Entry): Bytes {
    match e
    case MeshId(s) => Head(3, |s|) + s
    case MeshState(s) => Head(3, |s|) + s
    case Genesis(s) => Head(2, |s|) + s
    case CrlDigest(s) => Head(2, |s|) + s
    case Authorities(ms) => Head(4, |ms|) + ListA(ms)
    case Seeds(ms) => Head(4, |ms|) + ListS(ms)
    case HealthInfo(es) => MapH(es)
    case Opcodes(ns) => Head(4, |ns|) + ListO(ns)
    case Other(_, v) => CV.Encode(v)
    case Epoch(n) => Head(0, n)
    case PolicyVersion(n) => Head(0, n)
    case GovernanceVersion(n) => Head(0, n)
    case CrlCount(n) => Head(0, n)
    case CipherSuite(n) => Head(0, n)
    case ActiveProposals(n) => Head(0, n)
  }

  function Entries(es: seq<Entry>): Bytes {
    if es == [] then [] else Head(0, KeyOf(es[0])) + Item(es[0]) + Entries(es[1..])
  }

  function Message(es: seq<Entry>): Bytes { Head(5, |es|) + Entries(es) }

  // What an entry says about each field; the casts of the C++ field types are written out.

  function Signed(n: nat): int { if n < 0x8000_0000_0000_0000 then n else n - 0x1_0000_0000_0000_0000 }

  function MeshIdOf(e: Entry): Option<Bytes> { if e.MeshId? then Some(e.s) else None }
  function MeshStateOf(e: Entry): Option<Bytes> { if e.MeshState? then Some(e.s) else None }
  function EpochOf(e: Entry): Option<int> { if e.Epoch? then Some(Signed(e.n)) else None }
  function GenesisOf(e: Entry): Option<Bytes> { if e.Genesis? then Some(e.s) else None }
  function AuthoritiesOf(e: Entry): seq<Authority> { if e.Authorities? then AuthoritiesIn(e.authorities) else [] }
  function SeedsOf(e: Entry): seq<Seed> { if e.Seeds? then SeedsIn(e.seeds) else [] }
  function PolicyOf(e: Entry): Option<int> { if e.PolicyVersion? then Some(Signed(e.n)) else None }
  function GovernanceOf(e: Entry): Option<int> { if e.GovernanceVersion? then Some(Signed(e.n)) else None }
  function DigestOf(e: Entry): Option<Bytes> { if e.CrlDigest? && |e.s| == 32 then Some(e.s) else None }
  function CrlCountOf(e: Entry): Option<nat> { if e.CrlCount? then Some(e.n % 0x1_0000_0000) else None }
  function HealthOf(e: Entry): Option<Health> {
    if e.HealthInfo? then Some(Health(LastOr(e.health, LevelOf, []), LastOr(e.health, OperationalOf, false))) else None
  }
  function CipherOf(e: Entry): Option<nat> { if e.CipherSuite? then Some(e.n % 256) else None }
  function OpcodesOf(e: Entry): seq<nat> { if e.Opcodes? then OpcodesIn(e.opcodes) else [] }
  function ProposalsOf(e: Entry): Option<nat> { if e.ActiveProposals? then Some(e.n % 0x1_0000_0000) else None }

  /** The snapshot under construction after one more entry. */
  function Set(e: Entry, s: Snapshot): Snapshot {
    Snapshot(s.schemaVersion, Or(MeshIdOf(e), s.meshId), Or(MeshStateOf(e), s.meshState), Or(EpochOf(e), s.epoch),
             Or(GenesisOf(e), s.genesisManifest), s.authorities + AuthoritiesOf(e), s.seeds + SeedsOf(e),
             Or(PolicyOf(e), s.policyVersion), Or(GovernanceOf(e), s.governanceVersion), Or(DigestOf(e), s.crlDigest),
             Or(CrlCountOf(e), s.crlCount), Or(HealthOf(e), s.health), Or(CipherOf(e), s.cipherSuite),
             s.opcodes + OpcodesOf(e), Or(ProposalsOf(e), s.activeProposals))
  }

  function SetAll(es: seq<Entry>, s: Snapshot): Snapshot
    decreases |es|
  {
    if es == [] then s else SetAll(es[1..], Set(es[0], s))
  }

  lemma TextStep(data: Bytes, pos: nat, e: Entry, s: Snapshot)
    requires Encodable(e) && At(data, pos, Item(e))
    requires e.MeshId? || e.MeshState? || e.Genesis? || e.CrlDigest?
    ensures FieldAt(data, pos, KeyOf(e), s) == Step(Ok(Set(e, s)), pos + |Item(e)|)
  {
    hide Head, TypedAt, BlobAt, At, SkipAt, AuthoritiesAt, SeedsAt, HealthAt, OpcodesAt;
    assert s.authorities + [] == s.authorities && s.seeds + [] == s.seeds && s.opcodes + [] == s.opcodes;
    match e
    case MeshId(t) => BlobRoundTrip(data, pos, 3, t, 705);
    case MeshState(t) => BlobRoundTrip(data, pos, 3, t, 705);
    case Genesis(t) => BlobRoundTrip(data, pos, 2, t, 704);
    case CrlDigest(t) => BlobRoundTrip(data, pos, 2, t, 704);
  }

  predicate IsNumber(e: Entry) {
    e.Epoch? || e.PolicyVersion? || e.GovernanceVersion? || e.CrlCount? || e.CipherSuite? || e.ActiveProposals?
  }

  lemma NumberStep(data: Bytes, pos: nat, e: Entry, s: Snapshot)
    requires Encodable(e) && At(data, pos, Item(e)) && IsNumber(e)
    ensures FieldAt(data, pos, KeyOf(e), s) == Step(Ok(Set(e, s)), pos + |Item(e)|)
  {
    hide Head, TypedAt, BlobAt, At, SkipAt, AuthoritiesAt, SeedsAt, HealthAt, OpcodesAt;
    assert s.authorities + [] == s.authorities && s.seeds + [] == s.seeds && s.opcodes + [] == s.opcodes;
    TypedRoundTrip(data, pos, 0, e.n, 702);
  }

  lemma ListStep(data: Bytes, pos: nat, e: Entry, s: Snapshot)
    requires Encodable(e) && At(data, pos, Item(e)) && (e.Authorities? || e.Seeds? || e.Opcodes?)
    ensures FieldAt(data, pos, KeyOf(e), s) == Step(Ok(Set(e, s)), pos + |Item(e)|)
  {
    hide Head, TypedAt, BlobAt, At, SkipAt, AuthoritiesAt, SeedsAt, HealthAt, OpcodesAt;
    hide ListA, ListS, ListO, AuthoritiesIn, SeedsIn, OpcodesIn;
    assert s.authorities + [] == s.authorities && s.seeds + [] == s.seeds && s.opcodes + [] == s.opcodes;
    match e
    case Authorities(ms) =>
      AtSplit(data, pos, Head(4, |ms|), ListA(ms));
      TypedRoundTrip(data, pos, 4, |ms|, 706);
      AuthorityList(data, pos + |Head(4, |ms|)|, ms, s.authorities);
    case Seeds(ms) =>
      AtSplit(data, pos, Head(4, |ms|), ListS(ms));
      TypedRoundTrip(data, pos, 4, |ms|, 706);
      SeedList(data, pos + |Head(4, |ms|)|, ms, s.seeds);
    case Opcodes(ns) =>
      AtSplit(data, pos, Head(4, |ns|), ListO(ns));
      TypedRoundTrip(data, pos, 4, |ns|, 706);
      OpcodeList(data, pos + |Head(4, |ns|)|, ns, s.opcodes);
  }

  lemma MapStep(data: Bytes, pos: nat, e: Entry, s: Snapshot)
    requires Encodable(e) && At(data, pos, Item(e)) && (e.HealthInfo? || e.Other?)
    ensures FieldAt(data, pos, KeyOf(e), s) == Step(Ok(Set(e, s)), pos + |Item(e)|)
  {
    hide TypedAt, BlobAt, At, SkipAt, AuthoritiesAt, SeedsAt, HealthAt, OpcodesAt, MapH, LastOr, CV.Encode, CV.WellFormed;
    assert s.authorities + [] == s.authorities && s.seeds + [] == s.seeds && s.opcodes + [] == s.opcodes;
    match e
    case HealthInfo(es) => HealthMap(data, pos, es);
    case Other(k, v) => CV.SkipExact(data, pos, v);
  }

  lemma EntryStep(data: Bytes, pos: nat, e: Entry, s: Snapshot)
    requires Encodable(e) && At(data, pos, Item(e))
    ensures FieldAt(data, pos, KeyOf(e), s) == Step(Ok(Set(e, s)), pos + |Item(e)|)
  {
    hide Encodable, Item, FieldAt, Set, At, KeyOf;
    if e.MeshId? || e.MeshState? || e.Genesis? || e.CrlDigest? {
      TextStep(data, pos, e, s);
    } else if IsNumber(e) {
      NumberStep(data, pos, e, s);
    } else if e.HealthInfo? || e.Other? {
      MapStep(data, pos, e, s);
    } else {
      ListStep(data, pos, e, s);
    }
  }

  lemma KeyBound(e: Entry)
    requires Encodable(e)
    ensures KeyOf(e) < MAX64
  {}

  lemma {:induction false} EntriesRun(data: Bytes, pos: nat, es: seq<Entry>, n: nat, s: Snapshot)
    requires (forall e :: e in es ==> Encodable(e)) && At(data, pos, Entries(es)) && |es| <= n
    ensures FieldsAt(data, pos, n, s) == FieldsAt(data, pos + |Entries(es)|, n - |es|, SetAll(es, s))
    decreases |es|
  {
    hide Head, TypedAt, At, Encodable, Item, FieldAt, Set, FieldsAt, KeyOf;
    if es != [] {
      var e := es[0];
      var key := Head(0, KeyOf(e));
      AtSplit(data, pos, key + Item(e), Entries(es[1..]));
      AtSplit(data, pos, key, Item(e));
      KeyBound(e);
      TypedRoundTrip(data, pos, 0, KeyOf(e), 702);
      EntryStep(data, pos + |key|, e, s);
      FieldsCons(data, pos, n, s, KeyOf(e), pos + |key|);
      EntriesRun(data, pos + |key + Item(e)|, es[1..], n - 1, Set(e, s));
    }
  }

  lemma {:induction false} AllSet(es: seq<Entry>, s: Snapshot)
    ensures var r := SetAll(es, s);
      && r.schemaVersion == s.schemaVersion
      && r.meshId == LastOr(es, MeshIdOf, s.meshId) && r.meshState == LastOr(es, MeshStateOf, s.meshState)
      && r.epoch == LastOr(es, EpochOf, s.epoch) && r.genesisManifest == LastOr(es, GenesisOf, s.genesisManifest)
      && r.policyVersion == LastOr(es, PolicyOf, s.policyVersion)
      && r.governanceVersion == LastOr(es, GovernanceOf, s.governanceVersion)
      && r.crlDigest == LastOr(es, DigestOf, s.crlDigest) && r.crlCount == LastOr(es, CrlCountOf, s.crlCount)
      && r.health == LastOr(es, HealthOf, s.health) && r.cipherSuite == LastOr(es, CipherOf, s.cipherSuite)
      && r.activeProposals == LastOr(es, ProposalsOf, s.activeProposals)
    decreases |es|
  {
    hide Or, MeshIdOf, MeshStateOf, EpochOf, GenesisOf, AuthoritiesOf, SeedsOf, PolicyOf, GovernanceOf, DigestOf;
    hide CrlCountOf, HealthOf, CipherOf, OpcodesOf, ProposalsOf;
    if es != [] { AllSet(es[1..], Set(es[0], s)); }
  }

  lemma {:induction false} AllGathered(es: seq<Entry>, s: Snapshot)
    ensures var r := SetAll(es, s);
      && r.authorities == s.authorities + Gather(es, AuthoritiesOf)
      && r.seeds == s.seeds + Gather(es, SeedsOf) && r.opcodes == s.opcodes + Gather(es, OpcodesOf)
    decreases |es|
  {
    hide Or, MeshIdOf, MeshStateOf, EpochOf, GenesisOf, AuthoritiesOf, SeedsOf, PolicyOf, GovernanceOf, DigestOf;
    hide CrlCountOf, HealthOf, CipherOf, OpcodesOf, ProposalsOf;
    if es != [] {
      AllGathered(es[1..], Set(es[0], s));
      var a, b, c := AuthoritiesOf(es[0]), SeedsOf(es[0]), OpcodesOf(es[0]);
      assert s.authorities + a + Gather(es[1..], AuthoritiesOf) == s.authorities + (a + Gather(es[1..], AuthoritiesOf));
      assert s.seeds + b + Gather(es[1..], SeedsOf) == s.seeds + (b + Gather(es[1..], SeedsOf));
      assert s.opcodes + c + Gather(es[1..], OpcodesOf) == s.opcodes + (c + Gather(es[1..], OpcodesOf));
    }
  }

  lemma DecodeAt(data: Bytes, es: seq<Entry>)
    requires |es| < MAX64 && (forall e :: e in es ==> Encodable(e)) && At(data, 0, Message(es))
    ensures var r := SetAll(es, NEW_SNAPSHOT);
      Decode(data) == if r.meshId == [] then Err(900) else Ok(r)
  {
    hide Head, TypedAt, FieldsAt, SetAll, Encodable, Entries, At;
    AtSplit(data, 0, Head(5, |es|), Entries(es));
    TypedRoundTrip(data, 0, 5, |es|, 707);
    EntriesRun(data, |Head(5, |es|)|, es, |es|, NEW_SNAPSHOT);
    FieldsDone(data, |Message(es)|, SetAll(es, NEW_SNAPSHOT));
  }

  lemma DecodeMessage(es: seq<Entry>, trailer: Bytes)
    requires |es| < MAX64 && forall e :: e in es ==> Encodable(e)
    ensures var r := SetAll(es, NEW_SNAPSHOT);
      Decode(Message(es) + trailer) == if r.meshId == [] then Err(900) else Ok(r)
  {
    hide Message, Decode, SetAll, Encodable;
    AtEmbed([], Message(es), trailer);
    assert [] + Message(es) + trailer == Message(es) + trailer;
    DecodeAt(Message(es) + trailer, es);
  }

  lemma FieldsDone(data: Bytes, pos: nat, s: Snapshot)
    requires pos <= |data|
    ensures FieldsAt(data, pos, 0, s) == Step(Ok(s), pos)
  {}

  /**
   What a message of any entries decodes to, field by field. The last entry of a field counts, lists add up
   over repeated entries, and without a mesh id the message is refused.
   */
  lemma MessageMeaning(es: seq<Entry>, trailer: Bytes)
    requires |es| < MAX64 && forall e :: e in es ==> Encodable(e)
    ensures LastOr(es, MeshIdOf, []) == [] ==> Decode(Message(es) + trailer) == Err(900)
    ensures LastOr(es, MeshIdOf, []) != [] ==>
      Decode(Message(es) + trailer).Ok? &&
      var s := Decode(Message(es) + trailer).value;
      && s.schemaVersion == 1 && s.meshId == LastOr(es, MeshIdOf, []) && s.meshState == LastOr(es, MeshStateOf, [])
      && s.epoch == LastOr(es, EpochOf, 1) && s.genesisManifest == LastOr(es, GenesisOf, [])
      && s.authorities == Gather(es, AuthoritiesOf) && s.seeds == Gather(es, SeedsOf)
      && s.policyVersion == LastOr(es, PolicyOf, 1) && s.governanceVersion == LastOr(es, GovernanceOf, 1)
      && s.crlDigest == LastOr(es, DigestOf, Zeros(32)) && s.crlCount == LastOr(es, CrlCountOf, 0)
      && s.health == LastOr(es, HealthOf, Health([], false)) && s.cipherSuite == LastOr(es, CipherOf, 3)
      && s.opcodes == Gather(es, OpcodesOf) && s.activeProposals == LastOr(es, ProposalsOf, 0)
  {
    hide Decode, Message, LastOr, Gather, SetAll, Encodable;
    DecodeMessage(es, trailer);
    AllSet(es, NEW_SNAPSHOT);
    AllGathered(es, NEW_SNAPSHOT);
    assert [] + Gather(es, AuthoritiesOf) == Gather(es, AuthoritiesOf);
    assert [] + Gather(es, SeedsOf) == Gather(es, SeedsOf) && [] + Gather(es, OpcodesOf) == Gather(es, OpcodesOf);
  }

  // ---------- unknown keys

  function KnownOnly(es: seq<Entry>): seq<Entry> {
    if es == [] then [] else (if es[0].Other? then [] else [es[0]]) + KnownOnly(es[1..])
  }

  lemma OtherSetsNothing(e: Entry, s: Snapshot)
    requires e.Other?
    ensures Set(e, s) == s
  {
    assert s.authorities + [] == s.authorities && s.seeds + [] == s.seeds && s.opcodes + [] == s.opcodes;
  }

  lemma {:induction false} KnownDecide(es: seq<Entry>, s: Snapshot)
    ensures SetAll(es, s) == SetAll(KnownOnly(es), s)
    decreases |es|
  {
    if es != [] {
      hide Set;
      var rest := KnownOnly(es[1..]);
      KnownDecide(es[1..], Set(es[0], s));
      if es[0].Other? {
        OtherSetsNothing(es[0], s);
        assert KnownOnly(es) == rest;
      } else {
        assert KnownOnly(es)[1..] == rest;
      }
    }
  }

  /** Entries with keys outside 1 to 14 change nothing, wherever they stand and whatever their values. */
  lemma UnknownKeysDoNotMatter(es: seq<Entry>, es': seq<Entry>, trailer: Bytes, trailer': Bytes)
    requires |es| < MAX64 && |es'| < MAX64
    requires (forall e :: e in es ==> Encodable(e)) && (forall e :: e in es' ==> Encodable(e))
    requires KnownOnly(es) == KnownOnly(es')
    ensures Decode(Message(es) + trailer) == Decode(Message(es') + trailer')
  {
    hide Decode, Message, SetAll, Encodable, KnownOnly;
    DecodeMessage(es, trailer);
    DecodeMessage(es', trailer');
    KnownDecide(es, NEW_SNAPSHOT);
    KnownDecide(es', NEW_SNAPSHOT);
  }

  // ---------- the encoder writes such a message

  /** The bytes of a seed: a head of four, whether or not the region is there. */
  lemma SeedLayout(d: Seed)
    ensures SeedBytes(d) ==
      Head(5, 4) + Joined([Head(0, 1) + (Head(3, |d.endpoint|) + d.endpoint)]
        + (if d.region == [] then [] else [Head(0, 2) + (Head(3, |d.region|) + d.region)])
        + [Head(0, 3) + Head(0, d.weight), Head(0, 4) + Head(0, d.healthScore)])
  {
    hide Head;
    var parts := [Head(0, 1) + (Head(3, |d.endpoint|) + d.endpoint)]
      + (if d.region == [] then [] else [Head(0, 2) + (Head(3, |d.region|) + d.region)])
      + [Head(0, 3) + Head(0, d.weight), Head(0, 4) + Head(0, d.healthScore)];
    var keys := SeedKeys(d);
    forall i | 0 <= i < |keys| ensures parts[i] == UintItem(keys[i]) + SeedPayload(d, keys[i]) {}
    KeysJoined(d, keys, parts);
  }

  lemma {:induction false} KeysJoined(d: Seed, keys: seq<nat>, parts: seq<Bytes>)
    requires |parts| == |keys|
    requires forall i :: 0 <= i < |keys| ==> parts[i] == UintItem(keys[i]) + SeedPayload(d, keys[i])
    ensures SeedEntries(d, keys) == Joined(parts)
    decreases |keys|
  {
    hide Head, SeedPayload;
    if keys != [] { KeysJoined(d, keys[1..], parts[1..]); }
  }

  /** The entries the encoder writes before and after the seeds. */
  function FirstEntries(s: Snapshot): seq<Entry>
    requires WellFormed(s)
  {
    [MeshId(s.meshId), MeshState(s.meshState), Epoch(ToUint64(s.epoch)), Genesis(s.genesisManifest),
     Authorities(seq(|s.authorities|, i requires 0 <= i < |s.authorities| =>
       [NodeId(s.authorities[i].nodeId), Endpoint(s.authorities[i].endpoint)]))]
  }

  function LastEntries(s: Snapshot): seq<Entry>
    requires WellFormed(s)
  {
    [PolicyVersion(ToUint64(s.policyVersion)), GovernanceVersion(ToUint64(s.governanceVersion)), CrlDigest(s.crlDigest),
     CrlCount(s.crlCount), HealthInfo([Level(s.health.level), Operational(if s.health.operational then 1 else 0)]),
     CipherSuite(s.cipherSuite), Opcodes(s.opcodes), ActiveProposals(s.activeProposals)]
  }

  lemma {:induction false} FieldsAreEntries(s: Snapshot, es: seq<Entry>, lo: nat)
    requires WellFormed(s) && 1 <= lo && lo + |es| <= 15
    requires forall i :: 0 <= i < |es| ==> KeyOf(es[i]) == lo + i && Item(es[i]) == Payload(s, lo + i)
    ensures FieldsFrom(s, lo) == Entries(es) + FieldsFrom(s, lo + |es|)
    decreases |es|
  {
    hide Head, Payload, Item, KeyOf, WellFormed;
    if es != [] {
      FieldsAreEntries(s, es[1..], lo + 1);
      var key := Head(0, lo);
      assert KeyOf(es[0]) == lo && Item(es[0]) == Payload(s, lo);
      Regroup(key + Item(es[0]), Entries(es[1..]), FieldsFrom(s, lo + |es|));
    }
  }

  lemma {:induction false} AuthoritiesAreMaps(auths: seq<Authority>, ms: seq<seq<AuthorityEntry>>)
    requires |ms| == |auths|
    requires forall i :: 0 <= i < |ms| ==> ms[i] == [NodeId(auths[i].nodeId), Endpoint(auths[i].endpoint)]
    ensures AuthoritiesBytes(auths) == ListA(ms)
    decreases |auths|
  {
    if auths != [] {
      AuthoritiesAreMaps(auths[1..], ms[1..]);
      AuthorityIsMap(auths[0]);
    }
  }

  lemma AuthorityIsMap(a: Authority)
    ensures AuthorityBytes(a) == MapA([NodeId(a.nodeId), Endpoint(a.endpoint)])
  {
    hide Head;
    var es := [NodeId(a.nodeId), Endpoint(a.endpoint)];
    assert es[1..] == [es[1]] && [es[1]][1..] == [];
    assert EntriesA([es[1]]) == EntryA(es[1]) + EntriesA([]);
  }

  lemma HealthIsMap(h: Health)
    ensures HealthBytes(h) == MapH([Level(h.level), Operational(if h.operational then 1 else 0)])
  {
    hide Head;
    var es := [Level(h.level), Operational(if h.operational then 1 else 0)];
    assert es[1..] == [es[1]] && [es[1]][1..] == [];
    assert EntriesH([es[1]]) == EntryH(es[1]) + EntriesH([]);
  }

  lemma {:induction false} OpcodesAreItems(ns: seq<nat>)
    ensures OpcodesBytes(ns) == ListO(ns)
    decreases |ns|
  {
    hide Head;
    if ns != [] { OpcodesAreItems(ns[1..]); }
  }

  lemma {:induction false} SeedsJoined(ds: seq<Seed>, parts: seq<Bytes>)
    requires |parts| == |ds| && forall i :: 0 <= i < |ds| ==> parts[i] == SeedBytes(ds[i])
    ensures SeedsBytes(ds) == Joined(parts)
    decreases |ds|
  {
    hide SeedBytes;
    if ds != [] { SeedsJoined(ds[1..], parts[1..]); }
  }

  /**
   The bytes of every encoded snapshot: fourteen entries in key order, the seeds under the head of their
   number; SeedLayout says what each part holds.
   */
  lemma SnapshotLayout(s: Snapshot, parts: seq<Bytes>)
    requires WellFormed(s) && |parts| == |s.seeds| && forall i :: 0 <= i < |parts| ==> parts[i] == SeedBytes(s.seeds[i])
    ensures Encode(s) == Head(5, 14)
      + (Entries(FirstEntries(s)) + (Head(0, 6) + (Head(4, |s.seeds|) + Joined(parts)) + Entries(LastEntries(s))))
  {
    hide Head, Entries, SeedsBytes, FieldsFrom, AuthoritiesBytes, ListA, HealthBytes, MapH, OpcodesBytes, ListO, Joined, SeedBytes;
    SeedsJoined(s.seeds, parts);
    var first, last := FirstEntries(s), LastEntries(s);
    AuthoritiesAreMaps(s.authorities, first[4].authorities);
    HealthIsMap(s.health);
    OpcodesAreItems(s.opcodes);
    FirstMatch(s);
    LastMatch(s);
    FieldsAreEntries(s, first, 1);
    FieldsAreEntries(s, last, 7);
    MiddleField(s);
    assert FieldsFrom(s, 15) == [];
    assert Entries(last) + [] == Entries(last);
  }

  lemma MiddleField(s: Snapshot)
    requires WellFormed(s)
    ensures FieldsFrom(s, 6) == Head(0, 6) + (Head(4, |s.seeds|) + SeedsBytes(s.seeds)) + FieldsFrom(s, 7)
    ensures FieldsFrom(s, 15) == []
  {
    hide Head, SeedsBytes;
  }

  lemma FirstMatch(s: Snapshot)
    requires WellFormed(s) && AuthoritiesBytes(s.authorities) == ListA(FirstEntries(s)[4].authorities)
    ensures |FirstEntries(s)| == 5
    ensures forall i :: 0 <= i < 5 ==> KeyOf(FirstEntries(s)[i]) == 1 + i && Item(FirstEntries(s)[i]) == Payload(s, 1 + i)
  {
    hide Head, AuthoritiesBytes, ListA;
  }

  lemma LastMatch(s: Snapshot)
    requires WellFormed(s) && OpcodesBytes(s.opcodes) == ListO(s.opcodes)
    requires HealthBytes(s.health) == MapH([Level(s.health.level), Operational(if s.health.operational then 1 else 0)])
    ensures |LastEntries(s)| == 8
    ensures forall i :: 0 <= i < 8 ==> KeyOf(LastEntries(s)[i]) == 7 + i && Item(LastEntries(s)[i]) == Payload(s, 7 + i)
  {
    hide Head, HealthBytes, MapH, OpcodesBytes, ListO;
  }
}
