/** The bootstrap request: a CBOR map with unsigned keys; unknown keys are skipped. */
module BootstrapRequests {
  import opened Results
  import opened ByteStrings
  import opened Cbor
  import CV = ContextValues

  datatype Request = Request(version: nat, nonce: Bytes, nodeId: Bytes, certFingerprint: Bytes)

  const NEW_REQUEST := Request(1, [0, 0, 0, 0, 0, 0, 0, 0], [], [])

  ghost predicate WellFormed(r: Request) {
    r.version < 256 && |r.nonce| == 8 && |r.nodeId| < MAX64 && |r.certFingerprint| < MAX64
  }

  /** One entry of a request on the wire. Unknown carries any encodable value under a key of a later version. */
  datatype Entry =
    | Version(v: nat)
    | Nonce(b: Bytes)
    | NodeId(s: Bytes)
    | CertFp(s: Bytes)
    | Unknown(key: nat, value: CV.Value)

  function Key(e: Entry): nat {
    match e
    case Version(_) => 1
    case Nonce(_) => 2
    case NodeId(_) => 3
    case CertFp(_) => 4
    case Unknown(k, _) => k
  }

  ghost predicate Encodable(e: Entry) {
    match e
    case Version(v) => v < MAX64
    case Nonce(b) => |b| < MAX64
    case NodeId(s) => |s| < MAX64
    case CertFp(s) => |s| < MAX64
    case Unknown(k, v) => (k == 0 || 4 < k < MAX64) && CV.WellFormed(v)
  }

  function Payload(e: Entry): Bytes {
    match e
    case Version(v) => UintItem(v)
    case Nonce(b) => BytesItem(b)
    case NodeId(s) => StringItem(s)
    case CertFp(s) => StringItem(s)
    case Unknown(_, v) => CV.Encode(v)
  }

  function EntryBytes(e: Entry): Bytes { UintItem(Key(e)) + Payload(e) }

  function EntriesBytes(es: seq<Entry>): Bytes {
    if es == [] then [] else EntryBytes(es[0]) + EntriesBytes(es[1..])
  }

  /** A request message made of the given entries, in that order. */
  function Message(es: seq<Entry>): Bytes { Head(5, |es|) + EntriesBytes(es) }

  // ---------- decoding

  /** The value of one entry: what the switch in the decoder does for this key. */
  function FieldAt(data: Bytes, pos: nat, key: nat, r: Request): (s: Step<Request>)
    requires pos <= |data|
    ensures pos <= s.pos <= |data|
  {
    if key == 1 then
      var v := UintAt(data, pos);
      if v.res.Err? then Step(Err(v.res.code), v.pos) else Step(Ok(r.(version := v.res.value % 256)), v.pos)
    else if key == 2 then
      var v := BytesAt(data, pos);
      if v.res.Err? then Step(Err(v.res.code), v.pos)
      else Step(Ok(if |v.res.value| == 8 then r.(nonce := v.res.value) else r), v.pos)
    else if key == 3 then
      var v := StringAt(data, pos);
      if v.res.Err? then Step(Err(v.res.code), v.pos) else Step(Ok(r.(nodeId := v.res.value)), v.pos)
    else if key == 4 then
      var v := StringAt(data, pos);
      if v.res.Err? then Step(Err(v.res.code), v.pos) else Step(Ok(r.(certFingerprint := v.res.value)), v.pos)
    else
      var v := SkipAt(data, pos);
      if v.res.Err? then Step(Err(v.res.code), v.pos) else Step(Ok(r), v.pos)
  }

  function FieldsAt(data: Bytes, pos: nat, n: nat, r: Request): (s: Step<Request>)
    requires pos <= |data|
    ensures pos <= s.pos <= |data|
    decreases n
  {
    if n == 0 then Step(Ok(r), pos)
    else
      var k := UintAt(data, pos);
      if k.res.Err? then Step(Err(k.res.code), k.pos)
      else
        var f := FieldAt(data, k.pos, k.res.value, r);
        if f.res.Err? then f else FieldsAt(data, f.pos, n - 1, f.res.value)
  }

  function Finish(r: Request): Result<Request> { if r.nodeId == [] then Err(900) else Ok(r) }

  function Decode(data: Bytes): Result<Request> {
    var n := MapSizeAt(data, 0);
    if n.res.Err? then Err(n.res.code)
    else
      var f := FieldsAt(data, n.pos, n.res.value, NEW_REQUEST);
      if f.res.Err? then f.res else Finish(f.res.value)
  }

  // ---------- decoding a message is applying its entries

  function Apply(e: Entry, r: Request): Request {
    match e
    case Version(v) => r.(version := v % 256)
    case Nonce(b) => if |b| == 8 then r.(nonce := b) else r
    case NodeId(s) => r.(nodeId := s)
    case CertFp(s) => r.(certFingerprint := s)
    case Unknown(_, _) => r
  }

  function ApplyAll(es: seq<Entry>, r: Request): Request {
    if es == [] then r else ApplyAll(es[1..], Apply(es[0], r))
  }

  lemma FieldRun(data: Bytes, pos: nat, e: Entry, r: Request)
    requires Encodable(e) && At(data, pos, Payload(e))
    ensures FieldAt(data, pos, Key(e), r) == Step(Ok(Apply(e, r)), pos + |Payload(e)|)
  {
    hide Head, TypedAt, BlobAt, SkipAt, CV.WellFormed, CV.Encode;
    match e
    case Version(v) => TypedRoundTrip(data, pos, 0, v, 702);
    case Nonce(b) => BlobRoundTrip(data, pos, 2, b, 704);
    case NodeId(s) => BlobRoundTrip(data, pos, 3, s, 705);
    case CertFp(s) => BlobRoundTrip(data, pos, 3, s, 705);
    case Unknown(k, v) => CV.SkipExact(data, pos, v);
  }

  lemma {:induction false} FieldsRun(data: Bytes, pos: nat, es: seq<Entry>, n: nat, r: Request)
    requires (forall e :: e in es ==> Encodable(e)) && At(data, pos, EntriesBytes(es)) && |es| <= n
    ensures FieldsAt(data, pos, n, r) == FieldsAt(data, pos + |EntriesBytes(es)|, n - |es|, ApplyAll(es, r))
    decreases |es|
  {
    hide Head, TypedAt, FieldAt, Encodable, Payload, Apply, At;
    if es != [] {
      var e := es[0];
      KeyBound(e);
      AtSplit(data, pos, EntryBytes(e), EntriesBytes(es[1..]));
      AtSplit(data, pos, UintItem(Key(e)), Payload(e));
      TypedRoundTrip(data, pos, 0, Key(e), 702);
      FieldRun(data, pos + |UintItem(Key(e))|, e, r);
      FieldsRun(data, pos + |EntryBytes(e)|, es[1..], n - 1, Apply(e, r));
    }
  }

  lemma KeyBound(e: Entry)
    requires Encodable(e)
    ensures Key(e) < MAX64
  {}

  lemma DecodeAt(data: Bytes, es: seq<Entry>)
    requires |es| < MAX64 && (forall e :: e in es ==> Encodable(e)) && At(data, 0, Message(es))
    ensures Decode(data) == Finish(ApplyAll(es, NEW_REQUEST))
  {
    hide Head, TypedAt, FieldsAt, ApplyAll, Encodable, EntriesBytes, At;
    AtSplit(data, 0, Head(5, |es|), EntriesBytes(es));
    TypedRoundTrip(data, 0, 5, |es|, 707);
    FieldsRun(data, |Head(5, |es|)|, es, |es|, NEW_REQUEST);
    FieldsDone(data, |Message(es)|, ApplyAll(es, NEW_REQUEST));
  }

  lemma FieldsDone(data: Bytes, pos: nat, r: Request)
    requires pos <= |data|
    ensures FieldsAt(data, pos, 0, r) == Step(Ok(r), pos)
  {}

  lemma DecodeMessage(es: seq<Entry>, trailer: Bytes)
    requires |es| < MAX64 && forall e :: e in es ==> Encodable(e)
    ensures Decode(Message(es) + trailer) == Finish(ApplyAll(es, NEW_REQUEST))
  {
    hide Message, Decode, ApplyAll, Encodable;
    var data := Message(es) + trailer;
    AtEmbed([], Message(es), trailer);
    assert [] + Message(es) + trailer == data;
    DecodeAt(data, es);
  }

  // ---------- only the set of known entries matters

  predicate Known(e: Entry) { !e.Unknown? }

  ghost predicate DistinctKnownKeys(es: seq<Entry>) {
    forall i, j :: 0 <= i < j < |es| && Known(es[i]) && Known(es[j]) ==> Key(es[i]) != Key(es[j])
  }

  /** The value of the field that key k sets. */
  datatype Field = Number(n: nat) | Text(b: Bytes)

  function Project(r: Request, k: nat): Field {
    if k == 1 then Number(r.version) else if k == 2 then Text(r.nonce)
    else if k == 3 then Text(r.nodeId) else Text(r.certFingerprint)
  }

  lemma SameFields(r: Request, r': Request)
    requires forall k :: 1 <= k <= 4 ==> Project(r, k) == Project(r', k)
    ensures r == r'
  {
    assert Project(r, 1) == Project(r', 1) && Project(r, 2) == Project(r', 2);
    assert Project(r, 3) == Project(r', 3) && Project(r, 4) == Project(r', 4);
  }

  /** What the entry puts in the field of key k, if anything: a nonce that is not eight bytes long is dropped. */
  function Setting(e: Entry, k: nat): Option<Field> {
    match e
    case Version(v) => if k == 1 then Some(Number(v % 256)) else None
    case Nonce(b) => if k == 2 && |b| == 8 then Some(Text(b)) else None
    case NodeId(s) => if k == 3 then Some(Text(s)) else None
    case CertFp(s) => if k == 4 then Some(Text(s)) else None
    case Unknown(_, _) => None
  }

  /** The last value the entries put in the field of key k. */
  function LastSetting(es: seq<Entry>, k: nat): Option<Field> {
    if es == [] then None
    else
      var later := LastSetting(es[1..], k);
      if later.Some? then later else Setting(es[0], k)
  }

  /** The last setting of a field decides it; without one it keeps its value. */
  lemma {:induction false} LastDecides(es: seq<Entry>, r: Request, k: nat)
    requires 1 <= k <= 4
    ensures Project(ApplyAll(es, r), k) ==
      if LastSetting(es, k).Some? then LastSetting(es, k).value else Project(r, k)
    decreases |es|
  {
    if es != [] { LastDecides(es[1..], Apply(es[0], r), k); }
  }

  function Given(last: Option<Field>, default: Field): Field { if last.Some? then last.value else default }

  /**
   What a request message says: every field is its last setting, or the value of a new request, and without
   a node id there is no request.
   */
  lemma RequestMeaning(es: seq<Entry>, trailer: Bytes)
    requires |es| < MAX64 && forall e :: e in es ==> Encodable(e)
    ensures var r := Decode(Message(es) + trailer);
      var id := Given(LastSetting(es, 3), Text([]));
      if id == Text([]) then r == Err(900)
      else
        && r.Ok?
        && Number(r.value.version) == Given(LastSetting(es, 1), Number(1))
        && Text(r.value.nonce) == Given(LastSetting(es, 2), Text([0, 0, 0, 0, 0, 0, 0, 0]))
        && Text(r.value.nodeId) == id
        && Text(r.value.certFingerprint) == Given(LastSetting(es, 4), Text([]))
  {
    DecodeMessage(es, trailer);
    hide Decode, Message, ApplyAll, LastSetting, Encodable;
    LastDecides(es, NEW_REQUEST, 1);
    LastDecides(es, NEW_REQUEST, 2);
    LastDecides(es, NEW_REQUEST, 3);
    LastDecides(es, NEW_REQUEST, 4);
  }

  ghost predicate SameLast(es: seq<Entry>, es': seq<Entry>) {
    forall k :: 1 <= k <= 4 ==> LastSetting(es, k) == LastSetting(es', k)
  }

  /** A request that differs from f in the field of key k. */
  function Differing(f: Field, k: nat): Request {
    if k == 1 then NEW_REQUEST.(version := if f == Number(0) then 1 else 0)
    else
      var b := if f == Text([]) then [0] else [];
      if k == 2 then NEW_REQUEST.(nonce := b) else if k == 3 then NEW_REQUEST.(nodeId := b)
      else NEW_REQUEST.(certFingerprint := b)
  }

  ghost predicate SameEffect(es: seq<Entry>, es': seq<Entry>) {
    forall r: Request :: ApplyAll(es, r) == ApplyAll(es', r)
  }

  /** Two entry lists act alike on every request exactly when the last settings of every field agree. */
  lemma SameEffectIff(es: seq<Entry>, es': seq<Entry>)
    ensures SameEffect(es, es') <==> SameLast(es, es')
  {
    hide ApplyAll, LastSetting;
    if SameLast(es, es') {
      forall r: Request ensures ApplyAll(es, r) == ApplyAll(es', r) {
        forall k | 1 <= k <= 4 ensures Project(ApplyAll(es, r), k) == Project(ApplyAll(es', r), k) {
          LastDecides(es, r, k);
          LastDecides(es', r, k);
        }
        SameFields(ApplyAll(es, r), ApplyAll(es', r));
      }
    }
    if SameEffect(es, es') {
      forall k | 1 <= k <= 4 ensures LastSetting(es, k) == LastSetting(es', k) {
        var a, b := LastSetting(es, k), LastSetting(es', k);
        var r := Differing(if a.Some? then a.value else if b.Some? then b.value else Number(0), k);
        LastDecides(es, r, k);
        LastDecides(es', r, k);
      }
    }
  }

  // ---------- unknown keys, and the order of distinct known ones

  function KnownOnly(es: seq<Entry>): seq<Entry> {
    if es == [] then [] else (if Known(es[0]) then [es[0]] else []) + KnownOnly(es[1..])
  }

  /** Unknown entries change nothing, wherever they stand and however often known keys repeat. */
  lemma {:induction false} UnknownKeysIgnored(es: seq<Entry>, r: Request)
    ensures ApplyAll(es, r) == ApplyAll(KnownOnly(es), r)
    decreases |es|
  {
    if es != [] {
      var rest := KnownOnly(es[1..]);
      UnknownKeysIgnored(es[1..], Apply(es[0], r));
      if Known(es[0]) {
        assert KnownOnly(es)[1..] == rest;
      } else {
        assert KnownOnly(es) == rest;
      }
    }
  }

  ghost predicate SameKnown(es: seq<Entry>, es': seq<Entry>) {
    forall e :: Known(e) ==> (e in es <==> e in es')
  }

  lemma {:induction false} NoSetting(es: seq<Entry>, k: nat)
    requires 1 <= k <= 4 && forall e :: e in es && Known(e) ==> Key(e) != k
    ensures LastSetting(es, k) == None
    decreases |es|
  {
    if es != [] {
      assert es[0] in es;
      NoSetting(es[1..], k);
    }
  }

  /** A known entry is the last setting of its field, wherever it stands among entries with other keys. */
  lemma {:induction false} OnlySetting(es: seq<Entry>, e: Entry)
    requires e in es && Known(e) && DistinctKnownKeys(es)
    ensures LastSetting(es, Key(e)) == Setting(e, Key(e))
    decreases |es|
  {
    var t := es[1..];
    assert es == [es[0]] + t;
    forall i, j | 0 <= i < j < |t| && Known(t[i]) && Known(t[j]) ensures Key(t[i]) != Key(t[j]) {
      assert t[i] == es[i + 1] && t[j] == es[j + 1];
    }
    if es[0] == e {
      forall i | 0 <= i < |t| && Known(t[i]) ensures Key(t[i]) != Key(e) { assert t[i] == es[i + 1]; }
      NoSetting(t, Key(e));
    } else {
      var i :| 0 <= i < |t| && t[i] == e;
      assert es[i + 1] == e;
      OnlySetting(t, e);
    }
  }

  lemma ApplyAllSameKnown(es: seq<Entry>, es': seq<Entry>, r: Request)
    requires DistinctKnownKeys(es) && DistinctKnownKeys(es') && SameKnown(es, es')
    ensures SameLast(es, es') && ApplyAll(es, r) == ApplyAll(es', r)
  {
    hide ApplyAll, DistinctKnownKeys, LastSetting;
    forall k | 1 <= k <= 4 ensures LastSetting(es, k) == LastSetting(es', k) {
      if e :| e in es && Known(e) && Key(e) == k {
        OnlySetting(es, e);
        OnlySetting(es', e);
      } else {
        NoSetting(es, k);
        NoSetting(es', k);
      }
    }
    SameEffectIff(es, es');
  }

  /**
   Forward compatibility: two messages whose last settings of every known field agree decode alike, in any
   order and among any number of unknown keys with any values.
   */
  lemma OrderAndUnknownKeysDoNotMatter(es: seq<Entry>, es': seq<Entry>, trailer: Bytes, trailer': Bytes)
    requires |es| < MAX64 && |es'| < MAX64
    requires (forall e :: e in es ==> Encodable(e)) && (forall e :: e in es' ==> Encodable(e))
    requires SameLast(es, es')
    ensures Decode(Message(es) + trailer) == Decode(Message(es') + trailer')
  {
    hide Decode, Message, ApplyAll, Encodable, LastSetting;
    DecodeMessage(es, trailer);
    DecodeMessage(es', trailer');
    SameEffectIff(es, es');
  }

  // ---------- the encoder writes such a message

  function EntriesOf(r: Request): seq<Entry> {
    [Version(r.version), Nonce(r.nonce), NodeId(r.nodeId)] +
    (if r.certFingerprint == [] then [] else [CertFp(r.certFingerprint)])
  }

  lemma EncodedEntries(r: Request)
    requires WellFormed(r)
    ensures (forall e :: e in EntriesOf(r) ==> Encodable(e)) && DistinctKnownKeys(EntriesOf(r))
    ensures ApplyAll(EntriesOf(r), NEW_REQUEST) == r
  {
    var es := EntriesOf(r);
    var r1 := Apply(es[0], NEW_REQUEST);
    var r2 := Apply(es[1], r1);
    var r3 := Apply(es[2], r2);
    assert es[1..][1..] == es[2..] && es[2..][1..] == es[3..];
    assert ApplyAll(es, NEW_REQUEST) == ApplyAll(es[1..], r1);
    assert ApplyAll(es[1..], r1) == ApplyAll(es[2..], r2);
    assert ApplyAll(es[2..], r2) == ApplyAll(es[3..], r3);
    if r.certFingerprint != [] {
      assert es[3..] == [CertFp(r.certFingerprint)];
      assert es[3..][1..] == [];
      assert ApplyAll(es[3..], r3) == ApplyAll([], Apply(es[3], r3));
    } else {
      assert es[3..] == [];
    }
  }

  /**
   The message of a request, reordered and extended by unknown keys at will, decodes to the request
   exactly when it names a node; otherwise it is refused.
   */
  lemma RequestRoundTrip(r: Request, es: seq<Entry>, trailer: Bytes)
    requires WellFormed(r) && |es| < MAX64 && forall e :: e in es ==> Encodable(e)
    requires DistinctKnownKeys(es) && SameKnown(es, EntriesOf(r))
    ensures Decode(Message(es) + trailer) == if r.nodeId == [] then Err(900) else Ok(r)
  {
    hide Decode, Message, ApplyAll, Encodable, EntriesOf, DistinctKnownKeys;
    EncodedEntries(r);
    DecodeMessage(es, trailer);
    ApplyAllSameKnown(es, EntriesOf(r), NEW_REQUEST);
  }

  lemma {:induction false} EntriesJoined(es: seq<Entry>, parts: seq<Bytes>)
    requires |parts| == |es| && forall i :: 0 <= i < |es| ==> parts[i] == EntryBytes(es[i])
    ensures EntriesBytes(es) == Joined(parts)
    decreases |es|
  {
    if es != [] { EntriesJoined(es[1..], parts[1..]); }
  }

  /** The bytes of an encoded request: three entries, or four when there is a fingerprint. */
  lemma RequestLayout(r: Request)
    requires WellFormed(r)
    ensures var parts :=
        [Head(0, 1) + Head(0, r.version), Head(0, 2) + (Head(2, 8) + r.nonce), Head(0, 3) + (Head(3, |r.nodeId|) + r.nodeId)]
        + (if r.certFingerprint == [] then [] else [Head(0, 4) + (Head(3, |r.certFingerprint|) + r.certFingerprint)]);
      Message(EntriesOf(r)) == Head(5, |parts|) + Joined(parts)
  {
    hide Head, Joined, EntriesBytes;
    var parts :=
      [Head(0, 1) + Head(0, r.version), Head(0, 2) + (Head(2, 8) + r.nonce), Head(0, 3) + (Head(3, |r.nodeId|) + r.nodeId)]
      + (if r.certFingerprint == [] then [] else [Head(0, 4) + (Head(3, |r.certFingerprint|) + r.certFingerprint)]);
    EntriesJoined(EntriesOf(r), parts);
  }

  // ---------- what is refused, and with which code

  /** A message that announces n entries, gives the entries es and goes on with tail. */
  function Announced(n: nat, es: seq<Entry>, tail: Bytes): Bytes { Head(5, n) + (EntriesBytes(es) + tail) }

  lemma AfterEntries(n: nat, es: seq<Entry>, tail: Bytes) returns (pos: nat)
    requires |es| < n < MAX64 && forall e :: e in es ==> Encodable(e)
    ensures var data := Announced(n, es, tail);
      && At(data, pos, tail) && pos + |tail| == |data|
      && var f := FieldsAt(data, pos, n - |es|, ApplyAll(es, NEW_REQUEST));
      Decode(data) == if f.res.Err? then f.res else Finish(f.res.value)
  {
    hide Head, TypedAt, FieldsAt, ApplyAll, Encodable, EntriesBytes, At;
    var data := Announced(n, es, tail);
    AtEmbed([], data, []);
    assert [] + data + [] == data;
    AtSplit(data, 0, Head(5, n), EntriesBytes(es) + tail);
    AtSplit(data, |Head(5, n)|, EntriesBytes(es), tail);
    TypedRoundTrip(data, 0, 5, n, 707);
    FieldsRun(data, |Head(5, n)|, es, n, NEW_REQUEST);
    pos := |Head(5, n)| + |EntriesBytes(es)|;
  }

  lemma FieldsStop(data: Bytes, pos: nat, n: nat, r: Request)
    requires pos <= |data| && n > 0
    ensures UintAt(data, pos).res.Err? ==> FieldsAt(data, pos, n, r).res == Err(UintAt(data, pos).res.code)
    ensures UintAt(data, pos).res.Ok? ==>
      var k := UintAt(data, pos);
      FieldAt(data, k.pos, k.res.value, r).res.Err? ==> FieldsAt(data, pos, n, r).res == FieldAt(data, k.pos, k.res.value, r).res
  {
    hide TypedAt, FieldAt;
  }

  /** After any good entries: an entry that is missing, or whose key is no number. */
  lemma BadKeyRefused(n: nat, es: seq<Entry>, major: nat, val: nat, rest: Bytes)
    requires |es| < n < MAX64 && (forall e :: e in es ==> Encodable(e)) && 0 < major < 8 && val < MAX64
    ensures Decode(Announced(n, es, [])) == Err(700)
    ensures Decode(Announced(n, es, Head(major, val) + rest)) == Err(702)
  {
    hide Head, FieldsAt, Decode, Announced, At, TypedAt;
    var end := AfterEntries(n, es, []);
    var data := Announced(n, es, []);
    NothingThere(data);
    FieldsStop(data, end, n - |es|, ApplyAll(es, NEW_REQUEST));
    var tail := Head(major, val) + rest;
    var pos := AfterEntries(n, es, tail);
    var data' := Announced(n, es, tail);
    AtSplit(data', pos, Head(major, val), rest);
    WrongType(data', pos, major, val, 0, 702);
    FieldsStop(data', pos, n - |es|, ApplyAll(es, NEW_REQUEST));
  }

  lemma NothingThere(data: Bytes)
    ensures UintAt(data, |data|) == Step(Err(700), |data|)
  {}

  /** After any good entries: a known key whose value has another type, or an unknown one that cannot be skipped. */
  lemma BadValueRefused(n: nat, es: seq<Entry>, key: nat, major: nat, val: nat, rest: Bytes)
    requires |es| < n < MAX64 && (forall e :: e in es ==> Encodable(e)) && key < MAX64 && major < 8 && val < MAX64
    ensures var r := Decode(Announced(n, es, Head(0, key) + (Head(major, val) + rest)));
      && (key == 1 && major != 0 ==> r == Err(702))
      && (key == 2 && major != 2 ==> r == Err(704))
      && (key in {3, 4} && major != 3 ==> r == Err(705))
      && ((key == 0 || key > 4) && major == 6 ==> r == Err(708))
  {
    hide Head, FieldsAt, Decode, Announced, At, TypedAt, ApplyAll;
    var tail := Head(0, key) + (Head(major, val) + rest);
    var pos := AfterEntries(n, es, tail);
    var data := Announced(n, es, tail);
    AtSplit(data, pos, Head(0, key), Head(major, val) + rest);
    AtSplit(data, pos + |Head(0, key)|, Head(major, val), rest);
    TypedRoundTrip(data, pos, 0, key, 702);
    FieldsStop(data, pos, n - |es|, ApplyAll(es, NEW_REQUEST));
    FieldRefuses(data, pos + |Head(0, key)|, key, major, val, ApplyAll(es, NEW_REQUEST));
  }

  lemma FieldRefuses(data: Bytes, pos: nat, key: nat, major: nat, val: nat, r: Request)
    requires major < 8 && val < MAX64 && At(data, pos, Head(major, val))
    ensures key == 1 && major != 0 ==> FieldAt(data, pos, key, r).res == Err(702)
    ensures key == 2 && major != 2 ==> FieldAt(data, pos, key, r).res == Err(704)
    ensures key in {3, 4} && major != 3 ==> FieldAt(data, pos, key, r).res == Err(705)
    ensures (key == 0 || key > 4) && major == 6 ==> FieldAt(data, pos, key, r).res == Err(708)
  {
    hide Head, HeadAt;
    HeadRoundTrip(data, pos, major, val);
    SkipOutcome(data, pos, []);
  }

  /** What is not a map at all. */
  lemma NoMapRefused(major: nat, val: nat, rest: Bytes)
    requires major < 8 && major != 5 && val < MAX64
    ensures Decode([]) == Err(700) && Decode(Head(major, val) + rest) == Err(707)
  {
    hide Head, TypedAt;
    assert MapSizeAt([], 0) == Step(Err(700), 0) by { HeadOutcome([], 0); ReadOutcomes([], 0); }
    var data := Head(major, val) + rest;
    AtEmbed([], Head(major, val), rest);
    assert [] + Head(major, val) + rest == data;
    WrongType(data, 0, major, val, 5, 707);
  }

  // ---------- the procedures

  /** After an entry is appended, what remains of the message is the later entries. */
  lemma Emitted(before: Bytes, es: seq<Entry>, k: nat)
    requires k < |es|
    ensures before + EntryBytes(es[k]) + EntriesBytes(es[k + 1..]) == before + EntriesBytes(es[k..])
  {
    hide EntryBytes;
    assert es[k..][0] == es[k] && es[k..][1..] == es[k + 1..];
    Regroup(before, EntryBytes(es[k]), EntriesBytes(es[k + 1..]));
  }

  /** A key and its value. */
  method EncodeEntry(enc: Encoder, e: Entry)
    requires Encodable(e) && Known(e)
    modifies enc
    ensures enc.buf == old(enc.buf) + EntryBytes(e)
  {
    hide Head;
    ghost var before := enc.buf;
    enc.EncodeUint(Key(e));
    match e {
      case Version(v) => enc.EncodeUint(v);
      case Nonce(b) => enc.EncodeBytes(b);
      case NodeId(s) => enc.EncodeString(s);
      case CertFp(s) => enc.EncodeString(s);
    }
    Regroup(before, UintItem(Key(e)), Payload(e));
  }

  method EncodeRequest(r: Request) returns (bytes: Bytes)
    requires WellFormed(r)
    ensures bytes == Message(EntriesOf(r))
  {
    hide Head, EntryBytes, EntriesBytes;
    ghost var es := EntriesOf(r);
    var enc := new Encoder();
    enc.EncodeMap(if r.certFingerprint == [] then 3 else 4);
    assert es[0..] == es;
    Emitted(enc.buf, es, 0);
    EncodeEntry(enc, Version(r.version));
    Emitted(enc.buf, es, 1);
    EncodeEntry(enc, Nonce(r.nonce));
    Emitted(enc.buf, es, 2);
    EncodeEntry(enc, NodeId(r.nodeId));
    if r.certFingerprint != [] {
      Emitted(enc.buf, es, 3);
      EncodeEntry(enc, CertFp(r.certFingerprint));
    }
    bytes := enc.buf;
    assert es[|es|..] == [];
    NoEntries();
    assert bytes + [] == bytes;
  }

  lemma NoEntries()
    ensures EntriesBytes([]) == []
  {}

  method DecodeField(dec: Decoder, key: nat, r: Request) returns (res: Result<Request>)
    requires dec.Valid()
    modifies dec
    ensures dec.Valid() && Step(res, dec.pos) == FieldAt(dec.data, old(dec.pos), key, r)
  {
    hide TypedAt, BlobAt, SkipAt;
    match key
    case 1 =>
      var v := dec.DecodeUint();
      return if v.Err? then Err(v.code) else Ok(r.(version := v.value % 256));
    case 2 =>
      var v := dec.DecodeBytes();
      return if v.Err? then Err(v.code) else Ok(if |v.value| == 8 then r.(nonce := v.value) else r);
    case 3 =>
      var v := dec.DecodeString();
      return if v.Err? then Err(v.code) else Ok(r.(nodeId := v.value));
    case 4 =>
      var v := dec.DecodeString();
      return if v.Err? then Err(v.code) else Ok(r.(certFingerprint := v.value));
    case _ =>
      var v := dec.Skip();
      return if v.Err? then Err(v.code) else Ok(r);
  }

  method DecodeRequest(data: Bytes) returns (res: Result<Request>)
    ensures res == Decode(data)
  {
    hide TypedAt, FieldAt;
    var dec := new Decoder(data);
    var n := dec.DecodeMapSize();
    if n.Err? {
      return Err(n.code);
    }
    var req := NEW_REQUEST;
    ghost var all := FieldsAt(data, dec.pos, n.value, req);
    for i := 0 to n.value
      invariant dec.Valid() && dec.data == data
      invariant FieldsAt(data, dec.pos, n.value - i, req) == all
    {
      var key := dec.DecodeUint();
      if key.Err? {
        return Err(key.code);
      }
      var f := DecodeField(dec, key.value, req);
      if f.Err? {
        return f;
      }
      req := f.value;
    }
    if req.nodeId == [] {
      return Err(900);
    }
    return Ok(req);
  }
}
