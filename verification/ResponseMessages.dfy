/** Response messages as lists of entries: any keys in any order, repeated or unknown. */
module ResponseMessages {
  import opened Results
  import opened ByteStrings
  import opened Cbor
  import opened BootstrapResponses
  import opened M = SnapshotMessages
  import Snap = BootstrapSnapshots
  import CV = ContextValues

  datatype ResponseEntry =
    | Version(n: nat)
    | Nonce(b: Bytes)
    | SnapshotBytes(b: Bytes)
    | OtherR(key: nat, value: CV.Value)

  ghost predicate EncodableR(e: ResponseEntry) {
    match e
    case Version(n) => n < MAX64
    case Nonce(b) => |b| < MAX64
    case SnapshotBytes(b) => |b| < MAX64
    case OtherR(k, v) => (k == 0 || 3 < k < MAX64) && CV.WellFormed(v)
  }

  /** An encodable entry that is no snapshot, or one whose bytes decode. */
  ghost predicate Good(e: ResponseEntry) { EncodableR(e) && (e.SnapshotBytes? ==> Snap.Decode(e.b).Ok?) }

  function KeyR(e: ResponseEntry): nat {
    match e
    case Version(_) => 1
    case Nonce(_) => 2
    case SnapshotBytes(_) => 3
    case OtherR(k, _) => k
  }

  function ItemR(e: ResponseEntry): Bytes {
    match e
    case Version(n) => Head(0, n)
    case Nonce(b) => Head(2, |b|) + b
    case SnapshotBytes(b) => Head(2, |b|) + b
    case OtherR(_, v) => CV.Encode(v)
  }

  function EntriesR(es: seq<ResponseEntry>): Bytes {
    if es == [] then [] else Head(0, KeyR(es[0])) + ItemR(es[0]) + EntriesR(es[1..])
  }

  function MessageR(es: seq<ResponseEntry>): Bytes { Head(5, |es|) + EntriesR(es) }

  function VersionOf(e: ResponseEntry): Option<nat> { if e.Version? then Some(e.n % 256) else None }
  function NonceOf(e: ResponseEntry): Option<Bytes> { if e.Nonce? && |e.b| == 8 then Some(e.b) else None }
  function SnapshotOf(e: ResponseEntry): Option<Snap.Snapshot> {
    if e.SnapshotBytes? && Snap.Decode(e.b).Ok? then Some(Snap.Decode(e.b).value) else None
  }

  function ResponseFrom(es: seq<ResponseEntry>, r: Response): Response {
    Response(LastOr(es, VersionOf, r.version), LastOr(es, NonceOf, r.nonce), LastOr(es, SnapshotOf, r.snapshot))
  }

  function SetR(e: ResponseEntry, r: Response): Response {
    Response(Or(VersionOf(e), r.version), Or(NonceOf(e), r.nonce), Or(SnapshotOf(e), r.snapshot))
  }

  lemma ValueR(data: Bytes, pos: nat, e: ResponseEntry, r: Response)
    requires Good(e) && At(data, pos, ItemR(e))
    ensures FieldAt(data, pos, KeyR(e), r) == Step(Ok(SetR(e, r)), pos + |ItemR(e)|)
  {
    hide Head, TypedAt, BlobAt, SkipAt, At, Snap.Decode, CV.WellFormed, CV.Encode;
    match e
    case Version(n) => TypedRoundTrip(data, pos, 0, n, 702);
    case Nonce(b) => BlobRoundTrip(data, pos, 2, b, 704);
    case SnapshotBytes(b) => BlobRoundTrip(data, pos, 2, b, 704);
    case OtherR(k, v) => CV.SkipExact(data, pos, v);
  }

  lemma {:induction false} RunR(data: Bytes, pos: nat, es: seq<ResponseEntry>, n: nat, r: Response)
    requires (forall e :: e in es ==> Good(e)) && At(data, pos, EntriesR(es)) && |es| <= n
    ensures FieldsAt(data, pos, n, r) == FieldsAt(data, pos + |EntriesR(es)|, n - |es|, ResponseFrom(es, r))
    decreases |es|
  {
    hide Head, At, ItemR, Good, FieldAt, FieldsAt, KeyR, VersionOf, NonceOf, SnapshotOf;
    if es != [] {
      var e := es[0];
      var key := Head(0, KeyR(e));
      AtSplit(data, pos, key + ItemR(e), EntriesR(es[1..]));
      KeyBoundR(e);
      FieldsCons(data, pos, KeyR(e), ItemR(e), n, r);
      ValueR(data, pos + |key|, e, r);
      RunR(data, pos + |key + ItemR(e)|, es[1..], n - 1, SetR(e, r));
    }
  }

  lemma KeyBoundR(e: ResponseEntry)
    requires Good(e)
    ensures KeyR(e) < MAX64
  {
    hide Snap.Decode;
  }

  lemma AfterEntriesR(n: nat, es: seq<ResponseEntry>, tail: Bytes) returns (pos: nat)
    requires |es| <= n < MAX64 && forall e :: e in es ==> Good(e)
    ensures var data := Head(5, n) + (EntriesR(es) + tail);
      && At(data, pos, tail) && pos + |tail| == |data|
      && Decode(data) == FieldsAt(data, pos, n - |es|, ResponseFrom(es, NEW_RESPONSE)).res
  {
    hide Head, TypedAt, FieldsAt, Good, EntriesR, At, LastOr;
    var data := Head(5, n) + (EntriesR(es) + tail);
    AtEmbed([], data, []);
    assert [] + data + [] == data;
    AtSplit(data, 0, Head(5, n), EntriesR(es) + tail);
    AtSplit(data, |Head(5, n)|, EntriesR(es), tail);
    TypedRoundTrip(data, 0, 5, n, 707);
    RunR(data, |Head(5, n)|, es, n, NEW_RESPONSE);
    pos := |Head(5, n)| + |EntriesR(es)|;
  }

  /** What a message of good entries decodes to: the last version, nonce of eight bytes and snapshot count. */
  lemma ResponseMeaning(es: seq<ResponseEntry>, trailer: Bytes)
    requires |es| < MAX64 && forall e :: e in es ==> Good(e)
    ensures Decode(MessageR(es) + trailer) ==
      Ok(Response(LastOr(es, VersionOf, 1), LastOr(es, NonceOf, [0, 0, 0, 0, 0, 0, 0, 0]),
                  LastOr(es, SnapshotOf, Snap.NEW_SNAPSHOT)))
  {
    hide Head, FieldsAt, Good, EntriesR, At, LastOr, Decode;
    var pos := AfterEntriesR(|es|, es, trailer);
    Regroup(Head(5, |es|), EntriesR(es), trailer);
    FieldsEnd(MessageR(es) + trailer, pos, ResponseFrom(es, NEW_RESPONSE));
  }

  function KnownOnlyR(es: seq<ResponseEntry>): seq<ResponseEntry> {
    if es == [] then [] else (if es[0].OtherR? then [] else [es[0]]) + KnownOnlyR(es[1..])
  }

  lemma {:induction false} KnownDecideR(es: seq<ResponseEntry>, r: Response)
    ensures ResponseFrom(es, r) == ResponseFrom(KnownOnlyR(es), r)
    decreases |es|
  {
    if es != [] {
      var rest := KnownOnlyR(es[1..]);
      KnownDecideR(es[1..], SetR(es[0], r));
      hide SnapshotOf, VersionOf, NonceOf;
      if es[0].OtherR? {
        OtherSaysNothing(es[0]);
        assert KnownOnlyR(es) == rest;
      } else {
        assert KnownOnlyR(es)[1..] == rest;
      }
    }
  }

  lemma OtherSaysNothing(e: ResponseEntry)
    requires e.OtherR?
    ensures VersionOf(e) == None && NonceOf(e) == None && SnapshotOf(e) == None
  {}

  /** Entries with keys outside 1 to 3 change nothing. */
  lemma UnknownKeysDoNotMatter(es: seq<ResponseEntry>, es': seq<ResponseEntry>, trailer: Bytes, trailer': Bytes)
    requires |es| < MAX64 && |es'| < MAX64
    requires (forall e :: e in es ==> Good(e)) && (forall e :: e in es' ==> Good(e))
    requires KnownOnlyR(es) == KnownOnlyR(es')
    ensures Decode(MessageR(es) + trailer) == Decode(MessageR(es') + trailer')
  {
    hide Decode, MessageR, Good, KnownOnlyR, LastOr;
    ResponseMeaning(es, trailer);
    ResponseMeaning(es', trailer');
    KnownDecideR(es, NEW_RESPONSE);
    KnownDecideR(es', NEW_RESPONSE);
  }

  /** The bytes of an encoded response. */
  lemma ResponseLayout(r: Response)
    requires WellFormed(r)
    ensures Encode(r) == MessageR([Version(r.version), Nonce(r.nonce), SnapshotBytes(Snap.Encode(r.snapshot))])
  {
    hide Head, Snap.Encode, Snap.WellFormed;
    var es := [Version(r.version), Nonce(r.nonce), SnapshotBytes(Snap.Encode(r.snapshot))];
    assert es[1..] == [es[1], es[2]] && [es[1], es[2]][1..] == [es[2]] && [es[2]][1..] == [];
    var a, b, c := Head(0, 1) + ItemR(es[0]), Head(0, 2) + ItemR(es[1]), Head(0, 3) + ItemR(es[2]);
    assert EntriesR([es[2]]) == c + EntriesR([]);
    assert EntriesR([es[1], es[2]]) == b + EntriesR([es[2]]);
    assert EntriesR(es) == a + EntriesR([es[1], es[2]]);
    assert Head(5, 3) + a + b + c == Head(5, 3) + (a + (b + (c + [])));
  }

  /** A snapshot that does not decode fails the response with its code. */
  lemma BadSnapshotRefused(n: nat, es: seq<ResponseEntry>, b: Bytes, rest: Bytes)
    requires |es| < n < MAX64 && (forall e :: e in es ==> Good(e)) && |b| < MAX64 && Snap.Decode(b).Err?
    ensures Decode(Head(5, n) + (EntriesR(es) + (Head(0, 3) + (Head(2, |b|) + b) + rest))) == Err(Snap.Decode(b).code)
  {
    hide Head, FieldsAt, Good, EntriesR, At, LastOr, Decode, Snap.Decode, FieldAt;
    var item := Head(2, |b|) + b;
    var tail := Head(0, 3) + item + rest;
    var data := Head(5, n) + (EntriesR(es) + tail);
    var pos := AfterEntriesR(n, es, tail);
    AtSplit(data, pos, Head(0, 3) + item, rest);
    FieldsCons(data, pos, 3, item, n - |es|, ResponseFrom(es, NEW_RESPONSE));
    SnapshotRun(data, pos + |Head(0, 3)|, b, ResponseFrom(es, NEW_RESPONSE));
  }

  /** After good entries: a known key whose value has another type, or an unknown one that cannot be skipped. */
  lemma BadValueRefused(n: nat, es: seq<ResponseEntry>, key: nat, major: nat, val: nat, rest: Bytes)
    requires |es| < n < MAX64 && (forall e :: e in es ==> Good(e)) && key < MAX64 && major < 8 && val < MAX64
    ensures var r := Decode(Head(5, n) + (EntriesR(es) + (Head(0, key) + Head(major, val) + rest)));
      && (key == 1 && major != 0 ==> r == Err(702))
      && (key in {2, 3} && major != 2 ==> r == Err(704))
      && ((key == 0 || key > 3) && major == 6 ==> r == Err(708))
  {
    hide Head, FieldsAt, Good, EntriesR, At, LastOr, Decode, FieldAt;
    var tail := Head(0, key) + Head(major, val) + rest;
    var data := Head(5, n) + (EntriesR(es) + tail);
    var pos := AfterEntriesR(n, es, tail);
    AtSplit(data, pos, Head(0, key) + Head(major, val), rest);
    FieldsCons(data, pos, key, Head(major, val), n - |es|, ResponseFrom(es, NEW_RESPONSE));
    FieldRefuses(data, pos + |Head(0, key)|, key, major, val, ResponseFrom(es, NEW_RESPONSE));
  }

  lemma FieldRefuses(data: Bytes, pos: nat, key: nat, major: nat, val: nat, r: Response)
    requires major < 8 && val < MAX64 && At(data, pos, Head(major, val))
    ensures key == 1 && major != 0 ==> FieldAt(data, pos, key, r).res == Err(702)
    ensures key in {2, 3} && major != 2 ==> FieldAt(data, pos, key, r).res == Err(704)
    ensures (key == 0 || key > 3) && major == 6 ==> FieldAt(data, pos, key, r).res == Err(708)
  {
    hide Head, HeadAt, SkipAt, Snap.Decode;
    HeadRoundTrip(data, pos, major, val);
    SkipOutcome(data, pos, []);
  }

  /** After good entries: an entry that is missing, or whose key is no number. */
  lemma BadKeyRefused(n: nat, es: seq<ResponseEntry>, major: nat, val: nat, rest: Bytes)
    requires |es| < n < MAX64 && (forall e :: e in es ==> Good(e)) && 0 < major < 8 && val < MAX64
    ensures Decode(Head(5, n) + (EntriesR(es) + [])) == Err(700)
    ensures Decode(Head(5, n) + (EntriesR(es) + (Head(major, val) + rest))) == Err(702)
  {
    hide Head, FieldsAt, Good, EntriesR, At, LastOr, Decode, TypedAt;
    var data := Head(5, n) + (EntriesR(es) + []);
    var end := AfterEntriesR(n, es, []);
    assert UintAt(data, end) == Step(Err(700), end) by { HeadOutcome(data, end); ReadOutcomes(data, end); }
    FieldsStop(data, end, n - |es|, ResponseFrom(es, NEW_RESPONSE));
    var tail := Head(major, val) + rest;
    var data' := Head(5, n) + (EntriesR(es) + tail);
    var pos := AfterEntriesR(n, es, tail);
    AtSplit(data', pos, Head(major, val), rest);
    WrongType(data', pos, major, val, 0, 702);
    FieldsStop(data', pos, n - |es|, ResponseFrom(es, NEW_RESPONSE));
  }

  lemma FieldsStop(data: Bytes, pos: nat, n: nat, r: Response)
    requires pos <= |data| && n > 0 && UintAt(data, pos).res.Err?
    ensures FieldsAt(data, pos, n, r).res == Err(UintAt(data, pos).res.code)
  {
    hide TypedAt, FieldAt;
  }

  /** What is not a map at all. */
  lemma NoMapRefused(major: nat, val: nat, rest: Bytes)
    requires major < 8 && major != 5 && val < MAX64
    ensures Decode([]) == Err(700) && Decode(Head(major, val) + rest) == Err(707)
  {
    hide Head, TypedAt, FieldsAt;
    assert MapSizeAt([], 0) == Step(Err(700), 0) by { HeadOutcome([], 0); ReadOutcomes([], 0); }
    var data := Head(major, val) + rest;
    AtEmbed([], Head(major, val), rest);
    assert [] + Head(major, val) + rest == data;
    WrongType(data, 0, major, val, 5, 707);
  }
}
