/** What a snapshot message is refused for and with which code, and how far the seed loops get on bad input. */
module SnapshotRefusals {
  import opened Results
  import opened ByteStrings
  import opened Cbor
  import opened S = BootstrapSnapshots
  import opened M = SnapshotMessages

  /** A message that announces n entries, gives the entries es and goes on with tail. */
  function Announced(n: nat, es: seq<Entry>, tail: Bytes): Bytes { Head(5, n) + (Entries(es) + tail) }

  lemma AfterEntries(n: nat, es: seq<Entry>, tail: Bytes) returns (pos: nat)
    requires |es| < n < MAX64 && forall e :: e in es ==> Encodable(e)
    ensures var data := Announced(n, es, tail);
      && At(data, pos, tail) && pos + |tail| == |data|
      && var f := FieldsAt(data, pos, n - |es|, SetAll(es, NEW_SNAPSHOT));
         f.res.Err? ==> Decode(data) == f.res
  {
    hide Head, TypedAt, FieldsAt, SetAll, Encodable, Entries, At;
    var data := Announced(n, es, tail);
    AtEmbed([], data, []);
    assert [] + data + [] == data;
    AtSplit(data, 0, Head(5, n), Entries(es) + tail);
    AtSplit(data, |Head(5, n)|, Entries(es), tail);
    TypedRoundTrip(data, 0, 5, n, 707);
    EntriesRun(data, |Head(5, n)|, es, n, NEW_SNAPSHOT);
    pos := |Head(5, n)| + |Entries(es)|;
  }

  lemma FieldsStop(data: Bytes, pos: nat, n: nat, s: Snapshot)
    requires pos <= |data| && n > 0
    ensures UintAt(data, pos).res.Err? ==> FieldsAt(data, pos, n, s).res == Err(UintAt(data, pos).res.code)
    ensures UintAt(data, pos).res.Ok? ==>
      var k := UintAt(data, pos);
      FieldAt(data, k.pos, k.res.value, s).res.Err? ==> FieldsAt(data, pos, n, s).res == FieldAt(data, k.pos, k.res.value, s).res
  {
    hide TypedAt, FieldAt;
  }

  lemma NothingThere(data: Bytes)
    ensures UintAt(data, |data|) == Step(Err(700), |data|)
  {}

  /** After any good entries: an entry that is missing, or whose key is no number. */
  lemma BadKeyRefused(n: nat, es: seq<Entry>, major: nat, val: nat, rest: Bytes)
    requires |es| < n < MAX64 && (forall e :: e in es ==> Encodable(e)) && 0 < major < 8 && val < MAX64
    ensures Decode(Announced(n, es, [])) == Err(700)
    ensures Decode(Announced(n, es, Head(major, val) + rest)) == Err(702)
  {
    hide Head, FieldsAt, Decode, Announced, At, TypedAt;
    var end := AfterEntries(n, es, []);
    var data := Announced(n, es, []);
    NothingThere(data);
    FieldsStop(data, end, n - |es|, SetAll(es, NEW_SNAPSHOT));
    var tail := Head(major, val) + rest;
    var pos := AfterEntries(n, es, tail);
    var data' := Announced(n, es, tail);
    AtSplit(data', pos, Head(major, val), rest);
    WrongType(data', pos, major, val, 0, 702);
    FieldsStop(data', pos, n - |es|, SetAll(es, NEW_SNAPSHOT));
  }

  /** A field that fails where it stands decides the whole message. */
  lemma FieldDecides(n: nat, es: seq<Entry>, key: nat, item: Bytes) returns (pos: nat)
    requires |es| < n < MAX64 && (forall e :: e in es ==> Encodable(e)) && key < MAX64
    ensures var data := Announced(n, es, Head(0, key) + item);
      && At(data, pos, item) && pos + |item| == |data|
      && var f := FieldAt(data, pos, key, SetAll(es, NEW_SNAPSHOT));
         f.res.Err? ==> Decode(data) == f.res
  {
    hide Head, FieldsAt, FieldAt, Decode, Announced, At, TypedAt, SetAll;
    var p := AfterEntries(n, es, Head(0, key) + item);
    var data := Announced(n, es, Head(0, key) + item);
    AtSplit(data, p, Head(0, key), item);
    TypedRoundTrip(data, p, 0, key, 702);
    FieldsStop(data, p, n - |es|, SetAll(es, NEW_SNAPSHOT));
    pos := p + |Head(0, key)|;
  }

  /** After any good entries: a known key whose value has another type, or an unknown one that cannot be skipped. */
  lemma BadValueRefused(n: nat, es: seq<Entry>, key: nat, major: nat, val: nat, rest: Bytes)
    requires |es| < n < MAX64 && (forall e :: e in es ==> Encodable(e)) && key < MAX64 && major < 8 && val < MAX64
    ensures var r := Decode(Announced(n, es, Head(0, key) + (Head(major, val) + rest)));
      && (key in {1, 2} && major != 3 ==> r == Err(705))
      && (key in {4, 9} && major != 2 ==> r == Err(704))
      && (key in {3, 7, 8, 10, 12, 14} && major != 0 ==> r == Err(702))
      && (key in {5, 6, 13} && major != 4 ==> r == Err(706))
      && (key == 11 && major != 5 ==> r == Err(707))
      && ((key == 0 || key > 14) && major == 6 ==> r == Err(708))
  {
    hide Head, Decode, Announced, At, SetAll, FieldAt;
    var pos := FieldDecides(n, es, key, Head(major, val) + rest);
    var data := Announced(n, es, Head(0, key) + (Head(major, val) + rest));
    AtSplit(data, pos, Head(major, val), rest);
    FieldRefuses(data, pos, key, major, val, SetAll(es, NEW_SNAPSHOT));
  }

  lemma FieldRefuses(data: Bytes, pos: nat, key: nat, major: nat, val: nat, s: Snapshot)
    requires major < 8 && val < MAX64 && At(data, pos, Head(major, val))
    ensures key in {1, 2} && major != 3 ==> FieldAt(data, pos, key, s).res == Err(705)
    ensures key in {4, 9} && major != 2 ==> FieldAt(data, pos, key, s).res == Err(704)
    ensures key in {3, 7, 8, 10, 12, 14} && major != 0 ==> FieldAt(data, pos, key, s).res == Err(702)
    ensures key in {5, 6, 13} && major != 4 ==> FieldAt(data, pos, key, s).res == Err(706)
    ensures key == 11 && major != 5 ==> FieldAt(data, pos, key, s).res == Err(707)
    ensures (key == 0 || key > 14) && major == 6 ==> FieldAt(data, pos, key, s).res == Err(708)
  {
    hide Head, HeadAt, AuthoritiesAt, SeedsAt, OpcodesAt, HealthFieldsAt, SkipAt;
    HeadRoundTrip(data, pos, major, val);
    SkipOutcome(data, pos, []);
  }

  /** What is not a map at all. */
  lemma NoMapRefused(major: nat, val: nat, rest: Bytes)
    requires major < 8 && major != 5 && val < MAX64
    ensures Decode([]) == Err(700) && Decode(Head(major, val) + rest) == Err(707)
  {
    hide Head, TypedAt;
    assert MapSizeAt([], 0) == Step(Err(700), 0) by { HeadOutcome([], 0); ReadOutcomes([], 0); }
    var data := Head(major, val) + rest;
    AtEmbed([], Head(major, val), rest);
    assert [] + Head(major, val) + rest == data;
    WrongType(data, 0, major, val, 5, 707);
  }

  // ---------- inside the nested maps and lists

  lemma AfterAuthorityEntries(data: Bytes, pos: nat, n: nat, es: seq<AuthorityEntry>, tail: Bytes) returns (p: nat)
    requires |es| < n < MAX64 && (forall e :: e in es ==> EncodableA(e))
    requires At(data, pos, Head(5, n) + (EntriesA(es) + tail))
    ensures At(data, p, tail) && AuthorityAt(data, pos) == AuthorityFieldsAt(data, p, n - |es|, AuthorityFrom(es, Authority([], [])))
  {
    hide Head, At, EntriesA, EncodableA, TypedAt, AuthorityFieldsAt, LastOr;
    var h := Head(5, n);
    AtSplit(data, pos, h, EntriesA(es) + tail);
    AtSplit(data, pos + |h|, EntriesA(es), tail);
    TypedRoundTrip(data, pos, 5, n, 707);
    RunA(data, pos + |h|, es, n, Authority([], []));
    p := pos + |h| + |EntriesA(es)|;
  }

  lemma AuthorityFieldRefused(data: Bytes, pos: nat, n: nat, key: nat, major: nat, val: nat, a: Authority)
    requires n > 0 && key < MAX64 && major < 8 && val < MAX64 && At(data, pos, Head(0, key) + Head(major, val))
    ensures key in {1, 2} && major != 3 ==> AuthorityFieldsAt(data, pos, n, a).res == Err(705)
    ensures key !in {1, 2} && major == 6 ==> AuthorityFieldsAt(data, pos, n, a).res == Err(708)
  {
    hide Head, At, HeadAt, SkipAt;
    AtSplit(data, pos, Head(0, key), Head(major, val));
    TypedRoundTrip(data, pos, 0, key, 702);
    HeadRoundTrip(data, pos + |Head(0, key)|, major, val);
    SkipOutcome(data, pos + |Head(0, key)|, []);
  }

  lemma AuthorityFieldKeyRefused(data: Bytes, pos: nat, n: nat, major: nat, val: nat, a: Authority)
    requires n > 0 && 0 < major < 8 && val < MAX64 && At(data, pos, Head(major, val))
    ensures AuthorityFieldsAt(data, pos, n, a).res == Err(702)
  {
    hide Head, At, TypedAt;
    WrongType(data, pos, major, val, 0, 702);
  }

  /** An authority map with a bad value after good entries fails with that value's code. */
  lemma AuthorityValueRefused(data: Bytes, pos: nat, n: nat, es: seq<AuthorityEntry>, key: nat, major: nat, val: nat)
    requires |es| < n < MAX64 && (forall e :: e in es ==> EncodableA(e)) && key < MAX64 && major < 8 && val < MAX64
    requires At(data, pos, Head(5, n) + (EntriesA(es) + (Head(0, key) + Head(major, val))))
    ensures key in {1, 2} && major != 3 ==> AuthorityAt(data, pos).res == Err(705)
    ensures key !in {1, 2} && major == 6 ==> AuthorityAt(data, pos).res == Err(708)
  {
    hide *;
    var p := AfterAuthorityEntries(data, pos, n, es, Head(0, key) + Head(major, val));
    AuthorityFieldRefused(data, p, n - |es|, key, major, val, AuthorityFrom(es, Authority([], [])));
  }

  /** And with a key that is no number. */
  lemma AuthorityKeyRefused(data: Bytes, pos: nat, n: nat, es: seq<AuthorityEntry>, major: nat, val: nat)
    requires |es| < n < MAX64 && (forall e :: e in es ==> EncodableA(e)) && 0 < major < 8 && val < MAX64
    requires At(data, pos, Head(5, n) + (EntriesA(es) + Head(major, val)))
    ensures AuthorityAt(data, pos).res == Err(702)
  {
    hide *;
    var p := AfterAuthorityEntries(data, pos, n, es, Head(major, val));
    AuthorityFieldKeyRefused(data, p, n - |es|, major, val, AuthorityFrom(es, Authority([], [])));
  }

  lemma AuthorityNoMap(data: Bytes, pos: nat, major: nat, val: nat)
    requires major < 8 && major != 5 && val < MAX64 && At(data, pos, Head(major, val))
    ensures AuthorityAt(data, pos).res == Err(707)
  {
    hide Head, At, TypedAt;
    WrongType(data, pos, major, val, 5, 707);
  }

  lemma AfterHealthEntries(data: Bytes, pos: nat, n: nat, es: seq<HealthEntry>, tail: Bytes) returns (p: nat)
    requires |es| < n < MAX64 && (forall e :: e in es ==> EncodableH(e))
    requires At(data, pos, Head(5, n) + (EntriesH(es) + tail))
    ensures At(data, p, tail) && HealthAt(data, pos) == HealthFieldsAt(data, p, n - |es|, HealthFrom(es, Health([], false)))
  {
    hide Head, At, EntriesH, EncodableH, TypedAt, HealthFieldsAt, LastOr;
    var h := Head(5, n);
    AtSplit(data, pos, h, EntriesH(es) + tail);
    AtSplit(data, pos + |h|, EntriesH(es), tail);
    TypedRoundTrip(data, pos, 5, n, 707);
    RunH(data, pos + |h|, es, n, Health([], false));
    p := pos + |h| + |EntriesH(es)|;
  }

  lemma HealthFieldRefused(data: Bytes, pos: nat, n: nat, key: nat, major: nat, val: nat, a: Health)
    requires n > 0 && key < MAX64 && major < 8 && val < MAX64 && At(data, pos, Head(0, key) + Head(major, val))
    ensures key == 1 && major != 3 ==> HealthFieldsAt(data, pos, n, a).res == Err(705)
    ensures key == 2 && major != 0 ==> HealthFieldsAt(data, pos, n, a).res == Err(702)
    ensures key !in {1, 2} && major == 6 ==> HealthFieldsAt(data, pos, n, a).res == Err(708)
  {
    hide Head, At, HeadAt, SkipAt;
    AtSplit(data, pos, Head(0, key), Head(major, val));
    TypedRoundTrip(data, pos, 0, key, 702);
    HeadRoundTrip(data, pos + |Head(0, key)|, major, val);
    SkipOutcome(data, pos + |Head(0, key)|, []);
  }

  lemma HealthFieldKeyRefused(data: Bytes, pos: nat, n: nat, major: nat, val: nat, a: Health)
    requires n > 0 && 0 < major < 8 && val < MAX64 && At(data, pos, Head(major, val))
    ensures HealthFieldsAt(data, pos, n, a).res == Err(702)
  {
    hide Head, At, TypedAt;
    WrongType(data, pos, major, val, 0, 702);
  }

  /** A health map with a bad value after good entries fails with that value's code. */
  lemma HealthValueRefused(data: Bytes, pos: nat, n: nat, es: seq<HealthEntry>, key: nat, major: nat, val: nat)
    requires |es| < n < MAX64 && (forall e :: e in es ==> EncodableH(e)) && key < MAX64 && major < 8 && val < MAX64
    requires At(data, pos, Head(5, n) + (EntriesH(es) + (Head(0, key) + Head(major, val))))
    ensures key == 1 && major != 3 ==> HealthAt(data, pos).res == Err(705)
    ensures key == 2 && major != 0 ==> HealthAt(data, pos).res == Err(702)
    ensures key !in {1, 2} && major == 6 ==> HealthAt(data, pos).res == Err(708)
  {
    hide *;
    var p := AfterHealthEntries(data, pos, n, es, Head(0, key) + Head(major, val));
    HealthFieldRefused(data, p, n - |es|, key, major, val, HealthFrom(es, Health([], false)));
  }

  /** And with a key that is no number. */
  lemma HealthKeyRefused(data: Bytes, pos: nat, n: nat, es: seq<HealthEntry>, major: nat, val: nat)
    requires |es| < n < MAX64 && (forall e :: e in es ==> EncodableH(e)) && 0 < major < 8 && val < MAX64
    requires At(data, pos, Head(5, n) + (EntriesH(es) + Head(major, val)))
    ensures HealthAt(data, pos).res == Err(702)
  {
    hide *;
    var p := AfterHealthEntries(data, pos, n, es, Head(major, val));
    HealthFieldKeyRefused(data, p, n - |es|, major, val, HealthFrom(es, Health([], false)));
  }

  lemma HealthNoMap(data: Bytes, pos: nat, major: nat, val: nat)
    requires major < 8 && major != 5 && val < MAX64 && At(data, pos, Head(major, val))
    ensures HealthAt(data, pos).res == Err(707)
  {
    hide Head, At, TypedAt;
    WrongType(data, pos, major, val, 5, 707);
  }

  /** A health map that fails makes the message fail with its code. */
  lemma HealthDecides(n: nat, es: seq<Entry>, item: Bytes) returns (pos: nat)
    requires |es| < n < MAX64 && (forall e :: e in es ==> Encodable(e))
    ensures var data := Announced(n, es, Head(0, 11) + item);
      pos <= |data| && At(data, pos, item) && (HealthAt(data, pos).res.Err? ==> Decode(data) == Err(HealthAt(data, pos).res.code))
  {
    hide Head, Decode, Announced, At, SetAll, HealthAt, AuthoritiesAt, SeedsAt, OpcodesAt;
    pos := FieldDecides(n, es, 11, item);
  }

  /** A list of authorities or opcodes that fails makes the message fail with its code. */
  lemma ListDecides(n: nat, es: seq<Entry>, key: nat, count: nat, items: Bytes) returns (pos: nat)
    requires |es| < n < MAX64 && (forall e :: e in es ==> Encodable(e)) && count < MAX64
    ensures var data := Announced(n, es, Head(0, key) + (Head(4, count) + items));
      && pos <= |data|
      && (key in {5, 13} ==> At(data, pos, items))
      && (key == 5 ==> var a := AuthoritiesAt(data, pos, count, SetAll(es, NEW_SNAPSHOT).authorities);
            a.res.Err? ==> Decode(data) == Err(a.res.code))
      && (key == 13 ==> var o := OpcodesAt(data, pos, count, SetAll(es, NEW_SNAPSHOT).opcodes);
            o.res.Err? ==> Decode(data) == Err(o.res.code))
  {
    hide Head, Decode, Announced, At, SetAll, HealthAt, AuthoritiesAt, SeedsAt, OpcodesAt, TypedAt;
    pos := 0;
    if key in {5, 13} {
      var p := FieldDecides(n, es, key, Head(4, count) + items);
      var data := Announced(n, es, Head(0, key) + (Head(4, count) + items));
      AtSplit(data, p, Head(4, count), items);
      TypedRoundTrip(data, p, 4, count, 706);
      pos := p + |Head(4, count)|;
    }
  }

  /** In a list of authorities the first bad one decides. */
  lemma {:induction false} AuthoritiesRefused(data: Bytes, pos: nat, n: nat, ms: seq<seq<AuthorityEntry>>, acc: seq<Authority>)
    requires |ms| < n && (forall i :: 0 <= i < |ms| ==> EncodableMapA(ms[i])) && At(data, pos, ListA(ms))
    ensures var next := pos + |ListA(ms)|;
      AuthorityAt(data, next).res.Err? ==> AuthoritiesAt(data, pos, n, acc).res == Err(AuthorityAt(data, next).res.code)
    decreases |ms|
  {
    hide At, MapA, AuthorityAt, LastOr;
    if ms != [] {
      AtSplit(data, pos, MapA(ms[0]), ListA(ms[1..]));
      assert EncodableMapA(ms[0]);
      AuthorityMap(data, pos, ms[0]);
      AuthoritiesRefused(data, pos + |MapA(ms[0])|, n - 1, ms[1..], acc + [AuthorityAt(data, pos).res.value]);
    }
  }

  /** In a list of opcodes the first that is no number decides. */
  lemma {:induction false} OpcodesRefused(data: Bytes, pos: nat, n: nat, ns: seq<nat>, acc: seq<nat>)
    requires |ns| < n && (forall i :: 0 <= i < |ns| ==> ns[i] < MAX64) && At(data, pos, ListO(ns))
    ensures var next := pos + |ListO(ns)|;
      UintAt(data, next).res.Err? ==> OpcodesAt(data, pos, n, acc).res == Err(UintAt(data, next).res.code)
    decreases |ns|
  {
    hide Head, At, TypedAt;
    if ns != [] {
      AtSplit(data, pos, Head(0, ns[0]), ListO(ns[1..]));
      TypedRoundTrip(data, pos, 0, ns[0], 702);
      OpcodesRefused(data, pos + |Head(0, ns[0])|, n - 1, ns[1..], acc + [ns[0] % 256]);
    }
  }

  // ---------- the seed loops never fail

  /** A seed that is no map adds a default seed and ends the list behind its head. */
  lemma {:induction false} SeedsEndAtBadMap(data: Bytes, pos: nat, n: nat, ms: seq<seq<SeedEntry>>, major: nat, val: nat, acc: seq<Seed>)
    requires |ms| < n && (forall i :: 0 <= i < |ms| ==> EncodableMapS(ms[i])) && major < 8 && major != 5 && val < MAX64
    requires At(data, pos, ListS(ms) + Head(major, val))
    ensures SeedsAt(data, pos, n, acc) ==
      Stop(acc + SeedsIn(ms) + [Seed([], [], 100, 0x3FF0_0000_0000_0000)], pos + |ListS(ms) + Head(major, val)|)
    decreases |ms|
  {
    hide At, MapS, SeedFieldsAt, LastOr, TypedAt, Head;
    if ms == [] {
      assert ListS(ms) + Head(major, val) == Head(major, val);
      WrongType(data, pos, major, val, 5, 707);
      assert acc + SeedsIn(ms) == acc;
    } else {
      var rest := ListS(ms[1..]) + Head(major, val);
      Regroup(MapS(ms[0]), ListS(ms[1..]), Head(major, val));
      AtSplit(data, pos, MapS(ms[0]), rest);
      assert EncodableMapS(ms[0]);
      SeedMap(data, pos, ms[0]);
      var d := SeedFrom(ms[0], NEW_SEED);
      SeedsEndAtBadMap(data, pos + |MapS(ms[0])|, n - 1, ms[1..], major, val, acc + [d]);
      assert acc + [d] + SeedsIn(ms[1..]) == acc + SeedsIn(ms);
    }
  }

  /** A key that is no number ends a seed behind it, with what was read so far. */
  lemma SeedEndsAtBadKey(data: Bytes, pos: nat, n: nat, es: seq<SeedEntry>, major: nat, val: nat, d: Seed)
    requires |es| < n && (forall e :: e in es ==> EncodableS(e)) && 0 < major < 8 && val < MAX64
    requires At(data, pos, EntriesS(es) + Head(major, val))
    ensures SeedFieldsAt(data, pos, n, d) == Stop(SeedFrom(es, d), pos + |EntriesS(es) + Head(major, val)|)
  {
    hide Head, At, EntriesS, TypedAt, LastOr;
    AtSplit(data, pos, EntriesS(es), Head(major, val));
    RunS(data, pos, es, n, d);
    WrongType(data, pos + |EntriesS(es)|, major, val, 0, 702);
  }
}
