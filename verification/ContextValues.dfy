/** The recursive value of the CBOR pipeline and its codec. Doubles are 64-bit patterns. */
module ContextValues {
  import opened Results
  import opened ByteStrings
  import opened Cbor

  datatype Value =
    | Nil
    | Bool(b: bool)
    | Int(i: int)
    | Float(bits: nat)
    | Str(s: Bytes)
    | Blob(blob: Bytes)
    | Array(items: seq<Value>)
    | Map(entries: seq<Entry>)

  /** A std::map is its entries in iteration order, which is key order. */
  datatype Entry = Entry(key: Bytes, value: Value)

  ghost predicate Sorted(es: seq<Entry>) {
    forall i, j :: 0 <= i < j < |es| ==> Less(es[i].key, es[j].key)
  }

  /** The values the C++ types can hold. */
  ghost predicate WellFormed(v: Value) {
    match v
    case Nil => true
    case Bool(_) => true
    case Int(i) => Int64(i)
    case Float(bits) => bits < MAX64
    case Str(s) => |s| < MAX64
    case Blob(b) => |b| < MAX64
    case Array(items) => |items| < MAX64 && forall x :: x in items ==> WellFormed(x)
    case Map(es) => |es| < MAX64 && Sorted(es) && forall e :: e in es ==> |e.key| < MAX64 && WellFormed(e.value)
  }

  // ---------- encoding

  function Encode(v: Value): Bytes
    decreases v, 1
  {
    match v
    case Nil => [0xF6]
    case Bool(b) => if b then [0xF5] else [0xF4]
    case Int(i) => IntItem(i)
    case Float(bits) => [0xFB] + BigEndian(bits, 8)
    case Str(s) => StringItem(s)
    case Blob(b) => BytesItem(b)
    case Array(items) => Head(4, |items|) + EncodeItems(items)
    case Map(es) => Head(5, |es|) + EncodeEntries(es)
  }

  function EncodeItems(items: seq<Value>): Bytes
    decreases items, 0
  {
    if items == [] then [] else Encode(items[0]) + EncodeItems(items[1..])
  }

  function EncodeEntries(es: seq<Entry>): Bytes
    decreases es, 0
  {
    if es == [] then [] else StringItem(es[0].key) + Encode(es[0].value) + EncodeEntries(es[1..])
  }

  // ---------- decoding

  /** std::map::emplace: a key already present keeps its value. */
  function Emplace(es: seq<Entry>, key: Bytes, value: Value): seq<Entry> {
    if es == [] then [Entry(key, value)]
    else if es[0].key == key then es
    else if Less(key, es[0].key) then [Entry(key, value)] + es
    else [es[0]] + Emplace(es[1..], key, value)
  }

  function ValueAt(data: Bytes, pos: nat): (s: Step<Value>)
    requires pos <= |data|
    ensures pos <= s.pos <= |data|
    ensures s.res.Ok? ==> pos < s.pos
    decreases |data| - pos, 0
  {
    if pos >= |data| then Step(Err(700), pos)
    else
      var major, ai := data[pos] / 32, data[pos] % 32;
      if major == 7 then
        if ai == 20 then Step(Ok(Bool(false)), pos + 1)
        else if ai == 21 then Step(Ok(Bool(true)), pos + 1)
        else if ai == 22 then Step(Ok(Nil), pos + 1)
        else if ai == 27 then
          if |data| - pos < 9 then Step(Err(700), pos)
          else Step(Ok(Float(FromBigEndian(data[pos + 1..pos + 9]))), pos + 9)
        else Step(Err(708), pos)
      else if major == 0 then
        var u := UintAt(data, pos);
        HeadAtBound(data, pos);
        if u.res.Err? then Step(Err(u.res.code), u.pos) else Step(Ok(Int(ToInt64(u.res.value))), u.pos)
      else if major == 1 then
        var i := IntAt(data, pos);
        if i.res.Err? then Step(Err(i.res.code), i.pos) else Step(Ok(Int(i.res.value)), i.pos)
      else if major == 2 then
        var b := BytesAt(data, pos);
        if b.res.Err? then Step(Err(b.res.code), b.pos) else Step(Ok(Blob(b.res.value)), b.pos)
      else if major == 3 then
        var b := StringAt(data, pos);
        if b.res.Err? then Step(Err(b.res.code), b.pos) else Step(Ok(Str(b.res.value)), b.pos)
      else if major == 4 then
        var n := ArraySizeAt(data, pos);
        if n.res.Err? then Step(Err(n.res.code), n.pos)
        else
          var items := ItemsAt(data, n.pos, n.res.value, []);
          if items.res.Err? then Step(Err(items.res.code), items.pos) else Step(Ok(Array(items.res.value)), items.pos)
      else if major == 5 then
        var n := MapSizeAt(data, pos);
        if n.res.Err? then Step(Err(n.res.code), n.pos)
        else
          var es := EntriesAt(data, n.pos, n.res.value, []);
          if es.res.Err? then Step(Err(es.res.code), es.pos) else Step(Ok(Map(es.res.value)), es.pos)
      else Step(Err(708), pos)
  }

  function ItemsAt(data: Bytes, pos: nat, n: nat, acc: seq<Value>): (s: Step<seq<Value>>)
    requires pos <= |data|
    ensures pos <= s.pos <= |data|
    decreases |data| - pos, 1
  {
    if n == 0 then Step(Ok(acc), pos)
    else
      var v := ValueAt(data, pos);
      if v.res.Err? then Step(Err(v.res.code), v.pos) else ItemsAt(data, v.pos, n - 1, acc + [v.res.value])
  }

  function EntriesAt(data: Bytes, pos: nat, n: nat, acc: seq<Entry>): (s: Step<seq<Entry>>)
    requires pos <= |data|
    ensures pos <= s.pos <= |data|
    decreases |data| - pos, 1
  {
    if n == 0 then Step(Ok(acc), pos)
    else
      var k := StringAt(data, pos);
      if k.res.Err? then Step(Err(k.res.code), k.pos)
      else
        var v := ValueAt(data, k.pos);
        if v.res.Err? then Step(Err(v.res.code), v.pos)
        else EntriesAt(data, v.pos, n - 1, Emplace(acc, k.res.value, v.res.value))
  }

  // ---------- round trip

  lemma {:induction false} EmplaceLast(es: seq<Entry>, key: Bytes, value: Value)
    requires forall i :: 0 <= i < |es| ==> Less(es[i].key, key)
    ensures Emplace(es, key, value) == es + [Entry(key, value)]
    decreases |es|
  {
    hide Less;
    if es != [] {
      var k := es[0].key;
      assert Less(k, key);
      LessIrreflexive(key);
      if Less(key, k) { LessTransitive(key, k, key); }
      EmplaceLast(es[1..], key, value);
    }
  }

  lemma EmplaceNext(acc: seq<Entry>, es: seq<Entry>)
    requires es != [] && Sorted(acc + es)
    ensures Emplace(acc, es[0].key, es[0].value) == acc + [es[0]]
  {
    hide Less, Emplace;
    forall i | 0 <= i < |acc| ensures Less(acc[i].key, es[0].key) {
      assert (acc + es)[i] == acc[i] && (acc + es)[|acc|] == es[0];
    }
    EmplaceLast(acc, es[0].key, es[0].value);
  }

  lemma RoundTripInt(data: Bytes, pos: nat, i: int)
    requires Int64(i) && At(data, pos, IntItem(i))
    ensures ValueAt(data, pos) == Step(Ok(Int(i)), pos + |IntItem(i)|)
  {
    hide Head, HeadAt;
    if i >= 0 {
      HeadRoundTrip(data, pos, 0, i);
    } else {
      HeadRoundTrip(data, pos, 1, -1 - i);
    }
  }

  lemma RoundTripFloat(data: Bytes, pos: nat, bits: nat)
    requires bits < MAX64 && At(data, pos, [0xFB] + BigEndian(bits, 8))
    ensures ValueAt(data, pos) == Step(Ok(Float(bits)), pos + 9)
  {
    hide BigEndian, FromBigEndian;
    AtSplit(data, pos, [0xFB], BigEndian(bits, 8));
    AtByte(data, pos, [0xFB], 0);
    BigEndianRoundTrip(bits, 8) by { Powers(); }
  }

  lemma {:induction false} RoundTrip(data: Bytes, pos: nat, v: Value)
    requires WellFormed(v) && At(data, pos, Encode(v))
    ensures ValueAt(data, pos) == Step(Ok(v), pos + |Encode(v)|)
    decreases v, 1
  {
    match v
    case Nil => AtByte(data, pos, [0xF6], 0);
    case Bool(b) => AtByte(data, pos, Encode(v), 0);
    case Int(i) =>
      hide ValueAt;
      RoundTripInt(data, pos, i);
    case Float(bits) =>
      hide ValueAt, BigEndian;
      RoundTripFloat(data, pos, bits);
    case Str(s) =>
      hide ValueAt;
      RoundTripStr(data, pos, s);
    case Blob(b) =>
      hide ValueAt;
      RoundTripBlob(data, pos, b);
    case Array(items) =>
      hide ValueAt, EncodeItems, Head;
      RoundTripArray(data, pos, items);
    case Map(es) =>
      hide ValueAt, EncodeEntries, Head;
      RoundTripMap(data, pos, es);
  }

  lemma RoundTripStr(data: Bytes, pos: nat, s: Bytes)
    requires |s| < MAX64 && At(data, pos, StringItem(s))
    ensures ValueAt(data, pos) == Step(Ok(Str(s)), pos + |StringItem(s)|)
  {
    hide Head, HeadAt, BlobAt;
    BlobRoundTrip(data, pos, 3, s, 705);
  }

  lemma RoundTripBlob(data: Bytes, pos: nat, b: Bytes)
    requires |b| < MAX64 && At(data, pos, BytesItem(b))
    ensures ValueAt(data, pos) == Step(Ok(Blob(b)), pos + |BytesItem(b)|)
  {
    hide Head, HeadAt, BlobAt;
    BlobRoundTrip(data, pos, 2, b, 704);
  }

  lemma {:induction false} RoundTripArray(data: Bytes, pos: nat, items: seq<Value>)
    requires |items| < MAX64 && (forall x :: x in items ==> WellFormed(x))
    requires At(data, pos, Head(4, |items|) + EncodeItems(items))
    ensures ValueAt(data, pos) == Step(Ok(Array(items)), pos + |Head(4, |items|) + EncodeItems(items)|)
    decreases items, 1
  {
    hide Head, HeadAt, TypedAt, EncodeItems, ItemsAt, WellFormed;
    AtSplit(data, pos, Head(4, |items|), EncodeItems(items));
    TypedRoundTrip(data, pos, 4, |items|, 706);
    RoundTripItems(data, pos + |Head(4, |items|)|, items, []);
    assert [] + items == items;
  }

  lemma {:induction false} RoundTripMap(data: Bytes, pos: nat, es: seq<Entry>)
    requires |es| < MAX64 && Sorted(es) && forall e :: e in es ==> |e.key| < MAX64 && WellFormed(e.value)
    requires At(data, pos, Head(5, |es|) + EncodeEntries(es))
    ensures ValueAt(data, pos) == Step(Ok(Map(es)), pos + |Head(5, |es|) + EncodeEntries(es)|)
    decreases es, 1
  {
    hide Head, HeadAt, TypedAt, EncodeEntries, EntriesAt, Less, WellFormed;
    AtSplit(data, pos, Head(5, |es|), EncodeEntries(es));
    TypedRoundTrip(data, pos, 5, |es|, 707);
    assert [] + es == es;
    RoundTripEntries(data, pos + |Head(5, |es|)|, [], es);
  }

  lemma {:induction false} RoundTripItems(data: Bytes, pos: nat, items: seq<Value>, acc: seq<Value>)
    requires (forall x :: x in items ==> WellFormed(x)) && At(data, pos, EncodeItems(items))
    ensures ItemsAt(data, pos, |items|, acc) == Step(Ok(acc + items), pos + |EncodeItems(items)|)
    decreases items, 0
  {
    hide WellFormed, Encode, ValueAt;
    if items == [] {
      assert acc + items == acc;
    } else {
      AtSplit(data, pos, Encode(items[0]), EncodeItems(items[1..]));
      RoundTrip(data, pos, items[0]);
      RoundTripItems(data, pos + |Encode(items[0])|, items[1..], acc + [items[0]]);
      assert acc + [items[0]] + items[1..] == acc + items;
    }
  }

  lemma {:induction false} RoundTripEntries(data: Bytes, pos: nat, acc: seq<Entry>, es: seq<Entry>)
    requires Sorted(acc + es) && At(data, pos, EncodeEntries(es))
    requires forall e :: e in es ==> |e.key| < MAX64 && WellFormed(e.value)
    ensures EntriesAt(data, pos, |es|, acc) == Step(Ok(acc + es), pos + |EncodeEntries(es)|)
    decreases es, 0
  {
    hide WellFormed, Encode, ValueAt, BlobAt, Head, Sorted, Emplace, At;
    if es == [] {
      assert acc + es == acc;
    } else {
      var k, v := StringItem(es[0].key), Encode(es[0].value);
      AtSplit(data, pos, k + v, EncodeEntries(es[1..]));
      AtSplit(data, pos, k, v);
      BlobRoundTrip(data, pos, 3, es[0].key, 705);
      RoundTrip(data, pos + |k|, es[0].value);
      EmplaceNext(acc, es);
      assert acc + [es[0]] + es[1..] == acc + es;
      RoundTripEntries(data, pos + |k + v|, acc + [es[0]], es[1..]);
    }
  }

  /** Whatever follows, decoding an encoded value gives it back and stops right behind it. */
  lemma DecodeInvertsEncode(v: Value, trailer: Bytes)
    requires WellFormed(v)
    ensures ValueAt(Encode(v) + trailer, 0) == Step(Ok(v), |Encode(v)|)
  {
    hide ValueAt, Encode, WellFormed;
    assert [] + Encode(v) + trailer == Encode(v) + trailer;
    AtEmbed([], Encode(v), trailer);
    RoundTrip(Encode(v) + trailer, 0, v);
  }

  /** No encoding is a proper prefix of another, so encodings are injective too. */
  lemma PrefixFree(v: Value, w: Value)
    requires WellFormed(v) && WellFormed(w) && Encode(v) <= Encode(w)
    ensures v == w
  {
    hide ValueAt, Encode, WellFormed;
    var trailer := Encode(w)[|Encode(v)|..];
    assert Encode(w) == Encode(v) + trailer == Encode(w) + [];
    DecodeInvertsEncode(v, trailer);
    DecodeInvertsEncode(w, []);
  }

  // ---------- what the decoder can produce

  lemma SortedCons(h: Entry, t: seq<Entry>)
    ensures Sorted([h] + t) <==> Sorted(t) && forall e :: e in t ==> Less(h.key, e.key)
  {
    hide Less;
    var es := [h] + t;
    if Sorted(es) {
      forall i, j | 0 <= i < j < |t| ensures Less(t[i].key, t[j].key) { assert t[i] == es[i + 1] && t[j] == es[j + 1]; }
      forall i | 0 <= i < |t| ensures Less(h.key, t[i].key) { assert t[i] == es[i + 1] && h == es[0]; }
    }
    if Sorted(t) && forall e :: e in t ==> Less(h.key, e.key) {
      forall i, j | 0 <= i < j < |es| ensures Less(es[i].key, es[j].key) {
        assert es[j] == t[j - 1];
        if i > 0 { assert es[i] == t[i - 1]; }
      }
    }
  }

  lemma {:induction false} EmplaceSorted(es: seq<Entry>, key: Bytes, value: Value)
    requires Sorted(es)
    ensures Sorted(Emplace(es, key, value)) && |Emplace(es, key, value)| <= |es| + 1
    ensures forall e :: e in Emplace(es, key, value) ==> e in es || e == Entry(key, value)
    ensures forall e :: e in es ==> e in Emplace(es, key, value)
    ensures if exists e :: e in es && e.key == key then Emplace(es, key, value) == es
            else Entry(key, value) in Emplace(es, key, value)
    decreases |es|
  {
    hide Less, Sorted;
    if es == [] {
      SortedEmpty();
      assert [Entry(key, value)] == [Entry(key, value)] + [];
      SortedCons(Entry(key, value), []);
    } else {
      var h, t := es[0], es[1..];
      assert es == [h] + t;
      SortedCons(h, t);
      if h.key != key {
        LessTotal(key, h.key);
        if Less(key, h.key) {
          LessIrreflexive(key);
          forall e | e in es ensures Less(key, e.key) {
            if e != h { LessTransitive(key, h.key, e.key); }
          }
          SortedCons(Entry(key, value), es);
        } else {
          EmplaceSorted(t, key, value);
          SortedCons(h, Emplace(t, key, value));
        }
      }
    }
  }

  lemma SortedEmpty()
    ensures Sorted([])
  {}

  lemma {:induction false} DecodedIsWellFormed(data: Bytes, pos: nat)
    requires pos <= |data| < MAX64
    ensures var s := ValueAt(data, pos); s.res.Ok? ==> WellFormed(s.res.value)
    decreases |data| - pos, 0
  {
    hide HeadAt, FromBigEndian;
    if pos < |data| {
      HeadAtBound(data, pos);
      var major := data[pos] / 32;
      if major == 7 {
        if |data| - pos >= 9 {
          FromBigEndianBound(data[pos + 1..pos + 9]);
          Powers();
        }
      } else if major == 4 {
        var n := ArraySizeAt(data, pos);
        if n.res.Ok? { DecodedItems(data, n.pos, n.res.value, []); }
      } else if major == 5 {
        var n := MapSizeAt(data, pos);
        if n.res.Ok? { DecodedEntries(data, n.pos, n.res.value, []); }
      }
    }
  }

  lemma {:induction false} DecodedItems(data: Bytes, pos: nat, n: nat, acc: seq<Value>)
    requires pos <= |data| < MAX64 && forall x :: x in acc ==> WellFormed(x)
    ensures var s := ItemsAt(data, pos, n, acc);
            s.res.Ok? ==> |s.res.value| == |acc| + n && forall x :: x in s.res.value ==> WellFormed(x)
    decreases |data| - pos, 1
  {
    hide ValueAt, WellFormed;
    if n > 0 {
      var v := ValueAt(data, pos);
      if v.res.Ok? {
        DecodedIsWellFormed(data, pos);
        DecodedItems(data, v.pos, n - 1, acc + [v.res.value]);
      }
    }
  }

  lemma {:induction false} DecodedEntries(data: Bytes, pos: nat, n: nat, acc: seq<Entry>)
    requires pos <= |data| < MAX64 && Sorted(acc)
    requires forall e :: e in acc ==> |e.key| < MAX64 && WellFormed(e.value)
    ensures var s := EntriesAt(data, pos, n, acc);
            s.res.Ok? ==>
              && |s.res.value| <= |acc| + n && Sorted(s.res.value)
              && forall e :: e in s.res.value ==> |e.key| < MAX64 && WellFormed(e.value)
    decreases |data| - pos, 1
  {
    hide ValueAt, WellFormed, Sorted, Emplace, TypedAt;
    if n > 0 {
      var k := StringAt(data, pos);
      if k.res.Ok? {
        var v := ValueAt(data, k.pos);
        if v.res.Ok? {
          DecodedIsWellFormed(data, k.pos);
          EmplaceSorted(acc, k.res.value, v.res.value);
          DecodedEntries(data, v.pos, n - 1, Emplace(acc, k.res.value, v.res.value));
        }
      }
    }
  }

  // ---------- skip

  /** On any bytes at all: where a value decodes, skip succeeds and stops at the same place. */
  lemma {:induction false} SkipFollowsDecode(data: Bytes, pos: nat)
    requires pos <= |data| && ValueAt(data, pos).res.Ok?
    ensures SkipAt(data, pos) == Step(Ok(()), ValueAt(data, pos).pos)
    decreases |data| - pos, 0
  {
    hide FromBigEndian;
    var major := data[pos] / 32;
    if major == 4 {
      hide HeadAt, TypedAt;
      var n := ArraySizeAt(data, pos);
      SkipFollowsItems(data, n.pos, n.res.value, []);
    } else if major == 5 {
      hide HeadAt, TypedAt;
      var n := MapSizeAt(data, pos);
      SkipFollowsEntries(data, n.pos, n.res.value, []);
    }
  }

  lemma {:induction false} SkipFollowsItems(data: Bytes, pos: nat, n: nat, acc: seq<Value>)
    requires pos <= |data| && ItemsAt(data, pos, n, acc).res.Ok?
    ensures SkipManyAt(data, pos, n) == Step(Ok(()), ItemsAt(data, pos, n, acc).pos)
    decreases |data| - pos, 1
  {
    hide ValueAt, SkipAt;
    if n > 0 {
      SkipFollowsDecode(data, pos);
      var v := ValueAt(data, pos);
      SkipFollowsItems(data, v.pos, n - 1, acc + [v.res.value]);
    }
  }

  lemma {:induction false} SkipFollowsEntries(data: Bytes, pos: nat, n: nat, acc: seq<Entry>)
    requires pos <= |data| && EntriesAt(data, pos, n, acc).res.Ok?
    ensures SkipManyAt(data, pos, 2 * n) == Step(Ok(()), EntriesAt(data, pos, n, acc).pos)
    decreases |data| - pos, 1
  {
    hide ValueAt, BlobAt, SkipAt, Emplace;
    if n > 0 {
      var k := StringAt(data, pos);
      SkipString(data, pos);
      SkipFollowsDecode(data, k.pos);
      var v := ValueAt(data, k.pos);
      SkipFollowsEntries(data, v.pos, n - 1, Emplace(acc, k.res.value, v.res.value));
      assert SkipManyAt(data, k.pos, 2 * n - 1) == SkipManyAt(data, v.pos, 2 * n - 2);
    }
  }

  lemma SkipString(data: Bytes, pos: nat)
    requires pos <= |data| && StringAt(data, pos).res.Ok?
    ensures SkipAt(data, pos) == Step(Ok(()), StringAt(data, pos).pos)
  {
    hide HeadAt, TypedAt;
  }

  /** Skip passes over exactly one encoded value, at any nesting depth. */
  lemma SkipExact(data: Bytes, pos: nat, v: Value)
    requires WellFormed(v) && At(data, pos, Encode(v))
    ensures SkipAt(data, pos) == Step(Ok(()), pos + |Encode(v)|)
  {
    hide ValueAt, SkipAt, Encode, WellFormed;
    RoundTrip(data, pos, v);
    SkipFollowsDecode(data, pos);
  }

  /** The head at pos is neither reserved nor cut short. */
  predicate HeadComplete(data: Bytes, pos: nat)
    requires pos < |data|
  {
    data[pos] % 32 <= 27 && pos + 1 + ExtraBytes(data[pos] % 32) <= |data|
  }

  lemma HeadReadsIff(data: Bytes, pos: nat)
    requires pos < |data|
    ensures HeadAt(data, pos).res.Ok? <==> HeadComplete(data, pos)
  {}

  /**
   What decoding asks beyond what skip checks, found by walking the bytes as skip does: integer heads are
   complete, a simple value is false, true, null or a whole double, and map keys are text strings.
   */
  predicate Plain(data: Bytes, pos: nat)
    requires pos <= |data|
    decreases |data| - pos, 0
  {
    pos < |data| &&
    var major, ai := data[pos] / 32, data[pos] % 32;
    if major <= 1 then HeadComplete(data, pos)
    else if major == 7 then 20 <= ai <= 22 || (ai == 27 && pos + 9 <= |data|)
    else if major == 4 then
      var n := ArraySizeAt(data, pos);
      n.res.Ok? ==> PlainItems(data, n.pos, n.res.value)
    else if major == 5 then
      var n := MapSizeAt(data, pos);
      n.res.Ok? ==> PlainEntries(data, n.pos, n.res.value)
    else true
  }

  predicate PlainItems(data: Bytes, pos: nat, n: nat)
    requires pos <= |data|
    decreases |data| - pos, 1
  {
    n == 0 || (Plain(data, pos) && (SkipAt(data, pos).res.Ok? ==> PlainItems(data, SkipAt(data, pos).pos, n - 1)))
  }

  predicate PlainEntries(data: Bytes, pos: nat, n: nat)
    requires pos <= |data|
    decreases |data| - pos, 1
  {
    n == 0
    || (pos < |data| && data[pos] / 32 == 3 &&
        var k := SkipAt(data, pos);
        k.res.Ok? ==>
          Plain(data, k.pos) &&
          var v := SkipAt(data, k.pos);
          v.res.Ok? ==> PlainEntries(data, v.pos, n - 1))
  }

  /** On any bytes at all: decoding succeeds exactly where skip does and the bytes are plain. */
  lemma {:induction false} DecodesIffPlainSkip(data: Bytes, pos: nat)
    requires pos <= |data|
    ensures ValueAt(data, pos).res.Ok? <==> SkipAt(data, pos).res.Ok? && Plain(data, pos)
    decreases |data| - pos, 0
  {
    hide FromBigEndian, HeadAt;
    if pos < |data| {
      HeadReadsIff(data, pos);
      var major := data[pos] / 32;
      if major == 4 {
        hide TypedAt;
        var n := ArraySizeAt(data, pos);
        if n.res.Ok? { ItemsIffPlainSkip(data, n.pos, n.res.value, []); }
      } else if major == 5 {
        hide TypedAt;
        var n := MapSizeAt(data, pos);
        if n.res.Ok? { EntriesIffPlainSkip(data, n.pos, n.res.value, []); }
      }
    }
  }

  lemma {:induction false} ItemsIffPlainSkip(data: Bytes, pos: nat, n: nat, acc: seq<Value>)
    requires pos <= |data|
    ensures ItemsAt(data, pos, n, acc).res.Ok? <==> SkipManyAt(data, pos, n).res.Ok? && PlainItems(data, pos, n)
    decreases |data| - pos, 1
  {
    hide ValueAt, SkipAt, Plain;
    if n > 0 {
      DecodesIffPlainSkip(data, pos);
      var v := ValueAt(data, pos);
      if v.res.Ok? {
        SkipFollowsDecode(data, pos);
        ItemsIffPlainSkip(data, v.pos, n - 1, acc + [v.res.value]);
      }
    }
  }

  lemma {:induction false} EntriesIffPlainSkip(data: Bytes, pos: nat, n: nat, acc: seq<Entry>)
    requires pos <= |data|
    ensures EntriesAt(data, pos, n, acc).res.Ok?
      <==> SkipManyAt(data, pos, 2 * n).res.Ok? && PlainEntries(data, pos, n)
    decreases |data| - pos, 1
  {
    hide ValueAt, BlobAt, SkipAt, Emplace, Plain;
    if n > 0 {
      KeyIffString(data, pos);
      var k := StringAt(data, pos);
      if k.res.Ok? {
        SkipString(data, pos);
        DecodesIffPlainSkip(data, k.pos);
        var v := ValueAt(data, k.pos);
        assert SkipManyAt(data, pos, 2 * n) == SkipManyAt(data, k.pos, 2 * n - 1);
        if v.res.Ok? {
          SkipFollowsDecode(data, k.pos);
          EntriesIffPlainSkip(data, v.pos, n - 1, Emplace(acc, k.res.value, v.res.value));
          assert SkipManyAt(data, k.pos, 2 * n - 1) == SkipManyAt(data, v.pos, 2 * n - 2);
        }
      }
    }
  }

  lemma KeyIffString(data: Bytes, pos: nat)
    requires pos <= |data|
    ensures StringAt(data, pos).res.Ok? <==> SkipAt(data, pos).res.Ok? && data[pos] / 32 == 3
  {
    hide FromBigEndian;
  }

  /**
   Inputs on which skip succeeds and decoding does not: a cut integer head, alone and inside an array, an
   unassigned simple value, and a map whose key is a number.
   */
  lemma SkipAcceptsMore()
    ensures SkipAt([0x18], 0) == Step(Ok(()), 1) && ValueAt([0x18], 0) == Step(Err(700), 1)
    ensures SkipAt([0x81, 0x18], 0).res.Ok? && ValueAt([0x81, 0x18], 0).res.Err?
    ensures SkipAt([0xE0], 0).res.Ok? && ValueAt([0xE0], 0) == Step(Err(708), 0)
    ensures SkipAt([0xA1, 0x00, 0x00], 0).res.Ok? && ValueAt([0xA1, 0x00, 0x00], 0).res.Err?
  {
    NestedHead([0x81, 0x18]);
    NumberKey([0xA1, 0x00, 0x00]);
  }

  lemma NestedHead(data: Bytes)
    requires data == [0x81, 0x18]
    ensures SkipAt(data, 0).res.Ok? && ValueAt(data, 0).res.Err?
  {
    assert ArraySizeAt(data, 0) == Step(Ok(1), 1);
    assert SkipAt(data, 1) == Step(Ok(()), 2);
    assert SkipManyAt(data, 1, 1) == SkipManyAt(data, 2, 0);
    assert ValueAt(data, 1).res.Err?;
  }

  lemma NumberKey(data: Bytes)
    requires data == [0xA1, 0x00, 0x00]
    ensures SkipAt(data, 0).res.Ok? && ValueAt(data, 0).res.Err?
  {
    assert MapSizeAt(data, 0) == Step(Ok(1), 1);
    assert SkipAt(data, 1) == Step(Ok(()), 2) && SkipAt(data, 2) == Step(Ok(()), 3);
    assert SkipManyAt(data, 1, 2) == SkipManyAt(data, 2, 1) == SkipManyAt(data, 3, 0);
    assert StringAt(data, 1).res.Err?;
  }

  // ---------- the wire format of every value

  lemma {:induction false} ItemsJoined(xs: seq<Value>, parts: seq<Bytes>)
    requires |parts| == |xs| && forall i :: 0 <= i < |xs| ==> parts[i] == Encode(xs[i])
    ensures EncodeItems(xs) == Joined(parts)
    decreases |xs|
  {
    if xs != [] { ItemsJoined(xs[1..], parts[1..]); }
  }

  lemma {:induction false} EntriesJoined(es: seq<Entry>, parts: seq<Bytes>)
    requires |parts| == |es|
    requires forall i :: 0 <= i < |es| ==> parts[i] == Head(3, |es[i].key|) + es[i].key + Encode(es[i].value)
    ensures EncodeEntries(es) == Joined(parts)
    decreases |es|
  {
    if es != [] { EntriesJoined(es[1..], parts[1..]); }
  }

  /** The bytes of a value, constructor by constructor; `parts` are the encodings of its items or entries. */
  lemma EncodeLayout(v: Value, parts: seq<Bytes>)
    requires WellFormed(v)
    ensures v.Nil? ==> Encode(v) == [0xF6]
    ensures v.Bool? ==> Encode(v) == [if v.b then 0xF5 else 0xF4]
    ensures v.Int? && v.i >= 0 ==> Encode(v) == Head(0, v.i)
    ensures v.Int? && v.i < 0 ==> Encode(v) == Head(1, -1 - v.i)
    ensures v.Float? ==>
      Encode(v) == [0xFB, v.bits / 0x100_0000_0000_0000 % 256, v.bits / 0x1_0000_0000_0000 % 256,
                    v.bits / 0x100_0000_0000 % 256, v.bits / 0x1_0000_0000 % 256, v.bits / 0x100_0000 % 256,
                    v.bits / 0x1_0000 % 256, v.bits / 0x100 % 256, v.bits % 256]
    ensures v.Str? ==> Encode(v) == Head(3, |v.s|) + v.s
    ensures v.Blob? ==> Encode(v) == Head(2, |v.blob|) + v.blob
    ensures v.Array? && |parts| == |v.items| && (forall i :: 0 <= i < |parts| ==> parts[i] == Encode(v.items[i])) ==>
      Encode(v) == Head(4, |v.items|) + Joined(parts)
    ensures (v.Map? && |parts| == |v.entries| && forall i :: 0 <= i < |parts| ==>
               parts[i] == Head(3, |v.entries[i].key|) + v.entries[i].key + Encode(v.entries[i].value)) ==>
      Encode(v) == Head(5, |v.entries|) + Joined(parts)
  {
    hide Head, BigEndian;
    if v.Float? {
      BigEndian8(v.bits);
    } else if v.Array? && |parts| == |v.items| && (forall i :: 0 <= i < |parts| ==> parts[i] == Encode(v.items[i])) {
      ItemsJoined(v.items, parts);
    } else if v.Map? && |parts| == |v.entries| && forall i :: 0 <= i < |parts| ==>
                parts[i] == Head(3, |v.entries[i].key|) + v.entries[i].key + Encode(v.entries[i].value) {
      EntriesJoined(v.entries, parts);
    }
  }

  // ---------- decoding any bytes

  /** Scalars, strings and what is not a value: result, code and position. */
  lemma ScalarOutcome(data: Bytes, pos: nat)
    requires pos <= |data|
    ensures pos == |data| ==> ValueAt(data, pos) == Step(Err(700), pos)
    ensures pos < |data| && data[pos] == 0xF4 ==> ValueAt(data, pos) == Step(Ok(Bool(false)), pos + 1)
    ensures pos < |data| && data[pos] == 0xF5 ==> ValueAt(data, pos) == Step(Ok(Bool(true)), pos + 1)
    ensures pos < |data| && data[pos] == 0xF6 ==> ValueAt(data, pos) == Step(Ok(Nil), pos + 1)
    ensures pos + 9 <= |data| && data[pos] == 0xFB ==>
      ValueAt(data, pos) == Step(Ok(Float(FromBigEndian(data[pos + 1..pos + 9]))), pos + 9)
    ensures pos < |data| < pos + 9 && data[pos] == 0xFB ==> ValueAt(data, pos) == Step(Err(700), pos)
    ensures pos < |data| && data[pos] >= 0xC0 && data[pos] !in {0xF4, 0xF5, 0xF6, 0xFB} ==>
      ValueAt(data, pos) == Step(Err(708), pos)
    ensures pos < |data| && data[pos] < 0x40 ==>
      var i := IntAt(data, pos);
      ValueAt(data, pos) == Step(if i.res.Ok? then Ok(Int(i.res.value)) else Err(i.res.code), i.pos)
    ensures pos < |data| && 0x40 <= data[pos] < 0x60 ==>
      var b := BytesAt(data, pos);
      ValueAt(data, pos) == Step(if b.res.Ok? then Ok(Blob(b.res.value)) else Err(b.res.code), b.pos)
    ensures pos < |data| && 0x60 <= data[pos] < 0x80 ==>
      var b := StringAt(data, pos);
      ValueAt(data, pos) == Step(if b.res.Ok? then Ok(Str(b.res.value)) else Err(b.res.code), b.pos)
  {
    hide HeadAt, FromBigEndian, BlobAt;
    HeadAtBound(data, pos);
  }

  /** Values that follow one another at the given positions. */
  ghost predicate ReadsThrough(data: Bytes, ps: seq<nat>, vs: seq<Value>) {
    && |ps| == |vs| + 1 && ps[0] <= |data|
    && forall i :: 0 <= i < |vs| ==> ps[i] <= |data| && ValueAt(data, ps[i]) == Step(Ok(vs[i]), ps[i + 1])
  }

  lemma {:induction false} ItemsFollow(data: Bytes, ps: seq<nat>, vs: seq<Value>, n: nat, acc: seq<Value>)
    requires ReadsThrough(data, ps, vs) && |vs| <= n
    ensures ps[|vs|] <= |data| && ItemsAt(data, ps[0], n, acc) == ItemsAt(data, ps[|vs|], n - |vs|, acc + vs)
    decreases |vs|
  {
    hide ValueAt;
    if vs == [] {
      assert acc + vs == acc;
    } else {
      assert ValueAt(data, ps[0]) == Step(Ok(vs[0]), ps[1]);
      assert ps[1..][|vs[1..]|] == ps[|vs|];
      assert acc + [vs[0]] + vs[1..] == acc + vs;
      ItemsFollow(data, ps[1..], vs[1..], n - 1, acc + [vs[0]]);
    }
  }

  /** An array is its values in order; the first that fails decides the error and the position. */
  lemma ArrayOutcome(data: Bytes, pos: nat, ps: seq<nat>, vs: seq<Value>)
    requires pos < |data| && data[pos] / 32 == 4
    ensures HeadAt(data, pos).res.Err? ==>
      ValueAt(data, pos) == Step(Err(HeadAt(data, pos).res.code), HeadAt(data, pos).pos)
    ensures (HeadAt(data, pos).res.Ok? && ReadsThrough(data, ps, vs) && ps[0] == HeadAt(data, pos).pos) ==>
      var n := HeadAt(data, pos).res.value.val;
      && (|vs| == n ==> ValueAt(data, pos) == Step(Ok(Array(vs)), ps[n]))
      && (|vs| < n && ps[|vs|] <= |data| && ValueAt(data, ps[|vs|]).res.Err? ==>
            && ValueAt(data, pos).res.Err? && ValueAt(data, pos).pos == ValueAt(data, ps[|vs|]).pos
            && ValueAt(data, pos).res.code == ValueAt(data, ps[|vs|]).res.code)
  {
    hide HeadAt;
    if HeadAt(data, pos).res.Ok? && ReadsThrough(data, ps, vs) && ps[0] == HeadAt(data, pos).pos {
      var n := HeadAt(data, pos).res.value.val;
      if |vs| <= n {
        ItemsFollow(data, ps, vs, n, []);
        assert [] + vs == vs;
      }
    }
  }

  /** Keys and values that follow one another: entry i has its key at ps[i] and its value at qs[i]. */
  ghost predicate PairsThrough(data: Bytes, ps: seq<nat>, qs: seq<nat>, kvs: seq<Entry>) {
    && |ps| == |kvs| + 1 && |qs| == |kvs| && ps[0] <= |data|
    && forall i :: 0 <= i < |kvs| ==>
         && ps[i] <= |data| && qs[i] <= |data|
         && StringAt(data, ps[i]) == Step(Ok(kvs[i].key), qs[i])
         && ValueAt(data, qs[i]) == Step(Ok(kvs[i].value), ps[i + 1])
  }

  function Inserted(acc: seq<Entry>, kvs: seq<Entry>): seq<Entry>
    decreases |kvs|
  {
    if kvs == [] then acc else Inserted(Emplace(acc, kvs[0].key, kvs[0].value), kvs[1..])
  }

  lemma {:induction false} PairsFollow(data: Bytes, ps: seq<nat>, qs: seq<nat>, kvs: seq<Entry>, n: nat, acc: seq<Entry>)
    requires PairsThrough(data, ps, qs, kvs) && |kvs| <= n
    ensures ps[|kvs|] <= |data|
    ensures EntriesAt(data, ps[0], n, acc) == EntriesAt(data, ps[|kvs|], n - |kvs|, Inserted(acc, kvs))
    decreases |kvs|
  {
    hide ValueAt, BlobAt, Emplace;
    if kvs != [] {
      assert StringAt(data, ps[0]) == Step(Ok(kvs[0].key), qs[0]);
      assert ValueAt(data, qs[0]) == Step(Ok(kvs[0].value), ps[1]);
      assert ps[1..][|kvs[1..]|] == ps[|kvs|];
      PairsTail(data, ps, qs, kvs);
      PairsFollow(data, ps[1..], qs[1..], kvs[1..], n - 1, Emplace(acc, kvs[0].key, kvs[0].value));
    }
  }

  lemma PairsTail(data: Bytes, ps: seq<nat>, qs: seq<nat>, kvs: seq<Entry>)
    requires PairsThrough(data, ps, qs, kvs) && kvs != []
    ensures PairsThrough(data, ps[1..], qs[1..], kvs[1..])
  {
    hide ValueAt, BlobAt;
    assert ps[0] <= |data| && qs[0] <= |data|;
    assert ValueAt(data, qs[0]) == Step(Ok(kvs[0].value), ps[1]);
  }

  /** e is among the pairs and no earlier pair has its key. */
  ghost predicate FirstOfKey(kvs: seq<Entry>, e: Entry) {
    exists i :: 0 <= i < |kvs| && kvs[i] == e && forall j :: 0 <= j < i ==> kvs[j].key != e.key
  }

  ghost predicate HasKey(es: seq<Entry>, key: Bytes) { exists e :: e in es && e.key == key }

  /** Inserting pairs one by one keeps, for each new key, the first value that came with it. */
  lemma {:induction false} InsertedFirst(acc: seq<Entry>, kvs: seq<Entry>)
    requires Sorted(acc)
    ensures Sorted(Inserted(acc, kvs))
    ensures forall e :: e in Inserted(acc, kvs) <==> e in acc || (!HasKey(acc, e.key) && FirstOfKey(kvs, e))
    decreases |kvs|
  {
    if kvs != [] {
      var h, t := kvs[0], kvs[1..];
      var acc' := Emplace(acc, h.key, h.value);
      EmplaceSorted(acc, h.key, h.value);
      InsertedFirst(acc', t);
      hide Emplace, Sorted, Inserted;
      assert h == Entry(h.key, h.value);
      forall e ensures e in Inserted(acc', t) <==> e in acc || (!HasKey(acc, e.key) && FirstOfKey(kvs, e)) {
        FirstStep(acc, acc', kvs, e);
      }
    }
  }

  lemma FirstStep(acc: seq<Entry>, acc': seq<Entry>, kvs: seq<Entry>, e: Entry)
    requires kvs != []
    requires forall x :: x in acc' ==> x in acc || x == kvs[0]
    requires forall x :: x in acc ==> x in acc'
    requires if exists x :: x in acc && x.key == kvs[0].key then acc' == acc else kvs[0] in acc'
    ensures (e in acc' || (!HasKey(acc', e.key) && FirstOfKey(kvs[1..], e)))
       <==> (e in acc || (!HasKey(acc, e.key) && FirstOfKey(kvs, e)))
  {
    var h, t := kvs[0], kvs[1..];
    if FirstOfKey(t, e) && e.key != h.key {
      var i :| 0 <= i < |t| && t[i] == e && forall j :: 0 <= j < i ==> t[j].key != e.key;
      assert kvs[i + 1] == e;
      forall j | 0 <= j < i + 1 ensures kvs[j].key != e.key { if j > 0 { assert kvs[j] == t[j - 1]; } }
      assert FirstOfKey(kvs, e);
    }
    if FirstOfKey(kvs, e) {
      var i :| 0 <= i < |kvs| && kvs[i] == e && forall j :: 0 <= j < i ==> kvs[j].key != e.key;
      if i > 0 {
        assert t[i - 1] == e && h.key != e.key;
        forall j | 0 <= j < i - 1 ensures t[j].key != e.key { assert t[j] == kvs[j + 1]; }
        assert FirstOfKey(t, e);
      }
    }
    if e == h {
      assert kvs[0] == e;
      assert FirstOfKey(kvs, e);
    }
  }

  /**
   A map keeps the first value of every key, in key order; a key that is no text string or a value that
   fails decides the error and the position.
   */
  lemma MapOutcome(data: Bytes, pos: nat, ps: seq<nat>, qs: seq<nat>, kvs: seq<Entry>)
    requires pos < |data| && data[pos] / 32 == 5
    ensures HeadAt(data, pos).res.Err? ==>
      ValueAt(data, pos) == Step(Err(HeadAt(data, pos).res.code), HeadAt(data, pos).pos)
    ensures (HeadAt(data, pos).res.Ok? && PairsThrough(data, ps, qs, kvs) && ps[0] == HeadAt(data, pos).pos) ==>
      var n := HeadAt(data, pos).res.value.val;
      && (|kvs| == n ==>
            var r := ValueAt(data, pos);
            && r.res.Ok? && r.res.value.Map? && r.pos == ps[n] && Sorted(r.res.value.entries)
            && forall e :: e in r.res.value.entries <==> FirstOfKey(kvs, e))
      && (|kvs| < n && ps[|kvs|] <= |data| && StringAt(data, ps[|kvs|]).res.Err? ==>
            && ValueAt(data, pos).res == Err(StringAt(data, ps[|kvs|]).res.code)
            && ValueAt(data, pos).pos == StringAt(data, ps[|kvs|]).pos)
      && (|kvs| < n && ps[|kvs|] <= |data| && StringAt(data, ps[|kvs|]).res.Ok?
            && ValueAt(data, StringAt(data, ps[|kvs|]).pos).res.Err? ==>
            && ValueAt(data, pos).res == Err(ValueAt(data, StringAt(data, ps[|kvs|]).pos).res.code)
            && ValueAt(data, pos).pos == ValueAt(data, StringAt(data, ps[|kvs|]).pos).pos)
  {
    hide HeadAt, Emplace, FirstOfKey;
    if HeadAt(data, pos).res.Ok? && PairsThrough(data, ps, qs, kvs) && ps[0] == HeadAt(data, pos).pos {
      var n := HeadAt(data, pos).res.value.val;
      if |kvs| <= n {
        PairsFollow(data, ps, qs, kvs, n, []);
        SortedEmpty();
        InsertedFirst([], kvs);
      }
    }
  }

  // ---------- the procedures

  method EncodeFloat(enc: Encoder, bits: nat)
    requires bits < MAX64
    modifies enc
    ensures enc.buf == old(enc.buf) + [0xFB] + BigEndian(bits, 8)
  {
    hide BigEndian;
    BigEndian8(bits);
    // One push_byte per byte, from the most significant down.
    enc.PushByte(0xFB);
    enc.buf := enc.buf +
      [bits / 0x100_0000_0000_0000 % 256, bits / 0x1_0000_0000_0000 % 256,
       bits / 0x100_0000_0000 % 256, bits / 0x1_0000_0000 % 256, bits / 0x100_0000 % 256,
       bits / 0x1_0000 % 256, bits / 0x100 % 256, bits % 256];
  }

  method EncodeValue(enc: Encoder, v: Value)
    requires WellFormed(v)
    modifies enc
    ensures enc.buf == old(enc.buf) + Encode(v)
    decreases v, 1
  {
    hide Head, BigEndian, EncodeItems, EncodeEntries;
    match v
    case Nil => enc.PushByte(0xF6);
    case Bool(b) => enc.PushByte(if b then 0xF5 else 0xF4);
    case Int(i) => enc.EncodeInt(i);
    case Float(bits) => EncodeFloat(enc, bits);
    case Str(s) => enc.EncodeString(s);
    case Blob(b) => enc.EncodeBytes(b);
    case Array(items) =>
      enc.EncodeArray(|items|);
      EncodeAll(enc, items);
    case Map(es) =>
      enc.EncodeMap(|es|);
      EncodeAllEntries(enc, es);
  }

  method EncodeAll(enc: Encoder, items: seq<Value>)
    requires forall x :: x in items ==> WellFormed(x)
    modifies enc
    ensures enc.buf == old(enc.buf) + EncodeItems(items)
    decreases items, 0
  {
    hide Encode, WellFormed;
    for i := 0 to |items|
      invariant enc.buf + EncodeItems(items[i..]) == old(enc.buf) + EncodeItems(items)
    {
      ghost var before := enc.buf;
      assert items[i..][1..] == items[i + 1..];
      EncodeValue(enc, items[i]);
      assert enc.buf + EncodeItems(items[i + 1..]) == before + EncodeItems(items[i..]);
    }
  }

  method EncodeAllEntries(enc: Encoder, es: seq<Entry>)
    requires forall e :: e in es ==> |e.key| < MAX64 && WellFormed(e.value)
    modifies enc
    ensures enc.buf == old(enc.buf) + EncodeEntries(es)
    decreases es, 0
  {
    hide Encode, WellFormed, Head;
    for i := 0 to |es|
      invariant enc.buf + EncodeEntries(es[i..]) == old(enc.buf) + EncodeEntries(es)
    {
      ghost var before := enc.buf;
      assert es[i..][1..] == es[i + 1..];
      assert es[i] in es;
      enc.EncodeString(es[i].key);
      EncodeValue(enc, es[i].value);
      assert enc.buf + EncodeEntries(es[i + 1..]) == before + EncodeEntries(es[i..]);
    }
  }

  method DecodeFloat(dec: Decoder) returns (r: Result<Value>)
    requires dec.Valid() && dec.pos < |dec.data| && dec.data[dec.pos] == 0xFB
    modifies dec
    ensures dec.Valid() && Step(r, dec.pos) == ValueAt(dec.data, old(dec.pos))
  {
    if |dec.data| - dec.pos < 9 {
      return Err(700);
    }
    dec.pos := dec.pos + 1;
    var bits: nat := 0;
    for i := 0 to 8
      invariant bits == FromBigEndian(dec.data[dec.pos..dec.pos + i])
    {
      assert dec.data[dec.pos..dec.pos + i + 1][..i] == dec.data[dec.pos..dec.pos + i];
      bits := bits * 256 + dec.data[dec.pos + i];
    }
    dec.pos := dec.pos + 8;
    return Ok(Float(bits));
  }

  method DecodeArray(dec: Decoder) returns (r: Result<Value>)
    requires dec.Valid() && dec.pos < |dec.data| && dec.data[dec.pos] / 32 == 4
    modifies dec
    ensures dec.Valid() && Step(r, dec.pos) == ValueAt(dec.data, old(dec.pos))
    decreases |dec.data| - dec.pos, 0
  {
    hide TypedAt, HeadAt;
    var n := dec.DecodeArraySize();
    if n.Err? {
      return Err(n.code);
    }
    ghost var all := ItemsAt(dec.data, dec.pos, n.value, []);
    var items: seq<Value> := [];
    for i := 0 to n.value
      invariant dec.Valid() && old(dec.pos) < dec.pos
      invariant ItemsAt(dec.data, dec.pos, n.value - i, items) == all
    {
      hide ValueAt;
      var elem := DecodeValue(dec);
      if elem.Err? {
        return Err(elem.code);
      }
      items := items + [elem.value];
    }
    return Ok(Array(items));
  }

  method DecodeMap(dec: Decoder) returns (r: Result<Value>)
    requires dec.Valid() && dec.pos < |dec.data| && dec.data[dec.pos] / 32 == 5
    modifies dec
    ensures dec.Valid() && Step(r, dec.pos) == ValueAt(dec.data, old(dec.pos))
    decreases |dec.data| - dec.pos, 0
  {
    hide TypedAt, HeadAt, BlobAt, Emplace;
    var n := dec.DecodeMapSize();
    if n.Err? {
      return Err(n.code);
    }
    ghost var all := EntriesAt(dec.data, dec.pos, n.value, []);
    var es: seq<Entry> := [];
    for i := 0 to n.value
      invariant dec.Valid() && old(dec.pos) < dec.pos
      invariant EntriesAt(dec.data, dec.pos, n.value - i, es) == all
    {
      hide ValueAt;
      var key := dec.DecodeString();
      if key.Err? {
        return Err(key.code);
      }
      var val := DecodeValue(dec);
      if val.Err? {
        return Err(val.code);
      }
      es := Emplace(es, key.value, val.value);
    }
    return Ok(Map(es));
  }

  method DecodeValue(dec: Decoder) returns (r: Result<Value>)
    requires dec.Valid()
    modifies dec
    ensures dec.Valid() && Step(r, dec.pos) == ValueAt(dec.data, old(dec.pos))
    decreases |dec.data| - dec.pos, 1
  {
    hide HeadAt, BlobAt, ItemsAt, EntriesAt, FromBigEndian;
    if dec.pos >= |dec.data| {
      return Err(700);
    }
    var ib := dec.data[dec.pos];
    var major, ai := ib / 32, ib % 32;
    if major == 7 {
      if ai == 20 {
        dec.pos := dec.pos + 1;
        return Ok(Bool(false));
      } else if ai == 21 {
        dec.pos := dec.pos + 1;
        return Ok(Bool(true));
      } else if ai == 22 {
        dec.pos := dec.pos + 1;
        return Ok(Nil);
      } else if ai == 27 {
        r := DecodeFloat(dec);
        return;
      }
    }
    if major == 0 {
      HeadAtBound(dec.data, dec.pos);
      var u := dec.DecodeUint();
      return if u.Err? then Err(u.code) else Ok(Int(ToInt64(u.value)));
    }
    if major == 1 {
      var i := dec.DecodeInt();
      return if i.Err? then Err(i.code) else Ok(Int(i.value));
    }
    if major == 2 {
      var b := dec.DecodeBytes();
      return if b.Err? then Err(b.code) else Ok(Blob(b.value));
    }
    if major == 3 {
      var s := dec.DecodeString();
      return if s.Err? then Err(s.code) else Ok(Str(s.value));
    }
    if major == 4 {
      r := DecodeArray(dec);
      return;
    }
    if major == 5 {
      r := DecodeMap(dec);
      return;
    }
    return Err(708);
  }
}
