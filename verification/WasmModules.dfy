/** The module framing of section 5.5 of the WebAssembly Core Specification 1.0, and the emitter that writes it. */
module WasmModules {
  import opened ByteStrings
  import opened Leb128

  // ---------- length-prefixed bytes, sections, modules

  function Blob(b: Bytes): Bytes { Uleb(|b|) + b }

  function BlobAt(data: Bytes, pos: nat): Parse<Bytes> {
    match DecodeU(32, data, pos)
    case Reject => Reject
    case Accept(n, next) => if next + n <= |data| then Accept(data[next..next + n], next + n) else Reject
  }

  lemma BlobReads(b: Bytes, data: Bytes, pos: nat)
    requires At(data, pos, Blob(b)) && |b| < MAX32
    ensures BlobAt(data, pos) == Accept(b, pos + |Blob(b)|)
  {
    hide Uleb, DecodeU, Pow2;
    AtSplit(data, pos, Uleb(|b|), b);
    Pow2Values();
    UlebRoundTrip(|b|, 32, data, pos);
  }

  /** What is read as a blob is short, and reading moves forward. */
  lemma BlobAtBounds(data: Bytes, pos: nat)
    requires BlobAt(data, pos).Accept?
    ensures |BlobAt(data, pos).value| < MAX32 && pos < BlobAt(data, pos).next <= |data|
  {
    Pow2Values();
    hide Uleb, DecodeU, Pow2;
    UlebShortest(32, data, pos);
  }

  /** A blob is read back, whatever follows it, exactly when its size fits the grammar's u32. */
  lemma BlobRoundTrip(b: Bytes, data: Bytes, pos: nat)
    requires At(data, pos, Blob(b))
    ensures BlobAt(data, pos) == Accept(b, pos + |Blob(b)|) <==> |b| < MAX32
  {
    hide *;
    if |b| < MAX32 {
      BlobReads(b, data, pos);
    } else if BlobAt(data, pos).Accept? {
      BlobAtBounds(data, pos);
    }
  }

  datatype Section = Section(id: Byte, payload: Bytes)

  function Frame(s: Section): Bytes { [s.id] + Blob(s.payload) }

  function Concat<T>(enc: T -> Bytes, xs: seq<T>): Bytes {
    if xs == [] then [] else enc(xs[0]) + Concat(enc, xs[1..])
  }

  lemma {:induction false} ConcatAppend<T>(enc: T -> Bytes, xs: seq<T>, x: T)
    ensures Concat(enc, xs + [x]) == Concat(enc, xs) + enc(x)
    decreases |xs|
  {
    if xs == [] {
      assert xs + [x] == [x];
      assert Concat(enc, [x]) == enc(x) + Concat(enc, [x][1..]);
    } else {
      assert (xs + [x])[1..] == xs[1..] + [x];
      ConcatAppend(enc, xs[1..], x);
      Regroup(enc(xs[0]), Concat(enc, xs[1..]), enc(x));
    }
  }

  function Frames(ss: seq<Section>): Bytes { Concat(Frame, ss) }

  function SectionAt(data: Bytes, pos: nat): Parse<Section> {
    if pos >= |data| then Reject
    else match BlobAt(data, pos + 1)
      case Reject => Reject
      case Accept(payload, next) => Accept(Section(data[pos], payload), next)
  }

  /** Sections up to the end of the data. */
  function SectionsAt(data: Bytes, pos: nat): Parse<seq<Section>>
    requires pos <= |data|
    decreases |data| - pos
  {
    if pos == |data| then Accept([], pos)
    else match SectionAt(data, pos)
      case Reject => Reject
      case Accept(s, next) =>
        BlobAtBounds(data, pos + 1);
        match SectionsAt(data, next)
        case Reject => Reject
        case Accept(rest, end) => Accept([s] + rest, end)
  }

  const HEADER: Bytes := [0x00, 0x61, 0x73, 0x6D, 0x01, 0x00, 0x00, 0x00]

  function ParseModule(data: Bytes): Parse<seq<Section>> {
    if |data| >= 8 && data[..8] == HEADER then SectionsAt(data, 8) else Reject
  }

  predicate Small(s: Section) { |s.payload| < MAX32 }

  predicate AllSmall(ss: seq<Section>) { forall i :: 0 <= i < |ss| ==> Small(ss[i]) }

  lemma SectionReads(s: Section, data: Bytes, pos: nat)
    requires At(data, pos, Frame(s)) && Small(s)
    ensures SectionAt(data, pos) == Accept(s, pos + |Frame(s)|)
  {
    hide Blob, BlobAt, At;
    AtSplit(data, pos, [s.id], Blob(s.payload));
    AtOne(data, pos, s.id);
    BlobRoundTrip(s.payload, data, pos + 1);
  }

  lemma AtOne(data: Bytes, pos: nat, b: Byte)
    requires At(data, pos, [b])
    ensures pos < |data| && data[pos] == b
  {
    AtByte(data, pos, [b], 0);
  }

  lemma {:induction false} FramesRead(ss: seq<Section>, data: Bytes, pos: nat)
    requires At(data, pos, Frames(ss)) && pos + |Frames(ss)| == |data| && AllSmall(ss)
    ensures SectionsAt(data, pos) == Accept(ss, |data|)
    decreases |ss|
  {
    hide At, Frame, SectionAt, Small;
    if ss != [] {
      AtSplit(data, pos, Frame(ss[0]), Frames(ss[1..]));
      SectionReads(ss[0], data, pos);
      FrameNotEmpty(ss[0]);
      FramesRead(ss[1..], data, pos + |Frame(ss[0])|);
      assert ss == [ss[0]] + ss[1..];
    }
  }

  lemma FrameNotEmpty(s: Section)
    ensures Frame(s) != []
  {}

  lemma {:induction false} SectionsAtSmall(data: Bytes, pos: nat)
    requires pos <= |data| && SectionsAt(data, pos).Accept?
    ensures AllSmall(SectionsAt(data, pos).value)
    decreases |data| - pos
  {
    if pos < |data| {
      hide BlobAt;
      BlobAtBounds(data, pos + 1);
      SectionsAtSmall(data, SectionAt(data, pos).next);
    }
  }

  /** A framed module parses into exactly its sections if and only if every payload fits a u32 size. */
  lemma ModuleParses(ss: seq<Section>)
    ensures ParseModule(HEADER + Frames(ss)) == Accept(ss, 8 + |Frames(ss)|) <==> AllSmall(ss)
  {
    var data := HEADER + Frames(ss);
    hide Frames, SectionsAt;
    assert data[..8] == HEADER;
    if AllSmall(ss) {
      AtEmbed(HEADER, Frames(ss), []);
      assert data + [] == data;
      FramesRead(ss, data, 8);
    } else if ParseModule(data).Accept? {
      SectionsAtSmall(data, 8);
    }
  }

  lemma BlobSplits(a: Bytes, x: Bytes, b: Bytes, y: Bytes)
    requires Blob(a) + x == Blob(b) + y
    ensures a == b && x == y
  {
    hide Uleb;
    Regroup(Uleb(|a|), a, x);
    Regroup(Uleb(|b|), b, y);
    UlebSplits(|a|, a + x, |b|, b + y);
    assert a == (a + x)[..|a|] && x == (a + x)[|a|..] && b == (b + y)[..|b|] && y == (b + y)[|b|..];
  }

  lemma FrameSplits(s: Section, x: Bytes, t: Section, y: Bytes)
    requires Frame(s) + x == Frame(t) + y
    ensures s == t && x == y
  {
    hide Blob;
    Regroup([s.id], Blob(s.payload), x);
    Regroup([t.id], Blob(t.payload), y);
    var data := Frame(s) + x;
    assert data[0] == s.id && data[0] == t.id;
    assert data[1..] == Blob(s.payload) + x && data[1..] == Blob(t.payload) + y;
    BlobSplits(s.payload, x, t.payload, y);
  }

  lemma {:induction false} FramesSplit(ss: seq<Section>, ss': seq<Section>)
    requires Frames(ss) == Frames(ss')
    ensures ss == ss'
    decreases |ss|
  {
    hide Frame;
    if ss != [] { FrameNotEmpty(ss[0]); }
    if ss' != [] { FrameNotEmpty(ss'[0]); }
    if ss != [] {
      FrameSplits(ss[0], Frames(ss[1..]), ss'[0], Frames(ss'[1..]));
      FramesSplit(ss[1..], ss'[1..]);
      assert ss == [ss[0]] + ss[1..] && ss' == [ss'[0]] + ss'[1..];
    }
  }

  /** No module is the framing of two different section lists, whatever the sizes. */
  lemma SplitIsUnique(ss: seq<Section>, ss': seq<Section>)
    requires HEADER + Frames(ss) == HEADER + Frames(ss')
    ensures ss == ss'
  {
    hide Frames;
    assert Frames(ss) == (HEADER + Frames(ss))[8..] && Frames(ss') == (HEADER + Frames(ss'))[8..];
    FramesSplit(ss, ss');
  }

  // ---------- vectors

  function Vector<T>(enc: T -> Bytes, xs: seq<T>): Bytes { Uleb(|xs|) + Concat(enc, xs) }

  function ElementsAt<T>(dec: (Bytes, nat) -> Parse<T>, data: Bytes, pos: nat, n: nat): Parse<seq<T>>
    decreases n
  {
    if n == 0 then Accept([], pos)
    else match dec(data, pos)
      case Reject => Reject
      case Accept(x, next) =>
        match ElementsAt(dec, data, next, n - 1)
        case Reject => Reject
        case Accept(rest, end) => Accept([x] + rest, end)
  }

  /** A payload that is one vector and nothing after it. */
  function ParseVector<T>(dec: (Bytes, nat) -> Parse<T>, data: Bytes): Parse<seq<T>> {
    match DecodeU(32, data, 0)
    case Reject => Reject
    case Accept(n, next) =>
      match ElementsAt(dec, data, next, n)
      case Reject => Reject
      case Accept(xs, end) => if end == |data| then Accept(xs, end) else Reject
  }

  ghost predicate Inverts<T(!new)>(dec: (Bytes, nat) -> Parse<T>, enc: T -> Bytes, x: T) {
    forall data, pos: nat :: At(data, pos, enc(x)) ==> dec(data, pos) == Accept(x, pos + |enc(x)|)
  }

  lemma InvertsAt<T(!new)>(dec: (Bytes, nat) -> Parse<T>, enc: T -> Bytes, x: T, data: Bytes, pos: nat)
    requires Inverts(dec, enc, x) && At(data, pos, enc(x))
    ensures dec(data, pos) == Accept(x, pos + |enc(x)|)
  {}

  lemma {:induction false} ElementsRead<T(!new)>(
    dec: (Bytes, nat) -> Parse<T>, enc: T -> Bytes, xs: seq<T>, data: Bytes, pos: nat)
    requires (forall i :: 0 <= i < |xs| ==> Inverts(dec, enc, xs[i])) && At(data, pos, Concat(enc, xs))
    ensures ElementsAt(dec, data, pos, |xs|) == Accept(xs, pos + |Concat(enc, xs)|)
    decreases |xs|
  {
    if xs != [] {
      hide At;
      AtSplit(data, pos, enc(xs[0]), Concat(enc, xs[1..]));
      InvertsAt(dec, enc, xs[0], data, pos);
      hide Inverts;
      ElementsRead(dec, enc, xs[1..], data, pos + |enc(xs[0])|);
      assert xs == [xs[0]] + xs[1..];
    }
  }

  /** A vector is read back element by element up to the end of its payload. */
  lemma VectorRoundTrip<T(!new)>(dec: (Bytes, nat) -> Parse<T>, enc: T -> Bytes, xs: seq<T>)
    requires |xs| < MAX32 && forall i :: 0 <= i < |xs| ==> Inverts(dec, enc, xs[i])
    ensures ParseVector(dec, Vector(enc, xs)) == Accept(xs, |Vector(enc, xs)|)
  {
    hide *;
    var data := Vector(enc, xs);
    VectorParts(enc, xs);
    Pow2Values();
    UlebRoundTrip(|xs|, 32, data, 0);
    ElementsRead(dec, enc, xs, data, |Uleb(|xs|)|);
    ParsedVector(dec, data, xs, |Uleb(|xs|)|);
  }

  lemma VectorParts<T>(enc: T -> Bytes, xs: seq<T>)
    ensures At(Vector(enc, xs), 0, Uleb(|xs|)) && At(Vector(enc, xs), |Uleb(|xs|)|, Concat(enc, xs))
    ensures |Vector(enc, xs)| == |Uleb(|xs|)| + |Concat(enc, xs)|
  {
    hide Uleb, Concat;
    var data := Vector(enc, xs);
    AtEmbed([], data, []);
    assert [] + data + [] == data;
    AtSplit(data, 0, Uleb(|xs|), Concat(enc, xs));
  }

  lemma ParsedVector<T>(dec: (Bytes, nat) -> Parse<T>, data: Bytes, xs: seq<T>, next: nat)
    requires DecodeU(32, data, 0) == Accept(|xs|, next)
    requires ElementsAt(dec, data, next, |xs|) == Accept(xs, |data|)
    ensures ParseVector(dec, data) == Accept(xs, |data|)
  {
    hide DecodeU, ElementsAt;
  }

  // ---------- function types, indices and bodies

  datatype FuncType = FuncType(params: Bytes, results: Bytes)

  function TypeBytes(ft: FuncType): Bytes { [0x60] + Blob(ft.params) + Blob(ft.results) }

  function TypeAt(data: Bytes, pos: nat): Parse<FuncType> {
    if pos >= |data| || data[pos] != 0x60 then Reject
    else match BlobAt(data, pos + 1)
      case Reject => Reject
      case Accept(params, next) =>
        match BlobAt(data, next)
        case Reject => Reject
        case Accept(results, end) => Accept(FuncType(params, results), end)
  }

  lemma TypeReads(ft: FuncType, data: Bytes, pos: nat)
    requires |ft.params| < MAX32 && |ft.results| < MAX32 && At(data, pos, TypeBytes(ft))
    ensures TypeAt(data, pos) == Accept(ft, pos + |TypeBytes(ft)|)
  {
    hide Blob, BlobAt, At;
    AtSplit(data, pos, [0x60] + Blob(ft.params), Blob(ft.results));
    AtSplit(data, pos, [0x60], Blob(ft.params));
    AtOne(data, pos, 0x60);
    BlobRoundTrip(ft.params, data, pos + 1);
    BlobRoundTrip(ft.results, data, pos + 1 + |Blob(ft.params)|);
  }

  lemma TypeInverts(ft: FuncType)
    requires |ft.params| < MAX32 && |ft.results| < MAX32
    ensures Inverts(TypeAt, TypeBytes, ft)
  {
    hide TypeAt, TypeBytes, At;
    forall data: Bytes, pos: nat | At(data, pos, TypeBytes(ft))
      ensures TypeAt(data, pos) == Accept(ft, pos + |TypeBytes(ft)|)
    {
      TypeReads(ft, data, pos);
    }
  }

  function IndexAt(data: Bytes, pos: nat): Parse<nat> { DecodeU(32, data, pos) }

  lemma IndexInverts(i: nat)
    requires i < MAX32
    ensures Inverts(IndexAt, Uleb, i)
  {
    forall data: Bytes, pos: nat | At(data, pos, Uleb(i)) ensures IndexAt(data, pos) == Accept(i, pos + |Uleb(i)|) {
      Pow2Values();
      hide Uleb, DecodeU, Pow2;
      UlebRoundTrip(i, 32, data, pos);
    }
  }

  /** What is read as a vector of blobs holds short ones only. */
  lemma {:induction false} BlobsSmall(data: Bytes, pos: nat, n: nat)
    requires ElementsAt(BlobAt, data, pos, n).Accept?
    ensures forall i :: 0 <= i < |ElementsAt(BlobAt, data, pos, n).value| ==>
      |ElementsAt(BlobAt, data, pos, n).value[i]| < MAX32
    decreases n
  {
    hide BlobAt;
    if n > 0 {
      BlobAtBounds(data, pos);
      BlobsSmall(data, BlobAt(data, pos).next, n - 1);
    }
  }

  /** The count in front of a vector is read whatever its elements are. */
  lemma CountReads<T>(enc: T -> Bytes, xs: seq<T>)
    requires |xs| < MAX32
    ensures DecodeU(32, Vector(enc, xs), 0) == Accept(|xs|, |Uleb(|xs|)|)
  {
    hide *;
    VectorParts(enc, xs);
    Pow2Values();
    UlebRoundTrip(|xs|, 32, Vector(enc, xs), 0);
  }

  lemma BlobInverts(b: Bytes)
    requires |b| < MAX32
    ensures Inverts(BlobAt, Blob, b)
  {
    forall data: Bytes, pos: nat | At(data, pos, Blob(b)) ensures BlobAt(data, pos) == Accept(b, pos + |Blob(b)|) {
      BlobRoundTrip(b, data, pos);
    }
  }
}
