/** The WebAssembly emitter: its six sections and what a reader finds in them. */
module WasmEmitter {
  import opened ByteStrings
  import opened Leb128
  import opened WasmModules

  // ---------- the emitted module

  const I32: Byte := 0x7F

  datatype LocalFunc = Execute | Initialize | Shutdown | Validate | Metadata

  datatype Config = Config(imports: seq<FuncType>, hasInitialize: bool, hasValidate: bool)

  /** The module's own functions, in the order of their bodies. */
  function Locals(c: Config): (fs: seq<LocalFunc>)
    ensures 3 <= |fs| <= 5
  {
    [] + [Execute] + Opt(c.hasInitialize, Initialize) + [Shutdown] + Opt(c.hasValidate, Validate) + [Metadata]
  }

  function Opt<T>(present: bool, x: T): seq<T> { if present then [x] else [] }

  function Signature(f: LocalFunc): FuncType {
    match f
    case Execute => FuncType([I32, I32], [I32, I32])
    case Initialize => FuncType([I32, I32], [I32])
    case Shutdown => FuncType([], [I32])
    case Validate => FuncType([I32, I32], [I32])
    case Metadata => FuncType([], [I32, I32])
  }

  function Signatures(fs: seq<LocalFunc>): (ts: seq<FuncType>)
    ensures |ts| == |fs| && forall i :: 0 <= i < |fs| ==> ts[i] == Signature(fs[i])
  {
    seq(|fs|, i requires 0 <= i < |fs| => Signature(fs[i]))
  }

  function Types(c: Config): seq<FuncType> { c.imports + Signatures(Locals(c)) }

  /** The 32-bit index the i-th local function gets. */
  function TypeIndex(c: Config, i: nat): nat { (|c.imports| + i) % 0x1_0000_0000 }

  function Indices(c: Config): (xs: seq<nat>)
    ensures |xs| == |Locals(c)| && forall i :: 0 <= i < |xs| ==> xs[i] == TypeIndex(c, i)
  {
    seq(|Locals(c)|, i requires 0 <= i => TypeIndex(c, i))
  }

  function Bodies(c: Config, body: LocalFunc -> Bytes): (bs: seq<Bytes>)
    ensures |bs| == |Locals(c)| && forall i :: 0 <= i < |bs| ==> bs[i] == body(Locals(c)[i])
  {
    seq(|Locals(c)|, i requires 0 <= i < |Locals(c)| => body(Locals(c)[i]))
  }

  datatype Others = Others(imports: Bytes, memory: Bytes, exports: Bytes)

  function Sections(c: Config, others: Others, body: LocalFunc -> Bytes): (ss: seq<Section>)
    ensures forall i, j :: 0 <= i < j < |ss| ==> ss[i].id < ss[j].id
  {
    [Section(1, Vector(TypeBytes, Types(c))), Section(2, others.imports), Section(3, Vector(Uleb, Indices(c))),
     Section(5, others.memory), Section(7, others.exports), Section(10, Vector(Blob, Bodies(c, body)))]
  }

  function Emitted(c: Config, others: Others, body: LocalFunc -> Bytes): Bytes {
    HEADER + Frames(Sections(c, others, body))
  }

  /** The emitted bytes parse into the six sections exactly when every payload's size fits a u32. */
  lemma EmittedSplits(c: Config, others: Others, body: LocalFunc -> Bytes)
    ensures (ParseModule(Emitted(c, others, body)) ==
             Accept(Sections(c, others, body), |Emitted(c, others, body)|))
            <==> AllSmall(Sections(c, others, body))
  {
    hide ParseModule, Sections, Frames, AllSmall;
    ModuleParses(Sections(c, others, body));
  }

  /**
   The function and code sections declare the same count, the indices are read back one for each local
   function, and the bodies are if and only if each of their sizes fits a u32.
   */
  lemma CountsAgree(c: Config, body: LocalFunc -> Bytes)
    ensures DecodeU(32, Vector(Uleb, Indices(c)), 0) == DecodeU(32, Vector(Blob, Bodies(c, body)), 0)
         == Accept(|Locals(c)|, |Uleb(|Locals(c)|)|)
    ensures ParseVector(IndexAt, Vector(Uleb, Indices(c))) == Accept(Indices(c), |Vector(Uleb, Indices(c))|)
    ensures (ParseVector(BlobAt, Vector(Blob, Bodies(c, body))) ==
             Accept(Bodies(c, body), |Vector(Blob, Bodies(c, body))|))
            <==> forall i :: 0 <= i < |Bodies(c, body)| ==> |Bodies(c, body)[i]| < MAX32
  {
    hide ParseVector, Vector, Uleb, DecodeU, Blob, IndexAt, BlobAt, Inverts, Locals, Indices, Bodies;
    CountReads(Uleb, Indices(c));
    CountReads(Blob, Bodies(c, body));
    forall i | 0 <= i < |Indices(c)| ensures Inverts(IndexAt, Uleb, Indices(c)[i]) {
      IndexInverts(Indices(c)[i]);
    }
    VectorRoundTrip(IndexAt, Uleb, Indices(c));
    BlobVectorIff(Bodies(c, body));
  }

  lemma BlobVectorIff(bs: seq<Bytes>)
    requires |bs| < MAX32
    ensures ParseVector(BlobAt, Vector(Blob, bs)) == Accept(bs, |Vector(Blob, bs)|)
      <==> forall i :: 0 <= i < |bs| ==> |bs[i]| < MAX32
  {
    hide Vector, Blob, BlobAt, Inverts, DecodeU, ElementsAt;
    if forall i :: 0 <= i < |bs| ==> |bs[i]| < MAX32 {
      forall i | 0 <= i < |bs| ensures Inverts(BlobAt, Blob, bs[i]) { BlobInverts(bs[i]); }
      VectorRoundTrip(BlobAt, Blob, bs);
    } else if ParseVector(BlobAt, Vector(Blob, bs)).Accept? {
      var n := DecodeU(32, Vector(Blob, bs), 0);
      BlobsSmall(Vector(Blob, bs), n.next, n.value);
    }
  }

  /** Following a local function's index into the type section finds its own signature. */
  lemma IndicesNameSignatures(c: Config, i: nat)
    requires i < |Locals(c)| && |Types(c)| < MAX32
    requires forall k :: 0 <= k < |c.imports| ==> |c.imports[k].params| < MAX32 && |c.imports[k].results| < MAX32
    ensures var p := ParseVector(TypeAt, Vector(TypeBytes, Types(c)));
      && p == Accept(Types(c), |Vector(TypeBytes, Types(c))|)
      && Indices(c)[i] < |p.value| && p.value[Indices(c)[i]] == Signature(Locals(c)[i])
  {
    hide ParseVector, Vector, TypeBytes, TypeAt, Inverts, Locals, Indices, Signatures;
    forall k | 0 <= k < |Types(c)| ensures Inverts(TypeAt, TypeBytes, Types(c)[k]) {
      TypeInverts(Types(c)[k]);
    }
    VectorRoundTrip(TypeAt, TypeBytes, Types(c));
  }

  // ---------- the emitter

  function Rank(f: LocalFunc): nat {
    match f
    case Execute => 0
    case Initialize => 1
    case Shutdown => 2
    case Validate => 3
    case Metadata => 4
  }

  ghost predicate Ranked(done: seq<LocalFunc>, n: nat) { forall i :: 0 <= i < |done| ==> Rank(done[i]) < n }

  /** The functions laid out so far have consecutive indices after the imports, and their signatures follow them. */
  ghost predicate Laid(c: Config, done: seq<LocalFunc>, types: seq<FuncType>, indices: map<LocalFunc, nat>) {
    && types == c.imports + Signatures(done)
    && (forall f :: f in indices <==> f in done)
    && forall i :: 0 <= i < |done| ==> done[i] in indices && indices[done[i]] == TypeIndex(c, i)
  }

  /** The map of local function indices after the type section. */
  ghost predicate IndexMap(c: Config, indices: map<LocalFunc, nat>) { Laid(c, Locals(c), Types(c), indices) }

  lemma LaidNext(c: Config, done: seq<LocalFunc>, types: seq<FuncType>, indices: map<LocalFunc, nat>, f: LocalFunc)
    requires Laid(c, done, types, indices) && Ranked(done, Rank(f))
    ensures Laid(c, done + [f], types + [Signature(f)], indices[f := |types| % 0x1_0000_0000])
    ensures Ranked(done + [f], Rank(f) + 1)
  {
    hide Signature, Rank;
    assert forall i :: 0 <= i < |done| ==> done[i] != f;
    assert types + [Signature(f)] == c.imports + Signatures(done + [f]);
  }

  function OptIndex(indices: map<LocalFunc, nat>, f: LocalFunc): seq<nat> {
    if f in indices then [indices[f]] else []
  }

  lemma LocalsCases(c: Config)
    ensures c.hasInitialize && c.hasValidate ==> Locals(c) == [Execute, Initialize, Shutdown, Validate, Metadata]
    ensures c.hasInitialize && !c.hasValidate ==> Locals(c) == [Execute, Initialize, Shutdown, Metadata]
    ensures !c.hasInitialize && c.hasValidate ==> Locals(c) == [Execute, Shutdown, Validate, Metadata]
    ensures !c.hasInitialize && !c.hasValidate ==> Locals(c) == [Execute, Shutdown, Metadata]
  {}

  lemma IndexMapMembers(c: Config, m: map<LocalFunc, nat>)
    requires IndexMap(c, m)
    ensures Execute in m && Shutdown in m && Metadata in m
    ensures (Initialize in m <==> c.hasInitialize) && (Validate in m <==> c.hasValidate)
  {
    hide Types, Signatures, Locals, TypeIndex;
    LocalsCases(c);
  }

  lemma IndexMapAt(c: Config, m: map<LocalFunc, nat>, i: nat)
    requires IndexMap(c, m) && i < |Locals(c)|
    ensures Locals(c)[i] in m && m[Locals(c)[i]] == Indices(c)[i]
  {
    hide Types, Signatures, Locals, TypeIndex, Indices;
  }

  /** Looking the five functions up in order gives the indices in order. */
  lemma IndexMapList(c: Config, m: map<LocalFunc, nat>)
    requires IndexMap(c, m)
    ensures [] + OptIndex(m, Execute) + OptIndex(m, Initialize) + OptIndex(m, Shutdown) + OptIndex(m, Validate)
            + OptIndex(m, Metadata) == Indices(c)
  {
    hide IndexMap, Locals, Indices, TypeIndex;
    IndexMapMembers(c, m);
    LocalsCases(c);
    IndexMapAt(c, m, 0);
    IndexMapAt(c, m, 1);
    IndexMapAt(c, m, 2);
    if |Locals(c)| > 3 {
      IndexMapAt(c, m, 3);
    }
    if |Locals(c)| > 4 {
      IndexMapAt(c, m, 4);
    }
  }

  lemma BodiesList(c: Config, body: LocalFunc -> Bytes)
    ensures [] + [body(Execute)] + Opt(c.hasInitialize, body(Initialize)) + [body(Shutdown)]
            + Opt(c.hasValidate, body(Validate)) + [body(Metadata)] == Bodies(c, body)
  {
    hide Bodies;
  }

  lemma LocalCount(c: Config)
    ensures |Locals(c)| == 3 + (if c.hasInitialize then 1 else 0) + (if c.hasValidate then 1 else 0)
  {}

  lemma ConcatNone<T>(enc: T -> Bytes, base: Bytes)
    ensures base + Concat(enc, []) == base
  {}

  lemma ConcatPush<T>(base: Bytes, enc: T -> Bytes, xs: seq<T>, x: T)
    ensures base + Concat(enc, xs) + enc(x) == base + Concat(enc, xs + [x])
  {
    hide Concat;
    ConcatAppend(enc, xs, x);
    Regroup(base, Concat(enc, xs), enc(x));
  }

  method WriteType(payload: Buffer, ft: FuncType)
    modifies payload
    ensures payload.bytes == old(payload.bytes) + TypeBytes(ft)
  {
    hide Uleb;
    ghost var start := payload.bytes;
    payload.WriteByte(0x60);
    payload.WriteUleb(|ft.params|);
    ghost var base := payload.bytes;
    for k := 0 to |ft.params|
      invariant payload.bytes == base + ft.params[..k]
    {
      payload.WriteByte(ft.params[k]);
    }
    assert ft.params[..|ft.params|] == ft.params;
    payload.WriteUleb(|ft.results|);
    base := payload.bytes;
    for k := 0 to |ft.results|
      invariant payload.bytes == base + ft.results[..k]
    {
      payload.WriteByte(ft.results[k]);
    }
    assert ft.results[..|ft.results|] == ft.results;
    assert payload.bytes == start + TypeBytes(ft);
  }

  class Emitter {
    const config: Config
    const binary: Buffer
    var funcTypes: seq<FuncType>
    var localIndices: map<LocalFunc, nat>

    constructor (c: Config)
      ensures config == c && fresh(binary) && binary.bytes == []
    {
      config := c;
      binary := new Buffer();
      funcTypes, localIndices := [], map[];
    }

    method WriteSection(id: Byte, payload: Bytes)
      modifies binary
      ensures binary.bytes == old(binary.bytes) + Frame(Section(id, payload))
    {
      hide Uleb;
      binary.WriteByte(id);
      binary.WriteUleb(|payload|);
      binary.WriteBytes(payload);
    }

    /** The next type index goes to a local function, and its signature to the type list. */
    method AddLocal(present: bool, f: LocalFunc, ghost done: seq<LocalFunc>)
      requires Laid(config, done, funcTypes, localIndices) && Ranked(done, Rank(f))
      modifies this
      ensures Laid(config, done + Opt(present, f), funcTypes, localIndices)
      ensures Ranked(done + Opt(present, f), Rank(f) + 1)
    {
      hide Laid;
      if present {
        LaidNext(config, done, funcTypes, localIndices, f);
        localIndices := localIndices[f := |funcTypes| % 0x1_0000_0000];
        funcTypes := funcTypes + [Signature(f)];
      } else {
        assert done + Opt(present, f) == done;
      }
    }

    method AddLocals()
      requires Laid(config, [], funcTypes, localIndices)
      modifies this
      ensures Laid(config, Locals(config), funcTypes, localIndices)
    {
      hide Laid, Ranked;
      assert Ranked([], 0) by { RankedNone(); }
      AddLocal(true, Execute, []);
      ghost var done := [] + Opt(true, Execute);
      AddLocal(config.hasInitialize, Initialize, done);
      done := done + Opt(config.hasInitialize, Initialize);
      AddLocal(true, Shutdown, done);
      done := done + Opt(true, Shutdown);
      AddLocal(config.hasValidate, Validate, done);
      done := done + Opt(config.hasValidate, Validate);
      AddLocal(true, Metadata, done);
    }

    method CollectTypes()
      requires funcTypes == [] && localIndices == map[]
      modifies this
      ensures funcTypes == Types(config) && IndexMap(config, localIndices)
    {
      hide Locals;
      for k := 0 to |config.imports|
        invariant funcTypes == config.imports[..k] && localIndices == map[]
      {
        funcTypes := funcTypes + [config.imports[k]];
      }
      assert Laid(config, [], funcTypes, localIndices);
      AddLocals();
    }

    method EmitTypeSection()
      requires funcTypes == [] && localIndices == map[]
      modifies this, binary
      ensures IndexMap(config, localIndices)
      ensures binary.bytes == old(binary.bytes) + Frame(Section(1, Vector(TypeBytes, Types(config))))
    {
      hide IndexMap, Types, TypeBytes, Frame, Uleb, Laid, Concat;
      CollectTypes();
      var payload := new Buffer();
      payload.WriteUleb(|funcTypes|);
      ghost var base := payload.bytes;
      assert base == Uleb(|funcTypes|);
      ConcatNone(TypeBytes, base);
      for k := 0 to |funcTypes|
        invariant funcTypes == Types(config) && IndexMap(config, localIndices)
        invariant payload.bytes == base + Concat(TypeBytes, funcTypes[..k])
        invariant binary.bytes == old(binary.bytes)
      {
        WriteType(payload, funcTypes[k]);
        ConcatPush(base, TypeBytes, funcTypes[..k], funcTypes[k]);
        assert funcTypes[..k] + [funcTypes[k]] == funcTypes[..k + 1];
      }
      assert funcTypes[..|funcTypes|] == funcTypes;
      WriteSection(1, payload.bytes);
    }

    /** How many of the five local functions have an index. */
    method CountLocals() returns (count: nat)
      requires IndexMap(config, localIndices)
      ensures count == |Locals(config)|
    {
      hide IndexMap, Locals, OptIndex;
      IndexMapMembers(config, localIndices);
      LocalCount(config);
      count := 0;
      if Execute in localIndices { count := count + 1; }
      if Initialize in localIndices { count := count + 1; }
      if Shutdown in localIndices { count := count + 1; }
      if Validate in localIndices { count := count + 1; }
      if Metadata in localIndices { count := count + 1; }
    }

    method WriteIndex(payload: Buffer, f: LocalFunc, ghost base: Bytes, ghost xs: seq<nat>)
      requires payload != binary && payload.bytes == base + Concat(Uleb, xs)
      modifies payload
      ensures payload.bytes == base + Concat(Uleb, xs + OptIndex(localIndices, f))
    {
      hide Uleb, Concat;
      if f in localIndices {
        payload.WriteUleb(localIndices[f]);
        ConcatPush(base, Uleb, xs, localIndices[f]);
      } else {
        assert xs + OptIndex(localIndices, f) == xs;
      }
    }

    method EmitFunctionSection()
      requires IndexMap(config, localIndices)
      modifies binary
      ensures binary.bytes == old(binary.bytes) + Frame(Section(3, Vector(Uleb, Indices(config))))
    {
      hide Uleb, Frame, Concat, IndexMap, Indices, OptIndex, Locals;
      IndexMapList(config, localIndices);
      var payload := new Buffer();
      var count := CountLocals();
      payload.WriteUleb(count);
      ghost var base := payload.bytes;
      assert base == Uleb(count);
      ConcatNone(Uleb, base);
      WriteIndex(payload, Execute, base, []);
      ghost var xs := [] + OptIndex(localIndices, Execute);
      WriteIndex(payload, Initialize, base, xs);
      xs := xs + OptIndex(localIndices, Initialize);
      WriteIndex(payload, Shutdown, base, xs);
      xs := xs + OptIndex(localIndices, Shutdown);
      WriteIndex(payload, Validate, base, xs);
      xs := xs + OptIndex(localIndices, Validate);
      WriteIndex(payload, Metadata, base, xs);
      WriteSection(3, payload.bytes);
    }

    method WriteBody(payload: Buffer, present: bool, bytes: Bytes, ghost base: Bytes, ghost xs: seq<Bytes>)
      requires payload != binary && payload.bytes == base + Concat(Blob, xs)
      modifies payload
      ensures payload.bytes == base + Concat(Blob, xs + Opt(present, bytes))
    {
      hide Uleb, Concat;
      if present {
        ghost var before := payload.bytes;
        payload.WriteUleb(|bytes|);
        payload.WriteBytes(bytes);
        Regroup(before, Uleb(|bytes|), bytes);
        ConcatPush(base, Blob, xs, bytes);
      } else {
        assert xs + Opt(present, bytes) == xs;
      }
    }

    method EmitCodeSection(body: LocalFunc -> Bytes)
      requires IndexMap(config, localIndices)
      modifies binary
      ensures binary.bytes == old(binary.bytes) + Frame(Section(10, Vector(Blob, Bodies(config, body))))
    {
      hide Uleb, Frame, Concat, IndexMap, Bodies, OptIndex, Locals, Blob;
      IndexMapMembers(config, localIndices);
      BodiesList(config, body);
      var payload := new Buffer();
      var count := CountLocals();
      payload.WriteUleb(count);
      ghost var base := payload.bytes;
      assert base == Uleb(count);
      ConcatNone(Blob, base);
      WriteBody(payload, Execute in localIndices, body(Execute), base, []);
      ghost var xs := [] + [body(Execute)];
      WriteBody(payload, Initialize in localIndices, body(Initialize), base, xs);
      xs := xs + Opt(config.hasInitialize, body(Initialize));
      WriteBody(payload, true, body(Shutdown), base, xs);
      xs := xs + [body(Shutdown)];
      WriteBody(payload, Validate in localIndices, body(Validate), base, xs);
      xs := xs + Opt(config.hasValidate, body(Validate));
      WriteBody(payload, true, body(Metadata), base, xs);
      WriteSection(10, payload.bytes);
    }

    method WriteHeader()
      modifies binary
      ensures binary.bytes == HEADER
    {
      binary.bytes := [];
      binary.WriteByte(0x00);
      binary.WriteByte(0x61);
      binary.WriteByte(0x73);
      binary.WriteByte(0x6D);
      binary.WriteByte(0x01);
      binary.WriteByte(0x00);
      binary.WriteByte(0x00);
      binary.WriteByte(0x00);
    }

    /** The whole module, whatever an earlier call left behind. */
    method Emit(others: Others, body: LocalFunc -> Bytes) returns (r: Bytes)
      modifies this, binary
      ensures r == binary.bytes == Emitted(config, others, body)
    {
      hide *;
      funcTypes, localIndices := [], map[];
      WriteHeader();
      EmitTypeSection();
      WriteSection(2, others.imports);
      EmitFunctionSection();
      WriteSection(5, others.memory);
      WriteSection(7, others.exports);
      EmitCodeSection(body);
      SixFrames(config, others, body);
      return binary.bytes;
    }
  }

  lemma SixFrames(c: Config, others: Others, body: LocalFunc -> Bytes)
    ensures Emitted(c, others, body) ==
      HEADER + Frame(Section(1, Vector(TypeBytes, Types(c)))) + Frame(Section(2, others.imports))
      + Frame(Section(3, Vector(Uleb, Indices(c)))) + Frame(Section(5, others.memory))
      + Frame(Section(7, others.exports)) + Frame(Section(10, Vector(Blob, Bodies(c, body))))
  {
    hide Frame, Concat, Vector, Uleb, Types, Indices, Bodies, Blob, TypeBytes;
    var ss := Sections(c, others, body);
    ConcatNone(Frame, HEADER);
    var t: seq<Section> := [];
    ConcatPush(HEADER, Frame, t, ss[0]);
    t := t + [ss[0]];
    ConcatPush(HEADER, Frame, t, ss[1]);
    t := t + [ss[1]];
    ConcatPush(HEADER, Frame, t, ss[2]);
    t := t + [ss[2]];
    ConcatPush(HEADER, Frame, t, ss[3]);
    t := t + [ss[3]];
    ConcatPush(HEADER, Frame, t, ss[4]);
    t := t + [ss[4]];
    ConcatPush(HEADER, Frame, t, ss[5]);
    assert t + [ss[5]] == ss;
  }

  lemma RankedNone()
    ensures Ranked([], 0)
  {}

  // ---------- the layout, byte by byte

  /** The bytes of every local signature; 0x7F stands for a 32-bit integer. */
  lemma SignatureBytes()
    ensures TypeBytes(Signature(Execute)) == [0x60, 2, 0x7F, 0x7F, 2, 0x7F, 0x7F]
    ensures TypeBytes(Signature(Initialize)) == TypeBytes(Signature(Validate)) == [0x60, 2, 0x7F, 0x7F, 1, 0x7F]
    ensures TypeBytes(Signature(Shutdown)) == [0x60, 0, 1, 0x7F]
    ensures TypeBytes(Signature(Metadata)) == [0x60, 0, 2, 0x7F, 0x7F]
  {
    assert Uleb(0) == [0] && Uleb(1) == [1] && Uleb(2) == [2];
  }

  lemma ConcatOpt<T>(base: Bytes, enc: T -> Bytes, xs: seq<T>, present: bool, x: T)
    ensures base + Concat(enc, xs) + (if present then enc(x) else []) == base + Concat(enc, xs + Opt(present, x))
  {
    hide Concat;
    if present {
      ConcatPush(base, enc, xs, x);
    } else {
      assert xs + Opt(present, x) == xs;
    }
  }

  /** A list of three to five elements, laid out after what is there. */
  lemma ConcatFive<T>(base: Bytes, enc: T -> Bytes, xs: seq<T>, c: Config, e: T, i: T, s: T, v: T, m: T)
    ensures base + Concat(enc, xs + [e] + Opt(c.hasInitialize, i) + [s] + Opt(c.hasValidate, v) + [m]) ==
      base + Concat(enc, xs) + enc(e) + (if c.hasInitialize then enc(i) else []) + enc(s)
      + (if c.hasValidate then enc(v) else []) + enc(m)
  {
    hide Concat, Opt;
    ConcatPush(base, enc, xs, e);
    ConcatOpt(base, enc, xs + [e], c.hasInitialize, i);
    ConcatPush(base, enc, xs + [e] + Opt(c.hasInitialize, i), s);
    ConcatOpt(base, enc, xs + [e] + Opt(c.hasInitialize, i) + [s], c.hasValidate, v);
    ConcatPush(base, enc, xs + [e] + Opt(c.hasInitialize, i) + [s] + Opt(c.hasValidate, v), m);
  }

  lemma TypesList(c: Config)
    ensures Types(c) == c.imports + [Signature(Execute)] + Opt(c.hasInitialize, Signature(Initialize))
      + [Signature(Shutdown)] + Opt(c.hasValidate, Signature(Validate)) + [Signature(Metadata)]
  {
    hide Signature, Locals;
    LocalsCases(c);
  }

  /** The type section: a count, the imports' types, then those of the module's own functions. */
  lemma TypeLayout(c: Config)
    ensures var n := 3 + (if c.hasInitialize then 1 else 0) + (if c.hasValidate then 1 else 0);
      Vector(TypeBytes, Types(c)) ==
        Uleb(|c.imports| + n) + Concat(TypeBytes, c.imports)
        + [0x60, 2, 0x7F, 0x7F, 2, 0x7F, 0x7F]
        + (if c.hasInitialize then [0x60, 2, 0x7F, 0x7F, 1, 0x7F] else [])
        + [0x60, 0, 1, 0x7F]
        + (if c.hasValidate then [0x60, 2, 0x7F, 0x7F, 1, 0x7F] else [])
        + [0x60, 0, 2, 0x7F, 0x7F]
  {
    SignatureBytes();
    hide Uleb, Concat, TypeBytes, Signature, Opt, Locals;
    LocalCount(c);
    ConcatFive(Uleb(|Types(c)|), TypeBytes, c.imports, c, Signature(Execute), Signature(Initialize),
               Signature(Shutdown), Signature(Validate), Signature(Metadata));
    TypesList(c);
  }

  lemma IndicesList(c: Config)
    ensures var n, s := |c.imports|, if c.hasInitialize then 2 else 1;
      var m := if c.hasValidate then s + 2 else s + 1;
      Indices(c) == [] + [n % 0x1_0000_0000] + Opt(c.hasInitialize, (n + 1) % 0x1_0000_0000)
        + [(n + s) % 0x1_0000_0000] + Opt(c.hasValidate, (n + s + 1) % 0x1_0000_0000) + [(n + m) % 0x1_0000_0000]
  {
    hide Locals, Indices;
    LocalsCases(c);
  }

  /** The function section: a count, then the consecutive indices that follow the imports. */
  lemma FunctionLayout(c: Config)
    ensures var n, s := |c.imports|, if c.hasInitialize then 2 else 1;
      var m := if c.hasValidate then s + 2 else s + 1;
      Vector(Uleb, Indices(c)) ==
        [m + 1] + Uleb(n % 0x1_0000_0000) + (if c.hasInitialize then Uleb((n + 1) % 0x1_0000_0000) else [])
        + Uleb((n + s) % 0x1_0000_0000) + (if c.hasValidate then Uleb((n + s + 1) % 0x1_0000_0000) else [])
        + Uleb((n + m) % 0x1_0000_0000)
  {
    var n, s := |c.imports|, if c.hasInitialize then 2 else 1;
    var m := if c.hasValidate then s + 2 else s + 1;
    IndicesList(c);
    LocalCount(c);
    assert Uleb(m + 1) == [m + 1];
    hide Uleb, Concat, Opt, Locals, Indices;
    ConcatFive<nat>([m + 1], Uleb, [], c, n % 0x1_0000_0000, (n + 1) % 0x1_0000_0000, (n + s) % 0x1_0000_0000,
               (n + s + 1) % 0x1_0000_0000, (n + m) % 0x1_0000_0000);
    ConcatNone<nat>(Uleb, [m + 1]);
  }

  /** The code section: the same count, then every body behind its size. */
  lemma CodeLayout(c: Config, body: LocalFunc -> Bytes)
    ensures var n := 3 + (if c.hasInitialize then 1 else 0) + (if c.hasValidate then 1 else 0);
      Vector(Blob, Bodies(c, body)) ==
        [n] + (Uleb(|body(Execute)|) + body(Execute))
        + (if c.hasInitialize then Uleb(|body(Initialize)|) + body(Initialize) else [])
        + (Uleb(|body(Shutdown)|) + body(Shutdown))
        + (if c.hasValidate then Uleb(|body(Validate)|) + body(Validate) else [])
        + (Uleb(|body(Metadata)|) + body(Metadata))
  {
    var n := |Bodies(c, body)|;
    LocalCount(c);
    assert Uleb(n) == [n];
    hide Uleb, Concat, Opt, Locals, Bodies;
    ConcatFive([n], Blob, [], c, body(Execute), body(Initialize), body(Shutdown), body(Validate), body(Metadata));
    ConcatNone(Blob, [n]);
    BodiesList(c, body);
  }

  /** The module: eight fixed bytes, then six sections, each behind its number and size. */
  lemma EmittedLayout(c: Config, others: Others, body: LocalFunc -> Bytes)
    ensures var types, funcs, code := Vector(TypeBytes, Types(c)), Vector(Uleb, Indices(c)), Vector(Blob, Bodies(c, body));
      Emitted(c, others, body) ==
        [0x00, 0x61, 0x73, 0x6D, 0x01, 0x00, 0x00, 0x00]
        + ([1] + (Uleb(|types|) + types))
        + ([2] + (Uleb(|others.imports|) + others.imports))
        + ([3] + (Uleb(|funcs|) + funcs))
        + ([5] + (Uleb(|others.memory|) + others.memory))
        + ([7] + (Uleb(|others.exports|) + others.exports))
        + ([10] + (Uleb(|code|) + code))
  {
    hide Emitted, Vector, Types, Indices, Bodies, Uleb;
    SixFrames(c, others, body);
  }
}
