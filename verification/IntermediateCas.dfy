/** The authority's list of intermediate CAs. */
module IntermediateCas {
  import opened Results
  import opened ByteStrings
  import opened Certificates
  import opened CertificateChains

  datatype Ca = Ca(caId: string, certificate: Cert, status: string)

  const ACTIVE := "active"
  const REVOKED := "revoked"

  /** Certificate::verify says yes. */
  predicate CertificateHolds(crypto: Crypto, c: Cert)
    requires crypto.Crypto?
  {
    c.signature != [] && SignatureValid(crypto, c)
  }

  ghost predicate IssuedByActive(cas: seq<Ca>, key: Bytes) {
    exists j :: 0 <= j < |cas| && cas[j].certificate.subjectPubkey == key && cas[j].status == ACTIVE
  }

  /** The outcome of add_intermediate_ca. */
  ghost function AddOutcome(crypto: Crypto, root: Bytes, cas: seq<Ca>, ca: Ca): Result<()> {
    if crypto.NoVerifier? then Err(100)
    else if !CertificateHolds(crypto, ca.certificate) then Err(240)
    else if ca.certificate.issuerPubkey != root && !IssuedByActive(cas, ca.certificate.issuerPubkey) then Err(241)
    else Ok(())
  }

  ghost function Add(crypto: Crypto, root: Bytes, cas: seq<Ca>, ca: Ca): seq<Ca> {
    if AddOutcome(crypto, root, cas, ca).Ok? then cas + [ca] else cas
  }

  /** revoke_intermediate_ca marks the first entry with that id. */
  function Revoke(cas: seq<Ca>, caId: string): seq<Ca> {
    if cas == [] then []
    else if cas[0].caId == caId then [cas[0].(status := REVOKED)] + cas[1..]
    else [cas[0]] + Revoke(cas[1..], caId)
  }

  class MeshAuthority {
    const crypto: Crypto
    const root: Bytes
    var initialized: bool
    var intermediateCas: seq<Ca>

    constructor (crypto: Crypto, root: Bytes)
      ensures this.crypto == crypto && this.root == root && initialized && intermediateCas == []
    {
      this.crypto := crypto;
      this.root := root;
      initialized := true;
      intermediateCas := [];
    }

    method AddIntermediateCa(ca: Ca) returns (r: Result<()>)
      modifies this`intermediateCas
      ensures !initialized ==> r == Err(100) && intermediateCas == old(intermediateCas)
      ensures initialized ==> r == AddOutcome(crypto, root, old(intermediateCas), ca)
      ensures initialized ==> intermediateCas == Add(crypto, root, old(intermediateCas), ca)
    {
      if !initialized {
        return Err(100);
      }
      if crypto.NoVerifier? {
        return Err(100);
      }
      if !CertificateHolds(crypto, ca.certificate) {
        return Err(240);
      }
      var trustedIssuer := false;
      if ca.certificate.issuerPubkey == root {
        trustedIssuer := true;
      } else {
        for j := 0 to |intermediateCas|
          invariant !trustedIssuer
          invariant forall k :: 0 <= k < j ==>
            !(intermediateCas[k].certificate.subjectPubkey == ca.certificate.issuerPubkey && intermediateCas[k].status == ACTIVE)
        {
          if intermediateCas[j].certificate.subjectPubkey == ca.certificate.issuerPubkey && intermediateCas[j].status == ACTIVE {
            trustedIssuer := true;
            break;
          }
        }
      }
      if !trustedIssuer {
        return Err(241);
      }
      intermediateCas := intermediateCas + [ca];
      return Ok(());
    }

    method RevokeIntermediateCa(caId: string) returns (r: Result<()>)
      modifies this`intermediateCas
      ensures !initialized ==> r == Err(100) && intermediateCas == old(intermediateCas)
      ensures initialized ==> intermediateCas == Revoke(old(intermediateCas), caId)
      ensures initialized ==> r == if exists ca :: ca in old(intermediateCas) && ca.caId == caId then Ok(()) else Err(242)
    {
      if !initialized {
        return Err(100);
      }
      for i := 0 to |intermediateCas|
        invariant intermediateCas == old(intermediateCas)
        invariant forall k :: 0 <= k < i ==> intermediateCas[k].caId != caId
      {
        if intermediateCas[i].caId == caId {
          RevokeAt(intermediateCas, caId, i);
          intermediateCas := intermediateCas[i := intermediateCas[i].(status := REVOKED)];
          return Ok(());
        }
      }
      RevokeNone(intermediateCas, caId);
      return Err(242);
    }
  }

  lemma {:induction false} RevokeAt(cas: seq<Ca>, caId: string, i: nat)
    requires i < |cas| && cas[i].caId == caId && forall k :: 0 <= k < i ==> cas[k].caId != caId
    ensures Revoke(cas, caId) == cas[i := cas[i].(status := REVOKED)]
    decreases |cas|
  {
    if i > 0 { RevokeAt(cas[1..], caId, i - 1); }
  }

  lemma {:induction false} RevokeNone(cas: seq<Ca>, caId: string)
    requires forall k :: 0 <= k < |cas| ==> cas[k].caId != caId
    ensures Revoke(cas, caId) == cas
    decreases |cas|
  {
    if cas != [] { RevokeNone(cas[1..], caId); }
  }

  // ---------- every run

  datatype Op = OpAdd(ca: Ca) | OpRevoke(caId: string)

  ghost function Run(crypto: Crypto, root: Bytes, ops: seq<Op>): seq<Ca> {
    if ops == [] then []
    else
      var before := Run(crypto, root, ops[..|ops| - 1]);
      match ops[|ops| - 1]
      case OpAdd(ca) => Add(crypto, root, before, ca)
      case OpRevoke(caId) => Revoke(before, caId)
  }

  /** The certificates at the given places of the list. */
  ghost function Chain(cas: seq<Ca>, path: seq<nat>): (chain: seq<Cert>)
    requires forall i :: 0 <= i < |path| ==> path[i] < |cas|
    ensures |chain| == |path|
  {
    seq(|path|, i requires 0 <= i < |path| => cas[path[i]].certificate)
  }

  /** A chain of listed certificates from place k to the root, each issuer listed before what it issued. */
  ghost predicate Anchors(crypto: Crypto, root: Bytes, cas: seq<Ca>, k: nat, path: seq<nat>) {
    && path != [] && path[0] == k
    && (forall i :: 0 <= i < |path| ==> path[i] < |cas|)
    && (forall i, j :: 0 <= i < j < |path| ==> path[j] < path[i])
    && Verify(crypto, root, Chain(cas, path)).Ok?
  }

  ghost predicate Anchored(crypto: Crypto, root: Bytes, cas: seq<Ca>, k: nat) {
    exists path :: Anchors(crypto, root, cas, k, path)
  }

  ghost predicate AllAnchored(crypto: Crypto, root: Bytes, cas: seq<Ca>) {
    forall k :: 0 <= k < |cas| ==> Anchored(crypto, root, cas, k)
  }

  ghost predicate SameCertificates(cas: seq<Ca>, cas': seq<Ca>) {
    |cas| <= |cas'| && forall k :: 0 <= k < |cas| ==> cas'[k].certificate == cas[k].certificate
  }

  lemma StillAnchored(crypto: Crypto, root: Bytes, cas: seq<Ca>, cas': seq<Ca>, k: nat)
    requires SameCertificates(cas, cas') && k < |cas| && Anchored(crypto, root, cas, k)
    ensures Anchored(crypto, root, cas', k)
  {
    hide Verify;
    var path :| Anchors(crypto, root, cas, k, path);
    assert Chain(cas', path) == Chain(cas, path);
    assert Anchors(crypto, root, cas', k, path);
  }

  lemma {:induction false} RevokeKeepsCertificates(cas: seq<Ca>, caId: string)
    ensures |Revoke(cas, caId)| == |cas| && SameCertificates(cas, Revoke(cas, caId))
    decreases |cas|
  {
    if cas != [] {
      RevokeKeepsCertificates(cas[1..], caId);
      var r := Revoke(cas, caId);
      forall k | 0 <= k < |cas| ensures r[k].certificate == cas[k].certificate {
        if k > 0 {
          assert cas[k] == cas[1..][k - 1];
          assert r[k] == if cas[0].caId == caId then cas[1..][k - 1] else Revoke(cas[1..], caId)[k - 1];
        }
      }
    }
  }

  lemma SingleVerifies(crypto: Crypto, key: Bytes, c: Cert)
    requires crypto.Crypto? && SignatureValid(crypto, c) && c.issuerPubkey == key
    ensures Verify(crypto, key, [c]).Ok?
  {
    AcceptsIffLinked(crypto, {key}, [c]);
  }

  lemma NewAnchored(crypto: Crypto, root: Bytes, cas: seq<Ca>, ca: Ca)
    requires AllAnchored(crypto, root, cas) && AddOutcome(crypto, root, cas, ca).Ok?
    ensures Anchored(crypto, root, cas + [ca], |cas|)
  {
    hide Verify, SignatureValid, VerifyWith;
    var cas', k, c := cas + [ca], |cas|, ca.certificate;
    SingleVerifies(crypto, c.issuerPubkey, c);
    if c.issuerPubkey == root {
      assert Chain(cas', [k]) == [c];
      assert Anchors(crypto, root, cas', k, [k]);
    } else {
      var j :| 0 <= j < |cas| && cas[j].certificate.subjectPubkey == c.issuerPubkey && cas[j].status == ACTIVE;
      assert Anchored(crypto, root, cas, j);
      var path :| Anchors(crypto, root, cas, j, path);
      var chain := Chain(cas, path);
      assert chain[0].subjectPubkey == c.issuerPubkey;
      VerifySplice(crypto, root, c, chain);
      assert Chain(cas', [k] + path) == [c] + chain;
      assert Anchors(crypto, root, cas', k, [k] + path);
    }
  }

  lemma VerifySplice(crypto: Crypto, root: Bytes, c: Cert, chain: seq<Cert>)
    requires chain != [] && Verify(crypto, chain[0].subjectPubkey, [c]).Ok? && Verify(crypto, root, chain).Ok?
    ensures Verify(crypto, root, [c] + chain).Ok?
  {
    hide VerifyWith;
    Splice(crypto, {root}, [c], chain);
  }

  /**
   After every run of additions and revocations each listed CA has a chain made of listed certificates,
   issuers before what they issued, that CertificateChain::verify accepts against the root key.
   */
  lemma {:induction false} EveryRunAnchored(crypto: Crypto, root: Bytes, ops: seq<Op>)
    ensures AllAnchored(crypto, root, Run(crypto, root, ops))
    decreases |ops|
  {
    hide Anchored, AddOutcome;
    if ops != [] {
      var before := Run(crypto, root, ops[..|ops| - 1]);
      EveryRunAnchored(crypto, root, ops[..|ops| - 1]);
      var after := Run(crypto, root, ops);
      match ops[|ops| - 1] {
        case OpAdd(ca) =>
          if AddOutcome(crypto, root, before, ca).Ok? { NewAnchored(crypto, root, before, ca); }
        case OpRevoke(caId) => RevokeKeepsCertificates(before, caId);
      }
      forall k | 0 <= k < |after| ensures Anchored(crypto, root, after, k) {
        if k < |before| { StillAnchored(crypto, root, before, after, k); }
      }
    }
  }

  /**
   Whatever verify_with_intermediates accepts with intermediates from the authority's list can be completed
   by listed certificates to a chain that plain verify accepts.
   */
  lemma AcceptedChainsExtend(crypto: Crypto, root: Bytes, ops: seq<Op>, intermediates: seq<Cert>, clock: nat -> int, certs: seq<Cert>)
    returns (rest: seq<Cert>)
    requires VerifyWithIntermediates(crypto, root, intermediates, clock, certs).Ok?
    requires forall c :: c in intermediates ==> exists ca :: ca in Run(crypto, root, ops) && ca.certificate == c
    ensures Verify(crypto, root, certs + rest).Ok?
    ensures forall c :: c in rest ==> exists ca :: ca in Run(crypto, root, ops) && ca.certificate == c
  {
    hide Run, Verify, VerifyWith, SignatureValid;
    var cas := Run(crypto, root, ops);
    var trusted := TrustedKeys(root, intermediates, clock, |intermediates|);
    AcceptsIffLinked(crypto, trusted, certs);
    var key := certs[|certs| - 1].issuerPubkey;
    AcceptsIffLinked(crypto, {key}, certs);
    if key == root {
      rest := [];
      assert certs + rest == certs;
      PlainVerify(crypto, key, certs);
    } else {
      var i :| 0 <= i < |intermediates| && ValidAt(intermediates[i], clock(i)) && intermediates[i].subjectPubkey == key;
      assert intermediates[i] in intermediates;
      var ca :| ca in cas && ca.certificate == intermediates[i];
      var k :| 0 <= k < |cas| && cas[k] == ca;
      EveryRunAnchored(crypto, root, ops);
      assert Anchored(crypto, root, cas, k);
      var path :| Anchors(crypto, root, cas, k, path);
      rest := Chain(cas, path);
      assert rest[0].subjectPubkey == key;
      PlainVerify(crypto, root, rest);
      Splice(crypto, {root}, certs, rest);
      PlainVerify(crypto, root, certs + rest);
      forall c | c in rest ensures exists ca :: ca in cas && ca.certificate == c {
        var j :| 0 <= j < |rest| && rest[j] == c;
        assert cas[path[j]] in cas && cas[path[j]].certificate == c;
      }
    }
  }

  lemma PlainVerify(crypto: Crypto, root: Bytes, certs: seq<Cert>)
    ensures Verify(crypto, root, certs) == VerifyWith(crypto, {root}, certs)
  {
    hide VerifyWith;
  }

  // ---------- when a CA is listed

  /** The outcome of an addition in terms of the certificate and the list as it stands. */
  lemma AddAcceptsIff(crypto: Crypto, root: Bytes, cas: seq<Ca>, ca: Ca)
    ensures AddOutcome(crypto, root, cas, ca).Ok? <==>
      && crypto.Crypto? && ca.certificate.signature != []
      && crypto.verify(Body(ca.certificate), ca.certificate.signature, ca.certificate.issuerPubkey) == Ok(true)
      && (|| ca.certificate.issuerPubkey == root
          || exists j :: 0 <= j < |cas| && cas[j].certificate.subjectPubkey == ca.certificate.issuerPubkey
               && cas[j].status == "active")
    ensures crypto.NoVerifier? ==> AddOutcome(crypto, root, cas, ca) == Err(100)
    ensures crypto.Crypto? && (ca.certificate.signature == []
              || crypto.verify(Body(ca.certificate), ca.certificate.signature, ca.certificate.issuerPubkey) != Ok(true)) ==>
      AddOutcome(crypto, root, cas, ca) == Err(240)
    ensures AddOutcome(crypto, root, cas, ca).Err? ==> AddOutcome(crypto, root, cas, ca).code in {100, 240, 241}
  {
    hide Body;
  }

  lemma RunSnoc(crypto: Crypto, root: Bytes, ops: seq<Op>, op: Op)
    ensures Run(crypto, root, ops + [op]) ==
      if op.OpAdd? then Add(crypto, root, Run(crypto, root, ops), op.ca) else Revoke(Run(crypto, root, ops), op.caId)
  {
    hide Add, Revoke;
    assert (ops + [op])[..|ops|] == ops;
  }

  /** In any run an addition grows the list only under the root key or a CA that is listed and active at that moment. */
  lemma RunGrowsIff(crypto: Crypto, root: Bytes, ops: seq<Op>, ca: Ca)
    ensures var before, after := Run(crypto, root, ops), Run(crypto, root, ops + [OpAdd(ca)]);
      var key := ca.certificate.issuerPubkey;
      var grows :=
        && crypto.Crypto? && ca.certificate.signature != []
        && crypto.verify(Body(ca.certificate), ca.certificate.signature, key) == Ok(true)
        && (key == root || exists j :: 0 <= j < |before| && before[j].certificate.subjectPubkey == key
                             && before[j].status == "active");
      after == if grows then before + [ca] else before
  {
    hide Body, AddOutcome, Run;
    RunSnoc(crypto, root, ops, OpAdd(ca));
    AddAcceptsIff(crypto, root, Run(crypto, root, ops), ca);
  }

  /** Nobody listed under the key is active. */
  ghost predicate NoneActive(cas: seq<Ca>, key: Bytes) {
    forall j :: 0 <= j < |cas| && cas[j].certificate.subjectPubkey == key ==> cas[j].status != "active"
  }

  lemma {:induction false} RevokeActivatesNone(cas: seq<Ca>, caId: string, key: Bytes)
    requires NoneActive(cas, key)
    ensures NoneActive(Revoke(cas, caId), key)
    decreases |cas|
  {
    if cas != [] {
      var t := cas[1..];
      forall j | 0 <= j < |t| && t[j].certificate.subjectPubkey == key ensures t[j].status != "active" {
        assert t[j] == cas[j + 1];
      }
      RevokeActivatesNone(t, caId, key);
      var r := Revoke(cas, caId);
      forall j | 0 <= j < |r| && r[j].certificate.subjectPubkey == key ensures r[j].status != "active" {
        if cas[0].caId == caId {
          if j > 0 { assert r[j] == cas[j]; }
        } else {
          if j > 0 { assert r[j] == Revoke(t, caId)[j - 1]; } else { assert r[0] == cas[0]; }
        }
      }
    }
  }

  /**
   Once no listed CA with the key is active, and the key is not the root's, every addition under the key is
   refused with 241 and changes nothing, through any further operations that add no CA with that key.
   */
  lemma {:induction false} RevokedKeyAddsNothing(crypto: Crypto, root: Bytes, ops: seq<Op>, more: seq<Op>, ca: Ca)
    requires var key := ca.certificate.issuerPubkey;
      && key != root && NoneActive(Run(crypto, root, ops), key)
      && forall i :: 0 <= i < |more| && more[i].OpAdd? ==> more[i].ca.certificate.subjectPubkey != key
    ensures NoneActive(Run(crypto, root, ops + more), ca.certificate.issuerPubkey)
    ensures Run(crypto, root, ops + more + [OpAdd(ca)]) == Run(crypto, root, ops + more)
    ensures (crypto.Crypto? && ca.certificate.signature != []
             && crypto.verify(Body(ca.certificate), ca.certificate.signature, ca.certificate.issuerPubkey) == Ok(true)) ==>
      AddOutcome(crypto, root, Run(crypto, root, ops + more), ca) == Err(241)
    decreases |more|
  {
    hide Body, AddOutcome, Run;
    var key := ca.certificate.issuerPubkey;
    if more == [] {
      assert ops + more == ops;
    } else {
      var n := |more| - 1;
      var init, last := more[..n], more[n];
      RevokedKeyAddsNothing(crypto, root, ops, init, ca);
      assert ops + more == ops + init + [last];
      RunSnoc(crypto, root, ops + init, last);
      if last.OpRevoke? {
        RevokeActivatesNone(Run(crypto, root, ops + init), last.caId, key);
      }
    }
    RunGrowsIff(crypto, root, ops + more, ca);
    RefusedWith241(crypto, root, Run(crypto, root, ops + more), ca);
  }

  lemma RefusedWith241(crypto: Crypto, root: Bytes, cas: seq<Ca>, ca: Ca)
    requires ca.certificate.issuerPubkey != root && NoneActive(cas, ca.certificate.issuerPubkey)
    ensures (crypto.Crypto? && ca.certificate.signature != []
             && crypto.verify(Body(ca.certificate), ca.certificate.signature, ca.certificate.issuerPubkey) == Ok(true)) ==>
      AddOutcome(crypto, root, cas, ca) == Err(241)
  {
    hide Body;
  }

  /** Revoking marks the first CA with the id and nothing else, or changes nothing when there is none. */
  lemma RevokeExact(cas: seq<Ca>, caId: string)
    ensures forall i :: 0 <= i < |cas| && cas[i].caId == caId && (forall k :: 0 <= k < i ==> cas[k].caId != caId) ==>
      Revoke(cas, caId) == cas[i := Ca(cas[i].caId, cas[i].certificate, "revoked")]
    ensures (forall k :: 0 <= k < |cas| ==> cas[k].caId != caId) ==> Revoke(cas, caId) == cas
  {
    hide Revoke;
    forall i | 0 <= i < |cas| && cas[i].caId == caId && (forall k :: 0 <= k < i ==> cas[k].caId != caId)
      ensures Revoke(cas, caId) == cas[i := Ca(cas[i].caId, cas[i].certificate, "revoked")]
    {
      RevokeAt(cas, caId, i);
    }
    if forall k :: 0 <= k < |cas| ==> cas[k].caId != caId {
      RevokeNone(cas, caId);
    }
  }

  // ---------- what revocation and self-signing do not change

  function ListedCertificates(cas: seq<Ca>): (cs: seq<Cert>)
    ensures |cs| == |cas| && forall k :: 0 <= k < |cas| ==> cs[k] == cas[k].certificate
  {
    seq(|cas|, k requires 0 <= k < |cas| => cas[k].certificate)
  }

  /** Verification against the list's certificates does not see a revocation. */
  lemma RevocationNotSeen(crypto: Crypto, root: Bytes, cas: seq<Ca>, caId: string, clock: nat -> int, certs: seq<Cert>)
    ensures VerifyWithIntermediates(crypto, root, ListedCertificates(Revoke(cas, caId)), clock, certs)
         == VerifyWithIntermediates(crypto, root, ListedCertificates(cas), clock, certs)
  {
    hide Revoke, VerifyWithIntermediates, ListedCertificates;
    RevokeKeepsCertificates(cas, caId);
    assert ListedCertificates(Revoke(cas, caId)) == ListedCertificates(cas);
  }

  const YES := Crypto((body, signature, key) => Ok(true))

  /** A certificate from issuer to subject that is valid from 0 to 100. */
  function Issued(subject: Bytes, issuer: Bytes): Cert {
    Certificate(subject, issuer, [], 0, [], [], 0, 0, 100, [1])
  }

  /** A CA under the root key [1] is added and revoked; a chain that ends at its key [2] is accepted at time 50. */
  lemma RevokedCaAccepted()
    ensures var cas := Run(YES, [1], [OpAdd(Ca("ca", Issued([2], [1]), ACTIVE)), OpRevoke("ca")]);
      && |cas| == 1 && cas[0].status == REVOKED
      && VerifyWithIntermediates(YES, [1], ListedCertificates(cas), k => 50, [Issued([3], [2])]).Ok?
  {
    hide Run, VerifyWithIntermediates, Body, AddOutcome;
    var ca := Ca("ca", Issued([2], [1]), ACTIVE);
    RootIssues(ca);
    AddThenRevoke(YES, [1], ca);
    EndsAtListed(ListedCertificates([ca.(status := REVOKED)]), k => 50, Issued([3], [2]));
  }

  lemma RootIssues(ca: Ca)
    requires ca.certificate.issuerPubkey == [1] && ca.certificate.signature != []
    ensures AddOutcome(YES, [1], [], ca).Ok?
  {
    hide Body;
  }

  lemma AddThenRevoke(crypto: Crypto, root: Bytes, ca: Ca)
    requires AddOutcome(crypto, root, [], ca).Ok?
    ensures Run(crypto, root, [OpAdd(ca), OpRevoke(ca.caId)]) == [ca.(status := REVOKED)]
  {
    hide AddOutcome;
    var ops := [OpAdd(ca), OpRevoke(ca.caId)];
    assert ops[..1] == [OpAdd(ca)] && [OpAdd(ca)][..0] == [];
    assert Run(crypto, root, []) == [];
    assert Run(crypto, root, [OpAdd(ca)]) == [ca];
  }

  lemma EndsAtListed(listed: seq<Cert>, clock: nat -> int, c: Cert)
    requires |listed| == 1 && ValidAt(listed[0], clock(0)) && c.issuerPubkey == listed[0].subjectPubkey
    ensures VerifyWithIntermediates(YES, [1], listed, clock, [c]).Ok?
  {
    hide VerifyWith;
    assert listed[0].subjectPubkey in TrustedKeys([1], listed, clock, 1);
    LinkedOne(YES, TrustedKeys([1], listed, clock, 1), c);
    AcceptsIffLinked(YES, TrustedKeys([1], listed, clock, 1), [c]);
  }

  /** A one-certificate chain whose certificate is not self-signed is accepted: its issuer is the root key. */
  lemma LastNeedNotBeSelfSigned()
    ensures var c := Issued([2], [1]);
      c.subjectPubkey != c.issuerPubkey && Verify(YES, [1], [c]).Ok?
  {
    SingleVerifies(YES, [1], Issued([2], [1]));
  }
}
