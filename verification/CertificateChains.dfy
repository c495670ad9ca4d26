/** Certificate chains. The signer is a parameter. */
module CertificateChains {
  import opened Results
  import opened ByteStrings
  import opened Certificates
  import opened Hex

  /** signer.verify: body, signature, public key. */
  type Verifier = (Bytes, Bytes, Bytes) -> Result<bool>

  datatype Crypto = NoVerifier | Crypto(verify: Verifier)

  type Cert = c: Certificate | WellTyped(c) witness Certificate([], [], [], 0, [], [], 0, 0, 0, [])

  /** The signature check of one chain element. */
  function CheckSignature(crypto: Crypto, c: Cert): Result<()>
    requires crypto.Crypto?
  {
    var ok := crypto.verify(Body(c), c.signature, c.issuerPubkey);
    if ok.Err? then Err(ok.code) else if !ok.value then Err(204) else Ok(())
  }

  predicate SignatureValid(crypto: Crypto, c: Cert)
    requires crypto.Crypto?
  {
    crypto.verify(Body(c), c.signature, c.issuerPubkey) == Ok(true)
  }

  /** The loop of both verification procedures: the last issuer must be one of the trusted keys. */
  ghost function Walk(crypto: Crypto, trusted: set<Bytes>, certs: seq<Cert>): Result<()>
    requires crypto.Crypto?
  {
    if certs == [] then Ok(())
    else
      var s := CheckSignature(crypto, certs[0]);
      if s.Err? then s
      else if |certs| > 1 then
        if certs[0].issuerPubkey != certs[1].subjectPubkey then Err(217) else Walk(crypto, trusted, certs[1..])
      else if certs[0].issuerPubkey !in trusted then Err(218)
      else Ok(())
  }

  ghost function VerifyWith(crypto: Crypto, trusted: set<Bytes>, certs: seq<Cert>): Result<()> {
    if certs == [] then Err(200) else if crypto.NoVerifier? then Err(203) else Walk(crypto, trusted, certs)
  }

  /** CertificateChain::verify. */
  ghost function Verify(crypto: Crypto, root: Bytes, certs: seq<Cert>): Result<()> {
    VerifyWith(crypto, {root}, certs)
  }

  // ---------- what is accepted

  /** Every signature holds, each issuer is the next subject, and the last issuer is trusted. */
  ghost predicate Linked(crypto: Crypto, trusted: set<Bytes>, certs: seq<Cert>) {
    && certs != [] && crypto.Crypto?
    && (forall i :: 0 <= i < |certs| ==> SignatureValid(crypto, certs[i]))
    && (forall i :: 0 <= i < |certs| - 1 ==> certs[i].issuerPubkey == certs[i + 1].subjectPubkey)
    && certs[|certs| - 1].issuerPubkey in trusted
  }

  lemma LinkedCons(crypto: Crypto, trusted: set<Bytes>, c: Cert, t: seq<Cert>)
    requires crypto.Crypto? && t != []
    ensures Linked(crypto, trusted, [c] + t)
       <==> SignatureValid(crypto, c) && c.issuerPubkey == t[0].subjectPubkey && Linked(crypto, trusted, t)
  {
    hide SignatureValid;
    var certs := [c] + t;
    if Linked(crypto, trusted, certs) {
      assert certs[0] == c && certs[1] == t[0];
      forall i | 0 <= i < |t| ensures SignatureValid(crypto, t[i]) { assert t[i] == certs[i + 1]; }
      forall i | 0 <= i < |t| - 1 ensures t[i].issuerPubkey == t[i + 1].subjectPubkey {
        assert t[i] == certs[i + 1] && t[i + 1] == certs[i + 2];
      }
    }
    if SignatureValid(crypto, c) && c.issuerPubkey == t[0].subjectPubkey && Linked(crypto, trusted, t) {
      forall i | 0 <= i < |certs| ensures SignatureValid(crypto, certs[i]) {
        if i > 0 { assert certs[i] == t[i - 1]; }
      }
      forall i | 0 <= i < |certs| - 1 ensures certs[i].issuerPubkey == certs[i + 1].subjectPubkey {
        if i > 0 { assert certs[i] == t[i - 1] && certs[i + 1] == t[i]; }
      }
    }
  }

  lemma LinkedOne(crypto: Crypto, trusted: set<Bytes>, c: Cert)
    requires crypto.Crypto?
    ensures Linked(crypto, trusted, [c]) <==> SignatureValid(crypto, c) && c.issuerPubkey in trusted
  {
    hide SignatureValid;
    assert [c][0] == c;
  }

  lemma SignatureOk(crypto: Crypto, c: Cert)
    requires crypto.Crypto?
    ensures CheckSignature(crypto, c).Ok? <==> SignatureValid(crypto, c)
  {
    hide Body;
  }

  lemma {:induction false} WalkIffLinked(crypto: Crypto, trusted: set<Bytes>, certs: seq<Cert>)
    requires crypto.Crypto? && certs != []
    ensures Walk(crypto, trusted, certs).Ok? <==> Linked(crypto, trusted, certs)
    decreases |certs|
  {
    hide Linked, SignatureValid, CheckSignature, WellTyped;
    SignatureOk(crypto, certs[0]);
    if |certs| == 1 {
      assert certs == [certs[0]];
      LinkedOne(crypto, trusted, certs[0]);
    } else {
      WalkIffLinked(crypto, trusted, certs[1..]);
      LinkedCons(crypto, trusted, certs[0], certs[1..]);
      assert certs == [certs[0]] + certs[1..];
    }
  }

  lemma AcceptsIffLinked(crypto: Crypto, trusted: set<Bytes>, certs: seq<Cert>)
    ensures VerifyWith(crypto, trusted, certs).Ok? <==> Linked(crypto, trusted, certs)
  {
    hide Walk, Linked;
    if certs != [] && crypto.Crypto? { WalkIffLinked(crypto, trusted, certs); }
    else { NotLinked(crypto, trusted, certs); }
  }

  lemma NotLinked(crypto: Crypto, trusted: set<Bytes>, certs: seq<Cert>)
    requires certs == [] || crypto.NoVerifier?
    ensures !Linked(crypto, trusted, certs)
  {}

  /** Chains splice and split: A + B is accepted exactly when A leads to B's subject and B is accepted. */
  lemma Splice(crypto: Crypto, trusted: set<Bytes>, a: seq<Cert>, b: seq<Cert>)
    requires a != [] && b != []
    ensures VerifyWith(crypto, trusted, a + b).Ok?
       <==> VerifyWith(crypto, {b[0].subjectPubkey}, a).Ok? && VerifyWith(crypto, trusted, b).Ok?
  {
    hide VerifyWith, SignatureValid;
    var c, key := a + b, {b[0].subjectPubkey};
    AcceptsIffLinked(crypto, trusted, c);
    AcceptsIffLinked(crypto, key, a);
    AcceptsIffLinked(crypto, trusted, b);
    if Linked(crypto, trusted, c) {
      LinkedParts(crypto, trusted, a, b);
    }
    if Linked(crypto, key, a) && Linked(crypto, trusted, b) {
      forall i | 0 <= i < |c| ensures SignatureValid(crypto, c[i]) {
        if i < |a| { assert c[i] == a[i]; } else { assert c[i] == b[i - |a|]; }
      }
      forall i | 0 <= i < |c| - 1 ensures c[i].issuerPubkey == c[i + 1].subjectPubkey {
        if i < |a| - 1 { assert c[i] == a[i] && c[i + 1] == a[i + 1]; }
        else if i >= |a| { assert c[i] == b[i - |a|] && c[i + 1] == b[i - |a| + 1]; }
      }
    }
  }

  lemma LinkedParts(crypto: Crypto, trusted: set<Bytes>, a: seq<Cert>, b: seq<Cert>)
    requires a != [] && b != [] && Linked(crypto, trusted, a + b)
    ensures Linked(crypto, {b[0].subjectPubkey}, a) && Linked(crypto, trusted, b)
  {
    hide SignatureValid;
    var c := a + b;
    forall i | 0 <= i < |a| ensures SignatureValid(crypto, a[i]) { assert a[i] == c[i]; }
    forall i | 0 <= i < |b| ensures SignatureValid(crypto, b[i]) { assert b[i] == c[|a| + i]; }
    forall i | 0 <= i < |a| - 1 ensures a[i].issuerPubkey == a[i + 1].subjectPubkey { assert a[i] == c[i] && a[i + 1] == c[i + 1]; }
    forall i | 0 <= i < |b| - 1 ensures b[i].issuerPubkey == b[i + 1].subjectPubkey {
      assert b[i] == c[|a| + i] && b[i + 1] == c[|a| + i + 1];
    }
    var last := |a| - 1;
    assert c[last] == a[last] && c[last + 1] == b[0];
    assert c[last].issuerPubkey == c[last + 1].subjectPubkey;
  }

  // ---------- intermediates

  predicate ValidAt(c: Certificate, timestamp: int) { c.notBefore <= timestamp <= c.notAfter }

  /** The root and the subjects of the first n intermediates that are valid when they are looked at. */
  ghost function TrustedKeys(root: Bytes, intermediates: seq<Cert>, clock: nat -> int, n: nat): set<Bytes>
    requires n <= |intermediates|
  {
    {root} + set i | 0 <= i < n && ValidAt(intermediates[i], clock(i)) :: intermediates[i].subjectPubkey
  }

  /** CertificateChain::verify_with_intermediates; clock(i) is the time read for intermediate i. */
  ghost function VerifyWithIntermediates(crypto: Crypto, root: Bytes, intermediates: seq<Cert>, clock: nat -> int, certs: seq<Cert>): Result<()> {
    VerifyWith(crypto, TrustedKeys(root, intermediates, clock, |intermediates|), certs)
  }

  /** Without intermediates the two procedures agree, down to the error code. */
  lemma NoIntermediates(crypto: Crypto, root: Bytes, clock: nat -> int, certs: seq<Cert>)
    ensures VerifyWithIntermediates(crypto, root, [], clock, certs) == Verify(crypto, root, certs)
  {
    hide Walk;
    assert TrustedKeys(root, [], clock, 0) == {root};
  }

  // ---------- the verdict in terms of the certificates alone

  /** Plain verification: signatures, links, and the root key as the last issuer. */
  lemma VerifyAcceptsIff(crypto: Crypto, root: Bytes, certs: seq<Cert>)
    ensures Verify(crypto, root, certs).Ok? <==>
      && certs != [] && crypto.Crypto?
      && (forall i :: 0 <= i < |certs| ==>
            crypto.verify(Body(certs[i]), certs[i].signature, certs[i].issuerPubkey) == Ok(true))
      && (forall i :: 0 <= i < |certs| - 1 ==> certs[i].issuerPubkey == certs[i + 1].subjectPubkey)
      && certs[|certs| - 1].issuerPubkey == root
  {
    hide Body;
    AcceptsIffLinked(crypto, {root}, certs);
  }

  /** With intermediates the last issuer may also be the subject of one that is valid when it is looked at. */
  lemma IntermediatesAcceptIff(crypto: Crypto, root: Bytes, intermediates: seq<Cert>, clock: nat -> int, certs: seq<Cert>)
    ensures VerifyWithIntermediates(crypto, root, intermediates, clock, certs).Ok? <==>
      && certs != [] && crypto.Crypto?
      && (forall i :: 0 <= i < |certs| ==>
            crypto.verify(Body(certs[i]), certs[i].signature, certs[i].issuerPubkey) == Ok(true))
      && (forall i :: 0 <= i < |certs| - 1 ==> certs[i].issuerPubkey == certs[i + 1].subjectPubkey)
      && (|| certs[|certs| - 1].issuerPubkey == root
          || exists k :: 0 <= k < |intermediates| && intermediates[k].notBefore <= clock(k) <= intermediates[k].notAfter
               && intermediates[k].subjectPubkey == certs[|certs| - 1].issuerPubkey)
  {
    hide Body;
    var keys := TrustedKeys(root, intermediates, clock, |intermediates|);
    AcceptsIffLinked(crypto, keys, certs);
  }

  /** Certificate i and all before it pass the signature check and link to the next one. */
  ghost predicate PassesUpTo(crypto: Crypto, certs: seq<Cert>, i: nat)
    requires crypto.Crypto? && i < |certs|
  {
    forall j :: 0 <= j < i ==>
      && crypto.verify(Body(certs[j]), certs[j].signature, certs[j].issuerPubkey) == Ok(true)
      && certs[j].issuerPubkey == certs[j + 1].subjectPubkey
  }

  lemma {:induction false} WalkCodes(crypto: Crypto, trusted: set<Bytes>, certs: seq<Cert>, i: nat)
    requires crypto.Crypto? && i < |certs| && PassesUpTo(crypto, certs, i)
    ensures var ok := crypto.verify(Body(certs[i]), certs[i].signature, certs[i].issuerPubkey);
      && (ok.Err? ==> Walk(crypto, trusted, certs) == Err(ok.code))
      && (ok == Ok(false) ==> Walk(crypto, trusted, certs) == Err(204))
      && (ok == Ok(true) && i + 1 < |certs| && certs[i].issuerPubkey != certs[i + 1].subjectPubkey ==>
            Walk(crypto, trusted, certs) == Err(217))
      && (ok == Ok(true) && i + 1 == |certs| && certs[i].issuerPubkey !in trusted ==>
            Walk(crypto, trusted, certs) == Err(218))
    decreases i
  {
    hide Body;
    if i > 0 {
      var t := certs[1..];
      assert crypto.verify(Body(certs[0]), certs[0].signature, certs[0].issuerPubkey) == Ok(true);
      assert certs[0].issuerPubkey == certs[1].subjectPubkey;
      forall j | 0 <= j < i - 1
        ensures crypto.verify(Body(t[j]), t[j].signature, t[j].issuerPubkey) == Ok(true)
        ensures t[j].issuerPubkey == t[j + 1].subjectPubkey
      {
        assert t[j] == certs[j + 1] && t[j + 1] == certs[j + 2];
      }
      WalkCodes(crypto, trusted, t, i - 1);
    }
  }

  /** The code of every refusal: the first certificate that fails decides, its signature before its link. */
  lemma VerifyCodes(crypto: Crypto, trusted: set<Bytes>, certs: seq<Cert>, i: nat)
    ensures certs == [] ==> VerifyWith(crypto, trusted, certs) == Err(200)
    ensures certs != [] && crypto.NoVerifier? ==> VerifyWith(crypto, trusted, certs) == Err(203)
    ensures crypto.Crypto? && i < |certs| && PassesUpTo(crypto, certs, i) ==>
      var ok := crypto.verify(Body(certs[i]), certs[i].signature, certs[i].issuerPubkey);
      var r := VerifyWith(crypto, trusted, certs);
      && (ok.Err? ==> r == Err(ok.code))
      && (ok == Ok(false) ==> r == Err(204))
      && (ok == Ok(true) && i + 1 < |certs| && certs[i].issuerPubkey != certs[i + 1].subjectPubkey ==> r == Err(217))
      && (ok == Ok(true) && i + 1 == |certs| && certs[i].issuerPubkey !in trusted ==> r == Err(218))
  {
    hide Walk, PassesUpTo, Body;
    if crypto.Crypto? && i < |certs| && PassesUpTo(crypto, certs, i) {
      WalkCodes(crypto, trusted, certs, i);
    }
  }

  // ---------- the procedures

  method VerifyChain(crypto: Crypto, root: Bytes, certs: seq<Cert>) returns (r: Result<()>)
    ensures r == Verify(crypto, root, certs)
  {
    hide Body, WellTyped;
    if certs == [] {
      return Err(200);
    }
    if crypto.NoVerifier? {
      return Err(203);
    }
    for i := 0 to |certs|
      invariant Walk(crypto, {root}, certs[i..]) == Walk(crypto, {root}, certs)
    {
      assert certs[i..][1..] == certs[i + 1..];
      var s := CheckSignature(crypto, certs[i]);
      if s.Err? {
        return s;
      }
      if i + 1 < |certs| {
        if certs[i].issuerPubkey != certs[i + 1].subjectPubkey {
          return Err(217);
        }
      } else {
        if certs[i].issuerPubkey != root {
          return Err(218);
        }
        assert certs[i + 1..] == [];
      }
    }
    return Ok(());
  }

  /** The map is keyed by hexadecimal strings, which is the same as being keyed by the keys themselves. */
  ghost predicate KeyedByHex(issuers: map<string, Bytes>, keys: set<Bytes>) {
    forall k: Bytes :: ToHex(k) in issuers <==> k in keys
  }

  lemma AddIssuer(issuers: map<string, Bytes>, keys: set<Bytes>, key: Bytes)
    requires KeyedByHex(issuers, keys)
    ensures KeyedByHex(issuers[ToHex(key) := key], keys + {key})
  {
    hide ToHex;
    forall k: Bytes ensures ToHex(k) in issuers[ToHex(key) := key] <==> k in keys + {key} {
      if ToHex(k) == ToHex(key) { HexInjective(k, key); }
    }
  }

  method TrustedIssuers(root: Bytes, intermediates: seq<Cert>, clock: nat -> int) returns (issuers: map<string, Bytes>)
    ensures KeyedByHex(issuers, TrustedKeys(root, intermediates, clock, |intermediates|))
  {
    hide KeyedByHex, ToHex;
    var hex := BytesToHex(root);
    NoIssuers();
    AddIssuer(map[], {}, root);
    issuers := map[hex := root];
    assert {} + {root} == TrustedKeys(root, intermediates, clock, 0);
    for i := 0 to |intermediates|
      invariant KeyedByHex(issuers, TrustedKeys(root, intermediates, clock, i))
    {
      ghost var keys := TrustedKeys(root, intermediates, clock, i);
      var key := intermediates[i].subjectPubkey;
      if ValidAt(intermediates[i], clock(i)) {
        AddIssuer(issuers, keys, key);
        var h := BytesToHex(key);
        issuers := issuers[h := key];
        assert TrustedKeys(root, intermediates, clock, i + 1) == keys + {key};
      } else {
        assert TrustedKeys(root, intermediates, clock, i + 1) == keys;
      }
    }
  }

  lemma NoIssuers()
    ensures KeyedByHex(map[], {})
  {}

  method VerifyChainWithIntermediates(crypto: Crypto, root: Bytes, intermediates: seq<Cert>, clock: nat -> int, certs: seq<Cert>)
    returns (r: Result<()>)
    ensures r == VerifyWithIntermediates(crypto, root, intermediates, clock, certs)
  {
    hide Body, WellTyped, TrustedKeys, ToHex;
    if certs == [] {
      return Err(200);
    }
    if crypto.NoVerifier? {
      return Err(203);
    }
    var issuers := TrustedIssuers(root, intermediates, clock);
    ghost var trusted := TrustedKeys(root, intermediates, clock, |intermediates|);
    for i := 0 to |certs|
      invariant Walk(crypto, trusted, certs[i..]) == Walk(crypto, trusted, certs)
    {
      assert certs[i..][1..] == certs[i + 1..];
      var s := CheckSignature(crypto, certs[i]);
      if s.Err? {
        return s;
      }
      if i + 1 < |certs| {
        if certs[i].issuerPubkey != certs[i + 1].subjectPubkey {
          return Err(217);
        }
      } else {
        var hex := BytesToHex(certs[i].issuerPubkey);
        if hex !in issuers {
          return Err(218);
        }
        assert certs[i + 1..] == [];
      }
    }
    return Ok(());
  }
}
