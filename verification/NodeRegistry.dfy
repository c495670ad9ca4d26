/** Enrolment and aliases over the registry's tables. */
module NodeRegistry {
  import opened Results
  import opened DisplayNames

  datatype NodeRow = NodeRow(
    displayName: string, meshId: string, role: string, fingerprint: string, epoch: nat, enrolledAt: int)

  datatype CertificateRow = CertificateRow(
    nodeId: string, issuerKey: string, subjectKey: string, role: string, epoch: nat, issuedAt: int, expiresAt: int)

  datatype AliasRow = AliasRow(nodeId: string, createdAt: int)

  /** Each table keyed by its unique column: node id, fingerprint, alias. */
  datatype Tables = Tables(
    nodes: map<string, NodeRow>, certificates: map<string, CertificateRow>, aliases: map<string, AliasRow>)

  const EMPTY := Tables(map[], map[], map[])

  /** The arguments of enroll_node and its two readings of the clock. */
  datatype Enrollment = Enrollment(
    nodeId: string, displayName: string, meshId: string, role: string, fingerprint: string,
    issuerKey: string, subjectKey: string, epoch: nat, issuedAt: int, expiresAt: int, now: int, aliasNow: int)

  datatype Enrolled = Enrolled(nodeId: string, node: NodeRow, fingerprint: string, certificate: CertificateRow)

  // ---------- what the operations amount to

  predicate IsDisplayName(t: Tables, name: string) {
    exists n :: n in t.nodes && t.nodes[n].displayName == name
  }

  function NewNode(e: Enrollment): NodeRow {
    NodeRow(Normalize(e.displayName), e.meshId, e.role, e.fingerprint, e.epoch, e.now)
  }

  function NewCertificate(e: Enrollment): CertificateRow {
    CertificateRow(e.nodeId, e.issuerKey, e.subjectKey, e.role, e.epoch, e.issuedAt, e.expiresAt)
  }

  /** No unique column of the three tables stands in the way. */
  predicate Enrollable(t: Tables, e: Enrollment) {
    && e.nodeId !in t.nodes && !IsDisplayName(t, Normalize(e.displayName))
    && e.fingerprint !in t.certificates && Normalize(e.displayName) !in t.aliases
  }

  function AfterEnroll(t: Tables, e: Enrollment): Tables {
    if !Enrollable(t, e) then t
    else Tables(t.nodes[e.nodeId := NewNode(e)], t.certificates[e.fingerprint := NewCertificate(e)],
                t.aliases[Normalize(e.displayName) := AliasRow(e.nodeId, e.aliasNow)])
  }

  function AfterAlias(t: Tables, alias: string, nodeId: string, now: int): Tables {
    if nodeId !in t.nodes || Normalize(alias) in t.aliases then t
    else t.(aliases := t.aliases[Normalize(alias) := AliasRow(nodeId, now)])
  }

  function AfterRelease(t: Tables, alias: string): Tables { t.(aliases := t.aliases - {Normalize(alias)}) }

  /** An enrolment succeeds exactly on new values of all unique columns, and then adds these three rows. */
  lemma EnrollExact(t: Tables, e: Enrollment)
    ensures var name := Normalize(e.displayName);
      var free :=
        && e.nodeId !in t.nodes && e.fingerprint !in t.certificates && name !in t.aliases
        && forall n :: n in t.nodes ==> t.nodes[n].displayName != name;
      AfterEnroll(t, e) ==
        if free then
          Tables(t.nodes[e.nodeId := NodeRow(name, e.meshId, e.role, e.fingerprint, e.epoch, e.now)],
                 t.certificates[e.fingerprint :=
                   CertificateRow(e.nodeId, e.issuerKey, e.subjectKey, e.role, e.epoch, e.issuedAt, e.expiresAt)],
                 t.aliases[name := AliasRow(e.nodeId, e.aliasNow)])
        else t
  {
    hide Normalize;
  }

  /** An alias is added exactly for a listed node and a free name; a release removes the name and nothing else. */
  lemma AliasExact(t: Tables, alias: string, nodeId: string, now: int)
    ensures var name := Normalize(alias);
      && AfterAlias(t, alias, nodeId, now).nodes == AfterRelease(t, alias).nodes == t.nodes
      && AfterAlias(t, alias, nodeId, now).certificates == AfterRelease(t, alias).certificates == t.certificates
      && (nodeId in t.nodes && name !in t.aliases ==>
            AfterAlias(t, alias, nodeId, now).aliases == t.aliases[name := AliasRow(nodeId, now)])
      && (nodeId !in t.nodes || name in t.aliases ==> AfterAlias(t, alias, nodeId, now) == t)
      && (forall a :: a in AfterRelease(t, alias).aliases <==> a in t.aliases && a != name)
      && (forall a :: a in t.aliases && a != name ==> AfterRelease(t, alias).aliases[a] == t.aliases[a])
  {
    hide Normalize;
  }

  // ---------- the naming invariant

  /** The name is the node's display name or one of its aliases. */
  predicate Owns(t: Tables, nodeId: string, name: string) {
    || (nodeId in t.nodes && t.nodes[nodeId].displayName == name)
    || (name in t.aliases && t.aliases[name].nodeId == nodeId)
  }

  /** Every display name is also an alias of the same node. */
  ghost predicate DisplayNamesClaimed(t: Tables) {
    forall n :: n in t.nodes ==>
      t.nodes[n].displayName in t.aliases && t.aliases[t.nodes[n].displayName].nodeId == n
  }

  /** Aliases and certificates refer to nodes, and every node has the certificate it was enrolled with. */
  ghost predicate Referential(t: Tables) {
    && (forall a :: a in t.aliases ==> t.aliases[a].nodeId in t.nodes)
    && (forall c :: c in t.certificates ==> t.certificates[c].nodeId in t.nodes)
    && (forall n :: n in t.nodes ==>
          t.nodes[n].fingerprint in t.certificates && t.certificates[t.nodes[n].fingerprint].nodeId == n)
  }

  ghost predicate NamesNormal(t: Tables) {
    && (forall n :: n in t.nodes ==> NormalForm(t.nodes[n].displayName))
    && (forall a :: a in t.aliases ==> NormalForm(a))
  }

  ghost predicate Inv(t: Tables) { DisplayNamesClaimed(t) && Referential(t) && NamesNormal(t) }

  /** No name, as display name or alias, belongs to two nodes. */
  ghost predicate SingleOwner(t: Tables) {
    forall name, m, n :: Owns(t, m, name) && Owns(t, n, name) ==> m == n
  }

  /** The invariant leaves every name at most one owner, and only normalised names have one. */
  lemma InvSingleOwner(t: Tables)
    requires Inv(t)
    ensures SingleOwner(t)
    ensures forall n, name :: Owns(t, n, name) ==> n in t.nodes && Normalize(name) == name
  {
    hide Normalize, NormalForm;
    forall n, name | Owns(t, n, name) ensures n in t.nodes && Normalize(name) == name {
      assert NormalForm(name);
      NormalizeIdempotent(name);
    }
  }

  lemma EnrollKeepsInv(t: Tables, e: Enrollment)
    requires Inv(t)
    ensures Inv(AfterEnroll(t, e))
  {
    hide Normalize, NormalForm;
    NormalizeIdempotent(e.displayName);
    if Enrollable(t, e) {
      var u := AfterEnroll(t, e);
      forall n | n in u.nodes
        ensures u.nodes[n].displayName in u.aliases && u.aliases[u.nodes[n].displayName].nodeId == n
      {
        if n != e.nodeId {
          assert u.nodes[n] == t.nodes[n];
        }
      }
    }
  }

  lemma AliasKeepsInv(t: Tables, alias: string, nodeId: string, now: int)
    requires Inv(t)
    ensures Inv(AfterAlias(t, alias, nodeId, now))
  {
    hide Normalize, NormalForm;
    NormalizeIdempotent(alias);
  }

  /** Under the invariant one look at the alias table decides whether a name is free. */
  lemma FreeNames(t: Tables, e: Enrollment)
    requires Inv(t)
    ensures Enrollable(t, e) <==>
      e.nodeId !in t.nodes && e.fingerprint !in t.certificates
      && forall n :: !Owns(t, n, Normalize(e.displayName))
  {
    hide Normalize, NormalForm;
    var name := Normalize(e.displayName);
    if IsDisplayName(t, name) {
      var n :| n in t.nodes && t.nodes[n].displayName == name;
      assert Owns(t, n, name);
    }
    if name in t.aliases {
      assert Owns(t, t.aliases[name].nodeId, name);
    }
  }

  // ---------- runs

  datatype Call = Enroll(e: Enrollment) | AddAlias(alias: string, nodeId: string, now: int)

  function Step(t: Tables, c: Call): Tables {
    match c
    case Enroll(e) => AfterEnroll(t, e)
    case AddAlias(alias, nodeId, now) => AfterAlias(t, alias, nodeId, now)
  }

  function Run(t: Tables, calls: seq<Call>): Tables
    decreases |calls|
  {
    if calls == [] then t else Run(Step(t, calls[0]), calls[1..])
  }

  /** One call never takes a name, a node or a certificate away. */
  lemma StepKeepsOwners(t: Tables, c: Call, n: string, name: string)
    requires Owns(t, n, name)
    ensures Owns(Step(t, c), n, name)
  {
    hide Normalize;
  }

  /** After any run from a good state: the invariant, a single owner for every name, and no owner ever displaced. */
  lemma {:induction false} RunKeeps(t: Tables, calls: seq<Call>)
    requires Inv(t)
    ensures Inv(Run(t, calls)) && SingleOwner(Run(t, calls))
    ensures forall n, name :: Owns(t, n, name) ==> Owns(Run(t, calls), n, name)
    decreases |calls|
  {
    hide Owns, Normalize, NormalForm, Inv, AfterEnroll, AfterAlias, SingleOwner;
    if calls == [] {
      InvSingleOwner(t);
    } else {
      StepKeepsInv(t, calls[0]);
      forall n, name | Owns(t, n, name) ensures Owns(Step(t, calls[0]), n, name) {
        StepKeepsOwners(t, calls[0], n, name);
      }
      RunKeeps(Step(t, calls[0]), calls[1..]);
    }
  }

  lemma StepKeepsInv(t: Tables, c: Call)
    requires Inv(t)
    ensures Inv(Step(t, c))
  {
    match c
    case Enroll(e) => EnrollKeepsInv(t, e);
    case AddAlias(alias, nodeId, now) => AliasKeepsInv(t, alias, nodeId, now);
  }

  /** The registry as it is opened on a fresh database. */
  lemma EveryRun(calls: seq<Call>)
    ensures Inv(Run(EMPTY, calls)) && SingleOwner(Run(EMPTY, calls))
  {
    RunKeeps(EMPTY, calls);
  }

  // ---------- releasing an alias

  /** Releasing keeps the invariant exactly when the name is nobody's display name. */
  lemma ReleaseKeepsInvIff(t: Tables, alias: string)
    requires Inv(t)
    ensures Inv(AfterRelease(t, alias)) <==> !IsDisplayName(t, Normalize(alias))
  {
    hide Normalize, NormalForm;
    var name := Normalize(alias);
    var u := AfterRelease(t, alias);
    if IsDisplayName(t, name) {
      var n :| n in t.nodes && t.nodes[n].displayName == name;
      assert n in u.nodes && u.nodes[n].displayName !in u.aliases;
    }
  }

  /** Once a display name is released, any other node can take it as an alias, and it has two owners. */
  lemma ReleasedNameIsTaken(t: Tables, n: string, m: string, now: int)
    requires Inv(t) && n in t.nodes && m in t.nodes && m != n
    ensures var name := t.nodes[n].displayName;
      var u := AfterAlias(AfterRelease(t, name), name, m, now);
      Owns(u, n, name) && Owns(u, m, name) && !SingleOwner(u)
  {
    hide Normalize, NormalForm;
    var name := t.nodes[n].displayName;
    assert NormalForm(name);
    NormalizeIdempotent(name);
    var u := AfterAlias(AfterRelease(t, name), name, m, now);
    assert Owns(u, n, name) && Owns(u, m, name);
  }

  // ---------- the procedures

  class Registry {
    var db: Tables
    /** What a rollback returns to. */
    var journal: Tables

    constructor ()
      ensures db == EMPTY
    {
      db, journal := EMPTY, EMPTY;
    }

    method Begin()
      modifies this
      ensures db == old(db) && journal == old(db)
    {
      journal := db;
    }

    method Rollback()
      modifies this
      ensures db == old(journal) && journal == old(journal)
    {
      db := journal;
    }

    /** INSERT INTO nodes: refused by the primary key or by the unique display name. */
    method InsertNode(nodeId: string, row: NodeRow) returns (done: bool)
      modifies this
      ensures done <==> nodeId !in old(db).nodes && !IsDisplayName(old(db), row.displayName)
      ensures db == if done then old(db).(nodes := old(db).nodes[nodeId := row]) else old(db)
      ensures journal == old(journal)
    {
      done := nodeId !in db.nodes && forall n :: n in db.nodes ==> db.nodes[n].displayName != row.displayName;
      if done {
        db := db.(nodes := db.nodes[nodeId := row]);
      }
    }

    /** INSERT INTO certificates: refused by the unique fingerprint or by the foreign key. */
    method InsertCertificate(fingerprint: string, row: CertificateRow) returns (done: bool)
      modifies this
      ensures done <==> fingerprint !in old(db).certificates && row.nodeId in old(db).nodes
      ensures db ==
        if done then old(db).(certificates := old(db).certificates[fingerprint := row]) else old(db)
      ensures journal == old(journal)
    {
      done := fingerprint !in db.certificates && row.nodeId in db.nodes;
      if done {
        db := db.(certificates := db.certificates[fingerprint := row]);
      }
    }

    /** INSERT INTO node_aliases: refused by the primary key or by the foreign key. */
    method InsertAlias(alias: string, row: AliasRow) returns (done: bool)
      modifies this
      ensures done <==> alias !in old(db).aliases && row.nodeId in old(db).nodes
      ensures db == if done then old(db).(aliases := old(db).aliases[alias := row]) else old(db)
      ensures journal == old(journal)
    {
      done := alias !in db.aliases && row.nodeId in db.nodes;
      if done {
        db := db.(aliases := db.aliases[alias := row]);
      }
    }

    /** Three inserts in one transaction: all of them, or nothing changes. */
    method EnrollNode(e: Enrollment) returns (r: Result<Enrolled>)
      modifies this
      ensures db == AfterEnroll(old(db), e)
      ensures r == if Enrollable(old(db), e) then Ok(Enrolled(e.nodeId, NewNode(e), e.fingerprint, NewCertificate(e)))
                   else Err(220)
      ensures r.Err? ==> db == old(db)
    {
      hide Normalize, NormalForm, IsDisplayName;
      var normalized := NormalizeName(e.displayName);
      Begin();
      var node := NodeRow(normalized, e.meshId, e.role, e.fingerprint, e.epoch, e.now);
      var done := InsertNode(e.nodeId, node);
      if !done {
        Rollback();
        return Err(220);
      }
      var certificate :=
        CertificateRow(e.nodeId, e.issuerKey, e.subjectKey, e.role, e.epoch, e.issuedAt, e.expiresAt);
      done := InsertCertificate(e.fingerprint, certificate);
      if !done {
        Rollback();
        return Err(220);
      }
      done := InsertAlias(normalized, AliasRow(e.nodeId, e.aliasNow));
      if !done {
        Rollback();
        return Err(220);
      }
      return Ok(Enrolled(e.nodeId, node, e.fingerprint, certificate));
    }

    method RegisterAlias(alias: string, nodeId: string, now: int) returns (r: Result<()>)
      modifies this
      ensures db == AfterAlias(old(db), alias, nodeId, now)
      ensures r == if nodeId !in old(db).nodes then Err(404)
                   else if Normalize(alias) in old(db).aliases then Err(220) else Ok(())
      ensures r.Err? ==> db == old(db)
    {
      hide Normalize, NormalForm;
      var normalized := NormalizeName(alias);
      if nodeId !in db.nodes {
        return Err(404);
      }
      var done := InsertAlias(normalized, AliasRow(nodeId, now));
      if !done {
        return Err(220);
      }
      return Ok(());
    }

    method ReleaseAlias(alias: string)
      modifies this
      ensures db == AfterRelease(old(db), alias)
    {
      hide Normalize, NormalForm;
      var normalized := NormalizeName(alias);
      db := db.(aliases := db.aliases - {normalized});
    }
  }
}
