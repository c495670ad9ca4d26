/** The policy decision: a scan over the rules in priority order. */
module PolicyEngine {
  import opened Results

  datatype Effect = Allow | Deny | Conditional | Audit | Sandbox | RateLimit | ReadOnly

  const INT_MIN: int := -0x8000_0000

  type Priority = p: int | INT_MIN <= p < 0x8000_0000 witness 0

  datatype Rule = Rule(
    name: string, description: string, priority: Priority,
    requiredCapabilities: seq<string>, forbiddenCapabilities: seq<string>, requiredRoles: seq<string>,
    forbiddenRoles: seq<string>, effect: Effect, minTrustScore: Option<int>, maxTrustScore: Option<int>,
    requiredCertifications: seq<string>, meshId: string)

  datatype Context = Context(
    meshId: string, capabilities: seq<string>, roles: seq<string>, trustScore: real, attributes: map<string, string>)

  datatype Decision = Decision(effect: Effect, reason: string)

  // ---------- one rule against the context

  /** Mesh, capabilities and roles: a rule that fails here is passed over. */
  predicate Gates(rule: Rule, ctx: Context) {
    && (rule.meshId == "" || rule.meshId == ctx.meshId)
    && (forall c :: c in rule.requiredCapabilities ==> c in ctx.capabilities)
    && (forall c :: c in rule.forbiddenCapabilities ==> c !in ctx.capabilities)
    && (rule.requiredRoles == [] || exists r :: r in rule.requiredRoles && r in ctx.roles)
  }

  predicate TrustTooLow(rule: Rule, ctx: Context) {
    rule.minTrustScore.Some? && ctx.trustScore < rule.minTrustScore.value as real
  }

  predicate TrustTooHigh(rule: Rule, ctx: Context) {
    rule.maxTrustScore.Some? && ctx.trustScore > rule.maxTrustScore.value as real
  }

  /** A rule that passes the gates but not its trust bounds ends the whole evaluation. */
  predicate Vetoes(rule: Rule, ctx: Context) { Gates(rule, ctx) && (TrustTooLow(rule, ctx) || TrustTooHigh(rule, ctx)) }

  predicate Matches(rule: Rule, ctx: Context) {
    && Gates(rule, ctx) && !TrustTooLow(rule, ctx) && !TrustTooHigh(rule, ctx)
    && forall c :: c in rule.requiredCertifications ==> c in ctx.attributes
  }

  predicate Grants(rule: Rule, ctx: Context) { Matches(rule, ctx) && rule.effect != Deny }

  predicate Denies(rule: Rule, ctx: Context) { Matches(rule, ctx) && rule.effect == Deny }

  // ---------- the scan

  datatype Tracker = Tracker(allowPriority: int, allow: Option<Rule>, denyPriority: int, deny: Option<Rule>)

  const START := Tracker(INT_MIN, None, INT_MIN, None)

  datatype Outcome = Early(reason: string) | Finished(t: Tracker)

  function Observe(t: Tracker, rule: Rule): Tracker {
    if rule.effect == Deny then
      if rule.priority > t.denyPriority then t.(denyPriority := rule.priority, deny := Some(rule)) else t
    else
      if rule.priority > t.allowPriority then t.(allowPriority := rule.priority, allow := Some(rule)) else t
  }

  function Scan(rules: seq<Rule>, ctx: Context, t: Tracker): Outcome {
    if rules == [] then Finished(t)
    else if Gates(rules[0], ctx) && TrustTooLow(rules[0], ctx) then Early("Insufficient trust score")
    else if Gates(rules[0], ctx) && TrustTooHigh(rules[0], ctx) then Early("Trust score too high")
    else Scan(rules[1..], ctx, if Matches(rules[0], ctx) then Observe(t, rules[0]) else t)
  }

  function Reason(rule: Rule): string { if rule.description == "" then rule.name else rule.description }

  function Conclude(o: Outcome): Decision {
    match o
    case Early(reason) => Decision(Deny, reason)
    case Finished(t) =>
      if t.allowPriority > t.denyPriority && t.allow.Some? then Decision(t.allow.value.effect, Reason(t.allow.value))
      else if t.denyPriority != INT_MIN && t.deny.Some? then Decision(Deny, Reason(t.deny.value))
      else Decision(Deny, "No matching policy")
  }

  function Evaluate(rules: seq<Rule>, ctx: Context): Decision { Conclude(Scan(rules, ctx, START)) }

  predicate Permits(d: Decision) { d.effect != Deny }

  // ---------- what the scan finds

  /** From t to t' the two trackers have risen to the top of the matching rules. */
  ghost predicate Topped(rules: seq<Rule>, ctx: Context, t: Tracker, t': Tracker) {
    && t'.allowPriority >= t.allowPriority && t'.denyPriority >= t.denyPriority
    && (forall r :: r in rules && Grants(r, ctx) ==> r.priority <= t'.allowPriority)
    && (forall r :: r in rules && Denies(r, ctx) ==> r.priority <= t'.denyPriority)
    && (|| (t'.allowPriority == t.allowPriority && t'.allow == t.allow)
        || (t'.allow.Some? && t'.allow.value in rules && Grants(t'.allow.value, ctx)
            && t'.allow.value.priority == t'.allowPriority))
    && (|| (t'.denyPriority == t.denyPriority && t'.deny == t.deny)
        || (t'.deny.Some? && t'.deny.value in rules && Denies(t'.deny.value, ctx)
            && t'.deny.value.priority == t'.denyPriority))
  }

  ghost predicate NoVeto(rules: seq<Rule>, ctx: Context) { forall r :: r in rules ==> !Vetoes(r, ctx) }

  lemma {:induction false} ScanTops(rules: seq<Rule>, ctx: Context, t: Tracker)
    ensures Scan(rules, ctx, t).Finished? <==> NoVeto(rules, ctx)
    ensures Scan(rules, ctx, t).Finished? ==> Topped(rules, ctx, t, Scan(rules, ctx, t).t)
    decreases |rules|
  {
    if rules != [] {
      var r := rules[0];
      assert rules == [r] + rules[1..];
      hide Gates, TrustTooLow, TrustTooHigh, Matches;
      VetoOrMatch(r, ctx);
      var t1 := if Matches(r, ctx) then Observe(t, r) else t;
      ScanTops(rules[1..], ctx, t1);
    }
  }

  lemma VetoOrMatch(r: Rule, ctx: Context)
    ensures Vetoes(r, ctx) <==> Gates(r, ctx) && (TrustTooLow(r, ctx) || TrustTooHigh(r, ctx))
    ensures Matches(r, ctx) ==> !Vetoes(r, ctx)
  {}

  // ---------- the declarative rule

  /** r outranks every matching deny rule. */
  ghost predicate Outranks(r: Rule, rules: seq<Rule>, ctx: Context) {
    r.priority > INT_MIN && forall d :: d in rules && Denies(d, ctx) ==> r.priority > d.priority
  }

  ghost predicate PermitRule(rules: seq<Rule>, ctx: Context) {
    NoVeto(rules, ctx) && exists r :: r in rules && Grants(r, ctx) && Outranks(r, rules, ctx)
  }

  /** The scan permits exactly what the declarative rule permits, whatever the order of the rules. */
  lemma PermitsIffRule(rules: seq<Rule>, ctx: Context)
    ensures Permits(Evaluate(rules, ctx)) <==> PermitRule(rules, ctx)
  {
    hide Scan, Grants, Denies, NoVeto;
    ScanTops(rules, ctx, START);
    if NoVeto(rules, ctx) {
      var t := Scan(rules, ctx, START).t;
      if t.allowPriority > t.denyPriority && t.allow.Some? {
        assert Grants(t.allow.value, ctx) by { assert t.allow != START.allow; }
        GrantsEffect(t.allow.value, ctx);
        assert Outranks(t.allow.value, rules, ctx);
      } else {
        forall r | r in rules && Grants(r, ctx) ensures !Outranks(r, rules, ctx) {}
      }
    }
  }

  lemma GrantsEffect(r: Rule, ctx: Context)
    requires Grants(r, ctx)
    ensures r.effect != Deny
  {}

  lemma SameMembers(rules: seq<Rule>, rules': seq<Rule>)
    requires multiset(rules) == multiset(rules')
    ensures forall r :: r in rules <==> r in rules'
  {
    forall r ensures r in rules <==> r in rules' {
      assert r in rules <==> r in multiset(rules);
      assert r in rules' <==> r in multiset(rules');
    }
  }

  /** The permit-or-deny verdict does not depend on the order in which the rules are listed or sorted. */
  lemma VerdictIsOrderFree(rules: seq<Rule>, rules': seq<Rule>, ctx: Context)
    requires multiset(rules) == multiset(rules')
    ensures Permits(Evaluate(rules, ctx)) <==> Permits(Evaluate(rules', ctx))
  {
    hide Evaluate, Grants, Denies, Vetoes;
    SameMembers(rules, rules');
    PermitsIffRule(rules, ctx);
    PermitsIffRule(rules', ctx);
    if PermitRule(rules, ctx) {
      var r :| r in rules && Grants(r, ctx) && Outranks(r, rules, ctx);
      assert r in rules' && Outranks(r, rules', ctx);
    }
    if PermitRule(rules', ctx) {
      var r :| r in rules' && Grants(r, ctx) && Outranks(r, rules', ctx);
      assert r in rules && Outranks(r, rules, ctx);
    }
  }

  /** A further deny rule never turns a denial into a permit. */
  lemma AddingDenyNeverPermits(rules: seq<Rule>, rules': seq<Rule>, d: Rule, ctx: Context)
    requires d.effect == Deny && multiset(rules') == multiset(rules + [d])
    ensures Permits(Evaluate(rules', ctx)) ==> Permits(Evaluate(rules, ctx))
  {
    hide Evaluate, Denies, Vetoes, Matches;
    SameMembers(rules', rules + [d]);
    PermitsIffRule(rules, ctx);
    PermitsIffRule(rules', ctx);
    if PermitRule(rules', ctx) {
      var r :| r in rules' && Grants(r, ctx) && Outranks(r, rules', ctx);
      assert r in rules && Outranks(r, rules, ctx);
    }
  }

  // ---------- which effect is granted

  ghost predicate Descending(rules: seq<Rule>) {
    forall i, j :: 0 <= i < j < |rules| ==> rules[i].priority >= rules[j].priority
  }

  /** An order in which std::sort may leave the rules: ties come in any order. */
  ghost predicate SortedForm(order: seq<Rule>, rules: seq<Rule>) {
    multiset(order) == multiset(rules) && Descending(order)
  }

  /** A granting rule that no granting rule outranks. */
  ghost predicate Top(r: Rule, rules: seq<Rule>, ctx: Context) {
    r in rules && Grants(r, ctx) && forall q :: q in rules && Grants(q, ctx) ==> q.priority <= r.priority
  }

  /** The decision a permitting evaluation reaches is that of a top granting rule. */
  lemma PermitIsTop(rules: seq<Rule>, ctx: Context) returns (r: Rule)
    requires Permits(Evaluate(rules, ctx))
    ensures Top(r, rules, ctx) && Evaluate(rules, ctx) == Decision(r.effect, Reason(r))
  {
    hide Scan, Grants, Denies, NoVeto, Reason;
    ScanTops(rules, ctx, START);
    var t := Scan(rules, ctx, START).t;
    assert t.allow != START.allow;
    r := t.allow.value;
  }

  /**
   * A denial either comes from a rule whose trust bounds the session misses, or names a top matching deny
   * rule, or finds no deny rule above the lowest priority.
   */
  lemma DenialReason(rules: seq<Rule>, ctx: Context)
    requires !Permits(Evaluate(rules, ctx))
    ensures var reason := Evaluate(rules, ctx).reason;
      if !NoVeto(rules, ctx) then reason == "Insufficient trust score" || reason == "Trust score too high"
      else if forall d :: d in rules && Denies(d, ctx) ==> d.priority == INT_MIN then reason == "No matching policy"
      else exists d :: d in rules && Denies(d, ctx) && reason == Reason(d)
             && forall q :: q in rules && Denies(q, ctx) ==> q.priority <= d.priority
  {
    hide Grants, Denies, NoVeto, Reason, Gates, TrustTooLow, TrustTooHigh;
    EarlyReason(rules, ctx, START);
    ScanTops(rules, ctx, START);
    hide Scan;
    if NoVeto(rules, ctx) {
      var t := Scan(rules, ctx, START).t;
      if t.allowPriority > t.denyPriority && t.allow.Some? {
        assert t.allow != START.allow;
        GrantsEffect(t.allow.value, ctx);
        assert false;
      }
      if t.denyPriority != INT_MIN {
        assert t.deny != START.deny;
        assert t.deny.value in rules && Denies(t.deny.value, ctx) && t.deny.value.priority != INT_MIN;
      }
    }
  }

  lemma {:induction false} EarlyReason(rules: seq<Rule>, ctx: Context, t: Tracker)
    ensures var o := Scan(rules, ctx, t);
      o.Early? ==> o.reason == "Insufficient trust score" || o.reason == "Trust score too high"
    decreases |rules|
  {
    if rules != [] {
      EarlyReason(rules[1..], ctx, if Matches(rules[0], ctx) then Observe(t, rules[0]) else t);
    }
  }

  /** A tracker that already holds the top priority keeps its rule. */
  lemma {:induction false} TopStays(rules: seq<Rule>, ctx: Context, t: Tracker)
    requires NoVeto(rules, ctx)
    requires forall q :: q in rules && Grants(q, ctx) ==> q.priority <= t.allowPriority
    ensures Scan(rules, ctx, t).Finished?
    ensures Scan(rules, ctx, t).t.allowPriority == t.allowPriority && Scan(rules, ctx, t).t.allow == t.allow
    decreases |rules|
  {
    if rules != [] {
      var r := rules[0];
      assert rules == [r] + rules[1..];
      hide Gates, TrustTooLow, TrustTooHigh, Matches;
      VetoOrMatch(r, ctx);
      assert !Vetoes(r, ctx);
      TopStays(rules[1..], ctx, if Matches(r, ctx) then Observe(t, r) else t);
    }
  }

  /** A top rule that precedes every granting rule decides. */
  lemma {:induction false} FirstTopDecides(front: seq<Rule>, r: Rule, back: seq<Rule>, ctx: Context, t: Tracker)
    requires NoVeto(front + [r] + back, ctx) && Top(r, front + [r] + back, ctx)
    requires (forall q :: q in front ==> !Grants(q, ctx)) && t.allowPriority < r.priority
    ensures Scan(front + [r] + back, ctx, t).Finished?
    ensures Scan(front + [r] + back, ctx, t).t.allow == Some(r)
    ensures Scan(front + [r] + back, ctx, t).t.allowPriority == r.priority
    decreases |front|
  {
    var all := front + [r] + back;
    hide Gates, TrustTooLow, TrustTooHigh, Matches;
    VetoOrMatch(all[0], ctx);
    assert !Vetoes(all[0], ctx);
    if front == [] {
      assert all == [r] + back && all[1..] == back;
      assert r in all;
      forall q | q in back && Grants(q, ctx) ensures q.priority <= r.priority { assert q in all; }
      TopStays(back, ctx, Observe(t, r));
    } else {
      assert all[1..] == front[1..] + [r] + back;
      assert front[0] in front;
      var t1 := if Matches(all[0], ctx) then Observe(t, all[0]) else t;
      FirstTopDecides(front[1..], r, back, ctx, t1);
    }
  }

  function Insert(r: Rule, order: seq<Rule>): seq<Rule> {
    if order == [] then [r]
    else if order[0].priority <= r.priority then [r] + order
    else [order[0]] + Insert(r, order[1..])
  }

  lemma {:induction false} InsertSplits(r: Rule, order: seq<Rule>) returns (k: nat)
    requires Descending(order)
    ensures k <= |order| && Insert(r, order) == order[..k] + [r] + order[k..]
    ensures forall i :: 0 <= i < k ==> order[i].priority > r.priority
    ensures forall i :: k <= i < |order| ==> order[i].priority <= r.priority
  {
    if order == [] || order[0].priority <= r.priority {
      k := 0;
      assert Insert(r, order) == [r] + order;
    } else {
      var k1 := InsertSplits(r, order[1..]);
      k := k1 + 1;
      assert order[..k] == [order[0]] + order[1..][..k1];
      assert order[k..] == order[1..][k1..];
    }
  }

  /** Insertion keeps a list sorted and puts the new rule before everything it does not fall below. */
  lemma InsertSorted(r: Rule, order: seq<Rule>) returns (front: seq<Rule>, back: seq<Rule>)
    requires Descending(order)
    ensures Insert(r, order) == front + [r] + back
    ensures Descending(Insert(r, order)) && multiset(Insert(r, order)) == multiset([r] + order)
    ensures forall q :: q in front ==> q.priority > r.priority
  {
    hide Insert;
    var k := InsertSplits(r, order);
    front, back := order[..k], order[k..];
    assert order == front + back;
  }

  /** Every list of rules has a sorted form. */
  lemma {:induction false} SortExists(rules: seq<Rule>) returns (order: seq<Rule>)
    ensures SortedForm(order, rules)
  {
    if rules == [] {
      order := [];
    } else {
      var rest := SortExists(rules[1..]);
      var front, back := InsertSorted(rules[0], rest);
      order := Insert(rules[0], rest);
      assert rules == [rules[0]] + rules[1..];
    }
  }

  /** Some sort order lets a given top rule decide. */
  lemma TopCanDecide(r: Rule, rules: seq<Rule>, ctx: Context) returns (order: seq<Rule>)
    requires Top(r, rules, ctx) && Permits(Evaluate(rules, ctx))
    ensures SortedForm(order, rules) && Evaluate(order, ctx) == Decision(r.effect, Reason(r))
  {
    hide Evaluate, Grants, Denies, Vetoes, Reason;
    var k :| 0 <= k < |rules| && rules[k] == r;
    var others := rules[..k] + rules[k + 1..];
    assert rules == rules[..k] + [r] + rules[k + 1..];
    assert multiset(rules) == multiset([r] + others);
    var rest := SortExists(others);
    var front, back := InsertSorted(r, rest);
    order := Insert(r, rest);
    assert multiset(order) == multiset(rules);
    SameMembers(order, rules);
    PermitsIffRule(rules, ctx);
    VerdictIsOrderFree(rules, order, ctx);
    Decided(front, r, back, ctx);
  }

  lemma Decided(front: seq<Rule>, r: Rule, back: seq<Rule>, ctx: Context)
    requires Permits(Evaluate(front + [r] + back, ctx)) && Top(r, front + [r] + back, ctx)
    requires forall q :: q in front ==> q.priority > r.priority
    ensures Evaluate(front + [r] + back, ctx) == Decision(r.effect, Reason(r))
  {
    hide Scan, Grants, Denies, Vetoes, Reason, Permits, Matches;
    var all := front + [r] + back;
    PermitsIffRule(all, ctx);
    forall q | q in front ensures !Grants(q, ctx) { assert q in all; }
    var g :| g in all && Grants(g, ctx) && Outranks(g, all, ctx);
    FirstTopDecides(front, r, back, ctx, START);
    ScanTops(all, ctx, START);
    PermitReached(Scan(all, ctx, START));
  }

  lemma PermitReached(o: Outcome)
    requires o.Finished? && Permits(Conclude(o))
    ensures o.t.allow.Some? && Conclude(o) == Decision(o.t.allow.value.effect, Reason(o.t.allow.value))
  {
  }

  /**
   * The effect of a permitting evaluation is the same for every order the sort may produce exactly
   * when all top granting rules carry the same effect.
   */
  lemma EffectIsOrderFree(rules: seq<Rule>, ctx: Context)
    requires Permits(Evaluate(rules, ctx))
    ensures (forall o1, o2 :: SortedForm(o1, rules) && SortedForm(o2, rules)
              ==> Evaluate(o1, ctx).effect == Evaluate(o2, ctx).effect)
      <==> (forall r1, r2 :: Top(r1, rules, ctx) && Top(r2, rules, ctx) ==> r1.effect == r2.effect)
  {
    hide Evaluate, Top, Permits, Reason;
    var same := forall r1, r2 :: Top(r1, rules, ctx) && Top(r2, rules, ctx) ==> r1.effect == r2.effect;
    if same {
      forall o1, o2 | SortedForm(o1, rules) && SortedForm(o2, rules)
        ensures Evaluate(o1, ctx).effect == Evaluate(o2, ctx).effect
      {
        VerdictIsOrderFree(rules, o1, ctx);
        VerdictIsOrderFree(rules, o2, ctx);
        var r1 := PermitIsTop(o1, ctx);
        var r2 := PermitIsTop(o2, ctx);
        TopTransfers(r1, o1, rules, ctx);
        TopTransfers(r2, o2, rules, ctx);
      }
    } else {
      var r1, r2 :| Top(r1, rules, ctx) && Top(r2, rules, ctx) && r1.effect != r2.effect;
      var o1 := TopCanDecide(r1, rules, ctx);
      var o2 := TopCanDecide(r2, rules, ctx);
      assert Evaluate(o1, ctx).effect != Evaluate(o2, ctx).effect;
    }
  }

  lemma TopTransfers(r: Rule, order: seq<Rule>, rules: seq<Rule>, ctx: Context)
    requires multiset(order) == multiset(rules) && Top(r, order, ctx)
    ensures Top(r, rules, ctx)
  {
    hide Grants;
    SameMembers(order, rules);
  }

  // ---------- the gates in terms of the session

  predicate MeshFits(r: Rule, ctx: Context) { r.meshId == "" || r.meshId == ctx.meshId }

  predicate HoldsAll(need: seq<string>, have: seq<string>) { forall i :: 0 <= i < |need| ==> need[i] in have }

  predicate HoldsNone(banned: seq<string>, have: seq<string>) { forall i :: 0 <= i < |banned| ==> banned[i] !in have }

  predicate HoldsOneOf(roles: seq<string>, have: seq<string>) { exists i :: 0 <= i < |roles| && roles[i] in have }

  predicate Certified(r: Rule, ctx: Context) {
    forall i :: 0 <= i < |r.requiredCertifications| ==> r.requiredCertifications[i] in ctx.attributes
  }

  predicate TrustWithin(r: Rule, ctx: Context) {
    && (r.minTrustScore.Some? ==> r.minTrustScore.value as real <= ctx.trustScore)
    && (r.maxTrustScore.Some? ==> ctx.trustScore <= r.maxTrustScore.value as real)
  }

  /** The session passes the rule's gates. */
  predicate Admitted(r: Rule, ctx: Context) {
    && MeshFits(r, ctx)
    && HoldsAll(r.requiredCapabilities, ctx.capabilities)
    && HoldsNone(r.forbiddenCapabilities, ctx.capabilities)
    && (|r.requiredRoles| == 0 || HoldsOneOf(r.requiredRoles, ctx.roles))
  }

  lemma GatesMeaning(r: Rule, ctx: Context)
    ensures Gates(r, ctx) <==> Admitted(r, ctx)
    ensures Vetoes(r, ctx) <==> Admitted(r, ctx) && !TrustWithin(r, ctx)
    ensures Matches(r, ctx) <==> Admitted(r, ctx) && TrustWithin(r, ctx) && Certified(r, ctx)
  {
    assert (forall c :: c in r.requiredCapabilities ==> c in ctx.capabilities) <==>
      HoldsAll(r.requiredCapabilities, ctx.capabilities);
    assert (forall c :: c in r.forbiddenCapabilities ==> c !in ctx.capabilities) <==>
      HoldsNone(r.forbiddenCapabilities, ctx.capabilities);
    if role :| role in r.requiredRoles && role in ctx.roles {
      var i :| 0 <= i < |r.requiredRoles| && r.requiredRoles[i] == role;
      assert r.requiredRoles[i] in ctx.roles;
    }
    if HoldsOneOf(r.requiredRoles, ctx.roles) {
      var i :| 0 <= i < |r.requiredRoles| && r.requiredRoles[i] in ctx.roles;
      assert r.requiredRoles[i] in r.requiredRoles;
    }
    assert (forall c :: c in r.requiredCertifications ==> c in ctx.attributes) <==> Certified(r, ctx);
  }

  /** A permit comes from a listed rule that the session meets in every respect, with that rule's effect and words. */
  lemma PermitHasSource(rules: seq<Rule>, ctx: Context) returns (r: Rule)
    requires Permits(Evaluate(rules, ctx))
    ensures r in rules && r.effect != Deny && r.priority > -0x8000_0000
    ensures Admitted(r, ctx) && TrustWithin(r, ctx) && Certified(r, ctx)
    ensures Evaluate(rules, ctx) == Decision(r.effect, if r.description == "" then r.name else r.description)
  {
    hide Evaluate, Matches, Admitted, TrustWithin, Certified;
    r := PermitIsTop(rules, ctx);
    GatesMeaning(r, ctx);
    PermitsIffRule(rules, ctx);
    var g :| g in rules && Grants(g, ctx) && Outranks(g, rules, ctx);
  }

  lemma {:induction false} ScanWithout(front: seq<Rule>, r: Rule, back: seq<Rule>, ctx: Context, t: Tracker)
    requires !Matches(r, ctx) && !Vetoes(r, ctx)
    ensures Scan(front + [r] + back, ctx, t) == Scan(front + back, ctx, t)
    decreases |front|
  {
    hide Matches, Gates, TrustTooLow, TrustTooHigh;
    if front == [] {
      assert front + [r] + back == [r] + back && front + back == back && ([r] + back)[1..] == back;
      VetoOrMatch(r, ctx);
    } else {
      var all, less := front + [r] + back, front + back;
      assert all[1..] == front[1..] + [r] + back && less[1..] == front[1..] + back;
      var t' := if Matches(front[0], ctx) then Observe(t, front[0]) else t;
      ScanWithout(front[1..], r, back, ctx, t');
    }
  }

  /**
   A rule whose gates the session misses, any one of them, has no part in any decision; neither has one whose
   certifications it lacks, as long as the trust score is within the rule's bounds.
   */
  lemma UnmetRuleIsIgnored(front: seq<Rule>, r: Rule, back: seq<Rule>, ctx: Context)
    requires
      || (r.meshId != "" && r.meshId != ctx.meshId)
      || (exists i :: 0 <= i < |r.requiredCapabilities| && r.requiredCapabilities[i] !in ctx.capabilities)
      || (exists i :: 0 <= i < |r.forbiddenCapabilities| && r.forbiddenCapabilities[i] in ctx.capabilities)
      || (r.requiredRoles != [] && forall i :: 0 <= i < |r.requiredRoles| ==> r.requiredRoles[i] !in ctx.roles)
      || (TrustWithin(r, ctx) && exists i :: 0 <= i < |r.requiredCertifications| && r.requiredCertifications[i] !in ctx.attributes)
    ensures Evaluate(front + [r] + back, ctx) == Evaluate(front + back, ctx)
  {
    GatesMeaning(r, ctx);
    hide Matches, Vetoes, Scan;
    ScanWithout(front, r, back, ctx, START);
  }

  /** A rule that the session passes but whose trust bounds it misses denies, whatever else is listed. */
  lemma TrustVetoes(rules: seq<Rule>, r: Rule, ctx: Context)
    requires r in rules && Admitted(r, ctx) && !TrustWithin(r, ctx)
    ensures Evaluate(rules, ctx).effect == Deny
  {
    hide Evaluate, Vetoes, Admitted, TrustWithin;
    GatesMeaning(r, ctx);
    PermitsIffRule(rules, ctx);
  }

  /** Of several such rules the first in the list gives the reason. */
  lemma {:induction false} VetoReason(rules: seq<Rule>, k: nat, ctx: Context, t: Tracker)
    requires k < |rules| && Admitted(rules[k], ctx)
    requires forall j :: 0 <= j < k ==> Admitted(rules[j], ctx) ==> TrustWithin(rules[j], ctx)
    ensures rules[k].minTrustScore.Some? && ctx.trustScore < rules[k].minTrustScore.value as real ==>
      Scan(rules, ctx, t) == Early("Insufficient trust score")
    ensures ((rules[k].minTrustScore.Some? ==> rules[k].minTrustScore.value as real <= ctx.trustScore)
             && rules[k].maxTrustScore.Some? && ctx.trustScore > rules[k].maxTrustScore.value as real) ==>
      Scan(rules, ctx, t) == Early("Trust score too high")
    decreases k
  {
    GatesMeaning(rules[0], ctx);
    hide Gates, Matches, Admitted;
    if k > 0 {
      VetoReason(rules[1..], k - 1, ctx, if Matches(rules[0], ctx) then Observe(t, rules[0]) else t);
    }
  }

  predicate InForce(r: Rule, ctx: Context) { Admitted(r, ctx) && TrustWithin(r, ctx) && Certified(r, ctx) }

  /** The verdict over any rules: ties go to the deny rule, and a rule at the lowest priority never permits. */
  lemma VerdictMeaning(rules: seq<Rule>, ctx: Context)
    ensures Evaluate(rules, ctx).effect != Deny <==>
      && (forall r :: r in rules && Admitted(r, ctx) ==> TrustWithin(r, ctx))
      && (exists r :: r in rules && InForce(r, ctx) && r.effect != Deny && r.priority > -0x8000_0000
            && forall d :: d in rules && InForce(d, ctx) && d.effect == Deny ==> d.priority < r.priority)
  {
    forall r ensures (Vetoes(r, ctx) <==> Admitted(r, ctx) && !TrustWithin(r, ctx)) && (Matches(r, ctx) <==> InForce(r, ctx)) {
      GatesMeaning(r, ctx);
    }
    PermitsIffRule(rules, ctx);
    hide Evaluate, Matches, Vetoes, Admitted, TrustWithin, InForce;
    if PermitRule(rules, ctx) {
      var r :| r in rules && Grants(r, ctx) && Outranks(r, rules, ctx);
      assert r in rules && InForce(r, ctx) && r.effect != Deny && r.priority > -0x8000_0000
        && forall d :: d in rules && InForce(d, ctx) && d.effect == Deny ==> d.priority < r.priority;
    }
    forall r | r in rules && InForce(r, ctx) && r.effect != Deny && r.priority > -0x8000_0000
        && forall d :: d in rules && InForce(d, ctx) && d.effect == Deny ==> d.priority < r.priority
      ensures Grants(r, ctx) && Outranks(r, rules, ctx)
    {}
  }

  /** The decision of a rule alone. */
  lemma LoneRule(r: Rule, ctx: Context)
    ensures Permits(Evaluate([r], ctx)) <==>
      r.effect != Deny && r.priority > -0x8000_0000 && Admitted(r, ctx) && TrustWithin(r, ctx) && Certified(r, ctx)
    ensures Permits(Evaluate([r], ctx)) ==> Evaluate([r], ctx).effect == r.effect
    ensures !Admitted(r, ctx) || (TrustWithin(r, ctx) && !Certified(r, ctx)) ==>
      Evaluate([r], ctx) == Decision(Deny, "No matching policy")
    ensures Admitted(r, ctx) && r.minTrustScore.Some? && ctx.trustScore < r.minTrustScore.value as real ==>
      Evaluate([r], ctx) == Decision(Deny, "Insufficient trust score")
    ensures (Admitted(r, ctx) && (r.minTrustScore.Some? ==> r.minTrustScore.value as real <= ctx.trustScore)
             && r.maxTrustScore.Some? && ctx.trustScore > r.maxTrustScore.value as real) ==>
      Evaluate([r], ctx) == Decision(Deny, "Trust score too high")
    ensures Admitted(r, ctx) && TrustWithin(r, ctx) && Certified(r, ctx) && r.effect == Deny && r.priority > -0x8000_0000 ==>
      Evaluate([r], ctx) == Decision(Deny, if r.description == "" then r.name else r.description)
  {
    GatesMeaning(r, ctx);
    hide Gates, Matches, Admitted, Certified;
    var t := if Matches(r, ctx) then Observe(START, r) else START;
    assert [r][1..] == [];
    assert Scan([], ctx, t) == Finished(t);
  }

  // ---------- forbidden roles

  function WithoutForbiddenRoles(rules: seq<Rule>): (plain: seq<Rule>)
    ensures |plain| == |rules|
    ensures forall i :: 0 <= i < |rules| ==> plain[i] == rules[i].(forbiddenRoles := [])
  {
    seq(|rules|, i requires 0 <= i < |rules| => rules[i].(forbiddenRoles := []))
  }

  lemma MatchIgnoresForbiddenRoles(r: Rule, ctx: Context)
    ensures var p := r.(forbiddenRoles := []);
      && Gates(p, ctx) == Gates(r, ctx) && Matches(p, ctx) == Matches(r, ctx)
      && TrustTooLow(p, ctx) == TrustTooLow(r, ctx) && TrustTooHigh(p, ctx) == TrustTooHigh(r, ctx)
  {}

  function Plain(t: Tracker): Tracker {
    t.(allow := if t.allow.Some? then Some(t.allow.value.(forbiddenRoles := [])) else None,
       deny := if t.deny.Some? then Some(t.deny.value.(forbiddenRoles := [])) else None)
  }

  lemma {:induction false} ScanIgnoresForbiddenRoles(rules: seq<Rule>, ctx: Context, t: Tracker)
    ensures var o, o' := Scan(rules, ctx, t), Scan(WithoutForbiddenRoles(rules), ctx, Plain(t));
      if o.Early? then o' == o else o' == Finished(Plain(o.t))
    decreases |rules|
  {
    if rules != [] {
      hide Gates, Matches, TrustTooLow, TrustTooHigh;
      var r := rules[0];
      MatchIgnoresForbiddenRoles(r, ctx);
      assert WithoutForbiddenRoles(rules)[1..] == WithoutForbiddenRoles(rules[1..]);
      ScanIgnoresForbiddenRoles(rules[1..], ctx, if Matches(r, ctx) then Observe(t, r) else t);
    }
  }

  /** Dropping every forbidden role from every rule changes no decision. */
  lemma ForbiddenRolesIgnored(rules: seq<Rule>, ctx: Context)
    ensures Evaluate(WithoutForbiddenRoles(rules), ctx) == Evaluate(rules, ctx)
  {
    hide Scan, WithoutForbiddenRoles;
    ScanIgnoresForbiddenRoles(rules, ctx, START);
  }

  /** A rule that forbids the role "guest" lets a guest in. */
  lemma ForbiddenRolePermitted()
    ensures var rule := Rule("r", "", 0, [], [], [], ["guest"], Allow, None, None, [], "");
      Permits(Evaluate([rule], Context("", [], ["guest"], 0.0, map[])))
  {
    var rule := Rule("r", "", 0, [], [], [], ["guest"], Allow, None, None, [], "");
    var ctx := Context("", [], ["guest"], 0.0, map[]);
    PermitsIffRule([rule], ctx);
    assert rule in [rule] && Grants(rule, ctx) && Outranks(rule, [rule], ctx);
  }

  // ---------- the procedure

  /** The evaluation loop over the rules in the order the sort left them. */
  method EvaluateRules(rules: seq<Rule>, order: seq<Rule>, ctx: Context) returns (d: Decision)
    requires SortedForm(order, rules)
    ensures d == Evaluate(order, ctx)
    ensures Permits(d) <==> PermitRule(rules, ctx)
  {
    hide Gates, TrustTooLow, TrustTooHigh, PermitRule, SortedForm;
    PermitsIffRule(rules, ctx);
    SortedVerdict(order, rules, ctx);
    var t := START;
    var i := 0;
    while i < |order|
      invariant 0 <= i <= |order|
      invariant Scan(order[i..], ctx, t) == Scan(order, ctx, START)
    {
      var rule := order[i];
      assert order[i..][1..] == order[i + 1..];
      if Gates(rule, ctx) {
        if TrustTooLow(rule, ctx) {
          return Decision(Deny, "Insufficient trust score");
        }
        if TrustTooHigh(rule, ctx) {
          return Decision(Deny, "Trust score too high");
        }
        if forall c :: c in rule.requiredCertifications ==> c in ctx.attributes {
          if rule.effect == Deny {
            if rule.priority > t.denyPriority {
              t := t.(denyPriority := rule.priority, deny := Some(rule));
            }
          } else if rule.priority > t.allowPriority {
            t := t.(allowPriority := rule.priority, allow := Some(rule));
          }
        }
      }
      i := i + 1;
    }
    if t.allowPriority > t.denyPriority && t.allow.Some? {
      return Decision(t.allow.value.effect, Reason(t.allow.value));
    } else if t.denyPriority != INT_MIN && t.deny.Some? {
      return Decision(Deny, Reason(t.deny.value));
    }
    return Decision(Deny, "No matching policy");
  }

  lemma SortedVerdict(order: seq<Rule>, rules: seq<Rule>, ctx: Context)
    requires SortedForm(order, rules)
    ensures Permits(Evaluate(order, ctx)) <==> Permits(Evaluate(rules, ctx))
  {
    VerdictIsOrderFree(order, rules, ctx);
  }
}
